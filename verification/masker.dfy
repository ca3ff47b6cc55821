/** The masker (`maskArray`, PasswordUtil.cpp:85-93): bytes 0..7 of the
    buffer are XORed with a mask made from the key's high nibble; byte 8,
    where the key itself is stored, is left alone. */
module Masker {
  import opened Bits

  /** Number of bytes the mask is applied to. */
  const MaskedBytes: nat := 8

  /** Lines 87-88: the key's high nibble copied into both nibbles. */
  function Mask(key: Byte): (mask: Byte)
    ensures mask >> 4 == key >> 4
    ensures mask & 0x0F == key >> 4
  {
    var high := key & 0xF0;
    high | (high >> 4)
  }

  /** The effect of `maskArray` on a buffer of at least eight bytes: each
      of bytes 0..7 differs from before by exactly the mask, and the rest
      are as they were. */
  function MaskArray(a: seq<Byte>, key: Byte): (r: seq<Byte>)
    requires |a| >= MaskedBytes
    ensures |r| == |a|
    ensures forall i :: 0 <= i < MaskedBytes ==> r[i] ^ a[i] == Mask(key)
    ensures r[MaskedBytes..] == a[MaskedBytes..]
  {
    seq(|a|, i requires 0 <= i < |a| => if i < MaskedBytes then a[i] ^ Mask(key) else a[i])
  }

  /** The loop of lines 89-92 on a copy of the buffer. */
  method MaskLoop(arrayCode: seq<Byte>, key: Byte) returns (r: seq<Byte>)
    requires |arrayCode| >= MaskedBytes
    ensures r == MaskArray(arrayCode, key)
  {
    var mask := key & 0xF0;
    mask := mask | (mask >> 4);
    r := arrayCode;
    var x: nat := 0;
    while x < 8
      invariant x <= MaskedBytes && |r| == |arrayCode|
      invariant forall i :: 0 <= i < x ==> r[i] == arrayCode[i] ^ Mask(key)
      invariant forall i :: x <= i < |r| ==> r[i] == arrayCode[i]
    {
      r := r[x := r[x] ^ mask];
      x := x + 1;
    }
  }

  /** Masking twice with the same key restores the buffer. */
  lemma MaskTwice(a: seq<Byte>, key: Byte)
    requires |a| >= MaskedBytes
    ensures MaskArray(MaskArray(a, key), key) == a
  {
    var r := MaskArray(MaskArray(a, key), key);
    forall i | 0 <= i < |a|
      ensures r[i] == a[i]
    {
      if i >= MaskedBytes {
        assert r[i] == r[MaskedBytes..][i - MaskedBytes];
        assert a[i] == a[MaskedBytes..][i - MaskedBytes];
      }
    }
  }

  /** A key below 16 has a zero high nibble, so masking with it changes
      nothing. */
  lemma MaskSmallKey(a: seq<Byte>, key: Byte)
    requires |a| >= MaskedBytes && key < 16
    ensures MaskArray(a, key) == a
  {
    var r := MaskArray(a, key);
    assert Mask(key) == 0;
    forall i | 0 <= i < |a|
      ensures r[i] == a[i]
    {
      if i >= MaskedBytes {
        assert r[i] == r[MaskedBytes..][i - MaskedBytes];
        assert a[i] == a[MaskedBytes..][i - MaskedBytes];
      }
    }
  }

  /** Two keys mask a buffer alike exactly when their high nibbles agree:
      the low nibble of the key plays no part. */
  lemma MaskHighNibbleIff(a: seq<Byte>, key1: Byte, key2: Byte)
    requires |a| >= MaskedBytes
    ensures MaskArray(a, key1) == MaskArray(a, key2) <==> key1 >> 4 == key2 >> 4
  {
    var r1 := MaskArray(a, key1);
    var r2 := MaskArray(a, key2);
    if key1 >> 4 == key2 >> 4 {
      assert Mask(key1) == Mask(key2) by {
        MaskFromNibble(key1);
        MaskFromNibble(key2);
      }
      assert r1 == r2;
    }
    if r1 == r2 {
      assert Mask(key1) == r1[0] ^ a[0] == Mask(key2);
    }
  }

  /** The mask is determined by the key's high nibble. */
  lemma MaskFromNibble(key: Byte)
    ensures Mask(key) == ((key >> 4) << 4) | (key >> 4)
  {
  }
}
