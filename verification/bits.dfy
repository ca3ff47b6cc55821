/** Bytes, their bits, and bit rings: the vocabulary the encoder's stages are
    specified in. A "ring" is the bit string obtained by reading a run of bytes
    byte 0 first and, within every byte, most significant bit first; a right
    rotation of the ring moves every bit towards the end and the bits that
    fall off the end back to the front. */
module Bits {

  /** An unsigned 8-bit value (`uint8_t`). */
  type Byte = bv8

  /** Bit `m` of `b`, counting from the most significant bit (m = 0) down to
      the least significant one (m = 7). */
  predicate Bit(b: Byte, m: nat)
    requires m < 8
  {
    b & BitMask(m) != 0
  }

  /** The one-bit mask selecting bit `m`, most significant first. */
  function BitMask(m: nat): Byte
    requires m < 8
  {
    if m == 0 then 0x80 else BitMask(m - 1) >> 1
  }

  /** The masks spelt out. */
  lemma MaskTable(m: nat)
    requires m < 8
    ensures BitMask(m)
         == if m == 0 then 0x80 else if m == 1 then 0x40 else if m == 2 then 0x20
            else if m == 3 then 0x10 else if m == 4 then 0x08 else if m == 5 then 0x04
            else if m == 6 then 0x02 else 0x01
  {
    if m == 0 {
    } else if m == 1 {
      assert BitMask(m) == BitMask(1);
    } else if m == 2 {
      assert BitMask(m) == BitMask(2);
    } else if m == 3 {
      assert BitMask(m) == BitMask(3);
    } else if m == 4 {
      assert BitMask(m) == BitMask(4);
    } else if m == 5 {
      assert BitMask(m) == BitMask(5);
    } else if m == 6 {
      assert BitMask(m) == BitMask(6);
    } else {
      assert BitMask(m) == BitMask(7);
    }
  }

  /** 1 for a set bit, 0 for a clear one. */
  function BitValue(b: bool): nat
  {
    if b then 1 else 0
  }

  /** Two bytes that agree on every bit are equal. */
  lemma BitsDetermineByte(x: Byte, y: Byte)
    requires forall m :: 0 <= m < 8 ==> Bit(x, m) == Bit(y, m)
    ensures x == y
  {
    assert Bit(x, 0) == Bit(y, 0);
    assert Bit(x, 1) == Bit(y, 1);
    assert Bit(x, 2) == Bit(y, 2);
    assert Bit(x, 3) == Bit(y, 3);
    assert Bit(x, 4) == Bit(y, 4);
    assert Bit(x, 5) == Bit(y, 5);
    assert Bit(x, 6) == Bit(y, 6);
    assert Bit(x, 7) == Bit(y, 7);
  }

  /** The carry step of a sub-byte right shift by `l`: `cur` shifted right
      by `l`, with `prev` shifted left into the vacated top bits. */
  function CarryByte(prev: Byte, cur: Byte, l: Byte): Byte
    requires l < 8
  {
    (cur >> l) | (prev << (8 - l))
  }

  /** A carried byte holds the low `l` bits of `prev` followed by the high
      `8 - l` bits of `cur`. With `l == 0` the shift of `prev` by eight
      leaves nothing of it. */
  lemma CarryBits(prev: Byte, cur: Byte, l: Byte, m: nat)
    requires l < 8 && m < 8
    ensures Bit(CarryByte(prev, cur, l), m)
         == if m >= l as int then Bit(cur, m - l as int) else Bit(prev, 8 + m - l as int)
  {
    MaskTable(m);
    if m >= l as int {
      MaskTable(m - l as int);
    } else {
      MaskTable(8 + m - l as int);
    }
  }

  /** The value of the five most significant bits of `y`, read most
      significant first. */
  lemma TopFiveBits(y: Byte)
    ensures (y >> 3) as int
         == 16 * BitValue(Bit(y, 0)) + 8 * BitValue(Bit(y, 1)) + 4 * BitValue(Bit(y, 2))
          + 2 * BitValue(Bit(y, 3)) + BitValue(Bit(y, 4))
  {
  }

  /** The ring of `s`: its bits, byte 0 first, most significant bit first. */
  function Ring(s: seq<Byte>): (r: seq<bool>)
    ensures |r| == 8 * |s|
  {
    seq(8 * |s|, j requires 0 <= j < 8 * |s| => Bit(s[j / 8], j % 8))
  }

  /** Ring position `8 * i + m` is bit `m` of byte `i`. */
  lemma RingAt(s: seq<Byte>, i: nat, m: nat)
    requires i < |s| && m < 8
    ensures Ring(s)[8 * i + m] == Bit(s[i], m)
  {
    assert (8 * i + m) / 8 == i && (8 * i + m) % 8 == m;
  }

  /** The byte spelt by the eight bits of `bits` from position `p` on, most
      significant first. */
  function ByteOf(bits: seq<bool>, p: nat): Byte
    requires p + 8 <= |bits|
  {
    (if bits[p] then 0x80 else 0) | (if bits[p + 1] then 0x40 else 0)
    | (if bits[p + 2] then 0x20 else 0) | (if bits[p + 3] then 0x10 else 0)
    | (if bits[p + 4] then 0x08 else 0) | (if bits[p + 5] then 0x04 else 0)
    | (if bits[p + 6] then 0x02 else 0) | (if bits[p + 7] then 0x01 else 0)
  }

  /** Bit `m` of the byte spelt from position `p` is the bit at `p + m`. */
  lemma ByteOfBit(bits: seq<bool>, p: nat, m: nat)
    requires p + 8 <= |bits| && m < 8
    ensures Bit(ByteOf(bits, p), m) == bits[p + m]
  {
    MaskTable(m);
  }

  /** The bytes a bit string spells, eight bits to a byte: the inverse of
      `Ring`. */
  function FromRing(bits: seq<bool>): (s: seq<Byte>)
    requires |bits| % 8 == 0
    ensures |s| == |bits| / 8
    ensures Ring(s) == bits
  {
    var s := seq(|bits| / 8, i requires 0 <= i < |bits| / 8 => ByteOf(bits, 8 * i));
    assert forall j :: 0 <= j < |bits| ==> Ring(s)[j] == bits[j] by {
      forall j | 0 <= j < |bits|
        ensures Ring(s)[j] == bits[j]
      {
        ByteOfBit(bits, 8 * (j / 8), j % 8);
      }
    }
    s
  }

  /** Reading bytes as a ring loses nothing: equal rings mean equal bytes. */
  lemma RingInjective(s: seq<Byte>, t: seq<Byte>)
    requires |s| == |t| && Ring(s) == Ring(t)
    ensures s == t
  {
    forall i | 0 <= i < |s|
      ensures s[i] == t[i]
    {
      forall m | 0 <= m < 8
        ensures Bit(s[i], m) == Bit(t[i], m)
      {
        RingAt(s, i, m);
        RingAt(t, i, m);
      }
      BitsDetermineByte(s[i], t[i]);
    }
  }

  /** The ring of two byte strings one after the other is their rings one
      after the other. */
  lemma RingAppend(s: seq<Byte>, t: seq<Byte>)
    ensures Ring(s + t) == Ring(s) + Ring(t)
  {
    forall j | 0 <= j < 8 * (|s| + |t|)
      ensures Ring(s + t)[j] == (Ring(s) + Ring(t))[j]
    {
      var i, m := j / 8, j % 8;
      assert j == 8 * i + m;
      RingAt(s + t, i, m);
      if i < |s| {
        RingAt(s, i, m);
      } else {
        RingAt(t, i - |s|, m);
        assert j - 8 * |s| == 8 * (i - |s|) + m;
      }
    }
  }

  /** The number of set bits in `bits`. */
  function Count(bits: seq<bool>): nat
  {
    if |bits| == 0 then 0 else Count(bits[..|bits| - 1]) + BitValue(bits[|bits| - 1])
  }

  /** Counting is additive over concatenation. */
  lemma {:induction false} CountAppend(x: seq<bool>, y: seq<bool>)
    ensures Count(x + y) == Count(x) + Count(y)
    decreases |y|
  {
    if |y| == 0 {
      assert x + y == x;
    } else {
      assert (x + y)[..|x + y| - 1] == x + y[..|y| - 1];
      CountAppend(x, y[..|y| - 1]);
    }
  }

  /** `x` reduced into `0..w-1` by adding or subtracting `w`: the position
      `x` lands on in a ring of `w` positions. */
  function Wrap(x: int, w: nat): (r: nat)
    requires w > 0
    ensures r < w
    decreases if x < 0 then w - x else x
  {
    if x < 0 then Wrap(x + w, w) else if x < w then x else Wrap(x - w, w)
  }

  /** Moving a whole turn round the ring lands on the same position. */
  lemma WrapTurn(x: int, w: nat)
    requires w > 0
    ensures Wrap(x + w, w) == Wrap(x, w)
  {
  }

  /** Reducing early does not change where a step back lands. */
  lemma {:induction false} WrapSub(x: int, y: int, w: nat)
    requires w > 0
    ensures Wrap(Wrap(x, w) - y, w) == Wrap(x - y, w)
    decreases if x < 0 then w - x else x
  {
    if x < 0 {
      WrapSub(x + w, y, w);
      WrapTurn(x - y, w);
    } else if x >= w {
      WrapSub(x - w, y, w);
      WrapTurn(x - w - y, w);
    }
  }

  /** Wrapping a bit position of a ring of bytes: byte `x` wraps to byte
      `Wrap(x, n)` and the bit within the byte stays. */
  lemma {:induction false} WrapScale(x: int, m: nat, n: nat)
    requires n > 0 && m < 8
    ensures Wrap(8 * x + m, 8 * n) == 8 * Wrap(x, n) + m
    decreases if x < 0 then n - x else x
  {
    if x < 0 {
      WrapScale(x + n, m, n);
      assert 8 * (x + n) + m == (8 * x + m) + 8 * n;
    } else if x >= n {
      WrapScale(x - n, m, n);
      assert 8 * (x - n) + m == (8 * x + m) - 8 * n;
    }
  }

  /** `Wrap` is the remainder of Euclidean division. */
  lemma {:induction false} WrapIsMod(x: int, w: nat)
    requires w > 0
    ensures Wrap(x, w) == x % w
    decreases if x < 0 then w - x else x
  {
    if x < 0 {
      WrapIsMod(x + w, w);
      ModUnique(x, (x + w) / w - 1, (x + w) % w, w);
    } else if x >= w {
      WrapIsMod(x - w, w);
      ModUnique(x, (x - w) / w + 1, (x - w) % w, w);
    } else {
      ModUnique(x, 0, x, w);
    }
  }

  /** The ring `bits` rotated right by `k` positions: the bit at position `j`
      moves to position `j + k`, and bits leaving the end re-enter at the
      front. Positions are reduced with `Wrap`, which `WrapIsMod` shows is
      Euclidean `%`. */
  function RotR(bits: seq<bool>, k: nat): (r: seq<bool>)
    ensures |r| == |bits|
  {
    seq(|bits|, j requires 0 <= j < |bits| => bits[Wrap(j - k, |bits|)])
  }

  /** Multiplying by a positive factor does not shrink a positive number. */
  lemma MulMonotone(d: int, n: int)
    requires d >= 1 && n > 0
    ensures d * n >= n
  {
  }

  /** Quotient and remainder are unique: any decomposition `x == q * n + r`
      with `0 <= r < n` is the one `/` and `%` compute. */
  lemma ModUnique(x: int, q: int, r: int, n: int)
    requires n > 0 && 0 <= r < n && x == q * n + r
    ensures x % n == r && x / n == q
  {
    var q0 := x / n;
    var r0 := x % n;
    assert x == q0 * n + r0;
    var d := q0 - q;
    assert d * n == q0 * n - q * n;
    if d >= 1 {
      MulMonotone(d, n);
    } else if d <= -1 {
      assert (-d) * n == r0 - r;
      MulMonotone(-d, n);
    }
  }

  /** Rotating by nothing changes nothing. */
  lemma RotRZero(bits: seq<bool>)
    ensures RotR(bits, 0) == bits
  {
    forall j | 0 <= j < |bits|
      ensures RotR(bits, 0)[j] == bits[j]
    {
      assert Wrap(j - 0, |bits|) == j;
    }
  }

  /** Rotating by `k1` and then by `k2` is rotating by their sum. */
  lemma RotRCompose(bits: seq<bool>, k1: nat, k2: nat)
    ensures RotR(RotR(bits, k1), k2) == RotR(bits, k1 + k2)
  {
    var w := |bits|;
    forall j | 0 <= j < w
      ensures RotR(RotR(bits, k1), k2)[j] == RotR(bits, k1 + k2)[j]
    {
      WrapSub(j - k2, k1, w);
      assert j - k2 - k1 == j - (k1 + k2);
    }
  }

  /** In a ring of `n` bytes, turning by `d` whole bytes moves bit `m` of
      byte `i - d` (counted round the ring) to bit `m` of byte `i`. */
  lemma RotRByBytes(bits: seq<bool>, n: nat, d: nat, i: nat, m: nat)
    requires |bits| == 8 * n && i < n && m < 8
    ensures RotR(bits, 8 * d)[8 * i + m] == bits[8 * Wrap(i - d, n) + m]
  {
    assert 8 * i + m - 8 * d == 8 * (i - d) + m;
    WrapScale(i - d, m, n);
  }

  /** In a ring of `n` bytes, turning by `k < 8` bits moves bit `m - k` of
      a byte to bit `m` of the same byte, or bit `8 + m - k` of the byte
      before (the last byte for byte 0) when `m < k`. */
  lemma RotRWithinByte(bits: seq<bool>, n: nat, i: nat, m: nat, k: nat)
    requires |bits| == 8 * n && i < n && m < 8 && k < 8
    ensures RotR(bits, k)[8 * i + m]
         == if m >= k then bits[8 * i + (m - k)]
            else bits[8 * (if i == 0 then n - 1 else i - 1) + (8 + m - k)]
  {
    var j := 8 * i + m;
    if m < k && i == 0 {
      WrapTurn(j - k, 8 * n);
      assert Wrap(j - k + 8 * n, 8 * n) == 8 * (n - 1) + (8 + m - k);
    } else if m < k {
      assert Wrap(j - k, 8 * n) == 8 * (i - 1) + (8 + m - k);
    } else {
      assert Wrap(j - k, 8 * n) == 8 * i + (m - k);
    }
  }

  /** `RotRCompose` for rings known only through the rotations that made
      them, with the total amount named. */
  lemma RotRChainSum(bits: seq<bool>, x: seq<bool>, y: seq<bool>, k1: nat, k2: nat, sum: nat)
    requires x == RotR(bits, k1) && y == RotR(x, k2) && sum == k1 + k2
    ensures y == RotR(bits, sum)
  {
    RotRCompose(bits, k1, k2);
  }

  /** A rotation by the full width changes nothing. */
  lemma RotRFull(bits: seq<bool>)
    ensures RotR(bits, |bits|) == bits
  {
    var w := |bits|;
    forall j | 0 <= j < w
      ensures RotR(bits, w)[j] == bits[j]
    {
      WrapTurn(j - w, w);
    }
  }

  /** A right rotation by `k` is undone by a right rotation by `w - k`. */
  lemma RotRInverse(bits: seq<bool>, k: nat)
    requires k <= |bits|
    ensures RotR(RotR(bits, k), |bits| - k) == bits
  {
    RotRCompose(bits, k, |bits| - k);
    RotRFull(bits);
  }

  /** A rotation by at most the width is a cut of the ring into two pieces,
      swapped. */
  lemma RotRSplit(bits: seq<bool>, k: nat)
    requires k <= |bits|
    ensures RotR(bits, k) == bits[|bits| - k..] + bits[..|bits| - k]
  {
    var w := |bits|;
    forall j | 0 <= j < w
      ensures RotR(bits, k)[j] == (bits[w - k..] + bits[..w - k])[j]
    {
      if j < k {
        WrapTurn(j - k, w);
        assert Wrap(j - k + w, w) == w - k + j;
      } else {
        assert Wrap(j - k, w) == j - k;
      }
    }
  }

  /** A rotation by a whole number of turns changes nothing. */
  lemma {:induction false} RotRTurns(bits: seq<bool>, q: nat)
    ensures RotR(bits, q * |bits|) == bits
  {
    if q == 0 {
      RotRZero(bits);
    } else {
      RotRTurns(bits, q - 1);
      RotRCompose(bits, (q - 1) * |bits|, |bits|);
      RotRFull(bits);
      assert (q - 1) * |bits| + |bits| == q * |bits|;
    }
  }

  /** Only the amount modulo the width matters. */
  lemma RotRMod(bits: seq<bool>, k: nat)
    requires |bits| > 0
    ensures RotR(bits, k) == RotR(bits, k % |bits|)
  {
    var w := |bits|;
    var q, r := k / w, k % w;
    assert k == q * w + r;
    var turned := RotR(bits, q * w);
    RotRTurns(bits, q);
    RotRChainSum(bits, turned, RotR(turned, r), q * w, r, k);
  }

  /** Rotation neither creates nor destroys set bits. */
  lemma {:induction false} RotRPreservesCount(bits: seq<bool>, k: nat)
    ensures Count(RotR(bits, k)) == Count(bits)
    decreases k
  {
    var w := |bits|;
    if w == 0 {
      assert RotR(bits, k) == bits;
    } else if k <= w {
      RotRSplit(bits, k);
      CountAppend(bits[w - k..], bits[..w - k]);
      CountAppend(bits[..w - k], bits[w - k..]);
      assert bits[..w - k] + bits[w - k..] == bits;
    } else {
      RotRPreservesCount(bits, k - w);
      RotRCompose(bits, k - w, w);
      RotRFull(RotR(bits, k - w));
    }
  }
}
