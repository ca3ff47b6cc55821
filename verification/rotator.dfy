/** The circular rotator (`bitShiftRight`, PasswordUtil.cpp:54-75). Bytes
    0..range of the buffer form one ring of 8 * (range + 1) bits, byte 0
    first and most significant bit first; the rotator turns that ring right
    by a number of bits and leaves the bytes after `range` alone. The source
    does it in two phases: whole-byte steps first (lines 59-64), then one
    pass that moves the leftover 0..7 bits from each byte into the next
    (lines 66-74). */
module Rotator {
  import opened Bits

  /** Number of bits in the ring made of bytes 0..range. */
  function Width(range: nat): nat
  {
    8 * (range + 1)
  }

  /** Whether `range` is a window `bitShiftRight` can work on: inside the
      buffer, and not 255, for which the source's `uint8_t` counter of the
      carry pass (line 68) wraps around and the loop never ends. */
  predicate ValidRange(buffer: seq<Byte>, range: nat)
  {
    range < |buffer| && range < 255
  }

  /** The carry pass's counter as written: a `uint8_t`, so incrementing 255
      gives 0. */
  function NextCounter(x: Byte): Byte
  {
    x + 1
  }

  /** The guard `x <= range` of line 68 still holds after the counter has
      passed the last byte of the window exactly when `range` is 255: then
      the counter wraps to 0 instead of exceeding `range`, and the loop never
      ends. For every smaller range the guard fails there and the loop
      exits. */
  lemma CarryGuardAsWritten(range: Byte)
    ensures NextCounter(range) <= range <==> range == 255
    ensures range == 255 ==> NextCounter(range) == 0
  {
  }

  /** The specification: bytes 0..range hold their ring turned right by `k`
      bits; the other bytes stay. */
  function RotateRight(buffer: seq<Byte>, range: nat, k: nat): (r: seq<Byte>)
    requires range < |buffer|
    ensures |r| == |buffer|
    ensures Ring(r[..range + 1]) == RotR(Ring(buffer[..range + 1]), k)
    ensures r[range + 1..] == buffer[range + 1..]
  {
    var front := FromRing(RotR(Ring(buffer[..range + 1]), k));
    assert (front + buffer[range + 1..])[..range + 1] == front;
    front + buffer[range + 1..]
  }

  /** The effect of `memmove(&a[1], &a[0], range)` (line 62): bytes
      0..range-1 move up one place, byte 0 keeps its value. */
  function MoveUp(a: seq<Byte>, range: nat): (r: seq<Byte>)
    requires range < |a|
    ensures |r| == |a|
    ensures r[0] == a[0]
    ensures forall i :: 0 < i <= range ==> r[i] == a[i - 1]
    ensures r[range + 1..] == a[range + 1..]
  {
    a[..1] + a[..range] + a[range + 1..]
  }

  /** One step of the whole-byte loop (lines 61-63): the last byte of the
      window is saved, the others move up, the saved byte goes to the front. */
  function ByteStep(a: seq<Byte>, range: nat): (r: seq<Byte>)
    requires range < |a|
    ensures |r| == |a|
    ensures r[0] == a[range]
    ensures forall i :: 0 < i <= range ==> r[i] == a[i - 1]
    ensures r[range + 1..] == a[range + 1..]
  {
    MoveUp(a, range)[0 := a[range]]
  }

  /** `t` whole-byte steps. */
  function ByteSteps(a: seq<Byte>, range: nat, t: nat): (r: seq<Byte>)
    requires range < |a|
    ensures |r| == |a|
  {
    if t == 0 then a else ByteStep(ByteSteps(a, range, t - 1), range)
  }

  /** What the carry pass (lines 66-74) leaves in the buffer: every byte of
      the window is shifted right by `l` and receives the low `l` bits of
      the byte before it, byte 0 those of byte `range`. */
  function CarryPass(c: seq<Byte>, range: nat, l: Byte): (r: seq<Byte>)
    requires range < |c| && l < 8
    ensures |r| == |c|
    ensures r[0] == CarryByte(c[range], c[0], l)
    ensures forall i {:trigger r[i]} :: 0 < i <= range ==> r[i] == CarryByte(c[i - 1], c[i], l)
    ensures r[range + 1..] == c[range + 1..]
  {
    seq(|c|, i requires 0 <= i < |c| => CarriedAt(c, range, l, i))
  }

  /** Byte `i` after the carry pass. */
  function CarriedAt(c: seq<Byte>, range: nat, l: Byte, i: nat): Byte
    requires range < |c| && l < 8 && i < |c|
  {
    if i > range then c[i] else CarryByte(c[if i == 0 then range else i - 1], c[i], l)
  }

  /** After `t` whole-byte steps, byte `i` of the window holds the byte `t`
      places before it, counted round the window; the bytes after the window
      stay. */
  lemma {:induction false} ByteStepsAt(a: seq<Byte>, range: nat, t: nat, i: nat)
    requires range < |a| && i < |a|
    ensures ByteSteps(a, range, t)[i]
         == if i <= range then a[Wrap(i - t, range + 1)] else a[i]
    decreases t
  {
    var n := range + 1;
    if t == 0 {
      assert Wrap(i - 0, n) == i || i > range;
    } else {
      ByteStepsNext(a, range, t, i);
      if i > range {
        ByteStepsAt(a, range, t - 1, i);
      } else if i == 0 {
        ByteStepsAt(a, range, t - 1, range);
        var back := 0 - t;
        assert range - (t - 1) == back + n;
        WrapTurn(back, n);
      } else {
        ByteStepsAt(a, range, t - 1, i - 1);
        assert i - 1 - (t - 1) == i - t;
      }
    }
  }

  /** Byte `i` after step `t` of the whole-byte loop, read off the buffer
      after step `t - 1`. */
  lemma ByteStepsNext(a: seq<Byte>, range: nat, t: nat, i: nat)
    requires range < |a| && i < |a| && t > 0
    ensures var c := ByteSteps(a, range, t - 1);
            ByteSteps(a, range, t)[i] == if i == 0 then c[range] else if i <= range then c[i - 1] else c[i]
  {
    var c := ByteSteps(a, range, t - 1);
    var r := ByteStep(c, range);
    if i > range {
      assert r[range + 1..][i - range - 1] == c[range + 1..][i - range - 1];
    }
  }

  /** Bytes turned round by `d` whole places are their ring turned by
      `8 * d` bits. */
  lemma RingOfByteRotation(s: seq<Byte>, t: seq<Byte>, d: nat)
    requires |t| == |s| > 0
    requires forall i :: 0 <= i < |s| ==> t[i] == s[Wrap(i - d, |s|)]
    ensures Ring(t) == RotR(Ring(s), 8 * d)
  {
    forall j | 0 <= j < 8 * |s|
      ensures Ring(t)[j] == RotR(Ring(s), 8 * d)[j]
    {
      RingOfByteRotationAt(s, t, d, j / 8, j % 8);
    }
  }

  /** One bit of `RingOfByteRotation`. */
  lemma RingOfByteRotationAt(s: seq<Byte>, t: seq<Byte>, d: nat, i: nat, m: nat)
    requires |t| == |s| > 0 && i < |s| && m < 8
    requires t[i] == s[Wrap(i - d, |s|)]
    ensures Ring(t)[8 * i + m] == RotR(Ring(s), 8 * d)[8 * i + m]
  {
    var q := Wrap(i - d, |s|);
    RotRByBytes(Ring(s), |s|, d, i, m);
    RingAt(s, q, m);
    RingAt(t, i, m);
  }

  /** `t` whole-byte steps turn the ring right by `8 * t` bits. */
  lemma ByteStepsRotate(a: seq<Byte>, range: nat, t: nat)
    requires range < |a|
    ensures Ring(ByteSteps(a, range, t)[..range + 1]) == RotR(Ring(a[..range + 1]), 8 * t)
    ensures ByteSteps(a, range, t)[range + 1..] == a[range + 1..]
  {
    var n := range + 1;
    var c := ByteSteps(a, range, t);
    forall i | 0 <= i < n
      ensures c[..n][i] == a[..n][Wrap(i - t, n)]
    {
      ByteStepsAt(a, range, t, i);
    }
    RingOfByteRotation(a[..n], c[..n], t);
    forall i | n <= i < |a|
      ensures c[i] == a[i]
    {
      ByteStepsAt(a, range, t, i);
    }
  }

  /** The carry pass turns the ring right by `l` bits. */
  lemma CarryPassRotates(c: seq<Byte>, range: nat, l: Byte)
    requires range < |c| && l < 8
    ensures Ring(CarryPass(c, range, l)[..range + 1]) == RotR(Ring(c[..range + 1]), l as int)
    ensures CarryPass(c, range, l)[range + 1..] == c[range + 1..]
  {
    var n := range + 1;
    forall j | 0 <= j < 8 * n
      ensures Ring(CarryPass(c, range, l)[..n])[j] == RotR(Ring(c[..n]), l as int)[j]
    {
      CarryPassAt(c, range, l, j / 8, j % 8);
    }
  }

  /** One bit of `CarryPassRotates`. */
  lemma CarryPassAt(c: seq<Byte>, range: nat, l: Byte, i: nat, m: nat)
    requires range < |c| && l < 8 && i <= range && m < 8
    ensures Ring(CarryPass(c, range, l)[..range + 1])[8 * i + m]
         == RotR(Ring(c[..range + 1]), l as int)[8 * i + m]
  {
    var prev := if i == 0 then range else i - 1;
    CarriedRingAt(c, range, l, i, m);
    CarryBits(c[prev], c[i], l, m);
    RotatedRingAt(c[..range + 1], i, m, l as int);
  }

  /** Bit `m` of byte `i` after the carry pass. */
  lemma CarriedRingAt(c: seq<Byte>, range: nat, l: Byte, i: nat, m: nat)
    requires range < |c| && l < 8 && i <= range && m < 8
    ensures Ring(CarryPass(c, range, l)[..range + 1])[8 * i + m]
         == Bit(CarryByte(c[if i == 0 then range else i - 1], c[i], l), m)
  {
    var r := CarryPass(c, range, l);
    RingAt(r[..range + 1], i, m);
    assert r[..range + 1][i] == r[i];
  }

  /** Bit `m` of byte `i` of a byte ring turned right by `k < 8` bits comes
      from bit `m - k` of the same byte, or from bit `8 + m - k` of the byte
      before it (the last byte for byte 0). */
  lemma RotatedRingAt(s: seq<Byte>, i: nat, m: nat, k: nat)
    requires i < |s| && m < 8 && k < 8
    ensures RotR(Ring(s), k)[8 * i + m]
         == if m >= k then Bit(s[i], m - k)
            else Bit(s[if i == 0 then |s| - 1 else i - 1], 8 + m - k)
  {
    RotRWithinByte(Ring(s), |s|, i, m, k);
    if m >= k {
      RingAt(s, i, m - k);
    } else if i > 0 {
      RingAt(s, i - 1, 8 + m - k);
    } else {
      RingAt(s, |s| - 1, 8 + m - k);
    }
  }

  /** The split of line 56-57: whole bytes and leftover bits add up to the
      shift amount. */
  lemma SplitShift(bitsToShift: Byte) returns (b: nat, k: nat)
    ensures b == (bitsToShift / 8) as int
    ensures k == (bitsToShift - (bitsToShift / 8) * 8) as int
    ensures k < 8 && 8 * b + k == bitsToShift as int
  {
    b := (bitsToShift / 8) as int;
    k := (bitsToShift - (bitsToShift / 8) * 8) as int;
  }

  /** `bitShiftRight` on a copy of the buffer, for the ranges on which the
      source's loops end. On those ranges the source computes exactly what
      the corrected version below computes. */
  method BitShiftRight(arrayCode: seq<Byte>, range: nat, bitsToShift: Byte) returns (r: seq<Byte>)
    requires ValidRange(arrayCode, range)
    ensures r == RotateRight(arrayCode, range, bitsToShift as int)
  {
    r := BitShiftRightWide(arrayCode, range, bitsToShift);
  }

  /** `bitShiftRight` with the carry counter wide enough to pass `range`:
      the byte loop and the carry pass of lines 54-75 for every window
      inside the buffer, including `range == 255`. */
  method BitShiftRightWide(arrayCode: seq<Byte>, range: nat, bitsToShift: Byte) returns (r: seq<Byte>)
    requires range < |arrayCode|
    ensures r == RotateRight(arrayCode, range, bitsToShift as int)
  {
    var byteShift := bitsToShift / 8;
    var leftoverBitShift := bitsToShift - byteShift * 8;

    var c := arrayCode;
    var x: nat := 0;
    while x < byteShift as int
      invariant x <= byteShift as int
      invariant c == ByteSteps(arrayCode, range, x)
    {
      var temp := c[range];
      c := MoveUp(c, range);
      c := c[0 := temp];
      x := x + 1;
    }

    r := CarryLoop(c, range, leftoverBitShift);
    TwoPhases(arrayCode, range, bitsToShift, c, r);
  }

  /** Whole-byte steps by `bitsToShift / 8` followed by the carry pass by
      the remaining bits give what `RotateRight` specifies. */
  lemma TwoPhases(a: seq<Byte>, range: nat, bitsToShift: Byte, c: seq<Byte>, r: seq<Byte>)
    requires range < |a|
    requires c == ByteSteps(a, range, (bitsToShift / 8) as int)
    requires r == CarryPass(c, range, bitsToShift - (bitsToShift / 8) * 8)
    ensures r == RotateRight(a, range, bitsToShift as int)
  {
    var n := range + 1;
    TwoPhasesRotate(a, range, bitsToShift, c, r);
    var spec := RotateRight(a, range, bitsToShift as int);
    RingInjective(r[..n], spec[..n]);
    SameHalves(r, spec, n);
  }

  /** The two phases together turn the ring right by `bitsToShift` bits. */
  lemma TwoPhasesRotate(a: seq<Byte>, range: nat, bitsToShift: Byte, c: seq<Byte>, r: seq<Byte>)
    requires range < |a|
    requires c == ByteSteps(a, range, (bitsToShift / 8) as int)
    requires r == CarryPass(c, range, bitsToShift - (bitsToShift / 8) * 8)
    ensures |r| == |a|
    ensures Ring(r[..range + 1]) == RotR(Ring(a[..range + 1]), bitsToShift as int)
    ensures r[range + 1..] == a[range + 1..]
  {
    var b, k := SplitShift(bitsToShift);
    var n := range + 1;
    var l := bitsToShift - (bitsToShift / 8) * 8;
    ByteStepsRotate(a, range, b);
    assert Ring(c[..n]) == RotR(Ring(a[..n]), 8 * b);
    CarryPassRotates(c, range, l);
    assert l as int == k;
    assert Ring(r[..n]) == RotR(Ring(c[..n]), l as int);
    assert Ring(r[..n]) == RotR(Ring(c[..n]), k);
    RotRChainSum(Ring(a[..n]), Ring(c[..n]), Ring(r[..n]), 8 * b, k, 8 * b + k);
  }

  /** Sequences that agree before and after a cut are equal. */
  lemma SameHalves<T>(x: seq<T>, y: seq<T>, n: nat)
    requires n <= |x| == |y| && x[..n] == y[..n] && x[n..] == y[n..]
    ensures x == y
  {
    assert x == x[..n] + x[n..];
    assert y == y[..n] + y[n..];
  }

  /** The buffer part-way through the carry loop: bytes before `x` are
      shifted, byte 0 still without the bits that come round from byte
      `range`. */
  function CarryPrefix(c: seq<Byte>, range: nat, l: Byte, x: nat): (r: seq<Byte>)
    requires range < |c| && l < 8 && x <= range + 1
    ensures |r| == |c|
  {
    seq(|c|, i requires 0 <= i < |c| => PrefixAt(c, l, x, i))
  }

  /** Byte `i` of `CarryPrefix`. */
  function PrefixAt(c: seq<Byte>, l: Byte, x: nat, i: nat): Byte
    requires l < 8 && i < |c|
  {
    if i >= x then c[i] else if i == 0 then c[0] >> l else CarryByte(c[i - 1], c[i], l)
  }

  /** The carried bits (`temp_1`) once the loop has passed `x` bytes. */
  function CarryIn(c: seq<Byte>, l: Byte, x: nat): Byte
    requires l < 8 && x <= |c|
  {
    if x == 0 then 0 else (c[x - 1] << (8 - l)) & 0xff
  }

  /** One round of the carry loop (lines 70-72) moves the prefix on by one
      byte. */
  lemma CarryStep(c: seq<Byte>, range: nat, l: Byte, x: nat)
    requires range < |c| && l < 8 && x <= range
    ensures CarryPrefix(c, range, l, x)[x] == c[x]
    ensures CarryPrefix(c, range, l, x)[x := (c[x] >> l) | CarryIn(c, l, x)]
         == CarryPrefix(c, range, l, x + 1)
    ensures (c[x] << (8 - l)) & 0xff == CarryIn(c, l, x + 1)
  {
    CarryStepAt(c, l, x);
  }

  /** The byte the round of `CarryStep` writes. */
  lemma CarryStepAt(c: seq<Byte>, l: Byte, x: nat)
    requires l < 8 && x < |c|
    ensures (c[x] >> l) | CarryIn(c, l, x) == PrefixAt(c, l, x + 1, x)
  {
  }

  /** The last statement (line 74) closes the ring: byte 0 receives the bits
      of byte `range`. */
  lemma CarryClose(c: seq<Byte>, range: nat, l: Byte)
    requires range < |c| && l < 8
    ensures CarryPrefix(c, range, l, range + 1)[0 := (c[0] >> l) | CarryIn(c, l, range + 1)]
         == CarryPass(c, range, l)
  {
    CarryCloseAt(c, range, l);
  }

  /** Byte 0 after `CarryClose`. */
  lemma CarryCloseAt(c: seq<Byte>, range: nat, l: Byte)
    requires range < |c| && l < 8
    ensures (c[0] >> l) | CarryIn(c, l, range + 1) == CarriedAt(c, range, l, 0)
  {
  }

  /** The carry pass of lines 66-74 on a copy of the buffer, with a counter
      that does not wrap. */
  method CarryLoop(c: seq<Byte>, range: nat, leftoverBitShift: Byte) returns (d: seq<Byte>)
    requires range < |c| && leftoverBitShift < 8
    ensures d == CarryPass(c, range, leftoverBitShift)
  {
    var l := leftoverBitShift;
    d := c;
    var temp1: Byte := 0;
    var x: nat := 0;
    while x <= range
      invariant x <= range + 1
      invariant d == CarryPrefix(c, range, l, x)
      invariant temp1 == CarryIn(c, l, x)
    {
      d, temp1 := CarryRound(c, range, l, x, d, temp1);
      x := x + 1;
    }
    CarryClose(c, range, l);
    d := d[0 := d[0] | temp1];
  }

  /** The body of the carry loop (lines 70-72) for byte `x`. */
  method CarryRound(c: seq<Byte>, range: nat, l: Byte, x: nat, d: seq<Byte>, temp1: Byte)
    returns (d': seq<Byte>, temp1': Byte)
    requires range < |c| && l < 8 && x <= range
    requires d == CarryPrefix(c, range, l, x) && temp1 == CarryIn(c, l, x)
    ensures d' == CarryPrefix(c, range, l, x + 1) && temp1' == CarryIn(c, l, x + 1)
  {
    CarryStep(c, range, l, x);
    var temp2 := (d[x] << (8 - l)) & 0xff;
    d' := d[x := (d[x] >> l) | temp1];
    temp1' := temp2;
  }

  // Properties of the specification.

  /** `RotateRight` is the only buffer meeting its contract. */
  lemma RotateRightUnique(buffer: seq<Byte>, range: nat, k: nat, r: seq<Byte>)
    requires range < |buffer| && |r| == |buffer|
    requires Ring(r[..range + 1]) == RotR(Ring(buffer[..range + 1]), k)
    requires r[range + 1..] == buffer[range + 1..]
    ensures r == RotateRight(buffer, range, k)
  {
    var spec := RotateRight(buffer, range, k);
    RingInjective(r[..range + 1], spec[..range + 1]);
    SameHalves(r, spec, range + 1);
  }

  /** Rotating by nothing changes nothing. */
  lemma RotateRightZero(buffer: seq<Byte>, range: nat)
    requires range < |buffer|
    ensures RotateRight(buffer, range, 0) == buffer
  {
    RotRZero(Ring(buffer[..range + 1]));
    RotateRightUnique(buffer, range, 0, buffer);
  }

  /** Only the amount modulo the ring's width matters. */
  lemma RotateRightMod(buffer: seq<Byte>, range: nat, k: nat)
    requires range < |buffer|
    ensures RotateRight(buffer, range, k) == RotateRight(buffer, range, k % Width(range))
  {
    RotRMod(Ring(buffer[..range + 1]), k);
    RotateRightUnique(buffer, range, k % Width(range), RotateRight(buffer, range, k));
  }

  /** Two rotations in a row are one rotation by the sum. */
  lemma RotateRightCompose(buffer: seq<Byte>, range: nat, k1: nat, k2: nat, sum: nat)
    requires range < |buffer| && sum == k1 + k2
    ensures RotateRight(RotateRight(buffer, range, k1), range, k2) == RotateRight(buffer, range, sum)
  {
    var n := range + 1;
    var once := RotateRight(buffer, range, k1);
    var twice := RotateRight(once, range, k2);
    RotRChainSum(Ring(buffer[..n]), Ring(once[..n]), Ring(twice[..n]), k1, k2, sum);
    RotateRightUnique(buffer, range, sum, twice);
  }

  /** A rotation by the full width changes nothing. */
  lemma RotateRightFull(buffer: seq<Byte>, range: nat)
    requires range < |buffer|
    ensures RotateRight(buffer, range, Width(range)) == buffer
  {
    RotateRightMod(buffer, range, Width(range));
    RotateRightZero(buffer, range);
  }

  /** A rotation right by `k` is undone by a rotation right by `rest`, the
      rest of the width. */
  lemma RotateRightInverse(buffer: seq<Byte>, range: nat, k: nat, rest: nat)
    requires range < |buffer| && k + rest == Width(range)
    ensures RotateRight(RotateRight(buffer, range, k), range, rest) == buffer
  {
    RotateRightCompose(buffer, range, k, rest, Width(range));
    RotateRightFull(buffer, range);
  }

  /** The number of set bits of the whole buffer is the same after a
      rotation. */
  lemma RotateRightCount(buffer: seq<Byte>, range: nat, k: nat)
    requires range < |buffer|
    ensures Count(Ring(RotateRight(buffer, range, k))) == Count(Ring(buffer))
  {
    var n := range + 1;
    var r := RotateRight(buffer, range, k);
    assert r == r[..n] + r[n..];
    assert buffer == buffer[..n] + buffer[n..];
    RingAppend(r[..n], r[n..]);
    RingAppend(buffer[..n], buffer[n..]);
    CountAppend(Ring(r[..n]), Ring(r[n..]));
    CountAppend(Ring(buffer[..n]), Ring(buffer[n..]));
    RotRPreservesCount(Ring(buffer[..n]), k);
  }
}
