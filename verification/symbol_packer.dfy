/** The symbol packer (`createEnglishCode`, PasswordUtil.cpp:104-121): the
    nine-byte buffer is read as a 72-bit ring, most significant bit of byte 0
    first, and cut into fifteen 5-bit symbols. Fifteen symbols need 75 bits,
    so the last symbol runs off the end of byte 8 and takes its last three
    bits from the top of byte 0 again. */
module SymbolPacker {
  import opened Bits
  import opened PasswordTypes

  /** The bit at stream position `p`, the stream repeating the ring. */
  function StreamBit(ring: seq<bool>, p: nat): nat
    requires |ring| > 0
  {
    BitValue(ring[Wrap(p, |ring|)])
  }

  /** Symbol `i`: stream bits `5i .. 5i+4` (positions taken modulo the ring
      width), the first one as the most significant of the five. */
  function Symbol(ring: seq<bool>, i: nat): (v: nat)
    requires |ring| > 0
    ensures v < 32
  {
    16 * StreamBit(ring, 5 * i) + 8 * StreamBit(ring, 5 * i + 1) + 4 * StreamBit(ring, 5 * i + 2)
    + 2 * StreamBit(ring, 5 * i + 3) + StreamBit(ring, 5 * i + 4)
  }

  /** The fifteen symbols of a buffer, as the specification of the packer. */
  function EnglishCode(buffer: seq<Byte>): (code: seq<nat>)
    requires |buffer| == BufferSize
    ensures |code| == CodeLength
    ensures forall i :: 0 <= i < |code| ==> code[i] < 32
  {
    seq(CodeLength, i requires 0 <= i < CodeLength => Symbol(Ring(buffer), i))
  }

  // The state of the packer's loop at the start of iteration x, in closed form.

  /** `u_index`: the byte the loop reads in iteration `x`. It passes byte 8
      and returns to byte 0 for the last symbol. */
  function ReadIndex(x: nat): nat
  {
    ((5 * x + 4) / 8) % 9
  }

  /** `bits_to_shift`: how many low bits of the previous byte are still
      unused when iteration `x` starts (when it is 5 or more, the previous
      byte is the byte being read). */
  function Lag(x: nat): (l: Byte)
    ensures l < 8
  {
    LagCount(x) as Byte
  }

  /** `Lag(x)` as a number. */
  function LagCount(x: nat): nat
  {
    (3 * x) % 8
  }

  /** The lag survives the round trip through a byte. */
  lemma LagValue(x: nat)
    ensures Lag(x) as int == LagCount(x) && Lag(x) < 8
  {
  }

  /** `temp`: the unused low bits of the byte read in the previous iteration,
      moved to the top of a byte; nothing before the first iteration. */
  function Leftover(buffer: seq<Byte>, x: nat): Byte
    requires |buffer| == BufferSize && x < CodeLength
  {
    if x == 0 then 0 else buffer[ReadIndex(x - 1)] << (8 - Lag(x))
  }

  /** The byte read in the iteration before `x`, counted round the buffer:
      byte 8 before the first iteration, where the lag is 0 and nothing of
      it is kept. */
  function Previous(buffer: seq<Byte>, x: nat): Byte
    requires |buffer| == BufferSize && x < CodeLength
  {
    if x == 0 then buffer[8] else buffer[ReadIndex(x - 1)]
  }

  /** The byte read in iteration `x` carrying the unused bits of the byte
      before it. */
  function Carried(buffer: seq<Byte>, x: nat): Byte
    requires |buffer| == BufferSize && x < CodeLength
  {
    CarryByte(Previous(buffer, x), buffer[ReadIndex(x)], Lag(x))
  }

  /** The byte the loop forms in iteration `x` (line 112): its top five
      bits are symbol `x` of the stream. */
  function Window(buffer: seq<Byte>, x: nat): (w: Byte)
    requires |buffer| == BufferSize && x < CodeLength
    ensures (w >> 3) as int == Symbol(Ring(buffer), x)
  {
    var w := (buffer[ReadIndex(x)] >> Lag(x)) | Leftover(buffer, x);
    assert Leftover(buffer, x) == Previous(buffer, x) << (8 - Lag(x)) by {
      if x == 0 {
        assert Lag(x) == 0;
      }
    }
    assert w == Carried(buffer, x);
    WindowIsSymbol(buffer, x);
    w
  }

  /** In iteration `x` the loop forms exactly symbol `x` of the stream. */
  lemma WindowIsSymbol(buffer: seq<Byte>, x: nat)
    requires |buffer| == BufferSize && x < CodeLength
    ensures (Carried(buffer, x) >> 3) as int == Symbol(Ring(buffer), x)
  {
    TopFiveBits(Carried(buffer, x));
    WindowBit(buffer, x, 0);
    WindowBit(buffer, x, 1);
    WindowBit(buffer, x, 2);
    WindowBit(buffer, x, 3);
    WindowBit(buffer, x, 4);
  }

  /** Bit `m` of the window formed in iteration `x` is stream bit `5x + m`. */
  lemma WindowBit(buffer: seq<Byte>, x: nat, m: nat)
    requires |buffer| == BufferSize && x < CodeLength && m < 5
    ensures BitValue(Bit(Carried(buffer, x), m)) == StreamBit(Ring(buffer), 5 * x + m)
  {
    CarryBits(Previous(buffer, x), buffer[ReadIndex(x)], Lag(x), m);
    if m >= Lag(x) as int {
      StreamBitInCurrent(buffer, x, m);
    } else {
      StreamBitInPrevious(buffer, x, m);
    }
  }

  /** The arithmetic of the loop state: iteration `x` starts `Lag(x)` bits
      short of a byte boundary `8 * e`, and reads byte `e` (modulo 9) when
      at most four bits of the byte before it are left, byte `e - 1`
      otherwise. */
  lemma StepShape(x: nat) returns (e: nat)
    requires x < CodeLength
    ensures 5 * x + LagCount(x) == 8 * e && e <= 9
    ensures LagCount(x) <= 4 ==> ReadIndex(x) == e % 9
    ensures LagCount(x) > 4 ==> 1 <= e && ReadIndex(x) == e - 1
    ensures LagCount(x) > 0 ==> 1 <= e && x > 0 && ReadIndex(x - 1) == e - 1
  {
    var l := LagCount(x);
    var q := (3 * x) / 8;
    ModUnique(3 * x, q, l, 8);
    e := x - q;
    assert e <= 9 by {
      ModUnique(3 * x, (3 * x) / 8, (3 * x) % 8, 8);
    }
    if l <= 4 {
      ModUnique(5 * x + 4, e, 4 - l, 8);
      if e < 9 {
        ModUnique(e, 0, e, 9);
      } else {
        ModUnique(e, 1, 0, 9);
      }
    } else {
      ModUnique(5 * x + 4, e - 1, 12 - l, 8);
      ModUnique(e - 1, 0, e - 1, 9);
    }
    if l > 0 {
      ModUnique(5 * (x - 1) + 4, e - 1, 8 - (l + 1), 8);
      ModUnique(e - 1, 0, e - 1, 9);
    }
  }

  /** Stream bits at or after the lag come from the byte read now. */
  lemma StreamBitInCurrent(buffer: seq<Byte>, x: nat, m: nat)
    requires |buffer| == BufferSize && x < CodeLength && Lag(x) as int <= m < 5
    ensures StreamBit(Ring(buffer), 5 * x + m) == BitValue(Bit(buffer[ReadIndex(x)], m - Lag(x) as int))
  {
    LagValue(x);
    var l := LagCount(x);
    var e := StepShape(x);
    var p := 5 * x + m;
    if e < 9 {
      ModUnique(e, 0, e, 9);
      assert Wrap(p, 72) == p;
    } else {
      ModUnique(e, 1, 0, 9);
      assert Wrap(p, 72) == Wrap(p - 72, 72) == p - 72;
    }
    RingAt(buffer, e % 9, m - l);
    assert Wrap(p, 72) == 8 * (e % 9) + (m - l);
  }

  /** Stream bits before the lag are the unused low bits of the byte read in
      the previous iteration. */
  lemma StreamBitInPrevious(buffer: seq<Byte>, x: nat, m: nat)
    requires |buffer| == BufferSize && x < CodeLength && m < Lag(x) as int
    ensures x > 0
    ensures StreamBit(Ring(buffer), 5 * x + m) == BitValue(Bit(buffer[ReadIndex(x - 1)], 8 + m - Lag(x) as int))
  {
    LagValue(x);
    var l := LagCount(x);
    var e := StepShape(x);
    var p := 5 * x + m;
    RingAt(buffer, e - 1, 8 + m - l);
    assert Wrap(p, 72) == 8 * (e - 1) + (8 + m - l);
  }

  /** How the loop moves from iteration `x` to `x + 1` (lines 113-119): the
      count of unused bits it computes is the next lag, and it moves to the
      next byte, wrapping from byte 8 to byte 0, exactly when fewer than five
      bits are left. */
  lemma StepAdvance(x: nat)
    requires x + 1 < CodeLength
    ensures (ReadIndex(x) + 1) * 8 - (x + 1) * 5 == LagCount(x + 1)
    ensures ReadIndex(x + 1)
         == if LagCount(x + 1) < 5 then (if ReadIndex(x) < 8 then ReadIndex(x) + 1 else 0)
            else ReadIndex(x)
  {
    var e := StepShape(x);
    var e' := StepShape(x + 1);
    if LagCount(x + 1) == 0 {
      assert LagCount(x) == 5 && e == e';
    }
    assert ReadIndex(x) == e' - 1;
  }

  /** The state update of lines 113-119, as the code computes it, lands on
      the closed form of the next iteration. */
  lemma NextState(buffer: seq<Byte>, x: nat)
    requires |buffer| == BufferSize && x + 1 < CodeLength
    ensures (((ReadIndex(x) + 1) * 8 - (x + 1) * 5) % 256) as Byte == Lag(x + 1)
    ensures buffer[ReadIndex(x)] << (8 - Lag(x + 1)) == Leftover(buffer, x + 1)
    ensures ReadIndex(x + 1)
         == if Lag(x + 1) < 5 then (if ReadIndex(x) < 8 then ReadIndex(x) + 1 else 0)
            else ReadIndex(x)
  {
    StepAdvance(x);
    LagValue(x + 1);
    ModUnique(LagCount(x + 1), 0, LagCount(x + 1), 256);
  }

  /** Whether `(uIndex, bitsToShift, temp)` is the packer's loop state at the
      start of iteration `x`. */
  predicate StateAt(buffer: seq<Byte>, x: nat, uIndex: nat, bitsToShift: Byte, temp: Byte)
    requires |buffer| == BufferSize && x < CodeLength
  {
    uIndex == ReadIndex(x) && bitsToShift == Lag(x) && temp == Leftover(buffer, x)
  }

  /** The letter of iteration `x` (line 112). */
  method PackLetter(arrayCode: seq<Byte>, x: nat, uIndex: nat, bitsToShift: Byte, temp: Byte)
    returns (letter: nat)
    requires |arrayCode| == BufferSize && x < CodeLength
    requires StateAt(arrayCode, x, uIndex, bitsToShift, temp)
    ensures letter == Symbol(Ring(arrayCode), x)
  {
    var window := (arrayCode[uIndex] >> bitsToShift) | temp;
    assert window == Window(arrayCode, x);
    letter := (window >> (8 - 5)) as nat;
  }

  /** The state update of iteration `x` (lines 113-119). */
  method PackAdvance(arrayCode: seq<Byte>, x: nat, uIndex: nat, bitsToShift: Byte, temp: Byte)
    returns (uIndex': nat, bitsToShift': Byte, temp': Byte)
    requires |arrayCode| == BufferSize && x + 1 < CodeLength
    requires StateAt(arrayCode, x, uIndex, bitsToShift, temp)
    ensures StateAt(arrayCode, x + 1, uIndex', bitsToShift', temp')
  {
    NextState(arrayCode, x);
    LagValue(x + 1);
    bitsToShift' := (((uIndex + 1) * 8 - (x + 1) * 5) % 256) as Byte;
    temp' := arrayCode[uIndex] << (8 - bitsToShift');
    uIndex' := uIndex;
    if bitsToShift' < 5 {
      uIndex' := if uIndex < 8 then uIndex + 1 else 0;
    }
  }

  /** The loop of `createEnglishCode` (lines 106-120) on a copy of the
      buffer. It stops after emitting symbol 14, where the source goes on to
      compute a lag of 8 - 75 (stored as 189) and a shift by a negative
      amount whose result is never read. */
  method CreateEnglishCode(arrayCode: seq<Byte>) returns (code: seq<nat>)
    requires |arrayCode| == BufferSize
    ensures code == EnglishCode(arrayCode)
  {
    var uIndex: nat := 0;
    var temp: Byte := 0;
    var bitsToShift: Byte := 0;
    code := [];
    var x: nat := 0;
    InitialState(arrayCode);
    ghost var spec := EnglishCode(arrayCode);
    while x < CodeLength
      invariant x <= CodeLength && |code| == x
      invariant code == spec[..x]
      invariant x < CodeLength ==> StateAt(arrayCode, x, uIndex, bitsToShift, temp)
    {
      var letter := PackLetter(arrayCode, x, uIndex, bitsToShift, temp);
      if x + 1 < CodeLength {
        uIndex, bitsToShift, temp := PackAdvance(arrayCode, x, uIndex, bitsToShift, temp);
      }
      assert letter == spec[x];
      SliceExtend(spec, x);
      code := code + [letter];
      x := x + 1;
    }
    assert spec[..CodeLength] == spec;
  }

  /** The shift count of line 114 as written, computed after iteration `x`
      that read byte `uIndex`: `bits_to_shift` is stored in a `uint8_t`
      (reduced modulo 256) and promoted back to `int` for `8 -
      bits_to_shift`. */
  function ShiftCountAsWritten(uIndex: nat, x: nat): int
  {
    8 - ((uIndex + 1) * 8 - (x + 1) * 5) % 256
  }

  /** The source's loop computes a negative shift count, which C leaves
      undefined, exactly in its last iteration; in every other iteration
      the count is between 1 and 8. `CreateEnglishCode` skips the update
      after the last symbol, whose result the source never reads. */
  lemma ShiftCountNegativeIff(x: nat)
    requires x < CodeLength
    ensures ShiftCountAsWritten(ReadIndex(x), x) < 0 <==> x == CodeLength - 1
    ensures x < CodeLength - 1 ==> 1 <= ShiftCountAsWritten(ReadIndex(x), x) <= 8
  {
    if x + 1 < CodeLength {
      StepAdvance(x);
      ModUnique(LagCount(x + 1), 0, LagCount(x + 1), 256);
    } else {
      assert ReadIndex(x) == 0;
      assert ShiftCountAsWritten(0, 14) == -181;
    }
  }

  /** Before the first iteration the state is all zeros. */
  lemma InitialState(buffer: seq<Byte>)
    requires |buffer| == BufferSize
    ensures StateAt(buffer, 0, 0, 0, 0)
  {
    LagValue(0);
  }

  /** A prefix grows by the next element. */
  lemma SliceExtend<T>(s: seq<T>, x: nat)
    requires x < |s|
    ensures s[..x] + [s[x]] == s[..x + 1]
  {
  }

  /** Symbol 0 is the top five bits of byte 0. */
  lemma FirstSymbol(buffer: seq<Byte>)
    requires |buffer| == BufferSize
    ensures EnglishCode(buffer)[0] == (buffer[0] >> 3) as int
  {
    assert Window(buffer, 0) == buffer[0];
  }

  /** Symbol 14 wraps around the end of the buffer: the last two bits of
      byte 8 followed by the top three bits of byte 0. */
  lemma LastSymbolWraps(buffer: seq<Byte>)
    requires |buffer| == BufferSize
    ensures EnglishCode(buffer)[14] == (((buffer[8] & 3) << 3) | (buffer[0] >> 5)) as int
  {
    var w := Window(buffer, 14);
    LagValue(14);
    LagValue(13);
    assert ReadIndex(14) == 0 && ReadIndex(13) == 8;
    assert Window(buffer, 14) == (buffer[0] >> 2) | (buffer[8] << 6);
  }
  // Reading a code back.

  /** The place value of bit `t` of a symbol, bit 0 being the most
      significant of the five. */
  function Weight(t: nat): nat
    requires t < 5
  {
    if t == 0 then 16 else if t == 1 then 8 else if t == 2 then 4 else if t == 3 then 2 else 1
  }

  /** Bit `t` of the 5-bit symbol `v`, most significant first. */
  predicate SymbolBit(v: nat, t: nat)
    requires t < 5
  {
    (v / Weight(t)) % 2 == 1
  }

  /** The five bits of a symbol can be read back from its value. */
  lemma FiveBits(v: nat, a: nat, b: nat, c: nat, d: nat, e: nat)
    requires a <= 1 && b <= 1 && c <= 1 && d <= 1 && e <= 1
    requires v == 16 * a + 8 * b + 4 * c + 2 * d + e
    ensures SymbolBit(v, 0) <==> a == 1
    ensures SymbolBit(v, 1) <==> b == 1
    ensures SymbolBit(v, 2) <==> c == 1
    ensures SymbolBit(v, 3) <==> d == 1
    ensures SymbolBit(v, 4) <==> e == 1
  {
    ModUnique(v, a, 8 * b + 4 * c + 2 * d + e, 16);
    ModUnique(v, 2 * a + b, 4 * c + 2 * d + e, 8);
    ModUnique(v, 4 * a + 2 * b + c, 2 * d + e, 4);
    ModUnique(v, 8 * a + 4 * b + 2 * c + d, e, 2);
    ModUnique(a, 0, a, 2);
    ModUnique(2 * a + b, a, b, 2);
    ModUnique(4 * a + 2 * b + c, 2 * a + b, c, 2);
    ModUnique(8 * a + 4 * b + 2 * c + d, 4 * a + 2 * b + c, d, 2);
  }

  /** Bit `t` of symbol `i` is stream bit `5i + t`. */
  lemma SymbolBitOf(ring: seq<bool>, i: nat, t: nat)
    requires |ring| > 0 && t < 5
    ensures SymbolBit(Symbol(ring, i), t) <==> StreamBit(ring, 5 * i + t) == 1
  {
    var a, b, c := StreamBit(ring, 5 * i), StreamBit(ring, 5 * i + 1), StreamBit(ring, 5 * i + 2);
    var d, e := StreamBit(ring, 5 * i + 3), StreamBit(ring, 5 * i + 4);
    FiveBits(Symbol(ring, i), a, b, c, d, e);
    assert StreamBit(ring, 5 * i + t)
        == if t == 0 then a else if t == 1 then b else if t == 2 then c else if t == 3 then d else e;
  }

  /** Whether `code` is fifteen 5-bit symbols. */
  predicate IsCode(code: seq<nat>)
  {
    |code| == CodeLength && forall i :: 0 <= i < |code| ==> code[i] < 32
  }

  /** The first 72 bits a code spells, five to a symbol. */
  function CodeRing(code: seq<nat>): (bits: seq<bool>)
    requires IsCode(code)
    ensures |bits| == 8 * BufferSize
  {
    seq(8 * BufferSize, j requires 0 <= j < 8 * BufferSize => SymbolBit(code[j / 5], j % 5))
  }

  /** The buffer a code was cut from: its first 72 bits as bytes. The last
      three bits of symbol 14 repeat the first three and are not read. */
  function DecodeCode(code: seq<nat>): (buffer: seq<Byte>)
    requires IsCode(code)
    ensures |buffer| == BufferSize
  {
    FromRing(CodeRing(code))
  }

  /** The 72 bits spelt by a buffer's code are the buffer's ring. */
  lemma CodeRingOfEnglishCode(buffer: seq<Byte>)
    requires |buffer| == BufferSize
    ensures IsCode(EnglishCode(buffer))
    ensures CodeRing(EnglishCode(buffer)) == Ring(buffer)
  {
    var ring := Ring(buffer);
    var code := EnglishCode(buffer);
    forall j | 0 <= j < 8 * BufferSize
      ensures CodeRing(code)[j] == ring[j]
    {
      CodeRingAt(buffer, j);
    }
  }

  /** Bit `j` of `CodeRingOfEnglishCode`. */
  lemma CodeRingAt(buffer: seq<Byte>, j: nat)
    requires |buffer| == BufferSize && j < 8 * BufferSize
    ensures SymbolBit(EnglishCode(buffer)[j / 5], j % 5) == Ring(buffer)[j]
  {
    var ring := Ring(buffer);
    var i, t := j / 5, j % 5;
    SymbolBitOf(ring, i, t);
    assert 5 * i + t == j;
    assert Wrap(j, |ring|) == j;
  }

  /** Decoding a buffer's code gives the buffer back: the code loses no
      bit of it. */
  lemma DecodeEnglishCode(buffer: seq<Byte>)
    requires |buffer| == BufferSize
    ensures IsCode(EnglishCode(buffer))
    ensures DecodeCode(EnglishCode(buffer)) == buffer
  {
    CodeRingOfEnglishCode(buffer);
    RingInjective(DecodeCode(EnglishCode(buffer)), buffer);
  }

  /** Two buffers have the same code exactly when they are the same
      buffer. */
  lemma EnglishCodeSameIff(b1: seq<Byte>, b2: seq<Byte>)
    requires |b1| == BufferSize && |b2| == BufferSize
    ensures EnglishCode(b1) == EnglishCode(b2) <==> b1 == b2
  {
    DecodeEnglishCode(b1);
    DecodeEnglishCode(b2);
  }
  /** A symbol is the sum of its bits' place values. */
  lemma SymbolOfBits(v: nat)
    requires v < 32
    ensures v == 16 * BitValue(SymbolBit(v, 0)) + 8 * BitValue(SymbolBit(v, 1))
               + 4 * BitValue(SymbolBit(v, 2)) + 2 * BitValue(SymbolBit(v, 3))
               + BitValue(SymbolBit(v, 4))
  {
    var a, r1 := v / 16, v % 16;
    var b, r2 := r1 / 8, r1 % 8;
    var c, r3 := r2 / 4, r2 % 4;
    var d, e := r3 / 2, r3 % 2;
    assert v == 16 * a + 8 * b + 4 * c + 2 * d + e;
    FiveBits(v, a, b, c, d, e);
  }

  /** Symbols that agree in all five bits are equal. */
  lemma SymbolBitsDetermine(v: nat, w: nat)
    requires v < 32 && w < 32
    requires SymbolBit(v, 0) == SymbolBit(w, 0) && SymbolBit(v, 1) == SymbolBit(w, 1)
    requires SymbolBit(v, 2) == SymbolBit(w, 2) && SymbolBit(v, 3) == SymbolBit(w, 3)
    requires SymbolBit(v, 4) == SymbolBit(w, 4)
    ensures v == w
  {
    SymbolOfBits(v);
    SymbolOfBits(w);
  }

  /** Whether the last three bits of symbol 14, which run past the end of
      the buffer, repeat the first three bits of symbol 0 as they must in a
      code cut from a buffer. */
  predicate Consistent(code: seq<nat>)
    requires IsCode(code)
  {
    code[14] % 8 == code[0] / 4
  }

  /** `Consistent` bit by bit: bit `t` of symbol 14 is bit `t - 2` of
      symbol 0 for `t` from 2 to 4. */
  lemma ConsistentBits(code: seq<nat>)
    requires IsCode(code)
    ensures Consistent(code)
        <==> (SymbolBit(code[14], 2) == SymbolBit(code[0], 0)
              && SymbolBit(code[14], 3) == SymbolBit(code[0], 1)
              && SymbolBit(code[14], 4) == SymbolBit(code[0], 2))
  {
    var v, w := code[14], code[0];
    SymbolOfBits(v);
    SymbolOfBits(w);
    var c, d, e := BitValue(SymbolBit(v, 2)), BitValue(SymbolBit(v, 3)), BitValue(SymbolBit(v, 4));
    var a, b, c0 := BitValue(SymbolBit(w, 0)), BitValue(SymbolBit(w, 1)), BitValue(SymbolBit(w, 2));
    ModUnique(v, 2 * BitValue(SymbolBit(v, 0)) + BitValue(SymbolBit(v, 1)), 4 * c + 2 * d + e, 8);
    ModUnique(w, 4 * a + 2 * b + c0, 2 * BitValue(SymbolBit(w, 3)) + BitValue(SymbolBit(w, 4)), 4);
  }

  /** Every buffer's code is consistent. */
  lemma EnglishCodeConsistent(buffer: seq<Byte>)
    requires |buffer| == BufferSize
    ensures IsCode(EnglishCode(buffer)) && Consistent(EnglishCode(buffer))
  {
    var ring := Ring(buffer);
    var code := EnglishCode(buffer);
    SymbolBitOf(ring, 14, 2);
    SymbolBitOf(ring, 14, 3);
    SymbolBitOf(ring, 14, 4);
    SymbolBitOf(ring, 0, 0);
    SymbolBitOf(ring, 0, 1);
    SymbolBitOf(ring, 0, 2);
    assert Wrap(72, 72) == 0 && Wrap(73, 72) == 1 && Wrap(74, 72) == 2;
    ConsistentBits(code);
  }

  /** Bit `t` of symbol `i` of the code of a decoded consistent code is bit
      `t` of symbol `i` of the code itself. */
  lemma RecodedBit(code: seq<nat>, i: nat, t: nat)
    requires IsCode(code) && Consistent(code) && i < CodeLength && t < 5
    ensures SymbolBit(EnglishCode(DecodeCode(code))[i], t) == SymbolBit(code[i], t)
  {
    var p := 5 * i + t;
    if p < 72 {
      var ring := Ring(DecodeCode(code));
      assert ring == CodeRing(code);
      SymbolBitOf(ring, i, t);
      assert Wrap(p, 72) == p;
      assert p / 5 == i && p % 5 == t;
    } else {
      assert i == 14;
      RecodedWrappedBit(code, t);
    }
  }

  /** `RecodedBit` for the three bits of symbol 14 that lie past the end
      of the ring: they are read from its start, where bits 0 to 2 of
      symbol 0 are, and consistency makes them the bits of symbol 14. */
  lemma RecodedWrappedBit(code: seq<nat>, t: nat)
    requires IsCode(code) && Consistent(code) && 2 <= t < 5
    ensures SymbolBit(EnglishCode(DecodeCode(code))[14], t) == SymbolBit(code[14], t)
  {
    var ring := Ring(DecodeCode(code));
    assert ring == CodeRing(code);
    SymbolBitOf(ring, 14, t);
    StreamWraps(ring, t);
    CodeRingFront(code, t - 2);
    ConsistentBitAt(code, t);
  }

  /** Stream positions 72 to 74 are ring positions 0 to 2. */
  lemma StreamWraps(ring: seq<bool>, t: nat)
    requires |ring| == 8 * BufferSize && 2 <= t < 5
    ensures StreamBit(ring, 5 * 14 + t) == BitValue(ring[t - 2])
  {
    assert Wrap(5 * 14 + t, 72) == t - 2;
  }

  /** The first five bits a code spells are those of its first symbol. */
  lemma CodeRingFront(code: seq<nat>, j: nat)
    requires IsCode(code) && j < 5
    ensures CodeRing(code)[j] == SymbolBit(code[0], j)
  {
    assert j / 5 == 0 && j % 5 == j;
  }

  /** `ConsistentBits` for one bit. */
  lemma ConsistentBitAt(code: seq<nat>, t: nat)
    requires IsCode(code) && Consistent(code) && 2 <= t < 5
    ensures SymbolBit(code[14], t) == SymbolBit(code[0], t - 2)
  {
    ConsistentBits(code);
    if t == 2 {
      assert SymbolBit(code[14], 2) == SymbolBit(code[0], 0);
    } else if t == 3 {
      assert SymbolBit(code[14], 3) == SymbolBit(code[0], 1);
    } else {
      assert SymbolBit(code[14], 4) == SymbolBit(code[0], 2);
    }
  }

  /** Symbol `i` of the code of a decoded consistent code. */
  lemma RecodedSymbol(code: seq<nat>, i: nat)
    requires IsCode(code) && Consistent(code) && i < CodeLength
    ensures EnglishCode(DecodeCode(code))[i] == code[i]
  {
    RecodedBit(code, i, 0);
    RecodedBit(code, i, 1);
    RecodedBit(code, i, 2);
    RecodedBit(code, i, 3);
    RecodedBit(code, i, 4);
    SymbolBitsDetermine(EnglishCode(DecodeCode(code))[i], code[i]);
  }

  /** The codes of buffers are exactly the consistent codes: a code is the
      code of the buffer it decodes to if and only if it is consistent. */
  lemma EnglishCodeOfDecodeIff(code: seq<nat>)
    requires IsCode(code)
    ensures EnglishCode(DecodeCode(code)) == code <==> Consistent(code)
  {
    if Consistent(code) {
      forall i | 0 <= i < CodeLength
        ensures EnglishCode(DecodeCode(code))[i] == code[i]
      {
        RecodedSymbol(code, i);
      }
    } else {
      EnglishCodeConsistent(DecodeCode(code));
    }
  }
}
