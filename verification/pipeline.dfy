/** The encoder as `printAllEnglishKeys` runs it (main.cpp:33-48): for each
    key, pack the wallpaper parameters, mask with the key, turn bytes 0..7
    by the key's low nibble, turn bytes 0..8 by 21 bits and cut the result
    into fifteen letters. */
module Pipeline {
  import opened Bits
  import opened PasswordTypes
  import Packer
  import Masker
  import Rotator
  import SymbolPacker
  import Render

  /** The window of the first rotation: bytes 0..7, leaving the key byte. */
  const FirstRange: nat := 7

  /** The window of the second rotation: the whole buffer. */
  const SecondRange: nat := 8

  /** The amount of the second rotation. */
  const SecondShift: Byte := 21

  /** The amount of the first rotation, `key % 16` (main.cpp:41). */
  function FirstShift(key: Byte): (shift: Byte)
    ensures shift < 16
  {
    key % 16
  }

  /** The buffer after `maskArray` (main.cpp:39-40). */
  function Masked(wallpaper: WallpaperParams): (a: seq<Byte>)
    ensures |a| == BufferSize
  {
    Masker.MaskArray(Packer.PrepareArray(wallpaper), wallpaper.key)
  }

  /** The buffer after the first rotation (main.cpp:41). */
  function FirstRotated(wallpaper: WallpaperParams): (a: seq<Byte>)
    ensures |a| == BufferSize
  {
    Rotator.RotateRight(Masked(wallpaper), FirstRange, FirstShift(wallpaper.key) as int)
  }

  /** The buffer after the second rotation (main.cpp:42). */
  function SecondRotated(wallpaper: WallpaperParams): (a: seq<Byte>)
    ensures |a| == BufferSize
  {
    Rotator.RotateRight(FirstRotated(wallpaper), SecondRange, SecondShift as int)
  }

  /** The cast `(english_letter_t)` of PasswordUtil.cpp:112, symbol by
      symbol. */
  function AsLetters(symbols: seq<nat>): (code: seq<EnglishLetter>)
    requires forall i :: 0 <= i < |symbols| ==> symbols[i] < LetterCount
    ensures |code| == |symbols|
    ensures forall i :: 0 <= i < |symbols| ==> Value(code[i]) == symbols[i]
  {
    seq(|symbols|, i requires 0 <= i < |symbols| => LetterOf(symbols[i]))
  }

  /** `OfValue` with its round trip made available. */
  function LetterOf(v: nat): (letter: EnglishLetter)
    requires v < LetterCount
    ensures Value(letter) == v
  {
    ValueOfValue(v);
    OfValue(v)
  }

  /** The code for one key: the letters of the fifteen symbols of the
      twice-rotated buffer. */
  function Encode(wallpaper: WallpaperParams): (code: seq<EnglishLetter>)
    ensures |code| == CodeLength
  {
    AsLetters(SymbolPacker.EnglishCode(SecondRotated(wallpaper)))
  }

  /** Lines 39-43 with the model's operations, in the source's order. */
  method EncodeKey(wallpaper: WallpaperParams) returns (code: seq<EnglishLetter>)
    ensures code == Encode(wallpaper)
  {
    var u := Packer.PrepareArray(wallpaper);
    u := Masker.MaskLoop(u, wallpaper.key);
    u := Rotator.BitShiftRight(u, FirstRange, FirstShift(wallpaper.key));
    u := Rotator.BitShiftRight(u, SecondRange, SecondShift);
    var symbols := SymbolPacker.CreateEnglishCode(u);
    code := AsLetters(symbols);
  }

  /** The loop of lines 36-47 without the printing: one code and its
      printed text for every key 0..255, in order. The source's counter is
      16 bits wide, so `x <= 255` turns false once it reaches 256; the
      model counts with a `nat`, which never gets near 2^16. */
  method AllEnglishKeys(wallpaper: WallpaperParams) returns (codes: seq<seq<EnglishLetter>>, texts: seq<string>)
    ensures codes == AllCodes(wallpaper)
    ensures |texts| == |codes|
    ensures forall key :: 0 <= key < |codes| ==> Render.Spells(texts[key], codes[key])
  {
    codes, texts := [], [];
    ghost var spec := AllCodes(wallpaper);
    var x: nat := 0;
    while x <= 255
      invariant x <= 256
      invariant codes == spec[..x] && |texts| == x
      invariant forall key :: 0 <= key < x ==> Render.Spells(texts[key], codes[key])
    {
      var code, text := EncodeAndPrint(wallpaper, x as Byte);
      assert code == spec[x];
      codes, texts := codes + [code], texts + [text];
      x := x + 1;
    }
  }

  /** The codes of all 256 keys, indexed by key. */
  function AllCodes(wallpaper: WallpaperParams): (codes: seq<seq<EnglishLetter>>)
    ensures |codes| == 256
    ensures forall key :: 0 <= key < 256 ==> |codes[key]| == CodeLength
  {
    seq(256, key requires 0 <= key < 256 => Encode(wallpaper.(key := key as Byte)))
  }

  /** One round of the loop: `wallpaper.key = x`, the encoding, and the
      text printed for it. */
  method EncodeAndPrint(wallpaper: WallpaperParams, key: Byte) returns (code: seq<EnglishLetter>, text: string)
    ensures code == Encode(wallpaper.(key := key))
    ensures Render.Spells(text, code)
  {
    var params := wallpaper.(key := key);
    code := EncodeKey(params);
    text := Render.PasswordText(code);
  }

  /** Byte 8 still holds the key when the second rotation starts: neither
      the mask nor the first rotation writes it. */
  lemma KeyByteKept(wallpaper: WallpaperParams)
    ensures FirstRotated(wallpaper)[8] == wallpaper.key
  {
    var packed := Packer.PrepareArray(wallpaper);
    var masked := Masked(wallpaper);
    var rotated := FirstRotated(wallpaper);
    assert masked[8] == masked[Masker.MaskedBytes..][0] == packed[8];
    assert rotated[8] == rotated[FirstRange + 1..][0] == masked[8];
  }

  /** With key 0 the mask is 0 and the first rotation is by 0 bits, so the
      second rotation starts from the packed buffer itself. */
  lemma KeyZero(wallpaper: WallpaperParams)
    requires wallpaper.key == 0
    ensures FirstRotated(wallpaper) == Packer.PrepareArray(wallpaper)
  {
    var packed := Packer.PrepareArray(wallpaper);
    Masker.MaskSmallKey(packed, 0);
    assert FirstShift(0) as int == 0;
    Rotator.RotateRightZero(packed, FirstRange);
  }

  /** The two rotations keep the number of set bits the mask left. */
  lemma BitCountKept(wallpaper: WallpaperParams)
    ensures Count(Ring(SecondRotated(wallpaper))) == Count(Ring(Masked(wallpaper)))
  {
    Rotator.RotateRightCount(Masked(wallpaper), FirstRange, FirstShift(wallpaper.key) as int);
    Rotator.RotateRightCount(FirstRotated(wallpaper), SecondRange, SecondShift as int);
  }

  /** The first rotation sees only the key's low nibble: keys that agree
      there turn a buffer alike. */
  lemma FirstRotationLowNibble(a: seq<Byte>, key1: Byte, key2: Byte)
    requires |a| == BufferSize && key1 & 0x0F == key2 & 0x0F
    ensures Rotator.RotateRight(a, FirstRange, FirstShift(key1) as int)
         == Rotator.RotateRight(a, FirstRange, FirstShift(key2) as int)
  {
    assert FirstShift(key1) == FirstShift(key2);
  }
  // Reading the fields back from a code.

  /** The symbols a code's letters stand for. */
  function SymbolsOf(code: seq<EnglishLetter>): (symbols: seq<nat>)
    ensures |symbols| == |code|
    ensures forall i :: 0 <= i < |code| ==> symbols[i] < LetterCount
  {
    seq(|code|, i requires 0 <= i < |code| => Value(code[i]))
  }

  /** Reading the symbols of letters made from symbols gives the symbols. */
  lemma SymbolsOfAsLetters(symbols: seq<nat>)
    requires forall i :: 0 <= i < |symbols| ==> symbols[i] < LetterCount
    ensures SymbolsOf(AsLetters(symbols)) == symbols
  {
  }

  /** The turn that completes the second rotation to a full turn of its
      72-bit window. */
  function SecondRest(): (rest: nat)
    ensures SecondShift as int + rest == Rotator.Width(SecondRange)
  {
    Rotator.Width(SecondRange) - SecondShift as int
  }

  /** The turn that completes the first rotation, for `key`, to a full turn
      of its 64-bit window. */
  function FirstRest(key: Byte): (rest: nat)
    ensures FirstShift(key) as int + rest == Rotator.Width(FirstRange)
  {
    Rotator.Width(FirstRange) - FirstShift(key) as int
  }

  /** The second rotation undone: bytes 0..8 turned on round the rest of
      their 72 bits. Turning the result by the second rotation gives `a`
      back, and every buffer the second rotation takes to `a` is the
      result. */
  function UndoSecond(a: seq<Byte>): (r: seq<Byte>)
    requires |a| == BufferSize
    ensures |r| == BufferSize
    ensures Rotator.RotateRight(r, SecondRange, SecondShift as int) == a
    ensures forall b | |b| == BufferSize && a == Rotator.RotateRight(b, SecondRange, SecondShift as int) :: r == b
  {
    Rotator.RotateRightInverse(a, SecondRange, SecondRest(), SecondShift as int);
    forall b | |b| == BufferSize && a == Rotator.RotateRight(b, SecondRange, SecondShift as int)
      ensures Rotator.RotateRight(a, SecondRange, SecondRest()) == b
    {
      Rotator.RotateRightInverse(b, SecondRange, SecondShift as int, SecondRest());
    }
    Rotator.RotateRight(a, SecondRange, SecondRest())
  }

  /** The first rotation undone, for the key held in byte 8, which the
      first rotation leaves in place. Turning the result by the first
      rotation for that key gives `a` back, and every buffer whose own key
      rotates it to `a` is the result. */
  function UndoFirst(a: seq<Byte>): (r: seq<Byte>)
    requires |a| == BufferSize
    ensures |r| == BufferSize
    ensures Rotator.RotateRight(r, FirstRange, FirstShift(a[8]) as int) == a
    ensures forall b | |b| == BufferSize && a == Rotator.RotateRight(b, FirstRange, FirstShift(b[8]) as int) :: r == b
  {
    Rotator.RotateRightInverse(a, FirstRange, FirstRest(a[8]), FirstShift(a[8]) as int);
    forall b | |b| == BufferSize && a == Rotator.RotateRight(b, FirstRange, FirstShift(b[8]) as int)
      ensures Rotator.RotateRight(a, FirstRange, FirstRest(a[8])) == b
    {
      UndoFirstOf(a, b);
    }
    Rotator.RotateRight(a, FirstRange, FirstRest(a[8]))
  }

  /** A buffer rotated by its own key comes back from `UndoFirst`. */
  lemma UndoFirstOf(a: seq<Byte>, b: seq<Byte>)
    requires |b| == BufferSize && a == Rotator.RotateRight(b, FirstRange, FirstShift(b[8]) as int)
    ensures |a| == BufferSize && Rotator.RotateRight(a, FirstRange, FirstRest(a[8])) == b
  {
    assert a[8] == a[FirstRange + 1..][0] == b[FirstRange + 1..][0] == b[8];
    Rotator.RotateRightInverse(b, FirstRange, FirstShift(b[8]) as int, FirstRest(b[8]));
  }

  /** The fields a code carries: its symbols as a buffer, both rotations
      undone, the mask of the key in byte 8 applied once more, and the
      buffer unpacked. */
  function Decode(code: seq<EnglishLetter>): Packer.Fields
    requires |code| == CodeLength
  {
    var first := UndoSecond(SymbolPacker.DecodeCode(SymbolsOf(code)));
    Packer.Unpack(Masker.MaskArray(UndoFirst(first), first[8]))
  }

  /** Decoding a wallpaper's code gives back every field the packed buffer
      stores: the key, icon, pattern, trainer id and the top five bits of
      each colour channel. */
  lemma DecodeEncode(wallpaper: WallpaperParams)
    ensures Decode(Encode(wallpaper)) == Packer.Stored(wallpaper)
  {
    var key := wallpaper.key;
    var masked := Masked(wallpaper);
    var first := FirstRotated(wallpaper);
    var second := SecondRotated(wallpaper);
    var symbols := SymbolPacker.EnglishCode(second);
    SymbolsOfAsLetters(symbols);
    SymbolPacker.DecodeEnglishCode(second);
    assert SymbolPacker.DecodeCode(SymbolsOf(Encode(wallpaper))) == second;
    assert UndoSecond(second) == first;
    KeyByteKept(wallpaper);
    assert UndoFirst(first) == masked;
    Masker.MaskTwice(Packer.PrepareArray(wallpaper), key);
    Packer.UnpackPrepareArray(wallpaper);
  }

  /** Two sets of parameters get the same code exactly when they store the
      same fields. */
  lemma EncodeSameIff(w1: WallpaperParams, w2: WallpaperParams)
    ensures Encode(w1) == Encode(w2) <==> Packer.Stored(w1) == Packer.Stored(w2)
  {
    if Packer.Stored(w1) == Packer.Stored(w2) {
      Packer.PrepareArraySameIff(w1, w2);
      assert Masked(w1) == Masked(w2);
    } else if Encode(w1) == Encode(w2) {
      DecodeEncode(w1);
      DecodeEncode(w2);
    }
  }

  /** The 256 keys give 256 different codes. */
  lemma AllCodesDistinct(wallpaper: WallpaperParams, key1: Byte, key2: Byte)
    requires key1 != key2
    ensures AllCodes(wallpaper)[key1 as int] != AllCodes(wallpaper)[key2 as int]
  {
    AllCodesAt(wallpaper, key1);
    AllCodesAt(wallpaper, key2);
    EncodeSameIff(wallpaper.(key := key1), wallpaper.(key := key2));
  }

  /** Entry `key` of `AllCodes` is the code for that key. */
  lemma AllCodesAt(wallpaper: WallpaperParams, key: Byte)
    ensures AllCodes(wallpaper)[key as int] == Encode(wallpaper.(key := key))
  {
    assert (key as int) as Byte == key;
  }
}
