/** The field packer (`prepareArray`, PasswordUtil.cpp:18-42): the wallpaper
    parameters become nine bytes. Each 24-bit colour is cut down to five
    bits per channel and stored as a 15-bit value, low byte first; icon,
    pattern and key are copied; two check bytes fold the trainer id into
    the rest. */
module Packer {
  import opened Bits
  import opened PasswordTypes

  /** The top five bits of the red channel (bits 16..23 of 0xRRGGBB). */
  function Red5(colour: bv32): (v: bv16)
    ensures v < 32
  {
    (((colour >> 16) & 0xff) >> 3) as bv16
  }

  /** The top five bits of the green channel (bits 8..15). */
  function Green5(colour: bv32): (v: bv16)
    ensures v < 32
  {
    (((colour >> 8) & 0xff) >> 3) as bv16
  }

  /** The top five bits of the blue channel (bits 0..7). */
  function Blue5(colour: bv32): (v: bv16)
    ensures v < 32
  {
    ((colour & 0xff) >> 3) as bv16
  }

  /** Lines 23 and 28: blue in bits 10..14, green in bits 5..9 and red in
      bits 0..4 of a 16-bit value whose top bit stays clear. */
  function Pack5(red: bv16, green: bv16, blue: bv16): (v: bv16)
    requires red < 32 && green < 32 && blue < 32
    ensures v < 0x8000
  {
    (blue << 10) | (green << 5) | red
  }

  /** Lines 20-23 (and 25-28): a colour's packed 15-bit value, from which
      each of the three channels can be read back. */
  function PackColour(colour: bv32): (v: bv16)
    ensures v & 0x1f == Red5(colour)
    ensures (v >> 5) & 0x1f == Green5(colour)
    ensures v >> 10 == Blue5(colour)
  {
    Pack5(Red5(colour), Green5(colour), Blue5(colour))
  }

  /** Two colours pack alike exactly when their channels agree in the top
      five bits (`ChannelsSameIff` says which bits of the colour those
      are). */
  lemma PackColourSameIff(c1: bv32, c2: bv32)
    ensures PackColour(c1) == PackColour(c2)
            <==> (Red5(c1) == Red5(c2) && Green5(c1) == Green5(c2) && Blue5(c1) == Blue5(c2))
  {
    if PackColour(c1) == PackColour(c2) {
      SamePackSameChannels(c1, c2);
    }
  }

  /** Equal packings have equal channels. */
  lemma SamePackSameChannels(c1: bv32, c2: bv32)
    requires PackColour(c1) == PackColour(c2)
    ensures Red5(c1) == Red5(c2) && Green5(c1) == Green5(c2) && Blue5(c1) == Blue5(c2)
  {
  }

  /** The channels agree exactly when the colours agree in the bits they
      are taken from: bits 24..31 and the low three bits of each channel
      are never read. */
  lemma ChannelsSameIff(c1: bv32, c2: bv32)
    ensures (Red5(c1) == Red5(c2) && Green5(c1) == Green5(c2) && Blue5(c1) == Blue5(c2))
            <==> c1 & 0xF8F8F8 == c2 & 0xF8F8F8
  {
    assert Red5(c1) == Red5(c2) <==> c1 & 0xF80000 == c2 & 0xF80000;
    assert Green5(c1) == Green5(c2) <==> c1 & 0xF800 == c2 & 0xF800;
    assert Blue5(c1) == Blue5(c2) <==> c1 & 0xF8 == c2 & 0xF8;
    MaskSplit(c1, c2);
  }

  /** Two colours pack alike exactly when they agree in the top five bits
      of each channel, whatever their other bits. */
  lemma PackColourSameBits(c1: bv32, c2: bv32)
    ensures PackColour(c1) == PackColour(c2) <==> c1 & 0xF8F8F8 == c2 & 0xF8F8F8
  {
    PackColourSameIff(c1, c2);
    ChannelsSameIff(c1, c2);
  }

  /** Agreeing under 0xF8F8F8 is agreeing under each of its three bytes. */
  lemma MaskSplit(c1: bv32, c2: bv32)
    ensures c1 & 0xF8F8F8 == c2 & 0xF8F8F8
            <==> (c1 & 0xF80000 == c2 & 0xF80000 && c1 & 0xF800 == c2 & 0xF800 && c1 & 0xF8 == c2 & 0xF8)
  {
  }

  /** A 24-bit colour whose channels' top five bits are those stored in a
      packed value. */
  function ColourOf(v: bv16): bv32
  {
    ((v & 0x1f) as bv32 << 19) | (((v >> 5) & 0x1f) as bv32 << 11) | (((v >> 10) & 0x1f) as bv32 << 3)
  }

  /** Every 15-bit value is the packing of some colour. */
  lemma PackColourOnto(v: bv16)
    requires v < 0x8000
    ensures PackColour(ColourOf(v)) == v
  {
  }

  /** The low byte of a 16-bit value. */
  function Low(v: bv16): Byte
  {
    (v & 0xff) as Byte
  }

  /** The high byte of a 16-bit value. */
  function High(v: bv16): Byte
  {
    ((v >> 8) & 0xff) as Byte
  }

  /** A 16-bit value from its two bytes. */
  function Join(high: Byte, low: Byte): (v: bv16)
    ensures High(v) == high && Low(v) == low
  {
    (high as bv16 << 8) | low as bv16
  }

  /** A 16-bit value is the join of its bytes. */
  lemma JoinHighLow(v: bv16)
    ensures Join(High(v), Low(v)) == v
  {
  }

  /** `prepareArray` into a fresh nine-byte buffer. */
  function PrepareArray(wallpaper: WallpaperParams): (a: seq<Byte>)
    ensures |a| == BufferSize
    ensures a[1] <= 0x7F && a[3] <= 0x7F
    ensures a[0] ^ a[2] ^ a[4] ^ a[6] == High(wallpaper.trainerId)
    ensures a[1] ^ a[3] ^ a[5] ^ a[7] == Low(wallpaper.trainerId)
  {
    var bgColour := PackColour(wallpaper.backgroundColour);
    var fgColour := PackColour(wallpaper.foregroundColour);
    var x := Low(bgColour) ^ Low(fgColour) ^ wallpaper.icon ^ High(wallpaper.trainerId);
    var y := High(bgColour) ^ High(fgColour) ^ wallpaper.pattern ^ Low(wallpaper.trainerId);
    [Low(bgColour), High(bgColour), Low(fgColour), High(fgColour),
     wallpaper.icon, wallpaper.pattern, x, y, wallpaper.key]
  }

  /** What can be read back from a packed buffer: both packed colours,
      icon, pattern, trainer id (from the check bytes) and key. */
  datatype Fields = Fields(
    background: bv16,
    foreground: bv16,
    icon: bv8,
    pattern: bv8,
    trainerId: bv16,
    key: bv8)

  /** Reads the fields out of a nine-byte buffer. */
  function Unpack(a: seq<Byte>): Fields
    requires |a| == BufferSize
  {
    Fields(Join(a[1], a[0]), Join(a[3], a[2]), a[4], a[5],
           Join(a[0] ^ a[2] ^ a[4] ^ a[6], a[1] ^ a[3] ^ a[5] ^ a[7]), a[8])
  }

  /** What the packed buffer keeps of the parameters: the packed colours
      and the other fields as they are. */
  function Stored(wallpaper: WallpaperParams): Fields
  {
    Fields(PackColour(wallpaper.backgroundColour), PackColour(wallpaper.foregroundColour),
           wallpaper.icon, wallpaper.pattern, wallpaper.trainerId, wallpaper.key)
  }

  /** Reading a packed buffer back gives the packed colours and the other
      fields unchanged: the layout loses nothing but the colours' low
      bits. */
  lemma UnpackPrepareArray(wallpaper: WallpaperParams)
    ensures Unpack(PrepareArray(wallpaper)) == Stored(wallpaper)
  {
    var a := PrepareArray(wallpaper);
    JoinHighLow(PackColour(wallpaper.backgroundColour));
    JoinHighLow(PackColour(wallpaper.foregroundColour));
    JoinHighLow(wallpaper.trainerId);
  }

  /** Two sets of parameters pack to the same buffer exactly when they
      store the same fields; by `PackColourSameBits`, when they differ at
      most in the colours' unread bits. */
  lemma PrepareArraySameIff(w1: WallpaperParams, w2: WallpaperParams)
    ensures PrepareArray(w1) == PrepareArray(w2) <==> Stored(w1) == Stored(w2)
  {
    UnpackPrepareArray(w1);
    UnpackPrepareArray(w2);
  }

  /** Wallpaper parameters that pack to a given buffer. */
  function ParamsOf(a: seq<Byte>): WallpaperParams
    requires |a| == BufferSize
  {
    var fields := Unpack(a);
    WallpaperParams(fields.pattern, fields.icon, ColourOf(fields.background),
                    ColourOf(fields.foreground), fields.trainerId, fields.key)
  }

  /** The contract of `PrepareArray` is complete: every nine-byte buffer
      whose bytes 1 and 3 are at most 0x7F is the packing of some
      parameters. */
  lemma PrepareArrayOnto(a: seq<Byte>)
    requires |a| == BufferSize && a[1] <= 0x7F && a[3] <= 0x7F
    ensures PrepareArray(ParamsOf(a)) == a
  {
    var fields := Unpack(a);
    var bg := Join(a[1], a[0]);
    var fg := Join(a[3], a[2]);
    PackColourOnto(bg);
    PackColourOnto(fg);
    var r := PrepareArray(ParamsOf(a));
    assert r[0] == a[0] && r[1] == a[1] && r[2] == a[2] && r[3] == a[3];
    CheckByteRecovered(a[0], a[2], a[4], a[6], a[1] ^ a[3] ^ a[5] ^ a[7]);
    CheckByteRecovered(a[1], a[3], a[5], a[7], a[0] ^ a[2] ^ a[4] ^ a[6]);
  }

  /** A check byte recomputed from the trainer id that was read from it is
      the byte itself. */
  lemma CheckByteRecovered(p: Byte, q: Byte, u: Byte, v: Byte, other: Byte)
    ensures p ^ q ^ u ^ High(Join(p ^ q ^ u ^ v, other)) == v
    ensures p ^ q ^ u ^ Low(Join(other, p ^ q ^ u ^ v)) == v
  {
  }
}
