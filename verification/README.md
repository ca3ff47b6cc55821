# Wallpaper password encoder, modelled in Dafny

This project models the encoder of the wallpaper password generator. It covers `PasswordUtil.cpp`, `PasswordUtil.h` and the driver loop of `main.cpp`.

The encoder takes a set of wallpaper parameters: pattern, icon, two 24-bit colours, a 16-bit trainer id and an 8-bit key. It turns them into a 15-letter password in four stages:

- **Field packer** (`prepareArray`). It builds a nine-byte buffer holding:
  - the two colours, each cut down to 15 bits and stored low byte first;
  - the icon and the pattern;
  - two check bytes that fold the trainer id into the other bytes;
  - the key.
- **Masker** (`maskArray`). It XORs bytes 0..7 with the key's high nibble, repeated into both nibbles.
- **Circular rotator** (`bitShiftRight`). It turns bytes `0..range` right by a number of bits, as one ring read byte 0 first and most significant bit first. It does this in two phases: whole-byte steps, then one carry pass for the leftover 0..7 bits.
- **Symbol packer** (`createEnglishCode`). It cuts the 72-bit buffer into fifteen 5-bit symbols. The last symbol runs three bits past the end and takes them from the top of byte 0 again.

The symbols are cast to the 32 consonant letters of `english_letter_t`. `printSecretEnglishCode` then writes them as characters.

`printAllEnglishKeys` does this for every key 0..255. It calls the rotator twice:
- first on bytes 0..7, by `key % 16` bits;
- then on bytes 0..8, by 21 bits.

Each stage has a specification stated in the system's own terms: byte layouts, bit rings, rotations and symbols. Where the source uses a loop, that loop is also modelled as a method proved equal to the specification:
- `Masker.MaskLoop` for `maskArray`;
- `Rotator.BitShiftRightWide` (with `Rotator.CarryLoop` for its carry pass) for `bitShiftRight`, with a carry counter that does not wrap; `Rotator.BitShiftRight` is the same function restricted to the ranges on which the source's `uint8_t` counter lets the loop end;
- `SymbolPacker.CreateEnglishCode` for `createEnglishCode`;
- `Render.RenderBuffer` for the loop of `printSecretEnglishCode`;
- `Pipeline.AllEnglishKeys` for `printAllEnglishKeys`.

`prepareArray` and the letter `switch` have no loop. They are modelled once, by the functions `Packer.PrepareArray` and `Render.Char`.

Each specification has a partner that it is proved against:
- masking is its own inverse;
- a rotation is undone by rotating on to a full turn, and it keeps the number of set bits;
- the packed buffer unpacks to the stored fields;
- the symbols decode back to the buffer;
- the letter table is one-to-one.

These compose into `Pipeline.DecodeEncode`: a password determines every field the buffer stores, the key included. As a consequence, the 256 keys give 256 different passwords (`Pipeline.AllCodesDistinct`).

The modules follow the source's structure:

| module | file | models |
|---|---|---|
| `Bits` | `bits.dfy` | bytes, their bits read most significant first, bit rings and right rotation of a ring |
| `PasswordTypes` | `password_types.dfy` | `wallpaper_params_t`, `english_letter_t`, and the buffer and code sizes of `main.cpp` |
| `Packer` | `packer.dfy` | `prepareArray` |
| `Masker` | `masker.dfy` | `maskArray` |
| `Rotator` | `rotator.dfy` | `bitShiftRight` |
| `SymbolPacker` | `symbol_packer.dfy` | `createEnglishCode` |
| `Render` | `render.dfy` | the letter `switch` and string buffer of `printSecretEnglishCode` |
| `Pipeline` | `pipeline.dfy` | the sequence of calls in `printAllEnglishKeys` |

Widths:
- the `uint8_t` values that carry data are `bv8` (`Bits.Byte`): the buffer bytes, `bits_to_shift`, `byte_shift`, `leftover_bit_shift`, `temp`, `temp_1`/`temp_2`, the mask and the key;
- the `uint8_t` indices and loop counters (`range`, `u_index` and the loop counters `x`) are `nat`; "## Left out" says why that is safe;
- the trainer id and the packed colours (`uint16_t`) are `bv16`; the driver's `uint16_t` counter (main.cpp:36) is a `nat`;
- `uint32_t` is `bv32`;
- the enumeration's numeric value is a `nat` below 32.

Each C function writes through a pointer to its buffer; the model uses a function or method that returns the new buffer instead.

Three points about the source worth noting:
- **Bit order:** the symbol packer reads each byte most significant bit first. `PasswordUtil.cpp` line 112 takes the top five bits of a byte that was shifted right.
- **Zero leftover shift:** the carry pass needs no special case for a leftover shift of 0. At `PasswordUtil.cpp` line 70, `array_code[x] << 8` is evaluated on an `int` and masked to 0, and `Bits.CarryBits` covers that case.
- **Decoding:** there is no decoder in the source. The `Decode` functions of `SymbolPacker` and `Pipeline` exist in the model only, as the partners that the encoder's properties are stated against.

## Model

| member | source | states |
|---|---|---|
| PasswordTypes.Value | PasswordUtil.h:34-41 | every enumeration constant has a value below 32, B being 0 and each later constant one more |
| PasswordTypes.ValueOfValue | PasswordUtil.h:34-41 | casting any value 0..31 to `english_letter_t` and reading it back gives the value |
| PasswordTypes.OfValueOfLetter | PasswordUtil.h:34-41 | casting a constant's value back gives the constant, so constants and values 0..31 are in one-to-one correspondence |
| PasswordTypes.ValueInjective | PasswordUtil.h:34-41 | different constants have different values |
| Packer.Red5 | PasswordUtil.cpp:20 | the red channel cut to its top five bits is below 32 |
| Packer.Green5 | PasswordUtil.cpp:21 | the green channel cut to its top five bits is below 32 |
| Packer.Blue5 | PasswordUtil.cpp:22 | the blue channel cut to its top five bits is below 32 |
| Packer.Pack5 | PasswordUtil.cpp:23 | three 5-bit channels packed blue-green-red fit in 15 bits, so the `uint16_t` never truncates and its top bit stays clear |
| Packer.PackColour | PasswordUtil.cpp:20-23 | red, green and blue can each be read back from the packed colour: red from bits 0..4, green from bits 5..9, blue from bits 10..14 |
| Packer.PackColourSameIff | PasswordUtil.cpp:20-28 | two colours pack alike if and only if their three 5-bit channels agree |
| Packer.ChannelsSameIff | PasswordUtil.cpp:20-22 | the channels agree if and only if the colours agree under 0xF8F8F8: bits 24..31 and each channel's low three bits are never read |
| Packer.PackColourSameBits | PasswordUtil.cpp:20-28 | two colours pack alike if and only if they agree under 0xF8F8F8 |
| Packer.PackColourOnto | PasswordUtil.cpp:20-23 | every value below 0x8000 is the packing of some colour |
| Packer.Join | PasswordUtil.cpp:33-36 | the high and low byte of a 16-bit value joined from two bytes are those bytes |
| Packer.JoinHighLow | PasswordUtil.cpp:33-36 | a 16-bit value is the join of its high and low bytes, so storing a value as two bytes loses nothing |
| Packer.PrepareArray | PasswordUtil.cpp:18-42 | the buffer has nine bytes; bytes 1 and 3 are at most 0x7F; bytes 0, 2, 4, 6 XOR to the trainer id's high byte and bytes 1, 3, 5, 7 to its low byte |
| Packer.UnpackPrepareArray | PasswordUtil.cpp:18-42 | unpacking the buffer gives both packed colours, icon, pattern, trainer id (from the check bytes) and key |
| Packer.PrepareArraySameIff | PasswordUtil.cpp:18-42 | two parameter sets pack to the same buffer if and only if they store the same fields |
| Packer.PrepareArrayOnto | PasswordUtil.cpp:18-42 | every nine-byte buffer with bytes 1 and 3 at most 0x7F is the packing of some parameters, so the contract of `PrepareArray` is complete |
| Packer.CheckByteRecovered | PasswordUtil.cpp:30-31 | a check byte recomputed from the trainer id read out of it is the check byte itself |
| Masker.Mask | PasswordUtil.cpp:87-88 | both nibbles of the mask are the key's high nibble |
| Masker.MaskArray | PasswordUtil.cpp:85-93 | each of bytes 0..7 differs from before by exactly the mask; the length and every byte from 8 on are unchanged |
| Masker.MaskLoop | PasswordUtil.cpp:85-93 | the source's loop computes `MaskArray` |
| Masker.MaskTwice | PasswordUtil.cpp:85-93 | masking twice with the same key restores the buffer |
| Masker.MaskSmallKey | PasswordUtil.cpp:87-88 | a key below 16 leaves the buffer unchanged |
| Masker.MaskHighNibbleIff | PasswordUtil.cpp:85-93 | two keys mask a buffer alike if and only if their high nibbles agree |
| Masker.MaskFromNibble | PasswordUtil.cpp:87-88 | the mask is determined by the key's high nibble |
| Bits.FromRing | PasswordUtil.cpp:44-47 | every bit string of whole bytes is the ring of some bytes |
| Bits.RingInjective | PasswordUtil.cpp:44-47 | bytes with the same ring are equal, so reading a buffer as a ring loses nothing |
| Bits.RingAppend | PasswordUtil.cpp:44-47 | the ring of two byte strings in a row is their rings in a row |
| Bits.CountAppend | PasswordUtil.cpp:44-47 | the number of set bits is additive over concatenation |
| Bits.CarryBits | PasswordUtil.cpp:70-71 | a byte shifted right by `l` with the low `l` bits of the previous byte on top holds those bits first, then the current byte's top `8 - l` bits, including the case `l == 0` |
| Bits.TopFiveBits | PasswordUtil.cpp:112 | a byte shifted right by 3 is its top five bits read most significant first |
| Bits.RotRZero | PasswordUtil.cpp:44-47 | rotating a ring by 0 changes nothing |
| Bits.RotRCompose | PasswordUtil.cpp:44-47 | rotating by `k1` then `k2` is rotating by `k1 + k2` |
| Bits.RotRFull | PasswordUtil.cpp:44-47 | rotating by the ring's width changes nothing |
| Bits.RotRInverse | PasswordUtil.cpp:44-47 | a rotation by `k` is undone by a rotation by the width minus `k` |
| Bits.RotRTurns | PasswordUtil.cpp:44-47 | rotating by any whole number of turns changes nothing |
| Bits.RotRMod | PasswordUtil.cpp:44-47 | only the rotation amount modulo the width matters |
| Bits.RotRSplit | PasswordUtil.cpp:44-47 | a rotation by at most the width cuts the ring in two and swaps the pieces |
| Bits.RotRPreservesCount | PasswordUtil.cpp:44-47 | rotation neither creates nor destroys set bits |
| Bits.RotRByBytes | PasswordUtil.cpp:59-64 | turning a byte ring by `8d` bits moves bit `m` of byte `i - d` (round the ring) to bit `m` of byte `i` |
| Bits.RotRWithinByte | PasswordUtil.cpp:66-74 | turning a byte ring by fewer than 8 bits moves each bit within its byte or into the next byte, from the last byte into byte 0 |
| Rotator.RotateRight | PasswordUtil.cpp:44-54 | bytes `0..range` hold their ring turned right by `k` bits, and the bytes after `range` are unchanged |
| Rotator.MoveUp | PasswordUtil.cpp:62 | `memmove` moves bytes `0..range-1` up one place, leaves byte 0 as it was and does not touch the bytes after `range` |
| Rotator.ByteStep | PasswordUtil.cpp:61-63 | one whole-byte step puts byte `range` at the front, moves bytes `0..range-1` up one place and leaves the rest |
| Rotator.ByteStepsNext | PasswordUtil.cpp:59-64 | byte `i` after step `t` of the whole-byte loop is byte `range`, `i - 1` or `i` of the buffer after step `t - 1` |
| Rotator.ByteStepsAt | PasswordUtil.cpp:59-64 | after `t` whole-byte steps, byte `i` of the window holds the byte `t` places before it round the window |
| Rotator.RingOfByteRotation | PasswordUtil.cpp:59-64 | bytes turned round by `d` places are their ring turned by `8d` bits |
| Rotator.RingOfByteRotationAt | PasswordUtil.cpp:59-64 | one bit of `RingOfByteRotation` |
| Rotator.ByteStepsRotate | PasswordUtil.cpp:59-64 | the whole-byte loop turns the window's ring right by 8 bits per step and leaves the bytes after the window |
| Rotator.CarryPassRotates | PasswordUtil.cpp:66-74 | the carry pass turns the window's ring right by the leftover shift and leaves the bytes after the window |
| Rotator.CarryPassAt | PasswordUtil.cpp:66-74 | one bit of `CarryPassRotates` |
| Rotator.CarriedRingAt | PasswordUtil.cpp:68-74 | each window byte after the carry pass is its own top bits below the previous byte's low bits, byte 0 taking them from byte `range` |
| Rotator.CarryPass | PasswordUtil.cpp:66-74 | after the carry pass, each byte of the window is carried from the byte before it, byte 0 from byte `range`, and the bytes after the window are unchanged |
| Rotator.RotatedRingAt | PasswordUtil.cpp:66-74 | where each bit of a ring turned by fewer than 8 bits comes from |
| Rotator.SplitShift | PasswordUtil.cpp:56-57 | whole bytes and leftover bits add up to the shift amount, and the leftover is below 8 |
| Rotator.TwoPhases | PasswordUtil.cpp:56-75 | the whole-byte steps followed by the carry pass are the rotation by the full shift amount |
| Rotator.TwoPhasesRotate | PasswordUtil.cpp:56-75 | the two phases turn the window's ring by the full shift amount and leave the bytes after it |
| Rotator.CarryStep | PasswordUtil.cpp:68-73 | one iteration of the carry loop extends its processed prefix by one byte and hands the right carry to the next |
| Rotator.CarryStepAt | PasswordUtil.cpp:71 | the byte written in iteration `x` is byte `x` shifted right with the carried-in bits on top, as the pass requires |
| Rotator.CarryClose | PasswordUtil.cpp:74 | or-ing the last carry into byte 0 completes the carry pass |
| Rotator.CarryCloseAt | PasswordUtil.cpp:74 | after the closing `|=`, byte 0 holds its own top bits below the low bits of byte `range` |
| Rotator.CarryRound | PasswordUtil.cpp:69-72 | the three statements of one iteration keep the loop's invariant |
| Rotator.CarryLoop | PasswordUtil.cpp:66-74 | the source's carry loop and final `|=`, with a counter that does not wrap, compute the carry pass for every window inside the buffer |
| Rotator.BitShiftRight | PasswordUtil.cpp:54-75 | the source's function computes `RotateRight` by the given number of bits for every `range < 255`, i.e. every window of at most 255 bytes, the ranges on which its loops end |
| Rotator.BitShiftRightWide | PasswordUtil.cpp:54-75 | with a carry counter that does not wrap, the function computes `RotateRight` by the given number of bits for every window inside the buffer, `range == 255` included |
| Rotator.CarryGuardAsWritten | PasswordUtil.cpp:68 | the `uint8_t` counter of the carry loop still passes the guard `x <= range` after the last window byte exactly when `range` is 255, where it wraps to 0 |
| Rotator.RotateRightUnique | PasswordUtil.cpp:44-54 | any buffer whose window ring is the rotated ring and whose other bytes are unchanged is `RotateRight`, so the specification is determined by its contract |
| Rotator.RotateRightZero | PasswordUtil.cpp:54-75 | a shift by 0 leaves the buffer unchanged |
| Rotator.RotateRightMod | PasswordUtil.cpp:54-75 | only the shift modulo the window width matters |
| Rotator.RotateRightCompose | PasswordUtil.cpp:54-75 | two rotations of one window are one rotation by the sum |
| Rotator.RotateRightFull | PasswordUtil.cpp:54-75 | a rotation by the full window width leaves the buffer unchanged |
| Rotator.RotateRightInverse | PasswordUtil.cpp:54-75 | a rotation by `k` is undone by a rotation by the rest of the window's width |
| Rotator.RotateRightCount | PasswordUtil.cpp:54-75 | the buffer's number of set bits is kept |
| SymbolPacker.Symbol | PasswordUtil.cpp:95-99 | symbol `i` of a ring is a value below 32, made of stream bits `5i..5i+4` |
| SymbolPacker.EnglishCode | PasswordUtil.cpp:95-121 | a buffer yields fifteen symbols, each below 32 |
| SymbolPacker.Window | PasswordUtil.cpp:112 | the byte the loop forms in iteration `x`, shifted right by 3, is symbol `x` of the stream |
| SymbolPacker.WindowIsSymbol | PasswordUtil.cpp:112 | the byte read in iteration `x` carrying the unused bits of the byte before it, shifted right by 3, is symbol `x` |
| SymbolPacker.WindowBit | PasswordUtil.cpp:112 | bit `m` of the byte formed in iteration `x` is stream bit `5x + m` |
| SymbolPacker.LagValue | PasswordUtil.cpp:108 | the lag stored in the `uint8_t` `bits_to_shift` keeps its value and is below 8 |
| SymbolPacker.StepShape | PasswordUtil.cpp:110-119 | iteration `x` starts `Lag(x)` bits before a byte boundary and reads the byte on which its first bit lies |
| SymbolPacker.StreamBitInCurrent | PasswordUtil.cpp:112 | stream bits at or after the lag come from the byte read now |
| SymbolPacker.StreamBitInPrevious | PasswordUtil.cpp:112-114 | stream bits before the lag are the unused low bits of the byte read before |
| SymbolPacker.StepAdvance | PasswordUtil.cpp:113-119 | the unused-bit count computed at line 113 is the next lag, and the index moves on, wrapping from 8 to 0, exactly when fewer than five bits are left |
| SymbolPacker.NextState | PasswordUtil.cpp:113-119 | the state update as the code computes it in `uint8_t` lands on the next iteration's state |
| SymbolPacker.PackLetter | PasswordUtil.cpp:112 | the letter expression of iteration `x` yields symbol `x` |
| SymbolPacker.PackAdvance | PasswordUtil.cpp:113-119 | the update statements take the state of iteration `x` to that of `x + 1` |
| SymbolPacker.InitialState | PasswordUtil.cpp:106-108 | the zero initial values are the state of iteration 0 |
| SymbolPacker.CreateEnglishCode | PasswordUtil.cpp:104-121 | the source's loop emits exactly the fifteen symbols of `EnglishCode` |
| SymbolPacker.FirstSymbol | PasswordUtil.cpp:112 | symbol 0 is the top five bits of byte 0 |
| SymbolPacker.LastSymbolWraps | PasswordUtil.cpp:95-99 | symbol 14 is the last two bits of byte 8 followed by the top three bits of byte 0 |
| SymbolPacker.ShiftCountNegativeIff | PasswordUtil.cpp:113-114 | the shift count of line 114 is negative exactly in the last iteration, and between 1 and 8 in the others |
| SymbolPacker.FiveBits | PasswordUtil.cpp:112 | each of the five bits of a symbol can be read back from its value |
| SymbolPacker.SymbolBitOf | PasswordUtil.cpp:112 | bit `t` of symbol `i` is stream bit `5i + t` |
| SymbolPacker.CodeRing | PasswordUtil.cpp:95-99 | the bits a code spells, five per symbol, are 72 bits |
| SymbolPacker.DecodeCode | PasswordUtil.cpp:95-99 | the buffer read back from a code has nine bytes |
| SymbolPacker.CodeRingOfEnglishCode | PasswordUtil.cpp:95-121 | the first 72 bits spelt by a buffer's code are the buffer's ring |
| SymbolPacker.CodeRingAt | PasswordUtil.cpp:95-121 | one bit of `CodeRingOfEnglishCode` |
| SymbolPacker.DecodeEnglishCode | PasswordUtil.cpp:95-121 | decoding a buffer's code gives the buffer back |
| SymbolPacker.EnglishCodeSameIff | PasswordUtil.cpp:95-121 | two buffers have the same code if and only if they are equal |
| SymbolPacker.SymbolOfBits | PasswordUtil.cpp:112 | a symbol is the sum of its five bits' place values |
| SymbolPacker.SymbolBitsDetermine | PasswordUtil.cpp:112 | symbols that agree in all five bits are equal |
| SymbolPacker.ConsistentBits | PasswordUtil.cpp:95-99 | a code is consistent if and only if bits 2..4 of symbol 14 are bits 0..2 of symbol 0 |
| SymbolPacker.EnglishCodeConsistent | PasswordUtil.cpp:95-121 | every buffer's code is consistent: its last three bits repeat its first three |
| SymbolPacker.RecodedBit | PasswordUtil.cpp:95-121 | recoding a decoded consistent code gives back each bit of each symbol |
| SymbolPacker.RecodedWrappedBit | PasswordUtil.cpp:95-99 | recoding gives back the three bits of symbol 14 that lie past the end of the buffer |
| SymbolPacker.StreamWraps | PasswordUtil.cpp:118 | stream positions 72..74 are ring positions 0..2 |
| SymbolPacker.CodeRingFront | PasswordUtil.cpp:95-99 | the first five bits a code spells are its first symbol's |
| SymbolPacker.ConsistentBitAt | PasswordUtil.cpp:95-99 | in a consistent code, bit `t` of symbol 14 is bit `t - 2` of symbol 0 |
| SymbolPacker.RecodedSymbol | PasswordUtil.cpp:95-121 | recoding a decoded consistent code gives back each symbol |
| SymbolPacker.EnglishCodeOfDecodeIff | PasswordUtil.cpp:95-121 | a fifteen-symbol code is the code of some buffer if and only if it is consistent |
| Render.Char | PasswordUtil.cpp:133-167 | the `switch` gives each constant the character at the constant's value in "BCDFGHJKLMNPQRSTVWZbcdfghjkmnpqs" |
| Render.AlphabetAscending | PasswordUtil.cpp:133-167 | the 32 characters are in strictly increasing order |
| Render.AlphabetOrdered | PasswordUtil.cpp:133-167 | any two positions of the alphabet hold different characters, the later one greater |
| Render.CharInjective | PasswordUtil.cpp:133-167 | distinct letters print as distinct characters |
| Render.CharClass | PasswordUtil.cpp:133-167 | values 0..18 print upper case and 19..31 lower case, never a vowel and never NUL |
| Render.RenderBuffer | PasswordUtil.cpp:130-168 | the 16-character buffer holds the code's characters in places 0..14 and NUL in place 15 |
| Render.CString | PasswordUtil.cpp:169 | `%s` reads the characters before the first NUL: a prefix of the buffer free of NUL, stopped by a NUL or the buffer's end |
| Render.PrintedPassword | PasswordUtil.cpp:128-170 | the printed string is exactly the fifteen characters of the code |
| Render.PasswordText | PasswordUtil.cpp:128-170 | the text handed to `printf` spells the code, one character per letter |
| Pipeline.FirstShift | main.cpp:41 | the first rotation is by fewer than 16 bits |
| Pipeline.Masked | main.cpp:39-40 | the masked buffer has nine bytes |
| Pipeline.FirstRotated | main.cpp:41 | the buffer after the first rotation has nine bytes |
| Pipeline.SecondRotated | main.cpp:42 | the buffer after the second rotation has nine bytes |
| Pipeline.AsLetters | PasswordUtil.cpp:112 | the cast gives one letter per symbol, each with the symbol as its value |
| Pipeline.LetterOf | PasswordUtil.cpp:112 | the letter a symbol is cast to has the symbol as its value |
| Pipeline.Encode | main.cpp:38-43 | every key's code has fifteen letters |
| Pipeline.EncodeKey | main.cpp:38-43 | the source's calls, in the source's order, compute `Encode` |
| Pipeline.EncodeAndPrint | main.cpp:38-46 | one round of the loop yields the key's code and the text that spells it |
| Pipeline.AllEnglishKeys | main.cpp:33-48 | the loop visits the keys 0..255 in order and yields each key's code and printed text |
| Pipeline.AllCodes | main.cpp:36-38 | there are 256 codes, each of fifteen letters |
| Pipeline.AllCodesAt | main.cpp:36-38 | entry `key` of the sweep is the code for that key |
| Pipeline.KeyByteKept | main.cpp:39-41 | byte 8 still holds the key when the second rotation starts |
| Pipeline.KeyZero | main.cpp:39-41 | with key 0 the mask and the first rotation change nothing |
| Pipeline.BitCountKept | main.cpp:40-42 | the two rotations keep the number of set bits the mask left |
| Pipeline.FirstRotationLowNibble | main.cpp:41 | keys that agree in their low nibble turn a buffer alike |
| Pipeline.SymbolsOf | PasswordUtil.cpp:112 | a code's letters stand for one symbol each, each below 32 |
| Pipeline.SymbolsOfAsLetters | PasswordUtil.cpp:112 | reading back the letters cast from symbols gives the symbols |
| Pipeline.UndoSecond | main.cpp:42 | the model-only inverse of the second rotation: turning its result by 21 bits gives the input back, and it returns the one nine-byte buffer the rotation takes to its input |
| Pipeline.UndoFirst | main.cpp:41 | the model-only inverse of the first rotation: turning its result by `key % 16` bits for the key in byte 8 gives the input back, and it returns the one nine-byte buffer its own key rotates to the input |
| Pipeline.UndoFirstOf | main.cpp:41 | the first rotation leaves the key byte in place, so undoing it with that byte recovers the buffer |
| Pipeline.DecodeEncode | main.cpp:38-43 | a wallpaper's code determines every field the packed buffer stores: the key, icon, pattern, trainer id and each colour channel's top five bits |
| Pipeline.EncodeSameIff | main.cpp:38-43 | two parameter sets get the same code if and only if they store the same fields |
| Pipeline.AllCodesDistinct | main.cpp:36-47 | the 256 keys give 256 different codes |

## Left out

- The output of `printf` at PasswordUtil.cpp:169 and main.cpp:45 is not modelled as I/O. The model returns the text that would be printed: `Render.PasswordText` and the `texts` of `Pipeline.AllEnglishKeys`. The `Key %03d: ` prefix is left out.
- `printBinaryEnglishCode` (PasswordUtil.cpp:178-198) and the `BYTE_TO_BINARY` macro (PasswordUtil.h:13-21) are left out. They are a debugging dump and are not called.
- `main` (main.cpp:13-31) is left out: its hard-coded parameters and the idle `while (1)`. The model takes the parameters as an argument.
- `memmove` (PasswordUtil.cpp:62) is a library call. It is modelled by its effect on the buffer (`Rotator.MoveUp`).
- Rotator.BitShiftRight: requires the window to lie inside the buffer, as the source's indexing does. It also requires `range < 255`, i.e. a window of at most 255 bytes: with `range == 255`, the `uint8_t` counter of the carry loop (line 68) wraps round and the loop never ends (see Findings). `Rotator.BitShiftRightWide` drops that requirement. The source only calls it with ranges 7 and 8.
- Rotator.BitShiftRight, Rotator.BitShiftRightWide, Rotator.CarryLoop, Masker.MaskLoop, SymbolPacker.CreateEnglishCode, Render.RenderBuffer: the `uint8_t` variables `range`, `u_index` and the loop counters `x` (PasswordUtil.cpp:54, 59, 68, 89, 106, 110, 131) are unbounded `nat`. No wrap-around is lost: the carry counter stops at `range + 1`, which is at most 255 for `Rotator.BitShiftRight` and is 256 at `range == 255` only in `Rotator.BitShiftRightWide`, the corrected version; the others stop at 31 or below, and `u_index` stays within 0..8.
- SymbolPacker.CreateEnglishCode: stops after emitting symbol 14. It does not compute the state update of the last iteration, which is never read and whose shift is undefined (see Findings).
- Pipeline.AllEnglishKeys: counts with an unbounded `nat`, where the source uses a `uint16_t`. The counter stops at 256, so it never comes near the 16-bit limit.
- The buffers are returned as new sequences rather than written through pointers. Pointer aliasing is not modelled; the source never aliases its buffers.

## Findings

| source | as written | input that shows it | evidently intended | confidence | as-written member | corrected member |
|---|---|---|---|---|---|---|
| PasswordUtil.cpp:68 | the carry loop counts with a `uint8_t x` while `x <= range`; with `range == 255` the counter wraps from 255 to 0 and the guard never fails | `range = 255` (a 256-byte window) | the loop should end after byte `range` for every `uint8_t` range, e.g. with a wider counter | high, as the guard is fixed arithmetic; not executed | Rotator.CarryGuardAsWritten | Rotator.BitShiftRightWide |
| PasswordUtil.cpp:113-114 | after emitting the last symbol, the loop still computes `bits_to_shift = 1*8 - 15*5`, stored as 189, and then shifts by `8 - 189 = -181`; a negative shift count is undefined behaviour under the shift rules of the C++ standard ([expr.shift]) | any buffer: iteration `x = 14`, where `u_index = 0` | the state update is only needed before the next symbol, so the last iteration should skip it (its result `temp` is never read) | high, as the arithmetic is fixed; not executed | SymbolPacker.ShiftCountNegativeIff | SymbolPacker.CreateEnglishCode |
