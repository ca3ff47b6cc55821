/** The two types of PasswordUtil.h: the wallpaper parameters a code is made
    from (lines 24-32) and the 32 letters a code is written in (lines
    34-41); with them, the sizes every stage shares. */
module PasswordTypes {

  /** Size of the packed buffer in bytes (`U[9]` in main.cpp). */
  const BufferSize: nat := 9

  /** Number of letters in a code (`code[15]` in main.cpp). */
  const CodeLength: nat := 15

  /** `wallpaper_params_t`, each field at its C width. The colours are
      32-bit fields of which the packer reads only bits 0..23
      (0xRRGGBB). */
  datatype WallpaperParams = WallpaperParams(
    pattern: bv8,
    icon: bv8,
    backgroundColour: bv32,
    foregroundColour: bv32,
    trainerId: bv16,
    key: bv8)

  /** `english_letter_t`: nineteen upper-case and thirteen lower-case
      consonants, numbered from B = 0 in the order declared. */
  datatype EnglishLetter =
    | B | C | D | F | G | H | J | K | L | M
    | N | P | Q | R | S | T | V | W | Z
    | b | c | d | f | g | h | j | k | m
    | n | p | q | s

  /** Number of enumeration constants. */
  const LetterCount: nat := 32

  /** The numeric value C gives each constant: B = 0 and one more for each
      following constant. */
  function Value(letter: EnglishLetter): (v: nat)
    ensures v < LetterCount
  {
    match letter
    case B => 0  case C => 1  case D => 2  case F => 3  case G => 4
    case H => 5  case J => 6  case K => 7  case L => 8  case M => 9
    case N => 10 case P => 11 case Q => 12 case R => 13 case S => 14
    case T => 15 case V => 16 case W => 17 case Z => 18
    case b => 19 case c => 20 case d => 21 case f => 22 case g => 23
    case h => 24 case j => 25 case k => 26 case m => 27
    case n => 28 case p => 29 case q => 30 case s => 31
  }

  /** The cast `(english_letter_t)v` for a value below 32. */
  function OfValue(v: nat): (letter: EnglishLetter)
    requires v < LetterCount
  {
    match v
    case 0 => B  case 1 => C  case 2 => D  case 3 => F  case 4 => G
    case 5 => H  case 6 => J  case 7 => K  case 8 => L  case 9 => M
    case 10 => N case 11 => P case 12 => Q case 13 => R case 14 => S
    case 15 => T case 16 => V case 17 => W case 18 => Z
    case 19 => b case 20 => c case 21 => d case 22 => f case 23 => g
    case 24 => h case 25 => j case 26 => k case 27 => m
    case 28 => n case 29 => p case 30 => q case _ => s
  }

  /** Casting a value below 32 and reading the constant's value back gives
      the value. */
  lemma ValueOfValue(v: nat)
    requires v < LetterCount
    ensures Value(OfValue(v)) == v
  {
    if v < 8 {
      ValueOfValueFrom(v, 0);
    } else if v < 16 {
      ValueOfValueFrom(v, 8);
    } else if v < 24 {
      ValueOfValueFrom(v, 16);
    } else {
      ValueOfValueFrom(v, 24);
    }
  }

  /** `ValueOfValue` for the eight values from `base`. */
  lemma ValueOfValueFrom(v: nat, base: nat)
    requires base <= v < base + 8 && v < LetterCount
    ensures Value(OfValue(v)) == v
  {
  }

  /** Casting a constant's value back gives the constant: together with
      `ValueOfValue`, the constants and the values 0..31 are in one-to-one
      correspondence. */
  lemma OfValueOfLetter(letter: EnglishLetter)
    ensures OfValue(Value(letter)) == letter
  {
  }

  /** Different constants have different values. */
  lemma ValueInjective(x: EnglishLetter, y: EnglishLetter)
    requires Value(x) == Value(y)
    ensures x == y
  {
    OfValueOfLetter(x);
    OfValueOfLetter(y);
  }
}
