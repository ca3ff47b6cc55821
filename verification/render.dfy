/** The letter table of `printSecretEnglishCode` (PasswordUtil.cpp:128-170):
    each letter of a code becomes its own name as a character, written into
    a zero-initialised 16-character buffer that is then read as a C
    string. */
module Render {
  import opened PasswordTypes

  /** The names of the 32 letters, in declaration order. */
  const Alphabet: string := "BCDFGHJKLMNPQRSTVWZbcdfghjkmnpqs"

  /** The `switch` of lines 133-167: each constant prints as the character
      at its value in the alphabet. */
  function Char(letter: EnglishLetter): (ch: char)
    ensures |Alphabet| == LetterCount
    ensures ch == Alphabet[Value(letter)]
  {
    match letter
    case B => 'B' case C => 'C' case D => 'D' case F => 'F' case G => 'G'
    case H => 'H' case J => 'J' case K => 'K' case L => 'L' case M => 'M'
    case N => 'N' case P => 'P' case Q => 'Q' case R => 'R' case S => 'S'
    case T => 'T' case V => 'V' case W => 'W' case Z => 'Z'
    case b => 'b' case c => 'c' case d => 'd' case f => 'f' case g => 'g'
    case h => 'h' case j => 'j' case k => 'k' case m => 'm'
    case n => 'n' case p => 'p' case q => 'q' case s => 's'
  }

  /** The alphabet is in strictly increasing character order: upper case
      before lower case, each in alphabetical order. */
  lemma AlphabetAscending()
    ensures |Alphabet| == LetterCount
    ensures forall i :: 0 < i < |Alphabet| ==> Alphabet[i - 1] < Alphabet[i]
  {
  }

  /** Hence any two positions of the alphabet hold different characters. */
  lemma {:induction false} AlphabetOrdered(i: nat, j: nat)
    requires i < j < |Alphabet|
    ensures Alphabet[i] < Alphabet[j]
    decreases j - i
  {
    AlphabetAscending();
    if i + 1 < j {
      AlphabetOrdered(i, j - 1);
    }
  }

  /** Distinct letters print as distinct characters. */
  lemma CharInjective(x: EnglishLetter, y: EnglishLetter)
    requires Char(x) == Char(y)
    ensures x == y
  {
    if Value(x) < Value(y) {
      AlphabetOrdered(Value(x), Value(y));
    } else if Value(y) < Value(x) {
      AlphabetOrdered(Value(y), Value(x));
    }
    ValueInjective(x, y);
  }

  /** Values 0..18 print as upper-case letters and values 19..31 as
      lower-case ones; none of them is a vowel, and none is NUL. */
  lemma CharClass(letter: EnglishLetter)
    ensures Value(letter) < 19 <==> 'A' <= Char(letter) <= 'Z'
    ensures Value(letter) >= 19 <==> 'a' <= Char(letter) <= 'z'
    ensures Char(letter) !in "AEIOUaeiou"
    ensures Char(letter) != '\0'
  {
    var ch := Char(letter);
    assert ch !in "AEIOUaeiou" by {
      assert ch in Alphabet;
    }
  }

  /** The buffer of lines 130-168: sixteen NUL characters, of which the
      loop overwrites the first fifteen with the code's letters. */
  method RenderBuffer(code: seq<EnglishLetter>) returns (buffer: string)
    requires |code| == CodeLength
    ensures |buffer| == CodeLength + 1
    ensures buffer[CodeLength] == '\0'
    ensures forall i :: 0 <= i < CodeLength ==> buffer[i] == Alphabet[Value(code[i])]
  {
    buffer := seq(CodeLength + 1, _ => '\0');
    var x: nat := 0;
    while x <= 14
      invariant x <= CodeLength && |buffer| == CodeLength + 1
      invariant forall i :: 0 <= i < x ==> buffer[i] == Alphabet[Value(code[i])]
      invariant forall i :: x <= i <= CodeLength ==> buffer[i] == '\0'
    {
      buffer := buffer[x := Char(code[x])];
      x := x + 1;
    }
  }

  /** What `printf("%s")` reads from a buffer: the characters before the
      first NUL. */
  function CString(buffer: string): (text: string)
    ensures |text| <= |buffer|
    ensures forall i :: 0 <= i < |text| ==> text[i] == buffer[i] && text[i] != '\0'
    ensures |text| < |buffer| ==> buffer[|text|] == '\0'
  {
    if |buffer| == 0 || buffer[0] == '\0' then [] else [buffer[0]] + CString(buffer[1..])
  }

  /** The printed password is exactly the fifteen letters of the code, as
      no letter prints as NUL and the sixteenth character is NUL. */
  lemma PrintedPassword(code: seq<EnglishLetter>, buffer: string)
    requires |code| == CodeLength
    requires |buffer| == CodeLength + 1 && buffer[CodeLength] == '\0'
    requires forall i :: 0 <= i < CodeLength ==> buffer[i] == Alphabet[Value(code[i])]
    ensures CString(buffer) == seq(CodeLength, i requires 0 <= i < CodeLength => Char(code[i]))
  {
    var text := CString(buffer);
    forall i | 0 <= i < CodeLength
      ensures buffer[i] == Char(code[i]) && buffer[i] != '\0'
    {
      CharClass(code[i]);
    }
  }

  /** `text` is the code written out, one character per letter. */
  predicate Spells(text: string, code: seq<EnglishLetter>)
  {
    |text| == |code| && forall i :: 0 <= i < |code| ==> text[i] == Char(code[i])
  }

  /** `printSecretEnglishCode` without the printing: the text it hands to
      `printf`. */
  method PasswordText(code: seq<EnglishLetter>) returns (text: string)
    requires |code| == CodeLength
    ensures Spells(text, code)
  {
    var buffer := RenderBuffer(code);
    text := CString(buffer);
    PrintedPassword(code, buffer);
  }
}
