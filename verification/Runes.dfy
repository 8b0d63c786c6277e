/** Code points and the classes of them that the command language tells apart. */
module Runes {
  type Rune = r: nat | r < 0x11_0000

  const BACKSLASH: Rune := 0x5C
  const APOSTROPHE: Rune := 0x27
  const QUOTE: Rune := 0x22
  const SLASH: Rune := 0x2F
  const COLON: Rune := 0x3A
  const OPEN: Rune := 0x7B
  const CLOSE: Rune := 0x7D
  const LETTER_U: Rune := 0x75
  const SPACE: Rune := 0x20

  /** What `u_isWhitespace` says: separators other than no-break spaces, and some of the control characters. */
  predicate IsWhitespace(c: Rune) {
    (IsSeparator(c) && c != 0xA0 && c != 0x2007 && c != 0x202F) || 0x09 <= c <= 0x0D || 0x1C <= c <= 0x1F
  }

  /** The general categories Zs, Zl and Zp. */
  predicate IsSeparator(c: Rune) {
    || c == 0x20 || c == 0xA0 || c == 0x1680 || 0x2000 <= c <= 0x200A || c == 0x2028 || c == 0x2029 || c == 0x202F
    || c == 0x205F || c == 0x3000
  }

  /** These are twenty-five code points. */
  lemma WhitespaceIs(c: Rune)
    ensures IsWhitespace(c) <==>
      c in {0x09, 0x0A, 0x0B, 0x0C, 0x0D, 0x1C, 0x1D, 0x1E, 0x1F, 0x20, 0x1680, 0x2000, 0x2001, 0x2002, 0x2003, 0x2004,
            0x2005, 0x2006, 0x2008, 0x2009, 0x200A, 0x2028, 0x2029, 0x205F, 0x3000}
  {
  }

  /** Private-use planes, where the client's auto-translate phrases live. */
  predicate IsAutoTranslate(c: Rune) {
    0xF_0000 <= c <= 0xF_FFFD || 0x10_0000 <= c <= 0x10_FFFD
  }

  /** All of the planes 15 and 16 but the last two code points of each. */
  lemma AutoTranslateIs(c: Rune)
    ensures IsAutoTranslate(c) <==> c / 0x1_0000 in {15, 16} && c % 0x1_0000 != 0xFFFE && c % 0x1_0000 != 0xFFFF
  {
  }

  predicate IsHex(c: Rune) {
    0x30 <= c <= 0x39 || 0x41 <= c <= 0x46 || 0x61 <= c <= 0x66
  }

  function HexDigit(c: Rune): (d: nat)
    requires IsHex(c)
    ensures d < 16
  {
    if c <= 0x39 then c - 0x30 else if c <= 0x46 then c - 0x37 else c - 0x57
  }

  /** The value as the program computes it, by multiplication of 32-bit words. */
  function Multiplied(c: Rune): nat {
    (((c as bv32 | 0x1B0) * 0x0E42_2D48) >> 28) as int
  }

  lemma MultipliedDecimals()
    ensures Multiplied(0x30) == 0 && Multiplied(0x31) == 1 && Multiplied(0x32) == 2
    ensures Multiplied(0x33) == 3 && Multiplied(0x34) == 4 && Multiplied(0x35) == 5
    ensures Multiplied(0x36) == 6 && Multiplied(0x37) == 7 && Multiplied(0x38) == 8
    ensures Multiplied(0x39) == 9
  {
  }

  lemma MultipliedUpperCase()
    ensures Multiplied(0x41) == 10 && Multiplied(0x42) == 11 && Multiplied(0x43) == 12
    ensures Multiplied(0x44) == 13 && Multiplied(0x45) == 14 && Multiplied(0x46) == 15
  {
  }

  lemma MultipliedLowerCase()
    ensures Multiplied(0x61) == 10 && Multiplied(0x62) == 11 && Multiplied(0x63) == 12
    ensures Multiplied(0x64) == 13 && Multiplied(0x65) == 14 && Multiplied(0x66) == 15
  {
  }

  /** The multiplication gives the value of every hexadecimal digit. */
  lemma MultiplicationGivesDigit(c: Rune)
    requires IsHex(c)
    ensures Multiplied(c) == HexDigit(c)
  {
    hide Multiplied;
    MultipliedDecimals();
    MultipliedUpperCase();
    MultipliedLowerCase();
  }

  /** The digits are those of the two cases. */
  lemma HexDigitsAre(c: Rune)
    ensures IsHex(c) <==>
      exists d :: 0 <= d < 16 && (c == "0123456789ABCDEF"[d] as int || c == "0123456789abcdef"[d] as int)
  {
    var upper, lower := "0123456789ABCDEF", "0123456789abcdef";
    if IsHex(c) {
      var d := HexDigit(c);
      assert c == upper[d] as int || c == lower[d] as int;
    }
  }

  /** A digit printed in upper or in lower case has its value. */
  lemma PrintedDigit(digits: string, d: nat)
    requires (digits == "0123456789ABCDEF" || digits == "0123456789abcdef") && d < 16
    ensures IsHex(digits[d] as int) && HexDigit(digits[d] as int) == d
  {
  }
}
