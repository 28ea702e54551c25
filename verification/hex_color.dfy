/** Decoding of the colour strings used by the user interface: an optional
    '#', then six (RGB) or eight (RGBA) hexadecimal digits. */
module HexColor {

  /** An RGBA colour; the decoder fills each channel from two hex digits. */
  datatype Rgba = Rgba(r: nat, g: nat, b: nat, a: nat)

  /** Opaque black: what every string of the wrong length decodes to. */
  const Fallback: Rgba := Rgba(0, 0, 0, 255)

  /** Every channel fits in a byte. */
  predicate IsByteColor(c: Rgba) {
    c.r <= 255 && c.g <= 255 && c.b <= 255 && c.a <= 255
  }

  predicate IsHexDigit(ch: char) {
    '0' <= ch <= '9' || 'a' <= ch <= 'f' || 'A' <= ch <= 'F'
  }

  predicate IsLowerHexDigit(ch: char) {
    '0' <= ch <= '9' || 'a' <= ch <= 'f'
  }

  predicate AllHex(s: string) {
    forall i | 0 <= i < |s| :: IsHexDigit(s[i])
  }

  /** The value of one hex digit, either case. */
  function DigitValue(ch: char): (v: nat)
    requires IsHexDigit(ch)
    ensures v < 16
  {
    if ch <= '9' then ch as int - '0' as int
    else if ch <= 'F' then ch as int - 'A' as int + 10
    else ch as int - 'a' as int + 10
  }

  /** The lower-case digit for a value below 16. */
  function DigitChar(v: nat): (ch: char)
    requires v < 16
    ensures IsLowerHexDigit(ch) && IsHexDigit(ch)
  {
    if v < 10 then ('0' as int + v) as char else ('a' as int + v - 10) as char
  }

  lemma DigitRoundTrip(v: nat)
    requires v < 16
    ensures DigitValue(DigitChar(v)) == v
  {
  }

  lemma CharRoundTrip(ch: char)
    requires IsLowerHexDigit(ch)
    ensures DigitChar(DigitValue(ch)) == ch
  {
  }

  /** The base-16 value of the two digits at i and i + 1, high digit first. */
  function PairValue(s: string, i: nat): (v: nat)
    requires i + 1 < |s| && IsHexDigit(s[i]) && IsHexDigit(s[i + 1])
    ensures v <= 255
  {
    16 * DigitValue(s[i]) + DigitValue(s[i + 1])
  }

  /** The two lower-case digits of a byte, high digit first. */
  function ByteDigits(v: nat): (s: string)
    requires v <= 255
    ensures |s| == 2 && IsLowerHexDigit(s[0]) && IsLowerHexDigit(s[1])
  {
    [DigitChar(v / 16), DigitChar(v % 16)]
  }

  /** A single leading '#' is dropped; anything else is kept as it is. */
  function StripHash(hex: string): (c: string)
    ensures |hex| > 0 && hex[0] == '#' ==> hex == "#" + c
    ensures !(|hex| > 0 && hex[0] == '#') ==> c == hex
  {
    if |hex| > 0 && hex[0] == '#' then hex[1..] else hex
  }

  /** The characters the digit parser reads are hex digits. Strings of any
      other length are never parsed. */
  predicate Parsable(hex: string) {
    var c := StripHash(hex);
    (|c| == 6 || |c| == 8) ==> AllHex(c)
  }

  /** Decodes a colour: six digits give r, g and b with full alpha, eight add
      an explicit alpha, and any other length gives opaque black. */
  function FromHex(hex: string): (c: Rgba)
    requires Parsable(hex)
    ensures IsByteColor(c)
    ensures var s := StripHash(hex);
      && (|s| != 6 && |s| != 8 ==> c == Fallback)
      && (|s| == 6 ==> c.a == 255)
      && (|s| == 6 || |s| == 8 ==> Spells(s, 0, c.r) && Spells(s, 2, c.g) && Spells(s, 4, c.b))
      && (|s| == 8 ==> Spells(s, 6, c.a))
  {
    var s := StripHash(hex);
    if |s| == 6 then
      PairLower(s, 0); PairLower(s, 2); PairLower(s, 4);
      Rgba(PairValue(s, 0), PairValue(s, 2), PairValue(s, 4), 255)
    else if |s| == 8 then
      PairLower(s, 0); PairLower(s, 2); PairLower(s, 4); PairLower(s, 6);
      Rgba(PairValue(s, 0), PairValue(s, 2), PairValue(s, 4), PairValue(s, 6))
    else
      Fallback
  }

  /** The lower-case spelling of a string of hex digits. */
  function Lower(s: string): (t: string)
    requires AllHex(s)
    ensures |t| == |s|
    ensures forall i | 0 <= i < |s| :: IsLowerHexDigit(t[i]) && DigitValue(t[i]) == DigitValue(s[i])
  {
    seq(|s|, i requires 0 <= i < |s| => DigitChar(DigitValue(s[i])))
  }

  /** The digits at i and i + 1 of `s` spell the byte `v`, in either case. */
  predicate Spells(s: string, i: nat, v: nat) {
    i + 2 <= |s| && AllHex(s[i..i + 2]) && v <= 255 && ByteDigits(v) == Lower(s[i..i + 2])
  }

  /** Re-spelling a pair of digits through its value gives its lower-case form. */
  lemma PairLower(s: string, i: nat)
    requires i + 1 < |s| && AllHex(s)
    ensures Spells(s, i, PairValue(s, i))
  {
    var v := PairValue(s, i);
    assert v / 16 == DigitValue(s[i]) && v % 16 == DigitValue(s[i + 1]);
  }

  /** The encoder this decoder inverts: '#' and eight lower-case digits. */
  function ToHex(c: Rgba): (hex: string)
    requires IsByteColor(c)
    ensures |hex| == 9 && hex[0] == '#'
    ensures forall i | 1 <= i < 9 :: IsLowerHexDigit(hex[i])
  {
    "#" + ByteDigits(c.r) + ByteDigits(c.g) + ByteDigits(c.b) + ByteDigits(c.a)
  }

  lemma ByteRoundTrip(v: nat, s: string, i: nat)
    requires v <= 255 && i + 1 < |s| && s[i..i + 2] == ByteDigits(v)
    ensures PairValue(s, i) == v
  {
    assert s[i] == DigitChar(v / 16) && s[i + 1] == DigitChar(v % 16);
    DigitRoundTrip(v / 16);
    DigitRoundTrip(v % 16);
  }

  /** Decoding the encoder's output gives the colour back. */
  lemma {:induction false} FromHexToHex(c: Rgba)
    requires IsByteColor(c)
    ensures Parsable(ToHex(c)) && FromHex(ToHex(c)) == c
  {
    var hex := ToHex(c);
    var s := StripHash(hex);
    assert s == ByteDigits(c.r) + ByteDigits(c.g) + ByteDigits(c.b) + ByteDigits(c.a);
    ByteRoundTrip(c.r, s, 0);
    ByteRoundTrip(c.g, s, 2);
    ByteRoundTrip(c.b, s, 4);
    ByteRoundTrip(c.a, s, 6);
  }

  /** Two lower-case digits are the encoding of their own value. */
  lemma PairSpelling(s: string, i: nat)
    requires i + 1 < |s| && IsLowerHexDigit(s[i]) && IsLowerHexDigit(s[i + 1])
    ensures ByteDigits(PairValue(s, i)) == s[i..i + 2]
  {
    var v := PairValue(s, i);
    assert v / 16 == DigitValue(s[i]) && v % 16 == DigitValue(s[i + 1]);
    CharRoundTrip(s[i]);
    CharRoundTrip(s[i + 1]);
  }

  /** Encoding a decoded '#'-prefixed lower-case eight-digit string gives the string back. */
  lemma {:induction false} ToHexFromHex(hex: string)
    requires |hex| == 9 && hex[0] == '#'
    requires forall i | 1 <= i < 9 :: IsLowerHexDigit(hex[i])
    ensures Parsable(hex) && ToHex(FromHex(hex)) == hex
  {
    var s := StripHash(hex);
    assert AllHex(s);
    var c := FromHex(hex);
    assert c == Rgba(PairValue(s, 0), PairValue(s, 2), PairValue(s, 4), PairValue(s, 6));
    PairSpelling(s, 0);
    PairSpelling(s, 2);
    PairSpelling(s, 4);
    PairSpelling(s, 6);
    EightSplit(s);
  }

  /** An eight-character string is its four pairs in order. */
  lemma EightSplit(s: string)
    requires |s| == 8
    ensures s == s[0..2] + s[2..4] + s[4..6] + s[6..8]
  {
  }

  /** The leading '#' is optional. */
  lemma HashOptional(s: string)
    requires !(|s| > 0 && s[0] == '#') && Parsable(s)
    ensures Parsable("#" + s) && FromHex("#" + s) == FromHex(s)
  {
    assert StripHash("#" + s) == s;
  }

  /** Six digits mean the same colour as those digits followed by "ff". */
  lemma {:induction false} ShortFormIsOpaque(s: string)
    requires |s| == 6 && AllHex(s)
    ensures Parsable(s + "ff") && FromHex(s + "ff") == FromHex(s)
  {
    var t := s + "ff";
    assert StripHash(t) == t && StripHash(s) == s;
    assert t[0..6] == s;
    assert PairValue(t, 6) == 255;
  }
}
