/** Characters shared by the text codecs. */
module Text {

  datatype Option<+T> = None | Some(value: T)

  predicate IsDigit(c: char) { '0' <= c <= '9' }

  function DigitValue(c: char): (d: int)
    requires IsDigit(c)
    ensures 0 <= d <= 9
  {
    (c as int) - ('0' as int)
  }

  predicate IsHexLetter(c: char) { 'A' <= c <= 'F' || 'a' <= c <= 'f' }

  predicate IsHex(c: char) { IsDigit(c) || IsHexLetter(c) }

  function HexValue(c: char): (v: int)
    requires IsHex(c)
    ensures 0 <= v < 16
  {
    if IsDigit(c) then (c as int) - ('0' as int)
    else if c < 'a' then (c as int) - ('A' as int) + 10
    else (c as int) - ('a' as int) + 10
  }

  /** Entry d of the table "0123456789ABCDEF". */
  function H2c(d: int): (c: char)
    requires 0 <= d < 16
    ensures IsHex(c) && HexValue(c) == d
  {
    if d < 10 then (('0' as int) + d) as char else (('A' as int) + d - 10) as char
  }

  lemma H2cExactly(d: int)
    requires 0 <= d < 16
    ensures H2c(d) == "0123456789ABCDEF"[d]
  {
  }

  lemma {:induction false} LevelsAreSpaces(n: nat)
    ensures forall i :: 0 <= i < 4 * n ==> Levels(n)[i] == ' '
  {
    if n > 0 { LevelsAreSpaces(n - 1); }
  }

  lemma IndentExactly(level: int)
    ensures var s := Indent(level);
            |s| == 1 + (if level < 0 then 0 else 4 * level) && s[0] == '\n' && forall i :: 1 <= i < |s| ==> s[i] == ' '
  {
    LevelsAreSpaces(if level < 0 then 0 else level);
  }

  /** The digits and the white space, by their codes. */
  lemma CharacterCodes(c: char)
    ensures IsDigit(c) <==> 0x30 <= c as int <= 0x39
    ensures IsHexLetter(c) <==> 0x41 <= c as int <= 0x46 || 0x61 <= c as int <= 0x66
    ensures IsDigit(c) ==> DigitValue(c) == HexValue(c) == c as int - 0x30
    ensures 0x41 <= c as int <= 0x46 ==> HexValue(c) == c as int - 0x41 + 10
    ensures 0x61 <= c as int <= 0x66 ==> HexValue(c) == c as int - 0x61 + 10
    ensures IsXerSpace(c) <==> c as int in {0x09, 0x0a, 0x0c, 0x0d, 0x20}
  {
  }

  /** The characters the XER string decoders ignore: 0x09, 0x0a, 0x0c, 0x0d, 0x20. */
  predicate IsXerSpace(c: char) { c == '\t' || c == '\n' || c as int == 0x0c || c == '\r' || c == ' ' }

  predicate AllXerSpace(s: string) { forall i :: 0 <= i < |s| ==> IsXerSpace(s[i]) }

  /** n times four spaces. */
  function Levels(n: nat): (r: string)
    ensures |r| == 4 * n && AllXerSpace(r)
  {
    if n == 0 then "" else Levels(n - 1) + "    "
  }

  /** ASN__TEXT_INDENT(1, level): a newline and four spaces a level, none for a negative level. */
  function Indent(level: int): (r: string)
    ensures AllXerSpace(r)
  {
    "\n" + Levels(if level < 0 then 0 else level)
  }
}
