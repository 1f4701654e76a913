/**
 * Node identifiers and their textual form: the 36-character
 * 8-4-4-4-12 hexadecimal layout of section 3 of RFC 4122, written in lower
 * case and read back in either case.
 */
module UuidText {

  import opened Wrappers

  type Nibble = x: int | 0 <= x < 16

  /** A 128-bit identifier as its 32 hexadecimal digits, most significant first. */
  type Uuid = s: seq<Nibble> | |s| == 32 witness seq(32, i => 0)

  const TEXT_LENGTH: int := 36

  /** Positions of the four hyphens in the text. */
  predicate IsHyphenPosition(i: int) {
    i == 8 || i == 13 || i == 18 || i == 23
  }

  /** The digit of the identifier written at text position `i` (not a hyphen). */
  function DigitIndex(i: int): (j: int)
    requires 0 <= i < TEXT_LENGTH && !IsHyphenPosition(i)
    ensures 0 <= j < 32
  {
    if i < 8 then i else if i < 13 then i - 1 else if i < 18 then i - 2 else if i < 23 then i - 3 else i - 4
  }

  /** The text position of digit `j`; the inverse of DigitIndex. */
  function TextPosition(j: int): (i: int)
    requires 0 <= j < 32
    ensures 0 <= i < TEXT_LENGTH && !IsHyphenPosition(i) && DigitIndex(i) == j
  {
    if j < 8 then j else if j < 12 then j + 1 else if j < 16 then j + 2 else if j < 20 then j + 3 else j + 4
  }

  predicate IsHexDigit(c: char) {
    ('0' <= c <= '9') || ('a' <= c <= 'f') || ('A' <= c <= 'F')
  }

  function HexValue(c: char): (n: Nibble)
    requires IsHexDigit(c)
  {
    if '0' <= c <= '9' then (c - '0') as int
    else if 'a' <= c <= 'f' then (c - 'a') as int + 10
    else (c - 'A') as int + 10
  }

  function HexChar(n: Nibble): (c: char)
    ensures IsHexDigit(c) && HexValue(c) == n
    ensures !('A' <= c <= 'F')
  {
    "0123456789abcdef"[n]
  }

  /** The canonical lower-case text of an identifier. */
  function Format(u: Uuid): (s: string)
    ensures |s| == TEXT_LENGTH
    ensures forall i :: 0 <= i < TEXT_LENGTH && IsHyphenPosition(i) ==> s[i] == '-'
    ensures forall j :: 0 <= j < 32 ==> s[TextPosition(j)] == HexChar(u[j])
  {
    seq(TEXT_LENGTH, i requires 0 <= i < TEXT_LENGTH =>
      if IsHyphenPosition(i) then '-' else HexChar(u[DigitIndex(i)]))
  }

  /** Whether `s` is an identifier text: hyphens in place, hex digits elsewhere. */
  predicate WellFormed(s: string) {
    && |s| == TEXT_LENGTH
    && (forall i :: 0 <= i < TEXT_LENGTH && IsHyphenPosition(i) ==> s[i] == '-')
    && (forall i :: 0 <= i < TEXT_LENGTH && !IsHyphenPosition(i) ==> IsHexDigit(s[i]))
  }

  /** Reads an identifier text; anything else is rejected. */
  function Parse(s: string): (r: Option<Uuid>)
    ensures r.Some? <==> WellFormed(s)
    ensures r.Some? ==> forall j :: 0 <= j < 32 ==> HexValue(s[TextPosition(j)]) == r.value[j]
  {
    if WellFormed(s) then
      Some(seq(32, j requires 0 <= j < 32 => HexValue(s[TextPosition(j)])))
    else None
  }

  /** The text written for an identifier reads back as that identifier. */
  lemma ParseFormat(u: Uuid)
    ensures Parse(Format(u)) == Some(u)
  {
    var s := Format(u);
    forall i | 0 <= i < TEXT_LENGTH && !IsHyphenPosition(i)
      ensures IsHexDigit(s[i])
    {
      assert TextPosition(DigitIndex(i)) == i;
    }
    assert WellFormed(s);
    var v := Parse(s).value;
    assert forall j :: 0 <= j < 32 ==> v[j] == u[j];
    assert v == u;
  }

  function ToLowerHex(c: char): char {
    if 'A' <= c <= 'F' then (c - 'A' + 'a') as char else c
  }

  /** An accepted text is the canonical text of what it parses to, up to letter case. */
  lemma FormatParse(s: string)
    requires Parse(s).Some?
    ensures Format(Parse(s).value) == seq(|s|, i requires 0 <= i < |s| => ToLowerHex(s[i]))
  {
  }
}
