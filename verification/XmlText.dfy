/** Character data of the XML writer and reader: escaping, entities, and the text
    up to an end tag. Characters are the bytes 0 to 255. A pointer into a C string
    is the rest of that string, empty at its end. A call that would leave the
    string or go on from a null pointer has no result. */
module XmlText {
  import opened Options

  predicate IsByte(c: char) {
    c as int <= 255
  }

  predicate IsText(s: string) {
    forall c | c in s :: IsByte(c)
  }

  predicate StringEqual(p: string, tag: string) {
    |tag| <= |p| && p[..|tag|] == tag
  }

  // ------------------------------------------------------------- the writer

  const AMP := "&amp;"
  const LT := "&lt;"
  const GT := "&gt;"
  const QUOT := "&quot;"
  const APOS := "&apos;"

  predicate StartsHexReference(s: string) {
    |s| > 2 && s[0] == '&' && s[1] == '#' && s[2] == 'x'
  }

  /** How many characters of a hexadecimal reference pass unchanged: up to the
      semicolon, or all but the last. */
  function PassLength(s: string, k: nat): (n: nat)
    requires 1 <= k < |s|
    ensures k <= n < |s|
    ensures forall i | k <= i < n :: s[i] != ';'
    ensures n < |s| - 1 ==> s[n] == ';'
    decreases |s| - k
  {
    if k == |s| - 1 || s[k] == ';' then k else PassLength(s, k + 1)
  }

  function HexDigit(d: nat): char
    requires d < 16
  {
    "0123456789ABCDEF"[d]
  }

  function EscapeChar(c: char): string {
    if c == '&' then AMP
    else if c == '<' then LT
    else if c == '>' then GT
    else if c == '\"' then QUOT
    else if c == '\'' then APOS
    else if c < 32 as char then
      ['&', '#', 'x', HexDigit(c as int / 16), HexDigit(c as int % 16), ';']
    else [c]
  }

  /** `PutString`. */
  function Escape(s: string): string {
    if s == "" then ""
    else if StartsHexReference(s) then
      var k := PassLength(s, 1);
      s[..k] + Escape(s[k..])
    else EscapeChar(s[0]) + Escape(s[1..])
  }

  // ------------------------------------------------------------- the reader

  function HexValue(c: char): Option<nat> {
    if '0' <= c <= '9' then Some(c as int - '0' as int)
    else if 'a' <= c <= 'f' then Some(c as int - 'a' as int + 10)
    else if 'A' <= c <= 'F' then Some(c as int - 'A' as int + 10)
    else None
  }

  function DecValue(c: char): Option<nat> {
    if '0' <= c <= '9' then Some(c as int - '0' as int) else None
  }

  /** Sums the digits leftwards from `q` to the mark, in 32- and 64-bit unsigned
      arithmetic. */
  function Digits(p: string, q: nat, mark: char, base: nat, ucs: nat, mult: nat): Option<nat>
    requires q < |p| && exists i | 0 <= i <= q :: p[i] == mark
    decreases q
  {
    if p[q] == mark then Some(ucs)
    else
      var digit := if base == 16 then HexValue(p[q]) else DecValue(p[q]);
      match digit
      case None => None
      case Some(d) =>
        Digits(p, q - 1, mark, base,
               (ucs + mult * d % 0x1_0000_0000) % 0x1_0000_0000_0000_0000, mult * base % 0x1_0000_0000)
  }

  /** The position of the first semicolon from `k` on, or the length. */
  function Semicolon(p: string, k: nat): (q: nat)
    requires k <= |p|
    ensures k <= q <= |p|
    ensures forall i | k <= i < q :: p[i] != ';'
    ensures q < |p| ==> p[q] == ';'
    decreases |p| - k
  {
    if k == |p| || p[k] == ';' then k else Semicolon(p, k + 1)
  }

  /** What an entity stands for, and the rest of the string. An unknown entity
      stands for nothing and only its `&` is passed. */
  function GetEntity(p: string): Option<(string, string)>
    requires p != "" && p[0] == '&'
  {
    if |p| > 2 && p[1] == '#' then
      var hex := p[2] == 'x';
      var first := if hex then 3 else 2;
      if hex && |p| == 3 then None
      else
        var q := Semicolon(p, first);
        if q == |p| then None
        else
          var ucs := Digits(p, q - 1, if hex then 'x' else '#', if hex then 16 else 10, 0, 1);
          match ucs
          case None => None
          case Some(u) => Some(([(u % 256) as char], p[q + 1..]))
    else if StringEqual(p, AMP) then Some(("&", p[|AMP|..]))
    else if StringEqual(p, LT) then Some(("<", p[|LT|..]))
    else if StringEqual(p, GT) then Some((">", p[|GT|..]))
    else if StringEqual(p, QUOT) then Some(("\"", p[|QUOT|..]))
    else if StringEqual(p, APOS) then Some(("'", p[|APOS|..]))
    else Some(("", p[1..]))
  }

  function GetChar(p: string): (r: Option<(string, string)>)
    requires p != ""
    ensures r.Some? ==> |r.value.1| < |p|
  {
    if p[0] == '&' then GetEntity(p) else Some(([p[0]], p[1..]))
  }

  /** `ReadText` keeping white space: the text up to the end tag, and the rest
      after the tag. */
  function ReadText(p: string, endTag: string): (r: Option<(string, string)>)
    ensures r.Some? && endTag != "" ==> |r.value.1| < |p|
    decreases |p|
  {
    if p == "" then None
    else if StringEqual(p, endTag) then Some(("", p[|endTag|..]))
    else
      match GetChar(p)
      case None => None
      case Some((value, rest)) =>
        match ReadText(rest, endTag)
        case None => None
        case Some((text, end)) => Some((value + text, end))
  }
}
