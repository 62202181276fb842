/** What references stand for, whoever wrote them, and what the writer escapes. */
module XmlReferences {
  import opened Options
  import opened XmlText
  import opened XmlTextProof

  // --------------------------------------------------------- named references

  lemma EntitiesAre(rest: string)
    ensures GetEntity("&amp;" + rest) == Some(("&", rest))
    ensures GetEntity("&lt;" + rest) == Some(("<", rest))
    ensures GetEntity("&gt;" + rest) == Some((">", rest))
    ensures GetEntity("&quot;" + rest) == Some(("\"", rest))
    ensures GetEntity("&apos;" + rest) == Some(("'", rest))
  {
    Named("&amp;", rest);
    Named("&lt;", rest);
    Named("&gt;", rest);
    Named("&quot;", rest);
    Named("&apos;", rest);
  }

  lemma Named(name: string, rest: string)
    requires name == "&amp;" || name == "&lt;" || name == "&gt;" || name == "&quot;" || name == "&apos;"
    ensures GetEntity(name + rest)
            == Some((if name == "&amp;" then "&"
                     else if name == "&lt;" then "<"
                     else if name == "&gt;" then ">"
                     else if name == "&quot;" then "\""
                     else "'", rest))
  {
    var p := name + rest;
    PrefixOf(name, rest);
    assert p[0] == name[0] && p[1] == name[1] && p[2] == name[2];
    if name != AMP {
      OtherTag(p, AMP, if name == APOS then 2 else 1);
    }
    if name != LT {
      OtherTag(p, LT, 1);
    }
    if name == QUOT || name == APOS || name == AMP {
      OtherTag(p, GT, 1);
    }
    if name == APOS {
      OtherTag(p, QUOT, 1);
    }
  }

  // ------------------------------------------------------- numeric references

  /** The digit values of the two number systems. */
  lemma DigitValuesAre(c: char)
    ensures var n := c as int;
            && DecValue(c) == (if 48 <= n <= 57 then Some(n - 48) else None)
            && HexValue(c) == (if 48 <= n <= 57 then Some(n - 48)
                               else if 65 <= n <= 70 then Some(n - 55)
                               else if 97 <= n <= 102 then Some(n - 87)
                               else None)
  {
  }

  function ValueOf(c: char, base: nat): Option<nat> {
    if base == 16 then HexValue(c) else DecValue(c)
  }

  predicate AllDigits(d: string, base: nat) {
    forall i | 0 <= i < |d| :: ValueOf(d[i], base).Some?
  }

  /** The number that digits stand for. */
  function Number(d: string, base: nat): nat
    requires AllDigits(d, base)
  {
    if d == "" then 0 else base * Number(d[..|d| - 1], base) + ValueOf(d[|d| - 1], base).value
  }

  /** Equal up to multiples of 256. */
  predicate Same(a: int, b: int) {
    (a - b) % 256 == 0
  }

  lemma SameTimes(a: int, b: int, c: int)
    requires Same(a, b)
    ensures Same(a * c, b * c)
  {
    var k := (a - b) / 256;
    assert a - b == 256 * k;
    assert a * c - b * c == 256 * (k * c);
  }

  lemma SamePlus(a: int, b: int, c: int, d: int)
    requires Same(a, b) && Same(c, d)
    ensures Same(a + c, b + d)
  {
  }

  lemma Wrapped(n: nat)
    ensures Same(n % 0x1_0000_0000, n) && Same(n % 0x1_0000_0000_0000_0000, n)
  {
    var k, l := n / 0x1_0000_0000, n / 0x1_0000_0000_0000_0000;
    Apart(n % 0x1_0000_0000, n, 0x100_0000 * k);
    Apart(n % 0x1_0000_0000_0000_0000, n, 0x100_0000_0000_0000 * l);
  }

  lemma Apart(a: int, b: int, k: int)
    requires b == a + 256 * k
    ensures Same(a, b)
  {
  }

  lemma SameTwice(a: int, b: int, c: int)
    requires Same(a, b) && Same(b, c)
    ensures Same(a, c)
  {
  }

  /** One digit further to the left, in wrapped arithmetic. */
  lemma OneMoreDigit(ucs: nat, mult: nat, digit: nat, base: nat, higher: nat)
    ensures var ucs' := (ucs + mult * digit % 0x1_0000_0000) % 0x1_0000_0000_0000_0000;
            var mult' := mult * base % 0x1_0000_0000;
            Same(ucs' + mult' * higher, ucs + mult * (base * higher + digit))
  {
    var part := mult * digit % 0x1_0000_0000;
    var ucs' := (ucs + part) % 0x1_0000_0000_0000_0000;
    var mult' := mult * base % 0x1_0000_0000;
    Wrapped(mult * digit);
    Wrapped(ucs + part);
    SamePlus(ucs, ucs, part, mult * digit);
    SameTwice(ucs', ucs + part, ucs + mult * digit);
    Wrapped(mult * base);
    SameTimes(mult', mult * base, higher);
    SamePlus(ucs', ucs + mult * digit, mult' * higher, mult * base * higher);
    Distributes(mult, base, higher, digit);
    hide Same;
  }

  lemma Distributes(mult: int, base: int, higher: int, digit: int)
    ensures mult * (base * higher + digit) == mult * base * higher + mult * digit
  {
    assert mult * base * higher == mult * (base * higher);
  }

  /** The sum of digits worth `n` that begin to count with `mult`, on top of `ucs`. */
  predicate Sums(r: Option<nat>, ucs: nat, mult: nat, n: nat) {
    r.Some? && Same(r.value, ucs + mult * n)
  }

  lemma SumsOneMore(r: Option<nat>, ucs: nat, mult: nat, digit: nat, base: nat, higher: nat)
    requires Sums(r, (ucs + mult * digit % 0x1_0000_0000) % 0x1_0000_0000_0000_0000,
                  mult * base % 0x1_0000_0000, higher)
    ensures Sums(r, ucs, mult, base * higher + digit)
  {
    OneMoreDigit(ucs, mult, digit, base, higher);
    var ucs' := (ucs + mult * digit % 0x1_0000_0000) % 0x1_0000_0000_0000_0000;
    var mult' := mult * base % 0x1_0000_0000;
    SameTwice(r.value, ucs' + mult' * higher, ucs + mult * (base * higher + digit));
  }

  /** The loop over the digits, from the right, sums them up to multiples of 256. */
  lemma {:induction false} DigitsSum(p: string, from: nat, d: string, mark: char, base: nat, ucs: nat, mult: nat)
    requires 0 < from && from + |d| <= |p| && p[from - 1] == mark
    requires forall i | 0 <= i < |d| :: p[from + i] == d[i]
    requires AllDigits(d, base) && ValueOf(mark, base) == None
    ensures Sums(Digits(p, from + |d| - 1, mark, base, ucs, mult), ucs, mult, Number(d, base))
    decreases |d|
  {
    hide Digits, Sums, ValueOf;
    if d != "" {
      var q := from + |d| - 1;
      var digit := ValueOf(d[|d| - 1], base).value;
      var higher := d[..|d| - 1];
      assert p[from + (|d| - 1)] == d[|d| - 1];
      var ucs' := (ucs + mult * digit % 0x1_0000_0000) % 0x1_0000_0000_0000_0000;
      var mult' := mult * base % 0x1_0000_0000;
      DigitStepAt(p, q, mark, base, ucs, mult, digit);
      DigitsSum(p, from, higher, mark, base, ucs', mult');
      SumsOneMore(Digits(p, q - 1, mark, base, ucs', mult'), ucs, mult, digit, base, Number(higher, base));
    } else {
      NothingSummed(p, from - 1, mark, base, ucs, mult);
    }
  }

  lemma NothingSummed(p: string, q: nat, mark: char, base: nat, ucs: nat, mult: nat)
    requires q < |p| && p[q] == mark
    ensures Sums(Digits(p, q, mark, base, ucs, mult), ucs, mult, 0)
  {
  }

  lemma DigitStepAt(p: string, q: nat, mark: char, base: nat, ucs: nat, mult: nat, digit: nat)
    requires 0 < q < |p| && p[q] != mark && ValueOf(p[q], base) == Some(digit)
    requires exists i | 0 <= i < q :: p[i] == mark
    ensures Digits(p, q, mark, base, ucs, mult)
            == Digits(p, q - 1, mark, base, (ucs + mult * digit % 0x1_0000_0000) % 0x1_0000_0000_0000_0000,
                      mult * base % 0x1_0000_0000)
  {
  }

  /** A reference whose digits sum up. */
  lemma Reference(p: string, q: nat, hex: bool, n: nat)
    requires |p| > 3 && p[0] == '&' && p[1] == '#' && (hex <==> p[2] == 'x')
    requires var first := if hex then 3 else 2; first <= q < |p| && Semicolon(p, first) == q
    requires Sums(Digits(p, q - 1, if hex then 'x' else '#', if hex then 16 else 10, 0, 1), 0, 1, n)
    ensures GetEntity(p) == Some(([(n % 256) as char], p[q + 1..]))
  {
    hide Digits, Semicolon;
  }

  /** A decimal reference stands for the character with its number, up to multiples of
      256, however many digits it has. */
  lemma DecimalReference(d: string, rest: string)
    requires d != "" && AllDigits(d, 10)
    ensures GetEntity("&#" + d + ";" + rest) == Some(([(Number(d, 10) % 256) as char], rest))
  {
    var p := "&#" + d + ";" + rest;
    Layout(p, "&#", d, rest, 10);
    hide Digits, Number, AllDigits, GetEntity, Sums, Semicolon;
    assert p[0] == '&' && p[1] == '#' && p[2] == d[0];
    DigitsSum(p, 2, d, '#', 10, 0, 1);
    Reference(p, 2 + |d|, false, Number(d, 10));
  }

  /** The same for a hexadecimal one, with digits in either case. */
  lemma HexReference(d: string, rest: string)
    requires d != "" && AllDigits(d, 16)
    ensures GetEntity("&#x" + d + ";" + rest) == Some(([(Number(d, 16) % 256) as char], rest))
  {
    var p := "&#x" + d + ";" + rest;
    Layout(p, "&#x", d, rest, 16);
    hide Digits, Number, AllDigits, GetEntity, Sums, Semicolon;
    assert p[0] == '&' && p[1] == '#' && p[2] == 'x';
    DigitsSum(p, 3, d, 'x', 16, 0, 1);
    Reference(p, 3 + |d|, true, Number(d, 16));
  }

  /** Where the parts of a reference stand. */
  lemma Layout(p: string, head: string, d: string, rest: string, base: nat)
    requires p == head + d + ";" + rest && head != "" && AllDigits(d, base)
    ensures var n := |head|;
            && n + |d| < |p| && p[..n] == head && p[n..n + |d|] == d && p[n + |d|] == ';'
            && p[n + |d| + 1..] == rest && Semicolon(p, n) == n + |d|
            && forall i | n <= i < n + |d| :: p[i] == d[i - n]
    ensures base == 10 && d != "" ==> d[0] != 'x'
  {
    var n := |head|;
    assert p[n..n + |d|] == d;
    assert forall i | n <= i < n + |d| :: p[i] == d[i - n];
    SemicolonAt(p, n, n + |d|);
  }

  /** A numeric reference without a semicolon anywhere after it cannot be read. */
  lemma UnfinishedReference(p: string)
    requires |p| > 2 && p[0] == '&' && p[1] == '#' && forall i | 2 <= i < |p| :: p[i] != ';'
    ensures GetEntity(p) == None
  {
    hide Digits;
  }

  /** Nor can one with something else than a digit before its semicolon. */
  lemma WrongDigit(p: string, q: nat)
    requires |p| > 3 && p[0] == '&' && p[1] == '#'
    requires var first := if p[2] == 'x' then 3 else 2;
             first < q < |p| && p[q] == ';' && forall i | first <= i < q :: p[i] != ';'
    requires if p[2] == 'x' then HexValue(p[q - 1]) == None && p[q - 1] != 'x'
             else DecValue(p[q - 1]) == None && p[q - 1] != '#'
    ensures GetEntity(p) == None
  {
    SemicolonAt(p, if p[2] == 'x' then 3 else 2, q);
    hide Semicolon;
  }

  /** An ampersand that begins no reference is dropped. */
  lemma NoReference(p: string)
    requires p != "" && p[0] == '&' && !(|p| > 2 && p[1] == '#')
    requires !("&amp;" <= p) && !("&lt;" <= p) && !("&gt;" <= p) && !("&quot;" <= p) && !("&apos;" <= p)
    ensures GetEntity(p) == Some(("", p[1..]))
  {
    NoTag(p, AMP);
    NoTag(p, LT);
    NoTag(p, GT);
    NoTag(p, QUOT);
    NoTag(p, APOS);
    hide StringEqual;
  }

  lemma NoTag(p: string, tag: string)
    requires !(tag <= p)
    ensures !StringEqual(p, tag)
  {
  }

  // ------------------------------------------------------------ what is escaped

  /** A control character is written with two hexadecimal digits, letters in upper case. */
  lemma ControlIsWritten(c: char)
    requires c as int < 32
    ensures var e, n := EscapeChar(c), c as int;
            && |e| == 6 && e[..3] == "&#x" && e[5] == ';'
            && e[3] as int == 48 + n / 16
            && e[4] as int == if n % 16 < 10 then 48 + n % 16 else 55 + n % 16
  {
    UpperDigit(c as int / 16);
    UpperDigit(c as int % 16);
    hide HexDigit;
  }

  lemma UpperDigit(d: nat)
    requires d < 16
    ensures HexDigit(d) as int == if d < 10 then 48 + d else 55 + d
  {
  }

  /** The characters with a meaning are written as their references. */
  lemma SpecialIsWritten()
    ensures EscapeChar('&') == "&amp;" && EscapeChar('<') == "&lt;" && EscapeChar('>') == "&gt;"
    ensures EscapeChar('\"') == "&quot;" && EscapeChar('\'') == "&apos;"
  {
  }

  /** Characters with a meaning in markup, and control characters. */
  predicate Special(c: char) {
    c == '&' || c == '<' || c == '>' || c == '\"' || c == '\'' || c as int < 32
  }

  /** Escaping leaves no control character and no character with a meaning, but for the
      ampersands of references. */
  lemma {:induction false} EscapedIsSafe(s: string)
    requires NoHexReference(s)
    ensures forall i | 0 <= i < |Escape(s)| :: Escape(s)[i] == '&' || !Special(Escape(s)[i])
  {
    hide EscapeChar, StartsHexReference, Special;
    if s != "" {
      assert s[0..] == s;
      assert !StartsHexReference(s[0..]);
      forall i | 0 <= i < |s[1..]| ensures !StartsHexReference(s[1..][i..]) {
        assert s[1..][i..] == s[i + 1..];
      }
      EscapedIsSafe(s[1..]);
      EscapedCharIsSafe(s[0]);
    }
  }

  lemma EscapedCharIsSafe(c: char)
    ensures var e := EscapeChar(c); forall i | 0 <= i < |e| :: e[i] == '&' || !Special(e[i])
    ensures Special(c) <==> EscapeChar(c) != [c]
  {
    if c as int < 32 {
      HexDigitIs(c as int / 16);
      HexDigitIs(c as int % 16);
    }
  }

  /** Everything else is written as it is. */
  lemma {:induction false} OthersAreKept(s: string)
    requires forall i | 0 <= i < |s| :: !Special(s[i])
    ensures Escape(s) == s
  {
    if s != "" {
      EscapedCharIsSafe(s[0]);
      OthersAreKept(s[1..]);
      assert [s[0]] + s[1..] == s;
    }
  }
}
