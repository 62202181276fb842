/** Durations in the configuration: a number and a unit. */
module Durations {
  import opened Options

  datatype Result = Ok(value: int) | BadValue | BadUnit | NoMilliseconds | Overflow

  predicate Fits(n: int) {
    -0x8000_0000 <= n <= 0x7fff_ffff
  }

  // ----------------------------------------------------------------- streams

  predicate Digit(c: char) {
    '0' <= c <= '9'
  }

  predicate Space(c: char) {
    c == ' ' || '\t' <= c <= '\r'
  }

  function SkipSpace(s: string): string {
    if s != "" && Space(s[0]) then SkipSpace(s[1..]) else s
  }

  /** The digits a string begins with. */
  function Digits(s: string): (d: string)
    ensures d <= s && forall i | 0 <= i < |d| :: Digit(d[i])
  {
    if s != "" && Digit(s[0]) then [s[0]] + Digits(s[1..]) else ""
  }

  function DigitValue(c: char): nat
    requires Digit(c)
  {
    c as int - '0' as int
  }

  function Number(d: string): nat
    requires forall i | 0 <= i < |d| :: Digit(d[i])
  {
    if d == "" then 0 else 10 * Number(d[..|d| - 1]) + DigitValue(d[|d| - 1])
  }

  /** An integer at the start of a stream, after white space, and what follows it. It is
      absent when no digits follow or when it does not fit. */
  function ReadInt(s: string): Option<(int, string)> {
    var t := SkipSpace(s);
    if t != "" && t[0] == '-' then ReadDigits(t[1..], -1)
    else if t != "" && t[0] == '+' then ReadDigits(t[1..], 1)
    else ReadDigits(t, 1)
  }

  function ReadDigits(s: string, sign: int): Option<(int, string)> {
    var d := Digits(s);
    var n := sign * Number(d);
    if d == "" || !Fits(n) then None else Some((n, s[|d|..]))
  }

  /** The characters up to the next white space. */
  function Word(s: string): string {
    if s == "" || Space(s[0]) then "" else [s[0]] + Word(s[1..])
  }

  // --------------------------------------------------------------- durations

  /** A product in 32 bits. */
  function Times(r: Result, factor: int): Result {
    if r.Ok? then if Fits(r.value * factor) then Ok(r.value * factor) else Overflow else r
  }

  function ParseDuration(duration: string, allowNegative: bool, useMilliseconds: bool): Result {
    if duration == "" then Ok(0)
    else
      match ReadInt(duration)
      case None => BadValue
      case Some((num, rest)) =>
        if num < 0 && !allowNegative then BadValue else Scaled(num, Word(SkipSpace(rest)), useMilliseconds)
  }

  function Scaled(num: int, unit: string, useMilliseconds: bool): Result {
    if unit == "ms" then if useMilliseconds then Ok(num) else NoMilliseconds
    else
      var seconds :=
        if unit == "d" then Times(Times(Ok(num), 3600), 24)
        else if unit == "h" then Times(Ok(num), 3600)
        else if unit == "m" then Times(Ok(num), 60)
        else if unit == "" || unit == "s" then Ok(num)
        else BadUnit;
      if useMilliseconds then Times(seconds, 1000) else seconds
  }

  function Decimal(n: nat): (d: string)
    ensures d != "" && forall i | 0 <= i < |d| :: Digit(d[i])
  {
    var last := ['0' + (n % 10) as char];
    if n < 10 then last else Decimal(n / 10) + last
  }

  function Printed(n: int): string {
    if n < 0 then "-" + Decimal(-n) else Decimal(n)
  }

  function FormatDuration(duration: int, useMilliseconds: bool): string {
    if duration == 0 then ""
    else if useMilliseconds && duration % 1000 != 0 then Printed(duration) + "ms"
    else
      var seconds := if useMilliseconds then duration / 1000 else duration;
      if seconds % (3600 * 24) == 0 then Printed(seconds / (3600 * 24)) + "d"
      else if seconds % 3600 == 0 then Printed(seconds / 3600) + "h"
      else if seconds % 60 == 0 then Printed(seconds / 60) + "m"
      else Printed(seconds)
  }

  // -------------------------------------------------------------- round trip

  lemma {:induction false} DecimalNumber(n: nat)
    ensures Number(Decimal(n)) == n
  {
    if n >= 10 {
      var d := Decimal(n / 10);
      DecimalNumber(n / 10);
      assert Decimal(n)[..|Decimal(n)| - 1] == d;
    } else {
      assert Decimal(n)[..0] == "";
    }
  }

  lemma {:induction false} DigitsOf(d: string, rest: string)
    requires forall i | 0 <= i < |d| :: Digit(d[i])
    requires rest != "" ==> !Digit(rest[0])
    ensures Digits(d + rest) == d
  {
    if d == "" {
      assert d + rest == rest;
    } else {
      assert (d + rest)[1..] == d[1..] + rest;
      DigitsOf(d[1..], rest);
    }
  }

  lemma DecimalIsRead(n: nat, rest: string, sign: int)
    requires Fits(sign * n) && (rest != "" ==> !Digit(rest[0]))
    ensures ReadDigits(Decimal(n) + rest, sign) == Some((sign * n, rest))
  {
    var d := Decimal(n);
    DecimalNumber(n);
    DigitsOf(d, rest);
    hide Decimal, Number, Digits;
    assert (d + rest)[|d|..] == rest;
  }

  lemma NoSpaceSkipped(s: string)
    requires s != "" && !Space(s[0])
    ensures SkipSpace(s) == s
  {}

  /** A printed number is read back, up to what follows it. */
  lemma PrintedIsRead(n: int, rest: string)
    requires Fits(n) && (rest != "" ==> !Digit(rest[0]))
    ensures ReadInt(Printed(n) + rest) == Some((n, rest))
  {
    var s := Printed(n) + rest;
    var d := Decimal(if n < 0 then -n else n);
    assert Digit(d[0]) && !Space(s[0]);
    hide Space;
    DecimalIsRead(if n < 0 then -n else n, rest, if n < 0 then -1 else 1);
    hide Decimal, SkipSpace, ReadDigits;
    NoSpaceSkipped(s);
    if n < 0 {
      MinusFirst(d, rest);
    }
  }

  lemma MinusFirst(d: string, rest: string)
    ensures ("-" + d + rest)[1..] == d + rest
  {
  }

  ghost predicate Unit(unit: string) {
    unit == "" || unit == "d" || unit == "h" || unit == "m" || unit == "ms"
  }

  lemma UnitIsRead(unit: string)
    requires Unit(unit)
    ensures unit != "" ==> !Digit(unit[0])
    ensures Word(SkipSpace(unit)) == unit
  {
    assert Word("") == "" && Word("s") == "s";
    assert unit == "ms" ==> unit[1..] == "s";
    assert |unit| == 1 ==> unit[1..] == "";
  }

  /** What parsing makes of a printed number and a unit. */
  lemma PrintedIsParsed(n: int, unit: string, allowNegative: bool, useMilliseconds: bool)
    requires Fits(n) && Unit(unit)
    ensures ParseDuration(Printed(n) + unit, allowNegative, useMilliseconds)
            == if n < 0 && !allowNegative then BadValue else Scaled(n, unit, useMilliseconds)
  {
    UnitIsRead(unit);
    PrintedIsRead(n, unit);
    assert Printed(n) + unit != "";
    hide ReadInt, Printed, Word, SkipSpace, Scaled;
  }

  /** The number and the unit that are printed. */
  ghost function Parts(duration: int, useMilliseconds: bool): (int, string) {
    var seconds := if useMilliseconds then duration / 1000 else duration;
    if useMilliseconds && duration % 1000 != 0 then (duration, "ms")
    else if seconds % 86400 == 0 then (seconds / 86400, "d")
    else if seconds % 3600 == 0 then (seconds / 3600, "h")
    else if seconds % 60 == 0 then (seconds / 60, "m")
    else (seconds, "")
  }

  lemma PartsPrinted(duration: int, useMilliseconds: bool)
    requires duration != 0
    ensures FormatDuration(duration, useMilliseconds)
            == Printed(Parts(duration, useMilliseconds).0) + Parts(duration, useMilliseconds).1
  {
    hide Printed;
  }

  /** The parts stand for the duration, and no product goes beyond it. */
  lemma PartsScaled(duration: int, useMilliseconds: bool)
    requires Fits(duration)
    ensures var (n, unit) := Parts(duration, useMilliseconds);
            Fits(n) && Unit(unit) && (n < 0 <==> duration < 0) && Scaled(n, unit, useMilliseconds) == Ok(duration)
  {
    assert 3600 * 24 == 86400;
  }

  /** Parsing what is printed for any duration gives that duration back, with no product
      out of range on the way; a negative one is refused where negative ones are. */
  lemma FormattedIsParsed(duration: int, allowNegative: bool, useMilliseconds: bool)
    requires Fits(duration)
    ensures ParseDuration(FormatDuration(duration, useMilliseconds), allowNegative, useMilliseconds)
            == if duration < 0 && !allowNegative then BadValue else Ok(duration)
  {
    if duration != 0 {
      var (n, unit) := Parts(duration, useMilliseconds);
      PartsScaled(duration, useMilliseconds);
      PartsPrinted(duration, useMilliseconds);
      PrintedIsParsed(n, unit, allowNegative, useMilliseconds);
    }
  }

  // ------------------------------------------------------ every accepted form

  /** White space of the C locale: tab, line feed, vertical tab, form feed, carriage
      return and blank. */
  lemma SpaceIs(c: char)
    ensures var n := c as int; Space(c) <==> n == 9 || n == 10 || n == 11 || n == 12 || n == 13 || n == 32
  {
  }

  predicate AllSpace(s: string) {
    forall i | 0 <= i < |s| :: Space(s[i])
  }

  /** Nothing, or something that begins with white space. */
  predicate Apart(s: string) {
    s != "" ==> Space(s[0])
  }

  lemma {:induction false} SkipsSpace(w: string, s: string)
    requires AllSpace(w) && (s != "" ==> !Space(s[0]))
    ensures SkipSpace(w + s) == s
  {
    if w == "" {
      assert w + s == s;
    } else {
      assert (w + s)[1..] == w[1..] + s;
      SkipsSpace(w[1..], s);
    }
  }

  lemma {:induction false} WordIs(unit: string, rest: string)
    requires (forall i | 0 <= i < |unit| :: !Space(unit[i])) && Apart(rest)
    ensures Word(unit + rest) == unit
  {
    if unit == "" {
      assert unit + rest == rest;
    } else {
      assert (unit + rest)[1..] == unit[1..] + rest;
      WordIs(unit[1..], rest);
    }
  }

  /** A unit and what follows it, after white space. */
  lemma UnitWord(w: string, unit: string, rest: string)
    requires AllSpace(w) && (forall i | 0 <= i < |unit| :: !Space(unit[i]))
    requires Apart(rest) && (unit == "" ==> AllSpace(rest))
    ensures Word(SkipSpace(w + (unit + rest))) == unit
  {
    hide Space, SkipSpace;
    if unit == "" {
      assert w + (unit + rest) == (w + rest) + "";
      SkipsSpace(w + rest, "");
      assert Word("") == "";
    } else {
      SkipsSpace(w, unit + rest);
      WordIs(unit, rest);
    }
  }

  lemma DigitsAreRead(d: string, more: string, sign: int)
    requires d != "" && (forall i | 0 <= i < |d| :: Digit(d[i])) && (more != "" ==> !Digit(more[0]))
    ensures ReadDigits(d + more, sign) == if Fits(sign * Number(d)) then Some((sign * Number(d), more)) else None
  {
    DigitsOf(d, more);
    hide Number, Digits;
    assert (d + more)[|d|..] == more;
  }

  lemma AfterSpace(p: string, s: string)
    requires SkipSpace(p) == s && s != ""
    ensures ReadInt(p) == if s[0] == '-' then ReadDigits(s[1..], -1)
                          else if s[0] == '+' then ReadDigits(s[1..], 1)
                          else ReadDigits(s, 1)
  {
    hide SkipSpace, ReadDigits;
  }

  predicate Sign(sign: string) {
    |sign| == 0 || (|sign| == 1 && (sign[0] == '+' || sign[0] == '-'))
  }

  /** The value of digits after a sign. */
  function Signed(sign: string, d: string): int
    requires Sign(sign) && forall i | 0 <= i < |d| :: Digit(d[i])
  {
    if |sign| == 1 && sign[0] == '-' then 0 - Number(d) else Number(d)
  }

  lemma SignedIsRead(w: string, sign: string, d: string, more: string)
    requires AllSpace(w) && Sign(sign)
    requires d != "" && (forall i | 0 <= i < |d| :: Digit(d[i])) && (more != "" ==> !Digit(more[0]))
    ensures ReadInt(w + (sign + (d + more)))
            == if Fits(Signed(sign, d)) then Some((Signed(sign, d), more)) else None
  {
    DigitsAreRead(d, more, -1);
    DigitsAreRead(d, more, 1);
    hide Number, ReadInt, ReadDigits, SkipSpace, AllSpace;
    var s := sign + (d + more);
    SignFirst(sign, d + more);
    SkipsSpace(w, s);
    AfterSpace(w + s, s);
  }

  lemma SignFirst(sign: string, t: string)
    requires Sign(sign) && t != "" && Digit(t[0])
    ensures var s := sign + t;
            && s != "" && !Space(s[0])
            && (|sign| == 0 ==> s == t) && (|sign| == 1 ==> s[0] == sign[0] && s[1..] == t)
  {
  }

  /** A number in digits, with white space and a sign before it and a unit after it, is
      parsed as that number of units. It is refused when it does not fit, or is negative
      and must not be. What follows the unit after white space is not looked at. */
  lemma DurationIsParsed(w: string, sign: string, d: string, v: string, unit: string, rest: string,
                         allowNegative: bool, useMilliseconds: bool)
    requires AllSpace(w) && Sign(sign)
    requires d != "" && forall i | 0 <= i < |d| :: Digit(d[i])
    requires AllSpace(v) && forall i | 0 <= i < |unit| :: !Space(unit[i])
    requires v == "" && unit != "" ==> !Digit(unit[0])
    requires Apart(rest) && (unit == "" ==> AllSpace(rest))
    ensures var n := if |sign| == 1 && sign[0] == '-' then 0 - Number(d) else Number(d);
            ParseDuration(w + (sign + (d + (v + (unit + rest)))), allowNegative, useMilliseconds)
            == if !Fits(n) || (n < 0 && !allowNegative) then BadValue else Scaled(n, unit, useMilliseconds)
  {
    hide ReadInt, Word, SkipSpace, Number, Scaled, Fits, ParseDuration, AllSpace, Digit, Space;
    var more := v + (unit + rest);
    NoDigitFirst(v, unit, rest);
    SignedIsRead(w, sign, d, more);
    UnitWord(v, unit, rest);
    ReadIsParsed(w + (sign + (d + more)), Signed(sign, d), more, allowNegative, useMilliseconds);
  }

  lemma ReadIsParsed(p: string, n: int, more: string, allowNegative: bool, useMilliseconds: bool)
    requires p != "" && ReadInt(p) == if Fits(n) then Some((n, more)) else None
    ensures ParseDuration(p, allowNegative, useMilliseconds)
            == if !Fits(n) || (n < 0 && !allowNegative) then BadValue
               else Scaled(n, Word(SkipSpace(more)), useMilliseconds)
  {
    hide ReadInt, Word, SkipSpace, Scaled;
  }

  lemma NoDigitFirst(v: string, unit: string, rest: string)
    requires AllSpace(v) && (v == "" && unit != "" ==> !Digit(unit[0])) && Apart(rest)
    ensures var more := v + (unit + rest); more != "" ==> !Digit(more[0])
  {
    SpaceIsNoDigit();
  }

  lemma SpaceIsNoDigit()
    ensures forall c | Space(c) :: !Digit(c)
  {
  }

  predicate IsUnit(unit: string) {
    unit == "" || unit == "s" || unit == "m" || unit == "h" || unit == "d" || unit == "ms"
  }

  /** So many units are so many seconds: 86400 for d, 3600 for h, 60 for m, 1 for s or none;
      in milliseconds where these are asked for, and 1 of them for ms. Beyond 32 bits the
      result is undefined. */
  lemma ScaledIs(n: int, unit: string, useMilliseconds: bool)
    requires Fits(n)
    ensures var seconds := if unit == "d" then 86400 * n
                           else if unit == "h" then 3600 * n
                           else if unit == "m" then 60 * n
                           else n;
            var total := if useMilliseconds && unit != "ms" then 1000 * seconds else seconds;
            Scaled(n, unit, useMilliseconds)
            == if unit == "ms" && !useMilliseconds then NoMilliseconds
               else if !IsUnit(unit) then BadUnit
               else if Fits(total) then Ok(total)
               else Overflow
  {
    assert n * 3600 * 24 == n * 86400;
  }

  /** Decimal digits: one more digit counts ten times the number before it. */
  lemma NumberOfDigits(d: string, c: char)
    requires (forall i | 0 <= i < |d| :: Digit(d[i])) && '0' <= c <= '9'
    ensures Digit(c) && Number("") == 0 && Number(d + [c]) == 10 * Number(d) + (c as int - 48)
  {
    assert (d + [c])[..|d|] == d;
  }

  /** A duration is printed in the largest unit that it is a whole number of. */
  lemma FormatsInLargestUnit(n: int)
    requires n != 0
    ensures FormatDuration(86400 * n, false) == Printed(n) + "d"
    ensures n % 24 != 0 ==> FormatDuration(3600 * n, false) == Printed(n) + "h"
    ensures n % 60 != 0 ==> FormatDuration(60 * n, false) == Printed(n) + "m" && FormatDuration(n, false) == Printed(n)
  {
    InDays(n);
    if n % 24 != 0 {
      InHours(n);
    }
    if n % 60 != 0 {
      InMinutes(n);
    }
    hide FormatDuration, Printed;
  }

  lemma InDays(n: int)
    requires n != 0
    ensures FormatDuration(86400 * n, false) == Printed(n) + "d"
  {
    hide Printed;
    assert 86400 * n / 86400 == n && 86400 * n % 86400 == 0;
  }

  lemma InHours(n: int)
    requires n != 0 && n % 24 != 0
    ensures FormatDuration(3600 * n, false) == Printed(n) + "h"
  {
    hide Printed;
    assert 3600 * n / 3600 == n && 3600 * n % 3600 == 0;
    assert 3600 * n % 86400 == 3600 * (n % 24);
  }

  lemma InMinutes(n: int)
    requires n != 0 && n % 60 != 0
    ensures FormatDuration(60 * n, false) == Printed(n) + "m" && FormatDuration(n, false) == Printed(n)
  {
    hide Printed;
    assert 60 * n / 60 == n && 60 * n % 60 == 0;
    assert 60 * n % 3600 == 60 * (n % 60);
    WholeParts(60 * n);
    WholeParts(n);
  }

  /** What is a whole number of days is one of hours, and that one of minutes. */
  lemma WholeParts(n: int)
    ensures (n % 86400 == 0 ==> n % 3600 == 0) && (n % 3600 == 0 ==> n % 60 == 0)
  {
    assert n % 86400 == 0 ==> n == 3600 * (24 * (n / 86400));
    assert n % 3600 == 0 ==> n == 60 * (60 * (n / 3600));
  }

  /** Whole seconds are printed as seconds, and the rest in milliseconds. */
  lemma FormatsMilliseconds(n: int)
    ensures n % 1000 == 0 ==> FormatDuration(n, true) == FormatDuration(n / 1000, false)
    ensures n % 1000 != 0 ==> FormatDuration(n, true) == Printed(n) + "ms"
    ensures FormatDuration(0, true) == "" == FormatDuration(0, false)
  {
    hide Printed;
  }

  lemma {:induction false} DecimalHasNoLeadingZero(n: nat)
    ensures n > 0 ==> Decimal(n)[0] != '0'
  {
    if n >= 10 {
      DecimalHasNoLeadingZero(n / 10);
    }
  }
}
