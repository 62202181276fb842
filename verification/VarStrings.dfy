/** The expansion of object references in the strings of an action. */
module VarStrings {
  import opened Options

  /** The string after an expansion, whether anything was found to expand, and whether
      every object was known; an unknown one leaves the rest as it is. */
  datatype Expansion = Expansion(text: string, modified: bool, known: bool) {
    function After(before: string, found: bool): Expansion {
      Expansion(before + text, found || modified, known)
    }
  }

  /** The first `c` at or after `i`. */
  function Find(s: string, c: char, i: nat): (k: Option<nat>)
    requires i <= |s|
    ensures k.Some? ==> i <= k.value < |s| && s[k.value] == c && forall j | i <= j < k.value :: s[j] != c
    ensures k.None? ==> forall j | i <= j < |s| :: s[j] != c
    decreases |s| - i
  {
    if i == |s| then None else if s[i] == c then Some(i) else Find(s, c, i + 1)
  }

  /** One pass from left to right; inserted values are never looked at. With
      `checkOnly` references are looked up but left in place. */
  function Expand(s: string, values: map<string, string>, checkOnly: bool): Expansion
    decreases |s|
  {
    if |s| < 2 then Expansion(s, false, true)
    else if s[0] != '$' then Expand(s[1..], values, checkOnly).After([s[0]], false)
    else if s[1] == '{' then
      match Find(s, '}', 2)
      case None => Expansion(s, false, true)
      case Some(k) =>
        if s[2..k] !in values then Expansion(s, false, false)
        else if checkOnly then Expand(s[2..], values, checkOnly).After(s[..2], true)
        else Expand(s[k + 1..], values, checkOnly).After(values[s[2..k]], true)
    else if s[1] == '$' then Expand(s[2..], values, checkOnly).After("$", true)
    else Expand(s[1..], values, checkOnly).After("$", false)
  }

  // --------------------------------------------------------------- templates

  /** A part of a template: text, or the value of an object. */
  datatype Part = Text(text: string) | Reference(id: string)

  /** Text with every '$' doubled. */
  function Doubled(s: string): string {
    if s == "" then "" else (if s[0] == '$' then "$$" else [s[0]]) + Doubled(s[1..])
  }

  function Written(parts: seq<Part>): string {
    if parts == [] then ""
    else (match parts[0]
          case Text(t) => Doubled(t)
          case Reference(id) => "${" + id + "}") + Written(parts[1..])
  }

  function Meaning(parts: seq<Part>, values: map<string, string>): string
    requires Known(parts, values)
  {
    if parts == [] then ""
    else (match parts[0]
          case Text(t) => t
          case Reference(id) => values[id]) + Meaning(parts[1..], values)
  }

  predicate Known(parts: seq<Part>, values: map<string, string>) {
    forall i | 0 <= i < |parts| && parts[i].Reference? :: parts[i].id in values
  }

  ghost predicate Proper(parts: seq<Part>) {
    forall i | 0 <= i < |parts| && parts[i].Reference? :: '}' !in parts[i].id
  }

  /** Expanding the part changes the string. */
  predicate Changes(part: Part) {
    part.Text? ==> '$' in part.text
  }

  lemma DoubledStep(c: char, rest: string, values: map<string, string>, checkOnly: bool)
    ensures Expand((if c == '$' then "$$" else [c]) + rest, values, checkOnly)
            == Expand(rest, values, checkOnly).After([c], c == '$')
  {
    var s := (if c == '$' then "$$" else [c]) + rest;
    if c == '$' {
      assert s[2..] == rest;
    } else {
      assert s[1..] == rest;
      assert [c] + "" == [c];
    }
  }

  lemma AfterTwice(e: Expansion, s: string, t: string, x: bool, y: bool)
    ensures e.After(t, y).After(s, x) == e.After(s + t, x || y)
  {
    assert s + (t + e.text) == s + t + e.text;
  }

  lemma {:induction false} DoubledExpands(t: string, rest: string, values: map<string, string>, checkOnly: bool)
    ensures Expand(Doubled(t) + rest, values, checkOnly) == Expand(rest, values, checkOnly).After(t, '$' in t)
  {
    if t == "" {
      var e := Expand(rest, values, checkOnly);
      assert Doubled(t) + rest == rest && "" + e.text == e.text;
    } else {
      var first := if t[0] == '$' then "$$" else [t[0]];
      var e := Expand(rest, values, checkOnly);
      var d := Doubled(t[1..]) + rest;
      assert Doubled(t) + rest == first + d;
      DoubledStep(t[0], d, values, checkOnly);
      DoubledExpands(t[1..], rest, values, checkOnly);
      hide Expand, Doubled;
      AfterTwice(e, [t[0]], t[1..], t[0] == '$', '$' in t[1..]);
      assert t == [t[0]] + t[1..];
    }
  }

  /** Doubling every '$' protects any string. */
  lemma DoubledIsLiteral(t: string, values: map<string, string>, checkOnly: bool)
    ensures Expand(Doubled(t), values, checkOnly) == Expansion(t, '$' in t, true)
  {
    DoubledExpands(t, "", values, checkOnly);
    assert Doubled(t) + "" == Doubled(t) && t + "" == t;
  }

  lemma ReferenceExpands(id: string, rest: string, values: map<string, string>)
    requires '}' !in id
    ensures var s := "${" + id + "}" + rest;
            Expand(s, values, false) == if id in values then Expand(rest, values, false).After(values[id], true)
                                        else Expansion(s, false, false)
  {
    var s := "${" + id + "}" + rest;
    var k := |id| + 2;
    assert s[2..k] == id && s[k] == '}' && s[k + 1..] == rest;
    assert forall j | 2 <= j < k :: s[j] == id[j - 2];
  }

  /** The expansion of a written template is its meaning, whatever the values contain;
      it fails exactly when a referenced object is not known. */
  lemma {:induction false} WrittenExpands(parts: seq<Part>, values: map<string, string>)
    requires Proper(parts)
    ensures Expand(Written(parts), values, false).known <==> Known(parts, values)
    ensures Known(parts, values) ==> Expand(Written(parts), values, false).text == Meaning(parts, values)
    ensures Known(parts, values) ==>
              (Expand(Written(parts), values, false).modified
               <==> exists i | 0 <= i < |parts| :: Changes(parts[i]))
  {
    if parts != [] {
      var rest := parts[1..];
      assert Known(parts, values) ==> Known(rest, values);
      assert Proper(rest);
      WrittenExpands(rest, values);
      match parts[0] {
        case Text(t) =>
          DoubledExpands(t, Written(rest), values, false);
          assert forall i | 0 < i < |parts| :: parts[i] == rest[i - 1];
        case Reference(id) =>
          ReferenceExpands(id, Written(rest), values);
          assert forall i | 0 < i < |parts| :: parts[i] == rest[i - 1];
      }
    }
  }

  // ---------------------------------------------------------- everything else

  /** A string without a doubled '$' and without a '${' is left as it is. */
  lemma {:induction false} NothingToExpand(s: string, values: map<string, string>, checkOnly: bool)
    requires forall i | 0 <= i < |s| - 1 && s[i] == '$' :: s[i + 1] != '$' && s[i + 1] != '{'
    ensures Expand(s, values, checkOnly) == Expansion(s, false, true)
  {
    if |s| >= 2 {
      var rest := s[1..];
      assert forall i | 0 <= i < |rest| :: rest[i] == s[i + 1];
      NothingToExpand(rest, values, checkOnly);
      assert [s[0]] + rest == s;
      assert s[0] == '$' ==> "$" == [s[0]];
    }
  }

  /** A reference that is not closed ends the expansion: even a doubled '$' after it
      stays. */
  lemma UnclosedIsKept(rest: string, values: map<string, string>, checkOnly: bool)
    requires '}' !in rest
    ensures Expand("${" + rest, values, checkOnly) == Expansion("${" + rest, false, true)
  {
    var s := "${" + rest;
    assert forall j | 2 <= j < |s| :: s[j] == rest[j - 2];
    hide Find;
  }

  /** What only checking leaves of a template: the text, and the references as written. */
  function Checked(parts: seq<Part>): string {
    if parts == [] then ""
    else (match parts[0]
          case Text(t) => t
          case Reference(id) => "${" + id + "}") + Checked(parts[1..])
  }

  lemma CheckedReference(id: string, rest: string, values: map<string, string>)
    requires '}' !in id && '$' !in id
    ensures var s := "${" + id + "}" + rest;
            Expand(s, values, true) == if id in values then Expand(rest, values, true).After("${" + id + "}", true)
                                       else Expansion(s, false, false)
  {
    var s := "${" + id + "}" + rest;
    var k := |id| + 2;
    assert s[2..k] == id && s[k] == '}' && s[2..] == (id + "}") + rest && s[..2] == "${";
    assert forall j | 2 <= j < k :: s[j] == id[j - 2];
    FindIs(s, '}', 2, k);
    if id in values {
      ExpandsReference(s, k, values, true);
      PlainExpands(id + "}", rest, values, true);
      hide Expand, Find;
      AfterTwice(Expand(rest, values, true), "${", id + "}", true, false);
      assert "${" + (id + "}") == "${" + id + "}";
    }
  }

  lemma FindIs(s: string, c: char, i: nat, k: nat)
    requires i <= k < |s| && s[k] == c && forall j | i <= j < k :: s[j] != c
    ensures Find(s, c, i) == Some(k)
  {
    hide Find;
  }

  lemma {:induction false} PlainExpands(t: string, rest: string, values: map<string, string>, checkOnly: bool)
    requires '$' !in t
    ensures Expand(t + rest, values, checkOnly) == Expand(rest, values, checkOnly).After(t, false)
  {
    NoDollars(t);
    DoubledExpands(t, rest, values, checkOnly);
  }

  lemma {:induction false} NoDollars(t: string)
    requires '$' !in t
    ensures Doubled(t) == t
  {
    if t != "" {
      assert t[0] in t && t == [t[0]] + t[1..];
      NoDollars(t[1..]);
    }
  }

  /** Checking a template finds out whether its objects are known and leaves its
      references in place. */
  lemma {:induction false} WrittenChecks(parts: seq<Part>, values: map<string, string>)
    requires Proper(parts) && forall i | 0 <= i < |parts| && parts[i].Reference? :: '$' !in parts[i].id
    ensures Expand(Written(parts), values, true).known <==> Known(parts, values)
    ensures Known(parts, values) ==> Expand(Written(parts), values, true).text == Checked(parts)
  {
    if parts != [] {
      var rest := parts[1..];
      assert forall i | 0 < i < |parts| :: parts[i] == rest[i - 1];
      WrittenChecks(rest, values);
      match parts[0] {
        case Text(t) => DoubledExpands(t, Written(rest), values, true);
        case Reference(id) => CheckedReference(id, Written(rest), values);
      }
    }
  }

  // -------------------------------------------------------------- in place

  /** The expansion of what follows position `i`, after what precedes it. */
  ghost function From(s: string, i: nat, values: map<string, string>, checkOnly: bool, modified: bool): Expansion
    requires i <= |s|
  {
    Expand(s[i..], values, checkOnly).After(s[..i], modified)
  }

  lemma Starts(s: string, values: map<string, string>, checkOnly: bool)
    ensures From(s, 0, values, checkOnly, false) == Expand(s, values, checkOnly)
  {
    assert s[0..] == s && s[..0] == "";
  }

  /** Plain characters are passed over. */
  lemma {:induction false} SkipsPlain(s: string, i: nat, k: nat,
                                      values: map<string, string>, checkOnly: bool, modified: bool)
    requires i <= k <= |s| && forall j | i <= j < k :: s[j] != '$'
    ensures From(s, i, values, checkOnly, modified) == From(s, k, values, checkOnly, modified)
    decreases k - i
  {
    if i < k {
      assert s[i..][1..] == s[i + 1..] && s[i..][0] == s[i];
      var e := Expand(s[i + 1..], values, checkOnly);
      if i + 1 == |s| {
        assert s[i + 1..] == "" && s[i..] == [s[i]];
      }
      assert s[..i] + ([s[i]] + e.text) == s[..i + 1] + e.text;
      assert Expand(s[i..], values, checkOnly) == e.After([s[i]], false);
      SkipsPlain(s, i + 1, k, values, checkOnly, modified);
    }
  }

  lemma FindInRest(s: string, c: char, i: nat, d: nat)
    requires i + d <= |s|
    ensures Find(s[i..], c, d) == match Find(s, c, i + d) case None => None case Some(k) => Some(k - i)
  {
    var rest := s[i..];
    assert forall j | d <= j < |rest| :: rest[j] == s[i + j];
    match Find(s, c, i + d)
    case None =>
    case Some(k) => assert rest[k - i] == c;
  }

  /** The string with positions `i` up to `k` replaced. */
  function Replace(s: string, i: nat, k: nat, val: string): (r: string)
    requires i <= k <= |s|
    ensures |r| == |s| - (k - i) + |val|
  {
    s[..i] + val + s[k..]
  }

  lemma ExpandsReference(s: string, k: nat, values: map<string, string>, checkOnly: bool)
    requires 2 <= k < |s| && s[0] == '$' && s[1] == '{' && Find(s, '}', 2) == Some(k) && s[2..k] in values
    ensures Expand(s, values, checkOnly)
            == if checkOnly then Expand(s[2..], values, checkOnly).After(s[..2], true)
               else Expand(s[k + 1..], values, checkOnly).After(values[s[2..k]], true)
  {
    hide Find;
  }

  /** A known reference at position `i`, ending at `k`, is replaced by its value. */
  lemma ReplacesReference(s: string, i: nat, k: nat, values: map<string, string>, modified: bool)
    requires i + 2 <= k < |s| && s[i] == '$' && s[i + 1] == '{' && Find(s, '}', i + 2) == Some(k)
    requires s[i + 2..k] in values
    ensures var val := values[s[i + 2..k]];
            From(Replace(s, i, k + 1, val), i + |val|, values, false, true) == From(s, i, values, false, modified)
  {
    var rest, val := s[i..], values[s[i + 2..k]];
    FindInRest(s, '}', i, 2);
    assert rest[2..k - i] == s[i + 2..k] && rest[k - i + 1..] == s[k + 1..];
    ExpandsReference(rest, k - i, values, false);
    ReplaceParts(s, i, k + 1, val);
    hide Expand, Find, Replace;
    AfterTwice(Expand(s[k + 1..], values, false), s[..i], val, modified, true);
  }

  lemma ReplaceParts(s: string, i: nat, k: nat, val: string)
    requires i <= k <= |s|
    ensures var r := Replace(s, i, k, val); r[..i + |val|] == s[..i] + val && r[i + |val|..] == s[k..]
  {
  }

  /** A known reference is passed over when only checking. */
  lemma ChecksReference(s: string, i: nat, k: nat, values: map<string, string>, modified: bool)
    requires i + 2 <= k < |s| && s[i] == '$' && s[i + 1] == '{' && Find(s, '}', i + 2) == Some(k)
    requires s[i + 2..k] in values
    ensures From(s, i + 2, values, true, true) == From(s, i, values, true, modified)
  {
    var rest := s[i..];
    FindInRest(s, '}', i, 2);
    assert rest[2..k - i] == s[i + 2..k] && rest[2..] == s[i + 2..];
    ExpandsReference(rest, k - i, values, true);
    assert s[..i] + rest[..2] == s[..i + 2];
    hide Expand, Find;
    AfterTwice(Expand(s[i + 2..], values, true), s[..i], rest[..2], modified, true);
  }

  lemma DropsSecond(s: string, i: nat, values: map<string, string>, checkOnly: bool, modified: bool)
    requires i + 1 < |s| && s[i] == '$' && s[i + 1] == '$'
    ensures From(Replace(s, i + 1, i + 2, ""), i + 1, values, checkOnly, true)
            == From(s, i, values, checkOnly, modified)
  {
    var r := Replace(s, i + 1, i + 2, "");
    assert s[i..][2..] == s[i + 2..] == r[i + 1..] && r[..i + 1] == s[..i] + "$";
    var e := Expand(s[i + 2..], values, checkOnly);
    assert Expand(s[i..], values, checkOnly) == e.After("$", true);
    assert s[..i] + ("$" + e.text) == (s[..i] + "$") + e.text;
  }

  lemma KeepsDollar(s: string, i: nat, values: map<string, string>, checkOnly: bool, modified: bool)
    requires i + 1 < |s| && s[i] == '$' && s[i + 1] != '$' && s[i + 1] != '{'
    ensures From(s, i + 1, values, checkOnly, modified) == From(s, i, values, checkOnly, modified)
  {
    assert s[i..][1..] == s[i + 1..] && s[..i + 1] == s[..i] + "$";
    var e := Expand(s[i + 1..], values, checkOnly);
    assert Expand(s[i..], values, checkOnly) == e.After("$", false);
    assert s[..i] + ("$" + e.text) == (s[..i] + "$") + e.text;
  }

  /** Where the pass ends, the rest is left as it is. */
  lemma Stops(s: string, i: nat, values: map<string, string>, checkOnly: bool, modified: bool)
    requires i <= |s|
    requires |s| < i + 2 || (s[i] == '$' && s[i + 1] == '{')
    ensures |s| < i + 2 || Find(s, '}', i + 2) == None ==>
              From(s, i, values, checkOnly, modified) == Expansion(s, modified, true)
    ensures |s| >= i + 2 && Find(s, '}', i + 2).Some? && s[i + 2..Find(s, '}', i + 2).value] !in values ==>
              From(s, i, values, checkOnly, modified) == Expansion(s, modified, false)
  {
    assert s[..i] + s[i..] == s;
    if |s| >= i + 2 {
      FindInRest(s, '}', i, 2);
      var k := Find(s, '}', i + 2);
      assert k.Some? ==> s[i..][2..k.value - i] == s[i + 2..k.value];
    }
    ExpandsNothing(s[i..], values, checkOnly);
    hide Expand, Find;
  }

  lemma ExpandsNothing(s: string, values: map<string, string>, checkOnly: bool)
    requires |s| < 2 || (s[0] == '$' && s[1] == '{')
    ensures |s| < 2 || Find(s, '}', 2) == None ==> Expand(s, values, checkOnly) == Expansion(s, false, true)
    ensures |s| >= 2 && Find(s, '}', 2).Some? && s[2..Find(s, '}', 2).value] !in values ==>
              Expand(s, values, checkOnly) == Expansion(s, false, false)
  {
    hide Find;
  }

  /** The reference that begins at `at`: replaced, or only looked up. */
  method ParseReference(str: string, at: nat, values: map<string, string>, checkOnly: bool, ghost modified: bool)
    returns (text: string, idx: nat, closed: bool, known: bool)
    requires at + 2 <= |str| && str[at] == '$' && str[at + 1] == '{'
    ensures closed && known ==>
              idx <= |text| && |text| - idx < |str| - at
              && From(text, idx, values, checkOnly, true) == From(str, at, values, checkOnly, modified)
    ensures !(closed && known) ==>
              text == str && From(str, at, values, checkOnly, modified) == Expansion(str, modified, known)
  {
    hide Expand, From, Replace, Find;
    text, idx, closed, known := str, at + 2, true, true;
    Stops(text, at, values, checkOnly, modified);
    var end := Find(text, '}', idx);
    if end.None? {
      closed := false;
      return;
    }
    var id := text[idx..end.value];
    if id !in values {
      known := false;
      return;
    }
    if checkOnly {
      ChecksReference(text, at, end.value, values, modified);
    } else {
      ReplacesReference(text, at, end.value, values, modified);
      text := Replace(text, idx - 2, end.value + 1, values[id]);
      idx := idx - 2 + |values[id]|;
    }
  }

  method ParseVarString(str: string, values: map<string, string>, checkOnly: bool)
    returns (text: string, modified: bool, known: bool)
    ensures var e := Expand(str, values, checkOnly);
            text == e.text && known == e.known && (known ==> modified == e.modified)
  {
    hide Expand, From, Replace, Find;
    text, modified, known := str, false, true;
    var idx: nat := 0;
    ghost var e := Expand(str, values, checkOnly);
    Starts(str, values, checkOnly);
    while true
      invariant idx <= |text| && known
      invariant From(text, idx, values, checkOnly, modified) == e
      decreases |text| - idx
    {
      var found := Find(text, '$', idx);
      ghost var at := if found.Some? then found.value else |text|;
      SkipsPlain(text, idx, at, values, checkOnly, modified);
      if found.None? || |text| <= found.value + 1 {
        Stops(text, at, values, checkOnly, modified);
        return;
      }
      idx := found.value + 1;
      var c := text[idx];
      if c == '{' {
        var closed;
        text, idx, closed, known := ParseReference(text, found.value, values, checkOnly, modified);
        if !closed || !known {
          return;
        }
        modified := true;
      } else if c == '$' {
        DropsSecond(text, at, values, checkOnly, modified);
        text := Replace(text, idx, idx + 1, "");
        modified := true;
      } else {
        KeepsDollar(text, at, values, checkOnly, modified);
      }
    }
  }
}
