/** The writer and the parser as they run: loops over a cursor into the text that
    append to strings and collect nodes. A cursor that leaves the text or becomes
    a null pointer is `None`. */
module XmlStreams {
  import opened Options
  import N = XmlTree
  import opened XmlText
  import opened XmlTree

  // ------------------------------------------------------------- the writer

  method PutString(str: string) returns (out: string)
    ensures out == Escape(str)
  {
    hide PassLength, EscapeChar;
    out := "";
    var i := 0;
    while i < |str|
      invariant 0 <= i <= |str|
      invariant out + Escape(str[i..]) == Escape(str)
    {
      ghost var before, start := out, i;
      var c := str[i];
      assert str[i..][0] == c && str[i..][1..] == str[i + 1..];
      if c == '&' && i < |str| - 2 && str[i + 1] == '#' && str[i + 2] == 'x' {
        // What looks like a hexadecimal reference is not escaped.
        assert StartsHexReference(str[start..]);
        out, i := PassReference(str, i, out);
        assert str[start..][i - start..] == str[i..];
      } else {
        out := out + EscapeChar(c);
        i := i + 1;
      }
    }
  }

  /** Copies up to the semicolon of the reference, or all but the last character. */
  method PassReference(str: string, start: nat, before: string) returns (out: string, i: nat)
    requires start + 2 < |str|
    ensures start < i <= |str| && i - start == PassLength(str[start..], 1)
    ensures out == before + str[start..][..i - start]
  {
    out, i := before, start;
    var s := str[start..];
    while i < |str| - 1
      invariant start <= i < |str| && out == before + s[..i - start]
      invariant i > start ==> str[i] != ';' && PassLength(s, 1) == PassLength(s, i - start)
    {
      out := out + [str[i]];
      i := i + 1;
      assert s[..i - start] == s[..i - 1 - start] + [str[i - 1]];
      if str[i] == ';' {
        break;
      }
    }
  }

  method WriteAttribute(a: Attribute) returns (out: string)
    ensures out == AttributeOut(a)
  {
    hide Escape;
    var quote := if '\"' in a.value then "'" else "\"";
    var name := PutString(a.name);
    var value := PutString(a.value);
    out := name + "=" + quote + value + quote;
  }

  method WriteNode(node: Node) returns (out: string)
    ensures out == StreamOut(node)
    decreases node
  {
    hide AttributeOut, Escape;
    match node {
      case Text(value, cdata) =>
        if cdata {
          out := "<![CDATA[" + value + "]]>";
        } else {
          out := PutString(value);
        }
      case Element(name, attributes, children) =>
        out := "<" + name;
        var i := 0;
        while i < |attributes|
          invariant 0 <= i <= |attributes|
          invariant out + AttributesOut(attributes[i..]) == "<" + name + AttributesOut(attributes)
        {
          assert attributes[i..][1..] == attributes[i + 1..];
          var a := WriteAttribute(attributes[i]);
          ghost var more := AttributesOut(attributes[i + 1..]);
          assert out + (" " + a + more) == out + " " + a + more;
          out := out + " " + a;
          i := i + 1;
        }
        assert out == "<" + name + AttributesOut(attributes);
        if children == [] {
          out := out + " />";
        } else {
          ghost var tag := out;
          var content := WriteChildren(children);
          out := out + ">" + content + "</" + name + ">";
          assert out == tag + (">" + content + "</" + name + ">");
        }
    }
  }

  method WriteChildren(children: seq<Node>) returns (out: string)
    ensures out == ChildrenOut(children)
    decreases children
  {
    out := "";
    var i := 0;
    while i < |children|
      invariant 0 <= i <= |children|
      invariant out + ChildrenOut(children[i..]) == ChildrenOut(children)
    {
      assert children[i..][1..] == children[i + 1..];
      var child := WriteNode(children[i]);
      assert out + (child + ChildrenOut(children[i + 1..])) == out + child + ChildrenOut(children[i + 1..]);
      out := out + child;
      i := i + 1;
    }
  }

  // ------------------------------------------------------------- the reader

  method EqualsTag(text: string, p: nat, tag: string) returns (equal: bool)
    requires p <= |text|
    ensures equal == StringEqual(text[p..], tag)
  {
    var q, t := p, 0;
    while q < |text| && t < |tag| && text[q] == tag[t]
      invariant p <= q <= |text| && t == q - p && t <= |tag|
      invariant forall i | 0 <= i < t :: text[p + i] == tag[i]
    {
      q, t := q + 1, t + 1;
    }
    equal := t == |tag|;
    if equal {
      assert text[p..][..t] == tag;
    } else if |tag| <= |text| - p {
      assert text[p..][..|tag|][t] == text[q];
    }
  }

  /** The cursor after white space; none when the text ends. */
  method SkipWhiteSpace(text: string, start: nat) returns (p: Option<nat>)
    requires start <= |text|
    ensures p.Some? ==> start <= p.value < |text|
    ensures Skip(text[start..]) == if p.Some? then Some(text[p.value..]) else None
  {
    var q := start;
    while q < |text| && IsSpace(text[q])
      invariant start <= q <= |text|
      invariant DropSpace(text[start..]) == DropSpace(text[q..])
    {
      assert text[q..][1..] == text[q + 1..];
      q := q + 1;
    }
    p := if q < |text| then Some(q) else None;
  }

  method ReadNameAt(text: string, start: nat) returns (p: Option<nat>, name: string)
    requires start <= |text|
    ensures p.Some? ==> start < p.value <= |text|
    ensures N.ReadName(text[start..]) == if p.Some? then Some((name, text[p.value..])) else None
  {
    name := "";
    if start < |text| && IsNameStart(text[start]) {
      ghost var s := text[start..];
      var q := start;
      while q < |text| && IsNameChar(text[q])
        invariant start <= q <= |text| && name == s[..q - start]
        invariant q > start ==> NameEnd(s, 1) == NameEnd(s, q - start)
      {
        assert s[..q + 1 - start] == s[..q - start] + [text[q]];
        name := name + [text[q]];
        q := q + 1;
      }
      p := Some(q);
      assert text[q..] == s[q - start..];
    } else {
      p := None;
    }
  }

  /** The digits of a reference, summed from the semicolon back to the mark. */
  method SumDigits(text: string, p: nat, last: nat, mark: char, base: nat) returns (ucs: Option<nat>)
    requires p <= last < |text| && exists i | 0 <= i <= last - p :: text[p..][i] == mark
    ensures ucs == Digits(text[p..], last - p, mark, base, 0, 1)
  {
    hide HexValue, DecValue;
    ghost var s := text[p..];
    var q, sum: nat, mult: nat := last, 0, 1;
    while text[q] != mark
      invariant p <= q <= last && exists i | 0 <= i <= q - p :: s[i] == mark
      invariant Digits(s, q - p, mark, base, sum, mult) == Digits(s, last - p, mark, base, 0, 1)
      decreases q
    {
      assert text[q] == s[q - p];
      var digit := if base == 16 then HexValue(text[q]) else DecValue(text[q]);
      match digit {
        case None => return None;
        case Some(d) =>
          sum := (sum + mult * d % 0x1_0000_0000) % 0x1_0000_0000_0000_0000;
          mult := mult * base % 0x1_0000_0000;
      }
      q := q - 1;
    }
    assert text[q] == s[q - p];
    ucs := Some(sum);
  }

  method FindSemicolon(text: string, p: nat, first: nat) returns (q: nat)
    requires p + first <= |text|
    ensures p + first <= q <= |text| && q - p == Semicolon(text[p..], first)
  {
    q := p + first;
    while q < |text| && text[q] != ';'
      invariant p + first <= q <= |text|
      invariant Semicolon(text[p..], first) == Semicolon(text[p..], q - p)
    {
      q := q + 1;
    }
  }

  const ENTITIES := [(AMP, '&'), (LT, '<'), (GT, '>'), (QUOT, '\"'), (APOS, '\'')]

  /** A string that does not begin a numeric reference. */
  predicate IsNamed(s: string) {
    s != "" && s[0] == '&' && !(|s| > 2 && s[1] == '#')
  }

  lemma NamedEntity(s: string, i: nat)
    requires IsNamed(s) && i < |ENTITIES| && StringEqual(s, ENTITIES[i].0)
    requires forall k | 0 <= k < i :: !StringEqual(s, ENTITIES[k].0)
    ensures GetEntity(s) == Some(([ENTITIES[i].1], s[|ENTITIES[i].0|..]))
  {
    hide StringEqual;
    assert forall k | 0 <= k < i :: ENTITIES[k].0 == [AMP, LT, GT, QUOT, APOS][k];
    if i > 0 { assert !StringEqual(s, ENTITIES[0].0); }
    if i > 1 { assert !StringEqual(s, ENTITIES[1].0); }
    if i > 2 { assert !StringEqual(s, ENTITIES[2].0); }
    if i > 3 { assert !StringEqual(s, ENTITIES[3].0); }
  }

  lemma NoEntity(s: string)
    requires IsNamed(s) && forall k | 0 <= k < |ENTITIES| :: !StringEqual(s, ENTITIES[k].0)
    ensures GetEntity(s) == Some(("", s[1..]))
  {
    hide StringEqual;
    assert !StringEqual(s, ENTITIES[0].0) && !StringEqual(s, ENTITIES[1].0) && !StringEqual(s, ENTITIES[2].0);
    assert !StringEqual(s, ENTITIES[3].0) && !StringEqual(s, ENTITIES[4].0);
  }

  method ReadEntity(text: string, p: nat) returns (q: Option<nat>, value: string)
    requires p < |text| && text[p] == '&'
    ensures q.Some? ==> p < q.value <= |text|
    ensures GetEntity(text[p..]) == if q.Some? then Some((value, text[q.value..])) else None
  {
    ghost var s := text[p..];
    if p + 2 < |text| && text[p + 1] == '#' {
      q, value := ReadNumeric(text, p);
      return;
    }
    assert IsNamed(s);
    hide GetEntity, StringEqual, IsNamed;
    var i := 0;
    while i < |ENTITIES|
      invariant 0 <= i <= |ENTITIES|
      invariant forall k | 0 <= k < i :: !StringEqual(s, ENTITIES[k].0)
    {
      var equal := EqualsTag(text, p, ENTITIES[i].0);
      if equal {
        NamedEntity(s, i);
        Fits(s, ENTITIES[i].0);
        return Some(p + |ENTITIES[i].0|), [ENTITIES[i].1];
      }
      i := i + 1;
    }
    NoEntity(s);
    return Some(p + 1), "";
  }

  lemma Fits(s: string, tag: string)
    requires StringEqual(s, tag)
    ensures |tag| <= |s|
  {
  }

  /** A character by its number. */
  method ReadNumeric(text: string, p: nat) returns (q: Option<nat>, value: string)
    requires p + 2 < |text| && text[p] == '&' && text[p + 1] == '#'
    ensures q.Some? ==> p < q.value <= |text|
    ensures GetEntity(text[p..]) == if q.Some? then Some((value, text[q.value..])) else None
  {
    hide Digits, Semicolon;
    ghost var s := text[p..];
    value := "";
    var hex := text[p + 2] == 'x';
    var first := if hex then 3 else 2;
    assert s[1] == '#' && s[2] == text[p + 2];
    if hex && p + 3 == |text| {
      return None, value;
    }
    var semicolon := FindSemicolon(text, p, first);
    if semicolon == |text| {
      return None, value;
    }
    assert s[if hex then 2 else 1] == if hex then 'x' else '#';
    var ucs := SumDigits(text, p, semicolon - 1, if hex then 'x' else '#', if hex then 16 else 10);
    match ucs {
      case None => return None, value;
      case Some(u) =>
        assert s[semicolon - p + 1..] == text[semicolon + 1..];
        return Some(semicolon + 1), [(u % 256) as char];
    }
  }

  method ReadChar(text: string, p: nat) returns (q: Option<nat>, value: string)
    requires p < |text|
    ensures q.Some? ==> p < q.value <= |text|
    ensures GetChar(text[p..]) == if q.Some? then Some((value, text[q.value..])) else None
  {
    if text[p] == '&' {
      q, value := ReadEntity(text, p);
    } else {
      q, value := Some(p + 1), [text[p]];
    }
  }

  /** A value read so far, in front of what is still to be read. */
  function Prepend(value: string, r: Option<(string, string)>): Option<(string, string)> {
    match r
    case None => None
    case Some((text, rest)) => Some((value + text, rest))
  }

  method ReadTextAt(text: string, start: nat, endTag: string) returns (q: Option<nat>, value: string)
    requires start <= |text| && endTag != ""
    ensures q.Some? ==> start < q.value <= |text|
    ensures ReadText(text[start..], endTag) == if q.Some? then Some((value, text[q.value..])) else None
  {
    hide GetChar;
    value := "";
    var p := start;
    PrependNothing(ReadText(text[p..], endTag));
    while true
      invariant start <= p <= |text|
      invariant ReadText(text[start..], endTag) == Prepend(value, ReadText(text[p..], endTag))
      decreases |text| - p
    {
      if p == |text| {
        return None, value;
      }
      var stop := EqualsTag(text, p, endTag);
      if stop {
        assert text[p..][|endTag|..] == text[p + |endTag|..];
        assert value + "" == value;
        return Some(p + |endTag|), value;
      }
      var next, c := ReadChar(text, p);
      if next.None? {
        return None, value;
      }
      PrependTwice(value, c, ReadText(text[next.value..], endTag));
      value := value + c;
      p := next.value;
    }
  }

  lemma PrependNothing(r: Option<(string, string)>)
    ensures Prepend("", r) == r
  {
    if r.Some? {
      assert "" + r.value.0 == r.value.0;
    }
  }

  lemma PrependTwice(a: string, b: string, r: Option<(string, string)>)
    ensures Prepend(a, Prepend(b, r)) == Prepend(a + b, r)
  {
    if r.Some? {
      assert a + (b + r.value.0) == a + b + r.value.0;
    }
  }

  method ReadUnquotedAt(text: string, start: nat) returns (q: Option<nat>, value: string)
    requires start <= |text|
    ensures q.Some? ==> start <= q.value <= |text|
    ensures ReadUnquoted(text[start..]) == if q.Some? then Some((value, text[q.value..])) else None
  {
    hide EndsUnquoted;
    value := "";
    var p := start;
    PrependNothing(ReadUnquoted(text[p..]));
    while p < |text| && !EndsUnquoted(text[p])
      invariant start <= p <= |text|
      invariant ReadUnquoted(text[start..]) == Prepend(value, ReadUnquoted(text[p..]))
    {
      if text[p] == '\'' || text[p] == '\"' {
        return None, value;
      }
      assert text[p..][1..] == text[p + 1..];
      PrependTwice(value, [text[p]], ReadUnquoted(text[p + 1..]));
      value := value + [text[p]];
      p := p + 1;
    }
    assert value + "" == value;
    q := Some(p);
  }

  /** A parse of the text from `start`: what it read, and where it stopped. */
  ghost predicate Parsed<R>(text: string, start: nat, q: Option<nat>, value: R, r: Option<(R, string)>)
  {
    if q.Some? then start < q.value <= |text| && r == Some((value, text[q.value..])) else r == None
  }

  method ParseAttributeAt(text: string, start: nat) returns (q: Option<nat>, a: Attribute)
    requires start <= |text|
    ensures Parsed(text, start, q, a, ParseAttribute(text[start..]))
  {
    hide Skip, N.ReadName, ReadText, ReadUnquoted;
    a := Attribute("", "");
    q := SkipWhiteSpace(text, start);
    if q.None? { return; }
    var name;
    q, name := ReadNameAt(text, q.value);
    if q.None? { return; }
    q := SkipWhiteSpace(text, q.value);
    if q.None? { return; }
    if text[q.value] != '=' {
      return None, a;
    }
    assert text[q.value..][1..] == text[q.value + 1..];
    q := SkipWhiteSpace(text, q.value + 1);
    if q.None? { return; }
    var value;
    if text[q.value] == '\'' {
      assert text[q.value..][1..] == text[q.value + 1..];
      q, value := ReadTextAt(text, q.value + 1, "'");
    } else if text[q.value] == '\"' {
      assert text[q.value..][1..] == text[q.value + 1..];
      q, value := ReadTextAt(text, q.value + 1, "\"");
    } else {
      q, value := ReadUnquotedAt(text, q.value);
    }
    a := Attribute(name, value);
  }

  /** Keeps all the white space, up to the end mark or the end of the text. */
  method ReadCDataAt(text: string, start: nat) returns (p: nat, value: string)
    requires start <= |text|
    ensures start <= p <= |text| && ReadCData(text[start..]) == (value, text[p..])
  {
    value := "";
    p := start;
    assert "" + ReadCData(text[p..]).0 == ReadCData(text[p..]).0;
    while p < |text|
      invariant start <= p <= |text|
      invariant ReadCData(text[start..]) == (value + ReadCData(text[p..]).0, ReadCData(text[p..]).1)
    {
      var stop := EqualsTag(text, p, CDATA_END);
      if stop {
        break;
      }
      assert text[p..][1..] == text[p + 1..];
      assert value + ([text[p]] + ReadCData(text[p + 1..]).0) == value + [text[p]] + ReadCData(text[p + 1..]).0;
      value := value + [text[p]];
      p := p + 1;
    }
    assert value + "" == value;
  }

  method ParseTextAt(text: string, start: nat) returns (q: Option<nat>, node: Node)
    requires start < |text| && (text[start] != '<' || StringEqual(text[start..], CDATA))
    ensures node.Text? && Parsed(text, start, q, node, ParseText(text[start..]))
  {
    hide ReadText, ReadCData;
    node := Text("", false);
    var value;
    var cdata := EqualsTag(text, start, CDATA);
    if cdata {
      assert text[start..][|CDATA|..] == text[start + |CDATA|..];
      var p;
      p, value := ReadCDataAt(text, start + |CDATA|);
      var dummy;
      q, dummy := ReadTextAt(text, p, CDATA_END);
      node := Text(value, true);
    } else {
      q, value := ReadTextAt(text, start, "<");
      node := Text(value, false);
      if q.Some? {
        // The '<' that ends the text begins the next node.
        ReadTextStops(text, start, q.value, value);
        q := Some(q.value - 1);
      }
    }
  }

  lemma ReadTextStops(text: string, start: nat, q: nat, value: string)
    requires start <= |text| && 0 < q <= |text|
    requires ReadText(text[start..], "<") == Some((value, text[q..]))
    ensures text[q - 1] == '<' && "<" + text[q..] == text[q - 1..]
    ensures text[start..] != "" && text[start] != '<' ==> start < q - 1
  {
    ReadTextStopsAt(text[start..], value, text[q..]);
  }

  /** Whatever is read before a tag of one character, the tag is the last
      character passed. */
  lemma {:induction false} ReadTextStopsAt(p: string, value: string, rest: string)
    requires ReadText(p, "<") == Some((value, rest))
    ensures |rest| < |p| && p[|p| - |rest| - 1] == '<' && p[|p| - |rest|..] == rest
    ensures p[0] != '<' ==> |rest| + 1 < |p|
    decreases |p|
  {
    if !StringEqual(p, "<") {
      var (c, next) := GetChar(p).value;
      GetCharSuffix(p);
      ReadTextStopsAt(next, ReadText(next, "<").value.0, rest);
      assert next == p[|p| - |next|..];
    }
  }

  lemma GetCharSuffix(p: string)
    requires p != "" && GetChar(p).Some?
    ensures var next := GetChar(p).value.1; |next| < |p| && next == p[|p| - |next|..]
  {
    hide Digits, Semicolon;
  }

  method HasAttributeNamed(attributes: seq<Attribute>, name: string) returns (found: bool)
    ensures found == HasAttribute(attributes, name)
  {
    for i := 0 to |attributes|
      invariant forall k | 0 <= k < i :: attributes[k].name != name
    {
      if attributes[i].name == name {
        return true;
      }
    }
    return false;
  }

  const NO_NODE := Text("", false)

  /** Name, attributes, then the content with its end tag or the end of an empty
      element. */
  method ParseElementAt(text: string, start: nat) returns (q: Option<nat>, node: Node)
    requires start <= |text|
    ensures Parsed(text, start, q, node, ParseElement(text[start..]))
    decreases |text| - start, 2
  {
    hide Skip, N.ReadName, ParseAttributes;
    node := NO_NODE;
    q := SkipWhiteSpace(text, start);
    if q.None? { return; }
    if text[q.value] != '<' {
      return None, node;
    }
    assert text[q.value..][1..] == text[q.value + 1..];
    q := SkipWhiteSpace(text, q.value + 1);
    if q.None? { return; }
    var name;
    q, name := ReadNameAt(text, q.value);
    if q.None? { return; }
    if q.value == |text| {
      return None, node;
    }
    q, node := ParseAttributesAt(text, q.value, name);
  }

  /** The attribute loop of an element. */
  method ParseAttributesAt(text: string, start: nat, name: string) returns (q: Option<nat>, node: Node)
    requires start < |text|
    ensures Parsed(text, start, q, node, ParseAttributes(text[start..], name, []))
    decreases |text| - start, 1
  {
    hide Skip, ParseAttribute, ReadValue;
    node := NO_NODE;
    var attributes := [];
    var p := start;
    while true
      invariant start <= p < |text|
      invariant ParseAttributes(text[start..], name, []) == ParseAttributes(text[p..], name, attributes)
      decreases |text| - p
    {
      q := SkipWhiteSpace(text, p);
      if q.None? { return; }
      var here := q.value;
      ghost var s := text[here..];
      if text[here] == '/' {
        if here + 1 == |text| || text[here + 1] != '>' {
          return None, node;
        }
        assert s[2..] == text[here + 2..];
        return Some(here + 2), Element(name, attributes, []);
      } else if text[here] == '>' {
        assert s[1..] == text[here + 1..];
        var children;
        q, children := ReadValueAt(text, here + 1);
        if q.None? { return; }
        var endTag := "</" + name + ">";
        var closed := EqualsTag(text, q.value, endTag);
        if !closed {
          return None, node;
        }
        assert text[q.value..][|endTag|..] == text[q.value + |endTag|..];
        return Some(q.value + |endTag|), Element(name, attributes, children);
      }
      var a;
      q, a := ParseAttributeAt(text, here);
      if q.None? { return; }
      var repeated := HasAttributeNamed(attributes, a.name);
      if q.value == |text| || repeated {
        return None, node;
      }
      attributes := attributes + [a];
      p := q.value;
    }
  }

  /** Texts and elements in any order, up to an end tag. */
  method ReadValueAt(text: string, start: nat) returns (q: Option<nat>, children: seq<Node>)
    requires start <= |text|
    ensures if q.Some?
            then start <= q.value <= |text| && ReadValue(text[start..], []) == Some((children, text[q.value..]))
            else ReadValue(text[start..], []) == None
    decreases |text| - start, 4
  {
    hide Skip, ParseText, ParseNode;
    children := [];
    var p := start;
    while true
      invariant start <= p <= |text|
      invariant ReadValue(text[start..], []) == ReadValue(text[p..], children)
      decreases |text| - p
    {
      q := SkipWhiteSpace(text, p);
      if q.None? { return; }
      var here := q.value;
      var node;
      if text[here] != '<' {
        // The text begins with the white space just skipped.
        SkipsToText(text[p..], text[here..]);
        q, node := ParseTextAt(text, p);
        if q.None? { return; }
        var blank := IsBlank(node.value);
        if !blank {
          children := children + [node];
        }
      } else {
        var ends := EqualsTag(text, here, "</");
        if ends {
          return;
        }
        q, node := ParseNodeAt(text, here);
        if q.None? { return; }
        children := children + [node];
      }
      p := q.value;
    }
  }

  method IsBlank(s: string) returns (blank: bool)
    ensures blank == Blank(s)
  {
    for i := 0 to |s|
      invariant forall k | 0 <= k < i :: IsSpace(s[k])
    {
      if !IsSpace(s[i]) {
        return false;
      }
    }
    return true;
  }

  method ParseNodeAt(text: string, start: nat) returns (q: Option<nat>, node: Node)
    requires start < |text| && text[start] == '<'
    ensures Parsed(text, start, q, node, ParseNode(text[start..]))
    decreases |text| - start, 3
  {
    hide ParseText, ParseElement, StringEqual;
    node := NO_NODE;
    var cdata := EqualsTag(text, start, CDATA);
    if cdata {
      q, node := ParseTextAt(text, start);
    } else if start + 1 < |text| && IsNameStart(text[start + 1]) {
      q, node := ParseElementAt(text, start);
    } else {
      q := None;
    }
  }
}
