/** Parsing what an element streams out gives the same tree back. */
module XmlTreeProof {
  import opened Options
  import opened XmlText
  import opened XmlTextProof
  import opened XmlTree

  // ----------------------------------------------------------- proper trees

  predicate ProperName(name: string) {
    name != "" && IsNameStart(name[0]) && IsText(name) && forall c | c in name :: IsNameChar(c)
  }

  predicate ProperValue(s: string) {
    IsText(s) && NoHexReference(s)
  }

  predicate ProperAttributes(attributes: seq<Attribute>) {
    && (forall i | 0 <= i < |attributes| :: ProperName(attributes[i].name) && ProperValue(attributes[i].value))
    && (forall i, j | 0 <= i < j < |attributes| :: attributes[i].name != attributes[j].name)
  }

  /** A CDATA section is written as it is: its end mark and the end of a C string
      must not occur in it. */
  predicate ProperCData(s: string) {
    IsText(s) && '\0' !in s && forall i | 0 <= i < |s| :: !StringEqual(s[i..], CDATA_END)
  }

  predicate IsPlainText(node: Node) {
    node.Text? && !node.cdata
  }

  /** Texts are not blank, two texts never stand side by side, and CDATA does not
      contain its own end. */
  predicate ProperNode(node: Node)
    decreases node, 1
  {
    match node
    case Text(value, cdata) => if cdata then ProperCData(value) else ProperValue(value) && !Blank(value)
    case Element(name, attributes, children) =>
      ProperName(name) && ProperAttributes(attributes) && ProperChildren(children)
  }

  predicate ProperChildren(children: seq<Node>)
    decreases children, 0
  {
    children == [] ||
    (&& ProperNode(children[0])
     && ProperChildren(children[1..])
     && (|children| > 1 && IsPlainText(children[0]) ==> !IsPlainText(children[1])))
  }

  // ------------------------------------------------------------------ names

  lemma {:induction false} NameEndsAt(p: string, k: nat, n: nat)
    requires k <= n <= |p| && forall i | k <= i < n :: IsNameChar(p[i])
    requires n < |p| ==> !IsNameChar(p[n])
    ensures NameEnd(p, k) == n
    decreases n - k
  {
    if k < n {
      NameEndsAt(p, k + 1, n);
    }
  }

  lemma ReadProperName(name: string, rest: string)
    requires ProperName(name) && rest != "" && !IsNameChar(rest[0])
    ensures ReadName(name + rest) == Some((name, rest))
  {
    var p := name + rest;
    assert p[|name|] == rest[0];
    assert forall i | 0 <= i < |name| :: p[i] == name[i];
    NameEndsAt(p, 1, |name|);
  }

  lemma NameCharIsPlain(c: char)
    requires IsNameChar(c)
    ensures c != '&' && EscapeChar(c) == [c]
  {
  }

  lemma {:induction false} EscapeName(name: string)
    requires forall c | c in name :: IsNameChar(c)
    ensures Escape(name) == name
  {
    if name != "" {
      assert name[0] in name;
      assert forall c | c in name[1..] :: c in name;
      EscapeName(name[1..]);
      NameCharIsPlain(name[0]);
      assert !StartsHexReference(name);
      hide StartsHexReference, EscapeChar, IsNameChar;
      assert name == [name[0]] + name[1..];
    }
  }

  lemma SkipNothing(p: string)
    requires p != "" && !IsSpace(p[0])
    ensures Skip(p) == Some(p)
  {
  }

  lemma SkipOneSpace(p: string)
    requires |p| > 1 && p[0] == ' ' && !IsSpace(p[1])
    ensures Skip(p) == Some(p[1..])
  {
    assert DropSpace(p) == DropSpace(p[1..]);
  }

  // ------------------------------------------------------------- attributes

  lemma ParseAttributeOut(a: Attribute, rest: string)
    requires ProperName(a.name) && ProperValue(a.value)
    ensures ParseAttribute(AttributeOut(a) + rest) == Some((a, rest))
  {
    hide Skip, ReadName, ReadText, Escape, ProperName, ProperValue;
    var quote := if '\"' in a.value then "'" else "\"";
    var p := AttributeOut(a) + rest;
    NameFacts(a.name);
    EscapeName(a.name);
    var p2 := "=" + quote + Escape(a.value) + quote + rest;
    assert p == a.name + p2;
    SkipNothing(p);
    ReadProperName(a.name, p2);
    SkipNothing(p2);
    var p4 := quote + Escape(a.value) + quote + rest;
    assert p2[1..] == p4;
    SkipNothing(p4);
    assert p4[1..] == Escape(a.value) + quote + rest;
    ValueFacts(a.value);
    EscapeThenRead(a.value, quote, rest);
  }

  lemma NameFacts(name: string)
    requires ProperName(name)
    ensures name != "" && IsNameStart(name[0]) && !IsSpace(name[0]) && name[0] != '/' && name[0] != '>'
    ensures forall c | c in name :: IsNameChar(c)
  {
  }

  lemma ValueFacts(value: string)
    requires ProperValue(value)
    ensures IsText(value) && NoHexReference(value)
  {
  }

  /** The attributes of an element read back, before whatever ends its tag. */
  lemma {:induction false} ParseAttributesOut(name: string, before: seq<Attribute>, attributes: seq<Attribute>,
                                              rest: string)
    requires ProperAttributes(before + attributes) && rest != ""
    ensures ParseAttributes(AttributesOut(attributes) + rest, name, before)
            == ParseAttributes(rest, name, before + attributes)
    decreases attributes
  {
    hide Skip, ParseAttribute, AttributeOut, ProperName, ProperValue, ReadValue;
    if attributes == [] {
      assert AttributesOut(attributes) + rest == rest && before + attributes == before;
    } else {
      var a := attributes[0];
      var more := AttributesOut(attributes[1..]) + rest;
      var p := AttributesOut(attributes) + rest;
      assert p == " " + (AttributeOut(a) + more);
      assert (before + attributes)[|before|] == a;
      AttributeStart(a);
      SkipOneSpace(p);
      assert p[1..] == AttributeOut(a) + more;
      ParseAttributeOut(a, more);
      NotRepeated(before, attributes);
      assert before + [a] + attributes[1..] == before + attributes;
      ParseAttributesOut(name, before + [a], attributes[1..], rest);
    }
  }

  lemma AttributeStart(a: Attribute)
    requires ProperName(a.name)
    ensures var p := AttributeOut(a); p != "" && !IsSpace(p[0]) && p[0] != '/' && p[0] != '>'
  {
    EscapeName(a.name);
  }

  lemma NotRepeated(before: seq<Attribute>, attributes: seq<Attribute>)
    requires ProperAttributes(before + attributes) && attributes != []
    ensures !HasAttribute(before, attributes[0].name)
  {
    var all := before + attributes;
    assert all[|before|] == attributes[0];
    assert forall i | 0 <= i < |before| :: all[i] == before[i];
  }

  // -------------------------------------------------------------------- texts

  lemma {:induction false} ReadCDataOut(value: string, rest: string)
    requires forall i | 0 <= i < |value| :: !StringEqual(value[i..], CDATA_END)
    ensures ReadCData(value + CDATA_END + rest) == (value, CDATA_END + rest)
  {
    var p := value + CDATA_END + rest;
    if value == "" {
      assert p == CDATA_END + rest;
    } else {
      assert !StringEqual(value[0..], CDATA_END) && value[0..] == value;
      assert !StringEqual(p, CDATA_END) by {
        if |value| >= 3 {
          assert p[..3] == value[..3];
        } else {
          OtherTag(p, CDATA_END, 2);
        }
      }
      forall i | 0 <= i < |value[1..]|
        ensures !StringEqual(value[1..][i..], CDATA_END)
      {
        assert value[1..][i..] == value[i + 1..];
      }
      ReadCDataOut(value[1..], rest);
      assert p[1..] == value[1..] + CDATA_END + rest;
      assert [p[0]] + value[1..] == value;
    }
  }

  lemma ParseCDataOut(value: string, rest: string)
    requires ProperCData(value)
    ensures var p := StreamOut(Text(value, true)) + rest;
            p != "" && p[0] == '<' && Identify(p) == IsCData && ParseText(p) == Some((Text(value, true), rest))
  {
    hide ReadCData;
    var p := StreamOut(Text(value, true)) + rest;
    assert p == CDATA + (value + CDATA_END + rest);
    PrefixOf(CDATA, value + CDATA_END + rest);
    ReadCDataOut(value, rest);
    PrefixOf(CDATA_END, rest);
  }

  lemma EscapeStart(c: char)
    ensures var e := EscapeChar(c); e != "" && e[0] != '<' && (IsSpace(e[0]) <==> c == ' ') && (c == ' ' ==> e == " ")
  {
  }

  /** A text that is not blank starts, after white space, with something else than
      a tag. */
  lemma {:induction false} TextStarts(value: string, rest: string)
    requires NoHexReference(value) && !Blank(value)
    ensures var p := DropSpace(Escape(value) + rest); p != "" && p[0] != '<'
    ensures Escape(value) != "" && Escape(value)[0] != '<'
  {
    hide EscapeChar, StartsHexReference;
    assert value != "" && value[0..] == value && !StartsHexReference(value[0..]);
    EscapeStart(value[0]);
    var p := Escape(value) + rest;
    assert p == EscapeChar(value[0]) + (Escape(value[1..]) + rest);
    if value[0] == ' ' {
      forall i | 0 <= i < |value[1..]|
        ensures !StartsHexReference(value[1..][i..])
      {
        assert value[1..][i..] == value[i + 1..];
      }
      TextStarts(value[1..], rest);
      assert p[1..] == Escape(value[1..]) + rest;
    }
  }

  lemma ParseTextOut(value: string, rest: string)
    requires ProperValue(value) && !Blank(value) && rest != "" && rest[0] == '<'
    ensures var p := Escape(value) + rest;
            && p != "" && p[0] != '<'
            && Skip(p).Some? && Skip(p).value[0] != '<'
            && ParseText(p) == Some((Text(value, false), rest))
  {
    hide Escape, ReadText, NoHexReference;
    var p := Escape(value) + rest;
    TextStarts(value, rest);
    OtherTag(p, CDATA, 0);
    EscapeThenRead(value, "<", rest[1..]);
    assert p == Escape(value) + "<" + rest[1..];
    assert "<" + rest[1..] == rest;
  }

  // -------------------------------------------------------------------- trees

  /** What may follow the children of an element. */
  predicate ClosesTag(rest: string) {
    |rest| > 2 && rest[0] == '<' && rest[1] == '/'
  }

  lemma ChildStarts(children: seq<Node>, rest: string)
    requires ProperChildren(children) && ClosesTag(rest)
    requires children == [] || !IsPlainText(children[0])
    ensures var p := ChildrenOut(children) + rest; p != "" && p[0] == '<'
  {
  }

  /** Adjacent texts excepted, the children of an element read back. */
  lemma {:induction false} ReadChildrenOut(before: seq<Node>, children: seq<Node>, rest: string)
    requires ProperChildren(children) && ClosesTag(rest)
    ensures ReadValue(ChildrenOut(children) + rest, before) == Some((before + children, rest))
    decreases children, 0
  {
    hide Escape, ReadText, ParseElement, ParseText, DropSpace;
    hide ProperValue, ProperCData, ProperName, ProperAttributes, ClosesTag;
    var p := ChildrenOut(children) + rest;
    if children == [] {
      assert p == rest && before + children == before;
      EndTagStops(rest, before);
    } else {
      var child, more := children[0], ChildrenOut(children[1..]) + rest;
      assert p == StreamOut(child) + more;
      assert before + [child] + children[1..] == before + children;
      if IsPlainText(child) {
        ChildStarts(children[1..], rest);
        ParseTextOut(child.value, more);
      } else {
        ParseNodeOut(child, more);
        NodeGoesOn(p, child, more, before);
      }
      ReadChildrenOut(before + [child], children[1..], rest);
    }
  }

  lemma EndTagStops(rest: string, before: seq<Node>)
    requires ClosesTag(rest)
    ensures ReadValue(rest, before) == Some((before, rest))
  {
    SkipNothing(rest);
    assert rest[..2] == "</";
  }

  lemma NodeGoesOn(p: string, child: Node, more: string, before: seq<Node>)
    requires |p| > 1 && p[0] == '<' && p[1] != '/' && ParseNode(p) == Some((child, more))
    ensures ReadValue(p, before) == ReadValue(more, before + [child])
  {
    SkipNothing(p);
    OtherTag(p, "</", 1);
  }

  /** An element or a CDATA section reads back. */
  lemma ParseNodeOut(node: Node, rest: string)
    requires ProperNode(node) && !IsPlainText(node)
    ensures var p := StreamOut(node) + rest;
            |p| > 1 && p[0] == '<' && p[1] != '/' && ParseNode(p) == Some((node, rest))
    decreases node, 1
  {
    hide ParseText, ParseElement;
    match node
    case Text(value, _) => ParseCDataOut(value, rest);
    case Element(name, _, _) =>
      ParseElementOut(node, rest);
      var p := StreamOut(node) + rest;
      assert p[1] == name[0] && IsNameStart(name[0]);
      OtherTag(p, CDATA, 1);
  }

  /** What follows the attributes of an element. */
  function Tail(name: string, children: seq<Node>, rest: string): string {
    if children == [] then " />" + rest else ">" + (ChildrenOut(children) + ("</" + name + ">" + rest))
  }

  lemma ElementShape(name: string, attributes: seq<Attribute>, children: seq<Node>, rest: string)
    ensures StreamOut(Element(name, attributes, children)) + rest
            == "<" + (name + (AttributesOut(attributes) + Tail(name, children, rest)))
  {
    hide ChildrenOut, AttributesOut;
    var attrs := AttributesOut(attributes);
    if children == [] {
      Regroup("<", name, attrs, " />", rest);
    } else {
      var body := ChildrenOut(children);
      var content := ">" + body + "</" + name + ">";
      Regroup(">", body, "</", name, ">");
      Regroup("<", name, attrs, content, rest);
      Regroup(">", body, "</" + name + ">", "", rest);
      assert ">" + body + ("</" + name + ">") + "" + rest == content + rest;
      assert "" + rest == rest;
    }
  }

  lemma Regroup(a: string, b: string, c: string, d: string, e: string)
    ensures a + b + c + d + e == a + (b + (c + (d + e)))
  {
  }

  lemma ElementStarts(name: string, inner: string)
    requires ProperName(name) && inner != "" && !IsNameChar(inner[0])
    ensures ParseElement("<" + (name + inner)) == ParseAttributes(inner, name, [])
  {
    hide Skip, ReadName, ParseAttributes, ProperName;
    NameFacts(name);
    var p := "<" + (name + inner);
    SkipNothing(p);
    assert p[1..] == name + inner;
    SkipNothing(name + inner);
    ReadProperName(name, inner);
  }

  /** Parsing what an element streams out gives the element back and stops just
      past it. */
  lemma ParseElementOut(node: Node, rest: string)
    requires node.Element? && ProperNode(node)
    ensures ParseElement(StreamOut(node) + rest) == Some((node, rest))
    decreases node, 0
  {
    hide ParseElement, ParseAttributes, ReadValue, ProperName, ProperAttributes, StreamOut, AttributesOut;
    var Element(name, attributes, children) := node;
    var tail := Tail(name, children, rest);
    ElementShape(name, attributes, children, rest);
    TagStart(attributes, tail);
    ElementStarts(name, AttributesOut(attributes) + tail);
    assert [] + attributes == attributes;
    ParseAttributesOut(name, [], attributes, tail);
    if children == [] {
      EmptyTag(name, attributes, rest);
    } else {
      assert [] + children == children;
      ReadChildrenOut([], children, "</" + name + ">" + rest);
      ContentTag(name, attributes, children, rest);
    }
  }

  lemma TagStart(attributes: seq<Attribute>, tail: string)
    requires tail != "" && (tail[0] == ' ' || tail[0] == '>')
    ensures var inner := AttributesOut(attributes) + tail; inner != "" && !IsNameChar(inner[0])
  {
  }

  lemma EmptyTag(name: string, attributes: seq<Attribute>, rest: string)
    ensures ParseAttributes(" />" + rest, name, attributes) == Some((Element(name, attributes, []), rest))
  {
    var p := " />" + rest;
    SkipOneSpace(p);
    assert p[1..][2..] == rest;
  }

  lemma ContentTag(name: string, attributes: seq<Attribute>, children: seq<Node>, rest: string)
    requires var closing := "</" + name + ">";
             ReadValue(ChildrenOut(children) + (closing + rest), []) == Some((children, closing + rest))
    ensures var closing := "</" + name + ">";
            ParseAttributes(">" + (ChildrenOut(children) + (closing + rest)), name, attributes)
            == Some((Element(name, attributes, children), rest))
  {
    hide ReadValue, ChildrenOut;
    var closing := "</" + name + ">";
    var p := ">" + (ChildrenOut(children) + (closing + rest));
    SkipNothing(p);
    assert p[1..] == ChildrenOut(children) + (closing + rest);
    PrefixOf(closing, rest);
  }
}
