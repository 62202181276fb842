/** Every tree the parser returns can be streamed out and read back, unless one of its
    values has a hexadecimal reference. */
module XmlReparse {
  import opened Options
  import opened XmlText
  import opened XmlTextProof
  import opened XmlTree
  import opened XmlTreeProof

  /** A C string. */
  predicate Raw(p: string) {
    IsText(p) && '\0' !in p
  }

  predicate Formed(node: Node)
    decreases node, 1
  {
    match node
    case Text(value, cdata) => IsText(value) && if cdata then ProperCData(value) else !Blank(value)
    case Element(name, attributes, children) =>
      ProperName(name) && FormedAttributes(attributes) && FormedChildren(children)
  }

  predicate FormedAttributes(attributes: seq<Attribute>) {
    && (forall i | 0 <= i < |attributes| :: ProperName(attributes[i].name) && IsText(attributes[i].value))
    && (forall i, j | 0 <= i < j < |attributes| :: attributes[i].name != attributes[j].name)
  }

  predicate FormedChildren(children: seq<Node>)
    decreases children, 0
  {
    && (forall i | 0 <= i < |children| :: Formed(children[i]))
    && (forall i | 0 < i < |children| :: IsPlainText(children[i - 1]) ==> !IsPlainText(children[i]))
  }

  /** No value that is escaped when streamed out has a hexadecimal reference. */
  predicate Clean(node: Node) {
    match node
    case Text(value, cdata) => cdata || NoHexReference(value)
    case Element(_, attributes, children) =>
      && (forall i | 0 <= i < |attributes| :: NoHexReference(attributes[i].value))
      && (forall i | 0 <= i < |children| :: Clean(children[i]))
  }

  // -------------------------------------------------- what the readers return

  lemma RawSuffix(p: string, k: nat)
    requires Raw(p) && k <= |p|
    ensures Raw(p[k..]) && IsText(p[..k])
  {
  }

  lemma CharIsText(p: string)
    requires p != "" && Raw(p) && GetChar(p).Some?
    ensures IsText(GetChar(p).value.0) && Raw(GetChar(p).value.1)
  {
    hide Digits;
  }

  lemma TextJoined(s: string, t: string)
    requires IsText(s) && IsText(t)
    ensures IsText(s + t)
  {
  }

  lemma {:induction false} ReadTextIsText(p: string, endTag: string)
    requires Raw(p)
    ensures var r := ReadText(p, endTag); r.Some? ==> IsText(r.value.0) && Raw(r.value.1)
    decreases |p|
  {
    if p != "" && StringEqual(p, endTag) {
      RawSuffix(p, |endTag|);
    } else if p != "" && GetChar(p).Some? {
      hide GetChar, Raw, IsText;
      CharIsText(p);
      var (value, rest) := GetChar(p).value;
      ReadTextIsText(rest, endTag);
      if ReadText(rest, endTag).Some? {
        TextJoined(value, ReadText(rest, endTag).value.0);
      }
    }
  }

  lemma {:induction false} ReadUnquotedIsText(p: string)
    requires Raw(p)
    ensures var r := ReadUnquoted(p); r.Some? ==> IsText(r.value.0) && Raw(r.value.1)
    decreases |p|
  {
    if p != "" {
      RawSuffix(p, 1);
      ReadUnquotedIsText(p[1..]);
    }
  }

  lemma {:induction false} DropSpaceIsRaw(p: string)
    requires Raw(p)
    ensures Raw(DropSpace(p))
  {
    if p != "" {
      RawSuffix(p, 1);
      DropSpaceIsRaw(p[1..]);
    }
  }

  lemma SkipIsRaw(p: string)
    requires Raw(p)
    ensures Skip(p).Some? ==> Raw(Skip(p).value)
  {
    DropSpaceIsRaw(p);
  }

  lemma NameIsProper(p: string)
    requires Raw(p)
    ensures var r := ReadName(p); r.Some? ==> ProperName(r.value.0) && Raw(r.value.1)
  {
    if ReadName(p).Some? {
      RawSuffix(p, NameEnd(p, 1));
    }
  }

  lemma ValueIsText(p: string)
    requires Raw(p) && p != ""
    ensures var r := ReadAttributeValue(p); r.Some? ==> IsText(r.value.0) && Raw(r.value.1)
  {
    hide ReadText, ReadUnquoted;
    RawSuffix(p, 1);
    ReadTextIsText(p[1..], "'");
    ReadTextIsText(p[1..], "\"");
    ReadUnquotedIsText(p);
  }

  lemma AttributeIsFormed(p: string)
    requires Raw(p)
    ensures var r := ParseAttribute(p);
            r.Some? ==> ProperName(r.value.0.name) && IsText(r.value.0.value) && Raw(r.value.1)
  {
    hide Skip, ReadName, ReadAttributeValue, Raw, IsText, ProperName;
    if ParseAttribute(p).Some? {
      var p1 := Skip(p).value;
      SkipIsRaw(p);
      NameIsProper(p1);
      var p2 := ReadName(p1).value.1;
      SkipIsRaw(p2);
      var p3 := Skip(p2).value;
      RawSuffix(p3, 1);
      SkipIsRaw(p3[1..]);
      ValueIsText(Skip(p3[1..]).value);
    }
  }

  lemma {:induction false} CDataIsProper(p: string)
    requires Raw(p)
    ensures var (value, rest) := ReadCData(p);
            && ProperCData(value) && Raw(rest) && |value| <= |p| && value == p[..|value|]
            && forall i | 0 <= i < |value| :: !StringEqual(p[i..], CDATA_END)
    decreases |p|
  {
    if p != "" && !StringEqual(p, CDATA_END) {
      RawSuffix(p, 1);
      CDataIsProper(p[1..]);
      var value := ReadCData(p).0;
      CDataLonger(p, ReadCData(p[1..]).0);
    }
  }

  /** One more character in front of the characters of a section. */
  lemma CDataLonger(p: string, tail: string)
    requires Raw(p) && p != "" && !StringEqual(p, CDATA_END)
    requires |tail| < |p| && tail == p[1..][..|tail|]
    requires forall i | 0 <= i < |tail| :: !StringEqual(p[1..][i..], CDATA_END)
    ensures var value := [p[0]] + tail;
            && ProperCData(value) && value == p[..|value|]
            && forall i | 0 <= i < |value| :: !StringEqual(p[i..], CDATA_END)
  {
    var value := [p[0]] + tail;
    forall i | 0 <= i < |value| ensures !StringEqual(p[i..], CDATA_END) {
      assert i > 0 ==> p[1..][i - 1..] == p[i..];
    }
    forall i | 0 <= i < |value| ensures !StringEqual(value[i..], CDATA_END) {
      PrefixEqual(value[i..], p[i..], CDATA_END);
    }
  }

  lemma PrefixEqual(s: string, p: string, tag: string)
    requires s <= p
    ensures StringEqual(s, tag) ==> StringEqual(p, tag)
  {
    assert |tag| <= |s| ==> s[..|tag|] == p[..|tag|];
  }

  lemma TextIsFormed(p: string)
    requires Raw(p) && p != ""
    ensures var r := ParseText(p);
            r.Some? ==> && r.value.0.Text? && IsText(r.value.0.value) && Raw(r.value.1)
                        && (r.value.0.cdata <==> StringEqual(p, CDATA))
                        && (r.value.0.cdata ==> ProperCData(r.value.0.value))
                        && (!r.value.0.cdata ==> r.value.1 != "" && r.value.1[0] == '<')
  {
    hide ReadText, ReadCData;
    if StringEqual(p, CDATA) {
      RawSuffix(p, |CDATA|);
      CDataIsProper(p[|CDATA|..]);
      ReadTextIsText(ReadCData(p[|CDATA|..]).1, CDATA_END);
    } else {
      ReadTextIsText(p, "<");
    }
  }

  // ------------------------------------------------------------------ the tree

  /** The last child is not a plain text, or the next thing is not text. */
  predicate Separated(children: seq<Node>, p: string) {
    children != [] && IsPlainText(children[|children| - 1]) ==> p != "" && p[0] == '<'
  }

  lemma {:induction false} ElementIsFormed(p: string)
    requires Raw(p)
    ensures var r := ParseElement(p); r.Some? ==> r.value.0.Element? && Formed(r.value.0) && Raw(r.value.1)
    decreases |p|, 2
  {
    hide Skip, ReadName, ParseAttributes, Raw, ProperName;
    if ParseElement(p).Some? {
      var p1 := Skip(p).value;
      SkipIsRaw(p);
      RawSuffix(p1, 1);
      SkipIsRaw(p1[1..]);
      var p2 := Skip(p1[1..]).value;
      NameIsProper(p2);
      var (name, p3) := ReadName(p2).value;
      AttributesAreFormed(p3, name, []);
    }
  }

  lemma {:induction false} AttributesAreFormed(p: string, name: string, attributes: seq<Attribute>)
    requires p != "" && Raw(p) && ProperName(name) && FormedAttributes(attributes)
    ensures var r := ParseAttributes(p, name, attributes);
            r.Some? ==> r.value.0.Element? && Formed(r.value.0) && Raw(r.value.1)
    decreases |p|, 1
  {
    hide Skip, ParseAttribute, ReadValue, Raw, ProperName;
    if ParseAttributes(p, name, attributes).Some? {
      SkipIsRaw(p);
      var p1 := Skip(p).value;
      if p1[0] == '/' {
        RawSuffix(p1, 2);
      } else if p1[0] == '>' {
        RawSuffix(p1, 1);
        ChildrenAreFormed(p1[1..], []);
        RawSuffix(ReadValue(p1[1..], []).value.1, |"</" + name + ">"|);
      } else {
        AttributeIsFormed(p1);
        var (a, p2) := ParseAttribute(p1).value;
        AttributesAreFormed(p2, name, attributes + [a]);
      }
    }
  }

  lemma {:induction false} ChildrenAreFormed(p: string, children: seq<Node>)
    requires Raw(p) && FormedChildren(children) && Separated(children, p)
    ensures var r := ReadValue(p, children); r.Some? ==> FormedChildren(r.value.0) && Raw(r.value.1)
    decreases |p|, 4
  {
    hide Skip, ParseText, ParseNode, Raw, Blank, Formed;
    if ReadValue(p, children).Some? {
      SkipIsRaw(p);
      var p1 := Skip(p).value;
      if p1[0] != '<' {
        SkipsToText(p, p1);
        TextIsFormed(p);
        var (text, p2) := ParseText(p).value;
        if Blank(text.value) {
          ChildrenAreFormed(p2, children);
        } else {
          PlainIsFormed(text);
          ChildrenAreFormed(p2, children + [text]);
        }
      } else if !StringEqual(p1, "</") {
        NodeIsFormed(p1);
        var (node, p2) := ParseNode(p1).value;
        ChildrenAreFormed(p2, children + [node]);
      }
    }
  }

  lemma PlainIsFormed(node: Node)
    requires node.Text? && IsText(node.value) && !node.cdata && !Blank(node.value)
    ensures Formed(node)
  {
  }

  lemma {:induction false} NodeIsFormed(p: string)
    requires Raw(p) && p != "" && p[0] == '<'
    ensures var r := ParseNode(p); r.Some? ==> Formed(r.value.0) && !IsPlainText(r.value.0) && Raw(r.value.1)
    decreases |p|, 3
  {
    hide ParseText, ParseElement, Raw;
    match Identify(p)
    case IsCData => TextIsFormed(p);
    case IsElement => ElementIsFormed(p);
    case IsOther =>
  }

  // -------------------------------------------------------------- reading back

  lemma {:induction false} FormedIsProper(node: Node)
    requires Formed(node) && Clean(node)
    ensures ProperNode(node)
    decreases node, 1
  {
    if node.Element? {
      FormedAreProper(node.children);
    }
  }

  lemma {:induction false} FormedAreProper(children: seq<Node>)
    requires FormedChildren(children) && forall i | 0 <= i < |children| :: Clean(children[i])
    ensures ProperChildren(children)
    decreases children, 0
  {
    if children != [] {
      var rest := children[1..];
      assert forall i | 0 <= i < |rest| :: rest[i] == children[i + 1];
      FormedIsProper(children[0]);
      FormedAreProper(rest);
    }
  }

  /** A tree that the parser returns for any C string reads back from what it streams
      out, if no value in it has a hexadecimal reference. */
  lemma ParsedReadsBack(p: string, rest: string)
    requires Raw(p) && ParseElement(p).Some? && Clean(ParseElement(p).value.0)
    ensures ParseElement(StreamOut(ParseElement(p).value.0) + rest) == Some((ParseElement(p).value.0, rest))
  {
    var node := ParseElement(p).value.0;
    ElementIsFormed(p);
    FormedIsProper(node);
    hide ParseElement, StreamOut;
    ParseElementOut(node, rest);
  }
}
