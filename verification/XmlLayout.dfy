/** Elements as people write them: with white space between the parts of a tag and
    between children, any quotes around values, and empty elements closed either way.
    However a tree is laid out, the parser reads the tree. */
module XmlLayout {
  import opened Options
  import opened XmlText
  import opened XmlTextProof
  import opened XmlTree
  import opened XmlTreeProof

  // ------------------------------------------------------------ character classes

  /** Tab, line feed, vertical tab, form feed, carriage return and blank. */
  predicate White(s: string) {
    forall i | 0 <= i < |s| ::
      var c := s[i] as int; c == 9 || c == 10 || c == 11 || c == 12 || c == 13 || c == 32
  }

  lemma SpaceIs(c: char)
    ensures IsSpace(c) <==> White([c])
  {
    assert [c][0] == c;
  }

  lemma BlankIs(s: string)
    ensures Blank(s) <==> White(s)
  {
    forall c ensures IsSpace(c) <==> White([c]) {
      SpaceIs(c);
    }
    assert forall i | 0 <= i < |s| :: White([s[i]]) <==> IsSpace(s[i]);
    assert White(s) <==> forall i | 0 <= i < |s| :: White([s[i]]) by {
      assert forall c: char :: [c][0] == c;
    }
    assert Blank(s) <==> forall i | 0 <= i < |s| :: IsSpace(s[i]);
  }

  /** Letters, the underscore and the bytes from 127 on begin a name; digits, the hyphen,
      the full stop and the colon may follow. */
  lemma NameCharsAre(c: char)
    ensures var n := c as int;
            && (IsNameStart(c) <==> 65 <= n <= 90 || 97 <= n <= 122 || n == 95 || n >= 127)
            && (IsNameChar(c) <==> IsNameStart(c) || 48 <= n <= 57 || n == 45 || n == 46 || n == 58)
  {
  }

  // ------------------------------------------------------------------- layouts

  datatype Quotes = Double | Single | Bare

  /** An attribute, the white space before it and around its `=`, and its quotes. */
  datatype LaidAttribute = LaidAttribute(before: string, name: string, afterName: string, beforeValue: string,
                                         quotes: Quotes, value: string)

  /** A node with its layout; `beforeEnd` stands before the end of the start tag, and
      `lastGap` before the end tag. */
  datatype LaidNode =
    | LaidText(value: string, cdata: bool)
    | LaidElement(name: string, attributes: seq<LaidAttribute>, beforeEnd: string, selfClosed: bool,
                  children: seq<LaidChild>, lastGap: string)

  /** A child and the white space before it. */
  datatype LaidChild = LaidChild(gap: string, node: LaidNode)

  /** The tree without the layout. */
  function Tree(w: LaidNode): Node {
    match w
    case LaidText(value, cdata) => Text(value, cdata)
    case LaidElement(name, attributes, _, _, children, _) => Element(name, Attributes(attributes), Trees(children))
  }

  function Trees(children: seq<LaidChild>): seq<Node> {
    if children == [] then [] else [Tree(children[0].node)] + Trees(children[1..])
  }

  function Attributes(attributes: seq<LaidAttribute>): seq<Attribute> {
    if attributes == [] then []
    else [Attribute(attributes[0].name, attributes[0].value)] + Attributes(attributes[1..])
  }

  /** The text of a layout, in front of the rest of a document. */
  function Written(w: LaidNode, rest: string): string
    decreases w, 1
  {
    match w
    case LaidText(value, cdata) =>
      if cdata then "<![CDATA[" + (value + ("]]>" + rest)) else Escape(value) + rest
    case LaidElement(name, attributes, beforeEnd, selfClosed, children, lastGap) =>
      "<" + (name + WrittenAttributes(attributes, beforeEnd +
        if selfClosed then "/>" + rest
        else ">" + WrittenChildren(children, lastGap + ("</" + name + ">" + rest))))
  }

  function WrittenChildren(children: seq<LaidChild>, rest: string): string
    decreases children, 0
  {
    if children == [] then rest
    else children[0].gap + Written(children[0].node, WrittenChildren(children[1..], rest))
  }

  function WrittenAttributes(attributes: seq<LaidAttribute>, rest: string): string {
    if attributes == [] then rest
    else
      var a := attributes[0];
      var more := WrittenAttributes(attributes[1..], rest);
      a.before + (a.name + (a.afterName + ("=" + (a.beforeValue + WrittenValue(a, more)))))
  }

  function WrittenValue(a: LaidAttribute, rest: string): string {
    match a.quotes
    case Double => "\"" + (Escape(a.value) + ("\"" + rest))
    case Single => "'" + (Escape(a.value) + ("'" + rest))
    case Bare => a.value + rest
  }

  // ------------------------------------------------------------ proper layouts

  /** A value that needs no quotes. */
  predicate BareValue(s: string) {
    s != "" && forall i | 0 <= i < |s| ::
      !White([s[i]]) && s[i] != '/' && s[i] != '>' && s[i] != '\"' && s[i] != '\''
  }

  predicate ProperLaidAttribute(a: LaidAttribute) {
    && ProperName(a.name) && White(a.before) && White(a.afterName) && White(a.beforeValue)
    && if a.quotes == Bare then BareValue(a.value) else ProperValue(a.value)
  }

  /** Names are distinct, and something stands before the first attribute and after a
      value without quotes. */
  predicate ProperLaidAttributes(attributes: seq<LaidAttribute>) {
    && (forall i | 0 <= i < |attributes| :: ProperLaidAttribute(attributes[i]))
    && (forall i, j | 0 <= i < j < |attributes| :: attributes[i].name != attributes[j].name)
    && (attributes != [] ==> attributes[0].before != "")
    && (forall i | 0 < i < |attributes| && attributes[i - 1].quotes == Bare :: attributes[i].before != "")
  }

  predicate IsPlain(w: LaidNode) {
    w.LaidText? && !w.cdata
  }

  /** White space beside a text would belong to it. */
  predicate ProperLaid(w: LaidNode)
    decreases w, 1
  {
    match w
    case LaidText(value, cdata) => if cdata then ProperCData(value) else ProperValue(value) && !Blank(value)
    case LaidElement(name, attributes, beforeEnd, selfClosed, children, lastGap) =>
      && ProperName(name) && ProperLaidAttributes(attributes) && White(beforeEnd)
      && if selfClosed then children == [] else ProperLaidChildren(children, lastGap, false)
  }

  predicate ProperLaidChildren(children: seq<LaidChild>, lastGap: string, afterText: bool)
    decreases children, 0
  {
    if children == [] then White(lastGap) && (afterText ==> lastGap == "")
    else
      var child := children[0];
      && White(child.gap) && ProperLaid(child.node)
      && (afterText ==> child.gap == "" && !IsPlain(child.node))
      && (IsPlain(child.node) ==> child.gap == "")
      && ProperLaidChildren(children[1..], lastGap, IsPlain(child.node))
  }

  // ------------------------------------------------------------ reading white space

  lemma {:induction false} DropsWhite(w: string, p: string)
    requires White(w) && p != "" && !IsSpace(p[0])
    ensures DropSpace(w + p) == p
  {
    if w == "" {
      assert w + p == p;
    } else {
      assert (w + p)[1..] == w[1..] + p && (w + p)[0] == w[0];
      DropsWhite(w[1..], p);
    }
  }

  lemma SkipsWhite(w: string, p: string)
    requires White(w) && p != "" && !IsSpace(p[0])
    ensures Skip(w + p) == Some(p)
  {
    DropsWhite(w, p);
  }

  /** White space before a tag is not looked at. */
  lemma ReadValueSkips(gap: string, p: string, before: seq<Node>)
    requires White(gap) && p != "" && p[0] == '<'
    ensures ReadValue(gap + p, before) == ReadValue(p, before)
  {
    SkipsWhite(gap, p);
    SkipNothing(p);
    hide Skip, ParseText, ParseNode;
  }

  /** What stands after white space does not begin like a name if neither does. */
  lemma NoNameChar(w: string, p: string)
    requires White(w) && p != "" && !IsNameChar(p[0])
    ensures w + p != "" && !IsNameChar((w + p)[0])
  {
    assert w != "" ==> (w + p)[0] == w[0];
  }

  // --------------------------------------------------------------- attributes

  lemma {:induction false} BareIsRead(value: string, rest: string)
    requires BareValue(value) && (rest == "" || EndsUnquoted(rest[0]))
    ensures ReadUnquoted(value + rest) == Some((value, rest))
  {
    var p := value + rest;
    SpaceIs(value[0]);
    assert p[0] == value[0] && p[1..] == value[1..] + rest;
    if |value| == 1 {
      assert p[1..] == rest && [value[0]] + "" == value;
    } else {
      BareIsRead(value[1..], rest);
      assert [value[0]] + value[1..] == value;
    }
  }

  lemma ValueIsRead(a: LaidAttribute, rest: string)
    requires ProperLaidAttribute(a) && rest != "" && (a.quotes == Bare ==> EndsUnquoted(rest[0]))
    ensures var p := WrittenValue(a, rest);
            p != "" && !IsSpace(p[0]) && ReadAttributeValue(p) == Some((a.value, rest))
  {
    hide ReadText, Escape;
    var p := WrittenValue(a, rest);
    match a.quotes
    case Double => QuotedIsRead(a.value, "\"", rest);
    case Single => QuotedIsRead(a.value, "'", rest);
    case Bare =>
      SpaceIs(a.value[0]);
      BareIsRead(a.value, rest);
      assert p[0] == a.value[0];
  }

  lemma QuotedIsRead(value: string, quote: string, rest: string)
    requires ProperValue(value) && (quote == "\"" || quote == "'")
    ensures var p := quote + (Escape(value) + (quote + rest));
            p[0] == quote[0] && ReadText(p[1..], quote) == Some((value, rest))
  {
    hide ReadText, Escape;
    var p := quote + (Escape(value) + (quote + rest));
    assert p[1..] == Escape(value) + quote + rest;
    EscapeThenRead(value, quote, rest);
  }

  /** The text of an attribute after the white space before it. */
  function FromName(a: LaidAttribute, rest: string): string {
    a.name + (a.afterName + ("=" + (a.beforeValue + WrittenValue(a, rest))))
  }

  lemma AttributeIsRead(a: LaidAttribute, rest: string)
    requires ProperLaidAttribute(a) && rest != "" && (a.quotes == Bare ==> EndsUnquoted(rest[0]))
    ensures ParseAttribute(FromName(a, rest)) == Some((Attribute(a.name, a.value), rest))
  {
    hide Skip, ReadName, ReadAttributeValue, WrittenValue, ProperName, White;
    var p4 := WrittenValue(a, rest);
    ValueIsRead(a, rest);
    var p3 := "=" + (a.beforeValue + p4);
    assert p3[1..] == a.beforeValue + p4;
    SkipsWhite(a.beforeValue, p4);
    var p2 := a.afterName + p3;
    SkipsWhite(a.afterName, p3);
    NoNameChar(a.afterName, p3);
    ReadProperName(a.name, p2);
    NameFacts(a.name);
    SkipNothing(a.name + p2);
  }

  /** None of the attributes has been read before. */
  predicate NewNames(before: seq<Attribute>, attributes: seq<LaidAttribute>) {
    forall i, j | 0 <= i < |before| && 0 <= j < |attributes| :: before[i].name != attributes[j].name
  }

  lemma NamesStayNew(before: seq<Attribute>, attributes: seq<LaidAttribute>, rest: string)
    requires attributes != [] && ProperRest(attributes, rest) && NewNames(before, attributes)
    ensures forall i | 0 <= i < |before| :: before[i].name != attributes[0].name
    ensures NewNames(before + [Attribute(attributes[0].name, attributes[0].value)], attributes[1..])
  {
  }

  /** Attributes read in any layout. */
  lemma {:induction false} AttributesAreRead(name: string, before: seq<Attribute>, attributes: seq<LaidAttribute>,
                                             rest: string)
    requires ProperRest(attributes, rest) && NewNames(before, attributes)
    ensures ParseAttributes(WrittenAttributes(attributes, rest), name, before)
            == ParseAttributes(rest, name, before + Attributes(attributes))
    decreases attributes
  {
    hide WrittenValue, ParseAttributes, ProperRest, NewNames, ProperLaidAttribute;
    if attributes == [] {
      assert before + Attributes(attributes) == before;
    } else {
      var a, others := attributes[0], attributes[1..];
      var more := WrittenAttributes(others, rest);
      MoreFollows(attributes, rest);
      NamesStayNew(before, attributes, rest);
      var read := Attribute(a.name, a.value);
      OneAttribute(a, more, name, before);
      assert before + [read] + Attributes(others) == before + Attributes(attributes);
      AttributesAreRead(name, before + [read], others, rest);
    }
  }

  /** What the attributes of a list and what follows them must be. */
  predicate ProperRest(attributes: seq<LaidAttribute>, rest: string) {
    && rest != "" && (forall i | 0 <= i < |attributes| :: ProperLaidAttribute(attributes[i]))
    && (forall i, j | 0 <= i < j < |attributes| :: attributes[i].name != attributes[j].name)
    && (forall i | 0 < i < |attributes| && attributes[i - 1].quotes == Bare :: attributes[i].before != "")
    && (attributes != [] && attributes[|attributes| - 1].quotes == Bare ==> EndsUnquoted(rest[0]))
  }

  lemma MoreFollows(attributes: seq<LaidAttribute>, rest: string)
    requires attributes != [] && ProperRest(attributes, rest)
    ensures var more := WrittenAttributes(attributes[1..], rest);
            && more != "" && (attributes[0].quotes == Bare ==> EndsUnquoted(more[0]))
            && ProperRest(attributes[1..], rest) && ProperLaidAttribute(attributes[0])
  {
    var others := attributes[1..];
    assert forall i | 0 <= i < |others| :: others[i] == attributes[i + 1];
    hide WrittenValue;
    if others != [] {
      var b := others[0];
      assert b == attributes[1] && ProperLaidAttribute(b);
      if b.before != "" {
        SpaceIs(b.before[0]);
      }
    }
  }

  lemma OneAttribute(a: LaidAttribute, more: string, name: string, before: seq<Attribute>)
    requires ProperLaidAttribute(a) && more != "" && (a.quotes == Bare ==> EndsUnquoted(more[0]))
    requires forall i | 0 <= i < |before| :: before[i].name != a.name
    ensures ParseAttributes(a.before + FromName(a, more), name, before)
            == ParseAttributes(more, name, before + [Attribute(a.name, a.value)])
  {
    var p := FromName(a, more);
    NameFacts(a.name);
    assert p != "" && p[0] == a.name[0];
    AttributeIsRead(a, more);
    SkipsWhite(a.before, p);
    hide Skip, ParseAttribute, ReadValue, FromName, ProperName;
  }

  // ------------------------------------------------------------ what is refused

  /** A quote ends an unquoted value with an error. */
  lemma {:induction false} QuoteInBareValue(value: string, rest: string)
    requires value == "" || BareValue(value)
    requires rest != "" && (rest[0] == '\"' || rest[0] == '\'')
    ensures ReadUnquoted(value + rest) == None
  {
    if value == "" {
      assert value + rest == rest;
    } else {
      SpaceIs(value[0]);
      assert (value + rest)[1..] == value[1..] + rest && (value + rest)[0] == value[0];
      QuoteInBareValue(value[1..], rest);
    }
  }

  /** A name must be followed by `=`. */
  lemma EqualsIsNeeded(name: string, w: string, rest: string)
    requires ProperName(name) && White(w) && rest != "" && !IsSpace(rest[0]) && rest[0] != '='
    requires w == "" ==> !IsNameChar(rest[0])
    ensures ParseAttribute(name + (w + rest)) == None
  {
    hide Skip, ReadName, ProperName;
    NameFacts(name);
    assert w != "" ==> (w + rest)[0] == w[0];
    assert w == "" ==> w + rest == rest;
    SkipNothing(name + (w + rest));
    ReadProperName(name, w + rest);
    SkipsWhite(w, rest);
  }

  /** A tag begins with a name. */
  lemma NameIsNeeded(w: string, rest: string)
    requires White(w) && rest != "" && !IsSpace(rest[0]) && !IsNameStart(rest[0])
    ensures ParseElement("<" + (w + rest)) == None
  {
    hide Skip, ParseAttributes;
    var p := "<" + (w + rest);
    SkipNothing(p);
    assert p[1..] == w + rest;
    SkipsWhite(w, rest);
  }

  /** An empty element is closed by `/>` and nothing else that begins with a slash. */
  lemma BracketIsNeeded(w: string, rest: string, name: string, before: seq<Attribute>)
    requires White(w) && (rest == "" || rest[0] != '>')
    ensures ParseAttributes(w + ("/" + rest), name, before) == None
  {
    hide Skip, ReadValue, ParseAttribute;
    SkipsWhite(w, "/" + rest);
  }

  /** The end tag must have the name of the element. */
  lemma EndTagMustMatch(w: string, children: seq<LaidChild>, lastGap: string, rest: string, name: string,
                        before: seq<Attribute>)
    requires White(w) && ProperLaidChildren(children, lastGap, false)
    requires ClosesTag(rest) && !("</" + name + ">" <= rest)
    ensures ParseAttributes(w + (">" + WrittenChildren(children, lastGap + rest)), name, before) == None
  {
    hide Skip, ReadValue, ParseAttribute;
    var p := ">" + WrittenChildren(children, lastGap + rest);
    SkipsWhite(w, p);
    assert p[1..] == WrittenChildren(children, lastGap + rest);
    ChildrenAreRead([], children, lastGap, false, rest);
  }

  // ------------------------------------------------------------------ trees

  lemma ClosingTag(name: string, rest: string)
    ensures var p := "</" + name + ">" + rest;
            ClosesTag(p) && StringEqual(p, "</" + name + ">") && p[|"</" + name + ">"|..] == rest
  {
    PrefixOf("</" + name + ">", rest);
  }

  lemma {:induction false} ChildrenAreRead(before: seq<Node>, children: seq<LaidChild>, lastGap: string,
                                           afterText: bool, rest: string)
    requires ProperLaidChildren(children, lastGap, afterText) && ClosesTag(rest)
    ensures ReadValue(WrittenChildren(children, lastGap + rest), before) == Some((before + Trees(children), rest))
    ensures afterText ==> var p := WrittenChildren(children, lastGap + rest); p != "" && p[0] == '<'
    decreases children, 0
  {
    hide Escape, ReadValue, ProperCData, ProperValue, ProperName, ProperLaidAttributes, White;
    if children == [] {
      ReadValueSkips(lastGap, rest, before);
      EndTagStops(rest, before);
      assert before + Trees(children) == before;
      assert lastGap == "" ==> lastGap + rest == rest;
    } else {
      var child, others := children[0], children[1..];
      var more := WrittenChildren(others, lastGap + rest);
      ChildrenAreRead(before + [Tree(child.node)], others, lastGap, IsPlain(child.node), rest);
      ChildIsRead(before, child, more);
      assert before + [Tree(child.node)] + Trees(others) == before + Trees(children);
      if afterText {
        NodeIsRead(child.node, more);
        assert child.gap + Written(child.node, more) == Written(child.node, more);
      }
    }
  }

  lemma {:induction false} ChildIsRead(before: seq<Node>, child: LaidChild, more: string)
    requires ProperLaid(child.node) && White(child.gap) && (IsPlain(child.node) ==> child.gap == "")
    requires IsPlain(child.node) ==> more != "" && more[0] == '<'
    ensures ReadValue(child.gap + Written(child.node, more), before) == ReadValue(more, before + [Tree(child.node)])
    decreases child.node, 3
  {
    hide ReadValue, ParseNode, White;
    var p := Written(child.node, more);
    if IsPlain(child.node) {
      assert child.gap + p == p;
      TextGoesOn(child.node.value, more, before);
    } else {
      NodeIsRead(child.node, more);
      ReadValueSkips(child.gap, p, before);
      NodeGoesOn(p, Tree(child.node), more, before);
    }
  }

  lemma TextGoesOn(value: string, more: string, before: seq<Node>)
    requires ProperValue(value) && !Blank(value) && more != "" && more[0] == '<'
    ensures ReadValue(Escape(value) + more, before) == ReadValue(more, before + [Text(value, false)])
  {
    ParseTextOut(value, more);
    hide Escape, ParseText, Skip, ParseNode, Blank;
  }

  lemma {:induction false} NodeIsRead(w: LaidNode, rest: string)
    requires ProperLaid(w) && !IsPlain(w)
    ensures var p := Written(w, rest);
            |p| > 1 && p[0] == '<' && p[1] != '/' && ParseNode(p) == Some((Tree(w), rest))
    decreases w, 2
  {
    hide ParseText, ParseElement;
    match w
    case LaidText(value, _) =>
      CDataWritten(value, rest);
      ParseCDataOut(value, rest);
    case LaidElement(name, _, _, _, _, _) =>
      ElementIsRead(w, rest);
      var p := Written(w, rest);
      NameFacts(name);
      assert p[1] == name[0];
      OtherTag(p, CDATA, 1);
  }

  lemma CDataWritten(value: string, rest: string)
    ensures Written(LaidText(value, true), rest) == StreamOut(Text(value, true)) + rest
  {
    assert "<![CDATA[" + (value + ("]]>" + rest)) == "<![CDATA[" + value + "]]>" + rest;
  }

  /** What follows the attributes of an element. */
  function AfterAttributes(w: LaidNode, rest: string): string
    requires w.LaidElement?
  {
    w.beforeEnd + if w.selfClosed then "/>" + rest
                  else ">" + WrittenChildren(w.children, w.lastGap + ("</" + w.name + ">" + rest))
  }

  /** However a proper element is laid out, the parser reads its tree and stops just past
      it. */
  lemma {:induction false} ElementIsRead(w: LaidNode, rest: string)
    requires w.LaidElement? && ProperLaid(w)
    ensures ParseElement(Written(w, rest)) == Some((Tree(w), rest))
    decreases w, 1
  {
    hide ParseElement, ParseAttributes, ReadValue, ProperName;
    var tail := AfterAttributes(w, rest);
    TailIsRead(w, rest);
    var inner := WrittenAttributes(w.attributes, tail);
    assert Written(w, rest) == "<" + (w.name + inner);
    TailStarts(w, rest);
    ElementStarts(w.name, inner);
    AttributesAreRead(w.name, [], w.attributes, tail);
    assert [] + Attributes(w.attributes) == Attributes(w.attributes);
  }

  lemma TailStarts(w: LaidNode, rest: string)
    requires w.LaidElement? && ProperLaid(w)
    ensures var tail := AfterAttributes(w, rest);
            var inner := WrittenAttributes(w.attributes, tail);
            inner != "" && !IsNameChar(inner[0]) && ProperRest(w.attributes, tail)
  {
    hide WrittenValue, WrittenChildren, ProperName, ProperLaidChildren;
    var tail := AfterAttributes(w, rest);
    if w.beforeEnd != "" {
      SpaceIs(w.beforeEnd[0]);
    }
    if w.attributes != [] {
      var a := w.attributes[0];
      assert ProperLaidAttribute(a) && a.before != "";
      SpaceIs(a.before[0]);
    }
  }

  lemma {:induction false} TailIsRead(w: LaidNode, rest: string)
    requires w.LaidElement? && ProperLaid(w)
    ensures ParseAttributes(AfterAttributes(w, rest), w.name, Attributes(w.attributes)) == Some((Tree(w), rest))
    decreases w, 0
  {
    var end := if w.selfClosed then "/>" + rest
               else ">" + WrittenChildren(w.children, w.lastGap + ("</" + w.name + ">" + rest));
    SkipsWhite(w.beforeEnd, end);
    if w.selfClosed {
      assert end[2..] == rest;
    } else {
      var closing := "</" + w.name + ">" + rest;
      ClosingTag(w.name, rest);
      ChildrenAreRead([], w.children, w.lastGap, false, closing);
      assert [] + Trees(w.children) == Trees(w.children);
      assert end[1..] == WrittenChildren(w.children, w.lastGap + closing);
    }
    hide Skip, ReadValue, ParseAttribute;
  }

  /** The same after white space before the element. */
  lemma LaidElementIsRead(before: string, w: LaidNode, rest: string)
    requires White(before) && w.LaidElement? && ProperLaid(w)
    ensures ParseElement(before + Written(w, rest)) == Some((Tree(w), rest))
  {
    ElementIsRead(w, rest);
    var p := Written(w, rest);
    assert p != "" && p[0] == '<';
    SkipsWhite(before, p);
    SkipNothing(p);
    hide Skip, ReadName, ParseAttributes, Written;
  }

  // ------------------------------------------------------ the layout of the writer

  /** The layout the writer chooses: one blank before each attribute and before the end
      of an empty element, and double quotes unless the value has one. */
  function Streamed(node: Node): LaidNode {
    match node
    case Text(value, cdata) => LaidText(value, cdata)
    case Element(name, attributes, children) =>
      LaidElement(name, StreamedAttributes(attributes), if children == [] then " " else "", children == [],
                  StreamedChildren(children), "")
  }

  function StreamedChildren(children: seq<Node>): seq<LaidChild> {
    if children == [] then [] else [LaidChild("", Streamed(children[0]))] + StreamedChildren(children[1..])
  }

  function StreamedAttributes(attributes: seq<Attribute>): seq<LaidAttribute> {
    if attributes == [] then []
    else
      var a := attributes[0];
      [LaidAttribute(" ", a.name, "", "", if '\"' in a.value then Single else Double, a.value)]
      + StreamedAttributes(attributes[1..])
  }

  /** An attribute value in double quotes, or in single ones if it has a double quote. */
  lemma AttributeIsLaid(a: Attribute, rest: string)
    requires ProperName(a.name)
    ensures AttributeOut(a) + rest
            == FromName(LaidAttribute(" ", a.name, "", "", if '\"' in a.value then Single else Double, a.value), rest)
  {
    NameFacts(a.name);
    EscapeName(a.name);
    var quote := if '\"' in a.value then "'" else "\"";
    QuotedParts(a.name, quote, Escape(a.value), rest);
    hide Escape, ProperName;
  }

  lemma QuotedParts(name: string, quote: string, value: string, rest: string)
    ensures name + "=" + quote + value + quote + rest
            == name + ("" + ("=" + ("" + (quote + (value + (quote + rest))))))
  {
    assert "" + (quote + (value + (quote + rest))) == quote + (value + (quote + rest));
    assert "=" + (quote + (value + (quote + rest))) == "=" + quote + value + quote + rest;
  }

  lemma {:induction false} AttributesAreLaid(attributes: seq<Attribute>, rest: string)
    requires forall i | 0 <= i < |attributes| :: ProperName(attributes[i].name)
    ensures AttributesOut(attributes) + rest == WrittenAttributes(StreamedAttributes(attributes), rest)
  {
    hide AttributeOut, ProperName, WrittenValue;
    if attributes == [] {
      assert AttributesOut(attributes) + rest == rest;
    } else {
      var more := AttributesOut(attributes[1..]);
      AttributesAreLaid(attributes[1..], rest);
      AttributeIsLaid(attributes[0], more + rest);
      assert AttributesOut(attributes) + rest == " " + (AttributeOut(attributes[0]) + (more + rest));
    }
  }

  /** What the writer streams out is that layout. */
  lemma {:induction false} StreamedIsLaid(node: Node, rest: string)
    requires ProperNode(node)
    ensures StreamOut(node) + rest == Written(Streamed(node), rest)
    decreases node, 1
  {
    match node
    case Text(value, cdata) =>
      if cdata {
        CDataWritten(value, rest);
      }
    case Element(name, attributes, children) =>
      var tail := Tail(name, children, rest);
      ElementShape(name, attributes, children, rest);
      assert forall i | 0 <= i < |attributes| :: ProperName(attributes[i].name);
      AttributesAreLaid(attributes, tail);
      TailIsLaid(name, children, rest);
      hide StreamOut, AttributesOut, WrittenAttributes, Tail, Escape;
  }

  lemma {:induction false} TailIsLaid(name: string, children: seq<Node>, rest: string)
    requires ProperChildren(children)
    ensures Tail(name, children, rest)
            == (if children == [] then " " else "")
               + if children == [] then "/>" + rest
                 else ">" + WrittenChildren(StreamedChildren(children), "" + ("</" + name + ">" + rest))
    decreases children, 1
  {
    hide ProperChildren;
    if children != [] {
      var closing := "</" + name + ">" + rest;
      assert "" + closing == closing;
      ChildrenAreLaid(children, closing);
    }
  }

  lemma {:induction false} ChildrenAreLaid(children: seq<Node>, rest: string)
    requires ProperChildren(children)
    ensures ChildrenOut(children) + rest == WrittenChildren(StreamedChildren(children), rest)
    decreases children, 0
  {
    hide ProperNode;
    if children == [] {
      assert ChildrenOut(children) + rest == rest;
    } else {
      var more := ChildrenOut(children[1..]);
      ChildrenAreLaid(children[1..], rest);
      StreamedIsLaid(children[0], more + rest);
      assert ChildrenOut(children) + rest == StreamOut(children[0]) + (more + rest);
      var laid := Written(Streamed(children[0]), more + rest);
      assert "" + laid == laid;
      hide StreamOut, Written, Streamed;
    }
  }
}
