/** The element tree, what it streams out, and the recursive parser, in legacy
    encoding and without condensing white space. */
module XmlTree {
  import opened Options
  import opened XmlText

  datatype Attribute = Attribute(name: string, value: string)

  datatype Node =
    | Element(name: string, attributes: seq<Attribute>, children: seq<Node>)
    | Text(value: string, cdata: bool)

  // ------------------------------------------------------------- streaming out

  function AttributeOut(a: Attribute): string {
    var quote := if '\"' in a.value then "'" else "\"";
    Escape(a.name) + "=" + quote + Escape(a.value) + quote
  }

  function AttributesOut(attributes: seq<Attribute>): string {
    if attributes == [] then "" else " " + AttributeOut(attributes[0]) + AttributesOut(attributes[1..])
  }

  function StreamOut(node: Node): string
    decreases node, 1
  {
    match node
    case Text(value, cdata) =>
      if cdata then "<![CDATA[" + value + "]]>" else Escape(value)
    case Element(name, attributes, children) =>
      "<" + name + AttributesOut(attributes)
      + if children == [] then " />" else ">" + ChildrenOut(children) + "</" + name + ">"
  }

  function ChildrenOut(children: seq<Node>): string
    decreases children, 0
  {
    if children == [] then "" else StreamOut(children[0]) + ChildrenOut(children[1..])
  }

  // ------------------------------------------------------------------- parsing

  /** `isspace` in the C locale. */
  predicate IsSpace(c: char) {
    c == ' ' || 9 <= c as int <= 13
  }

  predicate IsAlpha(c: char) {
    'a' <= c <= 'z' || 'A' <= c <= 'Z' || c as int >= 127
  }

  predicate IsNameStart(c: char) {
    IsAlpha(c) || c == '_'
  }

  predicate IsNameChar(c: char) {
    IsAlpha(c) || '0' <= c <= '9' || c == '_' || c == '-' || c == '.' || c == ':'
  }

  function DropSpace(p: string): (r: string)
    ensures |r| <= |p| && (r != "" ==> !IsSpace(r[0]))
  {
    if p != "" && IsSpace(p[0]) then DropSpace(p[1..]) else p
  }

  /** `SkipWhiteSpace` has no result at the end of the string; callers also stop
      when nothing is left after the white space. */
  function Skip(p: string): (r: Option<string>)
    ensures r.Some? ==> 0 < |r.value| <= |p| && !IsSpace(r.value[0])
  {
    if DropSpace(p) == "" then None else Some(DropSpace(p))
  }

  /** The number of characters of a name from `k` on. */
  function NameEnd(p: string, k: nat): (n: nat)
    requires k <= |p|
    ensures k <= n <= |p| && forall i | k <= i < n :: IsNameChar(p[i])
    ensures n < |p| ==> !IsNameChar(p[n])
    decreases |p| - k
  {
    if k < |p| && IsNameChar(p[k]) then NameEnd(p, k + 1) else k
  }

  function ReadName(p: string): (r: Option<(string, string)>)
    ensures r.Some? ==> |r.value.1| < |p|
  {
    if p != "" && IsNameStart(p[0]) then
      var n := NameEnd(p, 1);
      Some((p[..n], p[n..]))
    else None
  }

  predicate EndsUnquoted(c: char) {
    IsSpace(c) || c == '/' || c == '>'
  }

  /** An attribute value without quotes must not contain any. */
  function ReadUnquoted(p: string): (r: Option<(string, string)>)
    ensures r.Some? ==> |r.value.1| <= |p|
  {
    if p == "" || EndsUnquoted(p[0]) then Some(("", p))
    else if p[0] == '\'' || p[0] == '\"' then None
    else
      match ReadUnquoted(p[1..])
      case None => None
      case Some((value, rest)) => Some(([p[0]] + value, rest))
  }

  function ReadAttributeValue(p: string): (r: Option<(string, string)>)
    requires p != ""
    ensures r.Some? ==> |r.value.1| <= |p|
  {
    if p[0] == '\'' then ReadText(p[1..], "'")
    else if p[0] == '\"' then ReadText(p[1..], "\"")
    else ReadUnquoted(p)
  }

  /** Name, `=` and value. */
  function ParseAttribute(p: string): (r: Option<(Attribute, string)>)
    ensures r.Some? ==> |r.value.1| < |p|
  {
    match Skip(p)
    case None => None
    case Some(p1) =>
      match ReadName(p1)
      case None => None
      case Some((name, p2)) =>
        match Skip(p2)
        case None => None
        case Some(p3) =>
          if p3[0] != '=' then None
          else
            match Skip(p3[1..])
            case None => None
            case Some(p4) =>
              match ReadAttributeValue(p4)
              case None => None
              case Some((value, p5)) => Some((Attribute(name, value), p5))
  }

  const CDATA := "<![CDATA["
  const CDATA_END := "]]>"

  /** The raw characters up to the end of a CDATA section. */
  function ReadCData(p: string): (r: (string, string))
    ensures |r.1| <= |p|
  {
    if p == "" || StringEqual(p, CDATA_END) then ("", p)
    else
      var (value, rest) := ReadCData(p[1..]);
      ([p[0]] + value, rest)
  }

  /** A text node, from its first character or from the CDATA mark. */
  function ParseText(p: string): (r: Option<(Node, string)>)
    requires p != ""
    ensures r.Some? && (p[0] != '<' || StringEqual(p, CDATA)) ==> |r.value.1| < |p|
  {
    if StringEqual(p, CDATA) then
      var (value, rest) := ReadCData(p[|CDATA|..]);
      match ReadText(rest, CDATA_END)
      case None => None
      case Some((_, end)) => Some((Text(value, true), end))
    else
      match ReadText(p, "<")
      case None => None
      case Some((value, rest)) => Some((Text(value, false), "<" + rest))
  }

  predicate Blank(s: string) {
    forall c | c in s :: IsSpace(c)
  }

  datatype Kind = IsElement | IsCData | IsOther

  /** What a `<` starts: an element, a CDATA section, or a declaration, comment or
      unknown node. */
  function Identify(p: string): Kind
    requires p != "" && p[0] == '<'
  {
    if StringEqual(p, CDATA) then IsCData
    else if |p| > 1 && IsNameStart(p[1]) then IsElement
    else IsOther
  }

  predicate HasAttribute(attributes: seq<Attribute>, name: string) {
    exists i | 0 <= i < |attributes| :: attributes[i].name == name
  }

  /** An element, from its `<`. */
  function ParseElement(p: string): (r: Option<(Node, string)>)
    ensures r.Some? ==> |r.value.1| < |p|
    decreases |p|, 2
  {
    match Skip(p)
    case None => None
    case Some(p1) =>
      if p1[0] != '<' then None
      else
        match Skip(p1[1..])
        case None => None
        case Some(p2) =>
          match ReadName(p2)
          case None => None
          case Some((name, p3)) => if p3 == "" then None else ParseAttributes(p3, name, [])
  }

  /** The attributes read so far, then more of them, the content or the end of an
      empty element. A repeated attribute is an error. */
  function ParseAttributes(p: string, name: string, attributes: seq<Attribute>): (r: Option<(Node, string)>)
    requires p != ""
    ensures r.Some? ==> |r.value.1| < |p|
    decreases |p|, 1
  {
    match Skip(p)
    case None => None
    case Some(p1) =>
      if p1[0] == '/' then
        if |p1| > 1 && p1[1] == '>' then Some((Element(name, attributes, []), p1[2..])) else None
      else if p1[0] == '>' then
        match ReadValue(p1[1..], [])
        case None => None
        case Some((children, p2)) =>
          var endTag := "</" + name + ">";
          if StringEqual(p2, endTag) then Some((Element(name, attributes, children), p2[|endTag|..])) else None
      else
        match ParseAttribute(p1)
        case None => None
        case Some((a, p2)) =>
          if p2 == "" || HasAttribute(attributes, a.name) then None
          else ParseAttributes(p2, name, attributes + [a])
  }

  /** The children read so far, then more of them, up to the next end tag. */
  function ReadValue(p: string, children: seq<Node>): (r: Option<(seq<Node>, string)>)
    ensures r.Some? ==> |r.value.1| <= |p|
    decreases |p|, 4
  {
    match Skip(p)
    case None => None
    case Some(p1) =>
      if p1[0] != '<' then
        // The text begins with the white space just skipped.
        SkipsToText(p, p1);
        match ParseText(p)
        case None => None
        case Some((text, p2)) => ReadValue(p2, if Blank(text.value) then children else children + [text])
      else if StringEqual(p1, "</") then Some((children, p1))
      else
        match ParseNode(p1)
        case None => None
        case Some((node, p2)) => ReadValue(p2, children + [node])
  }

  function ParseNode(p: string): (r: Option<(Node, string)>)
    requires p != "" && p[0] == '<'
    ensures r.Some? ==> |r.value.1| < |p|
    decreases |p|, 3
  {
    match Identify(p)
    case IsCData => ParseText(p)
    case IsElement => ParseElement(p)
    case IsOther => None
  }

  lemma SkipsToText(p: string, p1: string)
    requires Skip(p) == Some(p1) && p1[0] != '<'
    ensures p != "" && p[0] != '<'
  {
  }
}
