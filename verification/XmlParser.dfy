/**
 * tinyxml2's parser.  A char pointer into the document buffer is modelled by the text from there
 * to the terminating NUL; advancing it drops characters from the front.
 */
module XmlParser {
  import opened StrPair
  import opened XmlPrinter

  const MAX_ELEMENT_DEPTH := 100

  datatype XMLError =
    | NO_ERROR | EMPTY_DOCUMENT | PARSING | PARSING_ELEMENT | PARSING_ATTRIBUTE | PARSING_TEXT | PARSING_CDATA
    | PARSING_COMMENT | PARSING_DECLARATION | PARSING_UNKNOWN | MISMATCHED_ELEMENT | ELEMENT_DEPTH_EXCEEDED

  const TEXT_ELEMENT := Flags(true, true)
  const RAW := Flags(false, true)

  // ---------------------------------------------------------------- characters and tokens

  predicate IsWhiteSpace(c: char) {
    c == ' ' || 9 as char <= c <= 13 as char
  }

  predicate IsNameStartChar(c: char) {
    c >= 128 as char || 'a' <= c <= 'z' || 'A' <= c <= 'Z' || c == ':' || c == '_'
  }

  predicate IsNameChar(c: char) {
    IsNameStartChar(c) || '0' <= c <= '9' || c == '.' || c == '-'
  }

  function SkipWhiteSpace(p: string): (r: string)
    ensures |r| <= |p| && (r == "" || !IsWhiteSpace(r[0]))
    ensures p == "" || !IsWhiteSpace(p[0]) ==> r == p
  {
    if p != "" && IsWhiteSpace(p[0]) then SkipWhiteSpace(p[1..]) else p
  }

  // All that it drops is white space.
  lemma {:induction false} SkipsOnlySpace(p: string)
    ensures var n := |p| - |SkipWhiteSpace(p)|;
            SkipWhiteSpace(p) == p[n..] && forall k | 0 <= k < n :: IsWhiteSpace(p[k])
    decreases |p|
  {
    if p != "" && IsWhiteSpace(p[0]) {
      SkipsOnlySpace(p[1..]);
      var n := |p| - |SkipWhiteSpace(p)|;
      assert p[n..] == p[1..][n - 1..];
      assert forall k | 0 < k < n :: p[k] == p[1..][k - 1];
    }
  }

  function NameLength(p: string): (n: nat)
    ensures n <= |p|
  {
    if p != "" && IsNameChar(p[0]) then 1 + NameLength(p[1..]) else 0
  }

  // The name at p, empty if there is none.
  function Name(p: string): (name: string)
    ensures name <= p
  {
    if p == "" || !IsNameStartChar(p[0]) then "" else p[..NameLength(p)]
  }

  // Where the end tag first occurs, or -1.
  function IndexOf(p: string, tag: string): (r: int)
    ensures r == -1 || (0 <= r <= |p| - |tag| && tag <= p[r..])
  {
    if p == "" then -1
    else if tag <= p then 0
    else var r := IndexOf(p[1..], tag); if r == -1 then -1 else r + 1
  }

  lemma {:induction false} IndexOfIsFirst(p: string, tag: string)
    requires tag != ""
    ensures IndexOf(p, tag) == -1 <==> forall k | 0 <= k < |p| :: !(tag <= p[k..])
    ensures forall k | 0 <= k < IndexOf(p, tag) :: !(tag <= p[k..])
    decreases |p|
  {
    if p != "" {
      IndexOfIsFirst(p[1..], tag);
      assert p[0..] == p;
      assert forall k | 0 < k < |p| :: p[k..] == p[1..][k - 1..];
      if !(tag <= p) {
        assert IndexOf(p, tag) != -1 ==> tag <= p[IndexOf(p, tag)..];
      }
    }
  }

  // ---------------------------------------------------------------- attributes

  datatype Parsed<T> = NotParsed | Parsed(value: T, rest: string)

  ghost function ParseAttribute(p: string): (r: Parsed<Attribute>)
    ensures r.Parsed? ==> |r.rest| < |p|
  {
    var name := Name(p);
    var p1 := SkipWhiteSpace(p[|name|..]);
    if name == "" || p[|name|..] == "" || p1 == "" || p1[0] != '=' then NotParsed
    else
      var p2 := SkipWhiteSpace(p1[1..]);
      if p2 == "" || (p2[0] != '\"' && p2[0] != '\'') then NotParsed
      else
        var n := IndexOf(p2[1..], p2[..1]);
        if n == -1 then NotParsed
        else Parsed(Attribute(name, CString(InPlace(p2[1..][..n], TEXT_ELEMENT))), p2[n + 2..])
  }

  predicate HasName(attrs: seq<Attribute>, name: string) {
    exists k | 0 <= k < |attrs| :: attrs[k].name == name
  }

  datatype Tag = TagError(error: XMLError) | Tag(attributes: seq<Attribute>, closed: bool, rest: string)

  ghost function ParseAttributes(p: string, attrs: seq<Attribute>): (r: Tag)
    ensures r.Tag? ==> |r.rest| < |p|
    decreases |p|
  {
    var p := SkipWhiteSpace(p);
    if p == "" then TagError(PARSING_ELEMENT)
    else if IsNameStartChar(p[0]) then
      var a := ParseAttribute(p);
      if a.NotParsed? || HasName(attrs, a.value.name) then TagError(PARSING_ATTRIBUTE)
      else ParseAttributes(a.rest, attrs + [a.value])
    else if p[0] == '>' then Tag(attrs, false, p[1..])
    else if p[0] == '/' && At(p, 1) == '>' then Tag(attrs, true, p[2..])
    else TagError(PARSING_ELEMENT)
  }

  // ---------------------------------------------------------------- nodes

  datatype Kind = NoNode | XmlDeclaration | XmlComment | XmlCData | XmlUnknown | XmlElement | XmlText

  function Identify(p: string): (r: (Kind, string))
    ensures r.0 != NoNode ==> |r.1| <= |p| && (r.0.XmlText? ==> r.1 == p && p != "") && (!r.0.XmlText? ==> |r.1| < |p|)
  {
    var q := SkipWhiteSpace(p);
    if q == "" then (NoNode, q)
    else if "<?" <= q then (XmlDeclaration, q[2..])
    else if "<!--" <= q then (XmlComment, q[4..])
    else if "<![CDATA[" <= q then (XmlCData, q[9..])
    else if "<!" <= q then (XmlUnknown, q[2..])
    else if "<" <= q then (XmlElement, q[1..])
    else (XmlText, p)
  }

  // The kinds told apart without regard to the order in which the code tries them, and what is left to parse.
  lemma {:induction false} IdentifiedByMarkup(p: string)
    ensures var (kind, rest) := Identify(p); var q := SkipWhiteSpace(p);
            && (kind.NoNode? <==> q == "")
            && (kind.XmlText? <==> q != "" && q[0] != '<')
            && (kind.XmlDeclaration? <==> "<?" <= q)
            && (kind.XmlComment? <==> "<!--" <= q)
            && (kind.XmlCData? <==> "<![CDATA[" <= q)
            && (kind.XmlUnknown? <==> "<!" <= q && !("<!--" <= q) && !("<![CDATA[" <= q))
            && (kind.XmlElement? <==> "<" <= q && At(q, 1) != '?' && At(q, 1) != '!')
            && match kind {
                 case NoNode => rest == ""
                 case XmlText => rest == p
                 case XmlDeclaration => q == "<?" + rest
                 case XmlComment => q == "<!--" + rest
                 case XmlCData => q == "<![CDATA[" + rest
                 case XmlUnknown => q == "<!" + rest
                 case XmlElement => q == "<" + rest
               }
  {
    var q := SkipWhiteSpace(p);
    assert "<?" <= q ==> q[1] == '?';
    assert "<!" <= q ==> q[1] == '!';
    assert "<!--" <= q ==> q[1] == '!' && q[2] == '-';
    assert "<![CDATA[" <= q ==> q[1] == '!' && q[2] == '[';
  }

  datatype Closing = OPEN | CLOSED | CLOSING

  // What a node's own parser returns: a null pointer, possibly with no error set, or the node with
  // the end tag it has passed on.
  datatype NodeResult =
    | Null(error: XMLError)
    | NodeAt(node: Node, closing: Closing, endTag: string, rest: string)

  ghost function ParseValue(p: string, tag: string, f: Flags): (r: Parsed<string>)
    requires tag != ""
    ensures r.Parsed? ==> |r.rest| < |p|
  {
    var n := IndexOf(p, tag);
    if n == -1 then NotParsed else Parsed(CString(InPlace(p[..n], f)), p[n + |tag|..])
  }

  // Everything but elements.
  ghost function ParseLeaf(kind: Kind, p: string): (r: NodeResult)
    requires !kind.NoNode? && !kind.XmlElement?
    ensures r.NodeAt? ==> r.closing == OPEN && !r.node.Element? && |r.rest| < |p| + (if kind.XmlText? then 1 else 0)
  {
    match kind
    case XmlDeclaration =>
      var v := ParseValue(p, "?>", RAW);
      if v.NotParsed? then Null(PARSING_DECLARATION) else NodeAt(Declaration(v.value), OPEN, "", v.rest)
    case XmlComment =>
      var v := ParseValue(p, "-->", RAW);
      if v.NotParsed? then Null(PARSING_COMMENT) else NodeAt(Comment(v.value), OPEN, "", v.rest)
    case XmlCData =>
      var v := ParseValue(p, "]]>", RAW);
      if v.NotParsed? then Null(PARSING_CDATA) else NodeAt(Text(v.value, true), OPEN, "", v.rest)
    case XmlUnknown =>
      var v := ParseValue(p, ">", RAW);
      if v.NotParsed? then Null(PARSING_UNKNOWN) else NodeAt(Unknown(v.value), OPEN, "", v.rest)
    case XmlText =>
      // The '<' that ends a text is given back, unless it is the last character.
      var v := ParseValue(p, "<", TEXT_ELEMENT);
      if v.NotParsed? then Null(PARSING_TEXT)
      else if v.rest == "" then Null(NO_ERROR)
      else NodeAt(Text(v.value, false), OPEN, "", "<" + v.rest)
  }

  ghost predicate Mismatched(closing: Closing, endTag: string, name: string) {
    if endTag == "" then closing == OPEN else closing != OPEN || endTag != name
  }

  // Declarations come first, at the top of the document.
  predicate WellLocated(isDocument: bool, done: seq<Node>) {
    isDocument && (done == [] || (done[0].Declaration? && done[|done| - 1].Declaration?))
  }

  // What the loop over siblings ends with: the closing tag of the parent, the end of the text, or an error.
  datatype ListResult =
    | Closed(nodes: seq<Node>, endTag: string, rest: string)
    | AtEnd(nodes: seq<Node>)
    | ListError(error: XMLError)

  // p is behind the '<'.
  ghost function ParseElement(p: string, depth: nat): (r: NodeResult)
    ensures r.NodeAt? ==> r.node.Element? && |r.rest| < |p|
    decreases |p|, 0
  {
    var p0 := SkipWhiteSpace(p);
    var closing := p0 != "" && p0[0] == '/';
    var p1 := if closing then p0[1..] else p0;
    var name := Name(p1);
    if name == "" then Null(NO_ERROR)
    else
      var tag := ParseAttributes(p1[|name|..], []);
      if tag.TagError? then Null(tag.error)
      else if tag.rest == "" || tag.closed || closing then
        NodeAt(Element(name, tag.attributes, []), if tag.closed then CLOSED else if closing then CLOSING else OPEN, "", tag.rest)
      else
        match ParseDeep(tag.rest, depth, false)
        case Closed(children, endTag, rest) => NodeAt(Element(name, tag.attributes, children), OPEN, endTag, rest)
        case AtEnd(_) => Null(NO_ERROR)
        case ListError(e) => Null(e)
  }

  ghost function ParseDeep(p: string, depth: nat, isDocument: bool): (r: ListResult)
    ensures r.Closed? ==> |r.rest| < |p|
    decreases |p|, 2
  {
    if depth + 1 == MAX_ELEMENT_DEPTH then ListError(ELEMENT_DEPTH_EXCEEDED)
    else ParseNodes(p, depth + 1, isDocument, [])
  }

  ghost function ParseNode(p: string, depth: nat): (r: NodeResult)
    requires !Identify(p).0.NoNode?
    ensures r.NodeAt? ==> |r.rest| < |p|
    decreases |p|, 0
  {
    var (kind, q) := Identify(p);
    if kind.XmlElement? then ParseElement(q, depth) else ParseLeaf(kind, q)
  }

  ghost function ParseNodes(p: string, depth: nat, isDocument: bool, done: seq<Node>): (r: ListResult)
    ensures r.Closed? ==> |r.rest| < |p|
    decreases |p|, 1
  {
    if Identify(p).0.NoNode? then AtEnd(done)
    else
      match ParseNode(p, depth)
      case Null(e) => ListError(if e == NO_ERROR then PARSING else e)
      case NodeAt(node, closing, endTag, rest) =>
        if node.Declaration? && !WellLocated(isDocument, done) then ListError(PARSING_DECLARATION)
        else if node.Element? && closing == CLOSING then Closed(done, node.name, rest)
        else if node.Element? && Mismatched(closing, endTag, node.name) then ListError(MISMATCHED_ELEMENT)
        else ParseNodes(rest, depth, isDocument, done + [node])
  }

  // ---------------------------------------------------------------- documents

  const BOM := [0xef as char, 0xbb as char, 0xbf as char]

  datatype DocumentResult = Failed(error: XMLError) | Document(nodes: seq<Node>)

  // A stray closing tag at the top ends the document without an error.
  ghost function ParseDocument(text: string): DocumentResult {
    var p0 := SkipWhiteSpace(text);
    var p := if BOM <= p0 then p0[3..] else p0;
    if p == "" then Failed(EMPTY_DOCUMENT)
    else
      match ParseDeep(p, 0, true)
      case ListError(e) => Failed(e)
      case Closed(nodes, _, _) => Document(nodes)
      case AtEnd(nodes) => Document(nodes)
  }
}
