/**
 * The parser as the source runs it: loops over the text, an error field and a nesting counter in
 * the document, and null pointers for failure.  Each method does what its specification in
 * XmlParser says.
 */
module XmlDocument {
  import opened StrPair
  import opened XmlPrinter
  import opened XmlParser
  import XmlRoundTrip

  datatype Pointer = NullPtr | Ptr(text: string)

  // ---------------------------------------------------------------- tokens

  method SkipSpace(p: string) returns (q: string)
    ensures q == SkipWhiteSpace(p)
  {
    q := p;
    while q != "" && IsWhiteSpace(q[0])
      invariant SkipWhiteSpace(q) == SkipWhiteSpace(p)
      decreases |q|
    {
      q := q[1..];
    }
  }

  method ParseName(p: string) returns (name: string)
    ensures name == Name(p)
  {
    if p == "" || !IsNameStartChar(p[0]) {
      return "";
    }
    var n := 0;
    while n < |p| && IsNameChar(p[n])
      invariant 0 <= n <= |p|
      invariant n + NameLength(p[n..]) == NameLength(p)
    {
      assert p[n..][1..] == p[n + 1..];
      n := n + 1;
    }
    return p[..n];
  }

  method ParseText(p: string, tag: string) returns (n: int)
    requires tag != ""
    ensures n == IndexOf(p, tag)
  {
    hide IndexOf;
    n := 0;
    assert p[0..] == p;
    while n < |p|
      invariant 0 <= n <= |p|
      invariant IndexOf(p, tag) == if IndexOf(p[n..], tag) == -1 then -1 else n + IndexOf(p[n..], tag)
    {
      IndexOfStep(p[n..], tag);
      assert p[n..][0] == p[n] && p[n..][1..] == p[n + 1..];
      if p[n] == tag[0] && tag <= p[n..] {
        return;
      }
      n := n + 1;
    }
    IndexOfStep(p[n..], tag);
    return -1;
  }

  lemma {:induction false} IndexOfStep(s: string, tag: string)
    requires tag != ""
    ensures s == "" ==> IndexOf(s, tag) == -1
    ensures tag <= s ==> IndexOf(s, tag) == 0 && s[0] == tag[0]
    ensures s != "" && !(tag <= s) ==> IndexOf(s, tag) == if IndexOf(s[1..], tag) == -1 then -1 else IndexOf(s[1..], tag) + 1
  {
  }

  // The string of a pair, decoded in a buffer of its own; it ends at the first NUL, which a reference may have written.
  method Value(raw: string, f: Flags) returns (v: string)
    ensures v == CString(InPlace(raw, f))
  {
    var buffer := new char[|raw| + 1](i => if 0 <= i < |raw| then raw[i] else NUL);
    assert buffer[0..|raw|] == raw;
    ghost var q := GetStr(buffer, 0, |raw|, f);
    hide InPlace, CString;
    ghost var s := buffer[0..q];
    var n := 0;
    while buffer[n] != NUL
      invariant 0 <= n <= q && forall k | 0 <= k < n :: buffer[k] != NUL
      decreases q - n
    {
      n := n + 1;
    }
    v := buffer[0..n];
    assert v == s[..n];
    CStringEnds(s, n);
  }

  // ---------------------------------------------------------------- tags

  method AttributeParseDeep(p: string) returns (r: Parsed<Attribute>)
    ensures r == ParseAttribute(p)
  {
    hide InPlace, IndexOf, NameLength;
    var name := ParseName(p);
    var p1 := p[|name|..];
    if name == "" || p1 == "" {
      return NotParsed;
    }
    p1 := SkipSpace(p1);
    if p1 == "" || p1[0] != '=' {
      return NotParsed;
    }
    var p2 := SkipSpace(p1[1..]);
    if p2 == "" || (p2[0] != '\"' && p2[0] != '\'') {
      return NotParsed;
    }
    var n := ParseText(p2[1..], p2[..1]);
    if n == -1 {
      return NotParsed;
    }
    var v := Value(p2[1..][..n], TEXT_ELEMENT);
    return Parsed(Attribute(name, v), p2[n + 2..]);
  }

  method FindAttribute(attrs: seq<Attribute>, name: string) returns (found: bool)
    ensures found == HasName(attrs, name)
  {
    for i := 0 to |attrs|
      invariant forall k | 0 <= k < i :: attrs[k].name != name
    {
      if attrs[i].name == name {
        return true;
      }
    }
    return false;
  }

  method ParseTag(p: string) returns (r: Tag)
    ensures r == ParseAttributes(p, [])
  {
    hide ParseAttribute;
    var q, attrs: seq<Attribute> := p, [];
    while true
      invariant ParseAttributes(q, attrs) == ParseAttributes(p, [])
      decreases |q|
    {
      var q' := SkipSpace(q);
      if q' == "" {
        return TagError(PARSING_ELEMENT);
      }
      if IsNameStartChar(q'[0]) {
        var a := AttributeParseDeep(q');
        if a.NotParsed? {
          return TagError(PARSING_ATTRIBUTE);
        }
        var duplicate := FindAttribute(attrs, a.value.name);
        if duplicate {
          return TagError(PARSING_ATTRIBUTE);
        }
        q, attrs := a.rest, attrs + [a.value];
      } else if q'[0] == '>' {
        return Tag(attrs, false, q'[1..]);
      } else if q'[0] == '/' && At(q', 1) == '>' {
        return Tag(attrs, true, q'[2..]);
      } else {
        return TagError(PARSING_ELEMENT);
      }
    }
  }

  // ---------------------------------------------------------------- the document

  class XMLDocument {
    var errorID: XMLError
    var parsingDepth: nat
    var children: seq<Node>

    constructor ()
      ensures errorID == NO_ERROR && parsingDepth == 0 && children == []
    {
      errorID, parsingDepth, children := NO_ERROR, 0, [];
    }

    method PushDepth()
      modifies this`parsingDepth, this`errorID
      ensures parsingDepth == old(parsingDepth) + 1
      ensures errorID == if parsingDepth == MAX_ELEMENT_DEPTH then ELEMENT_DEPTH_EXCEEDED else old(errorID)
    {
      parsingDepth := parsingDepth + 1;
      if parsingDepth == MAX_ELEMENT_DEPTH {
        errorID := ELEMENT_DEPTH_EXCEEDED;
      }
    }

    ghost predicate NodeAnswers(r: NodeResult, node: Node, closing: Closing, endTag: string, p: Pointer)
      reads this
    {
      match r
      case Null(e) => p == NullPtr && errorID == e
      case NodeAt(n, c, t, rest) => errorID == NO_ERROR && node == n && closing == c && endTag == t && p == Ptr(rest)
    }

    ghost predicate ListAnswers(r: ListResult, nodes: seq<Node>, endTag: string, p: Pointer)
      reads this
    {
      match r
      case ListError(e) => p == NullPtr && errorID == e != NO_ERROR
      case AtEnd(ns) => p == NullPtr && errorID == NO_ERROR && nodes == ns
      case Closed(ns, t, rest) => p == Ptr(rest) && errorID == NO_ERROR && nodes == ns && endTag == t
    }

    method ParseMarked(q: string, tag: string, f: Flags, failure: XMLError) returns (v: string, p: Pointer)
      requires tag != ""
      modifies this`errorID
      ensures var r := ParseValue(q, tag, f);
              if r.NotParsed? then p == NullPtr && errorID == failure
              else v == r.value && p == Ptr(r.rest) && errorID == old(errorID)
    {
      hide InPlace, IndexOf;
      v := "";
      var n := ParseText(q, tag);
      if n == -1 {
        errorID := failure;
        return v, NullPtr;
      }
      v := Value(q[..n], f);
      return v, Ptr(q[n + |tag|..]);
    }

    method LeafParseDeep(kind: Kind, q: string) returns (node: Node, p: Pointer)
      requires !kind.NoNode? && !kind.XmlElement? && errorID == NO_ERROR
      modifies this`errorID
      ensures NodeAnswers(ParseLeaf(kind, q), node, OPEN, "", p)
    {
      hide ParseValue;
      var v;
      match kind {
        case XmlDeclaration =>
          v, p := ParseMarked(q, "?>", RAW, PARSING_DECLARATION);
          node := Declaration(v);
        case XmlComment =>
          v, p := ParseMarked(q, "-->", RAW, PARSING_COMMENT);
          node := Comment(v);
        case XmlCData =>
          v, p := ParseMarked(q, "]]>", RAW, PARSING_CDATA);
          node := Text(v, true);
        case XmlUnknown =>
          v, p := ParseMarked(q, ">", RAW, PARSING_UNKNOWN);
          node := Unknown(v);
        case XmlText =>
          v, p := ParseMarked(q, "<", TEXT_ELEMENT, PARSING_TEXT);
          node := Text(v, false);
          if p.Ptr? {
            p := if p.text != "" then Ptr("<" + p.text) else NullPtr;
          }
      }
    }

    method ElementParseDeep(q: string) returns (node: Node, closing: Closing, endTag: string, p: Pointer)
      requires errorID == NO_ERROR
      modifies this`errorID, this`parsingDepth
      ensures parsingDepth == old(parsingDepth)
      ensures NodeAnswers(ParseElement(q, parsingDepth), node, closing, endTag, p)
      decreases |q|, 0
    {
      hide ParseAttributes, ParseDeep, Name;
      closing, endTag, p := OPEN, "", NullPtr;
      var q0 := SkipSpace(q);
      if q0 != "" && q0[0] == '/' {
        closing := CLOSING;
        q0 := q0[1..];
      }
      var name := ParseName(q0);
      node := Element(name, [], []);
      if name == "" {
        return;
      }
      var tag := ParseTag(q0[|name|..]);
      if tag.TagError? {
        errorID := tag.error;
        TagErrorIsError(q0[|name|..], []);
        return;
      }
      node := Element(name, tag.attributes, []);
      if tag.closed {
        closing := CLOSED;
      }
      p := Ptr(tag.rest);
      if tag.rest == "" || closing != OPEN {
        return;
      }
      var nodes;
      nodes, endTag, p := NodesParseDeep(tag.rest, false);
      node := Element(name, tag.attributes, nodes);
    }

    static lemma {:induction false} TagErrorIsError(p: string, attrs: seq<Attribute>)
      ensures var r := ParseAttributes(p, attrs); r.TagError? ==> r.error != NO_ERROR
      decreases |p|
    {
      hide ParseAttribute;
      var q := SkipWhiteSpace(p);
      if q != "" && IsNameStartChar(q[0]) {
        var a := ParseAttribute(q);
        if a.Parsed? {
          TagErrorIsError(a.rest, attrs + [a.value]);
        }
      }
    }

    method NodeParseDeep(q: string) returns (node: Node, closing: Closing, endTag: string, p: Pointer)
      requires errorID == NO_ERROR && !Identify(q).0.NoNode?
      modifies this`errorID, this`parsingDepth
      ensures parsingDepth == old(parsingDepth)
      ensures NodeAnswers(ParseNode(q, parsingDepth), node, closing, endTag, p)
      decreases |q|, 1
    {
      hide ParseElement, ParseLeaf;
      var (kind, q') := Identify(q);
      closing, endTag := OPEN, "";
      if kind.XmlElement? {
        node, closing, endTag, p := ElementParseDeep(q');
      } else {
        node, p := LeafParseDeep(kind, q');
      }
    }

    // The loop over siblings; p is null at the end of the text and on errors.
    method NodesParseDeep(q: string, isDocument: bool) returns (nodes: seq<Node>, endTag: string, p: Pointer)
      requires errorID == NO_ERROR
      modifies this`errorID, this`parsingDepth
      ensures parsingDepth == old(parsingDepth)
      ensures ListAnswers(ParseDeep(q, parsingDepth, isDocument), nodes, endTag, p)
      decreases |q|, 3
    {
      nodes, endTag, p := [], "", NullPtr;
      PushDepth();
      if errorID == NO_ERROR {
        nodes, endTag, p := Siblings(q, isDocument);
      }
      parsingDepth := parsingDepth - 1;
    }

    method Siblings(q: string, isDocument: bool) returns (nodes: seq<Node>, endTag: string, p: Pointer)
      requires errorID == NO_ERROR
      modifies this`errorID, this`parsingDepth
      ensures parsingDepth == old(parsingDepth)
      ensures ListAnswers(ParseNodes(q, parsingDepth, isDocument, []), nodes, endTag, p)
      decreases |q|, 2
    {
      hide ParseNode, Identify;
      nodes, endTag, p := [], "", NullPtr;
      var rest := q;
      while !Identify(rest).0.NoNode?
        invariant |rest| <= |q| && parsingDepth == old(parsingDepth) && errorID == NO_ERROR && p == NullPtr
        invariant ParseNodes(rest, parsingDepth, isDocument, nodes) == ParseNodes(q, parsingDepth, isDocument, [])
        decreases |rest|
      {
        var node, closing, tag;
        var next;
        node, closing, tag, next := NodeParseDeep(rest);
        if next.NullPtr? {
          if errorID == NO_ERROR {
            errorID := PARSING;
          }
          return;
        }
        if node.Declaration? && !WellLocated(isDocument, nodes) {
          errorID := PARSING_DECLARATION;
          return;
        }
        if node.Element? {
          if closing == CLOSING {
            return nodes, node.name, next;
          }
          var mismatch := if tag == "" then closing == OPEN else closing != OPEN || tag != node.name;
          if mismatch {
            errorID := MISMATCHED_ELEMENT;
            return;
          }
        }
        nodes := nodes + [node];
        rest := next.text;
      }
    }

    // Parsing leaves the children, or an error and no children.
    method Parse(text: string)
      modifies this
      ensures parsingDepth == 0
      ensures match ParseDocument(text)
              case Failed(e) => errorID == e && children == []
              case Document(ns) => errorID == NO_ERROR && children == ns
    {
      hide ParseDeep;
      errorID, parsingDepth, children := NO_ERROR, 0, [];
      var p := SkipSpace(text);
      if BOM <= p {
        p := p[3..];
      }
      if p == "" {
        errorID := EMPTY_DOCUMENT;
        return;
      }
      var nodes, endTag, q := NodesParseDeep(p, true);
      if errorID == NO_ERROR {
        children := nodes;
      }
    }
  }

  // Printing a legal document with the printer and parsing it with the parser restores it.
  method PrintAndParse(ns: seq<Node>) returns (text: string, ns': seq<Node>, error: XMLError)
    requires XmlRoundTrip.LegalDocument(ns)
    ensures text == PrintAll(ns) && ns' == ns && error == NO_ERROR
  {
    hide PrintAll, ParseDocument, XmlRoundTrip.LegalDocument;
    var printer := new XMLPrinter();
    printer.AcceptAll(ns);
    text := printer.buffer;
    assert "" + PrintAll(ns) == PrintAll(ns);
    XmlRoundTrip.DocumentRoundTrip(ns);
    var document := new XMLDocument();
    document.Parse(text);
    return text, document.children, document.errorID;
  }
}
