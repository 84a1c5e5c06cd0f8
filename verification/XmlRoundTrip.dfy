/**
 * Parsing what the compact printer writes gives the printed tree back.
 */
module XmlRoundTrip {
  import opened StrPair
  import opened Entities
  import opened XmlPrinter
  import opened XmlParser

  // ---------------------------------------------------------------- which trees

  ghost predicate Clean(s: string) {
    CR !in s && NulFree(s)
  }

  ghost predicate LegalName(s: string) {
    s != "" && IsNameStartChar(s[0]) && forall k | 0 <= k < |s| :: IsNameChar(s[k])
  }

  ghost predicate Occurs(tag: string, s: string) {
    exists k: nat :: k + |tag| <= |s| && tag <= s[k..]
  }

  ghost predicate LegalAttributes(attrs: seq<Attribute>) {
    && (forall k | 0 <= k < |attrs| :: LegalName(attrs[k].name) && Clean(attrs[k].value))
    && (forall k, l | 0 <= k < l < |attrs| :: attrs[k].name != attrs[l].name)
  }

  predicate PlainText(n: Node) {
    n.Text? && !n.cdata
  }

  ghost predicate Legal(n: Node) {
    match n
    case Element(name, attrs, children) =>
      LegalName(name) && LegalAttributes(attrs) && AllLegal(children)
      && forall k | 0 <= k < |children| :: !children[k].Declaration?
    case Text(value, cdata) =>
      Clean(value) && if cdata then !Occurs("]]>", value) else exists k :: 0 <= k < |value| && !IsWhiteSpace(value[k])
    case Comment(value) => Clean(value) && !Occurs("-->", value)
    case Declaration(value) => Clean(value) && !Occurs("?>", value)
    case Unknown(value) => Clean(value) && '>' !in value && !("--" <= value) && !("[CDATA[" <= value)
  }

  // Legal siblings; two texts in a row would be read as one.
  ghost predicate AllLegal(ns: seq<Node>) {
    && (forall k | 0 <= k < |ns| :: Legal(ns[k]))
    && (forall k | 0 <= k < |ns| - 1 :: !(PlainText(ns[k]) && PlainText(ns[k + 1])))
  }

  function Max(x: nat, y: nat): nat {
    if x < y then y else x
  }

  // Elements with content open at the same time.
  function Height(n: Node): nat {
    if n.Element? && n.children != [] then 1 + HeightAll(n.children) else 0
  }

  function HeightAll(ns: seq<Node>): nat {
    if ns == [] then 0 else Max(Height(ns[0]), HeightAll(ns[1..]))
  }

  // ---------------------------------------------------------------- tokens

  lemma {:induction false} NameLengthIs(name: string, tail: string)
    requires forall k | 0 <= k < |name| :: IsNameChar(name[k])
    requires tail == "" || !IsNameChar(tail[0])
    ensures NameLength(name + tail) == |name|
  {
    if name == "" {
      assert name + tail == tail;
    } else {
      NameLengthIs(name[1..], tail);
      assert (name + tail)[1..] == name[1..] + tail;
    }
  }

  lemma {:induction false} NameIs(name: string, tail: string)
    requires LegalName(name)
    requires tail == "" || !IsNameChar(tail[0])
    ensures Name(name + tail) == name && (name + tail)[|name|..] == tail
  {
    NameLengthIs(name, tail);
  }

  lemma {:induction false} FirstIndex(v: string, tag: string, rest: string)
    requires tag != "" && forall k | 0 <= k < |v| :: !(tag <= (v + tag + rest)[k..])
    ensures IndexOf(v + tag + rest, tag) == |v|
  {
    var p := v + tag + rest;
    if v == "" {
      assert p == tag + rest;
    } else {
      assert p[0..] == p && !(tag <= p[0..]);
      assert p[1..] == v[1..] + tag + rest;
      forall k | 0 <= k < |v| - 1 ensures !(tag <= (v[1..] + tag + rest)[k..]) {
        assert (v[1..] + tag + rest)[k..] == p[k + 1..];
      }
      FirstIndex(v[1..], tag, rest);
    }
  }

  // A tag that ends in '>', and has no other, cannot begin inside a value that does not contain it.
  lemma {:induction false} TagAfterValue(v: string, tag: string, rest: string)
    requires 1 <= |tag| <= 3 && tag[|tag| - 1] == '>' && forall k | 0 <= k < |tag| - 1 :: tag[k] != '>'
    requires !Occurs(tag, v)
    ensures IndexOf(v + tag + rest, tag) == |v|
  {
    var p := v + tag + rest;
    forall k: nat | k < |v| ensures !(tag <= p[k..]) {
      var last := k + |tag| - 1;
      assert p[k..][|tag| - 1] == p[last];
      if last < |v| {
        assert p[k..][..|tag|] == v[k..][..|tag|];
        assert !(tag <= v[k..]);
      } else {
        assert p[last] == tag[last - |v|];
      }
    }
    FirstIndex(v, tag, rest);
  }

  lemma {:induction false} CharAfterValue(v: string, c: char, rest: string)
    requires c !in v
    ensures IndexOf(v + [c] + rest, [c]) == |v|
  {
    var p := v + [c] + rest;
    forall k | 0 <= k < |v| ensures !([c] <= p[k..]) {
      assert p[k..][0] == v[k];
    }
    FirstIndex(v, [c], rest);
  }

  lemma {:induction false} EscapeHides(s: string, restricted: bool)
    ensures '<' !in Escape(s, restricted)
    ensures !restricted ==> '\"' !in Escape(s, restricted)
  {
    if s != "" {
      EscapeHides(s[1..], restricted);
      var e := Escaped(s[0], restricted);
      assert '<' !in e && (!restricted ==> '\"' !in e);
    }
  }

  // Values that are not decoded lose nothing but their CRs.
  lemma {:induction false} RawIsKept(s: string)
    requires CR !in s
    ensures Decoded(s, RAW) == s && NoSkips(Steps(s, RAW))
  {
    if s != "" {
      assert StepAt(s, RAW) == Emit([s[0]], 1);
      RawIsKept(s[1..]);
    }
  }

  lemma {:induction false} RawInPlace(s: string)
    requires CR !in s
    ensures InPlace(s, RAW) == s
  {
    RawIsKept(s);
    NoSkipsNoHarm(s, Steps(s, RAW), 0, 0);
    InPlaceDecodesIff(s, RAW);
  }

  // ---------------------------------------------------------------- attributes

  lemma {:induction false} AttributeParses(a: Attribute, tail: string)
    requires LegalName(a.name) && Clean(a.value)
    ensures ParseAttribute(PrintAttribute(a)[1..] + tail) == Parsed(a, tail)
  {
    hide Escape, InPlace, CString, Decoded, NormalizeNewlines, IndexOf, Name, ParseAttribute, SkipWhiteSpace;
    var e := Escape(a.value, false);
    EscapeHides(a.value, false);
    RoundTripIff(a.value, false);
    var p3 := e + "\"" + tail;
    assert PrintAttribute(a)[1..] + tail == a.name + ("=\"" + p3);
    NameIs(a.name, "=\"" + p3);
    CharAfterValue(e, '\"', tail);
    AttributeFrom(a.name + ("=\"" + p3), a.name, p3);
    assert p3[..|e|] == e && p3[|e| + 1..] == tail;
  }

  lemma {:induction false} AttributeFrom(p: string, name: string, p3: string)
    requires Name(p) == name != "" && p[|name|..] == "=\"" + p3 && IndexOf(p3, "\"") >= 0
    ensures var n := IndexOf(p3, "\"");
            ParseAttribute(p) == Parsed(Attribute(name, CString(InPlace(p3[..n], TEXT_ELEMENT))), p3[n + 1..])
  {
    hide InPlace, CString, IndexOf, Name;
    var p1 := p[|name|..];
    assert p1[0] == '=' && p1[1] == '\"' && p1[1..][0] == '\"';
    assert p1[1..][..1] == "\"" && p1[1..][1..] == p3;
    var n := IndexOf(p3, "\"");
    assert p1[1..][n + 2..] == p3[n + 1..];
  }

  lemma {:induction false} AttributeShape(a: Attribute)
    requires LegalName(a.name)
    ensures var s := PrintAttribute(a); |s| >= 2 && s[0] == ' ' && s[1] == a.name[0]
  {
  }

  // Where a printed attribute starts, behind the space before it.
  lemma {:induction false} AttributeStart(a: Attribute, tail: string)
    requires LegalName(a.name)
    ensures var p := PrintAttribute(a) + tail;
            && SkipWhiteSpace(p) == PrintAttribute(a)[1..] + tail == p[1..] != ""
            && IsNameStartChar(p[1])
  {
    AttributeShape(a);
    var p := PrintAttribute(a) + tail;
    assert p[0] == ' ' && p[1] == a.name[0] && p[1..] == PrintAttribute(a)[1..] + tail;
    hide PrintAttribute;
    assert SkipWhiteSpace(p) == p[1..];
  }

  lemma {:induction false} AttributeStep(p: string, q: string, done: seq<Attribute>, a: Attribute, rest: string)
    requires SkipWhiteSpace(p) == q != "" && IsNameStartChar(q[0]) && |rest| < |q| <= |p|
    requires ParseAttribute(q) == Parsed(a, rest)
    ensures ParseAttributes(p, done) ==
            if HasName(done, a.name) then TagError(PARSING_ATTRIBUTE) else ParseAttributes(rest, done + [a])
  {
    hide ParseAttribute, SkipWhiteSpace, HasName;
  }

  lemma {:induction false} AttributesParse(attrs: seq<Attribute>, tail: string, done: seq<Attribute>)
    requires LegalAttributes(done + attrs)
    ensures ParseAttributes(PrintAttributes(attrs) + tail, done) == ParseAttributes(tail, done + attrs)
  {
    hide ParseAttribute, PrintAttribute, Escape;
    if attrs == [] {
      assert "" + tail == tail && done + [] == done;
    } else {
      var a, rest := attrs[0], PrintAttributes(attrs[1..]) + tail;
      var p := PrintAttributes(attrs) + tail;
      assert (done + attrs)[|done|] == a;
      assert p == PrintAttribute(a) + rest;
      AttributeStart(a, rest);
      AttributeParses(a, rest);
      AttributeStep(p, p[1..], done, a, rest);
      assert !HasName(done, a.name) by {
        forall k | 0 <= k < |done| ensures done[k].name != a.name {
          assert (done + attrs)[k] == done[k];
        }
      }
      assert done + [a] + attrs[1..] == done + attrs;
      AttributesParse(attrs[1..], tail, done + [a]);
    }
  }

  // ---------------------------------------------------------------- nodes other than elements

  ghost predicate ReadBack(n: Node, r: NodeResult, rest: string) {
    && r.NodeAt? && r.node == n && r.rest == rest
    && (n.Element? ==> r.closing != CLOSING && !Mismatched(r.closing, r.endTag, n.name))
  }

  // What must follow a text for it to end: markup, and not just its first character.
  ghost predicate Follows(n: Node, rest: string) {
    PlainText(n) ==> |rest| >= 2 && rest[0] == '<'
  }

  lemma {:induction false} ValueParses(v: string, tag: string, rest: string)
    requires Clean(v) && tag != "" && IndexOf(v + tag + rest, tag) == |v|
    ensures ParseValue(v + tag + rest, tag, RAW) == Parsed(v, rest)
  {
    hide InPlace, CString;
    RawInPlace(v);
    assert (v + tag + rest)[..|v|] == v && (v + tag + rest)[|v| + |tag|..] == rest;
  }

  lemma {:induction false} CommentParses(v: string, rest: string, depth: nat)
    requires Legal(Comment(v))
    ensures !Identify(Print(Comment(v)) + rest).0.NoNode?
    ensures ReadBack(Comment(v), ParseNode(Print(Comment(v)) + rest, depth), rest)
  {
    hide ParseValue, IndexOf, InPlace, ParseElement, ParseDeep;
    var p := Print(Comment(v)) + rest;
    TagAfterValue(v, "-->", rest);
    ValueParses(v, "-->", rest);
    assert p == "<!--" + (v + "-->" + rest) && p[4..] == v + "-->" + rest;
    assert p[0] == '<' && p[1] == '!';
  }

  lemma {:induction false} DeclarationParses(v: string, rest: string, depth: nat)
    requires Legal(Declaration(v))
    ensures !Identify(Print(Declaration(v)) + rest).0.NoNode?
    ensures ReadBack(Declaration(v), ParseNode(Print(Declaration(v)) + rest, depth), rest)
  {
    hide ParseValue, IndexOf, InPlace, ParseElement, ParseDeep;
    var p := Print(Declaration(v)) + rest;
    TagAfterValue(v, "?>", rest);
    ValueParses(v, "?>", rest);
    assert p == "<?" + (v + "?>" + rest) && p[2..] == v + "?>" + rest;
  }

  lemma {:induction false} CDataParses(v: string, rest: string, depth: nat)
    requires Legal(Text(v, true))
    ensures !Identify(Print(Text(v, true)) + rest).0.NoNode?
    ensures ReadBack(Text(v, true), ParseNode(Print(Text(v, true)) + rest, depth), rest)
  {
    hide ParseValue, IndexOf, InPlace, ParseElement, ParseDeep;
    var p := Print(Text(v, true)) + rest;
    TagAfterValue(v, "]]>", rest);
    ValueParses(v, "]]>", rest);
    assert p == "<![CDATA[" + (v + "]]>" + rest) && p[9..] == v + "]]>" + rest;
    assert p[0] == '<' && p[1] == '!' && p[2] == '[';
  }

  lemma {:induction false} UnknownParses(v: string, rest: string, depth: nat)
    requires Legal(Unknown(v))
    ensures !Identify(Print(Unknown(v)) + rest).0.NoNode?
    ensures ReadBack(Unknown(v), ParseNode(Print(Unknown(v)) + rest, depth), rest)
  {
    hide ParseValue, IndexOf, InPlace, ParseElement, ParseDeep;
    var p := Print(Unknown(v)) + rest;
    var q := v + ">" + rest;
    CharAfterValue(v, '>', rest);
    ValueParses(v, ">", rest);
    NotAPrefix("--", v, rest);
    NotAPrefix("[CDATA[", v, rest);
    IdentifyUnknown(q);
    assert p == "<!" + q;
  }

  lemma {:induction false} IdentifyUnknown(q: string)
    requires !("--" <= q) && !("[CDATA[" <= q)
    ensures Identify("<!" + q) == (XmlUnknown, q)
  {
    var p := "<!" + q;
    assert p[2..] == q && p[0] == '<' && p[1] == '!';
    NotBehind("<!", "--", q);
    NotBehind("<!", "[CDATA[", q);
    assert "<!--" == "<!" + "--" && "<![CDATA[" == "<!" + "[CDATA[";
  }

  lemma {:induction false} NotAPrefix(header: string, v: string, rest: string)
    requires !(header <= v) && '>' !in header
    ensures !(header <= v + ">" + rest)
  {
    var q := v + ">" + rest;
    if |header| <= |v| {
      assert q[..|header|] == v[..|header|];
    } else {
      assert q[|v|] == '>' != header[|v|];
    }
  }

  lemma {:induction false} NotBehind(h: string, t: string, q: string)
    requires !(t <= q)
    ensures !(h + t <= h + q)
  {
    if |t| <= |q| {
      var k :| 0 <= k < |t| && t[k] != q[k];
      assert (h + t)[|h| + k] == t[k] && (h + q)[|h| + k] == q[k];
    }
  }

  // Text starts, after its leading white space, with something that is not markup.
  lemma {:induction false} TextIsNotMarkup(v: string, k: nat, rest: string)
    requires k < |v| && !IsWhiteSpace(v[k])
    ensures var q := SkipWhiteSpace(Escape(v, true) + rest); q != "" && q[0] != '<'
  {
    var p := Escape(v, true) + rest;
    assert p == Escaped(v[0], true) + (Escape(v[1..], true) + rest);
    if IsWhiteSpace(v[0]) {
      assert p[0] == v[0] && p[1..] == Escape(v[1..], true) + rest;
      TextIsNotMarkup(v[1..], k - 1, rest);
    } else {
      assert p[0] == Escaped(v[0], true)[0];
    }
  }

  lemma {:induction false} TextParses(v: string, rest: string, depth: nat)
    requires Legal(Text(v, false)) && Follows(Text(v, false), rest)
    ensures !Identify(Print(Text(v, false)) + rest).0.NoNode?
    ensures ReadBack(Text(v, false), ParseNode(Print(Text(v, false)) + rest, depth), rest)
  {
    hide Escape, InPlace, CString, Decoded, NormalizeNewlines, IsWhiteSpace, IndexOf, ParseElement, SkipWhiteSpace;
    var e := Escape(v, true);
    var p := e + rest;
    var k :| 0 <= k < |v| && !IsWhiteSpace(v[k]);
    TextIsNotMarkup(v, k, rest);
    assert Identify(p) == (XmlText, p);
    EscapeHides(v, true);
    assert p == e + "<" + rest[1..];
    CharAfterValue(e, '<', rest[1..]);
    RoundTripIff(v, true);
    assert p[..|e|] == e && p[|e| + 1..] == rest[1..] && "<" + rest[1..] == rest;
  }

  // ---------------------------------------------------------------- elements

  lemma {:induction false} ClosingTagParses(name: string, rest: string, depth: nat)
    requires LegalName(name)
    ensures ParseElement("/" + name + ">" + rest, depth) == NodeAt(Element(name, [], []), CLOSING, "", rest)
  {
    hide Name, ParseDeep;
    var q := ">" + rest;
    var p := "/" + name + ">" + rest;
    assert p == "/" + (name + q) && p[1..] == name + q;
    NameIs(name, q);
    assert ParseAttributes(q, []) == Tag([], false, rest) by { assert q[1..] == rest; }
  }

  lemma {:induction false} ClosingTagCloses(name: string, rest: string, depth: nat, isDocument: bool, done: seq<Node>)
    requires LegalName(name)
    ensures ParseNodes("</" + name + ">" + rest, depth, isDocument, done) == Closed(done, name, rest)
  {
    hide ParseElement, Identify;
    var p := "</" + name + ">" + rest;
    assert p == "<" + ("/" + name + ">" + rest) && p[1..] == "/" + name + ">" + rest;
    assert p[0] == '<' && p[1] == '/';
    IdentifyElement(p);
    ClosingTagParses(name, rest, depth);
  }

  ghost predicate LocatedFrom(isDocument: bool, done: seq<Node>, ns: seq<Node>) {
    forall k | 0 <= k < |ns| :: ns[k].Declaration? ==> WellLocated(isDocument, done + ns[..k])
  }

  lemma {:induction false} NodeParses(n: Node, rest: string, depth: nat)
    requires Legal(n) && Follows(n, rest) && depth + Height(n) < MAX_ELEMENT_DEPTH
    ensures !Identify(Print(n) + rest).0.NoNode?
    ensures ReadBack(n, ParseNode(Print(n) + rest, depth), rest)
    decreases n, 1
  {
    hide Print, ParseNode, Identify;
    match n {
      case Element(name, attrs, children) => ElementParses(name, attrs, children, rest, depth);
      case Text(v, cdata) =>
        if cdata {
          CDataParses(v, rest, depth);
        } else {
          TextParses(v, rest, depth);
        }
      case Comment(v) => CommentParses(v, rest, depth);
      case Declaration(v) => DeclarationParses(v, rest, depth);
      case Unknown(v) => UnknownParses(v, rest, depth);
    }
  }

  lemma {:induction false} IdentifyElement(p: string)
    requires |p| >= 2 && p[0] == '<' && p[1] != '?' && p[1] != '!'
    ensures Identify(p) == (XmlElement, p[1..])
  {
  }

  lemma {:induction false} StartTag(name: string, attrs: seq<Attribute>, tail: string, depth: nat)
    requires LegalName(name) && LegalAttributes(attrs) && tail != "" && (tail[0] == '>' || tail[0] == '/')
    ensures var p := "<" + name + PrintAttributes(attrs) + tail;
            Identify(p) == (XmlElement, p[1..]) && ParseNode(p, depth) == ParseElement(p[1..], depth)
    ensures var p1 := ("<" + name + PrintAttributes(attrs) + tail)[1..];
            SkipWhiteSpace(p1) == p1 != "" && p1[0] != '/' && Name(p1) == name
            && ParseAttributes(p1[|name|..], []) == ParseAttributes(tail, attrs)
  {
    hide ParseAttributes, ParseElement, Name, PrintAttribute, ParseLeaf, LegalAttributes, Identify;
    var printed := PrintAttributes(attrs) + tail;
    var p := "<" + name + PrintAttributes(attrs) + tail;
    assert p == "<" + (name + printed) && p[1..] == name + printed;
    assert p[0] == '<' && p[1] == name[0];
    IdentifyElement(p);
    PrintedFirst(attrs, tail);
    NameIs(name, printed);
    AllAttributesParse(attrs, tail);
  }

  lemma {:induction false} PrintedFirst(attrs: seq<Attribute>, tail: string)
    requires LegalAttributes(attrs) && tail != ""
    ensures (PrintAttributes(attrs) + tail)[0] == if attrs == [] then tail[0] else ' '
  {
    if attrs != [] {
      AttributeShape(attrs[0]);
    }
  }

  lemma {:induction false} AllAttributesParse(attrs: seq<Attribute>, tail: string)
    requires LegalAttributes(attrs)
    ensures ParseAttributes(PrintAttributes(attrs) + tail, []) == ParseAttributes(tail, attrs)
  {
    assert [] + attrs == attrs;
    AttributesParse(attrs, tail, []);
  }

  lemma {:induction false} ElementParses(name: string, attrs: seq<Attribute>, children: seq<Node>, rest: string, depth: nat)
    requires Legal(Element(name, attrs, children)) && depth + Height(Element(name, attrs, children)) < MAX_ELEMENT_DEPTH
    ensures !Identify(Print(Element(name, attrs, children)) + rest).0.NoNode?
    ensures ReadBack(Element(name, attrs, children), ParseNode(Print(Element(name, attrs, children)) + rest, depth), rest)
    decreases children, 2
  {
    hide PrintAttributes, Identify, PrintAll, ParseNodes, ParseNode, ParseElement, ParseAttributes, LegalAttributes, Name;
    if children == [] {
      EmptyElementParses(name, attrs, rest, depth);
    } else {
      var p := Print(Element(name, attrs, children)) + rest;
      var close := "</" + name + ">" + rest;
      var inner := PrintAll(children) + close;
      var tail := ">" + inner;
      assert p == "<" + name + PrintAttributes(attrs) + tail;
      StartTag(name, attrs, tail, depth);
      NodesParse(children, close, depth + 1, false, []);
      assert [] + children == children;
      ClosingTagCloses(name, rest, depth + 1, false, children);
      OpenElement(p[1..], name, attrs, tail, inner, children, name, rest, depth);
    }
  }

  lemma {:induction false} EmptyElementParses(name: string, attrs: seq<Attribute>, rest: string, depth: nat)
    requires Legal(Element(name, attrs, []))
    ensures !Identify(Print(Element(name, attrs, [])) + rest).0.NoNode?
    ensures ReadBack(Element(name, attrs, []), ParseNode(Print(Element(name, attrs, [])) + rest, depth), rest)
  {
    hide PrintAttributes, Identify, PrintAll, ParseNodes, ParseNode, ParseElement, ParseAttributes, LegalAttributes, Name;
    var p, tail := Print(Element(name, attrs, [])) + rest, "/>" + rest;
    assert p == "<" + name + PrintAttributes(attrs) + tail;
    StartTag(name, attrs, tail, depth);
    EmptyElement(p[1..], name, attrs, tail, rest, depth);
  }

  lemma {:induction false} EmptyElement(p: string, name: string, attrs: seq<Attribute>, tail: string, rest: string, depth: nat)
    requires SkipWhiteSpace(p) == p != "" && p[0] != '/' && Name(p) == name != ""
    requires tail == "/>" + rest && ParseAttributes(p[|name|..], []) == ParseAttributes(tail, attrs)
    ensures ParseElement(p, depth) == NodeAt(Element(name, attrs, []), CLOSED, "", rest)
  {
    hide Name, ParseDeep, ParseAttribute;
    assert tail[0] == '/' && tail[1] == '>' && tail[2..] == rest;
    assert SkipWhiteSpace(tail) == tail;
  }

  lemma {:induction false} OpenElement(p: string, name: string, attrs: seq<Attribute>, tail: string, inner: string,
                                       children: seq<Node>, endTag: string, rest: string, depth: nat)
    requires SkipWhiteSpace(p) == p != "" && p[0] != '/' && Name(p) == name != ""
    requires tail == ">" + inner && inner != "" && ParseAttributes(p[|name|..], []) == ParseAttributes(tail, attrs)
    requires depth + 1 < MAX_ELEMENT_DEPTH && ParseNodes(inner, depth + 1, false, []) == Closed(children, endTag, rest)
    ensures ParseElement(p, depth) == NodeAt(Element(name, attrs, children), OPEN, endTag, rest)
  {
    hide Name, ParseNodes, ParseAttribute;
    assert tail[0] == '>' && tail[1..] == inner;
    assert SkipWhiteSpace(tail) == tail;
  }

  lemma {:induction false} NodesParse(ns: seq<Node>, rest: string, depth: nat, isDocument: bool, done: seq<Node>)
    requires AllLegal(ns) && LocatedFrom(isDocument, done, ns)
    requires ns != [] ==> Follows(ns[|ns| - 1], rest)
    requires depth + HeightAll(ns) < MAX_ELEMENT_DEPTH
    ensures ParseNodes(PrintAll(ns) + rest, depth, isDocument, done) == ParseNodes(rest, depth, isDocument, done + ns)
    decreases ns, 0
  {
    hide Print, ParseNode, Identify, Legal, Height, ParseElement;
    if ns == [] {
      assert "" + rest == rest && done + [] == done;
    } else {
      var n, rest' := ns[0], PrintAll(ns[1..]) + rest;
      assert Legal(n);
      FollowedByNext(ns, rest);
      NodeParses(n, rest', depth);
      assert PrintAll(ns) + rest == Print(n) + rest';
      assert n.Declaration? ==> WellLocated(isDocument, done) by { assert done + ns[..0] == done; }
      assert ParseNodes(Print(n) + rest', depth, isDocument, done) == ParseNodes(rest', depth, isDocument, done + [n]);
      RestOfNodes(isDocument, done, ns);
      NodesParse(ns[1..], rest, depth, isDocument, done + [n]);
      assert done + [n] + ns[1..] == done + ns;
    }
  }

  lemma {:induction false} RestOfNodes(isDocument: bool, done: seq<Node>, ns: seq<Node>)
    requires ns != [] && AllLegal(ns) && LocatedFrom(isDocument, done, ns)
    ensures AllLegal(ns[1..]) && LocatedFrom(isDocument, done + [ns[0]], ns[1..])
  {
    hide Legal;
    forall k | 0 <= k < |ns| - 1 && ns[1..][k].Declaration?
      ensures WellLocated(isDocument, done + [ns[0]] + ns[1..][..k])
    {
      assert ns[1..][k] == ns[k + 1];
      assert done + [ns[0]] + ns[1..][..k] == done + ns[..k + 1];
    }
    forall k | 0 <= k < |ns| - 1 ensures ns[1..][k] == ns[k + 1] {
    }
  }

  // A text is followed by the closing tag of its parent or by a sibling, which begins with markup.
  lemma {:induction false} FollowedByNext(ns: seq<Node>, rest: string)
    requires ns != [] && AllLegal(ns) && Follows(ns[|ns| - 1], rest)
    ensures Follows(ns[0], PrintAll(ns[1..]) + rest)
  {
    hide Legal;
    if |ns| == 1 {
      assert "" + rest == rest;
    } else if PlainText(ns[0]) {
      assert !PlainText(ns[0 + 1]);
      var s := Print(ns[1]);
      assert ns[1..][0] == ns[1];
      assert |s| >= 2 && s[0] == '<' by { MarkupBegins(ns[1]); }
    }
  }

  lemma {:induction false} MarkupBegins(n: Node)
    requires !PlainText(n)
    ensures |Print(n)| >= 2 && Print(n)[0] == '<'
  {
  }

  // ---------------------------------------------------------------- documents

  // At the top, neither the first nor the last node can be a text: its outer white space is skipped,
  // or its end is never found.
  ghost predicate LegalDocument(ns: seq<Node>) {
    && ns != [] && AllLegal(ns) && LocatedFrom(true, [], ns)
    && !PlainText(ns[0]) && !PlainText(ns[|ns| - 1])
    && 1 + HeightAll(ns) < MAX_ELEMENT_DEPTH
  }

  // The printed form of a legal document parses to that document.
  lemma {:induction false} DocumentRoundTrip(ns: seq<Node>)
    requires LegalDocument(ns)
    ensures ParseDocument(PrintAll(ns)) == Document(ns)
  {
    hide Print, PrintAll, ParseNode, ParseNodes, ParseDocument, Legal, AllLegal, LocatedFrom, HeightAll;
    var text := PrintAll(ns);
    PrintAllBegins(ns);
    NodesParse(ns, "", 1, true, []);
    assert text + "" == text && [] + ns == ns;
    NothingLeft(1, true, ns);
    DocumentOfMarkup(text);
  }

  lemma {:induction false} DocumentOfMarkup(text: string)
    requires text != "" && text[0] == '<' && ParseNodes(text, 1, true, []).AtEnd?
    ensures ParseDocument(text) == Document(ParseNodes(text, 1, true, []).nodes)
  {
    hide ParseNodes;
    assert SkipWhiteSpace(text) == text && !(BOM <= text);
    assert ParseDeep(text, 0, true) == ParseNodes(text, 1, true, []);
  }

  lemma {:induction false} PrintAllBegins(ns: seq<Node>)
    requires ns != [] && !PlainText(ns[0])
    ensures PrintAll(ns) != "" && PrintAll(ns)[0] == '<'
  {
    MarkupBegins(ns[0]);
  }

  lemma {:induction false} NothingLeft(depth: nat, isDocument: bool, done: seq<Node>)
    ensures ParseNodes("", depth, isDocument, done) == AtEnd(done)
  {
  }
}
