/**
 * What the parser reads and what it refuses, on texts written out and over alphabets written out.
 */
module XmlInputs {
  import opened StrPair
  import opened Entities
  import opened XmlPrinter
  import opened XmlParser
  import opened XmlRoundTrip

  // ---------------------------------------------------------------- names

  lemma {:induction false} NameIsLegal(p: string)
    ensures Name(p) == "" || LegalName(Name(p))
  {
    AllNameChars(p);
    if p != "" && IsNameStartChar(p[0]) {
      assert NameLength(p) == 1 + NameLength(p[1..]);
    }
  }

  lemma {:induction false} AllNameChars(p: string)
    ensures forall k | 0 <= k < NameLength(p) :: IsNameChar(p[k])
  {
    if p != "" && IsNameChar(p[0]) {
      AllNameChars(p[1..]);
      assert forall k | 0 < k < NameLength(p) :: p[k] == p[1..][k - 1];
    }
  }

  ghost predicate NamesLegal(ns: seq<Node>) {
    forall k | 0 <= k < |ns| :: ns[k].Element? ==> LegalName(ns[k].name)
  }

  lemma {:induction false} ElementNameLegal(p: string, depth: nat)
    ensures ParseElement(p, depth).NodeAt? ==> LegalName(ParseElement(p, depth).node.name)
  {
    hide Name, ParseAttributes, ParseDeep;
    var p0 := SkipWhiteSpace(p);
    NameIsLegal(if p0 != "" && p0[0] == '/' then p0[1..] else p0);
  }

  lemma {:induction false} NodesLegal(p: string, depth: nat, isDocument: bool, done: seq<Node>)
    requires NamesLegal(done)
    ensures var r := ParseNodes(p, depth, isDocument, done);
            (r.AtEnd? || r.Closed?) ==> NamesLegal(r.nodes)
    decreases |p|
  {
    hide ParseElement, ParseLeaf, Identify, LegalName;
    if !Identify(p).0.NoNode? && ParseNode(p, depth).NodeAt? {
      var q := Identify(p).1;
      if Identify(p).0.XmlElement? {
        ElementNameLegal(q, depth);
      }
      var r := ParseNode(p, depth);
      NodesLegal(r.rest, depth, isDocument, done + [r.node]);
    }
  }

  // The parser reads exactly these names: a letter, ':', '_' or a byte from 128 up, and after it also digits, '.' and '-'.
  lemma {:induction false} NameReadIff(s: string)
    ensures ParseDocument("<" + s + "/>") == Document([Element(s, [], [])]) <==>
            && s != ""
            && ('a' <= s[0] <= 'z' || 'A' <= s[0] <= 'Z' || s[0] == ':' || s[0] == '_' || s[0] as int >= 128)
            && forall k | 0 <= k < |s| ::
                 || 'a' <= s[k] <= 'z' || 'A' <= s[k] <= 'Z' || '0' <= s[k] <= '9'
                 || s[k] == ':' || s[k] == '_' || s[k] == '.' || s[k] == '-' || s[k] as int >= 128
  {
    LegalNameIs(s);
    ReadNameIsLegal(s);
    hide LegalName, ParseDocument, Print, PrintAll;
    if LegalName(s) {
      OneElement(s, [], []);
      assert "<" + s + "" + "/>" == "<" + s + "/>";
      LegalElement(s, [], []);
      DocumentRoundTrip([Element(s, [], [])]);
    }
  }

  lemma {:induction false} ReadNameIsLegal(s: string)
    ensures ParseDocument("<" + s + "/>") == Document([Element(s, [], [])]) ==> LegalName(s)
  {
    hide ParseDocument, LegalName;
    DocumentNamesLegal("<" + s + "/>");
    var ns := [Element(s, [], [])];
    assert NamesLegal(ns) ==> (ns[0].Element? ==> LegalName(ns[0].name));
  }

  lemma {:induction false} LegalNameIs(s: string)
    ensures LegalName(s) <==>
            && s != ""
            && ('a' <= s[0] <= 'z' || 'A' <= s[0] <= 'Z' || s[0] == ':' || s[0] == '_' || s[0] as int >= 128)
            && forall k | 0 <= k < |s| ::
                 || 'a' <= s[k] <= 'z' || 'A' <= s[k] <= 'Z' || '0' <= s[k] <= '9'
                 || s[k] == ':' || s[k] == '_' || s[k] == '.' || s[k] == '-' || s[k] as int >= 128
  {
  }

  lemma {:induction false} DocumentNamesLegal(text: string)
    ensures ParseDocument(text).Document? ==> NamesLegal(ParseDocument(text).nodes)
  {
    hide ParseNodes;
    var p0 := SkipWhiteSpace(text);
    var p := if BOM <= p0 then p0[3..] else p0;
    assert NamesLegal([]);
    NodesLegal(p, 1, true, []);
  }

  lemma {:induction false} OneElement(name: string, attrs: seq<Attribute>, children: seq<Node>)
    ensures PrintAll([Element(name, attrs, children)]) ==
            "<" + name + PrintAttributes(attrs) + if children == [] then "/>" else ">" + PrintAll(children) + "</" + name + ">"
  {
    var n := Element(name, attrs, children);
    assert PrintAll([n]) == Print(n) + "" == Print(n);
  }

  lemma {:induction false} LegalElement(name: string, attrs: seq<Attribute>, children: seq<Node>)
    requires LegalName(name) && LegalAttributes(attrs) && AllLegal(children) && HeightAll(children) < 98
    requires forall k | 0 <= k < |children| :: !children[k].Declaration?
    ensures LegalDocument([Element(name, attrs, children)])
  {
    hide LegalName, LegalAttributes, AllLegal;
    var n := Element(name, attrs, children);
    assert Legal(n);
    assert AllLegal([n]) by { OneIsLegal(n); }
    assert HeightAll([n]) == Max(Height(n), HeightAll([]));
  }

  lemma {:induction false} OneIsLegal(n: Node)
    requires Legal(n)
    ensures AllLegal([n])
  {
  }

  // ---------------------------------------------------------------- start and end tags

  // An element whose content ends at some end tag, at the top of a document.
  lemma {:induction false} ElementDocument(name: string, inner: string, children: seq<Node>, endTag: string)
    requires LegalName(name) && inner != "" && ParseNodes(inner, 2, false, []) == Closed(children, endTag, "") && endTag != ""
    ensures ParseDocument("<" + name + ">" + inner) ==
            if endTag == name then Document([Element(name, [], children)]) else Failed(MISMATCHED_ELEMENT)
  {
    hide ParseNodes, ParseNode, ParseDocument, Identify, LegalName;
    var text := "<" + name + ">" + inner;
    assert text == "<" + name + (">" + inner);
    BareElement(text, name, inner, children, endTag);
    AfterNode(text, Element(name, [], children), endTag);
  }

  lemma {:induction false} BareElement(text: string, name: string, inner: string, children: seq<Node>, endTag: string)
    requires text == "<" + name + (">" + inner) && LegalName(name) && inner != ""
    requires ParseNodes(inner, 2, false, []) == Closed(children, endTag, "")
    ensures !Identify(text).0.NoNode? && ParseNode(text, 1) == NodeAt(Element(name, [], children), OPEN, endTag, "")
    ensures text[0] == '<'
  {
    assert name != "";
    hide ParseNodes, ParseNode, ParseElement, ParseDeep, ParseAttributes, Name, Identify, LegalName;
    var tail := ">" + inner;
    BareTag(text, name, tail);
    OpenElement(text[1..], name, [], tail, inner, children, endTag, "", 1);
  }

  // A start tag without attributes.
  lemma {:induction false} BareTag(text: string, name: string, tail: string)
    requires text == "<" + name + tail && LegalName(name) && tail != "" && (tail[0] == '>' || tail[0] == '/')
    ensures !Identify(text).0.NoNode? && ParseNode(text, 1) == ParseElement(text[1..], 1)
    ensures var p := text[1..];
            SkipWhiteSpace(p) == p != "" && p[0] != '/' && Name(p) == name
            && ParseAttributes(p[|name|..], []) == ParseAttributes(tail, [])
  {
    hide ParseNode, ParseElement, ParseDeep, ParseAttributes, Name, Identify, LegalName;
    NoAttributes(name, tail);
    StartTag(name, [], tail, 1);
  }

  lemma {:induction false} NoAttributes(name: string, tail: string)
    ensures "<" + name + PrintAttributes([]) + tail == "<" + name + tail
    ensures LegalAttributes([])
  {
  }

  lemma {:induction false} AfterNode(text: string, e: Node, endTag: string)
    requires text != "" && text[0] == '<' && !Identify(text).0.NoNode? && e.Element? && endTag != ""
    requires ParseNode(text, 1) == NodeAt(e, OPEN, endTag, "")
    ensures ParseDocument(text) == if endTag == e.name then Document([e]) else Failed(MISMATCHED_ELEMENT)
  {
    hide ParseNode, Identify;
    NothingLeft(1, true, [e]);
    assert [] + [e] == [e];
    DocumentIs(text);
  }

  lemma {:induction false} DocumentIs(text: string)
    requires text != "" && text[0] == '<'
    ensures ParseDocument(text) ==
            match ParseNodes(text, 1, true, [])
            case ListError(e) => Failed(e)
            case Closed(nodes, _, _) => Document(nodes)
            case AtEnd(nodes) => Document(nodes)
  {
    hide ParseNodes;
    assert SkipWhiteSpace(text) == text && !(BOM <= text);
  }

  // An end tag must have the name of the start tag, and there must be one.
  lemma {:induction false} EndTagMatchesIff(a: string, b: string)
    requires LegalName(a) && LegalName(b)
    ensures ParseDocument("<" + a + ">" + "</" + b + ">") ==
            if a == b then Document([Element(a, [], [])]) else Failed(MISMATCHED_ELEMENT)
  {
    assert b != "";
    hide ParseDocument, LegalName;
    var inner := "</" + b + ">";
    assert "<" + a + ">" + "</" + b + ">" == "<" + a + ">" + inner;
    assert inner + "" == inner && "</" + b + ">" + "" == inner;
    ClosingTagCloses(b, "", 2, false, []);
    ElementDocument(a, inner, [], b);
  }

  lemma {:induction false} EndTagMissing(a: string)
    requires LegalName(a)
    ensures ParseDocument("<" + a + ">") == Failed(MISMATCHED_ELEMENT)
  {
    var text, tail := "<" + a + ">", ">";
    BareTag(text, a, tail);
    hide ParseNode, ParseDeep, Name, Identify, LegalName, PrintAttributes;
    assert SkipWhiteSpace(tail) == tail && tail[1..] == "";
    assert ParseAttributes(tail, []) == Tag([], false, "");
    assert ParseElement(text[1..], 1) == NodeAt(Element(a, [], []), OPEN, "", "");
    DocumentIs(text);
  }

  // ---------------------------------------------------------------- white space

  predicate Spaces(w: string) {
    forall k | 0 <= k < |w| :: w[k] == ' ' || w[k] == '\t' || w[k] == '\n' || w[k] == '\r' || w[k] as int == 11 || w[k] as int == 12
  }

  lemma {:induction false} SpacesAreSkipped(w: string, p: string)
    requires Spaces(w)
    ensures SkipWhiteSpace(w + p) == SkipWhiteSpace(p)
  {
    if w == "" {
      assert w + p == p;
    } else {
      SpacesAreSkipped(w[1..], p);
      assert (w + p)[0] == w[0] && (w + p)[1..] == w[1..] + p;
    }
  }

  lemma {:induction false} NotAllSpaces(w: string, p: string)
    requires !Spaces(w)
    ensures SkipWhiteSpace(w + p) != "" && SkipWhiteSpace(w + p)[0] in w && !IsWhiteSpace(SkipWhiteSpace(w + p)[0])
  {
    assert (w + p)[0] == w[0] && (w + p)[1..] == w[1..] + p;
    if IsWhiteSpace(w[0]) {
      var k :| 0 <= k < |w| && !IsWhiteSpace(w[k]);
      assert k > 0 && w[1..][k - 1] == w[k];
      assert !Spaces(w[1..]);
      NotAllSpaces(w[1..], p);
    }
  }

  // Between tags, white space is skipped and anything else is text.
  lemma {:induction false} BetweenTagsIff(a: string, w: string)
    requires LegalName(a) && '<' !in w
    ensures ParseDocument("<" + a + ">" + (w + "</" + a + ">")) == Document([Element(a, [], [])]) <==>
            forall k | 0 <= k < |w| :: w[k] in " \t\n\r" || w[k] as int == 11 || w[k] as int == 12
  {
    assert a != "";
    hide ParseDocument, LegalName;
    var end := "</" + a + ">";
    assert "<" + a + ">" + (w + "</" + a + ">") == "<" + a + ">" + (w + end);
    var inner := w + "</" + a + ">";
    assert inner == w + end && end + "" == end && "</" + a + ">" + "" == end;
    SpacesIs(w);
    if Spaces(w) {
      ClosingTagCloses(a, "", 2, false, []);
      SpacesBeforeMarkup(w, end);
      ElementDocument(a, inner, [], a);
    } else {
      var text := TextBeforeEnd(a, w);
      ElementDocument(a, inner, [text], a);
    }
  }

  lemma {:induction false} SpacesIs(w: string)
    ensures Spaces(w) <==> forall k | 0 <= k < |w| :: w[k] in " \t\n\r" || w[k] as int == 11 || w[k] as int == 12
  {
    assert forall c: char :: c in " \t\n\r" <==> c == ' ' || c == '\t' || c == '\n' || c == '\r';
  }

  lemma {:induction false} SpacesBeforeMarkup(w: string, p: string)
    requires Spaces(w) && p != "" && p[0] == '<'
    ensures ParseNodes(w + p, 2, false, []) == ParseNodes(p, 2, false, [])
  {
    hide ParseElement, ParseLeaf;
    SpacesAreSkipped(w, p);
    assert SkipWhiteSpace(p) == p && "<" <= p;
    assert Identify(w + p) == Identify(p) && !Identify(p).0.XmlText?;
  }

  lemma {:induction false} TextBeforeEnd(a: string, w: string) returns (text: Node)
    requires LegalName(a) && '<' !in w && !Spaces(w)
    ensures text.Text? && ParseNodes(w + "</" + a + ">", 2, false, []) == Closed([text], a, "")
  {
    hide LegalName, ParseNode, Identify, Spaces;
    var rest := "/" + a + ">";
    assert w + "</" + a + ">" == w + "<" + rest && "<" + rest == "</" + a + ">" == "</" + a + ">" + "";
    text := TextLeaf(w, rest, 2);
    ClosingTagCloses(a, "", 2, false, [text]);
    assert [] + [text] == [text];
  }

  lemma {:induction false} TextLeaf(w: string, rest: string, depth: nat) returns (text: Node)
    requires '<' !in w && !Spaces(w) && rest != ""
    ensures !Identify(w + "<" + rest).0.NoNode? && text.Text?
    ensures ParseNode(w + "<" + rest, depth) == NodeAt(text, OPEN, "", "<" + rest)
  {
    hide Identify, ParseLeaf, ParseElement, Spaces;
    ghost var tail := "<" + rest;
    assert w + "<" + rest == w + tail;
    IsText(w, tail);
    text := TextValue(w, rest);
    TextNode(w + tail, depth);
  }

  lemma {:induction false} TextNode(p: string, depth: nat)
    requires Identify(p) == (XmlText, p) && ParseLeaf(XmlText, p).NodeAt?
    ensures ParseNode(p, depth) == ParseLeaf(XmlText, p)
  {
    hide Identify, ParseLeaf, ParseElement;
  }

  lemma {:induction false} IsText(w: string, end: string)
    requires '<' !in w && !Spaces(w)
    ensures Identify(w + end) == (XmlText, w + end)
  {
    hide Spaces, SkipWhiteSpace;
    NotAllSpaces(w, end);
    assert SkipWhiteSpace(w + end)[0] != '<';
  }

  lemma {:induction false} TextValue(w: string, rest: string) returns (text: Node)
    requires '<' !in w && rest != ""
    ensures text.Text? && ParseLeaf(XmlText, w + "<" + rest) == NodeAt(text, OPEN, "", "<" + rest)
  {
    hide IndexOf, InPlace, CString;
    var p := w + "<" + rest;
    CharAfterValue(w, '<', rest);
    var n := IndexOf(p, "<");
    assert p[n + 1..] == rest;
    text := Text(CString(InPlace(p[..n], TEXT_ELEMENT)), false);
  }

  // ---------------------------------------------------------------- white space before an attribute

  // The document of one empty element with one attribute, with w between its name and the attribute.
  function WithGap(a: string, w: string, at: Attribute): string {
    "<" + (a + (w + (PrintAttribute(at)[1..] + "/>")))
  }

  // White space, at least one character of it, separates the two.  Of w it is only known that it has no character
  // of a name, no '/' and no '>', any of which would be read as part of the tag.
  lemma {:induction false} InTagIff(a: string, w: string, at: Attribute)
    requires LegalName(a) && LegalName(at.name) && Clean(at.value)
    requires forall c | c in w :: !IsNameChar(c) && c != '/' && c != '>'
    ensures ParseDocument(WithGap(a, w, at)) == Document([Element(a, [at], [])]) <==>
            && w != ""
            && forall k | 0 <= k < |w| :: w[k] in " \t\n\r" || w[k] as int == 11 || w[k] as int == 12
  {
    SpacesIs(w);
    hide ParseDocument, LegalName, WithGap, Spaces;
    if w == "" {
      NoGap(a, at);
      DocumentStart(WithGap(a, w, at));
    } else if Spaces(w) {
      Gap(a, w, at);
      ClosedElement(WithGap(a, w, at), Element(a, [at], []));
    } else {
      BadGap(a, w, at);
      DocumentStart(WithGap(a, w, at));
    }
  }

  lemma {:induction false} GapText(a: string, w: string, at: Attribute)
    requires LegalName(a)
    ensures var text := WithGap(a, w, at);
            && |text| >= 2 && text[0] == '<' && text[1..] == a + (w + (PrintAttribute(at)[1..] + "/>"))
            && Identify(text) == (XmlElement, text[1..]) && SkipWhiteSpace(text[1..]) == text[1..] && text[1] != '/'
  {
    assert |PrintAttribute(at)| > 0;
    hide PrintAttribute;
    var text := WithGap(a, w, at);
    assert text[1..] == a + (w + (PrintAttribute(at)[1..] + "/>"));
    assert text[1] == a[0];
    hide Identify;
    IdentifyElement(text);
  }

  lemma {:induction false} NoGap(a: string, at: Attribute)
    requires LegalName(a) && LegalName(at.name)
    ensures var text := WithGap(a, "", at);
            ParseNode(text, 1).NodeAt? ==> ParseNode(text, 1).node.Element? && ParseNode(text, 1).node.name != a
    ensures WithGap(a, "", at) != "" && WithGap(a, "", at)[0] == '<' && !Identify(WithGap(a, "", at)).0.NoNode?
  {
    hide Name, ParseAttributes, ParseDeep, Identify, WithGap, PrintAttribute, Escape, LegalName;
    var text, tail := WithGap(a, "", at), "=\"" + Escape(at.value, false) + "\"/>";
    GapText(a, "", at);
    JoinedName(a, at);
    assert text[1..] == (a + at.name) + tail;
    NameIs(a + at.name, tail);
  }

  lemma {:induction false} JoinedIsLegal(a: string, b: string)
    requires LegalName(a) && LegalName(b)
    ensures LegalName(a + b) && a + b != a
  {
    assert (a + b)[0] == a[0] && |a + b| > |a|;
    forall k | 0 <= k < |a + b| ensures IsNameChar((a + b)[k]) {
      assert (a + b)[k] == if k < |a| then a[k] else b[k - |a|];
    }
  }

  lemma {:induction false} JoinedName(a: string, at: Attribute)
    requires LegalName(a) && LegalName(at.name)
    ensures |PrintAttribute(at)| > 0 && LegalName(a + at.name) && a + at.name != a
    ensures a + ("" + (PrintAttribute(at)[1..] + "/>")) == (a + at.name) + ("=\"" + Escape(at.value, false) + "\"/>")
  {
    JoinedIsLegal(a, at.name);
    assert |PrintAttribute(at)| > 0;
    hide LegalName, Escape;
    ghost var e := Escape(at.value, false);
    assert PrintAttribute(at)[1..] == at.name + "=\"" + e + "\"";
  }

  lemma {:induction false} GapTag(a: string, w: string, at: Attribute)
    requires LegalName(a) && w != "" && !IsNameChar(w[0])
    ensures var text, tail := WithGap(a, w, at), w + (PrintAttribute(at)[1..] + "/>");
            && text != "" && text[0] == '<' && !Identify(text).0.NoNode?
            && ParseNode(text, 1) == ParseElement(text[1..], 1)
            && SkipWhiteSpace(text[1..]) == text[1..] != "" && text[1..][0] != '/'
            && Name(text[1..]) == a != "" && text[1..][|a|..] == tail
  {
    assert a != "";
    GapText(a, w, at);
    var tail := w + (PrintAttribute(at)[1..] + "/>");
    assert tail[0] == w[0];
    NameIs(a, tail);
  }

  lemma {:induction false} Gap(a: string, w: string, at: Attribute)
    requires LegalName(a) && LegalName(at.name) && Clean(at.value) && w != "" && Spaces(w)
    ensures var text := WithGap(a, w, at);
            && text != "" && text[0] == '<' && !Identify(text).0.NoNode?
            && ParseNode(text, 1) == NodeAt(Element(a, [at], []), CLOSED, "", "")
  {
    GapTag(a, w, at);
    var tail := "/>";
    var q := PrintAttribute(at)[1..] + tail;
    AttributeAlone(w, at);
    hide WithGap, PrintAttribute, ParseAttributes, Name, ParseDeep, Identify, ParseNode, LegalName, Clean, Spaces;
    assert ParseElement(WithGap(a, w, at)[1..], 1) == NodeAt(Element(a, [at], []), CLOSED, "", "");
  }

  lemma {:induction false} AttributeAlone(w: string, at: Attribute)
    requires LegalName(at.name) && Clean(at.value) && Spaces(w)
    ensures ParseAttributes(w + (PrintAttribute(at)[1..] + "/>"), []) == Tag([at], true, "")
  {
    hide ParseAttribute, PrintAttribute, Clean, LegalName, Spaces, ParseAttributes, HasName;
    AttributeShape(at);
    var q := PrintAttribute(at)[1..] + "/>";
    AttributeParses(at, "/>");
    AttributeStart(at, "/>");
    SpacesAreSkipped(w, q);
    assert SkipWhiteSpace(q) == q;
    hide SkipWhiteSpace, IsNameStartChar;
    AttributeStep(w + q, q, [], at, "/>");
    NothingMore([at]);
    assert [] + [at] == [at] && !HasName([], at.name) by { NoNames(at.name); }
  }

  lemma {:induction false} NothingMore(attrs: seq<Attribute>)
    ensures ParseAttributes("/>", attrs) == Tag(attrs, true, "")
  {
    assert SkipWhiteSpace("/>") == "/>" && "/>"[2..] == "";
  }

  lemma {:induction false} NoNames(name: string)
    ensures !HasName([], name)
  {
  }

  lemma {:induction false} BadGap(a: string, w: string, at: Attribute)
    requires LegalName(a) && w != "" && !Spaces(w)
    requires forall c | c in w :: !IsNameChar(c) && c != '/' && c != '>'
    ensures var text := WithGap(a, w, at);
            && text != "" && text[0] == '<' && !Identify(text).0.NoNode?
            && ParseNode(text, 1) == Null(PARSING_ELEMENT)
  {
    GapTag(a, w, at);
    var rest := PrintAttribute(at)[1..] + "/>";
    NotAllSpaces(w, rest);
    var r := SkipWhiteSpace(w + rest);
    assert r[0] in w;
    hide WithGap, PrintAttribute, ParseAttribute, Name, ParseDeep, Identify, ParseNode, LegalName, Spaces, SkipWhiteSpace;
    assert ParseAttributes(w + rest, []) == TagError(PARSING_ELEMENT);
    assert ParseElement(WithGap(a, w, at)[1..], 1) == Null(PARSING_ELEMENT);
  }

  lemma {:induction false} ClosedElement(text: string, e: Node)
    requires text != "" && text[0] == '<' && !Identify(text).0.NoNode? && e.Element?
    requires ParseNode(text, 1) == NodeAt(e, CLOSED, "", "")
    ensures ParseDocument(text) == Document([e])
  {
    hide ParseNode, Identify;
    NothingLeft(1, true, [e]);
    assert [] + [e] == [e];
    DocumentIs(text);
  }

  // A document begins with its first node.
  lemma {:induction false} DocumentStart(text: string)
    requires text != "" && text[0] == '<' && !Identify(text).0.NoNode?
    ensures ParseDocument(text).Document? && ParseDocument(text).nodes != [] ==>
              ParseNode(text, 1).NodeAt? && ParseDocument(text).nodes[0] == ParseNode(text, 1).node
  {
    hide ParseNode, Identify;
    DocumentIs(text);
    if ParseNode(text, 1).NodeAt? {
      var r := ParseNode(text, 1);
      NodesGrow(r.rest, 1, true, [] + [r.node]);
    }
  }

  lemma {:induction false} NodesGrow(p: string, depth: nat, isDocument: bool, done: seq<Node>)
    ensures var r := ParseNodes(p, depth, isDocument, done);
            (r.AtEnd? || r.Closed?) ==> done <= r.nodes
    decreases |p|
  {
    hide ParseElement, ParseLeaf, Identify;
    if !Identify(p).0.NoNode? && ParseNode(p, depth).NodeAt? {
      var r := ParseNode(p, depth);
      NodesGrow(r.rest, depth, isDocument, done + [r.node]);
    }
  }

  // ---------------------------------------------------------------- attributes, in either quotes

  // Behind its name, and with white space around it if need be, an equals sign, and then a value in double quotes or
  // in single ones, which may have the other kind in it.
  function AttributeText(name: string, w1: string, w2: string, q: char, v: string, tail: string): string {
    name + (w1 + ("=" + (w2 + ([q] + (v + [q] + tail)))))
  }

  lemma {:induction false} AttributeReads(name: string, w1: string, w2: string, q: char, v: string, tail: string)
    requires LegalName(name) && Spaces(w1) && Spaces(w2) && (q == '\"' || q == '\'') && q !in v
    ensures ParseAttribute(AttributeText(name, w1, w2, q, v, tail)) ==
            Parsed(Attribute(name, CString(InPlace(v, Flags(true, true)))), tail)
  {
    ghost var p2 := [q] + (v + [q] + tail);
    ghost var p1 := "=" + (w2 + p2);
    assert w1 + p1 != "" && !IsNameChar((w1 + p1)[0]);
    assert name != "";
    NameIs(name, w1 + p1);
    CharAfterValue(v, q, tail);
    hide InPlace, CString, IndexOf, Name, LegalName, Spaces;
    SpacesAreSkipped(w1, p1);
    SpacesAreSkipped(w2, p2);
    assert SkipWhiteSpace(p1) == p1 && SkipWhiteSpace(p2) == p2;
    hide SkipWhiteSpace, ParseAttribute;
    assert p1[1..] == w2 + p2;
    AttributeOfParts(name + (w1 + p1), name, p1, q, v, tail);
  }

  lemma {:induction false} AttributeOfParts(p: string, name: string, p1: string, q: char, v: string, tail: string)
    requires Name(p) == name != "" && p[|name|..] != "" && SkipWhiteSpace(p[|name|..]) == p1 != "" && p1[0] == '='
    requires SkipWhiteSpace(p1[1..]) == [q] + (v + [q] + tail) && (q == '\"' || q == '\'')
    requires IndexOf(v + [q] + tail, [q]) == |v|
    ensures ParseAttribute(p) == Parsed(Attribute(name, CString(InPlace(v, Flags(true, true)))), tail)
  {
    hide InPlace, CString, IndexOf, Name, SkipWhiteSpace;
    var p3 := v + [q] + tail;
    var p2 := [q] + p3;
    assert p2[1..] == p3 && p2[..1] == [q];
    assert p3[..|v|] == v && p2[|v| + 2..] == tail;
  }

  // And nothing else is read as one.
  lemma {:induction false} AttributeReadsOnly(p: string) returns (w1: string, w2: string, q: char, v: string, tail: string)
    requires ParseAttribute(p).Parsed?
    ensures p == AttributeText(Name(p), w1, w2, q, v, tail)
    ensures LegalName(Name(p)) && Spaces(w1) && Spaces(w2) && (q == '\"' || q == '\'') && q !in v
  {
    AttributeParts(p);
    hide ParseAttribute, Name, LegalName, IndexOf, SkipWhiteSpace, Spaces;
    ghost var p0 := p[|Name(p)|..];
    assert p == Name(p) + p0;
    w1 := SpacesBefore(p0);
    w2, q, v, tail := EqualsAndValue(SkipWhiteSpace(p0));
  }

  lemma {:induction false} EqualsAndValue(p1: string) returns (w2: string, q: char, v: string, tail: string)
    requires p1 != "" && p1[0] == '='
    requires var p2 := SkipWhiteSpace(p1[1..]);
             p2 != "" && (p2[0] == '\"' || p2[0] == '\'') && IndexOf(p2[1..], p2[..1]) != -1
    ensures p1 == "=" + (w2 + ([q] + (v + [q] + tail)))
    ensures Spaces(w2) && (q == '\"' || q == '\'') && q !in v
  {
    hide IndexOf, SkipWhiteSpace, Spaces;
    w2 := SpacesBefore(p1[1..]);
    var p2 := SkipWhiteSpace(p1[1..]);
    q := p2[0];
    assert p2[..1] == [q];
    v, tail := ValueBefore(p2[1..], q);
    assert p2 == [q] + (v + [q] + tail);
    assert p1 == "=" + (w2 + p2);
  }

  lemma {:induction false} AttributeParts(p: string)
    requires ParseAttribute(p).Parsed?
    ensures var p1 := SkipWhiteSpace(p[|Name(p)|..]);
            && LegalName(Name(p)) && p1 != "" && p1[0] == '='
            && var p2 := SkipWhiteSpace(p1[1..]);
               p2 != "" && (p2[0] == '\"' || p2[0] == '\'') && IndexOf(p2[1..], p2[..1]) != -1
  {
    NameIsLegal(p);
    hide InPlace, CString, Name, LegalName, IndexOf, SkipWhiteSpace;
  }

  lemma {:induction false} SpacesBefore(p: string) returns (w: string)
    ensures Spaces(w) && p == w + SkipWhiteSpace(p)
  {
    SkipsOnlySpace(p);
    w := p[..|p| - |SkipWhiteSpace(p)|];
  }

  lemma {:induction false} ValueBefore(p: string, q: char) returns (v: string, tail: string)
    requires IndexOf(p, [q]) != -1
    ensures q !in v && p == v + [q] + tail
  {
    IndexOfIsFirst(p, [q]);
    var n := IndexOf(p, [q]);
    v, tail := p[..n], p[n + 1..];
    assert p[n..][0] == q;
    hide IndexOf;
    forall k | 0 <= k < n ensures p[k] != q {
      assert p[k..][0] == p[k];
    }
  }

  // ---------------------------------------------------------------- how values are decoded

  // Comments, CDATA sections, declarations and unknowns have their line ends normalised and nothing else decoded.
  lemma {:induction false} ValuesOfMarkup(v: string, rest: string, depth: nat)
    ensures !Occurs("-->", v) ==> Reads("<!--" + (v + "-->" + rest), depth, Comment(CString(InPlace(v, Flags(false, true)))), rest)
    ensures !Occurs("]]>", v) ==> Reads("<![CDATA[" + (v + "]]>" + rest), depth, Text(CString(InPlace(v, Flags(false, true))), true), rest)
    ensures !Occurs("?>", v) ==> Reads("<?" + (v + "?>" + rest), depth, Declaration(CString(InPlace(v, Flags(false, true)))), rest)
    ensures '>' !in v && !("--" <= v) && !("[CDATA[" <= v) ==>
              Reads("<!" + (v + ">" + rest), depth, Unknown(CString(InPlace(v, Flags(false, true)))), rest)
  {
    hide Reads, InPlace, CString, Occurs;
    if !Occurs("-->", v) {
      TagAfterValue(v, "-->", rest);
      ValueOfMarkup("<!--", v, "-->", rest, XmlComment, depth);
    }
    if !Occurs("]]>", v) {
      TagAfterValue(v, "]]>", rest);
      ValueOfMarkup("<![CDATA[", v, "]]>", rest, XmlCData, depth);
    }
    if !Occurs("?>", v) {
      TagAfterValue(v, "?>", rest);
      ValueOfMarkup("<?", v, "?>", rest, XmlDeclaration, depth);
    }
    if '>' !in v && !("--" <= v) && !("[CDATA[" <= v) {
      CharAfterValue(v, '>', rest);
      NotAPrefix("--", v, rest);
      NotAPrefix("[CDATA[", v, rest);
      ValueOfMarkup("<!", v, ">", rest, XmlUnknown, depth);
    }
  }

  ghost predicate Reads(p: string, depth: nat, n: Node, rest: string) {
    !Identify(p).0.NoNode? && ParseNode(p, depth) == NodeAt(n, OPEN, "", rest)
  }

  lemma {:induction false} ValueOfMarkup(markup: string, v: string, tag: string, rest: string, kind: Kind, depth: nat)
    requires var p := v + tag + rest;
             match kind
             case XmlComment => markup == "<!--" && tag == "-->"
             case XmlCData => markup == "<![CDATA[" && tag == "]]>"
             case XmlDeclaration => markup == "<?" && tag == "?>"
             case XmlUnknown => markup == "<!" && tag == ">" && !("--" <= p) && !("[CDATA[" <= p)
             case _ => false
    requires IndexOf(v + tag + rest, tag) == |v|
    ensures var value := CString(InPlace(v, Flags(false, true)));
            var n := if kind.XmlComment? then Comment(value) else if kind.XmlCData? then Text(value, true)
                     else if kind.XmlDeclaration? then Declaration(value) else Unknown(value);
            Reads(markup + (v + tag + rest), depth, n, rest)
  {
    hide IndexOf, ParseElement, InPlace, CString;
    var p := v + tag + rest;
    MarkupIs(markup, p, kind);
    assert p[..|v|] == v && p[|v| + |tag|..] == rest;
    hide Identify;
  }

  // There the line ends become a line feed each, and an ampersand is an ampersand.
  lemma {:induction false} RawStep(c: char, rest: string)
    ensures c != '\r' && c != '\n' ==> StepAt([c] + rest, Flags(false, true)) == Emit([c], 1)
    ensures StepAt("\r\n" + rest, Flags(false, true)) == StepAt("\n\r" + rest, Flags(false, true)) == Emit("\n", 2)
    ensures c != '\n' ==> StepAt("\r" + [c] + rest, Flags(false, true)) == Emit("\n", 1)
    ensures c != '\r' ==> StepAt("\n" + [c] + rest, Flags(false, true)) == Emit("\n", 1)
    ensures StepAt("\r", Flags(false, true)) == StepAt("\n", Flags(false, true)) == Emit("\n", 1)
  {
  }

  // ---------------------------------------------------------------- the start of a document

  // White space and the byte order mark are passed over.
  lemma {:induction false} StartsAtMarkup(w: string, text: string)
    requires Spaces(w) && text != "" && text[0] == '<'
    ensures ParseDocument(w + text) == ParseDocument(text)
    ensures ParseDocument(w + ([0xef as char, 0xbb as char, 0xbf as char] + text)) == ParseDocument(text)
  {
    hide ParseDeep, Spaces;
    var mark := [0xef as char, 0xbb as char, 0xbf as char];
    SpacesAreSkipped(w, text);
    SpacesAreSkipped(w, mark + text);
    assert SkipWhiteSpace(text) == text && !(BOM <= text);
    assert SkipWhiteSpace(mark + text) == mark + text && (mark + text)[3..] == text;
  }

  lemma {:induction false} EmptyDocument(w: string)
    requires Spaces(w)
    ensures ParseDocument(w) == ParseDocument(w + [0xef as char, 0xbb as char, 0xbf as char]) == Failed(EMPTY_DOCUMENT)
  {
    hide Spaces, ParseDeep;
    var mark := [0xef as char, 0xbb as char, 0xbf as char];
    SpacesAreSkipped(w, "");
    SpacesAreSkipped(w, mark);
    assert w + "" == w && SkipWhiteSpace(mark) == mark && mark[3..] == "";
  }

  // ---------------------------------------------------------------- where declarations may stand

  // Behind any other node, or inside an element, a declaration is an error.
  lemma {:induction false} DeclarationBehind(n: Node, x: string)
    requires Legal(n) && !n.Declaration? && !PlainText(n) && Height(n) < 99 && !Occurs("?>", x)
    ensures ParseDocument(Print(n) + ("<?" + (x + "?>" + ""))) == Failed(PARSING_DECLARATION)
  {
    var rest := "<?" + (x + "?>" + "");
    NodeParses(n, rest, 1);
    ValuesOfMarkup(x, "", 1);
    PrintBegins(n);
    var text := Print(n) + rest;
    hide Print, ParseNode, Identify, Legal, Height, InPlace, CString, Occurs;
    DocumentIs(text);
    assert [] + [n] == [n];
    Misplaced(rest, 1, true, [n]);
  }

  lemma {:induction false} PrintBegins(n: Node)
    requires !PlainText(n)
    ensures Print(n) != "" && Print(n)[0] == '<'
  {
  }

  lemma {:induction false} Misplaced(p: string, depth: nat, isDocument: bool, done: seq<Node>)
    requires !Identify(p).0.NoNode? && ParseNode(p, depth).NodeAt? && ParseNode(p, depth).node.Declaration?
    requires !isDocument || (done != [] && (!done[0].Declaration? || !done[|done| - 1].Declaration?))
    ensures ParseNodes(p, depth, isDocument, done) == ListError(PARSING_DECLARATION)
  {
    hide Identify, ParseNode;
  }

  lemma {:induction false} DeclarationInside(a: string, x: string)
    requires LegalName(a) && !Occurs("?>", x)
    ensures ParseDocument("<" + a + ">" + ("<?" + (x + "?>" + ("</" + a + ">")))) == Failed(PARSING_DECLARATION)
  {
    var rest := "</" + a + ">";
    var inner := "<?" + (x + "?>" + rest);
    ValuesOfMarkup(x, rest, 2);
    hide ParseNode, Identify, LegalName, InPlace, CString, Occurs, ParseDocument;
    Misplaced(inner, 2, false, []);
    ContentFails(a, inner, PARSING_DECLARATION);
  }

  lemma {:induction false} ContentFails(a: string, inner: string, e: XMLError)
    requires LegalName(a) && inner != "" && ParseNodes(inner, 2, false, []) == ListError(e) && e != NO_ERROR
    ensures ParseDocument("<" + a + ">" + inner) == Failed(e)
  {
    var text, tail := "<" + a + ">" + inner, ">" + inner;
    assert text == "<" + a + tail;
    BareTag(text, a, tail);
    assert a != "" && SkipWhiteSpace(tail) == tail && tail[1..] == inner;
    hide ParseNode, Name, Identify, LegalName, ParseNodes, ParseDocument;
    assert ParseAttributes(tail, []) == Tag([], false, inner);
    hide ParseAttributes;
    assert ParseDeep(inner, 1, false) == ListError(e);
    hide ParseDeep;
    assert ParseElement(text[1..], 1) == Null(e);
    NullNode(text, e);
  }

  lemma {:induction false} NullNode(text: string, e: XMLError)
    requires text != "" && text[0] == '<' && !Identify(text).0.NoNode? && ParseNode(text, 1) == Null(e)
    ensures ParseDocument(text) == Failed(if e == NO_ERROR then PARSING else e)
  {
    hide Identify, ParseNode;
    DocumentIs(text);
  }

  // ---------------------------------------------------------------- errors

  // An attribute that is there already.
  lemma {:induction false} DuplicateRefused(done: seq<Attribute>, at: Attribute, tail: string)
    requires LegalName(at.name) && Clean(at.value) && exists k :: 0 <= k < |done| && done[k].name == at.name
    ensures ParseAttributes(PrintAttribute(at) + tail, done) == TagError(PARSING_ATTRIBUTE)
  {
    hide PrintAttribute, ParseAttribute, ParseAttributes, SkipWhiteSpace, LegalName, Clean, IsNameStartChar;
    AttributeStart(at, tail);
    AttributeParses(at, tail);
    var p := PrintAttribute(at) + tail;
    AttributeStep(p, p[1..], done, at, tail);
  }

  // Markup that does not end.
  lemma {:induction false} Unclosed(v: string)
    ensures IndexOf(v, "-->") == -1 ==> ParseDocument("<!--" + v) == Failed(PARSING_COMMENT)
    ensures IndexOf(v, "]]>") == -1 ==> ParseDocument("<![CDATA[" + v) == Failed(PARSING_CDATA)
    ensures IndexOf(v, "?>") == -1 ==> ParseDocument("<?" + v) == Failed(PARSING_DECLARATION)
    ensures IndexOf(v, ">") == -1 && !("--" <= v) && !("[CDATA[" <= v) ==> ParseDocument("<!" + v) == Failed(PARSING_UNKNOWN)
  {
    hide ParseDocument, IndexOf;
    UnclosedMarkup("<!--", v, XmlComment);
    UnclosedMarkup("<![CDATA[", v, XmlCData);
    UnclosedMarkup("<?", v, XmlDeclaration);
    if !("--" <= v) && !("[CDATA[" <= v) {
      UnclosedMarkup("<!", v, XmlUnknown);
    }
  }

  lemma {:induction false} UnclosedMarkup(markup: string, v: string, kind: Kind)
    requires match kind
             case XmlComment => markup == "<!--"
             case XmlCData => markup == "<![CDATA["
             case XmlDeclaration => markup == "<?"
             case XmlUnknown => markup == "<!" && !("--" <= v) && !("[CDATA[" <= v)
             case _ => false
    ensures var (tag, error) := if kind.XmlComment? then ("-->", PARSING_COMMENT) else if kind.XmlCData? then ("]]>", PARSING_CDATA)
                                else if kind.XmlDeclaration? then ("?>", PARSING_DECLARATION) else (">", PARSING_UNKNOWN);
            IndexOf(v, tag) == -1 ==> ParseDocument(markup + v) == Failed(error)
  {
    hide IndexOf, ParseElement, InPlace, CString;
    var text := markup + v;
    MarkupIs(markup, v, kind);
    DocumentIs(text);
    hide Identify;
  }

  lemma {:induction false} MarkupIs(markup: string, v: string, kind: Kind)
    requires match kind
             case XmlComment => markup == "<!--"
             case XmlCData => markup == "<![CDATA["
             case XmlDeclaration => markup == "<?"
             case XmlUnknown => markup == "<!" && !("--" <= v) && !("[CDATA[" <= v)
             case _ => false
    ensures Identify(markup + v) == (kind, v) && markup + v != "" && (markup + v)[0] == '<'
  {
    var text := markup + v;
    IdentifiedByMarkup(text);
    assert text[|markup|..] == v;
    assert SkipWhiteSpace(text) == text;
    if kind.XmlUnknown? {
      IdentifyUnknown(v);
    }
  }

  // At the hundredth level the parser gives up, and not before.
  lemma {:induction false} DepthLimit(p: string, depth: nat, isDocument: bool)
    ensures ParseDeep(p, 99, isDocument) == ListError(ELEMENT_DEPTH_EXCEEDED)
    ensures depth != 99 ==> ParseDeep(p, depth, isDocument) == ParseNodes(p, depth + 1, isDocument, [])
  {
    hide ParseNodes;
  }

  // ---------------------------------------------------------------- what is printed

  // Attributes in double quotes, all five entities escaped in them, three of them in text, none elsewhere.
  lemma {:induction false} PrintsAs(a: string, b: string, v: string, x: string)
    ensures Print(Element(a, [Attribute(b, v)], [Text(x, false)])) ==
            "<" + a + (" " + b + "=\"" + Escape(v, false) + "\"") + (">" + Escape(x, true) + ("</" + a + ">"))
    ensures Print(Element(a, [], [])) == "<" + a + "/>"
    ensures Print(Text(x, true)) == "<![CDATA[" + x + "]]>" && Print(Comment(x)) == "<!--" + x + "-->"
    ensures Print(Declaration(x)) == "<?" + x + "?>" && Print(Unknown(x)) == "<!" + x + ">"
  {
    hide Escape;
    var at, text := Attribute(b, v), Text(x, false);
    assert PrintAttributes([at]) == PrintAttribute(at) + "" == PrintAttribute(at);
    assert PrintAll([text]) == Print(text) + "" == Escape(x, true);
    assert PrintAttributes([]) == "" && "<" + a + "" == "<" + a;
  }
}
