/**
 * The document tree of tinyxml2, and the compact XMLPrinter that visits it.
 */
module XmlPrinter {
  import opened Entities

  datatype Attribute = Attribute(name: string, value: string)

  datatype Node =
    | Element(name: string, attributes: seq<Attribute>, children: seq<Node>)
    | Text(value: string, cdata: bool)
    | Comment(value: string)
    | Declaration(value: string)
    | Unknown(value: string)

  // ---------------------------------------------------------------- what is printed

  function PrintAttribute(a: Attribute): string {
    " " + a.name + "=\"" + Escape(a.value, false) + "\""
  }

  function PrintAttributes(attrs: seq<Attribute>): string {
    if attrs == [] then "" else PrintAttribute(attrs[0]) + PrintAttributes(attrs[1..])
  }

  function Print(n: Node): string {
    match n
    case Element(name, attrs, children) =>
      "<" + name + PrintAttributes(attrs) +
      if children == [] then "/>" else ">" + PrintAll(children) + "</" + name + ">"
    case Text(value, cdata) => if cdata then "<![CDATA[" + value + "]]>" else Escape(value, true)
    case Comment(value) => "<!--" + value + "-->"
    case Declaration(value) => "<?" + value + "?>"
    case Unknown(value) => "<!" + value + ">"
  }

  function PrintAll(ns: seq<Node>): string {
    if ns == [] then "" else Print(ns[0]) + PrintAll(ns[1..])
  }

  lemma {:induction false} PrintAllAppend(ns: seq<Node>, n: Node)
    ensures PrintAll(ns + [n]) == PrintAll(ns) + Print(n)
  {
    hide Print;
    if ns == [] {
      assert PrintAll([n]) == Print(n) + "" == Print(n);
    } else {
      PrintAllAppend(ns[1..], n);
      assert (ns + [n])[1..] == ns[1..] + [n];
    }
  }

  // ---------------------------------------------------------------- the visitor

  // The closing angle bracket of a start tag is held back until it is known whether the element is empty.
  class XMLPrinter {
    var buffer: string
    var elementJustOpened: bool
    var stack: seq<string>

    constructor ()
      ensures buffer == "" && !elementJustOpened && stack == []
    {
      buffer, elementJustOpened, stack := "", false, [];
    }

    // The text written so far, once the held-back bracket is out.
    function Sealed(): string
      reads this
    {
      if elementJustOpened then buffer + ">" else buffer
    }

    method SealElementIfJustOpened()
      modifies this`buffer, this`elementJustOpened
      ensures buffer == old(Sealed()) && !elementJustOpened
    {
      if elementJustOpened {
        elementJustOpened := false;
        buffer := buffer + ">";
      }
    }

    method OpenElement(name: string)
      modifies this
      ensures buffer == old(Sealed()) + "<" + name && elementJustOpened && stack == old(stack) + [name]
    {
      SealElementIfJustOpened();
      stack := stack + [name];
      buffer := buffer + "<";
      buffer := buffer + name;
      elementJustOpened := true;
    }

    method PushAttribute(a: Attribute)
      modifies this`buffer
      ensures buffer == old(buffer) + PrintAttribute(a)
    {
      var value := PrintString(a.value, false);
      buffer := buffer + (" " + a.name + "=\"" + value + "\"");
    }

    method CloseElement()
      requires stack != []
      modifies this
      ensures !elementJustOpened && stack == old(stack)[..|old(stack)| - 1]
      ensures buffer == old(buffer) + if old(elementJustOpened) then "/>" else "</" + old(stack)[|old(stack)| - 1] + ">"
    {
      var name := stack[|stack| - 1];
      stack := stack[..|stack| - 1];
      buffer := buffer + if elementJustOpened then "/>" else "</" + name + ">";
      elementJustOpened := false;
    }

    method Push(header: string, value: string, tail: string)
      modifies this`buffer, this`elementJustOpened
      ensures buffer == old(Sealed()) + (header + value + tail) && !elementJustOpened
    {
      SealElementIfJustOpened();
      buffer := buffer + (header + value + tail);
    }

    method PushText(value: string, cdata: bool)
      modifies this`buffer, this`elementJustOpened
      ensures buffer == old(Sealed()) + Print(Text(value, cdata)) && !elementJustOpened
    {
      if cdata {
        Push("<![CDATA[", value, "]]>");
      } else {
        SealElementIfJustOpened();
        var s := PrintString(value, true);
        buffer := buffer + s;
      }
    }

    method Accept(n: Node)
      modifies this
      ensures buffer == old(Sealed()) + Print(n) && !elementJustOpened && stack == old(stack)
      decreases n
    {
      match n {
        case Element(name, attrs, children) =>
          OpenElement(name);
          PushAttributes(attrs);
          ghost var tag := buffer;
          if children != [] {
            AcceptAll(children);
          }
          CloseElement();
          assert buffer == old(Sealed()) + Print(n) by {
            JoinElement(old(Sealed()), name, attrs, children, tag, buffer);
          }
        case Text(value, cdata) => PushText(value, cdata);
        case Comment(value) => Push("<!--", value, "-->");
        case Declaration(value) => Push("<?", value, "?>");
        case Unknown(value) => Push("<!", value, ">");
      }
    }

    static lemma {:induction false} JoinElement(before: string, name: string, attrs: seq<Attribute>, children: seq<Node>, tag: string, all: string)
      requires tag == before + "<" + name + PrintAttributes(attrs)
      requires all == if children == [] then tag + "/>" else tag + ">" + PrintAll(children) + ("</" + name + ">")
      ensures all == before + Print(Element(name, attrs, children))
    {
      hide PrintAttributes, PrintAll;
      assert tag == before + ("<" + name + PrintAttributes(attrs));
      if children != [] {
        assert all == tag + (">" + PrintAll(children) + "</" + name + ">");
      }
    }

    method PushAttributes(attrs: seq<Attribute>)
      modifies this`buffer
      ensures buffer == old(buffer) + PrintAttributes(attrs)
    {
      ghost var before := buffer;
      var i := 0;
      assert attrs[0..] == attrs;
      while i < |attrs|
        invariant 0 <= i <= |attrs|
        invariant buffer + PrintAttributes(attrs[i..]) == before + PrintAttributes(attrs)
      {
        assert attrs[i..][1..] == attrs[i + 1..];
        assert buffer + (PrintAttribute(attrs[i]) + PrintAttributes(attrs[i + 1..]))
            == (buffer + PrintAttribute(attrs[i])) + PrintAttributes(attrs[i + 1..]);
        PushAttribute(attrs[i]);
        i := i + 1;
      }
    }

    method AcceptAll(ns: seq<Node>)
      modifies this
      ensures buffer == old(if ns == [] then buffer else Sealed()) + PrintAll(ns)
      ensures ns != [] ==> !elementJustOpened
      ensures ns == [] ==> elementJustOpened == old(elementJustOpened)
      ensures stack == old(stack)
      decreases ns
    {
      hide Print;
      ghost var before := Sealed();
      var i := 0;
      while i < |ns|
        invariant 0 <= i <= |ns| && stack == old(stack)
        invariant i == 0 ==> buffer == old(buffer) && elementJustOpened == old(elementJustOpened)
        invariant i > 0 ==> buffer == before + PrintAll(ns[..i]) && !elementJustOpened
      {
        PrintAllAppend(ns[..i], ns[i]);
        assert ns[..i + 1] == ns[..i] + [ns[i]];
        assert before + (PrintAll(ns[..i]) + Print(ns[i])) == (before + PrintAll(ns[..i])) + Print(ns[i]);
        Accept(ns[i]);
        i := i + 1;
      }
      assert ns[..|ns|] == ns;
    }
  }
}
