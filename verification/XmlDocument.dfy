// Elements, attributes and text: the printer and the recursive-descent parser.
module XmlDocument {
  import opened Bytes
  import opened XmlText

  const SLASH: byte := 47
  const EQUALS: byte := 61

  datatype Attribute = Attribute(name: text, value: text)

  datatype Node = Element(name: text, attributes: seq<Attribute>, children: seq<Node>) | Text(value: text)

  // ---- printing ----

  function QuoteFor(value: text): byte {
    if QUOTE in value then APOS else QUOTE
  }

  function PrintedAttribute(a: Attribute): text {
    Encode(a.name) + [EQUALS, QuoteFor(a.value)] + Encode(a.value) + [QuoteFor(a.value)]
  }

  function PrintedAttributes(attributes: seq<Attribute>): text {
    if attributes == [] then [] else [SPACE] + PrintedAttribute(attributes[0]) + PrintedAttributes(attributes[1..])
  }

  // What stands in front of a line at some depth, and at its end; both are empty when printing to a stream.
  datatype Format = Format(indent: text, lineBreak: text)

  function Indent(f: Format, depth: nat): text {
    if depth == 0 then [] else Indent(f, depth - 1) + f.indent
  }

  // An element with just a text inside is printed on one line.
  predicate IsSimple(children: seq<Node>) {
    |children| == 1 && children[0].Text?
  }

  function OpenTag(name: text, attributes: seq<Attribute>): text {
    [LESS] + name + PrintedAttributes(attributes)
  }

  function CloseTag(name: text): text {
    [LESS, SLASH] + name + [GREATER]
  }

  function Printed(n: Node, f: Format, depth: nat): text
    decreases n, 0
  {
    match n
    case Text(value) => Indent(f, depth) + Encode(value) + f.lineBreak
    case Element(name, attributes, children) =>
      Indent(f, depth) + OpenTag(name, attributes)
      + (if children == [] then [SPACE, SLASH, GREATER]
         else if IsSimple(children) then [GREATER] + Encode(children[0].value) + CloseTag(name)
         else [GREATER] + f.lineBreak + PrintedAll(children, f, depth + 1) + Indent(f, depth) + CloseTag(name))
      + f.lineBreak
  }

  function PrintedAll(nodes: seq<Node>, f: Format, depth: nat): text
    decreases nodes, 1
  {
    if nodes == [] then [] else Printed(nodes[0], f, depth) + PrintedAll(nodes[1..], f, depth)
  }

  method PrintAttribute(a: Attribute) returns (out: text)
    ensures out == PrintedAttribute(a)
  {
    var n := EncodeString(a.name);
    var v := EncodeString(a.value);
    if QUOTE !in a.value {
      out := n + [EQUALS, QUOTE] + v + [QUOTE];
    } else {
      out := n + [EQUALS, APOS] + v + [APOS];
    }
  }

  class TiXmlPrinter {
    var depth: nat
    var simpleTextPrint: bool
    var buffer: text
    var format: Format

    constructor (format: Format)
      ensures depth == 0 && !simpleTextPrint && buffer == [] && this.format == format
    {
      depth, simpleTextPrint, buffer := 0, false, [];
      this.format := format;
    }

    method DoIndent()
      modifies this`buffer
      ensures buffer == old(buffer) + Indent(format, depth)
    {
      var i := 0;
      while i < depth
        invariant 0 <= i <= depth && buffer == old(buffer) + Indent(format, i)
      {
        buffer := buffer + format.indent;
        i := i + 1;
      }
    }

    method PrintAttributes(attributes: seq<Attribute>)
      modifies this`buffer
      ensures buffer == old(buffer) + PrintedAttributes(attributes)
    {
      hide PrintedAttribute, PrintedAttributes;
      var i := 0;
      assert attributes[0..] == attributes;
      while i < |attributes|
        invariant 0 <= i <= |attributes|
        invariant old(buffer) + PrintedAttributes(attributes) == buffer + PrintedAttributes(attributes[i..])
      {
        NextAttribute(attributes, i, buffer);
        buffer := buffer + [SPACE];
        var a := PrintAttribute(attributes[i]);
        buffer := buffer + a;
        i := i + 1;
      }
      NextAttribute(attributes, i, buffer);
    }

    method PrintOpenTag(element: Node)
      requires element.Element?
      modifies this`buffer
      ensures buffer == old(buffer) + OpenTag(element.name, element.attributes)
    {
      hide PrintedAttributes;
      buffer := buffer + [LESS];
      buffer := buffer + element.name;
      PrintAttributes(element.attributes);
    }

    method PrintCloseTag(element: Node)
      requires element.Element?
      modifies this`buffer
      ensures buffer == old(buffer) + CloseTag(element.name)
    {
      buffer := buffer + [LESS, SLASH];
      buffer := buffer + element.name;
      buffer := buffer + [GREATER];
    }

    method VisitEnter(element: Node)
      requires element.Element?
      modifies this`buffer, this`simpleTextPrint, this`depth
      ensures depth == old(depth) + 1
      ensures simpleTextPrint == (old(simpleTextPrint) || IsSimple(element.children))
      ensures buffer == old(buffer) + Indent(format, old(depth)) + OpenTag(element.name, element.attributes)
                        + if element.children == [] then [SPACE, SLASH, GREATER] + format.lineBreak
                          else if IsSimple(element.children) then [GREATER]
                          else [GREATER] + format.lineBreak
    {
      hide Indent, OpenTag;
      DoIndent();
      PrintOpenTag(element);
      if element.children == [] {
        buffer := buffer + [SPACE, SLASH, GREATER];
        buffer := buffer + format.lineBreak;
      } else {
        buffer := buffer + [GREATER];
        if element.children[0].Text? && |element.children| == 1 {
          simpleTextPrint := true;
        } else {
          buffer := buffer + format.lineBreak;
        }
      }
      depth := depth + 1;
    }

    method VisitExit(element: Node)
      requires element.Element? && depth > 0
      modifies this`buffer, this`simpleTextPrint, this`depth
      ensures depth == old(depth) - 1
      ensures simpleTextPrint == (old(simpleTextPrint) && element.children == [])
      ensures buffer == old(buffer) + if element.children == [] then []
                        else (if old(simpleTextPrint) then [] else Indent(format, depth)) + CloseTag(element.name)
                             + format.lineBreak
    {
      hide Indent, CloseTag;
      depth := depth - 1;
      if element.children != [] {
        if simpleTextPrint {
          simpleTextPrint := false;
        } else {
          DoIndent();
        }
        PrintCloseTag(element);
        buffer := buffer + format.lineBreak;
      }
    }

    method VisitText(value: text)
      modifies this`buffer
      ensures buffer == old(buffer) + if simpleTextPrint then Encode(value) else Printed(Text(value), format, depth)
    {
      if simpleTextPrint {
        var str := EncodeString(value);
        buffer := buffer + str;
      } else {
        DoIndent();
        var str := EncodeString(value);
        buffer := buffer + str;
        buffer := buffer + format.lineBreak;
      }
    }

    // Prints one node with everything inside it.
    method Accept(n: Node)
      requires !simpleTextPrint
      modifies this`buffer, this`simpleTextPrint, this`depth
      ensures depth == old(depth) && !simpleTextPrint
      ensures buffer == old(buffer) + Printed(n, format, depth)
      decreases n, 0
    {
      if n.Text? {
        VisitText(n.value);
      } else {
        hide Printed, PrintedAll, Indent, OpenTag, CloseTag, Encode;
        VisitEnter(n);
        if IsSimple(n.children) {
          VisitText(n.children[0].value);
        } else {
          AcceptAll(n.children);
        }
        VisitExit(n);
        assert buffer == old(buffer + Printed(n, format, depth)) by {
          PrintedParts(n, format, depth, old(buffer));
        }
      }
    }

    method AcceptAll(nodes: seq<Node>)
      requires !simpleTextPrint
      modifies this`buffer, this`simpleTextPrint, this`depth
      ensures depth == old(depth) && !simpleTextPrint
      ensures buffer == old(buffer) + PrintedAll(nodes, format, depth)
      decreases nodes, 1
    {
      hide Printed, PrintedAll;
      var i := 0;
      assert nodes[0..] == nodes;
      while i < |nodes|
        invariant 0 <= i <= |nodes| && depth == old(depth) && !simpleTextPrint
        invariant old(buffer) + PrintedAll(nodes, format, depth) == buffer + PrintedAll(nodes[i..], format, depth)
      {
        NextNode(nodes, i, format, depth, buffer);
        Accept(nodes[i]);
        i := i + 1;
      }
      NextNode(nodes, i, format, depth, buffer);
    }
  }

  lemma NextAttribute(attributes: seq<Attribute>, i: nat, buffer: text)
    requires i <= |attributes|
    ensures buffer + PrintedAttributes(attributes[i..]) ==
      if i == |attributes| then buffer
      else buffer + [SPACE] + PrintedAttribute(attributes[i]) + PrintedAttributes(attributes[i + 1..])
  {
    hide PrintedAttribute;
    if i < |attributes| {
      assert attributes[i..][1..] == attributes[i + 1..];
    } else {
      assert attributes[i..] == [];
    }
  }

  lemma NextNode(nodes: seq<Node>, i: nat, f: Format, depth: nat, buffer: text)
    requires i <= |nodes|
    ensures buffer + PrintedAll(nodes[i..], f, depth) ==
      if i == |nodes| then buffer else buffer + Printed(nodes[i], f, depth) + PrintedAll(nodes[i + 1..], f, depth)
  {
    hide Printed;
    if i < |nodes| {
      assert nodes[i..][1..] == nodes[i + 1..];
    } else {
      assert nodes[i..] == [];
    }
  }

  // The pieces an element is printed in, in the order they are appended.
  lemma PrintedParts(n: Node, f: Format, depth: nat, buffer: text)
    requires n.Element?
    ensures buffer + Printed(n, f, depth) ==
      if n.children == [] then
        buffer + Indent(f, depth) + OpenTag(n.name, n.attributes) + ([SPACE, SLASH, GREATER] + f.lineBreak) + []
      else if IsSimple(n.children) then
        buffer + Indent(f, depth) + OpenTag(n.name, n.attributes) + [GREATER] + Encode(n.children[0].value)
        + ([] + CloseTag(n.name) + f.lineBreak)
      else
        buffer + Indent(f, depth) + OpenTag(n.name, n.attributes) + ([GREATER] + f.lineBreak)
        + PrintedAll(n.children, f, depth + 1) + (Indent(f, depth) + CloseTag(n.name) + f.lineBreak)
  {
    var i, o, c, l := Indent(f, depth), OpenTag(n.name, n.attributes), CloseTag(n.name), f.lineBreak;
    hide Indent, OpenTag, CloseTag, Encode, PrintedAll;
    if n.children == [] {
      JoinedEmpty(buffer, i, o, [SPACE, SLASH, GREATER], l);
    } else if IsSimple(n.children) {
      JoinedSimple(buffer, i, o, [GREATER], Encode(n.children[0].value), c, l);
    } else {
      JoinedNested(buffer, i, o, [GREATER], l, PrintedAll(n.children, f, depth + 1), c);
    }
  }

  lemma JoinedEmpty(b: text, i: text, o: text, z: text, l: text)
    ensures b + (i + o + z + l) == b + i + o + (z + l) + []
  {
  }

  lemma JoinedSimple(b: text, i: text, o: text, g: text, e: text, c: text, l: text)
    ensures b + (i + o + (g + e + c) + l) == b + i + o + g + e + ([] + c + l)
  {
  }

  lemma JoinedNested(b: text, i: text, o: text, g: text, l: text, a: text, c: text)
    ensures b + (i + o + (g + l + a + i + c) + l) == b + i + o + (g + l) + a + (i + c + l)
  {
  }

  // ---- parsing ----

  datatype Error = NoError | ParsingElement | FailedToReadElementName | ReadingElementValue | ReadingAttributes
    | ParsingEmpty | ReadingEndTag | DocumentEmpty

  datatype AttributeRead = AttributeRead(attribute: Attribute, next: Pointer, error: Error)

  function NoAttribute(error: Error): AttributeRead {
    AttributeRead(Attribute([], []), Null, error)
  }

  // A value without quotes; a quote inside it is an error.
  datatype BareRun = Bare(chars: text, rest: text) | BareQuote

  function BareValue(p: text): (r: BareRun)
    ensures r.Bare? ==> |r.rest| <= |p|
  {
    if AtEnd(p) || IsWhiteSpace(p[0]) || p[0] == SLASH || p[0] == GREATER then Bare([], p)
    else if p[0] == QUOTE || p[0] == APOS then BareQuote
    else
      match BareValue(p[1..])
      case BareQuote => BareQuote
      case Bare(chars, rest) => Bare([p[0]] + chars, rest)
  }

  function ValueAt(name: text, p: text): (r: AttributeRead)
    requires p != []
    ensures r.next.At? ==> |r.next.rest| <= |p|
  {
    if p[0] == QUOTE || p[0] == APOS then
      var run := TextRun(At(p[1..]), false, [p[0]]);
      AttributeRead(Attribute(name, run.chars), run.stop, NoError)
    else
      match BareValue(p)
      case BareQuote => NoAttribute(ReadingAttributes)
      case Bare(chars, rest) => AttributeRead(Attribute(name, chars), At(rest), NoError)
  }

  function AttributeAt(p: text): (r: AttributeRead)
    ensures r.next.At? ==> |r.next.rest| < |p|
  {
    var s := SkipSpace(At(p));
    if s.Null? || AtEnd(s.rest) then NoAttribute(NoError) else
    var n := NameAt(s.rest);
    if n == 0 || AtEnd(s.rest[n..]) then NoAttribute(ReadingAttributes) else
    var t := SkipSpace(At(s.rest[n..]));
    if t.Null? || !Starts(t.rest, EQUALS) then NoAttribute(ReadingAttributes) else
    var u := SkipSpace(At(t.rest[1..]));
    if u.Null? || AtEnd(u.rest) then NoAttribute(ReadingAttributes) else
    ValueAt(s.rest[..n], u.rest)
  }

  // Endless is a text that the parser reads again and again; Other is a kind of node outside the model.
  datatype NodeRead = Parsed(node: Node, rest: text) | Failed(error: Error) | Endless | Other

  datatype ValueRead = Value(children: seq<Node>, end: text) | Stopped(why: NodeRead)

  predicate HasName(attributes: seq<Attribute>, name: text) {
    exists i :: 0 <= i < |attributes| && attributes[i].name == name
  }

  function ElementAt(p: text): (r: NodeRead)
    ensures r.Parsed? ==> |r.rest| < |p|
    decreases |p|, 0
  {
    var s := SkipSpace(At(p));
    if s.Null? || AtEnd(s.rest) || s.rest[0] != LESS then Failed(ParsingElement) else
    var q := SkipSpace(At(s.rest[1..]));
    if q.Null? then Failed(FailedToReadElementName) else
    var n := NameAt(q.rest);
    if n == 0 || AtEnd(q.rest[n..]) then Failed(FailedToReadElementName) else
    TagAt(q.rest[n..], q.rest[..n], [])
  }

  // Attributes up to the end of the tag, then what the element holds.
  function TagAt(p: text, name: text, attributes: seq<Attribute>): (r: NodeRead)
    requires p != []
    ensures r.Parsed? ==> |r.rest| < |p|
    decreases |p|, 1
  {
    var s := SkipSpace(At(p));
    if s.Null? || AtEnd(s.rest) then Failed(ReadingAttributes)
    else if s.rest[0] == SLASH then
      if Starts(s.rest[1..], GREATER) then Parsed(Element(name, attributes, []), s.rest[2..]) else Failed(ParsingEmpty)
    else if s.rest[0] == GREATER then
      Closed(ChildrenAt(At(s.rest[1..]), []), name, attributes)
    else
      var a := AttributeAt(s.rest);
      if a.next.Null? || AtEnd(a.next.rest) then Failed(if a.error == NoError then ParsingElement else a.error)
      else if HasName(attributes, a.attribute.name) then Failed(ParsingElement)
      else TagAt(a.next.rest, name, attributes + [a.attribute])
  }

  // The end tag after what the element holds.
  function Closed(v: ValueRead, name: text, attributes: seq<Attribute>): (r: NodeRead)
    ensures r.Parsed? ==> v.Value? && |r.rest| < |v.end|
  {
    match v
    case Stopped(why) => if why.Parsed? then Failed(ReadingEndTag) else why
    case Value(children, end) =>
      if AtEnd(end) || !StringEqual(end, [LESS, SLASH] + name) then Failed(ReadingEndTag) else
      var s := SkipSpace(At(end[2 + |name|..]));
      if s.Null? || !Starts(s.rest, GREATER) then Failed(ReadingEndTag)
      else Parsed(Element(name, attributes, children), s.rest[1..])
  }

  predicate Blank(value: text) {
    forall i :: 0 <= i < |value| ==> IsWhiteSpace(value[i])
  }

  function WithText(children: seq<Node>, value: text): seq<Node> {
    if Blank(value) then children else children + [Text(value)]
  }

  // One byte back from where the reading of a text left off: at the tag that ended it, or at the last byte of all.
  function StepBack(s: text, next: text): (q: text)
    requires |next| < |s|
    ensures |q| == |next| + 1
  {
    s[|s| - |next| - 1..]
  }

  function ChildrenAt(p: Pointer, children: seq<Node>): (r: ValueRead)
    ensures r.Value? && p.At? ==> |r.end| <= |p.rest|
    decreases if p.At? then |p.rest| else 0, 2
  {
    var s := SkipSpace(p);
    if s.Null? then Stopped(Failed(ReadingElementValue))
    else if AtEnd(s.rest) then Value(children, s.rest)
    else if s.rest[0] != LESS then
      var run := TextRun(s, true, [LESS]);
      var more := WithText(children, run.chars);
      if run.stop.Null? then Stopped(Failed(ReadingElementValue)) else
      if |run.stop.rest| + 1 >= |s.rest| then Stopped(Endless) else
      ChildrenAt(At(StepBack(s.rest, run.stop.rest)), more)
    else if StringEqual(s.rest, [LESS, SLASH]) then Value(children, s.rest)
    else if |s.rest| > 1 && IsNameStart(s.rest[1]) then
      match ElementAt(s.rest)
      case Parsed(node, rest) => ChildrenAt(At(rest), children + [node])
      case why => Stopped(why)
    else Stopped(Other)
  }

  datatype DocumentRead = Document(nodes: seq<Node>) | DocumentError(error: Error) | DocumentEndless | DocumentOther

  function NodesAt(p: Pointer, nodes: seq<Node>): DocumentRead
    decreases if p.At? then |p.rest| else 0
  {
    var s := SkipSpace(p);
    if s.Null? || AtEnd(s.rest) || s.rest[0] != LESS then
      if nodes == [] then DocumentError(DocumentEmpty) else Document(nodes)
    else if |s.rest| > 1 && IsNameStart(s.rest[1]) then
      match ElementAt(s.rest)
      case Parsed(node, rest) => NodesAt(At(rest), nodes + [node])
      case Failed(error) => DocumentError(error)
      case Endless => DocumentEndless
      case Other => DocumentOther
    else DocumentOther
  }

  function DocumentAt(p: text): DocumentRead {
    if AtEnd(p) then DocumentError(DocumentEmpty) else NodesAt(At(p), [])
  }
}
