// The parser's loops over attributes, children and top-level nodes.
module XmlParser {
  import opened XmlText
  import opened XmlDocument

  method ReadBareValue(p: text) returns (r: BareRun)
    ensures r == BareValue(p)
  {
    hide BareValue;
    var value: text, q := [], p;
    BareStep(p, []);
    while !AtEnd(q) && !IsWhiteSpace(q[0]) && q[0] != SLASH && q[0] != GREATER
      invariant BareValue(p) == Behind(value, BareValue(q))
      decreases |q|
    {
      BareStep(q, value);
      if q[0] == QUOTE || q[0] == APOS {
        return BareQuote;
      }
      value := value + [q[0]];
      q := q[1..];
    }
    BareStep(q, value);
    return Bare(value, q);
  }

  function Behind(value: text, r: BareRun): BareRun {
    match r
    case BareQuote => BareQuote
    case Bare(chars, rest) => Bare(value + chars, rest)
  }

  // One step of reading a bare value, behind what was read so far.
  lemma BareStep(p: text, value: text)
    ensures Behind([], BareValue(p)) == BareValue(p)
    ensures Behind(value, BareValue(p)) ==
      if AtEnd(p) || IsWhiteSpace(p[0]) || p[0] == SLASH || p[0] == GREATER then Bare(value, p)
      else if p[0] == QUOTE || p[0] == APOS then BareQuote
      else Behind(value + [p[0]], BareValue(p[1..]))
  {
  }

  method ParseAttribute(p: text) returns (r: AttributeRead)
    ensures r == AttributeAt(p)
  {
    var s := SkipWhiteSpace(At(p));
    if s.Null? || AtEnd(s.rest) {
      return NoAttribute(NoError);
    }
    var name, afterName := ReadName(s.rest);
    if afterName.Null? || AtEnd(afterName.rest) {
      return NoAttribute(ReadingAttributes);
    }
    var t := SkipWhiteSpace(afterName);
    if t.Null? || !Starts(t.rest, EQUALS) {
      return NoAttribute(ReadingAttributes);
    }
    var u := SkipWhiteSpace(At(t.rest[1..]));
    if u.Null? || AtEnd(u.rest) {
      return NoAttribute(ReadingAttributes);
    }
    if u.rest[0] == APOS || u.rest[0] == QUOTE {
      var value, next := ReadText(At(u.rest[1..]), false, [u.rest[0]]);
      return AttributeRead(Attribute(name, value), next, NoError);
    }
    var bare := ReadBareValue(u.rest);
    match bare
    case BareQuote => return NoAttribute(ReadingAttributes);
    case Bare(chars, rest) => return AttributeRead(Attribute(name, chars), At(rest), NoError);
  }

  method FindName(attributes: seq<Attribute>, name: text) returns (found: bool)
    ensures found <==> HasName(attributes, name)
  {
    var i := 0;
    while i < |attributes|
      invariant 0 <= i <= |attributes| && forall k :: 0 <= k < i ==> attributes[k].name != name
    {
      if attributes[i].name == name {
        return true;
      }
      i := i + 1;
    }
    return false;
  }

  method ParseElement(p: text) returns (r: NodeRead)
    ensures r == ElementAt(p)
    decreases |p|, 0
  {
    hide AttributeAt, ChildrenAt, Closed;
    var s := SkipWhiteSpace(At(p));
    if s.Null? || AtEnd(s.rest) || s.rest[0] != LESS {
      return Failed(ParsingElement);
    }
    var start := SkipWhiteSpace(At(s.rest[1..]));
    if start.Null? {
      return Failed(FailedToReadElementName);
    }
    var name, afterName := ReadName(start.rest);
    if afterName.Null? || AtEnd(afterName.rest) {
      return Failed(FailedToReadElementName);
    }
    r := ParseTag(afterName.rest, name);
  }

  // Attributes until the tag ends.
  method ParseTag(p: text, name: text) returns (r: NodeRead)
    requires p != []
    ensures r == TagAt(p, name, [])
    decreases |p|, 1
  {
    hide AttributeAt, ChildrenAt, Closed;
    var q, attributes: seq<Attribute> := p, [];
    while true
      invariant q != [] && |q| <= |p| && TagAt(p, name, []) == TagAt(q, name, attributes)
      decreases |q|
    {
      var s := SkipWhiteSpace(At(q));
      if s.Null? || AtEnd(s.rest) {
        return Failed(ReadingAttributes);
      }
      if s.rest[0] == SLASH {
        return if Starts(s.rest[1..], GREATER) then Parsed(Element(name, attributes, []), s.rest[2..])
          else Failed(ParsingEmpty);
      }
      if s.rest[0] == GREATER {
        var v := ReadValue(At(s.rest[1..]));
        r := CloseElement(v, name, attributes);
        return;
      }
      var a := ParseAttribute(s.rest);
      if a.next.Null? || AtEnd(a.next.rest) {
        return Failed(if a.error == NoError then ParsingElement else a.error);
      }
      var found := FindName(attributes, a.attribute.name);
      if found {
        return Failed(ParsingElement);
      }
      attributes := attributes + [a.attribute];
      q := a.next.rest;
    }
  }

  method CloseElement(v: ValueRead, name: text, attributes: seq<Attribute>) returns (r: NodeRead)
    ensures r == Closed(v, name, attributes)
  {
    match v {
      case Stopped(why) =>
        return if why.Parsed? then Failed(ReadingEndTag) else why;
      case Value(children, end) =>
        if AtEnd(end) || !StringEqual(end, [LESS, SLASH] + name) {
          return Failed(ReadingEndTag);
        }
        var s := SkipWhiteSpace(At(end[2 + |name|..]));
        if s.Null? || !Starts(s.rest, GREATER) {
          return Failed(ReadingEndTag);
        }
        return Parsed(Element(name, attributes, children), s.rest[1..]);
    }
  }

  method IsBlank(value: text) returns (blank: bool)
    ensures blank == Blank(value)
  {
    var i := 0;
    while i < |value|
      invariant 0 <= i <= |value| && forall k :: 0 <= k < i ==> IsWhiteSpace(value[k])
    {
      if !IsWhiteSpace(value[i]) {
        return false;
      }
      i := i + 1;
    }
    return true;
  }

  // Texts and elements in any order, up to an end tag.
  method ReadValue(p: Pointer) returns (r: ValueRead)
    ensures r == ChildrenAt(p, [])
    decreases if p.At? then |p.rest| else 0, 2
  {
    hide ElementAt, TextRun, Blank;
    var q, children: seq<Node> := p, [];
    while true
      invariant ChildrenAt(p, []) == ChildrenAt(q, children)
      invariant q.At? ==> p.At? && |q.rest| <= |p.rest|
      decreases if q.At? then |q.rest| else 0
    {
      var s := SkipWhiteSpace(q);
      if s.Null? {
        return Stopped(Failed(ReadingElementValue));
      }
      if AtEnd(s.rest) {
        return Value(children, s.rest);
      }
      if s.rest[0] != LESS {
        var value, next := ReadText(s, true, [LESS]);
        var blank := IsBlank(value);
        if !blank {
          children := children + [Text(value)];
        }
        if next.Null? {
          return Stopped(Failed(ReadingElementValue));
        }
        if |next.rest| + 1 >= |s.rest| {
          return Stopped(Endless);
        }
        q := At(StepBack(s.rest, next.rest));
      } else if StringEqual(s.rest, [LESS, SLASH]) {
        return Value(children, s.rest);
      } else if |s.rest| > 1 && IsNameStart(s.rest[1]) {
        var n := ParseElement(s.rest);
        if !n.Parsed? {
          return Stopped(n);
        }
        children := children + [n.node];
        q := At(n.rest);
      } else {
        return Stopped(Other);
      }
    }
  }

  method ParseDocument(p: text) returns (r: DocumentRead)
    ensures r == DocumentAt(p)
  {
    hide ElementAt;
    if AtEnd(p) {
      return DocumentError(DocumentEmpty);
    }
    var q, nodes: seq<Node> := At(p), [];
    while true
      invariant q.At? && NodesAt(At(p), []) == NodesAt(q, nodes)
      decreases |q.rest|
    {
      var s := SkipWhiteSpace(q);
      if s.Null? || AtEnd(s.rest) || s.rest[0] != LESS {
        return if nodes == [] then DocumentError(DocumentEmpty) else Document(nodes);
      }
      if !(|s.rest| > 1 && IsNameStart(s.rest[1])) {
        return DocumentOther;
      }
      var n := ParseElement(s.rest);
      match n {
        case Parsed(node, rest) =>
          nodes := nodes + [node];
          q := At(rest);
        case Failed(error) => return DocumentError(error);
        case Endless => return DocumentEndless;
        case Other => return DocumentOther;
      }
    }
  }
}
