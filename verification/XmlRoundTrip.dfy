// Parsing what was printed gives the document back.
module XmlRoundTrip {
  import opened Bytes
  import opened XmlText
  import opened XmlReadBack
  import opened XmlDocument

  lemma {:induction false} PlainName(name: text)
    requires forall i :: 0 <= i < |name| ==> IsNameChar(name[i])
    ensures Encode(name) == name
  {
    if name != [] {
      PlainName(name[1..]);
      assert EncodeByte(name[0]) == [name[0]];
      hide EncodeByte;
      assert name == [name[0]] + name[1..];
    }
  }

  lemma NameNotEnd(name: text, rest: text)
    requires ValidName(name)
    ensures !AtEnd(name + rest) && (name + rest)[0] == name[0] && !IsWhiteSpace(name[0])
    ensures name[0] != SLASH && name[0] != GREATER && name[0] != QUOTE && name[0] != APOS && name[0] != LESS
  {
  }

  // Reading starts at once where no white space stands.
  lemma NoSkip(p: text)
    requires !AtEnd(p) && !IsWhiteSpace(p[0])
    ensures SkipSpace(At(p)) == At(p)
  {
  }

  // ---- attributes ----

  lemma AttributeText(a: Attribute, rest: text) returns (p: text, q: byte, v: text)
    requires ValidName(a.name)
    ensures p == PrintedAttribute(a) + rest && q == QuoteFor(a.value)
    ensures v == Encode(a.value) + ([q] + rest) && p == a.name + ([EQUALS] + ([q] + v))
  {
    PlainName(a.name);
    p, q := PrintedAttribute(a) + rest, QuoteFor(a.value);
    v := Encode(a.value) + ([q] + rest);
    hide Encode, QuoteFor;
    JoinAttribute(a.name, q, Encode(a.value), rest);
  }

  lemma JoinAttribute(name: text, q: byte, value: text, rest: text)
    ensures name + [EQUALS, q] + value + [q] + rest == name + ([EQUALS] + ([q] + (value + ([q] + rest))))
  {
  }

  // Parsing a printed attribute goes straight to its value.
  lemma AttributeIsValue(a: Attribute, rest: text)
    requires ValidName(a.name)
    ensures var q := QuoteFor(a.value);
      AttributeAt(PrintedAttribute(a) + rest)
      == var run := RawRun(Encode(a.value) + ([q] + rest), [q]);
         AttributeRead(Attribute(a.name, run.chars), AfterTag(run.stop, [q]), NoError)
  {
    var p, q, v := AttributeText(a, rest);
    hide RawRun, Encode, PrintedAttribute, NameAt;
    var afterName := [EQUALS] + ([q] + v);
    NameNotEnd(a.name, afterName);
    NoSkip(p);
    NameBack(a.name, afterName);
    assert p[..|a.name|] == a.name && p[|a.name|..] == afterName;
    NoSkip(afterName);
    assert afterName[1..] == [q] + v;
    NoSkip([q] + v);
    assert ([q] + v)[1..] == v;
  }

  // Parsing the printed text of an attribute gives back name and value and takes in just that text, exactly when the
  // value holds no character reference.
  lemma AttributeRoundTripIff(a: Attribute, rest: text)
    requires ValidName(a.name)
    ensures AttributeAt(PrintedAttribute(a) + rest) == AttributeRead(a, At(rest), NoError) <==> NoReference(a.value)
  {
    hide RawRun, Encode, NoReference, AttributeAt, PrintedAttribute;
    var q := QuoteFor(a.value);
    AttributeIsValue(a, rest);
    RawBackIff(a.value, q, rest);
    RawBound(a.value, q, rest);
    assert ([q] + rest)[1..] == rest;
  }

  // ---- documents that can be told apart again ----

  ghost predicate ValidAttributes(attributes: seq<Attribute>) {
    && (forall i :: 0 <= i < |attributes| ==> ValidName(attributes[i].name) && NoReference(attributes[i].value))
    && forall i, j :: 0 <= i < j < |attributes| ==> attributes[i].name != attributes[j].name
  }

  ghost predicate ValidText(value: text) {
    NoReference(value) && Tidy(value) && !Blank(value)
  }

  // No two texts stand side by side.
  predicate Separated(nodes: seq<Node>) {
    forall i :: 0 <= i < |nodes| - 1 ==> !(nodes[i].Text? && nodes[i + 1].Text?)
  }

  ghost predicate ValidNode(n: Node)
    decreases n
  {
    match n
    case Text(value) => ValidText(value)
    case Element(name, attributes, children) =>
      && ValidName(name) && ValidAttributes(attributes) && Separated(children)
      && forall i :: 0 <= i < |children| ==> ValidNode(children[i])
  }

  ghost predicate ValidNodes(nodes: seq<Node>) {
    Separated(nodes) && forall i :: 0 <= i < |nodes| ==> ValidNode(nodes[i])
  }

  lemma ValidTail(nodes: seq<Node>)
    requires ValidNodes(nodes) && nodes != []
    ensures ValidNode(nodes[0]) && ValidNodes(nodes[1..])
    ensures nodes[0].Text? && |nodes| > 1 ==> nodes[1].Element?
  {
    hide ValidNode;
    assert forall i :: 0 <= i < |nodes[1..]| ==> nodes[1..][i] == nodes[i + 1];
  }

  // Printing adds nothing but white space to the text itself.
  predicate SpaceFormat(f: Format) {
    AllSpace(f.indent) && AllSpace(f.lineBreak)
  }

  lemma {:induction false} IndentSpace(f: Format, depth: nat)
    requires SpaceFormat(f)
    ensures AllSpace(Indent(f, depth))
  {
    if depth > 0 {
      IndentSpace(f, depth - 1);
    }
  }

  // ---- tags ----

  lemma SkipTo(w: text, p: text)
    requires AllSpace(w) && !AtEnd(p) && !IsWhiteSpace(p[0])
    ensures SkipSpace(At(w + p)) == At(p)
  {
    SkippedSpace(w, p);
    if w == [] {
      assert w + p == p;
    }
  }

  // One printed attribute, read inside a tag.
  lemma AttributeStep(a: Attribute, rest: text, done: seq<Attribute>, name: text)
    requires ValidName(a.name) && NoReference(a.value) && !HasName(done, a.name) && !AtEnd(rest)
    ensures TagAt([SPACE] + (PrintedAttribute(a) + rest), name, done) == TagAt(rest, name, done + [a])
  {
    var p := PrintedAttribute(a) + rest;
    FirstAttribute(a, rest);
    AttributeRoundTripIff(a, rest);
    hide AttributeAt, PrintedAttribute, HasName, NoReference;
    SkipTo([SPACE], p);
  }

  lemma NewName(done: seq<Attribute>, attributes: seq<Attribute>)
    requires ValidAttributes(done + attributes) && attributes != []
    ensures ValidName(attributes[0].name) && NoReference(attributes[0].value) && !HasName(done, attributes[0].name)
  {
    hide NoReference;
    var all := done + attributes;
    assert all[|done|] == attributes[0];
    forall i | 0 <= i < |done|
      ensures done[i].name != attributes[0].name
    {
      assert all[i] == done[i];
    }
  }

  lemma {:induction false} AttributesBack(attributes: seq<Attribute>, done: seq<Attribute>, name: text, tail: text)
    requires ValidAttributes(done + attributes) && !AtEnd(tail)
    ensures !AtEnd(PrintedAttributes(attributes) + tail)
    ensures TagAt(PrintedAttributes(attributes) + tail, name, done) == TagAt(tail, name, done + attributes)
    decreases |attributes|
  {
    hide TagAt, ValidAttributes, PrintedAttribute, NoReference;
    if attributes == [] {
      assert PrintedAttributes(attributes) + tail == tail && done + attributes == done;
    } else {
      var a, rest := attributes[0], PrintedAttributes(attributes[1..]) + tail;
      assert PrintedAttributes(attributes) + tail == [SPACE] + (PrintedAttribute(a) + rest);
      NewName(done, attributes);
      assert (done + [a]) + attributes[1..] == done + attributes;
      AttributesBack(attributes[1..], done + [a], name, tail);
      AttributeStep(a, rest, done, name);
    }
  }

  // The text of an attribute begins with its name.
  lemma FirstAttribute(a: Attribute, rest: text)
    requires ValidName(a.name)
    ensures var p := PrintedAttribute(a) + rest;
      !AtEnd(p) && !IsWhiteSpace(p[0]) && p[0] != SLASH && p[0] != GREATER
  {
    var p, q, v := AttributeText(a, rest);
    NameNotEnd(a.name, [EQUALS] + ([q] + v));
  }

  lemma OpenTagText(name: text, attributes: seq<Attribute>, tail: text)
    requires ValidName(name)
    ensures var p := OpenTag(name, attributes) + tail;
      p == [LESS] + (name + (PrintedAttributes(attributes) + tail)) && |p| > 1 && p[0] == LESS && p[1] == name[0]
  {
    hide PrintedAttributes;
  }

  // A printed start tag, read up to the end of its attributes.
  lemma OpenTagBack(name: text, attributes: seq<Attribute>, w: text, tail: text)
    requires ValidName(name) && ValidAttributes(attributes) && AllSpace(w)
    requires !AtEnd(tail) && !IsNameChar(tail[0])
    ensures ElementAt(w + (OpenTag(name, attributes) + tail)) == TagAt(tail, name, attributes)
  {
    var inner := PrintedAttributes(attributes) + tail;
    OpenTagText(name, attributes, tail);
    NotNameChar(attributes, tail);
    hide TagAt, ElementAt, OpenTag, PrintedAttributes, ValidAttributes, ValidName;
    StartTagBack(name, w, inner);
    assert [] + attributes == attributes;
    AttributesBack(attributes, [], name, tail);
  }

  lemma StartTagBack(name: text, w: text, inner: text)
    requires ValidName(name) && AllSpace(w) && !AtEnd(inner) && !IsNameChar(inner[0])
    ensures ElementAt(w + ([LESS] + (name + inner))) == TagAt(inner, name, [])
  {
    var p := [LESS] + (name + inner);
    NameNotEnd(name, inner);
    NameBack(name, inner);
    SkipTo(w, p);
    assert p[1..] == name + inner;
    NoSkip(name + inner);
    assert (name + inner)[..|name|] == name && (name + inner)[|name|..] == inner;
    hide TagAt, NameAt;
  }

  lemma NotNameChar(attributes: seq<Attribute>, tail: text)
    requires !AtEnd(tail) && !IsNameChar(tail[0])
    ensures var p := PrintedAttributes(attributes) + tail; !AtEnd(p) && !IsNameChar(p[0])
  {
    if attributes == [] {
      assert PrintedAttributes(attributes) + tail == tail;
    }
  }

  lemma CloseTagBack(name: text, attributes: seq<Attribute>, children: seq<Node>, rest: text)
    requires ValidName(name)
    ensures Closed(Value(children, CloseTag(name) + rest), name, attributes)
            == Parsed(Element(name, attributes, children), rest)
  {
    var end := CloseTag(name) + rest;
    var tag := [LESS, SLASH] + name;
    assert end == tag + ([GREATER] + rest);
    assert end[2 + |name|..] == [GREATER] + rest && tag <= end;
    NoSkip([GREATER] + rest);
    assert ([GREATER] + rest)[1..] == rest;
  }

  // ---- what an element holds ----

  lemma TextStep(before: text, v: text, w: text, r: text, done: seq<Node>)
    requires ValidText(v) && AllSpace(before) && AllSpace(w)
    ensures ChildrenAt(At(before + (Encode(v) + (w + ([LESS] + r)))), done)
         == ChildrenAt(At([LESS] + r), done + [Text(v)])
  {
    assert v != [];
    var tag := [LESS] + r;
    var s := Encode(v) + (w + tag);
    NoReferenceTail(v);
    EncodeFirst(v, w + tag);
    EncodedStart(v[0], Encode(v[1..]) + (w + tag));
    hide Encode, NoReference, TextRun, Blank;
    SkipTo(before, s);
    TrimmedIff(v);
    assert [] + s == s;
    TextBack([], v, w, r);
    assert |s| > |tag| by {
      EncodeSome(v);
    }
    assert s == Encode(v) + w + tag;
    assert StepBack(s, r) == tag;
  }

  lemma EncodeSome(v: text)
    requires v != []
    ensures Encode(v) != []
  {
  }

  // White space in front of a tag is passed over.
  lemma SpaceStep(w: text, p: text, done: seq<Node>)
    requires AllSpace(w) && Starts(p, LESS)
    ensures ChildrenAt(At(w + p), done) == ChildrenAt(At(p), done)
  {
    SkipTo(w, p);
    NoSkip(p);
  }

  lemma EndStep(w: text, c: text, done: seq<Node>)
    requires AllSpace(w) && [LESS, SLASH] <= c
    ensures ChildrenAt(At(w + c), done) == Value(done, c)
  {
    SkipTo(w, c);
  }

  // An element's text without its indentation.
  function Core(n: Node, f: Format, depth: nat): text
    requires n.Element?
  {
    OpenTag(n.name, n.attributes) + Rest(n, f, depth)
  }

  function Rest(n: Node, f: Format, depth: nat): (r: text)
    requires n.Element?
    ensures !AtEnd(r) && !IsNameChar(r[0])
  {
    if n.children == [] then [SPACE, SLASH, GREATER] + f.lineBreak
    else if IsSimple(n.children) then [GREATER] + Encode(n.children[0].value) + CloseTag(n.name) + f.lineBreak
    else
      [GREATER] + f.lineBreak + PrintedAll(n.children, f, depth + 1) + Indent(f, depth) + CloseTag(n.name) + f.lineBreak
  }

  lemma PrintedCore(n: Node, f: Format, depth: nat)
    requires n.Element?
    ensures Printed(n, f, depth) == Indent(f, depth) + Core(n, f, depth)
  {
    hide Encode, PrintedAll, CloseTag, OpenTag, Indent;
  }

  // What an element holds, read behind the end of its start tag.
  lemma HoldsBack(n: Node, f: Format, depth: nat, rest: text)
    requires n.Element? && ValidNode(n) && SpaceFormat(f)
    ensures TagAt(Rest(n, f, depth) + rest, n.name, n.attributes) == Parsed(n, f.lineBreak + rest)
    decreases n, 2
  {
    if n.children == [] {
      EmptyBack(n, f, depth, rest);
    } else {
      var p, close := Rest(n, f, depth) + rest, CloseTag(n.name) + (f.lineBreak + rest);
      assert [LESS, SLASH] <= close;
      var held := Held(n, f, depth, close);
      RestIs(n, f, depth, rest);
      hide ChildrenAt, Closed, Rest, CloseTag, Held;
      NoSkip(p);
      assert p[1..] == held;
      HeldBack(n, f, depth, close);
      CloseTagBack(n.name, n.attributes, n.children, f.lineBreak + rest);
    }
  }

  lemma EmptyBack(n: Node, f: Format, depth: nat, rest: text)
    requires n.Element? && n.children == []
    ensures TagAt(Rest(n, f, depth) + rest, n.name, n.attributes) == Parsed(n, f.lineBreak + rest)
  {
    var end := [SLASH, GREATER] + (f.lineBreak + rest);
    assert Rest(n, f, depth) + rest == [SPACE] + end;
    SkipTo([SPACE], end);
  }

  // The text between the start tag of an element with children and what follows its end tag.
  function Held(n: Node, f: Format, depth: nat, close: text): text
    requires n.Element? && n.children != []
  {
    if IsSimple(n.children) then Encode(n.children[0].value) + close
    else f.lineBreak + (PrintedAll(n.children, f, depth + 1) + (Indent(f, depth) + close))
  }

  lemma RestIs(n: Node, f: Format, depth: nat, rest: text)
    requires n.Element? && n.children != []
    ensures Rest(n, f, depth) + rest == [GREATER] + Held(n, f, depth, CloseTag(n.name) + (f.lineBreak + rest))
  {
    var c := CloseTag(n.name);
    if IsSimple(n.children) {
      JoinFour([GREATER], Encode(n.children[0].value), c, f.lineBreak, rest);
    } else {
      JoinSix([GREATER], f.lineBreak, PrintedAll(n.children, f, depth + 1), Indent(f, depth), c, rest);
    }
  }

  lemma JoinFour(g: text, e: text, c: text, l: text, r: text)
    ensures g + e + c + l + r == g + (e + (c + (l + r)))
  {
  }

  lemma JoinSix(g: text, l: text, a: text, i: text, c: text, r: text)
    ensures g + l + a + i + c + l + r == g + (l + (a + (i + (c + (l + r)))))
  {
  }

  lemma HeldBack(n: Node, f: Format, depth: nat, close: text)
    requires n.Element? && ValidNode(n) && SpaceFormat(f) && n.children != [] && [LESS, SLASH] <= close
    ensures ChildrenAt(At(Held(n, f, depth, close)), []) == Value(n.children, close)
    decreases n, 1
  {
    if IsSimple(n.children) {
      assert ValidNode(n.children[0]);
      SimpleBack(n.children[0].value, close);
      assert n.children == [Text(n.children[0].value)];
    } else {
      hide ChildrenAt, PrintedAll, Indent;
      IndentSpace(f, depth);
      ChildrenBack(f.lineBreak, n.children, f, depth + 1, Indent(f, depth), close, []);
      assert [] + n.children == n.children;
    }
  }

  lemma SimpleBack(v: text, close: text)
    requires ValidText(v) && [LESS, SLASH] <= close
    ensures ChildrenAt(At(Encode(v) + close), []) == Value([Text(v)], close)
  {
    hide ChildrenAt, Encode;
    assert close == [LESS] + close[1..] && [] + close == close;
    assert [] + (Encode(v) + ([] + close)) == Encode(v) + close;
    TextStep([], v, [], close[1..], []);
    var one := [Text(v)];
    assert [] + one == one;
    EndStep([], close, one);
  }

  lemma ChildrenBack(before: text, nodes: seq<Node>, f: Format, depth: nat, w: text, c: text, done: seq<Node>)
    requires ValidNodes(nodes) && SpaceFormat(f) && AllSpace(before) && AllSpace(w) && [LESS, SLASH] <= c
    ensures ChildrenAt(At(before + (PrintedAll(nodes, f, depth) + (w + c))), done) == Value(done + nodes, c)
    decreases nodes, 0
  {
    IndentSpace(f, depth);
    var tail := w + c;
    if nodes == [] {
      assert before + (PrintedAll(nodes, f, depth) + tail) == (before + w) + c;
      EndStep(before + w, c, done);
      assert done + nodes == done;
    } else {
      ValidTail(nodes);
      var more := PrintedAll(nodes[1..], f, depth) + tail;
      assert PrintedAll(nodes, f, depth) + tail == Printed(nodes[0], f, depth) + more;
      assert done + nodes == (done + [nodes[0]]) + nodes[1..];
      if nodes[0].Element? {
        ElementStep(before, nodes[0], f, depth, more, done);
        ChildrenBack(f.lineBreak, nodes[1..], f, depth, w, c, done + [nodes[0]]);
      } else {
        var gap, tag := NextTag(nodes[1..], f, depth, w, c);
        TextBefore(before, nodes[0].value, f, depth, gap, tag, done);
        ChildrenBack([], nodes[1..], f, depth, w, c, done + [nodes[0]]);
        assert [] + more == more;
      }
    }
  }

  // After a text comes white space and a tag: the next element's, or the closing one.
  lemma NextTag(nodes: seq<Node>, f: Format, depth: nat, w: text, c: text) returns (gap: text, tag: text)
    requires SpaceFormat(f) && AllSpace(w) && Starts(c, LESS) && (nodes != [] ==> nodes[0].Element?)
    ensures PrintedAll(nodes, f, depth) + (w + c) == gap + ([LESS] + tag) && AllSpace(gap)
  {
    if nodes == [] {
      gap, tag := w, c[1..];
      assert PrintedAll(nodes, f, depth) + (w + c) == w + c;
    } else {
      IndentSpace(f, depth);
      PrintedCore(nodes[0], f, depth);
      CoreStart(nodes[0], f, depth);
      gap := Indent(f, depth);
      var core, more := Core(nodes[0], f, depth), PrintedAll(nodes[1..], f, depth);
      assert PrintedAll(nodes, f, depth) == gap + core + more;
      hide Core, Indent, Printed, PrintedAll;
      tag := core[1..] + (more + (w + c));
      TagBehind(gap, core, more, w + c);
    }
  }

  lemma CoreStart(n: Node, f: Format, depth: nat)
    requires n.Element?
    ensures Starts(Core(n, f, depth), LESS)
  {
  }

  lemma TagBehind(gap: text, core: text, more: text, end: text)
    requires Starts(core, LESS)
    ensures gap + core + more + end == gap + ([LESS] + (core[1..] + (more + end)))
  {
    assert core == [LESS] + core[1..];
  }

  lemma TextBefore(before: text, v: text, f: Format, depth: nat, gap: text, tag: text, done: seq<Node>)
    requires ValidText(v) && SpaceFormat(f) && AllSpace(before) && AllSpace(gap)
    ensures ChildrenAt(At(before + (Printed(Text(v), f, depth) + (gap + ([LESS] + tag)))), done)
            == ChildrenAt(At([] + (gap + ([LESS] + tag))), done + [Text(v)])
  {
    hide ChildrenAt, Encode;
    IndentSpace(f, depth);
    var t := [LESS] + tag;
    assert before + (Printed(Text(v), f, depth) + (gap + t))
        == (before + Indent(f, depth)) + (Encode(v) + ((f.lineBreak + gap) + t));
    TextStep(before + Indent(f, depth), v, f.lineBreak + gap, tag, done);
    assert [] + (gap + t) == gap + t;
    SpaceStep(gap, t, done + [Text(v)]);
  }

  lemma ElementStep(before: text, n: Node, f: Format, depth: nat, more: text, done: seq<Node>)
    requires n.Element? && ValidNode(n) && SpaceFormat(f) && AllSpace(before)
    ensures ChildrenAt(At(before + (Printed(n, f, depth) + more)), done)
         == ChildrenAt(At(f.lineBreak + more), done + [n])
    decreases n, 4
  {
    IndentSpace(f, depth);
    PrintedCore(n, f, depth);
    var p := Core(n, f, depth) + more;
    assert before + (Printed(n, f, depth) + more) == (before + Indent(f, depth)) + p;
    CoreBack(n, f, depth, more);
    hide Core, Printed, Indent, ElementAt, ValidNode;
    SkipTo(before + Indent(f, depth), p);
  }

  lemma ValidElement(n: Node)
    requires n.Element? && ValidNode(n)
    ensures ValidName(n.name) && IsNameStart(n.name[0]) && ValidAttributes(n.attributes)
  {
  }

  lemma CoreBack(n: Node, f: Format, depth: nat, rest: text)
    requires n.Element? && ValidNode(n) && SpaceFormat(f)
    ensures var p := Core(n, f, depth) + rest;
      ElementAt(p) == Parsed(n, f.lineBreak + rest) && |p| > 1 && p[0] == LESS && IsNameStart(p[1])
    decreases n, 3
  {
    var p := Core(n, f, depth) + rest;
    var tail := Rest(n, f, depth) + rest;
    assert p == OpenTag(n.name, n.attributes) + tail;
    ValidElement(n);
    hide Rest, ElementAt, TagAt, OpenTag, ValidNode, ValidName, ValidAttributes;
    OpenTagText(n.name, n.attributes, tail);
    OpenTagBack(n.name, n.attributes, [], tail);
    assert [] + p == p;
    HoldsBack(n, f, depth, rest);
  }

  // ---- whole documents ----

  lemma NodeStep(before: text, n: Node, f: Format, more: text, done: seq<Node>)
    requires n.Element? && ValidNode(n) && SpaceFormat(f) && AllSpace(before)
    ensures NodesAt(At(before + (Printed(n, f, 0) + more)), done) == NodesAt(At(f.lineBreak + more), done + [n])
  {
    PrintedCore(n, f, 0);
    assert Printed(n, f, 0) == Core(n, f, 0);
    var p := Core(n, f, 0) + more;
    CoreBack(n, f, 0, more);
    hide Core, Printed, ElementAt, ValidNode;
    SkipTo(before, p);
  }

  lemma {:induction false} NodesBack(before: text, nodes: seq<Node>, f: Format, done: seq<Node>)
    requires ValidNodes(nodes) && (forall i :: 0 <= i < |nodes| ==> nodes[i].Element?) && SpaceFormat(f)
    requires AllSpace(before) && done + nodes != []
    ensures NodesAt(At(before + PrintedAll(nodes, f, 0)), done) == Document(done + nodes)
    decreases |nodes|
  {
    hide ValidNode, Printed;
    if nodes == [] {
      assert before + PrintedAll(nodes, f, 0) == before && done + nodes == done;
      OnlySpace(before);
    } else {
      hide NodesAt;
      ValidTail(nodes);
      var n, more := nodes[0], PrintedAll(nodes[1..], f, 0);
      assert done + nodes == (done + [n]) + nodes[1..];
      NodeStep(before, n, f, more, done);
      NodesBack(f.lineBreak, nodes[1..], f, done + [n]);
    }
  }

  lemma {:induction false} OnlySpace(w: text)
    requires AllSpace(w)
    ensures Skipped(w) == []
  {
    if w != [] {
      OnlySpace(w[1..]);
    }
  }

  // Parsing a printed document gives the document back, printed to a stream or on indented lines.
  lemma DocumentRoundTrip(nodes: seq<Node>, f: Format)
    requires ValidNodes(nodes) && nodes != [] && (forall i :: 0 <= i < |nodes| ==> nodes[i].Element?) && SpaceFormat(f)
    ensures DocumentAt(PrintedAll(nodes, f, 0)) == Document(nodes)
  {
    hide NodesAt;
    var p := PrintedAll(nodes, f, 0);
    assert [] + p == p && [] + nodes == nodes;
    NodesBack([], nodes, f, []);
    assert !AtEnd(p) by {
      PrintedCore(nodes[0], f, 0);
      assert Indent(f, 0) == [];
      assert Core(nodes[0], f, 0)[0] == LESS;
    }
  }
}
