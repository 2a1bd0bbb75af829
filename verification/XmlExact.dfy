// Exactly which documents come back whole: what the parser can return, and what a returned document says of the
// texts and values that were printed.
module XmlExact {
  import opened Bytes
  import opened XmlText
  import opened XmlReadBack
  import opened XmlDocument
  import opened XmlRoundTrip

  // ---- what the parser can return ----

  predicate DistinctNames(attributes: seq<Attribute>) {
    forall i, j :: 0 <= i < j < |attributes| ==> attributes[i].name != attributes[j].name
  }

  // No attribute twice, no two texts side by side, no blank text.
  ghost predicate Shaped(n: Node)
    decreases n
  {
    match n
    case Text(value) => !Blank(value)
    case Element(_, attributes, children) =>
      DistinctNames(attributes) && Separated(children) && forall i :: 0 <= i < |children| ==> Shaped(children[i])
  }

  ghost predicate ShapedNodes(nodes: seq<Node>) {
    Separated(nodes) && forall i :: 0 <= i < |nodes| ==> Shaped(nodes[i])
  }

  predicate EndsInText(nodes: seq<Node>) {
    nodes != [] && nodes[|nodes| - 1].Text?
  }

  lemma ShapedAdded(nodes: seq<Node>, n: Node)
    requires ShapedNodes(nodes) && Shaped(n) && (n.Text? ==> !EndsInText(nodes))
    ensures ShapedNodes(nodes + [n])
  {
  }

  // Attributes and children that were read stay in the result, in front.
  lemma TagKeeps(p: text, name: text, attributes: seq<Attribute>)
    requires p != []
    ensures var r := TagAt(p, name, attributes);
      r.Parsed? ==> r.node.Element? && r.node.name == name && attributes <= r.node.attributes
    decreases |p|
  {
    hide AttributeAt, ChildrenAt, Closed, HasName;
    var s := SkipSpace(At(p));
    if s.At? && !AtEnd(s.rest) && s.rest[0] == GREATER {
      ClosedKeeps(ChildrenAt(At(s.rest[1..]), []), name, attributes);
    } else if s.At? && !AtEnd(s.rest) && s.rest[0] != SLASH {
      var a := AttributeAt(s.rest);
      if a.next.At? && !AtEnd(a.next.rest) {
        TagKeeps(a.next.rest, name, attributes + [a.attribute]);
      }
    }
  }

  lemma ClosedKeeps(v: ValueRead, name: text, attributes: seq<Attribute>)
    ensures var r := Closed(v, name, attributes);
      r.Parsed? ==> v.Value? && r.node == Element(name, attributes, v.children)
  {
  }

  lemma ElementIsElement(p: text)
    ensures ElementAt(p).Parsed? ==> ElementAt(p).node.Element?
  {
    hide TagAt;
    var s := SkipSpace(At(p));
    if s.At? && Starts(s.rest, LESS) {
      var q := SkipSpace(At(s.rest[1..]));
      if q.At? {
        var n := NameAt(q.rest);
        if !AtEnd(q.rest[n..]) {
          TagKeeps(q.rest[n..], q.rest[..n], []);
        }
      }
    }
  }

  lemma ChildrenKeep(p: Pointer, children: seq<Node>)
    ensures var r := ChildrenAt(p, children); r.Value? ==> children <= r.children
    decreases if p.At? then |p.rest| else 0
  {
    hide ElementAt, TextRun, Blank;
    var s := SkipSpace(p);
    if s.At? && !AtEnd(s.rest) {
      if s.rest[0] != LESS {
        var run := TextRun(s, true, [LESS]);
        if run.stop.At? && |run.stop.rest| + 1 < |s.rest| {
          ChildrenKeep(At(StepBack(s.rest, run.stop.rest)), WithText(children, run.chars));
        }
      } else if |s.rest| > 1 && IsNameStart(s.rest[1]) && ElementAt(s.rest).Parsed? {
        ChildrenKeep(At(ElementAt(s.rest).rest), children + [ElementAt(s.rest).node]);
      }
    }
  }

  lemma NodesKeep(p: Pointer, nodes: seq<Node>)
    ensures var r := NodesAt(p, nodes); r.Document? ==> nodes <= r.nodes
    decreases if p.At? then |p.rest| else 0
  {
    hide ElementAt;
    var s := SkipSpace(p);
    if s.At? && |s.rest| > 1 && ElementAt(s.rest).Parsed? {
      NodesKeep(At(ElementAt(s.rest).rest), nodes + [ElementAt(s.rest).node]);
    }
  }

  // At a tag, the next child is an element.
  lemma ElementNext(p: text, children: seq<Node>)
    requires Starts(p, LESS)
    ensures var r := ChildrenAt(At(p), children);
      r.Value? && |r.children| > |children| ==> r.children[|children|].Element?
  {
    hide ElementAt;
    NoSkip(p);
    if |p| > 1 && ElementAt(p).Parsed? {
      ElementIsElement(p);
      ChildrenKeep(At(ElementAt(p).rest), children + [ElementAt(p).node]);
    }
  }

  predicate IsRest(q: text, p: text) {
    |q| <= |p| && p[|p| - |q|..] == q
  }

  lemma RestOfRest(q: text, p: text, k: nat)
    requires k <= |p| && IsRest(q, p[k..])
    ensures IsRest(q, p)
  {
  }

  // Where reading stops is a rest of the markup.
  lemma {:induction false} CondensedSuffix(p: text, space: bool)
    ensures var s := CondensedRun(p, [LESS], space).stop; s.At? ==> IsRest(s.rest, p)
    decreases |p|
  {
    hide Char;
    if !AtEnd(p) && p[0] != LESS {
      CondensedFirst(p, space);
      hide CondensedRun, IsRest;
      var s := CondensedRun(p, [LESS], space).stop;
      if IsWhiteSpace(p[0]) {
        CondensedSuffix(p[1..], true);
        if s.At? {
          RestOfRest(s.rest, p, 1);
        }
      } else if Char(p).Got? {
        CondensedSuffix(p[Char(p).used..], false);
        if s.At? {
          RestOfRest(s.rest, p, Char(p).used);
        }
      }
    }
  }

  // Behind a text stands a tag, or the last byte of the markup.
  lemma BehindText(s: text, run: Run)
    requires !AtEnd(s) && !IsWhiteSpace(s[0]) && run == TextRun(At(s), true, [LESS])
    requires run.stop.At? && |run.stop.rest| + 1 < |s|
    ensures var q := StepBack(s, run.stop.rest); Starts(q, LESS) || AtEnd(q[1..])
  {
    NoSkip(s);
    CondensedSuffix(s, false);
    CondensedStops(s, [LESS], false);
    hide CondensedRun;
    var stop, q := CondensedRun(s, [LESS], false).stop, StepBack(s, run.stop.rest);
    if AtEnd(stop.rest) {
      assert q[1..] == stop.rest;
    } else {
      assert q == stop.rest;
    }
  }

  // The last byte of the markup makes no further child.
  lemma LastByte(p: text, children: seq<Node>)
    requires p != [] && p[0] != LESS && AtEnd(p[1..])
    ensures var r := ChildrenAt(At(p), children); r.Value? ==> r.children == children
  {
    if AtEnd(p) {
    } else if IsWhiteSpace(p[0]) {
      assert Skipped(p) == Skipped(p[1..]) == p[1..];
    } else {
      NoSkip(p);
      LastRun(p);
    }
  }

  lemma LastRun(p: text)
    requires !AtEnd(p) && p[0] != LESS && AtEnd(p[1..]) && !IsWhiteSpace(p[0])
    ensures var run := TextRun(At(p), true, [LESS]); run.stop.At? ==> |run.stop.rest| + 1 >= |p|
  {
    NoSkip(p);
    assert Char(p).Got? ==> Char(p).used == 1;
    assert CondensedRun(p[1..], [LESS], false) == Run([], At(p[1..]));
    hide Char;
  }

  lemma ElementShaped(p: text)
    ensures ElementAt(p).Parsed? ==> Shaped(ElementAt(p).node)
    decreases |p|, 0
  {
    hide TagAt, Shaped;
    var s := SkipSpace(At(p));
    if s.At? && Starts(s.rest, LESS) {
      var q := SkipSpace(At(s.rest[1..]));
      if q.At? {
        var n := NameAt(q.rest);
        if !AtEnd(q.rest[n..]) {
          TagShaped(q.rest[n..], q.rest[..n], []);
        }
      }
    }
  }

  lemma TagShaped(p: text, name: text, attributes: seq<Attribute>)
    requires p != [] && DistinctNames(attributes)
    ensures TagAt(p, name, attributes).Parsed? ==> Shaped(TagAt(p, name, attributes).node)
    decreases |p|, 1
  {
    hide AttributeAt, ChildrenAt, Closed;
    var s := SkipSpace(At(p));
    if s.At? && !AtEnd(s.rest) && s.rest[0] == GREATER {
      var v := ChildrenAt(At(s.rest[1..]), []);
      ClosedKeeps(v, name, attributes);
      ChildrenShaped(At(s.rest[1..]), []);
    } else if s.At? && !AtEnd(s.rest) && s.rest[0] != SLASH {
      var a := AttributeAt(s.rest);
      if a.next.At? && !AtEnd(a.next.rest) && !HasName(attributes, a.attribute.name) {
        TagShaped(a.next.rest, name, attributes + [a.attribute]);
      }
    }
  }

  lemma ChildrenShaped(p: Pointer, children: seq<Node>)
    requires ShapedNodes(children) && (EndsInText(children) ==> p.At? && Starts(p.rest, LESS))
    ensures var r := ChildrenAt(p, children); r.Value? ==> ShapedNodes(r.children)
    decreases if p.At? then |p.rest| else 0, 2
  {
    hide ElementAt, TextRun, Blank, ShapedNodes, Shaped;
    var s := SkipSpace(p);
    if s.At? && !AtEnd(s.rest) {
      if s.rest[0] != LESS {
        SkippedStart(p.rest);
        NoSkip(s.rest);
        ShapedBehind(s.rest, children);
      } else if |s.rest| > 1 && IsNameStart(s.rest[1]) && ElementAt(s.rest).Parsed? {
        ElementShaped(s.rest);
        ElementIsElement(s.rest);
        var n := ElementAt(s.rest).node;
        ShapedAdded(children, n);
        ChildrenShaped(At(ElementAt(s.rest).rest), children + [n]);
      }
    }
  }

  lemma {:induction false} SkippedStart(p: text)
    ensures Skipped(p) == [] || !IsWhiteSpace(Skipped(p)[0])
  {
    if p != [] && IsWhiteSpace(p[0]) {
      SkippedStart(p[1..]);
    }
  }

  lemma ShapedBehind(s: text, children: seq<Node>)
    requires ShapedNodes(children) && !EndsInText(children)
    requires !AtEnd(s) && !IsWhiteSpace(s[0]) && s[0] != LESS
    ensures var r := ChildrenAt(At(s), children); r.Value? ==> ShapedNodes(r.children)
    decreases |s|, 1
  {
    hide TextRun, ShapedNodes, Blank;
    NoSkip(s);
    var run := TextRun(At(s), true, [LESS]);
    var more := WithText(children, run.chars);
    if !Blank(run.chars) {
      ShapedAdded(children, Text(run.chars));
    }
    if run.stop.At? && |run.stop.rest| + 1 < |s| {
      BehindText(s, run);
      var q := StepBack(s, run.stop.rest);
      if Starts(q, LESS) {
        ChildrenShaped(At(q), more);
      } else {
        LastByte(q, more);
      }
    }
  }

  predicate AllElements(nodes: seq<Node>) {
    forall i :: 0 <= i < |nodes| ==> nodes[i].Element?
  }

  lemma NodesShaped(p: Pointer, nodes: seq<Node>)
    requires ShapedNodes(nodes) && AllElements(nodes)
    ensures var r := NodesAt(p, nodes); r.Document? ==> r.nodes != [] && ShapedNodes(r.nodes) && AllElements(r.nodes)
    decreases if p.At? then |p.rest| else 0
  {
    hide ElementAt, ShapedNodes;
    var s := SkipSpace(p);
    if s.At? && |s.rest| > 1 && ElementAt(s.rest).Parsed? {
      ElementShaped(s.rest);
      ElementIsElement(s.rest);
      ShapedAdded(nodes, ElementAt(s.rest).node);
      NodesShaped(At(ElementAt(s.rest).rest), nodes + [ElementAt(s.rest).node]);
    }
  }

  // ---- what a returned document says of the printed one ----

  // Names that can be read, and no reference without its semicolon.
  ghost predicate Plain(n: Node)
    decreases n
  {
    match n
    case Text(value) => ClosedReferences(value)
    case Element(name, attributes, children) =>
      && ValidName(name) && PlainAttributes(attributes)
      && forall i :: 0 <= i < |children| ==> Plain(children[i])
  }

  ghost predicate PlainAttributes(attributes: seq<Attribute>) {
    forall i :: 0 <= i < |attributes| ==> ValidName(attributes[i].name) && ClosedReferences(attributes[i].value)
  }

  ghost predicate PlainNodes(nodes: seq<Node>) {
    forall i :: 0 <= i < |nodes| ==> Plain(nodes[i])
  }

  // With closed references, reading a printed attribute fails or goes on behind it.
  lemma AttributeInStep(a: Attribute, rest: text)
    requires ValidName(a.name) && ClosedReferences(a.value)
    ensures var read := AttributeAt(PrintedAttribute(a) + rest);
      read.next.Null? || (read.next == At(rest) && read.attribute.name == a.name
                          && (read.attribute == a ==> NoReference(a.value)))
  {
    hide AttributeAt, PrintedAttribute, NoReference, ClosedReferences, RawRun, Encode;
    var q := QuoteFor(a.value);
    AttributeIsValue(a, rest);
    RawBound(a.value, q, rest);
    assert ([q] + rest)[1..] == rest;
  }

  // A printed attribute that is found in the result held no reference.
  lemma AttributeForced(a: Attribute, rest: text, done: seq<Attribute>, name: text)
    requires ValidName(a.name) && ClosedReferences(a.value) && !AtEnd(rest)
    ensures var r := TagAt([SPACE] + (PrintedAttribute(a) + rest), name, done);
      r.Parsed? && r.node.Element? && |r.node.attributes| > |done| && r.node.attributes[|done|] == a
      ==> NoReference(a.value) && !HasName(done, a.name)
  {
    var p := PrintedAttribute(a) + rest;
    FirstAttribute(a, rest);
    AttributeInStep(a, rest);
    hide AttributeAt, PrintedAttribute, HasName, NoReference, ClosedReferences;
    SkipTo([SPACE], p);
    var read := AttributeAt(p);
    if read.next.At? && !HasName(done, a.name) {
      TagKeeps(rest, name, done + [read.attribute]);
    }
  }

  lemma {:induction false} AttributesForced(attributes: seq<Attribute>, done: seq<Attribute>, name: text, tail: text)
    requires PlainAttributes(attributes) && !AtEnd(tail)
    requires var r := TagAt(PrintedAttributes(attributes) + tail, name, done);
      PrintedAttributes(attributes) + tail != [] && r.Parsed? && r.node.Element?
      && r.node.attributes == done + attributes
    ensures forall i :: 0 <= i < |attributes| ==> NoReference(attributes[i].value)
    ensures TagAt(PrintedAttributes(attributes) + tail, name, done) == TagAt(tail, name, done + attributes)
    decreases |attributes|
  {
    hide TagAt, PrintedAttribute, NoReference, ClosedReferences, ValidName, HasName;
    if attributes == [] {
      assert PrintedAttributes(attributes) + tail == tail && done + attributes == done;
    } else {
      var a, rest := attributes[0], PrintedAttributes(attributes[1..]) + tail;
      assert PrintedAttributes(attributes) + tail == [SPACE] + (PrintedAttribute(a) + rest);
      assert !AtEnd(rest) by {
        TailNotEnd(attributes[1..], tail);
      }
      AttributeForced(a, rest, done, name);
      AttributeStep(a, rest, done, name);
      assert (done + [a]) + attributes[1..] == done + attributes;
      AttributesForced(attributes[1..], done + [a], name, tail);
    }
  }

  lemma TailNotEnd(attributes: seq<Attribute>, tail: text)
    requires !AtEnd(tail)
    ensures !AtEnd(PrintedAttributes(attributes) + tail)
  {
    if attributes == [] {
      assert PrintedAttributes(attributes) + tail == tail;
    }
  }

  // A text that is not blank, behind the spaces in front of it.
  lemma TextStart(before: text, v: text, w: text, tag: text) returns (s: text)
    requires !Blank(v) && AllSpace(before) && AllSpace(w) && Starts(tag, LESS)
    ensures var p := before + (Encode(v) + (w + tag));
      SkipSpace(At(p)) == At(s) && !AtEnd(s) && !IsWhiteSpace(s[0]) && s[0] != LESS
      && TextRun(At(s), true, [LESS]) == TextRun(At(p), true, [LESS])
    ensures |s| > |tag| && s[|s| - |tag|..] == tag
  {
    hide Encode, IsReference, CondensedRun;
    NotAtEnd(before, v, w, tag);
    SkippedBefore(before, v, w, tag);
    SkippedText(v, w, tag);
    NotBlank(v);
    var d := DropSpaces(v);
    s := Encode(d) + (w + tag);
    if IsReference(d) {
      var n, p := ReferenceMarkup(d, w + tag);
    } else {
      EncodeFirst(d, w + tag);
      EncodedStart(d[0], Encode(d[1..]) + (w + tag));
    }
    EncodeSome(d);
    NoSkip(s);
    assert s == (Encode(d) + w) + tag;
  }

  lemma {:induction false} NotBlank(v: text)
    requires !Blank(v)
    ensures DropSpaces(v) != []
  {
    if v[0] == SPACE {
      assert exists i :: 0 <= i < |v[1..]| && !IsWhiteSpace(v[1..][i]) by {
        var i :| 0 <= i < |v| && !IsWhiteSpace(v[i]);
        assert v[1..][i - 1] == v[i];
      }
      NotBlank(v[1..]);
    }
  }

  // A printed text that is found in the result held no reference, and was tidy.
  lemma TextForced(before: text, v: text, w: text, tag: text, done: seq<Node>)
    requires !Blank(v) && ClosedReferences(v) && AllSpace(before) && AllSpace(w)
    requires var r := ChildrenAt(At(before + (Encode(v) + (w + ([LESS] + tag)))), done);
      r.Value? && |r.children| > |done| && r.children[|done|] == Text(v)
    ensures ValidText(v)
  {
    hide Encode, NoReference, ClosedReferences, Tidy, TextRun, Blank;
    var s := TextStart(before, v, w, [LESS] + tag);
    TextBackIff(before, v, w, tag);
    var run := TextRun(At(s), true, [LESS]);
    var p := before + (Encode(v) + (w + ([LESS] + tag)));
    assert ChildrenAt(At(p), done) == ChildrenAt(At(s), done) by {
      NoSkip(s);
    }
    NoSkip(s);
    assert run.stop == At(tag);
    assert StepBack(s, tag) == [LESS] + tag;
    var more := WithText(done, run.chars);
    if Blank(run.chars) {
      ElementNext([LESS] + tag, done);
    } else {
      ChildrenKeep(At([LESS] + tag), more);
    }
  }

  lemma CoreForced(n: Node, f: Format, depth: nat, rest: text)
    requires n.Element? && Plain(n) && Shaped(n) && SpaceFormat(f)
    requires ElementAt(Core(n, f, depth) + rest).Parsed? && ElementAt(Core(n, f, depth) + rest).node == n
    ensures ValidNode(n)
    decreases n, 3
  {
    var tail := Rest(n, f, depth) + rest;
    var inner := PrintedAttributes(n.attributes) + tail;
    PlainElement(n);
    CoreText(n, f, depth, rest);
    hide Core, Rest, ElementAt, TagAt, PrintedAttributes, Plain, Shaped, PlainAttributes, ValidName, ValidNode;
    NotNameChar(n.attributes, tail);
    StartTagBack(n.name, [], inner);
    assert [] + n.attributes == n.attributes;
    AttributesForced(n.attributes, [], n.name, tail);
    HoldsForced(n, f, depth, rest);
    ValidFrom(n);
  }

  lemma PlainElement(n: Node)
    requires n.Element? && Plain(n)
    ensures ValidName(n.name) && PlainAttributes(n.attributes)
  {
  }

  lemma CoreText(n: Node, f: Format, depth: nat, rest: text)
    requires n.Element? && ValidName(n.name)
    ensures Core(n, f, depth) + rest
         == [] + ([LESS] + (n.name + (PrintedAttributes(n.attributes) + (Rest(n, f, depth) + rest))))
  {
    hide Rest, PrintedAttributes;
    assert Core(n, f, depth) + rest == OpenTag(n.name, n.attributes) + (Rest(n, f, depth) + rest);
    OpenTagText(n.name, n.attributes, Rest(n, f, depth) + rest);
  }

  lemma ValidFrom(n: Node)
    requires n.Element? && Plain(n) && Shaped(n)
    requires forall i :: 0 <= i < |n.attributes| ==> NoReference(n.attributes[i].value)
    requires forall i :: 0 <= i < |n.children| ==> ValidNode(n.children[i])
    ensures ValidNode(n)
  {
    hide NoReference, ClosedReferences, ValidName;
  }

  lemma HoldsForced(n: Node, f: Format, depth: nat, rest: text)
    requires n.Element? && Plain(n) && Shaped(n) && SpaceFormat(f)
    requires var r := TagAt(Rest(n, f, depth) + rest, n.name, n.attributes); r.Parsed? && r.node == n
    ensures forall i :: 0 <= i < |n.children| ==> ValidNode(n.children[i])
    decreases n, 2
  {
    if n.children != [] {
      var p, close := Rest(n, f, depth) + rest, CloseTag(n.name) + (f.lineBreak + rest);
      assert [LESS, SLASH] <= close;
      var held := Held(n, f, depth, close);
      RestIs(n, f, depth, rest);
      NoSkip(p);
      assert p[1..] == held;
      var v := ChildrenAt(At(held), []);
      ClosedKeeps(v, n.name, n.attributes);
      hide ChildrenAt, Closed, Rest, CloseTag, Plain, Shaped;
      HeldForced(n, f, depth, close);
    }
  }

  lemma HeldForced(n: Node, f: Format, depth: nat, close: text)
    requires n.Element? && Plain(n) && Shaped(n) && SpaceFormat(f) && n.children != [] && [LESS, SLASH] <= close
    requires var v := ChildrenAt(At(Held(n, f, depth, close)), []); v.Value? && v.children == n.children
    ensures forall i :: 0 <= i < |n.children| ==> ValidNode(n.children[i])
    decreases n, 1
  {
    hide ChildrenAt, PrintedAll, Indent, Encode;
    if IsSimple(n.children) {
      var t := n.children[0];
      assert Plain(t) && Shaped(t);
      assert [] + (Encode(t.value) + ([] + ([LESS] + close[1..]))) == Encode(t.value) + close;
      TextForced([], t.value, [], close[1..], []);
    } else {
      IndentSpace(f, depth);
      assert [] + n.children == n.children;
      ChildrenForced(f.lineBreak, n.children, f, depth + 1, Indent(f, depth), close, []);
    }
  }

  lemma PlainTail(nodes: seq<Node>)
    requires PlainNodes(nodes) && ShapedNodes(nodes) && nodes != []
    ensures Plain(nodes[0]) && Shaped(nodes[0]) && PlainNodes(nodes[1..]) && ShapedNodes(nodes[1..])
    ensures nodes[0].Text? && |nodes| > 1 ==> nodes[1].Element?
  {
    hide Plain, Shaped;
    assert forall i :: 0 <= i < |nodes[1..]| ==> nodes[1..][i] == nodes[i + 1];
  }

  lemma ValidFront(nodes: seq<Node>)
    requires nodes != [] && ValidNode(nodes[0])
    requires forall i :: 0 <= i < |nodes[1..]| ==> ValidNode(nodes[1..][i])
    ensures forall i :: 0 <= i < |nodes| ==> ValidNode(nodes[i])
  {
    hide ValidNode;
    forall i | 0 <= i < |nodes|
      ensures ValidNode(nodes[i])
    {
      if i > 0 {
        assert nodes[i] == nodes[1..][i - 1];
      }
    }
  }

  lemma PrintedFront(nodes: seq<Node>, f: Format, depth: nat, tail: text)
    requires nodes != []
    ensures PrintedAll(nodes, f, depth) + tail
         == Printed(nodes[0], f, depth) + (PrintedAll(nodes[1..], f, depth) + tail)
  {
    hide Printed;
  }

  lemma ChildrenForced(before: text, nodes: seq<Node>, f: Format, depth: nat, w: text, c: text, done: seq<Node>)
    requires PlainNodes(nodes) && ShapedNodes(nodes) && SpaceFormat(f) && AllSpace(before) && AllSpace(w)
    requires [LESS, SLASH] <= c
    requires var v := ChildrenAt(At(before + (PrintedAll(nodes, f, depth) + (w + c))), done);
      v.Value? && v.children == done + nodes
    ensures forall i :: 0 <= i < |nodes| ==> ValidNode(nodes[i])
    decreases nodes, 0
  {
    if nodes != [] {
      hide ChildrenAt, Printed, PrintedAll, Plain, Shaped, ValidNode, PlainNodes, ShapedNodes;
      PlainTail(nodes);
      var more := PrintedAll(nodes[1..], f, depth) + (w + c);
      PrintedFront(nodes, f, depth, w + c);
      assert done + nodes == (done + [nodes[0]]) + nodes[1..];
      if nodes[0].Element? {
        ElementForced(before, nodes[0], f, depth, more, done);
        ElementStep(before, nodes[0], f, depth, more, done);
        ChildrenForced(f.lineBreak, nodes[1..], f, depth, w, c, done + [nodes[0]]);
      } else {
        var gap, tag := NextTag(nodes[1..], f, depth, w, c);
        TextNodeForced(before, nodes[0], f, depth, gap, tag, done);
        TextBefore(before, nodes[0].value, f, depth, gap, tag, done);
        assert [] + more == more;
        ChildrenForced([], nodes[1..], f, depth, w, c, done + [nodes[0]]);
      }
      ValidFront(nodes);
    }
  }

  lemma TextNodeForced(before: text, n: Node, f: Format, depth: nat, gap: text, tag: text, done: seq<Node>)
    requires n.Text? && Plain(n) && Shaped(n) && SpaceFormat(f) && AllSpace(before) && AllSpace(gap)
    requires var v := ChildrenAt(At(before + (Printed(n, f, depth) + (gap + ([LESS] + tag)))), done);
      v.Value? && |v.children| > |done| && v.children[|done|] == n
    ensures ValidText(n.value) && ValidNode(n)
  {
    hide ChildrenAt, Encode, ValidText;
    IndentSpace(f, depth);
    var t := [LESS] + tag;
    assert before + (Printed(n, f, depth) + (gap + t))
        == (before + Indent(f, depth)) + (Encode(n.value) + ((f.lineBreak + gap) + t));
    TextForced(before + Indent(f, depth), n.value, f.lineBreak + gap, tag, done);
  }

  lemma ElementForced(before: text, n: Node, f: Format, depth: nat, more: text, done: seq<Node>)
    requires n.Element? && Plain(n) && Shaped(n) && SpaceFormat(f) && AllSpace(before)
    requires var v := ChildrenAt(At(before + (Printed(n, f, depth) + more)), done);
      v.Value? && |v.children| > |done| && v.children[|done|] == n
    ensures ValidNode(n)
    decreases n, 4
  {
    hide Core, Printed, Indent, ElementAt, ValidNode, Plain, Shaped, ChildrenAt;
    IndentSpace(f, depth);
    PrintedCore(n, f, depth);
    var p := Core(n, f, depth) + more;
    assert before + (Printed(n, f, depth) + more) == (before + Indent(f, depth)) + p;
    CoreName(n, f, depth, more);
    SkipTo(before + Indent(f, depth), p);
    ElementChild(before + Indent(f, depth) + p, p, done);
    CoreForced(n, f, depth, more);
  }

  // The first child that is read at an element is that element.
  lemma ElementChild(q: text, p: text, done: seq<Node>)
    requires SkipSpace(At(q)) == At(p) && |p| > 1 && p[0] == LESS && IsNameStart(p[1]) && p[1] != SLASH
    requires ChildrenAt(At(q), done).Value? && |ChildrenAt(At(q), done).children| > |done|
    ensures ElementAt(p).Parsed? && ElementAt(p).node == ChildrenAt(At(q), done).children[|done|]
  {
    hide ElementAt;
    ChildrenKeep(At(ElementAt(p).rest), done + [ElementAt(p).node]);
  }

  lemma CoreName(n: Node, f: Format, depth: nat, more: text)
    requires n.Element? && Plain(n)
    ensures var p := Core(n, f, depth) + more; |p| > 1 && p[0] == LESS && IsNameStart(p[1]) && p[1] != SLASH
  {
    CoreText(n, f, depth, more);
    hide Core, Rest, PrintedAttributes;
  }

  lemma {:induction false} NodesForced(before: text, nodes: seq<Node>, f: Format, done: seq<Node>)
    requires PlainNodes(nodes) && ShapedNodes(nodes) && AllElements(nodes) && SpaceFormat(f) && AllSpace(before)
    requires NodesAt(At(before + PrintedAll(nodes, f, 0)), done) == Document(done + nodes)
    ensures forall i :: 0 <= i < |nodes| ==> ValidNode(nodes[i])
    decreases |nodes|
  {
    if nodes != [] {
      PlainTail(nodes);
      var n, more := nodes[0], PrintedAll(nodes[1..], f, 0);
      assert PrintedAll(nodes, f, 0) == Printed(n, f, 0) + more;
      assert done + nodes == (done + [n]) + nodes[1..];
      hide NodesAt, Printed, PrintedAll, Plain, Shaped, ValidNode;
      NodeForced(before, n, f, more, done);
      NodeStep(before, n, f, more, done);
      NodesForced(f.lineBreak, nodes[1..], f, done + [n]);
      ValidFront(nodes);
    }
  }

  lemma NodeForced(before: text, n: Node, f: Format, more: text, done: seq<Node>)
    requires n.Element? && Plain(n) && Shaped(n) && SpaceFormat(f) && AllSpace(before)
    requires var r := NodesAt(At(before + (Printed(n, f, 0) + more)), done);
      r.Document? && |r.nodes| > |done| && r.nodes[|done|] == n
    ensures ValidNode(n)
  {
    PrintedCore(n, f, 0);
    CoreStart(n, f, 0);
    assert Printed(n, f, 0) == Core(n, f, 0);
    var p := Core(n, f, 0) + more;
    hide Core, Printed, ElementAt, ValidNode, Plain, Shaped;
    SkipTo(before, p);
    if ElementAt(p).Parsed? {
      NodesKeep(At(ElementAt(p).rest), done + [ElementAt(p).node]);
      CoreForced(n, f, 0, more);
    }
  }

  // Over names that can be read and closed references, a printed document comes back if and only if it is valid.
  lemma DocumentRoundTripIff(nodes: seq<Node>, f: Format)
    requires PlainNodes(nodes) && SpaceFormat(f)
    ensures DocumentAt(PrintedAll(nodes, f, 0)) == Document(nodes)
       <==> nodes != [] && AllElements(nodes) && ValidNodes(nodes)
  {
    hide NodesAt, PrintedAll, Plain, Shaped, ValidNode;
    if nodes != [] && AllElements(nodes) && ValidNodes(nodes) {
      DocumentRoundTrip(nodes, f);
    }
    var p := PrintedAll(nodes, f, 0);
    if DocumentAt(p) == Document(nodes) {
      NodesShaped(At(p), []);
      assert [] + p == p && [] + nodes == nodes;
      NodesForced([], nodes, f, []);
    }
  }
}
