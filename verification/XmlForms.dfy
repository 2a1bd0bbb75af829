// Forms of markup that the printer does not write, and samples of those that it does.
module XmlForms {
  import opened Bytes
  import opened XmlText
  import opened XmlReadBack
  import opened XmlDocument
  import opened XmlRoundTrip

  // ---- names ----

  const UPPER := "ABCDEFGHIJKLMNOPQRSTUVWXYZ"
  const LOWER := "abcdefghijklmnopqrstuvwxyz"
  const OTHERS := "0123456789-.:"

  // A name begins with a letter or an underscore, and goes on with these, digits, minus signs, periods and colons; all
  // bytes from 127 on count as letters.
  lemma NameBytes(c: byte)
    requires c < 127
    ensures IsNameStart(c) <==> c in Ascii(UPPER) || c in Ascii(LOWER) || c in Ascii("_")
    ensures IsNameChar(c) <==> IsNameStart(c) || c in Ascii(OTHERS)
  {
    hide Ascii;
    UpperBytes(c);
    LowerBytes(c);
    OtherBytes(c);
  }

  lemma UpperBytes(c: byte)
    ensures c in Ascii(UPPER) <==> 65 <= c <= 90
  {
    if 65 <= c <= 90 {
      assert UPPER[c - 65] as int == c as int;
      assert Ascii(UPPER)[c - 65] == c;
    }
  }

  lemma LowerBytes(c: byte)
    ensures c in Ascii(LOWER) <==> 97 <= c <= 122
  {
    if 97 <= c <= 122 {
      assert LOWER[c - 97] as int == c as int;
      assert Ascii(LOWER)[c - 97] == c;
    }
  }

  lemma OtherBytes(c: byte)
    ensures c in Ascii("_") <==> c == 95
    ensures c in Ascii(OTHERS) <==> 48 <= c <= 57 || c == 45 || c == 46 || c == 58
  {
    assert Ascii("_") == [95];
    assert Ascii(OTHERS) == [48, 49, 50, 51, 52, 53, 54, 55, 56, 57, 45, 46, 58];
  }

  // ---- attributes ----

  // Bytes that stand for themselves between quotes.
  predicate Quotable(v: text, q: byte) {
    forall i :: 0 <= i < |v| ==> v[i] != AMP && v[i] != q && v[i] != 0
  }

  lemma {:induction false} PlainRaw(v: text, q: byte, rest: text)
    requires Quotable(v, q) && IsQuote(q)
    ensures RawRun(v + ([q] + rest), [q]) == Run(v, At([q] + rest))
  {
    var tail := [q] + rest;
    if v == [] {
      assert v + tail == tail;
    } else {
      var p := v + tail;
      PlainRaw(v[1..], q, rest);
      assert p[1..] == v[1..] + tail && p[0] == v[0];
      RawFirst(p, q);
      assert Char(p) == Got([v[0]], 1);
      assert v == [v[0]] + v[1..];
      hide RawRun, Char;
    }
  }

  // A name and an equals sign with white space around them, read up to the value.
  lemma AttributeStart(w1: text, name: text, w2: text, w3: text, value: text)
    requires ValidName(name) && AllSpace(w1) && AllSpace(w2) && AllSpace(w3)
    requires !AtEnd(value) && !IsWhiteSpace(value[0])
    ensures AttributeAt(w1 + (name + (w2 + (Ascii("=") + (w3 + value))))) == ValueAt(name, value)
  {
    assert Ascii("=") == [EQUALS];
    var u := w3 + value;
    var t := [EQUALS] + u;
    var afterName := w2 + t;
    var s := name + afterName;
    NameNotEnd(name, afterName);
    SkipTo(w1, s);
    SpaceOrEquals(w2, t);
    NameBack(name, afterName);
    assert s[..|name|] == name && s[|name|..] == afterName;
    SkipTo(w2, t);
    assert t[1..] == u;
    SkipTo(w3, value);
    hide NameAt, SkipSpace, ValueAt, ValidName;
  }

  lemma SpaceOrEquals(w2: text, t: text)
    requires AllSpace(w2) && Starts(t, EQUALS)
    ensures !AtEnd(w2 + t) && !IsNameChar((w2 + t)[0])
  {
    if w2 == [] {
      assert w2 + t == t;
    }
  }

  // A value in either kind of quotes, with white space around the equals sign.
  lemma QuotedRead(w1: text, name: text, w2: text, w3: text, q: byte, v: text, rest: text)
    requires ValidName(name) && AllSpace(w1) && AllSpace(w2) && AllSpace(w3)
    requires (q == Ascii("'")[0] || q == Ascii("\"")[0]) && Quotable(v, q)
    ensures AttributeAt(w1 + (name + (w2 + (Ascii("=") + (w3 + ([q] + (v + ([q] + rest))))))))
         == AttributeRead(Attribute(name, v), At(rest), NoError)
  {
    assert Ascii("'") == [39] && Ascii("\"") == [34];
    var body := v + ([q] + rest);
    AttributeStart(w1, name, w2, w3, [q] + body);
    PlainRaw(v, q, rest);
    assert ([q] + body)[1..] == body && ([q] + rest)[1..] == rest;
    hide AttributeAt, RawRun;
  }

  // Bytes of a value without quotes.
  predicate Bare(v: text) {
    forall i :: 0 <= i < |v| ==>
      v[i] != 0 && !IsWhiteSpace(v[i]) && v[i] != SLASH && v[i] != GREATER && v[i] != QUOTE && v[i] != APOS
  }

  lemma {:induction false} BareRead(v: text, rest: text)
    requires Bare(v) && (AtEnd(rest) || IsWhiteSpace(rest[0]) || rest[0] == SLASH || rest[0] == GREATER)
    ensures BareValue(v + rest) == BareRun.Bare(v, rest)
  {
    if v == [] {
      assert v + rest == rest;
    } else {
      assert (v + rest)[1..] == v[1..] + rest;
      BareRead(v[1..], rest);
      assert v == [v[0]] + v[1..];
    }
  }

  // A value without quotes ends at white space, a slash or the end of the tag; its bytes are taken as they stand.
  lemma UnquotedRead(w1: text, name: text, w2: text, w3: text, v: text, rest: text)
    requires ValidName(name) && AllSpace(w1) && AllSpace(w2) && AllSpace(w3) && v != [] && Bare(v)
    requires AtEnd(rest) || rest[0] in Ascii(" \t\r\n/>")
    ensures AttributeAt(w1 + (name + (w2 + (Ascii("=") + (w3 + (v + rest))))))
         == AttributeRead(Attribute(name, v), At(rest), NoError)
  {
    assert Ascii(" \t\r\n/>") == [32, 9, 13, 10, 47, 62];
    assert !AtEnd(v + rest) && (v + rest)[0] == v[0];
    AttributeStart(w1, name, w2, w3, v + rest);
    BareRead(v, rest);
    hide AttributeAt, BareValue;
  }

  // ---- texts ----

  // Bytes that stand for themselves in a word of text.
  predicate Word(v: text) {
    v != [] && forall i :: 0 <= i < |v| ==> v[i] != AMP && v[i] != LESS && v[i] != 0 && !IsWhiteSpace(v[i])
  }

  lemma {:induction false} WordRun(v: text, p: text, space: bool)
    requires Word(v)
    ensures var more := CondensedRun(p, [LESS], false);
      CondensedRun(v + p, [LESS], space) == Run((if space then [SPACE] else []) + v + more.chars, more.stop)
  {
    hide CondensedRun, Char, Encode;
    var q, before := v + p, if space then [SPACE] else [];
    assert q[1..] == v[1..] + p && q[0] == v[0];
    PlainChar(q);
    CondensedFirst(q, space);
    var rest := CondensedRun(q[1..], [LESS], false);
    var more := CondensedRun(p, [LESS], false);
    if v[1..] == [] {
      assert v[1..] + p == p && v == [v[0]];
    } else {
      WordRun(v[1..], p, false);
      assert rest.chars == v[1..] + more.chars;
      assert before + [v[0]] + (v[1..] + more.chars) == before + v + more.chars;
    }
  }

  lemma PlainChar(q: text)
    requires !AtEnd(q) && q[0] != AMP
    ensures Char(q) == Got([q[0]], 1)
  {
  }

  // Any run of white space between two words is read as one space, and none at the ends.
  lemma WordsRead(before: text, a: text, w: text, b: text, behind: text, rest: text)
    requires AllSpace(before) && Word(a) && AllSpace(w) && w != [] && Word(b) && AllSpace(behind)
    ensures TextRun(At(before + (a + (w + (b + (behind + (Ascii("<") + rest)))))), true, Ascii("<"))
         == Run(a + Ascii(" ") + b, At(rest))
  {
    assert Ascii("<") == [LESS] && Ascii(" ") == [SPACE];
    hide CondensedRun;
    var tag := [LESS] + rest;
    var last := b + (behind + tag);
    var s := a + (w + last);
    SkipTo(before, s);
    WordRun(a, w + last, false);
    SpaceRun(w, last, [LESS], false);
    WordRun(b, behind + tag, true);
    SpaceRun(behind, tag, [LESS], false);
    TagStops(tag, behind != []);
    assert tag[1..] == rest;
    assert [] + a + ([SPACE] + b + []) == a + [SPACE] + b;
  }

  lemma TagStops(tag: text, space: bool)
    requires Starts(tag, LESS)
    ensures CondensedRun(tag, [LESS], space) == Run([], At(tag))
  {
  }

  // ---- what is printed ----

  // A value stands in double quotes, or in single ones when it has double quotes in it.
  lemma AttributePrinted(a: Attribute)
    ensures Ascii("\"")[0] !in a.value ==>
      PrintedAttribute(a) == Encode(a.name) + Ascii("=\"") + Encode(a.value) + Ascii("\"")
    ensures Ascii("\"")[0] in a.value ==>
      PrintedAttribute(a) == Encode(a.name) + Ascii("='") + Encode(a.value) + Ascii("'")
  {
    hide Encode;
    assert Ascii("\"") == [QUOTE] && Ascii("'") == [APOS] && Ascii("=\"") == [61, 34] && Ascii("='") == [61, 39];
  }

  // An element without children closes itself.
  lemma EmptyPrinted(name: text, f: Format, depth: nat)
    ensures Printed(Element(name, [], []), f, depth)
         == Indent(f, depth) + Ascii("<") + name + Ascii(" />") + f.lineBreak
  {
    hide Indent;
    assert Ascii("<") == [LESS] && Ascii(" />") == [32, 47, 62] == [SPACE, SLASH, GREATER];
    assert PrintedAttributes([]) == [];
    assert OpenTag(name, []) == [LESS] + name;
  }

  // An element with an attribute and a text stands on one line.
  lemma SimplePrinted(name: text, a: Attribute, v: text, f: Format)
    ensures Printed(Element(name, [a], [Text(v)]), f, 0)
         == Ascii("<") + name + Ascii(" ") + PrintedAttribute(a) + Ascii(">") + Encode(v)
            + Ascii("</") + name + Ascii(">") + f.lineBreak
  {
    hide Encode, PrintedAttribute;
    assert Ascii("<") == [LESS] && Ascii(" ") == [SPACE] && Ascii(">") == [GREATER] && Ascii("</") == [LESS, SLASH];
    assert PrintedAttributes([a]) == [SPACE] + PrintedAttribute(a) by {
      assert [a][1..] == [] && PrintedAttributes([]) == [];
    }
    hide PrintedAttributes;
    assert OpenTag(name, [a]) == [LESS] + name + [SPACE] + PrintedAttribute(a);
  }

  // An element inside another stands on a line of its own, indented once.
  lemma NestedPrinted(name: text, inner: text, f: Format)
    ensures Printed(Element(name, [], [Element(inner, [], [])]), f, 0)
         == Ascii("<") + name + Ascii(">") + f.lineBreak
            + (f.indent + Ascii("<") + inner + Ascii(" />") + f.lineBreak)
            + Ascii("</") + name + Ascii(">") + f.lineBreak
  {
    hide Printed, PrintedAll, Ascii;
    EmptyPrinted(inner, f, 1);
    assert Indent(f, 1) == Indent(f, 0) + f.indent == f.indent;
    OnePrinted(Element(inner, [], []), f, 1);
    OuterPrinted(name, Element(inner, [], []), f);
  }

  lemma OuterPrinted(name: text, child: Node, f: Format)
    requires child.Element?
    ensures Printed(Element(name, [], [child]), f, 0)
         == Ascii("<") + name + Ascii(">") + f.lineBreak + PrintedAll([child], f, 1)
            + Ascii("</") + name + Ascii(">") + f.lineBreak
  {
    hide PrintedAll;
    assert Ascii("<") == [LESS] && Ascii(">") == [GREATER] && Ascii("</") == [LESS, SLASH];
    assert PrintedAttributes([]) == [];
    assert OpenTag(name, []) == [LESS] + name;
  }

  lemma OnePrinted(n: Node, f: Format, depth: nat)
    ensures PrintedAll([n], f, depth) == Printed(n, f, depth)
  {
    hide Printed;
    assert [n][1..] == [] && PrintedAll([], f, depth) == [];
  }

  // ---- errors ----

  // An end tag whose name does not begin with the name of the element.
  lemma WrongEndTag(name: text, other: text)
    requires ValidName(name) && ValidName(other) && !(name <= other + Ascii(">"))
    ensures ElementAt(Ascii("<") + (name + (Ascii("></") + (other + Ascii(">"))))) == Failed(ReadingEndTag)
  {
    hide ElementAt, ChildrenAt, ValidName, TagAt;
    assert Ascii("<") == [LESS] && Ascii(">") == [GREATER] && Ascii("></") == [GREATER, LESS, SLASH];
    var close := [LESS, SLASH] + (other + [GREATER]);
    var inner := [GREATER] + close;
    assert [GREATER, LESS, SLASH] + (other + [GREATER]) == inner;
    StartTagBack(name, [], inner);
    assert [] + ([LESS] + (name + inner)) == [LESS] + (name + inner);
    EndStep([], close, []);
    assert [] + close == close;
    WrongEnd(name, inner, other + [GREATER]);
  }

  lemma WrongEnd(name: text, inner: text, t: text)
    requires inner == [GREATER] + ([LESS, SLASH] + t) && !(name <= t)
    requires ChildrenAt(At([LESS, SLASH] + t), []) == Value([], [LESS, SLASH] + t)
    ensures TagAt(inner, name, []) == Failed(ReadingEndTag)
  {
    hide ChildrenAt;
    NoSkip(inner);
    assert inner[1..] == [LESS, SLASH] + t;
    TagInFront(name, t);
  }

  lemma TagInFront(name: text, t: text)
    ensures [LESS, SLASH] + name <= [LESS, SLASH] + t ==> name <= t
  {
    assert ([LESS, SLASH] + name)[2..] == name && ([LESS, SLASH] + t)[2..] == t;
  }

  // Markup without an element.
  lemma NoElement(w: text, p: text)
    requires AllSpace(w) && (p == [] || (!IsWhiteSpace(p[0]) && p[0] != LESS))
    ensures DocumentAt(w + p) == DocumentError(DocumentEmpty)
  {
    if p == [] {
      assert w + p == w;
      OnlySpace(w);
    } else if !AtEnd(p) {
      SkipTo(w, p);
    } else {
      SkippedSpace(w, p);
    }
  }
}
