// What reading makes of escaped text.
module XmlReadBack {
  import opened Bytes
  import opened XmlText

  ghost predicate NoReference(v: text) {
    forall i :: 0 <= i < |v| ==> !IsReference(v[i..])
  }

  predicate AllSpace(w: text) {
    forall i :: 0 <= i < |w| ==> IsWhiteSpace(w[i])
  }

  predicate IsQuote(q: byte) {
    q == QUOTE || q == APOS
  }

  lemma NoReferenceTail(v: text)
    requires v != []
    ensures NoReference(v) <==> !IsReference(v) && NoReference(v[1..])
  {
    assert v[0..] == v;
    forall i | 1 <= i < |v|
      ensures v[1..][i - 1..] == v[i..]
    {
    }
    if !IsReference(v) && NoReference(v[1..]) {
      forall i | 0 <= i < |v|
        ensures !IsReference(v[i..])
      {
        if i > 0 {
          assert v[1..][i - 1..] == v[i..];
        }
      }
    }
    if NoReference(v) {
      forall i | 0 <= i < |v[1..]|
        ensures !IsReference(v[1..][i..])
      {
        assert v[1..][i..] == v[i + 1..];
      }
    }
  }

  lemma EncodeFirst(v: text, rest: text)
    requires v != [] && !IsReference(v)
    ensures Encode(v) + rest == EncodeByte(v[0]) + (Encode(v[1..]) + rest)
  {
    hide EncodeByte;
  }

  // No escaped byte begins like a quote or a tag.
  lemma EncodedStart(c: byte, rest: text)
    ensures EncodeByte(c) + rest != []
    ensures var b := (EncodeByte(c) + rest)[0];
      !IsQuote(b) && b != LESS && b != 0 && (IsWhiteSpace(b) <==> c == SPACE)
  {
  }

  // ---- attribute values ----

  lemma RawFirst(p: text, q: byte)
    requires !AtEnd(p) && p[0] != q
    ensures RawRun(p, [q]) ==
      if Char(p).Bad? then Run([], Null)
      else var more := RawRun(p[Char(p).used..], [q]); Run(Char(p).chars + more.chars, more.stop)
    ensures Char(p).Got? ==>
      var more := RawRun(p[Char(p).used..], [q]); more.stop.At? ==> |more.stop.rest| <= |p[Char(p).used..]|
  {
    hide Char;
  }

  // The first byte of a value comes back, if no reference begins there.
  lemma RawByte(v: text, q: byte, tail: text)
    requires v != [] && !IsReference(v) && IsQuote(q)
    ensures var more := RawRun(Encode(v[1..]) + tail, [q]);
      RawRun(Encode(v) + tail, [q]) == Run([v[0]] + more.chars, more.stop)
  {
    hide Encode, EncodeByte, Char, IsReference, RawRun;
    EncodeFirst(v, tail);
    var more := Encode(v[1..]) + tail;
    var p := EncodeByte(v[0]) + more;
    EncodedStart(v[0], more);
    CharOfByte(v[0], more);
    assert p[|EncodeByte(v[0])|..] == more;
    RawFirst(p, q);
  }

  // Without references, a value comes back whole, up to the closing quote.
  lemma {:induction false} RawBack(v: text, q: byte, rest: text)
    requires NoReference(v) && IsQuote(q)
    ensures RawRun(Encode(v) + ([q] + rest), [q]) == Run(v, At([q] + rest))
  {
    var tail := [q] + rest;
    hide Encode, NoReference, IsReference;
    if v == [] {
      EncodeNothing();
      assert Encode(v) + tail == tail;
    } else {
      hide RawRun;
      NoReferenceTail(v);
      RawBack(v[1..], q, rest);
      RawByte(v, q, tail);
    }
  }

  // The first semicolon of an escaped byte is its last byte.
  lemma EncodedSemicolon(c: byte, before: text, after: text, k: nat)
    requires k <= |before| && forall i :: k <= i < |before| ==> before[i] != SEMICOLON
    ensures var n := FindSemicolon(before + EncodeByte(c) + after, k);
      n == |before + EncodeByte(c) + after| || n >= |before| + |EncodeByte(c)| - 1
  {
    var p := before + EncodeByte(c) + after;
    var n := FindSemicolon(p, k);
    assert forall i :: k <= i < |before| ==> p[i] == before[i];
    if |before| <= n < |before| + |EncodeByte(c)| {
      assert p[n] == EncodeByte(c)[n - |before|];
    }
  }

  lemma SemicolonFound(p: text, k: nat, n: nat)
    requires k <= n < |p|
    ensures p[n] == SEMICOLON ==> FindSemicolon(p, k) <= n || FindSemicolon(p, k) == |p|
  {
  }

  // Every reference has its semicolon.
  ghost predicate ClosedReferences(v: text) {
    forall i :: 0 <= i < |v| && IsReference(v[i..]) ==> SEMICOLON in v[i..]
  }

  lemma ClosedTail(v: text, k: nat)
    requires k <= |v|
    ensures ClosedReferences(v) ==> ClosedReferences(v[k..])
  {
    if ClosedReferences(v) {
      forall i | 0 <= i < |v[k..]| && IsReference(v[k..][i..])
        ensures SEMICOLON in v[k..][i..]
      {
        assert v[k..][i..] == v[k + i..];
      }
    }
  }

  // Reading fails, or runs past the tail, or comes to it with at most n characters; or less than n.
  ghost predicate Keeps(r: Run, n: int, tail: text) {
    r.stop.Null? || |r.stop.rest| + 1 < |tail| || (r.stop.rest == tail && |r.chars| <= n)
  }

  ghost predicate Loses(r: Run, n: int, tail: text) {
    Keeps(r, n - 1, tail)
  }

  // What references in a value do to its reading: bytes are lost, but reading stays in step while all are closed.
  ghost predicate Bounded(r: Run, v: text, n: int, tail: text) {
    && Keeps(r, n, tail) && (!NoReference(v) ==> Loses(r, n, tail))
    && (ClosedReferences(v) ==> r.stop.Null? || r.stop.rest == tail)
  }

  // Some characters in front of a reading that is bounded.
  lemma BoundedStep(r: Run, chars: text, more: Run, v: text, k: nat, n: int, m: int, tail: text)
    requires k <= |v| && r == Run(chars + more.chars, more.stop) && Bounded(more, v[k..], m, tail)
    requires m + |chars| <= n && (NoReference(v[k..]) && !NoReference(v) ==> m + |chars| < n)
    ensures Bounded(r, v, n, tail)
  {
    ClosedTail(v, k);
    hide NoReference, ClosedReferences;
  }

  lemma BoundedEnds(r: Run, v: text, n: int, tail: text)
    requires r.stop.Null? || |r.stop.rest| + 1 < |tail| || (r.stop.rest == tail && |r.chars| <= n && v == [])
    requires r.stop.At? && r.stop.rest != tail ==> !ClosedReferences(v)
    ensures Bounded(r, v, n, tail)
  {
  }

  lemma PassBody(v: text, k: nat)
    requires 1 <= k < |v|
    ensures var n := PassLength(v, k);
      (forall i :: k <= i < n ==> v[i] != SEMICOLON) && (v[n] == SEMICOLON || n == |v| - 1)
    decreases |v| - k
  {
    if v[k] != SEMICOLON && k < |v| - 1 {
      PassBody(v, k + 1);
    }
  }

  // The markup of a value that begins with a reference.
  lemma ReferenceMarkup(v: text, tail: text) returns (n: nat, p: text)
    requires IsReference(v) && tail != []
    ensures n == PassLength(v, 1) && 2 <= n < |v| && (forall i :: 1 <= i < n ==> v[i] != SEMICOLON)
    ensures p == Encode(v) + tail && p == v[..n] + EncodeByte(v[n]) + (Encode(v[n + 1..]) + tail)
    ensures v[n] == SEMICOLON || (n == |v| - 1 && !ClosedReferences(v))
    ensures |p| > 3 && p[0] == AMP && p[1] == HASH && p[2] == X
  {
    n := PassLength(v, 1);
    p := Encode(v) + tail;
    PassBody(v, 1);
    assert n != 1;
    assert v[n] != SEMICOLON ==> SEMICOLON !in v[0..] && v[0..] == v;
    assert !IsReference(v[n..]);
    assert Encode(v[n..]) == EncodeByte(v[n]) + Encode(v[n..][1..]);
    assert v[n..][1..] == v[n + 1..];
    hide Encode;
    assert p == v[..n] + EncodeByte(v[n]) + (Encode(v[n + 1..]) + tail);
    if n == 2 {
      assert v[n] == X && EncodeByte(X) == [X];
    }
  }

  lemma {:induction false} RawBound(v: text, q: byte, rest: text)
    requires IsQuote(q)
    ensures Bounded(RawRun(Encode(v) + ([q] + rest), [q]), v, |v|, [q] + rest)
    decreases |v|
  {
    var tail := [q] + rest;
    var r := RawRun(Encode(v) + tail, [q]);
    hide Encode, NoReference, IsReference, ClosedReferences, Bounded;
    if v == [] {
      EncodeNothing();
      assert Encode(v) + tail == tail;
      BoundedEnds(r, v, 0, tail);
    } else if IsReference(v) {
      RawReference(v, q, rest);
    } else {
      hide RawRun;
      NoReferenceTail(v);
      RawByte(v, q, tail);
      RawBound(v[1..], q, rest);
      BoundedStep(r, [v[0]], RawRun(Encode(v[1..]) + tail, [q]), v, 1, |v|, |v| - 1, tail);
    }
  }

  // A reference that can be read ends no earlier than the byte its copying stops at, and there if that is a semicolon.
  lemma ReferenceUse(v: text, n: nat, p: text, after: text)
    requires 2 <= n < |v| && |p| > 3 && p[0] == AMP && p[1] == HASH && p[2] == X
    requires p == v[..n] + EncodeByte(v[n]) + after && forall i :: 1 <= i < n ==> v[i] != SEMICOLON
    ensures Char(p).Got? ==> |Char(p).chars| == 1 && Char(p).used >= n + |EncodeByte(v[n])|
    ensures Char(p).Got? && v[n] == SEMICOLON ==> Char(p).used == n + |EncodeByte(v[n])|
    ensures Char(p).Got? ==> p[Char(p).used - 1] == SEMICOLON
  {
    assert Char(p) == Reference(p);
    if n >= 3 {
      EncodedSemicolon(v[n], v[..n], after, 3);
      assert EncodeByte(SEMICOLON) == [SEMICOLON];
      SemicolonFound(p, 3, n);
    }
  }

  // A reference that takes in a byte of the tail leaves less than what follows that byte.
  lemma RunsPast(p: text, k: nat, w: text, tail: text)
    requires !AtEnd(p) && k <= |p| && p[k..] == w + tail && AllSpace(w) && tail != [] && tail[0] != SEMICOLON
    requires Char(p).Got? && Char(p).used > k && p[Char(p).used - 1] == SEMICOLON
    ensures |p[Char(p).used..]| + 1 < |tail|
  {
    hide Char;
    var j := Char(p).used - 1 - k;
    assert (w + tail)[j] == p[k..][j] == SEMICOLON;
    assert forall i :: 0 <= i < |w| ==> w[i] != SEMICOLON;
  }

  // Reading a reference at the start of a value: it fails, or goes on where copying stopped, or is not closed and runs
  // past the first byte of the tail.
  lemma ReferenceRead(v: text, w: text, tail: text) returns (n: nat, p: text)
    requires IsReference(v) && AllSpace(w) && tail != [] && tail[0] != SEMICOLON
    ensures p == Encode(v) + (w + tail) && 2 <= n < |v| && !AtEnd(p) && p[0] == AMP
    ensures Char(p).Got? ==> |Char(p).chars| == 1
    ensures Char(p).Got? ==> p[Char(p).used..] == Encode(v[n + 1..]) + (w + tail)
                             || (!ClosedReferences(v) && |p[Char(p).used..]| + 1 < |tail|)
  {
    n, p := ReferenceMarkup(v, w + tail);
    var after := Encode(v[n + 1..]) + (w + tail);
    ReferenceUse(v, n, p, after);
    hide Encode, EncodeByte, Char, IsReference, ClosedReferences;
    var k := n + |EncodeByte(v[n])|;
    assert p[k..] == after;
    if Char(p).Got? && Char(p).used != k {
      EncodeNothing();
      assert v[n + 1..] == [];
      assert after == w + tail;
      RunsPast(p, k, w, tail);
    }
  }

  lemma RawReference(v: text, q: byte, rest: text)
    requires IsQuote(q) && IsReference(v)
    ensures Bounded(RawRun(Encode(v) + ([q] + rest), [q]), v, |v|, [q] + rest)
    decreases |v|, 0
  {
    var tail := [q] + rest;
    var n, p := ReferenceRead(v, [], tail);
    assert [] + tail == tail;
    RawFirst(p, q);
    hide Encode, Char, IsReference, NoReference, ClosedReferences, RawRun, Bounded;
    var r, after := RawRun(p, [q]), Encode(v[n + 1..]) + tail;
    if Char(p).Got? && p[Char(p).used..] == after {
      RawBound(v[n + 1..], q, rest);
      BoundedStep(r, Char(p).chars, RawRun(after, [q]), v, n + 1, |v|, |v| - n - 1, tail);
    } else {
      BoundedEnds(r, v, |v|, tail);
    }
  }

  // The value comes back whole and reading stops at its closing quote exactly when it holds no reference.
  lemma RawBackIff(v: text, q: byte, rest: text)
    requires IsQuote(q)
    ensures RawRun(Encode(v) + ([q] + rest), [q]) == Run(v, At([q] + rest)) <==> NoReference(v)
  {
    hide RawRun, Encode, NoReference;
    if NoReference(v) {
      RawBack(v, q, rest);
    }
    RawBound(v, q, rest);
  }

  // ---- text between tags ----

  // Spaces as condensing reading leaves them.
  function Condense(v: text, space: bool): text {
    if v == [] then []
    else if v[0] == SPACE then Condense(v[1..], true)
    else (if space then [SPACE] else []) + [v[0]] + Condense(v[1..], false)
  }

  function DropSpaces(v: text): (r: text)
    ensures r == [] || r[0] != SPACE
    ensures |r| <= |v|
  {
    if v != [] && v[0] == SPACE then DropSpaces(v[1..]) else v
  }

  function Trimmed(v: text): text {
    Condense(DropSpaces(v), false)
  }

  lemma {:induction false} SpaceRun(w: text, rest: text, endTag: text, space: bool)
    requires AllSpace(w) && endTag != [] && !IsWhiteSpace(endTag[0]) && rest != [] && !AtEnd(rest)
    ensures CondensedRun(w + rest, endTag, space) == CondensedRun(rest, endTag, space || w != [])
  {
    if w == [] {
      assert w + rest == rest;
    } else {
      assert (w + rest)[1..] == w[1..] + rest;
      SpaceRun(w[1..], rest, endTag, true);
    }
  }

  lemma CondensedFirst(p: text, space: bool)
    requires !AtEnd(p) && p[0] != LESS
    ensures var lead: text := if space then [SPACE] else [];
      CondensedRun(p, [LESS], space) ==
        if IsWhiteSpace(p[0]) then CondensedRun(p[1..], [LESS], true)
        else if Char(p).Bad? then Run(lead, Null)
        else
          var more := CondensedRun(p[Char(p).used..], [LESS], false);
          Run(lead + Char(p).chars + more.chars, more.stop)
    ensures Char(p).Got? ==>
      var more := CondensedRun(p[Char(p).used..], [LESS], false);
      more.stop.At? ==> |more.stop.rest| <= |p[Char(p).used..]|
  {
    hide Char;
  }

  // The first byte of a text comes back, if no reference begins there; a space waits for the next byte.
  lemma CondensedByte(v: text, tail: text, space: bool)
    requires v != [] && !IsReference(v)
    ensures var run := CondensedRun(Encode(v) + tail, [LESS], space);
      if v[0] == SPACE then run == CondensedRun(Encode(v[1..]) + tail, [LESS], true)
      else
        var lead: text, more := if space then [SPACE] else [], CondensedRun(Encode(v[1..]) + tail, [LESS], false);
        run == Run(lead + [v[0]] + more.chars, more.stop)
  {
    hide Encode, EncodeByte, Char, IsReference, CondensedRun;
    EncodeFirst(v, tail);
    var more := Encode(v[1..]) + tail;
    var p := EncodeByte(v[0]) + more;
    EncodedStart(v[0], more);
    CharOfByte(v[0], more);
    assert p[|EncodeByte(v[0])|..] == more;
    CondensedFirst(p, space);
    SpaceByte();
  }

  // Without references, text comes back condensed, up to the next tag and over white space in front of it.
  lemma {:induction false} CondensedBack(v: text, w: text, rest: text, space: bool)
    requires NoReference(v) && AllSpace(w)
    ensures CondensedRun(Encode(v) + (w + ([LESS] + rest)), [LESS], space) == Run(Condense(v, space), At([LESS] + rest))
  {
    var tag := [LESS] + rest;
    var tail := w + tag;
    hide Encode, NoReference, IsReference;
    if v == [] {
      EncodeNothing();
      assert Encode(v) + tail == tail;
      SpaceRun(w, tag, [LESS], space);
    } else {
      hide CondensedRun;
      NoReferenceTail(v);
      CondensedByte(v, tail, space);
      CondensedBack(v[1..], w, rest, v[0] == SPACE);
    }
  }

  lemma SpaceByte()
    ensures EncodeByte(SPACE) == [SPACE]
  {
  }

  lemma {:induction false} SkippedSpace(w: text, p: text)
    requires AllSpace(w) && p != [] && !IsWhiteSpace(p[0])
    ensures Skipped(w + p) == p
  {
    if w == [] {
      assert w + p == p;
    } else {
      assert (w + p)[1..] == w[1..] + p;
      SkippedSpace(w[1..], p);
    }
  }

  lemma ReferenceStart(v: text)
    requires IsReference(v)
    ensures DropSpaces(v) == v != [] && v[0] == AMP
  {
  }

  // Skipping over the front of escaped text drops its leading spaces.
  lemma {:induction false} SkippedText(v: text, w: text, tag: text)
    requires AllSpace(w) && Starts(tag, LESS)
    ensures NoReference(DropSpaces(v)) <==> NoReference(v)
    ensures ClosedReferences(v) ==> ClosedReferences(DropSpaces(v))
    ensures Skipped(Encode(v) + (w + tag)) == if DropSpaces(v) == [] then tag else Encode(DropSpaces(v)) + (w + tag)
  {
    var tail := w + tag;
    if v == [] {
      assert Encode(v) + tail == tail;
      SkippedSpace(w, tag);
    } else if IsReference(v) {
      hide Encode, NoReference, IsReference, ClosedReferences;
      var n, p := ReferenceMarkup(v, tail);
      ReferenceStart(v);
    } else {
      hide Encode, EncodeByte, NoReference, IsReference, ClosedReferences;
      NoReferenceTail(v);
      ClosedTail(v, 1);
      EncodeFirst(v, tail);
      var more := Encode(v[1..]) + tail;
      EncodedStart(v[0], more);
      if v[0] == SPACE {
        SpaceByte();
        assert ([SPACE] + more)[1..] == more;
        SkippedText(v[1..], w, tag);
      }
    }
  }

  lemma {:induction false} CondensedBound(v: text, w: text, rest: text, space: bool)
    requires AllSpace(w)
    ensures Bounded(CondensedRun(Encode(v) + (w + ([LESS] + rest)), [LESS], space),
                    v, |v| + (if space then 1 else 0), [LESS] + rest)
    decreases |v|
  {
    var tag, lead: text := [LESS] + rest, if space then [SPACE] else [];
    var tail := w + tag;
    var r := CondensedRun(Encode(v) + tail, [LESS], space);
    hide Encode, NoReference, IsReference, ClosedReferences, Bounded;
    if v == [] {
      EncodeNothing();
      assert Encode(v) + tail == tail;
      SpaceRun(w, tag, [LESS], space);
      BoundedEnds(r, v, |lead|, tag);
    } else if IsReference(v) {
      CondensedReference(v, w, rest, space);
    } else {
      hide CondensedRun;
      NoReferenceTail(v);
      CondensedByte(v, tail, space);
      var more := CondensedRun(Encode(v[1..]) + tail, [LESS], v[0] == SPACE);
      CondensedBound(v[1..], w, rest, v[0] == SPACE);
      if v[0] == SPACE {
        assert r.chars == [] + r.chars;
        BoundedStep(r, [], more, v, 1, |v| + |lead|, |v|, tag);
      } else {
        BoundedStep(r, lead + [v[0]], more, v, 1, |v| + |lead|, |v| - 1, tag);
      }
    }
  }

  lemma CondensedReference(v: text, w: text, rest: text, space: bool)
    requires AllSpace(w) && IsReference(v)
    ensures Bounded(CondensedRun(Encode(v) + (w + ([LESS] + rest)), [LESS], space),
                    v, |v| + (if space then 1 else 0), [LESS] + rest)
    decreases |v|, 0
  {
    var tag, lead: text := [LESS] + rest, if space then [SPACE] else [];
    var n, p := ReferenceRead(v, w, tag);
    CondensedFirst(p, space);
    hide Encode, Char, IsReference, NoReference, ClosedReferences, CondensedRun, Bounded;
    var r, after := CondensedRun(p, [LESS], space), Encode(v[n + 1..]) + (w + tag);
    if Char(p).Got? && p[Char(p).used..] == after {
      CondensedBound(v[n + 1..], w, rest, false);
      var more := CondensedRun(after, [LESS], false);
      BoundedStep(r, lead + Char(p).chars, more, v, n + 1, |v| + |lead|, |v| - n - 1, tag);
    } else {
      BoundedEnds(r, v, |v| + |lead|, tag);
    }
  }

  // Reading printed text: behind the white space in front of it, condensed.
  lemma TextIsRun(before: text, v: text, w: text, rest: text)
    requires AllSpace(before) && AllSpace(w)
    ensures var p := before + (Encode(v) + (w + ([LESS] + rest)));
      var run := CondensedRun(Encode(DropSpaces(v)) + (w + ([LESS] + rest)), [LESS], false);
      TextRun(At(p), true, [LESS]) == Run(run.chars, AfterTag(run.stop, [LESS]))
  {
    hide Encode, NoReference, ClosedReferences;
    var tag := [LESS] + rest;
    SkippedBefore(before, v, w, tag);
    SkippedText(v, w, tag);
    NotAtEnd(before, v, w, tag);
    if DropSpaces(v) == [] {
      EncodeNothing();
      assert Encode([]) + (w + tag) == w + tag;
      SpaceRun(w, tag, [LESS], false);
      assert CondensedRun(tag, [LESS], true) == Run([], At(tag)) == CondensedRun(tag, [LESS], false);
    }
  }

  // Printing text and reading it back trims it, whatever white space stands around it.
  lemma TextBack(before: text, v: text, w: text, rest: text)
    requires NoReference(v) && AllSpace(before) && AllSpace(w)
    ensures TextRun(At(before + (Encode(v) + (w + ([LESS] + rest)))), true, [LESS]) == Run(Trimmed(v), At(rest))
  {
    hide Encode, NoReference, Condense, DropSpaces, TextRun;
    var tag := [LESS] + rest;
    TextIsRun(before, v, w, rest);
    SkippedText(v, w, tag);
    CondensedBack(DropSpaces(v), w, rest, false);
    assert tag[1..] == rest;
  }

  // Text comes back as it was, with reading behind the tag that follows it, if and only if it holds no reference and
  // is tidy; and with closed references reading fails or goes on behind that tag in any case.
  lemma TextBackIff(before: text, v: text, w: text, rest: text)
    requires AllSpace(before) && AllSpace(w)
    ensures var run := TextRun(At(before + (Encode(v) + (w + ([LESS] + rest)))), true, [LESS]);
      && (run == Run(v, At(rest)) <==> NoReference(v) && Tidy(v))
      && (ClosedReferences(v) ==> run.stop.Null? || run.stop == At(rest))
  {
    hide Encode, NoReference, ClosedReferences, Condense, TextRun, Tidy;
    var tag := [LESS] + rest;
    TextIsRun(before, v, w, rest);
    SkippedText(v, w, tag);
    CondensedBound(DropSpaces(v), w, rest, false);
    assert tag[1..] == rest;
    if NoReference(v) {
      TextBack(before, v, w, rest);
      TrimmedIff(v);
    }
  }

  lemma {:induction false} SkippedBefore(before: text, v: text, w: text, tag: text)
    requires AllSpace(before) && AllSpace(w) && Starts(tag, LESS)
    ensures Skipped(before + (Encode(v) + (w + tag))) == Skipped(Encode(v) + (w + tag))
  {
    hide Encode;
    var body := Encode(v) + (w + tag);
    if before == [] {
      assert before + body == body;
    } else {
      assert (before + body)[1..] == before[1..] + body;
      SkippedBefore(before[1..], v, w, tag);
    }
  }

  lemma NotAtEnd(before: text, v: text, w: text, tag: text)
    requires AllSpace(before) && AllSpace(w) && Starts(tag, LESS)
    ensures !AtEnd(before + (Encode(v) + (w + tag)))
  {
    if before == [] {
      assert before + (Encode(v) + (w + tag)) == Encode(v) + (w + tag);
      if v == [] {
        assert Encode(v) + (w + tag) == w + tag;
      } else if IsReference(v) {
        var n, p := ReferenceMarkup(v, w + tag);
      } else {
        EncodeFirst(v, w + tag);
        EncodedStart(v[0], Encode(v[1..]) + (w + tag));
      }
    }
  }

  predicate NoDoubles(v: text) {
    forall i :: 0 <= i < |v| - 1 ==> !(v[i] == SPACE && v[i + 1] == SPACE)
  }

  // No space at the ends, and no two in a row.
  predicate Tidy(v: text) {
    NoDoubles(v) && (v != [] ==> v[0] != SPACE && v[|v| - 1] != SPACE)
  }

  lemma DoublesTail(v: text)
    requires v != []
    ensures NoDoubles(v) <==> NoDoubles(v[1..]) && !(|v| > 1 && v[0] == SPACE && v[1] == SPACE)
  {
    if NoDoubles(v[1..]) && !(|v| > 1 && v[0] == SPACE && v[1] == SPACE) {
      forall i | 0 <= i < |v| - 1
        ensures !(v[i] == SPACE && v[i + 1] == SPACE)
      {
        if i > 0 {
          assert v[1..][i - 1] == v[i] && v[1..][i] == v[i + 1];
        }
      }
    }
  }

  lemma {:induction false} CondenseLength(v: text, space: bool)
    ensures |Condense(v, space)| <= |v| + if space then 1 else 0
    ensures v != [] && v[|v| - 1] == SPACE ==> |Condense(v, space)| < |v| + if space then 1 else 0
  {
    if v != [] {
      CondenseLength(v[1..], v[0] == SPACE);
    }
  }

  lemma {:induction false} CondenseTidy(v: text, space: bool)
    ensures Condense(v, space) == (if space then [SPACE] else []) + v
            <==> if v == [] then !space else (space ==> v[0] != SPACE) && v[|v| - 1] != SPACE && NoDoubles(v)
  {
    if v != [] {
      DoublesTail(v);
      NoDoublesOne(v);
      CondenseTidy(v[1..], v[0] == SPACE);
      if v[0] == SPACE {
        CondenseSpace(v, space);
      } else {
        CondenseFront(v, space);
      }
      hide NoDoubles, Condense;
    }
  }

  lemma CondenseSpace(v: text, space: bool)
    requires v != [] && v[0] == SPACE
    ensures Condense(v, space) == (if space then [SPACE] else []) + v
            <==> !space && Condense(v[1..], true) == [SPACE] + v[1..]
  {
    CondenseLength(v[1..], true);
    assert [SPACE] + v[1..] == v && [] + v == v;
  }

  lemma NoDoublesOne(v: text)
    ensures |v| <= 1 ==> NoDoubles(v)
  {
  }

  lemma CondenseFront(v: text, space: bool)
    requires v != [] && v[0] != SPACE
    ensures Condense(v, space) == (if space then [SPACE] else []) + v <==> Condense(v[1..], false) == v[1..]
  {
    var c, lead: text := Condense(v[1..], false), if space then [SPACE] else [];
    assert Condense(v, space) == lead + [v[0]] + c;
    if Condense(v, space) == lead + v {
      assert (lead + [v[0]] + c)[|lead| + 1..] == c && (lead + v)[|lead| + 1..] == v[1..];
    } else {
      assert lead + [v[0]] + v[1..] == lead + v;
    }
  }

  // Exactly tidy text survives.
  lemma TrimmedIff(v: text)
    ensures Trimmed(v) == v <==> Tidy(v)
  {
    if v != [] && v[0] == SPACE {
      CondenseLength(DropSpaces(v), false);
      assert |DropSpaces(v)| < |v|;
    } else {
      CondenseTidy(v, false);
    }
  }
}
