// Escaping text for markup, and reading characters, entities, names and runs of text back.
// A pointer into the markup is the rest of the markup from there; a zero byte ends it.
module XmlText {
  import opened Bytes

  type text = seq<byte>

  const SPACE: byte := 32
  const QUOTE: byte := 34
  const HASH: byte := 35
  const AMP: byte := 38
  const APOS: byte := 39
  const SEMICOLON: byte := 59
  const LESS: byte := 60
  const GREATER: byte := 62
  const X: byte := 120

  const ENTITIES: seq<(text, byte)> :=
    [([38, 97, 109, 112, 59], AMP), ([38, 108, 116, 59], LESS), ([38, 103, 116, 59], GREATER),
     ([38, 113, 117, 111, 116, 59], QUOTE), ([38, 97, 112, 111, 115, 59], APOS)]

  datatype Pointer = Null | At(rest: text)

  predicate AtEnd(p: text) {
    p == [] || p[0] == 0
  }

  predicate Starts(p: text, c: byte) {
    p != [] && p[0] == c
  }

  predicate IsWhiteSpace(c: byte) {
    c == 32 || 9 <= c <= 13
  }

  predicate IsAlpha(c: byte) {
    65 <= c <= 90 || 97 <= c <= 122 || c >= 127
  }

  predicate IsNameStart(c: byte) {
    IsAlpha(c) || c == 95
  }

  predicate IsNameChar(c: byte) {
    IsAlpha(c) || 48 <= c <= 57 || c == 95 || c == 45 || c == 46 || c == 58
  }

  // ---- escaping ----

  // An ampersand that begins what looks like a hexadecimal character reference.
  predicate IsReference(s: text) {
    |s| > 2 && s[0] == AMP && s[1] == HASH && s[2] == X
  }

  // How much of a reference is copied as it is: up to a semicolon, but not the last byte of the string.
  function PassLength(s: text, k: nat): (n: nat)
    requires 1 <= k < |s|
    ensures k <= n < |s|
    decreases |s| - k
  {
    if s[k] == SEMICOLON || k == |s| - 1 then k else PassLength(s, k + 1)
  }

  function HexDigit(v: nat): (c: byte)
    requires v < 16
    ensures 48 <= c <= 57 || 65 <= c <= 70
  {
    if v < 10 then 48 + v else 55 + v
  }

  function EncodeByte(c: byte): (e: text)
    ensures 1 <= |e| <= 6
  {
    if c == AMP then ENTITIES[0].0
    else if c == LESS then ENTITIES[1].0
    else if c == GREATER then ENTITIES[2].0
    else if c == QUOTE then ENTITIES[3].0
    else if c == APOS then ENTITIES[4].0
    else if c < 32 then [AMP, HASH, X, HexDigit(c / 16), HexDigit(c % 16), SEMICOLON]
    else [c]
  }

  function Encode(s: text): text {
    if s == [] then []
    else if IsReference(s) then
      var n := PassLength(s, 1);
      s[..n] + Encode(s[n..])
    else
      EncodeByte(s[0]) + Encode(s[1..])
  }

  // Copies a reference from str[start] on as it is.
  method PassThrough(str: text, start: nat) returns (out: text, i: nat)
    requires start < |str| && IsReference(str[start..])
    ensures i == start + PassLength(str[start..], 1) && out == str[start..i]
  {
    ghost var rest := str[start..];
    ghost var n := PassLength(rest, 1);
    out, i := [], start;
    while i < |str| - 1
      invariant start <= i <= start + n && i < |str|
      invariant out == str[start..i]
      invariant i > start ==> PassLength(rest, i - start) == n && str[i] != SEMICOLON
    {
      out := out + [str[i]];
      i := i + 1;
      assert rest[i - start] == str[i];
      if str[i] == SEMICOLON {
        break;
      }
    }
  }

  method EncodeString(str: text) returns (out: text)
    ensures out == Encode(str)
  {
    hide Encode, EncodeByte, PassLength;
    out := [];
    var i := 0;
    assert str[0..] == str;
    while i < |str|
      invariant 0 <= i <= |str|
      invariant Encode(str) == out + Encode(str[i..])
    {
      EncodeStep(str, i, out);
      if str[i] == AMP && i < |str| - 2 && str[i + 1] == HASH && str[i + 2] == X {
        var raw;
        raw, i := PassThrough(str, i);
        out := out + raw;
      } else {
        out := out + EncodeByte(str[i]);
        i := i + 1;
      }
    }
    EncodeNothing();
    assert str[i..] == [];
  }

  lemma EncodeNothing()
    ensures Encode([]) == []
  {
  }

  lemma EncodeStep(str: text, i: nat, out: text)
    requires i < |str|
    ensures if IsReference(str[i..])
      then var n := i + PassLength(str[i..], 1); out + Encode(str[i..]) == (out + str[i..n]) + Encode(str[n..])
      else out + Encode(str[i..]) == (out + EncodeByte(str[i])) + Encode(str[i + 1..])
  {
    hide EncodeByte;
    var rest := str[i..];
    if IsReference(rest) {
      var n := PassLength(rest, 1);
      assert rest[..n] == str[i..i + n] && rest[n..] == str[i + n..];
    } else {
      assert rest[1..] == str[i + 1..];
    }
  }

  // ---- characters and entities ----

  // What one character position yields: nothing at all, or up to one byte, and how much markup it takes.
  datatype Got = Bad | Got(chars: text, used: nat)

  // The first semicolon from k on.
  function FindSemicolon(p: text, k: nat): (n: nat)
    requires k <= |p|
    ensures k <= n <= |p|
    ensures n < |p| ==> p[n] == SEMICOLON
    ensures n < |p| ==> forall i :: k <= i < n ==> p[i] != SEMICOLON && p[i] != 0
    decreases |p| - k
  {
    if k == |p| || p[k] == 0 then |p| else if p[k] == SEMICOLON then k else FindSemicolon(p, k + 1)
  }

  datatype Number = NoNumber | Number(value: nat)

  function DigitValue(c: byte, base: nat): Number {
    if 48 <= c <= 57 then Number(c - 48)
    else if base == 16 && 97 <= c <= 102 then Number(c - 87)
    else if base == 16 && 65 <= c <= 70 then Number(c - 55)
    else NoNumber
  }

  // The number written between the last marker and position q.
  function NumberBefore(p: text, q: nat, marker: byte, base: nat): Number
    requires q < |p|
  {
    if p[q] == marker then Number(0)
    else if q == 0 then NoNumber
    else
      match DigitValue(p[q], base)
      case NoNumber => NoNumber
      case Number(d) =>
        match NumberBefore(p, q - 1, marker, base)
        case NoNumber => NoNumber
        case Number(v) => Number(v * base + d)
  }

  // A character reference; only the low byte of its number is kept.
  function Reference(p: text): (g: Got)
    requires |p| > 2 && p[0] == AMP && p[1] == HASH && p[2] != 0
    ensures g.Got? ==> 0 < g.used <= |p| && |g.chars| == 1
  {
    var hex := p[2] == X;
    if hex && AtEnd(p[3..]) then Bad else
    var q := FindSemicolon(p, if hex then 3 else 2);
    if q == |p| then Bad else
    match NumberBefore(p, q - 1, if hex then X else HASH, if hex then 16 else 10)
    case NoNumber => Bad
    case Number(v) => Got([v % 256], q + 1)
  }

  // The first entity of the table that p begins with; an ampersand that begins none is dropped.
  function Named(p: text, i: nat): (g: Got)
    requires |p| > 0 && i <= |ENTITIES|
    ensures g.Got? && 0 < g.used <= |p| && |g.chars| <= 1
    decreases |ENTITIES| - i
  {
    if i == |ENTITIES| then Got([], 1)
    else if ENTITIES[i].0 <= p then Got([ENTITIES[i].1], |ENTITIES[i].0|)
    else Named(p, i + 1)
  }

  function Char(p: text): (g: Got)
    requires !AtEnd(p)
    ensures g.Got? ==> 0 < g.used <= |p| && |g.chars| <= 1
  {
    if p[0] != AMP then Got([p[0]], 1)
    else if |p| > 2 && p[1] == HASH && p[2] != 0 then Reference(p)
    else Named(p, 0)
  }

  lemma LowByte(ucs: nat, mult: nat, v: nat, base: nat, d: nat)
    requires base == 10 || base == 16
    ensures ((ucs + (mult * d) % 0x1_0000_0000) % 0x1_0000_0000_0000_0000 + ((mult * base) % 0x1_0000_0000) * v) % 256
            == (ucs + mult * (v * base + d)) % 256
  {
    var a, b := mult * d, mult * base;
    var a1, b1 := a % 0x1_0000_0000, b % 0x1_0000_0000;
    var u := ucs + a1;
    var u1 := u % 0x1_0000_0000_0000_0000;
    assert a1 == a - 256 * (0x100_0000 * (a / 0x1_0000_0000));
    assert b1 == b - 256 * (0x100_0000 * (b / 0x1_0000_0000));
    assert u1 == u - 256 * (0x100_0000_0000_0000 * (u / 0x1_0000_0000_0000_0000));
    var k := 0x100_0000 * (b / 0x1_0000_0000);
    MulShift(b, k, v);
    assert mult * (v * base + d) == b * v + a by {
      MulSum(mult, v, base, d);
    }
    SameLowByte(u1 + b1 * v, ucs + mult * (v * base + d),
                0x100_0000_0000_0000 * (u / 0x1_0000_0000_0000_0000) + 0x100_0000 * (a / 0x1_0000_0000) + k * v);
  }

  lemma MulShift(b: int, k: int, v: int)
    ensures (b - 256 * k) * v == b * v - 256 * (k * v)
  {
  }

  lemma MulSum(m: int, v: int, base: int, d: int)
    ensures m * (v * base + d) == (m * base) * v + m * d
  {
  }

  lemma SameLowByte(x: int, y: int, k: int)
    requires x == y - 256 * k
    ensures x % 256 == y % 256
  {
  }

  // Reads the digits before the semicolon from the last to the first, in machine arithmetic.
  method ReadDigits(p: text, semicolon: nat, marker: byte, base: nat) returns (ok: bool, c: byte)
    requires 0 < semicolon < |p| && (base == 10 || base == 16)
    requires exists m :: 0 <= m < semicolon && p[m] == marker
    ensures ok <==> NumberBefore(p, semicolon - 1, marker, base).Number?
    ensures ok ==> c == NumberBefore(p, semicolon - 1, marker, base).value % 256
  {
    var ucs: nat, mult: nat := 0, 1;
    var q := semicolon - 1;
    ghost var goal := NumberBefore(p, q, marker, base);
    while p[q] != marker
      invariant 0 <= q < semicolon
      invariant exists m :: 0 <= m <= q && p[m] == marker
      invariant NumberBefore(p, q, marker, base).Number? <==> goal.Number?
      invariant goal.Number? ==> (ucs + mult * NumberBefore(p, q, marker, base).value) % 256 == goal.value % 256
      decreases q
    {
      var d := DigitValue(p[q], base);
      if d.NoNumber? {
        return false, 0;
      }
      if goal.Number? {
        LowByte(ucs, mult, NumberBefore(p, q - 1, marker, base).value, base, d.value);
      }
      ucs := (ucs + (mult * d.value) % 0x1_0000_0000) % 0x1_0000_0000_0000_0000;
      mult := (mult * base) % 0x1_0000_0000;
      q := q - 1;
    }
    return true, ucs % 256;
  }

  method FindChar(p: text, k: nat) returns (n: nat)
    requires k <= |p|
    ensures n == FindSemicolon(p, k)
  {
    n := k;
    while n < |p| && p[n] != 0 && p[n] != SEMICOLON
      invariant k <= n <= |p| && FindSemicolon(p, n) == FindSemicolon(p, k)
    {
      n := n + 1;
    }
    if n < |p| && p[n] == 0 {
      n := |p|;
    }
  }

  method GetEntity(p: text) returns (g: Got)
    requires !AtEnd(p) && p[0] == AMP
    ensures g == Char(p)
  {
    if |p| > 2 && p[1] == HASH && p[2] != 0 {
      var hex := p[2] == X;
      if hex && AtEnd(p[3..]) {
        return Bad;
      }
      var q := FindChar(p, if hex then 3 else 2);
      if q == |p| {
        return Bad;
      }
      assert p[if hex then 2 else 1] == if hex then X else HASH;
      var ok, c := ReadDigits(p, q, if hex then X else HASH, if hex then 16 else 10);
      return if ok then Got([c], q + 1) else Bad;
    }
    var i := 0;
    while i < |ENTITIES|
      invariant 0 <= i <= |ENTITIES| && Named(p, 0) == Named(p, i)
    {
      if ENTITIES[i].0 <= p {
        return Got([ENTITIES[i].1], |ENTITIES[i].0|);
      }
      i := i + 1;
    }
    return Got([], 1);
  }

  method GetChar(p: text) returns (g: Got)
    requires !AtEnd(p)
    ensures g == Char(p)
  {
    if p[0] == AMP {
      g := GetEntity(p);
    } else {
      g := Got([p[0]], 1);
    }
  }

  // An escaped byte is read back as that byte, whatever follows.
  lemma CharOfByte(c: byte, rest: text)
    ensures !AtEnd(EncodeByte(c) + rest) && Char(EncodeByte(c) + rest) == Got([c], |EncodeByte(c)|)
  {
    var p := EncodeByte(c) + rest;
    if c < 32 {
      assert p[0] == AMP && p[1] == HASH && p[2] == X && p[5] == SEMICOLON;
      assert p[3] == HexDigit(c / 16) && p[4] == HexDigit(c % 16);
      assert FindSemicolon(p, 5) == 5;
      assert FindSemicolon(p, 4) == 5;
      assert FindSemicolon(p, 3) == 5;
      assert NumberBefore(p, 2, X, 16) == Number(0);
      assert NumberBefore(p, 3, X, 16) == Number(c / 16);
      assert NumberBefore(p, 4, X, 16) == Number(c / 16 * 16 + c % 16);
    } else if c == AMP || c == LESS || c == GREATER || c == QUOTE || c == APOS {
      NamedBack(c, rest);
    }
  }

  lemma NamedBack(c: byte, rest: text)
    requires c == AMP || c == LESS || c == GREATER || c == QUOTE || c == APOS
    ensures Named(EncodeByte(c) + rest, 0) == Got([c], |EncodeByte(c)|)
  {
    var p := EncodeByte(c) + rest;
    assert p[0] == AMP && p[1] == EncodeByte(c)[1] && p[2] == EncodeByte(c)[2];
    assert EncodeByte(c) <= p;
    assert forall i :: 0 <= i < |ENTITIES| && ENTITIES[i].0 <= p ==>
      p[1] == ENTITIES[i].0[1] && p[2] == ENTITIES[i].0[2];
  }

  // ---- white space, names and runs of text ----

  function Skipped(p: text): (r: text)
    ensures |r| <= |p|
  {
    if p != [] && IsWhiteSpace(p[0]) then Skipped(p[1..]) else p
  }

  // At the end of the markup there is nothing to skip, and the result is a null pointer.
  function SkipSpace(p: Pointer): (r: Pointer)
    ensures r.At? ==> p.At? && |r.rest| <= |p.rest|
  {
    if p.Null? || AtEnd(p.rest) then Null else At(Skipped(p.rest))
  }

  method SkipWhiteSpace(p: Pointer) returns (r: Pointer)
    ensures r == SkipSpace(p)
  {
    if p.Null? || AtEnd(p.rest) {
      return Null;
    }
    var q := p.rest;
    while !AtEnd(q) && IsWhiteSpace(q[0])
      invariant Skipped(q) == Skipped(p.rest)
      decreases |q|
    {
      q := q[1..];
    }
    return At(q);
  }

  function NameLength(p: text): (n: nat)
    ensures n <= |p|
  {
    if p != [] && IsNameChar(p[0]) then 1 + NameLength(p[1..]) else 0
  }

  // The length of the name at p; 0 where there is none.
  function NameAt(p: text): (n: nat)
    ensures n <= |p|
  {
    if p != [] && IsNameStart(p[0]) then NameLength(p) else 0
  }

  method ReadName(p: text) returns (name: text, next: Pointer)
    ensures if NameAt(p) == 0 then name == [] && next == Null
      else name == p[..NameAt(p)] && next == At(p[NameAt(p)..])
  {
    if !AtEnd(p) && IsNameStart(p[0]) {
      var n := 0;
      while n < |p| && p[n] != 0 && IsNameChar(p[n])
        invariant 0 <= n <= |p| && NameLength(p) == n + NameLength(p[n..])
      {
        assert p[n..][1..] == p[n + 1..];
        n := n + 1;
      }
      return p[..n], At(p[n..]);
    }
    return [], Null;
  }

  predicate ValidName(name: text) {
    name != [] && IsNameStart(name[0]) && forall i :: 0 <= i < |name| ==> IsNameChar(name[i])
  }

  lemma {:induction false} NameLengthOf(name: text, rest: text)
    requires forall i :: 0 <= i < |name| ==> IsNameChar(name[i])
    requires rest == [] || !IsNameChar(rest[0])
    ensures NameLength(name + rest) == |name|
  {
    if name == [] {
      assert name + rest == rest;
    } else {
      assert (name + rest)[1..] == name[1..] + rest;
      NameLengthOf(name[1..], rest);
    }
  }

  // A valid name is read back up to the first byte that cannot belong to it.
  lemma NameBack(name: text, rest: text)
    requires ValidName(name) && (rest == [] || !IsNameChar(rest[0]))
    ensures NameAt(name + rest) == |name|
  {
    NameLengthOf(name, rest);
  }

  predicate StringEqual(p: text, tag: text) {
    !AtEnd(p) && tag <= p
  }

  // The text up to the end tag, and where reading stopped: at the end tag, at the end of the markup, or nowhere.
  datatype Run = Run(chars: text, stop: Pointer)

  function RawRun(p: text, endTag: text): (r: Run)
    ensures r.stop.At? ==> |r.stop.rest| <= |p|
  {
    if AtEnd(p) || StringEqual(p, endTag) then Run([], At(p)) else
    match Char(p)
    case Bad => Run([], Null)
    case Got(chars, used) =>
      var more := RawRun(p[used..], endTag);
      Run(chars + more.chars, more.stop)
  }

  // Runs of white space become one space, before the next character; space says that one is due.
  function CondensedRun(p: text, endTag: text, space: bool): (r: Run)
    ensures r.stop.At? ==> |r.stop.rest| <= |p|
  {
    if AtEnd(p) || StringEqual(p, endTag) then Run([], At(p))
    else if IsWhiteSpace(p[0]) then CondensedRun(p[1..], endTag, true)
    else
      var lead := if space then [SPACE] else [];
      match Char(p)
      case Bad => Run(lead, Null)
      case Got(chars, used) =>
        var more := CondensedRun(p[used..], endTag, false);
        Run(lead + chars + more.chars, more.stop)
  }

  function AfterTag(stop: Pointer, endTag: text): Pointer {
    if stop.At? && StringEqual(stop.rest, endTag) then At(stop.rest[|endTag|..]) else stop
  }

  function TextRun(p: Pointer, trim: bool, endTag: text): Run {
    var start := if trim then SkipSpace(p) else p;
    if start.Null? then Run([], Null) else
    var run := if trim then CondensedRun(start.rest, endTag, false) else RawRun(start.rest, endTag);
    Run(run.chars, AfterTag(run.stop, endTag))
  }

  method ReadRaw(p: text, endTag: text) returns (chars: text, stop: Pointer)
    ensures Run(chars, stop) == RawRun(p, endTag)
  {
    var q := p;
    chars := [];
    while !AtEnd(q) && !StringEqual(q, endTag)
      invariant RawRun(p, endTag) == Run(chars + RawRun(q, endTag).chars, RawRun(q, endTag).stop)
      decreases |q|
    {
      var g := GetChar(q);
      if g.Bad? {
        return chars, Null;
      }
      chars := chars + g.chars;
      q := q[g.used..];
    }
    return chars, At(q);
  }

  method ReadCondensed(p: text, endTag: text) returns (chars: text, stop: Pointer)
    ensures Run(chars, stop) == CondensedRun(p, endTag, false)
  {
    hide Char, CondensedRun;
    var q, whitespace := p, false;
    chars := [];
    while !AtEnd(q) && !StringEqual(q, endTag)
      invariant CondensedRun(p, endTag, false)
                == Run(chars + CondensedRun(q, endTag, whitespace).chars, CondensedRun(q, endTag, whitespace).stop)
      decreases |q|
    {
      CondensedStep(q, endTag, whitespace, chars);
      if IsWhiteSpace(q[0]) {
        whitespace := true;
        q := q[1..];
      } else {
        if whitespace {
          chars := chars + [SPACE];
        }
        var g := GetChar(q);
        if g.Bad? {
          return chars, Null;
        }
        chars := chars + g.chars;
        q := q[g.used..];
        whitespace := false;
      }
    }
    CondensedStep(q, endTag, whitespace, chars);
    return chars, At(q);
  }

  // One step of condensing reading, behind the characters read so far.
  lemma CondensedStep(p: text, endTag: text, space: bool, chars: text)
    ensures var run := CondensedRun(p, endTag, space);
      var lead := if space then [SPACE] else [];
      if AtEnd(p) || StringEqual(p, endTag) then chars + run.chars == chars && run.stop == At(p)
      else if IsWhiteSpace(p[0]) then run == CondensedRun(p[1..], endTag, true)
      else if Char(p).Bad? then run == Run(lead, Null)
      else
        var more := CondensedRun(p[Char(p).used..], endTag, false);
        chars + run.chars == chars + lead + Char(p).chars + more.chars && run.stop == more.stop
  {
    hide Char;
  }

  method ReadText(p: Pointer, trim: bool, endTag: text) returns (chars: text, next: Pointer)
    requires endTag != [] && endTag[0] != 0
    ensures Run(chars, next) == TextRun(p, trim, endTag)
  {
    if !trim {
      if p.Null? {
        return [], Null;
      }
      chars, next := ReadRaw(p.rest, endTag);
    } else {
      var q := SkipWhiteSpace(p);
      if q.Null? {
        return [], Null;
      }
      chars, next := ReadCondensed(q.rest, endTag);
    }
    if next.At? && !AtEnd(next.rest) {
      StopsAtTag(p, trim, endTag);
      next := At(next.rest[|endTag|..]);
    }
  }

  // Reading that stops before the end of the markup has found the end tag.
  lemma {:induction false} RawStops(p: text, endTag: text)
    ensures var s := RawRun(p, endTag).stop; s.At? && !AtEnd(s.rest) ==> StringEqual(s.rest, endTag)
    decreases |p|
  {
    if !AtEnd(p) && !StringEqual(p, endTag) && Char(p).Got? {
      RawStops(p[Char(p).used..], endTag);
    }
  }

  lemma {:induction false} CondensedStops(p: text, endTag: text, space: bool)
    ensures var s := CondensedRun(p, endTag, space).stop; s.At? && !AtEnd(s.rest) ==> StringEqual(s.rest, endTag)
    decreases |p|
  {
    if !AtEnd(p) && !StringEqual(p, endTag) {
      if IsWhiteSpace(p[0]) {
        CondensedStops(p[1..], endTag, true);
      } else if Char(p).Got? {
        CondensedStops(p[Char(p).used..], endTag, false);
      }
    }
  }

  lemma StopsAtTag(p: Pointer, trim: bool, endTag: text)
    ensures var start := if trim then SkipSpace(p) else p;
      start.At? ==>
        var s := (if trim then CondensedRun(start.rest, endTag, false) else RawRun(start.rest, endTag)).stop;
        s.At? && !AtEnd(s.rest) ==> StringEqual(s.rest, endTag)
  {
    var start := if trim then SkipSpace(p) else p;
    if start.At? {
      RawStops(start.rest, endTag);
      CondensedStops(start.rest, endTag, false);
    }
  }
}
