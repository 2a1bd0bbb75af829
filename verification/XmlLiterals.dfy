// What the markup looks like, character for character: entities, references, and how they are written and read.
module XmlLiterals {
  import opened Bytes
  import opened XmlText
  import opened XmlReadBack

  // ---- entities ----

  lemma NamedIs(p: text, i: nat)
    requires i < |ENTITIES| && ENTITIES[i].0 <= p && forall j :: 0 <= j < i ==> !(ENTITIES[j].0 <= p)
    ensures p != [] && Named(p, 0) == Got([ENTITIES[i].1], |ENTITIES[i].0|)
  {
    NamedFrom(p, 0, i);
  }

  lemma {:induction false} NamedFrom(p: text, k: nat, i: nat)
    requires k <= i < |ENTITIES| && ENTITIES[i].0 <= p && forall j :: 0 <= j < i ==> !(ENTITIES[j].0 <= p)
    ensures p != [] && Named(p, k) == Got([ENTITIES[i].1], |ENTITIES[i].0|)
    decreases i - k
  {
    if k < i {
      NamedFrom(p, k + 1, i);
    }
  }

  lemma PrefixAgrees(e: text, p: text, k: nat)
    ensures e <= p && k < |e| ==> k < |p| && p[k] == e[k]
  {
  }

  // An entity, whatever follows it.
  lemma EntityRead(name: string, c: byte, i: nat, rest: text)
    requires i < |ENTITIES| && ENTITIES[i] == (Ascii(name), c) && |name| > 2 && name[1] != '#'
    requires forall j :: 0 <= j < i ==> ENTITIES[j].0[1] != ENTITIES[i].0[1] || ENTITIES[j].0[2] != ENTITIES[i].0[2]
    ensures !AtEnd(Ascii(name) + rest) && Char(Ascii(name) + rest) == Got([c], |name|)
  {
    var p := Ascii(name) + rest;
    assert ENTITIES[i].0 <= p && p[1] == ENTITIES[i].0[1] && p[2] == ENTITIES[i].0[2];
    forall j | 0 <= j < i
      ensures !(ENTITIES[j].0 <= p)
    {
      PrefixAgrees(ENTITIES[j].0, p, 1);
      PrefixAgrees(ENTITIES[j].0, p, 2);
    }
    NamedIs(p, i);
    assert p[0] == ENTITIES[i].0[0] == AMP;
    assert p[1] == name[1] as int || p[1] == 63;
  }

  // The five entities by their names.
  lemma EntitiesRead(rest: text)
    ensures !AtEnd(Ascii("&amp;") + rest) && Char(Ascii("&amp;") + rest) == Got(Ascii("&"), 5)
    ensures !AtEnd(Ascii("&lt;") + rest) && Char(Ascii("&lt;") + rest) == Got(Ascii("<"), 4)
    ensures !AtEnd(Ascii("&gt;") + rest) && Char(Ascii("&gt;") + rest) == Got(Ascii(">"), 4)
    ensures !AtEnd(Ascii("&quot;") + rest) && Char(Ascii("&quot;") + rest) == Got(Ascii("\""), 6)
    ensures !AtEnd(Ascii("&apos;") + rest) && Char(Ascii("&apos;") + rest) == Got(Ascii("'"), 6)
  {
    hide Char, Named;
    assert Ascii("&") == [38] && Ascii("<") == [60] && Ascii(">") == [62] && Ascii("\"") == [34] && Ascii("'") == [39];
    assert Ascii("&amp;") == [38, 97, 109, 112, 59] && Ascii("&lt;") == [38, 108, 116, 59];
    assert Ascii("&gt;") == [38, 103, 116, 59] && Ascii("&quot;") == [38, 113, 117, 111, 116, 59];
    assert Ascii("&apos;") == [38, 97, 112, 111, 115, 59];
    EntityRead("&amp;", 38, 0, rest);
    EntityRead("&lt;", 60, 1, rest);
    EntityRead("&gt;", 62, 2, rest);
    EntityRead("&quot;", 34, 3, rest);
    EntityRead("&apos;", 39, 4, rest);
  }

  // An ampersand in front of anything else is dropped.
  lemma LooseAmpersand(rest: text)
    requires rest == [] || (rest[0] != HASH && rest[0] != 97 && rest[0] != 108 && rest[0] != 103 && rest[0] != 113)
    ensures Char([AMP] + rest) == Got([], 1)
  {
    var p := [AMP] + rest;
    forall j | 0 <= j < |ENTITIES|
      ensures !(ENTITIES[j].0 <= p)
    {
      PrefixAgrees(ENTITIES[j].0, p, 1);
    }
    NoneNamed(p, 0);
  }

  lemma {:induction false} NoneNamed(p: text, k: nat)
    requires p != [] && k <= |ENTITIES| && forall j :: 0 <= j < |ENTITIES| ==> !(ENTITIES[j].0 <= p)
    ensures Named(p, k) == Got([], 1)
    decreases |ENTITIES| - k
  {
    if k < |ENTITIES| {
      NoneNamed(p, k + 1);
    }
  }

  // ---- what a byte is written as ----

  function Written(c: byte): text {
    if c == 38 then Ascii("&amp;")
    else if c == 60 then Ascii("&lt;")
    else if c == 62 then Ascii("&gt;")
    else if c == 34 then Ascii("&quot;")
    else if c == 39 then Ascii("&apos;")
    else if c < 32 then
      Ascii("&#x") + [Ascii("0123456789ABCDEF")[c / 16], Ascii("0123456789ABCDEF")[c % 16]] + Ascii(";")
    else [c]
  }

  lemma ByteWritten(c: byte)
    ensures EncodeByte(c) == Written(c)
  {
    assert Ascii("&amp;") == [38, 97, 109, 112, 59] && Ascii("&lt;") == [38, 108, 116, 59];
    assert Ascii("&gt;") == [38, 103, 116, 59] && Ascii("&quot;") == [38, 113, 117, 111, 116, 59];
    assert Ascii("&apos;") == [38, 97, 112, 111, 115, 59];
    assert Ascii("&#x") == [38, 35, 120] && Ascii(";") == [59];
    HexWritten(c / 16);
    HexWritten(c % 16);
  }

  lemma HexWritten(v: nat)
    requires v < 16
    ensures HexDigit(v) == Ascii("0123456789ABCDEF")[v]
  {
    assert Ascii("0123456789ABCDEF") == [48, 49, 50, 51, 52, 53, 54, 55, 56, 57, 65, 66, 67, 68, 69, 70];
  }

  lemma ReferenceStarts(s: text)
    ensures IsReference(s) ==> Ascii("&#x") <= s
  {
    assert Ascii("&#x") == [38, 35, 120];
  }

  // A string is written byte by byte, except for what looks like a hexadecimal reference.
  lemma TextWritten(c: byte, v: text)
    requires !(Ascii("&#x") <= [c] + v)
    ensures Encode([c] + v) == Written(c) + Encode(v)
  {
    hide EncodeByte;
    assert ([c] + v)[1..] == v;
    ReferenceStarts([c] + v);
    ByteWritten(c);
  }

  lemma {:induction false} PassTo(s: text, k: nat, n: nat)
    requires 1 <= k <= n < |s| && (n == |s| - 1 || s[n] == SEMICOLON) && forall i :: k <= i < n ==> s[i] != SEMICOLON
    ensures PassLength(s, k) == n
    decreases n - k
  {
    if k < n {
      PassTo(s, k + 1, n);
    }
  }

  // A hexadecimal reference is copied as it stands, with its semicolon.
  lemma ReferenceWritten(digits: text, v: text)
    requires SEMICOLON !in digits
    ensures Encode(Ascii("&#x") + digits + Ascii(";") + v) == Ascii("&#x") + digits + Ascii(";") + Encode(v)
  {
    hide Encode;
    assert Ascii("&#x") == [38, 35, 120] == [AMP, HASH, X] && Ascii(";") == [59] == [SEMICOLON];
    PassedOver([AMP, HASH, X] + digits, v);
    assert [AMP, HASH, X] + digits + [SEMICOLON] + v == [AMP, HASH, X] + digits + ([SEMICOLON] + v);
    assert [AMP, HASH, X] + digits + [SEMICOLON] + Encode(v) == [AMP, HASH, X] + digits + ([SEMICOLON] + Encode(v));
  }

  lemma PassedOver(head: text, v: text)
    requires [AMP, HASH, X] <= head && SEMICOLON !in head
    ensures Encode(head + ([SEMICOLON] + v)) == head + ([SEMICOLON] + Encode(v))
  {
    var s, n := head + ([SEMICOLON] + v), |head|;
    assert s[n] == SEMICOLON && s[0] == AMP && s[1] == HASH && s[2] == X;
    forall i | 1 <= i < n
      ensures s[i] != SEMICOLON
    {
      assert s[i] == head[i];
    }
    PassTo(s, 1, n);
    assert s[n..] == [SEMICOLON] + v && s[..n] == head;
    assert ([SEMICOLON] + v)[1..] == v;
  }

  // ---- numeric references ----

  // The number that digits stand for, the last one for ones.
  function Positional(d: seq<nat>, base: nat): nat {
    if d == [] then 0 else Positional(d[..|d| - 1], base) * base + d[|d| - 1]
  }

  // The markup writes digits, in either case of letters.
  predicate Writes(m: text, d: seq<nat>, base: nat)
    requires base <= 16
  {
    |m| == |d| && forall i :: 0 <= i < |m| ==> IsDigit(m[i], d[i], base)
  }

  predicate IsDigit(c: byte, v: nat, base: nat)
    requires base <= 16
  {
    v < base && (c == Ascii("0123456789abcdef")[v] || c == Ascii("0123456789ABCDEF")[v])
  }

  lemma DigitRead(c: byte, v: nat, base: nat)
    requires (base == 10 || base == 16) && IsDigit(c, v, base)
    ensures DigitValue(c, base) == Number(v) && c != SEMICOLON && c != 0 && c != HASH && c != X
  {
    LowerWritten(v);
    HexWritten(v);
    hide Ascii;
  }

  lemma LowerWritten(v: nat)
    requires v < 16
    ensures Ascii("0123456789abcdef")[v] == if v < 10 then 48 + v else 87 + v
  {
    assert Ascii("0123456789abcdef") == [48, 49, 50, 51, 52, 53, 54, 55, 56, 57, 97, 98, 99, 100, 101, 102];
  }

  lemma {:induction false} SemicolonAt(p: text, k: nat, n: nat)
    requires k <= n < |p| && p[n] == SEMICOLON && forall i :: k <= i < n ==> p[i] != SEMICOLON && p[i] != 0
    ensures FindSemicolon(p, k) == n
    decreases n - k
  {
    if k < n {
      SemicolonAt(p, k + 1, n);
    }
  }

  lemma {:induction false} NumberRead(p: text, start: nat, m: text, d: seq<nat>, k: nat, base: nat)
    requires (base == 10 || base == 16) && Writes(m, d, base) && k <= |m| && 0 < start && start + |m| <= |p|
    requires p[start..start + |m|] == m && p[start - 1] == (if base == 16 then X else HASH)
    ensures NumberBefore(p, start + k - 1, if base == 16 then X else HASH, base) == Number(Positional(d[..k], base))
    decreases k
  {
    hide DigitValue, IsDigit;
    if k > 0 {
      assert p[start + k - 1] == p[start..start + |m|][k - 1] == m[k - 1];
      assert IsDigit(m[k - 1], d[k - 1], base);
      DigitRead(m[k - 1], d[k - 1], base);
      NumberRead(p, start, m, d, k - 1, base);
      assert d[..k][..k - 1] == d[..k - 1];
    }
  }

  lemma ReferenceIs(p: text, start: nat, n: nat, base: nat, v: nat)
    requires (base == 10 && start == 2) || (base == 16 && start == 3)
    requires 2 < |p| && p[0] == AMP && p[1] == HASH && p[2] != 0 && (base == 16 <==> p[2] == X)
    requires start <= n < |p| && p[start] != 0 && FindSemicolon(p, start) == n
    requires NumberBefore(p, n - 1, if base == 16 then X else HASH, base) == Number(v)
    ensures !AtEnd(p) && Char(p) == Got([v % 256], n + 1)
  {
    hide NumberBefore, FindSemicolon, Named;
  }

  lemma DigitsPlain(m: text, d: seq<nat>, base: nat)
    requires (base == 10 || base == 16) && Writes(m, d, base)
    ensures forall i :: 0 <= i < |m| ==> m[i] != SEMICOLON && m[i] != 0 && m[i] != X
  {
    hide IsDigit, DigitValue;
    forall i | 0 <= i < |m|
      ensures m[i] != SEMICOLON && m[i] != 0 && m[i] != X
    {
      assert IsDigit(m[i], d[i], base);
      DigitRead(m[i], d[i], base);
    }
  }

  lemma ReferenceRead(p: text, start: nat, m: text, d: seq<nat>, base: nat)
    requires (base == 10 && start == 2) || (base == 16 && start == 3)
    requires Writes(m, d, base) && start + |m| < |p| && p[start..start + |m|] == m && p[start + |m|] == SEMICOLON
    requires p[0] == AMP && p[1] == HASH && (base == 16 ==> p[2] == X)
    ensures !AtEnd(p) && Char(p) == Got([Positional(d, base) % 256], start + |m| + 1)
  {
    hide NumberBefore, FindSemicolon, Positional, Named, Char, Writes, IsDigit;
    WritesLength(m, d, base);
    DigitsPlain(m, d, base);
    forall i | start <= i < start + |m|
      ensures p[i] == m[i - start]
    {
      assert p[i] == p[start..start + |m|][i - start];
    }
    SemicolonAt(p, start, start + |m|);
    NumberRead(p, start, m, d, |m|, base);
    assert d[..|m|] == d;
    ReferenceIs(p, start, start + |m|, base, Positional(d, base));
  }

  lemma WritesLength(m: text, d: seq<nat>, base: nat)
    requires base <= 16 && Writes(m, d, base)
    ensures |m| == |d|
  {
  }

  // A decimal reference is read as the low byte of its number.
  lemma DecimalRead(m: text, d: seq<nat>, rest: text)
    requires Writes(m, d, 10)
    ensures var p := Ascii("&#") + m + Ascii(";") + rest;
      !AtEnd(p) && Char(p) == Got([Positional(d, 10) % 256], |m| + 3)
  {
    var p := Ascii("&#") + m + Ascii(";") + rest;
    assert Ascii("&#") == [38, 35] && Ascii(";") == [59];
    assert p[2..2 + |m|] == m && p[2 + |m|] == 59;
    ReferenceRead(p, 2, m, d, 10);
  }

  // A hexadecimal one too, in lower and upper case.
  lemma HexadecimalRead(m: text, d: seq<nat>, rest: text)
    requires Writes(m, d, 16)
    ensures var p := Ascii("&#x") + m + Ascii(";") + rest;
      !AtEnd(p) && Char(p) == Got([Positional(d, 16) % 256], |m| + 4)
  {
    var p := Ascii("&#x") + m + Ascii(";") + rest;
    assert Ascii("&#x") == [38, 35, 120] && Ascii(";") == [59];
    assert p[3..3 + |m|] == m && p[3 + |m|] == 59;
    ReferenceRead(p, 3, m, d, 16);
  }
}
