// The Base64 codec of section 4 of RFC 4648, in both directions.
module Base64 {
  import opened Bytes

  const PAD: byte := 61

  type sextet = x: int | 0 <= x < 64

  // The character of a value.
  function Ch64(v: sextet): (c: byte)
    ensures c != PAD
  {
    if v < 26 then 65 + v else if v < 52 then 71 + v else if v < 62 then v - 4 else if v == 62 then 43 else 47
  }

  // The table of characters in their own order, and the value of the character at a position.
  function SortedCh(i: sextet): byte {
    if i == 0 then 43 else if i < 12 then 46 + i else if i < 38 then 53 + i else 59 + i
  }

  function SortedId(i: sextet): sextet {
    if i == 0 then 62 else if i == 1 then 63 else if i < 12 then 50 + i else i - 12
  }

  predicate InAlphabet(c: byte) {
    exists v: sextet :: Ch64(v) == c
  }

  lemma TableIsInverse(i: sextet)
    ensures Ch64(SortedId(i)) == SortedCh(i)
    ensures forall j: sextet :: i < j ==> SortedCh(i) < SortedCh(j)
  {
  }

  lemma CharactersDiffer(v: sextet, w: sextet)
    ensures Ch64(v) == Ch64(w) ==> v == w
  {
  }

  // Where a character of the alphabet stands in the sorted table.
  function Position(v: sextet): (i: sextet)
    ensures SortedId(i) == v && SortedCh(i) == Ch64(v)
  {
    if v == 62 then 0 else if v == 63 then 1 else if v >= 52 then v - 50 else v + 12
  }

  // ---- the search for the value of a character ----

  datatype Search = Search(start: sextet, pos: sextet, end: sextet)

  // Characters are compared as signed ones.
  function Signed(ch: byte): int {
    if ch < 128 then ch as int else ch as int - 256
  }

  predicate Hits(ch: byte, s: Search) {
    ch == SortedCh(s.start) || ch == SortedCh(s.pos) || ch == SortedCh(s.end)
  }

  function Narrowed(ch: byte, s: Search): Search {
    var start := if Signed(ch) > Signed(SortedCh(s.pos)) then s.pos else s.start;
    var end := if Signed(ch) < Signed(SortedCh(s.pos)) then s.pos else s.end;
    Search(start, (start + end) / 2, end)
  }

  // The state after some rounds without a hit.
  function After(ch: byte, rounds: nat): (s: Search)
    ensures s.start <= s.pos <= s.end
    ensures s.end - s.start >= 2 ==> s.start < s.pos < s.end
  {
    if rounds == 0 then Search(0, 32, 63) else Narrowed(ch, After(ch, rounds - 1))
  }

  // One of the first so many rounds hits.
  ghost predicate ReturnsWithin(ch: byte, rounds: nat) {
    exists n :: 0 <= n < rounds && Hits(ch, After(ch, n))
  }

  lemma HitsInAlphabet(ch: byte, s: Search)
    ensures Hits(ch, s) ==> InAlphabet(ch)
  {
    TableIsInverse(s.start);
    TableIsInverse(s.pos);
    TableIsInverse(s.end);
  }

  // A round that changes nothing is followed by more of them.
  lemma {:induction false} Repeats(ch: byte, n: nat, m: nat)
    requires n <= m && Narrowed(ch, After(ch, n)) == After(ch, n)
    ensures After(ch, m) == After(ch, n)
    decreases m
  {
    if n < m {
      Repeats(ch, n, m - 1);
    }
  }

  // A character of the alphabet stays between the ends; no round repeats before it is found.
  lemma {:induction false} Between(v: sextet, rounds: nat)
    ensures After(Ch64(v), rounds).start <= Position(v) <= After(Ch64(v), rounds).end
  {
    if rounds > 0 {
      Between(v, rounds - 1);
      TableIsInverse(Position(v));
      TableIsInverse(After(Ch64(v), rounds - 1).pos);
    }
  }

  lemma NarrowedShrinks(v: sextet, rounds: nat)
    requires !Hits(Ch64(v), After(Ch64(v), rounds))
    ensures var s, t := After(Ch64(v), rounds), After(Ch64(v), rounds + 1); t.end - t.start < s.end - s.start
  {
    Between(v, rounds);
    var s := After(Ch64(v), rounds);
    TableIsInverse(Position(v));
    assert SortedCh(Position(v)) == Ch64(v);
    assert s.start < Position(v) < s.end && Position(v) != s.pos;
    TableIsInverse(s.pos);
  }

  lemma {:induction false} FoundSoon(v: sextet, n: nat)
    ensures exists m :: n <= m && Hits(Ch64(v), After(Ch64(v), m))
    decreases After(Ch64(v), n).end - After(Ch64(v), n).start
  {
    if !Hits(Ch64(v), After(Ch64(v), n)) {
      NarrowedShrinks(v, n);
      FoundSoon(v, n + 1);
    }
  }

  // The search returns within some number of rounds if and only if the character is one of the alphabet; its guard
  // holds in every round.
  lemma SearchReturnsIff(ch: byte)
    ensures (exists rounds: nat :: ReturnsWithin(ch, rounds)) <==> InAlphabet(ch)
    ensures forall n :: var s := After(ch, n); s.pos >= s.start || s.pos <= s.end
  {
    if InAlphabet(ch) {
      var v: sextet :| Ch64(v) == ch;
      FoundSoon(v, 0);
      var m :| 0 <= m && Hits(ch, After(ch, m));
      assert ReturnsWithin(ch, m + 1);
    } else {
      forall rounds: nat
        ensures !ReturnsWithin(ch, rounds)
      {
        forall n | 0 <= n < rounds
          ensures !Hits(ch, After(ch, n))
        {
          HitsInAlphabet(ch, After(ch, n));
        }
      }
    }
  }

  // A space is searched for without end.
  lemma SpaceNeverFound(rounds: nat)
    ensures !ReturnsWithin(32, rounds)
  {
    assert !InAlphabet(32);
    SearchReturnsIff(32);
  }

  datatype Answer = Found(id: sextet) | Endless

  // Where a round changes nothing, all further ones are the same.
  method Idx64(ch: byte) returns (r: Answer)
    ensures r.Endless? <==> forall rounds: nat :: !ReturnsWithin(ch, rounds)
    ensures r.Endless? <==> !InAlphabet(ch)
    ensures r.Found? ==> Ch64(r.id) == ch
  {
    hide SortedCh, SortedId, Ch64, InAlphabet, ReturnsWithin, Signed;
    SearchReturnsIff(ch);
    var start: sextet, pos: sextet, end: sextet := 0, 32, 63;
    ghost var n := 0;
    while true
      invariant Search(start, pos, end) == After(ch, n)
      decreases end - start
    {
      Table(ch, After(ch, n));
      Smaller(ch, n);
      if ch == SortedCh(start) {
        return Found(SortedId(start));
      }
      if ch == SortedCh(pos) {
        return Found(SortedId(pos));
      }
      if ch == SortedCh(end) {
        return Found(SortedId(end));
      }
      var before := Search(start, pos, end);
      if Signed(ch) > Signed(SortedCh(pos)) {
        start := pos;
      }
      if Signed(ch) < Signed(SortedCh(before.pos)) {
        end := pos;
      }
      pos := (start + end) / 2;
      if Search(start, pos, end) == before {
        NeverFound(ch, n);
        return Endless;
      }
      n := n + 1;
    }
  }

  lemma Table(ch: byte, s: Search)
    ensures Ch64(SortedId(s.start)) == SortedCh(s.start) && Ch64(SortedId(s.pos)) == SortedCh(s.pos)
    ensures Ch64(SortedId(s.end)) == SortedCh(s.end) && (Hits(ch, s) ==> InAlphabet(ch))
  {
    HitsInAlphabet(ch, s);
  }

  lemma Smaller(ch: byte, n: nat)
    ensures var s, t := After(ch, n), After(ch, n + 1); s == t || t.end - t.start < s.end - s.start || Hits(ch, s)
  {
  }

  lemma NeverFound(ch: byte, n: nat)
    requires !Hits(ch, After(ch, n)) && Narrowed(ch, After(ch, n)) == After(ch, n)
    ensures !InAlphabet(ch)
  {
    if InAlphabet(ch) {
      var v: sextet :| Ch64(v) == ch;
      NarrowedShrinks(v, n);
      assert false;
    }
  }

  // ---- groups of three bytes and four values ----

  function Group(hi: byte, mid: byte, low: byte): nat {
    hi as int * 65536 + mid as int * 256 + low as int
  }

  function Sextet(g: nat, k: nat): sextet
    requires g < 16777216 && k < 4
  {
    if k == 0 then g / 262144 else if k == 1 then g / 4096 % 64 else if k == 2 then g / 64 % 64 else g % 64
  }

  function Joined(s0: sextet, s1: sextet, s2: sextet, s3: sextet): (g: nat)
    ensures g < 16777216
  {
    s0 as int * 262144 + s1 as int * 4096 + s2 as int * 64 + s3 as int
  }

  lemma GroupBound(hi: byte, mid: byte, low: byte)
    ensures Group(hi, mid, low) < 16777216
  {
  }

  lemma SplitJoin(g: nat)
    requires g < 16777216
    ensures Joined(Sextet(g, 0), Sextet(g, 1), Sextet(g, 2), Sextet(g, 3)) == g
  {
    ShiftTwice(g);
    ShiftTwice(g / 64);
  }

  lemma ShiftTwice(g: nat)
    ensures g / 4096 == g / 64 / 64 && g / 262144 == g / 4096 / 64
  {
  }

  lemma BytesBack(hi: byte, mid: byte, low: byte)
    ensures var g := Group(hi, mid, low); g / 65536 == hi && g / 256 % 256 == mid && g % 256 == low
  {
    var g := Group(hi, mid, low);
    LowPart(hi as int * 256 + mid as int, low, g);
    LowPart(hi, mid, g / 256);
  }

  lemma LowPart(q: int, r: byte, g: int)
    requires g == q * 256 + r as int && q >= 0
    ensures g / 256 == q && g % 256 == r as int && g / 65536 == q / 256
  {
  }

  // The first group, and its four characters.
  function FirstOf(b: seq<byte>): (g: nat)
    requires b != []
    ensures g < 16777216
  {
    GroupBound(b[0], if |b| > 1 then b[1] else 0, if |b| > 2 then b[2] else 0);
    Group(b[0], if |b| > 1 then b[1] else 0, if |b| > 2 then b[2] else 0)
  }

  function FirstChars(b: seq<byte>): (t: seq<byte>)
    requires b != []
    ensures |t| == 4
  {
    var g := FirstOf(b);
    [Ch64(Sextet(g, 0)), Ch64(Sextet(g, 1)),
     if |b| > 1 then Ch64(Sextet(g, 2)) else PAD, if |b| > 2 then Ch64(Sextet(g, 3)) else PAD]
  }

  lemma Thirds(n: nat)
    ensures n >= 3 ==> (n + 2) / 3 * 4 == 4 + (n - 1) / 3 * 4
    ensures 1 <= n <= 3 ==> (n + 2) / 3 * 4 == 4
  {
  }

  // The text of a byte string.
  function Text(b: seq<byte>): (t: seq<byte>)
    ensures |t| == (|b| + 2) / 3 * 4
  {
    Thirds(|b|);
    if b == [] then [] else FirstChars(b) + if |b| <= 3 then [] else Text(b[3..])
  }

  // ---- the text by its characters ----

  // Table 1 of RFC 4648.
  const ALPHABET := "ABCDEFGHIJKLMNOPQRSTUVWXYZ" + "abcdefghijklmnopqrstuvwxyz" + "0123456789+/"

  function Letter(v: int): byte
    requires 0 <= v < 64
  {
    Ascii(ALPHABET)[v]
  }

  lemma Alphabet(v: sextet)
    ensures |ALPHABET| == 64 && Ch64(v) == Letter(v)
  {
    if v < 26 {
      UpperLetter(v);
    } else if v < 52 {
      LowerLetter(v - 26);
    } else {
      OtherLetter(v - 52);
    }
  }

  lemma UpperLetter(v: nat)
    requires v < 26
    ensures "ABCDEFGHIJKLMNOPQRSTUVWXYZ"[v] as int == 65 + v
  {
  }

  lemma LowerLetter(v: nat)
    requires v < 26
    ensures "abcdefghijklmnopqrstuvwxyz"[v] as int == 97 + v
  {
  }

  lemma OtherLetter(v: nat)
    requires v < 12
    ensures "0123456789+/"[v] as int == if v < 10 then 48 + v else if v == 10 then 43 else 47
  {
  }

  // The text of one group of bytes, by the six bits that each character stands for.
  lemma GroupText(hi: byte, mid: byte, low: byte)
    ensures Text([hi, mid, low]) == [Letter(hi / 4), Letter(hi % 4 * 16 + mid / 16), Letter(mid % 16 * 4 + low / 64),
                                     Letter(low % 64)]
    ensures Text([hi, mid]) == [Letter(hi / 4), Letter(hi % 4 * 16 + mid / 16), Letter(mid % 16 * 4)] + Ascii("=")
    ensures Text([hi]) == [Letter(hi / 4), Letter(hi % 4 * 16)] + Ascii("==")
  {
    hide Letter, Ch64;
    assert Ascii("=") == [PAD] && Ascii("==") == [PAD, PAD];
    SixBits(hi, mid, low);
    SixBits(hi, mid, 0);
    SixBits(hi, 0, 0);
  }

  lemma SixBits(hi: byte, mid: byte, low: byte)
    ensures FirstChars([hi, mid, low]) == [Letter(hi / 4), Letter(hi % 4 * 16 + mid / 16),
                                           Letter(mid % 16 * 4 + low / 64), Letter(low % 64)]
  {
    hide Letter, Ch64, Sextet;
    var s0: sextet, s1: sextet, s2: sextet, s3: sextet :=
      hi / 4, hi % 4 * 16 + mid / 16, mid % 16 * 4 + low / 64, low % 64;
    assert Group(hi, mid, low) == Joined(s0, s1, s2, s3);
    JoinSplit(s0, s1, s2, s3);
    Alphabet(s0);
    Alphabet(s1);
    Alphabet(s2);
    Alphabet(s3);
  }

  lemma JoinSplit(s0: sextet, s1: sextet, s2: sextet, s3: sextet)
    ensures var g := Joined(s0, s1, s2, s3);
      Sextet(g, 0) == s0 && Sextet(g, 1) == s1 && Sextet(g, 2) == s2 && Sextet(g, 3) == s3
  {
    var g := Joined(s0, s1, s2, s3);
    ShiftTwice(g);
    assert g / 64 == s0 as int * 4096 + s1 as int * 64 + s2 as int;
    assert g / 4096 == s0 as int * 64 + s1 as int;
  }

  // Whole groups in front give their own text.
  lemma {:induction false} TextJoin(a: seq<byte>, b: seq<byte>)
    requires |a| % 3 == 0
    ensures Text(a + b) == Text(a) + Text(b)
    decreases |a|
  {
    hide FirstChars, Text;
    if a == [] {
      assert a + b == b;
      NoText();
    } else {
      assert (a + b)[3..] == a[3..] + b;
      TextJoin(a[3..], b);
      SameStart(a, a + b);
    }
  }

  lemma SameStart(a: seq<byte>, b: seq<byte>)
    requires |a| >= 3 && a <= b
    ensures FirstChars(a) == FirstChars(b)
    ensures Text(a) == FirstChars(a) + Text(a[3..]) && Text(b) == FirstChars(b) + Text(b[3..])
  {
    hide Ch64, Sextet, Group;
    assert b[0] == a[0] && b[1] == a[1] && b[2] == a[2];
    assert |a| == 3 ==> a[3..] == [];
    assert |b| == 3 ==> b[3..] == [];
  }

  // ---- from bytes to text ----

  predicate Checked(bytes: seq<byte>, room: nat) {
    |bytes| * 4 / 3 <= room
  }

  predicate Fits(bytes: seq<byte>, room: nat) {
    |Text(bytes)| <= room
  }

  // The size check allows for a third more characters than bytes. It does without the padding, so that it is right
  // only for whole groups.
  lemma CheckSufficesIff(bytes: seq<byte>)
    ensures (forall room :: Checked(bytes, room) ==> Fits(bytes, room)) <==> |bytes| % 3 == 0
  {
    hide Text;
    if |bytes| % 3 != 0 {
      assert Checked(bytes, |bytes| * 4 / 3) && !Fits(bytes, |bytes| * 4 / 3);
    }
  }

  lemma OneByteOverruns(x: byte)
    ensures Checked([x], 1) && |Text([x])| == 4
  {
  }

  // Refused by the size check, or the number of characters written, or those of them that went behind the buffer.
  datatype TextOutcome = Refused | Written(count: nat) | Overrun(behind: seq<byte>)

  // Everything stored so far, in the buffer and behind it.
  ghost predicate Stored(text: seq<byte>, behind: seq<byte>, j: nat) {
    j == |text| + |behind| || (j <= |text| && behind == [])
  }

  method Put(text: array<byte>, behind: seq<byte>, j: nat, c: byte) returns (more: seq<byte>)
    requires Stored(text[..], behind, j)
    modifies text
    ensures Stored(text[..], more, j + 1)
    ensures (text[..] + more)[..j + 1] == old((text[..] + behind)[..j]) + [c]
    ensures forall k :: j < k < text.Length ==> text[k] == old(text[k])
  {
    more := behind;
    if j < text.Length {
      text[j] := c;
    } else {
      more := behind + [c];
    }
  }

  // Writes the four characters of a group; pads says how many of them are padding.
  method PutGroup(text: array<byte>, j: nat, hi: byte, mid: byte, low: byte, pads: nat) returns (behind: seq<byte>)
    requires j <= text.Length && pads <= 2
    modifies text
    ensures Stored(text[..], behind, j + 4)
    ensures var g := Group(hi, mid, low);
      g < 16777216 && (text[..] + behind)[..j + 4] == old(text[..j]) + [Ch64(Sextet(g, 0)), Ch64(Sextet(g, 1)),
        if pads < 2 then Ch64(Sextet(g, 2)) else PAD, if pads < 1 then Ch64(Sextet(g, 3)) else PAD]
    ensures forall k :: j + 4 <= k < text.Length ==> text[k] == old(text[k])
  {
    GroupBound(hi, mid, low);
    var g := Group(hi, mid, low);
    hide Ch64, Sextet, Group;
    behind := [];
    assert (text[..] + behind)[..j] == text[..j];
    behind := Put(text, behind, j, Ch64(Sextet(g, 0)));
    behind := Put(text, behind, j + 1, Ch64(Sextet(g, 1)));
    behind := Put(text, behind, j + 2, if pads < 2 then Ch64(Sextet(g, 2)) else PAD);
    behind := Put(text, behind, j + 3, if pads < 1 then Ch64(Sextet(g, 3)) else PAD);
  }

  // Whole groups always fit where the size check passes; the last group is the one that may not.
  method ToText(bytes: seq<byte>, text: array<byte>) returns (r: TextOutcome)
    modifies text
    ensures r.Refused? <==> |bytes| * 4 / 3 > text.Length || bytes == []
    ensures r.Overrun? <==> bytes != [] && |bytes| * 4 / 3 <= text.Length < (|bytes| + 2) / 3 * 4
    ensures r.Refused? ==> text[..] == old(text[..])
    ensures r.Written? ==> r.count <= text.Length && text[..r.count] == Text(bytes)
    ensures r.Written? ==> forall k :: r.count <= k < text.Length ==> text[k] == old(text[k])
    ensures r.Overrun? ==> r.behind != [] && text[..] + r.behind == Text(bytes)
  {
    if |bytes| * 4 / 3 > text.Length || |bytes| == 0 {
      return Refused;
    }
    hide Text, Sextet, Ch64, Group;
    ghost var groups := |bytes| / 3;
    var i3 := 3 * (|bytes| / 3);
    var k := 3 - (|bytes| - i3);
    var i, j := PutWholeGroups(bytes, text, i3, groups);
    var last, behind := PutLastGroup(bytes, text, i, j, k);
    if behind == [] {
      assert (text[..] + behind)[..last] == text[..last];
      return Written(last);
    }
    assert (text[..] + behind)[..last] == text[..] + behind;
    return Overrun(behind);
  }

  method PutWholeGroups(bytes: seq<byte>, text: array<byte>, i3: nat, ghost groups: nat) returns (i: nat, j: nat)
    requires i3 == 3 * groups <= |bytes| && 4 * groups <= text.Length
    modifies text
    ensures i == i3 && j == 4 * groups && Text(bytes) == text[..j] + Text(bytes[i..])
    ensures forall k :: j <= k < text.Length ==> text[k] == old(text[k])
  {
    hide Text, Sextet, Ch64, Group;
    i, j := 0, 0;
    ghost var done := 0;
    assert bytes[0..] == bytes;
    while i < i3
      invariant i == 3 * done && j == 4 * done && done <= groups
      invariant Text(bytes) == text[..j] + Text(bytes[i..])
      invariant forall k :: j <= k < text.Length ==> text[k] == old(text[k])
    {
      NextGroup(bytes, i);
      var behind := PutGroup(text, j, bytes[i], bytes[i + 1], bytes[i + 2], 0);
      assert (text[..] + behind)[..j + 4] == text[..j + 4];
      i, j, done := i + 3, j + 4, done + 1;
    }
  }

  // One or two bytes left over.
  method PutLastGroup(bytes: seq<byte>, text: array<byte>, i: nat, start: nat, k: int)
    returns (j: nat, behind: seq<byte>)
    requires i <= |bytes| <= i + 2 && k == 3 - (|bytes| - i) && start <= text.Length
    requires Text(bytes) == text[..start] + Text(bytes[i..])
    modifies text
    ensures Stored(text[..], behind, j) && j == |Text(bytes)| && (text[..] + behind)[..j] == Text(bytes)
    ensures forall m :: j <= m < text.Length ==> text[m] == old(text[m])
  {
    hide Text, Sextet, Ch64, Group;
    j, behind := start, [];
    if k == 2 {
      LastGroup(bytes, i);
      behind := PutGroup(text, j, bytes[i], 0, 0, 2);
      j := j + 4;
    }
    if k == 1 {
      LastGroup(bytes, i);
      behind := PutGroup(text, j, bytes[i], bytes[i + 1], 0, 1);
      j := j + 4;
    }
    if k == 3 {
      assert bytes[i..] == [];
      NoText();
      assert (text[..] + behind)[..j] == text[..start];
    }
  }

  lemma NoText()
    ensures Text([]) == []
  {
  }

  lemma NextGroup(b: seq<byte>, i: nat)
    requires i + 3 <= |b|
    ensures var g := Group(b[i], b[i + 1], b[i + 2]);
      g < 16777216 && Text(b[i..]) == [Ch64(Sextet(g, 0)), Ch64(Sextet(g, 1)), Ch64(Sextet(g, 2)), Ch64(Sextet(g, 3))]
                                      + Text(b[i + 3..])
  {
    GroupBound(b[i], b[i + 1], b[i + 2]);
    var r := b[i..];
    assert r[0] == b[i] && r[1] == b[i + 1] && r[2] == b[i + 2];
    if |r| <= 3 {
      assert b[i + 3..] == [];
    } else {
      assert r[3..] == b[i + 3..];
    }
  }

  lemma LastGroup(b: seq<byte>, i: nat)
    requires i < |b| <= i + 2
    ensures var g := Group(b[i], if i + 1 < |b| then b[i + 1] else 0, 0);
      g < 16777216 && Text(b[i..]) == [Ch64(Sextet(g, 0)), Ch64(Sextet(g, 1)),
                                       if i + 1 < |b| then Ch64(Sextet(g, 2)) else PAD, PAD]
  {
    GroupBound(b[i], if i + 1 < |b| then b[i + 1] else 0, 0);
    assert b[i..][0] == b[i] && (i + 1 < |b| ==> b[i..][1] == b[i + 1]);
  }

  // ---- from text to bytes ----

  ghost function ValueOf(c: byte): (v: sextet)
    requires InAlphabet(c)
    ensures Ch64(v) == c
  {
    var v: sextet :| Ch64(v) == c;
    v
  }

  ghost function ValueOrZero(c: byte): sextet
    requires c == PAD || InAlphabet(c)
  {
    if c == PAD then 0 else ValueOf(c)
  }

  // Whole groups of characters, padding in their last two places only.
  ghost predicate IsText(t: seq<byte>) {
    && |t| % 4 == 0
    && forall i :: 0 <= i < |t| ==> InAlphabet(t[i]) || (t[i] == PAD && i % 4 >= 2)
  }

  ghost function GroupOf(t: seq<byte>): (g: nat)
    requires |t| >= 4 && IsText(t)
    ensures g < 16777216
  {
    Joined(ValueOf(t[0]), ValueOf(t[1]), ValueOrZero(t[2]), ValueOrZero(t[3]))
  }

  function Pads(t: seq<byte>): nat
    requires |t| >= 4
  {
    (if t[2] == PAD then 1 else 0) + if t[3] == PAD then 1 else 0
  }

  lemma TextTail(t: seq<byte>)
    requires |t| >= 4 && IsText(t)
    ensures IsText(t[4..])
  {
    forall i | 0 <= i < |t[4..]|
      ensures InAlphabet(t[4..][i]) || (t[4..][i] == PAD && i % 4 >= 2)
    {
      assert t[4..][i] == t[i + 4];
    }
  }

  // All the bytes of the groups, padding or not.
  ghost function Restored(t: seq<byte>): (b: seq<byte>)
    requires IsText(t)
    ensures |b| == |t| / 4 * 3
  {
    if t == [] then [] else
    var g := GroupOf(t);
    TextTail(t);
    [g / 65536, g / 256 % 256, g % 256] + Restored(t[4..])
  }

  // How many of them count.
  function Count(t: seq<byte>): int
    requires |t| % 4 == 0
  {
    if t == [] then 0 else 3 - Pads(t) + Count(t[4..])
  }

  method PutBytes(bytes: array<byte>, j: nat, g: nat)
    requires j + 3 <= bytes.Length && g < 16777216
    modifies bytes
    ensures bytes[..j + 3] == old(bytes[..j]) + [g / 65536, g / 256 % 256, g % 256]
  {
    bytes[j], bytes[j + 1], bytes[j + 2] := g / 65536, g / 256 % 256, g % 256;
  }

  datatype GroupAnswer = GroupFound(g: nat, pads: nat) | GroupEndless

  method GetGroup(text: seq<byte>, i: nat) returns (r: GroupAnswer)
    requires i + 4 <= |text|
    ensures r.GroupEndless? <==> !IsText(text[i..i + 4])
    ensures r.GroupFound? ==> r.g == GroupOf(text[i..i + 4]) && r.pads == Pads(text[i..i + 4])
  {
    ghost var t := text[i..i + 4];
    FourAreText(t);
    hide IsText;
    var pads := 0;
    var v0 := Idx64(text[i]);
    if v0.Endless? {
      return GroupEndless;
    }
    var v1 := Idx64(text[i + 1]);
    if v1.Endless? {
      return GroupEndless;
    }
    var v2, v3 := Found(0), Found(0);
    if text[i + 2] != PAD {
      v2 := Idx64(text[i + 2]);
      if v2.Endless? {
        return GroupEndless;
      }
    } else {
      pads := pads + 1;
    }
    if text[i + 3] != PAD {
      v3 := Idx64(text[i + 3]);
      if v3.Endless? {
        return GroupEndless;
      }
    } else {
      pads := pads + 1;
    }
    CharactersDiffer(v0.id, ValueOf(t[0]));
    CharactersDiffer(v1.id, ValueOf(t[1]));
    CharactersDiffer(v2.id, ValueOrZero(t[2]));
    CharactersDiffer(v3.id, ValueOrZero(t[3]));
    return GroupFound(Joined(v0.id, v1.id, v2.id, v3.id), pads);
  }

  lemma FourAreText(t: seq<byte>)
    requires |t| == 4
    ensures IsText(t) <==>
      InAlphabet(t[0]) && InAlphabet(t[1]) && (InAlphabet(t[2]) || t[2] == PAD) && (InAlphabet(t[3]) || t[3] == PAD)
  {
  }

  // Refused by the size checks, or the number of bytes that count, or the group whose character is searched for ever.
  datatype BytesOutcome = TextRefused | Decoded(count: int) | Hangs(at: nat)

  predicate Sized(text: seq<byte>, room: nat) {
    |text| >= 4 && |text| % 4 == 0 && |text| * 3 / 4 <= room
  }

  method ToBytes(text: seq<byte>, bytes: array<byte>) returns (r: BytesOutcome)
    modifies bytes
    ensures r.TextRefused? <==> !Sized(text, bytes.Length)
    ensures r.Hangs? <==> Sized(text, bytes.Length) && !IsText(text)
    ensures r.TextRefused? ==> bytes[..] == old(bytes[..])
    ensures r.Decoded? ==> r.count == Count(text) && bytes[..|text| / 4 * 3] == Restored(text)
    ensures r.Hangs? ==> StopsAt(text, r.at) && bytes[..r.at / 4 * 3] == Restored(text[..r.at])
  {
    if |text| < 4 {
      return TextRefused;
    }
    if |text| * 3 / 4 > bytes.Length {
      return TextRefused;
    }
    var i3 := |text| / 4;
    if |text| - i3 * 4 != 0 {
      return TextRefused;
    }
    r := RestoreGroups(text, bytes, i3);
  }

  // The groups in front of this one are text, and it is not.
  ghost predicate StopsAt(text: seq<byte>, at: nat) {
    at % 4 == 0 && at + 4 <= |text| && IsText(text[..at]) && !IsText(text[at..at + 4])
  }

  method RestoreGroups(text: seq<byte>, bytes: array<byte>, i3: nat) returns (r: BytesOutcome)
    requires |text| == 4 * i3 && 3 * i3 <= bytes.Length
    modifies bytes
    ensures !r.TextRefused? && (r.Decoded? <==> IsText(text))
    ensures r.Decoded? ==> r.count == Count(text) && bytes[..3 * i3] == Restored(text)
    ensures r.Hangs? ==> StopsAt(text, r.at) && bytes[..r.at / 4 * 3] == Restored(text[..r.at])
  {
    hide Restored, Count, GroupOf, IsText, Pads;
    NothingRestored();
    var i, j, k := 0, 0, 0;
    ghost var done := 0;
    while i < |text|
      invariant i == 4 * done && j == 3 * done && done <= i3 && IsText(text[..i])
      invariant bytes[..j] == Restored(text[..i]) && k == Count(text[..i])
    {
      var answer := GetGroup(text, i);
      if answer.GroupEndless? {
        NotText(text, i);
        return Hangs(i);
      }
      assert text[..i + 4] == text[..i] + text[i..i + 4];
      RestoreMore(text[..i], text[i..i + 4]);
      PutBytes(bytes, j, answer.g);
      k := k - answer.pads + 3;
      i, j, done := i + 4, j + 3, done + 1;
    }
    assert text[..i] == text;
    return Decoded(k);
  }

  lemma NotText(text: seq<byte>, i: nat)
    requires i % 4 == 0 && i + 4 <= |text|
    ensures !IsText(text[i..i + 4]) ==> !IsText(text)
  {
    if IsText(text) {
      forall m | 0 <= m < 4
        ensures InAlphabet(text[i..i + 4][m]) || (text[i..i + 4][m] == PAD && m % 4 >= 2)
      {
        assert text[i..i + 4][m] == text[i + m];
      }
    }
  }

  lemma {:induction false} RestoreMore(t: seq<byte>, last: seq<byte>)
    requires IsText(t) && IsText(last) && |last| == 4
    ensures IsText(t + last)
    ensures Count(t + last) == Count(t) + 3 - Pads(last)
    ensures var g := GroupOf(last); Restored(t + last) == Restored(t) + [g / 65536, g / 256 % 256, g % 256]
  {
    BothText(t, last);
    hide IsText, Restored, Count, GroupOf, Pads;
    if t == [] {
      assert t + last == last;
      RestoreOne(last);
    } else {
      SameGroup(t, last);
      RestoreMore(t[4..], last);
      RestoreStep(t);
      RestoreStep(t + last);
    }
  }

  lemma RestoreOne(last: seq<byte>)
    requires IsText(last) && |last| == 4
    ensures Count(last) == 3 - Pads(last) && Count([]) == 0
    ensures var g := GroupOf(last); Restored(last) == [g / 65536, g / 256 % 256, g % 256] && Restored([]) == []
  {
    NothingRestored();
    RestoreStep(last);
    assert last[4..] == [];
  }

  lemma BothText(t: seq<byte>, last: seq<byte>)
    requires IsText(t) && IsText(last)
    ensures IsText(t + last)
  {
  }

  lemma SameGroup(t: seq<byte>, last: seq<byte>)
    requires IsText(t) && IsText(t + last) && |t| >= 4
    ensures GroupOf(t + last) == GroupOf(t) && Pads(t + last) == Pads(t) && (t + last)[4..] == t[4..] + last
    ensures IsText(t[4..])
  {
    TextTail(t);
  }

  lemma NothingRestored()
    ensures IsText([]) && Restored([]) == [] && Count([]) == 0
  {
  }

  lemma RestoreStep(t: seq<byte>)
    requires IsText(t) && |t| >= 4
    ensures var g := GroupOf(t);
      IsText(t[4..]) && Restored(t) == [g / 65536, g / 256 % 256, g % 256] + Restored(t[4..])
    ensures Count(t) == 3 - Pads(t) + Count(t[4..])
  {
    TextTail(t);
  }

  // ---- round trip ----

  lemma GroupIsText(s0: sextet, s1: sextet, c2: byte, c3: byte, t: seq<byte>)
    requires (c2 == PAD || InAlphabet(c2)) && (c3 == PAD || InAlphabet(c3)) && IsText(t)
    ensures IsText([Ch64(s0), Ch64(s1), c2, c3] + t)
  {
    var all := [Ch64(s0), Ch64(s1), c2, c3] + t;
    assert InAlphabet(Ch64(s0)) && InAlphabet(Ch64(s1));
    forall i | 0 <= i < |all|
      ensures InAlphabet(all[i]) || (all[i] == PAD && i % 4 >= 2)
    {
      if i >= 4 {
        assert all[i] == t[i - 4];
      }
    }
  }

  lemma {:induction false} TextIsText(b: seq<byte>)
    ensures IsText(Text(b))
  {
    if b != [] {
      var hi, mid, low: byte := b[0], if |b| > 1 then b[1] else 0, if |b| > 2 then b[2] else 0;
      GroupBound(hi, mid, low);
      var g := Group(hi, mid, low);
      assert InAlphabet(Ch64(Sextet(g, 2))) && InAlphabet(Ch64(Sextet(g, 3)));
      if |b| > 3 {
        TextIsText(b[3..]);
      }
      hide IsText, Ch64, Sextet, Group, InAlphabet;
      NothingRestored();
      GroupIsText(Sextet(g, 0), Sextet(g, 1), if |b| > 1 then Ch64(Sextet(g, 2)) else PAD,
                  if |b| > 2 then Ch64(Sextet(g, 3)) else PAD, if |b| <= 3 then [] else Text(b[3..]));
    }
  }

  lemma TextFirst(b: seq<byte>)
    requires b != []
    ensures var t, g := Text(b), FirstOf(b);
      |t| >= 4 && t[0] == Ch64(Sextet(g, 0)) && t[1] == Ch64(Sextet(g, 1))
      && t[2] == (if |b| > 1 then Ch64(Sextet(g, 2)) else PAD) && t[3] == (if |b| > 2 then Ch64(Sextet(g, 3)) else PAD)
  {
    hide Ch64, Sextet, Group;
  }

  // Without a byte behind it, a value is zero.
  lemma MissingZero(b: seq<byte>)
    requires b != []
    ensures |b| <= 1 ==> Sextet(FirstOf(b), 2) == 0
    ensures |b| <= 2 ==> Sextet(FirstOf(b), 3) == 0
  {
  }

  lemma FirstGroup(b: seq<byte>)
    requires b != []
    ensures IsText(Text(b)) && |Text(b)| >= 4
    ensures GroupOf(Text(b)) == FirstOf(b)
    ensures Pads(Text(b)) == if |b| >= 3 then 0 else 3 - |b|
  {
    TextIsText(b);
    TextFirst(b);
    MissingZero(b);
    var g, t := FirstOf(b), Text(b);
    hide Sextet, Joined, IsText, Ch64, FirstOf, Text;
    SplitJoin(g);
    assert InAlphabet(t[0]) && InAlphabet(t[1]);
    CharactersDiffer(ValueOf(t[0]), Sextet(g, 0));
    CharactersDiffer(ValueOf(t[1]), Sextet(g, 1));
    assert t[2] == PAD || InAlphabet(t[2]);
    CharactersDiffer(ValueOrZero(t[2]), Sextet(g, 2));
    assert t[3] == PAD || InAlphabet(t[3]);
    CharactersDiffer(ValueOrZero(t[3]), Sextet(g, 3));
  }

  lemma TextRest(b: seq<byte>)
    requires b != []
    ensures |Text(b)| >= 4 && Text(b)[4..] == if |b| <= 3 then [] else Text(b[3..])
  {
    hide Ch64, Sextet, Group;
  }

  lemma FirstBytes(b: seq<byte>)
    requires b != []
    ensures var g := FirstOf(b);
      g / 65536 == b[0] && g / 256 % 256 == (if |b| > 1 then b[1] else 0) && g % 256 == if |b| > 2 then b[2] else 0
  {
    BytesBack(b[0], if |b| > 1 then b[1] else 0, if |b| > 2 then b[2] else 0);
  }

  // Decoding the text of any byte string gives its bytes and its length back.
  lemma {:induction false} CodecRoundTrip(b: seq<byte>)
    ensures IsText(Text(b)) && Count(Text(b)) == |b| <= |Restored(Text(b))|
    ensures Restored(Text(b))[..|b|] == b
  {
    TextIsText(b);
    if b == [] {
      NoText();
      NothingRestored();
    } else {
      FirstGroup(b);
      FirstBytes(b);
      TextRest(b);
      RestoreStep(Text(b));
      hide Text, IsText, Restored, Count, GroupOf, Pads, FirstOf;
      if |b| > 3 {
        CodecRoundTrip(b[3..]);
        assert b == b[..3] + b[3..];
      } else {
        NothingRestored();
      }
    }
  }
}
