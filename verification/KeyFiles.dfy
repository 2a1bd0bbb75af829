// Saving and loading a key file: members, checksum, and the password mask tried in two ways.
module KeyFiles {
  import opened Powers
  import opened Units
  import opened Bytes
  import opened Bits
  import opened Crypto

  const UNITS: nat := 128
  const HEADER: nat := 24
  const CRC_AT: nat := 4
  const ERR_CRC := 2
  const ERR_BUF_LEN := 3

  // Four words of checksum, as the bytes they take in memory.
  type crc16 = s: seq<byte> | |s| == 16 witness [0, 0, 0, 0, 0, 0, 0, 0, 0, 0, 0, 0, 0, 0, 0, 0]

  type Checksum = seq<byte> -> crc16

  datatype Members = Members(reserv: nat, e: seq<unit>, n: seq<unit>, eBase: nat, nBase: nat)

  predicate MembersOk(m: Members) {
    m.reserv < 0x1_0000_0000 && |m.e| == UNITS && |m.n| == UNITS && m.eBase < 65536 && m.nBase < 65536
  }

  function ZeroUnits(): seq<unit> {
    seq(UNITS, _ => 0)
  }

  const FRESH := Members(0, ZeroUnits(), ZeroUnits(), 0, 0)

  // The bytes up to the highest unit that is not zero.
  function KeyBaseB(s: seq<unit>): (b: nat)
    requires |s| == UNITS
    ensures b <= 256
  {
    2 * SignificantUnits(s, UNITS)
  }

  function Rebased(m: Members): Members
    requires MembersOk(m)
  {
    m.(eBase := KeyBaseB(m.e), nBase := KeyBaseB(m.n))
  }

  function UnitBytes(s: seq<unit>, count: nat): (b: seq<byte>)
    requires count <= 2 * |s|
    ensures |b| == count
  {
    seq(count, i requires 0 <= i < count => ByteAt(s, i))
  }

  function MemberBytes(m: Members): (b: seq<byte>)
    requires MembersOk(m) && m.eBase <= 256 && m.nBase <= 256
    ensures |b| == 8 + m.eBase + m.nBase
  {
    BytesOf(m.reserv, 4) + BytesOf(m.eBase, 2) + UnitBytes(m.e, m.eBase) + BytesOf(m.nBase, 2) + UnitBytes(m.n, m.nBase)
  }

  function Header(flag: nat, crc: crc16, size: nat): (h: seq<byte>)
    ensures |h| == HEADER
  {
    [0x81, 0] + BytesOf(flag, 2) + crc + BytesOf(size, 4)
  }

  function NoCrc(): crc16 {
    Zeros(16)
  }

  // The checksum of a file is taken while its own place holds zeros.
  function Sealed(crc: Checksum, body: seq<byte>): (file: seq<byte>)
    ensures |file| == HEADER + |body|
  {
    Header(0, crc(Header(0, NoCrc(), |body|) + body), |body|) + body
  }

  function Saved(crc: Checksum, m: Members): (file: seq<byte>)
    requires MembersOk(m)
    ensures |file| == HEADER + 8 + KeyBaseB(m.e) + KeyBaseB(m.n)
  {
    Sealed(crc, MemberBytes(Rebased(m)))
  }

  // ---- loading ----

  // Overwrites the first bytes of a unit sequence.
  function Patched(s: seq<unit>, b: seq<byte>): (r: seq<unit>)
    requires |b| <= 2 * |s|
    ensures |r| == |s|
  {
    seq(|s|, k requires 0 <= k < |s| => PatchedUnit(s[k], b, k))
  }

  function PatchedUnit(u: unit, b: seq<byte>, k: nat): unit {
    (if 2 * k < |b| then b[2 * k] as int else u % 256) + 256 * if 2 * k + 1 < |b| then b[2 * k + 1] as int else u / 256
  }

  // The two lengths in the members stay inside the members and the key arrays.
  predicate Fits(body: seq<byte>) {
    && |body| >= 8
    && var e := BytesVal(body[4..6]);
       e <= 256 && 8 + e <= |body|
       && var n := BytesVal(body[6 + e..8 + e]);
          n <= 256 && 8 + e + n <= |body|
  }

  // All members, or those stored before the first access outside of the bytes or of a key array.
  datatype LoadOutcome = Whole(members: Members) | Overrun(members: Members)

  function LoadMembers(m: Members, body: seq<byte>): (r: LoadOutcome)
    requires |m.e| == UNITS && |m.n| == UNITS
    ensures r.Whole? <==> Fits(body)
    ensures |r.members.e| == UNITS && |r.members.n| == UNITS
  {
    if |body| < 4 then Overrun(m) else
    var m1 := m.(reserv := BytesVal(body[..4]));
    if |body| < 6 then Overrun(m1) else
    var e := BytesVal(body[4..6]);
    var m2 := m1.(eBase := e);
    if e > 2 * UNITS || 6 + e > |body| then Overrun(m2) else
    var m3 := m2.(e := Patched(m.e, body[6..6 + e]));
    if 8 + e > |body| then Overrun(m3) else
    var n := BytesVal(body[6 + e..8 + e]);
    var m4 := m3.(nBase := n);
    if n > 2 * UNITS || 8 + e + n > |body| then Overrun(m4) else
    Whole(m4.(n := Patched(m.n, body[8 + e..8 + e + n])))
  }

  function Size(file: seq<byte>): nat
    requires |file| >= HEADER
  {
    BytesVal(file[20..24])
  }

  function WithCrc(file: seq<byte>, crc: crc16): (r: seq<byte>)
    requires |file| >= HEADER
    ensures |r| == |file|
  {
    file[..CRC_AT] + crc + file[CRC_AT + 16..]
  }

  // The checksum covers as many bytes as the header announces, which may reach a little behind the buffer.
  predicate CrcGood(crc: Checksum, file: seq<byte>, beyond: seq<byte>)
    requires |file| >= HEADER && |beyond| == 16 && Size(file) + 8 <= |file|
  {
    crc((WithCrc(file, NoCrc()) + beyond)[..Size(file) + HEADER]) == file[CRC_AT..CRC_AT + 16]
  }

  function LoadCode(crc: Checksum, file: seq<byte>, beyond: seq<byte>): int
    requires |beyond| == 16
  {
    if |file| < HEADER || |file| - 8 < Size(file) then ERR_BUF_LEN
    else if CrcGood(crc, file, beyond) then 0
    else ERR_CRC
  }

  // The checksum is good, and the lengths behind it are not checked.
  predicate Overruns(crc: Checksum, file: seq<byte>, beyond: seq<byte>)
    requires |beyond| == 16
  {
    LoadCode(crc, file, beyond) == 0 && !Fits(file[HEADER..])
  }

  function Loaded(crc: Checksum, file: seq<byte>, beyond: seq<byte>, m: Members): Members
    requires |beyond| == 16 && |m.e| == UNITS && |m.n| == UNITS
  {
    if LoadCode(crc, file, beyond) == 0 then LoadMembers(m, file[HEADER..]).members else m
  }

  // ---- loading what was saved ----

  lemma BytesOfNumber(v: nat, k: nat)
    requires v < Radix(k)
    ensures |BytesOf(v, 2 * k)| == 2 * k && BytesVal(BytesOf(v, 2 * k)) == v
  {
    ValOfBytes(v, k);
  }

  lemma Radices()
    ensures Radix(1) == 65536 && Radix(2) == 0x1_0000_0000
  {
    RadixStep(0);
    RadixStep(1);
  }

  // The bytes up to the highest unit that is not zero rebuild the array on zeros.
  lemma PatchZeros(s: seq<unit>)
    requires |s| == UNITS
    ensures Patched(ZeroUnits(), UnitBytes(s, KeyBaseB(s))) == s
  {
    var b, k := UnitBytes(s, KeyBaseB(s)), SignificantUnits(s, UNITS);
    AboveZero(s, UNITS);
    forall i | 0 <= i < UNITS
      ensures PatchedUnit(0, b, i) == s[i]
    {
      if i < k {
        assert b[2 * i] == ByteAt(s, 2 * i) == s[i] % 256;
        assert b[2 * i + 1] == ByteAt(s, 2 * i + 1) == s[i] / 256;
      }
    }
  }

  lemma {:induction false} AboveZero(s: seq<unit>, k: nat)
    requires k <= |s|
    ensures forall i :: SignificantUnits(s, k) <= i < k ==> s[i] == 0
  {
    if k > 0 && s[k - 1] == 0 {
      AboveZero(s, k - 1);
    }
  }

  lemma MemberParts(m: Members)
    requires MembersOk(m) && m.eBase <= 256 && m.nBase <= 256
    ensures var b := MemberBytes(m);
      b[..4] == BytesOf(m.reserv, 4) && b[4..6] == BytesOf(m.eBase, 2) && b[6..6 + m.eBase] == UnitBytes(m.e, m.eBase)
      && b[6 + m.eBase..8 + m.eBase] == BytesOf(m.nBase, 2)
      && b[8 + m.eBase..8 + m.eBase + m.nBase] == UnitBytes(m.n, m.nBase)
  {
    hide BytesOf, UnitBytes;
  }

  lemma MembersBack(m: Members)
    requires MembersOk(m)
    ensures var b := MemberBytes(Rebased(m)); Fits(b) && LoadMembers(FRESH, b) == Whole(Rebased(m))
  {
    hide BytesOf, UnitBytes, BytesVal, Patched, MemberBytes;
    var r := Rebased(m);
    MemberParts(r);
    Radices();
    BytesOfNumber(r.reserv, 2);
    BytesOfNumber(r.eBase, 1);
    BytesOfNumber(r.nBase, 1);
    PatchZeros(m.e);
    PatchZeros(m.n);
  }

  lemma FileParts(flag: nat, crc: crc16, size: nat, body: seq<byte>)
    ensures var file := Header(flag, crc, size) + body;
      file[HEADER..] == body && file[20..24] == BytesOf(size, 4) && file[CRC_AT..CRC_AT + 16] == crc
      && file[2..4] == BytesOf(flag, 2) && WithCrc(file, NoCrc()) == Header(flag, NoCrc(), size) + body
  {
    hide BytesOf, NoCrc;
  }

  lemma SealedLoads(crc: Checksum, body: seq<byte>, beyond: seq<byte>)
    requires |body| < 0x1_0000_0000 && |beyond| == 16
    ensures var file := Sealed(crc, body);
      LoadCode(crc, file, beyond) == 0 && file[HEADER..] == body && file[2..4] == BytesOf(0, 2)
  {
    hide BytesOf, BytesVal, Header, WithCrc;
    var blank := Header(0, NoCrc(), |body|) + body;
    FileParts(0, crc(blank), |body|, body);
    Radices();
    BytesOfNumber(|body|, 2);
    assert (blank + beyond)[..|body| + HEADER] == blank;
  }

  // Where everything stands in a saved file: a mark, a flag of zero, the checksum of the file with zeros in its own
  // place, the size of the rest, then the members, each key array behind the number of its bytes.
  lemma SavedLayout(crc: Checksum, m: Members)
    requires MembersOk(m)
    ensures var file, e, n := Saved(crc, m), KeyBaseB(m.e), KeyBaseB(m.n);
      && |file| == 32 + e + n && file[..4] == [0x81, 0, 0, 0]
      && file[4..20] == crc(file[..4] + Zeros(16) + file[20..])
      && file[20..24] == BytesOf(8 + e + n, 4) && file[24..28] == BytesOf(m.reserv, 4)
      && file[28..30] == BytesOf(e, 2) && file[30 + e..32 + e] == BytesOf(n, 2)
      && (forall i :: 0 <= i < e ==> file[30 + i] == ByteAt(m.e, i))
      && (forall i :: 0 <= i < n ==> file[32 + e + i] == ByteAt(m.n, i))
  {
    hide BytesOf, ByteAt, KeyBaseB, MemberBytes;
    var r := Rebased(m);
    var body := MemberBytes(r);
    MemberParts(r);
    SealedParts(crc, body);
    var file := Saved(crc, m);
    assert file[24..28] == file[24..][..4] && file[28..30] == file[24..][4..6];
    assert file[30 + r.eBase..32 + r.eBase] == file[24..][6 + r.eBase..8 + r.eBase];
    forall i | 0 <= i < r.eBase
      ensures file[30 + i] == ByteAt(m.e, i)
    {
      assert body[6..6 + r.eBase][i] == file[24..][6 + i];
    }
    forall i | 0 <= i < r.nBase
      ensures file[32 + r.eBase + i] == ByteAt(m.n, i)
    {
      assert body[8 + r.eBase..8 + r.eBase + r.nBase][i] == file[24..][8 + r.eBase + i];
    }
  }

  lemma SealedParts(crc: Checksum, body: seq<byte>)
    ensures var file := Sealed(crc, body);
      && |file| == 24 + |body| && file[..4] == [0x81, 0, 0, 0] && file[20..24] == BytesOf(|body|, 4)
      && file[24..] == body && file[4..20] == crc(file[..4] + Zeros(16) + file[20..])
  {
    var blank := Header(0, NoCrc(), |body|) + body;
    var c := crc(blank);
    assert BytesOf(0, 2) == [0, 0];
    FileParts(0, c, |body|, body);
    hide BytesOf;
    assert Sealed(crc, body) == Header(0, c, |body|) + body;
    assert blank == [0x81, 0, 0, 0] + Zeros(16) + (BytesOf(|body|, 4) + body);
    assert Sealed(crc, body)[20..] == BytesOf(|body|, 4) + body;
  }

  // A file with another checksum in its place is refused, and one that is too short for its header or for the size
  // it announces.
  lemma RefusedFiles(crc: Checksum, m: Members, other: crc16, beyond: seq<byte>)
    requires MembersOk(m) && |beyond| == 16
    ensures var file := Saved(crc, m);
      && (LoadCode(crc, file[..4] + other + file[20..], beyond) == 2 <==> other != file[4..20])
      && (LoadCode(crc, file[..4] + other + file[20..], beyond) == 0 <==> other == file[4..20])
    ensures forall short: seq<byte> | |short| < 24 || BytesVal(short[20..24]) > |short| - 8 ::
      LoadCode(crc, short, beyond) == 3
  {
    hide BytesOf, KeyBaseB, MemberBytes, Header;
    var body := MemberBytes(Rebased(m));
    SealedParts(crc, body);
    var file := Saved(crc, m);
    var changed := file[..4] + other + file[20..];
    Radices();
    BytesOfNumber(|body|, 2);
    assert changed[20..24] == file[20..24] && changed[4..20] == other;
    assert (WithCrc(changed, NoCrc()) + beyond)[..|body| + HEADER] == file[..4] + Zeros(16) + file[20..];
  }

  // A saved key loads into a fresh object, with every member restored, whatever the checksum function.
  lemma SaveLoad(crc: Checksum, m: Members, beyond: seq<byte>)
    requires MembersOk(m) && |beyond| == 16
    ensures var file := Saved(crc, m);
      !Overruns(crc, file, beyond) && LoadCode(crc, file, beyond) == 0 && Loaded(crc, file, beyond, FRESH) == Rebased(m)
  {
    hide MemberBytes, LoadMembers, Sealed, Fits, KeyBaseB, LoadCode;
    MembersBack(m);
    SealedLoads(crc, MemberBytes(Rebased(m)), beyond);
  }

  // Whatever the checksum function, there is a file of any size from 30 bytes on, with a good checksum and lengths
  // that do not fit.
  lemma GoodFileOverruns(crc: Checksum, size: nat, beyond: seq<byte>)
    requires HEADER + 6 <= size < 0x1_0000_0000 && |beyond| == 16
    ensures exists file :: |file| == size && Overruns(crc, file, beyond) && file[2..4] == [0, 0]
  {
    var body := Zeros(4) + [1, 1] + Zeros(size - HEADER - 6);
    assert body[4..6] == [1, 1];
    assert BytesVal([1, 1]) == 257 by {
      assert BytesVal([1, 1]) == 1 + 256 * BytesVal([1, 1][1..]);
      assert [1, 1][1..] == [1];
    }
    var file := Sealed(crc, body);
    SealedLoads(crc, body, beyond);
    assert BytesOf(0, 2) == [0, 0];
    assert |file| == size && Overruns(crc, file, beyond);
  }

  // ---- buffers ----

  method PutAt(buf: array<byte>, at: nat, data: seq<byte>)
    requires at + |data| <= buf.Length
    modifies buf
    ensures buf[..] == old(buf[..at]) + data + old(buf[at + |data|..])
  {
    var i := 0;
    while i < |data|
      invariant 0 <= i <= |data|
      invariant forall k :: 0 <= k < i ==> buf[at + k] == data[k]
      invariant forall k :: 0 <= k < buf.Length && !(at <= k < at + i) ==> buf[k] == old(buf[k])
    {
      buf[at + i] := data[i];
      i := i + 1;
    }
  }

  method NumberOf(b: seq<byte>) returns (v: nat)
    ensures v == BytesVal(b)
  {
    v := 0;
    var i := |b|;
    assert b[i..] == [];
    while i > 0
      invariant 0 <= i <= |b| && v == BytesVal(b[i..])
    {
      i := i - 1;
      assert b[i..][0] == b[i] && b[i..][1..] == b[i + 1..];
      v := b[i] as nat + 256 * v;
    }
    assert b[0..] == b;
  }

  method UnitsToBytes(s: array<unit>, count: nat) returns (b: seq<byte>)
    requires count <= 2 * s.Length
    ensures b == UnitBytes(s[..], count)
  {
    b := [];
    var i := 0;
    while i < count
      invariant 0 <= i <= count == count && |b| == i
      invariant forall k :: 0 <= k < i ==> b[k] == ByteAt(s[..], k)
    {
      var c: byte := if i % 2 == 0 then s[i / 2] % 256 else s[i / 2] / 256;
      b := b + [c];
      i := i + 1;
    }
  }

  method PatchUnits(s: array<unit>, b: seq<byte>)
    requires |b| <= 2 * s.Length
    modifies s
    ensures s[..] == Patched(old(s[..]), b)
  {
    var k := 0;
    while k < s.Length
      invariant 0 <= k <= s.Length
      invariant forall i :: 0 <= i < k ==> s[i] == PatchedUnit(old(s[i]), b, i)
      invariant forall i :: k <= i < s.Length ==> s[i] == old(s[i])
    {
      s[k] := PatchedUnit(s[k], b, k);
      k := k + 1;
    }
  }

  method KeyBase(s: array<unit>) returns (b: nat)
    requires s.Length == UNITS
    ensures b == KeyBaseB(s[..])
  {
    var units := BlockUnits(s, 2048);
    b := units * 2;
  }

  // What copying a key object by construction makes of it: both arrays come from the first one.
  function Copied(m: Members): Members {
    m.(n := m.e)
  }

  // A copy saves to the same file as the original if and only if the two arrays of the key are equal: the file of
  // any key determines its members.
  lemma CopyIff(crc: Checksum, m: Members)
    requires MembersOk(m)
    ensures Copied(m) == m <==> m.e == m.n
    ensures Saved(crc, Copied(m)) == Saved(crc, m) <==> m.e == m.n
  {
    hide Saved, Loaded, Overruns, LoadCode, KeyBaseB;
    SaveLoad(crc, m, Zeros(16));
    SaveLoad(crc, Copied(m), Zeros(16));
  }

  // What loading returns, unless it left the buffer or a key array.
  datatype LoadResult = Code(code: int) | OutOfBounds

  class Keys {
    var dwReserv: nat
    var wEKeyBase: nat
    var wNKeyBase: nat
    const arwEKey: array<unit>
    const arwNKey: array<unit>

    ghost function State(): Members
      reads this, arwEKey, arwNKey
    {
      Members(dwReserv, arwEKey[..], arwNKey[..], wEKeyBase, wNKeyBase)
    }

    ghost predicate Valid()
      reads this, arwEKey, arwNKey
    {
      MembersOk(State()) && arwEKey != arwNKey
    }

    constructor ()
      ensures Valid() && State() == FRESH && fresh(arwEKey) && fresh(arwNKey)
    {
      dwReserv, wEKeyBase, wNKeyBase := 0, 0, 0;
      arwEKey := new unit[UNITS](_ => 0);
      arwNKey := new unit[UNITS](_ => 0);
      new;
      assert arwEKey[..] == ZeroUnits() && arwNKey[..] == ZeroUnits();
    }

    constructor Copy(from: Keys)
      requires from.Valid()
      ensures Valid() && State() == Copied(from.State()) && fresh(arwEKey) && fresh(arwNKey)
    {
      dwReserv, wEKeyBase, wNKeyBase := from.dwReserv, from.wEKeyBase, from.wNKeyBase;
      arwEKey := new unit[UNITS](i requires 0 <= i < UNITS && from.arwEKey.Length == UNITS reads from.arwEKey
                                 => from.arwEKey[i]);
      arwNKey := new unit[UNITS](i requires 0 <= i < UNITS && from.arwEKey.Length == UNITS reads from.arwEKey
                                 => from.arwEKey[i]);
      new;
      assert arwEKey[..] == from.arwEKey[..] && arwNKey[..] == from.arwEKey[..];
    }

    method Assign(from: Keys)
      requires Valid() && from.Valid() && from.arwEKey != arwEKey && from.arwNKey != arwNKey
      requires from.arwEKey != arwNKey && from.arwNKey != arwEKey
      modifies this, arwEKey, arwNKey
      ensures Valid() && State() == from.State()
    {
      dwReserv, wEKeyBase, wNKeyBase := from.dwReserv, from.wEKeyBase, from.wNKeyBase;
      var i := 0;
      while i < UNITS
        invariant 0 <= i <= UNITS && arwEKey.Length == arwNKey.Length == UNITS
        invariant from.arwEKey[..] == old(from.arwEKey[..]) && from.arwNKey[..] == old(from.arwNKey[..])
        invariant forall k :: 0 <= k < i ==> arwEKey[k] == from.arwEKey[k] && arwNKey[k] == from.arwNKey[k]
        modifies arwEKey, arwNKey
      {
        arwEKey[i] := from.arwEKey[i];
        arwNKey[i] := from.arwNKey[i];
        i := i + 1;
      }
      assert arwEKey[..] == from.arwEKey[..] && arwNKey[..] == from.arwNKey[..];
    }

    // The members one after another; the two lengths are taken anew.
    method SaveMembers() returns (b: seq<byte>)
      requires Valid()
      modifies this`wEKeyBase, this`wNKeyBase
      ensures Valid() && State() == Rebased(old(State())) && b == MemberBytes(State())
    {
      b := BytesOf(dwReserv, 4);
      wEKeyBase := KeyBase(arwEKey);
      var e := UnitsToBytes(arwEKey, wEKeyBase);
      b := b + BytesOf(wEKeyBase, 2) + e;
      wNKeyBase := KeyBase(arwNKey);
      var n := UnitsToBytes(arwNKey, wNKeyBase);
      b := b + BytesOf(wNKeyBase, 2) + n;
    }

    method SaveIntoBuffer(crc: Checksum) returns (buf: array<byte>)
      requires Valid()
      modifies this`wEKeyBase, this`wNKeyBase
      ensures Valid() && State() == Rebased(old(State())) && fresh(buf) && buf[..] == Saved(crc, old(State()))
    {
      var body := SaveMembers();
      var blank := Header(0, NoCrc(), |body|) + body;
      buf := new byte[|blank|](i requires 0 <= i < |blank| => blank[i]);
      assert buf[..] == blank;
      FileParts(0, NoCrc(), |body|, body);
      var c := crc(buf[..]);
      PutAt(buf, CRC_AT, c);
      CrcPut(0, NoCrc(), c, |body|, body);
    }

    method LoadMembersFrom(body: seq<byte>) returns (whole: bool)
      requires Valid()
      modifies this, arwEKey, arwNKey
      ensures Valid() && whole == Fits(body) && State() == LoadMembers(old(State()), body).members
    {
      hide Patched, BytesVal;
      if |body| < 4 {
        return false;
      }
      WordBound(body[..4]);
      dwReserv := NumberOf(body[..4]);
      if |body| < 6 {
        return false;
      }
      ShortBound(body[4..6]);
      wEKeyBase := NumberOf(body[4..6]);
      if wEKeyBase > 2 * UNITS || 6 + wEKeyBase > |body| {
        return false;
      }
      PatchUnits(arwEKey, body[6..6 + wEKeyBase]);
      if 8 + wEKeyBase > |body| {
        return false;
      }
      ShortBound(body[6 + wEKeyBase..8 + wEKeyBase]);
      wNKeyBase := NumberOf(body[6 + wEKeyBase..8 + wEKeyBase]);
      if wNKeyBase > 2 * UNITS || 8 + wEKeyBase + wNKeyBase > |body| {
        return false;
      }
      PatchUnits(arwNKey, body[8 + wEKeyBase..8 + wEKeyBase + wNKeyBase]);
      return true;
    }

    // The checksum's place is cleared while the checksum is taken, and restored on every path.
    method LoadFromBuffer(crc: Checksum, buf: array<byte>, beyond: seq<byte>) returns (r: LoadResult)
      requires Valid() && |beyond| == 16
      modifies this, arwEKey, arwNKey, buf
      ensures buf[..] == old(buf[..])
      ensures Valid() && (r.OutOfBounds? <==> old(Overruns(crc, buf[..], beyond)))
      ensures r.Code? ==> r.code == LoadCode(crc, old(buf[..]), beyond)
      ensures State() == old(Loaded(crc, buf[..], beyond, State()))
    {
      hide LoadMembers, BytesVal, Fits;
      ghost var file, m := buf[..], State();
      if buf.Length < HEADER {
        return Code(ERR_BUF_LEN);
      }
      assert buf[20..24] == file[20..24] && file[HEADER..] == buf[HEADER..];
      var size := NumberOf(buf[20..24]);
      if buf.Length - 8 < size {
        return Code(ERR_BUF_LEN);
      }
      var received := buf[CRC_AT..CRC_AT + 16];
      PutAt(buf, CRC_AT, NoCrc());
      assert buf[..] == WithCrc(file, NoCrc());
      var checked := crc((buf[..] + beyond)[..size + HEADER]);
      ghost var blank := buf[..];
      PutAt(buf, CRC_AT, received);
      assert buf[..] == file by {
        CrcRestored(file, blank, received);
      }
      if checked == received {
        var whole := LoadMembersFrom(buf[HEADER..]);
        return if whole then Code(0) else OutOfBounds;
      }
      return Code(ERR_CRC);
    }
  }

  lemma CrcPut(flag: nat, was: crc16, c: crc16, size: nat, body: seq<byte>)
    ensures var file := Header(flag, was, size) + body;
      file[..CRC_AT] + c + file[CRC_AT + 16..] == Header(flag, c, size) + body
  {
    hide BytesOf;
  }

  lemma CrcRestored(file: seq<byte>, blank: seq<byte>, received: seq<byte>)
    requires |file| >= HEADER && blank == WithCrc(file, NoCrc()) && received == file[CRC_AT..CRC_AT + 16]
    ensures blank[..CRC_AT] + received + blank[CRC_AT + 16..] == file
  {
  }

  lemma WordBound(four: seq<byte>)
    requires |four| == 4
    ensures BytesVal(four) < 0x1_0000_0000
  {
    Radices();
    BytesValBound(four, 2);
  }

  lemma ShortBound(two: seq<byte>)
    requires |two| == 2
    ensures BytesVal(two) < 65536
  {
    Radices();
    BytesValBound(two, 1);
  }

  // ---- the password mask ----

  function Xor(a: byte, b: byte): byte {
    assert Two(8) == 256;
    XorBits(a, b, 8)
  }

  lemma XorTwice(a: byte, b: byte)
    ensures Xor(Xor(a, b), b) == a
  {
    assert Two(8) == 256;
    XorBitsTwice(a, b, 8);
  }

  const MASK_AT: nat := HEADER + 6

  function Flag(file: seq<byte>): nat
    requires |file| >= HEADER
  {
    BytesVal(file[2..4])
  }

  function SetFlag(file: seq<byte>, flag: nat): (r: seq<byte>)
    requires |file| >= HEADER
    ensures |r| == |file|
  {
    file[..2] + BytesOf(flag, 2) + file[4..]
  }

  function MaskedByte(file: seq<byte>, mask: crc16, i: nat): byte
    requires i < |file|
  {
    if i < MASK_AT then file[i] else Xor(file[i], mask[(i - MASK_AT) % 16])
  }

  // A file whose flag is zero stays as it is; others have the mask laid over everything behind the first members.
  function Masked(file: seq<byte>, mask: crc16): (r: seq<byte>)
    requires |file| >= HEADER
    ensures |r| == |file|
  {
    if Flag(file) == 0 then file else seq(|file|, i requires 0 <= i < |file| => MaskedByte(file, mask, i))
  }

  lemma MaskKeepsHead(file: seq<byte>, mask: crc16)
    requires |file| >= MASK_AT
    ensures Masked(file, mask)[..MASK_AT] == file[..MASK_AT] && Flag(Masked(file, mask)) == Flag(file)
  {
    assert Masked(file, mask)[2..4] == file[2..4];
  }

  // Masking again takes the mask off.
  lemma MaskTwice(file: seq<byte>, mask: crc16)
    requires |file| >= MASK_AT
    ensures Masked(Masked(file, mask), mask) == file
  {
    MaskKeepsHead(file, mask);
    if Flag(file) != 0 {
      forall i | 0 <= i < |file|
        ensures Masked(Masked(file, mask), mask)[i] == file[i]
      {
        XorTwice(file[i], mask[(i - MASK_AT) % 16]);
      }
    }
  }

  // The bytes of the mask come round and round, bit by bit over the file from byte 30 on, unless both bytes of the
  // flag are zero.
  lemma MaskIsXor(file: seq<byte>, mask: crc16, i: nat, x: bv8, y: bv8)
    requires 24 <= |file| && i < |file| && file[i] == x as int && (i >= 30 ==> mask[(i - 30) % 16] == y as int)
    ensures Masked(file, mask)[i] ==
      if (file[2] == 0 && file[3] == 0) || i < 30 then x as int else (x ^ y) as int
  {
    hide XorBits, BytesOf;
    FlagIs(file);
    XorBytes(x, y);
  }

  lemma FlagIs(file: seq<byte>)
    requires |file| >= HEADER
    ensures Flag(file) == file[2] as int + 256 * file[3] as int
  {
    AnnouncedLength(file[2..4]);
    assert file[2..4][..2] == file[2..4];
  }

  lemma FlagBack(file: seq<byte>)
    requires |file| >= HEADER
    ensures SetFlag(SetFlag(file, 0), Flag(file)) == file
  {
    var b := file[2..4];
    assert |b| == 2;
    TwoBack(b);
  }

  lemma TwoBack(b: seq<byte>)
    requires |b| == 2
    ensures BytesOf(BytesVal(b), 2) == b
  {
    BytesOfVal(b, 2);
  }

  method SecureKey(buf: array<byte>, mask: crc16) returns (ok: bool)
    requires buf.Length >= MASK_AT
    modifies buf
    ensures buf[..] == Masked(old(buf[..]), mask) && ok == (Flag(old(buf[..])) != 0)
  {
    ghost var file := buf[..];
    assert buf[2..4] == file[2..4];
    var flag := NumberOf(buf[2..4]);
    if flag == 0 {
      return false;
    }
    var keyLen, proc := buf.Length - MASK_AT, 0;
    while proc < keyLen
      invariant 0 <= proc && proc % 16 == 0
      invariant forall i :: 0 <= i < buf.Length ==>
        buf[i] == if i < MASK_AT + proc then MaskedByte(file, mask, i) else file[i]
    {
      var k := 0;
      while k < 16 && proc + k < keyLen
        invariant 0 <= k <= 16 && (k > 0 ==> proc + k <= keyLen)
        invariant forall i :: 0 <= i < buf.Length ==>
          buf[i] == if i < MASK_AT + proc + k then MaskedByte(file, mask, i) else file[i]
      {
        assert (proc + k) % 16 == k;
        buf[MASK_AT + proc + k] := Xor(buf[MASK_AT + proc + k], mask[k]);
        k := k + 1;
      }
      proc := proc + 16;
    }
    return true;
  }

  // ---- two attempts ----

  function Attempt(file: seq<byte>, mask: crc16): seq<byte>
    requires |file| >= HEADER
  {
    SetFlag(Masked(file, mask), 0)
  }

  ghost predicate AttemptOk(crc: Checksum, file: seq<byte>, mask: crc16, beyond: seq<byte>)
    requires |file| >= HEADER && |beyond| == 16
  {
    LoadCode(crc, Attempt(file, mask), beyond) == 0
  }

  datatype KeysResult = KeysRead(keysRead: bool, error: int) | KeysOutOfBounds

  // The second attempt is made where the first one fails.
  ghost predicate KeysOverrun(crc: Checksum, file: seq<byte>, half: crc16, full: crc16, beyond: seq<byte>)
    requires |file| >= HEADER && |beyond| == 16
  {
    if AttemptOk(crc, file, half, beyond) then !Fits(Attempt(file, half)[HEADER..])
    else AttemptOk(crc, file, full, beyond) && !Fits(Attempt(file, full)[HEADER..])
  }

  // Tries the mask of half the password, then that of the whole password, each on the file as it was read. The answer
  // is true even where both fail; the key is flushed then.
  method LoadKeys(keys: Keys, crc: Checksum, buf: array<byte>, half: crc16, full: crc16, beyond: seq<byte>)
    returns (r: KeysResult)
    requires keys.Valid() && buf.Length >= MASK_AT && |beyond| == 16
    modifies keys, keys.arwEKey, keys.arwNKey, buf
    ensures keys.Valid() && (r.KeysOutOfBounds? <==> old(KeysOverrun(crc, buf[..], half, full, beyond)))
    ensures keys.State() ==
      if old(AttemptOk(crc, buf[..], half, beyond)) then
        old(LoadMembers(keys.State(), Attempt(buf[..], half)[HEADER..])).members
      else if old(AttemptOk(crc, buf[..], full, beyond)) then
        old(LoadMembers(keys.State(), Attempt(buf[..], full)[HEADER..])).members
      else FRESH
    ensures r.KeysRead? ==>
      r.keysRead && r.error == (
        if !old(AttemptOk(crc, buf[..], half, beyond)) && !old(AttemptOk(crc, buf[..], full, beyond)) then -3
        else if Flag(old(buf[..])) == 0 then -2 else 0)
  {
    hide Masked, Flag, SetFlag, LoadCode, LoadMembers, Fits;
    ghost var file, was := buf[..], keys.State();
    var error := 0;
    var ok := SecureKey(buf, half);
    if !ok {
      error := -2;
    }
    var oldFlag := ReadFlag(buf);
    WriteFlag(buf, 0);
    var loaded := keys.LoadFromBuffer(crc, buf, beyond);
    if loaded.OutOfBounds? {
      return KeysOutOfBounds;
    }
    if loaded.code != 0 {
      Restore(buf, oldFlag, half, file);
      ok := SecureKey(buf, full);
      if !ok {
        error := -2;
      }
      WriteFlag(buf, 0);
      loaded := keys.LoadFromBuffer(crc, buf, beyond);
      if loaded.OutOfBounds? {
        return KeysOutOfBounds;
      }
    }
    if loaded.code != 0 {
      var flushKey := new Keys();
      keys.Assign(flushKey);
      error := -3;
    }
    return KeysRead(true, error);
  }

  // Whatever the checksum function and the masks, there is a key file with a good checksum whose lengths do not fit.
  lemma GoodKeyFileOverruns(crc: Checksum, size: nat, half: crc16, full: crc16, beyond: seq<byte>)
    requires HEADER + 6 <= size < 0x1_0000_0000 && |beyond| == 16
    ensures exists file :: |file| == size && KeysOverrun(crc, file, half, full, beyond)
  {
    GoodFileOverruns(crc, size, beyond);
    var file :| |file| == size && Overruns(crc, file, beyond) && file[2..4] == [0, 0];
    ZeroFlag(file);
    assert Attempt(file, half) == file;
    assert KeysOverrun(crc, file, half, full, beyond);
  }

  lemma ZeroFlag(file: seq<byte>)
    requires |file| >= HEADER && file[2..4] == [0, 0]
    ensures Flag(file) == 0 && SetFlag(file, 0) == file
  {
    TwoBack([0, 0]);
    assert BytesVal([0, 0]) == 256 * BytesVal([0, 0][1..]);
    assert [0, 0][1..] == [0];
  }

  // The size that the header announces passes the length of the file.
  predicate Oversized(file: seq<byte>)
    requires |file| >= HEADER
  {
    Size(file) > |file| - 8
  }

  // Both attempts fail then, whatever the checksum function and the masks.
  lemma OversizedFails(crc: Checksum, file: seq<byte>, half: crc16, full: crc16, beyond: seq<byte>)
    requires |file| >= MASK_AT && Oversized(file) && |beyond| == 16
    ensures !AttemptOk(crc, file, half, beyond) && !AttemptOk(crc, file, full, beyond)
  {
    hide BytesVal, CrcGood;
    SizeKept(file, half);
    SizeKept(file, full);
  }

  lemma SizeKept(file: seq<byte>, mask: crc16)
    requires |file| >= MASK_AT
    ensures |Attempt(file, mask)| == |file| && Attempt(file, mask)[20..24] == file[20..24]
  {
    var masked := Masked(file, mask);
    MaskKeepsHead(file, mask);
    assert masked[20..24] == masked[..MASK_AT][20..24] == file[20..24];
    hide Masked, BytesOf;
    assert Attempt(file, mask)[20..24] == masked[20..24];
  }

  // Of any size from 30 bytes on there is such a file.
  lemma OversizedExists(size: nat)
    requires MASK_AT <= size < 0x100_0000
    ensures exists file :: |file| == size && Oversized(file)
  {
    var file := Zeros(20) + [0, 0, 0, 1] + Zeros(size - HEADER);
    assert file[20..24] == [0, 0, 0, 1];
    assert BytesVal([0, 0, 0, 1]) == 0x100_0000 by {
      assert [0, 0, 0, 1][1..] == [0, 0, 1] && [0, 0, 1][1..] == [0, 1] && [0, 1][1..] == [1];
      assert BytesVal([1]) == 1 && BytesVal([0, 1]) == 256 && BytesVal([0, 0, 1]) == 65536;
    }
    assert |file| == size && Oversized(file);
  }

  method ReadFlag(buf: array<byte>) returns (flag: nat)
    requires buf.Length >= HEADER
    ensures flag == Flag(buf[..])
  {
    assert buf[..][2..4] == buf[2..4];
    flag := NumberOf(buf[2..4]);
  }

  method WriteFlag(buf: array<byte>, flag: nat)
    requires buf.Length >= HEADER
    modifies buf
    ensures buf[..] == SetFlag(old(buf[..]), flag)
  {
    PutAt(buf, 2, BytesOf(flag, 2));
  }

  // Flag back, mask off: the bytes are those that were read.
  method Restore(buf: array<byte>, flag: nat, mask: crc16, ghost file: seq<byte>)
    requires buf.Length == |file| >= MASK_AT && flag == Flag(Masked(file, mask))
    requires buf[..] == SetFlag(Masked(file, mask), 0)
    modifies buf
    ensures buf[..] == file
  {
    hide Masked, Flag, SetFlag;
    FlagBack(Masked(file, mask));
    WriteFlag(buf, flag);
    MaskTwice(file, mask);
    var ok := SecureKey(buf, mask);
  }
}
