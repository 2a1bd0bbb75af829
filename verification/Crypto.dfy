// Block encryption and decryption of byte messages over modular exponentiation.
module Crypto {
  import opened Powers
  import opened Units
  import opened Bytes
  import opened Merritt
  import opened RsaArithmetic
  import opened RsaLib

  const KEY_BITS: nat := 528

  // Units up to the highest nonzero one.
  function SignificantUnits(s: seq<unit>, k: nat): (u: nat)
    requires k <= |s|
    ensures u <= k
  {
    if k == 0 then 0 else if s[k - 1] != 0 then k else SignificantUnits(s, k - 1)
  }

  lemma {:induction false} SignificantUnitsIs(s: seq<unit>, k: nat, u: nat)
    requires u <= k <= |s| && (u > 0 ==> s[u - 1] != 0) && forall i :: u <= i < k ==> s[i] == 0
    ensures SignificantUnits(s, k) == u
  {
    if u < k {
      SignificantUnitsIs(s, k - 1, u);
    }
  }

  lemma {:induction false} SignificantUnitsBound(s: seq<unit>, k: nat)
    requires k <= |s|
    ensures Val(s, k) == Val(s, SignificantUnits(s, k)) < Radix(SignificantUnits(s, k))
    ensures SignificantUnits(s, k) > 0 ==> Radix(SignificantUnits(s, k) - 1) <= Val(s, k)
  {
    if k > 0 {
      if s[k - 1] != 0 {
        ValBound(s, k);
        TopUnit(s, k);
        MulMono(1, s[k - 1], Radix(k - 1));
      } else {
        SignificantUnitsBound(s, k - 1);
      }
    }
  }

  // What exponentiation leaves for a block x; a refused exponentiation leaves 1.
  function BlockPower(x: nat, e: nat, n: nat, p: nat): nat
    requires p > 0
  {
    if e > 0 && ModexpStatus(x, e, n, p) == 0 then SquareMultiply(x, e, n, WorkPrecision(n)) else 1
  }

  // A key at p units, whose modulus n has k significant units.
  datatype Key = Key(exponent: nat, modulus: nat, precision: nat, units: nat)

  ghost predicate KeyOk(key: Key) {
    0 < key.precision && 2 <= key.units <= key.precision
  }

  // Plaintext bytes a block takes in, and ciphertext bytes it makes.
  function Work(key: Key): int {
    2 * (key.units - 1)
  }

  function EncryptBlock(block: seq<byte>, key: Key): (c: seq<byte>)
    requires key.precision > 0
    ensures |c| == 2 * key.units
  {
    BytesOf(BlockPower(BytesVal(block), key.exponent, key.modulus, key.precision), 2 * key.units)
  }

  function EncryptFrom(buf: seq<byte>, key: Key): seq<byte>
    requires KeyOk(key)
  {
    if |buf| <= Work(key) then
      EncryptBlock(buf, key)
    else
      EncryptBlock(buf[..Work(key)], key) + EncryptFrom(buf[Work(key)..], key)
  }

  // The message with its length, kept in 16 bits, in front.
  function Framed(message: seq<byte>): (b: seq<byte>)
    ensures |b| == |message| + 2
  {
    BytesOf(|message| % 65536, 2) + message
  }

  function Encrypted(message: seq<byte>, key: Key): seq<byte>
    requires KeyOk(key)
  {
    EncryptFrom(Framed(message), key)
  }

  // As many ciphertext bytes as GetCLenB says for a message of len bytes.
  function CipherLength(len: nat, units: nat): nat
    requires units >= 2
  {
    var words := (len + 2 + 1) / 2;
    var tail := if words % (units - 1) != 0 then 1 else 0;
    (words / (units - 1) + tail) * units * 2
  }

  // The ciphertext bytes of a buffer taken in block by block.
  function BlockBytes(buf: nat, units: nat): nat
    requires units >= 2
    decreases buf
  {
    2 * units + if buf <= 2 * (units - 1) then 0 else BlockBytes(buf - 2 * (units - 1), units)
  }

  lemma {:induction false} EncryptLength(buf: seq<byte>, key: Key)
    requires KeyOk(key)
    ensures |EncryptFrom(buf, key)| == BlockBytes(|buf|, key.units)
    decreases |buf|
  {
    if |buf| > Work(key) {
      EncryptLength(buf[Work(key)..], key);
    }
  }

  lemma OneMoreWord(words: nat, w: nat)
    requires w < words && 0 < w
    ensures words / w == (words - w) / w + 1 && words % w == (words - w) % w
  {
    DivMod(words - w, w);
    MulDistrib((words - w) / w, 1, w);
    DivUnique(words, (words - w) / w + 1, (words - w) % w, w);
  }

  lemma OneBlock(words: nat, w: nat)
    requires 0 < words <= w
    ensures words / w + (if words % w != 0 then 1 else 0) == 1
  {
    if words == w {
      DivUnique(words, 1, 0, w);
    } else {
      DivUnique(words, 0, words, w);
    }
  }

  lemma {:induction false} BlockBytesIs(buf: nat, units: nat)
    requires units >= 2 && buf > 0
    ensures var words := (buf + 1) / 2;
      BlockBytes(buf, units) == (words / (units - 1) + if words % (units - 1) != 0 then 1 else 0) * (2 * units)
    decreases buf
  {
    var w, words := units - 1, (buf + 1) / 2;
    if buf <= 2 * w {
      OneBlock(words, w);
    } else {
      BlockBytesIs(buf - 2 * w, units);
      OneMoreWord(words, w);
      var rest := (words - w) / w + if (words - w) % w != 0 then 1 else 0;
      MulDistrib(rest, 1, 2 * units);
    }
  }

  // CrpB writes exactly the bytes GetCLenB announces.
  lemma EncryptedLength(message: seq<byte>, key: Key)
    requires KeyOk(key)
    ensures |Encrypted(message, key)| == CipherLength(|message|, key.units)
  {
    EncryptLength(Framed(message), key);
    BlockBytesIs(|message| + 2, key.units);
    var words := (|message| + 2 + 1) / 2;
    var b := words / (key.units - 1) + if words % (key.units - 1) != 0 then 1 else 0;
    MulAssoc(b, key.units, 2);
  }

  // Decryption takes whole blocks only and keeps the work bytes of each.
  function DecryptFrom(c: seq<byte>, key: Key): (b: seq<byte>)
    requires key.precision > 0 && key.units >= 1
    ensures |b| <= |c|
  {
    if |c| < 2 * key.units then
      []
    else
      EncryptBlock(c[..2 * key.units], key)[..Work(key)] + DecryptFrom(c[2 * key.units..], key)
  }

  // The decryption buffer: as long as the ciphertext, and zero after the decrypted bytes.
  function DecryptBuffer(c: seq<byte>, key: Key): (b: seq<byte>)
    requires key.precision > 0 && key.units >= 1
    ensures |b| == |c|
  {
    DecryptFrom(c, key) + Zeros(|c| - |DecryptFrom(c, key)|)
  }

  // Less than a block of ciphertext, or an announced length over the length of the ciphertext.
  predicate Rejected(c: seq<byte>, key: Key)
    requires key.precision > 0
  {
    key.units == 0 || |c| < 2 * key.units || |c| < BytesVal(DecryptBuffer(c, key)[..2])
  }

  // What DCrpB hands out. The copy starts two bytes into the buffer, so an announced length close to the length
  // of the ciphertext takes in up to two of the bytes that lie beyond the buffer.
  function Decrypted(c: seq<byte>, key: Key, beyond: seq<byte>): (m: seq<byte>)
    requires key.precision > 0 && |beyond| == 2
  {
    if Rejected(c, key) then
      []
    else
      (DecryptBuffer(c, key) + beyond)[2..2 + BytesVal(DecryptBuffer(c, key)[..2])]
  }

  // The length in front of the decrypted bytes.
  function Announced(c: seq<byte>, key: Key): nat
    requires key.precision > 0 && key.units >= 1 && |c| >= 2
  {
    BytesVal(DecryptBuffer(c, key)[..2])
  }

  // The bytes beyond the buffer do not matter if and only if nothing is handed out, or the announced length leaves
  // room for its own two bytes.
  lemma BeyondIff(c: seq<byte>, key: Key)
    requires key.precision > 0
    ensures (forall a, b | |a| == |b| == 2 :: Decrypted(c, key, a) == Decrypted(c, key, b))
       <==> Rejected(c, key) || Announced(c, key) + 2 <= |c|
  {
    hide DecryptBuffer, BytesVal;
    if !Rejected(c, key) {
      var out, m := DecryptBuffer(c, key), Announced(c, key);
      if m + 2 <= |c| {
        forall a: seq<byte>, b: seq<byte> | |a| == |b| == 2
          ensures Decrypted(c, key, a) == Decrypted(c, key, b)
        {
          assert (out + a)[2..2 + m] == out[2..2 + m] == (out + b)[2..2 + m];
        }
      } else {
        var at := |c| - 2;
        assert Decrypted(c, key, [0, 0])[at] == (out + [0, 0])[|c|] == 0;
        assert Decrypted(c, key, [1, 1])[at] == (out + [1, 1])[|c|] == 1;
      }
    }
  }

  // A key whose blocks below the modulus are exponentiated exactly.
  ghost predicate Exact(key: Key) {
    && KeyOk(key)
    && Radix(key.units - 1) <= key.modulus < Radix(key.units)
    && key.modulus < 32768 * Radix(key.precision - 1)
    && NoWrap(key.modulus, WorkPrecision(key.modulus))
    && 0 < key.exponent < key.modulus
  }

  // The two keys undo each other on every block below the modulus.
  ghost predicate KeyPair(e: Key, d: Key) {
    && Exact(e) && d == e.(exponent := d.exponent) && 0 < d.exponent < e.modulus
    && forall x: nat :: x < e.modulus ==> Pow(Pow(x, e.exponent) % e.modulus, d.exponent) % e.modulus == x
  }

  lemma BlockPowerExact(x: nat, key: Key)
    requires KeyOk(key) && x < key.modulus < 32768 * Radix(key.precision - 1)
    requires NoWrap(key.modulus, WorkPrecision(key.modulus)) && 0 < key.exponent < key.modulus
    ensures BlockPower(x, key.exponent, key.modulus, key.precision) == Pow(x, key.exponent) % key.modulus
    ensures Pow(x, key.exponent) % key.modulus < key.modulus
  {
    WorkHeadRoom(key.modulus);
    SquareMultiplyReduces(x, key.exponent, key.modulus, WorkPrecision(key.modulus));
    DivMod(Pow(x, key.exponent), key.modulus);
  }

  // Decrypting an encrypted block gives back its bytes, padded with zeros.
  lemma BlockRoundTrip(block: seq<byte>, e: Key, d: Key)
    requires KeyPair(e, d) && |block| <= Work(e)
    ensures BytesVal(block) < e.modulus
    ensures EncryptBlock(EncryptBlock(block, e), d)[..Work(d)] == block + Zeros(Work(e) - |block|)
  {
    hide BytesVal, BytesOf, BlockPower, Pow, Radix, NoWrap, WorkPrecision;
    var x := BytesVal(block);
    BytesValBound(block, e.units - 1);
    BlockPowerExact(x, e);
    var y := Pow(x, e.exponent) % e.modulus;
    ValOfBytes(y, e.units);
    BlockPowerExact(y, d);
    assert EncryptBlock(EncryptBlock(block, e), d) == BytesOf(x, 2 * e.units);
    BytesOfVal(block, 2 * e.units);
    assert (block + Zeros(2 * e.units - |block|))[..Work(d)] == block + Zeros(Work(e) - |block|);
  }

  lemma {:induction false} StreamRoundTrip(buf: seq<byte>, e: Key, d: Key) returns (pad: nat)
    requires KeyPair(e, d) && |buf| > 0
    ensures DecryptFrom(EncryptFrom(buf, e), d) == buf + Zeros(pad)
    decreases |buf|
  {
    hide EncryptBlock, KeyPair;
    var w, k2 := Work(e), 2 * e.units;
    KeyPairKeys(e, d);
    if |buf| <= w {
      BlockRoundTrip(buf, e, d);
      DecryptBlock(EncryptBlock(buf, e), [], d);
      assert EncryptBlock(buf, e) + [] == EncryptBlock(buf, e);
      pad := w - |buf|;
    } else {
      BlockRoundTrip(buf[..w], e, d);
      DecryptBlock(EncryptBlock(buf[..w], e), EncryptFrom(buf[w..], e), d);
      pad := StreamRoundTrip(buf[w..], e, d);
      assert buf == buf[..w] + buf[w..];
      assert Zeros(w - |buf[..w]|) == [];
    }
  }

  lemma KeyPairKeys(e: Key, d: Key)
    requires KeyPair(e, d)
    ensures KeyOk(e) && KeyOk(d) && e.units == d.units
  {
  }

  lemma DecryptBlock(c: seq<byte>, rest: seq<byte>, key: Key)
    requires KeyOk(key) && |c| == 2 * key.units
    ensures DecryptFrom(c + rest, key) == EncryptBlock(c, key)[..Work(key)] + DecryptFrom(rest, key)
  {
    hide EncryptBlock;
    assert (c + rest)[..2 * key.units] == c && (c + rest)[2 * key.units..] == rest;
  }

  // For every pair of keys there is a ciphertext of one block that announces its own length, so that its decryption
  // ends in the two bytes beyond the buffer.
  lemma EveryPairLeaks(e: Key, d: Key) returns (c: seq<byte>)
    requires KeyPair(e, d) && 2 * e.units < 65536
    ensures |c| == 2 * e.units && !Rejected(c, d) && Announced(c, d) == |c|
    ensures forall beyond | |beyond| == 2 :: Decrypted(c, d, beyond)[|c| - 2..] == beyond
    ensures Decrypted(c, d, [0, 0]) != Decrypted(c, d, [1, 1])
  {
    hide EncryptBlock, DecryptFrom, KeyPair, BytesOf, BytesVal;
    var block := BytesOf(2 * e.units, 2);
    KeyPairKeys(e, d);
    c := EncryptBlock(block, e);
    BlockRoundTrip(block, e, d);
    DecryptBlock(c, [], d);
    NothingDecrypted(d);
    assert c + [] == c;
    var out := DecryptBuffer(c, d);
    assert out[..2] == block;
    RadixStep(0);
    ValOfBytes(2 * e.units, 1);
    forall beyond: seq<byte> | |beyond| == 2
      ensures Decrypted(c, d, beyond)[|c| - 2..] == beyond
    {
      assert (out + beyond)[2..2 + |c|][|c| - 2..] == beyond;
    }
    assert Decrypted(c, d, [0, 0])[|c| - 2..] == [0, 0] && Decrypted(c, d, [1, 1])[|c| - 2..] == [1, 1];
    assert [0, 0][0] != [1, 1][0];
  }

  lemma NothingDecrypted(key: Key)
    requires KeyOk(key)
    ensures DecryptFrom([], key) == []
  {
  }

  // Decryption gives back the message up to the length its 16 bits can hold.
  lemma RoundTripPrefix(message: seq<byte>, e: Key, d: Key, beyond: seq<byte>)
    requires KeyPair(e, d) && |beyond| == 2
    ensures Decrypted(Encrypted(message, e), d, beyond) == message[..|message| % 65536]
  {
    hide EncryptFrom, DecryptFrom, KeyPair, BytesOf, BytesVal;
    var buf, len := Framed(message), |message| % 65536;
    KeyPairKeys(e, d);
    var pad := StreamRoundTrip(buf, e, d);
    var c := EncryptFrom(buf, e);
    var out := DecryptBuffer(c, d);
    assert out == buf + Zeros(pad) + Zeros(|c| - |buf| - pad);
    assert out[..2] == BytesOf(len, 2);
    RadixStep(0);
    ValOfBytes(len, 1);
    EncryptLength(buf, e);
    BlockCount(|buf|, e.units);
    assert (out + beyond)[2..2 + len] == message[..len];
  }

  // There is never less ciphertext than plaintext.
  lemma {:induction false} BlockCount(buf: nat, units: nat)
    requires units >= 2
    ensures BlockBytes(buf, units) >= buf && BlockBytes(buf, units) >= 2 * units
    decreases buf
  {
    if 2 * (units - 1) < buf {
      BlockCount(buf - 2 * (units - 1), units);
    }
  }

  // The round trip is exact just for messages whose length fits the 16-bit prefix.
  lemma RoundTripIff(message: seq<byte>, e: Key, d: Key, beyond: seq<byte>)
    requires KeyPair(e, d) && |beyond| == 2
    ensures Decrypted(Encrypted(message, e), d, beyond) == message <==> |message| <= 65535
  {
    hide Decrypted, Encrypted, KeyPair;
    RoundTripPrefix(message, e, d, beyond);
    if |message| > 65535 {
      assert |message[..|message| % 65536]| < |message|;
    }
  }

  // ---- what the blocks are, as powers ----

  // Run k of size bytes; what the end of the bytes leaves of it.
  function Piece(b: seq<byte>, size: nat, k: nat): seq<byte> {
    b[Least(size * k, |b|)..Least(size * (k + 1), |b|)]
  }

  function Least(a: nat, b: nat): nat {
    if a < b then a else b
  }

  lemma FirstPiece(b: seq<byte>, size: nat)
    ensures Piece(b, size, 0) == b[..Least(size, |b|)]
  {
  }

  lemma LaterPiece(b: seq<byte>, size: nat, k: nat)
    requires k > 0 && size <= |b|
    ensures Piece(b, size, k) == Piece(b[size..], size, k - 1)
  {
    NextRun(size, k);
  }

  lemma NextRun(size: nat, k: nat)
    requires k > 0
    ensures size * k == size + size * (k - 1) && size * (k + 1) == size + size * k && size * (k - 1) >= 0
  {
    MulMono(0, k - 1, size);
  }

  // Each block of ciphertext is the power of the bytes of the length and the message that it stands for.
  ghost predicate Enciphered(message: seq<byte>, c: seq<byte>, key: Key)
    requires KeyOk(key) && key.modulus > 0
  {
    var framed: seq<byte> := [|message| % 256, |message| / 256 % 256] + message;
    forall k: nat :: Work(key) * k < |framed| ==>
      2 * key.units * (k + 1) <= |c|
      && BytesVal(Piece(c, 2 * key.units, k))
      == Pow(BytesVal(Piece(framed, Work(key), k)), key.exponent) % key.modulus
  }

  // What the work bytes of a decrypted block amount to; a block that is not below the modulus leaves 1.
  ghost function Deciphered(x: nat, key: Key): nat
    requires KeyOk(key) && key.modulus > 0
  {
    if x < key.modulus then Pow(x, key.exponent) % key.modulus % Radix(key.units - 1) else 1
  }

  // A buffer as long as the ciphertext: the work bytes of each of its whole blocks, then zeros.
  ghost predicate Recovered(c: seq<byte>, b: seq<byte>, key: Key)
    requires KeyOk(key) && key.modulus > 0
  {
    && |b| == |c|
    && (forall k: nat :: 2 * key.units * (k + 1) <= |c| ==>
         BytesVal(Piece(b, Work(key), k)) == Deciphered(BytesVal(Piece(c, 2 * key.units, k)), key))
    && forall i :: Work(key) * (|c| / (2 * key.units)) <= i < |c| ==> b[i] == 0
  }

  lemma BlockIs(block: seq<byte>, key: Key)
    requires Exact(key) && |block| <= Work(key)
    ensures BytesVal(EncryptBlock(block, key)) == Pow(BytesVal(block), key.exponent) % key.modulus
  {
    hide BytesVal, BytesOf, BlockPower, Pow, Radix, NoWrap, WorkPrecision;
    BytesValBound(block, key.units - 1);
    BlockPowerExact(BytesVal(block), key);
    ValOfBytes(Pow(BytesVal(block), key.exponent) % key.modulus, key.units);
  }

  lemma CipherStep(buf: seq<byte>, key: Key)
    requires KeyOk(key)
    ensures |EncryptFrom(buf, key)| >= 2 * key.units
    ensures EncryptFrom(buf, key)[..2 * key.units] == EncryptBlock(buf[..Least(Work(key), |buf|)], key)
    ensures |buf| > Work(key) ==> EncryptFrom(buf, key)[2 * key.units..] == EncryptFrom(buf[Work(key)..], key)
  {
    hide EncryptBlock;
    assert |buf| <= Work(key) ==> buf[..|buf|] == buf;
  }

  lemma {:induction false} CipherPiece(buf: seq<byte>, key: Key, k: nat)
    requires Exact(key) && Work(key) * k < |buf|
    ensures 2 * key.units * (k + 1) <= |EncryptFrom(buf, key)|
    ensures BytesVal(Piece(EncryptFrom(buf, key), 2 * key.units, k))
         == Pow(BytesVal(Piece(buf, Work(key), k)), key.exponent) % key.modulus
    decreases k
  {
    hide EncryptBlock, EncryptFrom, Exact, Piece, BytesVal, Pow;
    ExactKey(key);
    var w, u2, c := Work(key), 2 * key.units, EncryptFrom(buf, key);
    CipherStep(buf, key);
    if k == 0 {
      FirstPiece(buf, w);
      FirstPiece(c, u2);
      BlockIs(Piece(buf, w, 0), key);
    } else {
      NextRun(w, k);
      NextRun(u2, k);
      CipherPiece(buf[w..], key, k - 1);
      LaterPiece(buf, w, k);
      LaterPiece(c, u2, k);
    }
  }

  lemma ExactKey(key: Key)
    requires Exact(key)
    ensures KeyOk(key) && key.modulus > 0
  {
  }

  // Encryption raises each run of bytes to the exponent.
  lemma CipherBlocks(message: seq<byte>, key: Key)
    requires Exact(key)
    ensures Enciphered(message, Encrypted(message, key), key)
  {
    hide EncryptFrom, Exact, Piece, BytesVal, Pow;
    ExactKey(key);
    TwoByteNumber(|message| % 65536);
    var framed := Framed(message);
    LowBytesOfLength(|message|);
    assert framed == [|message| % 256, |message| / 256 % 256] + message;
    forall k: nat | Work(key) * k < |framed|
      ensures 2 * key.units * (k + 1) <= |Encrypted(message, key)|
      ensures BytesVal(Piece(Encrypted(message, key), 2 * key.units, k))
           == Pow(BytesVal(Piece(framed, Work(key), k)), key.exponent) % key.modulus
    {
      CipherPiece(framed, key, k);
    }
  }

  lemma LowBytesOfLength(v: nat)
    ensures v % 65536 % 256 == v % 256 && v % 65536 / 256 == v / 256 % 256
  {
  }

  // The low bytes of a number.
  lemma LowBytesVal(v: nat, count: nat, k: nat)
    requires 2 * k <= count
    ensures BytesVal(BytesOf(v, count)[..2 * k]) == v % Radix(k)
  {
    DivMod(v, Radix(k));
    var q, r := v / Radix(k), v % Radix(k);
    ValOfBytes(r, k);
    BytesOfLow(r, q, 2 * k, k);
    BytesOfPrefix(v, 2 * k, count);
  }

  lemma {:induction false} BytesOfPrefix(v: nat, few: nat, count: nat)
    requires few <= count
    ensures BytesOf(v, count)[..few] == BytesOf(v, few)
  {
    if few > 0 {
      BytesOfPrefix(v / 256, few - 1, count - 1);
    }
  }

  lemma WorkBytesAre(block: seq<byte>, key: Key)
    requires Exact(key) && |block| == 2 * key.units
    ensures BytesVal(EncryptBlock(block, key)[..Work(key)]) == Deciphered(BytesVal(block), key)
  {
    hide BytesVal, BytesOf, Pow, NoWrap, WorkPrecision, BlockPower, Radix;
    var x := BytesVal(block);
    LowBytesVal(BlockPower(x, key.exponent, key.modulus, key.precision), 2 * key.units, key.units - 1);
    if x < key.modulus {
      BlockPowerExact(x, key);
    } else {
      RefusedBlock(x, key);
    }
  }

  // Exponentiation refuses a block that is not below the modulus, which leaves 1.
  lemma RefusedBlock(x: nat, key: Key)
    requires Exact(key) && x >= key.modulus
    ensures BlockPower(x, key.exponent, key.modulus, key.precision) == 1 == 1 % Radix(key.units - 1)
  {
    hide NoWrap, WorkPrecision, SquareMultiply, Radix;
    RadixMono(1, key.units - 1);
    RadixStep(0);
    ModOfOne(Radix(key.units - 1));
    assert ModexpStatus(x, key.exponent, key.modulus, key.precision) != 0;
  }

  lemma ModOfOne(d: nat)
    requires d > 1
    ensures 1 % d == 1
  {
    DivUnique(1, 0, 1, d);
  }

  lemma PlainStep(c: seq<byte>, key: Key)
    requires KeyOk(key) && |c| >= 2 * key.units
    ensures |DecryptFrom(c, key)| >= Work(key)
    ensures DecryptFrom(c, key)[..Work(key)] == EncryptBlock(c[..2 * key.units], key)[..Work(key)]
    ensures DecryptFrom(c, key)[Work(key)..] == DecryptFrom(c[2 * key.units..], key)
  {
    hide EncryptBlock;
  }

  lemma {:induction false} PlainPiece(c: seq<byte>, key: Key, k: nat)
    requires Exact(key) && 2 * key.units * (k + 1) <= |c|
    ensures Work(key) * (k + 1) <= |DecryptFrom(c, key)|
    ensures BytesVal(Piece(DecryptFrom(c, key), Work(key), k))
         == Deciphered(BytesVal(Piece(c, 2 * key.units, k)), key)
    decreases k
  {
    hide EncryptBlock, DecryptFrom, Exact, Piece, BytesVal, Deciphered;
    ExactKey(key);
    var w, u2, b := Work(key), 2 * key.units, DecryptFrom(c, key);
    if k == 0 {
      PlainStep(c, key);
      FirstPiece(c, u2);
      FirstPiece(b, w);
      WorkBytesAre(Piece(c, u2, 0), key);
    } else {
      NextRun(u2, k);
      NextRun(w, k);
      PlainStep(c, key);
      PlainPiece(c[u2..], key, k - 1);
      LaterPiece(c, u2, k);
      LaterPiece(b, w, k);
    }
  }

  lemma {:induction false} DecryptLength(c: seq<byte>, key: Key)
    requires KeyOk(key)
    ensures |DecryptFrom(c, key)| == Work(key) * (|c| / (2 * key.units))
    decreases |c|
  {
    hide EncryptBlock;
    var w, u2 := Work(key), 2 * key.units;
    if |c| < u2 {
      DivUnique(|c|, 0, |c|, u2);
    } else {
      DecryptLength(c[u2..], key);
      DivMod(|c| - u2, u2);
      var q := (|c| - u2) / u2;
      MulDistrib(q, 1, u2);
      DivUnique(|c|, q + 1, (|c| - u2) % u2, u2);
      MulDistrib(q, 1, w);
    }
  }

  // Decryption raises each whole block of ciphertext to the exponent.
  lemma PlainBlocks(c: seq<byte>, key: Key)
    requires Exact(key)
    ensures Recovered(c, DecryptBuffer(c, key), key)
  {
    hide DecryptFrom, Exact, Piece, BytesVal, Deciphered;
    ExactKey(key);
    DecryptLength(c, key);
    var b := DecryptBuffer(c, key);
    forall k: nat | 2 * key.units * (k + 1) <= |c|
      ensures BytesVal(Piece(b, Work(key), k)) == Deciphered(BytesVal(Piece(c, 2 * key.units, k)), key)
    {
      PlainPiece(c, key, k);
      PieceInFront(DecryptFrom(c, key), Zeros(|c| - |DecryptFrom(c, key)|), Work(key), k);
    }
  }

  // Bytes handed out of a recovered buffer: as many as its first two bytes announce, from the third on, over its end
  // where they reach so far, or none when the ciphertext is shorter.
  ghost predicate HandedOut(c: seq<byte>, beyond: seq<byte>, m: seq<byte>, key: Key)
    requires KeyOk(key) && key.modulus > 0 && |c| >= 2 && |beyond| == 2
  {
    exists b: seq<byte> | Recovered(c, b, key) ::
      var announced: nat := b[0] as int + 256 * b[1] as int;
      m == if |c| < announced then [] else (b + beyond)[2..2 + announced]
  }

  lemma PlainHandedOut(c: seq<byte>, key: Key, beyond: seq<byte>)
    requires Exact(key) && |c| >= 2 * key.units && |beyond| == 2
    ensures HandedOut(c, beyond, Decrypted(c, key, beyond), key)
  {
    hide Recovered, DecryptBuffer, BytesVal, Radix, NoWrap, WorkPrecision;
    PlainBlocks(c, key);
    AnnouncedLength(DecryptBuffer(c, key));
  }

  lemma PieceInFront(a: seq<byte>, b: seq<byte>, size: nat, k: nat)
    requires size * (k + 1) <= |a|
    ensures Piece(a + b, size, k) == Piece(a, size, k)
  {
    MulDistrib(1, k, size);
  }

  // A key array: the live units, and zeros up to the longest precision.
  ghost predicate KeyArray(r: array<unit>, p: nat)
    reads r
  {
    0 < p <= MAX_UNIT_PRECISION <= r.Length && forall k :: p <= k < MAX_UNIT_PRECISION ==> r[k] == 0
  }

  ghost predicate KeyArrays(e: array<unit>, n: array<unit>, p: nat)
    reads e, n
  {
    KeyArray(e, p) && KeyArray(n, p) && WorkPrecision(Val(n[..], p)) <= MAX_UNIT_PRECISION
  }

  ghost function KeyIn(e: array<unit>, n: array<unit>, p: nat): Key
    requires p <= e.Length && p <= n.Length
    reads e, n
  {
    Key(Val(e[..], p), Val(n[..], p), p, SignificantUnits(n[..], p))
  }

  // The significant units of a modulus, as a library object of that precision counts them.
  method BlockUnits(n: array<unit>, keyBits: nat) returns (units: nat)
    requires 0 < (keyBits + 15) / 16 <= n.Length
    ensures units == SignificantUnits(n[..], (keyBits + 15) / 16)
  {
    var rsaLib := new CRSALib((keyBits + 15) / 16);
    units := rsaLib.Significance(n);
    SignificantUnitsIs(n[..], (keyBits + 15) / 16, units);
  }

  // A length, or the division by the size of a block that takes nothing in.
  datatype LengthOutcome = Length(bytes: nat) | DividedByZero

  function Announcement(len: nat, units: nat): LengthOutcome {
    if units == 0 then Length(0) else if units == 1 then DividedByZero else Length(CipherLength(len, units))
  }

  // Division as the processor does it, rounding towards zero.
  function Quotient(a: nat, b: int): int
    requires b != 0
  {
    if b > 0 then a / b else -(a / -b)
  }

  method GetCLenB(len: nat, n: array<unit>, keyBits: nat) returns (r: LengthOutcome)
    requires 0 < (keyBits + 15) / 16 <= n.Length
    ensures r == Announcement(len, SignificantUnits(n[..], (keyBits + 15) / 16))
  {
    var blockSize := BlockUnits(n, keyBits);
    var workBlockSize := blockSize as int - 1;
    var words := (len + 2 + 1) / 2;
    if workBlockSize == 0 {
      return DividedByZero;
    }
    var tail := words - Quotient(words, workBlockSize) * workBlockSize;
    if workBlockSize > 0 {
      DivMod(words, workBlockSize);
    }
    if tail != 0 {
      tail := 1;
    }
    return Length((Quotient(words, workBlockSize) + tail) * blockSize * 2);
  }

  // Clears a unit buffer and copies bytes into it.
  method LoadBlock(dst: array<unit>, src: array<byte>, start: nat, count: nat)
    requires start + count <= src.Length && count <= 2 * dst.Length
    modifies dst
    ensures forall i :: 0 <= i < dst.Length ==> dst[i] == UnitAt(src[start..start + count], i)
  {
    ghost var b := src[start..start + count];
    var i := 0;
    while i < dst.Length
      invariant 0 <= i <= dst.Length
      invariant forall k :: 0 <= k < i ==> dst[k] == UnitAt(b, k)
    {
      var low: int := if 2 * i < count then src[start + 2 * i] else 0;
      var high: int := if 2 * i + 1 < count then src[start + 2 * i + 1] else 0;
      assert low == ByteOrZero(b, 2 * i) && high == ByteOrZero(b, 2 * i + 1);
      dst[i] := low + 256 * high;
      i := i + 1;
    }
  }

  // Copies the low bytes of a unit buffer out.
  method StoreBlock(dst: array<byte>, start: nat, src: array<unit>, count: nat)
    requires start + count <= dst.Length && count <= 2 * src.Length
    modifies dst
    ensures forall i :: 0 <= i < count ==> dst[start + i] == ByteAt(src[..], i)
    ensures forall i :: 0 <= i < dst.Length && !(start <= i < start + count) ==> dst[i] == old(dst[i])
  {
    var i := 0;
    while i < count
      invariant 0 <= i <= count
      invariant forall k :: 0 <= k < i ==> dst[start + k] == ByteAt(src[..], k)
      invariant forall k :: 0 <= k < dst.Length && !(start <= k < start + i) ==> dst[k] == old(dst[k])
    {
      dst[start + i] := if i % 2 == 0 then src[i / 2] % 256 else src[i / 2] / 256;
      i := i + 1;
    }
  }

  lemma LowBytes(s: seq<unit>, k: nat, m: nat)
    requires k <= m <= |s|
    ensures forall i :: 0 <= i < 2 * k ==> ByteAt(s, i) == BytesOf(Val(s, m), 2 * k)[i]
  {
    ValSplit(s, k, m);
    BytesOfUnits(s, k);
    BytesOfLow(Val(s, k), Val(s[k..], m - k), 2 * k, k);
  }

  // Exponentiates one block into cb; its low bytes are the encrypted block.
  method PowerBlock(rsaLib: CRSALib, cb: array<unit>, pb: array<unit>, e: array<unit>, n: array<unit>,
                    ghost block: seq<byte>)
    requires rsaLib.Buffers() && KeyArrays(e, n, rsaLib.precision)
    requires rsaLib.Foreign(cb) && rsaLib.Foreign(pb) && rsaLib.Foreign(e) && rsaLib.Foreign(n)
    requires cb != pb && cb != e && cb != n && cb.Length == MAX_UNIT_PRECISION && pb.Length == MAX_UNIT_PRECISION
    requires |block| <= 2 * rsaLib.precision
    requires forall i :: 0 <= i < pb.Length ==> pb[i] == UnitAt(block, i)
    modifies cb, rsaLib, rsaLib.moduliBuf, rsaLib.mpdBuf, rsaLib.msuModuli, rsaLib.nmsuModuli
    ensures rsaLib.precision == old(rsaLib.precision)
    ensures forall i :: 0 <= i < 2 * SignificantUnits(n[..], rsaLib.precision) ==>
      ByteAt(cb[..], i) == EncryptBlock(block, KeyIn(e, n, rsaLib.precision))[i]
  {
    hide Val, Radix, SquareMultiply, Pow, WorkPrecision, BytesOf, BytesVal, NoWrap;
    ghost var p := rsaLib.precision;
    UnitsVal(pb[..], block, p);
    forall k | p <= k < MAX_UNIT_PRECISION
      ensures pb[k] == 0
    {
      assert pb[k] == UnitAt(block, k);
    }
    var status := rsaLib.MpModexp(cb, pb, e, n);
    SignificantUnitsBound(n[..], p);
    ghost var w := WorkPrecision(rsaLib.V(n));
    if rsaLib.V(e) > 0 && status == 0 {
      LowBytes(cb[..], SignificantUnits(n[..], p), Max(p, w));
    } else {
      LowBytes(cb[..], SignificantUnits(n[..], p), p);
    }
  }

  // One round of encryption: take the bytes in, exponentiate, write the block out.
  method CryptBlock(rsaLib: CRSALib, out: array<byte>, stC: nat, buf: array<byte>, stP: nat, take: nat,
                    cb: array<unit>, pb: array<unit>, e: array<unit>, n: array<unit>, count: nat)
    requires rsaLib.Buffers() && KeyArrays(e, n, rsaLib.precision)
    requires rsaLib.Foreign(cb) && rsaLib.Foreign(pb) && rsaLib.Foreign(e) && rsaLib.Foreign(n)
    requires cb != pb && cb != e && cb != n && pb != e && pb != n
    requires cb.Length == MAX_UNIT_PRECISION && pb.Length == MAX_UNIT_PRECISION
    requires stP + take <= buf.Length && take <= 2 * rsaLib.precision && out != buf
    requires count <= 2 * SignificantUnits(n[..], rsaLib.precision) && stC + count <= out.Length
    modifies out, cb, pb, rsaLib, rsaLib.moduliBuf, rsaLib.mpdBuf, rsaLib.msuModuli, rsaLib.nmsuModuli
    ensures rsaLib.precision == old(rsaLib.precision)
    ensures out[..stC] == old(out[..stC])
    ensures out[stC..stC + count]
            == EncryptBlock(old(buf[stP..stP + take]), KeyIn(e, n, rsaLib.precision))[..count]
    ensures out[stC + count..] == old(out[stC + count..])
  {
    hide EncryptBlock, Val, SignificantUnits, ByteAt;
    ghost var block, key := buf[stP..stP + take], KeyIn(e, n, rsaLib.precision);
    LoadBlock(pb, buf, stP, take);
    assert KeyIn(e, n, rsaLib.precision) == key;
    PowerBlock(rsaLib, cb, pb, e, n, block);
    assert KeyIn(e, n, rsaLib.precision) == key;
    ghost var c := cb[..];
    assert forall i :: 0 <= i < count ==> ByteAt(c, i) == EncryptBlock(block, key)[i];
    StoreBlock(out, stC, cb, count);
    assert KeyIn(e, n, rsaLib.precision) == key;
    assert cb[..] == c;
    assert forall i :: 0 <= i < count ==> out[stC + i] == ByteAt(c, i);
    assert out[stC..stC + count] == EncryptBlock(block, key)[..count];
  }

  // Where encryption stands: bytes taken in, bytes written, and the count of bytes left.
  datatype Progress = Progress(stP: int, stC: int, left: int)

  // One round over blocks of so many units.
  function Round(p: Progress, units: nat): Progress {
    var work := 2 * units - 2;
    Progress(p.stP + (if work < p.left then work else p.left), p.stC + 2 * units, p.left - work)
  }

  function AfterRounds(buf: nat, units: nat, rounds: nat): Progress {
    if rounds == 0 then Progress(0, 0, buf) else Round(AfterRounds(buf, units, rounds - 1), units)
  }

  lemma {:induction false} RoundsLeave(buf: nat, units: nat, rounds: nat)
    ensures AfterRounds(buf, units, rounds).left == buf - rounds * (2 * units - 2)
  {
    if rounds > 0 {
      RoundsLeave(buf, units, rounds - 1);
      MulDistrib(rounds, 1, 2 * units - 2);
    }
  }

  lemma {:induction false} OneUnitRounds(buf: nat, rounds: nat)
    requires buf > 0
    ensures AfterRounds(buf, 1, rounds) == Progress(0, 2 * rounds, buf)
  {
    if rounds > 0 {
      OneUnitRounds(buf, rounds - 1);
    }
  }

  // With one significant unit at least, the rounds come to an end if and only if there are two. With one, each round
  // takes nothing in and writes two bytes more, so that it is beyond every buffer after some of them.
  lemma EncryptionEndsIff(buf: nat, units: nat)
    requires buf > 0 && units >= 1
    ensures (exists rounds: nat :: AfterRounds(buf, units, rounds).left <= 0) <==> units >= 2
    ensures units == 1 ==> forall rounds: nat :: AfterRounds(buf, units, rounds) == Progress(0, 2 * rounds, buf)
  {
    if units >= 2 {
      RoundsLeave(buf, units, buf);
      MulMono(1, 2 * units - 2, buf);
      assert AfterRounds(buf, units, buf).left <= 0;
    } else {
      forall rounds: nat
        ensures AfterRounds(buf, units, rounds) == Progress(0, 2 * rounds, buf)
      {
        OneUnitRounds(buf, rounds);
      }
    }
  }

  // Encrypts a framed message block by block.
  method EncryptBlocks(rsaLib: CRSALib, crp: array<byte>, buf: array<byte>, e: array<unit>, n: array<unit>,
                       blockSize: nat)
    requires rsaLib.Buffers() && KeyArrays(e, n, rsaLib.precision) && rsaLib.Foreign(e) && rsaLib.Foreign(n)
    requires blockSize == 2 * SignificantUnits(n[..], rsaLib.precision) >= 4 && buf.Length > 0 && buf != crp
    requires |EncryptFrom(buf[..], KeyIn(e, n, rsaLib.precision))| <= crp.Length
    modifies crp, rsaLib, rsaLib.moduliBuf, rsaLib.mpdBuf, rsaLib.msuModuli, rsaLib.nmsuModuli
    ensures crp[..] == EncryptFrom(buf[..], KeyIn(e, n, old(rsaLib.precision)))
                       + old(crp[|EncryptFrom(buf[..], KeyIn(e, n, rsaLib.precision))|..])
  {
    hide Val, Radix, SignificantUnits, EncryptBlock, EncryptFrom;
    var workBlockSize := blockSize - 2;
    ghost var key, message, was := KeyIn(e, n, rsaLib.precision), buf[..], crp[..];
    ghost var total := EncryptFrom(message, key);
    var pb := new unit[MAX_UNIT_PRECISION];
    var cb := new unit[MAX_UNIT_PRECISION];
    var stP: nat, stC: nat, iLen: int := 0, 0, buf.Length;
    ghost var rest := total;
    assert message[0..] == message;
    ghost var rounds := 0;
    while iLen > 0
      invariant Progress(stP, stC, iLen) == AfterRounds(buf.Length, key.units, rounds)
      invariant stP <= buf.Length && stC <= |total| && buf[..] == message
      invariant total == crp[..stC] + rest && crp[|total|..] == was[|total|..]
      invariant if iLen > 0 then stP == buf.Length - iLen && rest == EncryptFrom(message[stP..], key) else rest == []
      invariant rsaLib.precision == key.precision && KeyIn(e, n, key.precision) == key
      decreases iLen
    {
      var endP := if workBlockSize < iLen then workBlockSize else iLen;
      ghost var chunk;
      chunk, rest := NextChunk(message, stP, endP, key);
      ghost var before := crp[..];
      CryptBlock(rsaLib, crp, stC, buf, stP, endP, cb, pb, e, n, blockSize);
      BlockAppended(before, crp[..], stC, blockSize, chunk, rest, total);
      stP := stP + endP;
      stC := stC + blockSize;
      iLen := iLen - workBlockSize;
      rounds := rounds + 1;
    }
    assert crp[..] == crp[..|total|] + crp[|total|..];
  }

  // What encryption returns, or why it returns nothing: a copy of a negative number of bytes, rounds that take nothing
  // in, or the division in GetCLenB.
  datatype CrpOutcome = Written(bytes: nat) | NegativeCopy | NoProgress | NoLength

  // Encrypts len bytes of p into crp.
  method CrpB(crp: array<byte>, p: array<byte>, len: nat, e: array<unit>, n: array<unit>, keyBits: nat)
    returns (r: CrpOutcome)
    requires KeyArrays(e, n, (keyBits + 15) / 16) && len <= p.Length
    requires var units := SignificantUnits(n[..], (keyBits + 15) / 16);
      units >= 2 ==> CipherLength(len, units) <= crp.Length
    modifies crp
    ensures r.NegativeCopy? <==> SignificantUnits(n[..], (keyBits + 15) / 16) == 0
    ensures r.NoProgress? <==> SignificantUnits(n[..], (keyBits + 15) / 16) == 1
    ensures r.Written? || r.NoLength? ==>
      crp[..] == Encrypted(old(p[..len]), KeyIn(e, n, (keyBits + 15) / 16))
                 + old(crp[CipherLength(len, SignificantUnits(n[..], (keyBits + 15) / 16))..])
    ensures (r.Written? || r.NoLength?) && Exact(KeyIn(e, n, (keyBits + 15) / 16)) ==>
      Enciphered(old(p[..len]), crp[..CipherLength(len, SignificantUnits(n[..], (keyBits + 15) / 16))],
                 KeyIn(e, n, (keyBits + 15) / 16))
    ensures r.Written? ==> Announcement(len, SignificantUnits(n[..], (KEY_BITS + 15) / 16)) == Length(r.bytes)
    ensures r.NoLength? ==> Announcement(len, SignificantUnits(n[..], (KEY_BITS + 15) / 16)) == DividedByZero
  {
    hide Val, Radix, SignificantUnits, EncryptBlock, CipherLength, BytesOf, Exact, Enciphered;
    ghost var key := KeyIn(e, n, (keyBits + 15) / 16);
    var rsaLib := new CRSALib((keyBits + 15) / 16);
    var blockSize := BlockUnits(n, keyBits);
    blockSize := blockSize * 2;
    if blockSize < 2 {
      return NegativeCopy;
    }
    if blockSize == 2 {
      return NoProgress;
    }
    var buf := new byte[len + 2];
    Frame(buf, p, len);
    EncryptedLength(old(p[..len]), KeyIn(e, n, rsaLib.precision));
    EncryptBlocks(rsaLib, crp, buf, e, n, blockSize);
    CiphertextWritten(old(p[..len]), key);
    assert crp[..CipherLength(len, key.units)] == Encrypted(old(p[..len]), key);
    var length := GetCLenB(len, n, KEY_BITS);
    match length
    case Length(bytes) => return Written(bytes);
    case DividedByZero => return NoLength;
  }

  lemma CiphertextWritten(message: seq<byte>, key: Key)
    requires KeyOk(key)
    ensures Exact(key) ==> Enciphered(message, Encrypted(message, key), key)
  {
    hide Encrypted, Exact, Enciphered;
    if Exact(key) {
      CipherBlocks(message, key);
    }
  }

  // Decrypts the whole blocks of the ciphertext into a zeroed buffer.
  method DecryptBlocks(rsaLib: CRSALib, buf: array<byte>, c: array<byte>, d: array<unit>, n: array<unit>, len: nat,
                       blockSize: nat)
    requires rsaLib.Buffers() && KeyArrays(d, n, rsaLib.precision) && rsaLib.Foreign(d) && rsaLib.Foreign(n)
    requires blockSize == 2 * SignificantUnits(n[..], rsaLib.precision) && 0 < blockSize <= len <= c.Length
    requires buf.Length == len && buf != c && forall i :: 0 <= i < len ==> buf[i] == 0
    modifies buf, rsaLib, rsaLib.moduliBuf, rsaLib.mpdBuf, rsaLib.msuModuli, rsaLib.nmsuModuli
    ensures buf[..] == DecryptBuffer(c[..len], KeyIn(d, n, old(rsaLib.precision)))
  {
    hide Val, Radix, SignificantUnits, EncryptBlock, DecryptFrom, Zeros;
    var workBlockSize := blockSize - 2;
    ghost var key, text := KeyIn(d, n, rsaLib.precision), c[..len];
    ghost var total := DecryptFrom(text, key);
    var pb := new unit[MAX_UNIT_PRECISION];
    var cb := new unit[MAX_UNIT_PRECISION];
    var stP: nat, stC: nat, iLen: int := 0, 0, len;
    ghost var rest := total;
    assert text[0..] == text;
    ZerosAre(buf[0..]);
    while iLen > 0 && iLen >= blockSize
      invariant stP <= stC <= len && iLen == len - stC && c[..len] == text
      invariant total == buf[..stP] + rest && rest == DecryptFrom(text[stC..], key)
      invariant buf[stP..] == Zeros(len - stP)
      invariant rsaLib.precision == key.precision && KeyIn(d, n, key.precision) == key
      decreases iLen
    {
      ghost var chunk;
      chunk, rest := NextBlock(text, stC, key);
      ghost var before := buf[..];
      assert c[..len][stC..stC + blockSize] == c[stC..stC + blockSize];
      CryptBlock(rsaLib, buf, stP, c, stC, blockSize, pb, cb, d, n, workBlockSize);
      BlockDecrypted(before, buf[..], stP, chunk, rest, total);
      stP := stP + workBlockSize;
      stC := stC + blockSize;
      iLen := iLen - blockSize;
    }
    LastBlocks(text[stC..], key);
    assert buf[..] == buf[..stP] + buf[stP..];
  }

  lemma ZerosAre(b: seq<byte>)
    requires forall i :: 0 <= i < |b| ==> b[i] == 0
    ensures b == Zeros(|b|)
  {
  }

  // A block stored behind the decrypted bytes; the zeros after it stay.
  lemma BlockDecrypted(was: seq<byte>, now: seq<byte>, start: nat, chunk: seq<byte>, rest: seq<byte>, total: seq<byte>)
    requires start + |chunk| <= |was| == |now| && was[start..] == Zeros(|was| - start)
    requires total == was[..start] + (chunk + rest)
    requires now[..start] == was[..start] && now[start..start + |chunk|] == chunk
    requires now[start + |chunk|..] == was[start + |chunk|..]
    ensures total == now[..start + |chunk|] + rest
    ensures now[start + |chunk|..] == Zeros(|was| - start - |chunk|)
  {
    assert now[..start + |chunk|] == now[..start] + now[start..start + |chunk|];
    assert was[start + |chunk|..] == was[start..][|chunk|..];
  }

  lemma LastBlocks(c: seq<byte>, key: Key)
    requires key.precision > 0 && key.units >= 1 && |c| < 2 * key.units
    ensures DecryptFrom(c, key) == []
  {
  }

  // A whole block of ciphertext left adds its work bytes.
  lemma NextBlock(c: seq<byte>, start: nat, key: Key) returns (chunk: seq<byte>, rest: seq<byte>)
    requires key.precision > 0 && key.units >= 1 && start + 2 * key.units <= |c|
    ensures chunk == EncryptBlock(c[start..start + 2 * key.units], key)[..Work(key)]
    ensures rest == DecryptFrom(c[start + 2 * key.units..], key)
    ensures DecryptFrom(c[start..], key) == chunk + rest
  {
    hide EncryptBlock;
    chunk := EncryptBlock(c[start..start + 2 * key.units], key)[..Work(key)];
    rest := DecryptFrom(c[start + 2 * key.units..], key);
    assert c[start..][..2 * key.units] == c[start..start + 2 * key.units];
    assert c[start..][2 * key.units..] == c[start + 2 * key.units..];
  }

  // Decrypts len bytes of c into dcrp; beyond is what memory holds after the decryption buffer.
  method DCrpB(dcrp: array<byte>, dlenIn: int, c: array<byte>, len: nat, d: array<unit>, n: array<unit>, keyBits: nat,
               beyond: seq<byte>)
    returns (rcLen: nat, dlen: int)
    requires KeyArrays(d, n, (keyBits + 15) / 16) && len <= c.Length && |beyond| == 2
    requires |Decrypted(c[..len], KeyIn(d, n, (keyBits + 15) / 16), beyond)| <= dcrp.Length
    modifies dcrp
    ensures rcLen == old(|Decrypted(c[..len], KeyIn(d, n, (keyBits + 15) / 16), beyond)|)
    ensures dcrp[..] == old(Decrypted(c[..len], KeyIn(d, n, (keyBits + 15) / 16), beyond)) + old(dcrp[rcLen..])
    ensures dlen == if 0 < 2 * SignificantUnits(n[..], (keyBits + 15) / 16) <= len
                       && old(Rejected(c[..len], KeyIn(d, n, (keyBits + 15) / 16)))
      then dlenIn else rcLen
    ensures Exact(KeyIn(d, n, (keyBits + 15) / 16)) && 2 * SignificantUnits(n[..], (keyBits + 15) / 16) <= len ==>
      HandedOut(old(c[..len]), beyond, dcrp[..rcLen], KeyIn(d, n, (keyBits + 15) / 16))
  {
    hide Val, Radix, SignificantUnits, EncryptBlock, DecryptFrom, Exact, HandedOut;
    ghost var key := KeyIn(d, n, (keyBits + 15) / 16);
    DecryptedHandedOut(c[..len], key, beyond);
    var rsaLib := new CRSALib((keyBits + 15) / 16);
    var blockSize := BlockUnits(n, keyBits);
    blockSize := blockSize * 2;
    if 0 == blockSize || len < blockSize {
      return 0, 0;
    }
    var buf := new byte[len](_ => 0);
    DecryptBlocks(rsaLib, buf, c, d, n, len, blockSize);
    rcLen := buf[0] as int + 256 * buf[1] as int;
    AnnouncedLength(buf[..]);
    if len >= rcLen {
      dlen := rcLen;
      CopyOut(dcrp, buf, beyond, rcLen);
    } else {
      rcLen := 0;
      dlen := dlenIn;
    }
  }

  lemma DecryptedHandedOut(c: seq<byte>, key: Key, beyond: seq<byte>)
    requires key.precision > 0 && |beyond| == 2
    ensures Exact(key) && 2 * key.units <= |c| ==>
      KeyOk(key) && key.modulus > 0 && HandedOut(c, beyond, Decrypted(c, key, beyond), key)
  {
    hide HandedOut, Exact, Decrypted;
    if Exact(key) && 2 * key.units <= |c| {
      ExactKey(key);
      PlainHandedOut(c, key, beyond);
    }
  }

  lemma AnnouncedLength(b: seq<byte>)
    requires |b| >= 2
    ensures BytesVal(b[..2]) == b[0] as int + 256 * b[1] as int
  {
    assert b[..2][1..] == [b[1]] && [b[1]][1..] == [];
    assert BytesVal([b[1]]) == b[1];
  }

  // Copies count bytes out, from two bytes into the buffer.
  method CopyOut(dcrp: array<byte>, buf: array<byte>, beyond: seq<byte>, count: nat)
    requires |beyond| == 2 && count <= buf.Length && count <= dcrp.Length && buf != dcrp
    modifies dcrp
    ensures dcrp[..] == (buf[..] + beyond)[2..2 + count] + old(dcrp[count..])
  {
    ghost var from := buf[..] + beyond;
    var i := 0;
    while i < count
      invariant 0 <= i <= count && buf[..] + beyond == from
      invariant forall k :: 0 <= k < i ==> dcrp[k] == from[2 + k]
      invariant forall k :: i <= k < dcrp.Length ==> dcrp[k] == old(dcrp[k])
    {
      dcrp[i] := if i + 2 < buf.Length then buf[i + 2] else beyond[i + 2 - buf.Length];
      i := i + 1;
    }
  }

  // Puts the length, kept in 16 bits, in front of the message.
  method Frame(buf: array<byte>, p: array<byte>, len: nat)
    requires buf.Length == len + 2 && len <= p.Length && buf != p
    modifies buf
    ensures buf[..] == Framed(p[..len])
  {
    var i := 0;
    while i < len
      invariant 0 <= i <= len
      invariant forall k :: 0 <= k < i ==> buf[k + 2] == p[k]
    {
      buf[i + 2] := p[i];
      i := i + 1;
    }
    buf[0] := (len % 65536) % 256;
    buf[1] := (len % 65536) / 256;
    TwoByteNumber(len % 65536);
    assert buf[2..] == p[..len];
    assert buf[..] == buf[..2] + buf[2..];
  }

  lemma TwoByteNumber(v: nat)
    requires v < 65536
    ensures BytesOf(v, 2) == [v % 256, v / 256]
  {
    assert BytesOf(v / 256, 1) == [(v / 256) % 256] + BytesOf(v / 256 / 256, 0);
  }

  // The bytes taken in next make the first block of what is left to encrypt.
  lemma NextChunk(buf: seq<byte>, start: nat, take: nat, key: Key) returns (chunk: seq<byte>, rest: seq<byte>)
    requires KeyOk(key) && start <= |buf| && take == (if Work(key) < |buf| - start then Work(key) else |buf| - start)
    ensures chunk == EncryptBlock(buf[start..start + take], key)
    ensures EncryptFrom(buf[start..], key) == chunk + rest
    ensures rest == if Work(key) < |buf| - start then EncryptFrom(buf[start + take..], key) else []
  {
    hide EncryptBlock;
    chunk := EncryptBlock(buf[start..start + take], key);
    assert buf[start..][..take] == buf[start..start + take] && buf[start..][take..] == buf[start + take..];
    if Work(key) < |buf| - start {
      rest := EncryptFrom(buf[start + take..], key);
    } else {
      rest := [];
      assert buf[start..] == buf[start..start + take] && chunk + rest == chunk;
    }
  }

  lemma BlockAppended(was: seq<byte>, now: seq<byte>, start: nat, count: nat, chunk: seq<byte>, rest: seq<byte>,
                      total: seq<byte>)
    requires |chunk| == count && |now| == |was| && start + count <= |now| && |total| <= |now|
    requires total == was[..start] + (chunk + rest)
    requires now[..start] == was[..start] && now[start..start + count] == chunk
    requires now[start + count..] == was[start + count..]
    ensures total == now[..start + count] + rest && start + count <= |total|
    ensures now[|total|..] == was[|total|..]
  {
    assert now[..start + count] == now[..start] + now[start..start + count];
    forall k | |total| <= k < |now|
      ensures now[k] == was[k]
    {
      assert now[k] == now[start + count..][k - start - count];
      assert was[k] == was[start + count..][k - start - count];
    }
  }
}
