// The graph of lock requests, its three updates and its check for cyclic waits.
module LockGraphs {

  datatype Kind = Req | Cat

  const MODE_SOFT := 1
  const MODE_HARD := 2

  datatype Entry = Entry(transaction: nat, lock: nat, kind: Kind, mode: int)

  // Entry equality looks at the transaction and the lock only.
  predicate Matches(e: Entry, transaction: nat, lock: nat) {
    e.transaction == transaction && e.lock == lock
  }

  // Entry assignment copies everything but the mode.
  function Assigned(e: Entry, from: Entry): Entry {
    from.(mode := e.mode)
  }

  // A vector erase moves every later entry down by assignment, so the modes stay in place.
  function Erased(g: seq<Entry>, i: nat): (r: seq<Entry>)
    requires i < |g|
    ensures |r| == |g| - 1
  {
    seq(|g| - 1, k requires 0 <= k < |g| - 1 => EntryAfter(g, i, k))
  }

  function EntryAfter(g: seq<Entry>, i: nat, k: nat): Entry
    requires k < |g| - 1
  {
    if k < i then g[k] else Assigned(g[k], g[k + 1])
  }

  // The first entry of the transaction for the lock, or |g|.
  function Find(g: seq<Entry>, transaction: nat, lock: nat): (i: nat)
    ensures i <= |g| && (i < |g| ==> Matches(g[i], transaction, lock))
    ensures forall k :: 0 <= k < i ==> !Matches(g[k], transaction, lock)
  {
    if g == [] then
      0
    else if Matches(g[0], transaction, lock) then
      0
    else
      var i := Find(g[1..], transaction, lock);
      assert forall k :: 1 <= k < |g| ==> g[k] == g[1..][k - 1];
      i + 1
  }

  // ---- what the check decides ----

  ghost predicate RequestIn(g: seq<Entry>, s: set<nat>, transaction: nat) {
    exists j :: j in s && j < |g| && g[j].kind == Req && g[j].transaction == transaction
  }

  ghost predicate HeldIn(g: seq<Entry>, s: set<nat>, lock: nat) {
    exists j :: j in s && j < |g| && g[j].kind == Cat && g[j].lock == lock
  }

  // Every held entry has a request by the same transaction in the set, and every request has a held entry for the
  // same lock in the set: nobody in the set can go on before somebody else in the set does.
  ghost predicate WaitClosed(g: seq<Entry>, s: set<nat>) {
    forall i :: i in s ==>
      i < |g| && if g[i].kind == Cat then RequestIn(g, s, g[i].transaction) else HeldIn(g, s, g[i].lock)
  }

  ghost predicate LargestClosed(g: seq<Entry>, s: set<nat>) {
    WaitClosed(g, s) && forall t: set<nat> :: WaitClosed(g, t) ==> t <= s
  }

  predicate SameRequest(e: Entry, f: Entry) {
    e.kind == Req && f.kind == Req && e.transaction == f.transaction
  }

  ghost predicate OneRequestEach(g: seq<Entry>) {
    forall i, j :: 0 <= i < |g| && 0 <= j < |g| && SameRequest(g[i], g[j]) ==> i == j
  }

  ghost predicate AnyHard(g: seq<Entry>, count: nat) {
    exists k :: 0 <= k < count && k < |g| && g[k].mode == MODE_HARD
  }

  // A deadlock is reported for a nonempty residue, provided one of the modes left at the front is hard.
  ghost predicate Reports(g: seq<Entry>) {
    exists s :: LargestClosed(g, s) && s != {} && AnyHard(g, |s|)
  }

  lemma LargestUnique(g: seq<Entry>, s: set<nat>, t: set<nat>)
    requires LargestClosed(g, s) && LargestClosed(g, t)
    ensures s == t
  {
  }

  // ---- the reduction ----

  // The edited graph is what is left of g: entry k stems from entry ids[k], possibly granted, with mode k of g.
  ghost predicate Tracks(g: seq<Entry>, edited: seq<Entry>, ids: seq<nat>) {
    && |ids| == |edited| <= |g|
    && (forall k :: 0 <= k < |ids| ==> ids[k] < |g|)
    && (forall j, k :: 0 <= j < k < |ids| ==> ids[j] < ids[k])
    && (forall k {:trigger ids[k]} :: 0 <= k < |ids| ==> Granted(edited[k], g[ids[k]]))
    && (forall k {:trigger edited[k]} :: 0 <= k < |edited| ==> edited[k].mode == g[k].mode)
  }

  predicate Granted(e: Entry, from: Entry) {
    Matches(e, from.transaction, from.lock) && (e.kind == from.kind || e.kind == Cat)
  }

  // No entry that was removed or granted belongs to a wait-closed set.
  ghost predicate Covers(g: seq<Entry>, edited: seq<Entry>, ids: seq<nat>, t: set<nat>)
    requires Tracks(g, edited, ids)
  {
    forall x :: x in t ==> exists k :: 0 <= k < |ids| && ids[k] == x && edited[k].kind == g[x].kind
  }

  ghost predicate Reduces(g: seq<Entry>, edited: seq<Entry>, ids: seq<nat>) {
    && Tracks(g, edited, ids)
    && forall t: set<nat> :: WaitClosed(g, t) ==> Covers(g, edited, ids, t)
  }

  ghost predicate Requested(e: seq<Entry>, i: nat)
    requires i < |e|
  {
    exists j :: 0 <= j < |e| && j != i && e[j].kind == Req && e[j].transaction == e[i].transaction
  }

  ghost predicate Held(e: seq<Entry>, i: nat)
    requires i < |e|
  {
    exists j :: 0 <= j < |e| && j != i && e[j].kind == Cat && e[j].lock == e[i].lock
  }

  ghost predicate Stuck(e: seq<Entry>, i: nat)
    requires i < |e|
  {
    if e[i].kind == Cat then Requested(e, i) else Held(e, i)
  }

  function Kinds(g: seq<Entry>): (r: seq<Kind>)
    ensures |r| == |g|
  {
    seq(|g|, k requires 0 <= k < |g| => g[k].kind)
  }

  // A request counts twice: it is granted before it is removed.
  function Weight(kinds: seq<Kind>): nat {
    if kinds == [] then 0 else (if kinds[0] == Req then 2 else 1) + Weight(kinds[1..])
  }

  lemma {:induction false} WeightSplit(a: seq<Kind>, b: seq<Kind>)
    ensures Weight(a + b) == Weight(a) + Weight(b)
  {
    if a == [] {
      assert a + b == b;
    } else {
      assert (a + b)[1..] == a[1..] + b;
      WeightSplit(a[1..], b);
    }
  }

  lemma WeightAt(a: seq<Kind>, i: nat)
    requires i < |a|
    ensures Weight(a) == Weight(a[..i]) + (if a[i] == Req then 2 else 1) + Weight(a[i + 1..])
  {
    assert a == a[..i] + a[i..];
    WeightSplit(a[..i], a[i..]);
    assert a[i..][1..] == a[i + 1..];
  }

  lemma EraseLighter(e: seq<Entry>, i: nat)
    requires i < |e|
    ensures Weight(Kinds(Erased(e, i))) < Weight(Kinds(e))
  {
    var a := Kinds(e);
    assert Kinds(Erased(e, i)) == a[..i] + a[i + 1..];
    WeightSplit(a[..i], a[i + 1..]);
    WeightAt(a, i);
  }

  lemma GrantLighter(e: seq<Entry>, i: nat)
    requires i < |e| && e[i].kind == Req
    ensures Weight(Kinds(e[i := e[i].(kind := Cat)])) < Weight(Kinds(e))
  {
    var a, b := Kinds(e), Kinds(e[i := e[i].(kind := Cat)]);
    assert a[..i] == b[..i] && a[i + 1..] == b[i + 1..];
    WeightAt(a, i);
    WeightAt(b, i);
  }

  // The index an entry of a wait-closed set has in the edited graph.
  lemma Place(g: seq<Entry>, edited: seq<Entry>, ids: seq<nat>, t: set<nat>, x: nat) returns (k: nat)
    requires Reduces(g, edited, ids) && WaitClosed(g, t) && x in t
    ensures x < |g| && k < |ids| && ids[k] == x && edited[k].kind == g[x].kind
  {
    assert Covers(g, edited, ids, t);
    k :| 0 <= k < |ids| && ids[k] == x && edited[k].kind == g[x].kind;
  }

  // What an entry of a wait-closed set waits for is in the set too.
  lemma Partner(g: seq<Entry>, t: set<nat>, x: nat) returns (j: nat)
    requires WaitClosed(g, t) && x in t
    ensures j in t && j < |g| && x < |g| && g[j].kind != g[x].kind
    ensures if g[x].kind == Cat then g[j].transaction == g[x].transaction else g[j].lock == g[x].lock
  {
    if g[x].kind == Cat {
      j :| j in t && j < |g| && g[j].kind == Req && g[j].transaction == g[x].transaction;
    } else {
      j :| j in t && j < |g| && g[j].kind == Cat && g[j].lock == g[x].lock;
    }
  }

  // An entry of a wait-closed set stays stuck.
  lemma MemberStuck(g: seq<Entry>, edited: seq<Entry>, ids: seq<nat>, t: set<nat>, i: nat)
    requires Reduces(g, edited, ids) && WaitClosed(g, t) && i < |edited| && ids[i] in t
    requires edited[i].kind == g[ids[i]].kind
    ensures Stuck(edited, i)
  {
    hide WaitClosed;
    assert Granted(edited[i], g[ids[i]]);
    var j := Partner(g, t, ids[i]);
    var k := Place(g, edited, ids, t, j);
    assert Granted(edited[k], g[j]) && k != i;
  }

  // Where entry k of the erased graph was before.
  lemma Before(e: seq<Entry>, ids: seq<nat>, i: nat, k: nat) returns (m: nat)
    requires i < |e| == |ids| && k < |e| - 1
    ensures m == if k < i then k else k + 1
    ensures Erased(e, i)[k] == e[m].(mode := e[k].mode) && (ids[..i] + ids[i + 1..])[k] == ids[m]
  {
    m := if k < i then k else k + 1;
  }

  lemma EraseCovers(g: seq<Entry>, edited: seq<Entry>, ids: seq<nat>, i: nat, t: set<nat>)
    requires Reduces(g, edited, ids) && i < |edited| && !Stuck(edited, i) && edited[i].kind == Cat
    requires Tracks(g, Erased(edited, i), ids[..i] + ids[i + 1..]) && WaitClosed(g, t)
    ensures Covers(g, Erased(edited, i), ids[..i] + ids[i + 1..], t)
  {
    hide WaitClosed, Stuck, Erased;
    var e, rest := Erased(edited, i), ids[..i] + ids[i + 1..];
    forall x | x in t
      ensures exists k :: 0 <= k < |rest| && rest[k] == x && e[k].kind == g[x].kind
    {
      var k := Place(g, edited, ids, t, x);
      if k == i {
        MemberStuck(g, edited, ids, t, i);
        assert false;
      }
      var m := if k < i then k else k - 1;
      var b := Before(edited, ids, i, m);
      assert rest[m] == x && e[m].kind == g[x].kind;
    }
  }

  lemma EraseTracks(g: seq<Entry>, edited: seq<Entry>, ids: seq<nat>, i: nat)
    requires Tracks(g, edited, ids) && i < |edited|
    ensures Tracks(g, Erased(edited, i), ids[..i] + ids[i + 1..])
  {
    hide Erased;
    var e, rest := Erased(edited, i), ids[..i] + ids[i + 1..];
    forall k | 0 <= k < |rest|
      ensures Granted(e[k], g[rest[k]]) && e[k].mode == g[k].mode
    {
      var m := Before(edited, ids, i, k);
      assert Granted(edited[m], g[ids[m]]);
    }
  }

  lemma EraseReduces(g: seq<Entry>, edited: seq<Entry>, ids: seq<nat>, i: nat)
    requires Reduces(g, edited, ids) && i < |edited| && edited[i].kind == Cat && !Stuck(edited, i)
    ensures Reduces(g, Erased(edited, i), ids[..i] + ids[i + 1..])
  {
    EraseTracks(g, edited, ids, i);
    hide WaitClosed, Stuck, Erased, Tracks, Covers;
    forall t: set<nat> | WaitClosed(g, t)
      ensures Covers(g, Erased(edited, i), ids[..i] + ids[i + 1..], t)
    {
      EraseCovers(g, edited, ids, i, t);
    }
  }

  lemma GrantReduces(g: seq<Entry>, edited: seq<Entry>, ids: seq<nat>, i: nat)
    requires Reduces(g, edited, ids) && i < |edited| && edited[i].kind == Req && !Stuck(edited, i)
    ensures Reduces(g, edited[i := edited[i].(kind := Cat)], ids)
  {
    var e := edited[i := edited[i].(kind := Cat)];
    forall k | 0 <= k < |ids|
      ensures Granted(e[k], g[ids[k]]) && e[k].mode == g[k].mode
    {
      assert Granted(edited[k], g[ids[k]]);
    }
    assert Tracks(g, e, ids);
    forall t: set<nat> | WaitClosed(g, t)
      ensures Covers(g, e, ids, t)
    {
      forall x | x in t
        ensures exists k :: 0 <= k < |ids| && ids[k] == x && e[k].kind == g[x].kind
      {
        var k := Place(g, edited, ids, t, x);
        if k == i {
          MemberStuck(g, edited, ids, t, i);
          assert false;
        }
        assert ids[k] == x && e[k].kind == g[x].kind;
      }
    }
  }

  lemma StartReduces(g: seq<Entry>)
    ensures Reduces(g, g, seq<nat>(|g|, i => i))
  {
    var ids: seq<nat> := seq(|g|, i => i);
    assert Tracks(g, g, ids);
    forall t: set<nat> | WaitClosed(g, t)
      ensures Covers(g, g, ids, t)
    {
      forall x | x in t
        ensures exists k :: 0 <= k < |ids| && ids[k] == x && g[k].kind == g[x].kind
      {
        assert ids[x] == x;
      }
    }
  }

  function Indices(ids: seq<nat>): set<nat> {
    set k | 0 <= k < |ids| :: ids[k]
  }

  lemma {:induction false} IndicesSize(ids: seq<nat>)
    requires forall j, k :: 0 <= j < k < |ids| ==> ids[j] < ids[k]
    ensures |Indices(ids)| == |ids|
  {
    if ids != [] {
      var n := |ids| - 1;
      IndicesSize(ids[..n]);
      assert Indices(ids) == Indices(ids[..n]) + {ids[n]} by {
        assert forall k :: 0 <= k < n ==> ids[..n][k] == ids[k];
        forall x | x in Indices(ids)
          ensures x in Indices(ids[..n]) + {ids[n]}
        {
          var k :| 0 <= k < |ids| && ids[k] == x;
          if k < n {
            assert ids[..n][k] == x;
          }
        }
      }
      assert ids[n] !in Indices(ids[..n]);
    }
  }

  lemma OtherEntry(g: seq<Entry>, edited: seq<Entry>, ids: seq<nat>, i: nat, j: nat)
    requires Tracks(g, edited, ids) && i < |ids| && j < |ids| && i != j
    ensures ids[i] != ids[j] && Granted(edited[i], g[ids[i]]) && Granted(edited[j], g[ids[j]])
  {
    assert if i < j then ids[i] < ids[j] else ids[j] < ids[i];
  }

  // With one request each, no granted entry survives: the residue is the original one.
  lemma NoGrantLeft(g: seq<Entry>, edited: seq<Entry>, ids: seq<nat>, i: nat)
    requires Reduces(g, edited, ids) && OneRequestEach(g) && i < |edited| && Stuck(edited, i)
    ensures edited[i].kind == g[ids[i]].kind
  {
    assert Granted(edited[i], g[ids[i]]);
    if edited[i].kind == Cat && g[ids[i]].kind == Req {
      var j :| 0 <= j < |edited| && j != i && edited[j].kind == Req && edited[j].transaction == edited[i].transaction;
      OtherEntry(g, edited, ids, i, j);
      assert false;
    }
  }

  lemma StuckInside(g: seq<Entry>, edited: seq<Entry>, ids: seq<nat>, i: nat)
    requires Reduces(g, edited, ids) && OneRequestEach(g) && forall k :: 0 <= k < |edited| ==> Stuck(edited, k)
    requires i < |edited|
    ensures if g[ids[i]].kind == Cat then RequestIn(g, Indices(ids), g[ids[i]].transaction)
      else HeldIn(g, Indices(ids), g[ids[i]].lock)
  {
    hide WaitClosed, OneRequestEach;
    NoGrantLeft(g, edited, ids, i);
    if edited[i].kind == Cat {
      var j :| 0 <= j < |edited| && j != i && edited[j].kind == Req && edited[j].transaction == edited[i].transaction;
      NoGrantLeft(g, edited, ids, j);
      OtherEntry(g, edited, ids, i, j);
      assert ids[j] in Indices(ids);
    } else {
      var j :| 0 <= j < |edited| && j != i && edited[j].kind == Cat && edited[j].lock == edited[i].lock;
      NoGrantLeft(g, edited, ids, j);
      OtherEntry(g, edited, ids, i, j);
      assert ids[j] in Indices(ids);
    }
  }

  // When every entry left is stuck, the entries left are the largest wait-closed set.
  lemma ResidueIsLargest(g: seq<Entry>, edited: seq<Entry>, ids: seq<nat>)
    requires Reduces(g, edited, ids) && OneRequestEach(g) && forall i :: 0 <= i < |edited| ==> Stuck(edited, i)
    ensures LargestClosed(g, Indices(ids)) && |Indices(ids)| == |edited|
  {
    var s := Indices(ids);
    forall x | x in s
      ensures x < |g| && if g[x].kind == Cat then RequestIn(g, s, g[x].transaction) else HeldIn(g, s, g[x].lock)
    {
      var i :| 0 <= i < |ids| && ids[i] == x;
      StuckInside(g, edited, ids, i);
    }
    forall t: set<nat> | WaitClosed(g, t)
      ensures t <= s
    {
      assert Covers(g, edited, ids, t);
    }
    IndicesSize(ids);
  }

  // ---- the loops ----

  // Whether no request of the same transaction is left beside entry i.
  method NotReq(e: seq<Entry>, i: nat) returns (notReq: bool)
    requires i < |e|
    ensures notReq <==> !Requested(e, i)
  {
    notReq := true;
    var it2 := 0;
    while it2 < |e|
      invariant 0 <= it2 <= |e|
      invariant notReq <==>
        forall j :: 0 <= j < it2 && e[j].kind == Req && j != i ==> e[j].transaction != e[i].transaction
    {
      if e[it2].kind == Req && it2 != i {
        if e[it2].transaction == e[i].transaction {
          notReq := false;
        }
      }
      it2 := it2 + 1;
    }
  }

  // Whether nobody is left who holds the lock that entry i requests.
  method CanSwap(e: seq<Entry>, i: nat) returns (canSwap: bool)
    requires i < |e|
    ensures canSwap <==> !Held(e, i)
  {
    canSwap := true;
    var it2 := 0;
    while it2 < |e|
      invariant 0 <= it2 <= |e|
      invariant canSwap <==> forall j :: 0 <= j < it2 && e[j].kind == Cat && j != i ==> e[j].lock != e[i].lock
    {
      if e[it2].kind == Cat && it2 != i {
        if e[it2].lock == e[i].lock {
          canSwap := false;
        }
      }
      it2 := it2 + 1;
    }
  }

  // Moves the entries after i down and drops the last one.
  method Erase(e: seq<Entry>, i: nat) returns (r: seq<Entry>)
    requires i < |e|
    ensures r == Erased(e, i)
  {
    r := e;
    var k := i;
    while k < |e| - 1
      invariant i <= k < |e| == |r|
      invariant forall j :: 0 <= j < k ==> r[j] == EntryAfter(e, i, j)
      invariant forall j :: k <= j < |e| ==> r[j] == e[j]
    {
      r := r[k := Assigned(r[k], r[k + 1])];
      k := k + 1;
    }
    r := r[..|e| - 1];
  }

  // One pass over the edited graph; an erasure makes the pass skip the entry that moves up.
  method Pass(ghost g: seq<Entry>, was: seq<Entry>, ghost wasIds: seq<nat>)
    returns (edited: seq<Entry>, ghost ids: seq<nat>, someErased: bool, anyHard: bool)
    requires Reduces(g, was, wasIds)
    ensures Reduces(g, edited, ids)
    ensures someErased ==> Weight(Kinds(edited)) < Weight(Kinds(was))
    ensures !someErased ==> edited == was && ids == wasIds && forall i :: 0 <= i < |was| ==> Stuck(was, i)
    ensures !someErased ==> (anyHard <==> AnyHard(was, |was|))
  {
    hide Reduces, Stuck, Weight, Kinds, Erased;
    edited, ids, someErased, anyHard := was, wasIds, false, false;
    var it := 0;
    while it < |edited|
      invariant 0 <= it && Reduces(g, edited, ids)
      invariant someErased ==> Weight(Kinds(edited)) < Weight(Kinds(was))
      invariant !someErased ==> it <= |was| && edited == was && ids == wasIds
      invariant !someErased ==> forall i :: 0 <= i < it ==> Stuck(was, i)
      invariant !someErased ==> (anyHard <==> AnyHard(was, it))
      decreases |edited| - it
    {
      if edited[it].mode == MODE_HARD {
        anyHard := true;
      }
      var changed: bool;
      edited, ids, changed := Visit(g, edited, ids, it);
      someErased := someErased || changed;
      it := it + 1;
    }
  }

  // Erases a held entry, or grants a request, that nothing stands against.
  method Visit(ghost g: seq<Entry>, was: seq<Entry>, ghost wasIds: seq<nat>, it: nat)
    returns (edited: seq<Entry>, ghost ids: seq<nat>, changed: bool)
    requires Reduces(g, was, wasIds) && it < |was|
    ensures Reduces(g, edited, ids) && |edited| <= |was|
    ensures changed ==> Weight(Kinds(edited)) < Weight(Kinds(was))
    ensures !changed ==> edited == was && ids == wasIds && Stuck(was, it)
  {
    hide Weight, Kinds, WaitClosed;
    edited, ids, changed := was, wasIds, false;
    if edited[it].kind == Cat {
      var notReq := NotReq(edited, it);
      if notReq {
        EraseReduces(g, edited, ids, it);
        EraseLighter(edited, it);
        edited := Erase(edited, it);
        ids := ids[..it] + ids[it + 1..];
        changed := true;
      }
    } else {
      var canSwap := CanSwap(edited, it);
      if canSwap {
        GrantReduces(g, edited, ids, it);
        GrantLighter(edited, it);
        edited := edited[it := edited[it].(kind := Cat)];
        changed := true;
      }
    }
  }

  // Passes until nothing changes. 1 reports a deadlock.
  method CheckLockGraph(g: seq<Entry>) returns (result: int)
    ensures result == 0 || result == 1
    ensures OneRequestEach(g) ==> (result == 1 <==> Reports(g))
  {
    hide WaitClosed, Weight, Kinds;
    var edited := g;
    ghost var ids: seq<nat> := seq(|g|, i => i);
    StartReduces(g);
    var someErased, anyHard := true, false;
    while someErased
      invariant Reduces(g, edited, ids)
      invariant !someErased ==> forall i :: 0 <= i < |edited| ==> Stuck(edited, i)
      invariant !someErased ==> (anyHard <==> AnyHard(edited, |edited|))
      decreases Weight(Kinds(edited)), if someErased then 1 else 0
    {
      edited, ids, someErased, anyHard := Pass(g, edited, ids);
    }
    if OneRequestEach(g) {
      ResidueIsLargest(g, edited, ids);
      ReportsIs(g, Indices(ids));
      SameModes(g, edited);
    }
    if edited != [] && anyHard {
      return 1;
    }
    return 0;
  }

  lemma SameModes(g: seq<Entry>, edited: seq<Entry>)
    requires |edited| <= |g| && forall k {:trigger edited[k]} :: 0 <= k < |edited| ==> edited[k].mode == g[k].mode
    ensures AnyHard(edited, |edited|) <==> AnyHard(g, |edited|)
  {
    if AnyHard(g, |edited|) {
      var k :| 0 <= k < |edited| && k < |g| && g[k].mode == MODE_HARD;
      assert edited[k].mode == MODE_HARD;
    }
  }

  lemma ReportsIs(g: seq<Entry>, s: set<nat>)
    requires LargestClosed(g, s)
    ensures Reports(g) <==> s != {} && AnyHard(g, |s|)
  {
    hide WaitClosed;
    if Reports(g) {
      var t :| LargestClosed(g, t) && t != {} && AnyHard(g, |t|);
      LargestUnique(g, s, t);
    }
  }

  // ---- wait cycles ----

  // Request i waits for a lock held by the transaction that made request j.
  ghost predicate Waits(g: seq<Entry>, i: nat, j: nat) {
    && i < |g| && j < |g| && g[i].kind == Req && g[j].kind == Req
    && exists c :: 0 <= c < |g| && g[c].kind == Cat && g[c].lock == g[i].lock && g[c].transaction == g[j].transaction
  }

  // Requests, each of which waits for the next, and the last for the first.
  ghost predicate WaitCycle(g: seq<Entry>, c: seq<nat>) {
    |c| > 0 && forall k :: 0 <= k < |c| ==> Waits(g, c[k], c[if k + 1 < |c| then k + 1 else 0])
  }

  // The requests of a cycle and everything their transactions hold.
  ghost function CycleSet(g: seq<Entry>, c: seq<nat>): set<nat> {
    Indices(c) + set i | 0 <= i < |g| && g[i].kind == Cat && RequestIn(g, Indices(c), g[i].transaction)
  }

  lemma CycleIsClosed(g: seq<Entry>, c: seq<nat>)
    requires WaitCycle(g, c)
    ensures WaitClosed(g, CycleSet(g, c)) && CycleSet(g, c) != {}
  {
    var s, r := CycleSet(g, c), Indices(c);
    assert c[0] in r;
    forall i | i in s
      ensures i < |g| && if g[i].kind == Cat then RequestIn(g, s, g[i].transaction) else HeldIn(g, s, g[i].lock)
    {
      if i in r {
        var k :| 0 <= k < |c| && c[k] == i;
        var n := if k + 1 < |c| then k + 1 else 0;
        assert Waits(g, i, c[n]) && c[n] in r;
        var j :| 0 <= j < |g| && g[j].kind == Cat && g[j].lock == g[i].lock && g[j].transaction == g[c[n]].transaction;
        assert RequestIn(g, r, g[j].transaction);
        assert j in s;
      } else {
        var j :| j in r && j < |g| && g[j].kind == Req && g[j].transaction == g[i].transaction;
        assert j in s;
      }
    }
  }

  // Inside a wait-closed set every request waits for another one.
  lemma NextRequest(g: seq<Entry>, s: set<nat>, i: nat) returns (j: nat)
    requires WaitClosed(g, s) && i in s && i < |g| && g[i].kind == Req
    ensures j in s && Waits(g, i, j)
  {
    var c :| c in s && c < |g| && g[c].kind == Cat && g[c].lock == g[i].lock;
    j :| j in s && j < |g| && g[j].kind == Req && g[j].transaction == g[c].transaction;
  }

  ghost predicate WaitPath(g: seq<Entry>, s: set<nat>, path: seq<nat>) {
    && |path| > 0
    && (forall k :: 0 <= k < |path| ==> path[k] in s && path[k] < |g| && g[path[k]].kind == Req)
    && (forall k :: 0 <= k < |path| - 1 ==> Waits(g, path[k], path[k + 1]))
    && (forall j, k :: 0 <= j < k < |path| ==> path[j] != path[k])
  }

  lemma {:induction false} DistinctBelow(path: seq<nat>, n: nat)
    requires forall k :: 0 <= k < |path| ==> path[k] < n
    requires forall j, k :: 0 <= j < k < |path| ==> path[j] != path[k]
    ensures |path| <= n
  {
    if path == [] {
    } else if k :| 0 <= k < |path| && path[k] == n - 1 {
      DistinctBelow(path[..k] + path[k + 1..], n - 1);
    } else {
      assert path[0] < n;
      DistinctBelow(path, n - 1);
    }
  }

  lemma PathExtended(g: seq<Entry>, s: set<nat>, path: seq<nat>, j: nat)
    requires WaitPath(g, s, path) && j in s && Waits(g, path[|path| - 1], j)
    requires forall k :: 0 <= k < |path| ==> path[k] != j
    ensures WaitPath(g, s, path + [j])
  {
    assert g[j].kind == Req;
    hide Waits;
  }

  // A path of requests that wait for one another runs into itself.
  lemma {:induction false} PathCycle(g: seq<Entry>, s: set<nat>, path: seq<nat>) returns (c: seq<nat>)
    requires WaitClosed(g, s) && WaitPath(g, s, path) && |path| <= |g|
    ensures WaitCycle(g, c)
    decreases |g| - |path|
  {
    hide Waits, WaitClosed;
    var j := NextRequest(g, s, path[|path| - 1]);
    if k :| 0 <= k < |path| && path[k] == j {
      c := path[k..];
      forall m | 0 <= m < |c|
        ensures Waits(g, c[m], c[if m + 1 < |c| then m + 1 else 0])
      {
        assert m + 1 < |c| ==> Waits(g, path[k + m], path[k + m + 1]);
      }
    } else {
      PathExtended(g, s, path, j);
      DistinctBelow(path + [j], |g|);
      c := PathCycle(g, s, path + [j]);
    }
  }

  lemma SomeRequest(g: seq<Entry>, s: set<nat>) returns (i: nat)
    requires WaitClosed(g, s) && s != {}
    ensures i in s && i < |g| && g[i].kind == Req
  {
    i :| i in s;
    if g[i].kind == Cat {
      i :| i in s && i < |g| && g[i].kind == Req;
    }
  }

  // There is something to report exactly when requests wait in a cycle.
  lemma CycleIff(g: seq<Entry>)
    ensures (exists s :: WaitClosed(g, s) && s != {}) <==> (exists c :: WaitCycle(g, c))
  {
    hide WaitCycle, WaitClosed;
    if s: set<nat> :| WaitClosed(g, s) && s != {} {
      var i := SomeRequest(g, s);
      var c := PathCycle(g, s, [i]);
    }
    if c: seq<nat> :| WaitCycle(g, c) {
      CycleIsClosed(g, c);
    }
  }

  ghost predicate InWaitClosed(g: seq<Entry>, i: nat) {
    exists t: set<nat> :: WaitClosed(g, t) && i in t
  }

  // The union of all wait-closed sets.
  ghost function Deadlocked(g: seq<Entry>): (s: set<nat>)
    ensures LargestClosed(g, s)
  {
    var s := set i | 0 <= i < |g| && InWaitClosed(g, i);
    UnionIsLargest(g, s);
    s
  }

  lemma UnionIsLargest(g: seq<Entry>, s: set<nat>)
    requires forall i :: i in s <==> 0 <= i < |g| && InWaitClosed(g, i)
    ensures LargestClosed(g, s)
  {
    forall t: set<nat> | WaitClosed(g, t)
      ensures t <= s
    {
      assert forall i :: i in t ==> InWaitClosed(g, i);
    }
    forall i | i in s
      ensures i < |g| && if g[i].kind == Cat then RequestIn(g, s, g[i].transaction) else HeldIn(g, s, g[i].lock)
    {
      var t: set<nat> :| WaitClosed(g, t) && i in t;
      assert t <= s;
    }
  }

  ghost predicate AllHard(g: seq<Entry>) {
    forall k :: 0 <= k < |g| ==> g[k].mode == MODE_HARD
  }

  // A wait cycle is reported just when a hard mode is left among the first as many entries as are deadlocked.
  lemma ReportsIffHardInFront(g: seq<Entry>)
    ensures Reports(g) <==> (exists c :: WaitCycle(g, c)) && AnyHard(g, |Deadlocked(g)|)
  {
    hide WaitClosed, WaitCycle, Deadlocked, AnyHard;
    ReportsIs(g, Deadlocked(g));
    CycleIff(g);
  }

  // While every mode is hard, exactly the wait cycles are reported.
  lemma HardReportsIffCycle(g: seq<Entry>)
    requires AllHard(g)
    ensures Reports(g) <==> exists c :: WaitCycle(g, c)
  {
    hide WaitClosed, WaitCycle;
    var s := Deadlocked(g);
    ReportsIs(g, s);
    CycleIff(g);
    if s != {} {
      SubsetNonempty(s);
      var i := SomeRequest(g, s);
      assert g[0].mode == MODE_HARD;
    }
  }

  lemma SubsetNonempty(s: set<nat>)
    requires s != {}
    ensures |s| > 0
  {
  }

  // Two soft transactions that wait for each other, behind a hard entry of a third.
  function SoftCycle(): seq<Entry> {
    [Entry(9, 9, Cat, MODE_HARD), Entry(1, 1, Cat, MODE_SOFT), Entry(2, 2, Cat, MODE_SOFT),
     Entry(1, 2, Req, MODE_SOFT), Entry(2, 1, Req, MODE_SOFT)]
  }

  lemma NoRequestNoMember(g: seq<Entry>, t: set<nat>, i: nat)
    requires WaitClosed(g, t) && i < |g| && g[i].kind == Cat
    requires forall j :: 0 <= j < |g| && g[j].kind == Req ==> g[j].transaction != g[i].transaction
    ensures i !in t && forall k :: k in t ==> k < |g|
  {
    assert !RequestIn(g, t, g[i].transaction);
  }

  lemma SoftCycleBound(t: set<nat>)
    requires WaitClosed(SoftCycle(), t)
    ensures t <= {1, 2, 3, 4}
  {
    hide WaitClosed;
    NoRequestNoMember(SoftCycle(), t, 0);
  }

  lemma SoftCycleClosed()
    ensures LargestClosed(SoftCycle(), {1, 2, 3, 4})
  {
    var g, s := SoftCycle(), {1, 2, 3, 4};
    assert g[1].kind == Cat && g[2].kind == Cat && g[3].kind == Req && g[4].kind == Req;
    assert RequestIn(g, s, 1) && RequestIn(g, s, 2) && HeldIn(g, s, 1) && HeldIn(g, s, 2);
    forall t: set<nat> | WaitClosed(g, t)
      ensures t <= s
    {
      SoftCycleBound(t);
    }
  }

  // The modes stay in place, so the unrelated hard entry in front makes a cycle of soft entries reported.
  lemma SoftCycleReported()
    ensures Reports(SoftCycle())
    ensures exists s ::
      LargestClosed(SoftCycle(), s) && forall k :: k in s ==> k < 5 && SoftCycle()[k].mode == MODE_SOFT
  {
    hide LargestClosed;
    SoftCycleClosed();
    assert SoftCycle()[0].mode == MODE_HARD;
    assert 1 in {1, 2, 3, 4};
    assert AnyHard(SoftCycle(), |{1, 2, 3, 4}|);
  }

  // ---- the shared graph ----

  function Required(g: seq<Entry>, transaction: nat, lock: nat, mode: int): seq<Entry> {
    g + [Entry(transaction, lock, Req, mode)]
  }

  predicate Registered(g: seq<Entry>, transaction: nat, lock: nat) {
    Find(g, transaction, lock) < |g|
  }

  function Caught(g: seq<Entry>, transaction: nat, lock: nat): seq<Entry>
    requires Registered(g, transaction, lock)
  {
    var i := Find(g, transaction, lock);
    g[i := g[i].(kind := Cat)]
  }

  function Released(g: seq<Entry>, transaction: nat, lock: nat): seq<Entry>
    requires Registered(g, transaction, lock)
  {
    Erased(g, Find(g, transaction, lock))
  }

  lemma {:induction false} FindIs(g: seq<Entry>, transaction: nat, lock: nat, i: nat)
    requires i <= |g| && (i < |g| ==> Matches(g[i], transaction, lock))
    requires forall k :: 0 <= k < i ==> !Matches(g[k], transaction, lock)
    ensures Find(g, transaction, lock) == i
  {
    var j := Find(g, transaction, lock);
    if i < j {
      assert false;
    }
  }

  class LockGraph {
    var locksGraph: seq<Entry>

    constructor ()
      ensures locksGraph == []
    {
      locksGraph := [];
    }

    method FindEntry(transaction: nat, lock: nat) returns (it: nat)
      ensures it == Find(locksGraph, transaction, lock)
    {
      it := 0;
      while it < |locksGraph| && !Matches(locksGraph[it], transaction, lock)
        invariant it <= |locksGraph|
        invariant forall k :: 0 <= k < it ==> !Matches(locksGraph[k], transaction, lock)
      {
        it := it + 1;
      }
      FindIs(locksGraph, transaction, lock, it);
    }

    method RequireLock(transaction: nat, lock: nat, mode: int) returns (result: int)
      modifies this
      ensures locksGraph == Required(old(locksGraph), transaction, lock, mode)
      ensures OneRequestEach(locksGraph) ==> (result == 1 <==> Reports(locksGraph))
    {
      locksGraph := locksGraph + [Entry(transaction, lock, Req, mode)];
      result := CheckLockGraph(locksGraph);
    }

    // Where no entry is found the process exits, leaving the graph as it is.
    method CatchLock(transaction: nat, lock: nat) returns (exited: bool, result: int)
      modifies this
      ensures exited <==> !Registered(old(locksGraph), transaction, lock)
      ensures exited ==> locksGraph == old(locksGraph)
      ensures !exited ==> locksGraph == Caught(old(locksGraph), transaction, lock)
      ensures !exited && OneRequestEach(locksGraph) ==> (result == 1 <==> Reports(locksGraph))
    {
      var it := FindEntry(transaction, lock);
      if it < |locksGraph| {
        locksGraph := locksGraph[it := locksGraph[it].(kind := Cat)];
      } else {
        return true, -2;
      }
      exited := false;
      result := CheckLockGraph(locksGraph);
    }

    method ReleaseLock(transaction: nat, lock: nat) returns (exited: bool)
      modifies this
      ensures exited <==> !Registered(old(locksGraph), transaction, lock)
      ensures exited ==> locksGraph == old(locksGraph)
      ensures !exited ==> locksGraph == Released(old(locksGraph), transaction, lock)
    {
      var it := FindEntry(transaction, lock);
      if it < |locksGraph| {
        locksGraph := Erase(locksGraph, it);
      } else {
        return true;
      }
      exited := false;
    }
  }
}
