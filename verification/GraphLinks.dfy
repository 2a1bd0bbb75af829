// What the lock graph links a thread and a lock by.
module GraphLinks {
  import opened LockGraphs

  ghost predicate OneEntryEach(g: seq<Entry>) {
    forall i, j :: 0 <= i < j < |g| ==> !Matches(g[j], g[i].transaction, g[i].lock)
  }

  datatype Link = None | Requesting | Holding

  function LinkOf(g: seq<Entry>, t: nat, m: nat): Link {
    var i := Find(g, t, m);
    if i == |g| then None else if g[i].kind == Req then Requesting else Holding
  }

  ghost predicate LinksKept(g: seq<Entry>, h: seq<Entry>, t: nat, m: nat) {
    forall u, l :: u != t || l != m ==> LinkOf(h, u, l) == LinkOf(g, u, l)
  }

  // ---- the graph updates seen as changes of one link ----

  lemma LinkSame(g: seq<Entry>, h: seq<Entry>, t: nat, m: nat)
    requires OneEntryEach(g) && OneEntryEach(h)
    requires forall i :: 0 <= i < |g| && Matches(g[i], t, m) ==>
      exists j :: 0 <= j < |h| && Matches(h[j], t, m) && h[j].kind == g[i].kind
    requires forall j :: 0 <= j < |h| && Matches(h[j], t, m) ==> exists i :: 0 <= i < |g| && Matches(g[i], t, m)
    ensures LinkOf(g, t, m) == LinkOf(h, t, m)
  {
    var i, k := Find(g, t, m), Find(h, t, m);
    if i < |g| {
      var j :| 0 <= j < |h| && Matches(h[j], t, m) && h[j].kind == g[i].kind;
      LinkAt(h, j);
    } else if k < |h| {
      assert false;
    }
  }

  lemma EntriesApart(g: seq<Entry>, i: nat, k: nat)
    requires OneEntryEach(g) && i < |g| && k < |g| && i != k
    ensures !Matches(g[i], g[k].transaction, g[k].lock)
  {
    if i < k {
      assert !Matches(g[k], g[i].transaction, g[i].lock);
    }
  }

  lemma OnePlace(g: seq<Entry>, i: nat, k: nat)
    requires OneEntryEach(g) && i < |g| && k < |g| && Matches(g[i], g[k].transaction, g[k].lock)
    ensures i == k
  {
    if i != k {
      EntriesApart(g, i, k);
      assert false;
    }
  }

  // With one entry each, the link is the one of any matching entry.
  lemma LinkAt(g: seq<Entry>, i: nat)
    requires OneEntryEach(g) && i < |g|
    ensures LinkOf(g, g[i].transaction, g[i].lock) == if g[i].kind == Req then Requesting else Holding
  {
    var k := Find(g, g[i].transaction, g[i].lock);
    OnePlace(g, i, k);
  }

  lemma RequireLink(g: seq<Entry>, t: nat, m: nat, mode: int)
    requires OneEntryEach(g) && LinkOf(g, t, m) == None
    ensures var h := Required(g, t, m, mode);
      OneEntryEach(h) && LinkOf(h, t, m) == Requesting
      && LinksKept(g, h, t, m)
  {
    var h := Required(g, t, m, mode);
    LinkAt(h, |g|);
    forall u, l | u != t || l != m
      ensures LinkOf(h, u, l) == LinkOf(g, u, l)
    {
      forall i | 0 <= i < |g| && Matches(g[i], u, l)
        ensures exists j :: 0 <= j < |h| && Matches(h[j], u, l) && h[j].kind == g[i].kind
      {
        assert h[i] == g[i];
      }
      forall j | 0 <= j < |h| && Matches(h[j], u, l)
        ensures exists i :: 0 <= i < |g| && Matches(g[i], u, l)
      {
        assert h[j] == g[j];
      }
      LinkSame(g, h, u, l);
    }
  }

  lemma CatchLink(g: seq<Entry>, t: nat, m: nat)
    requires OneEntryEach(g) && Registered(g, t, m)
    ensures var h := Caught(g, t, m);
      OneEntryEach(h) && LinkOf(h, t, m) == Holding
      && LinksKept(g, h, t, m)
  {
    var h, k := Caught(g, t, m), Find(g, t, m);
    forall i, j | 0 <= i < j < |h|
      ensures !Matches(h[j], h[i].transaction, h[i].lock)
    {
      assert !Matches(g[j], g[i].transaction, g[i].lock);
    }
    LinkAt(h, k);
    forall u, l | u != t || l != m
      ensures LinkOf(h, u, l) == LinkOf(g, u, l)
    {
      forall i | 0 <= i < |g| && Matches(g[i], u, l)
        ensures exists j :: 0 <= j < |h| && Matches(h[j], u, l) && h[j].kind == g[i].kind
      {
        assert h[i] == g[i];
      }
      forall j | 0 <= j < |h| && Matches(h[j], u, l)
        ensures exists i :: 0 <= i < |g| && Matches(g[i], u, l)
      {
        assert Matches(g[j], u, l);
      }
      LinkSame(g, h, u, l);
    }
  }

  // An erased entry leaves the others, moved down, with their kinds.
  lemma ErasedAt(g: seq<Entry>, k: nat, j: nat) returns (i: nat)
    requires k < |g| && j < |g| - 1
    ensures i == (if j < k then j else j + 1)
    ensures Erased(g, k)[j].(mode := g[i].mode) == g[i] && Erased(g, k)[j].mode == g[j].mode
  {
    i := if j < k then j else j + 1;
  }

  lemma ReleaseUnique(g: seq<Entry>, k: nat)
    requires OneEntryEach(g) && k < |g|
    ensures OneEntryEach(Erased(g, k))
  {
    hide Erased;
    var h := Erased(g, k);
    forall i, j | 0 <= i < j < |h|
      ensures !Matches(h[j], h[i].transaction, h[i].lock)
    {
      var a := ErasedAt(g, k, i);
      var b := ErasedAt(g, k, j);
      assert !Matches(g[b], g[a].transaction, g[a].lock);
    }
  }

  lemma ReleaseLink(g: seq<Entry>, t: nat, m: nat)
    requires OneEntryEach(g) && Registered(g, t, m)
    ensures var h := Released(g, t, m);
      OneEntryEach(h) && LinkOf(h, t, m) == None
      && LinksKept(g, h, t, m)
  {
    hide Erased;
    var h, k := Released(g, t, m), Find(g, t, m);
    ReleaseUnique(g, k);
    if Find(h, t, m) < |h| {
      var i := ErasedAt(g, k, Find(h, t, m));
      EntriesApart(g, i, k);
      assert false;
    }
    forall u, l | u != t || l != m
      ensures LinkOf(h, u, l) == LinkOf(g, u, l)
    {
      ReleaseOther(g, k, u, l);
    }
  }

  lemma ReleaseOther(g: seq<Entry>, k: nat, u: nat, l: nat)
    requires OneEntryEach(g) && k < |g| && !Matches(g[k], u, l) && OneEntryEach(Erased(g, k))
    ensures LinkOf(Erased(g, k), u, l) == LinkOf(g, u, l)
  {
    hide Erased, OneEntryEach;
    var h := Erased(g, k);
    forall i | 0 <= i < |g| && Matches(g[i], u, l)
      ensures exists j :: 0 <= j < |h| && Matches(h[j], u, l) && h[j].kind == g[i].kind
    {
      var j := if i < k then i else i - 1;
      var b := ErasedAt(g, k, j);
      assert Matches(h[j], u, l) && h[j].kind == g[i].kind;
    }
    forall j | 0 <= j < |h| && Matches(h[j], u, l)
      ensures exists i :: 0 <= i < |g| && Matches(g[i], u, l)
    {
      var i := ErasedAt(g, k, j);
      assert Matches(g[i], u, l);
    }
    LinkSame(g, h, u, l);
  }
}
