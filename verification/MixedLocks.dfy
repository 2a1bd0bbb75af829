// Mutexes and reader-writer semaphores side by side in one lock graph: what a report says of the threads.
// A step is one section of the graph, or one unit of a lock taken or given back.
module MixedLocks {
  import opened LockGraphs
  import opened GraphLinks
  import SemaphoreSystem

  const PARALLEL_READERS: nat := SemaphoreSystem.PARALLEL_READERS

  // Asking: a request is in the graph, and so many units have been taken. Giving: the entry is gone, and so many
  // units are still to be posted. Dropping: the unit of a read is posted, and the entry is still there.
  datatype Pc = Idle | Asking(lock: nat, units: nat, taken: nat) | Giving(lock: nat, left: nat) | Dropping(lock: nat)

  // A thread, and the units it has of each lock that it holds.
  datatype Thread = Thread(pc: Pc, held: map<nat, nat>)

  // A mutex has one unit, a semaphore as many as there may be readers.
  datatype State = State(threads: seq<Thread>, sizes: seq<nat>, free: seq<nat>, graph: seq<Entry>, reported: bool)

  datatype Step = Ask(lock: nat, units: nat) | Take | Note | Unlock(lock: nat) | Post | Unnote

  ghost predicate Init(s: State) {
    && (forall t :: 0 <= t < |s.threads| ==> s.threads[t] == Thread(Idle, map[]))
    && (forall l :: 0 <= l < |s.sizes| ==> s.sizes[l] == 1 || s.sizes[l] == PARALLEL_READERS)
    && s.free == s.sizes && s.graph == [] && !s.reported
  }

  function ModeOf(units: nat, size: nat): int {
    if units == size then MODE_HARD else MODE_SOFT
  }

  // A writer in the midst of collecting its units.
  predicate Collecting(x: Thread, l: nat) {
    x.pc.Asking? && x.pc.lock == l && 0 < x.pc.taken < x.pc.units
  }

  // Reads and mutexes take one unit; writers take all of them, one writer at a time.
  ghost predicate Can(s: State, t: nat, step: Step) {
    && t < |s.threads| && |s.free| == |s.sizes|
    && var x := s.threads[t];
       match step
       case Ask(l, u) => x.pc == Idle && l < |s.sizes| && l !in x.held && (u == 1 || u == s.sizes[l])
       case Take =>
         && x.pc.Asking? && x.pc.taken < x.pc.units && x.pc.lock < |s.free| && s.free[x.pc.lock] > 0
         && (x.pc.units > 1 ==> forall v :: 0 <= v < |s.threads| && v != t ==> !Collecting(s.threads[v], x.pc.lock))
       case Note => x.pc.Asking? && x.pc.taken == x.pc.units
       case Unlock(l) => x.pc == Idle && l in x.held && l < |s.free|
       case Post => x.pc.Giving? && x.pc.lock < |s.free|
       case Unnote => x.pc.Dropping?
  }

  function Move(s: State, t: nat, x: Thread): State
    requires t < |s.threads|
  {
    s.(threads := s.threads[t := x])
  }

  function Freed(s: State, l: nat): State
    requires l < |s.free|
  {
    s.(free := s.free[l := s.free[l] + 1])
  }

  ghost function Checked(s: State, g: seq<Entry>): State {
    s.(graph := g, reported := Reports(g))
  }

  // An entry that is not found would end the process; `EntriesThere` says it never is.
  ghost function After(s: State, t: nat, step: Step): State
    requires Can(s, t, step)
  {
    var x := s.threads[t];
    match step
    case Ask(l, u) =>
      Checked(Move(s, t, x.(pc := Asking(l, u, 0))), Required(s.graph, t, l, ModeOf(u, s.sizes[l])))
    case Take =>
      var n := s.(free := s.free[x.pc.lock := s.free[x.pc.lock] - 1]);
      Move(n, t, x.(pc := x.pc.(taken := x.pc.taken + 1)))
    case Note =>
      var n := Move(s, t, Thread(Idle, x.held[x.pc.lock := x.pc.units]));
      if Registered(s.graph, t, x.pc.lock) then Checked(n, Caught(s.graph, t, x.pc.lock)) else n
    case Unlock(l) =>
      if ModeOf(x.held[l], s.sizes[l]) == MODE_HARD then
        var n := Move(s, t, Thread(Giving(l, x.held[l]), x.held - {l}));
        if Registered(s.graph, t, l) then n.(graph := Released(s.graph, t, l)) else n
      else
        Move(Freed(s, l), t, Thread(Dropping(l), x.held - {l}))
    case Post =>
      if x.pc.left == 0 then Move(s, t, x.(pc := Idle))
      else Move(Freed(s, x.pc.lock), t, x.(pc := x.pc.(left := x.pc.left - 1)))
    case Unnote =>
      var n := Move(s, t, x.(pc := Idle));
      if Registered(s.graph, t, x.pc.lock) then n.(graph := Released(s.graph, t, x.pc.lock)) else n
  }

  ghost predicate Moves(s: State, n: State, t: nat, step: Step) {
    Can(s, t, step) && n == After(s, t, step)
  }

  ghost predicate Next(s: State, n: State) {
    exists t, step :: Moves(s, n, t, step)
  }

  ghost predicate Run(run: seq<State>) {
    |run| > 0 && Init(run[0]) && forall i :: 0 <= i < |run| - 1 ==> Next(run[i], run[i + 1])
  }

  // ---- units and links ----

  function Owned(x: Thread, l: nat): nat {
    if l in x.held then x.held[l]
    else if x.pc.Asking? && x.pc.lock == l then x.pc.taken
    else if x.pc.Giving? && x.pc.lock == l then x.pc.left
    else 0
  }

  function Expected(x: Thread, l: nat): Link {
    if l in x.held then Holding
    else if x.pc.Asking? && x.pc.lock == l then Requesting
    else if x.pc.Dropping? && x.pc.lock == l then Holding
    else None
  }

  function ExpectedOf(s: State, t: nat, l: nat): Link {
    if t < |s.threads| then Expected(s.threads[t], l) else None
  }

  // The units of l that the first k threads have, as far as they are in d.
  function OwnedIn(threads: seq<Thread>, d: set<nat>, l: nat, k: nat): nat
    requires k <= |threads|
  {
    if k == 0 then 0 else OwnedIn(threads, d, l, k - 1) + if k - 1 in d then Owned(threads[k - 1], l) else 0
  }

  predicate IsThread(s: State, t: nat) {
    t < |s.threads|
  }

  function All(s: State): set<nat> {
    set t | 0 <= t < |s.threads| && IsThread(s, t)
  }

  function OwnedBy(s: State, d: set<nat>, l: nat): nat {
    OwnedIn(s.threads, d, l, |s.threads|)
  }

  predicate ThreadOk(x: Thread, sizes: seq<nat>) {
    && (forall l :: l in x.held ==> l < |sizes| && (x.held[l] == 1 || x.held[l] == sizes[l]))
    && match x.pc
       case Idle => true
       case Asking(l, u, k) => l < |sizes| && l !in x.held && (u == 1 || u == sizes[l]) && k <= u
       case Giving(l, k) => l < |sizes| && l !in x.held
       case Dropping(l) => l < |sizes| && l !in x.held
  }

  ghost predicate Linked(s: State) {
    OneEntryEach(s.graph) && forall t: nat, l: nat :: LinkOf(s.graph, t, l) == ExpectedOf(s, t, l)
  }

  ghost predicate Balanced(s: State, l: nat)
    requires l < |s.free| && l < |s.sizes|
  {
    s.free[l] + OwnedBy(s, All(s), l) == s.sizes[l]
  }

  ghost predicate OneCollector(s: State) {
    forall l, t, u ::
      0 <= t < |s.threads| && 0 <= u < |s.threads| && Collecting(s.threads[t], l) && Collecting(s.threads[u], l) ==>
        t == u
  }

  ghost predicate Inv(s: State) {
    && |s.free| == |s.sizes| && (forall l :: 0 <= l < |s.sizes| ==> s.sizes[l] == 1 || s.sizes[l] == PARALLEL_READERS)
    && (forall t :: 0 <= t < |s.threads| ==> ThreadOk(s.threads[t], s.sizes))
    && Linked(s) && OneCollector(s)
    && forall l :: 0 <= l < |s.sizes| ==> Balanced(s, l)
  }

  // ---- sums of units ----

  lemma {:induction false} OwnedChange(a: seq<Thread>, b: seq<Thread>, d: set<nat>, l: nat, k: nat, t: nat)
    requires k <= |a| == |b| && t < |a| && forall u :: 0 <= u < |a| && u != t ==> Owned(b[u], l) == Owned(a[u], l)
    ensures OwnedIn(b, d, l, k) - OwnedIn(a, d, l, k)
         == if t < k && t in d then Owned(b[t], l) - Owned(a[t], l) else 0
  {
    hide Owned;
    if k > 0 {
      OwnedChange(a, b, d, l, k - 1, t);
    }
  }

  lemma {:induction false} OwnedWithout(a: seq<Thread>, d: set<nat>, l: nat, k: nat, t: nat)
    requires k <= |a| && t < |a| && t in d
    ensures OwnedIn(a, d, l, k) == OwnedIn(a, d - {t}, l, k) + if t < k then Owned(a[t], l) else 0
  {
    hide Owned;
    if k > 0 {
      OwnedWithout(a, d, l, k - 1, t);
    }
  }

  lemma {:induction false} OwnedSubset(a: seq<Thread>, d: set<nat>, e: set<nat>, l: nat, k: nat)
    requires k <= |a| && forall t :: t in d && t < k ==> t in e
    ensures OwnedIn(a, d, l, k) <= OwnedIn(a, e, l, k)
  {
    hide Owned;
    if k > 0 {
      OwnedSubset(a, d, e, l, k - 1);
    }
  }

  // Some member has units where the members together have some.
  lemma {:induction false} SomeOwner(a: seq<Thread>, d: set<nat>, l: nat, k: nat) returns (t: nat)
    requires k <= |a| && OwnedIn(a, d, l, k) > 0
    ensures t < k && t in d && Owned(a[t], l) > 0
  {
    hide Owned;
    if k - 1 in d && Owned(a[k - 1], l) > 0 {
      t := k - 1;
    } else {
      t := SomeOwner(a, d, l, k - 1);
    }
  }

  lemma {:induction false} NothingOwned(a: seq<Thread>, d: set<nat>, l: nat, k: nat)
    requires k <= |a| && forall t :: 0 <= t < k ==> Owned(a[t], l) == 0
    ensures OwnedIn(a, d, l, k) == 0
  {
    hide Owned;
    if k > 0 {
      NothingOwned(a, d, l, k - 1);
    }
  }

  // Together, threads own no more units than there are.
  lemma OwnedAtMost(s: State, d: set<nat>, l: nat)
    requires Inv(s) && l < |s.sizes|
    ensures OwnedBy(s, d, l) + s.free[l] <= s.sizes[l]
  {
    OwnedSubset(s.threads, d, All(s), l, |s.threads|);
    assert Balanced(s, l);
  }

  // ---- the invariant ----

  lemma InitInv(s: State)
    requires Init(s)
    ensures Inv(s)
  {
    forall l | 0 <= l < |s.sizes|
      ensures Balanced(s, l)
    {
      NothingOwned(s.threads, All(s), l, |s.threads|);
    }
  }

  // Thread t and lock l change together; everything else is as before.
  ghost predicate Changes(s: State, n: State, t: nat, l: nat) {
    && t < |s.threads| == |n.threads| && l < |s.sizes| == |s.free| == |n.free| && n.sizes == s.sizes
    && n.threads == s.threads[t := n.threads[t]]
    && (forall m :: 0 <= m < |s.free| && m != l ==> n.free[m] == s.free[m])
    && n.free[l] + Owned(n.threads[t], l) == s.free[l] + Owned(s.threads[t], l)
    && (forall m :: m != l ==> Owned(n.threads[t], m) == Owned(s.threads[t], m)
                               && Expected(n.threads[t], m) == Expected(s.threads[t], m)
                               && !Collecting(n.threads[t], m))
    && ThreadOk(n.threads[t], n.sizes)
  }

  ghost predicate Relinked(s: State, n: State, t: nat, l: nat)
    requires t < |n.threads|
  {
    OneEntryEach(n.graph) && LinkOf(n.graph, t, l) == Expected(n.threads[t], l) && LinksKept(s.graph, n.graph, t, l)
  }

  lemma ChangeLinked(s: State, n: State, t: nat, l: nat)
    requires Changes(s, n, t, l) && Relinked(s, n, t, l) && Linked(s)
    ensures Linked(n)
  {
    hide LinkOf, Expected, Owned, OneEntryEach, ThreadOk, Collecting;
  }

  lemma ChangeBalanced(s: State, n: State, t: nat, l: nat, m: nat)
    requires Changes(s, n, t, l) && m < |s.sizes| && Balanced(s, m)
    ensures Balanced(n, m)
  {
    hide Owned, Expected, ThreadOk, Collecting;
    assert All(n) == All(s);
    OwnedChange(s.threads, n.threads, All(s), m, |s.threads|, t);
  }

  lemma ChangeInv(s: State, n: State, t: nat, l: nat)
    requires Inv(s) && Changes(s, n, t, l) && Relinked(s, n, t, l)
    requires Collecting(n.threads[t], l) ==>
      forall v :: 0 <= v < |s.threads| && v != t ==> !Collecting(s.threads[v], l)
    ensures Inv(n)
  {
    ChangeLinked(s, n, t, l);
    forall m | 0 <= m < |n.sizes|
      ensures Balanced(n, m)
    {
      assert Balanced(s, m);
      ChangeBalanced(s, n, t, l, m);
    }
    hide Linked, Balanced, Relinked, Owned, Expected, ThreadOk, Collecting;
  }

  // Where an entry is noted or released, it is in the graph.
  lemma EntriesThere(s: State, t: nat, step: Step)
    requires Inv(s) && Can(s, t, step) && !step.Ask?
    ensures step.Note? || step.Unnote? ==> Registered(s.graph, t, s.threads[t].pc.lock)
    ensures step.Unlock? ==> Registered(s.graph, t, step.lock)
  {
    var x := s.threads[t];
    assert ThreadOk(x, s.sizes);
    var l := if step.Unlock? then step.lock else if x.pc.Idle? then 0 else x.pc.lock;
    assert LinkOf(s.graph, t, l) == ExpectedOf(s, t, l);
  }

  lemma GraphSame(s: State, n: State, t: nat, l: nat)
    requires Linked(s) && t < |s.threads| == |n.threads| && n.graph == s.graph
    requires Expected(n.threads[t], l) == Expected(s.threads[t], l)
    ensures Relinked(s, n, t, l)
  {
    assert LinkOf(s.graph, t, l) == ExpectedOf(s, t, l);
    hide LinkOf, Expected, OneEntryEach;
  }

  lemma AskInv(s: State, t: nat, l: nat, u: nat)
    requires Inv(s) && Can(s, t, Ask(l, u))
    ensures Inv(After(s, t, Ask(l, u)))
  {
    hide LinkOf, OneEntryEach, Required, Balanced, Reports;
    var n := After(s, t, Ask(l, u));
    assert ThreadOk(s.threads[t], s.sizes);
    assert LinkOf(s.graph, t, l) == ExpectedOf(s, t, l);
    RequireLink(s.graph, t, l, ModeOf(u, s.sizes[l]));
    ChangeInv(s, n, t, l);
  }

  lemma TakeInv(s: State, t: nat)
    requires Inv(s) && Can(s, t, Take)
    ensures Inv(After(s, t, Take))
  {
    hide LinkOf, OneEntryEach, Balanced;
    var n, l := After(s, t, Take), s.threads[t].pc.lock;
    assert ThreadOk(s.threads[t], s.sizes);
    GraphSame(s, n, t, l);
    ChangeInv(s, n, t, l);
  }

  lemma NoteInv(s: State, t: nat)
    requires Inv(s) && Can(s, t, Note)
    ensures Inv(After(s, t, Note))
  {
    hide LinkOf, OneEntryEach, Balanced, Registered, Caught, Reports;
    var n, l := After(s, t, Note), s.threads[t].pc.lock;
    assert ThreadOk(s.threads[t], s.sizes);
    EntriesThere(s, t, Note);
    CatchLink(s.graph, t, l);
    ChangeInv(s, n, t, l);
  }

  lemma UnlockInv(s: State, t: nat, l: nat)
    requires Inv(s) && Can(s, t, Unlock(l))
    ensures Inv(After(s, t, Unlock(l)))
  {
    hide LinkOf, OneEntryEach, Balanced, Registered, Released;
    var n := After(s, t, Unlock(l));
    assert ThreadOk(s.threads[t], s.sizes);
    EntriesThere(s, t, Unlock(l));
    if ModeOf(s.threads[t].held[l], s.sizes[l]) == MODE_HARD {
      ReleaseLink(s.graph, t, l);
    } else {
      GraphSame(s, n, t, l);
    }
    ChangeInv(s, n, t, l);
  }

  lemma PostInv(s: State, t: nat)
    requires Inv(s) && Can(s, t, Post)
    ensures Inv(After(s, t, Post))
  {
    hide LinkOf, OneEntryEach, Balanced;
    var n, l := After(s, t, Post), s.threads[t].pc.lock;
    assert ThreadOk(s.threads[t], s.sizes);
    GraphSame(s, n, t, l);
    ChangeInv(s, n, t, l);
  }

  lemma UnnoteInv(s: State, t: nat)
    requires Inv(s) && Can(s, t, Unnote)
    ensures Inv(After(s, t, Unnote))
  {
    hide LinkOf, OneEntryEach, Balanced, Registered, Released;
    var n, l := After(s, t, Unnote), s.threads[t].pc.lock;
    assert ThreadOk(s.threads[t], s.sizes);
    EntriesThere(s, t, Unnote);
    ReleaseLink(s.graph, t, l);
    ChangeInv(s, n, t, l);
  }

  lemma NextInv(s: State, n: State, t: nat, step: Step)
    requires Inv(s) && Moves(s, n, t, step)
    ensures Inv(n)
  {
    hide Inv, Can, After;
    match step
    case Ask(l, u) => AskInv(s, t, l, u);
    case Take => TakeInv(s, t);
    case Note => NoteInv(s, t);
    case Unlock(l) => UnlockInv(s, t, l);
    case Post => PostInv(s, t);
    case Unnote => UnnoteInv(s, t);
  }

  lemma RunStep(run: seq<State>, i: nat) returns (t: nat, step: Step)
    requires Run(run) && i + 1 < |run|
    ensures Moves(run[i], run[i + 1], t, step)
  {
    hide Moves;
    assert Next(run[i], run[i + 1]);
    t, step :| Moves(run[i], run[i + 1], t, step);
  }

  lemma RunStart(run: seq<State>)
    requires Run(run)
    ensures |run| > 0 && Inv(run[0])
  {
    hide Inv, Next;
    InitInv(run[0]);
  }

  lemma {:induction false} RunInv(run: seq<State>, i: nat)
    requires Run(run) && i < |run|
    ensures Inv(run[i])
  {
    hide Inv, Moves, Run;
    if i == 0 {
      RunStart(run);
    } else {
      RunInv(run, i - 1);
      var t, step := RunStep(run, i - 1);
      NextInv(run[i - 1], run[i], t, step);
    }
  }

  // ---- threads that wait for one another ----

  ghost predicate AwaitsIn(s: State, d: set<nat>, t: nat) {
    && IsThread(s, t) && s.threads[t].pc.Asking?
    && exists u :: u in d && IsThread(s, u) && s.threads[t].pc.lock in s.threads[u].held
  }

  // Each of them asks for a lock that another of them holds.
  ghost predicate WaitingSet(s: State, d: set<nat>) {
    d != {} && forall t :: t in d ==> AwaitsIn(s, d, t)
  }

  lemma LinkEntry(s: State, t: nat, l: nat) returns (i: nat)
    requires Linked(s) && IsThread(s, t) && Expected(s.threads[t], l) != None
    ensures i < |s.graph| && Matches(s.graph[i], t, l)
    ensures s.graph[i].kind == if Expected(s.threads[t], l) == Requesting then Req else Cat
  {
    assert LinkOf(s.graph, t, l) == ExpectedOf(s, t, l);
    i := Find(s.graph, t, l);
  }

  lemma EntryLink(s: State, i: nat)
    requires Linked(s) && i < |s.graph|
    ensures var e := s.graph[i];
      IsThread(s, e.transaction)
      && Expected(s.threads[e.transaction], e.lock) == if e.kind == Req then Requesting else Holding
  {
    var e := s.graph[i];
    LinkAt(s.graph, i);
    assert LinkOf(s.graph, e.transaction, e.lock) == ExpectedOf(s, e.transaction, e.lock);
  }

  lemma OneRequest(s: State)
    requires Linked(s)
    ensures OneRequestEach(s.graph)
  {
    forall i, j | 0 <= i < |s.graph| && 0 <= j < |s.graph| && SameRequest(s.graph[i], s.graph[j])
      ensures i == j
    {
      EntryLink(s, i);
      EntryLink(s, j);
      OnePlace(s.graph, i, j);
    }
  }

  ghost function EntriesOf(s: State, d: set<nat>): set<nat> {
    set i | 0 <= i < |s.graph| && s.graph[i].transaction in d
  }

  lemma RequestThere(s: State, d: set<nat>, t: nat)
    requires Inv(s) && t in d && IsThread(s, t) && s.threads[t].pc.Asking?
    ensures RequestIn(s.graph, EntriesOf(s, d), t)
  {
    assert ThreadOk(s.threads[t], s.sizes);
    var i := LinkEntry(s, t, s.threads[t].pc.lock);
    assert i in EntriesOf(s, d);
  }

  lemma HolderThere(s: State, d: set<nat>, u: nat, l: nat)
    requires Linked(s) && u in d && IsThread(s, u) && l in s.threads[u].held
    ensures HeldIn(s.graph, EntriesOf(s, d), l)
  {
    var i := LinkEntry(s, u, l);
    assert i in EntriesOf(s, d);
  }

  lemma AsksOnce(s: State, i: nat)
    requires Linked(s) && i < |s.graph| && s.graph[i].kind == Req
    ensures var t := s.graph[i].transaction;
      IsThread(s, t) && s.threads[t].pc.Asking? && s.threads[t].pc.lock == s.graph[i].lock
  {
    EntryLink(s, i);
  }

  lemma WaitingIsClosed(s: State, d: set<nat>)
    requires Inv(s) && WaitingSet(s, d)
    ensures WaitClosed(s.graph, EntriesOf(s, d)) && EntriesOf(s, d) != {}
  {
    var g, c := s.graph, EntriesOf(s, d);
    hide Inv, RequestIn, HeldIn;
    forall t | t in d
      ensures RequestIn(g, c, t) && HeldIn(g, c, s.threads[t].pc.lock)
    {
      assert AwaitsIn(s, d, t);
      RequestThere(s, d, t);
      var u :| u in d && IsThread(s, u) && s.threads[t].pc.lock in s.threads[u].held;
      InvLinked(s);
      HolderThere(s, d, u, s.threads[t].pc.lock);
    }
    forall i | i in c
      ensures if g[i].kind == Cat then RequestIn(g, c, g[i].transaction) else HeldIn(g, c, g[i].lock)
    {
      if g[i].kind == Req {
        InvLinked(s);
        AsksOnce(s, i);
      }
    }
    var t :| t in d;
    RequestMember(g, c, t);
  }

  lemma InvLinked(s: State)
    requires Inv(s)
    ensures Linked(s)
  {
  }

  lemma RequestMember(g: seq<Entry>, c: set<nat>, t: nat)
    requires RequestIn(g, c, t)
    ensures c != {}
  {
  }

  ghost function Requesters(s: State, c: set<nat>): set<nat> {
    set i | i in c && i < |s.graph| && s.graph[i].kind == Req :: s.graph[i].transaction
  }

  lemma RequesterAwaits(s: State, c: set<nat>, i: nat)
    requires Linked(s) && WaitClosed(s.graph, c) && i in c && i < |s.graph| && s.graph[i].kind == Req
    ensures AwaitsIn(s, Requesters(s, c), s.graph[i].transaction)
  {
    hide Linked, WaitClosed;
    AsksOnce(s, i);
    var j := Partner(s.graph, c, i);
    EntryLink(s, j);
    var k := Partner(s.graph, c, j);
    AsksOnce(s, k);
    assert s.graph[j].transaction in Requesters(s, c);
  }

  lemma ClosedIsWaiting(s: State, c: set<nat>)
    requires Linked(s) && WaitClosed(s.graph, c) && c != {}
    ensures WaitingSet(s, Requesters(s, c))
  {
    hide Linked, WaitClosed, AwaitsIn;
    var i := SomeRequest(s.graph, c);
    assert s.graph[i].transaction in Requesters(s, c);
    forall t | t in Requesters(s, c)
      ensures AwaitsIn(s, Requesters(s, c), t)
    {
      var k :| k in c && k < |s.graph| && s.graph[k].kind == Req && s.graph[k].transaction == t;
      RequesterAwaits(s, c, k);
    }
  }

  // The first as many modes as there are deadlocked entries; a hard one among them is needed for a report.
  ghost predicate HardInFront(g: seq<Entry>) {
    AnyHard(g, |Deadlocked(g)|)
  }

  // The graph is reported exactly when some threads ask for locks that others of them hold, and a hard mode is in
  // front.
  lemma ReportsIffWaiting(s: State)
    requires Inv(s)
    ensures OneRequestEach(s.graph)
    ensures Reports(s.graph) <==> (exists d :: WaitingSet(s, d)) && HardInFront(s.graph)
  {
    InvLinked(s);
    hide Inv, Linked, WaitClosed, WaitCycle, WaitingSet, AnyHard, Reports, Deadlocked;
    OneRequest(s);
    ReportsIffHardInFront(s.graph);
    CycleIff(s.graph);
    if d :| WaitingSet(s, d) {
      WaitingIsClosed(s, d);
    }
    if c: set<nat> :| WaitClosed(s.graph, c) && c != {} {
      ClosedIsWaiting(s, c);
    }
  }

  // ---- threads that can never go on ----

  ghost predicate StuckIn(s: State, d: set<nat>, t: nat) {
    && IsThread(s, t) && s.threads[t].pc.Asking?
    && var pc := s.threads[t].pc;
       pc.lock < |s.sizes| && OwnedBy(s, d - {t}, pc.lock) + pc.units > s.sizes[pc.lock]
  }

  // Even if every other thread gave back all it has, each of them would miss units that the others of them have.
  ghost predicate StuckSet(s: State, d: set<nat>) {
    d != {} && forall t :: t in d ==> StuckIn(s, d, t)
  }

  // A stuck thread has not got all it asks for; the only step it can make is to take one unit more.
  lemma StuckStep(s: State, d: set<nat>, t: nat, step: Step)
    requires Inv(s) && t in d && StuckIn(s, d, t) && Can(s, t, step)
    ensures step == Take && s.threads[t].pc.taken < s.threads[t].pc.units
  {
    hide Linked, Balanced, OneCollector;
    var l := s.threads[t].pc.lock;
    assert ThreadOk(s.threads[t], s.sizes);
    OwnedWithout(s.threads, d, l, |s.threads|, t);
    OwnedAtMost(s, d, l);
  }

  lemma TakeOwns(s: State, d: set<nat>, t: nat, l: nat)
    requires Inv(s) && Can(s, t, Take)
    ensures OwnedBy(After(s, t, Take), d, l) >= OwnedBy(s, d, l)
  {
    assert ThreadOk(s.threads[t], s.sizes);
    hide Inv;
    OwnedChange(s.threads, After(s, t, Take).threads, d, l, |s.threads|, t);
  }

  lemma OthersOwn(s: State, n: State, t: nat, step: Step, d: set<nat>, l: nat)
    requires Moves(s, n, t, step) && t !in d
    ensures |n.threads| == |s.threads| && n.sizes == s.sizes && OwnedBy(n, d, l) == OwnedBy(s, d, l)
    ensures forall u: nat :: IsThread(s, u) && u != t ==> n.threads[u] == s.threads[u]
  {
    hide Registered, Caught, Released, Required, Reports;
    OwnedChange(s.threads, n.threads, d, l, |s.threads|, t);
  }

  lemma StuckInStays(s: State, n: State, t: nat, step: Step, d: set<nat>, u: nat)
    requires Inv(s) && Moves(s, n, t, step) && StuckSet(s, d) && u in d
    ensures StuckIn(n, d, u)
  {
    assert StuckIn(s, d, u);
    var l := s.threads[u].pc.lock;
    if t in d {
      assert StuckIn(s, d, t);
      StuckStep(s, d, t, step);
      TakeOwns(s, d - {u}, t, l);
    } else {
      OthersOwn(s, n, t, step, d - {u}, l);
    }
    hide OwnedIn, Inv;
  }

  // Stuck threads stay stuck, whatever any thread does.
  lemma {:induction false} StuckForever(run: seq<State>, i: nat, j: nat, d: set<nat>)
    requires Run(run) && i <= j < |run| && StuckSet(run[i], d)
    ensures StuckSet(run[j], d)
  {
    hide Run, Inv, Moves, StuckIn;
    if i < j {
      StuckForever(run, i, j - 1, d);
      RunInv(run, j - 1);
      var t, step := RunStep(run, j - 1);
      forall u | u in d
        ensures StuckIn(run[j], d, u)
      {
        StuckInStays(run[j - 1], run[j], t, step, d, u);
      }
    }
  }

  // Of stuck threads with units of a lock, one holds it, or is a writer collecting them.
  lemma OwnerHolds(s: State, d: set<nat>, e: set<nat>, l: nat) returns (u: nat)
    requires Inv(s) && l < |s.sizes| && e <= d && StuckSet(s, d) && OwnedBy(s, e, l) > 0
    ensures u in e && IsThread(s, u)
    ensures l in s.threads[u].held || Collecting(s.threads[u], l)
  {
    hide Linked, OneCollector, Balanced, OwnedIn;
    u := SomeOwner(s.threads, e, l, |s.threads|);
    assert ThreadOk(s.threads[u], s.sizes) && StuckIn(s, d, u);
    if s.threads[u].pc.lock == l {
      OwnedWithout(s.threads, d, l, |s.threads|, u);
      OwnedAtMost(s, d, l);
    }
  }

  lemma CollectorAlone(s: State, l: nat, t: nat, u: nat)
    requires Inv(s) && IsThread(s, t) && IsThread(s, u) && Collecting(s.threads[t], l) && Collecting(s.threads[u], l)
    ensures t == u
  {
    assert OneCollector(s);
    hide Linked, Balanced;
  }

  // Stuck threads wait for one another.
  lemma StuckIsWaiting(s: State, d: set<nat>)
    requires Inv(s) && StuckSet(s, d)
    ensures WaitingSet(s, d)
  {
    forall t | t in d
      ensures AwaitsIn(s, d, t)
    {
      StuckAwaits(s, d, t);
    }
  }

  lemma StuckAwaits(s: State, d: set<nat>, t: nat)
    requires Inv(s) && StuckSet(s, d) && t in d
    ensures AwaitsIn(s, d, t)
  {
    assert StuckIn(s, d, t) && ThreadOk(s.threads[t], s.sizes);
    hide Linked, OneCollector, Balanced, OwnedIn;
    var l := s.threads[t].pc.lock;
    var u := OwnerHolds(s, d, d - {t}, l);
    if Collecting(s.threads[u], l) {
      assert StuckIn(s, d, u) && ThreadOk(s.threads[u], s.sizes);
      var v := OwnerHolds(s, d, d - {u}, l);
      if Collecting(s.threads[v], l) {
        CollectorAlone(s, l, u, v);
      }
      assert v in d && l in s.threads[v].held;
    }
  }

  // A reader in the set whose semaphore has a unit that none of the others has.
  ghost predicate Spare(s: State, d: set<nat>, t: nat)
    requires IsThread(s, t) && s.threads[t].pc.Asking? && s.threads[t].pc.lock < |s.sizes|
  {
    var pc := s.threads[t].pc;
    pc.units < s.sizes[pc.lock] && OwnedBy(s, d - {t}, pc.lock) < s.sizes[pc.lock]
  }

  lemma AskerOk(s: State, d: set<nat>, t: nat)
    requires Inv(s) && WaitingSet(s, d) && t in d
    ensures IsThread(s, t) && s.threads[t].pc.Asking? && s.threads[t].pc.lock < |s.sizes|
  {
    assert AwaitsIn(s, d, t) && ThreadOk(s.threads[t], s.sizes);
    hide Linked, OneCollector, Balanced;
  }

  ghost predicate NoSpare(s: State, d: set<nat>)
    requires Inv(s) && WaitingSet(s, d)
  {
    forall t :: t in d ==> (AskerOk(s, d, t); !Spare(s, d, t))
  }

  lemma HeldOwned(s: State, t: nat, l: nat)
    requires Inv(s) && IsThread(s, t)
    ensures l in s.threads[t].held ==> Owned(s.threads[t], l) > 0
    ensures s.threads[t].pc.Asking? ==> s.threads[t].pc.lock !in s.threads[t].held
  {
    assert ThreadOk(s.threads[t], s.sizes);
    hide Linked, OneCollector, Balanced;
  }

  lemma HolderOwns(s: State, d: set<nat>, t: nat)
    requires Inv(s) && AwaitsIn(s, d, t)
    ensures OwnedBy(s, d - {t}, s.threads[t].pc.lock) > 0
  {
    hide Inv, OwnedIn, Owned;
    var l := s.threads[t].pc.lock;
    var u :| u in d && IsThread(s, u) && l in s.threads[u].held;
    HeldOwned(s, u, l);
    HeldOwned(s, t, l);
    OwnedWithout(s.threads, d - {t}, l, |s.threads|, u);
  }

  // Threads that wait for one another are stuck if and only if none of them is a reader with a unit to spare.
  lemma WaitingStuckIff(s: State, d: set<nat>)
    requires Inv(s) && WaitingSet(s, d)
    ensures StuckSet(s, d) <==> NoSpare(s, d)
  {
    forall t | t in d
      ensures IsThread(s, t) && s.threads[t].pc.Asking? && s.threads[t].pc.lock < |s.sizes|
      ensures StuckIn(s, d, t) <==> !Spare(s, d, t)
    {
      AskerOk(s, d, t);
      StuckInIff(s, d, t);
    }
    hide Inv, StuckIn, Spare;
  }

  lemma StuckInIff(s: State, d: set<nat>, t: nat)
    requires Inv(s) && WaitingSet(s, d) && t in d
    requires IsThread(s, t) && s.threads[t].pc.Asking? && s.threads[t].pc.lock < |s.sizes|
    ensures StuckIn(s, d, t) <==> !Spare(s, d, t)
  {
    assert AwaitsIn(s, d, t);
    HolderOwns(s, d, t);
    OwnedAtMost(s, d - {t}, s.threads[t].pc.lock);
    assert ThreadOk(s.threads[t], s.sizes);
    hide Linked, OneCollector, Balanced, WaitingSet, OwnedIn;
  }

  // When a report is right: a report without stuck threads is one where every set of threads that wait for one another
  // has a reader with a unit to spare; and stuck threads go without a report just when no hard mode is in front.
  lemma ReportIsRightIff(run: seq<State>, i: nat)
    requires Run(run) && i < |run|
    ensures Inv(run[i])
    ensures (exists d :: StuckSet(run[i], d)) <==> exists d :: WaitingSet(run[i], d) && NoSpare(run[i], d)
    ensures forall d :: StuckSet(run[i], d) ==> (Reports(run[i].graph) <==> HardInFront(run[i].graph))
  {
    RunInv(run, i);
    var s := run[i];
    hide Inv, StuckIn, AwaitsIn, StuckSet, WaitingSet, NoSpare, Reports, HardInFront, Run;
    forall d: set<nat> | StuckSet(s, d)
      ensures WaitingSet(s, d) && NoSpare(s, d)
    {
      StuckIsWaiting(s, d);
      WaitingStuckIff(s, d);
    }
    forall d: set<nat> | WaitingSet(s, d) && NoSpare(s, d)
      ensures StuckSet(s, d)
    {
      WaitingStuckIff(s, d);
    }
    ReportsIffWaiting(s);
  }

  // In every state of every run: what the check answers, and that it asks of each thread for one lock at most.
  lemma RunReports(run: seq<State>, i: nat)
    requires Run(run) && i < |run|
    ensures OneRequestEach(run[i].graph)
    ensures Reports(run[i].graph) <==> (exists d :: WaitingSet(run[i], d)) && HardInFront(run[i].graph)
  {
    RunInv(run, i);
    ReportsIffWaiting(run[i]);
  }

  // ---- a false report, and a deadlock without one ----

  ghost predicate Reachable(s: State) {
    exists run :: Run(run) && run[|run| - 1] == s
  }

  lemma Reach(s: State, n: State, t: nat, step: Step)
    requires Reachable(s) && Moves(s, n, t, step)
    ensures Reachable(n)
  {
    hide Moves;
    var run :| Run(run) && run[|run| - 1] == s;
    var longer := run + [n];
    forall i | 0 <= i < |longer| - 1
      ensures Next(longer[i], longer[i + 1])
    {
      if i < |run| - 1 {
        assert Next(run[i], run[i + 1]);
      } else {
        assert Moves(longer[i], longer[i + 1], t, step);
      }
    }
    assert Run(longer);
  }

  lemma ReachableInv(s: State)
    requires Reachable(s)
    ensures Inv(s)
  {
    hide Inv, Next;
    var run :| Run(run) && run[|run| - 1] == s;
    RunStart(run);
    RunInv(run, |run| - 1);
  }

  // Thread t asks for one unit of lock l.
  lemma Asks(s: State, t: nat, l: nat) returns (n: State)
    requires Reachable(s) && IsThread(s, t) && l < |s.sizes| == |s.free|
    requires s.threads[t].pc == Idle && l !in s.threads[t].held
    ensures Reachable(n) && n.sizes == s.sizes && n.free == s.free
    ensures n.threads == s.threads[t := Thread(Asking(l, 1, 0), s.threads[t].held)]
    ensures n.graph == s.graph + [Entry(t, l, Req, ModeOf(1, s.sizes[l]))] && n.reported == Reports(n.graph)
  {
    hide Reachable, Reports;
    n := After(s, t, Ask(l, 1));
    Reach(s, n, t, Ask(l, 1));
  }

  lemma NewRequest(s: State, t: nat, l: nat)
    requires Reachable(s) && IsThread(s, t) && l !in s.threads[t].held && s.threads[t].pc == Idle
    ensures Find(s.graph, t, l) == |s.graph|
  {
    ReachableInv(s);
    assert LinkOf(s.graph, t, l) == ExpectedOf(s, t, l);
  }

  lemma NotedLast(g: seq<Entry>, t: nat, l: nat, mode: int)
    requires Find(g, t, l) == |g|
    ensures var h := g + [Entry(t, l, Req, mode)];
      Registered(h, t, l) && Caught(h, t, l) == g + [Entry(t, l, Cat, mode)]
  {
    FindIs(g + [Entry(t, l, Req, mode)], t, l, |g|);
  }

  // Thread t locks l while a unit is free.
  lemma Locks(s: State, t: nat, l: nat) returns (n: State)
    requires Reachable(s) && IsThread(s, t) && l < |s.sizes| == |s.free| && s.free[l] > 0
    requires s.threads[t].pc == Idle && l !in s.threads[t].held
    ensures Reachable(n) && n.sizes == s.sizes && n.free == s.free[l := s.free[l] - 1]
    ensures n.threads == s.threads[t := Thread(Idle, s.threads[t].held[l := 1])]
    ensures n.graph == s.graph + [Entry(t, l, Cat, ModeOf(1, s.sizes[l]))]
  {
    hide Reachable, Reports, Registered, Caught, Find;
    NewRequest(s, t, l);
    NotedLast(s.graph, t, l, ModeOf(1, s.sizes[l]));
    var a := Asks(s, t, l);
    var b := After(a, t, Take);
    Reach(a, b, t, Take);
    n := After(b, t, Note);
    Reach(b, n, t, Note);
    assert n.threads == s.threads[t := Thread(Idle, s.threads[t].held[l := 1])];
  }

  // Taking the units of a lock that nobody has, one by one.
  lemma {:induction false} TakesAll(s: State, t: nat) returns (n: State)
    requires Reachable(s) && IsThread(s, t) && s.threads[t].pc.Asking? && s.threads[t].pc.lock < |s.sizes| == |s.free|
    requires s.threads[t].pc.taken + s.free[s.threads[t].pc.lock] >= s.threads[t].pc.units >= s.threads[t].pc.taken
    requires forall v: nat :: IsThread(s, v) && v != t ==> !Collecting(s.threads[v], s.threads[t].pc.lock)
    ensures Reachable(n) && n.sizes == s.sizes && n.graph == s.graph
    ensures var pc := s.threads[t].pc;
      n.threads == s.threads[t := Thread(Asking(pc.lock, pc.units, pc.units), s.threads[t].held)]
      && n.free == s.free[pc.lock := s.free[pc.lock] - (pc.units - pc.taken)]
    decreases s.threads[t].pc.units - s.threads[t].pc.taken
  {
    hide Reachable;
    n := s;
    if s.threads[t].pc.taken < s.threads[t].pc.units {
      var a := After(s, t, Take);
      Reach(s, a, t, Take);
      n := TakesAll(a, t);
    }
    assert n.threads == s.threads[t := n.threads[t]];
  }

  // Posting what is left.
  lemma {:induction false} PostsAll(s: State, t: nat) returns (n: State)
    requires Reachable(s) && IsThread(s, t) && s.threads[t].pc.Giving? && s.threads[t].pc.lock < |s.sizes| == |s.free|
    ensures Reachable(n) && n.sizes == s.sizes && n.graph == s.graph
    ensures var pc := s.threads[t].pc;
      n.threads == s.threads[t := Thread(Idle, s.threads[t].held)]
      && n.free == s.free[pc.lock := s.free[pc.lock] + pc.left]
    decreases s.threads[t].pc.left
  {
    hide Reachable;
    var a := After(s, t, Post);
    Reach(s, a, t, Post);
    n := a;
    if s.threads[t].pc.left > 0 {
      n := PostsAll(a, t);
    }
    assert n.threads == s.threads[t := n.threads[t]];
  }

  // An idle thread can lock what nobody has, for one unit or for all, and then holds it with its entry.
  lemma LockCompletes(s: State, t: nat, l: nat, u: nat) returns (n: State)
    requires Reachable(s) && IsThread(s, t) && l < |s.sizes| == |s.free| && (u == 1 || u == s.sizes[l])
    requires s.free[l] == s.sizes[l] >= 1 && s.threads[t].pc == Idle && l !in s.threads[t].held
    requires forall v: nat :: IsThread(s, v) && v != t ==> !Collecting(s.threads[v], l)
    ensures Reachable(n) && n.sizes == s.sizes && n.free == s.free[l := s.free[l] - u]
    ensures n.threads == s.threads[t := Thread(Idle, s.threads[t].held[l := u])]
    ensures LinkOf(n.graph, t, l) == Holding && LinksKept(s.graph, n.graph, t, l)
  {
    hide Reachable, Reports, Registered, Caught, Required, LinkOf, LinksKept;
    NewRequest(s, t, l);
    NotedLast(s.graph, t, l, ModeOf(u, s.sizes[l]));
    var a := After(s, t, Ask(l, u));
    Reach(s, a, t, Ask(l, u));
    AskRequired(s, t, l, u);
    var b := TakesAll(a, t);
    n := After(b, t, Note);
    Reach(b, n, t, Note);
    assert n.threads == s.threads[t := Thread(Idle, s.threads[t].held[l := u])];
    ThreadLinks(s, n, t, l);
  }

  lemma AskRequired(s: State, t: nat, l: nat, u: nat)
    requires Can(s, t, Ask(l, u))
    ensures After(s, t, Ask(l, u)).graph == s.graph + [Entry(t, l, Req, ModeOf(u, s.sizes[l]))]
  {
    hide Reports;
  }

  // Between reachable states that differ in what one thread holds, one link differs.
  lemma ThreadLinks(s: State, n: State, t: nat, l: nat)
    requires Reachable(s) && Reachable(n) && IsThread(s, t) && |n.threads| == |s.threads|
    requires n.threads == s.threads[t := n.threads[t]]
    requires forall m :: m != l ==> Expected(n.threads[t], m) == Expected(s.threads[t], m)
    ensures LinkOf(n.graph, t, l) == Expected(n.threads[t], l) && LinksKept(s.graph, n.graph, t, l)
  {
    hide Reachable, LinkOf, Expected;
    ReachableInv(s);
    ReachableInv(n);
    InvLinked(s);
    InvLinked(n);
    hide Inv;
    assert LinkOf(n.graph, t, l) == ExpectedOf(n, t, l);
    forall u, m | u != t || m != l
      ensures LinkOf(n.graph, u, m) == LinkOf(s.graph, u, m)
    {
      assert LinkOf(n.graph, u, m) == ExpectedOf(n, u, m) && LinkOf(s.graph, u, m) == ExpectedOf(s, u, m);
    }
  }

  lemma UnlocksHard(s: State, t: nat, l: nat) returns (n: State)
    requires Reachable(s) && Can(s, t, Unlock(l)) && l < |s.sizes|
    requires ModeOf(s.threads[t].held[l], s.sizes[l]) == MODE_HARD
    ensures Reachable(n) && n.sizes == s.sizes && n.free == s.free[l := s.free[l] + s.threads[t].held[l]]
    ensures n.threads == s.threads[t := Thread(Idle, s.threads[t].held - {l})]
  {
    hide Reachable, Registered, Released;
    var a := After(s, t, Unlock(l));
    Reach(s, a, t, Unlock(l));
    n := PostsAll(a, t);
  }

  lemma UnlocksSoft(s: State, t: nat, l: nat) returns (n: State)
    requires Reachable(s) && Can(s, t, Unlock(l)) && l < |s.sizes|
    requires ModeOf(s.threads[t].held[l], s.sizes[l]) != MODE_HARD
    ensures Reachable(n) && n.sizes == s.sizes && n.free == s.free[l := s.free[l] + 1]
    ensures n.threads == s.threads[t := Thread(Idle, s.threads[t].held - {l})]
  {
    hide Reachable, Registered, Released;
    var a := After(s, t, Unlock(l));
    Reach(s, a, t, Unlock(l));
    n := After(a, t, Unnote);
    Reach(a, n, t, Unnote);
  }

  // An idle thread can always unlock what it holds, and all units of it are free again.
  lemma UnlockCompletes(s: State, t: nat, l: nat) returns (n: State)
    requires Reachable(s) && IsThread(s, t) && s.threads[t].pc == Idle && l in s.threads[t].held
    ensures Reachable(n) && n.sizes == s.sizes && l < |s.free|
    ensures n.free == s.free[l := s.free[l] + s.threads[t].held[l]]
    ensures n.threads == s.threads[t := Thread(Idle, s.threads[t].held - {l})]
    ensures LinkOf(n.graph, t, l) == None && LinksKept(s.graph, n.graph, t, l)
  {
    HeldKnown(s, t, l);
    hide Reachable, LinkOf, LinksKept;
    if ModeOf(s.threads[t].held[l], s.sizes[l]) == MODE_HARD {
      n := UnlocksHard(s, t, l);
    } else {
      n := UnlocksSoft(s, t, l);
    }
    ThreadLinks(s, n, t, l);
  }

  lemma HeldKnown(s: State, t: nat, l: nat)
    requires Reachable(s) && IsThread(s, t) && l in s.threads[t].held
    ensures l < |s.sizes| == |s.free| && (s.threads[t].held[l] == 1 || s.threads[t].held[l] == s.sizes[l])
  {
    ReachableInv(s);
    assert ThreadOk(s.threads[t], s.sizes);
  }

  function Start(threads: nat, sizes: seq<nat>): State {
    State(seq(threads, _ => Thread(Idle, map[])), sizes, sizes, [], false)
  }

  lemma Starts(threads: nat, sizes: seq<nat>)
    requires forall l :: 0 <= l < |sizes| ==> sizes[l] == 1 || sizes[l] == PARALLEL_READERS
    ensures Reachable(Start(threads, sizes))
  {
    assert Run([Start(threads, sizes)]);
  }

  // Somebody holds a mutex; two readers of two semaphores then ask for the other one.
  lemma CrossedReaders() returns (s: State)
    ensures Reachable(s) && s.reported == Reports(s.graph)
    ensures s.threads == [Thread(Asking(2, 1, 0), map[1 := 1]), Thread(Asking(1, 1, 0), map[2 := 1]),
                          Thread(Idle, map[0 := 1])]
    ensures s.sizes == [1, 25, 25] && s.free == [0, 24, 24] && |s.graph| == 5 && s.graph[0].mode == MODE_HARD
  {
    hide Reachable, Reports;
    s := Start(3, [1, 25, 25]);
    Starts(3, [1, 25, 25]);
    s := Locks(s, 2, 0);
    s := Locks(s, 0, 1);
    s := Locks(s, 1, 2);
    s := Asks(s, 0, 2);
    s := Asks(s, 1, 1);
  }

  // Two threads, each asking for a lock that the other holds.
  lemma CrossedWaiting(s: State, t: nat, u: nat)
    requires IsThread(s, t) && IsThread(s, u) && s.threads[t].pc.Asking? && s.threads[u].pc.Asking?
    requires s.threads[t].pc.lock in s.threads[u].held && s.threads[u].pc.lock in s.threads[t].held
    ensures WaitingSet(s, {t, u})
  {
    assert t in {t, u} && u in {t, u};
  }

  // Who finds all the units it asks for is in no stuck set.
  lemma FreeNotStuck(s: State, d: set<nat>, t: nat)
    requires Inv(s) && StuckIn(s, d, t)
    ensures s.threads[t].pc.lock < |s.free| && s.free[s.threads[t].pc.lock] < s.threads[t].pc.units
  {
    OwnedAtMost(s, d - {t}, s.threads[t].pc.lock);
  }

  lemma NobodyStuck(s: State, d: set<nat>)
    requires Inv(s) && forall t: nat :: IsThread(s, t) && s.threads[t].pc.Asking? ==> Can(s, t, Take)
    requires forall t: nat :: IsThread(s, t) && s.threads[t].pc.Asking? ==> s.threads[t].pc.units == 1
    ensures !StuckSet(s, d)
  {
    hide Inv;
    if StuckSet(s, d) {
      var t :| t in d;
      assert StuckIn(s, d, t);
      FreeNotStuck(s, d, t);
      assert false;
    }
  }

  // A deadlock is reported although every thread that asks can go on at once.
  lemma FalseReport() returns (s: State)
    ensures Reachable(s) && s.reported && !exists d :: StuckSet(s, d)
    ensures forall t: nat :: IsThread(s, t) && s.threads[t].pc.Asking? ==> Can(s, t, Take)
  {
    hide Reachable, Reports, WaitingSet, StuckSet, Inv, HardInFront;
    s := CrossedReaders();
    ReachableInv(s);
    CrossedWaiting(s, 0, 1);
    ReportsIffWaiting(s);
    FrontHard(s.graph, s, {0, 1});
    forall d: set<nat>
      ensures !StuckSet(s, d)
    {
      NobodyStuck(s, d);
    }
  }

  // Some entry is deadlocked, and the first mode is hard.
  lemma FrontHard(g: seq<Entry>, s: State, d: set<nat>)
    requires Inv(s) && WaitingSet(s, d) && g == s.graph && g != [] && g[0].mode == MODE_HARD
    ensures HardInFront(g)
  {
    hide Inv, WaitingSet, WaitClosed;
    WaitingIsClosed(s, d);
    assert EntriesOf(s, d) <= Deadlocked(g);
    SubsetNonempty(Deadlocked(g));
  }

  // One thread reads four semaphores; two others lock two mutexes in opposite order.
  lemma BehindReaders() returns (s: State)
    ensures Reachable(s) && s.reported == Reports(s.graph)
    ensures s.threads == [Thread(Idle, map[2 := 1, 3 := 1, 4 := 1, 5 := 1]), Thread(Asking(1, 1, 0), map[0 := 1]),
                          Thread(Asking(0, 1, 0), map[1 := 1])]
    ensures s.sizes == [1, 1, 25, 25, 25, 25] && |s.graph| == 8
    ensures forall k :: 0 <= k < 4 ==> s.graph[k].transaction == 0 && s.graph[k].mode == MODE_SOFT
  {
    hide Reachable, Reports;
    s := Start(3, [1, 1, 25, 25, 25, 25]);
    Starts(3, [1, 1, 25, 25, 25, 25]);
    s := Locks(s, 0, 2);
    s := Locks(s, 0, 3);
    s := Locks(s, 0, 4);
    s := Locks(s, 0, 5);
    s := Locks(s, 1, 0);
    s := Locks(s, 2, 1);
    s := Asks(s, 1, 1);
    s := Asks(s, 2, 0);
  }

  // Two threads are stuck for good, and nothing is reported.
  lemma MissedDeadlock() returns (s: State)
    ensures Reachable(s) && !s.reported && StuckSet(s, {1, 2})
  {
    hide Reachable, Reports, WaitingSet, StuckSet, Inv, HardInFront, NoSpare;
    s := BehindReaders();
    ReachableInv(s);
    CrossedWaiting(s, 1, 2);
    WaitingStuckIff(s, {1, 2});
    MutexesNotSpare(s, {1, 2});
    ReportsIffWaiting(s);
    FrontSoft(s);
  }

  // Who asks for all there is has nothing to spare.
  lemma MutexesNotSpare(s: State, d: set<nat>)
    requires Inv(s) && WaitingSet(s, d)
    requires forall t :: t in d ==> IsThread(s, t) && s.threads[t].pc.Asking? && s.threads[t].pc.lock < |s.sizes|
                                    && s.threads[t].pc.units == s.sizes[s.threads[t].pc.lock]
    ensures NoSpare(s, d)
  {
    hide Inv, WaitingSet, OwnedIn;
  }

  lemma FrontSoft(s: State)
    requires Inv(s) && |s.graph| == 8 && IsThread(s, 0) && s.threads[0].pc == Idle
    requires forall k :: 0 <= k < 4 ==> s.graph[k].transaction == 0 && s.graph[k].mode == MODE_SOFT
    ensures !HardInFront(s.graph)
  {
    hide Inv, Linked, WaitClosed;
    InvLinked(s);
    var c := Deadlocked(s.graph);
    forall k: nat | k in c
      ensures 4 <= k < 8
    {
      WaitMember(s.graph, c, k);
      if k < 4 {
        NotDeadlocked(s, c, k);
      }
    }
    FourAtMost(c);
  }

  lemma WaitMember(g: seq<Entry>, c: set<nat>, k: nat)
    requires WaitClosed(g, c) && k in c
    ensures k < |g|
  {
  }

  lemma FourAtMost(c: set<nat>)
    requires forall k :: k in c ==> 4 <= k < 8
    ensures |c| <= 4
  {
    var rest := {4, 5, 6, 7} - c;
    assert c + rest == {4, 5, 6, 7};
  }

  // An idle thread has no request, so nothing it holds is deadlocked.
  lemma NotDeadlocked(s: State, c: set<nat>, k: nat)
    requires Linked(s) && WaitClosed(s.graph, c) && k < |s.graph|
    requires IsThread(s, s.graph[k].transaction) && s.threads[s.graph[k].transaction].pc == Idle
    ensures k !in c
  {
    hide Linked, WaitClosed;
    EntryLink(s, k);
    if k in c {
      var j := Partner(s.graph, c, k);
      EntryLink(s, j);
      assert false;
    }
  }
}
