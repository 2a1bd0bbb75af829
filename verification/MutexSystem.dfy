// Threads that lock and unlock mutexes registered in the lock graph, one step at a time.
module MutexSystem {
  import opened LockGraphs
  import opened GraphLinks
  import opened Lists

  // Where a thread stands inside Lock or UnLock. A semaphore wait, a post and each section between them is a step.
  datatype Phase =
    | LockWaitSelf | LockCheck | LockRefuse | LockPostSelf
    | RequireWait | RequireBody | RequirePost | WaitLock
    | CatchWait | CatchBody | CatchPost
    | UnlockWaitSelf | UnlockCheck | UnlockRefuse | UnlockPostSelf
    | ReleaseWait | ReleaseBody | ReleasePost | PostLock

  datatype Pc = Idle | At(phase: Phase, mutex: nat) | Exited

  datatype Mutex = Mutex(lock: nat, selfLock: nat, lockers: seq<nat>)

  // reported is what the last check of the graph gave.
  datatype State = State(pc: map<nat, Pc>, mutexes: map<nat, Mutex>, graph: seq<Entry>, graphLock: nat, reported: bool)

  ghost predicate Init(s: State) {
    && (forall t :: t in s.pc ==> s.pc[t] == Idle)
    && (forall m :: m in s.mutexes ==> s.mutexes[m] == Mutex(1, 1, []))
    && s.graph == [] && s.graphLock == 1 && !s.reported
  }

  function Goto(s: State, t: nat, phase: Phase): State
    requires t in s.pc && s.pc[t].At?
  {
    s.(pc := s.pc[t := At(phase, s.pc[t].mutex)])
  }

  function Finish(s: State, t: nat): State {
    s.(pc := s.pc[t := Idle])
  }

  function SetMutex(s: State, m: nat, x: Mutex): State {
    s.(mutexes := s.mutexes[m := x])
  }

  // A thread at a wait needs its semaphore; every other step can always be taken.
  predicate Enabled(s: State, t: nat) {
    && t in s.pc && s.pc[t].At? && s.pc[t].mutex in s.mutexes
    && match s.pc[t].phase
       case LockWaitSelf | UnlockWaitSelf => s.mutexes[s.pc[t].mutex].selfLock > 0
       case RequireWait | CatchWait | ReleaseWait => s.graphLock > 0
       case WaitLock => s.mutexes[s.pc[t].mutex].lock > 0
       case _ => true
  }

  // The next step of a thread inside Lock or UnLock.
  ghost function Advance(s: State, t: nat): State
    requires Enabled(s, t)
  {
    var m := s.pc[t].mutex;
    var x := s.mutexes[m];
    match s.pc[t].phase
    case LockWaitSelf => Goto(SetMutex(s, m, x.(selfLock := x.selfLock - 1)), t, LockCheck)
    case LockCheck =>
      if t in x.lockers then Goto(s, t, LockRefuse)
      else Goto(SetMutex(s, m, x.(lockers := x.lockers + [t])), t, LockPostSelf)
    case LockRefuse => Finish(SetMutex(s, m, x.(selfLock := x.selfLock + 1)), t)
    case LockPostSelf => Goto(SetMutex(s, m, x.(selfLock := x.selfLock + 1)), t, RequireWait)
    case RequireWait => Goto(s.(graphLock := s.graphLock - 1), t, RequireBody)
    case RequireBody =>
      var g := Required(s.graph, t, m, MODE_HARD);
      Goto(s.(graph := g, reported := Reports(g)), t, RequirePost)
    case RequirePost => Goto(s.(graphLock := s.graphLock + 1), t, WaitLock)
    case WaitLock => Goto(SetMutex(s, m, x.(lock := x.lock - 1)), t, CatchWait)
    case CatchWait => Goto(s.(graphLock := s.graphLock - 1), t, CatchBody)
    case CatchBody =>
      if Registered(s.graph, t, m) then
        var g := Caught(s.graph, t, m);
        Goto(s.(graph := g, reported := Reports(g)), t, CatchPost)
      else
        s.(pc := s.pc[t := Exited])
    case CatchPost => Finish(s.(graphLock := s.graphLock + 1), t)
    case UnlockWaitSelf => Goto(SetMutex(s, m, x.(selfLock := x.selfLock - 1)), t, UnlockCheck)
    case UnlockCheck =>
      if t in x.lockers then Goto(SetMutex(s, m, x.(lockers := RemoveFirst(x.lockers, t))), t, UnlockPostSelf)
      else Goto(s, t, UnlockRefuse)
    case UnlockRefuse => Finish(SetMutex(s, m, x.(selfLock := x.selfLock + 1)), t)
    case UnlockPostSelf => Goto(SetMutex(s, m, x.(selfLock := x.selfLock + 1)), t, ReleaseWait)
    case ReleaseWait => Goto(s.(graphLock := s.graphLock - 1), t, ReleaseBody)
    case ReleaseBody =>
      if Registered(s.graph, t, m) then Goto(s.(graph := Released(s.graph, t, m)), t, ReleasePost)
      else s.(pc := s.pc[t := Exited])
    case ReleasePost => Goto(s.(graphLock := s.graphLock + 1), t, PostLock)
    case PostLock => Finish(SetMutex(s, m, x.(lock := x.lock + 1)), t)
  }

  function Call(s: State, t: nat, phase: Phase, m: nat): State {
    s.(pc := s.pc[t := At(phase, m)])
  }

  // An idle thread may call Lock or UnLock on any mutex, whether it holds it or not.
  ghost predicate Begins(s: State, n: State, t: nat) {
    && t in s.pc && s.pc[t] == Idle
    && exists m :: m in s.mutexes && (n == Call(s, t, LockWaitSelf, m) || n == Call(s, t, UnlockWaitSelf, m))
  }

  ghost predicate Moves(s: State, n: State, t: nat) {
    t in s.pc && (Begins(s, n, t) || (Enabled(s, t) && n == Advance(s, t)))
  }

  ghost predicate Next(s: State, n: State) {
    exists t :: Moves(s, n, t)
  }

  ghost predicate Run(run: seq<State>) {
    && |run| > 0 && Init(run[0])
    && forall i :: 0 <= i < |run| - 1 ==> Next(run[i], run[i + 1])
  }

  // ---- what one thread has to do with one mutex ----

  predicate Inside(s: State, t: nat, m: nat) {
    t in s.pc && s.pc[t].At? && s.pc[t].mutex == m
  }

  predicate Listed(s: State, t: nat, m: nat) {
    m in s.mutexes && t in s.mutexes[m].lockers
  }

  // The graph entry a thread has for a mutex.
  function Expected(s: State, t: nat, m: nat): Link {
    var settled := if Listed(s, t, m) then Holding else None;
    if !Inside(s, t, m) then settled else
    match s.pc[t].phase
    case LockPostSelf | RequireWait | RequireBody => None
    case RequirePost | WaitLock | CatchWait | CatchBody => Requesting
    case CatchPost => Holding
    case UnlockPostSelf | ReleaseWait | ReleaseBody => Holding
    case ReleasePost | PostLock => None
    case _ => settled
  }

  // Whether the thread has taken the unit of the mutex's lock semaphore.
  predicate Owns(s: State, t: nat, m: nat) {
    if !Inside(s, t, m) then Listed(s, t, m) else
    match s.pc[t].phase
    case LockPostSelf | RequireWait | RequireBody | RequirePost | WaitLock => false
    case CatchWait | CatchBody | CatchPost => true
    case UnlockPostSelf | ReleaseWait | ReleaseBody | ReleasePost | PostLock => true
    case _ => Listed(s, t, m)
  }

  // From being listed to being unlisted.
  predicate ListedAsItShould(s: State, t: nat, m: nat) {
    !Inside(s, t, m) ||
    match s.pc[t].phase
    case LockRefuse | LockPostSelf | RequireWait | RequireBody | RequirePost | WaitLock
    | CatchWait | CatchBody | CatchPost => Listed(s, t, m)
    case UnlockRefuse | UnlockPostSelf | ReleaseWait | ReleaseBody | ReleasePost | PostLock => !Listed(s, t, m)
    case _ => true
  }

  predicate InSelfSection(s: State, t: nat, m: nat) {
    Inside(s, t, m) &&
    match s.pc[t].phase
    case LockCheck | LockRefuse | LockPostSelf | UnlockCheck | UnlockRefuse | UnlockPostSelf => true
    case _ => false
  }

  predicate InGraphSection(s: State, t: nat) {
    t in s.pc && s.pc[t].At? &&
    match s.pc[t].phase
    case RequireBody | RequirePost | CatchBody | CatchPost | ReleaseBody | ReleasePost => true
    case _ => false
  }

  function Owners(s: State, m: nat): set<nat> {
    set t | t in s.pc && Owns(s, t, m)
  }

  function SelfSection(s: State, m: nat): set<nat> {
    set t | t in s.pc && InSelfSection(s, t, m)
  }

  function GraphSection(s: State): set<nat> {
    set t | t in s.pc && InGraphSection(s, t)
  }

  // ---- the invariant ----

  ghost predicate PairOk(s: State, t: nat, m: nat) {
    LinkOf(s.graph, t, m) == Expected(s, t, m) && ListedAsItShould(s, t, m)
  }

  ghost predicate GraphOk(s: State) {
    && OneEntryEach(s.graph) && AllHard(s.graph)
    && forall k :: 0 <= k < |s.graph| ==> s.graph[k].transaction in s.pc && s.graph[k].lock in s.mutexes
  }

  ghost predicate MutexOk(s: State, m: nat)
    requires m in s.mutexes
  {
    && Distinct(s.mutexes[m].lockers)
    && (forall t :: t in s.mutexes[m].lockers ==> t in s.pc)
    && |Owners(s, m)| + s.mutexes[m].lock == 1
    && |SelfSection(s, m)| + s.mutexes[m].selfLock == 1
  }

  ghost predicate ThreadOk(s: State, t: nat)
    requires t in s.pc
  {
    s.pc[t] != Exited && (s.pc[t].At? ==> s.pc[t].mutex in s.mutexes)
  }

  ghost predicate Inv(s: State) {
    && GraphOk(s)
    && (forall t :: t in s.pc ==> ThreadOk(s, t))
    && (forall m :: m in s.mutexes ==> MutexOk(s, m))
    && (forall t, m :: t in s.pc && m in s.mutexes ==> PairOk(s, t, m))
    && |GraphSection(s)| + s.graphLock == 1
  }

  lemma InitInv(s: State)
    requires Init(s)
    ensures Inv(s)
  {
    forall m | m in s.mutexes
      ensures MutexOk(s, m)
    {
      assert Owners(s, m) == {} && SelfSection(s, m) == {};
    }
    assert GraphSection(s) == {};
  }

  // ---- one step keeps the invariant ----

  // Between s and n, thread t has moved with respect to mutex m, and nothing else.
  ghost predicate OnlyMoved(s: State, n: State, t: nat, m: nat) {
    && n.pc.Keys == s.pc.Keys && n.mutexes.Keys == s.mutexes.Keys && t in s.pc && m in s.mutexes
    && (s.pc[t].At? ==> s.pc[t].mutex == m) && (n.pc[t].At? ==> n.pc[t].mutex == m) && n.pc[t] != Exited
    && (forall u :: u in s.pc && u != t ==> n.pc[u] == s.pc[u])
    && (forall l :: l in s.mutexes && l != m ==> n.mutexes[l] == s.mutexes[l])
    && (forall u :: u != t ==> (u in n.mutexes[m].lockers <==> u in s.mutexes[m].lockers))
  }

  // Each semaphore has changed by what the thread took or gave.
  ghost predicate Balanced(s: State, n: State, t: nat, m: nat)
    requires OnlyMoved(s, n, t, m)
  {
    && n.mutexes[m].lock - s.mutexes[m].lock == Unit(Owns(s, t, m)) - Unit(Owns(n, t, m))
    && n.mutexes[m].selfLock - s.mutexes[m].selfLock == Unit(InSelfSection(s, t, m)) - Unit(InSelfSection(n, t, m))
    && n.graphLock - s.graphLock == Unit(InGraphSection(s, t)) - Unit(InGraphSection(n, t))
  }

  lemma OtherMutex(s: State, n: State, t: nat, m: nat, l: nat)
    requires Inv(s) && OnlyMoved(s, n, t, m) && l in s.mutexes && l != m
    ensures MutexOk(n, l)
  {
    assert MutexOk(s, l);
    hide Inv;
    forall u | u in s.pc
      ensures Owns(n, u, l) == Owns(s, u, l) && InSelfSection(n, u, l) == InSelfSection(s, u, l)
    {
    }
    hide Owns, InSelfSection;
    assert Owners(n, l) == Owners(s, l);
    assert SelfSection(n, l) == SelfSection(s, l);
  }

  lemma ThisMutex(s: State, n: State, t: nat, m: nat)
    requires Inv(s) && OnlyMoved(s, n, t, m) && Balanced(s, n, t, m) && Distinct(n.mutexes[m].lockers)
    ensures MutexOk(n, m)
  {
    assert MutexOk(s, m);
    forall u | u != t
      ensures u in Owners(n, m) <==> u in Owners(s, m)
      ensures u in SelfSection(n, m) <==> u in SelfSection(s, m)
    {
    }
    CountsDiffer(Owners(s, m), Owners(n, m), t);
    CountsDiffer(SelfSection(s, m), SelfSection(n, m), t);
    forall u | u in n.mutexes[m].lockers
      ensures u in n.pc
    {
    }
  }

  lemma OtherPair(s: State, n: State, t: nat, m: nat, u: nat, l: nat)
    requires PairOk(s, u, l) && OnlyMoved(s, n, t, m) && LinksKept(s.graph, n.graph, t, m)
    requires u in s.pc && l in s.mutexes && (u != t || l != m)
    ensures PairOk(n, u, l)
  {
    hide LinkOf;
  }

  lemma GraphCount(s: State, n: State, t: nat, m: nat)
    requires OnlyMoved(s, n, t, m) && Balanced(s, n, t, m) && |GraphSection(s)| + s.graphLock == 1
    ensures |GraphSection(n)| + n.graphLock == 1
  {
    CountsDiffer(GraphSection(s), GraphSection(n), t);
  }

  lemma Preserved(s: State, n: State, t: nat, m: nat)
    requires Inv(s) && OnlyMoved(s, n, t, m) && Balanced(s, n, t, m)
    requires Distinct(n.mutexes[m].lockers) && GraphOk(n) && PairOk(n, t, m)
    requires LinksKept(s.graph, n.graph, t, m)
    ensures Inv(n)
  {
    hide LinkOf, GraphOk, MutexOk, PairOk, LinksKept, Balanced;
    forall l | l in n.mutexes
      ensures MutexOk(n, l)
    {
      if l == m {
        ThisMutex(s, n, t, m);
      } else {
        OtherMutex(s, n, t, m, l);
      }
    }
    forall u | u in n.pc
      ensures ThreadOk(n, u)
    {
      assert ThreadOk(s, u);
    }
    forall u, l | u in n.pc && l in n.mutexes
      ensures PairOk(n, u, l)
    {
      if u != t || l != m {
        OtherPair(s, n, t, m, u, l);
      }
    }
    GraphCount(s, n, t, m);
  }

  // What a step does at the thread's own mutex.
  ghost predicate Moved(s: State, n: State, t: nat, m: nat) {
    && OnlyMoved(s, n, t, m) && Balanced(s, n, t, m)
    && Distinct(n.mutexes[m].lockers) && PairOk(n, t, m) && LinksKept(s.graph, n.graph, t, m)
  }

  lemma EnterSelf(s: State, t: nat)
    requires Enabled(s, t) && Distinct(s.mutexes[s.pc[t].mutex].lockers) && PairOk(s, t, s.pc[t].mutex)
    requires s.pc[t].phase in {LockWaitSelf, UnlockWaitSelf}
    ensures Moved(s, Advance(s, t), t, s.pc[t].mutex) && Advance(s, t).graph == s.graph
  {
    hide LinkOf, RemoveFirst, Distinct;
  }

  lemma LeaveSelf(s: State, t: nat)
    requires Enabled(s, t) && Distinct(s.mutexes[s.pc[t].mutex].lockers) && PairOk(s, t, s.pc[t].mutex)
    requires s.pc[t].phase in {LockRefuse, LockPostSelf, UnlockRefuse, UnlockPostSelf}
    ensures Moved(s, Advance(s, t), t, s.pc[t].mutex) && Advance(s, t).graph == s.graph
  {
    hide LinkOf, RemoveFirst, Distinct;
  }

  lemma EnterGraph(s: State, t: nat)
    requires Enabled(s, t) && Distinct(s.mutexes[s.pc[t].mutex].lockers) && PairOk(s, t, s.pc[t].mutex)
    requires s.pc[t].phase in {RequireWait, CatchWait, ReleaseWait}
    ensures Moved(s, Advance(s, t), t, s.pc[t].mutex) && Advance(s, t).graph == s.graph
  {
    hide LinkOf, RemoveFirst, Distinct;
  }

  lemma LeaveGraph(s: State, t: nat)
    requires Enabled(s, t) && Distinct(s.mutexes[s.pc[t].mutex].lockers) && PairOk(s, t, s.pc[t].mutex)
    requires s.pc[t].phase in {RequirePost, CatchPost, ReleasePost}
    ensures Moved(s, Advance(s, t), t, s.pc[t].mutex) && Advance(s, t).graph == s.graph
  {
    hide LinkOf, RemoveFirst, Distinct;
  }

  lemma LockStep(s: State, t: nat)
    requires Enabled(s, t) && Distinct(s.mutexes[s.pc[t].mutex].lockers) && PairOk(s, t, s.pc[t].mutex)
    requires s.pc[t].phase in {WaitLock, PostLock}
    ensures Moved(s, Advance(s, t), t, s.pc[t].mutex) && Advance(s, t).graph == s.graph
  {
    hide LinkOf, RemoveFirst, Distinct;
  }

  lemma CheckStep(s: State, t: nat)
    requires Enabled(s, t) && Distinct(s.mutexes[s.pc[t].mutex].lockers) && PairOk(s, t, s.pc[t].mutex)
    requires s.pc[t].phase in {LockCheck, UnlockCheck}
    ensures Moved(s, Advance(s, t), t, s.pc[t].mutex) && Advance(s, t).graph == s.graph
  {
    hide LinkOf, RemoveFirst;
    RemoveFirstIs(s.mutexes[s.pc[t].mutex].lockers, t);
  }

  // The three changes of the graph; where a lookup could end the process, the entry is there.
  lemma GraphStep(s: State, t: nat)
    requires Enabled(s, t) && Distinct(s.mutexes[s.pc[t].mutex].lockers) && PairOk(s, t, s.pc[t].mutex)
    requires s.pc[t].phase in {RequireBody, CatchBody, ReleaseBody} && OneEntryEach(s.graph)
    ensures s.pc[t].phase in {CatchBody, ReleaseBody} ==> Registered(s.graph, t, s.pc[t].mutex)
    ensures Moved(s, Advance(s, t), t, s.pc[t].mutex) && OneEntryEach(Advance(s, t).graph)
  {
    hide Reports, Erased, LinksKept, OneEntryEach, Find;
    var m := s.pc[t].mutex;
    match s.pc[t].phase {
      case RequireBody =>
        RequireLink(s.graph, t, m, MODE_HARD);
      case CatchBody =>
        CatchLink(s.graph, t, m);
      case ReleaseBody =>
        ReleaseLink(s.graph, t, m);
    }
  }

  lemma GraphEntries(s: State, t: nat)
    requires Enabled(s, t) && GraphOk(s) && OneEntryEach(Advance(s, t).graph)
    requires s.pc[t].phase in {CatchBody, ReleaseBody} ==> Registered(s.graph, t, s.pc[t].mutex)
    requires s.pc[t].phase in {RequireBody, CatchBody, ReleaseBody}
    ensures GraphOk(Advance(s, t))
  {
    hide Reports, Erased, Find, OneEntryEach;
    var m, n := s.pc[t].mutex, Advance(s, t);
    if s.pc[t].phase == ReleaseBody {
      forall k | 0 <= k < |n.graph|
        ensures n.graph[k].mode == MODE_HARD && n.graph[k].transaction in n.pc && n.graph[k].lock in n.mutexes
      {
        var i := ErasedAt(s.graph, Find(s.graph, t, m), k);
      }
    }
  }

  lemma GraphSame(s: State, n: State)
    requires GraphOk(s) && n.graph == s.graph && n.pc.Keys == s.pc.Keys && n.mutexes.Keys == s.mutexes.Keys
    ensures GraphOk(n)
  {
  }

  lemma StepMoves(s: State, t: nat)
    requires Inv(s) && Enabled(s, t)
    ensures Moved(s, Advance(s, t), t, s.pc[t].mutex) && GraphOk(Advance(s, t))
  {
    var m, n := s.pc[t].mutex, Advance(s, t);
    assert PairOk(s, t, m) && MutexOk(s, m);
    assert GraphOk(s);
    hide Inv, Advance, PairOk, Balanced, LinksKept, Enabled;
    if s.pc[t].phase in {RequireBody, CatchBody, ReleaseBody} {
      GraphStep(s, t);
      GraphEntries(s, t);
    } else {
      match s.pc[t].phase {
        case LockCheck | UnlockCheck => CheckStep(s, t);
        case LockWaitSelf | UnlockWaitSelf => EnterSelf(s, t);
        case LockRefuse | LockPostSelf | UnlockRefuse | UnlockPostSelf => LeaveSelf(s, t);
        case RequireWait | CatchWait | ReleaseWait => EnterGraph(s, t);
        case RequirePost | CatchPost | ReleasePost => LeaveGraph(s, t);
        case _ => LockStep(s, t);
      }
      GraphSame(s, n);
    }
  }

  lemma AdvanceInv(s: State, t: nat)
    requires Inv(s) && Enabled(s, t)
    ensures Inv(Advance(s, t))
  {
    StepMoves(s, t);
    hide Inv, Advance;
    Preserved(s, Advance(s, t), t, s.pc[t].mutex);
  }

  lemma CallStep(s: State, t: nat, phase: Phase, m: nat)
    requires t in s.pc && s.pc[t] == Idle && m in s.mutexes && phase in {LockWaitSelf, UnlockWaitSelf}
    requires Distinct(s.mutexes[m].lockers) && PairOk(s, t, m)
    ensures Moved(s, Call(s, t, phase, m), t, m)
  {
    hide LinkOf;
  }

  lemma CallInv(s: State, t: nat, phase: Phase, m: nat)
    requires Inv(s) && t in s.pc && s.pc[t] == Idle && m in s.mutexes && phase in {LockWaitSelf, UnlockWaitSelf}
    ensures Inv(Call(s, t, phase, m))
  {
    assert PairOk(s, t, m) && MutexOk(s, m);
    assert GraphOk(s);
    hide Inv, PairOk, Balanced, LinksKept;
    CallStep(s, t, phase, m);
    GraphSame(s, Call(s, t, phase, m));
    Preserved(s, Call(s, t, phase, m), t, m);
  }

  lemma NextInv(s: State, n: State, t: nat)
    requires Inv(s) && Moves(s, n, t)
    ensures Inv(n)
  {
    hide Advance, Inv, Enabled;
    if Begins(s, n, t) {
      var m :| m in s.mutexes && (n == Call(s, t, LockWaitSelf, m) || n == Call(s, t, UnlockWaitSelf, m));
      CallInv(s, t, n.pc[t].phase, m);
    } else {
      AdvanceInv(s, t);
    }
  }

  lemma RunStep(run: seq<State>, i: nat) returns (t: nat)
    requires Run(run) && i + 1 < |run|
    ensures Moves(run[i], run[i + 1], t)
  {
    hide Moves;
    assert Next(run[i], run[i + 1]);
    t :| Moves(run[i], run[i + 1], t);
  }

  lemma {:induction false} RunInv(run: seq<State>, i: nat)
    requires Run(run) && i < |run|
    ensures Inv(run[i])
  {
    if i == 0 {
      InitInv(run[0]);
    } else {
      hide Inv, Moves;
      RunInv(run, i - 1);
      var t := RunStep(run, i - 1);
      NextInv(run[i - 1], run[i], t);
    }
  }
}
