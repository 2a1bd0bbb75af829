// Threads that read and write under one counting semaphore of the lock library, one step at a time.
module SemaphoreSystem {
  import opened LockGraphs
  import opened GraphLinks
  import opened Lists

  const PARALLEL_READERS: nat := 25

  // The semaphore's own identity in the lock graph.
  const LOCK: nat := 0

  // Where a thread stands inside LockRead (R), UnLockRead (Ur), LockWrite (W) or UnLockWrite (Uw).
  datatype Phase =
    | RWaitSelf | RCheck | RRefuse | RPost(nested: bool)
    | RReqWait | RReqBody | RReqPost | RWaitLock | RCatWait | RCatBody | RCatPost
    | UrWaitSelf | UrCheck | UrRefuse | UrPost(nested: bool) | UrGive | UrRelWait | UrRelBody | UrRelPost
    | WWaitSelf | WCheck | WRefuse | WPostSelf
    | WReqWait | WReqBody | WReqPost | WWaitWrite | WCollect(taken: nat) | WCatWait | WCatBody | WCatPost
    | UwWaitSelf | UwCheck | UwRefuse | UwPostSelf | UwRelWait | UwRelBody | UwRelPost | UwGive(given: nat)

  datatype Pc = Idle | At(phase: Phase) | Exited

  // nested (a history variable) holds the threads whose last read began inside their own write section; leaked counts
  // the units that were posted without having been taken.
  datatype State = State(pc: seq<Pc>, lock: nat, selfLock: nat, writeLock: nat, readers: seq<nat>, writers: seq<nat>,
                         graph: seq<Entry>, graphLock: nat, nested: set<nat>, leaked: nat)

  ghost predicate Init(s: State) {
    && (forall t :: 0 <= t < |s.pc| ==> s.pc[t] == Idle)
    && s.lock == PARALLEL_READERS && s.selfLock == 1 && s.writeLock == 1 && s.graphLock == 1
    && s.readers == [] && s.writers == [] && s.graph == [] && s.nested == {} && s.leaked == 0
  }

  function Goto(s: State, t: nat, phase: Phase): State
    requires t < |s.pc|
  {
    s.(pc := s.pc[t := At(phase)])
  }

  function Finish(s: State, t: nat): State
    requires t < |s.pc|
  {
    s.(pc := s.pc[t := Idle])
  }

  predicate Enabled(s: State, t: nat) {
    && t < |s.pc| && s.pc[t].At?
    && match s.pc[t].phase
       case RWaitSelf | UrWaitSelf | WWaitSelf | UwWaitSelf => s.selfLock > 0
       case RReqWait | RCatWait | UrRelWait | WReqWait | WCatWait | UwRelWait => s.graphLock > 0
       case RWaitLock => s.lock > 0
       case WWaitWrite => s.writeLock > 0
       case WCollect(i) => i < PARALLEL_READERS ==> s.lock > 0
       case _ => true
  }

  ghost function Advance(s: State, t: nat): State
    requires Enabled(s, t)
  {
    match s.pc[t].phase
    case RWaitSelf | UrWaitSelf | WWaitSelf | UwWaitSelf => Enter(s, t)
    case RCheck | UrCheck | WCheck | UwCheck => Check(s, t)
    case RRefuse | UrRefuse | WRefuse | UwRefuse => Finish(s.(selfLock := s.selfLock + 1), t)
    case RPost(nested) => AfterPost(s, t, nested, RReqWait)
    case UrPost(nested) => AfterPost(s, t, nested, UrGive)
    case WPostSelf => AfterPost(s, t, false, WReqWait)
    case UwPostSelf => AfterPost(s, t, false, UwRelWait)
    case RReqWait => Goto(s.(graphLock := s.graphLock - 1), t, RReqBody)
    case RReqBody => Goto(s.(graph := Required(s.graph, t, LOCK, MODE_SOFT)), t, RReqPost)
    case RReqPost => Goto(s.(graphLock := s.graphLock + 1), t, RWaitLock)
    case RWaitLock => Goto(s.(lock := s.lock - 1), t, RCatWait)
    case RCatWait => Goto(s.(graphLock := s.graphLock - 1), t, RCatBody)
    case RCatBody => Catch(s, t, RCatPost)
    case UrGive =>
      Goto(s.(lock := s.lock + 1, leaked := s.leaked + if t in s.nested then 1 else 0), t, UrRelWait)
    case UrRelWait => Goto(s.(graphLock := s.graphLock - 1), t, UrRelBody)
    case UrRelBody => Release(s, t, UrRelPost)
    case WReqWait => Goto(s.(graphLock := s.graphLock - 1), t, WReqBody)
    case WReqBody => Goto(s.(graph := Required(s.graph, t, LOCK, MODE_HARD)), t, WReqPost)
    case WReqPost => Goto(s.(graphLock := s.graphLock + 1), t, WWaitWrite)
    case WWaitWrite => Goto(s.(writeLock := s.writeLock - 1), t, WCollect(0))
    case WCollect(i) =>
      if i < PARALLEL_READERS then Goto(s.(lock := s.lock - 1), t, WCollect(i + 1))
      else Goto(s.(writeLock := s.writeLock + 1), t, WCatWait)
    case WCatWait => Goto(s.(graphLock := s.graphLock - 1), t, WCatBody)
    case WCatBody => Catch(s, t, WCatPost)
    case UwRelWait => Goto(s.(graphLock := s.graphLock - 1), t, UwRelBody)
    case UwRelBody => Release(s, t, UwRelPost)
    case UwRelPost => Goto(s.(graphLock := s.graphLock + 1), t, UwGive(0))
    case UwGive(i) =>
      if i < PARALLEL_READERS then Goto(s.(lock := s.lock + 1), t, UwGive(i + 1)) else Finish(s, t)
    case RCatPost | UrRelPost | WCatPost => Finish(s.(graphLock := s.graphLock + 1), t)
  }

  function Enter(s: State, t: nat): State
    requires Enabled(s, t) && s.pc[t].phase in {RWaitSelf, UrWaitSelf, WWaitSelf, UwWaitSelf}
  {
    var n := s.(selfLock := s.selfLock - 1);
    match s.pc[t].phase
    case RWaitSelf => Goto(n, t, RCheck)
    case UrWaitSelf => Goto(n, t, UrCheck)
    case WWaitSelf => Goto(n, t, WCheck)
    case UwWaitSelf => Goto(n, t, UwCheck)
  }

  // The look into the two lists, and the change of one.
  function Check(s: State, t: nat): State
    requires t < |s.pc| && s.pc[t].At? && s.pc[t].phase in {RCheck, UrCheck, WCheck, UwCheck}
  {
    var r, w := t in s.readers, t in s.writers;
    match s.pc[t].phase
    case RCheck =>
      if r then Goto(s, t, RRefuse)
      else Goto(s.(readers := s.readers + [t], nested := if w then s.nested + {t} else s.nested - {t}), t, RPost(w))
    case UrCheck =>
      if !r then Goto(s, t, UrRefuse) else Goto(s.(readers := RemoveFirst(s.readers, t)), t, UrPost(w))
    case WCheck =>
      if r || w then Goto(s, t, WRefuse) else Goto(s.(writers := s.writers + [t]), t, WPostSelf)
    case UwCheck =>
      if !w then Goto(s, t, UwRefuse) else Goto(s.(writers := RemoveFirst(s.writers, t)), t, UwPostSelf)
  }

  function AfterPost(s: State, t: nat, done: bool, phase: Phase): State
    requires t < |s.pc|
  {
    var n := s.(selfLock := s.selfLock + 1);
    if done then Finish(n, t) else Goto(n, t, phase)
  }

  function Catch(s: State, t: nat, phase: Phase): State
    requires t < |s.pc|
  {
    if Registered(s.graph, t, LOCK) then Goto(s.(graph := Caught(s.graph, t, LOCK)), t, phase)
    else s.(pc := s.pc[t := Exited])
  }

  function Release(s: State, t: nat, phase: Phase): State
    requires t < |s.pc|
  {
    if Registered(s.graph, t, LOCK) then Goto(s.(graph := Released(s.graph, t, LOCK)), t, phase)
    else s.(pc := s.pc[t := Exited])
  }

  // An idle thread may call any of the four operations, in any order.
  predicate Begins(s: State, n: State, t: nat) {
    t < |s.pc| && s.pc[t] == Idle
    && (n == Goto(s, t, RWaitSelf) || n == Goto(s, t, UrWaitSelf)
        || n == Goto(s, t, WWaitSelf) || n == Goto(s, t, UwWaitSelf))
  }

  // No thread moves after the process has exited.
  ghost predicate Moves(s: State, n: State, t: nat) {
    && (forall u :: 0 <= u < |s.pc| ==> s.pc[u] != Exited)
    && (Begins(s, n, t) || (Enabled(s, t) && n == Advance(s, t)))
  }

  ghost predicate Next(s: State, n: State) {
    exists t :: Moves(s, n, t)
  }

  ghost predicate Run(run: seq<State>) {
    |run| > 0 && Init(run[0]) && forall i :: 0 <= i < |run| - 1 ==> Next(run[i], run[i + 1])
  }

  // ---- what a thread owns ----

  function SettledUnits(s: State, t: nat): nat {
    if t in s.writers then PARALLEL_READERS else if t in s.readers && t !in s.nested then 1 else 0
  }

  // The units of the semaphore a thread has taken and not given back.
  function Units(s: State, t: nat): int
    requires t < |s.pc|
  {
    match s.pc[t]
    case Idle => SettledUnits(s, t)
    case Exited => 0
    case At(phase) =>
      match phase
      case RPost(nested) => if nested then PARALLEL_READERS else 0
      case RReqWait | RReqBody | RReqPost | RWaitLock => 0
      case RCatWait | RCatBody | RCatPost => 1
      case UrPost(nested) => if nested then PARALLEL_READERS else if t in s.nested then 0 else 1
      case UrGive => if t in s.nested then 0 else 1
      case UrRelWait | UrRelBody | UrRelPost => 0
      case WPostSelf | WReqWait | WReqBody | WReqPost | WWaitWrite => 0
      case WCollect(i) => i
      case WCatWait | WCatBody | WCatPost => PARALLEL_READERS
      case UwPostSelf | UwRelWait | UwRelBody | UwRelPost => PARALLEL_READERS
      case UwGive(i) => PARALLEL_READERS - i
      case _ => SettledUnits(s, t)
  }

  function UnitsUpTo(s: State, k: nat): int
    requires k <= |s.pc|
  {
    if k == 0 then 0 else UnitsUpTo(s, k - 1) + Units(s, k - 1)
  }

  function Owned(s: State): int {
    UnitsUpTo(s, |s.pc|)
  }

  function SettledLink(s: State, t: nat): Link {
    if t in s.writers || (t in s.readers && t !in s.nested) then Holding else None
  }

  // What the lists, the history and the graph say of a thread at each phase.
  predicate ThreadOk(s: State, t: nat)
    requires t < |s.pc|
  {
    var r, w, nest, link := t in s.readers, t in s.writers, t in s.nested, LinkOf(s.graph, t, LOCK);
    var settled := link == SettledLink(s, t) && (r && w ==> nest);
    match s.pc[t]
    case Idle => settled
    case Exited => !r && !w && nest && link == None
    case At(phase) =>
      match phase
      case RRefuse => settled && r
      case UrRefuse => settled && !r
      case WRefuse => settled && (r || w)
      case UwRefuse => settled && !w
      case RPost(true) => r && w && nest && link == Holding
      case RPost(false) | RReqWait | RReqBody => r && !w && !nest && link == None
      case RReqPost | RWaitLock | RCatWait | RCatBody => r && !w && !nest && link == Requesting
      case RCatPost => r && !w && !nest && link == Holding
      case UrPost(true) => !r && w && link == Holding
      case UrPost(false) | UrGive | UrRelWait | UrRelBody => !r && !w && link == if nest then None else Holding
      case UrRelPost => !r && !w && !nest && link == None
      case WPostSelf | WReqWait | WReqBody => !r && w && link == None
      case WReqPost | WWaitWrite | WCatWait | WCatBody => !r && w && link == Requesting
      case WCollect(i) => !r && w && link == Requesting && i <= PARALLEL_READERS
      case WCatPost => !r && w && link == Holding
      case UwPostSelf | UwRelWait | UwRelBody => !w && (r ==> nest) && link == Holding
      case UwRelPost => !w && (r ==> nest) && link == None
      case UwGive(i) => !w && (r ==> nest) && link == None && i <= PARALLEL_READERS
      case _ => settled
  }

  predicate InSelfSection(s: State, t: nat)
    requires t < |s.pc|
  {
    s.pc[t].At? &&
    match s.pc[t].phase
    case RCheck | RRefuse | RPost(_) | UrCheck | UrRefuse | UrPost(_) => true
    case WCheck | WRefuse | WPostSelf | UwCheck | UwRefuse | UwPostSelf => true
    case _ => false
  }

  // A process that exits does so inside the section.
  predicate InGraphSection(s: State, t: nat)
    requires t < |s.pc|
  {
    s.pc[t] == Exited || (s.pc[t].At? &&
    match s.pc[t].phase
    case RReqBody | RReqPost | RCatBody | RCatPost | UrRelBody | UrRelPost => true
    case WReqBody | WReqPost | WCatBody | WCatPost | UwRelBody | UwRelPost => true
    case _ => false)
  }

  predicate Collecting(s: State, t: nat)
    requires t < |s.pc|
  {
    s.pc[t].At? && s.pc[t].phase.WCollect?
  }

  // A thread that has posted a unit it did not take, and will find no entry of its own to release.
  predicate Leaking(s: State, t: nat)
    requires t < |s.pc|
  {
    t in s.nested && (s.pc[t] == Exited || (s.pc[t].At? && s.pc[t].phase in {UrRelWait, UrRelBody}))
  }

  function SelfSection(s: State): set<nat> {
    set t | 0 <= t < |s.pc| && InSelfSection(s, t)
  }

  function GraphSection(s: State): set<nat> {
    set t | 0 <= t < |s.pc| && InGraphSection(s, t)
  }

  function Collectors(s: State): set<nat> {
    set t | 0 <= t < |s.pc| && Collecting(s, t)
  }

  function Leakers(s: State): set<nat> {
    set t | 0 <= t < |s.pc| && Leaking(s, t)
  }

  // ---- the invariant ----

  ghost predicate ListsOk(s: State) {
    Distinct(s.readers) && Distinct(s.writers) && OneEntryEach(s.graph)
  }

  ghost predicate Inv(s: State) {
    && ListsOk(s)
    && (forall t :: 0 <= t < |s.pc| ==> ThreadOk(s, t))
    && |SelfSection(s)| + s.selfLock == 1
    && |GraphSection(s)| + s.graphLock == 1
    && |Collectors(s)| + s.writeLock == 1
    && |Leakers(s)| == s.leaked
    && s.lock + Owned(s) == PARALLEL_READERS + s.leaked
  }

  lemma {:induction false} NothingOwned(s: State, k: nat)
    requires Init(s) && k <= |s.pc|
    ensures UnitsUpTo(s, k) == 0
  {
    if k > 0 {
      NothingOwned(s, k - 1);
    }
  }

  lemma InitInv(s: State)
    requires Init(s)
    ensures Inv(s)
  {
    NothingOwned(s, |s.pc|);
    assert SelfSection(s) == {} && GraphSection(s) == {} && Collectors(s) == {} && Leakers(s) == {};
  }

  // Between s and n only thread t has moved.
  ghost predicate OnlyMoved(s: State, n: State, t: nat) {
    && |n.pc| == |s.pc| && t < |s.pc|
    && (forall u :: 0 <= u < |s.pc| && u != t ==> n.pc[u] == s.pc[u])
    && (forall u :: u != t ==> (u in n.readers <==> u in s.readers))
    && (forall u :: u != t ==> (u in n.writers <==> u in s.writers))
    && (forall u :: u != t ==> (u in n.nested <==> u in s.nested))
    && LinksKept(s.graph, n.graph, t, LOCK)
  }

  // Each semaphore has changed by what the thread took or gave.
  ghost predicate Balanced(s: State, n: State, t: nat)
    requires t < |s.pc| == |n.pc|
  {
    && n.selfLock - s.selfLock == Unit(InSelfSection(s, t)) - Unit(InSelfSection(n, t))
    && n.graphLock - s.graphLock == Unit(InGraphSection(s, t)) - Unit(InGraphSection(n, t))
    && n.writeLock - s.writeLock == Unit(Collecting(s, t)) - Unit(Collecting(n, t))
    && n.leaked - s.leaked == Unit(Leaking(n, t)) - Unit(Leaking(s, t))
    && n.lock - s.lock == Units(s, t) - Units(n, t) + n.leaked - s.leaked
  }

  ghost predicate Moved(s: State, n: State, t: nat) {
    OnlyMoved(s, n, t) && Balanced(s, n, t) && ThreadOk(n, t) && ListsOk(n)
  }

  lemma OtherThread(s: State, n: State, t: nat, u: nat)
    requires OnlyMoved(s, n, t) && u < |s.pc| && u != t
    ensures ThreadOk(s, u) == ThreadOk(n, u) && Units(s, u) == Units(n, u)
    ensures InSelfSection(s, u) == InSelfSection(n, u) && InGraphSection(s, u) == InGraphSection(n, u)
    ensures Collecting(s, u) == Collecting(n, u) && Leaking(s, u) == Leaking(n, u)
  {
    hide LinkOf;
    assert LinkOf(n.graph, u, LOCK) == LinkOf(s.graph, u, LOCK);
    hide LinksKept;
  }

  lemma {:induction false} UnitsMove(s: State, n: State, t: nat, k: nat)
    requires OnlyMoved(s, n, t) && k <= |s.pc|
    ensures UnitsUpTo(n, k) - UnitsUpTo(s, k) == if t < k then Units(n, t) - Units(s, t) else 0
  {
    hide Units, OnlyMoved;
    if k > 0 {
      UnitsMove(s, n, t, k - 1);
      if k - 1 != t {
        OtherThread(s, n, t, k - 1);
      }
    }
  }

  lemma Preserved(s: State, n: State, t: nat)
    requires Inv(s) && Moved(s, n, t)
    ensures Inv(n)
  {
    assert |n.pc| == |s.pc| && t < |s.pc|;
    hide ThreadOk, Units, InSelfSection, InGraphSection, Collecting, Leaking, OnlyMoved, ListsOk;
    forall u: nat | u < |s.pc| && u != t
      ensures ThreadOk(n, u)
      ensures InSelfSection(s, u) == InSelfSection(n, u) && InGraphSection(s, u) == InGraphSection(n, u)
      ensures Collecting(s, u) == Collecting(n, u) && Leaking(s, u) == Leaking(n, u)
    {
      OtherThread(s, n, t, u);
    }
    UnitsMove(s, n, t, |s.pc|);
    CountsDiffer(SelfSection(s), SelfSection(n), t);
    CountsDiffer(GraphSection(s), GraphSection(n), t);
    CountsDiffer(Collectors(s), Collectors(n), t);
    CountsDiffer(Leakers(s), Leakers(n), t);
  }

  lemma EnterStep(s: State, t: nat)
    requires Enabled(s, t) && ThreadOk(s, t) && ListsOk(s)
    requires s.pc[t].phase in {RWaitSelf, UrWaitSelf, WWaitSelf, UwWaitSelf}
    ensures Moved(s, Advance(s, t), t)
  {
    hide LinkOf, RemoveFirst, Registered, Distinct, OneEntryEach, Required, Caught, Released;
  }

  lemma RefuseStep(s: State, t: nat)
    requires Enabled(s, t) && ThreadOk(s, t) && ListsOk(s)
    requires s.pc[t].phase in {RRefuse, UrRefuse, WRefuse, UwRefuse}
    ensures Moved(s, Advance(s, t), t)
  {
    hide LinkOf, RemoveFirst, Registered, Distinct, OneEntryEach, Required, Caught, Released;
  }

  lemma PostStep(s: State, t: nat)
    requires Enabled(s, t) && ThreadOk(s, t) && ListsOk(s)
    requires s.pc[t].phase in {WPostSelf, UwPostSelf} || s.pc[t].phase.RPost? || s.pc[t].phase.UrPost?
    ensures Moved(s, Advance(s, t), t)
  {
    hide LinkOf, RemoveFirst, Registered, Distinct, OneEntryEach, Required, Caught, Released;
  }

  lemma ReadCheckStep(s: State, t: nat)
    requires Enabled(s, t) && ThreadOk(s, t) && ListsOk(s)
    requires s.pc[t].phase in {RCheck, WCheck}
    ensures Moved(s, Advance(s, t), t)
  {
    hide LinkOf, RemoveFirst, Registered, Distinct, OneEntryEach, Required, Caught, Released;
    DistinctAdded(s.readers, t);
    DistinctAdded(s.writers, t);
  }

  lemma UnCheckStep(s: State, t: nat)
    requires Enabled(s, t) && ThreadOk(s, t) && ListsOk(s)
    requires s.pc[t].phase in {UrCheck, UwCheck}
    ensures Moved(s, Advance(s, t), t)
  {
    hide LinkOf, RemoveFirst, Registered, OneEntryEach, Distinct, Required, Caught, Released;
    RemoveFirstIs(s.readers, t);
    RemoveFirstIs(s.writers, t);
  }

  lemma GraphWaitStep(s: State, t: nat)
    requires Enabled(s, t) && ThreadOk(s, t) && ListsOk(s)
    requires s.pc[t].phase in {RReqWait, RCatWait, UrRelWait, WReqWait, WCatWait, UwRelWait}
    ensures Moved(s, Advance(s, t), t)
  {
    hide LinkOf, RemoveFirst, Registered, Distinct, OneEntryEach, Required, Caught, Released;
  }

  lemma GraphPostStep(s: State, t: nat)
    requires Enabled(s, t) && ThreadOk(s, t) && ListsOk(s)
    requires s.pc[t].phase in {RReqPost, WReqPost, UwRelPost, RCatPost, UrRelPost, WCatPost}
    ensures Moved(s, Advance(s, t), t)
  {
    hide LinkOf, RemoveFirst, Registered, Distinct, OneEntryEach, Required, Caught, Released;
  }

  lemma UnitStep(s: State, t: nat)
    requires Enabled(s, t) && ThreadOk(s, t) && ListsOk(s)
    requires s.pc[t].phase in {RWaitLock, UrGive, WWaitWrite}
    ensures Moved(s, Advance(s, t), t)
  {
    hide LinkOf, RemoveFirst, Registered, Distinct, OneEntryEach, Required, Caught, Released;
  }

  lemma CollectStep(s: State, t: nat)
    requires Enabled(s, t) && ThreadOk(s, t) && ListsOk(s)
    requires s.pc[t].phase.WCollect? || s.pc[t].phase.UwGive?
    ensures Moved(s, Advance(s, t), t)
  {
    hide LinkOf, RemoveFirst, Registered, Distinct, OneEntryEach, Required, Caught, Released;
  }

  lemma RequireStep(s: State, t: nat)
    requires Enabled(s, t) && ThreadOk(s, t) && ListsOk(s)
    requires s.pc[t].phase in {RReqBody, WReqBody}
    ensures Moved(s, Advance(s, t), t)
  {
    hide LinksKept, OneEntryEach, LinkOf, Required, Distinct, RemoveFirst;
    RequireLink(s.graph, t, LOCK, if s.pc[t].phase == RReqBody then MODE_SOFT else MODE_HARD);
  }

  lemma CatchStep(s: State, t: nat)
    requires Enabled(s, t) && ThreadOk(s, t) && ListsOk(s)
    requires s.pc[t].phase in {RCatBody, WCatBody}
    ensures Moved(s, Advance(s, t), t)
  {
    hide LinksKept, OneEntryEach, Distinct, Caught, RemoveFirst, Find;
    CatchLink(s.graph, t, LOCK);
  }

  lemma ReleaseStep(s: State, t: nat)
    requires Enabled(s, t) && ThreadOk(s, t) && ListsOk(s)
    requires s.pc[t].phase in {UrRelBody, UwRelBody}
    ensures Moved(s, Advance(s, t), t)
  {
    hide LinksKept, OneEntryEach, Distinct, Released, RemoveFirst, Find;
    if Registered(s.graph, t, LOCK) {
      ReleaseLink(s.graph, t, LOCK);
    } else {
      LinksSame(s.graph, t, LOCK);
    }
  }

  lemma LinksSame(g: seq<Entry>, t: nat, m: nat)
    ensures LinksKept(g, g, t, m)
  {
  }

  lemma StepMoves(s: State, t: nat)
    requires Enabled(s, t) && ThreadOk(s, t) && ListsOk(s)
    ensures Moved(s, Advance(s, t), t)
  {
    hide Advance, ThreadOk, ListsOk, Moved;
    match s.pc[t].phase {
      case RWaitSelf | UrWaitSelf | WWaitSelf | UwWaitSelf => EnterStep(s, t);
      case RRefuse | UrRefuse | WRefuse | UwRefuse => RefuseStep(s, t);
      case RPost(_) | UrPost(_) | WPostSelf | UwPostSelf => PostStep(s, t);
      case RCheck | WCheck => ReadCheckStep(s, t);
      case UrCheck | UwCheck => UnCheckStep(s, t);
      case RReqWait | RCatWait | UrRelWait | WReqWait | WCatWait | UwRelWait => GraphWaitStep(s, t);
      case RReqPost | WReqPost | UwRelPost | RCatPost | UrRelPost | WCatPost => GraphPostStep(s, t);
      case RReqBody | WReqBody => RequireStep(s, t);
      case RCatBody | WCatBody => CatchStep(s, t);
      case UrRelBody | UwRelBody => ReleaseStep(s, t);
      case RWaitLock | UrGive | WWaitWrite => UnitStep(s, t);
      case _ => CollectStep(s, t);
    }
  }

  lemma BeginMoves(s: State, n: State, t: nat)
    requires Begins(s, n, t) && ThreadOk(s, t) && ListsOk(s)
    ensures Moved(s, n, t)
  {
    hide LinkOf, Distinct, OneEntryEach;
  }

  lemma NextInv(s: State, n: State, t: nat)
    requires Inv(s) && Moves(s, n, t)
    ensures Moved(s, n, t) && Inv(n)
  {
    hide Advance, ThreadOk, ListsOk, Moved, Begins;
    if Begins(s, n, t) {
      BeginsIn(s, n, t);
      BeginMoves(s, n, t);
    } else {
      StepMoves(s, t);
    }
    hide Inv;
    Preserved(s, n, t);
  }

  lemma BeginsIn(s: State, n: State, t: nat)
    requires Begins(s, n, t)
    ensures t < |s.pc|
  {
  }

  lemma RunStep(run: seq<State>, i: nat) returns (t: nat)
    requires Run(run) && i + 1 < |run|
    ensures Moves(run[i], run[i + 1], t)
  {
    hide Moves;
    assert Next(run[i], run[i + 1]);
    t :| Moves(run[i], run[i + 1], t);
  }

  lemma RunStart(run: seq<State>)
    requires Run(run)
    ensures |run| > 0 && Inv(run[0])
  {
    hide Inv, Next;
    InitInv(run[0]);
  }

  lemma {:induction false} RunInv(run: seq<State>, i: nat)
    requires Run(run) && i < |run|
    ensures Inv(run[i])
  {
    hide Inv, Moves, Run;
    if i == 0 {
      RunStart(run);
    } else {
      RunInv(run, i - 1);
      var t := RunStep(run, i - 1);
      NextInv(run[i - 1], run[i], t);
    }
  }
}
