/**
 * The pool of regex stacks of src/com.c (get_stack, free_stack, grab_unused) under any interleaving.
 * Loads, stores and compare-and-swaps of pool entries are single steps; malloc answers NULL or any
 * address not in use, so freed addresses may come back.
 */
module StackPool {

  const POOL_MAX: nat := 48
  const NULL: nat := 0

  datatype Entry = Entry(used: bool, addr: nat)

  datatype PC =
    | Look       // !entry->used ?
    | Grab       // grab_unused
    | ReadAddr   // if (entry->addr) return entry->addr
    | Alloc      // malloc for the entry
    | Store      // entry->addr = ...
    | PutBack    // malloc failed: CAS used back to FALSE
    | Fallback   // malloc outside the pool
    | Holding    // get_stack has returned addr
    | Scan       // free_stack: entry->addr == addr ?
    | Release    // CAS used to FALSE
    | Free       // not from the pool: free(addr)
    | Done

  /** `home` is where its stack came from: an entry of the pool, or POOL_MAX for the allocation outside it. */
  datatype Thread = Thread(pc: PC, i: nat, addr: nat, home: nat)

  datatype State = State(pool: seq<Entry>, threads: map<nat, Thread>, live: set<nat>)

  /** A thread starts get_stack, starts free_stack, or takes its next step; m is malloc's answer if it asks. */
  datatype Label = Get(tid: nat) | Give(tid: nat) | Run(tid: nat, m: nat)

  type Schedule = seq<Label>

  // ---------------------------------------------------------------- steps

  /** The thread has claimed entry i and not yet returned from get_stack. */
  predicate Acquiring(th: Thread) {
    th.pc == ReadAddr || th.pc == Alloc || th.pc == Store || th.pc == PutBack
  }

  /** The thread has a stack: in use, or on its way back. */
  predicate HasStack(th: Thread) {
    th.pc == Holding || th.pc == Scan || th.pc == Release || th.pc == Free
  }

  predicate Shape(s: State) {
    && |s.pool| == POOL_MAX
    && forall t | t in s.threads ::
         s.threads[t].i <= POOL_MAX
         && (Acquiring(s.threads[t]) || s.threads[t].pc == Grab || s.threads[t].pc == Release ==>
             s.threads[t].i < POOL_MAX)
  }

  function Move(s: State, tid: nat, th: Thread): State {
    s.(threads := s.threads[tid := th])
  }

  function SetEntry(s: State, i: nat, e: Entry): State
    requires i < |s.pool|
  {
    s.(pool := s.pool[i := e])
  }

  /** malloc may answer m: failure, or an address nobody has. */
  predicate MallocOk(s: State, m: nat) {
    m == NULL || m !in s.live
  }

  function Allocated(s: State, m: nat): State {
    if m == NULL then s else s.(live := s.live + {m})
  }

  function StepGet(s: State, tid: nat, m: nat): State
    requires Shape(s) && tid in s.threads
  {
    var th := s.threads[tid];
    match th.pc
    case Look =>
      if th.i >= POOL_MAX then Move(s, tid, th.(pc := Fallback))
      else if s.pool[th.i].used then Move(s, tid, th.(i := th.i + 1))
      else Move(s, tid, th.(pc := Grab))
    case Grab =>
      if s.pool[th.i].used then Move(s, tid, th.(pc := Look, i := th.i + 1))
      else Move(SetEntry(s, th.i, s.pool[th.i].(used := true)), tid, th.(pc := ReadAddr))
    case ReadAddr =>
      if s.pool[th.i].addr != NULL then Move(s, tid, th.(pc := Holding, addr := s.pool[th.i].addr, home := th.i))
      else Move(s, tid, th.(pc := Alloc))
    case Alloc => if MallocOk(s, m) then Move(Allocated(s, m), tid, th.(pc := Store, addr := m)) else s
    case Store =>
      Move(SetEntry(s, th.i, s.pool[th.i].(addr := th.addr)), tid,
           th.(pc := if th.addr != NULL then Holding else PutBack, home := th.i))
    case PutBack =>
      if s.pool[th.i].used then Move(SetEntry(s, th.i, s.pool[th.i].(used := false)), tid, th.(pc := Fallback))
      else Move(s, tid, th.(pc := Fallback))
    case Fallback =>
      if !MallocOk(s, m) then s
      else Move(Allocated(s, m), tid, th.(pc := if m != NULL then Holding else Done, addr := m, home := POOL_MAX))
    case _ => s
  }

  function StepGive(s: State, tid: nat): State
    requires Shape(s) && tid in s.threads
  {
    var th := s.threads[tid];
    match th.pc
    case Scan =>
      if th.i >= POOL_MAX then Move(s, tid, th.(pc := Free))
      else if s.pool[th.i].addr == th.addr then Move(s, tid, th.(pc := Release))
      else Move(s, tid, th.(i := th.i + 1))
    case Release =>
      if s.pool[th.i].used
      then Move(SetEntry(s, th.i, s.pool[th.i].(used := false)), tid, th.(pc := Done, addr := NULL))
      else Move(s, tid, th.(pc := Done, addr := NULL))
    case Free => Move(s, tid, th.(pc := Done, addr := NULL)).(live := s.live - {th.addr})
    case _ => s
  }

  function Apply(s: State, l: Label): (s': State)
    requires Shape(s)
    ensures Shape(s')
  {
    match l
    case Get(tid) =>
      if tid in s.threads && s.threads[tid].pc != Done then s else Move(s, tid, Thread(Look, 0, NULL, 0))
    case Give(tid) =>
      if tid in s.threads && s.threads[tid].pc == Holding then Move(s, tid, s.threads[tid].(pc := Scan, i := 0)) else s
    case Run(tid, m) =>
      if tid !in s.threads then s
      else if HasStack(s.threads[tid]) then StepGive(s, tid)
      else StepGet(s, tid, m)
  }

  function Initial(): (s: State)
    ensures Shape(s)
  {
    State(seq(POOL_MAX, i => Entry(false, NULL)), map[], {})
  }

  function At(sched: Schedule, k: nat): (s: State)
    requires k <= |sched|
    ensures Shape(s)
  {
    if k == 0 then Initial() else Apply(At(sched, k - 1), sched[k - 1])
  }

  // ---------------------------------------------------------------- invariant

  /** The thread owns pool entry i: it has claimed it, or it has the stack at the entry's address. */
  ghost predicate Owns(s: State, t: nat, i: nat)
    requires Shape(s)
  {
    && t in s.threads && i < POOL_MAX
    && var th := s.threads[t];
       (Acquiring(th) && th.i == i) || (HasStack(th) && s.pool[i].addr != NULL && s.pool[i].addr == th.addr)
  }

  /** The address a thread keeps to itself: its stack, or a block not yet stored in its entry. */
  ghost predicate Keeps(th: Thread, a: nat) {
    a != NULL && th.addr == a && (HasStack(th) || th.pc == Store)
  }

  ghost predicate PoolOk(s: State)
    requires Shape(s)
  {
    && (forall i | 0 <= i < POOL_MAX && s.pool[i].addr != NULL :: s.pool[i].addr in s.live)
    && (forall i, j | 0 <= i < j < POOL_MAX && s.pool[i].addr != NULL :: s.pool[i].addr != s.pool[j].addr)
  }

  ghost predicate ThreadOk(s: State, th: Thread)
    requires Shape(s) && th.i <= POOL_MAX && (Acquiring(th) || th.pc == Release ==> th.i < POOL_MAX)
  {
    && (HasStack(th) ==> th.addr != NULL)
    && (th.addr != NULL && (HasStack(th) || th.pc == Store) ==> th.addr in s.live)
    && (th.pc == Alloc || th.pc == Store || th.pc == PutBack ==> s.pool[th.i].addr == NULL)
    && (th.pc == Store && th.addr != NULL ==> forall i | 0 <= i < POOL_MAX :: s.pool[i].addr != th.addr)
    && (th.pc == Scan || th.pc == Free ==> forall i | 0 <= i < th.i :: s.pool[i].addr != th.addr)
    && (th.pc == Free ==> th.i == POOL_MAX)
    && (th.pc == Release ==> s.pool[th.i].addr == th.addr)
    && (HasStack(th) ==> FromHome(s, th))
  }

  /** A stack from the pool is the one of its entry; a stack from outside is in no entry. */
  ghost predicate FromHome(s: State, th: Thread)
    requires Shape(s)
  {
    if th.home < POOL_MAX then s.pool[th.home].addr == th.addr
    else forall i | 0 <= i < POOL_MAX :: s.pool[i].addr != th.addr
  }

  ghost predicate OwnedOk(s: State)
    requires Shape(s)
  {
    && (forall t: nat, u: nat, i: nat | Owns(s, t, i) && Owns(s, u, i) :: t == u)
    && (forall t: nat, i: nat | Owns(s, t, i) :: s.pool[i].used)
    && (forall i | 0 <= i < POOL_MAX && s.pool[i].used :: exists t: nat :: Owns(s, t, i))
  }

  ghost predicate Distinct(s: State) {
    forall t, u, a | t in s.threads && u in s.threads && Keeps(s.threads[t], a) && Keeps(s.threads[u], a) :: t == u
  }

  /** Every block malloc gave out and free did not take back is some entry's or some thread's. */
  ghost predicate Accounted(s: State)
    requires Shape(s)
  {
    forall a | a in s.live :: Placed(s, a)
  }

  ghost predicate Inv(s: State)
    requires Shape(s)
  {
    && NULL !in s.live && PoolOk(s) && OwnedOk(s) && Distinct(s) && Accounted(s)
    && (forall t | t in s.threads :: ThreadOk(s, s.threads[t]))
  }

  // ---------------------------------------------------------------- every step keeps it

  ghost predicate OthersSame(s: State, s': State, tid: nat) {
    && s'.threads.Keys == s.threads.Keys + {tid}
    && forall t | t in s.threads && t != tid :: s'.threads[t] == s.threads[t]
  }

  ghost predicate SameAddrs(s: State, s': State)
    requires Shape(s) && Shape(s')
  {
    forall i | 0 <= i < POOL_MAX :: s'.pool[i].addr == s.pool[i].addr
  }

  lemma OwnedSame(s: State, s': State)
    requires Shape(s) && Shape(s') && OwnedOk(s)
    requires forall t: nat, i: nat :: Owns(s', t, i) == Owns(s, t, i)
    requires forall i | 0 <= i < POOL_MAX :: s'.pool[i].used == s.pool[i].used
    ensures OwnedOk(s')
  {
    forall i | 0 <= i < POOL_MAX && s'.pool[i].used ensures exists t: nat :: Owns(s', t, i) {
      var t: nat :| Owns(s, t, i);
      assert Owns(s', t, i);
    }
  }

  lemma OthersOwnSame(s: State, s': State, tid: nat)
    requires Shape(s) && Shape(s') && OthersSame(s, s', tid) && SameAddrs(s, s')
    ensures forall t: nat, i: nat | t != tid :: Owns(s', t, i) == Owns(s, t, i)
  {
  }

  lemma OwnedGain(s: State, s': State, tid: nat, n: nat)
    requires Shape(s) && Shape(s') && OwnedOk(s) && n < POOL_MAX && !s.pool[n].used
    requires OthersSame(s, s', tid) && SameAddrs(s, s')
    requires forall i: nat :: Owns(s', tid, i) <==> Owns(s, tid, i) || i == n
    requires forall i | 0 <= i < POOL_MAX :: s'.pool[i].used == (s.pool[i].used || i == n)
    ensures OwnedOk(s')
  {
    OthersOwnSame(s, s', tid);
    hide Owns;
    forall i | 0 <= i < POOL_MAX && s'.pool[i].used ensures exists t: nat :: Owns(s', t, i) {
      if i == n { assert Owns(s', tid, i); }
      else { var t: nat :| Owns(s, t, i); assert Owns(s', t, i); }
    }
  }

  lemma OwnedLose(s: State, s': State, tid: nat, n: nat)
    requires Shape(s) && Shape(s') && OwnedOk(s) && Owns(s, tid, n)
    requires OthersSame(s, s', tid) && SameAddrs(s, s')
    requires forall i: nat :: Owns(s', tid, i) <==> Owns(s, tid, i) && i != n
    requires forall i | 0 <= i < POOL_MAX :: s'.pool[i].used == (s.pool[i].used && i != n)
    ensures OwnedOk(s')
  {
    OthersOwnSame(s, s', tid);
    hide Owns;
    forall i | 0 <= i < POOL_MAX && s'.pool[i].used ensures exists t: nat :: Owns(s', t, i) {
      var t: nat :| Owns(s, t, i);
      assert Owns(s', t, i);
    }
  }

  lemma OwnedUnmoved(s: State, s': State, tid: nat)
    requires Shape(s) && Shape(s') && OwnedOk(s) && OthersSame(s, s', tid) && s'.pool == s.pool
    requires forall i: nat :: Owns(s', tid, i) == Owns(s, tid, i)
    ensures OwnedOk(s')
  {
    OthersOwnSame(s, s', tid);
    hide Owns;
    OwnedSame(s, s');
  }

  /** Where a block is: in an entry of the pool, or with a thread. */
  ghost predicate Placed(s: State, a: nat)
    requires Shape(s)
  {
    (exists i :: 0 <= i < POOL_MAX && s.pool[i].addr == a) || (exists t :: t in s.threads && Keeps(s.threads[t], a))
  }

  /** Blocks stay placed when entries keep their addresses and the moving thread keeps or stores its own. */
  lemma PlacedLater(s: State, s': State, tid: nat, a: nat)
    requires Shape(s) && Shape(s') && OthersSame(s, s', tid) && Placed(s, a) && a != NULL
    requires forall i | 0 <= i < POOL_MAX && s.pool[i].addr != NULL :: s'.pool[i].addr == s.pool[i].addr
    requires tid in s.threads && Keeps(s.threads[tid], a) ==> Placed(s', a)
    ensures Placed(s', a)
  {
    if i :| 0 <= i < POOL_MAX && s.pool[i].addr == a { assert s'.pool[i].addr == a; }
    else {
      var t :| t in s.threads && Keeps(s.threads[t], a);
      if t != tid { assert Keeps(s'.threads[t], a); }
    }
  }

  lemma KeptIsPlaced(s: State, t: nat, a: nat)
    requires Shape(s) && t in s.threads && Keeps(s.threads[t], a)
    ensures Placed(s, a)
  {
  }

  lemma StoredIsPlaced(s: State, i: nat, a: nat)
    requires Shape(s) && i < POOL_MAX && s.pool[i].addr == a
    ensures Placed(s, a)
  {
  }

  // What one step leaves, by program point.

  lemma ScanIs(s: State, tid: nat, m: nat) returns (th': Thread)
    requires Shape(s) && tid in s.threads && s.threads[tid].pc == Scan
    ensures Apply(s, Run(tid, m)) == Move(s, tid, th')
    ensures var th := s.threads[tid];
      if th.i >= POOL_MAX then th' == th.(pc := Free)
      else if s.pool[th.i].addr == th.addr then th' == th.(pc := Release)
      else th' == th.(i := th.i + 1)
  {
    th' := Apply(s, Run(tid, m)).threads[tid];
  }

  lemma LookIs(s: State, tid: nat, m: nat) returns (th': Thread)
    requires Shape(s) && tid in s.threads
    requires var th := s.threads[tid]; th.pc == Look || (th.pc == Grab && s.pool[th.i].used)
    ensures Apply(s, Run(tid, m)) == Move(s, tid, th') && (th'.pc == Look || th'.pc == Grab || th'.pc == Fallback)
  {
    th' := Apply(s, Run(tid, m)).threads[tid];
  }

  lemma AllocIs(s: State, tid: nat, m: nat) returns (th': Thread)
    requires Shape(s) && tid in s.threads && MallocOk(s, m)
    requires s.threads[tid].pc == Alloc || s.threads[tid].pc == Fallback
    ensures Apply(s, Run(tid, m)) == Move(Allocated(s, m), tid, th')
    ensures var th := s.threads[tid];
      th' == if th.pc == Alloc then th.(pc := Store, addr := m)
             else th.(pc := if m != NULL then Holding else Done, addr := m, home := POOL_MAX)
  {
    th' := Apply(s, Run(tid, m)).threads[tid];
  }

  lemma GiveBackIs(s: State, tid: nat, m: nat) returns (th': Thread)
    requires Shape(s) && tid in s.threads && (s.threads[tid].pc == PutBack || s.threads[tid].pc == Release)
    requires s.pool[s.threads[tid].i].used
    ensures var th := s.threads[tid];
      && Apply(s, Run(tid, m)) == Move(SetEntry(s, th.i, s.pool[th.i].(used := false)), tid, th')
      && th' == if th.pc == PutBack then th.(pc := Fallback) else th.(pc := Done, addr := NULL)
  {
    th' := Apply(s, Run(tid, m)).threads[tid];
  }

  lemma FreeIs(s: State, tid: nat, m: nat)
    requires Shape(s) && tid in s.threads && s.threads[tid].pc == Free
    ensures var th := s.threads[tid];
      Apply(s, Run(tid, m)) == Move(s, tid, th.(pc := Done, addr := NULL)).(live := s.live - {th.addr})
  {
  }

  /** A step that touches neither pool nor heap and changes nothing the thread owns or keeps. */
  lemma QuietStep(s: State, s': State, tid: nat)
    requires Shape(s) && Shape(s') && Inv(s) && OthersSame(s, s', tid) && s'.pool == s.pool && s'.live == s.live
    requires ThreadOk(s', s'.threads[tid])
    requires forall i: nat :: Owns(s', tid, i) == Owns(s, tid, i)
    requires forall a: nat | Keeps(s'.threads[tid], a) :: tid in s.threads && Keeps(s.threads[tid], a)
    requires tid in s.threads ==> forall a: nat | Keeps(s.threads[tid], a) :: Keeps(s'.threads[tid], a)
    ensures Inv(s')
  {
    OwnedUnmoved(s, s', tid);
    hide Owns, OwnedOk, Placed;
    forall a | a in s'.live ensures Placed(s', a) { PlacedLater(s, s', tid, a); }
  }

  lemma GrabIs(s: State, tid: nat, m: nat)
    requires Shape(s) && tid in s.threads && s.threads[tid].pc == Grab && !s.pool[s.threads[tid].i].used
    ensures var th := s.threads[tid];
      Apply(s, Run(tid, m)) == Move(SetEntry(s, th.i, s.pool[th.i].(used := true)), tid, th.(pc := ReadAddr))
  {
  }

  lemma GrabStep(s: State, tid: nat, m: nat)
    requires Shape(s) && Inv(s) && tid in s.threads && s.threads[tid].pc == Grab && !s.pool[s.threads[tid].i].used
    ensures Inv(Apply(s, Run(tid, m)))
  {
    hide Apply, Distinct, Placed;
    GrabIs(s, tid, m);
    var s' := Apply(s, Run(tid, m));
    OwnedGain(s, s', tid, s.threads[tid].i);
    hide Owns, OwnedOk;
    forall t | t in s'.threads ensures ThreadOk(s', s'.threads[t]) { assert ThreadOk(s, s.threads[t]); }
    hide ThreadOk;
    DistinctLater(s, s', tid);
    forall a | a in s'.live ensures Placed(s', a) { PlacedLater(s, s', tid, a); }
  }

  lemma ReadAddrStep(s: State, tid: nat, m: nat)
    requires Shape(s) && Inv(s) && tid in s.threads && s.threads[tid].pc == ReadAddr
    requires s.pool[s.threads[tid].i].addr != NULL
    ensures Inv(Apply(s, Run(tid, m)))
  {
    var s', n := Apply(s, Run(tid, m)), s.threads[tid].i;
    OwnedUnmoved(s, s', tid);
    forall u: nat, a: nat | u in s.threads && u != tid && Keeps(s.threads[u], a) ensures a != s.pool[n].addr {
      assert Owns(s, tid, n);
      assert HasStack(s.threads[u]) && a == s.pool[n].addr ==> Owns(s, u, n);
    }
    forall a | a in s'.live ensures Placed(s', a) { PlacedLater(s, s', tid, a); }
  }

  lemma AllocOwned(s: State, tid: nat, m: nat)
    requires Shape(s) && Inv(s) && tid in s.threads && MallocOk(s, m)
    requires s.threads[tid].pc == Alloc || s.threads[tid].pc == Fallback
    ensures OwnedOk(Apply(s, Run(tid, m)))
    ensures forall t: nat | t in s.threads :: !Keeps(s.threads[t], m)
    ensures forall i | 0 <= i < POOL_MAX :: s.pool[i].addr != m || m == NULL
  {
    hide Accounted, Distinct;
    forall t: nat | t in s.threads ensures !Keeps(s.threads[t], m) { assert ThreadOk(s, s.threads[t]); }
    OwnedUnmoved(s, Apply(s, Run(tid, m)), tid);
  }

  /** What a thread relies on of the pool is its addresses, and of the heap that blocks stay. */
  lemma ThreadOkSame(s: State, s': State, th: Thread)
    requires Shape(s) && Shape(s') && SameAddrs(s, s') && s.live <= s'.live
    requires th.i <= POOL_MAX && (Acquiring(th) || th.pc == Release ==> th.i < POOL_MAX) && ThreadOk(s, th)
    ensures ThreadOk(s', th)
  {
  }

  lemma PoolOkSame(s: State, s': State)
    requires Shape(s) && Shape(s') && SameAddrs(s, s') && s.live <= s'.live && PoolOk(s)
    ensures PoolOk(s')
  {
  }

  lemma AllocThreads(s: State, tid: nat, m: nat)
    requires Shape(s) && Inv(s) && tid in s.threads && MallocOk(s, m)
    requires s.threads[tid].pc == Alloc || s.threads[tid].pc == Fallback
    ensures var s' := Apply(s, Run(tid, m)); PoolOk(s') && forall t | t in s'.threads :: ThreadOk(s', s'.threads[t])
  {
    hide Apply, OwnedOk, Distinct, Accounted;
    var th' := AllocIs(s, tid, m);
    var s', th := Apply(s, Run(tid, m)), s.threads[tid];
    assert ThreadOk(s, th) && PoolOk(s);
    assert ThreadOk(s', th') by {
      assert m != NULL ==> forall i | 0 <= i < POOL_MAX :: s.pool[i].addr != m;
    }
    PoolOkSame(s, s');
    hide PoolOk, ThreadOk;
    forall t | t in s'.threads && t != tid ensures ThreadOk(s', s'.threads[t]) { ThreadOkSame(s, s', s.threads[t]); }
  }

  lemma AllocPlaced(s: State, tid: nat, m: nat)
    requires Shape(s) && Inv(s) && tid in s.threads && MallocOk(s, m)
    requires s.threads[tid].pc == Alloc || s.threads[tid].pc == Fallback
    ensures Accounted(Apply(s, Run(tid, m)))
  {
    hide Apply, OwnedOk, Distinct, Placed, PoolOk, ThreadOk;
    var th' := AllocIs(s, tid, m);
    var s' := Apply(s, Run(tid, m));
    forall a | a in s'.live ensures Placed(s', a) {
      if a == m { KeptIsPlaced(s', tid, a); } else { PlacedLater(s, s', tid, a); }
    }
  }

  /** malloc for an entry, or outside the pool. */
  lemma AllocStep(s: State, tid: nat, m: nat)
    requires Shape(s) && Inv(s) && tid in s.threads && MallocOk(s, m)
    requires s.threads[tid].pc == Alloc || s.threads[tid].pc == Fallback
    ensures Inv(Apply(s, Run(tid, m)))
  {
    hide Apply, OwnedOk, Distinct, Accounted, PoolOk, ThreadOk;
    AllocOwned(s, tid, m);
    AllocThreads(s, tid, m);
    AllocPlaced(s, tid, m);
    var th' := AllocIs(s, tid, m);
    DistinctLater(s, Apply(s, Run(tid, m)), tid);
  }

  /** Addresses stay with one thread each when the moving thread keeps what it kept, or something nobody does. */
  lemma DistinctLater(s: State, s': State, tid: nat)
    requires Distinct(s) && OthersSame(s, s', tid) && tid in s.threads
    requires forall a | Keeps(s'.threads[tid], a) ::
      Keeps(s.threads[tid], a) || forall t | t in s.threads && t != tid :: !Keeps(s.threads[t], a)
    ensures Distinct(s')
  {
    hide Keeps;
  }

  lemma StoreIs(s: State, tid: nat, m: nat)
    requires Shape(s) && tid in s.threads && s.threads[tid].pc == Store
    ensures Apply(s, Run(tid, m)) == StepGet(s, tid, NULL)
    ensures var th := s.threads[tid];
      Apply(s, Run(tid, m)) == Move(SetEntry(s, th.i, s.pool[th.i].(addr := th.addr)), tid,
           th.(pc := if th.addr != NULL then Holding else PutBack, home := th.i))
  {
  }

  lemma StoreSelf(s: State, s': State, tid: nat)
    requires Shape(s) && Inv(s) && tid in s.threads && s.threads[tid].pc == Store && s' == StepGet(s, tid, NULL)
    requires Shape(s')
    ensures PoolOk(s') && ThreadOk(s', s'.threads[tid])
  {
    hide OwnedOk, Distinct, Accounted;
    assert ThreadOk(s, s.threads[tid]);
  }

  lemma StoreStep(s: State, tid: nat, m: nat)
    requires Shape(s) && Inv(s) && tid in s.threads && s.threads[tid].pc == Store
    ensures Inv(Apply(s, Run(tid, m)))
  {
    hide Apply, StepGet, Owns, Placed, PoolOk, ThreadOk, Distinct;
    StoreIs(s, tid, m);
    var s' := Apply(s, Run(tid, m));
    StoreOwners(s, s', tid);
    OwnedSame(s, s');
    hide OwnedOk;
    StoreSelf(s, s', tid);
    forall t | t in s'.threads && t != tid ensures ThreadOk(s', s'.threads[t]) { StoreOthers(s, s', tid, t); }
    forall a | a in s'.live ensures Placed(s', a) { StorePlaced(s, s', tid, a); }
    DistinctLater(s, s', tid);
  }

  lemma StorePlaced(s: State, s': State, tid: nat, a: nat)
    requires Shape(s) && Inv(s) && tid in s.threads && s.threads[tid].pc == Store && s' == StepGet(s, tid, NULL)
    requires Shape(s')
    requires a in s.live
    ensures Placed(s', a)
  {
    var th := s.threads[tid];
    assert Owns(s, tid, th.i);
    if Keeps(th, a) { assert s'.pool[th.i].addr == a; }
    PlacedLater(s, s', tid, a);
  }

  lemma StoreOwners(s: State, s': State, tid: nat)
    requires Shape(s) && Inv(s) && tid in s.threads && s.threads[tid].pc == Store && s' == StepGet(s, tid, NULL)
    requires Shape(s')
    ensures forall t: nat, i: nat :: Owns(s', t, i) == Owns(s, t, i)
  {
    var th := s.threads[tid];
    forall t: nat, i: nat ensures Owns(s', t, i) == Owns(s, t, i) {
      if t in s.threads && t != tid {
        assert th.addr != NULL && HasStack(s.threads[t]) ==> s.threads[t].addr != th.addr by {
          assert th.addr != NULL ==> Keeps(th, th.addr);
          assert ThreadOk(s, s.threads[t]);
        }
      }
    }
  }

  lemma StoreOthers(s: State, s': State, tid: nat, t: nat)
    requires Shape(s) && Inv(s) && tid in s.threads && s.threads[tid].pc == Store && s' == StepGet(s, tid, NULL)
    requires Shape(s')
    requires t in s.threads && t != tid
    ensures ThreadOk(s', s'.threads[t])
  {
    var th, other := s.threads[tid], s.threads[t];
    assert Owns(s, tid, th.i);
    assert Acquiring(other) ==> Owns(s, t, other.i);
    assert th.addr != NULL ==> Keeps(th, th.addr);
    assert HasStack(other) || (other.pc == Store && other.addr != NULL) ==> Keeps(other, other.addr);
  }

  lemma GiveBackOwned(s: State, tid: nat, m: nat)
    requires Shape(s) && Inv(s) && tid in s.threads && (s.threads[tid].pc == PutBack || s.threads[tid].pc == Release)
    ensures OwnedOk(Apply(s, Run(tid, m))) && s.pool[s.threads[tid].i].used
  {
    hide Accounted, Distinct;
    var th := s.threads[tid];
    assert ThreadOk(s, th);
    assert Owns(s, tid, th.i);
    OwnedLose(s, Apply(s, Run(tid, m)), tid, th.i);
  }

  lemma GiveBackThreads(s: State, tid: nat, m: nat)
    requires Shape(s) && Inv(s) && tid in s.threads && (s.threads[tid].pc == PutBack || s.threads[tid].pc == Release)
    requires s.pool[s.threads[tid].i].used
    ensures var s' := Apply(s, Run(tid, m)); PoolOk(s') && forall t | t in s'.threads :: ThreadOk(s', s'.threads[t])
  {
    hide Apply, OwnedOk, Distinct, Accounted, PoolOk;
    var th' := GiveBackIs(s, tid, m);
    var s' := Apply(s, Run(tid, m));
    assert ThreadOk(s', th');
    PoolOkSame(s, s');
    hide ThreadOk;
    forall t | t in s'.threads && t != tid ensures ThreadOk(s', s'.threads[t]) { ThreadOkSame(s, s', s.threads[t]); }
  }

  lemma GiveBackPlaced(s: State, tid: nat, m: nat)
    requires Shape(s) && Inv(s) && tid in s.threads && (s.threads[tid].pc == PutBack || s.threads[tid].pc == Release)
    requires s.pool[s.threads[tid].i].used
    ensures Accounted(Apply(s, Run(tid, m)))
  {
    hide Apply, OwnedOk, Distinct, Placed, PoolOk;
    var th := s.threads[tid];
    var th' := GiveBackIs(s, tid, m);
    var s' := Apply(s, Run(tid, m));
    assert ThreadOk(s, th);
    hide ThreadOk;
    forall a | a in s'.live ensures Placed(s', a) {
      if Keeps(th, a) { StoredIsPlaced(s', th.i, a); }
      PlacedLater(s, s', tid, a);
    }
  }

  /** A failed allocation gives its entry back; free_stack gives back the entry of its stack. */
  lemma GiveBackStep(s: State, tid: nat, m: nat)
    requires Shape(s) && Inv(s) && tid in s.threads && (s.threads[tid].pc == PutBack || s.threads[tid].pc == Release)
    ensures Inv(Apply(s, Run(tid, m)))
    ensures s.pool[s.threads[tid].i].used
  {
    hide Apply, OwnedOk, Distinct, Accounted, PoolOk, ThreadOk;
    GiveBackOwned(s, tid, m);
    GiveBackThreads(s, tid, m);
    GiveBackPlaced(s, tid, m);
    var th' := GiveBackIs(s, tid, m);
    DistinctLater(s, Apply(s, Run(tid, m)), tid);
  }

  lemma FreeThreads(s: State, tid: nat, m: nat)
    requires Shape(s) && Inv(s) && tid in s.threads && s.threads[tid].pc == Free
    ensures var s' := Apply(s, Run(tid, m)); PoolOk(s') && forall t | t in s'.threads :: ThreadOk(s', s'.threads[t])
  {
    hide Apply, OwnedOk, Accounted;
    FreeIs(s, tid, m);
    var s', th := Apply(s, Run(tid, m)), s.threads[tid];
    assert ThreadOk(s, th) && Keeps(th, th.addr);
    forall t | t in s'.threads && t != tid ensures ThreadOk(s', s'.threads[t]) {
      var other := s.threads[t];
      assert ThreadOk(s, other);
      assert HasStack(other) || (other.pc == Store && other.addr != NULL) ==> Keeps(other, other.addr);
    }
  }

  lemma FreeStep(s: State, tid: nat, m: nat)
    requires Shape(s) && Inv(s) && tid in s.threads && s.threads[tid].pc == Free
    ensures Inv(Apply(s, Run(tid, m)))
  {
    hide Apply, OwnedOk, Distinct, PoolOk, Placed;
    FreeIs(s, tid, m);
    var s', th := Apply(s, Run(tid, m)), s.threads[tid];
    assert ThreadOk(s, th);
    assert OwnedOk(s') by { OwnedUnmoved(s, s', tid); }
    hide ThreadOk, Owns;
    FreeThreads(s, tid, m);
    DistinctLater(s, s', tid);
    forall a | a in s'.live ensures Placed(s', a) { PlacedLater(s, s', tid, a); }
  }

  lemma LookStep(s: State, tid: nat, m: nat)
    requires Shape(s) && Inv(s) && tid in s.threads
    requires var th := s.threads[tid]; th.pc == Look || (th.pc == Grab && s.pool[th.i].used)
    ensures Inv(Apply(s, Run(tid, m)))
  {
    hide OwnedOk, Distinct, Accounted, PoolOk, Apply;
    var th' := LookIs(s, tid, m);
    QuietStep(s, Apply(s, Run(tid, m)), tid);
  }

  lemma EmptyEntryStep(s: State, tid: nat, m: nat)
    requires Shape(s) && Inv(s) && tid in s.threads
    requires var th := s.threads[tid]; th.pc == ReadAddr && s.pool[th.i].addr == NULL
    ensures Inv(Apply(s, Run(tid, m)))
  {
    hide OwnedOk, Distinct, Accounted, PoolOk;
    QuietStep(s, Apply(s, Run(tid, m)), tid);
  }

  lemma ScanStep(s: State, tid: nat, m: nat)
    requires Shape(s) && Inv(s) && tid in s.threads && s.threads[tid].pc == Scan
    ensures Inv(Apply(s, Run(tid, m)))
  {
    hide OwnedOk, Distinct, Accounted, PoolOk, Apply;
    var th' := ScanIs(s, tid, m);
    QuietStep(s, Apply(s, Run(tid, m)), tid);
  }

  /** Idle and holding threads do not move, and malloc answers only with blocks that are free. */
  lemma NoStep(s: State, tid: nat, m: nat)
    requires Shape(s) && tid in s.threads
    requires var th := s.threads[tid];
             th.pc == Holding || th.pc == Done || ((th.pc == Alloc || th.pc == Fallback) && !MallocOk(s, m))
    ensures Apply(s, Run(tid, m)) == s
  {
  }

  lemma StartGet(s: State, tid: nat)
    requires Shape(s) && Inv(s) && (tid in s.threads ==> s.threads[tid].pc == Done)
    ensures Inv(Apply(s, Get(tid)))
  {
    hide OwnedOk, Distinct, Accounted, PoolOk;
    QuietStep(s, Apply(s, Get(tid)), tid);
  }

  lemma StartGive(s: State, tid: nat)
    requires Shape(s) && Inv(s) && tid in s.threads && s.threads[tid].pc == Holding
    ensures Inv(Apply(s, Give(tid)))
  {
    hide OwnedOk, Distinct, Accounted, PoolOk;
    QuietStep(s, Apply(s, Give(tid)), tid);
  }

  lemma InvKept(s: State, l: Label)
    requires Shape(s) && Inv(s)
    ensures Inv(Apply(s, l))
  {
    hide Owns, Inv, ThreadOk, StepGet, StepGive;
    match l {
      case Get(tid) =>
        if !(tid in s.threads && s.threads[tid].pc != Done) { StartGet(s, tid); }
      case Give(tid) =>
        if tid in s.threads && s.threads[tid].pc == Holding { StartGive(s, tid); }
      case Run(tid, m) =>
        if tid in s.threads {
          var th := s.threads[tid];
          match th.pc {
            case Look => LookStep(s, tid, m);
            case Grab => if s.pool[th.i].used { LookStep(s, tid, m); } else { GrabStep(s, tid, m); }
            case ReadAddr =>
              if s.pool[th.i].addr == NULL { EmptyEntryStep(s, tid, m); } else { ReadAddrStep(s, tid, m); }
            case Alloc => if MallocOk(s, m) { AllocStep(s, tid, m); } else { NoStep(s, tid, m); }
            case Fallback => if MallocOk(s, m) { AllocStep(s, tid, m); } else { NoStep(s, tid, m); }
            case Scan => ScanStep(s, tid, m);
            case Store => StoreStep(s, tid, m);
            case PutBack => GiveBackStep(s, tid, m);
            case Release => GiveBackStep(s, tid, m);
            case Free => FreeStep(s, tid, m);
            case _ => NoStep(s, tid, m);
          }
        }
    }
  }

  // ---------------------------------------------------------------- every reachable state

  lemma InitialInv()
    ensures Inv(Initial())
  {
  }

  lemma {:induction false} InvAlways(sched: Schedule, k: nat)
    requires k <= |sched|
    ensures Inv(At(sched, k))
  {
    hide Apply, Inv, Initial;
    if k == 0 {
      InitialInv();
    } else {
      InvAlways(sched, k - 1);
      InvKept(At(sched, k - 1), sched[k - 1]);
    }
  }

  /** In every interleaving: no two threads have the same stack. */
  lemma StacksAreExclusive(sched: Schedule, k: nat, t: nat, u: nat)
    requires k <= |sched| && t in At(sched, k).threads && u in At(sched, k).threads && t != u
    requires HasStack(At(sched, k).threads[t]) && HasStack(At(sched, k).threads[u])
    ensures At(sched, k).threads[t].addr != At(sched, k).threads[u].addr
    ensures At(sched, k).threads[t].addr in At(sched, k).live
  {
    InvAlways(sched, k);
    var s := At(sched, k);
    assert ThreadOk(s, s.threads[t]) && ThreadOk(s, s.threads[u]);
    assert Keeps(s.threads[t], s.threads[t].addr) && Keeps(s.threads[u], s.threads[u].addr);
  }

  /** An entry is marked used exactly when one thread owns it. */
  lemma UsedIffOwned(sched: Schedule, k: nat, i: nat)
    requires k <= |sched| && i < POOL_MAX
    ensures At(sched, k).pool[i].used <==> exists t: nat :: Owns(At(sched, k), t, i)
    ensures forall t: nat, u: nat | Owns(At(sched, k), t, i) && Owns(At(sched, k), u, i) :: t == u
  {
    InvAlways(sched, k);
  }

  /** A CAS that gives an entry back never fails: the errors logged for that case cannot occur. */
  lemma GiveBackNeverFails(sched: Schedule, k: nat, t: nat)
    requires k <= |sched| && t in At(sched, k).threads
    requires At(sched, k).threads[t].pc == PutBack || At(sched, k).threads[t].pc == Release
    ensures At(sched, k).pool[At(sched, k).threads[t].i].used
  {
    InvAlways(sched, k);
    GiveBackStep(At(sched, k), t, NULL);
  }

  lemma PoolStep(s: State, l: Label, i: nat)
    requires Shape(s) && Inv(s) && i < POOL_MAX && s.pool[i].addr != NULL
    ensures Apply(s, l).pool[i].addr == s.pool[i].addr && s.pool[i].addr in Apply(s, l).live
  {
    hide OwnedOk, Distinct, Accounted;
    if l.Run? && l.tid in s.threads {
      var th := s.threads[l.tid];
      assert ThreadOk(s, th);
      hide PoolOk, ThreadOk;
      if th.pc == Free { FreeIs(s, l.tid, l.m); }
    }
  }

  /** A pool address, once stored, stays in its entry and is never freed. */
  lemma {:induction false} PoolAddressesStay(sched: Schedule, j: nat, k: nat, i: nat)
    requires j <= k <= |sched| && i < POOL_MAX && At(sched, j).pool[i].addr != NULL
    ensures At(sched, k).pool[i].addr == At(sched, j).pool[i].addr && At(sched, j).pool[i].addr in At(sched, k).live
    decreases k
  {
    hide Apply;
    InvAlways(sched, k);
    if j < k {
      hide Inv;
      PoolAddressesStay(sched, j, k - 1, i);
      InvAlways(sched, k - 1);
      PoolStep(At(sched, k - 1), sched[k - 1], i);
    }
  }

  /**
   * In every state a stack that was allocated outside the pool is in no pool entry, so that free_stack never takes it
   * for one of the pool's; and a stack of the pool is the one of its entry, so that it never reaches free().
   */
  lemma FallbackStaysOutside(sched: Schedule, k: nat, t: nat, i: nat)
    requires k <= |sched| && t in At(sched, k).threads && HasStack(At(sched, k).threads[t]) && i < POOL_MAX
    ensures var s := At(sched, k); var th := s.threads[t];
      && (th.home >= POOL_MAX ==> s.pool[i].addr != th.addr && th.pc != Release)
      && (th.home < POOL_MAX ==> s.pool[th.home].addr == th.addr && th.pc != Free)
  {
    InvAlways(sched, k);
    assert ThreadOk(At(sched, k), At(sched, k).threads[t]);
  }

  /** What reaches free() came from outside the pool, is live, and is in no pool entry. */
  lemma OnlyFallbackStacksFreed(sched: Schedule, k: nat, t: nat, i: nat)
    requires k <= |sched| && t in At(sched, k).threads && At(sched, k).threads[t].pc == Free && i < POOL_MAX
    ensures var s := At(sched, k); var th := s.threads[t];
      th.home >= POOL_MAX && s.pool[i].addr != th.addr && th.addr in s.live
  {
    InvAlways(sched, k);
    assert ThreadOk(At(sched, k), At(sched, k).threads[t]);
  }

  /** No block is lost: every live block is in a pool entry or with a thread. */
  lemma NoLeak(sched: Schedule, k: nat, a: nat)
    requires k <= |sched| && a in At(sched, k).live
    ensures Placed(At(sched, k), a)
  {
    InvAlways(sched, k);
  }
}
