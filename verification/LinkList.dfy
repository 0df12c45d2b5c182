/**
 * The lock-free ordered list of src/linklist.c, as a step machine.
 *
 * Every shared load and every compare-and-swap of search, lstInsert, lstDelete and lstFind is a
 * step of its own, taken by one thread; a schedule says which thread moves next. The theorems
 * speak of every schedule: any number of threads, any interleaving. Nodes are never reused.
 */
module LinkList {

  // Addresses. The word at address NULL is never read; HEAD is the sentinel of lstCreate.
  const NULL: nat := 0
  const HEAD: nat := 1

  /** A `next` word: the address, and the mark kept in its low bit. */
  datatype Ref = Ref(node: nat, marked: bool)

  datatype Node = Node(key: nat, data: nat, next: Ref)

  /** The allocated nodes, and which of them have been linked in by a successful C2 so far. */
  datatype Heap = Heap(nodes: seq<Node>, linked: set<nat>)

  datatype Op = Insert(key: nat, data: nat) | Delete(key: nat) | Find(key: nat)

  /** lstInsert and lstDelete return a truth value, lstFind a data pointer (NULL when absent). */
  datatype Result = Truth(ok: bool) | Data(ptr: nat)

  datatype PC =
    | Start        // search(): *left_node = head; left_node_next = head->next
    | LoadHead     // search_again: t = head; t_next = head->next
    | Advance      // body of the inner loop
    | LoadNext     // t_next = t->next, and the loop test B1
    | Adjacent     // 2: check nodes are adjacent
    | Unlink       // C1
    | Recheck      // is right_node marked by now?
    | Dispatch     // search() has returned right_node
    | Link         // C2
    | LoadVictim   // right_node_next = right_node->next
    | Mark         // C3
    | Cut          // C4
    | Done(result: Result)

  /** One operation in progress: its call, and the local variables of the C functions. */
  datatype Thread = Thread(
    op: Op, call: nat, pc: PC,
    left: nat, leftNext: Ref, t: nat, tNext: Ref, right: nat, rightNext: Ref,
    newNode: nat,      // new_node of lstInsert
    removed: bool,     // lstDelete is past C3
    victim: nat)       // the node its C3 has marked

  datatype State = State(heap: Heap, threads: map<nat, Thread>, clock: nat)

  datatype Label = Call(tid: nat, op: Op) | Run(tid: nat)

  type Schedule = seq<Label>

  // ---------------------------------------------------------------- memory

  function Next(h: Heap, n: nat): (r: Ref) {
    if n < |h.nodes| then h.nodes[n].next else Ref(NULL, false)
  }

  function Key(h: Heap, n: nat): (k: nat) {
    if n < |h.nodes| then h.nodes[n].key else 0
  }

  function DataOf(h: Heap, n: nat): (d: nat) {
    if n < |h.nodes| then h.nodes[n].data else NULL
  }

  function Store(h: Heap, n: nat, r: Ref): (h': Heap) {
    if n < |h.nodes| then h.(nodes := h.nodes[n := h.nodes[n].(next := r)]) else h
  }

  // ---------------------------------------------------------------- one thread's step

  /** The end of search(): retry if right_node has been marked, else return to the caller. */
  function Settle(h: Heap, th: Thread): Thread {
    if th.right != NULL && Next(h, th.right).marked then th.(pc := LoadHead) else th.(pc := Dispatch)
  }

  function StepAdvance(th: Thread): Thread {
    var th' := if th.tNext.marked then th else th.(left := th.t, leftNext := th.tNext);
    if th.tNext.node == NULL
    then th'.(t := NULL, right := NULL, pc := Adjacent)
    else th'.(t := th.tNext.node, pc := LoadNext)
  }

  function StepLoadNext(h: Heap, th: Thread): Thread {
    var r := Next(h, th.t);
    if r.marked || Key(h, th.t) < th.op.key
    then th.(tNext := r, pc := Advance)
    else th.(tNext := r, right := th.t, pc := Adjacent)
  }

  function StepDispatch(h: Heap, th: Thread): (Heap, Thread) {
    var match? := th.right != NULL && Key(h, th.right) == th.op.key;
    if th.removed then (h, th.(pc := Done(Truth(true))))
    else match th.op
      case Insert(_, _) =>
        if match? then (h, th.(pc := Done(Truth(false))))
        else (Store(h, th.newNode, Ref(th.right, false)), th.(pc := Link))
      case Delete(_) =>
        if match? then (h, th.(pc := LoadVictim)) else (h, th.(pc := Done(Truth(false))))
      case Find(_) =>
        (h, th.(pc := Done(Data(if match? then DataOf(h, th.right) else NULL))))
  }

  function Step(h: Heap, th: Thread): (Heap, Thread) {
    match th.pc
    case Start => (h, th.(left := HEAD, leftNext := Next(h, HEAD), pc := LoadHead))
    case LoadHead => (h, th.(t := HEAD, tNext := Next(h, HEAD), pc := Advance))
    case Advance => (h, StepAdvance(th))
    case LoadNext => (h, StepLoadNext(h, th))
    case Adjacent => (h, if th.leftNext == Ref(th.right, false) then Settle(h, th) else th.(pc := Unlink))
    case Unlink =>
      if Next(h, th.left) == th.leftNext
      then (Store(h, th.left, Ref(th.right, false)), th.(pc := Recheck))
      else (h, th.(pc := LoadHead))
    case Recheck => (h, Settle(h, th))
    case Dispatch => StepDispatch(h, th)
    case Link =>
      if Next(h, th.left) == Ref(th.right, false)
      then (Store(h, th.left, Ref(th.newNode, false)).(linked := h.linked + {th.newNode}),
            th.(pc := Done(Truth(true))))
      else (h, th.(pc := Start))
    case LoadVictim =>
      (h, th.(rightNext := Next(h, th.right), pc := if Next(h, th.right).marked then Start else Mark))
    case Mark =>
      if Next(h, th.right) == th.rightNext
      then (Store(h, th.right, Ref(th.rightNext.node, true)), th.(pc := Cut, removed := true, victim := th.right))
      else (h, th.(pc := Start))
    case Cut =>
      if Next(h, th.left) == Ref(th.right, false)
      then (Store(h, th.left, th.rightNext), th.(pc := Done(Truth(true))))
      else (h, th.(pc := Start))
    case Done(_) => (h, th)
  }

  // ---------------------------------------------------------------- the whole machine

  function Begin(h: Heap, op: Op, now: nat): (Heap, Thread) {
    var th := Thread(op, now, Start, HEAD, Ref(NULL, false), NULL, Ref(NULL, false), NULL, Ref(NULL, false),
                     |h.nodes|, false, NULL);
    if op.Insert?
    then (h.(nodes := h.nodes + [Node(op.key, op.data, Ref(NULL, false))]), th)
    else (h, th)
  }

  predicate Busy(s: State, tid: nat) {
    tid in s.threads && !s.threads[tid].pc.Done?
  }

  function Apply(s: State, l: Label): State {
    match l
    case Call(tid, op) =>
      if Busy(s, tid) then s.(clock := s.clock + 1)
      else var (h, th) := Begin(s.heap, op, s.clock + 1);
           State(h, s.threads[tid := th], s.clock + 1)
    case Run(tid) =>
      if !Busy(s, tid) then s.(clock := s.clock + 1)
      else var (h, th) := Step(s.heap, s.threads[tid]);
           State(h, s.threads[tid := th], s.clock + 1)
  }

  const Initial: State := State(
    Heap([Node(0, 0, Ref(NULL, false)), Node(0, 0, Ref(NULL, false))], {HEAD}), map[], 0)

  /** The state after the first k steps of a schedule. */
  function At(sched: Schedule, k: nat): State
    requires k <= |sched|
  {
    if k == 0 then Initial else Apply(At(sched, k - 1), sched[k - 1])
  }

  /** What comes behind a part of a schedule makes no difference to it. */
  lemma {:induction false} AtPrefix(sched: Schedule, l: Label, k: nat)
    requires k <= |sched|
    ensures At(sched + [l], k) == At(sched, k)
  {
    hide Apply;
    if k > 0 { AtPrefix(sched, l, k - 1); }
  }

  // ---------------------------------------------------------------- the abstract list

  ghost predicate Live(h: Heap, n: nat) {
    n in h.linked && n != HEAD && !Next(h, n).marked
  }

  /** What the list holds: the (key, data) pairs of the linked nodes that are not marked. */
  ghost function Contents(h: Heap): set<(nat, nat)> {
    set n | n in h.linked && Live(h, n) :: (Key(h, n), DataOf(h, n))
  }

  ghost predicate Has(c: set<(nat, nat)>, key: nat) {
    exists d :: (key, d) in c
  }

  // ---------------------------------------------------------------- invariant of the heap

  /** Order along the chain; the sentinel comes before every key. */
  ghost function Rank(h: Heap, n: nat): int {
    if n == HEAD then -1 else Key(h, n)
  }

  /** Along every link of a linked node the order strictly increases: no cycle, no two equal keys on a path. */
  ghost predicate Ordered(h: Heap) {
    && |h.nodes| >= 2
    && HEAD in h.linked && NULL !in h.linked
    && !Next(h, HEAD).marked
    && (forall n | n in h.linked :: n < |h.nodes|)
    && (forall n {:trigger Next(h, n)} | n in h.linked ::
          Next(h, n).node == NULL || (Next(h, n).node in h.linked && Rank(h, n) < Rank(h, Next(h, n).node)))
  }

  /** Following `next` n times from a reaches b. */
  ghost predicate Path(h: Heap, a: nat, b: nat, n: nat)
    decreases n
  {
    if n == 0 then a == b else a in h.linked && Path(h, Next(h, a).node, b, n - 1)
  }

  ghost predicate Reachable(h: Heap, b: nat) {
    exists n :: Path(h, HEAD, b, n)
  }

  ghost predicate HeapInv(h: Heap) {
    && Ordered(h)
    && (forall n | n in h.linked && !Next(h, n).marked :: Reachable(h, n))
  }

  // ---------------------------------------------------------------- invariant of a thread

  /** Following `next` from a reaches b after n nodes, all of them marked. */
  ghost predicate MarkedRun(h: Heap, a: nat, b: nat, n: nat)
    decreases n
  {
    if n == 0 then a == b
    else a in h.linked && Next(h, a).marked && MarkedRun(h, Next(h, a).node, b, n - 1)
  }

  ghost predicate OnlyMarkedBetween(h: Heap, a: nat, b: nat) {
    exists n :: MarkedRun(h, a, b, n)
  }

  ghost predicate LeftOk(h: Heap, th: Thread) {
    th.left in h.linked && (th.left == HEAD || Key(h, th.left) < th.op.key)
  }

  ghost predicate RightOk(h: Heap, th: Thread) {
    th.right == NULL || (th.right in h.linked && th.right != HEAD && Key(h, th.right) >= th.op.key)
  }

  ghost predicate Linked?(h: Heap, r: Ref) {
    r.node == NULL || r.node in h.linked
  }

  /** new_node is still private to its thread. */
  ghost predicate Private(th: Thread) {
    th.op.Insert? && !th.pc.Done?
  }

  ghost predicate FreshOk(h: Heap, th: Thread)
    requires th.op.Insert?
  {
    && th.newNode < |h.nodes| && th.newNode !in h.linked && th.newNode != NULL
    && Key(h, th.newNode) == th.op.key && DataOf(h, th.newNode) == th.op.data
    && !Next(h, th.newNode).marked
  }

  ghost predicate PcOk(h: Heap, th: Thread) {
    match th.pc
    case Start => true
    case LoadHead => LeftOk(h, th) && !th.leftNext.marked
    case Advance =>
      && LeftOk(h, th) && !th.leftNext.marked && th.t in h.linked && Linked?(h, th.tNext)
      && th.tNext.node != HEAD
      && (if th.tNext.marked
          then Next(h, th.t) == th.tNext && OnlyMarkedBetween(h, th.leftNext.node, th.t)
          else th.t == HEAD || Key(h, th.t) < th.op.key)
    case LoadNext =>
      && LeftOk(h, th) && !th.leftNext.marked && th.t in h.linked && th.t != HEAD
      && OnlyMarkedBetween(h, th.leftNext.node, th.t)
    case Adjacent =>
      && LeftOk(h, th) && !th.leftNext.marked && RightOk(h, th)
      && OnlyMarkedBetween(h, th.leftNext.node, th.right)
    case Unlink =>
      && LeftOk(h, th) && !th.leftNext.marked && RightOk(h, th)
      && OnlyMarkedBetween(h, th.leftNext.node, th.right)
    case Recheck => LeftOk(h, th) && !th.leftNext.marked && RightOk(h, th)
    case Dispatch => LeftOk(h, th) && RightOk(h, th) && (th.removed ==> th.right != th.victim)
    case Link =>
      && th.op.Insert? && !th.removed && LeftOk(h, th) && RightOk(h, th)
      && (th.right != NULL ==> Key(h, th.right) > th.op.key)
      && Next(h, th.newNode) == Ref(th.right, false)
    case LoadVictim =>
      && th.op.Delete? && !th.removed && LeftOk(h, th)
      && RightOk(h, th) && th.right != NULL && Key(h, th.right) == th.op.key
    case Mark =>
      && th.op.Delete? && !th.removed && LeftOk(h, th)
      && RightOk(h, th) && th.right != NULL && Key(h, th.right) == th.op.key && !th.rightNext.marked
    case Cut =>
      && th.op.Delete? && th.removed && LeftOk(h, th)
      && RightOk(h, th) && th.right != NULL && th.right == th.victim
      && !th.rightNext.marked && Next(h, th.right) == Ref(th.rightNext.node, true)
    case Done(_) => true
  }

  ghost predicate ThreadInv(h: Heap, th: Thread) {
    && PcOk(h, th)
    && (Private(th) ==> FreshOk(h, th))
    && (th.removed ==> th.op.Delete? && th.victim in h.linked && Next(h, th.victim).marked)
  }

  ghost predicate Inv(s: State) {
    && HeapInv(s.heap)
    && (forall i | i in s.threads :: ThreadInv(s.heap, s.threads[i]))
    && (forall i, j | i in s.threads && j in s.threads && i != j
          && Private(s.threads[i]) && Private(s.threads[j]) :: s.threads[i].newNode != s.threads[j].newNode)
  }

  // ---------------------------------------------------------------- what a step may do to the heap

  /** Nodes keep key and data, linked nodes stay linked, and the `next` of a marked node is frozen. */
  ghost predicate Evolves(h: Heap, h': Heap) {
    && |h.nodes| <= |h'.nodes|
    && h.linked <= h'.linked
    && (forall n | 0 <= n < |h.nodes| :: Key(h', n) == Key(h, n) && DataOf(h', n) == DataOf(h, n))
    && (forall n | n in h.linked && Next(h, n).marked :: Next(h', n) == Next(h, n))
  }

  lemma {:induction false} MarkedRunStable(h: Heap, h': Heap, a: nat, b: nat, n: nat)
    requires Evolves(h, h') && MarkedRun(h, a, b, n)
    ensures MarkedRun(h', a, b, n)
    decreases n
  {
    if n > 0 { MarkedRunStable(h, h', Next(h, a).node, b, n - 1); }
  }

  lemma OnlyMarkedStable(h: Heap, h': Heap, a: nat, b: nat)
    requires Evolves(h, h') && OnlyMarkedBetween(h, a, b)
    ensures OnlyMarkedBetween(h', a, b)
  {
    var n: nat :| MarkedRun(h, a, b, n);
    MarkedRunStable(h, h', a, b, n);
  }

  lemma {:induction false} MarkedRunSnoc(h: Heap, a: nat, b: nat, n: nat)
    requires MarkedRun(h, a, b, n) && b in h.linked && Next(h, b).marked
    ensures MarkedRun(h, a, Next(h, b).node, n + 1)
    decreases n
  {
    if n > 0 { MarkedRunSnoc(h, Next(h, a).node, b, n - 1); }
    else { assert MarkedRun(h, Next(h, b).node, Next(h, b).node, 0); }
  }

  /** A thread's knowledge survives every step of the others. */
  lemma ThreadStable(h: Heap, h': Heap, th: Thread)
    requires Ordered(h) && Evolves(h, h') && ThreadInv(h, th)
    requires Private(th) ==> th.newNode !in h'.linked && Next(h', th.newNode) == Next(h, th.newNode)
    ensures ThreadInv(h', th)
  {
    if th.pc.Advance? && th.tNext.marked { OnlyMarkedStable(h, h', th.leftNext.node, th.t); }
    if th.pc.LoadNext? { OnlyMarkedStable(h, h', th.leftNext.node, th.t); }
    if th.pc.Adjacent? || th.pc.Unlink? { OnlyMarkedStable(h, h', th.leftNext.node, th.right); }
  }

  // ---------------------------------------------------------------- paths

  lemma {:induction false} PathClimbs(h: Heap, a: nat, b: nat, n: nat)
    requires Ordered(h) && Path(h, a, b, n) && b in h.linked
    ensures a in h.linked
    ensures n > 0 ==> Rank(h, a) < Rank(h, b)
    ensures n == 0 ==> a == b
    decreases n
  {
    if n > 0 { PathClimbs(h, Next(h, a).node, b, n - 1); }
  }

  lemma {:induction false} PathJoin(h: Heap, a: nat, b: nat, c: nat, m: nat, n: nat)
    requires Path(h, a, b, m) && Path(h, b, c, n)
    ensures Path(h, a, c, m + n)
    decreases m
  {
    if m > 0 { PathJoin(h, Next(h, a).node, b, c, m - 1, n); }
  }

  /** Two nodes on paths from a lie on one path. */
  lemma {:induction false} PathSplit(h: Heap, a: nat, b: nat, c: nat, m: nat, n: nat)
    requires Ordered(h) && b in h.linked && c in h.linked
    requires Path(h, a, b, m) && Path(h, a, c, n) && Rank(h, b) <= Rank(h, c)
    ensures m <= n && Path(h, b, c, n - m)
    decreases m
  {
    if m > 0 {
      PathClimbs(h, a, b, m);
      PathSplit(h, Next(h, a).node, b, c, m - 1, n - 1);
    }
  }

  ghost predicate SameLinks(h: Heap, h': Heap, but: nat) {
    && h.linked <= h'.linked
    && (forall x {:trigger Next(h', x)} | x in h.linked && x != but :: Next(h', x).node == Next(h, x).node)
  }

  lemma {:induction false} PathBefore(h: Heap, h': Heap, but: nat, a: nat, b: nat, n: nat)
    requires Ordered(h) && SameLinks(h, h', but) && Path(h, a, b, n)
    requires b in h.linked && Rank(h, b) <= Rank(h, but)
    ensures Path(h', a, b, n)
    decreases n
  {
    if n > 0 {
      PathClimbs(h, a, b, n);
      PathBefore(h, h', but, Next(h, a).node, b, n - 1);
      assert Next(h', a).node == Next(h, a).node;
    }
  }

  lemma {:induction false} PathAfter(h: Heap, h': Heap, but: nat, a: nat, b: nat, n: nat)
    requires Ordered(h) && SameLinks(h, h', but) && Path(h, a, b, n)
    requires b in h.linked && Rank(h, but) < Rank(h, a)
    ensures Path(h', a, b, n)
    decreases n
  {
    if n > 0 {
      PathClimbs(h, Next(h, a).node, b, n - 1);
      PathAfter(h, h', but, Next(h, a).node, b, n - 1);
      assert Next(h', a).node == Next(h, a).node;
    }
  }

  /** A path to an unmarked node runs through the whole of any run of marked nodes it enters. */
  lemma {:induction false} PathThroughRun(h: Heap, a: nat, b: nat, c: nat, m: nat, n: nat)
    requires MarkedRun(h, a, b, m) && Path(h, a, c, n) && !Next(h, c).marked
    ensures m <= n && Path(h, b, c, n - m)
    decreases m
  {
    if m > 0 { PathThroughRun(h, Next(h, a).node, b, c, m - 1, n - 1); }
  }

  /** From an unmarked node, every unmarked node of greater rank is reached through its successor. */
  lemma PathOnward(h: Heap, left: nat, m: nat) returns (n: nat)
    requires HeapInv(h) && left in h.linked && m in h.linked
    requires !Next(h, left).marked && !Next(h, m).marked && Rank(h, left) < Rank(h, m)
    ensures Path(h, Next(h, left).node, m, n)
  {
    var i: nat :| Path(h, HEAD, left, i);
    var j: nat :| Path(h, HEAD, m, j);
    PathSplit(h, HEAD, left, m, i, j);
    n := j - i - 1;
  }

  // ---------------------------------------------------------------- the four successful CAS

  lemma StoreFacts(h: Heap, n: nat, r: Ref)
    requires n < |h.nodes|
    ensures var h' := Store(h, n, r);
            && h'.linked == h.linked && |h'.nodes| == |h.nodes|
            && (forall m {:trigger Next(h', m)} :: Next(h', m) == if m == n then r else Next(h, m))
            && (forall m {:trigger Key(h', m)} :: Key(h', m) == Key(h, m))
            && (forall m {:trigger DataOf(h', m)} :: DataOf(h', m) == DataOf(h, m))
            && (forall m {:trigger Rank(h', m)} :: Rank(h', m) == Rank(h, m))
  {
  }

  lemma OrderedAfterStore(h: Heap, n: nat, r: Ref)
    requires Ordered(h) && n in h.linked && (n == HEAD ==> !r.marked)
    requires r.node != NULL ==> r.node in h.linked && Rank(h, n) < Rank(h, r.node)
    ensures Ordered(Store(h, n, r))
  {
    StoreFacts(h, n, r);
  }

  /** A changed `next` below m, on whose far side m is still reached, leaves m reachable. */
  lemma StillReachable(h: Heap, h': Heap, left: nat, m: nat, k: nat)
    requires HeapInv(h) && SameLinks(h, h', left) && left in h.linked && !Next(h, left).marked
    requires m in h.linked && !Next(h, m).marked
    requires Rank(h, left) < Rank(h, m) ==> Path(h', Next(h', left).node, m, k)
    ensures Reachable(h', m)
  {
    if Rank(h, m) <= Rank(h, left) {
      var i: nat :| Path(h, HEAD, m, i);
      PathBefore(h, h', left, HEAD, m, i);
    } else {
      var i: nat :| Path(h, HEAD, left, i);
      PathBefore(h, h', left, HEAD, left, i);
      assert Path(h', left, m, k + 1);
      PathJoin(h', HEAD, left, m, i, k + 1);
    }
  }

  /** Behind a run of marked nodes lies a node of greater rank, or the end. */
  lemma {:induction false} RunClimbs(h: Heap, a: nat, b: nat, n: nat)
    requires Ordered(h) && MarkedRun(h, a, b, n) && (a == NULL || a in h.linked)
    ensures b == NULL || (b in h.linked && Rank(h, a) <= Rank(h, b))
    decreases n
  {
    if n > 0 { RunClimbs(h, Next(h, a).node, b, n - 1); }
  }

  /** C1 and C4: swinging an unmarked node's `next` past marked nodes changes nothing the list holds. */
  lemma BypassKeepsHeap(h: Heap, left: nat, a: nat, right: nat)
    requires HeapInv(h) && left in h.linked && Next(h, left) == Ref(a, false)
    requires OnlyMarkedBetween(h, a, right)
    ensures HeapInv(Store(h, left, Ref(right, false)))
    ensures Evolves(h, Store(h, left, Ref(right, false)))
    ensures Contents(Store(h, left, Ref(right, false))) == Contents(h)
  {
    var h' := Store(h, left, Ref(right, false));
    var n: nat :| MarkedRun(h, a, right, n);
    StoreFacts(h, left, Ref(right, false));
    RunClimbs(h, a, right, n);
    OrderedAfterStore(h, left, Ref(right, false));
    forall m | m in h'.linked && !Next(h', m).marked ensures Reachable(h', m) {
      var k := 0;
      if Rank(h, left) < Rank(h, m) {
        k := PathOnward(h, left, m);
        PathThroughRun(h, a, right, m, n, k);
        k := k - n;
        PathClimbs(h, right, m, k);
        PathAfter(h, h', left, right, m, k);
      }
      StillReachable(h, h', left, m, k);
    }
    assert forall m :: Live(h', m) == Live(h, m);
  }

  lemma OrderedAfterLink(h: Heap, left: nat, node: nat, h': Heap)
    requires Ordered(h) && left in h.linked && node !in h.linked && node < |h.nodes| && node != NULL
    requires !Next(h, left).marked && Next(h, node) == Next(h, left)
    requires Rank(h, left) < Rank(h, node)
    requires Next(h, node).node != NULL ==> Rank(h, node) < Rank(h, Next(h, node).node)
    requires h' == Store(h, left, Ref(node, false)).(linked := h.linked + {node})
    ensures Ordered(h') && Evolves(h, h') && SameLinks(h, h', left)
    ensures Next(h', node) == Next(h, node)
  {
    StoreFacts(h, left, Ref(node, false));
    assert forall m {:trigger Next(h', m)} :: Next(h', m) == Next(Store(h, left, Ref(node, false)), m);
    assert forall m {:trigger Rank(h', m)} :: Rank(h', m) == Rank(h, m);
  }

  /** C2: the new node appears between left and right, and with it its key and data. */
  lemma LinkKeepsHeap(h: Heap, left: nat, right: nat, node: nat, h': Heap)
    requires HeapInv(h) && left in h.linked && Next(h, left) == Ref(right, false)
    requires node < |h.nodes| && node !in h.linked && node != NULL && Next(h, node) == Ref(right, false)
    requires Rank(h, left) < Rank(h, node) && (right != NULL ==> Rank(h, node) < Rank(h, right))
    requires h' == Store(h, left, Ref(node, false)).(linked := h.linked + {node})
    ensures HeapInv(h') && Evolves(h, h')
    ensures !Has(Contents(h), Key(h, node))
    ensures Contents(h') == Contents(h) + {(Key(h, node), DataOf(h, node))}
  {
    OrderedAfterLink(h, left, node, h');
    forall m | m in h'.linked && !Next(h', m).marked ensures Reachable(h', m) {
      if m == node {
        var i: nat :| Path(h, HEAD, left, i);
        PathBefore(h, h', left, HEAD, left, i);
        assert Path(h', node, node, 0);
        assert Path(h', left, node, 1);
        PathJoin(h', HEAD, left, node, i, 1);
      } else {
        var k := 0;
        if Rank(h, left) < Rank(h, m) {
          k := PathOnward(h, left, m);
          PathClimbs(h, right, m, k);
          PathAfter(h, h', left, right, m, k);
          k := k + 1;
        }
        StillReachable(h, h', left, m, k);
      }
    }
    GapHasNoKey(h, left, Key(h, node));
    assert forall m :: Live(h', m) <==> Live(h, m) || m == node;
    assert forall p :: p in Contents(h') <==> p in Contents(h) || p == (Key(h, node), DataOf(h, node));
  }

  /** No key lies between an unmarked node and its successor. */
  lemma GapHasNoKey(h: Heap, left: nat, key: nat)
    requires HeapInv(h) && left in h.linked && !Next(h, left).marked && Rank(h, left) < key
    requires Next(h, left).node != NULL ==> key < Rank(h, Next(h, left).node)
    ensures !Has(Contents(h), key)
  {
    forall m | Live(h, m) ensures Key(h, m) != key {
      if Rank(h, left) < Rank(h, m) {
        var n := PathOnward(h, left, m);
        PathClimbs(h, Next(h, left).node, m, n);
      }
    }
  }

  /** C3: the victim leaves the list at the instant its mark is set. */
  lemma MarkKeepsHeap(h: Heap, victim: nat, next: nat, h': Heap)
    requires HeapInv(h) && victim in h.linked && victim != HEAD && Next(h, victim) == Ref(next, false)
    requires h' == Store(h, victim, Ref(next, true))
    ensures HeapInv(h') && Evolves(h, h')
    ensures (Key(h, victim), DataOf(h, victim)) in Contents(h)
    ensures Contents(h') == Contents(h) - {(Key(h, victim), DataOf(h, victim))}
  {
    StoreFacts(h, victim, Ref(next, true));
    OrderedAfterStore(h, victim, Ref(next, true));
    forall m | m in h'.linked && !Next(h', m).marked ensures Reachable(h', m) {
      var i: nat :| Path(h, HEAD, m, i);
      PathSame(h, h', HEAD, m, i);
    }
    assert Live(h, victim);
    forall m | Live(h, m) && m != victim ensures Key(h, m) != Key(h, victim) {
      KeysUnique(h, m, victim);
    }
    assert forall m :: Live(h', m) <==> Live(h, m) && m != victim;
    assert forall p :: p in Contents(h') <==> p in Contents(h) && p != (Key(h, victim), DataOf(h, victim));
  }

  lemma {:induction false} PathSame(h: Heap, h': Heap, a: nat, b: nat, n: nat)
    requires h.linked <= h'.linked && (forall x :: Next(h', x).node == Next(h, x).node) && Path(h, a, b, n)
    ensures Path(h', a, b, n)
    decreases n
  {
    if n > 0 { PathSame(h, h', Next(h, a).node, b, n - 1); }
  }

  /** The list never holds a key twice. */
  lemma KeysUnique(h: Heap, m: nat, n: nat)
    requires HeapInv(h) && Live(h, m) && Live(h, n) && m != n
    ensures Key(h, m) != Key(h, n)
  {
    var i: nat :| Path(h, HEAD, m, i);
    var j: nat :| Path(h, HEAD, n, j);
    if Key(h, m) == Key(h, n) {
      PathSplit(h, HEAD, m, n, i, j);
      PathClimbs(h, m, n, j - i);
    }
  }

  // ---------------------------------------------------------------- every step keeps the invariant

  /** What the other threads may rely on: nothing private to them is touched. */
  ghost predicate StepOk(h: Heap, th: Thread, h': Heap, th': Thread) {
    && HeapInv(h') && Evolves(h, h') && ThreadInv(h', th')
    && th'.op == th.op && th'.call == th.call && th'.newNode == th.newNode
    && (forall n | n in h'.linked && n !in h.linked :: Private(th) && n == th.newNode)
    && (forall n {:trigger Next(h', n)} | n !in h.linked && !(Private(th) && n == th.newNode) ::
        Next(h', n) == Next(h, n))
  }

  lemma StepKeepsOp(h: Heap, th: Thread)
    ensures Step(h, th).1.op == th.op && Step(h, th).1.call == th.call
  {
  }

  lemma WalkStepOk(h: Heap, th: Thread)
    requires Ordered(h) && PcOk(h, th) && th.pc in {Advance, LoadNext}
    ensures PcOk(h, Step(h, th).1)
  {
    var th' := Step(h, th).1;
    assert MarkedRun(h, th'.leftNext.node, th'.leftNext.node, 0);
    if th.pc.Advance? && th.tNext.marked {
      var n: nat :| MarkedRun(h, th.leftNext.node, th.t, n);
      MarkedRunSnoc(h, th.leftNext.node, th.t, n);
    }
  }

  lemma SearchStepOk(h: Heap, th: Thread)
    requires HeapInv(h) && ThreadInv(h, th)
    requires th.pc in {Start, LoadHead, Advance, LoadNext, Adjacent, Recheck, LoadVictim}
    ensures var (h', th') := Step(h, th); h' == h && StepOk(h, th, h', th')
  {
    StepKeepsOp(h, th);
    if th.pc in {Advance, LoadNext} { WalkStepOk(h, th); }
  }

  lemma UnlinkStepOk(h: Heap, th: Thread)
    requires HeapInv(h) && ThreadInv(h, th) && th.pc.Unlink?
    ensures var (h', th') := Step(h, th); StepOk(h, th, h', th') && Contents(h') == Contents(h)
  {
    if Next(h, th.left) == th.leftNext {
      BypassKeepsHeap(h, th.left, th.leftNext.node, th.right);
      StoreFacts(h, th.left, Ref(th.right, false));
    }
  }

  lemma DispatchStepOk(h: Heap, th: Thread)
    requires HeapInv(h) && ThreadInv(h, th) && th.pc.Dispatch?
    ensures var (h', th') := Step(h, th); StepOk(h, th, h', th') && Contents(h') == Contents(h)
  {
    var (h', th') := Step(h, th);
    if th'.pc.Link? {
      StoreFacts(h, th.newNode, Ref(th.right, false));
      assert forall m | m in h.linked :: Next(h', m) == Next(h, m);
      assert forall m | m in h.linked :: Rank(h', m) == Rank(h, m);
      forall m | m in h'.linked && !Next(h', m).marked ensures Reachable(h', m) {
        var i: nat :| Path(h, HEAD, m, i);
        PathSameLinked(h, h', HEAD, m, i);
      }
      assert forall m :: Live(h', m) == Live(h, m);
    }
  }

  lemma {:induction false} PathSameLinked(h: Heap, h': Heap, a: nat, b: nat, n: nat)
    requires h.linked <= h'.linked && (forall x | x in h.linked :: Next(h', x) == Next(h, x)) && Path(h, a, b, n)
    ensures Path(h', a, b, n)
    decreases n
  {
    if n > 0 { PathSameLinked(h, h', Next(h, a).node, b, n - 1); }
  }

  lemma LinkStepOk(h: Heap, th: Thread)
    requires HeapInv(h) && ThreadInv(h, th) && th.pc.Link?
    ensures var (h', th') := Step(h, th);
            && StepOk(h, th, h', th')
            && if th'.pc.Done?
               then !Has(Contents(h), th.op.key) && Contents(h') == Contents(h) + {(th.op.key, th.op.data)}
               else h' == h
  {
    var (h', th') := Step(h, th);
    if th'.pc.Done? {
      LinkKeepsHeap(h, th.left, th.right, th.newNode, h');
    }
  }

  lemma MarkStepOk(h: Heap, th: Thread)
    requires HeapInv(h) && ThreadInv(h, th) && th.pc.Mark?
    ensures var (h', th') := Step(h, th);
            && StepOk(h, th, h', th')
            && if th'.pc.Cut?
               then (th.op.key, DataOf(h, th.right)) in Contents(h)
                    && Contents(h') == Contents(h) - {(th.op.key, DataOf(h, th.right))}
               else h' == h
  {
    var (h', th') := Step(h, th);
    if th'.pc.Cut? {
      MarkKeepsHeap(h, th.right, th.rightNext.node, h');
      StoreFacts(h, th.right, Ref(th.rightNext.node, true));
    }
  }

  lemma CutStepOk(h: Heap, th: Thread)
    requires HeapInv(h) && ThreadInv(h, th) && th.pc.Cut?
    ensures var (h', th') := Step(h, th); StepOk(h, th, h', th') && Contents(h') == Contents(h)
  {
    if Next(h, th.left) == Ref(th.right, false) {
      assert MarkedRun(h, th.rightNext.node, th.rightNext.node, 0);
      assert MarkedRun(h, th.right, th.rightNext.node, 1);
      BypassKeepsHeap(h, th.left, th.right, th.rightNext.node);
      StoreFacts(h, th.left, th.rightNext);
    }
  }

  // ---------------------------------------------------------------- every reachable state

  lemma StepKeeps(h: Heap, th: Thread)
    requires HeapInv(h) && ThreadInv(h, th) && !th.pc.Done?
    ensures var (h', th') := Step(h, th); StepOk(h, th, h', th')
  {
    match th.pc {
      case Unlink => UnlinkStepOk(h, th);
      case Dispatch => DispatchStepOk(h, th);
      case Link => LinkStepOk(h, th);
      case Mark => MarkStepOk(h, th);
      case Cut => CutStepOk(h, th);
      case _ => SearchStepOk(h, th);
    }
  }

  lemma RunKeepsInv(s: State, tid: nat)
    requires Inv(s) && Busy(s, tid)
    ensures Inv(Apply(s, Run(tid)))
  {
    var th := s.threads[tid];
    var (h', th') := Step(s.heap, th);
    var s' := Apply(s, Run(tid));
    StepKeeps(s.heap, th);
    forall i | i in s'.threads ensures ThreadInv(s'.heap, s'.threads[i]) {
      if i != tid { ThreadStable(s.heap, h', s.threads[i]); }
    }
  }

  lemma AllocationKeepsHeap(h: Heap, op: Op, now: nat)
    requires HeapInv(h)
    ensures var h' := Begin(h, op, now).0;
            && HeapInv(h') && Evolves(h, h') && h'.linked == h.linked && Contents(h') == Contents(h)
            && forall n: nat | n < |h.nodes| :: Next(h', n) == Next(h, n)
  {
    var h' := Begin(h, op, now).0;
    assert forall n: nat | n < |h.nodes| :: Next(h', n) == Next(h, n) && Rank(h', n) == Rank(h, n);
    forall m | m in h'.linked && !Next(h', m).marked ensures Reachable(h', m) {
      var i: nat :| Path(h, HEAD, m, i);
      PathSameLinked(h, h', HEAD, m, i);
    }
    assert forall m :: Live(h', m) == Live(h, m);
  }

  lemma CallKeepsInv(s: State, tid: nat, op: Op)
    requires Inv(s) && !Busy(s, tid)
    ensures Inv(Apply(s, Call(tid, op)))
    ensures Contents(Apply(s, Call(tid, op)).heap) == Contents(s.heap)
  {
    var h' := Begin(s.heap, op, s.clock + 1).0;
    var s' := Apply(s, Call(tid, op));
    AllocationKeepsHeap(s.heap, op, s.clock + 1);
    forall i | i in s'.threads ensures ThreadInv(s'.heap, s'.threads[i]) {
      if i != tid { ThreadStable(s.heap, h', s.threads[i]); }
    }
  }

  /**
   * Safety of every interleaving: links always lead upwards in key, every node that has been linked
   * in and is not marked can be reached from the head, and each thread's knowledge is sound.
   */
  lemma {:induction false} ReachableStates(sched: Schedule, k: nat)
    requires k <= |sched|
    ensures Inv(At(sched, k)) && At(sched, k).clock == k
  {
    if k == 0 {
      assert Path(Initial.heap, HEAD, HEAD, 0);
      assert Reachable(Initial.heap, HEAD);
    } else {
      ReachableStates(sched, k - 1);
      var s := At(sched, k - 1);
      match sched[k - 1] {
        case Call(tid, op) => if !Busy(s, tid) { CallKeepsInv(s, tid, op); }
        case Run(tid) => if Busy(s, tid) { RunKeepsInv(s, tid); }
      }
    }
  }

  /** The addresses a thread's next step reads or writes; a delete past C3 reads right_node's data for delete_fn. */
  ghost function Dereferenced(th: Thread): set<nat> {
    match th.pc
    case Start => {HEAD}
    case LoadHead => {HEAD}
    case LoadNext => {th.t}
    case Adjacent => if th.right == NULL then {} else {th.right}
    case Unlink => {th.left}
    case Recheck => if th.right == NULL then {} else {th.right}
    case Dispatch =>
      (if th.right == NULL && !th.removed then {} else {th.right}) + (if th.op.Insert? then {th.newNode} else {})
    case Link => {th.left, th.newNode}
    case LoadVictim => {th.right}
    case Mark => {th.right}
    case Cut => {th.left, th.right}
    case _ => {}
  }

  /**
   * No thread ever follows a stray pointer: it touches linked nodes and its own new node only. NULL is followed in
   * just one place: by a delete whose C4 has failed and whose second search found nothing behind its key.
   */
  lemma NoStrayDereference(sched: Schedule, k: nat, tid: nat, n: nat)
    requires k <= |sched| && Busy(At(sched, k), tid)
    requires n in Dereferenced(At(sched, k).threads[tid])
    ensures var s, th := At(sched, k), At(sched, k).threads[tid];
            && (n == NULL <==> th.pc.Dispatch? && th.removed && th.right == NULL)
            && (n != NULL ==> n < |s.heap.nodes| && (n in s.heap.linked || (th.op.Insert? && n == th.newNode)))
  {
    ReachableStates(sched, k);
    assert ThreadInv(At(sched, k).heap, At(sched, k).threads[tid]);
  }

  /** In every reachable state the nodes met from the head have strictly increasing keys: the chain is acyclic. */
  lemma ChainStrictlyIncreasing(sched: Schedule, k: nat, a: nat, b: nat, m: nat, n: nat)
    requires k <= |sched|
    requires var h := At(sched, k).heap; Path(h, HEAD, a, m) && Path(h, a, b, n) && n > 0 && b != NULL
    ensures var h := At(sched, k).heap; a != b && b != HEAD && (a != HEAD ==> Key(h, a) < Key(h, b))
  {
    ReachableStates(sched, k);
    var h := At(sched, k).heap;
    PathLinked(h, HEAD, a, m);
    PathLinked(h, a, b, n);
    PathClimbs(h, a, b, n);
  }

  lemma {:induction false} PathLinked(h: Heap, a: nat, b: nat, n: nat)
    requires Ordered(h) && Path(h, a, b, n) && (a == NULL || a in h.linked)
    ensures b == NULL || b in h.linked
    decreases n
  {
    if n > 0 { PathLinked(h, Next(h, a).node, b, n - 1); }
  }

  // ---------------------------------------------------------------- when the contents change

  ghost function ContentsAt(sched: Schedule, k: nat): set<(nat, nat)>
    requires k <= |sched|
  {
    Contents(At(sched, k).heap)
  }

  /** Step k of the schedule is a C2 that succeeds in linking in this key. */
  ghost predicate Links(sched: Schedule, k: nat, key: nat)
    requires k < |sched|
  {
    && sched[k].Run? && Busy(At(sched, k), sched[k].tid)
    && var th := At(sched, k).threads[sched[k].tid];
       th.pc.Link? && th.op.key == key && Next(At(sched, k).heap, th.left) == Ref(th.right, false)
  }

  /** Step k of the schedule is a C3 that succeeds in marking this key's node. */
  ghost predicate Marks(sched: Schedule, k: nat, key: nat)
    requires k < |sched|
  {
    && sched[k].Run? && Busy(At(sched, k), sched[k].tid)
    && var th := At(sched, k).threads[sched[k].tid];
       th.pc.Mark? && th.op.key == key && Next(At(sched, k).heap, th.right) == th.rightNext
  }

  /** The set of held keys changes only at C2, which adds its key, and at C3, which removes it. */
  lemma ContentsChangeAtC2C3(sched: Schedule, k: nat)
    requires k < |sched|
    ensures forall key: nat | Links(sched, k, key) ::
              !Has(ContentsAt(sched, k), key)
              && exists d: nat :: ContentsAt(sched, k + 1) == ContentsAt(sched, k) + {(key, d)}
    ensures forall key: nat | Marks(sched, k, key) ::
              exists d: nat :: (key, d) in ContentsAt(sched, k)
                          && ContentsAt(sched, k + 1) == ContentsAt(sched, k) - {(key, d)}
    ensures (forall key: nat :: !Links(sched, k, key) && !Marks(sched, k, key)) ==>
              ContentsAt(sched, k + 1) == ContentsAt(sched, k)
  {
    ReachableStates(sched, k);
    var s := At(sched, k);
    match sched[k] {
      case Call(tid, op) =>
        if !Busy(s, tid) { CallKeepsInv(s, tid, op); }
      case Run(tid) =>
        if Busy(s, tid) {
          var th := s.threads[tid];
          match th.pc {
            case Unlink => UnlinkStepOk(s.heap, th);
            case Dispatch => DispatchStepOk(s.heap, th);
            case Link => LinkStepOk(s.heap, th);
                         assert Step(s.heap, th).1.pc.Done? ==> Links(sched, k, th.op.key);
            case Mark => MarkStepOk(s.heap, th);
                         assert Step(s.heap, th).1.pc.Cut? ==> Marks(sched, k, th.op.key);
            case Cut => CutStepOk(s.heap, th);
            case _ => SearchStepOk(s.heap, th);
          }
        }
    }
  }

  ghost function CountLinks(sched: Schedule, k: nat, key: nat): nat
    requires k <= |sched|
  {
    if k == 0 then 0 else CountLinks(sched, k - 1, key) + if Links(sched, k - 1, key) then 1 else 0
  }

  ghost function CountMarks(sched: Schedule, k: nat, key: nat): nat
    requires k <= |sched|
  {
    if k == 0 then 0 else CountMarks(sched, k - 1, key) + if Marks(sched, k - 1, key) then 1 else 0
  }

  /** For each key, completed inserts minus completed deletes is 0 or 1, and is its membership. */
  lemma {:induction false} MembershipIsBalance(sched: Schedule, k: nat, key: nat)
    requires k <= |sched|
    ensures CountLinks(sched, k, key) - CountMarks(sched, k, key) == if Has(ContentsAt(sched, k), key) then 1 else 0
    ensures forall d, e | (key, d) in ContentsAt(sched, k) && (key, e) in ContentsAt(sched, k) :: d == e
  {
    ReachableStates(sched, k);
    var h := At(sched, k).heap;
    forall d, e | (key, d) in ContentsAt(sched, k) && (key, e) in ContentsAt(sched, k) ensures d == e {
      ContentsFunctional(h, key, d, e);
    }
    if k > 0 {
      MembershipIsBalance(sched, k - 1, key);
      ContentsChangeAtC2C3(sched, k - 1);
      BalanceStep(sched, k - 1, key);
    }
  }

  lemma ContentsFunctional(h: Heap, key: nat, d: nat, e: nat)
    requires HeapInv(h) && (key, d) in Contents(h) && (key, e) in Contents(h)
    ensures d == e
  {
    var m :| m in h.linked && Live(h, m) && (Key(h, m), DataOf(h, m)) == (key, d);
    var n :| n in h.linked && Live(h, n) && (Key(h, n), DataOf(h, n)) == (key, e);
    if m != n { KeysUnique(h, m, n); }
  }

  lemma BalanceStep(sched: Schedule, k: nat, key: nat)
    requires k < |sched|
    requires forall d, e | (key, d) in ContentsAt(sched, k) && (key, e) in ContentsAt(sched, k) :: d == e
    ensures (if Has(ContentsAt(sched, k + 1), key) then 1 else 0) - (if Has(ContentsAt(sched, k), key) then 1 else 0)
         == (if Links(sched, k, key) then 1 else 0) - (if Marks(sched, k, key) then 1 else 0)
  {
    ContentsChangeAtC2C3(sched, k);
    var c, c' := ContentsAt(sched, k), ContentsAt(sched, k + 1);
    if other: nat :| Links(sched, k, other) {
      var d: nat :| c' == c + {(other, d)};
      assert (other, d) in c';
      assert other != key ==> forall e :: (key, e) in c' <==> (key, e) in c;
    } else if other: nat :| Marks(sched, k, other) {
      var d: nat :| (other, d) in c && c' == c - {(other, d)};
      assert other != key ==> forall e :: (key, e) in c' <==> (key, e) in c;
    }
  }

  // ---------------------------------------------------------------- linearizability

  /** The sequential list: what an operation answers, and what it leaves behind. */
  ghost predicate SpecStep(before: set<(nat, nat)>, op: Op, result: Result, after: set<(nat, nat)>) {
    match op
    case Insert(key, data) =>
      && result.Truth?
      && if result.ok then !Has(before, key) && after == before + {(key, data)}
         else Has(before, key) && after == before
    case Delete(key) =>
      && result.Truth?
      && if result.ok then exists d: nat :: (key, d) in before && after == before - {(key, d)}
         else !Has(before, key) && after == before
    case Find(key) =>
      && result.Data? && after == before
      && if Has(before, key) then (key, result.ptr) in before else result.ptr == NULL
  }

  /** Step k belongs to this thread and lies within its current operation, by state j. */
  ghost predicate Own(sched: Schedule, j: nat, tid: nat, th: Thread, k: nat)
    requires j <= |sched|
  {
    th.call <= k < j && sched[k] == Run(tid)
  }

  ghost predicate Quiet(sched: Schedule, k: nat)
    requires k < |sched|
  {
    ContentsAt(sched, k + 1) == ContentsAt(sched, k)
  }

  ghost predicate GapIn(h: Heap, left: nat, q: nat) {
    left in h.linked && Next(h, left) == Ref(q, false)
  }

  ghost predicate GapAround(sched: Schedule, k: nat, left: nat, q: nat)
    requires k < |sched|
  {
    GapIn(At(sched, k).heap, left, q) || GapIn(At(sched, k + 1).heap, left, q)
  }

  ghost predicate EffectAt(sched: Schedule, k: nat, op: Op, result: Result)
    requires k < |sched|
  {
    SpecStep(ContentsAt(sched, k), op, result, ContentsAt(sched, k + 1))
  }

  /** In a step of its own the thread met left unmarked, directly followed by q. */
  ghost predicate SawGap(sched: Schedule, j: nat, tid: nat, th: Thread, left: nat, q: nat)
    requires j <= |sched|
  {
    exists k: nat :: Own(sched, j, tid, th, k) && Quiet(sched, k) && GapAround(sched, k, left, q)
  }

  /** In a step of its own the thread met node n unmarked. */
  ghost predicate SawLive(sched: Schedule, j: nat, tid: nat, th: Thread, n: nat)
    requires j <= |sched|
  {
    exists k: nat :: Own(sched, j, tid, th, k) && Quiet(sched, k) && Live(At(sched, k).heap, n)
  }

  ghost predicate ChangesNothing(sched: Schedule, j: nat, tid: nat, th: Thread)
    requires j <= |sched|
  {
    forall k: nat | Own(sched, j, tid, th, k) :: Quiet(sched, k)
  }

  /** One step of its own is where the operation takes effect; its other steps change nothing. */
  ghost predicate TakesEffect(sched: Schedule, j: nat, tid: nat, th: Thread, result: Result)
    requires j <= |sched|
  {
    exists k: nat :: Own(sched, j, tid, th, k) && EffectAt(sched, k, th.op, result)
      && forall i: nat | Own(sched, j, tid, th, i) && i != k :: Quiet(sched, i)
  }

  /** What a thread has witnessed by state j, by program counter. */
  ghost predicate Evidence(sched: Schedule, j: nat, tid: nat, th: Thread)
    requires j <= |sched|
  {
    && th.call <= j
    && (match th.pc
        case Start => true
        case LoadHead => SawGap(sched, j, tid, th, th.left, th.leftNext.node)
        case Advance =>
          && SawGap(sched, j, tid, th, th.left, th.leftNext.node)
          && (!th.tNext.marked ==> SawGap(sched, j, tid, th, th.t, th.tNext.node))
        case LoadNext => SawGap(sched, j, tid, th, th.left, th.leftNext.node)
        case Adjacent => SawGap(sched, j, tid, th, th.left, th.leftNext.node)
        case Unlink => SawGap(sched, j, tid, th, th.left, th.leftNext.node)
        case Recheck =>
          SawGap(sched, j, tid, th, th.left, th.leftNext.node) && SawGap(sched, j, tid, th, th.left, th.right)
        case Dispatch =>
          && SawGap(sched, j, tid, th, th.left, th.right)
          && (th.right != NULL ==> SawLive(sched, j, tid, th, th.right))
        case _ => true)
    && (if th.pc.Done? then TakesEffect(sched, j, tid, th, th.pc.result)
        else if th.removed then TakesEffect(sched, j, tid, th, Truth(true))
        else ChangesNothing(sched, j, tid, th))
  }

  /** Steps of others extend the horizon and change none of what a thread has seen. */
  lemma EvidenceLasts(sched: Schedule, j: nat, tid: nat, th: Thread)
    requires j < |sched| && sched[j] != Run(tid) && Evidence(sched, j, tid, th)
    ensures Evidence(sched, j + 1, tid, th)
  {
    assert forall k: nat :: Own(sched, j + 1, tid, th, k) <==> Own(sched, j, tid, th, k);
    forall left: nat, q: nat | SawGap(sched, j, tid, th, left, q) ensures SawGap(sched, j + 1, tid, th, left, q) {
      var k: nat :| Own(sched, j, tid, th, k) && Quiet(sched, k) && GapAround(sched, k, left, q);
      assert Own(sched, j + 1, tid, th, k);
    }
    forall n: nat | SawLive(sched, j, tid, th, n) ensures SawLive(sched, j + 1, tid, th, n) {
      var k: nat :| Own(sched, j, tid, th, k) && Quiet(sched, k) && Live(At(sched, k).heap, n);
      assert Own(sched, j + 1, tid, th, k);
    }
    forall r | TakesEffect(sched, j, tid, th, r) ensures TakesEffect(sched, j + 1, tid, th, r) {
      var k: nat :| Own(sched, j, tid, th, k) && EffectAt(sched, k, th.op, r)
        && forall i: nat | Own(sched, j, tid, th, i) && i != k :: Quiet(sched, i);
      assert Own(sched, j + 1, tid, th, k);
    }
  }

  lemma {:induction false} HeapGrows(sched: Schedule, k: nat, j: nat)
    requires k <= j <= |sched|
    ensures var h, h' := At(sched, k).heap, At(sched, j).heap;
            && |h.nodes| <= |h'.nodes| && h.linked <= h'.linked
            && forall n: nat | n < |h.nodes| :: Key(h', n) == Key(h, n) && DataOf(h', n) == DataOf(h, n)
    decreases j
  {
    if k < j {
      HeapGrows(sched, k, j - 1);
      ReachableStates(sched, j - 1);
      var s := At(sched, j - 1);
      match sched[j - 1] {
        case Call(tid, op) =>
        case Run(tid) => if Busy(s, tid) { StepKeeps(s.heap, s.threads[tid]); }
      }
    }
  }

  lemma SawGapLater(sched: Schedule, j: nat, tid: nat, th: Thread, th': Thread, left: nat, q: nat)
    requires j < |sched| && th'.call == th.call && SawGap(sched, j, tid, th, left, q)
    ensures SawGap(sched, j + 1, tid, th', left, q)
  {
    var k: nat :| Own(sched, j, tid, th, k) && Quiet(sched, k) && GapAround(sched, k, left, q);
    assert Own(sched, j + 1, tid, th', k);
  }

  lemma SawGapNow(sched: Schedule, j: nat, tid: nat, th: Thread, left: nat, q: nat)
    requires j < |sched| && th.call <= j && sched[j] == Run(tid) && Quiet(sched, j) && GapAround(sched, j, left, q)
    ensures SawGap(sched, j + 1, tid, th, left, q)
  {
    assert Own(sched, j + 1, tid, th, j);
  }

  lemma SawLiveNow(sched: Schedule, j: nat, tid: nat, th: Thread, n: nat)
    requires j < |sched| && th.call <= j && sched[j] == Run(tid) && Quiet(sched, j) && Live(At(sched, j).heap, n)
    ensures SawLive(sched, j + 1, tid, th, n)
  {
    assert Own(sched, j + 1, tid, th, j);
  }

  lemma QuietStep(sched: Schedule, j: nat, tid: nat, th: Thread, th': Thread)
    requires j < |sched| && sched[j] == Run(tid) && Quiet(sched, j) && th'.call == th.call && th'.op == th.op
    ensures ChangesNothing(sched, j, tid, th) ==> ChangesNothing(sched, j + 1, tid, th')
    ensures forall r | TakesEffect(sched, j, tid, th, r) :: TakesEffect(sched, j + 1, tid, th', r)
  {
    assert forall k: nat | Own(sched, j + 1, tid, th', k) :: k == j || Own(sched, j, tid, th, k);
    forall r | TakesEffect(sched, j, tid, th, r) ensures TakesEffect(sched, j + 1, tid, th', r) {
      var k: nat :| Own(sched, j, tid, th, k) && EffectAt(sched, k, th.op, r)
        && forall i: nat | Own(sched, j, tid, th, i) && i != k :: Quiet(sched, i);
      assert Own(sched, j + 1, tid, th', k);
    }
  }

  lemma TakesEffectAt(sched: Schedule, j: nat, tid: nat, th: Thread, th': Thread, k: nat, r: Result)
    requires j < |sched| && sched[j] == Run(tid) && th'.call == th.call && th'.op == th.op
    requires Own(sched, j + 1, tid, th', k) && EffectAt(sched, k, th.op, r)
    requires ChangesNothing(sched, j, tid, th) && (k == j || Quiet(sched, j))
    ensures TakesEffect(sched, j + 1, tid, th', r)
  {
    assert forall i: nat | Own(sched, j + 1, tid, th', i) :: i == j || Own(sched, j, tid, th, i);
  }

  /** A search that came back with the key's node saw the key in the list. */
  lemma PresenceWitnessed(sched: Schedule, j: nat, tid: nat, th: Thread) returns (k: nat)
    requires j <= |sched| && SawLive(sched, j, tid, th, th.right) && Key(At(sched, j).heap, th.right) == th.op.key
    ensures Own(sched, j, tid, th, k) && Quiet(sched, k)
    ensures (th.op.key, DataOf(At(sched, j).heap, th.right)) in ContentsAt(sched, k)
  {
    k :| Own(sched, j, tid, th, k) && Quiet(sched, k) && Live(At(sched, k).heap, th.right);
    ReachableStates(sched, k);
    HeapGrows(sched, k, j);
  }

  /** A search that came back without it saw, at some step of its own, a gap where the key would be. */
  lemma AbsenceWitnessed(sched: Schedule, j: nat, tid: nat, th: Thread) returns (k: nat)
    requires j <= |sched| && SawGap(sched, j, tid, th, th.left, th.right)
    requires var h := At(sched, j).heap;
             LeftOk(h, th) && (th.right != NULL ==> th.right != HEAD && Key(h, th.right) > th.op.key)
    ensures Own(sched, j, tid, th, k) && Quiet(sched, k)
    ensures !Has(ContentsAt(sched, k), th.op.key)
  {
    k :| Own(sched, j, tid, th, k) && Quiet(sched, k) && GapAround(sched, k, th.left, th.right);
    var i := if GapIn(At(sched, k).heap, th.left, th.right) then k else k + 1;
    var h := At(sched, i).heap;
    ReachableStates(sched, i);
    HeapGrows(sched, i, j);
    assert Next(h, th.left) == Ref(th.right, false);
    GapHasNoKey(h, th.left, th.op.key);
  }

  /** The decision after a search is the sequential list's answer at a step inside the operation. */
  lemma DispatchEvidence(sched: Schedule, j: nat, tid: nat)
    requires j < |sched| && sched[j] == Run(tid) && Busy(At(sched, j), tid)
    requires var th := At(sched, j).threads[tid]; th.pc.Dispatch? && Evidence(sched, j, tid, th)
    ensures Evidence(sched, j + 1, tid, At(sched, j + 1).threads[tid])
  {
    ReachableStates(sched, j);
    var s, th := At(sched, j), At(sched, j).threads[tid];
    var th' := At(sched, j + 1).threads[tid];
    DispatchStepOk(s.heap, th);
    QuietStep(sched, j, tid, th, th');
    if !th.removed && th'.pc.Done? {
      if th.right != NULL && Key(s.heap, th.right) == th.op.key {
        var k := PresenceWitnessed(sched, j, tid, th);
        assert Has(ContentsAt(sched, k), th.op.key);
        TakesEffectAt(sched, j, tid, th, th', k, th'.pc.result);
      } else {
        var k := AbsenceWitnessed(sched, j, tid, th);
        TakesEffectAt(sched, j, tid, th, th', k, th'.pc.result);
      }
    }
  }

  lemma WalkEvidence(sched: Schedule, j: nat, tid: nat)
    requires j < |sched| && sched[j] == Run(tid) && Busy(At(sched, j), tid)
    requires var th := At(sched, j).threads[tid];
             && th.pc in {Start, LoadHead, Advance, LoadNext, LoadVictim} && Evidence(sched, j, tid, th)
    ensures Evidence(sched, j + 1, tid, At(sched, j + 1).threads[tid])
  {
    ReachableStates(sched, j);
    var h, th := At(sched, j).heap, At(sched, j).threads[tid];
    var th' := At(sched, j + 1).threads[tid];
    SearchStepOk(h, th);
    QuietStep(sched, j, tid, th, th');
    if th.pc in {LoadHead, Advance, LoadNext} {
      SawGapLater(sched, j, tid, th, th', th.left, th.leftNext.node);
    }
    match th.pc {
      case Start => SawGapNow(sched, j, tid, th', HEAD, Next(h, HEAD).node);
      case LoadHead => SawGapNow(sched, j, tid, th', HEAD, Next(h, HEAD).node);
      case Advance => if !th.tNext.marked { SawGapLater(sched, j, tid, th, th', th.t, th.tNext.node); }
      case LoadNext => if !th'.tNext.marked { SawGapNow(sched, j, tid, th', th.t, th'.tNext.node); }
      case _ =>
    }
  }

  lemma SettleEvidence(sched: Schedule, j: nat, tid: nat)
    requires j < |sched| && sched[j] == Run(tid) && Busy(At(sched, j), tid)
    requires var th := At(sched, j).threads[tid]; th.pc in {Adjacent, Recheck, Unlink} && Evidence(sched, j, tid, th)
    ensures Evidence(sched, j + 1, tid, At(sched, j + 1).threads[tid])
  {
    ReachableStates(sched, j);
    var h, th := At(sched, j).heap, At(sched, j).threads[tid];
    var th' := At(sched, j + 1).threads[tid];
    if th.pc.Unlink? { UnlinkStepOk(h, th); } else { SearchStepOk(h, th); }
    QuietStep(sched, j, tid, th, th');
    SawGapLater(sched, j, tid, th, th', th.left, th.leftNext.node);
    if th.pc.Unlink? {
      if th'.pc.Recheck? {
        StoreFacts(h, th.left, Ref(th.right, false));
        SawGapNow(sched, j, tid, th', th.left, th.right);
      }
    } else {
      if th.pc.Recheck? { SawGapLater(sched, j, tid, th, th', th.left, th.right); }
      if th'.pc.Dispatch? && th.right != NULL { SawLiveNow(sched, j, tid, th', th.right); }
    }
  }

  lemma UpdateEvidence(sched: Schedule, j: nat, tid: nat)
    requires j < |sched| && sched[j] == Run(tid) && Busy(At(sched, j), tid)
    requires var th := At(sched, j).threads[tid]; th.pc in {Link, Mark, Cut} && Evidence(sched, j, tid, th)
    ensures Evidence(sched, j + 1, tid, At(sched, j + 1).threads[tid])
  {
    ReachableStates(sched, j);
    var h, th := At(sched, j).heap, At(sched, j).threads[tid];
    var th' := At(sched, j + 1).threads[tid];
    assert Own(sched, j + 1, tid, th', j);
    match th.pc {
      case Link =>
        LinkStepOk(h, th);
        if th'.pc.Done? { TakesEffectAt(sched, j, tid, th, th', j, Truth(true)); }
        else { QuietStep(sched, j, tid, th, th'); }
      case Mark =>
        MarkStepOk(h, th);
        if th'.pc.Cut? { TakesEffectAt(sched, j, tid, th, th', j, Truth(true)); }
        else { QuietStep(sched, j, tid, th, th'); }
      case Cut =>
        CutStepOk(h, th);
        QuietStep(sched, j, tid, th, th');
    }
  }

  lemma {:induction false} EvidenceAlways(sched: Schedule, j: nat, tid: nat)
    requires j <= |sched| && tid in At(sched, j).threads
    ensures Evidence(sched, j, tid, At(sched, j).threads[tid])
    decreases j
  {
    var i := j - 1;
    var s := At(sched, i);
    ReachableStates(sched, i);
    if sched[i].Call? && sched[i].tid == tid && !Busy(s, tid) {
    } else {
      EvidenceAlways(sched, i, tid);
      if sched[i] == Run(tid) && Busy(s, tid) {
        var th := s.threads[tid];
        if th.pc.Dispatch? { DispatchEvidence(sched, i, tid); }
        else if th.pc in {Link, Mark, Cut} { UpdateEvidence(sched, i, tid); }
        else if th.pc in {Adjacent, Recheck, Unlink} { SettleEvidence(sched, i, tid); }
        else { WalkEvidence(sched, i, tid); }
      } else if sched[i] == Run(tid) {
        QuietStep(sched, i, tid, s.threads[tid], s.threads[tid]);
      } else {
        EvidenceLasts(sched, i, tid, s.threads[tid]);
      }
    }
  }

  /**
   * Linearizability: whatever the interleaving, an operation that returns has one step of its own,
   * between its call and its return, at which the sequential list gives exactly its answer and its
   * effect; none of its other steps changes what the list holds.
   */
  lemma Linearizable(sched: Schedule, j: nat, tid: nat)
    requires j < |sched| && Busy(At(sched, j), tid) && tid in At(sched, j + 1).threads
    requires At(sched, j + 1).threads[tid].pc.Done?
    ensures var th := At(sched, j + 1).threads[tid];
            && th.op == At(sched, j).threads[tid].op && th.call == At(sched, j).threads[tid].call
            && TakesEffect(sched, j + 1, tid, th, th.pc.result)
  {
    EvidenceAlways(sched, j + 1, tid);
    StepKeepsOp(At(sched, j).heap, At(sched, j).threads[tid]);
  }

  // ---------------------------------------------------------------- which node a delete frees

  /**
   * A delete that is past C3 hands right_node to delete_fn and to free. That is the node it has taken out of the list
   * if and only if this step is C4 and its predecessor still leads to that node; when C4 has failed, it is what the
   * second search came back with: nothing at all, or a node that was in the list at some step of the call, and not the
   * one the call has marked.
   */
  lemma FreesVictimIffCut(sched: Schedule, j: nat, tid: nat)
    requires j < |sched| && Busy(At(sched, j), tid) && sched[j] == Run(tid) && At(sched, j).threads[tid].removed
    requires At(sched, j + 1).threads[tid].pc.Done?
    ensures var th, th' := At(sched, j).threads[tid], At(sched, j + 1).threads[tid];
            && th'.pc.result == Truth(true) && th'.victim == th.victim
            && (th'.right == th'.victim <==> th.pc.Cut? && Next(At(sched, j).heap, th.left) == Ref(th.victim, false))
            && (th'.right != th'.victim && th'.right != NULL ==> SawLive(sched, j, tid, th, th'.right))
  {
    ReachableStates(sched, j);
    EvidenceAlways(sched, j, tid);
    assert ThreadInv(At(sched, j).heap, At(sched, j).threads[tid]);
  }
}
