/**
 * A run of src/linklist.c in which lstDelete frees a node that is still in the list.
 *
 * Keys m < k < n. While a delete of k is between its search and its C3, another thread inserts m before
 * k. C3 then marks k's node, C4 fails because k's predecessor has changed, and the second search comes
 * back with n's node, which lstDelete hands to delete_fn and to free.
 */
module LinkExample {
  import opened LinkList

  /** The schedule leads to this state. */
  ghost predicate Ends(sched: Schedule, s: State) {
    At(sched, |sched|) == s
  }

  lemma Then(sched: Schedule, s: State, l: Label) returns (sched': Schedule, s': State)
    requires Ends(sched, s)
    ensures sched' == sched + [l] && s' == Apply(s, l) && Ends(sched', s')
  {
    hide Apply;
    AtPrefix(sched, l, |sched|);
    sched', s' := sched + [l], Apply(s, l);
  }

  lemma NoSteps()
    ensures Ends([], Initial)
  {
  }

  /** The list begins with an unmarked node f. */
  ghost predicate BeginsWith(h: Heap, f: nat) {
    |h.nodes| > f >= 2 && Next(h, HEAD) == Ref(f, false) && !Next(h, f).marked
  }

  ghost predicate OthersSame(tid: nat, s: State, s': State) {
    forall i: nat | i != tid ::
      (i in s'.threads <==> i in s.threads) && (i in s.threads ==> s'.threads[i] == s.threads[i])
  }

  /** A first insert. */
  lemma InsertOnly(n: nat, d: nat) returns (sched: Schedule, s: State)
    ensures Ends(sched, s) && !Busy(s, 1) && !Busy(s, 2)
    ensures s.heap.nodes == [Node(0, 0, Ref(NULL, false)), Node(0, 0, Ref(2, false)), Node(n, d, Ref(NULL, false))]
    ensures s.heap.linked == {HEAD, 2}
  {
    hide Ends;
    NoSteps();
    sched, s := Then([], Initial, Call(1, Insert(n, d)));
    sched, s := Then(sched, s, Run(1));
    sched, s := Then(sched, s, Run(1));
    sched, s := Then(sched, s, Run(1));
    sched, s := Then(sched, s, Run(1));
    sched, s := Then(sched, s, Run(1));
    sched, s := Then(sched, s, Run(1));
  }

  lemma Called(sched: Schedule, s: State, tid: nat, op: Op, f: nat) returns (sched': Schedule, s': State)
    requires Ends(sched, s) && !Busy(s, tid) && BeginsWith(s.heap, f)
    ensures Ends(sched', s') && OthersSame(tid, s, s') && s'.heap == Begin(s.heap, op, 0).0 && tid in s'.threads
    ensures BeginsWith(s'.heap, f) && Key(s'.heap, f) == Key(s.heap, f)
    ensures var th := s'.threads[tid]; th.op == op && th.pc == Start && th.newNode == |s.heap.nodes| && !th.removed
  {
    hide Ends;
    sched', s' := Then(sched, s, Call(tid, op));
  }

  /** A call and its search, which comes back with the first node. */
  lemma SearchFirst(sched: Schedule, s: State, tid: nat, op: Op, f: nat) returns (sched': Schedule, s': State)
    requires Ends(sched, s) && !Busy(s, tid) && BeginsWith(s.heap, f) && op.key <= Key(s.heap, f)
    ensures Ends(sched', s') && OthersSame(tid, s, s') && s'.heap == Begin(s.heap, op, 0).0 && tid in s'.threads
    ensures var th := s'.threads[tid];
            && th.op == op && th.pc == Dispatch && th.left == HEAD && th.right == f
            && th.newNode == |s.heap.nodes| && !th.removed
  {
    hide Ends, Begin;
    sched', s' := Called(sched, s, tid, op, f);
    var th := s'.threads[tid];
    sched', s' := Then(sched', s', Run(tid));
    sched', s' := Then(sched', s', Run(tid));
    sched', s' := Then(sched', s', Run(tid));
    assert s'.threads[tid] == th
      .(pc := LoadNext, left := HEAD, leftNext := Ref(f, false), t := f, tNext := Ref(f, false));
    sched', s' := Then(sched', s', Run(tid));
    sched', s' := Then(sched', s', Run(tid));
  }

  /** A whole insert before the first node. */
  lemma InsertFirst(sched: Schedule, s: State, tid: nat, k: nat, d: nat, f: nat) returns (sched': Schedule, s': State)
    requires Ends(sched, s) && !Busy(s, tid) && BeginsWith(s.heap, f) && k < Key(s.heap, f)
    ensures Ends(sched', s') && OthersSame(tid, s, s') && !Busy(s', tid)
    ensures var node := |s.heap.nodes|;
            && s'.heap.nodes
                 == s.heap.nodes[HEAD := s.heap.nodes[HEAD].(next := Ref(node, false))] + [Node(k, d, Ref(f, false))]
            && s'.heap.linked == s.heap.linked + {node}
  {
    hide Ends;
    sched', s' := SearchFirst(sched, s, tid, Insert(k, d), f);
    sched', s' := Then(sched', s', Run(tid));
    sched', s' := Then(sched', s', Run(tid));
  }

  /** A delete of the first node, up to its C3. */
  lemma DeleteFirst(sched: Schedule, s: State, f: nat) returns (sched': Schedule, s': State)
    requires Ends(sched, s) && !Busy(s, 1) && BeginsWith(s.heap, f)
    ensures Ends(sched', s') && OthersSame(1, s, s') && s'.heap == s.heap && 1 in s'.threads
    ensures var th := s'.threads[1];
            && th.pc == Mark && th.op == Delete(Key(s.heap, f)) && th.left == HEAD && th.right == f
            && th.rightNext == Next(s.heap, f) && !th.removed
  {
    hide Ends;
    sched', s' := SearchFirst(sched, s, 1, Delete(Key(s.heap, f)), f);
    sched', s' := Then(sched', s', Run(1));
    sched', s' := Then(sched', s', Run(1));
  }

  /** C3 succeeds, C4 fails: f is no longer the first node. */
  lemma CutFails(sched: Schedule, s: State, f: nat) returns (sched': Schedule, s': State)
    requires Ends(sched, s) && 1 in s.threads && 2 <= f < |s.heap.nodes| && Next(s.heap, HEAD).node != f
    requires var th := s.threads[1];
             && th.pc == Mark && th.left == HEAD && th.right == f
             && th.rightNext == Next(s.heap, f) && !th.rightNext.marked
    ensures Ends(sched', s') && s'.heap == Store(s.heap, f, Ref(Next(s.heap, f).node, true)) && 1 in s'.threads
    ensures s'.threads[1] == s.threads[1].(pc := Start, removed := true, victim := f)
  {
    hide Ends;
    sched', s' := Then(sched, s, Run(1));
    sched', s' := Then(sched', s', Run(1));
  }

  /** The second search passes w, meets the marked node f ... */
  lemma SearchAgain(sched: Schedule, s: State, w: nat, f: nat) returns (sched': Schedule, s': State)
    requires Ends(sched, s) && 1 in s.threads && s.threads[1].pc == Start
    requires BeginsWith(s.heap, w) && Next(s.heap, w).node == f && f != NULL && Next(s.heap, f).marked
    requires Key(s.heap, w) < s.threads[1].op.key
    ensures Ends(sched', s') && s'.heap == s.heap && 1 in s'.threads
    ensures s'.threads[1] ==
            s.threads[1].(pc := Advance, left := w, leftNext := Ref(f, false), t := f, tNext := Next(s.heap, f))
  {
    hide Ends, Begin;
    sched', s' := Then(sched, s, Run(1));
    sched', s' := Then(sched', s', Run(1));
    sched', s' := Then(sched', s', Run(1));
    assert s'.threads[1] == s.threads[1]
      .(pc := LoadNext, left := HEAD, leftNext := Ref(w, false), t := w, tNext := Ref(w, false));
    sched', s' := Then(sched', s', Run(1));
    sched', s' := Then(sched', s', Run(1));
    sched', s' := Then(sched', s', Run(1));
  }

  /** ... unlinks it, and comes back with the node g behind it. */
  lemma SearchEnds(sched: Schedule, s: State, f: nat, g: nat) returns (sched': Schedule, s': State)
    requires Ends(sched, s) && 1 in s.threads && s.threads[1].pc == Advance
    requires var th := s.threads[1];
             && th.t == f && th.tNext == Ref(g, true) && th.leftNext == Ref(f, false) && f != g && g != NULL
             && HEAD != th.left < |s.heap.nodes| && Next(s.heap, th.left) == th.leftNext && th.left != g
             && !Next(s.heap, g).marked && Key(s.heap, g) >= th.op.key
    ensures Ends(sched', s') && s'.heap == Store(s.heap, s.threads[1].left, Ref(g, false)) && 1 in s'.threads
    ensures s'.threads[1].op == s.threads[1].op && s'.threads[1].pc == Dispatch && s'.threads[1].right == g
    ensures s'.threads[1].removed == s.threads[1].removed && s'.threads[1].victim == s.threads[1].victim
  {
    hide Ends;
    sched', s' := Then(sched, s, Run(1));
    sched', s' := Then(sched', s', Run(1));
    sched', s' := Then(sched', s', Run(1));
    sched', s' := Then(sched', s', Run(1));
    sched', s' := Then(sched', s', Run(1));
  }

  /** For all keys m < k < n: a run in which the delete of k is about to free the node of n, which is in the list. */
  lemma LiveNodeFreed(m: nat, k: nat, n: nat, data: nat) returns (sched: Schedule, s: State)
    requires m < k < n
    ensures Ends(sched, s) && Busy(s, 1)
    ensures var th := s.threads[1];
            && th.op == Delete(k) && th.pc == Dispatch && th.removed && Key(s.heap, th.victim) == k
            && Live(s.heap, th.right) && Key(s.heap, th.right) == n
  {
    hide Ends, Apply;
    sched, s := InsertOnly(n, data);
    sched, s := InsertFirst(sched, s, 1, k, data, 2);
    sched, s := DeleteFirst(sched, s, 3);
    sched, s := InsertFirst(sched, s, 2, m, data, 3);
    sched, s := CutFails(sched, s, 3);
    sched, s := SearchAgain(sched, s, 4, 3);
    sched, s := SearchEnds(sched, s, 3, 2);
  }
}
