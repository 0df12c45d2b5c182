/**
 * A thread of src/linklist.c that is scheduled alone.
 *
 * Safety says nothing of a thread that never ends. Here every call that is left to run on its own, from any
 * state that any interleaving can reach and from any point of the code, returns; a call that is made and
 * run alone answers as the sequential list does; and a delete frees just the node it took out.
 */
module LinkAlone {
  import opened LinkList

  /** n steps of one thread. */
  function Alone(h: Heap, th: Thread, n: nat): (Heap, Thread)
    decreases n
  {
    if n == 0 then (h, th) else var (h', th') := Step(h, th); Alone(h', th', n - 1)
  }

  lemma {:induction false} AloneJoin(h: Heap, th: Thread, m: nat, n: nat)
    ensures var (h', th') := Alone(h, th, m); Alone(h, th, m + n) == Alone(h', th', n)
    decreases m
  {
    hide Step;
    if m > 0 {
      var (h', th') := Step(h, th);
      AloneJoin(h', th', m - 1, n);
    }
  }

  /** Some number of steps leads there. */
  ghost predicate Leads(h: Heap, th: Thread, h': Heap, th': Thread) {
    exists n: nat :: Alone(h, th, n) == (h', th')
  }

  lemma LeadsNow(h: Heap, th: Thread)
    ensures Leads(h, th, h, th)
  {
    assert Alone(h, th, 0) == (h, th);
  }

  lemma LeadsStep(h: Heap, th: Thread)
    ensures Leads(h, th, Step(h, th).0, Step(h, th).1)
  {
    hide Step;
    assert Alone(h, th, 1) == Alone(Step(h, th).0, Step(h, th).1, 0);
  }

  lemma LeadsOn(h: Heap, th: Thread, h': Heap, th': Thread, h'': Heap, th'': Thread)
    requires Leads(h, th, h', th') && Leads(h', th', h'', th'')
    ensures Leads(h, th, h'', th'')
  {
    hide Alone;
    var m: nat :| Alone(h, th, m) == (h', th');
    var n: nat :| Alone(h', th', n) == (h'', th'');
    AloneJoin(h, th, m, n);
    assert Alone(h, th, m + n) == (h'', th'');
  }

  ghost predicate Good(h: Heap, th: Thread) {
    HeapInv(h) && ThreadInv(h, th)
  }

  lemma StepGood(h: Heap, th: Thread)
    requires Good(h, th)
    ensures Good(Step(h, th).0, Step(h, th).1)
    ensures var th' := Step(h, th).1; th'.op == th.op && th'.newNode == th.newNode && th'.call == th.call
  {
    hide Step, PcOk;
    if th.pc.Done? { assert Step(h, th) == (h, th) by { StepDone(h, th); } }
    else { StepKeeps(h, th); }
  }

  lemma StepDone(h: Heap, th: Thread)
    requires th.pc.Done?
    ensures Step(h, th) == (h, th)
  {
  }

  // ---------------------------------------------------------------- the walk along the list

  /** The nodes that come behind t in the order of the list. */
  ghost function Behind(h: Heap, t: nat): set<nat> {
    set n | n in h.linked && Rank(h, n) > Rank(h, t)
  }

  lemma BehindShrinks(h: Heap, t: nat)
    requires Ordered(h) && t in h.linked && Next(h, t).node != NULL
    ensures |Behind(h, Next(h, t).node)| < |Behind(h, t)|
  {
    var u := Next(h, t).node;
    assert u in Behind(h, t) && u !in Behind(h, u);
    assert Behind(h, u) <= Behind(h, t) - {u};
    Smaller(Behind(h, u), Behind(h, t) - {u});
  }

  lemma {:induction false} Smaller(a: set<nat>, b: set<nat>)
    requires a <= b
    ensures |a| <= |b|
    decreases |a|
  {
    if a != {} {
      var x :| x in a;
      Smaller(a - {x}, b - {x});
    }
  }

  /** What the walk of a thread that is not disturbed knows to be so now. */
  ghost predicate Fresh(h: Heap, th: Thread) {
    match th.pc
    case Advance => Next(h, th.t) == th.tNext && (th.tNext.marked ==> Next(h, th.left) == th.leftNext)
    case LoadNext => Next(h, th.left) == th.leftNext
    case Adjacent =>
      Next(h, th.left) == th.leftNext && (th.right != NULL ==> !Next(h, th.right).marked)
    case Dispatch =>
      Next(h, th.left) == Ref(th.right, false) && (th.right != NULL ==> !Next(h, th.right).marked)
    case _ => false
  }

  /** The parts of a thread that a search leaves alone. */
  ghost predicate SameCall(th: Thread, th': Thread) {
    th'.op == th.op && th'.newNode == th.newNode && th'.removed == th.removed && th'.victim == th.victim
  }

  lemma AdvanceStep(h: Heap, th: Thread)
    requires Good(h, th) && th.pc.Advance?
    ensures var (h', th') := Step(h, th);
            h' == h && SameCall(th, th') && th'.pc in {LoadNext, Adjacent} && (Fresh(h, th) ==> Fresh(h, th'))
    ensures var th' := Step(h, th).1;
            th'.pc.LoadNext? ==> th'.t == th.tNext.node && th.tNext.node != NULL
  {
  }

  lemma LoadNextStep(h: Heap, th: Thread)
    requires Good(h, th) && th.pc.LoadNext?
    ensures var (h', th') := Step(h, th);
            h' == h && SameCall(th, th') && th'.pc in {Advance, Adjacent} && (Fresh(h, th) ==> Fresh(h, th'))
    ensures var th' := Step(h, th).1; th'.pc.Advance? ==> th'.t == th.t && th'.tNext == Next(h, th.t)
  {
  }

  lemma WalksOnLinked(h: Heap, th: Thread)
    requires Good(h, th) && th.pc.LoadNext?
    ensures Ordered(h) && th.t in h.linked
  {
  }

  /** The walk from a node ends, since each link leads upwards. */
  lemma {:induction false} WalkEnds(h: Heap, th: Thread) returns (th': Thread)
    requires Good(h, th) && th.pc.LoadNext?
    ensures Leads(h, th, h, th') && Good(h, th') && th'.pc.Adjacent? && SameCall(th, th')
    ensures Fresh(h, th) ==> Fresh(h, th')
    decreases |Behind(h, th.t)|
  {
    hide Step, HeapInv, ThreadInv, Fresh, Leads;
    StepGood(h, th);
    LoadNextStep(h, th);
    th' := Step(h, th).1;
    LeadsStep(h, th);
    if th'.pc.Advance? {
      var th1, th2 := th', Step(h, th').1;
      StepGood(h, th1);
      AdvanceStep(h, th1);
      LeadsStep(h, th1);
      LeadsOn(h, th, h, th1, h, th2);
      th' := th2;
      if th2.pc.LoadNext? {
        WalksOnLinked(h, th);
        BehindShrinks(h, th.t);
        th' := WalkEnds(h, th2);
        LeadsOn(h, th, h, th2, h, th');
      }
    }
  }

  // ---------------------------------------------------------------- a search on its own

  lemma HeadStep(h: Heap, th: Thread)
    requires Good(h, th) && th.pc.LoadHead?
    ensures var (h', th') := Step(h, th); h' == h && SameCall(th, th') && th'.pc.Advance? && Fresh(h, th')
  {
  }

  /** From the top of the list, up to the test whether the two nodes are adjacent. */
  lemma WalkAlone(h: Heap, th: Thread) returns (th': Thread)
    requires Good(h, th) && th.pc.LoadHead?
    ensures Leads(h, th, h, th') && Good(h, th') && SameCall(th, th') && th'.pc.Adjacent? && Fresh(h, th')
  {
    hide Step, HeapInv, ThreadInv, Fresh, Leads;
    StepGood(h, th);
    HeadStep(h, th);
    LeadsStep(h, th);
    var th1 := Step(h, th).1;
    StepGood(h, th1);
    AdvanceStep(h, th1);
    LeadsStep(h, th1);
    th' := Step(h, th1).1;
    LeadsOn(h, th, h, th1, h, th');
    if th'.pc.LoadNext? {
      var th2 := th';
      th' := WalkEnds(h, th2);
      LeadsOn(h, th, h, th2, h, th');
    }
  }

  lemma AdjacentStep(h: Heap, th: Thread)
    requires Good(h, th) && th.pc.Adjacent? && Fresh(h, th)
    ensures var (h', th') := Step(h, th);
            && h' == h && SameCall(th, th') && th'.left == th.left && th'.leftNext == th.leftNext
            && th'.right == th.right && (if th'.pc.Dispatch? then Fresh(h, th') else th'.pc.Unlink?)
  {
  }

  /** C1 succeeds, and the node behind is still unmarked. */
  lemma UnlinkStep(h: Heap, th: Thread)
    requires Good(h, th) && th.pc.Unlink? && Next(h, th.left) == th.leftNext
    requires th.right != NULL ==> !Next(h, th.right).marked
    ensures var (h', th') := Step(h, th);
            && SameCall(th, th') && th'.pc.Recheck? && Contents(h') == Contents(h)
            && th'.left == th.left && th'.right == th.right && h'.linked == h.linked
            && Next(h', th.left) == Ref(th.right, false) && (th.right != NULL ==> !Next(h', th.right).marked)
  {
    UnlinkStepOk(h, th);
    StoreFacts(h, th.left, Ref(th.right, false));
  }

  lemma RecheckStep(h: Heap, th: Thread)
    requires Good(h, th) && th.pc.Recheck? && Next(h, th.left) == Ref(th.right, false)
    requires th.right != NULL ==> !Next(h, th.right).marked
    ensures var (h', th') := Step(h, th); h' == h && SameCall(th, th') && th'.pc.Dispatch? && Fresh(h, th')
  {
  }

  /** A search that is not disturbed comes back with two adjacent nodes around the key, changing nothing it holds. */
  lemma SearchAlone(h: Heap, th: Thread) returns (h': Heap, th': Thread)
    requires Good(h, th) && th.pc.LoadHead?
    ensures Leads(h, th, h', th') && Good(h', th') && SameCall(th, th') && th'.pc.Dispatch? && Fresh(h', th')
    ensures Contents(h') == Contents(h) && Evolves(h, h') && h'.linked == h.linked
  {
    hide Step, HeapInv, ThreadInv, Leads, Contents, Evolves;
    var th1 := WalkAlone(h, th);
    AdjacentStep(h, th1);
    StepGood(h, th1);
    LeadsStep(h, th1);
    h', th' := h, Step(h, th1).1;
    LeadsOn(h, th, h, th1, h', th');
    EvolvesSame(h);
    if th'.pc.Unlink? {
      var th2 := th';
      UnlinkStep(h, th2);
      UnlinkEvolves(h, th2);
      StepGood(h, th2);
      LeadsStep(h, th2);
      var th3;
      h', th3 := Step(h, th2).0, Step(h, th2).1;
      LeadsOn(h, th, h, th2, h', th3);
      RecheckStep(h', th3);
      StepGood(h', th3);
      LeadsStep(h', th3);
      th' := Step(h', th3).1;
      LeadsOn(h, th, h', th3, h', th');
    }
  }

  lemma EvolvesSame(h: Heap)
    ensures Evolves(h, h)
  {
  }

  lemma UnlinkEvolves(h: Heap, th: Thread)
    requires Good(h, th) && th.pc.Unlink?
    ensures Evolves(h, Step(h, th).0)
  {
    UnlinkStepOk(h, th);
  }

  // ---------------------------------------------------------------- the end of a call on its own

  /** The nodes around the key show whether it is in the list. */
  lemma GapShows(h: Heap, th: Thread)
    requires Good(h, th) && th.pc.Dispatch? && Fresh(h, th)
    ensures Found(h, th) ==> Live(h, th.right) && (th.op.key, DataOf(h, th.right)) in Contents(h)
    ensures !Found(h, th) ==> !Has(Contents(h), th.op.key)
  {
    if Found(h, th) { assert Live(h, th.right); } else { GapHasNoKey(h, th.left, th.op.key); }
  }

  predicate Found(h: Heap, th: Thread) {
    th.right != NULL && Key(h, th.right) == th.op.key
  }

  lemma InsertEnds(h: Heap, th: Thread) returns (h': Heap, th': Thread)
    requires Good(h, th) && th.pc.Dispatch? && Fresh(h, th) && !th.removed && th.op.Insert? && !Found(h, th)
    ensures Leads(h, th, h', th') && Good(h', th') && th'.pc == Done(Truth(true))
    ensures Contents(h') == Contents(h) + {(th.op.key, th.op.data)}
  {
    var (h1, th1) := Step(h, th);
    StoreFacts(h, th.newNode, Ref(th.right, false));
    DispatchStepOk(h, th);
    LinkStepOk(h1, th1);
    h', th' := Step(h1, th1).0, Step(h1, th1).1;
    hide Step, Leads;
    LeadsStep(h, th);
    LeadsStep(h1, th1);
    LeadsOn(h, th, h1, th1, h', th');
  }

  /** The steps from the search to C4: the node found is marked, and its predecessor still leads to it. */
  lemma MarkAlone(h: Heap, th: Thread) returns (h': Heap, th': Thread)
    requires Good(h, th) && th.pc.Dispatch? && Fresh(h, th) && !th.removed && th.op.Delete? && Found(h, th)
    ensures Leads(h, th, h', th') && Good(h', th') && th'.pc.Cut? && th'.right == th.right && th'.left == th.left
    ensures Next(h', th.left) == Ref(th.right, false)
    ensures Contents(h') == Contents(h) - {(th.op.key, DataOf(h, th.right))}
  {
    var (h1, th1) := Step(h, th);
    StepGood(h, th);
    var (h2, th2) := Step(h1, th1);
    StepGood(h1, th1);
    MarkStepOk(h2, th2);
    h', th' := Step(h2, th2).0, Step(h2, th2).1;
    StoreFacts(h2, th2.right, Ref(th2.rightNext.node, true));
    assert th.left != th.right;
    hide Step, Leads;
    LeadsStep(h, th);
    LeadsStep(h1, th1);
    LeadsStep(h2, th2);
    LeadsOn(h, th, h1, th1, h2, th2);
    LeadsOn(h, th, h2, th2, h', th');
  }

  /**
   * C4 of a delete whose predecessor still leads to the node it has marked: the call returns in this very step, the
   * node it hands to delete_fn and to free is the one it marked, and that node can no longer be reached.
   */
  lemma CutSucceeds(h: Heap, th: Thread)
    requires Good(h, th) && th.pc.Cut? && Next(h, th.left) == Ref(th.victim, false)
    ensures var (h', th') := Step(h, th);
            && th'.pc == Done(Truth(true)) && th'.right == th'.victim == th.victim
            && Next(h', th.left) == Ref(Next(h, th.victim).node, false) && Contents(h') == Contents(h)
            && !Reachable(h', th.victim)
  {
    var h' := Step(h, th).0;
    CutStepOk(h, th);
    StoreFacts(h, th.left, th.rightNext);
    if Reachable(h', th.victim) {
      var n: nat :| Path(h', HEAD, th.victim, n);
      var i: nat :| Path(h', HEAD, th.left, i);
      PathSplit(h', HEAD, th.left, th.victim, i, n);
      PathClimbs(h', th.left, th.victim, n - i);
      PathClimbs(h', Next(h', th.left).node, th.victim, n - i - 1);
    }
  }

  /** In every run C4 returns with the node it marked if and only if its predecessor still leads to that node. */
  lemma CutExact(sched: Schedule, j: nat, tid: nat)
    requires j < |sched| && sched[j] == Run(tid) && Busy(At(sched, j), tid) && At(sched, j).threads[tid].pc.Cut?
    ensures var s, s' := At(sched, j), At(sched, j + 1);
            var th, th' := s.threads[tid], s'.threads[tid];
            && (th'.pc.Done? <==> Next(s.heap, th.left) == Ref(th.victim, false))
            && (th'.pc.Done? ==>
                  th'.pc == Done(Truth(true)) && th'.right == th.victim && !Reachable(s'.heap, th.victim))
  {
    hide Reachable;
    ReachableStates(sched, j);
    var s := At(sched, j);
    if Next(s.heap, s.threads[tid].left) == Ref(s.threads[tid].victim, false) {
      CutSucceeds(s.heap, s.threads[tid]);
    } else {
      CutIsVictim(s.heap, s.threads[tid]);
    }
  }

  /** What a delete that took its key out has freed: the node that held it, which is off the list. */
  ghost predicate FreedIsTaken(h: Heap, h': Heap, th: Thread) {
    && th.right == th.victim && Live(h, th.victim) && Key(h, th.victim) == th.op.key
    && !Reachable(h', th.victim) && Contents(h') == Contents(h) - {(th.op.key, DataOf(h, th.victim))}
  }

  /** From two adjacent nodes around the key the call answers and leaves what the sequential list does. */
  ghost predicate Answered(h: Heap, h': Heap, th: Thread) {
    && th.pc.Done? && SpecStep(Contents(h), th.op, th.pc.result, Contents(h'))
    && (th.op.Delete? && th.pc.result == Truth(true) ==> FreedIsTaken(h, h', th))
  }

  lemma DeleteEnds(h: Heap, th: Thread) returns (h': Heap, th': Thread)
    requires Good(h, th) && th.pc.Dispatch? && Fresh(h, th) && !th.removed && th.op.Delete? && Found(h, th)
    ensures Leads(h, th, h', th') && Good(h', th') && th'.op == th.op && Answered(h, h', th')
  {
    hide Step, Leads, HeapInv, Contents, ThreadInv, Reachable;
    GapShows(h, th);
    var h1, th1 := MarkAlone(h, th);
    LeadsKeepsOp(h, th, h1, th1);
    CutIsVictim(h1, th1);
    CutSucceeds(h1, th1);
    StepGood(h1, th1);
    h', th' := Step(h1, th1).0, Step(h1, th1).1;
    LeadsStep(h1, th1);
    LeadsOn(h, th, h1, th1, h', th');
  }

  lemma CutIsVictim(h: Heap, th: Thread)
    requires Good(h, th) && th.pc.Cut?
    ensures th.victim == th.right
  {
  }

  lemma LeadsKeepsOp(h: Heap, th: Thread, h': Heap, th': Thread)
    requires Leads(h, th, h', th')
    ensures th'.op == th.op
  {
    var n: nat :| Alone(h, th, n) == (h', th');
    AloneKeepsOp(h, th, n);
  }

  lemma {:induction false} AloneKeepsOp(h: Heap, th: Thread, n: nat)
    ensures Alone(h, th, n).1.op == th.op
    decreases n
  {
    hide Step;
    if n > 0 {
      StepKeepsOp(h, th);
      AloneKeepsOp(Step(h, th).0, Step(h, th).1, n - 1);
    }
  }

  /** No answer but this one step away. */
  lemma AnswerStep(h: Heap, th: Thread)
    requires Good(h, th) && th.pc.Dispatch? && Fresh(h, th)
    requires th.removed || th.op.Find? || (th.op.Insert? <==> Found(h, th))
    ensures var (h', th') := Step(h, th); h' == h && th'.pc.Done? && th'.op == th.op
    ensures !th.removed ==> Answered(h, h, Step(h, th).1)
  {
    GapShows(h, th);
  }

  lemma EndsAlone(h: Heap, th: Thread) returns (h': Heap, th': Thread)
    requires Good(h, th) && th.pc.Dispatch? && Fresh(h, th)
    ensures Leads(h, th, h', th') && Good(h', th') && th'.pc.Done? && th'.op == th.op
    ensures !th.removed ==> Answered(h, h', th')
  {
    hide Step, Leads, HeapInv, Contents, ThreadInv, Reachable, FreedIsTaken;
    if th.removed || th.op.Find? || (th.op.Insert? <==> Found(h, th)) {
      AnswerStep(h, th);
      StepGood(h, th);
      LeadsStep(h, th);
      h', th' := h, Step(h, th).1;
    } else if th.op.Insert? {
      GapShows(h, th);
      h', th' := InsertEnds(h, th);
      LeadsKeepsOp(h, th, h', th');
    } else {
      h', th' := DeleteEnds(h, th);
    }
  }

  // ---------------------------------------------------------------- any thread, from anywhere

  lemma FromHead(h: Heap, th: Thread) returns (h': Heap, th': Thread)
    requires Good(h, th) && th.pc.LoadHead?
    ensures Leads(h, th, h', th') && Good(h', th') && th'.pc.Done?
  {
    hide Step, Leads, HeapInv, ThreadInv, Fresh, Answered;
    var h1, th1 := SearchAlone(h, th);
    h', th' := EndsAlone(h1, th1);
    LeadsOn(h, th, h1, th1, h', th');
  }

  lemma PcAfter(h: Heap, th: Thread)
    requires Good(h, th)
    ensures var pc := Step(h, th).1.pc;
      match th.pc
      case Start => pc.LoadHead?
      case Adjacent => pc.LoadHead? || pc.Dispatch? || pc.Unlink?
      case Unlink => pc.LoadHead? || pc.Recheck?
      case Recheck => pc.LoadHead? || pc.Dispatch?
      case Dispatch => pc.Done? || pc.Link? || pc.LoadVictim?
      case Link => pc.Done? || pc.Start?
      case LoadVictim => pc.Start? || pc.Mark?
      case Mark => pc.Start? || pc.Cut?
      case Cut => pc.Done? || pc.Start?
      case _ => true
  {
  }

  /** How far the code is from a new search or its end, the walk along the list apart. */
  function Distance(pc: PC): nat {
    match pc
    case LoadHead => 0
    case Done(_) => 0
    case Start => 1
    case Cut => 2
    case Mark => 3
    case Link => 2
    case LoadVictim => 4
    case Dispatch => 5
    case Recheck => 6
    case Unlink => 7
    case Adjacent => 8
    case LoadNext => 9
    case Advance => 10
  }

  /**
   * From any point of the code, and whatever the other threads have done or left undone, a thread that runs alone
   * returns.
   */
  lemma {:induction false} FinishesAlone(h: Heap, th: Thread) returns (h': Heap, th': Thread)
    requires Good(h, th)
    ensures Leads(h, th, h', th') && Good(h', th') && th'.pc.Done?
    decreases Distance(th.pc)
  {
    hide Step, Leads, HeapInv, ThreadInv, Fresh;
    LeadsNow(h, th);
    if th.pc.Done? {
      h', th' := h, th;
    } else if th.pc.LoadHead? {
      h', th' := FromHead(h, th);
    } else {
      var h1, th1;
      if th.pc.LoadNext? {
        h1 := h;
        th1 := WalkEnds(h, th);
      } else {
        StepGood(h, th);
        LeadsStep(h, th);
        h1, th1 := Step(h, th).0, Step(h, th).1;
        if th.pc.Advance? { AdvanceStep(h, th); } else { PcAfter(h, th); }
      }
      h', th' := FinishesAlone(h1, th1);
      LeadsOn(h, th, h1, th1, h', th');
    }
  }

  // ---------------------------------------------------------------- runs that end with one thread alone

  /** The schedule, and then n steps of one thread. */
  function Then(sched: Schedule, tid: nat, n: nat): (r: Schedule)
    ensures |r| == |sched| + n
  {
    if n == 0 then sched else Then(sched, tid, n - 1) + [Run(tid)]
  }

  lemma {:induction false} AtAlone(sched: Schedule, tid: nat, n: nat)
    requires tid in At(sched, |sched|).threads
    ensures var s, s' := At(sched, |sched|), At(Then(sched, tid, n), |sched| + n);
            tid in s'.threads && (s'.heap, s'.threads[tid]) == Alone(s.heap, s.threads[tid], n)
  {
    hide Step;
    if n > 0 {
      AtAlone(sched, tid, n - 1);
      var before, s := Then(sched, tid, n - 1), At(sched, |sched|);
      AtPrefix(before, Run(tid), |before|);
      AloneJoin(s.heap, s.threads[tid], n - 1, 1);
      var (h, th) := Alone(s.heap, s.threads[tid], n - 1);
      assert Alone(h, th, 1) == Step(h, th) by { assert Alone(Step(h, th).0, Step(h, th).1, 0) == Step(h, th); }
      if th.pc.Done? { StepDone(h, th); }
    }
  }

  /** After any run, a thread in the middle of a call returns if it is let run alone for long enough. */
  lemma ReturnsAlone(sched: Schedule, tid: nat) returns (n: nat)
    requires tid in At(sched, |sched|).threads
    ensures var s := At(Then(sched, tid, n), |sched| + n); tid in s.threads && s.threads[tid].pc.Done?
  {
    hide Alone, HeapInv, ThreadInv;
    ReachableStates(sched, |sched|);
    var s := At(sched, |sched|);
    var h, th := FinishesAlone(s.heap, s.threads[tid]);
    n :| Alone(s.heap, s.threads[tid], n) == (h, th);
    AtAlone(sched, tid, n);
  }

  lemma CalledGood(s: State, tid: nat, op: Op)
    requires Inv(s) && !Busy(s, tid)
    ensures var s' := Apply(s, Call(tid, op));
            && tid in s'.threads && Good(s'.heap, s'.threads[tid]) && Contents(s'.heap) == Contents(s.heap)
            && s'.threads[tid].op == op && s'.threads[tid].pc.Start? && !s'.threads[tid].removed
  {
    CallKeepsInv(s, tid, op);
  }

  lemma StartStep(h: Heap, th: Thread)
    requires th.pc.Start?
    ensures var (h', th') := Step(h, th); h' == h && SameCall(th, th') && th'.pc.LoadHead?
  {
  }

  lemma TakenBefore(h: Heap, h0: Heap, h': Heap, th: Thread)
    requires Evolves(h, h0) && h0.linked == h.linked && Contents(h0) == Contents(h) && FreedIsTaken(h0, h', th)
    requires forall n | n in h.linked :: n < |h.nodes|
    ensures FreedIsTaken(h, h', th)
  {
    hide Contents, Reachable;
  }

  lemma FromStart(h: Heap, th: Thread) returns (h': Heap, th': Thread)
    requires Good(h, th) && th.pc.Start? && !th.removed
    ensures Leads(h, th, h', th') && th'.op == th.op && Answered(h, h', th')
  {
    hide Step, Leads, ThreadInv, Fresh, FreedIsTaken, Contents, Evolves, SpecStep, Reachable;
    StartStep(h, th);
    StepGood(h, th);
    LeadsStep(h, th);
    var th1 := Step(h, th).1;
    var h0, th2 := SearchAlone(h, th1);
    LeadsOn(h, th, h, th1, h0, th2);
    h', th' := EndsAlone(h0, th2);
    LeadsOn(h, th, h0, th2, h', th');
    if FreedIsTaken(h0, h', th') { TakenBefore(h, h0, h', th'); }
  }

  /**
   * After any run, a call that is made and let run alone returns, answers what the sequential list answers, and leaves
   * what that leaves. A delete that took its key out frees the node that held it, which is off the list by then.
   */
  lemma CallAlone(sched: Schedule, tid: nat, op: Op) returns (n: nat)
    requires !Busy(At(sched, |sched|), tid)
    ensures var s, s' := At(sched, |sched|), At(Then(sched + [Call(tid, op)], tid, n), |sched| + 1 + n);
            && tid in s'.threads && s'.threads[tid].op == op && s'.threads[tid].pc.Done?
            && SpecStep(Contents(s.heap), op, s'.threads[tid].pc.result, Contents(s'.heap))
            && (op.Delete? && s'.threads[tid].pc.result == Truth(true) ==>
                  FreedIsTaken(s.heap, s'.heap, s'.threads[tid]))
  {
    hide Alone, ThreadInv, HeapInv, Contents, SpecStep, FreedIsTaken;
    var before := sched + [Call(tid, op)];
    ReachableStates(sched, |sched|);
    AtPrefix(sched, Call(tid, op), |sched|);
    var s, s1 := At(sched, |sched|), At(before, |before|);
    assert s1 == Apply(s, Call(tid, op));
    CalledGood(s, tid, op);
    var h, th := FromStart(s1.heap, s1.threads[tid]);
    n :| Alone(s1.heap, s1.threads[tid], n) == (h, th);
    AtAlone(before, tid, n);
    assert op.Delete? ==> s1.heap == s.heap;
  }
}
