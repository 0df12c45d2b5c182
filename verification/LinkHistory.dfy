/**
 * Linearizability of src/linklist.c, as one sequential history of a whole run.
 *
 * Every call that has taken effect has its point, a step of its own inside the call. The calls in the
 * order of their points, applied one after the other to an ordinary set of pairs, give each caller its
 * answer and leave the set the concurrent list holds.
 */
module LinkHistory {
  import opened LinkList

  // ---------------------------------------------------------------- the sequential list

  datatype Event = Event(tid: nat, call: nat, op: Op, result: Result)

  /** What an operation leaves of a set of pairs. */
  ghost function After(c: set<(nat, nat)>, op: Op): set<(nat, nat)> {
    match op
    case Insert(key, data) => if Has(c, key) then c else c + {(key, data)}
    case Delete(key) => set p | p in c && p.0 != key
    case Find(_) => c
  }

  /** What it answers. */
  ghost predicate Answers(c: set<(nat, nat)>, op: Op, result: Result) {
    match op
    case Insert(key, _) => result == Truth(!Has(c, key))
    case Delete(key) => result == Truth(Has(c, key))
    case Find(key) => result.Data? && if Has(c, key) then (key, result.ptr) in c else result.ptr == NULL
  }

  /** One operation after the other, from the empty list. */
  ghost function Fold(events: seq<Event>): set<(nat, nat)> {
    if events == [] then {} else After(Fold(events[..|events| - 1]), events[|events| - 1].op)
  }

  /** Every operation got the answer the sequential list gives it. */
  ghost predicate Sequential(events: seq<Event>) {
    events == [] ||
    var front, last := events[..|events| - 1], events[|events| - 1];
    Sequential(front) && Answers(Fold(front), last.op, last.result)
  }

  lemma SpecIsSequential(c: set<(nat, nat)>, op: Op, result: Result, c': set<(nat, nat)>)
    requires SpecStep(c, op, result, c')
    requires forall d, e | (op.key, d) in c && (op.key, e) in c :: d == e
    ensures Answers(c, op, result) && c' == After(c, op)
  {
    if op.Delete? && !result.ok {
      assert forall p | p in c :: p == (p.0, p.1);
    } else if op.Delete? {
      var d: nat :| (op.key, d) in c && c' == c - {(op.key, d)};
      assert forall p | p in c && p.0 == op.key :: p == (op.key, p.1);
    }
  }

  // ---------------------------------------------------------------- points

  /** The call has taken effect: its answer is settled. */
  ghost predicate Decided(th: Thread) {
    th.pc.Done? || th.removed
  }

  ghost function EventOf(tid: nat, th: Thread): Event
    requires Decided(th)
  {
    Event(tid, th.call, th.op, if th.pc.Done? then th.pc.result else Truth(true))
  }

  ghost predicate IsPoint(sched: Schedule, j: nat, tid: nat, th: Thread, k: nat)
    requires j <= |sched| && Decided(th)
  {
    && Own(sched, j, tid, th, k) && EffectAt(sched, k, th.op, EventOf(tid, th).result)
    && forall i: nat | Own(sched, j, tid, th, i) && i != k :: Quiet(sched, i)
  }

  /** Step j settles the answer of the call its thread is in. */
  ghost predicate Decides(sched: Schedule, j: nat)
    requires j < |sched|
  {
    && sched[j].Run? && Busy(At(sched, j), sched[j].tid) && !Decided(At(sched, j).threads[sched[j].tid])
    && sched[j].tid in At(sched, j + 1).threads && Decided(At(sched, j + 1).threads[sched[j].tid])
  }

  /** The step where a settled call takes effect. */
  ghost function PointOf(sched: Schedule, j: nat, tid: nat, th: Thread): (k: nat)
    requires j <= |sched| && Decided(th) && TakesEffect(sched, j, tid, th, EventOf(tid, th).result)
    ensures IsPoint(sched, j, tid, th, k)
  {
    var k: nat :| Own(sched, j, tid, th, k) && EffectAt(sched, k, th.op, EventOf(tid, th).result)
      && forall i: nat | Own(sched, j, tid, th, i) && i != k :: Quiet(sched, i);
    k
  }

  /** The point of the call that step j settles. */
  ghost function Point(sched: Schedule, j: nat): (k: nat)
    requires j < |sched| && Decides(sched, j)
    ensures IsPoint(sched, j + 1, sched[j].tid, At(sched, j + 1).threads[sched[j].tid], k)
  {
    var tid := sched[j].tid;
    EvidenceAlways(sched, j + 1, tid);
    PointOf(sched, j + 1, tid, At(sched, j + 1).threads[tid])
  }

  /** The calls that have taken effect by state j, by their points. */
  ghost function History(sched: Schedule, j: nat): map<nat, Event>
    requires j <= |sched|
  {
    if j == 0 then map[]
    else
      var before := History(sched, j - 1);
      if Decides(sched, j - 1)
      then before[Point(sched, j - 1) := EventOf(sched[j - 1].tid, At(sched, j).threads[sched[j - 1].tid])]
      else before
  }

  // ---------------------------------------------------------------- what a history keeps

  /** The call of an event was made: the label in front of its first step is that call. */
  ghost predicate Made(sched: Schedule, tid: nat, call: nat, op: Op) {
    0 < call <= |sched| && sched[call - 1] == Call(tid, op)
  }

  lemma {:induction false} CallsMade(sched: Schedule, j: nat, tid: nat)
    requires j <= |sched| && tid in At(sched, j).threads
    ensures Made(sched, tid, At(sched, j).threads[tid].call, At(sched, j).threads[tid].op)
    decreases j
  {
    hide Step, Inv;
    var s := At(sched, j - 1);
    ReachableStates(sched, j - 1);
    if sched[j - 1].tid != tid || Busy(s, tid) || sched[j - 1].Run? {
      CallsMade(sched, j - 1, tid);
      StepKeepsOp(s.heap, s.threads[tid]);
    }
  }

  /** A point is a step of its own call, which was made before it, and the call takes effect there. */
  ghost predicate PointsOk(sched: Schedule, j: nat, hist: map<nat, Event>)
    requires j <= |sched|
  {
    forall k: nat | k in hist ::
      && k < j && hist[k].call <= k && Made(sched, hist[k].tid, hist[k].call, hist[k].op)
      && sched[k] == Run(hist[k].tid) && EffectAt(sched, k, hist[k].op, hist[k].result)
  }

  /** The call of e, with its point at k, is over, or it is the call its thread is in. */
  ghost predicate Belongs(threads: map<nat, Thread>, k: nat, e: Event) {
    && e.tid in threads
    && var th := threads[e.tid];
       k < th.call || (Decided(th) && EventOf(e.tid, th) == e)
  }

  ghost predicate AllBelong(s: State, hist: map<nat, Event>) {
    forall k: nat | k in hist :: Belongs(s.threads, k, hist[k])
  }

  /** A call goes on, and never takes back its answer. */
  ghost predicate GoesOn(th: Thread, th': Thread) {
    th'.call == th.call && th'.op == th.op && (Decided(th) ==> Decided(th') && EventOf(0, th') == EventOf(0, th))
  }

  lemma StepGoesOn(h: Heap, th: Thread)
    requires ThreadInv(h, th)
    ensures GoesOn(th, Step(h, th).1)
  {
  }

  lemma ThreadMovesOn(sched: Schedule, j: nat, tid: nat)
    requires j < |sched| && tid in At(sched, j).threads
    ensures tid in At(sched, j + 1).threads
    ensures var th, th' := At(sched, j).threads[tid], At(sched, j + 1).threads[tid];
            GoesOn(th, th') || (th.pc.Done? && th'.call == j + 1 && !Decided(th'))
  {
    hide Step, ThreadInv, HeapInv;
    ReachableStates(sched, j);
    var s := At(sched, j);
    if sched[j] == Run(tid) && Busy(s, tid) { StepGoesOn(s.heap, s.threads[tid]); }
  }

  /** No call is in the history twice. */
  ghost predicate OncePerCall(hist: map<nat, Event>) {
    forall k: nat, l: nat | k in hist && l in hist && k != l ::
      hist[k].tid != hist[l].tid || hist[k].call != hist[l].call
  }

  ghost predicate Recorded(hist: map<nat, Event>, e: Event) {
    exists k: nat :: k in hist && hist[k] == e
  }

  /** Every call that has taken effect, of those the threads are in, is in the history. */
  ghost predicate AllRecorded(s: State, hist: map<nat, Event>) {
    forall tid | tid in s.threads && Decided(s.threads[tid]) :: Recorded(hist, EventOf(tid, s.threads[tid]))
  }

  /** Steps that are no points change nothing. */
  ghost predicate RestQuiet(sched: Schedule, j: nat, hist: map<nat, Event>)
    requires j <= |sched|
  {
    forall k: nat | k < j && k !in hist :: Quiet(sched, k)
  }

  ghost predicate HistoryInv(sched: Schedule, j: nat, hist: map<nat, Event>)
    requires j <= |sched|
  {
    && PointsOk(sched, j, hist) && AllBelong(At(sched, j), hist) && OncePerCall(hist)
    && AllRecorded(At(sched, j), hist) && RestQuiet(sched, j, hist)
  }

  /** A step that changes what the list holds settles its call. */
  lemma UndecidedIsQuiet(sched: Schedule, j: nat)
    requires j < |sched|
    ensures Decides(sched, j) || Quiet(sched, j)
  {
    hide HeapInv, Evolves, Contents;
    ReachableStates(sched, j);
    ContentsChangeAtC2C3(sched, j);
    if key: nat :| Links(sched, j, key) || Marks(sched, j, key) {
      assert ThreadInv(At(sched, j).heap, At(sched, j).threads[sched[j].tid]);
    }
  }

  lemma ThreadComesFrom(sched: Schedule, j: nat, tid: nat)
    requires j < |sched| && tid in At(sched, j + 1).threads && Decided(At(sched, j + 1).threads[tid])
    ensures tid in At(sched, j).threads
    ensures || At(sched, j + 1).threads[tid] == At(sched, j).threads[tid]
            || (sched[j] == Run(tid) && Busy(At(sched, j), tid))
  {
    hide Step;
  }

  /** The answers that step j does not settle were there before it. */
  lemma RecordedLasts(sched: Schedule, j: nat, hist: map<nat, Event>, tid: nat)
    requires j < |sched| && AllRecorded(At(sched, j), hist)
    requires tid in At(sched, j + 1).threads && Decided(At(sched, j + 1).threads[tid])
    requires !Decides(sched, j) || sched[j].tid != tid
    ensures Recorded(hist, EventOf(tid, At(sched, j + 1).threads[tid]))
  {
    hide At, Recorded;
    ThreadComesFrom(sched, j, tid);
    ThreadMovesOn(sched, j, tid);
    var th, th' := At(sched, j).threads[tid], At(sched, j + 1).threads[tid];
    assert Decided(th) && EventOf(tid, th') == EventOf(tid, th);
  }

  /** A step that settles no call leaves the history good. */
  lemma HistoryLasts(sched: Schedule, j: nat, hist: map<nat, Event>)
    requires j < |sched| && HistoryInv(sched, j, hist) && !Decides(sched, j)
    ensures HistoryInv(sched, j + 1, hist)
  {
    hide EffectAt, Quiet, At, Recorded, Decides, Decided;
    UndecidedIsQuiet(sched, j);
    BelongingLasts(sched, j, hist);
    var s' := At(sched, j + 1);
    forall tid | tid in s'.threads && Decided(s'.threads[tid]) ensures Recorded(hist, EventOf(tid, s'.threads[tid])) {
      RecordedLasts(sched, j, hist, tid);
    }
  }

  lemma BelongingLasts(sched: Schedule, j: nat, hist: map<nat, Event>)
    requires j < |sched| && PointsOk(sched, j, hist) && AllBelong(At(sched, j), hist)
    ensures AllBelong(At(sched, j + 1), hist)
  {
    hide EffectAt, At;
    forall k: nat | k in hist ensures Belongs(At(sched, j + 1).threads, k, hist[k]) {
      assert Belongs(At(sched, j).threads, k, hist[k]);
      ThreadMovesOn(sched, j, hist[k].tid);
    }
  }

  /** The point of a call that is only now settled is no other call's point. */
  lemma PointIsNew(sched: Schedule, j: nat, hist: map<nat, Event>, k: nat)
    requires j < |sched| && Decides(sched, j) && PointsOk(sched, j, hist) && AllBelong(At(sched, j), hist)
    requires k in hist && hist[k].tid == sched[j].tid
    ensures k != Point(sched, j) && hist[k].call < At(sched, j + 1).threads[sched[j].tid].call
  {
    hide EffectAt, At;
    assert Belongs(At(sched, j).threads, k, hist[k]);
    ThreadMovesOn(sched, j, hist[k].tid);
  }

  /** A step that settles its call adds just that call. */
  lemma HistoryGrows(sched: Schedule, j: nat, hist: map<nat, Event>, hist': map<nat, Event>)
    requires j < |sched| && HistoryInv(sched, j, hist) && Decides(sched, j)
    requires hist' == hist[Point(sched, j) := EventOf(sched[j].tid, At(sched, j + 1).threads[sched[j].tid])]
    ensures HistoryInv(sched, j + 1, hist') && Point(sched, j) !in hist
  {
    hide EffectAt, Quiet, At, Decided, Point, Made;
    var tid, p := sched[j].tid, Point(sched, j);
    var s' := At(sched, j + 1);
    var th := s'.threads[tid];
    forall k: nat | k in hist && hist[k].tid == tid ensures k != p && hist[k].call < th.call {
      PointIsNew(sched, j, hist, k);
    }
    BelongingLasts(sched, j, hist);
    CallsMade(sched, j + 1, tid);
    forall i | i in s'.threads && Decided(s'.threads[i]) ensures Recorded(hist', EventOf(i, s'.threads[i])) {
      if i == tid { assert hist'[p] == EventOf(i, th); }
      else {
        RecordedLasts(sched, j, hist, i);
        var k: nat :| k in hist && hist[k] == EventOf(i, s'.threads[i]);
        assert hist'[k] == hist[k];
      }
    }
  }

  /** At every state of every run the history is good, and it only grows. */
  lemma {:induction false} HistoryAlways(sched: Schedule, j: nat)
    requires j <= |sched|
    ensures HistoryInv(sched, j, History(sched, j))
    ensures j > 0 ==> forall k: nat | k in History(sched, j - 1) ::
              k in History(sched, j) && History(sched, j)[k] == History(sched, j - 1)[k]
  {
    hide HistoryInv, Decides, Point;
    if j > 0 {
      HistoryAlways(sched, j - 1);
      if Decides(sched, j - 1) { HistoryGrows(sched, j - 1, History(sched, j - 1), History(sched, j)); }
      else { HistoryLasts(sched, j - 1, History(sched, j - 1)); }
    } else {
      EmptyHistory(sched);
    }
  }

  lemma EmptyHistory(sched: Schedule)
    ensures HistoryInv(sched, 0, map[])
  {
  }

  // ---------------------------------------------------------------- the run is one sequential history

  /** The events of a history whose points come before step k, in order. */
  ghost function Events(hist: map<nat, Event>, k: nat): seq<Event> {
    if k == 0 then [] else Events(hist, k - 1) + if k - 1 in hist then [hist[k - 1]] else []
  }

  lemma FoldOneMore(events: seq<Event>, e: Event)
    requires Sequential(events) && Answers(Fold(events), e.op, e.result)
    ensures Sequential(events + [e]) && Fold(events + [e]) == After(Fold(events), e.op)
  {
    assert (events + [e])[..|events|] == events;
  }

  lemma NothingYet(sched: Schedule)
    ensures Sequential([]) && Fold([]) == {} && ContentsAt(sched, 0) == {}
  {
  }

  lemma {:induction false} FoldIsContents(sched: Schedule, hist: map<nat, Event>, j: nat, k: nat)
    requires k <= j <= |sched| && PointsOk(sched, j, hist) && RestQuiet(sched, j, hist)
    ensures Sequential(Events(hist, k)) && Fold(Events(hist, k)) == ContentsAt(sched, k)
    decreases k
  {
    hide After, Answers, SpecStep, ContentsAt, Fold, Sequential;
    if k == 0 {
      NothingYet(sched);
    } else {
      FoldIsContents(sched, hist, j, k - 1);
      if k - 1 in hist {
        var e := hist[k - 1];
        MembershipIsBalance(sched, k - 1, e.op.key);
        SpecIsSequential(ContentsAt(sched, k - 1), e.op, e.result, ContentsAt(sched, k));
        FoldOneMore(Events(hist, k - 1), e);
      } else {
        assert Events(hist, k) == Events(hist, k - 1) && Quiet(sched, k - 1);
      }
    }
  }

  lemma {:induction false} HistoryKept(sched: Schedule, i: nat, j: nat, k: nat)
    requires i <= j <= |sched| && k in History(sched, i)
    ensures k in History(sched, j) && History(sched, j)[k] == History(sched, i)[k]
    decreases j
  {
    hide History, HistoryInv;
    if i < j {
      HistoryKept(sched, i, j - 1, k);
      HistoryAlways(sched, j);
    }
  }

  /** The thread's call returns in step i. */
  ghost predicate Returns(sched: Schedule, i: nat, tid: nat)
    requires i < |sched|
  {
    Busy(At(sched, i), tid) && tid in At(sched, i + 1).threads && At(sched, i + 1).threads[tid].pc.Done?
  }

  /** A call that returns has its point between its call and its return. */
  lemma ReturnedIsRecorded(sched: Schedule, i: nat, tid: nat) returns (k: nat)
    requires i < |sched| && Returns(sched, i, tid)
    ensures var th := At(sched, i + 1).threads[tid];
            && th.call <= k <= i && k in History(sched, |sched|)
            && History(sched, |sched|)[k] == Event(tid, th.call, th.op, th.pc.result)
  {
    hide At, History, EffectAt, Quiet;
    HistoryAlways(sched, i + 1);
    var th, hist := At(sched, i + 1).threads[tid], History(sched, i + 1);
    assert Recorded(hist, EventOf(tid, th));
    k :| k in hist && hist[k] == EventOf(tid, th);
    HistoryKept(sched, i + 1, |sched|, k);
  }

  /**
   * Linearizability of a whole run: there is one sequence of calls that were made, each at a step of its own inside
   * the call and none of them twice, that the sequential list answers just as the callers were answered and that
   * leaves what the list holds, at the end and at every step before it.
   */
  lemma Linearized(sched: Schedule, k: nat)
    requires k <= |sched|
    ensures var hist := History(sched, |sched|);
            && Sequential(Events(hist, k)) && Fold(Events(hist, k)) == ContentsAt(sched, k)
            && PointsOk(sched, |sched|, hist) && OncePerCall(hist)
  {
    hide History, PointsOk, OncePerCall, RestQuiet, AllBelong, AllRecorded;
    HistoryAlways(sched, |sched|);
    FoldIsContents(sched, History(sched, |sched|), |sched|, k);
  }

  /** The sequence keeps real time: a call that returned before another began comes before it. */
  lemma RealTimeOrder(sched: Schedule, i: nat, tid: nat, k: nat, l: nat)
    requires i < |sched| && Returns(sched, i, tid)
    requires var hist := History(sched, |sched|);
             && k in hist && hist[k].tid == tid && hist[k].call == At(sched, i + 1).threads[tid].call
             && l in hist && hist[l].call > i
    ensures k < l
  {
    hide At, History, EffectAt, Quiet, Returns;
    var m := ReturnedIsRecorded(sched, i, tid);
    HistoryAlways(sched, |sched|);
  }
}
