/**
 * When a call of cbufPut or cbufGet (src/circbuf.c) answers what: why a put fails, however the calls are
 * interleaved, and what a put or a get does that is scheduled alone.
 */
module CircAlone {
  import opened CircBuf

  // ---------------------------------------------------------------- why a put fails

  /** This step is a swap of head that this producer loses: head has moved since it was loaded. */
  predicate LosesSwap(s: State, l: Label, t: nat) {
    l == StepPut(t) && t in s.producers && s.producers[t].pc.PutCas? && s.head != s.producers[t].head
  }

  /** This step makes a new call of cbufPut. */
  predicate Begins(s: State, l: Label, t: nat) {
    l.CallPut? && l.tid == t && (t in s.producers ==> s.producers[t].pc.PutDone?)
  }

  /** How many swaps the producer has lost in its present, or its last, call. */
  function LostSwaps(size: nat, sched: seq<Label>, k: nat, t: nat): nat
    requires k <= |sched|
  {
    if k == 0 then 0
    else
      var s, l := At(size, sched, k - 1), sched[k - 1];
      if Begins(s, l, t) then 0
      else LostSwaps(size, sched, k - 1, t) + if LosesSwap(s, l, t) then 1 else 0
  }

  lemma AttemptsStep(s: State, l: Label, t: nat)
    requires Shaped(s) && t in Apply(s, l).producers
    ensures var p' := Apply(s, l).producers[t];
      if Begins(s, l, t) then p'.attempts == 0
      else t in s.producers && p'.attempts == s.producers[t].attempts + if LosesSwap(s, l, t) then 1 else 0
  {
    hide Mod;
  }

  lemma {:induction false} AttemptsAreLosses(size: nat, sched: seq<Label>, k: nat, t: nat)
    requires k <= |sched| && t in At(size, sched, k).producers
    ensures At(size, sched, k).producers[t].attempts == LostSwaps(size, sched, k, t)
  {
    hide Apply, LosesSwap, Begins;
    if k > 0 {
      AttemptsStep(At(size, sched, k - 1), sched[k - 1], t);
      if t in At(size, sched, k - 1).producers { AttemptsAreLosses(size, sched, k - 1, t); }
    }
  }

  /** The last step of a put: it writes; or the ring is full; or one swap too many is lost; or the slot is taken. */
  predicate EndsFor(s: State, s': State, t: nat, lost: nat)
    requires Shaped(s) && t in s.producers && t in s'.producers
  {
    var p := s.producers[t];
    var next := Next(p.head, |s.buffer|);
    if s'.producers[t].pc == PutDone(0) then p.pc.PutWrite? && s'.buffer == s.buffer[next := p.data]
    else
      && s'.producers[t].pc == PutDone(-1) && s'.buffer == s.buffer && s'.head == s.head
      && (|| (p.pc.PutCheck? && next == s.tail)
          || (p.pc.PutCas? && s.head != p.head && lost >= |s.buffer|)
          || (p.pc.PutSlot? && s.buffer[next] != 0))
  }

  lemma StepEnds(s: State, l: Label, t: nat)
    requires Shaped(s) && t in s.producers && !s.producers[t].pc.PutDone?
    requires t in Apply(s, l).producers && Apply(s, l).producers[t].pc.PutDone?
    ensures l == StepPut(t) && EndsFor(s, Apply(s, l), t, s.producers[t].attempts)
  {
    hide Mod;
  }

  /**
   * In every run a put fails in just three ways: the ring was full, by the head it loaded and the tail there is now; or
   * this is the swap of head it loses after having lost as many as the ring has slots; or it has won a slot that is not
   * empty. And it succeeds only by writing its value.
   */
  lemma PutEndsWhy(size: nat, sched: seq<Label>, j: nat, t: nat)
    requires j < |sched| && t in At(size, sched, j).producers && !At(size, sched, j).producers[t].pc.PutDone?
    requires t in At(size, sched, j + 1).producers && At(size, sched, j + 1).producers[t].pc.PutDone?
    ensures sched[j] == StepPut(t)
    ensures EndsFor(At(size, sched, j), At(size, sched, j + 1), t, LostSwaps(size, sched, j, t))
  {
    hide Apply, EndsFor, LostSwaps;
    AttemptsAreLosses(size, sched, j, t);
    StepEnds(At(size, sched, j), sched[j], t);
  }

  // ---------------------------------------------------------------- a put on its own

  /** n steps of a producer. */
  function Puts(s: State, t: nat, n: nat): (s': State)
    requires Shaped(s)
    ensures Shaped(s') && |s'.buffer| == |s.buffer|
    decreases n
  {
    if n == 0 then s else Puts(Apply(s, StepPut(t)), t, n - 1)
  }

  lemma {:induction false} PutsJoin(s: State, t: nat, m: nat, n: nat)
    requires Shaped(s)
    ensures Puts(s, t, m + n) == Puts(Puts(s, t, m), t, n)
    decreases m
  {
    hide Apply;
    if m > 0 { PutsJoin(Apply(s, StepPut(t)), t, m - 1, n); }
  }

  lemma {:induction false} DonePuts(s: State, t: nat, n: nat)
    requires Shaped(s) && t in s.producers && s.producers[t].pc.PutDone?
    ensures Puts(s, t, n) == s
    decreases n
  {
    if n > 0 {
      assert s.(producers := s.producers) == s;
      DonePuts(Apply(s, StepPut(t)), t, n - 1);
    }
  }

  /** The rest of the ring, as a put leaves it. */
  predicate SameGets(s: State, s': State) {
    s'.tail == s.tail && s'.taken == s.taken && s'.got == s.got && s'.consumer == s.consumer
  }

  predicate SameRing(s: State, s': State) {
    && SameGets(s, s') && s'.buffer == s.buffer && s'.head == s.head && s'.claims == s.claims && s'.values == s.values
  }

  /** The claim of the slot behind head. */
  predicate Won(s: State, s': State, data: nat)
    requires Shaped(s)
  {
    var next := Next(s.head, |s.buffer|);
    && SameGets(s, s') && s'.head == next && s'.claims == s.claims + [next] && s'.values == s.values + [data]
  }

  /** What a put does that is not disturbed. */
  predicate PutOutcome(s: State, s': State, t: nat, data: nat)
    requires Shaped(s)
  {
    var next := Next(s.head, |s.buffer|);
    && t in s'.producers
    && if next == s.tail then s'.producers[t].pc == PutDone(-1) && SameRing(s, s')
       else if s.buffer[next] != 0 then s'.producers[t].pc == PutDone(-1) && Won(s, s', data) && s'.buffer == s.buffer
       else s'.producers[t].pc == PutDone(0) && Won(s, s', data) && s'.buffer == s.buffer[next := data]
  }

  /** Two steps: head is loaded, and the test for room made. */
  lemma LoadAndCheck(s: State, t: nat)
    requires Shaped(s) && t in s.producers && s.producers[t].pc.PutLoad?
    ensures var p, s' := s.producers[t], Puts(s, t, 2);
      && SameRing(s, s') && t in s'.producers && s'.producers[t].head == s.head && s'.producers[t].data == p.data
      && s'.producers[t].pc == if Next(s.head, |s.buffer|) == s.tail then PutDone(-1) else PutCas
  {
    hide Mod;
    var s1 := Apply(s, StepPut(t));
    assert Puts(s, t, 2) == Apply(s1, StepPut(t)) by {
      assert Puts(s1, t, 1) == Puts(Apply(s1, StepPut(t)), t, 0);
    }
  }

  /** Three steps: the swap, the look at the slot, and the write. */
  lemma SwapAndWrite(s: State, t: nat)
    requires Shaped(s) && t in s.producers && s.producers[t].pc.PutCas? && s.producers[t].head == s.head
    requires Next(s.head, |s.buffer|) != s.tail
    ensures PutOutcome(s, Puts(s, t, 3), t, s.producers[t].data)
  {
    hide Mod;
    var s1 := Apply(s, StepPut(t));
    var s2 := Apply(s1, StepPut(t));
    assert Puts(s, t, 3) == Apply(s2, StepPut(t)) by {
      assert Puts(s1, t, 2) == Puts(s2, t, 1);
      assert Puts(s2, t, 1) == Puts(Apply(s2, StepPut(t)), t, 0);
    }
  }

  lemma FromLoad(s: State, t: nat)
    requires Shaped(s) && t in s.producers && s.producers[t].pc.PutLoad?
    ensures PutOutcome(s, Puts(s, t, 5), t, s.producers[t].data)
  {
    hide Puts, Apply, Mod;
    LoadAndCheck(s, t);
    PutsJoin(s, t, 2, 3);
    var s' := Puts(s, t, 2);
    if s'.producers[t].pc.PutDone? { DonePuts(s', t, 3); } else { SwapAndWrite(s', t); }
  }

  /**
   * In any state, a put that is called and let run alone: it fails and changes nothing if the ring is full; otherwise
   * it claims the slot behind head and, if that is empty, puts its value there and succeeds.
   */
  lemma PutAlone(size: nat, sched: seq<Label>, t: nat, data: nat)
    requires var s := At(size, sched, |sched|); t in s.producers ==> s.producers[t].pc.PutDone?
    ensures var s := At(size, sched, |sched|);
      PutOutcome(s, Puts(Apply(s, CallPut(t, data)), t, 5), t, data)
  {
    hide Puts, At;
    FromLoad(Apply(At(size, sched, |sched|), CallPut(t, data)), t);
  }

  /** An upper bound for the steps a put has left when it runs alone. */
  function StepsLeft(pc: PutPc): nat {
    match pc
    case PutDone(_) => 0
    case PutWrite => 1
    case PutSlot => 2
    case PutLoad => 5
    case PutCas => 6
    case PutCheck => 7
  }

  /** From anywhere in the code, a put that runs alone is over after seven steps at the most. */
  lemma {:induction false} PutReturns(s: State, t: nat, n: nat)
    requires Shaped(s) && t in s.producers && StepsLeft(s.producers[t].pc) <= n
    ensures t in Puts(s, t, n).producers && Puts(s, t, n).producers[t].pc.PutDone?
    decreases n
  {
    hide Mod;
    var pc := s.producers[t].pc;
    if pc.PutDone? { DonePuts(s, t, n); }
    else if pc.PutLoad? {
      FromLoad(s, t);
      PutsJoin(s, t, 5, n - 5);
      DonePuts(Puts(s, t, 5), t, n - 5);
    } else {
      PutReturns(Apply(s, StepPut(t)), t, n - 1);
    }
  }

  // ---------------------------------------------------------------- a get on its own

  /** n steps of the consumer. */
  function Gets(s: State, n: nat): (s': State)
    requires Shaped(s)
    ensures Shaped(s') && |s'.buffer| == |s.buffer|
    decreases n
  {
    if n == 0 then s else Gets(Get(s), n - 1)
  }

  lemma {:induction false} GetsJoin(s: State, m: nat, n: nat)
    requires Shaped(s)
    ensures Gets(s, m + n) == Gets(Gets(s, m), n)
    decreases m
  {
    hide Get;
    if m > 0 { GetsJoin(Get(s), m - 1, n); }
  }

  lemma {:induction false} DoneGets(s: State, n: nat)
    requires Shaped(s) && s.consumer.pc.GetDone?
    ensures Gets(s, n) == s
    decreases n
  {
    if n > 0 { DoneGets(Get(s), n - 1); }
  }

  predicate SamePuts(s: State, s': State) {
    s'.head == s.head && s'.claims == s.claims && s'.values == s.values && s'.producers == s.producers
  }

  /** What a get does that is not disturbed. */
  predicate GetOutcome(s: State, s': State)
    requires Shaped(s)
  {
    var next := Next(s.tail, |s.buffer|);
    && SamePuts(s, s')
    && if s.tail == s.head
       then
         && s'.consumer.pc == GetDone(-1) && s'.buffer == s.buffer
         && s'.tail == s.tail && s'.taken == s.taken && s'.got == s.got
       else
         && s'.consumer.pc == GetDone(0) && s'.consumer.data == s.buffer[next] && s'.buffer == s.buffer[next := 0]
         && s'.tail == next && s'.taken == s.taken + [next] && s'.got == s.got + [s.buffer[next]]
  }

  lemma LoadAndCheckTail(s: State)
    requires Shaped(s) && s.consumer.pc.GetLoad?
    ensures var s' := Gets(s, 2);
      && s' == s.(consumer := s'.consumer) && s'.consumer.tail == s.tail
      && s'.consumer.pc == if s.tail == s.head then GetDone(-1) else GetCas
  {
    hide Mod;
    var s1 := Get(s);
    assert Gets(s, 2) == Get(s1) by { assert Gets(s1, 1) == Gets(Get(s1), 0); }
  }

  lemma TakeAndClear(s: State)
    requires Shaped(s) && s.consumer.pc.GetCas? && s.consumer.tail == s.tail && s.tail != s.head
    ensures GetOutcome(s, Gets(s, 3))
  {
    hide Mod;
    var s1 := Get(s);
    var s2 := Get(s1);
    assert Gets(s, 3) == Get(s2) by {
      assert Gets(s1, 2) == Gets(s2, 1);
      assert Gets(s2, 1) == Gets(Get(s2), 0);
    }
  }

  lemma FromLoadTail(s: State)
    requires Shaped(s) && s.consumer.pc.GetLoad?
    ensures GetOutcome(s, Gets(s, 5))
  {
    hide Gets, Get, Mod;
    LoadAndCheckTail(s);
    GetsJoin(s, 2, 3);
    var s' := Gets(s, 2);
    if s'.consumer.pc.GetDone? { DoneGets(s', 3); } else { TakeAndClear(s'); }
  }

  /** After any run, a get that is called and let run alone fails if the ring is empty, and else takes what is next. */
  lemma GetAlone(size: nat, sched: seq<Label>)
    requires At(size, sched, |sched|).consumer.pc.GetDone?
    ensures var s := At(size, sched, |sched|); GetOutcome(s, Gets(Apply(s, CallGet), 5))
  {
    hide Gets, At;
    FromLoadTail(Apply(At(size, sched, |sched|), CallGet));
  }

  function GetStepsLeft(pc: GetPc): nat {
    match pc
    case GetDone(_) => 0
    case GetClear => 1
    case GetRead => 2
    case GetLoad => 5
    case GetCas => 6
    case GetCheck => 7
  }

  /** From anywhere in the code, a get that runs alone is over after seven steps at the most. */
  lemma {:induction false} GetReturns(s: State, n: nat)
    requires Shaped(s) && GetStepsLeft(s.consumer.pc) <= n
    ensures Gets(s, n).consumer.pc.GetDone?
    decreases n
  {
    hide Mod;
    if s.consumer.pc.GetDone? { DoneGets(s, n); }
    else if s.consumer.pc.GetLoad? {
      FromLoadTail(s);
      GetsJoin(s, 5, n - 5);
      DoneGets(Gets(s, 5), n - 5);
    } else {
      GetReturns(Get(s), n - 1);
    }
  }
}
