/**
 * get_stack and free_stack of src/com.c, each scheduled alone: they return from wherever the other threads have
 * left them; a get takes the first unused entry of the pool, and a free gives back what the get took.
 */
module StackAlone {
  import opened StackPool

  /** n steps of one thread, with m for malloc's answer. */
  function Alone(s: State, tid: nat, m: nat, n: nat): (s': State)
    requires Shape(s)
    ensures Shape(s')
    decreases n
  {
    if n == 0 then s else Alone(Apply(s, Run(tid, m)), tid, m, n - 1)
  }

  lemma {:induction false} AloneJoin(s: State, tid: nat, m: nat, i: nat, j: nat)
    requires Shape(s)
    ensures Alone(s, tid, m, i + j) == Alone(Alone(s, tid, m, i), tid, m, j)
    decreases i
  {
    hide Apply;
    if i > 0 { AloneJoin(Apply(s, Run(tid, m)), tid, m, i - 1, j); }
  }

  ghost predicate Leads(s: State, tid: nat, m: nat, s': State)
    requires Shape(s)
  {
    exists n: nat :: Alone(s, tid, m, n) == s'
  }

  lemma LeadsNow(s: State, tid: nat, m: nat)
    requires Shape(s)
    ensures Leads(s, tid, m, s)
  {
    assert Alone(s, tid, m, 0) == s;
  }

  lemma LeadsStep(s: State, tid: nat, m: nat)
    requires Shape(s)
    ensures Leads(s, tid, m, Apply(s, Run(tid, m)))
  {
    hide Apply;
    assert Alone(s, tid, m, 1) == Alone(Apply(s, Run(tid, m)), tid, m, 0);
  }

  lemma LeadsOn(s: State, tid: nat, m: nat, s': State, s'': State)
    requires Shape(s) && Shape(s') && Leads(s, tid, m, s') && Leads(s', tid, m, s'')
    ensures Leads(s, tid, m, s'')
  {
    hide Alone;
    var i: nat :| Alone(s, tid, m, i) == s';
    var j: nat :| Alone(s', tid, m, j) == s'';
    AloneJoin(s, tid, m, i, j);
    assert Alone(s, tid, m, i + j) == s'';
  }

  /** One step, then what follows it. */
  lemma StepThen(s: State, tid: nat, m: nat, s'': State)
    requires Shape(s) && Leads(Apply(s, Run(tid, m)), tid, m, s'')
    ensures Leads(s, tid, m, s'')
  {
    hide Apply, Leads;
    LeadsStep(s, tid, m);
    LeadsOn(s, tid, m, Apply(s, Run(tid, m)), s'');
  }

  predicate At?(s: State, tid: nat, pc: PC) {
    tid in s.threads && s.threads[tid].pc == pc
  }

  /** get_stack has returned, with a stack or without. */
  predicate Got(s: State, tid: nat) {
    At?(s, tid, Holding) || At?(s, tid, Done)
  }

  // ---------------------------------------------------------------- get_stack

  /** The thread holds this address, which came from entry `home` of the pool, or from outside it. */
  predicate Holds(s: State, tid: nat, addr: nat, home: nat) {
    At?(s, tid, Holding) && s.threads[tid].addr == addr && s.threads[tid].home == home
  }

  /** malloc outside the pool. */
  ghost predicate FellBack(s: State, s': State, tid: nat, m: nat) {
    && s'.pool == s.pool && s'.live == (if m == NULL then s.live else s.live + {m})
    && if m == NULL then At?(s', tid, Done) else Holds(s', tid, m, POOL_MAX)
  }

  lemma FallbackAlone(s: State, tid: nat, m: nat) returns (s': State)
    requires Shape(s) && At?(s, tid, Fallback) && MallocOk(s, m)
    ensures Leads(s, tid, m, s') && Shape(s') && FellBack(s, s', tid, m)
  {
    LeadsStep(s, tid, m);
    s' := Apply(s, Run(tid, m));
  }

  /** An entry that is claimed gets a stack if it has none and malloc gives one; if not, it is put back. */
  ghost predicate Claimed(s: State, s': State, tid: nat, m: nat, i: nat)
    requires Shape(s) && i < POOL_MAX
  {
    var addr := s.pool[i].addr;
    if addr != NULL then Holds(s', tid, addr, i) && s'.pool == s.pool[i := Entry(true, addr)] && s'.live == s.live
    else if m != NULL then Holds(s', tid, m, i) && s'.pool == s.pool[i := Entry(true, m)] && s'.live == s.live + {m}
    else At?(s', tid, Done) && s'.pool == s.pool[i := Entry(false, NULL)] && s'.live == s.live
  }

  lemma AllocAlone(s: State, tid: nat, m: nat) returns (s': State)
    requires Shape(s) && At?(s, tid, Alloc) && MallocOk(s, m)
    requires var e := s.pool[s.threads[tid].i]; e.used && e.addr == NULL
    ensures Leads(s, tid, m, s') && Shape(s') && Claimed(s, s', tid, m, s.threads[tid].i)
  {
    var s1 := Apply(s, Run(tid, m));
    var s2 := Apply(s1, Run(tid, m));
    LeadsNow(s2, tid, m);
    s' := s2;
    if m == NULL {
      var s3 := Apply(s2, Run(tid, m));
      s' := FallbackAlone(s3, tid, m);
      StepThen(s2, tid, m, s');
    }
    hide Apply, Leads;
    StepThen(s1, tid, m, s');
    StepThen(s, tid, m, s');
  }

  lemma ReadAlone(s: State, tid: nat, m: nat) returns (s': State)
    requires Shape(s) && At?(s, tid, ReadAddr) && MallocOk(s, m) && s.pool[s.threads[tid].i].used
    ensures Leads(s, tid, m, s') && Shape(s') && Claimed(s, s', tid, m, s.threads[tid].i)
  {
    var s1 := Apply(s, Run(tid, m));
    LeadsNow(s1, tid, m);
    s' := s1;
    if At?(s1, tid, Alloc) { s' := AllocAlone(s1, tid, m); }
    hide Apply, Leads;
    StepThen(s, tid, m, s');
  }

  lemma GrabAlone(s: State, tid: nat, m: nat) returns (s': State)
    requires Shape(s) && At?(s, tid, Grab) && MallocOk(s, m) && !s.pool[s.threads[tid].i].used
    ensures Leads(s, tid, m, s') && Shape(s') && Claimed(s, s', tid, m, s.threads[tid].i)
  {
    var s1 := Apply(s, Run(tid, m));
    s' := ReadAlone(s1, tid, m);
    hide Apply, Leads;
    StepThen(s, tid, m, s');
  }

  /** The first unused entry at or behind i. */
  function FirstUnused(pool: seq<Entry>, i: nat): (j: nat)
    ensures i <= |pool| ==> i <= j <= |pool|
    ensures i <= j < |pool| ==> !pool[j].used
    ensures forall k | i <= k < j && k < |pool| :: pool[k].used
    decreases |pool| - i
  {
    if i >= |pool| || !pool[i].used then i else FirstUnused(pool, i + 1)
  }

  ghost predicate Taken(s: State, s': State, tid: nat, m: nat, i: nat)
    requires Shape(s) && i <= POOL_MAX
  {
    var j := FirstUnused(s.pool, i);
    if j < POOL_MAX then Claimed(s, s', tid, m, j) else FellBack(s, s', tid, m)
  }

  lemma {:induction false} LookAlone(s: State, tid: nat, m: nat) returns (s': State)
    requires Shape(s) && At?(s, tid, Look) && MallocOk(s, m)
    ensures Leads(s, tid, m, s') && Shape(s') && Taken(s, s', tid, m, s.threads[tid].i)
    decreases POOL_MAX - s.threads[tid].i
  {
    var s1 := Apply(s, Run(tid, m));
    if At?(s1, tid, Grab) { s' := GrabAlone(s1, tid, m); }
    else if At?(s1, tid, Fallback) { s' := FallbackAlone(s1, tid, m); }
    else { s' := LookAlone(s1, tid, m); }
    hide Apply, Leads;
    StepThen(s, tid, m, s');
  }

  // ---------------------------------------------------------------- free_stack

  /** The entry that has the address, from i on. */
  function FirstWith(pool: seq<Entry>, addr: nat, i: nat): (j: nat)
    ensures i <= |pool| ==> i <= j <= |pool|
    ensures i <= j < |pool| ==> pool[j].addr == addr
    ensures forall k | i <= k < j && k < |pool| :: pool[k].addr != addr
    decreases |pool| - i
  {
    if i >= |pool| || pool[i].addr == addr then i else FirstWith(pool, addr, i + 1)
  }

  /** The entry is unused again, or the block is freed. */
  ghost predicate GivenBack(s: State, s': State, tid: nat, addr: nat, j: nat)
    requires Shape(s)
  {
    && At?(s', tid, Done)
    && if j < POOL_MAX then s'.pool == s.pool[j := s.pool[j].(used := false)] && s'.live == s.live
       else s'.pool == s.pool && s'.live == s.live - {addr}
  }

  lemma EndAlone(s: State, tid: nat, m: nat) returns (s': State)
    requires Shape(s) && (At?(s, tid, Release) || At?(s, tid, Free))
    ensures Leads(s, tid, m, s') && Shape(s')
    ensures var th := s.threads[tid]; GivenBack(s, s', tid, th.addr, if th.pc == Release then th.i else POOL_MAX)
  {
    LeadsStep(s, tid, m);
    s' := Apply(s, Run(tid, m));
    var th := s.threads[tid];
    assert th.pc == Release && !s.pool[th.i].used ==> s.pool[th.i := s.pool[th.i].(used := false)] == s.pool;
  }

  lemma {:induction false} ScanAlone(s: State, tid: nat, m: nat) returns (s': State)
    requires Shape(s) && At?(s, tid, Scan)
    ensures Leads(s, tid, m, s') && Shape(s')
    ensures var th := s.threads[tid]; GivenBack(s, s', tid, th.addr, FirstWith(s.pool, th.addr, th.i))
    decreases POOL_MAX - s.threads[tid].i
  {
    var s1 := Apply(s, Run(tid, m));
    if At?(s1, tid, Scan) { s' := ScanAlone(s1, tid, m); } else { s' := EndAlone(s1, tid, m); }
    hide Apply, Leads;
    StepThen(s, tid, m, s');
  }

  // ---------------------------------------------------------------- after any run

  lemma StoreAlone(s: State, tid: nat, m: nat) returns (s': State)
    requires Shape(s) && (At?(s, tid, Store) || At?(s, tid, PutBack)) && m == NULL
    ensures Leads(s, tid, m, s') && Got(s', tid)
  {
    var s1 := Apply(s, Run(tid, m));
    LeadsNow(s1, tid, m);
    s' := s1;
    if At?(s1, tid, PutBack) {
      var s2 := Apply(s1, Run(tid, m));
      s' := FallbackAlone(s2, tid, m);
      StepThen(s1, tid, m, s');
    } else if At?(s1, tid, Fallback) {
      s' := FallbackAlone(s1, tid, m);
    }
    hide Apply, Leads;
    StepThen(s, tid, m, s');
  }

  /** A get that has found an entry, which another thread may have taken since. */
  lemma GrabEnds(s: State, tid: nat, m: nat) returns (s': State)
    requires Shape(s) && At?(s, tid, Grab) && MallocOk(s, m)
    ensures Leads(s, tid, m, s') && Got(s', tid)
  {
    if s.pool[s.threads[tid].i].used {
      s' := LookAlone(Apply(s, Run(tid, m)), tid, m);
      StepThen(s, tid, m, s');
    } else {
      s' := GrabAlone(s, tid, m);
    }
  }

  /** After any run, and even if malloc fails, a get_stack or free_stack that is let run alone returns. */
  lemma ReturnsAlone(sched: Schedule, tid: nat) returns (s': State)
    requires tid in At(sched, |sched|).threads
    ensures Leads(At(sched, |sched|), tid, NULL, s') && Got(s', tid)
  {
    hide Leads, Apply, Distinct, Accounted, FirstUnused, FirstWith;
    InvAlways(sched, |sched|);
    var s := At(sched, |sched|);
    hide At;
    var pc := s.threads[tid].pc;
    LeadsNow(s, tid, NULL);
    assert ThreadOk(s, s.threads[tid]);
    assert Acquiring(s.threads[tid]) ==> Owns(s, tid, s.threads[tid].i);
    if pc == Look { s' := LookAlone(s, tid, NULL); }
    else if pc == Grab { s' := GrabEnds(s, tid, NULL); }
    else if pc == ReadAddr { s' := ReadAlone(s, tid, NULL); }
    else if pc == Alloc { s' := AllocAlone(s, tid, NULL); }
    else if pc == Store || pc == PutBack { s' := StoreAlone(s, tid, NULL); }
    else if pc == Fallback { s' := FallbackAlone(s, tid, NULL); }
    else if pc == Scan { s' := ScanAlone(s, tid, NULL); }
    else if pc == Release || pc == Free { s' := EndAlone(s, tid, NULL); }
    else { s' := s; }
  }

  /**
   * After any run, a get_stack that is called and let run alone takes the first entry that is unused, with its stack or
   * with a new one; if there is none, it has a stack from outside the pool.
   */
  lemma GetAlone(sched: Schedule, tid: nat, m: nat) returns (s': State)
    requires var s := At(sched, |sched|); (tid in s.threads ==> s.threads[tid].pc == Done) && MallocOk(s, m)
    ensures var s := At(sched, |sched|);
      Leads(Apply(s, Get(tid)), tid, m, s') && Shape(s') && Taken(s, s', tid, m, 0)
  {
    hide Leads, At, FirstUnused;
    s' := LookAlone(Apply(At(sched, |sched|), Get(tid)), tid, m);
  }

  /** After any run, a free_stack that is called and let run alone gives the stack back to where it came from. */
  lemma GiveAlone(sched: Schedule, tid: nat, m: nat) returns (s': State)
    requires At?(At(sched, |sched|), tid, Holding)
    ensures var s := At(sched, |sched|);
      && Leads(Apply(s, Give(tid)), tid, m, s') && Shape(s')
      && GivenBack(s, s', tid, s.threads[tid].addr, s.threads[tid].home)
  {
    hide Leads, FirstWith;
    InvAlways(sched, |sched|);
    var s := At(sched, |sched|);
    hide At;
    var th := s.threads[tid];
    assert ThreadOk(s, th);
    s' := ScanAlone(Apply(s, Give(tid)), tid, m);
    var j := FirstWith(s.pool, th.addr, 0);
    assert th.home < POOL_MAX ==> j == th.home;
    assert th.home >= POOL_MAX ==> j == POOL_MAX;
  }
}
