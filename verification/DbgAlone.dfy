/**
 * A call of dbgAddLine (src/dbg.c) that is scheduled alone: it returns from wherever the other threads have
 * left it, and a call made and run alone does to the table what the function is for.
 */
module DbgAlone {
  import opened DbgTable

  /** n steps of one thread, or as many as its call has left. */
  function Alone(s: State, tid: nat, n: nat): (s': State)
    requires Shape(s)
    ensures Shape(s')
    decreases n
  {
    if n == 0 || !Busy(s, tid) then s else Alone(Step(s, tid), tid, n - 1)
  }

  lemma {:induction false} AloneJoin(s: State, tid: nat, m: nat, n: nat)
    requires Shape(s)
    ensures Alone(s, tid, m + n) == Alone(Alone(s, tid, m), tid, n)
    decreases m
  {
    hide Step;
    if m > 0 && Busy(s, tid) { AloneJoin(Step(s, tid), tid, m - 1, n); }
  }

  ghost predicate Leads(s: State, tid: nat, s': State)
    requires Shape(s)
  {
    exists n: nat :: Alone(s, tid, n) == s'
  }

  lemma LeadsNow(s: State, tid: nat)
    requires Shape(s)
    ensures Leads(s, tid, s)
  {
    assert Alone(s, tid, 0) == s;
  }

  lemma LeadsStep(s: State, tid: nat)
    requires Shape(s) && Busy(s, tid)
    ensures Leads(s, tid, Step(s, tid))
  {
    hide Step;
    assert Alone(s, tid, 1) == Alone(Step(s, tid), tid, 0);
  }

  lemma LeadsOn(s: State, tid: nat, s': State, s'': State)
    requires Shape(s) && Shape(s') && Leads(s, tid, s') && Leads(s', tid, s'')
    ensures Leads(s, tid, s'')
  {
    hide Alone;
    var m: nat :| Alone(s, tid, m) == s';
    var n: nat :| Alone(s', tid, n) == s'';
    AloneJoin(s, tid, m, n);
    assert Alone(s, tid, m + n) == s'';
  }

  /** One step, then what follows it. */
  lemma StepThen(s: State, tid: nat, s'': State)
    requires Shape(s) && Busy(s, tid) && Leads(Step(s, tid), tid, s'')
    ensures Leads(s, tid, s'')
  {
    hide Step, Leads;
    LeadsStep(s, tid);
    LeadsOn(s, tid, Step(s, tid), s'');
  }

  predicate At?(s: State, tid: nat, pc: PC) {
    tid in s.threads && s.threads[tid].pc == pc
  }

  /** The string, if there is one, is freed. */
  function FreedToo(freed: multiset<nat>, str: nat): multiset<nat> {
    if str == NULL then freed else freed + multiset{str}
  }

  // ---------------------------------------------------------------- the string

  lemma FreeAlone(s: State, tid: nat) returns (s': State)
    requires Shape(s) && (At?(s, tid, FreePrev) || At?(s, tid, FreeOwn))
    ensures Leads(s, tid, s') && At?(s', tid, Done) && Shape(s') && s'.lines == s.lines
    ensures var th := s.threads[tid]; s'.freed == FreedToo(s.freed, if th.pc == FreeOwn then th.str else th.prev)
  {
    LeadsStep(s, tid);
    s' := Step(s, tid);
  }

  /** The swap takes place, since nobody else has been at the slot. */
  lemma StringAlone(s: State, tid: nat) returns (s': State)
    requires Shape(s) && At?(s, tid, LoadStr)
    ensures Leads(s, tid, s') && At?(s', tid, Done) && Shape(s')
    ensures var th := s.threads[tid];
      && s'.lines == s.lines[th.i := s.lines[th.i].SetStr(Slot(th.orig), th.str)]
      && s'.freed == FreedToo(s.freed, s.lines[th.i].Str(Slot(th.orig)))
  {
    var s1 := Step(s, tid);
    var s2 := Step(s1, tid);
    s' := FreeAlone(s2, tid);
    hide Step, Leads;
    StepThen(s1, tid, s');
    StepThen(s, tid, s');
  }

  lemma SwapAlone(s: State, tid: nat) returns (s': State)
    requires Shape(s) && At?(s, tid, Swap)
    ensures Leads(s, tid, s') && At?(s', tid, Done)
  {
    var s1 := Step(s, tid);
    if At?(s1, tid, FreePrev) { s' := FreeAlone(s1, tid); } else { s' := StringAlone(s1, tid); }
    hide Step, Leads;
    StepThen(s, tid, s');
  }

  // ---------------------------------------------------------------- the count

  /** The line after one more call with this string. */
  function OneMore(l: Line, str: nat): Line {
    l.(count := l.count + 1).SetStr(Slot(l.count), str)
  }

  lemma UpdateAlone(s: State, tid: nat) returns (s': State)
    requires Shape(s) && At?(s, tid, LoadCount)
    ensures Leads(s, tid, s') && At?(s', tid, Done) && Shape(s')
    ensures var th := s.threads[tid]; var l := s.lines[th.i];
      && s'.lines == s.lines[th.i := OneMore(l, th.str)] && s'.freed == FreedToo(s.freed, l.Str(Slot(l.count)))
  {
    var s1 := Step(s, tid);
    var s2 := Step(s1, tid);
    s' := StringAlone(s2, tid);
    hide Step, Leads;
    StepThen(s1, tid, s');
    StepThen(s, tid, s');
  }

  lemma BumpAlone(s: State, tid: nat) returns (s': State)
    requires Shape(s) && At?(s, tid, Bump)
    ensures Leads(s, tid, s') && At?(s', tid, Done)
  {
    var s1 := Step(s, tid);
    if At?(s1, tid, LoadStr) { s' := StringAlone(s1, tid); } else { s' := UpdateAlone(s1, tid); }
    hide Step, Leads;
    StepThen(s, tid, s');
  }

  // ---------------------------------------------------------------- the search

  /** Where the search from line i ends: at the first line that is free or has the key, or behind the last. */
  function FirstSpot(lines: seq<Line>, key: nat, i: nat): (j: nat)
    ensures i <= |lines| ==> i <= j <= |lines|
    ensures i <= j < |lines| ==> lines[j].key == NULL || lines[j].key == key
    ensures forall k | i <= k < j && k < |lines| :: lines[k].key != NULL && lines[k].key != key
    decreases |lines| - i
  {
    if i >= |lines| || lines[i].key == NULL || lines[i].key == key then i else FirstSpot(lines, key, i + 1)
  }

  lemma {:induction false} ScanAlone(s: State, tid: nat) returns (s': State)
    requires Shape(s) && At?(s, tid, Scan) && s.threads[tid].key != NULL
    ensures Leads(s, tid, s') && Shape(s') && tid in s'.threads && s'.lines == s.lines && s'.freed == s.freed
    ensures var th, j := s.threads[tid], FirstSpot(s.lines, s.threads[tid].key, s.threads[tid].i);
      s'.threads[tid] == th.(i := j, pc := if j == MAX_NUM_LINES then FreeOwn
                                           else if s.lines[j].key == NULL then Claim else LoadCount)
    decreases MAX_NUM_LINES - s.threads[tid].i
  {
    var s1 := Step(s, tid);
    LeadsStep(s, tid);
    s' := s1;
    if At?(s1, tid, Scan) {
      s' := ScanAlone(s1, tid);
      hide Step, Leads;
      LeadsOn(s, tid, s1, s');
    }
  }

  /** What one call does to the table. */
  ghost predicate Updated(s: State, s': State, key: nat, str: nat, i: nat)
    requires Shape(s) && i <= MAX_NUM_LINES
  {
    var j := FirstSpot(s.lines, key, i);
    if j == MAX_NUM_LINES then s'.lines == s.lines && s'.freed == FreedToo(s.freed, str)
    else
      var l := s.lines[j];
      s'.lines == s.lines[j := OneMore(l.(key := key), str)] && s'.freed == FreedToo(s.freed, l.Str(Slot(l.count)))
  }

  lemma ClaimAlone(s: State, tid: nat) returns (s': State)
    requires Shape(s) && At?(s, tid, Claim) && s.lines[s.threads[tid].i].key == NULL
    ensures Leads(s, tid, s') && At?(s', tid, Done) && Shape(s')
    ensures var th := s.threads[tid]; var l := s.lines[th.i];
      && s'.lines == s.lines[th.i := OneMore(l.(key := th.key), th.str)]
      && s'.freed == FreedToo(s.freed, l.Str(Slot(l.count)))
  {
    var s1 := Step(s, tid);
    s' := UpdateAlone(s1, tid);
    hide Step, Leads;
    StepThen(s, tid, s');
  }

  lemma SearchAlone(s: State, tid: nat) returns (s': State)
    requires Shape(s) && At?(s, tid, Scan) && s.threads[tid].key != NULL && s.threads[tid].i <= MAX_NUM_LINES
    ensures Leads(s, tid, s') && At?(s', tid, Done)
    ensures Updated(s, s', s.threads[tid].key, s.threads[tid].str, s.threads[tid].i)
  {
    hide Step, Leads, FirstSpot, OneMore;
    var s1 := ScanAlone(s, tid);
    var l := if s1.threads[tid].i < MAX_NUM_LINES then s.lines[s1.threads[tid].i] else Line(NULL, 0, NULL, NULL);
    assert l.key != NULL ==> l.(key := l.key) == l;
    match s1.threads[tid].pc {
      case FreeOwn => s' := FreeAlone(s1, tid);
      case Claim => s' := ClaimAlone(s1, tid);
      case _ => s' := UpdateAlone(s1, tid);
    }
    LeadsOn(s, tid, s1, s');
  }

  // ---------------------------------------------------------------- from anywhere

  /** From any point of the code, and whatever the others have done, a call that runs alone returns. */
  lemma FinishesAlone(s: State, tid: nat) returns (s': State)
    requires Shape(s) && tid in s.threads && (Busy(s, tid) ==> s.threads[tid].key != NULL)
    ensures Leads(s, tid, s') && At?(s', tid, Done)
  {
    LeadsNow(s, tid);
    match s.threads[tid].pc {
      case Done => s' := s;
      case Scan => s' := SearchAlone(s, tid);
      case Claim =>
        if s.lines[s.threads[tid].i].key == NULL { s' := ClaimAlone(s, tid); }
        else {
          s' := SearchAlone(Step(s, tid), tid);
          StepThen(s, tid, s');
        }
      case LoadCount => s' := UpdateAlone(s, tid);
      case Bump => s' := BumpAlone(s, tid);
      case LoadStr => s' := StringAlone(s, tid);
      case Swap => s' := SwapAlone(s, tid);
      case _ => s' := FreeAlone(s, tid);
    }
  }

  /** After any run, a thread in the middle of a call returns if it is let run alone for long enough. */
  lemma ReturnsAlone(sched: Schedule, tid: nat) returns (s': State)
    requires tid in At(sched, |sched|).threads
    ensures Leads(At(sched, |sched|), tid, s') && At?(s', tid, Done)
  {
    hide Leads;
    KeysAlways(sched, |sched|);
    var s := At(sched, |sched|);
    assert ThreadKeysOk(s, s.threads[tid]);
    s' := FinishesAlone(s, tid);
  }

  /**
   * After any run, a call that is made and let run alone returns. Its string is then in the line for its key, which is
   * counted on once more; if there was no such line, the first free one is now it; if there was none either, the table
   * is as it was and the string is freed. Nothing else is freed but a string that gave way to it.
   */
  lemma CallAlone(sched: Schedule, tid: nat, key: nat, str: nat) returns (s': State)
    requires MayCall(At(sched, |sched|), Call(tid, key, str))
    ensures var s := At(sched, |sched|);
      && Leads(Apply(s, Call(tid, key, str)), tid, s') && At?(s', tid, Done) && Updated(s, s', key, str, 0)
  {
    hide Leads, FirstSpot, OneMore, At;
    s' := SearchAlone(Apply(At(sched, |sched|), Call(tid, key, str)), tid);
  }
}
