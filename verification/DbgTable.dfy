/**
 * The debug line table of src/dbg.c, as a step machine: dbgAddLineHelper, updateLine and
 * atomicSwapString under any interleaving of any number of threads. Each shared load and each
 * compare-and-swap is a step. The time and errno written beside each string are not modelled.
 */
module DbgTable {

  const MAX_NUM_LINES: nat := 256
  const MAX_INSTANCES: nat := 2
  const NULL: nat := 0

  /** Keys and strings are addresses; a line has MAX_INSTANCES strings. */
  datatype Line = Line(key: nat, count: nat, str0: nat, str1: nat) {
    function Str(j: nat): nat {
      if j == 0 then str0 else str1
    }

    function SetStr(j: nat, str: nat): Line {
      if j == 0 then this.(str0 := str) else this.(str1 := str)
    }
  }

  datatype PC =
    | Scan       // key == lines[i].key ?
    | Claim      // CAS of line->key
    | LoadCount  // orig_count = line->count
    | Bump       // CAS of line->count
    | LoadStr    // prev_str = *ptr
    | Swap       // CAS of *ptr
    | FreePrev   // free what the slot held before
    | FreeOwn    // the table is full: free our own string
    | Done

  /** The thread works on a line of the table. */
  predicate HasLine(pc: PC) {
    pc == LoadCount || pc == Bump || pc == LoadStr || pc == Swap
  }

  /** The thread is looking for one. */
  predicate Searches(pc: PC) {
    pc == Scan || pc == Claim || pc == FreeOwn
  }

  datatype Thread = Thread(pc: PC, key: nat, str: nat, i: nat, orig: nat, prev: nat)

  /** The table, the calls in progress, and every string handed in and freed so far. */
  datatype State = State(lines: seq<Line>, threads: map<nat, Thread>, handed: multiset<nat>, freed: multiset<nat>)

  datatype Label = Call(tid: nat, key: nat, str: nat) | Run(tid: nat)

  type Schedule = seq<Label>

  /** Which instance slot a thread writes: its own for the first, the last one for all others. */
  function Slot(orig: nat): (j: nat)
    ensures j < MAX_INSTANCES
  {
    if orig < MAX_INSTANCES then orig else MAX_INSTANCES - 1
  }

  predicate Shape(s: State) {
    && |s.lines| == MAX_NUM_LINES
    && (forall t | t in s.threads :: s.threads[t].i <= MAX_NUM_LINES
          && (s.threads[t].pc == Claim || HasLine(s.threads[t].pc) ==> s.threads[t].i < MAX_NUM_LINES))
  }

  // ---------------------------------------------------------------- steps

  predicate Busy(s: State, tid: nat) {
    tid in s.threads && s.threads[tid].pc != Done
  }

  function Move(s: State, tid: nat, th: Thread): State {
    s.(threads := s.threads[tid := th])
  }

  /**
   * One turn of the search. The code loads the line's key twice, for the test for NULL and for the comparison; since a
   * key never changes once it is set (KeysStay), the second load gives what the first did.
   */
  function StepScan(s: State, tid: nat): State
    requires Shape(s) && Busy(s, tid)
  {
    var th := s.threads[tid];
    if th.i >= MAX_NUM_LINES then Move(s, tid, th.(pc := FreeOwn))
    else if s.lines[th.i].key == NULL then Move(s, tid, th.(pc := Claim))
    else if s.lines[th.i].key == th.key then Move(s, tid, th.(pc := LoadCount))
    else Move(s, tid, th.(i := th.i + 1))
  }

  function Free(s: State, str: nat): State {
    if str == NULL then s else s.(freed := s.freed + multiset{str})
  }

  function Step(s: State, tid: nat): (s': State)
    requires Shape(s) && Busy(s, tid)
    ensures Shape(s')
  {
    var th := s.threads[tid];
    match th.pc
    case Scan => StepScan(s, tid)
    case Claim =>
      if s.lines[th.i].key == NULL
      then Move(s, tid, th.(pc := LoadCount)).(lines := s.lines[th.i := s.lines[th.i].(key := th.key)])
      else Move(s, tid, th.(pc := Scan, i := 0))
    case LoadCount => Move(s, tid, th.(pc := Bump, orig := s.lines[th.i].count))
    case Bump =>
      if s.lines[th.i].count == th.orig
      then Move(s, tid, th.(pc := LoadStr)).(lines := s.lines[th.i := s.lines[th.i].(count := th.orig + 1)])
      else Move(s, tid, th.(pc := LoadCount))
    case LoadStr => Move(s, tid, th.(pc := Swap, prev := s.lines[th.i].Str(Slot(th.orig))))
    case Swap =>
      var l := s.lines[th.i];
      if l.Str(Slot(th.orig)) == th.prev
      then Move(s, tid, th.(pc := FreePrev)).(lines := s.lines[th.i := l.SetStr(Slot(th.orig), th.str)])
      else Move(s, tid, th.(pc := LoadStr))
    case FreePrev => Free(Move(s, tid, th.(pc := Done)), th.prev)
    case FreeOwn => Free(Move(s, tid, th.(pc := Done)), th.str)
    case Done => s
  }

  // ---------------------------------------------------------------- who holds a string

  datatype Owner = InFlight(tid: nat) | InSlot(line: nat, slot: nat)

  /** The string a thread has to place or to free. */
  function Hand(th: Thread): nat {
    match th.pc
    case FreePrev => th.prev
    case Done => NULL
    case _ => th.str
  }

  function Held(s: State, o: Owner): nat {
    match o
    case InFlight(tid) => if tid in s.threads then Hand(s.threads[tid]) else NULL
    case InSlot(k, j) => if k < |s.lines| && j < MAX_INSTANCES then s.lines[k].Str(j) else NULL
  }

  ghost predicate Live(s: State, str: nat) {
    exists o :: Held(s, o) == str
  }

  /** A call is made with a key, and with no string or one that the allocator has just given out. */
  ghost predicate MayCall(s: State, l: Label) {
    l.Call? && !Busy(s, l.tid) && l.key != NULL && (l.str == NULL || !Live(s, l.str))
  }

  function Admit(s: State, tid: nat, key: nat, str: nat): State {
    Move(s, tid, Thread(Scan, key, str, 0, 0, NULL))
      .(handed := if str == NULL then s.handed else s.handed + multiset{str})
  }

  ghost function Apply(s: State, l: Label): (s': State)
    requires Shape(s)
    ensures Shape(s')
  {
    if l.Run? then (if Busy(s, l.tid) then Step(s, l.tid) else s)
    else if MayCall(s, l) then Admit(s, l.tid, l.key, l.str)
    else s
  }

  /** dbgInit: a zeroed table. */
  function EmptyTable(): (lines: seq<Line>)
    ensures |lines| == MAX_NUM_LINES
    ensures forall k | 0 <= k < |lines| :: lines[k] == Line(NULL, 0, NULL, NULL)
  {
    seq(MAX_NUM_LINES, i => Line(NULL, 0, NULL, NULL))
  }

  function Initial(): (s: State)
    ensures Shape(s)
  {
    State(EmptyTable(), map[], multiset{}, multiset{})
  }

  ghost function At(sched: Schedule, k: nat): (s: State)
    requires k <= |sched|
    ensures Shape(s)
  {
    if k == 0 then Initial() else Apply(At(sched, k - 1), sched[k - 1])
  }

  // ---------------------------------------------------------------- keys

  /** Keys fill the table from the front, and none appears twice. */
  ghost predicate KeysOk(s: State)
    requires Shape(s)
  {
    && (forall k, l | 0 <= k < l < MAX_NUM_LINES && s.lines[l].key != NULL :: s.lines[k].key != NULL)
    && (forall k, l | 0 <= k < l < MAX_NUM_LINES && s.lines[l].key != NULL :: s.lines[k].key != s.lines[l].key)
  }

  /** A thread in search of a line has met only other keys; a thread with a line has its own. */
  ghost predicate ThreadKeysOk(s: State, th: Thread)
    requires Shape(s) && th.i <= MAX_NUM_LINES && (HasLine(th.pc) ==> th.i < MAX_NUM_LINES)
  {
    && (th.pc != Done ==> th.key != NULL)
    && (Searches(th.pc) ==>
          forall k | 0 <= k < th.i :: s.lines[k].key != NULL && s.lines[k].key != th.key)
    && (th.pc == FreeOwn ==> th.i == MAX_NUM_LINES)
    && (HasLine(th.pc) ==> s.lines[th.i].key == th.key)
  }

  ghost predicate KeyInv(s: State)
    requires Shape(s)
  {
    KeysOk(s) && forall t | t in s.threads :: ThreadKeysOk(s, s.threads[t])
  }

  /** Lines once taken keep their keys. */
  ghost predicate KeysLast(s: State, s': State)
    requires Shape(s) && Shape(s')
  {
    forall k | 0 <= k < MAX_NUM_LINES && s.lines[k].key != NULL :: s'.lines[k].key == s.lines[k].key
  }

  lemma ThreadKeysStable(s: State, s': State, th: Thread)
    requires Shape(s) && Shape(s') && KeysLast(s, s') && th.i <= MAX_NUM_LINES
    requires HasLine(th.pc) ==> th.i < MAX_NUM_LINES
    requires ThreadKeysOk(s, th)
    ensures ThreadKeysOk(s', th)
  {
  }

  lemma SameKeys(s: State, s': State)
    requires Shape(s) && Shape(s') && KeysOk(s)
    requires forall k | 0 <= k < MAX_NUM_LINES :: s'.lines[k].key == s.lines[k].key
    ensures KeysOk(s') && KeysLast(s, s')
  {
  }

  lemma ClaimKeepsKeys(s: State, tid: nat)
    requires Shape(s) && KeysOk(s) && Busy(s, tid) && s.threads[tid].pc == Claim && ThreadKeysOk(s, s.threads[tid])
    ensures var s' := Step(s, tid); KeysOk(s') && KeysLast(s, s') && ThreadKeysOk(s', s'.threads[tid])
  {
    var th, s' := s.threads[tid], Step(s, tid);
    if s.lines[th.i].key == NULL {
      assert forall k | 0 <= k < MAX_NUM_LINES :: s'.lines[k].key == if k == th.i then th.key else s.lines[k].key;
      assert forall k | th.i < k < MAX_NUM_LINES :: s.lines[k].key == NULL;
    } else {
      SameKeys(s, s');
    }
  }

  lemma OtherStepsKeepKeys(s: State, tid: nat)
    requires Shape(s) && KeysOk(s) && Busy(s, tid) && s.threads[tid].pc != Claim && ThreadKeysOk(s, s.threads[tid])
    ensures var s' := Step(s, tid); KeysOk(s') && KeysLast(s, s') && ThreadKeysOk(s', s'.threads[tid])
  {
    SameKeys(s, Step(s, tid));
  }

  lemma KeyInvKept(s: State, l: Label)
    requires Shape(s) && KeyInv(s)
    ensures KeyInv(Apply(s, l)) && KeysLast(s, Apply(s, l))
  {
    var s' := Apply(s, l);
    if l.Run? && Busy(s, l.tid) {
      if s.threads[l.tid].pc == Claim { ClaimKeepsKeys(s, l.tid); } else { OtherStepsKeepKeys(s, l.tid); }
    } else {
      SameKeys(s, s');
    }
    forall t | t in s'.threads && t != l.tid ensures ThreadKeysOk(s', s'.threads[t]) {
      ThreadKeysStable(s, s', s.threads[t]);
    }
  }

  /**
   * In every interleaving the keys form a prefix of the table, no key takes two lines, and a line once
   * taken keeps its key.
   */
  lemma {:induction false} KeysAlways(sched: Schedule, k: nat)
    requires k <= |sched|
    ensures KeyInv(At(sched, k)) && (k > 0 ==> KeysLast(At(sched, k - 1), At(sched, k)))
  {
    hide Apply;
    if k > 0 {
      KeysAlways(sched, k - 1);
      KeyInvKept(At(sched, k - 1), sched[k - 1]);
    }
  }

  /** A line's key, once set, is the same in every later state. */
  lemma {:induction false} KeysStay(sched: Schedule, j: nat, k: nat, line: nat)
    requires j <= k <= |sched| && line < MAX_NUM_LINES && At(sched, j).lines[line].key != NULL
    ensures At(sched, k).lines[line].key == At(sched, j).lines[line].key
    decreases k
  {
    hide Apply, KeyInv;
    if j < k {
      KeysStay(sched, j, k - 1, line);
      KeysAlways(sched, k);
    }
  }

  // ---------------------------------------------------------------- counts

  /** What can happen to a call for a key, as far as counting goes. */
  datatype Stage =
    | Accepted  // the call is made
    | Counted   // its swap of the line's count succeeds
    | Refused   // it has found the table full

  ghost predicate Reaches(s: State, l: Label, key: nat, stage: Stage)
    requires Shape(s)
  {
    if stage == Accepted then MayCall(s, l) && l.key == key
    else
      && l.Run? && Busy(s, l.tid) && s.threads[l.tid].key == key
      && var th := s.threads[l.tid];
         if stage == Counted then th.pc == Bump && s.lines[th.i].count == th.orig
         else th.pc == Scan && th.i >= MAX_NUM_LINES
  }

  /** How many of the calls for a key have come to a stage in the first k steps. */
  ghost function Number(sched: Schedule, k: nat, key: nat, stage: Stage): nat
    requires k <= |sched|
  {
    if k == 0 then 0
    else Number(sched, k - 1, key, stage) + if Reaches(At(sched, k - 1), sched[k - 1], key, stage) then 1 else 0
  }

  /** The calls for a key that are neither counted nor refused yet. */
  ghost function Pending(s: State, key: nat): set<nat> {
    set t | t in s.threads && s.threads[t].key == key && s.threads[t].pc in {Scan, Claim, LoadCount, Bump}
  }

  ghost predicate Absent(s: State, key: nat)
    requires Shape(s)
  {
    forall line | 0 <= line < MAX_NUM_LINES :: s.lines[line].key != key
  }

  function One(b: bool): nat {
    if b then 1 else 0
  }

  /** Only its own steps make a call pending, or end it being so: it is made; it is counted or refused. */
  ghost predicate Pends(s: State, l: Label, key: nat, t: nat)
    requires Shape(s)
  {
    if t != l.tid then t in Pending(s, key)
    else if t in Pending(s, key) then !Reaches(s, l, key, Counted) && !Reaches(s, l, key, Refused)
    else Reaches(s, l, key, Accepted)
  }

  lemma OtherThreads(s: State, l: Label, t: nat)
    requires Shape(s) && t != l.tid
    ensures var s' := Apply(s, l);
              (t in s'.threads <==> t in s.threads) && (t in s.threads ==> s'.threads[t] == s.threads[t])
  {
    hide Live, Slot;
  }

  lemma OwnPending(s: State, l: Label, key: nat)
    requires Shape(s)
    ensures l.tid in Pending(Apply(s, l), key) <==> Pends(s, l, key, l.tid)
  {
    hide Live, Slot;
  }

  lemma PendingAfter(s: State, l: Label, key: nat, t: nat)
    requires Shape(s)
    ensures t in Pending(Apply(s, l), key) <==> Pends(s, l, key, t)
  {
    hide Apply, Reaches;
    if t != l.tid { OtherThreads(s, l, t); } else { OwnPending(s, l, key); }
  }

  lemma PendingBefore(s: State, l: Label, key: nat)
    requires Shape(s)
    ensures Reaches(s, l, key, Accepted) ==> l.tid !in Pending(s, key)
    ensures Reaches(s, l, key, Counted) || Reaches(s, l, key, Refused) ==> l.tid in Pending(s, key)
    ensures One(Reaches(s, l, key, Accepted)) + One(Reaches(s, l, key, Counted)) + One(Reaches(s, l, key, Refused)) <= 1
  {
  }

  lemma PendingStep(s: State, l: Label, key: nat)
    requires Shape(s)
    ensures |Pending(Apply(s, l), key)| + One(Reaches(s, l, key, Counted)) + One(Reaches(s, l, key, Refused))
         == |Pending(s, key)| + One(Reaches(s, l, key, Accepted))
  {
    hide Apply, Reaches, Pending;
    PendingBefore(s, l, key);
    var p, p' := Pending(s, key), Pending(Apply(s, l), key);
    forall t: nat ensures t in p' <==> Pends(s, l, key, t) {
      PendingAfter(s, l, key, t);
    }
    if Reaches(s, l, key, Accepted) {
      assert p' == p + {l.tid};
    } else if Reaches(s, l, key, Counted) || Reaches(s, l, key, Refused) {
      assert p' == p - {l.tid};
    } else {
      assert p' == p;
    }
  }

  /** No call is lost: each is pending, counted or refused. */
  lemma {:induction false} CallsAddUp(sched: Schedule, k: nat, key: nat)
    requires k <= |sched|
    ensures Number(sched, k, key, Accepted)
         == |Pending(At(sched, k), key)| + Number(sched, k, key, Counted) + Number(sched, k, key, Refused)
  {
    hide Apply, Reaches, Pending;
    if k == 0 { NonePending(key); }
    else {
      CallsAddUp(sched, k - 1, key);
      PendingStep(At(sched, k - 1), sched[k - 1], key);
    }
  }

  lemma NonePending(key: nat)
    ensures Pending(Initial(), key) == {}
  {
  }

  /** Lines without a key are not counted on. */
  ghost predicate UntakenZero(s: State)
    requires Shape(s)
  {
    forall line | 0 <= line < MAX_NUM_LINES && s.lines[line].key == NULL :: s.lines[line].count == 0
  }

  /** A count changes when a call for its key is counted, and then by one. */
  lemma CountStep(s: State, l: Label, line: nat)
    requires Shape(s) && KeyInv(s) && line < MAX_NUM_LINES
    ensures Apply(s, l).lines[line].count
         == s.lines[line].count + One(s.lines[line].key != NULL && Reaches(s, l, s.lines[line].key, Counted))
  {
    if l.Run? && Busy(s, l.tid) { assert ThreadKeysOk(s, s.threads[l.tid]); }
  }

  /** Where no line has the key, no call for it is counted; where one has, none is refused. */
  lemma WhereKeyIs(s: State, l: Label, key: nat)
    requires Shape(s) && KeyInv(s) && key != NULL
    ensures Reaches(s, l, key, Counted) ==> !Absent(s, key)
    ensures Reaches(s, l, key, Refused) ==>
              Absent(s, key) && forall line | 0 <= line < MAX_NUM_LINES :: s.lines[line].key != NULL
  {
    if l.Run? && Busy(s, l.tid) { assert ThreadKeysOk(s, s.threads[l.tid]); }
  }

  /** What the counts are worth for one key. */
  ghost predicate CountsFor(s: State, key: nat, counted: nat, refused: nat)
    requires Shape(s)
  {
    && UntakenZero(s)
    && (forall line | 0 <= line < MAX_NUM_LINES && s.lines[line].key == key :: s.lines[line].count == counted)
    && (if Absent(s, key) then counted == 0 else refused == 0)
    && (refused > 0 ==> forall line | 0 <= line < MAX_NUM_LINES :: s.lines[line].key != NULL)
  }

  lemma CountsForKept(s: State, l: Label, key: nat, counted: nat, refused: nat)
    requires Shape(s) && KeyInv(s) && key != NULL && CountsFor(s, key, counted, refused)
    ensures CountsFor(Apply(s, l), key,
                      counted + One(Reaches(s, l, key, Counted)), refused + One(Reaches(s, l, key, Refused)))
  {
    hide Apply, Reaches;
    var s' := Apply(s, l);
    KeyInvKept(s, l);
    WhereKeyIs(s, l, key);
    forall line: nat | line < MAX_NUM_LINES
      ensures s'.lines[line].count
           == s.lines[line].count + One(s.lines[line].key != NULL && Reaches(s, l, s.lines[line].key, Counted))
    {
      CountStep(s, l, line);
    }
  }

  /**
   * In every interleaving the count of a line is the number of calls for its key whose count swap has succeeded, and
   * calls are refused only for keys that have no line, when all lines are taken: no increment is lost.
   */
  lemma {:induction false} CountIsExact(sched: Schedule, k: nat, key: nat)
    requires k <= |sched| && key != NULL
    ensures CountsFor(At(sched, k), key, Number(sched, k, key, Counted), Number(sched, k, key, Refused))
  {
    hide Apply, Reaches, CountsFor, KeyInv;
    if k == 0 { NothingCounted(key); }
    else {
      CountIsExact(sched, k - 1, key);
      KeysAlways(sched, k - 1);
      CountsForKept(At(sched, k - 1), sched[k - 1], key,
                    Number(sched, k - 1, key, Counted), Number(sched, k - 1, key, Refused));
    }
  }

  lemma NothingCounted(key: nat)
    requires key != NULL
    ensures CountsFor(Initial(), key, 0, 0)
  {
  }

  /**
   * The calls made for a key are those its line has counted and those still under way; without a line, those refused.
   */
  lemma CallsForKey(sched: Schedule, k: nat, key: nat)
    requires k <= |sched| && key != NULL
    ensures var s, calls := At(sched, k), Number(sched, k, key, Accepted);
            && (forall line | 0 <= line < MAX_NUM_LINES && s.lines[line].key == key ::
                  calls == s.lines[line].count + |Pending(s, key)|)
            && (Absent(s, key) ==> calls == Number(sched, k, key, Refused) + |Pending(s, key)|)
  {
    hide At, Number, Pending;
    CallsAddUp(sched, k, key);
    CountIsExact(sched, k, key);
  }

  // ---------------------------------------------------------------- strings

  ghost predicate Balanced(s: State, str: nat) {
    s.handed[str] == s.freed[str] + if Live(s, str) then 1 else 0
  }

  /** A string has at most one holder, and what was handed in and is not held has been freed, once. */
  ghost predicate StringInv(s: State) {
    && (forall o, p | Held(s, o) == Held(s, p) != NULL :: o == p)
    && (forall str | str != NULL :: Balanced(s, str))
  }

  /** Two owners trade what they hold. */
  lemma ExchangeKeeps(s: State, s': State, o: Owner, p: Owner)
    requires StringInv(s) && o != p && s'.handed == s.handed && s'.freed == s.freed
    requires Held(s', o) == Held(s, p) && Held(s', p) == Held(s, o)
    requires forall q | q != o && q != p :: Held(s', q) == Held(s, q)
    ensures StringInv(s')
  {
    forall str | str != NULL ensures Balanced(s', str) {
      assert Balanced(s, str);
      if q :| Held(s, q) == str { assert Held(s', if q == o then p else if q == p then o else q) == str; }
      if q :| Held(s', q) == str { assert Held(s, if q == o then p else if q == p then o else q) == str; }
    }
  }

  lemma NothingMoves(s: State, s': State)
    requires StringInv(s) && s'.handed == s.handed && s'.freed == s.freed
    requires forall q :: Held(s', q) == Held(s, q)
    ensures StringInv(s')
  {
    forall str | str != NULL ensures Balanced(s', str) {
      assert Balanced(s, str);
      if q :| Held(s, q) == str { assert Held(s', q) == str; }
    }
  }

  /** An owner frees what it holds. */
  lemma FreeKeeps(s: State, s': State, o: Owner)
    requires StringInv(s) && Held(s', o) == NULL && s'.handed == s.handed
    requires forall q | q != o :: Held(s', q) == Held(s, q)
    requires s'.freed == if Held(s, o) == NULL then s.freed else s.freed + multiset{Held(s, o)}
    ensures StringInv(s')
  {
    forall str | str != NULL ensures Balanced(s', str) {
      assert Balanced(s, str);
      if str == Held(s, o) {
        assert Live(s, str);
        assert forall q :: Held(s', q) != str;
      } else {
        if q :| Held(s, q) == str { assert Held(s', q) == str; }
        if q :| Held(s', q) == str { assert Held(s, q) == str; }
      }
    }
  }

  /** An owner that held nothing gets a string nobody holds. */
  lemma AdmitKeeps(s: State, s': State, o: Owner, str: nat)
    requires StringInv(s) && Held(s, o) == NULL && Held(s', o) == str && s'.freed == s.freed
    requires str == NULL || !Live(s, str)
    requires forall q | q != o :: Held(s', q) == Held(s, q)
    requires s'.handed == if str == NULL then s.handed else s.handed + multiset{str}
    ensures StringInv(s')
  {
    forall x | x != NULL ensures Balanced(s', x) {
      assert Balanced(s, x);
      if x == str { assert Held(s', o) == x; }
      else {
        if q :| Held(s, q) == x { assert Held(s', q) == x; }
        if q :| Held(s', q) == x { assert Held(s, q) == x; }
      }
    }
  }

  lemma SwapKeepsStrings(s: State, tid: nat)
    requires Shape(s) && StringInv(s) && Busy(s, tid) && s.threads[tid].pc == Swap
    ensures StringInv(Step(s, tid))
  {
    var th, s' := s.threads[tid], Step(s, tid);
    var j := Slot(th.orig);
    if s.lines[th.i].Str(j) == th.prev {
      forall q | q != InFlight(tid) && q != InSlot(th.i, j) ensures Held(s', q) == Held(s, q) {}
      ExchangeKeeps(s, s', InFlight(tid), InSlot(th.i, j));
    } else {
      forall q ensures Held(s', q) == Held(s, q) {}
      NothingMoves(s, s');
    }
  }

  lemma FreeingKeepsStrings(s: State, tid: nat)
    requires Shape(s) && StringInv(s) && Busy(s, tid) && (s.threads[tid].pc == FreePrev || s.threads[tid].pc == FreeOwn)
    ensures StringInv(Step(s, tid))
  {
    var s' := Step(s, tid);
    forall q | q != InFlight(tid) ensures Held(s', q) == Held(s, q) {}
    FreeKeeps(s, s', InFlight(tid));
  }

  lemma OtherStepsKeepStrings(s: State, tid: nat)
    requires Shape(s) && StringInv(s) && Busy(s, tid)
    requires var pc := s.threads[tid].pc; pc != Swap && pc != FreePrev && pc != FreeOwn
    ensures StringInv(Step(s, tid))
  {
    var s' := Step(s, tid);
    assert forall k | 0 <= k < |s.lines| :: s'.lines[k].str0 == s.lines[k].str0 && s'.lines[k].str1 == s.lines[k].str1;
    forall q ensures Held(s', q) == Held(s, q) {}
    NothingMoves(s, s');
  }

  lemma CallKeepsStrings(s: State, l: Label)
    requires Shape(s) && StringInv(s) && MayCall(s, l)
    ensures StringInv(Apply(s, l))
  {
    var s' := Apply(s, l);
    forall q | q != InFlight(l.tid) ensures Held(s', q) == Held(s, q) {}
    AdmitKeeps(s, s', InFlight(l.tid), l.str);
  }

  lemma StringInvKept(s: State, l: Label)
    requires Shape(s) && StringInv(s)
    ensures StringInv(Apply(s, l))
  {
    if l.Call? {
      if MayCall(s, l) { CallKeepsStrings(s, l); }
    } else if Busy(s, l.tid) {
      match s.threads[l.tid].pc {
        case Swap => SwapKeepsStrings(s, l.tid);
        case FreePrev => FreeingKeepsStrings(s, l.tid);
        case FreeOwn => FreeingKeepsStrings(s, l.tid);
        case _ => OtherStepsKeepStrings(s, l.tid);
      }
    }
  }

  /**
   * In every interleaving each string that was handed in is in flight with one thread, or held in one
   * slot, or has been freed exactly once.
   */
  lemma {:induction false} StringsAlways(sched: Schedule, k: nat)
    requires k <= |sched|
    ensures StringInv(At(sched, k))
  {
    hide Apply;
    if k > 0 {
      StringsAlways(sched, k - 1);
      StringInvKept(At(sched, k - 1), sched[k - 1]);
    }
  }

  // ---------------------------------------------------------------- the first message stays

  /** A thread past the count CAS has a number below the count; the slot 0 it may aim at is still empty. */
  ghost predicate FirstOk(s: State, th: Thread)
    requires |s.lines| == MAX_NUM_LINES && (HasLine(th.pc) ==> th.i < MAX_NUM_LINES)
  {
    th.pc == LoadStr || th.pc == Swap ==>
      && th.orig < s.lines[th.i].count
      && (AimsAtFirst(th) ==> s.lines[th.i].str0 == NULL)
  }

  /** Threads take their numbers in some order; only the first of a line aims at its slot 0. */
  ghost predicate FirstInv(s: State)
    requires Shape(s)
  {
    && (forall t | t in s.threads :: FirstOk(s, s.threads[t]))
    && (forall t, u | t in s.threads && u in s.threads && t != u
          && AimsAtFirst(s.threads[t]) && AimsAtFirst(s.threads[u]) ::
          s.threads[t].i != s.threads[u].i)
    && (forall k | 0 <= k < MAX_NUM_LINES && s.lines[k].count == 0 :: s.lines[k].str0 == NULL)
  }

  ghost predicate AimsAtFirst(th: Thread) {
    (th.pc == LoadStr || th.pc == Swap) && Slot(th.orig) == 0
  }

  ghost predicate FirstsLast(s: State, s': State)
    requires Shape(s) && Shape(s')
  {
    forall k | 0 <= k < MAX_NUM_LINES && s.lines[k].str0 != NULL :: s'.lines[k].str0 == s.lines[k].str0
  }

  lemma BumpKeepsFirst(s: State, tid: nat)
    requires Shape(s) && FirstInv(s) && Busy(s, tid) && s.threads[tid].pc == Bump
    ensures FirstInv(Step(s, tid)) && FirstsLast(s, Step(s, tid))
  {
    var th, s' := s.threads[tid], Step(s, tid);
    assert forall k | 0 <= k < MAX_NUM_LINES ::
      && s'.lines[k].str0 == s.lines[k].str0 && s'.lines[k].str1 == s.lines[k].str1
      && s.lines[k].count <= s'.lines[k].count;
  }

  lemma SwapKeepsFirst(s: State, tid: nat)
    requires Shape(s) && FirstInv(s) && Busy(s, tid) && s.threads[tid].pc == Swap
    ensures FirstInv(Step(s, tid)) && FirstsLast(s, Step(s, tid))
  {
    var th, s' := s.threads[tid], Step(s, tid);
    assert forall k | 0 <= k < MAX_NUM_LINES :: s'.lines[k].count == s.lines[k].count;
    assert forall k | 0 <= k < MAX_NUM_LINES && (k != th.i || Slot(th.orig) != 0) ::
      s'.lines[k].str0 == s.lines[k].str0;
  }

  lemma OtherStepsKeepFirst(s: State, s': State, tid: nat)
    requires Shape(s) && FirstInv(s) && Shape(s')
    requires forall k | 0 <= k < MAX_NUM_LINES ::
               && s'.lines[k].str0 == s.lines[k].str0 && s'.lines[k].str1 == s.lines[k].str1
               && s'.lines[k].count == s.lines[k].count
    requires forall t | t in s'.threads && t != tid :: t in s.threads && s'.threads[t] == s.threads[t]
    requires tid in s'.threads ==>
               var th' := s'.threads[tid];
               th'.pc == LoadStr || th'.pc == Swap ==>
                 && tid in s.threads && (s.threads[tid].pc == LoadStr || s.threads[tid].pc == Swap)
                 && th'.i == s.threads[tid].i && th'.orig == s.threads[tid].orig
    ensures FirstInv(s') && FirstsLast(s, s')
  {
  }

  lemma FirstInvKept(s: State, l: Label)
    requires Shape(s) && FirstInv(s)
    ensures FirstInv(Apply(s, l)) && FirstsLast(s, Apply(s, l))
  {
    hide FirstInv, FirstsLast;
    if l.Run? && Busy(s, l.tid) && s.threads[l.tid].pc == Bump { BumpKeepsFirst(s, l.tid); }
    else if l.Run? && Busy(s, l.tid) && s.threads[l.tid].pc == Swap { SwapKeepsFirst(s, l.tid); }
    else { OtherStepsKeepFirst(s, Apply(s, l), l.tid); }
  }

  /** The first string recorded for a line is never replaced (and so never freed) while the table lives. */
  lemma {:induction false} FirstMessageStays(sched: Schedule, j: nat, k: nat, line: nat)
    requires j <= k <= |sched| && line < MAX_NUM_LINES && At(sched, j).lines[line].str0 != NULL
    ensures FirstInv(At(sched, k))
    ensures At(sched, k).lines[line].str0 == At(sched, j).lines[line].str0
    decreases k
  {
    hide Apply, FirstInv;
    if k == j { FirstInvAlways(sched, k); }
    else {
      FirstMessageStays(sched, j, k - 1, line);
      FirstInvKept(At(sched, k - 1), sched[k - 1]);
    }
  }

  lemma {:induction false} FirstInvAlways(sched: Schedule, k: nat)
    requires k <= |sched|
    ensures FirstInv(At(sched, k))
  {
    hide Apply;
    if k > 0 {
      FirstInvAlways(sched, k - 1);
      FirstInvKept(At(sched, k - 1), sched[k - 1]);
    }
  }
}
