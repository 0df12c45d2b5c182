/**
 * The circular buffer of src/circbuf.c: first as the bounded queue it is when its operations do not
 * overlap, then step by step, with any number of producers and one consumer.
 */
module CircBuf {

  /** i % m, for m > 0. */
  function Mod(i: nat, m: nat): (r: nat)
    requires m > 0
    ensures r < m
  {
    if i < m then i else Mod(i - m, m)
  }

  /** The slot after slot i: (i + 1) % m. */
  function Next(i: nat, m: nat): (r: nat)
    requires i < m
    ensures r < m && r == Mod(i + 1, m)
  {
    if i + 1 < m then i + 1 else assert Mod(0, m) == 0; 0
  }

  lemma {:induction false} ModNext(i: nat, m: nat)
    requires m > 0
    ensures Mod(i + 1, m) == Next(Mod(i, m), m)
  {
    if i >= m { ModNext(i - m, m); }
  }

  /** Two counts less than m apart that fall on the same slot are the same count. */
  lemma {:induction false} ModEqual(a: nat, b: nat, m: nat)
    requires m > 0 && a <= b < a + m && Mod(a, m) == Mod(b, m)
    ensures a == b
  {
    if a >= m { ModEqual(a - m, b - m, m); }
  }

  // ---------------------------------------------------------------- one operation at a time

  /** The n slots behind `tail`, in order. */
  function Live(b: seq<nat>, tail: nat, n: nat): (s: seq<nat>)
    requires tail < |b|
  {
    seq(n, (k: nat) => b[Mod(tail + 1 + k, |b|)])
  }

  /** The number of slots from tail (excluded) to head. */
  function Span(head: nat, tail: nat, m: nat): (n: nat)
    requires head < m && tail < m
    ensures n < m
  {
    if head >= tail then head - tail else head + m - tail
  }

  lemma SpanEnds(head: nat, tail: nat, m: nat)
    requires head < m && tail < m
    ensures Mod(tail + Span(head, tail, m), m) == head
  {
  }

  /** From m steps on, the slots behind tail repeat; before that they are all different. */
  lemma SlotsDiffer(tail: nat, j: nat, k: nat, m: nat)
    requires tail < m && j < k < m
    ensures Mod(tail + 1 + j, m) != Mod(tail + 1 + k, m)
  {
    if Mod(tail + 1 + j, m) == Mod(tail + 1 + k, m) { ModEqual(tail + 1 + j, tail + 1 + k, m); }
  }

  class Ring {
    const buffer: array<nat>
    var head: nat
    var tail: nat
    var drops: nat               // g_cbuf_drop_count

    ghost predicate Indices()
      reads this
    {
      head < buffer.Length && tail < buffer.Length
    }

    /** The items, oldest first. */
    ghost function Contents(): (s: seq<nat>)
      requires Indices()
      reads this, buffer
    {
      Live(buffer[..], tail, Span(head, tail, buffer.Length))
    }

    /** Slots outside the live range are zero. */
    ghost predicate Valid()
      reads this, buffer
    {
      && Indices()
      && forall k | Span(head, tail, buffer.Length) <= k < buffer.Length ::
           Live(buffer[..], tail, buffer.Length)[k] == 0
    }

    /** cbufInit: one slot more than asked for, all zero. */
    constructor (size: nat)
      ensures Valid() && fresh(buffer) && Contents() == [] && Capacity() == size && drops == 0
    {
      buffer := new nat[size + 1](i => 0);
      head, tail, drops := 0, 0, 0;
      new;
      ghost var b := buffer[..];
      assert forall i | 0 <= i < |b| :: b[i] == 0;
      assert forall k: nat | k < |b| :: Live(b, tail, |b|)[k] == b[Mod(tail + 1 + k, |b|)];
    }

    /** cbufCapacity */
    function Capacity(): nat
      requires Indices()
      reads this
    {
      buffer.Length - 1
    }

    /** cbufEmpty */
    method Empty() returns (b: bool)
      requires Valid()
      ensures b <==> Contents() == []
    {
      b := tail == head;
    }

    /** cbufPut: fails exactly when the ring holds `size` items, and then only counts the drop. */
    method Put(data: nat) returns (rc: int)
      requires Valid()
      modifies this`head, this`drops, buffer
      ensures Valid() && rc == if |old(Contents())| < Capacity() then 0 else -1
      ensures Contents() == if rc == 0 then old(Contents()) + [data] else old(Contents())
      ensures drops == old(drops) + if rc == 0 then 0 else 1
    {
      var headNext := Next(head, buffer.Length);
      if headNext == tail {
        drops := drops + 1;
        return -1;
      }
      ghost var b, n, m := buffer[..], Span(head, tail, buffer.Length), buffer.Length;
      SpanEnds(head, tail, m);
      assert Mod(tail + 1 + n, m) == headNext by { ModNext(tail + n, m); }
      assert Live(b, tail, m)[n] == 0;
      head := headNext;
      if buffer[headNext] != 0 {
        assert false;
      }
      buffer[headNext] := data;
      assert Span(head, tail, m) == n + 1;
      forall k: nat | k < m && k != n
        ensures Live(buffer[..], tail, m)[k] == Live(b, tail, m)[k]
      {
        if k < n { SlotsDiffer(tail, k, n, m); } else { SlotsDiffer(tail, n, k, m); }
      }
      assert forall k: nat | k < n ::
        Live(buffer[..], tail, n + 1)[k] == Live(buffer[..], tail, m)[k] && Live(b, tail, n)[k] == Live(b, tail, m)[k];
      return 0;
    }

    /** cbufGet: takes the oldest item and zeroes its slot; fails exactly when the ring is empty. */
    method Get() returns (rc: int, data: nat)
      requires Valid()
      modifies this`tail, buffer
      ensures Valid() && rc == if old(Contents()) == [] then -1 else 0
      ensures rc == 0 ==> data == old(Contents())[0] && Contents() == old(Contents())[1..]
      ensures rc != 0 ==> Contents() == old(Contents())
    {
      var tailNext := Next(tail, buffer.Length);
      if tail == head { return -1, 0; }
      ghost var b, n, m, t := buffer[..], Span(head, tail, buffer.Length), buffer.Length, tail;
      tail := tailNext;
      data := buffer[tailNext];
      buffer[tailNext] := 0;
      assert Span(head, tail, m) == n - 1;
      forall k: nat | k < m
        ensures Live(buffer[..], tail, m)[k] == if k < m - 1 then Live(b, t, m)[k + 1] else 0
      {
        Advanced(t, k, m);
        if k < m - 1 { SlotsDiffer(t, 0, k + 1, m); }
      }
      assert Contents() == old(Contents())[1..] by {
        assert forall k: nat | k < n - 1 :: Contents()[k] == Live(buffer[..], tail, m)[k];
      }
      rc := 0;
    }
  }

  /** Counting k slots on from the slot after t is counting k + 1 slots on from t. */
  lemma Advanced(t: nat, k: nat, m: nat)
    requires t < m && k < m
    ensures Mod(Next(t, m) + 1 + k, m) == if k < m - 1 then Mod(t + 1 + (k + 1), m) else Next(t, m)
  {
    assert Mod(t + 2 + k, m) == if t + 2 + k < m then t + 2 + k else Mod(t + 2 + k - m, m);
  }

  // ---------------------------------------------------------------- step by step

  datatype PutPc = PutLoad | PutCheck | PutCas | PutSlot | PutWrite | PutDone(rc: int)

  /** A call of cbufPut. `since` is how many claims had been made when head was loaded. */
  datatype Producer = Producer(pc: PutPc, data: nat, head: nat, since: nat, claim: nat, attempts: nat)

  datatype GetPc = GetLoad | GetCheck | GetCas | GetRead | GetClear | GetDone(rc: int)

  datatype Consumer = Consumer(pc: GetPc, data: nat, tail: nat, attempts: nat)

  /**
   * `claims` and `taken` are the slots won by the successful swaps of head and of tail, in order; `values`
   * and `got` are what the winners of head want to put and what the gets have read.
   */
  datatype State = State(buffer: seq<nat>, head: nat, tail: nat, claims: seq<nat>, taken: seq<nat>,
                         values: seq<nat>, got: seq<nat>, producers: map<nat, Producer>, consumer: Consumer)

  datatype Label = CallPut(tid: nat, data: nat) | StepPut(tid: nat) | CallGet | StepGet

  predicate Shaped(s: State) {
    && s.head < |s.buffer| && s.tail < |s.buffer| && s.consumer.tail < |s.buffer|
    && forall t | t in s.producers :: s.producers[t].head < |s.buffer|
  }

  function Init(size: nat): (s: State)
    ensures Shaped(s)
  {
    State(seq(size + 1, i => 0), 0, 0, [], [], [], [], map[], Consumer(GetDone(0), 0, 0, 0))
  }

  /** One step of cbufPut. */
  function Put(s: State, t: nat): (s': State)
    requires Shaped(s) && t in s.producers
    ensures Shaped(s') && |s'.buffer| == |s.buffer|
  {
    var p := s.producers[t];
    var m := |s.buffer|;
    var next := Next(p.head, m);
    match p.pc
    case PutLoad => s.(producers := s.producers[t := p.(pc := PutCheck, head := s.head, since := |s.claims|)])
    case PutCheck => s.(producers := s.producers[t := p.(pc := if next == s.tail then PutDone(-1) else PutCas)])
    case PutCas =>
      if s.head == p.head then
        s.(head := next, claims := s.claims + [next], values := s.values + [p.data],
           producers := s.producers[t := p.(pc := PutSlot, claim := |s.claims|)])
      else
        var pc := if p.attempts < m then PutLoad else PutDone(-1);
        s.(producers := s.producers[t := p.(pc := pc, attempts := p.attempts + 1)])
    case PutSlot => s.(producers := s.producers[t := p.(pc := if s.buffer[next] != 0 then PutDone(-1) else PutWrite)])
    case PutWrite => s.(buffer := s.buffer[next := p.data], producers := s.producers[t := p.(pc := PutDone(0))])
    case PutDone(_) => s
  }

  /** One step of cbufGet. */
  function Get(s: State): (s': State)
    requires Shaped(s)
    ensures Shaped(s') && |s'.buffer| == |s.buffer|
  {
    var c := s.consumer;
    var m := |s.buffer|;
    var next := Next(c.tail, m);
    match c.pc
    case GetLoad => s.(consumer := c.(pc := GetCheck, tail := s.tail))
    case GetCheck => s.(consumer := c.(pc := if c.tail == s.head then GetDone(-1) else GetCas))
    case GetCas =>
      if s.tail == c.tail then
        s.(tail := next, taken := s.taken + [next], consumer := c.(pc := GetRead))
      else
        s.(consumer := c.(pc := if c.attempts < m then GetLoad else GetDone(-1), attempts := c.attempts + 1))
    case GetRead => s.(got := s.got + [s.buffer[next]], consumer := c.(pc := GetClear, data := s.buffer[next]))
    case GetClear => s.(buffer := s.buffer[next := 0], consumer := c.(pc := GetDone(0)))
    case GetDone(_) => s
  }

  /** A thread takes a step, or makes a new call when it is in none. */
  function Apply(s: State, l: Label): (s': State)
    requires Shaped(s)
    ensures Shaped(s') && |s'.buffer| == |s.buffer|
  {
    match l
    case CallPut(t, data) =>
      if t in s.producers && !s.producers[t].pc.PutDone? then s
      else s.(producers := s.producers[t := Producer(PutLoad, data, 0, 0, 0, 0)])
    case StepPut(t) => if t in s.producers then Put(s, t) else s
    case CallGet => if s.consumer.pc.GetDone? then s.(consumer := Consumer(GetLoad, 0, 0, 0)) else s
    case StepGet => Get(s)
  }

  /** The state after the first k steps of a schedule. */
  function At(size: nat, sched: seq<Label>, k: nat): (s: State)
    requires k <= |sched|
    ensures Shaped(s) && |s.buffer| == size + 1
  {
    if k == 0 then Init(size) else Apply(At(size, sched, k - 1), sched[k - 1])
  }

  // ---------------------------------------------------------------- what every run keeps

  /** The indices are the counts of claims and takes, and what is taken is what was claimed, in order. */
  predicate Counts(s: State) {
    && Shaped(s)
    && s.head == Mod(|s.claims|, |s.buffer|) && s.tail == Mod(|s.taken|, |s.buffer|)
    && (forall i | 0 <= i < |s.claims| :: s.claims[i] == Mod(i + 1, |s.buffer|))
    && s.taken <= s.claims
  }

  predicate ProducerOk(s: State, p: Producer)
    requires p.head < |s.buffer|
  {
    && (p.pc.PutCheck? || p.pc.PutCas? ==> p.since <= |s.claims| && p.head == Mod(p.since, |s.buffer|))
    && (Claimed(p) ==> p.claim < |s.claims| && s.claims[p.claim] == Next(p.head, |s.buffer|))
  }

  /** The producer has won its claim and not yet written. */
  predicate Claimed(p: Producer) {
    p.pc.PutSlot? || p.pc.PutWrite?
  }

  predicate ConsumerOk(s: State)
    requires Shaped(s)
  {
    && (s.consumer.pc.GetCheck? || s.consumer.pc.GetCas? ==> s.consumer.tail == s.tail)
    && (s.consumer.pc.GetCas? ==> |s.taken| < |s.claims|)
    && (Reading(s) ==> |s.taken| > 0 && Next(s.consumer.tail, |s.buffer|) == s.tail)
  }

  /** The consumer has moved tail and has its slot still to read or to clear. */
  predicate Reading(s: State) {
    s.consumer.pc.GetRead? || s.consumer.pc.GetClear?
  }

  ghost predicate ClaimsApart(s: State) {
    forall t, u | t in s.producers && u in s.producers && t != u ::
      Claimed(s.producers[t]) && Claimed(s.producers[u]) ==> s.producers[t].claim != s.producers[u].claim
  }

  ghost predicate Inv(s: State) {
    && Counts(s) && ConsumerOk(s) && ClaimsApart(s)
    && forall t | t in s.producers :: ProducerOk(s, s.producers[t])
  }

  lemma PutKeepsCounts(s: State, t: nat)
    requires Inv(s) && t in s.producers
    ensures Counts(Put(s, t))
  {
    var p, m := s.producers[t], |s.buffer|;
    if p.pc.PutCas? && s.head == p.head {
      ModNext(|s.claims|, m);
      hide Mod;
      assert Put(s, t).claims == s.claims + [Mod(|s.claims| + 1, m)];
    }
  }

  lemma PutKeepsProducer(s: State, t: nat, u: nat)
    requires Inv(s) && t in s.producers && u in s.producers
    ensures ProducerOk(Put(s, t), Put(s, t).producers[u])
  {
    assert ProducerOk(s, s.producers[u]);
    hide Mod;
  }

  lemma PutKeepsApart(s: State, t: nat)
    requires Inv(s) && t in s.producers
    ensures ClaimsApart(Put(s, t))
  {
    hide Mod;
  }

  lemma PutKeepsInv(s: State, t: nat)
    requires Inv(s) && t in s.producers
    ensures Inv(Put(s, t))
  {
    var s' := Put(s, t);
    PutKeepsCounts(s, t);
    PutKeepsApart(s, t);
    forall u | u in s'.producers ensures ProducerOk(s', s'.producers[u]) { PutKeepsProducer(s, t, u); }
    hide Mod, Counts, ProducerOk, ClaimsApart;
  }

  lemma GetKeepsInv(s: State)
    requires Inv(s)
    ensures Inv(Get(s))
  {
    if s.consumer.pc.GetCas? { ModNext(|s.taken|, |s.buffer|); }
    hide Mod;
    var s' := Get(s);
    forall t | t in s'.producers ensures ProducerOk(s', s'.producers[t]) { assert ProducerOk(s, s.producers[t]); }
  }

  lemma InitInv(size: nat)
    ensures Inv(Init(size))
  {
  }

  lemma ApplyKeepsInv(s: State, l: Label)
    requires Inv(s)
    ensures Inv(Apply(s, l))
  {
    hide Mod, Put, Get;
    match l
    case StepPut(t) => if t in s.producers { PutKeepsInv(s, t); }
    case StepGet => GetKeepsInv(s);
    case _ =>
  }

  /** In every run: the i-th successful get empties the slot that the i-th successful put won. */
  lemma {:induction false} InvAlways(size: nat, sched: seq<Label>, k: nat)
    requires k <= |sched|
    ensures Inv(At(size, sched, k))
  {
    hide Apply, Inv, Init;
    if k == 0 {
      InitInv(size);
    } else {
      InvAlways(size, sched, k - 1);
      ApplyKeepsInv(At(size, sched, k - 1), sched[k - 1]);
    }
  }

  // ---------------------------------------------------------------- occupancy

  /** How many claims wait to be consumed after k steps. */
  function Held(size: nat, sched: seq<Label>, k: nat): int
    requires k <= |sched|
  {
    var s := At(size, sched, k);
    |s.claims| - |s.taken|
  }

  /** The step is a head swap that succeeds. */
  predicate WinsHead(s: State, l: Label) {
    l.StepPut? && l.tid in s.producers && s.producers[l.tid].pc.PutCas? && s.head == s.producers[l.tid].head
  }

  /** The test for room, taken before the swap, would still pass at a swap that succeeds. */
  predicate Roomy(s: State, l: Label)
    requires Shaped(s)
  {
    WinsHead(s, l) ==> Next(s.head, |s.buffer|) != s.tail
  }

  predicate RoomyAt(size: nat, sched: seq<Label>, j: nat)
    requires j < |sched|
  {
    Roomy(At(size, sched, j), sched[j])
  }

  ghost predicate NeverOverfull(size: nat, sched: seq<Label>, k: nat)
    requires k <= |sched|
  {
    forall j: nat | j <= k :: Held(size, sched, j) <= size
  }

  ghost predicate SwapsRoomy(size: nat, sched: seq<Label>, k: nat)
    requires k <= |sched|
  {
    forall j: nat | j < k :: RoomyAt(size, sched, j)
  }

  /** What the test for room says of the counts. */
  lemma CheckedRoom(claims: nat, taken: nat, m: nat)
    requires m > 0 && taken <= claims < taken + m
    ensures Next(Mod(claims, m), m) != Mod(taken, m) <==> claims + 1 < taken + m
  {
    ModNext(claims, m);
    if Next(Mod(claims, m), m) == Mod(taken, m) && claims + 1 < taken + m { ModEqual(taken, claims + 1, m); }
  }

  /** A step from a state that is not overfull leads to one exactly when it is a swap without room. */
  lemma StepOverfull(s: State, l: Label)
    requires Inv(s) && |s.claims| < |s.taken| + |s.buffer|
    ensures |Apply(s, l).claims| < |Apply(s, l).taken| + |s.buffer| <==> Roomy(s, l)
  {
    CheckedRoom(|s.claims|, |s.taken|, |s.buffer|);
    hide Mod;
  }

  /**
   * In every run, with no assumption on its timing: at most `size` claims wait in all states up to k if and only
   * if every head swap that succeeded before found the test for room still true.
   */
  lemma {:induction false} OccupancyExact(size: nat, sched: seq<Label>, k: nat)
    requires k <= |sched|
    ensures NeverOverfull(size, sched, k) <==> SwapsRoomy(size, sched, k)
  {
    hide Apply, Inv, Roomy;
    if k == 0 {
      assert Held(size, sched, 0) == 0;
    } else {
      OccupancyExact(size, sched, k - 1);
      InvAlways(size, sched, k - 1);
      var s := At(size, sched, k - 1);
      if Held(size, sched, k - 1) <= size {
        StepOverfull(s, sched[k - 1]);
        assert Held(size, sched, k) <= size <==> RoomyAt(size, sched, k - 1);
      }
      Extend(size, sched, k);
    }
  }

  lemma Extend(size: nat, sched: seq<Label>, k: nat)
    requires 0 < k <= |sched|
    ensures NeverOverfull(size, sched, k) <==> NeverOverfull(size, sched, k - 1) && Held(size, sched, k) <= size
    ensures SwapsRoomy(size, sched, k) <==> SwapsRoomy(size, sched, k - 1) && RoomyAt(size, sched, k - 1)
    ensures NeverOverfull(size, sched, k - 1) ==> Held(size, sched, k - 1) <= size
  {
    hide Held, RoomyAt;
  }

  predicate RingOk(s: State) {
    Counts(s) && |s.claims| < |s.taken| + |s.buffer|
  }

  lemma RingAlways(size: nat, sched: seq<Label>, k: nat)
    requires k <= |sched| && SwapsRoomy(size, sched, k)
    ensures Inv(At(size, sched, k)) && RingOk(At(size, sched, k))
  {
    OccupancyExact(size, sched, k);
    InvAlways(size, sched, k);
    assert Held(size, sched, k) <= size;
  }

  lemma WaitingApart(s: State, i: nat, j: nat)
    requires RingOk(s) && |s.taken| <= i + 1 && i < j < |s.claims|
    ensures s.claims[i] != s.claims[j]
  {
    hide Mod;
    if s.claims[i] == s.claims[j] { ModEqual(i + 1, j + 1, |s.buffer|); }
  }

  /** As long as no swap succeeds without room, at most `size` claims wait and no two of them are the same slot. */
  lemma Occupancy(size: nat, sched: seq<Label>, k: nat)
    requires k <= |sched| && SwapsRoomy(size, sched, k)
    ensures var s := At(size, sched, k);
      && s.taken <= s.claims && |s.claims| - |s.taken| <= size
      && forall i, j | |s.taken| <= i < j < |s.claims| :: s.claims[i] != s.claims[j]
  {
    hide Mod, At;
    RingAlways(size, sched, k);
    var s := At(size, sched, k);
    forall i: nat, j: nat | |s.taken| <= i < j < |s.claims| { WaitingApart(s, i, j); }
  }

  /** Two producers that have won and not yet written hold different slots, unless one was already emptied. */
  lemma WritersApart(size: nat, sched: seq<Label>, k: nat, t: nat, u: nat)
    requires k <= |sched| && SwapsRoomy(size, sched, k) && t != u
    requires var ps := At(size, sched, k).producers; t in ps && u in ps && Claimed(ps[t]) && Claimed(ps[u])
    ensures var s := At(size, sched, k); var p, q := s.producers[t], s.producers[u];
      |s.taken| <= p.claim && |s.taken| <= q.claim ==> Next(p.head, size + 1) != Next(q.head, size + 1)
  {
    hide Mod, At;
    RingAlways(size, sched, k);
    Occupancy(size, sched, k);
    var s := At(size, sched, k);
    var p, q := s.producers[t], s.producers[u];
    assert ProducerOk(s, p) && ProducerOk(s, q);
  }

  // ---------------------------------------------------------------- a window that gives room

  /** A producer about to swap head loaded it fewer than maxlen claims ago. */
  predicate WithinWindow(s: State, l: Label) {
    l.StepPut? && l.tid in s.producers && s.producers[l.tid].pc.PutCas? ==>
      |s.claims| < s.producers[l.tid].since + |s.buffer|
  }

  /** Every one of the first k steps is within its window. */
  predicate WindowsHold(size: nat, sched: seq<Label>, k: nat)
    requires k <= |sched|
  {
    k > 0 ==> WindowsHold(size, sched, k - 1) && WithinWindow(At(size, sched, k - 1), sched[k - 1])
  }

  /** A producer that has passed the test for room and missed no claim since still has room. */
  ghost predicate Checked(s: State) {
    forall t | t in s.producers && s.producers[t].pc.PutCas? && s.producers[t].since == |s.claims| ::
      |s.claims| + 1 < |s.taken| + |s.buffer|
  }

  /** Within its window the head swap succeeds only for a producer that has missed no claim. */
  lemma SwapIsCurrent(s: State, t: nat)
    requires Inv(s) && t in s.producers && WithinWindow(s, StepPut(t))
    requires s.producers[t].pc.PutCas?
    ensures s.head == s.producers[t].head <==> s.producers[t].since == |s.claims|
  {
    var p := s.producers[t];
    assert ProducerOk(s, p);
    if s.head == p.head { ModEqual(p.since, |s.claims|, |s.buffer|); }
  }

  lemma CheckedKept(s: State, l: Label)
    requires Inv(s) && RingOk(s) && Checked(s)
    ensures Checked(Apply(s, l))
  {
    CheckedRoom(|s.claims|, |s.taken|, |s.buffer|);
    assert l.StepPut? && l.tid in s.producers ==> ProducerOk(s, s.producers[l.tid]);
    hide Mod;
  }

  /** A run whose swaps are all less than a lap late never swaps without room. */
  lemma {:induction false} WindowsAreRoomy(size: nat, sched: seq<Label>, k: nat)
    requires k <= |sched| && WindowsHold(size, sched, k)
    ensures SwapsRoomy(size, sched, k) && Checked(At(size, sched, k))
  {
    hide Apply, Inv, Init, WithinWindow, Checked, Roomy;
    if k == 0 {
      assert Checked(Init(size)) by { InitChecked(size); }
    } else {
      WindowsAreRoomy(size, sched, k - 1);
      RingAlways(size, sched, k - 1);
      var s, l := At(size, sched, k - 1), sched[k - 1];
      CheckedKept(s, l);
      WindowIsRoomy(s, l);
      Extend(size, sched, k);
    }
  }

  lemma InitChecked(size: nat)
    ensures Checked(Init(size))
  {
  }

  lemma WindowIsRoomy(s: State, l: Label)
    requires Inv(s) && RingOk(s) && Checked(s) && WithinWindow(s, l)
    ensures Roomy(s, l)
  {
    if WinsHead(s, l) {
      SwapIsCurrent(s, l.tid);
      CheckedRoom(|s.claims|, |s.taken|, |s.buffer|);
    }
  }

  // ---------------------------------------------------------------- values

  /** A producer has won claim i and not yet written its value. */
  ghost predicate Pending(s: State, i: nat) {
    exists t | t in s.producers :: Claimed(s.producers[t]) && s.producers[t].claim == i
  }

  /** The slot is won by a claim that no get has read. */
  predicate Waits(s: State, j: nat) {
    exists i | |s.got| <= i < |s.claims| :: s.claims[i] == j
  }

  /** An unread claim's slot has its value, or zero while the value is still to be written. */
  ghost predicate WaitingOk(s: State)
    requires RingOk(s) && |s.values| == |s.claims|
  {
    forall i: nat | |s.got| <= i < |s.claims| ::
      s.claims[i] < |s.buffer| && s.buffer[s.claims[i]] == if Pending(s, i) then 0 else s.values[i]
  }

  /** Every other slot is zero, but for the one read and not yet cleared. */
  ghost predicate OthersZero(s: State)
    requires RingOk(s)
  {
    forall j: nat | j < |s.buffer| && !Waits(s, j) && !(s.consumer.pc.GetClear? && j == s.tail) :: s.buffer[j] == 0
  }

  ghost predicate WritersOk(s: State)
    requires |s.values| == |s.claims|
  {
    forall t | t in s.producers && Claimed(s.producers[t]) ::
      |s.got| <= s.producers[t].claim < |s.claims| && s.producers[t].data == s.values[s.producers[t].claim]
  }

  ghost predicate ValuesOk(s: State) {
    && Inv(s) && RingOk(s)
    && |s.values| == |s.claims| && |s.got| == |s.taken| - (if s.consumer.pc.GetRead? then 1 else 0)
    && s.got <= s.values && WaitingOk(s) && OthersZero(s) && WritersOk(s)
  }

  /** Every value that won a slot, and every value a producer carries, is not zero. */
  predicate NonZero(s: State) {
    (forall i | 0 <= i < |s.values| :: s.values[i] != 0) && (forall t | t in s.producers :: s.producers[t].data != 0)
  }

  /** If the step reads a slot, the value that won it has been written. */
  ghost predicate Prompt(s: State, l: Label) {
    l.StepGet? && s.consumer.pc.GetRead? && |s.taken| > 0 ==> !Pending(s, |s.taken| - 1)
  }

  /** The slot behind tail is none of those that wait behind the claim last taken. */
  lemma TailApart(s: State, i: nat)
    requires RingOk(s) && |s.taken| <= i < |s.claims|
    ensures s.claims[i] != s.tail
  {
    hide Mod;
    if s.claims[i] == s.tail { ModEqual(|s.taken|, i + 1, |s.buffer|); }
  }

  /** The slot being read is that of the claim last taken. */
  lemma TailIsTaken(s: State)
    requires Inv(s) && |s.taken| > 0
    ensures s.claims[|s.taken| - 1] == s.tail
  {
    hide Mod;
  }

  /** The slot a head swap wins is zero, and no unread claim has it. */
  lemma WonSlotZero(s: State, t: nat)
    requires ValuesOk(s) && WinsHead(s, StepPut(t)) && Roomy(s, StepPut(t))
    ensures var next := Next(s.head, |s.buffer|);
      next == Mod(|s.claims| + 1, |s.buffer|) && s.buffer[next] == 0 && next != s.tail && !Waits(s, next)
  {
    var m, n := |s.buffer|, |s.claims|;
    CheckedRoom(n, |s.taken|, m);
    ModNext(n, m);
    hide Mod;
    forall i: nat | |s.got| <= i < n ensures s.claims[i] != Mod(n + 1, m) {
      if s.claims[i] == Mod(n + 1, m) { ModEqual(i + 1, n + 1, m); }
    }
  }

  /** A put that has won its slot finds it zero, and so always goes on to write. */
  lemma WinnerFindsZero(s: State, t: nat)
    requires ValuesOk(s) && t in s.producers && s.producers[t].pc.PutSlot?
    ensures s.buffer[Next(s.producers[t].head, |s.buffer|)] == 0
  {
    var p := s.producers[t];
    assert ProducerOk(s, p);
    assert Pending(s, p.claim);
  }

  lemma WaitsSame(s: State, s': State, j: nat)
    requires s'.claims == s.claims && |s'.got| == |s.got|
    ensures Waits(s', j) == Waits(s, j)
  {
  }

  lemma PendingSame(s: State, s': State, i: nat)
    requires s'.producers == s.producers
    ensures Pending(s', i) == Pending(s, i)
  {
  }

  /** A step of a producer that neither wins nor writes, or the start of its call. */
  lemma QuietPut(s: State, t: nat, p': Producer, s': State)
    requires ValuesOk(s) && s' == s.(producers := s.producers[t := p']) && Inv(s')
    requires Claimed(p') ==> t in s.producers && Claimed(s.producers[t])
    requires t in s.producers && Claimed(s.producers[t]) ==>
      Claimed(p') && p'.claim == s.producers[t].claim && p'.data == s.producers[t].data
    ensures ValuesOk(s')
  {
    forall i: nat ensures Pending(s', i) == Pending(s, i) {
      if u :| u in s.producers && Claimed(s.producers[u]) && s.producers[u].claim == i {
        assert Claimed(s'.producers[u]) && s'.producers[u].claim == i;
      }
      if u :| u in s'.producers && Claimed(s'.producers[u]) && s'.producers[u].claim == i {
        assert Claimed(s.producers[u]) && s.producers[u].claim == i;
      }
    }
    forall j: nat ensures Waits(s', j) == Waits(s, j) { WaitsSame(s, s', j); }
    hide Pending, Inv, Mod, Waits;
  }

  lemma PendingAfterWin(s: State, t: nat, s': State, i: nat)
    requires Shaped(s) && WinsHead(s, StepPut(t)) && s' == Put(s, t)
    ensures Pending(s', i) <==> Pending(s, i) || i == |s.claims|
  {
    assert Claimed(s'.producers[t]) && s'.producers[t].claim == |s.claims|;
    if u :| u in s.producers && Claimed(s.producers[u]) && s.producers[u].claim == i {
      assert Claimed(s'.producers[u]) && s'.producers[u].claim == i;
    }
    if u :| u in s'.producers && u != t && Claimed(s'.producers[u]) && s'.producers[u].claim == i {
      assert Claimed(s.producers[u]) && s.producers[u].claim == i;
    }
  }

  lemma WinKeepsValues(s: State, t: nat)
    requires ValuesOk(s) && WinsHead(s, StepPut(t)) && Roomy(s, StepPut(t))
    requires Inv(Put(s, t)) && RingOk(Put(s, t))
    ensures ValuesOk(Put(s, t))
  {
    WonSlotZero(s, t);
    var s', n := Put(s, t), |s.claims|;
    forall i: nat ensures Pending(s', i) <==> Pending(s, i) || i == n { PendingAfterWin(s, t, s', i); }
    hide Pending, Inv, Mod;
    assert forall i | 0 <= i < n :: s'.claims[i] == s.claims[i] && s'.values[i] == s.values[i];
    assert s'.claims[n] == Next(s.head, |s.buffer|);
    forall j: nat ensures Waits(s, j) ==> Waits(s', j) {
      if i :| |s.got| <= i < n && s.claims[i] == j { assert s'.claims[i] == j; }
    }
    assert Waits(s', s'.claims[n]);
    hide Waits;
  }

  lemma PendingAfterWrite(s: State, t: nat, s': State, i: nat)
    requires Inv(s) && t in s.producers && s.producers[t].pc.PutWrite? && s' == Put(s, t)
    ensures Pending(s', i) <==> Pending(s, i) && i != s.producers[t].claim
  {
    if u :| u in s.producers && Claimed(s.producers[u]) && s.producers[u].claim == i && u != t {
      assert Claimed(s'.producers[u]) && s'.producers[u].claim == i;
    }
    if u :| u in s'.producers && Claimed(s'.producers[u]) && s'.producers[u].claim == i {
      assert Claimed(s.producers[u]) && s.producers[u].claim == i;
    }
  }

  lemma WriteKeepsValues(s: State, t: nat)
    requires ValuesOk(s) && t in s.producers && s.producers[t].pc.PutWrite? && Inv(Put(s, t))
    ensures ValuesOk(Put(s, t))
  {
    var s', p := Put(s, t), s.producers[t];
    assert ProducerOk(s, p);
    forall i: nat ensures Pending(s', i) <==> Pending(s, i) && i != p.claim { PendingAfterWrite(s, t, s', i); }
    forall i: nat | |s.got| <= i < |s.claims| && i != p.claim ensures s.claims[i] != s.claims[p.claim] {
      if i < p.claim { WaitingApart(s, i, p.claim); } else { WaitingApart(s, p.claim, i); }
    }
    assert Waits(s, s.claims[p.claim]);
    forall j: nat ensures Waits(s', j) == Waits(s, j) { WaitsSame(s, s', j); }
    hide Pending, Inv, Mod, Waits;
  }

  lemma PutKeepsValues(s: State, t: nat)
    requires ValuesOk(s) && t in s.producers && Roomy(s, StepPut(t))
    ensures ValuesOk(Put(s, t))
  {
    var p := s.producers[t];
    PutKeepsInv(s, t);
    StepOverfull(s, StepPut(t));
    hide Mod, Inv, WaitingOk, OthersZero, WritersOk;
    if WinsHead(s, StepPut(t)) {
      WinKeepsValues(s, t);
    } else if p.pc.PutWrite? {
      WriteKeepsValues(s, t);
    } else if !p.pc.PutDone? {
      if p.pc.PutSlot? { WinnerFindsZero(s, t); }
      QuietPut(s, t, Put(s, t).producers[t], Put(s, t));
    }
  }

  /** A slot stops to wait when its claim is read. */
  lemma ReadLeaves(s: State, s': State, j: nat)
    requires |s.got| < |s.claims| && s'.claims == s.claims && |s'.got| == |s.got| + 1
    ensures Waits(s, j) ==> Waits(s', j) || j == s.claims[|s.got|]
    ensures Waits(s', j) ==> Waits(s, j)
  {
    if i :| |s.got| <= i < |s.claims| && s.claims[i] == j { assert i > |s.got| ==> s'.claims[i] == j; }
    if i :| |s'.got| <= i < |s.claims| && s'.claims[i] == j { assert s.claims[i] == j; }
  }

  lemma ReadKeepsValues(s: State)
    requires ValuesOk(s) && s.consumer.pc.GetRead? && Prompt(s, StepGet) && Inv(Get(s))
    ensures ValuesOk(Get(s))
  {
    var s', n := Get(s), |s.got|;
    TailIsTaken(s);
    forall i: nat ensures Pending(s', i) == Pending(s, i) { PendingSame(s, s', i); }
    forall j: nat ensures (Waits(s, j) ==> Waits(s', j) || j == s.tail) && (Waits(s', j) ==> Waits(s, j)) {
      ReadLeaves(s, s', j);
    }
    assert forall t | t in s.producers && Claimed(s.producers[t]) && s.producers[t].claim == n :: Pending(s, n);
    hide Pending, Inv, Mod, Waits;
    assert s.buffer[s.tail] == s.values[n];
    assert s'.got == s.got + [s.values[n]];
  }

  lemma ClearKeepsValues(s: State)
    requires ValuesOk(s) && s.consumer.pc.GetClear? && Inv(Get(s))
    ensures ValuesOk(Get(s))
  {
    var s' := Get(s);
    forall i: nat ensures Pending(s', i) == Pending(s, i) { PendingSame(s, s', i); }
    forall i: nat | |s.got| <= i < |s.claims| ensures s.claims[i] != s.tail { TailApart(s, i); }
    forall j: nat ensures Waits(s', j) == Waits(s, j) { WaitsSame(s, s', j); }
    hide Pending, Inv, Mod, Waits;
  }

  lemma OtherGetKeepsValues(s: State, s': State)
    requires ValuesOk(s) && Inv(s') && RingOk(s') && s'.consumer.pc.GetClear? == s.consumer.pc.GetClear?
    requires s'.(taken := s.taken, tail := s.tail, consumer := s.consumer) == s
    requires |s'.taken| - (if s'.consumer.pc.GetRead? then 1 else 0) == |s.got|
    requires s.consumer.pc.GetClear? ==> s'.tail == s.tail
    ensures ValuesOk(s')
  {
    forall i: nat ensures Pending(s', i) == Pending(s, i) { PendingSame(s, s', i); }
    forall j: nat ensures Waits(s', j) == Waits(s, j) { WaitsSame(s, s', j); }
    hide Pending, Inv, Mod, Waits;
  }

  lemma GetKeepsValues(s: State)
    requires ValuesOk(s) && Prompt(s, StepGet)
    ensures ValuesOk(Get(s))
  {
    GetKeepsInv(s);
    StepOverfull(s, StepGet);
    if s.consumer.pc.GetRead? {
      ReadKeepsValues(s);
    } else if s.consumer.pc.GetClear? {
      ClearKeepsValues(s);
    } else {
      hide Mod, WaitingOk, OthersZero, WritersOk;
      OtherGetKeepsValues(s, Get(s));
    }
  }

  lemma ApplyKeepsValues(s: State, l: Label)
    requires ValuesOk(s) && Roomy(s, l) && Prompt(s, l)
    ensures ValuesOk(Apply(s, l))
  {
    ApplyKeepsInv(s, l);
    hide Mod, Inv, Put, Get, Prompt, Roomy, ValuesOk;
    match l
    case StepPut(t) => if t in s.producers { PutKeepsValues(s, t); }
    case StepGet => GetKeepsValues(s);
    case CallPut(t, data) => CallPutKeepsValues(s, t, data);
    case CallGet => CallGetKeepsValues(s);
  }

  lemma CallPutKeepsValues(s: State, t: nat, data: nat)
    requires ValuesOk(s)
    ensures ValuesOk(Apply(s, CallPut(t, data)))
  {
    ApplyKeepsInv(s, CallPut(t, data));
    hide Mod, Inv, WaitingOk, OthersZero, WritersOk;
    if !(t in s.producers && !s.producers[t].pc.PutDone?) {
      QuietPut(s, t, Producer(PutLoad, data, 0, 0, 0, 0), Apply(s, CallPut(t, data)));
    }
  }

  lemma CallGetKeepsValues(s: State)
    requires ValuesOk(s)
    ensures ValuesOk(Apply(s, CallGet))
  {
    ApplyKeepsInv(s, CallGet);
    hide Mod, WaitingOk, OthersZero, WritersOk;
    if s.consumer.pc.GetDone? { OtherGetKeepsValues(s, Apply(s, CallGet)); }
  }

  ghost predicate PromptAt(size: nat, sched: seq<Label>, j: nat)
    requires j < |sched|
  {
    Prompt(At(size, sched, j), sched[j])
  }

  /** Every read among the first k steps found its value written. */
  ghost predicate ReadsPrompt(size: nat, sched: seq<Label>, k: nat)
    requires k <= |sched|
  {
    forall j: nat | j < k :: PromptAt(size, sched, j)
  }

  lemma InitValues(size: nat)
    ensures ValuesOk(Init(size))
  {
    InitInv(size);
  }

  /** In every such run each unread slot has its value, or zero while it is to be written, and the others are zero. */
  lemma {:induction false} ValuesAlways(size: nat, sched: seq<Label>, k: nat)
    requires k <= |sched| && SwapsRoomy(size, sched, k) && ReadsPrompt(size, sched, k)
    ensures ValuesOk(At(size, sched, k))
  {
    hide Apply, ValuesOk, Init, Roomy, Prompt;
    if k == 0 {
      InitValues(size);
    } else {
      ValuesAlways(size, sched, k - 1);
      assert RoomyAt(size, sched, k - 1) && PromptAt(size, sched, k - 1);
      ApplyKeepsValues(At(size, sched, k - 1), sched[k - 1]);
    }
  }

  lemma {:induction false} NonZeroAlways(size: nat, sched: seq<Label>, k: nat)
    requires k <= |sched| && forall l | l in sched && l.CallPut? :: l.data != 0
    ensures NonZero(At(size, sched, k))
  {
    if k > 0 {
      NonZeroAlways(size, sched, k - 1);
      hide At, Get, Mod;
      NonZeroKept(At(size, sched, k - 1), sched[k - 1]);
    }
  }

  lemma NonZeroKept(s: State, l: Label)
    requires Shaped(s) && NonZero(s) && (l.CallPut? ==> l.data != 0)
    ensures NonZero(Apply(s, l))
  {
    hide Mod;
  }

  /** A read of a value that is not yet written gets zero in its place. */
  lemma EarlyReadGetsZero(s: State)
    requires ValuesOk(s) && !Prompt(s, StepGet)
    ensures Get(s).got == s.got + [0] && |s.got| < |s.values|
  {
    TailIsTaken(s);
  }

  /** What was put and what was got only grows. */
  lemma {:induction false} HistoriesGrow(size: nat, sched: seq<Label>, j: nat, k: nat)
    requires j <= k <= |sched|
    ensures At(size, sched, j).got <= At(size, sched, k).got && At(size, sched, j).values <= At(size, sched, k).values
    decreases k
  {
    if j < k {
      HistoriesGrow(size, sched, j, k - 1);
      hide At;
      HistoryStep(At(size, sched, k - 1), sched[k - 1]);
    }
  }

  lemma HistoryStep(s: State, l: Label)
    requires Shaped(s)
    ensures s.got <= Apply(s, l).got && s.values <= Apply(s, l).values
  {
    hide Mod;
  }

  /** The first read that finds its value unwritten spoils the order for good. */
  lemma {:induction false} EarlyReadSpoils(size: nat, sched: seq<Label>, j: nat, k: nat)
    requires j < k <= |sched| && SwapsRoomy(size, sched, k) && forall l | l in sched && l.CallPut? :: l.data != 0
    requires ReadsPrompt(size, sched, j) && !PromptAt(size, sched, j)
    ensures !(At(size, sched, k).got <= At(size, sched, k).values)
  {
    hide Apply, ValuesOk, Init, Roomy;
    var s, s' := At(size, sched, j), At(size, sched, j + 1);
    assert SwapsRoomy(size, sched, j) by { assert forall i: nat | i < j :: RoomyAt(size, sched, i); }
    ValuesAlways(size, sched, j);
    NonZeroAlways(size, sched, j);
    assert s' == Get(s) by { GetStep(s, sched[j]); }
    EarlyReadGetsZero(s);
    HistoriesGrow(size, sched, j, k);
    HistoriesGrow(size, sched, j + 1, k);
    hide Prompt, Get, At, Mod;
    var n := |s.got|;
    assert s'.got[n] == 0 && At(size, sched, k).got[n] == s'.got[n];
    assert At(size, sched, k).values[n] == s.values[n] != 0;
  }

  lemma GetStep(s: State, l: Label)
    requires Shaped(s) && !Prompt(s, l)
    ensures l == StepGet && Apply(s, l) == Get(s)
  {
  }

  lemma {:induction false} FirstEarly(size: nat, sched: seq<Label>, k: nat) returns (j: nat)
    requires k <= |sched| && !ReadsPrompt(size, sched, k)
    ensures j < k && ReadsPrompt(size, sched, j) && !PromptAt(size, sched, j)
  {
    hide PromptAt;
    if ReadsPrompt(size, sched, k - 1) {
      j := k - 1;
    } else {
      j := FirstEarly(size, sched, k - 1);
    }
  }

  /**
   * In every run without a swap that lacks room: if every read so far found its value written, the gets have read, in
   * order, the first of the values that won a slot, and no put that wins a slot fails. Unless zeros are put, the gets
   * have done so only if every read so far found its value written.
   */
  lemma FirstInFirstOut(size: nat, sched: seq<Label>, k: nat)
    requires k <= |sched| && SwapsRoomy(size, sched, k)
    ensures ReadsPrompt(size, sched, k) ==>
      var s := At(size, sched, k);
      && s.got <= s.values && |s.values| - |s.got| <= size + 1
      && forall t | t in s.producers && s.producers[t].pc.PutSlot? :: Put(s, t).producers[t].pc.PutWrite?
    ensures (forall l | l in sched && l.CallPut? :: l.data != 0) ==>
      var s := At(size, sched, k); s.got <= s.values <==> ReadsPrompt(size, sched, k)
  {
    hide Mod, At, Prompt, Roomy;
    if ReadsPrompt(size, sched, k) {
      ValuesAlways(size, sched, k);
      var s := At(size, sched, k);
      forall t | t in s.producers && s.producers[t].pc.PutSlot? ensures Put(s, t).producers[t].pc.PutWrite? {
        WinnerFindsZero(s, t);
      }
    } else if forall l | l in sched && l.CallPut? :: l.data != 0 {
      var j := FirstEarly(size, sched, k);
      EarlyReadSpoils(size, sched, j, k);
    }
  }

  // ---------------------------------------------------------------- what goes wrong outside the window

  ghost predicate Reached(size: nat, s: State) {
    exists sched: seq<Label> :: At(size, sched, |sched|) == s
  }

  lemma {:induction false} AtPrefix(size: nat, sched: seq<Label>, l: Label, k: nat)
    requires k <= |sched|
    ensures At(size, sched + [l], k) == At(size, sched, k)
  {
    if k > 0 { AtPrefix(size, sched, l, k - 1); }
  }

  lemma Step(size: nat, s: State, l: Label) returns (s': State)
    requires Reached(size, s)
    ensures Shaped(s) && |s.buffer| == size + 1 && s' == Apply(s, l) && Reached(size, s')
  {
    hide Apply;
    var sched: seq<Label> :| At(size, sched, |sched|) == s;
    AtPrefix(size, sched, l, |sched|);
    assert At(size, sched + [l], |sched + [l]|) == Apply(s, l);
    s' := Apply(s, l);
  }

  /** Producer 0 has checked for room in the empty ring and not yet swapped; producer 1 is in no call. */
  predicate Late(s: State) {
    && 0 in s.producers && s.producers[0].pc.PutCas? && s.producers[0].head == 0
    && (1 in s.producers ==> s.producers[1].pc.PutDone?)
    && s.consumer.pc.GetDone? && |s.buffer| > 1
  }

  /** Producer 1 puts while producer 0 waits. */
  lemma OtherPuts(size: nat, s: State) returns (s': State)
    requires Reached(size, s) && Late(s) && Shaped(s) && Next(s.head, |s.buffer|) != s.tail
    ensures Reached(size, s') && Late(s') && Shaped(s') && |s'.buffer| == |s.buffer|
    ensures s'.head == Next(s.head, |s.buffer|) && s'.tail == s.tail && |s'.claims| == |s.claims| + 1
    ensures s'.taken == s.taken
  {
    hide Mod, At, Reached;
    s' := Step(size, s, CallPut(1, 7));
    s' := Step(size, s', StepPut(1));
    s' := Step(size, s', StepPut(1));
    s' := Step(size, s', StepPut(1));
    assert s'.producers[1].pc.PutSlot?;
    s' := Step(size, s', StepPut(1));
    s' := Step(size, s', StepPut(1));
  }

  /** The consumer gets. */
  lemma OneGet(size: nat, s: State) returns (s': State)
    requires Reached(size, s) && Late(s) && Shaped(s) && s.tail != s.head
    ensures Reached(size, s') && Late(s') && Shaped(s') && |s'.buffer| == |s.buffer|
    ensures s'.tail == Next(s.tail, |s.buffer|) && s'.head == s.head && |s'.taken| == |s.taken| + 1
    ensures s'.claims == s.claims
  {
    hide Mod, At, Reached;
    s' := Step(size, s, CallGet);
    s' := Step(size, s', StepGet);
    s' := Step(size, s', StepGet);
    s' := Step(size, s', StepGet);
    s' := Step(size, s', StepGet);
    s' := Step(size, s', StepGet);
  }

  /** Producer 0 waits through one get and n puts. */
  lemma {:induction false} Waiting(size: nat, n: nat) returns (s: State)
    requires 1 <= n <= size + 1 && size > 0
    ensures Reached(size, s) && Late(s) && Shaped(s) && |s.buffer| == size + 1
    ensures |s.claims| == n && |s.taken| == 1 && s.tail == 1 && s.head == if n <= size then n else 0
  {
    if n == 1 {
      s := Init(size);
      assert Reached(size, s) by { var none: seq<Label> := []; assert At(size, none, |none|) == s; }
      s := Step(size, s, CallPut(0, 5));
      s := Step(size, s, StepPut(0));
      s := Step(size, s, StepPut(0));
      s := OtherPuts(size, s);
      s := OneGet(size, s);
    } else {
      s := Waiting(size, n - 1);
      s := OtherPuts(size, s);
    }
  }

  /** For every size but zero, a producer a full lap late takes one claim more than the ring has room for. */
  lemma LateSwapOverfills(size: nat) returns (sched: seq<Label>)
    requires size > 0
    ensures var s := At(size, sched, |sched|); |s.claims| - |s.taken| == size + 1
  {
    var s := Waiting(size, size + 1);
    s := Step(size, s, StepPut(0));
    sched :| At(size, sched, |sched|) == s;
  }

  function Outrun(data: nat): seq<Label> {
    [CallPut(0, data), StepPut(0), StepPut(0), StepPut(0), CallGet, StepGet, StepGet, StepGet, StepGet, StepGet]
  }

  lemma OutrunPut(size: nat, data: nat)
    requires size > 0
    ensures WindowsHold(size, Outrun(data), 4)
    ensures At(size, Outrun(data), 4) ==
              State(seq(size + 1, i => 0), 1, 0, [1], [], [data], [],
                    map[0 := Producer(PutSlot, data, 0, 0, 0, 0)], Consumer(GetDone(0), 0, 0, 0))
  {
    var b, p, idle := seq(size + 1, i => 0), Producer(PutSlot, data, 0, 0, 0, 0), Consumer(GetDone(0), 0, 0, 0);
    assert At(size, Outrun(data), 0) == State(b, 0, 0, [], [], [], [], map[], idle);
    assert At(size, Outrun(data), 1) == State(b, 0, 0, [], [], [], [], map[0 := p.(pc := PutLoad)], idle);
    assert At(size, Outrun(data), 2) == State(b, 0, 0, [], [], [], [], map[0 := p.(pc := PutCheck)], idle);
    assert At(size, Outrun(data), 3) == State(b, 0, 0, [], [], [], [], map[0 := p.(pc := PutCas)], idle);
    assert WindowsHold(size, Outrun(data), 2);
  }

  /**
   * For every size but zero, a get can succeed with 0 when the only value ever put is another: head moves before the
   * slot is written.
   */
  lemma GetCanOutrunPut(size: nat, data: nat)
    requires size > 0
    ensures At(size, Outrun(data), 10).consumer == Consumer(GetDone(0), 0, 0, 0)
    ensures var s := At(size, Outrun(data), 10);
      s.got == [0] && s.values == [data] && (s.got <= s.values <==> data == 0)
    ensures WindowsHold(size, Outrun(data), 10)
  {
    OutrunPut(size, data);
    hide Put;
    var sched := Outrun(data);
    var s := At(size, sched, 4);
    assert At(size, sched, 5) == s.(consumer := Consumer(GetLoad, 0, 0, 0));
    assert At(size, sched, 6) == s.(consumer := Consumer(GetCheck, 0, 0, 0));
    assert At(size, sched, 7) == s.(consumer := Consumer(GetCas, 0, 0, 0));
    assert WindowsHold(size, sched, 6);
    assert At(size, sched, 8).consumer == Consumer(GetRead, 0, 0, 0) && At(size, sched, 8).buffer == s.buffer;
    assert WindowsHold(size, sched, 8);
    assert At(size, sched, 9).consumer == Consumer(GetClear, 0, 0, 0);
    assert [0] <= [data] <==> [0][0] == [data][0];
  }
}
