/**
 * The store that keeps HTTP requests until their responses, src/httpmatch.c: a table of 257 chains, with
 * entries dropped in two phases when their socket has gone.
 */
module HttpMatch {

  const HASH_TABLE_SIZE: nat := 257
  const WORD: nat := 0x1_0000_0000_0000_0000

  function Hash(sockid: nat): (i: nat)
    ensures i < HASH_TABLE_SIZE
  {
    sockid % HASH_TABLE_SIZE
  }

  /** An entry; `id` tells apart entries made by different saves. A stamp other than 0 says it is to go. */
  datatype Item = Item(id: nat, sockid: nat, sockfd: int, data: nat, stamp: nat)

  type Bucket = seq<Item>

  /** What an expire call is told, and which sockets it finds gone. */
  datatype Now = Now(count: nat, emptied: bool, cbufSize: nat, gone: (nat, int) -> bool)

  // ---------------------------------------------------------------- a chain as a sequence

  function Find(b: Bucket, sockid: nat): (k: int)
    ensures k == -1 ==> forall j | 0 <= j < |b| :: b[j].sockid != sockid
    ensures k != -1 ==> 0 <= k < |b| && b[k].sockid == sockid && forall j | 0 <= j < k :: b[j].sockid != sockid
  {
    if b == [] then -1
    else if b[0].sockid == sockid then 0
    else
      var k := Find(b[1..], sockid);
      assert forall j | 1 <= j < |b| :: b[j] == b[1..][j - 1];
      if k == -1 then -1 else k + 1
  }

  function Saved(b: Bucket, x: Item): Bucket {
    if Find(b, x.sockid) == -1 then b + [x] else b
  }

  function Deleted(b: Bucket, sockid: nat): Bucket {
    var k := Find(b, sockid);
    if k == -1 then b else b[..k] + b[k + 1..]
  }

  /** An entry found gone by an earlier call is freed once the queue has been emptied or has moved on far enough. */
  predicate Expires(x: Item, now: Now) {
    x.stamp != 0 && (now.emptied || (x.stamp + now.cbufSize) % WORD < now.count)
  }

  function Stamped(x: Item, now: Now): Item {
    if x.stamp == 0 && now.gone(x.sockid, x.sockfd) then x.(stamp := now.count) else x
  }

  /**
   * One pass over a chain. `kept` is what the head now leads to; `adrift` says that no entry is remembered
   * as the previous one, so that unlinking another moves the head.
   */
  function Sweep(b: Bucket, kept: Bucket, adrift: bool, now: Now): Bucket {
    if b == [] then kept
    else if Expires(b[0], now) then Sweep(b[1..], if adrift then [] else kept, true, now)
    else Sweep(b[1..], kept + [Stamped(b[0], now)], false, now)
  }

  function Expired(b: Bucket, now: Now): Bucket {
    Sweep(b, [], true, now)
  }

  function Freed(b: Bucket, now: Now): Bucket {
    if b == [] then []
    else (if Expires(b[0], now) then [b[0]] else []) + Freed(b[1..], now)
  }

  // ---------------------------------------------------------------- what is lost

  /** What expiry is for: all but the freed entries stay, newly stamped where their socket is gone. */
  function Kept(b: Bucket, now: Now): Bucket {
    if b == [] then []
    else (if Expires(b[0], now) then [] else [Stamped(b[0], now)]) + Kept(b[1..], now)
  }

  /** Two neighbours expire. */
  predicate Double(b: Bucket, now: Now) {
    |b| > 1 && ((Expires(b[0], now) && Expires(b[1], now)) || Double(b[1..], now))
  }

  /** Two neighbours expire somewhere behind an entry that does not. */
  predicate DoubleBehindKept(b: Bucket, now: Now) {
    b != [] && ((!Expires(b[0], now) && Double(b[1..], now)) || DoubleBehindKept(b[1..], now))
  }

  /**
   * The entries that should stay and that the sweep lets go of: those kept so far, whenever it unlinks one while
   * adrift.
   */
  function Lost(b: Bucket, kept: Bucket, adrift: bool, now: Now): Bucket {
    if b == [] then []
    else if Expires(b[0], now) then
      (if adrift then kept + Lost(b[1..], [], true, now) else Lost(b[1..], kept, true, now))
    else Lost(b[1..], kept + [Stamped(b[0], now)], false, now)
  }

  lemma {:induction false} LostThenLinked(b: Bucket, kept: Bucket, adrift: bool, now: Now)
    ensures kept + Kept(b, now) == Lost(b, kept, adrift, now) + Sweep(b, kept, adrift, now)
    decreases |b|
  {
    hide Expires, Stamped;
    if b != [] {
      var t := b[1..];
      if Expires(b[0], now) {
        var k := if adrift then [] else kept;
        LostThenLinked(t, k, true, now);
        assert Kept(b, now) == Kept(t, now);
        if adrift {
          assert Kept(t, now) == Lost(t, [], true, now) + Sweep(t, [], true, now);
          assert kept + (Lost(t, [], true, now) + Sweep(t, [], true, now)) ==
            (kept + Lost(t, [], true, now)) + Sweep(t, [], true, now);
        }
      } else {
        var x := Stamped(b[0], now);
        LostThenLinked(t, kept + [x], false, now);
        assert kept + [x] + Kept(t, now) == kept + Kept(b, now);
      }
    }
  }

  lemma {:induction false} WhenLost(b: Bucket, kept: Bucket, adrift: bool, now: Now)
    ensures Lost(b, kept, adrift, now) != [] <==>
              DoubleBehindKept(b, now) || (kept != [] && (Double(b, now) || (adrift && b != [] && Expires(b[0], now))))
    decreases |b|
  {
    hide Expires, Stamped;
    if b != [] {
      if Expires(b[0], now) {
        WhenLost(b[1..], if adrift then [] else kept, true, now);
      } else {
        WhenLost(b[1..], kept + [Stamped(b[0], now)], false, now);
      }
    }
  }

  /**
   * A call of expire leaves in a chain just what should stay, if and only if no two neighbours expire behind
   * an entry that stays. Otherwise a front part of what should stay is lost: neither freed nor to be found.
   */
  lemma ExpiryExact(b: Bucket, now: Now)
    ensures Kept(b, now) == Lost(b, [], true, now) + Expired(b, now)
    ensures Expired(b, now) == Kept(b, now) <==> !DoubleBehindKept(b, now)
  {
    LostThenLinked(b, [], true, now);
    WhenLost(b, [], true, now);
    hide Kept, Lost, Sweep, Double, DoubleBehindKept;
    assert [] + Kept(b, now) == Kept(b, now);
    assert |Kept(b, now)| == |Lost(b, [], true, now)| + |Sweep(b, [], true, now)|;
  }

  lemma ThreeSwept(now: Now, x: Item, y: Item, z: Item)
    requires x.stamp == 0 && !now.gone(x.sockid, x.sockfd) && y.stamp != 0 && z.stamp != 0 && now.emptied
    ensures Expired([x, y, z], now) == [] && Kept([x, y, z], now) == [x]
  {
    var b := [x, y, z];
    assert b[1..] == [y, z] && [y, z][1..] == [z] && [z][1..] == [];
    assert Stamped(x, now) == x;
    assert Sweep([z], [x], true, now) == [];
    assert Sweep([y, z], [x], false, now) == [];
    assert [] + [x] == [x];
    assert Kept([z], now) == [];
  }

  // ---------------------------------------------------------------- entries through the operations

  /** Entries are in the order they were made, and no two are for the same socket. */
  predicate Ordered(b: Bucket) {
    forall j, l | 0 <= j < l < |b| :: b[j].id < b[l].id && b[j].sockid != b[l].sockid
  }

  /** Every entry that stays was there before, did not expire, and is as it was but for a new stamp. */
  lemma {:induction false} KeptWasThere(b: Bucket, now: Now, y: Item) returns (x: Item)
    requires y in Kept(b, now)
    ensures x in b && !Expires(x, now) && y == Stamped(x, now)
  {
    if !Expires(b[0], now) && y == Stamped(b[0], now) {
      x := b[0];
    } else {
      x := KeptWasThere(b[1..], now, y);
    }
  }

  lemma OrderedPrepend(x: Item, t: Bucket)
    requires Ordered(t) && forall y | y in t :: x.id < y.id && x.sockid != y.sockid
    ensures Ordered([x] + t)
  {
    var r := [x] + t;
    assert forall l | 1 <= l < |r| :: r[l] == t[l - 1] && t[l - 1] in t;
  }

  lemma OrderedTail(b: Bucket)
    requires Ordered(b) && b != []
    ensures Ordered(b[1..]) && forall y | y in b[1..] :: b[0].id < y.id && b[0].sockid != y.sockid
  {
  }

  lemma {:induction false} KeptOrdered(b: Bucket, now: Now)
    requires Ordered(b)
    ensures Ordered(Kept(b, now))
  {
    if b != [] {
      var t := b[1..];
      OrderedTail(b);
      KeptOrdered(t, now);
      hide Ordered, Expires;
      if !Expires(b[0], now) {
        forall y | y in Kept(t, now) ensures b[0].id < y.id && b[0].sockid != y.sockid {
          var x := KeptWasThere(t, now, y);
        }
        OrderedPrepend(Stamped(b[0], now), Kept(t, now));
      }
    }
  }

  lemma ExpiredOrdered(b: Bucket, now: Now)
    requires Ordered(b)
    ensures Ordered(Expired(b, now)) && forall y | y in Expired(b, now) :: y in Kept(b, now)
  {
    ExpiryExact(b, now);
    KeptOrdered(b, now);
    var all, r, d := Kept(b, now), Expired(b, now), |Lost(b, [], true, now)|;
    assert forall j | 0 <= j < |r| :: r[j] == all[d + j];
  }

  lemma {:induction false} FreedExpire(b: Bucket, now: Now, x: Item)
    requires x in Freed(b, now)
    ensures x in b && Expires(x, now)
  {
    if !(Expires(b[0], now) && x == b[0]) { FreedExpire(b[1..], now, x); }
  }

  /** The freed and the kept are different entries, and no entry is freed twice. */
  lemma {:induction false} FreedOrdered(b: Bucket, now: Now)
    requires Ordered(b)
    ensures Ordered(Freed(b, now))
  {
    if b != [] {
      var t := b[1..];
      OrderedTail(b);
      FreedOrdered(t, now);
      hide Ordered, Expires;
      if Expires(b[0], now) {
        forall y | y in Freed(t, now) ensures b[0].id < y.id && b[0].sockid != y.sockid {
          FreedExpire(t, now, y);
        }
        OrderedPrepend(b[0], Freed(t, now));
      }
    }
  }

  // ---------------------------------------------------------------- runs

  datatype Op = Save(sockid: nat, sockfd: int, data: nat) | Delete(sockid: nat) | Expire(now: Now)

  /** Chain i after one more operation, which has an unused id for the entry it may make. */
  function Apply(i: nat, b: Bucket, op: Op, id: nat): Bucket {
    match op
    case Save(sockid, sockfd, data) =>
      if data != 0 && Hash(sockid) == i then Saved(b, Item(id, sockid, sockfd, data, 0)) else b
    case Delete(sockid) => if Hash(sockid) == i then Deleted(b, sockid) else b
    case Expire(now) => Expired(b, now)
  }

  /** The entries of chain i that an operation frees. */
  function Frees(i: nat, b: Bucket, op: Op): Bucket {
    match op
    case Save(_, _, _) => []
    case Delete(sockid) =>
      var k := Find(b, sockid);
      if Hash(sockid) == i && k != -1 then [b[k]] else []
    case Expire(now) => Freed(b, now)
  }

  /** Chain i after k operations; the entry made by operation j has id j + 1. */
  function BucketAt(i: nat, ops: seq<Op>, k: nat): Bucket
    requires k <= |ops|
  {
    if k == 0 then [] else Apply(i, BucketAt(i, ops, k - 1), ops[k - 1], k)
  }

  function FreedAt(i: nat, ops: seq<Op>, k: nat): Bucket
    requires k < |ops|
  {
    Frees(i, BucketAt(i, ops, k), ops[k])
  }

  /** Operation j found the socket of x gone and stamped x. */
  predicate StampedBy(ops: seq<Op>, x: Item, j: nat) {
    j < |ops| && ops[j].Expire? && ops[j].now.count == x.stamp && ops[j].now.gone(x.sockid, x.sockfd)
  }

  /** x came from the operation its id tells, is where it belongs, and has its stamp, if any, from a call since. */
  ghost predicate EntryOk(i: nat, ops: seq<Op>, k: nat, x: Item)
    requires k <= |ops|
  {
    && 0 < x.id <= k && Hash(x.sockid) == i
    && ops[x.id - 1].Save? && ops[x.id - 1] == Save(x.sockid, x.sockfd, x.data)
    && (x.stamp != 0 ==> exists j: nat | x.id <= j < k :: StampedBy(ops, x, j))
  }

  ghost predicate BucketOk(i: nat, ops: seq<Op>, k: nat, b: Bucket)
    requires k <= |ops|
  {
    Ordered(b) && forall x | x in b :: EntryOk(i, ops, k, x)
  }

  lemma EntryOkLater(i: nat, ops: seq<Op>, k: nat, x: Item)
    requires k < |ops| && EntryOk(i, ops, k, x)
    ensures EntryOk(i, ops, k + 1, x)
    ensures ops[k].Expire? ==> EntryOk(i, ops, k + 1, Stamped(x, ops[k].now))
  {
    if x.stamp != 0 {
      var j: nat :| x.id <= j < k && StampedBy(ops, x, j);
    } else if ops[k].Expire? && ops[k].now.gone(x.sockid, x.sockfd) {
      assert StampedBy(ops, Stamped(x, ops[k].now), k);
    }
  }

  lemma ApplyOk(i: nat, ops: seq<Op>, k: nat, b: Bucket)
    requires k < |ops| && BucketOk(i, ops, k, b)
    ensures BucketOk(i, ops, k + 1, Apply(i, b, ops[k], k + 1))
  {
    forall x | x in b ensures EntryOk(i, ops, k + 1, x) { EntryOkLater(i, ops, k, x); }
    hide Ordered, Saved, Deleted, Expired, StampedBy;
    match ops[k]
    case Expire(now) => ExpiredOk(i, ops, k, b);
    case Save(sockid, sockfd, data) => SavedOrdered(b, Item(k + 1, sockid, sockfd, data, 0), k);
    case Delete(sockid) => DeletedOrdered(b, sockid);
  }

  lemma ExpiredOk(i: nat, ops: seq<Op>, k: nat, b: Bucket)
    requires k < |ops| && BucketOk(i, ops, k, b) && ops[k].Expire?
    ensures BucketOk(i, ops, k + 1, Expired(b, ops[k].now))
  {
    hide EntryOk, Ordered, Kept, Stamped, Expires;
    ExpiredOrdered(b, ops[k].now);
    forall y | y in Expired(b, ops[k].now) ensures EntryOk(i, ops, k + 1, y) {
      var x := KeptWasThere(b, ops[k].now, y);
      EntryOkLater(i, ops, k, x);
    }
  }

  lemma SavedOrdered(b: Bucket, x: Item, k: nat)
    requires Ordered(b) && (forall y | y in b :: y.id <= k) && x.id == k + 1
    ensures Ordered(Saved(b, x)) && forall y | y in Saved(b, x) :: y in b || y == x
  {
    assert forall j | 0 <= j < |b| :: b[j] in b;
  }

  lemma DeletedOrdered(b: Bucket, sockid: nat)
    requires Ordered(b)
    ensures Ordered(Deleted(b, sockid)) && forall y | y in Deleted(b, sockid) :: y in b
  {
  }

  lemma {:induction false} RunOk(i: nat, ops: seq<Op>, k: nat)
    requires k <= |ops|
    ensures BucketOk(i, ops, k, BucketAt(i, ops, k))
  {
    if k > 0 {
      hide BucketOk, Apply;
      RunOk(i, ops, k - 1);
      ApplyOk(i, ops, k - 1, BucketAt(i, ops, k - 1));
    }
  }

  /**
   * An entry is freed by expiry only if an earlier call, made since it was saved, found its socket gone and stamped
   * it, and this one saw the queue emptied or far enough on.
   */
  lemma ExpiryJustified(i: nat, ops: seq<Op>, k: nat, x: Item)
    requires k < |ops| && ops[k].Expire? && x in FreedAt(i, ops, k)
    ensures x.stamp != 0 && exists j: nat | x.id <= j < k :: StampedBy(ops, x, j)
    ensures var now := ops[k].now; now.emptied || (x.stamp + now.cbufSize) % WORD < now.count
  {
    RunOk(i, ops, k);
    FreedExpire(BucketAt(i, ops, k), ops[k].now, x);
    assert EntryOk(i, ops, k, x);
  }

  lemma FreedWasThere(i: nat, ops: seq<Op>, k: nat, x: Item)
    requires k < |ops| && x in FreedAt(i, ops, k)
    ensures x in BucketAt(i, ops, k) && EntryOk(i, ops, k, x)
  {
    RunOk(i, ops, k);
    if ops[k].Expire? { FreedExpire(BucketAt(i, ops, k), ops[k].now, x); }
  }

  ghost predicate Holds(b: Bucket, id: nat) {
    exists j | 0 <= j < |b| :: b[j].id == id
  }

  lemma FreedIsGone(i: nat, b: Bucket, op: Op, id: nat, x: Item)
    requires Ordered(b) && x in Frees(i, b, op)
    ensures !op.Save? && !Holds(Apply(i, b, op, id), x.id)
  {
    match op
    case Expire(now) =>
      FreedExpire(b, now, x);
      ExpiredOrdered(b, now);
      forall y | y in Expired(b, now) ensures y.id != x.id {
        var x' := KeptWasThere(b, now, y);
        var j :| 0 <= j < |b| && b[j] == x;
        var l :| 0 <= l < |b| && b[l] == x';
        assert j != l;
      }
      assert forall j | 0 <= j < |Expired(b, now)| :: Expired(b, now)[j] in Expired(b, now);
    case Delete(_) =>
  }

  lemma NotBack(i: nat, b: Bucket, op: Op, id: nat, k: nat)
    requires Ordered(b) && !Holds(b, id) && id != k
    ensures !Holds(Apply(i, b, op, k), id)
  {
    var b' := Apply(i, b, op, k);
    match op
    case Expire(now) =>
      ExpiredOrdered(b, now);
      forall j | 0 <= j < |b'| ensures b'[j].id != id {
        assert b'[j] in b';
        var x := KeptWasThere(b, now, b'[j]);
        var l :| 0 <= l < |b| && b[l] == x;
      }
    case _ =>
  }

  lemma {:induction false} NeverBack(i: nat, ops: seq<Op>, id: nat, k: nat, l: nat)
    requires id <= k <= l <= |ops| && !Holds(BucketAt(i, ops, k), id)
    ensures !Holds(BucketAt(i, ops, l), id)
    decreases l
  {
    if k < l {
      hide Holds, Apply;
      NeverBack(i, ops, id, k, l - 1);
      RunOk(i, ops, l - 1);
      NotBack(i, BucketAt(i, ops, l - 1), ops[l - 1], id, l);
    }
  }

  /** No entry is freed twice: not by two calls, not from two chains, and not twice by one call. */
  lemma FreedOnce(i: nat, j: nat, ops: seq<Op>, k: nat, l: nat, x: Item, y: Item)
    requires k <= l < |ops| && x in FreedAt(i, ops, k) && y in FreedAt(j, ops, l) && (k != l || i != j)
    ensures x.id != y.id
  {
    FreedWasThere(i, ops, k, x);
    FreedWasThere(j, ops, l, y);
    if i == j && k < l {
      RunOk(i, ops, k);
      FreedIsGone(i, BucketAt(i, ops, k), ops[k], k + 1, x);
      NeverBack(i, ops, x.id, k + 1, l);
      hide Apply, Frees, BucketAt;
      var n :| 0 <= n < |BucketAt(j, ops, l)| && BucketAt(j, ops, l)[n] == y;
    }
  }

  lemma FreedOnceInCall(i: nat, ops: seq<Op>, k: nat)
    requires k < |ops|
    ensures Ordered(FreedAt(i, ops, k))
  {
    RunOk(i, ops, k);
    if ops[k].Expire? { FreedOrdered(BucketAt(i, ops, k), ops[k].now); }
  }

  // ---------------------------------------------------------------- all that a run frees

  /** What operation k frees from the first n chains, chain by chain. */
  function FreedBy(ops: seq<Op>, k: nat, n: nat): Bucket
    requires k < |ops|
  {
    if n == 0 then [] else FreedBy(ops, k, n - 1) + FreedAt(n - 1, ops, k)
  }

  /** What the first k operations free, in order. */
  function FreedLog(ops: seq<Op>, k: nat): Bucket
    requires k <= |ops|
  {
    if k == 0 then [] else FreedLog(ops, k - 1) + FreedBy(ops, k - 1, HASH_TABLE_SIZE)
  }

  lemma {:induction false} FreedByFrom(ops: seq<Op>, k: nat, n: nat, x: Item) returns (i: nat)
    requires k < |ops| && x in FreedBy(ops, k, n)
    ensures i < n && x in FreedAt(i, ops, k)
  {
    hide FreedAt;
    if x in FreedAt(n - 1, ops, k) { i := n - 1; } else { i := FreedByFrom(ops, k, n - 1, x); }
  }

  lemma {:induction false} FreedLogFrom(ops: seq<Op>, k: nat, x: Item) returns (j: nat, i: nat)
    requires k <= |ops| && x in FreedLog(ops, k)
    ensures j < k && i < HASH_TABLE_SIZE && x in FreedAt(i, ops, j)
  {
    hide FreedAt, FreedBy;
    if x in FreedBy(ops, k - 1, HASH_TABLE_SIZE) {
      j := k - 1;
      i := FreedByFrom(ops, k - 1, HASH_TABLE_SIZE, x);
    } else {
      j, i := FreedLogFrom(ops, k - 1, x);
    }
  }

  predicate DistinctIds(b: Bucket) {
    forall j, l | 0 <= j < l < |b| :: b[j].id != b[l].id
  }

  lemma DistinctJoin(a: Bucket, b: Bucket)
    requires DistinctIds(a) && DistinctIds(b) && forall x, y | x in a && y in b :: x.id != y.id
    ensures DistinctIds(a + b)
  {
    var all := a + b;
    forall j, l | 0 <= j < l < |all| ensures all[j].id != all[l].id {
      if j < |a| <= l { assert all[j] in a && all[l] in b; }
    }
  }

  lemma {:induction false} FreedByDistinct(ops: seq<Op>, k: nat, n: nat)
    requires k < |ops|
    ensures DistinctIds(FreedBy(ops, k, n))
  {
    if n > 0 {
      FreedByDistinct(ops, k, n - 1);
      FreedOnceInCall(n - 1, ops, k);
      hide FreedAt;
      forall x, y | x in FreedBy(ops, k, n - 1) && y in FreedAt(n - 1, ops, k) ensures x.id != y.id {
        var i := FreedByFrom(ops, k, n - 1, x);
        FreedOnce(i, n - 1, ops, k, k, x, y);
      }
      DistinctJoin(FreedBy(ops, k, n - 1), FreedAt(n - 1, ops, k));
    }
  }

  /** Over any run of saves, deletes and expiries, on all the chains together, no entry is freed twice. */
  lemma {:induction false} NothingFreedTwice(ops: seq<Op>, k: nat)
    requires k <= |ops|
    ensures DistinctIds(FreedLog(ops, k))
  {
    if k > 0 {
      NothingFreedTwice(ops, k - 1);
      FreedByDistinct(ops, k - 1, HASH_TABLE_SIZE);
      hide FreedAt, FreedBy;
      var a, b := FreedLog(ops, k - 1), FreedBy(ops, k - 1, HASH_TABLE_SIZE);
      forall x, y | x in a && y in b ensures x.id != y.id {
        var j, i := FreedLogFrom(ops, k - 1, x);
        var l := FreedByFrom(ops, k - 1, HASH_TABLE_SIZE, y);
        FreedOnce(i, l, ops, j, k - 1, x, y);
      }
      DistinctJoin(a, b);
    }
  }

  // ---------------------------------------------------------------- the store as a map

  /** What a get finds in a chain: the data for the socket, or 0. */
  function Lookup(b: Bucket, sockid: nat): nat {
    var k := Find(b, sockid);
    if k == -1 then 0 else b[k].data
  }

  lemma LookupSaved(b: Bucket, x: Item, s: nat)
    ensures Lookup(Saved(b, x), s) == if s == x.sockid && Find(b, s) == -1 then x.data else Lookup(b, s)
  {
    if Find(b, x.sockid) == -1 {
      var t := b + [x];
      assert forall j | 0 <= j < |b| :: t[j] == b[j];
      if Find(b, s) != -1 { assert t[Find(b, s)].sockid == s; }
      if s == x.sockid { assert t[|b|].sockid == s; }
    }
  }

  lemma LookupDeleted(b: Bucket, sockid: nat, s: nat)
    requires Ordered(b)
    ensures Lookup(Deleted(b, sockid), s) == if s == sockid then 0 else Lookup(b, s)
  {
    var k := Find(b, sockid);
    if k != -1 {
      var t, f := Deleted(b, sockid), Find(b, s);
      assert forall j | 0 <= j < |t| :: t[j] == b[if j < k then j else j + 1];
      if s != sockid && f != -1 { assert t[if f < k then f else f - 1] == b[f]; }
    }
  }

  // ---------------------------------------------------------------- expiry on the map

  predicate Has(b: Bucket, s: nat) {
    exists j | 0 <= j < |b| :: b[j].sockid == s
  }

  /** The entry at place i goes with this call: it expires, or two neighbours somewhere behind it do. */
  predicate Goes(b: Bucket, now: Now, i: nat)
    requires i < |b|
  {
    Expires(b[i], now) || Double(b[i + 1..], now)
  }

  predicate Dropped(b: Bucket, now: Now, s: nat) {
    exists i: nat | i < |b| :: b[i].sockid == s && Goes(b, now, i)
  }

  /** An entry for the socket expires. */
  predicate Expiring(b: Bucket, now: Now, s: nat) {
    b != [] && ((b[0].sockid == s && Expires(b[0], now)) || Expiring(b[1..], now, s))
  }

  /** An entry for the socket should stay, and two neighbours behind it expire. */
  predicate Stranded(b: Bucket, now: Now, s: nat) {
    b != [] && ((b[0].sockid == s && !Expires(b[0], now) && Double(b[1..], now)) || Stranded(b[1..], now, s))
  }

  lemma HasJoin(a: Bucket, b: Bucket, s: nat)
    ensures Has(a + b, s) <==> Has(a, s) || Has(b, s)
  {
    if j :| 0 <= j < |a| && a[j].sockid == s { assert (a + b)[j].sockid == s; }
    if j :| 0 <= j < |b| && b[j].sockid == s { assert (a + b)[|a| + j].sockid == s; }
    if j :| 0 <= j < |a + b| && (a + b)[j].sockid == s {
      assert if j < |a| then a[j].sockid == s else b[j - |a|].sockid == s;
    }
  }

  lemma HasOne(x: Item, s: nat)
    ensures Has([x], s) <==> x.sockid == s
  {
    assert x.sockid == s ==> [x][0].sockid == s;
  }

  lemma {:induction false} WhichFreed(b: Bucket, now: Now, s: nat)
    ensures Has(Freed(b, now), s) <==> Expiring(b, now, s)
  {
    if b != [] {
      WhichFreed(b[1..], now, s);
      HasJoin([b[0]], Freed(b[1..], now), s);
      HasOne(b[0], s);
      hide Has, Expires;
      assert [] + Freed(b[1..], now) == Freed(b[1..], now);
    }
  }

  /** Which entries the sweep lets go of, by their places in the chain. */
  lemma {:induction false} WhichLost(b: Bucket, kept: Bucket, adrift: bool, now: Now, s: nat)
    ensures Has(Lost(b, kept, adrift, now), s) <==>
              || Stranded(b, now, s)
              || (Has(kept, s) && (Double(b, now) || (adrift && b != [] && Expires(b[0], now))))
    decreases |b|
  {
    hide Has, Expires, Stamped;
    HasNothing(s);
    if b != [] {
      var t, x := b[1..], Stamped(b[0], now);
      if Expires(b[0], now) {
        WhichLost(t, if adrift then [] else kept, true, now, s);
        HasJoin(kept, Lost(t, [], true, now), s);
      } else {
        WhichLost(t, kept + [x], false, now, s);
        HasJoin(kept, [x], s);
        HasOne(x, s);
        assert x.sockid == b[0].sockid by { StampedSame(b[0], now); }
      }
    }
  }

  lemma HasNothing(s: nat)
    ensures !Has([], s)
  {
  }

  lemma StampedSame(x: Item, now: Now)
    ensures Stamped(x, now).sockid == x.sockid
  {
  }

  lemma {:induction false} DroppedHere(b: Bucket, now: Now, s: nat)
    ensures Dropped(b, now, s) <==> Expiring(b, now, s) || Stranded(b, now, s)
  {
    hide Expires, Double;
    if b != [] {
      var t := b[1..];
      DroppedHere(t, now, s);
      if Dropped(t, now, s) {
        var i: nat :| i < |t| && t[i].sockid == s && Goes(t, now, i);
        assert t[i + 1..] == b[i + 2..];
        assert b[i + 1].sockid == s && Goes(b, now, i + 1);
      }
      if Dropped(b, now, s) {
        var i: nat :| i < |b| && b[i].sockid == s && Goes(b, now, i);
        if i > 0 {
          assert t[i..] == b[i + 1..];
          assert t[i - 1].sockid == s && Goes(t, now, i - 1);
        }
      }
      if b[0].sockid == s && Goes(b, now, 0) { assert Dropped(b, now, s); }
    }
  }

  /** The entries that go are those freed and those lost: which ones these are shows in the chain before the call. */
  lemma WhichGo(b: Bucket, now: Now, s: nat)
    ensures Dropped(b, now, s) <==> Has(Freed(b, now), s) || Has(Lost(b, [], true, now), s)
  {
    hide *;
    DroppedHere(b, now, s);
    WhichFreed(b, now, s);
    WhichLost(b, [], true, now, s);
    HasNothing(s);
  }

  /** Every entry is freed or should stay. */
  lemma {:induction false} FreedOrKept(b: Bucket, now: Now, s: nat)
    ensures Has(b, s) <==> Has(Freed(b, now), s) || Has(Kept(b, now), s)
  {
    if b != [] {
      var t := b[1..];
      FreedOrKept(t, now, s);
      assert b == [b[0]] + t;
      HasJoin([b[0]], t, s);
      HasOne(b[0], s);
      HasOne(Stamped(b[0], now), s);
      HasJoin([b[0]], Freed(t, now), s);
      HasJoin([Stamped(b[0], now)], Kept(t, now), s);
      hide Has, Expires;
      assert [] + Freed(t, now) == Freed(t, now) && [] + Kept(t, now) == Kept(t, now);
    }
  }

  lemma NotBoth(b: Bucket, now: Now, s: nat)
    requires Ordered(b) && Has(Kept(b, now), s)
    ensures !Has(Freed(b, now), s)
  {
    var j :| 0 <= j < |Kept(b, now)| && Kept(b, now)[j].sockid == s;
    var x := KeptWasThere(b, now, Kept(b, now)[j]);
    var k :| 0 <= k < |b| && b[k] == x;
    forall i | 0 <= i < |Freed(b, now)| ensures Freed(b, now)[i].sockid != s {
      FreedExpire(b, now, Freed(b, now)[i]);
      var l :| 0 <= l < |b| && b[l] == Freed(b, now)[i];
      assert k != l;
    }
  }

  lemma OrderedApart(a: Bucket, b: Bucket, s: nat)
    requires Ordered(a + b) && Has(b, s)
    ensures !Has(a, s)
  {
    var j :| 0 <= j < |b| && b[j].sockid == s;
    forall i | 0 <= i < |a| ensures a[i].sockid != s {
      assert (a + b)[i] == a[i] && (a + b)[|a| + j] == b[j];
    }
  }

  /**
   * After a call of expire a get finds what it found before, unless that entry expired or two neighbours behind it did:
   * then nothing.
   */
  lemma LookupExpired(b: Bucket, now: Now, s: nat)
    requires Ordered(b)
    ensures Find(Expired(b, now), s) != -1 <==> Find(b, s) != -1 && !Dropped(b, now, s)
    ensures Find(Expired(b, now), s) != -1 ==> Lookup(Expired(b, now), s) == Lookup(b, s)
  {
    var r, lost := Expired(b, now), Lost(b, [], true, now);
    FindHas(b, s);
    FindHas(r, s);
    WhichGo(b, now, s);
    ExpiryExact(b, now);
    KeptOrdered(b, now);
    FreedOrKept(b, now, s);
    HasJoin(lost, r, s);
    if Has(Kept(b, now), s) { NotBoth(b, now, s); }
    if Has(r, s) {
      OrderedApart(lost, r, s);
      LookupKept(b, now, s);
    }
    hide *;
  }

  lemma FindHas(b: Bucket, s: nat)
    ensures Find(b, s) != -1 <==> Has(b, s)
  {
  }

  lemma LookupKept(b: Bucket, now: Now, s: nat)
    requires Ordered(b) && Has(Expired(b, now), s)
    ensures Lookup(Expired(b, now), s) == Lookup(b, s)
  {
    var r := Expired(b, now);
    var k := Find(r, s);
    ExpiredOrdered(b, now);
    assert r[k] in r;
    var x := KeptWasThere(b, now, r[k]);
    var l :| 0 <= l < |b| && b[l] == x;
    assert Find(b, s) == l;
  }

  // ---------------------------------------------------------------- a live entry is lost

  /** Three saves; an expire call that finds the last two sockets gone; one after the queue has been emptied. */
  function LosingRun(s: (nat, nat, nat), fd: (int, int, int), data: (nat, nat, nat), first: Now, second: Now): seq<Op> {
    [Save(s.0, fd.0, data.0), Save(s.1, fd.1, data.1), Save(s.2, fd.2, data.2), Expire(first), Expire(second)]
  }

  lemma ThreeSaved(x: Item, y: Item, z: Item)
    requires x.sockid != y.sockid && x.sockid != z.sockid && y.sockid != z.sockid
    ensures Saved([], x) == [x] && Saved([x], y) == [x, y] && Saved([x, y], z) == [x, y, z]
  {
    assert [x][1..] == [] && [x, y][1..] == [y] && [y][1..] == [];
  }

  lemma ThreeStamped(now: Now, x: Item, y: Item, z: Item)
    requires x.stamp == 0 && y.stamp == 0 && z.stamp == 0
    ensures Expired([x, y, z], now) == [Stamped(x, now), Stamped(y, now), Stamped(z, now)]
  {
    hide Stamped;
    var b := [x, y, z];
    var x', y', z' := Stamped(x, now), Stamped(y, now), Stamped(z, now);
    assert b[1..] == [y, z] && [y, z][1..] == [z] && [z][1..] == [];
    assert [] + [x'] == [x'] && [x'] + [y'] == [x', y'] && [x', y'] + [z'] == [x', y', z'];
    assert Sweep([z], [x', y'], false, now) == [x', y', z'];
    assert Sweep([y, z], [x'], false, now) == [x', y', z'];
  }

  /** For any three sockets of one chain: a run after which the first is in use as ever, and nothing is found for it. */
  lemma LiveEntryLost(s: (nat, nat, nat), fd: (int, int, int), data: (nat, nat, nat), first: Now, second: Now)
    requires s.0 != s.1 && s.0 != s.2 && s.1 != s.2 && Hash(s.0) == Hash(s.1) == Hash(s.2)
    requires data.0 != 0 && data.1 != 0 && data.2 != 0 && first.count != 0 && second.emptied
    requires !first.gone(s.0, fd.0) && first.gone(s.1, fd.1) && first.gone(s.2, fd.2) && !second.gone(s.0, fd.0)
    ensures var ops := LosingRun(s, fd, data, first, second);
      && Lookup(BucketAt(Hash(s.0), ops, 4), s.0) == data.0 && BucketAt(Hash(s.0), ops, 5) == []
      && forall x | x in FreedAt(Hash(s.0), ops, 4) :: x.sockid != s.0
  {
    hide Hash, Saved, Expired, Kept, Lookup, Frees, Stamped;
    var ops, i := LosingRun(s, fd, data, first, second), Hash(s.0);
    var x, y, z := Item(1, s.0, fd.0, data.0, 0), Item(2, s.1, fd.1, data.1, 0), Item(3, s.2, fd.2, data.2, 0);
    ThreeSaved(x, y, z);
    assert BucketAt(i, ops, 0) == [] && BucketAt(i, ops, 1) == [x];
    assert BucketAt(i, ops, 2) == [x, y] && BucketAt(i, ops, 3) == [x, y, z];
    ThreeStamped(first, x, y, z);
    var y', z' := y.(stamp := first.count), z.(stamp := first.count);
    StampedThree(first, x, y, z);
    assert BucketAt(i, ops, 4) == [x, y', z'];
    ThreeSwept(second, x, y', z');
    FirstFound(x, y', z', second);
    assert BucketAt(i, ops, 5) == [];
  }

  lemma StampedThree(now: Now, x: Item, y: Item, z: Item)
    requires x.stamp == 0 && y.stamp == 0 && z.stamp == 0
    requires !now.gone(x.sockid, x.sockfd) && now.gone(y.sockid, y.sockfd) && now.gone(z.sockid, z.sockfd)
    ensures Stamped(x, now) == x
    ensures Stamped(y, now) == y.(stamp := now.count) && Stamped(z, now) == z.(stamp := now.count)
  {
  }

  lemma FirstFound(x: Item, y: Item, z: Item, now: Now)
    requires x.stamp == 0 && x.sockid != y.sockid && x.sockid != z.sockid
    ensures Lookup([x, y, z], x.sockid) == x.data
    ensures forall e | e in Frees(Hash(x.sockid), [x, y, z], Expire(now)) :: e.sockid != x.sockid
  {
    forall e | e in Freed([x, y, z], now) ensures e.sockid != x.sockid { FreedExpire([x, y, z], now, e); }
  }

  // ---------------------------------------------------------------- the map

  /** A map that takes a key only once, and of which an expire call takes away the entries it drops. */
  function MapAt(ops: seq<Op>, k: nat): map<nat, nat>
    requires k <= |ops|
  {
    if k == 0 then map[]
    else
      var m := MapAt(ops, k - 1);
      match ops[k - 1]
      case Save(sockid, _, data) => if data == 0 || sockid in m then m else m[sockid := data]
      case Delete(sockid) => m - {sockid}
      case Expire(now) => map s | s in m && !Dropped(BucketAt(Hash(s), ops, k - 1), now, s) :: m[s]
  }

  predicate Agrees(b: Bucket, m: map<nat, nat>, s: nat) {
    (Find(b, s) != -1 <==> s in m) && (s in m ==> Lookup(b, s) == m[s])
  }

  /** In every run of saves, deletes and expiries the store answers every get as the map does. */
  lemma {:induction false} StoreIsMap(ops: seq<Op>, k: nat, s: nat)
    requires k <= |ops|
    ensures Agrees(BucketAt(Hash(s), ops, k), MapAt(ops, k), s)
  {
    hide Hash, Apply, Ordered, EntryOk, Lookup, Agrees, Dropped;
    if k == 0 {
      EmptyAgrees(s);
    } else {
      StoreIsMap(ops, k - 1, s);
      RunOk(Hash(s), ops, k - 1);
      AgreesStep(ops[k - 1], k, BucketAt(Hash(s), ops, k - 1), MapAt(ops, k - 1), MapAt(ops, k), s);
    }
  }

  lemma EmptyAgrees(s: nat)
    ensures Agrees([], map[], s)
  {
  }

  /** One operation on chain and map; m' need be right for s only. */
  lemma AgreesStep(op: Op, id: nat, b: Bucket, m: map<nat, nat>, m': map<nat, nat>, s: nat)
    requires Ordered(b) && Agrees(b, m, s)
    requires match op
      case Save(sockid, _, data) => m' == if data == 0 || sockid in m then m else m[sockid := data]
      case Delete(sockid) => m' == m - {sockid}
      case Expire(now) => (s in m' <==> s in m && !Dropped(b, now, s)) && (s in m' ==> m'[s] == m[s])
    ensures Agrees(Apply(Hash(s), b, op, id), m', s)
  {
    hide Hash, Find, Ordered, Saved, Deleted, Lookup, Dropped;
    match op
    case Save(sockid, sockfd, data) =>
      var x := Item(id, sockid, sockfd, data, 0);
      LookupSaved(b, x, s);
      FindSaved(b, x, s);
    case Delete(sockid) =>
      LookupDeleted(b, sockid, s);
      FindDeleted(b, sockid, s);
    case Expire(now) =>
      LookupExpired(b, now, s);
  }

  lemma FindSaved(b: Bucket, x: Item, s: nat)
    ensures Find(Saved(b, x), s) != -1 <==> Find(b, s) != -1 || s == x.sockid
  {
    if Find(b, x.sockid) == -1 {
      var t := b + [x];
      assert t[|b|].sockid == x.sockid;
      if Find(b, s) != -1 { assert t[Find(b, s)].sockid == s; }
      if Find(t, s) != -1 && s != x.sockid { assert b[Find(t, s)].sockid == s; }
    }
  }

  lemma FindDeleted(b: Bucket, sockid: nat, s: nat)
    requires Ordered(b)
    ensures Find(Deleted(b, sockid), s) != -1 <==> Find(b, s) != -1 && s != sockid
  {
    var k := Find(b, sockid);
    if k != -1 {
      var t, f := Deleted(b, sockid), Find(b, s);
      assert forall j | 0 <= j < |t| :: t[j] == b[if j < k then j else j + 1];
      if s != sockid && f != -1 { assert t[if f < k then f else f - 1] == b[f]; }
      if Find(t, s) != -1 { assert b[if Find(t, s) < k then Find(t, s) else Find(t, s) + 1].sockid == s; }
    }
  }

  // ---------------------------------------------------------------- when an entry is freed

  lemma {:induction false} FreedIfExpires(b: Bucket, now: Now, x: Item)
    ensures x in Freed(b, now) <==> x in b && Expires(x, now)
  {
    hide Expires;
    if b != [] {
      FreedIfExpires(b[1..], now, x);
      assert x in b <==> x == b[0] || x in b[1..];
      assert x in [b[0]] + Freed(b[1..], now) <==> x == b[0] || x in Freed(b[1..], now);
    }
  }

  /**
   * Over any run, a call of expire frees an entry of the store if and only if it has a stamp and the queue has been
   * emptied or has moved on by more than cbufSize events since, as far as 64-bit arithmetic goes.
   */
  lemma WhenFreed(i: nat, ops: seq<Op>, k: nat, x: Item)
    requires k < |ops| && ops[k].Expire? && x in BucketAt(i, ops, k)
    ensures var now := ops[k].now;
      && (x in FreedAt(i, ops, k) <==> x.stamp != 0 && (now.emptied || (x.stamp + now.cbufSize) % WORD < now.count))
      && (x.stamp + now.cbufSize < WORD ==>
            (x in FreedAt(i, ops, k) <==> x.stamp != 0 && (now.emptied || now.count - x.stamp > now.cbufSize)))
  {
    hide BucketAt;
    FreedIfExpires(BucketAt(i, ops, k), ops[k].now, x);
  }

  lemma {:induction false} KeptHas(b: Bucket, now: Now, n: nat)
    requires n < |b| && !Expires(b[n], now)
    ensures Stamped(b[n], now) in Kept(b, now)
  {
    hide Expires, Stamped;
    if n > 0 {
      KeptHas(b[1..], now, n - 1);
      assert b[1..][n - 1] == b[n];
    }
  }

  /**
   * A call of expire that finds the socket of an entry gone stamps the entry with its count, if it has no stamp yet;
   * otherwise it leaves the entry as it is. This goes for every entry that stays.
   */
  lemma GoneIsStamped(b: Bucket, now: Now, n: nat)
    requires Ordered(b) && n < |b| && !Goes(b, now, n)
    ensures var x := b[n];
      (if x.stamp == 0 && now.gone(x.sockid, x.sockfd) then x.(stamp := now.count) else x) in Expired(b, now)
  {
    var x, y := b[n], Stamped(b[n], now);
    KeptHas(b, now, n);
    ExpiryExact(b, now);
    var lost, r := Lost(b, [], true, now), Expired(b, now);
    assert y in lost + r;
    hide Kept, Lost, Sweep, Double;
    if y in lost {
      var j :| 0 <= j < |lost| && lost[j] == y;
      assert lost[j].sockid == x.sockid;
      WhichGo(b, now, x.sockid);
    }
  }
}
