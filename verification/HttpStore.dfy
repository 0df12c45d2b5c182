/**
 * The store of src/httpmatch.c in memory: chains of entries linked through their addresses, walked and
 * relinked in place.
 */
module HttpStore {
  import opened HttpMatch

  // ---------------------------------------------------------------- chains in memory

  /** A hashTable_t. Address 0 is NULL. */
  datatype Node = Node(sockid: nat, sockfd: int, data: nat, next: nat, circBufCount: nat)

  type Heap = map<nat, Node>

  /** From p the links lead over the addresses of `chain` to q. */
  predicate Leads(heap: Heap, p: nat, chain: seq<nat>, q: nat)
    decreases |chain|
  {
    if chain == [] then p == q
    else p == chain[0] && p != 0 && p in heap && Leads(heap, heap[p].next, chain[1..], q)
  }

  predicate Mapped(heap: Heap, chain: seq<nat>) {
    forall k | 0 <= k < |chain| :: chain[k] in heap
  }

  function ItemAt(heap: Heap, p: nat): Item
    requires p in heap
  {
    var n := heap[p];
    Item(p, n.sockid, n.sockfd, n.data, n.circBufCount)
  }

  function Items(heap: Heap, chain: seq<nat>): (b: Bucket)
    requires Mapped(heap, chain)
    ensures |b| == |chain| && forall k | 0 <= k < |chain| :: b[k] == ItemAt(heap, chain[k])
  {
    if chain == [] then [] else [ItemAt(heap, chain[0])] + Items(heap, chain[1..])
  }

  lemma {:induction false} LeadsMapped(heap: Heap, p: nat, chain: seq<nat>, q: nat)
    requires Leads(heap, p, chain, q)
    ensures Mapped(heap, chain)
    decreases |chain|
  {
    if chain != [] { LeadsMapped(heap, heap[p].next, chain[1..], q); }
  }

  /** Links along the way are read only there. */
  lemma {:induction false} LeadsFrame(heap: Heap, heap': Heap, p: nat, chain: seq<nat>, q: nat)
    requires Leads(heap, p, chain, q)
    requires forall k | 0 <= k < |chain| ::
              chain[k] in heap && chain[k] in heap' && heap'[chain[k]].next == heap[chain[k]].next
    ensures Leads(heap', p, chain, q)
    decreases |chain|
  {
    if chain != [] {
      assert forall k | 0 <= k < |chain[1..]| :: chain[1..][k] == chain[k + 1];
      LeadsFrame(heap, heap', heap[p].next, chain[1..], q);
    }
  }

  /** Going one entry further. */
  lemma {:induction false} LeadsFurther(heap: Heap, p: nat, chain: seq<nat>, q: nat)
    requires Leads(heap, p, chain, q) && q != 0 && q in heap
    ensures Leads(heap, p, chain + [q], heap[q].next)
    decreases |chain|
  {
    if chain == [] {
      assert (chain + [q])[1..] == [];
    } else {
      LeadsFurther(heap, heap[p].next, chain[1..], q);
      assert (chain + [q])[1..] == chain[1..] + [q];
    }
  }

  /** Changing the last link of a way changes where it leads. */
  lemma {:induction false} LeadsElsewhere(heap: Heap, p: nat, chain: seq<nat>, q: nat, r: nat)
    requires Leads(heap, p, chain, q) && chain != [] && (forall k | 0 <= k < |chain| :: chain[k] in heap)
    requires forall k | 0 <= k < |chain| - 1 :: chain[k] != chain[|chain| - 1]
    ensures var last := chain[|chain| - 1]; Leads(heap[last := heap[last].(next := r)], p, chain, r)
    decreases |chain|
  {
    var last := chain[|chain| - 1];
    var heap' := heap[last := heap[last].(next := r)];
    if |chain| == 1 {
      assert chain[1..] == [];
    } else {
      var t := chain[1..];
      assert forall k | 0 <= k < |t| :: t[k] == chain[k + 1];
      LeadsElsewhere(heap, heap[p].next, t, q, r);
    }
  }

  // ---------------------------------------------------------------- chains of the table

  /** Chain i: its links end at NULL, its entries hash to i, and they are in order. */
  predicate ChainOk(heap: Heap, head: nat, chain: seq<nat>, i: nat, brk: nat): (ok: bool)
    ensures ok ==> Mapped(heap, chain)
  {
    && Leads(heap, head, chain, 0) && Mapped(heap, chain)
    && (forall k | 0 <= k < |chain| :: chain[k] < brk && Hash(heap[chain[k]].sockid) == i && heap[chain[k]].data != 0)
    && Ordered(Items(heap, chain))
  }

  /** A chain whose entries are untouched is as it was. */
  lemma Untouched(heap: Heap, heap': Heap, head: nat, chain: seq<nat>, i: nat, brk: nat, brk': nat)
    requires ChainOk(heap, head, chain, i, brk) && brk <= brk'
    requires forall k | 0 <= k < |chain| :: chain[k] in heap' && heap'[chain[k]] == heap[chain[k]]
    ensures ChainOk(heap', head, chain, i, brk') && Items(heap', chain) == Items(heap, chain)
  {
    LeadsFrame(heap, heap', head, chain, 0);
    hide Leads, Hash;
  }

  lemma {:induction false} LeadsSplit(heap: Heap, p: nat, chain: seq<nat>, q: nat, k: nat)
    requires Leads(heap, p, chain, q) && k < |chain|
    ensures chain[k] in heap && chain[k] != 0
    ensures Leads(heap, p, chain[..k], chain[k]) && Leads(heap, chain[k], chain[k..], q)
    ensures Leads(heap, heap[chain[k]].next, chain[k + 1..], q)
    decreases |chain|
  {
    if k == 0 {
      assert chain[0..] == chain;
    } else {
      LeadsSplit(heap, heap[p].next, chain[1..], q, k - 1);
      assert chain[..k][1..] == chain[1..][..k - 1];
      assert chain[1..][k - 1..] == chain[k..] && chain[1..][k..] == chain[k + 1..];
    }
  }

  lemma {:induction false} LeadsJoin(heap: Heap, p: nat, a: seq<nat>, q: nat, b: seq<nat>, r: nat)
    requires Leads(heap, p, a, q) && Leads(heap, q, b, r)
    ensures Leads(heap, p, a + b, r)
    decreases |a|
  {
    if a == [] {
      assert a + b == b;
    } else {
      LeadsJoin(heap, heap[p].next, a[1..], q, b, r);
      assert (a + b)[1..] == a[1..] + b;
    }
  }

  /** Addresses rise along a chain, so no two are the same. */
  predicate Rising(chain: seq<nat>) {
    forall j, k | 0 <= j < k < |chain| :: chain[j] < chain[k]
  }

  lemma OrderedRises(heap: Heap, chain: seq<nat>)
    requires Mapped(heap, chain) && Ordered(Items(heap, chain))
    ensures Rising(chain)
  {
    assert forall k | 0 <= k < |chain| :: Items(heap, chain)[k].id == chain[k];
  }

  /** Entries whose fields but for the link are the same make the same items. */
  predicate SameFields(heap: Heap, heap': Heap, p: nat) {
    p in heap && p in heap' && heap'[p].(next := 0) == heap[p].(next := 0)
  }

  lemma {:induction false} SameItems(heap: Heap, heap': Heap, chain: seq<nat>)
    requires forall k | 0 <= k < |chain| :: SameFields(heap, heap', chain[k])
    ensures Mapped(heap, chain) && Mapped(heap', chain) && Items(heap', chain) == Items(heap, chain)
  {
    assert forall k | 0 <= k < |chain| :: chain[k] in heap && chain[k] in heap';
    forall k | 0 <= k < |chain|
      ensures Items(heap', chain)[k] == Items(heap, chain)[k]
    {
      assert SameFields(heap, heap', chain[k]);
    }
  }

  lemma {:induction false} ItemsJoin(heap: Heap, a: seq<nat>, b: seq<nat>)
    requires Mapped(heap, a) && Mapped(heap, b)
    ensures Mapped(heap, a + b) && Items(heap, a + b) == Items(heap, a) + Items(heap, b)
  {
  }

  lemma AppendedLinks(heap: Heap, head: nat, chain: seq<nat>, p: nat, heap': Heap, head': nat)
    requires Leads(heap, head, chain, 0) && Rising(chain) && Mapped(heap, chain) && p != 0 && p in heap
    requires heap[p].next == 0 && p !in chain
    requires if chain == [] then head' == p && heap' == heap else
             head' == head && var last := chain[|chain| - 1]; heap' == heap[last := heap[last].(next := p)]
    ensures Leads(heap', head', chain + [p], 0)
  {
    if chain != [] { LeadsElsewhere(heap, head, chain, 0, p); }
    LeadsFurther(heap', head', chain, p);
  }

  lemma OrderedAppend(b: Bucket, x: Item)
    requires Ordered(b) && Find(b, x.sockid) == -1 && forall k | 0 <= k < |b| :: b[k].id < x.id
    ensures Ordered(b + [x])
  {
  }

  /** The chain after a new entry p, at the highest address so far, is hung on its end. */
  lemma Appended(heap: Heap, head: nat, chain: seq<nat>, i: nat, p: nat, heap': Heap, head': nat)
    requires ChainOk(heap, head, chain, i, p) && p != 0 && p in heap && heap[p].next == 0 && Hash(heap[p].sockid) == i
    requires heap[p].data != 0
    requires Find(Items(heap, chain), heap[p].sockid) == -1
    requires if chain == [] then head' == p && heap' == heap else
             head' == head && var last := chain[|chain| - 1]; heap' == heap[last := heap[last].(next := p)]
    ensures ChainOk(heap', head', chain + [p], i, p + 1)
    ensures Items(heap', chain + [p]) == Items(heap, chain) + [ItemAt(heap, p)]
  {
    hide Hash, Leads, Items;
    OrderedRises(heap, chain);
    AppendedLinks(heap, head, chain, p, heap', head');
    SameItems(heap, heap', chain + [p]);
    ItemsJoin(heap, chain, [p]);
    OnlyItem(heap, p);
    OrderedAppend(Items(heap, chain), ItemAt(heap, p));
  }

  lemma OnlyItem(heap: Heap, p: nat)
    requires p in heap
    ensures Items(heap, [p]) == [ItemAt(heap, p)]
  {
  }

  lemma UnlinkedLinks(heap: Heap, head: nat, chain: seq<nat>, k: nat, heap': Heap, head': nat)
    requires Leads(heap, head, chain, 0) && Rising(chain) && Mapped(heap, chain) && k < |chain|
    requires var p := chain[k];
      if k == 0 then head' == heap[p].next && heap' == heap - {p}
      else var q := chain[k - 1]; head' == head && heap' == heap[q := heap[q].(next := heap[p].next)] - {p}
    ensures Leads(heap', head', chain[..k] + chain[k + 1..], 0)
  {
    hide Leads, Rising;
    var p, a, b := chain[k], chain[..k], chain[k + 1..];
    LeadsSplit(heap, head, chain, 0, k);
    assert chain == a + [p] + b;
    RisingParts(a, p, b, chain);
    WayAround(heap, head, a, p, b, heap', head');
  }

  /** The way over a and p to b, without p. */
  lemma WayAround(heap: Heap, head: nat, a: seq<nat>, p: nat, b: seq<nat>, heap': Heap, head': nat)
    requires Leads(heap, head, a, p) && p in heap && Leads(heap, heap[p].next, b, 0) && Mapped(heap, a)
    requires Mapped(heap, b) && Rising(a)
    requires (forall k | 0 <= k < |a| :: a[k] < p) && (forall k | 0 <= k < |b| :: p < b[k])
    requires if a == [] then head' == heap[p].next && heap' == heap - {p}
             else var q := a[|a| - 1]; head' == head && heap' == heap[q := heap[q].(next := heap[p].next)] - {p}
    ensures Leads(heap', head', a + b, 0)
  {
    hide Leads;
    var next := heap[p].next;
    LeadsFrame(heap, heap', next, b, 0);
    if a == [] {
      assert a + b == b;
    } else {
      LeadsElsewhere(heap, head, a, p, next);
      var q := a[|a| - 1];
      LeadsFrame(heap[q := heap[q].(next := next)], heap', head, a, next);
      LeadsJoin(heap', head, a, next, b, 0);
    }
  }

  lemma OrderedRemove(b: Bucket, k: nat)
    requires Ordered(b) && k < |b|
    ensures Ordered(b[..k] + b[k + 1..])
  {
    var t := b[..k] + b[k + 1..];
    assert forall j | 0 <= j < |t| :: t[j] == b[if j < k then j else j + 1];
  }

  /** The chain after its k-th entry is unlinked and freed. */
  lemma Unlinked(heap: Heap, head: nat, chain: seq<nat>, i: nat, brk: nat, k: nat, heap': Heap, head': nat)
    requires ChainOk(heap, head, chain, i, brk) && k < |chain|
    requires var p := chain[k];
      if k == 0 then head' == heap[p].next && heap' == heap - {p}
      else var q := chain[k - 1]; head' == head && heap' == heap[q := heap[q].(next := heap[p].next)] - {p}
    ensures ChainOk(heap', head', chain[..k] + chain[k + 1..], i, brk)
    ensures Items(heap', chain[..k] + chain[k + 1..]) == Items(heap, chain)[..k] + Items(heap, chain)[k + 1..]
  {
    hide Hash, Leads, Items;
    OrderedRises(heap, chain);
    UnlinkedLinks(heap, head, chain, k, heap', head');
    var t := chain[..k] + chain[k + 1..];
    assert forall j | 0 <= j < |t| :: t[j] == chain[if j < k then j else j + 1];
    SameItems(heap, heap', t);
    ItemsSplit(heap, chain, k);
    ItemsJoin(heap, chain[..k], chain[k + 1..]);
    OrderedRemove(Items(heap, chain), k);
  }

  lemma ItemsSplit(heap: Heap, chain: seq<nat>, k: nat)
    requires Mapped(heap, chain) && k < |chain|
    ensures Mapped(heap, chain[..k]) && Mapped(heap, chain[k + 1..])
    ensures Items(heap, chain[..k]) == Items(heap, chain)[..k]
    ensures Items(heap, chain[k + 1..]) == Items(heap, chain)[k + 1..]
  {
  }

  // ---------------------------------------------------------------- the store

  datatype Net = Net(uid: nat, active: bool)

  const NET_ENTRIES: nat := 1024

  /** The socket of an entry is not in use: looked up by descriptor, or by id where the descriptor is out of range. */
  predicate SocketGone(netInfo: seq<Net>, extra: map<nat, Net>, sockid: nat, sockfd: int)
    requires |netInfo| == NET_ENTRIES
  {
    if sockfd < 0 || sockfd >= NET_ENTRIES then
      sockid !in extra || extra[sockid].uid != sockid || !extra[sockid].active
    else
      netInfo[sockfd].uid != sockid || !netInfo[sockfd].active
  }

  function NowOf(count: nat, emptied: bool, cbufSize: nat, netInfo: seq<Net>, extra: map<nat, Net>): Now
    requires |netInfo| == NET_ENTRIES
  {
    Now(count, emptied, cbufSize, (s: nat, f: int) => SocketGone(netInfo, extra, s, f))
  }

  function AllItems(heap: Heap, chains: seq<seq<nat>>): (bs: seq<Bucket>)
    requires forall i | 0 <= i < |chains| :: Mapped(heap, chains[i])
    ensures |bs| == |chains| && forall i | 0 <= i < |chains| :: bs[i] == Items(heap, chains[i])
  {
    if chains == [] then [] else [Items(heap, chains[0])] + AllItems(heap, chains[1..])
  }

  class Store {
    const table: array<nat>
    const cbufSize: nat
    var heap: Heap
    var brk: nat                       // the next address malloc gives out
    var freed: Bucket                  // entries whose data went to freeData, in order
    var totalSaves: nat
    var totalDeletes: nat
    var totalExpires: nat
    var maxListLen: nat
    ghost var chains: seq<seq<nat>>

    ghost predicate Valid()
      reads this`heap, this`brk, this`chains, table
    {
      && table.Length == |chains| == HASH_TABLE_SIZE && brk > 0 && (forall p | p in heap :: p < brk)
      && forall i | 0 <= i < HASH_TABLE_SIZE :: ChainOk(heap, table[i], chains[i], i, brk)
    }

    ghost function Bucket(i: nat): Bucket
      requires Valid() && i < HASH_TABLE_SIZE
      reads this`heap, this`brk, this`chains, table
    {
      Items(heap, chains[i])
    }

    ghost function Buckets(): (bs: seq<Bucket>)
      requires Valid()
      reads this`heap, this`brk, this`chains, table
      ensures |bs| == HASH_TABLE_SIZE && forall i | 0 <= i < HASH_TABLE_SIZE :: bs[i] == Bucket(i)
    {
      AllItems(heap, chains)
    }

    constructor (cbufSize: nat)
      ensures Valid() && fresh(table) && freed == [] && this.cbufSize == cbufSize && brk == 1
      ensures forall i | 0 <= i < HASH_TABLE_SIZE :: Bucket(i) == []
    {
      table := new nat[HASH_TABLE_SIZE](_ => 0);
      this.cbufSize := cbufSize;
      heap, brk, freed, totalSaves, totalDeletes, totalExpires, maxListLen := map[], 1, [], 0, 0, 0, 0;
      chains := seq(HASH_TABLE_SIZE, i => []);
    }

    /** storeGet: the data saved for the socket, or 0. */
    method Get(sockid: nat) returns (data: nat)
      requires Valid()
      ensures data == Lookup(Bucket(Hash(sockid)), sockid)
    {
      hide Hash, Items, ChainOk;
      var _, p := Walk(Hash(sockid), brk, sockid);
      data := if p == 0 then 0 else heap[p].data;
    }

    /** The walk along chain h up to the entry for the socket, or to the end. */
    method Walk(h: nat, ghost bound: nat, sockid: nat) returns (previous: nat, current: nat)
      requires table.Length == |chains| == HASH_TABLE_SIZE && h < HASH_TABLE_SIZE
      requires ChainOk(heap, table[h], chains[h], h, bound)
      ensures var chain := chains[h]; var k := Stop(Items(heap, chain), sockid);
        && current == (if k == |chain| then 0 else chain[k]) && (current == 0 <==> k == |chain|)
        && previous == (if k == 0 then 0 else chain[k - 1]) && (previous == 0 <==> k == 0)
    {
      hide Hash, Items, ChainOk, Leads;
      ghost var chain, b, k := chains[h], Items(heap, chains[h]), 0;
      ChainFacts(heap, table[h], chain, h, bound);
      previous, current := 0, table[h];
      assert chain[0..] == chain;
      while current != 0
        invariant 0 <= k <= |chain| && Leads(heap, current, chain[k..], 0)
        invariant forall j | 0 <= j < k :: b[j].sockid != sockid
        invariant previous == if k == 0 then 0 else chain[k - 1]
        decreases |chain| - k
      {
        LeadsStep(heap, current, chain, k);
        assert b[k] == ItemAt(heap, current);
        if heap[current].sockid == sockid { return; }
        previous, current, k := current, heap[current].next, k + 1;
      }
      LeadsStep(heap, current, chain, k);
    }

    /** addHashTableItemToList: to the end, unless there is one for the socket already. */
    method AddToList(h: nat, p: nat) returns (added: bool)
      requires table.Length == |chains| == HASH_TABLE_SIZE && h < HASH_TABLE_SIZE
      requires ChainOk(heap, table[h], chains[h], h, p)
      requires p > 0 && p in heap && heap[p].next == 0 && Hash(heap[p].sockid) == h && heap[p].data != 0
      modifies this`heap, this`chains, table
      ensures added <==> Find(old(Items(heap, chains[h])), old(heap)[p].sockid) == -1
      ensures !added ==> heap == old(heap) && chains == old(chains) && table[..] == old(table[..])
      ensures added ==>
                && |chains| == HASH_TABLE_SIZE && ChainOk(heap, table[h], chains[h], h, p + 1)
                && Elsewhere(old(heap), heap, h)
      ensures added ==> Items(heap, chains[h]) == old(Items(heap, chains[h])) + [old(ItemAt(heap, p))]
      ensures forall i | 0 <= i < HASH_TABLE_SIZE && i != h :: table[i] == old(table[i]) && chains[i] == old(chains[i])
      ensures heap.Keys == old(heap.Keys)
    {
      hide Hash, Items, ChainOk, Leads;
      ghost var chain := chains[h];
      ChainFacts(heap, table[h], chain, h, p);
      var previous, current := Walk(h, p, heap[p].sockid);
      if current != 0 { return false; }
      added := true;
      if previous == 0 {
        table[h] := p;
      } else {
        heap := heap[previous := heap[previous].(next := p)];
      }
      Appended(old(heap), old(table[h]), chain, h, p, heap, table[h]);
      chains := chains[h := chain + [p]];
    }

    /** Addresses only rise; each operation uses one up, whether it allocates or not. */
    method NextAddress()
      requires Valid()
      modifies this`brk
      ensures Valid() && brk == old(brk) + 1 && forall i | 0 <= i < HASH_TABLE_SIZE :: Bucket(i) == old(Bucket(i))
    {
      hide Hash, Items, ChainOk, Leads;
      brk := brk + 1;
      forall i | 0 <= i < HASH_TABLE_SIZE ensures ChainOk(heap, table[i], chains[i], i, brk) {
        ChainFacts(heap, table[i], chains[i], i, brk - 1);
        Untouched(heap, heap, table[i], chains[i], i, brk - 1, brk);
      }
    }

    /** storeSave */
    method Save(data: nat, sockid: nat, sockfd: int) returns (ok: bool)
      requires Valid()
      modifies this`heap, this`brk, this`chains, this`totalSaves, table
      ensures Valid()
      ensures forall i | 0 <= i < HASH_TABLE_SIZE ::
                Bucket(i) == Apply(i, old(Bucket(i)), HttpMatch.Save(sockid, sockfd, data), old(brk))
      ensures ok <==> data != 0 && Find(old(Bucket(Hash(sockid))), sockid) == -1
      ensures brk == old(brk) + 1
    {
      hide Hash, Items, ChainOk, Leads;
      if data == 0 {
        NextAddress();
        return false;
      }
      var h, p := Hash(sockid), brk;
      brk := brk + 1;
      ghost var heap0 := heap;
      heap := heap[p := Node(sockid, sockfd, data, 0, 0)];
      ghost var heap1 := heap;
      forall i | 0 <= i < HASH_TABLE_SIZE
        ensures ChainOk(heap1, table[i], chains[i], i, p) && Items(heap1, chains[i]) == Items(heap0, chains[i])
      {
        ChainFacts(heap0, table[i], chains[i], i, p);
        Untouched(heap0, heap1, table[i], chains[i], i, p, p);
      }
      ok := AddToList(h, p);
      if !ok {
        heap := heap - {p};
        forall i | 0 <= i < HASH_TABLE_SIZE
          ensures ChainOk(heap, table[i], chains[i], i, brk) && Items(heap, chains[i]) == Items(heap0, chains[i])
        {
          ChainFacts(heap1, table[i], chains[i], i, p);
          Untouched(heap1, heap, table[i], chains[i], i, p, brk);
        }
      } else {
        totalSaves := totalSaves + 1;
        forall i | 0 <= i < HASH_TABLE_SIZE && i != h
          ensures ChainOk(heap, table[i], chains[i], i, brk) && Items(heap, chains[i]) == Items(heap0, chains[i])
        {
          OtherChain(heap1, heap, table[i], chains[i], i, h, p, brk);
        }
      }
    }

    /** deleteHashTableItem, of an entry that is no longer linked. */
    method DeleteItem(p: nat)
      requires p in heap && heap[p].data != 0
      modifies this`heap, this`freed
      ensures heap == old(heap) - {p} && freed == old(freed) + [ItemAt(old(heap), p)]
    {
      if heap[p].data != 0 {
        freed := freed + [Item(p, heap[p].sockid, heap[p].sockfd, heap[p].data, heap[p].circBufCount)];
      }
      heap := heap - {p};
    }

    /** storeDelete */
    method Delete(sockid: nat) returns (ok: bool)
      requires Valid()
      modifies this`heap, this`brk, this`chains, this`freed, this`totalDeletes, table
      ensures Valid() && ok && brk == old(brk) + 1
      ensures forall i | 0 <= i < HASH_TABLE_SIZE ::
                Bucket(i) == Apply(i, old(Bucket(i)), HttpMatch.Delete(sockid), old(brk))
      ensures freed == old(freed) + Frees(Hash(sockid), old(Bucket(Hash(sockid))), HttpMatch.Delete(sockid))
    {
      hide Hash, Items, ChainOk, Leads, Find, Ordered;
      var h := Hash(sockid);
      var previous, current := Walk(h, brk, sockid);
      if current != 0 {
        UnlinkAt(h, previous, current, Stop(Bucket(h), sockid));
        totalDeletes := totalDeletes + 1;
      }
      NextAddress();
      return true;
    }

    /** Take the k-th entry out of chain h and delete it. */
    method UnlinkAt(h: nat, previous: nat, current: nat, ghost k: nat)
      requires Valid() && h < HASH_TABLE_SIZE && k < |chains[h]|
      requires current == chains[h][k] && previous == if k == 0 then 0 else chains[h][k - 1]
      modifies this`heap, this`chains, this`freed, table
      ensures Valid() && Bucket(h) == old(Bucket(h))[..k] + old(Bucket(h))[k + 1..]
      ensures forall i | 0 <= i < HASH_TABLE_SIZE && i != h :: Bucket(i) == old(Bucket(i))
      ensures freed == old(freed) + [old(Bucket(h))[k]]
    {
      hide Hash, Items, ChainOk, Leads;
      ghost var chain, heap0 := chains[h], heap;
      ChainFacts(heap, table[h], chain, h, brk);
      var next := heap[current].next;
      if previous == 0 {
        table[h] := next;
      } else {
        heap := heap[previous := heap[previous].(next := next)];
      }
      DeleteItem(current);
      Unlinked(heap0, old(table[h]), chain, h, brk, k, heap, table[h]);
      chains := chains[h := chain[..k] + chain[k + 1..]];
      forall i | 0 <= i < HASH_TABLE_SIZE && i != h
        ensures ChainOk(heap, table[i], chains[i], i, brk) && Items(heap, chains[i]) == Items(heap0, chains[i])
      {
        OtherChain(heap0, heap, table[i], chains[i], i, h, brk, brk);
      }
    }

    /** Link around an entry that expires, and delete it. */
    method Unhook(i: nat, previous: nat, current: nat)
      requires i < table.Length && current in heap && heap[current].data != 0 && previous != current
      requires previous != 0 ==> previous in heap
      modifies this`heap, this`freed, this`totalExpires, table
      ensures previous == 0 ==> heap == old(heap) - {current} && table[i] == old(heap)[current].next
      ensures previous != 0 ==>
                && heap == old(heap)[previous := old(heap)[previous].(next := old(heap)[current].next)] - {current}
                && table[i] == old(table[i])
      ensures forall j | 0 <= j < table.Length && j != i :: table[j] == old(table[j])
      ensures freed == old(freed) + [ItemAt(old(heap), current)]
    {
      var next := heap[current].next;
      if previous == 0 {
        table[i] := next;
      } else {
        heap := heap[previous := heap[previous].(next := next)];
      }
      totalExpires := totalExpires + 1;
      DeleteItem(current);
    }

    /** The pass of storeExpire over chain i. */
    method ExpireChain(i: nat, now: Now)
      requires Valid() && i < HASH_TABLE_SIZE
      modifies this`heap, this`chains, this`freed, this`totalExpires, this`maxListLen, table
      ensures Valid() && Bucket(i) == Expired(old(Bucket(i)), now)
      ensures forall j | 0 <= j < HASH_TABLE_SIZE && j != i :: Bucket(j) == old(Bucket(j))
      ensures freed == old(freed) + Freed(old(Bucket(i)), now)
    {
      hide Hash, Items, ChainOk, Leads, Sweep, Freed, Elsewhere, Sweeping, NodeOk, Ordered, Expired;
      ghost var heap0, rest: seq<nat>, acc: seq<nat> := heap, chains[i], [];
      ghost var b := Bucket(i);
      SweepStart(heap, table[i], rest, i, brk);
      assert [] + Freed(b, now) == Freed(b, now);
      var previous, current, listLen := 0, table[i], 0;
      while current != 0
        invariant chains == old(chains) && table.Length == HASH_TABLE_SIZE
        invariant Sweeping(heap, table[i], acc, previous, current, rest, i, brk)
        invariant Sweep(Items(heap, rest), Items(heap, acc), previous == 0, now) == Expired(b, now)
        invariant freed + Freed(Items(heap, rest), now) == old(freed) + Freed(b, now)
        invariant Elsewhere(heap0, heap, i) && (forall p | p in heap :: p < brk)
        invariant forall j | 0 <= j < HASH_TABLE_SIZE && j != i :: table[j] == old(table[j])
        decreases |rest|
      {
        SweepAt(heap, table[i], acc, previous, current, rest, i, brk, now);
        ghost var was, head := heap, table[i];
        var next := heap[current].next;
        var node := heap[current];
        var circBufHasWrapped := (node.circBufCount + now.cbufSize) % WORD < now.count;
        if node.circBufCount != 0 && (now.emptied || circBufHasWrapped) {
          Unhook(i, previous, current);
          SweepUnlinks(was, head, acc, previous, current, rest, i, brk, heap);
          ElsewhereStep(heap0, was, heap, i);
          acc := if previous == 0 then [] else acc;
          previous := 0;
        } else {
          if now.gone(node.sockid, node.sockfd) && node.circBufCount == 0 {
            heap := heap[current := node.(circBufCount := now.count)];
          }
          SweepKeeps(was, head, acc, previous, current, rest, i, brk, heap, now);
          ElsewhereStep(heap0, was, heap, i);
          acc := acc + [current];
          previous := current;
        }
        current, rest := next, rest[1..];
        listLen := listLen + 1;
      }
      SweepEnd(heap, table[i], acc, previous, current, rest, i, brk, b, now);
      chains := chains[i := acc];
      if listLen > maxListLen { maxListLen := listLen; }
      forall j | 0 <= j < HASH_TABLE_SIZE && j != i
        ensures ChainOk(heap, table[j], chains[j], j, brk) && Items(heap, chains[j]) == Items(heap0, chains[j])
      {
        OtherChain(heap0, heap, table[j], chains[j], j, i, brk, brk);
      }
    }

    /** storeExpire: every chain is swept. */
    method Expire(count: nat, emptied: bool, netInfo: seq<Net>, extra: map<nat, Net>) returns (ok: bool)
      requires Valid() && |netInfo| == NET_ENTRIES
      modifies this`heap, this`brk, this`chains, this`freed, this`totalExpires, this`maxListLen, table
      ensures Valid() && ok && brk == old(brk) + 1
      ensures var now := NowOf(count, emptied, cbufSize, netInfo, extra);
        && (forall i | 0 <= i < HASH_TABLE_SIZE :: Bucket(i) == Expired(old(Bucket(i)), now))
        && freed == old(freed) + FreedBelow(old(Buckets()), HASH_TABLE_SIZE, now)
    {
      hide Hash, Items, ChainOk, Sweep, Freed, Expired, NowOf, Mapped, FreedBelow, AllItems;
      var now := NowOf(count, emptied, cbufSize, netInfo, extra);
      ghost var bs := Buckets();
      FreedNext(bs, 0, now);
      var i := 0;
      while i < HASH_TABLE_SIZE
        invariant 0 <= i <= HASH_TABLE_SIZE && Valid() && brk == old(brk)
        invariant forall j | 0 <= j < HASH_TABLE_SIZE :: Bucket(j) == if j < i then Expired(bs[j], now) else bs[j]
        invariant freed == old(freed) + FreedBelow(bs, i, now)
      {
        ExpireChain(i, now);
        FreedNext(bs, i, now);
        assert old(freed) + FreedBelow(bs, i, now) + Freed(bs[i], now) ==
          old(freed) + (FreedBelow(bs, i, now) + Freed(bs[i], now));
        i := i + 1;
      }
      NextAddress();
      ok := true;
    }
  }

  function FreedBelow(bs: seq<Bucket>, n: nat, now: Now): Bucket
    requires n <= |bs|
  {
    if n == 0 then [] else FreedBelow(bs, n - 1, now) + Freed(bs[n - 1], now)
  }

  lemma FreedNext(bs: seq<Bucket>, i: nat, now: Now)
    requires i < |bs|
    ensures FreedBelow(bs, 0, now) == [] && FreedBelow(bs, i + 1, now) == FreedBelow(bs, i, now) + Freed(bs[i], now)
  {
  }

  // ---------------------------------------------------------------- the sweep

  predicate NodeOk(heap: Heap, p: nat, i: nat, brk: nat) {
    0 < p < brk && p in heap && Hash(heap[p].sockid) == i && heap[p].data != 0
  }

  /**
   * From the head over `acc` to the current entry, and from there over `rest` to the end; the previous entry, if any,
   * is the last of acc.
   */
  predicate Sweeping(heap: Heap, head: nat, acc: seq<nat>, previous: nat, current: nat, rest: seq<nat>, i: nat,
      brk: nat): (ok: bool)
    ensures ok ==> Mapped(heap, acc) && Mapped(heap, rest)
  {
    && Leads(heap, head, acc, current) && Leads(heap, current, rest, 0) && Rising(acc + rest)
    && (forall k | 0 <= k < |acc| :: NodeOk(heap, acc[k], i, brk))
    && (forall k | 0 <= k < |rest| :: NodeOk(heap, rest[k], i, brk))
    && (previous == 0 || (acc != [] && previous == acc[|acc| - 1]))
  }

  lemma SweepStart(heap: Heap, head: nat, chain: seq<nat>, i: nat, brk: nat)
    requires ChainOk(heap, head, chain, i, brk)
    ensures Sweeping(heap, head, [], 0, head, chain, i, brk) && Items(heap, []) == [] && Ordered(Items(heap, chain))
    ensures forall now: Now :: Sweep(Items(heap, chain), [], true, now) == Expired(Items(heap, chain), now)
    ensures Elsewhere(heap, heap, i)
  {
    ChainFacts(heap, head, chain, i, brk);
    assert [] + chain == chain;
  }

  /** The current entry, and what the sweep does with it. */
  lemma SweepAt(heap: Heap, head: nat, acc: seq<nat>, previous: nat, current: nat, rest: seq<nat>, i: nat, brk: nat,
      now: Now)
    requires Sweeping(heap, head, acc, previous, current, rest, i, brk) && current != 0
    ensures rest != [] && current in heap && heap[current].data != 0 && previous != current
    ensures previous != 0 ==> previous in heap
    ensures var b, kept, x := Items(heap, rest), Items(heap, acc), ItemAt(heap, current);
      && b[0] == x
      && Sweep(b, kept, previous == 0, now) == (
           if Expires(x, now) then Sweep(b[1..], if previous == 0 then [] else kept, true, now)
           else Sweep(b[1..], kept + [Stamped(x, now)], false, now))
      && Freed(b, now) == (if Expires(x, now) then [x] else []) + Freed(b[1..], now)
  {
    SweepingTail(heap, head, acc, previous, current, rest, i, brk);
  }

  lemma ItemsTail(heap: Heap, chain: seq<nat>)
    requires Mapped(heap, chain) && chain != []
    ensures Mapped(heap, chain[1..]) && Items(heap, chain[1..]) == Items(heap, chain)[1..]
  {
  }

  lemma SweepingTail(heap: Heap, head: nat, acc: seq<nat>, previous: nat, current: nat, rest: seq<nat>, i: nat,
      brk: nat)
    requires Sweeping(heap, head, acc, previous, current, rest, i, brk) && current != 0
    ensures rest != [] && rest[0] == current && current in heap && Leads(heap, heap[current].next, rest[1..], 0)
    ensures Rising(acc) && Rising(rest[1..]) && Rising(acc + rest[1..]) && Rising(acc + [current] + rest[1..])
    ensures (forall k | 0 <= k < |acc| :: acc[k] < current) && forall k | 0 <= k < |rest[1..]| :: current < rest[1..][k]
    ensures forall j, k | 0 <= j < |acc| && 0 <= k < |rest[1..]| :: acc[j] < rest[1..][k]
    ensures forall k | 0 <= k < |rest[1..]| :: NodeOk(heap, rest[1..][k], i, brk)
  {
    hide Hash;
    assert acc + rest == acc + [current] + rest[1..];
    RisingParts(acc, current, rest[1..], acc + rest);
  }

  lemma RisingPieces(a: seq<nat>, c: nat, t: seq<nat>, all: seq<nat>)
    requires all == a + [c] + t && Rising(all)
    ensures Rising(a) && Rising(t)
    ensures (forall k | 0 <= k < |a| :: a[k] < c) && forall k | 0 <= k < |t| :: c < t[k]
    ensures forall j, k | 0 <= j < |a| && 0 <= k < |t| :: a[j] < t[k]
  {
    var n := |a|;
    assert all[n] == c;
    assert forall k | 0 <= k < n :: a[k] == all[k];
    assert forall k | 0 <= k < |t| :: t[k] == all[n + 1 + k];
  }

  lemma RisingJoin(a: seq<nat>, t: seq<nat>)
    requires Rising(a) && Rising(t) && forall j, k | 0 <= j < |a| && 0 <= k < |t| :: a[j] < t[k]
    ensures Rising(a + t)
  {
    var n, all := |a|, a + t;
    forall j, k | 0 <= j < k < |all| ensures all[j] < all[k] {
      if n <= j { assert all[j] == t[j - n] && all[k] == t[k - n]; }
      else if n <= k { assert all[j] == a[j] && all[k] == t[k - n]; }
    }
  }

  lemma RisingParts(a: seq<nat>, c: nat, t: seq<nat>, all: seq<nat>)
    requires all == a + [c] + t && Rising(all)
    ensures Rising(a) && Rising(t) && Rising(a + t) && Rising(a + [c] + t)
    ensures (forall k | 0 <= k < |a| :: a[k] < c) && forall k | 0 <= k < |t| :: c < t[k]
    ensures forall j, k | 0 <= j < |a| && 0 <= k < |t| :: a[j] < t[k]
  {
    RisingPieces(a, c, t, all);
    RisingJoin(a, t);
  }

  lemma SweepUnlinks(heap: Heap, head: nat, acc: seq<nat>, previous: nat, current: nat, rest: seq<nat>, i: nat,
      brk: nat, heap': Heap)
    requires Sweeping(heap, head, acc, previous, current, rest, i, brk) && current != 0 && current in heap && rest != []
    requires previous == 0 ==> heap' == heap - {current}
    requires previous != 0 ==>
              previous in heap && heap' == heap[previous := heap[previous].(next := heap[current].next)] - {current}
    ensures var head', acc' := if previous == 0 then heap[current].next else head, if previous == 0 then [] else acc;
      && Sweeping(heap', head', acc', 0, heap[current].next, rest[1..], i, brk)
      && Items(heap', acc') == (if previous == 0 then [] else Items(heap, acc))
      && Items(heap', rest[1..]) == Items(heap, rest)[1..]
    ensures Elsewhere(heap, heap', i)
  {
    hide Items, Hash, Rising, Leads;
    var next, t := heap[current].next, rest[1..];
    SweepingTail(heap, head, acc, previous, current, rest, i, brk);
    TailUntouched(heap, current, previous, next, t, i, brk, heap');
    ItemsTail(heap, rest);
    if previous == 0 {
      assert [] + t == t;
      SweepEmpty(heap', next);
    } else {
      AccElsewhere(heap, head, acc, previous, current, rest, i, brk, heap');
      AccUntouched(heap, acc, current, previous, next, i, brk, heap');
    }
  }

  lemma TailUntouched(heap: Heap, current: nat, previous: nat, next: nat, t: seq<nat>, i: nat, brk: nat, heap': Heap)
    requires current in heap && Leads(heap, next, t, 0) && previous < current
    requires forall k | 0 <= k < |t| :: current < t[k] && NodeOk(heap, t[k], i, brk)
    requires previous == 0 ==> heap' == heap - {current}
    requires previous != 0 ==> previous in heap && heap' == heap[previous := heap[previous].(next := next)] - {current}
    ensures Leads(heap', next, t, 0) && forall k | 0 <= k < |t| :: NodeOk(heap', t[k], i, brk)
    ensures Mapped(heap, t) && Items(heap', t) == Items(heap, t)
  {
    hide Items, Hash, Leads;
    assert forall k | 0 <= k < |t| :: t[k] in heap' && heap'[t[k]] == heap[t[k]];
    LeadsFrame(heap, heap', next, t, 0);
    SameItems(heap, heap', t);
  }

  lemma AccUntouched(heap: Heap, acc: seq<nat>, current: nat, previous: nat, next: nat, i: nat, brk: nat, heap': Heap)
    requires previous in heap && heap' == heap[previous := heap[previous].(next := next)] - {current}
    requires forall k | 0 <= k < |acc| :: acc[k] < current && NodeOk(heap, acc[k], i, brk)
    ensures Mapped(heap, acc) && Mapped(heap', acc) && Items(heap', acc) == Items(heap, acc)
    ensures forall k | 0 <= k < |acc| :: NodeOk(heap', acc[k], i, brk)
  {
    hide Items, Hash;
    SameItems(heap, heap', acc);
  }

  lemma SweepEmpty(heap: Heap, p: nat)
    ensures Leads(heap, p, [], p) && Items(heap, []) == []
  {
  }

  lemma AccElsewhere(heap: Heap, head: nat, acc: seq<nat>, previous: nat, current: nat, rest: seq<nat>, i: nat,
      brk: nat, heap': Heap)
    requires Sweeping(heap, head, acc, previous, current, rest, i, brk) && current != 0 && current in heap
    requires previous != 0
    requires previous in heap && heap' == heap[previous := heap[previous].(next := heap[current].next)] - {current}
    ensures Leads(heap', head, acc, heap[current].next)
  {
    var next := heap[current].next;
    SweepingTail(heap, head, acc, previous, current, rest, i, brk);
    hide Leads, Hash;
    LeadsElsewhere(heap, head, acc, current, next);
    LeadsFrame(heap[previous := heap[previous].(next := next)], heap', head, acc, next);
  }

  lemma SweepKeeps(heap: Heap, head: nat, acc: seq<nat>, previous: nat, current: nat, rest: seq<nat>, i: nat,
      brk: nat, heap': Heap, now: Now)
    requires Sweeping(heap, head, acc, previous, current, rest, i, brk) && current != 0 && current in heap && rest != []
    requires heap' == heap[current := heap[current].(circBufCount := Stamped(ItemAt(heap, current), now).stamp)]
    ensures Sweeping(heap', head, acc + [current], current, heap[current].next, rest[1..], i, brk)
    ensures Items(heap', acc + [current]) == Items(heap, acc) + [Stamped(ItemAt(heap, current), now)]
    ensures Items(heap', rest[1..]) == Items(heap, rest)[1..]
    ensures Elsewhere(heap, heap', i)
  {
    hide Leads, Items, Hash, Rising;
    var next, t := heap[current].next, rest[1..];
    SweepingTail(heap, head, acc, previous, current, rest, i, brk);
    LeadsFrame(heap, heap', next, t, 0);
    LeadsFrame(heap, heap', head, acc, current);
    LeadsFurther(heap', head, acc, current);
    SameItems(heap, heap', t);
    SameItems(heap, heap', acc);
    ItemsTail(heap, rest);
    OnlyItem(heap', current);
    ItemsJoin(heap', acc, [current]);
  }

  lemma SweepEnd(heap: Heap, head: nat, acc: seq<nat>, previous: nat, current: nat, rest: seq<nat>, i: nat, brk: nat,
      b: Bucket, now: Now)
    requires Sweeping(heap, head, acc, previous, current, rest, i, brk) && current == 0 && Ordered(b)
    requires Sweep(Items(heap, rest), Items(heap, acc), previous == 0, now) == Expired(b, now)
    ensures ChainOk(heap, head, acc, i, brk) && Items(heap, acc) == Expired(b, now)
    ensures Freed(Items(heap, rest), now) == []
  {
    assert rest == [];
    ExpiredOrdered(b, now);
  }

  lemma ElsewhereStep(heap0: Heap, heap: Heap, heap': Heap, i: nat)
    requires Elsewhere(heap0, heap, i) && Elsewhere(heap, heap', i)
    ensures Elsewhere(heap0, heap', i)
  {
  }

  /** Where a walk stops: at the entry for the socket, or behind the last. */
  function Stop(b: Bucket, sockid: nat): (k: nat)
    ensures k <= |b|
  {
    if Find(b, sockid) == -1 then |b| else Find(b, sockid)
  }

  /** Only entries that hash to i are changed or gone. */
  predicate Elsewhere(heap: Heap, heap': Heap, i: nat) {
    forall p | p in heap && Hash(heap[p].sockid) != i :: p in heap' && heap'[p] == heap[p]
  }

  lemma OtherChain(heap: Heap, heap': Heap, head: nat, chain: seq<nat>, j: nat, i: nat, brk: nat, brk': nat)
    requires ChainOk(heap, head, chain, j, brk) && i != j && Elsewhere(heap, heap', i) && brk <= brk'
    ensures ChainOk(heap', head, chain, j, brk') && Items(heap', chain) == Items(heap, chain)
  {
    hide Hash, Items, Leads;
    Untouched(heap, heap', head, chain, j, brk, brk');
  }

  lemma LeadsStep(heap: Heap, current: nat, chain: seq<nat>, k: nat)
    requires k <= |chain| && Leads(heap, current, chain[k..], 0)
    ensures current == 0 <==> k == |chain|
    ensures k < |chain| ==> current == chain[k] && current in heap && Leads(heap, heap[current].next, chain[k + 1..], 0)
  {
    if k < |chain| { assert chain[k..][1..] == chain[k + 1..]; }
  }

  lemma ChainFacts(heap: Heap, head: nat, chain: seq<nat>, i: nat, brk: nat)
    requires ChainOk(heap, head, chain, i, brk)
    ensures Leads(heap, head, chain, 0) && Mapped(heap, chain) && Rising(chain) && Ordered(Items(heap, chain))
    ensures forall k | 0 <= k < |chain| ::
              0 < chain[k] < brk && Hash(heap[chain[k]].sockid) == i && heap[chain[k]].data != 0
  {
    OrderedRises(heap, chain);
    forall k: nat | k < |chain| ensures chain[k] != 0 { LeadsSplit(heap, head, chain, 0, k); }
  }

  // ---------------------------------------------------------------- runs of the store

  datatype Call =
    | CallSave(data: nat, sockid: nat, sockfd: int)
    | CallDelete(sockid: nat)
    | CallExpire(count: nat, emptied: bool, netInfo: seq<Net>, extra: map<nat, Net>)

  predicate CallOk(c: Call) {
    c.CallExpire? ==> |c.netInfo| == NET_ENTRIES
  }

  function OpOf(c: Call, cbufSize: nat): Op
    requires CallOk(c)
  {
    match c
    case CallSave(data, sockid, sockfd) => Save(sockid, sockfd, data)
    case CallDelete(sockid) => Delete(sockid)
    case CallExpire(count, emptied, netInfo, extra) => Expire(NowOf(count, emptied, cbufSize, netInfo, extra))
  }

  function OpsOf(calls: seq<Call>, cbufSize: nat): (ops: seq<Op>)
    requires forall c | c in calls :: CallOk(c)
    ensures |ops| == |calls| && forall k | 0 <= k < |calls| :: ops[k] == OpOf(calls[k], cbufSize)
  {
    if calls == [] then [] else OpsOf(calls[..|calls| - 1], cbufSize) + [OpOf(calls[|calls| - 1], cbufSize)]
  }

  /** The store is where k operations take its chains, and has freed what they free. */
  ghost predicate Follows(store: Store, ops: seq<Op>, k: nat)
    requires k <= |ops|
    reads store, store.table
  {
    && store.Valid() && store.brk == k + 1 && store.freed == FreedLog(ops, k)
    && forall i | 0 <= i < HASH_TABLE_SIZE :: store.Bucket(i) == BucketAt(i, ops, k)
  }

  lemma {:induction false} FreedByOne(ops: seq<Op>, k: nat, n: nat, h: nat)
    requires k < |ops| && !ops[k].Expire? && (ops[k].Delete? ==> Hash(ops[k].sockid) == h)
    ensures FreedBy(ops, k, n) == if h < n && ops[k].Delete? then FreedAt(h, ops, k) else []
  {
    if n > 0 { FreedByOne(ops, k, n - 1, h); }
  }

  lemma {:induction false} FreedByAll(ops: seq<Op>, k: nat, n: nat, bs: seq<Bucket>)
    requires k < |ops| && ops[k].Expire? && n <= |bs| && forall i | 0 <= i < |bs| :: bs[i] == BucketAt(i, ops, k)
    ensures FreedBy(ops, k, n) == FreedBelow(bs, n, ops[k].now)
  {
    if n > 0 { FreedByAll(ops, k, n - 1, bs); }
  }

  /** One call, whose entry, if it makes one, is told apart by its address. */
  method Do(store: Store, c: Call, ghost ops: seq<Op>, ghost k: nat)
    requires k < |ops| && CallOk(c) && ops[k] == OpOf(c, store.cbufSize) && Follows(store, ops, k)
    modifies store, store.table
    ensures Follows(store, ops, k + 1)
  {
    hide Hash, NowOf, Freed, FreedBy, FreedBelow, Saved, Deleted, Expired, Find, Items, ChainOk;
    match c {
      case CallSave(data, sockid, sockfd) =>
        FreedByOne(ops, k, HASH_TABLE_SIZE, 0);
        var _ := store.Save(data, sockid, sockfd);
      case CallDelete(sockid) =>
        FreedByOne(ops, k, HASH_TABLE_SIZE, Hash(sockid));
        var _ := store.Delete(sockid);
      case CallExpire(count, emptied, netInfo, extra) =>
        FreedByAll(ops, k, HASH_TABLE_SIZE, store.Buckets());
        var _ := store.Expire(count, emptied, netInfo, extra);
    }
  }

  /**
   * Any sequence of calls on a new store leaves the chains, and frees the entries, that the operations on values
   * do, an entry being told apart by its address. So what is proved of every run of those holds of the store: it
   * frees no entry twice, and answers every get as the map does.
   */
  method RunCalls(cbufSize: nat, calls: seq<Call>) returns (store: Store)
    requires forall c | c in calls :: CallOk(c)
    ensures fresh(store) && Follows(store, OpsOf(calls, cbufSize), |calls|)
    ensures DistinctIds(store.freed)
    ensures forall s: nat :: Agrees(store.Bucket(Hash(s)), MapAt(OpsOf(calls, cbufSize), |calls|), s)
  {
    hide Apply, Hash, NowOf, Agrees, MapAt, FreedBy, DistinctIds;
    store := new Store(cbufSize);
    ghost var ops := OpsOf(calls, cbufSize);
    var k := 0;
    while k < |calls|
      invariant 0 <= k <= |calls| && fresh(store) && fresh(store.table) && store.cbufSize == cbufSize
      invariant Follows(store, ops, k)
    {
      Do(store, calls[k], ops, k);
      k := k + 1;
    }
    NothingFreedTwice(ops, |ops|);
    forall s: nat ensures Agrees(store.Bucket(Hash(s)), MapAt(ops, |ops|), s) { StoreIsMap(ops, |ops|, s); }
  }

  /** The datapath has the socket in use: under its descriptor or, when that is out of range, under its id. */
  ghost predicate InUse(netInfo: seq<Net>, extra: map<nat, Net>, sockid: nat, sockfd: int)
    requires |netInfo| == NET_ENTRIES
  {
    exists net: Net ::
      && (if 0 <= sockfd < NET_ENTRIES then net == netInfo[sockfd] else sockid in extra && net == extra[sockid])
      && net.uid == sockid && net.active
  }

  lemma GoneIfNotInUse(netInfo: seq<Net>, extra: map<nat, Net>, sockid: nat, sockfd: int)
    requires |netInfo| == NET_ENTRIES
    ensures SocketGone(netInfo, extra, sockid, sockfd) <==> !InUse(netInfo, extra, sockid, sockfd)
  {
    if 0 <= sockfd < NET_ENTRIES {
      var net := netInfo[sockfd];
      assert net.uid == sockid && net.active ==> InUse(netInfo, extra, sockid, sockfd);
    } else if sockid in extra {
      var net := extra[sockid];
      assert net.uid == sockid && net.active ==> InUse(netInfo, extra, sockid, sockfd);
    }
  }

  /** Over any calls, an entry is freed by expiry only if an earlier expiry found its socket not in use. */
  lemma OnlyUnusedExpire(cbufSize: nat, calls: seq<Call>, i: nat, k: nat, x: Item) returns (j: nat)
    requires (forall c | c in calls :: CallOk(c)) && k < |calls| && calls[k].CallExpire?
    requires x in FreedAt(i, OpsOf(calls, cbufSize), k)
    ensures j < k && calls[j].CallExpire? && |calls[j].netInfo| == NET_ENTRIES
    ensures !InUse(calls[j].netInfo, calls[j].extra, x.sockid, x.sockfd)
  {
    hide FreedAt, SocketGone, InUse;
    var ops := OpsOf(calls, cbufSize);
    ExpiryJustified(i, ops, k, x);
    j :| x.id <= j < k && StampedBy(ops, x, j);
    assert calls[j] in calls;
    GoneIfNotInUse(calls[j].netInfo, calls[j].extra, x.sockid, x.sockfd);
  }
}
