/**
 * Where the strings of src/dbg.c go: which string each line shows after any interleaving, and why a
 * string is freed.
 */
module DbgStrings {
  import opened DbgTable

  // ---------------------------------------------------------------- what has happened for a key

  /** The strings of the calls for a key that have been counted, in the order of their count swaps. */
  ghost function CountedStrings(sched: Schedule, k: nat, key: nat): (r: seq<nat>)
    requires k <= |sched|
    ensures |r| == Number(sched, k, key, Counted)
  {
    if k == 0 then []
    else
      var s, l := At(sched, k - 1), sched[k - 1];
      CountedStrings(sched, k - 1, key) + if Reaches(s, l, key, Counted) then [s.threads[l.tid].str] else []
  }

  /** This step puts a string for the key into its slot. */
  ghost predicate Stores(s: State, l: Label, key: nat)
    requires Shape(s)
  {
    && l.Run? && Busy(s, l.tid) && s.threads[l.tid].key == key && s.threads[l.tid].pc == Swap
    && var th := s.threads[l.tid]; s.lines[th.i].Str(Slot(th.orig)) == th.prev
  }

  /** The numbers of the counted calls that have put their strings into their slots, in that order. */
  ghost function Stored(sched: Schedule, k: nat, key: nat): seq<nat>
    requires k <= |sched|
  {
    if k == 0 then []
    else
      var s, l := At(sched, k - 1), sched[k - 1];
      Stored(sched, k - 1, key) + if Stores(s, l, key) then [s.threads[l.tid].orig] else []
  }

  /** The string put last into slot j, or NULL. */
  ghost function Newest(counted: seq<nat>, stored: seq<nat>, j: nat): nat
    requires forall i | 0 <= i < |stored| :: stored[i] < |counted|
  {
    if stored == [] then NULL
    else
      var n := |stored| - 1;
      if Slot(stored[n]) == j then counted[stored[n]] else Newest(counted, stored[..n], j)
  }

  /** The call has been counted and has not yet put its string into its slot. */
  predicate Writes(th: Thread, key: nat) {
    th.key == key && (th.pc == LoadStr || th.pc == Swap)
  }

  ghost predicate Writing(s: State, key: nat, n: nat) {
    exists t :: t in s.threads && Writes(s.threads[t], key) && s.threads[t].orig == n
  }

  /** prev was in the slot until call number `orig` put its own string there. */
  ghost predicate Replaced(counted: seq<nat>, stored: seq<nat>, orig: nat, prev: nat) {
    exists i: nat, j: nat | i < j < |stored| ::
      && stored[j] == orig && stored[i] < |counted| && counted[stored[i]] == prev && Slot(stored[i]) == Slot(orig)
      && forall m | i < m < j :: Slot(stored[m]) != Slot(orig)
  }

  // ---------------------------------------------------------------- the invariant

  ghost predicate NumbersOk(counted: seq<nat>, stored: seq<nat>) {
    forall i | 0 <= i < |stored| :: stored[i] < |counted|
  }

  ghost predicate WriterOk(counted: seq<nat>, stored: seq<nat>, th: Thread, key: nat) {
    && (Writes(th, key) ==> th.orig < |counted| && counted[th.orig] == th.str && th.orig !in stored)
    && (th.key == key && th.pc == FreePrev && th.prev != NULL ==> Replaced(counted, stored, th.orig, th.prev))
  }

  ghost predicate WritersOk(s: State, counted: seq<nat>, stored: seq<nat>, key: nat) {
    && (forall t | t in s.threads :: WriterOk(counted, stored, s.threads[t], key))
    && (forall t, u | t in s.threads && u in s.threads && t != u
          && Writes(s.threads[t], key) && Writes(s.threads[u], key) ::
          s.threads[t].orig != s.threads[u].orig)
  }

  /** No counted call is forgotten: it is still to write, or has written. */
  ghost predicate NoneForgotten(s: State, counted: seq<nat>, stored: seq<nat>, key: nat) {
    forall n: nat | n < |counted| :: n in stored || Writing(s, key, n)
  }

  ghost predicate LineOk(l: Line, counted: seq<nat>, stored: seq<nat>, key: nat)
    requires NumbersOk(counted, stored)
  {
    && (l.key == key ==>
          l.count == |counted| && l.str0 == Newest(counted, stored, 0) && l.str1 == Newest(counted, stored, 1))
    && (l.key == NULL ==> l.count == 0 && l.str0 == NULL && l.str1 == NULL)
  }

  ghost predicate LinesOk(s: State, counted: seq<nat>, stored: seq<nat>, key: nat)
    requires Shape(s) && NumbersOk(counted, stored)
  {
    && (forall line | 0 <= line < MAX_NUM_LINES :: LineOk(s.lines[line], counted, stored, key))
    && (Absent(s, key) ==> counted == [])
  }

  ghost predicate StoryOk(s: State, counted: seq<nat>, stored: seq<nat>, key: nat)
    requires Shape(s)
  {
    && NumbersOk(counted, stored) && WritersOk(s, counted, stored, key)
    && NoneForgotten(s, counted, stored, key) && LinesOk(s, counted, stored, key)
  }

  // ---------------------------------------------------------------- steps that count or store nothing for the key

  /** Nothing a story speaks of has changed, but that one thread may have moved on, and one line may have a new key. */
  lemma OtherSteps(s: State, s': State, counted: seq<nat>, stored: seq<nat>, key: nat, tid: nat)
    requires Shape(s) && Shape(s') && StoryOk(s, counted, stored, key)
    requires forall t | t != tid ::
               (t in s'.threads <==> t in s.threads) && (t in s.threads ==> s'.threads[t] == s.threads[t])
    requires tid in s'.threads ==>
      var th' := s'.threads[tid];
      && (Writes(th', key) ==>
            && tid in s.threads && Writes(s.threads[tid], key)
            && th'.orig == s.threads[tid].orig && th'.str == s.threads[tid].str)
      && (th'.key == key && th'.pc == FreePrev ==> tid in s.threads && s.threads[tid] == th')
    requires tid in s.threads && Writes(s.threads[tid], key) ==> tid in s'.threads && Writes(s'.threads[tid], key)
    requires LinesOk(s', counted, stored, key)
    ensures StoryOk(s', counted, stored, key)
  {
    hide LinesOk, Replaced, LineOk;
    forall n: nat | n < |counted| && n !in stored ensures Writing(s', key, n) {
      assert Writing(s, key, n);
      var t :| t in s.threads && Writes(s.threads[t], key) && s.threads[t].orig == n;
      assert t in s'.threads && Writes(s'.threads[t], key) && s'.threads[t].orig == n;
    }
  }

  lemma {:induction false} NewestFrom(counted: seq<nat>, stored: seq<nat>, j: nat) returns (i: nat)
    requires NumbersOk(counted, stored) && Newest(counted, stored, j) != NULL
    ensures i < |stored| && Slot(stored[i]) == j && counted[stored[i]] == Newest(counted, stored, j)
    ensures forall m | i < m < |stored| :: Slot(stored[m]) != j
    decreases |stored|
  {
    var n := |stored| - 1;
    if Slot(stored[n]) == j { i := n; } else { i := NewestFrom(counted, stored[..n], j); }
  }

  lemma ReplacedLater(counted: seq<nat>, stored: seq<nat>, orig: nat, prev: nat, c: seq<nat>, t: seq<nat>)
    requires Replaced(counted, stored, orig, prev)
    ensures Replaced(counted + c, stored + t, orig, prev)
  {
    var i: nat, j: nat :| i < j < |stored| && stored[j] == orig && stored[i] < |counted| && counted[stored[i]] == prev
      && Slot(stored[i]) == Slot(orig) && forall m | i < m < j :: Slot(stored[m]) != Slot(orig);
    var counted', stored' := counted + c, stored + t;
    assert stored'[j] == orig && stored'[i] == stored[i] && counted'[stored[i]] == prev;
    assert forall m | i < m < j :: stored'[m] == stored[m];
  }

  lemma {:induction false} NewestMore(counted: seq<nat>, stored: seq<nat>, j: nat, c: seq<nat>)
    requires NumbersOk(counted, stored)
    ensures NumbersOk(counted + c, stored) && Newest(counted + c, stored, j) == Newest(counted, stored, j)
    decreases |stored|
  {
    if stored != [] { NewestMore(counted, stored[..|stored| - 1], j, c); }
  }

  // ---------------------------------------------------------------- a call is counted

  lemma CountLines(s: State, s': State, counted: seq<nat>, stored: seq<nat>, key: nat, i: nat, str: nat)
    requires Shape(s) && Shape(s') && KeysOk(s) && i < MAX_NUM_LINES && key != NULL && NumbersOk(counted, stored)
    requires LinesOk(s, counted, stored, key) && s.lines[i].key == key
    requires s'.lines == s.lines[i := s.lines[i].(count := |counted| + 1)]
    ensures NumbersOk(counted + [str], stored) && LinesOk(s', counted + [str], stored, key)
  {
    hide Newest;
    NewestMore(counted, stored, 0, [str]);
    NewestMore(counted, stored, 1, [str]);
    forall line | 0 <= line < MAX_NUM_LINES ensures LineOk(s'.lines[line], counted + [str], stored, key) {
      assert LineOk(s.lines[line], counted, stored, key);
    }
    assert s'.lines[i].key == key;
  }

  lemma CountWriters(s: State, s': State, counted: seq<nat>, stored: seq<nat>, key: nat, tid: nat)
    requires NumbersOk(counted, stored) && WritersOk(s, counted, stored, key) && NoneForgotten(s, counted, stored, key)
    requires tid in s.threads && s.threads[tid].key == key && s.threads[tid].pc == Bump
    requires s.threads[tid].orig == |counted|
    requires s'.threads == s.threads[tid := s.threads[tid].(pc := LoadStr)]
    ensures var counted' := counted + [s.threads[tid].str];
            WritersOk(s', counted', stored, key) && NoneForgotten(s', counted', stored, key)
  {
    hide Replaced;
    var counted' := counted + [s.threads[tid].str];
    forall t | t in s'.threads ensures WriterOk(counted', stored, s'.threads[t], key) {
      if t != tid {
        var th := s.threads[t];
        assert WriterOk(counted, stored, th, key);
        if Replaced(counted, stored, th.orig, th.prev) {
          ReplacedLater(counted, stored, th.orig, th.prev, [s.threads[tid].str], []);
          assert stored + [] == stored;
        }
      }
    }
    forall n: nat | n < |counted'| && n !in stored ensures Writing(s', key, n) {
      if n == |counted| {
        assert Writes(s'.threads[tid], key) && s'.threads[tid].orig == n;
      } else {
        assert Writing(s, key, n);
        var t :| t in s.threads && Writes(s.threads[t], key) && s.threads[t].orig == n;
        assert t in s'.threads && Writes(s'.threads[t], key) && s'.threads[t].orig == n;
      }
    }
  }

  // ---------------------------------------------------------------- a string is stored

  lemma NewestPushed(counted: seq<nat>, stored: seq<nat>, n: nat, j: nat)
    requires NumbersOk(counted, stored) && n < |counted|
    ensures NumbersOk(counted, stored + [n])
    ensures Newest(counted, stored + [n], j) == if Slot(n) == j then counted[n] else Newest(counted, stored, j)
  {
    assert (stored + [n])[..|stored|] == stored;
  }

  lemma StoreLines(s: State, s': State, counted: seq<nat>, stored: seq<nat>, key: nat, i: nat, n: nat)
    requires Shape(s) && Shape(s') && KeysOk(s) && i < MAX_NUM_LINES && key != NULL && NumbersOk(counted, stored)
    requires LinesOk(s, counted, stored, key) && s.lines[i].key == key && n < |counted|
    requires s'.lines == s.lines[i := s.lines[i].SetStr(Slot(n), counted[n])]
    ensures NumbersOk(counted, stored + [n]) && LinesOk(s', counted, stored + [n], key)
  {
    hide Newest, Slot;
    var stored' := stored + [n];
    NewestPushed(counted, stored, n, 0);
    NewestPushed(counted, stored, n, 1);
    forall line | 0 <= line < MAX_NUM_LINES ensures LineOk(s'.lines[line], counted, stored', key) {
      assert LineOk(s.lines[line], counted, stored, key);
    }
    assert s'.lines[i].key == key;
  }

  lemma StoreWriters(s: State, s': State, counted: seq<nat>, stored: seq<nat>, key: nat, tid: nat)
    requires NumbersOk(counted, stored) && WritersOk(s, counted, stored, key) && NoneForgotten(s, counted, stored, key)
    requires tid in s.threads && Writes(s.threads[tid], key)
    requires s.threads[tid].prev == Newest(counted, stored, Slot(s.threads[tid].orig))
    requires s'.threads == s.threads[tid := s.threads[tid].(pc := FreePrev)]
    ensures var stored' := stored + [s.threads[tid].orig];
            WritersOk(s', counted, stored', key) && NoneForgotten(s', counted, stored', key)
  {
    hide Replaced, Newest;
    var me := s.threads[tid];
    var stored' := stored + [me.orig];
    if me.prev != NULL { StoreReplaces(counted, stored, me.orig, me.prev); }
    forall t | t in s'.threads ensures WriterOk(counted, stored', s'.threads[t], key) {
      if t != tid {
        var th := s.threads[t];
        assert WriterOk(counted, stored, th, key);
        if Replaced(counted, stored, th.orig, th.prev) {
          ReplacedLater(counted, stored, th.orig, th.prev, [], [me.orig]);
          assert counted + [] == counted;
        }
      }
    }
    forall n: nat | n < |counted| && n !in stored' ensures Writing(s', key, n) {
      assert n != me.orig by { assert stored'[|stored|] == me.orig; }
      assert Writing(s, key, n);
      var t :| t in s.threads && Writes(s.threads[t], key) && s.threads[t].orig == n;
      assert t in s'.threads && Writes(s'.threads[t], key) && s'.threads[t].orig == n;
    }
  }

  lemma StoreReplaces(counted: seq<nat>, stored: seq<nat>, orig: nat, prev: nat)
    requires NumbersOk(counted, stored) && prev == Newest(counted, stored, Slot(orig)) && prev != NULL
    ensures Replaced(counted, stored + [orig], orig, prev)
  {
    hide Newest;
    var i := NewestFrom(counted, stored, Slot(orig));
    var stored' := stored + [orig];
    assert stored'[|stored|] == orig && stored'[i] == stored[i];
    assert forall m | i < m < |stored| :: stored'[m] == stored[m];
  }

  // ---------------------------------------------------------------- every step

  lemma CountedStory(s: State, l: Label, counted: seq<nat>, stored: seq<nat>, key: nat)
    requires Shape(s) && KeyInv(s) && key != NULL && StoryOk(s, counted, stored, key) && Reaches(s, l, key, Counted)
    ensures StoryOk(Apply(s, l), counted + [s.threads[l.tid].str], stored, key)
  {
    var th, s' := s.threads[l.tid], Apply(s, l);
    assert ThreadKeysOk(s, th);
    assert LineOk(s.lines[th.i], counted, stored, key);
    assert s'.lines == s.lines[th.i := s.lines[th.i].(count := |counted| + 1)];
    assert s'.threads == s.threads[l.tid := th.(pc := LoadStr)];
    hide Apply, LinesOk, WritersOk, NoneForgotten, LineOk, Newest;
    CountLines(s, s', counted, stored, key, th.i, th.str);
    CountWriters(s, s', counted, stored, key, l.tid);
  }

  lemma StoredStory(s: State, l: Label, counted: seq<nat>, stored: seq<nat>, key: nat)
    requires Shape(s) && KeyInv(s) && key != NULL && StoryOk(s, counted, stored, key) && Stores(s, l, key)
    ensures StoryOk(Apply(s, l), counted, stored + [s.threads[l.tid].orig], key)
  {
    var th, s' := s.threads[l.tid], Apply(s, l);
    assert ThreadKeysOk(s, th);
    assert LineOk(s.lines[th.i], counted, stored, key);
    assert WriterOk(counted, stored, th, key);
    assert s'.lines == s.lines[th.i := s.lines[th.i].SetStr(Slot(th.orig), th.str)];
    assert s'.threads == s.threads[l.tid := th.(pc := FreePrev)];
    hide Apply, LinesOk, WritersOk, NoneForgotten, LineOk, Newest;
    StoreLines(s, s', counted, stored, key, th.i, th.orig);
    StoreWriters(s, s', counted, stored, key, l.tid);
  }

  /** A line is claimed: for this key, of which there was none, or for another. */
  lemma ClaimLines(s: State, s': State, counted: seq<nat>, stored: seq<nat>, key: nat, th: Thread)
    requires Shape(s) && Shape(s') && KeysOk(s) && key != NULL && NumbersOk(counted, stored)
    requires LinesOk(s, counted, stored, key) && th.pc == Claim && th.i < MAX_NUM_LINES && ThreadKeysOk(s, th)
    requires s.lines[th.i].key == NULL && s'.lines == s.lines[th.i := s.lines[th.i].(key := th.key)]
    ensures LinesOk(s', counted, stored, key)
  {
    if th.key == key {
      assert Absent(s, key) by { assert forall k | th.i < k < MAX_NUM_LINES :: s.lines[k].key == NULL; }
      NothingStored(counted, stored);
    }
    hide Newest;
    forall line | 0 <= line < MAX_NUM_LINES ensures LineOk(s'.lines[line], counted, stored, key) {
      assert LineOk(s.lines[line], counted, stored, key);
      if line == th.i && th.key == key { NothingNewest(counted); }
    }
    if Absent(s', key) && th.key != key {
      assert forall line | 0 <= line < MAX_NUM_LINES && line != th.i :: s.lines[line].key == s'.lines[line].key;
    }
  }

  lemma NothingStored(counted: seq<nat>, stored: seq<nat>)
    requires NumbersOk(counted, stored)
    ensures counted == [] ==> stored == []
  {
    assert stored != [] ==> stored[0] < |counted|;
  }

  lemma NothingNewest(counted: seq<nat>)
    ensures Newest(counted, [], 0) == NULL && Newest(counted, [], 1) == NULL
  {
  }

  /** A change to a line of another key. */
  lemma OtherLine(s: State, s': State, counted: seq<nat>, stored: seq<nat>, key: nat, i: nat, l: Line)
    requires Shape(s) && Shape(s') && i < MAX_NUM_LINES
    requires NumbersOk(counted, stored) && LinesOk(s, counted, stored, key)
    requires s.lines[i].key == l.key && l.key != key && l.key != NULL && s'.lines == s.lines[i := l]
    ensures LinesOk(s', counted, stored, key)
  {
    hide Newest;
    forall line | 0 <= line < MAX_NUM_LINES ensures LineOk(s'.lines[line], counted, stored, key) {
      assert LineOk(s.lines[line], counted, stored, key);
    }
    assert forall line | 0 <= line < MAX_NUM_LINES :: s'.lines[line].key == s.lines[line].key;
  }

  lemma QuietLines(s: State, l: Label, counted: seq<nat>, stored: seq<nat>, key: nat)
    requires Shape(s) && KeyInv(s) && key != NULL && NumbersOk(counted, stored) && LinesOk(s, counted, stored, key)
    requires !Reaches(s, l, key, Counted) && !Stores(s, l, key)
    ensures LinesOk(Apply(s, l), counted, stored, key)
  {
    var s' := Apply(s, l);
    if l.Run? && Busy(s, l.tid) {
      var th := s.threads[l.tid];
      assert ThreadKeysOk(s, th);
      if th.pc == Claim && s.lines[th.i].key == NULL { ClaimLines(s, s', counted, stored, key, th); }
      else if (th.pc == Bump || th.pc == Swap) && s'.lines != s.lines {
        OtherLine(s, s', counted, stored, key, th.i, s'.lines[th.i]);
      } else {
        assert s'.lines == s.lines;
      }
    }
  }

  /** What a quiet step may do to the thread that takes it. */
  lemma QuietThread(s: State, l: Label, key: nat)
    requires Shape(s) && !Reaches(s, l, key, Counted) && !Stores(s, l, key) && (l.Run? ==> Busy(s, l.tid))
    ensures var s' := Apply(s, l);
      && (l.tid in s'.threads ==>
            var th' := s'.threads[l.tid];
            && (Writes(th', key) ==>
                  && l.tid in s.threads && Writes(s.threads[l.tid], key)
                  && th'.orig == s.threads[l.tid].orig && th'.str == s.threads[l.tid].str)
            && (th'.key == key && th'.pc == FreePrev ==> l.tid in s.threads && s.threads[l.tid] == th'))
      && (l.tid in s.threads && Writes(s.threads[l.tid], key) ==> l.tid in s'.threads && Writes(s'.threads[l.tid], key))
  {
    hide Live;
  }

  lemma QuietStory(s: State, l: Label, counted: seq<nat>, stored: seq<nat>, key: nat)
    requires Shape(s) && KeyInv(s) && key != NULL && StoryOk(s, counted, stored, key)
    requires !Reaches(s, l, key, Counted) && !Stores(s, l, key)
    ensures StoryOk(Apply(s, l), counted, stored, key)
  {
    hide Apply, LinesOk, Reaches, Stores, Replaced, Newest, KeyInv, Writes;
    var s' := Apply(s, l);
    QuietLines(s, l, counted, stored, key);
    if l.Run? && !Busy(s, l.tid) {
      Nothing(s, l);
    } else {
      QuietThread(s, l, key);
      forall t: nat | t != l.tid
        ensures (t in s'.threads <==> t in s.threads) && (t in s.threads ==> s'.threads[t] == s.threads[t])
      {
        OtherThreads(s, l, t);
      }
      OtherSteps(s, s', counted, stored, key, l.tid);
    }
  }

  lemma Nothing(s: State, l: Label)
    requires Shape(s) && l.Run? && !Busy(s, l.tid)
    ensures Apply(s, l) == s
  {
  }

  lemma {:induction false} StoryAlways(sched: Schedule, k: nat, key: nat)
    requires k <= |sched| && key != NULL
    ensures StoryOk(At(sched, k), CountedStrings(sched, k, key), Stored(sched, k, key), key)
  {
    hide Apply, StoryOk, KeyInv, Reaches, Stores, Shape;
    if k == 0 { EmptyStory(key); }
    else {
      StoryAlways(sched, k - 1, key);
      KeysAlways(sched, k - 1);
      var s, l := At(sched, k - 1), sched[k - 1];
      var counted, stored := CountedStrings(sched, k - 1, key), Stored(sched, k - 1, key);
      assert counted + [] == counted && stored + [] == stored;
      if Reaches(s, l, key, Counted) {
        CountedNotStored(s, l, key);
        CountedStory(s, l, counted, stored, key);
      } else if Stores(s, l, key) {
        StoredStory(s, l, counted, stored, key);
      } else {
        QuietStory(s, l, counted, stored, key);
      }
    }
  }

  lemma CountedNotStored(s: State, l: Label, key: nat)
    requires Shape(s) && Reaches(s, l, key, Counted)
    ensures !Stores(s, l, key)
  {
  }

  lemma EmptyStory(key: nat)
    ensures StoryOk(Initial(), [], [], key)
  {
  }

  // ---------------------------------------------------------------- what a line shows

  /** Slot 0 is for the first call only, slot 1 for all others. */
  lemma {:induction false} NewestFirst(counted: seq<nat>, stored: seq<nat>)
    requires NumbersOk(counted, stored) && 0 in stored
    ensures Newest(counted, stored, 0) == counted[0]
    decreases |stored|
  {
    var n := |stored| - 1;
    if stored[n] != 0 { NewestFirst(counted, stored[..n]); }
  }

  lemma {:induction false} NewestOther(counted: seq<nat>, stored: seq<nat>, m: nat) returns (i: nat)
    requires NumbersOk(counted, stored) && m in stored && m > 0
    ensures i < |stored| && stored[i] > 0 && Newest(counted, stored, 1) == counted[stored[i]]
    ensures forall j | i < j < |stored| :: stored[j] == 0
    decreases |stored|
  {
    var n := |stored| - 1;
    if stored[n] != 0 { i := n; } else { i := NewestOther(counted, stored[..n], m); }
  }

  /**
   * In every interleaving a line that has been counted on, and of which no call is between its count swap and its
   * string swap, shows in slot 0 the string of the first call counted for its key, and in slot 1, from the second
   * call on, the string of the call that was the last to put one there; every counted call has put its string in.
   */
  lemma MessagesRecorded(sched: Schedule, k: nat, key: nat, line: nat)
    requires k <= |sched| && key != NULL && line < MAX_NUM_LINES && At(sched, k).lines[line].key == key
    requires forall t | t in At(sched, k).threads :: !Writes(At(sched, k).threads[t], key)
    ensures var l, counted, stored := At(sched, k).lines[line], CountedStrings(sched, k, key), Stored(sched, k, key);
      && l.count == |counted| && (forall n: nat | n < |counted| :: n in stored)
      && (l.count > 0 ==> l.str0 == counted[0])
      && (l.count > 1 ==> exists i: nat | i < |stored| ::
            0 < stored[i] < |counted| && l.str1 == counted[stored[i]] && forall j | i < j < |stored| :: stored[j] == 0)
  {
    hide At, Newest, CountedStrings, Stored, Writes, Slot;
    StoryAlways(sched, k, key);
    var s, counted, stored := At(sched, k), CountedStrings(sched, k, key), Stored(sched, k, key);
    assert LineOk(s.lines[line], counted, stored, key);
    assert forall n: nat | n < |counted| :: !Writing(s, key, n);
    if |counted| > 0 { NewestFirst(counted, stored); }
    if |counted| > 1 { var i := NewestOther(counted, stored, 1); }
  }

  /** Why a string may be freed in this state by this thread. */
  ghost predicate MayFree(s: State, th: Thread, str: nat, counted: seq<nat>, stored: seq<nat>)
    requires Shape(s)
  {
    if th.pc == FreeOwn
    then
      && th.str == str
      && forall line | 0 <= line < MAX_NUM_LINES :: s.lines[line].key != NULL && s.lines[line].key != th.key
    else th.pc == FreePrev && Replaced(counted, stored, th.orig, str)
  }

  /**
   * In every interleaving a string is freed only by its own call, when the table is full and has no line for its key,
   * or by a counted call for the same key, whose string has taken its place in its slot.
   */
  lemma FreedWhy(sched: Schedule, k: nat)
    requires k < |sched| && At(sched, k + 1).freed != At(sched, k).freed
    ensures sched[k].Run? && Busy(At(sched, k), sched[k].tid)
    ensures var s, th := At(sched, k), At(sched, k).threads[sched[k].tid];
      && th.key != NULL
      && exists str: nat | str != NULL && At(sched, k + 1).freed == s.freed + multiset{str} ::
           MayFree(s, th, str, CountedStrings(sched, k, th.key), Stored(sched, k, th.key))
  {
    hide Replaced;
    KeysAlways(sched, k);
    var s, l := At(sched, k), sched[k];
    FreesOnly(s, l);
    var th := s.threads[l.tid];
    assert ThreadKeysOk(s, th);
    hide At, Apply;
    StoryAlways(sched, k, th.key);
    var counted, stored := CountedStrings(sched, k, th.key), Stored(sched, k, th.key);
    assert WriterOk(counted, stored, th, th.key);
    var str := if th.pc == FreeOwn then th.str else th.prev;
    assert MayFree(s, th, str, counted, stored);
  }

  lemma FreesOnly(s: State, l: Label)
    requires Shape(s) && Apply(s, l).freed != s.freed
    ensures l.Run? && Busy(s, l.tid)
    ensures var th := s.threads[l.tid];
      && (th.pc == FreeOwn || th.pc == FreePrev)
      && var str := if th.pc == FreeOwn then th.str else th.prev;
         str != NULL && Apply(s, l).freed == s.freed + multiset{str}
  {
  }
}
