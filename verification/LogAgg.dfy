/**
 * Aggregation of log data, src/ctl.c: what is written to a descriptor is gathered into batches, which are
 * sent when another file appears on the descriptor, when they would grow too large, or in time.
 */
module LogAgg {
  import opened Bytes

  const FS_ENTRIES: nat := 1024

  datatype Event = Event(fd: int, uid: nat, data: seq<Byte>)

  /** streambuf_t */
  datatype Stream = Closed | Open(uid: nat, buf: seq<Byte>, totSize: nat)

  datatype Batch = Batch(fd: nat, uid: nat, data: seq<Byte>)

  /** What the queue hands out: an event, or nothing where a slot was read before it was written. */
  datatype Slot = Nothing | Full(event: Event)

  // ---------------------------------------------------------------- conservation

  function Data(es: seq<Event>): seq<Byte> {
    if es == [] then [] else Data(es[..|es| - 1]) + es[|es| - 1].data
  }

  /** The events on one descriptor, in order. */
  function On(es: seq<Event>, fd: nat): seq<Event> {
    if es == [] then []
    else On(es[..|es| - 1], fd) + if es[|es| - 1].fd == fd then [es[|es| - 1]] else []
  }

  /** The batches for one descriptor, in order. */
  function For(sent: seq<Batch>, fd: nat): seq<Batch> {
    if sent == [] then []
    else For(sent[..|sent| - 1], fd) + if sent[|sent| - 1].fd == fd then [sent[|sent| - 1]] else []
  }

  function Carried(bs: seq<Batch>): seq<Byte> {
    if bs == [] then [] else Carried(bs[..|bs| - 1]) + bs[|bs| - 1].data
  }

  /** A batch is made of events of one descriptor and uid, and if it is over the limit then of a single one. */
  ghost predicate MadeOf(es: seq<Event>, b: Batch, max: nat) {
    && es != [] && (forall k | 0 <= k < |es| :: es[k].fd == b.fd && es[k].uid == b.uid)
    && Data(es) == b.data && (|b.data| > max ==> |es| == 1)
  }

  /** The events fall into consecutive groups, one for each batch, in order. */
  ghost predicate Batched(es: seq<Event>, bs: seq<Batch>, max: nat) {
    if bs == [] then es == []
    else exists k | 0 <= k < |es| :: MadeOf(es[k..], bs[|bs| - 1], max) && Batched(es[..k], bs[..|bs| - 1], max)
  }

  lemma {:induction false} DataJoin(a: seq<Event>, b: seq<Event>)
    ensures Data(a + b) == Data(a) + Data(b)
  {
    if b == [] {
      assert a + b == a;
    } else {
      var b' := b[..|b| - 1];
      assert (a + b)[..|a + b| - 1] == a + b';
      DataJoin(a, b');
    }
  }

  /** The batches carry the data of their events, in order, and nothing else. */
  lemma {:induction false} BatchesConserve(es: seq<Event>, bs: seq<Batch>, max: nat)
    requires Batched(es, bs, max)
    ensures Carried(bs) == Data(es)
    decreases |bs|
  {
    if bs == [] {
    } else {
      var k := LastGroup(es, bs, max);
      BatchesConserve(es[..k], bs[..|bs| - 1], max);
      hide Batched;
      DataJoin(es[..k], es[k..]);
      assert es == es[..k] + es[k..];
      hide Data;
    }
  }

  lemma LastGroup(es: seq<Event>, bs: seq<Batch>, max: nat) returns (k: nat)
    requires Batched(es, bs, max) && bs != []
    ensures k < |es| && Data(es[k..]) == bs[|bs| - 1].data && Batched(es[..k], bs[..|bs| - 1], max)
  {
    hide Data;
    k :| 0 <= k < |es| && MadeOf(es[k..], bs[|bs| - 1], max) && Batched(es[..k], bs[..|bs| - 1], max);
  }

  lemma BatchedNext(es: seq<Event>, bs: seq<Batch>, group: seq<Event>, b: Batch, max: nat)
    requires Batched(es, bs, max) && MadeOf(group, b, max)
    ensures Batched(es + group, bs + [b], max)
  {
    var all, next := es + group, bs + [b];
    assert next[..|next| - 1] == bs && all[|es|..] == group && all[..|es|] == es;
    assert MadeOf(all[|es|..], next[|next| - 1], max) && Batched(all[..|es|], next[..|next| - 1], max);
  }

  /** Adding an event to a group that has room for it. */
  lemma MadeOfMore(es: seq<Event>, b: Batch, e: Event, max: nat)
    requires MadeOf(es, b, max) && e.fd == b.fd && e.uid == b.uid && |b.data| + |e.data| <= max
    ensures MadeOf(es + [e], b.(data := b.data + e.data), max)
  {
    assert (es + [e])[..|es|] == es;
  }

  lemma MadeOfOne(e: Event, fd: nat, max: nat)
    requires e.fd == fd
    ensures MadeOf([e], Batch(fd, e.uid, e.data), max)
  {
    assert [e][..0] == [] && [] + e.data == e.data;
  }

  // ---------------------------------------------------------------- the aggregator

  /** For one descriptor: the batches sent account for the first events taken, and the open stream for the others. */
  ghost predicate Accounted(stream: Stream, bs: seq<Batch>, es: seq<Event>, fd: nat, max: nat, split: nat) {
    && split <= |es| && Batched(es[..split], bs, max)
    && match stream
       case Closed => split == |es|
       case Open(uid, buf, tot) => tot == |buf| && MadeOf(es[split..], Batch(fd, uid, buf), max)
  }

  class Aggregator {
    const maxAggBytes: nat
    const streams: array<Stream>
    var sent: seq<Batch>               // what sendAggregatedLogData was called with
    ghost var taken: seq<Event>        // the events taken off the queue so far
    ghost var splits: seq<nat>

    ghost predicate Valid()
      reads this, streams
    {
      && streams.Length == FS_ENTRIES == |splits|
      && forall fd | 0 <= fd < FS_ENTRIES ::
          Accounted(streams[fd], For(sent, fd), On(taken, fd), fd, maxAggBytes, splits[fd])
    }

    constructor (maxAggBytes: nat)
      ensures Valid() && sent == [] && taken == [] && fresh(streams) && this.maxAggBytes == maxAggBytes
    {
      this.maxAggBytes, sent, taken := maxAggBytes, [], [];
      streams := new Stream[FS_ENTRIES](_ => Closed);
      splits := seq(FS_ENTRIES, i => 0);
    }

    /** What was sent for a descriptor, then what is held for it, is what was written to it. */
    lemma Conserved(fd: nat)
      requires Valid() && fd < FS_ENTRIES
      ensures Carried(For(sent, fd)) + (if streams[fd].Open? then streams[fd].buf else []) == Data(On(taken, fd))
    {
      hide Accounted, On, For, Carried, Data;
      AccountedConserves(streams[fd], For(sent, fd), On(taken, fd), fd, maxAggBytes, splits[fd]);
    }

    /** sendAggregatedLogData: the stream's data goes out as one batch and the stream is closed. */
    method SendAggregated(fd: nat)
      requires Valid() && fd < FS_ENTRIES && streams[fd].Open?
      modifies this`sent, this`splits, streams
      ensures Valid() && sent == old(sent) + [Batch(fd, old(streams[fd].uid), old(streams[fd].buf))]
      ensures streams[fd] == Closed
      ensures forall i | 0 <= i < FS_ENTRIES && i != fd :: streams[i] == old(streams[i])
    {
      hide Accounted, On, For;
      var b := Batch(fd, streams[fd].uid, streams[fd].buf);
      ghost var was, gone, before := streams[..], splits, sent;
      sent := sent + [b];
      streams[fd] := Closed;
      splits := splits[fd := |On(taken, fd)|];
      forall i: nat | i < FS_ENTRIES
        ensures Accounted(streams[i], For(sent, i), On(taken, i), i, maxAggBytes, splits[i])
      {
        assert Accounted(was[i], For(before, i), On(taken, i), i, maxAggBytes, gone[i]);
        ForNext(before, b, i);
        if i == fd { ClosedAccounted(was[i], For(before, i), On(taken, i), fd, maxAggBytes, gone[i]); }
      }
    }

    /** One event off the queue. */
    method Take(event: Event)
      requires Valid()
      modifies this`sent, this`splits, this`taken, streams
      ensures Valid() && taken == old(taken) + [event]
      ensures sent == old(sent) +
                (if 0 <= event.fd < FS_ENTRIES && old(streams[event.fd].Open?)
                    && (|| old(streams[event.fd].uid) != event.uid
                        || old(streams[event.fd].totSize) + |event.data| > maxAggBytes)
                 then [Batch(event.fd, old(streams[event.fd].uid), old(streams[event.fd].buf))] else [])
    {
      hide Accounted, On, For;
      if 0 <= event.fd < FS_ENTRIES {
        var fd := event.fd;
        if streams[fd].Open? && (streams[fd].uid != event.uid || streams[fd].totSize + |event.data| > maxAggBytes) {
          SendAggregated(fd);
        }
        Append(fd, event);
      } else {
        taken := taken + [event];
        forall i: nat | i < FS_ENTRIES
          ensures Accounted(streams[i], For(sent, i), On(taken, i), i, maxAggBytes, splits[i])
        {
          OnNext(old(taken), event, i);
        }
      }
    }

    /** The event's data goes to the descriptor's stream, which is opened if need be. */
    method Append(fd: nat, event: Event)
      requires Valid() && fd < FS_ENTRIES && event.fd == fd
      requires streams[fd].Open? ==> streams[fd].uid == event.uid && streams[fd].totSize + |event.data| <= maxAggBytes
      modifies this`taken, streams
      ensures Valid() && taken == old(taken) + [event]
    {
      hide Accounted, On, For;
      ghost var was := streams[..];
      if streams[fd].Closed? {
        streams[fd] := Open(event.uid, [], 0);
      }
      streams[fd] := Open(streams[fd].uid, streams[fd].buf + event.data, streams[fd].totSize + |event.data|);
      taken := taken + [event];
      forall i: nat | i < FS_ENTRIES
        ensures Accounted(streams[i], For(sent, i), On(taken, i), i, maxAggBytes, splits[i])
      {
        OnNext(old(taken), event, i);
        assert Accounted(was[i], For(sent, i), On(old(taken), i), i, maxAggBytes, splits[i]);
        if i == fd { AppendAccounted(was[i], For(sent, i), On(old(taken), i), event, fd, maxAggBytes, splits[i]); }
      }
    }

    /** ctlFlushLog: drain the queue. */
    method FlushLog(queue: seq<Slot>)
      requires Valid()
      modifies this`sent, this`splits, this`taken, streams
      ensures Valid() && taken == old(taken) + Events(queue) && old(sent) <= sent
    {
      hide Accounted, On, For;
      var i := 0;
      while i < |queue|
        invariant 0 <= i <= |queue| && Valid() && taken == old(taken) + Events(queue[..i]) && old(sent) <= sent
      {
        assert queue[..i + 1][..i] == queue[..i];
        if queue[i].Full? {
          Take(queue[i].event);
        }
        i := i + 1;
      }
      assert queue[..|queue|] == queue;
    }

    /** ctlSendAllAggregatedLogData: when it is time, everything held goes out. */
    method SendAll(reportNow: bool)
      requires Valid()
      modifies this`sent, this`splits, streams
      ensures Valid() && old(sent) <= sent
      ensures if reportNow then forall fd | 0 <= fd < FS_ENTRIES :: streams[fd] == Closed
              else sent == old(sent) && streams[..] == old(streams[..])
    {
      hide Accounted, On, For;
      if !reportNow { return; }
      var i := 0;
      while i < FS_ENTRIES
        invariant 0 <= i <= FS_ENTRIES && Valid() && old(sent) <= sent
        invariant forall fd | 0 <= fd < i :: streams[fd] == Closed
      {
        if streams[i].Open? { SendAggregated(i); }
        i := i + 1;
      }
    }
  }

  function Events(queue: seq<Slot>): seq<Event> {
    if queue == [] then []
    else Events(queue[..|queue| - 1]) + if queue[|queue| - 1].Full? then [queue[|queue| - 1].event] else []
  }

  lemma OnNext(es: seq<Event>, e: Event, fd: nat)
    ensures On(es + [e], fd) == if e.fd == fd then On(es, fd) + [e] else On(es, fd)
  {
    assert (es + [e])[..|es|] == es;
  }

  lemma ForNext(sent: seq<Batch>, b: Batch, fd: nat)
    ensures For(sent + [b], fd) == if b.fd == fd then For(sent, fd) + [b] else For(sent, fd)
  {
    assert (sent + [b])[..|sent|] == sent;
  }

  lemma AccountedConserves(stream: Stream, bs: seq<Batch>, es: seq<Event>, fd: nat, max: nat, split: nat)
    requires Accounted(stream, bs, es, fd, max, split)
    ensures Carried(bs) + (if stream.Open? then stream.buf else []) == Data(es)
  {
    hide Batched, Carried;
    BatchesConserve(es[..split], bs, max);
    DataJoin(es[..split], es[split..]);
    assert es == es[..split] + es[split..];
    hide Data;
  }

  lemma ClosedAccounted(stream: Stream, bs: seq<Batch>, es: seq<Event>, fd: nat, max: nat, split: nat)
    requires Accounted(stream, bs, es, fd, max, split) && stream.Open?
    ensures Accounted(Closed, bs + [Batch(fd, stream.uid, stream.buf)], es, fd, max, |es|)
  {
    hide MadeOf, Batched;
    BatchedNext(es[..split], bs, es[split..], Batch(fd, stream.uid, stream.buf), max);
    assert es[..split] + es[split..] == es == es[..|es|];
  }

  lemma AppendAccounted(stream: Stream, bs: seq<Batch>, es: seq<Event>, e: Event, fd: nat, max: nat, split: nat)
    requires Accounted(stream, bs, es, fd, max, split) && e.fd == fd
    requires stream.Open? ==> stream.uid == e.uid && stream.totSize + |e.data| <= max
    ensures var s := if stream.Open? then stream else Open(e.uid, [], 0);
      Accounted(Open(s.uid, s.buf + e.data, s.totSize + |e.data|), bs, es + [e], fd, max, split)
  {
    hide MadeOf, Batched;
    var all := es + [e];
    assert all[..split] == es[..split] && all[split..] == es[split..] + [e];
    if stream.Open? {
      MadeOfMore(es[split..], Batch(fd, stream.uid, stream.buf), e, max);
    } else {
      MadeOfOne(e, fd, max);
      assert es[split..] == [] && [] + [e] == [e] && [] + e.data == e.data;
    }
  }
}
