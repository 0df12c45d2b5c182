/**
 * Messages over a message queue, src/ipc.c: a response is cut into frames that fit the queue, each behind
 * its own metadata; a request is put together from the frames received.
 */
module Ipc {
  import opened Bytes
  import opened StrSearch
  import opened Wrappers

  // ---------------------------------------------------------------- metadata

  const INT_MAX: nat := 0x7FFF_FFFF
  const OK_STATUS: nat := 200
  const OK_PARTIAL: nat := 206
  const STATUS_KEY: seq<Byte> := [34, 115, 116, 97, 116, 117, 115, 34, 58]                      // "status":
  const UNIQ_KEY: seq<Byte> := [44, 34, 117, 110, 105, 113, 34, 58]                             // ,"uniq":
  const REMAIN_KEY: seq<Byte> := [44, 34, 114, 101, 109, 97, 105, 110, 34, 58]                  // ,"remain":

  function Dec(n: nat): (s: seq<Byte>)
    ensures |s| > 0
  {
    if n < 10 then [48 + n] else Dec(n / 10) + [48 + n % 10]
  }

  function Number(n: int): seq<Byte> {
    if n < 0 then [45] + Dec(-n) else Dec(n)
  }

  lemma {:induction false} DecGrows(a: nat, b: nat)
    requires a <= b
    ensures |Dec(a)| <= |Dec(b)|
  {
    if a >= 10 { DecGrows(a / 10, b / 10); }
  }

  /** A size passed where an int is expected. */
  function Int32(n: nat): (r: int)
    ensures n <= INT_MAX ==> r == n
  {
    var m := n % 0x1_0000_0000;
    if m > INT_MAX then m - 0x1_0000_0000 else m
  }

  /** createMetaResp, printed. */
  function Meta(status: nat, uniq: int, remain: int): (m: seq<Byte>)
    ensures |m| == 29 + |Dec(status)| + |Number(uniq)| + |Number(remain)|
  {
    [123] + STATUS_KEY + Dec(status) + UNIQ_KEY + Number(uniq) + REMAIN_KEY + Number(remain) + [125]
  }

  lemma Dec200()
    ensures Dec(200) == [50, 48, 48] && Dec(206) == [50, 48, 54]
  {
    assert Dec(2) == [50];
    assert Dec(20) == [50, 48];
  }

  /**
   * The search for the status field finds it behind the brace; a 6 in place of its last digit makes the partial status.
   */
  lemma StatusPatched(uniq: int, remain: int)
    ensures FirstOccurrence(STATUS_KEY + [50, 48, 48], Meta(OK_STATUS, uniq, remain), 1)
    ensures Meta(OK_STATUS, uniq, remain)[1 + 11 := 54] == Meta(OK_PARTIAL, uniq, remain)
  {
    var tail := UNIQ_KEY + Number(uniq) + REMAIN_KEY + Number(remain) + [125];
    MetaSplit(OK_STATUS, uniq, remain, tail);
    MetaSplit(OK_PARTIAL, uniq, remain, tail);
    Dec200();
    hide *;
    LastDigit(STATUS_KEY, tail);
  }

  lemma LastDigit(key: seq<Byte>, tail: seq<Byte>)
    requires |key| == 9 && key[0] != 123
    ensures FirstOccurrence(key + [50, 48, 48], [123] + (key + [50, 48, 48]) + tail, 1)
    ensures ([123] + (key + [50, 48, 48]) + tail)[1 + 11 := 54] == [123] + (key + [50, 48, 54]) + tail
  {
    var needle := key + [50, 48, 48];
    var m := [123] + needle + tail;
    assert m[1..13] == needle;
    assert OccursAt(needle, m, 1);
    assert m[0..12][0] == 123;
  }

  lemma MetaSplit(status: nat, uniq: int, remain: int, tail: seq<Byte>)
    requires tail == UNIQ_KEY + Number(uniq) + REMAIN_KEY + Number(remain) + [125]
    ensures Meta(status, uniq, remain) == [123] + (STATUS_KEY + Dec(status)) + tail
  {
    hide Number, Dec;
  }

  // ---------------------------------------------------------------- fragments

  datatype Fragment = Fragment(status: nat, remain: int, payload: seq<Byte>)

  function Frame(f: Fragment, uniq: int): seq<Byte> {
    Meta(f.status, uniq, f.remain) + [0] + f.payload
  }

  /** The room the metadata and its NUL take in the frame that starts with n bytes to go. */
  function MetaLen(uniq: int, n: nat): nat {
    |Meta(OK_STATUS, uniq, Int32(n))| + 1
  }

  /** The next frame: as much of the data as there is room for. */
  function First(data: seq<Byte>, size: nat, uniq: int): (f: Fragment)
    requires data != [] && MetaLen(uniq, |data|) < size
    ensures f.payload != [] && f.payload <= data
  {
    var room := size - MetaLen(uniq, |data|);
    var n := if |data| < room then |data| else room;
    Fragment(if n == |data| then OK_STATUS else OK_PARTIAL, Int32(|data|), data[..n])
  }

  /** The frames sent for what is left of a response, up to the first whose metadata leaves no room. */
  function Fragments(data: seq<Byte>, size: nat, uniq: int): (fs: seq<Fragment>)
    decreases |data|
  {
    if data == [] || MetaLen(uniq, |data|) >= size then []
    else
      var f := First(data, size, uniq);
      [f] + Fragments(data[|f.payload|..], size, uniq)
  }

  function Payloads(fs: seq<Fragment>): seq<Byte> {
    if fs == [] then [] else fs[0].payload + Payloads(fs[1..])
  }

  predicate Fits(data: seq<Byte>, size: nat, uniq: int) {
    data == [] || MetaLen(uniq, |data|) < size
  }

  /** The metadata of a shorter rest is no longer. */
  lemma MetaShrinks(uniq: int, m: nat, n: nat)
    requires m <= n <= INT_MAX
    ensures MetaLen(uniq, m) <= MetaLen(uniq, n)
  {
    hide Meta, Int32;
    DecGrows(m, n);
  }

  /** If the first frame's metadata fits, every later one's does, and no byte is lost, added or reordered. */
  lemma {:induction false} Lossless(data: seq<Byte>, size: nat, uniq: int)
    requires |data| <= INT_MAX
    ensures Payloads(Fragments(data, size, uniq)) == data <==> Fits(data, size, uniq)
    ensures !Fits(data, size, uniq) ==> Fragments(data, size, uniq) == []
    decreases |data|
  {
    hide Meta, Int32, MetaLen;
    if data != [] && Fits(data, size, uniq) {
      var f := Fragments(data, size, uniq)[0];
      var rest := data[|f.payload|..];
      MetaShrinks(uniq, |rest|, |data|);
      Lossless(rest, size, uniq);
      assert Fragments(data, size, uniq)[1..] == Fragments(rest, size, uniq);
      assert data == f.payload + rest;
    }
  }

  /**
   * One frame: within the queue's limit, not empty, full unless it is the last, and saying how much is still to come,
   * itself included.
   */
  predicate FragmentOk(fs: seq<Fragment>, i: nat, size: nat, uniq: int)
    requires i < |fs|
  {
    && |Frame(fs[i], uniq)| <= size && fs[i].payload != []
    && fs[i].remain == |Payloads(fs[i..])|
    && fs[i].status == (if i == |fs| - 1 then OK_STATUS else OK_PARTIAL)
    && (i < |fs| - 1 ==> |Frame(fs[i], uniq)| == size)
  }

  lemma {:induction false} FragmentsOk(data: seq<Byte>, size: nat, uniq: int, i: nat)
    requires |data| <= INT_MAX && Fits(data, size, uniq) && i < |Fragments(data, size, uniq)|
    ensures FragmentOk(Fragments(data, size, uniq), i, size, uniq)
    decreases |data|
  {
    hide Meta, Int32, MetaLen, Frame, Payloads;
    var fs := Fragments(data, size, uniq);
    if i == 0 {
      FirstFragmentOk(data, size, uniq);
    } else {
      var rest := data[|fs[0].payload|..];
      assert fs[1..] == Fragments(rest, size, uniq);
      MetaShrinks(uniq, |rest|, |data|);
      FragmentsOk(rest, size, uniq, i - 1);
      assert fs[1..][i - 1..] == fs[i..];
    }
  }

  lemma FirstFragmentOk(data: seq<Byte>, size: nat, uniq: int)
    requires |data| <= INT_MAX && Fits(data, size, uniq) && data != []
    ensures FragmentOk(Fragments(data, size, uniq), 0, size, uniq)
  {
    hide Meta, Int32, Number, Dec;
    var fs := Fragments(data, size, uniq);
    var f := fs[0];
    var rest := data[|f.payload|..];
    assert fs[1..] == Fragments(rest, size, uniq);
    MetaShrinks(uniq, |rest|, |data|);
    Lossless(data, size, uniq);
    Lossless(rest, size, uniq);
    Dec200();
    assert fs[0..] == fs;
    assert rest == [] <==> fs[1..] == [];
  }

  /** What a frame says remains goes down from frame to frame, by what the frame carried. */
  lemma RemainDecreases(data: seq<Byte>, size: nat, uniq: int, i: nat)
    requires |data| <= INT_MAX && Fits(data, size, uniq) && i + 1 < |Fragments(data, size, uniq)|
    ensures var fs := Fragments(data, size, uniq);
      fs[i + 1].remain == fs[i].remain - |fs[i].payload| && fs[i + 1].remain < fs[i].remain
  {
    var fs := Fragments(data, size, uniq);
    FragmentsOk(data, size, uniq, i);
    FragmentsOk(data, size, uniq, i + 1);
    assert fs[i..][0] == fs[i] && fs[i..][1..] == fs[i + 1..];
  }

  // ---------------------------------------------------------------- reading a frame back

  predicate IsDigit(c: Byte) {
    48 <= c <= 57
  }

  /** The digits that s begins with. */
  function LeadingDigits(s: seq<Byte>): (n: nat)
    ensures n <= |s|
  {
    if s == [] || !IsDigit(s[0]) then 0 else 1 + LeadingDigits(s[1..])
  }

  /** The value of decimal digits. */
  function Value(s: seq<Byte>): int {
    if s == [] then 0 else Value(s[..|s| - 1]) * 10 + (s[|s| - 1] as int - 48)
  }

  /** A decimal number that s begins with, and what is behind it. */
  function ReadNumber(s: seq<Byte>): (int, seq<Byte>) {
    if s != [] && s[0] == 45 then
      var n := LeadingDigits(s[1..]); (-Value(s[1..][..n]), s[1..][n..])
    else
      var n := LeadingDigits(s); (Value(s[..n]), s[n..])
  }

  /** What is behind a text that s begins with; nothing if it does not. */
  function Behind(s: seq<Byte>, text: seq<Byte>): seq<Byte> {
    if text <= s then s[|text|..] else []
  }

  datatype Fields = Fields(status: int, uniq: int, remain: int, payload: seq<Byte>)

  /** A frame as its receiver reads it: the numbers behind the three keys, and the data behind the NUL. */
  function ReadFrame(s: seq<Byte>): Fields {
    var (status, a) := ReadNumber(Behind(s, [123] + STATUS_KEY));
    var (uniq, b) := ReadNumber(Behind(a, UNIQ_KEY));
    var (remain, c) := ReadNumber(Behind(b, REMAIN_KEY));
    Fields(status, uniq, remain, Behind(c, [125, 0]))
  }

  lemma {:induction false} DecReads(n: nat)
    ensures Value(Dec(n)) == n && forall i | 0 <= i < |Dec(n)| :: IsDigit(Dec(n)[i])
  {
    if n >= 10 {
      DecReads(n / 10);
      var d := Dec(n);
      assert d[..|d| - 1] == Dec(n / 10);
    }
  }

  lemma {:induction false} DigitsEnd(d: seq<Byte>, t: seq<Byte>)
    requires (forall i | 0 <= i < |d| :: IsDigit(d[i])) && (t == [] || !IsDigit(t[0]))
    ensures LeadingDigits(d + t) == |d|
  {
    if d == [] { assert d + t == t; }
    else {
      assert (d + t)[1..] == d[1..] + t;
      DigitsEnd(d[1..], t);
    }
  }

  lemma NumberReads(n: int, t: seq<Byte>)
    requires t != [] && !IsDigit(t[0])
    ensures ReadNumber(Number(n) + t) == (n, t)
  {
    var d := Dec(if n < 0 then -n else n);
    DecReads(if n < 0 then -n else n);
    DigitsEnd(d, t);
    var s := Number(n) + t;
    assert (d + t)[..|d|] == d && (d + t)[|d|..] == t;
    if n < 0 { assert s[1..] == d + t; } else { assert s[0] == d[0]; }
  }

  lemma BehindText(text: seq<Byte>, t: seq<Byte>)
    ensures Behind(text + t, text) == t
  {
  }

  /** From the bytes of a frame its receiver reads the status, the id, what remains, and the payload. */
  lemma FrameReadBack(f: Fragment, uniq: int)
    ensures ReadFrame(Frame(f, uniq)) == Fields(f.status, uniq, f.remain, f.payload)
  {
    hide Behind, ReadNumber, Number;
    var t3 := [125, 0] + f.payload;
    var t2 := REMAIN_KEY + (Number(f.remain) + t3);
    var t1 := UNIQ_KEY + (Number(uniq) + t2);
    assert Number(f.status) == Dec(f.status) by { StatusNumber(f.status); }
    FrameSplit(f, uniq, t1, t2, t3);
    BehindText([123] + STATUS_KEY, Number(f.status) + t1);
    NumberReads(f.status, t1);
    BehindText(UNIQ_KEY, Number(uniq) + t2);
    NumberReads(uniq, t2);
    BehindText(REMAIN_KEY, Number(f.remain) + t3);
    NumberReads(f.remain, t3);
    BehindText([125, 0], f.payload);
  }

  lemma StatusNumber(n: nat)
    ensures Number(n) == Dec(n)
  {
  }

  lemma FrameSplit(f: Fragment, uniq: int, t1: seq<Byte>, t2: seq<Byte>, t3: seq<Byte>)
    requires t3 == [125, 0] + f.payload && t2 == REMAIN_KEY + (Number(f.remain) + t3)
    requires t1 == UNIQ_KEY + (Number(uniq) + t2)
    ensures Frame(f, uniq) == ([123] + STATUS_KEY) + (Dec(f.status) + t1)
  {
    hide Number, Dec, Meta;
    var tail := UNIQ_KEY + Number(uniq) + REMAIN_KEY + Number(f.remain) + [125];
    MetaSplit(f.status, uniq, f.remain, tail);
    Regroup(UNIQ_KEY, Number(uniq), REMAIN_KEY, Number(f.remain), f.payload, tail);
    RegroupFront(STATUS_KEY, Dec(f.status), tail, f.payload);
  }

  lemma Regroup(a: seq<Byte>, b: seq<Byte>, c: seq<Byte>, d: seq<Byte>, p: seq<Byte>, tail: seq<Byte>)
    requires tail == a + b + c + d + [125]
    ensures tail + ([0] + p) == a + (b + (c + (d + ([125, 0] + p))))
  {
  }

  lemma RegroupFront(key: seq<Byte>, n: seq<Byte>, tail: seq<Byte>, p: seq<Byte>)
    ensures ([123] + (key + n) + tail) + [0] + p == ([123] + key) + (n + (tail + ([0] + p)))
  {
  }

  // ---------------------------------------------------------------- sending

  datatype Attempt = Accepted | Again | Failed

  datatype Result = RESP_UNSUFFICENT_MSGBUF_ERROR | RESP_SEND_RETRY_LIMIT | RESP_SEND_OTHER | RESP_RESULT_OK

  const RETRY_COUNT: nat := 500

  /** A queue, with the answers its mq_send will give. */
  class Queue {
    const answers: nat -> Attempt
    var attempts: nat
    var sent: seq<seq<Byte>>

    constructor (answers: nat -> Attempt)
      ensures this.answers == answers && attempts == 0 && sent == []
    {
      this.answers, attempts, sent := answers, 0, [];
    }

    /** ipcSendFrameWithRetry: give up at the first failure other than a full queue, or after 500 of those. */
    method SendWithRetry(frame: seq<Byte>) returns (res: Result)
      modifies this
      ensures attempts > old(attempts) && forall i | old(attempts) <= i < attempts - 1 :: answers(i) == Again
      ensures var last := answers(attempts - 1);
        res == if last == Accepted then RESP_RESULT_OK
               else if last == Failed then RESP_SEND_OTHER
               else RESP_SEND_RETRY_LIMIT
      ensures attempts - old(attempts) <= RETRY_COUNT
      ensures res == RESP_SEND_RETRY_LIMIT ==> attempts - old(attempts) == RETRY_COUNT
      ensures sent == if res == RESP_RESULT_OK then old(sent) + [frame] else old(sent)
    {
      var retryCount := 1;
      while retryCount <= RETRY_COUNT
        invariant 1 <= retryCount <= RETRY_COUNT + 1 && attempts == old(attempts) + (retryCount - 1)
        invariant sent == old(sent)
        invariant forall i | old(attempts) <= i < attempts :: answers(i) == Again
      {
        var r := answers(attempts);
        attempts := attempts + 1;
        if r == Accepted {
          sent := sent + [frame];
          return RESP_RESULT_OK;
        } else if r == Failed {
          return RESP_SEND_OTHER;
        }
        retryCount := retryCount + 1;
      }
      return RESP_SEND_RETRY_LIMIT;
    }
  }

  function Frames(fs: seq<Fragment>, uniq: int): seq<seq<Byte>> {
    if fs == [] then [] else Frames(fs[..|fs| - 1], uniq) + [Frame(fs[|fs| - 1], uniq)]
  }

  lemma FramesAppend(fs: seq<Fragment>, f: Fragment, uniq: int)
    ensures Frames(fs + [f], uniq) == Frames(fs, uniq) + [Frame(f, uniq)]
  {
    assert (fs + [f])[..|fs|] == fs;
  }

  lemma {:induction false} FramesPrefix(fs: seq<Fragment>, gs: seq<Fragment>, uniq: int)
    requires fs <= gs
    ensures Frames(fs, uniq) <= Frames(gs, uniq)
    decreases |gs|
  {
    if fs == gs {
    } else {
      assert fs <= gs[..|gs| - 1];
      FramesPrefix(fs, gs[..|gs| - 1], uniq);
    }
  }

  /** One frame is laid out in the buffer, if there is room. */
  method Pack(frame: array<Byte>, response: seq<Byte>, offset: nat, uniq: int)
    returns (fits: bool, metadataLen: nat, dataSendLen: nat)
    requires offset < |response|
    modifies frame
    ensures fits <==> Fits(response[offset..], frame.Length, uniq)
    ensures fits ==>
              var f := First(response[offset..], frame.Length, uniq);
              && dataSendLen == |f.payload| && metadataLen + dataSendLen <= frame.Length
              && frame[..metadataLen + dataSendLen] == Frame(f, uniq)
  {
    hide Int32, Number, Dec, Meta;
    var remain := |response| - offset;
    var metadata := Meta(OK_STATUS, uniq, Int32(remain));
    metadataLen := |metadata| + 1;
    if metadataLen >= frame.Length {
      return false, 0, 0;
    }
    var maxDataLen := frame.Length - metadataLen;
    dataSendLen := maxDataLen;
    if remain < maxDataLen {
      dataSendLen := remain;
    }
    remain := remain - dataSendLen;
    if remain != 0 {
      StatusPatched(uniq, Int32(|response| - offset));
      metadata := metadata[1 + 11 := 54];
    }
    forall i | 0 <= i < metadataLen { frame[i] := if i < |metadata| then metadata[i] else 0; }
    forall i | 0 <= i < dataSendLen { frame[metadataLen + i] := response[offset + i]; }
    Laid(frame[..], metadata, response[offset..][..dataSendLen]);
    fits := true;
  }

  lemma Laid(frame: seq<Byte>, meta: seq<Byte>, data: seq<Byte>)
    requires |meta| + 1 + |data| <= |frame|
    requires forall i | 0 <= i < |meta| + 1 :: frame[i] == if i < |meta| then meta[i] else 0
    requires forall i | 0 <= i < |data| :: frame[|meta| + 1 + i] == data[i]
    ensures frame[..|meta| + 1 + |data|] == meta + [0] + data
  {
    forall i | 0 <= i < |meta| + 1 + |data|
      ensures frame[i] == (meta + [0] + data)[i]
    {
      assert i > |meta| ==> frame[|meta| + 1 + (i - |meta| - 1)] == data[i - |meta| - 1];
    }
  }

  lemma {:induction false} PayloadsAppend(fs: seq<Fragment>, f: Fragment)
    ensures Payloads(fs + [f]) == Payloads(fs) + f.payload
  {
    if fs != [] {
      PayloadsAppend(fs[1..], f);
      assert (fs + [f])[1..] == fs[1..] + [f];
    }
  }

  /** What the loop has done: `done` is out and `data` is to come. */
  predicate Progress(response: seq<Byte>, size: nat, uniq: int, done: seq<Fragment>, offset: nat) {
    && offset <= |response|
    && Fragments(response, size, uniq) == done + Fragments(response[offset..], size, uniq)
    && Payloads(done) == response[..offset]
    && (|response| <= INT_MAX && done != [] ==> Fits(response[offset..], size, uniq) && Fits(response, size, uniq))
  }

  lemma ProgressStart(response: seq<Byte>, size: nat, uniq: int)
    ensures Progress(response, size, uniq, [], 0) && Frames([], uniq) == []
  {
    hide MetaLen;
    assert response[0..] == response;
  }

  lemma ProgressStep(response: seq<Byte>, size: nat, uniq: int, done: seq<Fragment>, offset: nat)
    requires Progress(response, size, uniq, done, offset) && offset < |response| && Fits(response[offset..], size, uniq)
    ensures var f := First(response[offset..], size, uniq);
              Progress(response, size, uniq, done + [f], offset + |f.payload|)
  {
    hide MetaLen;
    var data := response[offset..];
    var f := First(data, size, uniq);
    var rest := response[offset + |f.payload|..];
    assert data[|f.payload|..] == rest;
    assert (done + [f]) + Fragments(rest, size, uniq) == done + ([f] + Fragments(rest, size, uniq));
    PayloadsAppend(done, f);
    assert response[..offset] + f.payload == response[..offset + |f.payload|];
    if |response| <= INT_MAX {
      MetaShrinks(uniq, |rest|, |data|);
      if done == [] { assert Fragments(response, size, uniq) != []; }
    }
  }

  lemma ProgressFacts(response: seq<Byte>, size: nat, uniq: int, done: seq<Fragment>, offset: nat)
    requires Progress(response, size, uniq, done, offset)
    ensures done <= Fragments(response, size, uniq)
    ensures Frames(done, uniq) <= Frames(Fragments(response, size, uniq), uniq)
    ensures offset == |response| || !Fits(response[offset..], size, uniq) ==> done == Fragments(response, size, uniq)
    ensures offset == |response| ==> Payloads(done) == response
    ensures offset == |response| && |response| <= INT_MAX ==> Fits(response, size, uniq)
    ensures offset < |response| <= INT_MAX ==> (Fits(response[offset..], size, uniq) <==> Fits(response, size, uniq))
  {
    hide MetaLen, Frames;
    assert response[..|response|] == response && response[0..] == response;
    if done == [] { assert Payloads(done) == []; }
    FramesPrefix(done, Fragments(response, size, uniq), uniq);
  }

  /**
   * The sending loop of ipcSendSuccessfulResponse. What goes out is always a prefix of the fragments; all of
   * them unless a send fails, and then the answer is OK exactly when the metadata left room.
   */
  method SendResponse(mq: Queue, msgBufSize: nat, response: seq<Byte>, uniq: int) returns (res: Result)
    modifies mq
    ensures old(mq.sent) <= mq.sent <= old(mq.sent) + Frames(Fragments(response, msgBufSize, uniq), uniq)
    ensures res == RESP_RESULT_OK || res == RESP_UNSUFFICENT_MSGBUF_ERROR ==>
              mq.sent == old(mq.sent) + Frames(Fragments(response, msgBufSize, uniq), uniq)
    ensures res == RESP_RESULT_OK ==> Payloads(Fragments(response, msgBufSize, uniq)) == response
    ensures |response| <= INT_MAX ==> (res == RESP_UNSUFFICENT_MSGBUF_ERROR <==> !Fits(response, msgBufSize, uniq))
  {
    hide First, Frame, Frames, Fragments, Payloads, Progress, MetaLen;
    var remain: nat, offset: nat := |response|, 0;
    var frame := new Byte[msgBufSize];
    ghost var done: seq<Fragment> := [];
    ProgressStart(response, msgBufSize, uniq);
    while remain > 0
      invariant remain + offset == |response| && Progress(response, msgBufSize, uniq, done, offset)
      invariant mq.sent == old(mq.sent) + Frames(done, uniq)
      decreases remain
    {
      var fits, metadataLen, dataSendLen := Pack(frame, response, offset, uniq);
      ProgressFacts(response, msgBufSize, uniq, done, offset);
      if !fits {
        return RESP_UNSUFFICENT_MSGBUF_ERROR;
      }
      ProgressStep(response, msgBufSize, uniq, done, offset);
      res := mq.SendWithRetry(frame[..metadataLen + dataSendLen]);
      if res != RESP_RESULT_OK {
        return;
      }
      FramesAppend(done, First(response[offset..], msgBufSize, uniq), uniq);
      done := done + [First(response[offset..], msgBufSize, uniq)];
      remain, offset := remain - dataSendLen, offset + dataSendLen;
    }
    ProgressFacts(response, msgBufSize, uniq, done, offset);
    return RESP_RESULT_OK;
  }

  // ---------------------------------------------------------------- receiving

  const INPUT_MSG_ALLOC_LIMIT: nat := 0x10_0000
  const SIZE_MAX: nat := 0xFFFF_FFFF_FFFF_FFFF

  datatype Status =
    | REQ_PARSE_OK
    | REQ_PARSE_PARTIAL
    | REQ_PARSE_RECEIVE_TIMEOUT_ERROR
    | REQ_PARSE_REMAIN_ERROR
    | REQ_PARSE_MISSING_APPVIEW_DATA_ERROR
    | REQ_PARSE_APPVIEW_SIZE_ERROR
    | REQ_PARSE_META_ERROR             // any of the errors in reading the metadata

  /** A frame from the queue: one with unreadable metadata, or the parts that matter of one with good metadata. */
  datatype Received = Garbled | Received(partial: bool, remain: CInt, data: seq<Byte>)

  type CInt = n: int | -0x8000_0000 <= n <= 0x7FFF_FFFF

  /** The comparison of an int with a size: negative numbers count as very large. */
  function AsSize(n: CInt): nat {
    if n < 0 then n + SIZE_MAX + 1 else n
  }

  /** ipcParseSingleFrame, behind the metadata. The bound on remain is set anew for every frame. */
  function Parse(f: Received, remainLen: nat): (r: (Status, seq<Byte>)) {
    if f.Garbled? then (REQ_PARSE_META_ERROR, [])
    else if AsSize(f.remain) >= remainLen then (REQ_PARSE_REMAIN_ERROR, [])
    else if f.data == [] then (REQ_PARSE_MISSING_APPVIEW_DATA_ERROR, [])
    else (if f.partial then REQ_PARSE_PARTIAL else REQ_PARSE_OK, f.data)
  }

  predicate Good(f: Received) {
    f.Received? && f.data != [] && AsSize(f.remain) < SIZE_MAX
  }

  predicate AllGood(frames: seq<Received>) {
    forall i | 0 <= i < |frames| :: Good(frames[i])
  }

  predicate GoodPartial(frames: seq<Received>, n: int) {
    n <= |frames| && forall i | 0 <= i < n :: Good(frames[i]) && frames[i].partial
  }

  /** The first n frames make a whole request: the last of them is the first that is not partial. */
  predicate Whole(frames: seq<Received>, n: int) {
    1 <= n <= |frames| && GoodPartial(frames, n - 1) && Good(frames[n - 1]) && !frames[n - 1].partial
  }

  /** Each frame's data goes over the last byte of what came before. */
  function Assembled(frames: seq<Received>): (s: seq<Byte>)
    requires frames != [] && AllGood(frames)
    ensures s != []
  {
    assert Good(frames[|frames| - 1]);
    var before, data := frames[..|frames| - 1], frames[|frames| - 1].data;
    if before == [] then data else var s := Assembled(before); s[..|s| - 1] + data
  }

  lemma {:induction false} AssembledGrows(frames: seq<Received>, m: nat)
    requires AllGood(frames) && 0 < m <= |frames|
    ensures |Assembled(frames[..m])| <= |Assembled(frames)|
  {
    if m == |frames| {
      assert frames[..m] == frames;
    } else {
      var before := frames[..|frames| - 1];
      AssembledGrows(before, m);
      assert before[..m] == frames[..m];
      assert Good(frames[|frames| - 1]);
    }
  }

  /** A request cut up in any way, every piece ended by a NUL, comes out as the whole text and one NUL. */
  lemma {:induction false} Reassembled(chunks: seq<seq<Byte>>, frames: seq<Received>)
    requires |frames| == |chunks| > 0 && AllGood(frames)
    requires forall i | 0 <= i < |chunks| :: frames[i].Received? && frames[i].data == chunks[i] + [0]
    ensures Assembled(frames) == Concat(chunks) + [0]
  {
    var n := |chunks| - 1;
    if n == 0 {
      assert Concat(chunks) == chunks[0] + Concat([]);
    } else {
      Reassembled(chunks[..n], frames[..n]);
      ConcatLast(chunks);
      assert Concat(chunks[..n]) + (chunks[n] + [0]) == Concat(chunks) + [0];
    }
  }

  /** appviewMsgAppend */
  method MsgAppend(msg: array<Byte>, frame: seq<Byte>) returns (temp: array?<Byte>)
    requires msg.Length > 0 && frame != []
    ensures temp == null <==> msg.Length - 1 + |frame| > INPUT_MSG_ALLOC_LIMIT
    ensures temp != null ==> fresh(temp) && temp[..] == msg[..msg.Length - 1] + frame
  {
    var newMsgLen := msg.Length - 1 + |frame|;
    if newMsgLen > INPUT_MSG_ALLOC_LIMIT { return null; }
    temp := new Byte[newMsgLen];
    forall i | 0 <= i < msg.Length - 1 { temp[i] := msg[i]; }
    forall i | 0 <= i < |frame| { temp[msg.Length - 1 + i] := frame[i]; }
  }

  /** The first n frames are a whole request, and within the size limit unless it is a single frame. */
  predicate Delivers(frames: seq<Received>, n: int) {
    Whole(frames, n) && (n == 1 || |Assembled(frames[..n])| <= INPUT_MSG_ALLOC_LIMIT)
  }

  lemma AssembledNext(frames: seq<Received>, i: nat)
    requires i < |frames| && GoodPartial(frames, i) && Good(frames[i])
    ensures AllGood(frames[..i]) && AllGood(frames[..i + 1])
    ensures Assembled(frames[..i + 1]) ==
              if i == 0 then frames[i].data
              else var s := Assembled(frames[..i]); s[..|s| - 1] + frames[i].data
  {
    assert frames[..i + 1][..i] == frames[..i];
  }

  lemma AllPartial(frames: seq<Received>)
    requires GoodPartial(frames, |frames|)
    ensures AllGood(frames)
  {
  }

  lemma OnlyOneWhole(frames: seq<Received>, m: nat, n: nat)
    requires Whole(frames, m) && Whole(frames, n)
    ensures m == n
  {
  }

  /** Nothing is delivered once the frames run out, or one is bad, or they are too much. */
  lemma NoDelivery(frames: seq<Received>, i: nat, n: nat)
    requires i <= |frames| && GoodPartial(frames, i)
    requires i < |frames| && Good(frames[i]) ==>
              i > 0 && AllGood(frames[..i + 1]) && |Assembled(frames[..i + 1])| > INPUT_MSG_ALLOC_LIMIT
    ensures !Delivers(frames, n)
  {
    if i < n && Whole(frames, n) && Good(frames[i]) {
      AssembledGrows(frames[..n], i + 1);
      assert frames[..n][..i + 1] == frames[..i + 1];
    }
  }

  // ---------------------------------------------------------------- the bound on remain

  /**
   * The loop from frame i on, with `msg` put together so far. In the code every frame is held to SIZE_MAX; the bound
   * `carried` from frame to frame is what its comparison with the previous frame is meant to be.
   */
  function Handle(frames: seq<Received>, i: nat, msg: seq<Byte>, bound: nat, carried: bool): (Status, Option<seq<Byte>>)
    requires i <= |frames| && (i > 0 ==> msg != [])
    decreases |frames| - i
  {
    if i == |frames| then (REQ_PARSE_RECEIVE_TIMEOUT_ERROR, None)
    else
      var (status, data) := Parse(frames[i], bound);
      if status != REQ_PARSE_OK && status != REQ_PARSE_PARTIAL then (status, None)
      else if i > 0 && |msg| - 1 + |data| > INPUT_MSG_ALLOC_LIMIT then (REQ_PARSE_APPVIEW_SIZE_ERROR, None)
      else
        var msg' := if i == 0 then data else msg[..|msg| - 1] + data;
        if status == REQ_PARSE_OK then (status, Some(msg'))
        else Handle(frames, i + 1, msg', if carried then AsSize(frames[i].remain) else SIZE_MAX, carried)
  }

  /** How many frames the loop of the code looks at. */
  function Looked(frames: seq<Received>, i: nat, msg: seq<Byte>): (n: nat)
    requires i <= |frames| && (i > 0 ==> msg != [])
    ensures i <= n <= |frames| && (i < |frames| ==> i < n)
    decreases |frames| - i
  {
    if i == |frames| then i
    else
      var (status, data) := Parse(frames[i], SIZE_MAX);
      if status != REQ_PARSE_PARTIAL || (i > 0 && |msg| - 1 + |data| > INPUT_MSG_ALLOC_LIMIT) then i + 1
      else Looked(frames, i + 1, if i == 0 then data else msg[..|msg| - 1] + data)
  }

  /** What frame j says remains is less than what the frame before it says. */
  predicate Falls(frames: seq<Received>, j: nat)
    requires 0 < j < |frames|
  {
    frames[j].Received? && frames[j - 1].Received? ==> AsSize(frames[j].remain) < AsSize(frames[j - 1].remain)
  }

  predicate RemainFalls(frames: seq<Received>, i: nat, n: nat)
    requires n <= |frames|
  {
    forall j: nat | i <= j < n && 0 < j :: Falls(frames, j)
  }

  /** Two frames with the same remain are delivered, although a comparison with the previous frame refuses them. */
  lemma RemainNotCompared(a: seq<Byte>, b: seq<Byte>, r: CInt)
    requires a != [] && b != [] && r != -1 && |a| - 1 + |b| <= INPUT_MSG_ALLOC_LIMIT
    ensures var frames := [Received(true, r, a), Received(false, r, b)];
      && Handle(frames, 0, [], SIZE_MAX, false) == (REQ_PARSE_OK, Some(a[..|a| - 1] + b))
      && Handle(frames, 0, [], SIZE_MAX, true) == (REQ_PARSE_REMAIN_ERROR, None)
  {
    var frames := [Received(true, r, a), Received(false, r, b)];
    assert Handle(frames, 1, a, SIZE_MAX, false) == (REQ_PARSE_OK, Some(a[..|a| - 1] + b));
    assert Handle(frames, 1, a, AsSize(r), true) == (REQ_PARSE_REMAIN_ERROR, None);
  }

  /** The last of the first n frames has a remain of -1, which no bound allows. */
  predicate EndsWithMinusOne(frames: seq<Received>, n: nat)
    requires n <= |frames|
  {
    n > 0 && frames[n - 1].Received? && frames[n - 1].remain == -1
  }

  /** The code answers with the error for remain exactly when the last frame it looks at has a remain of -1. */
  lemma {:induction false} RemainError(frames: seq<Received>, i: nat, msg: seq<Byte>)
    requires i < |frames| && (i > 0 ==> msg != [])
    ensures Handle(frames, i, msg, SIZE_MAX, false).0 == REQ_PARSE_REMAIN_ERROR <==>
              EndsWithMinusOne(frames, Looked(frames, i, msg))
    decreases |frames| - i
  {
    var (status, data) := Parse(frames[i], SIZE_MAX);
    if status == REQ_PARSE_PARTIAL && !(i > 0 && |msg| - 1 + |data| > INPUT_MSG_ALLOC_LIMIT) && i + 1 < |frames| {
      RemainError(frames, i + 1, if i == 0 then data else msg[..|msg| - 1] + data);
    }
  }

  lemma {:induction false} SameFrom(frames: seq<Received>, i: nat, msg: seq<Byte>, bound: nat)
    requires i <= |frames| && (i > 0 ==> msg != [])
    requires if i == 0 then bound == SIZE_MAX
             else frames[i - 1].Received? && bound == AsSize(frames[i - 1].remain) < SIZE_MAX
    ensures var code := Handle(frames, i, msg, SIZE_MAX, false);
      Handle(frames, i, msg, bound, true) == code <==>
        code.0 == REQ_PARSE_REMAIN_ERROR || RemainFalls(frames, i, Looked(frames, i, msg))
    decreases |frames| - i
  {
    if i < |frames| {
      var n := Looked(frames, i, msg);
      OnlyOkDelivers(frames, i, msg, SIZE_MAX, false);
      if frames[i].Received? && AsSize(frames[i].remain) < bound && frames[i].data != [] && frames[i].partial
         && !(i > 0 && |msg| - 1 + |frames[i].data| > INPUT_MSG_ALLOC_LIMIT)
      {
        var msg' := if i == 0 then frames[i].data else msg[..|msg| - 1] + frames[i].data;
        SameFrom(frames, i + 1, msg', AsSize(frames[i].remain));
        assert n == Looked(frames, i + 1, msg');
        assert i > 0 ==> Falls(frames, i);
        assert RemainFalls(frames, i, n) <==> RemainFalls(frames, i + 1, n);
      } else if i > 0 {
        assert !Falls(frames, i) ==> !RemainFalls(frames, i, n);
        assert n == i + 1 && Falls(frames, i) ==> RemainFalls(frames, i, n);
      }
    }
  }

  lemma {:induction false} OnlyOkDelivers(frames: seq<Received>, i: nat, msg: seq<Byte>, bound: nat, carried: bool)
    requires i <= |frames| && (i > 0 ==> msg != [])
    ensures var r := Handle(frames, i, msg, bound, carried); r.1.Some? <==> r.0 == REQ_PARSE_OK
    decreases |frames| - i
  {
    if i < |frames| {
      var (status, data) := Parse(frames[i], bound);
      if status == REQ_PARSE_PARTIAL && !(i > 0 && |msg| - 1 + |data| > INPUT_MSG_ALLOC_LIMIT) {
        OnlyOkDelivers(frames, i + 1, if i == 0 then data else msg[..|msg| - 1] + data,
                       if carried then AsSize(frames[i].remain) else SIZE_MAX, carried);
      }
    }
  }

  /**
   * A handler that compares each remain with the one before answers as the code does if and only if remain falls over
   * all the frames the code looks at, or is -1 in the last of them.
   */
  lemma ComparisonMatters(frames: seq<Received>)
    ensures var n := Looked(frames, 0, []);
      Handle(frames, 0, [], SIZE_MAX, true) == Handle(frames, 0, [], SIZE_MAX, false) <==>
        RemainFalls(frames, 0, n) || EndsWithMinusOne(frames, n)
  {
    SameFrom(frames, 0, [], SIZE_MAX);
    if frames != [] { RemainError(frames, 0, []); }
  }

  /**
   * ipcRequestHandler on the frames that arrive before the queue stays empty: there is a message exactly
   * when they begin with a whole request within the limit, and it is that request.
   */
  method RequestHandler(frames: seq<Received>) returns (status: Status, msg: Option<seq<Byte>>)
    ensures (status, msg) == Handle(frames, 0, [], SIZE_MAX, false)
    ensures msg.Some? <==> status == REQ_PARSE_OK
    ensures msg.Some? <==> exists n: nat :: Delivers(frames, n)
    ensures msg.Some? ==> forall n: nat | Whole(frames, n) :: msg.value == Assembled(frames[..n])
    ensures status == REQ_PARSE_RECEIVE_TIMEOUT_ERROR <==>
              GoodPartial(frames, |frames|) && (|frames| < 2 || |Assembled(frames)| <= INPUT_MSG_ALLOC_LIMIT)
  {
    hide Assembled, AllGood;
    var msgRes: array?<Byte> := null;
    var i := 0;
    while true
      invariant 0 <= i <= |frames| && GoodPartial(frames, i)
      invariant msgRes == null <==> i == 0
      invariant i > 0 ==> AllGood(frames[..i]) && msgRes[..] == Assembled(frames[..i])
      invariant i > 1 ==> |Assembled(frames[..i])| <= INPUT_MSG_ALLOC_LIMIT
      invariant Handle(frames, 0, [], SIZE_MAX, false) ==
                Handle(frames, i, if i == 0 then [] else Assembled(frames[..i]), SIZE_MAX, false)
      decreases |frames| - i
    {
      if i == |frames| {
        forall n: nat ensures !Delivers(frames, n) { NoDelivery(frames, i, n); }
        assert frames[..i] == frames;
        return REQ_PARSE_RECEIVE_TIMEOUT_ERROR, None;
      }
      var parsed := Parse(frames[i], SIZE_MAX);
      status := parsed.0;
      if status != REQ_PARSE_OK && status != REQ_PARSE_PARTIAL {
        forall n: nat ensures !Delivers(frames, n) { NoDelivery(frames, i, n); }
        return status, None;
      }
      var frame := parsed.1;
      AssembledNext(frames, i);
      if msgRes == null {
        msgRes := new Byte[|frame|](j requires 0 <= j < |frame| => frame[j]);
        assert msgRes[..] == frame;
      } else {
        var temp := MsgAppend(msgRes, frame);
        if temp == null {
          forall n: nat ensures !Delivers(frames, n) { NoDelivery(frames, i, n); }
          if GoodPartial(frames, |frames|) { AllPartial(frames); AssembledGrows(frames, i + 1); }
          return REQ_PARSE_APPVIEW_SIZE_ERROR, None;
        }
        msgRes := temp;
      }
      i := i + 1;
      if status != REQ_PARSE_PARTIAL {
        assert Delivers(frames, i);
        forall n: nat | Whole(frames, n) ensures n == i { OnlyOneWhole(frames, n, i); }
        return status, Some(msgRes[..]);
      }
    }
  }
}
