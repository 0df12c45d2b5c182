/**
 * HTTP/2 frame reassembly, parseHttp2 of src/httpstate.c.
 *
 * Bytes arrive in chunks cut anywhere. A frame is nine bytes of header, the first three its payload
 * length (section 4.1 of RFC 7540), and the payload. What does not yet make a whole frame waits in a
 * stash; whole frames of type HEADERS, PUSH_PROMISE and CONTINUATION are posted.
 */
module Http2 {
  import opened Bytes

  // ---------------------------------------------------------------- frames of a byte stream

  const HEADER_LEN: nat := 9
  const MAGIC_LEN: nat := 24

  // "PRI * HTTP/2.0\r\n\r\nSM\r\n\r\n"
  const MAGIC: seq<Byte> :=
    [80, 82, 73, 32, 42, 32, 72, 84, 84, 80, 47, 50, 46, 48, 13, 10, 13, 10, 83, 77, 13, 10, 13, 10]

  /** The length of the frame that s begins with, header included. */
  function FrameSize(s: seq<Byte>): (n: nat)
    requires |s| >= HEADER_LEN
    ensures n >= HEADER_LEN
  {
    HEADER_LEN + U24(s[0], s[1], s[2])
  }

  predicate Incomplete(s: seq<Byte>) {
    |s| < HEADER_LEN || |s| < FrameSize(s)
  }

  /** The whole frames at the front of a stream. */
  function Frames(s: seq<Byte>): seq<seq<Byte>>
    decreases |s|
  {
    if Incomplete(s) then [] else [s[..FrameSize(s)]] + Frames(s[FrameSize(s)..])
  }

  /** What is left of a stream behind its whole frames. */
  function Rest(s: seq<Byte>): seq<Byte>
    decreases |s|
  {
    if Incomplete(s) then s else Rest(s[FrameSize(s)..])
  }

  predicate Interesting(frame: seq<Byte>) {
    |frame| > 3 && frame[3] in {1, 5, 9}
  }

  function Posted(frames: seq<seq<Byte>>): seq<seq<Byte>> {
    if frames == [] then []
    else (if Interesting(frames[0]) then [frames[0]] else []) + Posted(frames[1..])
  }

  predicate EndsHeaders(frame: seq<Byte>) {
    |frame| > 4 && frame[4] / 4 % 2 == 1
  }

  predicate AnyEndsHeaders(frames: seq<seq<Byte>>) {
    exists f :: f in frames && EndsHeaders(f)
  }

  ghost predicate WholeFrame(f: seq<Byte>) {
    |f| >= HEADER_LEN && FrameSize(f) == |f|
  }

  lemma FramesCons(s: seq<Byte>, f: seq<Byte>, t: seq<Byte>)
    requires WholeFrame(f) && s == f + t
    ensures !Incomplete(s) && Frames(s) == [f] + Frames(t) && Rest(s) == Rest(t)
  {
    assert s[..|f|] == f && s[|f|..] == t;
  }

  lemma FirstFrame(s: seq<Byte>) returns (f: seq<Byte>, t: seq<Byte>)
    requires !Incomplete(s)
    ensures WholeFrame(f) && s == f + t && |f| == FrameSize(s)
  {
    f, t := s[..FrameSize(s)], s[FrameSize(s)..];
  }

  lemma {:induction false} RestIncomplete(s: seq<Byte>)
    ensures Incomplete(Rest(s))
    decreases |s|
  {
    if !Incomplete(s) { RestIncomplete(s[FrameSize(s)..]); }
  }

  /** A stream splits anywhere: what the front leaves over, followed by the back, gives the other frames. */
  lemma {:induction false} FramesSplit(s: seq<Byte>, t: seq<Byte>)
    ensures Frames(s + t) == Frames(s) + Frames(Rest(s) + t)
    ensures Rest(s + t) == Rest(Rest(s) + t)
    decreases |s|
  {
    if !Incomplete(s) {
      var f, u := FirstFrame(s);
      FramesCons(s, f, u);
      assert s + t == f + (u + t);
      FramesCons(s + t, f, u + t);
      FramesSplit(u, t);
    }
  }

  // ---------------------------------------------------------------- frames as they are printed

  const HEADERS: Byte := 1
  const PUSH_PROMISE: Byte := 5
  const CONTINUATION: Byte := 9

  /** A frame of section 4.1 of RFC 7540. */
  datatype Frame = Frame(kind: Byte, flags: Byte, stream: nat, payload: seq<Byte>)

  function PrintFrame(f: Frame): seq<Byte> {
    Be24(|f.payload|) + [f.kind, f.flags] + Be32(f.stream) + f.payload
  }

  function PrintFrames(fs: seq<Frame>): seq<seq<Byte>> {
    if fs == [] then [] else [PrintFrame(fs[0])] + PrintFrames(fs[1..])
  }

  /** The frames that carry parts of a header block. */
  function OfHeaders(fs: seq<Frame>): seq<Frame> {
    if fs == [] then []
    else (if fs[0].kind in {HEADERS, PUSH_PROMISE, CONTINUATION} then [fs[0]] else []) + OfHeaders(fs[1..])
  }

  /** Payload lengths fit their 24 bits. */
  predicate AllFit(fs: seq<Frame>) {
    forall f | f in fs :: |f.payload| < 16777216
  }

  /** A printed frame is measured at its own length, and its kind and its END_HEADERS flag are read back. */
  lemma FramePrinted(f: Frame)
    requires |f.payload| < 16777216
    ensures WholeFrame(PrintFrame(f)) && |PrintFrame(f)| == 9 + |f.payload|
    ensures Interesting(PrintFrame(f)) <==> f.kind in {HEADERS, PUSH_PROMISE, CONTINUATION}
    ensures EndsHeaders(PrintFrame(f)) <==> f.flags / 4 % 2 == 1
  {
    hide Be24, Be32, U24;
    var p, len := PrintFrame(f), Be24(|f.payload|);
    Be24Value(|f.payload|);
    assert p[0] == len[0] && p[1] == len[1] && p[2] == len[2] && p[3] == f.kind && p[4] == f.flags;
  }

  /** A stream of printed frames is parted into just those frames, and nothing is left over. */
  lemma {:induction false} FramesReadBack(fs: seq<Frame>)
    requires AllFit(fs)
    ensures Frames(Concat(PrintFrames(fs))) == PrintFrames(fs) && Rest(Concat(PrintFrames(fs))) == []
  {
    hide PrintFrame, WholeFrame;
    if fs != [] {
      var f, rest := fs[0], fs[1..];
      FramePrinted(f);
      FramesReadBack(rest);
      ConcatCons(PrintFrame(f), PrintFrames(rest), PrintFrames(fs));
      FramesCons(Concat(PrintFrames(fs)), PrintFrame(f), Concat(PrintFrames(rest)));
    }
  }

  lemma {:induction false} PostedPrinted(fs: seq<Frame>)
    requires AllFit(fs)
    ensures Posted(PrintFrames(fs)) == PrintFrames(OfHeaders(fs))
  {
    hide PrintFrame, Interesting;
    if fs != [] {
      var f, rest := fs[0], fs[1..];
      FramePrinted(f);
      PostedPrinted(rest);
      assert PrintFrames(fs)[1..] == PrintFrames(rest);
      assert ([f] + OfHeaders(rest))[1..] == OfHeaders(rest);
      assert [] + OfHeaders(rest) == OfHeaders(rest) && [] + Posted(PrintFrames(rest)) == Posted(PrintFrames(rest));
    }
  }

  lemma {:induction false} PostedAppend(a: seq<seq<Byte>>, b: seq<seq<Byte>>)
    ensures Posted(a + b) == Posted(a) + Posted(b)
    decreases |a|
  {
    if a == [] { assert a + b == b; }
    else {
      assert (a + b)[1..] == a[1..] + b;
      PostedAppend(a[1..], b);
    }
  }

  /** Frames and leftover are the stream, byte for byte. */
  lemma {:induction false} FramesCoverStream(s: seq<Byte>)
    ensures Concat(Frames(s)) + Rest(s) == s
    ensures forall f | f in Frames(s) :: WholeFrame(f)
    decreases |s|
  {
    if Incomplete(s) { assert Concat([]) + s == s; }
    else {
      var f, t := FirstFrame(s);
      FramesCons(s, f, t);
      FramesCoverStream(t);
      ConcatCons(f, Frames(t), Frames(s));
      AppendAssoc(f, Concat(Frames(t)), Rest(t));
    }
  }

  lemma ConcatCons(f: seq<Byte>, fs: seq<seq<Byte>>, all: seq<seq<Byte>>)
    requires all == [f] + fs
    ensures Concat(all) == f + Concat(fs)
  {
    assert all[1..] == fs;
  }

  // ---------------------------------------------------------------- the scan the code performs

  datatype Scanned = Scanned(frames: seq<seq<Byte>>, stash: seq<Byte>)

  /** The chunk begins with the connection preface. */
  predicate StartsWithMagic(chunk: seq<Byte>) {
    |chunk| >= MAGIC_LEN && chunk[..MAGIC_LEN] == MAGIC
  }

  /**
   * The loop over one chunk, of which buf is still unread. The code tests the chunk, not the unread
   * part, for the preface: when the chunk begins with it, every pass drops 24 bytes.
   */
  function Scan(magic: bool, stash: seq<Byte>, buf: seq<Byte>): Scanned
    requires Incomplete(stash)
    decreases |buf|
  {
    if buf == [] then Scanned([], stash)
    else
      var b := if magic && |buf| >= MAGIC_LEN then buf[MAGIC_LEN..] else buf;
      if b == [] then Scanned([], stash)
      else if Incomplete(stash + b) then Scanned([], stash + b)
      else
        var n := FrameSize(stash + b);
        assert |stash| >= HEADER_LEN ==> FrameSize(stash) == n;
        var next := Scan(magic, [], b[n - |stash|..]);
        Scanned([(stash + b)[..n]] + next.frames, next.stash)
  }

  /**
   * The same loop ends behind the last byte of a frame: nothing is stashed, and no preface is the last thing it saw.
   */
  predicate EndsWithFrame(magic: bool, stash: seq<Byte>, buf: seq<Byte>)
    requires Incomplete(stash)
    decreases |buf|
  {
    buf == [] ||
    var b := if magic && |buf| >= MAGIC_LEN then buf[MAGIC_LEN..] else buf;
    && b != [] && !Incomplete(stash + b)
    && var n := FrameSize(stash + b);
       assert |stash| >= HEADER_LEN ==> FrameSize(stash) == n;
       EndsWithFrame(magic, [], b[n - |stash|..])
  }

  /** A stash, being incomplete, ends before the first frame of stash and buffer does. */
  lemma FrameAcrossStash(stash: seq<Byte>, b: seq<Byte>, s: seq<Byte>) returns (f: seq<Byte>, t: seq<Byte>)
    requires Incomplete(stash) && s == stash + b && !Incomplete(s)
    ensures |stash| < FrameSize(s)
    ensures f == s[..FrameSize(s)] && t == b[FrameSize(s) - |stash|..] && s == f + t && WholeFrame(f)
  {
    var n := FrameSize(s);
    assert |stash| >= HEADER_LEN ==> FrameSize(stash) == n;
    f, t := s[..n], b[n - |stash|..];
  }

  lemma ScanFirst(magic: bool, stash: seq<Byte>, buf: seq<Byte>, b: seq<Byte>, s: seq<Byte>)
    returns (f: seq<Byte>, t: seq<Byte>)
    requires Incomplete(stash) && b != [] && s == stash + b && !Incomplete(s)
    requires buf != [] && b == if magic && |buf| >= MAGIC_LEN then buf[MAGIC_LEN..] else buf
    ensures WholeFrame(f) && s == f + t && |f| == FrameSize(s) && |t| < |b|
    ensures Scan(magic, stash, buf) == Scanned([f] + Scan(magic, [], t).frames, Scan(magic, [], t).stash)
    ensures EndsWithFrame(magic, stash, buf) == EndsWithFrame(magic, [], t)
  {
    hide Scan, EndsWithFrame, FrameSize, U24;
    f, t := FrameAcrossStash(stash, b, s);
    var g := ScanTakes(magic, stash, buf, b, s, t, FrameSize(s));
  }

  /** When the unread bytes are only the preface, or complete no frame, the scan ends. */
  lemma ScanEnds(magic: bool, stash: seq<Byte>, buf: seq<Byte>, b: seq<Byte>)
    requires Incomplete(stash) && buf != [] && b == if magic && |buf| >= MAGIC_LEN then buf[MAGIC_LEN..] else buf
    ensures b == [] ==> magic && Scan(magic, stash, buf) == Scanned([], stash)
    ensures b != [] && Incomplete(stash + b) ==> Scan(magic, stash, buf) == Scanned([], stash + b)
    ensures b == [] || Incomplete(stash + b) ==> !EndsWithFrame(magic, stash, buf)
  {
  }

  lemma ScanDone(magic: bool, stash: seq<Byte>)
    requires Incomplete(stash)
    ensures Scan(magic, stash, []) == Scanned([], stash) && EndsWithFrame(magic, stash, []) && Posted([]) == []
  {
  }

  lemma ScanTakes(magic: bool, stash: seq<Byte>, buf: seq<Byte>, b: seq<Byte>, s: seq<Byte>, rest: seq<Byte>, n: nat)
    returns (f: seq<Byte>)
    requires Incomplete(stash) && b != [] && s == stash + b && !Incomplete(s)
    requires buf != [] && b == if magic && |buf| >= MAGIC_LEN then buf[MAGIC_LEN..] else buf
    requires |stash| <= n <= |s| && n == FrameSize(s) && rest == b[n - |stash|..]
    ensures f == s[..n] && EndsWithFrame(magic, stash, buf) == EndsWithFrame(magic, [], rest)
    ensures Scan(magic, stash, buf) == Scanned([f] + Scan(magic, [], rest).frames, Scan(magic, [], rest).stash)
  {
    f := s[..n];
  }

  /** Without the preface the scan finds exactly the frames of stash and chunk put together. */
  lemma {:induction false} ScanIsFrames(stash: seq<Byte>, buf: seq<Byte>, s: seq<Byte>)
    requires Incomplete(stash) && s == stash + buf
    ensures Scan(false, stash, buf) == Scanned(Frames(s), Rest(s))
    ensures buf != [] ==> (EndsWithFrame(false, stash, buf) <==> Rest(s) == [])
    decreases |buf|
  {
    if buf != [] && !Incomplete(s) {
      var f, t := ScanFirst(false, stash, buf, buf, s);
      FramesCons(s, f, t);
      ScanIsFrames([], t, t);
    }
  }

  /** The bytes a scan accounts for: those in the frames it looked at, and those it stashed. */
  function Weight(r: Scanned): nat {
    |Concat(r.frames)| + |r.stash|
  }

  lemma {:induction false} ScanWeight(magic: bool, stash: seq<Byte>, buf: seq<Byte>)
    requires Incomplete(stash)
    ensures Weight(Scan(magic, stash, buf)) <= |stash| + |buf|
    ensures magic && |buf| >= MAGIC_LEN ==> Weight(Scan(magic, stash, buf)) <= |stash| + |buf| - MAGIC_LEN
    decreases |buf|
  {
    var b := if magic && |buf| >= MAGIC_LEN then buf[MAGIC_LEN..] else buf;
    if buf != [] && b != [] && !Incomplete(stash + b) {
      var f, t := ScanFirst(magic, stash, buf, b, stash + b);
      ScanWeight(magic, [], t);
      ConcatCons(f, Scan(magic, [], t).frames, Scan(magic, stash, buf).frames);
    }
  }

  /** Too short a buffer is never tested for the preface. */
  lemma {:induction false} ScanShort(stash: seq<Byte>, buf: seq<Byte>)
    requires Incomplete(stash) && |buf| < MAGIC_LEN
    ensures Scan(true, stash, buf) == Scan(false, stash, buf)
    decreases |buf|
  {
    if buf != [] && !Incomplete(stash + buf) {
      var s := stash + buf;
      var f, t := ScanFirst(true, stash, buf, buf, s);
      var g, u := ScanFirst(false, stash, buf, buf, s);
      SamePrefix(s, f, t, g, u);
      ScanShort([], t);
    }
  }

  /** How many bytes of the stream follow its first frame (none, when it has no whole frame). */
  function BehindFirstFrame(s: seq<Byte>): nat {
    if Incomplete(s) then 0 else |s| - FrameSize(s)
  }

  /** The test is whether the preface is in front of the chunk. */
  lemma MagicInFront(chunk: seq<Byte>)
    ensures StartsWithMagic(chunk) <==> MAGIC <= chunk
  {
  }

  /**
   * The preface is meant to be skipped once. The code does so exactly when fewer than 24 bytes follow
   * the first frame behind it: then every byte behind the preface is examined or stashed. Otherwise
   * further bytes of the stream are dropped as if they were the preface.
   */
  lemma PrefaceSkippedOnce(stash: seq<Byte>, data: seq<Byte>)
    requires Incomplete(stash)
    ensures var chunk, s := MAGIC + data, stash + data;
            Scan(StartsWithMagic(chunk), stash, chunk) == Scanned(Frames(s), Rest(s)) <==>
              BehindFirstFrame(s) < MAGIC_LEN
  {
    MagicInFront(MAGIC + data);
    var buf, s := MAGIC + data, stash + data;
    assert buf[MAGIC_LEN..] == data;
    if data == [] { assert s == stash; }
    else if !Incomplete(s) {
      var f, t := ScanFirst(true, stash, buf, data, s);
      FramesCons(s, f, t);
      PrefaceSkippedOnceTail(f, t);
    }
  }

  lemma PrefaceSkippedOnceTail(f: seq<Byte>, t: seq<Byte>)
    ensures var next := Scan(true, [], t);
            Scanned([f] + next.frames, next.stash) == Scanned([f] + Frames(t), Rest(t)) <==> |t| < MAGIC_LEN
  {
    var next := Scan(true, [], t);
    ScanWeight(true, [], t);
    if |t| < MAGIC_LEN { ScanShort([], t); }
    ScanIsFrames([], t, t);
    FramesCoverStream(t);
    assert ([f] + next.frames)[1..] == next.frames && ([f] + Frames(t))[1..] == Frames(t);
  }

  lemma SamePrefix(s: seq<Byte>, f: seq<Byte>, t: seq<Byte>, g: seq<Byte>, u: seq<Byte>)
    requires s == f + t && s == g + u && WholeFrame(f) && WholeFrame(g)
    ensures f == g && t == u
  {
    assert |f| == FrameSize(s) == |g|;
    assert f == s[..|f|] && t == s[|f|..];
  }

  lemma PostedOne(f: seq<Byte>)
    ensures Posted([f]) == if Interesting(f) then [f] else []
  {
    assert [f][1..] == [];
  }

  /** Chunks that show it: the preface, any uninteresting frame, and a HEADERS frame of 24 bytes, which is lost. */
  lemma PrefaceEatsFrame(first: seq<Byte>, headers: seq<Byte>, s: seq<Byte>, chunk: seq<Byte>)
    requires WholeFrame(first) && !Interesting(first)
    requires WholeFrame(headers) && |headers| == MAGIC_LEN && headers[3] == 1
    requires s == first + headers && chunk == MAGIC + s
    ensures Scan(true, [], chunk) == Scanned([first], [])
    ensures Posted(Frames(s)) == [headers]
  {
    FramesCons(s, first, headers);
    assert chunk[MAGIC_LEN..] == s;
    var f, t := ScanFirst(true, [], chunk, s, s);
    SamePrefix(s, f, t, first, headers);
    assert Scan(true, [], headers) == Scanned([], []) by { assert headers[MAGIC_LEN..] == []; }
    PostedTwo(first, headers);
  }

  lemma PostedTwo(first: seq<Byte>, headers: seq<Byte>)
    requires WholeFrame(headers) && Interesting(headers) && !Interesting(first)
    ensures Posted([first] + Frames(headers)) == [headers]
  {
    FramesCons(headers, headers, []);
    assert Frames(headers) == [headers];
    PostedAppend([first], [headers]);
    PostedOne(first);
    PostedOne(headers);
  }

  // ---------------------------------------------------------------- any chunking of a stream

  /** No chunk has the preface in front. */
  predicate NoPreface(chunks: seq<seq<Byte>>) {
    forall i | 0 <= i < |chunks| :: !(MAGIC <= chunks[i])
  }

  /** Chunk after chunk from an empty stash: the frames looked at, and the stash at the end. */
  function ScanAll(chunks: seq<seq<Byte>>): (r: Scanned)
    ensures Incomplete(r.stash)
    decreases |chunks|
  {
    if chunks == [] then Scanned([], [])
    else
      var front := ScanAll(chunks[..|chunks| - 1]);
      var chunk := chunks[|chunks| - 1];
      var last := Scan(StartsWithMagic(chunk), front.stash, chunk);
      ScanLeavesIncomplete(StartsWithMagic(chunk), front.stash, chunk);
      Scanned(front.frames + last.frames, last.stash)
  }

  lemma {:induction false} ScanLeavesIncomplete(magic: bool, stash: seq<Byte>, buf: seq<Byte>)
    requires Incomplete(stash)
    ensures Incomplete(Scan(magic, stash, buf).stash)
    decreases |buf|
  {
    var b := if magic && |buf| >= MAGIC_LEN then buf[MAGIC_LEN..] else buf;
    if buf != [] && b != [] && !Incomplete(stash + b) {
      var f, t := ScanFirst(magic, stash, buf, b, stash + b);
      ScanLeavesIncomplete(magic, [], t);
    }
  }

  /**
   * Reassembly does not depend on chunking: however a stream is cut, as long as no chunk begins with
   * the preface, the frames posted are those of the stream, byte for byte and in order.
   */
  lemma {:induction false} ChunkingIrrelevant(chunks: seq<seq<Byte>>)
    requires NoPreface(chunks)
    ensures ScanAll(chunks) == Scanned(Frames(Concat(chunks)), Rest(Concat(chunks)))
    ensures Posted(ScanAll(chunks).frames) == Posted(Frames(Concat(chunks)))
    decreases |chunks|
  {
    hide Scan, EndsWithFrame, FrameSize, Posted, StartsWithMagic;
    if chunks != [] {
      var front, chunk := chunks[..|chunks| - 1], chunks[|chunks| - 1];
      ChunkingIrrelevant(front);
      MagicInFront(chunk);
      var rest := Rest(Concat(front));
      ScanIsFrames(rest, chunk, rest + chunk);
      FramesSplit(Concat(front), chunk);
      ConcatLast(chunks);
    }
  }

  /** Any frames, printed and cut anywhere: those that carry parts of a header block are posted, byte for byte. */
  lemma PrintedFramesPosted(fs: seq<Frame>, chunks: seq<seq<Byte>>)
    requires AllFit(fs) && Concat(chunks) == Concat(PrintFrames(fs)) && NoPreface(chunks)
    ensures ScanAll(chunks) == Scanned(PrintFrames(fs), [])
    ensures Posted(ScanAll(chunks).frames) == PrintFrames(OfHeaders(fs))
  {
    ChunkingIrrelevant(chunks);
    FramesReadBack(fs);
    PostedPrinted(fs);
  }

  // ---------------------------------------------------------------- the parser

  /** The HTTP/2 part of http_state_t for one direction, and the frames handed to cmdPostEvent so far. */
  class Parser {
    var buf: array<Byte>          // http2Buf.buf; its Length is http2Buf.size
    var len: nat                  // http2Buf.len
    var posted: seq<seq<Byte>>

    constructor ()
      ensures Valid() && Stash() == [] && posted == [] && fresh(buf)
    {
      buf := new Byte[0];
      len, posted := 0, [];
    }

    ghost predicate Fits()
      reads this
    {
      len <= buf.Length
    }

    ghost function Stash(): seq<Byte>
      requires Fits()
      reads this, buf
    {
      buf[..len]
    }

    /** The stash is always a strict prefix of one frame. */
    ghost predicate Valid()
      reads this, buf
    {
      Fits() && Incomplete(Stash())
    }

    /** http2StashFrame: append, growing the buffer in steps of 1k. */
    method StashFrame(data: seq<Byte>)
      requires Fits()
      modifies this`buf, this`len, buf
      ensures Fits() && Stash() == old(Stash()) + data
      ensures buf == old(buf) || fresh(buf)
      ensures buf == old(buf) <==> old(len) + |data| <= old(buf.Length)
      ensures buf != old(buf) ==> buf.Length % 1024 == 0 && buf.Length - len < 1024
    {
      var need := |data| + len;
      if need > buf.Length {
        need := (need + 1023) / 1024 * 1024;
        var newBuf := new Byte[need];
        forall i | 0 <= i < len { newBuf[i] := buf[i]; }
        buf := newBuf;
      }
      forall i | 0 <= i < |data| { buf[len + i] := data[i]; }
      len := len + |data|;
    }

    /** http2GetFrameLength: the payload length, some of whose bytes may be stashed already. */
    method FrameLength(data: seq<Byte>) returns (n: nat)
      requires Fits() && len + |data| >= HEADER_LEN
      ensures n + HEADER_LEN == FrameSize(Stash() + data)
    {
      var b0 := if len > 0 then buf[0] else data[0 - len];
      var b1 := if len > 1 then buf[1] else data[1 - len];
      var b2 := if len > 2 then buf[2] else data[2 - len];
      n := U24(b0, b1, b2);
    }

    /** http2GetFrameType */
    method FrameType(data: seq<Byte>) returns (t: Byte)
      requires Fits() && len + |data| >= HEADER_LEN
      ensures t == (Stash() + data)[3]
    {
      t := if len > 3 then buf[3] else data[3 - len];
    }

    /** reportHttp2: put the frame together from stash and buffer and post it. */
    method Report(data: seq<Byte>, frameLen: nat) returns (endHeaders: bool)
      requires Fits() && HEADER_LEN <= frameLen && len < frameLen <= len + |data|
      modifies this`posted
      ensures posted == old(posted) + [(Stash() + data)[..frameLen]]
      ensures endHeaders == EndsHeaders((Stash() + data)[..frameLen])
    {
      var hdr := new Byte[frameLen];
      forall i | 0 <= i < len { hdr[i] := buf[i]; }
      forall i | len <= i < frameLen { hdr[i] := data[i - len]; }
      assert hdr[..] == (Stash() + data)[..frameLen];
      endHeaders := hdr[4] / 4 % 2 == 1;
      posted := posted + [hdr[..]];
    }

    /** The loop body of parseHttp2 behind the preface test: stash everything, or take one frame off. */
    method TakeFrame(data: seq<Byte>) returns (stop: bool, used: nat, end: bool)
      requires Valid()
      modifies this, buf
      ensures Valid() && (buf == old(buf) || fresh(buf))
      ensures stop == Incomplete(old(Stash()) + data)
      ensures stop ==> Stash() == old(Stash()) + data && posted == old(posted) && !end
      ensures !stop ==>
                && len == 0 && old(len) + used == FrameSize(old(Stash()) + data) && 1 <= used <= |data|
                && var f := (old(Stash()) + data)[..old(len) + used];
                   && posted == old(posted) + (if Interesting(f) then [f] else [])
                   && end == (Interesting(f) && EndsHeaders(f))
    {
      stop, used, end := true, 0, false;
      if len + |data| < HEADER_LEN {
        StashFrame(data);
        return;
      }
      var fLen := FrameLength(data);
      var fType := FrameType(data);
      if len + |data| < HEADER_LEN + fLen {
        StashFrame(data);
        return;
      }
      ghost var f, t := FrameAcrossStash(Stash(), data, Stash() + data);
      if fType == 1 || fType == 5 || fType == 9 {
        end := Report(data, fLen + HEADER_LEN);
      }
      stop, used := false, fLen + HEADER_LEN - len;
      len := 0;
    }

    /**
     * One pass of the loop of parseHttp2 over the unread bytes. It either stops, everything unread being
     * stashed or dropped as preface, or it consumes one frame and at least one byte.
     */
    method Pass(magic: bool, unread: seq<Byte>) returns (stop: bool, rest: seq<Byte>, end: bool, ghost f: seq<Byte>)
      requires Valid() && unread != []
      modifies this, buf
      ensures Valid() && (buf == old(buf) || fresh(buf))
      ensures stop ==> Scan(magic, old(Stash()), unread) == Scanned([], Stash()) && posted == old(posted)
      ensures EndsWithFrame(magic, old(Stash()), unread) == (!stop && EndsWithFrame(magic, [], rest))
      ensures !stop ==> |rest| < |unread| && len == 0
      ensures !stop ==> posted == old(posted) + if Interesting(f) then [f] else []
      ensures !stop ==> end == (Interesting(f) && EndsHeaders(f))
      ensures !stop ==> var next := Scan(magic, [], rest);
                        Scan(magic, old(Stash()), unread) == Scanned([f] + next.frames, next.stash)
    {
      hide Scan, EndsWithFrame, FrameSize, EndsHeaders;
      stop, rest, end, f := true, unread, false, [];
      if |unread| >= MAGIC_LEN && magic {
        rest := unread[MAGIC_LEN..];
        if rest == [] {
          ScanEnds(magic, Stash(), unread, rest);
          return;
        }
      }
      ScanEnds(magic, Stash(), unread, rest);
      ghost var stash, data, s := Stash(), rest, Stash() + rest;
      var used;
      stop, used, end := TakeFrame(rest);
      if !stop {
        rest := rest[used..];
        f := ScanTakes(magic, stash, unread, data, s, rest, |stash| + used);
      }
    }

    /**
     * parseHttp2 on one chunk: posts the interesting frames of the scan and keeps its leftover. The
     * answer is whether a posted frame ended a header block, but only if the chunk ends with a frame.
     */
    method ParseHttp2(chunk: seq<Byte>) returns (sawEnd: bool)
      requires Valid()
      modifies this, buf
      ensures Valid() && (buf == old(buf) || fresh(buf))
      ensures var r := Scan(StartsWithMagic(chunk), old(Stash()), chunk);
              && Stash() == r.stash && posted == old(posted) + Posted(r.frames)
              && (sawEnd <==>
                    EndsWithFrame(StartsWithMagic(chunk), old(Stash()), chunk) && AnyEndsHeaders(Posted(r.frames)))
    {
      hide Scan, EndsWithFrame, Posted, EndsHeaders, StartsWithMagic, FrameSize;
      sawEnd := false;
      ScanDone(StartsWithMagic(chunk), Stash());
      if chunk == [] { return; }
      var magic, unread := StartsWithMagic(chunk), chunk;
      ghost var target := Scan(magic, Stash(), chunk);
      ghost var ends, seen: seq<seq<Byte>> := EndsWithFrame(magic, Stash(), chunk), [];
      while unread != []
        invariant Valid() && (buf == old(buf) || fresh(buf))
        invariant target == Continue(seen, Scan(magic, Stash(), unread))
        invariant posted == old(posted) + Posted(seen)
        invariant sawEnd == AnyEndsHeaders(Posted(seen))
        invariant ends == EndsWithFrame(magic, Stash(), unread)
        decreases |unread|
      {
        var stop, rest, end, f := Pass(magic, unread);
        if stop {
          ContinueStop(seen, Stash());
          return false;
        }
        PostedSnoc(seen, f);
        ContinueSnoc(seen, f, Scan(magic, [], rest));
        unread, sawEnd := rest, sawEnd || end;
        seen := seen + [f];
      }
      ScanDone(magic, Stash());
      ContinueStop(seen, Stash());
    }
  }

  /** A scan's result behind frames already seen. */
  ghost function Continue(seen: seq<seq<Byte>>, r: Scanned): Scanned {
    Scanned(seen + r.frames, r.stash)
  }

  lemma ContinueStop(seen: seq<seq<Byte>>, stash: seq<Byte>)
    ensures Continue(seen, Scanned([], stash)) == Scanned(seen, stash)
  {
  }

  lemma ContinueSnoc(seen: seq<seq<Byte>>, f: seq<Byte>, r: Scanned)
    ensures Continue(seen, Scanned([f] + r.frames, r.stash)) == Continue(seen + [f], r)
  {
    assert seen + ([f] + r.frames) == seen + [f] + r.frames;
  }

  lemma PostedSnoc(seen: seq<seq<Byte>>, f: seq<Byte>)
    ensures Posted(seen + [f]) == Posted(seen) + if Interesting(f) then [f] else []
    ensures AnyEndsHeaders(Posted(seen + [f])) == (AnyEndsHeaders(Posted(seen)) || (Interesting(f) && EndsHeaders(f)))
  {
    PostedAppend(seen, [f]);
    PostedOne(f);
  }
}
