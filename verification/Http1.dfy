/**
 * HTTP/1 header capture, src/httpstate.c: header text is gathered over any number of buffers up to the
 * blank line, posted, and then Content-Length bytes of body are skipped.
 */
module Http1 {
  import opened Bytes
  import opened StrSearch

  const CR: Byte := 13
  const LF: Byte := 10
  const CRLF: seq<Byte> := [CR, LF]
  const HTTP_START: seq<Byte> := [72, 84, 84, 80, 47]      // HTTP/
  const MIN_HDR_ALLOC: nat := 4096
  const MAX_HDR_ALLOC: nat := 16384

  // ---------------------------------------------------------------- the number in a Content-Length

  predicate IsDigit(c: Byte) {
    48 <= c <= 57
  }

  /** strtoull on the digits of s below the given base, stopping at the first byte that is not one. */
  function Number(s: seq<Byte>, base: nat, acc: nat): (n: nat) {
    if s == [] || !IsDigit(s[0]) || s[0] - 48 >= base then acc else Number(s[1..], base, acc * base + (s[0] - 48))
  }

  const ULLONG_MAX: nat := 0xFFFF_FFFF_FFFF_FFFF

  /** strtoull with base 0: a leading zero makes the number octal. */
  function StrToUll(s: seq<Byte>): nat {
    var n := Number(s, if s != [] && s[0] == 48 then 8 else 10, 0);
    if n > ULLONG_MAX then ULLONG_MAX else n
  }

  /** getContentLength, given the digits the regular expression captured; -1 when there is no length to skip. */
  function ContentLength(digits: seq<Byte>): (n: int)
    ensures n == -1 || 0 < n < ULLONG_MAX
  {
    var n := StrToUll(digits);
    if n == 0 || n == ULLONG_MAX then -1 else n
  }

  predicate Digits(s: seq<Byte>) {
    forall i | 0 <= i < |s| :: IsDigit(s[i])
  }

  lemma {:induction false} NumberAtLeast(s: seq<Byte>, base: nat, acc: nat)
    requires base >= 1
    ensures Number(s, base, acc) >= acc
  {
    if s != [] && IsDigit(s[0]) && s[0] - 48 < base {
      assert acc * base >= acc;
      NumberAtLeast(s[1..], base, acc * base + (s[0] - 48));
    }
  }

  /** Every digit is one of the base. */
  predicate InBase(s: seq<Byte>, base: nat) {
    forall i | 0 <= i < |s| :: IsDigit(s[i]) && s[i] - 48 < base
  }

  /** Each further digit moves the others up one place; the number ends where the digits do. */
  lemma {:induction false} NumberPlaces(s: seq<Byte>, d: Byte, rest: seq<Byte>, base: nat, acc: nat)
    requires InBase(s, base)
    ensures Number(s + [d] + rest, base, acc) ==
              if IsDigit(d) && d - 48 < base then Number(rest, base, Number(s, base, acc) * base + (d - 48))
              else Number(s, base, acc)
    decreases |s|
  {
    var whole := s + [d] + rest;
    if s == [] {
      assert whole[1..] == rest;
    } else {
      assert whole[0] == s[0] && whole[1..] == s[1..] + [d] + rest;
      NumberPlaces(s[1..], d, rest, base, acc * base + (s[0] - 48));
    }
  }

  /** Reading decimal digits as octal never gives more, and gives less once a place has counted. */
  lemma {:induction false} OctalBelowDecimal(s: seq<Byte>, a: nat, b: nat)
    requires Digits(s) && a <= b
    ensures Number(s, 8, a) <= Number(s, 10, b)
    ensures Number(s, 8, a) == Number(s, 10, b) ==> a == b && (s != [] ==> Number(s, 10, b) < 8)
  {
    if s != [] {
      var d := s[0] - 48;
      if d < 8 {
        OctalBelowDecimal(s[1..], a * 8 + d, b * 10 + d);
        NumberAtLeast(s[1..], 10, b * 10 + d);
        if s[1..] == [] { assert Number(s, 10, b) == b * 10 + d; }
      } else {
        NumberAtLeast(s[1..], 10, b * 10 + d);
      }
    }
  }

  /** The length skipped is the decimal one exactly when the digits do not start with 0 or stand for less than 8. */
  lemma LengthIsDecimal(s: seq<Byte>)
    requires Digits(s) && s != [] && 0 < Number(s, 10, 0) < ULLONG_MAX
    ensures ContentLength(s) == Number(s, 10, 0) <==> s[0] != 48 || Number(s, 10, 0) < 8
  {
    OctalBelowDecimal(s, 0, 0);
    if s[0] == 48 && Number(s, 10, 0) < 8 { SmallNumbers(s, 0); }
  }

  /** A length of zero, or one that does not fit 64 bits, is no length to skip. */
  lemma NoLength(s: seq<Byte>)
    requires Digits(s) && s != [] && (Number(s, 10, 0) == 0 || (s[0] != 48 && Number(s, 10, 0) >= ULLONG_MAX))
    ensures ContentLength(s) == -1
  {
    OctalBelowDecimal(s, 0, 0);
  }

  lemma {:induction false} SmallNumbers(s: seq<Byte>, a: nat)
    requires Digits(s) && Number(s, 10, a) < 8
    ensures Number(s, 8, a) == Number(s, 10, a)
  {
    if s != [] {
      var d := s[0] - 48;
      NumberAtLeast(s[1..], 10, a * 10 + d);
      SmallNumbers(s[1..], a * 10 + d);
      assert a == 0;
    }
  }

  // ---------------------------------------------------------------- one buffer

  /** What is being captured or skipped: http_state_t without its allocation. */
  datatype Http =
    | Idle                                                  // HTTP_NONE
    | Header(ended: bool, text: seq<Byte>, ssl: bool)       // HTTP_HDREND when ended, else HTTP_HDR
    | Body(left: nat, ssl: bool)                            // HTTP_DATA

  datatype Outcome = Outcome(http: Http, posted: seq<seq<Byte>>, found: bool)

  predicate Breaks(c: seq<Byte>, i: int) {
    0 <= i && i + 2 <= |c| && c[i] == CR && c[i + 1] == LF
  }

  /**
   * The line that starts at q of buffer c is empty, q being the start of a line inside c or after a line that ended
   * before c.
   */
  predicate BlankAt(ended: bool, c: seq<Byte>, q: int) {
    Breaks(c, q) && if q == 0 then ended else Breaks(c, q - 2)
  }

  /** The first blank line starting at or after i; -1 if none. */
  function FirstBlank(ended: bool, c: seq<Byte>, i: nat): (q: int)
    ensures q == -1 ==> forall j | i <= j :: !BlankAt(ended, c, j)
    ensures q != -1 ==> i <= q && q + 2 <= |c| && BlankAt(ended, c, q) && forall j | i <= j < q :: !BlankAt(ended, c, j)
    decreases |c| - i
  {
    if i >= |c| then -1 else if BlankAt(ended, c, i) then i else FirstBlank(ended, c, i + 1)
  }

  ghost predicate Mentions(c: seq<Byte>) {
    exists j :: OccursAt(HTTP_START, c, j)
  }

  function AfterHeader(clen: int, inBuffer: nat, ssl: bool): Http {
    if clen != -1 && clen >= inBuffer then Body(clen - inBuffer, ssl) else Idle
  }

  /** Capture continues in buffer c. `find` gives the digits of the Content-Length field of a header block. */
  function Capture(ended: bool, text: seq<Byte>, c: seq<Byte>, ssl: bool, find: seq<Byte> -> seq<Byte>): Outcome {
    var q := FirstBlank(ended, c, 0);
    if q == -1 then
      if |text| + |c| > MAX_HDR_ALLOC then Outcome(Idle, [], false)
      else Outcome(Header(if c == [] then ended else Breaks(c, |c| - 2), text + c, ssl), [], false)
    else if |text| + q > MAX_HDR_ALLOC then Outcome(Idle, [], false)
    else if |text| + q == MAX_HDR_ALLOC then Outcome(Idle, [], true)          // no room for the NUL: found, not posted
    else
      var header := text + c[..q] + [0];
      Outcome(AfterHeader(ContentLength(find(header)), |c| - q - 2, ssl), [header], true)
  }

  ghost function Look(c: seq<Byte>, ssl: bool, find: seq<Byte> -> seq<Byte>): Outcome {
    if Mentions(c) then Capture(false, [], c, ssl, find) else Outcome(Idle, [], false)
  }

  /** parseHttp1 on one buffer. */
  ghost function Next(h: Http, c: seq<Byte>, ssl: bool, find: seq<Byte> -> seq<Byte>): Outcome {
    if !h.Idle? && h.ssl != ssl then Outcome(h, [], false)
    else match h
      case Idle => Look(c, ssl, find)
      case Header(ended, text, _) => Capture(ended, text, c, ssl, find)
      case Body(n, _) => if |c| <= n then Outcome(Body(n - |c|, ssl), [], false) else Look(c[n..], ssl, find)
  }

  /** A line starts at `start`, and no blank line starts before it. */
  predicate LineStart(ended: bool, c: seq<Byte>, start: nat) {
    && start <= |c| && (start > 0 ==> Breaks(c, start - 2))
    && forall j | 0 <= j < start :: !BlankAt(ended, c, j)
  }

  lemma FirstLine(ended: bool, c: seq<Byte>)
    ensures LineStart(ended, c, 0)
  {
  }

  /** After a line that is not blank, the next line. */
  lemma LineThenLine(ended: bool, c: seq<Byte>, start: nat, e: nat)
    requires LineStart(ended, c, start) && Breaks(c, start + e) && forall j | start <= j < start + e :: !Breaks(c, j)
    requires !(e == 0 && (start > 0 || ended))
    ensures LineStart(ended, c, start + e + 2)
  {
    assert !BlankAt(ended, c, start + e);
    assert !BlankAt(ended, c, start + e + 1);
  }

  /** No line break is left, so no blank line, and what follows the last line does not end in one. */
  lemma LastLine(ended: bool, c: seq<Byte>, start: nat)
    requires LineStart(ended, c, start) && start < |c| && forall j | start <= j :: !Breaks(c, j)
    ensures FirstBlank(ended, c, 0) == -1 && !Breaks(c, |c| - 2)
  {
  }

  /** A blank line starts here, or none does before `start`. */
  lemma BlankFromHere(ended: bool, c: seq<Byte>, start: nat)
    requires LineStart(ended, c, start)
    ensures start < |c| && Breaks(c, start) && (start > 0 || ended) ==> FirstBlank(ended, c, 0) == start
    ensures FirstBlank(ended, c, 0) == -1 || FirstBlank(ended, c, 0) >= start
    ensures start == |c| ==> FirstBlank(ended, c, 0) == -1 && (c != [] ==> Breaks(c, |c| - 2))
  {
    if start < |c| && Breaks(c, start) && (start > 0 || ended) { assert BlankAt(ended, c, start); }
  }

  lemma BreakFound(c: seq<Byte>, start: nat, e: int)
    requires start <= |c| && FirstOccurrence(CRLF, c[start..], e)
    ensures e == -1 ==> forall j | start <= j :: !Breaks(c, j)
    ensures e != -1 ==> e >= 0 && Breaks(c, start + e) && forall j | start <= j < start + e :: !Breaks(c, j)
  {
    forall j | start <= j ensures Breaks(c, j) <==> OccursAt(CRLF, c[start..], j - start) {
      if Breaks(c, j) { assert c[start..][j - start..j - start + 2] == CRLF; }
      if OccursAt(CRLF, c[start..], j - start) {
        var t := c[start..][j - start..j - start + 2];
        assert t[0] == c[j] && t[1] == c[j + 1];
      }
    }
    assert e != -1 ==> OccursAt(CRLF, c[start..], (start + e) - start);
  }

  // ---------------------------------------------------------------- the parser

  datatype Phase = HTTP_NONE | HTTP_HDR | HTTP_HDREND | HTTP_DATA

  class Parser {
    const httpStart: Search
    const httpEnd: Search
    const find: seq<Byte> -> seq<Byte>
    var state: Phase
    var hdr: array?<Byte>
    var hdrlen: nat
    var hdralloc: nat
    var clen: nat
    var isSsl: bool
    var posted: seq<seq<Byte>>

    ghost predicate Searches()
      reads httpStart.bmBc, httpEnd.bmBc
    {
      httpStart.Valid() && httpStart.str == HTTP_START && httpEnd.Valid() && httpEnd.str == CRLF
    }

    ghost predicate Captured()
      reads this`hdr, this`hdrlen, this`hdralloc
    {
      && hdr != null && hdr.Length == hdralloc && hdrlen <= hdralloc
      && (hdralloc == MIN_HDR_ALLOC || hdralloc == MAX_HDR_ALLOC)
    }

    ghost predicate Empty()
      reads this`hdr, this`hdrlen, this`hdralloc
    {
      hdr == null && hdrlen == 0 && hdralloc == 0
    }

    /** Header buffer and bookkeeping agree; HTTP_DATA alone leaves hdralloc behind without a buffer. */
    ghost predicate Valid()
      reads this, httpStart.bmBc, httpEnd.bmBc
    {
      && Searches()
      && match state
         case HTTP_NONE => Empty() && clen == 0
         case HTTP_HDR => Captured()
         case HTTP_HDREND => Captured()
         case HTTP_DATA => hdr == null && hdrlen == 0 && (hdralloc == MIN_HDR_ALLOC || hdralloc == MAX_HDR_ALLOC)
    }

    ghost function Text(): (s: seq<Byte>)
      requires Empty() || Captured()
      reads this`hdr, this`hdrlen, this`hdralloc, hdr
      ensures |s| == hdrlen
    {
      if hdr == null then [] else hdr[..hdrlen]
    }

    ghost function Http(): Http
      requires Valid()
      reads this, hdr, httpStart.bmBc, httpEnd.bmBc
    {
      match state
      case HTTP_NONE => Idle
      case HTTP_HDR => Header(false, Text(), isSsl)
      case HTTP_HDREND => Header(true, Text(), isSsl)
      case HTTP_DATA => Body(clen, isSsl)
    }

    constructor (httpStart: Search, httpEnd: Search, find: seq<Byte> -> seq<Byte>)
      requires httpStart.Valid() && httpStart.str == HTTP_START && httpEnd.Valid() && httpEnd.str == CRLF
      ensures Valid() && Http() == Idle && posted == []
      ensures this.httpStart == httpStart && this.httpEnd == httpEnd && this.find == find
    {
      this.httpStart, this.httpEnd, this.find := httpStart, httpEnd, find;
      state, hdr, hdrlen, hdralloc, clen, isSsl, posted := HTTP_NONE, null, 0, 0, 0, false, [];
    }

    /** setHttpState(HTTP_NONE): the header and all that was known is dropped. */
    method Reset()
      modifies this`state, this`hdr, this`hdrlen, this`hdralloc, this`clen, this`isSsl
      ensures state == HTTP_NONE && Empty() && clen == 0 && !isSsl
    {
      hdr, hdrlen, hdralloc, clen, isSsl, state := null, 0, 0, 0, false, HTTP_NONE;
    }

    /**
     * appendHeader: grow by 4 to at most 16k and append, or drop the whole header. A missing buffer has nothing
     * allocated.
     */
    method AppendHeader(data: seq<Byte>)
      requires Empty() || Captured()
      modifies this`state, this`hdr, this`hdrlen, this`hdralloc, this`clen, this`isSsl, hdr
      ensures old(|Text()|) + |data| <= MAX_HDR_ALLOC ==>
                Captured() && Text() == old(Text()) + data && unchanged(this`state, this`clen, this`isSsl)
      ensures old(|Text()|) + |data| > MAX_HDR_ALLOC ==> state == HTTP_NONE && Empty() && clen == 0 && !isSsl
      ensures hdr == null || hdr == old(hdr) || fresh(hdr)
    {
      var contentSize := hdrlen + |data|;
      var allocSize := if hdralloc == 0 then MIN_HDR_ALLOC else hdralloc;
      while allocSize < contentSize
        invariant allocSize == MIN_HDR_ALLOC || allocSize == MAX_HDR_ALLOC
        invariant hdralloc <= allocSize
        decreases MAX_HDR_ALLOC - allocSize
      {
        allocSize := allocSize * 4;
        if allocSize > MAX_HDR_ALLOC {
          Reset();
          return;
        }
      }
      if allocSize != hdralloc {
        var temp := new Byte[allocSize];
        forall i | 0 <= i < hdrlen { temp[i] := hdr[i]; }
        hdr, hdralloc := temp, allocSize;
      }
      forall i | 0 <= i < |data| { hdr[hdrlen + i] := data[i]; }
      hdrlen := hdrlen + |data|;
    }

    /** reportHttp1: hand the header over to the posted event; hdralloc stays as it is. */
    method Report()
      requires Empty() || Captured()
      modifies this`hdr, this`hdrlen, this`posted
      ensures posted == if old(Text()) == [] then old(posted) else old(posted) + [old(Text())]
      ensures old(Text()) != [] ==> hdr == null && hdrlen == 0
      ensures old(Text()) == [] ==> unchanged(this`hdr, this`hdrlen)
    {
      if hdr == null || hdrlen == 0 { return; }
      posted := posted + [hdr[..hdrlen]];
      hdr, hdrlen := null, 0;
    }

    /**
     * getContentLength: without a header, or without a number in its field, -1; else the decimal number in the field,
     * unless it is written with a leading zero.
     */
    method GetContentLength() returns (n: int)
      requires Empty() || Captured()
      ensures n == -1 || 0 < n < ULLONG_MAX
      ensures hdr == null ==> n == -1
      ensures hdr != null ==> n == ContentLength(find(Text()))
      ensures hdr != null ==>
                var d := find(Text());
                && (d == [] || !IsDigit(d[0]) ==> n == -1)
                && (d != [] && Digits(d) && 0 < Number(d, 10, 0) < ULLONG_MAX ==>
                      (n == Number(d, 10, 0) <==> d[0] != 48 || Number(d, 10, 0) < 8))
    {
      if hdr == null { return -1; }
      ghost var d := find(Text());
      if d != [] && Digits(d) && 0 < Number(d, 10, 0) < ULLONG_MAX { LengthIsDecimal(d); }
      n := ContentLength(find(hdr[..hdrlen]));
    }

    /** bytesToSkipForContentLength */
    method BytesToSkip(len: nat) returns (n: nat)
      modifies this`clen
      ensures n == if len <= old(clen) then len else old(clen)
      ensures clen == old(clen) - n
    {
      if clen == 0 { return 0; }
      if len > clen {
        n, clen := clen, 0;
        return;
      }
      clen := clen - len;
      n := len;
    }

    /** The end of all headers was found at q: terminate, post, and set up for the body. */
    method FinishHeader(buf: seq<Byte>, q: nat)
      requires Searches() && Captured() && q + 2 <= |buf| && (state == HTTP_HDR || state == HTTP_HDREND)
      modifies this`state, this`hdr, this`hdrlen, this`hdralloc, this`clen, this`isSsl, this`posted, hdr
      ensures Valid()
      ensures old(|Text()|) == MAX_HDR_ALLOC ==> Http() == Idle && posted == old(posted)
      ensures old(|Text()|) < MAX_HDR_ALLOC ==>
                var header := old(Text()) + [0];
                && posted == old(posted) + [header]
                && Http() == AfterHeader(ContentLength(find(header)), |buf| - q - 2, old(isSsl))
    {
      AppendHeader([0]);
      var n := GetContentLength();
      var contentInThisBuf := |buf| - (q + 0 + 2);
      Report();
      if n != -1 && n >= contentInThisBuf {
        clen := n - contentInThisBuf;
        state := HTTP_DATA;
      } else {
        Reset();
      }
    }

    ghost predicate Capturing()
      reads this
    {
      (state == HTTP_HDR || state == HTTP_HDREND) && (Empty() || Captured())
    }

    /** The header so far is `text` and buf up to start; make it reach to stop. */
    method Extend(phase: Phase, buf: seq<Byte>, start: nat, stop: nat, ghost text: seq<Byte>)
      requires start <= stop <= |buf| && (phase == HTTP_HDR || phase == HTTP_HDREND)
      requires Capturing() && Text() == text + buf[..start]
      modifies this`state, this`hdr, this`hdrlen, this`hdralloc, this`clen, this`isSsl, hdr
      ensures |text| + stop <= MAX_HDR_ALLOC ==>
                Captured() && Text() == text + buf[..stop] && state == phase && unchanged(this`clen, this`isSsl)
      ensures |text| + stop > MAX_HDR_ALLOC ==> state == HTTP_NONE && Empty() && clen == 0 && !isSsl
      ensures hdr == null || hdr == old(hdr) || fresh(hdr)
    {
      hide Text;
      state := phase;
      AppendHeader(buf[start..stop]);
      assert text + buf[..start] + buf[start..stop] == text + buf[..stop];
    }

    /**
     * The scan for lines: stops at the blank line q, or at the end of the buffer, or when the header outgrows its
     * limit.
     */
    method ScanHeaders(buf: seq<Byte>) returns (q: int)
      requires Searches() && Capturing() && (buf == [] || state == HTTP_HDREND ==> Captured())
      modifies this`state, this`hdr, this`hdrlen, this`hdralloc, this`clen, this`isSsl, hdr
      ensures var ended, text := old(state == HTTP_HDREND), old(Text());
        var f := FirstBlank(ended, buf, 0);
        if f == -1 && |text| + |buf| <= MAX_HDR_ALLOC then
          && q == -1 && Capturing() && Captured() && Text() == text + buf && isSsl == old(isSsl)
          && (state == HTTP_HDREND <==> if buf == [] then ended else Breaks(buf, |buf| - 2))
        else if f == -1 || |text| + f > MAX_HDR_ALLOC then
          q == -1 && state == HTTP_NONE && Empty() && clen == 0
        else
          q == f && Capturing() && Captured() && Text() == text + buf[..q] && isSsl == old(isSsl)
      ensures hdr == null || hdr == old(hdr) || fresh(hdr)
    {
      hide BlankAt, Breaks, FirstBlank, LineStart, FirstOccurrence, Searches, Text;
      ghost var ended, text := state == HTTP_HDREND, Text();
      var start := 0;
      q := -1;
      assert LineStart(ended, buf, 0) by { FirstLine(ended, buf); }
      while (state == HTTP_HDR || state == HTTP_HDREND) && start < |buf|
        invariant start <= |buf| && LineStart(ended, buf, start)
        invariant state != HTTP_NONE ==> Capturing() && Text() == text + buf[..start] && isSsl == old(isSsl)
        invariant state == HTTP_HDREND || (state != HTTP_NONE && buf == []) ==> Captured()
        invariant state != HTTP_NONE ==> (state == HTTP_HDREND <==> start > 0 || ended)
        invariant state == HTTP_NONE ==> Empty() && clen == 0 && |text| + start > MAX_HDR_ALLOC
        invariant hdr == null || hdr == old(hdr) || fresh(hdr)
        decreases |buf| - start
      {
        var e := FindBreak(buf, start);
        BlankFromHere(ended, buf, start);
        if e == -1 {
          LastLine(ended, buf, start);
          Extend(HTTP_HDR, buf, start, |buf|, text);
          assert buf[..|buf|] == buf;
          return -1;
        }
        if state == HTTP_HDREND && e == 0 {
          return start;
        }
        LineThenLine(ended, buf, start, e);
        Extend(HTTP_HDREND, buf, start, start + e + 2, text);
        start := start + e + 2;
      }
      assert buf[..|buf|] == buf;
      BlankFromHere(ended, buf, start);
    }

    /** searchExec for the start of a header. */
    method FindStart(buf: seq<Byte>) returns (seen: bool)
      requires Searches()
      ensures seen <==> Mentions(buf)
    {
      var at := SearchExec(httpStart, buf, |buf|);
      assert buf[..|buf|] == buf;
      seen := at != -1;
      assert seen ==> OccursAt(HTTP_START, buf, at);
    }

    /** searchExec for the end of a line. */
    method FindBreak(buf: seq<Byte>, start: nat) returns (e: int)
      requires Searches() && start <= |buf|
      ensures e == -1 ==> forall j | start <= j :: !Breaks(buf, j)
      ensures e != -1 ==>
                && e >= 0 && start + e + 2 <= |buf| && Breaks(buf, start + e)
                && forall j | start <= j < start + e :: !Breaks(buf, j)
    {
      e := SearchExec(httpEnd, buf[start..], |buf| - start);
      assert buf[start..][..|buf| - start] == buf[start..];
      BreakFound(buf, start, e);
    }

    /** The part of parseHttp1 behind the start of a header. */
    method ParseHeaders(buf: seq<Byte>) returns (found: bool)
      requires Searches() && Capturing() && (buf == [] || state == HTTP_HDREND ==> Captured())
      modifies this`state, this`hdr, this`hdrlen, this`hdralloc, this`clen, this`isSsl, this`posted, hdr
      ensures Valid()
      ensures var r := Capture(old(state == HTTP_HDREND), old(Text()), buf, old(isSsl), find);
        Http() == r.http && posted == old(posted) + r.posted && found == r.found
    {
      hide FirstBlank, Breaks, AfterHeader, ContentLength, Text, Searches;
      var q := ScanHeaders(buf);
      if q != -1 {
        FinishHeader(buf, q);
      }
      found := q != -1;
    }

    /** parseHttp1 does to the capture what Next says, whatever the buffer. */
    method ParseHttp1(data: seq<Byte>, ssl: bool) returns (found: bool)
      requires Valid()
      modifies this, hdr
      ensures Valid()
      ensures var r := Next(old(Http()), data, ssl, find);
              Outcome(Http(), posted, found) == r.(posted := old(posted) + r.posted)
    {
      hide Capture, Searches, Text;
      var buf := data;
      if state != HTTP_NONE && isSsl != ssl { return false; }
      if state == HTTP_DATA {
        var skip := BytesToSkip(|buf|);
        if skip == |buf| { return false; }
        buf := buf[skip..];
        Reset();
      }
      if state == HTTP_NONE {
        var seen := FindStart(buf);
        if !seen { return false; }
        state, isSsl := HTTP_HDR, ssl;
      }
      found := ParseHeaders(buf);
    }
  }

  // ---------------------------------------------------------------- any number of buffers

  ghost function Feed(h: Http, chunks: seq<seq<Byte>>, ssl: bool, find: seq<Byte> -> seq<Byte>): Outcome {
    if chunks == [] then Outcome(h, [], false)
    else
      var r := Feed(h, chunks[..|chunks| - 1], ssl, find);
      var n := Next(r.http, chunks[|chunks| - 1], ssl, find);
      n.(posted := r.posted + n.posted)
  }

  /** The first CRLFCRLF of s is at p. */
  ghost predicate HeaderEnd(s: seq<Byte>, p: int) {
    Breaks(s, p) && Breaks(s, p + 2) && forall j | j < p :: !(Breaks(s, j) && Breaks(s, j + 2))
  }

  /** One chunk ends and the next begins at position x of the stream. */
  predicate Cut(chunks: seq<seq<Byte>>, x: nat) {
    |chunks| > 1 && var before := chunks[..|chunks| - 1]; |Concat(before)| == x || Cut(before, x)
  }

  /** The last chunk that is not empty ends in a line break. */
  predicate LastEnds(chunks: seq<seq<Byte>>) {
    chunks != [] &&
    var c := chunks[|chunks| - 1];
    if c == [] then LastEnds(chunks[..|chunks| - 1]) else Breaks(c, |c| - 2)
  }

  lemma {:induction false} LastEndsBreaks(chunks: seq<seq<Byte>>)
    requires LastEnds(chunks)
    ensures Breaks(Concat(chunks), |Concat(chunks)| - 2)
  {
    ConcatLast(chunks);
    if chunks[|chunks| - 1] == [] { LastEndsBreaks(chunks[..|chunks| - 1]); }
  }

  lemma {:induction false} CutInside(chunks: seq<seq<Byte>>, x: nat)
    requires Cut(chunks, x)
    ensures x <= |Concat(chunks)|
  {
    var before := chunks[..|chunks| - 1];
    ConcatLast(chunks);
    if |Concat(before)| != x { CutInside(before, x); }
  }

  /** The end of a line is noticed exactly when no cut parts its CR from its LF. */
  lemma {:induction false} EndsUncut(chunks: seq<seq<Byte>>)
    requires Breaks(Concat(chunks), |Concat(chunks)| - 2)
    ensures LastEnds(chunks) <==> !Cut(chunks, |Concat(chunks)| - 1)
  {
    var before, c, x := chunks[..|chunks| - 1], chunks[|chunks| - 1], |Concat(chunks)| - 1;
    assert |chunks| == 1 ==> before == [];
    ConcatLast(chunks);
    if c == [] {
      assert Concat(chunks) == Concat(before);
      EndsUncut(before);
    } else if |c| >= 2 {
      if Cut(before, x) { CutInside(before, x); }
    }
  }

  /** Until the blank line is complete, all of the stream is gathered and nothing is posted. */
  lemma {:induction false} Gathering(chunks: seq<seq<Byte>>, s: seq<Byte>, p: nat, ssl: bool,
      find: seq<Byte> -> seq<Byte>)
    requires chunks != [] && Mentions(chunks[0]) && HeaderEnd(s, p) && |Concat(chunks)| <= MAX_HDR_ALLOC
    requires Concat(chunks) <= s && |Concat(chunks)| <= p + 3
    ensures Feed(Idle, chunks, ssl, find) == Outcome(Header(LastEnds(chunks), Concat(chunks), ssl), [], false)
    decreases |chunks|, 1
  {
    hide Feed, FirstBlank, Breaks, HeaderEnd, Mentions, Concat;
    var before, c := chunks[..|chunks| - 1], chunks[|chunks| - 1];
    ConcatLast(chunks);
    LastCapture(chunks, s, p, ssl, find);
    NotYet(LastEnds(before), Concat(before), c, s, p);
  }

  /** The last chunk goes on capturing where the others left off. */
  lemma {:induction false} LastCapture(chunks: seq<seq<Byte>>, s: seq<Byte>, p: nat, ssl: bool,
      find: seq<Byte> -> seq<Byte>)
    requires chunks != [] && Mentions(chunks[0]) && HeaderEnd(s, p)
    requires Concat(chunks) <= s && |Concat(chunks[..|chunks| - 1])| <= p + 3
    requires |Concat(chunks[..|chunks| - 1])| <= MAX_HDR_ALLOC
    ensures var before := chunks[..|chunks| - 1];
      && Feed(Idle, chunks, ssl, find) == Capture(LastEnds(before), Concat(before), chunks[|chunks| - 1], ssl, find)
      && (LastEnds(before) ==> Breaks(Concat(before), |Concat(before)| - 2))
    decreases |chunks|, 0
  {
    hide Capture, HeaderEnd, Breaks, Mentions, Concat;
    var before, c := chunks[..|chunks| - 1], chunks[|chunks| - 1];
    ConcatLast(chunks);
    ConcatNone();
    if before == [] {
      var r := Next(Idle, c, ssl, find);
      assert [] + r.posted == r.posted;
    } else {
      assert Concat(before) <= s;
      Gathering(before, s, p, ssl, find);
      if LastEnds(before) { LastEndsBreaks(before); }
      var r := Capture(LastEnds(before), Concat(before), c, ssl, find);
      assert [] + r.posted == r.posted;
    }
  }

  lemma ConcatNone()
    ensures Concat([]) == []
  {
  }

  lemma NotYet(ended: bool, h: seq<Byte>, c: seq<Byte>, s: seq<Byte>, p: nat)
    requires HeaderEnd(s, p) && h + c <= s && |h + c| <= p + 3 && (ended ==> Breaks(h, |h| - 2))
    ensures FirstBlank(ended, c, 0) == -1
  {
    var q := FirstBlank(ended, c, 0);
    if q != -1 {
      assert forall i | 0 <= i < |c| :: c[i] == s[|h| + i];
      assert forall i | 0 <= i < |h| :: h[i] == s[i];
      assert Breaks(s, |h| + q) && Breaks(s, |h| + q - 2);
    }
  }

  /** In the chunk that completes the blank line, it is found unless a cut runs through it. */
  lemma Completes(ended: bool, h: seq<Byte>, c: seq<Byte>, p: nat)
    requires HeaderEnd(h + c, p) && |h| <= p + 3 && (ended ==> Breaks(h, |h| - 2))
    ensures var q := FirstBlank(ended, c, 0); q != -1 && |h| + q == p + 2 <==> |h| <= p || (|h| == p + 2 && ended)
  {
    var s, q := h + c, FirstBlank(ended, c, 0);
    assert forall i | 0 <= i < |c| :: c[i] == s[|h| + i];
    assert forall i | 0 <= i < |h| :: h[i] == s[i];
    if |h| <= p {
      assert BlankAt(ended, c, p + 2 - |h|);
      assert Breaks(s, |h| + q) && Breaks(s, |h| + q - 2);
    } else if |h| == p + 2 && ended {
      assert BlankAt(ended, c, 0);
    }
  }

  lemma CutsThrough(chunks: seq<seq<Byte>>, p: nat)
    requires chunks != [] && HeaderEnd(Concat(chunks), p)
    requires |Concat(chunks[..|chunks| - 1])| <= p + 3
    ensures var before := chunks[..|chunks| - 1];
      !Cut(chunks, p + 1) && !Cut(chunks, p + 3) <==>
        |Concat(before)| <= p || (|Concat(before)| == p + 2 && LastEnds(before))
  {
    var before := chunks[..|chunks| - 1];
    var h := Concat(before);
    ConcatLast(chunks);
    assert |chunks| == 1 ==> before == [];
    assert forall i | 0 <= i < |h| :: h[i] == Concat(chunks)[i];
    if Cut(before, p + 1) { CutInside(before, p + 1); }
    if Cut(before, p + 3) { CutInside(before, p + 3); }
    if |h| == p + 2 { EndsUncut(before); }
  }

  /**
   * A header block fed in any chunks, the first of which holds HTTP/ and the last of which completes the
   * blank line: exactly the stream up to the blank line is posted, with a NUL, if and only if no chunk
   * ends between the CR and the LF of either of its last two line breaks.
   */
  lemma HeaderReported(chunks: seq<seq<Byte>>, p: nat, ssl: bool, find: seq<Byte> -> seq<Byte>)
    requires chunks != [] && Mentions(chunks[0]) && HeaderEnd(Concat(chunks), p) && p + 3 <= MAX_HDR_ALLOC
    requires |Concat(chunks[..|chunks| - 1])| < p + 4
    ensures var s := Concat(chunks); var header := s[..p + 2] + [0];
      var r := Feed(Idle, chunks, ssl, find);
      && (r.posted == [header] <==> !Cut(chunks, p + 1) && !Cut(chunks, p + 3))
      && (r.posted == [header] ==> r.found && r.http == AfterHeader(ContentLength(find(header)), |s| - (p + 4), ssl))
  {
    hide *;
    var before, c := chunks[..|chunks| - 1], chunks[|chunks| - 1];
    var h, s := Concat(before), Concat(chunks);
    ConcatLast(chunks);
    EndFits(s, p);
    LastCapture(chunks, s, p, ssl, find);
    CutsThrough(chunks, p);
    Completes(LastEnds(before), h, c, p);
    CapturePosts(LastEnds(before), h, c, p, ssl, find);
  }

  /** A capture posts the stream up to p + 2 exactly when it finds the blank line there. */
  lemma CapturePosts(ended: bool, h: seq<Byte>, c: seq<Byte>, p: nat, ssl: bool, find: seq<Byte> -> seq<Byte>)
    requires p + 4 <= |h + c| && p + 3 <= MAX_HDR_ALLOC
    ensures var q, r, header := FirstBlank(ended, c, 0), Capture(ended, h, c, ssl, find), (h + c)[..p + 2] + [0];
      && (r.posted == [header] <==> q != -1 && |h| + q == p + 2)
      && (r.posted == [header] ==>
            r.found && r.http == AfterHeader(ContentLength(find(header)), |h + c| - (p + 4), ssl))
  {
    hide AfterHeader, ContentLength, BlankAt;
    var q := FirstBlank(ended, c, 0);
    assert q != -1 ==> h + c[..q] == (h + c)[..|h| + q];
  }

  /** How a header block is cut makes no difference then: it is as if it came in one piece. */
  lemma ChunkingIrrelevant(chunks: seq<seq<Byte>>, p: nat, ssl: bool, find: seq<Byte> -> seq<Byte>)
    requires chunks != [] && Mentions(chunks[0]) && HeaderEnd(Concat(chunks), p) && p + 3 <= MAX_HDR_ALLOC
    requires |Concat(chunks[..|chunks| - 1])| < p + 4 && !Cut(chunks, p + 1) && !Cut(chunks, p + 3)
    ensures Feed(Idle, chunks, ssl, find) == Next(Idle, Concat(chunks), ssl, find)
  {
    hide *;
    var s := Concat(chunks);
    MentionsLater(chunks);
    OnePiece(s, p, ssl, find);
    HeaderReported(chunks, p, ssl, find);
    HeaderReported([s], p, ssl, find);
  }

  lemma OnePiece(s: seq<Byte>, p: nat, ssl: bool, find: seq<Byte> -> seq<Byte>)
    ensures Concat([s]) == s && |Concat([s][..0])| == 0 && Feed(Idle, [s], ssl, find) == Next(Idle, s, ssl, find)
    ensures !Cut([s], p + 1) && !Cut([s], p + 3)
  {
    assert [s][..0] == [];
    hide Next;
    var r := Next(Idle, s, ssl, find);
    assert [] + r.posted == r.posted;
  }

  lemma {:induction false} MentionsLater(chunks: seq<seq<Byte>>)
    requires chunks != [] && Mentions(chunks[0])
    ensures Mentions(Concat(chunks))
  {
    var before, c := chunks[..|chunks| - 1], chunks[|chunks| - 1];
    ConcatLast(chunks);
    if before == [] {
      assert Concat(chunks) == c;
    } else {
      MentionsLater(before);
      var j :| OccursAt(HTTP_START, Concat(before), j);
      assert Concat(chunks)[j..j + 5] == Concat(before)[j..j + 5];
      assert OccursAt(HTTP_START, Concat(chunks), j);
    }
  }

  /** Of a body, what is left to skip does not depend on the chunks, and nothing is posted. */
  lemma {:induction false} BodySkipped(n: nat, chunks: seq<seq<Byte>>, ssl: bool, find: seq<Byte> -> seq<Byte>)
    requires |Concat(chunks)| <= n
    ensures Feed(Body(n, ssl), chunks, ssl, find).http == Body(n - |Concat(chunks)|, ssl)
    ensures Feed(Body(n, ssl), chunks, ssl, find).posted == []
  {
    if chunks != [] {
      ConcatLast(chunks);
      BodySkipped(n, chunks[..|chunks| - 1], ssl, find);
    }
  }

  /** The search for the next header begins with the very byte behind the body, whatever the chunks. */
  lemma NextHeaderBehindBody(n: nat, chunks: seq<seq<Byte>>, ssl: bool, find: seq<Byte> -> seq<Byte>)
    requires chunks != [] && |Concat(chunks[..|chunks| - 1])| <= n < |Concat(chunks)|
    ensures Feed(Body(n, ssl), chunks, ssl, find) == Next(Idle, Concat(chunks)[n..], ssl, find)
  {
    hide Look;
    var before, c := chunks[..|chunks| - 1], chunks[|chunks| - 1];
    ConcatLast(chunks);
    BodySkipped(n, before, ssl, find);
    var left := n - |Concat(before)|;
    BehindBody(left, c, ssl, find);
    assert Concat(chunks)[n..] == c[left..];
    hide Next;
    var r := Next(Body(left, ssl), c, ssl, find);
    assert [] + r.posted == r.posted;
  }

  lemma BehindBody(n: nat, c: seq<Byte>, ssl: bool, find: seq<Byte> -> seq<Byte>)
    requires n < |c|
    ensures Next(Body(n, ssl), c, ssl, find) == Next(Idle, c[n..], ssl, find)
  {
    hide Look;
  }

  // ---------------------------------------------------------------- one message after another

  lemma {:induction false} FeedAppend(h: Http, a: seq<seq<Byte>>, b: seq<seq<Byte>>, ssl: bool,
      find: seq<Byte> -> seq<Byte>)
    requires b != []
    ensures var r := Feed(h, a, ssl, find);
      var q := Feed(r.http, b, ssl, find);
      Feed(h, a + b, ssl, find) == q.(posted := r.posted + q.posted)
  {
    hide Next;
    var front, c := b[..|b| - 1], b[|b| - 1];
    var r := Feed(h, a, ssl, find);
    assert (a + b)[..|a + b| - 1] == a + front && (a + b)[|a + b| - 1] == c;
    if front == [] {
      assert a + front == a;
      var n := Next(r.http, c, ssl, find);
      assert [] + n.posted == n.posted;
    } else {
      FeedAppend(h, a, front, ssl, find);
      var f := Feed(r.http, front, ssl, find);
      var n := Next(f.http, c, ssl, find);
      assert (r.posted + f.posted) + n.posted == r.posted + (f.posted + n.posted);
    }
  }

  /** The chunk in which byte n of the stream is. */
  function ChunkOf(chunks: seq<seq<Byte>>, n: nat): (m: nat)
    requires n < |Concat(chunks)|
    ensures m < |chunks| && |Concat(chunks[..m])| <= n < |Concat(chunks[..m + 1])|
  {
    var m := |chunks| - 1;
    ConcatLast(chunks);
    if |Concat(chunks[..m])| <= n then
      assert chunks[..m + 1] == chunks;
      m
    else
      var k := ChunkOf(chunks[..m], n);
      assert chunks[..m][..k] == chunks[..k] && chunks[..m][..k + 1] == chunks[..k + 1];
      k
  }

  /** More chunks behind an outcome. */
  ghost function Further(o: Outcome, rest: seq<seq<Byte>>, ssl: bool, find: seq<Byte> -> seq<Byte>): Outcome {
    if rest == [] then o else var q := Feed(o.http, rest, ssl, find); q.(posted := o.posted + q.posted)
  }

  /** A body that ends anywhere in the chunks: the search goes on behind it, and from there with the other chunks. */
  lemma BodyEndsInside(n: nat, b: seq<seq<Byte>>, ssl: bool, find: seq<Byte> -> seq<Byte>)
    requires n < |Concat(b)|
    ensures var m := ChunkOf(b, n);
      Feed(Body(n, ssl), b, ssl, find) == Further(Next(Idle, Concat(b[..m + 1])[n..], ssl, find), b[m + 1..], ssl, find)
  {
    hide *;
    var m := ChunkOf(b, n);
    assert b[..m + 1][..m] == b[..m] && b[..m + 1] + b[m + 1..] == b;
    BodyEndsIn(n, b[..m + 1], b[m + 1..], ssl, find);
  }

  lemma BodyEndsIn(n: nat, front: seq<seq<Byte>>, rest: seq<seq<Byte>>, ssl: bool, find: seq<Byte> -> seq<Byte>)
    requires front != [] && |Concat(front[..|front| - 1])| <= n < |Concat(front)|
    ensures Feed(Body(n, ssl), front + rest, ssl, find)
         == Further(Next(Idle, Concat(front)[n..], ssl, find), rest, ssl, find)
  {
    hide Feed, Next, Concat;
    NextHeaderBehindBody(n, front, ssl, find);
    if rest == [] { assert front + rest == front; } else { FeedAppend(Body(n, ssl), front, rest, ssl, find); }
  }

  /** What the chunks b do behind a header whose Content-Length is n, of which its own buffer held inBuffer bytes. */
  ghost predicate Resumes(n: int, inBuffer: nat, b: seq<seq<Byte>>, ssl: bool, find: seq<Byte> -> seq<Byte>, r: Outcome)
    requires b != []
  {
    if n == -1 || n < inBuffer then r == Feed(Idle, b, ssl, find)
    else if |Concat(b)| <= n - inBuffer then r.http == Body(n - inBuffer - |Concat(b)|, ssl) && r.posted == []
    else
      var left := n - inBuffer;
      var m := ChunkOf(b, left);
      r == Further(Next(Idle, Concat(b[..m + 1])[left..], ssl, find), b[m + 1..], ssl, find)
  }

  lemma ResumesAfter(n: int, inBuffer: nat, b: seq<seq<Byte>>, ssl: bool, find: seq<Byte> -> seq<Byte>)
    requires b != [] && n >= -1
    ensures Resumes(n, inBuffer, b, ssl, find, Feed(AfterHeader(n, inBuffer, ssl), b, ssl, find))
  {
    hide Feed, Next, Concat;
    if n != -1 && n >= inBuffer {
      if |Concat(b)| <= n - inBuffer {
        BodySkipped(n - inBuffer, b, ssl, find);
      } else {
        BodyEndsInside(n - inBuffer, b, ssl, find);
      }
    }
  }

  /**
   * A header block in the chunks a, with the body and what follows it in their last chunk and in the chunks b. When
   * the Content-Length reaches to the end of the last chunk of a, or beyond, the next header is looked for from the
   * very byte behind the body, wherever in b that is. When it does not, or when there is none, the rest of that chunk
   * is dropped, and the next header is looked for from the first byte of b.
   */
  lemma NextMessage(a: seq<seq<Byte>>, b: seq<seq<Byte>>, p: nat, ssl: bool, find: seq<Byte> -> seq<Byte>)
    requires a != [] && Mentions(a[0]) && HeaderEnd(Concat(a), p) && p + 3 <= MAX_HDR_ALLOC
    requires |Concat(a[..|a| - 1])| < p + 4 && !Cut(a, p + 1) && !Cut(a, p + 3) && b != []
    ensures var s := Concat(a);
      var header, r := s[..p + 2] + [0], Feed(Idle, a + b, ssl, find);
      && r.posted != [] && r.posted[0] == header
      && Resumes(ContentLength(find(header)), |s| - (p + 4), b, ssl, find, r.(posted := r.posted[1..]))
  {
    hide Feed, Next, Concat, ContentLength, Cut, Mentions, Resumes;
    var s := Concat(a);
    var header, inBuffer := s[..p + 2] + [0], |s| - (p + 4);
    var n := ContentLength(find(header));
    HeaderReported(a, p, ssl, find);
    FeedAppend(Idle, a, b, ssl, find);
    ResumesAfter(n, inBuffer, b, ssl, find);
    var q := Feed(AfterHeader(n, inBuffer, ssl), b, ssl, find);
    assert ([header] + q.posted)[1..] == q.posted;
  }

  /** The bytes of body behind a header: none when it has no Content-Length. */
  function BodyLength(n: int): nat
    requires n >= -1
  {
    if n == -1 then 0 else n
  }

  /**
   * A second message in the buffer of the first, behind its body, is lost: its header, complete in the buffer, is
   * posted when it comes on its own, and is not when it comes behind the first.
   */
  lemma PipelinedHeaderLost(c: seq<Byte>, p: nat, next: seq<Byte>, q: nat, ssl: bool, find: seq<Byte> -> seq<Byte>)
    requires Mentions(c) && HeaderEnd(c, p) && p + 3 <= MAX_HDR_ALLOC
    requires var e := p + 4 + BodyLength(ContentLength(find(c[..p + 2] + [0]))); e < |c| && next == c[e..]
    requires Mentions(next) && HeaderEnd(next, q) && q + 3 <= MAX_HDR_ALLOC
    ensures var r := Next(Idle, c, ssl, find); r.posted == [c[..p + 2] + [0]] && r.http == Idle
    ensures Next(Idle, next, ssl, find).posted == [next[..q + 2] + [0]]
  {
    hide Next, Mentions, ContentLength;
    OnePiece(c, p, ssl, find);
    HeaderReported([c], p, ssl, find);
    OnePiece(next, q, ssl, find);
    HeaderReported([next], q, ssl, find);
  }

  // ---------------------------------------------------------------- what is no header

  /** Buffers without HTTP/ in them are passed over: nothing is held, posted or found. */
  lemma {:induction false} NoHeaderWithoutStart(chunks: seq<seq<Byte>>, ssl: bool, find: seq<Byte> -> seq<Byte>)
    requires forall i | 0 <= i < |chunks| :: !Mentions(chunks[i])
    ensures Feed(Idle, chunks, ssl, find) == Outcome(Idle, [], false)
  {
    hide Mentions, Capture;
    if chunks != [] { NoHeaderWithoutStart(chunks[..|chunks| - 1], ssl, find); }
  }

  /** While something is captured or skipped, buffers of the other kind, with TLS or without, are passed over. */
  lemma {:induction false} OtherKindIgnored(h: Http, chunks: seq<seq<Byte>>, ssl: bool, find: seq<Byte> -> seq<Byte>)
    requires !h.Idle? && h.ssl != ssl
    ensures Feed(h, chunks, ssl, find) == Outcome(h, [], false)
  {
    if chunks != [] { OtherKindIgnored(h, chunks[..|chunks| - 1], ssl, find); }
  }

  /** The part of a buffer in which a header is looked for: behind the body that is being skipped, if one is. */
  function Searched(h: Http, c: seq<Byte>): seq<Byte> {
    if h.Body? then (if h.left < |c| then c[h.left..] else []) else c
  }

  /** A capture began in chunk j, which mentions HTTP/, and s is the stream since. */
  ghost predicate BeganIn(chunks: seq<seq<Byte>>, j: nat, s: seq<Byte>, ssl: bool, find: seq<Byte> -> seq<Byte>) {
    && j < |chunks|
    && var h := Feed(Idle, chunks[..j], ssl, find).http;
       var part := Searched(h, chunks[j]);
       !h.Header? && Mentions(part) && s == part + Concat(chunks[j + 1..])
  }

  lemma BeganBefore(chunks: seq<seq<Byte>>, j: nat, s: seq<Byte>, ssl: bool, find: seq<Byte> -> seq<Byte>)
    requires chunks != [] && BeganIn(chunks[..|chunks| - 1], j, s, ssl, find)
    ensures BeganIn(chunks, j, s + chunks[|chunks| - 1], ssl, find)
  {
    hide Feed, Mentions, Searched;
    var before, c := chunks[..|chunks| - 1], chunks[|chunks| - 1];
    assert before[..j] == chunks[..j] && chunks[j + 1..] == before[j + 1..] + [c];
    ConcatAppend(before[j + 1..], [c], chunks[j + 1..]);
    ConcatOne(c);
    var part := Searched(Feed(Idle, chunks[..j], ssl, find).http, chunks[j]);
    assert part + Concat(before[j + 1..]) + c == part + (Concat(before[j + 1..]) + c);
  }

  lemma BeganNow(chunks: seq<seq<Byte>>, ssl: bool, find: seq<Byte> -> seq<Byte>)
    requires chunks != []
    requires var h := Feed(Idle, chunks[..|chunks| - 1], ssl, find).http;
             !h.Header? && Mentions(Searched(h, chunks[|chunks| - 1]))
    ensures var h := Feed(Idle, chunks[..|chunks| - 1], ssl, find).http;
            BeganIn(chunks, |chunks| - 1, Searched(h, chunks[|chunks| - 1]), ssl, find)
  {
    hide Feed, Mentions, Searched;
    var j := |chunks| - 1;
    var part := Searched(Feed(Idle, chunks[..j], ssl, find).http, chunks[j]);
    assert chunks[j + 1..] == [] && part + [] == part;
  }

  /** What is held: the stream since a capture began, within the limit, and of this kind. */
  ghost predicate HeldOk(chunks: seq<seq<Byte>>, h: Http, ssl: bool, find: seq<Byte> -> seq<Byte>) {
    && (!h.Idle? ==> h.ssl == ssl)
    && (h.Header? ==>
          && |h.text| <= MAX_HDR_ALLOC && (h.ended ==> Breaks(h.text, |h.text| - 2))
          && exists j: nat :: BeganIn(chunks, j, h.text, ssl, find))
  }

  /** What is posted: the stream since a capture began, up to a blank line behind a line break, and a NUL. */
  ghost predicate PostedOk(chunks: seq<seq<Byte>>, header: seq<Byte>, ssl: bool, find: seq<Byte> -> seq<Byte>) {
    exists j: nat, s: seq<Byte>, q: nat | BeganIn(chunks, j, s, ssl, find) ::
      && q < MAX_HDR_ALLOC && Breaks(s, q - 2) && Breaks(s, q) && header == s[..q] + [0]
  }

  /** Capturing on, from text and the state of its last line. */
  lemma CaptureSound(ended: bool, text: seq<Byte>, c: seq<Byte>, ssl: bool, find: seq<Byte> -> seq<Byte>)
    requires ended ==> Breaks(text, |text| - 2)
    ensures var r := Capture(ended, text, c, ssl, find);
      && (!r.http.Idle? ==> r.http.ssl == ssl)
      && (r.http.Header? ==>
            && r.posted == [] && r.http.text == text + c && |text + c| <= MAX_HDR_ALLOC
            && (r.http.ended ==> Breaks(text + c, |text + c| - 2)))
      && (r.posted != [] ==>
            var q := |text| + FirstBlank(ended, c, 0);
            && |text| <= q < MAX_HDR_ALLOC && q + 2 <= |text + c| && Breaks(text + c, q - 2) && Breaks(text + c, q)
            && r.posted == [(text + c)[..q] + [0]])
  {
    hide ContentLength;
    var k, s := FirstBlank(ended, c, 0), text + c;
    assert c == [] ==> s == text;
    if k != -1 {
      assert s[|text| + k] == c[k] && s[|text| + k + 1] == c[k + 1];
      assert text + c[..k] == s[..|text| + k];
    }
  }

  /** What one more chunk leaves and posts is sound. */
  ghost predicate StepOk(chunks: seq<seq<Byte>>, r: Outcome, ssl: bool, find: seq<Byte> -> seq<Byte>) {
    HeldOk(chunks, r.http, ssl, find) && forall header | header in r.posted :: PostedOk(chunks, header, ssl, find)
  }

  lemma CaptureStepOk(chunks: seq<seq<Byte>>, j: nat, ended: bool, text: seq<Byte>, c: seq<Byte>, ssl: bool,
      find: seq<Byte> -> seq<Byte>)
    requires BeganIn(chunks, j, text + c, ssl, find) && (ended ==> Breaks(text, |text| - 2))
    ensures StepOk(chunks, Capture(ended, text, c, ssl, find), ssl, find)
  {
    hide Capture, BeganIn, Breaks, FirstBlank;
    CaptureSound(ended, text, c, ssl, find);
    var r, s := Capture(ended, text, c, ssl, find), text + c;
    forall header | header in r.posted ensures PostedOk(chunks, header, ssl, find) {
      var q := |text| + FirstBlank(ended, c, 0);
      assert BeganIn(chunks, j, s, ssl, find) && Breaks(s, q - 2) && Breaks(s, q) && header == s[..q] + [0];
    }
  }

  /** In every run a header is posted only from a capture that began in a chunk with HTTP/ in it. */
  lemma {:induction false} PostedWasCaptured(chunks: seq<seq<Byte>>, ssl: bool, find: seq<Byte> -> seq<Byte>)
    ensures HeldOk(chunks, Feed(Idle, chunks, ssl, find).http, ssl, find)
    ensures chunks != [] ==>
      var before, c := chunks[..|chunks| - 1], chunks[|chunks| - 1];
      StepOk(chunks, Next(Feed(Idle, before, ssl, find).http, c, ssl, find), ssl, find)
  {
    hide Next, PostedOk, BeganIn, Breaks;
    if chunks != [] {
      PostedWasCaptured(chunks[..|chunks| - 1], ssl, find);
      OneMoreOk(chunks, Feed(Idle, chunks[..|chunks| - 1], ssl, find).http, ssl, find);
    }
  }

  lemma OneMoreOk(chunks: seq<seq<Byte>>, h: Http, ssl: bool, find: seq<Byte> -> seq<Byte>)
    requires chunks != [] && h == Feed(Idle, chunks[..|chunks| - 1], ssl, find).http
    requires HeldOk(chunks[..|chunks| - 1], h, ssl, find)
    ensures StepOk(chunks, Next(h, chunks[|chunks| - 1], ssl, find), ssl, find)
  {
    hide Capture, Mentions, BeganIn, Feed, Breaks, PostedOk;
    var c := chunks[|chunks| - 1];
    if h.Header? {
      var j: nat :| BeganIn(chunks[..|chunks| - 1], j, h.text, ssl, find);
      BeganBefore(chunks, j, h.text, ssl, find);
      CaptureStepOk(chunks, j, h.ended, h.text, c, ssl, find);
    } else {
      var part := Searched(h, c);
      if Mentions(part) {
        BeganNow(chunks, ssl, find);
        assert [] + part == part;
        CaptureStepOk(chunks, |chunks| - 1, false, [], part, ssl, find);
      }
    }
  }

  /**
   * A header block that leaves no room for its NUL within the limit, fed in any chunks: it is dropped with the chunk
   * that takes it over the limit, or that completes it, and nothing is posted.
   */
  lemma HeaderTooLong(chunks: seq<seq<Byte>>, s: seq<Byte>, p: nat, ssl: bool, find: seq<Byte> -> seq<Byte>)
    requires chunks != [] && Mentions(chunks[0]) && HeaderEnd(s, p) && p + 3 > MAX_HDR_ALLOC && Concat(chunks) <= s
    requires |Concat(chunks[..|chunks| - 1])| <= MAX_HDR_ALLOC < |Concat(chunks)|
    ensures var r := Feed(Idle, chunks, ssl, find);
      r.http == Idle && r.posted == [] && (r.found ==> p + 2 == MAX_HDR_ALLOC)
  {
    var before, c := chunks[..|chunks| - 1], chunks[|chunks| - 1];
    var h := Concat(before);
    hide *;
    ConcatLast(chunks);
    EndFits(s, p);
    LastCapture(chunks, s, p, ssl, find);
    NotBefore(LastEnds(before), h, c, s, p);
    CaptureDrops(LastEnds(before), h, c, p, ssl, find);
  }

  lemma CaptureDrops(ended: bool, h: seq<Byte>, c: seq<Byte>, p: nat, ssl: bool, find: seq<Byte> -> seq<Byte>)
    requires p + 3 > MAX_HDR_ALLOC && |h + c| > MAX_HDR_ALLOC
    requires var q := FirstBlank(ended, c, 0); q != -1 ==> |h| + q >= p + 2
    ensures var r := Capture(ended, h, c, ssl, find);
      r.http == Idle && r.posted == [] && (r.found ==> p + 2 == MAX_HDR_ALLOC)
  {
  }

  lemma EndFits(s: seq<Byte>, p: nat)
    requires HeaderEnd(s, p)
    ensures p + 4 <= |s|
  {
  }

  /** No blank line is found in front of the first one of the stream. */
  lemma NotBefore(ended: bool, h: seq<Byte>, c: seq<Byte>, s: seq<Byte>, p: nat)
    requires HeaderEnd(s, p) && h + c <= s && (ended ==> Breaks(h, |h| - 2))
    ensures var q := FirstBlank(ended, c, 0); q != -1 ==> |h| + q >= p + 2
  {
    var q := FirstBlank(ended, c, 0);
    if q != -1 {
      assert forall i | 0 <= i < |c| :: c[i] == s[|h| + i];
      assert forall i | 0 <= i < |h| :: h[i] == s[i];
      assert Breaks(s, |h| + q) && Breaks(s, |h| + q - 2);
    }
  }
}
