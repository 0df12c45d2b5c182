/**
 * Horspool string search, src/strsearch.c. A table says for each byte how far the needle may be moved
 * when that byte stands under its last position; the search is shown to find what naive search finds.
 */
module StrSearch {
  import opened Bytes

  const ASIZE: nat := 256

  ghost predicate OccursAt(needle: seq<Byte>, hay: seq<Byte>, j: int) {
    0 <= j && j + |needle| <= |hay| && hay[j..j + |needle|] == needle
  }

  /** The least offset at which the needle occurs, or -1 and it occurs nowhere. */
  ghost predicate FirstOccurrence(needle: seq<Byte>, hay: seq<Byte>, r: int) {
    if r == -1 then forall j :: !OccursAt(needle, hay, j)
    else OccursAt(needle, hay, r) && forall j | j < r :: !OccursAt(needle, hay, j)
  }

  /** A move by d is safe for byte c: c stands at none of the places it would be moved across. */
  ghost predicate SafeShift(needle: seq<Byte>, c: Byte, d: int) {
    1 <= d <= |needle| && forall i | |needle| - d <= i < |needle| - 1 :: needle[i] != c
  }

  /** The table's moves are safe and, stopping at the last place of the byte, as long as they can be. */
  ghost predicate Shifts(needle: seq<Byte>, c: Byte, d: int) {
    SafeShift(needle, c, d) && (d < |needle| ==> needle[|needle| - 1 - d] == c)
  }

  lemma LongestSafeShift(needle: seq<Byte>, c: Byte, d: int, e: int)
    requires Shifts(needle, c, d) && SafeShift(needle, c, e)
    ensures e <= d
  {
    assert d < |needle| ==> needle[|needle| - 1 - d] == c;
  }

  /** No match begins at an offset the move from j skips. */
  lemma NothingSkipped(needle: seq<Byte>, hay: seq<Byte>, j: int, d: int, k: int)
    requires needle != [] && 0 <= j && j + |needle| <= |hay|
    requires SafeShift(needle, hay[j + |needle| - 1], d) && j < k < j + d
    ensures !OccursAt(needle, hay, k)
  {
    var i := |needle| - 1 - (k - j);
    assert needle[i] != hay[k + i];
    assert k + |needle| <= |hay| ==> hay[k..k + |needle|][i] == hay[k + i];
  }

  /** The test of the code: the last byte, then the others. */
  lemma LastByteThenRest(needle: seq<Byte>, hay: seq<Byte>, j: int)
    requires needle != [] && 0 <= j && j + |needle| <= |hay|
    ensures var n := |needle|;
            OccursAt(needle, hay, j) <==> needle[n - 1] == hay[j + n - 1] && needle[..n - 1] == hay[j..j + n - 1]
  {
    var n := |needle|;
    var window := hay[j..j + n];
    assert window[..n - 1] == hay[j..j + n - 1] && window[n - 1] == hay[j + n - 1];
    SameByParts(needle, window);
  }

  lemma SameByParts(a: seq<Byte>, b: seq<Byte>)
    requires |a| == |b| > 0
    ensures a == b <==> a[|a| - 1] == b[|a| - 1] && a[..|a| - 1] == b[..|a| - 1]
  {
    var n := |a|;
    assert a == a[..n - 1] + [a[n - 1]] && b == b[..n - 1] + [b[n - 1]];
  }

  /** search_t */
  class Search {
    const str: seq<Byte>
    const bmBc: array<int>

    ghost predicate Valid()
      reads bmBc
    {
      str != [] && bmBc.Length == ASIZE && forall c: Byte {:trigger bmBc[c]} :: Shifts(str, c, bmBc[c])
    }

    constructor (str: seq<Byte>, bmBc: array<int>)
      ensures this.str == str && this.bmBc == bmBc
    {
      this.str, this.bmBc := str, bmBc;
    }
  }

  /** Of the first k bytes of the needle's head, the table knows each one's last place. */
  ghost predicate FilledTo(needle: seq<Byte>, k: nat, c: Byte, d: int) {
    && 1 <= d <= |needle| && k <= |needle|
    && (d < |needle| ==> |needle| - 1 - d < k && needle[|needle| - 1 - d] == c)
    && (forall i | |needle| - d <= i < k :: needle[i] != c)
  }

  /** searchComp: an empty needle gets no handle. */
  method SearchComp(input: seq<Byte>) returns (handle: Search?)
    ensures handle == null <==> input == []
    ensures handle != null ==> fresh(handle) && fresh(handle.bmBc) && handle.str == input && handle.Valid()
  {
    if input == [] { return null; }
    var nlen := |input|;
    var bmBc := new int[ASIZE](_ => nlen);
    var i := 0;
    while i < nlen - 1
      invariant 0 <= i <= nlen - 1
      invariant forall c: Byte {:trigger bmBc[c]} :: FilledTo(input, i, c, bmBc[c])
    {
      bmBc[input[i]] := nlen - i - 1;
      i := i + 1;
    }
    handle := new Search(input, bmBc);
  }

  /**
   * searchExec refines naive search: it answers the least offset of the needle in the first hlen bytes,
   * or -1 exactly when it does not occur there. No handle and a negative length answer -1.
   */
  method SearchExec(handle: Search?, hay: seq<Byte>, hlen: int) returns (r: int)
    requires hlen <= |hay| && (handle != null ==> handle.Valid())
    ensures handle == null || hlen < 0 ==> r == -1
    ensures handle != null && hlen >= 0 ==> FirstOccurrence(handle.str, hay[..hlen], r)
  {
    if handle == null || hlen < 0 { return -1; }
    var nlen := |handle.str|;
    ghost var text := hay[..hlen];
    var j := 0;
    while j <= hlen - nlen
      invariant 0 <= j
      invariant forall k | k < j :: !OccursAt(handle.str, text, k)
      decreases hlen - j
    {
      var c := hay[j + nlen - 1];
      LastByteThenRest(handle.str, text, j);
      assert text[j..j + nlen - 1] == hay[j..j + nlen - 1];
      if handle.str[nlen - 1] == c && handle.str[..nlen - 1] == hay[j..j + nlen - 1] {
        return j;
      }
      var d := handle.bmBc[c];
      forall k | j < k < j + d ensures !OccursAt(handle.str, text, k) {
        NothingSkipped(handle.str, text, j, d, k);
      }
      j := j + d;
    }
    return -1;
  }
}
