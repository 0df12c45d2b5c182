/** Bytes and the big-endian words of network and class-file formats. */
module Bytes {

  type Byte = b: nat | b < 256

  function U16(hi: Byte, lo: Byte): nat {
    hi * 256 + lo
  }

  function U24(a: Byte, b: Byte, c: Byte): nat {
    a * 65536 + b * 256 + c
  }

  function U32(a: Byte, b: Byte, c: Byte, d: Byte): nat {
    a * 16777216 + b * 65536 + c * 256 + d
  }

  /** The two bytes of a 16-bit word, most significant first; wider values are cut to 16 bits. */
  function Be16(v: nat): (s: seq<Byte>)
    ensures |s| == 2
  {
    [v / 256 % 256, v % 256]
  }

  function Be24(v: nat): (s: seq<Byte>)
    ensures |s| == 3
  {
    [v / 256 / 256 % 256, v / 256 % 256, v % 256]
  }

  function Be32(v: nat): (s: seq<Byte>)
    ensures |s| == 4
  {
    [v / 256 / 256 / 256 % 256, v / 256 / 256 % 256, v / 256 % 256, v % 256]
  }

  lemma Shift8(v: nat)
    ensures v == v / 256 * 256 + v % 256 && v % 256 < 256
  {
  }

  lemma Cut16(v: nat, q: nat, r: nat)
    requires v == 65536 * q + r && r < 65536
    ensures v % 65536 == r
  {
  }

  lemma Cut32(v: nat, q: nat, r: nat)
    requires v == 4294967296 * q + r && r < 4294967296
    ensures v % 4294967296 == r
  {
  }

  /** The bytes of a word make up the word again, as far as 16 bits go. */
  lemma Be16Value(v: nat)
    ensures var s := Be16(v); U16(s[0], s[1]) == v % 65536
  {
    Shift8(v);
    Shift8(v / 256);
    Cut16(v, v / 256 / 256, U16(v / 256 % 256, v % 256));
  }

  lemma Be24Value(v: nat)
    requires v < 16777216
    ensures var s := Be24(v); U24(s[0], s[1], s[2]) == v
  {
    Shift8(v);
    Shift8(v / 256);
    Shift8(v / 256 / 256);
  }

  lemma Be32Value(v: nat)
    ensures var s := Be32(v); U32(s[0], s[1], s[2], s[3]) == v % 4294967296
  {
    var v1, v2, v3 := v / 256, v / 256 / 256, v / 256 / 256 / 256;
    Shift8(v);
    Shift8(v1);
    Shift8(v2);
    Shift8(v3);
    Cut32(v, v3 / 256, U32(v3 % 256, v2 % 256, v1 % 256, v % 256));
  }

  function Concat(chunks: seq<seq<Byte>>): seq<Byte> {
    if chunks == [] then [] else chunks[0] + Concat(chunks[1..])
  }

  lemma AppendAssoc(a: seq<Byte>, b: seq<Byte>, c: seq<Byte>)
    ensures (a + b) + c == a + (b + c)
  {
  }

  lemma {:induction false} ConcatAppend(a: seq<seq<Byte>>, b: seq<seq<Byte>>, c: seq<seq<Byte>>)
    requires c == a + b
    ensures Concat(c) == Concat(a) + Concat(b)
    decreases |a|
  {
    if a == [] { assert c == b; }
    else {
      assert c[0] == a[0] && c[1..] == a[1..] + b;
      ConcatAppend(a[1..], b, c[1..]);
    }
  }

  lemma ConcatOne(e: seq<Byte>)
    ensures Concat([e]) == e
  {
    assert [e][1..] == [];
  }

  /** Concat, taken from the back. */
  lemma ConcatLast(chunks: seq<seq<Byte>>)
    requires chunks != []
    ensures Concat(chunks) == Concat(chunks[..|chunks| - 1]) + chunks[|chunks| - 1]
  {
    var n := |chunks| - 1;
    ConcatAppend(chunks[..n], [chunks[n]], chunks);
    ConcatOne(chunks[n]);
  }
}
