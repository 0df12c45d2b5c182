/**
 * Percent-encoding, src/mtcformat.c, as in sections 2.1 and 2.3 of RFC 3986. The program works on plain
 * chars, which are signed, so that bytes above 127 are negative.
 */
module UrlCodec {
  import opened Bytes

  type Char = c: int | -128 <= c < 128

  const NUL: Char := 0
  const PERCENT: Char := 37
  const HEX: seq<Char> := [48, 49, 50, 51, 52, 53, 54, 55, 56, 57, 65, 66, 67, 68, 69, 70]

  /** The byte a char holds, and the char that holds a byte. */
  function ToByte(c: Char): Byte {
    if c < 0 then c + 256 else c
  }

  function ToChar(b: Byte): Char {
    if b > 127 then b - 256 else b
  }

  predicate IsHex(x: Char) {
    48 <= x <= 57 || 65 <= x <= 70 || 97 <= x <= 102
  }

  function FromHex(x: Char): (n: nat)
    ensures n < 16
  {
    if 48 <= x <= 57 then x - 48
    else if 65 <= x <= 70 then x - 65 + 10
    else if 97 <= x <= 102 then x - 97 + 10
    else 0
  }

  /** hex[code & 15], for negative codes too. */
  function ToHex(code: int): Char {
    HEX[code % 16]
  }

  predicate IsUnreserved(x: Char) {
    97 <= x <= 122 || 65 <= x <= 90 || 48 <= x <= 57 || x == 45 || x == 46 || x == 95 || x == 126
  }

  predicate NulFree(s: seq<Char>) {
    forall i | 0 <= i < |s| :: s[i] != NUL
  }

  // ---------------------------------------------------------------- on bytes

  /** The standard's encoding of one byte. */
  function EncodeByte(b: Byte): (r: seq<Char>)
    ensures 1 <= |r| <= 3
  {
    if IsUnreserved(ToChar(b)) then [ToChar(b)] else [PERCENT, HEX[b / 16], HEX[b % 16]]
  }

  function Encode(s: seq<Char>): (r: seq<Char>)
    ensures |r| <= 3 * |s|
  {
    if s == [] then [] else EncodeByte(ToByte(s[0])) + Encode(s[1..])
  }

  /** Decoding gives up at a % that is not followed by two hex digits. */
  function Decode(s: seq<Char>): (r: seq<Char>)
    ensures |r| <= |s|
    decreases |s|
  {
    if s == [] then []
    else if s[0] != PERCENT then [s[0]] + Decode(s[1..])
    else if |s| > 2 && IsHex(s[1]) && IsHex(s[2]) then [ToChar(16 * FromHex(s[1]) + FromHex(s[2]))] + Decode(s[3..])
    else []
  }

  /** The signed shift and mask give the digits of the byte: what is written is the standard's encoding. */
  lemma SignedDigits(c: Char)
    ensures ToHex(c / 16) == HEX[ToByte(c) / 16] && ToHex(c) == HEX[ToByte(c) % 16]
  {
    if c < 0 {
      assert (c + 256) / 16 == c / 16 + 16;
      assert c / 16 % 16 == c / 16 + 16;
    } else {
      assert c / 16 % 16 == c / 16;
    }
  }

  lemma HexDigits(n: nat)
    requires n < 16
    ensures IsHex(HEX[n]) && FromHex(HEX[n]) == n && HEX[n] != NUL && HEX[n] != PERCENT
  {
  }

  lemma DigitsMakeByte(c: Char)
    ensures var b := ToByte(c); ToChar(16 * FromHex(HEX[b / 16]) + FromHex(HEX[b % 16])) == c
  {
    var b := ToByte(c);
    HexDigits(b / 16);
    HexDigits(b % 16);
  }

  /** Decoding undoes encoding, for every text, bytes above 127 included. */
  lemma {:induction false} RoundTrip(s: seq<Char>)
    ensures Decode(Encode(s)) == s
  {
    if s != [] {
      var c, e, t := s[0], EncodeByte(ToByte(s[0])), Encode(s[1..]);
      RoundTrip(s[1..]);
      DecodeStep(c, t);
      assert s == [c] + s[1..];
    }
  }

  lemma DecodeStep(c: Char, t: seq<Char>)
    ensures Decode(EncodeByte(ToByte(c)) + t) == [c] + Decode(t)
  {
    var b := ToByte(c);
    var r := EncodeByte(b) + t;
    if IsUnreserved(c) {
      assert r[1..] == t;
    } else {
      HexDigits(b / 16);
      HexDigits(b % 16);
      DigitsMakeByte(c);
      assert r[3..] == t;
    }
  }

  // ---------------------------------------------------------------- what encoded texts look like

  predicate UpperHex(x: Char) {
    48 <= x <= 57 || 65 <= x <= 70
  }

  /**
   * Only unreserved characters and %XX with capital digits, the latter only for bytes that need it and never for NUL.
   */
  predicate Canonical(t: seq<Char>)
    decreases |t|
  {
    if t == [] then true
    else if t[0] != PERCENT then IsUnreserved(t[0]) && Canonical(t[1..])
    else
      && |t| > 2 && UpperHex(t[1]) && UpperHex(t[2])
      && (var b := 16 * FromHex(t[1]) + FromHex(t[2]); b != 0 && !IsUnreserved(ToChar(b)))
      && Canonical(t[3..])
  }

  lemma {:induction false} EncodeIsCanonical(s: seq<Char>)
    requires NulFree(s)
    ensures Canonical(Encode(s))
  {
    if s != [] {
      var b, t, r := ToByte(s[0]), Encode(s[1..]), Encode(s);
      EncodeIsCanonical(s[1..]);
      if IsUnreserved(s[0]) {
        assert r[1..] == t;
      } else {
        HexDigits(b / 16);
        HexDigits(b % 16);
        DigitsMakeByte(s[0]);
        assert r[3..] == t;
      }
    }
  }

  lemma UpperHexDigit(x: Char)
    requires UpperHex(x)
    ensures HEX[FromHex(x)] == x && IsHex(x)
  {
  }

  lemma TwoDigits(h: nat, l: nat)
    requires h < 16 && l < 16
    ensures (16 * h + l) / 16 == h && (16 * h + l) % 16 == l && 16 * h + l < 256
  {
  }

  /** Encoding undoes decoding exactly on the canonical texts. */
  lemma {:induction false} EncodeDecode(t: seq<Char>)
    ensures Canonical(t) <==> NulFree(Decode(t)) && Encode(Decode(t)) == t
    decreases |t|
  {
    if NulFree(Decode(t)) && Encode(Decode(t)) == t {
      EncodeIsCanonical(Decode(t));
    }
    if Canonical(t) { CanonicalDecodes(t); }
  }

  lemma {:induction false} CanonicalDecodes(t: seq<Char>)
    requires Canonical(t)
    ensures NulFree(Decode(t)) && Encode(Decode(t)) == t
    decreases |t|
  {
    if t == [] {
    } else if t[0] != PERCENT {
      CanonicalDecodes(t[1..]);
      PlainBack(t[0], Decode(t[1..]), t[1..]);
      assert t == [t[0]] + t[1..];
    } else {
      CanonicalDecodes(t[3..]);
      EscapeBack(t[1], t[2], Decode(t[3..]), t[3..]);
      UpperHexDigit(t[1]);
      UpperHexDigit(t[2]);
      hide IsUnreserved, UpperHex, FromHex, Encode, EncodeByte;
      assert t == [PERCENT, t[1], t[2]] + t[3..];
    }
  }

  lemma PlainBack(c: Char, d: seq<Char>, rest: seq<Char>)
    requires IsUnreserved(c) && NulFree(d) && Encode(d) == rest
    ensures NulFree([c] + d) && Encode([c] + d) == [c] + rest
  {
    assert ([c] + d)[1..] == d;
  }

  lemma EscapeBack(h: Char, l: Char, d: seq<Char>, rest: seq<Char>)
    requires UpperHex(h) && UpperHex(l) && NulFree(d) && Encode(d) == rest
    requires var b := 16 * FromHex(h) + FromHex(l); b != 0 && !IsUnreserved(ToChar(b))
    ensures var c := ToChar(16 * FromHex(h) + FromHex(l)); NulFree([c] + d) && Encode([c] + d) == [PERCENT, h, l] + rest
  {
    UpperHexDigit(h);
    UpperHexDigit(l);
    hide IsUnreserved, UpperHex, FromHex;
    TwoDigits(FromHex(h), FromHex(l));
    var b := 16 * FromHex(h) + FromHex(l);
    var c := ToChar(b);
    assert ToByte(c) == b;
    assert ([c] + d)[1..] == d;
    assert EncodeByte(b) == [PERCENT, h, l];
  }

  lemma EncodeStep(s: seq<Char>, i: nat)
    requires i < |s|
    ensures Encode(s[i..]) == EncodeByte(ToByte(s[i])) + Encode(s[i + 1..])
  {
    assert s[i..][1..] == s[i + 1..];
  }

  // ---------------------------------------------------------------- the program

  /** fmtUrlEncode, on a string without its NUL. The buffer of three times the length and one is always enough. */
  method UrlEncode(inStr: seq<Char>) returns (out: array<Char>, n: nat)
    requires NulFree(inStr)
    ensures out.Length == |inStr| * 3 + 1 && n < out.Length && out[..n] == Encode(inStr) && out[n] == NUL
  {
    hide EncodeByte, IsUnreserved, ToByte;
    out := new Char[|inStr| * 3 + 1];
    n := 0;
    var i := 0;
    assert inStr[0..] == inStr;
    while i < |inStr|
      invariant 0 <= i <= |inStr| && n <= 3 * i
      invariant Encode(inStr) == out[..n] + Encode(inStr[i..])
    {
      ghost var before := out[..n];
      EncodeStep(inStr, i);
      n := Emit(out, n, inStr[i]);
      i := i + 1;
      assert before + EncodeByte(ToByte(inStr[i - 1])) + Encode(inStr[i..]) ==
        before + (EncodeByte(ToByte(inStr[i - 1])) + Encode(inStr[i..]));
    }
    assert inStr[i..] == [] && Encode([]) == [];
    out[n] := NUL;
  }

  /** One pass of the loop. */
  method Emit(out: array<Char>, at: nat, c: Char) returns (n: nat)
    requires at + 3 < out.Length
    modifies out
    ensures at < n <= at + 3 && out[..n] == old(out[..at]) + EncodeByte(ToByte(c))
  {
    n := at;
    if IsUnreserved(c) {
      out[n] := c;
      n := n + 1;
    } else {
      SignedDigits(c);
      out[n] := PERCENT;
      out[n + 1] := ToHex(c / 16);
      out[n + 2] := ToHex(c);
      n := n + 3;
    }
  }

  /** The i-th char of a string with its NUL. */
  function At(s: seq<Char>, i: nat): Char {
    if i < |s| then s[i] else NUL
  }

  /** fmtUrlDecode */
  method UrlDecode(inStr: seq<Char>) returns (out: array<Char>, n: nat)
    requires NulFree(inStr)
    ensures out.Length == |inStr| + 1 && n < out.Length && out[..n] == Decode(inStr) && out[n] == NUL
  {
    hide Decode, NulFree;
    out := new Char[|inStr| + 1];
    n := 0;
    var i := 0;
    ghost var done: seq<Char> := [];
    assert done + Decode(inStr[0..]) == Decode(inStr) by { assert inStr[0..] == inStr; }
    var stop := false;
    while !stop
      invariant 0 <= i <= |inStr| && n <= i && out[..n] == done
      invariant Decode(inStr) == done + Decode(inStr[i..])
      invariant stop ==> Decode(inStr[i..]) == []
      decreases |inStr| - i, !stop
    {
      var c, next;
      stop, c, next := Scan(inStr, i);
      if !stop {
        PutChar(out, n, c);
        n := n + 1;
        assert done + ([c] + Decode(inStr[next..])) == (done + [c]) + Decode(inStr[next..]);
        done, i := done + [c], next;
      }
    }
    out[n] := NUL;
  }

  /** One pass of the loop: stop at the NUL or at a % without its digits, else give a char and go on. */
  method Scan(inStr: seq<Char>, i: nat) returns (stop: bool, c: Char, next: nat)
    requires NulFree(inStr) && i <= |inStr|
    ensures stop ==> Decode(inStr[i..]) == []
    ensures !stop ==> i < next <= |inStr| && Decode(inStr[i..]) == [c] + Decode(inStr[next..])
  {
    hide Decode, ToChar;
    DecodeAt(inStr, i);
    if At(inStr, i) == NUL { return true, NUL, i; }
    if inStr[i] == PERCENT {
      if IsHex(At(inStr, i + 1)) && IsHex(At(inStr, i + 2)) {
        return false, ToChar(FromHex(inStr[i + 1]) * 16 + FromHex(inStr[i + 2])), i + 3;
      } else {
        return true, NUL, i;
      }
    }
    return false, inStr[i], i + 1;
  }

  method PutChar(out: array<Char>, at: nat, c: Char)
    requires at < out.Length
    modifies out
    ensures out[..at + 1] == old(out[..at]) + [c]
  {
    out[at] := c;
  }

  /** What decoding does at position i of a string with its NUL. */
  lemma DecodeAt(s: seq<Char>, i: nat)
    requires NulFree(s) && i <= |s|
    ensures i == |s| ==> Decode(s[i..]) == []
    ensures i < |s| && s[i] != PERCENT ==> Decode(s[i..]) == [s[i]] + Decode(s[i + 1..])
    ensures i < |s| && s[i] == PERCENT ==>
      if IsHex(At(s, i + 1)) && IsHex(At(s, i + 2)) then
        i + 2 < |s| && Decode(s[i..]) == [ToChar(FromHex(s[i + 1]) * 16 + FromHex(s[i + 2]))] + Decode(s[i + 3..])
      else Decode(s[i..]) == []
  {
    if i < |s| { assert s[i..][1..] == s[i + 1..]; }
    if i + 2 < |s| { assert s[i..][3..] == s[i + 3..]; }
  }

  // ---------------------------------------------------------------- any text

  /** The small letter of a capital hex digit. */
  function Lower(x: Char): Char {
    if 65 <= x <= 70 then x + 32 else x
  }

  /** Capital or small, the digits of a byte decode to it. */
  lemma DecodeAnyCase(b: Byte, h: Char, l: Char, t: seq<Char>)
    requires h == HEX[b / 16] || h == Lower(HEX[b / 16])
    requires l == HEX[b % 16] || l == Lower(HEX[b % 16])
    ensures Decode([PERCENT, h, l] + t) == [ToChar(b)] + Decode(t)
  {
    var s := [PERCENT, h, l] + t;
    HexEither(b / 16, h);
    HexEither(b % 16, l);
    assert s[3..] == t && 16 * (b / 16) + b % 16 == b;
  }

  lemma HexEither(n: nat, x: Char)
    requires n < 16 && (x == HEX[n] || x == Lower(HEX[n]))
    ensures IsHex(x) && FromHex(x) == n
  {
  }

  /** Every hex digit is one of these. */
  lemma HexOnly(x: Char) returns (n: nat)
    requires IsHex(x)
    ensures n < 16 && (x == HEX[n] || x == Lower(HEX[n]))
  {
    n := FromHex(x);
  }

  /** What does not begin a %XX is copied; at a % without two hex digits the text ends. */
  lemma {:induction false} DecodeStops(s: seq<Char>, t: seq<Char>)
    requires PERCENT !in s
    requires t == [] || (t[0] == PERCENT && (|t| < 3 || !IsHex(t[1]) || !IsHex(t[2])))
    ensures Decode(s + t) == s
  {
    if s == [] {
      assert s + t == t;
    } else {
      assert (s + t)[1..] == s[1..] + t && s == [s[0]] + s[1..];
      DecodeStops(s[1..], t);
    }
  }

  /** The unreserved characters of section 2.3 of RFC 3986. */
  lemma UnreservedChars(c: char)
    requires c as int < 128
    ensures IsUnreserved(c as int) <==>
              'A' <= c <= 'Z' || 'a' <= c <= 'z' || '0' <= c <= '9' || c in {'-', '.', '_', '~'}
  {
  }
}
