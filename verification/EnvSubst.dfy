/**
 * Environment variables in configuration values, src/cfgutils.c: $NAME is replaced by its value, and a
 * backslash before it keeps it from being replaced.
 */
module EnvSubst {
  import opened Wrappers

  type Env = string -> Option<string>

  predicate NameChar(c: char) {
    'a' <= c <= 'z' || 'A' <= c <= 'Z' || '0' <= c <= '9' || c == '_'
  }

  /** The number of name characters s starts with. */
  function Run(s: string): (n: nat)
    ensures n <= |s|
  {
    if s == [] || !NameChar(s[0]) then 0 else 1 + Run(s[1..])
  }

  /** The length of the longest match of \$[a-zA-Z0-9_]+ at the start of s; 0 if none. */
  function Var(s: string): (n: nat)
    ensures n <= |s| && n != 1
  {
    if s != [] && s[0] == '$' && Run(s[1..]) > 0 then 1 + Run(s[1..]) else 0
  }

  lemma {:induction false} RunIsMaximal(s: string)
    ensures forall i | 0 <= i < Run(s) :: NameChar(s[i])
    ensures Run(s) < |s| ==> !NameChar(s[Run(s)])
  {
    if Run(s) > 0 { RunIsMaximal(s[1..]); }
  }

  /** A variable is a $ and all the name characters behind it, of which there is at least one. */
  lemma VarIsMaximal(s: string)
    requires Var(s) > 0
    ensures s[0] == '$' && (forall i | 1 <= i < Var(s) :: NameChar(s[i])) && (Var(s) < |s| ==> !NameChar(s[Var(s)]))
  {
    RunIsMaximal(s[1..]);
    assert forall i | 1 <= i < Var(s) :: s[i] == s[1..][i - 1];
  }

  /** What a variable stands for: its value, or itself when it has none. */
  function Value(v: string, env: Env): string
    requires v != []
  {
    match env(v[1..])
    case Some(value) => value
    case None => v
  }

  /** The rewrite, one character at a time. */
  function Subst(s: string, env: Env): string {
    if s == [] then []
    else if s[0] == '\\' && Var(s[1..]) > 0 then
      s[1..1 + Var(s[1..])] + Subst(s[1 + Var(s[1..])..], env)
    else if Var(s) > 0 then
      Value(s[..Var(s)], env) + Subst(s[Var(s)..], env)
    else [s[0]] + Subst(s[1..], env)
  }

  lemma SubstEscaped(s: string, v: string, rest: string, env: Env)
    requires s == ['\\'] + v + rest && Var(v + rest) == |v| > 0
    ensures Subst(s, env) == v + Subst(rest, env)
  {
    assert s[1..] == v + rest && s[1..1 + |v|] == v && s[1 + |v|..] == rest;
  }

  lemma SubstVariable(s: string, v: string, rest: string, env: Env)
    requires s == v + rest && Var(s) == |v| > 0
    ensures Subst(s, env) == Value(v, env) + Subst(rest, env)
  {
    assert s[..|v|] == v && s[|v|..] == rest;
  }

  lemma SubstPlain(s: string, c: char, rest: string, env: Env)
    requires s == [c] + rest && Var(s) == 0 && (c == '\\' ==> Var(rest) == 0)
    ensures Subst(s, env) == [c] + Subst(rest, env)
  {
    assert s[1..] == rest;
  }

  // ---------------------------------------------------------------- the other way

  /** A backslash before every variable. */
  function Escape(s: string): string {
    if s == [] then []
    else if Var(s) > 0 then ['\\'] + s[..Var(s)] + Escape(s[Var(s)..])
    else [s[0]] + Escape(s[1..])
  }

  lemma VarIs(s: string, n: nat)
    requires 1 < n <= |s| && s[0] == '$' && (forall i | 1 <= i < n :: NameChar(s[i])) && (n < |s| ==> !NameChar(s[n]))
    ensures Var(s) == n
  {
    RunIsMaximal(s[1..]);
    assert forall i | 0 <= i < n - 1 :: NameChar(s[1..][i]);
    assert n < |s| ==> s[1..][n - 1] == s[n];
  }

  lemma {:induction false} EscapeHides(s: string)
    ensures Var(Escape(s)) == 0
  {
    if s != [] && Var(s) == 0 && s[0] == '$' && s[1..] != [] {
      assert Run(s[1..]) == 0;
      assert Escape(s)[1..] == Escape(s[1..]);
    }
  }

  /** Every text can be written: substitution undoes escaping, whatever the environment. */
  lemma {:induction false} EscapeThenSubst(s: string, env: Env)
    ensures Subst(Escape(s), env) == s
  {
    if s != [] {
      var n := Var(s);
      if n > 0 {
        EscapeThenSubst(s[n..], env);
        EscapedVariable(s);
        SubstEscaped(Escape(s), s[..n], Escape(s[n..]), env);
        assert s == s[..n] + s[n..];
      } else {
        EscapeThenSubst(s[1..], env);
        EscapeHides(s);
        EscapeHides(s[1..]);
        SubstPlain(Escape(s), s[0], Escape(s[1..]), env);
      }
    }
  }

  lemma EscapedVariable(s: string)
    requires Var(s) > 0
    ensures Var(s[..Var(s)] + Escape(s[Var(s)..])) == Var(s)
  {
    var n := Var(s);
    var t := s[..n] + Escape(s[n..]);
    VarIsMaximal(s);
    assert n < |s| ==> t[n] == '\\' || t[n] == s[n];
    VarIs(t, n);
  }

  // ---------------------------------------------------------------- the scan

  /** No variable begins before position n. */
  predicate NoneBefore(s: string, n: nat) {
    n <= |s| && (n > 0 ==> Var(s) == 0 && NoneBefore(s[1..], n - 1))
  }

  lemma {:induction false} NoneHere(s: string, n: nat)
    requires n < |s| && NoneBefore(s, n) && Var(s[n..]) == 0
    ensures NoneBefore(s, n + 1)
  {
    if n == 0 {
      assert s[0..] == s;
    } else {
      assert s[1..][n - 1..] == s[n..];
      NoneHere(s[1..], n - 1);
    }
  }

  lemma {:induction false} NothingToDo(s: string, env: Env)
    requires NoneBefore(s, |s|)
    ensures Subst(s, env) == s
  {
    if s != [] {
      NothingToDo(s[1..], env);
      SubstPlain(s, s[0], s[1..], env);
    }
  }

  /** The output up to and with the first variable v, what comes before it being `pre`. */
  function Through(pre: string, v: string, env: Env): string
    requires v != []
  {
    if pre != [] && pre[|pre| - 1] == '\\' then pre[..|pre| - 1] + v else pre + Value(v, env)
  }

  lemma {:induction false} FirstVariable(s: string, pre: string, v: string, rest: string, env: Env)
    requires s == pre + (v + rest) && NoneBefore(s, |pre|) && Var(v + rest) == |v| > 0
    ensures Subst(s, env) == Through(pre, v, env) + Subst(rest, env)
    decreases |pre|
  {
    hide *;
    ThroughStep(pre, v, env);
    if pre == [] {
      assert s == v + rest;
      SubstVariable(s, v, rest, env);
    } else if pre == ['\\'] {
      assert s == ['\\'] + v + rest;
      SubstEscaped(s, v, rest, env);
    } else {
      var c, pre', s' := pre[0], pre[1..], s[1..];
      assert s' == pre' + (v + rest) && s == [c] + s';
      NoneBeforeTail(s, |pre|);
      FirstVariable(s', pre', v, rest, env);
      SubstPlain(s, c, s', env);
      assert [c] + (Through(pre', v, env) + Subst(rest, env)) == ([c] + Through(pre', v, env)) + Subst(rest, env);
    }
  }

  lemma NoneBeforeTail(s: string, n: nat)
    requires NoneBefore(s, n) && n > 0
    ensures Var(s) == 0 && NoneBefore(s[1..], n - 1) && (n > 1 ==> Var(s[1..]) == 0)
  {
  }

  lemma ThroughStep(pre: string, v: string, env: Env)
    requires v != []
    ensures pre == [] ==> Through(pre, v, env) == Value(v, env)
    ensures pre == ['\\'] ==> Through(pre, v, env) == v
    ensures pre != [] && pre != ['\\'] ==> Through(pre, v, env) == [pre[0]] + Through(pre[1..], v, env)
  {
    hide Value;
  }

  // ---------------------------------------------------------------- the program

  /** regexec for the first and longest match in s; so == -1 when there is none. */
  method Regexec(s: string) returns (so: int, eo: int)
    ensures so == -1 ==> NoneBefore(s, |s|)
    ensures so != -1 ==> 0 <= so < eo <= |s| && NoneBefore(s, so) && Var(s[so..]) == eo - so
  {
    so := 0;
    while so < |s|
      invariant 0 <= so <= |s| && NoneBefore(s, so)
    {
      var n := Var(s[so..]);
      if n > 0 { return so, so + n; }
      NoneHere(s, so);
      so := so + 1;
    }
    return -1, -1;
  }

  /** Appending data to the text so far, which must fit with the NUL to come. */
  method Copy(out: array<char>, at: nat, data: string)
    requires at + |data| < out.Length
    modifies out
    ensures out[..at + |data|] == old(out[..at]) + data
  {
    forall i | 0 <= i < |data| { out[at + i] := data[i]; }
    assert out[..at] == old(out[..at]);
    assert out[..at + |data|] == out[..at] + out[at..at + |data|];
  }

  method Grow(outval: array<char>, outptr: nat, more: nat) returns (out: array<char>)
    requires outptr <= outval.Length
    ensures fresh(out) && out.Length == outval.Length + more && out[..outptr] == outval[..outptr]
  {
    out := new char[outval.Length + more];
    forall i | 0 <= i < outval.Length { out[i] := outval[i]; }
  }

  /**
   * One match: what comes before it, and the variable or its value. The buffer grows when the value is longer than its
   * name.
   */
  method Put(outval: array<char>, outptr: nat, pre: string, name: string, escaped: bool, env: Env, ghost left: nat)
    returns (out: array<char>, ptr: nat)
    requires name != [] && outptr + |pre| + |name| + left + 1 <= outval.Length
    requires escaped <==> pre != [] && pre[|pre| - 1] == '\\'
    modifies outval
    ensures out == outval || fresh(out)
    ensures ptr + left + 1 <= out.Length && out[..ptr] == old(outval[..outptr]) + Through(pre, name, env)
  {
    hide Value, Through;
    ThroughIs(pre, name, env);
    if escaped {
      out := outval;
      ptr := Two(out, outptr, pre[..|pre| - 1], name);
    } else {
      var envValue := env(name[1..]);
      var sizeGrowth := if envValue.None? then 0 else |envValue.value| - |name|;
      if sizeGrowth > 0 {
        out := Grow(outval, outptr, sizeGrowth);
      } else {
        out := outval;
      }
      ptr := Two(out, outptr, pre, if envValue.Some? then envValue.value else name);
    }
  }

  /** The two copies made for a match. */
  method Two(out: array<char>, at: nat, a: string, b: string) returns (ptr: nat)
    requires at + |a| + |b| < out.Length
    modifies out
    ensures ptr == at + |a| + |b| && out[..ptr] == old(out[..at]) + (a + b)
  {
    ghost var before := out[..at];
    Copy(out, at, a);
    Copy(out, at + |a|, b);
    ptr := at + |a| + |b|;
    assert (before + a) + b == before + (a + b);
  }

  lemma ThroughIs(pre: string, name: string, env: Env)
    requires name != []
    ensures pre != [] && pre[|pre| - 1] == '\\' ==> Through(pre, name, env) == pre[..|pre| - 1] + name
    ensures !(pre != [] && pre[|pre| - 1] == '\\') ==>
              Through(pre, name, env) == pre + match env(name[1..]) { case Some(v) => v case None => name }
  {
  }

  /** The first match behind inptr, if so is not -1. */
  predicate Matched(value: string, inptr: nat, so: int, eo: int) {
    inptr <= |value| &&
    var s := value[inptr..];
    if so == -1 then NoneBefore(s, |s|)
    else 0 <= so < eo <= |s| && NoneBefore(s, so) && Var(s[so..]) == eo - so
  }

  lemma MatchedFacts(value: string, inptr: nat, so: int, eo: int, env: Env)
    requires Matched(value, inptr, so, eo)
    ensures so == -1 ==> Subst(value[inptr..], env) == value[inptr..]
    ensures so != -1 ==> 0 <= so < eo <= |value| - inptr && value[inptr + eo - 1] != '\\'
    ensures so != -1 ==>
              var s := value[inptr..];
              Subst(s, env) == Through(s[..so], s[so..eo], env) + Subst(value[inptr + eo..], env)
  {
    hide Subst, Through, NoneBefore, Var;
    var s := value[inptr..];
    if so == -1 {
      NothingToDo(s, env);
    } else {
      MatchedSplit(value, inptr, so, eo);
      FirstVariable(s, s[..so], s[so..eo], value[inptr + eo..], env);
    }
  }

  lemma MatchedSplit(value: string, inptr: nat, so: int, eo: int)
    requires Matched(value, inptr, so, eo) && so != -1
    ensures var s, rest := value[inptr..], value[inptr + eo..];
      && s == s[..so] + (s[so..eo] + rest) && Var(s[so..eo] + rest) == eo - so
      && value[inptr + eo - 1] != '\\'
  {
    var s := value[inptr..];
    VarIsMaximal(s[so..]);
    hide Var, NoneBefore;
    assert value[inptr + eo - 1] == s[so..][eo - so - 1];
    assert s[so..] == s[so..eo] + value[inptr + eo..];
  }

  /**
   * doEnvVariableSubstitution: the result is the rewrite, ended by a NUL, in a buffer that was always
   * large enough for what was written and what was left of the input.
   */
  method EnvVariableSubstitution(value: string, env: Env) returns (outval: array<char>)
    ensures fresh(outval)
    ensures var r := Subst(value, env); |r| < outval.Length && outval[..|r|] == r && outval[|r|] == '\0'
  {
    hide Subst, Through, Matched;
    outval := new char[|value| + 1](_ => '\0');
    var outptr: nat, inptr: nat := 0, 0;
    assert value[0..] == value;
    var so, eo := Find(value, inptr);
    while so != -1
      invariant inptr <= |value| && fresh(outval) && outptr + (|value| - inptr) + 1 <= outval.Length
      invariant Subst(value, env) == outval[..outptr] + Subst(value[inptr..], env)
      invariant inptr > 0 ==> value[inptr - 1] != '\\'
      invariant Matched(value, inptr, so, eo)
      decreases |value| - inptr + if so == -1 then 0 else 1
    {
      MatchedFacts(value, inptr, so, eo, env);
      outval, outptr := Take(value, inptr, so, eo, outval, outptr, env);
      inptr := inptr + eo;
      so, eo := Find(value, inptr);
    }
    MatchedFacts(value, inptr, so, eo, env);
    Copy(outval, outptr, value[inptr..]);
    outval[outptr + |value| - inptr] := '\0';
  }

  /** One pass of the loop: output and rest stand for the same rewrite as before. */
  method Take(value: string, inptr: nat, so: int, eo: int, outval: array<char>, outptr: nat, env: Env)
    returns (out: array<char>, ptr: nat)
    requires Matched(value, inptr, so, eo) && so != -1 && outptr + (|value| - inptr) + 1 <= outval.Length
    requires inptr > 0 ==> value[inptr - 1] != '\\'
    modifies outval
    ensures out == outval || fresh(out)
    ensures inptr + eo <= |value| && ptr + (|value| - inptr - eo) + 1 <= out.Length
    ensures out[..ptr] + Subst(value[inptr + eo..], env) == old(outval[..outptr]) + Subst(value[inptr..], env)
  {
    hide Subst, Through, Matched;
    MatchedFacts(value, inptr, so, eo, env);
    var s := value[inptr..];
    var escaped := inptr + so - 1 >= 0 && value[inptr + so - 1] == '\\';
    ghost var before, rest := outval[..outptr], Subst(value[inptr + eo..], env);
    out, ptr := Put(outval, outptr, s[..so], s[so..eo], escaped, env, |s| - eo);
    assert (before + Through(s[..so], s[so..eo], env)) + rest == before + (Through(s[..so], s[so..eo], env) + rest);
  }

  method Find(value: string, inptr: nat) returns (so: int, eo: int)
    requires inptr <= |value|
    ensures Matched(value, inptr, so, eo)
  {
    so, eo := Regexec(value[inptr..]);
  }
}
