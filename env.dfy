/**
 * resolvEnvParameter (main.go): every match of the regular expression
 * `\$\{.*?\}` whose variable has a non-empty value in the environment is
 * replaced by that value, working left to right with an offset that tracks
 * how far the text has grown or shrunk.
 */
module Env {
  import opened Wrappers
  import Seqs

  /** os.Getenv: the empty string for a variable that is not set. */
  function Getenv(env: map<string, string>, name: string): string {
    if name in env then env[name] else ""
  }

  /** A match of the pattern, as the start and end offsets FindAllStringIndex reports. */
  datatype Span = Span(start: nat, end: nat)

  /**
   * The first '}' at or after j, as the lazy `.*?` finds it; `.` does not
   * match a newline, so a newline before it means there is none (-1).
   */
  function CloseFrom(s: string, j: nat): (c: int)
    requires j <= |s|
    ensures c == -1 || (j <= c < |s| && s[c] == '}')
    ensures c != -1 ==> forall m :: j <= m < c ==> s[m] != '}' && s[m] != '\n'
    decreases |s| - j
  {
    if j == |s| || s[j] == '\n' then -1
    else if s[j] == '}' then j
    else CloseFrom(s, j + 1)
  }

  /** The match that starts at k, if there is one. */
  function MatchAt(s: string, k: nat): (m: Option<Span>)
    requires k <= |s|
    ensures m.Some? ==> m.value.start == k && k + 3 <= m.value.end <= |s|
  {
    if k + 2 <= |s| && s[k] == '$' && s[k + 1] == '{' then
      var c := CloseFrom(s, k + 2);
      if c == -1 then None else Some(Span(k, c + 1))
    else None
  }

  /** Spans in order, without overlap, all within s[from..]. */
  predicate Ordered(s: string, ms: seq<Span>, from: nat)
    decreases |ms|
  {
    ms == [] || (from <= ms[0].start && ms[0].start + 3 <= ms[0].end <= |s| && Ordered(s, ms[1..], ms[0].end))
  }

  /** FindAllStringIndex from offset k: the leftmost match, then the matches after its end. */
  function MatchesFrom(s: string, k: nat): (ms: seq<Span>)
    requires k <= |s|
    ensures Ordered(s, ms, k)
    decreases |s| - k
  {
    if k == |s| then []
    else
      match MatchAt(s, k)
      case Some(m) =>
        var rest := MatchesFrom(s, m.end);
        assert ([m] + rest)[1..] == rest;
        [m] + rest
      case None =>
        var rest := MatchesFrom(s, k + 1);
        assert rest == [] || k <= rest[0].start;
        rest
  }

  /** What a placeholder "${name}" becomes: the variable's value when it is non-empty, else the placeholder itself. */
  function Substitute(placeholder: string, env: map<string, string>): string
    requires |placeholder| >= 3
  {
    var name := placeholder[2..|placeholder| - 1];
    var value := Getenv(env, name);
    if value != "" then value else placeholder
  }

  /** What a match becomes. */
  function Replacement(s: string, m: Span, env: map<string, string>): string
    requires m.start + 3 <= m.end <= |s|
  {
    Substitute(s[m.start..m.end], env)
  }

  /** The reference meaning, read left to right: each match is replaced, every other character is kept. */
  function ResolveFrom(s: string, k: nat, env: map<string, string>): string
    requires k <= |s|
    decreases |s| - k
  {
    if k == |s| then []
    else
      match MatchAt(s, k)
      case Some(m) => Replacement(s, m, env) + ResolveFrom(s, m.end, env)
      case None => [s[k]] + ResolveFrom(s, k + 1, env)
  }

  /** A match at k is replaced, and resolving goes on after it. */
  lemma ResolveMatchStep(s: string, k: nat, m: Span, env: map<string, string>)
    requires k < |s| && MatchAt(s, k) == Some(m)
    ensures ResolveFrom(s, k, env) == Replacement(s, m, env) + ResolveFrom(s, m.end, env)
  {
  }

  /** Without a match at k, the character at k is copied. */
  lemma ResolveCharStep(s: string, k: nat, env: map<string, string>)
    requires k < |s| && MatchAt(s, k).None?
    ensures ResolveFrom(s, k, env) == [s[k]] + ResolveFrom(s, k + 1, env)
  {
  }

  function Resolve(s: string, env: map<string, string>): string {
    ResolveFrom(s, 0, env)
  }

  /** s[from..] with the listed matches replaced. */
  function Splice(s: string, ms: seq<Span>, from: nat, env: map<string, string>): string
    requires from <= |s| && Ordered(s, ms, from)
    decreases |ms|
  {
    if ms == [] then s[from..]
    else s[from..ms[0].start] + Replacement(s, ms[0], env) + Splice(s, ms[1..], ms[0].end, env)
  }

  /** A character before the first listed match is copied. */
  lemma SpliceKeepsChar(s: string, ms: seq<Span>, k: nat, env: map<string, string>)
    requires k < |s| && Ordered(s, ms, k + 1)
    ensures Splice(s, ms, k, env) == [s[k]] + Splice(s, ms, k + 1, env)
  {
    if ms == [] {
      Seqs.SliceSplit(s, k, k + 1, |s|);
      assert s[k..k + 1] == [s[k]];
    } else {
      var st := ms[0].start;
      var rep := Replacement(s, ms[0], env);
      var rest := Splice(s, ms[1..], ms[0].end, env);
      assert Splice(s, ms, k, env) == s[k..st] + rep + rest;
      assert Splice(s, ms, k + 1, env) == s[k + 1..st] + rep + rest;
      Seqs.SliceSplit(s, k, k + 1, st);
      assert s[k..k + 1] == [s[k]];
      Seqs.Assoc([s[k]], s[k + 1..st], rep);
      Seqs.Assoc([s[k]], s[k + 1..st] + rep, rest);
    }
  }

  /** The match case of SpliceMatches. */
  lemma {:induction false} SpliceMatchCase(s: string, k: nat, m: Span, env: map<string, string>)
    requires k < |s| && MatchAt(s, k) == Some(m)
    ensures Splice(s, MatchesFrom(s, k), k, env) == ResolveFrom(s, k, env)
    decreases |s| - k, 0
  {
    var rest := MatchesFrom(s, m.end);
    SpliceMatches(s, m.end, env);
    assert MatchesFrom(s, k) == [m] + rest;
    assert ([m] + rest)[0] == m && ([m] + rest)[1..] == rest;
    assert s[k..m.start] == [];
    assert Splice(s, [m] + rest, k, env) == [] + Replacement(s, m, env) + Splice(s, rest, m.end, env);
    assert [] + Replacement(s, m, env) == Replacement(s, m, env);
    ResolveMatchStep(s, k, m, env);
  }

  /** The copied-character case of SpliceMatches. */
  lemma {:induction false} SpliceCharCase(s: string, k: nat, env: map<string, string>)
    requires k < |s| && MatchAt(s, k).None?
    ensures Splice(s, MatchesFrom(s, k), k, env) == ResolveFrom(s, k, env)
    decreases |s| - k, 0
  {
    assert MatchesFrom(s, k) == MatchesFrom(s, k + 1);
    SpliceMatches(s, k + 1, env);
    SpliceKeepsChar(s, MatchesFrom(s, k + 1), k, env);
    ResolveCharStep(s, k, env);
  }

  /** Replacing the matches FindAllStringIndex reports is the reference meaning. */
  lemma {:induction false} SpliceMatches(s: string, k: nat, env: map<string, string>)
    requires k <= |s|
    ensures Splice(s, MatchesFrom(s, k), k, env) == ResolveFrom(s, k, env)
    decreases |s| - k, 1
  {
    if k < |s| {
      var mk := MatchAt(s, k);
      if mk.Some? {
        SpliceMatchCase(s, k, mk.value, env);
      } else {
        SpliceCharCase(s, k, env);
      }
    }
  }

  /** Splicing the first match moves it, with the gap before it, into the finished text. */
  lemma SpliceFirst(s: string, ms: seq<Span>, e: nat, env: map<string, string>, done: string)
    requires e <= |s| && Ordered(s, ms, e) && ms != []
    ensures done + Splice(s, ms, e, env)
         == (done + s[e..ms[0].start] + Replacement(s, ms[0], env)) + Splice(s, ms[1..], ms[0].end, env)
  {
  }

  /**
   * One step of resolvEnvParameter: with the text so far `done` followed by
   * the untouched t[e..], the match m sits at offset |done| - e further on;
   * its name reads the same there, and putting a value in its place extends
   * the finished text by the gap and that value.
   */
  lemma ReplaceAtOffset(t: string, done: string, e: nat, m: Span, value: string, r: string, p0: int, p1: int)
    requires e <= m.start && m.start + 3 <= m.end <= |t|
    requires r == done + t[e..] && p0 == m.start + |done| - e && p1 == m.end + |done| - e
    ensures 0 <= p0 <= p1 <= |r|
    ensures r[p0..p1] == t[m.start..m.end]
    ensures r[..p0] + value + r[p1..] == (done + t[e..m.start] + value) + t[m.end..]
    ensures r == (done + t[e..m.start] + t[m.start..m.end]) + t[m.end..]
  {
    var g, x, post := t[e..m.start], t[m.start..m.end], t[m.end..];
    Seqs.SliceSplit(t, e, m.start, |t|);
    Seqs.SliceSplit(t, m.start, m.end, |t|);
    Seqs.Assoc(g, x, post);
    Seqs.Assoc(done, g, x + post);
    Seqs.Assoc(done + g, x, post);
    assert r == done + g + x + post;
    Seqs.Parts3(done + g, x, post);
  }

  /**
   * The loop body of resolvEnvParameter at match m: the placeholder read at
   * the offsets shifted by delta is substituted, which finishes the text up
   * to the end of m and moves delta by the change in length.
   */
  lemma SubstituteAtOffset(t: string, done: string, e: nat, m: Span, r: string, env: map<string, string>,
                           delta: int, p0: int, p1: int, placeholder: string, name: string, str: string)
    requires e <= m.start && m.start + 3 <= m.end <= |t| && r == done + t[e..] && delta == |done| - e
    requires p0 == m.start + delta && p1 == m.end + delta && 0 <= p0 <= p1 <= |r|
    requires placeholder == r[p0..p1] && |placeholder| >= 3 && name == placeholder[2..|placeholder| - 1]
    requires str == Getenv(env, name)
    ensures str != "" ==> r[..p0] + str + r[p1..] == (done + t[e..m.start] + Replacement(t, m, env)) + t[m.end..]
    ensures str == "" ==> r == (done + t[e..m.start] + Replacement(t, m, env)) + t[m.end..]
    ensures |done + t[e..m.start] + Replacement(t, m, env)| - m.end == if str != "" then delta + |str| - (|name| + 3) else delta
  {
    var value := Replacement(t, m, env);
    ReplaceAtOffset(t, done, e, m, value, r, p0, p1);
    if str != "" {
      assert value == str;
    } else {
      assert value == t[m.start..m.end];
    }
  }

  /**
   * resolvEnvParameter: the matches are found once in the original text,
   * then each is replaced at its offset shifted by `delta`. The error is
   * that of compiling a constant pattern, which always succeeds.
   */
  method ResolveEnvParameter(txt: string, env: map<string, string>) returns (r: string, err: Option<string>)
    ensures r == Resolve(txt, env)
    ensures err == None
  {
    var pos := MatchesFrom(txt, 0);
    var delta: int := 0;
    r := txt;
    ghost var done: string := [];
    ghost var e: nat := 0;
    ghost var whole := Splice(txt, pos, 0, env);
    assert pos[0..] == pos;
    for n := 0 to |pos|
      invariant e <= |txt| && Ordered(txt, pos[n..], e)
      invariant r == done + txt[e..]
      invariant delta == |done| - e
      invariant done + Splice(txt, pos[n..], e, env) == whole
    {
      var m := pos[n];
      assert pos[n..][0] == m && pos[n..][1..] == pos[n + 1..];
      SpliceFirst(txt, pos[n..], e, env, done);
      ghost var next := done + txt[e..m.start] + Replacement(txt, m, env);
      var p0 := m.start + delta;
      var p1 := m.end + delta;
      var placeholder := r[p0..p1];
      var name := placeholder[2..|placeholder| - 1];
      var str := Getenv(env, name);
      SubstituteAtOffset(txt, done, e, m, r, env, delta, p0, p1, placeholder, name, str);
      if str != "" {
        r := r[..p0] + str + r[p1..];
        delta := delta + |str| - (|name| + 3);
      }
      done, e := next, m.end;
      assert done + Splice(txt, pos[n + 1..], e, env) == whole;
    }
    assert pos[|pos|..] == [];
    SpliceMatches(txt, 0, env);
    err := None;
  }

  /** With no variable set to a non-empty value, the text is returned as it was. */
  lemma {:induction false} ResolveFromUnset(s: string, k: nat, env: map<string, string>)
    requires k <= |s|
    requires forall name :: Getenv(env, name) == ""
    ensures ResolveFrom(s, k, env) == s[k..]
    decreases |s| - k
  {
    if k < |s| {
      var mk := MatchAt(s, k);
      if mk.Some? {
        var m := mk.value;
        ResolveMatchStep(s, k, m, env);
        ResolveFromUnset(s, m.end, env);
        var ph := s[k..m.end];
        assert Replacement(s, m, env) == ph by {
          assert Getenv(env, ph[2..|ph| - 1]) == "";
        }
        Seqs.SliceSplit(s, k, m.end, |s|);
      } else {
        ResolveCharStep(s, k, env);
        ResolveFromUnset(s, k + 1, env);
        Seqs.SliceSplit(s, k, k + 1, |s|);
        assert s[k..k + 1] == [s[k]];
      }
    }
  }

  lemma ResolveUnset(s: string, env: map<string, string>)
    requires forall name :: Getenv(env, name) == ""
    ensures Resolve(s, env) == s
  {
    ResolveFromUnset(s, 0, env);
  }

  /** Text without a '$' holds no placeholder and is returned as it was. */
  lemma {:induction false} ResolveFromPlain(s: string, k: nat, env: map<string, string>)
    requires k <= |s|
    requires '$' !in s[k..]
    ensures ResolveFrom(s, k, env) == s[k..]
    decreases |s| - k
  {
    if k < |s| {
      assert s[k] == s[k..][0];
      assert s[k + 1..] == s[k..][1..];
      ResolveFromPlain(s, k + 1, env);
      assert s[k..] == [s[k]] + s[k + 1..];
    }
  }

  lemma ResolvePlain(s: string, env: map<string, string>)
    requires '$' !in s
    ensures Resolve(s, env) == s
  {
    assert s[0..] == s;
    ResolveFromPlain(s, 0, env);
  }

  /** A value in which the pattern finds no placeholder comes back unchanged, '$' or not. */
  lemma ResolveNoMatches(s: string, env: map<string, string>)
    requires MatchesFrom(s, 0) == []
    ensures Resolve(s, env) == s
  {
    SpliceMatches(s, 0, env);
    assert s[0..] == s;
  }

  /**
   * A match at kt in t resolves as a match at kb in b when the two
   * replacements agree and the rest after them resolves alike.
   */
  lemma MatchStepAlike(t: string, b: string, kt: nat, kb: nat, mt: Span, mb: Span, env: map<string, string>)
    requires kt < |t| && MatchAt(t, kt) == Some(mt)
    requires kb < |b| && MatchAt(b, kb) == Some(mb)
    requires Replacement(t, mt, env) == Replacement(b, mb, env)
    requires ResolveFrom(t, mt.end, env) == ResolveFrom(b, mb.end, env)
    ensures ResolveFrom(t, kt, env) == ResolveFrom(b, kb, env)
  {
    ResolveMatchStep(t, kt, mt, env);
    ResolveMatchStep(b, kb, mb, env);
  }

  /**
   * A copied character at kt in t resolves as one at kb in b when the two
   * characters agree and the rest after them resolves alike.
   */
  lemma CharStepAlike(t: string, b: string, kt: nat, kb: nat, env: map<string, string>)
    requires kt < |t| && MatchAt(t, kt).None?
    requires kb < |b| && MatchAt(b, kb).None?
    requires t[kt] == b[kb]
    requires ResolveFrom(t, kt + 1, env) == ResolveFrom(b, kb + 1, env)
    ensures ResolveFrom(t, kt, env) == ResolveFrom(b, kb, env)
  {
    ResolveCharStep(t, kt, env);
    ResolveCharStep(b, kb, env);
  }

  /** Looking for the closing brace depends only on the text from where the search starts. */
  lemma {:induction false} CloseFromAligned(t: string, jt: nat, b: string, jb: nat)
    requires jt <= |t| && jb <= |b| && t[jt..] == b[jb..]
    ensures CloseFrom(t, jt) == -1 <==> CloseFrom(b, jb) == -1
    ensures CloseFrom(t, jt) != -1 ==> CloseFrom(t, jt) - jt == CloseFrom(b, jb) - jb
    decreases |t| - jt
  {
    if jt < |t| {
      assert t[jt] == t[jt..][0] == b[jb..][0] == b[jb];
      assert t[jt + 1..] == t[jt..][1..] == b[jb..][1..] == b[jb + 1..];
      CloseFromAligned(t, jt + 1, b, jb + 1);
    }
  }

  /** Slices at the same distance from aligned offsets are equal. */
  lemma AlignedSlices(t: string, kt: nat, b: string, kb: nat, n: nat)
    requires kt <= |t| && kb <= |b| && t[kt..] == b[kb..] && 3 <= n <= |t| - kt
    ensures t[kt + n..] == b[kb + n..]
    ensures t[kt..kt + n] == b[kb..kb + n]
    ensures t[kt + 2..kt + n - 1] == b[kb + 2..kb + n - 1]
  {
    var u := t[kt..];
    assert t[kt + n..] == u[n..] == b[kb + n..];
    assert t[kt..kt + n] == u[..n] == b[kb..kb + n];
    assert t[kt + 2..kt + n - 1] == u[2..n - 1] == b[kb + 2..kb + n - 1];
  }

  /**
   * Whether a match starts at an offset depends only on the text from
   * there; aligned matches have the same length and the same replacement.
   */
  lemma MatchAtAligned(t: string, kt: nat, b: string, kb: nat, env: map<string, string>)
    requires kt <= |t| && kb <= |b| && t[kt..] == b[kb..]
    ensures MatchAt(t, kt).Some? <==> MatchAt(b, kb).Some?
    ensures MatchAt(t, kt).Some? ==>
      var mt, mb := MatchAt(t, kt).value, MatchAt(b, kb).value;
      mt.end - kt == mb.end - kb && t[mt.end..] == b[mb.end..] && Replacement(t, mt, env) == Replacement(b, mb, env)
  {
    var u := t[kt..];
    assert |u| == |t| - kt == |b| - kb;
    if kt + 2 <= |t| {
      assert t[kt] == u[0] == b[kb] && t[kt + 1] == u[1] == b[kb + 1];
      assert t[kt + 2..] == u[2..] == b[kb + 2..];
      CloseFromAligned(t, kt + 2, b, kb + 2);
      if MatchAt(t, kt).Some? {
        AlignedSlices(t, kt, b, kb, MatchAt(t, kt).value.end - kt);
      }
    }
  }

  /** The match case of ResolveAligned. */
  lemma {:induction false} AlignedMatchCase(t: string, kt: nat, b: string, kb: nat, env: map<string, string>)
    requires kt < |t| && kb <= |b| && t[kt..] == b[kb..] && MatchAt(t, kt).Some?
    ensures ResolveFrom(t, kt, env) == ResolveFrom(b, kb, env)
    decreases |t| - kt, 0
  {
    MatchAtAligned(t, kt, b, kb, env);
    var mt, mb := MatchAt(t, kt).value, MatchAt(b, kb).value;
    ResolveAligned(t, mt.end, b, mb.end, env);
    MatchStepAlike(t, b, kt, kb, mt, mb, env);
  }

  /** The copied-character case of ResolveAligned. */
  lemma {:induction false} AlignedCharCase(t: string, kt: nat, b: string, kb: nat, env: map<string, string>)
    requires kt < |t| && kb <= |b| && t[kt..] == b[kb..] && MatchAt(t, kt).None?
    ensures ResolveFrom(t, kt, env) == ResolveFrom(b, kb, env)
    decreases |t| - kt, 0
  {
    MatchAtAligned(t, kt, b, kb, env);
    assert t[kt] == t[kt..][0] == b[kb..][0] == b[kb];
    assert t[kt + 1..] == t[kt..][1..] == b[kb..][1..] == b[kb + 1..];
    ResolveAligned(t, kt + 1, b, kb + 1, env);
    CharStepAlike(t, b, kt, kb, env);
  }

  /** Resolving from an offset depends only on the text from there on. */
  lemma {:induction false} ResolveAligned(t: string, kt: nat, b: string, kb: nat, env: map<string, string>)
    requires kt <= |t| && kb <= |b| && t[kt..] == b[kb..]
    ensures ResolveFrom(t, kt, env) == ResolveFrom(b, kb, env)
    decreases |t| - kt, 1
  {
    if kt == |t| {
      assert |t[kt..]| == 0;
    } else if MatchAt(t, kt).Some? {
      AlignedMatchCase(t, kt, b, kb, env);
    } else {
      AlignedCharCase(t, kt, b, kb, env);
    }
  }

  /** Resolving the rest of the text does not depend on the text in front. */
  lemma ResolveFromShift(a: string, b: string, k: nat, env: map<string, string>)
    requires k <= |b|
    ensures ResolveFrom(a + b, |a| + k, env) == ResolveFrom(b, k, env)
  {
    assert (a + b)[|a| + k..] == b[k..];
    ResolveAligned(a + b, |a| + k, b, k, env);
  }

  /** A prefix without '$' is copied, and resolving goes on after it. */
  lemma {:induction false} ResolveFromPrefix(pre: string, s: string, k: nat, env: map<string, string>)
    requires k <= |pre| && '$' !in pre
    ensures ResolveFrom(pre + s, k, env) == pre[k..] + ResolveFrom(pre + s, |pre|, env)
    decreases |pre| - k
  {
    if k < |pre| {
      assert (pre + s)[k] == pre[k];
      ResolveFromPrefix(pre, s, k + 1, env);
      assert pre[k..] == [pre[k]] + pre[k + 1..];
    }
  }

  /** The placeholder "${name}" is found when the name holds no '}' and no newline. */
  lemma PlaceholderMatches(name: string, post: string)
    requires '}' !in name && '\n' !in name
    ensures var s := "${" + name + "}" + post;
      MatchAt(s, 0) == Some(Span(0, |name| + 3))
  {
    var s := "${" + name + "}" + post;
    assert s[|name| + 2] == '}';
    assert forall m :: 2 <= m < |name| + 2 ==> s[m] == name[m - 2];
    CloseUpTo(s, 2, |name| + 2);
  }

  /** CloseFrom finds the brace at c when none and no newline comes before it. */
  lemma {:induction false} CloseUpTo(s: string, j: nat, c: nat)
    requires j <= c < |s| && s[c] == '}'
    requires forall m :: j <= m < c ==> s[m] != '}' && s[m] != '\n'
    ensures CloseFrom(s, j) == c
    decreases c - j
  {
    if j < c {
      CloseUpTo(s, j + 1, c);
    }
  }

  /** A placeholder at the start is replaced or kept, and resolving goes on after it. */
  lemma ResolveLeading(name: string, post: string, env: map<string, string>)
    requires '}' !in name && '\n' !in name
    ensures ResolveFrom("${" + name + "}" + post, 0, env)
         == (if Getenv(env, name) != "" then Getenv(env, name) else "${" + name + "}") + Resolve(post, env)
  {
    var ph := "${" + name + "}";
    var b := ph + post;
    PlaceholderMatches(name, post);
    assert b[2..|name| + 2] == name;
    assert b[0..|name| + 3] == ph;
    ResolveFromShift(ph, post, 0, env);
  }

  /**
   * A placeholder after text without '$' is replaced by the variable's value
   * when that is non-empty and kept otherwise; resolving goes on after it.
   */
  lemma ResolvePlaceholder(pre: string, name: string, post: string, env: map<string, string>)
    requires '$' !in pre && '}' !in name && '\n' !in name
    ensures Resolve(pre + "${" + name + "}" + post, env)
         == pre + (if Getenv(env, name) != "" then Getenv(env, name) else "${" + name + "}") + Resolve(post, env)
  {
    var b := "${" + name + "}" + post;
    assert pre + "${" + name + "}" + post == pre + b;
    ResolveFromPrefix(pre, b, 0, env);
    assert pre[0..] == pre;
    ResolveFromShift(pre, b, 0, env);
    ResolveLeading(name, post, env);
  }
}
