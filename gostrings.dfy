/**
 * The parts of Go's `strings` package that the service wrapper uses, on
 * strings seen as sequences of characters.
 */
module GoStrings {
  import Seqs

  /** Go's unicode.IsSpace: the characters with the Unicode White_Space property. */
  predicate IsSpace(c: char) {
    || c == ' ' || c == '\t' || c == '\n' || c == '\r'
    || c == '\U{000B}' || c == '\U{000C}' || c == '\U{0085}' || c == '\U{00A0}'
    || c == '\U{1680}' || ('\U{2000}' <= c <= '\U{200A}')
    || c == '\U{2028}' || c == '\U{2029}' || c == '\U{202F}' || c == '\U{205F}'
    || c == '\U{3000}'
  }

  /** The text before the trailing white space. */
  function TrimRight(s: string): (r: string)
    ensures |r| <= |s| && r == s[..|r|]
    ensures forall k :: |r| <= k < |s| ==> IsSpace(s[k])
    ensures r == [] || !IsSpace(r[|r| - 1])
  {
    if s != [] && IsSpace(s[|s| - 1]) then TrimRight(s[..|s| - 1]) else s
  }

  /** strings.TrimSpace: drops the leading and the trailing white space. */
  function Trim(s: string): (r: string)
    ensures |r| <= |s|
    ensures r == [] || (!IsSpace(r[0]) && !IsSpace(r[|r| - 1]))
    decreases |s|
  {
    if s != [] && IsSpace(s[0]) then Trim(s[1..]) else TrimRight(s)
  }

  /** A string with no white space at either end is its own trimmed form. */
  lemma TrimFixed(s: string)
    requires s == [] || (!IsSpace(s[0]) && !IsSpace(s[|s| - 1]))
    ensures Trim(s) == s
  {
  }

  /** Leading white space does not change the trimmed form. */
  lemma {:induction false} TrimLeftPadded(pre: string, x: string)
    requires forall k :: 0 <= k < |pre| ==> IsSpace(pre[k])
    ensures Trim(pre + x) == Trim(x)
    decreases |pre|
  {
    if pre == [] {
      assert pre + x == x;
    } else {
      assert (pre + x)[1..] == pre[1..] + x;
      TrimLeftPadded(pre[1..], x);
    }
  }

  /** Trailing white space does not change what TrimRight keeps. */
  lemma {:induction false} TrimRightPadded(x: string, post: string)
    requires forall k :: 0 <= k < |post| ==> IsSpace(post[k])
    ensures TrimRight(x + post) == TrimRight(x)
    decreases |post|
  {
    if post == [] {
      assert x + post == x;
    } else {
      var p := post[..|post| - 1];
      assert (x + post)[..|x + post| - 1] == x + p;
      TrimRightPadded(x, p);
    }
  }

  /** Text made only of white space trims to nothing. */
  lemma {:induction false} TrimAllSpace(s: string)
    requires forall k :: 0 <= k < |s| ==> IsSpace(s[k])
    ensures Trim(s) == []
    decreases |s|
  {
    if s != [] {
      TrimAllSpace(s[1..]);
    }
  }

  /** Trimming removes exactly the white-space padding around the text. */
  lemma TrimPadded(pre: string, mid: string, post: string)
    requires forall k :: 0 <= k < |pre| ==> IsSpace(pre[k])
    requires forall k :: 0 <= k < |post| ==> IsSpace(post[k])
    requires mid == [] || (!IsSpace(mid[0]) && !IsSpace(mid[|mid| - 1]))
    ensures Trim(pre + mid + post) == mid
  {
    Seqs.Assoc(pre, mid, post);
    TrimLeftPadded(pre, mid + post);
    TrimTrailing(mid, post);
  }

  lemma TrimTrailing(mid: string, post: string)
    requires forall k :: 0 <= k < |post| ==> IsSpace(post[k])
    requires mid == [] || (!IsSpace(mid[0]) && !IsSpace(mid[|mid| - 1]))
    ensures Trim(mid + post) == mid
  {
    if mid == [] {
      assert mid + post == post;
      TrimAllSpace(post);
    } else {
      assert (mid + post)[0] == mid[0];
      assert Trim(mid + post) == TrimRight(mid + post);
      TrimRightPadded(mid, post);
    }
  }

  predicate HasPrefix(s: string, prefix: string) {
    |prefix| <= |s| && s[..|prefix|] == prefix
  }

  /** `pat` occurs in `s` starting at position k. */
  predicate OccursAt(s: string, pat: string, k: int) {
    0 <= k && k + |pat| <= |s| && s[k..k + |pat|] == pat
  }

  function IndexFrom(s: string, pat: string, k: nat): (r: int)
    requires k <= |s|
    ensures r == -1 || (k <= r && OccursAt(s, pat, r))
    ensures r == -1 ==> forall j :: k <= j <= |s| ==> !OccursAt(s, pat, j)
    ensures r != -1 ==> forall j :: k <= j < r ==> !OccursAt(s, pat, j)
    decreases |s| - k
  {
    if OccursAt(s, pat, k) then k
    else if k == |s| then -1
    else IndexFrom(s, pat, k + 1)
  }

  /** strings.Index: the position of the first occurrence of `pat`, or -1. */
  function IndexOf(s: string, pat: string): (r: int)
    ensures r == -1 <==> forall j :: 0 <= j <= |s| ==> !OccursAt(s, pat, j)
    ensures r != -1 ==> OccursAt(s, pat, r) && forall j :: 0 <= j < r ==> !OccursAt(s, pat, j)
  {
    IndexFrom(s, pat, 0)
  }

  /** strings.Contains */
  predicate Contains(s: string, sub: string) {
    IndexOf(s, sub) != -1
  }

  /** The first occurrence of a pattern is found where it first appears. */
  lemma IndexOfFirst(s: string, pat: string, k: nat)
    requires OccursAt(s, pat, k)
    requires forall j :: 0 <= j < k ==> !OccursAt(s, pat, j)
    ensures IndexOf(s, pat) == k
  {
    assert IndexOf(s, pat) != -1;
  }

  /** A pattern whose first character does not occur before it is found right after that prefix. */
  lemma IndexOfLead(pre: string, pat: string, post: string)
    requires pat != [] && pat[0] !in pre
    ensures IndexOf(pre + pat + post, pat) == |pre|
  {
    var s := pre + pat + post;
    assert s[|pre|..|pre| + |pat|] == pat;
    forall j | 0 <= j < |pre|
      ensures !OccursAt(s, pat, j)
    {
      assert s[j] == pre[j];
      if j + |pat| <= |s| {
        assert s[j..j + |pat|][0] == s[j];
      }
    }
    IndexOfFirst(s, pat, |pre|);
  }

  /** A pattern whose first character does not occur in `s` is not found. */
  lemma IndexOfAbsent(s: string, pat: string)
    requires pat != [] && pat[0] !in s
    ensures IndexOf(s, pat) == -1
  {
    forall j | 0 <= j <= |s|
      ensures !OccursAt(s, pat, j)
    {
      if j + |pat| <= |s| {
        assert s[j..j + |pat|][0] == s[j];
      }
    }
  }

  /** A string that differs from `p` at position k does not start with `p`. */
  lemma DiffersAt(s: string, p: string, k: nat)
    requires k < |s| && k < |p| && s[k] != p[k]
    ensures !HasPrefix(s, p)
  {
    if |p| <= |s| {
      assert s[..|p|][k] == s[k];
    }
  }

  /** An occurrence behind a prefix is an occurrence in the text after it. */
  lemma OccursBehind(pre: string, s: string, pat: string, j: nat)
    ensures OccursAt(pre + s, pat, j + |pre|) <==> OccursAt(s, pat, j)
  {
    if j + |pat| <= |s| {
      assert (pre + s)[j + |pre|..j + |pre| + |pat|] == s[j..j + |pat|];
    }
  }

  /** A pattern does not start inside a prefix that lacks its first character. */
  lemma NotInPrefix(pre: string, s: string, pat: string, j: nat)
    requires pat != [] && pat[0] !in pre && j < |pre|
    ensures !OccursAt(pre + s, pat, j)
  {
    var t := pre + s;
    assert t[j] == pre[j];
    if j + |pat| <= |t| {
      assert t[j..j + |pat|][0] == t[j];
    }
  }

  /** A prefix without the pattern's first character neither hides nor adds an occurrence. */
  lemma ContainsBehind(pre: string, s: string, pat: string)
    requires pat != [] && pat[0] !in pre
    ensures Contains(pre + s, pat) <==> Contains(s, pat)
  {
    var t := pre + s;
    if Contains(t, pat) {
      var j := IndexOf(t, pat);
      if j < |pre| {
        NotInPrefix(pre, s, pat, j);
      }
      OccursBehind(pre, s, pat, j - |pre|);
    }
    if Contains(s, pat) {
      OccursBehind(pre, s, pat, IndexOf(s, pat));
    }
  }

  /** strings.Split with a one-character separator. */
  function Split(s: string, sep: char): (r: seq<string>)
    ensures |r| >= 1
    ensures forall k :: 0 <= k < |r| ==> sep !in r[k]
    decreases |s|
  {
    if s == [] then [""]
    else
      var rest := Split(s[1..], sep);
      if s[0] == sep then [""] + rest
      else [[s[0]] + rest[0]] + rest[1..]
  }

  /** strings.Join */
  function Join(parts: seq<string>, sep: string): string
    decreases |parts|
  {
    if parts == [] then ""
    else if |parts| == 1 then parts[0]
    else parts[0] + sep + Join(parts[1..], sep)
  }

  /** Joining the pieces back with the separator gives the original text. */
  lemma {:induction false} JoinSplit(s: string, sep: char)
    ensures Join(Split(s, sep), [sep]) == s
    decreases |s|
  {
    if s != [] {
      var rest := Split(s[1..], sep);
      JoinSplit(s[1..], sep);
      if s[0] == sep {
        assert s == [sep] + s[1..];
      } else if |rest| == 1 {
        assert s == [s[0]] + s[1..];
      } else {
        assert Join(rest, [sep]) == rest[0] + [sep] + Join(rest[1..], [sep]);
        assert s == [s[0]] + s[1..];
      }
    }
  }

  /** Splitting a joined list whose pieces hold no separator gives the pieces back. */
  lemma {:induction false} SplitJoin(parts: seq<string>, sep: char)
    requires |parts| >= 1
    requires forall k :: 0 <= k < |parts| ==> sep !in parts[k]
    ensures Split(Join(parts, [sep]), sep) == parts
    decreases |parts|
  {
    if |parts| == 1 {
      SplitPiece(parts[0], [], sep);
      assert parts[0] + [] == parts[0];
    } else {
      SplitJoin(parts[1..], sep);
      SplitPiece(parts[0], [sep] + Join(parts[1..], [sep]), sep);
      assert parts[0] + [sep] + Join(parts[1..], [sep]) == parts[0] + ([sep] + Join(parts[1..], [sep]));
      assert ([sep] + Join(parts[1..], [sep]))[1..] == Join(parts[1..], [sep]);
    }
  }

  /** A separator-free prefix becomes the first piece of the split. */
  lemma {:induction false} SplitPiece(p: string, rest: string, sep: char)
    requires sep !in p
    ensures rest == [] ==> Split(p + rest, sep) == [p]
    ensures rest != [] && rest[0] == sep ==> Split(p + rest, sep) == [p] + Split(rest[1..], sep)
    decreases |p|
  {
    if p == [] {
      assert p + rest == rest;
    } else {
      SplitPiece(p[1..], rest, sep);
      assert (p + rest)[1..] == p[1..] + rest;
      assert [p[0]] + p[1..] == p;
    }
  }
}
