/**
 * The parts of Go's path/filepath that the service wrapper uses, with the
 * rules of the Windows build (the program imports golang.org/x/sys/windows):
 * both `\` and `/` separate elements and a leading "X:" names a volume.
 */
module FilePath {

  const Separator: char := '\\'

  predicate IsSeparator(c: char) {
    c == '\\' || c == '/'
  }

  predicate NoSeparator(s: string) {
    forall k :: 0 <= k < |s| ==> !IsSeparator(s[k])
  }

  /** filepath.Join of two elements: empty elements are skipped (cleaning is not modelled). */
  function Join(a: string, b: string): string {
    if a == "" then b else if b == "" then a else a + [Separator] + b
  }

  function TrimTrailingSeparators(s: string): (r: string)
    ensures |r| <= |s| && r == s[..|r|]
    ensures r == [] || !IsSeparator(r[|r| - 1])
  {
    if s != [] && IsSeparator(s[|s| - 1]) then TrimTrailingSeparators(s[..|s| - 1]) else s
  }

  /** Length of a drive-letter volume name such as "C:". */
  function VolumeLen(s: string): (n: nat)
    ensures n <= |s|
  {
    if |s| >= 2 && s[1] == ':' then 2 else 0
  }

  /** The text after the last separator. */
  function LastElement(s: string): (r: string)
    ensures |r| <= |s| && r == s[|s| - |r|..]
    ensures NoSeparator(r)
    ensures |r| < |s| ==> IsSeparator(s[|s| - |r| - 1])
  {
    if s == [] || IsSeparator(s[|s| - 1]) then "" else LastElement(s[..|s| - 1]) + [s[|s| - 1]]
  }

  /** filepath.Base */
  function Base(path: string): (r: string)
    ensures r != ""
  {
    if path == "" then "."
    else
      var p := TrimTrailingSeparators(path);
      var e := LastElement(p[VolumeLen(p)..]);
      if e == "" then [Separator] else e
  }

  /** filepath.Ext: the suffix from the last '.' of the final element, or "". */
  function Ext(path: string): (r: string)
    ensures |r| <= |path| && r == path[|path| - |r|..]
    ensures r == "" || (r[0] == '.' && '.' !in r[1..] && NoSeparator(r))
  {
    if path == "" || IsSeparator(path[|path| - 1]) then ""
    else if path[|path| - 1] == '.' then "."
    else
      var e := Ext(path[..|path| - 1]);
      if e == "" then "" else e + [path[|path| - 1]]
  }

  /** A file name without directory, separator or volume mark is its own base name. */
  lemma BaseOfJoined(dir: string, file: string)
    requires file != "" && NoSeparator(file) && ':' !in file
    ensures Base(dir + [Separator] + file) == file
  {
    var path := dir + [Separator] + file;
    var p := TrimTrailingSeparators(path);
    assert !IsSeparator(path[|path| - 1]);
    assert p == path;
    var v := VolumeLen(p);
    if dir == "" {
      assert p[1] == file[0];
      assert v == 0;
    }
    assert v <= |dir| + 1;
    var q := p[v..];
    assert q[|q| - |file|..] == file;
    assert q[|q| - |file| - 1] == Separator;
    LastElementAfterSeparator(q, |file|);
  }

  /** A file name without separator or volume mark is its own base name. */
  lemma BaseOfName(file: string)
    requires file != "" && NoSeparator(file) && ':' !in file
    ensures Base(file) == file
  {
    assert TrimTrailingSeparators(file) == file;
    assert VolumeLen(file) == 0 by {
      if |file| >= 2 {
        assert file[1] != ':';
      }
    }
    assert file[0..] == file;
  }

  /** The last element of a path is everything after its last separator. */
  lemma LastElementAfterSeparator(q: string, n: nat)
    requires n < |q| && IsSeparator(q[|q| - n - 1]) && NoSeparator(q[|q| - n..])
    ensures LastElement(q) == q[|q| - n..]
  {
    var r := LastElement(q);
    var tail := q[|q| - n..];
    forall k | |q| - |r| <= k < |q|
      ensures !IsSeparator(q[k])
    {
      assert q[k] == r[k - (|q| - |r|)];
    }
    forall k | |q| - n <= k < |q|
      ensures !IsSeparator(q[k])
    {
      assert q[k] == tail[k - (|q| - n)];
    }
    assert |r| == n;
  }
}
