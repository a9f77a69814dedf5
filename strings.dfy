/**
 * String helpers that convert.py relies on from Python's standard library:
 * `str.strip()`, `str.endswith`, the substring test `k in name`,
 * `os.path.join` and `os.path.splitext`.
 */
module Strings {

  import opened Wrappers

  /** Python's `str.isspace()` for one character: the characters `str.strip()` removes. */
  predicate IsSpace(c: char)
  {
    c == ' ' || ('\t' <= c <= '\r') || ('\U{1C}' <= c <= '\U{1F}') ||
    c == '\U{85}' || c == '\U{A0}' || c == '\U{1680}' ||
    ('\U{2000}' <= c <= '\U{200A}') || c == '\U{2028}' || c == '\U{2029}' ||
    c == '\U{202F}' || c == '\U{205F}' || c == '\U{3000}'
  }

  /** Removes the longest whitespace prefix. */
  function LStrip(s: string): (r: string)
    ensures |r| <= |s|
  {
    if s != [] && IsSpace(s[0]) then LStrip(s[1..]) else s
  }

  /** `LStrip` cuts a prefix made only of whitespace and leaves no whitespace in front. */
  lemma {:induction false} LStripSpec(s: string)
    ensures |LStrip(s)| <= |s| && LStrip(s) == s[|s| - |LStrip(s)|..]
    ensures LStrip(s) == [] || !IsSpace(LStrip(s)[0])
    ensures forall i :: 0 <= i < |s| - |LStrip(s)| ==> IsSpace(s[i])
  {
    if s != [] && IsSpace(s[0]) {
      LStripSpec(s[1..]);
      forall i | 1 <= i < |s| - |LStrip(s)| ensures IsSpace(s[i]) {
        assert s[i] == s[1..][i - 1];
      }
    }
  }

  /** Removes the longest whitespace suffix. */
  function RStrip(s: string): (r: string)
    ensures |r| <= |s|
  {
    if s != [] && IsSpace(s[|s| - 1]) then RStrip(s[..|s| - 1]) else s
  }

  /** `RStrip` cuts a suffix made only of whitespace and leaves no whitespace at the end. */
  lemma {:induction false} RStripSpec(s: string)
    ensures |RStrip(s)| <= |s| && RStrip(s) == s[..|RStrip(s)|]
    ensures RStrip(s) == [] || !IsSpace(RStrip(s)[|RStrip(s)| - 1])
    ensures forall i :: |RStrip(s)| <= i < |s| ==> IsSpace(s[i])
  {
    if s != [] && IsSpace(s[|s| - 1]) {
      RStripSpec(s[..|s| - 1]);
      forall i | |RStrip(s)| <= i < |s| - 1 ensures IsSpace(s[i]) {
        assert s[i] == s[..|s| - 1][i];
      }
    }
  }

  /** Python's `str.strip()` with no argument. */
  function Strip(s: string): (r: string)
  {
    RStrip(LStrip(s))
  }

  /** A string is stripped when it neither starts nor ends with whitespace. */
  predicate IsStripped(s: string)
  {
    s == [] || (!IsSpace(s[0]) && !IsSpace(s[|s| - 1]))
  }

  /** The number of whitespace characters `Strip` cuts from the front of `s`. */
  function Leading(s: string): nat
  {
    |s| - |LStrip(s)|
  }

  /**
   * `Strip(s)` is the infix of `s` that starts after `Leading(s)` characters,
   * it is stripped itself, and only whitespace was cut on either side.
   */
  lemma StripSpec(s: string)
    ensures IsStripped(Strip(s))
    ensures Leading(s) + |Strip(s)| <= |s|
    ensures Strip(s) == s[Leading(s)..Leading(s) + |Strip(s)|]
    ensures forall k :: 0 <= k < Leading(s) ==> IsSpace(s[k])
    ensures forall k :: Leading(s) + |Strip(s)| <= k < |s| ==> IsSpace(s[k])
  {
    var l := LStrip(s);
    var r := RStrip(l);
    LStripSpec(s);
    RStripSpec(l);
    var i := |s| - |l|;
    assert r == s[i..i + |r|];
    forall k | i + |r| <= k < |s| ensures IsSpace(s[k]) {
      assert s[k] == l[k - i];
    }
    if r != [] {
      assert r[0] == l[0];
    }
  }

  /** A stripped string is left unchanged by `Strip`. */
  lemma StrippedFixed(s: string)
    requires IsStripped(s)
    ensures Strip(s) == s
  {
    assert LStrip(s) == s;
    assert RStrip(s) == s;
  }

  predicate StartsWith(s: string, p: string)
  {
    |p| <= |s| && s[..|p|] == p
  }

  /** Python's `s.endswith(p)`. */
  predicate EndsWith(s: string, p: string)
  {
    |p| <= |s| && s[|s| - |p|..] == p
  }

  /** Python's substring test `p in s`. */
  predicate IsInfix(p: string, s: string)
  {
    exists i :: 0 <= i <= |s| && StartsWith(s[i..], p)
  }

  predicate IsLineBreak(c: char)
  {
    c == '\n' || c == '\r'
  }

  predicate HasNoLineBreak(s: string)
  {
    forall i :: 0 <= i < |s| ==> !IsLineBreak(s[i])
  }

  /** Position of the first `\n` or `\r` in `s`, or `|s|` when there is none. */
  function FirstBreak(s: string): (k: nat)
    ensures k <= |s|
    ensures HasNoLineBreak(s[..k])
    ensures k < |s| ==> IsLineBreak(s[k])
  {
    if s == [] || IsLineBreak(s[0]) then 0
    else
      var k := 1 + FirstBreak(s[1..]);
      assert s[..k] == [s[0]] + s[1..][..k - 1];
      k
  }

  /**
   * The lines that iterating over a file opened in text mode yields:
   * universal newlines turn `\r\n`, `\r` and `\n` into a terminating `\n`;
   * the last line has no terminator when the text does not end with one.
   */
  function ReadLines(s: string): seq<string>
    decreases |s|
  {
    if s == [] then []
    else
      var k := FirstBreak(s);
      if k == |s| then [s]
      else
        var next := if s[k] == '\r' && k + 1 < |s| && s[k + 1] == '\n' then k + 2 else k + 1;
        [s[..k] + "\n"] + ReadLines(s[next..])
  }

  /**
   * `path` names `b` inside the directory `a`: it is `b` itself when `a` is
   * empty, and otherwise `a`, then exactly one `/` between the two (the one
   * `a` already ends with, or a new one), then `b`.
   */
  predicate JoinedUnder(path: string, a: string, b: string)
  {
    EndsWith(path, b) &&
    (a == [] ==> path == b) &&
    (a != [] ==> var p := path[..|path| - |b|];
                 EndsWith(p, "/") && (p == a || (p == a + "/" && !EndsWith(a, "/"))))
  }

  /** `os.path.join(a, b)` on POSIX for two components. */
  function PathJoin(a: string, b: string): (r: string)
    ensures EndsWith(r, b)
    ensures StartsWith(b, "/") ==> r == b
    ensures !StartsWith(b, "/") ==> StartsWith(r, a) && JoinedUnder(r, a, b)
  {
    if StartsWith(b, "/") then b
    else if a == [] || a[|a| - 1] == '/' then a + b
    else a + "/" + b
  }

  /** True when every character before index `k` of `s` is a dot. */
  predicate OnlyDotsBefore(s: string, k: nat)
    requires k <= |s|
  {
    forall i :: 0 <= i < k ==> s[i] == '.'
  }

  /** Index of the last `.` in `s`, if any. */
  function LastDot(s: string): Option<nat>
  {
    if s == [] then None
    else if s[|s| - 1] == '.' then Some(|s| - 1)
    else LastDot(s[..|s| - 1])
  }

  lemma {:induction false} LastDotSpec(s: string)
    ensures LastDot(s).Some? ==> LastDot(s).value < |s| && s[LastDot(s).value] == '.'
                                 && forall i :: LastDot(s).value < i < |s| ==> s[i] != '.'
    ensures LastDot(s).None? ==> forall i :: 0 <= i < |s| ==> s[i] != '.'
  {
    if s != [] && s[|s| - 1] != '.' {
      LastDotSpec(s[..|s| - 1]);
      assert forall i :: 0 <= i < |s| - 1 ==> s[i] == s[..|s| - 1][i];
    }
  }

  /** `LastDot` finds a dot followed by no other dot. */
  lemma {:induction false} LastDotAt(s: string, k: nat)
    requires k < |s| && s[k] == '.' && forall i :: k < i < |s| ==> s[i] != '.'
    ensures LastDot(s) == Some(k)
  {
    if k < |s| - 1 {
      LastDotAt(s[..|s| - 1], k);
    }
  }

  /**
   * `os.path.splitext` of a bare file name (no directory part): the extension
   * starts at the last dot, unless every character before that dot is a dot,
   * in which case there is no extension (`.json` has root `.json`).
   */
  function SplitExt(name: string): (string, string)
  {
    match LastDot(name)
    case None => (name, [])
    case Some(k) =>
      if k <= |name| && OnlyDotsBefore(name, k) then (name, [])
      else if k <= |name| then (name[..k], name[k..])
      else (name, [])
  }

  /**
   * The root and the extension make up the name; a non-empty extension is a
   * dot followed by no other dot, and the root is then not only dots.
   */
  lemma SplitExtSpec(name: string)
    ensures SplitExt(name).0 + SplitExt(name).1 == name
    ensures SplitExt(name).1 == [] ||
            (SplitExt(name).1[0] == '.' && forall i :: 0 < i < |SplitExt(name).1| ==> SplitExt(name).1[i] != '.')
    ensures SplitExt(name).1 != [] ==> !OnlyDotsBefore(name, |SplitExt(name).0|)
    ensures SplitExt(name).1 == [] ==> forall i :: 0 <= i < |name| && name[i] == '.' ==> OnlyDotsBefore(name, i)
  {
    LastDotSpec(name);
    var r := SplitExt(name);
    if r.1 != [] {
      var k := LastDot(name).value;
      assert forall i :: 0 < i < |r.1| ==> r.1[i] == name[k + i];
    } else if LastDot(name).Some? {
      var k := LastDot(name).value;
      assert OnlyDotsBefore(name, k);
      forall i | 0 <= i < |name| && name[i] == '.' ensures OnlyDotsBefore(name, i) {
        assert i <= k;
      }
    }
  }

  /**
   * Appending an extension (a dot followed by no dot) to a root that is not
   * only dots splits back into that root and that extension.
   */
  lemma SplitExtAppend(root: string, ext: string)
    requires !OnlyDotsBefore(root, |root|)
    requires ext != [] && ext[0] == '.' && forall i :: 0 < i < |ext| ==> ext[i] != '.'
    ensures SplitExt(root + ext) == (root, ext)
  {
    var name := root + ext;
    var k := |root|;
    assert name[k] == '.';
    assert forall i :: k < i < |name| ==> name[i] == ext[i - k];
    LastDotAt(name, k);
    assert name[..k] == root && name[k..] == ext;
    var j :| 0 <= j < k && root[j] != '.';
    assert name[j] != '.';
  }

  /** A name ending in `.lst` after a stem that is not only dots splits into that stem and `.lst`. */
  lemma SplitExtLst(fname: string)
    ensures SplitExt(fname).1 == ".lst" <==> EndsWith(fname, ".lst") && !OnlyDotsBefore(fname, |fname| - 4)
    ensures SplitExt(fname).1 == ".lst" ==> SplitExt(fname).0 == fname[..|fname| - 4]
  {
    SplitExtSpec(fname);
    var (name, ext) := SplitExt(fname);
    if ext == ".lst" {
      assert fname == name + ".lst";
      assert fname[..|fname| - 4] == name;
      assert fname[|fname| - 4..] == ".lst";
    }
    if EndsWith(fname, ".lst") && !OnlyDotsBefore(fname, |fname| - 4) {
      var n := |fname| - 4;
      assert fname[n..] == ".lst";
      assert fname[n] == '.' && fname[n + 1] == 'l' && fname[n + 2] == 's' && fname[n + 3] == 't';
      LastDotAt(fname, n);
    }
  }
}
