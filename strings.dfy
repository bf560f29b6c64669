/** The string operations of the Python standard library that the model
    manager relies on, written out over `seq<char>`: `in` on strings,
    `endswith`, ASCII `lower`, `strip`, `', '.join`, `os.path.splitext` and
    POSIX `os.path.join`. */
module Strings {

  import opened Common

  predicate IsPrefix(p: string, s: string) {
    |p| <= |s| && s[..|p|] == p
  }

  predicate EndsWith(s: string, suffix: string) {
    |suffix| <= |s| && s[|s| - |suffix|..] == suffix
  }

  /** Python's `needle in hay` for two strings. */
  predicate IsInfix(needle: string, hay: string)
    decreases |hay|
  {
    IsPrefix(needle, hay) || (hay != [] && IsInfix(needle, hay[1..]))
  }

  /** `str.lower()` on the ASCII letters; every other character is kept. */
  function LowerChar(c: char): char {
    if 'A' <= c <= 'Z' then (c as int + 32) as char else c
  }

  function Lower(s: string): (r: string)
    ensures |r| == |s|
    ensures forall i :: 0 <= i < |s| ==> r[i] == LowerChar(s[i])
  {
    seq(|s|, i requires 0 <= i < |s| => LowerChar(s[i]))
  }

  predicate IsLowerCase(s: string) {
    forall i :: 0 <= i < |s| ==> !('A' <= s[i] <= 'Z')
  }

  lemma LowerIsLowerCase(s: string)
    ensures IsLowerCase(Lower(s)) && Lower(Lower(s)) == Lower(s)
  {
  }

  /** Lowering a string leaves an all-lower-case string as it is. */
  lemma LowerKeepsLowerCase(s: string)
    requires IsLowerCase(s)
    ensures Lower(s) == s
  {
  }

  /** The characters for which Python's `str.isspace()` holds: those `strip()` removes. */
  predicate IsSpace(c: char) {
    ('\t' <= c <= '\r') || ('\U{1c}' <= c <= ' ') || c == '\U{85}' || c == '\U{a0}' ||
    c == '\U{1680}' || ('\U{2000}' <= c <= '\U{200a}') || c == '\U{2028}' || c == '\U{2029}' ||
    c == '\U{202f}' || c == '\U{205f}' || c == '\U{3000}'
  }

  function TrimStart(s: string): string
  {
    if s != [] && IsSpace(s[0]) then TrimStart(s[1..]) else s
  }

  function TrimEnd(s: string): string
  {
    if s != [] && IsSpace(s[|s| - 1]) then TrimEnd(s[..|s| - 1]) else s
  }

  /** Python's `str.strip()` with no argument. */
  function Strip(s: string): string {
    TrimEnd(TrimStart(s))
  }

  predicate AllSpace(s: string) {
    forall i :: 0 <= i < |s| ==> IsSpace(s[i])
  }

  lemma {:induction false} TrimStartShape(s: string)
    ensures exists k :: 0 <= k <= |s| && TrimStart(s) == s[k..] && AllSpace(s[..k])
    ensures TrimStart(s) != [] ==> !IsSpace(TrimStart(s)[0])
  {
    if s != [] && IsSpace(s[0]) {
      TrimStartShape(s[1..]);
      var k :| 0 <= k <= |s[1..]| && TrimStart(s[1..]) == s[1..][k..] && AllSpace(s[1..][..k]);
      assert TrimStart(s) == s[k + 1..];
      assert AllSpace(s[..k + 1]) by {
        forall i | 0 <= i < k + 1 ensures IsSpace(s[i]) {
          if i > 0 { assert s[i] == s[1..][..k][i - 1]; }
        }
      }
    } else {
      assert TrimStart(s) == s[0..];
    }
  }

  lemma {:induction false} TrimEndShape(s: string)
    ensures exists k :: 0 <= k <= |s| && TrimEnd(s) == s[..k] && AllSpace(s[k..])
    ensures TrimEnd(s) != [] ==> !IsSpace(TrimEnd(s)[|TrimEnd(s)| - 1])
  {
    if s != [] && IsSpace(s[|s| - 1]) {
      var t := s[..|s| - 1];
      TrimEndShape(t);
      var k :| 0 <= k <= |t| && TrimEnd(t) == t[..k] && AllSpace(t[k..]);
      assert TrimEnd(s) == s[..k];
      assert AllSpace(s[k..]) by {
        forall i | k <= i < |s| ensures IsSpace(s[i]) {
          if i < |t| { assert s[i] == t[k..][i - k]; }
        }
      }
    } else {
      assert TrimEnd(s) == s[..|s|];
      assert s[|s|..] == [];
    }
  }

  /** What `strip()` returns: a slice of the input with only whitespace cut
      off on either side. */
  lemma {:induction false} StripShape(s: string)
    ensures exists i, j :: 0 <= i <= j <= |s| && Strip(s) == s[i..j] &&
                           AllSpace(s[..i]) && AllSpace(s[j..])
  {
    TrimStartShape(s);
    var i :| 0 <= i <= |s| && TrimStart(s) == s[i..] && AllSpace(s[..i]);
    TrimEndShape(s[i..]);
    var k :| 0 <= k <= |s[i..]| && TrimEnd(s[i..]) == s[i..][..k] && AllSpace(s[i..][k..]);
    SliceOfSuffix(s, i, k);
    assert Strip(s) == s[i..i + k] && AllSpace(s[i + k..]);
  }

  /** Slicing a suffix is slicing the string. */
  lemma SliceOfSuffix(s: string, i: nat, k: nat)
    requires i <= |s| && k <= |s| - i
    ensures s[i..][..k] == s[i..i + k] && s[i..][k..] == s[i + k..]
  {
  }

  /** What `strip()` returns neither starts nor ends with whitespace. */
  lemma StripEnds(s: string)
    ensures Strip(s) != [] ==> !IsSpace(Strip(s)[0]) && !IsSpace(Strip(s)[|Strip(s)| - 1])
  {
    TrimStartShape(s);
    TrimEndShape(TrimStart(s));
    if Strip(s) != [] {
      var t := TrimStart(s);
      var k :| 0 <= k <= |t| && TrimEnd(t) == t[..k] && AllSpace(t[k..]);
      assert Strip(s)[0] == t[0];
    }
  }

  /** A string strips to the empty string exactly when it is all whitespace. */
  lemma {:induction false} StripEmptyIffAllSpace(s: string)
    ensures Strip(s) == [] <==> AllSpace(s)
  {
    StripShape(s);
    StripEnds(s);
    var i, j :| 0 <= i <= j <= |s| && Strip(s) == s[i..j] && AllSpace(s[..i]) && AllSpace(s[j..]);
    if Strip(s) == [] {
      assert i == j;
      forall n | 0 <= n < |s| ensures IsSpace(s[n]) {
        if n < i { assert s[n] == s[..i][n]; } else { assert s[n] == s[j..][n - j]; }
      }
    } else {
      assert !IsSpace(s[i]) by { assert s[i] == Strip(s)[0]; }
    }
  }

  /** `sep.join(parts)`. */
  function Join(parts: seq<string>, sep: string): string
  {
    if |parts| == 0 then ""
    else if |parts| == 1 then parts[0]
    else parts[0] + sep + Join(parts[1..], sep)
  }

  /** The index of the last occurrence of `c` in `s`, as `str.rfind` would find it. */
  function LastIndexOf(s: string, c: char): (r: Option<nat>)
    ensures r.Some? ==> r.value < |s| && s[r.value] == c &&
                        forall i :: r.value < i < |s| ==> s[i] != c
    ensures r.None? ==> forall i :: 0 <= i < |s| ==> s[i] != c
  {
    if s == [] then None
    else if s[|s| - 1] == c then Some(|s| - 1)
    else LastIndexOf(s[..|s| - 1], c)
  }

  /** The first half of `os.path.splitext(name)` for a bare file name (no
      directory separator): the name without its last extension, where
      leading dots do not start an extension. */
  function SplitExtRoot(name: string): string
  {
    match LastIndexOf(name, '.')
    case None => name
    case Some(dot) =>
      if exists i :: 0 <= i < dot && name[i] != '.' then name[..dot] else name
  }

  /** Cutting the extension off `stem + ext` gives back `stem`, when `ext` is
      a single dot-led extension and `stem` is more than dots. */
  lemma SplitExtRootOfStem(stem: string, ext: string)
    requires |ext| >= 1 && ext[0] == '.' && forall i :: 1 <= i < |ext| ==> ext[i] != '.'
    requires exists i :: 0 <= i < |stem| && stem[i] != '.'
    ensures SplitExtRoot(stem + ext) == stem
  {
    var name := stem + ext;
    assert name[|stem|] == '.';
    var r := LastIndexOf(name, '.');
    assert r == Some(|stem|) by {
      assert forall i :: |stem| < i < |name| ==> name[i] == ext[i - |stem|];
    }
    var i :| 0 <= i < |stem| && stem[i] != '.';
    assert name[i] != '.';
    assert name[..|stem|] == stem;
  }

  /** POSIX `os.path.join(a, b)` for two components. */
  function PathJoin(a: string, b: string): string {
    if IsPrefix("/", b) then b
    else if a == "" || EndsWith(a, "/") then a + b
    else a + "/" + b
  }
}
