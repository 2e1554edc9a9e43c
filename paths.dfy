/**
 * Path strings of the virtual filesystem: `path_trim`, `path_canonize`, and the
 * pieces of Ruby's String API the folder engine relies on (`split`, `join`,
 * literal `gsub` and `start_with?`).
 */
module Paths {

  predicate AllSlashes(s: string) {
    forall i :: 0 <= i < |s| ==> s[i] == '/'
  }

  /** A trimmed path neither starts nor ends with '/'. */
  predicate Trimmed(s: string) {
    s == [] || (s[0] != '/' && s[|s| - 1] != '/')
  }

  /** A canonical path: exactly one leading '/', and no trailing '/' unless it is "/". */
  predicate Canonical(s: string) {
    |s| >= 1 && s[0] == '/' && Trimmed(s[1..])
  }

  /** `r` is `s` with only runs of '/' removed at both ends. */
  ghost predicate SlashPadded(s: string, r: string) {
    exists a, b :: AllSlashes(a) && AllSlashes(b) && s == a + r + b
  }

  /** gsub(/\A\/+/, ''): the leading run of '/' removed. */
  function DropLeading(s: string): (r: string)
    ensures r == [] || r[0] != '/'
    ensures |r| <= |s|
    decreases |s|
  {
    if s != [] && s[0] == '/' then DropLeading(s[1..]) else s
  }

  /** gsub(/\/+\z/, ''): the trailing run of '/' at the very end of the string removed. */
  function DropTrailing(s: string): (r: string)
    ensures r == [] || r[|r| - 1] != '/'
    ensures r <= s
    decreases |s|
  {
    if s != [] && s[|s| - 1] == '/' then DropTrailing(s[..|s| - 1]) else s
  }

  /** `path_trim` with the trailing anchor read as end-of-string. */
  function PathTrim(s: string): (r: string)
    ensures Trimmed(r)
  {
    DropTrailing(DropLeading(s))
  }

  /** What `gsub(/\A\/+/, '')` removes is a run of '/'. */
  lemma {:induction false} DropLeadingPadded(s: string)
    ensures exists a :: AllSlashes(a) && s == a + DropLeading(s)
    decreases |s|
  {
    if s != [] && s[0] == '/' {
      DropLeadingPadded(s[1..]);
      var a :| AllSlashes(a) && s[1..] == a + DropLeading(s[1..]);
      assert AllSlashes(['/'] + a) && s == ['/'] + a + DropLeading(s);
    } else {
      assert AllSlashes([]) && s == [] + s;
    }
  }

  /** What `gsub(/\/+\z/, '')` removes is a run of '/'. */
  lemma {:induction false} DropTrailingPadded(s: string)
    ensures exists b :: AllSlashes(b) && s == DropTrailing(s) + b
    decreases |s|
  {
    if s != [] && s[|s| - 1] == '/' {
      DropTrailingPadded(s[..|s| - 1]);
      var b :| AllSlashes(b) && s[..|s| - 1] == DropTrailing(s[..|s| - 1]) + b;
      assert AllSlashes(b + ['/']) && s == DropTrailing(s) + (b + ['/']);
    } else {
      assert AllSlashes([]) && s == s + [];
    }
  }

  /** `path_trim` removes nothing but runs of '/' at both ends. */
  lemma PathTrimPadded(s: string)
    ensures SlashPadded(s, PathTrim(s))
  {
    var m := DropLeading(s);
    DropLeadingPadded(s);
    DropTrailingPadded(m);
    var a :| AllSlashes(a) && s == a + m;
    var b :| AllSlashes(b) && m == PathTrim(s) + b;
    assert s == a + PathTrim(s) + b;
  }

  /** `path_canonize`: "/" followed by the trimmed path. */
  function PathCanonize(s: string): (r: string)
    ensures Canonical(r)
    ensures r[1..] == PathTrim(s)
  {
    "/" + PathTrim(s)
  }

  lemma DropLeadingOf(a: string, t: string)
    requires AllSlashes(a)
    requires t == [] || t[0] != '/'
    ensures DropLeading(a + t) == t
    decreases |a|
  {
    if a != [] {
      assert (a + t)[1..] == a[1..] + t;
      DropLeadingOf(a[1..], t);
    } else {
      assert a + t == t;
    }
  }

  lemma DropTrailingOf(t: string, b: string)
    requires AllSlashes(b)
    requires t == [] || t[|t| - 1] != '/'
    ensures DropTrailing(t + b) == t
    decreases |b|
  {
    if b != [] {
      assert (t + b)[..|t + b| - 1] == t + b[..|b| - 1];
      DropTrailingOf(t, b[..|b| - 1]);
    } else {
      assert t + b == t;
    }
  }

  /** The trimmed core is unique: a string padded with slashes trims back to its core. */
  lemma {:induction false} PathTrimUnique(a: string, r: string, b: string)
    requires AllSlashes(a) && AllSlashes(b) && Trimmed(r)
    ensures PathTrim(a + r + b) == r
  {
    if r == [] {
      assert a + r + b == a + b;
      assert AllSlashes(a + b);
      DropLeadingOf(a + b, []);
      assert a + b == (a + b) + [];
    } else {
      assert a + r + b == a + (r + b);
      DropLeadingOf(a, r + b);
      DropTrailingOf(r, b);
    }
  }

  lemma {:induction false} PathTrimIdempotent(s: string)
    ensures PathTrim(PathTrim(s)) == PathTrim(s)
  {
    var r := PathTrim(s);
    assert r == [] + r + [];
    PathTrimUnique([], r, []);
  }

  /** Canonical paths are fixed points of `path_canonize`. */
  lemma {:induction false} CanonizeCanonical(p: string)
    requires Canonical(p)
    ensures PathCanonize(p) == p
  {
    assert p == "/" + p[1..] + [];
    PathTrimUnique("/", p[1..], []);
  }

  /** Canonizing does not change what a path trims to. */
  lemma {:induction false} TrimOfCanonize(s: string)
    ensures PathTrim(PathCanonize(s)) == PathTrim(s)
  {
    var r := PathTrim(s);
    assert PathCanonize(s) == "/" + r + [];
    PathTrimUnique("/", r, []);
  }

  // ---------------------------------------------------------------------
  // The source's trailing anchor, as written: /\/+\Z/, where \Z also
  // matches just before a string-ending newline.

  function DropTrailingAsWritten(s: string): (r: string)
    ensures |r| <= |s|
  {
    if s != [] && s[|s| - 1] == '/' then DropTrailing(s)
    else if s != [] && s[|s| - 1] == '\n' then
      DropTrailing(s[..|s| - 1]) + "\n"
    else s
  }

  function PathTrimAsWritten(s: string): (r: string)
    ensures |r| <= |s|
  {
    DropTrailingAsWritten(DropLeading(s))
  }

  /** As written, trimming twice differs from trimming once on "a/\n/". */
  lemma PathTrimAsWrittenNotIdempotent()
    ensures PathTrimAsWritten("a/\n/") == "a/\n"
    ensures PathTrimAsWritten(PathTrimAsWritten("a/\n/")) == "a\n"
  {
    assert DropLeading("a/\n/") == "a/\n/";
    assert DropTrailing("a/\n/") == "a/\n" by {
      assert "a/\n/"[..3] == "a/\n";
      assert DropTrailing("a/\n") == "a/\n";
    }
    assert DropLeading("a/\n") == "a/\n";
    assert "a/\n"[..2] == "a/";
    assert DropTrailing("a/") == "a" by {
      assert "a/"[..1] == "a";
    }
  }

  // ---------------------------------------------------------------------
  // String#split with a one-character separator, and Array#join.

  predicate Free(s: string, c: char) {
    forall i :: 0 <= i < |s| ==> s[i] != c
  }

  /** Every field between separators, empty ones included. */
  function SplitAll(s: string, c: char): (r: seq<string>)
    ensures |r| >= 1
    ensures forall k :: 0 <= k < |r| ==> Free(r[k], c)
    decreases |s|
  {
    if s == [] then [[]]
    else if s[0] == c then [[]] + SplitAll(s[1..], c)
    else
      var rest := SplitAll(s[1..], c);
      [[s[0]] + rest[0]] + rest[1..]
  }

  function Join(parts: seq<string>, c: char): string
    decreases |parts|
  {
    if |parts| == 0 then []
    else if |parts| == 1 then parts[0]
    else parts[0] + [c] + Join(parts[1..], c)
  }

  lemma {:induction false} JoinAppend(p: seq<string>, q: seq<string>, c: char)
    requires |p| >= 1 && |q| >= 1
    ensures Join(p + q, c) == Join(p, c) + [c] + Join(q, c)
    decreases |p|
  {
    if |p| == 1 {
      assert (p + q)[1..] == q;
    } else {
      assert (p + q)[1..] == p[1..] + q;
      JoinAppend(p[1..], q, c);
    }
  }

  /** Ruby drops the empty fields at the end of a split. */
  function DropTrailingEmpty(parts: seq<string>): (r: seq<string>)
    ensures r <= parts
    ensures r == [] || r[|r| - 1] != []
    ensures forall k :: |r| <= k < |parts| ==> parts[k] == []
    decreases |parts|
  {
    if parts != [] && parts[|parts| - 1] == [] then DropTrailingEmpty(parts[..|parts| - 1])
    else parts
  }

  /** `s.split(c)` for a one-character string `c`. */
  function Split(s: string, c: char): (r: seq<string>)
    ensures forall k :: 0 <= k < |r| ==> Free(r[k], c)
    ensures r == [] || r[|r| - 1] != []
  {
    DropTrailingEmpty(SplitAll(s, c))
  }

  /** Joining the fields with the separator gives back the string. */
  lemma {:induction false} JoinSplitAll(s: string, c: char)
    ensures Join(SplitAll(s, c), c) == s
    decreases |s|
  {
    if s == [] {
    } else if s[0] == c {
      JoinSplitAll(s[1..], c);
      var rest := SplitAll(s[1..], c);
      assert ([[]] + rest)[1..] == rest;
      assert s == [] + [c] + s[1..];
    } else {
      JoinSplitAll(s[1..], c);
      var rest := SplitAll(s[1..], c);
      var r := [[s[0]] + rest[0]] + rest[1..];
      if |rest| == 1 {
        assert s == [s[0]] + s[1..];
      } else {
        assert r[1..] == rest[1..];
        assert Join(rest, c) == rest[0] + [c] + Join(rest[1..], c);
        assert s == [s[0]] + s[1..];
      }
    }
  }

  /** Splitting a join of separator-free fields gives the fields back. */
  lemma {:induction false} SplitAllJoin(parts: seq<string>, c: char)
    requires |parts| >= 1
    requires forall k :: 0 <= k < |parts| ==> Free(parts[k], c)
    ensures SplitAll(Join(parts, c), c) == parts
    decreases |parts|, |parts[0]|
  {
    var p := parts[0];
    if p == [] {
      if |parts| == 1 {
      } else {
        SplitAllJoin(parts[1..], c);
        assert Join(parts, c) == [c] + Join(parts[1..], c);
        assert (([c] + Join(parts[1..], c)))[1..] == Join(parts[1..], c);
        assert [[]] + parts[1..] == parts;
      }
    } else {
      var shorter := [p[1..]] + parts[1..];
      assert Free(p[1..], c);
      assert forall k :: 0 <= k < |shorter| ==> Free(shorter[k], c) by {
        forall k | 0 <= k < |shorter| ensures Free(shorter[k], c) {
          if k > 0 { assert shorter[k] == parts[k]; }
        }
      }
      SplitAllJoin(shorter, c);
      assert shorter[1..] == parts[1..];
      var j := Join(parts, c);
      if |parts| == 1 {
        assert j == p;
        assert j[1..] == Join(shorter, c);
      } else {
        assert j == p + [c] + Join(parts[1..], c);
        assert Join(shorter, c) == p[1..] + [c] + Join(parts[1..], c);
        assert j[1..] == Join(shorter, c);
      }
      assert j[0] == p[0] && p[0] != c;
      var rest := SplitAll(j[1..], c);
      assert rest == shorter;
      assert SplitAll(j, c) == [[j[0]] + rest[0]] + rest[1..];
      assert rest[0] == p[1..] && [p[0]] + p[1..] == p;
      assert rest[1..] == parts[1..];
      assert [[p[0]] + rest[0]] + rest[1..] == parts;
    }
  }

  /** A trailing separator does not change a split ("a/b/" splits like "a/b"). */
  lemma {:induction false} SplitTrailingSeparator(s: string, c: char)
    ensures Split(s + [c], c) == Split(s, c)
  {
    var parts := SplitAll(s, c);
    JoinSplitAll(s, c);
    SplitAllAppendSeparator(parts, c);
    assert SplitAll(s + [c], c) == parts + [[]];
    assert (parts + [[]])[..|parts + [[]]| - 1] == parts;
  }

  lemma {:induction false} SplitAllAppendSeparator(parts: seq<string>, c: char)
    requires |parts| >= 1
    requires forall k :: 0 <= k < |parts| ==> Free(parts[k], c)
    ensures SplitAll(Join(parts, c) + [c], c) == parts + [[]]
  {
    var ext := parts + [[]];
    assert forall k :: 0 <= k < |ext| ==> Free(ext[k], c) by {
      forall k | 0 <= k < |ext| ensures Free(ext[k], c) {
        if k < |parts| { assert ext[k] == parts[k]; }
      }
    }
    JoinAppendEmpty(parts, c);
    SplitAllJoin(ext, c);
  }

  lemma {:induction false} JoinAppendEmpty(parts: seq<string>, c: char)
    requires |parts| >= 1
    ensures Join(parts + [[]], c) == Join(parts, c) + [c]
    decreases |parts|
  {
    if |parts| == 1 {
      assert (parts + [[]])[1..] == [[]];
    } else {
      assert (parts + [[]])[1..] == parts[1..] + [[]];
      JoinAppendEmpty(parts[1..], c);
    }
  }

  // ---------------------------------------------------------------------
  // gsub with a literal pattern and an empty replacement.

  /** Every non-overlapping occurrence of `pat`, scanning left to right, removed. */
  function DeleteAll(s: string, pat: string): (r: string)
    requires pat != []
    ensures |r| <= |s|
    decreases |s|
  {
    if |s| < |pat| then s
    else if s[..|pat|] == pat then DeleteAll(s[|pat|..], pat)
    else [s[0]] + DeleteAll(s[1..], pat)
  }

  /** `pat` occurs in `s` starting at some position. */
  predicate OccursAt(s: string, pat: string, i: int) {
    0 <= i <= |s| - |pat| && s[i..i + |pat|] == pat
  }

  ghost predicate Occurs(s: string, pat: string) {
    exists i :: OccursAt(s, pat, i)
  }

  /** Removing a pattern that does not occur leaves the string as it is. */
  lemma {:induction false} DeleteAllAbsent(s: string, pat: string)
    requires pat != [] && !Occurs(s, pat)
    ensures DeleteAll(s, pat) == s
    decreases |s|
  {
    if |s| >= |pat| {
      assert s[0..0 + |pat|] == s[..|pat|];
      assert !OccursAt(s, pat, 0);
      assert !Occurs(s[1..], pat) by {
        forall i ensures !OccursAt(s[1..], pat, i) {
          if 0 <= i <= |s[1..]| - |pat| {
            assert s[1..][i..i + |pat|] == s[i + 1..(i + 1) + |pat|];
            assert !OccursAt(s, pat, i + 1);
          }
        }
      }
      DeleteAllAbsent(s[1..], pat);
      assert s == [s[0]] + s[1..];
    }
  }
}
