/**
 * Python's substring operations on `str`: the `in` test, `str.replace`,
 * `str.split` with an explicit separator and `str.join`. Matching is
 * left to right and non-overlapping, as CPython does it.
 */
module Substrings {

  /** `w` occurs in `s` starting at index `i`. */
  predicate OccursAt(s: string, w: string, i: int)
  {
    0 <= i && i + |w| <= |s| && s[i..i + |w|] == w
  }

  /** Python's `w in s`. */
  predicate Contains(s: string, w: string)
  {
    exists i | 0 <= i <= |s| - |w| :: OccursAt(s, w, i)
  }

  /** Python's `s.replace(pat, rep)` for a non-empty `pat`. */
  function ReplaceAll(s: string, pat: string, rep: string): (r: string)
    requires pat != []
    ensures forall c :: c in r ==> c in s || c in rep
    ensures |rep| <= |pat| ==> |r| <= |s|
    decreases |s|
  {
    if |s| < |pat| then s
    else if s[..|pat|] == pat then rep + ReplaceAll(s[|pat|..], pat, rep)
    else [s[0]] + ReplaceAll(s[1..], pat, rep)
  }

  /** Python's `s.split(sep)` for a non-empty `sep`. */
  function Split(s: string, sep: string): (parts: seq<string>)
    requires sep != []
    ensures |parts| >= 1
    decreases |s|
  {
    if |s| < |sep| then [s]
    else if s[..|sep|] == sep then [""] + Split(s[|sep|..], sep)
    else
      var rest := Split(s[1..], sep);
      [[s[0]] + rest[0]] + rest[1..]
  }

  /** Python's `sep.join(parts)`. */
  function Join(parts: seq<string>, sep: string): string
  {
    if parts == [] then ""
    else if |parts| == 1 then parts[0]
    else parts[0] + sep + Join(parts[1..], sep)
  }

  // ---------------------------------------------------------------------
  // Occurrences under slicing and concatenation

  lemma SliceOfSlice(s: string, a: int, b: int, c: int, d: int)
    requires 0 <= a <= b <= |s| && 0 <= c <= d <= b - a
    ensures s[a..b][c..d] == s[a + c..a + d]
  {
    var x, y := s[a..b][c..d], s[a + c..a + d];
    assert |x| == |y|;
    forall t | 0 <= t < |x| ensures x[t] == y[t] { }
  }

  lemma OccursShift(s: string, w: string, k: int)
    requires |s| > 0 && 0 <= k
    ensures OccursAt(s, w, k + 1) <==> OccursAt(s[1..], w, k)
  {
    if k + 1 + |w| <= |s| {
      SliceOfSlice(s, 1, |s|, k, k + |w|);
      assert s[1..|s|] == s[1..];
    }
  }

  /** An occurrence inside a slice is an occurrence in the whole string. */
  lemma ContainsSlice(s: string, i: int, j: int, w: string)
    requires 0 <= i <= j <= |s|
    requires Contains(s[i..j], w)
    ensures Contains(s, w)
  {
    var k :| 0 <= k <= |s[i..j]| - |w| && OccursAt(s[i..j], w, k);
    SliceOfSlice(s, i, j, k, k + |w|);
    assert OccursAt(s, w, i + k);
  }

  /**
   * Characters that `w` never uses cannot be part of an occurrence of `w`:
   * an occurrence in `a + b + c` whose outer parts use none of them lies in `b`.
   */
  lemma ContainsInFrame(a: string, b: string, c: string, w: string)
    requires w != []
    requires forall x :: x in a ==> x !in w
    requires forall x :: x in c ==> x !in w
    requires Contains(a + b + c, w)
    ensures Contains(b, w)
  {
    var s := a + b + c;
    var i :| 0 <= i <= |s| - |w| && OccursAt(s, w, i);
    assert a + (b + c) == s;
    FrontAvoids(a, b + c, w);
    BackAvoids(a + b, c, w);
    assert s[i] == w[0] && w[0] in w;
    assert s[i + |w| - 1] == w[|w| - 1] && w[|w| - 1] in w;
    assert |a| <= i && i + |w| <= |a| + |b|;
    assert b == s[|a|..|a| + |b|];
    SliceOfSlice(s, |a|, |a| + |b|, i - |a|, i - |a| + |w|);
    assert OccursAt(b, w, i - |a|);
  }

  lemma FrontAvoids(a: string, rest: string, w: string)
    requires forall x :: x in a ==> x !in w
    ensures forall k :: 0 <= k < |a| ==> (a + rest)[k] !in w
  {
    forall k | 0 <= k < |a| ensures (a + rest)[k] !in w {
      assert (a + rest)[k] == a[k];
    }
  }

  lemma BackAvoids(front: string, c: string, w: string)
    requires forall x :: x in c ==> x !in w
    ensures forall k :: |front| <= k < |front + c| ==> (front + c)[k] !in w
  {
    forall k | |front| <= k < |front + c| ensures (front + c)[k] !in w {
      assert (front + c)[k] == c[k - |front|];
    }
  }

  // ---------------------------------------------------------------------
  // str.replace

  /** Replacing a pattern that does not occur changes nothing. */
  lemma {:induction false} ReplaceAllAbsent(s: string, pat: string, rep: string)
    requires pat != []
    requires !Contains(s, pat)
    ensures ReplaceAll(s, pat, rep) == s
    decreases |s|
  {
    if |s| >= |pat| {
      if s[..|pat|] == pat {
        assert OccursAt(s, pat, 0);
        assert false;
      }
      if Contains(s[1..], pat) {
        assert s[1..|s|] == s[1..];
        ContainsSlice(s, 1, |s|, pat);
        assert false;
      }
      ReplaceAllAbsent(s[1..], pat, rep);
      assert s == [s[0]] + s[1..];
    }
  }

  /**
   * A prefix of the output made only of characters that the replacement
   * does not use was copied unchanged from the input.
   */
  lemma {:induction false} ReplaceAllPrefixCopied(s: string, pat: string, rep: string, m: nat)
    requires pat != [] && rep != []
    requires m <= |ReplaceAll(s, pat, rep)|
    requires forall k :: 0 <= k < m ==> ReplaceAll(s, pat, rep)[k] !in rep
    ensures m <= |s| && ReplaceAll(s, pat, rep)[..m] == s[..m]
    decreases |s|
  {
    var out := ReplaceAll(s, pat, rep);
    if |s| < |pat| {
    } else if s[..|pat|] == pat {
      assert out == rep + ReplaceAll(s[|pat|..], pat, rep);
      assert out[0] == rep[0] && rep[0] in rep;
      assert m == 0;
    } else if m > 0 {
      var t := ReplaceAll(s[1..], pat, rep);
      assert out == [s[0]] + t;
      forall k | 0 <= k < m - 1 ensures t[k] !in rep {
        assert t[k] == out[k + 1];
      }
      ReplaceAllPrefixCopied(s[1..], pat, rep, m - 1);
      assert out[..m] == [s[0]] + t[..m - 1];
      assert s[..m] == [s[0]] + s[1..][..m - 1];
    }
  }

  /**
   * A replacement made of characters that `w` does not use cannot create
   * a new occurrence of `w`.
   */
  lemma {:induction false} ReplaceAllNoNewOccurrence(s: string, pat: string, rep: string, w: string)
    requires pat != [] && rep != [] && w != []
    requires forall x :: x in rep ==> x !in w
    requires Contains(ReplaceAll(s, pat, rep), w)
    ensures Contains(s, w)
    decreases |s|
  {
    var out := ReplaceAll(s, pat, rep);
    var i :| 0 <= i <= |out| - |w| && OccursAt(out, w, i);
    if i == 0 {
      ReplaceAllFrontOccurrence(s, pat, rep, w);
    } else if |s| < |pat| {
    } else if s[..|pat|] == pat {
      var t := ReplaceAll(s[|pat|..], pat, rep);
      assert out == rep + t + [];
      ContainsInFrame(rep, t, [], w);
      ReplaceAllNoNewOccurrence(s[|pat|..], pat, rep, w);
      assert s[|pat|..|s|] == s[|pat|..];
      ContainsSlice(s, |pat|, |s|, w);
    } else {
      var t := ReplaceAll(s[1..], pat, rep);
      assert out[1..] == t;
      OccursShift(out, w, i - 1);
      ReplaceAllNoNewOccurrence(s[1..], pat, rep, w);
      assert s[1..|s|] == s[1..];
      ContainsSlice(s, 1, |s|, w);
    }
  }

  /** An occurrence at the front of the output, free of replacement characters, was in the input. */
  lemma ReplaceAllFrontOccurrence(s: string, pat: string, rep: string, w: string)
    requires pat != [] && rep != []
    requires forall x :: x in rep ==> x !in w
    requires OccursAt(ReplaceAll(s, pat, rep), w, 0)
    ensures OccursAt(s, w, 0)
  {
    var out := ReplaceAll(s, pat, rep);
    forall k | 0 <= k < |w| ensures out[k] !in rep {
      assert out[k] == out[..|w|][k] == w[k];
    }
    ReplaceAllPrefixCopied(s, pat, rep, |w|);
  }

  /** A text that does not hold the pattern's first character is copied unchanged. */
  lemma {:induction false} ReplaceAllSkip(x: string, y: string, pat: string, rep: string)
    requires pat != [] && pat[0] !in x
    ensures ReplaceAll(x + y, pat, rep) == x + ReplaceAll(y, pat, rep)
    decreases |x|
  {
    if x != [] {
      var s := x + y;
      assert s[0] == x[0] && x[0] in x;
      ReplaceAllSkip(x[1..], y, pat, rep);
      assert s[1..] == x[1..] + y;
      assert x == [x[0]] + x[1..];
      if |s| >= |pat| {
        assert s[..|pat|][0] == s[0] != pat[0];
        assert ReplaceAll(s, pat, rep) == [s[0]] + ReplaceAll(s[1..], pat, rep);
      }
    } else {
      assert x + y == y;
    }
  }

  /** A text without the pattern's first character is its own replacement. */
  lemma ReplaceAllUntouched(x: string, pat: string, rep: string)
    requires pat != [] && pat[0] !in x
    ensures ReplaceAll(x, pat, rep) == x
  {
    ReplaceAllSkip(x, [], pat, rep);
    assert x + [] == x;
  }

  /** An occurrence at the front is replaced and scanning resumes after it. */
  lemma ReplaceAllHit(pat: string, z: string, rep: string)
    requires pat != []
    ensures ReplaceAll(pat + z, pat, rep) == rep + ReplaceAll(z, pat, rep)
  {
    var s := pat + z;
    assert s[..|pat|] == pat && s[|pat|..] == z;
  }

  /**
   * One pass does not remove a pattern that straddles another copy: when
   * the first character of `t` does not recur in `t`, deleting the inner
   * copy of `p + t + s`, with `p + s == t`, joins the halves into `t`.
   */
  lemma ReplaceAllReforms(t: string, p: string, s: string)
    requires t != [] && t[0] !in t[1..]
    requires p + s == t && p != [] && s != []
    ensures ReplaceAll(p + t + s, t, "") == t
  {
    var w := p + t + s;
    assert ReplaceAll(w, t, "") == [w[0]] + ReplaceAll(w[1..], t, "") by {
      HeadAvoidsParts(t, p, s);
      assert w[|p|] == t[0] && t[|p|] == s[0];
      assert w[..|t|][|p|] != t[|p|];
      ReplaceAllMiss(w, t, "");
    }
    assert ReplaceAll(w[1..], t, "") == p[1..] + s by {
      HeadAvoidsParts(t, p, s);
      assert w[1..] == p[1..] + (t + s);
      ReplaceAllSkip(p[1..], t + s, t, "");
      ReplaceAllHit(t, s, "");
      ReplaceAllUntouched(s, t, "");
    }
    assert [w[0]] + (p[1..] + s) == t;
  }

  /** Where the pattern does not start, the first character is copied. */
  lemma ReplaceAllMiss(s: string, pat: string, rep: string)
    requires pat != [] && |s| >= |pat| && s[..|pat|] != pat
    ensures ReplaceAll(s, pat, rep) == [s[0]] + ReplaceAll(s[1..], pat, rep)
  {
  }

  lemma HeadAvoidsParts(t: string, p: string, s: string)
    requires t != [] && t[0] !in t[1..] && p + s == t && p != []
    ensures t[0] !in p[1..] && t[0] !in s
  {
    assert t[1..] == p[1..] + s;
  }

  /** A string lacking one of the characters of `w` does not contain `w`. */
  lemma MissingCharNotContained(s: string, w: string, c: char)
    requires c in w && c !in s
    ensures !Contains(s, w)
  {
  }

  // ---------------------------------------------------------------------
  // str.split and str.join

  lemma JoinCons(c: char, parts: seq<string>, sep: string)
    requires parts != []
    ensures Join([[c] + parts[0]] + parts[1..], sep) == [c] + Join(parts, sep)
  {
    var ps := [[c] + parts[0]] + parts[1..];
    assert ps[1..] == parts[1..];
  }

  /** Joining the pieces of a split with the same separator gives the input back. */
  lemma {:induction false} JoinSplit(s: string, sep: string)
    requires sep != []
    ensures Join(Split(s, sep), sep) == s
    decreases |s|
  {
    if |s| < |sep| {
    } else if s[..|sep|] == sep {
      var rest := Split(s[|sep|..], sep);
      JoinSplit(s[|sep|..], sep);
      assert ([""] + rest)[1..] == rest;
      assert s == sep + s[|sep|..];
    } else {
      var rest := Split(s[1..], sep);
      JoinSplit(s[1..], sep);
      JoinCons(s[0], rest, sep);
      assert s == [s[0]] + s[1..];
    }
  }

  /**
   * `s.replace(pat, rep) == rep.join(s.split(pat))`: the replacement keeps
   * every piece between occurrences and changes only the occurrences.
   */
  lemma {:induction false} ReplaceAllIsJoinOfSplit(s: string, pat: string, rep: string)
    requires pat != []
    ensures ReplaceAll(s, pat, rep) == Join(Split(s, pat), rep)
    decreases |s|
  {
    if |s| < |pat| {
    } else if s[..|pat|] == pat {
      var rest := Split(s[|pat|..], pat);
      ReplaceAllIsJoinOfSplit(s[|pat|..], pat, rep);
      assert ([""] + rest)[1..] == rest;
    } else {
      var rest := Split(s[1..], pat);
      ReplaceAllIsJoinOfSplit(s[1..], pat, rep);
      JoinCons(s[0], rest, rep);
    }
  }

  /**
   * `s.split(sep)[0]` is the text before the first occurrence of `sep`,
   * or all of `s` when `sep` does not occur.
   */
  lemma {:induction false} SplitFirstPiece(s: string, sep: string)
    requires sep != []
    ensures var p := Split(s, sep)[0];
      && |p| <= |s| && p == s[..|p|]
      && (forall k :: 0 <= k < |p| ==> !OccursAt(s, sep, k))
      && (|p| < |s| ==> OccursAt(s, sep, |p|))
    decreases |s|
  {
    if |s| < |sep| {
      forall k | 0 <= k < |s| ensures !OccursAt(s, sep, k) { }
    } else if s[..|sep|] == sep {
    } else {
      var rest := Split(s[1..], sep);
      SplitFirstPiece(s[1..], sep);
      var p := [s[0]] + rest[0];
      assert Split(s, sep)[0] == p;
      forall k | 0 <= k < |p| ensures !OccursAt(s, sep, k) {
        if k > 0 {
          OccursShift(s, sep, k - 1);
        }
      }
      if |p| < |s| {
        OccursShift(s, sep, |rest[0]|);
      }
      assert s == [s[0]] + s[1..];
    }
  }

  /** The first piece of a split never contains the separator. */
  lemma FirstPieceFree(s: string, sep: string)
    requires sep != []
    ensures !Contains(Split(s, sep)[0], sep)
  {
    var p := Split(s, sep)[0];
    SplitFirstPiece(s, sep);
    forall k | 0 <= k <= |p| - |sep| ensures !OccursAt(p, sep, k) {
      assert s[0..|p|] == p;
      SliceOfSlice(s, 0, |p|, k, k + |sep|);
      assert !OccursAt(s, sep, k);
    }
  }

  /** A text that does not hold the separator's first character stays in the first piece. */
  lemma {:induction false} SplitSkip(x: string, y: string, sep: string)
    requires sep != [] && sep[0] !in x
    ensures Split(x + y, sep) == [x + Split(y, sep)[0]] + Split(y, sep)[1..]
    decreases |x|
  {
    if x != [] {
      var s := x + y;
      assert s[0] == x[0] && x[0] in x;
      SplitSkip(x[1..], y, sep);
      assert s[1..] == x[1..] + y;
      assert x == [x[0]] + x[1..];
      var ys := Split(y, sep);
      var rest := [x[1..] + ys[0]] + ys[1..];
      assert rest[0] == x[1..] + ys[0] && rest[1..] == ys[1..];
      assert [s[0]] + (x[1..] + ys[0]) == x + ys[0];
      if |s| >= |sep| {
        assert s[..|sep|][0] == s[0] != sep[0];
      } else {
        assert |ys| == 1;
      }
    } else {
      assert x + y == y;
      assert x + Split(y, sep)[0] == Split(y, sep)[0];
      assert Split(y, sep) == [Split(y, sep)[0]] + Split(y, sep)[1..];
    }
  }

  /** An occurrence at the front ends the first piece at once. */
  lemma SplitHit(sep: string, z: string)
    requires sep != []
    ensures Split(sep + z, sep) == [""] + Split(z, sep)
  {
    var s := sep + z;
    assert s[..|sep|] == sep;
    assert s[|sep|..] == z;
  }

  /**
   * `sep.join(parts).split(sep) == parts` for a one-character separator that
   * no part contains.
   */
  lemma {:induction false} SplitJoin(parts: seq<string>, c: char)
    requires parts != [] && forall k | 0 <= k < |parts| :: c !in parts[k]
    ensures Split(Join(parts, [c]), [c]) == parts
    decreases |parts|
  {
    var p := parts[0];
    if |parts| == 1 {
      SplitSkip(p, [], [c]);
      assert p + [] == p;
    } else {
      var rest := parts[1..];
      var j := Join(rest, [c]);
      SplitJoin(rest, c);
      assert Join(parts, [c]) == p + ([c] + j);
      SplitSkip(p, [c] + j, [c]);
      SplitHit([c], j);
      var tail := [""] + Split(j, [c]);
      assert tail[0] == "" && tail[1..] == rest;
      assert p + "" == p;
      assert parts == [p] + rest;
    }
  }
}
