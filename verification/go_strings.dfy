/**
  The parts of Go's `strings` package that the steamcmd output formatter
  relies on, over `seq<char>` with one character per byte (ASCII text):
  `strings.LastIndex` with a one-character pattern and
  `strings.Replace(s, old, new, -1)` with a non-empty pattern, together with
  the reference notions used to state what they do (first occurrence,
  occurrence of a pattern, filtering a character out, subsequence).
 */
module GoStrings {

  /** Index of the last occurrence of `c` in `s`, or -1 when `c` does not occur. */
  function LastIndex(s: seq<char>, c: char): (r: int)
    ensures -1 <= r < |s|
    ensures r == -1 <==> c !in s
    ensures 0 <= r ==> s[r] == c && c !in s[r + 1..]
  {
    if |s| == 0 then -1
    else if s[|s| - 1] == c then |s| - 1
    else
      assert s == s[..|s| - 1] + [s[|s| - 1]];
      LastIndex(s[..|s| - 1], c)
  }

  /** Index of the first occurrence of `c` in `s`, or -1 when `c` does not occur. */
  function Index(s: seq<char>, c: char): (r: int)
    ensures -1 <= r < |s|
    ensures r == -1 <==> c !in s
    ensures 0 <= r ==> s[r] == c && c !in s[..r]
  {
    if |s| == 0 then -1
    else if s[0] == c then 0
    else
      assert s == [s[0]] + s[1..];
      var k := Index(s[1..], c);
      if k == -1 then -1 else k + 1
  }

  /** An occurrence of `c` with none after it is the one `LastIndex` reports. */
  lemma LastIndexIs(s: seq<char>, c: char, q: nat)
    requires q < |s| && s[q] == c && c !in s[q + 1..]
    ensures LastIndex(s, c) == q
  {
  }

  /** An occurrence of `c` with none before it is the one `Index` reports. */
  lemma IndexIs(s: seq<char>, c: char, p: nat)
    requires p < |s| && s[p] == c && c !in s[..p]
    ensures Index(s, c) == p
  {
  }

  /** `pat` occurs in `s` starting at index `i`. */
  ghost predicate MatchesAt(s: seq<char>, pat: seq<char>, i: int)
  {
    0 <= i <= |s| - |pat| && s[i..i + |pat|] == pat
  }

  /** `pat` occurs somewhere in `s`. */
  ghost predicate Occurs(s: seq<char>, pat: seq<char>)
  {
    exists i :: MatchesAt(s, pat, i)
  }

  /** An occurrence in `s[1..]` is an occurrence in `s` one place further on, and back. */
  lemma MatchesAtShift(s: seq<char>, pat: seq<char>, i: nat)
    requires |s| > 0
    ensures MatchesAt(s[1..], pat, i) <==> MatchesAt(s, pat, i + 1)
  {
    if 0 <= i <= |s| - 1 - |pat| {
      assert s[1..][i..i + |pat|] == s[i + 1..i + 1 + |pat|];
    }
  }

  /**
    `strings.Replace(s, pat, rep, -1)`: every non-overlapping occurrence of
    `pat`, found leftmost first while scanning left to right, is replaced
    by `rep`.
   */
  function ReplaceAll(s: seq<char>, pat: seq<char>, rep: seq<char>): seq<char>
    requires |pat| > 0
    decreases |s|
  {
    if |s| < |pat| then s
    else if s[..|pat|] == pat then rep + ReplaceAll(s[|pat|..], pat, rep)
    else [s[0]] + ReplaceAll(s[1..], pat, rep)
  }

  /** `strings.Count(s, pat)`: the number of occurrences `ReplaceAll` rewrites. */
  function CountMatches(s: seq<char>, pat: seq<char>): nat
    requires |pat| > 0
    decreases |s|
  {
    if |s| < |pat| then 0
    else if s[..|pat|] == pat then 1 + CountMatches(s[|pat|..], pat)
    else CountMatches(s[1..], pat)
  }

  /** `s` with every occurrence of `c` removed: the reference for a deletion pass. */
  function Filter(s: seq<char>, c: char): (r: seq<char>)
    ensures multiset(r) == multiset(s)[c := 0]
    ensures c !in r
  {
    if |s| == 0 then []
    else
      assert s == [s[0]] + s[1..];
      var rest := Filter(s[1..], c);
      if s[0] == c then rest else [s[0]] + rest
  }

  /** The elements of `a` appear in `b` in the same order. */
  ghost predicate IsSubsequence(a: seq<char>, b: seq<char>)
    decreases |b|
  {
    |a| == 0 ||
    (|b| > 0 &&
     ((a[0] == b[0] && IsSubsequence(a[1..], b[1..])) || IsSubsequence(a, b[1..])))
  }

  lemma {:induction false} SubsequenceReflexive(a: seq<char>)
    ensures IsSubsequence(a, a)
    decreases |a|
  {
    if |a| > 0 {
      SubsequenceReflexive(a[1..]);
    }
  }

  /** Text put in front of `b` does not disturb a subsequence of `b`. */
  lemma {:induction false} SubsequenceExtendLeft(c: seq<char>, b: seq<char>, d: seq<char>)
    requires IsSubsequence(c, d)
    ensures IsSubsequence(c, b + d)
    decreases |b|
  {
    if |b| > 0 && |c| > 0 {
      SubsequenceExtendLeft(c, b[1..], d);
      assert (b + d)[1..] == b[1..] + d;
      assert IsSubsequence(c, (b + d)[1..]);
    } else if |b| == 0 {
      assert b + d == d;
    }
  }

  /** Subsequences concatenate. */
  lemma {:induction false} SubsequenceConcat(a: seq<char>, b: seq<char>, c: seq<char>, d: seq<char>)
    requires IsSubsequence(a, b) && IsSubsequence(c, d)
    ensures IsSubsequence(a + c, b + d)
    decreases |b|
  {
    if |a| == 0 {
      assert a + c == c;
      SubsequenceExtendLeft(c, b, d);
    } else {
      assert (a + c)[0] == a[0] && (a + c)[1..] == a[1..] + c;
      assert (b + d)[0] == b[0] && (b + d)[1..] == b[1..] + d;
      if a[0] == b[0] && IsSubsequence(a[1..], b[1..]) {
        SubsequenceConcat(a[1..], b[1..], c, d);
      } else {
        SubsequenceConcat(a, b[1..], c, d);
      }
    }
  }

  /** Being a subsequence is transitive. */
  lemma {:induction false} SubsequenceTransitive(a: seq<char>, b: seq<char>, c: seq<char>)
    requires IsSubsequence(a, b) && IsSubsequence(b, c)
    ensures IsSubsequence(a, c)
    decreases |c|
  {
    if |a| > 0 {
      if IsSubsequence(b, c[1..]) {
        SubsequenceTransitive(a, b, c[1..]);
      } else if a[0] == b[0] && IsSubsequence(a[1..], b[1..]) {
        SubsequenceTransitive(a[1..], b[1..], c[1..]);
      } else {
        SubsequenceTransitive(a, b[1..], c[1..]);
      }
    }
  }

  /** Inserting one character between `a` and `b` keeps `a + b` as a subsequence. */
  lemma InsertionKeepsSubsequence(pat: seq<char>, k: nat, ch: char)
    requires k <= |pat|
    ensures IsSubsequence(pat, pat[..k] + [ch] + pat[k..])
  {
    var a, b := pat[..k], pat[k..];
    assert IsSubsequence(a + b, a + ([ch] + b)) by {
      SubsequenceReflexive(a);
      assert IsSubsequence(b, [ch] + b) by {
        SubsequenceReflexive(b);
        SubsequenceExtendLeft(b, [ch], b);
      }
      SubsequenceConcat(a, a, b, [ch] + b);
    }
    assert a + b == pat;
    assert a + ([ch] + b) == pat[..k] + [ch] + pat[k..];
  }

  /** One more copy of `d`. */
  lemma MulSucc(n: int, d: int)
    ensures (n + 1) * d == n * d + d
  {
  }

  /** Every replacement changes the length by `|rep| - |pat|`, and nothing else does. */
  lemma {:induction false} ReplaceAllLength(s: seq<char>, pat: seq<char>, rep: seq<char>)
    requires |pat| > 0
    ensures |ReplaceAll(s, pat, rep)| == |s| + CountMatches(s, pat) * (|rep| - |pat|)
    decreases |s|
  {
    var d := |rep| - |pat|;
    if |s| < |pat| {
    } else if s[..|pat|] == pat {
      var rest := s[|pat|..];
      ReplaceAllLength(rest, pat, rep);
      var n := CountMatches(rest, pat);
      assert |ReplaceAll(s, pat, rep)| == |rep| + |ReplaceAll(rest, pat, rep)|;
      assert CountMatches(s, pat) == n + 1;
      assert |s| == |pat| + |rest|;
      assert (n + 1) * d == n * d + d by {
        MulSucc(n, d);
      }
    } else {
      var rest := s[1..];
      ReplaceAllLength(rest, pat, rep);
      assert |ReplaceAll(s, pat, rep)| == 1 + |ReplaceAll(rest, pat, rep)|;
      assert CountMatches(s, pat) == CountMatches(rest, pat);
    }
  }

  /** Counts add up over concatenations: one step of the induction in `InsertionCounts`. */
  lemma CountsStep(r: seq<char>, a: seq<char>, rr: seq<char>, s: seq<char>, b: seq<char>, rest: seq<char>,
                   ch: char, n: nat, d: nat)
    requires r == a + rr && s == b + rest
    requires forall x :: multiset(a)[x] == multiset(b)[x] + if x == ch then d else 0
    requires forall x :: multiset(rr)[x] == multiset(rest)[x] + if x == ch then n else 0
    ensures forall x :: multiset(r)[x] == multiset(s)[x] + if x == ch then n + d else 0
  {
    assert multiset(r) == multiset(a) + multiset(rr);
    assert multiset(s) == multiset(b) + multiset(rest);
  }

  /** Inserting `ch` into `pat` adds exactly one `ch`. */
  lemma InsertedOnce(pat: seq<char>, k: nat, ch: char)
    requires k <= |pat|
    ensures forall x :: multiset(pat[..k] + [ch] + pat[k..])[x] == multiset(pat)[x] + if x == ch then 1 else 0
  {
    assert pat == pat[..k] + pat[k..];
  }

  /**
    A replacement that inserts `ch` into the pattern adds one `ch` per
    match and leaves the count of every other character alone.
   */
  lemma {:induction false} InsertionCounts(s: seq<char>, pat: seq<char>, k: nat, ch: char)
    requires 0 < |pat| && k <= |pat|
    ensures forall x :: multiset(ReplaceAll(s, pat, pat[..k] + [ch] + pat[k..]))[x]
                        == multiset(s)[x] + if x == ch then CountMatches(s, pat) else 0
    decreases |s|
  {
    var rep := pat[..k] + [ch] + pat[k..];
    if |s| < |pat| {
    } else if s[..|pat|] == pat {
      var rest := s[|pat|..];
      InsertionCounts(rest, pat, k, ch);
      InsertedOnce(pat, k, ch);
      assert s == pat + rest;
      CountsStep(ReplaceAll(s, pat, rep), rep, ReplaceAll(rest, pat, rep), s, pat, rest,
                 ch, CountMatches(rest, pat), 1);
    } else {
      var rest := s[1..];
      InsertionCounts(rest, pat, k, ch);
      assert s == [s[0]] + rest;
      CountsStep(ReplaceAll(s, pat, rep), [s[0]], ReplaceAll(rest, pat, rep), s, [s[0]], rest,
                 ch, CountMatches(rest, pat), 0);
    }
  }

  /** No occurrence is counted exactly when the pattern does not occur. */
  lemma {:induction false} CountZeroIffAbsent(s: seq<char>, pat: seq<char>)
    requires |pat| > 0
    ensures CountMatches(s, pat) == 0 <==> !Occurs(s, pat)
    decreases |s|
  {
    if |s| < |pat| {
    } else if s[..|pat|] == pat {
      assert MatchesAt(s, pat, 0);
    } else {
      CountZeroIffAbsent(s[1..], pat);
      if Occurs(s[1..], pat) {
        var i :| MatchesAt(s[1..], pat, i);
        MatchesAtShift(s, pat, i);
      }
      if Occurs(s, pat) {
        var i :| MatchesAt(s, pat, i);
        assert i != 0;
        MatchesAtShift(s, pat, i - 1);
      }
    }
  }

  /** When the pattern does not occur, the text comes back unchanged. */
  lemma {:induction false} ReplaceAbsentIsIdentity(s: seq<char>, pat: seq<char>, rep: seq<char>)
    requires |pat| > 0
    requires !Occurs(s, pat)
    ensures ReplaceAll(s, pat, rep) == s
    decreases |s|
  {
    if |s| >= |pat| {
      assert !MatchesAt(s, pat, 0);
      if Occurs(s[1..], pat) {
        var i :| MatchesAt(s[1..], pat, i);
        MatchesAtShift(s, pat, i);
      }
      ReplaceAbsentIsIdentity(s[1..], pat, rep);
      assert s == [s[0]] + s[1..];
    }
  }

  /**
    When `rep` keeps `pat` as a subsequence, the characters of `s` survive
    the rewrite in their original order.
   */
  lemma {:induction false} ReplaceAllKeepsOrder(s: seq<char>, pat: seq<char>, rep: seq<char>)
    requires |pat| > 0
    requires IsSubsequence(pat, rep)
    ensures IsSubsequence(s, ReplaceAll(s, pat, rep))
    decreases |s|
  {
    if |s| < |pat| {
      SubsequenceReflexive(s);
    } else if s[..|pat|] == pat {
      ReplaceAllKeepsOrder(s[|pat|..], pat, rep);
      SubsequenceConcat(pat, rep, s[|pat|..], ReplaceAll(s[|pat|..], pat, rep));
      assert s == pat + s[|pat|..];
    } else {
      ReplaceAllKeepsOrder(s[1..], pat, rep);
      SubsequenceReflexive([s[0]]);
      SubsequenceConcat([s[0]], [s[0]], s[1..], ReplaceAll(s[1..], pat, rep));
      assert s == [s[0]] + s[1..];
    }
  }

  /** A piece `x` in which no match starts passes through the scan unchanged. */
  lemma {:induction false} ReplaceAllSkip(x: seq<char>, y: seq<char>, pat: seq<char>, rep: seq<char>)
    requires |pat| > 0
    requires forall i :: 0 <= i < |x| ==> !MatchesAt(x + y, pat, i)
    ensures ReplaceAll(x + y, pat, rep) == x + ReplaceAll(y, pat, rep)
    decreases |x|
  {
    var s := x + y;
    if |x| == 0 {
      assert s == y;
    } else if |s| < |pat| {
      assert ReplaceAll(y, pat, rep) == y;
    } else {
      assert !MatchesAt(s, pat, 0);
      assert s[1..] == x[1..] + y;
      forall i | 0 <= i < |x[1..]|
        ensures !MatchesAt(x[1..] + y, pat, i)
      {
        MatchesAtShift(s, pat, i);
      }
      ReplaceAllSkip(x[1..], y, pat, rep);
      assert [x[0]] + (x[1..] + ReplaceAll(y, pat, rep)) == x + ReplaceAll(y, pat, rep);
    }
  }

  /**
    A piece that differs from `pat` at its front, and in which the
    character `pat[k]` is missing wherever a later match would need it,
    has no match starting in it.
   */
  lemma NoMatchInWindow(s: seq<char>, pat: seq<char>, n: nat, k: nat)
    requires 0 < n && k < |pat| && n + k <= |s|
    requires |s| < |pat| || s[..|pat|] != pat
    requires pat[k] !in s[k + 1..n + k]
    ensures forall i :: 0 <= i < n ==> !MatchesAt(s, pat, i)
  {
    forall i | 0 <= i < n
      ensures !MatchesAt(s, pat, i)
    {
      if 0 < i {
        assert s[i + k] == s[k + 1..n + k][i - 1];
        if i + |pat| <= |s| {
          assert s[i..i + |pat|][k] == s[i + k];
        }
      }
    }
  }

  lemma ConcatAssoc(a: seq<char>, b: seq<char>, c: seq<char>)
    ensures a + (b + c) == a + b + c
  {
  }

  /**
    `strings.Replace` as Go's loop writes it: the text up to the first match
    is copied, the match becomes `rep`, and the scan resumes right after it.
   */
  lemma ReplaceAllFirstMatch(s: seq<char>, pat: seq<char>, rep: seq<char>, j: nat)
    requires |pat| > 0
    requires MatchesAt(s, pat, j)
    requires forall i :: 0 <= i < j ==> !MatchesAt(s, pat, i)
    ensures ReplaceAll(s, pat, rep) == s[..j] + rep + ReplaceAll(s[j + |pat|..], pat, rep)
  {
    var x, y, z := s[..j], s[j..], s[j + |pat|..];
    assert x + y == s;
    assert y == pat + z by {
      assert y[..|pat|] == s[j..j + |pat|];
    }
    calc {
      ReplaceAll(s, pat, rep);
    == { ReplaceAllSkip(x, y, pat, rep); }
      x + ReplaceAll(y, pat, rep);
    == { ReplaceAllHit(z, pat, rep); }
      x + (rep + ReplaceAll(z, pat, rep));
    == { ConcatAssoc(x, rep, ReplaceAll(z, pat, rep)); }
      x + rep + ReplaceAll(z, pat, rep);
    }
  }

  /** A match at the front is replaced and the scan resumes after it. */
  lemma ReplaceAllHit(y: seq<char>, pat: seq<char>, rep: seq<char>)
    requires |pat| > 0
    ensures ReplaceAll(pat + y, pat, rep) == rep + ReplaceAll(y, pat, rep)
  {
    assert (pat + y)[..|pat|] == pat;
    assert (pat + y)[|pat|..] == y;
  }

  /** Replacing a one-character pattern by nothing is filtering that character out. */
  lemma {:induction false} DeleteIsFilter(s: seq<char>, c: char)
    ensures ReplaceAll(s, [c], []) == Filter(s, c)
    decreases |s|
  {
    if |s| > 0 {
      DeleteIsFilter(s[1..], c);
      assert s[..1] == [s[0]];
    }
  }

  /** Filtering keeps the surviving characters in order. */
  lemma {:induction false} FilterIsSubsequence(s: seq<char>, c: char)
    ensures IsSubsequence(Filter(s, c), s)
    decreases |s|
  {
    if |s| > 0 {
      FilterIsSubsequence(s[1..], c);
      if s[0] == c {
        if |Filter(s, c)| > 0 {
          assert IsSubsequence(Filter(s, c), s[1..]);
        }
      } else {
        assert Filter(s, c)[0] == s[0] && Filter(s, c)[1..] == Filter(s[1..], c);
      }
    }
  }

  /** Filtering both sides keeps a subsequence a subsequence. */
  lemma {:induction false} FilterKeepsSubsequence(a: seq<char>, b: seq<char>, c: char)
    requires IsSubsequence(a, b)
    ensures IsSubsequence(Filter(a, c), Filter(b, c))
    decreases |b|
  {
    if |a| > 0 {
      if a[0] == b[0] && IsSubsequence(a[1..], b[1..]) {
        FilterKeepsSubsequence(a[1..], b[1..], c);
        if a[0] != c {
          assert Filter(a, c)[1..] == Filter(a[1..], c);
          assert Filter(b, c)[1..] == Filter(b[1..], c);
        }
      } else {
        FilterKeepsSubsequence(a, b[1..], c);
        if b[0] != c {
          SubsequenceExtendLeft(Filter(a, c), [b[0]], Filter(b[1..], c));
        }
      }
    }
  }

  /** A text that does not contain `c` is left alone by filtering `c`. */
  lemma {:induction false} FilterAbsent(s: seq<char>, c: char)
    requires c !in s
    ensures Filter(s, c) == s
    decreases |s|
  {
    if |s| > 0 {
      assert c !in s[1..];
      FilterAbsent(s[1..], c);
    }
  }

  /** Filtering twice is filtering once. */
  lemma FilterIdempotent(s: seq<char>, c: char)
    ensures Filter(Filter(s, c), c) == Filter(s, c)
  {
    FilterAbsent(Filter(s, c), c);
  }
}
