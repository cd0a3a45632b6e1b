/**
  The two rune helpers of the steamcmd package: `reverse`, which swaps the
  runes of a string end for end, and `trimLength`, which keeps at most the
  first `i` runes. Text is `seq<char>` with one character per rune.
 */
module Runes {

  /** `s` read back to front: the reference meaning of `reverse`. */
  function Reversed(s: seq<char>): (r: seq<char>)
    ensures |r| == |s|
    ensures forall i :: 0 <= i < |s| ==> r[i] == s[|s| - 1 - i]
  {
    seq(|s|, i requires 0 <= i < |s| => s[|s| - 1 - i])
  }

  /** Reversing twice gives the text back. */
  lemma ReversedInvolution(s: seq<char>)
    ensures Reversed(Reversed(s)) == s
  {
    assert forall i :: 0 <= i < |s| ==> Reversed(Reversed(s))[i] == s[i];
  }

  /**
    The swap loop of `reverse`: `i` runs up from the front and `j` down from
    the back until they meet, exchanging the two runes at each step.
   */
  method Reverse(s: seq<char>) returns (r: seq<char>)
    ensures r == Reversed(s)
  {
    r := s;
    var i, j := 0, |r| - 1;
    while i < |r| / 2
      invariant |r| == |s|
      invariant 0 <= i <= |s| / 2
      invariant j == |s| - 1 - i
      invariant forall k :: 0 <= k < i ==> r[k] == s[|s| - 1 - k] && r[|s| - 1 - k] == s[k]
      invariant forall k :: i <= k < |s| - i ==> r[k] == s[k]
    {
      r := r[i := r[j]][j := r[i]];
      i, j := i + 1, j - 1;
    }
  }

  /** `trimLength`: the first `i` runes of `s`, or all of `s` when it is no longer than `i`. */
  function TrimLength(s: seq<char>, i: nat): (r: seq<char>)
    ensures |r| == if |s| < i then |s| else i
    ensures r == s[..|r|]
    ensures |s| <= i ==> r == s
  {
    if |s| > i then s[..i] else s
  }

  /** Reversing the first `n` runes of the reversed text gives the last `n` runes. */
  lemma ReversedPrefixOfReversed(s: seq<char>, n: nat)
    requires n <= |s|
    ensures Reversed(Reversed(s)[..n]) == s[|s| - n..]
  {
    var t := Reversed(s)[..n];
    forall k | 0 <= k < n
      ensures Reversed(t)[k] == s[|s| - n..][k]
    {
      assert Reversed(t)[k] == t[n - 1 - k];
    }
  }

  /** Reversing, keeping the first `n` runes and reversing back keeps the last `n` runes. */
  lemma ReverseTrimReverse(s: seq<char>, n: nat)
    requires n <= |s|
    ensures Reversed(TrimLength(Reversed(s), n)) == s[|s| - n..]
  {
    assert TrimLength(Reversed(s), n) == Reversed(s)[..n];
    ReversedPrefixOfReversed(s, n);
  }
}
