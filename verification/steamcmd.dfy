/**
  `appInfoFormat` of the steamcmd package: the text that `steamcmd
  +app_info_print` writes is cut down to the span between the first `{` and
  the last `}`, rewritten by six global replacement passes from the tool's
  brace-and-tab layout into one-line JSON, and accepted only when a JSON
  object parser accepts the result.

  Text is `seq<char>` with one character per byte, so the byte offsets that
  `strings.LastIndex` reports and the rune counts that `trimLength` and
  `reverse` use coincide (ASCII input). The JSON parser is a parameter.
 */
module SteamCmd {
  import opened GoStrings
  import opened Runes

  /** Outcome of formatting: the validated JSON text, or the rejected text that would be logged. */
  datatype Formatted = Valid(text: seq<char>) | InvalidJson(text: seq<char>)

  // ---------------------------------------------------------------------------
  // Brace-boundary extraction
  // ---------------------------------------------------------------------------

  /** `LastIndex` on the reversed text finds the mirror image of the first occurrence. */
  lemma ReversedLastIndex(s: seq<char>, c: char)
    ensures LastIndex(Reversed(s), c) == if c in s then |s| - 1 - Index(s, c) else -1
  {
    var rs := Reversed(s);
    if c in s {
      var p := Index(s, c);
      forall i | |s| - p <= i < |s|
        ensures rs[i] != c
      {
        assert s[..p][|s| - 1 - i] == rs[i];
      }
      assert c !in rs[|s| - p..];
      LastIndexIs(rs, c, |s| - 1 - p);
    } else {
      forall i | 0 <= i < |rs|
        ensures rs[i] != c
      {
        assert rs[i] in s;
      }
    }
  }

  /**
    The leading trim of `appInfoFormat` (`reverse`, `strings.LastIndex`,
    `trimLength`, `reverse`): everything before the first `{` is dropped,
    except that a text whose first `{` is its last character (the index in
    the reversed text is 0) is kept whole.
   */
  function TrimLeading(appInfo: seq<char>): (r: seq<char>)
    ensures var p := Index(appInfo, '{');
      if 0 <= p < |appInfo| - 1 then r == appInfo[p..] else r == appInfo
    ensures |r| <= |appInfo| && r == appInfo[|appInfo| - |r|..]
    ensures r == appInfo <==> (|appInfo| == 0 || appInfo[0] == '{' || '{' !in appInfo[..|appInfo| - 1])
    ensures r != appInfo ==> r[0] == '{' && '{' !in appInfo[..|appInfo| - |r|]
  {
    var firstIndex := LastIndex(Reversed(appInfo), '{');
    ReversedLastIndex(appInfo, '{');
    if firstIndex > 0 then
      ReverseTrimReverse(appInfo, firstIndex + 1);
      Reversed(TrimLength(Reversed(appInfo), firstIndex + 1))
    else
      appInfo
  }

  /**
    The trailing trim of `appInfoFormat` (`strings.LastIndex`, `trimLength`):
    everything after the last `}` is dropped, unless the only `}` is at
    index 0.
   */
  function TrimTrailing(appInfo: seq<char>): (r: seq<char>)
    ensures |r| <= |appInfo| && r == appInfo[..|r|]
    ensures r == appInfo <==> (|appInfo| <= 1 || appInfo[|appInfo| - 1] == '}' || '}' !in appInfo[1..])
    ensures r != appInfo ==> 0 < |r| && r[|r| - 1] == '}' && '}' !in appInfo[|r|..]
  {
    var lastIndex := LastIndex(appInfo, '}');
    if lastIndex > 0 then TrimLength(appInfo, lastIndex + 1) else appInfo
  }

  /**
    The candidate payload, from the first `{` to the last `}`: the two trims
    of `appInfoFormat`, one after the other.
   */
  function ExtractPayload(appInfo: seq<char>): seq<char>
  {
    TrimTrailing(TrimLeading(appInfo))
  }

  /** A first `{` before the last character starts the kept text. */
  lemma TrimLeadingAt(s: seq<char>, p: nat)
    requires p < |s| - 1 && s[p] == '{' && '{' !in s[..p]
    ensures TrimLeading(s) == s[p..]
  {
    IndexIs(s, '{', p);
  }

  /** A last `}` after the first character ends the kept text. */
  lemma TrimTrailingAt(s: seq<char>, q: nat)
    requires 0 < q < |s| && s[q] == '}' && '}' !in s[q + 1..]
    ensures TrimTrailing(s) == s[..q + 1]
  {
    LastIndexIs(s, '}', q);
  }

  /**
    When the first `{` comes before the last `}`, the payload is exactly the
    text from that `{` to that `}`, both included.
   */
  lemma ExtractSpansBraces(s: seq<char>, p: nat, q: nat)
    requires p < q < |s|
    requires s[p] == '{' && '{' !in s[..p]
    requires s[q] == '}' && '}' !in s[q + 1..]
    ensures ExtractPayload(s) == s[p..q + 1]
  {
    TrimLeadingAt(s, p);
    TrimTrailingAfter(s, p, q);
  }

  /** The trailing trim of the text from index `p` on ends at the last `}`. */
  lemma TrimTrailingAfter(s: seq<char>, p: nat, q: nat)
    requires p < q < |s|
    requires s[q] == '}' && '}' !in s[q + 1..]
    ensures TrimTrailing(s[p..]) == s[p..q + 1]
  {
    var t := s[p..];
    assert t[q - p + 1..] == s[q + 1..];
    assert t[..q - p + 1] == s[p..q + 1];
    TrimTrailingAt(t, q - p);
  }

  /**
    A text with no `{` and no `}` passes extraction unchanged: extraction
    never fails, rejection is left to the JSON check.
   */
  lemma ExtractWithoutBraces(s: seq<char>)
    requires '{' !in s && '}' !in s
    ensures ExtractPayload(s) == s
  {
    if |s| > 0 {
      assert '{' !in s[..|s| - 1];
      assert '}' !in s[1..];
    }
  }

  /**
    The guards `> 0` keep log noise that ends in the first `{`, or that
    follows the only `}`, while one more character after the `{` is enough
    for the noise in front to go.
   */
  lemma BoundaryQuirks(noise: seq<char>)
    requires 0 < |noise| && '{' !in noise && '}' !in noise
    ensures TrimLeading(noise + ['{']) == noise + ['{']
    ensures TrimTrailing(['}'] + noise) == ['}'] + noise
    ensures TrimLeading(noise + ['{', '}']) == ['{', '}']
  {
    assert (noise + ['{'])[..|noise|] == noise;
    assert (['}'] + noise)[1..] == noise;
    var s := noise + ['{', '}'];
    assert s[..|noise|] == noise && s[|noise|..] == ['{', '}'];
    TrimLeadingAt(s, |noise|);
  }

  /** The payload of a dump with log noise around one brace-delimited object. */
  lemma ExtractBetweenNoise(before: seq<char>, body: seq<char>, after: seq<char>)
    requires '{' !in before && '}' !in after
    ensures ExtractPayload(before + ['{'] + body + ['}'] + after) == ['{'] + body + ['}']
  {
    var s := before + ['{'] + body + ['}'] + after;
    var p, q := |before|, |before| + 1 + |body|;
    assert s[..p] == before;
    assert s[q + 1..] == after;
    assert s[p..q + 1] == ['{'] + body + ['}'];
    ExtractSpansBraces(s, p, q);
  }

  // ---------------------------------------------------------------------------
  // Rewrite passes
  // ---------------------------------------------------------------------------

  /**
    `r` has one more character than `s` per match of `pat`, keeps the
    characters of `s` in their order, and is `s` itself when `pat` does not
    occur. Where the extra characters go is stated by
    `InsertSeparatorAtFirstMatch`.
   */
  ghost predicate InsertsOnePerMatch(s: seq<char>, r: seq<char>, pat: seq<char>)
    requires |pat| > 0
  {
    && |r| == |s| + CountMatches(s, pat)
    && IsSubsequence(s, r)
    && (!Occurs(s, pat) ==> r == s)
  }

  /** A replacement that inserts one character into the pattern only inserts characters. */
  lemma InsertionPass(s: seq<char>, pat: seq<char>, k: nat, ch: char)
    requires 0 < |pat| && k <= |pat|
    ensures InsertsOnePerMatch(s, ReplaceAll(s, pat, pat[..k] + [ch] + pat[k..]), pat)
  {
    var rep := pat[..k] + [ch] + pat[k..];
    ReplaceAllLength(s, pat, rep);
    InsertionKeepsSubsequence(pat, k, ch);
    ReplaceAllKeepsOrder(s, pat, rep);
    if !Occurs(s, pat) {
      ReplaceAbsentIsIdentity(s, pat, rep);
    }
  }

  /**
    The four `strings.Replace` calls of `appInfoFormat` that add a
    separator. Every occurrence of `pat` gets `ch`
    inserted at offset `k`; the count of `ch` grows by the number of
    matches and every other character keeps its count.
   */
  function InsertSeparator(s: seq<char>, pat: seq<char>, k: nat, ch: char): (r: seq<char>)
    requires 0 < |pat| && k <= |pat|
    ensures InsertsOnePerMatch(s, r, pat)
    ensures forall x :: multiset(r)[x] == multiset(s)[x] + if x == ch then CountMatches(s, pat) else 0
  {
    InsertionPass(s, pat, k, ch);
    InsertionCounts(s, pat, k, ch);
    ReplaceAll(s, pat, pat[..k] + [ch] + pat[k..])
  }

  /**
    Where a separator goes: at offset `k` of the first match, after which
    the pass carries on behind that match. With `InsertsOnePerMatch`, which
    leaves a text without a match unchanged, this fixes the result.
   */
  lemma InsertSeparatorAtFirstMatch(s: seq<char>, pat: seq<char>, k: nat, ch: char, j: nat)
    requires 0 < |pat| && k <= |pat|
    requires MatchesAt(s, pat, j)
    requires forall i :: 0 <= i < j ==> !MatchesAt(s, pat, i)
    ensures InsertSeparator(s, pat, k, ch)
         == s[..j + k] + [ch] + s[j + k..j + |pat|] + InsertSeparator(s[j + |pat|..], pat, k, ch)
  {
    var rep := pat[..k] + [ch] + pat[k..];
    var rest := ReplaceAll(s[j + |pat|..], pat, rep);
    assert s[..j] + rep == s[..j + k] + [ch] + s[j + k..j + |pat|] by {
      assert s[j..j + |pat|] == pat;
      assert s[..j + k] == s[..j] + pat[..k];
      assert s[j + k..j + |pat|] == pat[k..];
    }
    calc {
      InsertSeparator(s, pat, k, ch);
    == { ReplaceAllFirstMatch(s, pat, rep, j); }
      s[..j] + rep + rest;
    ==
      s[..j + k] + [ch] + s[j + k..j + |pat|] + rest;
    }
  }

  /**
    The two `strings.Replace` calls of `appInfoFormat` that delete a
    character. Every `c` goes and the other
    characters stay, in their order.
   */
  function DeleteAll(s: seq<char>, c: char): (r: seq<char>)
    ensures r == Filter(s, c)
    ensures IsSubsequence(r, s)
  {
    DeleteIsFilter(s, c);
    FilterIsSubsequence(s, c);
    ReplaceAll(s, [c], [])
  }

  /** The first `strings.Replace` of `appInfoFormat`: remove tabs. */
  function StripTabs(s: seq<char>): seq<char>
  {
    DeleteAll(s, '\t')
  }

  /**
    `strings.Replace(.., "\"\n{", "\":\n{", -1)`: a `:` goes between a key and
    the newline before its nested object.
   */
  function ColonBeforeObject(s: seq<char>): seq<char>
  {
    InsertSeparator(s, "\"\n{", 1, ':')
  }

  /**
    `strings.Replace(.., "\"\"", "\":\"", -1)`: a `:` goes between a key and
    its adjacent scalar value.
   */
  function ColonBetweenScalars(s: seq<char>): seq<char>
  {
    InsertSeparator(s, "\"\"", 1, ':')
  }

  /**
    `strings.Replace(.., "}\n\"", "},\n\"", -1)`: a `,` goes after a closing
    brace that is followed by another key.
   */
  function CommaAfterObject(s: seq<char>): seq<char>
  {
    InsertSeparator(s, "}\n\"", 1, ',')
  }

  /**
    `strings.Replace(.., "\"\n\"", "\",\n\"", -1)`: a `,` goes after a scalar
    value that is followed by another key.
   */
  function CommaBetweenMembers(s: seq<char>): seq<char>
  {
    InsertSeparator(s, "\"\n\"", 1, ',')
  }

  /** The last `strings.Replace` of `appInfoFormat`: remove newlines. */
  function StripNewlines(s: seq<char>): seq<char>
  {
    DeleteAll(s, '\n')
  }

  /**
    The six passes are the six `strings.Replace` calls of `appInfoFormat`,
    with their literal arguments.
   */
  lemma PassesAreSourceReplacements(s: seq<char>)
    ensures StripTabs(s) == ReplaceAll(s, "\t", "")
    ensures ColonBeforeObject(s) == ReplaceAll(s, "\"\n{", "\":\n{")
    ensures ColonBetweenScalars(s) == ReplaceAll(s, "\"\"", "\":\"")
    ensures CommaAfterObject(s) == ReplaceAll(s, "}\n\"", "},\n\"")
    ensures CommaBetweenMembers(s) == ReplaceAll(s, "\"\n\"", "\",\n\"")
    ensures StripNewlines(s) == ReplaceAll(s, "\n", "")
  {
    assert "\"\n{"[..1] + [':'] + "\"\n{"[1..] == "\":\n{";
    assert "\"\""[..1] + [':'] + "\"\""[1..] == "\":\"";
    assert "}\n\""[..1] + [','] + "}\n\""[1..] == "},\n\"";
    assert "\"\n\""[..1] + [','] + "\"\n\""[1..] == "\",\n\"";
  }

  /** Each deletion pass is idempotent. */
  lemma StripIdempotent(s: seq<char>)
    ensures StripTabs(StripTabs(s)) == StripTabs(s)
    ensures StripNewlines(StripNewlines(s)) == StripNewlines(s)
  {
    FilterIdempotent(s, '\t');
    FilterIdempotent(s, '\n');
  }

  /** The four separator passes, in their order, insert no tab. */
  lemma SeparatorsAddNoTab(s: seq<char>)
    requires '\t' !in s
    ensures '\t' !in CommaBetweenMembers(CommaAfterObject(ColonBetweenScalars(ColonBeforeObject(s))))
  {
    var keyed := ColonBeforeObject(s);
    var paired := ColonBetweenScalars(keyed);
    var closed := CommaAfterObject(paired);
    var listed := CommaBetweenMembers(closed);
    assert multiset(keyed)['\t'] == 0;
    assert multiset(paired)['\t'] == 0;
    assert multiset(closed)['\t'] == 0;
    assert multiset(listed)['\t'] == 0;
  }

  /** The six passes in their fixed order. The result has no tab and no newline. */
  function Rewrite(payload: seq<char>): (r: seq<char>)
    ensures '\t' !in r && '\n' !in r
  {
    var noTabs := StripTabs(payload);
    var listed := CommaBetweenMembers(CommaAfterObject(ColonBetweenScalars(ColonBeforeObject(noTabs))));
    SeparatorsAddNoTab(noTabs);
    var result := StripNewlines(listed);
    assert multiset(result)['\t'] == multiset(listed)['\t'] == 0;
    result
  }

  /**
    The rewrite keeps every character of the payload other than tabs and
    newlines, in order and with its count, and adds nothing but `:` and `,`.
   */
  lemma RewriteKeepsContent(payload: seq<char>)
    ensures IsSubsequence(Filter(Filter(payload, '\t'), '\n'), Rewrite(payload))
    ensures forall x :: x != '\t' && x != '\n' && x != ':' && x != ',' ==>
                        multiset(Rewrite(payload))[x] == multiset(payload)[x]
    ensures forall x :: x in Rewrite(payload) ==> x in payload || x == ':' || x == ','
  {
    var noTabs := StripTabs(payload);
    var keyed := ColonBeforeObject(noTabs);
    var paired := ColonBetweenScalars(keyed);
    var closed := CommaAfterObject(paired);
    var listed := CommaBetweenMembers(closed);
    var result := StripNewlines(listed);
    assert result == Rewrite(payload);
    assert IsSubsequence(noTabs, listed) by {
      SubsequenceTransitive(noTabs, keyed, paired);
      SubsequenceTransitive(noTabs, paired, closed);
      SubsequenceTransitive(noTabs, closed, listed);
    }
    FilterKeepsSubsequence(noTabs, listed, '\n');
    forall x | x != '\t' && x != '\n' && x != ':' && x != ','
      ensures multiset(result)[x] == multiset(payload)[x]
    {
      assert multiset(result)[x] == multiset(listed)[x];
      assert multiset(listed)[x] == multiset(closed)[x] == multiset(paired)[x];
      assert multiset(paired)[x] == multiset(keyed)[x] == multiset(noTabs)[x];
    }
    forall x | x in result
      ensures x in payload || x == ':' || x == ','
    {
      assert multiset(result)[x] > 0;
    }
  }

  /** An empty object passes every rewrite unchanged. */
  lemma RewriteEmptyObject()
    ensures Rewrite(['{', '}']) == ['{', '}']
  {
    var s := ['{', '}'];
    FilterAbsent(s, '\t');
    assert !Occurs(s, "\"\n{") && !Occurs(s, "\"\"") && !Occurs(s, "}\n\"") && !Occurs(s, "\"\n\"");
    ReplaceAbsentIsIdentity(s, "\"\n{", "\":\n{");
    ReplaceAbsentIsIdentity(s, "\"\"", "\":\"");
    ReplaceAbsentIsIdentity(s, "}\n\"", "},\n\"");
    ReplaceAbsentIsIdentity(s, "\"\n\"", "\",\n\"");
    FilterAbsent(s, '\n');
  }

  // ---------------------------------------------------------------------------
  // Validation gate
  // ---------------------------------------------------------------------------

  /**
    `appInfoFormat`: extraction, rewriting and the JSON-object check. A text
    the check rejects is reported whole as a failure, never returned as a
    partial result.
   */
  function AppInfoFormat(appInfo: seq<char>, isJson: seq<char> -> bool): (r: Formatted)
    ensures r.text == Rewrite(ExtractPayload(appInfo))
    ensures r.Valid? <==> isJson(r.text)
    ensures '\t' !in r.text && '\n' !in r.text
  {
    var result := Rewrite(ExtractPayload(appInfo));
    if !isJson(result) then InvalidJson(result) else Valid(result)
  }
}
