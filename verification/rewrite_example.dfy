/**
  The rewrite passes on a small two-level dump, pass by pass. The keys
  `a`, `b`, `c` and the values `one`, `two` are single characters, any that
  are not quotes, braces, tabs or newlines. With keys `a`, `b`, `c` and
  values `1`, `2`, the payload

      {"a""1"
      "b"
      {
      "c""2"
      }
      }

  becomes `{"a":"1","b":{"c":"2"}}`: a colon between a key and its
  scalar value, a colon between a key and its nested object, and a comma
  between consecutive members. Each pass is proved by cutting its input
  into pieces that either are a match (`ReplaceAllHit`) or contain no
  match (`SkipStep`) and rewriting them from the last piece to the first;
  a companion lemma ties the cut-up text back to the flat one.
 */
module RewriteExamples {
  import opened GoStrings
  import opened SteamCmd

  /** A character that none of the rewrite patterns mentions. */
  predicate Plain(ch: char)
  {
    ch != '"' && ch != '\n' && ch != '\t' && ch != '{' && ch != '}'
  }

  /**
    A piece `h + w` with no match starting inside it passes through a
    replacement pass unchanged. No match starts at its front because the
    text differs from the pattern at offset `m`; none starts later because
    the pattern's character at offset `k` occurs neither in `w` nor in the
    first `k` characters after the piece, where such a match would need it.
   */
  lemma SkipStep(h: seq<char>, w: seq<char>, y: seq<char>, ey: seq<char>, pat: seq<char>, rep: seq<char>, k: nat, m: nat)
    requires |pat| > 0 && k < |pat| && |h| == k + 1 && k <= |y|
    requires |h + w + y| < |pat| || (m < |pat| && m < |h + w + y| && (h + w + y)[m] != pat[m])
    requires pat[k] !in w
    requires forall j :: 0 <= j < k ==> y[j] != pat[k]
    requires ReplaceAll(y, pat, rep) == ey
    ensures ReplaceAll(h + w + y, pat, rep) == h + w + ey
  {
    var x, s := h + w, h + w + y;
    assert |s| < |pat| || s[..|pat|] != pat by {
      if |s| >= |pat| {
        assert s[..|pat|][m] == s[m];
      }
    }
    assert pat[k] !in s[k + 1..|x| + k] by {
      assert s[k + 1..|x| + k] == w + y[..k];
    }
    NoMatchInWindow(s, pat, |x|, k);
    ReplaceAllSkip(x, y, pat, rep);
    assert x + ReplaceAll(y, pat, rep) == h + w + ey;
  }

  /** The tab-stripping pass on the two-level dump: it has no tabs, so nothing changes. */
  lemma StripTabsExample(a: char, one: char, b: char, c: char, two: char)
    requires Plain(a) && Plain(one) && Plain(b) && Plain(c) && Plain(two)
    ensures StripTabs(['{', '"', a, '"', '"', one, '"', '\n', '"', b, '"', '\n', '{', '\n', '"', c, '"', '"', two, '"', '\n', '}', '\n', '}'])
         == ['{', '"', a, '"', '"', one, '"', '\n', '"', b, '"', '\n', '{', '\n', '"', c, '"', '"', two, '"', '\n', '}', '\n', '}']
  {
    FilterAbsent(['{', '"', a, '"', '"', one, '"', '\n', '"', b, '"', '\n', '{', '\n', '"', c, '"', '"', two, '"', '\n', '}', '\n', '}'], '\t');
  }

  /**
    The dump before and after the pass that adds `:` before a nested object,
    cut at the pieces of its proof.
   */
  lemma ColonBeforeObjectExamplePieces(a: char, one: char, b: char, c: char, two: char)
    ensures ['{', '"', a, '"', '"', one, '"', '\n', '"', b, '"', '\n', '{', '\n', '"', c, '"', '"', two, '"', '\n', '}', '\n', '}']
         == ['{', '"', a] + ['"', '"', one, '"', '\n', '"', b] + ("\"\n{" + (['\n', '"', c] + ['"', '"', two, '"', '\n', '}'] + (['\n', '}'])))
    ensures ['{', '"', a, '"', '"', one, '"', '\n', '"', b, '"', ':', '\n', '{', '\n', '"', c, '"', '"', two, '"', '\n', '}', '\n', '}']
         == ['{', '"', a] + ['"', '"', one, '"', '\n', '"', b] + ("\":\n{" + (['\n', '"', c] + ['"', '"', two, '"', '\n', '}'] + (['\n', '}'])))
  {
  }

  /**
    The pass that adds `:` before a nested object, on the two-level dump: a
    colon after the key of the nested object.
   */
  lemma ColonBeforeObjectExample(a: char, one: char, b: char, c: char, two: char)
    requires Plain(a) && Plain(one) && Plain(b) && Plain(c) && Plain(two)
    ensures ReplaceAll(['{', '"', a, '"', '"', one, '"', '\n', '"', b, '"', '\n', '{', '\n', '"', c, '"', '"', two, '"', '\n', '}', '\n', '}'], "\"\n{", "\":\n{")
         == ['{', '"', a, '"', '"', one, '"', '\n', '"', b, '"', ':', '\n', '{', '\n', '"', c, '"', '"', two, '"', '\n', '}', '\n', '}']
  {
    var p, r := "\"\n{", "\":\n{";
    var t3 := ['\n', '}'];
    var e3 := t3;
    assert ReplaceAll(t3, p, r) == e3;
    var h2, w2 := ['\n', '"', c], ['"', '"', two, '"', '\n', '}'];
    var t2, e2 := h2 + w2 + t3, h2 + w2 + e3;
    SkipStep(h2, w2, t3, e3, p, r, 2, 0);
    var t1, e1 := p + t2, r + e2;
    ReplaceAllHit(t2, p, r);
    var h0, w0 := ['{', '"', a], ['"', '"', one, '"', '\n', '"', b];
    var t0, e0 := h0 + w0 + t1, h0 + w0 + e1;
    SkipStep(h0, w0, t1, e1, p, r, 2, 0);
    ColonBeforeObjectExamplePieces(a, one, b, c, two);
  }

  /**
    The dump before and after the pass that adds `:` between a key and its
    value, cut at the pieces of its proof.
   */
  lemma ColonBetweenScalarsExamplePieces(a: char, one: char, b: char, c: char, two: char)
    ensures ['{', '"', a, '"', '"', one, '"', '\n', '"', b, '"', ':', '\n', '{', '\n', '"', c, '"', '"', two, '"', '\n', '}', '\n', '}']
         == ['{', '"'] + [] + ([a] + [] + ("\"\"" + ([one, '"'] + [] + (['\n', '"'] + [] + ([b, '"'] + [':', '\n', '{'] + (['\n', '"'] + [] + ([c] + [] + ("\"\"" + ([two, '"'] + ['\n', '}', '\n'] + (['}']))))))))))
    ensures ['{', '"', a, '"', ':', '"', one, '"', '\n', '"', b, '"', ':', '\n', '{', '\n', '"', c, '"', ':', '"', two, '"', '\n', '}', '\n', '}']
         == ['{', '"'] + [] + ([a] + [] + ("\":\"" + ([one, '"'] + [] + (['\n', '"'] + [] + ([b, '"'] + [':', '\n', '{'] + (['\n', '"'] + [] + ([c] + [] + ("\":\"" + ([two, '"'] + ['\n', '}', '\n'] + (['}']))))))))))
  {
  }

  /**
    The pass that adds `:` between a key and its value, on the two-level dump:
    a colon between each key and its scalar value.
   */
  lemma ColonBetweenScalarsExample(a: char, one: char, b: char, c: char, two: char)
    requires Plain(a) && Plain(one) && Plain(b) && Plain(c) && Plain(two)
    ensures ReplaceAll(['{', '"', a, '"', '"', one, '"', '\n', '"', b, '"', ':', '\n', '{', '\n', '"', c, '"', '"', two, '"', '\n', '}', '\n', '}'], "\"\"", "\":\"")
         == ['{', '"', a, '"', ':', '"', one, '"', '\n', '"', b, '"', ':', '\n', '{', '\n', '"', c, '"', ':', '"', two, '"', '\n', '}', '\n', '}']
  {
    var p, r := "\"\"", "\":\"";
    var t10 := ['}'];
    var e10 := t10;
    assert ReplaceAll(t10, p, r) == e10;
    var h9, w9 := [two, '"'], ['\n', '}', '\n'];
    var t9, e9 := h9 + w9 + t10, h9 + w9 + e10;
    SkipStep(h9, w9, t10, e10, p, r, 1, 0);
    var t8, e8 := p + t9, r + e9;
    ReplaceAllHit(t9, p, r);
    var h7, w7 := [c], [];
    var t7, e7 := h7 + w7 + t8, h7 + w7 + e8;
    SkipStep(h7, w7, t8, e8, p, r, 0, 0);
    var h6, w6 := ['\n', '"'], [];
    var t6, e6 := h6 + w6 + t7, h6 + w6 + e7;
    SkipStep(h6, w6, t7, e7, p, r, 1, 0);
    var h5, w5 := [b, '"'], [':', '\n', '{'];
    var t5, e5 := h5 + w5 + t6, h5 + w5 + e6;
    SkipStep(h5, w5, t6, e6, p, r, 1, 0);
    var h4, w4 := ['\n', '"'], [];
    var t4, e4 := h4 + w4 + t5, h4 + w4 + e5;
    SkipStep(h4, w4, t5, e5, p, r, 1, 0);
    var h3, w3 := [one, '"'], [];
    var t3, e3 := h3 + w3 + t4, h3 + w3 + e4;
    SkipStep(h3, w3, t4, e4, p, r, 1, 0);
    var t2, e2 := p + t3, r + e3;
    ReplaceAllHit(t3, p, r);
    var h1, w1 := [a], [];
    var t1, e1 := h1 + w1 + t2, h1 + w1 + e2;
    SkipStep(h1, w1, t2, e2, p, r, 0, 0);
    var h0, w0 := ['{', '"'], [];
    var t0, e0 := h0 + w0 + t1, h0 + w0 + e1;
    SkipStep(h0, w0, t1, e1, p, r, 1, 0);
    ColonBetweenScalarsExamplePieces(a, one, b, c, two);
  }

  /**
    The dump before and after the pass that adds `,` after a nested object,
    cut at the pieces of its proof.
   */
  lemma CommaAfterObjectExamplePieces(a: char, one: char, b: char, c: char, two: char)
    ensures ['{', '"', a, '"', ':', '"', one, '"', '\n', '"', b, '"', ':', '\n', '{', '\n', '"', c, '"', ':', '"', two, '"', '\n', '}', '\n', '}']
         == ['{'] + ['"', a, '"', ':', '"', one, '"', '\n', '"', b, '"', ':', '\n', '{', '\n', '"', c, '"', ':', '"', two, '"', '\n'] + (['}'] + ['\n'] + (['}']))
  {
  }

  /**
    The pass that adds `,` after a nested object, on the two-level dump: no
    closing brace is followed by a key, so nothing changes.
   */
  lemma CommaAfterObjectExample(a: char, one: char, b: char, c: char, two: char)
    requires Plain(a) && Plain(one) && Plain(b) && Plain(c) && Plain(two)
    ensures ReplaceAll(['{', '"', a, '"', ':', '"', one, '"', '\n', '"', b, '"', ':', '\n', '{', '\n', '"', c, '"', ':', '"', two, '"', '\n', '}', '\n', '}'], "}\n\"", "},\n\"")
         == ['{', '"', a, '"', ':', '"', one, '"', '\n', '"', b, '"', ':', '\n', '{', '\n', '"', c, '"', ':', '"', two, '"', '\n', '}', '\n', '}']
  {
    var p, r := "}\n\"", "},\n\"";
    var t2 := ['}'];
    var e2 := t2;
    assert ReplaceAll(t2, p, r) == e2;
    var h1, w1 := ['}'], ['\n'];
    var t1, e1 := h1 + w1 + t2, h1 + w1 + e2;
    SkipStep(h1, w1, t2, e2, p, r, 0, 2);
    var h0, w0 := ['{'], ['"', a, '"', ':', '"', one, '"', '\n', '"', b, '"', ':', '\n', '{', '\n', '"', c, '"', ':', '"', two, '"', '\n'];
    var t0, e0 := h0 + w0 + t1, h0 + w0 + e1;
    SkipStep(h0, w0, t1, e1, p, r, 0, 0);
    CommaAfterObjectExamplePieces(a, one, b, c, two);
  }

  /**
    The dump before and after the pass that adds `,` after a scalar member,
    cut at the pieces of its proof.
   */
  lemma CommaBetweenMembersExamplePieces(a: char, one: char, b: char, c: char, two: char)
    ensures ['{', '"', a, '"', ':', '"', one, '"', '\n', '"', b, '"', ':', '\n', '{', '\n', '"', c, '"', ':', '"', two, '"', '\n', '}', '\n', '}']
         == ['{', '"'] + [a, '"', ':', '"', one] + ("\"\n\"" + ([b, '"', ':'] + ['\n'] + (['{', '\n'] + ['"', c, '"', ':', '"', two] + (['"'] + ['\n', '}', '\n', '}'] + []))))
    ensures ['{', '"', a, '"', ':', '"', one, '"', ',', '\n', '"', b, '"', ':', '\n', '{', '\n', '"', c, '"', ':', '"', two, '"', '\n', '}', '\n', '}']
         == ['{', '"'] + [a, '"', ':', '"', one] + ("\",\n\"" + ([b, '"', ':'] + ['\n'] + (['{', '\n'] + ['"', c, '"', ':', '"', two] + (['"'] + ['\n', '}', '\n', '}'] + []))))
  {
  }

  /**
    The pass that adds `,` after a scalar member, on the two-level dump: a
    comma between the scalar member and the next key.
   */
  lemma CommaBetweenMembersExample(a: char, one: char, b: char, c: char, two: char)
    requires Plain(a) && Plain(one) && Plain(b) && Plain(c) && Plain(two)
    ensures ReplaceAll(['{', '"', a, '"', ':', '"', one, '"', '\n', '"', b, '"', ':', '\n', '{', '\n', '"', c, '"', ':', '"', two, '"', '\n', '}', '\n', '}'], "\"\n\"", "\",\n\"")
         == ['{', '"', a, '"', ':', '"', one, '"', ',', '\n', '"', b, '"', ':', '\n', '{', '\n', '"', c, '"', ':', '"', two, '"', '\n', '}', '\n', '}']
  {
    var p, r := "\"\n\"", "\",\n\"";
    var h4, w4 := ['"'], ['\n', '}', '\n', '}'];
    var t4, e4 := h4 + w4 + [], h4 + w4 + [];
    SkipStep(h4, w4, [], [], p, r, 0, 2);
    var h3, w3 := ['{', '\n'], ['"', c, '"', ':', '"', two];
    var t3, e3 := h3 + w3 + t4, h3 + w3 + e4;
    SkipStep(h3, w3, t4, e4, p, r, 1, 0);
    var h2, w2 := [b, '"', ':'], ['\n'];
    var t2, e2 := h2 + w2 + t3, h2 + w2 + e3;
    SkipStep(h2, w2, t3, e3, p, r, 2, 0);
    var t1, e1 := p + t2, r + e2;
    ReplaceAllHit(t2, p, r);
    var h0, w0 := ['{', '"'], [a, '"', ':', '"', one];
    var t0, e0 := h0 + w0 + t1, h0 + w0 + e1;
    SkipStep(h0, w0, t1, e1, p, r, 1, 0);
    CommaBetweenMembersExamplePieces(a, one, b, c, two);
  }

  /** The dump before and after the newline-stripping pass, cut at the pieces of its proof. */
  lemma StripNewlinesExamplePieces(a: char, one: char, b: char, c: char, two: char)
    ensures ['{', '"', a, '"', ':', '"', one, '"', ',', '\n', '"', b, '"', ':', '\n', '{', '\n', '"', c, '"', ':', '"', two, '"', '\n', '}', '\n', '}']
         == ['{'] + ['"', a, '"', ':', '"', one, '"', ','] + ("\n" + (['"'] + [b, '"', ':'] + ("\n" + (['{'] + [] + ("\n" + (['"'] + [c, '"', ':', '"', two, '"'] + ("\n" + (['}'] + [] + ("\n" + (['}'] + [] + []))))))))))
    ensures ['{', '"', a, '"', ':', '"', one, '"', ',', '"', b, '"', ':', '{', '"', c, '"', ':', '"', two, '"', '}', '}']
         == ['{'] + ['"', a, '"', ':', '"', one, '"', ','] + ("" + (['"'] + [b, '"', ':'] + ("" + (['{'] + [] + ("" + (['"'] + [c, '"', ':', '"', two, '"'] + ("" + (['}'] + [] + ("" + (['}'] + [] + []))))))))))
  {
  }

  /** The newline-stripping pass on the two-level dump: the remaining layout newlines go. */
  lemma StripNewlinesExample(a: char, one: char, b: char, c: char, two: char)
    requires Plain(a) && Plain(one) && Plain(b) && Plain(c) && Plain(two)
    ensures ReplaceAll(['{', '"', a, '"', ':', '"', one, '"', ',', '\n', '"', b, '"', ':', '\n', '{', '\n', '"', c, '"', ':', '"', two, '"', '\n', '}', '\n', '}'], "\n", "")
         == ['{', '"', a, '"', ':', '"', one, '"', ',', '"', b, '"', ':', '{', '"', c, '"', ':', '"', two, '"', '}', '}']
  {
    var p, r := "\n", "";
    var h10, w10 := ['}'], [];
    var t10, e10 := h10 + w10 + [], h10 + w10 + [];
    SkipStep(h10, w10, [], [], p, r, 0, 0);
    var t9, e9 := p + t10, r + e10;
    ReplaceAllHit(t10, p, r);
    var h8, w8 := ['}'], [];
    var t8, e8 := h8 + w8 + t9, h8 + w8 + e9;
    SkipStep(h8, w8, t9, e9, p, r, 0, 0);
    var t7, e7 := p + t8, r + e8;
    ReplaceAllHit(t8, p, r);
    var h6, w6 := ['"'], [c, '"', ':', '"', two, '"'];
    var t6, e6 := h6 + w6 + t7, h6 + w6 + e7;
    SkipStep(h6, w6, t7, e7, p, r, 0, 0);
    var t5, e5 := p + t6, r + e6;
    ReplaceAllHit(t6, p, r);
    var h4, w4 := ['{'], [];
    var t4, e4 := h4 + w4 + t5, h4 + w4 + e5;
    SkipStep(h4, w4, t5, e5, p, r, 0, 0);
    var t3, e3 := p + t4, r + e4;
    ReplaceAllHit(t4, p, r);
    var h2, w2 := ['"'], [b, '"', ':'];
    var t2, e2 := h2 + w2 + t3, h2 + w2 + e3;
    SkipStep(h2, w2, t3, e3, p, r, 0, 0);
    var t1, e1 := p + t2, r + e2;
    ReplaceAllHit(t2, p, r);
    var h0, w0 := ['{'], ['"', a, '"', ':', '"', one, '"', ','];
    var t0, e0 := h0 + w0 + t1, h0 + w0 + e1;
    SkipStep(h0, w0, t1, e1, p, r, 0, 0);
    StripNewlinesExamplePieces(a, one, b, c, two);
  }

  /** The whole rewrite of the two-level dump. */
  lemma RewriteExample(a: char, one: char, b: char, c: char, two: char)
    requires Plain(a) && Plain(one) && Plain(b) && Plain(c) && Plain(two)
    ensures Rewrite(['{', '"', a, '"', '"', one, '"', '\n', '"', b, '"', '\n', '{', '\n', '"', c, '"', '"', two, '"', '\n', '}', '\n', '}'])
         == ['{', '"', a, '"', ':', '"', one, '"', ',', '"', b, '"', ':', '{', '"', c, '"', ':', '"', two, '"', '}', '}']
  {
    var s0 := ['{', '"', a, '"', '"', one, '"', '\n', '"', b, '"', '\n', '{', '\n', '"', c, '"', '"', two, '"', '\n', '}', '\n', '}'];
    var s1 := ['{', '"', a, '"', '"', one, '"', '\n', '"', b, '"', ':', '\n', '{', '\n', '"', c, '"', '"', two, '"', '\n', '}', '\n', '}'];
    var s2 := ['{', '"', a, '"', ':', '"', one, '"', '\n', '"', b, '"', ':', '\n', '{', '\n', '"', c, '"', ':', '"', two, '"', '\n', '}', '\n', '}'];
    var s3 := ['{', '"', a, '"', ':', '"', one, '"', '\n', '"', b, '"', ':', '\n', '{', '\n', '"', c, '"', ':', '"', two, '"', '\n', '}', '\n', '}'];
    var s4 := ['{', '"', a, '"', ':', '"', one, '"', ',', '\n', '"', b, '"', ':', '\n', '{', '\n', '"', c, '"', ':', '"', two, '"', '\n', '}', '\n', '}'];
    StripTabsExample(a, one, b, c, two);
    ColonBeforeObjectExample(a, one, b, c, two);
    PassesAreSourceReplacements(s0);
    ColonBetweenScalarsExample(a, one, b, c, two);
    PassesAreSourceReplacements(s1);
    CommaAfterObjectExample(a, one, b, c, two);
    PassesAreSourceReplacements(s2);
    CommaBetweenMembersExample(a, one, b, c, two);
    PassesAreSourceReplacements(s3);
    StripNewlinesExample(a, one, b, c, two);
    PassesAreSourceReplacements(s4);
  }
}
