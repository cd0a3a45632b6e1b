# steamcmd app-info formatter in Dafny

This project models the formatter in the steamcmd package of steamer.
`steamcmd +app_info_print` prints a brace-and-tab text dump describing a
title. The formatter, `appInfoFormat`, turns that dump into one line of
JSON in three stages:

1. **Extraction.** Everything before the first `{` and after the last `}` is
   cut away. This uses `reverse`, `trimLength` and `strings.LastIndex`.
   The cut is heuristic: braces are not matched, and this stage never fails.
   Two guards (`> 0`) make the boundaries quirky. The model keeps both quirks.
2. **Rewriting.** Six global `strings.Replace(..., -1)` passes run in a fixed
   order:
   - strip tabs;
   - add a `:` after a key followed by an object;
   - add a `:` between a key and its scalar value;
   - add a `,` after an object followed by a key;
   - add a `,` after a scalar followed by a key;
   - strip newlines.
3. **Validation.** The text is accepted only if a JSON object parser accepts
   it. Otherwise the program logs the text and exits. The model returns a
   failure value carrying the text instead.

Files:

- `go_strings.dfy` (module `GoStrings`) holds the parts of Go's `strings`
  package that the formatter uses:
  - `LastIndex` with a one-character pattern;
  - `ReplaceAll`: `strings.Replace(s, old, new, -1)` with Go's scan, which is
    leftmost first, non-overlapping, left to right, with a non-empty pattern;
  - `CountMatches`: `strings.Count`.

  It also holds the reference notions the contracts use (first occurrence,
  `Occurs`, `Filter`, `IsSubsequence`) and the lemmas relating them.
- `runes.dfy` (module `Runes`) holds `reverse` and `trimLength`. `reverse` is
  the swap loop as a method, proved equal to the reference `Reversed`.
- `steamcmd.dfy` (module `SteamCmd`) holds the extraction, the six passes,
  their composition `Rewrite`, and the gate `AppInfoFormat`.
- `rewrite_example.dfy` (module `RewriteExamples`) works a two-level dump
  through every pass. Its keys and values are single characters, any that
  are not quotes, braces, tabs or newlines. With keys `a`, `b`, `c` and
  values `1`, `2` the result is `{"a":"1","b":{"c":"2"}}`.

Text is `seq<char>` with one character per byte. This is an ASCII
assumption: under it, the byte offsets that `strings.LastIndex` reports
equal the rune counts that `trimLength` and `reverse` use. The JSON object
check (`isJSON`, which calls `encoding/json`) is a parameter of
`AppInfoFormat` with type `seq<char> -> bool`.

Extraction never fails: a text without `{` or `}` passes unchanged, and
only the JSON gate can reject it (`SteamCmd.ExtractWithoutBraces`,
`SteamCmd.BoundaryQuirks`).

## Model

| member | source | states |
|---|---|---|
| GoStrings.ReplaceAll | steamcmd/steamcmd.go:97-108 | `strings.Replace(s, old, new, -1)` with a non-empty pattern. It has no contract of its own; its behaviour is stated by `ReplaceAllFirstMatch` and `ReplaceAbsentIsIdentity` (together they fix the result), and by `ReplaceAllLength`, `InsertionCounts`, `ReplaceAllKeepsOrder` and `DeleteIsFilter` |
| GoStrings.CountMatches | steamcmd/steamcmd.go:100-105 | the number of replacements one pass makes. It has no contract of its own; `CountZeroIffAbsent` ties it to occurrence, and `ReplaceAllLength` and `InsertionCounts` use it to measure a pass |
| GoStrings.LastIndex | steamcmd/steamcmd.go:88 | the index of the last `}` (in general the last `c`), or -1 exactly when `c` does not occur; the character there is `c` and no `c` follows it |
| GoStrings.ReplaceAllLength | steamcmd/steamcmd.go:100-105 | each replacement pass changes the length by the number of non-overlapping matches times the difference between replacement and pattern lengths |
| GoStrings.InsertionCounts | steamcmd/steamcmd.go:100-105 | a replacement that inserts a character into its pattern adds that character once per match and leaves the count of every other character unchanged |
| GoStrings.CountZeroIffAbsent | steamcmd/steamcmd.go:100-105 | a pass finds no match exactly when the pattern occurs nowhere in the text |
| GoStrings.ReplaceAbsentIsIdentity | steamcmd/steamcmd.go:100-105 | a pass whose pattern does not occur returns the text unchanged |
| GoStrings.ReplaceAllKeepsOrder | steamcmd/steamcmd.go:100-105 | when the pattern is a subsequence of its replacement, the input is a subsequence of the output, so the original characters keep their relative order |
| GoStrings.ReplaceAllSkip | steamcmd/steamcmd.go:97-108 | the left-to-right scan copies a prefix in which no match starts and continues with the rest |
| GoStrings.ReplaceAllFirstMatch | steamcmd/steamcmd.go:97-108 | `strings.Replace` in the form of Go's loop: the text before the first match is copied, the match becomes the replacement, and the scan resumes right after the match |
| GoStrings.ReplaceAllHit | steamcmd/steamcmd.go:97-108 | a match at the scan position is replaced and the scan resumes after it, so matches do not overlap |
| GoStrings.DeleteIsFilter | steamcmd/steamcmd.go:97 | replacing a one-character pattern by nothing removes every occurrence of that character and keeps everything else |
| GoStrings.FilterIsSubsequence | steamcmd/steamcmd.go:108 | removing a character keeps the remaining characters in order |
| GoStrings.FilterKeepsSubsequence | steamcmd/steamcmd.go:108 | removing newlines from both sides keeps a subsequence a subsequence, so the order the earlier passes keep survives the last pass |
| GoStrings.FilterAbsent | steamcmd/steamcmd.go:97 | removing a character that does not occur changes nothing |
| GoStrings.FilterIdempotent | steamcmd/steamcmd.go:108 | removing the same character twice is removing it once |
| Runes.Reverse | steamcmd/steamcmd.go:179-185 | the swap loop returns the runes back to front: same length, rune `i` of the result is rune `|s|-1-i` of the input |
| Runes.ReversedInvolution | steamcmd/steamcmd.go:179-185 | reversing twice gives the text back |
| Runes.TrimLength | steamcmd/steamcmd.go:171-177 | the result is a prefix of `s` of length min(|s|, i), and it is `s` itself when `s` is no longer than `i` |
| Runes.ReverseTrimReverse | steamcmd/steamcmd.go:84 | reverse, keep `n` runes, reverse back keeps the last `n` runes of the text |
| SteamCmd.ReversedLastIndex | steamcmd/steamcmd.go:82 | the last index of `{` in the reversed text mirrors the first index of `{` in the text, and both are absent together |
| SteamCmd.TrimLeading | steamcmd/steamcmd.go:81-85 | with the first `{` at `p < |s|-1` the result is `s[p..]`, otherwise `s`; the result is a suffix; it equals `s` exactly when `s` is empty, starts with `{`, or has no `{` before its last character; a changed result starts with `{` and no `{` was cut off |
| SteamCmd.TrimTrailing | steamcmd/steamcmd.go:87-91 | the result is a prefix; it equals `s` exactly when `s` has at most one character, ends with `}`, or has no `}` after index 0; a changed result ends with `}` and no `}` was cut off |
| SteamCmd.ExtractPayload | steamcmd/steamcmd.go:81-91 | the two trims, one after the other. It has no contract of its own; `ExtractSpansBraces`, `ExtractBetweenNoise`, `ExtractWithoutBraces` and `BoundaryQuirks` state what it returns |
| SteamCmd.TrimLeadingAt | steamcmd/steamcmd.go:81-85 | a first `{` before the last character starts the kept text |
| SteamCmd.TrimTrailingAt | steamcmd/steamcmd.go:87-91 | a last `}` after index 0 ends the kept text |
| SteamCmd.ExtractSpansBraces | steamcmd/steamcmd.go:81-91 | when the first `{` precedes the last `}`, the payload is exactly the span from that `{` to that `}` |
| SteamCmd.ExtractBetweenNoise | steamcmd/steamcmd.go:81-91 | log noise without `{` before the object and without `}` after it is cut away, whatever the object contains |
| SteamCmd.ExtractWithoutBraces | steamcmd/steamcmd.go:81-91 | a text with no braces passes extraction unchanged: extraction never fails |
| SteamCmd.BoundaryQuirks | steamcmd/steamcmd.go:83-89 | noise ending in the only `{` is kept whole; noise after a `}` at index 0 is kept whole; one character after the `{` is enough for the noise to go |
| SteamCmd.InsertionPass | steamcmd/steamcmd.go:100-105 | a pass whose replacement is its pattern with one character inserted grows the text by one character per match, keeps the original characters in order, and changes nothing when there is no match |
| SteamCmd.InsertSeparator | steamcmd/steamcmd.go:100-105 | a separator pass adds one character per match and keeps the original characters in order; the separator's count grows by the number of matches, every other character keeps its count, and a text without a match is unchanged |
| SteamCmd.InsertSeparatorAtFirstMatch | steamcmd/steamcmd.go:100-105 | the separator goes at offset `k` of the first match, and the pass carries on right after that match; with `InsertSeparator`'s no-match case this fixes where every separator goes |
| SteamCmd.DeleteAll | steamcmd/steamcmd.go:97-108 | a deletion pass is filtering out its character: it removes every occurrence and keeps the other characters in order |
| SteamCmd.StripTabs | steamcmd/steamcmd.go:97 | the tab-removing `strings.Replace`. It has no contract of its own; `PassesAreSourceReplacements` ties it to the literal call, and `DeleteAll` states what it returns: the text with every tab removed and the other characters in order |
| SteamCmd.ColonBeforeObject | steamcmd/steamcmd.go:100 | the `strings.Replace` that puts `:` between a key and its nested object. It has no contract of its own; `PassesAreSourceReplacements` ties it to the literal call, and `InsertSeparator` and `InsertSeparatorAtFirstMatch` state what it returns |
| SteamCmd.ColonBetweenScalars | steamcmd/steamcmd.go:101 | the `strings.Replace` that puts `:` between a key and its scalar value. It has no contract of its own; `PassesAreSourceReplacements` ties it to the literal call, and `InsertSeparator` and `InsertSeparatorAtFirstMatch` state what it returns |
| SteamCmd.CommaAfterObject | steamcmd/steamcmd.go:104 | the `strings.Replace` that puts `,` after a nested object followed by a key. It has no contract of its own; `PassesAreSourceReplacements` ties it to the literal call, and `InsertSeparator` and `InsertSeparatorAtFirstMatch` state what it returns |
| SteamCmd.CommaBetweenMembers | steamcmd/steamcmd.go:105 | the `strings.Replace` that puts `,` after a scalar value followed by a key. It has no contract of its own; `PassesAreSourceReplacements` ties it to the literal call, and `InsertSeparator` and `InsertSeparatorAtFirstMatch` state what it returns |
| SteamCmd.StripNewlines | steamcmd/steamcmd.go:108 | the newline-removing `strings.Replace`. It has no contract of its own; `PassesAreSourceReplacements` ties it to the literal call, and `DeleteAll` states what it returns: the text with every newline removed and the other characters in order |
| SteamCmd.PassesAreSourceReplacements | steamcmd/steamcmd.go:97-108 | the six passes are the six `strings.Replace` calls with their literal arguments: two deletions and four single-character insertions at offset 1 of the pattern |
| SteamCmd.StripIdempotent | steamcmd/steamcmd.go:97-108 | running either deletion pass a second time changes nothing |
| SteamCmd.Rewrite | steamcmd/steamcmd.go:97-108 | the text after all six passes contains neither a tab nor a newline |
| SteamCmd.RewriteKeepsContent | steamcmd/steamcmd.go:97-108 | the rewrite keeps every character of the payload except tabs and newlines, in order and with its count, and adds nothing but `:` and `,` |
| SteamCmd.RewriteEmptyObject | steamcmd/steamcmd.go:97-108 | the empty object `{}` passes all six passes unchanged |
| SteamCmd.AppInfoFormat | steamcmd/steamcmd.go:80-114 | the result is valid exactly when the JSON check accepts the rewritten payload; otherwise it is a failure carrying that whole text; either way the text has no tab or newline |
| RewriteExamples.StripTabsExample | steamcmd/steamcmd.go:97 | the two-level dump has no tab and passes the tab pass unchanged |
| RewriteExamples.ColonBeforeObjectExample | steamcmd/steamcmd.go:100 | on the two-level dump, a colon appears after the key of the nested object only |
| RewriteExamples.ColonBetweenScalarsExample | steamcmd/steamcmd.go:101 | on the two-level dump, a colon appears between each key and its scalar value |
| RewriteExamples.CommaAfterObjectExample | steamcmd/steamcmd.go:104 | on the two-level dump, where no closing brace is followed by a key, the pass changes nothing |
| RewriteExamples.CommaBetweenMembersExample | steamcmd/steamcmd.go:105 | on the two-level dump, a comma appears between the scalar member and the next key |
| RewriteExamples.StripNewlinesExample | steamcmd/steamcmd.go:108 | on the two-level dump, all layout newlines disappear |
| RewriteExamples.RewriteExample | steamcmd/steamcmd.go:97-108 | for single-character keys and values, the whole rewrite turns the two-level dump into one-line JSON; with keys `a`, `b`, `c` and values `1`, `2` that is `{"a":"1","b":{"c":"2"}}` |

## Left out

- `AppInfo`, `run` and `download` (steamcmd/steamcmd.go:20-78 and 137-159) are left out. They locate or install steamcmd, run it as a subprocess, capture its output, remove cache files and download archives, which is all process, filesystem and network I/O.
- Pretty printing (steamcmd/steamcmd.go:116-134) is left out: `json.Unmarshal` and `prettyjson.Marshal` are library calls. Their two failure exits are left out with them.
- `isJSON` is not re-implemented, because it calls `encoding/json`. It is the `isJson` parameter of `AppInfoFormat`. `isJSONString` is unused and is left out.
- `log.Fatal` and `os.Exit(1)` become the `InvalidJson` result. Logging and process exit are not modelled.
- AppInfoFormat: its `Valid` result is the compact JSON text that the source hands to the pretty printer, not the pretty-printed text it finally returns.
- LastIndex: only a one-character pattern is modelled, because the formatter only searches for `{` and `}`.
- ReplaceAll: requires a non-empty pattern. Go's special behaviour for an empty pattern is not modelled, because all six passes use non-empty patterns.
- TrimLength: the bound is a `nat`. A negative bound would make the Go slice expression panic, but both callers pass an index plus one, which is at least 2.
- Reverse: runes are characters, so the model does not cover multi-byte UTF-8, where the byte offsets from `strings.LastIndex` and the rune counts used by `reverse` and `trimLength` differ. This is the ASCII assumption stated above.
