# FactLens sentence analysis, modelled in Dafny

FactLens (明鉴) is a small tool that takes the URL of a news article, pulls out
the article's body text, cuts it into sentences and labels each sentence as a
fact (事实), an opinion (观点) or mixed (混合) by counting fixed keywords. This
project models the deterministic core of `mingjian_factlens.py` and proves
properties of it:

- `text.dfy` (module `Text`): the string primitives the script relies on,
  written from scratch: Python's `str.strip()` with the `str.isspace()`
  character class, `str.startswith`, `str.count` (non-overlapping matches,
  scanning left to right) and lower-casing.
- `classifier.dfy` (module `Classifier`): `simple_analyze`. Each sentence gets
  a fact score and an opinion score over the two lists of sixteen keywords.
  The strictly larger score wins. A tie is mixed. Confidence is kept in whole
  tenths: `7 + score` for a winner and `6` for a tie, which is the script's
  `0.7 + 0.1 * score` and `0.6`.
- `segmenter.dfy` (module `Segmenter`): `re.split` on the class `[。！？!?.]`,
  then the comprehension that strips each piece and keeps those longer than
  ten characters.
- `pipeline.dfy` (module `Pipeline`): the main flow. It covers the URL checks,
  the 50-character gate on the extracted text and the stop when no sentence
  qualifies. The record-building loop over the first `min(50, n)` sentences
  is a method with loop invariants. The per-label tallies and their
  percentages follow. The fetch and the extraction are a parameter of type
  `Fetched`: `Unreachable` when the request failed, or `Page(text)` with the
  extracted body text.

Confidence values, the fifty-sentence cap and the fifty-character minimum are
the script's own constants.

A keyword counts only where the whole keyword occurs in the sentence: the
script counts occurrences of the keyword inside the sentence, never of the
sentence's pieces inside the keyword. So "百分之十" adds nothing for the keyword
"百分比". `Classifier.ReportExample` proves that "报告显示增长百分之十" scores 3
to 0 and is a fact at 10 tenths.

## Model

| member | source | states |
|---|---|---|
| `Text.Trim` | mingjian_factlens.py:146 | the stripped string has no whitespace (in Python's `isspace` sense) at either end |
| `Text.TrimSlice` | mingjian_factlens.py:146 | the stripped string is the slice left after cutting a run of whitespace off each end |
| `Text.TrimIdempotent` | mingjian_factlens.py:146 | stripping an already stripped string changes nothing |
| `Text.TrimLeft` | mingjian_factlens.py:146 | the result is a suffix, what was dropped is all whitespace, and the result does not start with whitespace |
| `Text.TrimRight` | mingjian_factlens.py:146 | the result is a prefix, what was dropped is all whitespace, and the result does not end with whitespace |
| `Text.TrimStart` | mingjian_factlens.py:146 | the stripped string is the slice of the input that starts at the returned index |
| `Text.TrimShortens` | mingjian_factlens.py:132 | stripping never lengthens a string, and a string made only of whitespace strips to the empty string |
| `Text.StartsWith` | mingjian_factlens.py:126 | `str.startswith`: true exactly when the string is the prefix followed by the rest of the string |
| `Text.Lower` | mingjian_factlens.py:76 | same length; no ASCII capital letter is left, and only ASCII capital letters are changed |
| `Text.Count` | mingjian_factlens.py:81-82 | `str.count`: an empty word counts `len + 1` times, and non-overlapping matches of a non-empty word fit in the text (count × word length ≤ text length) |
| `Text.CountIsGreedy` | mingjian_factlens.py:81-82 | `str.count` finds the greedy left-to-right matching: there are exactly `count` match positions, each an occurrence of the word, each at least a word length after the previous one, and every occurrence of the word overlaps one of them |
| `Text.GreedyMatchingUnique` | mingjian_factlens.py:81-82 | there is only one such matching, so the count is determined by it |
| `Text.CountBackToBack` | mingjian_factlens.py:81-82 | "报告报告" holds "报告" twice |
| `Text.CountSkipsOverlap` | mingjian_factlens.py:81-82 | "aaa" holds "aa" once, because matches do not overlap |
| `Text.CountZeroIffAbsent` | mingjian_factlens.py:81-82 | a non-empty keyword counts zero exactly when it occurs nowhere in the sentence |
| `Text.CountSingleChar` | mingjian_factlens.py:77-81 | a one-character keyword counts once per occurrence of that character |
| `Text.CountLowerInvariant` | mingjian_factlens.py:76-82 | lower-casing the sentence does not change the count of a keyword that has no ASCII letters |
| `Classifier.ScoreBounds` | mingjian_factlens.py:81-82 | a score is zero exactly when every keyword counts zero, and no keyword counts more than the whole score |
| `Classifier.ScoreSplit` | mingjian_factlens.py:81 | a score is the part before a keyword, plus that keyword's count, plus the part after it |
| `Classifier.ScoreAppend` | mingjian_factlens.py:81-82 | the score over two concatenated keyword lists is the sum of the two scores |
| `Classifier.FactScore` | mingjian_factlens.py:76-82 | the fact score of the lower-cased sentence equals the score of the sentence as given over the sixteen fact keywords |
| `Classifier.OpinionScore` | mingjian_factlens.py:76-82 | the opinion score of the lower-cased sentence equals the score of the sentence as given over the sixteen opinion keywords |
| `Classifier.Decide` | mingjian_factlens.py:84-89 | fact iff fact score > opinion score, opinion iff the reverse, mixed iff equal; a winner gets 7 + its score tenths, always at least 8; confidence is 6 exactly when mixed |
| `Classifier.Analyze` | mingjian_factlens.py:75-89 | the label of a sentence follows the comparison of its two keyword scores in both directions, and the confidence is 7 + the winning score, or 6 for a tie |
| `Classifier.DecideStep` | mingjian_factlens.py:85-87 | one more point for the leading side raises its confidence by exactly one tenth and keeps its label |
| `Classifier.NoKeywordsIsMixed` | mingjian_factlens.py:81-89 | a sentence has no keyword of either list exactly when both scores are 0, and then it is mixed at 6 tenths |
| `Classifier.JuCountsEachOccurrence` | mingjian_factlens.py:77-81 | the fact score is the number of '据' characters plus the counts of the other fifteen fact keywords |
| `Classifier.ReportExample` | mingjian_factlens.py:75-89 | "报告显示增长百分之十" has fact score 3 and opinion score 0 ("百分" does not count for "百分比") and is a fact at 10 tenths |
| `Segmenter.Split` | mingjian_factlens.py:145 | `re.split` gives at least one piece, and no piece holds a delimiter |
| `Segmenter.SplitJoin` | mingjian_factlens.py:145 | there is one piece more than there are delimiters, and re-joining the pieces with the delimiters restores the text |
| `Segmenter.KeptIndicesSelect` | mingjian_factlens.py:146 | the k-th kept string is the string at the k-th kept position |
| `Segmenter.KeptIndicesIncrease` | mingjian_factlens.py:146 | the kept positions strictly increase, so the order is kept |
| `Segmenter.KeptIndicesExact` | mingjian_factlens.py:146 | a position is kept exactly when its string is longer than ten characters |
| `Segmenter.Sentences` | mingjian_factlens.py:146 | every kept sentence is stripped and longer than ten characters |
| `Segmenter.SentencesKeepOrder` | mingjian_factlens.py:146 | the sentences are the stripped pieces longer than ten characters, all of them and only them, in their original order |
| `Segmenter.Segment` | mingjian_factlens.py:145-146 | every sentence is stripped, longer than ten characters and free of the delimiters 。！？!?. |
| `Segmenter.SplitPlaced` | mingjian_factlens.py:145 | the pieces of `re.split` are slices of the text in order, the first at position 0, with at least one character (the delimiter) between a piece and the next |
| `Segmenter.SegmentPlaced` | mingjian_factlens.py:145-146 | the sentences are slices of the text in order, with at least one character between a sentence and the next, so they never overlap |
| `Pipeline.UrlGate` | mingjian_factlens.py:123-128 | an empty URL is refused as empty, and only the empty URL is; any other refusal is for the scheme; an accepted URL is non-empty |
| `Pipeline.UrlGateAcceptsWebUrls` | mingjian_factlens.py:126-128 | a URL passes exactly when it is `http://` or `https://` followed by anything |
| `Pipeline.FtpUrlRejected` | mingjian_factlens.py:126-128 | `ftp://example.com` is refused for its scheme |
| `Pipeline.HasWebScheme` | mingjian_factlens.py:126 | true exactly when the URL is `http://` or `https://` followed by the rest of the URL |
| `Pipeline.LongEnough` | mingjian_factlens.py:132 | a text that passes has at least 50 characters, and a text made only of whitespace never passes |
| `Pipeline.Percent` | mingjian_factlens.py:172-174 | a share is never negative, is at most 100 when the count is at most the total, and is 100 when the count is the total |
| `Pipeline.BuildRecords` | mingjian_factlens.py:151-161 | exactly `min(50, n)` records; record i is numbered i + 1, holds the i-th sentence unchanged and carries that sentence's label and confidence |
| `Pipeline.CountKind` | mingjian_factlens.py:167-169 | a label's tally never exceeds the number of records |
| `Pipeline.TalliesPartition` | mingjian_factlens.py:167-170 | the fact, opinion and mixed tallies add up to the number of records |
| `Pipeline.PercentagesSumTo100` | mingjian_factlens.py:172-174 | before rounding, the three percentages add up to exactly 100 |
| `Pipeline.Run` | mingjian_factlens.py:122-170 | a refused URL stops the run with its reason whatever the fetch gave; then a failed fetch, text under 50 stripped characters, or no sentence stops it; otherwise the report holds the records of the first `min(50, n)` sentences and tallies that add up to a total of at least 1 |

## Left out

- The HTTP request (`requests.get` with its User-Agent header and 10-second timeout) is network I/O. Its result is the `Fetched` parameter of `Pipeline.Run`.
- HTML parsing and the selector search (`BeautifulSoup`, the ordered selector list, the paragraph fallback, the title and its "无标题" fallback) rely on a foreign library. The extracted body text enters as an opaque string.
- The author and publish-date placeholders are left out: they are never filled and always shown as "未知".
- The Streamlit page, styles, cards, sidebar, footer, spinner and progress bar are presentation only.
- The CSV export through pandas with a UTF-8 byte-order mark is a library serialiser with a download side effect.
- Floating point is left out. Confidence is an exact number of tenths, so `f"{conf:.2f}"` and its rounding are not modelled. Percentages are exact reals, so the `.1f` display rounding is not modelled either.
- Text.Lower: lower-cases ASCII letters only, while Python's `str.lower()` covers all of Unicode. Both keyword lists are pure CJK text, and `Classifier.FactScore` and `Classifier.OpinionScore` state that ASCII lower-casing leaves both scores unchanged.
- The trigger `st.button(...) or url` decides when a run starts, which is UI only. `Pipeline.Run` models one run once started.
- The label text stored in each record ("事实", "观点", "混合") is `Classifier.LabelText`. Records hold the `Label` value itself.
