# Senryu detector, modelled in Dafny

The chat bot looks through a message for a senryu, a verse of 5, 7 and 5 mora,
and replies with it. All of the algorithm lives in
`infrastructure/senryu_detector.py`. This project models that file's core in
one module, `SenryuDetector` (`senryu_detector.dfy`). The module covers five
things:

- **Tokens.** Each morpheme from the tagger becomes a tuple `(surface, reading,
  mora, pos)`. The reading is the kana, or the surface form when the kana is
  absent or empty. The mora count is the number of characters in the reading.
  These are `Morpheme`, `Token`, `MakeToken` and `Tokenize`.
- **The phrase test.** `is_poetic_phrase` becomes `IsPoeticPhrase`. A span
  passes when it has at least two tokens, neither end's part of speech is in
  the bad-boundary set, and some token's part of speech is in the content
  set.
- **Enumeration.** For each start index the code adds up mora as it extends
  the span. The first time the total is 5 or 7 it tests that span with the
  phrase test and stops, whatever the test says. It also stops once the total
  goes past 7. A span that passes goes into `candidates[5]` or
  `candidates[7]`.
  - The outer loop is the method `CollectCandidates`. The inner loop is the
    method `ScanStart`.
  - Both are proved against the function `Candidates`.
  - The lemmas then relate `Candidates` to the declarative definitions
    `IsFirstLanding` and `IsCandidate`.
- **Selection.** The code returns `[]` unless there are at least two 5-mora
  candidates and one 7-mora candidate. Otherwise it returns three lines. Each
  line is a candidate's surface forms joined together. Lines 1 and 3 come from
  two different 5-mora candidates, and line 2 from a 7-mora candidate.
- **Candidates as spans.** The source stores each candidate as the token
  slice itself. The model stores `Span(start, stop)` instead, which stands
  for the slice `words[start..stop]`. This lets the contracts talk about start
  indices and ordering.

The code picks the three phrases at random
(infrastructure/senryu_detector.py:68-69). It does no scoring and does not
require the phrases to be sequential or non-overlapping. The model follows
the code.

## Model

| member | source | states |
|---|---|---|
| `SenryuDetector.HasKana` | infrastructure/senryu_detector.py:44 | the kana is used exactly when it is neither absent nor the empty string, the two values Python's `or` treats as false |
| `SenryuDetector.MakeToken` | infrastructure/senryu_detector.py:44 | a token keeps the morpheme's surface and part of speech, and its mora count is the length of its reading |
| `SenryuDetector.ReadingFallsBackToSurface` | infrastructure/senryu_detector.py:44 | the reading is the kana when it is present and non-empty, and the surface form otherwise |
| `SenryuDetector.ZeroMoraOnlyForEmptyText` | infrastructure/senryu_detector.py:44 | a token has zero mora exactly when its surface is empty and it has no kana |
| `SenryuDetector.Tokenize` | infrastructure/senryu_detector.py:44 | one token per morpheme, in order, each with mora equal to the length of its reading |
| `SenryuDetector.MoraIsReadingLength` | infrastructure/senryu_detector.py:44 | for tokens built this way, the mora sum of a span is the length of its joined reading |
| `SenryuDetector.HasContent` | infrastructure/senryu_detector.py:34-35 | true exactly when some token's part of speech is in the content set (the `any`) |
| `SenryuDetector.IsPoeticPhrase` | infrastructure/senryu_detector.py:21-39 | true exactly when there are at least 2 tokens, neither end's part of speech is a bad boundary, and some token is a content word |
| `SenryuDetector.ShortSpanIsNotPoetic` | infrastructure/senryu_detector.py:22-23 | a span of fewer than 2 tokens, the empty one included, is rejected |
| `SenryuDetector.BadBoundaryIsNotPoetic` | infrastructure/senryu_detector.py:25-31 | a span whose first or last part of speech is in the bad-boundary set is rejected |
| `SenryuDetector.MoraSumExtend` | infrastructure/senryu_detector.py:49-50 | adding `words[j]` to the span adds its mora to the running total |
| `SenryuDetector.MoraSumMonotone` | infrastructure/senryu_detector.py:48-50 | the running total from a fixed start never decreases as the span grows |
| `SenryuDetector.LandFrom` | infrastructure/senryu_detector.py:49-57 | a span end it returns is within the words and has a total of 5 or 7 |
| `SenryuDetector.Landing` | infrastructure/senryu_detector.py:48-57 | the inner scan from start `i`: a span end it returns lies past `i`, within the words, and gives a total of 5 or 7 |
| `SenryuDetector.LandingIff` | infrastructure/senryu_detector.py:48-57 | the scan from `i` stops on a landing at `e` exactly when `words[i..e]` is the first span from `i` with total 5 or 7, and no shorter span went past 7 |
| `SenryuDetector.LandingUnique` | infrastructure/senryu_detector.py:51-55 | a start index has at most one landing span |
| `SenryuDetector.OvershootStopIsRedundant` | infrastructure/senryu_detector.py:56-57 | stopping once the total passes 7 changes nothing: the first landing is simply the first span whose total is 5 or 7 |
| `SenryuDetector.Found` | infrastructure/senryu_detector.py:51-55 | a start index adds at most one span to a list, and that span starts at that index |
| `SenryuDetector.CandidatesBefore` | infrastructure/senryu_detector.py:47-55 | the state of `candidates[k]` after the outer loop has run for starts `0 .. n-1`: it holds at most `n` spans, since each start adds at most one |
| `SenryuDetector.Candidates` | infrastructure/senryu_detector.py:45-57 | each list holds non-empty in-bounds spans in strictly ascending start order |
| `SenryuDetector.CandidatesOrdered` | infrastructure/senryu_detector.py:47-54 | after scanning starts below `n`, every listed span starts below `n`, is in bounds, and the starts ascend strictly |
| `SenryuDetector.CandidatesSound` | infrastructure/senryu_detector.py:51-54 | every span in list `k` is the first landing from its start, has mora sum exactly `k`, and passes the phrase test |
| `SenryuDetector.CandidatesComplete` | infrastructure/senryu_detector.py:47-55 | every such span is in list `k` |
| `SenryuDetector.OneCandidatePerStart` | infrastructure/senryu_detector.py:51-55 | a start whose first landing totals 5 has no 7-mora candidate, whether or not the 5-mora span passes the phrase test, because the scan breaks at the landing either way |
| `SenryuDetector.ListsShareNoStart` | infrastructure/senryu_detector.py:47-55 | no start index appears in both the 5-mora list and the 7-mora list |
| `SenryuDetector.ScanLands` | infrastructure/senryu_detector.py:51-55 | when the scan lands, start `i` adds the span to the list of its total if the span passes the phrase test, and adds nothing to the other list |
| `SenryuDetector.ScanOvershoots` | infrastructure/senryu_detector.py:56-57 | when the total passes 7 first, start `i` adds nothing |
| `SenryuDetector.ScanContinues` | infrastructure/senryu_detector.py:49-50 | a total below 8 that is not 5 or 7 lets the scan go on to the next word |
| `SenryuDetector.ScanExhausted` | infrastructure/senryu_detector.py:49 | running out of words without landing adds nothing |
| `SenryuDetector.ScanStart` | infrastructure/senryu_detector.py:48-57 | the inner loop appends to the lists exactly what start `i` adds |
| `SenryuDetector.CollectCandidates` | infrastructure/senryu_detector.py:45-57 | the nested loops produce exactly `Candidates(words, 5)` and `Candidates(words, 7)` |
| `SenryuDetector.GateIff` | infrastructure/senryu_detector.py:63-66 | the count test (at least two 5-mora and one 7-mora candidate) holds exactly when two distinct 5-mora candidates and a 7-mora candidate exist |
| `SenryuDetector.PicksValid` | infrastructure/senryu_detector.py:63-69 | the random draws: any picks are accepted when the gate fails and nothing is drawn; otherwise the two 5-mora picks are in range and are different phrases, as `random.sample` draws without replacement |
| `SenryuDetector.DrawsAlwaysPossible` | infrastructure/senryu_detector.py:63-69 | once the gate passes there are always picks to be made, so `random.sample` and `random.choice` cannot fail and no input is excluded |
| `SenryuDetector.PicksAreCandidates` | infrastructure/senryu_detector.py:68-69 | valid picks give two 5-mora candidates with different starts and one 7-mora candidate |
| `SenryuDetector.Render` | infrastructure/senryu_detector.py:72-74 | a line joins its span's surface forms: an empty span gives `""`, and a non-empty one begins with its first word's surface and ends with its last word's |
| `SenryuDetector.LineIsPieceOfText` | infrastructure/senryu_detector.py:71-75 | each rendered line is a contiguous piece of the concatenated surface text of all the morphemes |
| `SenryuDetector.ExtractRandomSenryu` | infrastructure/senryu_detector.py:43-75 | the result is `[]` exactly when the material is missing, and otherwise exactly 3 lines. Lines 1 and 3 render two 5-mora candidates with different starts, and line 2 renders a 7-mora candidate |

## Left out

- The `fugashi` tagger and the module-level `tagger` (infrastructure/senryu_detector.py:2, 5) are a foreign library. The morphemes are an input sequence instead.
- `get_reading`, `count_mora` and `split_mora_units` (infrastructure/senryu_detector.py:8-18) only wrap calls to the tagger. They are not modelled.
- The `random` module (infrastructure/senryu_detector.py:3, 68-69) is not modelled. Its draws are the caller's indices `first`, `second` and `third`. When the gate passes, `PicksValid` requires `first` and `third` to be distinct positions in the 5-mora list and `second` a position in the 7-mora list.
- ExtractRandomSenryu: it does not state the uniform distribution of `random.sample` and `random.choice`. It only states what any valid draw produces.
- The `debug` flag and its `print` output (infrastructure/senryu_detector.py:59-61, 64-65) are console output only. They never change the result.
- Reply formatting and the channel allow-list in app/usecases/reply_to_message.py, the Discord client, the event handler and main.py are network and bootstrap glue. That file also imports a `SenryuExtractor` class that the detector file does not define. No such class is modelled.
- The inner loop of `extract_random_senryu` is its own method, `ScanStart`, and the outer loop calls it. The two lists stand for the dictionary `candidates`, keyed by 5 and 7.
- Strings are sequences of Unicode scalar values, so a reading's length counts characters, as Python's `len` does. There is no further text normalisation.
- A token with an empty surface and no kana counts zero mora. The code allows this, so the model does not require at least one mora per token.
