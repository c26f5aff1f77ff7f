# dicelist word-list builder, modelled in Dafny

The builder picks K = 6^D words from a frequency-ranked corpus so that the chosen words
are as dissimilar as possible, then writes them alphabetically, each next to the D-die
roll that selects it. The model covers the whole core of `dl/__init__.py`:

- **Dice encoder** (`Dice`): `dice_str`, a base-6 encoder with faces '1'..'6', proved
  against an independent decoder `Decode`: exact failure condition, length, alphabet,
  round trip (hence injectivity) and ontoness.
- **Candidate ranking** (`Candidates`): the admissibility filter (count threshold,
  length window, the letter pattern, including Python's `$` before a final newline), the
  stable descending sort by count, and the two size errors of the `Words` constructor.
  The sort is proved against a declarative stable-sort specification that has exactly one
  solution.
- **Similarity matrix** (`SimMatrix`): the (N+1)x(N+1) matrix with the slot labels in row
  and column 0; the column-then-row swap and the row-then-column revert; the block sum
  over slots 1..K; the label initialisation; the upper-triangle fill. The main lemma: the
  block sum depends only on which original rows occupy slots 1..K.
- **Subset search** (`Search`): one trial (swap, score, accept or revert), one round of
  the inner loop, and the whole `optimize` loop with its `stale`/`steps` counters and
  termination guard. `Optimize` is proved to terminate, to keep the matrix a symmetric
  rearrangement of the initial one (labels included), and to accept strictly falling
  scores starting at the initial block sum.
- **Output projection** (`Output`): the pure part of `write`: look the labels up in the
  word list with Python indexing, sort the words, pair the i-th with `dice_str(i)`.
- **Labels** (`Labelling`) and the end-to-end run (`Pipeline`): see Findings.

Parameters stand for what the model cannot see: `draw(t)` is the `random.randint(1, K)`
of round t, `similarity` is the word metric, `uninit(i, j)` the content of the
uninitialised `np.empty` buffer.

Behaviour of the code that the model keeps:

- `outer` starts at K (line 122), so every round first swaps two selected slots. In the
  integer model that trial never changes the score and, once a score exists, counts as
  stale (see `Search.Trial` under Left out for the floating-point case).
- There is no tolerance in the comparison: a trial is accepted on `temp < score`.
- `steps` counts every trial, not only accepted ones, and `step_thresh` of 0 or `None`
  means no cap (line 120).
- The admissibility filter is part of the constructor (lines 59-73).
- `dice_str` raises the user-visible `Error` when the value needs more dice.
- The scored block includes the diagonal and the lower triangle, which the fill never
  writes (line 105); they hold whatever the buffer held.
- With a stale threshold of 0 no trial runs and nothing is written at all.
- Slot p is not labelled with candidate p - 1, whose similarities it holds (see Findings).

## Model

| member | source | states |
|---|---|---|
| `Dice.DiceStr` | dl/__init__.py:33-39 | fails with `OutOfRange` exactly when value > 6^D - 1; otherwise D faces in '1'..'6' that decode back to the value, so distinct values get distinct strings |
| `Dice.DiceStrAt` | dl/__init__.py:33-39 | the recursive worker: same failure condition at every depth; from position pos it yields D - pos faces decoding to the value |
| `Dice.DiceStrOnto` | dl/__init__.py:37-39 | every string of D faces is the encoding of its decoded value, so the encoder is a bijection onto face strings |
| `Dice.DecodeInjective` | dl/__init__.py:37-39 | two face strings of equal length with equal value are equal |
| `Dice.DecodeBounds` | dl/__init__.py:35-36 | a D-face string decodes into [0, 6^D) |
| `Dice.DiceStrExtremes` | dl/__init__.py:37-39 | 0 encodes as D ones and 6^D - 1 as D sixes |
| `Dice.DiceStrExamples` | tests/test_dicelist.py:8-16 | (0,1) gives "1", (5,1) gives "6"; (6,1), (7,1), (100,2) fail |
| `Candidates.MatchesPattern` | dl/__init__.py:68 | definition: `re.match` of `^[A-ZÄÖÜa-zßäöü][a-zßäöü]*$`, which also accepts one letter word followed by a single final newline, because `$` matches before it |
| `Candidates.Admissible` | dl/__init__.py:64-68 | definition: count strictly above the threshold, length between the two bounds inclusive, and the letter pattern |
| `Candidates.Admitted` | dl/__init__.py:59-70 | keeps exactly the records with count above the threshold, length within bounds and matching the letter pattern, each with its multiplicity |
| `Candidates.AdmittedInCorpusOrder` | dl/__init__.py:64-69 | the kept records are the corpus read at strictly increasing positions, and those positions are exactly the admissible ones: the filter keeps corpus order |
| `Candidates.Insert` | dl/__init__.py:71-72 | inserting one entry adds exactly that entry |
| `Candidates.SortByCount` | dl/__init__.py:71-72 | the sort is a permutation of its input |
| `Candidates.InsertSorted` | dl/__init__.py:71-72 | insertion keeps counts non-increasing |
| `Candidates.InsertStable` | dl/__init__.py:71-72 | insertion puts the entry after all earlier entries of its count |
| `Candidates.SortByCountIsStableSort` | dl/__init__.py:59-73 | the result has non-increasing counts and every count's entries in input order |
| `Candidates.StableSortUnique` | dl/__init__.py:71-72 | two sequences meeting the stable-sort specification for the same input are equal |
| `Candidates.Rank` | dl/__init__.py:59-73 | definition: the admissible records in corpus order, stably sorted by descending count |
| `Candidates.NewWords` | dl/__init__.py:75-79 | "No words found" iff nothing is admissible; "Expected at least K words, found N" iff 0 < N < K; success iff N >= K, with the ranked list |
| `SimMatrix.SwapCols` | dl/__init__.py:124 | exchanges columns a and b in every row, row 0 included |
| `SimMatrix.SwapRows` | dl/__init__.py:125 | exchanges rows a and b, column 0 included |
| `SimMatrix.Exchange` | dl/__init__.py:124-125 | the swapped matrix is the old one read through the transposition on both indices, so the two slots' labels in row 0 and column 0 trade places |
| `SimMatrix.Restore` | dl/__init__.py:144-145 | the revert is also the transposition on both indices |
| `SimMatrix.RestoreUndoesExchange` | dl/__init__.py:124-145 | reverting at the same pair restores the whole matrix, labels included |
| `SimMatrix.ExchangeInvolution` | dl/__init__.py:124-125 | the swap is an involution |
| `SimMatrix.ExchangeGather` | dl/__init__.py:124-125 | a swap of a rearranged matrix is the rearrangement through the swapped permutation |
| `SimMatrix.BlockSum` | dl/__init__.py:126-128 | definition: the sum of rows 1..K by columns 1..K, diagonal and lower triangle included |
| `SimMatrix.BlockSumGather` | dl/__init__.py:126-128 | the block sum of a rearranged matrix is the sum of the original over the rows now in slots 1..K |
| `SimMatrix.SumOverPerm` | dl/__init__.py:126-128 | a sum over indices depends only on their multiset |
| `SimMatrix.BlockSumDependsOnSelection` | dl/__init__.py:126-128 | two arrangements with the same set of original rows in slots 1..K have the same score |
| `SimMatrix.SwapKeepsBlockSum` | dl/__init__.py:122-128 | a swap of two selected (or two reserve) slots leaves the score unchanged |
| `SimMatrix.Floor` | dl/__init__.py:120-147 | the smallest entry of the matrix: no entry is below it and some entry equals it |
| `SimMatrix.BlockSumAtLeast` | dl/__init__.py:120-147 | every reachable score is at least K*K times any lower bound on the initial matrix's entries (`Floor` is one), which bounds the search |
| `SimMatrix.InitLabels` | dl/__init__.py:81-87 | as written: slot i labelled i in row 0 and column 0 for 1 <= i < N; slot N and cell (0,0) keep the buffer's content |
| `SimMatrix.InitLabelsCorrected` | dl/__init__.py:85-87 | corrected: slot i labelled i - 1 for every 1 <= i <= N |
| `SimMatrix.FillSimilarity` | dl/__init__.py:103-111 | the similarity of words li < ri lands at (li+1, ri+1); labels, diagonal and lower triangle are untouched |
| `Search.Truthy` | dl/__init__.py:120 | definition: Python truthiness of `step_thresh`; `None` and 0 are false |
| `Search.Running` | dl/__init__.py:120 | definition: the outer loop's guard, `stale` below its threshold and, when `step_thresh` is truthy, `steps` below it |
| `Search.Trial` | dl/__init__.py:124-147 | one trial counts a step; an accept takes the swapped matrix and a strictly lower score and resets stale; a reject restores the matrix and adds one stale; with integer scores the `outer == K` trial is never accepted once a score exists |
| `Search.FirstTrialKeepsScore` | dl/__init__.py:122-128 | the `outer == K` trial scores the current selection |
| `Search.TrialOutcome` | dl/__init__.py:124-147 | a trial is accepted exactly when there is no score yet or the swapped block scores strictly lower; an accept leaves the swapped matrix with its score and stale 0, a reject leaves matrix and score and counts one stale trial |
| `Search.RoundResult` | dl/__init__.py:121-147 | definition: the state after one round, the swap at the first slot in K..N that is accepted with its score, stale 0 and the trials counted, or the unchanged matrix and score with N - K + 1 stale trials |
| `Search.AcceptsIffScoreChanges` | dl/__init__.py:130-147 | a round changes the score exactly when one of its trials is accepted, so the accepting rounds of a run are the ones `AcceptedScores` collects |
| `Search.RoundStepIsResult` | dl/__init__.py:122-147 | that description of a round has exactly one outcome, the state `RoundResult` computes |
| `Search.Round` | dl/__init__.py:121-147 | a round ends at the first slot in K..N whose swap is accepted, with that swap in place, its score and stale 0, or, when no slot's swap is, with matrix and score as they were after N - K + 1 stale trials |
| `Search.RunUnique` | dl/__init__.py:119-147 | the states before each round, from the initial matrix until the guard fails, are determined by the initial matrix, the thresholds and the draws |
| `Search.Advance` | dl/__init__.py:120-147 | one pass of the outer loop keeps the loop invariant and extends the run by the round `RoundResult` describes; afterwards a score exists, and it is either strictly below the previous one or unchanged with N - K + 1 more stale trials, which is why the loop terminates |
| `Search.Optimize` | dl/__init__.py:119-147 | terminates; its final state is the last of the run of rounds `RunUnique` determines; on exit the loop guard is false, the matrix is the initial one permuted on both axes with slot 0 fixed, the labels are a permutation of the initial labels, the score is the final block sum, `accepted` is exactly the score of every round of that run that accepts a trial (`AcceptedScores`, one per write at line 141) and falls strictly from the initial block sum, and no trial runs when the guard is false at the start |
| `Output.PyIndex` | dl/__init__.py:151 | Python list indexing: valid exactly for -len <= i < len, negative indices from the end |
| `Output.LookUp` | dl/__init__.py:150-152 | fails with the first label that is no index; otherwise the word of every label, in order |
| `Output.InsertString` | dl/__init__.py:150-152 | insertion into a sorted list keeps it sorted and adds exactly the word |
| `Output.SortStrings` | dl/__init__.py:150-152 | the words are sorted by code point and are a permutation of the looked-up words |
| `Output.Pair` | dl/__init__.py:154-155 | line i is the dice string of i, a space and the i-th word |
| `Output.Project` | dl/__init__.py:149-155 | fails iff the lookup fails; otherwise K lines, line i starts with faces decoding to i, the word column is sorted and is the multiset of the labelled words |
| `Labelling.AsWrittenLabelsOffByOne` | dl/__init__.py:85-87 | as written, slot s < N is labelled s while its row holds word s - 1 |
| `Labelling.AsWrittenNamesUnscoredWords` | dl/__init__.py:85-87 | with 7 words and 1 die the labels of slots 1..6 name words 1..6, before and after the first trial, while after that trial slots 1..6 still hold original rows 1..6 (the rows the fill gives to words 0..5) |
| `Labelling.CorrectedLookUp` | dl/__init__.py:150-152 | with corrected labels the lookup succeeds and returns the words of K distinct ranks in slots 1..K |
| `Pipeline.InitialMatrix` | dl/__init__.py:81-111 | the matrix before the search: corrected labels, every pair's similarity in the strict upper triangle, the buffer's content everywhere else |
| `Pipeline.Select` | dl/__init__.py:99-155 | on the corrected labelling: the search is the run of rounds from the initial matrix that `RunUnique` determines; nothing is written iff the guard is false at the start, iff no score was accepted; `accepted` is the score of every accepting round of that run, falling strictly from the initial block sum to the score of the original rows the search leaves in slots 1..K; the last list written has K lines, line i being the dice string of i, a space and a word, and its sorted words name exactly the words of the rows the run's final state holds in slots 1..K |
| `Pipeline.Run` | dl/__init__.py:43-155 | on the corrected labelling: the constructor's two errors exactly as in `NewWords`; on success what `Select` promises, over the ranked candidate list |

## Findings

| source | as written | input that shows it | evidently intended | confidence | as-written member | corrected member |
|---|---|---|---|---|---|---|
| dl/__init__.py:85-87 | slot i is labelled i for 1 <= i < N, slot N not at all, while row i holds the similarities of word i - 1 (line 106) and `write` reads the label as a word index (line 151) | 7 admissible words, D = 1: the first trial is always accepted and only swaps inside slots 1..6, so the first list written names words 1..6 although the scored block holds words 0..5; the most frequent word is dropped and word 6 was never scored. With N = K, slot N's garbage label is read as an index | label slot i with i - 1 for every 1 <= i <= N | high (not executed) | `Labelling.AsWrittenNamesUnscoredWords` | `Labelling.CorrectedLookUp` |

`SimMatrix.InitLabels` is the labelling as written and `SimMatrix.InitLabelsCorrected`
the corrected one; `Pipeline` builds the search on the corrected labelling.

## Left out

- File reading, line splitting and `int()` parsing (lines 57-63): the model starts from a
  sequence of (word, count) records.
- File writing in `write` (lines 153-155) and the call of `write` on every accept (line
  141): `Pipeline.Run` returns the content of the last list written. The file is
  rewritten on each accept, and after the last accept only rejected trials follow, which
  restore the matrix (`Search.Round`), so the final state projects to that last list.
- The similarity metric (lines 106-111): a Damerau-Levenshtein call into a foreign library
  and a floating-point power; it is the parameter `similarity`, and matrix entries are
  integers instead of `float32`. Labels are integers too, so `int()` of a `float32` label
  (which can fail on NaN) is not modelled.
- `random.randint`: the parameter `draw`, required to lie in [1, K].
- The values of the uninitialised `np.empty` cells: the parameter `uninit`.
- Logging calls (lines 112-117, 134-140).
- `tools/trainphrase.py`: a passphrase tool with no logic shared with the builder.
- Dice.DiceStr: takes a natural value and dice count. With a negative value the source
  recurses without end, and a negative dice count makes `6**num_dice` a float; neither is
  modelled.
- Search.Trial: scores are integers. The source sums a `float32` block (lines 126-128); the
  `outer == K` swap reorders the summands, so rounding can make `temp < score`, accept
  that trial and reset `stale`. The model does not cover that path.
- Pipeline.Run: as written, `write` runs inside `optimize` (line 141) and raises when a
  label in slots 1..K is no valid index (line 151), for instance slot N's unset label once
  slot N is swapped into the block; that aborts the search. The model runs on the
  corrected labelling, where this cannot happen (`Labelling.CorrectedLookUp`), and does
  not model the abort.
- Search.Optimize: NumPy's fancy-index assignment is modelled as an exact exchange (the
  right-hand side is a copy), which is what it does.
