/** The whole builder, `Words(...)` followed by `optimize`, on the corrected labelling:
    rank, label, fill the similarities, search, and project the selection. */
module Pipeline {
  import opened Errors
  import opened Dice
  import opened Candidates
  import opened SimMatrix
  import opened Search
  import opened Output
  import opened Labelling

  /** What a written list promises: line i is the dice string of i, a space and a word; the
      words are sorted, and they are the words of `chosen`, K distinct ranks. */
  ghost predicate IsListOf(lines: seq<string>, chosen: seq<nat>, words: seq<Entry>, numDice: nat) {
    && |lines| == Pow6(numDice) && |chosen| == Pow6(numDice)
    && (forall i :: 0 <= i < |lines| ==> |lines[i]| > numDice && AllFaces(lines[i][..numDice])
                                         && Decode(lines[i][..numDice]) == i && lines[i][numDice] == ' ')
    && SortedStrings(WordColumn(lines, numDice))
    && (forall i :: 0 <= i < |chosen| ==> chosen[i] < |words|)
    && (forall i, j :: 0 <= i < j < |chosen| ==> chosen[i] != chosen[j])
    && multiset(WordColumn(lines, numDice))
       == multiset(WordsAt(words, chosen))
  }

  /** The matrix `optimize` starts from: corrected labels in row 0 and column 0, the
      similarity of every pair of words in the strict upper triangle, and the buffer's
      content everywhere else. */
  ghost predicate IsInitialMatrix(m: Matrix, words: seq<Entry>, uninit: (int, int) -> int,
                                  similarity: (string, string) -> int) {
    var n := |words|;
    && IsSquare(m, n)
    && (forall s :: 1 <= s <= n ==> m[0][s] == s - 1 && m[s][0] == s - 1)
    && m[0][0] == uninit(0, 0)
    && (forall li, ri :: 0 <= li < ri < n ==> m[li + 1][ri + 1] == similarity(words[li].word, words[ri].word))
    && (forall i, j :: 1 <= j <= i <= n ==> m[i][j] == uninit(i, j))
  }

  /** `Words(...)` then `optimize`: fails with the constructor's error, or yields the last
      list written (`None` when no trial was ever accepted and nothing was written), on the
      corrected labelling. See `Select` for the ghost outputs. */
  method Run(records: seq<Entry>, numDice: nat, countThresh: int, lenMin: int, lenMax: int,
             staleThresh: int, stepThresh: Option<int>,
             uninit: (int, int) -> int, similarity: (string, string) -> int, draw: nat -> int)
    returns (r: Result<Option<seq<string>>>, accepted: seq<int>, m0: Matrix,
             ghost trace: seq<State>, ghost perm: seq<nat>, ghost chosen: seq<nat>)
    requires forall t :: 1 <= draw(t) <= Pow6(numDice)
    ensures var n := |Admitted(records, countThresh, lenMin, lenMax)|;
      && (r == Fail(NoWordsFound) <==> n == 0)
      && (r == Fail(TooFewWords(Pow6(numDice), n)) <==> 0 < n < Pow6(numDice))
      && (r.Ok? <==> n >= Pow6(numDice))
    ensures r.Ok? ==> (r.value.None? <==> !Running(0, 0, staleThresh, stepThresh))
    ensures r.Ok? ==> IsRun(trace, m0, |Admitted(records, countThresh, lenMin, lenMax)|, Pow6(numDice),
                            staleThresh, stepThresh, draw)
    ensures r.Ok? ==> SearchOutcome(r.value, accepted, m0, trace, perm, chosen,
                                    Rank(records, countThresh, lenMin, lenMax), numDice, uninit, similarity)
  {
    var w := NewWords(records, numDice, countThresh, lenMin, lenMax, staleThresh, stepThresh);
    if w.Fail? {
      return Fail(w.error), [], [], [], [], [];
    }
    var written;
    written, accepted, m0, trace, perm, chosen := Select(w.value.allWords, numDice, staleThresh, stepThresh, uninit, similarity, draw);
    r := Ok(written);
  }

  /** What `Select` promises about a search over `words`, besides `IsRun`: `m0` is the initial
      matrix, `trace` ends in the final state of the search, and `perm` is the arrangement of
      `m0`'s rows in that state (slot s holds original row perm[s], slot 0 fixed);
      `accepted` are the scores the run's accepting rounds leave, falling strictly from the initial
      block sum to the score of the original rows now in slots 1..K; and the list written
      last, present exactly when some trial was accepted, names the words of those rows. */
  ghost predicate SearchOutcome(written: Option<seq<string>>, accepted: seq<int>, m0: Matrix,
                                trace: seq<State>, perm: seq<nat>, chosen: seq<nat>,
                                words: seq<Entry>, numDice: nat,
                                uninit: (int, int) -> int, similarity: (string, string) -> int) {
    var n, k := |words|, Pow6(numDice);
    && k <= n
    && IsInitialMatrix(m0, words, uninit, similarity)
    && |trace| > 0
    && IsPerm(perm, n) && perm[0] == 0
    && Gather(m0, n, perm) == trace[|trace| - 1].m
    && (written.None? <==> trace[|trace| - 1].score.None?)
    && (forall s :: 1 <= s <= n ==> 1 <= perm[s])
    && chosen == Chosen(perm, k)
    && accepted == AcceptedScores(trace)
    && StrictlyDecreasing(accepted)
    && (written.None? <==> accepted == [])
    && (accepted != [] ==> accepted[0] == BlockSum(m0, n, k)
                           && accepted[|accepted| - 1] == SelectionSum(m0, perm[1..k + 1], perm[1..k + 1]))
    && (written.Some? ==> IsListOf(written.value, chosen, words, numDice))
  }

  /** `optimize` on a constructed `Words`: label (corrected), fill, search, project. */
  method Select(words: seq<Entry>, numDice: nat, staleThresh: int, stepThresh: Option<int>,
                uninit: (int, int) -> int, similarity: (string, string) -> int, draw: nat -> int)
    returns (written: Option<seq<string>>, accepted: seq<int>, m0: Matrix,
             ghost trace: seq<State>, ghost perm: seq<nat>, ghost chosen: seq<nat>)
    requires Pow6(numDice) <= |words|
    requires forall t :: 1 <= draw(t) <= Pow6(numDice)
    ensures written.None? <==> !Running(0, 0, staleThresh, stepThresh)
    ensures IsRun(trace, m0, |words|, Pow6(numDice), staleThresh, stepThresh, draw)
    ensures SearchOutcome(written, accepted, m0, trace, perm, chosen, words, numDice, uninit, similarity)
  {
    var n, k := |words|, Pow6(numDice);
    m0 := InitialMatrix(words, uninit, similarity);
    var st;
    st, accepted, perm, trace := Optimize(m0, n, k, staleThresh, stepThresh, draw);
    ProjectIsListOf(words, m0, n, numDice, perm);
    chosen := Chosen(perm, k);
    if st.score.None? {
      written := None;
    } else {
      written := Some(Project(words, st.m, n, numDice).value);
    }
    SelectOutcome(words, numDice, uninit, similarity, written, accepted, m0, st, trace, perm, chosen);
  }

  /** The facts `Optimize` and the projection establish add up to `SearchOutcome`. */
  lemma SelectOutcome(words: seq<Entry>, numDice: nat,
                      uninit: (int, int) -> int, similarity: (string, string) -> int,
                      written: Option<seq<string>>, accepted: seq<int>, m0: Matrix, st: State,
                      trace: seq<State>, perm: seq<nat>, chosen: seq<nat>)
    requires Pow6(numDice) <= |words| && IsInitialMatrix(m0, words, uninit, similarity)
    requires |trace| > 0 && st == trace[|trace| - 1]
    requires IsPerm(perm, |words|) && perm[0] == 0 && st.m == Gather(m0, |words|, perm)
    requires st.score.Some? ==> st.score.value == BlockSum(st.m, |words|, Pow6(numDice))
    requires accepted == AcceptedScores(trace)
    requires StrictlyDecreasing(accepted) && (st.score.None? <==> accepted == [])
    requires accepted != [] ==> accepted[0] == BlockSum(m0, |words|, Pow6(numDice))
                                && accepted[|accepted| - 1] == st.score.value
    requires forall s :: 1 <= s <= |words| ==> 1 <= perm[s]
    requires chosen == Chosen(perm, Pow6(numDice))
    requires Project(words, st.m, |words|, numDice).Ok?
    requires IsListOf(Project(words, st.m, |words|, numDice).value, chosen, words, numDice)
    requires written == if st.score.None? then None else Some(Project(words, st.m, |words|, numDice).value)
    ensures SearchOutcome(written, accepted, m0, trace, perm, chosen, words, numDice, uninit, similarity)
  {
    var n, k := |words|, Pow6(numDice);
    if accepted != [] {
      BlockSumGather(m0, n, perm, k);
    }
  }

  /** The matrix before the search: uninitialised buffer, corrected labels, similarities in
      the strict upper triangle. */
  method InitialMatrix(words: seq<Entry>, uninit: (int, int) -> int, similarity: (string, string) -> int)
    returns (m: Matrix)
    ensures IsInitialMatrix(m, words, uninit, similarity)
  {
    var n := |words|;
    var g := seq(n + 1, i => seq(n + 1, j => uninit(i, j)));
    var sim := seq(n, li requires 0 <= li < n => seq(n, ri requires 0 <= ri < n => similarity(words[li].word, words[ri].word)));
    var labelled := InitLabelsCorrected(g, n);
    m := FillSimilarity(labelled, n, sim);
    FilledIsInitial(words, uninit, similarity, g, sim, labelled, m);
  }

  /** The fill of the labelled buffer is the initial matrix. */
  lemma FilledIsInitial(words: seq<Entry>, uninit: (int, int) -> int, similarity: (string, string) -> int,
                        g: Matrix, sim: seq<seq<int>>, labelled: Matrix, m: Matrix)
    requires var n := |words|;
      && IsSquare(g, n) && (forall i, j :: 0 <= i <= n && 0 <= j <= n ==> g[i][j] == uninit(i, j))
      && |sim| == n && (forall li :: 0 <= li < n ==> |sim[li]| == n)
      && (forall li, ri :: 0 <= li < n && 0 <= ri < n ==> sim[li][ri] == similarity(words[li].word, words[ri].word))
      && labelled == InitLabelsCorrected(g, n) && IsSquare(m, n)
      && (forall li, ri :: 0 <= li < ri < n ==> m[li + 1][ri + 1] == sim[li][ri])
      && (forall i, j :: 0 <= i <= n && 0 <= j <= n && !(1 <= i < j) ==> m[i][j] == labelled[i][j])
    ensures IsInitialMatrix(m, words, uninit, similarity)
  {
    var n := |words|;
    forall i, j | 1 <= j <= i <= n ensures m[i][j] == uninit(i, j) {
      assert m[i][j] == labelled[i][j] == g[i][j];
    }
  }

  /** The projection of any state the search reaches from the corrected labelling is a
      complete, sorted list of K distinct candidates. */
  lemma ProjectIsListOf(words: seq<Entry>, m0: Matrix, n: nat, numDice: nat, p: seq<nat>)
    requires IsSquare(m0, n) && IsPerm(p, n) && p[0] == 0 && |words| == n && Pow6(numDice) <= n
    requires forall s :: 1 <= s <= n ==> m0[0][s] == s - 1
    ensures forall s :: 1 <= s <= n ==> 1 <= p[s]
    ensures Project(words, Gather(m0, n, p), n, numDice).Ok?
    ensures IsListOf(Project(words, Gather(m0, n, p), n, numDice).value, Chosen(p, Pow6(numDice)), words, numDice)
  {
    CorrectedProjection(words, m0, n, numDice, p);
    ListFormat(words, Gather(m0, n, p), n, numDice);
  }

  /** The shape facts of a successful projection, in the terms of `IsListOf`. */
  lemma ListFormat(words: seq<Entry>, m: Matrix, n: nat, numDice: nat)
    requires IsSquare(m, n) && Pow6(numDice) <= n
    requires Project(words, m, n, numDice).Ok?
    ensures var lines := Project(words, m, n, numDice).value;
      && |lines| == Pow6(numDice)
      && (forall i :: 0 <= i < |lines| ==> |lines[i]| > numDice && AllFaces(lines[i][..numDice])
                                           && Decode(lines[i][..numDice]) == i && lines[i][numDice] == ' ')
      && SortedStrings(WordColumn(lines, numDice))
  {
  }
}
