/** The swap-based subset search of `optimize`: slots 1..K are the selected words, slots
    K+1..N the reserve; each round draws a selected slot and tries it against slots
    K..N in turn, keeping the first swap that lowers the score. */
module Search {
  import opened Errors
  import opened SimMatrix

  /** The mutable state of the search. `score` is `None` until the first accepted trial. */
  datatype State = State(m: Matrix, score: Option<int>, stale: int, steps: nat)

  /** Python truthiness of `step_thresh`: `None` and `0` are false. */
  predicate Truthy(t: Option<int>) {
    t.Some? && t.value != 0
  }

  /** The guard of the outer loop (line 120). The inner loop checks neither counter. */
  predicate Running(stale: int, steps: nat, staleThresh: int, stepThresh: Option<int>) {
    stale < staleThresh && (!Truthy(stepThresh) || steps < stepThresh.value)
  }

  /** One trial at slots (inner, outer): swap, score the block, then either accept (reset
      `stale`, take the new score) or revert the swap and count the trial as stale. */
  function Trial(st: State, n: nat, k: nat, inner: nat, outer: nat): (r: (State, bool))
    requires IsSquare(st.m, n) && k <= n && 1 <= inner <= k && k <= outer <= n
    ensures IsSquare(r.0.m, n) && r.0.steps == st.steps + 1
    ensures r.1 ==> r.0.m == Exchange(st.m, n, inner, outer) && r.0.stale == 0
                    && r.0.score == Some(BlockSum(r.0.m, n, k))
                    && (st.score.Some? ==> r.0.score.value < st.score.value)
    ensures !r.1 ==> r.0.m == st.m && r.0.score == st.score && r.0.stale == st.stale + 1
                     && st.score.Some? && BlockSum(Exchange(st.m, n, inner, outer), n, k) >= st.score.value
    ensures st.score.None? ==> r.1
    ensures st.score == Some(BlockSum(st.m, n, k)) && outer == k ==> !r.1
  {
    var swapped := Exchange(st.m, n, inner, outer);
    var temp := BlockSum(swapped, n, k);
    FirstTrialKeepsScore(st.m, n, k, inner, outer);
    if st.score.None? || temp < st.score.value then
      (State(swapped, Some(temp), 0, st.steps + 1), true)
    else
      RestoreUndoesExchange(st.m, n, inner, outer);
      (State(Restore(swapped, n, inner, outer), st.score, st.stale + 1, st.steps + 1), false)
  }

  /** The `outer == K` trial swaps two selected slots, so its score is the current one. */
  lemma FirstTrialKeepsScore(m: Matrix, n: nat, k: nat, inner: nat, outer: nat)
    requires IsSquare(m, n) && k <= n && 1 <= inner <= k && k <= outer <= n
    ensures outer == k ==> BlockSum(Exchange(m, n, inner, outer), n, k) == BlockSum(m, n, k)
  {
    if outer == k {
      SwapKeepsBlockSum(m, n, k, inner, outer);
    }
  }

  /** Whether the swap of `inner` and `o` would be accepted from `st`: there is no score yet,
      or the swapped block scores strictly lower (lines 126-131). */
  predicate Lowers(st: State, n: nat, k: nat, inner: nat, o: nat)
    requires IsSquare(st.m, n) && k <= n && 1 <= inner <= k && k <= o <= n
  {
    st.score.None? || BlockSum(Exchange(st.m, n, inner, o), n, k) < st.score.value
  }

  /** One round of the inner loop (lines 122-147), stated without running it: `at` is the
      first slot in K..N whose swap with `inner` is accepted, or N + 1 if there is none. An
      accepting round ends with that swap, its score and `stale` reset, having counted
      at - K + 1 trials; a round without an accept leaves the matrix and score as they were
      and counts N - K + 1 stale trials. */
  ghost predicate RoundStep(st: State, n: nat, k: nat, inner: nat, at: nat, st': State)
    requires IsSquare(st.m, n) && k <= n && 1 <= inner <= k
  {
    && k <= at <= n + 1
    && (forall o :: k <= o < at ==> !Lowers(st, n, k, inner, o))
    && (at <= n ==> Lowers(st, n, k, inner, at)
                    && st' == State(Exchange(st.m, n, inner, at), Some(BlockSum(Exchange(st.m, n, inner, at), n, k)),
                                    0, st.steps + (at - k) + 1))
    && (at == n + 1 ==> st' == State(st.m, st.score, st.stale + (n + 1 - k), st.steps + (n + 1 - k)))
  }

  /** Which slots' swaps with `inner` would be accepted from `st`: entry o, for K <= o <= N. */
  function LowerFlags(st: State, n: nat, k: nat, inner: nat): (flags: seq<bool>)
    requires IsSquare(st.m, n) && k <= n && 1 <= inner <= k
    ensures |flags| == n + 1
  {
    seq(n + 1, o requires 0 <= o <= n => k <= o && Lowers(st, n, k, inner, o))
  }

  /** The first index from `from` on whose flag is set, |flags| if there is none. */
  function FirstSet(flags: seq<bool>, from: nat): (at: nat)
    requires from <= |flags|
    ensures from <= at <= |flags|
    decreases |flags| - from
  {
    if from == |flags| then from
    else if flags[from] then from
    else FirstSet(flags, from + 1)
  }

  /** `FirstSet` is the first set flag. */
  lemma {:induction false} FirstSetIsFirst(flags: seq<bool>, from: nat, at: nat)
    requires from <= at <= |flags|
    requires forall o :: from <= o < at ==> !flags[o]
    requires at < |flags| ==> flags[at]
    ensures FirstSet(flags, from) == at
    decreases |flags| - from
  {
    if from < at {
      FirstSetIsFirst(flags, from + 1, at);
    }
  }

  /** The state after the round from `st` with `inner`: the first accepted slot, if any, is
      swapped in. */
  function RoundResult(st: State, n: nat, k: nat, inner: nat): State
    requires IsSquare(st.m, n) && k <= n && 1 <= inner <= k
  {
    var at := FirstSet(LowerFlags(st, n, k, inner), k);
    if at <= n then
      var swapped := Exchange(st.m, n, inner, at);
      State(swapped, Some(BlockSum(swapped, n, k)), 0, st.steps + (at - k) + 1)
    else
      State(st.m, st.score, st.stale + (n + 1 - k), st.steps + (n + 1 - k))
  }

  /** A round has exactly one outcome: the one `RoundResult` computes. */
  lemma RoundStepIsResult(st: State, n: nat, k: nat, inner: nat, at: nat, st': State)
    requires IsSquare(st.m, n) && k <= n && 1 <= inner <= k
    requires RoundStep(st, n, k, inner, at, st')
    ensures at == FirstSet(LowerFlags(st, n, k, inner), k) && st' == RoundResult(st, n, k, inner)
  {
    var flags := LowerFlags(st, n, k, inner);
    forall o | k <= o < at
      ensures !flags[o]
    {
      assert !Lowers(st, n, k, inner, o);
    }
    FirstSetIsFirst(flags, k, at);
  }

  /** `trace` lists the states before each round of the outer loop, from the initial state
      on: the guard held before every listed round, and round t went from `inner = draw(t)`. */
  ghost predicate IsRunPrefix(trace: seq<State>, m0: Matrix, n: nat, k: nat, staleThresh: int,
                              stepThresh: Option<int>, draw: nat -> int)
  {
    && |trace| > 0 && trace[0] == State(m0, None, 0, 0) && k <= n
    && (forall i :: 0 <= i < |trace| ==> IsSquare(trace[i].m, n))
    && (forall i :: 0 <= i < |trace| - 1 ==> RoundAt(trace, i, n, k, staleThresh, stepThresh, draw))
  }

  /** Round `i` of `trace`: the guard held before it, it drew `inner = draw(i)`, and it
      went from `trace[i]` to `trace[i + 1]`. */
  ghost predicate RoundAt(trace: seq<State>, i: nat, n: nat, k: nat, staleThresh: int,
                          stepThresh: Option<int>, draw: nat -> int)
    requires i + 1 < |trace|
  {
    && IsSquare(trace[i].m, n) && k <= n
    && Running(trace[i].stale, trace[i].steps, staleThresh, stepThresh)
    && 1 <= draw(i) <= k && trace[i + 1] == RoundResult(trace[i], n, k, draw(i))
  }

  /** A whole run of the outer loop: a prefix whose last state fails the guard. */
  ghost predicate IsRun(trace: seq<State>, m0: Matrix, n: nat, k: nat, staleThresh: int,
                        stepThresh: Option<int>, draw: nat -> int)
  {
    && IsRunPrefix(trace, m0, n, k, staleThresh, stepThresh, draw)
    && !Running(trace[|trace| - 1].stale, trace[|trace| - 1].steps, staleThresh, stepThresh)
  }

  /** The scores the accepting rounds of `trace` leave, in order: a round accepts exactly
      when it changes the score (`AcceptsIffScoreChanges`), and then it leaves the new one.
      These are the points at which the source rewrites its output (line 141). */
  ghost function AcceptedScores(trace: seq<State>): seq<int>
  {
    if |trace| <= 1 then []
    else
      var prev, last := trace[|trace| - 2], trace[|trace| - 1];
      AcceptedScores(trace[..|trace| - 1])
        + (if last.score != prev.score && last.score.Some? then [last.score.value] else [])
  }

  /** One more round adds its score to `AcceptedScores` exactly when it changes the score. */
  lemma AcceptedScoresSnoc(trace: seq<State>, next: State)
    requires |trace| > 0
    ensures AcceptedScores(trace + [next])
            == AcceptedScores(trace)
               + (if next.score != trace[|trace| - 1].score && next.score.Some? then [next.score.value] else [])
  {
    assert (trace + [next])[..|trace|] == trace;
  }

  /** The first set flag is set. */
  lemma {:induction false} FirstSetIsSet(flags: seq<bool>, from: nat)
    requires from <= |flags|
    ensures FirstSet(flags, from) < |flags| ==> flags[FirstSet(flags, from)]
    decreases |flags| - from
  {
    if from < |flags| && !flags[from] {
      FirstSetIsSet(flags, from + 1);
    }
  }

  /** A round changes the score exactly when one of its trials is accepted. */
  lemma AcceptsIffScoreChanges(st: State, n: nat, k: nat, inner: nat)
    requires IsSquare(st.m, n) && k <= n && 1 <= inner <= k
    ensures RoundResult(st, n, k, inner).score != st.score <==> FirstSet(LowerFlags(st, n, k, inner), k) <= n
  {
    var flags := LowerFlags(st, n, k, inner);
    var at := FirstSet(flags, k);
    if at <= n {
      FirstSetIsSet(flags, k);
      assert Lowers(st, n, k, inner, at);
    }
  }

  /** Appending the state after one more round keeps a prefix a prefix. */
  lemma ExtendRunPrefix(trace: seq<State>, m0: Matrix, n: nat, k: nat, staleThresh: int,
                        stepThresh: Option<int>, draw: nat -> int, round: nat, at: nat, next: State)
    requires IsRunPrefix(trace, m0, n, k, staleThresh, stepThresh, draw)
    requires round == |trace| - 1 && 1 <= draw(round) <= k
    requires IsSquare(trace[round].m, n) && Running(trace[round].stale, trace[round].steps, staleThresh, stepThresh)
    requires RoundStep(trace[round], n, k, draw(round), at, next) && IsSquare(next.m, n)
    ensures IsRunPrefix(trace + [next], m0, n, k, staleThresh, stepThresh, draw)
  {
    RoundStepIsResult(trace[round], n, k, draw(round), at, next);
    var t := trace + [next];
    forall i | 0 <= i < |t| - 1
      ensures RoundAt(t, i, n, k, staleThresh, stepThresh, draw)
    {
      assert t[i] == trace[i];
      if i + 1 < |trace| {
        assert RoundAt(trace, i, n, k, staleThresh, stepThresh, draw);
        assert t[i + 1] == trace[i + 1];
      }
    }
  }

  /** The guard held before every round of a prefix but its last state. */
  lemma RunningAt(trace: seq<State>, i: nat, m0: Matrix, n: nat, k: nat, staleThresh: int,
                  stepThresh: Option<int>, draw: nat -> int)
    requires IsRunPrefix(trace, m0, n, k, staleThresh, stepThresh, draw) && i + 1 < |trace|
    ensures Running(trace[i].stale, trace[i].steps, staleThresh, stepThresh)
  {
    assert RoundAt(trace, i, n, k, staleThresh, stepThresh, draw);
  }

  /** Two runs agree on every round both contain. */
  lemma {:induction false} RunsAgree(t1: seq<State>, t2: seq<State>, m0: Matrix, n: nat, k: nat,
                                     staleThresh: int, stepThresh: Option<int>, draw: nat -> int, i: nat)
    requires IsRunPrefix(t1, m0, n, k, staleThresh, stepThresh, draw)
    requires IsRunPrefix(t2, m0, n, k, staleThresh, stepThresh, draw)
    requires i < |t1| && i < |t2|
    ensures t1[i] == t2[i]
  {
    if i > 0 {
      RunsAgree(t1, t2, m0, n, k, staleThresh, stepThresh, draw, i - 1);
      assert RoundAt(t1, i - 1, n, k, staleThresh, stepThresh, draw);
      assert RoundAt(t2, i - 1, n, k, staleThresh, stepThresh, draw);
    }
  }

  /** The run is determined by the initial matrix, the thresholds and the draws. */
  lemma RunUnique(t1: seq<State>, t2: seq<State>, m0: Matrix, n: nat, k: nat,
                  staleThresh: int, stepThresh: Option<int>, draw: nat -> int)
    requires IsRun(t1, m0, n, k, staleThresh, stepThresh, draw)
    requires IsRun(t2, m0, n, k, staleThresh, stepThresh, draw)
    ensures t1 == t2
  {
    if |t1| < |t2| {
      RunsAgree(t1, t2, m0, n, k, staleThresh, stepThresh, draw, |t1| - 1);
      RunningAt(t2, |t1| - 1, m0, n, k, staleThresh, stepThresh, draw);
      assert false;
    } else if |t2| < |t1| {
      RunsAgree(t1, t2, m0, n, k, staleThresh, stepThresh, draw, |t2| - 1);
      RunningAt(t1, |t2| - 1, m0, n, k, staleThresh, stepThresh, draw);
      assert false;
    } else {
      forall i | 0 <= i < |t1|
        ensures t1[i] == t2[i]
      {
        RunsAgree(t1, t2, m0, n, k, staleThresh, stepThresh, draw, i);
      }
    }
  }

  predicate StrictlyDecreasing(s: seq<int>) {
    forall i, j :: 0 <= i < j < |s| ==> s[i] > s[j]
  }

  /** What holds between rounds: the matrix is `m0` rearranged by a permutation that fixes
      slot 0, the labels are the initial ones rearranged, `score` is the block sum of the
      current matrix, and the accepted scores fall strictly, starting at the initial block sum. */
  ghost predicate Invariant(m0: Matrix, n: nat, k: nat, st: State, perm: seq<nat>, accepted: seq<int>)
    requires IsSquare(m0, n) && 1 <= k <= n
  {
    && IsSquare(st.m, n) && IsPerm(perm, n) && perm[0] == 0 && st.m == Gather(m0, n, perm)
    && st.m[0][0] == m0[0][0] && multiset(Labels(st.m, n)) == multiset(Labels(m0, n))
    && (st.score.Some? ==> st.score.value == BlockSum(st.m, n, k) && st.score.value >= k * (k * Floor(m0)))
    && StrictlyDecreasing(accepted) && |accepted| <= st.steps
    && (st.score.None? <==> accepted == [])
    && (accepted != [] ==> accepted[0] == BlockSum(m0, n, k) && accepted[|accepted| - 1] == st.score.value)
    && (st.score.None? ==> st == State(m0, None, 0, 0))
  }

  /** An accepted trial keeps the invariant. */
  lemma AcceptKeepsInvariant(m0: Matrix, n: nat, k: nat, st: State, perm: seq<nat>, accepted: seq<int>,
                             inner: nat, outer: nat)
    requires IsSquare(m0, n) && 1 <= k <= n && 1 <= inner <= k && k <= outer <= n
    requires Invariant(m0, n, k, st, perm, accepted)
    requires st.score.None? ==> outer == k
    requires st.score.Some? ==> BlockSum(Exchange(st.m, n, inner, outer), n, k) < st.score.value
    ensures IsPerm(SwapAt(perm, inner, outer), n)
    ensures var swapped := Exchange(st.m, n, inner, outer);
      var score := BlockSum(swapped, n, k);
      Invariant(m0, n, k, State(swapped, Some(score), 0, st.steps + 1), SwapAt(perm, inner, outer), accepted + [score])
  {
    var swapped := Exchange(st.m, n, inner, outer);
    var score := BlockSum(swapped, n, k);
    var perm' := SwapAt(perm, inner, outer);
    assert IsPerm(perm', n) && perm'[0] == 0 && swapped == Gather(m0, n, perm') by {
      ExchangeGather(m0, n, perm, inner, outer);
    }
    assert swapped[0][0] == m0[0][0] && multiset(Labels(swapped, n)) == multiset(Labels(m0, n)) by {
      ExchangeMovesLabels(st.m, n, inner, outer);
    }
    assert score >= k * (k * Floor(m0)) by {
      BlockSumAtLeast(m0, n, perm', k, Floor(m0));
    }
    assert st.score.None? ==> score == BlockSum(m0, n, k) by {
      FirstTrialKeepsScore(st.m, n, k, inner, outer);
    }
    assert StrictlyDecreasing(accepted + [score]) by {
      AppendLowerDecreasing(accepted, score);
    }
  }

  /** Appending a value below the last one keeps a sequence strictly decreasing. */
  lemma AppendLowerDecreasing(s: seq<int>, x: int)
    requires StrictlyDecreasing(s) && (s != [] ==> s[|s| - 1] > x)
    ensures StrictlyDecreasing(s + [x])
  {
    var t := s + [x];
    forall i, j | 0 <= i < j < |t|
      ensures t[i] > t[j]
    {
      if j == |s| && i < |s| - 1 {
        assert t[i] > s[|s| - 1];
      }
    }
  }

  /** Counting rejected trials keeps the invariant once a score exists. */
  lemma BumpKeepsInvariant(m0: Matrix, n: nat, k: nat, st: State, perm: seq<nat>, accepted: seq<int>, d: nat)
    requires IsSquare(m0, n) && 1 <= k <= n
    requires Invariant(m0, n, k, st, perm, accepted) && st.score.Some?
    ensures Invariant(m0, n, k, State(st.m, st.score, st.stale + d, st.steps + d), perm, accepted)
  {
  }

  /** A round keeps the invariant, extending the permutation and the accepted scores when it
      accepts. */
  lemma RoundKeepsInvariant(m0: Matrix, n: nat, k: nat, inner: nat, st: State, perm: seq<nat>,
                            accepted: seq<int>, at: nat, st': State)
    requires IsSquare(m0, n) && 1 <= k <= n && 1 <= inner <= k
    requires Invariant(m0, n, k, st, perm, accepted)
    requires RoundStep(st, n, k, inner, at, st')
    ensures at <= n ==> st'.score.Some? && IsPerm(SwapAt(perm, inner, at), n)
                        && Invariant(m0, n, k, st', SwapAt(perm, inner, at), accepted + [st'.score.value])
    ensures at <= n ==> st'.stale == 0 && (st.score.Some? ==> st'.score.value < st.score.value)
    ensures at > n ==> st.score.Some? && Invariant(m0, n, k, st', perm, accepted)
    ensures at > n ==> st'.score == st.score && st'.stale == st.stale + (n + 1 - k)
  {
    if at <= n {
      AcceptingRoundKeepsInvariant(m0, n, k, inner, st, perm, accepted, at, st');
      assert st.score.Some? ==> st'.score.value < st.score.value by {
        assert Lowers(st, n, k, inner, at);
      }
    } else {
      assert st.score.Some? by {
        assert !Lowers(st, n, k, inner, k);
      }
      BumpKeepsInvariant(m0, n, k, st, perm, accepted, n + 1 - k);
    }
  }

  /** The accepting case of `RoundKeepsInvariant`: the rejected trials before `at` only count,
      then the trial at `at` is an accepted one. */
  lemma AcceptingRoundKeepsInvariant(m0: Matrix, n: nat, k: nat, inner: nat, st: State, perm: seq<nat>,
                                     accepted: seq<int>, at: nat, st': State)
    requires IsSquare(m0, n) && 1 <= k <= n && 1 <= inner <= k
    requires Invariant(m0, n, k, st, perm, accepted)
    requires RoundStep(st, n, k, inner, at, st') && at <= n
    ensures st'.score.Some? && IsPerm(SwapAt(perm, inner, at), n)
    ensures Invariant(m0, n, k, st', SwapAt(perm, inner, at), accepted + [st'.score.value])
  {
    var mid := State(st.m, st.score, st.stale + (at - k), st.steps + (at - k));
    assert Invariant(m0, n, k, mid, perm, accepted) by {
      if st.score.Some? {
        BumpKeepsInvariant(m0, n, k, st, perm, accepted, at - k);
      } else {
        assert Lowers(st, n, k, inner, k);
      }
    }
    assert mid.score.Some? ==> BlockSum(Exchange(mid.m, n, inner, at), n, k) < mid.score.value by {
      assert Lowers(st, n, k, inner, at);
    }
    AcceptKeepsInvariant(m0, n, k, mid, perm, accepted, inner, at);
  }

  /** A trial from a state that agrees with `st` on matrix and score, in terms of `Lowers`. */
  lemma TrialOutcome(st: State, cur: State, n: nat, k: nat, inner: nat, outer: nat)
    requires IsSquare(st.m, n) && k <= n && 1 <= inner <= k && k <= outer <= n
    requires cur.m == st.m && cur.score == st.score
    ensures var r := Trial(cur, n, k, inner, outer);
      && (r.1 <==> Lowers(st, n, k, inner, outer))
      && (r.1 ==> r.0 == State(Exchange(st.m, n, inner, outer), Some(BlockSum(Exchange(st.m, n, inner, outer), n, k)),
                               0, cur.steps + 1))
      && (!r.1 ==> r.0 == State(cur.m, cur.score, cur.stale + 1, cur.steps + 1))
  {
  }

  /** One round: the inner loop for a fixed `inner` (lines 122-147), over outer = K, K+1,
      ..., N, stopping at the first accepted trial; `at` is that slot, N + 1 if there is none.
      A round that accepts nothing has counted N - K + 1 stale trials. */
  method Round(st: State, n: nat, k: nat, inner: nat) returns (st': State, ok: bool, at: nat)
    requires IsSquare(st.m, n) && k <= n && 1 <= inner <= k
    ensures RoundStep(st, n, k, inner, at, st') && (ok <==> at <= n)
  {
    st', ok := st, false;
    var outer := k;
    while outer <= n
      invariant k <= outer <= n + 1
      invariant st'.m == st.m && st'.score == st.score
      invariant st'.stale == st.stale + (outer - k) && st'.steps == st.steps + (outer - k)
      invariant forall o :: k <= o < outer ==> !Lowers(st, n, k, inner, o)
      decreases n + 1 - outer
    {
      var result := Trial(st', n, k, inner, outer);
      TrialOutcome(st, st', n, k, inner, outer);
      if result.1 {
        st', ok, at := result.0, true, outer;
        return;
      }
      st' := result.0;
      outer := outer + 1;
    }
    at := n + 1;
  }

  /** The search loop of `optimize` (lines 119-147) after the similarity fill. `draw(t)` is
      the `random.randint(1, K)` of round t. Returns the final state, the scores of the
      accepted trials in order (the points at which the source rewrites its output), and,
      as ghosts, the permutation that maps each slot to the slot it started in and the states
      before each round. */
  method Optimize(m0: Matrix, n: nat, k: nat, staleThresh: int, stepThresh: Option<int>, draw: nat -> int)
    returns (st: State, accepted: seq<int>, ghost perm: seq<nat>, ghost trace: seq<State>)
    requires IsSquare(m0, n) && 1 <= k <= n
    requires forall t :: 1 <= draw(t) <= k
    ensures IsRun(trace, m0, n, k, staleThresh, stepThresh, draw) && st == trace[|trace| - 1]
    ensures IsSquare(st.m, n)
    ensures IsPerm(perm, n) && perm[0] == 0 && st.m == Gather(m0, n, perm)
    ensures st.m[0][0] == m0[0][0] && multiset(Labels(st.m, n)) == multiset(Labels(m0, n))
    ensures !Running(st.stale, st.steps, staleThresh, stepThresh)
    ensures st.score.Some? ==> st.score.value == BlockSum(st.m, n, k)
    ensures accepted == AcceptedScores(trace)
    ensures StrictlyDecreasing(accepted) && |accepted| <= st.steps
    ensures st.score.None? <==> accepted == []
    ensures accepted != [] ==> accepted[0] == BlockSum(m0, n, k) && accepted[|accepted| - 1] == st.score.value
    ensures st.score.None? <==> !Running(0, 0, staleThresh, stepThresh)
    ensures st.score.None? ==> st == State(m0, None, 0, 0)
  {
    st := State(m0, None, 0, 0);
    accepted := [];
    perm := Identity(n);
    trace := [st];
    var round: nat := 0;
    SearchStarts(m0, n, k, staleThresh, stepThresh, draw);
    while Running(st.stale, st.steps, staleThresh, stepThresh)
      invariant Searching(m0, n, k, staleThresh, stepThresh, draw, round, st, perm, accepted, trace)
      decreases (if st.score.None? then 1 else 0),
                (if st.score.Some? then st.score.value - k * (k * Floor(m0)) else 0),
                (if st.stale < staleThresh then staleThresh - st.stale else 0)
    {
      st, accepted, perm, trace := Advance(m0, n, k, staleThresh, stepThresh, draw, round, st, accepted, perm, trace);
      round := round + 1;
    }
    SearchEnds(m0, n, k, staleThresh, stepThresh, draw, round, st, accepted, perm, trace);
  }

  /** The loop invariant of `Optimize` before round `round`: `Invariant`, the states so far
      are a prefix of the run ending in `st`, and a score exists only if the guard held at
      the start. */
  ghost predicate Searching(m0: Matrix, n: nat, k: nat, staleThresh: int, stepThresh: Option<int>, draw: nat -> int,
                            round: nat, st: State, perm: seq<nat>, accepted: seq<int>, trace: seq<State>)
    requires IsSquare(m0, n) && 1 <= k <= n
  {
    && Invariant(m0, n, k, st, perm, accepted)
    && IsRunPrefix(trace, m0, n, k, staleThresh, stepThresh, draw)
    && round == |trace| - 1 && st == trace[round]
    && (st.score.Some? ==> Running(0, 0, staleThresh, stepThresh))
    && accepted == AcceptedScores(trace)
  }

  /** The loop invariant holds before the first round. */
  lemma SearchStarts(m0: Matrix, n: nat, k: nat, staleThresh: int, stepThresh: Option<int>, draw: nat -> int)
    requires IsSquare(m0, n) && 1 <= k <= n
    ensures Searching(m0, n, k, staleThresh, stepThresh, draw, 0, State(m0, None, 0, 0), Identity(n), [],
                      [State(m0, None, 0, 0)])
  {
    GatherIdentity(m0, n);
  }

  /** What the loop invariant gives once the guard fails. */
  lemma SearchEnds(m0: Matrix, n: nat, k: nat, staleThresh: int, stepThresh: Option<int>, draw: nat -> int,
                   round: nat, st: State, accepted: seq<int>, perm: seq<nat>, trace: seq<State>)
    requires IsSquare(m0, n) && 1 <= k <= n
    requires Searching(m0, n, k, staleThresh, stepThresh, draw, round, st, perm, accepted, trace)
    requires !Running(st.stale, st.steps, staleThresh, stepThresh)
    ensures IsRun(trace, m0, n, k, staleThresh, stepThresh, draw) && st == trace[|trace| - 1]
    ensures IsSquare(st.m, n)
    ensures IsPerm(perm, n) && perm[0] == 0 && st.m == Gather(m0, n, perm)
    ensures st.m[0][0] == m0[0][0] && multiset(Labels(st.m, n)) == multiset(Labels(m0, n))
    ensures st.score.Some? ==> st.score.value == BlockSum(st.m, n, k)
    ensures accepted == AcceptedScores(trace)
    ensures StrictlyDecreasing(accepted) && |accepted| <= st.steps
    ensures st.score.None? <==> accepted == []
    ensures accepted != [] ==> accepted[0] == BlockSum(m0, n, k) && accepted[|accepted| - 1] == st.score.value
    ensures st.score.None? <==> !Running(0, 0, staleThresh, stepThresh)
    ensures st.score.None? ==> st == State(m0, None, 0, 0)
  {
  }

  /** One round of the search loop with its bookkeeping: an accepting round records its
      score and composes the permutation with its swap; either way the new state extends
      the run. The state either takes a score below the previous one, or keeps its score
      and counts the round's N - K + 1 trials as stale. */
  method Advance(m0: Matrix, n: nat, k: nat, staleThresh: int, stepThresh: Option<int>, draw: nat -> int,
                 round: nat, st: State, accepted: seq<int>, ghost perm: seq<nat>, ghost trace: seq<State>)
    returns (st': State, accepted': seq<int>, ghost perm': seq<nat>, ghost trace': seq<State>)
    requires IsSquare(m0, n) && 1 <= k <= n && 1 <= draw(round) <= k
    requires Searching(m0, n, k, staleThresh, stepThresh, draw, round, st, perm, accepted, trace)
    requires Running(st.stale, st.steps, staleThresh, stepThresh)
    ensures Searching(m0, n, k, staleThresh, stepThresh, draw, round + 1, st', perm', accepted', trace')
    ensures trace' == trace + [st'] && st'.score.Some?
    ensures st.score.Some? ==> st'.score.value < st.score.value
                               || (st'.score == st.score && st'.stale == st.stale + (n + 1 - k))
  {
    var inner := draw(round);
    var ok, at;
    st', ok, at := Round(st, n, k, inner);
    RoundKeepsInvariant(m0, n, k, inner, st, perm, accepted, at, st');
    if ok {
      perm', accepted' := SwapAt(perm, inner, at), accepted + [st'.score.value];
    } else {
      perm', accepted' := perm, accepted;
    }
    ExtendRunPrefix(trace, m0, n, k, staleThresh, stepThresh, draw, round, at, st');
    AcceptedScoresSnoc(trace, st');
    trace' := trace + [st'];
  }
}
