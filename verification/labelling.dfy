/** How the labels in row 0 relate to the rows they label. The fill puts the similarities
    of word w (0-based rank) in row and column w + 1, so the label of a slot should name
    the word one below the original row that now sits in the slot. */
module Labelling {
  import opened Errors
  import opened Dice
  import opened Candidates
  import opened SimMatrix
  import opened Output

  /** Every slot 1..n is labelled with the rank of the word whose similarities occupy it,
      when slot s holds original row p[s]. */
  ghost predicate LabelsNameRows(m: Matrix, n: nat, p: seq<nat>)
    requires IsSquare(m, n) && IsPerm(p, n)
  {
    forall s :: 1 <= s <= n ==> m[0][s] + 1 == p[s]
  }

  /** As written, no slot below N is labelled with the word of its row: slot s says s
      where its row holds word s - 1. */
  lemma AsWrittenLabelsOffByOne(g: Matrix, n: nat)
    requires IsSquare(g, n) && n >= 2
    ensures !LabelsNameRows(InitLabels(g, n), n, Identity(n))
    ensures forall s :: 1 <= s < n ==> InitLabels(g, n)[0][s] == Identity(n)[s]
  {
    assert InitLabels(g, n)[0][1] + 1 != Identity(n)[1];
  }

  /** The concrete case: seven candidates and one die. Slots 1..6 hold rows 1..6, the
      similarities of words 0..5, which is the block that is scored, but their labels name
      words 1..6. The first trial of the search swaps two of these slots, so the labels of
      the selection stay {1..6}, and the first list written names word 6, which was never
      scored, and drops word 0, the most frequent candidate. */
  lemma AsWrittenNamesUnscoredWords(g: Matrix, words: seq<Entry>, inner: nat)
    requires IsSquare(g, 7) && |words| == 7 && 1 <= inner <= 6
    ensures SlotLabels(InitLabels(g, 7), 7, 6) == [1, 2, 3, 4, 5, 6]
    ensures LookUp(words, SlotLabels(InitLabels(g, 7), 7, 6))
            == Ok([words[1].word, words[2].word, words[3].word, words[4].word, words[5].word, words[6].word])
    ensures multiset(SlotLabels(Exchange(InitLabels(g, 7), 7, inner, 6), 7, 6)) == multiset{1, 2, 3, 4, 5, 6}
    ensures var q := SwapAt(Identity(7), inner, 6);
      && IsPerm(q, 7) && q[0] == 0 && multiset(q[1..7]) == multiset{1, 2, 3, 4, 5, 6}
      && Exchange(InitLabels(g, 7), 7, inner, 6) == Gather(InitLabels(g, 7), 7, q)
  {
    AsWrittenSlotLabels(g);
    AsWrittenLookUp(words);
    AsWrittenFirstTrial(g, inner);
    AsWrittenFirstTrialRows(g, inner);
  }

  /** After the first trial slots 1..6 still hold original rows 1..6 (the rows the fill
      gives to words 0..5), only in another order. */
  lemma AsWrittenFirstTrialRows(g: Matrix, inner: nat)
    requires IsSquare(g, 7) && 1 <= inner <= 6
    ensures var q := SwapAt(Identity(7), inner, 6);
      && IsPerm(q, 7) && q[0] == 0 && multiset(q[1..7]) == multiset{1, 2, 3, 4, 5, 6}
      && Exchange(InitLabels(g, 7), 7, inner, 6) == Gather(InitLabels(g, 7), 7, q)
  {
    var m := InitLabels(g, 7);
    var id := Identity(7);
    var q := SwapAt(id, inner, 6);
    GatherIdentity(m, 7);
    ExchangeGather(m, 7, id, inner, 6);
    assert id[1..7] == [1, 2, 3, 4, 5, 6];
    assert q[1..7] == id[1..7][inner - 1 := id[6]][5 := id[inner]];
    SwapMultiset(id[1..7], inner - 1, 5);
  }

  lemma AsWrittenSlotLabels(g: Matrix)
    requires IsSquare(g, 7)
    ensures SlotLabels(InitLabels(g, 7), 7, 6) == [1, 2, 3, 4, 5, 6]
  {
    var m := InitLabels(g, 7);
    var l := SlotLabels(m, 7, 6);
    forall i | 0 <= i < 6 ensures l[i] == i + 1 {
      assert l[i] == m[0][i + 1];
    }
  }

  lemma AsWrittenLookUp(words: seq<Entry>)
    requires |words| == 7
    ensures LookUp(words, [1, 2, 3, 4, 5, 6])
            == Ok([words[1].word, words[2].word, words[3].word, words[4].word, words[5].word, words[6].word])
  {
    var l := [1, 2, 3, 4, 5, 6];
    var named := LookUp(words, l);
    assert named.Ok? by {
      forall j | 0 <= j < 6 ensures PyIndex(7, l[j]).Some? {
      }
    }
    forall j | 0 <= j < 6 ensures named.value[j] == words[j + 1].word {
      assert PyIndex(7, l[j]).value == j + 1;
    }
    assert |named.value| == 6;
    assert named.value == [words[1].word, words[2].word, words[3].word, words[4].word, words[5].word, words[6].word];
  }

  lemma AsWrittenFirstTrial(g: Matrix, inner: nat)
    requires IsSquare(g, 7) && 1 <= inner <= 6
    ensures multiset(SlotLabels(Exchange(InitLabels(g, 7), 7, inner, 6), 7, 6)) == multiset{1, 2, 3, 4, 5, 6}
  {
    var m := InitLabels(g, 7);
    AsWrittenSlotLabels(g);
    var l := SlotLabels(m, 7, 6);
    var l' := SlotLabels(Exchange(m, 7, inner, 6), 7, 6);
    ExchangeMovesLabels(m, 7, inner, 6);
    assert l' == l[inner - 1 := l[5]][5 := l[inner - 1]];
    SwapMultiset(l, inner - 1, 5);
  }

  /** With the corrected labelling, every rearrangement the search can reach (a permutation
      fixing slot 0) keeps each label naming the word of its row. */
  lemma CorrectedLabelsNameRows(m0: Matrix, n: nat, p: seq<nat>)
    requires IsSquare(m0, n) && IsPerm(p, n) && p[0] == 0
    requires forall s :: 1 <= s <= n ==> m0[0][s] == s - 1
    ensures LabelsNameRows(Gather(m0, n, p), n, p)
    ensures forall s :: 1 <= s <= n ==> 1 <= p[s]
  {
    forall s | 1 <= s <= n
      ensures 1 <= p[s]
    {
      assert p[0] != p[s];
    }
  }

  /** The ranks named by slots 1..k. */
  function Chosen(p: seq<nat>, k: nat): (r: seq<nat>)
    requires k < |p| && forall s :: 1 <= s <= k ==> 1 <= p[s]
    ensures |r| == k && forall i :: 0 <= i < k ==> r[i] == p[i + 1] - 1
  {
    seq(k, i requires 0 <= i < k => p[i + 1] - 1)
  }

  /** With the corrected labelling and one word per row, the projection never fails, and it
      lists exactly the words whose rows sit in slots 1..K, which are K distinct candidates. */
  lemma CorrectedProjection(words: seq<Entry>, m0: Matrix, n: nat, numDice: nat, p: seq<nat>)
    requires IsSquare(m0, n) && IsPerm(p, n) && p[0] == 0 && |words| == n && Pow6(numDice) <= n
    requires forall s :: 1 <= s <= n ==> m0[0][s] == s - 1
    ensures forall s :: 1 <= s <= n ==> 1 <= p[s]
    ensures var r := Project(words, Gather(m0, n, p), n, numDice);
      var c := Chosen(p, Pow6(numDice));
      && r.Ok?
      && (forall i, j :: 0 <= i < j < |c| ==> c[i] != c[j])
      && (forall i :: 0 <= i < |c| ==> c[i] < n)
      && multiset(WordColumn(r.value, numDice)) == multiset(WordsAt(words, c))
  {
    var k := Pow6(numDice);
    CorrectedLookUp(words, m0, n, k, p);
  }

  lemma CorrectedLookUp(words: seq<Entry>, m0: Matrix, n: nat, k: nat, p: seq<nat>)
    requires IsSquare(m0, n) && IsPerm(p, n) && p[0] == 0 && |words| == n && k <= n
    requires forall s :: 1 <= s <= n ==> m0[0][s] == s - 1
    ensures forall s :: 1 <= s <= n ==> 1 <= p[s]
    ensures var c := Chosen(p, k);
      && (forall i, j :: 0 <= i < j < |c| ==> c[i] != c[j])
      && (forall i :: 0 <= i < |c| ==> c[i] < n)
      && LookUp(words, SlotLabels(Gather(m0, n, p), n, k)) == Ok(WordsAt(words, c))
  {
    ChosenLabels(m0, n, p, k);
    var c := Chosen(p, k);
    var labels := SlotLabels(Gather(m0, n, p), n, k);
    var named := LookUp(words, labels);
    assert named.Ok? by {
      forall j | 0 <= j < k ensures PyIndex(n, labels[j]).Some? {
      }
    }
    var expected := WordsAt(words, c);
    forall j | 0 <= j < k ensures named.value[j] == expected[j] {
      assert PyIndex(n, labels[j]).value == c[j];
    }
    assert named.value == expected;
  }

  lemma ChosenLabels(m0: Matrix, n: nat, p: seq<nat>, k: nat)
    requires IsSquare(m0, n) && IsPerm(p, n) && p[0] == 0 && k <= n
    requires forall s :: 1 <= s <= n ==> m0[0][s] == s - 1
    ensures forall s :: 1 <= s <= n ==> 1 <= p[s]
    ensures forall i :: 0 <= i < k ==> SlotLabels(Gather(m0, n, p), n, k)[i] == Chosen(p, k)[i]
    ensures forall i :: 0 <= i < k ==> Chosen(p, k)[i] < n
    ensures forall i, j :: 0 <= i < j < k ==> Chosen(p, k)[i] != Chosen(p, k)[j]
  {
    CorrectedLabelsNameRows(m0, n, p);
  }
}
