/** Candidate ranking: the corpus records that pass the admissibility filter, stably
    sorted by descending count, and the two size checks of the `Words` constructor. */
module Candidates {
  import opened Errors
  import opened Dice

  /** One corpus record after parsing: the word and its frequency count. */
  datatype Entry = Entry(word: string, count: int)

  /** First letter of the pattern `^[A-ZÄÖÜa-zßäöü][a-zßäöü]*$`. */
  predicate IsHeadLetter(c: char) {
    ('A' <= c <= 'Z') || c == '\U{C4}' || c == '\U{D6}' || c == '\U{DC}' || IsTailLetter(c)
  }

  /** Every later letter of the pattern: lower case only. */
  predicate IsTailLetter(c: char) {
    ('a' <= c <= 'z') || c == '\U{DF}' || c == '\U{E4}' || c == '\U{F6}' || c == '\U{FC}'
  }

  predicate IsLetterWord(w: string) {
    |w| >= 1 && IsHeadLetter(w[0]) && forall i :: 1 <= i < |w| ==> IsTailLetter(w[i])
  }

  /** `re.match` with the pattern above. Python's `$` also matches just before a final
      newline, so a letter word followed by one '\n' matches too. */
  predicate MatchesPattern(w: string) {
    IsLetterWord(w) || (|w| >= 1 && w[|w| - 1] == '\n' && IsLetterWord(w[..|w| - 1]))
  }

  /** The filter of the list comprehension: count strictly above the threshold,
      length within the bounds (both inclusive), and the letter pattern. */
  predicate Admissible(e: Entry, countThresh: int, lenMin: int, lenMax: int) {
    e.count > countThresh && lenMin <= |e.word| <= lenMax && MatchesPattern(e.word)
  }

  /** The records that pass the filter, in corpus order. */
  function Admitted(s: seq<Entry>, countThresh: int, lenMin: int, lenMax: int): (r: seq<Entry>)
    ensures forall i :: 0 <= i < |r| ==> Admissible(r[i], countThresh, lenMin, lenMax)
    ensures forall e :: multiset(r)[e] == if Admissible(e, countThresh, lenMin, lenMax) then multiset(s)[e] else 0
  {
    if |s| == 0 then []
    else
      var rest := Admitted(s[1..], countThresh, lenMin, lenMax);
      assert s == [s[0]] + s[1..];
      if Admissible(s[0], countThresh, lenMin, lenMax) then [s[0]] + rest else rest
  }

  /** The positions of `s` whose records pass the filter, in increasing order. */
  function AdmittedPositions(s: seq<Entry>, countThresh: int, lenMin: int, lenMax: int): (idx: seq<nat>)
    ensures |idx| == |Admitted(s, countThresh, lenMin, lenMax)|
  {
    if |s| == 0 then []
    else
      var rest := Shift(AdmittedPositions(s[1..], countThresh, lenMin, lenMax));
      if Admissible(s[0], countThresh, lenMin, lenMax) then [0] + rest else rest
  }

  function Shift(t: seq<nat>): (r: seq<nat>)
    ensures |r| == |t| && forall i :: 0 <= i < |t| ==> r[i] == t[i] + 1
  {
    seq(|t|, i requires 0 <= i < |t| => t[i] + 1)
  }

  /** The filter keeps corpus order: `Admitted` is `s` read at increasing positions that
      are exactly the positions of the admissible records. */
  lemma {:induction false} AdmittedInCorpusOrder(s: seq<Entry>, countThresh: int, lenMin: int, lenMax: int)
    ensures var idx, r := AdmittedPositions(s, countThresh, lenMin, lenMax), Admitted(s, countThresh, lenMin, lenMax);
      && (forall i :: 0 <= i < |idx| ==> idx[i] < |s| && r[i] == s[idx[i]])
      && (forall i, j :: 0 <= i < j < |idx| ==> idx[i] < idx[j])
      && (forall j :: 0 <= j < |s| ==> (Admissible(s[j], countThresh, lenMin, lenMax) <==> j in idx))
  {
    AdmittedAtPositions(s, countThresh, lenMin, lenMax);
    AdmittedPositionsIncrease(s, countThresh, lenMin, lenMax);
    AdmittedPositionsCover(s, countThresh, lenMin, lenMax);
  }

  lemma AdmittedUnfold(s: seq<Entry>, countThresh: int, lenMin: int, lenMax: int)
    requires |s| > 0
    ensures Admitted(s, countThresh, lenMin, lenMax)
         == (if Admissible(s[0], countThresh, lenMin, lenMax) then [s[0]] else [])
            + Admitted(s[1..], countThresh, lenMin, lenMax)
  {
  }

  lemma PositionsUnfold(s: seq<Entry>, countThresh: int, lenMin: int, lenMax: int)
    requires |s| > 0
    ensures AdmittedPositions(s, countThresh, lenMin, lenMax)
         == (if Admissible(s[0], countThresh, lenMin, lenMax) then [0] else [])
            + Shift(AdmittedPositions(s[1..], countThresh, lenMin, lenMax))
  {
  }

  lemma {:induction false} AdmittedAtPositions(s: seq<Entry>, countThresh: int, lenMin: int, lenMax: int)
    ensures var idx, r := AdmittedPositions(s, countThresh, lenMin, lenMax), Admitted(s, countThresh, lenMin, lenMax);
      forall i :: 0 <= i < |idx| ==> idx[i] < |s| && r[i] == s[idx[i]]
  {
    if |s| > 0 {
      var t := s[1..];
      AdmittedAtPositions(t, countThresh, lenMin, lenMax);
      AdmittedUnfold(s, countThresh, lenMin, lenMax);
      PositionsUnfold(s, countThresh, lenMin, lenMax);
      var pos, kept := AdmittedPositions(t, countThresh, lenMin, lenMax), Admitted(t, countThresh, lenMin, lenMax);
      var sp := Shift(pos);
      ShiftAt(s, pos, kept);
      if Admissible(s[0], countThresh, lenMin, lenMax) {
        ConsAt(s[0], kept, sp, s);
      }
    }
  }

  /** Positions in `s[1..]` are positions in `s` once shifted by one. */
  lemma ShiftAt(s: seq<Entry>, pos: seq<nat>, kept: seq<Entry>)
    requires |s| > 0 && |kept| == |pos|
    requires forall k :: 0 <= k < |pos| ==> pos[k] < |s| - 1 && kept[k] == s[1..][pos[k]]
    ensures forall k :: 0 <= k < |pos| ==> Shift(pos)[k] < |s| && kept[k] == s[Shift(pos)[k]]
  {
  }

  /** Prepending position 0 and entry s[0] keeps "each entry is s at its position". */
  lemma ConsAt(e: Entry, kept: seq<Entry>, sp: seq<nat>, s: seq<Entry>)
    requires |s| > 0 && s[0] == e && |kept| == |sp|
    requires forall k :: 0 <= k < |sp| ==> sp[k] < |s| && kept[k] == s[sp[k]]
    ensures var idx, r := [0] + sp, [e] + kept;
      forall i :: 0 <= i < |idx| ==> idx[i] < |s| && r[i] == s[idx[i]]
  {
    var idx, r := [0] + sp, [e] + kept;
    forall i | 1 <= i < |idx| ensures idx[i] < |s| && r[i] == s[idx[i]] {
      assert idx[i] == sp[i - 1] && r[i] == kept[i - 1];
    }
  }

  lemma {:induction false} AdmittedPositionsIncrease(s: seq<Entry>, countThresh: int, lenMin: int, lenMax: int)
    ensures var idx := AdmittedPositions(s, countThresh, lenMin, lenMax);
      forall i, j :: 0 <= i < j < |idx| ==> idx[i] < idx[j]
  {
    if |s| > 0 {
      AdmittedPositionsIncrease(s[1..], countThresh, lenMin, lenMax);
      PositionsUnfold(s, countThresh, lenMin, lenMax);
    }
  }

  lemma {:induction false} AdmittedPositionsCover(s: seq<Entry>, countThresh: int, lenMin: int, lenMax: int)
    ensures var idx := AdmittedPositions(s, countThresh, lenMin, lenMax);
      forall j :: 0 <= j < |s| ==> (Admissible(s[j], countThresh, lenMin, lenMax) <==> j in idx)
  {
    if |s| > 0 {
      var t := s[1..];
      AdmittedPositionsCover(t, countThresh, lenMin, lenMax);
      PositionsUnfold(s, countThresh, lenMin, lenMax);
      var pos := AdmittedPositions(t, countThresh, lenMin, lenMax);
      forall j | 0 <= j < |s|
        ensures Admissible(s[j], countThresh, lenMin, lenMax) <==> j in AdmittedPositions(s, countThresh, lenMin, lenMax)
      {
        ShiftMember(pos, j);
        if j >= 1 {
          assert s[j] == t[j - 1];
        }
      }
    }
  }

  lemma ShiftMember(t: seq<nat>, j: int)
    ensures j in Shift(t) <==> (j >= 1 && j - 1 in t)
  {
    if j >= 1 && j - 1 in t {
      var i :| 0 <= i < |t| && t[i] == j - 1;
      assert Shift(t)[i] == j;
    }
  }

  /** The entries of `s` whose count is `c`, in order. */
  function WithCount(s: seq<Entry>, c: int): seq<Entry>
  {
    if |s| == 0 then []
    else (if s[0].count == c then [s[0]] else []) + WithCount(s[1..], c)
  }

  predicate SortedByCountDesc(s: seq<Entry>) {
    forall i, j :: 0 <= i < j < |s| ==> s[i].count >= s[j].count
  }

  /** What `sorted(key=count, reverse=True)` promises: descending counts, and the entries of
      every count in their input order (Python's sort is stable, also when reversed). */
  ghost predicate IsStableSortDesc(r: seq<Entry>, s: seq<Entry>) {
    SortedByCountDesc(r) && forall c :: WithCount(r, c) == WithCount(s, c)
  }

  /** Insert `x` after every entry whose count is at least `x.count`. */
  function Insert(t: seq<Entry>, x: Entry): (r: seq<Entry>)
    ensures multiset(r) == multiset(t) + multiset{x}
    ensures |r| == |t| + 1
  {
    if |t| == 0 then [x]
    else if t[0].count >= x.count then
      assert t == [t[0]] + t[1..];
      [t[0]] + Insert(t[1..], x)
    else [x] + t
  }

  /** Stable sort by descending count, by insertion of each entry after its predecessors. */
  function SortByCount(s: seq<Entry>): (r: seq<Entry>)
    ensures multiset(r) == multiset(s)
  {
    if |s| == 0 then []
    else
      assert s == s[..|s| - 1] + [s[|s| - 1]];
      Insert(SortByCount(s[..|s| - 1]), s[|s| - 1])
  }

  lemma {:induction false} WithCountAppend(a: seq<Entry>, b: seq<Entry>, c: int)
    ensures WithCount(a + b, c) == WithCount(a, c) + WithCount(b, c)
  {
    if |a| > 0 {
      assert a + b == [a[0]] + (a[1..] + b);
      assert a == [a[0]] + a[1..];
      WithCountCons(a[0], a[1..] + b, c);
      WithCountCons(a[0], a[1..], c);
      WithCountAppend(a[1..], b, c);
    } else {
      assert a + b == b;
    }
  }

  lemma WithCountCons(e: Entry, s: seq<Entry>, c: int)
    ensures WithCount([e] + s, c) == (if e.count == c then [e] else []) + WithCount(s, c)
  {
    assert ([e] + s)[1..] == s;
  }

  lemma {:induction false} WithCountNone(s: seq<Entry>, c: int)
    requires forall i :: 0 <= i < |s| ==> s[i].count != c
    ensures WithCount(s, c) == []
  {
    if |s| > 0 {
      WithCountNone(s[1..], c);
    }
  }

  lemma {:induction false} InsertSorted(t: seq<Entry>, x: Entry)
    requires SortedByCountDesc(t)
    ensures SortedByCountDesc(Insert(t, x))
  {
    if |t| > 0 && t[0].count >= x.count {
      InsertSorted(t[1..], x);
      var r := Insert(t, x);
      assert r == [t[0]] + Insert(t[1..], x);
      forall j | 0 < j < |r|
        ensures r[0].count >= r[j].count
      {
        assert r[j] in multiset(Insert(t[1..], x));
        assert r[j] in multiset(t[1..]) + multiset{x};
      }
    }
  }

  lemma {:induction false} InsertStable(t: seq<Entry>, x: Entry, c: int)
    requires SortedByCountDesc(t)
    ensures WithCount(Insert(t, x), c) == WithCount(t + [x], c)
  {
    if |t| == 0 {
    } else if t[0].count >= x.count {
      InsertStable(t[1..], x, c);
      assert Insert(t, x) == [t[0]] + Insert(t[1..], x);
      WithCountCons(t[0], Insert(t[1..], x), c);
      WithCountCons(t[0], t[1..] + [x], c);
      assert t + [x] == [t[0]] + (t[1..] + [x]);
    } else {
      assert Insert(t, x) == [x] + t;
      WithCountCons(x, t, c);
      WithCountAppend(t, [x], c);
      WithCountCons(x, [], c);
      if c == x.count {
        forall i | 0 <= i < |t|
          ensures t[i].count != c
        {
          assert t[0].count >= t[i].count;
        }
        WithCountNone(t, c);
      }
    }
  }

  /** `SortByCount` meets the stable-sort specification. */
  lemma {:induction false} SortByCountIsStableSort(s: seq<Entry>)
    ensures IsStableSortDesc(SortByCount(s), s)
  {
    if |s| > 0 {
      var p := s[..|s| - 1];
      var x := s[|s| - 1];
      var t := SortByCount(p);
      assert s == p + [x];
      assert SortByCount(s) == Insert(t, x);
      SortByCountIsStableSort(p);
      InsertSorted(t, x);
      forall c
        ensures WithCount(Insert(t, x), c) == WithCount(p + [x], c)
      {
        InsertStable(t, x, c);
        WithCountAppend(t, [x], c);
        WithCountAppend(p, [x], c);
      }
    }
  }

  lemma {:induction false} WithCountMember(s: seq<Entry>, c: int, e: Entry)
    requires e in WithCount(s, c)
    ensures e in s && e.count == c
  {
    if |s| > 0 {
      if e != s[0] || s[0].count != c {
        WithCountMember(s[1..], c, e);
      }
    }
  }

  lemma NonEmptyHasCount(s: seq<Entry>)
    ensures |s| > 0 ==> WithCount(s, s[0].count) != []
  {
  }

  /** The stable-sort specification has exactly one solution per input, so any
      implementation meeting it produces the same candidate list. */
  lemma {:induction false} StableSortUnique(r1: seq<Entry>, r2: seq<Entry>)
    requires SortedByCountDesc(r1) && SortedByCountDesc(r2)
    requires forall c :: WithCount(r1, c) == WithCount(r2, c)
    ensures r1 == r2
  {
    if |r1| == 0 && |r2| == 0 {
    } else if |r1| == 0 || |r2| == 0 {
      NonEmptyHasCount(r1);
      NonEmptyHasCount(r2);
      assert false;
    } else {
      SameHead(r1, r2);
      SameTails(r1, r2);
      StableSortUnique(r1[1..], r2[1..]);
      assert r1 == [r1[0]] + r1[1..];
      assert r2 == [r2[0]] + r2[1..];
    }
  }

  /** Two stable sorts of the same input start with the same entry. */
  lemma SameHead(r1: seq<Entry>, r2: seq<Entry>)
    requires |r1| > 0 && |r2| > 0
    requires SortedByCountDesc(r1) && SortedByCountDesc(r2)
    requires forall c :: WithCount(r1, c) == WithCount(r2, c)
    ensures r1[0] == r2[0]
  {
    var c1, c2 := r1[0].count, r2[0].count;
    assert WithCount(r1, c1)[0] == r1[0];
    assert r1[0] in WithCount(r2, c1);
    WithCountMember(r2, c1, r1[0]);
    assert WithCount(r2, c2)[0] == r2[0];
    assert r2[0] in WithCount(r1, c2);
    WithCountMember(r1, c2, r2[0]);
    assert c1 == c2;
  }

  /** Dropping a common first entry keeps the per-count subsequences equal. */
  lemma SameTails(r1: seq<Entry>, r2: seq<Entry>)
    requires |r1| > 0 && |r2| > 0 && r1[0] == r2[0]
    requires forall c :: WithCount(r1, c) == WithCount(r2, c)
    ensures forall c :: WithCount(r1[1..], c) == WithCount(r2[1..], c)
  {
    forall c
      ensures WithCount(r1[1..], c) == WithCount(r2[1..], c)
    {
      var h := if r1[0].count == c then [r1[0]] else [];
      assert WithCount(r1, c) == h + WithCount(r1[1..], c);
      assert WithCount(r2, c) == h + WithCount(r2[1..], c);
      assert WithCount(r1[1..], c) == (h + WithCount(r1[1..], c))[|h|..];
      assert WithCount(r2[1..], c) == (h + WithCount(r2[1..], c))[|h|..];
    }
  }


  /** The candidate list: admissible records, stably sorted by descending count. */
  function Rank(s: seq<Entry>, countThresh: int, lenMin: int, lenMax: int): seq<Entry>
  {
    SortByCount(Admitted(s, countThresh, lenMin, lenMax))
  }

  /** State of a `Words` object after its constructor: the configuration and the
      candidate list. */
  datatype Words = Words(numDice: nat, staleThresh: int, stepThresh: Option<int>, allWords: seq<Entry>)
  {
    /** `_num_words`: K = 6^numDice. */
    function NumWords(): nat { Pow6(numDice) }
  }

  /** The `Words` constructor without the file reading: rank the records, then fail with
      "No words found" on an empty list, or "Expected at least K words, found N" when
      N < K; the first check wins. */
  function NewWords(records: seq<Entry>, numDice: nat, countThresh: int, lenMin: int, lenMax: int,
                    staleThresh: int, stepThresh: Option<int>): (r: Result<Words>)
    ensures var n := |Admitted(records, countThresh, lenMin, lenMax)|;
      && (r == Fail(NoWordsFound) <==> n == 0)
      && (r == Fail(TooFewWords(Pow6(numDice), n)) <==> 0 < n < Pow6(numDice))
      && (r.Ok? <==> n >= Pow6(numDice))
    ensures r.Ok? ==> r.value.numDice == numDice && r.value.staleThresh == staleThresh
                      && r.value.stepThresh == stepThresh
                      && IsStableSortDesc(r.value.allWords, Admitted(records, countThresh, lenMin, lenMax))
                      && r.value.allWords == Rank(records, countThresh, lenMin, lenMax)
                      && |r.value.allWords| == |Admitted(records, countThresh, lenMin, lenMax)|
  {
    var all := Rank(records, countThresh, lenMin, lenMax);
    SortByCountIsStableSort(Admitted(records, countThresh, lenMin, lenMax));
    assert |all| == |Admitted(records, countThresh, lenMin, lenMax)| by {
      assert |multiset(all)| == |multiset(Admitted(records, countThresh, lenMin, lenMax))|;
    }
    if |all| == 0 then Fail(NoWordsFound)
    else if |all| < Pow6(numDice) then Fail(TooFewWords(Pow6(numDice), |all|))
    else Ok(Words(numDice, staleThresh, stepThresh, all))
  }
}
