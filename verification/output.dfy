/** The pure part of `write`: the words named by the labels of slots 1..K, sorted, the
    i-th paired with the dice string of i. */
module Output {
  import opened Errors
  import opened Dice
  import opened Candidates
  import opened SimMatrix

  /** Python's `xs[i]` on a list of length `len`: negative indices count from the end;
      anything else raises `IndexError`. Returns the position read. */
  function PyIndex(len: nat, i: int): (r: Option<nat>)
    ensures r.Some? <==> -(len as int) <= i < len
    ensures r.Some? ==> r.value < len && (if i >= 0 then r.value == i else r.value == len + i)
  {
    if 0 <= i < len then Some(i)
    else if -(len as int) <= i < 0 then Some(len + i)
    else None
  }

  /** The generator `_all_words[int(index)][0] for index in labels`, run to the end by
      `sorted`: it fails at the first label that is no index into the list. */
  function LookUp(words: seq<Entry>, labels: seq<int>): (r: Result<seq<string>>)
    ensures r.Fail? <==> exists j :: 0 <= j < |labels| && PyIndex(|words|, labels[j]).None?
    ensures r.Fail? ==> exists j :: 0 <= j < |labels| && PyIndex(|words|, labels[j]).None?
                          && r.error == BadIndex(labels[j])
                          && forall i :: 0 <= i < j ==> PyIndex(|words|, labels[i]).Some?
    ensures r.Ok? ==> |r.value| == |labels|
                      && forall j :: 0 <= j < |labels| ==> r.value[j] == words[PyIndex(|words|, labels[j]).value].word
  {
    if |labels| == 0 then Ok([])
    else
      var at := PyIndex(|words|, labels[0]);
      if at.None? then Fail(BadIndex(labels[0]))
      else
        var rest := LookUp(words, labels[1..]);
        assert forall j :: 1 <= j < |labels| ==> labels[j] == labels[1..][j - 1];
        if rest.Fail? then
          ghost var j :| 0 <= j < |labels[1..]| && PyIndex(|words|, labels[1..][j]).None?
                         && rest.error == BadIndex(labels[1..][j])
                         && forall i :: 0 <= i < j ==> PyIndex(|words|, labels[1..][i]).Some?;
          assert labels[j + 1] == labels[1..][j];
          rest
        else Ok([words[at.value].word] + rest.value)
  }

  /** Python's `<=` on `str`: lexicographic by code point. */
  predicate StrLe(a: string, b: string) {
    |a| == 0 || (|b| > 0 && (a[0] < b[0] || (a[0] == b[0] && StrLe(a[1..], b[1..]))))
  }

  lemma {:induction false} StrLeTotal(a: string, b: string)
    ensures StrLe(a, b) || StrLe(b, a)
  {
    if |a| > 0 && |b| > 0 && a[0] == b[0] {
      StrLeTotal(a[1..], b[1..]);
    }
  }

  lemma {:induction false} StrLeTrans(a: string, b: string, c: string)
    requires StrLe(a, b) && StrLe(b, c)
    ensures StrLe(a, c)
  {
    if |a| > 0 && |b| > 0 && |c| > 0 && a[0] == b[0] == c[0] {
      StrLeTrans(a[1..], b[1..], c[1..]);
    }
  }

  predicate SortedStrings(s: seq<string>) {
    forall i, j :: 0 <= i < j < |s| ==> StrLe(s[i], s[j])
  }

  function InsertString(t: seq<string>, x: string): (r: seq<string>)
    requires SortedStrings(t)
    ensures SortedStrings(r) && multiset(r) == multiset(t) + multiset{x} && |r| == |t| + 1
  {
    if |t| == 0 then [x]
    else if StrLe(x, t[0]) then
      HeadBoundsSorted(x, t);
      ConsSorted(x, t);
      [x] + t
    else
      StrLeTotal(x, t[0]);
      var rest := InsertString(t[1..], x);
      assert t == [t[0]] + t[1..];
      HeadBoundsInsert(t, x, rest);
      ConsSorted(t[0], rest);
      [t[0]] + rest
  }

  lemma ConsSorted(h: string, t: seq<string>)
    requires SortedStrings(t) && forall j :: 0 <= j < |t| ==> StrLe(h, t[j])
    ensures SortedStrings([h] + t)
  {
    var r := [h] + t;
    forall i, j | 0 <= i < j < |r| ensures StrLe(r[i], r[j]) {
      if i > 0 { assert r[i] == t[i - 1] && r[j] == t[j - 1]; }
    }
  }

  lemma HeadBoundsSorted(x: string, t: seq<string>)
    requires SortedStrings(t) && |t| > 0 && StrLe(x, t[0])
    ensures forall j :: 0 <= j < |t| ==> StrLe(x, t[j])
  {
    forall j | 0 < j < |t| ensures StrLe(x, t[j]) {
      StrLeTrans(x, t[0], t[j]);
    }
  }

  lemma HeadBoundsInsert(t: seq<string>, x: string, rest: seq<string>)
    requires SortedStrings(t) && |t| > 0 && StrLe(t[0], x)
    requires multiset(rest) == multiset(t[1..]) + multiset{x}
    ensures forall j :: 0 <= j < |rest| ==> StrLe(t[0], rest[j])
  {
    forall j | 0 <= j < |rest| ensures StrLe(t[0], rest[j]) {
      assert rest[j] in multiset(t[1..]) + multiset{x};
      if rest[j] != x {
        var i :| 1 <= i < |t| && t[i] == rest[j];
      }
    }
  }

  /** `sorted` on the looked-up words. */
  function SortStrings(s: seq<string>): (r: seq<string>)
    ensures SortedStrings(r) && multiset(r) == multiset(s) && |r| == |s|
  {
    if |s| == 0 then []
    else
      assert s == s[..|s| - 1] + [s[|s| - 1]];
      InsertString(SortStrings(s[..|s| - 1]), s[|s| - 1])
  }

  /** The word column of the written lines: everything after the dice string and the space. */
  function WordColumn(lines: seq<string>, numDice: nat): seq<string>
    requires forall i :: 0 <= i < |lines| ==> |lines[i]| > numDice
  {
    seq(|lines|, i requires 0 <= i < |lines| => lines[i][numDice + 1..])
  }

  /** Lines f"{dice_str(i, D)} {words[i]}" for i = 0 .. |words| - 1. */
  function Pair(words: seq<string>, numDice: nat): (r: seq<string>)
    requires |words| <= Pow6(numDice)
    ensures |r| == |words|
    ensures forall i :: 0 <= i < |r| ==>
              |r[i]| > numDice && AllFaces(r[i][..numDice]) && Decode(r[i][..numDice]) == i && r[i][numDice] == ' '
    ensures WordColumn(r, numDice) == words
    decreases |words|
  {
    if |words| == 0 then []
    else
      var i := |words| - 1;
      var code := DiceStr(i, numDice).value;
      var line := code + [' '] + words[i];
      assert line[..numDice] == code && line[numDice + 1..] == words[i];
      var r := Pair(words[..i], numDice) + [line];
      assert WordColumn(r, numDice) == words by {
        assert WordColumn(Pair(words[..i], numDice), numDice) == words[..i];
      }
      r
  }

  /** The words of the given ranks. */
  function WordsAt(words: seq<Entry>, ranks: seq<nat>): (r: seq<string>)
    requires forall i :: 0 <= i < |ranks| ==> ranks[i] < |words|
    ensures |r| == |ranks| && forall i :: 0 <= i < |ranks| ==> r[i] == words[ranks[i]].word
  {
    seq(|ranks|, i requires 0 <= i < |ranks| => words[ranks[i]].word)
  }

  /** The labels of slots 1..k, read from row 0. */
  function SlotLabels(m: Matrix, n: nat, k: nat): (r: seq<int>)
    requires IsSquare(m, n) && k <= n
    ensures |r| == k && forall s :: 1 <= s <= k ==> r[s - 1] == m[0][s]
  {
    m[0][1..k + 1]
  }

  /** `write` without the file: the words named by the labels of slots 1..K, sorted, each
      paired with the dice string of its position. Fails when a label is no index. */
  function Project(words: seq<Entry>, m: Matrix, n: nat, numDice: nat): (r: Result<seq<string>>)
    requires IsSquare(m, n) && Pow6(numDice) <= n
    ensures r.Fail? <==> LookUp(words, SlotLabels(m, n, Pow6(numDice))).Fail?
    ensures r.Fail? ==> r.error == LookUp(words, SlotLabels(m, n, Pow6(numDice))).error
    ensures r.Ok? ==> |r.value| == Pow6(numDice)
    ensures r.Ok? ==> forall i :: 0 <= i < |r.value| ==>
              |r.value[i]| > numDice && AllFaces(r.value[i][..numDice])
              && Decode(r.value[i][..numDice]) == i && r.value[i][numDice] == ' '
    ensures r.Ok? ==> SortedStrings(WordColumn(r.value, numDice))
    ensures r.Ok? ==> multiset(WordColumn(r.value, numDice))
                      == multiset(LookUp(words, SlotLabels(m, n, Pow6(numDice))).value)
  {
    var named := LookUp(words, SlotLabels(m, n, Pow6(numDice)));
    if named.Fail? then Fail(named.error)
    else
      Ok(Pair(SortStrings(named.value), numDice))
  }
}
