/** The (N+1)x(N+1) similarity matrix of the optimiser. Row and column r (1 <= r <= N)
    belong to the word in slot r; row 0 and column 0 carry the slot labels, which the
    projection reads back. Entries are integers here. */
module SimMatrix {

  type Matrix = seq<seq<int>>

  predicate IsSquare(m: Matrix, n: nat) {
    |m| == n + 1 && forall i :: 0 <= i < |m| ==> |m[i]| == n + 1
  }

  /** The transposition of `a` and `b`. */
  function Transpose(a: nat, b: nat, x: nat): nat {
    if x == a then b else if x == b then a else x
  }

  /** `m[:, [a, b]] = m[:, [b, a]]`: exchange two columns. */
  function SwapCols(m: Matrix, n: nat, a: nat, b: nat): (r: Matrix)
    requires IsSquare(m, n) && a <= n && b <= n
    ensures IsSquare(r, n)
    ensures forall i, j :: 0 <= i <= n && 0 <= j <= n ==> r[i][j] == m[i][Transpose(a, b, j)]
  {
    seq(n + 1, i requires 0 <= i <= n => m[i][a := m[i][b]][b := m[i][a]])
  }

  /** `m[[a, b], :] = m[[b, a], :]`: exchange two rows. */
  function SwapRows(m: Matrix, n: nat, a: nat, b: nat): (r: Matrix)
    requires IsSquare(m, n) && a <= n && b <= n
    ensures IsSquare(r, n)
    ensures forall i, j :: 0 <= i <= n && 0 <= j <= n ==> r[i][j] == m[Transpose(a, b, i)][j]
  {
    m[a := m[b]][b := m[a]]
  }

  /** The trial swap: columns first, then rows. The result is the old matrix seen through
      the transposition on both indices, so the labels in row 0 and column 0 move too. */
  function Exchange(m: Matrix, n: nat, a: nat, b: nat): (r: Matrix)
    requires IsSquare(m, n) && a <= n && b <= n
    ensures IsSquare(r, n)
    ensures forall i, j :: 0 <= i <= n && 0 <= j <= n ==> r[i][j] == m[Transpose(a, b, i)][Transpose(a, b, j)]
  {
    SwapRows(SwapCols(m, n, a, b), n, a, b)
  }

  /** The revert of a rejected trial: rows first, then columns. */
  function Restore(m: Matrix, n: nat, a: nat, b: nat): (r: Matrix)
    requires IsSquare(m, n) && a <= n && b <= n
    ensures IsSquare(r, n)
    ensures forall i, j :: 0 <= i <= n && 0 <= j <= n ==> r[i][j] == m[Transpose(a, b, i)][Transpose(a, b, j)]
  {
    SwapCols(SwapRows(m, n, a, b), n, a, b)
  }

  lemma SquareEqual(m: Matrix, m': Matrix, n: nat)
    requires IsSquare(m, n) && IsSquare(m', n)
    requires forall i, j :: 0 <= i <= n && 0 <= j <= n ==> m[i][j] == m'[i][j]
    ensures m == m'
  {
    forall i | 0 <= i <= n
      ensures m[i] == m'[i]
    {
      assert forall j :: 0 <= j <= n ==> m[i][j] == m'[i][j];
    }
  }

  /** Reverting at the same pair restores the whole matrix, labels included. */
  lemma RestoreUndoesExchange(m: Matrix, n: nat, a: nat, b: nat)
    requires IsSquare(m, n) && a <= n && b <= n
    ensures Restore(Exchange(m, n, a, b), n, a, b) == m
  {
    SquareEqual(Restore(Exchange(m, n, a, b), n, a, b), m, n);
  }

  /** The swap is an involution. */
  lemma ExchangeInvolution(m: Matrix, n: nat, a: nat, b: nat)
    requires IsSquare(m, n) && a <= n && b <= n
    ensures Exchange(Exchange(m, n, a, b), n, a, b) == m
  {
    SquareEqual(Exchange(Exchange(m, n, a, b), n, a, b), m, n);
  }

  /** The labels of slots 1..n, as stored in row 0. */
  function Labels(m: Matrix, n: nat): (r: seq<int>)
    requires IsSquare(m, n)
    ensures |r| == n && forall s :: 1 <= s <= n ==> r[s - 1] == m[0][s]
  {
    m[0][1..]
  }

  /** A swap of two slots in 1..n leaves cell (0, 0) alone, exchanges the two labels in
      row 0 and in column 0, and so keeps the multiset of labels. */
  lemma ExchangeMovesLabels(m: Matrix, n: nat, a: nat, b: nat)
    requires IsSquare(m, n) && 1 <= a <= n && 1 <= b <= n
    ensures Exchange(m, n, a, b)[0][0] == m[0][0]
    ensures Labels(Exchange(m, n, a, b), n) == Labels(m, n)[a - 1 := m[0][b]][b - 1 := m[0][a]]
    ensures forall s :: 1 <= s <= n ==> Exchange(m, n, a, b)[s][0] == m[Transpose(a, b, s)][0]
    ensures multiset(Labels(Exchange(m, n, a, b), n)) == multiset(Labels(m, n))
  {
    var l, l' := Labels(m, n), Labels(Exchange(m, n, a, b), n);
    assert l' == l[a - 1 := m[0][b]][b - 1 := m[0][a]];
    if a != b {
      SwapMultiset(l, a - 1, b - 1);
    }
  }

  lemma SwapMultiset<T>(s: seq<T>, i: nat, j: nat)
    requires i < |s| && j < |s|
    ensures multiset(s[i := s[j]][j := s[i]]) == multiset(s)
  {
  }

  // ----- permutations of slots -----

  /** `p` is a permutation of 0..n. */
  predicate IsPerm(p: seq<nat>, n: nat) {
    && |p| == n + 1
    && (forall i :: 0 <= i <= n ==> p[i] <= n)
    && (forall i, j :: 0 <= i < j <= n ==> p[i] != p[j])
  }

  function Identity(n: nat): (p: seq<nat>)
    ensures IsPerm(p, n) && forall i :: 0 <= i <= n ==> p[i] == i
  {
    seq(n + 1, i => i)
  }

  function SwapAt(p: seq<nat>, a: nat, b: nat): (q: seq<nat>)
    requires a < |p| && b < |p|
    ensures |q| == |p| && forall i :: 0 <= i < |p| ==> q[i] == p[Transpose(a, b, i)]
  {
    p[a := p[b]][b := p[a]]
  }

  lemma SwapAtPerm(p: seq<nat>, n: nat, a: nat, b: nat)
    requires IsPerm(p, n) && a <= n && b <= n
    ensures IsPerm(SwapAt(p, a, b), n)
  {
    var q := SwapAt(p, a, b);
    forall i, j | 0 <= i < j <= n
      ensures q[i] != q[j]
    {
      assert Transpose(a, b, i) != Transpose(a, b, j);
    }
  }

  /** The matrix whose slot s holds what slot p[s] held in `m0`, on both axes. */
  ghost function Gather(m0: Matrix, n: nat, p: seq<nat>): (r: Matrix)
    requires IsSquare(m0, n) && IsPerm(p, n)
    ensures IsSquare(r, n)
    ensures forall i, j :: 0 <= i <= n && 0 <= j <= n ==> r[i][j] == m0[p[i]][p[j]]
  {
    seq(n + 1, i requires 0 <= i <= n => seq(n + 1, j requires 0 <= j <= n => m0[p[i]][p[j]]))
  }

  lemma GatherIdentity(m0: Matrix, n: nat)
    requires IsSquare(m0, n)
    ensures Gather(m0, n, Identity(n)) == m0
  {
    SquareEqual(Gather(m0, n, Identity(n)), m0, n);
  }

  /** A swap of a gathered matrix is the gather through the swapped permutation. */
  lemma ExchangeGather(m0: Matrix, n: nat, p: seq<nat>, a: nat, b: nat)
    requires IsSquare(m0, n) && IsPerm(p, n) && a <= n && b <= n
    ensures IsPerm(SwapAt(p, a, b), n)
    ensures Exchange(Gather(m0, n, p), n, a, b) == Gather(m0, n, SwapAt(p, a, b))
  {
    SwapAtPerm(p, n, a, b);
    SquareEqual(Exchange(Gather(m0, n, p), n, a, b), Gather(m0, n, SwapAt(p, a, b)), n);
  }

  // ----- the score -----

  /** row[1] + ... + row[k]. */
  function RowSum(row: seq<int>, k: nat): int
    requires k < |row|
  {
    if k == 0 then 0 else RowSum(row, k - 1) + row[k]
  }

  /** Sum of the block rows 1..rows, columns 1..k. */
  function BlockRows(m: Matrix, n: nat, rows: nat, k: nat): int
    requires IsSquare(m, n) && rows <= n && k <= n
  {
    if rows == 0 then 0 else BlockRows(m, n, rows - 1, k) + RowSum(m[rows], k)
  }

  /** `np.sum(m[1:K+1, 1:K+1])`: the score of the words in slots 1..k. The whole block is
      summed, diagonal and lower triangle included. */
  function BlockSum(m: Matrix, n: nat, k: nat): int
    requires IsSquare(m, n) && k <= n
  {
    BlockRows(m, n, k, k)
  }

  /** f(s[0]) + ... + f(s[|s|-1]). */
  ghost function SumOver(s: seq<nat>, f: nat -> int): int
  {
    if |s| == 0 then 0 else SumOver(s[..|s| - 1], f) + f(s[|s| - 1])
  }

  lemma {:induction false} SumOverAppend(a: seq<nat>, b: seq<nat>, f: nat -> int)
    ensures SumOver(a + b, f) == SumOver(a, f) + SumOver(b, f)
  {
    if |b| > 0 {
      assert (a + b)[..|a + b| - 1] == a + b[..|b| - 1];
      SumOverAppend(a, b[..|b| - 1], f);
    } else {
      assert a + b == a;
    }
  }

  /** A sum over a sequence depends only on its multiset. */
  lemma {:induction false} SumOverPerm(s: seq<nat>, t: seq<nat>, f: nat -> int)
    requires multiset(s) == multiset(t)
    ensures SumOver(s, f) == SumOver(t, f)
  {
    if |s| > 0 {
      var x := s[|s| - 1];
      var s' := s[..|s| - 1];
      assert s == s' + [x];
      assert x in multiset(t);
      var i :| 0 <= i < |t| && t[i] == x;
      RemoveAt(t, i);
      var t' := t[..i] + t[i + 1..];
      assert multiset(s') == multiset(s) - multiset{x};
      SumOverPerm(s', t', f);
      SumOverRemoveAt(t, i, f);
      SumOverAppend(s', [x], f);
      assert SumOver([x], f) == f(x) by { assert [x][..0] == []; }
    } else {
      assert |multiset(t)| == 0;
    }
  }

  lemma {:induction false} RemoveAt(t: seq<nat>, i: nat)
    requires i < |t|
    ensures multiset(t[..i] + t[i + 1..]) == multiset(t) - multiset{t[i]}
  {
    assert t == t[..i] + [t[i]] + t[i + 1..];
  }

  lemma {:induction false} SumOverRemoveAt(t: seq<nat>, i: nat, f: nat -> int)
    requires i < |t|
    ensures SumOver(t, f) == SumOver(t[..i] + t[i + 1..], f) + f(t[i])
  {
    var x := t[i];
    assert t == t[..i] + [x] + t[i + 1..];
    SumOverAppend(t[..i] + [x], t[i + 1..], f);
    SumOverAppend(t[..i], [x], f);
    SumOverAppend(t[..i], t[i + 1..], f);
    assert SumOver([x], f) == f(x) by { assert [x][..0] == []; }
  }

  lemma {:induction false} SumOverPointwise(s: seq<nat>, f: nat -> int, g: nat -> int)
    requires forall i :: 0 <= i < |s| ==> f(s[i]) == g(s[i])
    ensures SumOver(s, f) == SumOver(s, g)
  {
    if |s| > 0 {
      SumOverPointwise(s[..|s| - 1], f, g);
    }
  }

  /** Cell (a, b) of `m0`, zero outside the matrix. */
  function Cell(m0: Matrix, a: nat, b: nat): int {
    if a < |m0| && b < |m0[a]| then m0[a][b] else 0
  }

  ghost function RowOf(m0: Matrix, a: nat): nat -> int {
    (b: nat) => Cell(m0, a, b)
  }

  ghost function CrossOf(m0: Matrix, cols: seq<nat>): nat -> int {
    (a: nat) => SumOver(cols, RowOf(m0, a))
  }

  /** The sum of `m0` over rows `rows` and columns `cols`, each by original index. */
  ghost function SelectionSum(m0: Matrix, rows: seq<nat>, cols: seq<nat>): int {
    SumOver(rows, CrossOf(m0, cols))
  }

  lemma {:induction false} RowSumGather(m0: Matrix, n: nat, p: seq<nat>, i: nat, k: nat)
    requires IsSquare(m0, n) && IsPerm(p, n) && i <= n && k <= n
    ensures RowSum(Gather(m0, n, p)[i], k) == SumOver(p[1..k + 1], RowOf(m0, p[i]))
  {
    if k > 0 {
      RowSumGather(m0, n, p, i, k - 1);
      assert p[1..k + 1][..k - 1] == p[1..k];
    }
  }

  lemma {:induction false} BlockRowsGather(m0: Matrix, n: nat, p: seq<nat>, rows: nat, k: nat)
    requires IsSquare(m0, n) && IsPerm(p, n) && rows <= n && k <= n
    ensures BlockRows(Gather(m0, n, p), n, rows, k) == SelectionSum(m0, p[1..rows + 1], p[1..k + 1])
  {
    if rows > 0 {
      BlockRowsGather(m0, n, p, rows - 1, k);
      RowSumGather(m0, n, p, rows, k);
      assert p[1..rows + 1][..rows - 1] == p[1..rows];
    }
  }

  /** The score of a gathered matrix is the sum of `m0` over the original indices that
      now sit in slots 1..k. */
  lemma BlockSumGather(m0: Matrix, n: nat, p: seq<nat>, k: nat)
    requires IsSquare(m0, n) && IsPerm(p, n) && k <= n
    ensures BlockSum(Gather(m0, n, p), n, k) == SelectionSum(m0, p[1..k + 1], p[1..k + 1])
  {
    BlockRowsGather(m0, n, p, k, k);
  }

  lemma SelectionSumPerm(m0: Matrix, rows: seq<nat>, cols: seq<nat>, rows': seq<nat>, cols': seq<nat>)
    requires multiset(rows) == multiset(rows') && multiset(cols) == multiset(cols')
    ensures SelectionSum(m0, rows, cols) == SelectionSum(m0, rows', cols')
  {
    forall i | 0 <= i < |rows|
      ensures CrossOf(m0, cols)(rows[i]) == CrossOf(m0, cols')(rows[i])
    {
      SumOverPerm(cols, cols', RowOf(m0, rows[i]));
    }
    SumOverPointwise(rows, CrossOf(m0, cols), CrossOf(m0, cols'));
    SumOverPerm(rows, rows', CrossOf(m0, cols'));
  }

  lemma {:induction false} DistinctCount(s: seq<nat>, x: nat)
    requires forall i, j :: 0 <= i < j < |s| ==> s[i] != s[j]
    ensures multiset(s)[x] == if x in s then 1 else 0
  {
    if |s| > 0 {
      DistinctCount(s[1..], x);
      assert s == [s[0]] + s[1..];
    }
  }

  /** Two duplicate-free sequences with the same elements are permutations of each other. */
  lemma DistinctSameSet(s: seq<nat>, t: seq<nat>)
    requires forall i, j :: 0 <= i < j < |s| ==> s[i] != s[j]
    requires forall i, j :: 0 <= i < j < |t| ==> t[i] != t[j]
    requires forall x :: x in s <==> x in t
    ensures multiset(s) == multiset(t)
  {
    forall x: nat
      ensures multiset(s)[x] == multiset(t)[x]
    {
      DistinctCount(s, x);
      DistinctCount(t, x);
    }
  }

  /** The original indices in slots 1..k. */
  ghost function Selected(p: seq<nat>, k: nat): set<nat>
    requires k < |p|
  {
    set s | 1 <= s <= k :: p[s]
  }

  /** The score depends only on WHICH original indices occupy slots 1..k, not on the
      slots they occupy or on the order of the reserve. */
  lemma BlockSumDependsOnSelection(m0: Matrix, n: nat, k: nat, p: seq<nat>, q: seq<nat>)
    requires IsSquare(m0, n) && IsPerm(p, n) && IsPerm(q, n) && k <= n
    requires Selected(p, k) == Selected(q, k)
    ensures BlockSum(Gather(m0, n, p), n, k) == BlockSum(Gather(m0, n, q), n, k)
  {
    var ps, qs := p[1..k + 1], q[1..k + 1];
    forall x | x in ps
      ensures x in qs
    {
      var i :| 0 <= i < |ps| && ps[i] == x;
      assert p[i + 1] in Selected(p, k);
      assert x in Selected(q, k);
      var j :| 1 <= j <= k && q[j] == x;
      assert qs[j - 1] == x;
    }
    forall x | x in qs
      ensures x in ps
    {
      var i :| 0 <= i < |qs| && qs[i] == x;
      assert q[i + 1] in Selected(q, k);
      assert x in Selected(p, k);
      var j :| 1 <= j <= k && p[j] == x;
      assert ps[j - 1] == x;
    }
    DistinctSameSet(ps, qs);
    BlockSumGather(m0, n, p, k);
    BlockSumGather(m0, n, q, k);
    SelectionSumPerm(m0, ps, ps, qs, qs);
  }

  /** A swap of two selected slots (in particular the `outer == K` trial) or of two
      reserve slots leaves the score unchanged. */
  lemma SwapKeepsBlockSum(m: Matrix, n: nat, k: nat, a: nat, b: nat)
    requires IsSquare(m, n) && k <= n && 1 <= a <= n && 1 <= b <= n
    requires (a <= k && b <= k) || (a > k && b > k)
    ensures BlockSum(Exchange(m, n, a, b), n, k) == BlockSum(m, n, k)
  {
    var id := Identity(n);
    GatherIdentity(m, n);
    ExchangeGather(m, n, id, a, b);
    var q := SwapAt(id, a, b);
    var ids, qs := id[1..k + 1], q[1..k + 1];
    if a <= k {
      assert qs == ids[a - 1 := ids[b - 1]][b - 1 := ids[a - 1]];
      SwapMultiset(ids, a - 1, b - 1);
    } else {
      assert qs == ids;
    }
    BlockSumGather(m, n, id, k);
    BlockSumGather(m, n, q, k);
    SelectionSumPerm(m, ids, ids, qs, qs);
  }

  // ----- a lower bound, for termination of the search -----

  /** The smallest entry of `m`. */
  function Floor(m: Matrix): (lo: int)
    requires |m| > 0 && forall i :: 0 <= i < |m| ==> |m[i]| > 0
    ensures forall i, j :: 0 <= i < |m| && 0 <= j < |m[i]| ==> lo <= m[i][j]
    ensures exists i, j :: 0 <= i < |m| && 0 <= j < |m[i]| && lo == m[i][j]
  {
    var here := RowFloor(m[0]);
    if |m| == 1 then here
    else
      var rest := Floor(m[1..]);
      assert forall i :: 1 <= i < |m| ==> m[i] == m[1..][i - 1];
      if rest < here then rest else here
  }

  /** The smallest entry of a non-empty row. */
  function RowFloor(row: seq<int>): (lo: int)
    requires |row| > 0
    ensures forall j :: 0 <= j < |row| ==> lo <= row[j]
    ensures exists j :: 0 <= j < |row| && lo == row[j]
  {
    if |row| == 1 then row[0]
    else
      var rest := RowFloor(row[1..]);
      assert forall j :: 1 <= j < |row| ==> row[j] == row[1..][j - 1];
      if row[0] < rest then row[0] else rest
  }

  lemma {:induction false} RowSumAtLeast(row: seq<int>, k: nat, lo: int)
    requires k < |row| && forall j :: 1 <= j <= k ==> lo <= row[j]
    ensures RowSum(row, k) >= k * lo
  {
    if k > 0 {
      RowSumAtLeast(row, k - 1, lo);
      assert k * lo == (k - 1) * lo + lo;
    }
  }

  lemma {:induction false} BlockRowsAtLeast(m: Matrix, n: nat, rows: nat, k: nat, lo: int)
    requires IsSquare(m, n) && rows <= n && k <= n
    requires forall i, j :: 1 <= i <= rows && 1 <= j <= k ==> lo <= m[i][j]
    ensures BlockRows(m, n, rows, k) >= rows * (k * lo)
  {
    if rows > 0 {
      BlockRowsAtLeast(m, n, rows - 1, k, lo);
      RowSumAtLeast(m[rows], k, lo);
      assert rows * (k * lo) == (rows - 1) * (k * lo) + k * lo;
    }
  }

  /** The score of any rearrangement of `m0` is at least k * k times any lower bound on
      its entries, `Floor(m0)` for one. */
  lemma {:induction false} BlockSumAtLeast(m0: Matrix, n: nat, p: seq<nat>, k: nat, lo: int)
    requires IsSquare(m0, n) && IsPerm(p, n) && k <= n
    requires forall i, j :: 0 <= i <= n && 0 <= j <= n ==> lo <= m0[i][j]
    ensures BlockSum(Gather(m0, n, p), n, k) >= k * (k * lo)
  {
    BlockRowsAtLeast(Gather(m0, n, p), n, k, k, lo);
  }

  // ----- building the matrix -----

  /** Lines 81-87 as written: slot i is labelled i, in row 0 and column 0, for 1 <= i < n
      only; every other cell keeps whatever the uninitialised buffer `g` held. */
  function InitLabels(g: Matrix, n: nat): (r: Matrix)
    requires IsSquare(g, n)
    ensures IsSquare(r, n)
    ensures forall s :: 1 <= s < n ==> r[0][s] == s && r[s][0] == s
    ensures r[0][0] == g[0][0] && r[0][n] == g[0][n] && r[n][0] == g[n][0]
    ensures forall i, j :: 1 <= i <= n && 1 <= j <= n ==> r[i][j] == g[i][j]
  {
    seq(n + 1, i requires 0 <= i <= n =>
      seq(n + 1, j requires 0 <= j <= n =>
        if i == 0 && 1 <= j < n then j
        else if j == 0 && 1 <= i < n then i
        else g[i][j]))
  }

  /** The labelling the projection needs: slot s names word s - 1, whose similarities
      the fill below puts in row and column s, for every slot 1..n. */
  function InitLabelsCorrected(g: Matrix, n: nat): (r: Matrix)
    requires IsSquare(g, n)
    ensures IsSquare(r, n)
    ensures forall s :: 1 <= s <= n ==> r[0][s] == s - 1 && r[s][0] == s - 1
    ensures r[0][0] == g[0][0]
    ensures forall i, j :: 1 <= i <= n && 1 <= j <= n ==> r[i][j] == g[i][j]
  {
    seq(n + 1, i requires 0 <= i <= n =>
      seq(n + 1, j requires 0 <= j <= n =>
        if i == 0 && 1 <= j then j - 1
        else if j == 0 && 1 <= i then i - 1
        else g[i][j]))
  }

  /** Lines 103-111: for every pair of words li < ri, the similarity `sim[li][ri]` goes to
      cell (li + 1, ri + 1). Only the strict upper triangle is written: the labels, the
      diagonal and the lower triangle keep their previous values. */
  method FillSimilarity(m: Matrix, n: nat, sim: seq<seq<int>>) returns (r: Matrix)
    requires IsSquare(m, n)
    requires |sim| == n && forall li :: 0 <= li < n ==> |sim[li]| == n
    ensures IsSquare(r, n)
    ensures forall li, ri :: 0 <= li < ri < n ==> r[li + 1][ri + 1] == sim[li][ri]
    ensures forall i, j :: 0 <= i <= n && 0 <= j <= n && !(1 <= i < j) ==> r[i][j] == m[i][j]
  {
    r := m;
    var li := 0;
    while li < n
      invariant 0 <= li <= n && IsSquare(r, n)
      invariant forall a, b :: 0 <= a < b < n && a < li ==> r[a + 1][b + 1] == sim[a][b]
      invariant forall i, j :: 0 <= i <= n && 0 <= j <= n && !(1 <= i < j && i <= li) ==> r[i][j] == m[i][j]
    {
      var ri := 0;
      while ri < n
        invariant 0 <= ri <= n && IsSquare(r, n)
        invariant forall a, b :: 0 <= a < b < n && a < li ==> r[a + 1][b + 1] == sim[a][b]
        invariant forall b :: li < b < ri ==> r[li + 1][b + 1] == sim[li][b]
        invariant forall i, j :: (0 <= i <= n && 0 <= j <= n && !(1 <= i < j && i <= li)
                    && !(i == li + 1 && li + 1 < j <= ri)) ==> r[i][j] == m[i][j]
      {
        if li < ri {
          r := r[li + 1 := r[li + 1][ri + 1 := sim[li][ri]]];
        }
        ri := ri + 1;
      }
      li := li + 1;
    }
  }
}
