/** The dice encoder `dice_str`: a value in [0, 6^n) written as n die faces '1'..'6',
    most significant face first, padded on the left with '1'. */
module Dice {
  import opened Errors

  /** 6^n. */
  function Pow6(n: nat): (r: nat)
    ensures r >= 1
  {
    if n == 0 then 1 else 6 * Pow6(n - 1)
  }

  predicate IsFace(c: char) {
    '1' <= c <= '6'
  }

  predicate AllFaces(s: string) {
    forall i :: 0 <= i < |s| ==> IsFace(s[i])
  }

  /** The face showing digit `d` (0 shows '1', 5 shows '6'). */
  function Face(d: nat): (c: char)
    requires d < 6
    ensures IsFace(c) && c as int - '1' as int == d
  {
    ('1' as int + d) as char
  }

  /** Python's `count * "c"`: empty when the count is not positive. */
  function Repeat(c: char, count: int): (s: string)
    ensures |s| == if count <= 0 then 0 else count
    ensures forall i :: 0 <= i < |s| ==> s[i] == c
    decreases count
  {
    if count <= 0 then [] else [c] + Repeat(c, count - 1)
  }

  /** The value a string of faces stands for: each face minus one, base 6,
      most significant first. This is the decoder the encoder is proved against. */
  function Decode(s: string): int
  {
    if |s| == 0 then 0
    else 6 * Decode(s[..|s| - 1]) + (s[|s| - 1] as int - '1' as int)
  }

  /** The recursive worker of `dice_str(value, num_dice, pos)`. The range check is
      against `numDice`, not `numDice - pos`, at every level; once `value` reaches
      zero the remaining `numDice - pos` positions are filled with '1'. */
  function DiceStrAt(value: nat, numDice: nat, pos: nat): (r: Result<string>)
    ensures r.Fail? <==> value > Pow6(numDice) - 1
    ensures r.Fail? ==> r.error == OutOfRange(value, numDice)
    ensures pos <= numDice && value < Pow6(numDice - pos) ==>
              r.Ok? && |r.value| == numDice - pos && AllFaces(r.value) && Decode(r.value) == value
    decreases value
  {
    if value > Pow6(numDice) - 1 then
      Pow6Monotone(numDice - pos, numDice);
      Fail(OutOfRange(value, numDice))
    else if value == 0 then
      DecodeOnes(numDice - pos);
      Ok(Repeat('1', numDice - pos))
    else
      var rest := DiceStrAt(value / 6, numDice, pos + 1);
      if rest.Fail? then rest
      else
        ShiftDown(value, numDice - pos);
        DecodeSnoc(rest.value, value % 6);
        Ok(rest.value + [Face(value % 6)])
  }

  /** `dice_str(value, num_dice)`: fails exactly when `value > 6^numDice - 1`; otherwise
      returns `numDice` faces that decode back to `value`. */
  function DiceStr(value: nat, numDice: nat): (r: Result<string>)
    ensures r.Fail? <==> value > Pow6(numDice) - 1
    ensures r.Fail? ==> r.error == OutOfRange(value, numDice)
    ensures r.Ok? ==> |r.value| == numDice && AllFaces(r.value) && Decode(r.value) == value
  {
    DiceStrAt(value, numDice, 0)
  }

  lemma {:induction false} Pow6Monotone(m: int, n: nat)
    ensures 0 <= m <= n ==> Pow6(m) <= Pow6(n)
  {
    if 0 <= m < n {
      Pow6Monotone(m, n - 1);
    }
  }

  lemma DecodeOnes(count: int)
    ensures Decode(Repeat('1', count)) == 0
    decreases count
  {
    if count > 0 {
      var s := Repeat('1', count);
      assert s == Repeat('1', count - 1) + ['1'] by { RepeatSnoc('1', count); }
      assert s[..|s| - 1] == Repeat('1', count - 1);
      DecodeOnes(count - 1);
    }
  }

  lemma RepeatSnoc(c: char, count: int)
    requires count > 0
    ensures Repeat(c, count) == Repeat(c, count - 1) + [c]
  {
  }

  lemma DecodeSnoc(s: string, d: nat)
    requires d < 6
    ensures Decode(s + [Face(d)]) == 6 * Decode(s) + d
  {
    assert (s + [Face(d)])[..|s|] == s;
  }

  /** A positive value below 6^m needs at least one face, and its quotient by 6
      fits in the remaining m - 1 faces. */
  lemma ShiftDown(value: nat, m: int)
    ensures 0 <= m && 0 < value < Pow6(m) ==> m >= 1 && value / 6 < Pow6(m - 1)
  {
  }

  /** Every string of faces decodes into [0, 6^|s|). */
  lemma {:induction false} DecodeBounds(s: string)
    requires AllFaces(s)
    ensures 0 <= Decode(s) < Pow6(|s|)
  {
    if |s| > 0 {
      DecodeBounds(s[..|s| - 1]);
    }
  }

  /** Two face strings of the same length with the same value are the same string. */
  lemma {:induction false} DecodeInjective(s: string, t: string)
    requires AllFaces(s) && AllFaces(t) && |s| == |t|
    requires Decode(s) == Decode(t)
    ensures s == t
  {
    if |s| > 0 {
      var n := |s|;
      var ds := s[n - 1] as int - '1' as int;
      var dt := t[n - 1] as int - '1' as int;
      assert Decode(s) == 6 * Decode(s[..n - 1]) + ds;
      assert Decode(t) == 6 * Decode(t[..n - 1]) + dt;
      assert ds == dt && Decode(s[..n - 1]) == Decode(t[..n - 1]);
      DecodeInjective(s[..n - 1], t[..n - 1]);
      assert s == s[..n - 1] + [s[n - 1]];
      assert t == t[..n - 1] + [t[n - 1]];
    }
  }

  /** The encoder is onto: every string of `numDice` faces is the encoding of its value. */
  lemma {:induction false} DiceStrOnto(s: string)
    requires AllFaces(s)
    ensures 0 <= Decode(s) < Pow6(|s|) && DiceStr(Decode(s), |s|) == Ok(s)
  {
    DecodeBounds(s);
    var r := DiceStr(Decode(s), |s|);
    DecodeInjective(r.value, s);
  }

  /** The two ends of the range: 0 is all '1's and 6^n - 1 is all '6's. */
  lemma {:induction false} DiceStrExtremes(numDice: nat)
    ensures DiceStr(0, numDice) == Ok(Repeat('1', numDice))
    ensures DiceStr(Pow6(numDice) - 1, numDice) == Ok(Repeat('6', numDice))
  {
    DecodeOnes(numDice);
    DiceStrOnto(Repeat('1', numDice));
    DecodeSixes(numDice);
    DiceStrOnto(Repeat('6', numDice));
  }

  lemma {:induction false} DecodeSixes(count: nat)
    ensures Decode(Repeat('6', count)) == Pow6(count) - 1
  {
    if count > 0 {
      var s := Repeat('6', count);
      RepeatSnoc('6', count);
      assert s[..|s| - 1] == Repeat('6', count - 1);
      DecodeSixes(count - 1);
    }
  }

  /** The values the test suite pins down: 0 and 5 on one die, and three out-of-range calls. */
  lemma DiceStrExamples()
    ensures DiceStr(0, 1) == Ok("1") && DiceStr(5, 1) == Ok("6")
    ensures DiceStr(6, 1) == Fail(OutOfRange(6, 1))
    ensures DiceStr(7, 1) == Fail(OutOfRange(7, 1))
    ensures DiceStr(100, 2) == Fail(OutOfRange(100, 2))
  {
    DiceStrExtremes(1);
    assert Repeat('1', 1) == "1";
    assert Repeat('6', 1) == "6";
  }
}
