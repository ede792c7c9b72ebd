/** The check-digit test of scripts/scan_no_pan.py, as in Annex B of ISO/IEC 7812-1. */
module Luhn {

  type Digit = d: int | 0 <= d < 10

  /** Python's `ds[-1::-2]`: every other element, from the last one backwards. */
  function BackwardsByTwo(ds: seq<Digit>): seq<Digit>
    decreases |ds|
  {
    if ds == [] then []
    else [ds[|ds| - 1]] + (if |ds| == 1 then [] else BackwardsByTwo(ds[..|ds| - 2]))
  }

  function Sum(ds: seq<Digit>): nat { if ds == [] then 0 else ds[0] + Sum(ds[1..]) }

  /** `sum(divmod(2 * d, 10))`. */
  function DoubledDigitSum(d: Digit): nat { (2 * d) / 10 + (2 * d) % 10 }

  function DoubledSum(ds: seq<Digit>): nat { if ds == [] then 0 else DoubledDigitSum(ds[0]) + DoubledSum(ds[1..]) }

  function Total(ds: seq<Digit>): nat {
    var even := if ds == [] then [] else BackwardsByTwo(ds[..|ds| - 1]);
    Sum(BackwardsByTwo(ds)) + DoubledSum(even)
  }

  /** `_luhn_ok`, on the digits of the number. */
  predicate LuhnOk(ds: seq<Digit>) { Total(ds) % 10 == 0 }

  // ----- the same total, digit by digit from the right

  function Share(d: Digit, doubled: bool): nat { if doubled then DoubledDigitSum(d) else d }

  function Weighted(ds: seq<Digit>, doubled: bool): nat
    decreases |ds|
  {
    if ds == [] then 0 else Share(ds[|ds| - 1], doubled) + Weighted(ds[..|ds| - 1], !doubled)
  }

  lemma {:induction false} WeightedBySlices(ds: seq<Digit>)
    ensures ds == [] || Weighted(ds, false) == Sum(BackwardsByTwo(ds)) + DoubledSum(BackwardsByTwo(ds[..|ds| - 1]))
    ensures ds == [] || Weighted(ds, true) == DoubledSum(BackwardsByTwo(ds)) + Sum(BackwardsByTwo(ds[..|ds| - 1]))
    decreases |ds|
  {
    if |ds| == 1 {
      assert ds[..0] == [];
      assert BackwardsByTwo(ds)[1..] == [];
    } else if |ds| > 1 {
      var init := ds[..|ds| - 1];
      WeightedBySlices(init);
      assert init[..|init| - 1] == ds[..|ds| - 2];
      assert BackwardsByTwo(ds)[1..] == BackwardsByTwo(ds[..|ds| - 2]);
    }
  }

  lemma TotalIsWeighted(ds: seq<Digit>)
    ensures Total(ds) == Weighted(ds, false)
  {
    WeightedBySlices(ds);
  }

  /** Whether the digit at `i` is doubled when the last one is doubled as told. */
  predicate DoubledAt(n: nat, last: bool, i: nat)
    requires i < n
  {
    last != Odd(n - 1 - i)
  }

  predicate Odd(k: nat) { k != 0 && !Odd(k - 1) }

  /** Replacing a digit changes the total by the difference of the two shares. */
  lemma {:induction false} WeightedUpdate(ds: seq<Digit>, doubled: bool, i: nat, d: Digit)
    requires i < |ds|
    ensures var at := DoubledAt(|ds|, doubled, i);
      Weighted(ds[i := d], doubled) - Share(d, at) == Weighted(ds, doubled) - Share(ds[i], at)
    decreases |ds|
  {
    var init := ds[..|ds| - 1];
    if i == |ds| - 1 {
      assert ds[i := d][..|ds| - 1] == init;
    } else {
      assert ds[i := d][..|ds| - 1] == init[i := d];
      WeightedUpdate(init, !doubled, i, d);
    }
  }

  // ----- what the test detects

  lemma DoubledDigitSumByCases(d: Digit)
    ensures DoubledDigitSum(d) == if d < 5 then 2 * d else 2 * d - 9
  {
  }

  /** Around a multiple of ten, no other multiple is closer than ten. */
  lemma NearMultiple(t: int, delta: int)
    requires t % 10 == 0 && -10 < delta < 10
    ensures (t + delta) % 10 == 0 <==> delta == 0
  {
  }

  /** Every wrong digit is detected, at any position of a number of any length. */
  lemma SubstitutionIsDetected(ds: seq<Digit>, i: nat, d: Digit)
    requires i < |ds| && d != ds[i] && LuhnOk(ds)
    ensures !LuhnOk(ds[i := d])
  {
    TotalIsWeighted(ds);
    TotalIsWeighted(ds[i := d]);
    WeightedUpdate(ds, false, i, d);
    DoubledDigitSumByCases(d);
    DoubledDigitSumByCases(ds[i]);
    var at := DoubledAt(|ds|, false, i);
    NearMultiple(Total(ds), Share(d, at) - Share(ds[i], at));
  }

  function Swapped(ds: seq<Digit>, i: nat): seq<Digit>
    requires i + 1 < |ds|
  {
    ds[i := ds[i + 1]][i + 1 := ds[i]]
  }

  /** What doubling a digit adds to its share. */
  function Gain(d: Digit): int { if d < 5 then d else d - 9 }

  lemma GainOfShare(d: Digit)
    ensures Share(d, true) - Share(d, false) == Gain(d)
  {
    DoubledDigitSumByCases(d);
  }

  lemma SwapChangesTotal(ds: seq<Digit>, i: nat)
    requires i + 1 < |ds|
    ensures var gain := Gain(ds[i]) - Gain(ds[i + 1]);
      Total(Swapped(ds, i)) == Total(ds) + (if DoubledAt(|ds|, false, i) then -gain else gain)
  {
    var once := ds[i := ds[i + 1]];
    TotalIsWeighted(ds);
    TotalIsWeighted(Swapped(ds, i));
    WeightedUpdate(ds, false, i, ds[i + 1]);
    WeightedUpdate(once, false, i + 1, ds[i]);
    GainOfShare(ds[i]);
    GainOfShare(ds[i + 1]);
  }

  predicate ZeroAndNine(a: Digit, b: Digit) { (a == 0 && b == 9) || (a == 9 && b == 0) }

  /** A swap of unequal neighbours is missed exactly when they are 0 and 9. */
  lemma TranspositionIsDetectedExactlyWhen(ds: seq<Digit>, i: nat)
    requires i + 1 < |ds| && ds[i] != ds[i + 1] && LuhnOk(ds)
    ensures LuhnOk(Swapped(ds, i)) <==> ZeroAndNine(ds[i], ds[i + 1])
  {
    SwapChangesTotal(ds, i);
    GainVanishes(ds[i], ds[i + 1]);
    var gain := Gain(ds[i]) - Gain(ds[i + 1]);
    var delta := if DoubledAt(|ds|, false, i) then -gain else gain;
    NearMultiple(Total(ds), delta);
    assert Total(Swapped(ds, i)) == Total(ds) + delta;
  }

  lemma GainVanishes(a: Digit, b: Digit)
    requires a != b
    ensures -10 < Gain(a) - Gain(b) < 10 && (Gain(a) - Gain(b) == 0 <==> ZeroAndNine(a, b))
  {
  }

  function CheckDigit(prefix: seq<Digit>): Digit { (10 - Weighted(prefix, true) % 10) % 10 }

  /** Every prefix has exactly one check digit. */
  lemma CheckDigitIsUnique(prefix: seq<Digit>, d: Digit)
    ensures LuhnOk(prefix + [d]) <==> d == CheckDigit(prefix)
  {
    TotalIsWeighted(prefix + [d]);
    assert (prefix + [d])[..|prefix|] == prefix;
  }
}
