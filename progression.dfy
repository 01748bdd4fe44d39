/** The progression rule of `calculateNextWeight`: average the first value
    (the repetitions of the first set) of every record, take the second value
    of the last record as the current weight, and suggest five percent more,
    five percent less or the same weight. */
module Progression {
  import opened Wrappers
  import opened JavaInt
  import opened RecordCodec

  /** The three outcomes of the average test. */
  datatype Change = Increase | Decrease | Keep

  /** The exceptions `calculateNextWeight` lets escape: the
      `NumberFormatException` of the log read, and its three
      `IllegalArgumentException`s. */
  datatype CalcError = NumberFormat(field: string) | NoRecords | NoReps | NoWeight

  /** A suggestion: the decision taken, the weight it starts from, and the
      returned value `Math.round(next * 10.0) / 10.0` counted in tenths. */
  datatype Suggestion = Suggestion(change: Change, current: Int32, tenths: int)

  /** The first value of every record that has one, in record order. */
  function FirstValues(records: seq<Record>): (reps: seq<Int32>)
    ensures |reps| <= |records|
  {
    if records == [] then []
    else
      var last := records[|records| - 1];
      FirstValues(records[..|records| - 1]) + (if last.values != [] then [last.values[0]] else [])
  }

  /** Records that all have values give exactly one repetition count each. */
  lemma {:induction false} FirstValuesOfFull(records: seq<Record>)
    requires forall i :: 0 <= i < |records| ==> records[i].values != []
    ensures |FirstValues(records)| == |records|
    ensures forall i :: 0 <= i < |records| ==> FirstValues(records)[i] == records[i].values[0]
  {
    if records != [] {
      FirstValuesOfFull(records[..|records| - 1]);
    }
  }

  /** The exact sum. */
  function Sum(xs: seq<int>): int {
    if xs == [] then 0 else Sum(xs[..|xs| - 1]) + xs[|xs| - 1]
  }

  /** `total += r` over an `int` accumulator: every step wraps at 32 bits. */
  function JavaSum(xs: seq<Int32>): Int32 {
    if xs == [] then 0 else Wrap(JavaSum(xs[..|xs| - 1]) + xs[|xs| - 1])
  }

  /** Wrapping at every step is the same as wrapping the exact sum once. */
  lemma {:induction false} JavaSumWraps(xs: seq<Int32>)
    ensures JavaSum(xs) == Wrap(Sum(xs))
  {
    if xs != [] {
      var init := xs[..|xs| - 1];
      JavaSumWraps(init);
      WrapAdd(Sum(init), xs[|xs| - 1]);
    }
  }

  /** `avg > 8` and `avg < 5` on `avg = (double) total / count`, decided on
      integers. */
  function Decide(total: int, count: nat): (r: Change)
    ensures r == Keep <==> 5 * count <= total <= 8 * count
  {
    if total > 8 * count then Increase
    else if total < 5 * count then Decrease
    else Keep
  }

  /** Comparing a quotient with a bound is comparing the numerator with the
      bound times the (positive) denominator. */
  lemma ScaleCompare(m: real, c: real, k: real)
    requires c > 0.0
    ensures m > k <==> m * c > k * c
    ensures m < k <==> m * c < k * c
  {
    if m > k {
      assert (m - k) * c > 0.0;
    }
    if m < k {
      assert (k - m) * c > 0.0;
    }
    if m == k {
      assert m * c == k * c;
    }
  }

  /** An integer comparison of a total with `k` times a positive count is
      the comparison of the real mean with `k`. */
  lemma MeanCompare(total: int, count: nat, k: int)
    requires count > 0
    ensures total > k * count <==> total as real / count as real > k as real
    ensures total < k * count <==> total as real / count as real < k as real
  {
    var c, t := count as real, total as real;
    var mean := t / c;
    assert mean * c == t;
    assert (k * count) as real == k as real * c;
    ScaleCompare(mean, c, k as real);
  }

  /** The integer tests are the `avg > 8` and `avg < 5` comparisons of the
      mean. */
  lemma DecideIsMeanTest(total: int, count: nat)
    requires count > 0
    ensures Decide(total, count) == Increase <==> total as real / count as real > 8.0
    ensures Decide(total, count) == Decrease <==> total as real / count as real < 5.0
    ensures Decide(total, count) == Keep <==> 5.0 <= total as real / count as real <= 8.0
  {
    MeanCompare(total, count, 8);
    MeanCompare(total, count, 5);
  }

  /** `Math.round(n / d)`: the nearest integer, halves rounded up. */
  function RoundHalfUp(n: int, d: nat): (r: int)
    requires d > 0
    ensures 2 * d * r <= 2 * n + d < 2 * d * r + 2 * d
  {
    (2 * n + d) / (2 * d)
  }

  /** `next * 10.0` before rounding, as a fraction: `w * 1.05 * 10` is
      `21 w / 2`, `w * 0.95 * 10` is `19 w / 2`, and `w * 10`. */
  function NextTenths(change: Change, weight: int): (r: int)
    ensures change == Keep ==> r == 10 * weight
    ensures change == Increase ==> 4 * r <= 42 * weight + 2 < 4 * r + 4
    ensures change == Decrease ==> 4 * r <= 38 * weight + 2 < 4 * r + 4
  {
    match change
    case Increase => RoundHalfUp(21 * weight, 2)
    case Decrease => RoundHalfUp(19 * weight, 2)
    case Keep => 10 * weight
  }

  /** For a weight that is not negative the suggestion moves the right way. */
  lemma NextTenthsDirection(change: Change, weight: nat)
    ensures change == Increase ==> NextTenths(change, weight) >= 10 * weight
    ensures change == Decrease ==> NextTenths(change, weight) <= 10 * weight
  {
  }

  /** What `calculateNextWeight` computes from the records read. */
  function Suggest(records: seq<Record>): (r: Result<Suggestion, CalcError>)
    ensures r == Failure(NoRecords) <==> records == []
    ensures r.Success? ==> |records[|records| - 1].values| >= 2 && r.value.current == records[|records| - 1].values[1]
    ensures r.Failure? ==> !r.error.NumberFormat?
  {
    if records == [] then Failure(NoRecords)
    else
      var reps := FirstValues(records);
      if reps == [] then Failure(NoReps)
      else
        var last := records[|records| - 1].values;
        if |last| <= 1 then Failure(NoWeight)
        else
          var change := Decide(JavaSum(reps), |reps|);
          Success(Suggestion(change, last[1], NextTenths(change, last[1])))
  }

  /** The loops of `calculateNextWeight`: collect the first value of each
      record, read the current weight, then add up the repetitions in an
      `int`. */
  method NextWeight(records: seq<Record>) returns (r: Result<Suggestion, CalcError>)
    ensures r == Suggest(records)
  {
    if records == [] {
      return Failure(NoRecords);
    }
    var reps: seq<Int32> := [];
    var i := 0;
    while i < |records|
      invariant 0 <= i <= |records|
      invariant reps == FirstValues(records[..i])
    {
      assert records[..i + 1][..i] == records[..i];
      if records[i].values != [] {
        reps := reps + [records[i].values[0]];
      }
      i := i + 1;
    }
    assert records[..i] == records;
    if reps == [] {
      return Failure(NoReps);
    }
    var last := records[|records| - 1].values;
    var current: Int32;
    if |last| > 1 {
      current := last[1];
    } else {
      return Failure(NoWeight);
    }
    var total: Int32 := 0;
    var j := 0;
    while j < |reps|
      invariant 0 <= j <= |reps|
      invariant total == JavaSum(reps[..j])
    {
      assert reps[..j + 1][..j] == reps[..j];
      total := Wrap(total + reps[j]);
      j := j + 1;
    }
    assert reps[..j] == reps;
    var change := Decide(total, |reps|);
    r := Success(Suggestion(change, current, NextTenths(change, current)));
  }

  /** While the repetitions add up within the `int` range, the decision is
      the test of the true mean of the first values. */
  lemma ExactWithoutOverflow(records: seq<Record>)
    requires Suggest(records).Success?
    requires MinInt <= Sum(FirstValues(records)) <= MaxInt
    ensures var mean := Sum(FirstValues(records)) as real / |FirstValues(records)| as real;
      var change := Suggest(records).value.change;
      (change == Increase <==> mean > 8.0) && (change == Decrease <==> mean < 5.0)
  {
    var reps := FirstValues(records);
    JavaSumWraps(reps);
    DecideIsMeanTest(Sum(reps), |reps|);
  }

  /** The 32-bit sum can wrap: two sessions of 2147483647 repetitions add up
      to -2, and the weight is lowered although the mean is far above 8. */
  lemma OverflowLowersWeight()
    ensures var records := [Record("1.1.2025", [MaxInt, 10]), Record("2.1.2025", [MaxInt, 10])];
      Suggest(records) == Success(Suggestion(Decrease, 10, 95)) && Sum(FirstValues(records)) > 8 * 2
  {
    var records := [Record("1.1.2025", [MaxInt, 10]), Record("2.1.2025", [MaxInt, 10])];
    assert records[..1][..0] == [];
    assert FirstValues(records) == [MaxInt, MaxInt];
    JavaSumWraps([MaxInt, MaxInt]);
    assert [MaxInt, MaxInt][..1] == [MaxInt] && [MaxInt][..0] == [];
    assert Sum([MaxInt]) == MaxInt;
    assert Sum([MaxInt, MaxInt]) == 2 * MaxInt;
    assert Wrap(2 * MaxInt) == -2;
  }

  /** Records as the log read returns them (at least two values each) never
      reach the "no repetitions" or "no weight" errors. */
  lemma {:induction false} DecodedNeverLacksWeight(records: seq<Record>)
    requires records != []
    requires forall i :: 0 <= i < |records| ==> |records[i].values| >= 2
    ensures Suggest(records).Success?
  {
    FirstValuesOfFull(records);
  }

  /** The same for a whole log: a read that succeeds with at least one
      record always yields a suggestion. */
  lemma LogAlwaysSuggests(lines: seq<string>)
    requires DecodeLog(lines).Success? && DecodeLog(lines).value != []
    ensures Suggest(DecodeLog(lines).value).Success?
  {
    DecodedNeverLacksWeight(DecodeLog(lines).value);
  }

  /** 21 kg after a session of 10 repetitions: 22.05 is rounded to 22.1. */
  lemma ExampleIncrease()
    ensures Suggest([Record("1.1.2025", [10, 21])]) == Success(Suggestion(Increase, 21, 221))
  {
    var a := [Record("1.1.2025", [10, 21])];
    assert a[..0] == [] && [10][..0] == [];
    assert FirstValues(a) == [10];
  }

  /** 50 kg after a session of 4 repetitions: 47.5. */
  lemma ExampleDecrease()
    ensures Suggest([Record("1.1.2025", [4, 50])]) == Success(Suggestion(Decrease, 50, 475))
  {
    var a := [Record("1.1.2025", [4, 50])];
    assert a[..0] == [] && [4][..0] == [];
    assert FirstValues(a) == [4];
  }

  /** 50 kg after a session of 6 repetitions stays at 50.0. */
  lemma ExampleKeep()
    ensures Suggest([Record("1.1.2025", [6, 50])]) == Success(Suggestion(Keep, 50, 500))
  {
    var a := [Record("1.1.2025", [6, 50])];
    assert a[..0] == [] && [6][..0] == [];
    assert FirstValues(a) == [6];
  }
}
