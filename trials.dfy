/** The trial drivers simulate_trials and A_plus_rejected, which build one
    result row per trial, and the column mean the page shows for the
    rejection-rate tables. Each trial's random draws are given as one
    element of `pools`, so the number of trials is |pools|. */
module Trials {
  import opened Scoring
  import opened Tally
  import opened Cutoff
  import opened Selection

  /** What one trial of simulate_trials records: zeroing the bonus changes
      no count, and in-range draws have their qualifying rows counted once. */
  lemma TrialCounts(rule: Rule, draws: seq<Draw>, cutoff: int)
    ensures CutoffCounts(ZeroBonus(MakeData(rule, draws)), cutoff) == CutoffCounts(MakeData(rule, draws), cutoff)
    ensures ValidDraws(rule, draws) ==>
      Sum(CutoffCounts(MakeData(rule, draws), cutoff)) == |Qualifying(MakeData(rule, draws), cutoff)|
  {
    var rows := MakeData(rule, draws);
    ZeroBonusKeepsCounts(rows, cutoff);
    if ValidDraws(rule, draws) {
      forall r | r in rows
        ensures 1 <= r.tier <= Tiers
      {
        var j :| 0 <= j < |rows| && rows[j] == r;
        assert WellFormed(rule, rows[j]);
      }
      CutoffCountsSum(rows, cutoff);
    }
  }

  /** simulate_trials: for every trial, generate the table, zero its bonus
      column and record the per-tier counts at or above the cutoff. Because
      the final score already holds the bonus, each row equals the counts
      of the generated table itself; for in-range draws the row adds up to
      the number of qualifying applicants. */
  method SimulateTrials(rule: Rule, pools: seq<seq<Draw>>, cutoff: int) returns (table: seq<seq<nat>>)
    ensures |table| == |pools|
    ensures forall i :: 0 <= i < |pools| ==> |table[i]| == Tiers
    ensures forall i :: 0 <= i < |pools| ==> table[i] == CutoffCounts(MakeData(rule, pools[i]), cutoff)
    ensures forall i :: 0 <= i < |pools| && ValidDraws(rule, pools[i]) ==>
      Sum(table[i]) == |Qualifying(MakeData(rule, pools[i]), cutoff)|
  {
    table := [];
    var i := 0;
    while i < |pools|
      invariant 0 <= i <= |pools|
      invariant |table| == i
      invariant forall j :: 0 <= j < i ==> table[j] == CutoffCounts(MakeData(rule, pools[j]), cutoff)
      invariant forall j :: 0 <= j < i && ValidDraws(rule, pools[j]) ==>
        Sum(table[j]) == |Qualifying(MakeData(rule, pools[j]), cutoff)|
    {
      var rows := MakeData(rule, pools[i]);
      var zeroed := ZeroBonus(rows);
      var counts := CutoffCounts(zeroed, cutoff);
      TrialCounts(rule, pools[i], cutoff);
      table := table + [counts];
      i := i + 1;
    }
  }

  /** The row A_plus_rejected records for one trial's table: the rejection
      rates of tiers 1..8, in order. */
  function TrialRates(rows: seq<Row>): seq<Rate>
  {
    seq(Tiers, i requires 0 <= i < Tiers => TierRejectionRate(rows, i + 1, Seats))
  }

  /** A trial's row holds eight entries, entry t - 1 being the rate of tier
      t: undefined exactly when the tier has no top-band, no-bonus
      applicant, otherwise a percentage in [0, 100]. */
  lemma TrialRatesEntries(rows: seq<Row>)
    ensures |TrialRates(rows)| == Tiers
    ensures forall t :: 1 <= t <= Tiers ==> TrialRates(rows)[t - 1] == TierRejectionRate(rows, t, Seats)
    ensures forall t :: 1 <= t <= Tiers ==>
      (TrialRates(rows)[t - 1].Undefined? <==> Count(rows, Both(InTier(t), TopBand())) == 0)
    ensures forall i :: 0 <= i < Tiers && TrialRates(rows)[i].Percent? ==>
      0.0 <= TrialRates(rows)[i].value <= 100.0
  {
    forall t | 1 <= t <= Tiers
      ensures TrialRates(rows)[t - 1] == TierRejectionRate(rows, t, Seats)
      ensures TrialRates(rows)[t - 1].Undefined? <==> Count(rows, Both(InTier(t), TopBand())) == 0
      ensures TrialRates(rows)[t - 1].Percent? ==> 0.0 <= TrialRates(rows)[t - 1].value <= 100.0
    {
      TierRejectionRateFacts(rows, t, Seats);
    }
  }

  /** The inner loop of A_plus_rejected over tiers 1..8 of one trial's
      table: for each tier in turn, rank it, split it at 125 seats, count the
      top-band, no-bonus applicants on each side and record the rejection
      rate (TierRejectionRate). */
  method TrialRejectionRates(rows: seq<Row>) returns (rates: seq<Rate>)
    ensures rates == TrialRates(rows)
  {
    rates := [];
    var tier := 1;
    while tier <= Tiers
      invariant 1 <= tier <= Tiers + 1
      invariant |rates| == tier - 1
      invariant forall t :: 1 <= t < tier ==> rates[t - 1] == TierRejectionRate(rows, t, Seats)
    {
      var tally := TierTopBand(rows, tier, Seats);
      var rate := RejectionRate(tally.acceptedNum, tally.rejectedNum);
      rates := rates + [rate];
      tier := tier + 1;
    }
  }

  /** A_plus_rejected: one row of eight rejection rates per trial, each
      trial's table generated under the twelve-point rule with bonus. */
  method APlusRejected(pools: seq<seq<Draw>>) returns (table: seq<seq<Rate>>)
    ensures |table| == |pools|
    ensures forall i :: 0 <= i < |pools| ==> |table[i]| == Tiers
    ensures forall i :: 0 <= i < |pools| ==> table[i] == TrialRates(MakeData(TwelvePoint, pools[i]))
  {
    table := [];
    var i := 0;
    while i < |pools|
      invariant 0 <= i <= |pools|
      invariant |table| == i
      invariant forall j :: 0 <= j < i ==> table[j] == TrialRates(MakeData(TwelvePoint, pools[j]))
    {
      var rows := MakeData(TwelvePoint, pools[i]);
      var rates := TrialRejectionRates(rows);
      table := table + [rates];
      i := i + 1;
    }
  }

  /** Whatever order the sort leaves tied rows in, every tier of a table
      A_plus_rejected generates from in-range draws gets the accepted_num
      and rejected_num the model computes. */
  lemma DriverTieOrderIrrelevant(draws: seq<Draw>, t: int, s: seq<Row>)
    requires ValidDraws(TwelvePoint, draws)
    requires SortedDesc(s) && multiset(s) == multiset(TierRows(MakeData(TwelvePoint, draws), t))
    ensures Count(Take(s, Seats), TopBand()) == TierTopBand(MakeData(TwelvePoint, draws), t, Seats).acceptedNum
    ensures Count(Drop(s, Seats), TopBand()) == TierTopBand(MakeData(TwelvePoint, draws), t, Seats).rejectedNum
  {
    MakeDataWellFormed(TwelvePoint, draws);
    TieOrderIrrelevant(MakeData(TwelvePoint, draws), t, Seats, s);
  }

  /** Column t (1..8) of a table of eight-entry rows. */
  function Column(table: seq<seq<Rate>>, t: int): (col: seq<Rate>)
    requires 1 <= t <= Tiers
    requires forall i :: 0 <= i < |table| ==> |table[i]| == Tiers
    ensures |col| == |table|
    ensures forall i :: 0 <= i < |table| ==> col[i] == table[i][t - 1]
  {
    seq(|table|, i requires 0 <= i < |table| => table[i][t - 1])
  }

  /** Sum of the defined cells of a column. */
  function DefinedSum(col: seq<Rate>): real
  {
    if col == [] then 0.0
    else DefinedSum(col[..|col| - 1]) + (if col[|col| - 1].Percent? then col[|col| - 1].value else 0.0)
  }

  /** Number of defined cells of a column. */
  function DefinedCount(col: seq<Rate>): nat
  {
    if col == [] then 0
    else DefinedCount(col[..|col| - 1]) + (if col[|col| - 1].Percent? then 1 else 0)
  }

  /** Every defined cell is a percentage. */
  predicate Percentages(col: seq<Rate>)
  {
    forall i :: 0 <= i < |col| && col[i].Percent? ==> 0.0 <= col[i].value <= 100.0
  }

  lemma {:induction false} DefinedCountZero(col: seq<Rate>)
    ensures DefinedCount(col) == 0 <==> forall i :: 0 <= i < |col| ==> col[i].Undefined?
  {
    if col != [] {
      var init := col[..|col| - 1];
      DefinedCountZero(init);
      assert forall i :: 0 <= i < |init| ==> init[i] == col[i];
    }
  }

  lemma {:induction false} DefinedSumBounds(col: seq<Rate>)
    requires Percentages(col)
    ensures 0.0 <= DefinedSum(col) <= 100.0 * DefinedCount(col) as real
  {
    if col != [] {
      var init := col[..|col| - 1];
      assert forall i :: 0 <= i < |init| ==> init[i] == col[i];
      DefinedSumBounds(init);
    }
  }

  /** The mean of a column over its defined cells only (pandas skips NaN):
      undefined when every cell is undefined, otherwise a percentage when
      the cells are, and the average of the defined values. */
  function ColumnMean(col: seq<Rate>): (m: Rate)
    ensures m.Undefined? <==> forall i :: 0 <= i < |col| ==> col[i].Undefined?
    ensures m.Percent? ==> m.value * DefinedCount(col) as real == DefinedSum(col)
    ensures m.Percent? && Percentages(col) ==> 0.0 <= m.value <= 100.0
  {
    DefinedCountZero(col);
    if DefinedCount(col) == 0 then Undefined
    else
      var n := DefinedCount(col) as real;
      var mean := DefinedSum(col) / n;
      assert mean * n == DefinedSum(col);
      assert Percentages(col) ==> 0.0 <= mean <= 100.0 by {
        if Percentages(col) {
          DefinedSumBounds(col);
          QuotientBounds(DefinedSum(col), n);
        }
      }
      Percent(mean)
  }

  /** A trial whose rate is undefined leaves the mean unchanged: missing
      cells are excluded, not counted as 0. */
  lemma MeanSkipsUndefined(col: seq<Rate>)
    ensures ColumnMean(col + [Undefined]) == ColumnMean(col)
  {
    var longer := col + [Undefined];
    assert longer[..|longer| - 1] == col;
    assert forall i :: 0 <= i < |col| ==> longer[i] == col[i];
  }

  /** A defined 0% cell, in contrast, does count: it pulls a positive mean
      down. */
  lemma MeanCountsZero(col: seq<Rate>)
    requires ColumnMean(col).Percent? && ColumnMean(col).value > 0.0
    ensures ColumnMean(col + [Percent(0.0)]).Percent?
    ensures ColumnMean(col + [Percent(0.0)]).value < ColumnMean(col).value
  {
    var longer := col + [Percent(0.0)];
    assert longer[..|longer| - 1] == col;
    assert longer[|col|] == Percent(0.0);
    assert DefinedCount(longer) == DefinedCount(col) + 1;
    assert DefinedSum(longer) == DefinedSum(col);
    var n := DefinedCount(col) as real;
    var m := ColumnMean(col).value;
    assert m * n == DefinedSum(col);
    var m' := ColumnMean(longer).value;
    assert m' * (n + 1.0) == DefinedSum(col);
    SmallerMean(m, m', n);
  }

  lemma SmallerMean(m: real, m': real, n: real)
    requires m > 0.0 && n >= 0.0 && m' * (n + 1.0) == m * n
    ensures m' < m
  {
    assert (m - m') * (n + 1.0) == m;
    PositiveFactor(m - m', n + 1.0);
  }

  lemma PositiveFactor(a: real, b: real)
    requires a * b > 0.0 && b > 0.0
    ensures a > 0.0
  {
  }

  lemma NonNegativeFactor(a: real, b: real)
    requires a * b >= 0.0 && b > 0.0
    ensures a >= 0.0
  {
  }

  /** A non-negative sum of at most 100 per cell, divided by the number of
      cells, lies in [0, 100]. */
  lemma QuotientBounds(sum: real, n: real)
    requires n > 0.0 && 0.0 <= sum <= 100.0 * n
    ensures 0.0 <= sum / n <= 100.0
  {
    var q := sum / n;
    assert q * n == sum;
    assert (100.0 - q) * n == 100.0 * n - sum;
    NonNegativeFactor(q, n);
    NonNegativeFactor(100.0 - q, n);
  }
}
