/** Per-trial cutoff counter of simulate_trials: zero the bonus column, keep
    the rows whose final score reaches the cutoff, count them per tier. */
module Cutoff {
  import opened Scoring
  import opened Tally

  /** The table with every bonus flag overwritten by 0; every other column,
      the already computed final score included, keeps its value. */
  function ZeroBonus(rows: seq<Row>): (z: seq<Row>)
    ensures |z| == |rows|
    ensures forall i :: 0 <= i < |z| ==>
      z[i].bonus == 0 && z[i].key == rows[i].key && z[i].tier == rows[i].tier &&
      z[i].raw == rows[i].raw && z[i].scaled == rows[i].scaled && z[i].final == rows[i].final
  {
    seq(|rows|, i requires 0 <= i < |rows| => rows[i].(bonus := 0))
  }

  /** Rows at or above the cutoff. */
  function Qualifying(rows: seq<Row>, cutoff: int): seq<Row>
  {
    Filter(rows, AtOrAbove(cutoff))
  }

  /** Count of one tier among the qualifying rows: the rows of tier t whose
      final score is at least the cutoff, never more than the tier's size. */
  function TierCount(rows: seq<Row>, t: int, cutoff: int): (n: nat)
    ensures n == Count(rows, Both(InTier(t), AtOrAbove(cutoff)))
    ensures n <= Count(rows, InTier(t))
  {
    CountAfterFilter(rows, AtOrAbove(cutoff), InTier(t));
    CountAgree(rows, Both(AtOrAbove(cutoff), InTier(t)), Both(InTier(t), AtOrAbove(cutoff)));
    CountMonotone(rows, Both(InTier(t), AtOrAbove(cutoff)), InTier(t));
    Count(Qualifying(rows, cutoff), InTier(t))
  }

  /** One result row of simulate_trials: for tiers 1..8 in order, the number
      of rows of that tier whose final score is at least the cutoff. A tier
      with no qualifying row gets 0. */
  function CutoffCounts(rows: seq<Row>, cutoff: int): (counts: seq<nat>)
    ensures |counts| == Tiers
    ensures forall t :: 1 <= t <= Tiers ==>
      counts[t - 1] == Count(rows, Both(InTier(t), AtOrAbove(cutoff)))
  {
    seq(Tiers, i requires 0 <= i < Tiers => TierCount(rows, i + 1, cutoff))
  }

  /** Sum over tiers 1..n of the rows of each tier. */
  function SumTiers(s: seq<Row>, n: nat): nat
  {
    if n == 0 then 0 else SumTiers(s, n - 1) + Count(s, InTier(n))
  }

  lemma {:induction false} SumTiersCons(x: Row, s: seq<Row>, n: nat)
    ensures SumTiers([x] + s, n) == SumTiers(s, n) + (if 1 <= x.tier <= n then 1 else 0)
  {
    if n > 0 {
      SumTiersCons(x, s, n - 1);
      assert ([x] + s)[1..] == s;
    }
  }

  lemma {:induction false} SumTiersEmpty(n: nat)
    ensures SumTiers([], n) == 0
  {
    if n > 0 {
      SumTiersEmpty(n - 1);
    }
  }

  /** Tiers partition the rows: when every tier lies in 1..8, the tier counts
      of s add up to |s|. */
  lemma {:induction false} TiersPartition(s: seq<Row>)
    requires forall r :: r in s ==> 1 <= r.tier <= Tiers
    ensures SumTiers(s, Tiers) == |s|
  {
    if s == [] {
      SumTiersEmpty(Tiers);
    } else {
      assert s == [s[0]] + s[1..] && s[0] in s;
      TiersPartition(s[1..]);
      SumTiersCons(s[0], s[1..], Tiers);
    }
  }

  lemma {:induction false} SumCountsPrefix(rows: seq<Row>, cutoff: int, n: nat)
    requires n <= Tiers
    ensures Sum(CutoffCounts(rows, cutoff)[..n]) == SumTiers(Qualifying(rows, cutoff), n)
  {
    var counts := CutoffCounts(rows, cutoff);
    if n > 0 {
      SumCountsPrefix(rows, cutoff, n - 1);
      assert counts[..n][..n - 1] == counts[..n - 1];
    }
  }

  /** The per-tier counts of one trial add up to the number of qualifying
      rows: no qualifying row is lost or counted twice. */
  lemma CutoffCountsSum(rows: seq<Row>, cutoff: int)
    requires forall r :: r in rows ==> 1 <= r.tier <= Tiers
    ensures Sum(CutoffCounts(rows, cutoff)) == |Qualifying(rows, cutoff)|
  {
    var counts := CutoffCounts(rows, cutoff);
    SumCountsPrefix(rows, cutoff, Tiers);
    assert counts[..Tiers] == counts;
    TiersPartition(Qualifying(rows, cutoff));
  }

  /** Raising the cutoff never increases any tier's count. */
  lemma CutoffCountsMonotone(rows: seq<Row>, low: int, high: int)
    requires low <= high
    ensures forall i :: 0 <= i < Tiers ==> CutoffCounts(rows, high)[i] <= CutoffCounts(rows, low)[i]
  {
    forall i | 0 <= i < Tiers
      ensures CutoffCounts(rows, high)[i] <= CutoffCounts(rows, low)[i]
    {
      CountMonotone(rows, Both(InTier(i + 1), AtOrAbove(high)), Both(InTier(i + 1), AtOrAbove(low)));
    }
  }

  lemma {:induction false} CountZeroBonus(rows: seq<Row>, t: int, cutoff: int)
    ensures Count(ZeroBonus(rows), Both(InTier(t), AtOrAbove(cutoff))) ==
            Count(rows, Both(InTier(t), AtOrAbove(cutoff)))
  {
    if rows != [] {
      assert ZeroBonus(rows)[1..] == ZeroBonus(rows[1..]);
      CountZeroBonus(rows[1..], t, cutoff);
    }
  }

  /** Zeroing the bonus column after the final score was computed changes no
      count: the bonus points already inside the final score stay counted. */
  lemma ZeroBonusKeepsCounts(rows: seq<Row>, cutoff: int)
    ensures CutoffCounts(ZeroBonus(rows), cutoff) == CutoffCounts(rows, cutoff)
  {
    forall i | 0 <= i < Tiers
      ensures CutoffCounts(ZeroBonus(rows), cutoff)[i] == CutoffCounts(rows, cutoff)[i]
    {
      CountZeroBonus(rows, i + 1, cutoff);
    }
  }

  /** In a twelve-point table, an applicant with raw grade 11 and a bonus
      flag is scaled below 100.00 but still counted at the cutoff 100 after
      the bonus column is zeroed. */
  lemma ZeroedBonusStillCounted(d: Draw)
    requires ValidDraw(TwelvePoint, d) && d.raw == 11 && d.bonus == 1
    ensures MakeData(TwelvePoint, [d])[0].scaled < Hundred
    ensures CutoffCounts(ZeroBonus(MakeData(TwelvePoint, [d])), Hundred)[d.tier - 1] == 1
  {
    var rows := MakeData(TwelvePoint, [d]);
    var z := ZeroBonus(rows);
    assert z == [z[0]] && z[0].tier == d.tier;
    assert -12 < 2 * (rows[0].scaled * 12 - 11 * Hundred) < 12;
    assert z[1..] == [];
  }
}
