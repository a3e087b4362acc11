/** Scoring rule of one synthetic applicant table (the columns that make_data1
    and make_data2 compute from the random draws). All scores are integers in
    hundredths of a point, so 100.00 is 10000. */
module Scoring {

  /** The two generators differ only in their grade scale and in the bonus:
      ElevenPoint draws raw grades 8..11, divides by 11 and adds nothing;
      TwelvePoint draws raw grades 7..12, divides by 12 and adds 10 points
      to every applicant whose bonus flag is 1. */
  datatype Rule = ElevenPoint | TwelvePoint

  /** The random part of one applicant: tier, bonus flag and raw grade. */
  datatype Draw = Draw(tier: int, bonus: int, raw: int)

  /** One row of the generated table; `scaled` and `final` in hundredths. */
  datatype Row = Row(key: nat, tier: int, bonus: int, raw: int, scaled: int, final: int)

  /** Number of socio-economic tiers. */
  const Tiers := 8

  /** One full score point, in hundredths. */
  const Hundred := 10000

  /** Smallest raw grade the rule draws (the lower bound of randint). */
  function MinRaw(rule: Rule): int
  {
    match rule
    case ElevenPoint => 8
    case TwelvePoint => 7
  }

  /** Largest raw grade the rule draws (randint's exclusive bound minus one). */
  function MaxRaw(rule: Rule): int
  {
    match rule
    case ElevenPoint => 11
    case TwelvePoint => 12
  }

  /** Divisor of the scale factor 100/11 or 100/12. */
  function Divisor(rule: Rule): int
  {
    match rule
    case ElevenPoint => 11
    case TwelvePoint => 12
  }

  /** Points a bonus flag of 1 adds, in hundredths (bonus * 0 or bonus * 10). */
  function BonusPoints(rule: Rule): int
  {
    match rule
    case ElevenPoint => 0
    case TwelvePoint => 1000
  }

  /** h is the integer nearest to raw * 10000 / d, strictly closer than one half. */
  predicate NearestHundredths(raw: int, d: int, h: int)
  {
    -d < 2 * (h * d - raw * Hundred) < d
  }

  /** raw * (100 / d) rounded to two decimals, in hundredths. The value
      raw * 10000 / d never lies half-way between two integers when d is
      11 or 12, so rounding it is exact and the result is the unique nearest
      integer. */
  function ScaledHundredths(raw: int, rule: Rule): (h: int)
    ensures NearestHundredths(raw, Divisor(rule), h)
  {
    match rule
    case ElevenPoint =>
      var h := (2 * raw * Hundred + 11) / 22;
      assert 22 * h + (2 * raw * Hundred + 11) % 22 == 2 * raw * Hundred + 11;
      h
    case TwelvePoint =>
      var h := (2 * raw * Hundred + 12) / 24;
      assert 24 * h + (2 * raw * Hundred + 12) % 24 == 2 * raw * Hundred + 12;
      h
  }

  /** No other integer is within one half of raw * 10000 / d: the rounded
      scaled score is determined by the raw grade alone. */
  lemma NearestIsUnique(raw: int, rule: Rule, h: int)
    requires NearestHundredths(raw, Divisor(rule), h)
    ensures h == ScaledHundredths(raw, rule)
  {
    var g := ScaledHundredths(raw, rule);
    match rule
    case ElevenPoint =>
      assert -22 < 22 * (h - g) < 22;
    case TwelvePoint =>
      assert -24 < 24 * (h - g) < 24;
  }

  /** A higher raw grade always gives a strictly higher scaled score. */
  lemma ScaledStrictlyIncreasing(a: int, b: int, rule: Rule)
    requires a < b
    ensures ScaledHundredths(a, rule) < ScaledHundredths(b, rule)
  {
    var ha, hb := ScaledHundredths(a, rule), ScaledHundredths(b, rule);
    match rule
    case ElevenPoint =>
      assert 22 * (hb - ha) > 2 * (b - a) * Hundred - 22;
    case TwelvePoint =>
      assert 24 * (hb - ha) > 2 * (b - a) * Hundred - 24;
  }

  /** A draw numpy can produce under the rule: tier in 1..8, bonus in {0, 1},
      raw grade in the rule's range. */
  predicate ValidDraw(rule: Rule, d: Draw)
  {
    1 <= d.tier <= Tiers && (d.bonus == 0 || d.bonus == 1) &&
    MinRaw(rule) <= d.raw <= MaxRaw(rule)
  }

  predicate ValidDraws(rule: Rule, draws: seq<Draw>)
  {
    forall i :: 0 <= i < |draws| ==> ValidDraw(rule, draws[i])
  }

  /** What every row of a table generated under the rule satisfies: the draw
      ranges, a scaled score that is the raw grade on a 0..100 scale rounded
      to hundredths, and a final score that adds 10 points exactly when the
      rule awards the bonus and the flag is 1. */
  predicate WellFormed(rule: Rule, r: Row)
  {
    1 <= r.tier <= Tiers && (r.bonus == 0 || r.bonus == 1) &&
    MinRaw(rule) <= r.raw <= MaxRaw(rule) &&
    NearestHundredths(r.raw, Divisor(rule), r.scaled) &&
    r.final == (if rule == TwelvePoint && r.bonus == 1 then r.scaled + 1000 else r.scaled)
  }

  /** Row `key` of the table built from draw d. */
  function MakeRow(rule: Rule, key: nat, d: Draw): Row
  {
    var scaled := ScaledHundredths(d.raw, rule);
    Row(key, d.tier, d.bonus, d.raw, scaled, scaled + d.bonus * BonusPoints(rule))
  }

  /** The generated table: one row per draw, keyed 0..n-1 in order, carrying
      the draw's tier, bonus and raw grade, and well-formed whenever the draws
      are in range. */
  function MakeData(rule: Rule, draws: seq<Draw>): (rows: seq<Row>)
    ensures |rows| == |draws|
    ensures forall i :: 0 <= i < |rows| ==>
      rows[i].key == i && rows[i].tier == draws[i].tier &&
      rows[i].bonus == draws[i].bonus && rows[i].raw == draws[i].raw
    ensures forall i :: 0 <= i < |rows| && ValidDraw(rule, draws[i]) ==> WellFormed(rule, rows[i])
    ensures forall i :: 0 <= i < |rows| ==> rows[i].scaled == ScaledHundredths(draws[i].raw, rule)
  {
    seq(|draws|, i requires 0 <= i < |draws| => MakeRow(rule, i, draws[i]))
  }

  /** Under the eleven-point rule only raw grade 11 reaches 100.00, and only
      grades 10 and 11 reach 90.00: the two cutoffs the page uses. */
  lemma ElevenPointCutoffs(r: Row)
    requires WellFormed(ElevenPoint, r)
    ensures r.final >= 100 * 100 <==> r.raw == 11
    ensures r.final >= 90 * 100 <==> r.raw >= 10
  {
    assert -11 < 2 * (r.scaled * 11 - r.raw * Hundred) < 11;
  }

  /** Under the twelve-point rule the bonus counts: 100.00 is reached by
      grade 12, or grade 11 with a bonus; 90.00 by grades 11 and 12, or
      grade 10 with a bonus. */
  lemma TwelvePointCutoffs(r: Row)
    requires WellFormed(TwelvePoint, r)
    ensures r.final >= 100 * 100 <==> r.raw == 12 || (r.raw == 11 && r.bonus == 1)
    ensures r.final >= 90 * 100 <==> r.raw >= 11 || (r.raw >= 10 && r.bonus == 1)
  {
    assert -12 < 2 * (r.scaled * 12 - r.raw * Hundred) < 12;
  }

  /** Every row of a table generated from in-range draws is well-formed. */
  lemma MakeDataWellFormed(rule: Rule, draws: seq<Draw>)
    requires ValidDraws(rule, draws)
    ensures forall r :: r in MakeData(rule, draws) ==> WellFormed(rule, r)
  {
    var rows := MakeData(rule, draws);
    forall r | r in rows
      ensures WellFormed(rule, r)
    {
      var j :| 0 <= j < |rows| && rows[j] == r;
      assert ValidDraw(rule, draws[j]);
    }
  }

  /** Under the twelve-point rule a final score of exactly 100.00 belongs to
      the applicants with raw grade 12 and no bonus, and to nobody else. */
  lemma PerfectNoBonusIsExactlyHundred(r: Row)
    requires WellFormed(TwelvePoint, r)
    ensures r.final == Hundred <==> r.raw > 11 && r.bonus == 0
  {
    assert -12 < 2 * (r.scaled * 12 - r.raw * Hundred) < 12;
  }
}
