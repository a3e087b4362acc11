# Boston exam-school admission simulation: the admission arithmetic

`exmschl.py` is a Streamlit page about admission to Boston's exam schools.
It generates synthetic applicant pools and runs repeated trials to show how
uneven tier sizes and the 10-point bonus affect admission. Applicants compete
within one of eight socio-economic tiers. This project models the
deterministic part of the simulation:

- **Scoring** (`scoring.dfy`, module `Scoring`). `make_data1` and
  `make_data2` turn each random draw (tier, bonus flag, raw grade) into a
  table row with a key, a scaled score and a final score.
  - Under the eleven-point rule (`make_data1`), raw grades run 8..11, are
    scaled by 100/11 and earn no bonus.
  - Under the twelve-point rule (`make_data2`), raw grades run 7..12, are
    scaled by 100/12, and a bonus flag adds 10 points.

  Scores are integers in hundredths of a point, so 100.00 is 10000.
  Rounding to two decimals is stated as "the nearest integer to
  raw * 10000 / d". That value is never a tie for d = 11 or d = 12.
- **Masks and counts** (`tally.dfy`, module `Tally`). These model the
  boolean-mask selections (`df[mask]`) and the `count` aggregations.
- **Cutoff counter** (`cutoff.dfy`, module `Cutoff`). One trial of
  `simulate_trials` zeroes the bonus column. It then counts, per tier, the
  rows whose final score reaches the cutoff. The cutoff is given in
  hundredths, so the page's cutoffs 90 and 100 are 9000 and 10000.
- **Per-tier selection** (`selection.dfy`, module `Selection`). Each tier is
  ranked by final score, highest first, and split after 125 seats. Then the
  "A+" applicants are counted on each side: raw grade above 11 and no bonus.
  From those counts comes the tier's rejection rate.
- **Trial drivers** (`trials.dfy`, module `Trials`). `simulate_trials` and
  `A_plus_rejected` are methods with loops that append one result row per
  trial. This module also holds the column mean the page shows for the
  rejection-rate tables.

The random population is an input. Each trial's draws are one element of a
sequence `pools`, so the number of trials is `|pools|`. A row's key is its
position, as `np.arange` gives it.

The docstrings of `make_data1` and `make_data2` describe grades 7 to 12.
The one of `make_data1` also describes a scale of 100/12. The code draws
`randint(8, 12)` (grades 8..11) and scales by 100/11 in `make_data1`, and
draws `randint(7, 13)` (grades 7..12) in `make_data2`. The model follows the
code.

The docstring of `simulate_trials` and the comment on its bonus-zeroing line
say that no bonus points are counted. The bonus column is overwritten only
after the final score has been computed, so the counts of a `make_data2`
pool still include the 10 points. `Cutoff.ZeroBonusKeepsCounts` and
`Cutoff.ZeroedBonusStillCounted` state this. The page itself plots those
counts under "When bonus points are awarded", so the model follows the code.

## Model

| member | source | states |
|---|---|---|
| Scoring.ScaledHundredths | exmschl.py:107-108 | the scaled score is raw * 100 / d rounded to hundredths: strictly within half a hundredth of raw * 10000 / d, for d = 11 (and likewise 100/12 at lines 132-133) |
| Scoring.NearestIsUnique | exmschl.py:132-133 | only one integer lies within half a hundredth, so the rounded scaled score is determined by the raw grade alone |
| Scoring.ScaledStrictlyIncreasing | exmschl.py:132-133 | a higher raw grade always gets a strictly higher scaled score |
| Scoring.MakeData | exmschl.py:101-109 | MakeData (one MakeRow per draw): the table has one row per draw; keys run 0..n-1 in order; tier, bonus and raw grade are copied; every in-range draw gives a well-formed row (grade in the rule's range, scaled score rounded, final = scaled + 10 exactly when the twelve-point rule applies and the flag is 1, otherwise final = scaled); make_data2 at lines 126-134 is the same function under the other rule |
| Scoring.ElevenPointCutoffs | exmschl.py:104-109 | under the eleven-point rule, final >= 100 exactly when the raw grade is 11, and final >= 90 exactly when it is 10 or 11; the bonus flag never matters |
| Scoring.TwelvePointCutoffs | exmschl.py:129-134 | under the twelve-point rule, final >= 100 exactly when the grade is 12 or 11 with a bonus, and final >= 90 exactly when the grade is 11 or 12 or 10 with a bonus |
| Scoring.MakeDataWellFormed | exmschl.py:126-134 | every row of a table generated from in-range draws is well-formed |
| Scoring.PerfectNoBonusIsExactlyHundred | exmschl.py:129-134 | under the twelve-point rule, a final score of exactly 100.00 belongs to raw grade 12 without bonus and to nobody else |
| Tally.Count | exmschl.py:155 | the number of rows a mask selects is at most the number of rows |
| Tally.Filter | exmschl.py:155 | `df[mask]` keeps only rows of the table that satisfy the mask, and exactly as many as the mask counts |
| Tally.CountPermutation | exmschl.py:181 | reordering rows (as the sort does) never changes a count |
| Tally.CountAfterFilter | exmschl.py:155 | counting q among the rows filtered by p counts the rows that satisfy both |
| Cutoff.ZeroBonus | exmschl.py:154 | overwriting the bonus column sets every flag to 0 and keeps every other column, the final score included |
| Cutoff.TierCount | exmschl.py:155 | one tier's count is the number of its rows with final score >= cutoff, never more than the tier's size |
| Cutoff.CutoffCounts | exmschl.py:155 | a result row has 8 entries; entry t-1 counts the rows of tier t at or above the cutoff |
| Cutoff.CutoffCountsSum | exmschl.py:155 | with Qualifying(rows, c) the rows at or above c: when every tier is in 1..8, the 8 counts add up to the number of qualifying rows: nobody is lost or counted twice |
| Cutoff.CutoffCountsMonotone | exmschl.py:155 | raising the cutoff never increases any tier's count |
| Cutoff.ZeroBonusKeepsCounts | exmschl.py:154-155 | zeroing the bonus column changes no count |
| Cutoff.ZeroedBonusStillCounted | exmschl.py:154-155 | a twelve-point applicant with grade 11 and a bonus is scaled below 100 but is still counted at cutoff 100 after zeroing |
| Trials.TrialCounts | exmschl.py:153-155 | one trial's row equals the counts of its generated table, and for in-range draws it sums to the qualifying rows |
| Trials.SimulateTrials | exmschl.py:151-158 | one row per trial, each with 8 entries; row i is the cutoff counts of trial i's table; for in-range draws it sums to the qualifying rows |
| Selection.TierRows | exmschl.py:181 | the rows of tier t, as many as the tier count, all in the table and of tier t |
| Selection.Insert | exmschl.py:181 | inserting into a descending sequence keeps it descending and adds one row |
| Selection.InsertPermutes | exmschl.py:181 | insertion adds exactly the new row and loses nothing |
| Selection.SortDesc | exmschl.py:181 | `sort_values(ascending = False)` yields final scores that never increase, with the same length |
| Selection.SortDescPermutes | exmschl.py:181 | the sort is a permutation of the tier's rows |
| Selection.TakeDrop | exmschl.py:183-185 | `iloc[:k]` followed by `iloc[k:]` is the whole ranking |
| Selection.SplitAtFacts | exmschl.py:183-185 | SplitAt(s, k) = (Take, Drop): the two slices partition the ranking in order; the first holds min(k, size) rows; on a descending ranking every accepted score is >= every rejected score |
| Selection.SelectTierFacts | exmschl.py:181-185 | SelectTier(rows, t, 125) = SplitAt(SortDesc(TierRows(rows, t)), 125): accepted ++ rejected is a permutation of the tier's rows; accepted holds min(125, tier size); all are rows of tier t; every accepted final score is >= every rejected one; a tier of at most 125 rows rejects nobody |
| Selection.TierTopBandFacts | exmschl.py:187-190 | TierTopBand(rows, t, 125) counts TopBand rows on each side of SelectTier: accepted_num + rejected_num is the number of the tier's rows with raw grade > 11 and bonus 0; accepted_num <= 125; rejected_num = 0 for a tier of at most 125 rows |
| Selection.RejectionRate | exmschl.py:193 | the rate is undefined (NaN) exactly when accepted_num + rejected_num = 0; otherwise it lies in [0, 100]; it is 0 when nobody was rejected |
| Selection.RejectionRateIsShare | exmschl.py:193 | a defined rate is rejected_num / (rejected_num + accepted_num) * 100 exactly |
| Selection.TierRejectionRateFacts | exmschl.py:181-193 | TierRejectionRate(rows, t, 125) = RejectionRate of TierTopBand: a tier's rate is undefined exactly when the tier has no top-band, no-bonus applicant; otherwise it lies in [0, 100]; it is 0 or undefined for a tier that fits its seats |
| Selection.PrefixAtScore | exmschl.py:181-183 | in a descending ranking, the rows at score f among the first k depend only on how many rows score above f and how many score f |
| Selection.AcceptedTopBand | exmschl.py:183-188 | in a descending twelve-point ranking, accepted_num is clamp(k - rows above 100, rows at 100) |
| Selection.SameTopBandCounts | exmschl.py:181-190 | two descending arrangements of the same twelve-point rows give the same accepted_num and rejected_num |
| Selection.TieOrderIrrelevant | exmschl.py:181-190 | whatever order the non-stable sort leaves tied rows in, a twelve-point tier's accepted_num and rejected_num are the ones the model computes |
| Trials.TrialRatesEntries | exmschl.py:178-195 | TrialRates(rows), the row of one trial: a trial's row has 8 entries; entry t-1 is tier t's rate, undefined exactly when the tier has no top-band, no-bonus applicant, otherwise in [0, 100] |
| Trials.DriverTieOrderIrrelevant | exmschl.py:176-190 | for in-range draws, every tier of a table A_plus_rejected generates gets the same accepted_num and rejected_num under any tie order of the sort |
| Trials.TrialRejectionRates | exmschl.py:178-195 | the inner loop over tiers 1..8 appends each tier's rejection rate in tier order |
| Trials.APlusRejected | exmschl.py:174-203 | one row per trial, each with 8 entries; row i holds the tier rates of trial i's twelve-point table |
| Trials.Column | exmschl.py:306 | column t of the result table has one cell per trial, cell i being row i's entry for tier t |
| Trials.ColumnMean | exmschl.py:306 | the mean skips undefined cells: it is undefined exactly when every cell is; otherwise it times the number of defined cells is their sum, and it is a percentage when the cells are |
| Trials.MeanSkipsUndefined | exmschl.py:306 | a trial with an undefined rate leaves the column mean unchanged |
| Trials.MeanCountsZero | exmschl.py:314 | a trial with a defined 0% rate lowers a positive column mean |

## Left out

- The Streamlit page is not modelled, because it is UI: title, text, expanders, the sidebar form and `st.write` (lines 8-76, 215-234, 288-314).
- The matplotlib histograms are not modelled, because they are plotting (lines 236-286).
- The numpy random draws of tier, bonus and raw grade (lines 102-104, 127-129) become the input `pools`.
  - Distributional claims are not stated: the 80% bonus share, the tier weights and expected counts.
  - The weight lists at lines 81 and 84 are constants the code never checks, and are not modelled.
- The number of students and of trials come from the sidebar form. In the model they are the lengths of the input sequences.
- Float arithmetic is not modelled. `100/11`, `100/12` and `round(..., 2)` are exact integer hundredths.
- Selection.RejectionRate: the value is the exact percentage. The source rounds it to two decimals with `round(..., 2)` at line 193, and stores the rounded value (line 195). The mean at lines 306 and 314 averages those rounded cells, so `Trials.ColumnMean` over the exact rates can differ from the page's mean by up to 0.005 percentage points per tier.
- The `std` aggregation (lines 306, 314) is left out, because it needs a square root. Only the mean is modelled.
- Trials.SimulateTrials: a tier with no qualifying row gets the count 0. In the source, `groupby` drops that tier, so the table gets NaN for it, or column alignment reorders the columns. The renaming at line 158 fails when a tier is missing from every trial. pandas' row-to-column alignment is not modelled.
- Selection.SortDesc: the model ranks with one particular descending order, an insertion sort that keeps table order among ties. `sort_values` does not fix the order of ties. Selection.TieOrderIrrelevant shows that no twelve-point tier's counts depend on it. The cutoff counter does not sort.
- `seats_per_tier` (line 78) is computed but never used, and is not modelled. The selection uses the literal 125, `Selection.Seats`.
- The unused `ipywidgets` import (line 3) is not modelled.
- The validity of a draw (tier 1..8, flag 0 or 1, grade in range) is what numpy produces. The model does not assume it. Facts that need it take `ValidDraws` or `WellFormed` as a hypothesis.
