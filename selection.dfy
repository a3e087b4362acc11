/** Per-tier top-125 selection and the rejection rate of perfect-score,
    no-bonus applicants (the body of the tier loop in A_plus_rejected). */
module Selection {
  import opened Scoring
  import opened Tally

  /** Seats per tier, hard-coded as the slice bound 125. */
  const Seats := 125

  /** A raw grade above this is the top band ("A+") of the twelve-point scale. */
  const TopBandAbove := 11

  /** The rows of tier t, in table order. */
  function TierRows(rows: seq<Row>, t: int): (r: seq<Row>)
    ensures |r| == Count(rows, InTier(t))
    ensures forall x :: x in r ==> x in rows && x.tier == t
  {
    Filter(rows, InTier(t))
  }

  /** Final scores never increase along s. */
  predicate SortedDesc(s: seq<Row>)
  {
    forall i, j :: 0 <= i < j < |s| ==> s[i].final >= s[j].final
  }

  /** x placed into a descending sequence so that it stays descending. */
  function Insert(x: Row, s: seq<Row>): (r: seq<Row>)
    requires SortedDesc(s)
    ensures SortedDesc(r)
    ensures |r| == |s| + 1 && (r[0] == x || (s != [] && r[0] == s[0]))
  {
    if s == [] then [x]
    else if x.final >= s[0].final then [x] + s
    else
      assert s == [s[0]] + s[1..];
      [s[0]] + Insert(x, s[1..])
  }

  /** Insert adds x and loses nothing. */
  lemma {:induction false} InsertPermutes(x: Row, s: seq<Row>)
    requires SortedDesc(s)
    ensures multiset(Insert(x, s)) == multiset(s) + multiset{x}
  {
    if s != [] && x.final < s[0].final {
      assert s == [s[0]] + s[1..];
      InsertPermutes(x, s[1..]);
    }
  }

  /** One descending arrangement of s by final score (sort_values with
      ascending = False). Which of several tied rows comes first is not
      fixed by the sort the source calls; TieOrderIrrelevant shows that no
      result of the model depends on it. */
  function SortDesc(s: seq<Row>): (r: seq<Row>)
    ensures SortedDesc(r)
    ensures |r| == |s|
  {
    if s == [] then []
    else Insert(s[0], SortDesc(s[1..]))
  }

  /** SortDesc only rearranges: it returns a permutation of its input. */
  lemma {:induction false} SortDescPermutes(s: seq<Row>)
    ensures multiset(SortDesc(s)) == multiset(s)
  {
    if s != [] {
      assert s == [s[0]] + s[1..];
      SortDescPermutes(s[1..]);
      InsertPermutes(s[0], SortDesc(s[1..]));
    }
  }

  /** The two parts of a ranked tier: the first rows up to the quota, and
      the rest. */
  datatype Split = Split(accepted: seq<Row>, rejected: seq<Row>)

  /** The first k rows of s (all of s when it is shorter). */
  function Take(s: seq<Row>, k: nat): seq<Row>
  {
    if |s| <= k then s else s[..k]
  }

  /** The rows of s after the first k (none when s is shorter). */
  function Drop(s: seq<Row>, k: nat): seq<Row>
  {
    if |s| <= k then [] else s[k..]
  }

  lemma TakeDrop(s: seq<Row>, k: nat)
    ensures Take(s, k) + Drop(s, k) == s
  {
    if |s| > k {
      assert s[..k] + s[k..] == s;
    }
  }

  /** `iloc[:k]` and `iloc[k:]` of a ranked tier (its properties are stated
      by SplitAtFacts). */
  function SplitAt(s: seq<Row>, k: nat): Split
  {
    Split(Take(s, k), Drop(s, k))
  }

  /** The two parts partition s in order, the accepted part holding
      min(k, |s|) rows; on a descending s no rejected row outranks an
      accepted one. */
  lemma SplitAtFacts(s: seq<Row>, k: nat)
    ensures SplitAt(s, k).accepted + SplitAt(s, k).rejected == s
    ensures |SplitAt(s, k).accepted| == if |s| <= k then |s| else k
    ensures SortedDesc(s) ==> forall i, j :: 0 <= i < |SplitAt(s, k).accepted| && 0 <= j < |SplitAt(s, k).rejected| ==>
      SplitAt(s, k).accepted[i].final >= SplitAt(s, k).rejected[j].final
  {
    TakeDrop(s, k);
  }

  /** The selection of one tier: rank the tier's rows by final score,
      highest first, and split the ranking after k rows (its properties are
      stated by SelectTierFacts). */
  function SelectTier(rows: seq<Row>, t: int, k: nat): Split
  {
    SplitAt(SortDesc(TierRows(rows, t)), k)
  }

  /** Accepted and rejected together are exactly the tier's rows, the
      accepted part holds min(k, tier size) of them, every accepted final
      score is at least every rejected one, and a tier of at most k rows has
      nobody rejected. */
  lemma SelectTierFacts(rows: seq<Row>, t: int, k: nat)
    ensures multiset(SelectTier(rows, t, k).accepted + SelectTier(rows, t, k).rejected) == multiset(TierRows(rows, t))
    ensures |SelectTier(rows, t, k).accepted| == if Count(rows, InTier(t)) <= k then Count(rows, InTier(t)) else k
    ensures forall x :: x in SelectTier(rows, t, k).accepted + SelectTier(rows, t, k).rejected ==> x in rows && x.tier == t
    ensures forall i, j :: 0 <= i < |SelectTier(rows, t, k).accepted| && 0 <= j < |SelectTier(rows, t, k).rejected| ==>
      SelectTier(rows, t, k).accepted[i].final >= SelectTier(rows, t, k).rejected[j].final
    ensures Count(rows, InTier(t)) <= k ==> SelectTier(rows, t, k).rejected == []
  {
    var ranked := SortDesc(TierRows(rows, t));
    SortDescPermutes(TierRows(rows, t));
    SplitAtFacts(ranked, k);
    assert |ranked| == |multiset(ranked)| == |TierRows(rows, t)|;
    assert forall x :: x in ranked ==> x in multiset(TierRows(rows, t));
  }

  /** Top-band applicants without a bonus (`raw_score > 11 & bonus == 0`). */
  function TopBand(): Row -> bool
  {
    (r: Row) => r.raw > TopBandAbove && r.bonus == 0
  }

  /** accepted_num and rejected_num of one tier. */
  datatype TopBandTally = TopBandTally(acceptedNum: nat, rejectedNum: nat)

  /** accepted_num and rejected_num of tier t: the top-band, no-bonus rows
      among its accepted and among its rejected (properties in
      TierTopBandFacts). */
  function TierTopBand(rows: seq<Row>, t: int, k: nat): TopBandTally
  {
    var sp := SelectTier(rows, t, k);
    TopBandTally(Count(sp.accepted, TopBand()), Count(sp.rejected, TopBand()))
  }

  /** Together the two counts are all top-band, no-bonus rows of the tier;
      at most k of them are accepted; nobody is rejected from a tier of at
      most k rows. */
  lemma TierTopBandFacts(rows: seq<Row>, t: int, k: nat)
    ensures TierTopBand(rows, t, k).acceptedNum + TierTopBand(rows, t, k).rejectedNum ==
      Count(rows, Both(InTier(t), TopBand()))
    ensures TierTopBand(rows, t, k).acceptedNum <= k
    ensures Count(rows, InTier(t)) <= k ==> TierTopBand(rows, t, k).rejectedNum == 0
  {
    SelectTierFacts(rows, t, k);
    var sp := SelectTier(rows, t, k);
    CountConcat(sp.accepted, sp.rejected, TopBand());
    CountPermutation(sp.accepted + sp.rejected, TierRows(rows, t), TopBand());
    CountAfterFilter(rows, InTier(t), TopBand());
  }

  /** A rejection rate: a percentage, or undefined (NaN in the source) when
      the tier has no top-band, no-bonus applicant. */
  datatype Rate = Undefined | Percent(value: real)

  /** rejected / (rejected + accepted) * 100, undefined for 0 / 0. A defined
      rate lies in [0, 100], and is 0 when nobody was rejected. */
  function RejectionRate(acceptedNum: nat, rejectedNum: nat): (r: Rate)
    ensures r.Undefined? <==> acceptedNum + rejectedNum == 0
    ensures r.Percent? ==> 0.0 <= r.value <= 100.0
    ensures rejectedNum == 0 ==> r == Undefined || r == Percent(0.0)
  {
    if acceptedNum + rejectedNum == 0 then Undefined
    else
      var total := (acceptedNum + rejectedNum) as real;
      var share := rejectedNum as real / total;
      assert share * total == rejectedNum as real;
      assert 0.0 <= share <= 1.0;
      Percent(share * 100.0)
  }

  /** A defined rate is the exact percentage of the top-band, no-bonus
      applicants that were rejected: rate * (accepted + rejected) equals
      rejected * 100. */
  lemma RejectionRateIsShare(acceptedNum: nat, rejectedNum: nat)
    requires acceptedNum + rejectedNum > 0
    ensures RejectionRate(acceptedNum, rejectedNum).Percent?
    ensures RejectionRate(acceptedNum, rejectedNum).value * (acceptedNum + rejectedNum) as real ==
            rejectedNum as real * 100.0
  {
    var total := (acceptedNum + rejectedNum) as real;
    var share := rejectedNum as real / total;
    assert share * total == rejectedNum as real;
    assert share * 100.0 * total == share * total * 100.0;
  }

  /** The value A_plus_rejected records for tier t of one trial (its
      properties are stated by TierRejectionRateFacts). */
  function TierRejectionRate(rows: seq<Row>, t: int, k: nat): Rate
  {
    var n := TierTopBand(rows, t, k);
    RejectionRate(n.acceptedNum, n.rejectedNum)
  }

  /** A tier's rate is undefined exactly when the tier holds no top-band,
      no-bonus row; otherwise it lies in [0, 100]; and it is 0 (or
      undefined) when the tier fits within its k seats. */
  lemma TierRejectionRateFacts(rows: seq<Row>, t: int, k: nat)
    ensures TierRejectionRate(rows, t, k).Undefined? <==> Count(rows, Both(InTier(t), TopBand())) == 0
    ensures TierRejectionRate(rows, t, k).Percent? ==> 0.0 <= TierRejectionRate(rows, t, k).value <= 100.0
    ensures Count(rows, InTier(t)) <= k ==>
      TierRejectionRate(rows, t, k) == Undefined || TierRejectionRate(rows, t, k) == Percent(0.0)
  {
    TierTopBandFacts(rows, t, k);
  }

  function Clamp(x: int, hi: nat): nat
  {
    if x < 0 then 0 else if x > hi then hi else x
  }

  lemma SplitCons(s: seq<Row>, k: nat)
    requires s != [] && k > 0
    ensures Take(s, k) == [s[0]] + Take(s[1..], k - 1)
    ensures [s[0]] + s[1..] == s
  {
    assert s == [s[0]] + s[1..];
  }

  lemma SortedTail(s: seq<Row>)
    requires SortedDesc(s) && s != []
    ensures SortedDesc(s[1..])
  {
  }

  lemma CountCons(x: Row, s: seq<Row>, p: Row -> bool)
    ensures Count([x] + s, p) == (if p(x) then 1 else 0) + Count(s, p)
  {
    assert ([x] + s)[1..] == s;
  }

  /** Behind a head scoring at most f, a descending sequence holds no row
      above f, and no row at f if the head is below f. */
  lemma RestBelow(s: seq<Row>, f: int)
    requires SortedDesc(s) && s != [] && s[0].final <= f
    ensures forall y :: y in s[1..] ==> !Above(f)(y)
    ensures s[0].final < f ==> forall y :: y in s[1..] ==> !AtScore(f)(y)
  {
    forall y | y in s[1..]
      ensures y.final <= s[0].final
    {
      var j :| 0 <= j < |s[1..]| && s[1..][j] == y;
      assert s[j + 1] == y;
    }
  }

  /** In a descending sequence, the rows scoring exactly f that fall among the
      first k are fixed by how many rows score above f and how many score f:
      the arrangement of equal scores does not matter. */
  lemma {:induction false} PrefixAtScore(s: seq<Row>, k: nat, f: int)
    requires SortedDesc(s)
    ensures Count(Take(s, k), AtScore(f)) == Clamp(k - Count(s, Above(f)), Count(s, AtScore(f)))
  {
    if s == [] {
    } else if k == 0 {
      assert Take(s, k) == [];
    } else {
      var x, rest := s[0], s[1..];
      var accRest := Take(rest, k - 1);
      SplitCons(s, k);
      SortedTail(s);
      var above, at := Count(rest, Above(f)), Count(rest, AtScore(f));
      PrefixAtScore(rest, k - 1, f);
      var inPrefix := Count(accRest, AtScore(f));
      assert inPrefix == Clamp(k - 1 - above, at);
      CountCons(x, accRest, AtScore(f));
      CountCons(x, rest, AtScore(f));
      CountCons(x, rest, Above(f));
      if x.final > f {
        assert Count(s, Above(f)) == above + 1 && Count(s, AtScore(f)) == at;
      } else {
        RestBelow(s, f);
        CountNone(rest, Above(f));
        if x.final == f {
          assert Count(s, Above(f)) == 0 && Count(s, AtScore(f)) == at + 1;
        } else {
          CountNone(rest, AtScore(f));
          assert Count(s, Above(f)) == 0 && Count(s, AtScore(f)) == 0;
        }
      }
    }
  }

  /** For a descending arrangement of well-formed twelve-point rows, the
      accepted top-band, no-bonus rows are the accepted rows scoring 100.00. */
  lemma AcceptedTopBand(s: seq<Row>, k: nat)
    requires SortedDesc(s)
    requires forall x :: x in s ==> WellFormed(TwelvePoint, x)
    ensures Count(Take(s, k), TopBand()) ==
            Clamp(k - Count(s, Above(Hundred)), Count(s, AtScore(Hundred)))
  {
    var acc := Take(s, k);
    forall x | x in acc
      ensures TopBand()(x) <==> AtScore(Hundred)(x)
    {
      assert x in acc + Drop(s, k);
      PerfectNoBonusIsExactlyHundred(x);
    }
    CountAgree(acc, TopBand(), AtScore(Hundred));
    PrefixAtScore(s, k, Hundred);
  }

  /** Two descending arrangements of the same well-formed twelve-point rows
      accept the same number of top-band, no-bonus rows. */
  lemma SameAcceptedTopBand(s: seq<Row>, u: seq<Row>, k: nat)
    requires SortedDesc(s) && SortedDesc(u) && multiset(s) == multiset(u)
    requires forall x :: x in s ==> WellFormed(TwelvePoint, x)
    ensures Count(Take(s, k), TopBand()) == Count(Take(u, k), TopBand())
  {
    assert forall x :: x in u ==> x in multiset(s);
    AcceptedTopBand(s, k);
    AcceptedTopBand(u, k);
    CountPermutation(s, u, Above(Hundred));
    CountPermutation(s, u, AtScore(Hundred));
  }

  /** ... and reject the same number of them. */
  lemma SameTopBandCounts(s: seq<Row>, u: seq<Row>, k: nat)
    requires SortedDesc(s) && SortedDesc(u) && multiset(s) == multiset(u)
    requires forall x :: x in s ==> WellFormed(TwelvePoint, x)
    ensures Count(Take(s, k), TopBand()) == Count(Take(u, k), TopBand())
    ensures Count(Drop(s, k), TopBand()) == Count(Drop(u, k), TopBand())
  {
    SameAcceptedTopBand(s, u, k);
    CountPermutation(s, u, TopBand());
    TakeDrop(s, k);
    TakeDrop(u, k);
    CountConcat(Take(s, k), Drop(s, k), TopBand());
    CountConcat(Take(u, k), Drop(u, k), TopBand());
  }

  /** The non-stable sort may leave tied rows in any order. In a
      twelve-point table every descending arrangement of a tier yields the
      same accepted_num and rejected_num, hence the same rejection rate:
      only rows scoring exactly 100.00 are top-band without bonus, and the
      rows above them fill the same number of seats in any order. */
  lemma TieOrderIrrelevant(rows: seq<Row>, t: int, k: nat, s: seq<Row>)
    requires forall r :: r in rows ==> WellFormed(TwelvePoint, r)
    requires SortedDesc(s) && multiset(s) == multiset(TierRows(rows, t))
    ensures Count(Take(s, k), TopBand()) == TierTopBand(rows, t, k).acceptedNum
    ensures Count(Drop(s, k), TopBand()) == TierTopBand(rows, t, k).rejectedNum
  {
    var u := SortDesc(TierRows(rows, t));
    SortDescPermutes(TierRows(rows, t));
    assert forall x :: x in s ==> x in multiset(TierRows(rows, t));
    SameTopBandCounts(s, u, k);
    assert SelectTier(rows, t, k) == Split(Take(u, k), Drop(u, k));
  }
}
