/** Weighting of an individual's job experiences by duration and recency.
    An experience [begin, end] is cut into calendar-year segments; a segment
    contributes the fraction of its year that it covers, divided by one plus
    its recency (how many years, in that year's length, before today it
    ended). Python floats are modelled by exact reals. */
module ExperienceWeighting {
  import opened Util
  import opened Calendar

  datatype IndividualExperience = IndividualExperience(jobId: int, begin: Date, end: Date)

  /** One row of the weighted experience table. */
  datatype ExperienceWeight = ExperienceWeight(jobId: int, begin: Date, end: Date,
                                               duration: real, recency: real, weight: real)

  datatype WeighError =
    | EmptyYearRange   // end.year < begin.year: no segment, `year_recency[-1]` fails
    | ZeroDivision     // a segment's recency is exactly -1

  /** The part of an experience falling in one calendar year, with that
      year's length in days. */
  datatype Segment = Segment(start: Date, end: Date, length: int)

  predicate ValidSegment(s: Segment)
  {
    ValidDate(s.start) && ValidDate(s.end) && s.length == DaysInYear(s.end.year)
  }

  /** Segment i of n for the interval [begin, end]. */
  function SegmentOf(begin: Date, end: Date, n: int, i: int): (s: Segment)
    requires ValidDate(begin) && ValidDate(end) && n == end.year - begin.year + 1 && 0 <= i < n
    ensures ValidSegment(s) && s.start.year == begin.year + i && s.end.year == begin.year + i
  {
    Segment(if i == 0 then begin else Jan1(begin.year + i),
            if i == n - 1 then end else Dec31(begin.year + i),
            DaysInYear(begin.year + i))
  }

  /** One segment per year begin.year..end.year: the first starts at `begin`,
      the last ends at `end`, the others run from January 1 to December 31.
      Nothing checks that `end` follows `begin`. */
  function YearSegments(begin: Date, end: Date): (r: seq<Segment>)
    requires ValidDate(begin) && ValidDate(end)
    ensures |r| == if end.year < begin.year then 0 else end.year - begin.year + 1
    ensures r != [] ==> r[0].start == begin && r[|r| - 1].end == end
    ensures forall i :: 0 <= i < |r| ==>
      (ValidSegment(r[i]) && r[i].start.year == begin.year + i && r[i].end.year == begin.year + i)
    ensures forall i :: 0 < i < |r| ==> r[i].start == Jan1(begin.year + i)
    ensures forall i :: 0 <= i < |r| - 1 ==> r[i].end == Dec31(begin.year + i)
  {
    var n := end.year - begin.year + 1;
    if n <= 0 then []
    else seq(n, i requires 0 <= i < n => SegmentOf(begin, end, n, i))
  }

  /** The segments tile the interval: each one ends the day before the next
      one starts, and an interval within one year is a single segment. */
  lemma SegmentsContiguous(begin: Date, end: Date)
    requires ValidDate(begin) && ValidDate(end)
    ensures var r := YearSegments(begin, end);
      forall i :: 0 <= i < |r| - 1 ==> Ordinal(r[i].end) + 1 == Ordinal(r[i + 1].start)
    ensures begin.year == end.year ==> YearSegments(begin, end) == [Segment(begin, end, DaysInYear(begin.year))]
  {
    var r := YearSegments(begin, end);
    forall i | 0 <= i < |r| - 1 ensures Ordinal(r[i].end) + 1 == Ordinal(r[i + 1].start) {
      Dec31IsLastDay(begin.year + i);
    }
  }

  /** Inclusive day count of the segment over its year's length. */
  function Proportion(s: Segment): real
    requires ValidSegment(s)
  {
    (Days(s.start, s.end) + 1) as real / s.length as real
  }

  /** Days from the segment's end to today, in units of its year's length. */
  function Recency(s: Segment, today: Date): real
    requires ValidSegment(s) && ValidDate(today)
  {
    Days(s.end, today) as real / s.length as real
  }

  predicate DividesByZero(s: Segment, today: Date)
    requires ValidSegment(s) && ValidDate(today)
  {
    Recency(s, today) + 1.0 == 0.0
  }

  function SegmentWeight(s: Segment, today: Date): real
    requires ValidSegment(s) && ValidDate(today) && !DividesByZero(s, today)
  {
    Proportion(s) / (Recency(s, today) + 1.0)
  }

  function Proportions(segs: seq<Segment>): (r: seq<real>)
    requires forall i :: 0 <= i < |segs| ==> ValidSegment(segs[i])
    ensures |r| == |segs| && forall i :: 0 <= i < |segs| ==> r[i] == Proportion(segs[i])
  {
    seq(|segs|, i requires 0 <= i < |segs| => Proportion(segs[i]))
  }

  function SegmentWeights(segs: seq<Segment>, today: Date): (r: seq<real>)
    requires ValidDate(today)
    requires forall i :: 0 <= i < |segs| ==> ValidSegment(segs[i]) && !DividesByZero(segs[i], today)
    ensures |r| == |segs| && forall i :: 0 <= i < |segs| ==> r[i] == SegmentWeight(segs[i], today)
  {
    seq(|segs|, i requires 0 <= i < |segs| => SegmentWeight(segs[i], today))
  }

  /** Duration (years worked, fractional), recency of the last segment and
      weight of one experience, or the error the computation runs into. */
  function WeighExperience(e: IndividualExperience, today: Date): (r: Result<ExperienceWeight, WeighError>)
    requires ValidDate(e.begin) && ValidDate(e.end) && ValidDate(today)
    ensures r == Err(EmptyYearRange) <==> e.end.year < e.begin.year
    ensures r == Err(ZeroDivision) <==> (e.begin.year <= e.end.year &&
      exists i :: 0 <= i < |YearSegments(e.begin, e.end)| && DividesByZero(YearSegments(e.begin, e.end)[i], today))
    ensures r.Ok? ==> r.value.jobId == e.jobId && r.value.begin == e.begin && r.value.end == e.end
    ensures r.Ok? ==> r.value.recency == Days(e.end, today) as real / DaysInYear(e.end.year) as real
  {
    var segs := YearSegments(e.begin, e.end);
    if segs == [] then Err(EmptyYearRange)
    else if exists i :: 0 <= i < |segs| && DividesByZero(segs[i], today) then Err(ZeroDivision)
    else
      Ok(ExperienceWeight(e.jobId, e.begin, e.end,
                          SumReals(Proportions(segs)),
                          Recency(segs[|segs| - 1], today),
                          SumReals(SegmentWeights(segs, today))))
  }

  /** The columns of a successfully weighed row. */
  lemma WeighedColumns(e: IndividualExperience, today: Date)
    requires ValidDate(e.begin) && ValidDate(e.end) && ValidDate(today)
    requires WeighExperience(e, today).Ok?
    ensures var segs := YearSegments(e.begin, e.end);
      && (forall i :: 0 <= i < |segs| ==> !DividesByZero(segs[i], today))
      && WeighExperience(e, today).value.duration == SumReals(Proportions(segs))
      && WeighExperience(e, today).value.weight == SumReals(SegmentWeights(segs, today))
  {
  }

  /** A full calendar year covers exactly its whole length. */
  lemma FullYearProportion(y: int)
    requires 1 <= y < 9999
    ensures Proportion(Segment(Jan1(y), Dec31(y), DaysInYear(y))) == 1.0
  {
    Dec31IsLastDay(y);
  }

  /** January 1 of one year to December 31 of another counts one unit of
      duration per calendar year, leap years included. */
  lemma WholeYearsDuration(e: IndividualExperience, today: Date)
    requires ValidDate(today) && 1 <= e.begin.year <= e.end.year < 9999
    requires e.begin == Jan1(e.begin.year) && e.end == Dec31(e.end.year)
    requires WeighExperience(e, today).Ok?
    ensures WeighExperience(e, today).value.duration == (e.end.year - e.begin.year + 1) as real
  {
    WeighedColumns(e, today);
    var ps := Proportions(YearSegments(e.begin, e.end));
    forall i | 0 <= i < |ps| ensures ps[i] == 1.0 {
      WholeYearSegment(e.begin.year, e.end.year, i);
    }
    SumOfOnes(ps);
  }

  lemma WholeYearSegment(y0: int, y1: int, i: int)
    requires 1 <= y0 <= y1 < 9999 && 0 <= i <= y1 - y0
    ensures YearSegments(Jan1(y0), Dec31(y1))[i] == Segment(Jan1(y0 + i), Dec31(y0 + i), DaysInYear(y0 + i))
    ensures Proportion(YearSegments(Jan1(y0), Dec31(y1))[i]) == 1.0
  {
    FullYearProportion(y0 + i);
  }

  lemma {:induction false} SumOfOnes(s: seq<real>)
    requires forall i :: 0 <= i < |s| ==> s[i] == 1.0
    ensures SumReals(s) == |s| as real
  {
    if s != [] {
      SumOfOnes(s[1..]);
    }
  }

  /** Within one year the duration is the inclusive day count over the year length. */
  lemma SameYearDuration(e: IndividualExperience, today: Date)
    requires ValidDate(e.begin) && ValidDate(e.end) && ValidDate(today) && e.begin.year == e.end.year
    requires WeighExperience(e, today).Ok?
    ensures WeighExperience(e, today).value.duration
         == (Days(e.begin, e.end) + 1) as real / DaysInYear(e.begin.year) as real
  {
    WeighedColumns(e, today);
    SegmentsContiguous(e.begin, e.end);
    var segs := YearSegments(e.begin, e.end);
    assert Proportions(segs) == [Proportion(segs[0])];
    assert SumReals([Proportion(segs[0])]) == Proportion(segs[0]) + SumReals([]);
  }

  /** An experience that ended by today, with begin not after end, weighs at
      least 0 and at most its duration: recency only discounts. */
  lemma WeightAtMostDuration(e: IndividualExperience, today: Date)
    requires ValidDate(e.begin) && ValidDate(e.end) && ValidDate(today)
    requires Ordinal(e.begin) <= Ordinal(e.end) <= Ordinal(today)
    ensures WeighExperience(e, today).Ok?
    ensures 0.0 <= WeighExperience(e, today).value.weight <= WeighExperience(e, today).value.duration
  {
    if e.end.year < e.begin.year {
      EarlierYearEarlierDate(e.end, e.begin);
    }
    var segs := YearSegments(e.begin, e.end);
    forall i | 0 <= i < |segs|
      ensures Ordinal(segs[i].start) <= Ordinal(segs[i].end) <= Ordinal(today)
    {
      SegmentOrdered(e, i);
    }
    assert !exists i :: 0 <= i < |segs| && DividesByZero(segs[i], today) by {
      forall i | 0 <= i < |segs| ensures !DividesByZero(segs[i], today) {
        DiscountBounded(segs[i], today);
      }
    }
    WeighedColumns(e, today);
    var ps, ws := Proportions(segs), SegmentWeights(segs, today);
    forall i | 0 <= i < |segs| ensures 0.0 <= ws[i] <= ps[i] {
      DiscountBounded(segs[i], today);
    }
    SumBounds(ws, ps);
  }

  lemma SegmentOrdered(e: IndividualExperience, i: int)
    requires ValidDate(e.begin) && ValidDate(e.end)
    requires Ordinal(e.begin) <= Ordinal(e.end)
    requires 0 <= i < |YearSegments(e.begin, e.end)|
    ensures var s := YearSegments(e.begin, e.end)[i];
      Ordinal(s.start) <= Ordinal(s.end) <= Ordinal(e.end)
  {
    var segs := YearSegments(e.begin, e.end);
    var s := segs[i];
    WithinItsYear(s.start);
    WithinItsYear(s.end);
    if i < |segs| - 1 {
      EarlierYearEarlierDate(s.end, e.end);
    }
  }

  lemma DiscountBounded(s: Segment, today: Date)
    requires ValidSegment(s) && ValidDate(today)
    requires Ordinal(s.start) <= Ordinal(s.end) <= Ordinal(today)
    ensures !DividesByZero(s, today)
    ensures 0.0 <= SegmentWeight(s, today) <= Proportion(s)
  {
    NonNegativeRatio(Days(s.start, s.end) + 1, s.length);
    NonNegativeRatio(Days(s.end, today), s.length);
    Discount(Proportion(s), Recency(s, today));
  }

  lemma NonNegativeRatio(a: int, b: int)
    requires a >= 0 && b > 0
    ensures a as real / b as real >= 0.0
  {
  }

  /** Dividing a non-negative amount by 1 + r, r >= 0, can only shrink it. */
  lemma Discount(p: real, r: real)
    requires p >= 0.0 && r >= 0.0
    ensures 0.0 <= p / (r + 1.0) <= p
  {
    var q := p / (r + 1.0);
    assert q * (r + 1.0) == p;
    assert q >= 0.0;
    assert p - q == q * r;
  }

  lemma {:induction false} SumBounds(a: seq<real>, b: seq<real>)
    requires |a| == |b|
    requires forall i :: 0 <= i < |a| ==> 0.0 <= a[i] <= b[i]
    ensures 0.0 <= SumReals(a) <= SumReals(b)
  {
    if a != [] {
      SumBounds(a[1..], b[1..]);
    }
  }

  /** Nothing checks that `end` follows `begin`: a reversed interval within
      one year is weighed, with a negative duration. */
  lemma ReversedIntervalAccepted()
    ensures var e := IndividualExperience(7, Date(2021, 3, 10), Date(2021, 3, 1));
      var r := WeighExperience(e, Date(2022, 1, 1));
      r.Ok? && r.value.duration < 0.0
  {
    var e := IndividualExperience(7, Date(2021, 3, 10), Date(2021, 3, 1));
    SameYearDuration(e, Date(2022, 1, 1));
    SegmentsContiguous(e.begin, e.end);
    assert Days(e.begin, e.end) == -9;
  }

  /** A year worked from January 1 to December 31, weighed on that
      December 31: duration 1, recency 0, weight 1. */
  lemma CurrentFullYearWeighsOne(jobId: int, y: int)
    requires 1 <= y < 9999
    ensures var r := WeighExperience(IndividualExperience(jobId, Jan1(y), Dec31(y)), Dec31(y));
      r == Ok(ExperienceWeight(jobId, Jan1(y), Dec31(y), 1.0, 0.0, 1.0))
  {
    var e := IndividualExperience(jobId, Jan1(y), Dec31(y));
    SegmentsContiguous(e.begin, e.end);
    FullYearProportion(y);
    var segs := YearSegments(e.begin, e.end);
    assert segs == [Segment(Jan1(y), Dec31(y), DaysInYear(y))];
    assert Recency(segs[0], Dec31(y)) == 0.0;
    assert SegmentWeight(segs[0], Dec31(y)) == 1.0;
    assert Proportions(segs) == [1.0];
    assert SegmentWeights(segs, Dec31(y)) == [1.0];
    assert SumReals([1.0]) == 1.0 + SumReals([]);
  }

  predicate AllValid(exps: seq<IndividualExperience>)
  {
    forall i :: 0 <= i < |exps| ==> ValidDate(exps[i].begin) && ValidDate(exps[i].end)
  }

  /** The outcomes of the steps taken one after the other: the first
      failure, or every value in order. */
  function Sequenced<T, E>(outs: seq<Result<T, E>>): Result<seq<T>, E>
  {
    if outs == [] then Ok([])
    else
      match Sequenced(outs[..|outs| - 1])
      case Err(e) => Err(e)
      case Ok(vs) => var o := outs[|outs| - 1]; if o.Err? then Err(o.error) else Ok(vs + [o.value])
  }

  /** All steps succeed and give their values in order, or the error is
      that of the first failing step. */
  lemma {:induction false} SequencedFacts<T, E>(outs: seq<Result<T, E>>)
    ensures var r := Sequenced(outs);
      && (r.Ok? <==> forall i :: 0 <= i < |outs| ==> outs[i].Ok?)
      && (r.Ok? ==> (|r.value| == |outs| && forall i :: 0 <= i < |outs| ==> r.value[i] == outs[i].value))
      && (r.Err? ==> exists k :: (0 <= k < |outs| && outs[k] == Err(r.error) &&
            forall i :: 0 <= i < k ==> outs[i].Ok?))
  {
    if outs != [] {
      var n := |outs| - 1;
      var init := outs[..n];
      SequencedFacts(init);
      assert forall i :: 0 <= i < n ==> init[i] == outs[i];
      if Sequenced(init).Err? {
        var k :| 0 <= k < n && init[k] == Err(Sequenced(init).error) && forall i :: 0 <= i < k ==> init[i].Ok?;
        assert outs[k].Err?;
      }
    }
  }

  /** A failure in a prefix is the failure of the whole sequence. */
  lemma {:induction false} SequencedErrPersists<T, E>(outs: seq<Result<T, E>>, n: nat)
    requires n <= |outs| && Sequenced(outs[..n]).Err?
    ensures Sequenced(outs) == Sequenced(outs[..n])
    decreases |outs| - n
  {
    if n < |outs| {
      assert outs[..n + 1][..n] == outs[..n];
      SequencedErrPersists(outs, n + 1);
    } else {
      assert outs[..n] == outs;
    }
  }

  /** The weighing outcome of every row. */
  function Outcomes(exps: seq<IndividualExperience>, today: Date): (r: seq<Result<ExperienceWeight, WeighError>>)
    requires ValidDate(today) && AllValid(exps)
    ensures |r| == |exps| && forall i :: 0 <= i < |exps| ==> r[i] == WeighExperience(exps[i], today)
  {
    seq(|exps|, i requires 0 <= i < |exps| => WeighExperience(exps[i], today))
  }

  /** The weighed table: every row weighed in order, or the first failure. */
  function WeighAll(exps: seq<IndividualExperience>, today: Date): Result<seq<ExperienceWeight>, WeighError>
    requires ValidDate(today) && AllValid(exps)
  {
    Sequenced(Outcomes(exps, today))
  }

  /** Every row weighs, in order, or the error is that of the first row that fails. */
  lemma WeighAllFacts(exps: seq<IndividualExperience>, today: Date)
    requires ValidDate(today) && AllValid(exps)
    ensures var r := WeighAll(exps, today);
      && (r.Ok? <==> forall i :: 0 <= i < |exps| ==> WeighExperience(exps[i], today).Ok?)
      && (r.Ok? ==> (|r.value| == |exps| &&
            forall i :: 0 <= i < |exps| ==> r.value[i] == WeighExperience(exps[i], today).value))
      && (r.Err? ==> exists k :: (0 <= k < |exps| && WeighExperience(exps[k], today) == Err(r.error) &&
            forall i :: 0 <= i < k ==> WeighExperience(exps[i], today).Ok?))
  {
    SequencedFacts(Outcomes(exps, today));
  }

  /** The loop over the experience table: every row is weighed in order and
      the first failure aborts the whole computation. */
  method WeighExperiences(exps: seq<IndividualExperience>, today: Date) returns (r: Result<seq<ExperienceWeight>, WeighError>)
    requires ValidDate(today) && AllValid(exps)
    ensures r == WeighAll(exps, today)
  {
    ghost var outs := Outcomes(exps, today);
    var rows: seq<ExperienceWeight> := [];
    var i := 0;
    while i < |exps|
      invariant 0 <= i <= |exps|
      invariant Sequenced(outs[..i]) == Ok(rows)
    {
      assert outs[..i + 1][..i] == outs[..i];
      var w := WeighExperience(exps[i], today);
      if w.Err? {
        assert Sequenced(outs[..i + 1]) == Err(w.error);
        SequencedErrPersists(outs, i + 1);
        return Err(w.error);
      }
      rows := rows + [w.value];
      i := i + 1;
    }
    assert outs[..i] == outs;
    r := Ok(rows);
  }
}
