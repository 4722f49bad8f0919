/** The prerequisites checked on the two incidence tables before they are
    used: experiences, jobs and the skills of each table must be unique.
    Each list is checked in turn and the first one holding a repeated label
    aborts with its duplicates. */
module DataChecks {
  import opened Util
  import opened CoreCount

  /** Distinct values repeated in `s` from position i on, each listed at its
      first occurrence in `s`. */
  function RepeatedFrom<T(==)>(s: seq<T>, i: nat): (r: seq<T>)
    requires i <= |s|
    decreases |s| - i
  {
    if i == |s| then []
    else (if s[i] !in s[..i] && Count(s, s[i]) > 1 then [s[i]] else []) + RepeatedFrom(s, i + 1)
  }

  /** The values occurring more than once in `s`, once each. */
  function Repeated<T(==)>(s: seq<T>): seq<T>
  {
    RepeatedFrom(s, 0)
  }

  lemma {:induction false} RepeatedFromMembers<T>(s: seq<T>, i: nat)
    requires i <= |s|
    ensures forall x :: x in RepeatedFrom(s, i) <==> (x in s[i..] && x !in s[..i] && Count(s, x) > 1)
    ensures NoDuplicates(RepeatedFrom(s, i))
    decreases |s| - i
  {
    if i < |s| {
      RepeatedFromMembers(s, i + 1);
      assert s[..i + 1] == s[..i] + [s[i]];
      assert s[i..] == [s[i]] + s[i + 1..];
    }
  }

  /** Exactly the values occurring more than once, each listed once. */
  lemma RepeatedMembers<T>(s: seq<T>)
    ensures forall x :: x in Repeated(s) <==> Count(s, x) > 1
    ensures NoDuplicates(Repeated(s))
  {
    RepeatedFromMembers(s, 0);
    assert s[0..] == s;
    forall x ensures Count(s, x) > 1 ==> x in s {
      CountPositiveIffIn(s, x);
    }
  }

  lemma RepeatedCounts<T>(s: seq<T>)
    ensures forall k :: 0 <= k < |Repeated(s)| ==> Count(s, Repeated(s)[k]) > 1
  {
    RepeatedMembers(s);
    forall k | 0 <= k < |Repeated(s)| ensures Count(s, Repeated(s)[k]) > 1 {
      var x := Repeated(s)[k];
      assert x in Repeated(s);
      assert Count(s, x) > 1;
    }
  }

  lemma RepeatedEmptyIffNoDuplicates<T>(s: seq<T>)
    ensures Repeated(s) == [] <==> NoDuplicates(s)
  {
    RepeatedMembers(s);
    NoDuplicatesIffCountsAtMostOne(s);
    if Repeated(s) != [] {
      var x := Repeated(s)[0];
      assert x in Repeated(s);
      assert Count(s, x) > 1;
    } else {
      forall x ensures Count(s, x) <= 1 {
        assert x !in Repeated(s);
      }
    }
  }

  /** `duplicate_values` of the backend: (value, count) for every value
      occurring more than once. */
  function DuplicateValues<T(==,!new)>(s: seq<T>): (r: seq<(T, nat)>)
    ensures forall v, n :: (v, n) in r <==> (Count(s, v) > 1 && n == Count(s, v))
    ensures r == [] <==> NoDuplicates(s)
  {
    var rep := Repeated(s);
    RepeatedMembers(s);
    RepeatedEmptyIffNoDuplicates(s);
    var r := seq(|rep|, k requires 0 <= k < |rep| => (rep[k], Count(s, rep[k])));
    assert forall v, n :: (v, n) in r <==> (Count(s, v) > 1 && n == Count(s, v)) by {
      forall v, n | Count(s, v) > 1 && n == Count(s, v) ensures (v, n) in r {
        var k :| 0 <= k < |rep| && rep[k] == v;
        assert r[k] == (v, n);
      }
    }
    r
  }

  /** `duplicate_values` of the ETL: only the counts of the repeated values. */
  function DuplicateCounts<T(==)>(s: seq<T>): (r: seq<nat>)
    ensures |r| == |Repeated(s)|
    ensures forall k :: 0 <= k < |r| ==> r[k] > 1
    ensures r == [] <==> NoDuplicates(s)
  {
    var rep := Repeated(s);
    RepeatedMembers(s);
    RepeatedEmptyIffNoDuplicates(s);
    RepeatedCounts(s);
    seq(|rep|, k requires 0 <= k < |rep| => Count(s, rep[k]))
  }

  /** Both renderings report the same repeated values, with the same counts. */
  lemma DuplicateReportsAgree<T(!new)>(s: seq<T>)
    ensures |DuplicateValues(s)| == |DuplicateCounts(s)|
    ensures forall k :: 0 <= k < |DuplicateCounts(s)| ==> DuplicateValues(s)[k].1 == DuplicateCounts(s)[k]
  {
  }

  /** The four label lists, in the order they are checked. */
  datatype Checked = ExperienceRows | ExperienceSkillColumns | JobRows | JobSkillColumns

  /** The failed assertion of `check_data` in the backend: which list, and its duplicates. */
  datatype DataSetError =
    | DuplicatedExperiences(experiences: seq<((Cell, Cell), nat)>)
    | DuplicatedExperienceSkills(skills: seq<(string, nat)>)
    | DuplicatedJobs(jobs: seq<(Cell, nat)>)
    | DuplicatedJobSkills(skills: seq<(string, nat)>)

  function Which(e: DataSetError): Checked
  {
    match e
    case DuplicatedExperiences(_) => ExperienceRows
    case DuplicatedExperienceSkills(_) => ExperienceSkillColumns
    case DuplicatedJobs(_) => JobRows
    case DuplicatedJobSkills(_) => JobSkillColumns
  }

  /** Which list is the first, in checking order, to hold a repeated label. */
  predicate FirstFailing<E(==), J(==)>(c: Checked, exps: seq<E>, expSkills: seq<string>, jobs: seq<J>, jobSkills: seq<string>)
  {
    match c
    case ExperienceRows => !NoDuplicates(exps)
    case ExperienceSkillColumns => NoDuplicates(exps) && !NoDuplicates(expSkills)
    case JobRows => NoDuplicates(exps) && NoDuplicates(expSkills) && !NoDuplicates(jobs)
    case JobSkillColumns =>
      NoDuplicates(exps) && NoDuplicates(expSkills) && NoDuplicates(jobs) && !NoDuplicates(jobSkills)
  }

  /** `check_data` of the backend on the two tables of a data set. */
  function CheckDataSet(es: Frame<(Cell, Cell)>, js: Frame<Cell>): (r: Outcome<DataSetError>)
    ensures r.Pass? <==>
      NoDuplicates(es.index) && NoDuplicates(es.columns) && NoDuplicates(js.index) && NoDuplicates(js.columns)
    ensures r.Fail? ==> FirstFailing(Which(r.error), es.index, es.columns, js.index, js.columns)
    ensures r.Fail? ==> match r.error
      case DuplicatedExperiences(d) => d == DuplicateValues(es.index)
      case DuplicatedExperienceSkills(d) => d == DuplicateValues(es.columns)
      case DuplicatedJobs(d) => d == DuplicateValues(js.index)
      case DuplicatedJobSkills(d) => d == DuplicateValues(js.columns)
  {
    var d1 := DuplicateValues(es.index);
    if |d1| != 0 then Fail(DuplicatedExperiences(d1))
    else
      var d2 := DuplicateValues(es.columns);
      if |d2| != 0 then Fail(DuplicatedExperienceSkills(d2))
      else
        var d3 := DuplicateValues(js.index);
        if |d3| != 0 then Fail(DuplicatedJobs(d3))
        else
          var d4 := DuplicateValues(js.columns);
          if |d4| != 0 then Fail(DuplicatedJobSkills(d4))
          else Pass
  }

  /** The failed assertion of the ETL's `check_data`: which list, and the
      counts of its repeated labels. */
  datatype LabelError = LabelError(list: Checked, counts: seq<nat>)

  function CountsOf<E(==), J(==)>(c: Checked, exps: seq<E>, expSkills: seq<string>, jobs: seq<J>, jobSkills: seq<string>): seq<nat>
  {
    match c
    case ExperienceRows => DuplicateCounts(exps)
    case ExperienceSkillColumns => DuplicateCounts(expSkills)
    case JobRows => DuplicateCounts(jobs)
    case JobSkillColumns => DuplicateCounts(jobSkills)
  }

  /** `check_data` of the ETL (the same in its pipelines and its check
      module), on the labels of the two tables. */
  function CheckLabels<E(==), J(==)>(exps: seq<E>, expSkills: seq<string>, jobs: seq<J>, jobSkills: seq<string>)
    : (r: Outcome<LabelError>)
    ensures r.Pass? <==> NoDuplicates(exps) && NoDuplicates(expSkills) && NoDuplicates(jobs) && NoDuplicates(jobSkills)
    ensures r.Fail? ==> (FirstFailing(r.error.list, exps, expSkills, jobs, jobSkills)
      && r.error.counts == CountsOf(r.error.list, exps, expSkills, jobs, jobSkills)
      && r.error.counts != [])
  {
    if |DuplicateCounts(exps)| != 0 then Fail(LabelError(ExperienceRows, DuplicateCounts(exps)))
    else if |DuplicateCounts(expSkills)| != 0 then Fail(LabelError(ExperienceSkillColumns, DuplicateCounts(expSkills)))
    else if |DuplicateCounts(jobs)| != 0 then Fail(LabelError(JobRows, DuplicateCounts(jobs)))
    else if |DuplicateCounts(jobSkills)| != 0 then Fail(LabelError(JobSkillColumns, DuplicateCounts(jobSkills)))
    else Pass
  }

  /** The backend and ETL checks accept the same tables and blame the same list. */
  lemma ChecksAgree(es: Frame<(Cell, Cell)>, js: Frame<Cell>)
    ensures CheckDataSet(es, js).Pass? <==> CheckLabels(es.index, es.columns, js.index, js.columns).Pass?
    ensures CheckDataSet(es, js).Fail? ==>
      Which(CheckDataSet(es, js).error) == CheckLabels(es.index, es.columns, js.index, js.columns).error.list
  {
    var a := CheckDataSet(es, js);
    var b := CheckLabels(es.index, es.columns, js.index, js.columns);
    if a.Fail? {
      FirstFailingUnique(Which(a.error), b.error.list, es.index, es.columns, js.index, js.columns);
    }
  }

  lemma FirstFailingUnique<E, J>(c1: Checked, c2: Checked, exps: seq<E>, expSkills: seq<string>, jobs: seq<J>, jobSkills: seq<string>)
    requires FirstFailing(c1, exps, expSkills, jobs, jobSkills) && FirstFailing(c2, exps, expSkills, jobs, jobSkills)
    ensures c1 == c2
  {
  }

  /** A data set with a repeated skill column in both tables is blamed on the
      experiences table, which is checked first. */
  lemma ExperienceTableCheckedFirst(es: Frame<(Cell, Cell)>, js: Frame<Cell>)
    requires NoDuplicates(es.index) && !NoDuplicates(es.columns) && !NoDuplicates(js.columns)
    ensures CheckDataSet(es, js).Fail? && CheckDataSet(es, js).error.DuplicatedExperienceSkills?
  {
  }
}
