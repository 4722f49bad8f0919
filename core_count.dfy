/** The count-based recommendation engine of the backend. Two incidence
    tables are read with a label column: jobs×skills (labelled by "Métier")
    and experiences×skills (labelled by the pair "Expérience", "type"). The
    skills of an individual are those exercised by at least one selected
    experience; a job scores the number of those skills it requires, and the
    jobs scoring above zero are ranked. */
module CoreCount {
  import opened Util
  import opened Ranking

  /** A table cell: text, or an integer. */
  datatype Cell = Text(s: string) | Num(n: int)

  /** A CSV table as read: column names (made distinct by the reader) and rows. */
  datatype Table = Table(header: seq<string>, rows: seq<seq<Cell>>)

  predicate WellFormed(t: Table)
  {
    NoDuplicates(t.header) && forall i :: 0 <= i < |t.rows| ==> |t.rows[i]| == |t.header|
  }

  /** A data frame: one index label per row, column names, cells. */
  datatype Frame<I> = Frame(index: seq<I>, columns: seq<string>, data: seq<seq<Cell>>)

  predicate Shaped<I>(f: Frame<I>)
  {
    && NoDuplicates(f.columns)
    && |f.data| == |f.index|
    && forall i :: 0 <= i < |f.data| ==> |f.data[i]| == |f.columns|
  }

  /** Every cell holds an integer (the incidence tables hold counts). */
  predicate Numeric<I>(f: Frame<I>)
  {
    forall i, c :: 0 <= i < |f.data| && 0 <= c < |f.data[i]| ==> f.data[i][c].Num?
  }

  function Val(c: Cell): int
  {
    match c
    case Num(n) => n
    case Text(_) => 0
  }

  datatype CoreError =
    | MissingIndexColumn   // set_index on a column the table does not have
    | UnknownExperience    // a selected experience is not a row label
    | UnknownSkill         // a selected skill is not a column of the jobs table

  datatype Experience = Experience(name: string, expType: string)
  datatype Skill = Skill(name: string)
  datatype Job = Job(name: Cell)

  const JobColumn: string := "Métier"
  const ExperienceColumn: string := "Expérience"
  const TypeColumn: string := "type"

  /** `s` without its element at position k. */
  function RemoveAt<T>(s: seq<T>, k: nat): (r: seq<T>)
    requires k < |s|
    ensures |r| == |s| - 1
    ensures forall i :: 0 <= i < |r| ==> r[i] == if i < k then s[i] else s[i + 1]
  {
    s[..k] + s[k + 1..]
  }

  lemma RemoveAtKeepsDistinct<T>(s: seq<T>, k: nat)
    requires k < |s| && NoDuplicates(s)
    ensures NoDuplicates(RemoveAt(s, k))
    ensures s[k] !in RemoveAt(s, k)
  {
  }

  /** `df.set_index("Métier")`: the column becomes the row labels. */
  function MkJobsSkills(t: Table): (r: Result<Frame<Cell>, CoreError>)
    requires WellFormed(t)
    ensures r.Ok? <==> JobColumn in t.header
    ensures r.Err? ==> r.error == MissingIndexColumn
    ensures r.Ok? ==> Shaped(r.value) && |r.value.index| == |t.rows| && JobColumn !in r.value.columns
  {
    if JobColumn !in t.header then Err(MissingIndexColumn)
    else
      var k := FindIndex(t.header, JobColumn);
      RemoveAtKeepsDistinct(t.header, k);
      Ok(Frame(seq(|t.rows|, i requires 0 <= i < |t.rows| => t.rows[i][k]),
               RemoveAt(t.header, k),
               seq(|t.rows|, i requires 0 <= i < |t.rows| => RemoveAt(t.rows[i], k))))
  }

  /** Putting the label column back where it was gives the table again. */
  lemma MkJobsSkillsRestores(t: Table)
    requires WellFormed(t) && JobColumn in t.header
    ensures var f := MkJobsSkills(t).value; var k := FindIndex(t.header, JobColumn);
      && f.columns[..k] + [JobColumn] + f.columns[k..] == t.header
      && forall i :: 0 <= i < |t.rows| ==> f.data[i][..k] + [f.index[i]] + f.data[i][k..] == t.rows[i]
  {
    var f := MkJobsSkills(t).value;
    var k := FindIndex(t.header, JobColumn);
    InsertRemoved(t.header, k);
    assert f.columns == RemoveAt(t.header, k);
    forall i | 0 <= i < |t.rows| ensures f.data[i][..k] + [f.index[i]] + f.data[i][k..] == t.rows[i] {
      InsertRemoved(t.rows[i], k);
      assert f.data[i] == RemoveAt(t.rows[i], k) && f.index[i] == t.rows[i][k];
    }
  }

  /** `s` without the elements at the two distinct positions k1 and k2. */
  function RemoveTwo<T>(s: seq<T>, k1: nat, k2: nat): (r: seq<T>)
    requires k1 < |s| && k2 < |s| && k1 != k2
    ensures |r| == |s| - 2
    ensures var lo, hi := if k1 < k2 then k1 else k2, if k1 < k2 then k2 else k1;
      forall i :: 0 <= i < |r| ==> r[i] == if i < lo then s[i] else if i < hi - 1 then s[i + 1] else s[i + 2]
  {
    if k1 < k2 then RemoveAt(RemoveAt(s, k2), k1) else RemoveAt(RemoveAt(s, k1), k2)
  }

  /** `s` with x placed at position k, the later elements shifted up. */
  function InsertAt<T>(s: seq<T>, k: nat, x: T): (r: seq<T>)
    requires k <= |s|
  {
    s[..k] + [x] + s[k..]
  }

  lemma InsertRemoved<T>(s: seq<T>, k: nat)
    requires k < |s|
    ensures InsertAt(RemoveAt(s, k), k, s[k]) == s
  {
    assert InsertAt(RemoveAt(s, k), k, s[k]) == s[..k] + [s[k]] + s[k + 1..];
    assert s == s[..k] + [s[k]] + s[k + 1..];
  }

  /** The elements x1 and x2 put back at the distinct positions k1 and k2 of
      the original sequence, the lower position first. */
  function PutBackTwo<T>(s: seq<T>, k1: nat, x1: T, k2: nat, x2: T): seq<T>
    requires k1 != k2 && k1 < |s| + 2 && k2 < |s| + 2
  {
    if k1 < k2 then InsertAt(InsertAt(s, k1, x1), k2, x2) else InsertAt(InsertAt(s, k2, x2), k1, x1)
  }

  /** Removing two positions and putting their elements back gives `s` again. */
  lemma RemoveTwoPutBack<T>(s: seq<T>, k1: nat, k2: nat)
    requires k1 < |s| && k2 < |s| && k1 != k2
    ensures PutBackTwo(RemoveTwo(s, k1, k2), k1, s[k1], k2, s[k2]) == s
  {
    var lo, hi := if k1 < k2 then k1 else k2, if k1 < k2 then k2 else k1;
    var t := RemoveAt(s, hi);
    assert t[lo] == s[lo];
    InsertRemoved(t, lo);
    InsertRemoved(s, hi);
  }

  lemma RemoveTwoKeepsDistinct<T>(s: seq<T>, k1: nat, k2: nat)
    requires k1 < |s| && k2 < |s| && k1 != k2 && NoDuplicates(s)
    ensures NoDuplicates(RemoveTwo(s, k1, k2))
    ensures s[k1] !in RemoveTwo(s, k1, k2) && s[k2] !in RemoveTwo(s, k1, k2)
  {
    var hi, lo := if k1 < k2 then k2 else k1, if k1 < k2 then k1 else k2;
    RemoveAtKeepsDistinct(s, hi);
    var t := RemoveAt(s, hi);
    assert t[lo] == s[lo];
    RemoveAtKeepsDistinct(t, lo);
  }

  /** `df.set_index(["Expérience", "type"])`: the pair of columns becomes
      the row labels; either one missing is a KeyError. */
  function MkExperiencesSkills(t: Table): (r: Result<Frame<(Cell, Cell)>, CoreError>)
    requires WellFormed(t)
    ensures r.Ok? <==> ExperienceColumn in t.header && TypeColumn in t.header
    ensures r.Err? ==> r.error == MissingIndexColumn
    ensures r.Ok? ==> (Shaped(r.value) && |r.value.index| == |t.rows|
      && ExperienceColumn !in r.value.columns && TypeColumn !in r.value.columns
      && |r.value.columns| == |t.header| - 2)
    ensures r.Ok? ==> forall i :: 0 <= i < |t.rows| ==>
      r.value.index[i] == (t.rows[i][FindIndex(t.header, ExperienceColumn)],
                           t.rows[i][FindIndex(t.header, TypeColumn)])
  {
    if ExperienceColumn !in t.header || TypeColumn !in t.header then Err(MissingIndexColumn)
    else
      var k1 := FindIndex(t.header, ExperienceColumn);
      var k2 := FindIndex(t.header, TypeColumn);
      RemoveTwoKeepsDistinct(t.header, k1, k2);
      Ok(Frame(seq(|t.rows|, i requires 0 <= i < |t.rows| => (t.rows[i][k1], t.rows[i][k2])),
               RemoveTwo(t.header, k1, k2),
               seq(|t.rows|, i requires 0 <= i < |t.rows| => RemoveTwo(t.rows[i], k1, k2))))
  }

  /** Putting the two label columns back where they were gives the table again. */
  lemma MkExperiencesSkillsRestores(t: Table)
    requires WellFormed(t) && ExperienceColumn in t.header && TypeColumn in t.header
    ensures var f := MkExperiencesSkills(t).value;
      var k1, k2 := FindIndex(t.header, ExperienceColumn), FindIndex(t.header, TypeColumn);
      && PutBackTwo(f.columns, k1, ExperienceColumn, k2, TypeColumn) == t.header
      && forall i :: 0 <= i < |t.rows| ==> PutBackTwo(f.data[i], k1, f.index[i].0, k2, f.index[i].1) == t.rows[i]
  {
    var f := MkExperiencesSkills(t).value;
    var k1, k2 := FindIndex(t.header, ExperienceColumn), FindIndex(t.header, TypeColumn);
    RemoveTwoPutBack(t.header, k1, k2);
    forall i | 0 <= i < |t.rows| ensures PutBackTwo(f.data[i], k1, f.index[i].0, k2, f.index[i].1) == t.rows[i] {
      RemoveTwoPutBack(t.rows[i], k1, k2);
    }
  }

  /** The jobs of the table: its row labels, in order. */
  function Jobs(f: Frame<Cell>): (r: seq<Job>)
    ensures |r| == |f.index| && forall i :: 0 <= i < |r| ==> r[i].name == f.index[i]
  {
    seq(|f.index|, i requires 0 <= i < |f.index| => Job(f.index[i]))
  }

  /** The skills of a table: its column names, in order. */
  function Skills<I>(f: Frame<I>): (r: seq<Skill>)
    ensures |r| == |f.columns| && forall i :: 0 <= i < |r| ==> r[i].name == f.columns[i]
  {
    seq(|f.columns|, i requires 0 <= i < |f.columns| => Skill(f.columns[i]))
  }

  /** The experiences of a table: its (name, type) row labels, in order. */
  function Experiences(f: Frame<(Cell, Cell)>): (r: seq<Experience>)
    ensures |r| == |f.index|
    ensures forall i :: 0 <= i < |r| && f.index[i].0.Text? && f.index[i].1.Text? ==> LabelOf(r[i]) == f.index[i]
  {
    seq(|f.index|, i requires 0 <= i < |f.index| => Experience(CellString(f.index[i].0), CellString(f.index[i].1)))
  }

  // ----- Step 1: skills of the selected experiences -----

  function LabelOf(x: Experience): (Cell, Cell)
  {
    (Text(x.name), Text(x.expType))
  }

  predicate KnownExperiences(es: Frame<(Cell, Cell)>, exps: seq<Experience>)
  {
    forall i :: 0 <= i < |exps| ==> LabelOf(exps[i]) in es.index
  }

  /** Sum of column c over the rows labelled `lab` (`.loc` returns every
      row carrying the label). */
  function LabelSum<I(==)>(index: seq<I>, data: seq<seq<Cell>>, lab: I, c: nat): int
    requires |data| == |index| && forall r :: 0 <= r < |data| ==> c < |data[r]|
  {
    if index == [] then 0
    else (if index[0] == lab then Val(data[0][c]) else 0) + LabelSum(index[1..], data[1..], lab, c)
  }

  /** Column c summed over the rows of the selected experiences. */
  function SkillScore(es: Frame<(Cell, Cell)>, exps: seq<Experience>, c: nat): int
    requires Shaped(es) && c < |es.columns|
  {
    if exps == [] then 0 else LabelSum(es.index, es.data, LabelOf(exps[0]), c) + SkillScore(es, exps[1..], c)
  }

  /** The set of skills whose summed column over the selected rows is positive. */
  function SkillsFromExperiences(es: Frame<(Cell, Cell)>, exps: seq<Experience>): (r: Result<set<Skill>, CoreError>)
    requires Shaped(es) && Numeric(es)
    ensures r.Ok? <==> KnownExperiences(es, exps)
    ensures r.Err? ==> r.error == UnknownExperience
    ensures r.Ok? ==> forall c :: 0 <= c < |es.columns| ==> (Skill(es.columns[c]) in r.value <==> SkillScore(es, exps, c) > 0)
    ensures r.Ok? ==> forall sk :: sk in r.value ==> sk.name in es.columns
  {
    if !KnownExperiences(es, exps) then Err(UnknownExperience)
    else
      var r := set c | 0 <= c < |es.columns| && SkillScore(es, exps, c) > 0 :: Skill(es.columns[c]);
      assert forall c :: 0 <= c < |es.columns| ==> (Skill(es.columns[c]) in r <==> SkillScore(es, exps, c) > 0) by {
        forall c | 0 <= c < |es.columns| && Skill(es.columns[c]) in r ensures SkillScore(es, exps, c) > 0 {
          var c' :| 0 <= c' < |es.columns| && SkillScore(es, exps, c') > 0 && Skill(es.columns[c']) == Skill(es.columns[c]);
          assert c' == c;
        }
      }
      Ok(r)
  }

  predicate NonNegative<I>(f: Frame<I>)
  {
    forall i, c :: 0 <= i < |f.data| && 0 <= c < |f.data[i]| ==> Val(f.data[i][c]) >= 0
  }

  /** Some row labelled `lab` has a positive entry in column c. */
  predicate Marks<I(==)>(index: seq<I>, data: seq<seq<Cell>>, lab: I, c: nat)
    requires |data| == |index| && forall r :: 0 <= r < |data| ==> c < |data[r]|
  {
    exists r :: 0 <= r < |index| && index[r] == lab && Val(data[r][c]) > 0
  }

  lemma {:induction false} LabelSumPositive<I>(index: seq<I>, data: seq<seq<Cell>>, lab: I, c: nat)
    requires |data| == |index| && forall r :: 0 <= r < |data| ==> c < |data[r]|
    requires forall r :: 0 <= r < |data| ==> Val(data[r][c]) >= 0
    ensures LabelSum(index, data, lab, c) >= 0
    ensures LabelSum(index, data, lab, c) > 0 <==> Marks(index, data, lab, c)
  {
    if index != [] {
      LabelSumPositive(index[1..], data[1..], lab, c);
      if Marks(index[1..], data[1..], lab, c) {
        var r :| 0 <= r < |index[1..]| && index[1..][r] == lab && Val(data[1..][r][c]) > 0;
        assert index[r + 1] == lab && Val(data[r + 1][c]) > 0;
      }
      if Marks(index, data, lab, c) {
        var r :| 0 <= r < |index| && index[r] == lab && Val(data[r][c]) > 0;
        if r > 0 {
          assert index[1..][r - 1] == lab && Val(data[1..][r - 1][c]) > 0;
        }
      }
    }
  }

  /** On non-negative data a skill is kept exactly when some selected
      experience exercises it. */
  lemma {:induction false} SkillScorePositive(es: Frame<(Cell, Cell)>, exps: seq<Experience>, c: nat)
    requires Shaped(es) && NonNegative(es) && c < |es.columns|
    ensures SkillScore(es, exps, c) > 0 <==>
      exists i :: 0 <= i < |exps| && Marks(es.index, es.data, LabelOf(exps[i]), c)
  {
    if exps != [] {
      LabelSumPositive(es.index, es.data, LabelOf(exps[0]), c);
      SkillScorePositive(es, exps[1..], c);
      SkillScoreNonNegative(es, exps[1..], c);
      if exists i :: 0 <= i < |exps| && Marks(es.index, es.data, LabelOf(exps[i]), c) {
        var i :| 0 <= i < |exps| && Marks(es.index, es.data, LabelOf(exps[i]), c);
        if i > 0 {
          assert exps[1..][i - 1] == exps[i];
        }
      }
      if exists i :: 0 <= i < |exps[1..]| && Marks(es.index, es.data, LabelOf(exps[1..][i]), c) {
        var i :| 0 <= i < |exps[1..]| && Marks(es.index, es.data, LabelOf(exps[1..][i]), c);
        assert exps[i + 1] == exps[1..][i];
      }
    }
  }

  lemma {:induction false} SkillScoreNonNegative(es: Frame<(Cell, Cell)>, exps: seq<Experience>, c: nat)
    requires Shaped(es) && NonNegative(es) && c < |es.columns|
    ensures SkillScore(es, exps, c) >= 0
  {
    if exps != [] {
      LabelSumPositive(es.index, es.data, LabelOf(exps[0]), c);
      SkillScoreNonNegative(es, exps[1..], c);
    }
  }

  /** On non-negative data the skill set depends only on which experiences
      are selected, not on their order or on repeats. */
  lemma SkillsFromExperiencesIgnoresOrder(es: Frame<(Cell, Cell)>, a: seq<Experience>, b: seq<Experience>)
    requires Shaped(es) && Numeric(es) && NonNegative(es)
    requires forall x :: x in a <==> x in b
    ensures SkillsFromExperiences(es, a) == SkillsFromExperiences(es, b)
  {
    var ra, rb := SkillsFromExperiences(es, a), SkillsFromExperiences(es, b);
    assert KnownExperiences(es, a) <==> KnownExperiences(es, b) by {
      if KnownExperiences(es, a) {
        forall i | 0 <= i < |b| ensures LabelOf(b[i]) in es.index {
          assert b[i] in a;
        }
      }
      if KnownExperiences(es, b) {
        forall i | 0 <= i < |a| ensures LabelOf(a[i]) in es.index {
          assert a[i] in b;
        }
      }
    }
    if ra.Ok? {
      forall sk ensures sk in ra.value <==> sk in rb.value {
        if sk.name in es.columns {
          var c := FindIndex(es.columns, sk.name);
          SkillScorePositive(es, a, c);
          SkillScorePositive(es, b, c);
          SameSelectionMarks(es, a, b, c);
          assert Skill(es.columns[c]) == sk;
        }
      }
      assert ra.value == rb.value;
    }
  }

  lemma SameSelectionMarks(es: Frame<(Cell, Cell)>, a: seq<Experience>, b: seq<Experience>, c: nat)
    requires Shaped(es) && c < |es.columns|
    requires forall x :: x in a <==> x in b
    ensures (exists i :: 0 <= i < |a| && Marks(es.index, es.data, LabelOf(a[i]), c))
        <==> (exists i :: 0 <= i < |b| && Marks(es.index, es.data, LabelOf(b[i]), c))
  {
    if exists i :: 0 <= i < |a| && Marks(es.index, es.data, LabelOf(a[i]), c) {
      var i :| 0 <= i < |a| && Marks(es.index, es.data, LabelOf(a[i]), c);
      assert a[i] in b;
      var j :| 0 <= j < |b| && b[j] == a[i];
    }
    if exists i :: 0 <= i < |b| && Marks(es.index, es.data, LabelOf(b[i]), c) {
      var i :| 0 <= i < |b| && Marks(es.index, es.data, LabelOf(b[i]), c);
      assert b[i] in a;
      var j :| 0 <= j < |a| && a[j] == b[i];
    }
  }

  // ----- Step 2: jobs of the selected skills -----

  /** Sum of a job row over the columns named in `names`, from column c on. */
  function SelectedSum(row: seq<Cell>, columns: seq<string>, names: set<string>): int
    requires |row| == |columns|
  {
    if row == [] then 0
    else (if columns[0] in names then Val(row[0]) else 0) + SelectedSum(row[1..], columns[1..], names)
  }

  /** Number of columns named in `names` that the row marks with a 1. */
  function MarkedCount(row: seq<Cell>, columns: seq<string>, names: set<string>): nat
    requires |row| == |columns|
  {
    if row == [] then 0
    else (if columns[0] in names && row[0] == Num(1) then 1 else 0) + MarkedCount(row[1..], columns[1..], names)
  }

  /** On a 0/1 row the job score counts the selected skills the job requires. */
  lemma {:induction false} SelectedSumCounts(row: seq<Cell>, columns: seq<string>, names: set<string>)
    requires |row| == |columns|
    requires forall c :: 0 <= c < |row| ==> row[c] == Num(0) || row[c] == Num(1)
    ensures SelectedSum(row, columns, names) == MarkedCount(row, columns, names)
  {
    if row != [] {
      SelectedSumCounts(row[1..], columns[1..], names);
    }
  }

  function Names(skills: set<Skill>): set<string>
  {
    set sk | sk in skills :: sk.name
  }

  function AllJobScores(js: Frame<Cell>, names: set<string>): (r: seq<Scored<Cell>>)
    requires Shaped(js)
    ensures |r| == |js.index|
    ensures forall j :: 0 <= j < |r| ==> r[j] == Scored(js.index[j], SelectedSum(js.data[j], js.columns, names) as real)
  {
    seq(|js.index|, j requires 0 <= j < |js.index| =>
      Scored(js.index[j], SelectedSum(js.data[j], js.columns, names) as real))
  }

  /** Jobs scored by the selected skills, those above zero ranked by
      descending score; a selected skill that is not a column is a KeyError. */
  function JobsFromSkills(js: Frame<Cell>, skills: set<Skill>): (r: Result<seq<Scored<Cell>>, CoreError>)
    requires Shaped(js) && Numeric(js)
    ensures r.Ok? <==> forall sk :: sk in skills ==> sk.name in js.columns
    ensures r.Err? ==> r.error == UnknownSkill
    ensures r.Ok? ==> SortedDesc(r.value) && forall k :: 0 <= k < |r.value| ==> r.value[k].score > 0.0
    ensures r.Ok? ==> multiset(r.value) == multiset(KeepPositive(AllJobScores(js, Names(skills))))
  {
    if exists sk :: sk in skills && sk.name !in js.columns then Err(UnknownSkill)
    else
      var all := AllJobScores(js, Names(skills));
      KeepPositiveKeepsOrder(SortDesc(all));
      KeepPositivePermutation(SortDesc(all), all);
      Ok(KeepPositive(SortDesc(all)))
  }

  /** A job is ranked, with its score, exactly when its score is positive. */
  lemma JobsFromSkillsMembers(js: Frame<Cell>, skills: set<Skill>, j: nat)
    requires Shaped(js) && Numeric(js) && JobsFromSkills(js, skills).Ok? && j < |js.index|
    ensures var score := SelectedSum(js.data[j], js.columns, Names(skills)) as real;
      Scored(js.index[j], score) in JobsFromSkills(js, skills).value <==> score > 0.0
  {
    var all := AllJobScores(js, Names(skills));
    var e := all[j];
    var r := JobsFromSkills(js, skills).value;
    KeepPositiveMultiset(all, e);
    assert e in r <==> multiset(r)[e] > 0;
  }

  /** Every ranked entry is some job's label and positive score. */
  lemma JobsFromSkillsSound(js: Frame<Cell>, skills: set<Skill>, e: Scored<Cell>)
    requires Shaped(js) && Numeric(js) && JobsFromSkills(js, skills).Ok?
    requires e in JobsFromSkills(js, skills).value
    ensures exists j :: 0 <= j < |js.index| && e == Scored(js.index[j], SelectedSum(js.data[j], js.columns, Names(skills)) as real)
  {
    var all := AllJobScores(js, Names(skills));
    KeepPositiveMultiset(all, e);
    assert e in multiset(all);
    var j :| 0 <= j < |all| && all[j] == e;
  }

  /** `job_recommendation`: the two steps composed. */
  function JobRecommendation(es: Frame<(Cell, Cell)>, js: Frame<Cell>, exps: seq<Experience>)
    : (r: Result<seq<Scored<Cell>>, CoreError>)
    requires Shaped(es) && Numeric(es) && Shaped(js) && Numeric(js)
    ensures !KnownExperiences(es, exps) ==> r == Err(UnknownExperience)
    ensures r.Ok? ==> SortedDesc(r.value) && forall k :: 0 <= k < |r.value| ==> r.value[k].score > 0.0
  {
    match SkillsFromExperiences(es, exps)
    case Err(e) => Err(e)
    case Ok(skills) => JobsFromSkills(js, skills)
  }

  /** Selecting no experience recommends no job. */
  lemma EmptySelectionRecommendsNothing(es: Frame<(Cell, Cell)>, js: Frame<Cell>)
    requires Shaped(es) && Numeric(es) && Shaped(js) && Numeric(js)
    ensures JobRecommendation(es, js, []) == Ok([])
  {
    var skills := SkillsFromExperiences(es, []).value;
    assert skills == {} by {
      forall sk | sk in skills ensures false {
        var c := FindIndex(es.columns, sk.name);
        assert SkillScore(es, [], c) == 0;
      }
    }
    assert Names({}) == {};
    var all := AllJobScores(js, Names({}));
    forall j | 0 <= j < |js.index| ensures all[j].score == 0.0 {
      NothingSelectedSumsToZero(js.data[j], js.columns);
    }
    var r := JobsFromSkills(js, {}).value;
    if r != [] {
      KeepPositiveMultiset(all, r[0]);
      assert false;
    }
    assert SkillsFromExperiences(es, []) == Ok({});
  }

  lemma {:induction false} NothingSelectedSumsToZero(row: seq<Cell>, columns: seq<string>)
    requires |row| == |columns|
    ensures SelectedSum(row, columns, {}) == 0
  {
    if row != [] {
      NothingSelectedSumsToZero(row[1..], columns[1..]);
    }
  }

  /** `str` of a label. */
  function CellString(c: Cell): string
  {
    match c
    case Text(s) => s
    case Num(n) => DecimalString(n)
  }

  /** `JobRecommendation.items`: each entry as (Job(name=str(label)), score), in ranked order. */
  function Items(scores: seq<Scored<Cell>>): (r: seq<(Job, real)>)
    ensures |r| == |scores|
    ensures forall k :: 0 <= k < |r| ==> r[k].0.name.Text? && r[k].1 == scores[k].score
    ensures forall k :: 0 <= k < |r| && scores[k].key.Text? ==> r[k].0 == Job(scores[k].key)
  {
    seq(|scores|, k requires 0 <= k < |scores| => (Job(Text(CellString(scores[k].key))), scores[k].score))
  }

  /** Distinct integer labels keep distinct names once printed. */
  lemma ItemsNamesDistinct(a: int, b: int)
    requires a != b
    ensures CellString(Num(a)) != CellString(Num(b))
  {
    ParseDecimalString(a);
    ParseDecimalString(b);
  }
}
