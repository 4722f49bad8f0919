/** The spreadsheet loader of the ETL: jobs, skills and experiences get
    integer ids by position, and both incidence tables are reduced to the
    skill columns of the jobs sheet, renamed to those skill ids. The two
    sheets are inputs here (their download is not modelled). */
module Spreadsheet {
  import opened Util
  import opened CoreCount

  datatype SheetError = MissingColumns(names: seq<string>)

  /** The cells of column k, row by row, keyed by row position. */
  function ColumnById(t: Table, k: nat): (r: map<int, Cell>)
    requires WellFormed(t) && k < |t.header|
    ensures r.Keys == Ids(|t.rows|)
    ensures forall i :: 0 <= i < |t.rows| ==> r[i] == t.rows[i][k]
  {
    map i | 0 <= i < |t.rows| :: t.rows[i][k]
  }

  /** `jobs()`: ids 0..n-1 for the "Métier" values, in row order. */
  function Jobs(js: Table): (r: Result<map<int, Cell>, SheetError>)
    requires WellFormed(js)
    ensures r.Ok? <==> JobColumn in js.header
    ensures r.Err? ==> r.error == MissingColumns([JobColumn])
    ensures r.Ok? ==> (r.value.Keys == Ids(|js.rows|)
      && forall i :: 0 <= i < |js.rows| ==> r.value[i] == js.rows[i][FindIndex(js.header, JobColumn)])
  {
    if JobColumn !in js.header then Err(MissingColumns([JobColumn]))
    else Ok(ColumnById(js, FindIndex(js.header, JobColumn)))
  }

  /** The skill names of the jobs sheet: its columns other than "Métier". */
  function SkillNames(js: Table): (r: seq<string>)
    requires WellFormed(js) && JobColumn in js.header
    ensures |r| == |js.header| - 1 && NoDuplicates(r)
    ensures forall n :: n in r <==> n in js.header && n != JobColumn
  {
    var k := FindIndex(js.header, JobColumn);
    RemoveAtKeepsDistinct(js.header, k);
    var r := RemoveAt(js.header, k);
    assert forall n :: n in js.header && n != JobColumn ==> n in r by {
      forall n | n in js.header && n != JobColumn ensures n in r {
        var i :| 0 <= i < |js.header| && js.header[i] == n;
        if i < k { assert r[i] == n; } else { assert r[i - 1] == n; }
      }
    }
    r
  }

  /** `skills()`: ids 0..k-1 for the skill columns of the jobs sheet, in order. */
  function Skills(js: Table): (r: Result<map<int, string>, SheetError>)
    requires WellFormed(js)
    ensures r.Ok? <==> JobColumn in js.header
    ensures r.Err? ==> r.error == MissingColumns([JobColumn])
    ensures r.Ok? ==> (r.value.Keys == Ids(|js.header| - 1)
      && forall i :: 0 <= i < |js.header| - 1 ==> r.value[i] == SkillNames(js)[i])
  {
    if JobColumn !in js.header then Err(MissingColumns([JobColumn]))
    else
      var names := SkillNames(js);
      Ok(map i | 0 <= i < |names| :: names[i])
  }

  /** `skill_ids()`: 0..k-1, the keys of `skills()` in order. */
  function SkillIds(js: Table): (r: Result<seq<int>, SheetError>)
    requires WellFormed(js)
    ensures r.Ok? <==> Skills(js).Ok?
    ensures r.Ok? ==> |r.value| == |Skills(js).value| && forall i :: 0 <= i < |r.value| ==> r.value[i] == i
    ensures r.Ok? ==> forall s :: s in r.value <==> s in Skills(js).value
  {
    match Skills(js)
    case Err(e) => Err(e)
    case Ok(skills) =>
      assert |skills| == |js.header| - 1 by {
        assert skills.Keys == Ids(|js.header| - 1);
      }
      var ids := seq(|js.header| - 1, i => i);
      assert forall s :: s in ids <==> s in skills by {
        forall s | s in skills ensures s in ids {
          assert ids[s] == s;
        }
      }
      Ok(ids)
  }

  /** The ids 0..n-1. */
  function Ids(n: nat): (r: set<int>)
    ensures forall i :: i in r <==> 0 <= i < n
    ensures |r| == n
  {
    if n == 0 then {} else Ids(n - 1) + {n - 1}
  }

  /** `experiences()`: ids 0..m-1 for the ("Expérience", "type") pairs, in row order. */
  function Experiences(es: Table): (r: Result<map<int, (Cell, Cell)>, SheetError>)
    requires WellFormed(es)
    ensures r.Ok? <==> ExperienceColumn in es.header && TypeColumn in es.header
    ensures r.Err? ==> (r.error.names != [] &&
      forall n :: n in r.error.names <==> n in [ExperienceColumn, TypeColumn] && n !in es.header)
    ensures r.Ok? ==> (r.value.Keys == Ids(|es.rows|)
      && forall i :: 0 <= i < |es.rows| ==>
           r.value[i] == (es.rows[i][FindIndex(es.header, ExperienceColumn)], es.rows[i][FindIndex(es.header, TypeColumn)]))
  {
    MissingMembers([ExperienceColumn, TypeColumn], es.header);
    var missing := Missing([ExperienceColumn, TypeColumn], es.header);
    if missing != [] then Err(MissingColumns(missing))
    else
      assert ExperienceColumn in [ExperienceColumn, TypeColumn] && TypeColumn in [ExperienceColumn, TypeColumn];
      var ke, kt := FindIndex(es.header, ExperienceColumn), FindIndex(es.header, TypeColumn);
      Ok(map i | 0 <= i < |es.rows| :: (es.rows[i][ke], es.rows[i][kt]))
  }

  /** The requested names a header lacks, in request order. */
  function Missing(names: seq<string>, header: seq<string>): seq<string>
  {
    if names == [] then []
    else (if names[0] in header then [] else [names[0]]) + Missing(names[1..], header)
  }

  lemma {:induction false} MissingMembers(names: seq<string>, header: seq<string>)
    ensures forall n :: n in Missing(names, header) <==> n in names && n !in header
    ensures Missing(names, header) == [] <==> forall n :: n in names ==> n in header
  {
    if names != [] {
      MissingMembers(names[1..], header);
      assert forall n :: n in names <==> n == names[0] || n in names[1..];
      if Missing(names, header) != [] {
        assert Missing(names, header)[0] in Missing(names, header);
      }
    }
  }

  /** The table of `.loc[:, names].rename(names -> ids)`: the named columns,
      in the given order, now identified by position. */
  function SelectColumns(t: Table, names: seq<string>): (r: Result<seq<seq<Cell>>, SheetError>)
    requires WellFormed(t)
    ensures r.Ok? <==> forall n :: n in names ==> n in t.header
    ensures r.Err? ==> r.error.names != [] && forall n :: n in r.error.names <==> n in names && n !in t.header
    ensures r.Ok? ==> |r.value| == |t.rows| && forall i :: 0 <= i < |t.rows| ==>
      |r.value[i]| == |names| &&
      forall s :: 0 <= s < |names| ==> r.value[i][s] == t.rows[i][FindIndex(t.header, names[s])]
  {
    MissingMembers(names, t.header);
    var missing := Missing(names, t.header);
    if missing != [] then Err(MissingColumns(missing))
    else
      Ok(seq(|t.rows|, i requires 0 <= i < |t.rows| =>
           seq(|names|, s requires 0 <= s < |names| => t.rows[i][FindIndex(t.header, names[s])])))
  }

  /** `experiences_skills()`: the experiences sheet reduced to the skills of
      the jobs sheet, columns renamed to skill ids; an experiences sheet
      lacking one of those skills fails. */
  function ExperiencesSkills(es: Table, js: Table): (r: Result<seq<seq<Cell>>, SheetError>)
    requires WellFormed(es) && WellFormed(js)
    ensures JobColumn !in js.header ==> r == Err(MissingColumns([JobColumn]))
    ensures JobColumn in js.header ==> r == SelectColumns(es, SkillNames(js))
  {
    if JobColumn !in js.header then Err(MissingColumns([JobColumn]))
    else SelectColumns(es, SkillNames(js))
  }

  /** `jobs_skills()`: the jobs sheet reduced to its own skill columns,
      renamed to skill ids. */
  function JobsSkills(js: Table): (r: Result<seq<seq<Cell>>, SheetError>)
    requires WellFormed(js)
    ensures JobColumn !in js.header ==> r == Err(MissingColumns([JobColumn]))
    ensures JobColumn in js.header ==> r == SelectColumns(js, SkillNames(js))
  {
    if JobColumn !in js.header then Err(MissingColumns([JobColumn]))
    else SelectColumns(js, SkillNames(js))
  }

  /** The jobs sheet never lacks its own skills: row i of `jobs_skills()` is
      the row of job id i without its "Métier" cell, and column s holds skill s. */
  lemma JobsSkillsIsTheSheet(js: Table)
    requires WellFormed(js) && JobColumn in js.header
    ensures JobsSkills(js).Ok? && Jobs(js).Ok? && Skills(js).Ok?
    ensures var m := JobsSkills(js).value; var k := FindIndex(js.header, JobColumn);
      && |m| == |js.rows| && Ids(|js.rows|) == Jobs(js).value.Keys
      && forall i :: 0 <= i < |js.rows| ==> m[i] == RemoveAt(js.rows[i], k)
  {
    var names := SkillNames(js);
    var k := FindIndex(js.header, JobColumn);
    assert forall s :: 0 <= s < |names| ==> FindIndex(js.header, names[s]) == (if s < k then s else s + 1) by {
      forall s | 0 <= s < |names| ensures FindIndex(js.header, names[s]) == (if s < k then s else s + 1) {
        var p := if s < k then s else s + 1;
        assert js.header[p] == names[s];
        assert names[s] in js.header;
        var f := FindIndex(js.header, names[s]);
        assert f == p;
      }
    }
    var m := JobsSkills(js).value;
    forall i | 0 <= i < |js.rows| ensures m[i] == RemoveAt(js.rows[i], k) {
    }
  }

  /** An experiences sheet fails exactly when it lacks a skill column of the
      jobs sheet; otherwise its row i belongs to experience id i. */
  lemma ExperiencesSkillsAligned(es: Table, js: Table)
    requires WellFormed(es) && WellFormed(js) && JobColumn in js.header
    ensures ExperiencesSkills(es, js).Ok? <==> forall n :: n in js.header && n != JobColumn ==> n in es.header
    ensures ExperiencesSkills(es, js).Ok? && Experiences(es).Ok? ==>
      |ExperiencesSkills(es, js).value| == |es.rows| && Experiences(es).value.Keys == Ids(|es.rows|)
  {
  }
}
