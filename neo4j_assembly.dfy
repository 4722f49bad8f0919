/** Assembly of the job, skill and sector tables and of the 0/1 jobs×skills
    matrix from the records a graph database returns. The query results are
    inputs; the loops that collect them into insertion-ordered dictionaries,
    drop unknown jobs and skills, attach sectors and set matrix cells are
    modelled step by step. */
module Neo4jAssembly {
  import opened Util
  import opened Matrix

  /** `job_level_from_label`: "NIV1" .. "NIV8" give 1 .. 8, anything else none. */
  function JobLevelFromLabel(tag: string): (r: Option<int>)
    ensures r.Some? ==> 1 <= r.value <= 8 && tag == LevelLabel(r.value)
    ensures r.None? ==> forall n :: 1 <= n <= 8 ==> tag != LevelLabel(n)
  {
    if tag == "NIV1" then Some(1)
    else if tag == "NIV2" then Some(2)
    else if tag == "NIV3" then Some(3)
    else if tag == "NIV4" then Some(4)
    else if tag == "NIV5" then Some(5)
    else if tag == "NIV6" then Some(6)
    else if tag == "NIV7" then Some(7)
    else if tag == "NIV8" then Some(8)
    else None
  }

  /** The label of a level, "NIV" followed by its digit. */
  function LevelLabel(n: int): string
    requires 1 <= n <= 8
  {
    "NIV" + [Digit(n)]
  }

  lemma LevelLabelRoundTrip(n: int)
    requires 1 <= n <= 8
    ensures JobLevelFromLabel(LevelLabel(n)) == Some(n)
  {
    assert LevelLabel(1) == "NIV1" && LevelLabel(2) == "NIV2" && LevelLabel(3) == "NIV3" && LevelLabel(4) == "NIV4";
    assert LevelLabel(5) == "NIV5" && LevelLabel(6) == "NIV6" && LevelLabel(7) == "NIV7" && LevelLabel(8) == "NIV8";
  }

  /** A dictionary keyed by record ids that remembers insertion order, as a
      Python dict does: overwriting a key keeps its position. */
  datatype Dict<V> = Dict(keys: seq<int>, entries: map<int, V>)

  predicate DictValid<V>(d: Dict<V>)
  {
    NoDuplicates(d.keys) && d.entries.Keys == set k | k in d.keys
  }

  function Put<V>(d: Dict<V>, k: int, v: V): (r: Dict<V>)
    ensures r.entries == d.entries[k := v]
    ensures r.keys == if k in d.entries then d.keys else d.keys + [k]
  {
    Dict(if k in d.entries then d.keys else d.keys + [k], d.entries[k := v])
  }

  /** The dictionary filled by `d[id] = value` for each pair in turn. */
  function Collect<V>(pairs: seq<(int, V)>): Dict<V>
  {
    if pairs == [] then Dict([], map[])
    else Put(Collect(pairs[..|pairs| - 1]), pairs[|pairs| - 1].0, pairs[|pairs| - 1].1)
  }

  /** The value of the last pair with key k. */
  function LastWith<V>(pairs: seq<(int, V)>, k: int): Option<V>
  {
    if pairs == [] then None
    else if pairs[|pairs| - 1].0 == k then Some(pairs[|pairs| - 1].1)
    else LastWith(pairs[..|pairs| - 1], k)
  }

  /** Keys appear once, in order of first insertion; each holds the value of
      its last pair, a later record overwriting an earlier one. */
  lemma {:induction false} CollectFacts<V>(pairs: seq<(int, V)>)
    ensures DictValid(Collect(pairs))
    ensures forall k :: k in Collect(pairs).entries <==> LastWith(pairs, k).Some?
    ensures forall k :: k in Collect(pairs).entries ==> Collect(pairs).entries[k] == LastWith(pairs, k).value
  {
    if pairs != [] {
      CollectFacts(pairs[..|pairs| - 1]);
    }
  }

  lemma {:induction false} LastWithIn<V>(pairs: seq<(int, V)>, k: int)
    ensures LastWith(pairs, k).Some? <==> exists i :: 0 <= i < |pairs| && pairs[i].0 == k
  {
    if pairs != [] {
      var init := pairs[..|pairs| - 1];
      LastWithIn(init, k);
      if exists i :: 0 <= i < |init| && init[i].0 == k {
        var i :| 0 <= i < |init| && init[i].0 == k;
        assert pairs[i].0 == k;
      }
      if exists i :: 0 <= i < |pairs| && pairs[i].0 == k {
        var i :| 0 <= i < |pairs| && pairs[i].0 == k;
        if i < |init| {
          assert init[i].0 == k;
        }
      }
    }
  }

  /** A record the database returns for a job, a skill or a sector. */
  datatype JobRecord = JobRecord(id: int, title: string, rome: string, levelLabel: string)
  datatype SkillRecord = SkillRecord(id: int, title: string)
  datatype SectorRecord = SectorRecord(id: int, title: string, rome: string)

  /** A row of the jobs table; the sector is missing until one is attached. */
  datatype JobRow = JobRow(title: string, rome: string, level: int, sector: Option<int>)

  /** The entry a job record yields: none when its level label does not parse. */
  function KeptJob(rec: JobRecord): (r: seq<(int, JobRow)>)
    ensures |r| <= 1
    ensures r != [] <==> JobLevelFromLabel(rec.levelLabel).Some?
    ensures r != [] ==> r[0].0 == rec.id && 1 <= r[0].1.level <= 8
  {
    match JobLevelFromLabel(rec.levelLabel)
    case None => []
    case Some(level) => [(rec.id, JobRow(rec.title, rec.rome, level, None))]
  }

  /** The jobs whose level label parses, as (id, row) pairs, in record order. */
  function KeptJobs(records: seq<JobRecord>): (r: seq<(int, JobRow)>)
    ensures |r| <= |records|
  {
    if records == [] then []
    else KeptJobs(records[..|records| - 1]) + KeptJob(records[|records| - 1])
  }

  /** Every kept id comes from a record whose level label parses. */
  lemma {:induction false} KeptJobsSound(records: seq<JobRecord>, id: int)
    ensures (exists i :: 0 <= i < |KeptJobs(records)| && KeptJobs(records)[i].0 == id) ==>
      (exists i :: 0 <= i < |records| && records[i].id == id && JobLevelFromLabel(records[i].levelLabel).Some?)
  {
    if records != [] {
      var init := records[..|records| - 1];
      var last := records[|records| - 1];
      KeptJobsSound(init, id);
      var k := KeptJobs(init);
      var r := KeptJobs(records);
      assert r == k + KeptJob(last);
      if exists i :: 0 <= i < |r| && r[i].0 == id {
        var i :| 0 <= i < |r| && r[i].0 == id;
        if i < |k| {
          assert k[i] == r[i];
          var j :| 0 <= j < |init| && init[j].id == id && JobLevelFromLabel(init[j].levelLabel).Some?;
          assert records[j] == init[j];
        } else {
          assert records[|records| - 1] == last;
        }
      }
    }
  }

  /** Every record whose level label parses has its id kept. */
  lemma {:induction false} KeptJobsComplete(records: seq<JobRecord>, id: int)
    ensures (exists i :: 0 <= i < |records| && records[i].id == id && JobLevelFromLabel(records[i].levelLabel).Some?) ==>
      (exists i :: 0 <= i < |KeptJobs(records)| && KeptJobs(records)[i].0 == id)
  {
    if records != [] {
      var init := records[..|records| - 1];
      var last := records[|records| - 1];
      KeptJobsComplete(init, id);
      var k := KeptJobs(init);
      var r := KeptJobs(records);
      assert r == k + KeptJob(last);
      if exists i :: 0 <= i < |records| && records[i].id == id && JobLevelFromLabel(records[i].levelLabel).Some? {
        var i :| 0 <= i < |records| && records[i].id == id && JobLevelFromLabel(records[i].levelLabel).Some?;
        if i < |init| {
          assert init[i] == records[i];
          var j :| 0 <= j < |k| && k[j].0 == id;
          assert r[j] == k[j];
        } else {
          assert r[|k|] == KeptJob(last)[0];
        }
      }
    }
  }

  /** Every kept job has a level between 1 and 8. */
  lemma {:induction false} KeptJobsLevels(records: seq<JobRecord>)
    ensures forall i :: 0 <= i < |KeptJobs(records)| ==> 1 <= KeptJobs(records)[i].1.level <= 8
  {
    if records != [] {
      var init := records[..|records| - 1];
      KeptJobsLevels(init);
      assert KeptJobs(records) == KeptJobs(init) + KeptJob(records[|records| - 1]);
    }
  }

  /** An id is kept exactly when some record with that id has a level label
      that parses, and every kept job has a level between 1 and 8. */
  lemma KeptJobsMembers(records: seq<JobRecord>, id: int)
    ensures (exists i :: 0 <= i < |KeptJobs(records)| && KeptJobs(records)[i].0 == id) <==>
      (exists i :: 0 <= i < |records| && records[i].id == id && JobLevelFromLabel(records[i].levelLabel).Some?)
    ensures forall i :: 0 <= i < |KeptJobs(records)| ==> 1 <= KeptJobs(records)[i].1.level <= 8
  {
    KeptJobsSound(records, id);
    KeptJobsComplete(records, id);
    KeptJobsLevels(records);
  }

  /** The jobs loop: a job is recorded with its level unless its level label
      does not parse; a later record with the same id overwrites the entry. */
  method CollectJobs(records: seq<JobRecord>) returns (jobs: Dict<JobRow>)
    ensures jobs == Collect(KeptJobs(records))
  {
    jobs := Dict([], map[]);
    var i := 0;
    while i < |records|
      invariant i <= |records|
      invariant jobs == Collect(KeptJobs(records[..i]))
    {
      var r := records[i];
      assert records[..i + 1][..i] == records[..i];
      assert KeptJobs(records[..i + 1]) == KeptJobs(records[..i]) + KeptJob(r);
      var level := JobLevelFromLabel(r.levelLabel);
      if level.Some? {
        jobs := Put(jobs, r.id, JobRow(r.title, r.rome, level.value, None));
        assert KeptJobs(records[..i + 1]) == KeptJobs(records[..i]) + [(r.id, JobRow(r.title, r.rome, level.value, None))];
      } else {
        assert KeptJobs(records[..i + 1]) == KeptJobs(records[..i]);
      }
      i := i + 1;
    }
    assert records[..i] == records;
  }

  /** Exactly the jobs with a parsing level label are recorded, each with a
      level from 1 to 8. */
  lemma JobsRecorded(records: seq<JobRecord>, id: int)
    ensures DictValid(Collect(KeptJobs(records)))
    ensures id in Collect(KeptJobs(records)).entries <==>
      exists i :: 0 <= i < |records| && records[i].id == id && JobLevelFromLabel(records[i].levelLabel).Some?
    ensures id in Collect(KeptJobs(records)).entries ==> 1 <= Collect(KeptJobs(records)).entries[id].level <= 8
  {
    var kept := KeptJobs(records);
    CollectFacts(kept);
    LastWithIn(kept, id);
    KeptJobsMembers(records, id);
    if id in Collect(kept).entries {
      LastWithMember(kept, id);
    }
  }

  lemma {:induction false} LastWithMember<V>(pairs: seq<(int, V)>, k: int)
    requires LastWith(pairs, k).Some?
    ensures exists i :: 0 <= i < |pairs| && pairs[i] == (k, LastWith(pairs, k).value)
  {
    var init := pairs[..|pairs| - 1];
    if pairs[|pairs| - 1].0 != k {
      LastWithMember(init, k);
      var i :| 0 <= i < |init| && init[i] == (k, LastWith(init, k).value);
      assert pairs[i] == init[i];
    }
  }

  function SkillPairs(records: seq<SkillRecord>): (r: seq<(int, string)>)
    ensures |r| == |records| && forall i :: 0 <= i < |r| ==> r[i] == (records[i].id, records[i].title)
  {
    seq(|records|, i requires 0 <= i < |records| => (records[i].id, records[i].title))
  }

  function SectorPairs(records: seq<SectorRecord>): (r: seq<(int, (string, string))>)
    ensures |r| == |records| && forall i :: 0 <= i < |r| ==> r[i] == (records[i].id, (records[i].title, records[i].rome))
  {
    seq(|records|, i requires 0 <= i < |records| => (records[i].id, (records[i].title, records[i].rome)))
  }

  /** The skills and sectors loops: every record is stored under its id. */
  method CollectAll<V>(pairs: seq<(int, V)>) returns (d: Dict<V>)
    ensures d == Collect(pairs)
  {
    d := Dict([], map[]);
    var i := 0;
    while i < |pairs|
      invariant i <= |pairs|
      invariant d == Collect(pairs[..i])
    {
      assert pairs[..i + 1][..i] == pairs[..i];
      d := Put(d, pairs[i].0, pairs[i].1);
      i := i + 1;
    }
    assert pairs[..i] == pairs;
  }

  /** The job–skill pairs both of whose ends are known, in order. */
  function KnownEdges<A, B>(edges: seq<(int, int)>, jobs: Dict<A>, skills: Dict<B>): (r: seq<(int, int)>)
    ensures forall e :: e in r <==> e in edges && e.0 in jobs.entries && e.1 in skills.entries
  {
    if edges == [] then []
    else
      var last := edges[|edges| - 1];
      var init := KnownEdges(edges[..|edges| - 1], jobs, skills);
      assert edges == edges[..|edges| - 1] + [last];
      if last.0 in jobs.entries && last.1 in skills.entries then init + [last] else init
  }

  /** The edge loop: keep an edge iff its job and its skill are known. */
  method KeepKnownEdges<A, B>(edges: seq<(int, int)>, jobs: Dict<A>, skills: Dict<B>) returns (kept: seq<(int, int)>)
    ensures kept == KnownEdges(edges, jobs, skills)
  {
    kept := [];
    var i := 0;
    while i < |edges|
      invariant i <= |edges|
      invariant kept == KnownEdges(edges[..i], jobs, skills)
    {
      assert edges[..i + 1][..i] == edges[..i];
      var e := edges[i];
      if e.0 in jobs.entries && e.1 in skills.entries {
        kept := kept + [e];
      }
      i := i + 1;
    }
    assert edges[..i] == edges;
  }

  /** The jobs after `jobs[job]["sector"] = sector` for each mapping of a known job. */
  function WithSectors(jobs: Dict<JobRow>, mapping: seq<(int, int)>): (r: Dict<JobRow>)
    ensures r.keys == jobs.keys && r.entries.Keys == jobs.entries.Keys
  {
    if mapping == [] then jobs
    else
      var d := WithSectors(jobs, mapping[..|mapping| - 1]);
      var m := mapping[|mapping| - 1];
      if m.0 in d.entries then Dict(d.keys, d.entries[m.0 := d.entries[m.0].(sector := Some(m.1))]) else d
  }

  /** Only known jobs get a sector; the last mapping for a job decides it,
      and the other fields are untouched. */
  lemma {:induction false} WithSectorsFacts(jobs: Dict<JobRow>, mapping: seq<(int, int)>, j: int)
    requires j in jobs.entries
    ensures var r := WithSectors(jobs, mapping).entries[j];
      && r == jobs.entries[j].(sector := r.sector)
      && r.sector == if LastWith(mapping, j).Some? then LastWith(mapping, j) else jobs.entries[j].sector
  {
    if mapping != [] {
      WithSectorsFacts(jobs, mapping[..|mapping| - 1], j);
    }
  }

  /** The sector loop, updating the recorded jobs in place. */
  method AttachSectors(jobs: Dict<JobRow>, mapping: seq<(int, int)>) returns (r: Dict<JobRow>)
    ensures r == WithSectors(jobs, mapping)
  {
    r := jobs;
    var i := 0;
    while i < |mapping|
      invariant i <= |mapping|
      invariant r == WithSectors(jobs, mapping[..i])
    {
      assert mapping[..i + 1][..i] == mapping[..i];
      var m := mapping[i];
      if m.0 in r.entries {
        r := Dict(r.keys, r.entries[m.0 := r.entries[m.0].(sector := Some(m.1))]);
      }
      i := i + 1;
    }
    assert mapping[..i] == mapping;
  }

  /** The matrix loop: a zero matrix over the job rows and skill columns, with
      the cell of every known edge set to 1. */
  method BuildIncidence(jobKeys: seq<int>, skillKeys: seq<int>, edges: seq<(int, int)>) returns (m: array2<int>)
    requires NoDuplicates(jobKeys) && NoDuplicates(skillKeys)
    ensures fresh(m) && m.Length0 == |jobKeys| && m.Length1 == |skillKeys|
    ensures forall r, c :: 0 <= r < m.Length0 && 0 <= c < m.Length1 ==>
      m[r, c] == if (jobKeys[r], skillKeys[c]) in edges then 1 else 0
  {
    m := new int[|jobKeys|, |skillKeys|]((r, c) => 0);
    var k := 0;
    while k < |edges|
      invariant k <= |edges|
      invariant forall r, c :: 0 <= r < m.Length0 && 0 <= c < m.Length1 ==>
        m[r, c] == if (jobKeys[r], skillKeys[c]) in edges[..k] then 1 else 0
    {
      var (j, s) := edges[k];
      assert edges[..k + 1] == edges[..k] + [edges[k]];
      if j in jobKeys && s in skillKeys {
        var r := FindIndex(jobKeys, j);
        var c := FindIndex(skillKeys, s);
        m[r, c] := 1;
      } else {
        assert forall r, c :: 0 <= r < m.Length0 && 0 <= c < m.Length1 ==> (jobKeys[r], skillKeys[c]) != (j, s);
      }
      k := k + 1;
    }
    assert edges[..k] == edges;
  }

  /** The assembled tables. */
  datatype Assembled = Assembled(jobs: Dict<JobRow>, skills: Dict<string>, sectors: Dict<(string, string)>,
                                 jobsSkills: Mat)

  /** Indexing an empty table by its id column is a KeyError. */
  datatype AssemblyError = NoJobs | NoSkills | NoSectors

  /** `get_job_skill_data` with the five query results as inputs. */
  method GetJobSkillData(jobRecords: seq<JobRecord>, skillRecords: seq<SkillRecord>, sectorRecords: seq<SectorRecord>,
                         jobSkill: seq<(int, int)>, jobSector: seq<(int, int)>)
    returns (r: Result<Assembled, AssemblyError>)
    ensures var jobs := Collect(KeptJobs(jobRecords));
      var skills := Collect(SkillPairs(skillRecords));
      var sectors := Collect(SectorPairs(sectorRecords));
      && (r.Ok? <==> jobs.keys != [] && skills.keys != [] && sectors.keys != [])
      && (r.Err? ==> r.error == (if jobs.keys == [] then NoJobs else if skills.keys == [] then NoSkills else NoSectors))
      && (r.Ok? ==>
        && r.value.jobs == WithSectors(jobs, jobSector)
        && r.value.skills == skills && r.value.sectors == sectors
        && |r.value.jobsSkills| == |jobs.keys| && IsMatrix(r.value.jobsSkills, |skills.keys|)
        && forall i, c :: 0 <= i < |jobs.keys| && 0 <= c < |skills.keys| ==>
             r.value.jobsSkills[i][c] == if (jobs.keys[i], skills.keys[c]) in jobSkill then 1 else 0)
  {
    var jobs := CollectJobs(jobRecords);
    var skills := CollectAll(SkillPairs(skillRecords));
    var sectors := CollectAll(SectorPairs(sectorRecords));
    var edges := KeepKnownEdges(jobSkill, jobs, skills);
    jobs := AttachSectors(jobs, jobSector);
    if jobs.keys == [] {
      return Err(NoJobs);
    }
    if skills.keys == [] {
      return Err(NoSkills);
    }
    if sectors.keys == [] {
      return Err(NoSectors);
    }
    CollectFacts(KeptJobs(jobRecords));
    CollectFacts(SkillPairs(skillRecords));
    var m := BuildIncidence(jobs.keys, skills.keys, edges);
    var cells := seq(m.Length0, i requires 0 <= i < m.Length0 reads m =>
                   seq(m.Length1, c requires 0 <= c < m.Length1 reads m => m[i, c]));
    assert forall i, c :: 0 <= i < |jobs.keys| && 0 <= c < |skills.keys| ==>
      ((jobs.keys[i], skills.keys[c]) in edges <==> (jobs.keys[i], skills.keys[c]) in jobSkill);
    r := Ok(Assembled(jobs, skills, sectors, cells));
  }
}
