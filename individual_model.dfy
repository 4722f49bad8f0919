/** The individual's model: weighted experiences, skill weights aggregated
    from the job-skill rows of the practiced jobs, the main job (that of the
    heaviest experience), its sector, and the individual's level (the highest
    level among practiced jobs). */
module IndividualModel {
  import opened Util
  import opened Calendar
  import opened ExperienceWeighting

  /** Job attributes read from the jobs table. */
  datatype JobInfo = JobInfo(level: int, sector: int)

  datatype ModelError =
    | Weighing(cause: WeighError)   // raised while weighing an experience
    | UnknownJob                    // a practiced job is not a row label (`.loc` KeyError)
    | NoExperience                  // `idxmax` of an empty column

  datatype Model = Model(experiences: seq<ExperienceWeight>, skills: seq<real>,
                         mainJob: int, mainSector: int, level: int)

  /** Job-skill rows keyed by job id, all `width` wide. */
  predicate JobsSkillsTable(js: map<int, seq<real>>, width: nat)
  {
    forall j :: j in js ==> |js[j]| == width
  }

  predicate AllKnown(ws: seq<ExperienceWeight>, js: map<int, seq<real>>)
  {
    forall i :: 0 <= i < |ws| ==> ws[i].jobId in js
  }

  /** Weight of skill column `s`: the sum over experiences of the experience
      weight times the practiced job's entry for the skill. */
  function WeightedSkill(ws: seq<ExperienceWeight>, js: map<int, seq<real>>, width: nat, s: nat): real
    requires JobsSkillsTable(js, width) && AllKnown(ws, js) && s < width
  {
    if ws == [] then 0.0 else ws[0].weight * js[ws[0].jobId][s] + WeightedSkill(ws[1..], js, width, s)
  }

  /** The individual skill weights, or KeyError when a practiced job has no row. */
  function IndivSkills(ws: seq<ExperienceWeight>, js: map<int, seq<real>>, width: nat): (r: Result<seq<real>, ModelError>)
    requires JobsSkillsTable(js, width)
    ensures r.Ok? <==> AllKnown(ws, js)
    ensures r.Err? ==> r.error == UnknownJob
    ensures r.Ok? ==> |r.value| == width && forall s :: 0 <= s < width ==> r.value[s] == WeightedSkill(ws, js, width, s)
  {
    if !AllKnown(ws, js) then Err(UnknownJob)
    else Ok(seq(width, s requires 0 <= s < width => WeightedSkill(ws, js, width, s)))
  }

  /** Skill weights add up over experiences, so their order does not matter. */
  lemma {:induction false} WeightedSkillAppend(a: seq<ExperienceWeight>, b: seq<ExperienceWeight>,
                                               js: map<int, seq<real>>, width: nat, s: nat)
    requires JobsSkillsTable(js, width) && AllKnown(a, js) && AllKnown(b, js) && s < width
    ensures AllKnown(a + b, js) && AllKnown(b + a, js)
    ensures WeightedSkill(a + b, js, width, s) == WeightedSkill(a, js, width, s) + WeightedSkill(b, js, width, s)
    ensures WeightedSkill(a + b, js, width, s) == WeightedSkill(b + a, js, width, s)
  {
    assert AllKnown(a + b, js) && AllKnown(b + a, js) by {
      forall i | 0 <= i < |a + b| ensures (a + b)[i].jobId in js {
        if i < |a| { assert (a + b)[i] == a[i]; } else { assert (a + b)[i] == b[i - |a|]; }
      }
      forall i | 0 <= i < |b + a| ensures (b + a)[i].jobId in js {
        if i < |b| { assert (b + a)[i] == b[i]; } else { assert (b + a)[i] == a[i - |b|]; }
      }
    }
    WeightedSkillAppendOneWay(a, b, js, width, s);
    WeightedSkillAppendOneWay(b, a, js, width, s);
  }

  lemma {:induction false} WeightedSkillAppendOneWay(a: seq<ExperienceWeight>, b: seq<ExperienceWeight>,
                                                     js: map<int, seq<real>>, width: nat, s: nat)
    requires JobsSkillsTable(js, width) && AllKnown(a + b, js) && s < width
    ensures AllKnown(a, js) && AllKnown(b, js)
    ensures WeightedSkill(a + b, js, width, s) == WeightedSkill(a, js, width, s) + WeightedSkill(b, js, width, s)
  {
    assert AllKnown(a, js) && AllKnown(b, js) by {
      forall i | 0 <= i < |a| ensures a[i].jobId in js { assert a[i] == (a + b)[i]; }
      forall i | 0 <= i < |b| ensures b[i].jobId in js { assert b[i] == (a + b)[|a| + i]; }
    }
    if a == [] {
      assert a + b == b;
    } else {
      assert (a + b)[1..] == a[1..] + b;
      WeightedSkillAppendOneWay(a[1..], b, js, width, s);
    }
  }

  /** Practicing the same job twice adds its weighted row twice. */
  lemma RepeatedJobCountsTwice(ws: seq<ExperienceWeight>, w: ExperienceWeight,
                               js: map<int, seq<real>>, width: nat, s: nat)
    requires JobsSkillsTable(js, width) && AllKnown(ws, js) && w.jobId in js && s < width
    ensures AllKnown(ws + [w, w], js)
    ensures WeightedSkill(ws + [w, w], js, width, s)
         == WeightedSkill(ws, js, width, s) + 2.0 * w.weight * js[w.jobId][s]
  {
    WeightedSkillAppend(ws, [w, w], js, width, s);
    assert [w, w][1..] == [w];
    assert [w][1..] == [];
  }

  /** Index of the first maximal entry (`Series.idxmax`) among ws[..n]. */
  function ArgMaxPrefix(ws: seq<real>, n: nat): (k: nat)
    requires 1 <= n <= |ws|
    ensures k < n
    ensures forall i :: 0 <= i < n ==> ws[i] <= ws[k]
    ensures forall i :: 0 <= i < k ==> ws[i] < ws[k]
  {
    if n == 1 then 0
    else
      var k := ArgMaxPrefix(ws, n - 1);
      if ws[n - 1] > ws[k] then n - 1 else k
  }

  function Weights(ws: seq<ExperienceWeight>): (r: seq<real>)
    ensures |r| == |ws| && forall i :: 0 <= i < |ws| ==> r[i] == ws[i].weight
  {
    seq(|ws|, i requires 0 <= i < |ws| => ws[i].weight)
  }

  /** The highest level among the practiced jobs. */
  function MaxLevel(ws: seq<ExperienceWeight>, jobs: map<int, JobInfo>): (l: int)
    requires ws != [] && forall i :: 0 <= i < |ws| ==> ws[i].jobId in jobs
    ensures forall i :: 0 <= i < |ws| ==> jobs[ws[i].jobId].level <= l
    ensures exists i :: 0 <= i < |ws| && jobs[ws[i].jobId].level == l
  {
    if |ws| == 1 then jobs[ws[0].jobId].level
    else
      var rest := MaxLevel(ws[1..], jobs);
      assert forall i :: 1 <= i < |ws| ==> ws[i] == ws[1..][i - 1];
      var here := jobs[ws[0].jobId].level;
      if here >= rest then here
      else
        var i :| 0 <= i < |ws[1..]| && jobs[ws[1..][i].jobId].level == rest;
        assert ws[i + 1] == ws[1..][i];
        rest
  }

  /** Everything `model` computes once the experiences are weighed: the
      skill weights, the main job and sector and the level. */
  function AssembleModel(ws: seq<ExperienceWeight>, jobs: map<int, JobInfo>,
                         js: map<int, seq<real>>, width: nat): (r: Result<Model, ModelError>)
    requires JobsSkillsTable(js, width)
    ensures r.Ok? <==> (|ws| > 0 && AllKnown(ws, js) && forall i :: 0 <= i < |ws| ==> ws[i].jobId in jobs)
    ensures r == Err(NoExperience) <==> |ws| == 0
    ensures r.Err? ==> !r.error.Weighing?
    ensures r.Ok? ==>
      var m := r.value;
      && m.experiences == ws
      && |m.skills| == width
      && (forall s :: 0 <= s < width ==> m.skills[s] == WeightedSkill(ws, js, width, s))
      && (exists k :: 0 <= k < |ws| && m.mainJob == ws[k].jobId
            && (forall i :: 0 <= i < |ws| ==> ws[i].weight <= ws[k].weight)
            && (forall i :: 0 <= i < k ==> ws[i].weight < ws[k].weight))
      && m.mainJob in jobs && m.mainSector == jobs[m.mainJob].sector
      && (forall i :: 0 <= i < |ws| ==> jobs[ws[i].jobId].level <= m.level)
      && (exists i :: 0 <= i < |ws| && jobs[ws[i].jobId].level == m.level)
  {
    match IndivSkills(ws, js, width)
    case Err(e) => Err(e)
    case Ok(skills) =>
      if |ws| == 0 then Err(NoExperience)
      else
        var k := ArgMaxPrefix(Weights(ws), |ws|);
        var mainJob := ws[k].jobId;
        if mainJob !in jobs then Err(UnknownJob)
        else if exists i :: 0 <= i < |ws| && ws[i].jobId !in jobs then Err(UnknownJob)
        else Ok(Model(ws, skills, mainJob, jobs[mainJob].sector, MaxLevel(ws, jobs)))
  }

  /** The weighed rows of an experience table none of whose rows fails. */
  function WeighedRows(exps: seq<IndividualExperience>, today: Date): (r: seq<ExperienceWeight>)
    requires ValidDate(today)
    requires forall i :: 0 <= i < |exps| ==>
      ValidDate(exps[i].begin) && ValidDate(exps[i].end) && WeighExperience(exps[i], today).Ok?
    ensures |r| == |exps| && forall i :: 0 <= i < |exps| ==> r[i].jobId == exps[i].jobId
  {
    seq(|exps|, i requires 0 <= i < |exps| => WeighExperience(exps[i], today).value)
  }

  /** `model`: weigh every experience in a loop, then assemble. A weighing
      failure aborts first; otherwise the result is that of AssembleModel on
      the weighed rows. */
  method BuildModel(exps: seq<IndividualExperience>, today: Date, jobs: map<int, JobInfo>,
                    js: map<int, seq<real>>, width: nat) returns (r: Result<Model, ModelError>)
    requires ValidDate(today) && JobsSkillsTable(js, width)
    requires forall i :: 0 <= i < |exps| ==> ValidDate(exps[i].begin) && ValidDate(exps[i].end)
    ensures (r.Err? && r.error.Weighing?) <==> exists i :: 0 <= i < |exps| && WeighExperience(exps[i], today).Err?
    ensures (forall i :: 0 <= i < |exps| ==> WeighExperience(exps[i], today).Ok?) ==>
      r == AssembleModel(WeighedRows(exps, today), jobs, js, width)
  {
    var weighed := WeighExperiences(exps, today);
    WeighAllFacts(exps, today);
    if weighed.Err? {
      return Err(Weighing(weighed.error));
    }
    assert weighed.value == WeighedRows(exps, today);
    r := AssembleModel(weighed.value, jobs, js, width);
  }
}
