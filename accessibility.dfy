/** Post-processing of the continuous engine: the skill co-occurrence matrix,
    the zeroed diagonal used for skill accessibility, and the ranking of jobs
    by accessibility with its optional level weighting and filters. The
    cosine scores themselves (square roots of sums of squares) are inputs. */
module Accessibility {
  import opened Util
  import opened Matrix
  import opened Ranking
  import opened ExperienceWeighting
  import opened IndividualModel

  /** jobs_skillsᵀ · jobs_skills: entry (i, j) sums, over jobs, the product
      of the job's entries for skills i and j. */
  function SkillCooccurrence(js: Mat, width: nat): (c: Mat)
    requires IsMatrix(js, width)
    ensures |c| == width && IsMatrix(c, width)
    ensures forall i, j :: 0 <= i < width && 0 <= j < width ==> c[i][j] == ColDot(js, i, j) && c[i][j] == c[j][i]
    ensures Binary(js) ==> forall i, j :: 0 <= i < width && 0 <= j < width ==> c[i][j] == CountBoth(js, i, j)
  {
    GramSymmetric(js, width);
    assert Binary(js) ==> forall i, j :: 0 <= i < width && 0 <= j < width ==> Gram(js, width)[i][j] == CountBoth(js, i, j) by {
      if Binary(js) {
        GramCounts(js, width);
      }
    }
    Gram(js, width)
  }

  /** `skill_cooc * mask` where the mask is all ones except for the diagonal
      cells, set to zero one at a time. */
  method MaskDiagonal(cooc: Mat, n: nat) returns (r: Mat)
    requires |cooc| == n && IsMatrix(cooc, n)
    ensures |r| == n && IsMatrix(r, n)
    ensures forall i, j :: 0 <= i < n && 0 <= j < n ==> r[i][j] == if i == j then 0 else cooc[i][j]
  {
    var mask := new int[n, n]((i, j) => 1);
    var d := 0;
    while d < n
      invariant 0 <= d <= n
      invariant forall i, j :: 0 <= i < n && 0 <= j < n ==> mask[i, j] == if i == j && i < d then 0 else 1
    {
      mask[d, d] := 0;
      d := d + 1;
    }
    r := seq(n, i requires 0 <= i < n reads mask =>
           seq(n, j requires 0 <= j < n reads mask => cooc[i][j] * mask[i, j]));
  }

  datatype AccessError =
    | JobNotInTable         // a ranked job has no row in the jobs table
    | UnrankedPracticedJob  // `drop` of a practiced job that is not ranked

  datatype Options = Options(sameSectorFirst: bool, hidePracticedJobs: bool, weighByLevelDiff: bool,
                             showLevelMin: int, showLevelMax: int)

  /** 1 − (job level − individual level)/8, capped at 1 and not floored. */
  function LevelFactor(jobLevel: int, indivLevel: int): (f: real)
    ensures f <= 1.0
    ensures f == 1.0 <==> jobLevel <= indivLevel
    ensures jobLevel >= indivLevel ==> f == 1.0 - (jobLevel - indivLevel) as real / 8.0
  {
    var raw := 1.0 - (jobLevel - indivLevel) as real / 8.0;
    if raw > 1.0 then 1.0 else raw
  }

  /** The factor goes below zero for jobs more than 8 levels above the individual. */
  lemma LevelFactorNotFloored(indivLevel: int)
    ensures LevelFactor(indivLevel + 16, indivLevel) == -1.0
  {
  }

  predicate KnownJobs(s: seq<Scored<int>>, jobs: map<int, JobInfo>)
  {
    forall k :: 0 <= k < |s| ==> s[k].key in jobs
  }

  /** Each score multiplied by its job's level factor; positions unchanged. */
  function ApplyLevelFactor(s: seq<Scored<int>>, jobs: map<int, JobInfo>, indivLevel: int): (r: seq<Scored<int>>)
    requires KnownJobs(s, jobs)
    ensures |r| == |s| && Keys(r) == Keys(s)
    ensures forall k :: 0 <= k < |s| ==> r[k].score == s[k].score * LevelFactor(jobs[s[k].key].level, indivLevel)
  {
    seq(|s|, k requires 0 <= k < |s| =>
      Scored(s[k].key, s[k].score * LevelFactor(jobs[s[k].key].level, indivLevel)))
  }

  /** The weighted scores are not re-sorted: a ranked pair can come out of order. */
  lemma LevelFactorNotResorted()
    ensures var jobs := map[1 := JobInfo(16, 0), 2 := JobInfo(0, 0)];
      var s := [Scored(1, 0.5), Scored(2, 0.4)];
      SortedDesc(s) && !SortedDesc(ApplyLevelFactor(s, jobs, 0))
  {
    var jobs := map[1 := JobInfo(16, 0), 2 := JobInfo(0, 0)];
    var s := [Scored(1, 0.5), Scored(2, 0.4)];
    var r := ApplyLevelFactor(s, jobs, 0);
    assert r[0].score == -0.5 && r[1].score == 0.4;
  }

  function PracticedJobs(m: Model): (r: seq<int>)
    ensures |r| == |m.experiences| && forall i :: 0 <= i < |r| ==> r[i] == m.experiences[i].jobId
  {
    seq(|m.experiences|, i requires 0 <= i < |m.experiences| => m.experiences[i].jobId)
  }

  function IsSameSector(jobs: map<int, JobInfo>, sector: int): int -> bool
  {
    k => k in jobs && jobs[k].sector == sector
  }

  function NotSameSector(jobs: map<int, JobInfo>, sector: int): int -> bool
  {
    k => !(k in jobs && jobs[k].sector == sector)
  }

  function InLevelWindow(jobs: map<int, JobInfo>, lo: int, hi: int): int -> bool
  {
    k => k in jobs && lo <= jobs[k].level <= hi
  }

  function NotPracticed(practiced: seq<int>): int -> bool
  {
    k => k !in practiced
  }

  /** Same-sector jobs first, then the others, each group in descending order. */
  function SameSectorFirst(s: seq<Scored<int>>, jobs: map<int, JobInfo>, sector: int): seq<Scored<int>>
  {
    SortDesc(Select(s, IsSameSector(jobs, sector))) + SortDesc(Select(s, NotSameSector(jobs, sector)))
  }

  /** A prefix of entries whose label passes `first`, then entries whose
      label passes `rest`, each part in descending order. */
  predicate Grouped(r: seq<Scored<int>>, first: int -> bool, rest: int -> bool)
  {
    exists n :: 0 <= n <= |r|
      && (forall k :: 0 <= k < n ==> first(r[k].key))
      && (forall k :: n <= k < |r| ==> rest(r[k].key))
      && SortedDesc(r[..n]) && SortedDesc(r[n..])
  }

  /** Same-sector jobs form a prefix, the others the rest, each part ranked. */
  lemma SameSectorFirstGroups(s: seq<Scored<int>>, jobs: map<int, JobInfo>, sector: int)
    ensures Grouped(SameSectorFirst(s, jobs, sector), IsSameSector(jobs, sector), NotSameSector(jobs, sector))
  {
    RankedGroup(s, IsSameSector(jobs, sector));
    RankedGroup(s, NotSameSector(jobs, sector));
    var same, other := SortDesc(Select(s, IsSameSector(jobs, sector))), SortDesc(Select(s, NotSameSector(jobs, sector)));
    GroupedConcat(same, other, IsSameSector(jobs, sector), NotSameSector(jobs, sector));
  }

  lemma GroupedConcat(a: seq<Scored<int>>, b: seq<Scored<int>>, first: int -> bool, rest: int -> bool)
    requires SortedDesc(a) && SortedDesc(b)
    requires forall k :: 0 <= k < |a| ==> first(a[k].key)
    requires forall k :: 0 <= k < |b| ==> rest(b[k].key)
    ensures Grouped(a + b, first, rest)
  {
    var r := a + b;
    var n := |a|;
    assert r[..n] == a && r[n..] == b;
    assert forall k :: n <= k < |r| ==> r[k] == b[k - n];
  }

  /** Grouping by sector only reorders the entries. */
  lemma SameSectorFirstPermutation(s: seq<Scored<int>>, jobs: map<int, JobInfo>, sector: int)
    ensures multiset(SameSectorFirst(s, jobs, sector)) == multiset(s)
  {
    var a, b := multiset(SameSectorFirst(s, jobs, sector)), multiset(s);
    forall e ensures a[e] == b[e] {
      SelectMultiset(s, IsSameSector(jobs, sector), e);
      SelectMultiset(s, NotSameSector(jobs, sector), e);
    }
    MultisetExt(a, b);
  }

  lemma RankedGroup(s: seq<Scored<int>>, keep: int -> bool)
    ensures forall k :: 0 <= k < |SortDesc(Select(s, keep))| ==> keep(SortDesc(Select(s, keep))[k].key)
  {
    var g := SortDesc(Select(s, keep));
    forall k | 0 <= k < |g| ensures keep(g[k].key) {
      assert g[k] in multiset(Select(s, keep));
    }
  }

  /** `job_accessibility` ordering: sort, optionally weigh by level
      difference, optionally drop the practiced jobs, keep the level window,
      optionally put the main sector first. */
  function JobAccessibilityOrder(access: seq<Scored<int>>, jobs: map<int, JobInfo>, m: Model, opts: Options)
    : Result<seq<Scored<int>>, AccessError>
  {
    var sorted := SortDesc(access);
    if opts.weighByLevelDiff && !KnownJobs(sorted, jobs) then Err(JobNotInTable)
    else
      var weighed := if opts.weighByLevelDiff then ApplyLevelFactor(sorted, jobs, m.level) else sorted;
      var practiced := PracticedJobs(m);
      if opts.hidePracticedJobs && exists i :: 0 <= i < |practiced| && practiced[i] !in Keys(weighed) then
        Err(UnrankedPracticedJob)
      else
        var shown := if opts.hidePracticedJobs then Select(weighed, NotPracticed(practiced)) else weighed;
        if !KnownJobs(shown, jobs) then Err(JobNotInTable)
        else
          var windowed := Select(shown, InLevelWindow(jobs, opts.showLevelMin, opts.showLevelMax));
          Ok(if opts.sameSectorFirst then SameSectorFirst(windowed, jobs, m.mainSector) else windowed)
  }

  /** `lvl_diff_weight` computed for every ranked job, then capped at 1 in
      place, and multiplied into the scores. */
  method WeighByLevelDiff(jobAccess: seq<Scored<int>>, jobs: map<int, JobInfo>, indivLevel: int)
    returns (r: seq<Scored<int>>)
    requires KnownJobs(jobAccess, jobs)
    ensures r == ApplyLevelFactor(jobAccess, jobs, indivLevel)
  {
    var n := |jobAccess|;
    var lvlDiffWeight := new real[n](k requires 0 <= k < n =>
      1.0 - (jobs[jobAccess[k].key].level - indivLevel) as real / 8.0);
    var k := 0;
    while k < n
      invariant 0 <= k <= n
      invariant forall i :: 0 <= i < n ==> (lvlDiffWeight[i] ==
        if i < k then LevelFactor(jobs[jobAccess[i].key].level, indivLevel)
        else 1.0 - (jobs[jobAccess[i].key].level - indivLevel) as real / 8.0)
    {
      if lvlDiffWeight[k] > 1.0 {
        lvlDiffWeight[k] := 1.0;
      }
      k := k + 1;
    }
    r := seq(n, i requires 0 <= i < n reads lvlDiffWeight =>
      Scored(jobAccess[i].key, jobAccess[i].score * lvlDiffWeight[i]));
    assert forall i :: 0 <= i < n ==> r[i] == ApplyLevelFactor(jobAccess, jobs, indivLevel)[i];
  }

  /** The step-by-step computation: `job_access` is reassigned after each stage. */
  method JobAccessibility(access: seq<Scored<int>>, jobs: map<int, JobInfo>, m: Model, opts: Options)
    returns (r: Result<seq<Scored<int>>, AccessError>)
    ensures r == JobAccessibilityOrder(access, jobs, m, opts)
  {
    var jobAccess := SortDesc(access);
    if opts.weighByLevelDiff {
      if !KnownJobs(jobAccess, jobs) {
        return Err(JobNotInTable);
      }
      jobAccess := WeighByLevelDiff(jobAccess, jobs, m.level);
    }
    var practiced := PracticedJobs(m);
    if opts.hidePracticedJobs {
      if exists i :: 0 <= i < |practiced| && practiced[i] !in Keys(jobAccess) {
        return Err(UnrankedPracticedJob);
      }
      jobAccess := Select(jobAccess, NotPracticed(practiced));
    }
    if !KnownJobs(jobAccess, jobs) {
      return Err(JobNotInTable);
    }
    jobAccess := Select(jobAccess, InLevelWindow(jobs, opts.showLevelMin, opts.showLevelMax));
    if opts.sameSectorFirst {
      jobAccess := SameSectorFirst(jobAccess, jobs, m.mainSector);
    }
    return Ok(jobAccess);
  }

  /** Every ranked job was scored, is not a practiced job when those are
      hidden, and lies in the level window (bounds included). */
  lemma AccessibilityFilters(access: seq<Scored<int>>, jobs: map<int, JobInfo>, m: Model, opts: Options)
    requires JobAccessibilityOrder(access, jobs, m, opts).Ok?
    ensures var r := JobAccessibilityOrder(access, jobs, m, opts).value;
      forall k :: 0 <= k < |r| ==>
        && r[k].key in Keys(access)
        && r[k].key in jobs && opts.showLevelMin <= jobs[r[k].key].level <= opts.showLevelMax
        && (opts.hidePracticedJobs ==> r[k].key !in PracticedJobs(m))
  {
    var r := JobAccessibilityOrder(access, jobs, m, opts).value;
    forall k | 0 <= k < |r|
      ensures r[k].key in Keys(access)
      ensures r[k].key in jobs && opts.showLevelMin <= jobs[r[k].key].level <= opts.showLevelMax
      ensures opts.hidePracticedJobs ==> r[k].key !in PracticedJobs(m)
    {
      AccessibleEntry(access, jobs, m, opts, r[k]);
    }
  }

  lemma AccessibleEntry(access: seq<Scored<int>>, jobs: map<int, JobInfo>, m: Model, opts: Options, e: Scored<int>)
    requires JobAccessibilityOrder(access, jobs, m, opts).Ok?
    requires e in JobAccessibilityOrder(access, jobs, m, opts).value
    ensures e.key in Keys(access)
    ensures e.key in jobs && opts.showLevelMin <= jobs[e.key].level <= opts.showLevelMax
    ensures opts.hidePracticedJobs ==> e.key !in PracticedJobs(m)
  {
    var sorted := SortDesc(access);
    var weighed := if opts.weighByLevelDiff then ApplyLevelFactor(sorted, jobs, m.level) else sorted;
    var practiced := PracticedJobs(m);
    var shown := if opts.hidePracticedJobs then Select(weighed, NotPracticed(practiced)) else weighed;
    var window := InLevelWindow(jobs, opts.showLevelMin, opts.showLevelMax);
    var windowed := Select(shown, window);
    if opts.sameSectorFirst {
      SameSectorFirstPermutation(windowed, jobs, m.mainSector);
      assert e in multiset(SameSectorFirst(windowed, jobs, m.mainSector));
    }
    assert e in windowed;
    SelectMember(shown, window, e);
    if opts.hidePracticedJobs {
      SelectMember(weighed, NotPracticed(practiced), e);
    }
    assert e in weighed;
    var i :| 0 <= i < |weighed| && weighed[i] == e;
    assert Keys(weighed)[i] == e.key;
    assert e.key in Keys(sorted);
    KeysOfPermutation(sorted, access, e.key);
  }

  /** Without level weighting the scores are untouched: the result holds
      exactly the scored entries that pass the filters, and without the
      sector grouping it is in descending order. */
  lemma AccessibilityUnweighed(access: seq<Scored<int>>, jobs: map<int, JobInfo>, m: Model, opts: Options)
    requires !opts.weighByLevelDiff
    requires JobAccessibilityOrder(access, jobs, m, opts).Ok?
    ensures var r := JobAccessibilityOrder(access, jobs, m, opts).value;
      forall e :: multiset(r)[e] ==
        if InLevelWindow(jobs, opts.showLevelMin, opts.showLevelMax)(e.key)
           && (opts.hidePracticedJobs ==> e.key !in PracticedJobs(m))
        then multiset(access)[e] else 0
    ensures !opts.sameSectorFirst ==> SortedDesc(JobAccessibilityOrder(access, jobs, m, opts).value)
  {
    var sorted := SortDesc(access);
    var practiced := PracticedJobs(m);
    var shown := if opts.hidePracticedJobs then Select(sorted, NotPracticed(practiced)) else sorted;
    var window := InLevelWindow(jobs, opts.showLevelMin, opts.showLevelMax);
    var windowed := Select(shown, window);
    var r := JobAccessibilityOrder(access, jobs, m, opts).value;
    forall e: Scored<int> ensures multiset(r)[e] ==
        if window(e.key) && (opts.hidePracticedJobs ==> e.key !in practiced) then multiset(access)[e] else 0
    {
      if opts.sameSectorFirst {
        SameSectorFirstPermutation(windowed, jobs, m.mainSector);
      }
      SelectMultiset(shown, window, e);
      if opts.hidePracticedJobs {
        SelectMultiset(sorted, NotPracticed(practiced), e);
      }
    }
    if !opts.sameSectorFirst {
      if opts.hidePracticedJobs {
        SelectKeepsOrder(sorted, NotPracticed(practiced));
      }
      SelectKeepsOrder(shown, window);
    }
  }

  /** The scores after the optional level weighting of the ranked input. */
  function Weighed(access: seq<Scored<int>>, jobs: map<int, JobInfo>, m: Model, opts: Options): seq<Scored<int>>
    requires opts.weighByLevelDiff ==> KnownJobs(SortDesc(access), jobs)
  {
    if opts.weighByLevelDiff then ApplyLevelFactor(SortDesc(access), jobs, m.level) else SortDesc(access)
  }

  /** The filters of the listing: the level window, and not practiced when
      practiced jobs are hidden. */
  function Passes(jobs: map<int, JobInfo>, m: Model, opts: Options): int -> bool
  {
    k => InLevelWindow(jobs, opts.showLevelMin, opts.showLevelMax)(k)
      && (opts.hidePracticedJobs ==> k !in PracticedJobs(m))
  }

  /** Weighted or not, the result holds exactly the weighed entries that
      pass the filters, each with its multiplicity; without the sector
      grouping they keep their weighed order, and with it they are the
      same-sector group followed by the others. */
  lemma AccessibilityContents(access: seq<Scored<int>>, jobs: map<int, JobInfo>, m: Model, opts: Options)
    requires JobAccessibilityOrder(access, jobs, m, opts).Ok?
    ensures opts.weighByLevelDiff ==> KnownJobs(SortDesc(access), jobs)
    ensures var r, w := JobAccessibilityOrder(access, jobs, m, opts).value, Weighed(access, jobs, m, opts);
      forall e :: (multiset(r)[e] == if Passes(jobs, m, opts)(e.key) then multiset(w)[e] else 0)
    ensures var r, w := JobAccessibilityOrder(access, jobs, m, opts).value, Weighed(access, jobs, m, opts);
      r == if opts.sameSectorFirst then SameSectorFirst(Select(w, Passes(jobs, m, opts)), jobs, m.mainSector)
           else Select(w, Passes(jobs, m, opts))
  {
    var w := Weighed(access, jobs, m, opts);
    var practiced := PracticedJobs(m);
    var window := InLevelWindow(jobs, opts.showLevelMin, opts.showLevelMax);
    var passes := Passes(jobs, m, opts);
    var shown := if opts.hidePracticedJobs then Select(w, NotPracticed(practiced)) else w;
    if opts.hidePracticedJobs {
      SelectThenSelect(w, NotPracticed(practiced), window, passes);
    } else {
      SelectSame(w, window, passes);
    }
    var selected := Select(w, passes);
    assert Select(shown, window) == selected;
    var r := JobAccessibilityOrder(access, jobs, m, opts).value;
    forall e: Scored<int> ensures multiset(r)[e] == if passes(e.key) then multiset(w)[e] else 0 {
      if opts.sameSectorFirst {
        SameSectorFirstPermutation(selected, jobs, m.mainSector);
      }
      SelectMultiset(w, passes, e);
    }
  }
}
