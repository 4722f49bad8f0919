/** The discrete recommendation engine: selected experiences give a skill
    co-occurrence graph, a pluggable centrality measure scores its skills, and
    each job is scored by the dot product of its skill row with those scores.

    Experiences, skills and jobs are identified by their position in the
    incidence matrices (the spreadsheet loader numbers them 0..n-1). A Python
    dict, which keeps insertion order, is a sequence of (key, value) pairs. */
module JobSkillGraph {
  import opened Util
  import opened Matrix
  import opened Ranking

  datatype Experience = Experience(id: int, name: string, expType: string)
  datatype Skill = Skill(id: int, name: string)
  datatype Job = Job(id: int, name: string)

  /** Builds the experience records of an id-keyed table: keys and order are
      kept and every record carries its own key as id. */
  function MkExperiences(d: seq<(int, (string, string))>): (r: seq<(int, Experience)>)
    ensures |r| == |d|
    ensures forall i :: 0 <= i < |d| ==>
      r[i].0 == d[i].0 && r[i].1.id == d[i].0 && r[i].1.name == d[i].1.0 && r[i].1.expType == d[i].1.1
  {
    seq(|d|, i requires 0 <= i < |d| => (d[i].0, Experience(d[i].0, d[i].1.0, d[i].1.1)))
  }

  function MkSkills(d: seq<(int, string)>): (r: seq<(int, Skill)>)
    ensures |r| == |d|
    ensures forall i :: 0 <= i < |d| ==> r[i].0 == d[i].0 && r[i].1.id == d[i].0 && r[i].1.name == d[i].1
  {
    seq(|d|, i requires 0 <= i < |d| => (d[i].0, Skill(d[i].0, d[i].1)))
  }

  function MkJobs(d: seq<(int, string)>): (r: seq<(int, Job)>)
    ensures |r| == |d|
    ensures forall i :: 0 <= i < |d| ==> r[i].0 == d[i].0 && r[i].1.id == d[i].0 && r[i].1.name == d[i].1
  {
    seq(|d|, i requires 0 <= i < |d| => (d[i].0, Job(d[i].0, d[i].1)))
  }

  /** Scans the job records in order and returns the id of the first one with
      the given name, or None when no record has it. */
  method JobIdByName(jobs: seq<(int, Job)>, name: string) returns (r: Option<int>)
    ensures r.None? <==> forall k :: 0 <= k < |jobs| ==> jobs[k].1.name != name
    ensures r.Some? ==> exists k :: 0 <= k < |jobs| && jobs[k].1.name == name && r.value == jobs[k].1.id
                                    && forall k' :: 0 <= k' < k ==> jobs[k'].1.name != name
  {
    var k := 0;
    while k < |jobs|
      invariant 0 <= k <= |jobs|
      invariant forall k' :: 0 <= k' < k ==> jobs[k'].1.name != name
    {
      if jobs[k].1.name == name {
        return Some(jobs[k].1.id);
      }
      k := k + 1;
    }
    return None;
  }

  /** An undirected weighted graph over skills: `weight[i][j]` is the weight of
      the edge between `nodes[i]` and `nodes[j]` (0 for no edge). */
  datatype Graph = Graph(nodes: seq<nat>, weight: Mat)

  datatype GraphError = UnknownExperience

  predicate KnownRows(es: Mat, experiences: seq<int>)
  {
    forall k :: 0 <= k < |experiences| ==> 0 <= experiences[k] < |es|
  }

  /** The rows of the selected experiences, repeats included (`df.loc[index, :]`). */
  function SelectedRows(es: Mat, experiences: seq<int>): (r: Mat)
    requires KnownRows(es, experiences)
    ensures |r| == |experiences|
    ensures forall k :: 0 <= k < |experiences| ==> r[k] == es[experiences[k]]
  {
    SelectRows(es, seq(|experiences|, k requires 0 <= k < |experiences| => experiences[k] as nat))
  }

  /** Columns c, from..width-1, of `m` whose sum is positive, in column order. */
  function PositiveColumns(m: Mat, width: nat, from: nat): (r: seq<nat>)
    requires IsMatrix(m, width)
    ensures forall i, j :: 0 <= i < j < |r| ==> r[i] < r[j]
    ensures forall i :: 0 <= i < |r| ==> from <= r[i] < width
    ensures forall c :: c in r <==> from <= c < width && ColSum(m, c) > 0
    decreases width - from
  {
    if from >= width then []
    else if ColSum(m, from) > 0 then [from] + PositiveColumns(m, width, from + 1)
    else PositiveColumns(m, width, from + 1)
  }

  /** The skill graph of the selected experiences: restrict the incidence
      matrix to the selected rows, drop the skills whose column sum is zero and
      take the Gram matrix of what remains as adjacency. */
  function SkillGraph(es: Mat, width: nat, experiences: seq<int>): (r: Result<Graph, GraphError>)
    requires IsMatrix(es, width)
    ensures r.Ok? <==> KnownRows(es, experiences)
    ensures r.Ok? ==>
      var sel := SelectedRows(es, experiences);
      var g := r.value;
      && (forall i, j :: 0 <= i < j < |g.nodes| ==> g.nodes[i] < g.nodes[j])
      && (forall s: nat :: s in g.nodes <==> s < width && ColSum(sel, s) > 0)
      && |g.weight| == |g.nodes| && IsMatrix(g.weight, |g.nodes|)
      && (forall i, j :: 0 <= i < |g.nodes| && 0 <= j < |g.nodes| ==>
            g.nodes[i] < width && g.nodes[j] < width &&
            g.weight[i][j] == ColDot(sel, g.nodes[i], g.nodes[j]))
  {
    if !KnownRows(es, experiences) then Err(UnknownExperience)
    else
      var sel := SelectedRows(es, experiences);
      assert IsMatrix(sel, width);
      var keep := PositiveColumns(sel, width, 0);
      var sub := SelectCols(sel, width, keep);
      var adjacency := Gram(sub, |keep|);
      assert forall i, j :: 0 <= i < |keep| && 0 <= j < |keep| ==>
        adjacency[i][j] == ColDot(sel, keep[i], keep[j]) by {
        forall i, j | 0 <= i < |keep| && 0 <= j < |keep|
          ensures adjacency[i][j] == ColDot(sel, keep[i], keep[j])
        {
          ColDotSelectCols(sel, width, keep, i, j);
        }
      }
      Ok(Graph(keep, adjacency))
  }

  lemma {:induction false} ColDotSelectCols(m: Mat, width: nat, cols: seq<nat>, i: nat, j: nat)
    requires IsMatrix(m, width)
    requires forall k :: 0 <= k < |cols| ==> cols[k] < width
    requires i < |cols| && j < |cols|
    ensures ColDot(SelectCols(m, width, cols), i, j) == ColDot(m, cols[i], cols[j])
  {
    if m != [] {
      assert SelectCols(m, width, cols)[1..] == SelectCols(m[1..], width, cols);
      ColDotSelectCols(m[1..], width, cols, i, j);
    }
  }

  /** Edge weights are symmetric. */
  lemma SkillGraphSymmetric(es: Mat, width: nat, experiences: seq<int>)
    requires IsMatrix(es, width)
    requires SkillGraph(es, width, experiences).Ok?
    ensures var g := SkillGraph(es, width, experiences).value;
      forall i, j :: 0 <= i < |g.nodes| && 0 <= j < |g.nodes| ==> g.weight[i][j] == g.weight[j][i]
  {
    var g := SkillGraph(es, width, experiences).value;
    var sel := SelectedRows(es, experiences);
    forall i, j | 0 <= i < |g.nodes| && 0 <= j < |g.nodes| ensures g.weight[i][j] == g.weight[j][i] {
      ColDotSymmetric(sel, g.nodes[i], g.nodes[j]);
    }
  }

  /** On 0/1 data the weight of edge (i, j) is the number of selected
      experiences exercising both skills; the self-loop weight is the number
      of selected experiences exercising the skill. */
  lemma SkillGraphCounts(es: Mat, width: nat, experiences: seq<int>)
    requires IsMatrix(es, width) && Binary(es)
    requires SkillGraph(es, width, experiences).Ok?
    ensures var g := SkillGraph(es, width, experiences).value;
      var sel := SelectedRows(es, experiences);
      forall i, j :: 0 <= i < |g.nodes| && 0 <= j < |g.nodes| ==>
        g.weight[i][j] == CountBoth(sel, g.nodes[i], g.nodes[j])
  {
    var g := SkillGraph(es, width, experiences).value;
    var sel := SelectedRows(es, experiences);
    assert Binary(sel);
    forall i, j | 0 <= i < |g.nodes| && 0 <= j < |g.nodes|
      ensures g.weight[i][j] == CountBoth(sel, g.nodes[i], g.nodes[j])
    {
      ColDotBinary(sel, g.nodes[i], g.nodes[j]);
    }
  }

  /** No selected experience gives the empty graph. */
  lemma SkillGraphEmptySelection(es: Mat, width: nat)
    requires IsMatrix(es, width)
    ensures SkillGraph(es, width, []) == Ok(Graph([], []))
  {
    PositiveColumnsOfNothing(width, 0);
  }

  lemma {:induction false} PositiveColumnsOfNothing(width: nat, from: nat)
    ensures PositiveColumns([], width, from) == []
    decreases width - from
  {
    if from < width {
      PositiveColumnsOfNothing(width, from + 1);
    }
  }

  /** Rows [1,0,1] and [1,0,0] selected out of three: skill 1 is dropped and
      the edges are (0,0) = 2, (0,2) = 1, (2,2) = 1. */
  lemma SkillGraphWorkedExample()
    ensures SkillGraph([[1, 0, 1], [1, 0, 0], [1, 1, 1]], 3, [0, 1])
         == Ok(Graph([0, 2], [[2, 1], [1, 1]]))
  {
    var es: Mat := [[1, 0, 1], [1, 0, 0], [1, 1, 1]];
    var sel: Mat := [[1, 0, 1], [1, 0, 0]];
    assert SelectedRows(es, [0, 1]) == sel;
    ExamplePositiveColumns(sel);
    var sub := SelectCols(sel, 3, [0, 2]);
    assert |sub| == 2 && |sub[0]| == 2 && |sub[1]| == 2;
    assert sub[0] == [1, 1] && sub[1] == [1, 0];
    assert sub == [[1, 1], [1, 0]];
    ExampleGram(sub);
  }

  lemma ColSumTwoRows(r0: seq<int>, r1: seq<int>, c: nat)
    requires c < |r0| && c < |r1|
    ensures ColSum([r0, r1], c) == r0[c] + r1[c]
  {
    assert [r0, r1][1..] == [r1];
    assert [r1][1..] == [];
    assert ColSum([r1], c) == r1[c] + ColSum([], c);
    assert ColSum([r0, r1], c) == r0[c] + ColSum([r1], c);
  }

  lemma ColDotTwoRows(r0: seq<int>, r1: seq<int>, a: nat, b: nat)
    requires a < |r0| && a < |r1| && b < |r0| && b < |r1|
    ensures ColDot([r0, r1], a, b) == r0[a] * r0[b] + r1[a] * r1[b]
  {
    assert [r0, r1][1..] == [r1];
    assert [r1][1..] == [];
    assert ColDot([r1], a, b) == r1[a] * r1[b] + ColDot([], a, b);
    assert ColDot([r0, r1], a, b) == r0[a] * r0[b] + ColDot([r1], a, b);
  }

  lemma ExamplePositiveColumns(sel: Mat)
    requires sel == [[1, 0, 1], [1, 0, 0]]
    ensures PositiveColumns(sel, 3, 0) == [0, 2]
  {
    ColSumTwoRows([1, 0, 1], [1, 0, 0], 0);
    ColSumTwoRows([1, 0, 1], [1, 0, 0], 1);
    ColSumTwoRows([1, 0, 1], [1, 0, 0], 2);
    assert PositiveColumns(sel, 3, 3) == [];
    assert PositiveColumns(sel, 3, 2) == [2];
    assert PositiveColumns(sel, 3, 1) == [2];
  }

  lemma ExampleGram(sub: Mat)
    requires sub == [[1, 1], [1, 0]]
    ensures Gram(sub, 2) == [[2, 1], [1, 1]]
  {
    ColDotTwoRows([1, 1], [1, 0], 0, 0);
    ColDotTwoRows([1, 1], [1, 0], 0, 1);
    ColDotTwoRows([1, 1], [1, 0], 1, 0);
    ColDotTwoRows([1, 1], [1, 0], 1, 1);
    var g := Gram(sub, 2);
    assert g[0] == [2, 1] && g[1] == [1, 1];
  }

  /** The centrality measure is a caller-supplied strategy (a networkx
      function); its mapping is taken over unchanged, zero scores included. */
  function SkillScores(g: Graph, measure: Graph -> map<nat, real>): (r: map<nat, real>)
    ensures r.Keys == measure(g).Keys
    ensures forall s :: s in r ==> r[s] == measure(g)[s]
  {
    measure(g)
  }

  /** Score of skill column `c`; a skill missing from the mapping counts as 0
      (pandas aligns the columns and the sum skips the missing values). */
  function ScoreOf(scores: map<nat, real>, c: nat): real
  {
    if c in scores then scores[c] else 0.0
  }

  /** Dot product of a job's skill row (columns from `c` on) with the skill scores. */
  function JobScore(row: seq<int>, scores: map<nat, real>, c: nat): real
  {
    if row == [] then 0.0 else row[0] as real * ScoreOf(scores, c) + JobScore(row[1..], scores, c + 1)
  }

  function AllJobScores(js: Mat, scores: map<nat, real>): (r: seq<Scored<nat>>)
    ensures |r| == |js|
    ensures forall j :: 0 <= j < |js| ==> r[j] == Scored(j, JobScore(js[j], scores, 0))
  {
    seq(|js|, j requires 0 <= j < |js| => Scored(j as nat, JobScore(js[j], scores, 0)))
  }

  /** Jobs ranked by descending score, keeping those scoring above zero. */
  function JobsFromSkills(js: Mat, scores: map<nat, real>): (r: seq<Scored<nat>>)
    ensures SortedDesc(r)
    ensures forall k :: 0 <= k < |r| ==> r[k].score > 0.0
  {
    var all := AllJobScores(js, scores);
    KeepPositiveKeepsOrder(SortDesc(all));
    KeepPositive(SortDesc(all))
  }

  /** The ranking holds exactly the jobs whose score is positive, each with its score. */
  lemma JobsFromSkillsMembers(js: Mat, scores: map<nat, real>, e: Scored<nat>)
    ensures e in JobsFromSkills(js, scores) <==>
      e.key < |js| && e.score == JobScore(js[e.key], scores, 0) && e.score > 0.0
  {
    var all := AllJobScores(js, scores);
    var r := JobsFromSkills(js, scores);
    KeepPositiveMultiset(SortDesc(all), e);
    assert e in r <==> multiset(r)[e] > 0;
    assert e in all <==> multiset(all)[e] > 0;
    if e.key < |js| && e.score == JobScore(js[e.key], scores, 0) {
      assert all[e.key] == e;
    }
  }

  /** No job is ranked twice. */
  lemma JobsFromSkillsKeysDistinct(js: Mat, scores: map<nat, real>)
    ensures var r := JobsFromSkills(js, scores);
      forall i, j :: 0 <= i < j < |r| ==> r[i].key != r[j].key
  {
    var r := JobsFromSkills(js, scores);
    forall i, j | 0 <= i < j < |r| ensures r[i].key != r[j].key {
      JobsFromSkillsPairDistinct(js, scores, i, j);
    }
  }

  lemma JobsFromSkillsPairDistinct(js: Mat, scores: map<nat, real>, i: nat, j: nat)
    requires i < j < |JobsFromSkills(js, scores)|
    ensures JobsFromSkills(js, scores)[i].key != JobsFromSkills(js, scores)[j].key
  {
    var all := AllJobScores(js, scores);
    var r := JobsFromSkills(js, scores);
    JobsFromSkillsMembers(js, scores, r[i]);
    JobsFromSkillsMembers(js, scores, r[j]);
    if r[i].key == r[j].key {
      KeepPositiveMultiset(SortDesc(all), r[i]);
      AllJobScoresOnce(js, scores, r[i]);
      TwiceInMultiset(r, i, j);
    }
  }

  lemma TwiceInMultiset<T>(s: seq<T>, i: nat, j: nat)
    requires i < j < |s| && s[i] == s[j]
    ensures multiset(s)[s[i]] >= 2
  {
    assert s == s[..i] + [s[i]] + s[i + 1..j] + [s[j]] + s[j + 1..];
  }

  lemma AllJobScoresOnce(js: Mat, scores: map<nat, real>, e: Scored<nat>)
    ensures multiset(AllJobScores(js, scores))[e] <= 1
  {
    var all := AllJobScores(js, scores);
    CountIsMultiplicity(all, e);
    NoDuplicatesIffCountsAtMostOne(all);
  }

  lemma {:induction false} CountIsMultiplicity<T>(s: seq<T>, x: T)
    ensures multiset(s)[x] == Count(s, x)
  {
    if s != [] {
      assert s == [s[0]] + s[1..];
      CountIsMultiplicity(s[1..], x);
    }
  }

  /** A column that has no score contributes nothing: changing the job's
      entry there leaves the job score unchanged. */
  lemma {:induction false} JobScoreIgnoresUnscored(row: seq<int>, scores: map<nat, real>, c: nat, k: nat, v: int)
    requires c <= k < c + |row| && k !in scores
    ensures JobScore(row[k - c := v], scores, c) == JobScore(row, scores, c)
  {
    if k > c {
      assert row[k - c := v][1..] == row[1..][k - (c + 1) := v];
      JobScoreIgnoresUnscored(row[1..], scores, c + 1, k, v);
    }
  }

  /** When every skill of a set scores 1 and no other skill is scored, a
      0/1 job row scores the number of those skills it marks: the count-based
      engine is this engine with a constant centrality. */
  lemma {:induction false} JobScoreCountsMarkedSkills(row: seq<int>, selected: set<nat>, c: nat)
    requires forall i :: 0 <= i < |row| ==> row[i] == 0 || row[i] == 1
    ensures JobScore(row, map s | s in selected :: 1.0, c)
         == MarkedCount(row, selected, c) as real
  {
    if row != [] {
      JobScoreCountsMarkedSkills(row[1..], selected, c + 1);
    }
  }

  /** Number of columns from `c` on that are in `selected` and marked 1 in the row. */
  function MarkedCount(row: seq<int>, selected: set<nat>, c: nat): nat
  {
    if row == [] then 0
    else (if c in selected && row[0] == 1 then 1 else 0) + MarkedCount(row[1..], selected, c + 1)
  }

  /** The graph-based recommendation: skill graph, centrality, job scores. */
  function JobRecommendation(es: Mat, width: nat, js: Mat, experiences: seq<int>,
                             measure: Graph -> map<nat, real>): (r: Result<seq<Scored<nat>>, GraphError>)
    requires IsMatrix(es, width)
    ensures r.Ok? <==> KnownRows(es, experiences)
    ensures r.Ok? ==> SortedDesc(r.value) && forall k :: 0 <= k < |r.value| ==> r.value[k].score > 0.0
  {
    match SkillGraph(es, width, experiences)
    case Err(e) => Err(e)
    case Ok(g) => Ok(JobsFromSkills(js, SkillScores(g, measure)))
  }

  /** With no experience selected, and a measure that scores no skill of an
      empty graph, nothing is recommended. */
  lemma EmptySelectionRecommendsNothing(es: Mat, width: nat, js: Mat, measure: Graph -> map<nat, real>)
    requires IsMatrix(es, width)
    requires measure(Graph([], [])) == map[]
    ensures JobRecommendation(es, width, js, [], measure) == Ok([])
  {
    SkillGraphEmptySelection(es, width);
    var r := JobsFromSkills(js, map[]);
    if r != [] {
      JobsFromSkillsMembers(js, map[], r[0]);
      JobScoreUnscoredIsZero(js[r[0].key], 0);
    }
  }

  lemma {:induction false} JobScoreUnscoredIsZero(row: seq<int>, c: nat)
    ensures JobScore(row, map[], c) == 0.0
  {
    if row != [] {
      JobScoreUnscoredIsZero(row[1..], c + 1);
    }
  }

  // ----- Layout of the graph's connected components on a grid -----

  /** ⌊√k⌋, the integer part of the square root. */
  function ISqrt(k: nat): (n: nat)
    ensures n * n <= k < (n + 1) * (n + 1)
  {
    ISqrtFrom(k, 0)
  }

  function ISqrtFrom(k: nat, n: nat): (r: nat)
    requires n * n <= k
    ensures r * r <= k < (r + 1) * (r + 1)
    decreases k - n * n
  {
    if (n + 1) * (n + 1) > k then n else ISqrtFrom(k, n + 1)
  }

  lemma ISqrtUnique(k: nat, n: nat)
    requires n * n <= k < (n + 1) * (n + 1)
    ensures ISqrt(k) == n
  {
  }

  lemma MulMono(a: nat, b: nat)
    requires a <= b
    ensures a * a <= b * b
  {
    assert a * a <= a * b <= b * b;
  }

  /** Rows and columns of the grid for `k` components (n = ⌊√k⌋): n×n when k
      is a square, n×(n+1) when that is strictly more than k, else (n+1)×(n+1). */
  function GridSize(k: nat): (r: (nat, nat))
    ensures r.0 * r.1 >= k
    ensures r.1 == r.0 || r.1 == r.0 + 1
    ensures r.0 == ISqrt(k) || r.0 == ISqrt(k) + 1
  {
    var n := ISqrt(k);
    if n * n == k then (n, n)
    else if n * (n + 1) > k then (n, n + 1)
    else (n + 1, n + 1)
  }

  /** The grid is not always the smallest: when k = n(n+1) exactly, the strict
      test picks (n+1)×(n+1) although n×(n+1) cells are enough (k = 2 gives 2×2). */
  lemma GridSizeNotMinimal(n: nat)
    requires n >= 1
    ensures GridSize(n * (n + 1)) == (n + 1, n + 1)
    ensures n * (n + 1) < (n + 1) * (n + 1)
  {
    var k := n * (n + 1);
    assert n * n <= k < (n + 1) * (n + 1);
    ISqrtUnique(k, n);
    assert n * n != k;
  }

  lemma {:induction false} MulAtLeast(d: int, n: nat)
    requires d >= 1
    ensures d * n >= n
    decreases d
  {
    if d > 1 {
      MulAtLeast(d - 1, n);
      assert d * n == (d - 1) * n + n;
    }
  }

  /** Position `q * n + x` of a row-major walk is column x of row q. */
  lemma RowMajorPosition(q: nat, n: nat, x: nat)
    requires x < n
    ensures (q * n + x) % n == x && (q * n + x) / n == q
  {
    var i := q * n + x;
    var q', x' := i / n, i % n;
    assert q' * n + x' == i;
    assert (q - q') * n == x' - x;
    if q' < q {
      MulAtLeast(q - q', n);
    } else if q' > q {
      assert (q' - q) * n == x - x';
      MulAtLeast(q' - q, n);
    }
  }

  /** Grid centers in row-major order: center i is (i mod nCol, i div nCol). */
  function Centers(nRow: nat, nCol: nat): (r: seq<(int, int)>)
    ensures |r| == nRow * nCol
    ensures forall i :: 0 <= i < |r| ==> r[i] == (i % nCol, i / nCol)
    ensures forall i :: 0 <= i < |r| ==> 0 <= r[i].0 < nCol && 0 <= r[i].1 < nRow
    ensures forall i, j :: 0 <= i < j < |r| ==> r[i] != r[j]
  {
    if nRow == 0 then []
    else
      var prev := Centers(nRow - 1, nCol);
      var row := seq(nCol, x requires 0 <= x < nCol => (x, nRow - 1));
      assert (nRow - 1) * nCol + nCol == nRow * nCol;
      var r := prev + row;
      assert forall i :: |prev| <= i < |r| ==> r[i] == (i % nCol, i / nCol) by {
        forall i | |prev| <= i < |r| ensures r[i] == (i % nCol, i / nCol) {
          RowMajorPosition(nRow - 1, nCol, i - |prev|);
        }
      }
      r
  }

  /** Every component gets a center of its own (the `zip` of centers and
      components drops no component). */
  lemma ComponentCentersDistinct(k: nat)
    ensures var g := GridSize(k); var c := Centers(g.0, g.1);
      k <= |c| && forall i, j :: 0 <= i < j < k ==> c[i] != c[j]
  {
  }

  /** `merged.update(l)` for every layout in turn: a key's position is the
      one given by the last layout that has the key. */
  method MergeLayouts(layouts: seq<map<nat, (real, real)>>) returns (merged: map<nat, (real, real)>)
    ensures forall s :: s in merged <==> exists i :: 0 <= i < |layouts| && s in layouts[i]
    ensures forall s, i :: (0 <= i < |layouts| && s in layouts[i] &&
              (forall j :: i < j < |layouts| ==> s !in layouts[j])) ==> s in merged && merged[s] == layouts[i][s]
  {
    merged := map[];
    var n := 0;
    while n < |layouts|
      invariant 0 <= n <= |layouts|
      invariant forall s :: s in merged <==> exists i :: 0 <= i < n && s in layouts[i]
      invariant forall s, i :: (0 <= i < n && s in layouts[i] &&
                  (forall j :: i < j < n ==> s !in layouts[j])) ==> s in merged && merged[s] == layouts[i][s]
    {
      merged := merged + layouts[n];
      n := n + 1;
    }
  }
}
