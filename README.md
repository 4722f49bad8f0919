# Diagoriente OPLC — a verified model of the recommendation core

Diagoriente OPLC recommends jobs ("métiers") from what a person has done.
The project models its logic in Dafny:

- **The discrete engine.** It has two versions.
  - The count-based backend version turns the selected experiences into a set of skills, then ranks jobs by how many of those skills they require.
  - The graph version builds a skill co-occurrence graph from the selected experiences. It scores skills by a centrality measure and ranks jobs by the dot product of their skill row with those scores.
  - Both keep only the jobs that score above zero, in descending score order. The graph version also sizes a grid to lay out the graph's components.
- **The continuous engine.** It does the following:
  - weighs each job experience by duration and recency, splitting the experience into calendar-year segments;
  - aggregates the weighted job-skill rows into the individual's skill weights, main job, main sector and level;
  - post-processes the job accessibility scores (level-difference factor, practiced-job removal, level window, same-sector-first ordering);
  - builds the skill co-occurrence matrix and masks its diagonal.
- **Data validation and assembly.**
  - The three `check_data` copies, which reject data sets with repeated labels.
  - Data-source dispatch, with the export URL and cache-path formats.
  - Id enumeration and column renaming for the spreadsheet sheets.
  - Assembly of the job, skill and sector tables and of the 0/1 jobs×skills matrix from graph-database records.
- **The frontend.**
  - Classification of request parameters into query and body parameters, and the choice of request body.
  - The network and HTTP error wrappers.
  - The state machines of the experience and competence selectors, with their name filters.
  - The three-way comparators on names and scores.

Tables are sequences of rows. Integer matrices are `seq<seq<int>>`.
Scores, weights and proportions are exact `real`s. Python dictionaries
keyed by record ids become maps, or an insertion-ordered `Dict` where
iteration order matters.

Classes model the frontend state that the source updates in place:
`ExperienceSelection.ExperienceSelector`, `CompetenceSelection.CompetenceSelector`
and `BackendService.RequestUrl`.

Methods with loops model the source's loops. Each method is proved
equal to a specification function, and the lemmas are stated about that
function:

- `JobSkillGraph.JobIdByName` and `JobSkillGraph.MergeLayouts`;
- `ExperienceWeighting.WeighExperiences` and `IndividualModel.BuildModel`;
- `Accessibility.WeighByLevelDiff`, `Accessibility.JobAccessibility` and `Accessibility.MaskDiagonal`;
- the `Neo4jAssembly` loops;
- `BackendService.SetQueryParams`.

Each error the source raises is a `Result` error value:

- a `KeyError` on a missing column, key or definition field;
- the `IndexError` and `ZeroDivisionError` of the year split;
- a failed `check_data` assertion;
- a `ReferenceError` for an unknown experience id;
- `NetworkError` and `HttpError`.

Modules, one per file:

- `Util`, `Ranking`, `Matrix`, `Calendar`, `TextSearch`: shared helpers.
- `JobSkillGraph`: model_job_skill_graph.py.
- `ExperienceWeighting`, `IndividualModel`, `Accessibility`: model_skill_cooc.py.
- `CoreCount`: backend core.py.
- `DataChecks`: every `check_data`.
- `DataSources`: sources, URLs and paths.
- `Neo4jAssembly`: neo4j.py.
- `Spreadsheet`: google_spreadsheet.py.
- `BackendService`: backend.ts.
- `ExperienceSelection`, `CompetenceSelection`: the two selectors.
- `Comparators`: the helper comparators.

## Model

| member | source | states |
|---|---|---|
| Matrix.SelectRows | model/src/oplc_model/model_job_skill_graph.py:207-208 | row k of the result is row idx[k] of the matrix, repeats included |
| Matrix.SelectCols | model/src/oplc_model/model_job_skill_graph.py:213 | every row keeps exactly the listed columns, in the listed order |
| Matrix.Gram | model/src/oplc_model/model_skill_cooc.py:47-52 | MᵀM is square over the columns, and entry (i, j) is the dot product of columns i and j |
| Matrix.ColDotSymmetric | model/src/oplc_model/model_skill_cooc.py:52 | the column dot product is symmetric |
| Matrix.ColDotBinary | model/src/oplc_model/model_job_skill_graph.py:214-216 | on 0/1 data the dot product of two columns counts the rows having both |
| Matrix.GramSymmetric | model/src/oplc_model/model_skill_cooc.py:52 | the co-occurrence matrix is symmetric |
| Matrix.GramCounts | model/src/oplc_model/model_skill_cooc.py:47-52 | on 0/1 data entry (i, j) counts the rows with both skills, so the diagonal counts the rows having the skill |
| Matrix.ColSumPositiveIffSomeRow | model/src/oplc_model/model_job_skill_graph.py:209 | on non-negative data a column sum is positive iff some row has a positive entry there |
| JobSkillGraph.MkExperiences | model/src/oplc_model/model_job_skill_graph.py:31-36 | one record per entry, same keys in the same order, each record carrying its key as id and its name and type |
| JobSkillGraph.MkSkills | model/src/oplc_model/model_job_skill_graph.py:45-46 | one Skill(id, name) per entry, keyed and ordered as the input |
| JobSkillGraph.MkJobs | model/src/oplc_model/model_job_skill_graph.py:55-56 | one Job(id, name) per entry, keyed and ordered as the input |
| JobSkillGraph.JobIdByName | model/src/oplc_model/model_job_skill_graph.py:58-62 | None iff no job has the name; otherwise the id of the first job with that name |
| JobSkillGraph.SelectedRows | model/src/oplc_model/model_job_skill_graph.py:207-208 | the rows of the selected experiences, in selection order, repeats included |
| JobSkillGraph.PositiveColumns | model/src/oplc_model/model_job_skill_graph.py:209-212 | exactly the columns with a positive sum, strictly increasing |
| JobSkillGraph.SkillGraph | model/src/oplc_model/model_job_skill_graph.py:207-219 | Ok iff every selected experience is a row. The nodes are exactly the positive-sum skill columns in column order, and the weight of edge (i, j) is the dot product of their columns over the selected rows |
| JobSkillGraph.SkillGraphSymmetric | model/src/oplc_model/model_job_skill_graph.py:214-217 | edge weights are symmetric |
| JobSkillGraph.SkillGraphCounts | model/src/oplc_model/model_job_skill_graph.py:181-187 | on 0/1 data edge (i, j) counts the selected experiences having both skills, and a self-loop counts those having the skill |
| JobSkillGraph.SkillGraphEmptySelection | model/src/oplc_model/model_job_skill_graph.py:207-213 | selecting no experience gives the graph with no node |
| JobSkillGraph.SkillGraphWorkedExample | model/src/oplc_model/model_job_skill_graph.py:189-205 | rows [1,0,1] and [1,0,0] selected: the middle skill is dropped and the weights are (1,1)=2, (1,3)=1, (3,3)=1 |
| JobSkillGraph.SkillScores | model/src/oplc_model/model_job_skill_graph.py:253-254 | the measure's mapping is returned unchanged: same keys, same values, zero scores kept |
| JobSkillGraph.AllJobScores | model/src/oplc_model/model_job_skill_graph.py:266-267 | one entry per job, in row order, holding the dot product of its row with the skill scores |
| JobSkillGraph.JobsFromSkills | model/src/oplc_model/model_job_skill_graph.py:266-269 | the ranking is in non-increasing score order, and every score is positive |
| JobSkillGraph.JobsFromSkillsMembers | model/src/oplc_model/model_job_skill_graph.py:266-269 | an entry is ranked iff it is a job with its score and that score is positive |
| JobSkillGraph.JobsFromSkillsKeysDistinct | model/src/oplc_model/model_job_skill_graph.py:266-269 | no job is ranked twice |
| JobSkillGraph.JobScoreIgnoresUnscored | model/src/oplc_model/model_job_skill_graph.py:266-267 | a skill absent from the scores contributes nothing, whatever the job's entry |
| JobSkillGraph.JobScoreCountsMarkedSkills | model/src/oplc_model/model_job_skill_graph.py:266-267 | with score 1 on a set of skills and nothing else, a 0/1 job row scores the number of those skills it marks |
| JobSkillGraph.JobRecommendation | model/src/oplc_model/model_job_skill_graph.py:69-78 | Ok iff every selected experience is known; the result is ranked and positive |
| JobSkillGraph.EmptySelectionRecommendsNothing | model/src/oplc_model/model_job_skill_graph.py:69-78 | no selection, with a measure that scores nothing on the empty graph, recommends no job |
| JobSkillGraph.ISqrt | model/src/oplc_model/model_job_skill_graph.py:91 | n·n ≤ k < (n+1)·(n+1), that is n = ⌊√k⌋ |
| JobSkillGraph.GridSize | model/src/oplc_model/model_job_skill_graph.py:90-100 | the grid holds every component; columns are rows or rows+1, and rows are ⌊√k⌋ or ⌊√k⌋+1 |
| JobSkillGraph.GridSizeNotMinimal | model/src/oplc_model/model_job_skill_graph.py:95-100 | k = n(n+1) gets an (n+1)×(n+1) grid although n×(n+1) fits, because the test is strict |
| JobSkillGraph.Centers | model/src/oplc_model/model_job_skill_graph.py:102 | row-major centers: center i is (i mod nCol, i div nCol), inside the grid and pairwise distinct |
| JobSkillGraph.ComponentCentersDistinct | model/src/oplc_model/model_job_skill_graph.py:102-111 | every component is given its own center |
| JobSkillGraph.MergeLayouts | model/src/oplc_model/model_job_skill_graph.py:113-115 | the merged keys are the union of the layouts' keys, and each key keeps its position from the last layout holding it |
| Ranking.Insert | model/src/oplc_model/model_job_skill_graph.py:268 | insertion into a descending sequence keeps it descending and adds exactly one entry |
| Ranking.SortDesc | model/src/oplc_model/model_job_skill_graph.py:268 | `sort_values(ascending=False)`: non-increasing scores, a permutation of the input |
| Ranking.KeepPositive | model/src/oplc_model/model_job_skill_graph.py:269 | only positive scores remain |
| Ranking.KeepPositiveMultiset | model/src/oplc_model/model_job_skill_graph.py:269 | an entry keeps its multiplicity iff its score is positive, and disappears otherwise |
| Ranking.KeepPositiveKeepsOrder | model/src/oplc_model/model_job_skill_graph.py:269 | filtering keeps a descending sequence descending |
| Ranking.KeepPositivePermutation | backend/python/oplc/core.py:131 | filtering permuted sequences gives permuted results |
| Ranking.RankedEitherWay | backend/python/oplc/core.py:131 | sorting then filtering and filtering then sorting give descending sequences with the same entries |
| Ranking.Select | model/src/oplc_model/model_skill_cooc.py:192-195 | boolean selection keeps only entries whose label passes |
| Ranking.SelectMultiset | model/src/oplc_model/model_skill_cooc.py:192-195 | an entry keeps its multiplicity iff its label passes |
| Ranking.SelectKeepsOrder | model/src/oplc_model/model_skill_cooc.py:192-195 | selection keeps a descending sequence descending |
| Ranking.Keys | model/src/oplc_model/model_skill_cooc.py:185 | the labels of the entries, in order |
| Ranking.KeysOfPermutation | model/src/oplc_model/model_skill_cooc.py:181 | reordering the entries keeps the set of labels |
| Calendar.DaysInYear | model/src/oplc_model/model_skill_cooc.py:109-110 | 366 in leap years, 365 otherwise |
| Calendar.DaysInMonth | model/src/oplc_model/model_skill_cooc.py:109-110 | 28 to 31 days; February has 29 iff the year is leap |
| Calendar.DaysBeforeMonth | model/src/oplc_model/model_skill_cooc.py:109-110 | between 28 and 31 days per earlier month |
| Calendar.DaysBeforeMonthStep | model/src/oplc_model/model_skill_cooc.py:109-110 | month m + 1 starts the length of month m after month m |
| Calendar.Jan1 | model/src/oplc_model/model_skill_cooc.py:103 | January 1 of the year |
| Calendar.Dec31 | model/src/oplc_model/model_skill_cooc.py:106 | December 31 of the year |
| Calendar.MonthsMakeYear | model/src/oplc_model/model_skill_cooc.py:109-110 | the twelve months add up to the year's length |
| Calendar.YearLength | model/src/oplc_model/model_skill_cooc.py:109-110 | next January 1 minus this January 1 is the year's length in days |
| Calendar.Dec31IsLastDay | model/src/oplc_model/model_skill_cooc.py:106-112 | the day after December 31 is January 1, so Jan 1 to Dec 31 spans the year's length inclusively |
| Calendar.WithinItsYear | model/src/oplc_model/model_skill_cooc.py:101-108 | a date lies between January 1 and December 31 of its year |
| Calendar.EarlierYearEarlierDate | model/src/oplc_model/model_skill_cooc.py:100-108 | a date of an earlier year comes before any date of a later year |
| ExperienceWeighting.SegmentOf | model/src/oplc_model/model_skill_cooc.py:101-110 | segment i lies in year begin.year + i and carries that year's length |
| ExperienceWeighting.YearSegments | model/src/oplc_model/model_skill_cooc.py:100-110 | one segment per year from begin.year to end.year, none if end.year < begin.year; the first starts at begin, the last ends at end, the others start Jan 1 and end Dec 31 |
| ExperienceWeighting.SegmentsContiguous | model/src/oplc_model/model_skill_cooc.py:100-108 | each segment ends the day before the next starts, and a same-year interval is one segment |
| ExperienceWeighting.Proportions | model/src/oplc_model/model_skill_cooc.py:112-114 | one proportion per segment: inclusive days over the year's length |
| ExperienceWeighting.SegmentWeights | model/src/oplc_model/model_skill_cooc.py:116-118 | one weight per segment: proportion / (1 + recency) |
| ExperienceWeighting.WeighExperience | model/src/oplc_model/model_skill_cooc.py:97-124 | IndexError iff end.year < begin.year, ZeroDivisionError iff some recency is −1; otherwise the row keeps job and dates, and its recency is that of the last segment |
| ExperienceWeighting.WeighedColumns | model/src/oplc_model/model_skill_cooc.py:120-124 | duration is the sum of the proportions and weight the sum of the segment weights |
| ExperienceWeighting.FullYearProportion | model/src/oplc_model/model_skill_cooc.py:112-114 | a full calendar year has proportion exactly 1 |
| ExperienceWeighting.WholeYearsDuration | model/src/oplc_model/model_skill_cooc.py:112-122 | Jan 1 of year a to Dec 31 of year b lasts exactly b − a + 1 |
| ExperienceWeighting.SameYearDuration | model/src/oplc_model/model_skill_cooc.py:112-122 | within one year the duration is the inclusive day count over the year's length |
| ExperienceWeighting.WeightAtMostDuration | model/src/oplc_model/model_skill_cooc.py:112-124 | an ordered experience that ended by today is weighed without error, with 0 ≤ weight ≤ duration |
| ExperienceWeighting.DiscountBounded | model/src/oplc_model/model_skill_cooc.py:116-118 | a segment ended by today has recency ≥ 0 and a weight between 0 and its proportion |
| ExperienceWeighting.ReversedIntervalAccepted | model/src/oplc_model/model_skill_cooc.py:100-124 | an end before begin in the same year is weighed without error, to a negative duration |
| ExperienceWeighting.CurrentFullYearWeighsOne | model/src/oplc_model/model_skill_cooc.py:112-124 | a full year weighed on its last day has duration 1, recency 0 and weight 1 |
| ExperienceWeighting.Outcomes | model/src/oplc_model/model_skill_cooc.py:97-124 | one weighing outcome per row, the i-th being that of row i |
| ExperienceWeighting.SequencedFacts | model/src/oplc_model/model_skill_cooc.py:97-124 | running the rows one after the other succeeds iff every row does, giving each row's value in order; otherwise it fails with the error of the first failing row, all rows before it having succeeded |
| ExperienceWeighting.SequencedErrPersists | model/src/oplc_model/model_skill_cooc.py:97-124 | an exception raised on some row is the outcome of the whole loop, whatever the later rows are |
| ExperienceWeighting.WeighAllFacts | model/src/oplc_model/model_skill_cooc.py:97-124 | the weighed table exists iff every row weighs; then row i is the weighing of experience i; otherwise the error is that of the first failing row |
| ExperienceWeighting.WeighExperiences | model/src/oplc_model/model_skill_cooc.py:97-124 | the loop computes the weighed table: every row in order, stopping at the first row that raises |
| IndividualModel.IndivSkills | model/src/oplc_model/model_skill_cooc.py:129-135 | KeyError iff a practiced job has no row; otherwise skill s weighs Σ weight·jobs_skills[job, s] over experiences |
| IndividualModel.WeightedSkillAppend | model/src/oplc_model/model_skill_cooc.py:129-135 | skill weights add over experiences, so experience order does not matter |
| IndividualModel.RepeatedJobCountsTwice | model/src/oplc_model/model_skill_cooc.py:129-135 | the same job practiced twice adds its weighted row twice |
| IndividualModel.ArgMaxPrefix | model/src/oplc_model/model_skill_cooc.py:137 | `idxmax`: the first index of a maximal weight |
| IndividualModel.MaxLevel | model/src/oplc_model/model_skill_cooc.py:139 | the maximum level among the practiced jobs, attained by one of them |
| IndividualModel.AssembleModel | model/src/oplc_model/model_skill_cooc.py:129-147 | Ok iff some experience exists and every practiced job is known. The main job is the first heaviest experience's job, the sector is that job's sector and the level is the maximum job level |
| IndividualModel.BuildModel | model/src/oplc_model/model_skill_cooc.py:80-147 | a weighing error iff some row fails to weigh; otherwise the model assembled from the weighed rows |
| Accessibility.SkillCooccurrence | model/src/oplc_model/model_skill_cooc.py:47-52 | square over skills, symmetric, entry (i, j) = Σ_job js[job,i]·js[job,j], counting jobs with both on 0/1 data |
| Accessibility.MaskDiagonal | model/src/oplc_model/model_skill_cooc.py:234-240 | every diagonal entry is zeroed and every other entry unchanged |
| Accessibility.LevelFactor | model/src/oplc_model/model_skill_cooc.py:185-186 | at most 1, equal to 1 iff the job is not above the individual's level, else 1 − diff/8 |
| Accessibility.LevelFactorNotFloored | model/src/oplc_model/model_skill_cooc.py:185-186 | a job 16 levels above gets factor −1: no floor at 0 |
| Accessibility.ApplyLevelFactor | model/src/oplc_model/model_skill_cooc.py:187 | each score multiplied by its job's factor, jobs in the same positions |
| Accessibility.LevelFactorNotResorted | model/src/oplc_model/model_skill_cooc.py:181-187 | the weighted scores are not re-sorted: a ranked pair can come out in ascending order |
| Accessibility.PracticedJobs | model/src/oplc_model/model_skill_cooc.py:190 | the job ids of the weighted experiences, in order |
| Accessibility.SameSectorFirstGroups | model/src/oplc_model/model_skill_cooc.py:197-201 | same-sector jobs form a prefix and the others the rest, each part in descending order |
| Accessibility.SameSectorFirstPermutation | model/src/oplc_model/model_skill_cooc.py:197-201 | grouping by sector only reorders the entries |
| Accessibility.RankedGroup | model/src/oplc_model/model_skill_cooc.py:199-200 | every entry of a sorted selection passes the selection |
| Accessibility.WeighByLevelDiff | model/src/oplc_model/model_skill_cooc.py:184-187 | the capped in-place loop gives exactly the factor-weighted scores |
| Accessibility.JobAccessibility | model/src/oplc_model/model_skill_cooc.py:180-201 | the step-by-step reassignment of `job_access` equals the specified ordering |
| Accessibility.AccessibilityFilters | model/src/oplc_model/model_skill_cooc.py:189-195 | every kept job was scored, lies in the inclusive level window, and is not practiced when those are hidden |
| Accessibility.AccessibleEntry | model/src/oplc_model/model_skill_cooc.py:189-201 | the same facts for any entry of the result |
| Accessibility.AccessibilityContents | model/src/oplc_model/model_skill_cooc.py:181-201 | weighted or not, the result holds exactly the (factor-weighted) ranked entries in the level window and, when hidden, not practiced, with their multiplicities; without sector grouping in their ranked order, with it the same-sector group first |
| Accessibility.AccessibilityUnweighed | model/src/oplc_model/model_skill_cooc.py:181-201 | without level weighting the result keeps the input scores and, without sector grouping, stays in descending order |
| CoreCount.RemoveAt | backend/python/oplc/core.py:61 | the sequence without position k, others shifted down in order |
| CoreCount.RemoveAtKeepsDistinct | backend/python/oplc/core.py:61 | removing a column keeps distinct names distinct and drops that name |
| CoreCount.MkJobsSkills | backend/python/oplc/core.py:59-68 | KeyError iff "Métier" is not a column; otherwise the job column becomes the index and leaves the columns |
| CoreCount.MkJobsSkillsRestores | backend/python/oplc/core.py:59-68 | putting the index back at its column position gives the table again |
| CoreCount.RemoveTwoKeepsDistinct | backend/python/oplc/core.py:88 | removing the two index columns keeps names distinct and drops both |
| CoreCount.MkExperiencesSkills | backend/python/oplc/core.py:86-95 | KeyError iff "Expérience" or "type" is missing; otherwise the pair becomes the index, row by row |
| CoreCount.RemoveTwo | backend/python/oplc/core.py:88 | every element except those at the two positions, in order |
| CoreCount.RemoveTwoPutBack | backend/python/oplc/core.py:88 | putting the two removed elements back at their positions gives the sequence again |
| CoreCount.MkExperiencesSkillsRestores | backend/python/oplc/core.py:86-95 | putting the two index columns back at their positions gives the header and every row again, so no other column or cell changes |
| CoreCount.Jobs | backend/python/oplc/core.py:71-73 | one Job per index label, in order |
| CoreCount.Skills | backend/python/oplc/core.py:76-78 | one Skill per column name, in order |
| CoreCount.Experiences | backend/python/oplc/core.py:98-100 | one Experience per (name, type) label, in order |
| CoreCount.SkillsFromExperiences | backend/python/oplc/core.py:109-117 | KeyError iff a selected experience is not a row; otherwise a skill is in the set iff its column sum over the selected rows is positive |
| CoreCount.SkillScorePositive | backend/python/oplc/core.py:113-115 | on non-negative data a skill is kept iff some selected experience marks it |
| CoreCount.SkillsFromExperiencesIgnoresOrder | backend/python/oplc/core.py:113-117 | the set depends only on which experiences are selected, not on their order or repeats |
| CoreCount.SelectedSumCounts | backend/python/oplc/core.py:129-130 | on a 0/1 row the job score counts the selected skills the job marks |
| CoreCount.AllJobScores | backend/python/oplc/core.py:129-130 | one score per job, in row order, summing the selected columns |
| CoreCount.JobsFromSkills | backend/python/oplc/core.py:125-132 | KeyError iff a selected skill is not a column; otherwise descending, positive, and a permutation of the positive job scores |
| CoreCount.JobsFromSkillsMembers | backend/python/oplc/core.py:129-131 | a job is ranked with its score iff that score is positive |
| CoreCount.JobsFromSkillsSound | backend/python/oplc/core.py:129-131 | every ranked entry is a job's label with that job's score |
| CoreCount.JobRecommendation | backend/python/oplc/core.py:32-39 | the two steps composed: an unknown experience fails, a result is ranked and positive |
| CoreCount.EmptySelectionRecommendsNothing | backend/python/oplc/core.py:32-39 | no selected experience recommends no job |
| CoreCount.Items | backend/python/oplc/core.py:46-47 | one (Job(str(label)), score) per entry, in ranked order |
| CoreCount.ItemsNamesDistinct | backend/python/oplc/core.py:47 | distinct integer labels print to distinct names |
| DataChecks.RepeatedMembers | backend/python/oplc/pipelines.py:101-104 | the repeated values are exactly those occurring more than once, each listed once |
| DataChecks.RepeatedEmptyIffNoDuplicates | backend/python/oplc/pipelines.py:106-116 | nothing is repeated iff the list is duplicate-free |
| DataChecks.DuplicateValues | backend/python/oplc/pipelines.py:101-104 | exactly the (value, count) pairs of values occurring more than once; empty iff duplicate-free |
| DataChecks.DuplicateCounts | etl/src/oplc_etl/pipelines.py:119-122 | one count above 1 per repeated value, and no value; empty iff duplicate-free; the same code is copied at etl/src/oplc_etl/check.py:10-14 |
| DataChecks.DuplicateReportsAgree | etl/src/oplc_etl/pipelines.py:119-122 | the backend and ETL reports list the same counts, in the same order |
| DataChecks.CheckDataSet | backend/python/oplc/pipelines.py:96-116 | passes iff the four label lists are duplicate-free; otherwise the first failing list in checking order, with its duplicates |
| DataChecks.CheckLabels | etl/src/oplc_etl/pipelines.py:114-138 | passes iff the four label lists are duplicate-free; otherwise the first failing list and its repeat counts; the same code is copied at etl/src/oplc_etl/check.py:6-30 |
| DataChecks.ChecksAgree | backend/python/oplc/pipelines.py:106-116 | the backend and ETL checks accept the same tables and blame the same list |
| DataChecks.FirstFailingUnique | etl/src/oplc_etl/check.py:16-30 | the first failing check is unique |
| DataChecks.ExperienceTableCheckedFirst | etl/src/oplc_etl/pipelines.py:124-138 | with repeated skills in both tables, the experiences table is blamed |
| DataSources.KindName | backend/python/oplc/pipelines.py:27-28 | the two kinds have the two distinct directory names |
| DataSources.LocalPathsSeparate | backend/python/oplc/pipelines.py:27-34 | content and meta paths depend only on the kind; distinct kinds and the two files never share a path; the same code is copied at etl/src/oplc_etl/pipelines.py:45-52, etl/src/oplc_etl/pipelines/google_spreadsheet.py:45-52 |
| DataSources.Url | backend/python/oplc/pipelines.py:57-58 | the export URL built from key and gid alone |
| DataSources.UrlInjective | backend/python/oplc/resources/data_set/model.py:18-19 | keys without '/' give distinct URLs to distinct sheets; the same code is copied at etl/src/oplc_etl/pipelines.py:75-76 |
| DataSources.CachePath | backend/python/oplc/pipelines.py:62-63 | the cache file built from key and gid alone |
| DataSources.CachePathInjective | backend/python/oplc/resources/data_set/model.py:21-22 | gids without '_' give distinct cache files to distinct sheets; the same code is copied at etl/src/oplc_etl/pipelines/google_spreadsheet.py:80-81 |
| DataSources.CachePathCollision | etl/src/oplc_etl/pipelines.py:80-81 | a gid holding '_' lets two different sheets share one cache file |
| DataSources.Field | backend/python/oplc/pipelines.py:70-79 | a present field gives its value, and a missing one a KeyError naming it |
| DataSources.DataSourceFromDef | backend/python/oplc/pipelines.py:69-80 | "google docs" gives GoogleDocsCsv(name, key, gid), any other type LocalSourceCsv(name, path); missing fields are KeyErrors, "type" first; the same code is copied at etl/src/oplc_etl/pipelines.py:87-98, etl/src/oplc_etl/pipelines/google_spreadsheet.py:87-98 |
| DataSources.DataSourceRoundTrip | backend/python/oplc/resources/data_set/model.py:7-24 | every source, local or spreadsheet, is recovered from its written definition |
| DataSources.ConfiguredSources | backend/python/oplc/pipelines.py:85-91 | the two configured sources are sheets of one spreadsheet with distinct URLs and cache files |
| Neo4jAssembly.JobLevelFromLabel | etl/src/oplc_etl/pipelines/neo4j.py:198-216 | "NIV1".."NIV8" give 1..8, and every other label none |
| Neo4jAssembly.LevelLabelRoundTrip | etl/src/oplc_etl/pipelines/neo4j.py:198-216 | every level's label parses back to the level |
| Neo4jAssembly.Put | etl/src/oplc_etl/pipelines/neo4j.py:86 | a dict store: a new key is appended to the order, an old key keeps its place, and the value is replaced |
| Neo4jAssembly.CollectFacts | etl/src/oplc_etl/pipelines/neo4j.py:86-95 | keys appear once, in order of first insertion, and each holds the value of its last record |
| Neo4jAssembly.KeptJob | etl/src/oplc_etl/pipelines/neo4j.py:73-87 | a job is kept iff its level label parses, under its id and with level 1..8 |
| Neo4jAssembly.KeptJobsMembers | etl/src/oplc_etl/pipelines/neo4j.py:73-87 | an id is kept iff some record with it has a parsing label, and every kept level is 1..8 |
| Neo4jAssembly.CollectJobs | etl/src/oplc_etl/pipelines/neo4j.py:73-87 | the jobs loop builds the dict of the kept jobs |
| Neo4jAssembly.JobsRecorded | etl/src/oplc_etl/pipelines/neo4j.py:73-87 | exactly the jobs with a parsing label are recorded, each with a level in 1..8 |
| Neo4jAssembly.SkillPairs | etl/src/oplc_etl/pipelines/neo4j.py:90-91 | every skill record becomes (id, title), in order |
| Neo4jAssembly.SectorPairs | etl/src/oplc_etl/pipelines/neo4j.py:94-95 | every sector record becomes (id, (title, ROME)), in order |
| Neo4jAssembly.CollectAll | etl/src/oplc_etl/pipelines/neo4j.py:89-95 | the skills and sectors loops build the dict of their records |
| Neo4jAssembly.KnownEdges | etl/src/oplc_etl/pipelines/neo4j.py:97-115 | an edge is kept iff both its job and its skill are known |
| Neo4jAssembly.KeepKnownEdges | etl/src/oplc_etl/pipelines/neo4j.py:97-115 | the edge loop keeps exactly the known edges, in order |
| Neo4jAssembly.WithSectors | etl/src/oplc_etl/pipelines/neo4j.py:117-129 | attaching sectors changes no key of the jobs |
| Neo4jAssembly.WithSectorsFacts | etl/src/oplc_etl/pipelines/neo4j.py:117-129 | only known jobs get a sector, the last mapping wins, and the other fields are untouched |
| Neo4jAssembly.AttachSectors | etl/src/oplc_etl/pipelines/neo4j.py:117-129 | the sector loop gives exactly the specified jobs |
| Neo4jAssembly.BuildIncidence | etl/src/oplc_etl/pipelines/neo4j.py:135-143 | one row per job and one column per skill; a cell is 1 iff an edge links them, so a repeated edge leaves it at 1 |
| Neo4jAssembly.GetJobSkillData | etl/src/oplc_etl/pipelines/neo4j.py:65-150 | the tables of the kept jobs, skills and sectors, the sectors attached and the matrix of the known edges; a KeyError when a table is empty |
| Spreadsheet.ColumnById | etl/src/oplc_etl/pipelines/google_spreadsheet.py:186 | the column's values, one per row, in row order |
| Spreadsheet.Jobs | etl/src/oplc_etl/pipelines/google_spreadsheet.py:183-188 | KeyError iff "Métier" is missing; otherwise ids 0..n−1 to the job column's values in row order |
| Spreadsheet.SkillNames | etl/src/oplc_etl/pipelines/google_spreadsheet.py:194-195 | the jobs-sheet columns other than "Métier", in order and distinct |
| Spreadsheet.Skills | etl/src/oplc_etl/pipelines/google_spreadsheet.py:191-197 | ids 0..k−1 to the skill columns in order |
| Spreadsheet.SkillIds | etl/src/oplc_etl/pipelines/google_spreadsheet.py:200-201 | [0..k−1], exactly the keys of the skills |
| Spreadsheet.Ids | etl/src/oplc_etl/pipelines/google_spreadsheet.py:184-185 | the ids of an enumeration: exactly 0..n−1 |
| Spreadsheet.Experiences | etl/src/oplc_etl/pipelines/google_spreadsheet.py:204-209 | KeyError listing exactly the missing ones of "Expérience" and "type"; otherwise ids 0..m−1 to the pairs in row order |
| Spreadsheet.MissingMembers | etl/src/oplc_etl/pipelines/google_spreadsheet.py:207 | the missing names are exactly the requested names not in the header |
| Spreadsheet.SelectColumns | etl/src/oplc_etl/pipelines/google_spreadsheet.py:215 | KeyError listing the missing names; otherwise the named columns in the requested order |
| Spreadsheet.ExperiencesSkills | etl/src/oplc_etl/pipelines/google_spreadsheet.py:212-219 | the experiences sheet restricted to the skill columns in id order, renamed to ids; KeyError when a skill column is missing |
| Spreadsheet.JobsSkills | etl/src/oplc_etl/pipelines/google_spreadsheet.py:222-229 | the jobs sheet restricted to its skill columns in id order, renamed to ids |
| Spreadsheet.JobsSkillsIsTheSheet | etl/src/oplc_etl/pipelines/google_spreadsheet.py:222-229 | each row is the sheet row without its job cell, and row i belongs to job id i |
| Spreadsheet.ExperiencesSkillsAligned | etl/src/oplc_etl/pipelines/google_spreadsheet.py:212-219 | Ok iff every jobs-sheet skill column is an experiences column; then the rows line up with the experience ids |
| Util.FindIndex | frontend/src/views/JobRecommendation/ExperienceSelector.tsx:35 | `findIndex`: −1 iff absent, else the first position holding the value |
| Util.NoDuplicatesIffCountsAtMostOne | backend/python/oplc/pipelines.py:101-104 | duplicate-free iff no value occurs twice |
| Util.ParseDecimalString | backend/python/oplc/core.py:47 | an integer printed in decimal reads back as itself |
| Comparators.LexLessTrichotomy | frontend/src/utils/helpers/Skills.ts:4-7 | JavaScript's string `<` is a strict total order: exactly one of a < b, a = b, b < a |
| Comparators.LexLessTransitive | frontend/src/utils/helpers/Jobs.ts:5-8 | the string order is transitive |
| Comparators.LessThan | frontend/src/utils/helpers/Metiers.ts:7-10 | −1 iff the first name sorts first, 0 iff the names are equal, 1 iff the second sorts first; the same code is copied at frontend/src/utils/helpers/Competences.ts:7-10, frontend/src/utils/helpers/Skills.ts:4-7, frontend/src/utils/helpers/Jobs.ts:5-8 (Competences.ts tests equality with `==`, which on two strings behaves as `===`) |
| Comparators.LessThanAntisymmetric | frontend/src/utils/helpers/Metiers.ts:7-10 | lessThan(a, b) = −lessThan(b, a), lessThan(a, a) = 0, and 0 only on equal records |
| Comparators.LessThanTransitive | frontend/src/utils/helpers/Competences.ts:7-10 | the induced order is transitive, so sorting with it is well defined |
| Comparators.DefaultsSortFirst | frontend/src/utils/helpers/Metiers.ts:5 | the default metier and competence, named "", sort before or equal to every record |
| Comparators.LessThanScore | frontend/src/utils/helpers/Metiers.ts:17-20 | the same three-way comparison on scores |
| Comparators.LessThanScoreAntisymmetric | frontend/src/utils/helpers/Metiers.ts:15-20 | antisymmetric, and 0 on the same suggestion |
| TextSearch.IndexOf | frontend/src/views/JobRecommendation/ExperienceSelector.tsx:72 | −1 iff the filter does not occur, else its first occurrence |
| TextSearch.ShownIffContains | frontend/src/views/JobRecommendation/ExperienceSelector.tsx:94-96 | `~indexOf` is non-zero iff the name contains the filter |
| TextSearch.EmptyFilterShowsAll | frontend/src/views/RecommendationsMetiers/CompetenceSelector.tsx:16 | the initial empty filter shows every entry |
| ExperienceSelection.Spliced | frontend/src/views/JobRecommendation/ExperienceSelector.tsx:35 | `R.remove(i, 1, s)`: position i dropped; i = −1 drops the last entry; a position past the end changes nothing |
| ExperienceSelection.RemoveFirstPresent | frontend/src/views/JobRecommendation/ExperienceSelector.tsx:35 | a listed id loses its first occurrence and nothing else |
| ExperienceSelection.RemoveFirstAbsent | frontend/src/views/JobRecommendation/ExperienceSelector.tsx:41 | an unlisted id makes a non-empty list lose its last entry |
| ExperienceSelection.Appended | frontend/src/views/JobRecommendation/ExperienceSelector.tsx:32 | `[c]` for an undefined list, else the list with c appended |
| ExperienceSelection.Removed | frontend/src/views/JobRecommendation/ExperienceSelector.tsx:33-35 | `[]` for an undefined list; for a listed id, one occurrence fewer |
| ExperienceSelection.MoveKeepsIds | frontend/src/views/JobRecommendation/ExperienceSelector.tsx:31-43 | moving a listed id keeps the combined multiset of both lists |
| ExperienceSelection.OnceEachIffNoDuplicates | frontend/src/views/JobRecommendation/ExperienceSelector.tsx:26 | each id occurs once iff the list has no duplicates |
| ExperienceSelection.LoadedPartition | frontend/src/views/JobRecommendation/ExperienceSelector.tsx:23-29 | the loaded state partitions the ids iff the record keys are distinct |
| ExperienceSelection.SelectKeepsPartition | frontend/src/views/JobRecommendation/ExperienceSelector.tsx:31-36 | selecting an unselected id keeps the partition and moves the id to selected |
| ExperienceSelection.DeselectKeepsPartition | frontend/src/views/JobRecommendation/ExperienceSelector.tsx:38-43 | deselecting a selected id keeps the partition and moves the id to not selected |
| ExperienceSelection.SelectThenDeselect | frontend/src/views/JobRecommendation/ExperienceSelector.tsx:31-43 | deselecting right after selecting an unselected id gives the selected list back |
| ExperienceSelection.Lookup | frontend/src/views/JobRecommendation/ExperienceSelector.tsx:64-70 | Ok iff every id has a record, then the records in order; else a ReferenceError for the first id without one |
| ExperienceSelection.FilterByName | frontend/src/views/JobRecommendation/ExperienceSelector.tsx:94-96 | exactly the entries whose name contains the filter, in order |
| ExperienceSelection.FilterByNameAppend | frontend/src/views/JobRecommendation/ExperienceSelector.tsx:94-96 | filtering goes entry by entry: it distributes over concatenation and keeps a single entry iff its name passes, so order is kept |
| ExperienceSelection.FilterByNameMultiset | frontend/src/views/JobRecommendation/ExperienceSelector.tsx:94-96 | an entry whose name passes keeps its multiplicity, any other is dropped |
| ExperienceSelection.Rendered | frontend/src/views/JobRecommendation/ExperienceSelector.tsx:86-96 | nothing iff the list is undefined; a ReferenceError iff the lookup fails; otherwise the filtered lookup, holding exactly the listed ids with their records whose name contains the filter |
| ExperienceSelection.ExperienceSelector.constructor | frontend/src/views/JobRecommendation/ExperienceSelector.tsx:19-21 | both lists undefined and the filter empty |
| ExperienceSelection.ExperienceSelector.Loaded | frontend/src/views/JobRecommendation/ExperienceSelector.tsx:23-29 | with both lists undefined and the records loaded: selected = [] and not selected = the keys; otherwise nothing changes |
| ExperienceSelection.ExperienceSelector.Select | frontend/src/views/JobRecommendation/ExperienceSelector.tsx:31-36 | c appended to selected, its first occurrence removed from not selected |
| ExperienceSelection.ExperienceSelector.Deselect | frontend/src/views/JobRecommendation/ExperienceSelector.tsx:38-43 | c's first occurrence removed from selected, c appended to not selected |
| ExperienceSelection.ExperienceSelector.SetFilter | frontend/src/views/JobRecommendation/ExperienceSelector.tsx:58 | the filter changes, the lists do not |
| CompetenceSelection.SortedNoDuplicates | frontend/src/views/RecommendationsMetiers/CompetenceSelector.tsx:11 | a set sorted by `lessThan` is duplicate-free |
| CompetenceSelection.Add | frontend/src/views/RecommendationsMetiers/CompetenceSelector.tsx:27 | `OrderedSet.add`: the elements plus c; a present c changes nothing |
| CompetenceSelection.Delete | frontend/src/views/RecommendationsMetiers/CompetenceSelector.tsx:28 | `OrderedSet.delete`: the elements but c, sortedness kept |
| CompetenceSelection.Insert | frontend/src/views/RecommendationsMetiers/CompetenceSelector.tsx:27 | c placed in a sorted set keeps it sorted, with elements those plus c |
| CompetenceSelection.SortByName | frontend/src/views/RecommendationsMetiers/CompetenceSelector.tsx:21 | `sort(lessThan)`: sorted, with the same elements |
| CompetenceSelection.SortedUnique | frontend/src/views/RecommendationsMetiers/CompetenceSelector.tsx:11 | two sorted sets with the same elements are equal |
| CompetenceSelection.SortIdempotent | frontend/src/views/RecommendationsMetiers/CompetenceSelector.tsx:21 | re-sorting the already sorted competences changes nothing |
| CompetenceSelection.AddThenSort | frontend/src/views/RecommendationsMetiers/CompetenceSelector.tsx:27 | add followed by sort is insertion into the sorted set |
| CompetenceSelection.Fetched | frontend/src/views/RecommendationsMetiers/CompetenceSelector.tsx:8-11 | the fetched competences are sorted and are exactly the records of the fetched names |
| CompetenceSelection.FilterByName | frontend/src/views/RecommendationsMetiers/CompetenceSelector.tsx:66 | exactly the competences whose name contains the filter, order kept |
| CompetenceSelection.LoadedSplit | frontend/src/views/RecommendationsMetiers/CompetenceSelector.tsx:18-24 | the loaded state splits the competences: none selected, all not selected, both sorted |
| CompetenceSelection.SelectKeepsSplit | frontend/src/views/RecommendationsMetiers/CompetenceSelector.tsx:26-29 | select keeps both sets sorted and disjoint; the union gains only c, and c ends up selected |
| CompetenceSelection.DeselectKeepsSplit | frontend/src/views/RecommendationsMetiers/CompetenceSelector.tsx:31-34 | deselect keeps both sets sorted and disjoint; the union gains only c, and c ends up not selected |
| CompetenceSelection.SelectThenDeselect | frontend/src/views/RecommendationsMetiers/CompetenceSelector.tsx:26-34 | selecting then deselecting an unselected competence restores both sets |
| CompetenceSelection.CompetenceSelector.constructor | frontend/src/views/RecommendationsMetiers/CompetenceSelector.tsx:13-16 | both sets undefined and the filter empty |
| CompetenceSelection.CompetenceSelector.Loaded | frontend/src/views/RecommendationsMetiers/CompetenceSelector.tsx:18-24 | with both sets undefined and the competences loaded: selected empty, not selected the sorted competences; otherwise nothing changes |
| CompetenceSelection.CompetenceSelector.Select | frontend/src/views/RecommendationsMetiers/CompetenceSelector.tsx:26-29 | c added to selected and re-sorted, deleted from not selected; an undefined set stays undefined |
| CompetenceSelection.CompetenceSelector.Deselect | frontend/src/views/RecommendationsMetiers/CompetenceSelector.tsx:31-34 | c deleted from selected, added to not selected and re-sorted; an undefined set stays undefined |
| CompetenceSelection.CompetenceSelector.SetFilter | frontend/src/views/RecommendationsMetiers/CompetenceSelector.tsx:47 | the filter changes, the sets do not |
| BackendService.ClassifyParam | frontend/src/services/backend.ts:8-33 | a primitive is Query with the same value; an object without `toJSON` is Body with itself; an object with `toJSON` is classified by its result |
| BackendService.SplitParams | frontend/src/services/backend.ts:46-64 | every parameter lands in one list; query values are primitives, body values objects |
| BackendService.QueryParamsAppend | frontend/src/services/backend.ts:46-64 | both filters distribute over concatenation |
| BackendService.SplitIsFilters | frontend/src/services/backend.ts:46-64 | the `reduce` equals the order-preserving query and body filters |
| BackendService.SetFirstDropRest | frontend/src/services/backend.ts:67 | entries of other names are kept; the name occurs once afterwards, holding the value, and none while dropping |
| BackendService.SetFirstDropRestOthers | frontend/src/services/backend.ts:67 | the entries of other names keep their order and repetitions |
| BackendService.SetFirstDropRestPosition | frontend/src/services/backend.ts:67 | the entries before the first one of the name are untouched and the value lands at that entry's position |
| BackendService.SetEntry | frontend/src/services/backend.ts:67 | `searchParams.set`: the name then occurs once, with the value; the entries of other names keep their order and repetitions; an existing name's first entry takes the value in place with everything before it untouched; a new name is appended |
| BackendService.RequestUrl.constructor | frontend/src/services/backend.ts:39 | a URL without search parameters |
| BackendService.RequestUrl.Set | frontend/src/services/backend.ts:67 | the search parameters after setting one entry |
| BackendService.SetQueryParams | frontend/src/services/backend.ts:66-68 | the `forEach` loop sets every query parameter in turn |
| BackendService.SetAllDistinct | frontend/src/services/backend.ts:66-68 | with distinct names, a fresh URL ends with one entry per query parameter, in order, holding its string |
| BackendService.BodyPayload | frontend/src/services/backend.ts:70-84 | nothing for no body parameter, the lone value for one, an object keyed by name for several |
| BackendService.RequestFor | frontend/src/services/backend.ts:86-91 | POST with the JSON content type iff some body parameter exists, carrying the body payload |
| BackendService.PostIffObjectParam | frontend/src/services/backend.ts:8-33 | a request is POST iff some parameter is an object whose `toJSON` is missing or gives an object |
| BackendService.NetworkFailure | frontend/src/services/backend.ts:111-115 | a TypeError is wrapped in a NetworkError with the composed message; anything else is thrown again unchanged |
| BackendService.ContentOrHttpError | frontend/src/services/backend.ts:127-143 | an ok response settles as reading its body does (the content, or the rejection such as a SyntaxError); any other response gives an HttpError with the composed message |
| BackendService.Fetched | frontend/src/services/backend.ts:95-99 | content iff the fetch succeeded with an ok response whose body reads; a TypeError becomes a NetworkError and other rejections pass unchanged; a non-ok response gives an HttpError; a body rejection passes through unchanged |

## Left out

- Input and output are not modelled. That covers downloading sheets, reading and writing CSV files, the graph-database driver and its queries, the HTTP server and React rendering. Their results are inputs of the modelled functions: the query results, the loaded tables and the fetch outcome.
- The centrality measure is a function parameter. It stands for the networkx callable.
- Connected components, `kamada_kawai_layout` and the floating-point layout positions are not modelled. The layouts that `MergeLayouts` merges are inputs.
- The job accessibility scores are inputs: exact reals standing for the cosine sums. The square-root norms, `skill_contribution`, `skill_gap` and everything after the diagonal mask in `skill_accessibility` are not modelled.
- Floating point is not modelled. Scores and weights are exact reals, so no rounding happens.
- `datetime.today()` is the parameter `today`. Times of day are not modelled: a date difference is a whole number of days.
- Dates are limited to years 1..9998, the range where the successor of December 31 still exists. The pandas timestamp range is not modelled.
- JavaScript numbers are integers in this model; non-integral and special numbers are not modelled.
- `JSON.stringify` text is not modelled. The body is the value that would be serialised, and the HTTP error message takes the headers' JSON as an input string.
- JSON parsing of a response body is not modelled. How `response.json()` or `response.text()` settles (the content, or a rejection such as a SyntaxError) is part of the response given to the model.
- Object key order is the order of the given entries.
- JavaScript `<` on strings compares UTF-16 code units; the model compares characters in sequence.
- `value_counts` orders counts by frequency. `DataChecks.DuplicateValues` and `DataChecks.DuplicateCounts` list the repeated values in order of first occurrence instead, so the set and the counts are exact, but the listing order is not.
- Path normalisation of `pathlib` beyond dropping the trailing separator of the cache directory is not modelled.
- `etl/src/oplc_etl/check.py` never imports pandas, so importing it fails with a NameError. The model gives the check the logic the script evidently intends, which is that of `etl/src/oplc_etl/pipelines.py`.
- `load_*`, `pull_source`, `get_data`, `mk_individual_experiences` and the other loaders are I/O and out of scope.
- Ranking.SortDesc: tie order is not the pandas quicksort order. Contracts state only a descending permutation, which is all the source promises.
- CoreCount.Experiences: the (name, type) correspondence is stated only for text labels; a numeric label has no string form in the record.
- ExperienceSelection.ExperienceSelector.Select: presence of the id in the not-selected list is not required, because the source does not check it. The partition lemmas assume it, and `ExperienceSelection.RemoveFirstAbsent` states what happens without it: the last entry is dropped.
- CompetenceSelection.SelectKeepsSplit: the union of the two sets gains the competence moved when it was in neither set, so the union is preserved only when the competence was listed.
