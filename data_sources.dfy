/** Where a data piece comes from and where it is kept: a data source is a
    local CSV file or a Google Docs spreadsheet (key and sheet gid); the
    spreadsheet is fetched from its CSV export URL; pulled pieces are kept
    under a fixed cache directory, one sub-directory per kind of piece. */
module DataSources {
  import opened Util

  /** A data source, also the backend's `DataSet` union (whose local case is
      named `LocalCsv` there). Equality is field-wise. */
  datatype DataSource =
    | LocalSourceCsv(name: string, path: string)
    | GoogleDocsCsv(name: string, key: string, gid: string)

  /** The two kinds of data pieces. */
  datatype PieceKind = ExperiencesSkills | JobsSkills

  function KindName(k: PieceKind): (s: string)
    ensures s == "experiences_skills" || s == "jobs_skills"
    ensures s == "experiences_skills" <==> k == ExperiencesSkills
  {
    match k
    case ExperiencesSkills => "experiences_skills"
    case JobsSkills => "jobs_skills"
  }

  /** The cache directory (a path does not keep the trailing separator). */
  const CacheDir: string := "/tmp/diagoriente-oplc/cache/data_set"

  /** `dir / name` for a plain file or directory name. */
  function Join(dir: string, name: string): string
  {
    dir + "/" + name
  }

  function LocalCsvDir(k: PieceKind): string
  {
    Join(Join(CacheDir, "local_csv"), KindName(k))
  }

  function LocalCsvPath(k: PieceKind): string
  {
    Join(LocalCsvDir(k), "content.csv")
  }

  function LocalCsvPathMeta(k: PieceKind): string
  {
    Join(LocalCsvDir(k), "meta.json")
  }

  /** The local paths are fixed by the kind alone: the two kinds never share a
      file, and the content and meta files never coincide. */
  lemma LocalPathsSeparate(k1: PieceKind, k2: PieceKind)
    ensures LocalCsvPath(k1) == LocalCsvPath(k2) <==> k1 == k2
    ensures LocalCsvPathMeta(k1) == LocalCsvPathMeta(k2) <==> k1 == k2
    ensures LocalCsvPath(k1) != LocalCsvPathMeta(k2)
  {
    assert |CacheDir| == 36;
    assert |LocalCsvPath(ExperiencesSkills)| == 77 && |LocalCsvPathMeta(ExperiencesSkills)| == 75;
    assert |LocalCsvPath(JobsSkills)| == 70 && |LocalCsvPathMeta(JobsSkills)| == 68;
  }

  const ExportPrefix: string := "https://docs.google.com/spreadsheets/d/"
  const ExportMiddle: string := "/export?gid="
  const ExportSuffix: string := "&format=csv"

  /** `GoogleDocsCsv.url`: the CSV export URL of a sheet, built from its key
      and gid only (the source's name plays no part). */
  function Url(key: string, gid: string): (u: string)
    ensures u == ExportPrefix + key + ExportMiddle + gid + ExportSuffix
  {
    ExportPrefix + key + "/export?gid=" + gid + "&format=csv"
  }

  /** `GoogleDocsCsv.cache_path`: the cached copy of a sheet, named after its
      key and gid only. */
  function CachePath(key: string, gid: string): (p: string)
    ensures p == CacheDir + "/google_sheet_" + key + "_" + gid + ".csv"
  {
    Join(CacheDir, "google_sheet_" + key + "_" + gid + ".csv")
  }

  /** Two words split at their first separator: the parts before it match. */
  lemma SplitAtFirst(a1: string, b1: string, a2: string, b2: string, sep: char)
    requires sep !in a1 && sep !in a2
    requires a1 + [sep] + b1 == a2 + [sep] + b2
    ensures a1 == a2 && b1 == b2
  {
    var w1, w2 := a1 + [sep] + b1, a2 + [sep] + b2;
    assert w1[|a1|] == sep && w2[|a2|] == sep;
    assert forall i :: 0 <= i < |a1| ==> w1[i] == a1[i] && a1[i] != sep;
    assert forall i :: 0 <= i < |a2| ==> w2[i] == a2[i] && a2[i] != sep;
    if |a1| < |a2| {
      assert false;
    } else if |a2| < |a1| {
      assert false;
    }
    assert a1 == w1[..|a1|] && a2 == w2[..|a2|];
    assert b1 == w1[|a1| + 1..] && b2 == w2[|a2| + 1..];
  }

  lemma SeparatorPlaces(a: string, sep: char, b: string)
    ensures (a + [sep] + b)[|a|] == sep
    ensures forall i :: 0 <= i < |b| ==> (a + [sep] + b)[|a| + 1 + i] == b[i]
  {
  }

  /** Two words split at their last separator: the parts after it match. */
  lemma SplitAtLast(a1: string, b1: string, a2: string, b2: string, sep: char)
    requires sep !in b1 && sep !in b2
    requires a1 + [sep] + b1 == a2 + [sep] + b2
    ensures a1 == a2 && b1 == b2
  {
    var w1, w2 := a1 + [sep] + b1, a2 + [sep] + b2;
    SeparatorPlaces(a1, sep, b1);
    SeparatorPlaces(a2, sep, b2);
    if |b1| < |b2| {
      assert false;
    } else if |b2| < |b1| {
      assert false;
    }
    assert a1 == w1[..|a1|] && a2 == w2[..|a2|];
    assert b1 == w1[|a1| + 1..] && b2 == w2[|a2| + 1..];
  }

  lemma StripAround(p: string, x: string, y: string, s: string)
    requires p + x + s == p + y + s
    ensures x == y
  {
    var w := p + x + s;
    assert |x| == |y|;
    assert x == w[|p|..|p| + |x|];
    assert y == (p + y + s)[|p|..|p| + |y|];
  }

  /** Two words built as prefix, key, middle, gid, suffix are equal only
      for equal keys and gids, when the middle starts with a separator that
      no key contains. */
  lemma FrameInjective(p: string, m: string, s: string, k1: string, g1: string, k2: string, g2: string, sep: char)
    requires m != [] && m[0] == sep && sep !in k1 && sep !in k2
    requires p + k1 + m + g1 + s == p + k2 + m + g2 + s
    ensures k1 == k2 && g1 == g2
  {
    var rest := m[1..];
    var t1, t2 := rest + g1, rest + g2;
    assert m == [sep] + rest;
    assert p + k1 + m + g1 + s == p + (k1 + [sep] + t1) + s;
    assert p + k2 + m + g2 + s == p + (k2 + [sep] + t2) + s;
    StripAround(p, k1 + [sep] + t1, k2 + [sep] + t2, s);
    SplitAtFirst(k1, t1, k2, t2, sep);
    assert g1 == t1[|rest|..] && g2 == t2[|rest|..];
  }

  /** Distinct sheets have distinct URLs, keys being free of '/'. */
  lemma UrlInjective(k1: string, g1: string, k2: string, g2: string)
    requires '/' !in k1 && '/' !in k2
    requires Url(k1, g1) == Url(k2, g2)
    ensures k1 == k2 && g1 == g2
  {
    assert ExportMiddle[0] == '/';
    FrameInjective(ExportPrefix, ExportMiddle, ExportSuffix, k1, g1, k2, g2, '/');
  }

  /** Distinct sheets have distinct cache files when gids hold no '_'. */
  lemma CachePathInjective(k1: string, g1: string, k2: string, g2: string)
    requires '_' !in g1 && '_' !in g2
    requires CachePath(k1, g1) == CachePath(k2, g2)
    ensures k1 == k2 && g1 == g2
  {
    var pre := CacheDir + "/google_sheet_";
    assert pre + (k1 + ['_'] + g1) + ".csv" == CachePath(k1, g1);
    assert pre + (k2 + ['_'] + g2) + ".csv" == CachePath(k2, g2);
    StripAround(pre, k1 + ['_'] + g1, k2 + ['_'] + g2, ".csv");
    SplitAtLast(k1, g1, k2, g2, '_');
  }

  /** With an '_' in the gid two different sheets share one cache file. */
  lemma CachePathCollision()
    ensures CachePath("a", "b_c") == CachePath("a_b", "c")
  {
  }

  /** Reading a definition field: the missing field is a KeyError. */
  datatype DefError = MissingField(field: string)

  function Field(def: map<string, string>, f: string): (r: Result<string, DefError>)
    ensures r.Ok? <==> f in def
    ensures r.Ok? ==> r.value == def[f]
    ensures r.Err? ==> r.error == MissingField(f)
  {
    if f in def then Ok(def[f]) else Err(MissingField(f))
  }

  const GoogleDocsType: string := "google docs"

  /** `data_source_from_def`: type "google docs" gives a spreadsheet source
      read from "name", "key", "gid" in that order; any other type gives a
      local source read from "name" and "path". */
  function DataSourceFromDef(def: map<string, string>): (r: Result<DataSource, DefError>)
    ensures r.Ok? <==> ("type" in def && "name" in def &&
      if def["type"] == GoogleDocsType then "key" in def && "gid" in def else "path" in def)
    ensures "type" !in def ==> r == Err(MissingField("type"))
    ensures r.Ok? && def["type"] == GoogleDocsType ==>
      r.value == GoogleDocsCsv(def["name"], def["key"], def["gid"])
    ensures r.Ok? && def["type"] != GoogleDocsType ==> r.value == LocalSourceCsv(def["name"], def["path"])
    ensures r.Err? && "type" in def && "name" !in def ==> r.error == MissingField("name")
  {
    match Field(def, "type")
    case Err(e) => Err(e)
    case Ok(t) =>
      if t == GoogleDocsType then
        match Field(def, "name")
        case Err(e) => Err(e)
        case Ok(n) =>
          match Field(def, "key")
          case Err(e) => Err(e)
          case Ok(k) =>
            match Field(def, "gid")
            case Err(e) => Err(e)
            case Ok(g) => Ok(GoogleDocsCsv(n, k, g))
      else
        match Field(def, "name")
        case Err(e) => Err(e)
        case Ok(n) =>
          match Field(def, "path")
          case Err(e) => Err(e)
          case Ok(p) => Ok(LocalSourceCsv(n, p))
  }

  /** A definition written out from a source, with any local type name. */
  function DefOf(ds: DataSource, localType: string): map<string, string>
  {
    match ds
    case GoogleDocsCsv(n, k, g) => map["type" := GoogleDocsType, "name" := n, "key" := k, "gid" := g]
    case LocalSourceCsv(n, p) => map["type" := localType, "name" := n, "path" := p]
  }

  /** Every source is recovered from its definition. */
  lemma DataSourceRoundTrip(ds: DataSource, localType: string)
    requires localType != GoogleDocsType
    ensures DataSourceFromDef(DefOf(ds, localType)) == Ok(ds)
  {
  }

  const ExperiencesSkillsDef: map<string, string> := map[
    "type" := "google docs",
    "name" := "Base de données proto orientation par les compétences - Expériences",
    "key" := "1PCLOHAE0yXt_tghVlV44ZTt7ZzEUV-f3COrKEMbLamc",
    "gid" := "0"]

  const JobsSkillsDef: map<string, string> := map[
    "type" := "google docs",
    "name" := "Base de données proto orientation par les compétences - Métiers",
    "key" := "1PCLOHAE0yXt_tghVlV44ZTt7ZzEUV-f3COrKEMbLamc",
    "gid" := "1032477800"]

  /** The configured sources are two sheets of one spreadsheet, with
      distinct export URLs and cache files. */
  lemma ConfiguredSources()
    ensures DataSourceFromDef(ExperiencesSkillsDef).Ok? && DataSourceFromDef(JobsSkillsDef).Ok?
    ensures var e, j := DataSourceFromDef(ExperiencesSkillsDef).value, DataSourceFromDef(JobsSkillsDef).value;
      && e.GoogleDocsCsv? && j.GoogleDocsCsv? && e.key == j.key
      && Url(e.key, e.gid) != Url(j.key, j.gid) && CachePath(e.key, e.gid) != CachePath(j.key, j.gid)
  {
  }
}
