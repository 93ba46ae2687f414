/**
  Concrete inputs on which the program does less than one would expect: a repository that
  is rewritten to a name the resolver refuses, file names that packing changes, a chart
  that outgrows the limits when it is rewritten, and a chart whose place another takes.
*/
module Witnesses {
  import opened Wrappers
  import opened Bytes
  import Text
  import Names
  import A = TarArchive
  import T = TarPaths
  import D = DependencyRewrite
  import opened ChartRewrite

  /* ---- One host ---- */

  /** URLs of one host, as a URL library parses them. */
  function ParseUrl(s: string): Option<D.Url> {
    if "https://a.b" <= s && (|s| == 11 || s[11] == '/')
    then Some(D.Url("https", Some("a.b"), None, if |s| == 11 then "/" else s[11..]))
    else None
  }

  const URLS := D.Library(ParseUrl, (s: string) => false)

  lemma {:induction false} HostIsPublic()
    ensures Names.IsPublicHostname("a.b", URLS.isAddress) && Text.Lower("a.b") == "a.b"
  {
    hide Names.Split;
    assert Text.Lower("a.b") == "a.b";
    Names.SplitFirst("a", "b", '.');
    Names.SplitNone("b", '.');
    assert "a" + (['.'] + "b") == "a.b";
    var labels := Names.Split("a.b", '.');
    assert labels == ["a", "b"];
    assert !Text.IsDigit(labels[0][0]);
    assert !Names.IsNumericLabel(labels[0]);
  }

  lemma {:induction false} ParsesHost(rest: string)
    requires rest == "" || rest[0] == '/'
    ensures ParseUrl("https://a.b" + rest) == Some(D.Url("https", Some("a.b"), None, if rest == "" then "/" else rest))
  {
    var s := "https://a.b" + rest;
    assert s[11..] == rest;
  }

  lemma {:induction false} ParsesSegments(segments: seq<string>)
    ensures ParseUrl(D.HttpsUrl("a.b", segments)) == Some(D.Url("https", Some("a.b"), None, "/" + Names.Join(segments)))
  {
    hide ParseUrl;
    var path := "/" + Names.Join(segments);
    if segments == [] {
      ParsesHost("");
      assert D.HttpsUrl("a.b", segments) == "https://a.b" + "" && path == "/";
    } else {
      ParsesHost(path);
      assert D.HttpsUrl("a.b", segments) == "https://a.b" + path;
    }
  }

  lemma {:induction false} HostIsRewritable(rest: string)
    requires rest == "" || rest[0] == '/'
    ensures D.Rewritable("https://a.b" + rest, URLS)
    ensures D.NormalizeRepoKey("https://a.b" + rest, URLS) ==
            Some(D.KeyOf("a.b", Names.TrimSlashes(if rest == "" then "/" else rest)))
  {
    hide Names.IsPublicHostname, Names.TrimSlashes;
    HostIsPublic();
    ParsesHost(rest);
    var s := "https://a.b" + rest;
    assert s[0] == 'h' && "@"[0] != 'h' && "alias:"[0] != 'h' && "file:"[0] != 'h' && "oci://"[0] != 'h';
  }

  /* ---- A repository that does not resolve back ---- */

  const GAPPED := "https://a.b" + "/x//y"

  lemma {:induction false} GappedPath()
    ensures Names.TrimSlashes("/x//y") == "x//y" && !D.PathOk("x//y")
  {
    hide Names.Split, Names.TrimSlashes, Names.IsValidChartName;
    Names.TrimSlashesOf("x//y");
    assert ['/'] + "x//y" == "/x//y";
    Names.SplitFirst("x", "/y", '/');
    Names.SplitFirst("", "y", '/');
    Names.SplitNone("y", '/');
    assert "x" + (['/'] + "/y") == "x//y" && "" + (['/'] + "y") == "/y";
    assert Names.Split("x//y", '/')[1] == "";
    EmptyIsNoName();
  }

  lemma {:induction false} EmptyIsNoName()
    ensures !Names.IsValidChartName("")
  {
  }

  /** The URL library is as it should be on every repository of the host. */
  lemma {:induction false} HostReparses(rest: string)
    requires rest == "" || rest[0] == '/'
    ensures D.Rewritable("https://a.b" + rest, URLS) && D.Reparses("https://a.b" + rest, URLS)
  {
    hide Names.IsPublicHostname, Names.TrimSlashes, D.Rewritable, D.HttpsUrl, Names.Segments, D.AllValidNames, ParseUrl, Text.Lower;
    HostIsPublic();
    HostIsRewritable(rest);
    ParsesHost(rest);
    ParsesSegments(Names.Segments(Names.TrimSlashes(if rest == "" then "/" else rest)));
  }

  /** The repository is rewritten, and no chart of the rewritten name resolves to it. */
  lemma {:induction false} GappedPathDoesNotResolve(chart: string, proxyHost: string)
    requires Names.IsValidChartName(chart)
    ensures var context := D.Context(proxyHost, map[]);
            var rewritten := D.RewriteDependencyUrl(GAPPED, context, URLS);
            && rewritten == Some(D.OciUrl(proxyHost, "a.b" + (['/'] + "x//y")))
            && var resolved := D.ResolveName(D.PulledName(rewritten.value, proxyHost, chart), map[], URLS);
               !D.ResolvesTo(resolved, D.NormalizeRepoKey(GAPPED, URLS).value, chart, URLS)
  {
    hide Names.IsPublicHostname, Names.TrimSlashes, Names.IsValidChartName, D.Reparses, D.ResolvesTo, D.ResolveName, D.Rewritable, D.PathOk, D.PulledName;
    HostReparses("/x//y");
    HostIsRewritable("/x//y");
    ParsesHost("/x//y");
    GappedPath();
    D.HostPathRoundTrip(GAPPED, chart, D.Context(proxyHost, map[]), map[], URLS);
  }

  /* ---- Names that packing changes ---- */

  /** Latin-1; what has no byte becomes a question mark. */
  function Encoded(s: string): Bytes {
    seq(|s|, i requires 0 <= i < |s| => if (s[i] as int) < 256 then s[i] as int else 63)
  }

  lemma {:induction false} EncodedReads(s: string)
    requires forall i | 0 <= i < |s| :: (s[i] as int) < 256
    ensures T.AsText(Encoded(s)) == s
  {
  }

  /** The tar writer, for paths that fit a header. */
  const STORE: A.Writer := (name: Bytes) => A.InHeader(Encoded(T.StoredPath(T.AsText(name))))

  lemma {:induction false} DottedPath(rest: string)
    ensures Names.Split("./" + rest, '/') == ["."] + Names.Split(rest, '/')
  {
    Names.SplitFirst(".", rest, '/');
    assert "." + (['/'] + rest) == "./" + rest;
  }

  lemma {:induction false} DottedIsNotPlain()
    ensures T.AsText(Encoded("./Chart.yaml")) == "./Chart.yaml" && !T.IsPlainPath("./Chart.yaml")
  {
    hide Names.Split;
    EncodedReads("./Chart.yaml");
    DottedPath("Chart.yaml");
    assert "./" + "Chart.yaml" == "./Chart.yaml";
    assert T.Body("./Chart.yaml") == "./Chart.yaml" && |"./Chart.yaml"| != |"."|;
    assert Names.Split("./Chart.yaml", '/')[0] == ".";
  }

  /**
    An archive made in the chart's own directory: `./Chart.yaml` is a root document that
    comes back under another name, whichever limits and however it is packed, as long as
    its name is put in a header piece by piece.
  */
  lemma {:induction false} DottedNameIsRespelled(data: Bytes, writer: A.Writer, limits: A.ArchiveLimits)
    requires T.RespellsName(writer, Encoded("./Chart.yaml")) && writer(Encoded("./Chart.yaml")).InHeader?
    ensures var f := A.TgzFile(Encoded("./Chart.yaml"), data, 420, 0);
            A.Unpack(A.AsItems(A.Packed([f], writer)), limits) != Ok([f])
  {
    hide A.Unpack, A.Packed, A.FitsFrom, A.PackedCharges, T.IsPlainPath, T.RespellsName;
    var name := Encoded("./Chart.yaml");
    DottedIsNotPlain();
    var files := [A.TgzFile(name, data, 420, 0)];
    assert files[0].name == name;
    T.PackRoundTripOfPaths(files, writer, limits);
  }

  /* ---- Charts ---- */

  const REPO := "https://a.b"
  const REWRITTEN := "oci://proxy/a.b"

  const HEAD := "apiVersion: v2\nname: "
  const MIDDLE := "\ndescription: "
  const REST := "\nversion: 1.0.0\ndependencies:\n- name: dep\n  version: 1.0.0\n  repository: "

  /** A long description, which compresses to next to nothing. */
  function Letters(n: nat): (s: string)
    ensures |s| == n
  {
    seq(n, i requires 0 <= i < n => 'a')
  }

  const DESCRIPTION: string := Letters(999_876)

  /** A `Chart.yaml` with one dependency. */
  function ChartText(name: string, repo: string): Bytes {
    Encoded(HEAD + name + MIDDLE + DESCRIPTION + REST + repo + "\n")
  }

  function Field(key: string, text: string): D.Pair {
    D.Pair(D.Yaml.Text(key), D.Yaml.Text(text))
  }

  function DepOf(repo: string): D.Yaml {
    D.Mapping([Field("name", "dep"), Field("version", "1.0.0"), Field("repository", repo)])
  }

  /** The document in it. */
  function ChartOf(name: string, repo: string): D.Yaml {
    D.Mapping([Field("apiVersion", "v2"), Field("name", name), Field("description", DESCRIPTION), Field("version", "1.0.0"),
               D.Pair(D.Yaml.Text(DEPENDENCIES), D.Sequence([DepOf(repo)]))])
  }

  /** A YAML library, as far as two charts and their rewritten forms go. */
  const YAML := YamlLibrary(ReadYaml, WriteYaml)

  function ReadYaml(data: Bytes): Option<D.Yaml> {
    if data == ChartText("demo", REPO) then Some(ChartOf("demo", REPO))
    else if data == ChartText("demo", REWRITTEN) then Some(ChartOf("demo", REWRITTEN))
    else if data == ChartText("other", REPO) then Some(ChartOf("other", REPO))
    else if data == ChartText("other", REWRITTEN) then Some(ChartOf("other", REWRITTEN))
    else None
  }

  function WriteYaml(value: D.Yaml): Option<Bytes> {
    if value == ChartOf("demo", REPO) then Some(ChartText("demo", REPO))
    else if value == ChartOf("demo", REWRITTEN) then Some(ChartText("demo", REWRITTEN))
    else if value == ChartOf("other", REPO) then Some(ChartText("other", REPO))
    else if value == ChartOf("other", REWRITTEN) then Some(ChartText("other", REWRITTEN))
    else None
  }

  const CONTEXT := D.Context("proxy", map[])
  const SETUP := Setup(CONTEXT, URLS, YAML, STORE)

  lemma {:induction false} TextLength(name: string, repo: string)
    ensures |ChartText(name, repo)| == |HEAD| + |MIDDLE| + |REST| + 1 + |DESCRIPTION| + |name| + |repo|
    ensures |HEAD| + |MIDDLE| + |REST| + 1 == 109 && |DESCRIPTION| == 999_876
  {
  }

  lemma {:induction false} TextsDiffer()
    ensures |ChartText("demo", REPO)| == 1_000_000 && |ChartText("other", REPO)| == 1_000_001
    ensures |ChartText("demo", REWRITTEN)| == 1_000_004 && |ChartText("other", REWRITTEN)| == 1_000_005
  {
    hide ChartText;
    TextLength("demo", REPO);
    TextLength("other", REPO);
    TextLength("demo", REWRITTEN);
    TextLength("other", REWRITTEN);
  }

  lemma {:induction false} ChartDetermines(name: string, repo: string, other: string, to: string)
    requires ChartOf(name, repo) == ChartOf(other, to)
    ensures name == other && repo == to
  {
    var a, b := ChartOf(name, repo), ChartOf(other, to);
    assert a.pairs[1] == Field("name", name) && b.pairs[1] == Field("name", other);
    assert a.pairs[4].value.items[0] == DepOf(repo) && b.pairs[4].value.items[0] == DepOf(to);
    assert DepOf(repo).pairs[2] == Field("repository", repo) && DepOf(to).pairs[2] == Field("repository", to);
  }

  /** What a text holds, and nothing else holds it. */
  lemma {:induction false} YamlReads(name: string, repo: string)
    requires (name == "demo" || name == "other") && (repo == REPO || repo == REWRITTEN)
    ensures ReadYaml(ChartText(name, repo)) == Some(ChartOf(name, repo))
    ensures WriteYaml(ChartOf(name, repo)) == Some(ChartText(name, repo))
  {
    hide ChartText, ChartOf;
    TextsDiffer();
    if ChartOf(name, repo) == ChartOf("demo", REPO) { ChartDetermines(name, repo, "demo", REPO); }
    if ChartOf(name, repo) == ChartOf("demo", REWRITTEN) { ChartDetermines(name, repo, "demo", REWRITTEN); }
    if ChartOf(name, repo) == ChartOf("other", REPO) { ChartDetermines(name, repo, "other", REPO); }
  }

  lemma {:induction false} DepKeys(repo: string)
    ensures D.RepositoryOf(DepOf(repo)) == Some(repo) && D.KeyIndex(DepOf(repo).pairs, "repository") == 2
  {
    assert |"name"| != |"repository"| && |"version"| != |"repository"|;
    D.KeyIndexIs(DepOf(repo).pairs, "repository", 2);
  }

  lemma {:induction false} DepIsRewritten()
    ensures D.RewriteDep(DepOf(REPO), CONTEXT, URLS) == DepOf(REWRITTEN) && DepOf(REPO) != DepOf(REWRITTEN)
  {
    hide D.Rewritable, Names.TrimSlashes, D.KeyIndex;
    assert "https://a.b" + "" == REPO;
    HostIsRewritable("");
    TrimsToNothing();
    assert D.OciUrl("proxy", "a.b") == REWRITTEN;
    assert |REPO| != |REWRITTEN|;
    DepKeys(REPO);
    DepKeys(REWRITTEN);
    var k := 2;
    assert DepOf(REPO).pairs[k := Field("repository", REWRITTEN)] == DepOf(REWRITTEN).pairs;
  }

  lemma {:induction false} TrimsToNothing()
    ensures Names.TrimSlashes("/") == ""
  {
    Names.TrimSlashesOf("");
    assert ['/'] + "" == "/";
  }

  lemma {:induction false} ChartKeys(name: string, repo: string)
    ensures D.KeyIndex(ChartOf(name, repo).pairs, DEPENDENCIES) == 4 && DepsOf(ChartOf(name, repo)) == [DepOf(repo)]
  {
    hide DepOf;
    assert |"apiVersion"| == 10 && |"name"| == 4 && |"description"| == 11 && |"version"| == 7 && |DEPENDENCIES| == 12;
    D.KeyIndexIs(ChartOf(name, repo).pairs, DEPENDENCIES, 4);
  }

  lemma {:induction false} ChartIsRewritten(name: string)
    ensures RewriteDocument(ChartOf(name, REPO), SETUP) == Some(ChartOf(name, REWRITTEN))
    ensures D.RewriteAll(DepsOf(ChartOf(name, REPO)), CONTEXT, URLS) != DepsOf(ChartOf(name, REPO))
  {
    hide D.RewriteDep, D.Log, DepOf, D.KeyIndex;
    DepIsRewritten();
    ChartKeys(name, REPO);
    var deps, after := [DepOf(REPO)], [DepOf(REWRITTEN)];
    assert D.RewriteAll(deps, CONTEXT, URLS) == after;
    assert deps[0] != after[0];
    LogTellsChanges(deps, SETUP);
    var k := 4;
    assert ChartOf(name, REPO).pairs[k := D.Pair(D.Yaml.Text(DEPENDENCIES), D.Sequence(after))] == ChartOf(name, REWRITTEN).pairs;
  }

  /** Both charts are edited to their rewritten texts, which read back. */
  lemma {:induction false} TextIsEdited(name: string)
    requires name == "demo" || name == "other"
    ensures EditOf(ChartText(name, REPO), SETUP) == Edited(ChartText(name, REWRITTEN))
    ensures ReprintsDocument(ChartText(name, REPO), SETUP) && DocumentHasRewrites(ChartText(name, REPO), SETUP)
  {
    hide ChartText, ChartOf, RewriteDocument, D.RewriteAll, DepsOf;
    YamlReads(name, REPO);
    YamlReads(name, REWRITTEN);
    ChartIsRewritten(name);
  }

  /* ---- Archives ---- */

  /** The tar writer without respelling, which is how the archives below come about. */
  const VERBATIM: A.Writer := (name: Bytes) => A.InHeader(name)

  function ArchiveOf(files: seq<A.TgzFile>): Archive {
    A.AsItems(A.Packed(files, VERBATIM))
  }

  lemma {:induction false} ArchiveReads(files: seq<A.TgzFile>, limits: A.ArchiveLimits)
    ensures A.Accepts(VERBATIM, files)
    ensures A.Unpack(ArchiveOf(files), limits) == Ok(files) <==> A.FitsFrom(A.PackedCharges(files, VERBATIM), 0, 0, limits)
  {
    hide A.Unpack, A.Packed, A.FitsFrom, A.PackedCharges;
    A.PackRoundTrip(files, VERBATIM, limits);
  }

  lemma {:induction false} ArchivePaths(files: seq<A.TgzFile>)
    requires NamesArePlain(files)
    ensures |A.Packed(files, VERBATIM)| == |files|
    ensures forall i | 0 <= i < |files| :: A.Packed(files, VERBATIM)[i].path == files[i].name
  {
    if files != [] {
      assert forall i | 0 <= i < |files| - 1 :: files[1..][i] == files[i + 1];
      ArchivePaths(files[1..]);
    }
  }

  lemma {:induction false} ArchiveIsPlain(files: seq<A.TgzFile>)
    requires NamesArePlain(files)
    ensures PlainPaths(ArchiveOf(files))
  {
    hide A.Packed, A.EndsInNul;
    ArchivePaths(files);
  }

  lemma {:induction false} OneFileCharges(f: A.TgzFile, writer: A.Writer, limits: A.ArchiveLimits)
    requires writer(f.name).InHeader?
    ensures A.FitsFrom(A.PackedCharges([f], writer), 0, 0, limits) <==>
            1 <= limits.maxFiles && |f.data| <= limits.maxFileBytes && |f.data| <= limits.maxExpandedBytes
  {
    assert [f][1..] == [];
    assert A.PackedCharges([f], writer) == [|f.data|];
    assert [|f.data|][1..] == [];
    assert [|f.data|][0] == |f.data|;
    assert A.Sum([|f.data|]) == |f.data|;
  }

  lemma {:induction false} TwoFileCharges(f: A.TgzFile, g: A.TgzFile, writer: A.Writer)
    requires writer(f.name).InHeader? && writer(g.name).InHeader? && |f.data| <= 2_000_000 && |g.data| <= 2_000_000
    ensures A.FitsFrom(A.PackedCharges([f, g], writer), 0, 0, A.UNBOUNDED)
  {
    assert [f, g][1..] == [g] && [g][1..] == [];
    var charges := A.PackedCharges([f, g], writer);
    assert A.PackedCharges([g], writer) == [|g.data|];
    assert charges == [|f.data|, |g.data|];
    assert charges[1..] == [|g.data|] && [|g.data|][1..] == [];
    assert A.Sum([|g.data|]) == |g.data|;
  }

  lemma {:induction false} StoresInHeader(name: Bytes)
    ensures STORE(name) == A.InHeader(Encoded(T.StoredPath(T.AsText(name))))
  {
  }

  /* ---- A chart that outgrows the limits ---- */

  const DEMO := A.TgzFile(Encoded("demo/Chart.yaml"), ChartText("demo", REPO), 420, 0)

  /** The limits for a configured expansion budget of a million bytes, and any smaller download cap. */
  const BUDGET: A.ArchiveLimits := A.Limits(1_000_000, 1_000_000, 10_000)

  lemma {:induction false} PathPieces(dir: string, file: string)
    requires Names.IsSegment(dir) && Names.IsSegment(file)
    ensures Names.Split(dir + (['/'] + file), '/') == [dir, file]
    ensures Names.Segments(dir + (['/'] + file)) == [dir, file]
  {
    Names.SplitFirst(dir, file, '/');
    Names.SplitNone(file, '/');
    Names.NonEmptyIs([dir, file]);
  }

  lemma {:induction false} DemoPath()
    ensures T.AsText(DEMO.name) == "demo/Chart.yaml" && Names.Segments("demo/Chart.yaml") == ["demo", CHART_YAML]
    ensures !A.EndsInNul(DEMO.name)
  {
    hide Names.Segments;
    EncodedReads("demo/Chart.yaml");
    assert "demo" + (['/'] + CHART_YAML) == "demo/Chart.yaml";
    PathPieces("demo", CHART_YAML);
  }

  lemma {:induction false} DemoIsRoot()
    ensures IsRootFile(DEMO.name, CHART_YAML) && !IsRootFile(DEMO.name, CHART_LOCK)
  {
    hide T.AsText, Encoded, Names.Segments;
    DemoPath();
    assert |"demo"| != |"charts"|;
    ChartIsNotLock(DEMO.name);
  }

  lemma {:induction false} DemoIsEdited()
    ensures EditedFiles([DEMO], SETUP) == [DEMO.(data := ChartText("demo", REWRITTEN))]
    ensures RootIndex([DEMO], CHART_YAML) == 0
  {
    hide EditOf, IsRootFile, RootIndex, ChartText, ReprintsDocument, DocumentHasRewrites;
    DemoIsRoot();
    TextIsEdited("demo");
    RootIndexIs([DEMO], CHART_YAML, 0);
    var once := [DEMO][0 := DEMO.(data := ChartText("demo", REWRITTEN))];
    RootIndexIs(once, CHART_LOCK, 1);
  }

  lemma {:induction false} DemoIsModified()
    ensures A.Unpack(ArchiveOf([DEMO]), BUDGET) == Ok([DEMO]) && Modifies(ArchiveOf([DEMO]), SETUP, BUDGET)
  {
    hide A.Unpack, A.Packed, EditOf, IsRootFile, ArchiveOf, DocumentHasRewrites, EditedFiles, ReprintsDocument, PackedArchive, D.Log, ChartText, RootIndex;
    TextsDiffer();
    OneFileCharges(DEMO, VERBATIM, BUDGET);
    ArchiveReads([DEMO], BUDGET);
    TextIsEdited("demo");
    DemoIsEdited();
  }

  lemma {:induction false} DemoOutgrows()
    ensures !RewrittenFits([DEMO], SETUP, BUDGET)
  {
    hide A.FitsFrom, A.PackedCharges, ChartText, STORE, EditedFiles, RootIndex;
    DemoIsEdited();
    TextsDiffer();
    StoresInHeader(DEMO.name);
    OneFileCharges(DEMO.(data := ChartText("demo", REWRITTEN)), STORE, BUDGET);
  }

  /**
    Fitting the limits is not enough: the archive unpacks under the configured limits and
    is rewritten under them, and its build then fails because the rewritten repository is
    four bytes longer.
  */
  lemma {:induction false} RewriteCanOutgrowLimits(json: D.Yaml -> Option<Bytes>)
    ensures A.Unpack(ArchiveOf([DEMO]), BUDGET) == Ok([DEMO]) && Modifies(ArchiveOf([DEMO]), SETUP, BUDGET)
    ensures LayerAndConfig(ArchiveOf([DEMO]), SETUP, json, BUDGET).Err?
  {
    hide *;
    DemoIsModified();
    DemoOutgrows();
    FilesInAre(ArchiveOf([DEMO]), BUDGET);
    ConfigIsOfLayer(ArchiveOf([DEMO]), SETUP, json, BUDGET);
  }

  /* ---- A chart whose place another takes ---- */

  /** No root document: it is two directories down, one of them a dot. */
  const OTHER := A.TgzFile(Encoded("./other/Chart.yaml"), ChartText("other", REPO), 420, 0)

  const PAIR := [OTHER, DEMO]

  lemma {:induction false} OtherPath()
    ensures T.AsText(OTHER.name) == "./other/Chart.yaml" && !A.EndsInNul(OTHER.name)
    ensures Names.Segments("./other/Chart.yaml") == [".", "other", CHART_YAML]
    ensures T.NoDots([".", "other", CHART_YAML]) == ["other", CHART_YAML]
  {
    hide Names.Split;
    EncodedReads("./other/Chart.yaml");
    DottedPath("other/Chart.yaml");
    assert "./" + "other/Chart.yaml" == "./other/Chart.yaml";
    assert "other" + (['/'] + CHART_YAML) == "other/Chart.yaml";
    PathPieces("other", CHART_YAML);
    Names.NonEmptyIs([".", "other", CHART_YAML]);
    assert T.NoDots([".", "other", CHART_YAML]) == T.NoDots(["other", CHART_YAML]);
    assert |"other"| != |"."| && |CHART_YAML| != |"."|;
    T.NoDotsIs(["other", CHART_YAML]);
  }

  lemma {:induction false} OtherSurfaces()
    ensures SurfacesAsChart(STORE, OTHER.name)
    ensures !IsRootFile(OTHER.name, CHART_YAML) && !IsRootFile(OTHER.name, CHART_LOCK)
  {
    hide T.AsText, Encoded, Names.Segments, T.NoDots;
    OtherPath();
    StoresInHeader(OTHER.name);
    assert |"other"| != |"charts"|;
  }

  /** Paths of plain characters are stored under their spelling. */
  lemma {:induction false} StoresSpelling(name: Bytes, stored: string)
    requires T.StoredPath(T.AsText(name)) == stored && forall i | 0 <= i < |stored| :: (stored[i] as int) < 256
    ensures T.RespellsName(STORE, name)
  {
    hide T.StoredPath;
    StoresInHeader(name);
    EncodedReads(stored);
  }

  lemma {:induction false} OtherIsStored()
    ensures T.StoredPath("./other/Chart.yaml") == "other/Chart.yaml"
  {
    hide T.AsText, Encoded, Names.Segments, T.NoDots;
    OtherPath();
    assert T.Body("./other/Chart.yaml") == "./other/Chart.yaml";
    assert Names.Join(["other", CHART_YAML]) == "other" + (['/'] + CHART_YAML);
    assert "other" + (['/'] + CHART_YAML) == "other/Chart.yaml";
  }

  lemma {:induction false} DemoIsStored()
    ensures T.StoredPath("demo/Chart.yaml") == "demo/Chart.yaml"
  {
    hide T.AsText, Encoded, Names.Segments;
    DemoPath();
    T.NoDotsIs(["demo", CHART_YAML]);
    assert |"demo"| != |"."| && |CHART_YAML| != |"."|;
    assert T.Body("demo/Chart.yaml") == "demo/Chart.yaml";
    assert Names.Join(["demo", CHART_YAML]) == "demo" + (['/'] + CHART_YAML);
    assert "demo" + (['/'] + CHART_YAML) == "demo/Chart.yaml";
  }

  lemma {:induction false} PairIsStored()
    ensures T.Respells(STORE, PAIR) && NamesArePlain(PAIR)
  {
    hide T.StoredPath, T.AsText, T.RespellsName, Encoded, A.EndsInNul, Names.Segments, T.NoDots, STORE;
    OtherPath();
    DemoPath();
    OtherIsStored();
    DemoIsStored();
    StoresSpelling(OTHER.name, "other/Chart.yaml");
    StoresSpelling(DEMO.name, "demo/Chart.yaml");
  }

  lemma {:induction false} PairParts()
    ensures PAIR == [OTHER, DEMO] && OTHER.data == ChartText("other", REPO) && DEMO.data == ChartText("demo", REPO)
  {
  }

  lemma {:induction false} RootsOfTwo(f: A.TgzFile, g: A.TgzFile)
    requires !IsRootFile(f.name, CHART_YAML) && !IsRootFile(f.name, CHART_LOCK) && SurfacesAsChart(STORE, f.name)
    requires IsRootFile(g.name, CHART_YAML) && !IsRootFile(g.name, CHART_LOCK)
    ensures RootIndex([f, g], CHART_YAML) == 1 && RootIndex([f, g], CHART_LOCK) == 2 && LayerChart([f, g], STORE) == 0
  {
    hide IsRootFile, RootIndex, SurfacesAsChart, STORE, CHART_YAML, CHART_LOCK;
    RootIndexIs([f, g], CHART_YAML, 1);
    RootIndexIs([f, g], CHART_LOCK, 2);
  }

  lemma {:induction false} PairRoots()
    ensures RootIndex(PAIR, CHART_YAML) == 1 && RootIndex(PAIR, CHART_LOCK) == 2 && LayerChart(PAIR, STORE) == 0
  {
    hide *;
    PairParts();
    OtherSurfaces();
    DemoIsRoot();
    RootsOfTwo(OTHER, DEMO);
  }

  lemma {:induction false} SecondIsEdited(f: A.TgzFile, g: A.TgzFile, data: Bytes)
    requires RootIndex([f, g], CHART_YAML) == 1 && RootIndex([f, g], CHART_LOCK) == 2 && EditOf(g.data, SETUP) == Edited(data)
    ensures EditedFiles([f, g], SETUP) == [f, g.(data := data)]
  {
    hide EditOf, IsRootFile, RootIndex, SETUP;
    var once := [f, g.(data := data)];
    assert [f, g][1 := g.(data := data)] == once;
    assert AllSameButData([f, g], once);
    RootIndexStays([f, g], once, CHART_LOCK);
  }

  lemma {:induction false} ReprintsTwo(f: A.TgzFile, g: A.TgzFile)
    requires ReprintsDocument(f.data, SETUP) && ReprintsDocument(g.data, SETUP)
    ensures Reprints([f, g], SETUP)
  {
    hide ReprintsDocument, SETUP;
  }

  lemma {:induction false} PairIsEdited()
    ensures EditedFiles(PAIR, SETUP) == [OTHER, DEMO.(data := ChartText("demo", REWRITTEN))]
    ensures Reprints(PAIR, SETUP)
  {
    hide *;
    PairParts();
    PairRoots();
    TextIsEdited("demo");
    TextIsEdited("other");
    SecondIsEdited(OTHER, DEMO, ChartText("demo", REWRITTEN));
    ReprintsTwo(OTHER, DEMO);
  }

  lemma {:induction false} PairReads()
    ensures A.Unpack(ArchiveOf(PAIR), A.UNBOUNDED) == Ok(PAIR)
  {
    hide A.Unpack, A.FitsFrom, A.PackedCharges, ArchiveOf, ChartText, Encoded;
    TextsDiffer();
    TwoFileCharges(OTHER, DEMO, VERBATIM);
    ArchiveReads(PAIR, A.UNBOUNDED);
  }

  lemma {:induction false} StoreAccepts(files: seq<A.TgzFile>)
    ensures A.Accepts(STORE, files)
  {
  }

  lemma {:induction false} PairFits()
    ensures RewrittenFits(PAIR, SETUP, A.UNBOUNDED)
  {
    hide A.FitsFrom, A.PackedCharges, EditedFiles, ChartText, STORE, Encoded, T.StoredPath, T.AsText, PAIR;
    PairIsEdited();
    TextsDiffer();
    StoreAccepts(EditedFiles(PAIR, SETUP));
    StoresInHeader(OTHER.name);
    StoresInHeader(DEMO.name);
    SetupParts();
    TwoFileCharges(OTHER, DEMO.(data := ChartText("demo", REWRITTEN)), STORE);
  }

  lemma {:induction false} PairIsModified()
    ensures Modifies(ArchiveOf(PAIR), SETUP, A.UNBOUNDED)
  {
    hide *;
    PairParts();
    PairReads();
    PairRoots();
    TextIsEdited("demo");
    StoreAccepts(EditedFiles(PAIR, SETUP));
    SetupParts();
    ModifiesWhenEdited(ArchiveOf(PAIR), PAIR, SETUP, A.UNBOUNDED);
  }

  lemma {:induction false} PairIsOvertaken()
    ensures ChartIsOvertaken(PAIR, STORE) && DocumentHasRewrites(PAIR[0].data, SETUP)
    ensures SETUP.yaml.parse(PAIR[0].data) == Some(ChartOf("other", REPO))
  {
    hide RootIndex, LayerChart, DocumentHasRewrites, EditOf, ReprintsDocument, ChartText, ChartOf;
    PairRoots();
    TextIsEdited("other");
    YamlReads("other", REPO);
  }

  lemma {:induction false} OtherConfig(json: D.Yaml -> Option<Bytes>)
    ensures var config := json(ChartOf("other", REPO));
            ConfigFrom(Some(ChartOf("other", REPO)), json) == if config.Some? then Ok(config.value) else Err(A.InvalidChart)
  {
  }

  /**
    Another chart takes the place of the one that was rewritten. Both the archive and its
    rewritten form fit; still the config is the other chart's, which was never rewritten,
    and rewriting once more does not leave the layer alone.
  */
  lemma {:induction false} OtherChartTakesOver(json: D.Yaml -> Option<Bytes>)
    ensures A.Unpack(ArchiveOf(PAIR), A.UNBOUNDED) == Ok(PAIR) && Modifies(ArchiveOf(PAIR), SETUP, A.UNBOUNDED)
    ensures var layer := RewriteChart(ArchiveOf(PAIR), SETUP, A.UNBOUNDED).value.archive;
            var built, config := LayerAndConfig(ArchiveOf(PAIR), SETUP, json, A.UNBOUNDED), json(ChartOf("other", REPO));
            && RewriteChart(layer, SETUP, A.UNBOUNDED) != Unmodified(layer)
            && (built.Ok? <==> config.Some?) && (built.Ok? ==> built.value == (layer, config.value))
  {
    hide *;
    var archive := ArchiveOf(PAIR);
    PairReads();
    PairFits();
    PairIsModified();
    FilesInAre(archive, A.UNBOUNDED);
    PairIsEdited();
    PairIsStored();
    ArchiveIsPlain(PAIR);
    PairRoots();
    PairIsOvertaken();
    OtherConfig(json);
    SetupParts();
    RewriteSettles(archive, SETUP, A.UNBOUNDED, A.UNBOUNDED);
    ModifiedResult(archive, SETUP, A.UNBOUNDED);
    EditsAreContained(PAIR, SETUP);
    LayerDocumentIs(PAIR, SETUP);
    ConfigIsOfLayer(archive, SETUP, json, A.UNBOUNDED);
  }

  lemma {:induction false} SetupParts()
    ensures SETUP.writer == STORE && SETUP.context.proxyHost != ""
  {
  }
}
