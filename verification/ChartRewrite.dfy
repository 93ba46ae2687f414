/**
  Rewriting the dependencies of a whole chart archive: unpack, edit the root documents,
  pack again; and reading the config of the archive that results.
*/
module ChartRewrite {
  import opened Wrappers
  import opened Bytes
  import Names
  import A = TarArchive
  import T = TarPaths
  import D = DependencyRewrite

  type Archive = seq<A.Item>

  /** The YAML library, UTF-8 decoding included; printing may fail. */
  datatype YamlLibrary = YamlLibrary(parse: Bytes -> Option<D.Yaml>, emit: D.Yaml -> Option<Bytes>)

  /** What the rewrite depends on besides the archive. */
  datatype Setup = Setup(context: D.Context, urls: D.Library, yaml: YamlLibrary, writer: A.Writer)

  /* ---- Root documents ---- */

  const CHART_YAML := "Chart.yaml"
  const CHART_LOCK := "Chart.lock"

  /** At the top or one directory down, but never a dependency below `charts`. */
  predicate IsRootPath(parts: seq<string>, basename: string) {
    || parts == [basename]
    || (|parts| == 2 && parts[1] == basename && parts[0] != "charts")
  }

  predicate IsRootFile(name: Bytes, basename: string) {
    IsRootPath(Names.Segments(T.AsText(name)), basename)
  }

  /** Position of the first root document of that name, or the number of files. */
  function RootIndex(files: seq<A.TgzFile>, basename: string): (k: nat)
    ensures k <= |files| && (k < |files| ==> IsRootFile(files[k].name, basename))
    ensures forall i | 0 <= i < k :: !IsRootFile(files[i].name, basename)
  {
    if files == [] || IsRootFile(files[0].name, basename) then 0 else 1 + RootIndex(files[1..], basename)
  }

  /** Root documents, by their names. */
  lemma {:induction false} RootNames(name: Bytes, basename: string, dir: string)
    requires Names.IsSegment(basename) && Names.IsSegment(dir)
    ensures T.AsText(name) == basename ==> IsRootFile(name, basename)
    ensures T.AsText(name) == dir + (['/'] + basename) ==> (IsRootFile(name, basename) <==> dir != "charts")
    ensures CHART_YAML == "Chart.yaml" && CHART_LOCK == "Chart.lock"
  {
    hide Names.Segments;
    Names.SingleSegment(basename);
    Names.SingleSegment(dir);
    Names.SegmentsConcat(dir, basename);
  }

  /** A name with more than two pieces, or with another last piece, is none of a root document. */
  lemma {:induction false} NoRootNames(name: Bytes, basename: string)
    requires var parts := Names.Segments(T.AsText(name)); parts == [] || |parts| > 2 || parts[|parts| - 1] != basename
    ensures !IsRootFile(name, basename)
  {
    hide Names.Segments;
  }

  /* ---- Editing a document ---- */

  const DEPENDENCIES := "dependencies"

  function DepsOf(value: D.Yaml): seq<D.Yaml> {
    match D.Get(value, DEPENDENCIES)
    case Some(Sequence(items)) => items
    case _ => []
  }

  /** The document with its dependencies rewritten, if that changes any. */
  function RewriteDocument(value: D.Yaml, setup: Setup): Option<D.Yaml> {
    var deps := DepsOf(value);
    if D.Log(deps, setup.context, setup.urls) == [] then None
    else Some(D.Put(value, DEPENDENCIES, D.Sequence(D.RewriteAll(deps, setup.context, setup.urls))))
  }

  method RewriteInPlace(value: D.Yaml, setup: Setup) returns (next: Option<D.Yaml>, rewrites: seq<D.Rewrite>)
    ensures next == RewriteDocument(value, setup)
    ensures rewrites == D.Log(DepsOf(value), setup.context, setup.urls)
  {
    hide D.KeyIndex, D.RewriteDep;
    var found := D.Get(value, DEPENDENCIES);
    if found.None? || !found.value.Sequence? {
      return None, [];
    }
    var items := found.value.items;
    var deps := new D.Yaml[|items|](i requires 0 <= i < |items| => items[i]);
    assert deps[..] == items;
    var modified;
    modified, rewrites := D.RewriteDepsList(deps, setup.context, setup.urls);
    assert deps[..] == D.RewriteAll(items, setup.context, setup.urls);
    next := if modified then Some(D.Put(value, DEPENDENCIES, D.Sequence(deps[..]))) else None;
  }

  /** What becomes of a root document: nothing, a failure to print it, or new contents. */
  datatype Edit = Untouched | Unprintable | Edited(data: Bytes)

  function EditOf(data: Bytes, setup: Setup): Edit {
    match setup.yaml.parse(data)
    case None => Untouched
    case Some(value) =>
      match RewriteDocument(value, setup)
      case None => Untouched
      case Some(next) =>
        match setup.yaml.emit(next)
        case None => Unprintable
        case Some(printed) => Edited(printed)
  }

  /** The lock file follows the chart, as far as it can be read and printed. */
  function EditLock(files: seq<A.TgzFile>, setup: Setup): seq<A.TgzFile> {
    var k := RootIndex(files, CHART_LOCK);
    if k == |files| then files
    else
      match EditOf(files[k].data, setup)
      case Edited(data) => files[k := files[k].(data := data)]
      case _ => files
  }

  /** The files with both root documents edited, if the chart can be. */
  function EditedFiles(files: seq<A.TgzFile>, setup: Setup): seq<A.TgzFile> {
    var k := RootIndex(files, CHART_YAML);
    if k == |files| then files
    else
      match EditOf(files[k].data, setup)
      case Edited(data) => EditLock(files[k := files[k].(data := data)], setup)
      case _ => files
  }

  datatype RewriteResult = RewriteResult(archive: Archive, modified: bool, rewrites: seq<D.Rewrite>)

  function Unmodified(archive: Archive): Result<RewriteResult, A.ChartError> {
    Ok(RewriteResult(archive, false, []))
  }

  function PackedArchive(files: seq<A.TgzFile>, setup: Setup): Archive {
    A.AsItems(A.Packed(EditedFiles(files, setup), setup.writer))
  }

  function RewriteFiles(archive: Archive, files: seq<A.TgzFile>, setup: Setup): Result<RewriteResult, A.ChartError> {
    var k := RootIndex(files, CHART_YAML);
    if k == |files| then Unmodified(archive)
    else
      match EditOf(files[k].data, setup)
      case Untouched => Unmodified(archive)
      case Unprintable => Err(A.InvalidChart)
      case Edited(_) =>
        if A.Accepts(setup.writer, EditedFiles(files, setup)) then
          Ok(RewriteResult(PackedArchive(files, setup), true,
                           D.Log(DepsOf(setup.yaml.parse(files[k].data).value), setup.context, setup.urls)))
        else Err(A.InvalidChart)
  }

  function RewriteChart(archive: Archive, setup: Setup, limits: A.ArchiveLimits): Result<RewriteResult, A.ChartError> {
    if setup.context.proxyHost == "" then Unmodified(archive)
    else
      match A.Unpack(archive, limits)
      case Err(e) => Err(e)
      case Ok(files) => RewriteFiles(archive, files, setup)
  }

  method RewriteChartDependencies(archive: Archive, setup: Setup, limits: A.ArchiveLimits)
    returns (r: Result<RewriteResult, A.ChartError>)
    ensures r == RewriteChart(archive, setup, limits)
  {
    hide RootIndex, RewriteDocument, DepsOf, D.Log, A.Unpack, A.Packed, A.Accepts;
    if setup.context.proxyHost == "" {
      return Unmodified(archive);
    }
    var unpacked := A.UnpackTgz(archive, limits);
    if unpacked.Err? {
      return Err(unpacked.error);
    }
    var files := unpacked.value;
    ghost var original := files;
    var chartIndex := RootIndex(files, CHART_YAML);
    if chartIndex == |files| {
      return Unmodified(archive);
    }
    var chart := setup.yaml.parse(files[chartIndex].data);
    if chart.None? {
      return Unmodified(archive);
    }
    var next, rewrites := RewriteInPlace(chart.value, setup);
    if next.None? {
      return Unmodified(archive);
    }
    var printed := setup.yaml.emit(next.value);
    if printed.None? {
      return Err(A.InvalidChart);
    }
    files := files[chartIndex := files[chartIndex].(data := printed.value)];
    ghost var before := files;

    var lockIndex := RootIndex(files, CHART_LOCK);
    if lockIndex < |files| {
      var lock := setup.yaml.parse(files[lockIndex].data);
      if lock.Some? {
        var lockNext, _ := RewriteInPlace(lock.value, setup);
        if lockNext.Some? {
          var text := setup.yaml.emit(lockNext.value);
          if text.Some? {
            files := files[lockIndex := files[lockIndex].(data := text.value)];
          }
        }
      }
    }
    assert files == EditLock(before, setup) == EditedFiles(original, setup);
    var packed := A.PackTgz(files, setup.writer);
    if packed.Err? {
      return Err(packed.error);
    }
    return Ok(RewriteResult(A.AsItems(packed.value), true, rewrites));
  }

  predicate Modifies(archive: Archive, setup: Setup, limits: A.ArchiveLimits) {
    var r := RewriteChart(archive, setup, limits);
    r.Ok? && r.value.modified
  }

  /* ---- What an edit changes ---- */

  /** A rewritten document differs from the original, and only in its dependencies; all keys stay in order. */
  lemma {:induction false} DocumentIsExact(value: D.Yaml, setup: Setup)
    ensures var next := RewriteDocument(value, setup);
            && (next.Some? <==> D.RewriteAll(DepsOf(value), setup.context, setup.urls) != DepsOf(value))
            && (next.Some? ==>
                  && D.OnlyUnder(DEPENDENCIES, value, next.value)
                  && DepsOf(next.value) == D.RewriteAll(DepsOf(value), setup.context, setup.urls)
                  && next.value != value)
  {
    hide D.KeyIndex, D.OnlyUnder, D.Log, D.RewriteAll;
    LogTellsChanges(DepsOf(value), setup);
    if RewriteDocument(value, setup).Some? {
      D.PutReads(value, DEPENDENCIES, D.Sequence(D.RewriteAll(DepsOf(value), setup.context, setup.urls)));
    }
  }

  lemma {:induction false} LogTellsChanges(deps: seq<D.Yaml>, setup: Setup)
    ensures D.Log(deps, setup.context, setup.urls) != [] <==> D.RewriteAll(deps, setup.context, setup.urls) != deps
  {
    hide D.Log, D.RewriteDep, D.NewRepository, D.OnlyUnder, D.RepositoryOf, D.NameOf;
    var after := D.RewriteAll(deps, setup.context, setup.urls);
    var positions := D.Changed(deps, setup.context, setup.urls);
    D.RewriteIsExact(deps, setup.context, setup.urls);
    if positions != [] {
      assert positions[0] in positions;
      assert after[positions[0]] != deps[positions[0]];
    } else {
      assert forall i: nat | i < |deps| :: after[i] == deps[i];
    }
  }

  lemma {:induction false} DocumentSettles(value: D.Yaml, setup: Setup)
    requires RewriteDocument(value, setup).Some?
    ensures RewriteDocument(RewriteDocument(value, setup).value, setup).None?
  {
    hide D.Get, D.Put, D.Log, D.RewriteAll, D.OnlyUnder;
    DocumentIsExact(value, setup);
    D.RewriteIsIdempotent(DepsOf(value), setup.context, setup.urls);
  }

  /** The document is readable, and some dependency of it has a rewrite. */
  predicate DocumentHasRewrites(data: Bytes, setup: Setup) {
    && setup.yaml.parse(data).Some?
    && var deps := DepsOf(setup.yaml.parse(data).value);
       D.RewriteAll(deps, setup.context, setup.urls) != deps
  }

  /** There is a root chart document, and it has rewrites. */
  predicate HasRewrites(files: seq<A.TgzFile>, setup: Setup) {
    var k := RootIndex(files, CHART_YAML);
    k < |files| && DocumentHasRewrites(files[k].data, setup)
  }

  /**
    A rewrite that succeeds modifies the archive exactly when it has a proxy host to
    rewrite to and something to rewrite. Otherwise the archive comes back as it was.
  */
  lemma {:induction false} ModifiesOnlyWhatItMust(archive: Archive, setup: Setup, limits: A.ArchiveLimits)
    requires RewriteChart(archive, setup, limits).Ok?
    ensures var r, unpacked := RewriteChart(archive, setup, limits).value, A.Unpack(archive, limits);
            && (r.modified <==> setup.context.proxyHost != "" && unpacked.Ok? && HasRewrites(unpacked.value, setup))
            && (!r.modified ==> r == RewriteResult(archive, false, []))
  {
    hide A.Unpack, RootIndex, D.Log, D.RewriteAll, DepsOf, EditedFiles, PackedArchive, A.Accepts;
    var unpacked := A.Unpack(archive, limits);
    if unpacked.Ok? {
      var k := RootIndex(unpacked.value, CHART_YAML);
      if k < |unpacked.value| && setup.yaml.parse(unpacked.value[k].data).Some? {
        LogTellsChanges(DepsOf(setup.yaml.parse(unpacked.value[k].data).value), setup);
      }
    }
  }

  /** The chart has rewrites but cannot be printed with them, or the tar writer refuses a name. */
  predicate CannotBeRewritten(files: seq<A.TgzFile>, setup: Setup) {
    && HasRewrites(files, setup)
    && !(CanBeRewritten(files[RootIndex(files, CHART_YAML)].data, setup) && A.Accepts(setup.writer, EditedFiles(files, setup)))
  }

  /**
    A rewrite fails exactly if there is a proxy host and the archive does not unpack or
    cannot be rewritten. The reason for not unpacking is passed on; the others are invalid
    charts.
  */
  lemma {:induction false} FailsExactly(archive: Archive, setup: Setup, limits: A.ArchiveLimits)
    ensures var r, unpacked := RewriteChart(archive, setup, limits), A.Unpack(archive, limits);
            && (r.Err? <==> setup.context.proxyHost != "" && (unpacked.Err? || CannotBeRewritten(unpacked.value, setup)))
            && (r.Err? ==> r.error == if unpacked.Err? then unpacked.error else A.InvalidChart)
  {
    hide A.Unpack, RootIndex, EditOf, EditedFiles, PackedArchive, A.Accepts, CanBeRewritten, DocumentHasRewrites, D.Log, DepsOf;
    var unpacked := A.Unpack(archive, limits);
    if unpacked.Ok? {
      var k := RootIndex(unpacked.value, CHART_YAML);
      if k < |unpacked.value| {
        EditedExactly(unpacked.value[k].data, setup);
        CanBeRewrittenMeans(unpacked.value[k].data, setup);
      }
    }
  }

  lemma {:induction false} CanBeRewrittenMeans(data: Bytes, setup: Setup)
    ensures CanBeRewritten(data, setup) ==> DocumentHasRewrites(data, setup)
  {
  }

  lemma {:induction false} UnmodifiedExactly(archive: Archive, files: seq<A.TgzFile>, setup: Setup)
    ensures RewriteFiles(archive, files, setup) == Unmodified(archive) <==> !HasRewrites(files, setup)
  {
    hide D.Log, D.RewriteAll, DepsOf, RootIndex, EditedFiles, PackedArchive, A.Accepts;
    var k := RootIndex(files, CHART_YAML);
    if k < |files| && setup.yaml.parse(files[k].data).Some? {
      LogTellsChanges(DepsOf(setup.yaml.parse(files[k].data).value), setup);
    }
  }

  /* ---- What a rewrite keeps ---- */

  /** Same name, mode and time. */
  predicate SameButData(a: A.TgzFile, b: A.TgzFile) {
    b == a.(data := b.data)
  }

  predicate AllSameButData(a: seq<A.TgzFile>, b: seq<A.TgzFile>) {
    |a| == |b| && forall i | 0 <= i < |a| :: SameButData(a[i], b[i])
  }

  lemma {:induction false} RootIndexIs(files: seq<A.TgzFile>, basename: string, k: nat)
    requires k <= |files| && (forall i | 0 <= i < k :: !IsRootFile(files[i].name, basename))
    requires k < |files| ==> IsRootFile(files[k].name, basename)
    ensures RootIndex(files, basename) == k
  {
  }

  lemma {:induction false} RootIndexStays(a: seq<A.TgzFile>, b: seq<A.TgzFile>, basename: string)
    requires AllSameButData(a, b)
    ensures RootIndex(a, basename) == RootIndex(b, basename)
  {
    hide IsRootFile;
    var k := RootIndex(a, basename);
    assert forall i | 0 <= i < |a| :: SameButData(a[i], b[i]);
    RootIndexIs(b, basename, k);
  }

  lemma {:induction false} BaseNamesDiffer(parts: seq<string>)
    ensures !(IsRootPath(parts, CHART_YAML) && IsRootPath(parts, CHART_LOCK))
  {
    assert CHART_YAML[6] != CHART_LOCK[6];
  }

  lemma {:induction false} ChartIsNotLock(name: Bytes)
    ensures !(IsRootFile(name, CHART_YAML) && IsRootFile(name, CHART_LOCK))
  {
    hide IsRootPath, Names.Segments, T.AsText;
    BaseNamesDiffer(Names.Segments(T.AsText(name)));
  }

  /** What the YAML library printed for these files it reads back. */
  predicate Reprints(files: seq<A.TgzFile>, setup: Setup) {
    forall i | 0 <= i < |files| :: ReprintsDocument(files[i].data, setup)
  }

  predicate ReprintsDocument(data: Bytes, setup: Setup) {
    EditOf(data, setup).Edited? ==>
      setup.yaml.parse(EditOf(data, setup).data) == RewriteDocument(setup.yaml.parse(data).value, setup)
  }

  /** `after` holds the document of `before` with its dependencies rewritten. */
  predicate HoldsRewritten(before: Bytes, after: Bytes, setup: Setup) {
    && setup.yaml.parse(before).Some?
    && RewriteDocument(setup.yaml.parse(before).value, setup).Some?
    && setup.yaml.parse(after) == RewriteDocument(setup.yaml.parse(before).value, setup)
  }

  /** The document has rewrites, and the YAML library can print it with them. */
  predicate CanBeRewritten(data: Bytes, setup: Setup) {
    && DocumentHasRewrites(data, setup)
    && match RewriteDocument(setup.yaml.parse(data).value, setup)
       case None => false
       case Some(next) => setup.yaml.emit(next).Some?
  }

  /** An edit takes place exactly where there is something to rewrite that can be printed. */
  lemma {:induction false} EditedExactly(data: Bytes, setup: Setup)
    ensures DocumentHasRewrites(data, setup) ==> RewriteDocument(setup.yaml.parse(data).value, setup).Some?
    ensures EditOf(data, setup).Edited? <==> CanBeRewritten(data, setup)
    ensures EditOf(data, setup).Unprintable? <==> DocumentHasRewrites(data, setup) && !CanBeRewritten(data, setup)
  {
    hide D.Log, D.RewriteAll, DepsOf, D.Put;
    if setup.yaml.parse(data).Some? {
      LogTellsChanges(DepsOf(setup.yaml.parse(data).value), setup);
    }
  }

  /**
    Every file stays in place, and only the two root documents get other contents: the
    chart always, the lock file exactly if it has rewrites that can be printed.
  */
  predicate Contained(files: seq<A.TgzFile>, setup: Setup) {
    var edited, chart, lock := EditedFiles(files, setup), RootIndex(files, CHART_YAML), RootIndex(files, CHART_LOCK);
    && chart < |files| && chart != lock
    && AllSameButData(files, edited)
    && (forall i | 0 <= i < |files| && i != chart && i != lock :: edited[i] == files[i])
    && HoldsRewritten(files[chart].data, edited[chart].data, setup)
    && (lock < |files| ==>
          if CanBeRewritten(files[lock].data, setup) then HoldsRewritten(files[lock].data, edited[lock].data, setup)
          else edited[lock] == files[lock])
  }

  lemma {:induction false} EditHolds(data: Bytes, setup: Setup)
    requires ReprintsDocument(data, setup) && EditOf(data, setup).Edited?
    ensures HoldsRewritten(data, EditOf(data, setup).data, setup)
  {
    hide RewriteDocument;
  }

  lemma {:induction false} EditsAreContained(files: seq<A.TgzFile>, setup: Setup)
    requires Reprints(files, setup)
    requires var k := RootIndex(files, CHART_YAML); k < |files| && EditOf(files[k].data, setup).Edited?
    ensures Contained(files, setup)
  {
    hide RootIndex, EditOf, HoldsRewritten, RewriteDocument, IsRootFile, ReprintsDocument, CanBeRewritten;
    var chart, lock := RootIndex(files, CHART_YAML), RootIndex(files, CHART_LOCK);
    var data := EditOf(files[chart].data, setup).data;
    var once := files[chart := files[chart].(data := data)];
    ChartIsNotLock(files[chart].name);
    RootIndexStays(files, once, CHART_LOCK);
    EditHolds(files[chart].data, setup);
    if lock < |files| {
      EditedExactly(files[lock].data, setup);
      if EditOf(files[lock].data, setup).Edited? {
        EditHolds(files[lock].data, setup);
      }
    }
  }

  /** The files of an archive that unpacks. */
  function FilesIn(archive: Archive, limits: A.ArchiveLimits): seq<A.TgzFile> {
    match A.Unpack(archive, limits)
    case Ok(files) => files
    case Err(_) => []
  }

  /** What a modifying rewrite returns. */
  lemma {:induction false} ModifiedResult(archive: Archive, setup: Setup, limits: A.ArchiveLimits)
    requires Modifies(archive, setup, limits)
    ensures RewriteChart(archive, setup, limits).Ok?
    ensures var files, r := FilesIn(archive, limits), RewriteChart(archive, setup, limits).value;
            && A.Unpack(archive, limits) == Ok(files) && setup.context.proxyHost != ""
            && A.Accepts(setup.writer, EditedFiles(files, setup)) && r.archive == PackedArchive(files, setup)
            && var k := RootIndex(files, CHART_YAML);
               && k < |files| && EditOf(files[k].data, setup).Edited?
               && r.rewrites == D.Log(DepsOf(setup.yaml.parse(files[k].data).value), setup.context, setup.urls)
  {
    hide A.Unpack, RootIndex, D.Log, D.RewriteAll, DepsOf, EditedFiles, PackedArchive, A.Accepts, EditOf;
  }

  lemma {:induction false} ModifiesWhenEdited(archive: Archive, files: seq<A.TgzFile>, setup: Setup, limits: A.ArchiveLimits)
    requires A.Unpack(archive, limits) == Ok(files) && setup.context.proxyHost != ""
    requires var k := RootIndex(files, CHART_YAML); k < |files| && EditOf(files[k].data, setup).Edited?
    requires A.Accepts(setup.writer, EditedFiles(files, setup))
    ensures Modifies(archive, setup, limits)
  {
    hide A.Unpack, EditOf, RootIndex, EditedFiles, PackedArchive, D.Log, A.Accepts;
  }

  /* ---- What a reader of the result gets ---- */

  /** The rewritten archive fits the limits. */
  predicate RewrittenFits(files: seq<A.TgzFile>, setup: Setup, limits: A.ArchiveLimits) {
    var edited := EditedFiles(files, setup);
    A.Accepts(setup.writer, edited) && A.FitsFrom(A.PackedCharges(edited, setup.writer), 0, 0, limits)
  }

  /** The edited files under the names the tar writer stored. */
  function Received(files: seq<A.TgzFile>, setup: Setup): (received: seq<A.TgzFile>)
    ensures var edited := EditedFiles(files, setup);
            && |received| == |edited|
            && forall i | 0 <= i < |edited| :: received[i] == edited[i].(name := received[i].name)
  {
    A.RestoredAll(EditedFiles(files, setup), setup.writer)
  }

  /**
    The rewritten archive unpacks if and only if its charges fit, and then to the edited
    files under the names the tar writer stored. The limits the original passed under do
    not settle that: documents may grow, and long names are charged as entries.
  */
  lemma {:induction false} RewrittenUnpacks(files: seq<A.TgzFile>, setup: Setup, limits: A.ArchiveLimits)
    requires A.Accepts(setup.writer, EditedFiles(files, setup))
    ensures var again := A.Unpack(PackedArchive(files, setup), limits);
            && (again.Ok? <==> RewrittenFits(files, setup, limits))
            && (again.Ok? ==> again == Ok(Received(files, setup)))
  {
    hide A.Unpack, A.Packed, A.PackedCharges, A.FitsFrom, EditedFiles, A.Accepts;
    A.PackedUnpacks(EditedFiles(files, setup), setup.writer, limits);
  }

  /** A reader gets a file under its own name exactly if the tar writer keeps it. */
  lemma {:induction false} ReceivedName(files: seq<A.TgzFile>, setup: Setup, i: nat)
    requires AllSameButData(files, EditedFiles(files, setup)) && i < |files|
    ensures Received(files, setup)[i].name == files[i].name <==> A.Keeps(setup.writer, files[i].name)
  {
    hide EditedFiles;
    assert SameButData(files[i], EditedFiles(files, setup)[i]);
    A.TrimNulsFixed(files[i].name);
  }

  /**
    Main result: a modifying rewrite keeps every file, its mode and time and the order,
    and all contents but those of the root chart document and of the root lock file; these
    read back as what they were with their dependencies rewritten, and the log is the
    chart's. Whoever unpacks the result gets just that, with each name as it was exactly
    if the tar writer keeps it.
  */
  lemma {:induction false} RewriteIsContained(archive: Archive, setup: Setup, limits: A.ArchiveLimits)
    requires Modifies(archive, setup, limits) && Reprints(FilesIn(archive, limits), setup)
    ensures var files, r := FilesIn(archive, limits), RewriteChart(archive, setup, limits).value;
            var received := Received(files, setup);
            && Contained(files, setup) && |received| == |files|
            && r.rewrites == D.Log(DepsOf(setup.yaml.parse(files[RootIndex(files, CHART_YAML)].data).value), setup.context, setup.urls)
            && (forall later :: A.Unpack(r.archive, later).Ok? ==> A.Unpack(r.archive, later) == Ok(received))
            && (forall i | 0 <= i < |files| ::
                  && received[i] == EditedFiles(files, setup)[i].(name := received[i].name)
                  && (received[i].name == files[i].name <==> A.Keeps(setup.writer, files[i].name)))
  {
    hide Modifies, A.Unpack, HoldsRewritten, RootIndex, A.Keeps, RewriteChart, Received, EditedFiles, EditOf, Reprints, PackedArchive, DepsOf, D.Log, RewrittenFits, FilesIn;
    ModifiedResult(archive, setup, limits);
    var files, r := FilesIn(archive, limits), RewriteChart(archive, setup, limits).value;
    EditsAreContained(files, setup);
    forall later
      ensures A.Unpack(r.archive, later).Ok? ==> A.Unpack(r.archive, later) == Ok(Received(files, setup))
    {
      RewrittenUnpacks(files, setup, later);
    }
    forall i | 0 <= i < |files|
      ensures Received(files, setup)[i].name == files[i].name <==> A.Keeps(setup.writer, files[i].name)
    {
      ReceivedName(files, setup, i);
    }
  }

  /* ---- Names that carry no NUL ---- */

  /** Tar header paths end at their first NUL byte. */
  predicate PlainPaths(archive: Archive) {
    forall i | 0 <= i < |archive| && archive[i].Good? :: !A.EndsInNul(archive[i].entry.path)
  }

  lemma {:induction false} GroupNamesArePlain(entries: seq<A.Entry>, metas: seq<A.Entry>)
    requires forall i | 0 <= i < |entries| :: !A.EndsInNul(entries[i].path)
    ensures var files := A.FilesOf(A.Groups(entries, metas));
            forall i | 0 <= i < |files| :: !A.EndsInNul(files[i].name)
    decreases |entries|
  {
    if entries != [] {
      A.FirstEntry(entries, metas);
      GroupNamesArePlain(entries[1..], A.Carried(entries[0], metas));
      if !A.IsMetadata(entries[0].kind) {
        var g := A.Group(metas, entries[0]);
        A.OneGroupMore(g, A.Groups(entries[1..], []));
        MemberNameIsPlain(g);
      }
    }
  }

  lemma {:induction false} MemberNameIsPlain(g: A.Group)
    requires !A.EndsInNul(g.member.path)
    ensures !A.EndsInNul(A.MemberName(g))
    ensures forall i | 0 <= i < |A.FilesOf([g])| :: !A.EndsInNul(A.FilesOf([g])[i].name)
  {
    var pax, longNames := A.PaxOf(g.metas).pending.paxPath, A.OfKind(g.metas, A.GnuLongName);
    if pax.Some? {
      TrimmedIsPlain(pax.value);
    } else if longNames != [] {
      TrimmedIsPlain(A.Or(longNames[0].payload, []));
    }
    assert A.FilesOf([g]) == if g.member.kind == A.Regular then [A.FileOf(g)] else [];
  }

  lemma {:induction false} TrimmedIsPlain(name: Bytes)
    ensures !A.EndsInNul(A.TrimNuls(name))
  {
    if A.EndsInNul(name) {
      TrimmedIsPlain(name[..|name| - 1]);
    }
  }

  predicate NamesArePlain(files: seq<A.TgzFile>) {
    forall i | 0 <= i < |files| :: !A.EndsInNul(files[i].name)
  }

  /** No file of an unpacked archive has a name that a long-name entry could not carry. */
  lemma {:induction false} UnpackedNamesArePlain(archive: Archive, limits: A.ArchiveLimits)
    requires A.Unpack(archive, limits).Ok? && PlainPaths(archive)
    ensures NamesArePlain(A.Unpack(archive, limits).value)
  {
    A.UnpackRefines(archive, limits, A.Unpack(archive, limits).value);
    GroupNamesArePlain(A.EntriesOf(archive), []);
  }

  /**
    In terms of names alone: with a tar writer that respells paths piece by piece, a reader
    gets the edited files unchanged if and only if every name that fits a header is a
    plain path.
  */
  lemma {:induction false} PlainNamesAreReceived(archive: Archive, setup: Setup, limits: A.ArchiveLimits)
    requires A.Unpack(archive, limits).Ok? && PlainPaths(archive) && T.Respells(setup.writer, FilesIn(archive, limits))
    requires AllSameButData(FilesIn(archive, limits), EditedFiles(FilesIn(archive, limits), setup))
    ensures var files := FilesIn(archive, limits);
            Received(files, setup) == EditedFiles(files, setup) <==>
            forall i | 0 <= i < |files| :: setup.writer(files[i].name).InHeader? ==> T.IsPlainPath(T.AsText(files[i].name))
  {
    hide A.Unpack, EditedFiles, A.Keeps, T.IsPlainPath, A.EndsInNul, T.RespellsName;
    var files := FilesIn(archive, limits);
    UnpackedNamesArePlain(archive, limits);
    A.RestoredIsSame(EditedFiles(files, setup), setup.writer);
    assert forall i | 0 <= i < |files| :: SameButData(files[i], EditedFiles(files, setup)[i]);
    forall i | 0 <= i < |files|
      ensures A.Keeps(setup.writer, files[i].name) <==>
              (setup.writer(files[i].name).InHeader? ==> T.IsPlainPath(T.AsText(files[i].name)))
    {
      T.KeepsExactly(setup.writer, files[i].name);
    }
  }

  /* ---- Which document a reader takes for the chart ---- */

  /** Put in a header, the name becomes that of a root chart document once its dots are gone. */
  predicate SurfacesAsChart(writer: A.Writer, name: Bytes) {
    writer(name).InHeader? && IsRootPath(T.NoDots(Names.Segments(T.AsText(name))), CHART_YAML)
  }

  /** The first file that is a root chart document or surfaces as one. */
  function LayerChart(files: seq<A.TgzFile>, writer: A.Writer): (k: nat)
    ensures k <= |files|
    ensures k < |files| ==> IsRootFile(files[k].name, CHART_YAML) || SurfacesAsChart(writer, files[k].name)
    ensures forall i | 0 <= i < k :: !IsRootFile(files[i].name, CHART_YAML) && !SurfacesAsChart(writer, files[i].name)
  {
    if files == [] || IsRootFile(files[0].name, CHART_YAML) || SurfacesAsChart(writer, files[0].name) then 0
    else 1 + LayerChart(files[1..], writer)
  }

  lemma {:induction false} RootWithoutDots(parts: seq<string>, basename: string)
    requires IsRootPath(parts, basename) && basename != "."
    ensures IsRootPath(T.NoDots(parts), basename)
  {
    assert parts[1..] == [] || parts[1..] == [basename];
    assert [basename][1..] == [];
    assert T.NoDots([basename]) == [basename];
  }

  /** A stored name is that of a root chart document exactly if the name was or surfaces as one. */
  lemma {:induction false} StoredRoot(writer: A.Writer, f: A.TgzFile)
    requires T.RespellsName(writer, f.name) && !A.EndsInNul(f.name)
    ensures IsRootFile(A.Restored(f, writer).name, CHART_YAML) <==>
            IsRootFile(f.name, CHART_YAML) || SurfacesAsChart(writer, f.name)
  {
    hide T.StoredPath, Names.Segments, T.NoDots, T.AsText, IsRootPath;
    A.TrimNulsFixed(f.name);
    if writer(f.name).InHeader? {
      var path := T.AsText(f.name);
      T.StoredSegments(path);
      DotIsNoRoot();
      if IsRootFile(f.name, CHART_YAML) {
        RootWithoutDots(Names.Segments(path), CHART_YAML);
      }
    }
  }

  lemma {:induction false} DotIsNoRoot()
    ensures !IsRootPath(["."], CHART_YAML) && !IsRootPath([], CHART_YAML)
    ensures CHART_YAML != "."
  {
    assert |CHART_YAML| != |"."|;
  }

  /** The first root chart document under the stored names, in terms of the names there were. */
  lemma {:induction false} ReceivedChart(files: seq<A.TgzFile>, setup: Setup)
    requires T.Respells(setup.writer, files) && NamesArePlain(files) && AllSameButData(files, EditedFiles(files, setup))
    ensures RootIndex(Received(files, setup), CHART_YAML) == LayerChart(files, setup.writer)
  {
    hide EditedFiles, IsRootFile, SurfacesAsChart, RootIndex, LayerChart, T.RespellsName, A.EndsInNul, A.Restored;
    var edited, received := EditedFiles(files, setup), Received(files, setup);
    forall i | 0 <= i < |files|
      ensures IsRootFile(received[i].name, CHART_YAML) <==>
              IsRootFile(files[i].name, CHART_YAML) || SurfacesAsChart(setup.writer, files[i].name)
    {
      assert SameButData(files[i], edited[i]);
      StoredRoot(setup.writer, edited[i]);
    }
    RootIndexIs(received, CHART_YAML, LayerChart(files, setup.writer));
  }

  /** What comes before the chart is not edited. */
  lemma {:induction false} EarlierIsUnchanged(files: seq<A.TgzFile>, setup: Setup, k: nat)
    requires Contained(files, setup) && k < |files| && (IsRootFile(files[k].name, CHART_YAML) || SurfacesAsChart(setup.writer, files[k].name))
    requires k != RootIndex(files, CHART_YAML)
    ensures EditedFiles(files, setup)[k] == files[k]
  {
    hide EditedFiles, HoldsRewritten, RootIndex, Names.Segments, T.AsText, T.NoDots, IsRootPath;
    var parts := Names.Segments(T.AsText(files[k].name));
    BaseNamesDiffer(parts);
    if IsRootPath(parts, CHART_LOCK) {
      LockIsNotDot();
      RootWithoutDots(parts, CHART_LOCK);
      BaseNamesDiffer(T.NoDots(parts));
    }
  }

  lemma {:induction false} LockIsNotDot()
    ensures CHART_LOCK != "."
  {
    assert |CHART_LOCK| != |"."|;
  }

  /** Another document comes first for a reader: one before the chart that surfaces as a root document. */
  predicate ChartIsOvertaken(files: seq<A.TgzFile>, writer: A.Writer) {
    LayerChart(files, writer) < RootIndex(files, CHART_YAML)
  }

  /** That is so exactly if some name before the chart's is put in a header and is a root name but for its dots. */
  lemma {:induction false} OvertakenExactly(files: seq<A.TgzFile>, writer: A.Writer)
    ensures ChartIsOvertaken(files, writer) <==>
            exists i :: 0 <= i < RootIndex(files, CHART_YAML) && SurfacesAsChart(writer, files[i].name)
    ensures LayerChart(files, writer) <= RootIndex(files, CHART_YAML)
  {
    hide IsRootFile, SurfacesAsChart;
  }

  /* ---- Rewriting again ---- */

  /** For any tar writer, in terms of what a reader receives. */
  lemma {:induction false} SettlesForReader(files: seq<A.TgzFile>, setup: Setup, later: A.ArchiveLimits)
    requires A.Accepts(setup.writer, EditedFiles(files, setup)) && setup.context.proxyHost != ""
    ensures var archive := PackedArchive(files, setup);
            var again := RewriteChart(archive, setup, later);
            && (again == Unmodified(archive) <==> RewrittenFits(files, setup, later) && !HasRewrites(Received(files, setup), setup))
            && (!RewrittenFits(files, setup, later) ==> again.Err?)
  {
    hide A.Unpack, PackedArchive, RewrittenFits, RewriteFiles, HasRewrites, EditedFiles, Received, A.Accepts;
    RewrittenUnpacks(files, setup, later);
    UnmodifiedExactly(PackedArchive(files, setup), Received(files, setup), setup);
  }

  lemma {:induction false} RewrittenHasNoRewrites(before: Bytes, after: Bytes, setup: Setup)
    requires HoldsRewritten(before, after, setup)
    ensures !DocumentHasRewrites(after, setup)
  {
    hide D.Log, D.RewriteAll, DepsOf, D.Put;
    var original := setup.yaml.parse(before).value;
    DocumentSettles(original, setup);
    LogTellsChanges(DepsOf(RewriteDocument(original, setup).value), setup);
  }

  /** A reader finds rewrites exactly if the chart is overtaken by a document that has some. */
  lemma {:induction false} ReceivedRewrites(files: seq<A.TgzFile>, setup: Setup)
    requires Contained(files, setup) && T.Respells(setup.writer, files) && NamesArePlain(files)
    ensures var k := LayerChart(files, setup.writer);
            HasRewrites(Received(files, setup), setup) <==>
            ChartIsOvertaken(files, setup.writer) && DocumentHasRewrites(files[k].data, setup)
  {
    hide EditedFiles, HoldsRewritten, RootIndex, LayerChart, IsRootFile, SurfacesAsChart, DocumentHasRewrites, Received, T.RespellsName, A.EndsInNul, ChartIsOvertaken;
    var k, chart := LayerChart(files, setup.writer), RootIndex(files, CHART_YAML);
    ReceivedChart(files, setup);
    OvertakenExactly(files, setup.writer);
    RewrittenHasNoRewrites(files[chart].data, EditedFiles(files, setup)[chart].data, setup);
    if k < chart {
      EarlierIsUnchanged(files, setup, k);
    }
    assert ChartIsOvertaken(files, setup.writer) <==> k < chart by { OvertakenMeans(files, setup.writer); }
  }

  lemma {:induction false} OvertakenMeans(files: seq<A.TgzFile>, writer: A.Writer)
    ensures ChartIsOvertaken(files, writer) <==> LayerChart(files, writer) < RootIndex(files, CHART_YAML)
  {
  }

  /**
    Main result: when rewriting settles, in terms of the archive's own files. Rewriting a
    rewritten archive again, under any limits, gives it back unmodified if and only if it
    fits them and no document with rewrites overtakes the chart: none before it has a name
    in a header that is a root name but for its dots, or the first such has no rewrites.
  */
  lemma {:induction false} RewriteSettles(archive: Archive, setup: Setup, limits: A.ArchiveLimits, later: A.ArchiveLimits)
    requires Modifies(archive, setup, limits) && Reprints(FilesIn(archive, limits), setup)
    requires PlainPaths(archive) && T.Respells(setup.writer, FilesIn(archive, limits))
    ensures var files, once := FilesIn(archive, limits), RewriteChart(archive, setup, limits).value.archive;
            var again, k := RewriteChart(once, setup, later), LayerChart(files, setup.writer);
            && (again == Unmodified(once) <==>
                  && RewrittenFits(files, setup, later)
                  && !(ChartIsOvertaken(files, setup.writer) && DocumentHasRewrites(files[k].data, setup)))
            && (!RewrittenFits(files, setup, later) ==> again.Err?)
  {
    hide *;
    var files := FilesIn(archive, limits);
    ModifiedResult(archive, setup, limits);
    EditsAreContained(files, setup);
    UnpackedNamesArePlain(archive, limits);
    FilesInAre(archive, limits);
    ReceivedRewrites(files, setup);
    SettlesForReader(files, setup, later);
  }

  lemma {:induction false} FilesInAre(archive: Archive, limits: A.ArchiveLimits)
    requires A.Unpack(archive, limits).Ok?
    ensures FilesIn(archive, limits) == A.Unpack(archive, limits).value
  {
  }

  /* ---- The config of the artifact ---- */

  /** The root chart document as JSON. */
  function ConfigOf(archive: Archive, yaml: YamlLibrary, json: D.Yaml -> Option<Bytes>, limits: A.ArchiveLimits): Result<Bytes, A.ChartError> {
    match A.Unpack(archive, limits)
    case Err(e) => Err(e)
    case Ok(files) =>
      var k := RootIndex(files, CHART_YAML);
      if k == |files| then Err(A.InvalidChart) else ConfigFrom(yaml.parse(files[k].data), json)
  }

  function ConfigFrom(document: Option<D.Yaml>, json: D.Yaml -> Option<Bytes>): Result<Bytes, A.ChartError> {
    if document.None? || !document.value.Mapping? || json(document.value).None? then Err(A.InvalidChart)
    else Ok(json(document.value).value)
  }

  /** The layer of the artifact is the rewritten archive, and the config is read from it. */
  function LayerAndConfig(archive: Archive, setup: Setup, json: D.Yaml -> Option<Bytes>, limits: A.ArchiveLimits)
    : Result<(Archive, Bytes), A.ChartError>
  {
    match RewriteChart(archive, setup, limits)
    case Err(e) => Err(e)
    case Ok(r) =>
      match ConfigOf(r.archive, setup.yaml, json, limits)
      case Err(e) => Err(e)
      case Ok(config) => Ok((r.archive, config))
  }

  /**
    The build of a chart that is not rewritten takes the download for its layer, and
    succeeds exactly if that unpacks and its root chart document is a mapping with a JSON
    form, which is the config.
  */
  lemma {:induction false} ConfigOfDownload(archive: Archive, setup: Setup, json: D.Yaml -> Option<Bytes>, limits: A.ArchiveLimits)
    requires RewriteChart(archive, setup, limits).Ok? && !RewriteChart(archive, setup, limits).value.modified
    ensures var built, unpacked := LayerAndConfig(archive, setup, json, limits), A.Unpack(archive, limits);
            && (built.Ok? <==>
                  && unpacked.Ok?
                  && var k := RootIndex(unpacked.value, CHART_YAML);
                     && k < |unpacked.value|
                     && var document := setup.yaml.parse(unpacked.value[k].data);
                        document.Some? && document.value.Mapping? && json(document.value).Some?)
            && (built.Ok? ==>
                  var document := setup.yaml.parse(unpacked.value[RootIndex(unpacked.value, CHART_YAML)].data).value;
                  built.value == (archive, json(document).value))
            && (unpacked.Err? ==> built == Err(unpacked.error))
  {
    hide A.Unpack, RootIndex, EditOf, EditedFiles, PackedArchive, A.Accepts, D.Log, DepsOf;
  }

  /** The document a reader of the layer takes for the chart. */
  function LayerDocument(files: seq<A.TgzFile>, setup: Setup): Option<D.Yaml> {
    var received := Received(files, setup);
    var k := RootIndex(received, CHART_YAML);
    if k < |received| then setup.yaml.parse(received[k].data) else None
  }

  /**
    The build of a rewritten chart, for any tar writer: it succeeds if and only if the
    layer fits the limits and the document a reader takes for the chart has a JSON form,
    which then is the config.
  */
  lemma {:induction false} ConfigIsOfLayer(archive: Archive, setup: Setup, json: D.Yaml -> Option<Bytes>, limits: A.ArchiveLimits)
    requires Modifies(archive, setup, limits)
    ensures var files, r := FilesIn(archive, limits), RewriteChart(archive, setup, limits).value;
            var built := LayerAndConfig(archive, setup, json, limits);
            var config := ConfigFrom(LayerDocument(files, setup), json);
            && (built.Ok? <==> RewrittenFits(files, setup, limits) && config.Ok?)
            && (built.Ok? ==> built.value == (r.archive, config.value))
  {
    hide RewriteChart, A.Unpack, PackedArchive, RewrittenFits, EditedFiles, Received, RootIndex, A.Accepts, EditOf, D.Log, DepsOf, FilesIn;
    ModifiedResult(archive, setup, limits);
    RewrittenUnpacks(FilesIn(archive, limits), setup, limits);
  }

  /** Whatever the JSON encoder, the build gives `expected` in JSON whenever that has a JSON form. */
  ghost predicate AlwaysConfigures(archive: Archive, setup: Setup, limits: A.ArchiveLimits, layer: Archive, expected: D.Yaml) {
    forall json: D.Yaml -> Option<Bytes> | json(expected).Some? ::
      LayerAndConfig(archive, setup, json, limits) == Ok((layer, json(expected).value))
  }

  /** For every JSON encoder: the build succeeds if `fits` and `document` has a JSON form, which it gives. */
  ghost predicate BuildsFrom(archive: Archive, setup: Setup, limits: A.ArchiveLimits, layer: Archive, document: Option<D.Yaml>, fits: bool) {
    forall json: D.Yaml -> Option<Bytes> ::
      var built, config := LayerAndConfig(archive, setup, json, limits), ConfigFrom(document, json);
      && (built.Ok? <==> fits && config.Ok?)
      && (built.Ok? ==> built.value == (layer, config.value))
  }

  lemma {:induction false} ConfiguresExactly(
      archive: Archive, setup: Setup, limits: A.ArchiveLimits, layer: Archive, document: Option<D.Yaml>, fits: bool, expected: D.Yaml)
    requires BuildsFrom(archive, setup, limits, layer, document, fits) && expected.Mapping?
    ensures AlwaysConfigures(archive, setup, limits, layer, expected) <==> fits && document == Some(expected)
  {
    hide LayerAndConfig;
    var only: D.Yaml -> Option<Bytes> := v => if v == expected then Some([]) else None;
    assert only(expected).Some?;
    assert LayerAndConfig(archive, setup, only, limits).Ok? <==> fits && ConfigFrom(document, only).Ok?;
  }

  lemma {:induction false} BuildsFromLayer(archive: Archive, setup: Setup, limits: A.ArchiveLimits)
    requires Modifies(archive, setup, limits)
    ensures var files, r := FilesIn(archive, limits), RewriteChart(archive, setup, limits).value;
            BuildsFrom(archive, setup, limits, r.archive, LayerDocument(files, setup), RewrittenFits(files, setup, limits))
  {
    hide RewriteChart, RewrittenFits, LayerDocument, LayerAndConfig, ConfigFrom, FilesIn;
    var files, r := FilesIn(archive, limits), RewriteChart(archive, setup, limits).value;
    forall json: D.Yaml -> Option<Bytes>
      ensures var built, config := LayerAndConfig(archive, setup, json, limits), ConfigFrom(LayerDocument(files, setup), json);
              && (built.Ok? <==> RewrittenFits(files, setup, limits) && config.Ok?)
              && (built.Ok? ==> built.value == (r.archive, config.value))
    {
      ConfigIsOfLayer(archive, setup, json, limits);
    }
  }

  /** The root chart document with its dependencies rewritten. */
  function ExpectedDocument(files: seq<A.TgzFile>, setup: Setup): D.Yaml
    requires Contained(files, setup)
  {
    RewriteDocument(setup.yaml.parse(files[RootIndex(files, CHART_YAML)].data).value, setup).value
  }

  lemma {:induction false} ExpectedIsMapping(files: seq<A.TgzFile>, setup: Setup)
    requires Contained(files, setup)
    ensures ExpectedDocument(files, setup).Mapping?
  {
    hide D.Log, D.RewriteAll, EditedFiles, RootIndex;
  }

  /** A reader takes the rewritten chart for the chart, unless another document overtakes it. */
  lemma {:induction false} LayerDocumentIs(files: seq<A.TgzFile>, setup: Setup)
    requires Contained(files, setup) && T.Respells(setup.writer, files) && NamesArePlain(files)
    ensures LayerDocument(files, setup) ==
            if ChartIsOvertaken(files, setup.writer) then setup.yaml.parse(files[LayerChart(files, setup.writer)].data)
            else Some(ExpectedDocument(files, setup))
  {
    hide EditedFiles, RewriteDocument, RootIndex, LayerChart, IsRootFile, SurfacesAsChart, Received, T.RespellsName, A.EndsInNul;
    var k, chart := LayerChart(files, setup.writer), RootIndex(files, CHART_YAML);
    ReceivedChart(files, setup);
    OvertakenExactly(files, setup.writer);
    if k < chart {
      EarlierIsUnchanged(files, setup, k);
    }
  }

  /**
    Main result: when an artifact's config describes the chart it was built for, whatever
    the JSON encoder, in terms of the archive's own files: if and only if the rewritten
    layer fits the limits and no other document overtakes the chart, or the first that
    does reads the same.
  */
  lemma {:induction false} ConfigMatchesLayer(archive: Archive, setup: Setup, limits: A.ArchiveLimits)
    requires Modifies(archive, setup, limits) && Reprints(FilesIn(archive, limits), setup)
    requires PlainPaths(archive) && T.Respells(setup.writer, FilesIn(archive, limits))
    ensures var files, r := FilesIn(archive, limits), RewriteChart(archive, setup, limits).value;
            && Contained(files, setup)
            && var expected, k := ExpectedDocument(files, setup), LayerChart(files, setup.writer);
               AlwaysConfigures(archive, setup, limits, r.archive, expected) <==>
               && RewrittenFits(files, setup, limits)
               && (ChartIsOvertaken(files, setup.writer) ==> setup.yaml.parse(files[k].data) == Some(expected))
  {
    hide *;
    var files := FilesIn(archive, limits);
    ModifiedResult(archive, setup, limits);
    EditsAreContained(files, setup);
    UnpackedNamesArePlain(archive, limits);
    FilesInAre(archive, limits);
    LayerDocumentIs(files, setup);
    ExpectedIsMapping(files, setup);
    BuildsFromLayer(archive, setup, limits);
    ConfiguresExactly(archive, setup, limits, RewriteChart(archive, setup, limits).value.archive, LayerDocument(files, setup),
                      RewrittenFits(files, setup, limits), ExpectedDocument(files, setup));
  }
}
