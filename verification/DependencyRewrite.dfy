/**
  Dependency repositories rewritten to names of this registry, and the resolver that turns
  such names back into repositories.
*/
module DependencyRewrite {
  import opened Wrappers
  import opened Text
  import opened Names

  /** A parsed URL as far as rewriting looks: `port` is absent when it is the default. */
  datatype Url = Url(scheme: string, host: Option<string>, port: Option<nat>, path: string)

  datatype Library = Library(parse: string -> Option<Url>, isAddress: string -> bool)

  datatype Upstream = ClassicUpstream(repoUrl: string) | OciUpstream(registry: string, repo: string)

  datatype Alias = Alias(upstream: Upstream, store: bool)

  type Aliases = map<string, Alias>

  datatype Source = ConfiguredAlias | HostPath

  datatype Resolved =
    | Classic(repoUrl: string, chartName: string, fullName: string, ephemeral: bool, source: Source)
    | Oci(registry: string, repo: string, fullName: string, store: bool)

  datatype Context = Context(proxyHost: string, aliasByRepo: map<string, string>)

  /** `host[/path]`; a URL with a port of its own has no key. */
  function NormalizeRepoKey(repoUrl: string, library: Library): Option<string> {
    match library.parse(repoUrl)
    case None => None
    case Some(url) =>
      if url.port.Some? || url.host.None? then None
      else Some(KeyOf(Lower(url.host.value), TrimSlashes(url.path)))
  }

  function KeyOf(host: string, path: string): string {
    if path == "" then host else host + (['/'] + path)
  }

  /** The repository URL is one a rewrite applies to at all. */
  predicate Rewritable(repoUrl: string, library: Library) {
    && repoUrl != "" && !("@" <= repoUrl) && !("alias:" <= repoUrl) && !("file:" <= repoUrl) && !("oci://" <= repoUrl)
    && library.parse(repoUrl).Some?
    && var url := library.parse(repoUrl).value;
       && (url.scheme == "http" || url.scheme == "https")
       && url.host.Some? && IsPublicHostname(url.host.value, library.isAddress)
       && url.port.None?
  }

  function OciUrl(proxyHost: string, name: string): string {
    "oci://" + (proxyHost + (['/'] + name))
  }

  function RewriteDependencyUrl(repoUrl: string, context: Context, library: Library): Option<string> {
    if !Rewritable(repoUrl, library) then None
    else
      var key := NormalizeRepoKey(repoUrl, library).value;
      Some(OciUrl(context.proxyHost, if key in context.aliasByRepo then context.aliasByRepo[key] else key))
  }

  /* ---- The resolver ---- */

  function HttpsUrl(host: string, segments: seq<string>): string {
    "https://" + if segments == [] then host else host + (['/'] + Join(segments))
  }

  predicate AllValidNames(parts: seq<string>) {
    forall i | 0 <= i < |parts| :: IsValidChartName(parts[i])
  }

  function ResolveHostPath(segments: seq<string>, name: string, library: Library): Option<Resolved> {
    if |segments| < 2 then None
    else
      var host, chart, path := segments[0], segments[|segments| - 1], segments[1..|segments| - 1];
      if !IsPublicHostname(host, library.isAddress) || !IsValidChartName(chart) || !AllValidNames(path) then None
      else Some(Classic(HttpsUrl(host, path), chart, name, false, HostPath))
  }

  function ResolveName(name: string, aliases: Aliases, library: Library): Option<Resolved> {
    var segments := Segments(name);
    if segments == [] then None
    else if segments[0] in aliases then
      var alias := aliases[segments[0]];
      match alias.upstream
      case ClassicUpstream(repoUrl) =>
        if |segments| != 2 || !IsValidChartName(segments[1]) then None
        else Some(Classic(repoUrl, segments[1], name, !alias.store, ConfiguredAlias))
      case OciUpstream(registry, repo) =>
        if |segments| < 2 || !AllValidNames(segments[1..]) then None
        else Some(Oci(registry, repo + (['/'] + Join(segments[1..])), name, alias.store))
    else ResolveHostPath(segments, name, library)
  }

  /** A URL has a key exactly if it parses, has a host and no port of its own: `host/path` without outer slashes. */
  lemma {:induction false} KeyExactly(repoUrl: string, library: Library)
    ensures NormalizeRepoKey(repoUrl, library).Some? <==>
            && library.parse(repoUrl).Some?
            && library.parse(repoUrl).value.port == None && library.parse(repoUrl).value.host.Some?
    ensures NormalizeRepoKey(repoUrl, library).Some? ==>
            var url := library.parse(repoUrl).value;
            var host, path := Lower(url.host.value), TrimSlashes(url.path);
            NormalizeRepoKey(repoUrl, library) == Some(if path == "" then host else host + (['/'] + path))
  {
    hide TrimSlashes, Lower;
  }

  /** References that are not URLs, or already name a registry. */
  predicate IsLeftAlone(repoUrl: string) {
    repoUrl == "" || "@" <= repoUrl || "alias:" <= repoUrl || "file:" <= repoUrl || "oci://" <= repoUrl
  }

  /**
    A repository is rewritten exactly if it is an HTTP or HTTPS URL of a public host without
    a port: to the alias that has its key, or else to its lower-cased host and its path
    without outer slashes.
  */
  lemma {:induction false} RewrittenExactly(repoUrl: string, context: Context, library: Library)
    ensures RewriteDependencyUrl(repoUrl, context, library).Some? <==>
            && !IsLeftAlone(repoUrl) && library.parse(repoUrl).Some?
            && var url := library.parse(repoUrl).value;
               && url.scheme in {"http", "https"} && url.port == None
               && url.host.Some? && IsPublicHostname(url.host.value, library.isAddress)
    ensures RewriteDependencyUrl(repoUrl, context, library).Some? ==>
            var url := library.parse(repoUrl).value;
            var host, path := Lower(url.host.value), TrimSlashes(url.path);
            var key := if path == "" then host else host + (['/'] + path);
            var name := if key in context.aliasByRepo then context.aliasByRepo[key] else key;
            RewriteDependencyUrl(repoUrl, context, library) == Some("oci://" + (context.proxyHost + (['/'] + name)))
  {
    hide IsPublicHostname, TrimSlashes, Lower;
  }

  /** `alias/chart` names a chart of a classic alias; with more or fewer pieces nothing. */
  lemma {:induction false} ClassicAliasExactly(name: string, alias: string, rest: seq<string>, aliases: Aliases, library: Library)
    requires Segments(name) == [alias] + rest && alias in aliases && aliases[alias].upstream.ClassicUpstream?
    ensures ResolveName(name, aliases, library) ==
            if |rest| == 1 && IsValidChartName(rest[0])
            then Some(Classic(aliases[alias].upstream.repoUrl, rest[0], name, !aliases[alias].store, ConfiguredAlias))
            else None
  {
    hide Segments, IsValidChartName;
  }

  /** `alias/path` names a repository below that of an OCI alias, if every piece is a valid name. */
  lemma {:induction false} OciAliasExactly(name: string, alias: string, rest: seq<string>, aliases: Aliases, library: Library)
    requires Segments(name) == [alias] + rest && alias in aliases && aliases[alias].upstream.OciUpstream?
    ensures var upstream := aliases[alias].upstream;
            ResolveName(name, aliases, library) ==
            if |rest| >= 1 && AllValidNames(rest)
            then Some(Oci(upstream.registry, upstream.repo + (['/'] + Join(rest)), name, aliases[alias].store))
            else None
  {
    hide Segments, IsValidChartName;
    assert ([alias] + rest)[1..] == rest;
  }

  /** `host/path/chart` names a chart of a public host, over HTTPS, if every piece is a valid name. */
  lemma {:induction false} HostPathExactly(name: string, host: string, path: seq<string>, chart: string, aliases: Aliases, library: Library)
    requires Segments(name) == [host] + (path + [chart]) && host !in aliases
    ensures ResolveName(name, aliases, library) ==
            if IsPublicHostname(host, library.isAddress) && AllValidNames(path) && IsValidChartName(chart)
            then Some(Classic("https://" + (if path == [] then host else host + (['/'] + Join(path))), chart, name, false, HostPath))
            else None
  {
    hide Segments, IsValidChartName, IsPublicHostname;
    var segments := [host] + (path + [chart]);
    assert segments[1..|segments| - 1] == path && segments[|segments| - 1] == chart;
  }

  /** A host alone names nothing, and neither does a name without pieces. */
  lemma {:induction false} ShortNames(name: string, aliases: Aliases, library: Library)
    requires |Segments(name)| < 2
    ensures ResolveName(name, aliases, library) == None
  {
    hide Segments;
  }

  /** Names are read piece by piece: these are the pieces of a name written with single slashes. */
  lemma {:induction false} PiecesOfName(pieces: seq<string>)
    requires pieces != [] && forall i | 0 <= i < |pieces| :: IsSegment(pieces[i])
    ensures Segments(Join(pieces)) == pieces
  {
    hide Split, Join, NonEmpty;
    SplitJoin(pieces);
    NonEmptyIs(pieces);
  }

  /* ---- What the surroundings guarantee ---- */

  /** Configuration loading admits only well-formed alias names. */
  predicate ValidAliases(aliases: Aliases) {
    forall name | name in aliases :: IsValidAliasName(name)
  }

  /** A map collected from the classic aliases: of several with one key, any may have won. */
  ghost predicate RewriteMapOf(m: map<string, string>, aliases: Aliases, library: Library) {
    forall key | key in m ::
      && m[key] in aliases && aliases[m[key]].upstream.ClassicUpstream?
      && NormalizeRepoKey(aliases[m[key]].upstream.repoUrl, library) == Some(key)
  }

  /**
    The URL library on the URL that a repository's own name resolves to: a host it has
    read from an HTTP URL, and path pieces that are valid names, come back as they are.
  */
  predicate Reparses(repoUrl: string, library: Library)
    requires Rewritable(repoUrl, library)
  {
    var url := library.parse(repoUrl).value;
    var host, segments := Lower(url.host.value), Segments(TrimSlashes(url.path));
    AllValidNames(segments) ==>
      library.parse(HttpsUrl(host, segments)) == Some(Url("https", Some(host), None, "/" + Join(segments)))
  }

  /** The name a client pulls a dependency under: the rewritten URL without its prefix, and the chart. */
  function PulledName(rewritten: string, proxyHost: string, chart: string): string
    requires |rewritten| >= |proxyHost| + 7
  {
    rewritten[|proxyHost| + 7..] + (['/'] + chart)
  }

  lemma {:induction false} PulledNameOf(proxyHost: string, name: string, chart: string)
    ensures PulledName(OciUrl(proxyHost, name), proxyHost, chart) == name + (['/'] + chart)
  {
    assert OciUrl(proxyHost, name)[|proxyHost| + 7..] == name;
  }

  /** `resolved` is a chart of the repository with the given key. */
  ghost predicate ResolvesTo(resolved: Option<Resolved>, key: string, chart: string, library: Library) {
    && resolved.Some? && resolved.value.Classic?
    && resolved.value.chartName == chart
    && NormalizeRepoKey(resolved.value.repoUrl, library) == Some(key)
  }

  /* ---- Round trip ---- */

  lemma {:induction false} AliasRoundTrip(alias: string, key: string, chart: string, aliases: Aliases, library: Library)
    requires ValidAliases(aliases) && alias in aliases && aliases[alias].upstream.ClassicUpstream?
    requires NormalizeRepoKey(aliases[alias].upstream.repoUrl, library) == Some(key)
    requires IsValidChartName(chart)
    ensures ResolvesTo(ResolveName(alias + (['/'] + chart), aliases, library), key, chart, library)
  {
    ValidNameIsSegment(alias);
    ValidNameIsSegment(chart);
    SegmentsConcat(alias, chart);
    SingleSegment(alias);
    SingleSegment(chart);
  }

  lemma {:induction false} SegmentsOfKey(host: string, path: string, chart: string)
    requires IsSegment(host) && IsSegment(chart)
    ensures Segments(KeyOf(host, path) + (['/'] + chart)) == [host] + (Segments(path) + [chart])
  {
    SegmentsConcat(KeyOf(host, path), chart);
    SingleSegment(chart);
    SingleSegment(host);
    if path == "" {
      assert Segments(path) == [] by { SplitNone("", '/'); assert NonEmpty([""]) == NonEmpty([]); }
    } else {
      SegmentsConcat(host, path);
    }
  }

  lemma {:induction false} KeyOfHttps(repoUrl: string, library: Library)
    requires Rewritable(repoUrl, library) && Reparses(repoUrl, library)
    requires AllValidNames(Segments(TrimSlashes(library.parse(repoUrl).value.path)))
    ensures var url := library.parse(repoUrl).value;
            var host, segments := Lower(url.host.value), Segments(TrimSlashes(url.path));
            NormalizeRepoKey(HttpsUrl(host, segments), library) == Some(KeyOf(host, Join(segments)))
  {
    hide IsPublicHostname, TrimSlashes, Segments, IsValidChartName;
    var url := library.parse(repoUrl).value;
    var segments := Segments(TrimSlashes(url.path));
    LowerTwice(url.host.value);
    if segments != [] {
      forall i | 0 <= i < |segments| ensures IsSegment(segments[i]) { ValidNameIsSegment(segments[i]); }
      JoinEnds(segments);
    }
    TrimSlashesOf(Join(segments));
    assert "/" + Join(segments) == ['/'] + Join(segments);
  }

  lemma {:induction false} KeysAgree(host: string, a: string, b: string)
    ensures KeyOf(host, a) == KeyOf(host, b) <==> a == b
  {
    if a != "" && b != "" {
      assert KeyOf(host, a)[|host| + 1..] == a && KeyOf(host, b)[|host| + 1..] == b;
    }
  }

  /** Every piece of the path is a valid name; an empty path has no pieces to check. */
  predicate PathOk(path: string) {
    path == "" || AllValidNames(Split(path, '/'))
  }

  lemma {:induction false} PathOkMeans(path: string)
    requires path == "" || (path[0] != '/' && path[|path| - 1] != '/')
    ensures PathOk(path) <==> AllValidNames(Segments(path)) && Join(Segments(path)) == path
  {
    if path == "" {
      SplitNone("", '/');
      assert NonEmpty([""]) == NonEmpty([]);
      assert Segments(path) == [];
    } else {
      JoinSegments(path);
      NonEmptyIs(Split(path, '/'));
    }
  }

  /**
    Host-path form, exactly: pulling a rewritten dependency reaches the repository it was
    rewritten from if and only if every piece of the repository path is a valid name.
    A path with an empty, encoded or otherwise invalid piece is rewritten all the same.
  */
  lemma {:induction false} HostPathRoundTrip(repoUrl: string, chart: string, context: Context, aliases: Aliases, library: Library)
    requires ValidAliases(aliases) && IsValidChartName(chart) && Rewritable(repoUrl, library) && Reparses(repoUrl, library)
    requires NormalizeRepoKey(repoUrl, library).value !in context.aliasByRepo
    ensures var rewritten := RewriteDependencyUrl(repoUrl, context, library).value;
            var resolved := ResolveName(PulledName(rewritten, context.proxyHost, chart), aliases, library);
            ResolvesTo(resolved, NormalizeRepoKey(repoUrl, library).value, chart, library)
            <==> PathOk(TrimSlashes(library.parse(repoUrl).value.path))
  {
    hide IsPublicHostname, Segments, Join, Split, Lower, TrimSlashes, IsValidChartName;
    var url := library.parse(repoUrl).value;
    var host, path := Lower(url.host.value), TrimSlashes(url.path);
    var key := KeyOf(host, path);
    PulledNameOf(context.proxyHost, key, chart);
    PublicHostIsSegment(url.host.value, library.isAddress);
    ValidNameIsSegment(chart);
    SegmentsOfKey(host, path, chart);
    var inner := Segments(path);
    var segments := [host] + (inner + [chart]);
    assert segments[1..|segments| - 1] == inner;
    assert segments[|segments| - 1] == chart;
    TrimmedHasNoOuterSlash(url.path);
    PathOkMeans(path);
    if AllValidNames(inner) {
      KeyOfHttps(repoUrl, library);
      KeysAgree(host, Join(inner), path);
    }
  }

  /**
    Main result: the resolver inverts the rewrite, exactly. A rewritten dependency resolves
    to a classic repository with the key it came from if and only if an alias has that key,
    whichever alias won it, or every piece of the repository path is a valid name.
  */
  lemma {:induction false} ResolverInvertsRewrite(repoUrl: string, chart: string, context: Context, aliases: Aliases, library: Library)
    requires ValidAliases(aliases) && IsValidChartName(chart) && RewriteMapOf(context.aliasByRepo, aliases, library)
    requires Rewritable(repoUrl, library) && Reparses(repoUrl, library)
    ensures var key := NormalizeRepoKey(repoUrl, library).value;
            var rewritten := RewriteDependencyUrl(repoUrl, context, library).value;
            var resolved := ResolveName(PulledName(rewritten, context.proxyHost, chart), aliases, library);
            ResolvesTo(resolved, key, chart, library)
            <==> key in context.aliasByRepo || PathOk(TrimSlashes(library.parse(repoUrl).value.path))
  {
    hide ResolvesTo, ResolveName, PathOk, TrimSlashes, IsPublicHostname;
    var key := NormalizeRepoKey(repoUrl, library).value;
    if key in context.aliasByRepo {
      var alias := context.aliasByRepo[key];
      PulledNameOf(context.proxyHost, alias, chart);
      AliasRoundTrip(alias, key, chart, aliases, library);
    } else {
      HostPathRoundTrip(repoUrl, chart, context, aliases, library);
    }
  }

  /* ---- Rewriting a dependency list in place ---- */

  /** A YAML value; mappings keep the order of their keys, and a key is any value. */
  datatype Yaml = Text(text: string) | Mapping(pairs: seq<Pair>) | Sequence(items: seq<Yaml>) | OtherYaml(repr: string)

  datatype Pair = Pair(key: Yaml, value: Yaml)

  /** Position of a text key, or the number of pairs. */
  function KeyIndex(pairs: seq<Pair>, key: string): (k: nat)
    ensures k <= |pairs| && (k < |pairs| ==> pairs[k].key == Yaml.Text(key))
    ensures forall i | 0 <= i < k :: pairs[i].key != Yaml.Text(key)
  {
    if pairs == [] || pairs[0].key == Yaml.Text(key) then 0 else 1 + KeyIndex(pairs[1..], key)
  }

  function Get(value: Yaml, key: string): Option<Yaml> {
    if value.Mapping? && KeyIndex(value.pairs, key) < |value.pairs|
    then Some(value.pairs[KeyIndex(value.pairs, key)].value) else None
  }

  /** A value put under a key that is there already takes the place of the old one. */
  function Put(mapping: Yaml, key: string, value: Yaml): Yaml
    requires Get(mapping, key).Some?
  {
    var k := KeyIndex(mapping.pairs, key);
    Mapping(mapping.pairs[k := Pair(mapping.pairs[k].key, value)])
  }

  lemma {:induction false} KeyIndexIs(pairs: seq<Pair>, key: string, k: nat)
    requires k <= |pairs| && (k < |pairs| ==> pairs[k].key == Yaml.Text(key))
    requires forall i | 0 <= i < k :: pairs[i].key != Yaml.Text(key)
    ensures KeyIndex(pairs, key) == k
  {
  }

  /** Two mappings with the same keys in the same order, and the same values but under `key`. */
  predicate OnlyUnder(key: string, before: Yaml, after: Yaml) {
    && before.Mapping? && after.Mapping?
    && var k := KeyIndex(before.pairs, key);
       && k < |before.pairs| == |after.pairs|
       && after.pairs[k].key == before.pairs[k].key
       && forall i | 0 <= i < |before.pairs| && i != k :: after.pairs[i] == before.pairs[i]
  }

  /** What is put is found, and everything else stays where it was. */
  lemma {:induction false} PutReads(mapping: Yaml, key: string, value: Yaml)
    requires Get(mapping, key).Some?
    ensures var after := Put(mapping, key, value);
            && Get(after, key) == Some(value) && OnlyUnder(key, mapping, after)
            && (after == mapping <==> Get(mapping, key) == Some(value))
  {
    var k, after := KeyIndex(mapping.pairs, key), Put(mapping, key, value);
    KeyIndexIs(after.pairs, key, k);
    if Get(mapping, key) == Some(value) {
      assert after.pairs == mapping.pairs;
    } else {
      assert after.pairs[k] != mapping.pairs[k];
    }
  }

  /** What a mapping has under a text key: the value of the first pair with it. */
  lemma {:induction false} GetExactly(pairs: seq<Pair>, key: string, k: nat)
    requires k <= |pairs| && (k < |pairs| ==> pairs[k].key == Yaml.Text(key))
    requires forall i | 0 <= i < k :: pairs[i].key != Yaml.Text(key)
    ensures Get(Mapping(pairs), key) == if k < |pairs| then Some(pairs[k].value) else None
  {
    KeyIndexIs(pairs, key, k);
  }

  datatype Rewrite = Rewrite(name: string, from: string, to: string)

  /** The repository of a dependency, if it is a text. */
  function RepositoryOf(dep: Yaml): Option<string> {
    match Get(dep, "repository")
    case Some(Text(repo)) => Some(repo)
    case _ => None
  }

  /** The new repository of a dependency, if it gets one. */
  function NewRepository(dep: Yaml, context: Context, library: Library): Option<string> {
    match RepositoryOf(dep)
    case None => None
    case Some(repo) =>
      match RewriteDependencyUrl(repo, context, library)
      case None => None
      case Some(next) => if next == repo then None else Some(next)
  }

  function NameOf(dep: Yaml): string {
    match Get(dep, "name")
    case Some(Text(name)) => name
    case _ => ""
  }

  /** The texts a dependency has under `repository` and `name`; anything but a text counts as none. */
  lemma {:induction false} DependencyTexts(dep: Yaml)
    ensures RepositoryOf(dep) == match Get(dep, "repository")
                                 case Some(value) => (if value.Text? then Some(value.text) else None)
                                 case None => None
    ensures NameOf(dep) == match Get(dep, "name")
                           case Some(value) => (if value.Text? then value.text else "")
                           case None => ""
  {
  }

  function RewriteDep(dep: Yaml, context: Context, library: Library): Yaml {
    match NewRepository(dep, context, library)
    case None => dep
    case Some(next) => Put(dep, "repository", Yaml.Text(next))
  }

  function RewriteAll(deps: seq<Yaml>, context: Context, library: Library): (r: seq<Yaml>)
    ensures |r| == |deps|
    ensures forall i | 0 <= i < |deps| :: r[i] == RewriteDep(deps[i], context, library)
  {
    seq(|deps|, i requires 0 <= i < |deps| => RewriteDep(deps[i], context, library))
  }

  function LogEntry(dep: Yaml, context: Context, library: Library): Rewrite
    requires NewRepository(dep, context, library).Some?
  {
    Rewrite(NameOf(dep), RepositoryOf(dep).value, NewRepository(dep, context, library).value)
  }

  function Log(deps: seq<Yaml>, context: Context, library: Library): seq<Rewrite> {
    if deps == [] then []
    else
      var dep := deps[|deps| - 1];
      Log(deps[..|deps| - 1], context, library) +
      if NewRepository(dep, context, library).Some? then [LogEntry(dep, context, library)] else []
  }

  lemma {:induction false} LogStart(deps: seq<Yaml>, context: Context, library: Library)
    ensures Log(deps[..0], context, library) == []
  {
  }

  lemma {:induction false} LogStep(deps: seq<Yaml>, i: nat, context: Context, library: Library)
    requires i < |deps|
    ensures Log(deps[..i + 1], context, library) ==
            Log(deps[..i], context, library) +
            if NewRepository(deps[i], context, library).Some? then [LogEntry(deps[i], context, library)] else []
  {
    assert deps[..i + 1][..i] == deps[..i];
  }

  method RewriteDepsList(deps: array<Yaml>, context: Context, library: Library) returns (modified: bool, rewrites: seq<Rewrite>)
    modifies deps
    ensures deps[..] == RewriteAll(old(deps[..]), context, library)
    ensures rewrites == Log(old(deps[..]), context, library)
    ensures modified <==> rewrites != []
  {
    hide RewriteDependencyUrl, Log, KeyIndex, NameOf;
    LogStart(deps[..], context, library);
    modified, rewrites := false, [];
    ghost var before := deps[..];
    for i := 0 to deps.Length
      invariant forall j | 0 <= j < i :: deps[j] == RewriteDep(before[j], context, library)
      invariant forall j | i <= j < deps.Length :: deps[j] == before[j]
      invariant rewrites == Log(before[..i], context, library)
      invariant modified <==> rewrites != []
    {
      LogStep(before, i, context, library);
      var dep := deps[i];
      var found := RepositoryOf(dep);
      if found.Some? {
        var repo := found.value;
        var next := RewriteDependencyUrl(repo, context, library);
        if next.Some? && next.value != repo {
          rewrites := rewrites + [Rewrite(NameOf(dep), repo, next.value)];
          deps[i] := Put(dep, "repository", Yaml.Text(next.value));
          modified := true;
        }
      }
    }
    assert before[..deps.Length] == before;
    assert deps[..] == RewriteAll(before, context, library);
  }

  /** Positions whose repository is rewritten, in order. */
  function Changed(deps: seq<Yaml>, context: Context, library: Library): (positions: seq<nat>)
    ensures forall j | 0 <= j < |positions| :: positions[j] < |deps|
  {
    if deps == [] then []
    else
      var front := Changed(deps[..|deps| - 1], context, library);
      if NewRepository(deps[|deps| - 1], context, library).Some? then front + [|deps| - 1] else front
  }

  lemma {:induction false} ChangedAre(deps: seq<Yaml>, context: Context, library: Library)
    ensures var positions := Changed(deps, context, library);
            && (forall i: nat | i < |deps| :: i in positions <==> NewRepository(deps[i], context, library).Some?)
            && (forall j | 0 < j < |positions| :: positions[j - 1] < positions[j])
  {
    hide NewRepository;
    if deps != [] {
      var front := deps[..|deps| - 1];
      ChangedAre(front, context, library);
      var positions := Changed(front, context, library);
      assert forall i: nat | i < |deps| - 1 :: front[i] == deps[i];
      assert |deps| - 1 in positions + [|deps| - 1];
      assert forall i: nat | i < |deps| - 1 :: i in positions <==> i in positions + [|deps| - 1];
    }
  }

  lemma {:induction false} LogFollowsChanges(deps: seq<Yaml>, context: Context, library: Library)
    ensures var positions := Changed(deps, context, library);
            var log := Log(deps, context, library);
            && |log| == |positions|
            && (forall j | 0 <= j < |positions| ::
                  && NewRepository(deps[positions[j]], context, library).Some?
                  && log[j] == LogEntry(deps[positions[j]], context, library))
  {
    hide NewRepository, LogEntry;
    if deps != [] {
      var front := deps[..|deps| - 1];
      LogFollowsChanges(front, context, library);
      var positions := Changed(front, context, library);
      assert forall j | 0 <= j < |positions| :: front[positions[j]] == deps[positions[j]];
    }
  }

  /** A dependency changes exactly when it gets a new repository, and nothing else in it changes or moves. */
  lemma {:induction false} DepIsExact(dep: Yaml, context: Context, library: Library)
    ensures var after := RewriteDep(dep, context, library);
            && (after != dep <==> NewRepository(dep, context, library).Some?)
            && (after != dep ==>
                  && OnlyUnder("repository", dep, after)
                  && RepositoryOf(dep).Some? && RepositoryOf(after) == NewRepository(dep, context, library)
                  && RewriteDependencyUrl(RepositoryOf(dep).value, context, library) == RepositoryOf(after))
  {
    hide RewriteDependencyUrl, KeyIndex, OnlyUnder;
    if NewRepository(dep, context, library).Some? {
      PutReads(dep, "repository", Yaml.Text(NewRepository(dep, context, library).value));
    }
  }

  /**
    The rewrite is exact: an entry changes if and only if its position is listed, only its
    repository changes, all its keys stay in order, and the log gives, in order, each
    changed entry's name and its repository before and after.
  */
  lemma {:induction false} RewriteIsExact(deps: seq<Yaml>, context: Context, library: Library)
    ensures var after := RewriteAll(deps, context, library);
            var positions := Changed(deps, context, library);
            var log := Log(deps, context, library);
            && (forall i: nat | i < |deps| :: i in positions <==> after[i] != deps[i])
            && (forall i: nat | i < |deps| && after[i] != deps[i] :: OnlyUnder("repository", deps[i], after[i]))
            && |log| == |positions|
            && (forall j | 0 <= j < |positions| ::
                  var i := positions[j];
                  && log[j].name == NameOf(deps[i])
                  && RepositoryOf(deps[i]) == Some(log[j].from) && RepositoryOf(after[i]) == Some(log[j].to)
                  && RewriteDependencyUrl(log[j].from, context, library) == Some(log[j].to))
  {
    hide RewriteDependencyUrl, OnlyUnder, RepositoryOf, NameOf, NewRepository, RewriteDep;
    ChangedAre(deps, context, library);
    LogFollowsChanges(deps, context, library);
    forall i: nat | i < |deps| {
      DepIsExact(deps[i], context, library);
    }
  }

  lemma {:induction false} RewrittenIsNotRewritable(repoUrl: string, context: Context, library: Library)
    requires RewriteDependencyUrl(repoUrl, context, library).Some?
    ensures RewriteDependencyUrl(RewriteDependencyUrl(repoUrl, context, library).value, context, library).None?
  {
    var next := RewriteDependencyUrl(repoUrl, context, library).value;
    assert "oci://" <= next;
  }

  /** Rewriting a rewritten list changes nothing and logs nothing. */
  lemma {:induction false} RewriteIsIdempotent(deps: seq<Yaml>, context: Context, library: Library)
    ensures var once := RewriteAll(deps, context, library);
            RewriteAll(once, context, library) == once && Log(once, context, library) == []
  {
    var once := RewriteAll(deps, context, library);
    forall i | 0 <= i < |once|
      ensures NewRepository(once[i], context, library).None?
    {
      DepIsExact(deps[i], context, library);
      if NewRepository(deps[i], context, library).Some? {
        RewrittenIsNotRewritable(RepositoryOf(deps[i]).value, context, library);
      }
    }
    NothingToLog(once, context, library);
  }

  lemma {:induction false} NothingToLog(deps: seq<Yaml>, context: Context, library: Library)
    requires forall i | 0 <= i < |deps| :: NewRepository(deps[i], context, library).None?
    ensures Log(deps, context, library) == []
  {
    if deps != [] {
      NothingToLog(deps[..|deps| - 1], context, library);
    }
  }
}
