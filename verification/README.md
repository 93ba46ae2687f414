# Verified model of helmoci

helmoci serves Helm chart repositories as an OCI registry. Most of it is HTTP plumbing; this
project models the parts that are not, in Dafny, and proves what they promise:

| module | part of helmoci |
|---|---|
| `LinkLexer`, `LinkField`, `TagLinks` | the `Link` header parser (RFC 8288, section 3), its three quote-aware scanners, and the rewriting of upstream pagination links |
| `Bytes`, `PaxRecords` | PAX extended header records, parser and printer |
| `TarArchive`, `TarPaths` | the bounded archive unpacker and the packer, at the level of tar entries, and how names are spelled in tar headers |
| `Names`, `DependencyRewrite` | dependency repository rewriting and the name resolver that undoes it |
| `ChartRewrite` | rewriting a whole chart archive, and the config of the artifact built from it |
| `BlobStore` | content-addressed writes to a shared object store, as atomic steps |
| `ClassicCache` | manifest requests interleaved on one store, tag pointers, and cache hits |
| `StorageKeys` | storage keys and the in-memory store that keeps everything in one map |
| `Streams` | bounded reads, write-through buffering, and the blob verifier that holds one chunk back |
| `Redirects` | the redirect loop of upstream requests |
| `TagPages` | version listing and tag pagination |
| `Witnesses` | concrete inputs on which the program does less than one would expect |
| `Wrappers`, `Sequences`, `Text` | shared vocabulary |

## How to read it

Code that loops or updates fields is a method or a class, proved equal to a specification
function; the main results are lemmas about those functions. Every lemma carries
`{:induction false}`, so each induction is written out, and a proof that would unfold too much
hides the definitions it does not need. Concurrency is a step relation:
each store request is one atomic step, any number of writers and requests interleave, a
request may fail with or without having taken effect (`Weather`), and a crash is a request
that takes no further step. A digest-addressed OCI request is one that never publishes.

Libraries enter as function parameters: the `url` crate (`UrlLibrary`, `Library`), SHA-256 and
JSON (`Codec`, `PointerCodec`), YAML (`YamlLibrary`), and the tar writer, which decides for each
name whether it goes into a header, and spelled how, or into a long-name entry (`Writer`). What a
lemma needs of them is a named hypothesis:

- `CollisionFree`: a digest has no collision among the bytes of a run;
- `DecodesWhatItEncodes`: the manifests the program writes for configs and layers of a run read back
  as they were written, `ReadsBack`: so do the tag pointers that have a JSON form, and `Reprints`: so
  do the rewritten documents of the archive at hand;
- `KeepsQueriesSafe`: a query taken from a safe reference holds URI characters only;
- `Reparses`: the HTTPS URL that the repository at hand resolves to, made of its own parsed host and
  its own path pieces where they are valid names, parses to that host and path;
- `PlainPaths`: the header paths of the archive at hand do not end in a NUL byte;
- `Respells`: the tar writer spells those names of the archive at hand that it puts in a header piece
  by piece, without empty and `.` pieces, keeping a final slash.

Two things about the tar writer are built into `PackFile`: a long name is stored byte for byte with a
NUL after it, and data, mode and time are stored as they are. The tar library is not part of this
model.

Integers are unbounded, so the widths are written out: archive budgets are checked against
`u64` and `usize` (64 bits) exactly where the program uses checked additions, and numerals in PAX
records are bounded the same way.

## Where the code does less than its documentation says

- A comment on the blob verifier (`bins/helmoci/src/passthrough.rs:493-499`) says that a corrupt
  entry always ends short of what it promised. It does if and only if its last chunk is not
  empty (`Streams.CorruptBodyIsShort`); `Streams.CorruptBodyCanArriveWhole` is the input that
  shows the difference. The error at the end is emitted in both cases.
- A repository is rewritten even when its path has pieces that the resolver refuses (empty,
  encoded, not a name). The round trip holds if and only if an alias has the repository's key or
  every piece is a valid name (`DependencyRewrite.ResolverInvertsRewrite`);
  `Witnesses.GappedPathDoesNotResolve` is the repository `https://a.b/x//y`.
- Packing and unpacking is the identity if and only if the limits cover the data and the long-name
  payloads and the tar writer keeps every name (`TarArchive.PackRoundTrip`), that is, every name in
  a header is a plain path and no long name ends in NUL (`TarPaths.PackRoundTripOfPaths`).
  `Witnesses.DottedNameIsRespelled` is `./Chart.yaml`, as in an archive made in the chart's own
  directory.
- Rewriting can make a chart outgrow the limits it was downloaded under: documents grow and long
  names become charged entries. The build of such a chart fails, and exactly then
  (`ChartRewrite.ConfigIsOfLayer`); `Witnesses.RewriteCanOutgrowLimits` is such a chart.
- Respelled names can put another document in the chart's place. The chart is overtaken if and only
  if some file before it has a name that goes into a header and is a root name but for its `.` pieces
  (`ChartRewrite.OvertakenExactly`). The config describes the rewritten chart if and only if the
  rewritten layer fits and the chart is not overtaken, or by a document that reads the same
  (`ChartRewrite.ConfigMatchesLayer`); a second rewrite leaves the layer alone if and only if it fits
  and the chart is not overtaken by a document with rewrites (`ChartRewrite.RewriteSettles`).
  `Witnesses.OtherChartTakesOver` is an archive with `./other/Chart.yaml` before `demo/Chart.yaml`.
- Over all runs, faults and interleavings, stored bytes are never replaced if and only if all
  writers of the key, and the object already there, have the same bytes
  (`BlobStore.WriteOnceIsAgreement`): three failed requests are enough for a single writer to
  replace what it disagrees with. Over the runs in which no second probe fails, it is enough, and
  otherwise necessary, that the object is there from the start (`BlobStore.ProbesProtectStored`).
  Where conditional creates work, the first bytes stay whatever the writers pass
  (`BlobStore.FirstWriteWins`).
- The length search of the PAX printer yields the least self-counting length; it is not the only
  one (`PaxRecords.LengthIsNotUnique`).

## Model

| member | source | states |
|---|---|---|
| `LinkLexer.IsQuotedString` | bins/helmoci/src/passthrough.rs:609-638 | accepts exactly the non-empty quoted strings of a three-state reference automaton: quotable characters, inside quotes after every proper prefix, outside at the end |
| `LinkLexer.TokenCharsAre` | bins/helmoci/src/passthrough.rs:586-603 | token characters are the visible ASCII characters but the delimiters of RFC 9110 |
| `LinkLexer.ClassesAre` | bins/helmoci/src/passthrough.rs:634-636 | field characters, quotable characters and white space, by their codes |
| `LinkLexer.StopStateIs` | bins/helmoci/src/passthrough.rs:640-660 | a scan that stops before the end stops outside quotes |
| `LinkLexer.PassForward` | bins/helmoci/src/passthrough.rs:644-656 | one pass of a loop that keeps a flag and jumps over escape pairs is one or two steps of the automaton |
| `LinkLexer.SplitLinkParams` | bins/helmoci/src/passthrough.rs:640-660 | the parts are those between the semicolons the automaton reads outside quotes |
| `LinkLexer.ScanParams` | bins/helmoci/src/passthrough.rs:868-881 | stops at the first comma outside quotes and reports whether it ended inside them; a position past the end implies still in quotes |
| `LinkField.ValidParamsAreClean` | bins/helmoci/src/passthrough.rs:662-692 | the scanners agree: a suffix that the semicolon scanner and the quoted-string check accept has no comma the comma scanner stops at, and ends outside quotes |
| `LinkField.CheckParam` | bins/helmoci/src/passthrough.rs:673-692 | one parameter: a token name, optionally with a token or quoted-string value |
| `LinkField.CheckParams` | bins/helmoci/src/passthrough.rs:662-671 | a suffix is empty or a semicolon followed by valid parameters |
| `LinkField.ParamExactly` | bins/helmoci/src/passthrough.rs:673-692 | a parameter with a value, with white space around both, is valid exactly if the name is a token and the value a token or a quoted string |
| `LinkField.BareParamExactly` | bins/helmoci/src/passthrough.rs:673-692 | a parameter without a value is valid exactly if it is a token |
| `LinkField.MissingPieces` | bins/helmoci/src/passthrough.rs:673-692 | an empty parameter, a missing name and a missing value are invalid |
| `LinkField.SuffixExactly` | bins/helmoci/src/passthrough.rs:662-671 | parameters behind semicolons are a valid suffix exactly if each of them is valid |
| `LinkField.ParseOne` | bins/helmoci/src/passthrough.rs:847-886 | one round of the field parser consumes what the specification's round consumes and returns the same link |
| `LinkField.ParseLinkField` | bins/helmoci/src/passthrough.rs:834-888 | the imperative parser computes the recursive specification, failures included |
| `LinkField.RenderParses` | bins/helmoci/src/passthrough.rs:834-888 | parsing any rendering of good links, with any separators between them, gives back those links |
| `LinkField.ParsedIsRendered` | bins/helmoci/src/passthrough.rs:834-888 | whatever the parser accepts is a rendering of the links it returns |
| `LinkField.FieldGrammar` | bins/helmoci/src/passthrough.rs:834-888 | the parser returns a list of links if and only if the field is a rendering of that list |
| `LinkField.RoundTrip` | bins/helmoci/src/passthrough.rs:834-888 | printing any list of good links, joined by commas, and parsing it is the identity |
| `LinkField.SingleLink` | bins/helmoci/src/passthrough.rs:834-888 | a single link is its own printed form |
| `TagLinks.UnquoteLinkValue` | bins/helmoci/src/passthrough.rs:694-713 | the loop over one escape flag computes the recursive specification |
| `TagLinks.QuoteRoundTrip` | bins/helmoci/src/passthrough.rs:694-713 | unquoting inverts quoting for every text, and the quoted form passes the quoted-string check exactly for non-empty quotable texts |
| `TagLinks.IsSafeUriReference` | bins/helmoci/src/passthrough.rs:736-784 | accepts exactly the strings of URI characters in which every percent sign starts a complete escape |
| `TagLinks.UriCharsAre` | bins/helmoci/src/passthrough.rs:736-784 | URI characters are the visible ASCII characters but nine |
| `TagLinks.SafeWithoutPercent` | bins/helmoci/src/passthrough.rs:736-784 | without percent signs, a reference is safe exactly if all its characters are URI characters |
| `TagLinks.SafeAtPercent` | bins/helmoci/src/passthrough.rs:736-784 | at the first percent sign, exactly if two hexadecimal digits follow it and the rest is safe |
| `TagLinks.AbsoluteExactly` | bins/helmoci/src/passthrough.rs:792-808 | a reference with scheme and authority is strict exactly if its scheme, in any letter case, is the upstream's |
| `TagLinks.AuthorityIsNeeded` | bins/helmoci/src/passthrough.rs:792-808 | without an authority, or with an empty one, no absolute reference is strict |
| `TagLinks.RelativeExactly` | bins/helmoci/src/passthrough.rs:792-808 | a reference without a colon in its first segment is strict exactly if it does not start with two slashes |
| `TagLinks.OneNextLink` | bins/helmoci/src/passthrough.rs:919-932 | the filter leaves one link exactly when one position over all fields holds the only `next` link, and it is that link |
| `TagLinks.RewriteTagLinks` | bins/helmoci/src/passthrough.rs:935-948 | the loop over fields computes the specification: nothing as soon as one field is malformed |
| `TagLinks.ChosenLinkIsRewritten` | bins/helmoci/src/passthrough.rs:810-948 | the only `next` link gives the proxy's tag list with its query and parameters verbatim if its target is safe, strict and the same resource without a fragment, and nothing otherwise |
| `TagLinks.AmbiguousLinksAreDropped` | bins/helmoci/src/passthrough.rs:919-948 | no header when no link or more than one is a `next` link, or a field does not parse |
| `TagLinks.OneField` | bins/helmoci/src/passthrough.rs:834-888 | a field with one printed link gathers just that link |
| `TagLinks.RewrittenLinkReadsBack` | bins/helmoci/src/passthrough.rs:893-948 | a header is emitted if and only if all fields parse, exactly one link is `next` and its target is the same resource; the emitted header parses to one link, to the proxy's own tag list, with the parameters verbatim and still `next` |
| `TagLinks.QuotedRelIsNext` | bins/helmoci/src/passthrough.rs:717-734 | every spelling of a quoted `rel` of `next` is a valid, trimmed suffix and a `next` relation |
| `TagLinks.OneRelExactly` | bins/helmoci/src/passthrough.rs:717-734 | an unquoted `rel` parameter is a `next` relation exactly if its value is `next` in any letter case |
| `TagLinks.FirstRelDecides` | bins/helmoci/src/passthrough.rs:717-734 | of two parameters the first `rel` decides, whatever the other says |
| `TagLinks.QuotedListExactly` | bins/helmoci/src/passthrough.rs:717-734 | a quoted list of relations is `next` exactly if one of them is |
| `PaxRecords.PendingMetadata.Take` | crates/helmoci-core/src/helm/tgz.rs:311 | hands over all pending metadata and leaves none |
| `PaxRecords.PendingMetadata.ApplyPaxRecords` | crates/helmoci-core/src/helm/tgz.rs:170-217 | the parser loop terminates on every area and leaves what the specification leaves, also when it fails half way |
| `PaxRecords.PaxRecord` | crates/helmoci-core/src/helm/tgz.rs:459-470 | the printer's loop terminates and prints the specified record |
| `PaxRecords.RecordLengthIsLeast` | crates/helmoci-core/src/helm/tgz.rs:459-470 | the length found counts its own digits exactly, and no smaller length does |
| `PaxRecords.LengthIsNotUnique` | crates/helmoci-core/src/helm/tgz.rs:459-470 | a seven-byte body has two self-counting lengths; the printer takes the smaller |
| `PaxRecords.PrintedRecordReads` | crates/helmoci-core/src/helm/tgz.rs:170-199 | a printed record at the front of any area is read back exactly |
| `PaxRecords.RecordRoundTrip` | crates/helmoci-core/src/helm/tgz.rs:170-217 | any printed list of records, padded with zeros or not, parses if and only if all are good, and leaves the last non-empty path and the last size |
| `PaxRecords.RecordExactly` | crates/helmoci-core/src/helm/tgz.rs:170-199 | a record is taken off an area exactly if the area begins with numeral, space, key, equals sign, value and newline, and the numeral is the length of all that |
| `PaxRecords.NumeralsExactly` | crates/helmoci-core/src/helm/tgz.rs:170-199 | numerals may have a plus sign and leading zeros, are bounded, and are never empty or negative |
| `PaxRecords.GoodExactly` | crates/helmoci-core/src/helm/tgz.rs:196-213 | records are refused exactly for a `GNU.sparse.` key or a size that is no 64-bit number |
| `PaxRecords.BadRecordsFail` | crates/helmoci-core/src/helm/tgz.rs:170-217 | an area with such a record fails, wherever it stands |
| `PaxRecords.NoRecordFails` | crates/helmoci-core/src/helm/tgz.rs:170-217 | what is neither a record nor all zeros fails, and leaves what was pending |
| `PaxRecords.ReadRecordPrints` | crates/helmoci-core/src/helm/tgz.rs:170-199 | a record read from anywhere prints to no more bytes than it was read from |
| `PaxRecords.AcceptedAreaPrints` | crates/helmoci-core/src/helm/tgz.rs:170-217 | converse: every accepted area means the same as some printed list of records that is no longer |
| `TarArchive.UnpackTgz` | crates/helmoci-core/src/helm/tgz.rs:227-341 | the loop over five pieces of state computes the step specification, errors included |
| `TarArchive.MetadataStep` | crates/helmoci-core/src/helm/tgz.rs:287-309 | a metadata entry is accepted exactly when the run of metadata with it is still in order (complete, no duplicate, parsable), and the pending state summarises that run |
| `TarArchive.BudgetMeaning` | crates/helmoci-core/src/helm/tgz.rs:241-278 | the three budget checks of one entry hold exactly when its charge fits with all later ones |
| `TarArchive.UnpackRefines` | crates/helmoci-core/src/helm/tgz.rs:227-341 | unpacking returns `files` if and only if every entry is readable, every run of metadata and its member is in order with nothing left over, the charges fit, and `files` are the regular members in order |
| `TarArchive.RunIsOneGroup` | crates/helmoci-core/src/helm/tgz.rs:129-137 | long names, long links, local and global headers belong to the member after them and are charged their own size; nothing else is metadata |
| `TarArchive.MetasOkExactly` | crates/helmoci-core/src/helm/tgz.rs:287-309 | a run of metadata is in order exactly if its payloads are complete, it has no two long names and no two local headers, and the header's records parse |
| `TarArchive.OneRunExactly` | crates/helmoci-core/src/helm/tgz.rs:227-341 | one run and its member unpack exactly if the run is in order, the charges fit, and the member is no sparse file and as long as it counts for; mode 0644 and time zero stand in for missing ones |
| `TarArchive.PaxSizeBeatsHeader` | crates/helmoci-core/src/helm/tgz.rs:251-255 | the size of a local header, wherever it stands, is what its member counts for |
| `TarArchive.MalformedIsInvalid` | crates/helmoci-core/src/helm/tgz.rs:227-341 | an archive that fits as far as it can be read, and does not unpack, is an invalid chart |
| `TarArchive.FirstTooMuchIsTooLarge` | crates/helmoci-core/src/helm/tgz.rs:241-278 | the first entry that does not fit, after entries in order that do, makes the archive too large, whatever follows |
| `TarArchive.LimitsAreAFilter` | crates/helmoci-core/src/helm/tgz.rs:241-278 | an archive that unpacks unbounded yields the same files under limits that its charges fit, and `ChartTooLarge` otherwise |
| `TarArchive.LimitsNeverRepair` | crates/helmoci-core/src/helm/tgz.rs:241-278 | success under any limits is success without limits, with the same files |
| `TarArchive.LimitsAreMonotone` | crates/helmoci-core/src/helm/tgz.rs:241-278 | raising limits never loses an archive |
| `TarArchive.OutputWithinLimits` | crates/helmoci-core/src/helm/tgz.rs:34-79 | on success, file count, each file and all data together are within the limits |
| `TarArchive.MemberResetsMetadata` | crates/helmoci-core/src/helm/tgz.rs:311-314 | a member, even one then dropped, takes all metadata with it: what follows is grouped and charged as at the start |
| `TarArchive.TrailingMetadata` | crates/helmoci-core/src/helm/tgz.rs:336-340 | a last entry without a member is tolerated exactly if it is a long link or a global header |
| `TarArchive.PaxPathBeatsLongName` | crates/helmoci-core/src/helm/tgz.rs:110-127 | in every run of metadata that is in order, wherever its entries stand, the path of the PAX header wins, then the GNU long name, then the member's own header |
| `TarArchive.PackTgz` | crates/helmoci-core/src/helm/tgz.rs:343-362 | packing emits the entries of all files in order, under the names the tar writer stores, or fails if it refuses one |
| `TarArchive.PackedReads` | crates/helmoci-core/src/helm/tgz.rs:227-362 | what is packed is well formed, its members are the files under the names the tar writer stored, and its charges are the data and the long-name payloads |
| `TarArchive.PackedUnpacks` | crates/helmoci-core/src/helm/tgz.rs:227-362 | packed files unpack if and only if the charges fit, and then to the files under their stored names |
| `TarArchive.PackRoundTrip` | crates/helmoci-core/src/helm/tgz.rs:227-362 | unpacking what was packed gives the same names, data, modes and times if and only if the charges fit and the tar writer hands every name on as it is |
| `TarPaths.StoredIsSame` | crates/helmoci-core/src/helm/tgz.rs:353-355 | spelling a path piece by piece keeps it if and only if no piece is empty or a dot, but for a final slash or a lone dot |
| `TarPaths.PackRoundTripOfPaths` | crates/helmoci-core/src/helm/tgz.rs:227-362 | with a tar writer that spells header paths that way, the round trip holds if and only if the charges fit, header names are plain paths and no long name ends in NUL |
| `DependencyRewrite.AliasRoundTrip` | crates/helmoci-core/src/resolver/mod.rs:150-169 | an alias name plus a chart resolves to the repository of that alias |
| `DependencyRewrite.KeyExactly` | crates/helmoci-core/src/resolver/mod.rs:124-136 | a URL has a key exactly if it has a host and no port: lower-cased host and path without outer slashes |
| `DependencyRewrite.RewrittenExactly` | crates/helmoci-core/src/helm/rewrite.rs:29-51 | a repository is rewritten exactly if it is an HTTP or HTTPS URL of a public host without a port: to the alias with its key, or to the key |
| `DependencyRewrite.ClassicAliasExactly` | crates/helmoci-core/src/resolver/mod.rs:150-169 | a classic alias with exactly one valid chart name resolves to that chart of its repository, and to nothing otherwise |
| `DependencyRewrite.OciAliasExactly` | crates/helmoci-core/src/resolver/mod.rs:170-186 | an OCI alias with valid pieces resolves to the repository below its own, and to nothing otherwise |
| `DependencyRewrite.HostPathExactly` | crates/helmoci-core/src/resolver/mod.rs:191-219 | a public host with valid pieces resolves to the chart below its HTTPS URL, and to nothing otherwise |
| `DependencyRewrite.ShortNames` | crates/helmoci-core/src/resolver/mod.rs:150-195 | a name with fewer than two pieces resolves to nothing |
| `DependencyRewrite.HostPathRoundTrip` | crates/helmoci-core/src/resolver/mod.rs:124-219 | the host-path name of a repository resolves to a repository with its key if and only if every path piece is a valid name |
| `DependencyRewrite.ResolverInvertsRewrite` | crates/helmoci-core/src/helm/rewrite.rs:29-51 | a rewritten dependency resolves to a classic repository with the key it came from if and only if an alias has that key, whichever won it, or every path piece is a valid name |
| `DependencyRewrite.RewriteDepsList` | crates/helmoci-core/src/helm/rewrite.rs:128-168 | the in-place loop leaves the specified list and log, and reports a modification exactly when it logs one |
| `DependencyRewrite.RewriteIsExact` | crates/helmoci-core/src/helm/rewrite.rs:128-168 | an entry changes if and only if its position is listed, only its repository changes and its keys stay in order, and the log names the changed entries in order with both repositories |
| `DependencyRewrite.RewriteIsIdempotent` | crates/helmoci-core/src/helm/rewrite.rs:28-51 | rewriting a rewritten list changes nothing and logs nothing |
| `Names.PublicHostIsSegment` | crates/helmoci-core/src/resolver/hostname.rs:1-46 | a public host name is one path segment and can never be an alias name |
| `Names.PublicHostExactly` | crates/helmoci-core/src/resolver/hostname.rs:12-46 | public host names by their labels: at least two, well formed, not all numeric, the last neither `localhost` nor `local`, and no address |
| `Names.LabelsExactly` | crates/helmoci-core/src/resolver/hostname.rs:37-45 | labels are letters and digits, with hyphens inside only |
| `Names.NumericExactly` | crates/helmoci-core/src/resolver/hostname.rs:2-7 | which labels are numeric: digits, or `0x` and hexadecimal digits |
| `Names.NamesExactly` | crates/helmoci-core/src/resolver/mod.rs:66-87 | chart and alias names by their first and later characters |
| `ChartRewrite.RewriteInPlace` | crates/helmoci-core/src/helm/rewrite.rs:92-100 | rewrites the dependency list of a document in place, or reports that nothing changed |
| `ChartRewrite.RewriteChartDependencies` | crates/helmoci-core/src/helm/rewrite.rs:64-126 | the imperative rewrite computes the specification: unpack, chart document, lock file, pack, and every early return |
| `ChartRewrite.DocumentIsExact` | crates/helmoci-core/src/helm/rewrite.rs:92-100 | a document is rewritten exactly when some dependency of it changes; nothing but its dependencies changes, and all keys stay in order |
| `ChartRewrite.ModifiesOnlyWhatItMust` | crates/helmoci-core/src/helm/rewrite.rs:64-100 | a successful rewrite modifies exactly when there is a proxy host and something to rewrite; otherwise the archive comes back as it was |
| `ChartRewrite.RewriteIsContained` | crates/helmoci-core/src/helm/rewrite.rs:64-126 | every file keeps its place, mode and time; the root chart document, and the root lock file exactly if it has rewrites that can be printed, read back as what they were with rewritten dependencies, and all other contents stay; whoever unpacks the result gets just that, with each name as it was exactly if the tar writer keeps it |
| `ChartRewrite.FailsExactly` | crates/helmoci-core/src/helm/rewrite.rs:64-126 | a rewrite fails exactly if the archive does not unpack, or the chart has rewrites and cannot be printed, or the tar writer refuses a name, with the error of each |
| `ChartRewrite.RootNames` | crates/helmoci-core/src/helm/tgz.rs:365-372 | a base name alone, or below one directory other than `charts`, is that of a root document |
| `ChartRewrite.NoRootNames` | crates/helmoci-core/src/helm/tgz.rs:365-372 | more than two pieces, or another last piece, is none of a root document |
| `ChartRewrite.RewrittenUnpacks` | crates/helmoci-core/src/helm/rewrite.rs:121-125 | the rewritten archive unpacks if and only if its charges fit, and then to the edited files under their stored names |
| `ChartRewrite.PlainNamesAreReceived` | crates/helmoci-core/src/helm/rewrite.rs:121-125 | with a tar writer that spells header paths piece by piece, a reader gets the edited files unchanged if and only if every name in a header is a plain path |
| `ChartRewrite.ReceivedChart` | crates/helmoci-core/src/helm/tgz.rs:365-372 | the first root chart document under the stored names is the first file that was one or whose name, put in a header, is one without its dots |
| `ChartRewrite.OvertakenExactly` | crates/helmoci-core/src/helm/tgz.rs:365-372 | the chart is overtaken if and only if a file before it has a header name that is a root name but for its dots |
| `ChartRewrite.SettlesForReader` | crates/helmoci-core/src/helm/rewrite.rs:64-126 | for any tar writer: rewriting a rewritten archive gives it back unmodified if and only if it fits and what a reader takes for the chart has no rewrites |
| `ChartRewrite.RewriteSettles` | crates/helmoci-core/src/helm/rewrite.rs:64-126 | in terms of the archive's own files: rewriting again, under any limits, gives the rewritten archive back unmodified if and only if it fits and the chart is not overtaken by a document with rewrites |
| `ChartRewrite.ConfigIsOfLayer` | crates/helmoci-core/src/oci/build.rs:30-43 | for any tar writer: the build of a rewritten chart succeeds if and only if the layer fits the limits and the document a reader of the layer takes for the chart has a JSON form, which is the config |
| `ChartRewrite.ConfigOfDownload` | crates/helmoci-core/src/oci/build.rs:30-43 | the build of a chart that is not rewritten takes the download for its layer and its root chart document, which must be a mapping, for its config |
| `ChartRewrite.ConfigMatchesLayer` | crates/helmoci-core/src/oci/build.rs:30-43 | in terms of the archive's own files, whatever the JSON encoder: the config is that of the rewritten chart document if and only if the layer fits and the chart is not overtaken, or by a document that reads the same |
| `Witnesses.RewriteCanOutgrowLimits` | crates/helmoci-core/src/helm/tgz.rs:69-78 | a `Chart.yaml` with a long description that unpacks and is rewritten under a configured budget of a million bytes, which its rewritten text exceeds by four, so that its build fails |
| `Witnesses.OtherChartTakesOver` | crates/helmoci-core/src/oci/build.rs:35-42 | an archive whose rewritten form has another first root document: the config is the other chart's, and a second rewrite does not leave the layer alone |
| `Witnesses.DottedNameIsRespelled` | crates/helmoci-core/src/helm/tgz.rs:353-355 | `./Chart.yaml` does not come back under its name from packing and unpacking, under any limits |
| `Witnesses.GappedPathDoesNotResolve` | crates/helmoci-core/src/helm/rewrite.rs:29-51 | the repository `https://a.b/x//y` is rewritten, and no chart pulled under the new name resolves to it |
| `BlobStore.ObjectStore.AlreadyStored` | crates/helmoci-storage/src/objstore.rs:40-53 | one request; reports an object only when it is there, always when it is there and the probe works, and never when the probe fails |
| `BlobStore.ObjectStore.PutOnce` | crates/helmoci-storage/src/objstore.rs:55-76 | one request; without an error the key is present and holds the data unless a create found another object, a create never changes an object that exists, and no other key is touched |
| `BlobStore.ObjectStore.PutRungs` | crates/helmoci-storage/src/objstore.rs:78-97 | runs exactly the steps of the atomic writer down the attribute ladder |
| `BlobStore.ObjectStore.PutBlob` | crates/helmoci-storage/src/objstore.rs:182-217 | runs exactly the steps of an atomic writer from its first probe to its end, with the same result and the same store |
| `BlobStore.WriteIsShort` | crates/helmoci-storage/src/objstore.rs:182-217 | a blob write ends after at most eight store requests |
| `BlobStore.AnswersExactly` | crates/helmoci-storage/src/objstore.rs:40-143 | where each answer leads a writer, on each of the three rungs: which errors step down, which lead to the second probe, which end the write |
| `BlobStore.EffectsExactly` | crates/helmoci-storage/src/objstore.rs:55-97 | what every request does to the store, also when it is reported failed but reached it: a create stores only where nothing is, an overwrite always, nothing else changes an object |
| `BlobStore.CapabilityErrorsOverwrite` | crates/helmoci-storage/src/objstore.rs:182-217 | whichever of the three errors says that conditional creates are missing, a write of an absent key ends with its bytes stored |
| `BlobStore.SuccessIsPresence` | crates/helmoci-storage/src/objstore.rs:182-217 | in every reachable state of any interleaving, a write that succeeded has its object in the store |
| `BlobStore.OverwriteNeedsMissingCapability` | crates/helmoci-storage/src/objstore.rs:127-129 | a failure other than a missing capability never leads a writer to its second probe or to an overwrite |
| `BlobStore.EndIsFinal` | crates/helmoci-storage/src/objstore.rs:182-217 | a write that has ended stays as it ended |
| `BlobStore.FirstWriteWins` | crates/helmoci-storage/src/objstore.rs:55-97 | where conditional creates work, the first bytes stored under a key never change, whatever later writers pass |
| `BlobStore.LateWritersNeverReplace` | crates/helmoci-storage/src/objstore.rs:200-217 | on any backend, an object present before anyone passes the second probe is never replaced while second probes work |
| `BlobStore.UnanimousWritesNeverChange` | crates/helmoci-storage/src/objstore.rs:182-217 | on any backend and under every failure, stored bytes never change while all writers of the key pass the same bytes |
| `BlobStore.StoredBytesAreSourced` | crates/helmoci-storage/src/objstore.rs:182-217 | whatever is stored was there before or was passed by a writer of that key |
| `BlobStore.WriteOnceIsAgreement` | crates/helmoci-storage/src/objstore.rs:182-217 | for any store and any writers not yet started on a key: no run replaces bytes stored under it if and only if all its writers and the object already there have the same bytes |
| `BlobStore.ProbesProtectStored` | crates/helmoci-storage/src/objstore.rs:205-211 | over the runs in which no second probe fails, stored bytes are never replaced if and only if the object is there from the start or all writers of the key agree |
| `BlobStore.DisagreeingWritersReplace` | crates/helmoci-storage/src/objstore.rs:182-217 | in any system where the key is not stored, any two writers of it that disagree can replace each other's bytes on a backend that rejects conditional creates, without a failed probe |
| `ClassicCache.WriterExtends` | crates/helmoci-storage/src/objstore.rs:182-217 | under content addressing a step only adds a writer's own bytes under their own digest |
| `ClassicCache.DoneRequestIsBacked` | bins/helmoci/src/classic.rs:505-522 | when all blob writes of a request have succeeded, its pointer has everything behind it |
| `ClassicCache.StepKeepsInvariant` | bins/helmoci/src/classic.rs:505-522 | every step of every request, failing or not, keeps blobs content-addressed and pointers backed |
| `ClassicCache.EmptyStoreIsGood` | bins/helmoci/src/classic.rs:505-522 | requests as the two handlers issue them satisfy the invariant on an empty store |
| `ClassicCache.NoDanglingPointers` | bins/helmoci/src/passthrough.rs:1218-1238 | in every reachable state of any interleaving with failures and crashes, every tag pointer names a stored manifest of its size, and a classic one also a stored config and stored layers of theirs; no blob changes |
| `ClassicCache.BuildIsConsistent` | crates/helmoci-core/src/oci/build.rs:43-78 | the manifest of a build names its config and layer with their digests, sizes and media types, and the tag pointer names the manifest |
| `ClassicCache.UndisturbedPullPublishes` | bins/helmoci/src/classic.rs:505-522 | a classic pull that nothing disturbs stores config, layer and manifest and sets its tag, on any store |
| `ClassicCache.UndisturbedOciPullPublishes` | bins/helmoci/src/passthrough.rs:1218-1238 | so does an OCI pull with its manifest |
| `ClassicCache.CachedTagManifest` | bins/helmoci/src/classic.rs:361-393 | reading a tag computes the specified hit, miss or outage |
| `ClassicCache.HitExactly` | bins/helmoci/src/classic.rs:296-393 | a hit is served exactly for a readable pointer whose blob arrives whole with its size and digest and is a chart manifest; what is neither hit nor outage is a miss |
| `ClassicCache.OutageExactly` | bins/helmoci/src/classic.rs:324-393 | an outage is reported exactly if reading the pointer, opening the blob or streaming it fails |
| `ClassicCache.HitAgreesWithBuild` | bins/helmoci/src/classic.rs:296-393 | a pointer that a build wrote serves the very bytes, digest and media type of that build, or an outage exactly when storage fails, or a miss exactly when over the cap |
| `ClassicCache.HitIsSound` | bins/helmoci/src/classic.rs:324-356 | on any store, what a hit serves hashes to the pointer's digest, has its size, fits the cap and is a Helm manifest |
| `ClassicCache.OutageIsNeverAMiss` | bins/helmoci/src/classic.rs:324-393 | a miss means that no storage read that was made failed |
| `StorageKeys.TagKeysAreInjective` | crates/helmoci-storage/src/lib.rs:92-98 | with the slash-free hosts and tags that routing admits, a tag key determines host, name and tag |
| `StorageKeys.KeySpacesAreDisjoint` | crates/helmoci-storage/src/lib.rs:92-98 | no tag key is a blob key; blobs are below `blobs/`, pointers below `tags/` with host, name and tag |
| `StorageKeys.SlashesCollide` | bins/helmoci/src/routes.rs:124-139 | without the routing guarantee two different scopes share a key |
| `StorageKeys.EphemeralStorage.PutBlobEntry` | crates/helmoci-storage/src/ephemeral.rs:68-80 | inserts a blob if its key is absent and changes nothing else |
| `StorageKeys.EphemeralStorage.PutTagPointer` | crates/helmoci-storage/src/ephemeral.rs:94-108 | replaces the pointer of a tag by its JSON form; fails and changes nothing if it has none |
| `StorageKeys.EphemeralStorage.GetBlob` | crates/helmoci-storage/src/ephemeral.rs:43-55 | returns what is stored under the blob's key |
| `StorageKeys.EphemeralStorage.GetTagPointer` | crates/helmoci-storage/src/ephemeral.rs:82-92 | decodes what is stored under the tag's key; an unreadable pointer counts as none |
| `StorageKeys.BlobsAreWriteOnce` | crates/helmoci-storage/src/ephemeral.rs:68-80 | after any run of puts a blob is what was there first |
| `StorageKeys.TagsAreLastWriterWins` | crates/helmoci-storage/src/ephemeral.rs:82-108 | after any run of puts a tag reads as the last pointer put under it that has a JSON form |
| `StorageKeys.OneMapIsTwoStores` | crates/helmoci-storage/src/ephemeral.rs:68-108 | one map refines two independent stores: write-once blobs and last-writer-wins pointers |
| `Streams.ReadUpstreamBlob` | bins/helmoci/src/passthrough.rs:445-472 | buffered if and only if the whole body arrives and fits; oversized if and only if more than the cap arrives, with a prefix of exactly the cap, a rest that starts with at least one byte, and no byte lost; else the first failure |
| `Streams.ReadBounded` | bins/helmoci/src/upstream.rs:154-188 | the whole body exactly if it arrives and it and the advertised size fit; too large exactly if either does not; else the first failure |
| `Streams.BoundedExactly` | bins/helmoci/src/upstream.rs:154-188 | the same for the specification that the manifest cache uses |
| `Streams.ChunkingIsInvisible` | bins/helmoci/src/upstream.rs:154-188 | how a body is cut never shows in a bounded read |
| `Streams.VerifyingBlob.Next` | bins/helmoci/src/passthrough.rs:506-549 | each poll emits the next output the state prescribes, and the stream ends |
| `Streams.ReadVerified` | bins/helmoci/src/passthrough.rs:506-549 | polling to the end yields the specified outputs |
| `Streams.VerifiedStream` | bins/helmoci/src/passthrough.rs:490-549 | for every chunking, a body that matches is emitted chunk for chunk; any other is emitted without its last chunk and then fails |
| `Streams.FailedStream` | bins/helmoci/src/passthrough.rs:490-549 | a storage failure drops the chunk before it, is emitted once, and ends the stream |
| `Streams.CorruptBodyIsShort` | bins/helmoci/src/passthrough.rs:493-499 | a corrupt body ends short if and only if its last chunk is not empty |
| `Streams.CorruptBodyCanArriveWhole` | bins/helmoci/src/passthrough.rs:493-499 | an input whose corrupt body is emitted whole before the error |
| `Streams.VerifiedBodyIsWhole` | bins/helmoci/src/passthrough.rs:490-549 | a body that matches arrives byte for byte |
| `Redirects.Context.RedirectTarget` | bins/helmoci/src/upstream.rs:36-80 | the checks in order; a refused redirect leaves headers and client as they were |
| `Redirects.Send` | bins/helmoci/src/upstream.rs:82-152 | the loop issues exactly the requests of the specified run, for any replies |
| `Redirects.RedirectExactly` | bins/helmoci/src/upstream.rs:36-80 | a redirect is taken exactly with one text location that the URL library joins to a permitted target, which is then requested; headers and client stay for the same origin and are stripped for another |
| `Redirects.RefusalExactly` | bins/helmoci/src/upstream.rs:36-80 | what a refused redirect is refused for, in order |
| `Redirects.RequestsFollowReplies` | bins/helmoci/src/upstream.rs:82-152 | in every run, another request follows exactly if fewer than five redirects were followed and the reply asks for a permitted one, and it goes to what the URL library makes of the location |
| `Redirects.OutcomeIsTheLastReply` | bins/helmoci/src/upstream.rs:82-152 | how every run ends, read off the reply to its last request |
| `Redirects.RunIsBounded` | bins/helmoci/src/upstream.rs:82-152 | at most six requests, each the redirect of the one before; a delivered reply is never a redirect that should be followed |
| `Redirects.EveryRequestIsSafe` | bins/helmoci/src/upstream.rs:19-152 | the public client only requests public HTTPS without userinfo; any other client is the initial one at the initial origin; credentials only go to the initial origin; other headers never change |
| `Redirects.OriginChangeIsForGood` | bins/helmoci/src/upstream.rs:36-80 | HTTPS never reverts, and after one change of origin no later request carries credentials or a trusted client, even back at the first origin |
| `TagPages.ListVersions` | crates/helmoci-core/src/helm/index.rs:118-134 | the loop over a set and a list computes the order-preserving deduplication |
| `TagPages.ListingIsExact` | crates/helmoci-core/src/helm/index.rs:118-134 | the listing holds every published version exactly once, in the order of first publication |
| `TagPages.TagsPage` | bins/helmoci/src/classic.rs:570-616 | draining and truncating in place gives the specified page and link |
| `TagPages.NextPageContinues` | bins/helmoci/src/classic.rs:570-616 | without duplicates a page's link leads to exactly what the page left out |
| `TagPages.PagesPartitionVersions` | bins/helmoci/src/classic.rs:570-616 | for every index and page size of at least one, following the links terminates and the pages are the whole list, in order, each tag once, every page but the last full |
| `TagPages.PageExactly` | bins/helmoci/src/classic.rs:594-616 | every page: all that is left and no link without a size or with one that covers it, nothing for size zero, else a full page that links with its last tag |
| `TagPages.EdgePages` | bins/helmoci/src/classic.rs:570-616 | a page size of zero gives an empty page without a link, and an unknown tag restarts the list |
| `TagPages.DuplicatesLinkForever` | bins/helmoci/src/classic.rs:570-616 | why deduplication matters: a repeated tag can link to its own page |
| `TagPages.PageLinkReadsBack` | bins/helmoci/src/classic.rs:600-616 | the program's parser reads the program's pagination header: one link, verbatim, with a `next` relation |
| `TagPages.PageLinkText` | bins/helmoci/src/classic.rs:602-616 | the link as it is sent |

## Left out

- HTTP server, routing, middleware, metrics, logging, configuration, status mapping: no state worth a proof.
- gzip, tar header bytes, SHA-256, JSON, YAML and the `url` crate: parameters with named hypotheses, as above.
- Archive member names are raw bytes: the lossy UTF-8 conversion of names, and a header path that fails to decode, are not modelled.
- `TarArchive.PackRoundTrip`: header fields are numbers, so a mode or time too wide for its field in a tar header is not modelled.
- Failed memory reservations while unpacking: the model never runs out of memory.
- `ChartRewrite.RewriteChartDependencies`: YAML tags are not modelled; comments and formatting are whatever the YAML library leaves of them.
- `BlobStore.ObjectStore.PutBlob`: object attributes are not part of the stored value, so the ladder shows only in which requests are made.
- `ClassicCache.NoDanglingPointers`: the manifest handlers are step relations, not async methods; the writers a failed request has dropped may take any further steps, which covers what they had in flight.
- Tag pointers in the object store: their JSON form and the size cap on reading it.
- Eviction and expiry in the ephemeral store: statements are about entries still present.
- Digests of classic blobs and of uncached OCI blobs that are streamed: the program does not verify them.
- Small cached blobs that are buffered before they are served, and the inference of cached manifest media types: compositions of what is modelled.
- Form encoding of the last tag in a pagination link: a parameter of which only the character set is used.
- Bearer challenges, token requests, GCP credentials and pull authentication.
- Download URLs in an index (`resolve_chart_url`) and error wording.
