/**
  The manifest cache: requests build an artifact, write its blobs concurrently, and then
  publish a tag pointer. Any number of requests interleave on one store, any store request
  may fail, and any request may stop at any point.
*/
module ClassicCache {
  import opened Wrappers
  import opened Bytes
  import S = BlobStore
  import Streams

  const MEDIA_TYPE_MANIFEST := "application/vnd.oci.image.manifest.v1+json"
  const MEDIA_TYPE_HELM_CONFIG := "application/vnd.cncf.helm.config.v1+json"
  const MEDIA_TYPE_HELM_CHART := "application/vnd.cncf.helm.chart.content.v1.tar+gzip"

  type Digest = string

  datatype Descriptor = Descriptor(mediaType: string, digest: Digest, size: nat)

  datatype Manifest = Manifest(schemaVersion: nat, mediaType: string, config: Descriptor, layers: seq<Descriptor>)

  datatype TagPointer = TagPointer(digest: Digest, mediaType: string, size: nat)

  datatype TagKey = TagKey(proxyHost: string, fullName: string, tag: string)

  /** The hash and the JSON codec of manifests. */
  datatype Codec = Codec(hash: Bytes -> Digest, encode: Manifest -> Bytes, decode: Bytes -> Option<Manifest>)

  /** The manifests that the program writes for configs and layers of a universe read back. */
  ghost predicate DecodesWhatItEncodes(codec: Codec, universe: set<Bytes>) {
    forall config, layer | config in universe && layer in universe ::
      codec.decode(codec.encode(ManifestOf(config, layer, codec))) == Some(ManifestOf(config, layer, codec))
  }

  /** No two byte strings of a universe share a digest. */
  ghost predicate CollisionFree(codec: Codec, universe: set<Bytes>) {
    forall a, b | a in universe && b in universe && codec.hash(a) == codec.hash(b) :: a == b
  }

  /* ---- Building ---- */

  datatype BuiltChart = BuiltChart(manifestBytes: Bytes, configBytes: Bytes, layerBytes: Bytes, pointer: TagPointer)

  function ManifestOf(config: Bytes, layer: Bytes, codec: Codec): Manifest {
    Manifest(2, MEDIA_TYPE_MANIFEST,
             Descriptor(MEDIA_TYPE_HELM_CONFIG, codec.hash(config), |config|),
             [Descriptor(MEDIA_TYPE_HELM_CHART, codec.hash(layer), |layer|)])
  }

  /** The artifact for a chart's config and (possibly rewritten) archive. */
  function Build(config: Bytes, layer: Bytes, codec: Codec): BuiltChart {
    var manifest := codec.encode(ManifestOf(config, layer, codec));
    BuiltChart(manifest, config, layer, TagPointer(codec.hash(manifest), MEDIA_TYPE_MANIFEST, |manifest|))
  }

  predicate ValidHelmManifest(bytes: Bytes, codec: Codec) {
    match codec.decode(bytes)
    case None => false
    case Some(m) =>
      && m.schemaVersion == 2
      && m.mediaType == MEDIA_TYPE_MANIFEST
      && m.config.mediaType == MEDIA_TYPE_HELM_CONFIG
      && m.layers != []
      && forall i | 0 <= i < |m.layers| :: m.layers[i].mediaType == MEDIA_TYPE_HELM_CHART
  }

  /* ---- Requests on a shared store ---- */

  datatype Kind = Classic | Oci

  datatype Phase = Writing | Published | Aborted

  /** A manifest request: its blob writers run side by side, and the pointer comes last. */
  datatype Request = Request(writers: seq<S.Writer>, key: TagKey, pointer: TagPointer, phase: Phase)

  function BlobWriter(data: Bytes, codec: Codec): S.Writer {
    S.Writer(codec.hash(data), data, S.Probe)
  }

  /** A classic miss writes config, layer and manifest. */
  function ClassicRequest(built: BuiltChart, key: TagKey, codec: Codec): Request {
    Request([BlobWriter(built.configBytes, codec), BlobWriter(built.layerBytes, codec), BlobWriter(built.manifestBytes, codec)],
            key, built.pointer, Writing)
  }

  /** A stored OCI alias miss writes the manifest it fetched. */
  function OciRequest(manifest: Bytes, mediaType: string, key: TagKey, codec: Codec): Request {
    Request([BlobWriter(manifest, codec)], key, TagPointer(codec.hash(manifest), mediaType, |manifest|), Writing)
  }

  datatype System = System(blobs: S.Objects, tags: map<TagKey, TagPointer>, requests: seq<Request>)

  /** A blob writer of a request takes a step, or the request publishes. */
  datatype Action =
    | WriteStep(request: nat, writer: nat, weather: S.Weather)
    | Publish(request: nat, weather: S.Weather)

  predicate AllStored(r: Request) {
    forall j | 0 <= j < |r.writers| :: r.writers[j].pc.Stored?
  }

  /**
    Publishing needs all writers to have succeeded. When one fails the others are dropped,
    but what they have in flight may still reach the store, so they can go on.
  */
  predicate Enabled(s: System, a: Action) {
    && a.request < |s.requests|
    && var r := s.requests[a.request];
       if a.WriteStep? then a.writer < |r.writers| else r.phase == Writing && AllStored(r)
  }

  function Step(s: System, a: Action): (t: System)
    ensures |t.requests| == |s.requests|
  {
    if !Enabled(s, a) then s
    else
      var r := s.requests[a.request];
      match a
      case WriteStep(i, j, weather) =>
        var (w, blobs) := S.StepWriter(r.writers[j], s.blobs, weather);
        var phase := if w.pc.Failed? && r.phase == Writing then Aborted else r.phase;
        s.(blobs := blobs, requests := s.requests[i := r.(writers := r.writers[j := w], phase := phase)])
      case Publish(i, weather) =>
        var tags := if weather.Clear? || weather.applied then s.tags[r.key := r.pointer] else s.tags;
        var phase := if weather.Clear? then Published else Aborted;
        s.(tags := tags, requests := s.requests[i := r.(phase := phase)])
  }

  /** The state after any interleaving; a crash is a request that gets no further action. */
  function Exec(s: System, actions: seq<Action>): (t: System)
    ensures |t.requests| == |s.requests|
    decreases |actions|
  {
    if actions == [] then s else Exec(Step(s, actions[0]), actions[1..])
  }

  /* ---- What every reachable state satisfies ---- */

  /** The blob named by a descriptor is stored with the described size. */
  predicate Refers(blobs: S.Objects, digest: Digest, size: nat) {
    digest in blobs && |blobs[digest]| == size
  }

  /** A pointer with everything behind it: its manifest, and for charts what the manifest names. */
  predicate Backed(blobs: S.Objects, pointer: TagPointer, kind: Kind, codec: Codec) {
    && Refers(blobs, pointer.digest, pointer.size)
    && (kind == Classic ==>
          && pointer.mediaType == MEDIA_TYPE_MANIFEST
          && ValidHelmManifest(blobs[pointer.digest], codec)
          && var m := codec.decode(blobs[pointer.digest]).value;
             && Refers(blobs, m.config.digest, m.config.size)
             && forall i | 0 <= i < |m.layers| :: Refers(blobs, m.layers[i].digest, m.layers[i].size))
  }

  /** A request as one of the two manifest handlers issues it, at any later stage. */
  ghost predicate Genuine(r: Request, kind: TagKey -> Kind, codec: Codec) {
    match kind(r.key)
    case Classic =>
      exists config, layer ::
        var start := ClassicRequest(Build(config, layer, codec), r.key, codec);
        r.pointer == start.pointer && SameData(r.writers, start.writers)
    case Oci =>
      exists manifest ::
        var start := OciRequest(manifest, r.pointer.mediaType, r.key, codec);
        r.pointer == start.pointer && SameData(r.writers, start.writers)
  }

  predicate SameData(a: seq<S.Writer>, b: seq<S.Writer>) {
    |a| == |b| && forall j | 0 <= j < |a| :: a[j].key == b[j].key && a[j].data == b[j].data
  }

  /** Stored bytes hash to their key and belong to the universe of the run. */
  ghost predicate ContentAddressed(blobs: S.Objects, codec: Codec, universe: set<Bytes>) {
    forall d | d in blobs :: blobs[d] in universe && codec.hash(blobs[d]) == d
  }

  ghost predicate WriterOk(w: S.Writer, blobs: S.Objects, codec: Codec, universe: set<Bytes>) {
    && w.data in universe && w.key == codec.hash(w.data)
    && (w.pc.Stored? ==> w.key in blobs)
  }

  ghost predicate RequestOk(r: Request, blobs: S.Objects, kind: TagKey -> Kind, codec: Codec, universe: set<Bytes>) {
    && Genuine(r, kind, codec)
    && forall j | 0 <= j < |r.writers| :: WriterOk(r.writers[j], blobs, codec, universe)
  }

  ghost predicate Invariant(s: System, kind: TagKey -> Kind, codec: Codec, universe: set<Bytes>) {
    && ContentAddressed(s.blobs, codec, universe)
    && (forall i | 0 <= i < |s.requests| :: RequestOk(s.requests[i], s.blobs, kind, codec, universe))
    && (forall k | k in s.tags :: Backed(s.blobs, s.tags[k], kind(k), codec))
  }

  /** More blobs, and the old ones as they were. */
  predicate Extends(before: S.Objects, after: S.Objects) {
    forall d | d in before :: d in after && after[d] == before[d]
  }

  /** Under content addressing a writer can only add its own bytes under its own digest. */
  lemma {:induction false} WriterExtends(w: S.Writer, blobs: S.Objects, weather: S.Weather, codec: Codec, universe: set<Bytes>)
    requires CollisionFree(codec, universe) && ContentAddressed(blobs, codec, universe)
    requires WriterOk(w, blobs, codec, universe)
    ensures var (next, after) := S.StepWriter(w, blobs, weather);
            && Extends(blobs, after) && ContentAddressed(after, codec, universe)
            && WriterOk(next, after, codec, universe)
            && next.key == w.key && next.data == w.data
  {
    if w.key in blobs {
      assert blobs[w.key] == w.data;
      assert blobs[w.key := w.data] == blobs;
    }
  }

  lemma {:induction false} BackedStays(before: S.Objects, after: S.Objects, pointer: TagPointer, kind: Kind, codec: Codec)
    requires Extends(before, after) && Backed(before, pointer, kind, codec)
    ensures Backed(after, pointer, kind, codec)
  {
  }

  lemma {:induction false} GenuineStays(r: Request, t: Request, kind: TagKey -> Kind, codec: Codec)
    requires Genuine(r, kind, codec) && t.key == r.key && t.pointer == r.pointer && SameData(t.writers, r.writers)
    ensures Genuine(t, kind, codec)
  {
    match kind(r.key)
    case Classic =>
      var config, layer :|
        var start := ClassicRequest(Build(config, layer, codec), r.key, codec);
        r.pointer == start.pointer && SameData(r.writers, start.writers);
      assert SameData(t.writers, ClassicRequest(Build(config, layer, codec), t.key, codec).writers);
    case Oci =>
      var manifest :|
        var start := OciRequest(manifest, r.pointer.mediaType, r.key, codec);
        r.pointer == start.pointer && SameData(r.writers, start.writers);
      assert SameData(t.writers, OciRequest(manifest, t.pointer.mediaType, t.key, codec).writers);
  }

  lemma {:induction false} RequestStays(r: Request, before: S.Objects, after: S.Objects, kind: TagKey -> Kind, codec: Codec, universe: set<Bytes>)
    requires RequestOk(r, before, kind, codec, universe) && Extends(before, after)
    ensures RequestOk(r, after, kind, codec, universe)
  {
    forall j | 0 <= j < |r.writers|
      ensures WriterOk(r.writers[j], after, codec, universe)
    {
      assert WriterOk(r.writers[j], before, codec, universe);
    }
  }

  /** When all writers of a request are done, its pointer has everything behind it. */
  lemma {:induction false} DoneRequestIsBacked(r: Request, blobs: S.Objects, kind: TagKey -> Kind, codec: Codec, universe: set<Bytes>)
    requires CollisionFree(codec, universe) && DecodesWhatItEncodes(codec, universe)
    requires ContentAddressed(blobs, codec, universe)
    requires RequestOk(r, blobs, kind, codec, universe) && AllStored(r)
    ensures Backed(blobs, r.pointer, kind(r.key), codec)
  {
    forall j | 0 <= j < |r.writers|
      ensures r.writers[j].key in blobs && blobs[r.writers[j].key] == r.writers[j].data
    {
      assert WriterOk(r.writers[j], blobs, codec, universe);
    }
    match kind(r.key)
    case Classic =>
      var config, layer :|
        var start := ClassicRequest(Build(config, layer, codec), r.key, codec);
        r.pointer == start.pointer && SameData(r.writers, start.writers);
      var start := ClassicRequest(Build(config, layer, codec), r.key, codec);
      assert r.writers[0].data == config && r.writers[1].data == layer;
      assert r.writers[2].data == codec.encode(ManifestOf(config, layer, codec));
      assert start.writers[2].key == r.pointer.digest;
    case Oci =>
      assert r.writers[0].key == r.pointer.digest;
  }

  lemma {:induction false} StepKeepsInvariant(s: System, a: Action, kind: TagKey -> Kind, codec: Codec, universe: set<Bytes>)
    requires CollisionFree(codec, universe) && DecodesWhatItEncodes(codec, universe)
    requires Invariant(s, kind, codec, universe)
    ensures Invariant(Step(s, a), kind, codec, universe) && Extends(s.blobs, Step(s, a).blobs)
  {
    if Enabled(s, a) {
      var t := Step(s, a);
      var r, r' := s.requests[a.request], t.requests[a.request];
      assert RequestOk(r, s.blobs, kind, codec, universe);
      match a {
        case WriteStep(i, j, weather) =>
          WriterExtends(r.writers[j], s.blobs, weather, codec, universe);
          GenuineStays(r, r', kind, codec);
          forall k | k in t.tags
            ensures Backed(t.blobs, t.tags[k], kind(k), codec)
          {
            BackedStays(s.blobs, t.blobs, s.tags[k], kind(k), codec);
          }
          RequestStays(r, s.blobs, t.blobs, kind, codec, universe);
        case Publish(i, weather) =>
          DoneRequestIsBacked(r, s.blobs, kind, codec, universe);
          GenuineStays(r, r', kind, codec);
      }
      forall i | 0 <= i < |t.requests|
        ensures RequestOk(t.requests[i], t.blobs, kind, codec, universe)
      {
        if i != a.request {
          RequestStays(s.requests[i], s.blobs, t.blobs, kind, codec, universe);
        }
      }
    }
  }

  /**
    Main result. From a store whose blobs hash to their keys and whose pointers are backed,
    every interleaving of genuine requests, with any failures and any crashes, only reaches
    states in which every tag pointer names a stored manifest of the right size, and every
    classic one also a stored config and stored layers. No stored blob ever changes.
  */
  lemma {:induction false} NoDanglingPointers(s: System, actions: seq<Action>, kind: TagKey -> Kind, codec: Codec, universe: set<Bytes>)
    requires CollisionFree(codec, universe) && DecodesWhatItEncodes(codec, universe)
    requires Invariant(s, kind, codec, universe)
    ensures var t := Exec(s, actions);
            && Invariant(t, kind, codec, universe)
            && (forall k | k in t.tags :: Backed(t.blobs, t.tags[k], kind(k), codec))
            && Extends(s.blobs, t.blobs)
    decreases |actions|
  {
    if actions != [] {
      StepKeepsInvariant(s, actions[0], kind, codec, universe);
      NoDanglingPointers(Step(s, actions[0]), actions[1..], kind, codec, universe);
    }
  }

  /** A fresh request of either kind satisfies the invariant on any content-addressed store. */
  lemma {:induction false} FreshRequestIsOk(r: Request, blobs: S.Objects, kind: TagKey -> Kind, codec: Codec, universe: set<Bytes>)
    requires kind(r.key) == Classic ==> exists config, layer :: r == ClassicRequest(Build(config, layer, codec), r.key, codec)
    requires kind(r.key) == Oci ==> exists manifest :: r == OciRequest(manifest, r.pointer.mediaType, r.key, codec)
    requires forall j | 0 <= j < |r.writers| :: r.writers[j].data in universe
    ensures RequestOk(r, blobs, kind, codec, universe)
  {
    match kind(r.key)
    case Classic =>
      var config, layer :| r == ClassicRequest(Build(config, layer, codec), r.key, codec);
      assert SameData(r.writers, ClassicRequest(Build(config, layer, codec), r.key, codec).writers);
    case Oci =>
      var manifest :| r == OciRequest(manifest, r.pointer.mediaType, r.key, codec);
      assert SameData(r.writers, OciRequest(manifest, r.pointer.mediaType, r.key, codec).writers);
  }

  /** The invariant starts out true: fresh requests of both kinds on an empty store. */
  lemma {:induction false} EmptyStoreIsGood(requests: seq<Request>, kind: TagKey -> Kind, codec: Codec, universe: set<Bytes>)
    requires forall i | 0 <= i < |requests| ::
               var r := requests[i];
               && (kind(r.key) == Classic ==> exists config, layer :: r == ClassicRequest(Build(config, layer, codec), r.key, codec))
               && (kind(r.key) == Oci ==> exists manifest :: r == OciRequest(manifest, r.pointer.mediaType, r.key, codec))
               && forall j | 0 <= j < |r.writers| :: r.writers[j].data in universe
    ensures Invariant(System(map[], map[], requests), kind, codec, universe)
  {
    forall i | 0 <= i < |requests|
      ensures RequestOk(requests[i], map[], kind, codec, universe)
    {
      FreshRequestIsOk(requests[i], map[], kind, codec, universe);
    }
  }

  /* ---- A pull that nothing disturbs ---- */

  /** Writer `j` of request `i` probes, and creates if it has to. */
  lemma {:induction false} WriterFinishes(s: System, i: nat, j: nat)
    requires i < |s.requests| && j < |s.requests[i].writers| && s.requests[i].phase == Writing
    requires s.requests[i].writers[j].pc == S.Probe
    ensures var w := s.requests[i].writers[j];
            var t := Step(Step(s, WriteStep(i, j, S.Clear)), WriteStep(i, j, S.Clear));
            && t.requests == s.requests[i := s.requests[i].(writers := s.requests[i].writers[j := w.(pc := S.Stored)])]
            && t.tags == s.tags
            && t.blobs == if w.key in s.blobs then s.blobs else s.blobs[w.key := w.data]
  {
    var w := s.requests[i].writers[j];
    var first := Step(s, WriteStep(i, j, S.Clear));
    var (w1, o1) := S.StepWriter(w, s.blobs, S.Clear);
    assert first.requests[i].writers[j] == w1 && first.requests[i].phase == Writing;
    var r := s.requests[i];
    var second := Step(first, WriteStep(i, j, S.Clear));
    var done := r.(writers := r.writers[j := w.(pc := S.Stored)]);
    assert r.writers[j := w1][j := w.(pc := S.Stored)] == r.writers[j := w.(pc := S.Stored)];
    assert second.requests[i] == done;
    assert s.requests[i := first.requests[i]][i := done] == s.requests[i := done];
  }

  /** The steps of a pull with three writers, one after the other, and its pointer. */
  function Undisturbed(i: nat): seq<Action> {
    [WriteStep(i, 0, S.Clear), WriteStep(i, 0, S.Clear), WriteStep(i, 1, S.Clear), WriteStep(i, 1, S.Clear),
     WriteStep(i, 2, S.Clear), WriteStep(i, 2, S.Clear), Publish(i, S.Clear)]
  }

  lemma {:induction false} ExecTwo(s: System, a: Action, b: Action, rest: seq<Action>)
    ensures Exec(s, [a, b] + rest) == Exec(Step(Step(s, a), b), rest)
  {
    hide Step;
    assert ([a, b] + rest)[1..] == [b] + rest;
    assert ([b] + rest)[1..] == rest;
  }

  lemma {:induction false} ExecSeven(s: System, i: nat)
    ensures var t := Step(Step(s, WriteStep(i, 0, S.Clear)), WriteStep(i, 0, S.Clear));
            var u := Step(Step(t, WriteStep(i, 1, S.Clear)), WriteStep(i, 1, S.Clear));
            var v := Step(Step(u, WriteStep(i, 2, S.Clear)), WriteStep(i, 2, S.Clear));
            Exec(s, Undisturbed(i)) == Step(v, Publish(i, S.Clear))
  {
    hide Step, Exec;
    var w0, w1, w2, p := WriteStep(i, 0, S.Clear), WriteStep(i, 1, S.Clear), WriteStep(i, 2, S.Clear), Publish(i, S.Clear);
    var t := Step(Step(s, w0), w0);
    var u := Step(Step(t, w1), w1);
    var v := Step(Step(u, w2), w2);
    assert Undisturbed(i) == [w0, w0] + ([w1, w1] + ([w2, w2] + [p]));
    ExecTwo(s, w0, w0, [w1, w1] + ([w2, w2] + [p]));
    ExecTwo(t, w1, w1, [w2, w2] + [p]);
    ExecTwo(u, w2, w2, [p]);
    ExecLast(v, p);
  }

  lemma {:induction false} ExecLast(s: System, a: Action)
    ensures Exec(s, [a]) == Step(s, a)
  {
    hide Step;
    assert [a][1..] == [];
    assert Exec(Step(s, a), []) == Step(s, a);
  }

  /** Blobs with one more, unless its digest is taken. */
  function Added(blobs: S.Objects, data: Bytes, codec: Codec): S.Objects {
    if codec.hash(data) in blobs then blobs else blobs[codec.hash(data) := data]
  }

  /**
    A classic pull that nothing disturbs publishes: afterwards its tag holds the pointer
    of the build, and config, layer and manifest are stored, on whatever store it began.
  */
  lemma {:induction false} UndisturbedPullPublishes(s: System, i: nat, config: Bytes, layer: Bytes, key: TagKey, codec: Codec)
    requires i < |s.requests| && s.requests[i] == ClassicRequest(Build(config, layer, codec), key, codec)
    ensures var built, t := Build(config, layer, codec), Exec(s, Undisturbed(i));
            && t.tags == s.tags[key := built.pointer] && t.requests[i].phase == Published
            && t.blobs == Added(Added(Added(s.blobs, config, codec), layer, codec), built.manifestBytes, codec)
  {
    hide Step, Exec, Build;
    ExecSeven(s, i);
    var r := s.requests[i];
    var t := Step(Step(s, WriteStep(i, 0, S.Clear)), WriteStep(i, 0, S.Clear));
    WriterFinishes(s, i, 0);
    assert t.requests[i].writers[1] == r.writers[1] && t.requests[i].writers[2] == r.writers[2];
    var u := Step(Step(t, WriteStep(i, 1, S.Clear)), WriteStep(i, 1, S.Clear));
    WriterFinishes(t, i, 1);
    assert u.requests[i].writers[0].pc == S.Stored && u.requests[i].writers[2] == r.writers[2];
    var v := Step(Step(u, WriteStep(i, 2, S.Clear)), WriteStep(i, 2, S.Clear));
    WriterFinishes(u, i, 2);
    assert v.requests[i].pointer == r.pointer && v.requests[i].key == key && v.requests[i].phase == Writing;
    assert AllStored(v.requests[i]);
    PublishTakesEffect(v, i);
    BuiltParts(config, layer, key, codec);
  }

  /** The same for a stored OCI alias, with its one manifest. */
  lemma {:induction false} UndisturbedOciPullPublishes(s: System, i: nat, manifest: Bytes, mediaType: string, key: TagKey, codec: Codec)
    requires i < |s.requests| && s.requests[i] == OciRequest(manifest, mediaType, key, codec)
    ensures var t := Exec(s, [WriteStep(i, 0, S.Clear), WriteStep(i, 0, S.Clear)] + [Publish(i, S.Clear)]);
            && t.tags == s.tags[key := TagPointer(codec.hash(manifest), mediaType, |manifest|)]
            && t.requests[i].phase == Published && t.blobs == Added(s.blobs, manifest, codec)
  {
    hide Step, Exec;
    var w := WriteStep(i, 0, S.Clear);
    ExecTwo(s, w, w, [Publish(i, S.Clear)]);
    var t := Step(Step(s, w), w);
    WriterFinishes(s, i, 0);
    assert AllStored(t.requests[i]);
    ExecLast(t, Publish(i, S.Clear));
    PublishTakesEffect(t, i);
  }

  /** The manifest of a build names its config and its one layer, and its pointer names the manifest. */
  lemma {:induction false} BuildIsConsistent(config: Bytes, layer: Bytes, codec: Codec)
    ensures var built := Build(config, layer, codec);
            var manifestType := "application/vnd.oci.image.manifest.v1+json";
            && built.configBytes == config && built.layerBytes == layer
            && built.manifestBytes == codec.encode(
                 Manifest(2, manifestType,
                          Descriptor("application/vnd.cncf.helm.config.v1+json", codec.hash(config), |config|),
                          [Descriptor("application/vnd.cncf.helm.chart.content.v1.tar+gzip", codec.hash(layer), |layer|)]))
            && built.pointer == TagPointer(codec.hash(built.manifestBytes), manifestType, |built.manifestBytes|)
  {
  }

  lemma {:induction false} PublishTakesEffect(s: System, i: nat)
    requires i < |s.requests| && s.requests[i].phase == Writing && AllStored(s.requests[i])
    ensures var t, r := Step(s, Publish(i, S.Clear)), s.requests[i];
            t.tags == s.tags[r.key := r.pointer] && t.blobs == s.blobs && t.requests[i].phase == Published
  {
  }

  lemma {:induction false} BuiltParts(config: Bytes, layer: Bytes, key: TagKey, codec: Codec)
    ensures var built := Build(config, layer, codec);
            var r := ClassicRequest(built, key, codec);
            && |r.writers| == 3 && r.pointer == built.pointer && r.key == key && r.phase == Writing
            && r.writers[0] == S.Writer(codec.hash(config), config, S.Probe)
            && r.writers[1] == S.Writer(codec.hash(layer), layer, S.Probe)
            && r.writers[2] == S.Writer(codec.hash(built.manifestBytes), built.manifestBytes, S.Probe)
  {
  }

  /* ---- Reading back ---- */

  /** What storage answers when a tag pointer or a blob is read. */
  datatype TagRead = TagFailed | NoTag | Tag(pointer: TagPointer)

  datatype BlobRead = BlobFailed | NoBlob | Blob(size: nat, items: seq<Streams.Item<()>>)

  /** A served manifest, a cache miss to rebuild from, or a storage outage. */
  datatype Cached = Hit(bytes: Bytes, digest: Digest, mediaType: string) | Miss | Outage

  /** The digest-addressed checks: anything but a storage failure makes the object unknown. */
  function DigestManifest(digest: Digest, size: nat, items: seq<Streams.Item<()>>, maxBytes: nat, codec: Codec): Cached {
    if size > maxBytes then Miss
    else
      match Streams.Bounded(Some(size), items, maxBytes)
      case Err(Upstream(_)) => Outage
      case Err(TooLarge) => Miss
      case Ok(bytes) =>
        if |bytes| == size && codec.hash(bytes) == digest && ValidHelmManifest(bytes, codec)
        then Hit(bytes, digest, MEDIA_TYPE_MANIFEST) else Miss
  }

  function CachedTag(tag: TagRead, blob: Digest -> BlobRead, maxBytes: nat, codec: Codec): Cached {
    match tag
    case TagFailed => Outage
    case NoTag => Miss
    case Tag(pointer) =>
      if pointer.mediaType != MEDIA_TYPE_MANIFEST || pointer.size > maxBytes then Miss
      else
        match blob(pointer.digest)
        case BlobFailed => Outage
        case NoBlob => Miss
        case Blob(size, items) =>
          if size != pointer.size then Miss else DigestManifest(pointer.digest, size, items, maxBytes, codec)
  }

  method CachedTagManifest(tag: TagRead, blob: Digest -> BlobRead, maxBytes: nat, codec: Codec) returns (r: Cached)
    requires maxBytes <= U64_MAX
    ensures r == CachedTag(tag, blob, maxBytes, codec)
  {
    if tag.TagFailed? {
      return Outage;
    }
    if tag.NoTag? {
      return Miss;
    }
    var pointer := tag.pointer;
    if pointer.mediaType != MEDIA_TYPE_MANIFEST || pointer.size > maxBytes {
      return Miss;
    }
    var found := blob(pointer.digest);
    if found.BlobFailed? {
      return Outage;
    }
    if found.NoBlob? || found.size != pointer.size {
      return Miss;
    }
    var read := Streams.ReadBounded(Some(found.size), found.items, maxBytes);
    if read.Err? {
      return if read.error.TooLarge? then Miss else Outage;
    }
    var bytes := read.value;
    if |bytes| != found.size || codec.hash(bytes) != pointer.digest || !ValidHelmManifest(bytes, codec) {
      return Miss;
    }
    return Hit(bytes, pointer.digest, MEDIA_TYPE_MANIFEST);
  }

  /** Storage that delivers what it holds: whole, in any chunks, or else fails on the way. */
  ghost predicate Delivers(blob: Digest -> BlobRead, blobs: S.Objects) {
    forall d ::
      match blob(d)
      case BlobFailed => true
      case NoBlob => d !in blobs
      case Blob(size, items) =>
        && d in blobs && size == |blobs[d]|
        && Streams.Content(items) <= blobs[d]
        && (Streams.NoFailure(items) ==> Streams.Content(items) == blobs[d])
  }

  /** A storage failure while a blob is opened or streamed. */
  predicate ReadFails(read: BlobRead) {
    read.BlobFailed? || (read.Blob? && !Streams.NoFailure(read.items))
  }

  /**
    Main result: a classic hit agrees with the rebuild. When the pointer a build wrote is
    still in the tags of a reachable state, reading it serves the very bytes, digest and
    media type of the response that wrote it, or reports a storage outage if and only if
    storage fails; it is never a silent miss, unless the manifest exceeds the cap.
  */
  lemma {:induction false} HitAgreesWithBuild(
      s: System, actions: seq<Action>, kind: TagKey -> Kind, codec: Codec, universe: set<Bytes>,
      key: TagKey, config: Bytes, layer: Bytes, blob: Digest -> BlobRead, maxBytes: nat)
    requires CollisionFree(codec, universe) && DecodesWhatItEncodes(codec, universe)
    requires Invariant(s, kind, codec, universe)
    requires var t := Exec(s, actions);
             && key in t.tags && t.tags[key] == Build(config, layer, codec).pointer
             && Delivers(blob, t.blobs)
    requires config in universe && layer in universe && Build(config, layer, codec).manifestBytes in universe
    ensures var built := Build(config, layer, codec);
            CachedTag(Tag(Exec(s, actions).tags[key]), blob, maxBytes, codec) ==
            if |built.manifestBytes| > maxBytes then Miss
            else if ReadFails(blob(built.pointer.digest)) then Outage
            else Hit(built.manifestBytes, codec.hash(built.manifestBytes), MEDIA_TYPE_MANIFEST)
  {
    NoDanglingPointers(s, actions, kind, codec, universe);
    var t := Exec(s, actions);
    var built := Build(config, layer, codec);
    var digest := built.pointer.digest;
    assert Backed(t.blobs, t.tags[key], kind(key), codec);
    assert t.blobs[digest] == built.manifestBytes;
    var read := blob(digest);
    assert match read
      case BlobFailed => true
      case NoBlob => digest !in t.blobs
      case Blob(size, items) =>
        && size == |t.blobs[digest]|
        && Streams.Content(items) <= t.blobs[digest]
        && (Streams.NoFailure(items) ==> Streams.Content(items) == t.blobs[digest]);
    assert codec.decode(built.manifestBytes) == Some(ManifestOf(config, layer, codec));
    assert ValidHelmManifest(built.manifestBytes, codec);
  }

  /**
    Soundness of a hit on any store, reachable or not: what is served hashes to the
    pointer's digest, has its size, fits the cap and is a Helm manifest. So two hits on
    one pointer can only differ by a hash collision.
  */
  lemma {:induction false} HitIsSound(tag: TagRead, blob: Digest -> BlobRead, maxBytes: nat, codec: Codec)
    requires CachedTag(tag, blob, maxBytes, codec).Hit?
    ensures var hit := CachedTag(tag, blob, maxBytes, codec);
            && tag.Tag? && hit.digest == tag.pointer.digest == codec.hash(hit.bytes)
            && |hit.bytes| == tag.pointer.size <= maxBytes
            && hit.mediaType == tag.pointer.mediaType == MEDIA_TYPE_MANIFEST
            && ValidHelmManifest(hit.bytes, codec)
  {
  }

  /** The media type, spelled out where it decides. */
  predicate IsChartManifest(m: Manifest) {
    && m.schemaVersion == 2
    && m.mediaType == "application/vnd.oci.image.manifest.v1+json"
    && m.config.mediaType == "application/vnd.cncf.helm.config.v1+json"
    && |m.layers| >= 1
    && forall i | 0 <= i < |m.layers| :: m.layers[i].mediaType == "application/vnd.cncf.helm.chart.content.v1.tar+gzip"
  }

  /** The pointer passes the checks that come before any blob is read. */
  predicate IsReadable(tag: TagRead, maxBytes: nat) {
    tag.Tag? && tag.pointer.mediaType == "application/vnd.oci.image.manifest.v1+json" && tag.pointer.size <= maxBytes
  }

  /** The blob behind the pointer has the size in its tag pointer, and within it the stream does not pass the cap. */
  predicate IsRead(pointer: TagPointer, read: BlobRead, maxBytes: nat) {
    read.Blob? && read.size == pointer.size && |Streams.Content(read.items)| <= maxBytes
  }

  /**
    Main result: what reading a tag answers, on any storage. An outage is reported exactly
    if the pointer could not be read, or a readable pointer's blob could not be opened, or
    its stream fails before it passes the cap.
  */
  lemma {:induction false} OutageExactly(tag: TagRead, blob: Digest -> BlobRead, maxBytes: nat, codec: Codec)
    ensures CachedTag(tag, blob, maxBytes, codec) == Outage <==>
            || tag.TagFailed?
            || (IsReadable(tag, maxBytes) &&
                var read := blob(tag.pointer.digest);
                || read.BlobFailed?
                || (IsRead(tag.pointer, read, maxBytes) && !Streams.NoFailure(read.items)))
  {
    if IsReadable(tag, maxBytes) && blob(tag.pointer.digest).Blob? {
      var read := blob(tag.pointer.digest);
      Streams.BoundedExactly(Some(read.size), read.items, maxBytes);
    }
  }

  /**
    Main result: a hit is served exactly for a readable pointer whose blob arrives whole,
    with the pointer's size and digest, and is a chart manifest. Everything that is neither
    a hit nor an outage is a miss: no pointer, a pointer of another media type or over the
    cap, no blob, one of another size, a body of another size or digest, another manifest.
  */
  lemma {:induction false} HitExactly(tag: TagRead, blob: Digest -> BlobRead, maxBytes: nat, codec: Codec)
    ensures CachedTag(tag, blob, maxBytes, codec).Hit? <==>
            && IsReadable(tag, maxBytes)
            && var read := blob(tag.pointer.digest);
               && IsRead(tag.pointer, read, maxBytes) && Streams.NoFailure(read.items)
               && var body := Streams.Content(read.items);
                  && |body| == tag.pointer.size && codec.hash(body) == tag.pointer.digest
                  && codec.decode(body).Some? && IsChartManifest(codec.decode(body).value)
    ensures CachedTag(tag, blob, maxBytes, codec).Hit? ==>
            CachedTag(tag, blob, maxBytes, codec) ==
            Hit(Streams.Content(blob(tag.pointer.digest).items), tag.pointer.digest, "application/vnd.oci.image.manifest.v1+json")
  {
    if IsReadable(tag, maxBytes) && blob(tag.pointer.digest).Blob? {
      var read := blob(tag.pointer.digest);
      Streams.BoundedExactly(Some(read.size), read.items, maxBytes);
      ChartManifests(Streams.Content(read.items), codec);
    }
  }

  lemma {:induction false} ChartManifests(bytes: Bytes, codec: Codec)
    ensures ValidHelmManifest(bytes, codec) <==> codec.decode(bytes).Some? && IsChartManifest(codec.decode(bytes).value)
  {
  }

  /** An outage is never reported as a miss: a miss means that no read that was made failed. */
  lemma {:induction false} OutageIsNeverAMiss(tag: TagRead, blob: Digest -> BlobRead, blobs: S.Objects, maxBytes: nat, codec: Codec)
    requires Delivers(blob, blobs) && CachedTag(tag, blob, maxBytes, codec) == Miss
    ensures !tag.TagFailed?
    ensures tag.Tag? && tag.pointer.mediaType == MEDIA_TYPE_MANIFEST && tag.pointer.size <= maxBytes ==>
              var read := blob(tag.pointer.digest);
              !read.BlobFailed? && (read.Blob? && read.size == tag.pointer.size ==> !ReadFails(read))
  {
    if tag.Tag? {
      var read := blob(tag.pointer.digest);
      assert read.Blob? ==> Streams.Content(read.items) <= blobs[tag.pointer.digest] && read.size == |blobs[tag.pointer.digest]|;
    }
  }
}
