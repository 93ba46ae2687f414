/**
  Storage keys, and the in-memory store that keeps blobs and tag pointers in one map.
  Eviction is left to the environment: everything here is about entries still present.
*/
module StorageKeys {
  import opened Wrappers
  import opened Bytes
  import opened Text
  import ClassicCache

  type TagPointer = ClassicCache.TagPointer

  datatype Scope = Scope(proxyHost: string, fullName: string)

  function BlobKey(digest: string): string {
    "blobs/" + digest
  }

  function TagKey(scope: Scope, tag: string): string {
    "tags/" + (scope.proxyHost + (['/'] + (scope.fullName + (['/'] + tag))))
  }

  /** What request routing guarantees of a proxy host and of a tag. */
  predicate Routable(scope: Scope, tag: string) {
    '/' !in scope.proxyHost && '/' !in tag
  }

  lemma {:induction false} FirstSlash(a: string, x: string, b: string, y: string)
    requires '/' !in a && '/' !in b && a + (['/'] + x) == b + (['/'] + y)
    ensures a == b && x == y
  {
    var s := a + (['/'] + x);
    assert s[..|a|] == a && s[..|b|] == b;
    FindIs(s, '/', |a|);
    FindIs(s, '/', |b|);
    assert s[|a| + 1..] == x && s[|b| + 1..] == y;
  }

  lemma {:induction false} NotEarlier(a: string, x: string, b: string, y: string)
    requires '/' !in x && a + (['/'] + x) == b + (['/'] + y)
    ensures |b| <= |a|
  {
    var s := a + (['/'] + x);
    assert s[|b|] == '/';
    assert forall k | |a| < k < |s| :: s[k] == x[k - |a| - 1];
  }

  lemma {:induction false} LastSlash(a: string, x: string, b: string, y: string)
    requires '/' !in x && '/' !in y && a + (['/'] + x) == b + (['/'] + y)
    ensures a == b && x == y
  {
    var s := a + (['/'] + x);
    NotEarlier(a, x, b, y);
    NotEarlier(b, y, a, x);
    assert s[..|a|] == a && s[..|b|] == b && s[|a| + 1..] == x && s[|b| + 1..] == y;
  }

  /** A tag key determines its host, its name (which may contain slashes) and its tag. */
  lemma {:induction false} TagKeysAreInjective(a: Scope, t: string, b: Scope, u: string)
    requires Routable(a, t) && Routable(b, u) && TagKey(a, t) == TagKey(b, u)
    ensures a == b && t == u
  {
    var x := a.proxyHost + (['/'] + (a.fullName + (['/'] + t)));
    var y := b.proxyHost + (['/'] + (b.fullName + (['/'] + u)));
    assert TagKey(a, t)[5..] == x && TagKey(b, u)[5..] == y;
    FirstSlash(a.proxyHost, a.fullName + (['/'] + t), b.proxyHost, b.fullName + (['/'] + u));
    LastSlash(a.fullName, t, b.fullName, u);
  }

  lemma {:induction false} BlobKeysAreInjective(d: string, e: string)
    requires BlobKey(d) == BlobKey(e)
    ensures d == e
  {
    assert BlobKey(d)[6..] == d && BlobKey(e)[6..] == e;
  }

  /** Blobs are below `blobs/` and pointers below `tags/`, with host, name and tag as pieces. */
  lemma {:induction false} KeySpacesAreDisjoint(d: string, scope: Scope, tag: string)
    ensures BlobKey(d) != TagKey(scope, tag)
    ensures BlobKey(d) == "blobs/" + d
    ensures TagKey(scope, tag) == "tags/" + scope.proxyHost + "/" + scope.fullName + "/" + tag
  {
    assert BlobKey(d)[0] == 'b' && TagKey(scope, tag)[0] == 't';
    assert "/" == ['/'];
  }

  /** The routing guarantee is needed: with a slash in a tag two pointers share a key. */
  lemma {:induction false} SlashesCollide(host: string, a: string, b: string, c: string)
    ensures var left, right := Scope(host, a + (['/'] + b)), Scope(host, a);
            left != right && TagKey(left, c) == TagKey(right, b + (['/'] + c))
  {
    assert |a + (['/'] + b)| > |a|;
    assert (a + (['/'] + b)) + (['/'] + c) == a + (['/'] + (b + (['/'] + c)));
  }

  /* ---- One map, two stores ---- */

  datatype Entry = Entry(contentType: string, data: Bytes)

  type Cache = map<string, Entry>

  /** The JSON form of tag pointers; writing one and reading one may fail. */
  datatype PointerCodec = PointerCodec(encode: TagPointer -> Option<Bytes>, decode: Bytes -> Option<TagPointer>)

  /** What is written as a pointer reads back as that pointer. */
  ghost predicate ReadsBack(codec: PointerCodec) {
    forall p :: codec.encode(p).Some? ==> codec.decode(codec.encode(p).value) == Some(p)
  }

  datatype Op = PutBlob(digest: string, entry: Entry) | PutTag(scope: Scope, tag: string, pointer: TagPointer)

  const JSON := "application/json"

  /** A blob is inserted if absent; a tag pointer that has a JSON form replaces what was there. */
  function Apply(cache: Cache, op: Op, codec: PointerCodec): Cache {
    match op
    case PutBlob(digest, entry) => if BlobKey(digest) in cache then cache else cache[BlobKey(digest) := entry]
    case PutTag(scope, tag, pointer) =>
      match codec.encode(pointer)
      case None => cache
      case Some(data) => cache[TagKey(scope, tag) := Entry(JSON, data)]
  }

  function Lookup(cache: Cache, key: string): Option<Entry> {
    if key in cache then Some(cache[key]) else None
  }

  /** The pointer of a tag; one that cannot be read counts as absent. */
  function PointerOf(cache: Cache, scope: Scope, tag: string, codec: PointerCodec): Option<TagPointer> {
    match Lookup(cache, TagKey(scope, tag))
    case None => None
    case Some(entry) => codec.decode(entry.data)
  }

  class EphemeralStorage {
    var cache: Cache
    const codec: PointerCodec

    constructor (codec: PointerCodec)
      ensures cache == map[] && this.codec == codec
    {
      cache := map[];
      this.codec := codec;
    }

    method GetBlob(digest: string) returns (entry: Option<Entry>)
      ensures entry == Lookup(cache, BlobKey(digest))
    {
      var key := BlobKey(digest);
      entry := if key in cache then Some(cache[key]) else None;
    }

    method GetTagPointer(scope: Scope, tag: string) returns (pointer: Option<TagPointer>)
      ensures pointer == PointerOf(cache, scope, tag, codec)
    {
      var key := TagKey(scope, tag);
      if key !in cache {
        return None;
      }
      return codec.decode(cache[key].data);
    }

    method PutBlobEntry(digest: string, contentType: string, data: Bytes)
      modifies this
      ensures cache == Apply(old(cache), PutBlob(digest, Entry(contentType, data)), codec)
    {
      var key := BlobKey(digest);
      if key !in cache {
        cache := cache[key := Entry(contentType, data)];
      }
    }

    /** A pointer without a JSON form is an error and changes nothing. */
    method PutTagPointer(scope: Scope, tag: string, pointer: TagPointer) returns (ok: bool)
      modifies this
      ensures ok <==> codec.encode(pointer).Some?
      ensures cache == Apply(old(cache), PutTag(scope, tag, pointer), codec)
    {
      var data := codec.encode(pointer);
      if data.None? {
        return false;
      }
      cache := cache[TagKey(scope, tag) := Entry(JSON, data.value)];
      return true;
    }
  }

  function RunOps(cache: Cache, ops: seq<Op>, codec: PointerCodec): Cache
    decreases |ops|
  {
    if ops == [] then cache else RunOps(Apply(cache, ops[0], codec), ops[1..], codec)
  }

  /** The first blob put under a digest. */
  function FirstBlob(ops: seq<Op>, digest: string): Option<Entry> {
    if ops == [] then None
    else if ops[0].PutBlob? && ops[0].digest == digest then Some(ops[0].entry)
    else FirstBlob(ops[1..], digest)
  }

  /** The last pointer put under a tag that has a JSON form. */
  function LastTag(ops: seq<Op>, scope: Scope, tag: string, codec: PointerCodec): Option<TagPointer> {
    if ops == [] then None
    else
      var op := ops[|ops| - 1];
      if op.PutTag? && op.scope == scope && op.tag == tag && codec.encode(op.pointer).Some? then Some(op.pointer)
      else LastTag(ops[..|ops| - 1], scope, tag, codec)
  }

  predicate AllRoutable(ops: seq<Op>) {
    forall i | 0 <= i < |ops| :: ops[i].PutTag? ==> Routable(ops[i].scope, ops[i].tag)
  }

  lemma {:induction false} BlobsAreWriteOnce(cache: Cache, ops: seq<Op>, digest: string, codec: PointerCodec)
    ensures Lookup(RunOps(cache, ops, codec), BlobKey(digest)) ==
            if BlobKey(digest) in cache then Some(cache[BlobKey(digest)]) else FirstBlob(ops, digest)
    decreases |ops|
  {
    if ops != [] {
      match ops[0] {
        case PutBlob(other, _) =>
          if BlobKey(other) == BlobKey(digest) {
            BlobKeysAreInjective(other, digest);
          }
        case PutTag(scope, tag, _) =>
          KeySpacesAreDisjoint(digest, scope, tag);
      }
      BlobsAreWriteOnce(Apply(cache, ops[0], codec), ops[1..], digest, codec);
    }
  }

  lemma {:induction false} RunLast(cache: Cache, ops: seq<Op>, op: Op, codec: PointerCodec)
    ensures RunOps(cache, ops + [op], codec) == Apply(RunOps(cache, ops, codec), op, codec)
    decreases |ops|
  {
    if ops == [] {
      assert (ops + [op])[1..] == [];
    } else {
      assert (ops + [op])[1..] == ops[1..] + [op];
      RunLast(Apply(cache, ops[0], codec), ops[1..], op, codec);
    }
  }

  lemma {:induction false} TagsAreLastWriterWins(ops: seq<Op>, scope: Scope, tag: string, codec: PointerCodec)
    requires AllRoutable(ops) && Routable(scope, tag) && ReadsBack(codec)
    ensures PointerOf(RunOps(map[], ops, codec), scope, tag, codec) == LastTag(ops, scope, tag, codec)
    decreases |ops|
  {
    if ops != [] {
      var front, op := ops[..|ops| - 1], ops[|ops| - 1];
      assert front + [op] == ops;
      RunLast(map[], front, op, codec);
      TagsAreLastWriterWins(front, scope, tag, codec);
      match op {
        case PutBlob(digest, _) =>
          KeySpacesAreDisjoint(digest, scope, tag);
        case PutTag(other, name, _) =>
          if TagKey(other, name) == TagKey(scope, tag) {
            TagKeysAreInjective(other, name, scope, tag);
          }
      }
    }
  }

  /**
    Main result: on any run of puts the one map behaves as two independent stores, a
    write-once map of blobs and a last-writer-wins map of tag pointers.
  */
  lemma {:induction false} OneMapIsTwoStores(ops: seq<Op>, digest: string, scope: Scope, tag: string, codec: PointerCodec)
    requires AllRoutable(ops) && Routable(scope, tag) && ReadsBack(codec)
    ensures Lookup(RunOps(map[], ops, codec), BlobKey(digest)) == FirstBlob(ops, digest)
    ensures PointerOf(RunOps(map[], ops, codec), scope, tag, codec) == LastTag(ops, scope, tag, codec)
  {
    BlobsAreWriteOnce(map[], ops, digest, codec);
    TagsAreLastWriterWins(ops, scope, tag, codec);
  }
}
