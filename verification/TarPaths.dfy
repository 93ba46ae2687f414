/**
  How the tar writer spells a path that fits a header: piece by piece, without empty
  pieces and without `.`, keeping a final slash. Long paths are kept byte for byte.
*/
module TarPaths {
  import opened Wrappers
  import opened Bytes
  import Names
  import A = TarArchive

  /** A name byte by byte; slashes and dots are ASCII. */
  function AsText(name: Bytes): string {
    seq(|name|, i requires 0 <= i < |name| => name[i] as char)
  }

  lemma {:induction false} AsTextDetermines(a: Bytes, b: Bytes)
    ensures AsText(a) == AsText(b) <==> a == b
  {
    if AsText(a) == AsText(b) {
      assert |a| == |AsText(a)| == |b|;
      forall i | 0 <= i < |a|
        ensures a[i] == b[i]
      {
        assert AsText(a)[i] == AsText(b)[i];
      }
    }
  }

  function NoDots(parts: seq<string>): seq<string> {
    if parts == [] then []
    else (if parts[0] == "." then [] else [parts[0]]) + NoDots(parts[1..])
  }

  /** A path without a final slash. */
  function Body(path: string): string {
    if path != "" && path[|path| - 1] == '/' then path[..|path| - 1] else path
  }

  function Respelled(body: string): string {
    var parts := NoDots(Names.Segments(body));
    if parts == [] then "." else Names.Join(parts)
  }

  function StoredPath(path: string): string {
    Respelled(Body(path)) + path[|Body(path)|..]
  }

  /** No piece of the path is empty or a dot, but for a final slash or a lone dot. */
  predicate IsPlainPath(path: string) {
    var parts := Names.Split(Body(path), '/');
    Body(path) == "." || forall i | 0 <= i < |parts| :: parts[i] != "" && parts[i] != "."
  }

  lemma {:induction false} NoDotsIs(parts: seq<string>)
    ensures NoDots(parts) == parts <==> forall i | 0 <= i < |parts| :: parts[i] != "."
    ensures |NoDots(parts)| <= |parts|
    ensures forall i | 0 <= i < |NoDots(parts)| :: NoDots(parts)[i] != "." && NoDots(parts)[i] in parts
  {
    if parts != [] {
      NoDotsIs(parts[1..]);
      assert forall i | 1 <= i < |parts| :: parts[i] == parts[1..][i - 1];
      assert parts == [parts[0]] + parts[1..];
    }
  }

  /** The pieces that are left are pieces without slashes, dots and gaps. */
  lemma {:induction false} KeptPieces(body: string)
    ensures var kept := NoDots(Names.Segments(body));
            forall i | 0 <= i < |kept| :: Names.IsSegment(kept[i]) && kept[i] != "."
  {
    Names.SegmentsAreSegments(body);
    NoDotsIs(Names.Segments(body));
  }

  lemma {:induction false} BodyIsSame(body: string)
    ensures Respelled(body) == body <==>
            body == "." || forall i | 0 <= i < |Names.Split(body, '/')| :: Names.Split(body, '/')[i] != "" && Names.Split(body, '/')[i] != "."
  {
    hide Names.Split, Names.Join, Names.NonEmpty, NoDots;
    var parts, kept := Names.Split(body, '/'), NoDots(Names.Segments(body));
    KeptPieces(body);
    Names.NonEmptyIs(parts);
    NoDotsIs(Names.Segments(body));
    if kept == [] {
      LoneDot();
    } else {
      if Names.Join(kept) == body {
        Names.SplitJoin(kept);
      }
      if body == "." {
        DotHasNoPieces();
      }
    }
    Names.JoinSplit(body);
  }

  lemma {:induction false} DotHasNoPieces()
    ensures NoDots(Names.Segments(".")) == []
  {
    Names.SingleSegment(".");
    assert ["."][1..] == [];
  }

  lemma {:induction false} LoneDot()
    ensures Names.Split(".", '/') == ["."]
  {
    Names.SplitNone(".", '/');
  }

  /** The spelling is kept exactly for plain paths. */
  lemma {:induction false} StoredIsSame(path: string)
    ensures StoredPath(path) == path <==> IsPlainPath(path)
  {
    hide Respelled;
    var body := Body(path);
    assert path[..|body|] == body && path == body + path[|body|..];
    var stored, tail := Respelled(body), path[|body|..];
    if stored + tail == body + tail {
      assert |stored| == |body|;
      assert stored == (stored + tail)[..|body|];
    }
    BodyIsSame(body);
  }

  /* ---- Pieces of a stored path ---- */

  lemma {:induction false} SegmentsOfPieces(parts: seq<string>)
    requires parts != [] && forall i | 0 <= i < |parts| :: Names.IsSegment(parts[i])
    ensures Names.Segments(Names.Join(parts)) == parts
  {
    hide Names.Split, Names.Join, Names.NonEmpty;
    Names.SplitJoin(parts);
    Names.NonEmptyIs(parts);
  }

  lemma {:induction false} NoSegments()
    ensures Names.Segments("") == []
  {
    Names.SplitNone("", '/');
    assert [""][1..] == [];
  }

  /** A final slash adds no piece. */
  lemma {:induction false} SegmentsOfBody(path: string, body: string)
    requires path == body || path == body + ['/']
    ensures Names.Segments(path) == Names.Segments(body)
  {
    hide Names.Segments;
    if path != body {
      Names.SegmentsConcat(body, "");
      NoSegments();
      assert body + (['/'] + "") == path;
    }
  }

  lemma {:induction false} RespelledSegments(body: string)
    ensures var kept := NoDots(Names.Segments(body));
            Names.Segments(Respelled(body)) == if kept == [] then ["."] else kept
  {
    hide Names.Split, Names.Join, Names.NonEmpty, NoDots;
    var kept := NoDots(Names.Segments(body));
    KeptPieces(body);
    if kept == [] {
      Names.SingleSegment(".");
    } else {
      assert kept == NoDots(Names.Segments(body));
      SegmentsOfPieces(kept);
    }
  }

  /** The pieces of a stored path are those of the path but the dots, or a lone dot. */
  lemma {:induction false} StoredSegments(path: string)
    ensures var kept := NoDots(Names.Segments(path));
            Names.Segments(StoredPath(path)) == if kept == [] then ["."] else kept
  {
    hide Names.Segments, Respelled, NoDots;
    var body := Body(path);
    assert path[..|body|] == body && path == body + path[|body|..];
    SegmentsOfBody(path, body);
    SegmentsOfBody(StoredPath(path), Respelled(body));
    RespelledSegments(body);
  }

  /* ---- The tar writer ---- */

  /** The tar writer's header names are the paths without empty and dot pieces, for these files. */
  predicate Respells(writer: A.Writer, files: seq<A.TgzFile>) {
    forall i | 0 <= i < |files| :: RespellsName(writer, files[i].name)
  }

  predicate RespellsName(writer: A.Writer, name: Bytes) {
    writer(name).InHeader? ==> AsText(writer(name).stored) == StoredPath(AsText(name))
  }

  /** A name that fits a header is kept if it is a plain path, and any other if it has no final NUL. */
  lemma {:induction false} KeepsExactly(writer: A.Writer, name: Bytes)
    requires RespellsName(writer, name)
    ensures A.Keeps(writer, name) <==> if writer(name).InHeader? then IsPlainPath(AsText(name)) else !A.EndsInNul(name)
  {
    hide StoredPath, IsPlainPath;
    if writer(name).InHeader? {
      AsTextDetermines(writer(name).stored, name);
      StoredIsSame(AsText(name));
    }
  }

  /**
    The archive round trip in terms of the names alone: unpacking what was packed is the
    identity if and only if the charges fit, every name in a header is a plain path, and
    no long name ends in NUL.
  */
  lemma {:induction false} PackRoundTripOfPaths(files: seq<A.TgzFile>, writer: A.Writer, limits: A.ArchiveLimits)
    requires A.Accepts(writer, files) && Respells(writer, files)
    ensures A.Unpack(A.AsItems(A.Packed(files, writer)), limits) == Ok(files) <==>
            && A.FitsFrom(A.PackedCharges(files, writer), 0, 0, limits)
            && forall i | 0 <= i < |files| ::
                 if writer(files[i].name).InHeader? then IsPlainPath(AsText(files[i].name)) else !A.EndsInNul(files[i].name)
  {
    hide A.Unpack, A.Packed, A.FitsFrom, A.PackedCharges, IsPlainPath, A.Keeps, A.EndsInNul, RespellsName;
    A.PackRoundTrip(files, writer, limits);
    forall i | 0 <= i < |files|
      ensures A.Keeps(writer, files[i].name) <==>
              if writer(files[i].name).InHeader? then IsPlainPath(AsText(files[i].name)) else !A.EndsInNul(files[i].name)
    {
      KeepsExactly(writer, files[i].name);
    }
  }
}
