/**
  Unpacking and packing chart archives, at the level of tar entries: the loop that the
  program runs, a description of archives as members with their metadata, and the proof
  that the two agree.
*/
module TarArchive {
  import opened Wrappers
  import opened Sequences
  import opened Bytes
  import opened PaxRecords

  datatype EntryType = Regular | GnuLongName | GnuLongLink | XHeader | XGlobalHeader | GnuSparse | OtherType

  /**
    A raw tar entry: header fields as far as they decode, and what reading its payload
    yields (nothing on a read error).
  */
  datatype Entry = Entry(
    kind: EntryType,
    size: nat,
    path: Bytes,
    mode: Option<nat>,
    mtime: Option<nat>,
    payload: Option<Bytes>)

  /** What the archive iterator produces: an entry, or a failure to read the next header. */
  datatype Item = Good(entry: Entry) | Broken

  datatype TgzFile = TgzFile(name: Bytes, data: Bytes, mode: nat, mtime: nat)

  datatype Limits = Limits(maxExpandedBytes: nat, maxFileBytes: nat, maxFiles: nat)

  type ArchiveLimits = l: Limits
    | l.maxExpandedBytes <= U64_MAX && l.maxFileBytes <= U64_MAX && l.maxFiles <= USIZE_MAX
    witness Limits(0, 0, 0)

  const UNBOUNDED: ArchiveLimits := Limits(U64_MAX, U64_MAX, USIZE_MAX)

  datatype ChartError = InvalidChart | ChartTooLarge

  const DEFAULT_MODE: nat := 420

  predicate IsMetadata(kind: EntryType) {
    kind == GnuLongName || kind == GnuLongLink || kind == XHeader || kind == XGlobalHeader
  }

  function TrimNuls(s: Bytes): Bytes {
    if s != [] && s[|s| - 1] == 0 then TrimNuls(s[..|s| - 1]) else s
  }

  function Or<T>(o: Option<T>, default: T): T {
    if o.Some? then o.value else default
  }

  function PathOverride(p: Pending): Option<Bytes> {
    if p.paxPath.Some? then p.paxPath else p.longName
  }

  /* ---- The loop ---- */

  datatype Progress = Progress(files: seq<TgzFile>, expandedBytes: nat, entryCount: nat, pending: Pending)

  /** Payload of an entry whose size is declared to be `declared`. */
  function ReadPayload(entry: Entry, declared: nat): Option<Bytes> {
    if entry.payload.Some? && |entry.payload.value| == declared then entry.payload else None
  }

  function Charged(p: Pending, entry: Entry): nat {
    if IsMetadata(entry.kind) then entry.size else Or(p.paxSize, entry.size)
  }

  /** The three budgets, in the order they are checked. */
  function Budget(st: Progress, entry: Entry, limits: ArchiveLimits): Result<Progress, ChartError> {
    var charge := Charged(st.pending, entry);
    if st.entryCount + 1 > USIZE_MAX then Err(InvalidChart)
    else if st.entryCount + 1 > limits.maxFiles then Err(ChartTooLarge)
    else if charge > limits.maxFileBytes then Err(ChartTooLarge)
    else if st.expandedBytes + charge > U64_MAX then Err(InvalidChart)
    else if st.expandedBytes + charge > limits.maxExpandedBytes then Err(ChartTooLarge)
    else Ok(st.(expandedBytes := st.expandedBytes + charge, entryCount := st.entryCount + 1))
  }

  function AddMetadata(p: Pending, entry: Entry): Option<Pending> {
    match ReadPayload(entry, entry.size)
    case None => None
    case Some(payload) =>
      match entry.kind
      case GnuLongName => if p.longName.Some? then None else Some(p.(longName := Some(payload)))
      case XHeader =>
        if p.paxSeen then None
        else
          var applied := ApplyRecords(payload, p.(paxSeen := true));
          if applied.ok then Some(applied.pending) else None
      case _ => Some(p)
  }

  function AddMember(files: seq<TgzFile>, p: Pending, entry: Entry): Option<seq<TgzFile>> {
    if entry.kind != Regular then Some(files)
    else
      match ReadPayload(entry, Or(p.paxSize, entry.size))
      case None => None
      case Some(data) =>
        var name := if PathOverride(p).Some? then TrimNuls(PathOverride(p).value) else entry.path;
        Some(files + [TgzFile(name, data, Or(entry.mode, DEFAULT_MODE), Or(entry.mtime, 0))])
  }

  function Step(st: Progress, item: Item, limits: ArchiveLimits): Result<Progress, ChartError> {
    match item
    case Broken => Err(InvalidChart)
    case Good(entry) =>
      match Budget(st, entry, limits)
      case Err(e) => Err(e)
      case Ok(paid) =>
        if entry.kind == GnuSparse then Err(InvalidChart)
        else if IsMetadata(entry.kind) then
          match AddMetadata(st.pending, entry)
          case None => Err(InvalidChart)
          case Some(pending) => Ok(paid.(pending := pending))
        else
          match AddMember(st.files, st.pending, entry)
          case None => Err(InvalidChart)
          case Some(files) => Ok(paid.(files := files, pending := NOTHING_PENDING))
  }

  function UnpackFrom(items: seq<Item>, st: Progress, limits: ArchiveLimits): Result<seq<TgzFile>, ChartError> {
    if items == [] then
      if st.pending.longName.Some? || st.pending.paxSeen then Err(InvalidChart) else Ok(st.files)
    else
      match Step(st, items[0], limits)
      case Err(e) => Err(e)
      case Ok(next) => UnpackFrom(items[1..], next, limits)
  }

  const START := Progress([], 0, 0, NOTHING_PENDING)

  function Unpack(items: seq<Item>, limits: ArchiveLimits): Result<seq<TgzFile>, ChartError> {
    UnpackFrom(items, START, limits)
  }

  /** The program's loop, over five pieces of state. */
  method UnpackTgz(items: seq<Item>, limits: ArchiveLimits) returns (r: Result<seq<TgzFile>, ChartError>)
    ensures r == Unpack(items, limits)
  {
    hide ApplyRecords, TrimNuls;
    var files: seq<TgzFile> := [];
    var expandedBytes: nat := 0;
    var entryCount: nat := 0;
    var pending := new PendingMetadata();
    for i := 0 to |items|
      invariant fresh(pending)
      invariant Unpack(items, limits) ==
                UnpackFrom(items[i..], Progress(files, expandedBytes, entryCount, pending.Value()), limits)
    {
      ghost var st := Progress(files, expandedBytes, entryCount, pending.Value());
      assert items[i..][0] == items[i] && items[i..][1..] == items[i + 1..];
      if items[i].Broken? {
        return Err(InvalidChart);
      }
      var entry := items[i].entry;
      var isMetadata := IsMetadata(entry.kind);
      if entryCount + 1 > USIZE_MAX {
        return Err(InvalidChart);
      }
      if entryCount + 1 > limits.maxFiles {
        return Err(ChartTooLarge);
      }
      var entrySize := if isMetadata then entry.size else Or(pending.paxSize, entry.size);
      if entrySize > limits.maxFileBytes {
        return Err(ChartTooLarge);
      }
      if expandedBytes + entrySize > U64_MAX {
        return Err(InvalidChart);
      }
      if expandedBytes + entrySize > limits.maxExpandedBytes {
        return Err(ChartTooLarge);
      }
      entryCount := entryCount + 1;
      expandedBytes := expandedBytes + entrySize;
      if entry.kind == GnuSparse {
        return Err(InvalidChart);
      }
      if isMetadata {
        var payload := ReadPayload(entry, entrySize);
        if payload.None? {
          return Err(InvalidChart);
        }
        if entry.kind == GnuLongName {
          if pending.longName.Some? {
            return Err(InvalidChart);
          }
          pending.longName := payload;
        } else if entry.kind == XHeader {
          if pending.paxSeen {
            return Err(InvalidChart);
          }
          pending.paxSeen := true;
          var ok := pending.ApplyPaxRecords(payload.value);
          if !ok {
            return Err(InvalidChart);
          }
        }
      } else {
        var metadata := pending.Take();
        if entry.kind == Regular {
          var override := PathOverride(metadata);
          var name := if override.Some? then TrimNuls(override.value) else entry.path;
          var data := ReadPayload(entry, entrySize);
          if data.None? {
            return Err(InvalidChart);
          }
          files := files + [TgzFile(name, data.value, Or(entry.mode, DEFAULT_MODE), Or(entry.mtime, 0))];
        }
      }
      assert Step(st, items[i], limits) == Ok(Progress(files, expandedBytes, entryCount, pending.Value()));
    }
    assert items[|items|..] == [];
    if pending.longName.Some? || pending.paxSeen {
      return Err(InvalidChart);
    }
    return Ok(files);
  }

  /* ---- Archives as members with their metadata ---- */

  /** A member and the metadata entries directly before it. */
  datatype Group = Group(metas: seq<Entry>, member: Entry)

  function OfKind(metas: seq<Entry>, kind: EntryType): seq<Entry> {
    if metas == [] then []
    else OfKind(metas[..|metas| - 1], kind) + if metas[|metas| - 1].kind == kind then [metas[|metas| - 1]] else []
  }

  /** Entries split at the members; `metas` are the metadata entries already passed. */
  function Groups(entries: seq<Entry>, metas: seq<Entry>): seq<Group>
    decreases |entries|
  {
    if entries == [] then []
    else if IsMetadata(entries[0].kind) then Groups(entries[1..], metas + [entries[0]])
    else [Group(metas, entries[0])] + Groups(entries[1..], [])
  }

  /** Metadata entries with no member after them. */
  function Trailing(entries: seq<Entry>, metas: seq<Entry>): seq<Entry>
    decreases |entries|
  {
    if entries == [] then metas
    else if IsMetadata(entries[0].kind) then Trailing(entries[1..], metas + [entries[0]])
    else Trailing(entries[1..], [])
  }

  predicate Complete(entry: Entry) {
    entry.payload.Some? && |entry.payload.value| == entry.size
  }

  predicate AllComplete(metas: seq<Entry>) {
    forall i | 0 <= i < |metas| :: Complete(metas[i])
  }

  /** The records of the (first) local PAX header. */
  function PaxOf(metas: seq<Entry>): Applied {
    var xs := OfKind(metas, XHeader);
    if xs == [] || xs[0].payload.None? then Applied(NOTHING_PENDING, true)
    else ApplyRecords(xs[0].payload.value, NOTHING_PENDING)
  }

  /** Complete payloads, at most one long name, at most one PAX header and that one parses. */
  predicate MetasOk(metas: seq<Entry>) {
    && AllComplete(metas)
    && |OfKind(metas, GnuLongName)| <= 1
    && |OfKind(metas, XHeader)| <= 1
    && PaxOf(metas).ok
  }

  /** Bytes the member counts for: a PAX size beats the header, even for a dropped member. */
  function MemberCharge(g: Group): nat {
    Or(PaxOf(g.metas).pending.paxSize, g.member.size)
  }

  /** A PAX path beats a GNU long name, whichever came first; both beat the header. */
  function MemberName(g: Group): Bytes {
    var pax := PaxOf(g.metas).pending.paxPath;
    var longNames := OfKind(g.metas, GnuLongName);
    if pax.Some? then TrimNuls(pax.value)
    else if longNames != [] then TrimNuls(Or(longNames[0].payload, []))
    else g.member.path
  }

  predicate GroupOk(g: Group) {
    && MetasOk(g.metas)
    && g.member.kind != GnuSparse
    && (g.member.kind == Regular ==> g.member.payload.Some? && |g.member.payload.value| == MemberCharge(g))
  }

  function FileOf(g: Group): TgzFile {
    TgzFile(MemberName(g), Or(g.member.payload, []), Or(g.member.mode, DEFAULT_MODE), Or(g.member.mtime, 0))
  }

  /** Regular members in order; every other type is dropped with its metadata. */
  function FilesOf(groups: seq<Group>): seq<TgzFile> {
    if groups == [] then []
    else (if groups[0].member.kind == Regular then [FileOf(groups[0])] else []) + FilesOf(groups[1..])
  }

  predicate AllGroupsOk(groups: seq<Group>) {
    forall i | 0 <= i < |groups| :: GroupOk(groups[i])
  }

  /** Nothing is out of order so far. */
  predicate InOrder(entries: seq<Entry>, metas: seq<Entry>) {
    AllGroupsOk(Groups(entries, metas)) && MetasOk(Trailing(entries, metas))
  }

  /** Everything is in order and no long name or PAX header is left without a member. */
  predicate WellFormed(entries: seq<Entry>, metas: seq<Entry>) {
    var trailing := Trailing(entries, metas);
    InOrder(entries, metas) && OfKind(trailing, GnuLongName) == [] && OfKind(trailing, XHeader) == []
  }

  /** Bytes charged for each entry, in order. */
  function Charges(entries: seq<Entry>, metas: seq<Entry>): (charges: seq<nat>)
    ensures |charges| == |entries|
    decreases |entries|
  {
    if entries == [] then []
    else if IsMetadata(entries[0].kind) then [entries[0].size] + Charges(entries[1..], metas + [entries[0]])
    else [MemberCharge(Group(metas, entries[0]))] + Charges(entries[1..], [])
  }

  function Sum(s: seq<nat>): nat {
    if s == [] then 0 else s[0] + Sum(s[1..])
  }

  /** The three budgets on charged sizes, with `count` entries and `spent` bytes already paid for. */
  predicate FitsFrom(charges: seq<nat>, count: nat, spent: nat, limits: ArchiveLimits) {
    && count + |charges| <= limits.maxFiles
    && (forall i | 0 <= i < |charges| :: charges[i] <= limits.maxFileBytes)
    && spent + Sum(charges) <= limits.maxExpandedBytes
  }

  predicate Fits(entries: seq<Entry>, limits: ArchiveLimits) {
    FitsFrom(Charges(entries, []), 0, 0, limits)
  }

  predicate AllGood(items: seq<Item>) {
    forall i | 0 <= i < |items| :: items[i].Good?
  }

  function EntriesOf(items: seq<Item>): (entries: seq<Entry>)
    requires AllGood(items)
    ensures |entries| == |items|
    ensures forall i | 0 <= i < |items| :: entries[i] == items[i].entry
  {
    seq(|items|, i requires 0 <= i < |items| => items[i].entry)
  }

  /* ---- The loop computes the description ---- */

  /** The pending state is a summary of the metadata entries passed so far. */
  ghost predicate Summarizes(p: Pending, metas: seq<Entry>) {
    var longNames := OfKind(metas, GnuLongName);
    && MetasOk(metas)
    && p.longName == (if longNames == [] then None else longNames[0].payload)
    && (p.paxSeen <==> OfKind(metas, XHeader) != [])
    && p.paxPath == PaxOf(metas).pending.paxPath
    && p.paxSize == PaxOf(metas).pending.paxSize
  }

  /** Records only touch the path and the size. */
  lemma {:induction false} RecordsFrame(rest: Bytes, p: Pending, q: Pending)
    requires p.paxPath == q.paxPath && p.paxSize == q.paxSize
    ensures var a, b := ApplyRecords(rest, p), ApplyRecords(rest, q);
            && a.ok == b.ok
            && a.pending == p.(paxPath := a.pending.paxPath, paxSize := a.pending.paxSize)
            && a.pending.paxPath == b.pending.paxPath && a.pending.paxSize == b.pending.paxSize
    decreases |rest|
  {
    if !AllZero(rest) && NextRecord(rest).Some? {
      var (r, length) := NextRecord(rest).value;
      if GoodRecord(r) {
        RecordsFrame(rest[length..], ApplyRecord(p, r), ApplyRecord(q, r));
      }
    }
  }

  lemma {:induction false} OfKindLast(metas: seq<Entry>, e: Entry, kind: EntryType)
    ensures OfKind(metas + [e], kind) == OfKind(metas, kind) + if e.kind == kind then [e] else []
  {
    assert (metas + [e])[..|metas|] == metas;
  }

  lemma {:induction false} OfKindComplete(metas: seq<Entry>, kind: EntryType)
    requires AllComplete(metas)
    ensures AllComplete(OfKind(metas, kind))
  {
    if metas != [] {
      OfKindComplete(metas[..|metas| - 1], kind);
    }
  }

  lemma {:induction false} AllCompleteMore(metas: seq<Entry>, e: Entry)
    ensures AllComplete(metas + [e]) <==> AllComplete(metas) && Complete(e)
  {
    var longer := metas + [e];
    assert longer[|metas|] == e;
    assert forall i | 0 <= i < |metas| :: longer[i] == metas[i];
  }

  /** One more metadata entry is accepted exactly when the longer list is still in order. */
  lemma {:induction false} MetadataStep(p: Pending, metas: seq<Entry>, e: Entry)
    requires Summarizes(p, metas) && IsMetadata(e.kind)
    ensures AddMetadata(p, e).Some? <==> MetasOk(metas + [e])
    ensures AddMetadata(p, e).Some? ==> Summarizes(AddMetadata(p, e).value, metas + [e])
  {
    hide ApplyRecords, OfKind, AllComplete;
    OfKindLast(metas, e, GnuLongName);
    OfKindLast(metas, e, XHeader);
    AllCompleteMore(metas, e);
    if Complete(e) {
      LongNameIsComplete(metas);
      if e.kind == XHeader && OfKind(metas, XHeader) == [] {
        RecordsFrame(e.payload.value, p.(paxSeen := true), NOTHING_PENDING);
      }
    }
  }

  lemma {:induction false} LongNameIsComplete(metas: seq<Entry>)
    requires AllComplete(metas)
    ensures var longNames := OfKind(metas, GnuLongName); longNames != [] ==> longNames[0].payload.Some?
  {
    OfKindComplete(metas, GnuLongName);
  }

  /** Metadata that is out of order stays out of order, whatever follows. */
  lemma {:induction false} BadMetasStayBad(entries: seq<Entry>, metas: seq<Entry>)
    requires !MetasOk(metas)
    ensures !InOrder(entries, metas)
    decreases |entries|
  {
    if entries != [] {
      var e := entries[0];
      if IsMetadata(e.kind) {
        BadPrefix(metas, e);
        BadMetasStayBad(entries[1..], metas + [e]);
      } else {
        assert Groups(entries, metas)[0] == Group(metas, e);
      }
    }
  }

  lemma {:induction false} BadPrefix(metas: seq<Entry>, e: Entry)
    requires !MetasOk(metas)
    ensures !MetasOk(metas + [e])
  {
    var longer := metas + [e];
    OfKindLast(metas, e, GnuLongName);
    OfKindLast(metas, e, XHeader);
    assert forall i | 0 <= i < |metas| :: longer[i] == metas[i];
  }

  lemma {:induction false} AddMemberMeaning(files: seq<TgzFile>, p: Pending, metas: seq<Entry>, e: Entry)
    requires Summarizes(p, metas) && !IsMetadata(e.kind) && e.kind != GnuSparse
    ensures var g := Group(metas, e);
            && (AddMember(files, p, e).Some? <==> GroupOk(g))
            && (GroupOk(g) ==> AddMember(files, p, e).value == files + FilesOf([g]))
  {
    var g := Group(metas, e);
    assert FilesOf([g]) == if e.kind == Regular then [FileOf(g)] else [];
    OfKindComplete(metas, GnuLongName);
    assert files + [] == files;
  }

  ghost predicate Agrees(items: seq<Item>, st: Progress, metas: seq<Entry>, limits: ArchiveLimits, files: seq<TgzFile>) {
    UnpackFrom(items, st, limits) == Ok(files) <==>
      && AllGood(items)
      && WellFormed(EntriesOf(items), metas)
      && FitsFrom(Charges(EntriesOf(items), metas), st.entryCount, st.expandedBytes, limits)
      && files == st.files + FilesOf(Groups(EntriesOf(items), metas))
  }

  lemma {:induction false} BudgetMeaning(st: Progress, metas: seq<Entry>, e: Entry, more: seq<nat>, limits: ArchiveLimits)
    requires Summarizes(st.pending, metas)
    ensures var charge := Charged(st.pending, e);
            && charge == (if IsMetadata(e.kind) then e.size else MemberCharge(Group(metas, e)))
            && (FitsFrom([charge] + more, st.entryCount, st.expandedBytes, limits) <==>
                  Budget(st, e, limits).Ok? && FitsFrom(more, st.entryCount + 1, st.expandedBytes + charge, limits))
            && (Budget(st, e, limits).Ok? ==>
                  Budget(st, e, limits).value == st.(expandedBytes := st.expandedBytes + charge, entryCount := st.entryCount + 1))
  {
    var charge := Charged(st.pending, e);
    var charges := [charge] + more;
    assert charges[1..] == more;
    assert forall i | 1 <= i < |charges| :: charges[i] == more[i - 1];
    assert charges[0] == charge;
    assert forall i | 0 <= i < |more| :: charges[i + 1] == more[i];
  }

  /** Everything paid for so far was within budget. */
  predicate Within(st: Progress, limits: ArchiveLimits) {
    st.entryCount <= limits.maxFiles && st.expandedBytes <= limits.maxExpandedBytes
  }

  lemma {:induction false} LoopAgrees(items: seq<Item>, st: Progress, metas: seq<Entry>, limits: ArchiveLimits, files: seq<TgzFile>)
    requires Summarizes(st.pending, metas) && Within(st, limits)
    ensures Agrees(items, st, metas, limits, files)
    decreases |items|
  {
    if items == [] {
      OfKindComplete(metas, GnuLongName);
      assert EntriesOf(items) == [] && st.files + [] == st.files;
    } else if items[0].Broken? {
    } else {
      var e, more := items[0].entry, items[1..];
      assert AllGood(items) <==> AllGood(more) by {
        assert forall i | 0 <= i < |more| :: more[i] == items[i + 1];
      }
      if AllGood(items) {
        assert EntriesOf(items)[1..] == EntriesOf(more);
        if IsMetadata(e.kind) {
          MetadataAgrees(items, st, metas, limits, files);
        } else {
          MemberAgrees(items, st, metas, limits, files);
        }
      } else {
        match Step(st, items[0], limits)
        case Err(_) =>
        case Ok(next) =>
          if IsMetadata(e.kind) {
            MetadataStep(st.pending, metas, e);
            LoopAgrees(more, next, metas + [e], limits, files);
          } else {
            NothingSummarizes();
            LoopAgrees(more, next, [], limits, files);
          }
      }
    }
  }

  lemma {:induction false} NothingSummarizes()
    ensures Summarizes(NOTHING_PENDING, [])
  {
  }

  lemma {:induction false} MetadataAgrees(items: seq<Item>, st: Progress, metas: seq<Entry>, limits: ArchiveLimits, files: seq<TgzFile>)
    requires Summarizes(st.pending, metas) && Within(st, limits) && items != [] && AllGood(items) && IsMetadata(items[0].entry.kind)
    requires AllGood(items[1..]) && EntriesOf(items)[1..] == EntriesOf(items[1..])
    ensures Agrees(items, st, metas, limits, files)
    decreases |items|, 0
  {
    var e, more := items[0].entry, items[1..];
    var longer := metas + [e];
    MetadataStep(st.pending, metas, e);
    BudgetMeaning(st, metas, e, Charges(EntriesOf(more), longer), limits);
    if !MetasOk(longer) {
      BadMetasStayBad(EntriesOf(more), longer);
    } else if Budget(st, e, limits).Ok? {
      LoopAgrees(more, Step(st, items[0], limits).value, longer, limits, files);
    }
  }

  /** Metadata entries that a member passed after `e` still has before it. */
  function Carried(e: Entry, metas: seq<Entry>): seq<Entry> {
    if IsMetadata(e.kind) then metas + [e] else []
  }

  /** The group an entry completes, if it is a member. */
  function Completed(e: Entry, metas: seq<Entry>): seq<Group> {
    if IsMetadata(e.kind) then [] else [Group(metas, e)]
  }

  function ChargeOf(e: Entry, metas: seq<Entry>): nat {
    if IsMetadata(e.kind) then e.size else MemberCharge(Group(metas, e))
  }

  lemma {:induction false} FirstEntry(entries: seq<Entry>, metas: seq<Entry>)
    requires entries != []
    ensures var e, rest := entries[0], entries[1..];
            && Groups(entries, metas) == Completed(e, metas) + Groups(rest, Carried(e, metas))
            && Trailing(entries, metas) == Trailing(rest, Carried(e, metas))
            && Charges(entries, metas) == [ChargeOf(e, metas)] + Charges(rest, Carried(e, metas))
  {
    hide MemberCharge;
  }

  lemma {:induction false} OneGroupMore(g: Group, rest: seq<Group>)
    ensures AllGroupsOk([g] + rest) <==> GroupOk(g) && AllGroupsOk(rest)
    ensures FilesOf([g] + rest) == FilesOf([g]) + FilesOf(rest)
  {
    hide GroupOk, FileOf;
    var groups := [g] + rest;
    assert groups[0] == g && groups[1..] == rest;
    assert forall i | 0 <= i < |rest| :: groups[i + 1] == rest[i];
  }

  /** What a member at the front adds to the description of the rest. */
  lemma {:induction false} MemberFirst(entries: seq<Entry>, metas: seq<Entry>)
    requires entries != [] && !IsMetadata(entries[0].kind)
    ensures var g, rest := Group(metas, entries[0]), entries[1..];
            && (WellFormed(entries, metas) <==> GroupOk(g) && WellFormed(rest, []))
            && (InOrder(entries, metas) <==> GroupOk(g) && InOrder(rest, []))
            && FilesOf(Groups(entries, metas)) == FilesOf([g]) + FilesOf(Groups(rest, []))
            && Charges(entries, metas) == [MemberCharge(g)] + Charges(rest, [])
  {
    hide GroupOk, MemberCharge, FilesOf, AllGroupsOk, OfKind, MetasOk, Groups, Trailing, Charges;
    FirstEntry(entries, metas);
    OneGroupMore(Group(metas, entries[0]), Groups(entries[1..], []));
  }

  lemma {:induction false} MemberAgrees(items: seq<Item>, st: Progress, metas: seq<Entry>, limits: ArchiveLimits, files: seq<TgzFile>)
    requires Summarizes(st.pending, metas) && Within(st, limits) && items != [] && AllGood(items) && !IsMetadata(items[0].entry.kind)
    requires AllGood(items[1..]) && EntriesOf(items)[1..] == EntriesOf(items[1..])
    ensures Agrees(items, st, metas, limits, files)
    decreases |items|, 0
  {
    hide WellFormed, FilesOf, Charges, FitsFrom, GroupOk, MemberCharge, Budget, AddMember, Summarizes;
    var e, more := items[0].entry, items[1..];
    var g := Group(metas, e);
    MemberFirst(EntriesOf(items), metas);
    BudgetMeaning(st, metas, e, Charges(EntriesOf(more), []), limits);
    if e.kind == GnuSparse {
      SparseIsNeverOk(g);
    } else {
      AddMemberMeaning(st.files, st.pending, metas, e);
      if GroupOk(g) && Budget(st, e, limits).Ok? {
        NothingSummarizes();
        BudgetKeepsWithin(st, e, limits);
        LoopAgrees(more, Step(st, items[0], limits).value, [], limits, files);
        assert (st.files + FilesOf([g])) + FilesOf(Groups(EntriesOf(more), [])) ==
               st.files + (FilesOf([g]) + FilesOf(Groups(EntriesOf(more), [])));
      }
    }
  }

  lemma {:induction false} SparseIsNeverOk(g: Group)
    requires g.member.kind == GnuSparse
    ensures !GroupOk(g)
  {
  }

  lemma {:induction false} BudgetKeepsWithin(st: Progress, e: Entry, limits: ArchiveLimits)
    requires Budget(st, e, limits).Ok?
    ensures Within(Budget(st, e, limits).value, limits)
  {
  }

  /**
    Main result: unpacking succeeds with `files` exactly when every entry is readable,
    every group of metadata and member is in order with nothing left over, the charged
    sizes fit, and `files` are the regular members in order.
  */
  lemma {:induction false} UnpackRefines(items: seq<Item>, limits: ArchiveLimits, files: seq<TgzFile>)
    ensures Unpack(items, limits) == Ok(files) <==>
            && AllGood(items)
            && WellFormed(EntriesOf(items), [])
            && Fits(EntriesOf(items), limits)
            && files == FilesOf(Groups(EntriesOf(items), []))
  {
    NothingSummarizes();
    LoopAgrees(items, START, [], limits, files);
    assert [] + FilesOf([]) == FilesOf([]);
    if AllGood(items) {
      assert START.files + FilesOf(Groups(EntriesOf(items), [])) == FilesOf(Groups(EntriesOf(items), []));
    }
  }

  /* ---- Limits are a filter ---- */

  lemma {:induction false} LimitErrorsAreTooLarge(items: seq<Item>, st: Progress, limits: ArchiveLimits)
    requires UnpackFrom(items, st, UNBOUNDED).Ok?
    ensures UnpackFrom(items, st, limits) in {UnpackFrom(items, st, UNBOUNDED), Err(ChartTooLarge)}
    decreases |items|
  {
    if items != [] {
      match Step(st, items[0], limits)
      case Err(_) =>
      case Ok(next) => LimitErrorsAreTooLarge(items[1..], next, limits);
    }
  }

  /**
    An archive that unpacks without limits yields, under any limits, the same files when
    its entry count, every charge and the charged total fit, and `ChartTooLarge` otherwise.
  */
  lemma {:induction false} LimitsAreAFilter(items: seq<Item>, limits: ArchiveLimits)
    requires Unpack(items, UNBOUNDED).Ok?
    ensures AllGood(items)
    ensures Unpack(items, limits) ==
            if Fits(EntriesOf(items), limits) then Unpack(items, UNBOUNDED) else Err(ChartTooLarge)
  {
    var files := Unpack(items, UNBOUNDED).value;
    UnpackRefines(items, UNBOUNDED, files);
    UnpackRefines(items, limits, files);
    LimitErrorsAreTooLarge(items, START, limits);
  }

  /** No limits make a malformed archive unpack, and success under limits is success without. */
  lemma {:induction false} LimitsNeverRepair(items: seq<Item>, limits: ArchiveLimits)
    requires Unpack(items, limits).Ok?
    ensures Unpack(items, UNBOUNDED) == Unpack(items, limits)
  {
    var files := Unpack(items, limits).value;
    UnpackRefines(items, limits, files);
    UnpackRefines(items, UNBOUNDED, files);
  }

  /** Raising limits never loses an archive. */
  lemma {:induction false} LimitsAreMonotone(items: seq<Item>, low: ArchiveLimits, high: ArchiveLimits)
    requires low.maxExpandedBytes <= high.maxExpandedBytes && low.maxFileBytes <= high.maxFileBytes
    requires low.maxFiles <= high.maxFiles && Unpack(items, low).Ok?
    ensures Unpack(items, high) == Unpack(items, low)
  {
    var files := Unpack(items, low).value;
    UnpackRefines(items, low, files);
    UnpackRefines(items, high, files);
  }

  function DataBytes(files: seq<TgzFile>): nat {
    if files == [] then 0 else |files[0].data| + DataBytes(files[1..])
  }

  predicate EachWithin(charges: seq<nat>, bound: nat) {
    forall i | 0 <= i < |charges| :: charges[i] <= bound
  }

  /** As many files as entries at most, no more data than charged, and no file over the bound. */
  predicate FilesWithin(files: seq<TgzFile>, charges: seq<nat>, bound: nat) {
    && |files| <= |charges|
    && DataBytes(files) <= Sum(charges)
    && forall i | 0 <= i < |files| :: |files[i].data| <= bound
  }

  lemma {:induction false} OneChargeMore(files: seq<TgzFile>, charges: seq<nat>, charge: nat, bound: nat)
    requires FilesWithin(files, charges, bound)
    ensures FilesWithin(files, [charge] + charges, bound)
    ensures forall f: TgzFile | |f.data| == charge <= bound :: FilesWithin([f] + files, [charge] + charges, bound)
  {
    assert ([charge] + charges)[1..] == charges;
    forall f: TgzFile | |f.data| == charge <= bound
      ensures FilesWithin([f] + files, [charge] + charges, bound)
    {
      assert ([f] + files)[1..] == files;
    }
  }

  lemma {:induction false} FilesOfOne(g: Group)
    requires GroupOk(g)
    ensures FilesOf([g]) == if g.member.kind == Regular then [FileOf(g)] else []
    ensures g.member.kind == Regular ==> |FileOf(g).data| == MemberCharge(g)
  {
    hide MetasOk;
    assert [g][1..] == [];
  }

  lemma {:induction false} FilesWithinCharges(entries: seq<Entry>, metas: seq<Entry>, bound: nat)
    requires AllGroupsOk(Groups(entries, metas)) && EachWithin(Charges(entries, metas), bound)
    ensures FilesWithin(FilesOf(Groups(entries, metas)), Charges(entries, metas), bound)
    decreases |entries|
  {
    if entries != [] {
      hide Groups, Charges, FilesOf, GroupOk, MemberCharge, FilesWithin, AllGroupsOk, EachWithin, FileOf;
      var e, more, next := entries[0], entries[1..], Carried(entries[0], metas);
      var groups, charges := Groups(more, next), Charges(more, next);
      FirstEntry(entries, metas);
      EachWithinRest(ChargeOf(e, metas), charges, bound);
      if IsMetadata(e.kind) {
        assert [] + groups == groups;
        FilesWithinCharges(more, next, bound);
        OneChargeMore(FilesOf(groups), charges, ChargeOf(e, metas), bound);
      } else {
        var g := Group(metas, e);
        OneGroupMore(g, groups);
        FilesOfOne(g);
        FilesWithinCharges(more, next, bound);
        OneChargeMore(FilesOf(groups), charges, ChargeOf(e, metas), bound);
        assert [] + FilesOf(groups) == FilesOf(groups);
      }
    }
  }

  lemma {:induction false} EachWithinRest(charge: nat, charges: seq<nat>, bound: nat)
    requires EachWithin([charge] + charges, bound)
    ensures charge <= bound && EachWithin(charges, bound)
  {
    var all := [charge] + charges;
    assert all[0] == charge && forall i | 0 <= i < |charges| :: all[i + 1] == charges[i];
  }

  /** What a successful unpacking can return is bounded by the limits it ran under. */
  lemma {:induction false} OutputWithinLimits(items: seq<Item>, limits: ArchiveLimits)
    requires Unpack(items, limits).Ok?
    ensures var files := Unpack(items, limits).value;
            && |files| <= limits.maxFiles
            && DataBytes(files) <= limits.maxExpandedBytes
            && forall i | 0 <= i < |files| :: |files[i].data| <= limits.maxFileBytes
  {
    UnpackRefines(items, limits, Unpack(items, limits).value);
    FilesWithinCharges(EntriesOf(items), [], limits.maxFileBytes);
  }

  /* ---- Metadata belongs to one member ---- */

  lemma {:induction false} GroupsConcat(a: seq<Entry>, b: seq<Entry>, metas: seq<Entry>)
    ensures Groups(a + b, metas) == Groups(a, metas) + Groups(b, Trailing(a, metas))
    ensures Trailing(a + b, metas) == Trailing(b, Trailing(a, metas))
    ensures Charges(a + b, metas) == Charges(a, metas) + Charges(b, Trailing(a, metas))
    decreases |a|
  {
    if a == [] {
      assert a + b == b;
    } else {
      hide Groups, Trailing, Charges, Carried, Completed, ChargeOf;
      var e, rest := a[0], a[1..];
      var carried := Carried(e, metas);
      assert (a + b)[0] == e && (a + b)[1..] == rest + b;
      FirstEntry(a, metas);
      FirstEntry(a + b, metas);
      GroupsConcat(rest, b, carried);
      Reassociate(Completed(e, metas), Groups(rest, carried), Groups(b, Trailing(a, metas)));
      Reassociate([ChargeOf(e, metas)], Charges(rest, carried), Charges(b, Trailing(a, metas)));
    }
  }

  /**
    A member takes all pending metadata with it, even when it is then dropped: what
    follows a member is grouped, charged and named as at the start of an archive.
  */
  lemma {:induction false} MemberResetsMetadata(before: seq<Entry>, member: Entry, after: seq<Entry>)
    requires !IsMetadata(member.kind)
    ensures Groups(before + [member] + after, []) == Groups(before + [member], []) + Groups(after, [])
    ensures Charges(before + [member] + after, []) == Charges(before + [member], []) + Charges(after, [])
    ensures Trailing(before + [member] + after, []) == Trailing(after, [])
  {
    GroupsConcat(before, [member], []);
    assert [member][1..] == [];
    assert Trailing([member], Trailing(before, [])) == [];
    GroupsConcat(before + [member], after, []);
  }

  /** A trailing long name or local PAX header is an error; trailing global or link records are not. */
  lemma {:induction false} TrailingMetadata(entries: seq<Entry>, last: Entry)
    requires WellFormed(entries, []) && Trailing(entries, []) == []
    requires IsMetadata(last.kind) && Complete(last)
    ensures WellFormed(entries + [last], []) <==> last.kind == GnuLongLink || last.kind == XGlobalHeader
  {
    GroupsConcat(entries, [last], []);
    assert [last][1..] == [];
    assert [] + [last] == [last];
    assert Trailing([last], []) == [last] && Groups([last], []) == [];
    assert Groups(entries, []) + [] == Groups(entries, []);
    OfKindLast([], last, GnuLongName);
    OfKindLast([], last, XHeader);
  }

  lemma {:induction false} OnlyOfKind(metas: seq<Entry>, kind: EntryType, i: nat)
    requires i < |metas| && metas[i].kind == kind && |OfKind(metas, kind)| <= 1
    ensures OfKind(metas, kind) == [metas[i]]
  {
    var front, last := metas[..|metas| - 1], metas[|metas| - 1];
    if i < |metas| - 1 {
      OnlyOfKind(front, kind, i);
    } else {
      assert OfKind(metas, kind) == OfKind(front, kind) + [last];
    }
  }

  lemma {:induction false} NoneOfKind(metas: seq<Entry>, kind: EntryType)
    requires forall i | 0 <= i < |metas| :: metas[i].kind != kind
    ensures OfKind(metas, kind) == []
  {
    if metas != [] {
      NoneOfKind(metas[..|metas| - 1], kind);
    }
  }

  /** Where a local PAX header or a long name is in a run of metadata; the length if nowhere. */
  ghost predicate IsAt(metas: seq<Entry>, kind: EntryType, i: nat) {
    && i <= |metas|
    && (i < |metas| ==> metas[i].kind == kind)
    && (i == |metas| ==> forall j | 0 <= j < |metas| :: metas[j].kind != kind)
  }

  /** The path a local PAX header sets. */
  function PathIn(header: Entry): Option<Bytes> {
    ApplyRecords(Or(header.payload, []), NOTHING_PENDING).pending.paxPath
  }

  /**
    Names do not depend on where the metadata stands: in every run that is in order, the
    path of the PAX header wins if it has one, then the GNU long name, then the header of
    the member. Global headers and long links in between change nothing.
  */
  lemma {:induction false} PaxPathBeatsLongName(metas: seq<Entry>, member: Entry, pax: nat, long: nat)
    requires MetasOk(metas) && IsAt(metas, XHeader, pax) && IsAt(metas, GnuLongName, long)
    ensures MemberName(Group(metas, member)) ==
            if pax < |metas| && PathIn(metas[pax]).Some? then TrimNuls(PathIn(metas[pax]).value)
            else if long < |metas| then TrimNuls(Or(metas[long].payload, []))
            else member.path
  {
    hide ApplyRecords, TrimNuls;
    if pax < |metas| {
      OnlyOfKind(metas, XHeader, pax);
      assert Complete(metas[pax]);
    } else {
      NoneOfKind(metas, XHeader);
    }
    if long < |metas| {
      OnlyOfKind(metas, GnuLongName, long);
    } else {
      NoneOfKind(metas, GnuLongName);
    }
  }

  /* ---- One run of metadata and its member ---- */

  /** Metadata entries are GNU long names, GNU long links, and local and global PAX headers. */
  predicate AllMetadata(metas: seq<Entry>) {
    forall i | 0 <= i < |metas| :: metas[i].kind in {GnuLongName, GnuLongLink, XHeader, XGlobalHeader}
  }

  predicate IsMember(e: Entry) {
    e.kind !in {GnuLongName, GnuLongLink, XHeader, XGlobalHeader}
  }

  lemma {:induction false} RunIsOneGroup(before: seq<Entry>, metas: seq<Entry>, member: Entry)
    requires AllMetadata(metas) && IsMember(member)
    ensures Groups(metas + [member], before) == [Group(before + metas, member)]
    ensures Trailing(metas + [member], before) == []
    ensures var charges := Charges(metas + [member], before);
            && (forall i | 0 <= i < |metas| :: charges[i] == metas[i].size)
            && charges[|metas|] == MemberCharge(Group(before + metas, member))
    decreases |metas|
  {
    hide Groups, Trailing, Charges, MemberCharge;
    var entries := metas + [member];
    FirstEntry(entries, before);
    if metas == [] {
      assert entries == [member] && entries[1..] == [] && before + metas == before;
      NothingGrouped([]);
    } else {
      var more := metas[1..];
      assert entries[1..] == more + [member];
      assert forall i | 0 <= i < |more| :: more[i] == metas[i + 1];
      RunIsOneGroup(before + [metas[0]], more, member);
      assert (before + [metas[0]]) + more == before + metas;
    }
  }

  lemma {:induction false} NothingGrouped(metas: seq<Entry>)
    ensures Groups([], metas) == [] && Trailing([], metas) == metas && Charges([], metas) == []
  {
  }

  lemma {:induction false} AtMostOne(metas: seq<Entry>, kind: EntryType)
    ensures |OfKind(metas, kind)| <= 1 <==> forall i, j | 0 <= i < j < |metas| :: !(metas[i].kind == kind && metas[j].kind == kind)
    ensures OfKind(metas, kind) == [] <==> forall i | 0 <= i < |metas| :: metas[i].kind != kind
  {
    if metas != [] {
      var front, last := metas[..|metas| - 1], metas[|metas| - 1];
      AtMostOne(front, kind);
      assert forall i | 0 <= i < |front| :: front[i] == metas[i];
    }
  }

  /**
    A run of metadata is in order exactly if every payload is complete, no two long names
    and no two local PAX headers are in it, and the records of the PAX header parse.
  */
  lemma {:induction false} MetasOkExactly(metas: seq<Entry>)
    ensures MetasOk(metas) <==>
            && (forall i | 0 <= i < |metas| :: metas[i].payload.Some? && |metas[i].payload.value| == metas[i].size)
            && (forall i, j | 0 <= i < j < |metas| ::
                  && !(metas[i].kind == GnuLongName && metas[j].kind == GnuLongName)
                  && !(metas[i].kind == XHeader && metas[j].kind == XHeader))
            && (forall i | 0 <= i < |metas| && metas[i].kind == XHeader && metas[i].payload.Some? ::
                  ApplyRecords(metas[i].payload.value, NOTHING_PENDING).ok)
  {
    hide ApplyRecords;
    AtMostOne(metas, GnuLongName);
    AtMostOne(metas, XHeader);
    if |OfKind(metas, XHeader)| == 1 {
      var i :| 0 <= i < |metas| && metas[i].kind == XHeader;
      OnlyOfKind(metas, XHeader, i);
    }
  }

  function SizeIn(header: Entry): Option<nat> {
    ApplyRecords(Or(header.payload, []), NOTHING_PENDING).pending.paxSize
  }

  /** The size a PAX header sets is what its member counts for and is read with, wherever the header stands. */
  lemma {:induction false} PaxSizeBeatsHeader(metas: seq<Entry>, member: Entry, pax: nat)
    requires MetasOk(metas) && IsAt(metas, XHeader, pax)
    ensures MemberCharge(Group(metas, member)) ==
            if pax < |metas| && SizeIn(metas[pax]).Some? then SizeIn(metas[pax]).value else member.size
  {
    hide ApplyRecords;
    if pax < |metas| {
      OnlyOfKind(metas, XHeader, pax);
      assert Complete(metas[pax]);
    } else {
      NoneOfKind(metas, XHeader);
    }
  }

  /**
    Main result, for one run: metadata and a member unpack exactly if the metadata is in
    order, the charges fit, and the member is no sparse file and, if regular, as long as it
    counts for. A regular member becomes a file, with mode 0644 and time zero where the
    header has none; any other is dropped.
  */
  lemma {:induction false} OneRunExactly(metas: seq<Entry>, member: Entry, limits: ArchiveLimits, files: seq<TgzFile>)
    requires AllMetadata(metas) && IsMember(member)
    ensures var entries, g := metas + [member], Group(metas, member);
            Unpack(AsItems(entries), limits) == Ok(files) <==>
            && MetasOk(metas) && Fits(entries, limits) && member.kind != GnuSparse
            && if member.kind == Regular then
                 && member.payload.Some? && |member.payload.value| == MemberCharge(g)
                 && files == [TgzFile(MemberName(g), member.payload.value,
                                      match member.mode { case Some(mode) => mode case None => 420 },
                                      match member.mtime { case Some(time) => time case None => 0 })]
               else files == []
  {
    hide Unpack, MetasOk, MemberCharge, MemberName, Fits, Groups, Trailing;
    var entries, g := metas + [member], Group(metas, member);
    UnpackRefines(AsItems(entries), limits, files);
    assert EntriesOf(AsItems(entries)) == entries;
    RunIsOneGroup([], metas, member);
    assert [] + metas == metas;
    OneGroup(g);
    NoMetasAreOk();
  }

  lemma {:induction false} NoMetasAreOk()
    ensures MetasOk([]) && OfKind([], GnuLongName) == [] && OfKind([], XHeader) == []
  {
  }

  lemma {:induction false} OneGroup(g: Group)
    ensures AllGroupsOk([g]) <==> GroupOk(g)
    ensures FilesOf([g]) == if g.member.kind == Regular then [FileOf(g)] else []
  {
    hide GroupOk, FileOf;
    assert [g][0] == g && [g][1..] == [];
  }

  /* ---- Which error ---- */

  /** However far the archive can be read, what has been read fits. */
  ghost predicate AlwaysFits(items: seq<Item>, metas: seq<Entry>, count: nat, spent: nat, limits: ArchiveLimits) {
    forall n | 0 <= n <= |items| && AllGood(items[..n]) ::
      FitsFrom(Charges(EntriesOf(items[..n]), metas), count, spent, limits)
  }

  lemma {:induction false} FirstCharge(items: seq<Item>, metas: seq<Entry>, n: nat)
    requires 0 < n <= |items| && AllGood(items[..n])
    ensures AllGood(items[1..][..n - 1]) && items[0].Good?
    ensures var e := items[0].entry;
            Charges(EntriesOf(items[..n]), metas) ==
            [ChargeOf(e, metas)] + Charges(EntriesOf(items[1..][..n - 1]), Carried(e, metas))
  {
    hide Charges, ChargeOf, Carried;
    var entries := EntriesOf(items[..n]);
    var whole, later := items[..n], items[1..][..n - 1];
    assert whole[0] == items[0];
    assert forall i | 0 <= i < n - 1 :: later[i] == whole[i + 1];
    assert entries[1..] == EntriesOf(items[1..][..n - 1]);
    FirstEntry(entries, metas);
  }

  lemma {:induction false} RestFits(items: seq<Item>, st: Progress, metas: seq<Entry>, limits: ArchiveLimits)
    requires items != [] && items[0].Good? && Summarizes(st.pending, metas)
    requires AlwaysFits(items, metas, st.entryCount, st.expandedBytes, limits)
    ensures var e := items[0].entry;
            && Budget(st, e, limits).Ok?
            && AlwaysFits(items[1..], Carried(e, metas), st.entryCount + 1, st.expandedBytes + Charged(st.pending, e), limits)
  {
    hide Summarizes, Charges, Carried, Budget, FitsFrom, Charged, MemberCharge;
    var e, rest := items[0].entry, items[1..];
    var carried, charge := Carried(e, metas), Charged(st.pending, e);
    assert AllGood(items[..1]) by { assert items[..1] == [items[0]]; }
    FirstCharge(items, metas, 1);
    BudgetMeaning(st, metas, e, Charges(EntriesOf(rest[..0]), carried), limits);
    forall n | 0 <= n <= |rest| && AllGood(rest[..n])
      ensures FitsFrom(Charges(EntriesOf(rest[..n]), carried), st.entryCount + 1, st.expandedBytes + charge, limits)
    {
      assert AllGood(items[..n + 1]) by {
        var whole, later := items[..n + 1], rest[..n];
        assert forall i | 0 < i < n + 1 :: whole[i] == later[i - 1];
      }
      FirstCharge(items, metas, n + 1);
      BudgetMeaning(st, metas, e, Charges(EntriesOf(rest[..n]), carried), limits);
    }
  }

  lemma {:induction false} FittingIsNeverTooLarge(items: seq<Item>, st: Progress, metas: seq<Entry>, limits: ArchiveLimits)
    requires Summarizes(st.pending, metas) && AlwaysFits(items, metas, st.entryCount, st.expandedBytes, limits)
    ensures UnpackFrom(items, st, limits) != Err(ChartTooLarge)
    decreases |items|
  {
    if items != [] && items[0].Good? {
      RestFits(items, st, metas, limits);
      hide AlwaysFits, Summarizes;
      var e := items[0].entry;
      if Step(st, items[0], limits).Ok? {
        StepSummarizes(st, metas, e, limits);
        FittingIsNeverTooLarge(items[1..], Step(st, items[0], limits).value, Carried(e, metas), limits);
      }
    }
  }

  lemma {:induction false} StepSummarizes(st: Progress, metas: seq<Entry>, e: Entry, limits: ArchiveLimits)
    requires Summarizes(st.pending, metas) && Step(st, Good(e), limits).Ok?
    ensures var next := Step(st, Good(e), limits).value;
            && Summarizes(next.pending, Carried(e, metas))
            && next.entryCount == st.entryCount + 1 && next.expandedBytes == st.expandedBytes + Charged(st.pending, e)
  {
    hide Summarizes, AddMetadata, AddMember;
    NothingSummarizes();
    if IsMetadata(e.kind) {
      MetadataStep(st.pending, metas, e);
    }
  }

  /**
    An archive of which everything that can be read fits, and that does not unpack, is an
    invalid chart, never a too large one.
  */
  lemma {:induction false} MalformedIsInvalid(items: seq<Item>, limits: ArchiveLimits)
    requires AlwaysFits(items, [], 0, 0, limits) && Unpack(items, limits).Err?
    ensures Unpack(items, limits) == Err(InvalidChart)
  {
    NothingSummarizes();
    FittingIsNeverTooLarge(items, START, [], limits);
    match Unpack(items, limits).error
    case InvalidChart =>
    case ChartTooLarge =>
  }

  lemma {:induction false} FirstTooMuch(items: seq<Item>, st: Progress, metas: seq<Entry>, limits: ArchiveLimits, n: nat)
    requires Summarizes(st.pending, metas) && Within(st, limits)
    requires n < |items| && AllGood(items[..n + 1]) && InOrder(EntriesOf(items[..n]), metas)
    requires FitsFrom(Charges(EntriesOf(items[..n]), metas), st.entryCount, st.expandedBytes, limits)
    requires var charges := Charges(EntriesOf(items[..n + 1]), metas);
             && !FitsFrom(charges, st.entryCount, st.expandedBytes, limits)
             && st.entryCount + |charges| <= USIZE_MAX && st.expandedBytes + Sum(charges) <= U64_MAX
    ensures UnpackFrom(items, st, limits) == Err(ChartTooLarge)
    decreases n
  {
    hide Summarizes, InOrder, Charges, FitsFrom, Carried, MemberCharge, ChargeOf, AddMetadata, AddMember;
    var e := items[0].entry;
    FirstCharge(items, metas, n + 1);
    var later := Charges(EntriesOf(items[1..][..n]), Carried(e, metas));
    BudgetMeaning(st, metas, e, later, limits);
    ChargeIsCharged(st.pending, metas, e);
    SumOfMore(ChargeOf(e, metas), later);
    if n == 0 {
      NothingGrouped(Carried(e, metas));
      assert EntriesOf(items[1..][..n]) == [];
      assert [ChargeOf(e, metas)] + [] == [ChargeOf(e, metas)];
      TooMuchAtOnce(st, metas, e, limits);
    } else {
      assert items[..n + 1][..n] == items[..n];
      assert AllGood(items[..n]);
      FirstCharge(items, metas, n);
      BudgetMeaning(st, metas, e, Charges(EntriesOf(items[1..][..n - 1]), Carried(e, metas)), limits);
      StepInOrder(st, metas, items, n, limits);
      StepSummarizes(st, metas, e, limits);
      BudgetKeepsWithin(st, e, limits);
      StepIsWithin(st, e, limits);
      FirstTooMuch(items[1..], Step(st, items[0], limits).value, Carried(e, metas), limits, n - 1);
    }
  }

  lemma {:induction false} StepIsWithin(st: Progress, e: Entry, limits: ArchiveLimits)
    requires Step(st, Good(e), limits).Ok?
    ensures Within(Step(st, Good(e), limits).value, limits)
  {
    hide AddMetadata, AddMember;
  }

  lemma {:induction false} ChargeIsCharged(p: Pending, metas: seq<Entry>, e: Entry)
    requires Summarizes(p, metas)
    ensures Charged(p, e) == ChargeOf(e, metas)
  {
    hide ApplyRecords, OfKind, AllComplete;
  }

  lemma {:induction false} SumOfMore(charge: nat, charges: seq<nat>)
    ensures Sum([charge] + charges) == charge + Sum(charges)
  {
    assert ([charge] + charges)[1..] == charges;
  }

  lemma {:induction false} TooMuchAtOnce(st: Progress, metas: seq<Entry>, e: Entry, limits: ArchiveLimits)
    requires Summarizes(st.pending, metas)
    requires !FitsFrom([Charged(st.pending, e)], st.entryCount, st.expandedBytes, limits)
    requires st.entryCount + 1 <= USIZE_MAX && st.expandedBytes + Charged(st.pending, e) <= U64_MAX
    ensures Budget(st, e, limits) == Err(ChartTooLarge)
  {
    hide Summarizes, Charged;
    SumOfMore(Charged(st.pending, e), []);
    assert [Charged(st.pending, e)] + [] == [Charged(st.pending, e)];
    assert Sum([]) == 0;
  }

  /** A step within the budget succeeds while things are in order, and leaves the rest in order. */
  lemma {:induction false} StepInOrder(st: Progress, metas: seq<Entry>, items: seq<Item>, n: nat, limits: ArchiveLimits)
    requires Summarizes(st.pending, metas) && 0 < n <= |items| && AllGood(items[..n]) && InOrder(EntriesOf(items[..n]), metas)
    requires Budget(st, items[0].entry, limits).Ok?
    ensures Step(st, items[0], limits).Ok?
    ensures AllGood(items[1..][..n - 1]) && InOrder(EntriesOf(items[1..][..n - 1]), Carried(items[0].entry, metas))
  {
    hide Summarizes, Budget, AddMetadata, AddMember, Groups, Trailing, MetasOk, AllGroupsOk;
    var e, entries := items[0].entry, EntriesOf(items[..n]);
    FirstCharge(items, metas, n);
    var rest := EntriesOf(items[1..][..n - 1]);
    var whole, later := items[..n], items[1..][..n - 1];
    assert whole[0] == items[0];
    assert forall i | 0 <= i < n - 1 :: later[i] == whole[i + 1];
    assert entries[0] == e && entries[1..] == rest;
    if IsMetadata(e.kind) {
      FirstEntry(entries, metas);
      assert [] + Groups(rest, metas + [e]) == Groups(rest, metas + [e]);
      if !MetasOk(metas + [e]) {
        BadMetasStayBad(rest, metas + [e]);
      }
      MetadataStep(st.pending, metas, e);
    } else {
      MemberFirst(entries, metas);
      var g := Group(metas, e);
      GroupsOfSparse(g);
      AddMemberMeaning(st.files, st.pending, metas, e);
    }
  }

  lemma {:induction false} GroupsOfSparse(g: Group)
    ensures GroupOk(g) ==> g.member.kind != GnuSparse
  {
  }

  /**
    The first entry that does not fit, after entries that are in order and do, makes the
    archive too large, whatever comes after it.
  */
  lemma {:induction false} FirstTooMuchIsTooLarge(items: seq<Item>, limits: ArchiveLimits, n: nat)
    requires n < |items| && AllGood(items[..n + 1]) && InOrder(EntriesOf(items[..n]), [])
    requires Fits(EntriesOf(items[..n]), limits) && !Fits(EntriesOf(items[..n + 1]), limits)
    requires n + 1 <= USIZE_MAX && Sum(Charges(EntriesOf(items[..n + 1]), [])) <= U64_MAX
    ensures Unpack(items, limits) == Err(ChartTooLarge)
  {
    NothingSummarizes();
    FirstTooMuch(items, START, [], limits, n);
  }

  /* ---- Packing ---- */

  /**
    How the tar writer stores a name: in the header, possibly as another spelling of the
    path; byte for byte in a long-name entry; or not at all.
  */
  datatype Placement = InHeader(stored: Bytes) | BehindLongName(shortened: Bytes) | Refused

  type Writer = Bytes -> Placement

  function LongNameEntry(name: Bytes): Entry {
    Entry(GnuLongName, |name| + 1, [], Some(DEFAULT_MODE), Some(0), Some(name + [0]))
  }

  function MemberEntry(f: TgzFile, path: Bytes): Entry {
    Entry(Regular, |f.data|, path, Some(f.mode), Some(f.mtime), Some(f.data))
  }

  function PackFile(f: TgzFile, writer: Writer): seq<Entry> {
    match writer(f.name)
    case InHeader(stored) => [MemberEntry(f, stored)]
    case BehindLongName(shortened) => [LongNameEntry(f.name), MemberEntry(f, shortened)]
    case Refused => []
  }

  function Packed(files: seq<TgzFile>, writer: Writer): seq<Entry> {
    if files == [] then [] else PackFile(files[0], writer) + Packed(files[1..], writer)
  }

  predicate Accepts(writer: Writer, files: seq<TgzFile>) {
    forall i | 0 <= i < |files| :: !writer(files[i].name).Refused?
  }

  method PackTgz(files: seq<TgzFile>, writer: Writer) returns (r: Result<seq<Entry>, ChartError>)
    ensures r == if Accepts(writer, files) then Ok(Packed(files, writer)) else Err(InvalidChart)
  {
    var entries: seq<Entry> := [];
    assert files[0..] == files;
    for i := 0 to |files|
      invariant forall j | 0 <= j < i :: !writer(files[j].name).Refused?
      invariant Packed(files, writer) == entries + Packed(files[i..], writer)
    {
      assert files[i..][1..] == files[i + 1..];
      if writer(files[i].name).Refused? {
        return Err(InvalidChart);
      }
      ghost var rest := Packed(files[i + 1..], writer);
      assert (entries + PackFile(files[i], writer)) + rest == entries + (PackFile(files[i], writer) + rest);
      entries := entries + PackFile(files[i], writer);
    }
    assert files[|files|..] == [] && entries + [] == entries;
    return Ok(entries);
  }

  /** Bytes charged for a packed file: its data, and its name plus a NUL when that is an entry. */
  function PackedCharges(files: seq<TgzFile>, writer: Writer): seq<nat>
    requires Accepts(writer, files)
  {
    if files == [] then []
    else
      (if writer(files[0].name).InHeader? then [|files[0].data|] else [|files[0].name| + 1, |files[0].data|])
      + PackedCharges(files[1..], writer)
  }

  /** What a packed file unpacks as: the stored name, or the name without trailing NULs. */
  function Restored(f: TgzFile, writer: Writer): TgzFile {
    match writer(f.name)
    case InHeader(stored) => f.(name := stored)
    case _ => f.(name := TrimNuls(f.name))
  }

  /** The tar writer hands this name on as it is. */
  predicate Keeps(writer: Writer, name: Bytes) {
    match writer(name)
    case InHeader(stored) => stored == name
    case _ => !EndsInNul(name)
  }

  lemma {:induction false} PackedFileReads(f: TgzFile, writer: Writer)
    requires !writer(f.name).Refused?
    ensures var entries := PackFile(f, writer);
            && AllGroupsOk(Groups(entries, [])) && Trailing(entries, []) == []
            && FilesOf(Groups(entries, [])) == [Restored(f, writer)]
            && Charges(entries, []) == PackedCharges([f], writer)
  {
    var entries := PackFile(f, writer);
    match writer(f.name) {
      case InHeader(_) =>
        assert entries[1..] == [];
        assert Groups(entries, []) == [Group([], entries[0])];
        assert FilesOf(Groups(entries, [])) == [FileOf(Group([], entries[0]))];
      case BehindLongName(_) =>
        var l, m := entries[0], entries[1];
        assert entries[1..] == [m] && [m][1..] == [] && [] + [l] == [l];
        OfKindLast([], l, GnuLongName);
        OfKindLast([], l, XHeader);
        var g := Group([l], m);
        assert Groups([m], [l]) == [g];
        assert Groups(entries, []) == [g];
        assert Trailing([m], [l]) == [];
        assert TrimNuls(f.name + [0]) == TrimNuls(f.name) by {
          assert (f.name + [0])[..|f.name|] == f.name;
        }
        assert FilesOf([g]) == [FileOf(g)];
        assert Charges([m], [l]) == [|f.data|];
    }
  }

  function RestoredAll(files: seq<TgzFile>, writer: Writer): (r: seq<TgzFile>)
    ensures |r| == |files|
    ensures forall i | 0 <= i < |files| :: r[i] == Restored(files[i], writer)
  {
    seq(|files|, i requires 0 <= i < |files| => Restored(files[i], writer))
  }

  lemma {:induction false} FilesOfConcat(a: seq<Group>, b: seq<Group>)
    ensures FilesOf(a + b) == FilesOf(a) + FilesOf(b)
  {
    if a == [] {
      assert a + b == b;
    } else {
      var first := if a[0].member.kind == Regular then [FileOf(a[0])] else [];
      assert (a + b)[1..] == a[1..] + b && (a + b)[0] == a[0];
      FilesOfConcat(a[1..], b);
      assert FilesOf(a + b) == first + (FilesOf(a[1..]) + FilesOf(b));
    }
  }

  /** What packing one more file in front adds. */
  lemma {:induction false} PackedFirst(files: seq<TgzFile>, writer: Writer)
    requires Accepts(writer, files) && files != []
    ensures Packed(files, writer) == PackFile(files[0], writer) + Packed(files[1..], writer)
    ensures Accepts(writer, files[1..]) && Accepts(writer, [files[0]])
    ensures PackedCharges(files, writer) == PackedCharges([files[0]], writer) + PackedCharges(files[1..], writer)
    ensures RestoredAll(files, writer) == [Restored(files[0], writer)] + RestoredAll(files[1..], writer)
  {
    hide PackFile, Restored;
    assert [files[0]][1..] == [];
  }

  lemma {:induction false} AllGroupsOkConcat(a: seq<Group>, b: seq<Group>)
    requires AllGroupsOk(a) && AllGroupsOk(b)
    ensures AllGroupsOk(a + b)
  {
    hide GroupOk;
  }

  lemma {:induction false} PackedReads(files: seq<TgzFile>, writer: Writer)
    requires Accepts(writer, files)
    ensures var entries := Packed(files, writer);
            && AllGroupsOk(Groups(entries, [])) && Trailing(entries, []) == []
            && FilesOf(Groups(entries, [])) == RestoredAll(files, writer)
            && Charges(entries, []) == PackedCharges(files, writer)
  {
    if files != [] {
      hide Accepts, Packed, PackedCharges, RestoredAll, Groups, Trailing, Charges, FilesOf, AllGroupsOk, PackFile, Restored;
      var f, more := files[0], files[1..];
      PackedFirst(files, writer);
      AcceptsOne(f, writer);
      PackedFileReads(f, writer);
      PackedReads(more, writer);
      var a, b := PackFile(f, writer), Packed(more, writer);
      GroupsConcat(a, b, []);
      FilesOfConcat(Groups(a, []), Groups(b, []));
      AllGroupsOkConcat(Groups(a, []), Groups(b, []));
    }
  }

  lemma {:induction false} AcceptsOne(f: TgzFile, writer: Writer)
    requires Accepts(writer, [f])
    ensures !writer(f.name).Refused?
  {
    assert [f][0] == f;
  }

  function AsItems(entries: seq<Entry>): (items: seq<Item>)
    ensures |items| == |entries|
    ensures forall i | 0 <= i < |entries| :: items[i] == Good(entries[i])
  {
    seq(|entries|, i requires 0 <= i < |entries| => Good(entries[i]))
  }

  /**
    Packed files unpack if and only if the limits cover the data plus the long-name
    payloads, and then to the files under the names the tar writer stored.
  */
  lemma {:induction false} PackedUnpacks(files: seq<TgzFile>, writer: Writer, limits: ArchiveLimits)
    requires Accepts(writer, files)
    ensures var again := Unpack(AsItems(Packed(files, writer)), limits);
            && (again.Ok? <==> FitsFrom(PackedCharges(files, writer), 0, 0, limits))
            && (again.Ok? ==> again == Ok(RestoredAll(files, writer)))
  {
    hide Unpack, Packed, PackedCharges, FitsFrom, FilesOf, Groups, Charges;
    var entries := Packed(files, writer);
    var again := Unpack(AsItems(entries), limits);
    PackedReads(files, writer);
    assert EntriesOf(AsItems(entries)) == entries;
    UnpackRefines(AsItems(entries), limits, RestoredAll(files, writer));
    if again.Ok? {
      UnpackRefines(AsItems(entries), limits, again.value);
    }
  }

  /**
    Main result: unpacking what was packed gives back the files, in order and with their
    names, modes and times, exactly when the limits cover the data plus the long-name
    payloads and the tar writer hands every name on as it is.
  */
  lemma {:induction false} PackRoundTrip(files: seq<TgzFile>, writer: Writer, limits: ArchiveLimits)
    requires Accepts(writer, files)
    ensures Unpack(AsItems(Packed(files, writer)), limits) == Ok(files) <==>
            && FitsFrom(PackedCharges(files, writer), 0, 0, limits)
            && forall i | 0 <= i < |files| :: Keeps(writer, files[i].name)
  {
    hide Unpack, Packed, PackedCharges, FitsFrom, Keeps;
    PackedUnpacks(files, writer, limits);
    RestoredIsSame(files, writer);
  }

  lemma {:induction false} RestoredIsSame(files: seq<TgzFile>, writer: Writer)
    ensures RestoredAll(files, writer) == files <==>
            forall i | 0 <= i < |files| :: Keeps(writer, files[i].name)
  {
    var restored := RestoredAll(files, writer);
    forall i | 0 <= i < |files|
      ensures restored[i] == files[i] <==> Keeps(writer, files[i].name)
    {
      TrimNulsFixed(files[i].name);
    }
  }

  predicate EndsInNul(name: Bytes) {
    name != [] && name[|name| - 1] == 0
  }

  lemma {:induction false} TrimNulsFixed(name: Bytes)
    ensures TrimNuls(name) == name <==> !EndsInNul(name)
    ensures |TrimNuls(name)| <= |name|
  {
    if EndsInNul(name) {
      TrimNulsFixed(name[..|name| - 1]);
    }
  }
}
