/**
  PAX extended header records: `<length> <key>=<value>` and a newline, where the length
  counts the whole record including its own digits.
*/
module PaxRecords {
  import opened Wrappers
  import opened Bytes

  const SPACE: Byte := 32
  const NEWLINE: Byte := 10
  const EQUALS: Byte := 61
  const PATH: Bytes := [112, 97, 116, 104]
  const SIZE: Bytes := [115, 105, 122, 101]
  /** `GNU.sparse.` */
  const SPARSE_PREFIX: Bytes := [71, 78, 85, 46, 115, 112, 97, 114, 115, 101, 46]

  datatype Record = Record(key: Bytes, value: Bytes)

  /** Metadata collected for the next member; the value of a `PendingMetadata` object. */
  datatype Pending = Pending(longName: Option<Bytes>, paxSeen: bool, paxPath: Option<Bytes>, paxSize: Option<nat>)

  const NOTHING_PENDING := Pending(None, false, None, None)

  /* ---- Parsing ---- */

  /** The record at the front of a non-empty area, with its length. */
  function NextRecord(rest: Bytes): (r: Option<(Record, nat)>)
    ensures r.Some? ==> 0 < r.value.1 <= |rest|
  {
    var space := FindByte(rest, SPACE);
    if space == |rest| then None
    else
      match ParseUnsigned(rest[..space], USIZE_MAX)
      case None => None
      case Some(length) =>
        if !(space + 1 < length <= |rest|) || rest[length - 1] != NEWLINE then None
        else
          var record := rest[space + 1..length - 1];
          var equals := FindByte(record, EQUALS);
          if equals == |record| then None
          else Some((Record(record[..equals], record[equals + 1..]), length))
  }

  predicate GoodRecord(r: Record) {
    !(SPARSE_PREFIX <= r.key) && (r.key == SIZE ==> ParseUnsigned(r.value, U64_MAX).Some?)
  }

  function ApplyRecord(p: Pending, r: Record): Pending
    requires GoodRecord(r)
  {
    if r.key == PATH && r.value != [] then p.(paxPath := Some(r.value))
    else if r.key == SIZE then p.(paxSize := Some(ParseUnsigned(r.value, U64_MAX).value))
    else p
  }

  /** Outcome of a record area: what is pending when parsing stops, and whether it failed. */
  datatype Applied = Applied(pending: Pending, ok: bool)

  function ApplyRecords(rest: Bytes, p: Pending): Applied
    decreases |rest|
  {
    if AllZero(rest) then Applied(p, true)
    else
      match NextRecord(rest)
      case None => Applied(p, false)
      case Some((r, length)) =>
        if !GoodRecord(r) then Applied(p, false)
        else ApplyRecords(rest[length..], ApplyRecord(p, r))
  }

  class PendingMetadata {
    var longName: Option<Bytes>
    var paxSeen: bool
    var paxPath: Option<Bytes>
    var paxSize: Option<nat>

    function Value(): Pending
      reads this
    {
      Pending(longName, paxSeen, paxPath, paxSize)
    }

    constructor ()
      ensures Value() == NOTHING_PENDING
    {
      longName, paxSeen, paxPath, paxSize := None, false, None, None;
    }

    /** Hands the metadata to the member it describes and starts afresh. */
    method Take() returns (taken: Pending)
      modifies this
      ensures taken == old(Value()) && Value() == NOTHING_PENDING
    {
      taken := Value();
      longName, paxSeen, paxPath, paxSize := None, false, None, None;
    }

    method ApplyPaxRecords(payload: Bytes) returns (ok: bool)
      modifies this`paxPath, this`paxSize
      ensures Applied(Value(), ok) == ApplyRecords(payload, old(Value()))
    {
      hide FindByte, ParseUnsigned;
      var rest := payload;
      while rest != []
        invariant ApplyRecords(payload, old(Value())) == ApplyRecords(rest, Value())
        decreases |rest|
      {
        if AllZero(rest) {
          return true;
        }
        var space := FindByte(rest, SPACE);
        if space == |rest| {
          return false;
        }
        var parsed := ParseUnsigned(rest[..space], USIZE_MAX);
        if parsed.None? || !(space + 1 < parsed.value <= |rest|) {
          return false;
        }
        var length := parsed.value;
        if rest[length - 1] != NEWLINE {
          return false;
        }
        var record := rest[space + 1..length - 1];
        var equals := FindByte(record, EQUALS);
        if equals == |record| {
          return false;
        }
        var key, value := record[..equals], record[equals + 1..];
        assert NextRecord(rest) == Some((Record(key, value), length));
        if SPARSE_PREFIX <= key {
          return false;
        }
        if key == PATH && value != [] {
          paxPath := Some(value);
        } else if key == SIZE {
          var size := ParseUnsigned(value, U64_MAX);
          if size.None? {
            return false;
          }
          paxSize := size;
        }
        rest := rest[length..];
      }
      return true;
    }
  }

  /* ---- Printing ---- */

  /** `digits` iterates upwards and can never pass `n + 2`. */
  lemma {:induction false} NextWidthBounded(n: nat, digits: nat)
    requires digits <= n + 2
    ensures Width(digits + 1 + n) <= n + 2
  {
    WidthBound(digits + 1 + n);
  }

  /** The printer's search for a length that counts its own digits. */
  function SearchLength(n: nat, digits: nat): nat
    requires digits <= n + 2 && digits <= Width(digits + 1 + n)
    decreases n + 2 - digits
  {
    var length := digits + 1 + n;
    var next := Width(length);
    if next == digits then length
    else
      NextWidthBounded(n, digits);
      WidthMonotone(length, next + 1 + n);
      SearchLength(n, next)
  }

  /** Length of the printed record whose body has `n` bytes. */
  function RecordLength(n: nat): nat {
    SearchLength(n, 1)
  }

  function Body(r: Record): Bytes {
    r.key + [EQUALS] + r.value + [NEWLINE]
  }

  function PrintRecord(r: Record): Bytes {
    Decimal(RecordLength(|Body(r)|)) + [SPACE] + Body(r)
  }

  method PaxRecord(key: Bytes, value: Bytes) returns (printed: Bytes)
    ensures printed == PrintRecord(Record(key, value))
  {
    var body := key + [EQUALS] + value + [NEWLINE];
    var digits := 1;
    while true
      invariant digits <= |body| + 2 && digits <= Width(digits + 1 + |body|)
      invariant SearchLength(|body|, digits) == RecordLength(|body|)
      decreases |body| + 2 - digits
    {
      var length := digits + 1 + |body|;
      var nextDigits := |Decimal(length)|;
      if digits == nextDigits {
        return Decimal(length) + [SPACE] + body;
      }
      NextWidthBounded(|body|, digits);
      WidthMonotone(length, nextDigits + 1 + |body|);
      digits := nextDigits;
    }
  }

  lemma {:induction false} SearchIsLeast(n: nat, digits: nat, bound: nat)
    requires digits <= n + 2 && digits <= Width(digits + 1 + n)
    requires Width(bound) + 1 + n <= bound && digits <= Width(bound)
    ensures var length := SearchLength(n, digits); length == Width(length) + 1 + n && length <= bound
    decreases n + 2 - digits
  {
    var length := digits + 1 + n;
    var next := Width(length);
    WidthMonotone(length, bound);
    if next != digits {
      NextWidthBounded(n, digits);
      WidthMonotone(length, next + 1 + n);
      SearchIsLeast(n, next, bound);
    }
  }

  /**
    The search terminates at a length that counts itself exactly, and at the least one:
    no length with room for its own digits, a separator and the body is smaller.
  */
  lemma {:induction false} RecordLengthIsLeast(n: nat)
    ensures RecordLength(n) == Width(RecordLength(n)) + 1 + n
    ensures forall bound: nat :: Width(bound) + 1 + n <= bound ==> RecordLength(n) <= bound
  {
    var top := 2 * n + 3;
    WidthBound(top);
    SearchIsLeast(n, 1, top);
    forall bound: nat | Width(bound) + 1 + n <= bound
      ensures RecordLength(n) <= bound
    {
      SearchIsLeast(n, 1, bound);
    }
  }

  /** Least matters: a seven-byte body has two lengths that count themselves. */
  lemma {:induction false} LengthIsNotUnique()
    ensures 9 == Width(9) + 1 + 7 && 10 == Width(10) + 1 + 7 && RecordLength(7) == 9
  {
    RecordLengthIsLeast(7);
    assert RecordLength(7) <= 9;
  }

  lemma {:induction false} PrintedLength(r: Record)
    ensures |PrintRecord(r)| == RecordLength(|Body(r)|)
  {
    RecordLengthIsLeast(|Body(r)|);
  }

  /* ---- Round trip ---- */

  lemma {:induction false} NumeralReads(length: nat, rest: Bytes)
    requires length <= USIZE_MAX && Decimal(length) + [SPACE] <= rest
    ensures var space := FindByte(rest, SPACE);
            space == Width(length) < |rest| && ParseUnsigned(rest[..space], USIZE_MAX) == Some(length)
  {
    hide ParseUnsigned, FindByte, Decimal, AllDigits, DigitsValue;
    var digits := Decimal(length);
    DecimalRoundTrip(length);
    ParseDecimal(length, USIZE_MAX);
    assert forall i | 0 <= i <= |digits| :: rest[i] == (digits + [SPACE])[i];
    FindByteIs(rest, SPACE, |digits|);
    assert rest[..|digits|] == digits;
  }

  lemma {:induction false} KeyReads(key: Bytes, value: Bytes)
    requires EQUALS !in key
    ensures var record := key + [EQUALS] + value;
            var equals := FindByte(record, EQUALS);
            equals == |key| && record[..equals] == key && record[equals + 1..] == value
  {
    FindByteIs(key + [EQUALS] + value, EQUALS, |key|);
  }

  /** A record at the front of any area is read back exactly, whatever follows it. */
  lemma {:induction false} PrintedRecordReads(r: Record, tail: Bytes)
    requires EQUALS !in r.key && |PrintRecord(r)| <= USIZE_MAX
    ensures NextRecord(PrintRecord(r) + tail) == Some((r, |PrintRecord(r)|))
    ensures !AllZero(PrintRecord(r) + tail)
  {
    hide FindByte, ParseUnsigned, Decimal, RecordLength, Body;
    var length := RecordLength(|Body(r)|);
    var rest := PrintRecord(r) + tail;
    PrintedLength(r);
    assert Decimal(length) + [SPACE] <= rest;
    NumeralReads(length, rest);
    assert rest[Width(length)] == SPACE;
    BodySlice(Decimal(length) + [SPACE], r, tail);
    KeyReads(r.key, r.value);
  }

  lemma {:induction false} BodySlice(front: Bytes, r: Record, tail: Bytes)
    ensures var rest := front + Body(r) + tail;
            var end := |front| + |Body(r)|;
            rest[|front|..end - 1] == r.key + [EQUALS] + r.value && rest[end - 1] == NEWLINE
  {
    assert Body(r)[..|Body(r)| - 1] == r.key + [EQUALS] + r.value;
  }

  function PrintAll(records: seq<Record>): Bytes {
    if records == [] then [] else PrintRecord(records[0]) + PrintAll(records[1..])
  }

  /** What a list of records means, independently of any encoding. */
  predicate AllGood(records: seq<Record>) {
    forall i | 0 <= i < |records| :: GoodRecord(records[i])
  }

  function LastPath(records: seq<Record>, before: Option<Bytes>): Option<Bytes> {
    if records == [] then before
    else
      var r := records[|records| - 1];
      if r.key == PATH && r.value != [] then Some(r.value) else LastPath(records[..|records| - 1], before)
  }

  function LastSize(records: seq<Record>, before: Option<nat>): Option<nat> {
    if records == [] then before
    else
      var r := records[|records| - 1];
      if r.key == SIZE then ParseUnsigned(r.value, U64_MAX) else LastSize(records[..|records| - 1], before)
  }

  predicate Printable(records: seq<Record>) {
    forall i | 0 <= i < |records| :: EQUALS !in records[i].key
  }

  function Fold(records: seq<Record>, p: Pending): Pending
    requires AllGood(records)
  {
    if records == [] then p else Fold(records[1..], ApplyRecord(p, records[0]))
  }

  lemma {:induction false} FoldLast(records: seq<Record>, r: Record, p: Pending)
    requires AllGood(records) && GoodRecord(r)
    ensures AllGood(records + [r]) && Fold(records + [r], p) == ApplyRecord(Fold(records, p), r)
  {
    var all := records + [r];
    if records == [] {
      assert all[1..] == [];
    } else {
      assert all[1..] == records[1..] + [r];
      FoldLast(records[1..], r, ApplyRecord(p, records[0]));
    }
  }

  lemma {:induction false} FoldIsLast(records: seq<Record>, p: Pending)
    requires AllGood(records)
    ensures Fold(records, p) == p.(paxPath := LastPath(records, p.paxPath), paxSize := LastSize(records, p.paxSize))
  {
    if records != [] {
      var front, last := records[..|records| - 1], records[|records| - 1];
      FoldIsLast(front, p);
      FoldLast(front, last, p);
      assert front + [last] == records;
      assert PATH[0] != SIZE[0];
    }
  }

  lemma {:induction false} PrintedRecordsFold(records: seq<Record>, padding: Bytes, p: Pending)
    requires Printable(records) && AllZero(padding)
    requires |PrintAll(records) + padding| <= USIZE_MAX
    ensures ApplyRecords(PrintAll(records) + padding, p).ok <==> AllGood(records)
    ensures AllGood(records) ==> ApplyRecords(PrintAll(records) + padding, p).pending == Fold(records, p)
    decreases |records|
  {
    if records == [] {
      assert PrintAll(records) + padding == padding;
    } else {
      var r, more := records[0], records[1..];
      var tail := PrintAll(more) + padding;
      assert PrintAll(records) + padding == PrintRecord(r) + tail;
      PrintedRecordReads(r, tail);
      assert (PrintRecord(r) + tail)[|PrintRecord(r)|..] == tail;
      assert forall i | 0 <= i < |more| :: more[i] == records[i + 1];
      if GoodRecord(r) {
        PrintedRecordsFold(more, padding, ApplyRecord(p, r));
      }
    }
  }

  /**
    Main result: parsing any printed list of records, optionally padded with zeros,
    succeeds exactly when every record is good, and leaves the last non-empty path and
    the last size. The other pending fields are untouched.
  */
  lemma {:induction false} RecordRoundTrip(records: seq<Record>, padding: Bytes, p: Pending)
    requires Printable(records) && AllZero(padding)
    requires |PrintAll(records) + padding| <= USIZE_MAX
    ensures var applied := ApplyRecords(PrintAll(records) + padding, p);
            var meaning := p.(paxPath := LastPath(records, p.paxPath), paxSize := LastSize(records, p.paxSize));
            && (applied.ok <==> AllGood(records))
            && (applied.ok ==> applied.pending == meaning)
  {
    PrintedRecordsFold(records, padding, p);
    if AllGood(records) {
      FoldIsLast(records, p);
    }
  }

  /** A record read from anywhere prints to no more bytes than it was read from. */
  lemma {:induction false} ReadRecordPrints(rest: Bytes)
    requires NextRecord(rest).Some?
    ensures var (r, length) := NextRecord(rest).value;
            EQUALS !in r.key && |PrintRecord(r)| <= length
  {
    var (r, length) := NextRecord(rest).value;
    var space := FindByte(rest, SPACE);
    var numeral := rest[..space];
    var digits := if |numeral| > 1 && numeral[0] == 43 then numeral[1..] else numeral;
    WidthOfValue(digits);
    PrintedLength(r);
    RecordLengthIsLeast(|Body(r)|);
    assert |Body(r)| == length - space - 1;
  }

  /**
    Converse: whatever area the parser accepts, some list of records prints to no more
    bytes and parses to the same metadata. Signs, leading zeros and padding are all the
    parser tolerates beyond the printed form.
  */
  lemma {:induction false} AcceptedAreaPrints(rest: Bytes, p: Pending) returns (records: seq<Record>)
    requires ApplyRecords(rest, p).ok && |rest| <= USIZE_MAX
    ensures Printable(records) && |PrintAll(records)| <= |rest|
    ensures ApplyRecords(PrintAll(records), p) == ApplyRecords(rest, p)
    decreases |rest|
  {
    if AllZero(rest) {
      records := [];
    } else {
      var (r, length) := NextRecord(rest).value;
      var more := AcceptedAreaPrints(rest[length..], ApplyRecord(p, r));
      records := [r] + more;
      ReadRecordPrints(rest);
      assert records[1..] == more;
      PrintedRecordReads(r, PrintAll(more));
      assert PrintAll(records)[|PrintRecord(r)|..] == PrintAll(more);
    }
  }

  /* ---- What is accepted ---- */

  /** An area begins with a record: a length numeral, a space, a key, an equals sign, a value and a newline. */
  predicate IsRecord(rest: Bytes, numeral: Bytes, key: Bytes, value: Bytes) {
    var text := numeral + ([32] + (key + ([61] + (value + [10]))));
    && text <= rest && 32 !in numeral && 61 !in key
    && ParseUnsigned(numeral, USIZE_MAX) == Some(|text|)
  }

  lemma {:induction false} RecordIsRead(rest: Bytes, numeral: Bytes, key: Bytes, value: Bytes)
    requires IsRecord(rest, numeral, key, value)
    ensures NextRecord(rest) == Some((Record(key, value), |numeral| + |key| + |value| + 3))
  {
    hide ParseUnsigned, FindByte;
    var body := key + ([61] + value);
    var text := numeral + ([32] + (key + ([61] + (value + [10]))));
    assert text == (numeral + [32]) + (body + [10]);
    assert forall i | 0 <= i < |text| :: rest[i] == text[i];
    FindByteIs(rest, 32, |numeral|);
    assert rest[..|numeral|] == numeral;
    assert rest[|numeral| + 1..|text| - 1] == body;
    assert key + [EQUALS] + value == body;
    KeyReads(key, value);
  }

  lemma {:induction false} AreaSplits(rest: Bytes, space: nat, length: nat)
    requires space + 1 < length <= |rest| && rest[space] == 32 && rest[length - 1] == 10
    ensures rest[..length] == rest[..space] + ([32] + (rest[space + 1..length - 1] + [10]))
  {
  }

  lemma {:induction false} BodySplits(body: Bytes, equals: nat)
    requires equals < |body| && body[equals] == 61
    ensures body + [10] == body[..equals] + ([61] + (body[equals + 1..] + [10]))
  {
  }

  lemma {:induction false} FoundByte(s: Bytes, b: Byte)
    ensures var k := FindByte(s, b); b !in s[..k]
  {
  }

  lemma {:induction false} ReadIsRecord(rest: Bytes) returns (numeral: Bytes)
    requires NextRecord(rest).Some?
    ensures var (r, length) := NextRecord(rest).value;
            IsRecord(rest, numeral, r.key, r.value) && length == |numeral| + |r.key| + |r.value| + 3
  {
    hide ParseUnsigned, FindByte;
    var (r, length) := NextRecord(rest).value;
    var space := FindByte(rest, SPACE);
    var body := rest[space + 1..length - 1];
    var equals := FindByte(body, EQUALS);
    numeral := rest[..space];
    FoundByte(rest, SPACE);
    FoundByte(body, EQUALS);
    AreaSplits(rest, space, length);
    BodySplits(body, equals);
  }

  /**
    Main result: the parser takes a record off an area exactly if the area begins with one,
    whose numeral is the length of all of it, newline included.
  */
  lemma {:induction false} RecordExactly(rest: Bytes, r: Record, length: nat)
    ensures NextRecord(rest) == Some((r, length)) <==>
            exists numeral ::
              IsRecord(rest, numeral, r.key, r.value) && length == |numeral| + |r.key| + |r.value| + 3
  {
    hide NextRecord, IsRecord;
    if NextRecord(rest) == Some((r, length)) {
      var numeral := ReadIsRecord(rest);
    }
    if exists numeral :: IsRecord(rest, numeral, r.key, r.value) && length == |numeral| + |r.key| + |r.value| + 3 {
      var numeral :| IsRecord(rest, numeral, r.key, r.value) && length == |numeral| + |r.key| + |r.value| + 3;
      RecordIsRead(rest, numeral, r.key, r.value);
    }
  }

  /** Numerals may have a plus sign and leading zeros. */
  lemma {:induction false} NumeralsExactly(n: nat, zeros: nat, max: nat)
    ensures ParseUnsigned([43] + Decimal(n), max) == ParseUnsigned(Decimal(n), max) == (if n <= max then Some(n) else None)
    ensures ParseUnsigned(Zeros(zeros) + Decimal(n), max) == if n <= max then Some(n) else None
    ensures ParseUnsigned([], max) == None && ParseUnsigned([43], max) == None && ParseUnsigned([45] + Decimal(n), max) == None
  {
    hide Decimal, DigitsValue;
    var d := Decimal(n);
    DecimalRoundTrip(n);
    ParseDecimal(n, max);
    assert ([43] + d)[1..] == d;
    ZerosChangeNothing(zeros, d);
    assert 48 <= d[0] <= 57;
    var z := Zeros(zeros) + d;
    assert z[0] == if zeros == 0 then d[0] else 48;
    assert !AllDigits([43]) by { assert [43][0] == 43; }
    assert !AllDigits([45] + d) by { assert ([45] + d)[0] == 45; }
  }

  function Zeros(n: nat): (s: Bytes)
    ensures |s| == n && forall i | 0 <= i < n :: s[i] == 48
  {
    seq(n, i requires 0 <= i < n => 48)
  }

  lemma {:induction false} ZerosChangeNothing(n: nat, digits: Bytes)
    requires AllDigits(digits)
    ensures AllDigits(Zeros(n) + digits) && DigitsValue(Zeros(n) + digits) == DigitsValue(digits)
    decreases |digits|
  {
    var s := Zeros(n) + digits;
    if digits == [] {
      assert s == Zeros(n);
      ZerosAreZero(n);
    } else {
      var front := digits[..|digits| - 1];
      assert s[..|s| - 1] == Zeros(n) + front;
      ZerosChangeNothing(n, front);
    }
  }

  lemma {:induction false} ZerosAreZero(n: nat)
    ensures AllDigits(Zeros(n)) && DigitsValue(Zeros(n)) == 0
  {
    if n > 0 {
      assert Zeros(n)[..n - 1] == Zeros(n - 1);
      ZerosAreZero(n - 1);
    }
  }

  /**
    Which records make an area fail: those with a key that starts with `GNU.sparse.`, and
    sizes that are no number of 64 bits. Every other record is accepted, whatever its key.
  */
  lemma {:induction false} GoodExactly(r: Record)
    ensures GoodRecord(r) <==>
            && !([71, 78, 85, 46, 115, 112, 97, 114, 115, 101, 46] <= r.key)
            && (r.key == [115, 105, 122, 101] ==> ParseUnsigned(r.value, 0xFFFF_FFFF_FFFF_FFFF).Some?)
  {
    hide ParseUnsigned;
  }

  /** An area with a sparse record, or a size that is no number, fails wherever the record stands. */
  lemma {:induction false} BadRecordsFail(records: seq<Record>, i: nat, padding: Bytes, p: Pending)
    requires Printable(records) && AllZero(padding) && |PrintAll(records) + padding| <= USIZE_MAX && i < |records|
    requires || [71, 78, 85, 46, 115, 112, 97, 114, 115, 101, 46] <= records[i].key
             || (records[i].key == [115, 105, 122, 101] && ParseUnsigned(records[i].value, 0xFFFF_FFFF_FFFF_FFFF) == None)
    ensures !ApplyRecords(PrintAll(records) + padding, p).ok
  {
    hide ApplyRecords, PrintAll, ParseUnsigned;
    RecordRoundTrip(records, padding, p);
    GoodExactly(records[i]);
  }

  /** What is no record and not all zeros fails, and leaves what was pending. */
  lemma {:induction false} NoRecordFails(rest: Bytes, p: Pending)
    requires !AllZero(rest) && forall numeral, key, value :: !IsRecord(rest, numeral, key, value)
    ensures ApplyRecords(rest, p) == Applied(p, false)
  {
    hide IsRecord, NextRecord, AllZero;
    if NextRecord(rest).Some? {
      var _ := ReadIsRecord(rest);
    }
  }
}
