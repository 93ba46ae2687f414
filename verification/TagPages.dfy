/** Listing chart versions and paging through them. */
module TagPages {
  import opened Wrappers
  import opened Text
  import L = LinkField
  import T = TagLinks
  import Bytes

  /* ---- Versions of an index ---- */

  /** Versions not in `seen`, each at its first occurrence. */
  function Dedup(versions: seq<Option<string>>, seen: set<string>): seq<string> {
    if versions == [] then []
    else if versions[0].Some? && versions[0].value !in seen then
      [versions[0].value] + Dedup(versions[1..], seen + {versions[0].value})
    else Dedup(versions[1..], seen)
  }

  method ListVersions(versions: seq<Option<string>>) returns (out: seq<string>)
    ensures out == Dedup(versions, {})
  {
    out := [];
    var seen: set<string> := {};
    assert versions[0..] == versions;
    for i := 0 to |versions|
      invariant out + Dedup(versions[i..], seen) == Dedup(versions, {})
    {
      assert versions[i..][1..] == versions[i + 1..];
      if versions[i].Some? && versions[i].value !in seen {
        seen := seen + {versions[i].value};
        out := out + [versions[i].value];
      }
    }
  }

  ghost predicate NoDuplicates(tags: seq<string>) {
    forall i, j | 0 <= i < j < |tags| :: tags[i] != tags[j]
  }

  /** `first` gives, for each listed version, where the index first publishes it. */
  ghost predicate InPublishedOrder(versions: seq<Option<string>>, out: seq<string>, first: seq<nat>) {
    && |first| == |out|
    && (forall i | 0 <= i < |out| :: first[i] < |versions| && versions[first[i]] == Some(out[i]))
    && (forall i | 0 <= i < |out| :: forall k | 0 <= k < first[i] :: versions[k] != Some(out[i]))
    && (forall i, j | 0 <= i < j < |out| :: first[i] < first[j])
  }

  lemma {:induction false} DedupMembers(versions: seq<Option<string>>, seen: set<string>, v: string)
    ensures v in Dedup(versions, seen) <==> Some(v) in versions && v !in seen
  {
    if versions != [] {
      assert versions == [versions[0]] + versions[1..];
      if versions[0].Some? && versions[0].value !in seen {
        DedupMembers(versions[1..], seen + {versions[0].value}, v);
      } else {
        DedupMembers(versions[1..], seen, v);
      }
    }
  }

  lemma {:induction false} DedupDistinct(versions: seq<Option<string>>, seen: set<string>)
    ensures NoDuplicates(Dedup(versions, seen))
  {
    if versions != [] {
      if versions[0].Some? && versions[0].value !in seen {
        var v := versions[0].value;
        DedupDistinct(versions[1..], seen + {v});
        DedupMembers(versions[1..], seen + {v}, v);
      } else {
        DedupDistinct(versions[1..], seen);
      }
    }
  }

  /** Positions in the rest of an index, as positions in the whole. */
  function Later(first: seq<nat>): (r: seq<nat>) {
    seq(|first|, i requires 0 <= i < |first| => first[i] + 1)
  }

  lemma {:induction false} OrderSkips(versions: seq<Option<string>>, out: seq<string>, first: seq<nat>)
    requires versions != [] && InPublishedOrder(versions[1..], out, first)
    requires forall i | 0 <= i < |out| :: versions[0] != Some(out[i])
    ensures InPublishedOrder(versions, out, Later(first))
  {
    forall i, k | 0 <= i < |out| && 0 <= k < Later(first)[i]
      ensures versions[k] != Some(out[i])
    {
      if k > 0 {
        assert versions[k] == versions[1..][k - 1];
      }
    }
  }

  lemma {:induction false} OrderPrepends(versions: seq<Option<string>>, out: seq<string>, first: seq<nat>)
    requires versions != [] && versions[0].Some? && InPublishedOrder(versions, out, first)
    requires forall i | 0 <= i < |out| :: versions[0] != Some(out[i])
    ensures InPublishedOrder(versions, [versions[0].value] + out, [0] + first)
  {
    var all, at := [versions[0].value] + out, [0] + first;
    forall i | 0 <= i < |all|
      ensures at[i] < |versions| && versions[at[i]] == Some(all[i])
      ensures forall k | 0 <= k < at[i] :: versions[k] != Some(all[i])
    {
      if i > 0 {
        assert at[i] == first[i - 1] && all[i] == out[i - 1];
      }
    }
    forall i, j | 0 <= i < j < |all|
      ensures at[i] < at[j]
    {
      assert at[j] == first[j - 1] && all[j] == out[j - 1];
      assert versions[first[j - 1]] == Some(out[j - 1]);
    }
  }

  lemma {:induction false} DedupOrder(versions: seq<Option<string>>, seen: set<string>) returns (first: seq<nat>)
    ensures InPublishedOrder(versions, Dedup(versions, seen), first)
  {
    if versions == [] {
      first := [];
    } else {
      var isNew := versions[0].Some? && versions[0].value !in seen;
      var known := if isNew then seen + {versions[0].value} else seen;
      var out := Dedup(versions[1..], known);
      var later := DedupOrder(versions[1..], known);
      forall i | 0 <= i < |out|
        ensures versions[0] != Some(out[i])
      {
        assert out[i] in out;
        DedupMembers(versions[1..], known, out[i]);
      }
      OrderSkips(versions, out, later);
      first := Later(later);
      if isNew {
        OrderPrepends(versions, out, first);
        first := [0] + first;
      }
    }
  }

  /** The listing holds every published version once, in the order of first publication. */
  lemma {:induction false} ListingIsExact(versions: seq<Option<string>>) returns (first: seq<nat>)
    ensures var out := Dedup(versions, {});
            && NoDuplicates(out)
            && (forall v :: v in out <==> Some(v) in versions)
            && InPublishedOrder(versions, out, first)
  {
    first := DedupOrder(versions, {});
    DedupDistinct(versions, {});
    forall v {:trigger v in Dedup(versions, {})}
      ensures v in Dedup(versions, {}) <==> Some(v) in versions
    {
      DedupMembers(versions, {}, v);
    }
  }

  /* ---- Pages ---- */

  function IndexOf(tags: seq<string>, tag: string): (k: nat)
    requires tag in tags
    ensures k < |tags| && tags[k] == tag
  {
    if tags[0] == tag then 0 else 1 + IndexOf(tags[1..], tag)
  }

  lemma {:induction false} FirstIndexIs(tags: seq<string>, tag: string, k: nat)
    requires k < |tags| && tags[k] == tag && forall i | 0 <= i < k :: tags[i] != tag
    ensures tag in tags && IndexOf(tags, tag) == k
  {
    if k > 0 {
      assert tags[0] != tag;
      FirstIndexIs(tags[1..], tag, k - 1);
    }
  }

  /** Tags after the last one the client has seen; an unknown tag restarts the list. */
  function After(tags: seq<string>, last: Option<string>): seq<string> {
    if last.Some? && last.value in tags then tags[IndexOf(tags, last.value) + 1..] else tags
  }

  /** One response: its tags, and the `last` parameter its link names, if it has a link. */
  datatype Page = Page(tags: seq<string>, next: Option<string>)

  function PageOf(tags: seq<string>, n: Option<nat>, last: Option<string>): Page {
    var rest := After(tags, last);
    if n.Some? && |rest| > n.value then
      Page(rest[..n.value], if n.value >= 1 then Some(rest[n.value - 1]) else None)
    else Page(rest, None)
  }

  /** Drains what the client has seen, then truncates to the page. */
  method TagsPage(allTags: seq<string>, n: Option<nat>, last: Option<string>) returns (page: Page)
    ensures page == PageOf(allTags, n, last)
  {
    var tags := allTags;
    if last.Some? {
      var index := 0;
      while index < |tags| && tags[index] != last.value
        invariant index <= |tags|
        invariant forall i | 0 <= i < index :: tags[i] != last.value
      {
        index := index + 1;
      }
      if index < |tags| {
        FirstIndexIs(tags, last.value, index);
        tags := tags[index + 1..];
      }
    }
    var next: Option<string> := None;
    if n.Some? && |tags| > n.value {
      next := if n.value >= 1 then Some(tags[n.value - 1]) else None;
      tags := tags[..n.value];
    }
    return Page(tags, next);
  }

  /** Without duplicates, a page's link leads to exactly what the page left out. */
  lemma {:induction false} NextPageContinues(tags: seq<string>, n: nat, last: Option<string>)
    requires NoDuplicates(tags) && PageOf(tags, Some(n), last).next.Some?
    ensures n >= 1 && After(tags, PageOf(tags, Some(n), last).next) == After(tags, last)[n..]
  {
    var rest := After(tags, last);
    var start := |tags| - |rest|;
    assert rest == tags[start..];
    assert rest[n - 1] == tags[start + n - 1];
    FirstIndexIs(tags, tags[start + n - 1], start + n - 1);
  }

  /** The pages a client gets by following every link. */
  function Pages(tags: seq<string>, n: nat, last: Option<string>): seq<seq<string>>
    requires NoDuplicates(tags) && n >= 1
    decreases |After(tags, last)|
  {
    var page := PageOf(tags, Some(n), last);
    if page.next.None? then [page.tags]
    else
      NextPageContinues(tags, n, last);
      [page.tags] + Pages(tags, n, page.next)
  }

  function Flatten(pages: seq<seq<string>>): seq<string> {
    if pages == [] then [] else pages[0] + Flatten(pages[1..])
  }

  lemma {:induction false} PagesFrom(tags: seq<string>, n: nat, last: Option<string>)
    requires NoDuplicates(tags) && n >= 1
    ensures var pages := Pages(tags, n, last);
            && Flatten(pages) == After(tags, last)
            && (forall i | 0 <= i < |pages| - 1 :: |pages[i]| == n)
            && |pages[|pages| - 1]| <= n
            && (|After(tags, last)| > 0 ==> pages[|pages| - 1] != [])
    decreases |After(tags, last)|
  {
    hide After, NoDuplicates;
    var page := PageOf(tags, Some(n), last);
    var pages := Pages(tags, n, last);
    assert pages[0] == page.tags;
    if page.next.None? {
      assert pages[1..] == [];
    } else {
      NextPageContinues(tags, n, last);
      PagesFrom(tags, n, page.next);
      assert pages[1..] == Pages(tags, n, page.next);
    }
  }

  /**
    Main result: for every index and every page size of at least one, following the links
    from the start terminates and the pages are the whole version list, in order, each
    version once; every page but the last is full.
  */
  lemma {:induction false} PagesPartitionVersions(versions: seq<Option<string>>, n: nat)
    requires n >= 1
    ensures var tags := Dedup(versions, {});
            && NoDuplicates(tags)
            && Flatten(Pages(tags, n, None)) == tags
            && forall i | 0 <= i < |Pages(tags, n, None)| - 1 :: |Pages(tags, n, None)[i]| == n
  {
    var _ := ListingIsExact(versions);
    PagesFrom(Dedup(versions, {}), n, None);
  }

  /** The client has seen the first `k` tags: up to the first place of the tag it names, or none. */
  predicate HasSeen(tags: seq<string>, last: Option<string>, k: nat) {
    match last
    case None => k == 0
    case Some(tag) =>
      if k == 0 then tag !in tags
      else k <= |tags| && tags[k - 1] == tag && forall i | 0 <= i < k - 1 :: tags[i] != tag
  }

  /**
    Every page: without a size, or with one that covers the rest, all the tags not yet
    seen and no link; a page of size zero is empty and has none either; any other is full
    and links with its own last tag.
  */
  lemma {:induction false} PageExactly(tags: seq<string>, n: Option<nat>, last: Option<string>, k: nat)
    requires HasSeen(tags, last, k)
    ensures PageOf(tags, n, last) ==
            match n
            case None => Page(tags[k..], None)
            case Some(size) =>
              if |tags| - k <= size then Page(tags[k..], None)
              else if size == 0 then Page([], None)
              else Page(tags[k..k + size], Some(tags[k + size - 1]))
  {
    if last.Some? && k > 0 {
      FirstIndexIs(tags, last.value, k - 1);
    }
    var rest := After(tags, last);
    assert rest == tags[k..];
    if n.Some? && n.value < |tags| - k {
      assert rest[..n.value] == tags[k..k + n.value];
    }
  }

  /** A page size of zero gives an empty page without a link; an unknown tag restarts the list. */
  lemma {:induction false} EdgePages(tags: seq<string>, n: Option<nat>, last: Option<string>, unknown: string)
    requires unknown !in tags
    ensures PageOf(tags, Some(0), last) == Page([], None)
    ensures PageOf(tags, n, Some(unknown)) == PageOf(tags, n, None)
  {
    assert After(tags, last)[..0] == [];
  }

  /** Deduplication is what makes paging end: a repeated version can link to itself forever. */
  lemma {:induction false} DuplicatesLinkForever(a: string, b: string)
    ensures var tags := [a, a, b];
            PageOf(tags, Some(1), Some(a)) == Page([a], Some(a))
  {
    var tags := [a, a, b];
    assert IndexOf(tags, a) == 0;
    assert tags[1..] == [a, b];
    assert [a, b][..1] == [a];
  }

  /* ---- The link of a page ---- */

  /** A number as text. */
  function DecimalText(n: nat): (s: string)
    ensures T.AllUri(s)
  {
    DigitsAreDigits(n);
    var digits := Bytes.Decimal(n);
    seq(|digits|, i requires 0 <= i < |digits| => digits[i] as char)
  }

  lemma {:induction false} DigitsAreDigits(n: nat)
    ensures Bytes.AllDigits(Bytes.Decimal(n))
  {
    Bytes.DecimalRoundTrip(n);
  }

  /** A page size as text, and back. */
  lemma {:induction false} DecimalTextReads(n: nat)
    ensures var text := DecimalText(n);
            && |text| == |Bytes.Decimal(n)|
            && (forall i | 0 <= i < |text| :: text[i] as int == Bytes.Decimal(n)[i] && '0' <= text[i] <= '9')
            && Bytes.ParseUnsigned(Bytes.Decimal(n), n) == Some(n)
  {
    DigitsAreDigits(n);
    Bytes.ParseDecimal(n, n);
  }

  const NEXT_SUFFIX := [';'] + ([' '] + ("rel" + ['='] + (['"'] + "next" + ['"'])))

  /** The link a page carries; `encoded` is the form-encoded last tag of the page. */
  function PageLink(fullName: string, n: nat, encoded: string): L.LinkValue {
    L.LinkValue("/v2/" + fullName + "/tags/list?n=" + DecimalText(n) + "&last=" + encoded, NEXT_SUFFIX)
  }

  /** The link as it is sent. */
  lemma {:induction false} PageLinkText(fullName: string, n: nat, encoded: string)
    ensures L.LinkText(PageLink(fullName, n, encoded)) ==
            "<" + ("/v2/" + fullName + "/tags/list?n=" + DecimalText(n) + "&last=" + encoded) + ">" + "; rel=\"next\""
  {
    assert NEXT_SUFFIX == "; rel=\"next\"";
  }

  /**
    The program's own parser reads its own pagination header: one link, with the target
    and the suffix verbatim, and a `next` relation.
  */
  lemma {:induction false} PageLinkReadsBack(fullName: string, n: nat, encoded: string)
    requires T.AllUri(fullName) && T.AllUri(encoded)
    ensures var link := PageLink(fullName, n, encoded);
            L.ParseField(L.LinkText(link)) == Some([link]) && T.IsNextLink(link.params)
  {
    var link := PageLink(fullName, n, encoded);
    UriIsPlain(fullName, n, encoded);
    SuffixIsNext();
    L.SingleLink(link);
  }

  lemma {:induction false} SuffixIsNext()
    ensures L.ValidParams(NEXT_SUFFIX) && TrimEnd(NEXT_SUFFIX) == NEXT_SUFFIX && T.IsNextLink(NEXT_SUFFIX)
  {
    T.QuotedRelIsNext("rel", "next", [' '] + ("rel" + ['='] + (['"'] + "next" + ['"'])), NEXT_SUFFIX);
  }

  lemma {:induction false} UriIsPlain(fullName: string, n: nat, encoded: string)
    requires T.AllUri(fullName) && T.AllUri(encoded)
    ensures var uri := PageLink(fullName, n, encoded).uri; '>' !in uri && L.AllField(uri)
  {
    assert T.AllUri("/v2/") && T.AllUri("/tags/list?n=") && T.AllUri("&last=");
    assert T.AllUri("/v2/" + fullName);
    assert T.AllUri("/v2/" + fullName + "/tags/list?n=");
    assert T.AllUri("/v2/" + fullName + "/tags/list?n=" + DecimalText(n));
    assert T.AllUri("/v2/" + fullName + "/tags/list?n=" + DecimalText(n) + "&last=");
    assert T.AllUri(PageLink(fullName, n, encoded).uri);
  }
}
