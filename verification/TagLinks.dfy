/**
  Rewriting the upstream pagination link: which link is chosen, what is emitted, and
  that what is emitted reads back as exactly one link with the same parameters.
*/
module TagLinks {
  import opened Wrappers
  import opened Sequences
  import opened Text
  import opened LinkLexer
  import opened LinkField

  /* ---- Quoting ---- */

  function Unescape(s: string, escaped: bool): string {
    if s == "" then ""
    else if s[0] == '\\' && !escaped then Unescape(s[1..], true)
    else [s[0]] + Unescape(s[1..], false)
  }

  function Unquote(value: string): string {
    if |value| >= 2 && value[0] == '"' && value[|value| - 1] == '"'
    then Unescape(value[1..|value| - 1], false)
    else value
  }

  method UnquoteLinkValue(value: string) returns (unquoted: string)
    ensures unquoted == Unquote(value)
  {
    if !(|value| >= 2 && value[0] == '"' && value[|value| - 1] == '"') {
      return value;
    }
    var inner := value[1..|value| - 1];
    unquoted := "";
    var escaped := false;
    assert inner[0..] == inner;
    for i := 0 to |inner|
      invariant unquoted + Unescape(inner[i..], escaped) == Unescape(inner, false)
    {
      assert inner[i..][1..] == inner[i + 1..];
      if inner[i] == '\\' && !escaped {
        escaped := true;
      } else {
        escaped := false;
        unquoted := unquoted + [inner[i]];
      }
    }
  }

  /** The quoted form of a text: quotes and backslashes escaped. */
  function Escape(s: string): string {
    if s == "" then ""
    else Escaped1(s[0]) + Escape(s[1..])
  }

  function Quote(s: string): string {
    "\"" + Escape(s) + "\""
  }

  lemma {:induction false} UnescapePair(c: char, rest: string)
    ensures Unescape(['\\', c] + rest, false) == [c] + Unescape(rest, false)
  {
    var s := ['\\', c] + rest;
    assert s[1..] == [c] + rest && s[1..][1..] == rest;
  }

  lemma {:induction false} UnescapeOne(c: char, rest: string)
    requires c != '\\'
    ensures Unescape([c] + rest, false) == [c] + Unescape(rest, false)
  {
    assert ([c] + rest)[1..] == rest;
  }

  lemma {:induction false} UnescapeEscape(s: string)
    ensures Unescape(Escape(s), false) == s
  {
    if s != "" {
      UnescapeEscape(s[1..]);
      if s[0] == '"' || s[0] == '\\' {
        UnescapePair(s[0], Escape(s[1..]));
      } else {
        UnescapeOne(s[0], Escape(s[1..]));
      }
    }
  }

  function Escaped1(c: char): string {
    if c == '"' || c == '\\' then ['\\', c] else [c]
  }

  /** One escaped character is read inside the quotes. */
  lemma {:induction false} EscapedStaysQuoted(c: char)
    ensures Run(Quoted, Escaped1(c)) == Quoted
    ensures forall k | 0 <= k <= |Escaped1(c)| :: Run(Quoted, Escaped1(c)[..k]) != Plain
    ensures (forall i | 0 <= i < |Escaped1(c)| :: IsQuotable(Escaped1(c)[i])) <==> IsQuotable(c)
  {
    var head := Escaped1(c);
    RunStep(Quoted, head, 0);
    RunStep(Quoted, head, |head| - 1);
    assert head[..|head|] == head;
  }

  lemma {:induction false} EscapeIsQuotable(s: string)
    ensures (forall i | 0 <= i < |Escape(s)| :: IsQuotable(Escape(s)[i])) <==> (forall i | 0 <= i < |s| :: IsQuotable(s[i]))
    ensures Escape(s) == "" <==> s == ""
  {
    if s != "" {
      hide IsQuotable;
      EscapeIsQuotable(s[1..]);
      var head, rest, all := Escaped1(s[0]), Escape(s[1..]), Escape(s);
      EscapedStaysQuoted(s[0]);
      assert all == head + rest;
      assert forall i | 0 <= i < |head| :: all[i] == head[i];
      assert forall i | 0 <= i < |rest| :: all[|head| + i] == rest[i];
      assert forall i | 0 <= i < |s| - 1 :: s[1..][i] == s[i + 1];
    }
  }

  lemma {:induction false} EscapeStaysQuoted(s: string)
    ensures Run(Quoted, Escape(s)) == Quoted
    ensures forall k | 0 <= k <= |Escape(s)| :: Run(Quoted, Escape(s)[..k]) != Plain
  {
    if s != "" {
      EscapeStaysQuoted(s[1..]);
      hide Run;
      var head, rest, all := Escaped1(s[0]), Escape(s[1..]), Escape(s);
      EscapedStaysQuoted(s[0]);
      assert all == head + rest;
      RunConcat(Quoted, head, rest);
      forall k | 0 <= k <= |all|
        ensures Run(Quoted, all[..k]) != Plain
      {
        if k <= |head| {
          assert all[..k] == head[..k];
        } else {
          assert all[..k] == head + rest[..k - |head|];
          RunConcat(Quoted, head, rest[..k - |head|]);
        }
      }
    } else {
      assert Escape(s)[..0] == "";
    }
  }

  /**
    Unquoting inverts quoting, and a quoted text passes the quoted-string check exactly
    when the text is non-empty and quotable.
  */
  lemma {:induction false} QuoteRoundTrip(s: string)
    ensures Unquote(Quote(s)) == s
    ensures QuotedString(Quote(s)) <==> s != "" && forall i | 0 <= i < |s| :: IsQuotable(s[i])
  {
    hide Unescape, IsQuotable, Run, Escape;
    var e, v := Escape(s), Quote(s);
    assert v[1..|v| - 1] == e;
    UnescapeEscape(s);
    EscapeStaysQuoted(s);
    EscapeIsQuotable(s);
    QuoteRuns(s);
    QuotesAreQuotable();
    assert forall i | 0 <= i < |e| :: v[i + 1] == e[i];
  }

  lemma {:induction false} QuotesAreQuotable()
    ensures IsQuotable('"')
  {
  }

  /** The automaton is inside the quotes after every proper prefix of a quoted text, and outside at the end. */
  lemma {:induction false} QuoteRuns(s: string)
    requires Run(Quoted, Escape(s)) == Quoted
    requires forall k | 0 <= k <= |Escape(s)| :: Run(Quoted, Escape(s)[..k]) != Plain
    ensures var v := Quote(s); (forall k | 1 <= k < |v| :: Run(Plain, v[..k]) != Plain) && Run(Plain, v) == Plain
  {
    hide Escape;
    var e, v := Escape(s), Quote(s);
    forall k | 1 <= k < |v|
      ensures Run(Plain, v[..k]) != Plain
    {
      assert v[..k] == ['"'] + e[..k - 1];
      assert (['"'] + e[..k - 1])[1..] == e[..k - 1];
    }
    RunOfQuote(s);
  }

  /* ---- Choosing the link ---- */

  /** The relation list of a parameter, if it is a `rel` parameter with a value. */
  function RelOf(parameter: string): Option<string> {
    var p := Trim(parameter);
    var k := Find(p, '=');
    if k < |p| && Lower(TrimEnd(p[..k])) == "rel" then Some(Unquote(Trim(p[k + 1..]))) else None
  }

  function FirstRel(parts: seq<string>): Option<string> {
    if parts == [] then None
    else if RelOf(parts[0]).Some? then RelOf(parts[0])
    else FirstRel(parts[1..])
  }

  predicate IsAsciiWhitespace(c: char) {
    c == ' ' || c == '\t' || c == '\n' || c == '\r' || c == '\U{0C}'
  }

  /** Tab, line feed, form feed, carriage return and space. */
  lemma {:induction false} BlanksAre(c: char)
    ensures IsAsciiWhitespace(c) <==> c as int in {9, 10, 12, 13, 32}
  {
  }

  /** Maximal runs of non-blank characters; `word` is the run being read. */
  function Words(s: string, word: string): seq<string>
    decreases |s|
  {
    var done := if word == "" then [] else [word];
    if s == "" then done
    else if IsAsciiWhitespace(s[0]) then done + Words(s[1..], "")
    else Words(s[1..], word + [s[0]])
  }

  /** Only the first `rel` parameter counts; relation types are case-insensitive. */
  predicate IsNextLink(params: string) {
    var p := Trim(params);
    && p != "" && p[0] == ';'
    && var rel := FirstRel(SplitPlain(p[1..], ';'));
       rel.Some? && exists i | 0 <= i < |Words(rel.value, "")| :: Lower(Words(rel.value, "")[i]) == "next"
  }

  function NextLinks(links: seq<LinkValue>): (next: seq<LinkValue>)
    ensures forall i | 0 <= i < |next| :: next[i] in links && IsNextLink(next[i].params)
  {
    if links == [] then []
    else (if IsNextLink(links[0].params) then [links[0]] else []) + NextLinks(links[1..])
  }

  /** A position holding the only `next` link of a list. */
  ghost predicate OnlyNext(links: seq<LinkValue>, i: int) {
    && 0 <= i < |links| && IsNextLink(links[i].params)
    && forall j | 0 <= j < |links| && j != i :: !IsNextLink(links[j].params)
  }

  lemma {:induction false} NoNextLinks(links: seq<LinkValue>)
    ensures NextLinks(links) == [] <==> forall j | 0 <= j < |links| :: !IsNextLink(links[j].params)
  {
    if links != [] {
      NoNextLinks(links[1..]);
      assert forall j | 1 <= j < |links| :: links[j] == links[1..][j - 1];
    }
  }

  /** The filter leaves one link exactly when one position holds the only candidate. */
  lemma {:induction false} OneNextLink(links: seq<LinkValue>)
    ensures |NextLinks(links)| == 1 <==> exists i :: OnlyNext(links, i)
    ensures forall i :: OnlyNext(links, i) ==> NextLinks(links) == [links[i]]
  {
    if links != [] {
      var rest := links[1..];
      NoNextLinks(rest);
      OneNextLink(rest);
      assert forall j | 1 <= j < |links| :: links[j] == rest[j - 1];
      if IsNextLink(links[0].params) {
        if NextLinks(rest) == [] {
          assert OnlyNext(links, 0);
        }
      } else {
        forall i | OnlyNext(links, i)
          ensures OnlyNext(rest, i - 1)
        {
        }
        if |NextLinks(rest)| == 1 {
          var i :| OnlyNext(rest, i);
          assert OnlyNext(links, i + 1);
        }
      }
    }
  }

  /* ---- Rewriting ---- */

  predicate IsHexDigit(c: char) {
    IsDigit(c) || 'a' <= c <= 'f' || 'A' <= c <= 'F'
  }

  predicate IsUriChar(c: char) {
    || IsAlphanumeric(c)
    || c == '-' || c == '.' || c == '_' || c == '~' || c == ':' || c == '/' || c == '?' || c == '#'
    || c == '[' || c == ']' || c == '@' || c == '!' || c == '$' || c == '&' || c == '\'' || c == '('
    || c == ')' || c == '*' || c == '+' || c == ',' || c == ';' || c == '=' || c == '%'
  }

  predicate AllUri(s: string) {
    forall i | 0 <= i < |s| :: IsUriChar(s[i])
  }

  /** URI characters only, and every percent sign starts a complete escape. */
  predicate SafeReference(s: string)
    decreases |s|
  {
    if s == "" then true
    else if s[0] == '%' then |s| >= 3 && IsHexDigit(s[1]) && IsHexDigit(s[2]) && SafeReference(s[3..])
    else IsUriChar(s[0]) && SafeReference(s[1..])
  }

  method IsSafeUriReference(reference: string) returns (safe: bool)
    ensures safe <==> SafeReference(reference)
  {
    var position := 0;
    assert reference[position..] == reference;
    while position < |reference|
      invariant position <= |reference|
      invariant SafeReference(reference) <==> SafeReference(reference[position..])
    {
      ghost var rest := reference[position..];
      if !IsUriChar(reference[position]) {
        return false;
      }
      if reference[position] == '%' {
        if position + 3 > |reference| {
          return false;
        }
        if !(IsHexDigit(reference[position + 1]) && IsHexDigit(reference[position + 2])) {
          return false;
        }
        assert rest[3..] == reference[position + 3..];
        position := position + 3;
      } else {
        assert rest[1..] == reference[position + 1..];
        position := position + 1;
      }
    }
    return true;
  }

  /** Index of the first character from the delimiters that end a first segment. */
  function SegmentEnd(s: string): (k: nat)
    ensures k <= |s|
  {
    if s == "" || s[0] == '/' || s[0] == '?' || s[0] == '#' then 0 else 1 + SegmentEnd(s[1..])
  }

  predicate IsScheme(s: string) {
    && s != "" && IsAlphanumeric(s[0]) && !IsDigit(s[0])
    && forall i | 1 <= i < |s| :: IsAlphanumeric(s[i]) || s[i] == '+' || s[i] == '-' || s[i] == '.'
  }

  /** Relative, or absolute with the upstream's own scheme and a written-out authority. */
  predicate StrictReference(reference: string, plainHttp: bool) {
    var colon := Find(reference[..SegmentEnd(reference)], ':');
    if colon == SegmentEnd(reference) then !("//" <= reference)
    else
      var rest := reference[colon + 1..];
      && IsScheme(reference[..colon])
      && Lower(reference[..colon]) == (if plainHttp then "http" else "https")
      && "//" <= rest && |rest| > 2 && rest[2] != '/' && rest[2] != '?' && rest[2] != '#'
  }

  /** What the URL library makes of a reference, against the upstream's own tag-list URL. */
  datatype Resolved = Resolved(sameOrigin: bool, samePath: bool, fragment: bool, query: string)

  datatype Target = Target(fullName: string, plainHttp: bool)

  type UrlLibrary = string -> Option<Resolved>

  function TagListUri(fullName: string, query: string): string {
    "/v2/" + fullName + "/tags/list" + if query == "" then "" else "?" + query
  }

  function ResolvedQuery(reference: string, target: Target, library: UrlLibrary): Option<string> {
    if !SafeReference(reference) || !StrictReference(reference, target.plainHttp) then None
    else
      match library(reference)
      case None => None
      case Some(url) =>
        if url.sameOrigin && url.samePath && !url.fragment then Some(url.query) else None
  }

  function RewriteLink(link: LinkValue, target: Target, library: UrlLibrary): Option<string> {
    match ResolvedQuery(link.uri, target, library)
    case None => None
    case Some(query) => Some("<" + TagListUri(target.fullName, query) + ">" + link.params)
  }

  /** All links of all fields, or nothing as soon as one field is malformed. */
  function Gather(fields: seq<string>): Option<seq<LinkValue>> {
    if fields == [] then Some([])
    else
      match (ParseField(fields[0]), Gather(fields[1..]))
      case (Some(links), Some(rest)) => Some(links + rest)
      case _ => None
  }

  method RewriteTagLinks(fields: seq<string>, target: Target, library: UrlLibrary) returns (header: Option<string>)
    ensures header == Rewritten(fields, target, library)
  {
    if fields == [] {
      return None;
    }
    var links: seq<LinkValue> := [];
    assert fields[0..] == fields;
    PrependNothing(Gather(fields));
    for i := 0 to |fields|
      invariant Gather(fields) == Prepend(links, Gather(fields[i..]))
    {
      var parsed := ParseLinkField(fields[i]);
      assert fields[i..][1..] == fields[i + 1..];
      if parsed.None? {
        return None;
      }
      if Gather(fields[i + 1..]).Some? {
        PrependTwice(links, parsed.value, Gather(fields[i + 1..]));
      }
      links := links + parsed.value;
    }
    assert links + [] == links;
    var candidates := NextLinks(links);
    if |candidates| != 1 {
      return None;
    }
    return RewriteLink(candidates[0], target, library);
  }

  function Rewritten(fields: seq<string>, target: Target, library: UrlLibrary): Option<string> {
    match Gather(fields)
    case None => None
    case Some(links) =>
      if |NextLinks(links)| == 1 then RewriteLink(NextLinks(links)[0], target, library) else None
  }

  /** Queries of safe references come back from the URL library as URI characters. */
  ghost predicate KeepsQueriesSafe(library: UrlLibrary) {
    forall r :: SafeReference(r) && library(r).Some? ==> AllUri(library(r).value.query)
  }

  lemma {:induction false} GatheredLinksAreGood(fields: seq<string>)
    requires Gather(fields).Some?
    ensures GoodLinks(Gather(fields).value)
  {
    if fields != [] {
      GatheredLinksAreGood(fields[1..]);
      var gaps := ParsedIsRendered(fields[0]);
    }
  }

  lemma {:induction false} TagListUriIsPlain(fullName: string, query: string)
    requires AllUri(fullName) && AllUri(query)
    ensures '>' !in TagListUri(fullName, query) && AllField(TagListUri(fullName, query))
  {
    var tail := if query == "" then "" else "?" + query;
    assert AllUri("/v2/") && AllUri("/tags/list") && AllUri(tail);
    assert AllUri(TagListUri(fullName, query));
  }

  /**
    Main result. A header is emitted exactly when every field parses, one position over
    all of them holds the only `next` link, and its target resolves to the same
    resource. What is emitted then reads back as one link: the proxy's own tag list with
    the chosen link's parameters verbatim, still a `next` link.
  */
  lemma {:induction false} RewrittenLinkReadsBack(fields: seq<string>, target: Target, library: UrlLibrary)
    requires KeepsQueriesSafe(library) && AllUri(target.fullName)
    ensures Rewritten(fields, target, library).Some? <==>
            Gather(fields).Some? &&
            exists i :: OnlyNext(Gather(fields).value, i)
                        && ResolvedQuery(Gather(fields).value[i].uri, target, library).Some?
    ensures forall i :: Rewritten(fields, target, library).Some? && OnlyNext(Gather(fields).value, i) ==>
              var header := Rewritten(fields, target, library).value;
              var link := Gather(fields).value[i];
              var query := ResolvedQuery(link.uri, target, library).value;
              && ParseField(header) == Some([LinkValue(TagListUri(target.fullName, query), link.params)])
              && IsNextLink(link.params)
  {
    if Gather(fields).Some? {
      var links := Gather(fields).value;
      OneNextLink(links);
      GatheredLinksAreGood(fields);
      forall i | Rewritten(fields, target, library).Some? && OnlyNext(links, i)
        ensures var query := ResolvedQuery(links[i].uri, target, library).value;
                ParseField(Rewritten(fields, target, library).value) ==
                Some([LinkValue(TagListUri(target.fullName, query), links[i].params)])
      {
        var query := ResolvedQuery(links[i].uri, target, library).value;
        TagListUriIsPlain(target.fullName, query);
        assert GoodLink(links[i]);
        SingleLink(LinkValue(TagListUri(target.fullName, query), links[i].params));
      }
    }
  }

  lemma {:induction false} NothingToSplit(q: Lex, s: string, c: char)
    requires c !in s
    ensures FirstPlain(q, s, c) == |s|
    decreases |s|
  {
    if s != "" {
      NothingToSplit(Next(q, s[0]), s[1..], c);
    }
  }

  lemma {:induction false} NothingToEscape(s: string)
    requires AllToken(s)
    ensures Escape(s) == s
  {
    if s != "" {
      NothingToEscape(s[1..]);
      assert s == [s[0]] + s[1..];
    }
  }

  lemma {:induction false} OneWord(s: string, word: string)
    requires forall i | 0 <= i < |s| :: !IsAsciiWhitespace(s[i])
    ensures Words(s, word) == if word + s == "" then [] else [word + s]
    decreases |s|
  {
    if s == "" {
      assert word + s == word;
    } else {
      OneWord(s[1..], word + [s[0]]);
      assert word + [s[0]] + s[1..] == word + s;
    }
  }

  lemma {:induction false} TrimNothing(s: string)
    requires s == "" || (!IsOws(s[0]) && !IsOws(s[|s| - 1]))
    ensures Trim(s) == s
  {
  }

  lemma {:induction false} QuotedWord(word: string, value: string)
    requires AllToken(word) && word != "" && value == ['"'] + word + ['"']
    ensures QuotedString(value) && Unquote(value) == word
  {
    NothingToEscape(word);
    assert value == Quote(word);
    QuoteRoundTrip(word);
  }

  lemma {:induction false} TrimOneSpace(p: string)
    requires p != "" && !IsOws(p[0]) && !IsOws(p[|p| - 1])
    ensures Trim([' '] + p) == p
  {
    assert ([' '] + p)[1..] == p;
    TrimNothing(p);
  }

  /** A parameter with a token name and a quoted token value reads as that name and value. */
  lemma {:induction false} QuotedParam(name: string, word: string, value: string)
    requires AllToken(name) && AllToken(word) && name != "" && word != "" && value == ['"'] + word + ['"']
    ensures var part := [' '] + (name + ['='] + value);
            && ValidParam(part)
            && (Lower(name) == "rel" ==> RelOf(part) == Some(word))
  {
    hide QuotedString, Unquote, Trim, Find, ValidParam, RelOf, Lower;
    var p := name + ['='] + value;
    assert Trim([' '] + p) == p by { TrimOneSpace(p); }
    assert Find(p, '=') == |name| by { FindIs(p, '=', |name|); }
    assert TrimEnd(name) == name;
    assert Trim(value) == value by { TrimNothing(value); }
    QuotedWord(word, value);
    PartOf([' '] + p, p, name, value, word);
  }

  lemma {:induction false} PartOf(part: string, p: string, name: string, value: string, word: string)
    requires Trim(part) == p && Find(p, '=') == |name| < |p| && p[..|name|] == name && p[|name| + 1..] == value
    requires TrimEnd(name) == name && AllToken(name) && name != ""
    requires Trim(value) == value && QuotedString(value) && Unquote(value) == word
    ensures ValidParam(part)
    ensures Lower(name) == "rel" ==> RelOf(part) == Some(word)
  {
  }

  lemma {:induction false} NoSemicolon(name: string, word: string)
    requires AllToken(name) && AllToken(word)
    ensures ';' !in [' '] + (name + ['='] + (['"'] + word + ['"']))
  {
    var value := ['"'] + word + ['"'];
    assert ';' !in value;
    assert ';' !in name + ['='];
    assert ';' !in name + ['='] + value;
  }

  lemma {:induction false} OnePart(suffix: string, part: string)
    requires suffix == [';'] + part && part != "" && ';' !in part && !IsOws(part[|part| - 1])
    ensures Trim(suffix) == suffix && TrimEnd(suffix) == suffix
    ensures suffix[1..] == part && SplitPlain(part, ';') == [part]
  {
    TrimNothing(suffix);
    NothingToSplit(Plain, part, ';');
  }

  lemma {:induction false} NextIsOneWord(word: string)
    requires AllToken(word) && word != ""
    ensures Words(word, "") == [word]
  {
    OneWord(word, "");
    assert "" + word == word;
  }

  /**
    Any spelling of a quoted `rel` suffix naming `next`, such as the one the program puts
    on its own pagination links, is valid, already trimmed, and a `next` relation.
  */
  lemma {:induction false} QuotedRelIsNext(name: string, word: string, part: string, suffix: string)
    requires AllToken(name) && AllToken(word) && Lower(name) == "rel" && Lower(word) == "next"
    requires part == [' '] + (name + ['='] + (['"'] + word + ['"'])) && suffix == [';'] + part
    ensures ValidParams(suffix) && TrimEnd(suffix) == suffix && IsNextLink(suffix)
  {
    QuotedParam(name, word, ['"'] + word + ['"']);
    NoSemicolon(name, word);
    OnePart(suffix, part);
    NextIsOneWord(word);
    OnePartIsNext(suffix, part, word);
  }

  lemma {:induction false} OnePartIsNext(suffix: string, part: string, word: string)
    requires suffix != "" && suffix[0] == ';' && Trim(suffix) == suffix
    requires suffix[1..] == part && SplitPlain(part, ';') == [part]
    requires ValidParam(part) && RelOf(part) == Some(word)
    requires Words(word, "") == [word] && Lower(word) == "next"
    ensures ValidParams(suffix) && IsNextLink(suffix)
  {
    assert FirstRel([part]) == Some(word);
    assert Lower(Words(word, "")[0]) == "next";
  }

  /* ---- Which references are accepted ---- */

  /** URI characters are the visible ASCII characters but the nine that RFC 3986 leaves out. */
  lemma {:induction false} UriCharsAre(c: char)
    ensures IsUriChar(c) <==> '!' <= c <= '~' && c !in {'"', '<', '>', '\\', '^', '`', '{', '|', '}'}
  {
  }

  lemma {:induction false} SafeWithoutPercent(s: string)
    requires '%' !in s
    ensures SafeReference(s) <==> AllUri(s)
    decreases |s|
  {
    if s != "" {
      assert s[0] in s;
      SafeWithoutPercent(s[1..]);
      assert s == [s[0]] + s[1..];
    }
  }

  /** A percent sign is safe exactly with two hexadecimal digits after it. */
  lemma {:induction false} SafeAtPercent(before: string, rest: string)
    requires '%' !in before
    ensures SafeReference(before + (['%'] + rest)) <==>
            AllUri(before) && |rest| >= 2 && IsHexDigit(rest[0]) && IsHexDigit(rest[1]) && SafeReference(rest[2..])
    decreases |before|
  {
    var s := before + (['%'] + rest);
    if before == "" {
      assert s == ['%'] + rest;
      assert |rest| >= 2 ==> s[3..] == rest[2..];
    } else {
      assert before[0] in before;
      assert s[1..] == before[1..] + (['%'] + rest);
      SafeAtPercent(before[1..], rest);
      assert before == [before[0]] + before[1..];
    }
  }

  predicate EndsSegment(c: char) {
    c == '/' || c == '?' || c == '#'
  }

  lemma {:induction false} SegmentEndIs(s: string, k: nat)
    requires k <= |s| && (forall i | 0 <= i < k :: !EndsSegment(s[i])) && (k < |s| ==> EndsSegment(s[k]))
    ensures SegmentEnd(s) == k
  {
    if k > 0 {
      SegmentEndIs(s[1..], k - 1);
    }
  }

  lemma {:induction false} SegmentEndStops(s: string)
    ensures forall i | 0 <= i < SegmentEnd(s) :: !EndsSegment(s[i])
    ensures SegmentEnd(s) < |s| ==> EndsSegment(s[SegmentEnd(s)])
  {
    if s != "" && !EndsSegment(s[0]) {
      SegmentEndStops(s[1..]);
    }
  }

  lemma {:induction false} HttpIsScheme(scheme: string)
    requires Lower(scheme) == "http" || Lower(scheme) == "https"
    ensures IsScheme(scheme) && forall i | 0 <= i < |scheme| :: !EndsSegment(scheme[i]) && scheme[i] != ':'
  {
    forall i | 0 <= i < |scheme|
      ensures IsAlphanumeric(scheme[i]) && !IsDigit(scheme[i])
    {
      assert Lower(scheme)[i] == LowerChar(scheme[i]);
      assert forall c | c in "https" :: 'a' <= c <= 'z';
      assert Lower(scheme)[i] in "https";
    }
  }

  /**
    An absolute reference with an authority, in any letter case of its scheme, is strict
    exactly if the scheme is the upstream's: `https` for an HTTPS upstream, `http` for a
    plain one.
  */
  lemma {:induction false} AbsoluteExactly(scheme: string, rest: string, plainHttp: bool)
    requires forall i | 0 <= i < |scheme| :: !EndsSegment(scheme[i]) && scheme[i] != ':'
    requires rest != "" && !EndsSegment(rest[0])
    ensures StrictReference(scheme + ("://" + rest), plainHttp) <==>
            Lower(scheme) == (if plainHttp then "http" else "https")
  {
    hide IsScheme, SegmentEnd, Find;
    var s := scheme + ("://" + rest);
    var after := "//" + rest;
    assert s[|scheme| + 1..] == after && s[..|scheme|] == scheme;
    assert s[|scheme| + 1] == '/';
    SegmentEndIs(s, |scheme| + 1);
    FindIs(s[..|scheme| + 1], ':', |scheme|);
    if Lower(scheme) == "http" || Lower(scheme) == "https" {
      HttpIsScheme(scheme);
    }
  }

  /** Without an authority after the scheme, or with an empty one, no absolute reference is strict. */
  lemma {:induction false} AuthorityIsNeeded(scheme: string, rest: string, plainHttp: bool)
    requires forall i | 0 <= i < |scheme| :: !EndsSegment(scheme[i]) && scheme[i] != ':'
    requires !("//" <= rest) || |rest| == 2 || EndsSegment(rest[2])
    ensures !StrictReference(scheme + ([':'] + rest), plainHttp)
  {
    hide IsScheme, SegmentEnd, Find;
    var s := scheme + ([':'] + rest);
    assert s[|scheme| + 1..] == rest;
    var end := SegmentEnd(s);
    SegmentEndStops(s);
    assert end > |scheme| by {
      assert forall i | 0 <= i <= |scheme| :: !EndsSegment(s[i]);
    }
    FindIs(s[..end], ':', |scheme|);
  }

  /** A reference without a colon in its first segment is strict exactly if it does not start with two slashes. */
  lemma {:induction false} RelativeExactly(reference: string, plainHttp: bool)
    requires forall i | 0 <= i < |reference| && reference[i] == ':' :: exists j | 0 <= j < i :: EndsSegment(reference[j])
    ensures StrictReference(reference, plainHttp) <==> !("//" <= reference)
  {
    hide IsScheme, SegmentEnd, Find;
    var end := SegmentEnd(reference);
    SegmentEndStops(reference);
    assert forall i | 0 <= i < end :: reference[i] != ':';
    FindIs(reference[..end], ':', end);
  }

  /**
    Main result: what becomes of the only `next` link. If its target is safe and strict, and
    the URL library makes of it the upstream's own tag list without a fragment, the header
    is the proxy's tag list with the query as it is and the parameters verbatim. In every
    other case there is none.
  */
  lemma {:induction false} ChosenLinkIsRewritten(fields: seq<string>, links: seq<LinkValue>, i: nat, target: Target, library: UrlLibrary)
    requires Gather(fields) == Some(links) && OnlyNext(links, i)
    ensures var uri, header := links[i].uri, Rewritten(fields, target, library);
            if SafeReference(uri) && StrictReference(uri, target.plainHttp) && library(uri).Some?
               && library(uri).value.sameOrigin && library(uri).value.samePath && !library(uri).value.fragment
            then
              var query := library(uri).value.query;
              header == Some("</v2/" + target.fullName + "/tags/list" + (if query == "" then "" else "?" + query) + ">" + links[i].params)
            else header == None
  {
    hide SafeReference, StrictReference, TagListUri, Gather, IsNextLink, NextLinks;
    OneNextLink(links);
    assert NextLinks(links) == [links[i]];
    if library(links[i].uri).Some? {
      HeaderText(target.fullName, library(links[i].uri).value.query, links[i].params);
    }
  }

  /** No header without exactly one `next` link: none, several, or a field that does not parse. */
  lemma {:induction false} AmbiguousLinksAreDropped(fields: seq<string>, target: Target, library: UrlLibrary)
    requires Gather(fields).Some? ==> forall i | 0 <= i < |Gather(fields).value| :: !OnlyNext(Gather(fields).value, i)
    ensures Rewritten(fields, target, library) == None
  {
    hide RewriteLink, IsNextLink, NextLinks;
    if Gather(fields).Some? {
      OneNextLink(Gather(fields).value);
    }
  }

  lemma {:induction false} HeaderText(fullName: string, query: string, params: string)
    ensures "<" + TagListUri(fullName, query) + ">" + params ==
            "</v2/" + fullName + "/tags/list" + (if query == "" then "" else "?" + query) + ">" + params
  {
    var tail := if query == "" then "" else "?" + query;
    assert "<" + "/v2/" == "</v2/";
    Reassociate("<", "/v2/", fullName);
    Reassociate("<", "/v2/" + fullName, "/tags/list");
    Reassociate("<", "/v2/" + fullName + "/tags/list", tail);
  }

  /** A field with one printed link gathers just that link. */
  lemma {:induction false} OneField(link: LinkValue)
    requires GoodLink(link)
    ensures Gather([LinkText(link)]) == Some([link])
    ensures IsNextLink(link.params) ==> OnlyNext([link], 0)
  {
    hide GoodLink, LinkText, IsNextLink;
    SingleLink(link);
    assert [LinkText(link)][1..] == [];
    assert [link] + [] == [link];
  }

  /* ---- Which links are `next` ---- */

  lemma {:induction false} NoQuotes(s: string)
    requires '"' !in s
    ensures Run(Plain, s) == Plain
    decreases |s|
  {
    if s != "" {
      assert s[0] in s;
      NoQuotes(s[1..]);
    }
  }

  lemma {:induction false} TokenText(s: string)
    requires AllToken(s)
    ensures '"' !in s && ';' !in s && '=' !in s && ' ' !in s
    ensures forall i | 0 <= i < |s| :: !IsAsciiWhitespace(s[i])
    ensures s != "" ==> IsTrimmed(s)
  {
  }

  /** A parameter of a token name and a token value, behind a space. */
  function TokenParam(name: string, value: string): string {
    [' '] + (name + (['='] + value))
  }

  lemma {:induction false} TokenParamReads(name: string, value: string)
    requires AllToken(name) && name != "" && AllToken(value) && value != ""
    ensures var part := TokenParam(name, value);
            && ValidParam(part) && IsOnePart(part) && part != "" && !IsOws(part[|part| - 1])
            && RelOf(part) == if Lower(name) == "rel" then Some(value) else None
  {
    hide Trim, TrimEnd, Find, QuotedString, Unquote, Lower, Run, FirstPlain, AllToken;
    var part, p := TokenParam(name, value), name + (['='] + value);
    TokenText(name);
    TokenText(value);
    TrimOfPadded(" ", p, "");
    assert " " + (p + "") == part;
    EqualsSplits(name, value);
    TrimOfPadded("", name, "");
    TrimOfPadded("", value, "");
    assert "" + (value + "") == value;
    TrimEndOfPadded(name, "");
    assert name + "" == name;
    UnquotedToken(value);
    TokenParamIsOnePart(name, value);
  }

  lemma {:induction false} TokenParamIsOnePart(name: string, value: string)
    requires '"' !in name && ';' !in name && '"' !in value && ';' !in value
    ensures IsOnePart(TokenParam(name, value))
  {
    hide Run, FirstPlain;
    var part := TokenParam(name, value);
    assert '"' !in ['='] + value && ';' !in ['='] + value;
    assert '"' !in name + (['='] + value) && ';' !in name + (['='] + value);
    NoQuotes(part);
    NothingToSplit(Plain, part, ';');
  }

  lemma {:induction false} UnquotedToken(value: string)
    requires '"' !in value
    ensures Unquote(value) == value
  {
    if |value| >= 2 {
      assert value[0] in value;
    }
  }

  lemma {:induction false} TokenIsOneWord(word: string)
    requires AllToken(word) && word != ""
    ensures Words(word, "") == [word]
  {
    TokenText(word);
    OneWord(word, "");
    assert "" + word == word;
  }

  lemma {:induction false} OneWordDecides(suffix: string, parts: seq<string>, word: string)
    requires suffix != "" && suffix[0] == ';' && Trim(suffix) == suffix && SplitPlain(suffix[1..], ';') == parts
    requires FirstRel(parts) == Some(word) && AllToken(word) && word != ""
    ensures IsNextLink(suffix) <==> Lower(word) == "next"
  {
    hide Trim, SplitPlain, FirstRel, Lower, Words, IsNextLink;
    TokenIsOneWord(word);
    NextIsDecided(suffix, parts, Some(word), [word]);
    assert [word][0] == word;
  }

  /** One `rel` parameter: `next` in any letter case, and nothing else. */
  lemma {:induction false} OneRelExactly(name: string, value: string)
    requires AllToken(name) && name != "" && AllToken(value) && value != ""
    ensures var suffix := Suffix([TokenParam(name, value)]);
            ValidParams(suffix) && (IsNextLink(suffix) <==> Lower(name) == "rel" && Lower(value) == "next")
  {
    hide Trim, TrimEnd, ValidParam, ValidParams, IsOnePart, RelOf, Lower, Words, TokenParam, Suffix, SplitPlain, IsNextLink, AllToken;
    var parts := [TokenParam(name, value)];
    TokenParamReads(name, value);
    SuffixExactly(parts);
    SuffixSplits(parts);
    SuffixEnds(parts);
    assert parts[1..] == [];
    if Lower(name) == "rel" {
      OneWordDecides(Suffix(parts), parts, value);
    } else {
      NextIsDecided(Suffix(parts), parts, None, []);
    }
  }

  lemma {:induction false} FirstRelOfTwo(p: string, q: string)
    ensures FirstRel([p, q]) == if RelOf(p).Some? then RelOf(p) else RelOf(q)
  {
    hide RelOf;
    assert [p, q][1..] == [q] && [q][1..] == [];
    assert FirstRel([]) == None;
    assert FirstRel([q]) == if RelOf(q).Some? then RelOf(q) else None;
  }

  /** Of two parameters the first `rel` decides, whatever the other says. */
  lemma {:induction false} FirstRelDecides(first: string, v: string, second: string, w: string)
    requires AllToken(first) && first != "" && AllToken(v) && v != ""
    requires AllToken(second) && second != "" && AllToken(w) && w != ""
    ensures var suffix := Suffix([TokenParam(first, v), TokenParam(second, w)]);
            && ValidParams(suffix)
            && (IsNextLink(suffix) <==>
                  if Lower(first) == "rel" then Lower(v) == "next" else Lower(second) == "rel" && Lower(w) == "next")
  {
    hide Trim, TrimEnd, ValidParam, ValidParams, IsOnePart, RelOf, Lower, Words, TokenParam, Suffix, SplitPlain, IsNextLink, AllToken, FirstRel;
    var parts := [TokenParam(first, v), TokenParam(second, w)];
    TokenParamReads(first, v);
    TokenParamReads(second, w);
    SuffixExactly(parts);
    SuffixSplits(parts);
    SuffixEnds(parts);
    FirstRelOfTwo(parts[0], parts[1]);
    assert parts == [parts[0], parts[1]];
    assert forall i | 0 <= i < |parts| :: ValidParam(parts[i]);
    if Lower(first) == "rel" {
      OneWordDecides(Suffix(parts), parts, v);
    } else if Lower(second) == "rel" {
      OneWordDecides(Suffix(parts), parts, w);
    } else {
      NextIsDecided(Suffix(parts), parts, None, []);
    }
  }

  lemma {:induction false} NextIsDecided(suffix: string, parts: seq<string>, rel: Option<string>, words: seq<string>)
    requires suffix != "" && suffix[0] == ';' && Trim(suffix) == suffix && SplitPlain(suffix[1..], ';') == parts
    requires FirstRel(parts) == rel && (rel.Some? ==> Words(rel.value, "") == words)
    ensures IsNextLink(suffix) <==> rel.Some? && exists i | 0 <= i < |words| :: Lower(words[i]) == "next"
  {
  }

  lemma {:induction false} TwoWords(v: string, w: string, word: string)
    requires (forall i | 0 <= i < |v| :: !IsAsciiWhitespace(v[i])) && word + v != "" && AllToken(w) && w != ""
    ensures Words(v + ([' '] + w), word) == [word + v, w]
    decreases |v|
  {
    var s := v + ([' '] + w);
    if v == "" {
      assert s == [' '] + w;
      assert s[1..] == w && word + v == word;
      TokenIsOneWord(w);
    } else {
      assert s[1..] == v[1..] + ([' '] + w);
      TwoWords(v[1..], w, word + [v[0]]);
      assert word + [v[0]] + v[1..] == word + v;
    }
  }

  /** A quoted list of relations is `next` exactly if one of them is. */
  lemma {:induction false} QuotedListExactly(v: string, w: string)
    requires AllToken(v) && v != "" && AllToken(w) && w != ""
    ensures var suffix := Suffix([[' '] + ("rel" + (['='] + Quote(v + ([' '] + w))))]);
            ValidParams(suffix) && (IsNextLink(suffix) <==> Lower(v) == "next" || Lower(w) == "next")
  {
    hide Trim, TrimEnd, ValidParam, IsOnePart, RelOf, Lower, Words;
    var text := v + ([' '] + w);
    var part := [' '] + ("rel" + (['='] + Quote(text)));
    QuotedListReads(v, w, part);
    var parts := [part];
    TokenText(v);
    TwoWords(v, w, "");
    assert "" + v == v;
    SuffixExactly(parts);
    SuffixSplits(parts);
    SuffixEnds(parts);
    assert parts[1..] == [];
    NextIsDecided(Suffix(parts), parts, Some(text), [v, w]);
    if Lower(w) == "next" {
      assert [v, w][1] == w;
    }
    if Lower(v) == "next" {
      assert [v, w][0] == v;
    }
  }

  lemma {:induction false} QuotedListReads(v: string, w: string, part: string)
    requires AllToken(v) && v != "" && AllToken(w) && w != ""
    requires part == [' '] + ("rel" + (['='] + Quote(v + ([' '] + w))))
    ensures ValidParam(part) && IsOnePart(part) && part[|part| - 1] == '"'
    ensures RelOf(part) == Some(v + ([' '] + w))
  {
    hide Trim, TrimEnd, Find, QuotedString, Unquote, Run, FirstPlain;
    var text := v + ([' '] + w);
    var value := Quote(text);
    TextIsQuotable(v, w);
    QuoteRoundTrip(text);
    QuoteShape(text);
    var p := "rel" + (['='] + value);
    TrimOfPadded(" ", p, "");
    assert " " + (p + "") == part;
    EqualsSplits("rel", value);
    TrimOfPadded("", value, "");
    assert "" + (value + "") == value;
    TrimEndOfPadded("rel", "");
    assert "rel" + "" == "rel";
    RelIsRel();
    QuotedPart("rel", text, part);
  }

  lemma {:induction false} RelIsRel()
    ensures AllToken("rel") && Lower("rel") == "rel"
  {
    assert Lower("rel") == "rel";
  }

  lemma {:induction false} QuoteShape(text: string)
    ensures var value := Quote(text); |value| >= 2 && value[0] == '"' && value[|value| - 1] == '"'
  {
  }

  lemma {:induction false} TextIsQuotable(v: string, w: string)
    requires AllToken(v) && AllToken(w) && w != ""
    ensures var text := v + ([' '] + w);
            text != "" && (forall i | 0 <= i < |text| :: IsQuotable(text[i])) && Escape(text) == text && ';' !in text && '"' !in text
  {
    TokenText(v);
    TokenText(w);
    var text := v + ([' '] + w);
    forall i | 0 <= i < |text|
      ensures IsQuotable(text[i]) && text[i] != '\\' && text[i] != '"' && text[i] != ';'
    {
      assert text[i] in v || text[i] == ' ' || text[i] in w;
    }
    PlainTextIsItsEscape(text);
  }

  lemma {:induction false} PlainTextIsItsEscape(s: string)
    requires forall i | 0 <= i < |s| :: s[i] != '\\' && s[i] != '"'
    ensures Escape(s) == s
  {
    if s != "" {
      PlainTextIsItsEscape(s[1..]);
      assert s == [s[0]] + s[1..];
    }
  }

  lemma {:induction false} QuotedPart(name: string, text: string, part: string)
    requires part == [' '] + (name + (['='] + Quote(text))) && AllToken(name) && ';' !in text && Escape(text) == text
    ensures IsOnePart(part)
  {
    hide FirstPlain;
    TokenText(name);
    QuotedTextHasNoSemicolon(name, text, part);
    NothingToSplit(Plain, part, ';');
    var front := [' '] + (name + ['=']);
    assert part == front + Quote(text);
    NoQuotes(front);
    RunConcat(Plain, front, Quote(text));
    EscapeStaysQuoted(text);
    RunOfQuote(text);
  }

  lemma {:induction false} QuotedTextHasNoSemicolon(name: string, text: string, part: string)
    requires part == [' '] + (name + (['='] + Quote(text))) && ';' !in name && ';' !in text && Escape(text) == text
    ensures ';' !in part
  {
    assert ';' !in Quote(text);
    assert ';' !in ['='] + Quote(text);
    assert ';' !in name + (['='] + Quote(text));
  }

  lemma {:induction false} RunOfQuote(text: string)
    requires Run(Quoted, Escape(text)) == Quoted
    ensures Run(Plain, Quote(text)) == Plain
  {
    var e := Escape(text);
    assert Quote(text) == ['"'] + (e + ['"']);
    assert (['"'] + (e + ['"']))[1..] == e + ['"'];
    RunConcat(Quoted, e, ['"']);
    assert ['"'][1..] == "";
    assert Run(Quoted, ['"']) == Plain;
  }
}
