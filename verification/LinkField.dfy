/**
  `Link` field parsing: values, parameters and whole fields, with the grammar the
  parser is proved to accept exactly.
*/
module LinkField {
  import opened Wrappers
  import opened Sequences
  import opened Text
  import opened LinkLexer

  /** One link-value: target text and its parameter suffix, kept verbatim. */
  datatype LinkValue = LinkValue(uri: string, params: string)

  predicate AllToken(s: string) {
    forall i | 0 <= i < |s| :: IsTokenChar(s[i])
  }

  predicate AllField(s: string) {
    forall i | 0 <= i < |s| :: IsFieldChar(s[i])
  }

  /* ---- Parameters ---- */

  predicate ValidParam(parameter: string) {
    var p := Trim(parameter);
    var k := Find(p, '=');
    var name := if k < |p| then TrimEnd(p[..k]) else p;
    && name != "" && AllToken(name)
    && (k < |p| ==>
          var value := Trim(p[k + 1..]);
          QuotedString(value) || (value != "" && AllToken(value)))
  }

  predicate AllValid(parts: seq<string>) {
    forall i | 0 <= i < |parts| :: ValidParam(parts[i])
  }

  predicate ValidParams(params: string) {
    var p := Trim(params);
    p == "" || (p[0] == ';' && AllValid(SplitPlain(p[1..], ';')))
  }

  /** Reads as printable text with no unquoted comma and ends outside quotes. */
  predicate Clean(q: Lex, s: string)
    decreases |s|
  {
    if s == "" then q == Plain
    else IsFieldChar(s[0]) && !(q == Plain && s[0] == ',') && Clean(Next(q, s[0]), s[1..])
  }

  lemma {:induction false} CleanMeans(q: Lex, s: string)
    requires Clean(q, s)
    ensures AllField(s) && FirstPlain(q, s, ',') == |s| && Run(q, s) == Plain
    decreases |s|
  {
    if s != "" {
      CleanMeans(Next(q, s[0]), s[1..]);
      assert s == [s[0]] + s[1..];
    }
  }

  lemma {:induction false} CleanConcat(q: Lex, a: string, b: string)
    requires Clean(q, a) && Clean(Plain, b)
    ensures Clean(q, a + b)
    decreases |a|
  {
    if a == "" {
      assert a + b == b;
    } else {
      assert (a + b)[1..] == a[1..] + b;
      CleanConcat(Next(q, a[0]), a[1..], b);
    }
  }

  lemma {:induction false} SimpleTextIsClean(s: string)
    requires forall i | 0 <= i < |s| :: IsTokenChar(s[i]) || IsOws(s[i])
    ensures Clean(Plain, s)
    decreases |s|
  {
    if s != "" {
      SimpleTextIsClean(s[1..]);
    }
  }

  lemma {:induction false} QuotedStringIsClean(v: string, k: nat)
    requires QuotedString(v) && k <= |v|
    ensures Clean(Run(Plain, v[..k]), v[k..])
    decreases |v| - k
  {
    if k == |v| {
      assert v[..k] == v;
    } else {
      RunStep(Plain, v, k);
      QuotedStringIsClean(v, k + 1);
      assert v[k..][1..] == v[k + 1..];
    }
  }

  lemma {:induction false} CleanPadded(left: string, core: string, right: string)
    requires AllOws(left) && AllOws(right) && Clean(Plain, core)
    ensures Clean(Plain, left + core + right)
  {
    SimpleTextIsClean(left);
    SimpleTextIsClean(right);
    CleanConcat(Plain, left, core);
    CleanConcat(Plain, left + core, right);
  }

  lemma {:induction false} CleanJoin(a: string, c: char, b: string)
    requires Clean(Plain, a) && Clean(Plain, b) && (c == '=' || c == ';')
    ensures Clean(Plain, a + [c] + b)
  {
    assert Clean(Plain, [c]) by { assert [c][1..] == ""; }
    CleanConcat(Plain, a, [c]);
    CleanConcat(Plain, a + [c], b);
  }

  lemma {:induction false} ValueIsClean(text: string)
    requires var value := Trim(text); QuotedString(value) || AllToken(value)
    ensures Clean(Plain, text)
  {
    var value := Trim(text);
    var left, right := TrimSplits(text);
    if QuotedString(value) {
      QuotedStringIsClean(value, 0);
      assert value[0..] == value && value[..0] == "";
    } else {
      SimpleTextIsClean(value);
    }
    CleanPadded(left, value, right);
  }

  lemma {:induction false} ValidParamIsClean(parameter: string)
    requires ValidParam(parameter)
    ensures Clean(Plain, parameter)
  {
    hide Clean, Trim, TrimEnd, QuotedString, IsTokenChar;
    var p := Trim(parameter);
    var left, right := TrimSplits(parameter);
    var k := Find(p, '=');
    if k == |p| {
      SimpleTextIsClean(p);
    } else {
      var pad := TrimEndSplits(p[..k]);
      SimpleTextIsClean(p[..k]);
      ValueIsClean(p[k + 1..]);
      CleanJoin(p[..k], '=', p[k + 1..]);
      assert p == p[..k] + [p[k]] + p[k + 1..];
    }
    CleanPadded(left, p, right);
  }

  lemma {:induction false} CleanPartsAreClean(s: string)
    requires AllValid(SplitPlain(s, ';'))
    ensures Clean(Plain, s)
    decreases |s|
  {
    var k := FirstPlain(Plain, s, ';');
    var parts := SplitPlain(s, ';');
    ValidParamIsClean(parts[0]);
    if k < |s| {
      var rest := SplitPlain(s[k + 1..], ';');
      assert parts == [s[..k]] + rest;
      assert forall i | 0 <= i < |rest| :: rest[i] == parts[i + 1];
      CleanPartsAreClean(s[k + 1..]);
      CleanJoin(s[..k], ';', s[k + 1..]);
      assert s == s[..k] + [s[k]] + s[k + 1..];
    }
  }

  /**
    The three scanners agree: a parameter suffix that the semicolon scanner and the
    quoted-string check accept contains no comma the comma scanner would stop at.
  */
  lemma {:induction false} ValidParamsAreClean(params: string)
    requires ValidParams(params)
    ensures Clean(Plain, params)
  {
    var p := Trim(params);
    var left, right := TrimSplits(params);
    if p != "" {
      CleanPartsAreClean(p[1..]);
      CleanJoin("", ';', p[1..]);
      assert p == "" + [p[0]] + p[1..];
    }
    CleanPadded(left, p, right);
  }

  method CheckParam(parameter: string) returns (valid: bool)
    ensures valid <==> ValidParam(parameter)
  {
    var p := Trim(parameter);
    var k := Find(p, '=');
    var name := if k < |p| then TrimEnd(p[..k]) else p;
    if name == "" || !AllToken(name) {
      return false;
    }
    if k == |p| {
      return true;
    }
    var value := Trim(p[k + 1..]);
    var quoted := IsQuotedString(value);
    return quoted || (value != "" && AllToken(value));
  }

  method CheckAll(parts: seq<string>) returns (valid: bool)
    ensures valid <==> AllValid(parts)
  {
    for i := 0 to |parts|
      invariant forall j | 0 <= j < i :: ValidParam(parts[j])
    {
      var good := CheckParam(parts[i]);
      if !good {
        return false;
      }
    }
    return true;
  }

  method CheckParams(params: string) returns (valid: bool)
    ensures valid <==> ValidParams(params)
  {
    var p := Trim(params);
    if p == "" {
      return true;
    }
    if p[0] != ';' {
      return false;
    }
    var parts := SplitLinkParams(p[1..]);
    valid := CheckAll(parts);
  }

  /* ---- What is a valid suffix ---- */

  /** Not empty, and no white space at either end. */
  predicate IsTrimmed(s: string) {
    s != "" && !IsOws(s[0]) && !IsOws(s[|s| - 1])
  }

  /** A parameter with a value, white space allowed around name and value: tokens, or a quoted string for value. */
  lemma {:induction false} ParamExactly(left: string, name: string, gap: string, space: string, value: string, right: string)
    requires AllOws(left) && AllOws(gap) && AllOws(space) && AllOws(right)
    requires IsTrimmed(name) && '=' !in name && IsTrimmed(value)
    ensures ValidParam(left + ((name + (gap + (['='] + (space + value)))) + right)) <==>
            AllToken(name) && (QuotedString(value) || AllToken(value))
  {
    hide QuotedString, AllToken, Trim, TrimEnd, Find;
    var before, after := name + gap, space + value;
    var p := name + (gap + (['='] + after));
    assert p == before + (['='] + after);
    TrimOfPadded(left, p, right);
    EqualsSplits(before, after);
    TrimEndOfPadded(name, gap);
    TrimOfPadded(space, value, "");
    assert value + "" == value;
  }

  lemma {:induction false} EqualsSplits(before: string, after: string)
    requires '=' !in before
    ensures var p := before + (['='] + after);
            Find(p, '=') == |before| < |p| && p[..|before|] == before && p[|before| + 1..] == after
  {
    FindIs(before + (['='] + after), '=', |before|);
  }

  /** A parameter without a value: a token. */
  lemma {:induction false} BareParamExactly(left: string, name: string, right: string)
    requires AllOws(left) && AllOws(right) && IsTrimmed(name) && '=' !in name
    ensures ValidParam(left + (name + right)) <==> AllToken(name)
  {
    TrimOfPadded(left, name, right);
    FindIs(name, '=', |name|);
  }

  /** A name or a value that is missing makes a parameter invalid. */
  lemma {:induction false} MissingPieces(left: string, name: string, gap: string, rest: string)
    requires AllOws(left) && AllOws(gap)
    ensures !ValidParam(left)
    ensures IsTrimmed(rest) ==> !ValidParam(left + ((['='] + rest) + gap))
    ensures IsTrimmed(name) && '=' !in name ==> !ValidParam(left + ((name + ['=']) + gap))
  {
    OnlyOws(left);
    if IsTrimmed(rest) {
      TrimOfPadded(left, ['='] + rest, gap);
      FindIs(['='] + rest, '=', 0);
      assert (['='] + rest)[..0] == "";
    }
    if IsTrimmed(name) && '=' !in name {
      var p := name + ['='];
      TrimOfPadded(left, p, gap);
      FindIs(p, '=', |name|);
      assert p[|name| + 1..] == "";
    }
  }

  lemma {:induction false} OnlyOws(s: string)
    requires AllOws(s)
    ensures Trim(s) == ""
  {
    if s != "" {
      OnlyOws(s[1..]);
    }
  }

  /** Parameters, each behind a semicolon. */
  function Suffix(parts: seq<string>): string {
    if parts == [] then "" else [';'] + (parts[0] + Suffix(parts[1..]))
  }

  /** No semicolon outside quotes, and no open quote at the end. */
  predicate IsOnePart(part: string) {
    FirstPlain(Plain, part, ';') == |part| && Run(Plain, part) == Plain
  }

  lemma {:induction false} SuffixSplits(parts: seq<string>)
    requires parts != [] && forall i | 0 <= i < |parts| :: IsOnePart(parts[i])
    ensures SplitPlain(Suffix(parts)[1..], ';') == parts
  {
    hide Run;
    var first, more := parts[0], parts[1..];
    assert Suffix(parts)[1..] == first + Suffix(more);
    if more == [] {
      assert first + "" == first;
    } else {
      SuffixSplits(more);
      FirstPlainConcat(Plain, first, Suffix(more), ';');
      var s := first + Suffix(more);
      assert s[..|first|] == first && s[|first| + 1..] == Suffix(more)[1..];
    }
  }

  lemma {:induction false} SuffixEnds(parts: seq<string>)
    requires parts != [] && parts[|parts| - 1] != ""
    ensures var s, last := Suffix(parts), parts[|parts| - 1];
            s != "" && s[0] == ';' && s[|s| - 1] == last[|last| - 1]
  {
    if |parts| > 1 {
      SuffixEnds(parts[1..]);
    }
  }

  /** A list of parameters behind semicolons is valid exactly if each is. */
  lemma {:induction false} SuffixExactly(parts: seq<string>)
    requires parts != [] && forall i | 0 <= i < |parts| :: IsOnePart(parts[i])
    requires var last := parts[|parts| - 1]; last != "" && !IsOws(last[|last| - 1])
    ensures ValidParams(Suffix(parts)) <==> forall i | 0 <= i < |parts| :: ValidParam(parts[i])
    ensures Trim(Suffix(parts)) == Suffix(parts) && TrimEnd(Suffix(parts)) == Suffix(parts)
  {
    hide ValidParam, IsOnePart;
    var s := Suffix(parts);
    SuffixEnds(parts);
    SuffixSplits(parts);
    TrimOfPadded("", s, "");
    assert "" + (s + "") == s;
  }

  /* ---- Fields ---- */

  predicate IsSeparator(c: char) {
    IsOws(c) || c == ','
  }

  predicate AllSeparators(s: string) {
    forall i | 0 <= i < |s| :: IsSeparator(s[i])
  }

  /** What is left after the separators in front of a link-value. */
  function DropSeparators(s: string): (r: string)
    ensures |r| <= |s|
  {
    if s != "" && IsSeparator(s[0]) then DropSeparators(s[1..]) else s
  }

  lemma {:induction false} DropSeparatorsSplits(s: string) returns (pad: string)
    ensures s == pad + DropSeparators(s) && AllSeparators(pad)
  {
    hide IsSeparator;
    if s != "" && IsSeparator(s[0]) {
      var inner := DropSeparatorsSplits(s[1..]);
      pad := [s[0]] + inner;
      assert s == [s[0]] + s[1..];
      Reassociate([s[0]], inner, DropSeparators(s[1..]));
    } else {
      pad := "";
    }
  }

  /** One round of the parser: no more links, a malformed rest, or a link and what follows it. */
  datatype Head = Done | Bad | Value(link: LinkValue, rest: string)

  function ParseHead(s: string): (h: Head)
    ensures h.Value? ==> |h.rest| < |s|
  {
    var t := DropSeparators(s);
    if t == "" then Done
    else if t[0] != '<' then Bad
    else
      var u := t[1..];
      var close := Find(u, '>');
      if close == |u| then Bad
      else
        var rest := u[close + 1..];
        var k := FirstPlain(Plain, rest, ',');
        var params := TrimEnd(rest[..k]);
        if Run(Plain, rest[..k]) != Plain || !ValidParams(params) then Bad
        else Value(LinkValue(u[..close], params), rest[k..])
  }

  /** The parser on the rest of a field. */
  function ParseLinks(s: string): (r: Option<seq<LinkValue>>)
    decreases |s|
  {
    match ParseHead(s)
    case Done => Some([])
    case Bad => None
    case Value(link, rest) => Prepend([link], ParseLinks(rest))
  }

  function Prepend(links: seq<LinkValue>, more: Option<seq<LinkValue>>): Option<seq<LinkValue>> {
    match more
    case None => None
    case Some(rest) => Some(links + rest)
  }

  function ParseField(field: string): Option<seq<LinkValue>> {
    if AllField(field) then ParseLinks(field) else None
  }

  method SkipSeparators(field: string, start: nat) returns (position: nat)
    requires start <= |field|
    ensures start <= position <= |field| && field[position..] == DropSeparators(field[start..])
  {
    position := start;
    while position < |field| && IsSeparator(field[position])
      invariant start <= position <= |field|
      invariant DropSeparators(field[start..]) == DropSeparators(field[position..])
    {
      assert field[position..][1..] == field[position + 1..];
      position := position + 1;
    }
  }

  /** One pass of the parser loop: separators, the bracketed target, the parameter suffix. */
  method ParseOne(field: string, start: nat) returns (head: Head, position: nat)
    requires start <= |field|
    ensures head == ParseHead(field[start..])
    ensures head.Value? ==> start < position <= |field| && head.rest == field[position..]
  {
    hide DropSeparators, Find, FirstPlain, Run, TrimEnd, ValidParams;
    position := SkipSeparators(field, start);
    ghost var t := field[position..];
    if position == |field| {
      return Done, position;
    }
    if field[position] != '<' {
      return Bad, position;
    }
    position := position + 1;
    var uriStart := position;
    ghost var u := t[1..];
    assert u == field[uriStart..];
    position := FindFrom(field, uriStart, '>');
    if position == |field| {
      return Bad, position;
    }
    var uri := field[uriStart..position];
    assert uri == u[..position - uriStart];
    position := position + 1;

    var paramsStart := position;
    ghost var rest := field[paramsStart..];
    assert rest == u[Find(u, '>') + 1..];
    var inQuotes;
    position, inQuotes := ScanParams(field, paramsStart);
    if inQuotes || position > |field| {
      return Bad, position;
    }
    assert field[paramsStart..position] == rest[..position - paramsStart];
    var params := TrimEnd(field[paramsStart..position]);
    var valid := CheckParams(params);
    if !valid {
      return Bad, position;
    }
    assert field[position..] == rest[position - paramsStart..];
    return Value(LinkValue(uri, params), field[position..]), position;
  }

  method FindFrom(field: string, start: nat, c: char) returns (position: nat)
    requires start <= |field|
    ensures position == start + Find(field[start..], c)
  {
    position := start;
    while position < |field| && field[position] != c
      invariant start <= position <= |field|
      invariant forall i | start <= i < position :: field[i] != c
    {
      position := position + 1;
    }
    FindIs(field[start..], c, position - start);
  }

  method ParseLinkField(field: string) returns (r: Option<seq<LinkValue>>)
    ensures r == ParseField(field)
  {
    if !AllField(field) {
      return None;
    }
    var links: seq<LinkValue> := [];
    var position := 0;
    assert field[position..] == field;
    PrependNothing(ParseLinks(field));
    while true
      invariant position <= |field|
      invariant ParseLinks(field) == Prepend(links, ParseLinks(field[position..]))
      decreases |field| - position
    {
      var head, next := ParseOne(field, position);
      match head {
        case Done =>
          assert links + [] == links;
          return Some(links);
        case Bad =>
          return None;
        case Value(link, _) =>
          PrependTwice(links, [link], ParseLinks(field[next..]));
          links := links + [link];
          position := next;
      }
    }
  }

  lemma {:induction false} PrependNothing(more: Option<seq<LinkValue>>)
    ensures Prepend([], more) == more
  {
    if more.Some? {
      assert [] + more.value == more.value;
    }
  }

  lemma {:induction false} PrependTwice(a: seq<LinkValue>, b: seq<LinkValue>, more: Option<seq<LinkValue>>)
    ensures Prepend(a, Prepend(b, more)) == Prepend(a + b, more)
  {
    if more.Some? {
      assert a + (b + more.value) == (a + b) + more.value;
    }
  }

  /* ---- The grammar ---- */

  predicate GoodLink(link: LinkValue) {
    && '>' !in link.uri && AllField(link.uri)
    && ValidParams(link.params) && TrimEnd(link.params) == link.params
  }

  predicate GoodLinks(links: seq<LinkValue>) {
    forall i | 0 <= i < |links| :: GoodLink(links[i])
  }

  /** One gap before each link and one after the last; a comma between any two links. */
  predicate GoodGaps(links: seq<LinkValue>, gaps: seq<string>) {
    && |gaps| == |links| + 1
    && (forall i | 0 <= i < |gaps| :: AllSeparators(gaps[i]))
    && (forall i | 1 <= i < |links| :: ',' in gaps[i])
  }

  function LinkText(link: LinkValue): string {
    "<" + link.uri + ">" + link.params
  }

  function Render(links: seq<LinkValue>, gaps: seq<string>): string
    requires |gaps| == |links| + 1
  {
    if links == [] then gaps[0]
    else gaps[0] + (LinkText(links[0]) + Render(links[1..], gaps[1..]))
  }

  lemma {:induction false} DropSeparatorsOf(pad: string, t: string)
    requires AllSeparators(pad)
    ensures DropSeparators(pad + t) == DropSeparators(t)
    decreases |pad|
  {
    if pad == "" {
      assert pad + t == t;
    } else {
      assert (pad + t)[1..] == pad[1..] + t;
      DropSeparatorsOf(pad[1..], t);
    }
  }

  /** The parameters run up to the first comma of the gap that follows them. */
  lemma {:induction false} CommaInGap(gap: string, t: string) returns (k: nat)
    requires AllSeparators(gap) && (',' in gap || t == "")
    ensures k == FirstPlain(Plain, gap + t, ',') <= |gap|
    ensures AllOws((gap + t)[..k])
    decreases |gap|
  {
    if gap == "" {
      k := 0;
      assert gap + t == "";
    } else if gap[0] == ',' {
      k := 0;
    } else {
      assert (gap + t)[1..] == gap[1..] + t;
      var j := CommaInGap(gap[1..], t);
      k := j + 1;
      assert forall i | 1 <= i < k :: (gap + t)[i] == (gap[1..] + t)[..j][i - 1];
    }
  }

  lemma {:induction false} BracketReads(link: LinkValue, tail: string)
    requires '>' !in link.uri
    ensures var body := LinkText(link) + tail;
            && body != "" && body[0] == '<'
            && var u := body[1..];
               && Find(u, '>') == |link.uri| < |u|
               && u[..|link.uri|] == link.uri
               && u[|link.uri| + 1..] == link.params + tail
  {
    var u := (LinkText(link) + tail)[1..];
    assert u == link.uri + (['>'] + (link.params + tail));
    FindIs(u, '>', |link.uri|);
  }

  /** One round on a rendered link reads back that link and leaves the gap from its first comma on. */
  lemma {:induction false} HeadOfRendered(pad: string, link: LinkValue, gap: string, after: string) returns (k: nat)
    requires AllSeparators(pad) && GoodLink(link)
    requires AllSeparators(gap) && (',' in gap || after == "")
    ensures k <= |gap| && AllOws(gap[..k])
    ensures ParseHead(pad + (LinkText(link) + (gap + after))) == Value(link, gap[k..] + after)
  {
    hide ValidParams, TrimEnd, FirstPlain, Run, Find, LinkText;
    var tail := gap + after;
    var body := LinkText(link) + tail;
    DropSeparatorsOf(pad, body);
    BracketReads(link, tail);
    k := CommaInGap(gap, after);
    assert tail[..k] == gap[..k] && tail[k..] == gap[k..] + after;
    ParamsEnd(link.params, tail, k);
  }

  lemma {:induction false} ParamsEnd(params: string, tail: string, k: nat)
    requires ValidParams(params) && TrimEnd(params) == params
    requires k == FirstPlain(Plain, tail, ',') && AllOws(tail[..k])
    ensures var rest := params + tail;
            var n := FirstPlain(Plain, rest, ',');
            n == |params| + k && TrimEnd(rest[..n]) == params && Run(Plain, rest[..n]) == Plain && rest[n..] == tail[k..]
  {
    hide ValidParams, FirstPlain, Run, Clean, TrimEnd;
    ValidParamsAreClean(params);
    CleanMeans(Plain, params);
    FirstPlainConcat(Plain, params, tail, ',');
    assert (params + tail)[..|params| + k] == params + tail[..k];
    SimpleTextIsClean(tail[..k]);
    CleanMeans(Plain, tail[..k]);
    RunConcat(Plain, params, tail[..k]);
    var _ := TrimEndSplits(params);
    TrimEndOfPadded(params, tail[..k]);
  }

  /** What follows the first gap of a rendered list. */
  function AfterGap(links: seq<LinkValue>, gaps: seq<string>): string
    requires |gaps| == |links| + 1
  {
    if links == [] then "" else LinkText(links[0]) + Render(links[1..], gaps[1..])
  }

  lemma {:induction false} RenderSplits(links: seq<LinkValue>, gaps: seq<string>)
    requires |gaps| == |links| + 1
    ensures Render(links, gaps) == gaps[0] + AfterGap(links, gaps)
  {
  }

  lemma {:induction false} ParsePadded(pad: string, t: string)
    requires AllOws(pad)
    ensures ParseLinks(pad + t) == ParseLinks(t)
  {
    hide FirstPlain, Run, Find, ValidParams, TrimEnd;
    DropSeparatorsOf(pad, t);
    assert ParseHead(pad + t) == ParseHead(t);
  }

  lemma {:induction false} GoodTail(links: seq<LinkValue>, gaps: seq<string>)
    requires GoodLinks(links) && GoodGaps(links, gaps) && links != []
    ensures GoodLinks(links[1..]) && GoodGaps(links[1..], gaps[1..])
    ensures ',' in gaps[1] || AfterGap(links[1..], gaps[1..]) == ""
    ensures Render(links, gaps) == gaps[0] + (LinkText(links[0]) + (gaps[1] + AfterGap(links[1..], gaps[1..])))
  {
    RenderSplits(links[1..], gaps[1..]);
  }

  lemma {:induction false} OneMore(pad: string, link: LinkValue, gap: string, after: string, more: seq<LinkValue>)
    requires AllSeparators(pad) && GoodLink(link)
    requires AllSeparators(gap) && (',' in gap || after == "")
    requires ParseLinks(gap + after) == Some(more)
    ensures ParseLinks(pad + (LinkText(link) + (gap + after))) == Some([link] + more)
  {
    hide GoodLink, LinkText, DropSeparators, ParseHead;
    var k := HeadOfRendered(pad, link, gap, after);
    assert gap + after == gap[..k] + (gap[k..] + after);
    ParsePadded(gap[..k], gap[k..] + after);
  }

  lemma {:induction false} ParseGap(gap: string)
    requires AllSeparators(gap)
    ensures ParseLinks(gap) == Some([])
  {
    DropSeparatorsOf(gap, "");
    assert gap + "" == gap;
  }

  lemma {:induction false} RenderParses(links: seq<LinkValue>, gaps: seq<string>)
    requires GoodLinks(links) && GoodGaps(links, gaps)
    ensures ParseLinks(Render(links, gaps)) == Some(links)
    decreases |links|
  {
    hide GoodLink, ParseHead, ParseLinks, LinkText;
    if links == [] {
      ParseGap(gaps[0]);
    } else {
      var more, rest := links[1..], gaps[1..];
      GoodTail(links, gaps);
      RenderParses(more, rest);
      RenderSplits(more, rest);
      OneMore(gaps[0], links[0], rest[0], AfterGap(more, rest), more);
      assert links == [links[0]] + more;
    }
  }

  /** One round of the parser takes a gap, a good link and trailing white space off the front. */
  lemma {:induction false} HeadDecomposes(s: string) returns (gap: string, pad: string)
    requires AllField(s) && ParseHead(s).Value?
    ensures var h := ParseHead(s);
            && AllSeparators(gap) && AllOws(pad) && GoodLink(h.link)
            && s == gap + (LinkText(h.link) + (pad + h.rest))
            && (h.rest == "" || h.rest[0] == ',')
  {
    hide ValidParams, FirstPlain, Run;
    var h := ParseHead(s);
    var t := DropSeparators(s);
    gap := DropSeparatorsSplits(s);
    var u := t[1..];
    var close := Find(u, '>');
    var rest := u[close + 1..];
    var k := FirstPlain(Plain, rest, ',');
    pad := TrimEndSplits(rest[..k]);
    TrimEndIdempotent(rest[..k]);
    BracketSplits(t, close, TrimEnd(rest[..k]), pad, k);
    assert AllField(u[..close]) by {
      assert forall i | 0 <= i < close :: u[..close][i] == s[|gap| + 1 + i];
    }
  }

  lemma {:induction false} TrimEndIdempotent(s: string)
    ensures TrimEnd(TrimEnd(s)) == TrimEnd(s)
  {
    var pad := TrimEndSplits(s);
    TrimEndOfPadded(TrimEnd(s), "");
    assert TrimEnd(s) + "" == TrimEnd(s);
  }

  lemma {:induction false} BracketSplits(t: string, close: nat, params: string, pad: string, k: nat)
    requires |t| >= 1 && t[0] == '<' && close + 1 < |t| && t[close + 1] == '>'
    requires k <= |t| - close - 2 && t[close + 2..][..k] == params + pad
    ensures t == LinkText(LinkValue(t[1..][..close], params)) + (pad + t[close + 2..][k..])
  {
    var rest := t[close + 2..];
    assert t == "<" + t[1..][..close] + ">" + rest;
    assert rest == params + (pad + rest[k..]);
  }

  lemma {:induction false} ParsedIsRendered(s: string) returns (gaps: seq<string>)
    requires AllField(s) && ParseLinks(s).Some?
    ensures var links := ParseLinks(s).value;
            GoodLinks(links) && GoodGaps(links, gaps) && s == Render(links, gaps)
    decreases |s|
  {
    var h := ParseHead(s);
    if h.Done? {
      var pad := DropSeparatorsSplits(s);
      assert s == pad;
      gaps := [s];
    } else {
      var gap, pad := HeadDecomposes(s);
      assert h.rest == s[|s| - |h.rest|..];
      var more := ParsedIsRendered(h.rest);
      var links := ParseLinks(h.rest).value;
      gaps := AddGap(gap, h.link, pad, links, more);
    }
  }

  lemma {:induction false} AddGap(gap: string, link: LinkValue, pad: string, links: seq<LinkValue>, more: seq<string>)
    returns (gaps: seq<string>)
    requires AllSeparators(gap) && AllOws(pad) && GoodLink(link)
    requires GoodLinks(links) && GoodGaps(links, more)
    requires var rest := Render(links, more); rest == "" || rest[0] == ','
    ensures var all := [link] + links;
            && GoodLinks(all) && GoodGaps(all, gaps)
            && Render(all, gaps) == gap + (LinkText(link) + (pad + Render(links, more)))
  {
    var all := [link] + links;
    var padded := [pad + more[0]] + more[1..];
    gaps := [gap] + padded;
    CommaStays(pad, links, more);
    assert GoodLinks(all) by {
      assert forall i | 1 <= i < |all| :: all[i] == links[i - 1];
    }
    assert GoodGaps(all, gaps) by {
      assert forall i | 1 <= i < |gaps| :: gaps[i] == padded[i - 1];
      assert forall i | 1 <= i < |padded| :: padded[i] == more[i];
    }
    assert all[1..] == links && gaps[1..] == padded;
    PadRendered(pad, links, more);
  }

  lemma {:induction false} CommaStays(pad: string, links: seq<LinkValue>, gaps: seq<string>)
    requires |gaps| == |links| + 1
    requires var rest := Render(links, gaps); rest == "" || rest[0] == ','
    ensures links != [] ==> ',' in pad + gaps[0]
  {
    if links != [] {
      RenderSplits(links, gaps);
      assert AfterGap(links, gaps)[0] == '<';
      assert (pad + gaps[0])[|pad|] == ',';
    }
  }

  lemma {:induction false} PadRendered(pad: string, links: seq<LinkValue>, gaps: seq<string>)
    requires |gaps| == |links| + 1
    ensures Render(links, [pad + gaps[0]] + gaps[1..]) == pad + Render(links, gaps)
  {
    var padded := [pad + gaps[0]] + gaps[1..];
    assert padded[1..] == gaps[1..];
    RenderSplits(links, gaps);
    RenderSplits(links, padded);
    Reassociate(pad, gaps[0], AfterGap(links, gaps));
  }

  lemma {:induction false} RenderIsField(links: seq<LinkValue>, gaps: seq<string>)
    requires GoodLinks(links) && GoodGaps(links, gaps)
    ensures AllField(Render(links, gaps))
    decreases |links|
  {
    hide ValidParams, Clean, FirstPlain, Run, TrimEnd;
    if links != [] {
      RenderIsField(links[1..], gaps[1..]);
      ValidParamsAreClean(links[0].params);
      CleanMeans(Plain, links[0].params);
    }
  }

  /**
    Main result: the parser accepts exactly the rendered lists of good links, and
    returns the list that was rendered. Everything else is rejected.
  */
  lemma {:induction false} FieldGrammar(field: string, links: seq<LinkValue>)
    ensures ParseField(field) == Some(links) <==>
            GoodLinks(links) && exists gaps :: GoodGaps(links, gaps) && field == Render(links, gaps)
  {
    if ParseField(field) == Some(links) {
      var gaps := ParsedIsRendered(field);
    }
    if GoodLinks(links) && exists gaps :: GoodGaps(links, gaps) && field == Render(links, gaps) {
      var gaps :| GoodGaps(links, gaps) && field == Render(links, gaps);
      RenderParses(links, gaps);
      RenderIsField(links, gaps);
    }
  }

  /** The usual printed form: link-values joined with a comma and a space. */
  function CommaGaps(n: nat): (gaps: seq<string>)
    ensures |gaps| == n + 1
  {
    seq(n + 1, i => if 0 < i < n then ", " else "")
  }

  /** Printing any list of good links and parsing it back is the identity. */
  lemma {:induction false} RoundTrip(links: seq<LinkValue>)
    requires GoodLinks(links)
    ensures ParseField(Render(links, CommaGaps(|links|))) == Some(links)
  {
    hide GoodLink, Render, ParseLinks, AllField;
    var gaps := CommaGaps(|links|);
    assert GoodGaps(links, gaps) by {
      forall i | 0 < i < |links| ensures ',' in gaps[i] {
        assert gaps[i][0] == ',';
      }
    }
    RenderParses(links, gaps);
    RenderIsField(links, gaps);
  }

  /** A single link is its own printed form. */
  lemma {:induction false} SingleLink(link: LinkValue)
    requires GoodLink(link)
    ensures ParseField(LinkText(link)) == Some([link])
  {
    var links, gaps := [link], ["", ""];
    RenderParses(links, gaps);
    RenderIsField(links, gaps);
    assert links[1..] == [] && gaps[1..] == [""];
    assert Render([], [""]) == "";
    assert Render(links, gaps) == "" + (LinkText(link) + "");
    assert Render(links, gaps) == LinkText(link);
  }
}
