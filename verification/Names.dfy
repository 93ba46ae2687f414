/** Slash-separated names: splitting, joining, and what names and host names may contain. */
module Names {
  import opened Sequences
  import opened Text

  /** All pieces between separators, empty ones included. */
  function Split(s: string, c: char): (parts: seq<string>)
    ensures |parts| >= 1
  {
    var k := Find(s, c);
    if k == |s| then [s] else [s[..k]] + Split(s[k + 1..], c)
  }

  /** The non-empty pieces. */
  function Segments(s: string): seq<string> {
    NonEmpty(Split(s, '/'))
  }

  function NonEmpty(parts: seq<string>): seq<string> {
    if parts == [] then []
    else (if parts[0] == "" then [] else [parts[0]]) + NonEmpty(parts[1..])
  }

  function Join(parts: seq<string>): string {
    if parts == [] then ""
    else if |parts| == 1 then parts[0]
    else parts[0] + (['/'] + Join(parts[1..]))
  }

  lemma {:induction false} JoinSplit(s: string)
    ensures Join(Split(s, '/')) == s
    decreases |s|
  {
    var k := Find(s, '/');
    if k < |s| {
      JoinSplit(s[k + 1..]);
      JoinMore(s[..k], Split(s[k + 1..], '/'));
      assert s == s[..k] + (['/'] + s[k + 1..]);
    }
  }

  lemma {:induction false} JoinMore(first: string, rest: seq<string>)
    requires rest != []
    ensures Join([first] + rest) == first + (['/'] + Join(rest))
  {
    assert ([first] + rest)[1..] == rest;
  }

  lemma {:induction false} SplitFirst(a: string, b: string, c: char)
    requires c !in a
    ensures Split(a + ([c] + b), c) == [a] + Split(b, c)
  {
    var s := a + ([c] + b);
    assert s[..|a|] == a && s[|a| + 1..] == b;
    FindIs(s, c, |a|);
  }

  lemma {:induction false} SplitNone(a: string, c: char)
    requires c !in a
    ensures Split(a, c) == [a]
  {
    assert a[..|a|] == a;
    FindIs(a, c, |a|);
  }

  lemma {:induction false} SplitConcat(a: string, b: string, c: char)
    ensures Split(a + ([c] + b), c) == Split(a, c) + Split(b, c)
    decreases |a|
  {
    hide Split;
    var k := Find(a, c);
    if k == |a| {
      SplitNone(a, c);
      SplitFirst(a, b, c);
    } else {
      var first, rest := a[..k], a[k + 1..];
      assert a == first + ([c] + rest);
      Reassociate(first, [c] + rest, [c] + b);
      Reassociate([c], rest, [c] + b);
      SplitFirst(first, rest, c);
      SplitFirst(first, rest + ([c] + b), c);
      SplitConcat(rest, b, c);
      Reassociate([first], Split(rest, c), Split(b, c));
    }
  }

  lemma {:induction false} NonEmptyConcat(a: seq<string>, b: seq<string>)
    ensures NonEmpty(a + b) == NonEmpty(a) + NonEmpty(b)
  {
    if a == [] {
      assert a + b == b;
    } else {
      assert (a + b)[1..] == a[1..] + b;
      NonEmptyConcat(a[1..], b);
    }
  }

  /** Segments of two names joined with a slash. */
  lemma {:induction false} SegmentsConcat(a: string, b: string)
    ensures Segments(a + (['/'] + b)) == Segments(a) + Segments(b)
  {
    SplitConcat(a, b, '/');
    NonEmptyConcat(Split(a, '/'), Split(b, '/'));
  }

  lemma {:induction false} SingleSegment(a: string)
    requires a != "" && '/' !in a
    ensures Segments(a) == [a]
  {
    SplitNone(a, '/');
    assert NonEmpty([a]) == [a] + NonEmpty([]);
  }

  predicate IsSegment(s: string) {
    s != "" && '/' !in s
  }

  lemma {:induction false} SplitJoin(parts: seq<string>)
    requires parts != [] && forall i | 0 <= i < |parts| :: IsSegment(parts[i])
    ensures Split(Join(parts), '/') == parts
  {
    if |parts| == 1 {
      SplitNone(parts[0], '/');
    } else {
      SplitFirst(parts[0], Join(parts[1..]), '/');
      SplitJoin(parts[1..]);
    }
  }

  lemma {:induction false} NonEmptyIs(parts: seq<string>)
    ensures NonEmpty(parts) == parts <==> forall i | 0 <= i < |parts| :: parts[i] != ""
    ensures |NonEmpty(parts)| <= |parts|
    ensures forall i | 0 <= i < |NonEmpty(parts)| :: NonEmpty(parts)[i] != "" && NonEmpty(parts)[i] in parts
  {
    if parts != [] {
      NonEmptyIs(parts[1..]);
      assert forall i | 1 <= i < |parts| :: parts[i] == parts[1..][i - 1];
      assert parts == [parts[0]] + parts[1..];
    }
  }

  lemma {:induction false} PiecesAreSlashFree(s: string, c: char)
    ensures forall i | 0 <= i < |Split(s, c)| :: c !in Split(s, c)[i]
    decreases |s|
  {
    var k := Find(s, c);
    if k < |s| {
      PiecesAreSlashFree(s[k + 1..], c);
    } else {
      assert s[..k] == s;
    }
  }

  lemma {:induction false} SegmentsAreSegments(s: string)
    ensures forall i | 0 <= i < |Segments(s)| :: IsSegment(Segments(s)[i])
  {
    PiecesAreSlashFree(s, '/');
    NonEmptyIs(Split(s, '/'));
  }

  /** Joining the segments gives the text back exactly when no piece was empty. */
  lemma {:induction false} JoinSegments(s: string)
    requires s != ""
    ensures Join(Segments(s)) == s <==> Segments(s) == Split(s, '/')
  {
    JoinSplit(s);
    SegmentsAreSegments(s);
    if Join(Segments(s)) == s {
      assert Segments(s) != [];
      SplitJoin(Segments(s));
    }
  }

  /* ---- Slashes around a path ---- */

  function TrimSlashesEnd(s: string): string {
    if s != "" && s[|s| - 1] == '/' then TrimSlashesEnd(s[..|s| - 1]) else s
  }

  function TrimSlashesStart(s: string): string {
    if s != "" && s[0] == '/' then TrimSlashesStart(s[1..]) else s
  }

  function TrimSlashes(s: string): string {
    TrimSlashesEnd(TrimSlashesStart(s))
  }

  lemma {:induction false} TrimSlashesOf(s: string)
    requires s == "" || (s[0] != '/' && s[|s| - 1] != '/')
    ensures TrimSlashes(['/'] + s) == s
  {
    assert (['/'] + s)[1..] == s;
    assert TrimSlashesStart(['/'] + s) == TrimSlashesStart(s) == s;
    assert TrimSlashesEnd(s) == s;
  }

  lemma {:induction false} TrimSlashesEnds(s: string)
    ensures var r := TrimSlashesEnd(s);
            (r == "" || r[|r| - 1] != '/') && r <= s
  {
    if s != "" && s[|s| - 1] == '/' {
      TrimSlashesEnds(s[..|s| - 1]);
    }
  }

  lemma {:induction false} TrimSlashesStarts(s: string)
    ensures var r := TrimSlashesStart(s); r == "" || r[0] != '/'
  {
    if s != "" && s[0] == '/' {
      TrimSlashesStarts(s[1..]);
    }
  }

  lemma {:induction false} TrimmedHasNoOuterSlash(s: string)
    ensures var r := TrimSlashes(s); r == "" || (r[0] != '/' && r[|r| - 1] != '/')
  {
    TrimSlashesStarts(s);
    TrimSlashesEnds(TrimSlashesStart(s));
  }

  lemma {:induction false} JoinEnds(parts: seq<string>)
    requires parts != [] && forall i | 0 <= i < |parts| :: IsSegment(parts[i])
    ensures var s := Join(parts); s != "" && s[0] != '/' && s[|s| - 1] != '/'
  {
    assert parts[0][0] in parts[0];
    if |parts| == 1 {
      assert parts[0][|parts[0]| - 1] in parts[0];
    } else {
      JoinEnds(parts[1..]);
    }
  }

  /* ---- Names ---- */

  predicate IsNameChar(c: char) {
    IsAlphanumeric(c) || c == '.' || c == '_' || c == '-'
  }

  predicate IsValidChartName(s: string) {
    s != "" && IsAlphanumeric(s[0]) && forall i | 0 <= i < |s| :: IsNameChar(s[i])
  }

  /** Alias names cannot look like host names: no dots. */
  predicate IsValidAliasName(s: string) {
    s != "" && IsAlphanumeric(s[0]) && forall i | 0 <= i < |s| :: IsAlphanumeric(s[i]) || s[i] == '_' || s[i] == '-'
  }

  /** Names begin with a letter or a digit; dots, underscores and hyphens come later, dots never in an alias. */
  lemma {:induction false} NamesExactly(c: char, rest: string)
    ensures IsValidChartName([c] + rest) <==>
            IsAlphanumeric(c) && forall i | 0 <= i < |rest| :: IsAlphanumeric(rest[i]) || rest[i] in {'.', '_', '-'}
    ensures IsValidAliasName([c] + rest) <==> IsValidChartName([c] + rest) && '.' !in rest
    ensures !IsValidChartName("") && !IsValidAliasName("")
  {
    var s := [c] + rest;
    assert forall i | 0 <= i < |rest| :: s[i + 1] == rest[i];
  }

  predicate IsHexChar(c: char) {
    IsDigit(c) || 'a' <= c <= 'f' || 'A' <= c <= 'F'
  }

  /** The label forms an IPv4 address can be written in. */
  predicate IsNumericLabel(part: string) {
    if "0x" <= part then |part| > 2 && forall i | 2 <= i < |part| :: IsHexChar(part[i])
    else part != "" && forall i | 0 <= i < |part| :: IsDigit(part[i])
  }

  predicate IsLabel(part: string) {
    && part != "" && part[0] != '-' && part[|part| - 1] != '-'
    && forall i | 0 <= i < |part| :: IsAlphanumeric(part[i]) || part[i] == '-'
  }

  predicate AllAlphanumeric(s: string) {
    forall i | 0 <= i < |s| :: IsAlphanumeric(s[i])
  }

  /** Labels are letters and digits, with hyphens inside only. */
  lemma {:induction false} LabelsExactly(a: string, b: string)
    requires AllAlphanumeric(a) && AllAlphanumeric(b)
    ensures IsLabel(a) <==> a != ""
    ensures IsLabel(a + (['-'] + b)) <==> a != "" && b != ""
    ensures IsLabel(a + b) <==> a + b != ""
  {
  }

  /** A label that is no address part has a character that no digit or `0x` form has. */
  lemma {:induction false} NumericExactly(digits: string, hex: string, other: string)
    requires forall i | 0 <= i < |digits| :: '0' <= digits[i] <= '9'
    requires forall i | 0 <= i < |hex| :: '0' <= hex[i] <= '9' || 'a' <= hex[i] <= 'f'
    requires exists i :: 0 <= i < |other| && !('0' <= other[i] <= '9')
    ensures IsNumericLabel(digits) <==> digits != ""
    ensures IsNumericLabel("0x" + hex) <==> hex != ""
    ensures !("0x" <= other) ==> !IsNumericLabel(other)
  {
    assert ("0x" + hex)[2..] == hex;
    assert "0x"[1] == 'x';
    if |digits| >= 2 {
      assert digits[1] != "0x"[1];
    }
    assert forall i | 0 <= i < |hex| :: ("0x" + hex)[i + 2] == hex[i];
  }

  predicate EndsWith(s: string, suffix: string) {
    |s| >= |suffix| && s[|s| - |suffix|..] == suffix
  }

  /** Public-looking DNS names; `isAddress` is the URL library's reading of IP addresses. */
  predicate IsPublicHostname(host: string, isAddress: string -> bool) {
    var h := Lower(host);
    var labels := Split(h, '.');
    && 0 < |h| <= 253
    && h != "localhost" && !EndsWith(h, ".localhost") && !EndsWith(h, ".local")
    && ':' !in h && ' ' !in h
    && !isAddress(h)
    && !(forall i | 0 <= i < |labels| :: IsNumericLabel(labels[i]))
    && |labels| >= 2
    && forall i | 0 <= i < |labels| :: IsLabel(labels[i])
  }

  /** A text ends in a dot and a given part exactly if that is the last of several labels. */
  lemma {:induction false} LastLabel(s: string, part: string)
    requires '.' !in part
    ensures EndsWith(s, ['.'] + part) <==>
            var labels := Split(s, '.'); |labels| >= 2 && labels[|labels| - 1] == part
    decreases |s|
  {
    var k, labels := Find(s, '.'), Split(s, '.');
    hide EndsWith;
    if EndsWith(s, ['.'] + part) {
      var front := FrontOf(s, ['.'] + part);
      SplitConcat(front, part, '.');
      SplitNone(part, '.');
    } else if k < |s| {
      var rest := s[k + 1..];
      LastLabel(rest, part);
      LastLabelOfRest(s, k, part);
      if |Split(rest, '.')| == 1 {
        assert rest == Split(rest, '.')[0] by { OnePiece(rest); }
      }
    }
  }

  lemma {:induction false} FrontOf(s: string, suffix: string) returns (front: string)
    requires EndsWith(s, suffix)
    ensures s == front + suffix
  {
    front := s[..|s| - |suffix|];
  }

  lemma {:induction false} OnePiece(s: string)
    requires |Split(s, '.')| == 1
    ensures Split(s, '.') == [s]
  {
  }

  lemma {:induction false} LastLabelOfRest(s: string, k: nat, part: string)
    requires k < |s| && s[k] == '.'
    ensures EndsWith(s[k + 1..], ['.'] + part) || s[k + 1..] == part ==> EndsWith(s, ['.'] + part)
  {
    var rest, tail := s[k + 1..], ['.'] + part;
    if EndsWith(rest, tail) {
      assert s[|s| - |tail|..] == rest[|rest| - |tail|..];
    } else if rest == part {
      assert s[|s| - |tail|..] == tail;
    }
  }

  /**
    Public host names, by their labels: at least two, well formed, not all numeric, and the
    last one neither `localhost` nor `local`. What else the program checks follows.
  */
  lemma {:induction false} PublicHostExactly(host: string, isAddress: string -> bool)
    ensures IsPublicHostname(host, isAddress) <==>
            var h := Lower(host);
            var labels := Split(h, '.');
            && |host| <= 253 && |labels| >= 2
            && (forall i | 0 <= i < |labels| :: IsLabel(labels[i]))
            && (exists i :: 0 <= i < |labels| && !IsNumericLabel(labels[i]))
            && labels[|labels| - 1] != "localhost" && labels[|labels| - 1] != "local"
            && !isAddress(h)
  {
    hide IsLabel, IsNumericLabel, Split, EndsWith;
    var h := Lower(host);
    var labels := Split(h, '.');
    LocalNames();
    LastLabel(h, "localhost");
    LastLabel(h, "local");
    assert ['.'] + "localhost" == ".localhost" && ['.'] + "local" == ".local";
    if |labels| >= 2 && forall i | 0 <= i < |labels| :: IsLabel(labels[i]) {
      LabelsMakeNames(h);
    }
  }

  lemma {:induction false} LocalNames()
    ensures Split("localhost", '.') == ["localhost"] && '.' !in "localhost" && '.' !in "local" && Split("", '.') == [""]
  {
    SplitNone("localhost", '.');
    SplitNone("", '.');
  }

  lemma {:induction false} LabelsMakeNames(h: string)
    requires forall i | 0 <= i < |Split(h, '.')| :: IsLabel(Split(h, '.')[i])
    ensures h != "" && ':' !in h && ' ' !in h
  {
    hide Split;
    LabelsHaveNoSlash(h);
    EmptyHasNoLabel();
  }

  lemma {:induction false} EmptyHasNoLabel()
    ensures |Split("", '.')| == 1 && !IsLabel(Split("", '.')[0])
  {
    SplitNone("", '.');
  }

  lemma {:induction false} LowerTwice(s: string)
    ensures Lower(Lower(s)) == Lower(s)
  {
  }

  lemma {:induction false} LabelsHaveNoSlash(s: string)
    requires forall i | 0 <= i < |Split(s, '.')| :: IsLabel(Split(s, '.')[i])
    ensures forall i | 0 <= i < |s| :: IsAlphanumeric(s[i]) || s[i] == '-' || s[i] == '.'
    decreases |s|
  {
    var k := Find(s, '.');
    var labels := Split(s, '.');
    assert IsLabel(labels[0]);
    if k < |s| {
      var rest := Split(s[k + 1..], '.');
      assert forall i | 0 <= i < |rest| :: rest[i] == labels[i + 1];
      LabelsHaveNoSlash(s[k + 1..]);
      assert forall i | 0 <= i < k :: s[i] == labels[0][i];
      assert forall i | k < i < |s| :: s[i] == s[k + 1..][i - k - 1];
    }
  }

  /** A public host name is one path segment and, having a dot, never an alias name. */
  lemma {:induction false} PublicHostIsSegment(host: string, isAddress: string -> bool)
    requires IsPublicHostname(host, isAddress)
    ensures IsSegment(Lower(host)) && !IsValidAliasName(Lower(host))
    ensures IsPublicHostname(Lower(host), isAddress)
  {
    var h := Lower(host);
    LowerTwice(host);
    LabelsHaveNoSlash(h);
    if '.' !in h {
      SplitNone(h, '.');
    } else {
      var i :| 0 <= i < |h| && h[i] == '.';
    }
  }

  lemma {:induction false} ValidNameIsSegment(s: string)
    requires IsValidChartName(s) || IsValidAliasName(s)
    ensures IsSegment(s)
  {
  }
}
