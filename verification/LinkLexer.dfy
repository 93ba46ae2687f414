/**
  The quote-aware scanners of the `Link` header parser.

  The program has three of them, each a loop over a position and (in two cases) an
  `in_quotes` flag that jumps over escape pairs. Each loop is proved here against the
  same three-state automaton, which is what makes them agree on what is quoted.
*/
module LinkLexer {
  import opened Text

  /** Reference automaton: what the next character will be read as. */
  datatype Lex = Plain | Quoted | Escaped

  function Next(q: Lex, c: char): Lex {
    match q
    case Plain => if c == '"' then Quoted else Plain
    case Quoted => if c == '"' then Plain else if c == '\\' then Escaped else Quoted
    case Escaped => Quoted
  }

  /** State after reading all of `s` from `q`. */
  function Run(q: Lex, s: string): Lex
    decreases |s|
  {
    if s == "" then q else Run(Next(q, s[0]), s[1..])
  }

  /** Index of the first `c` read in the plain state, or the length if there is none. */
  function FirstPlain(q: Lex, s: string, c: char): (k: nat)
    ensures k <= |s| && (k < |s| ==> s[k] == c)
    decreases |s|
  {
    if s == "" || (q == Plain && s[0] == c) then 0 else 1 + FirstPlain(Next(q, s[0]), s[1..], c)
  }

  /** State in which a scan for a plain `c` stops. */
  function StopState(q: Lex, s: string, c: char): Lex
    decreases |s|
  {
    if s == "" || (q == Plain && s[0] == c) then q else StopState(Next(q, s[0]), s[1..], c)
  }

  /** The scan reads the text up to where it stops, and stops early only outside quotes. */
  lemma {:induction false} StopStateIs(q: Lex, s: string, c: char)
    ensures var k := FirstPlain(q, s, c);
            StopState(q, s, c) == Run(q, s[..k]) && (k < |s| ==> Run(q, s[..k]) == Plain)
    decreases |s|
  {
    if s != "" && !(q == Plain && s[0] == c) {
      StopStateIs(Next(q, s[0]), s[1..], c);
      var k := FirstPlain(q, s, c);
      assert s[..k][1..] == s[1..][..k - 1];
    }
  }

  lemma {:induction false} RunConcat(q: Lex, a: string, b: string)
    ensures Run(q, a + b) == Run(Run(q, a), b)
    decreases |a|
  {
    if a == "" {
      assert a + b == b;
    } else {
      assert (a + b)[1..] == a[1..] + b;
      RunConcat(Next(q, a[0]), a[1..], b);
    }
  }

  lemma {:induction false} FirstPlainConcat(q: Lex, a: string, b: string, c: char)
    requires FirstPlain(q, a, c) == |a|
    ensures FirstPlain(q, a + b, c) == |a| + FirstPlain(Run(q, a), b, c)
    decreases |a|
  {
    if a == "" {
      assert a + b == b;
    } else {
      assert (a + b)[1..] == a[1..] + b;
      FirstPlainConcat(Next(q, a[0]), a[1..], b, c);
    }
  }

  /** Split at every `c` read in the plain state. */
  function SplitPlain(s: string, c: char): (parts: seq<string>)
    ensures |parts| >= 1
    decreases |s|
  {
    var k := FirstPlain(Plain, s, c);
    if k == |s| then [s] else [s[..k]] + SplitPlain(s[k + 1..], c)
  }

  /** State of a two-flag scanner loop between iterations. */
  function AtBoundary(inQuotes: bool): Lex {
    if inQuotes then Quoted else Plain
  }

  predicate IsTokenChar(c: char) {
    || IsAlphanumeric(c)
    || c == '!' || c == '#' || c == '$' || c == '%' || c == '&' || c == '\'' || c == '*'
    || c == '+' || c == '-' || c == '.' || c == '^' || c == '_' || c == '`' || c == '|' || c == '~'
  }

  /** Token characters are the visible ASCII characters but the delimiters of section 5.6.2 of RFC 9110. */
  lemma {:induction false} TokenCharsAre(c: char)
    ensures IsTokenChar(c) <==>
            '!' <= c <= '~' && c !in {'"', '(', ')', ',', '/', ':', ';', '<', '=', '>', '?', '@', '[', '\\', ']', '{', '}'}
  {
  }

  predicate IsQuotable(c: char) {
    ' ' <= c <= '~' && c != '<' && c != '>'
  }

  /** A field may carry printable ASCII and tabs. */
  predicate IsFieldChar(c: char) {
    ' ' <= c <= '~' || c == '\t'
  }

  /** The character classes of a field, by their codes. */
  lemma {:induction false} ClassesAre(c: char)
    ensures IsFieldChar(c) <==> c as int == 9 || 32 <= c as int <= 126
    ensures IsQuotable(c) <==> IsFieldChar(c) && c !in {'\t', '<', '>'}
    ensures IsOws(c) <==> IsFieldChar(c) && !('!' <= c <= '~')
    ensures IsTokenChar(c) ==> IsQuotable(c)
  {
  }

  /**
    A non-empty quoted string: quotable characters, and the automaton is inside the
    quotes after every proper non-empty prefix and outside again at the very end.
  */
  predicate QuotedString(v: string) {
    && |v| >= 3
    && (forall i | 0 <= i < |v| :: IsQuotable(v[i]))
    && v[0] == '"' && v[|v| - 1] == '"'
    && (forall k | 1 <= k < |v| :: Run(Plain, v[..k]) != Plain)
    && Run(Plain, v) == Plain
  }

  /** One more character of a prefix is one more automaton step. */
  lemma {:induction false} RunStep(q: Lex, s: string, k: nat)
    requires k < |s|
    ensures Run(q, s[..k + 1]) == Next(Run(q, s[..k]), s[k])
  {
    assert s[..k + 1] == s[..k] + [s[k]];
    RunConcat(q, s[..k], [s[k]]);
  }

  method IsQuotedString(value: string) returns (quoted: bool)
    ensures quoted <==> QuotedString(value)
  {
    if |value| < 3 || value[0] != '"' || value[|value| - 1] != '"' {
      return false;
    }
    var end := |value| - 1;
    var position := 1;
    RunStep(Plain, value, 0);
    while position < end
      invariant 1 <= position <= end
      invariant Run(Plain, value[..position]) == Quoted
      invariant forall i | 0 <= i < position :: IsQuotable(value[i])
      invariant forall k | 1 <= k <= position :: Run(Plain, value[..k]) != Plain
    {
      RunStep(Plain, value, position);
      if value[position] == '\\' {
        position := position + 1;
        RunStep(Plain, value, position);
        if position >= end {
          assert value[..position + 1] == value;
          return false;
        }
        if !IsQuotable(value[position]) {
          return false;
        }
      } else if value[position] == '"' {
        assert Run(Plain, value[..position + 1]) == Plain;
        return false;
      } else if !IsQuotable(value[position]) {
        return false;
      }
      position := position + 1;
    }
    RunStep(Plain, value, end);
    assert value[..end + 1] == value;
    return true;
  }

  /** A scan that is at `position` in state `q` will stop at `stop` in state `final`. */
  ghost predicate WillStop(s: string, position: int, q: Lex, c: char, stop: int, final: Lex) {
    && 0 <= position <= |s|
    && stop == position + FirstPlain(q, s[position..], c)
    && final == StopState(q, s[position..], c)
  }

  /**
    The same for a loop that jumps over escape pairs and keeps only a flag. After a
    backslash at the very end the position is past the end, and the flag is set.
  */
  ghost predicate WillStopFlag(s: string, position: int, inQuotes: bool, c: char, stop: int, final: Lex) {
    if 0 <= position <= |s| then WillStop(s, position, AtBoundary(inQuotes), c, stop, final)
    else inQuotes && position == |s| + 1 && stop == |s| && final == Escaped
  }

  lemma {:induction false} StepForward(s: string, position: int, q: Lex, c: char, stop: int, final: Lex)
    requires WillStop(s, position, q, c, stop, final) && 0 <= position < |s|
    requires !(q == Plain && s[position] == c)
    ensures WillStop(s, position + 1, Next(q, s[position]), c, stop, final)
  {
    assert s[position..][1..] == s[position + 1..];
  }

  /** What one pass of a flag loop does when it does not stop. */
  function Advance(s: string, position: int, inQuotes: bool): (nat, bool)
    requires 0 <= position < |s|
  {
    if s[position] == '"' then (position + 1, !inQuotes)
    else if s[position] == '\\' && inQuotes then (position + 2, inQuotes)
    else (position + 1, inQuotes)
  }

  lemma {:induction false} PassForward(s: string, position: int, inQuotes: bool, c: char, stop: int, final: Lex)
    requires 0 <= position < |s| && WillStopFlag(s, position, inQuotes, c, stop, final)
    requires inQuotes || s[position] != c
    ensures var (next, flag) := Advance(s, position, inQuotes);
            WillStopFlag(s, next, flag, c, stop, final)
  {
    StepForward(s, position, AtBoundary(inQuotes), c, stop, final);
    if s[position] == '\\' && inQuotes && position + 1 < |s| {
      StepForward(s, position + 1, Escaped, c, stop, final);
    }
  }

  /** Where a pass of a flag loop stops, the scan stops. */
  lemma {:induction false} PassStops(s: string, position: int, inQuotes: bool, c: char, stop: int, final: Lex)
    requires WillStopFlag(s, position, inQuotes, c, stop, final)
    requires 0 <= position < |s| ==> !inQuotes && s[position] == c
    ensures stop == if 0 <= position < |s| then position else |s|
    ensures inQuotes <==> final != Plain
    ensures 0 <= position && !inQuotes ==> position == stop
  {
  }

  lemma {:induction false} ScanStart(s: string, start: nat, c: char) returns (stop: int, final: Lex)
    requires start <= |s|
    ensures WillStopFlag(s, start, false, c, stop, final)
    ensures var k := FirstPlain(Plain, s[start..], c);
            stop == start + k && final == Run(Plain, s[start..][..k]) && (stop < |s| ==> final == Plain)
  {
    stop, final := start + FirstPlain(Plain, s[start..], c), StopState(Plain, s[start..], c);
    StopStateIs(Plain, s[start..], c);
  }

  /** Parts already split off, and a scan that started after the last of them. */
  ghost predicate SplitSoFar(s: string, c: char, parts: seq<string>, start: int, stop: int) {
    && 0 <= start <= stop <= |s|
    && stop == start + FirstPlain(Plain, s[start..], c)
    && parts + SplitPlain(s[start..], c) == SplitPlain(s, c)
  }

  lemma {:induction false} SplitStart(s: string, c: char) returns (stop: int, final: Lex)
    ensures SplitSoFar(s, c, [], 0, stop) && WillStopFlag(s, 0, false, c, stop, final)
  {
    stop, final := FirstPlain(Plain, s, c), StopState(Plain, s, c);
    assert s[0..] == s;
  }

  /** Splitting at a stop leaves a scan that starts after it. */
  lemma {:induction false} SplitMore(s: string, c: char, parts: seq<string>, start: int, stop: int)
    returns (nextStop: int, nextFinal: Lex)
    requires SplitSoFar(s, c, parts, start, stop) && stop < |s|
    ensures 0 <= start <= stop && SplitSoFar(s, c, parts + [s[start..stop]], stop + 1, nextStop)
    ensures WillStopFlag(s, stop + 1, false, c, nextStop, nextFinal)
  {
    var rest := s[stop + 1..];
    nextStop := stop + 1 + FirstPlain(Plain, rest, c);
    nextFinal := StopState(Plain, rest, c);
    assert s[start..][..stop - start] == s[start..stop];
    assert s[start..][stop - start + 1..] == rest;
    assert SplitPlain(s[start..], c) == [s[start..stop]] + SplitPlain(rest, c);
  }

  lemma {:induction false} SplitLast(s: string, c: char, parts: seq<string>, start: int, stop: int)
    requires SplitSoFar(s, c, parts, start, stop) && stop == |s|
    ensures parts + [s[start..]] == SplitPlain(s, c)
  {
  }

  method SplitLinkParams(params: string) returns (parts: seq<string>)
    ensures parts == SplitPlain(params, ';')
  {
    hide WillStopFlag, SplitSoFar;
    parts := [];
    var start := 0;
    var position := 0;
    var inQuotes := false;
    ghost var stop, final := SplitStart(params, ';');
    while position < |params|
      invariant 0 <= start <= |params| && 0 <= position
      invariant SplitSoFar(params, ';', parts, start, stop)
      invariant WillStopFlag(params, position, inQuotes, ';', stop, final)
    {
      var c := params[position];
      if c == ';' && !inQuotes {
        PassStops(params, position, inQuotes, ';', stop, final);
        stop, final := SplitMore(params, ';', parts, start, stop);
        parts := parts + [params[start..position]];
        start := position + 1;
        position := position + 1;
      } else {
        PassForward(params, position, inQuotes, ';', stop, final);
        ghost var next := Advance(params, position, inQuotes);
        if c == '"' {
          inQuotes := !inQuotes;
        } else if c == '\\' && inQuotes {
          position := position + 1;
        }
        position := position + 1;
        assert (position, inQuotes) == next;
      }
    }
    PassStops(params, position, inQuotes, ';', stop, final);
    SplitLast(params, ';', parts, start, stop);
    parts := parts + [params[start..]];
  }

  /**
    The parameter scan of the field parser: stops at the first unquoted comma.
    The last clause is why a backslash at the very end cannot be taken for a complete
    suffix: a position past the end still counts as quoted.
  */
  method ScanParams(field: string, start: nat) returns (position: nat, inQuotes: bool)
    requires start <= |field|
    ensures var rest := field[start..];
            var k := FirstPlain(Plain, rest, ',');
            && (inQuotes <==> Run(Plain, rest[..k]) != Plain)
            && (!inQuotes ==> position == start + k)
    ensures position > |field| ==> inQuotes
  {
    hide WillStopFlag;
    position := start;
    inQuotes := false;
    ghost var stop, final := ScanStart(field, start, ',');
    while position < |field|
      invariant 0 <= position
      invariant WillStopFlag(field, position, inQuotes, ',', stop, final)
    {
      var c := field[position];
      if c == ',' && !inQuotes {
        break;
      }
      PassForward(field, position, inQuotes, ',', stop, final);
      ghost var next := Advance(field, position, inQuotes);
      if c == '"' {
        inQuotes := !inQuotes;
      } else if c == '\\' && inQuotes {
        position := position + 1;
      }
      position := position + 1;
      assert (position, inQuotes) == next;
    }
    PassStops(field, position, inQuotes, ',', stop, final);
  }
}
