/** ASCII text helpers standing for the string methods of the Rust standard library. */
module Text {

  /** Optional white space of an HTTP field: space or horizontal tab. */
  predicate IsOws(c: char) {
    c == ' ' || c == '\t'
  }

  predicate AllOws(s: string) {
    forall i | 0 <= i < |s| :: IsOws(s[i])
  }

  predicate IsDigit(c: char) {
    '0' <= c <= '9'
  }

  predicate IsAlphanumeric(c: char) {
    'a' <= c <= 'z' || 'A' <= c <= 'Z' || IsDigit(c)
  }

  function LowerChar(c: char): char {
    if 'A' <= c <= 'Z' then c - 'A' + 'a' else c
  }

  function Lower(s: string): (r: string)
    ensures |r| == |s|
    ensures forall i | 0 <= i < |s| :: r[i] == LowerChar(s[i])
  {
    seq(|s|, i requires 0 <= i < |s| => LowerChar(s[i]))
  }

  function TrimEnd(s: string): (r: string)
    ensures |r| <= |s|
  {
    if s != "" && IsOws(s[|s| - 1]) then TrimEnd(s[..|s| - 1]) else s
  }

  function TrimStart(s: string): (r: string)
    ensures |r| <= |s|
  {
    if s != "" && IsOws(s[0]) then TrimStart(s[1..]) else s
  }

  function Trim(s: string): string {
    TrimEnd(TrimStart(s))
  }

  /** `TrimEnd` takes white space off the end and stops at anything else. */
  lemma {:induction false} TrimEndSplits(s: string) returns (pad: string)
    ensures s == TrimEnd(s) + pad && AllOws(pad)
    ensures var r := TrimEnd(s); r == "" || !IsOws(r[|r| - 1])
  {
    if s != "" && IsOws(s[|s| - 1]) {
      var inner := TrimEndSplits(s[..|s| - 1]);
      pad := inner + [s[|s| - 1]];
      assert s == TrimEnd(s) + inner + [s[|s| - 1]];
    } else {
      pad := "";
    }
  }

  lemma {:induction false} TrimStartSplits(s: string) returns (pad: string)
    ensures s == pad + TrimStart(s) && AllOws(pad)
    ensures var r := TrimStart(s); r == "" || !IsOws(r[0])
  {
    if s != "" && IsOws(s[0]) {
      var inner := TrimStartSplits(s[1..]);
      pad := [s[0]] + inner;
      assert s == [s[0]] + (inner + TrimStart(s));
    } else {
      pad := "";
    }
  }

  /** A string is its trimmed core between two runs of white space. */
  lemma {:induction false} TrimSplits(s: string) returns (left: string, right: string)
    ensures s == left + Trim(s) + right && AllOws(left) && AllOws(right)
  {
    left := TrimStartSplits(s);
    right := TrimEndSplits(TrimStart(s));
    assert s == left + (Trim(s) + right);
  }

  /** Trailing white space is all that `TrimEnd` removes. */
  lemma {:induction false} TrimEndOfPadded(s: string, pad: string)
    requires AllOws(pad) && (s == "" || !IsOws(s[|s| - 1]))
    ensures TrimEnd(s + pad) == s
  {
    if pad == "" {
      assert s + pad == s;
    } else {
      assert (s + pad)[..|s + pad| - 1] == s + pad[..|pad| - 1];
      TrimEndOfPadded(s, pad[..|pad| - 1]);
    }
  }

  lemma {:induction false} TrimStartOfPadded(pad: string, s: string)
    requires AllOws(pad) && s != "" && !IsOws(s[0])
    ensures TrimStart(pad + s) == s
  {
    if pad == "" {
      assert pad + s == s;
    } else {
      assert (pad + s)[1..] == pad[1..] + s;
      TrimStartOfPadded(pad[1..], s);
    }
  }

  /** Trimming takes the white space around a core off, and nothing more. */
  lemma {:induction false} TrimOfPadded(left: string, core: string, right: string)
    requires AllOws(left) && AllOws(right) && core != "" && !IsOws(core[0]) && !IsOws(core[|core| - 1])
    ensures Trim(left + (core + right)) == core
  {
    TrimStartOfPadded(left, core + right);
    TrimEndOfPadded(core, right);
  }

  /** Index of the first `c`, or the length when there is none. */
  function Find(s: string, c: char): (k: nat)
    ensures k <= |s| && (k < |s| ==> s[k] == c)
    ensures forall i | 0 <= i < k :: s[i] != c
  {
    if s == "" || s[0] == c then 0 else 1 + Find(s[1..], c)
  }

  lemma {:induction false} FindIs(s: string, c: char, k: nat)
    requires k <= |s| && (forall i | 0 <= i < k :: s[i] != c) && (k < |s| ==> s[k] == c)
    ensures Find(s, c) == k
  {
    if 0 < k {
      FindIs(s[1..], c, k - 1);
    }
  }
}
