/** The few string operations of the language that several components use. */
module Text {
  /** The characters that `trim` removes. */
  predicate IsSpace(c: char) {
    || '\t' <= c <= '\r' || c == ' ' || c == '\U{00A0}' || c == '\U{1680}' || '\U{2000}' <= c <= '\U{200A}'
    || c == '\U{2028}' || c == '\U{2029}' || c == '\U{202F}' || c == '\U{205F}' || c == '\U{3000}' || c == '\U{FEFF}'
  }

  function TrimStart(s: string): string {
    if s != "" && IsSpace(s[0]) then TrimStart(s[1..]) else s
  }

  function TrimEnd(s: string): string {
    if s != "" && IsSpace(s[|s| - 1]) then TrimEnd(s[..|s| - 1]) else s
  }

  function Trim(s: string): string { TrimEnd(TrimStart(s)) }

  lemma {:induction false} TrimStartCuts(s: string) returns (a: nat)
    ensures a <= |s| && TrimStart(s) == s[a..]
    ensures (forall i :: 0 <= i < a ==> IsSpace(s[i])) && (a < |s| ==> !IsSpace(s[a]))
  {
    if s != "" && IsSpace(s[0]) {
      a := TrimStartCuts(s[1..]);
      assert forall i :: 0 < i < |s| ==> s[i] == s[1..][i - 1];
      assert s[1..][a..] == s[a + 1..];
      a := a + 1;
    } else {
      a := 0;
      assert s[0..] == s;
    }
  }

  lemma {:induction false} TrimEndCuts(s: string) returns (b: nat)
    ensures b <= |s| && TrimEnd(s) == s[..b]
    ensures (forall i :: b <= i < |s| ==> IsSpace(s[i])) && (b > 0 ==> !IsSpace(s[b - 1]))
  {
    var n := |s| - 1;
    if s != "" && IsSpace(s[n]) {
      b := TrimEndCuts(s[..n]);
      assert s[..n][..b] == s[..b];
      assert forall i :: 0 <= i < n ==> s[..n][i] == s[i];
    } else {
      b := |s|;
      assert s[..|s|] == s;
    }
  }

  /** Trimming cuts the spaces off at both ends, and nothing else. */
  lemma TrimCuts(s: string) returns (a: nat, b: nat)
    ensures a <= b <= |s| && Trim(s) == s[a..b]
    ensures (forall i :: 0 <= i < a ==> IsSpace(s[i])) && forall i :: b <= i < |s| ==> IsSpace(s[i])
    ensures a < b ==> !IsSpace(s[a]) && !IsSpace(s[b - 1])
  {
    a := TrimStartCuts(s);
    b := TrimEndCuts(s[a..]);
    assert s[a..][..b] == s[a..a + b];
    assert forall i :: a <= i < |s| ==> s[a..][i - a] == s[i];
    b := a + b;
  }

  /** `value.trim()` is empty. */
  predicate Blank(s: string) { forall i :: 0 <= i < |s| ==> IsSpace(s[i]) }

  lemma {:induction false} BlankIffTrimmedAway(s: string)
    ensures Trim(s) == "" <==> Blank(s)
  {
    if s != "" && IsSpace(s[0]) {
      BlankIffTrimmedAway(s[1..]);
      assert Blank(s) <==> Blank(s[1..]) by {
        if Blank(s[1..]) {
          assert forall i :: 0 < i < |s| ==> s[i] == s[1..][i - 1];
        }
      }
    } else if s != "" {
      TrimEndKeepsHead(s);
    }
  }

  lemma {:induction false} TrimEndKeepsHead(s: string)
    requires s != "" && !IsSpace(s[0])
    ensures TrimEnd(s) != "" && TrimEnd(s)[0] == s[0]
  {
    if IsSpace(s[|s| - 1]) { TrimEndKeepsHead(s[..|s| - 1]); }
  }

  function Digit(d: nat): char
    requires d < 10
  {
    '0' + d as char
  }

  predicate IsDigit(c: char) { '0' <= c <= '9' }

  function DigitValue(c: char): (d: nat)
    requires IsDigit(c)
    ensures d < 10
  {
    c as int - '0' as int
  }

  /** A number in decimal, as string interpolation prints it. */
  function Decimal(n: nat): (s: string)
    ensures s != "" && forall i :: 0 <= i < |s| ==> IsDigit(s[i])
  {
    if n < 10 then [Digit(n)] else Decimal(n / 10) + [Digit(n % 10)]
  }

  /** The value of a string of decimal digits. */
  function Value(s: string): nat
    requires forall i :: 0 <= i < |s| ==> IsDigit(s[i])
  {
    if s == "" then 0 else 10 * Value(s[..|s| - 1]) + DigitValue(s[|s| - 1])
  }

  lemma {:induction false} ValueOfDecimal(n: nat)
    ensures Value(Decimal(n)) == n
  {
    if n >= 10 {
      ValueOfDecimal(n / 10);
      assert Decimal(n)[..|Decimal(n)| - 1] == Decimal(n / 10);
    }
  }

  predicate StartsWith(s: string, prefix: string) { prefix <= s }

  predicate EndsWith(s: string, suffix: string) { |suffix| <= |s| && s[|s| - |suffix|..] == suffix }

  /** `s.replaceAll(pattern, replacement)`: matches are taken from the left and never overlap. */
  function ReplaceAll(s: string, pattern: string, replacement: string): string
    requires pattern != ""
  {
    if s == "" then ""
    else if StartsWith(s, pattern) then replacement + ReplaceAll(s[|pattern|..], pattern, replacement)
    else [s[0]] + ReplaceAll(s[1..], pattern, replacement)
  }

  /** `parts.join(separator)`. */
  ghost function JoinWith(parts: seq<string>, separator: string): string
    requires parts != []
  {
    if |parts| == 1 then parts[0] else parts[0] + separator + JoinWith(parts[1..], separator)
  }

  ghost predicate StandsAt(s: string, pattern: string, i: nat) {
    i + |pattern| <= |s| && s[i..i + |pattern|] == pattern
  }

  /** Nowhere in the part does the pattern begin, not even with the pattern behind it, if it is not the last part. */
  ghost predicate HoldsNone(part: string, pattern: string, last: bool) {
    var all := part + if last then "" else pattern;
    forall i :: 0 <= i < |part| ==> !StandsAt(all, pattern, i)
  }

  ghost predicate CutAt(parts: seq<string>, pattern: string) {
    parts != [] && forall k :: 0 <= k < |parts| ==> HoldsNone(parts[k], pattern, k == |parts| - 1)
  }

  lemma OneMoreHoldsNone(c: char, part: string, pattern: string, last: bool)
    requires HoldsNone(part, pattern, last) && pattern != ""
    requires !(pattern <= [c] + part + if last then "" else pattern)
    ensures HoldsNone([c] + part, pattern, last)
  {
    var all := part + if last then "" else pattern;
    assert [c] + part + (if last then "" else pattern) == [c] + all;
    forall i | 0 <= i < |[c] + part| ensures !StandsAt([c] + all, pattern, i) {
      if i > 0 {
        assert !StandsAt(all, pattern, i - 1);
        if i + |pattern| <= |[c] + all| { assert ([c] + all)[i..i + |pattern|] == all[i - 1..i - 1 + |pattern|]; }
      }
    }
  }

  lemma JoinFirst(c: char, parts: seq<string>, glue: string)
    requires parts != []
    ensures JoinWith([[c] + parts[0]] + parts[1..], glue) == [c] + JoinWith(parts, glue)
  {
    var more := [[c] + parts[0]] + parts[1..];
    assert more[1..] == parts[1..];
    if |parts| > 1 {
      var rest := JoinWith(parts[1..], glue);
      assert [c] + parts[0] + glue + rest == [c] + (parts[0] + glue + rest);
    }
  }

  lemma JoinBegins(parts: seq<string>, glue: string)
    requires parts != []
    ensures parts[0] + (if |parts| == 1 then "" else glue) <= JoinWith(parts, glue)
  {
  }

  lemma PrependToFirst(c: char, parts: seq<string>, pattern: string)
    requires CutAt(parts, pattern) && pattern != "" && !(pattern <= [c] + JoinWith(parts, pattern))
    ensures CutAt([[c] + parts[0]] + parts[1..], pattern)
  {
    var more, last := [[c] + parts[0]] + parts[1..], |parts| == 1;
    JoinBegins(parts, pattern);
    assert HoldsNone(parts[0], pattern, last);
    OneMoreHoldsNone(c, parts[0], pattern, last);
    hide HoldsNone, JoinWith;
    assert forall k :: 1 <= k < |more| ==> more[k] == parts[k];
  }

  lemma CutNothing(pattern: string)
    ensures CutAt([""], pattern) && forall glue :: JoinWith([""], glue) == ""
  {
  }

  lemma CutFirst(parts: seq<string>, pattern: string)
    requires CutAt(parts, pattern)
    ensures CutAt([""] + parts, pattern)
    ensures forall glue :: JoinWith([""] + parts, glue) == glue + JoinWith(parts, glue)
  {
    var more := [""] + parts;
    assert more[1..] == parts;
    forall k | 0 <= k < |more| ensures HoldsNone(more[k], pattern, k == |more| - 1) {
      if k > 0 { assert HoldsNone(parts[k - 1], pattern, k - 1 == |parts| - 1); }
    }
  }

  /** The text is cut at the places of the pattern, from the left, and joined by the replacement. */
  lemma {:induction false} ReplaceAllCuts(s: string, pattern: string, replacement: string) returns (parts: seq<string>)
    requires pattern != ""
    ensures parts != [] && CutAt(parts, pattern) && JoinWith(parts, pattern) == s
    ensures JoinWith(parts, replacement) == ReplaceAll(s, pattern, replacement)
  {
    hide HoldsNone, JoinWith, CutAt;
    if s == "" {
      parts := [""];
      CutNothing(pattern);
    } else if StartsWith(s, pattern) {
      var rest := ReplaceAllCuts(s[|pattern|..], pattern, replacement);
      parts := [""] + rest;
      CutFirst(rest, pattern);
      assert pattern + s[|pattern|..] == s;
    } else {
      var rest := ReplaceAllCuts(s[1..], pattern, replacement);
      assert [s[0]] + s[1..] == s;
      PrependToFirst(s[0], rest, pattern);
      JoinFirst(s[0], rest, pattern);
      JoinFirst(s[0], rest, replacement);
      parts := [[s[0]] + rest[0]] + rest[1..];
    }
  }
}
