/**
 * Dotted path patterns with `*` and `**`, and the excuse for monitored patterns that match no path
 * (`check-policy-config-coverage.ts`).
 */
module PolicyGlob {
  import opened Dotted
  import opened Wrappers

  predicate MatchesParts(pattern: Parts, value: Parts)
    decreases |pattern|
  {
    if pattern == [] then value == []
    else if pattern[0] == "**" then
      |pattern| == 1 || exists i :: 0 <= i <= |value| && MatchesParts(pattern[1..], value[i..])
    else
      && value != [] && (pattern[0] == "*" || pattern[0] == value[0])
      && MatchesParts(pattern[1..], value[1..])
  }

  // ------------------------------------------------------------------ what a match means

  /** `**` stands for any run of segments, `*` for one segment, anything else for itself. */
  ghost predicate StandsFor(segment: string, run: Parts) {
    segment == "**" || (|run| == 1 && (segment == "*" || segment == run[0]))
  }

  function Flatten(runs: seq<Parts>): Parts {
    if runs == [] then [] else runs[0] + Flatten(runs[1..])
  }

  /** The value falls into one run per segment of the pattern. */
  ghost predicate Reading(pattern: Parts, value: Parts, runs: seq<Parts>) {
    |runs| == |pattern| && Flatten(runs) == value && forall i :: 0 <= i < |pattern| ==> StandsFor(pattern[i], runs[i])
  }

  lemma {:induction false} ReadingMatches(pattern: Parts, value: Parts, runs: seq<Parts>)
    requires Reading(pattern, value, runs)
    ensures MatchesParts(pattern, value)
    decreases |pattern|
  {
    if pattern != [] {
      var k := |runs[0]|;
      assert value[k..] == Flatten(runs[1..]);
      assert Reading(pattern[1..], value[k..], runs[1..]);
      ReadingMatches(pattern[1..], value[k..], runs[1..]);
      assert StandsFor(pattern[0], runs[0]);
    }
  }

  lemma OneMoreRun(pattern: Parts, value: Parts, k: nat, runs: seq<Parts>)
    requires pattern != [] && k <= |value| && StandsFor(pattern[0], value[..k])
    requires Reading(pattern[1..], value[k..], runs)
    ensures Reading(pattern, value, [value[..k]] + runs)
  {
    var all := [value[..k]] + runs;
    assert all[1..] == runs && value[..k] + value[k..] == value;
  }

  lemma {:induction false} MatchHasReading(pattern: Parts, value: Parts) returns (runs: seq<Parts>)
    requires MatchesParts(pattern, value)
    ensures Reading(pattern, value, runs)
    decreases |pattern|
  {
    if pattern == [] {
      runs := [];
    } else if pattern == ["**"] {
      runs := [value];
      assert Flatten(runs) == value + Flatten(runs[1..]) == value;
    } else {
      var k := 1;
      if pattern[0] == "**" {
        k :| 0 <= k <= |value| && MatchesParts(pattern[1..], value[k..]);
      }
      var later := MatchHasReading(pattern[1..], value[k..]);
      runs := [value[..k]] + later;
      OneMoreRun(pattern, value, k, later);
    }
  }

  /** The matcher finds a match exactly when the value can be read as the pattern says. */
  lemma MatchIffReading(pattern: Parts, value: Parts)
    ensures MatchesParts(pattern, value) <==> exists runs :: Reading(pattern, value, runs)
  {
    if MatchesParts(pattern, value) {
      var runs := MatchHasReading(pattern, value);
    }
    forall runs | Reading(pattern, value, runs) ensures MatchesParts(pattern, value) {
      ReadingMatches(pattern, value, runs);
    }
  }

  /** Two adjacent `**` mean what one means, wherever they stand. */
  lemma {:induction false} AdjacentDoubleStarsCollapse(before: Parts, after: Parts, value: Parts)
    ensures MatchesParts(before + ["**", "**"] + after, value) <==> MatchesParts(before + ["**"] + after, value)
    decreases |before|
  {
    var two, one := before + ["**", "**"] + after, before + ["**"] + after;
    if before == [] {
      assert two[1..] == one && one[1..] == after;
      if MatchesParts(one, value) { assert value[0..] == value; }
      if i :| 0 <= i <= |value| && MatchesParts(one, value[i..]) {
        if after != [] {
          var j :| 0 <= j <= |value[i..]| && MatchesParts(after, value[i..][j..]);
          assert value[i..][j..] == value[i + j..];
        }
      }
    } else {
      assert two[1..] == before[1..] + ["**", "**"] + after && one[1..] == before[1..] + ["**"] + after;
      assert two[0] == one[0] == before[0];
      forall i | 0 <= i <= |value| ensures MatchesParts(two[1..], value[i..]) == MatchesParts(one[1..], value[i..]) {
        AdjacentDoubleStarsCollapse(before[1..], after, value[i..]);
      }
    }
  }

  // ------------------------------------------------------------------ matching a pattern against a pattern

  /** `value` is `pattern` with each `*` replaced by some segment. */
  ghost predicate Instance(pattern: Parts, value: Parts) {
    |pattern| == |value| && forall i :: 0 <= i < |pattern| ==> pattern[i] == "*" || pattern[i] == value[i]
  }

  lemma {:induction false} WithoutDoubleStar(pattern: Parts, value: Parts)
    requires "**" !in pattern
    ensures MatchesParts(pattern, value) <==> Instance(pattern, value)
  {
    if pattern != [] && value != [] {
      WithoutDoubleStar(pattern[1..], value[1..]);
      if Instance(pattern[1..], value[1..]) && |pattern| == |value| {
        assert forall i :: 1 <= i < |pattern| ==> pattern[i] == pattern[1..][i - 1] && value[i] == value[1..][i - 1];
      }
    }
  }

  lemma {:induction false} MatchPassesToInstances(pattern: Parts, middle: Parts, value: Parts)
    requires MatchesParts(pattern, middle) && Instance(middle, value)
    ensures MatchesParts(pattern, value)
    decreases |pattern|
  {
    if pattern != [] && pattern != ["**"] {
      if pattern[0] == "**" {
        var i :| 0 <= i <= |middle| && MatchesParts(pattern[1..], middle[i..]);
        MatchPassesToInstances(pattern[1..], middle[i..], value[i..]);
      } else {
        assert middle[0] == "*" || middle[0] == value[0];
        MatchPassesToInstances(pattern[1..], middle[1..], value[1..]);
      }
    }
  }

  /** A word that no pattern segment can name literally. */
  function Fresh(parts: Parts): (word: string)
    ensures forall s | s in parts :: |s| < |word|
    ensures |word| > 0 && forall i :: 0 <= i < |word| ==> word[i] == 'x'
  {
    if parts == [] then "x"
    else
      var rest := Fresh(parts[1..]);
      assert forall s | s in parts :: s == parts[0] || s in parts[1..];
      if |parts[0]| < |rest| then rest else seq(|parts[0]| + 1, _ => 'x')
  }

  function FillSegment(segment: string, word: string): string {
    if segment == "*" || segment == "**" then word else segment
  }

  /** The pattern with every wildcard replaced by one segment. */
  function Fill(pattern: Parts, word: string): (value: Parts)
    ensures |value| == |pattern|
    ensures forall i :: 0 <= i < |pattern| ==> value[i] == FillSegment(pattern[i], word)
  {
    seq(|pattern|, i requires 0 <= i < |pattern| => FillSegment(pattern[i], word))
  }

  lemma {:induction false} MatchComesFromFresh(pattern: Parts, middle: Parts, value: Parts, word: string)
    requires word !in pattern && |value| == |middle|
    requires forall i :: 0 <= i < |middle| ==> value[i] == middle[i] || (middle[i] == "*" && value[i] == word)
    requires MatchesParts(pattern, value)
    ensures MatchesParts(pattern, middle)
    decreases |pattern|
  {
    if pattern != [] && pattern != ["**"] {
      if pattern[0] == "**" {
        var i :| 0 <= i <= |value| && MatchesParts(pattern[1..], value[i..]);
        MatchComesFromFresh(pattern[1..], middle[i..], value[i..], word);
      } else {
        assert value[0] == middle[0] || value[0] == word;
        MatchComesFromFresh(pattern[1..], middle[1..], value[1..], word);
      }
    }
  }

  // ------------------------------------------------------------------ patterns and paths as dotted strings

  predicate PathMatchesPattern(pattern: string, value: string) {
    MatchesParts(SplitDots(pattern), SplitDots(value))
  }

  /** So do whole paths, segment by segment. */
  lemma PathMatchIffReading(pattern: string, value: string)
    ensures PathMatchesPattern(pattern, value) <==> exists runs :: Reading(SplitDots(pattern), SplitDots(value), runs)
  {
    var p, v := SplitDots(pattern), SplitDots(value);
    hide MatchesParts, SplitDots, Reading;
    MatchIffReading(p, v);
    if runs :| Reading(p, v, runs) {
      assert Reading(SplitDots(pattern), SplitDots(value), runs);
    }
  }

  ghost predicate HasDoubleStar(pattern: string) { "**" in SplitDots(pattern) }

  /** `wide` matches every value that `narrow` matches. */
  ghost predicate Covers(wide: string, narrow: string) {
    forall value :: PathMatchesPattern(narrow, value) ==> PathMatchesPattern(wide, value)
  }

  /** The same over values that hold no wildcard themselves. */
  ghost predicate CoversPlain(wide: string, narrow: string) {
    forall value | Plain(value) :: PathMatchesPattern(narrow, value) ==> PathMatchesPattern(wide, value)
  }

  ghost predicate Plain(value: string) { "*" !in SplitDots(value) && "**" !in SplitDots(value) }

  /** The pattern with a fresh word for each wildcard. */
  function Example(pattern: Parts, against: Parts): (value: Parts)
    ensures |value| == |pattern|
  {
    Fill(pattern, Fresh(against + ["**"]))
  }

  lemma ExampleIsPlain(w: Parts, n: Parts)
    requires DotFree(n) && "**" !in n
    ensures var value := Example(n, w);
            DotFree(value) && "*" !in value && "**" !in value && MatchesParts(n, value)
  {
    var word := Fresh(w + ["**"]);
    assert "**" in w + ["**"] && word[0] == 'x';
    var value := Example(n, w);
    assert forall p | p in value :: p == word || p in n;
    WithoutDoubleStar(n, value);
    hide MatchesParts, Fresh, Fill;
    assert '.' !in word;
  }

  lemma ExampleDecides(w: Parts, n: Parts)
    requires "**" !in n && MatchesParts(w, Example(n, w))
    ensures MatchesParts(w, n)
  {
    var word := Fresh(w + ["**"]);
    assert word !in w by { assert word !in w + ["**"]; }
    MatchComesFromFresh(w, n, Example(n, w), word);
  }

  /** A pattern without `**`, taken as a value, is matched exactly by the patterns that cover it. */
  lemma MatchingAPatternIsCovering(wide: string, narrow: string)
    requires !HasDoubleStar(narrow)
    ensures PathMatchesPattern(wide, narrow) <==> Covers(wide, narrow)
    ensures PathMatchesPattern(wide, narrow) <==> CoversPlain(wide, narrow)
  {
    var w, n := SplitDots(wide), SplitDots(narrow);
    hide MatchesParts, SplitDots, Example;
    if MatchesParts(w, n) {
      forall value | PathMatchesPattern(narrow, value) ensures PathMatchesPattern(wide, value) {
        WithoutDoubleStar(n, SplitDots(value));
        MatchPassesToInstances(w, n, SplitDots(value));
      }
    }
    if CoversPlain(wide, narrow) {
      ExampleIsPlain(w, n);
      SplitJoin(Example(n, w));
      assert Plain(JoinDots(Example(n, w))) && PathMatchesPattern(narrow, JoinDots(Example(n, w)));
      ExampleDecides(w, n);
    }
  }

  lemma {:induction false} FilledMatches(pattern: Parts)
    ensures MatchesParts(pattern, Fill(pattern, "x"))
  {
    if pattern != [] {
      FilledMatches(pattern[1..]);
      assert Fill(pattern, "x")[1..] == Fill(pattern[1..], "x");
    }
  }

  /** The pattern filled with one segment per wildcard, and one more for its `**` at `k`. */
  function Longer(pattern: Parts, k: nat): (value: Parts)
    requires k < |pattern|
    ensures |value| == |pattern| + 1
    ensures forall p | p in value :: p == "x" || p in pattern
  {
    if k == 0 then
      assert forall p | p in Fill(pattern, "x") :: p == "x" || p in pattern;
      ["x"] + Fill(pattern, "x")
    else
      [FillSegment(pattern[0], "x")] + Longer(pattern[1..], k - 1)
  }

  lemma {:induction false} LongerMatches(pattern: Parts, k: nat)
    requires k < |pattern| && pattern[k] == "**"
    ensures MatchesParts(pattern, Longer(pattern, k))
  {
    var value := Longer(pattern, k);
    if k == 0 {
      FilledMatches(pattern[1..]);
      assert value[2..] == Fill(pattern[1..], "x");
    } else {
      LongerMatches(pattern[1..], k - 1);
      assert value[1..] == Longer(pattern[1..], k - 1);
    }
  }

  function SingleStars(pattern: Parts): (r: Parts)
    ensures |r| == |pattern| && forall p | p in r :: p == "*" || p in pattern
    ensures forall i :: 0 <= i < |pattern| ==> r[i] == if pattern[i] == "**" then "*" else pattern[i]
  {
    seq(|pattern|, i requires 0 <= i < |pattern| => if pattern[i] == "**" then "*" else pattern[i])
  }

  lemma {:induction false} SingleStarsMatch(pattern: Parts)
    ensures MatchesParts(SingleStars(pattern), pattern)
  {
    WithoutDoubleStar(SingleStars(pattern), pattern);
  }

  lemma PathsOfParts(pattern: Parts, value: Parts)
    requires DotFree(pattern) && DotFree(value)
    ensures PathMatchesPattern(JoinDots(pattern), JoinDots(value)) <==> MatchesParts(pattern, value)
    ensures SplitDots(JoinDots(pattern)) == pattern && SplitDots(JoinDots(value)) == value
  {
    SplitJoin(pattern);
    SplitJoin(value);
  }

  lemma DoubleStarParts(n: Parts, k: nat)
    requires DotFree(n) && k < |n| && n[k] == "**"
    ensures DotFree(SingleStars(n)) && MatchesParts(SingleStars(n), n)
    ensures DotFree(Longer(n, k)) && MatchesParts(n, Longer(n, k)) && !MatchesParts(SingleStars(n), Longer(n, k))
  {
    var w, v := SingleStars(n), Longer(n, k);
    SingleStarsMatch(n);
    LongerMatches(n, k);
    WithoutDoubleStar(w, v);
    assert !Instance(w, v);
    hide *;
    StaysDotFree(n, w, "*");
    StaysDotFree(n, v, "x");
  }

  /** For a pattern with `**` there is always one that matches it as a value and does not cover it. */
  lemma DoubleStarEscapes(narrow: string) returns (wide: string, value: string)
    requires HasDoubleStar(narrow)
    ensures PathMatchesPattern(wide, narrow)
    ensures PathMatchesPattern(narrow, value) && !PathMatchesPattern(wide, value)
  {
    var n := SplitDots(narrow);
    var k :| 0 <= k < |n| && n[k] == "**";
    DoubleStarParts(n, k);
    var w, v := SingleStars(n), Longer(n, k);
    wide, value := JoinDots(w), JoinDots(v);
    PathsOfParts(w, v);
    hide MatchesParts, SplitDots, JoinDots, SingleStars, Longer;
    assert SplitDots(wide) == w && SplitDots(value) == v;
  }

  /** Matching a pattern as a value can be trusted to mean covering exactly when it holds no `**`. */
  lemma TrustedIffNoDoubleStar(narrow: string)
    ensures !HasDoubleStar(narrow) <==> forall wide :: PathMatchesPattern(wide, narrow) ==> Covers(wide, narrow)
  {
    if HasDoubleStar(narrow) {
      var wide, value := DoubleStarEscapes(narrow);
      assert !Covers(wide, narrow);
    } else {
      forall wide | PathMatchesPattern(wide, narrow) ensures Covers(wide, narrow) {
        MatchingAPatternIsCovering(wide, narrow);
      }
    }
  }

  // ------------------------------------------------------------------ the coverage report

  datatype Classification = Classification(pattern: string, allowNoSchemaPath: bool)

  predicate SomeLeafMatches(pattern: string, leaves: seq<string>) {
    exists i :: 0 <= i < |leaves| && PathMatchesPattern(pattern, leaves[i])
  }

  predicate Excused(pattern: string, classifications: seq<Classification>) {
    exists i :: 0 <= i < |classifications| && classifications[i].allowNoSchemaPath
                && PathMatchesPattern(classifications[i].pattern, pattern)
  }

  function UnmatchedMonitored(monitored: seq<string>, leaves: seq<string>, classifications: seq<Classification>)
    : seq<string>
  {
    if monitored == [] then []
    else
      (if SomeLeafMatches(monitored[0], leaves) || Excused(monitored[0], classifications) then [] else [monitored[0]])
      + UnmatchedMonitored(monitored[1..], leaves, classifications)
  }

  /** `classifications.find(...)`. */
  function Classify(classifications: seq<Classification>, path: string): Option<Classification> {
    if classifications == [] then None
    else if PathMatchesPattern(classifications[0].pattern, path) then Some(classifications[0])
    else Classify(classifications[1..], path)
  }

  /** Item `i` is the first whose pattern matches. */
  ghost predicate FirstAt(classifications: seq<Classification>, path: string, i: nat) {
    && i < |classifications| && PathMatchesPattern(classifications[i].pattern, path)
    && forall j :: 0 <= j < i ==> !PathMatchesPattern(classifications[j].pattern, path)
  }

  lemma {:induction false} ClassifyFindsFirst(classifications: seq<Classification>, path: string)
    ensures match Classify(classifications, path)
            case None => forall item | item in classifications :: !PathMatchesPattern(item.pattern, path)
            case Some(found) => exists i: nat :: FirstAt(classifications, path, i) && classifications[i] == found
  {
    hide PathMatchesPattern;
    if classifications != [] {
      if PathMatchesPattern(classifications[0].pattern, path) {
        assert FirstAt(classifications, path, 0);
      } else {
        ClassifyFindsFirst(classifications[1..], path);
        assert forall item | item in classifications :: item == classifications[0] || item in classifications[1..];
        if Classify(classifications[1..], path).Some? {
          var i: nat :| FirstAt(classifications[1..], path, i)
                   && classifications[1..][i] == Classify(classifications, path).value;
          assert forall j :: 1 <= j < i + 1 ==> classifications[j] == classifications[1..][j - 1];
          assert FirstAt(classifications, path, i + 1);
        }
      }
    }
  }

  lemma {:induction false} UnmatchedMonitoredIs(monitored: seq<string>, leaves: seq<string>,
                                                classifications: seq<Classification>, pattern: string)
    ensures multiset(UnmatchedMonitored(monitored, leaves, classifications))[pattern] ==
            if (exists leaf | leaf in leaves :: PathMatchesPattern(pattern, leaf))
               || (exists item | item in classifications :: item.allowNoSchemaPath
                                                            && PathMatchesPattern(item.pattern, pattern))
            then 0 else multiset(monitored)[pattern]
  {
    hide PathMatchesPattern;
    assert SomeLeafMatches(pattern, leaves) <==> exists leaf :: leaf in leaves && PathMatchesPattern(pattern, leaf);
    assert Excused(pattern, classifications) <==>
           exists item :: item in classifications && item.allowNoSchemaPath
                          && PathMatchesPattern(item.pattern, pattern);
    if monitored != [] {
      UnmatchedMonitoredIs(monitored[1..], leaves, classifications, pattern);
      assert monitored == [monitored[0]] + monitored[1..];
      hide SomeLeafMatches, Excused;
    }
  }

  lemma ReportedIff(monitored: seq<string>, leaves: seq<string>, classifications: seq<Classification>, pattern: string)
    ensures pattern in UnmatchedMonitored(monitored, leaves, classifications) <==>
            pattern in monitored && !SomeLeafMatches(pattern, leaves) && !Excused(pattern, classifications)
  {
    UnmatchedMonitoredIs(monitored, leaves, classifications, pattern);
    assert pattern in UnmatchedMonitored(monitored, leaves, classifications) <==>
           pattern in multiset(UnmatchedMonitored(monitored, leaves, classifications));
    assert pattern in monitored <==> pattern in multiset(monitored);
    hide PathMatchesPattern, UnmatchedMonitored;
    assert SomeLeafMatches(pattern, leaves) <==> exists leaf :: leaf in leaves && PathMatchesPattern(pattern, leaf);
    assert Excused(pattern, classifications) <==>
           exists item :: item in classifications && item.allowNoSchemaPath
                          && PathMatchesPattern(item.pattern, pattern);
  }

  /** A pattern without `**` is reported exactly when it matches no leaf and no allowed classification covers it. */
  lemma ReportedIffUncovered(monitored: seq<string>, leaves: seq<string>,
                             classifications: seq<Classification>, pattern: string)
    requires pattern in monitored && !HasDoubleStar(pattern)
    ensures pattern in UnmatchedMonitored(monitored, leaves, classifications) <==>
            && (forall leaf | leaf in leaves :: !PathMatchesPattern(pattern, leaf))
            && (forall item | item in classifications && item.allowNoSchemaPath :: !Covers(item.pattern, pattern))
  {
    ReportedIff(monitored, leaves, classifications, pattern);
    forall item: Classification ensures PathMatchesPattern(item.pattern, pattern) <==> Covers(item.pattern, pattern) {
      MatchingAPatternIsCovering(item.pattern, pattern);
    }
    hide PathMatchesPattern, Covers;
    assert SomeLeafMatches(pattern, leaves) <==> exists leaf :: leaf in leaves && PathMatchesPattern(pattern, leaf);
  }

  /** A path added later under an excused pattern without `**` is classified from the start. */
  lemma ExcusedPathsAreClassified(leaves: seq<string>, classifications: seq<Classification>,
                                  pattern: string, path: string)
    requires !HasDoubleStar(pattern) && PathMatchesPattern(pattern, path)
    requires UnmatchedMonitored([pattern], leaves, classifications) == [] && !SomeLeafMatches(pattern, leaves)
    ensures Classify(classifications, path).Some?
  {
    ReportedIff([pattern], leaves, classifications, pattern);
    var i :| 0 <= i < |classifications| && classifications[i].allowNoSchemaPath
             && PathMatchesPattern(classifications[i].pattern, pattern);
    MatchingAPatternIsCovering(classifications[i].pattern, pattern);
    assert classifications[i] in classifications;
    ClassifyFindsFirst(classifications, path);
  }

  /** With `**` the excuse hides a path that nothing classifies. */
  lemma ExcuseHidesAPath(pattern: string) returns (classifications: seq<Classification>, path: string)
    requires HasDoubleStar(pattern)
    ensures UnmatchedMonitored([pattern], [], classifications) == []
    ensures PathMatchesPattern(pattern, path) && Classify(classifications, path) == None
  {
    var wide, value := DoubleStarEscapes(pattern);
    classifications, path := [Classification(wide, true)], value;
    assert classifications[0].allowNoSchemaPath && PathMatchesPattern(classifications[0].pattern, pattern);
    assert Excused(pattern, classifications);
    ReportedIff([pattern], [], classifications, pattern);
  }
}
