/** Reading the `$name` and `${...}` interpolations of a Kotlin string template. */
module KotlinTemplates {
  import opened Placeholders
  import opened Quotes
  import opened Text
  import opened Wrappers

  datatype Interpolation = Interpolation(start: nat, end: nat, value: string)

  predicate IsIdentifierStart(c: char) { 'a' <= c <= 'z' || 'A' <= c <= 'Z' || c == '_' }

  predicate IsIdentifierPart(c: char) { IsIdentifierStart(c) || '0' <= c <= '9' }

  // ------------------------------------------------------------------ what is read

  function IdentifierEnd(source: string, i: nat): (end: nat)
    requires i <= |source|
    ensures i <= end <= |source|
    ensures forall k :: i <= k < end ==> IsIdentifierPart(source[k])
    ensures end < |source| ==> !IsIdentifierPart(source[end])
    decreases |source| - i
  {
    if i < |source| && IsIdentifierPart(source[i]) then IdentifierEnd(source, i + 1) else i
  }

  /** Inside `${`: the nesting depth, the open quote if any, and whether the next character is escaped. */
  datatype BraceState = BraceState(depth: nat, quote: Option<char>, escaped: bool)

  function BraceStep(s: BraceState, c: char): BraceState {
    if s.escaped then s.(escaped := false)
    else if s.quote.Some? && c == '\\' then s.(escaped := true)
    else if s.quote == Some(c) then s.(quote := None)
    else if s.quote.None? && (c == '"' || c == '\'') then s.(quote := Some(c))
    else if s.quote.None? && c == '{' then s.(depth := s.depth + 1)
    else if s.quote.None? && c == '}' && s.depth > 0 then s.(depth := s.depth - 1)
    else s
  }

  /** The position at which the depth first reaches zero. */
  function ClosingBrace(source: string, i: nat, s: BraceState): (close: Option<nat>)
    requires i <= |source| && s.depth > 0
    ensures close.Some? ==> i <= close.value < |source| && source[close.value] == '}'
    decreases |source| - i
  {
    if i == |source| then None
    else
      var next := BraceStep(s, source[i]);
      if next.depth == 0 then Some(i) else ClosingBrace(source, i + 1, next)
  }

  predicate OpensInterpolation(source: string, i: nat) {
    i + 1 < |source| && source[i] == '$' && (source[i + 1] == '{' || IsIdentifierStart(source[i + 1]))
  }

  /** A dollar sign in front of a brace, or of a word character that is no digit, opens one. */
  lemma OpensIff(source: string, i: nat)
    requires i <= |source|
    ensures OpensInterpolation(source, i) <==>
            "${" <= source[i..] || exists c :: IsWordChar(c) && !IsDigit(c) && ['$', c] <= source[i..]
  {
    if OpensInterpolation(source, i) {
      assert ['$', source[i + 1]] <= source[i..];
    }
  }

  /** A name goes on up to the first character that is no word character. */
  lemma NamesAreWords(source: string, i: nat)
    requires i <= |source|
    ensures var end := IdentifierEnd(source, i);
            && i <= end <= |source| && (forall c | c in source[i..end] :: IsWordChar(c))
            && (end < |source| ==> !IsWordChar(source[end]))
  {
  }

  const OPENED := BraceState(1, None, false)

  /** `None` when some `${` is never closed. */
  function Read(source: string, i: nat): (r: Option<seq<Interpolation>>)
    requires i <= |source|
    decreases |source| - i
  {
    if i == |source| then Some([])
    else if !OpensInterpolation(source, i) then Read(source, i + 1)
    else if source[i + 1] != '{' then
      var end := IdentifierEnd(source, i + 2);
      Found(source, i, end, Read(source, end))
    else
      var close := ClosingBrace(source, i + 2, OPENED);
      if close.None? then None
      else Found(source, i, close.value + 1, Read(source, close.value + 1))
  }

  function Found(source: string, start: nat, end: nat, rest: Option<seq<Interpolation>>): Option<seq<Interpolation>>
    requires start <= end <= |source|
  {
    if rest.None? then None else Some([Interpolation(start, end, source[start..end])] + rest.value)
  }

  // ------------------------------------------------------------------ the loop

  method ReadKotlinInterpolations(source: string) returns (r: Option<seq<Interpolation>>)
    ensures r == Read(source, 0)
  {
    var interpolations: seq<Interpolation> := [];
    var index := 0;
    assert Read(source, 0).Some? ==> [] + Read(source, 0).value == Read(source, 0).value;
    while index < |source|
      invariant index <= |source|
      invariant Read(source, 0) == Prepend(interpolations, Read(source, index))
    {
      if source[index] != '$' {
        index := index + 1;
        continue;
      }
      if index + 1 >= |source| || (source[index + 1] != '{' && !IsIdentifierStart(source[index + 1])) {
        index := index + 1;
        continue;
      }
      var start := index;
      ghost var before := interpolations;
      if source[index + 1] != '{' {
        index := index + 2;
        while index < |source| && IsIdentifierPart(source[index])
          invariant start + 2 <= index <= |source|
          invariant IdentifierEnd(source, start + 2) == IdentifierEnd(source, index)
        {
          index := index + 1;
        }
        interpolations := interpolations + [Interpolation(start, index, source[start..index])];
        PrependFound(source, before, start, index, Read(source, index));
        continue;
      }
      var state := OPENED;
      index := index + 2;
      while index < |source|
        invariant start + 2 <= index <= |source| && state.depth > 0
        invariant ClosingBrace(source, start + 2, OPENED) == ClosingBrace(source, index, state)
        invariant interpolations == before
        invariant Read(source, 0) == Prepend(interpolations, Read(source, start))
      {
        state := BraceStep(state, source[index]);
        if state.depth == 0 {
          interpolations := interpolations + [Interpolation(start, index + 1, source[start..index + 1])];
          PrependFound(source, before, start, index + 1, Read(source, index + 1));
          break;
        }
        index := index + 1;
      }
      if state.depth != 0 {
        r := None;
        return;
      }
      index := index + 1;
    }
    assert interpolations + [] == interpolations;
    r := Some(interpolations);
  }

  ghost function Prepend(first: seq<Interpolation>, rest: Option<seq<Interpolation>>): Option<seq<Interpolation>> {
    if rest.None? then None else Some(first + rest.value)
  }

  lemma PrependFound(source: string, first: seq<Interpolation>, start: nat, end: nat, rest: Option<seq<Interpolation>>)
    requires start <= end <= |source|
    ensures Prepend(first, Found(source, start, end, rest)) ==
            Prepend(first + [Interpolation(start, end, source[start..end])], rest)
  {
    if rest.Some? {
      assert first + ([Interpolation(start, end, source[start..end])] + rest.value) ==
             first + [Interpolation(start, end, source[start..end])] + rest.value;
    }
  }

  // ------------------------------------------------------------------ what the result is

  ghost predicate NothingOpens(source: string, from: nat, to: nat) {
    forall k: nat :: from <= k < to ==> !OpensInterpolation(source, k)
  }

  /** Where a scan stands that began behind an opening `${` at `from` and has read up to `to`. */
  function After(source: string, from: nat, to: nat): BraceState
    requires from <= to <= |source|
  {
    if from == to then OPENED else BraceStep(After(source, from, to - 1), source[to - 1])
  }

  ghost predicate StaysOpen(source: string, from: nat, to: nat) {
    forall j: nat :: from <= j <= to <= |source| ==> After(source, from, j).depth > 0
  }

  /** The character at `k` is the first behind which no brace is open any more. */
  ghost predicate ClosesAt(source: string, from: nat, k: nat) {
    from <= k < |source| && StaysOpen(source, from, k) && After(source, from, k + 1).depth == 0
  }

  lemma {:induction false} ClosingBraceFrom(source: string, from: nat, i: nat)
    requires from <= i <= |source| && StaysOpen(source, from, i)
    ensures var close := ClosingBrace(source, i, After(source, from, i));
            if close.Some? then ClosesAt(source, from, close.value) else StaysOpen(source, from, |source|)
    decreases |source| - i
  {
    if i < |source| {
      var next := After(source, from, i + 1);
      assert next == BraceStep(After(source, from, i), source[i]);
      if next.depth > 0 { ClosingBraceFrom(source, from, i + 1); }
    }
  }

  /** The search finds the first position at which the depth reaches zero, and nothing exactly if it never does. */
  lemma ClosingBraceIsFirst(source: string, from: nat)
    requires from <= |source|
    ensures forall k: nat :: ClosingBrace(source, from, OPENED) == Some(k) <==> ClosesAt(source, from, k)
    ensures ClosingBrace(source, from, OPENED) == None <==> StaysOpen(source, from, |source|)
  {
    ClosingBraceFrom(source, from, from);
    forall k: nat, l: nat | ClosesAt(source, from, k) && ClosesAt(source, from, l) ensures k == l {
      ClosesOnce(source, from, k, l);
    }
    forall k: nat ensures !(ClosesAt(source, from, k) && StaysOpen(source, from, |source|)) {
      if ClosesAt(source, from, k) { assert After(source, from, k + 1).depth == 0; }
    }
  }

  lemma ClosesOnce(source: string, from: nat, k: nat, l: nat)
    requires ClosesAt(source, from, k) && ClosesAt(source, from, l)
    ensures k == l
  {
  }

  // ------------------------------------------------------------------ where quoted text ends

  /**
   * The brace that closes an interpolation, read in whole steps: a quoted text is skipped up to the quote that ends it,
   * of all else an opening brace is one level more and a closing one a level less.
   */
  ghost function BraceBehind(source: string, i: nat, depth: nat): Option<nat>
    requires i <= |source| && depth > 0
    decreases |source| - i
  {
    if i == |source| then None
    else if source[i] == '"' || source[i] == '\'' then
      var end := QuoteEnd(source, i, i + 1);
      if end.None? then None else BraceBehind(source, end.value + 1, depth)
    else if source[i] == '{' then BraceBehind(source, i + 1, depth + 1)
    else if source[i] != '}' then BraceBehind(source, i + 1, depth)
    else if depth == 1 then Some(i)
    else BraceBehind(source, i + 1, depth - 1)
  }

  /** The search within a quoted text goes on behind its end. */
  lemma {:induction false} QuotedIsSkipped(source: string, open: nat, i: nat, depth: nat)
    requires open < i <= |source| && depth > 0 && (source[open] == '"' || source[open] == '\'')
    ensures var s := BraceState(depth, Some(source[open]), Backslashes(source, open + 1, i) % 2 == 1);
            var end := QuoteEnd(source, open, i);
            ClosingBrace(source, i, s) ==
            if end.None? then None else ClosingBrace(source, end.value + 1, BraceState(depth, None, false))
    decreases |source| - i
  {
    if i < |source| && !EndsQuote(source, open, i) {
      QuotedIsSkipped(source, open, i + 1, depth);
    }
  }

  /** The search character by character finds this brace. */
  lemma {:induction false} ClosingBraceIsBehind(source: string, i: nat, depth: nat)
    requires i <= |source| && depth > 0
    ensures ClosingBrace(source, i, BraceState(depth, None, false)) == BraceBehind(source, i, depth)
    decreases |source| - i
  {
    if i < |source| {
      if source[i] == '"' || source[i] == '\'' {
        QuotedIsSkipped(source, i, i + 1, depth);
        var end := QuoteEnd(source, i, i + 1);
        if end.Some? { ClosingBraceIsBehind(source, end.value + 1, depth); }
      } else if source[i] == '{' {
        ClosingBraceIsBehind(source, i + 1, depth + 1);
      } else if source[i] != '}' {
        ClosingBraceIsBehind(source, i + 1, depth);
      } else if depth > 1 {
        ClosingBraceIsBehind(source, i + 1, depth - 1);
      }
    }
  }

  // ------------------------------------------------------------------ what is read from the source

  /** An interpolation from its `$` to the end of the name or to its closing brace. */
  ghost predicate IsInterpolation(source: string, it: Interpolation) {
    && it.start < it.end <= |source| && it.value == source[it.start..it.end]
    && OpensInterpolation(source, it.start)
    && if source[it.start + 1] == '{' then BraceBehind(source, it.start + 2, 1) == Some(it.end - 1)
       else it.end == IdentifierEnd(source, it.start + 2)
  }

  /** From `from` on these are all the interpolations of the source, in order, and nothing opens between them. */
  ghost predicate Reads(source: string, interpolations: seq<Interpolation>, from: nat) {
    if interpolations == [] then from <= |source| && NothingOpens(source, from, |source|)
    else
      var first := interpolations[0];
      && from <= first.start && IsInterpolation(source, first)
      && NothingOpens(source, from, first.start)
      && Reads(source, interpolations[1..], first.end)
  }

  /** Where the interpolation that opens at `i` ends. */
  function InterpolationEnd(source: string, i: nat): (end: Option<nat>)
    requires OpensInterpolation(source, i)
    ensures end.Some? ==> i < end.value <= |source|
  {
    if source[i + 1] != '{' then Some(IdentifierEnd(source, i + 2))
    else
      var close := ClosingBrace(source, i + 2, OPENED);
      if close.None? then None else Some(close.value + 1)
  }

  lemma OpenedHere(source: string, it: Interpolation)
    requires OpensInterpolation(source, it.start)
    ensures IsInterpolation(source, it) <==>
            && InterpolationEnd(source, it.start).Some?
            && var end := InterpolationEnd(source, it.start).value;
               it == Interpolation(it.start, end, source[it.start..end])
  {
    if source[it.start + 1] == '{' { ClosingBraceIsBehind(source, it.start + 2, 1); }
    hide BraceBehind, ClosingBrace, IdentifierEnd;
  }

  lemma ReadsFromOpening(source: string, i: nat, interpolations: seq<Interpolation>)
    requires i < |source| && OpensInterpolation(source, i)
    ensures Reads(source, interpolations, i) <==>
            && InterpolationEnd(source, i).Some? && interpolations != []
            && var end := InterpolationEnd(source, i).value;
               interpolations[0] == Interpolation(i, end, source[i..end]) && Reads(source, interpolations[1..], end)
  {
    if interpolations != [] {
      var first := interpolations[0];
      assert first.start == i ==> NothingOpens(source, i, first.start);
      if first.start == i { OpenedHere(source, first); }
      hide InterpolationEnd, IsInterpolation, OpensInterpolation;
      assert NothingOpens(source, i, first.start) ==> first.start <= i;
    } else {
      assert NothingOpens(source, i, |source|) ==> !OpensInterpolation(source, i);
    }
  }

  lemma ReadFromOpening(source: string, i: nat, interpolations: seq<Interpolation>)
    requires i < |source| && OpensInterpolation(source, i)
    ensures Read(source, i) == Some(interpolations) <==>
            && InterpolationEnd(source, i).Some? && interpolations != []
            && var end := InterpolationEnd(source, i).value;
               && interpolations[0] == Interpolation(i, end, source[i..end])
               && Read(source, end) == Some(interpolations[1..])
  {
    if InterpolationEnd(source, i).Some? {
      var end := InterpolationEnd(source, i).value;
      assert Read(source, i) == Found(source, i, end, Read(source, end));
      if interpolations != [] {
        assert interpolations == [interpolations[0]] + interpolations[1..];
      }
    }
  }

  /** The reader's result is exactly the interpolations of the source. */
  lemma {:induction false} ReadFindsAll(source: string, i: nat, interpolations: seq<Interpolation>)
    requires i <= |source|
    ensures Read(source, i) == Some(interpolations) <==> Reads(source, interpolations, i)
    decreases |source| - i
  {
    if i == |source| {
    } else if !OpensInterpolation(source, i) {
      ReadFindsAll(source, i + 1, interpolations);
      ReadsFromNext(source, interpolations, i);
    } else {
      ReadsFromOpening(source, i, interpolations);
      ReadFromOpening(source, i, interpolations);
      hide Read, Reads;
      if InterpolationEnd(source, i).Some? && interpolations != [] {
        ReadFindsAll(source, InterpolationEnd(source, i).value, interpolations[1..]);
      }
    }
  }

  lemma ReadsFromNext(source: string, interpolations: seq<Interpolation>, i: nat)
    requires i < |source| && !OpensInterpolation(source, i)
    ensures Reads(source, interpolations, i) <==> Reads(source, interpolations, i + 1)
  {
    if interpolations == [] {
      assert NothingOpens(source, i, |source|) <==> NothingOpens(source, i + 1, |source|);
    } else {
      assert IsInterpolation(source, interpolations[0]) ==> interpolations[0].start != i;
    }
  }

  lemma {:induction false} ReadsAt(source: string, interpolations: seq<Interpolation>, from: nat, k: nat)
    requires Reads(source, interpolations, from) && k <= |interpolations|
    ensures (if k == 0 then from else interpolations[k - 1].end) <= |source|
    ensures k < |interpolations| ==>
              && IsInterpolation(source, interpolations[k])
              && (if k == 0 then from else interpolations[k - 1].end) <= interpolations[k].start
  {
    if k > 0 {
      ReadsAt(source, interpolations[1..], interpolations[0].end, k - 1);
    } else if interpolations != [] {
      assert IsInterpolation(source, interpolations[0]);
    }
  }
}
