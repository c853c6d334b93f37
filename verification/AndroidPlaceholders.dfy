/** Compiling interpolations to positional format arguments (`renderAndroidResourceValue`, before escaping). */
module AndroidPlaceholders {
  import opened Wrappers
  import opened Text
  import opened KotlinTemplates

  datatype Error = UnbalancedInterpolation | ChangedPlaceholders

  datatype Result<+T> = Ok(value: T) | Err(error: Error)

  // ------------------------------------------------------------------ occurrences of tokens

  function Tokens(interpolations: seq<Interpolation>): (tokens: seq<string>)
    ensures |tokens| == |interpolations|
    ensures forall k :: 0 <= k < |tokens| ==> tokens[k] == interpolations[k].value
  {
    if interpolations == [] then []
    else [interpolations[0].value] + Tokens(interpolations[1..])
  }

  function Count(tokens: seq<string>, token: string): nat {
    if tokens == [] then 0
    else Count(tokens[..|tokens| - 1], token) + if tokens[|tokens| - 1] == token then 1 else 0
  }

  /** The places of `token`, counted from one, in order. */
  function Indices(tokens: seq<string>, token: string): (r: seq<nat>)
    ensures |r| == Count(tokens, token)
  {
    if tokens == [] then []
    else
      var front := Indices(tokens[..|tokens| - 1], token);
      if tokens[|tokens| - 1] == token then front + [|tokens|] else front
  }

  /** The argument for the k-th interpolation: its occurrence of the token in the source, counted from one. */
  function Argument(source: seq<string>, translated: seq<string>, k: nat): Option<nat>
    requires k < |translated|
  {
    var indices := Indices(source, translated[k]);
    var occurrence := Count(translated[..k], translated[k]);
    if occurrence < |indices| then Some(indices[occurrence]) else None
  }

  lemma {:induction false} CountIsMultiplicity(tokens: seq<string>, token: string)
    ensures Count(tokens, token) == multiset(tokens)[token]
  {
    if tokens != [] {
      var front := tokens[..|tokens| - 1];
      CountIsMultiplicity(front, token);
      assert tokens == front + [tokens[|tokens| - 1]];
    }
  }

  lemma {:induction false} CountIsMonotone(tokens: seq<string>, token: string, k: nat)
    requires k < |tokens| && tokens[k] == token
    ensures Count(tokens[..k], token) < Count(tokens, token)
  {
    var front := tokens[..|tokens| - 1];
    if k < |front| {
      CountIsMonotone(front, token, k);
      assert front[..k] == tokens[..k];
    }
  }

  /** The o-th place of a token holds that token, and exactly `o` of its occurrences come before. */
  lemma {:induction false} IndicesPoint(tokens: seq<string>, token: string, o: nat)
    requires o < Count(tokens, token)
    ensures var index := Indices(tokens, token)[o];
            1 <= index <= |tokens| && tokens[index - 1] == token && Count(tokens[..index - 1], token) == o
  {
    var front := tokens[..|tokens| - 1];
    if o < Count(front, token) {
      IndicesPoint(front, token, o);
      var index := Indices(front, token)[o];
      assert front[..index - 1] == tokens[..index - 1];
    }
  }

  /** Conversely every place of a token is the one its own count of earlier occurrences leads to. */
  lemma {:induction false} IndicesCover(tokens: seq<string>, k: nat)
    requires k < |tokens|
    ensures Count(tokens[..k], tokens[k]) < Count(tokens, tokens[k])
    ensures Indices(tokens, tokens[k])[Count(tokens[..k], tokens[k])] == k + 1
  {
    CountIsMonotone(tokens, tokens[k], k);
    var front := tokens[..|tokens| - 1];
    if k < |front| {
      IndicesCover(front, k);
      assert front[..k] == tokens[..k];
    }
  }

  ghost predicate IsArgument(source: seq<string>, translated: seq<string>, index: nat) {
    exists k: nat :: k < |translated| && Argument(source, translated, k) == Some(index)
  }

  /**
   * When source and translation use the same tokens equally often, the arguments are a bijection between their
   * interpolations that respects the tokens; in particular no interpolation is without an argument.
   */
  lemma ArgumentsAreABijection(source: seq<string>, translated: seq<string>)
    requires multiset(source) == multiset(translated)
    ensures forall k: nat | k < |translated| ::
              var a := Argument(source, translated, k);
              a.Some? && 1 <= a.value <= |source| && source[a.value - 1] == translated[k]
    ensures forall j: nat, k: nat | j < k < |translated| ::
              Argument(source, translated, j) != Argument(source, translated, k)
    ensures forall index: nat | 1 <= index <= |source| :: IsArgument(source, translated, index)
  {
    forall k: nat | k < |translated|
      ensures var a := Argument(source, translated, k);
              && a.Some? && 1 <= a.value <= |source| && source[a.value - 1] == translated[k]
              && Count(source[..a.value - 1], translated[k]) == Count(translated[..k], translated[k])
    {
      ArgumentExists(source, translated, k);
    }
    forall j: nat, k: nat | j < k < |translated|
      ensures Argument(source, translated, j) != Argument(source, translated, k)
    {
      if translated[j] == translated[k] {
        CountIsMonotone(translated[..k], translated[j], j);
        assert translated[..k][..j] == translated[..j];
      }
    }
    forall index: nat | 1 <= index <= |source|
      ensures IsArgument(source, translated, index)
    {
      var i := index - 1;
      ArgumentExists(translated, source, i);
      var k := Argument(translated, source, i).value - 1;
      IndicesCover(source, i);
      assert Argument(source, translated, k) == Some(i + 1);
    }
  }

  lemma ArgumentExists(source: seq<string>, translated: seq<string>, k: nat)
    requires multiset(source) == multiset(translated) && k < |translated|
    ensures var a := Argument(source, translated, k);
            && a.Some? && 1 <= a.value <= |source| && source[a.value - 1] == translated[k]
            && Count(source[..a.value - 1], translated[k]) == Count(translated[..k], translated[k])
  {
    var token := translated[k];
    CountIsMultiplicity(source, token);
    CountIsMultiplicity(translated, token);
    CountIsMonotone(translated, token, k);
    IndicesPoint(source, token, Count(translated[..k], token));
  }

  // ------------------------------------------------------------------ the compiled text

  function DoublePercents(s: string): string { ReplaceAll(s, "%", "%%") }

  function Directive(index: nat): string { "%" + Decimal(index) + "$s" }

  /** What stands for the k-th interpolation; without an argument the token itself is kept. */
  function Placeholder(source: seq<string>, translated: seq<string>, k: nat): string
    requires k < |translated|
  {
    var argument := Argument(source, translated, k);
    if argument.Some? && argument.value != 0 then Directive(argument.value) else translated[k]
  }

  function CursorAt(interpolations: seq<Interpolation>, k: nat): nat
    requires k <= |interpolations|
  {
    if k == 0 then 0 else interpolations[k - 1].end
  }

  function GapEnd(text: string, interpolations: seq<Interpolation>, k: nat): nat {
    if k < |interpolations| then interpolations[k].start else |text|
  }

  /** The k-th interpolation follows the one before it within the text; the end of the text counts as the last one. */
  predicate Placed(text: string, interpolations: seq<Interpolation>, k: nat)
    requires k <= |interpolations|
  {
    && CursorAt(interpolations, k) <= GapEnd(text, interpolations, k) <= |text|
    && (k < |interpolations| ==> interpolations[k].start < interpolations[k].end <= |text|)
  }

  /** The literal text before the k-th interpolation, or at the end. */
  function Gap(text: string, interpolations: seq<Interpolation>, k: nat): string
    requires k <= |interpolations| && Placed(text, interpolations, k)
  {
    text[CursorAt(interpolations, k)..GapEnd(text, interpolations, k)]
  }

  ghost predicate InOrder(text: string, interpolations: seq<Interpolation>) {
    forall k: nat | k <= |interpolations| :: Placed(text, interpolations, k)
  }

  function Compiled(text: string, interpolations: seq<Interpolation>, source: seq<string>, k: nat): string
    requires InOrder(text, interpolations) && k <= |interpolations|
  {
    if k == 0 then ""
    else
      Compiled(text, interpolations, source, k - 1)
      + DoublePercents(Gap(text, interpolations, k - 1))
      + Placeholder(source, Tokens(interpolations), k - 1)
  }

  function CompiledWhole(text: string, interpolations: seq<Interpolation>, source: seq<string>): string
    requires InOrder(text, interpolations)
  {
    var n := |interpolations|;
    Compiled(text, interpolations, source, n) + DoublePercents(Gap(text, interpolations, n))
  }

  lemma ReadIsInOrder(text: string)
    requires Read(text, 0).Some?
    ensures InOrder(text, Read(text, 0).value)
  {
    var r := Read(text, 0).value;
    ReadFindsAll(text, 0, r);
    forall k: nat | k <= |r| ensures Placed(text, r, k) { ReadsAt(text, r, 0, k); }
  }

  /** The rendered value before escaping. */
  function Compile(source: string, translated: string): Result<string> {
    var sourceRead, translatedRead := Read(source, 0), Read(translated, 0);
    if sourceRead.None? || translatedRead.None? then Err(UnbalancedInterpolation)
    else
      var tokens := Tokens(sourceRead.value);
      if multiset(tokens) != multiset(Tokens(translatedRead.value)) then Err(ChangedPlaceholders)
      else if tokens == [] then Ok(translated)
      else
        ReadIsInOrder(translated);
        Ok(CompiledWhole(translated, translatedRead.value, tokens))
  }

  // ------------------------------------------------------------------ what the text means

  /** The text with every interpolation replaced by the value of its token, up to the k-th one. */
  function Meaning(text: string, interpolations: seq<Interpolation>, value: string -> string, k: nat): string
    requires InOrder(text, interpolations) && k <= |interpolations|
  {
    if k == 0 then ""
    else
      Meaning(text, interpolations, value, k - 1)
      + Gap(text, interpolations, k - 1)
      + value(interpolations[k - 1].value)
  }

  function MeaningWhole(text: string, interpolations: seq<Interpolation>, value: string -> string): string
    requires InOrder(text, interpolations)
  {
    var n := |interpolations|;
    Meaning(text, interpolations, value, n) + Gap(text, interpolations, n)
  }

  function Evaluate(text: string, value: string -> string): string
    requires Read(text, 0).Some?
  {
    ReadIsInOrder(text);
    MeaningWhole(text, Read(text, 0).value, value)
  }

  function DigitsEnd(s: string, i: nat): (end: nat)
    requires i <= |s|
    ensures i <= end <= |s| && forall k :: i <= k < end ==> IsDigit(s[k])
    decreases |s| - i
  {
    if i < |s| && IsDigit(s[i]) then DigitsEnd(s, i + 1) else i
  }

  /** The formatter of the platform for `%%` and `%<index>$s`; anything else after a percent sign fails. */
  function Format(s: string, arguments: seq<string>): Option<string>
    decreases |s|
  {
    if s == "" then Some("")
    else if s[0] != '%' then Then([s[0]], Format(s[1..], arguments))
    else if |s| > 1 && s[1] == '%' then Then("%", Format(s[2..], arguments))
    else
      var end := DigitsEnd(s, 1);
      if 1 < end && end + 1 < |s| && s[end] == '$' && s[end + 1] == 's' && 1 <= Value(s[1..end]) <= |arguments| then
        Then(arguments[Value(s[1..end]) - 1], Format(s[end + 2..], arguments))
      else None
  }

  function Then(first: string, rest: Option<string>): Option<string> {
    if rest.None? then None else Some(first + rest.value)
  }

  function Values(tokens: seq<string>, value: string -> string): (r: seq<string>)
    ensures |r| == |tokens|
    ensures forall i :: 0 <= i < |tokens| ==> r[i] == value(tokens[i])
  {
    seq(|tokens|, i requires 0 <= i < |tokens| => value(tokens[i]))
  }

  /** In front of anything that can be formatted, `s` contributes exactly `meaning`. */
  ghost predicate Formats(s: string, meaning: string, arguments: seq<string>) {
    forall rest: string :: Format(s + rest, arguments) == Then(meaning, Format(rest, arguments))
  }

  lemma FormatsConcat(s: string, meaning: string, s': string, meaning': string, arguments: seq<string>)
    requires Formats(s, meaning, arguments) && Formats(s', meaning', arguments)
    ensures Formats(s + s', meaning + meaning', arguments)
  {
    hide Format;
    forall rest: string
      ensures Format(s + s' + rest, arguments) == Then(meaning + meaning', Format(rest, arguments))
    {
      assert s + s' + rest == s + (s' + rest);
      assert Format(s' + rest, arguments) == Then(meaning', Format(rest, arguments));
      if Format(rest, arguments).Some? {
        var r := Format(rest, arguments).value;
        assert meaning + (meaning' + r) == meaning + meaning' + r;
      }
    }
  }

  lemma {:induction false} DoubledTextFormats(s: string, arguments: seq<string>)
    ensures Formats(DoublePercents(s), s, arguments)
  {
    if s == "" {
      forall rest: string ensures Format("" + rest, arguments) == Then("", Format(rest, arguments)) {
        assert "" + rest == rest;
        assert Format(rest, arguments).Some? ==> "" + Format(rest, arguments).value == Format(rest, arguments).value;
      }
    } else {
      var c := s[0];
      var head := if c == '%' then "%%" else [c];
      DoubledTextFormats(s[1..], arguments);
      assert StartsWith(s, "%") <==> c == '%';
      assert DoublePercents(s) == head + DoublePercents(s[1..]);
      assert Formats(head, [c], arguments) by {
        forall rest: string ensures Format(head + rest, arguments) == Then([c], Format(rest, arguments)) {
          if c == '%' {
            assert (head + rest)[2..] == rest;
          } else {
            assert (head + rest)[1..] == rest;
          }
        }
      }
      FormatsConcat(head, [c], DoublePercents(s[1..]), s[1..], arguments);
      assert [c] + s[1..] == s;
    }
  }

  lemma {:induction false} DigitsEndAt(s: string, i: nat, end: nat)
    requires i <= end < |s| && !IsDigit(s[end])
    requires forall k :: i <= k < end ==> IsDigit(s[k])
    ensures DigitsEnd(s, i) == end
    decreases end - i
  {
    if i < end { DigitsEndAt(s, i + 1, end); }
  }

  lemma DirectiveFormatsBefore(index: nat, arguments: seq<string>, rest: string)
    requires 1 <= index <= |arguments|
    ensures Format(Directive(index) + rest, arguments) == Then(arguments[index - 1], Format(rest, arguments))
  {
    var d := Decimal(index);
    ValueOfDecimal(index);
    hide Decimal, Value;
    var s := Directive(index) + rest;
    var end := 1 + |d|;
    assert s[1..end] == d;
    assert forall k :: 1 <= k < end ==> s[k] == d[k - 1];
    assert s[end] == '$' && s[end + 1] == 's';
    DigitsEndAt(s, 1, end);
    assert s[end + 2..] == rest;
  }

  lemma DirectiveFormats(index: nat, arguments: seq<string>)
    requires 1 <= index <= |arguments|
    ensures Formats(Directive(index), arguments[index - 1], arguments)
  {
    hide Directive, Format;
    forall rest: string
      ensures Format(Directive(index) + rest, arguments) == Then(arguments[index - 1], Format(rest, arguments))
    {
      DirectiveFormatsBefore(index, arguments, rest);
    }
  }

  lemma FormatsNext(s: string, meaning: string, gap: string, index: nat, arguments: seq<string>)
    requires Formats(s, meaning, arguments) && 1 <= index <= |arguments|
    ensures Formats(s + DoublePercents(gap) + Directive(index), meaning + gap + arguments[index - 1], arguments)
  {
    hide Formats, Format, DoublePercents, Directive;
    DoubledTextFormats(gap, arguments);
    FormatsConcat(s, meaning, DoublePercents(gap), gap, arguments);
    DirectiveFormats(index, arguments);
    FormatsConcat(s + DoublePercents(gap), meaning + gap, Directive(index), arguments[index - 1], arguments);
  }

  lemma PlaceholderOf(source: seq<string>, translated: seq<string>, value: string -> string, k: nat)
    returns (index: nat)
    requires multiset(source) == multiset(translated) && k < |translated|
    ensures 1 <= index <= |source| && Placeholder(source, translated, k) == Directive(index)
    ensures Values(source, value)[index - 1] == value(translated[k])
  {
    ArgumentExists(source, translated, k);
    index := Argument(source, translated, k).value;
  }

  lemma NothingFormats(arguments: seq<string>)
    ensures Formats("", "", arguments)
  {
    assert DoublePercents("") == "";
    DoubledTextFormats("", arguments);
  }

  lemma OneMoreCompiled(text: string, interpolations: seq<Interpolation>, source: seq<string>,
                        value: string -> string, k: nat, index: nat)
    requires InOrder(text, interpolations) && 0 < k <= |interpolations|
    requires Placeholder(source, Tokens(interpolations), k - 1) == Directive(index)
    ensures Compiled(text, interpolations, source, k) ==
            Compiled(text, interpolations, source, k - 1)
            + DoublePercents(Gap(text, interpolations, k - 1)) + Directive(index)
    ensures Meaning(text, interpolations, value, k) ==
            Meaning(text, interpolations, value, k - 1)
            + Gap(text, interpolations, k - 1) + value(interpolations[k - 1].value)
  {
    hide Placeholder, DoublePercents, Directive;
  }

  lemma {:induction false} CompiledMeans(text: string, interpolations: seq<Interpolation>, source: seq<string>,
                                         value: string -> string, k: nat)
    requires InOrder(text, interpolations) && k <= |interpolations|
    requires multiset(source) == multiset(Tokens(interpolations))
    ensures Formats(Compiled(text, interpolations, source, k),
                    Meaning(text, interpolations, value, k), Values(source, value))
  {
    var arguments := Values(source, value);
    if k == 0 {
      NothingFormats(arguments);
    } else {
      var index := PlaceholderOf(source, Tokens(interpolations), value, k - 1);
      assert Tokens(interpolations)[k - 1] == interpolations[k - 1].value;
      OneMoreCompiled(text, interpolations, source, value, k, index);
      hide Formats, Compiled, Meaning, DoublePercents, Directive, Placeholder, Tokens, Gap, Values;
      CompiledMeans(text, interpolations, source, value, k - 1);
      FormatsNext(Compiled(text, interpolations, source, k - 1), Meaning(text, interpolations, value, k - 1),
                  Gap(text, interpolations, k - 1), index, arguments);
    }
  }

  lemma FormatsWhole(s: string, meaning: string, arguments: seq<string>)
    requires Formats(s, meaning, arguments)
    ensures Format(s, arguments) == Some(meaning)
  {
    assert s + "" == s && meaning + "" == meaning;
    assert Format(s + "", arguments) == Then(meaning, Format("", arguments));
  }

  /** A compiled text formats to its meaning. */
  lemma CompiledWholeMeans(text: string, interpolations: seq<Interpolation>, source: seq<string>,
                           value: string -> string)
    requires InOrder(text, interpolations) && multiset(source) == multiset(Tokens(interpolations))
    ensures Format(CompiledWhole(text, interpolations, source), Values(source, value))
         == Some(MeaningWhole(text, interpolations, value))
  {
    hide Formats, Format, DoublePercents, Compiled, Meaning, Tokens, Values;
    var arguments, n := Values(source, value), |interpolations|;
    var tail := Gap(text, interpolations, n);
    CompiledMeans(text, interpolations, source, value, n);
    DoubledTextFormats(tail, arguments);
    var body, meaning := Compiled(text, interpolations, source, n), Meaning(text, interpolations, value, n);
    FormatsConcat(body, meaning, DoublePercents(tail), tail, arguments);
    FormatsWhole(body + DoublePercents(tail), meaning + tail, arguments);
  }

  lemma NothingToCompile(text: string, interpolations: seq<Interpolation>, value: string -> string)
    requires InOrder(text, interpolations) && multiset(Tokens(interpolations)) == multiset{}
    ensures interpolations == [] && MeaningWhole(text, interpolations, value) == text
  {
    assert |interpolations| == |multiset(Tokens(interpolations))| == 0;
    assert Placed(text, [], 0) && text[0..|text|] == text;
  }

  /**
   * Compiling preserves meaning: whatever the tokens stand for, formatting the compiled translation with the
   * source's tokens in source order gives the translation with its own tokens replaced.  A text without
   * interpolations is not a format string, and is kept as it is.
   */
  lemma CompilingPreservesMeaning(source: string, translated: string, value: string -> string)
    requires Compile(source, translated).Ok?
    ensures var compiled := Compile(source, translated).value;
            var tokens := Tokens(Read(source, 0).value);
            if tokens == [] then compiled == translated == Evaluate(translated, value)
            else Format(compiled, Values(tokens, value)) == Some(Evaluate(translated, value))
  {
    ReadIsInOrder(translated);
    var interpolations, tokens := Read(translated, 0).value, Tokens(Read(source, 0).value);
    hide Format, CompiledWhole, MeaningWhole, Read, Tokens, Values;
    if tokens == [] {
      NothingToCompile(translated, interpolations, value);
    } else {
      CompiledWholeMeans(translated, interpolations, tokens, value);
    }
  }

  ghost predicate BothRead(source: string, translated: string, s: seq<Interpolation>, t: seq<Interpolation>) {
    Reads(source, s, 0) && Reads(translated, t, 0)
  }

  ghost predicate SameTokens(s: seq<Interpolation>, t: seq<Interpolation>) {
    multiset(Tokens(s)) == multiset(Tokens(t))
  }

  /** Compilation is refused exactly when a `${` stays open or the tokens differ in kind or number. */
  lemma CompileRejectsExactly(source: string, translated: string)
    ensures Compile(source, translated).Ok? <==> exists s, t :: BothRead(source, translated, s, t) && SameTokens(s, t)
    ensures Compile(source, translated) == Err(UnbalancedInterpolation) <==>
            !exists s, t :: BothRead(source, translated, s, t)
  {
    var r, sourceRead, translatedRead := Compile(source, translated), Read(source, 0), Read(translated, 0);
    assert sourceRead.None? || translatedRead.None? ==> r == Err(UnbalancedInterpolation);
    if sourceRead.Some? && translatedRead.Some? {
      assert r.Ok? <==> SameTokens(sourceRead.value, translatedRead.value);
      assert r != Err(UnbalancedInterpolation);
    }
    hide Compile, SameTokens, Read, Reads;
    forall s, t ensures BothRead(source, translated, s, t) <==> sourceRead == Some(s) && translatedRead == Some(t) {
      ReadFindsAll(source, 0, s);
      ReadFindsAll(translated, 0, t);
    }
    if sourceRead.Some? && translatedRead.Some? {
      assert BothRead(source, translated, sourceRead.value, translatedRead.value);
    }
  }
}
