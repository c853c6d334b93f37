/** Rendering translations as Android string resources, and what the platform makes of them. */
module AndroidResources {
  import opened Wrappers
  import opened Text
  import opened KotlinTemplates
  import opened AndroidEscaping
  import opened AndroidPlaceholders

  // ------------------------------------------------------------------ rendering

  function Render(source: string, translated: string): Result<string> {
    match Compile(source, translated)
    case Err(error) => Err(error)
    case Ok(compiled) => Ok(EscapeResource(compiled))
  }

  // ------------------------------------------------------------------ what the platform reads back

  /** Position `i` of the text lies outside its interpolations. */
  predicate IsPlain(interpolations: seq<Interpolation>, i: int) {
    forall k :: 0 <= k < |interpolations| ==> !(interpolations[k].start <= i < interpolations[k].end)
  }

  /** Outside the interpolations, a backslash stands directly in front of the letter n. */
  predicate PlainBackslashN(text: string, interpolations: seq<Interpolation>, i: nat) {
    BackslashN(text, i) && IsPlain(interpolations, i) && IsPlain(interpolations, i + 1)
  }

  /** The translation that escaping and decoding make of the given one. */
  function BreakPlain(text: string, interpolations: seq<Interpolation>): (r: string)
    ensures |r| == |text|
    ensures forall i :: 0 <= i < |text| ==>
              r[i] == if i > 0 && PlainBackslashN(text, interpolations, i - 1) then '\n' else text[i]
  {
    seq(|text|, i requires 0 <= i < |text| =>
      if i > 0 && PlainBackslashN(text, interpolations, i - 1) then '\n' else text[i])
  }

  ghost predicate Survives(text: string, interpolations: seq<Interpolation>) {
    forall i: nat :: !PlainBackslashN(text, interpolations, i)
  }

  lemma SurvivesIffUnbroken(text: string, interpolations: seq<Interpolation>)
    ensures Survives(text, interpolations) <==> BreakPlain(text, interpolations) == text
  {
    forall i: nat | PlainBackslashN(text, interpolations, i) ensures BreakPlain(text, interpolations) != text {
      assert BreakPlain(text, interpolations)[i + 1] == '\n';
    }
  }

  lemma {:induction false} Ascending(text: string, interpolations: seq<Interpolation>, j: nat, k: nat)
    requires InOrder(text, interpolations) && j <= k <= |interpolations|
    ensures CursorAt(interpolations, j) <= CursorAt(interpolations, k) <= GapEnd(text, interpolations, k)
    decreases k - j
  {
    assert Placed(text, interpolations, k);
    if j < k {
      Ascending(text, interpolations, j, k - 1);
      assert Placed(text, interpolations, k - 1);
    }
  }

  /** A position of a gap is plain, and the position before the gap is not. */
  lemma GapIsPlain(text: string, interpolations: seq<Interpolation>, k: nat, i: nat)
    requires InOrder(text, interpolations) && k <= |interpolations|
    requires CursorAt(interpolations, k) <= i < GapEnd(text, interpolations, k)
    ensures IsPlain(interpolations, i)
    ensures i == CursorAt(interpolations, k) && k > 0 ==> i > 0 && !IsPlain(interpolations, i - 1)
  {
    hide InOrder;
    forall j | 0 <= j < |interpolations| ensures !(interpolations[j].start <= i < interpolations[j].end) {
      if j < k {
        Ascending(text, interpolations, j + 1, k);
      } else {
        Ascending(text, interpolations, k, j);
        if k < j { Ascending(text, interpolations, k + 1, j); PlacedAt(text, interpolations, k); }
      }
    }
    if k > 0 { PlacedAt(text, interpolations, k - 1); }
  }

  lemma PlacedAt(text: string, interpolations: seq<Interpolation>, k: nat)
    requires InOrder(text, interpolations) && k <= |interpolations|
    ensures Placed(text, interpolations, k)
  {
  }

  /** Every plain position lies in some gap. */
  lemma {:induction false} GapOf(text: string, interpolations: seq<Interpolation>, i: nat, from: nat) returns (k: nat)
    requires IsPlain(interpolations, i) && from <= |interpolations| && i < GapEnd(text, interpolations, from)
    ensures k <= |interpolations| && CursorAt(interpolations, k) <= i < GapEnd(text, interpolations, k)
  {
    if CursorAt(interpolations, from) <= i {
      k := from;
    } else {
      k := GapOf(text, interpolations, i, from - 1);
    }
  }

  /** Each gap is broken as it is on its own. */
  lemma BreakGap(text: string, interpolations: seq<Interpolation>, k: nat)
    requires InOrder(text, interpolations) && k <= |interpolations|
    ensures InOrder(BreakPlain(text, interpolations), interpolations)
    ensures Gap(BreakPlain(text, interpolations), interpolations, k) == Broken(Gap(text, interpolations, k))
  {
    var broken := BreakPlain(text, interpolations);
    forall j: nat | j <= |interpolations| ensures Placed(broken, interpolations, j) {
      PlacedAt(text, interpolations, j);
    }
    hide InOrder, BackslashN;
    PlacedAt(text, interpolations, k);
    var gap, c := Gap(text, interpolations, k), CursorAt(interpolations, k);
    forall p: nat | p < |gap| ensures Gap(broken, interpolations, k)[p] == Broken(gap)[p] {
      BreakChar(text, interpolations, k, p);
    }
  }

  lemma BreakChar(text: string, interpolations: seq<Interpolation>, k: nat, p: nat)
    requires InOrder(text, interpolations) && k <= |interpolations| && p < |Gap(text, interpolations, k)|
    ensures BreakPlain(text, interpolations)[CursorAt(interpolations, k) + p] == Broken(Gap(text, interpolations, k))[p]
  {
    PlacedAt(text, interpolations, k);
    hide InOrder;
    var i := CursorAt(interpolations, k) + p;
    GapIsPlain(text, interpolations, k, i);
    var gap := Gap(text, interpolations, k);
    assert gap[p] == text[i];
    hide IsPlain;
    if p > 0 {
      GapIsPlain(text, interpolations, k, i - 1);
      assert gap[p - 1] == text[i - 1];
      assert BackslashN(gap, p - 1) <==> BackslashN(text, i - 1);
    }
  }

  lemma {:induction false} BrokenDoubled(s: string)
    ensures Broken(DoublePercents(s)) == DoublePercents(Broken(s))
    ensures s != "" ==> DoublePercents(s) != "" && DoublePercents(s)[0] == s[0]
    decreases |s|
  {
    if s == "" {
    } else if BackslashN(s, 0) {
      BrokenDoubled(s[2..]);
      BrokenPair(s);
      assert s == ['\\'] + (['n'] + s[2..]);
      DoubledHead('\\', ['n'] + s[2..]);
      DoubledHead('n', s[2..]);
      BrokenPair(DoublePercents(s));
      assert DoublePercents(s)[2..] == DoublePercents(s[2..]);
      DoubledPair(Broken(s[2..]));
    } else {
      BrokenDoubled(s[1..]);
      BrokenHead(s);
      var head := if s[0] == '%' then "%%" else [s[0]];
      assert s == [s[0]] + s[1..];
      DoubledHead(s[0], s[1..]);
      assert head == "%%" || head == [s[0]];
      BrokenConcat(head, DoublePercents(s[1..]));
      assert Broken(head) == head;
      DoubledHead(s[0], Broken(s[1..]));
    }
  }

  lemma DoubledHead(c: char, rest: string)
    ensures DoublePercents([c] + rest) == (if c == '%' then "%%" else [c]) + DoublePercents(rest)
  {
    assert ([c] + rest)[1..] == rest;
  }

  lemma DoubledPair(rest: string)
    ensures DoublePercents("\\" + ("\n" + rest)) == "\\" + ("\n" + DoublePercents(rest))
  {
    DoubledHead('\\', "\n" + rest);
    DoubledHead('\n', rest);
  }

  lemma BrokenDirective(index: nat)
    ensures Broken(Directive(index)) == Directive(index)
    ensures Directive(index) != "" && Directive(index)[0] == '%' && Directive(index)[|Directive(index)| - 1] == 's'
  {
    assert '\\' !in Decimal(index);
    assert '\\' !in Directive(index);
    hide Directive;
  }

  /** One gap and the directive behind it, compiled. */
  function Added(compiled: string, gap: string, index: nat): string {
    compiled + DoublePercents(gap) + Directive(index)
  }

  /** A compiled text up to a directive, and what becomes of it. */
  ghost predicate Breaks(compiled: string, broken: string) {
    (compiled == "" || compiled[|compiled| - 1] == 's') && Broken(compiled) == broken
  }

  lemma NothingBreaks(text: string, interpolations: seq<Interpolation>, source: seq<string>)
    requires InOrder(text, interpolations)
    ensures Compiled(text, interpolations, source, 0) == "" && Breaks("", "")
  {
  }

  lemma BreaksFurther(compiled: string, broken: string, gap: string, index: nat)
    requires Breaks(compiled, broken)
    ensures Breaks(Added(compiled, gap, index), Added(broken, Broken(gap), index))
  {
    BrokenDirective(index);
    BrokenDoubled(gap);
    hide DoublePercents, Directive;
    BrokenConcat(compiled, DoublePercents(gap));
    BrokenConcat(compiled + DoublePercents(gap), Directive(index));
  }

  /** What the k-th interpolation is compiled to does not depend on what the tokens stand for. */
  lemma DirectiveAt(interpolations: seq<Interpolation>, source: seq<string>, k: nat) returns (index: nat)
    requires multiset(source) == multiset(Tokens(interpolations)) && 0 < k <= |interpolations|
    ensures Placeholder(source, Tokens(interpolations), k - 1) == Directive(index)
  {
    index := PlaceholderOf(source, Tokens(interpolations), token => token, k - 1);
  }

  lemma CompiledAdds(text: string, interpolations: seq<Interpolation>, source: seq<string>, k: nat, index: nat)
    requires InOrder(text, interpolations) && 0 < k <= |interpolations|
    requires Placeholder(source, Tokens(interpolations), k - 1) == Directive(index)
    ensures Compiled(text, interpolations, source, k)
         == Added(Compiled(text, interpolations, source, k - 1), Gap(text, interpolations, k - 1), index)
  {
    hide Placeholder, DoublePercents, Directive;
  }

  /** Escaping and decoding a compiled text is compiling the broken text. */
  lemma {:induction false} BrokenCompiled(text: string, interpolations: seq<Interpolation>, source: seq<string>,
                                          k: nat)
    requires InOrder(text, interpolations) && InOrder(BreakPlain(text, interpolations), interpolations)
    requires multiset(source) == multiset(Tokens(interpolations)) && k <= |interpolations|
    ensures Breaks(Compiled(text, interpolations, source, k),
                   Compiled(BreakPlain(text, interpolations), interpolations, source, k))
  {
    hide *;
    var broken := BreakPlain(text, interpolations);
    if k == 0 {
      NothingBreaks(text, interpolations, source);
      NothingBreaks(broken, interpolations, source);
    } else {
      PlacedAt(text, interpolations, k - 1);
      var index := DirectiveAt(interpolations, source, k);
      BrokenCompiled(text, interpolations, source, k - 1);
      BreakGap(text, interpolations, k - 1);
      CompiledAdds(text, interpolations, source, k, index);
      CompiledAdds(broken, interpolations, source, k, index);
      BreaksFurther(Compiled(text, interpolations, source, k - 1), Compiled(broken, interpolations, source, k - 1),
                    Gap(text, interpolations, k - 1), index);
    }
  }

  lemma BrokenCompiledWhole(text: string, interpolations: seq<Interpolation>, source: seq<string>)
    requires InOrder(text, interpolations) && multiset(source) == multiset(Tokens(interpolations))
    ensures InOrder(BreakPlain(text, interpolations), interpolations)
    ensures Broken(CompiledWhole(text, interpolations, source))
         == CompiledWhole(BreakPlain(text, interpolations), interpolations, source)
  {
    var n := |interpolations|;
    BreakGap(text, interpolations, n);
    BrokenCompiled(text, interpolations, source, n);
    BrokenDoubled(Gap(text, interpolations, n));
    BrokenConcat(Compiled(text, interpolations, source, n), DoublePercents(Gap(text, interpolations, n)));
  }

  // ------------------------------------------------------------------ what the formatter makes of it

  /** Texts of one length with the same interpolations mean the same, up to the k-th one, only if their gaps agree. */
  lemma {:induction false} MeaningsDiffer(a: string, b: string, interpolations: seq<Interpolation>,
                                          value: string -> string, k: nat)
    requires InOrder(a, interpolations) && InOrder(b, interpolations) && |a| == |b| && k <= |interpolations|
    ensures |Meaning(a, interpolations, value, k)| == |Meaning(b, interpolations, value, k)|
    ensures Meaning(a, interpolations, value, k) == Meaning(b, interpolations, value, k) ==>
              forall j: nat | j < k :: Gap(a, interpolations, j) == Gap(b, interpolations, j)
  {
    if k > 0 {
      MeaningsDiffer(a, b, interpolations, value, k - 1);
      var m, m' := Meaning(a, interpolations, value, k - 1), Meaning(b, interpolations, value, k - 1);
      var g, g' := Gap(a, interpolations, k - 1), Gap(b, interpolations, k - 1);
      SameParts(m, g, m', g', value(interpolations[k - 1].value));
    }
  }

  lemma SameParts(a: string, b: string, a': string, b': string, end: string)
    requires |a| == |a'| && |b| == |b'|
    ensures a + b + end == a' + b' + end ==> a == a' && b == b'
  {
    var s, s' := a + b + end, a' + b' + end;
    assert a == s[..|a|] && b == s[|a|..|a| + |b|];
    assert a' == s'[..|a|] && b' == s'[|a|..|a| + |b|];
  }

  lemma MeaningWholesDiffer(a: string, b: string, interpolations: seq<Interpolation>, value: string -> string)
    requires InOrder(a, interpolations) && InOrder(b, interpolations) && |a| == |b|
    requires MeaningWhole(a, interpolations, value) == MeaningWhole(b, interpolations, value)
    ensures forall j: nat | j <= |interpolations| :: Gap(a, interpolations, j) == Gap(b, interpolations, j)
  {
    var n := |interpolations|;
    MeaningsDiffer(a, b, interpolations, value, n);
    var m, m' := Meaning(a, interpolations, value, n), Meaning(b, interpolations, value, n);
    var g, g' := Gap(a, interpolations, n), Gap(b, interpolations, n);
    hide Meaning;
    assert m + g + "" == m + g && m' + g' + "" == m' + g';
    SameParts(m, g, m', g', "");
  }

  /** A text that has to be broken does not mean the same once it is. */
  lemma BrokenMeansOther(text: string, interpolations: seq<Interpolation>, value: string -> string)
    requires InOrder(text, interpolations) && InOrder(BreakPlain(text, interpolations), interpolations)
    ensures var broken := BreakPlain(text, interpolations);
            MeaningWhole(text, interpolations, value) == MeaningWhole(broken, interpolations, value) <==>
            Survives(text, interpolations)
  {
    var broken := BreakPlain(text, interpolations);
    SurvivesIffUnbroken(text, interpolations);
    if MeaningWhole(text, interpolations, value) == MeaningWhole(broken, interpolations, value) {
      MeaningWholesDiffer(text, broken, interpolations, value);
      hide Meaning;
      forall i: nat ensures !PlainBackslashN(text, interpolations, i) {
        if PlainBackslashN(text, interpolations, i) {
          DifferentGaps(text, interpolations, i);
        }
      }
    }
  }

  lemma DifferentGaps(text: string, interpolations: seq<Interpolation>, i: nat)
    requires InOrder(text, interpolations) && InOrder(BreakPlain(text, interpolations), interpolations)
    requires PlainBackslashN(text, interpolations, i)
    ensures exists j: nat :: j <= |interpolations|
              && Gap(BreakPlain(text, interpolations), interpolations, j) != Gap(text, interpolations, j)
  {
    var broken := BreakPlain(text, interpolations);
    assert broken[i + 1] == '\n' && text[i + 1] == 'n';
    var j := GapOf(text, interpolations, i + 1, |interpolations|);
    PlacedAt(text, interpolations, j);
    PlacedAt(broken, interpolations, j);
    hide InOrder, PlainBackslashN, BreakPlain;
    var p := i + 1 - CursorAt(interpolations, j);
    assert Gap(broken, interpolations, j)[p] == broken[i + 1] && Gap(text, interpolations, j)[p] == text[i + 1];
  }

  /**
   * What the platform makes of a rendered resource: it reads back the compiled text, and formatting that with the
   * values of the source's tokens says what the translation says, both exactly when no backslash of the translation
   * stands directly in front of the letter n outside its interpolations.
   */
  lemma RenderedResourceMeans(source: string, translated: string, value: string -> string)
    requires Render(source, translated).Ok?
    ensures Compile(source, translated).Ok? && Read(source, 0).Some? && Read(translated, 0).Some?
    ensures var compiled := Compile(source, translated).value;
            var decoded := DecodeAndroidResourceValue(Quoted(Render(source, translated).value));
            var tokens := Tokens(Read(source, 0).value);
            var survives := Survives(translated, Read(translated, 0).value);
            && (decoded == compiled <==> survives)
            && (if tokens == [] then decoded == Evaluate(translated, value)
                else Format(decoded, Values(tokens, value)) == Some(Evaluate(translated, value))) == survives
  {
    var interpolations, tokens := Read(translated, 0).value, Tokens(Read(source, 0).value);
    ReadIsInOrder(translated);
    DecodingBreaks(Compile(source, translated).value);
    assert multiset(tokens) == multiset(Tokens(interpolations));
    hide Read, Tokens, Values, Format, CompiledWhole, MeaningWhole, Survives, Broken, BreakPlain, InOrder,
      DecodeAndroidResourceValue, EscapeResource, Quoted;
    if tokens == [] {
      NothingToCompile(translated, interpolations, value);
      PlainSurvives(translated);
    } else {
      var broken := BreakPlain(translated, interpolations);
      BrokenCompiledWhole(translated, interpolations, tokens);
      CompiledWholeMeans(translated, interpolations, tokens, value);
      CompiledWholeMeans(broken, interpolations, tokens, value);
      BrokenMeansOther(translated, interpolations, value);
      SurvivesIffUnbroken(translated, interpolations);
    }
  }

  lemma PlainSurvives(text: string)
    ensures Survives(text, []) <==> Broken(text) == text
  {
    BrokenIffBackslashN(text);
    hide BackslashN;
    assert forall i: nat :: PlainBackslashN(text, [], i) <==> BackslashN(text, i);
  }

  /** `counts` holds how often each token occurs among `tokens`, and nothing else. */
  ghost predicate Counts(counts: map<string, nat>, tokens: seq<string>) {
    forall t ::
      && (t in counts ==> counts[t] == Count(tokens, t) && counts[t] > 0)
      && (t !in counts ==> Count(tokens, t) == 0)
  }

  lemma OneMoreToken(counts: map<string, nat>, tokens: seq<string>, k: nat)
    requires k < |tokens| && Counts(counts, tokens[..k])
    ensures var t := tokens[k];
            Counts(counts[t := (if t in counts then counts[t] else 0) + 1], tokens[..k + 1])
  {
    assert tokens[..k + 1][..k] == tokens[..k];
  }

  method TokenCounts(tokens: seq<string>) returns (counts: map<string, nat>)
    ensures Counts(counts, tokens)
  {
    counts := map[];
    for k := 0 to |tokens|
      invariant Counts(counts, tokens[..k])
    {
      OneMoreToken(counts, tokens, k);
      counts := counts[tokens[k] := (if tokens[k] in counts then counts[tokens[k]] else 0) + 1];
    }
    assert tokens[..|tokens|] == tokens;
  }

  lemma EqualCounts(a: map<string, nat>, s: seq<string>, b: map<string, nat>, t: seq<string>)
    requires Counts(a, s) && Counts(b, t)
    ensures a == b <==> multiset(s) == multiset(t)
  {
    forall x ensures Count(s, x) == multiset(s)[x] && Count(t, x) == multiset(t)[x] {
      CountIsMultiplicity(s, x);
      CountIsMultiplicity(t, x);
    }
    if a == b {
      assert forall x :: multiset(s)[x] == multiset(t)[x];
    }
    if multiset(s) == multiset(t) {
      assert a.Keys == b.Keys && a == b;
    }
  }

  ghost predicate IndexesAll(indices: map<string, seq<nat>>, tokens: seq<string>) {
    forall t :: (if t in indices then indices[t] else []) == Indices(tokens, t)
  }

  method SourceIndices(tokens: seq<string>) returns (indices: map<string, seq<nat>>)
    ensures IndexesAll(indices, tokens)
  {
    indices := map[];
    for k := 0 to |tokens|
      invariant IndexesAll(indices, tokens[..k])
    {
      assert tokens[..k + 1][..k] == tokens[..k];
      var known := if tokens[k] in indices then indices[tokens[k]] else [];
      indices := indices[tokens[k] := known + [k + 1]];
    }
    assert tokens[..|tokens|] == tokens;
  }

  method RenderAndroidResourceValue(source: string, translated: string) returns (r: Result<string>)
    ensures r == Render(source, translated)
  {
    hide *;
    var sourceRead := ReadKotlinInterpolations(source);
    var translatedRead := ReadKotlinInterpolations(translated);
    CompileCases(source, translated);
    if sourceRead.None? || translatedRead.None? {
      r := Err(UnbalancedInterpolation);
      return;
    }
    var interpolations := translatedRead.value;
    var tokens, uses := Tokens(sourceRead.value), Tokens(interpolations);
    var sourceCounts := TokenCounts(tokens);
    var useCounts := TokenCounts(uses);
    EqualCounts(sourceCounts, tokens, useCounts, uses);
    if sourceCounts != useCounts {
      r := Err(ChangedPlaceholders);
      return;
    }
    var rendered := translated;
    if |tokens| > 0 {
      ReadIsInOrder(translated);
      var sourceIndices := SourceIndices(tokens);
      rendered := CompileUses(translated, interpolations, tokens, sourceIndices);
    }
    r := Ok(EscapeResource(rendered));
  }

  lemma CompileCases(source: string, translated: string)
    ensures var s, t, r := Read(source, 0), Read(translated, 0), Render(source, translated);
            && (s.None? || t.None? ==> r == Err(UnbalancedInterpolation))
            && (s.Some? && t.Some? ==>
                  var tokens := Tokens(s.value);
                  && InOrder(translated, t.value)
                  && (multiset(tokens) != multiset(Tokens(t.value)) ==> r == Err(ChangedPlaceholders))
                  && (multiset(tokens) == multiset(Tokens(t.value)) && tokens == [] ==>
                        r == Ok(EscapeResource(translated)))
                  && (multiset(tokens) == multiset(Tokens(t.value)) && tokens != [] ==>
                        r == Ok(EscapeResource(CompiledWhole(translated, t.value, tokens)))))
  {
    hide EscapeResource, Compiled;
    if Read(translated, 0).Some? { ReadIsInOrder(translated); }
  }

  lemma NothingCompiled(text: string, interpolations: seq<Interpolation>, source: seq<string>)
    requires InOrder(text, interpolations)
    ensures Compiled(text, interpolations, source, 0) == "" && Counts(map[], Tokens(interpolations)[..0])
    ensures CursorAt(interpolations, 0) == 0
  {
  }

  lemma OneMoreUse(text: string, interpolations: seq<Interpolation>, source: seq<string>, k: nat)
    requires InOrder(text, interpolations) && k < |interpolations|
    ensures CursorAt(interpolations, k) <= interpolations[k].start < interpolations[k].end <= |text|
    ensures CursorAt(interpolations, k + 1) == interpolations[k].end
    ensures Compiled(text, interpolations, source, k + 1) ==
            Compiled(text, interpolations, source, k)
            + ReplaceAll(text[CursorAt(interpolations, k)..interpolations[k].start], "%", "%%")
            + Placeholder(source, Tokens(interpolations), k)
  {
    assert Placed(text, interpolations, k);
    hide ReplaceAll, Placeholder, Tokens;
  }

  lemma UseOf(source: seq<string>, uses: seq<string>, k: nat, indices: map<string, seq<nat>>,
              occurrences: map<string, nat>)
    requires k < |uses| && IndexesAll(indices, source) && Counts(occurrences, uses[..k])
    ensures var token := uses[k];
            var known := if token in indices then indices[token] else [];
            var occurrence := if token in occurrences then occurrences[token] else 0;
            Placeholder(source, uses, k) ==
              if occurrence < |known| && known[occurrence] != 0 then Directive(known[occurrence]) else token
  {
    hide Count, Indices, Directive;
  }

  lemma LastGap(text: string, interpolations: seq<Interpolation>, source: seq<string>)
    requires InOrder(text, interpolations)
    ensures CursorAt(interpolations, |interpolations|) <= |text|
    ensures CompiledWhole(text, interpolations, source) ==
            Compiled(text, interpolations, source, |interpolations|)
            + ReplaceAll(text[CursorAt(interpolations, |interpolations|)..], "%", "%%")
  {
    assert Placed(text, interpolations, |interpolations|);
    var c := CursorAt(interpolations, |interpolations|);
    assert text[c..] == text[c..|text|];
    hide Compiled, ReplaceAll;
  }

  method CompileUses(text: string, interpolations: seq<Interpolation>, source: seq<string>,
                     indices: map<string, seq<nat>>)
    returns (rendered: string)
    requires InOrder(text, interpolations) && IndexesAll(indices, source)
    ensures rendered == CompiledWhole(text, interpolations, source)
  {
    hide *;
    var occurrences: map<string, nat> := map[];
    var cursor := 0;
    rendered := "";
    ghost var uses := Tokens(interpolations);
    NothingCompiled(text, interpolations, source);
    for k := 0 to |interpolations|
      invariant cursor == CursorAt(interpolations, k)
      invariant rendered == Compiled(text, interpolations, source, k)
      invariant Counts(occurrences, uses[..k])
    {
      var it := interpolations[k];
      OneMoreUse(text, interpolations, source, k);
      rendered := rendered + ReplaceAll(text[cursor..it.start], "%", "%%");
      var token := it.value;
      assert uses[k] == token;
      var occurrence := if token in occurrences then occurrences[token] else 0;
      OneMoreToken(occurrences, uses, k);
      UseOf(source, uses, k, indices, occurrences);
      occurrences := occurrences[token := occurrence + 1];
      var known := if token in indices then indices[token] else [];
      if occurrence < |known| && known[occurrence] != 0 {
        rendered := rendered + Directive(known[occurrence]);
      } else {
        rendered := rendered + token;
      }
      cursor := it.end;
    }
    LastGap(text, interpolations, source);
    rendered := rendered + ReplaceAll(text[cursor..], "%", "%%");
  }
}
