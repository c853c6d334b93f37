/** Building the iOS string catalog (`buildIosCatalog`). */
module IosCatalog {
  import opened Wrappers
  import opened Ordering
  import opened TranslationChoice

  const REQUIRED_LOCALES: seq<string> := [
    "en", "zh-CN", "zh-TW", "pt-BR", "de", "es", "ja-JP", "ko", "fr", "hi", "ar", "it", "tr", "uk", "id", "pl",
    "th", "vi", "nl", "fa", "ru", "sv"]

  datatype StringUnit = StringUnit(state: Option<string>, value: Option<string>)

  type Localizations = map<string, StringUnit>

  type Catalog = map<string, Localizations>

  datatype SourceEntry = SourceEntry(id: string, source: string)

  datatype Translation = Translation(id: string, source: string, translated: string)

  datatype Artifact = Artifact(locale: string, entries: seq<Translation>)

  datatype Contradiction = Contradiction(locale: string, source: string, translations: seq<string>)

  datatype Build = Build(catalog: Catalog, contradictions: seq<Contradiction>)

  /**
   * The generator's input besides the existing catalog: the native entries that `isIosCatalogEntry` lets
   * through, the translation artifacts, and `appleValue`, the rewriting of inflected counts.
   */
  datatype Input = Input(entries: seq<SourceEntry>, artifacts: seq<Artifact>, appleValue: string -> string)

  // ------------------------------------------------------------------ sources and candidates

  function Deduplicated(values: seq<string>): (r: seq<string>)
    ensures forall x :: x in r <==> x in values
    ensures forall i, j :: 0 <= i < j < |r| ==> r[i] != r[j]
  {
    if values == [] then []
    else
      var front := Deduplicated(values[..|values| - 1]);
      var last := values[|values| - 1];
      assert values == values[..|values| - 1] + [last];
      if last in front then front else front + [last]
  }

  function SortedDistinct(values: seq<string>): seq<string> {
    Sort(Deduplicated(values), (a: string, b: string) => Less(a, b))
  }

  lemma SortedDistinctIsCanonical(values: seq<string>)
    ensures var r := SortedDistinct(values);
            && (forall x :: x in r <==> x in values)
            && (forall i, j :: 0 <= i < j < |r| ==> Less(r[i], r[j]))
  {
    var r := SortedDistinct(values);
    LessIsOrder();
    SortPermutes(Deduplicated(values), (a: string, b: string) => Less(a, b));
    SortSorts(Deduplicated(values), (a: string, b: string) => Less(a, b));
    forall i, j | 0 <= i < j < |r| ensures Less(r[i], r[j]) {
      assert multiset(r)[r[i]] <= 1 by { DistinctCountsOnce(Deduplicated(values), r[i]); }
      assert r[i] != r[j] by {
        if r[i] == r[j] { TwiceInMultiset(r, i, j); }
      }
      LessIsTotal(r[i], r[j]);
    }
  }

  lemma {:induction false} DistinctCountsOnce<T>(s: seq<T>, x: T)
    requires forall i, j :: 0 <= i < j < |s| ==> s[i] != s[j]
    ensures multiset(s)[x] <= 1
  {
    if s != [] {
      DistinctCountsOnce(s[1..], x);
      assert s == [s[0]] + s[1..];
      assert s[0] !in s[1..];
    }
  }

  lemma TwiceInMultiset<T>(s: seq<T>, i: nat, j: nat)
    requires i < j < |s| && s[i] == s[j]
    ensures multiset(s)[s[i]] >= 2
  {
    assert s == s[..i] + [s[i]] + s[i + 1..j] + [s[j]] + s[j + 1..];
  }

  function EntrySources(input: Input, n: nat): seq<string>
    requires n <= |input.entries|
  {
    if n == 0 then [] else EntrySources(input, n - 1) + [input.appleValue(input.entries[n - 1].source)]
  }

  function Sources(input: Input): seq<string> { SortedDistinct(EntrySources(input, |input.entries|)) }

  /** Whether one of the first `n` native entries with this id has this source. */
  predicate IsAppleId(input: Input, n: nat, source: string, id: string)
    requires n <= |input.entries|
  {
    n > 0 && (IsAppleId(input, n - 1, source, id)
              || (input.entries[n - 1].id == id && input.appleValue(input.entries[n - 1].source) == source))
  }

  predicate AppleIds(input: Input, source: string, id: string) { IsAppleId(input, |input.entries|, source, id) }

  /** The translations that one artifact offers for a source, in the artifact's order. */
  function Offers(input: Input, entries: seq<Translation>, source: string): seq<string> {
    if entries == [] then []
    else
      var front, e := Offers(input, entries[..|entries| - 1], source), entries[|entries| - 1];
      if input.appleValue(e.source) == source && source in Sources(input) && AppleIds(input, source, e.id)
      then front + [input.appleValue(e.translated)] else front
  }

  /** Of several artifacts for one locale the last one counts. */
  function Candidates(input: Input, artifacts: seq<Artifact>, locale: string, source: string): seq<string> {
    if artifacts == [] then []
    else
      var last := artifacts[|artifacts| - 1];
      if last.locale == locale then Offers(input, last.entries, source)
      else Candidates(input, artifacts[..|artifacts| - 1], locale, source)
  }

  // ------------------------------------------------------------------ the catalog

  function ExistingUnit(existing: Catalog, source: string, locale: string): Option<StringUnit> {
    if source in existing && locale in existing[source] then Some(existing[source][locale]) else None
  }

  /** A shipped translation: it has a non-empty value and is marked as translated. */
  predicate Shipped(unit: Option<StringUnit>) {
    unit.Some? && unit.value.value.Some? && unit.value.value.value != "" && unit.value.state == Some("translated")
  }

  function UnitFor(existing: Option<StringUnit>, source: string, locale: string, candidates: seq<string>): StringUnit {
    if Shipped(existing) then existing.value
    else if locale == "en" then StringUnit(Some("translated"), Some(source))
    else
      var value := ChooseTranslation(source, candidates);
      StringUnit(Some(if value == source then "new" else "translated"), Some(value))
  }

  function LocalizationsFor(existing: Catalog, input: Input, source: string): (r: Localizations)
    ensures r.Keys == set locale | locale in REQUIRED_LOCALES
    ensures forall locale :: locale in r ==>
              r[locale] == UnitFor(ExistingUnit(existing, source, locale), source, locale,
                                   Candidates(input, input.artifacts, locale, source))
  {
    map locale | locale in REQUIRED_LOCALES ::
      UnitFor(ExistingUnit(existing, source, locale), source, locale,
          Candidates(input, input.artifacts, locale, source))
  }

  function ConflictsOf(input: Input, source: string, locales: seq<string>): seq<Contradiction> {
    if locales == [] then []
    else
      var front, locale := ConflictsOf(input, source, locales[..|locales| - 1]), locales[|locales| - 1];
      var distinct := SortedDistinct(Candidates(input, input.artifacts, locale, source));
      if |distinct| > 1 then front + [Contradiction(locale, source, distinct)] else front
  }

  function Conflicts(input: Input, sources: seq<string>): seq<Contradiction> {
    if sources == [] then []
    else Conflicts(input, sources[..|sources| - 1]) + ConflictsOf(input, sources[|sources| - 1], REQUIRED_LOCALES)
  }

  function BySourceAndLocale(): (Contradiction, Contradiction) -> bool {
    (a: Contradiction, b: Contradiction) =>
      Less(a.source, b.source) || (a.source == b.source && Less(a.locale, b.locale))
  }

  function BuildCatalog(existing: Catalog, input: Input): Build {
    Build(map source | source in Sources(input) :: LocalizationsFor(existing, input, source),
          Sort(Conflicts(input, Sources(input)), BySourceAndLocale()))
  }

  // ------------------------------------------------------------------ what is promised

  lemma UnitIsStable(existing: Option<StringUnit>, source: string, locale: string, candidates: seq<string>)
    ensures var unit := UnitFor(existing, source, locale, candidates);
            UnitFor(Some(unit), source, locale, candidates) == unit
  {
  }

  lemma LocalizationsAreStable(first: Catalog, existing: Catalog, input: Input, source: string)
    requires source in first && first[source] == LocalizationsFor(existing, input, source)
    ensures LocalizationsFor(first, input, source) == LocalizationsFor(existing, input, source)
  {
    var a, b := LocalizationsFor(first, input, source), LocalizationsFor(existing, input, source);
    hide LocalizationsFor, UnitFor, Candidates;
    forall locale | locale in b ensures a[locale] == b[locale] {
      assert ExistingUnit(first, source, locale) == Some(b[locale]);
      UnitIsStable(ExistingUnit(existing, source, locale), source, locale,
          Candidates(input, input.artifacts, locale, source));
    }
    assert a == b;
  }

  /** Building again from the output changes nothing. */
  lemma BuildIsAFixpoint(existing: Catalog, input: Input)
    ensures BuildCatalog(BuildCatalog(existing, input).catalog, input) == BuildCatalog(existing, input)
  {
    hide LocalizationsFor, Sources, Conflicts;
    var first := BuildCatalog(existing, input).catalog;
    forall source | source in Sources(input)
      ensures LocalizationsFor(first, input, source) == LocalizationsFor(existing, input, source)
    {
      LocalizationsAreStable(first, existing, input, source);
    }
  }

  lemma {:induction false} EntrySourcesAre(input: Input, n: nat, source: string)
    requires n <= |input.entries|
    ensures source in EntrySources(input, n) <==>
            exists k :: 0 <= k < n && input.appleValue(input.entries[k].source) == source
  {
    if n > 0 { EntrySourcesAre(input, n - 1, source); }
  }

  lemma {:induction false} AppleIdsAre(input: Input, n: nat, source: string, id: string)
    requires n <= |input.entries|
    ensures IsAppleId(input, n, source, id) <==>
            exists k :: 0 <= k < n && input.entries[k].id == id && input.appleValue(input.entries[k].source) == source
  {
    if n > 0 { AppleIdsAre(input, n - 1, source, id); }
  }

  lemma IdsComeFromSources(input: Input, source: string, id: string)
    requires AppleIds(input, source, id)
    ensures source in Sources(input)
  {
    AppleIdsAre(input, |input.entries|, source, id);
    EntrySourcesAre(input, |input.entries|, source);
    SortedDistinctIsCanonical(EntrySources(input, |input.entries|));
  }

  /** Some native entry has this id, and this source once it is rewritten. */
  ghost predicate LiveId(input: Input, source: string, id: string) {
    exists k :: 0 <= k < |input.entries| && input.entries[k].id == id
                && input.appleValue(input.entries[k].source) == source
  }

  /** The translation speaks for `offer`: it is that, for this source and the id of a native entry with the source. */
  ghost predicate SpeaksFor(input: Input, e: Translation, source: string, offer: string) {
    && input.appleValue(e.source) == source && input.appleValue(e.translated) == offer
    && LiveId(input, source, e.id)
  }

  /** At how many places of the artifact that is so. */
  ghost function Votes(input: Input, entries: seq<Translation>, source: string, offer: string): nat {
    |set k | 0 <= k < |entries| && SpeaksFor(input, entries[k], source, offer)|
  }

  lemma VotesOneMore(input: Input, entries: seq<Translation>, e: Translation, source: string, offer: string)
    ensures Votes(input, entries + [e], source, offer)
         == Votes(input, entries, source, offer) + if SpeaksFor(input, e, source, offer) then 1 else 0
  {
    hide SpeaksFor;
    var n, all := |entries|, entries + [e];
    var before := set k | 0 <= k < n && SpeaksFor(input, entries[k], source, offer);
    var after := set k | 0 <= k < n + 1 && SpeaksFor(input, all[k], source, offer);
    assert all[n] == e && n !in before;
    assert after == before + if SpeaksFor(input, e, source, offer) then {n} else {};
  }

  lemma AppleIdsAreLive(input: Input, source: string, id: string)
    ensures AppleIds(input, source, id) <==> LiveId(input, source, id)
    ensures AppleIds(input, source, id) ==> source in Sources(input)
  {
    AppleIdsAre(input, |input.entries|, source, id);
    if AppleIds(input, source, id) { IdsComeFromSources(input, source, id); }
    hide IsAppleId, Sources;
  }

  /** A translation is offered as often as the artifact has it for this source and the id of a native entry with it. */
  lemma {:induction false} OffersAreCounted(input: Input, entries: seq<Translation>, source: string, offer: string)
    ensures multiset(Offers(input, entries, source))[offer] == Votes(input, entries, source, offer)
    decreases entries
  {
    if entries == [] {
      assert Votes(input, [], source, offer) == 0;
    } else {
      var n := |entries| - 1;
      OffersAreCounted(input, entries[..n], source, offer);
      AppleIdsAreLive(input, source, entries[n].id);
      VotesOneMore(input, entries[..n], entries[n], source, offer);
      assert entries == entries[..n] + [entries[n]];
      hide AppleIds, Sources, LiveId, Votes;
    }
  }

  /** Of the artifacts for this locale, number `a` is the last. */
  ghost predicate Latest(input: Input, locale: string, a: nat) {
    && a < |input.artifacts| && input.artifacts[a].locale == locale
    && forall b :: a < b < |input.artifacts| ==> input.artifacts[b].locale != locale
  }

  lemma LatestIsUnique(input: Input, locale: string, a: nat, b: nat)
    requires Latest(input, locale, a) && Latest(input, locale, b)
    ensures a == b
  {
  }

  /** The votes that count for a locale: those of its last artifact. */
  ghost function Poll(input: Input, locale: string, source: string, offer: string): nat {
    if exists a: nat :: Latest(input, locale, a) then
      var a: nat :| Latest(input, locale, a); Votes(input, input.artifacts[a].entries, source, offer)
    else 0
  }

  lemma {:induction false} CandidatesComeFrom(input: Input, n: nat, locale: string, source: string) returns (a: nat)
    requires n <= |input.artifacts|
    ensures a <= n && forall b :: a <= b < n ==> input.artifacts[b].locale != locale
    ensures if a == 0 then Candidates(input, input.artifacts[..n], locale, source) == []
            else && input.artifacts[a - 1].locale == locale
                 && Candidates(input, input.artifacts[..n], locale, source)
                 == Offers(input, input.artifacts[a - 1].entries, source)
  {
    hide Offers;
    if n == 0 {
      a := 0;
    } else {
      OneMoreArtifact(input, n - 1, locale, source);
      if input.artifacts[n - 1].locale == locale {
        a := n;
      } else {
        a := CandidatesComeFrom(input, n - 1, locale, source);
      }
    }
  }

  /** How often each translation is a candidate. */
  lemma CandidatesArePolled(input: Input, locale: string, source: string, offer: string)
    ensures multiset(Candidates(input, input.artifacts, locale, source))[offer] == Poll(input, locale, source, offer)
  {
    hide Offers, Votes, Candidates;
    var n := |input.artifacts|;
    var last := CandidatesComeFrom(input, n, locale, source);
    assert input.artifacts[..n] == input.artifacts;
    if last > 0 {
      assert Latest(input, locale, last - 1);
      var a: nat :| Latest(input, locale, a)
        && Poll(input, locale, source, offer) == Votes(input, input.artifacts[a].entries, source, offer);
      LatestIsUnique(input, locale, a, last - 1);
      OffersAreCounted(input, input.artifacts[a].entries, source, offer);
    }
  }

  /** The keys of the catalog are exactly the eligible sources, and every key has exactly the required locales. */
  lemma KeysAreTheSources(existing: Catalog, input: Input, source: string)
    ensures var catalog := BuildCatalog(existing, input).catalog;
            && (source in catalog <==>
                exists k :: 0 <= k < |input.entries| && input.appleValue(input.entries[k].source) == source)
            && (source in catalog ==> catalog[source].Keys == set locale | locale in REQUIRED_LOCALES)
  {
    SortedDistinctIsCanonical(EntrySources(input, |input.entries|));
    EntrySourcesAre(input, |input.entries|, source);
  }

  /** The value for a source: the most frequent translation that is not the source, and of equals the least. */
  ghost predicate WinsPoll(input: Input, locale: string, source: string, value: string) {
    if forall offer :: Poll(input, locale, source, offer) == 0 then value == source
    else
      var votes := Poll(input, locale, source, value);
      && votes > 0
      && forall other | other != value && Poll(input, locale, source, other) > 0 ::
           if (value == source) != (other == source) then other == source
           else
             var against := Poll(input, locale, source, other);
             votes > against || (votes == against && Less(value, other))
  }

  lemma ChoiceWinsPoll(input: Input, locale: string, source: string)
    ensures WinsPoll(input, locale, source,
                     ChooseTranslation(source, Candidates(input, input.artifacts, locale, source)))
  {
    var candidates := Candidates(input, input.artifacts, locale, source);
    var value := ChooseTranslation(source, candidates);
    var m := multiset(candidates);
    forall offer ensures m[offer] == Poll(input, locale, source, offer) {
      CandidatesArePolled(input, locale, source, offer);
    }
    NoCandidates(source);
    hide Candidates, Poll, ChooseTranslation;
    if candidates != [] {
      AppleChoiceIsBest(source, candidates);
      assert candidates[0] in m && m[candidates[0]] > 0;
    }
  }

  lemma NoCandidates(source: string)
    ensures ChooseTranslation(source, []) == source
  {
  }

  /** The catalog ships this unit for the source: its value is not empty and it is marked as translated. */
  ghost predicate Ships(existing: Catalog, source: string, locale: string, unit: StringUnit) {
    && source in existing && locale in existing[source] && existing[source][locale] == unit
    && unit.state == Some("translated") && unit.value.Some? && |unit.value.value| > 0
  }

  lemma ShipsIff(existing: Catalog, source: string, locale: string, unit: StringUnit)
    ensures Ships(existing, source, locale, unit) <==>
            Shipped(ExistingUnit(existing, source, locale)) && ExistingUnit(existing, source, locale) == Some(unit)
  {
  }

  /**
   * A shipped translation of a live key is never replaced; English is otherwise the source; elsewhere the translation
   * that the locale's last artifact has most often is taken, and a value is marked new exactly when it is the source.
   */
  lemma UnitsAreRight(existing: Catalog, input: Input, source: string, locale: string)
    requires source in BuildCatalog(existing, input).catalog && locale in REQUIRED_LOCALES
    ensures var catalog := BuildCatalog(existing, input).catalog;
            && locale in catalog[source]
            && var unit := catalog[source][locale];
               if exists shipped :: Ships(existing, source, locale, shipped) then Ships(existing, source, locale, unit)
               else if locale == "en" then unit == StringUnit(Some("translated"), Some(source))
               else && unit.value.Some? && WinsPoll(input, locale, source, unit.value.value)
                    && unit.state == Some(if unit.value.value == source then "new" else "translated")
  {
    ChoiceWinsPoll(input, locale, source);
    forall unit
      ensures Ships(existing, source, locale, unit) <==>
              Shipped(ExistingUnit(existing, source, locale)) && ExistingUnit(existing, source, locale) == Some(unit)
    {
      ShipsIff(existing, source, locale, unit);
    }
    hide Ships, Shipped, ExistingUnit;
    hide WinsPoll, ChooseTranslation, Candidates, Sources, Conflicts, REQUIRED_LOCALES;
  }

  lemma {:induction false} ConflictsOfAre(input: Input, source: string, locales: seq<string>, c: Contradiction)
    ensures c in ConflictsOf(input, source, locales) <==>
            && c.source == source && c.locale in locales
            && c.translations == SortedDistinct(Candidates(input, input.artifacts, c.locale, source))
            && |c.translations| > 1
  {
    if locales != [] {
      ConflictsOfAre(input, source, locales[..|locales| - 1], c);
      assert locales == locales[..|locales| - 1] + [locales[|locales| - 1]];
    }
  }

  lemma {:induction false} ConflictsAre(input: Input, sources: seq<string>, c: Contradiction)
    ensures c in Conflicts(input, sources) <==>
            && c.source in sources && c.locale in REQUIRED_LOCALES
            && c.translations == SortedDistinct(Candidates(input, input.artifacts, c.locale, c.source))
            && |c.translations| > 1
  {
    hide SortedDistinct, REQUIRED_LOCALES, Candidates, ConflictsOf;
    if sources != [] {
      var last := sources[|sources| - 1];
      ConflictsAre(input, sources[..|sources| - 1], c);
      ConflictsOfAre(input, last, REQUIRED_LOCALES, c);
      assert sources == sources[..|sources| - 1] + [last];
    }
  }

  /** No two entries are about the same source and locale. */
  ghost predicate OncePerPair(cs: seq<Contradiction>) {
    forall i, j :: 0 <= i < j < |cs| ==> cs[i].source != cs[j].source || cs[i].locale != cs[j].locale
  }

  lemma {:induction false} ConflictsOfOnce(input: Input, source: string, locales: seq<string>)
    requires forall i, j :: 0 <= i < j < |locales| ==> locales[i] != locales[j]
    ensures OncePerPair(ConflictsOf(input, source, locales))
  {
    hide SortedDistinct, Candidates;
    if locales != [] {
      var n := |locales| - 1;
      ConflictsOfOnce(input, source, locales[..n]);
      var front := ConflictsOf(input, source, locales[..n]);
      forall i | 0 <= i < |front| ensures front[i].locale != locales[n] {
        ConflictsOfAre(input, source, locales[..n], front[i]);
        assert front[i] in front;
      }
    }
  }

  lemma {:induction false} ConflictsOnce(input: Input, sources: seq<string>)
    requires forall i, j :: 0 <= i < j < |sources| ==> sources[i] != sources[j]
    ensures OncePerPair(Conflicts(input, sources))
  {
    hide ConflictsOf, Candidates, SortedDistinct;
    if sources != [] {
      var n := |sources| - 1;
      ConflictsOnce(input, sources[..n]);
      RequiredLocalesDiffer();
      ConflictsOfOnce(input, sources[n], REQUIRED_LOCALES);
      hide REQUIRED_LOCALES;
      var front, found := Conflicts(input, sources[..n]), ConflictsOf(input, sources[n], REQUIRED_LOCALES);
      forall i | 0 <= i < |front| ensures front[i].source != sources[n] {
        ConflictsAre(input, sources[..n], front[i]);
        assert front[i] in front;
      }
      forall i | 0 <= i < |found| ensures found[i].source == sources[n] {
        ConflictsOfAre(input, sources[n], REQUIRED_LOCALES, found[i]);
        assert found[i] in found;
      }
    }
  }

  lemma RequiredLocalesDiffer()
    ensures forall i, j :: 0 <= i < j < |REQUIRED_LOCALES| ==> REQUIRED_LOCALES[i] != REQUIRED_LOCALES[j]
  {
  }

  lemma SortingOnce(cs: seq<Contradiction>)
    requires OncePerPair(cs)
    ensures var r := Sort(cs, BySourceAndLocale());
            forall i, j :: 0 <= i < j < |r| ==> BySourceAndLocale()(r[i], r[j])
  {
    var r := Sort(cs, BySourceAndLocale());
    BySourceAndLocaleIsOrder();
    SortPermutes(cs, BySourceAndLocale());
    SortSorts(cs, BySourceAndLocale());
    hide Sort;
    forall i, j | 0 <= i < j < |r| ensures BySourceAndLocale()(r[i], r[j]) {
      DistinctCountsOnce(cs, r[i]);
      if r[i] == r[j] { TwiceInMultiset(r, i, j); }
      assert r[i] in multiset(cs) && r[j] in multiset(cs);
      LessIsTotal(r[i].source, r[j].source);
      LessIsTotal(r[i].locale, r[j].locale);
    }
  }

  lemma ContradictionsAreListedOnce(existing: Catalog, input: Input)
    ensures var r := BuildCatalog(existing, input).contradictions;
            forall i, j :: 0 <= i < j < |r| ==> BySourceAndLocale()(r[i], r[j])
  {
    SourcesDiffer(input);
    hide Sources, Conflicts, LocalizationsFor;
    ConflictsOnce(input, Sources(input));
    SortingOnce(Conflicts(input, Sources(input)));
    assert BuildCatalog(existing, input).contradictions == Sort(Conflicts(input, Sources(input)), BySourceAndLocale());
  }

  lemma SourcesDiffer(input: Input)
    ensures var s := Sources(input); forall i, j :: 0 <= i < j < |s| ==> s[i] != s[j]
  {
    SortedDistinctIsCanonical(EntrySources(input, |input.entries|));
    hide SortedDistinct, EntrySources;
    forall x | Less(x, x) ensures false { LessIsTotal(x, x); }
  }

  lemma BySourceAndLocaleIsOrder()
    ensures StrictOrder(BySourceAndLocale())
  {
    var before := BySourceAndLocale();
    forall a, b | before(a, b) ensures !before(b, a) {
      LessIsTotal(a.source, b.source);
      LessIsTotal(a.locale, b.locale);
    }
    forall a, b, c | before(a, b) && before(b, c) ensures before(a, c) {
      if Less(a.source, b.source) && Less(b.source, c.source) { LessIsTransitive(a.source, b.source, c.source); }
      if Less(a.locale, b.locale) && Less(b.locale, c.locale) { LessIsTransitive(a.locale, b.locale, c.locale); }
    }
  }

  /** The translations that are candidates, in order. */
  ghost predicate ListsCandidates(translations: seq<string>, input: Input, locale: string, source: string) {
    Increasing(translations) && forall x :: x in translations <==> Poll(input, locale, source, x) > 0
  }

  lemma DistinctCandidates(input: Input, locale: string, source: string, translations: seq<string>)
    ensures translations == SortedDistinct(Candidates(input, input.artifacts, locale, source)) <==>
            ListsCandidates(translations, input, locale, source)
  {
    var candidates := Candidates(input, input.artifacts, locale, source);
    SortedDistinctIsCanonical(candidates);
    forall x ensures x in candidates <==> Poll(input, locale, source, x) > 0 {
      CandidatesArePolled(input, locale, source, x);
      assert x in candidates <==> x in multiset(candidates);
    }
    hide SortedDistinct, Candidates, Poll;
    if ListsCandidates(translations, input, locale, source) {
      IncreasingIsUnique(translations, SortedDistinct(candidates));
    }
  }

  /**
   * A contradiction is reported exactly for each live source and required locale with at least two different
   * candidates, listing them all in order; the report is strictly increasing by source and locale, so that it
   * lists nothing twice.
   */
  lemma ContradictionsAreComplete(existing: Catalog, input: Input, c: Contradiction)
    ensures c in BuildCatalog(existing, input).contradictions <==>
            && (exists k :: 0 <= k < |input.entries| && input.appleValue(input.entries[k].source) == c.source)
            && c.locale in REQUIRED_LOCALES
            && ListsCandidates(c.translations, input, c.locale, c.source) && |c.translations| > 1
    ensures var r := BuildCatalog(existing, input).contradictions;
            forall i, j :: 0 <= i < j < |r| ==>
              Less(r[i].source, r[j].source) || (r[i].source == r[j].source && Less(r[i].locale, r[j].locale))
  {
    ContradictionsAreListedOnce(existing, input);
    ConflictsAre(input, Sources(input), c);
    SortPermutes(Conflicts(input, Sources(input)), BySourceAndLocale());
    DistinctCandidates(input, c.locale, c.source, c.translations);
    SortedDistinctIsCanonical(EntrySources(input, |input.entries|));
    EntrySourcesAre(input, |input.entries|, c.source);
    hide Conflicts, Candidates, Sort, SortedDistinct, REQUIRED_LOCALES, ListsCandidates;
  }

  // ------------------------------------------------------------------ the loops

  method CollectAppleIds(input: Input) returns (ids: map<string, set<string>>)
    ensures forall source: string, id: string :: (source in ids && id in ids[source]) <==> AppleIds(input, source, id)
  {
    ids := map[];
    for n := 0 to |input.entries|
      invariant forall source: string, id: string ::
                  (source in ids && id in ids[source]) <==> IsAppleId(input, n, source, id)
    {
      var source := input.appleValue(input.entries[n].source);
      var known := if source in ids then ids[source] else {};
      ids := ids[source := known + {input.entries[n].id}];
    }
  }

  ghost predicate OffersBySource(bySource: map<string, seq<string>>, input: Input, entries: seq<Translation>) {
    forall source: string :: (if source in bySource then bySource[source] else []) == Offers(input, entries, source)
  }

  method CollectOffers(input: Input, sources: seq<string>, ids: map<string, set<string>>, entries: seq<Translation>)
    returns (bySource: map<string, seq<string>>)
    requires sources == Sources(input)
    requires forall source: string, id: string :: (source in ids && id in ids[source]) <==> AppleIds(input, source, id)
    ensures OffersBySource(bySource, input, entries)
  {
    hide Sources, AppleIds;
    bySource := map[];
    for n := 0 to |entries|
      invariant OffersBySource(bySource, input, entries[..n])
    {
      assert entries[..n + 1][..n] == entries[..n];
      var source := input.appleValue(entries[n].source);
      if source !in sources || source !in ids || entries[n].id !in ids[source] {
        continue;
      }
      var values := if source in bySource then bySource[source] else [];
      bySource := bySource[source := values + [input.appleValue(entries[n].translated)]];
    }
    assert entries[..|entries|] == entries;
  }

  ghost predicate CandidatesByLocale(byLocale: map<string, map<string, seq<string>>>, input: Input,
                                     artifacts: seq<Artifact>) {
    forall locale: string, source: string ::
      Lookup(byLocale, locale, source) == Candidates(input, artifacts, locale, source)
  }

  /** `translationsByLocale.get(locale)?.get(source) ?? []`. */
  function Lookup(byLocale: map<string, map<string, seq<string>>>, locale: string, source: string): seq<string> {
    if locale in byLocale && source in byLocale[locale] then byLocale[locale][source] else []
  }

  lemma OneMoreArtifact(input: Input, n: nat, locale: string, source: string)
    requires n < |input.artifacts|
    ensures Candidates(input, input.artifacts[..n + 1], locale, source) ==
            if input.artifacts[n].locale == locale then Offers(input, input.artifacts[n].entries, source)
            else Candidates(input, input.artifacts[..n], locale, source)
  {
    assert input.artifacts[..n + 1][..n] == input.artifacts[..n];
  }

  method CollectCandidates(input: Input, sources: seq<string>) returns (byLocale: map<string, map<string, seq<string>>>)
    requires sources == Sources(input)
    ensures CandidatesByLocale(byLocale, input, input.artifacts)
  {
    hide Sources, AppleIds, Offers;
    var ids := CollectAppleIds(input);
    byLocale := map[];
    for n := 0 to |input.artifacts|
      invariant CandidatesByLocale(byLocale, input, input.artifacts[..n])
    {
      assert input.artifacts[..n + 1][..n] == input.artifacts[..n];
      var bySource := CollectOffers(input, sources, ids, input.artifacts[n].entries);
      ghost var before := byLocale;
      byLocale := byLocale[input.artifacts[n].locale := bySource];
      forall locale: string, source: string
        ensures Lookup(byLocale, locale, source) == Candidates(input, input.artifacts[..n + 1], locale, source)
      {
        OneMoreArtifact(input, n, locale, source);
        assert Lookup(before, locale, source) == Candidates(input, input.artifacts[..n], locale, source);
        assert (if source in bySource then bySource[source] else [])
            == Offers(input, input.artifacts[n].entries, source);
      }
    }
    assert input.artifacts[..|input.artifacts|] == input.artifacts;
  }

  lemma OneMoreSource(input: Input, sources: seq<string>, i: nat)
    requires i < |sources|
    ensures Conflicts(input, sources[..i + 1]) ==
            Conflicts(input, sources[..i]) + ConflictsOf(input, sources[i], REQUIRED_LOCALES)
    ensures forall x :: x in sources[..i + 1] <==> x in sources[..i] || x == sources[i]
  {
    assert sources[..i + 1] == sources[..i] + [sources[i]] && sources[..i + 1][..i] == sources[..i];
  }

  method BuildIosCatalog(existing: Catalog, input: Input) returns (r: Build)
    ensures r == BuildCatalog(existing, input)
  {
    hide UnitFor, Sources, Candidates, Deduplicated, Conflicts, ConflictsOf, Sort, REQUIRED_LOCALES;
    var sources := SourcesOf(input);
    var byLocale := CollectCandidates(input, sources);
    var strings: Catalog := map[];
    var contradictions: seq<Contradiction> := [];
    NoConflicts(input);
    for i := 0 to |sources|
      invariant forall source :: source in strings <==> source in sources[..i]
      invariant forall source :: source in strings ==> strings[source] == LocalizationsFor(existing, input, source)
      invariant contradictions == Conflicts(input, sources[..i])
    {
      OneMoreSource(input, sources, i);
      var localizations, found := LocalizeSource(existing, input, sources[i], byLocale);
      strings := strings[sources[i] := localizations];
      contradictions := contradictions + found;
    }
    assert sources[..|sources|] == sources;
    r := Build(strings, Sort(contradictions, BySourceAndLocale()));
    hide LocalizationsFor;
    assert strings == map source | source in Sources(input) :: LocalizationsFor(existing, input, source);
  }

  lemma NoConflicts(input: Input)
    ensures Conflicts(input, []) == []
  {
  }

  method SourcesOf(input: Input) returns (sources: seq<string>)
    ensures sources == Sources(input)
  {
    var all: seq<string> := [];
    for n := 0 to |input.entries|
      invariant all == EntrySources(input, n)
    {
      all := all + [input.appleValue(input.entries[n].source)];
    }
    sources := SortedDistinct(all);
  }

  method ChooseUnit(unit: Option<StringUnit>, source: string, locale: string, candidates: seq<string>)
    returns (r: StringUnit)
    ensures r == UnitFor(unit, source, locale, candidates)
  {
    if Shipped(unit) {
      return unit.value;
    }
    if locale == "en" {
      return StringUnit(Some("translated"), Some(source));
    }
    var value := ChooseTranslationOnApple(source, candidates);
    r := StringUnit(Some(if value == source then "new" else "translated"), Some(value));
  }

  lemma OneMoreLocale(input: Input, source: string, locales: seq<string>, j: nat)
    requires j < |locales|
    ensures var distinct := SortedDistinct(Candidates(input, input.artifacts, locales[j], source));
            ConflictsOf(input, source, locales[..j + 1]) ==
            ConflictsOf(input, source, locales[..j])
            + if |distinct| > 1 then [Contradiction(locales[j], source, distinct)] else []
    ensures ConflictsOf(input, source, locales[..0]) == []
    ensures forall x :: x in locales[..j + 1] <==> x in locales[..j] || x == locales[j]
  {
    assert locales[..j + 1] == locales[..j] + [locales[j]] && locales[..j + 1][..j] == locales[..j];
  }

  ghost predicate Localized(localizations: Localizations, existing: Catalog, input: Input, source: string,
                            locales: seq<string>) {
    && (forall locale :: locale in localizations <==> locale in locales)
    && (forall locale :: locale in localizations ==> localizations[locale] == UnitOf(existing, input, source, locale))
  }

  ghost function UnitOf(existing: Catalog, input: Input, source: string, locale: string): StringUnit {
    UnitFor(ExistingUnit(existing, source, locale), source, locale, Candidates(input, input.artifacts, locale, source))
  }

  lemma LocalizedOneMore(localizations: Localizations, existing: Catalog, input: Input, source: string,
                         locales: seq<string>, j: nat)
    requires j < |locales| && Localized(localizations, existing, input, source, locales[..j])
    ensures var more := localizations[locales[j] := UnitOf(existing, input, source, locales[j])];
            Localized(more, existing, input, source, locales[..j + 1])
  {
    hide UnitOf;
    assert locales[..j + 1] == locales[..j] + [locales[j]];
  }

  lemma LocalizedAll(localizations: Localizations, existing: Catalog, input: Input, source: string)
    requires Localized(localizations, existing, input, source, REQUIRED_LOCALES)
    ensures localizations == LocalizationsFor(existing, input, source)
  {
    hide UnitFor, Candidates, REQUIRED_LOCALES;
  }

  method LocalizeSource(existing: Catalog, input: Input, source: string,
                        byLocale: map<string, map<string, seq<string>>>)
    returns (localizations: Localizations, found: seq<Contradiction>)
    requires CandidatesByLocale(byLocale, input, input.artifacts)
    ensures localizations == LocalizationsFor(existing, input, source)
    ensures found == ConflictsOf(input, source, REQUIRED_LOCALES)
  {
    hide Candidates, SortedDistinct, UnitFor, ConflictsOf, LocalizationsFor, Localized;
    localizations := map[];
    found := [];
    var locales := REQUIRED_LOCALES;
    OneMoreLocale(input, source, locales, 0);
    NothingLocalized(existing, input, source);
    hide REQUIRED_LOCALES;
    for j := 0 to |locales|
      invariant Localized(localizations, existing, input, source, locales[..j])
      invariant found == ConflictsOf(input, source, locales[..j])
    {
      OneMoreLocale(input, source, locales, j);
      var locale := locales[j];
      var candidates := Lookup(byLocale, locale, source);
      assert candidates == Candidates(input, input.artifacts, locale, source);
      var distinct := SortedDistinct(candidates);
      if |distinct| > 1 {
        found := found + [Contradiction(locale, source, distinct)];
      }
      var unit := ChooseUnit(ExistingUnit(existing, source, locale), source, locale, candidates);
      LocalizedOneMore(localizations, existing, input, source, locales, j);
      localizations := localizations[locale := unit];
    }
    assert locales[..|locales|] == locales;
    LocalizedAll(localizations, existing, input, source);
  }

  lemma NothingLocalized(existing: Catalog, input: Input, source: string)
    ensures Localized(map[], existing, input, source, [])
  {
  }
}
