/** Comparing flat locale catalogs with the English source (`analyzeControlUiCatalogs`). */
module CatalogAnalysis {
  import opened CatalogFlatten
  import opened Placeholders

  datatype Locale = Locale(name: string, flats: seq<Flat>)

  datatype Finding =
    | OrphanKeys(locale: string, keys: seq<string>)
    | WrongOrder(locale: string)
    | ChangedPlaceholders(locale: string, key: string, expected: set<string>, actual: set<string>)

  function KeyList(flats: seq<Flat>): (keys: seq<string>)
    ensures |keys| == |flats| && forall i :: 0 <= i < |flats| ==> keys[i] == flats[i].path
  {
    seq(|flats|, i requires 0 <= i < |flats| => flats[i].path)
  }

  predicate Has(flats: seq<Flat>, key: string) { exists i :: 0 <= i < |flats| && flats[i].path == key }

  function TextAt(flats: seq<Flat>, key: string): (text: string)
    requires Has(flats, key)
    ensures Flat(key, text) in flats
  {
    if flats[0].path == key then flats[0].text
    else
      assert Has(flats[1..], key) by {
        var i :| 0 <= i < |flats| && flats[i].path == key;
        assert flats[1..][i - 1] == flats[i];
      }
      TextAt(flats[1..], key)
  }

  /** The keys that are also in `others`, or are not, in their order. */
  function Keep(keys: seq<string>, others: seq<string>, wanted: bool): seq<string> {
    if keys == [] then []
    else (if (keys[0] in others) == wanted then [keys[0]] else []) + Keep(keys[1..], others, wanted)
  }

  function PlaceholderFindings(source: seq<Flat>, locale: Locale, keys: seq<string>): seq<Finding>
    requires forall key | key in keys :: Has(source, key)
  {
    if keys == [] then []
    else PlaceholderFinding(source, locale, keys[0]) + PlaceholderFindings(source, locale, keys[1..])
  }

  function PlaceholderFinding(source: seq<Flat>, locale: Locale, key: string): seq<Finding>
    requires Has(source, key)
  {
    if !Has(locale.flats, key) then []
    else
      var expected := PlaceholderNames(TextAt(source, key));
      var actual := PlaceholderNames(TextAt(locale.flats, key));
      if expected == actual then [] else [ChangedPlaceholders(locale.name, key, expected, actual)]
  }

  function KeyFindings(source: seq<Flat>, locale: Locale): seq<Finding> {
    var sourceKeys, localeKeys := KeyList(source), KeyList(locale.flats);
    var orphans := Keep(localeKeys, sourceKeys, false);
    (if orphans != [] then [OrphanKeys(locale.name, orphans)] else [])
    + if Keep(localeKeys, sourceKeys, true) != Keep(sourceKeys, localeKeys, true) then [WrongOrder(locale.name)] else []
  }

  function TextFindings(source: seq<Flat>, locale: Locale): seq<Finding> {
    SourceKeysAreThere(source);
    PlaceholderFindings(source, locale, KeyList(source))
  }

  function FindingsOf(source: seq<Flat>, locale: Locale): seq<Finding> {
    KeyFindings(source, locale) + TextFindings(source, locale)
  }

  function AllFindings(source: seq<Flat>, locales: seq<Locale>): seq<Finding> {
    if locales == [] then []
    else AllFindings(source, locales[..|locales| - 1]) + FindingsOf(source, locales[|locales| - 1])
  }

  /** The locales without the key, in their order. */
  function Lacking(locales: seq<Locale>, key: string): seq<string> {
    if locales == [] then []
    else
      var last := locales[|locales| - 1];
      Lacking(locales[..|locales| - 1], key) + if Has(last.flats, key) then [] else [last.name]
  }

  predicate Records(fallbacks: map<string, seq<string>>, key: string, names: seq<string>) {
    if names == [] then key !in fallbacks else key in fallbacks && fallbacks[key] == names
  }

  /** The fallbacks once `locales` are done: for each source key the locales that lack it. */
  ghost predicate Collected(fallbacks: map<string, seq<string>>, keys: seq<string>, locales: seq<Locale>) {
    && (forall key | key in fallbacks :: key in keys)
    && forall i :: 0 <= i < |keys| ==> Records(fallbacks, keys[i], Lacking(locales, keys[i]))
  }

  ghost predicate RecordsLacking(fallbacks: map<string, seq<string>>, key: string, locales: seq<Locale>,
                                 next: Locale, done: bool) {
    Records(fallbacks, key, Lacking(if done then locales + [next] else locales, key))
  }

  /** The same within `next`, of which the first `k` keys are done. */
  ghost predicate Collecting(fallbacks: map<string, seq<string>>, keys: seq<string>,
                             locales: seq<Locale>, next: Locale, k: nat) {
    && (forall key | key in fallbacks :: key in keys)
    && forall i :: 0 <= i < |keys| ==> RecordsLacking(fallbacks, keys[i], locales, next, i < k)
  }

  lemma LackingOneMore(locales: seq<Locale>, next: Locale, key: string)
    ensures Lacking(locales + [next], key)
         == Lacking(locales, key) + if Has(next.flats, key) then [] else [next.name]
  {
    assert (locales + [next])[..|locales|] == locales;
  }

  ghost predicate DistinctKeys(keys: seq<string>) {
    forall i, j :: 0 <= i < j < |keys| ==> keys[i] != keys[j]
  }

  lemma KeySkipped(fallbacks: map<string, seq<string>>, keys: seq<string>, locales: seq<Locale>, next: Locale, k: nat)
    requires k < |keys| && Has(next.flats, keys[k]) && Collecting(fallbacks, keys, locales, next, k)
    ensures Collecting(fallbacks, keys, locales, next, k + 1)
  {
    LackingOneMore(locales, next, keys[k]);
    assert Lacking(locales, keys[k]) + [] == Lacking(locales, keys[k]);
    hide Has, Lacking, Records;
  }

  lemma RecordedElsewhere(fallbacks: map<string, seq<string>>, key: string, names: seq<string>, other: string,
                          list: seq<string>)
    requires Records(fallbacks, other, list) && other != key
    ensures Records(fallbacks[key := names], other, list)
  {
  }

  lemma KeyRecorded(fallbacks: map<string, seq<string>>, keys: seq<string>, locales: seq<Locale>, next: Locale, k: nat)
    requires k < |keys| && !Has(next.flats, keys[k]) && Collecting(fallbacks, keys, locales, next, k)
    requires DistinctKeys(keys)
    ensures var names := if keys[k] in fallbacks then fallbacks[keys[k]] else [];
            Collecting(fallbacks[keys[k] := names + [next.name]], keys, locales, next, k + 1)
  {
    var names := if keys[k] in fallbacks then fallbacks[keys[k]] else [];
    LackingOneMore(locales, next, keys[k]);
    assert Records(fallbacks, keys[k], Lacking(locales, keys[k]));
    var after := fallbacks[keys[k] := names + [next.name]];
    assert Records(after, keys[k], Lacking(locales + [next], keys[k]));
    hide Has, Lacking, Records;
    forall i | 0 <= i < |keys| && i != k
      ensures Records(after, keys[i], Lacking(if i < k + 1 then locales + [next] else locales, keys[i]))
    {
      assert keys[i] != keys[k];
      RecordedElsewhere(fallbacks, keys[k], names + [next.name],
                        keys[i], Lacking(if i < k then locales + [next] else locales, keys[i]));
    }
  }

  lemma LocaleBounds(fallbacks: map<string, seq<string>>, keys: seq<string>, locales: seq<Locale>, next: Locale)
    ensures Collected(fallbacks, keys, locales) ==> Collecting(fallbacks, keys, locales, next, 0)
    ensures Collecting(fallbacks, keys, locales, next, |keys|) ==> Collected(fallbacks, keys, locales + [next])
  {
    hide Lacking, Records;
  }

  lemma FindingsOneMore(source: seq<Flat>, locales: seq<Locale>, l: nat)
    requires l < |locales|
    ensures AllFindings(source, locales[..l + 1])
         == AllFindings(source, locales[..l]) + (KeyFindings(source, locales[l]) + TextFindings(source, locales[l]))
    ensures locales[..l + 1] == locales[..l] + [locales[l]]
  {
    assert locales[..l + 1][..l] == locales[..l];
  }

  lemma NothingYet(source: seq<Flat>, keys: seq<string>)
    ensures AllFindings(source, []) == [] && Collected(map[], keys, [])
  {
  }

  lemma PlaceholdersOneMore(source: seq<Flat>, locale: Locale, keys: seq<string>, k: nat)
    requires k < |keys| && forall key | key in keys :: Has(source, key)
    ensures PlaceholderFindings(source, locale, keys[k..])
         == PlaceholderFinding(source, locale, keys[k]) + PlaceholderFindings(source, locale, keys[k + 1..])
  {
    assert keys[k..][1..] == keys[k + 1..];
  }

  lemma SourceKeysAreThere(flats: seq<Flat>)
    ensures forall key :: key in KeyList(flats) <==> Has(flats, key)
  {
    forall key | Has(flats, key) ensures key in KeyList(flats) {
      var i :| 0 <= i < |flats| && flats[i].path == key;
      assert KeyList(flats)[i] == key;
    }
  }

  lemma UniqueKeys(flats: seq<Flat>)
    requires Unique(flats)
    ensures DistinctKeys(KeyList(flats))
  {
  }

  lemma NothingToCompare(source: seq<Flat>, locale: Locale, key: string)
    requires Has(source, key) && !Has(locale.flats, key)
    ensures PlaceholderFinding(source, locale, key) == []
  {
  }

  lemma Shift(errors: seq<Finding>, first: seq<Finding>, later: seq<Finding>)
    ensures errors + (first + later) == (errors + first) + later && (first == [] ==> errors + first == errors)
  {
  }

  /** The loop over the source keys for one locale: what it adds to the errors and to the fallbacks. */
  method CompareKeys(source: seq<Flat>, locale: Locale, fallbacksBefore: map<string, seq<string>>,
                     ghost locales: seq<Locale>)
    returns (errors: seq<Finding>, fallbacks: map<string, seq<string>>)
    requires Unique(source) && Collected(fallbacksBefore, KeyList(source), locales)
    ensures errors == TextFindings(source, locale)
    ensures Collected(fallbacks, KeyList(source), locales + [locale])
  {
    SourceKeysAreThere(source);
    UniqueKeys(source);
    assert TextFindings(source, locale) == PlaceholderFindings(source, locale, KeyList(source));
    hide *;
    errors, fallbacks := [], fallbacksBefore;
    var sourceKeys := KeyList(source);
    LocaleBounds(fallbacks, sourceKeys, locales, locale);
    assert sourceKeys[0..] == sourceKeys;
    ghost var all := PlaceholderFindings(source, locale, sourceKeys);
    for k := 0 to |sourceKeys|
      invariant errors + PlaceholderFindings(source, locale, sourceKeys[k..]) == all
      invariant Collecting(fallbacks, sourceKeys, locales, locale, k)
    {
      var key := sourceKeys[k];
      ghost var first := PlaceholderFinding(source, locale, key);
      ghost var later := PlaceholderFindings(source, locale, sourceKeys[k + 1..]);
      PlaceholdersOneMore(source, locale, sourceKeys, k);
      Shift(errors, first, later);
      if !Has(locale.flats, key) {
        NothingToCompare(source, locale, key);
        KeyRecorded(fallbacks, sourceKeys, locales, locale, k);
        var names := if key in fallbacks then fallbacks[key] else [];
        fallbacks := fallbacks[key := names + [locale.name]];
        continue;
      }
      KeySkipped(fallbacks, sourceKeys, locales, locale, k);
      errors := errors + PlaceholderFinding(source, locale, key);
    }
    LocaleBounds(fallbacks, sourceKeys, locales, locale);
    NothingLeft(source, locale, sourceKeys[|sourceKeys|..]);
  }

  lemma NothingLeft(source: seq<Flat>, locale: Locale, keys: seq<string>)
    requires keys == []
    ensures PlaceholderFindings(source, locale, keys) == []
  {
  }

  lemma CollectedKeys(fallbacks: map<string, seq<string>>, source: seq<Flat>, locales: seq<Locale>)
    requires Collected(fallbacks, KeyList(source), locales)
    ensures forall key | key in fallbacks :: Has(source, key)
    ensures forall key | Has(source, key) :: Records(fallbacks, key, Lacking(locales, key))
  {
    SourceKeysAreThere(source);
    hide Lacking, Records;
  }

  /** Keys that English does not have, and keys that stand in another order. */
  method CompareKeyOrder(source: seq<Flat>, locale: Locale) returns (found: seq<Finding>)
    ensures found == KeyFindings(source, locale)
  {
    hide Keep;
    found := [];
    var sourceKeys, localeKeys := KeyList(source), KeyList(locale.flats);
    var orphanKeys := Keep(localeKeys, sourceKeys, false);
    if orphanKeys != [] {
      found := found + [OrphanKeys(locale.name, orphanKeys)];
    }
    if Keep(localeKeys, sourceKeys, true) != Keep(sourceKeys, localeKeys, true) {
      found := found + [WrongOrder(locale.name)];
    }
  }

  /** Both maps come with distinct keys, and the locales in their sorted order. */
  method AnalyzeControlUiCatalogs(source: seq<Flat>, locales: seq<Locale>)
    returns (errors: seq<Finding>, fallbacks: map<string, seq<string>>)
    requires Unique(source)
    ensures errors == AllFindings(source, locales)
    ensures forall key | key in fallbacks :: Has(source, key)
    ensures forall key | Has(source, key) :: Records(fallbacks, key, Lacking(locales, key))
  {
    errors, fallbacks := [], map[];
    NothingYet(source, KeyList(source));
    assert locales[..0] == [];
    for l := 0 to |locales|
      invariant errors == AllFindings(source, locales[..l])
      invariant Collected(fallbacks, KeyList(source), locales[..l])
    {
      hide *;
      var found := CompareKeyOrder(source, locales[l]);
      var changed;
      changed, fallbacks := CompareKeys(source, locales[l], fallbacks, locales[..l]);
      FindingsOneMore(source, locales, l);
      errors := errors + (found + changed);
    }
    hide *;
    assert locales[..|locales|] == locales;
    CollectedKeys(fallbacks, source, locales);
  }

  // ------------------------------------------------------------------ what the analysis decides

  /** `a` is what remains of `b` when some of its elements are left out. */
  predicate Subsequence(a: seq<string>, b: seq<string>) {
    a == [] || (b != [] && ((a[0] == b[0] && Subsequence(a[1..], b[1..])) || Subsequence(a, b[1..])))
  }

  lemma {:induction false} SubsequenceElements(a: seq<string>, b: seq<string>)
    requires Subsequence(a, b)
    ensures forall x | x in a :: x in b
  {
    if a != [] {
      if a[0] == b[0] && Subsequence(a[1..], b[1..]) {
        SubsequenceElements(a[1..], b[1..]);
        assert forall x | x in a :: x == a[0] || x in a[1..];
      } else {
        SubsequenceElements(a, b[1..]);
      }
    }
  }

  lemma {:induction false} KeptInOrder(keys: seq<string>, others: seq<string>)
    ensures Subsequence(Keep(keys, others, true), keys)
  {
    if keys != [] {
      KeptInOrder(keys[1..], others);
      var rest := Keep(keys[1..], others, true);
      assert [] + rest == rest && ([keys[0]] + rest)[1..] == rest;
    }
  }

  lemma {:induction false} KeptWhole(keys: seq<string>, others: seq<string>)
    ensures Keep(keys, others, false) == [] <==> forall x | x in keys :: x in others
    ensures Keep(keys, others, true) == keys <==> forall x | x in keys :: x in others
    ensures |Keep(keys, others, true)| <= |keys|
  {
    if keys != [] {
      KeptWhole(keys[1..], others);
      assert forall x :: x in keys <==> x == keys[0] || x in keys[1..];
      assert keys == [keys[0]] + keys[1..];
      assert keys[0] in others ==> Keep(keys, others, true)[1..] == Keep(keys[1..], others, true);
    }
  }

  lemma {:induction false} KeepIgnores(keys: seq<string>, x: string, others: seq<string>)
    requires x !in keys
    ensures Keep(keys, [x] + others, true) == Keep(keys, others, true)
  {
    if keys != [] { KeepIgnores(keys[1..], x, others); }
  }

  lemma {:induction false} SubsequenceIsKept(a: seq<string>, b: seq<string>)
    requires DistinctKeys(b) && Subsequence(a, b)
    ensures Keep(b, a, true) == a
  {
    if a == [] {
      NothingKept(b);
    } else {
      assert b[0] !in b[1..];
      if a[0] == b[0] && Subsequence(a[1..], b[1..]) {
        SubsequenceIsKept(a[1..], b[1..]);
        assert a == [a[0]] + a[1..];
        KeepIgnores(b[1..], a[0], a[1..]);
      } else {
        SubsequenceIsKept(a, b[1..]);
        SubsequenceElements(a, b[1..]);
      }
    }
  }

  lemma {:induction false} NothingKept(keys: seq<string>)
    ensures Keep(keys, [], true) == []
  {
    if keys != [] { NothingKept(keys[1..]); }
  }

  lemma KeyFindingsDecide(source: seq<Flat>, locale: Locale)
    requires Unique(source)
    ensures KeyFindings(source, locale) == [] <==> Subsequence(KeyList(locale.flats), KeyList(source))
  {
    var sourceKeys, localeKeys := KeyList(source), KeyList(locale.flats);
    UniqueKeys(source);
    KeptWhole(localeKeys, sourceKeys);
    KeptInOrder(sourceKeys, localeKeys);
    if Subsequence(localeKeys, sourceKeys) {
      SubsequenceElements(localeKeys, sourceKeys);
      SubsequenceIsKept(localeKeys, sourceKeys);
    }
  }

  /** Every translated key keeps the placeholders of its English text. */
  ghost predicate KeepsPlaceholders(source: seq<Flat>, locale: Locale, keys: seq<string>)
    requires forall key | key in keys :: Has(source, key)
  {
    forall key | key in keys && Has(locale.flats, key) ::
      PlaceholderNames(TextAt(locale.flats, key)) == PlaceholderNames(TextAt(source, key))
  }

  lemma {:induction false} PlaceholderFindingsDecide(source: seq<Flat>, locale: Locale, keys: seq<string>)
    requires forall key | key in keys :: Has(source, key)
    ensures PlaceholderFindings(source, locale, keys) == [] <==> KeepsPlaceholders(source, locale, keys)
  {
    if keys != [] {
      hide Has, TextAt, PlaceholderNames;
      PlaceholderFindingsDecide(source, locale, keys[1..]);
      assert forall x :: x in keys <==> x == keys[0] || x in keys[1..];
    }
  }

  /** The locale's keys are English keys in English order, and its texts have the English placeholders. */
  ghost predicate Consistent(source: seq<Flat>, locale: Locale) {
    && Subsequence(KeyList(locale.flats), KeyList(source))
    && forall key | Has(source, key) && Has(locale.flats, key) ::
         PlaceholderNames(TextAt(locale.flats, key)) == PlaceholderNames(TextAt(source, key))
  }

  lemma LocaleDecides(source: seq<Flat>, locale: Locale)
    requires Unique(source)
    ensures FindingsOf(source, locale) == [] <==> Consistent(source, locale)
  {
    KeyFindingsDecide(source, locale);
    SourceKeysAreThere(source);
    PlaceholderFindingsDecide(source, locale, KeyList(source));
    hide Has, TextAt, PlaceholderNames, KeyFindings, Subsequence;
  }

  /** The analysis reports nothing exactly when every locale is consistent with English. */
  lemma {:induction false} NoErrorsIff(source: seq<Flat>, locales: seq<Locale>)
    requires Unique(source)
    ensures AllFindings(source, locales) == [] <==> forall locale | locale in locales :: Consistent(source, locale)
    decreases locales
  {
    hide Consistent, FindingsOf;
    if locales != [] {
      var n := |locales| - 1;
      NoErrorsIff(source, locales[..n]);
      LocaleDecides(source, locales[n]);
      assert locales == locales[..n] + [locales[n]];
    }
  }

  // ------------------------------------------------------------------ what each finding says

  /** One key stands before the other. */
  ghost predicate Before(keys: seq<string>, x: string, y: string) {
    exists i, j :: 0 <= i < j < |keys| && keys[i] == x && keys[j] == y
  }

  lemma BeforeNext(keys: seq<string>, x: string, y: string)
    requires keys != []
    ensures Before(keys, x, y) <==> (keys[0] == x && y in keys[1..]) || Before(keys[1..], x, y)
  {
    var rest := keys[1..];
    if Before(rest, x, y) {
      var i, j :| 0 <= i < j < |rest| && rest[i] == x && rest[j] == y;
      assert keys[i + 1] == x && keys[j + 1] == y;
    }
    if keys[0] == x && y in rest {
      var j :| 0 <= j < |rest| && rest[j] == y;
      assert keys[0] == x && keys[j + 1] == y;
    }
    if Before(keys, x, y) {
      var i, j :| 0 <= i < j < |keys| && keys[i] == x && keys[j] == y;
      assert rest[j - 1] == y && (i > 0 ==> rest[i - 1] == x);
    }
  }

  lemma {:induction false} KeepHas(keys: seq<string>, others: seq<string>, wanted: bool, x: string)
    ensures x in Keep(keys, others, wanted) <==> x in keys && (x in others) == wanted
  {
    if keys != [] {
      KeepHas(keys[1..], others, wanted, x);
      assert keys == [keys[0]] + keys[1..];
    }
  }

  lemma {:induction false} KeepBefore(keys: seq<string>, others: seq<string>, wanted: bool, x: string, y: string)
    ensures Before(Keep(keys, others, wanted), x, y) <==>
            Before(keys, x, y) && (x in others) == wanted && (y in others) == wanted
  {
    if keys != [] {
      var kept, rest := Keep(keys, others, wanted), Keep(keys[1..], others, wanted);
      KeepBefore(keys[1..], others, wanted, x, y);
      BeforeNext(keys, x, y);
      KeepHas(keys[1..], others, wanted, y);
      if (keys[0] in others) == wanted {
        assert kept == [keys[0]] + rest && kept[1..] == rest;
        BeforeNext(kept, x, y);
      } else {
        assert kept == rest;
      }
      hide Before;
    }
  }

  lemma {:induction false} KeepDistinct(keys: seq<string>, others: seq<string>, wanted: bool)
    requires DistinctKeys(keys)
    ensures DistinctKeys(Keep(keys, others, wanted))
  {
    if keys != [] {
      KeepDistinct(keys[1..], others, wanted);
      KeepHas(keys[1..], others, wanted, keys[0]);
      assert keys[0] !in keys[1..];
    }
  }

  /** Lists of the same keys differ exactly if they have two of them in different order. */
  lemma {:induction false} DifferIffSwapped(a: seq<string>, b: seq<string>)
    requires DistinctKeys(a) && DistinctKeys(b) && forall x :: x in a <==> x in b
    ensures a != b <==> exists x, y :: Before(a, x, y) && Before(b, y, x)
  {
    if a == b {
      forall x, y | Before(a, x, y) ensures !Before(b, y, x) { NotBothWays(a, x, y); }
    } else {
      SomewhereSwapped(a, b);
    }
  }

  lemma NotBothWays(keys: seq<string>, x: string, y: string)
    requires DistinctKeys(keys)
    ensures !(Before(keys, x, y) && Before(keys, y, x))
  {
  }

  lemma {:induction false} SomewhereSwapped(a: seq<string>, b: seq<string>)
    requires DistinctKeys(a) && DistinctKeys(b) && a != b && forall x :: x in a <==> x in b
    ensures exists x, y :: Before(a, x, y) && Before(b, y, x)
  {
    HeadIsThere(a);
    HeadIsThere(b);
    var x, y := a[0], b[0];
    BeforeNext(a, x, y);
    BeforeNext(b, y, x);
    assert a == [x] + a[1..] && b == [y] + b[1..];
    if x == y {
      assert x !in a[1..] && x !in b[1..];
      forall z ensures z in a[1..] <==> z in b[1..] {
        assert z in a <==> z == x || z in a[1..];
        assert z in b <==> z == x || z in b[1..];
      }
      SomewhereSwapped(a[1..], b[1..]);
      var u, v :| Before(a[1..], u, v) && Before(b[1..], v, u);
      BeforeNext(a, u, v);
      BeforeNext(b, v, u);
    }
  }

  lemma HeadIsThere(keys: seq<string>)
    ensures keys != [] ==> keys[0] in keys
  {
  }

  /** These are the locale's keys that English does not have, in the locale's order. */
  ghost predicate ListsOrphans(keys: seq<string>, source: seq<Flat>, locale: Locale) {
    && DistinctKeys(keys)
    && (forall x :: x in keys <==> Has(locale.flats, x) && !Has(source, x))
    && (forall x, y | Before(keys, x, y) :: Before(KeyList(locale.flats), x, y))
  }

  lemma OrphansAreKept(keys: seq<string>, source: seq<Flat>, locale: Locale)
    requires Unique(source) && Unique(locale.flats)
    ensures keys == Keep(KeyList(locale.flats), KeyList(source), false) <==> ListsOrphans(keys, source, locale)
  {
    var all, others := KeyList(locale.flats), KeyList(source);
    var kept := Keep(all, others, false);
    SourceKeysAreThere(source);
    SourceKeysAreThere(locale.flats);
    UniqueKeys(locale.flats);
    KeepDistinct(all, others, false);
    forall x ensures x in kept <==> x in all && x !in others { KeepHas(all, others, false, x); }
    forall x, y | Before(kept, x, y) ensures Before(all, x, y) { KeepBefore(all, others, false, x, y); }
    if ListsOrphans(keys, source, locale) {
      hide Before;
      DifferIffSwapped(keys, kept);
      forall x, y | Before(keys, x, y) ensures !Before(kept, y, x) { NotBothWays(all, x, y); }
    }
  }

  lemma OrderDecides(source: seq<Flat>, locale: Locale)
    requires Unique(source) && Unique(locale.flats)
    ensures var s, l := KeyList(source), KeyList(locale.flats);
            Keep(l, s, true) != Keep(s, l, true) <==> exists x, y :: Before(l, x, y) && Before(s, y, x)
  {
    var s, l := KeyList(source), KeyList(locale.flats);
    UniqueKeys(source);
    UniqueKeys(locale.flats);
    KeepDistinct(l, s, true);
    KeepDistinct(s, l, true);
    forall x ensures x in Keep(l, s, true) <==> x in Keep(s, l, true) {
      KeepHas(l, s, true, x);
      KeepHas(s, l, true, x);
    }
    DifferIffSwapped(Keep(l, s, true), Keep(s, l, true));
    forall x, y
      ensures Before(Keep(l, s, true), x, y) <==> Before(l, x, y) && x in s && y in s
      ensures Before(Keep(s, l, true), y, x) <==> Before(s, y, x) && x in l && y in l
    {
      KeepBefore(l, s, true, x, y);
      KeepBefore(s, l, true, y, x);
    }
    forall keys, x, y | Before(keys, x, y) ensures x in keys && y in keys { BeforeAreThere(keys, x, y); }
    hide Before, Keep, KeyList;
  }

  lemma BeforeAreThere(keys: seq<string>, x: string, y: string)
    requires Before(keys, x, y)
    ensures x in keys && y in keys
  {
  }

  lemma {:induction false} ChangedPlaceholdersAre(source: seq<Flat>, locale: Locale, keys: seq<string>, f: Finding)
    requires forall key | key in keys :: Has(source, key)
    ensures f in PlaceholderFindings(source, locale, keys) <==>
            && f.ChangedPlaceholders? && f.locale == locale.name && f.key in keys && Has(locale.flats, f.key)
            && f.expected == PlaceholderNames(TextAt(source, f.key))
            && f.actual == PlaceholderNames(TextAt(locale.flats, f.key)) && f.expected != f.actual
  {
    hide Has, TextAt, PlaceholderNames;
    if keys != [] {
      ChangedPlaceholdersAre(source, locale, keys[1..], f);
      assert f.ChangedPlaceholders? ==> (f.key in keys <==> f.key == keys[0] || f.key in keys[1..]);
    }
  }

  /** What the analysis reports of one locale. */
  ghost predicate Deserved(f: Finding, source: seq<Flat>, locale: Locale) {
    f.locale == locale.name &&
    match f
    case OrphanKeys(_, keys) => keys != [] && ListsOrphans(keys, source, locale)
    case WrongOrder(_) => exists x, y :: Before(KeyList(locale.flats), x, y) && Before(KeyList(source), y, x)
    case ChangedPlaceholders(_, key, expected, actual) =>
      && Has(source, key) && Has(locale.flats, key) && expected != actual
      && expected == PlaceholderNames(TextAt(source, key)) && actual == PlaceholderNames(TextAt(locale.flats, key))
  }

  lemma FindingsOfLocale(source: seq<Flat>, locale: Locale, f: Finding)
    requires Unique(source) && Unique(locale.flats)
    ensures f in FindingsOf(source, locale) <==> Deserved(f, source, locale)
  {
    SourceKeysAreThere(source);
    ChangedPlaceholdersAre(source, locale, KeyList(source), f);
    OrderDecides(source, locale);
    if f.OrphanKeys? { OrphansAreKept(f.keys, source, locale); }
    hide Has, TextAt, PlaceholderNames, Keep, ListsOrphans, Before, KeyList, PlaceholderFindings, Unique;
  }

  /**
   * The report holds exactly: for each locale with keys that English does not have, all of these in order; for each
   * with two keys in another order than in English, that; and for each key whose placeholders differ, both sets.
   */
  lemma {:induction false} FindingsAreComplete(source: seq<Flat>, locales: seq<Locale>, f: Finding)
    requires Unique(source) && forall locale | locale in locales :: Unique(locale.flats)
    ensures f in AllFindings(source, locales) <==> exists locale :: locale in locales && Deserved(f, source, locale)
    decreases locales
  {
    hide Deserved, FindingsOf, Unique;
    if locales != [] {
      var n := |locales| - 1;
      FindingsAreComplete(source, locales[..n], f);
      FindingsOfLocale(source, locales[n], f);
      assert locales == locales[..n] + [locales[n]] && locales[n] in locales;
    }
  }

  /** A key's fallbacks name exactly the locales that lack it. */
  lemma {:induction false} FallbacksAreTheLacking(locales: seq<Locale>, key: string, name: string)
    ensures name in Lacking(locales, key) <==>
            exists locale :: locale in locales && locale.name == name && !Has(locale.flats, key)
    decreases locales
  {
    hide Has;
    if locales != [] {
      var n := |locales| - 1;
      FallbacksAreTheLacking(locales[..n], key, name);
      assert locales == locales[..n] + [locales[n]];
      assert locales[n] in locales;
    }
  }

  ghost predicate LacksAt(locales: seq<Locale>, key: string, k: nat) {
    k < |locales| && !Has(locales[k].flats, key)
  }

  /** These are, in order, the places of the locales that lack the key. */
  ghost predicate PlacesLacking(locales: seq<Locale>, key: string, at: seq<nat>) {
    && (forall i, j :: 0 <= i < j < |at| ==> at[i] < at[j])
    && (forall k: nat :: k in at <==> LacksAt(locales, key, k))
  }

  lemma OneMorePlace(locales: seq<Locale>, key: string, at: seq<nat>)
    requires locales != [] && PlacesLacking(locales[..|locales| - 1], key, at)
    ensures PlacesLacking(locales, key, if LacksAt(locales, key, |locales| - 1) then at + [|locales| - 1] else at)
  {
    var n := |locales| - 1;
    forall k: nat
      ensures LacksAt(locales, key, k) <==> LacksAt(locales[..n], key, k) || (k == n && LacksAt(locales, key, n))
    {
      assert k < n ==> locales[..n][k] == locales[k];
    }
    hide LacksAt;
    assert forall i :: 0 <= i < |at| ==> at[i] in at;
    forall k: nat ensures k in at + [n] <==> k in at || k == n {}
    assert forall i :: 0 <= i < |at| ==> at[i] < n by {
      forall i | 0 <= i < |at| ensures at[i] < n { LacksWithin(locales[..n], key, at[i]); }
    }
  }

  lemma LacksWithin(locales: seq<Locale>, key: string, k: nat)
    ensures LacksAt(locales, key, k) ==> k < |locales|
  {
  }

  /** The fallbacks are the names of the locales at these places. */
  ghost predicate NamesAt(locales: seq<Locale>, names: seq<string>, at: seq<nat>) {
    |names| == |at| && forall i :: 0 <= i < |at| ==> at[i] < |locales| && names[i] == locales[at[i]].name
  }

  lemma OneMoreName(locales: seq<Locale>, names: seq<string>, at: seq<nat>)
    requires locales != [] && NamesAt(locales[..|locales| - 1], names, at)
    ensures NamesAt(locales, names, at)
    ensures NamesAt(locales, names + [locales[|locales| - 1].name], at + [|locales| - 1])
  {
  }

  /** And in their order, each as often as there are such locales. */
  lemma {:induction false} FallbacksAreInOrder(locales: seq<Locale>, key: string) returns (at: seq<nat>)
    ensures PlacesLacking(locales, key, at) && NamesAt(locales, Lacking(locales, key), at)
  {
    if locales == [] {
      at := [];
    } else {
      hide PlacesLacking, NamesAt;
      var n := |locales| - 1;
      at := FallbacksAreInOrder(locales[..n], key);
      OneMorePlace(locales, key, at);
      OneMoreName(locales, Lacking(locales[..n], key), at);
      assert Lacking(locales[..n], key) + [] == Lacking(locales[..n], key);
      if LacksAt(locales, key, n) {
        at := at + [n];
      }
    }
  }
}
