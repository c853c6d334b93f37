/** Choosing one of several translations (`chooseTranslation`, `selectDeterministicTranslation`). */
module TranslationChoice {
  import opened Ordering

  datatype Entry = Entry(value: string, count: nat)

  // ------------------------------------------------------------------ counting candidates

  /** `counts.set(value, (counts.get(value) ?? 0) + 1)` on a map in insertion order. */
  function Bump(counts: seq<Entry>, value: string): seq<Entry> {
    if counts == [] then [Entry(value, 1)]
    else if counts[0].value == value then [Entry(value, counts[0].count + 1)] + counts[1..]
    else [counts[0]] + Bump(counts[1..], value)
  }

  function CountAll(values: seq<string>): seq<Entry> {
    if values == [] then [] else Bump(CountAll(values[..|values| - 1]), values[|values| - 1])
  }

  method CountCandidates(values: seq<string>) returns (counts: seq<Entry>)
    ensures counts == CountAll(values)
  {
    counts := [];
    for i := 0 to |values|
      invariant counts == CountAll(values[..i])
    {
      assert values[..i + 1][..i] == values[..i];
      counts := Bump(counts, values[i]);
    }
    assert values[..|values|] == values;
  }

  function CountOf(counts: seq<Entry>, value: string): nat {
    if counts == [] then 0
    else if counts[0].value == value then counts[0].count
    else CountOf(counts[1..], value)
  }

  /** Every value has one entry, and a positive count. */
  ghost predicate DistinctValues(counts: seq<Entry>) {
    counts != [] ==> counts[0].count > 0 && CountOf(counts[1..], counts[0].value) == 0 && DistinctValues(counts[1..])
  }

  lemma {:induction false} BumpCounts(counts: seq<Entry>, value: string)
    requires DistinctValues(counts)
    ensures DistinctValues(Bump(counts, value))
    ensures forall x :: CountOf(Bump(counts, value), x) == CountOf(counts, x) + if x == value then 1 else 0
  {
    if counts == [] {
    } else if counts[0].value == value {
      assert Bump(counts, value)[1..] == counts[1..];
    } else {
      BumpCounts(counts[1..], value);
      assert Bump(counts, value)[1..] == Bump(counts[1..], value);
    }
  }

  lemma {:induction false} EntryIffCounted(counts: seq<Entry>, e: Entry)
    requires DistinctValues(counts)
    ensures e in counts <==> e.count > 0 && CountOf(counts, e.value) == e.count
  {
    if counts != [] {
      EntryIffCounted(counts[1..], e);
      assert e in counts <==> e == counts[0] || e in counts[1..];
    }
  }

  /** Each candidate occurs once among the entries, with its multiplicity. */
  ghost predicate Tallies(counts: seq<Entry>, m: multiset<string>) {
    forall e: Entry :: e in counts <==> e.value in m && e.count == m[e.value]
  }

  lemma {:induction false} CountAllIsDistinct(values: seq<string>)
    ensures DistinctValues(CountAll(values)) && forall x :: CountOf(CountAll(values), x) == multiset(values)[x]
  {
    if values != [] {
      var front := values[..|values| - 1];
      CountAllIsDistinct(front);
      BumpCounts(CountAll(front), values[|values| - 1]);
      assert values == front + [values[|values| - 1]];
      assert CountAll(values) == Bump(CountAll(front), values[|values| - 1]);
      hide CountAll, Bump, CountOf, DistinctValues;
    }
  }

  lemma CountAllTallies(values: seq<string>)
    ensures Tallies(CountAll(values), multiset(values))
  {
    CountAllIsDistinct(values);
    forall e: Entry
      ensures e in CountAll(values) <==> e.value in multiset(values) && e.count == multiset(values)[e.value]
    {
      EntryIffCounted(CountAll(values), e);
    }
  }

  // ------------------------------------------------------------------ the two choosers

  function More(a: Entry, b: Entry): bool {
    a.count > b.count || (a.count == b.count && Less(a.value, b.value))
  }

  /** The comparison of the Apple catalog: the untranslated source last, then frequency, then text. */
  function Preferred(source: string): (Entry, Entry) -> bool {
    (a: Entry, b: Entry) =>
      if (a.value == source) != (b.value == source) then b.value == source else More(a, b)
  }

  function ChooseTranslation(source: string, translations: seq<string>): string {
    var sorted := Sort(CountAll(translations), Preferred(source));
    if sorted == [] then source else sorted[0].value
  }

  function Without(source: string, values: seq<string>): (r: seq<string>)
    ensures forall x :: x in r <==> x in values && x != source
    ensures forall x :: multiset(r)[x] == if x == source then 0 else multiset(values)[x]
  {
    if values == [] then []
    else
      assert values == [values[0]] + values[1..];
      (if values[0] == source then [] else [values[0]]) + Without(source, values[1..])
  }

  function SelectDeterministicTranslation(source: string, values: seq<string>): string {
    var translated := Without(source, values);
    var candidates := if |translated| > 0 then translated else values;
    var sorted := Sort(CountAll(candidates), (a: Entry, b: Entry) => More(a, b));
    if sorted == [] then "" else sorted[0].value
  }

  method ChooseTranslationOnApple(source: string, translations: seq<string>) returns (r: string)
    ensures r == ChooseTranslation(source, translations)
  {
    var counts := CountCandidates(translations);
    var sorted := Sort(counts, Preferred(source));
    r := if sorted == [] then source else sorted[0].value;
  }

  method SelectTranslationOnAndroid(source: string, values: seq<string>) returns (r: string)
    ensures r == SelectDeterministicTranslation(source, values)
  {
    var translated := Without(source, values);
    var counts := CountCandidates(if |translated| > 0 then translated else values);
    var sorted := Sort(counts, (a: Entry, b: Entry) => More(a, b));
    r := if sorted == [] then "" else sorted[0].value;
  }

  // ------------------------------------------------------------------ what is chosen

  /** `r` beats `v`: it is translated and `v` is not, or it is more frequent, or as frequent and smaller. */
  ghost predicate Beats(source: string, m: multiset<string>, r: string, v: string) {
    if (r == source) != (v == source) then v == source
    else m[r] > m[v] || (m[r] == m[v] && Less(r, v))
  }

  ghost predicate IsChoice(source: string, m: multiset<string>, r: string) {
    r in m && forall v | v in m && v != r :: Beats(source, m, r, v)
  }

  lemma MoreIsTotal()
    ensures Total((a: Entry, b: Entry) => More(a, b))
  {
    forall a: Entry, b: Entry ensures (More(a, b) || a == b || More(b, a)) && (More(a, b) ==> !More(b, a)) {
      LessIsTotal(a.value, b.value);
    }
    forall a: Entry, b: Entry, c: Entry | More(a, b) && More(b, c) ensures More(a, c) {
      if Less(a.value, b.value) && Less(b.value, c.value) { LessIsTransitive(a.value, b.value, c.value); }
    }
  }

  lemma PreferredIsTotal(source: string)
    ensures Total(Preferred(source))
  {
    MoreIsTotal();
    var before := Preferred(source);
    var more := (a: Entry, b: Entry) => More(a, b);
    forall a: Entry, b: Entry ensures (before(a, b) || a == b || before(b, a)) && (before(a, b) ==> !before(b, a)) {
      assert more(a, b) || a == b || more(b, a);
      assert more(a, b) ==> !more(b, a);
    }
    forall a: Entry, b: Entry, c: Entry | before(a, b) && before(b, c) ensures before(a, c) {
      assert more(a, b) && more(b, c) ==> more(a, c);
    }
  }

  /** Apple's choice is the candidate that beats all others; only without candidates is it the source itself. */
  lemma AppleChoiceIsBest(source: string, translations: seq<string>)
    requires translations != []
    ensures IsChoice(source, multiset(translations), ChooseTranslation(source, translations))
  {
    var m, counts := multiset(translations), CountAll(translations);
    CountAllTallies(translations);
    PreferredIsTotal(source);
    assert translations[0] in m && Entry(translations[0], m[translations[0]]) in counts;
    HeadIsLeast(counts, Preferred(source));
    var head := Sort(counts, Preferred(source))[0];
    forall v | v in m && v != head.value ensures Beats(source, m, head.value, v) {
      assert Entry(v, m[v]) in counts;
    }
  }

  /** So is Android's, although it drops the source from the candidates instead of ranking it last. */
  lemma AndroidChoiceIsBest(source: string, values: seq<string>)
    requires values != []
    ensures IsChoice(source, multiset(values), SelectDeterministicTranslation(source, values))
  {
    var translated := Without(source, values);
    var candidates := if |translated| > 0 then translated else values;
    var m, counts := multiset(candidates), CountAll(candidates);
    CountAllTallies(candidates);
    MoreIsTotal();
    assert candidates[0] in m && Entry(candidates[0], m[candidates[0]]) in counts;
    HeadIsLeast(counts, (a: Entry, b: Entry) => More(a, b));
    var head := Sort(counts, (a: Entry, b: Entry) => More(a, b))[0];
    assert head.value in m;
    if |translated| == 0 {
      forall v | v in values ensures v == source { assert v !in translated; }
    }
    forall v | v in multiset(values) && v != head.value ensures Beats(source, multiset(values), head.value, v) {
      if v in m {
        assert Entry(v, m[v]) in counts;
        assert More(head, Entry(v, m[v]));
      }
    }
  }

  lemma ChoiceIsUnique(source: string, m: multiset<string>, r: string, s: string)
    requires IsChoice(source, m, r) && IsChoice(source, m, s)
    ensures r == s
  {
    LessIsTotal(r, s);
  }

  /** The platforms agree on every list of candidates; without any, Apple keeps the source and Android nothing. */
  lemma PlatformsAgree(source: string, values: seq<string>)
    ensures SelectDeterministicTranslation(source, values) == ChooseTranslation(source, values) <==>
            values != [] || source == ""
  {
    if values != [] {
      AppleChoiceIsBest(source, values);
      AndroidChoiceIsBest(source, values);
      ChoiceIsUnique(source, multiset(values), SelectDeterministicTranslation(source, values),
          ChooseTranslation(source, values));
    }
  }

  /** Neither choice depends on the order of the candidates. */
  lemma ChoiceIgnoresOrder(source: string, a: seq<string>, b: seq<string>)
    requires multiset(a) == multiset(b)
    ensures ChooseTranslation(source, a) == ChooseTranslation(source, b)
    ensures SelectDeterministicTranslation(source, a) == SelectDeterministicTranslation(source, b)
  {
    assert |multiset(a)| == |a| && |multiset(b)| == |b|;
    if a != [] {
      AppleChoiceIsBest(source, a);
      AppleChoiceIsBest(source, b);
      ChoiceIsUnique(source, multiset(a), ChooseTranslation(source, a), ChooseTranslation(source, b));
      PlatformsAgree(source, a);
      PlatformsAgree(source, b);
    }
  }
}
