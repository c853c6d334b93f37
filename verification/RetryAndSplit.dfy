/** Retrying and splitting translation batches against an unreliable provider (`translateBatch`). */
module RetryAndSplit {
  import opened Placeholders
  import opened Text
  import opened TranslationBatches

  const TRANSLATE_MAX_ATTEMPTS := 2

  // ------------------------------------------------------------------ checking one reply

  datatype Error = PromptFailed(message: string) | InvalidJson | MissingTranslation(key: string) | PlaceholdersChanged

  datatype Result<T> = Ok(value: T) | Err(error: Error)

  /** What one prompt brings back; `values` are the string-valued properties of the parsed object. */
  datatype Reply = Failed(error: Error) | Object(values: map<string, string>)

  function Keys(items: Batch): set<string> { set it | it in items :: it.key }

  /** `new Map(items.map(...))`: of several items with one key, the last one counts. */
  function SourceTexts(items: Batch): (m: map<string, string>)
    ensures m.Keys == Keys(items)
  {
    if items == [] then map[]
    else SourceTexts(items[..|items| - 1])[items[|items| - 1].key := items[|items| - 1].text]
  }

  /** A complete translation: exactly the items' keys, no blank value, the placeholders of each source text. */
  ghost predicate Translates(items: Batch, translated: map<string, string>) {
    && translated.Keys == Keys(items)
    && forall key | key in translated ::
         !Blank(translated[key]) && PlaceholderNames(translated[key]) == PlaceholderNames(SourceTexts(items)[key])
  }

  predicate Present(values: map<string, string>, key: string) { key in values && !Blank(values[key]) }

  /** The first item, in order, without a usable value decides; then the placeholders are compared. */
  function ParseReply(items: Batch, values: map<string, string>): Result<map<string, string>> {
    if exists i :: 0 <= i < |items| && !Present(values, items[i].key) then
      Err(MissingTranslation(items[FirstMissing(items, values, 0)].key))
    else
      var translated := map key | key in Keys(items) :: values[key];
      if SamePlaceholders(SourceTexts(items), translated) then Ok(translated) else Err(PlaceholdersChanged)
  }

  predicate SamePlaceholders(source: map<string, string>, translated: map<string, string>) {
    forall key | key in source ::
      key in translated && PlaceholderNames(translated[key]) == PlaceholderNames(source[key])
  }

  function FirstMissing(items: Batch, values: map<string, string>, from: nat): (i: nat)
    requires exists k :: from <= k < |items| && !Present(values, items[k].key)
    ensures from <= i < |items| && !Present(values, items[i].key)
    ensures forall k :: from <= k < i ==> Present(values, items[k].key)
    decreases |items| - from
  {
    if !Present(values, items[from].key) then from else FirstMissing(items, values, from + 1)
  }

  /** A reply is accepted exactly when it holds a complete translation, and that translation is the result. */
  lemma ParseReplyDecides(items: Batch, values: map<string, string>)
    ensures var r := ParseReply(items, values);
            && (r.Ok? <==> exists m :: Translates(items, m) && Within(m, values))
            && (r.Ok? ==> Translates(items, r.value) && Within(r.value, values))
  {
    hide PlaceholderNames, Blank;
    var r := ParseReply(items, values);
    if r.Ok? {
      forall key | key in Keys(items) ensures Present(values, key) {
        var i :| 0 <= i < |items| && items[i].key == key;
      }
      assert Translates(items, r.value) && Within(r.value, values);
    }
    forall m | Translates(items, m) && Within(m, values) ensures r.Ok? {
      forall i | 0 <= i < |items| ensures Present(values, items[i].key) {
        assert items[i].key in Keys(items);
      }
    }
  }

  /** Every entry of `m` is an entry of `values`. */
  ghost predicate Within(m: map<string, string>, values: map<string, string>) {
    forall key | key in m :: key in values && values[key] == m[key]
  }

  lemma OneMoreItem(items: Batch, i: nat)
    requires i < |items|
    ensures Keys(items[..i + 1]) == Keys(items[..i]) + {items[i].key}
    ensures SourceTexts(items[..i + 1]) == SourceTexts(items[..i])[items[i].key := items[i].text]
  {
    assert items[..i + 1][..i] == items[..i];
    assert items[..i + 1] == items[..i] + [items[i]];
  }

  lemma NoItems()
    ensures Keys([]) == {} && SourceTexts([]) == map[] && forall values :: Within(map[], values)
  {
  }

  lemma EntryAdded(translated: map<string, string>, values: map<string, string>, key: string)
    requires Within(translated, values) && Present(values, key)
    ensures key in values && Within(translated[key := values[key]], values)
  {
  }

  lemma StopsAtFirstMissing(items: Batch, values: map<string, string>, i: nat)
    requires i < |items| && !Present(values, items[i].key)
    requires forall k :: 0 <= k < i ==> Present(values, items[k].key)
    ensures ParseReply(items, values) == Err(MissingTranslation(items[i].key))
  {
    hide PlaceholderNames, Blank, SourceTexts;
    assert FirstMissing(items, values, 0) == i;
  }

  lemma ComparesPlaceholders(items: Batch, values: map<string, string>, translated: map<string, string>)
    requires forall k :: 0 <= k < |items| ==> Present(values, items[k].key)
    requires translated.Keys == Keys(items) && Within(translated, values)
    ensures ParseReply(items, values) ==
            if SamePlaceholders(SourceTexts(items), translated) then Ok(translated) else Err(PlaceholdersChanged)
  {
    hide PlaceholderNames, Blank, SourceTexts, SamePlaceholders;
    assert translated == map key | key in Keys(items) :: values[key];
  }

  method ParseTranslationBatchReply(items: Batch, values: map<string, string>) returns (r: Result<map<string, string>>)
    ensures r == ParseReply(items, values)
  {
    NoItems();
    hide *;
    var translated: map<string, string> := map[];
    var source: map<string, string> := map[];
    for i := 0 to |items|
      invariant forall k :: 0 <= k < i ==> Present(values, items[k].key)
      invariant translated.Keys == Keys(items[..i]) && Within(translated, values)
      invariant source == SourceTexts(items[..i])
    {
      var key := items[i].key;
      if !Present(values, key) {
        StopsAtFirstMissing(items, values, i);
        r := Err(MissingTranslation(key));
        return;
      }
      OneMoreItem(items, i);
      EntryAdded(translated, values, key);
      translated := translated[key := values[key]];
      source := source[key := items[i].text];
    }
    assert items[..|items|] == items;
    ComparesPlaceholders(items, values, translated);
    r := if SamePlaceholders(source, translated) then Ok(translated) else Err(PlaceholdersChanged);
  }

  // ------------------------------------------------------------------ prompting, retrying and splitting

  /**
   * `provider(k)` is what the k-th prompt brings back, whatever that depends on; `timesOut` says which
   * errors read as a timeout.
   */
  function Attempt(items: Batch, reply: Reply): Result<map<string, string>> {
    match reply
    case Failed(error) => Err(error)
    case Object(values) => ParseReply(items, values)
  }

  /** `asked` are the batches that were prompted for, in order, and `next` is the number of the next prompt. */
  datatype Outcome = Outcome(result: Result<map<string, string>>, next: nat, asked: seq<Batch>)

  /** What follows a prompt for `items`. */
  function Then(items: Batch, o: Outcome): Outcome { o.(asked := [items] + o.asked) }

  function Both(left: Outcome, right: Outcome): Outcome
    requires left.result.Ok?
  {
    Outcome(if right.result.Err? then right.result else Ok(left.result.value + right.result.value),
            right.next, left.asked + right.asked)
  }

  function Midpoint(items: Batch): (m: nat)
    ensures |items| > 1 ==> 0 < m < |items|
    ensures m <= |items|
  {
    (|items| + 1) / 2
  }

  /** The batch from a given attempt on, the next prompt being number `next`. */
  function Translate(items: Batch, provider: nat -> Reply, timesOut: Error -> bool, next: nat,
                     attempt: nat): (o: Outcome)
    ensures o.next == next + |o.asked| > next
    decreases |items|, TRANSLATE_MAX_ATTEMPTS - attempt
  {
    var r := Attempt(items, provider(next));
    if r.Ok? then Outcome(r, next + 1, [items])
    else if timesOut(r.error) && |items| > 1 then
      var left := Translate(items[..Midpoint(items)], provider, timesOut, next + 1, 0);
      if left.result.Err? then Then(items, left)
      else Then(items, Both(left, Translate(items[Midpoint(items)..], provider, timesOut, left.next, 0)))
    else if timesOut(r.error) || attempt + 1 >= TRANSLATE_MAX_ATTEMPTS then Outcome(r, next + 1, [items])
    else Then(items, Translate(items, provider, timesOut, next + 1, attempt + 1))
  }

  /** An outcome whose first prompts were these. */
  ghost function After(asked: seq<Batch>, o: Outcome): Outcome { o.(asked := asked + o.asked) }

  lemma AfterNothing(o: Outcome)
    ensures After([], o) == o
  {
  }

  /** After a prompt there is one more batch that was asked for. */
  lemma AfterPrompt(before: seq<Batch>, items: Batch, o: Outcome)
    ensures After(before, Then(items, o)) == After(before + [items], o)
  {
    assert before + ([items] + o.asked) == before + [items] + o.asked;
  }

  lemma AfterLast(before: seq<Batch>, items: Batch, r: Result<map<string, string>>, next: nat)
    ensures After(before, Outcome(r, next, [items])) == Outcome(r, next, before + [items])
  {
  }

  lemma AfterIs(before: seq<Batch>, o: Outcome)
    ensures After(before, o) == Outcome(o.result, o.next, before + o.asked)
  {
  }

  lemma AfterBoth(before: seq<Batch>, left: Outcome, right: Outcome)
    requires left.result.Ok?
    ensures After(before, Both(left, right))
         == Outcome(Both(left, right).result, right.next, before + left.asked + right.asked)
  {
    assert before + (left.asked + right.asked) == before + left.asked + right.asked;
  }

  /** What one prompt decides. */
  lemma PromptDecides(items: Batch, provider: nat -> Reply, timesOut: Error -> bool, next: nat, attempt: nat)
    ensures var r, o := Attempt(items, provider(next)), Translate(items, provider, timesOut, next, attempt);
            if r.Ok? then o == Outcome(r, next + 1, [items])
            else if timesOut(r.error) && |items| > 1 then
              var left := Translate(items[..Midpoint(items)], provider, timesOut, next + 1, 0);
              if left.result.Err? then o == Then(items, left)
              else o == Then(items, Both(left, Translate(items[Midpoint(items)..], provider, timesOut, left.next, 0)))
            else if timesOut(r.error) || attempt + 1 >= TRANSLATE_MAX_ATTEMPTS then o == Outcome(r, next + 1, [items])
            else o == Then(items, Translate(items, provider, timesOut, next + 1, attempt + 1))
  {
    hide Attempt;
  }

  /** The loop over attempts, with the recursion on both halves inside it. */
  method TranslateBatch(items: Batch, provider: nat -> Reply, timesOut: Error -> bool, start: nat)
    returns (r: Result<map<string, string>>, next: nat, asked: seq<Batch>)
    ensures Outcome(r, next, asked) == Translate(items, provider, timesOut, start, 0)
    decreases |items|
  {
    hide Translate, After, Then, ParseReply;
    next, asked := start, [];
    var lastError := InvalidJson;
    ghost var all := Translate(items, provider, timesOut, start, 0);
    AfterNothing(all);
    for attempt := 0 to TRANSLATE_MAX_ATTEMPTS
      invariant attempt < TRANSLATE_MAX_ATTEMPTS ==>
                  all == After(asked, Translate(items, provider, timesOut, next, attempt))
      invariant attempt == TRANSLATE_MAX_ATTEMPTS ==> all == Outcome(Err(lastError), next, asked)
    {
      PromptDecides(items, provider, timesOut, next, attempt);
      ghost var before := asked;
      var reply := provider(next);
      next := next + 1;
      asked := asked + [items];
      if reply.Object? {
        r := ParseTranslationBatchReply(items, reply.values);
        if r.Ok? {
          AfterLast(before, items, r, next);
          return;
        }
        lastError := r.error;
      } else {
        lastError := reply.error;
      }
      if timesOut(lastError) && |items| > 1 {
        var midpoint := (|items| + 1) / 2;
        ghost var left := Translate(items[..midpoint], provider, timesOut, next, 0);
        AfterPrompt(before, items, left);
        var more: seq<Batch>;
        r, next, more := TranslateBatch(items[..midpoint], provider, timesOut, next);
        if r.Err? {
          asked := asked + more;
          AfterIs(before + [items], left);
          return;
        }
        ghost var right := Translate(items[midpoint..], provider, timesOut, next, 0);
        AfterPrompt(before, items, Both(left, right));
        AfterBoth(before + [items], left, right);
        var value := r.value;
        asked := asked + more;
        r, next, more := TranslateBatch(items[midpoint..], provider, timesOut, next);
        if r.Ok? {
          r := Ok(value + r.value);
        }
        asked := asked + more;
        return;
      }
      AfterLast(before, items, Err(lastError), next);
      if timesOut(lastError) {
        break;
      }
      if attempt + 1 < TRANSLATE_MAX_ATTEMPTS {
        AfterPrompt(before, items, Translate(items, provider, timesOut, next, attempt + 1));
      }
    }
    r := Err(lastError);
  }

  // ------------------------------------------------------------------ what comes out of it

  /** At most 4n - 2 prompts for a batch of n items, however the provider behaves. */
  lemma {:induction false} PromptsAreBounded(items: Batch, provider: nat -> Reply, timesOut: Error -> bool, next: nat,
                                             attempt: nat)
    requires |items| >= 1 && attempt < TRANSLATE_MAX_ATTEMPTS
    ensures Translate(items, provider, timesOut, next, attempt).next - next <= 4 * |items| - 2 - attempt
    decreases |items|, TRANSLATE_MAX_ATTEMPTS - attempt
  {
    var r := Attempt(items, provider(next));
    if r.Err? {
      if timesOut(r.error) && |items| > 1 {
        var midpoint := Midpoint(items);
        PromptsAreBounded(items[..midpoint], provider, timesOut, next + 1, 0);
        var left := Translate(items[..midpoint], provider, timesOut, next + 1, 0);
        PromptsAreBounded(items[midpoint..], provider, timesOut, left.next, 0);
      } else if !timesOut(r.error) && attempt + 1 < TRANSLATE_MAX_ATTEMPTS {
        PromptsAreBounded(items, provider, timesOut, next + 1, attempt + 1);
      }
    }
  }

  lemma UnionThenUpdate(a: map<string, string>, b: map<string, string>, key: string, value: string)
    ensures (a + b)[key := value] == a + b[key := value]
  {
  }

  lemma {:induction false} SourceTextsAppend(a: Batch, b: Batch)
    ensures SourceTexts(a + b) == SourceTexts(a) + SourceTexts(b)
  {
    hide Keys;
    if b == [] {
      assert a + b == a;
    } else {
      var front, last := b[..|b| - 1], b[|b| - 1];
      SourceTextsAppend(a, front);
      assert (a + b)[..|a + b| - 1] == a + front;
      UnionThenUpdate(SourceTexts(a), SourceTexts(front), last.key, last.text);
    }
  }

  lemma HalvesTranslate(a: Batch, b: Batch, left: map<string, string>, right: map<string, string>)
    requires Translates(a, left) && Translates(b, right)
    ensures Translates(a + b, left + right)
  {
    SourceTextsAppend(a, b);
    hide PlaceholderNames, Blank, SourceTexts, Keys;
    assert Keys(a + b) == Keys(a) + Keys(b);
  }

  /** Each entry of `m` was an entry of some reply among prompts `from` to `to`. */
  ghost predicate Provided(m: map<string, string>, provider: nat -> Reply, from: nat, to: nat) {
    forall key | key in m :: exists k: nat :: from <= k < to && ProvidedBy(key, m[key], provider(k))
  }

  ghost predicate ProvidedBy(key: string, value: string, reply: Reply) {
    reply.Object? && key in reply.values && reply.values[key] == value
  }

  /** Success is a complete translation, and every value in it is one the provider gave on the way. */
  lemma {:induction false} SuccessIsComplete(items: Batch, provider: nat -> Reply, timesOut: Error -> bool, next: nat,
                                             attempt: nat)
    ensures var o := Translate(items, provider, timesOut, next, attempt);
            o.result.Ok? ==> Translates(items, o.result.value) && Provided(o.result.value, provider, next, o.next)
    decreases |items|, TRANSLATE_MAX_ATTEMPTS - attempt
  {
    hide Translates, ParseReply;
    var r := Attempt(items, provider(next));
    if provider(next).Object? { ParseReplyDecides(items, provider(next).values); }
    if r.Ok? {
      assert forall key | key in r.value :: ProvidedBy(key, r.value[key], provider(next));
    } else if timesOut(r.error) && |items| > 1 {
      var midpoint := Midpoint(items);
      var a, b := items[..midpoint], items[midpoint..];
      assert a + b == items;
      SuccessIsComplete(a, provider, timesOut, next + 1, 0);
      var left := Translate(a, provider, timesOut, next + 1, 0);
      SuccessIsComplete(b, provider, timesOut, left.next, 0);
      var right := Translate(b, provider, timesOut, left.next, 0);
      if left.result.Ok? && right.result.Ok? {
        HalvesTranslate(a, b, left.result.value, right.result.value);
        ProvidedMerges(left.result.value, right.result.value, provider, next, left.next, right.next);
      }
    } else if !timesOut(r.error) && attempt + 1 < TRANSLATE_MAX_ATTEMPTS {
      SuccessIsComplete(items, provider, timesOut, next + 1, attempt + 1);
    }
  }

  lemma ProvidedMerges(left: map<string, string>, right: map<string, string>, provider: nat -> Reply, a: nat, b: nat,
                       c: nat)
    requires Provided(left, provider, a + 1, b) && Provided(right, provider, b, c) && a < b <= c
    ensures Provided(left + right, provider, a, c)
  {
    var both := left + right;
    forall key | key in both ensures exists k: nat :: a <= k < c && ProvidedBy(key, both[key], provider(k)) {
      if key in right {
        var k: nat :| b <= k < c && ProvidedBy(key, right[key], provider(k));
      } else {
        var k: nat :| a + 1 <= k < b && ProvidedBy(key, left[key], provider(k));
      }
    }
  }

  /** `error` is what prompt `last` brought for `stretch`, and there was nothing left to try for it. */
  ghost predicate GivenUp(stretch: Batch, error: Error, provider: nat -> Reply, timesOut: Error -> bool, last: nat) {
    && Attempt(stretch, provider(last)) == Err(error)
    && (timesOut(error) ==> |stretch| <= 1)
    && (!timesOut(error) ==> last > 0 && Attempt(stretch, provider(last - 1)).Err?)
  }

  /** Some stretch of the items was given up. */
  ghost predicate SomeGivenUp(items: Batch, error: Error, provider: nat -> Reply, timesOut: Error -> bool, last: nat) {
    exists from: nat, to: nat :: from <= to <= |items| && GivenUp(items[from..to], error, provider, timesOut, last)
  }

  /**
   * Failure carries the error of the last prompt, made for some stretch of the items, and nothing was left
   * to try for that stretch: it timed out as a single item, or it failed twice.
   */
  lemma {:induction false} FailureIsFinal(items: Batch, provider: nat -> Reply, timesOut: Error -> bool, next: nat,
                                          attempt: nat)
    requires attempt > 0 ==> next > 0 && Attempt(items, provider(next - 1)).Err?
    ensures var o := Translate(items, provider, timesOut, next, attempt);
            o.result.Err? ==> SomeGivenUp(items, o.result.error, provider, timesOut, o.next - 1)
    decreases |items|, TRANSLATE_MAX_ATTEMPTS - attempt
  {
    PromptDecides(items, provider, timesOut, next, attempt);
    hide Attempt, SomeGivenUp, Translate;
    var r, o := Attempt(items, provider(next)), Translate(items, provider, timesOut, next, attempt);
    if r.Ok? {
    } else if timesOut(r.error) && |items| > 1 {
      var midpoint := Midpoint(items);
      var left := Translate(items[..midpoint], provider, timesOut, next + 1, 0);
      if left.result.Err? {
        FailureIsFinal(items[..midpoint], provider, timesOut, next + 1, 0);
        FrontGivenUp(items, midpoint, o.result.error, provider, timesOut, o.next - 1);
      } else if o.result.Err? {
        FailureIsFinal(items[midpoint..], provider, timesOut, left.next, 0);
        BackGivenUp(items, midpoint, o.result.error, provider, timesOut, o.next - 1);
      }
    } else if !timesOut(r.error) && attempt + 1 < TRANSLATE_MAX_ATTEMPTS {
      FailureIsFinal(items, provider, timesOut, next + 1, attempt + 1);
    } else {
      LastAttemptGivesUp(items, provider, timesOut, next, attempt, r.error);
      AllGivenUp(items, r.error, provider, timesOut, next);
    }
  }

  lemma AllGivenUp(items: Batch, error: Error, provider: nat -> Reply, timesOut: Error -> bool, last: nat)
    requires GivenUp(items, error, provider, timesOut, last)
    ensures SomeGivenUp(items, error, provider, timesOut, last)
  {
    hide GivenUp;
    assert items[0..|items|] == items;
  }

  lemma FrontGivenUp(items: Batch, midpoint: nat, error: Error, provider: nat -> Reply, timesOut: Error -> bool,
                     last: nat)
    requires midpoint <= |items| && SomeGivenUp(items[..midpoint], error, provider, timesOut, last)
    ensures SomeGivenUp(items, error, provider, timesOut, last)
  {
    hide GivenUp;
    var from: nat, to: nat :|
      from <= to <= midpoint && GivenUp(items[..midpoint][from..to], error, provider, timesOut, last);
    assert items[..midpoint][from..to] == items[from..to];
  }

  lemma BackGivenUp(items: Batch, midpoint: nat, error: Error, provider: nat -> Reply, timesOut: Error -> bool,
                    last: nat)
    requires midpoint <= |items| && SomeGivenUp(items[midpoint..], error, provider, timesOut, last)
    ensures SomeGivenUp(items, error, provider, timesOut, last)
  {
    hide GivenUp;
    var from: nat, to: nat :|
      from <= to <= |items| - midpoint && GivenUp(items[midpoint..][from..to], error, provider, timesOut, last);
    assert items[midpoint..][from..to] == items[midpoint + from..midpoint + to];
  }

  lemma LastAttemptGivesUp(items: Batch, provider: nat -> Reply, timesOut: Error -> bool, next: nat, attempt: nat,
                           error: Error)
    requires Attempt(items, provider(next)) == Err(error)
    requires attempt > 0 ==> next > 0 && Attempt(items, provider(next - 1)).Err?
    requires if timesOut(error) then |items| <= 1 else attempt > 0
    ensures GivenUp(items, error, provider, timesOut, next)
  {
    hide Attempt;
  }

  // ------------------------------------------------------------------ which prompts are made

  /** A prompt succeeds exactly with a reply that holds a complete translation; an error of the prompt is passed on. */
  lemma AttemptDecides(items: Batch, reply: Reply)
    ensures Attempt(items, reply).Ok? <==> reply.Object? && exists m :: Translates(items, m) && Within(m, reply.values)
    ensures reply.Failed? ==> Attempt(items, reply) == Err(reply.error)
  {
    if reply.Object? { ParseReplyDecides(items, reply.values); }
    hide ParseReply, Translates;
  }

  /**
   * At most one item is prompted for once if the first reply is accepted or the prompt times out, and exactly twice
   * otherwise; the last of these replies is the result.
   */
  lemma OneItemIsPromptedAtMostTwice(items: Batch, provider: nat -> Reply, timesOut: Error -> bool, next: nat)
    requires |items| <= 1
    ensures var first, second := Attempt(items, provider(next)), Attempt(items, provider(next + 1));
            var o := Translate(items, provider, timesOut, next, 0);
            if first.Ok? || timesOut(first.error) then o == Outcome(first, next + 1, [items])
            else o == Outcome(second, next + 2, [items, items])
  {
    PromptDecides(items, provider, timesOut, next, 0);
    PromptDecides(items, provider, timesOut, next + 1, 1);
    hide Translate, Attempt;
    assert [items] + [items] == [items, items];
  }

  /** The j-th of these prompts failed for another reason than time. */
  ghost predicate Fails(asked: seq<Batch>, provider: nat -> Reply, timesOut: Error -> bool, next: nat, j: int) {
    0 <= j < |asked| && var r := Attempt(asked[j], provider(next + j)); r.Err? && !timesOut(r.error)
  }

  /**
   * What comes after the j-th prompt: after the timeout of several items, a prompt for the first half of them, rounded
   * up; after the first failure, the same prompt again; after the timeout of one item or a second failure, nothing,
   * and its error is the result.  `retried` says that the first prompt is one made again.
   */
  ghost predicate Goes(asked: seq<Batch>, result: Result<map<string, string>>, provider: nat -> Reply,
                       timesOut: Error -> bool, next: nat, retried: bool, j: nat)
    requires j < |asked|
  {
    var r := Attempt(asked[j], provider(next + j));
    var again := if j == 0 then retried else Fails(asked, provider, timesOut, next, j - 1);
    r.Err? ==>
      if timesOut(r.error) && |asked[j]| > 1 then
        j + 1 < |asked| && asked[j + 1] == asked[j][..(|asked[j]| + 1) / 2]
      else if timesOut(r.error) || again then j + 1 == |asked| && result == r
      else j + 1 < |asked| && asked[j + 1] == asked[j]
  }

  ghost predicate AllGo(o: Outcome, provider: nat -> Reply, timesOut: Error -> bool, next: nat, retried: bool) {
    && o.asked != []
    && (forall j: nat | j < |o.asked| :: Goes(o.asked, o.result, provider, timesOut, next, retried, j))
    && (Fails(o.asked, provider, timesOut, next, |o.asked| - 1) ==> o.result.Err?)
  }

  /** Every prompt of every translation follows these rules. */
  lemma {:induction false} PromptsFollowRules(items: Batch, provider: nat -> Reply, timesOut: Error -> bool, next: nat,
                                              attempt: nat)
    requires attempt < TRANSLATE_MAX_ATTEMPTS
    ensures var o := Translate(items, provider, timesOut, next, attempt);
            o.asked != [] && o.asked[0] == items && AllGo(o, provider, timesOut, next, attempt > 0)
    decreases |items|, TRANSLATE_MAX_ATTEMPTS - attempt
  {
    PromptDecides(items, provider, timesOut, next, attempt);
    hide Translate, Attempt, AllGo;
    var r := Attempt(items, provider(next));
    if r.Ok? || (!(timesOut(r.error) && |items| > 1) && (timesOut(r.error) || attempt > 0)) {
      LastGoes(items, r, provider, timesOut, next, attempt > 0);
    } else if timesOut(r.error) {
      var left := Translate(items[..Midpoint(items)], provider, timesOut, next + 1, 0);
      PromptsFollowRules(items[..Midpoint(items)], provider, timesOut, next + 1, 0);
      if left.result.Err? {
        FirstGoes(items, left, provider, timesOut, next, attempt > 0, false);
      } else {
        var right := Translate(items[Midpoint(items)..], provider, timesOut, left.next, 0);
        PromptsFollowRules(items[Midpoint(items)..], provider, timesOut, left.next, 0);
        BothGo(left, right, provider, timesOut, next + 1);
        FirstGoes(items, Both(left, right), provider, timesOut, next, attempt > 0, false);
      }
    } else {
      var rest := Translate(items, provider, timesOut, next + 1, attempt + 1);
      PromptsFollowRules(items, provider, timesOut, next + 1, attempt + 1);
      FirstGoes(items, rest, provider, timesOut, next, attempt > 0, true);
    }
  }

  lemma LastGoes(items: Batch, r: Result<map<string, string>>, provider: nat -> Reply, timesOut: Error -> bool,
                 next: nat, retried: bool)
    requires r == Attempt(items, provider(next))
    requires r.Err? ==> !(timesOut(r.error) && |items| > 1) && (timesOut(r.error) || retried)
    ensures AllGo(Outcome(r, next + 1, [items]), provider, timesOut, next, retried)
  {
    hide Attempt;
    assert [items][0] == items && provider(next + 0) == provider(next);
  }

  lemma FirstGoes(items: Batch, o: Outcome, provider: nat -> Reply, timesOut: Error -> bool, next: nat, retried: bool,
                  failed: bool)
    requires AllGo(o, provider, timesOut, next + 1, failed)
    requires var r := Attempt(items, provider(next));
             && r.Err? && (failed <==> !timesOut(r.error))
             && (if failed then !retried && o.asked[0] == items
                 else |items| > 1 && o.asked[0] == items[..(|items| + 1) / 2])
    ensures AllGo(Then(items, o), provider, timesOut, next, retried)
  {
    hide Attempt;
    var all := [items] + o.asked;
    forall j: nat | j < |all| ensures Goes(all, o.result, provider, timesOut, next, retried, j) {
      if j > 0 {
        assert Goes(o.asked, o.result, provider, timesOut, next + 1, failed, j - 1);
        assert all[j] == o.asked[j - 1] && next + 1 + (j - 1) == next + j;
        assert j > 1 ==> all[j - 1] == o.asked[j - 2] && next + 1 + (j - 2) == next + (j - 1);
      }
    }
    assert all[|all| - 1] == o.asked[|o.asked| - 1];
  }

  lemma BothGo(left: Outcome, right: Outcome, provider: nat -> Reply, timesOut: Error -> bool, next: nat)
    requires AllGo(left, provider, timesOut, next, false) && left.result.Ok?
    requires AllGo(right, provider, timesOut, next + |left.asked|, false)
    ensures AllGo(Both(left, right), provider, timesOut, next, false) && Both(left, right).asked[0] == left.asked[0]
  {
    hide Attempt;
    var n, all, o := |left.asked|, left.asked + right.asked, Both(left, right);
    forall j: nat | j < |all| ensures Goes(all, o.result, provider, timesOut, next, false, j) {
      if j < n {
        assert Goes(left.asked, left.result, provider, timesOut, next, false, j);
      } else {
        assert Goes(right.asked, right.result, provider, timesOut, next + n, false, j - n);
        assert all[j] == right.asked[j - n] && next + n + (j - n) == next + j;
        assert j > n ==> all[j - 1] == right.asked[j - n - 1] && next + n + (j - n - 1) == next + (j - 1);
        assert j == n ==> all[j - 1] == left.asked[n - 1];
      }
    }
    assert all[|all| - 1] == right.asked[|right.asked| - 1];
  }

  /** The items of the prompts that succeeded, in order, and the translations those brought, later ones counting. */
  ghost function Answered(asked: seq<Batch>, provider: nat -> Reply, next: nat): (Batch, map<string, string>) {
    if asked == [] then ([], map[])
    else
      var n := |asked| - 1;
      var front, r := Answered(asked[..n], provider, next), Attempt(asked[n], provider(next + n));
      if r.Ok? then (front.0 + asked[n], front.1 + r.value) else front
  }

  lemma {:induction false} AnsweredAppend(a: seq<Batch>, b: seq<Batch>, provider: nat -> Reply, next: nat)
    ensures var x, y := Answered(a, provider, next), Answered(b, provider, next + |a|);
            Answered(a + b, provider, next) == (x.0 + y.0, x.1 + y.1)
  {
    hide Attempt;
    var x := Answered(a, provider, next);
    if b == [] {
      assert a + b == a && x.0 + [] == x.0 && x.1 + map[] == x.1;
    } else {
      var n := |b| - 1;
      var y := Answered(b[..n], provider, next + |a|);
      assert x.0 + y.0 + b[n] == x.0 + (y.0 + b[n]);
      assert (a + b)[..|a + b| - 1] == a + b[..n] && (a + b)[|a| + n] == b[n] && next + |a| + n == next + (|a| + n);
      AnsweredAppend(a, b[..n], provider, next);
      MapsAppend(x.1, y.1, Attempt(b[n], provider(next + |a| + n)));
    }
  }

  lemma MapsAppend(x: map<string, string>, y: map<string, string>, r: Result<map<string, string>>)
    ensures r.Ok? ==> x + y + r.value == x + (y + r.value)
  {
  }

  lemma AnsweredThen(items: Batch, later: seq<Batch>, provider: nat -> Reply, next: nat)
    requires Attempt(items, provider(next)).Err?
    ensures Answered([items] + later, provider, next) == Answered(later, provider, next + 1)
  {
    AnsweredOne(items, provider, next);
    AnsweredAppend([items], later, provider, next);
    hide Answered, Attempt;
    var y := Answered(later, provider, next + 1);
    assert [] + y.0 == y.0 && map[] + y.1 == y.1;
  }

  lemma AnsweredOne(items: Batch, provider: nat -> Reply, next: nat)
    ensures var r := Attempt(items, provider(next));
            Answered([items], provider, next) == if r.Ok? then (items, r.value) else ([], map[])
  {
    hide Attempt;
    assert [items][..0] == [] && provider(next + 0) == provider(next);
    var r := Attempt(items, provider(next));
    assert [] + items == items && (r.Ok? ==> map[] + r.value == r.value);
  }

  /**
   * The prompts that succeed are for consecutive stretches from the first item on, and success means that they are for
   * all items; the result is what they brought.
   */
  lemma {:induction false} AnswersCoverItems(items: Batch, provider: nat -> Reply, timesOut: Error -> bool, next: nat,
                                             attempt: nat)
    ensures var o := Translate(items, provider, timesOut, next, attempt);
            var answered := Answered(o.asked, provider, next);
            if o.result.Ok? then answered == (items, o.result.value) else answered.0 <= items
    decreases |items|, TRANSLATE_MAX_ATTEMPTS - attempt
  {
    PromptDecides(items, provider, timesOut, next, attempt);
    AnsweredOne(items, provider, next);
    hide Translate, Attempt, Answered;
    var r := Attempt(items, provider(next));
    if r.Err? && timesOut(r.error) && |items| > 1 {
      var m := Midpoint(items);
      assert items[..m] + items[m..] == items;
      var left := Translate(items[..m], provider, timesOut, next + 1, 0);
      AnswersCoverItems(items[..m], provider, timesOut, next + 1, 0);
      AnsweredThen(items, left.asked, provider, next);
      if left.result.Ok? {
        var right := Translate(items[m..], provider, timesOut, left.next, 0);
        AnswersCoverItems(items[m..], provider, timesOut, left.next, 0);
        AnsweredAppend(left.asked, right.asked, provider, next + 1);
        AnsweredThen(items, left.asked + right.asked, provider, next);
      }
    } else if r.Err? && !timesOut(r.error) && attempt + 1 < TRANSLATE_MAX_ATTEMPTS {
      var rest := Translate(items, provider, timesOut, next + 1, attempt + 1);
      AnswersCoverItems(items, provider, timesOut, next + 1, attempt + 1);
      AnsweredThen(items, rest.asked, provider, next);
    }
  }

  // ------------------------------------------------------------------ the bound is reached

  /** A provider that first fails and then times out at every level, and answers single items the second time. */
  function WorstReplies(items: Batch, slow: Error, bad: Error): seq<Reply>
    requires items != []
  {
    if |items| == 1 then [Failed(bad), Object(map[items[0].key := items[0].text])]
    else
      var midpoint := Midpoint(items);
      [Failed(bad), Failed(slow)] + WorstReplies(items[..midpoint], slow, bad)
          + WorstReplies(items[midpoint..], slow, bad)
  }

  ghost predicate Replays(provider: nat -> Reply, next: nat, replies: seq<Reply>) {
    forall k: nat :: k < |replies| ==> provider(next + k) == replies[k]
  }

  lemma ReplaysParts(provider: nat -> Reply, next: nat, x: seq<Reply>, y: seq<Reply>, z: seq<Reply>)
    requires Replays(provider, next, x + y + z)
    ensures Replays(provider, next, x)
    ensures Replays(provider, next + |x|, y)
    ensures Replays(provider, next + |x| + |y|, z)
  {
    var all := x + y + z;
    forall k: nat | k < |x| ensures provider(next + k) == x[k] { assert all[k] == x[k]; }
    forall k: nat | k < |y| ensures provider(next + |x| + k) == y[k] { assert all[|x| + k] == y[k]; }
    forall k: nat | k < |z| ensures provider(next + |x| + |y| + k) == z[k] { assert all[|x| + |y| + k] == z[k]; }
  }

  /** One failed attempt and a timeout take the batch straight to its halves. */
  lemma TwoFailuresSplit(items: Batch, provider: nat -> Reply, timesOut: Error -> bool, next: nat, slow: Error,
                         bad: Error)
    requires |items| > 1 && timesOut(slow) && !timesOut(bad)
    requires provider(next) == Failed(bad) && provider(next + 1) == Failed(slow)
    ensures var midpoint := Midpoint(items);
            var left := Translate(items[..midpoint], provider, timesOut, next + 2, 0);
            left.result.Ok? ==>
              var right := Translate(items[midpoint..], provider, timesOut, left.next, 0);
              right.result.Ok? ==>
                var o := Translate(items, provider, timesOut, next, 0);
                o.result == Ok(left.result.value + right.result.value) && o.next == right.next
  {
    PromptDecides(items, provider, timesOut, next, 0);
  }

  lemma WorstSingle(items: Batch, provider: nat -> Reply, timesOut: Error -> bool, next: nat, bad: Error)
    requires |items| == 1 && !timesOut(bad) && !Blank(items[0].text)
    requires provider(next) == Failed(bad) && provider(next + 1) == Object(map[items[0].key := items[0].text])
    ensures var o := Translate(items, provider, timesOut, next, 0);
            o.result.Ok? && o.next == next + 2
  {
    hide PlaceholderNames, Blank, ParseReply;
    SingleItemParses(items);
    PromptDecides(items, provider, timesOut, next, 0);
  }

  lemma WorstPair(provider: nat -> Reply, next: nat, slow: Error, bad: Error)
    requires Replays(provider, next, [Failed(bad), Failed(slow)])
    ensures provider(next) == Failed(bad) && provider(next + 1) == Failed(slow)
  {
    var pair := [Failed(bad), Failed(slow)];
    assert provider(next + 0) == pair[0] && provider(next + 1) == pair[1];
  }

  lemma {:induction false} WorstRepliesCount(items: Batch, slow: Error, bad: Error)
    requires items != []
    ensures |WorstReplies(items, slow, bad)| == 4 * |items| - 2
    decreases |items|
  {
    if |items| > 1 {
      var midpoint := Midpoint(items);
      WorstRepliesCount(items[..midpoint], slow, bad);
      WorstRepliesCount(items[midpoint..], slow, bad);
    }
  }

  /** The bound is attained, for every list of items with text to translate. */
  lemma {:induction false} WorstCaseIsReached(items: Batch, provider: nat -> Reply, timesOut: Error -> bool, next: nat,
                                              slow: Error, bad: Error)
    requires items != [] && timesOut(slow) && !timesOut(bad)
    requires forall it | it in items :: !Blank(it.text)
    requires Replays(provider, next, WorstReplies(items, slow, bad))
    ensures var o := Translate(items, provider, timesOut, next, 0);
            o.result.Ok? && o.next == next + 4 * |items| - 2
    decreases |items|
  {
    hide Translate, Blank;
    if |items| == 1 {
      var replies := WorstReplies(items, slow, bad);
      assert provider(next + 0) == replies[0] && provider(next + 1) == replies[1];
      WorstSingle(items, provider, timesOut, next, bad);
    } else {
      hide Replays;
      var midpoint := Midpoint(items);
      var a, b := items[..midpoint], items[midpoint..];
      var ra, rb := WorstReplies(a, slow, bad), WorstReplies(b, slow, bad);
      ReplaysParts(provider, next, [Failed(bad), Failed(slow)], ra, rb);
      hide WorstReplies;
      WorstPair(provider, next, slow, bad);
      WorstRepliesCount(a, slow, bad);
      WorstCaseIsReached(a, provider, timesOut, next + 2, slow, bad);
      WorstCaseIsReached(b, provider, timesOut, next + 2 + |ra|, slow, bad);
      TwoFailuresSplit(items, provider, timesOut, next, slow, bad);
    }
  }

  /** So the bound on prompts cannot be improved. */
  lemma BoundIsTight(items: Batch, timesOut: Error -> bool, slow: Error, bad: Error) returns (provider: nat -> Reply)
    requires items != [] && timesOut(slow) && !timesOut(bad)
    requires forall it | it in items :: !Blank(it.text)
    ensures Translate(items, provider, timesOut, 0, 0).result.Ok?
    ensures Translate(items, provider, timesOut, 0, 0).next == 4 * |items| - 2
  {
    hide Translate, Blank, WorstReplies;
    var replies := WorstReplies(items, slow, bad);
    provider := (k: nat) => if k < |replies| then replies[k] else Failed(bad);
    WorstCaseIsReached(items, provider, timesOut, 0, slow, bad);
  }

  lemma SingleItemParses(items: Batch)
    requires |items| == 1 && !Blank(items[0].text)
    ensures ParseReply(items, map[items[0].key := items[0].text]).Ok?
  {
    hide PlaceholderNames, Blank;
    var m := map[items[0].key := items[0].text];
    assert SourceTexts(items) == m by { assert SourceTexts(items[..0]) == map[]; }
    assert Translates(items, m) && Within(m, m);
    ParseReplyDecides(items, m);
  }
}
