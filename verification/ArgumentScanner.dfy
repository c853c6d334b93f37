/** The quote-aware scanners that cut a call into its arguments (`check-temp-path-guardrails.ts`). */
module ArgumentScanner {
  import opened Quotes
  import opened Text
  import opened Wrappers

  // ------------------------------------------------------------------ what scanning a text means

  /** The quote a scanner is in, and whether the next character is escaped. */
  datatype Quoting = Quoting(quote: Option<char>, escaped: bool)

  /**
   * Where a scan stands: `balance` is the closes subtracted from the opens of unquoted parentheses, the depths are
   * those of the three kinds of bracket, where a close at depth 0 is ignored.
   */
  datatype Scan = Scan(quoting: Quoting, balance: int, paren: nat, bracket: nat, brace: nat)

  const UNQUOTED := Quoting(None, false)
  const START := Scan(UNQUOTED, 0, 0, 0, 0)

  predicate IsQuote(c: char) { c == '\'' || c == '"' || c == '`' }

  function Begin(q: Quoting, c: char): Quoting {
    if IsQuote(c) then q.(quote := Some(c)) else q
  }

  function Consume(q: Quoting, c: char): Quoting {
    if q.quote.None? then q
    else if q.escaped then q.(escaped := false)
    else if c == '\\' then q.(escaped := true)
    else if q.quote == Some(c) then q.(quote := None)
    else q
  }

  function Down(depth: nat): nat { if depth > 0 then depth - 1 else 0 }

  function Step(scan: Scan, c: char): Scan {
    if scan.quoting.quote.Some? then scan.(quoting := Consume(scan.quoting, c))
    else if IsQuote(c) then scan.(quoting := Begin(scan.quoting, c))
    else
      match c
      case '(' => scan.(balance := scan.balance + 1, paren := scan.paren + 1)
      case ')' => scan.(balance := scan.balance - 1, paren := Down(scan.paren))
      case '[' => scan.(bracket := scan.bracket + 1)
      case ']' => scan.(bracket := Down(scan.bracket))
      case '{' => scan.(brace := scan.brace + 1)
      case '}' => scan.(brace := Down(scan.brace))
      case _ => scan
  }

  function After(start: Scan, text: string): Scan {
    if text == "" then start else Step(After(start, text[..|text| - 1]), text[|text| - 1])
  }

  lemma {:induction false} AfterAppend(start: Scan, a: string, b: string)
    ensures After(start, a + b) == After(After(start, a), b)
  {
    if b == "" {
      assert a + b == a;
    } else {
      assert (a + b)[..|a + b| - 1] == a + b[..|b| - 1];
      AfterAppend(start, a, b[..|b| - 1]);
    }
  }

  lemma OneMoreChar(text: string, i: nat)
    requires i < |text|
    ensures After(START, text[..i + 1]) == Step(After(START, text[..i]), text[i])
  {
    assert text[..i + 1][..i] == text[..i];
  }

  /** The parenthesis balance before each of the first `k` characters of `text`, and after them, is not negative. */
  ghost predicate StaysOpen(text: string, k: nat)
    requires k <= |text|
  {
    forall j :: 0 <= j <= k ==> After(START, text[..j]).balance >= 0
  }

  /** Character `k` is the first at which an already open parenthesis is closed. */
  ghost predicate ClosesAt(text: string, k: nat) {
    k < |text| && StaysOpen(text, k) && After(START, text[..k + 1]).balance == -1
  }

  lemma ClosesOnce(text: string, k: nat, l: nat)
    requires ClosesAt(text, k) && ClosesAt(text, l)
    ensures k == l
  {
  }

  lemma NeverCloses(text: string, k: nat)
    ensures !(StaysOpen(text, |text|) && ClosesAt(text, k))
  {
    if k < |text| && StaysOpen(text, |text|) {
      assert After(START, text[..k + 1]).balance >= 0;
    }
  }

  /** Such a character is an unquoted `)`. */
  lemma ClosedByParen(text: string, k: nat)
    requires ClosesAt(text, k)
    ensures text[k] == ')' && After(START, text[..k]).quoting.quote.None? && After(START, text[..k]).balance == 0
  {
    OneMoreChar(text, k);
  }

  // ------------------------------------------------------------------ the state the scanners share

  class QuoteScanState {
    var quote: Option<char>
    var escaped: bool

    constructor ()
      ensures State() == UNQUOTED
    {
      quote, escaped := None, false;
    }

    function State(): Quoting
      reads this
    {
      Quoting(quote, escaped)
    }

    method BeginQuotedSection(c: char) returns (began: bool)
      modifies this
      ensures State() == Begin(old(State()), c)
      ensures began <==> IsQuote(c)
    {
      if c != '\'' && c != '"' && c != '`' {
        return false;
      }
      quote := Some(c);
      return true;
    }

    method ConsumeQuotedChar(c: char) returns (consumed: bool)
      modifies this
      ensures State() == Consume(old(State()), c)
      ensures consumed <==> old(quote).Some?
    {
      if quote.None? {
        return false;
      }
      if escaped {
        escaped := false;
        return true;
      }
      if c == '\\' {
        escaped := true;
        return true;
      }
      if Some(c) == quote {
        quote := None;
      }
      return true;
    }
  }

  function Rest(source: string, from: nat): string {
    if from <= |source| then source[from..] else ""
  }

  /** The first unquoted `)` at which the depth reaches zero, or -1 when the depth never does. */
  method FindMatchingParen(source: string, openIndex: nat) returns (close: int)
    ensures close == -1 || (openIndex < close < |source| && ClosesAt(source[openIndex + 1..], close - openIndex - 1))
    ensures close == -1 <==> StaysOpen(Rest(source, openIndex + 1), |Rest(source, openIndex + 1)|)
  {
    ghost var text := Rest(source, openIndex + 1);
    assert text[..0] == "" && After(START, "") == START && StaysOpen(text, 0);
    hide After;
    var depth := 1;
    var quoteState := new QuoteScanState();
    var i := openIndex + 1;
    while i < |source|
      invariant openIndex < i && (i <= |source| || text == "")
      invariant i <= |source| ==> var now := After(START, text[..i - openIndex - 1]);
                                  quoteState.State() == now.quoting && depth == now.balance + 1
      invariant i <= |source| ==> StaysOpen(text, i - openIndex - 1)
      decreases |source| - i
    {
      var c := source[i];
      ghost var k := i - openIndex - 1;
      assert text[k] == c;
      OneMoreChar(text, k);
      i := i + 1;
      var consumed := quoteState.ConsumeQuotedChar(c);
      if consumed {
        continue;
      }
      var began := quoteState.BeginQuotedSection(c);
      if began {
        continue;
      }
      if c == '(' {
        depth := depth + 1;
        continue;
      }
      if c == ')' {
        depth := depth - 1;
        if depth == 0 {
          assert ClosesAt(text, k);
          return i - 1;
        }
      }
    }
    return -1;
  }

  // ------------------------------------------------------------------ splitting at top-level commas

  predicate AtTop(scan: Scan) {
    scan.quoting.quote.None? && scan.paren == 0 && scan.bracket == 0 && scan.brace == 0
  }

  predicate TopLevelComma(text: string, i: nat) {
    i < |text| && text[i] == ',' && AtTop(After(START, text[..i]))
  }

  /** The text cut at its top-level commas. */
  function Raw(text: string): (pieces: seq<string>)
    ensures pieces != []
  {
    if text == "" then [""]
    else
      var n := |text| - 1;
      if TopLevelComma(text, n) then Raw(text[..n]) + [""] else Extend(Raw(text[..n]), [text[n]])
  }

  /** `more` added to the last piece. */
  function Extend(pieces: seq<string>, more: string): (r: seq<string>)
    requires pieces != []
    ensures |r| == |pieces|
  {
    pieces[..|pieces| - 1] + [pieces[|pieces| - 1] + more]
  }

  function JoinCommas(pieces: seq<string>): string
    requires pieces != []
  {
    var n := |pieces| - 1;
    if n == 0 then pieces[0] else JoinCommas(pieces[..n]) + "," + pieces[n]
  }

  /** Every argument trimmed; a blank last one does not count. */
  function Arguments(pieces: seq<string>): seq<string>
    requires pieces != []
  {
    var n := |pieces| - 1;
    TrimAll(pieces[..n]) + if Trim(pieces[n]) == "" then [] else [Trim(pieces[n])]
  }

  function TrimAll(pieces: seq<string>): (r: seq<string>)
    ensures |r| == |pieces| && forall i :: 0 <= i < |r| ==> r[i] == Trim(pieces[i])
  {
    seq(|pieces|, i requires 0 <= i < |pieces| => Trim(pieces[i]))
  }

  /** The finished arguments and the current text of a scan that has read `text`. */
  ghost predicate SplitSoFar(text: string, out: seq<string>, current: string) {
    var raw := Raw(text);
    out == TrimAll(raw[..|raw| - 1]) && current == raw[|raw| - 1]
  }

  lemma SplitOneMore(source: string, i: nat, out: seq<string>, current: string)
    requires i < |source| && SplitSoFar(source[..i], out, current)
    ensures if TopLevelComma(source, i) then SplitSoFar(source[..i + 1], out + [Trim(current)], "")
            else SplitSoFar(source[..i + 1], out, current + [source[i]])
  {
    var text, raw := source[..i + 1], Raw(source[..i]);
    assert text[..i] == source[..i];
    assert TopLevelComma(text, i) <==> TopLevelComma(source, i);
    hide Trim, After;
    if TopLevelComma(source, i) {
      assert (raw + [""])[..|raw|] == raw && raw == raw[..|raw| - 1] + [current];
      assert TrimAll(raw) == out + [Trim(current)];
    } else {
      assert Extend(raw, [source[i]])[..|raw| - 1] == raw[..|raw| - 1];
    }
  }

  lemma SplitDone(source: string, out: seq<string>, current: string)
    requires SplitSoFar(source, out, current)
    ensures Arguments(Raw(source)) == if Trim(current) != "" then out + [Trim(current)] else out
  {
  }

  method SplitTopLevelArguments(source: string) returns (out: seq<string>)
    ensures out == Arguments(Raw(source))
  {
    assert SplitSoFar(source[..0], [], "");
    hide Raw, Arguments, SplitSoFar, Trim, TrimAll, After;
    out := [];
    var current := "";
    var parenDepth, bracketDepth, braceDepth := 0, 0, 0;
    var quoteState := new QuoteScanState();
    for i := 0 to |source|
      invariant SplitSoFar(source[..i], out, current)
      invariant var now := After(START, source[..i]);
                && quoteState.State() == now.quoting
                && parenDepth == now.paren && bracketDepth == now.bracket && braceDepth == now.brace
    {
      var c := source[i];
      OneMoreChar(source, i);
      SplitOneMore(source, i, out, current);
      if quoteState.quote.Some? {
        current := current + [c];
        var _ := quoteState.ConsumeQuotedChar(c);
        continue;
      }
      var began := quoteState.BeginQuotedSection(c);
      if began {
        current := current + [c];
        continue;
      }
      if c == '(' {
        parenDepth := parenDepth + 1;
        current := current + [c];
        continue;
      }
      if c == ')' {
        if parenDepth > 0 {
          parenDepth := parenDepth - 1;
        }
        current := current + [c];
        continue;
      }
      if c == '[' {
        bracketDepth := bracketDepth + 1;
        current := current + [c];
        continue;
      }
      if c == ']' {
        if bracketDepth > 0 {
          bracketDepth := bracketDepth - 1;
        }
        current := current + [c];
        continue;
      }
      if c == '{' {
        braceDepth := braceDepth + 1;
        current := current + [c];
        continue;
      }
      if c == '}' {
        if braceDepth > 0 {
          braceDepth := braceDepth - 1;
        }
        current := current + [c];
        continue;
      }
      if c == ',' && parenDepth == 0 && bracketDepth == 0 && braceDepth == 0 {
        out := out + [Trim(current)];
        current := "";
        continue;
      }
      current := current + [c];
    }
    assert source[..|source|] == source;
    SplitDone(source, out, current);
    if Trim(current) != "" {
      out := out + [Trim(current)];
    }
  }

  // ------------------------------------------------------------------ what splitting means

  /** A cut of `pieces` lies at index `i` of the joined text. */
  ghost predicate CutAt(pieces: seq<string>, i: int) {
    exists j :: 0 < j < |pieces| && |JoinCommas(pieces[..j])| == i
  }

  lemma JoinOneMore(pieces: seq<string>, piece: string)
    requires pieces != []
    ensures JoinCommas(pieces + [piece]) == JoinCommas(pieces) + "," + piece
  {
    assert (pieces + [piece])[..|pieces|] == pieces;
  }

  lemma CutsOneMore(pieces: seq<string>, piece: string, i: int)
    requires pieces != []
    ensures CutAt(pieces + [piece], i) <==> CutAt(pieces, i) || i == |JoinCommas(pieces)|
  {
    var more := pieces + [piece];
    assert more[..|pieces|] == pieces;
    assert forall j :: 0 < j < |pieces| ==> more[..j] == pieces[..j];
  }

  lemma Extended(pieces: seq<string>, more: string, i: int)
    requires pieces != []
    ensures JoinCommas(Extend(pieces, more)) == JoinCommas(pieces) + more
    ensures CutAt(Extend(pieces, more), i) <==> CutAt(pieces, i)
  {
    var n, r := |pieces| - 1, Extend(pieces, more);
    assert r[..n] == pieces[..n];
    if n > 0 {
      assert JoinCommas(pieces[..n]) + "," + (pieces[n] + more) == JoinCommas(pieces[..n]) + "," + pieces[n] + more;
    }
    assert forall j :: 0 < j <= n ==> r[..j] == pieces[..j];
  }

  lemma SameCommas(text: string, n: nat, i: int)
    requires 0 <= i < n <= |text|
    ensures TopLevelComma(text[..n], i) <==> TopLevelComma(text, i)
  {
    assert text[..n][..i] == text[..i];
  }

  lemma {:induction false} RawCuts(text: string, i: nat)
    ensures JoinCommas(Raw(text)) == text
    ensures TopLevelComma(text, i) <==> CutAt(Raw(text), i)
  {
    if text != "" {
      var n := |text| - 1;
      var raw := Raw(text[..n]);
      RawCuts(text[..n], i);
      if i < n { SameCommas(text, n, i); }
      assert text == text[..n] + [text[n]];
      hide TopLevelComma, CutAt;
      if TopLevelComma(text, n) {
        assert text[n] == ',' by { CommaHere(text, n); }
        JoinOneMore(raw, "");
        CutsOneMore(raw, "", i);
        NoCommaPastEnd(text[..n], i);
        NoCommaPastEnd(text, i);
      } else {
        Extended(raw, [text[n]], i);
        NoCommaPastEnd(text[..n], i);
        NoCommaPastEnd(text, i);
      }
    }
  }

  lemma CommaHere(text: string, i: nat)
    requires TopLevelComma(text, i)
    ensures text[i] == ','
  {
  }

  lemma NoCommaPastEnd(text: string, i: nat)
    ensures i >= |text| ==> !TopLevelComma(text, i)
  {
  }

  // ------------------------------------------------------------------ scanning in whole steps

  /** Up to the quote that ends it, a quoted text leaves a scan where it was, in the quote or behind an escape. */
  lemma {:induction false} WithinQuotes(text: string, open: nat, i: nat)
    requires open < i <= |text| && IsQuote(text[open]) && After(START, text[..open]).quoting == UNQUOTED
    requires forall k: nat :: open < k < i ==> !EndsQuote(text, open, k)
    ensures After(START, text[..i]) == After(START, text[..open]).(
              quoting := Quoting(Some(text[open]), Backslashes(text, open + 1, i) % 2 == 1))
  {
    OneMoreChar(text, i - 1);
    assert i - 1 > open ==> !EndsQuote(text, open, i - 1);
    hide After;
    if i - 1 > open { WithinQuotes(text, open, i - 1); }
  }

  /** And behind it where it was, unquoted. */
  lemma BehindQuotes(text: string, open: nat, end: nat)
    requires IsQuoted(text, open, end)
    ensures After(START, text[..end + 1]) == After(START, text[..open])
  {
    WithinQuotes(text, open, end);
    OneMoreChar(text, end);
    hide After;
  }

  ghost predicate IsQuoted(text: string, open: nat, end: nat) {
    && open < |text| && IsQuote(text[open]) && After(START, text[..open]).quoting == UNQUOTED
    && EndsQuote(text, open, end) && forall k: nat :: open < k < end ==> !EndsQuote(text, open, k)
  }

  /** The parenthesis that closes `depth` open ones, where quoted texts are skipped as a whole. */
  ghost function ParenBehind(text: string, i: nat, depth: nat): Option<nat>
    requires i <= |text| && depth > 0
    decreases |text| - i
  {
    if i == |text| then None
    else if text[i] == '\'' || text[i] == '"' || text[i] == '`' then
      var end := QuoteEnd(text, i, i + 1);
      if end.None? then None else ParenBehind(text, end.value + 1, depth)
    else if text[i] == '(' then ParenBehind(text, i + 1, depth + 1)
    else if text[i] != ')' then ParenBehind(text, i + 1, depth)
    else if depth == 1 then Some(i)
    else ParenBehind(text, i + 1, depth - 1)
  }

  lemma StaysOpenOneMore(text: string, k: nat)
    requires k < |text| && StaysOpen(text, k) && After(START, text[..k + 1]).balance >= 0
    ensures StaysOpen(text, k + 1)
  {
  }

  lemma StaysOpenWithinQuotes(text: string, open: nat, end: nat)
    requires open < end <= |text| && StaysOpen(text, open)
    requires IsQuote(text[open]) && After(START, text[..open]).quoting == UNQUOTED
    requires forall k: nat :: open < k < end ==> !EndsQuote(text, open, k)
    ensures StaysOpen(text, end)
  {
    forall j | 0 <= j <= end ensures After(START, text[..j]).balance >= 0 {
      if j > open { WithinQuotes(text, open, j); }
    }
  }

  lemma QuotedBehind(text: string, i: nat, depth: nat)
    requires i < |text| && depth > 0 && IsQuote(text[i])
    ensures var end := QuoteEnd(text, i, i + 1);
            ParenBehind(text, i, depth) == if end.None? then None else ParenBehind(text, end.value + 1, depth)
  {
  }

  /** What one unquoted character does to the balance. */
  function Balanced(depth: nat, c: char): int { if c == '(' then depth + 1 else if c == ')' then depth - 1 else depth }

  lemma PlainBehind(text: string, i: nat, depth: nat, scan: Scan)
    requires i < |text| && depth > 0 && !IsQuote(text[i]) && scan.quoting == UNQUOTED && scan.balance == depth - 1
    ensures var next := Step(scan, text[i]);
            && next.quoting == UNQUOTED && next.balance == Balanced(depth, text[i]) - 1
            && ParenBehind(text, i, depth) ==
               if Balanced(depth, text[i]) == 0 then Some(i) else ParenBehind(text, i + 1, Balanced(depth, text[i]))
  {
  }

  lemma {:induction false} ClosesBehind(text: string, i: nat, depth: nat)
    requires i <= |text| && depth > 0 && StaysOpen(text, i)
    requires After(START, text[..i]).quoting == UNQUOTED && After(START, text[..i]).balance == depth - 1
    ensures var close := ParenBehind(text, i, depth);
            if close.Some? then ClosesAt(text, close.value) else StaysOpen(text, |text|)
    decreases |text| - i
  {
    hide After, StaysOpen, ClosesAt, Step, EndsQuote;
    if i < |text| {
      if IsQuote(text[i]) {
        QuotedBehind(text, i, depth);
        hide ParenBehind;
        var end := QuoteEnd(text, i, i + 1);
        StaysOpenWithinQuotes(text, i, if end.Some? then end.value else |text|);
        if end.Some? {
          BehindQuotes(text, i, end.value);
          StaysOpenOneMore(text, end.value);
          ClosesBehind(text, end.value + 1, depth);
        }
      } else {
        OneMoreChar(text, i);
        PlainBehind(text, i, depth, After(START, text[..i]));
        hide ParenBehind;
        if Balanced(depth, text[i]) == 0 {
          ClosesHere(text, i);
        } else {
          StaysOpenOneMore(text, i);
          ClosesBehind(text, i + 1, Balanced(depth, text[i]));
        }
      }
    }
  }

  lemma ClosesHere(text: string, k: nat)
    requires k < |text| && StaysOpen(text, k) && After(START, text[..k + 1]).balance == -1
    ensures ClosesAt(text, k)
  {
  }

  /** The close that the finder looks for is the one found in whole steps. */
  lemma ClosesAtIsBehind(text: string)
    ensures forall k: nat :: ClosesAt(text, k) <==> ParenBehind(text, 0, 1) == Some(k)
    ensures StaysOpen(text, |text|) <==> ParenBehind(text, 0, 1) == None
  {
    assert text[..0] == "" && StaysOpen(text, 0);
    ClosesBehind(text, 0, 1);
    var close := ParenBehind(text, 0, 1);
    forall k: nat | ClosesAt(text, k) ensures close == Some(k) {
      NeverCloses(text, k);
      if close.Some? { ClosesOnce(text, k, close.value); }
    }
    if close.Some? { NeverCloses(text, close.value); }
  }

  /** The commas outside all brackets, where quoted texts are skipped and a close at depth 0 is ignored. */
  ghost function TopCommas(text: string, i: nat, paren: nat, bracket: nat, brace: nat): set<nat>
    requires i <= |text|
    decreases |text| - i
  {
    if i == |text| then {}
    else
      match text[i]
      case '\'' => BehindQuoted(text, i, paren, bracket, brace)
      case '"' => BehindQuoted(text, i, paren, bracket, brace)
      case '`' => BehindQuoted(text, i, paren, bracket, brace)
      case '(' => TopCommas(text, i + 1, paren + 1, bracket, brace)
      case ')' => TopCommas(text, i + 1, if paren > 0 then paren - 1 else 0, bracket, brace)
      case '[' => TopCommas(text, i + 1, paren, bracket + 1, brace)
      case ']' => TopCommas(text, i + 1, paren, if bracket > 0 then bracket - 1 else 0, brace)
      case '{' => TopCommas(text, i + 1, paren, bracket, brace + 1)
      case '}' => TopCommas(text, i + 1, paren, bracket, if brace > 0 then brace - 1 else 0)
      case ',' =>
        TopCommas(text, i + 1, paren, bracket, brace) + if paren == bracket == brace == 0 then {i} else {}
      case _ => TopCommas(text, i + 1, paren, bracket, brace)
  }

  ghost function BehindQuoted(text: string, open: nat, paren: nat, bracket: nat, brace: nat): set<nat>
    requires open < |text|
    decreases |text| - open, 0
  {
    var end := QuoteEnd(text, open, open + 1);
    if end.None? then {} else TopCommas(text, end.value + 1, paren, bracket, brace)
  }

  lemma {:induction false} NoCommaWithinQuotes(text: string, open: nat, end: nat, j: nat)
    requires open <= j < end <= |text| && IsQuote(text[open]) && After(START, text[..open]).quoting == UNQUOTED
    requires forall k: nat :: open < k < end ==> !EndsQuote(text, open, k)
    ensures !TopLevelComma(text, j)
  {
    if j > open { WithinQuotes(text, open, j); }
  }

  lemma QuotedCommas(text: string, i: nat, paren: nat, bracket: nat, brace: nat)
    requires i < |text| && IsQuote(text[i])
    ensures var end := QuoteEnd(text, i, i + 1);
            TopCommas(text, i, paren, bracket, brace) ==
            if end.None? then {} else TopCommas(text, end.value + 1, paren, bracket, brace)
  {
    assert TopCommas(text, i, paren, bracket, brace) == BehindQuoted(text, i, paren, bracket, brace);
  }

  lemma PlainCommas(text: string, i: nat, scan: Scan)
    requires i < |text| && !IsQuote(text[i]) && scan.quoting == UNQUOTED
    ensures var next := Step(scan, text[i]);
            && next.quoting == UNQUOTED
            && TopCommas(text, i, scan.paren, scan.bracket, scan.brace) ==
               TopCommas(text, i + 1, next.paren, next.bracket, next.brace)
               + if text[i] == ',' && AtTop(scan) then {i} else {}
  {
  }

  lemma CommaIs(text: string, i: nat)
    requires i < |text|
    ensures TopLevelComma(text, i) <==> text[i] == ',' && AtTop(After(START, text[..i]))
  {
  }

  /** The positions from `i` on at which the splitter cuts are these. */
  lemma {:induction false} TopLevelIsTop(text: string, i: nat, j: nat)
    requires i <= j && i <= |text| && After(START, text[..i]).quoting == UNQUOTED
    ensures var scan := After(START, text[..i]);
            TopLevelComma(text, j) <==> j in TopCommas(text, i, scan.paren, scan.bracket, scan.brace)
    decreases |text| - i
  {
    hide After, TopCommas, TopLevelComma, AtTop, Step, EndsQuote;
    var scan := After(START, text[..i]);
    if i == |text| {
      NoCommaPastEnd(text, j);
      CommasComeLater(text, i, scan.paren, scan.bracket, scan.brace);
    } else if IsQuote(text[i]) {
      var end := QuoteEnd(text, i, i + 1);
      QuotedCommas(text, i, scan.paren, scan.bracket, scan.brace);
      if end.None? {
        if j < |text| { NoCommaWithinQuotes(text, i, |text|, j); }
        NoCommaPastEnd(text, j);
      } else {
        BehindQuotes(text, i, end.value);
        if j > end.value {
          TopLevelIsTop(text, end.value + 1, j);
        } else {
          if j < end.value { NoCommaWithinQuotes(text, i, end.value, j); }
          EndIsNoComma(text, i, end.value);
          CommasComeLater(text, end.value + 1, scan.paren, scan.bracket, scan.brace);
        }
      }
    } else {
      OneMoreChar(text, i);
      PlainCommas(text, i, scan);
      var next := Step(scan, text[i]);
      if j > i {
        TopLevelIsTop(text, i + 1, j);
      } else {
        CommaIs(text, i);
        CommasComeLater(text, i + 1, next.paren, next.bracket, next.brace);
      }
    }
  }

  lemma EndIsNoComma(text: string, open: nat, end: nat)
    requires EndsQuote(text, open, end) && IsQuote(text[open])
    ensures !TopLevelComma(text, end)
  {
  }

  lemma {:induction false} CommasComeLater(text: string, i: nat, paren: nat, bracket: nat, brace: nat)
    requires i <= |text|
    ensures forall j | j in TopCommas(text, i, paren, bracket, brace) :: i <= j < |text|
    decreases |text| - i
  {
    if i < |text| {
      if IsQuote(text[i]) {
        var end := QuoteEnd(text, i, i + 1);
        QuotedCommas(text, i, paren, bracket, brace);
        if end.Some? { CommasComeLater(text, end.value + 1, paren, bracket, brace); }
      } else {
        var next := Step(Scan(UNQUOTED, 0, paren, bracket, brace), text[i]);
        CommasComeLater(text, i + 1, next.paren, next.bracket, next.brace);
      }
    }
  }

  /** The pieces are the whole text, cut at its top-level commas and nowhere else. */
  lemma RawCutsAtTopLevelCommas(text: string, i: nat)
    ensures JoinCommas(Raw(text)) == text
    ensures i in TopCommas(text, 0, 0, 0, 0) <==> CutAt(Raw(text), i)
  {
    RawCuts(text, i);
    assert text[..0] == "";
    TopLevelIsTop(text, 0, i);
  }

  /** Every piece is trimmed, and the last one does not count if it is blank. */
  lemma ArgumentsAre(pieces: seq<string>)
    requires pieces != []
    ensures |Arguments(pieces)| == if Blank(pieces[|pieces| - 1]) then |pieces| - 1 else |pieces|
    ensures forall i :: 0 <= i < |Arguments(pieces)| ==> Arguments(pieces)[i] == Trim(pieces[i])
  {
    BlankIffTrimmedAway(pieces[|pieces| - 1]);
    hide Trim, Blank;
  }

  // ------------------------------------------------------------------ the two scanners agree

  lemma {:induction false} ParensFollowBalance(text: string)
    requires StaysOpen(text, |text|)
    ensures After(START, text).paren == After(START, text).balance
  {
    if text != "" {
      var n := |text| - 1;
      assert forall j :: 0 <= j <= n ==> text[..n][..j] == text[..j];
      ParensFollowBalance(text[..n]);
      assert text[..|text|] == text;
    }
  }

  /**
   * On the text up to the close that the finder returns, the splitter's parenthesis depth is one lower than the
   * finder's (`balance + 1`) everywhere, no close meets the zero clamp, and the end is at depth zero, unquoted.
   */
  lemma ScannersAgree(text: string, close: nat)
    requires ClosesAt(text, close)
    ensures forall j :: 0 <= j <= close ==> After(START, text[..j]).paren == After(START, text[..j]).balance
    ensures forall j :: 0 <= j < close && text[j] == ')' && After(START, text[..j]).quoting.quote.None? ==>
              After(START, text[..j]).paren > 0
    ensures After(START, text[..close]).paren == 0 && After(START, text[..close]).quoting.quote.None?
  {
    ClosedByParen(text, close);
    forall j | 0 <= j <= close
      ensures After(START, text[..j]).paren == After(START, text[..j]).balance
    {
      assert forall l :: 0 <= l <= j ==> text[..j][..l] == text[..l];
      ParensFollowBalance(text[..j]);
    }
    forall j | 0 <= j < close && text[j] == ')' && After(START, text[..j]).quoting.quote.None?
      ensures After(START, text[..j]).paren > 0
    {
      OneMoreChar(text, j);
      assert After(START, text[..j + 1]).balance >= 0;
    }
  }

  // ------------------------------------------------------------------ a written call is taken apart again

  /** Text that can be written as one argument: brackets and quotes closed, no comma between arguments. */
  ghost predicate IsArgument(text: string) {
    && After(START, text) == START && StaysOpen(text, |text|)
    && forall i: nat :: !TopLevelComma(text, i)
  }

  lemma ExtendTwice(pieces: seq<string>, a: string, b: string)
    requires pieces != []
    ensures Extend(Extend(pieces, a), b) == Extend(pieces, a + b) && Extend(pieces, "") == pieces
  {
    var n := |pieces| - 1;
    assert pieces[n] + a + b == pieces[n] + (a + b) && pieces[n] + "" == pieces[n];
  }

  lemma CommaAfter(before: string, text: string, i: nat)
    requires i < |text| && After(START, before) == START
    ensures TopLevelComma(before + text, |before| + i) <==> TopLevelComma(text, i)
  {
    assert (before + text)[..|before| + i] == before + text[..i];
    AfterAppend(START, before, text[..i]);
  }

  lemma RawStep(text: string, c: char)
    requires !TopLevelComma(text + [c], |text|)
    ensures Raw(text + [c]) == Extend(Raw(text), [c])
  {
    assert (text + [c])[..|text|] == text;
  }

  lemma NoCommasBefore(text: string, n: nat)
    requires n <= |text| && forall i: nat :: !TopLevelComma(text, i)
    ensures forall i: nat :: !TopLevelComma(text[..n], i)
  {
    forall i: nat ensures !TopLevelComma(text[..n], i) {
      if i < n { SameCommas(text, n, i); }
    }
  }

  lemma {:induction false} RawOfArgument(before: string, text: string)
    requires After(START, before) == START && forall i: nat :: !TopLevelComma(text, i)
    ensures Raw(before + text) == Extend(Raw(before), text)
  {
    hide *;
    if text == "" {
      ExtendTwice(Raw(before), "", "");
      assert before + text == before;
    } else {
      var n := |text| - 1;
      NoCommasBefore(text, n);
      RawOfArgument(before, text[..n]);
      CommaAfter(before, text, n);
      assert text == text[..n] + [text[n]] && before + text == before + text[..n] + [text[n]];
      RawStep(before + text[..n], text[n]);
      ExtendTwice(Raw(before), text[..n], [text[n]]);
    }
  }

  lemma StaysOpenFurther(before: string, text: string)
    requires StaysOpen(before, |before|) && After(START, before) == START && StaysOpen(text, |text|)
    ensures StaysOpen(before + text, |before + text|)
  {
    forall j | 0 <= j <= |before + text| ensures After(START, (before + text)[..j]).balance >= 0 {
      if j <= |before| {
        assert (before + text)[..j] == before[..j];
      } else {
        assert (before + text)[..j] == before + text[..j - |before|];
        AfterAppend(START, before, text[..j - |before|]);
      }
    }
  }

  lemma CommaAdded(text: string)
    requires After(START, text) == START && StaysOpen(text, |text|)
    ensures After(START, text + ",") == START && StaysOpen(text + ",", |text + ","|)
    ensures Raw(text + ",") == Raw(text) + [""]
  {
    assert (text + ",")[..|text|] == text;
    assert StaysOpen(",", 1) by { assert ","[..1] == "," && ","[..0] == "" && After(START, ",") == START; }
    StaysOpenFurther(text, ",");
  }

  lemma OneArgument(text: string)
    requires IsArgument(text)
    ensures After(START, text) == START && StaysOpen(text, |text|) && Raw(text) == [text]
  {
    RawOfArgument("", text);
    assert "" + text == text;
  }

  lemma AnotherArgument(text: string, argument: string)
    requires After(START, text) == START && StaysOpen(text, |text|) && IsArgument(argument)
    ensures var all := text + "," + argument;
            After(START, all) == START && StaysOpen(all, |all|) && Raw(all) == Raw(text) + [argument]
  {
    CommaAdded(text);
    StaysOpenFurther(text + ",", argument);
    AfterAppend(START, text + ",", argument);
    RawOfArgument(text + ",", argument);
    var raw := Raw(text);
    hide *;
    ExtendBlank(raw, argument);
  }

  lemma ExtendBlank(pieces: seq<string>, piece: string)
    ensures Extend(pieces + [""], piece) == pieces + [piece]
  {
    assert "" + piece == piece;
  }

  lemma {:induction false} JoinedArguments(args: seq<string>)
    requires args != [] && forall a | a in args :: IsArgument(a)
    ensures var text := JoinCommas(args);
            After(START, text) == START && StaysOpen(text, |text|) && Raw(text) == args
  {
    hide After, StaysOpen, Raw, IsArgument;
    var n := |args| - 1;
    assert IsArgument(args[n]);
    if n == 0 {
      OneArgument(args[0]);
      assert args == [args[0]];
    } else {
      JoinedArguments(args[..n]);
      var init := JoinCommas(args[..n]);
      assert JoinCommas(args) == init + "," + args[n];
      hide JoinCommas;
      AnotherArgument(init, args[n]);
      assert args == args[..n] + [args[n]];
    }
  }

  ghost predicate IsCall(source: string, open: nat, args: seq<string>) {
    && args != [] && (forall a | a in args :: IsArgument(a))
    && exists before, after :: |before| == open && source == before + "(" + JoinCommas(args) + ")" + after
  }

  lemma ClosesAfter(text: string, rest: string)
    requires After(START, text) == START && StaysOpen(text, |text|)
    requires text < rest && rest[|text|] == ')'
    ensures ClosesAt(rest, |text|)
  {
    forall j | 0 <= j <= |text| ensures After(START, rest[..j]).balance >= 0 {
      assert rest[..j] == text[..j];
    }
    assert rest[..|text|] == text;
    OneMoreChar(rest, |text|);
  }

  lemma AfterOpening(before: string, text: string, after: string)
    ensures (before + "(" + text + ")" + after)[|before| + 1..] == text + ")" + after
    ensures (text + ")" + after)[..|text|] == text
  {
  }

  lemma CallClosesAfterArguments(before: string, args: seq<string>, after: string)
    requires args != [] && forall a | a in args :: IsArgument(a)
    ensures var source, text := before + "(" + JoinCommas(args) + ")" + after, JoinCommas(args);
            ClosesAt(source[|before| + 1..], |text|) && source[|before| + 1..][..|text|] == text
  {
    JoinedArguments(args);
    var text := JoinCommas(args);
    var rest := text + ")" + after;
    hide *;
    AfterOpening(before, text, after);
    ClosesAfter(text, rest);
  }

  lemma CallIs(source: string, open: nat, args: seq<string>)
    requires IsCall(source, open, args)
    ensures open + 1 + |JoinCommas(args)| < |source|
    ensures ClosesAt(source[open + 1..], |JoinCommas(args)|)
    ensures source[open + 1..][..|JoinCommas(args)|] == JoinCommas(args)
    ensures Raw(JoinCommas(args)) == args
  {
    var before, after :| |before| == open && source == before + "(" + JoinCommas(args) + ")" + after;
    CallClosesAfterArguments(before, args, after);
    JoinedArguments(args);
  }

  /** The finder stops at the call's own close, and the splitter finds the arguments it was written with. */
  lemma CallIsTakenApart(source: string, open: nat, args: seq<string>, close: int)
    requires IsCall(source, open, args)
    requires close == -1 || (open < close < |source| && ClosesAt(source[open + 1..], close - open - 1))
    requires close == -1 ==> StaysOpen(Rest(source, open + 1), |Rest(source, open + 1)|)
    ensures close == open + 1 + |JoinCommas(args)| && Raw(source[open + 1..close]) == args
  {
    CallIs(source, open, args);
    var rest, n := source[open + 1..], |JoinCommas(args)|;
    NeverCloses(rest, n);
    assert Rest(source, open + 1) == rest;
    hide ClosesAt, StaysOpen, JoinCommas, Raw, IsCall, Rest;
    if close != -1 {
      ClosesOnce(rest, n, close - open - 1);
      assert source[open + 1..close] == rest[..n];
    }
  }

  /** The call's own close, and the trimmed pieces between the top-level commas in front of it. */
  ghost predicate CutUpTo(source: string, open: nat, close: int, args: seq<string>) {
    && open < close < |source| && ClosesAt(source[open + 1..], close - open - 1)
    && args == Arguments(Raw(source[open + 1..close]))
  }

  /** The arguments of the call whose parenthesis opens at `openIndex`, as `hasDynamicTmpdirJoin` takes them. */
  method ArgumentsOfCall(source: string, openIndex: nat) returns (args: Option<seq<string>>)
    ensures args == None <==> StaysOpen(Rest(source, openIndex + 1), |Rest(source, openIndex + 1)|)
    ensures args.Some? ==> exists close :: CutUpTo(source, openIndex, close, args.value)
    ensures forall written :: IsCall(source, openIndex, written) ==> args == Some(Arguments(written))
  {
    hide Raw, Arguments, StaysOpen, After, JoinCommas, ClosesAt;
    var close := FindMatchingParen(source, openIndex);
    if close == -1 {
      args := None;
    } else {
      var split := SplitTopLevelArguments(source[openIndex + 1..close]);
      args := Some(split);
      assert CutUpTo(source, openIndex, close, split);
    }
    forall written | IsCall(source, openIndex, written) ensures args == Some(Arguments(written)) {
      CallIsTakenApart(source, openIndex, written, close);
    }
  }
}
