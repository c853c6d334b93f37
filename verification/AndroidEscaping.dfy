/** Escaping text for Android string resources and decoding it again. */
module AndroidEscaping {
  import opened Text

  function EscapeResource(s: string): string {
    var s := ReplaceAll(s, "\\", "\\\\");
    var s := ReplaceAll(s, "\n", "\\n");
    var s := ReplaceAll(s, "'", "\\'");
    var s := ReplaceAll(s, "\"", "\\\"");
    var s := ReplaceAll(s, "&", "&amp;");
    var s := ReplaceAll(s, "<", "&lt;");
    ReplaceAll(s, ">", "&gt;")
  }

  function DecodeXml(s: string): string {
    var s := ReplaceAll(s, "&lt;", "<");
    var s := ReplaceAll(s, "&gt;", ">");
    var s := ReplaceAll(s, "&quot;", "\"");
    var s := ReplaceAll(s, "&amp;", "&");
    var s := ReplaceAll(s, "\\n", "\n");
    var s := ReplaceAll(s, "\\'", "'");
    var s := ReplaceAll(s, "\\\"", "\"");
    ReplaceAll(s, "\\\\", "\\")
  }

  function DecodeAndroidResourceValue(raw: string): string {
    var trimmed := Trim(raw);
    var quoted := StartsWith(trimmed, "\"") && EndsWith(trimmed, "\"");
    DecodeXml(if !quoted then trimmed else if |trimmed| == 1 then "" else trimmed[1..|trimmed| - 1])
  }

  function Quoted(s: string): string { "\"" + s + "\"" }

  // ------------------------------------------------------------------ character by character

  /**
   * How one character of the original stands in the text after `stage` of the eight replacements of
   * `DecodeXml`; stage 0 is the escaped text and stage 8 the original.
   */
  function Code(stage: nat, c: char): string {
    match c
    case '<' => if stage < 1 then "&lt;" else "<"
    case '>' => if stage < 2 then "&gt;" else ">"
    case '&' => if stage < 4 then "&amp;" else "&"
    case '\n' => if stage < 5 then "\\n" else "\n"
    case '\'' => if stage < 6 then "\\'" else "'"
    case '"' => if stage < 7 then "\\\"" else "\""
    case '\\' => if stage < 8 then "\\\\" else "\\"
    case _ => [c]
  }

  /**
   * The text after `stage` replacements.  The one for line breaks also finds the letter n behind an escaped
   * backslash, and takes the second half of the backslash's code with it.
   */
  function Encode(stage: nat, s: string): string {
    if s == "" then ""
    else if stage > 4 && BackslashN(s, 0) then "\\" + ("\n" + Encode(stage, s[2..]))
    else Code(stage, s[0]) + Encode(stage, s[1..])
  }

  function Pattern(stage: nat): (p: string)
    ensures p != ""
  {
    if stage == 0 then "&lt;" else if stage == 1 then "&gt;"
    else if stage == 2 then "&quot;" else if stage == 3 then "&amp;"
    else if stage == 4 then "\\n" else if stage == 5 then "\\'" else if stage == 6 then "\\\"" else "\\\\"
  }

  function Plain(stage: nat): string {
    if stage == 0 then "<" else if stage == 1 then ">" else if stage == 2 then "\"" else if stage == 3 then "&"
    else if stage == 4 then "\n" else if stage == 5 then "'" else if stage == 6 then "\"" else "\\"
  }

  predicate BackslashN(s: string, i: nat) { i + 1 < |s| && s[i] == '\\' && s[i + 1] == 'n' }

  /** No backslash stands directly in front of the letter n. */
  ghost predicate NoBackslashN(s: string) { forall i: nat :: !BackslashN(s, i) }

  /** The text with every n directly behind a backslash replaced by a line break. */
  function Broken(s: string): (r: string)
    ensures |r| == |s|
    ensures forall i :: 0 <= i < |s| ==> r[i] == if i > 0 && BackslashN(s, i - 1) then '\n' else s[i]
  {
    seq(|s|, i requires 0 <= i < |s| => if i > 0 && BackslashN(s, i - 1) then '\n' else s[i])
  }

  lemma BrokenIffBackslashN(s: string)
    ensures Broken(s) == s <==> NoBackslashN(s)
  {
    forall i: nat | BackslashN(s, i) ensures Broken(s) != s {
      assert Broken(s)[i + 1] == '\n';
    }
  }

  lemma BrokenPair(s: string)
    requires BackslashN(s, 0)
    ensures Broken(s) == "\\" + ("\n" + Broken(s[2..]))
  {
  }

  lemma BrokenHead(s: string)
    requires s != "" && !BackslashN(s, 0)
    ensures Broken(s) == [s[0]] + Broken(s[1..])
  {
  }

  lemma BrokenConcat(a: string, b: string)
    requires a == "" || a[|a| - 1] != '\\' || b == "" || b[0] != 'n'
    ensures Broken(a + b) == Broken(a) + Broken(b)
  {
  }

  /** Where nothing matches, text is copied. */
  lemma {:induction false} ReplaceAllSkips(prefix: string, rest: string, pattern: string, replacement: string)
    requires pattern != ""
    requires forall j :: 0 <= j < |prefix| ==> !StartsWith((prefix + rest)[j..], pattern)
    ensures ReplaceAll(prefix + rest, pattern, replacement) == prefix + ReplaceAll(rest, pattern, replacement)
  {
    var all := prefix + rest;
    if prefix == "" {
      assert all == rest;
    } else {
      assert all[0..] == all && all[1..] == prefix[1..] + rest;
      forall j | 0 <= j < |prefix[1..]| ensures !StartsWith((prefix[1..] + rest)[j..], pattern) {
        assert (prefix[1..] + rest)[j..] == all[j + 1..];
      }
      ReplaceAllSkips(prefix[1..], rest, pattern, replacement);
    }
  }

  lemma ReplaceAllMatches(rest: string, pattern: string, replacement: string)
    requires pattern != ""
    ensures ReplaceAll(pattern + rest, pattern, replacement) == replacement + ReplaceAll(rest, pattern, replacement)
  {
    assert (pattern + rest)[|pattern|..] == rest;
  }

  lemma DifferentStart(s: string, pattern: string, k: nat)
    requires k < |pattern| && (k < |s| ==> s[k] != pattern[k])
    ensures !StartsWith(s, pattern)
  {
  }

  /** No later part of a code begins a match, whatever code follows. */
  lemma CodePartDiffers(stage: nat, c: char, j: nat)
    requires stage < 8 && j < |Code(stage, c)| && Code(stage, c) != Pattern(stage)
    requires Code(stage, c)[j] == Pattern(stage)[0]
    ensures |Pattern(stage)| > 1
    ensures j + 1 < |Code(stage, c)| ==> Code(stage, c)[j + 1] != Pattern(stage)[1]
    ensures j + 1 == |Code(stage, c)| ==>
              forall d: char :: (stage == 4 && c == '\\' ==> d != 'n') ==> Code(stage, d)[0] != Pattern(stage)[1]
  {
  }

  lemma CodesAreNonempty(stage: nat, c: char)
    ensures Code(stage, c) != ""
  {
  }

  lemma NoMatchInside(stage: nat, s: string, j: nat)
    requires stage < 8 && s != "" && j < |Code(stage, s[0])| && Code(stage, s[0]) != Pattern(stage)
    requires stage >= 4 ==> !BackslashN(s, 0)
    ensures !StartsWith((Code(stage, s[0]) + Encode(stage, s[1..]))[j..], Pattern(stage))
  {
    var code, rest := Code(stage, s[0]), Encode(stage, s[1..]);
    if |s| > 1 { CodesAreNonempty(stage, s[1]); }
    assert |s| > 1 ==> rest[0] == Code(stage, s[1])[0];
    assert |s| == 1 ==> rest == "";
    var tail := (code + rest)[j..];
    assert tail[0] == code[j];
    hide Code, Pattern, StartsWith, Encode;
    if code[j] != Pattern(stage)[0] {
      DifferentStart(tail, Pattern(stage), 0);
    } else {
      CodePartDiffers(stage, s[0], j);
      assert j + 1 < |code| ==> tail[1] == code[j + 1];
      assert j + 1 == |code| && |tail| > 1 ==> tail[1] == rest[0];
      DifferentStart(tail, Pattern(stage), 1);
    }
  }

  /** The characters that a stage turns from their code into themselves; no code contains `&quot;`. */
  predicate Due(stage: nat, c: char) {
    match stage
    case 0 => c == '<'
    case 1 => c == '>'
    case 3 => c == '&'
    case 4 => c == '\n'
    case 5 => c == '\''
    case 6 => c == '"'
    case 7 => c == '\\'
    case _ => false
  }

  lemma DueCodes(stage: nat, c: char)
    requires Due(stage, c)
    ensures Code(stage, c) == Pattern(stage) && Code(stage + 1, c) == Plain(stage)
  {
  }

  lemma OtherCodes(stage: nat, c: char)
    requires stage < 8 && !Due(stage, c)
    ensures Code(stage + 1, c) == Code(stage, c)
    ensures Code(stage, c) != Pattern(stage)
  {
    var code, pattern := Code(stage, c), Pattern(stage);
    if |code| == |pattern| {
      assert code[0] != pattern[0] || code[1] != pattern[1];
    }
  }

  lemma ReplaceOneCode(stage: nat, s: string)
    requires stage < 8 && s != ""
    requires stage >= 4 ==> !BackslashN(s, 0)
    ensures ReplaceAll(Encode(stage, s), Pattern(stage), Plain(stage)) ==
            Code(stage + 1, s[0]) + ReplaceAll(Encode(stage, s[1..]), Pattern(stage), Plain(stage))
  {
    hide Code, Pattern, Plain, ReplaceAll, StartsWith, Due;
    var rest := Encode(stage, s[1..]);
    var code := Code(stage, s[0]);
    if Due(stage, s[0]) {
      DueCodes(stage, s[0]);
      ReplaceAllMatches(rest, Pattern(stage), Plain(stage));
    } else {
      OtherCodes(stage, s[0]);
      forall j: nat | j < |code| ensures !StartsWith((code + rest)[j..], Pattern(stage)) {
        NoMatchInside(stage, s, j);
      }
      ReplaceAllSkips(code, rest, Pattern(stage), Plain(stage));
    }
  }

  lemma ReplaceAllPasses(c: char, rest: string, pattern: string, replacement: string)
    requires pattern != "" && !StartsWith([c] + rest, pattern)
    ensures ReplaceAll([c] + rest, pattern, replacement) == [c] + ReplaceAll(rest, pattern, replacement)
  {
    assert ([c] + rest)[1..] == rest;
  }

  lemma PairCodes(s: string)
    requires BackslashN(s, 0)
    ensures Encode(4, s) == "\\" + ("\\n" + Encode(4, s[2..]))
  {
    assert s[1..][1..] == s[2..];
    assert Encode(4, s[1..]) == "n" + Encode(4, s[2..]);
    var tail := Encode(4, s[2..]);
    hide Encode;
    assert "\\\\" + ("n" + tail) == "\\" + ("\\n" + tail);
  }

  lemma LaterPatterns(stage: nat)
    requires 4 <= stage < 8
    ensures stage == 4 ==> Pattern(stage) == "\\n" && Plain(stage) == "\n"
    ensures stage > 4 ==> |Pattern(stage)| == 2 && Pattern(stage)[0] == '\\' && Pattern(stage)[1] != '\n'
  {
  }

  /** A backslash with its n becomes a backslash with a line break, and stays so. */
  lemma ReplaceOnePair(stage: nat, s: string)
    requires 4 <= stage < 8 && BackslashN(s, 0)
    ensures ReplaceAll(Encode(stage, s), Pattern(stage), Plain(stage)) ==
            "\\" + ("\n" + ReplaceAll(Encode(stage, s[2..]), Pattern(stage), Plain(stage)))
  {
    assert |s| >= 2;
    assert stage > 4 ==> Encode(stage, s) == "\\" + ("\n" + Encode(stage, s[2..]));
    PairCodes(s);
    LaterPatterns(stage);
    hide *;
    var tail := Encode(stage, s[2..]);
    if stage == 4 {
      DifferentStart("\\" + ("\\n" + tail), Pattern(4), 1);
      ReplaceAllPasses('\\', "\\n" + tail, Pattern(4), Plain(4));
      ReplaceAllMatches(tail, Pattern(4), Plain(4));
    } else {
      DifferentStart("\\" + ("\n" + tail), Pattern(stage), 1);
      ReplaceAllPasses('\\', "\n" + tail, Pattern(stage), Plain(stage));
      DifferentStart("\n" + tail, Pattern(stage), 0);
      ReplaceAllPasses('\n', tail, Pattern(stage), Plain(stage));
    }
  }

  lemma EncodeSteps(stage: nat, s: string)
    requires s != ""
    ensures stage > 4 && BackslashN(s, 0) ==> Encode(stage, s) == "\\" + ("\n" + Encode(stage, s[2..]))
    ensures stage <= 4 || !BackslashN(s, 0) ==> Encode(stage, s) == Code(stage, s[0]) + Encode(stage, s[1..])
  {
    hide Code;
  }

  /** Each replacement of the decoder leads from the text before it to the text after it. */
  lemma {:induction false} StageDecodes(stage: nat, s: string)
    requires stage < 8
    ensures ReplaceAll(Encode(stage, s), Pattern(stage), Plain(stage)) == Encode(stage + 1, s)
  {
    if s == "" {
      assert Encode(stage, s) == "" == Encode(stage + 1, s);
    } else {
      EncodeSteps(stage + 1, s);
      hide Encode, Code, ReplaceAll, Pattern, Plain;
      if stage >= 4 && BackslashN(s, 0) {
        ReplaceOnePair(stage, s);
        StageDecodes(stage, s[2..]);
      } else {
        ReplaceOneCode(stage, s);
        StageDecodes(stage, s[1..]);
      }
    }
  }

  // ------------------------------------------------------------------ escaping produces the codes

  const ESCAPED: seq<char> := ['\\', '\n', '\'', '"', '&', '<', '>']

  /** How one character stands after the first `stage` of the seven replacements of `EscapeResource`. */
  function Escaping(stage: nat, c: char): string {
    if c in ESCAPED[..if stage <= 7 then stage else 7] then Code(0, c) else [c]
  }

  function EscapeTo(stage: nat, s: string): string {
    if s == "" then "" else Escaping(stage, s[0]) + EscapeTo(stage, s[1..])
  }

  lemma EscapeOneChar(stage: nat, c: char, rest: string)
    requires stage < 7
    ensures var pattern, code := [ESCAPED[stage]], Code(0, ESCAPED[stage]);
            ReplaceAll(Escaping(stage, c) + rest, pattern, code)
            == Escaping(stage + 1, c) + ReplaceAll(rest, pattern, code)
  {
    var pattern := [ESCAPED[stage]];
    var here := Escaping(stage, c);
    assert ESCAPED[..stage + 1] == ESCAPED[..stage] + pattern;
    if c == ESCAPED[stage] {
      assert c !in ESCAPED[..stage];
      ReplaceAllMatches(rest, pattern, Code(0, c));
    } else {
      forall j | 0 <= j < |here| ensures !StartsWith((here + rest)[j..], pattern) {
        assert (here + rest)[j..][0] == here[j];
        assert here[j] != ESCAPED[stage];
      }
      ReplaceAllSkips(here, rest, pattern, Code(0, ESCAPED[stage]));
    }
  }

  lemma {:induction false} StageEscapes(stage: nat, s: string)
    requires stage < 7
    ensures ReplaceAll(EscapeTo(stage, s), [ESCAPED[stage]], Code(0, ESCAPED[stage])) == EscapeTo(stage + 1, s)
  {
    if s != "" {
      EscapeOneChar(stage, s[0], EscapeTo(stage, s[1..]));
      StageEscapes(stage, s[1..]);
    }
  }

  lemma EscapingEnds(c: char)
    ensures Escaping(0, c) == [c] && Escaping(7, c) == Code(0, c) && Code(8, c) == [c]
  {
    assert ESCAPED[..7] == ESCAPED && ESCAPED[..0] == [];
  }

  lemma {:induction false} EscapeEnds(s: string)
    ensures EscapeTo(0, s) == s
    ensures EscapeTo(7, s) == Encode(0, s)
  {
    hide Escaping, Code;
    if s != "" {
      EscapeEnds(s[1..]);
      EscapingEnds(s[0]);
      assert [s[0]] + s[1..] == s;
    }
  }

  lemma {:induction false} DecodeEnds(s: string)
    ensures Encode(8, s) == Broken(s)
  {
    hide Code, Broken;
    if s != "" {
      EscapingEnds(s[0]);
      if BackslashN(s, 0) {
        DecodeEnds(s[2..]);
        BrokenPair(s);
      } else {
        DecodeEnds(s[1..]);
        BrokenHead(s);
      }
    }
  }

  lemma EscapeCodes()
    ensures [ESCAPED[0]] == "\\" && Code(0, ESCAPED[0]) == "\\\\"
    ensures [ESCAPED[1]] == "\n" && Code(0, ESCAPED[1]) == "\\n"
    ensures [ESCAPED[2]] == "'" && Code(0, ESCAPED[2]) == "\\'"
    ensures [ESCAPED[3]] == "\"" && Code(0, ESCAPED[3]) == "\\\""
    ensures [ESCAPED[4]] == "&" && Code(0, ESCAPED[4]) == "&amp;"
    ensures [ESCAPED[5]] == "<" && Code(0, ESCAPED[5]) == "&lt;"
    ensures [ESCAPED[6]] == ">" && Code(0, ESCAPED[6]) == "&gt;"
  {
  }

  /** The seven replacements in sequence escape each character on its own. */
  lemma EscapingIsCharacterwise(s: string)
    ensures EscapeResource(s) == Encode(0, s)
  {
    hide ReplaceAll, EscapeTo, Escaping, Code, Encode, ESCAPED;
    EscapeEnds(s);
    EscapeCodes();
    StageEscapes(0, s);
    StageEscapes(1, s);
    StageEscapes(2, s);
    StageEscapes(3, s);
    StageEscapes(4, s);
    StageEscapes(5, s);
    StageEscapes(6, s);
  }

  // ------------------------------------------------------------------ round trip

  lemma DecodeStages(s: string)
    ensures DecodeXml(s) ==
            var a := ReplaceAll(ReplaceAll(s, Pattern(0), Plain(0)), Pattern(1), Plain(1));
            var b := ReplaceAll(ReplaceAll(a, Pattern(2), Plain(2)), Pattern(3), Plain(3));
            var c := ReplaceAll(ReplaceAll(b, Pattern(4), Plain(4)), Pattern(5), Plain(5));
            ReplaceAll(ReplaceAll(c, Pattern(6), Plain(6)), Pattern(7), Plain(7))
  {
    hide ReplaceAll;
  }

  lemma AllStagesDecode(s: string)
    ensures DecodeXml(Encode(0, s)) == Broken(s)
  {
    hide *;
    DecodeStages(Encode(0, s));
    StageDecodes(0, s);
    StageDecodes(1, s);
    StageDecodes(2, s);
    StageDecodes(3, s);
    StageDecodes(4, s);
    StageDecodes(5, s);
    StageDecodes(6, s);
    StageDecodes(7, s);
    DecodeEnds(s);
  }

  lemma UnquoteQuoted(s: string)
    ensures DecodeAndroidResourceValue(Quoted(s)) == DecodeXml(s)
  {
    var q := Quoted(s);
    assert q[0] == '"' && q[|q| - 1] == '"';
    assert Trim(q) == q;
    assert q[1..|q| - 1] == s;
  }

  /** Decoding the quoted escaped text turns every n directly behind a backslash into a line break, and nothing else. */
  lemma DecodingBreaks(s: string)
    ensures DecodeAndroidResourceValue(Quoted(EscapeResource(s))) == Broken(s)
  {
    hide *;
    EscapingIsCharacterwise(s);
    UnquoteQuoted(Encode(0, s));
    AllStagesDecode(s);
  }

  /** So, in spite of the sequential replacements, it gives the text back exactly when it has no such n. */
  lemma EscapeDecodeRoundTrip(s: string)
    ensures DecodeAndroidResourceValue(Quoted(EscapeResource(s))) == s <==> NoBackslashN(s)
  {
    hide *;
    DecodingBreaks(s);
    BrokenIffBackslashN(s);
  }
}
