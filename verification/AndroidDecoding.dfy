/** Decoding texts that were not written by the escaping. */
module AndroidDecoding {
  import opened Text
  import opened AndroidEscaping

  // ------------------------------------------------------------------ the quotes around a value

  /** Between two quotes, whatever blanks are around them, the quoted text is decoded. */
  lemma DecodeUnquotes(before: string, inner: string, after: string)
    requires Blank(before) && Blank(after)
    ensures DecodeAndroidResourceValue(before + "\"" + inner + "\"" + after) == DecodeXml(inner)
  {
    var raw := before + "\"" + inner + "\"" + after;
    TrimsTo(before, "\"" + inner + "\"", after, raw);
    UnquoteQuoted(inner);
  }

  /** A value that does not begin or does not end with a quote is decoded as it is, without the blanks around it. */
  lemma DecodeUnquoted(before: string, inner: string, after: string)
    requires Blank(before) && Blank(after) && inner != "" && !IsSpace(inner[0]) && !IsSpace(inner[|inner| - 1])
    requires inner[0] != '"' || inner[|inner| - 1] != '"'
    ensures DecodeAndroidResourceValue(before + inner + after) == DecodeXml(inner)
  {
    TrimsTo(before, inner, after, before + inner + after);
  }

  /** Nothing and a single quote are decoded to nothing. */
  lemma DecodeNothing(before: string, after: string)
    requires Blank(before) && Blank(after)
    ensures DecodeAndroidResourceValue(before + after) == ""
    ensures DecodeAndroidResourceValue(before + "\"" + after) == ""
  {
    BlankIffTrimmedAway(before + after);
    assert Blank(before + after);
    TrimsTo(before, "\"", after, before + "\"" + after);
  }

  lemma TrimsTo(before: string, inner: string, after: string, raw: string)
    requires Blank(before) && Blank(after) && inner != "" && !IsSpace(inner[0]) && !IsSpace(inner[|inner| - 1])
    requires raw == before + inner + after
    ensures Trim(raw) == inner
  {
    var a, b := TrimCuts(raw);
    assert raw[|before|] == inner[0] && raw[|before| + |inner| - 1] == inner[|inner| - 1];
    assert forall i :: 0 <= i < |before| ==> raw[i] == before[i];
    assert forall i :: |before| + |inner| <= i < |raw| ==> raw[i] == after[i - |before| - |inner|];
    assert a == |before| && b == |before| + |inner|;
    assert raw[a..b] == inner;
  }

  // ------------------------------------------------------------------ the entities

  /** How a character is written as an entity, after `stage` of the first four replacements of `DecodeXml`. */
  function Entity(stage: nat, c: char): string {
    match c
    case '<' => if stage < 1 then "&lt;" else "<"
    case '>' => if stage < 2 then "&gt;" else ">"
    case '"' => if stage < 3 then "&quot;" else "\""
    case '&' => if stage < 4 then "&amp;" else "&"
    case _ => [c]
  }

  function Entities(stage: nat, s: string): string {
    if s == "" then "" else Entity(stage, s[0]) + Entities(stage, s[1..])
  }

  lemma EntitiesDiffer(stage: nat, c: char)
    requires stage < 4 && Entity(stage, c) != Pattern(stage) && Entity(stage, c)[0] == '&'
    ensures |Entity(stage, c)| >= 4
    ensures Entity(stage, c)[1] != Pattern(stage)[1] || Entity(stage, c)[2] != Pattern(stage)[2]
  {
  }

  lemma EntityBegins(stage: nat, c: char)
    requires stage < 4
    ensures |Pattern(stage)| >= 4 && Pattern(stage)[0] == '&' && Entity(stage, c) != ""
    ensures forall j :: 1 <= j < |Entity(stage, c)| ==> Entity(stage, c)[j] != '&'
  {
  }

  lemma EntityIsNoOther(stage: nat, c: char, rest: string, j: nat)
    requires stage < 4 && j < |Entity(stage, c)| && Entity(stage, c) != Pattern(stage)
    ensures !StartsWith((Entity(stage, c) + rest)[j..], Pattern(stage))
  {
    var code := Entity(stage, c);
    var tail := (code + rest)[j..];
    EntityBegins(stage, c);
    if j == 0 && code[0] == '&' { EntitiesDiffer(stage, c); }
    hide Entity, Pattern;
    assert tail[0] == code[j];
    assert j == 0 && code[0] == '&' ==> tail[1] == code[1] && tail[2] == code[2];
  }

  lemma EntityGoes(stage: nat, c: char)
    requires stage < 4
    ensures Entity(stage + 1, c) == if Entity(stage, c) == Pattern(stage) then Plain(stage) else Entity(stage, c)
  {
  }

  lemma {:induction false} StageReads(stage: nat, s: string)
    requires stage < 4
    ensures ReplaceAll(Entities(stage, s), Pattern(stage), Plain(stage)) == Entities(stage + 1, s)
  {
    if s != "" {
      var code, rest := Entity(stage, s[0]), Entities(stage, s[1..]);
      StageReads(stage, s[1..]);
      EntityGoes(stage, s[0]);
      hide ReplaceAll, StartsWith, Entity, Pattern, Plain;
      if code == Pattern(stage) {
        ReplaceAllMatches(rest, Pattern(stage), Plain(stage));
      } else {
        forall j: nat | j < |code| ensures !StartsWith((code + rest)[j..], Pattern(stage)) {
          EntityIsNoOther(stage, s[0], rest, j);
        }
        ReplaceAllSkips(code, rest, Pattern(stage), Plain(stage));
      }
    }
  }

  lemma {:induction false} AllRead(s: string)
    ensures Entities(4, s) == s
  {
    if s != "" {
      AllRead(s[1..]);
      assert Entity(4, s[0]) == [s[0]] && s == [s[0]] + s[1..];
    }
  }

  lemma {:induction false} NothingToReplace(s: string, stage: nat)
    requires stage >= 4 && '\\' !in s
    ensures ReplaceAll(s, Pattern(stage), Plain(stage)) == s
  {
    if s != "" {
      NothingToReplace(s[1..], stage);
      assert s == [s[0]] + s[1..] && s[0] != Pattern(stage)[0];
    }
  }

  /** Text without backslashes that is written with entities for `<`, `>`, `"` and `&` is decoded to itself. */
  lemma EntitiesDecode(s: string)
    requires '\\' !in s
    ensures DecodeXml(Entities(0, s)) == s
  {
    hide *;
    DecodeStages(Entities(0, s));
    StageReads(0, s);
    StageReads(1, s);
    StageReads(2, s);
    StageReads(3, s);
    AllRead(s);
    NothingToReplace(s, 4);
    NothingToReplace(s, 5);
    NothingToReplace(s, 6);
    NothingToReplace(s, 7);
  }
}
