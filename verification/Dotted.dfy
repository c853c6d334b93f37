/** Dotted paths and their segments. */
module Dotted {
  type Parts = seq<string>

  /** `text.split(".")`. */
  function SplitDots(text: string): (parts: Parts)
    ensures parts != [] && forall p | p in parts :: '.' !in p
  {
    if text == "" then [""]
    else
      var rest := SplitDots(text[1..]);
      assert forall p | p in rest[1..] :: p in rest;
      if text[0] == '.' then [""] + rest else [[text[0]] + rest[0]] + rest[1..]
  }

  function JoinDots(parts: Parts): string
    requires parts != []
  {
    if |parts| == 1 then parts[0] else parts[0] + "." + JoinDots(parts[1..])
  }

  lemma {:induction false} SplitOne(part: string)
    requires '.' !in part
    ensures SplitDots(part) == [part]
  {
    if part != "" {
      SplitOne(part[1..]);
      assert part == [part[0]] + part[1..];
    }
  }

  lemma {:induction false} SplitFirst(part: string, rest: string)
    requires '.' !in part
    ensures SplitDots(part + "." + rest) == [part] + SplitDots(rest)
  {
    var text := part + "." + rest;
    if part == "" {
      assert text[1..] == rest;
    } else {
      assert text[1..] == part[1..] + "." + rest;
      SplitFirst(part[1..], rest);
      assert part == [part[0]] + part[1..];
    }
  }

  /** These are the segments of some path. */
  ghost predicate DotFree(parts: Parts) { parts != [] && forall p | p in parts :: '.' !in p }

  lemma StaysDotFree(before: Parts, after: Parts, word: string)
    requires DotFree(before) && after != [] && '.' !in word
    requires forall p | p in after :: p == word || p in before
    ensures DotFree(after)
  {
  }

  lemma {:induction false} SplitJoin(parts: Parts)
    requires DotFree(parts)
    ensures SplitDots(JoinDots(parts)) == parts
  {
    if |parts| == 1 {
      SplitOne(parts[0]);
    } else {
      SplitJoin(parts[1..]);
      SplitFirst(parts[0], JoinDots(parts[1..]));
    }
  }
}
