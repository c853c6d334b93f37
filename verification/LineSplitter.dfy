/** Cutting a child's streamed output into lines (`collectOutputLines`, `flushOutputLineBuffers`). */
module LineSplitter {
  import opened Text

  /** The length of the line break `\r?\n` that `s` starts with, or 0. */
  function Break(s: string): nat {
    if |s| >= 2 && s[0] == '\r' && s[1] == '\n' then 2
    else if |s| >= 1 && s[0] == '\n' then 1
    else 0
  }

  /** `s.split(/\r?\n/u)`, matching from the left. */
  function Pieces(s: string): (parts: seq<string>)
    ensures parts != []
  {
    if s == "" then [""]
    else if Break(s) > 0 then [""] + Pieces(s[Break(s)..])
    else AddToHead(s[0], Pieces(s[1..]))
  }

  function AddToHead(c: char, parts: seq<string>): (r: seq<string>)
    requires parts != []
    ensures |r| == |parts|
  {
    [[c] + parts[0]] + parts[1..]
  }

  function Last<T>(s: seq<T>): T
    requires s != []
  {
    s[|s| - 1]
  }

  function Init<T>(s: seq<T>): seq<T>
    requires s != []
  {
    s[..|s| - 1]
  }

  // ------------------------------------------------------------------ what a split is

  /** The parts with the breaks between them. */
  function Join(parts: seq<string>, breaks: seq<string>): string
    requires |parts| == |breaks| + 1
  {
    if breaks == [] then parts[0] else parts[0] + breaks[0] + Join(parts[1..], breaks[1..])
  }

  /** `breaks` are line breaks, no part holds one, and a `\r` before a `\n` belongs to the break. */
  predicate Separated(parts: seq<string>, breaks: seq<string>) {
    && |parts| == |breaks| + 1
    && (forall i :: 0 <= i < |parts| ==> '\n' !in parts[i])
    && (forall i :: 0 <= i < |breaks| ==> breaks[i] == "\r\n" || (breaks[i] == "\n" && !EndsWith(parts[i], "\r")))
  }

  predicate JoinsTo(parts: seq<string>, breaks: seq<string>, s: string) {
    Separated(parts, breaks) && Join(parts, breaks) == s
  }

  /** `parts` is what lies between the line breaks of `s`. */
  ghost predicate IsSplit(s: string, parts: seq<string>) {
    exists breaks :: JoinsTo(parts, breaks, s)
  }

  lemma {:induction false} OnePiece(part: string)
    requires '\n' !in part
    ensures Pieces(part) == [part]
  {
    if part != "" {
      OnePiece(part[1..]);
      assert part == [part[0]] + part[1..];
    }
  }

  lemma PiecesFromBreak(br: string, rest: string)
    requires br == "\r\n" || br == "\n"
    ensures Pieces(br + rest) == [""] + Pieces(rest)
  {
    assert (br + rest)[Break(br + rest)..] == rest;
  }

  lemma PiecesFromChar(c: char, rest: string)
    requires c != '\n' && (c == '\r' && rest != "" ==> rest[0] != '\n')
    ensures Pieces([c] + rest) == AddToHead(c, Pieces(rest))
  {
    assert ([c] + rest)[1..] == rest;
  }

  lemma FirstCharOut(part: string, br: string, rest: string)
    requires part != "" && br != ""
    ensures part + br + rest == [part[0]] + (part[1..] + br + rest)
    ensures (part[1..] + br + rest)[0] == if |part| > 1 then part[1] else br[0]
  {
  }

  lemma LastCharsStay(part: string)
    requires part != ""
    ensures EndsWith(part[1..], "\r") ==> EndsWith(part, "\r")
    ensures part == "\r" ==> EndsWith(part, "\r")
  {
  }

  lemma {:induction false} FirstPiece(part: string, br: string, rest: string)
    requires '\n' !in part && (br == "\r\n" || (br == "\n" && !EndsWith(part, "\r")))
    ensures Pieces(part + br + rest) == [part] + Pieces(rest)
  {
    hide Pieces, EndsWith, Break;
    if part == "" {
      PiecesFromBreak(br, rest);
      assert "" + br + rest == br + rest;
    } else {
      LastCharsStay(part);
      FirstCharOut(part, br, rest);
      assert |part| == 1 ==> part == [part[0]];
      assert '\n' !in part[1..];
      PiecesFromChar(part[0], part[1..] + br + rest);
      FirstPiece(part[1..], br, rest);
      AddToOne(part[0], part[1..], Pieces(rest));
      assert [part[0]] + part[1..] == part;
    }
  }

  lemma AddToOne(c: char, part: string, later: seq<string>)
    ensures AddToHead(c, [part] + later) == [[c] + part] + later
  {
    assert ([part] + later)[1..] == later;
  }

  lemma {:induction false} JoinedPieces(parts: seq<string>, breaks: seq<string>)
    requires Separated(parts, breaks)
    ensures Pieces(Join(parts, breaks)) == parts
  {
    if breaks == [] {
      OnePiece(parts[0]);
    } else {
      JoinedPieces(parts[1..], breaks[1..]);
      FirstPiece(parts[0], breaks[0], Join(parts[1..], breaks[1..]));
    }
  }

  lemma {:induction false} BreaksOf(s: string) returns (breaks: seq<string>)
    ensures Separated(Pieces(s), breaks) && Join(Pieces(s), breaks) == s
  {
    if s == "" {
      breaks := [];
    } else if Break(s) > 0 {
      var later := BreaksOf(s[Break(s)..]);
      breaks := [s[..Break(s)]] + later;
      OneBreakMore(s, Pieces(s[Break(s)..]), later);
    } else {
      breaks := BreaksOf(s[1..]);
      var parts := Pieces(s[1..]);
      OneCharJoins(s, parts, breaks);
      if breaks != [] && breaks[0] == "\n" { HeadKeepsItsBreak(s, parts[0], breaks[0]); }
      OneCharSeparates(s[0], parts, breaks);
    }
  }

  lemma OneBreakMore(s: string, parts: seq<string>, breaks: seq<string>)
    requires Break(s) > 0
    requires Separated(parts, breaks) && Join(parts, breaks) == s[Break(s)..]
    ensures var more := [s[..Break(s)]] + breaks;
            Separated([""] + parts, more) && Join([""] + parts, more) == s
  {
    var br := s[..Break(s)];
    hide Pieces;
    assert ([""] + parts)[1..] == parts && ([br] + breaks)[1..] == breaks;
    assert "" + br + s[Break(s)..] == s;
    assert br == "\r\n" || br == "\n";
  }

  lemma OneCharJoins(s: string, parts: seq<string>, breaks: seq<string>)
    requires s != "" && |parts| == |breaks| + 1 && Join(parts, breaks) == s[1..]
    ensures Join(AddToHead(s[0], parts), breaks) == s
  {
    var more := AddToHead(s[0], parts);
    assert more[1..] == parts[1..];
    assert s == [s[0]] + s[1..];
    if breaks != [] {
      assert Join(more, breaks) == [s[0]] + Join(parts, breaks);
    }
  }

  /** A character in front does not turn the break after the first part into a longer one. */
  lemma HeadKeepsItsBreak(s: string, part: string, br: string)
    requires s != "" && Break(s) == 0 && part + br <= s[1..]
    requires br == "\n" && !EndsWith(part, "\r")
    ensures !EndsWith([s[0]] + part, "\r")
  {
    if part == "" {
      assert (part + br)[0] == '\n' == s[1];
      assert [s[0]] + part == [s[0]];
    } else {
      assert ([s[0]] + part)[|part|] == part[|part| - 1];
    }
  }

  lemma OneCharSeparates(c: char, parts: seq<string>, breaks: seq<string>)
    requires Separated(parts, breaks) && c != '\n'
    requires breaks != [] && breaks[0] == "\n" ==> !EndsWith([c] + parts[0], "\r")
    ensures Separated(AddToHead(c, parts), breaks)
  {
    hide EndsWith;
    var more := AddToHead(c, parts);
    assert more[0] == [c] + parts[0] && forall i :: 0 < i < |parts| ==> more[i] == parts[i];
  }

  /** Splitting finds the one way to read the text as parts and line breaks. */
  lemma PiecesIsTheSplit(s: string, parts: seq<string>)
    ensures parts == Pieces(s) <==> IsSplit(s, parts)
  {
    var breaks := BreaksOf(s);
    assert JoinsTo(Pieces(s), breaks, s);
    if IsSplit(s, parts) {
      var other :| JoinsTo(parts, other, s);
      JoinedPieces(parts, other);
    }
  }

  /** Splitting a text that goes on: the finished lines stay, and only the last piece is split again. */
  lemma {:induction false} SplitGoesOn(x: string, y: string)
    ensures Pieces(x + y) == Init(Pieces(x)) + Pieces(Last(Pieces(x)) + y)
  {
    var breaks := BreaksOf(x);
    GoesOn(Pieces(x), breaks, y);
  }

  lemma HeadAndTail(parts: seq<string>, end: seq<string>)
    requires |parts| > 1
    ensures Last(parts[1..]) == Last(parts) && [parts[0]] + (Init(parts[1..]) + end) == Init(parts) + end
  {
  }

  lemma TailIsSeparated(parts: seq<string>, breaks: seq<string>)
    requires Separated(parts, breaks) && breaks != []
    ensures Separated(parts[1..], breaks[1..]) && |parts| > 1
  {
  }

  lemma {:induction false} GoesOn(parts: seq<string>, breaks: seq<string>, y: string)
    requires Separated(parts, breaks)
    ensures Pieces(Join(parts, breaks) + y) == Init(parts) + Pieces(Last(parts) + y)
    decreases breaks
  {
    hide Pieces;
    if breaks == [] {
      assert Init(parts) == [] && [] + Pieces(Last(parts) + y) == Pieces(Last(parts) + y);
    } else {
      TailIsSeparated(parts, breaks);
      var rest := Join(parts[1..], breaks[1..]);
      FirstPiece(parts[0], breaks[0], rest + y);
      hide Separated;
      assert Join(parts, breaks) + y == parts[0] + breaks[0] + (rest + y);
      hide *;
      GoesOn(parts[1..], breaks[1..], y);
      HeadAndTail(parts, Pieces(Last(parts) + y));
    }
  }

  // ------------------------------------------------------------------ chunks of two interleaved streams

  datatype Stream = Stdout | Stderr

  datatype Output = Output(stream: Stream, text: string)

  datatype Collected = Collected(carry: string, lines: seq<string>)

  function CollectOutputLines(carry: string, chunk: string): Collected {
    var parts := Pieces(carry + chunk);
    Collected(Last(parts), Init(parts))
  }

  /** The text of one stream, whatever chunks it came in. */
  ghost function TextOf(chunks: seq<Output>, stream: Stream): string {
    if chunks == [] then ""
    else TextOf(Init(chunks), stream) + if Last(chunks).stream == stream then Last(chunks).text else ""
  }

  /** What a stream's buffer holds, and the lines it reported, after `chunks` have arrived. */
  function After(chunks: seq<Output>, stream: Stream): Collected {
    if chunks == [] then Collected("", [])
    else
      var sofar := After(Init(chunks), stream);
      if Last(chunks).stream != stream then sofar
      else
        var step := CollectOutputLines(sofar.carry, Last(chunks).text);
        Collected(step.carry, sofar.lines + step.lines)
  }

  /** However the streams are cut into chunks and interleaved, each reports the lines of its whole text. */
  lemma {:induction false} ChunkingDoesNotMatter(chunks: seq<Output>, stream: Stream)
    ensures var parts := Pieces(TextOf(chunks, stream));
            After(chunks, stream) == Collected(Last(parts), Init(parts))
    decreases |chunks|
  {
    if chunks != [] {
      ChunkingDoesNotMatter(Init(chunks), stream);
      var sofar := TextOf(Init(chunks), stream);
      if Last(chunks).stream == stream {
        SplitGoesOn(sofar, Last(chunks).text);
        var step := Pieces(Last(Pieces(sofar)) + Last(chunks).text);
        assert Init(Init(Pieces(sofar)) + step) == Init(Pieces(sofar)) + Init(step);
      } else {
        assert sofar + "" == sofar;
      }
    }
  }

  /** The line that a flush reports for a carry. */
  function Unfinished(stream: Stream, carry: string): seq<Output> {
    if carry == "" then [] else [Output(stream, carry)]
  }

  /** The texts of reported lines. */
  function Texts(lines: seq<Output>): (texts: seq<string>)
    ensures |texts| == |lines| && forall i :: 0 <= i < |lines| ==> texts[i] == lines[i].text
  {
    seq(|lines|, i requires 0 <= i < |lines| => lines[i].text)
  }

  lemma {:induction false} LastPartEnds(parts: seq<string>, breaks: seq<string>)
    requires Separated(parts, breaks)
    ensures Last(parts) == "" <==> Join(parts, breaks) == "" || EndsWith(Join(parts, breaks), "\n")
    decreases breaks
  {
    if breaks == [] {
      EndsWithin(parts[0]);
    } else {
      TailIsSeparated(parts, breaks);
      LastPartEnds(parts[1..], breaks[1..]);
      EndOfConcat(parts[0] + breaks[0], Join(parts[1..], breaks[1..]));
    }
  }

  lemma EndsWithin(text: string)
    ensures EndsWith(text, "\n") ==> '\n' in text
  {
    assert EndsWith(text, "\n") ==> text[|text| - 1..][0] == '\n';
  }

  lemma EndOfConcat(a: string, b: string)
    requires EndsWith(a, "\n")
    ensures a + b != "" && (EndsWith(a + b, "\n") <==> b == "" || EndsWith(b, "\n"))
  {
    assert b == "" ==> a + b == a;
    assert b != "" ==> (a + b)[|a + b| - 1..] == b[|b| - 1..];
  }

  /**
   * With the flush at the end, a stream has reported the lines of its whole text; one more, empty line would follow
   * exactly when the text is empty or ends with a line break, and it is not reported.
   */
  lemma FlushedLines(chunks: seq<Output>, stream: Stream)
    ensures var end := After(chunks, stream);
            var text := TextOf(chunks, stream);
            var reported := end.lines + Texts(Unfinished(stream, end.carry));
            && IsSplit(text, if text == "" || EndsWith(text, "\n") then reported + [""] else reported)
            && forall line | line in Unfinished(stream, end.carry) :: line.stream == stream
  {
    var text := TextOf(chunks, stream);
    var parts := Pieces(text);
    ChunkingDoesNotMatter(chunks, stream);
    PiecesIsTheSplit(text, parts);
    var breaks := BreaksOf(text);
    LastPartEnds(parts, breaks);
    hide Pieces, TextOf, After, EndsWith, IsSplit, Separated, Join;
    ReportedPieces(parts, stream);
  }

  lemma ReportedPieces(parts: seq<string>, stream: Stream)
    requires parts != []
    ensures var reported := Init(parts) + Texts(Unfinished(stream, Last(parts)));
            parts == if Last(parts) == "" then reported + [""] else reported
  {
    assert parts == Init(parts) + [Last(parts)];
  }

  /** The carries of a child's two streams. */
  class OutputBuffers {
    var stdout: string
    var stderr: string

    constructor ()
      ensures stdout == stderr == ""
    {
      stdout, stderr := "", "";
    }

    function Of(stream: Stream): string
      reads this
    {
      if stream.Stdout? then stdout else stderr
    }

    /** These are the buffers that `chunks` leave behind. */
    ghost predicate Holds(chunks: seq<Output>)
      reads this
    {
      forall stream :: Of(stream) == After(chunks, stream).carry
    }

    method OnChunk(stream: Stream, text: string, ghost chunks: seq<Output>) returns (lines: seq<string>)
      requires Holds(chunks)
      modifies this
      ensures Holds(chunks + [Output(stream, text)])
      ensures After(chunks, stream).lines + lines == After(chunks + [Output(stream, text)], stream).lines
    {
      ghost var all := chunks + [Output(stream, text)];
      assert Init(all) == chunks && Last(all) == Output(stream, text);
      var parsed := CollectOutputLines(Of(stream), text);
      if stream.Stdout? {
        stdout := parsed.carry;
      } else {
        stderr := parsed.carry;
      }
      lines := parsed.lines;
    }

    method FlushOutputLineBuffers(flushPartial: bool) returns (lines: seq<Output>)
      modifies this
      ensures !flushPartial ==> lines == [] && stdout == old(stdout) && stderr == old(stderr)
      ensures flushPartial ==> stdout == stderr == ""
      ensures flushPartial ==> lines == Unfinished(Stdout, old(stdout)) + Unfinished(Stderr, old(stderr))
    {
      lines := [];
      if !flushPartial {
        return;
      }
      if stdout != "" {
        lines := lines + [Output(Stdout, stdout)];
        stdout := "";
      }
      if stderr != "" {
        lines := lines + [Output(Stderr, stderr)];
        stderr := "";
      }
    }
  }
}
