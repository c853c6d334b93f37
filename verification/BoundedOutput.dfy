/** The bounded capture of a child's output stream (`appendBoundedProcessOutput`). */
module BoundedOutput {
  import opened Wrappers

  const RUN_PROCESS_OUTPUT_MAX_CHARS := 1024 * 1024

  datatype Capture = Capture(text: string, truncated: int)

  const EMPTY_CAPTURE := Capture("", 0)

  /** `String.prototype.slice(start)`; a negative start counts from the end, and `-0` is `0`. */
  function SliceFrom(s: string, start: int): string {
    if start >= 0 then
      if start <= |s| then s[start..] else ""
    else if |s| + start < 0 then s
    else s[|s| + start..]
  }

  function Append(capture: Capture, chunk: string, maxChars: int): Capture {
    var next := capture.text + chunk;
    if |next| <= maxChars then
      Capture(next, capture.truncated)
    else
      Capture(SliceFrom(next, -maxChars), capture.truncated + |next| - maxChars)
  }

  function AppendAll(capture: Capture, chunks: seq<string>, maxChars: int): Capture
    decreases chunks
  {
    if chunks == [] then capture
    else AppendAll(Append(capture, chunks[0], maxChars), chunks[1..], maxChars)
  }

  function Concat(chunks: seq<string>): string {
    if chunks == [] then "" else chunks[0] + Concat(chunks[1..])
  }

  /** `None` is a limit that is absent, not a number or not finite. */
  function ResolveOutputLimit(option: Option<real>): (limit: int)
    ensures limit >= 1
    ensures if option.Some? && option.value > 0.0
            then option.value < limit as real + 1.0 && (limit == 1 || limit as real <= option.value)
            else limit == 1024 * 1024
  {
    if option.None? || option.value <= 0.0 then RUN_PROCESS_OUTPUT_MAX_CHARS
    else if option.value.Floor < 1 then 1
    else option.value.Floor
  }

  /** The capture holds exactly the newest `maxChars` characters of `stream` and counts the rest. */
  ghost predicate Faithful(capture: Capture, stream: string, maxChars: int) {
    && |capture.text| == (if |stream| <= maxChars then |stream| else if maxChars < 0 then 0 else maxChars)
    && capture.text == stream[|stream| - |capture.text|..]
    && capture.truncated == |stream| - |capture.text|
  }

  lemma AppendKeepsNewest(capture: Capture, stream: string, chunk: string, maxChars: int)
    requires maxChars >= 1
    requires Faithful(capture, stream, maxChars)
    ensures Faithful(Append(capture, chunk, maxChars), stream + chunk, maxChars)
  {
    var next := capture.text + chunk;
    var all := stream + chunk;
    assert next == all[|all| - |next|..];
  }

  lemma {:induction false} AppendAllKeepsNewest(capture: Capture, stream: string, chunks: seq<string>, maxChars: int)
    requires maxChars >= 1
    requires Faithful(capture, stream, maxChars)
    ensures Faithful(AppendAll(capture, chunks, maxChars), stream + Concat(chunks), maxChars)
    decreases chunks
  {
    if chunks == [] {
      assert stream + Concat(chunks) == stream;
    } else {
      AppendKeepsNewest(capture, stream, chunks[0], maxChars);
      AppendAllKeepsNewest(Append(capture, chunks[0], maxChars), stream + chunks[0], chunks[1..], maxChars);
      assert stream + chunks[0] + Concat(chunks[1..]) == stream + Concat(chunks);
    }
  }

  lemma SmallLimitMiscounts(maxChars: int)
    requires maxChars < 1
    ensures !Faithful(Append(EMPTY_CAPTURE, "x", maxChars), "x", maxChars)
  {
    var got := Append(EMPTY_CAPTURE, "x", maxChars);
    assert EMPTY_CAPTURE.text + "x" == "x";
    assert got.truncated == 1 - maxChars;
    assert maxChars == 0 ==> got.text == "x"[0..];
  }

  /** Every way of cutting the stream into chunks is captured exactly, and only a limit of at least one does that. */
  lemma CaptureIsExactIff(maxChars: int)
    ensures maxChars >= 1 <==>
            forall chunks: seq<string> | Concat(chunks) != "" ::
              Faithful(AppendAll(EMPTY_CAPTURE, chunks, maxChars), Concat(chunks), maxChars)
  {
    assert maxChars >= 1 ==> Faithful(EMPTY_CAPTURE, "", maxChars);
    hide Faithful, Append;
    if maxChars >= 1 {
      forall chunks: seq<string>
        ensures Faithful(AppendAll(EMPTY_CAPTURE, chunks, maxChars), Concat(chunks), maxChars)
      {
        AppendAllKeepsNewest(EMPTY_CAPTURE, "", chunks, maxChars);
        assert "" + Concat(chunks) == Concat(chunks);
      }
    } else {
      SmallLimitMiscounts(maxChars);
      var chunks := ["x"];
      assert chunks[1..] == [];
      assert Concat(chunks) == "x" + Concat([]) == "x";
      assert AppendAll(EMPTY_CAPTURE, chunks, maxChars)
          == AppendAll(Append(EMPTY_CAPTURE, "x", maxChars), [], maxChars);
      assert !Faithful(AppendAll(EMPTY_CAPTURE, chunks, maxChars), Concat(chunks), maxChars);
    }
  }
}
