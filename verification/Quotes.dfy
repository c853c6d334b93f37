/** Where a quoted text ends in which backslashes escape. */
module Quotes {
  import opened Wrappers

  /** How many backslashes stand directly before position `hi`, none of them before `lo`. */
  ghost function Backslashes(source: string, lo: nat, hi: nat): nat
    requires hi <= |source|
  {
    if hi > lo && source[hi - 1] == '\\' then 1 + Backslashes(source, lo, hi - 1) else 0
  }

  /** A quote of the kind that opened at `open`, after an even number of backslashes. */
  ghost predicate EndsQuote(source: string, open: nat, k: nat) {
    open < k < |source| && source[k] == source[open] && Backslashes(source, open + 1, k) % 2 == 0
  }

  /** The first quote that ends the text quoted from `open` on. */
  ghost function QuoteEnd(source: string, open: nat, from: nat): (end: Option<nat>)
    requires open < from <= |source|
    ensures end.Some? ==> from <= end.value < |source| && EndsQuote(source, open, end.value)
    ensures forall k: nat :: from <= k < (if end.Some? then end.value else |source|) ==> !EndsQuote(source, open, k)
    decreases |source| - from
  {
    if from == |source| then None
    else if EndsQuote(source, open, from) then Some(from)
    else QuoteEnd(source, open, from + 1)
  }
}
