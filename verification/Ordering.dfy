/** Code-unit order of strings and the stable `toSorted`. */
module Ordering {
  /** `left < right` on strings. */
  predicate Less(a: string, b: string) {
    if a == "" then b != ""
    else b != "" && (a[0] < b[0] || (a[0] == b[0] && Less(a[1..], b[1..])))
  }

  /** The two strings part at `k`: there `a` ends or has the smaller character. */
  ghost predicate PartsAt(a: string, b: string, k: nat) {
    && k <= |a| && k < |b| && a[..k] == b[..k]
    && (k == |a| || a[k] < b[k])
  }

  lemma SameStart(a: string, b: string, k: nat)
    requires PartsAt(a, b, k)
    ensures k > 0 ==> a[0] == b[0]
  {
    if k > 0 { assert a[..k][0] == a[0] && b[..k][0] == b[0]; }
  }

  /** The order of strings is decided where they part. */
  lemma {:induction false} LessIffParts(a: string, b: string)
    ensures Less(a, b) <==> exists k: nat :: PartsAt(a, b, k)
  {
    if a != "" && b != "" && a[0] == b[0] {
      LessIffParts(a[1..], b[1..]);
      if Less(a, b) {
        var k: nat :| PartsAt(a[1..], b[1..], k);
        assert a[..k + 1] == [a[0]] + a[1..][..k] == b[..k + 1];
        assert PartsAt(a, b, k + 1);
      }
      forall k: nat | PartsAt(a, b, k) ensures Less(a, b) {
        assert k > 0;
        assert a[1..][..k - 1] == a[..k][1..] == b[..k][1..] == b[1..][..k - 1];
        assert PartsAt(a[1..], b[1..], k - 1);
      }
    } else {
      assert Less(a, b) ==> PartsAt(a, b, 0);
      forall k: nat | PartsAt(a, b, k) ensures Less(a, b) {
        SameStart(a, b, k);
      }
    }
  }

  ghost predicate Increasing(s: seq<string>) {
    forall i, j :: 0 <= i < j < |s| ==> Less(s[i], s[j])
  }

  /** A strictly increasing list is determined by its members. */
  lemma {:induction false} IncreasingIsUnique(s: seq<string>, t: seq<string>)
    requires Increasing(s) && Increasing(t) && forall x :: x in s <==> x in t
    ensures s == t
  {
    HeadIsMember(t);
    if s != [] {
      assert s[0] in t && t != [] && t[0] in s;
      FirstIsLeast(s, t[0]);
      FirstIsLeast(t, s[0]);
      LessIsTotal(s[0], t[0]);
      FirstIsNotLater(s);
      FirstIsNotLater(t);
      forall x ensures x in s[1..] <==> x in t[1..] {
        assert x in s <==> x == s[0] || x in s[1..] by { assert s == [s[0]] + s[1..]; }
        assert x in t <==> x == t[0] || x in t[1..] by { assert t == [t[0]] + t[1..]; }
      }
      IncreasingIsUnique(s[1..], t[1..]);
    }
  }

  lemma HeadIsMember(t: seq<string>)
    ensures t != [] ==> t[0] in t
  {
  }

  lemma FirstIsLeast(s: seq<string>, x: string)
    requires Increasing(s) && x in s
    ensures x == s[0] || Less(s[0], x)
  {
  }

  lemma FirstIsNotLater(s: seq<string>)
    requires Increasing(s) && s != []
    ensures s[0] !in s[1..]
  {
    LessIsTotal(s[0], s[0]);
    assert forall i :: 0 <= i < |s| - 1 ==> s[1..][i] == s[i + 1] && Less(s[0], s[i + 1]);
  }

  lemma {:induction false} LessIsTotal(a: string, b: string)
    ensures Less(a, b) || a == b || Less(b, a)
    ensures !(Less(a, b) && Less(b, a)) && !Less(a, a)
  {
    if a != "" {
      LessIsTotal(a[1..], a[1..]);
      if b != "" && a[0] == b[0] {
        LessIsTotal(a[1..], b[1..]);
        assert a == [a[0]] + a[1..] && b == [b[0]] + b[1..];
      }
    }
  }

  lemma {:induction false} LessIsTransitive(a: string, b: string, c: string)
    requires Less(a, b) && Less(b, c)
    ensures Less(a, c)
  {
    if a != "" && a[0] == b[0] == c[0] {
      LessIsTransitive(a[1..], b[1..], c[1..]);
    }
  }

  ghost predicate StrictOrder<T(!new)>(before: (T, T) -> bool) {
    && (forall a, b :: before(a, b) ==> !before(b, a))
    && (forall a, b, c :: before(a, b) && before(b, c) ==> before(a, c))
  }

  ghost predicate Total<T(!new)>(before: (T, T) -> bool) {
    StrictOrder(before) && forall a, b :: before(a, b) || a == b || before(b, a)
  }

  lemma LessIsOrder()
    ensures Total((a: string, b: string) => Less(a, b))
  {
    forall a, b ensures (Less(a, b) || a == b || Less(b, a)) && (Less(a, b) ==> !Less(b, a)) { LessIsTotal(a, b); }
    forall a, b, c | Less(a, b) && Less(b, c) ensures Less(a, c) { LessIsTransitive(a, b, c); }
  }

  function Insert<T>(x: T, sorted: seq<T>, before: (T, T) -> bool): seq<T> {
    if sorted == [] || before(x, sorted[0]) then [x] + sorted
    else [sorted[0]] + Insert(x, sorted[1..], before)
  }

  /** Equal elements keep their order, as in a stable sort. */
  function Sort<T>(s: seq<T>, before: (T, T) -> bool): seq<T> {
    if s == [] then [] else Insert(s[|s| - 1], Sort(s[..|s| - 1], before), before)
  }

  ghost predicate Sorted<T(!new)>(s: seq<T>, before: (T, T) -> bool) {
    forall i, j :: 0 <= i < j < |s| ==> !before(s[j], s[i])
  }

  lemma {:induction false} InsertPermutes<T(!new)>(x: T, sorted: seq<T>, before: (T, T) -> bool)
    ensures multiset(Insert(x, sorted, before)) == multiset(sorted) + multiset{x}
  {
    if sorted != [] && !before(x, sorted[0]) {
      var rest := Insert(x, sorted[1..], before);
      assert Insert(x, sorted, before) == [sorted[0]] + rest;
      hide Insert;
      InsertPermutes(x, sorted[1..], before);
      assert sorted == [sorted[0]] + sorted[1..];
      assert multiset([sorted[0]] + rest) == multiset{sorted[0]} + multiset(rest);
    }
  }

  lemma {:induction false} SortPermutes<T(!new)>(s: seq<T>, before: (T, T) -> bool)
    ensures multiset(Sort(s, before)) == multiset(s)
    ensures forall x :: x in Sort(s, before) <==> x in s
  {
    if s != [] {
      var front, last := s[..|s| - 1], s[|s| - 1];
      SortPermutes(front, before);
      InsertPermutes(last, Sort(front, before), before);
      assert s == front + [last];
      hide Sort, Insert;
      assert multiset(s) == multiset(front) + multiset{last};
    }
    hide Sort;
    forall x ensures x in Sort(s, before) <==> x in s {
      assert x in Sort(s, before) <==> x in multiset(Sort(s, before));
    }
  }

  lemma {:induction false} InsertSorts<T(!new)>(x: T, sorted: seq<T>, before: (T, T) -> bool)
    requires StrictOrder(before) && Sorted(sorted, before)
    ensures Sorted(Insert(x, sorted, before), before)
  {
    var r := Insert(x, sorted, before);
    if sorted != [] {
      var rest := sorted[1..];
      if before(x, sorted[0]) {
        forall i, j | 0 <= i < j < |r| ensures !before(r[j], r[i]) {
          if i == 0 { assert !before(sorted[j - 1], sorted[0]) || j == 1; }
        }
      } else {
        assert Sorted(rest, before) by { assert forall i :: 0 <= i < |rest| ==> rest[i] == sorted[i + 1]; }
        InsertSorts(x, rest, before);
        InsertPermutes(x, rest, before);
        var tail := Insert(x, rest, before);
        forall i, j | 0 <= i < j < |r| ensures !before(r[j], r[i]) {
          if i == 0 {
            assert r[j] in multiset(tail);
            if r[j] != x {
              assert r[j] in rest;
              var k :| 0 <= k < |rest| && rest[k] == r[j];
              assert !before(sorted[k + 1], sorted[0]);
            }
          }
        }
      }
    }
  }

  lemma {:induction false} SortSorts<T(!new)>(s: seq<T>, before: (T, T) -> bool)
    requires StrictOrder(before)
    ensures Sorted(Sort(s, before), before)
  {
    if s != [] {
      SortSorts(s[..|s| - 1], before);
      InsertSorts(s[|s| - 1], Sort(s[..|s| - 1], before), before);
    }
  }

  /** The first element after sorting is the least one. */
  lemma HeadIsLeast<T(!new)>(s: seq<T>, before: (T, T) -> bool)
    requires Total(before) && s != []
    ensures Sort(s, before) != []
    ensures var head := Sort(s, before)[0];
            head in s && forall x | x in s :: x == head || before(head, x)
  {
    var r := Sort(s, before);
    SortPermutes(s, before);
    SortSorts(s, before);
    assert s[0] in r;
    forall x | x in s ensures x == r[0] || before(r[0], x) {
      var k :| 0 <= k < |r| && r[k] == x;
      assert k > 0 ==> !before(r[k], r[0]);
    }
  }
}
