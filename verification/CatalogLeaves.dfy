/** What flattening a catalog lists and in which order, in terms of the places in the tree. */
module CatalogLeaves {
  import opened Dotted
  import opened Wrappers
  import opened CatalogFlatten

  // ------------------------------------------------------------------ places

  /** The keys lead from property to property to this value, through objects. */
  ghost predicate ValueAt(entries: seq<Entry>, keys: Parts, value: Value)
    decreases keys
  {
    && keys != []
    && exists i :: 0 <= i < |entries| && EntryLeads(entries[i], keys, value)
  }

  ghost predicate EntryLeads(entry: Entry, keys: Parts, value: Value)
    requires keys != []
    decreases keys, 0
  {
    && entry.key == keys[0]
    && if |keys| == 1 then entry.value == value
       else entry.value.Object? && ValueAt(entry.value.entries, keys[1..], value)
  }

  /** The places part at some object, where the first one goes by an earlier property. */
  ghost predicate Precedes(entries: seq<Entry>, a: Parts, b: Parts)
    decreases a
  {
    && a != [] && b != []
    && exists i, j :: 0 <= i <= j < |entries| && entries[i].key == a[0] && entries[j].key == b[0]
                      && (i == j ==> entries[i].value.Object? && Precedes(entries[i].value.entries, a[1..], b[1..]))
  }

  lemma ValueAtFirst(entries: seq<Entry>, keys: Parts, value: Value)
    requires entries != [] && keys != []
    ensures ValueAt(entries, keys, value) <==>
            EntryLeads(entries[0], keys, value) || ValueAt(entries[1..], keys, value)
  {
    hide EntryLeads;
    forall i | 0 <= i < |entries| && EntryLeads(entries[i], keys, value)
      ensures EntryLeads(entries[0], keys, value) || ValueAt(entries[1..], keys, value)
    {
      if i > 0 { assert entries[1..][i - 1] == entries[i]; }
    }
    forall i | 0 <= i < |entries[1..]| && EntryLeads(entries[1..][i], keys, value)
      ensures ValueAt(entries, keys, value)
    {
      assert entries[1..][i] == entries[i + 1];
    }
  }

  lemma PrecedesLater(entries: seq<Entry>, a: Parts, b: Parts)
    requires entries != [] && Precedes(entries[1..], a, b)
    ensures Precedes(entries, a, b)
  {
    var rest := entries[1..];
    var i, j :| 0 <= i <= j < |rest| && rest[i].key == a[0] && rest[j].key == b[0]
                && (i == j ==> rest[i].value.Object? && Precedes(rest[i].value.entries, a[1..], b[1..]));
    assert entries[i + 1] == rest[i] && entries[j + 1] == rest[j];
  }

  lemma PrecedesWithin(entries: seq<Entry>, a: Parts, b: Parts)
    requires entries != [] && a != [] && b != [] && a[0] == b[0] == entries[0].key && entries[0].value.Object?
    requires Precedes(entries[0].value.entries, a[1..], b[1..])
    ensures Precedes(entries, a, b)
  {
  }

  lemma PrecedesAcross(entries: seq<Entry>, a: Parts, b: Parts)
    requires entries != [] && a != [] && b != [] && a[0] == entries[0].key && b[0] in KeysOf(entries[1..])
    ensures Precedes(entries, a, b)
  {
    var e :| e in entries[1..] && e.key == b[0];
    var j :| 0 <= j < |entries[1..]| && entries[1..][j] == e;
    assert entries[j + 1] == e && entries[0].key == a[0];
  }

  // ------------------------------------------------------------------ the string leaves

  lemma {:induction false} PathsAtAre(entry: Entry, p: KeyPath)
    ensures p in PathsAt(entry) <==> p.keys != [] && EntryLeads(entry, p.keys, Leaf(p.text))
    decreases entry
  {
    match entry.value
    case Leaf(text) =>
      if p.keys == [entry.key] && p.text == text { assert PathsAt(entry)[0] == p; }
    case Other =>
    case Object(entries) =>
      var inner := Paths(entries);
      if p.keys != [] {
        PathsAre(entries, KeyPath(p.keys[1..], p.text));
        assert p.keys == [p.keys[0]] + p.keys[1..];
      }
      if p in Under(entry.key, inner) {
        var i :| 0 <= i < |inner| && Under(entry.key, inner)[i] == p;
        assert p.keys[1..] == inner[i].keys && inner[i] in inner;
      }
      if p.keys != [] && p.keys[0] == entry.key && KeyPath(p.keys[1..], p.text) in inner {
        var i :| 0 <= i < |inner| && inner[i] == KeyPath(p.keys[1..], p.text);
        assert Under(entry.key, inner)[i] == p;
      }
  }

  /** The listed paths are exactly the places of strings. */
  lemma {:induction false} PathsAre(entries: seq<Entry>, p: KeyPath)
    ensures p in Paths(entries) <==> ValueAt(entries, p.keys, Leaf(p.text))
    decreases entries
  {
    if entries != [] {
      PathsAtAre(entries[0], p);
      PathsAre(entries[1..], p);
      hide ValueAt, EntryLeads, PathsAt;
      if p.keys != [] {
        ValueAtFirst(entries, p.keys, Leaf(p.text));
      } else {
        assert p !in Paths(entries);
      }
    }
  }

  lemma FirstKeyIsThere(entries: seq<Entry>, keys: Parts, value: Value)
    requires ValueAt(entries, keys, value)
    ensures keys != [] && keys[0] in KeysOf(entries)
  {
  }

  lemma {:induction false} UnderInOrder(entry: Entry, i: nat, j: nat, entries: seq<Entry>)
    requires entries != [] && entries[0] == entry && i < j < |PathsAt(entry)|
    ensures Precedes(entries, PathsAt(entry)[i].keys, PathsAt(entry)[j].keys)
    decreases entry
  {
    var inner := Paths(entry.value.entries);
    PathsInOrder(entry.value.entries, i, j);
    var a, b := PathsAt(entry)[i].keys, PathsAt(entry)[j].keys;
    assert a[1..] == inner[i].keys && b[1..] == inner[j].keys;
    PrecedesWithin(entries, a, b);
  }

  /** And they are listed in the order of the tree. */
  lemma {:induction false} PathsInOrder(entries: seq<Entry>, i: nat, j: nat)
    requires i < j < |Paths(entries)|
    ensures Precedes(entries, Paths(entries)[i].keys, Paths(entries)[j].keys)
    decreases entries
  {
    var first, rest := PathsAt(entries[0]), Paths(entries[1..]);
    var a, b := Paths(entries)[i], Paths(entries)[j];
    hide Precedes;
    if j < |first| {
      UnderInOrder(entries[0], i, j, entries);
    } else if i >= |first| {
      PathsInOrder(entries[1..], i - |first|, j - |first|);
      PrecedesLater(entries, a.keys, b.keys);
    } else {
      assert a == first[i] && a in first && b == rest[j - |first|] && b in rest;
      PathsAre(entries[1..], b);
      FirstKeyIsThere(entries[1..], b.keys, Leaf(b.text));
      PrecedesAcross(entries, a.keys, b.keys);
    }
  }

  // ------------------------------------------------------------------ the rejected value

  /** The first place that holds neither a string nor an object. */
  ghost predicate FirstProblem(entries: seq<Entry>, keys: Parts) {
    && ValueAt(entries, keys, Other)
    && forall others | ValueAt(entries, others, Other) :: others == keys || Precedes(entries, keys, others)
  }

  ghost predicate NoProblemWithin(entries: seq<Entry>) { forall keys :: !ValueAt(entries, keys, Other) }

  lemma ProblemHere(entries: seq<Entry>)
    requires entries != [] && entries[0].value.Other? && entries[0].key !in KeysOf(entries[1..])
    ensures FirstProblem(entries, [entries[0].key])
  {
    var keys := [entries[0].key];
    assert EntryLeads(entries[0], keys, Other);
    forall others | ValueAt(entries, others, Other) ensures others == keys || Precedes(entries, keys, others) {
      ValueAtFirst(entries, others, Other);
      if EntryLeads(entries[0], others, Other) {
        assert others == keys;
      } else {
        FirstKeyIsThere(entries[1..], others, Other);
        PrecedesAcross(entries, keys, others);
      }
    }
  }

  lemma ProblemWithin(entries: seq<Entry>, inner: Parts)
    requires entries != [] && entries[0].value.Object? && FirstProblem(entries[0].value.entries, inner)
    ensures FirstProblem(entries, [entries[0].key] + inner)
  {
    var keys := [entries[0].key] + inner;
    FirstKeyIsThere(entries[0].value.entries, inner, Other);
    assert keys[1..] == inner && EntryLeads(entries[0], keys, Other);
    forall others | ValueAt(entries, others, Other) ensures others == keys || Precedes(entries, keys, others) {
      ValueAtFirst(entries, others, Other);
      if EntryLeads(entries[0], others, Other) {
        assert others == [others[0]] + others[1..];
        if others[1..] != inner { PrecedesWithin(entries, keys, others); }
      } else {
        FirstKeyIsThere(entries[1..], others, Other);
        PrecedesAcross(entries, keys, others);
      }
    }
  }

  lemma ProblemLater(entries: seq<Entry>, keys: Parts)
    requires entries != [] && FirstProblem(entries[1..], keys)
    requires forall others :: others != [] ==> !EntryLeads(entries[0], others, Other)
    ensures FirstProblem(entries, keys)
  {
    ValueAtFirst(entries, keys, Other);
    forall others | ValueAt(entries, others, Other) ensures others == keys || Precedes(entries, keys, others) {
      ValueAtFirst(entries, others, Other);
      if others != keys { PrecedesLater(entries, keys, others); }
    }
  }

  lemma NoProblemHere(entry: Entry)
    requires entry.value.Leaf? || (entry.value.Object? && NoProblemWithin(entry.value.entries))
    ensures forall others :: others != [] ==> !EntryLeads(entry, others, Other)
  {
  }

  lemma NoProblemLater(entries: seq<Entry>)
    requires entries != [] ==> NoProblemWithin(entries[1..])
    requires entries != [] ==> forall others :: others != [] ==> !EntryLeads(entries[0], others, Other)
    ensures NoProblemWithin(entries)
  {
    forall keys ensures !ValueAt(entries, keys, Other) {
      if entries != [] && keys != [] { ValueAtFirst(entries, keys, Other); }
    }
  }

  /** Flattening is rejected for the first place that holds neither a string nor an object, if there is one. */
  lemma {:induction false} ProblemIsFirst(entries: seq<Entry>, above: Parts) returns (keys: Parts)
    requires Tidy(entries) && Named(above)
    ensures match Problem(entries, PathText(above))
            case None => NoProblemWithin(entries)
            case Some(path) => keys != [] && path == JoinDots(above + keys) && FirstProblem(entries, keys)
    decreases entries
  {
    hide JoinDots, FirstProblem, NoProblemWithin, FullKey, PathText, Named, KeysOf, EntryLeads;
    keys := [];
    if entries == [] {
      NoProblemLater(entries);
    } else {
      var entry := entries[0];
      var here := above + [entry.key];
      NameIt(above, entry.key);
      if entry.value.Other? {
        keys := [entry.key];
        assert ProblemAt(entry.value, FullKey(PathText(above), entry.key)) == Some(JoinDots(here));
        assert above + keys == here;
        ProblemHere(entries);
      } else {
        var inner: Parts := [];
        if entry.value.Object? { inner := ProblemIsFirst(entry.value.entries, here); }
        if ProblemAt(entry.value, FullKey(PathText(above), entry.key)).Some? {
          keys := [entry.key] + inner;
          assert here + inner == above + keys;
          ProblemWithin(entries, inner);
        } else {
          NoProblemHere(entry);
          keys := ProblemIsFirst(entries[1..], above);
          if Problem(entries[1..], PathText(above)).Some? {
            ProblemLater(entries, keys);
          } else {
            NoProblemLater(entries);
          }
        }
      }
    }
  }

  lemma NameIt(above: Parts, key: string)
    requires Named(above) && key != ""
    ensures Named(above + [key]) && FullKey(PathText(above), key) == PathText(above + [key]) == JoinDots(above + [key])
  {
    FullKeyIsJoined(above, key);
  }

  // ------------------------------------------------------------------ what setting one key after another leaves

  /** The last setting of this key. */
  ghost predicate LastSet(sets: seq<Flat>, f: Flat) {
    exists k :: 0 <= k < |sets| && sets[k] == f && forall m :: k < m < |sets| ==> sets[m].path != f.path
  }

  /** The key `a` was set before `b` was for the first time. */
  ghost predicate SetBefore(sets: seq<Flat>, a: string, b: string) {
    exists k :: 0 <= k < |sets| && sets[k].path == a && forall m :: 0 <= m <= k ==> sets[m].path != b
  }

  ghost predicate HasPath(flats: seq<Flat>, path: string) {
    exists i :: 0 <= i < |flats| && flats[i].path == path
  }

  /** Every key that was set is listed with its last text, in the order of the first settings. */
  ghost predicate Remembers(flats: seq<Flat>, sets: seq<Flat>) {
    && (forall i :: 0 <= i < |flats| ==> LastSet(sets, flats[i]))
    && (forall k :: 0 <= k < |sets| ==> HasPath(flats, sets[k].path))
    && (forall i, j :: 0 <= i < j < |flats| ==> SetBefore(sets, flats[i].path, flats[j].path))
  }

  lemma {:induction false} PutAgain(flats: seq<Flat>, path: string, text: string, i: nat)
    requires i < |flats| && flats[i].path == path && forall j :: 0 <= j < i ==> flats[j].path != path
    ensures Put(flats, path, text) == flats[i := Flat(path, text)]
  {
    if i > 0 {
      assert flats[0].path != path;
      PutAgain(flats[1..], path, text, i - 1);
    }
  }

  lemma PutDecides(flats: seq<Flat>, path: string, text: string)
    ensures var r := Put(flats, path, text);
            if HasPath(flats, path)
            then exists i :: 0 <= i < |flats| && flats[i].path == path && r == flats[i := Flat(path, text)]
            else r == flats + [Flat(path, text)]
  {
    if HasPath(flats, path) {
      var i := FirstPath(flats, path);
      PutAgain(flats, path, text, i);
      assert flats[i].path == path;
    } else {
      PutNew(flats, path, text);
    }
  }

  lemma FirstPath(flats: seq<Flat>, path: string) returns (i: nat)
    requires HasPath(flats, path)
    ensures i < |flats| && flats[i].path == path && forall j :: 0 <= j < i ==> flats[j].path != path
  {
    var k :| 0 <= k < |flats| && flats[k].path == path;
    i := 0;
    while flats[i].path != path
      invariant i <= k && forall j :: 0 <= j < i ==> flats[j].path != path
      decreases k - i
    {
      i := i + 1;
    }
  }

  lemma SetBeforeStays(sets: seq<Flat>, f: Flat, a: string, b: string)
    requires SetBefore(sets, a, b)
    ensures SetBefore(sets + [f], a, b)
  {
    var k :| 0 <= k < |sets| && sets[k].path == a && forall m :: 0 <= m <= k ==> sets[m].path != b;
    assert (sets + [f])[k].path == a;
  }

  lemma LastSetStays(sets: seq<Flat>, f: Flat, g: Flat)
    requires LastSet(sets, g) && g.path != f.path
    ensures LastSet(sets + [f], g)
  {
    var k :| 0 <= k < |sets| && sets[k] == g && forall m :: k < m < |sets| ==> sets[m].path != g.path;
    assert (sets + [f])[k] == g;
  }

  lemma LastSetNow(sets: seq<Flat>, f: Flat)
    ensures LastSet(sets + [f], f)
  {
    assert (sets + [f])[|sets|] == f;
  }

  lemma SetBeforeNow(sets: seq<Flat>, flats: seq<Flat>, i: nat, f: Flat)
    requires Remembers(flats, sets) && i < |flats| && !HasPath(flats, f.path)
    ensures SetBefore(sets + [f], flats[i].path, f.path)
  {
    assert LastSet(sets, flats[i]);
    var k :| 0 <= k < |sets| && sets[k] == flats[i];
    assert (sets + [f])[k] == sets[k];
    assert forall m :: 0 <= m <= k ==> HasPath(flats, sets[m].path);
  }

  lemma SetBeforeOthers(sets: seq<Flat>, a: string, b: string)
    requires SetBefore(sets, a, b)
    ensures a != b
  {
  }

  lemma PathsStay(flats: seq<Flat>, f: Flat, i: nat, path: string)
    requires i < |flats| && flats[i].path == f.path && (HasPath(flats, path) || path == f.path)
    ensures HasPath(flats[i := f], path)
  {
    var after := flats[i := f];
    if path == f.path {
      assert after[i].path == path;
    } else {
      var j :| 0 <= j < |flats| && flats[j].path == path;
      assert after[j].path == path;
    }
  }

  lemma RemembersAgain(flats: seq<Flat>, sets: seq<Flat>, f: Flat, i: nat)
    requires Remembers(flats, sets) && i < |flats| && flats[i].path == f.path
    ensures Remembers(flats[i := f], sets + [f])
  {
    var after := flats[i := f];
    hide LastSet, SetBefore, HasPath;
    forall j | 0 <= j < |after| ensures LastSet(sets + [f], after[j]) {
      if j == i {
        LastSetNow(sets, f);
      } else {
        if i < j { SetBeforeOthers(sets, flats[i].path, flats[j].path); }
        if j < i { SetBeforeOthers(sets, flats[j].path, flats[i].path); }
        LastSetStays(sets, f, flats[j]);
      }
    }
    forall k | 0 <= k < |sets + [f]| ensures HasPath(after, (sets + [f])[k].path) {
      PathsStay(flats, f, i, (sets + [f])[k].path);
    }
    forall j, m | 0 <= j < m < |after| ensures SetBefore(sets + [f], after[j].path, after[m].path) {
      SetBeforeStays(sets, f, flats[j].path, flats[m].path);
    }
  }

  lemma RemembersNew(flats: seq<Flat>, sets: seq<Flat>, f: Flat)
    requires Remembers(flats, sets) && !HasPath(flats, f.path)
    ensures Remembers(flats + [f], sets + [f])
  {
    var after := flats + [f];
    forall j | 0 <= j < |after| ensures LastSet(sets + [f], after[j]) {
      if j == |flats| { LastSetNow(sets, f); } else { LastSetStays(sets, f, flats[j]); }
    }
    forall k | 0 <= k < |sets + [f]| ensures HasPath(after, (sets + [f])[k].path) {
      if k == |sets| {
        assert after[|flats|].path == f.path;
      } else {
        assert HasPath(flats, sets[k].path);
        var j :| 0 <= j < |flats| && flats[j].path == sets[k].path;
        assert after[j].path == sets[k].path;
      }
    }
    forall j, m | 0 <= j < m < |after| ensures SetBefore(sets + [f], after[j].path, after[m].path) {
      if m == |flats| {
        SetBeforeNow(sets, flats, j, f);
      } else {
        SetBeforeStays(sets, f, flats[j].path, flats[m].path);
      }
    }
  }

  /** Keys that are set more than once keep their first place and take their last text. */
  lemma {:induction false} PutAllRemembers(sets: seq<Flat>)
    ensures Remembers(PutAll([], sets), sets)
    decreases |sets|
  {
    if sets != [] {
      var n := |sets| - 1;
      var before, f := PutAll([], sets[..n]), sets[n];
      PutAllRemembers(sets[..n]);
      assert sets == sets[..n] + [f];
      PutAllAppend([], sets[..n], [f]);
      PutDecides(before, f.path, f.text);
      hide Remembers, Put;
      if HasPath(before, f.path) {
        var i :| 0 <= i < |before| && before[i].path == f.path && PutAll([], sets) == before[i := f];
        RemembersAgain(before, sets[..n], f, i);
      } else {
        RemembersNew(before, sets[..n], f);
      }
    }
  }
}
