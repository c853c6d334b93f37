/** Flattening a nested translation catalog into dotted keys (`flattenControlUiCatalog`). */
module CatalogFlatten {
  import opened Dotted
  import opened Wrappers

  /** `Other` is everything that is neither a string nor an object with properties: null, arrays, numbers and so on. */
  datatype Value = Leaf(text: string) | Object(entries: seq<Entry>) | Other

  /** A property, in the order in which `Object.entries` lists them. */
  datatype Entry = Entry(key: string, value: Value)

  /** An entry of the flat map, which keeps its entries in the order of their first insertion. */
  datatype Flat = Flat(path: string, text: string)

  // ------------------------------------------------------------------ the flat map

  function Put(flats: seq<Flat>, path: string, text: string): seq<Flat> {
    if flats == [] then [Flat(path, text)]
    else if flats[0].path == path then [Flat(path, text)] + flats[1..]
    else [flats[0]] + Put(flats[1..], path, text)
  }

  function PutAll(flats: seq<Flat>, more: seq<Flat>): seq<Flat>
    decreases more
  {
    if more == [] then flats else PutAll(Put(flats, more[0].path, more[0].text), more[1..])
  }

  ghost predicate Unique(flats: seq<Flat>) {
    forall i, j :: 0 <= i < j < |flats| ==> flats[i].path != flats[j].path
  }

  lemma {:induction false} PutNew(flats: seq<Flat>, path: string, text: string)
    requires forall f | f in flats :: f.path != path
    ensures Put(flats, path, text) == flats + [Flat(path, text)]
  {
    if flats != [] {
      assert flats[0] in flats;
      PutNew(flats[1..], path, text);
      assert flats == [flats[0]] + flats[1..];
    }
  }

  lemma {:induction false} PutAllNew(flats: seq<Flat>, more: seq<Flat>)
    requires Unique(flats + more)
    ensures PutAll(flats, more) == flats + more
    decreases more
  {
    if more == [] {
      assert flats + more == flats;
    } else {
      var all := flats + more;
      forall f | f in flats ensures f.path != more[0].path {
        var i :| 0 <= i < |flats| && flats[i] == f;
        assert all[i] == f && all[|flats|] == more[0];
      }
      PutNew(flats, more[0].path, more[0].text);
      assert flats + [more[0]] + more[1..] == all;
      PutAllNew(flats + [more[0]], more[1..]);
    }
  }

  lemma {:induction false} PutAllAppend(flats: seq<Flat>, a: seq<Flat>, b: seq<Flat>)
    ensures PutAll(flats, a + b) == PutAll(PutAll(flats, a), b)
    decreases a
  {
    if a == [] {
      assert a + b == b;
    } else {
      assert (a + b)[1..] == a[1..] + b;
      PutAllAppend(Put(flats, a[0].path, a[0].text), a[1..], b);
    }
  }

  // ------------------------------------------------------------------ the recursion

  function FullKey(prefix: string, key: string): string {
    if prefix != "" then prefix + "." + key else key
  }

  /** The string leaves in the order in which they are met, under their dotted keys. */
  function Leaves(entries: seq<Entry>, prefix: string): seq<Flat>
    decreases entries
  {
    if entries == [] then []
    else LeavesAt(entries[0].value, FullKey(prefix, entries[0].key)) + Leaves(entries[1..], prefix)
  }

  function LeavesAt(value: Value, path: string): seq<Flat>
    decreases value
  {
    match value
    case Leaf(text) => [Flat(path, text)]
    case Object(entries) => Leaves(entries, path)
    case Other => []
  }

  /** The dotted key of the first property, in the order met, that is neither a string nor an object. */
  function Problem(entries: seq<Entry>, prefix: string): Option<string>
    decreases entries
  {
    if entries == [] then None
    else
      var first := ProblemAt(entries[0].value, FullKey(prefix, entries[0].key));
      if first.Some? then first else Problem(entries[1..], prefix)
  }

  function ProblemAt(value: Value, path: string): Option<string>
    decreases value
  {
    match value
    case Leaf(_) => None
    case Object(entries) => Problem(entries, path)
    case Other => Some(path)
  }

  class FlatMap {
    var flats: seq<Flat>

    constructor ()
      ensures flats == []
    {
      flats := [];
    }

    method Set(path: string, text: string)
      modifies this
      ensures flats == Put(old(flats), path, text)
    {
      flats := Put(flats, path, text);
    }
  }

  /** `Some` is the dotted key that the thrown error names; what was written before the throw stays. */
  method FlattenControlUiCatalog(value: Value, prefix: string, out: FlatMap) returns (error: Option<string>)
    modifies out
    ensures value.Object? ==> error == Problem(value.entries, prefix)
    ensures !value.Object? ==> error == Some(prefix)
    ensures error == None ==> value.Object? && out.flats == PutAll(old(out.flats), Leaves(value.entries, prefix))
    decreases value
  {
    if !value.Object? {
      return Some(prefix);
    }
    var entries := value.entries;
    for i := 0 to |entries|
      invariant Problem(entries[i..], prefix) == Problem(entries, prefix)
      invariant PutAll(out.flats, Leaves(entries[i..], prefix)) == PutAll(old(out.flats), Leaves(entries, prefix))
    {
      var fullKey := FullKey(prefix, entries[i].key);
      var nested := entries[i].value;
      assert entries[i..][0] == entries[i] && entries[i..][1..] == entries[i + 1..];
      PutAllAppend(out.flats, LeavesAt(nested, fullKey), Leaves(entries[i + 1..], prefix));
      if nested.Leaf? {
        out.Set(fullKey, nested.text);
      } else if !nested.Object? {
        return Some(fullKey);
      } else {
        var problem := FlattenControlUiCatalog(nested, fullKey, out);
        if problem.Some? {
          return problem;
        }
      }
    }
    return None;
  }

  // ------------------------------------------------------------------ the tree behind the flat keys

  /** A string leaf and the keys that lead to it. */
  datatype KeyPath = KeyPath(keys: Parts, text: string)

  function Paths(entries: seq<Entry>): (paths: seq<KeyPath>)
    ensures forall p | p in paths :: p.keys != []
    decreases entries
  {
    if entries == [] then [] else PathsAt(entries[0]) + Paths(entries[1..])
  }

  function PathsAt(entry: Entry): (paths: seq<KeyPath>)
    ensures forall p | p in paths :: p.keys != [] && p.keys[0] == entry.key
    decreases entry
  {
    match entry.value
    case Leaf(text) => [KeyPath([entry.key], text)]
    case Object(entries) => Under(entry.key, Paths(entries))
    case Other => []
  }

  function Under(key: string, paths: seq<KeyPath>): (r: seq<KeyPath>)
    ensures |r| == |paths|
    ensures forall i :: 0 <= i < |r| ==> r[i] == KeyPath([key] + paths[i].keys, paths[i].text)
  {
    seq(|paths|, i requires 0 <= i < |paths| => KeyPath([key] + paths[i].keys, paths[i].text))
  }

  function KeysOf(entries: seq<Entry>): set<string> { set e | e in entries :: e.key }

  lemma KeysOfHead(entries: seq<Entry>)
    requires entries != []
    ensures KeysOf(entries) == {entries[0].key} + KeysOf(entries[1..])
  {
    assert forall e | e in entries :: e == entries[0] || e in entries[1..];
    assert entries[0] in entries;
  }

  /** Every key is a non-empty segment without a dot, and no object has a key twice. */
  ghost predicate Tidy(entries: seq<Entry>)
    decreases entries
  {
    entries == []
    || (&& entries[0].key != "" && '.' !in entries[0].key && entries[0].key !in KeysOf(entries[1..])
        && (entries[0].value.Object? ==> Tidy(entries[0].value.entries))
        && Tidy(entries[1..]))
  }

  /** No object without properties, and nothing that flattening rejects, at any depth. */
  ghost predicate Full(entries: seq<Entry>)
    decreases entries
  {
    entries == []
    || (&& !entries[0].value.Other?
        && (entries[0].value.Object? ==> entries[0].value.entries != [] && Full(entries[0].value.entries))
        && Full(entries[1..]))
  }

  /** The tree without its empty objects; what flattening rejects is kept. */
  function Prune(entries: seq<Entry>): seq<Entry>
    decreases entries
  {
    if entries == [] then [] else PruneEntry(entries[0]) + Prune(entries[1..])
  }

  function PruneEntry(entry: Entry): (r: seq<Entry>)
    ensures r == [] || (|r| == 1 && r[0].key == entry.key)
    decreases entry
  {
    match entry.value
    case Leaf(_) => [entry]
    case Object(entries) => var inner := Prune(entries); if inner == [] then [] else [Entry(entry.key, Object(inner))]
    case Other => [entry]
  }

  // ------------------------------------------------------------------ the flat keys are the joined paths

  function PathText(keys: Parts): string { if keys == [] then "" else JoinDots(keys) }

  function Joined(above: Parts, paths: seq<KeyPath>): (r: seq<Flat>)
    requires forall p | p in paths :: p.keys != []
    ensures |r| == |paths|
    ensures forall i :: 0 <= i < |r| ==> r[i] == Flat(JoinDots(above + paths[i].keys), paths[i].text)
  {
    seq(|paths|, i requires 0 <= i < |paths| => Flat(JoinDots(above + paths[i].keys), paths[i].text))
  }

  lemma {:induction false} JoinLast(keys: Parts, key: string)
    requires keys != []
    ensures JoinDots(keys + [key]) == JoinDots(keys) + "." + key
  {
    if |keys| > 1 {
      JoinLast(keys[1..], key);
      assert (keys + [key])[1..] == keys[1..] + [key];
    } else {
      assert (keys + [key])[1..] == [key];
    }
  }

  /** The names of the objects around a property, none of them empty: an empty prefix would pass for a missing one. */
  ghost predicate Named(above: Parts) { forall k | k in above :: k != "" }

  lemma FullKeyIsJoined(above: Parts, key: string)
    requires Named(above)
    ensures FullKey(PathText(above), key) == PathText(above + [key])
  {
    if above != [] {
      JoinLast(above, key);
      assert above[0] in above;
    }
  }

  lemma JoinedUnder(above: Parts, key: string, paths: seq<KeyPath>)
    requires forall p | p in paths :: p.keys != []
    ensures Joined(above, Under(key, paths)) == Joined(above + [key], paths)
  {
    forall i | 0 <= i < |paths| ensures Joined(above, Under(key, paths))[i] == Joined(above + [key], paths)[i] {
      assert above + ([key] + paths[i].keys) == above + [key] + paths[i].keys;
    }
  }

  lemma JoinedAppend(above: Parts, p: seq<KeyPath>, q: seq<KeyPath>)
    requires forall x | x in p + q :: x.keys != []
    ensures (forall x | x in p :: x.keys != []) && (forall x | x in q :: x.keys != [])
    ensures Joined(above, p + q) == Joined(above, p) + Joined(above, q)
  {
    assert forall x | x in p :: x in p + q;
    assert forall x | x in q :: x in p + q;
  }

  lemma {:induction false} LeavesAreJoined(entries: seq<Entry>, above: Parts)
    requires Tidy(entries) && Named(above)
    ensures Leaves(entries, PathText(above)) == Joined(above, Paths(entries))
    decreases entries
  {
    hide Joined, PathText, FullKey, Named;
    if entries != [] {
      LeavesAtAreJoined(entries[0], above);
      LeavesAreJoined(entries[1..], above);
      JoinedAppend(above, PathsAt(entries[0]), Paths(entries[1..]));
    }
  }

  lemma {:induction false} LeavesAtAreJoined(entry: Entry, above: Parts)
    requires Named(above) && entry.key != "" && (entry.value.Object? ==> Tidy(entry.value.entries))
    ensures LeavesAt(entry.value, FullKey(PathText(above), entry.key)) == Joined(above, PathsAt(entry))
    decreases entry
  {
    FullKeyIsJoined(above, entry.key);
    assert Named(above + [entry.key]);
    assert PathText(above + [entry.key]) == JoinDots(above + [entry.key]);
    hide PathText, FullKey, Named, Tidy, JoinDots;
    if entry.value.Object? {
      hide Joined;
      LeavesAreJoined(entry.value.entries, above + [entry.key]);
      JoinedUnder(above, entry.key, Paths(entry.value.entries));
    }
  }

  lemma {:induction false} PathsAreDotFree(entries: seq<Entry>)
    requires Tidy(entries)
    ensures forall p | p in Paths(entries) :: DotFree(p.keys) && p.keys[0] in KeysOf(entries)
    decreases entries
  {
    if entries != [] {
      var entry := entries[0];
      assert entry in entries;
      if entry.value.Object? {
        PathsAreDotFree(entry.value.entries);
        forall p | p in PathsAt(entry) ensures DotFree(p.keys) {
          var inner := Paths(entry.value.entries);
          var i :| 0 <= i < |inner| && p == KeyPath([entry.key] + inner[i].keys, inner[i].text);
          assert inner[i] in inner;
        }
      }
      PathsAreDotFree(entries[1..]);
      KeysOfHead(entries);
    }
  }

  ghost predicate UniquePaths(paths: seq<KeyPath>) {
    forall i, j :: 0 <= i < j < |paths| ==> paths[i].keys != paths[j].keys
  }

  lemma {:induction false} PathsAreUnique(entries: seq<Entry>)
    requires Tidy(entries)
    ensures UniquePaths(Paths(entries))
    decreases entries
  {
    if entries != [] {
      var entry := entries[0];
      var head, rest := PathsAt(entry), Paths(entries[1..]);
      if entry.value.Object? {
        var inner := Paths(entry.value.entries);
        PathsAreUnique(entry.value.entries);
        forall i, j | 0 <= i < j < |head| ensures head[i].keys != head[j].keys {
          assert head[i].keys[1..] == inner[i].keys && head[j].keys[1..] == inner[j].keys;
        }
      }
      PathsAreUnique(entries[1..]);
      PathsAreDotFree(entries[1..]);
      forall i, j | 0 <= i < |head| && 0 <= j < |rest| ensures head[i].keys != rest[j].keys {
        assert head[i] in head && rest[j] in rest;
      }
    }
  }

  lemma JoinedAreUnique(paths: seq<KeyPath>)
    requires UniquePaths(paths) && forall p | p in paths :: p.keys != [] && DotFree(p.keys)
    ensures Unique(Joined([], paths))
  {
    hide DotFree;
    var flats := Joined([], paths);
    forall i, j | 0 <= i < j < |flats| ensures flats[i].path != flats[j].path {
      assert paths[i] in paths && paths[j] in paths;
      SameText(paths[i].keys, paths[j].keys);
    }
  }

  lemma PutAllIntoEmpty(flats: seq<Flat>)
    requires Unique(flats)
    ensures PutAll([], flats) == flats
  {
    hide *;
    assert [] + flats == flats;
    PutAllNew([], flats);
  }

  /** Flattening lists every string leaf once, in the order of the tree, under its keys joined by dots. */
  lemma FlatteningListsTheLeaves(entries: seq<Entry>)
    requires Tidy(entries)
    ensures PutAll([], Leaves(entries, "")) == Joined([], Paths(entries))
    ensures UniquePaths(Paths(entries)) && Unique(Joined([], Paths(entries)))
  {
    assert PathText([]) == "" && Named([]);
    hide *;
    LeavesAreJoined(entries, []);
    PathsAreUnique(entries);
    PathsAreDotFree(entries);
    JoinedAreUnique(Paths(entries));
    PutAllIntoEmpty(Joined([], Paths(entries)));
  }

  lemma SameText(a: Parts, b: Parts)
    requires DotFree(a) && DotFree(b)
    ensures JoinDots([] + a) == JoinDots([] + b) <==> a == b
  {
    assert [] + a == a && [] + b == b;
    SplitJoin(a);
    SplitJoin(b);
  }

  // ------------------------------------------------------------------ when flattening succeeds

  ghost predicate OnlyTextAndObjects(entries: seq<Entry>)
    decreases entries
  {
    forall e | e in entries :: !e.value.Other? && (e.value.Object? ==> OnlyTextAndObjects(e.value.entries))
  }

  /** Flattening succeeds exactly on trees of strings and objects. */
  lemma {:induction false} NoProblemIff(entries: seq<Entry>, prefix: string)
    ensures Problem(entries, prefix) == None <==> OnlyTextAndObjects(entries)
    decreases entries
  {
    if entries != [] {
      var entry := entries[0];
      if entry.value.Object? {
        NoProblemIff(entry.value.entries, FullKey(prefix, entry.key));
      }
      NoProblemIff(entries[1..], prefix);
      assert forall e :: e in entries <==> e == entry || e in entries[1..];
    }
  }

  // ------------------------------------------------------------------ which trees flatten alike

  lemma {:induction false} PruneKeepsPaths(entries: seq<Entry>)
    ensures Paths(Prune(entries)) == Paths(entries)
    decreases entries
  {
    if entries != [] {
      var entry := entries[0];
      var first, rest := PruneEntry(entry), Prune(entries[1..]);
      PruneKeepsPaths(entries[1..]);
      if entry.value.Object? {
        PruneKeepsPaths(entry.value.entries);
      }
      if first == [] {
        assert first + rest == rest;
      } else {
        assert (first + rest)[0] == first[0] && (first + rest)[1..] == rest;
      }
    }
  }

  lemma {:induction false} PruneIsFull(entries: seq<Entry>)
    requires Tidy(entries) && OnlyTextAndObjects(entries)
    ensures Full(Prune(entries)) && Tidy(Prune(entries)) && KeysOf(Prune(entries)) <= KeysOf(entries)
    decreases entries
  {
    if entries != [] {
      var entry := entries[0];
      var first, rest := PruneEntry(entry), Prune(entries[1..]);
      assert entry in entries;
      PruneIsFull(entries[1..]);
      if entry.value.Object? {
        PruneIsFull(entry.value.entries);
      }
      KeysOfHead(entries);
      hide KeysOf;
      if first == [] {
        assert first + rest == rest;
      } else {
        assert (first + rest)[0] == first[0] && (first + rest)[1..] == rest;
        KeysOfHead(first + rest);
      }
    }
  }

  lemma {:induction false} FullHasPaths(entries: seq<Entry>)
    requires Full(entries) && entries != []
    ensures Paths(entries) != [] && PathsAt(entries[0]) != []
    decreases entries
  {
    if entries[0].value.Object? { FullHasPaths(entries[0].value.entries); }
  }

  /** The paths under the first key are told apart from the later ones by that key. */
  lemma FirstGroup(v: seq<Entry>, w: seq<Entry>)
    requires v != [] && w != [] && Tidy(v) && Tidy(w) && Full(v) && Full(w) && Paths(v) == Paths(w)
    ensures v[0].key == w[0].key && PathsAt(v[0]) == PathsAt(w[0]) && Paths(v[1..]) == Paths(w[1..])
  {
    var a, b := PathsAt(v[0]), PathsAt(w[0]);
    var a', b' := Paths(v[1..]), Paths(w[1..]);
    FullHasPaths(v);
    FullHasPaths(w);
    assert a[0] in a && b[0] in b && (a + a')[0] == (b + b')[0];
    GroupsEnd(a, a', b, b', v[0].key, v[1..]);
    GroupsEnd(b, b', a, a', w[0].key, w[1..]);
    assert a == (a + a')[..|a|] && b == (b + b')[..|b|];
    assert a' == (a + a')[|a|..] && b' == (b + b')[|b|..];
  }

  lemma GroupsEnd(a: seq<KeyPath>, a': seq<KeyPath>, b: seq<KeyPath>, b': seq<KeyPath>, key: string, later: seq<Entry>)
    requires a + a' == b + b' && a' == Paths(later) && Tidy(later) && key !in KeysOf(later)
    requires forall p | p in b :: p.keys != [] && p.keys[0] == key
    ensures |b| <= |a|
  {
    PathsAreDotFree(later);
    assert a' != [] ==> a'[0] in a' && (b + b')[|a|] == a'[0] && a'[0].keys[0] != key;
    assert forall i :: 0 <= i < |b| ==> b[i] in b && (b + b')[i].keys[0] == key;
    assert |a + a'| == |b + b'|;
  }

  lemma LengthTellsObjects(entries: seq<Entry>)
    requires Full(entries) && entries != []
    ensures PathsAt(entries[0]) != []
    ensures entries[0].value.Object? <==> |PathsAt(entries[0])[0].keys| > 1
  {
    FullHasPaths(entries);
    if entries[0].value.Object? {
      FullHasPaths(entries[0].value.entries);
      assert Paths(entries[0].value.entries)[0] in Paths(entries[0].value.entries);
    }
  }

  lemma {:induction false} PathsDetermineTree(v: seq<Entry>, w: seq<Entry>)
    requires Tidy(v) && Tidy(w) && Full(v) && Full(w) && Paths(v) == Paths(w)
    ensures v == w
    decreases v
  {
    if v == [] {
      if w != [] { FullHasPaths(w); }
    } else if w == [] {
      FullHasPaths(v);
    } else {
      FirstGroup(v, w);
      PathsDetermineTree(v[1..], w[1..]);
      var x, y := v[0].value, w[0].value;
      LengthTellsObjects(v);
      LengthTellsObjects(w);
      if x.Object? {
        UnderIsInjective(v[0].key, Paths(x.entries), Paths(y.entries));
        PathsDetermineTree(x.entries, y.entries);
      }
      assert v == [v[0]] + v[1..] && w == [w[0]] + w[1..];
    }
  }

  lemma UnderIsInjective(key: string, p: seq<KeyPath>, q: seq<KeyPath>)
    requires Under(key, p) == Under(key, q)
    ensures p == q
  {
    var u := Under(key, p);
    assert |p| == |u| == |q|;
    forall i | 0 <= i < |p| ensures p[i] == q[i] {
      assert u[i].keys[1..] == p[i].keys && u[i].keys[1..] == q[i].keys;
    }
  }

  lemma JoinedIsInjective(p: seq<KeyPath>, q: seq<KeyPath>)
    requires forall x | x in p :: x.keys != [] && DotFree(x.keys)
    requires forall x | x in q :: x.keys != [] && DotFree(x.keys)
    ensures Joined([], p) == Joined([], q) <==> p == q
  {
    if Joined([], p) == Joined([], q) {
      assert |p| == |q|;
      forall i | 0 <= i < |p| ensures p[i] == q[i] {
        assert p[i] in p && q[i] in q && Joined([], p)[i] == Joined([], q)[i];
        SameText(p[i].keys, q[i].keys);
      }
    }
  }

  /** What flattening into a new map comes to: the key that the error names, or the map. */
  datatype Outcome = Thrown(path: string) | Flattened(flats: seq<Flat>)

  function Flatten(entries: seq<Entry>): Outcome {
    match Problem(entries, "")
    case Some(path) => Thrown(path)
    case None => Flattened(PutAll([], Leaves(entries, "")))
  }

  lemma LeavesAlikeIff(v: seq<Entry>, w: seq<Entry>)
    requires Tidy(v) && Tidy(w) && OnlyTextAndObjects(v) && OnlyTextAndObjects(w)
    ensures PutAll([], Leaves(v, "")) == PutAll([], Leaves(w, "")) <==> Prune(v) == Prune(w)
  {
    hide *;
    FlatteningListsTheLeaves(v);
    FlatteningListsTheLeaves(w);
    JoinedPathsAlikeIff(v, w);
    PruneKeepsPaths(v);
    PruneKeepsPaths(w);
    PruneIsFull(v);
    PruneIsFull(w);
    if Paths(v) == Paths(w) {
      PathsDetermineTree(Prune(v), Prune(w));
    }
  }

  lemma JoinedPathsAlikeIff(v: seq<Entry>, w: seq<Entry>)
    requires Tidy(v) && Tidy(w)
    ensures Joined([], Paths(v)) == Joined([], Paths(w)) <==> Paths(v) == Paths(w)
  {
    PathsAreDotFree(v);
    PathsAreDotFree(w);
    hide *;
    JoinedIsInjective(Paths(v), Paths(w));
  }

  /** Accepted trees flatten alike exactly when they are the same but for empty objects; errors agree by their key. */
  lemma FlattenAlikeIff(v: seq<Entry>, w: seq<Entry>)
    requires Tidy(v) && Tidy(w)
    ensures Flatten(v) == Flatten(w) <==>
              if OnlyTextAndObjects(v) && OnlyTextAndObjects(w) then Prune(v) == Prune(w)
              else Problem(v, "") == Problem(w, "")
  {
    NoProblemIff(v, "");
    NoProblemIff(w, "");
    hide Problem, OnlyTextAndObjects, Tidy, Prune, Leaves, PutAll;
    if OnlyTextAndObjects(v) && OnlyTextAndObjects(w) { LeavesAlikeIff(v, w); }
  }

  lemma {:induction false} FullIsPruned(entries: seq<Entry>)
    requires Full(entries)
    ensures Prune(entries) == entries && OnlyTextAndObjects(entries)
    decreases entries
  {
    if entries != [] {
      if entries[0].value.Object? { FullIsPruned(entries[0].value.entries); }
      FullIsPruned(entries[1..]);
      assert entries == [entries[0]] + entries[1..];
    }
  }

  /** Without empty objects, flattening loses nothing. */
  lemma FlattenIsInjective(v: seq<Entry>, w: seq<Entry>)
    requires Tidy(v) && Tidy(w) && Full(v) && Full(w)
    ensures Flatten(v).Flattened? && (Flatten(v) == Flatten(w) <==> v == w)
  {
    FlattenAlikeIff(v, w);
    FullIsPruned(v);
    FullIsPruned(w);
    NoProblemIff(v, "");
    hide Problem, OnlyTextAndObjects, Tidy, Full, Prune, Leaves, PutAll;
  }

  /** `{}` and `{a: {}}` flatten alike, and so do `{"a.b": "x"}` and `{a: {b: "x"}}`. */
  lemma DifferentTreesCanFlattenAlike()
    ensures var v, w := [], [Entry("a", Object([]))];
            v != w && Tidy(v) && Tidy(w) && Flatten(v) == Flatten(w) == Flattened([])
    ensures var v, w := [Entry("a.b", Leaf("x"))], [Entry("a", Object([Entry("b", Leaf("x"))]))];
            v != w && Full(v) && Full(w) && Flatten(v) == Flatten(w) == Flattened([Flat("a.b", "x")])
  {
    var inner := [Entry("b", Leaf("x"))];
    assert FullKey("", "a") == "a" && FullKey("a", "b") == "a.b";
    assert inner[1..] == [] && Leaves(inner, "a") == LeavesAt(Leaf("x"), "a.b") + Leaves([], "a");
    var nested := [Entry("a", Object(inner))];
    assert nested[1..] == [] && Leaves(nested, "") == Leaves(inner, "a") + Leaves([], "");
    assert [Entry("a.b", Leaf("x"))][1..] == [];
    assert [Entry("a", Object([]))][1..] == [];
  }
}
