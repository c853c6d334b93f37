/** The runtime-dependency check of an installed module graph (`collectInstalledPluginSdkZodArtifactErrors`). */
module ImportWorklist {
  import opened Wrappers
  import opened Text

  /** What the file system and the parser say about a path that exists. */
  datatype File = Irregular | Unparsable | Module(specifiers: seq<string>)

  /**
   * The installed package: its existing paths, and the path arithmetic of the resolver.  `candidates` are the
   * paths tried for a specifier, in order; `insideDist` says whether one lies below the dist root.
   */
  datatype Package = Package(files: map<string, File>,
                             candidates: (string, string) -> seq<string>,
                             insideDist: string -> bool)

  datatype Error =
    | MissingArtifact
    | InvalidArtifact(path: string)
    | UnparsableArtifact(path: string)
    | ImportsZod(path: string, specifier: string)

  // ------------------------------------------------------------------ resolving one import

  function FirstUsable(p: Package, paths: seq<string>): (r: Option<string>)
    ensures r.Some? ==> r.value in p.files
  {
    if paths == [] then None
    else if p.insideDist(paths[0]) && paths[0] in p.files then Some(paths[0])
    else FirstUsable(p, paths[1..])
  }

  function Resolve(p: Package, importer: string, specifier: string): (r: Option<string>)
    ensures r.Some? ==> r.value in p.files
  {
    if !StartsWith(specifier, ".") then None else FirstUsable(p, p.candidates(importer, specifier))
  }

  /** A specifier that is not relative is not followed; of another, the first candidate in the dist root that exists. */
  lemma ResolveDecides(p: Package, importer: string, specifier: string)
    ensures var paths := p.candidates(importer, specifier);
            && (forall file :: Resolve(p, importer, specifier) == Some(file) <==>
                  && specifier != "" && specifier[0] == '.'
                  && exists k :: 0 <= k < |paths| && paths[k] == file && FirstThere(p, paths, k))
            && (Resolve(p, importer, specifier) == None <==>
                  specifier == "" || specifier[0] != '.' || forall k :: 0 <= k < |paths| ==> !There(p, paths[k]))
  {
    var paths := p.candidates(importer, specifier);
    assert StartsWith(specifier, ".") <==> specifier != "" && specifier[0] == '.';
    FirstUsableDecides(p, paths);
    hide FirstUsable;
  }

  /** The path lies below the dist root and exists. */
  ghost predicate There(p: Package, path: string) { p.insideDist(path) && path in p.files }

  ghost predicate FirstThere(p: Package, paths: seq<string>, k: nat)
    requires k < |paths|
  {
    There(p, paths[k]) && forall j :: 0 <= j < k ==> !There(p, paths[j])
  }

  lemma {:induction false} FirstUsableDecides(p: Package, paths: seq<string>)
    ensures forall file :: FirstUsable(p, paths) == Some(file) <==>
              exists k :: 0 <= k < |paths| && paths[k] == file && FirstThere(p, paths, k)
    ensures FirstUsable(p, paths) == None <==> forall k :: 0 <= k < |paths| ==> !There(p, paths[k])
  {
    if paths != [] {
      FirstUsableDecides(p, paths[1..]);
      hide FirstUsable;
      forall k: nat | k < |paths| ensures FirstThere(p, paths, k) <==>
          if k == 0 then There(p, paths[0]) else !There(p, paths[0]) && FirstThere(p, paths[1..], k - 1)
      {
        FirstThereNext(p, paths, k);
      }
    }
  }

  lemma FirstThereNext(p: Package, paths: seq<string>, k: nat)
    requires k < |paths|
    ensures FirstThere(p, paths, k) <==>
            if k == 0 then There(p, paths[0]) else !There(p, paths[0]) && FirstThere(p, paths[1..], k - 1)
  {
    assert forall j :: 0 < j < |paths| ==> paths[1..][j - 1] == paths[j];
  }

  predicate IsZod(specifier: string) { specifier == "zod" || StartsWith(specifier, "zod/") }

  /** The package itself, or a path below it. */
  lemma ZodSpecifiers(specifier: string)
    ensures IsZod(specifier) <==> specifier == "zod" || exists path :: specifier == "zod/" + path
  {
    if StartsWith(specifier, "zod/") { assert specifier == "zod/" + specifier[4..]; }
  }

  // ------------------------------------------------------------------ what the check is about

  /** `from` imports `to` through one of its specifiers. */
  ghost predicate Imports(p: Package, from: string, to: string) {
    from in p.files && p.files[from].Module? &&
    exists k :: 0 <= k < |p.files[from].specifiers| && Resolve(p, from, p.files[from].specifiers[k]) == Some(to)
  }

  /** A chain of imports from the entry. */
  ghost predicate Chain(p: Package, entry: string, path: seq<string>) {
    && path != [] && path[0] == entry
    && forall k :: 0 < k < |path| ==> Imports(p, path[k - 1], path[k])
  }

  ghost predicate Reachable(p: Package, entry: string, file: string) {
    exists path :: Chain(p, entry, path) && path[|path| - 1] == file
  }

  /** The file exists, is a regular file of acceptable size, parses, and does not import zod. */
  ghost predicate Sound(p: Package, file: string) {
    && file in p.files && p.files[file].Module?
    && forall k :: 0 <= k < |p.files[file].specifiers| ==> !IsZod(p.files[file].specifiers[k])
  }

  /** The error describes a real defect of a reachable file. */
  ghost predicate Justified(p: Package, entry: string, error: Error) {
    match error
    case MissingArtifact => entry !in p.files
    case InvalidArtifact(file) => Reachable(p, entry, file) && file in p.files && p.files[file].Irregular?
    case UnparsableArtifact(file) => Reachable(p, entry, file) && file in p.files && p.files[file].Unparsable?
    case ImportsZod(file, specifier) =>
      && Reachable(p, entry, file) && file in p.files && p.files[file].Module?
      && specifier in p.files[file].specifiers && IsZod(specifier)
  }

  // ------------------------------------------------------------------ reachability

  lemma EntryIsReachable(p: Package, entry: string)
    ensures Reachable(p, entry, entry)
  {
    assert Chain(p, entry, [entry]) && [entry][|[entry]| - 1] == entry;
  }

  lemma ImportIsReachable(p: Package, entry: string, from: string, to: string)
    requires Reachable(p, entry, from) && Imports(p, from, to)
    ensures Reachable(p, entry, to)
  {
    var path :| Chain(p, entry, path) && path[|path| - 1] == from;
    var longer := path + [to];
    assert Chain(p, entry, longer) && longer[|longer| - 1] == to;
  }

  /** A set that holds the entry and every import of its members holds everything reachable. */
  lemma {:induction false} ClosedSetHoldsChain(p: Package, entry: string, closed: set<string>, path: seq<string>)
    requires entry in closed && Chain(p, entry, path)
    requires forall from, to :: from in closed && Imports(p, from, to) ==> to in closed
    ensures path[|path| - 1] in closed
  {
    if |path| > 1 {
      var front := path[..|path| - 1];
      assert Chain(p, entry, front);
      ClosedSetHoldsChain(p, entry, closed, front);
      assert Imports(p, path[|path| - 2], path[|path| - 1]);
    }
  }

  // ------------------------------------------------------------------ the worklist

  /** Every import of a visited file is visited or pending. */
  ghost predicate Covered(p: Package, visited: set<string>, pending: seq<string>) {
    forall from, to :: from in visited && Imports(p, from, to) ==> to in visited || to in pending
  }

  /** Scans the specifiers of one visited file: the imports to follow, or the first zod import. */
  method ScanSpecifiers(p: Package, file: string) returns (zod: Option<string>, found: seq<string>)
    requires file in p.files && p.files[file].Module?
    ensures zod.Some? ==> zod.value in p.files[file].specifiers && IsZod(zod.value)
    ensures zod.None? ==> Sound(p, file) && forall to :: Imports(p, file, to) <==> to in found
    ensures forall to :: to in found ==> Imports(p, file, to) && to in p.files
  {
    var specifiers := p.files[file].specifiers;
    zod, found := None, [];
    for k := 0 to |specifiers|
      invariant forall j :: 0 <= j < k ==> !IsZod(specifiers[j])
      invariant forall to :: to in found <==> exists j :: 0 <= j < k && Resolve(p, file, specifiers[j]) == Some(to)
    {
      if IsZod(specifiers[k]) {
        zod := Some(specifiers[k]);
        return;
      }
      var resolved := Resolve(p, file, specifiers[k]);
      if resolved.Some? {
        found := found + [resolved.value];
      }
    }
  }

  /** No error if and only if every reachable file is sound; an error names a defect that is there. */
  method CollectZodArtifactErrors(p: Package, entry: string) returns (error: Option<Error>)
    ensures error.None? <==> forall file :: Reachable(p, entry, file) ==> Sound(p, file)
    ensures error.Some? ==> Justified(p, entry, error.value)
  {
    var pending := [entry];
    var visited: set<string> := {};
    EntryIsReachable(p, entry);
    while |pending| > 0
      invariant visited <= p.files.Keys
      invariant entry in visited || (visited == {} && pending == [entry])
      invariant forall file :: file in pending ==> Reachable(p, entry, file) && (file in p.files || visited == {})
      invariant forall file :: file in visited ==> Sound(p, file)
      invariant Covered(p, visited, pending)
      decreases p.files.Keys - visited, |pending|
    {
      var file := pending[|pending| - 1];
      ghost var rest := pending[..|pending| - 1];
      assert forall x :: x in pending <==> x in rest || x == file;
      pending := pending[..|pending| - 1];
      if file in visited {
        continue;
      }
      if file !in p.files {
        error := Some(MissingArtifact);
        return;
      }
      if p.files[file].Irregular? {
        error := Some(InvalidArtifact(file));
        return;
      }
      if p.files[file].Unparsable? {
        error := Some(UnparsableArtifact(file));
        return;
      }
      var zod, found := ScanSpecifiers(p, file);
      if zod.Some? {
        error := Some(ImportsZod(file, zod.value));
        return;
      }
      forall to | to in found ensures Reachable(p, entry, to) { ImportIsReachable(p, entry, file, to); }
      visited := visited + {file};
      pending := pending + found;
    }
    forall file | Reachable(p, entry, file) ensures Sound(p, file) {
      var path :| Chain(p, entry, path) && path[|path| - 1] == file;
      ClosedSetHoldsChain(p, entry, visited, path);
    }
    error := None;
  }

  /** Resolution takes the first candidate that exists below the dist root. */
  lemma {:induction false} FirstUsableIsFirst(p: Package, paths: seq<string>, k: nat)
    requires k < |paths| && p.insideDist(paths[k]) && paths[k] in p.files
    requires forall j :: 0 <= j < k ==> !(p.insideDist(paths[j]) && paths[j] in p.files)
    ensures FirstUsable(p, paths) == Some(paths[k])
  {
    if k > 0 { FirstUsableIsFirst(p, paths[1..], k - 1); }
  }
}
