/** Strong references of stored objects: resolution to child paths, the count of owners, and
    the tree that results when neither reports anything. */
module AafOwnership {
  import opened Wrappers
  import opened Basics

  /** A storage path, one string per component; the root is the empty path. */
  type Path = seq<string>

  /** A strong-reference property. `name` is absent when it is not text; `keys` is absent when
      the index stream is malformed, and a single reference has the one key `None`. */
  datatype Reference = Reference(pid: nat, name: Option<string>, keys: Option<seq<Option<nat>>>)

  datatype StoredObject = StoredObject(path: Path, references: seq<Reference>)

  type Targets = map<(Path, nat), seq<Path>>

  /** The source reads an empty name as no name. */
  predicate SafeName(name: string) {
    && name != "" && name != "." && name != ".." && '/' !in name && '\\' !in name
    && forall c :: c in name ==> !IsControl(c)
  }

  predicate IsControl(c: char) {
    c < ' ' || 0x7f <= c as int <= 0x9f
  }

  function HexDigit(d: nat): char
    requires d < 16
  {
    "0123456789abcdef"[d]
  }

  function Hex(n: nat): string {
    if n < 16 then [HexDigit(n)] else Hex(n / 16) + [HexDigit(n % 16)]
  }

  function ChildName(name: string, key: Option<nat>): string {
    if key.None? then name else name + "{" + Hex(key.value) + "}"
  }

  function ChildPath(owner: Path, name: string, key: Option<nat>): Path {
    owner + [ChildName(name, key)]
  }

  function ChildPaths(owner: Path, name: string, keys: seq<Option<nat>>): seq<Path> {
    seq(|keys|, i requires 0 <= i < |keys| => ChildPath(owner, name, keys[i]))
  }

  function PathsOf(objects: seq<StoredObject>): set<Path> {
    set i | 0 <= i < |objects| :: objects[i].path
  }

  // ---------- resolution

  predicate IsChildOf(path: Path, owner: Path) {
    |path| == |owner| + 1 && path[..|owner|] == owner
  }

  /** Every list belongs to a stored object and names direct children of it. */
  ghost predicate DirectChildren(targets: Targets, paths: set<Path>) {
    forall key :: key in targets ==>
      key.0 in paths && forall i :: 0 <= i < |targets[key]| ==> IsChildOf(targets[key][i], key.0)
  }

  predicate Sound(list: seq<Path>, paths: set<Path>) {
    Distinct(list) && forall i :: 0 <= i < |list| ==> list[i] in paths
  }

  lemma SoundStep(list: seq<Path>, target: Path, paths: set<Path>)
    ensures Sound(list + [target], paths) <==> Sound(list, paths) && target !in list && target in paths
  {
    var longer := list + [target];
    assert longer[|list|] == target;
    if Sound(longer, paths) {
      forall i | 0 <= i < |list|
        ensures list[i] == longer[i] && list[i] in paths
      {
      }
    }
  }

  /** Every target exists and no list repeats one. */
  ghost predicate Consistent(targets: Targets, paths: set<Path>) {
    forall key :: key in targets ==> Sound(targets[key], paths)
  }

  predicate Named(r: Reference) {
    r.name.Some? && SafeName(r.name.value) && r.keys.Some?
  }

  /** The reference has a usable name and index, and all it names exists, once. */
  predicate Resolvable(owner: Path, r: Reference, paths: set<Path>) {
    Named(r) && Sound(ChildPaths(owner, r.name.value, r.keys.value), paths)
  }

  /** Repeated targets are counted by themselves, too. */
  method ResolveOne(owner: Path, reference: Reference, paths: set<Path>)
    returns (list: Option<seq<Path>>, findings: nat, repeats: nat)
    ensures list == if Named(reference) then Some(ChildPaths(owner, reference.name.value, reference.keys.value))
                    else None
    ensures findings == 0 <==> Resolvable(owner, reference, paths)
    ensures repeats == 0 <==> list.Some? ==> Distinct(list.value)
  {
    if reference.name.None? || !SafeName(reference.name.value) || reference.keys.None? {
      return None, 1, 0;
    }
    var name, keys := reference.name.value, reference.keys.value;
    var targets: seq<Path> := [];
    var unique: set<Path> := {};
    findings, repeats := 0, 0;
    for k := 0 to |keys|
      invariant targets == ChildPaths(owner, name, keys)[..k]
      invariant repeats == 0 <==> Distinct(targets)
      invariant forall p :: p in unique <==> p in targets
      invariant findings == 0 <==> Sound(targets, paths)
    {
      var target := ChildPath(owner, name, keys[k]);
      SoundStep(targets, target, paths);
      DistinctExtends(targets, target);
      if target in unique {
        findings, repeats := findings + 1, repeats + 1;
      } else {
        unique := unique + {target};
        if target !in paths {
          findings := findings + 1;
        }
      }
      targets := targets + [target];
    }
    assert targets == ChildPaths(owner, name, keys);
    list := Some(targets);
  }

  /** The list of every property came from a reference of its object. */
  ghost predicate FromReferences(targets: Targets, objects: seq<StoredObject>) {
    forall key :: key in targets ==> exists o, r :: o in objects && r in o.references && Yields(o, r, key, targets[key])
  }

  predicate Yields(o: StoredObject, r: Reference, key: (Path, nat), list: seq<Path>) {
    Named(r) && key == (o.path, r.pid) && list == ChildPaths(o.path, r.name.value, r.keys.value)
  }

  /** No finding means exactly that every strong reference is resolvable; every list names direct
      children of its owner, whatever was found. */
  method ResolveStrongReferences(objects: seq<StoredObject>) returns (targets: Targets, findings: nat)
    ensures FromReferences(targets, objects) && DirectChildren(targets, PathsOf(objects))
    ensures findings == 0 <==>
            forall o, r :: o in objects && r in o.references ==> Resolvable(o.path, r, PathsOf(objects))
    ensures findings == 0 ==> Consistent(targets, PathsOf(objects))
    ensures forall o, r :: o in objects && r in o.references && Named(r) ==> (o.path, r.pid) in targets
  {
    targets := map[];
    findings := 0;
    var paths := PathsOf(objects);
    for n := 0 to |objects|
      invariant FromReferences(targets, objects)
      invariant findings == 0 <==>
                forall o, r :: o in objects[..n] && r in o.references ==> Resolvable(o.path, r, paths)
      invariant forall o, r :: o in objects[..n] && r in o.references && Named(r) ==> (o.path, r.pid) in targets
    {
      var more;
      targets, more := ResolveObject(objects, n, targets, paths);
      findings := findings + more;
      assert objects[..n + 1] == objects[..n] + [objects[n]];
    }
    assert objects[..|objects|] == objects;
    ListsAreChildren(targets, objects);
    if findings == 0 {
      forall key | key in targets
        ensures Sound(targets[key], paths)
      {
        var o, r :| o in objects && r in o.references && Yields(o, r, key, targets[key]);
        assert Resolvable(o.path, r, paths);
      }
    }
  }

  method ResolveObject(objects: seq<StoredObject>, n: nat, before: Targets, paths: set<Path>)
    returns (targets: Targets, findings: nat)
    requires n < |objects| && FromReferences(before, objects)
    ensures FromReferences(targets, objects)
    ensures before.Keys <= targets.Keys
    ensures findings == 0 <==> forall r :: r in objects[n].references ==> Resolvable(objects[n].path, r, paths)
    ensures forall r :: r in objects[n].references && Named(r) ==> (objects[n].path, r.pid) in targets
  {
    targets, findings := before, 0;
    var stored := objects[n];
    for k := 0 to |stored.references|
      invariant FromReferences(targets, objects) && before.Keys <= targets.Keys
      invariant findings == 0 <==> forall r :: r in stored.references[..k] ==> Resolvable(stored.path, r, paths)
      invariant forall r :: r in stored.references[..k] && Named(r) ==> (stored.path, r.pid) in targets
    {
      var reference := stored.references[k];
      assert stored.references[..k + 1] == stored.references[..k] + [reference];
      var list, more, _ := ResolveOne(stored.path, reference, paths);
      findings := findings + more;
      if list.Some? {
        var key := (stored.path, reference.pid);
        assert Yields(stored, reference, key, list.value);
        targets := targets[key := list.value];
      }
    }
    assert stored.references[..|stored.references|] == stored.references;
  }

  lemma ListsAreChildren(targets: Targets, objects: seq<StoredObject>)
    requires FromReferences(targets, objects)
    ensures DirectChildren(targets, PathsOf(objects))
  {
    forall key | key in targets
      ensures key.0 in PathsOf(objects)
      ensures forall i :: 0 <= i < |targets[key]| ==> IsChildOf(targets[key][i], key.0)
    {
      var o, r :| o in objects && r in o.references && Yields(o, r, key, targets[key]);
      var n :| 0 <= n < |objects| && objects[n] == o;
      assert objects[n].path in PathsOf(objects);
    }
  }

  // ---------- ownership

  /** Where a path is listed: the owning property and the place in its list. */
  function Places(targets: Targets, path: Path): set<((Path, nat), nat)> {
    set key, i | key in targets && 0 <= i < |targets[key]| && targets[key][i] == path :: (key, i)
  }

  function OccurrencesIn(list: seq<Path>, path: Path): nat {
    if list == [] then 0
    else OccurrencesIn(list[..|list| - 1], path) + (if list[|list| - 1] == path then 1 else 0)
  }

  lemma {:induction false} PlacesIn(targets: Targets, key: (Path, nat), n: nat, path: Path)
    requires key in targets && n <= |targets[key]|
    ensures |set i | 0 <= i < n && targets[key][i] == path :: (key, i)| == OccurrencesIn(targets[key][..n], path)
    decreases n
  {
    var places := set i | 0 <= i < n && targets[key][i] == path :: (key, i);
    if n == 0 {
      assert places == {};
    } else {
      PlacesIn(targets, key, n - 1, path);
      var before := set i | 0 <= i < n - 1 && targets[key][i] == path :: (key, i);
      assert targets[key][..n][..n - 1] == targets[key][..n - 1];
      if targets[key][n - 1] == path {
        assert places == before + {(key, n - 1)};
      } else {
        assert places == before;
      }
    }
  }

  /** Adds up, over all properties, how often each path is listed. */
  method CountOwners(targets: Targets) returns (owned: map<Path, nat>)
    ensures forall path :: (if path in owned then owned[path] else 0) == |Places(targets, path)|
  {
    owned := map[];
    var pending := targets.Keys;
    ghost var done: Targets := map[];
    assert forall path :: Places(done, path) == {};
    while pending != {}
      invariant pending <= targets.Keys
      invariant done == map key | key in targets.Keys - pending :: targets[key]
      invariant forall path :: (if path in owned then owned[path] else 0) == |Places(done, path)|
      decreases pending
    {
      var key :| key in pending;
      var list := targets[key];
      ghost var before := owned;
      for i := 0 to |list|
        invariant forall path :: (if path in owned then owned[path] else 0)
                    == (if path in before then before[path] else 0) + OccurrencesIn(list[..i], path)
      {
        assert list[..i + 1][..i] == list[..i];
        owned := owned[list[i] := (if list[i] in owned then owned[list[i]] else 0) + 1];
      }
      assert list[..|list|] == list;
      AddKey(done, targets, key);
      done := done[key := list];
      pending := pending - {key};
    }
    assert done == targets;
  }

  lemma AddKey(done: Targets, targets: Targets, key: (Path, nat))
    requires key in targets && key !in done
    ensures forall path :: |Places(done[key := targets[key]], path)|
                           == |Places(done, path)| + OccurrencesIn(targets[key], path)
  {
    forall path
      ensures |Places(done[key := targets[key]], path)| == |Places(done, path)| + OccurrencesIn(targets[key], path)
    {
      var list := targets[key];
      var added := set i | 0 <= i < |list| && list[i] == path :: (key, i);
      PlacesIn(targets, key, |list|, path);
      assert list[..|list|] == list;
      assert Places(done[key := list], path) == Places(done, path) + added;
      assert Places(done, path) !! added;
    }
  }

  method OwnershipErrors(objects: seq<StoredObject>, targets: Targets) returns (findings: nat)
    ensures findings == 0 <==> OwnedOnce(objects, targets)
  {
    var owned := CountOwners(targets);
    findings := 0;
    for n := 0 to |objects|
      invariant findings == 0 <==>
                  forall k :: 0 <= k < n && objects[k].path != [] ==> |Places(targets, objects[k].path)| == 1
    {
      var path := objects[n].path;
      if path != [] && (if path in owned then owned[path] else 0) != 1 {
        findings := findings + 1;
      }
    }
  }

  ghost predicate OwnedOnce(objects: seq<StoredObject>, targets: Targets) {
    forall k :: 0 <= k < |objects| && objects[k].path != [] ==> |Places(targets, objects[k].path)| == 1
  }

  // ---------- the tree

  ghost predicate Owns(targets: Targets, owner: Path, path: Path) {
    exists pid :: (owner, pid) in targets && path in targets[(owner, pid)]
  }

  /** Each step goes from an owner to something it owns. */
  ghost predicate OwnershipChain(targets: Targets, chain: seq<Path>) {
    chain != [] && forall i :: 0 <= i < |chain| - 1 ==> Owns(targets, chain[i], chain[i + 1])
  }

  /** The path's own prefixes, from the root down to itself. */
  function Prefixes(path: Path): seq<Path> {
    seq(|path| + 1, i requires 0 <= i <= |path| => path[..i])
  }

  lemma OwnsIsChild(targets: Targets, paths: set<Path>, owner: Path, path: Path)
    requires DirectChildren(targets, paths) && Owns(targets, owner, path)
    ensures owner in paths && IsChildOf(path, owner)
  {
    var pid :| (owner, pid) in targets && path in targets[(owner, pid)];
    var i :| 0 <= i < |targets[(owner, pid)]| && targets[(owner, pid)][i] == path;
  }

  lemma OwnerIsParent(objects: seq<StoredObject>, targets: Targets, path: Path)
    requires DirectChildren(targets, PathsOf(objects)) && OwnedOnce(objects, targets)
    requires path in PathsOf(objects) && path != []
    ensures path[..|path| - 1] in PathsOf(objects)
    ensures Owns(targets, path[..|path| - 1], path)
  {
    var k :| 0 <= k < |objects| && objects[k].path == path;
    var place :| place in Places(targets, path);
    var (key, i) := place;
    assert targets[key][i] == path;
    assert (key.0, key.1) == key;
  }

  /** Every stored object hangs from the root along its own path. */
  lemma {:induction false} RootedAtTop(objects: seq<StoredObject>, targets: Targets, path: Path)
    requires DirectChildren(targets, PathsOf(objects)) && OwnedOnce(objects, targets)
    requires path in PathsOf(objects)
    ensures OwnershipChain(targets, Prefixes(path))
    ensures forall i :: 0 <= i <= |path| ==> path[..i] in PathsOf(objects)
    decreases |path|
  {
    if path != [] {
      var parent := path[..|path| - 1];
      OwnerIsParent(objects, targets, path);
      RootedAtTop(objects, targets, parent);
      assert forall i :: 0 <= i <= |parent| ==> parent[..i] == path[..i];
      var chain := Prefixes(path);
      forall i | 0 <= i < |chain| - 1
        ensures Owns(targets, chain[i], chain[i + 1])
      {
        if i < |path| - 1 {
          assert Prefixes(parent)[i] == chain[i] && Prefixes(parent)[i + 1] == chain[i + 1];
        } else {
          assert chain[i] == parent && chain[i + 1] == path;
        }
      }
      assert path[..|path|] == path;
    }
  }

  /** Ownership only ever goes one path component down, so it has no cycles and one chain. */
  lemma {:induction false} ChainIsPrefixes(targets: Targets, paths: set<Path>, chain: seq<Path>)
    requires DirectChildren(targets, paths) && OwnershipChain(targets, chain)
    ensures forall i :: 0 <= i < |chain| ==> |chain[i]| == |chain[0]| + i
    ensures forall i :: 0 <= i < |chain| ==> chain[i] <= chain[|chain| - 1]
    decreases |chain|
  {
    if |chain| > 1 {
      var front, last := chain[..|chain| - 1], chain[|chain| - 1];
      ChainIsPrefixes(targets, paths, front);
      OwnsIsChild(targets, paths, chain[|chain| - 2], last);
    }
  }

  /** Without findings the objects form one tree: from the root there is exactly one ownership
      chain to each stored. */
  lemma ObjectsFormATree(objects: seq<StoredObject>, targets: Targets, path: Path, chain: seq<Path>)
    requires DirectChildren(targets, PathsOf(objects)) && OwnedOnce(objects, targets)
    requires path in PathsOf(objects)
    ensures OwnershipChain(targets, Prefixes(path)) && Prefixes(path)[0] == []
    ensures OwnershipChain(targets, chain) && chain[0] == [] && chain[|chain| - 1] == path ==> chain == Prefixes(path)
  {
    RootedAtTop(objects, targets, path);
    if OwnershipChain(targets, chain) && chain[0] == [] && chain[|chain| - 1] == path {
      ChainIsPrefixes(targets, PathsOf(objects), chain);
      assert chain[|chain| - 1] == path;
      assert |chain| == |path| + 1;
      assert forall i :: 0 <= i < |chain| ==> chain[i] == Prefixes(path)[i];
    }
  }
}
