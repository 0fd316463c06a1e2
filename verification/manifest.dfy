/** The manifest assembly of cli/build.ts: for each supported type directory
    under the registry root, every immediate subdirectory becomes one entry
    keyed by its name, holding the entry's files (relative to the working
    directory) and the deduplicated union of the dependencies and environment
    variables extracted from them. */
module Manifest {
  import opened Outcomes
  import opened Text
  import opened Paths
  import opened Seqs
  import opened Walker
  import opened Extract

  /** The type directories, in the order the build visits them. */
  const SupportedTypes: seq<string> := ["agents", "workflows", "tools", "mcp"]

  lemma SupportedTypeCases(t: string)
    requires t in SupportedTypes
    ensures t == "agents" || t == "workflows" || t == "tools" || t == "mcp"
  {
  }

  /** The registry root, relative to the working directory. */
  const RegistryRoot: string := "app/src/mastra/registry"

  /** One manifest value. `kind` is the JSON field `type`: the plural name
      of the type directory the entry was found in. */
  datatype RegistryEntry = RegistryEntry(
    kind: string,
    name: string,
    files: seq<string>,
    dependencies: seq<string>,
    envs: seq<string>)

  /** A JSON object: keys in insertion order, each with its value. */
  datatype Item = Item(key: string, entry: RegistryEntry)
  type Registry = seq<Item>

  function Keys(m: Registry): (r: seq<string>)
    ensures |r| == |m| && forall i :: 0 <= i < |m| ==> r[i] == m[i].key
  {
    seq(|m|, i requires 0 <= i < |m| => m[i].key)
  }

  /** `registry[key]`. */
  function Lookup(m: Registry, key: string): (r: Option<RegistryEntry>)
    ensures r.Some? <==> key in Keys(m)
    decreases |m|
  {
    if |m| == 0 then None
    else if m[0].key == key then Some(m[0].entry)
    else
      assert Keys(m) == [m[0].key] + Keys(m[1..]);
      Lookup(m[1..], key)
  }

  /** `registry[key] = entry`: an existing key keeps its position and gets
      the new value; a new key is appended. */
  function Put(m: Registry, key: string, entry: RegistryEntry): (r: Registry)
    ensures key in Keys(m) ==> Keys(r) == Keys(m)
    ensures key !in Keys(m) ==> Keys(r) == Keys(m) + [key]
    decreases |m|
  {
    if |m| == 0 then
      KeysCons(Item(key, entry), []);
      [Item(key, entry)]
    else if m[0].key == key then
      KeysCons(m[0], m[1..]);
      KeysCons(Item(key, entry), m[1..]);
      [Item(key, entry)] + m[1..]
    else
      var rest := Put(m[1..], key, entry);
      KeysCons(m[0], m[1..]);
      KeysCons(m[0], rest);
      [m[0]] + rest
  }

  lemma KeysCons(it: Item, m: Registry)
    ensures Keys([it] + m) == [it.key] + Keys(m)
  {
  }

  /** After `Put` the key reads back the new value and every other key
      reads back what it did before. */
  lemma {:induction false} PutLookup(m: Registry, key: string, entry: RegistryEntry, k: string)
    ensures Lookup(Put(m, key, entry), k) == if k == key then Some(entry) else Lookup(m, k)
    decreases |m|
  {
    if |m| > 0 && m[0].key != key {
      PutLookup(m[1..], key, entry, k);
      assert Put(m, key, entry)[1..] == Put(m[1..], key, entry);
    } else if |m| > 0 {
      assert Put(m, key, entry)[1..] == m[1..];
    }
  }

  /** `Put` adds no item other than the one it stores. */
  lemma {:induction false} PutItems(m: Registry, key: string, entry: RegistryEntry)
    ensures forall it :: it in Put(m, key, entry) ==> it in m || it == Item(key, entry)
    decreases |m|
  {
    if |m| > 0 && m[0].key != key {
      PutItems(m[1..], key, entry);
      assert Put(m, key, entry) == [m[0]] + Put(m[1..], key, entry);
    } else if |m| > 0 {
      assert Put(m, key, entry) == [Item(key, entry)] + m[1..];
    }
  }

  /** Keys are distinct and each value records the key it is stored under. */
  ghost predicate WellFormed(m: Registry) {
    && NoDuplicates(Keys(m))
    && forall i :: 0 <= i < |m| ==> m[i].entry.name == m[i].key
  }

  lemma PutWellFormed(m: Registry, key: string, entry: RegistryEntry)
    requires WellFormed(m) && entry.name == key
    ensures WellFormed(Put(m, key, entry))
  {
    var r := Put(m, key, entry);
    PutItems(m, key, entry);
    forall i | 0 <= i < |r| ensures r[i].entry.name == r[i].key {
      assert r[i] in r;
    }
  }

  // ---------------------------------------------------------------------
  // One entry

  /** Per-file extraction results, in walk order. */
  function DependenciesPerFile(found: seq<Found>): (r: seq<seq<string>>)
    ensures |r| == |found|
    ensures forall i :: 0 <= i < |found| ==> r[i] == ExtractDependencies(found[i].content)
  {
    seq(|found|, i requires 0 <= i < |found| => ExtractDependencies(found[i].content))
  }

  function EnvsPerFile(found: seq<Found>): (r: seq<seq<string>>)
    ensures |r| == |found|
    ensures forall i :: 0 <= i < |found| ==> r[i] == ExtractEnvs(found[i].content)
  {
    seq(|found|, i requires 0 <= i < |found| => ExtractEnvs(found[i].content))
  }

  function RelativeAll(cwd: string, found: seq<Found>): (r: seq<string>)
    ensures |r| == |found|
    ensures forall i :: 0 <= i < |found| ==> r[i] == Relative(cwd, found[i].path)
  {
    seq(|found|, i requires 0 <= i < |found| => Relative(cwd, found[i].path))
  }

  /** The entry for the subdirectory `name` of the type directory `kind`. */
  function BuildEntry(cwd: string, kind: string, name: string, children: seq<Node>,
                      ignore: seq<string>): (e: RegistryEntry)
    ensures e.kind == kind && e.name == name
  {
    EntryOf(cwd, kind, name, Walk(EntryDir(cwd, kind, name), children, ignore))
  }

  /** The entry recording the files `found` under the entry directory. */
  function EntryOf(cwd: string, kind: string, name: string, found: seq<Found>): (e: RegistryEntry)
    ensures e.kind == kind && e.name == name
  {
    RegistryEntry(kind, name, RelativeAll(cwd, found),
                  Dedup(Flatten(DependenciesPerFile(found))), Dedup(Flatten(EnvsPerFile(found))))
  }

  /** An entry lists one path per walked file, and each package name and
      environment variable some file mentions, once. */
  lemma BuildEntryContents(cwd: string, kind: string, name: string, children: seq<Node>,
                           ignore: seq<string>)
    ensures var e := BuildEntry(cwd, kind, name, children, ignore);
      var found := Walk(EntryDir(cwd, kind, name), children, ignore);
      && |e.files| == |found|
      && (forall i :: 0 <= i < |found| ==> e.files[i] == Relative(cwd, found[i].path))
      && NoDuplicates(e.dependencies) && NoDuplicates(e.envs)
      && (forall x :: x in e.dependencies <==>
            exists i :: 0 <= i < |found| && x in ExtractDependencies(found[i].content))
      && (forall x :: x in e.envs <==>
            exists i :: 0 <= i < |found| && x in ExtractEnvs(found[i].content))
  {
  }

  /** `path.join(cwd, 'app/src/mastra/registry', kind, name)`. */
  function EntryDir(cwd: string, kind: string, name: string): string {
    JoinPath(JoinPath(JoinPath(cwd, RegistryRoot), kind), name)
  }

  /** Deduplicating per file and then per entry is one deduplication of all
      package names the entry's imports name, in order. */
  lemma EntryDependenciesOneSet(cwd: string, kind: string, name: string,
                                children: seq<Node>, ignore: seq<string>)
    ensures var found := Walk(EntryDir(cwd, kind, name), children, ignore);
      BuildEntry(cwd, kind, name, children, ignore).dependencies
      == Dedup(Flatten(seq(|found|, i requires 0 <= i < |found| =>
                             NormalizeAll(ImportSpecifiers(found[i].content, 0)))))
  {
    var found := Walk(EntryDir(cwd, kind, name), children, ignore);
    var raw := seq(|found|, i requires 0 <= i < |found| =>
                     NormalizeAll(ImportSpecifiers(found[i].content, 0)));
    assert DependenciesPerFile(found) == DedupEach(raw);
    DedupFlattenDedups(raw);
  }

  // ---------------------------------------------------------------------
  // The two loops

  /** `children` holds a subdirectory named `key`. */
  ghost predicate HasEntryDir(children: seq<Node>, key: string) {
    exists c :: 0 <= c < |children| && children[c].Dir? && children[c].name == key
  }

  /** How the inner loop turns a subdirectory into an entry. */
  function EntryBuilder(cwd: string, kind: string, ignore: seq<string>): (string, seq<Node>) -> RegistryEntry {
    (name: string, children: seq<Node>) => BuildEntry(cwd, kind, name, children, ignore)
  }

  /** The inner loop over the listing of one type directory; plain files
      are skipped and each subdirectory is stored with the entry `build`
      makes of it. */
  function AddEntries(m: Registry, children: seq<Node>, build: (string, seq<Node>) -> RegistryEntry): (r: Registry)
    ensures forall k :: k in Keys(r) <==> k in Keys(m) || HasEntryDir(children, k)
    decreases |children|
  {
    if |children| == 0 then m
    else
      var c := children[0];
      var m' := if c.Dir? then Put(m, c.name, build(c.name, c.children)) else m;
      HasEntryDirCons(children);
      AddEntries(m', children[1..], build)
  }

  lemma {:induction false} AddEntriesWellFormed(m: Registry, cwd: string, kind: string, children: seq<Node>,
                                                ignore: seq<string>)
    requires WellFormed(m)
    ensures WellFormed(AddEntries(m, children, EntryBuilder(cwd, kind, ignore)))
    decreases |children|
  {
    if |children| > 0 {
      var build := EntryBuilder(cwd, kind, ignore);
      var c := children[0];
      var m' := if c.Dir? then Put(m, c.name, build(c.name, c.children)) else m;
      if c.Dir? {
        PutWellFormed(m, c.name, build(c.name, c.children));
      }
      AddEntriesWellFormed(m', cwd, kind, children[1..], ignore);
    }
  }

  lemma HasEntryDirCons(children: seq<Node>)
    requires |children| > 0
    ensures forall k :: HasEntryDir(children, k) <==>
      (children[0].Dir? && children[0].name == k) || HasEntryDir(children[1..], k)
  {
    forall k ensures HasEntryDir(children, k) <==>
      (children[0].Dir? && children[0].name == k) || HasEntryDir(children[1..], k)
    {
      if HasEntryDir(children, k) && !(children[0].Dir? && children[0].name == k) {
        var i :| 0 <= i < |children| && children[i].Dir? && children[i].name == k;
        assert children[1..][i - 1] == children[i];
      }
      if HasEntryDir(children[1..], k) {
        var i :| 0 <= i < |children[1..]| && children[1..][i].Dir? && children[1..][i].name == k;
        assert children[i + 1] == children[1..][i];
      }
    }
  }

  /** The position of the last subdirectory named `key` in the listing. */
  function LastEntryDir(children: seq<Node>, key: string): (r: Option<nat>)
    ensures r.Some? ==> r.value < |children| && children[r.value].Dir? && children[r.value].name == key
    ensures r.Some? ==> forall c :: r.value < c < |children| ==> !(children[c].Dir? && children[c].name == key)
    ensures r.None? ==> forall c :: 0 <= c < |children| ==> !(children[c].Dir? && children[c].name == key)
    decreases |children|
  {
    if |children| == 0 then None
    else
      var rest := LastEntryDir(children[1..], key);
      assert forall c :: 0 < c < |children| ==> children[c] == children[1..][c - 1];
      match rest
      case Some(i) => Some(i + 1)
      case None => if children[0].Dir? && children[0].name == key then Some(0) else None
  }

  /** The listing determines each key: the entry built from the last
      subdirectory of that name, of this type; a key it does not name is
      untouched. */
  lemma {:induction false} AddEntriesLookup(m: Registry, children: seq<Node>,
                                            build: (string, seq<Node>) -> RegistryEntry, k: string)
    ensures Lookup(AddEntries(m, children, build), k)
         == match LastEntryDir(children, k)
            case None => Lookup(m, k)
            case Some(c) => Some(build(k, children[c].children))
    decreases |children|
  {
    if |children| > 0 {
      var c := children[0];
      var m' := if c.Dir? then Put(m, c.name, build(c.name, c.children)) else m;
      assert AddEntries(m, children, build) == AddEntries(m', children[1..], build);
      AddEntriesLookup(m', children[1..], build, k);
      match LastEntryDir(children[1..], k)
      case Some(i) =>
        assert LastEntryDir(children, k) == Some(i + 1);
        assert children[i + 1] == children[1..][i];
      case None =>
        if c.Dir? {
          var e := build(c.name, c.children);
          assert m' == Put(m, c.name, e);
          PutLookup(m, c.name, e, k);
          if c.name == k {
            assert LastEntryDir(children, k) == Some(0);
          } else {
            assert LastEntryDir(children, k).None?;
          }
        } else {
          assert m' == m;
          assert LastEntryDir(children, k).None?;
        }
    }
  }

  lemma LastEntryDirFound(children: seq<Node>, key: string)
    ensures LastEntryDir(children, key).Some? <==> HasEntryDir(children, key)
  {
  }

  /** The first entry of the registry root named `t`: what `path.join(root, t)` names. */
  function TypeDir(root: seq<Node>, t: string): (r: Option<Node>)
    ensures r.Some? ==> r.value.name == t
    decreases |root|
  {
    if |root| == 0 then None
    else if root[0].name == t then Some(root[0])
    else TypeDir(root[1..], t)
  }

  /** The type directory `t` exists and holds a subdirectory `key`. */
  ghost predicate IsEntryDir(root: seq<Node>, t: string, key: string) {
    match TypeDir(root, t)
    case Some(Dir(_, children)) => HasEntryDir(children, key)
    case _ => false
  }

  /** The listing of the last subdirectory `key` of the type directory `t`:
      the directory whose entry the inner loop stores last under `key`. */
  function EntryChildren(root: seq<Node>, t: string, key: string): (r: Option<seq<Node>>)
    ensures r.Some? <==> IsEntryDir(root, t, key)
  {
    match TypeDir(root, t)
    case Some(Dir(_, children)) =>
      LastEntryDirFound(children, key);
      (match LastEntryDir(children, key)
       case Some(c) => Some(children[c].children)
       case None => None)
    case _ => None
  }

  /** `fs.readdirSync` on a type "directory" that is a plain file. */
  predicate TypeIsFile(root: seq<Node>, t: string) {
    TypeDir(root, t).Some? && TypeDir(root, t).value.File?
  }

  datatype BuildError = NotADirectory(path: string)

  /** The outer loop over the type directories in `types`. */
  function AddTypes(m: Registry, cwd: string, root: seq<Node>, types: seq<string>,
                    ignore: seq<string>): (r: Result<Registry, BuildError>)
    ensures r.Err? <==> exists j :: 0 <= j < |types| && TypeIsFile(root, types[j])
    ensures r.Ok? ==> forall k :: k in Keys(r.value) <==>
      k in Keys(m) || exists j :: 0 <= j < |types| && IsEntryDir(root, types[j], k)
    ensures r.Ok? && WellFormed(m) ==> WellFormed(r.value)
    decreases |types|
  {
    if |types| == 0 then Ok(m)
    else
      var t := types[0];
      assert forall j :: 0 < j < |types| ==> types[j] == types[1..][j - 1];
      match TypeDir(root, t)
      case None =>
        AddTypes(m, cwd, root, types[1..], ignore)
      case Some(File(_, _)) =>
        Err(NotADirectory(JoinPath(JoinPath(cwd, RegistryRoot), t)))
      case Some(Dir(_, children)) =>
        var m' := AddEntries(m, children, EntryBuilder(cwd, t, ignore));
        assert WellFormed(m) ==> WellFormed(m') by {
          if WellFormed(m) {
            AddEntriesWellFormed(m, cwd, t, children, ignore);
          }
        }
        AddTypes(m', cwd, root, types[1..], ignore)
  }

  /** A key no type directory lists keeps its value. */
  lemma {:induction false} AddTypesUntouched(m: Registry, cwd: string, root: seq<Node>, types: seq<string>,
                                             ignore: seq<string>, k: string)
    requires forall j :: 0 <= j < |types| ==> !IsEntryDir(root, types[j], k)
    ensures var r := AddTypes(m, cwd, root, types, ignore);
      r.Ok? ==> Lookup(r.value, k) == Lookup(m, k)
    decreases |types|
  {
    if |types| > 0 {
      var t := types[0];
      assert forall j :: 0 < j < |types| ==> types[j] == types[1..][j - 1];
      assert !IsEntryDir(root, t, k);
      match TypeDir(root, t)
      case None =>
        AddTypesUntouched(m, cwd, root, types[1..], ignore, k);
      case Some(File(_, _)) =>
      case Some(Dir(_, children)) =>
        var m1 := AddEntries(m, children, EntryBuilder(cwd, t, ignore));
        AddTypesUntouched(m1, cwd, root, types[1..], ignore, k);
        AddEntriesLookup(m, children, EntryBuilder(cwd, t, ignore), k);
        LastEntryDirFound(children, k);
    }
  }

  /** A key some type directory lists is stored with the entry built from
      its directory under the LAST such type: a later type overwrites an
      earlier entry of the same name. */
  lemma {:induction false} AddTypesLastWins(m: Registry, cwd: string, root: seq<Node>, types: seq<string>,
                                            ignore: seq<string>, k: string, j: nat)
    requires j < |types| && IsEntryDir(root, types[j], k)
    requires forall j' :: j < j' < |types| ==> !IsEntryDir(root, types[j'], k)
    ensures var r := AddTypes(m, cwd, root, types, ignore);
      r.Ok? ==> Lookup(r.value, k) == Some(BuildEntry(cwd, types[j], k, EntryChildren(root, types[j], k).value, ignore))
    decreases |types|
  {
    var t := types[0];
    assert forall j' :: 0 < j' < |types| ==> types[j'] == types[1..][j' - 1];
    match TypeDir(root, t)
    case None =>
      AddTypesLastWins(m, cwd, root, types[1..], ignore, k, j - 1);
    case Some(File(_, _)) =>
    case Some(Dir(_, children)) =>
      var m1 := AddEntries(m, children, EntryBuilder(cwd, t, ignore));
      if j == 0 {
        AddEntriesLookup(m, children, EntryBuilder(cwd, t, ignore), k);
        LastEntryDirFound(children, k);
        AddTypesUntouched(m1, cwd, root, types[1..], ignore, k);
      } else {
        AddTypesLastWins(m1, cwd, root, types[1..], ignore, k, j - 1);
      }
  }

  /** The build script's registry: `ignoreSetting` is
      `settings.build?.ignoreExtensions`. */
  function Build(cwd: string, root: seq<Node>, ignoreSetting: Option<seq<string>>): (r: Result<Registry, BuildError>)
    ensures r.Err? <==> exists j :: 0 <= j < |SupportedTypes| && TypeIsFile(root, SupportedTypes[j])
    ensures r.Ok? ==> WellFormed(r.value)
    ensures r.Ok? ==> forall k :: k in Keys(r.value) <==>
      exists j :: 0 <= j < |SupportedTypes| && IsEntryDir(root, SupportedTypes[j], k)
  {
    assert WellFormed([]);
    AddTypes([], cwd, root, SupportedTypes, IgnoreList(ignoreSetting))
  }

  /** Every manifest value is stored under its own name and is the entry
      built from the directory of the LAST supported type that lists that
      name: with `agents/x` and `tools/x` both present, `x` is the `tools`
      entry, with the files, dependencies and variables of `tools/x`. */
  lemma BuildKinds(cwd: string, root: seq<Node>, ignoreSetting: Option<seq<string>>, k: string)
    ensures var r := Build(cwd, root, ignoreSetting);
      r.Ok? && k in Keys(r.value) ==>
        && Lookup(r.value, k).Some?
        && Lookup(r.value, k).value.name == k
        && exists j :: && 0 <= j < |SupportedTypes|
                       && Lookup(r.value, k).value.kind == SupportedTypes[j]
                       && IsEntryDir(root, SupportedTypes[j], k)
                       && Lookup(r.value, k) == Some(BuildEntry(cwd, SupportedTypes[j], k,
                                                                EntryChildren(root, SupportedTypes[j], k).value,
                                                                IgnoreList(ignoreSetting)))
                       && forall j' :: j < j' < |SupportedTypes| ==> !IsEntryDir(root, SupportedTypes[j'], k)
  {
    var r := Build(cwd, root, ignoreSetting);
    if r.Ok? && k in Keys(r.value) {
      var m := r.value;
      var j := LastListing(root, k);
      AddTypesLastWins([], cwd, root, SupportedTypes, IgnoreList(ignoreSetting), k, j);
      assert Lookup(m, k).value.kind == SupportedTypes[j];
      LookupName(m, k);
    }
  }

  /** The last supported type whose directory lists `k`. */
  lemma LastListing(root: seq<Node>, k: string) returns (j: nat)
    requires exists j :: 0 <= j < |SupportedTypes| && IsEntryDir(root, SupportedTypes[j], k)
    ensures j < |SupportedTypes| && IsEntryDir(root, SupportedTypes[j], k)
    ensures forall j' :: j < j' < |SupportedTypes| ==> !IsEntryDir(root, SupportedTypes[j'], k)
  {
    j := |SupportedTypes| - 1;
    while !IsEntryDir(root, SupportedTypes[j], k)
      invariant 0 <= j < |SupportedTypes|
      invariant forall j' :: j < j' < |SupportedTypes| ==> !IsEntryDir(root, SupportedTypes[j'], k)
      decreases j
    {
      j := j - 1;
    }
  }

  /** A well-formed registry stores each value under its own name. */
  lemma {:induction false} LookupName(m: Registry, k: string)
    requires forall i :: 0 <= i < |m| ==> m[i].entry.name == m[i].key
    ensures Lookup(m, k).Some? ==> Lookup(m, k).value.name == k
    decreases |m|
  {
    if |m| > 0 && m[0].key != k {
      LookupName(m[1..], k);
    }
  }
}
