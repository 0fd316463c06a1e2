/** `listFilesRecursive` of cli/build.ts over an immutable directory tree.
    A directory's children are listed in the order `fs.readdirSync` returns
    them; the walk is depth-first and keeps each file's content next to its
    path, which is what the build later reads back with `fs.readFileSync`. */
module Walker {
  import opened Text
  import opened Paths

  datatype Node =
    | File(name: string, content: string)
    | Dir(name: string, children: seq<Node>)

  /** A file the walk reports: its joined path and its text. */
  datatype Found = Found(path: string, content: string)

  /** `ignoreExtensions.some(ext => filePath.endsWith(ext))`. */
  predicate Ignored(path: string, ignore: seq<string>) {
    exists k :: 0 <= k < |ignore| && EndsWith(path, ignore[k])
  }

  /** The files under the entries of `dir`, depth first, ignored ones left out. */
  function Walk(dir: string, entries: seq<Node>, ignore: seq<string>): (r: seq<Found>)
    ensures forall k :: 0 <= k < |r| ==> StartsWith(r[k].path, DirPrefix(dir))
    decreases entries
  {
    if |entries| == 0 then []
    else WalkOne(dir, entries[0], ignore) + Walk(dir, entries[1..], ignore)
  }

  function WalkOne(dir: string, e: Node, ignore: seq<string>): (r: seq<Found>)
    ensures forall k :: 0 <= k < |r| ==> StartsWith(r[k].path, DirPrefix(dir))
    decreases e
  {
    var p := JoinPath(dir, e.name);
    match e
    case File(_, content) => if Ignored(p, ignore) then [] else [Found(p, content)]
    case Dir(_, children) =>
      var r := Walk(p, children, ignore);
      forall k | 0 <= k < |r| ensures StartsWith(r[k].path, DirPrefix(dir)) {
        PrefixOfDirPrefix(dir, e.name, r[k].path);
      }
      r
  }

  lemma PrefixOfDirPrefix(dir: string, name: string, q: string)
    requires StartsWith(q, DirPrefix(JoinPath(dir, name)))
    ensures StartsWith(q, DirPrefix(dir))
  {
    var a := DirPrefix(dir);
    var b := DirPrefix(JoinPath(dir, name));
    assert StartsWith(b, a);
    assert q[..|a|] == b[..|a|];
  }

  /** The tree holds a file with text `content` at `path`, whatever its depth. */
  ghost predicate FileAt(dir: string, e: Node, path: string, content: string)
    decreases e
  {
    match e
    case File(n, c) => path == JoinPath(dir, n) && content == c
    case Dir(n, children) =>
      exists k :: 0 <= k < |children| && FileAt(JoinPath(dir, n), children[k], path, content)
  }

  /** The walk reports exactly the non-ignored files of the tree. */
  lemma {:induction false} WalkComplete(dir: string, entries: seq<Node>, ignore: seq<string>, f: Found)
    ensures f in Walk(dir, entries, ignore) <==>
      !Ignored(f.path, ignore)
      && exists k :: 0 <= k < |entries| && FileAt(dir, entries[k], f.path, f.content)
    decreases entries
  {
    if |entries| > 0 {
      WalkOneComplete(dir, entries[0], ignore, f);
      WalkComplete(dir, entries[1..], ignore, f);
      if exists k :: 0 <= k < |entries| && FileAt(dir, entries[k], f.path, f.content) {
        var k :| 0 <= k < |entries| && FileAt(dir, entries[k], f.path, f.content);
        if k > 0 {
          assert entries[1..][k - 1] == entries[k];
        }
      }
    }
  }

  lemma {:induction false} WalkOneComplete(dir: string, e: Node, ignore: seq<string>, f: Found)
    ensures f in WalkOne(dir, e, ignore) <==>
      !Ignored(f.path, ignore) && FileAt(dir, e, f.path, f.content)
    decreases e
  {
    match e
    case File(_, _) =>
    case Dir(n, children) =>
      WalkComplete(JoinPath(dir, n), children, ignore, f);
  }

  /** The paths of `found`, in order. */
  function FoundPaths(found: seq<Found>): (r: seq<string>)
    ensures |r| == |found|
    ensures forall k :: 0 <= k < |r| ==> r[k] == found[k].path
  {
    if |found| == 0 then [] else [found[0].path] + FoundPaths(found[1..])
  }

  /** `p` is the path of a file of the tree, at any depth, that ends in no
      ignored extension. */
  ghost predicate Listable(dir: string, entries: seq<Node>, ignore: seq<string>, p: string) {
    !Ignored(p, ignore) && exists c, k :: 0 <= k < |entries| && FileAt(dir, entries[k], p, c)
  }

  /** A path of the walk is a non-ignored file path of the tree, and back. */
  lemma WalkPaths(dir: string, entries: seq<Node>, ignore: seq<string>, p: string)
    ensures p in FoundPaths(Walk(dir, entries, ignore)) <==> Listable(dir, entries, ignore, p)
  {
    var found := Walk(dir, entries, ignore);
    var paths := FoundPaths(found);
    if p in paths {
      var i :| 0 <= i < |paths| && paths[i] == p;
      WalkComplete(dir, entries, ignore, found[i]);
    }
    if !Ignored(p, ignore) && exists c, k :: 0 <= k < |entries| && FileAt(dir, entries[k], p, c) {
      var c, k :| 0 <= k < |entries| && FileAt(dir, entries[k], p, c);
      WalkComplete(dir, entries, ignore, Found(p, c));
      var i :| 0 <= i < |found| && found[i] == Found(p, c);
      assert paths[i] == p;
    }
  }

  /** `listFilesRecursive(dir)`: the paths of the walk, in walk order. It
      lists exactly the paths of the tree's files, at any depth, that end in
      no ignored extension. */
  function ListFilesRecursive(dir: string, entries: seq<Node>, ignore: seq<string>): (r: seq<string>)
    ensures |r| == |Walk(dir, entries, ignore)|
    ensures forall k :: 0 <= k < |r| ==> r[k] == Walk(dir, entries, ignore)[k].path
    ensures forall p :: p in r <==> Listable(dir, entries, ignore, p)
  {
    var found := Walk(dir, entries, ignore);
    forall p
      ensures p in FoundPaths(found) <==> Listable(dir, entries, ignore, p)
    {
      WalkPaths(dir, entries, ignore, p);
    }
    FoundPaths(found)
  }

  /** The ignore list read from the settings: `settings.build?.ignoreExtensions || []`. */
  function IgnoreList(configured: Outcomes.Option<seq<string>>): seq<string> {
    configured.GetOr([])
  }

  /** With no configured ignore list every file of the tree is listed. */
  lemma NothingIgnoredByDefault(dir: string, entries: seq<Node>, f: Found)
    ensures f in Walk(dir, entries, IgnoreList(Outcomes.None)) <==>
      exists k :: 0 <= k < |entries| && FileAt(dir, entries[k], f.path, f.content)
  {
    WalkComplete(dir, entries, [], f);
  }
}
