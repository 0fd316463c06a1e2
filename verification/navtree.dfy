/** The page tree `getNavigationItems` builds before rendering
    (docs/src/lib/docs-navigation.ts): each documentation page found under
    `pages/docs/` is filed under the segments of its path relative to that
    directory, with the extension dropped from every segment. The tree is a
    JavaScript object in the source; here a folder is an association list in
    insertion order. The result of `import.meta.glob` is an input: the page
    paths in key order, each with its frontmatter if it has one. */
module NavTree {
  import opened Outcomes
  import opened Text
  import opened Seqs
  import opened Titles

  /** The frontmatter fields the navigation reads. */
  datatype Frontmatter = Frontmatter(navbarTitle: Option<string>, order: Option<int>)

  /** `pages[fullPath] || {}` for a page without frontmatter. */
  const NoFrontmatter: Frontmatter := Frontmatter(None, None)

  /** A page node (`{ __file: true, path, filename, frontmatter }`) or a
      folder node (`{}`, filled with child keys). */
  datatype DocNode =
    | Page(path: string, filename: string, frontmatter: Frontmatter)
    | Folder(entries: seq<(string, DocNode)>)

  /** The glob's directory marker, `/pages/docs/`. */
  const DocsMarker: string := "/pages/docs/"

  /** The prefix the regex `.` may span: up to the first line terminator. */
  function FirstLine(s: string): (n: nat)
    ensures n <= |s|
    ensures forall i :: 0 <= i < n ==> !IsLineTerminator(s[i])
    ensures n < |s| ==> IsLineTerminator(s[n])
    decreases |s|
  {
    if |s| == 0 || IsLineTerminator(s[0]) then 0
    else
      var n := FirstLine(s[1..]);
      assert forall i :: 1 <= i < 1 + n ==> s[i] == s[1..][i - 1];
      1 + n
  }

  /** The last position at or below `i` where the marker occurs. */
  function LastMarker(s: string, i: nat): (r: Option<nat>)
    ensures r.Some? ==> r.value <= i && OccursAt(s, DocsMarker, r.value)
    ensures r.Some? ==> forall k :: r.value < k <= i ==> !OccursAt(s, DocsMarker, k)
    ensures r.None? ==> forall k :: 0 <= k <= i ==> !OccursAt(s, DocsMarker, k)
  {
    if OccursAt(s, DocsMarker, i) then Some(i)
    else if i == 0 then None
    else LastMarker(s, i - 1)
  }

  /** `fullPath.replace(/^.*\/pages\/docs\//, '')`: the greedy `.*` reaches
      the last marker that starts on the first line, and everything up to
      the end of that marker is removed; without such a marker the path is
      kept. */
  function RelPath(fullPath: string): (r: string)
    ensures EndsWith(fullPath, r)
    ensures r != fullPath ==>
      var j := |fullPath| - |r| - |DocsMarker|;
      && 0 <= j <= FirstLine(fullPath) && OccursAt(fullPath, DocsMarker, j)
      && forall k :: j < k <= FirstLine(fullPath) ==> !OccursAt(fullPath, DocsMarker, k)
    ensures (forall k :: 0 <= k <= FirstLine(fullPath) ==> !OccursAt(fullPath, DocsMarker, k)) ==>
      r == fullPath
  {
    match LastMarker(fullPath, FirstLine(fullPath))
    case None => fullPath
    case Some(j) => fullPath[j + |DocsMarker|..]
  }

  /** The keys of a folder, in insertion order. */
  function Keys(es: seq<(string, DocNode)>): (r: seq<string>)
    ensures |r| == |es|
    ensures forall i :: 0 <= i < |es| ==> r[i] == es[i].0
  {
    seq(|es|, i requires 0 <= i < |es| => es[i].0)
  }

  /** The position of key `name` in a folder (`current[name]`). */
  function FindKey(es: seq<(string, DocNode)>, name: string): (r: Option<nat>)
    ensures r.Some? ==> r.value < |es| && es[r.value].0 == name
    ensures r.Some? ==> forall k :: 0 <= k < r.value ==> es[k].0 != name
    ensures r.None? ==> forall k :: 0 <= k < |es| ==> es[k].0 != name
    decreases |es|
  {
    if |es| == 0 then None
    else if es[0].0 == name then Some(0)
    else match FindKey(es[1..], name)
      case None => None
      case Some(k) => Some(k + 1)
  }

  /** The node a path of names leads to; a path through a page leads
      nowhere, as the renderer never looks inside a page. */
  function Reach(es: seq<(string, DocNode)>, names: seq<string>): Option<DocNode>
    requires |names| >= 1
    decreases |names|
  {
    match FindKey(es, names[0])
    case None => None
    case Some(k) =>
      if |names| == 1 then Some(es[k].1)
      else match es[k].1
        case Page(_, _, _) => None
        case Folder(children) => Reach(children, names[1..])
  }

  /** A proper prefix of the path already names a page. */
  predicate Blocked(es: seq<(string, DocNode)>, names: seq<string>)
    requires |names| >= 1
    decreases |names|
  {
    match FindKey(es, names[0])
    case None => false
    case Some(k) =>
      |names| > 1 &&
      match es[k].1
      case Page(_, _, _) => true
      case Folder(children) => Blocked(children, names[1..])
  }

  /** The inner loop of `getNavigationItems`: walk the names, creating a
      folder for every missing intermediate name and the page for a
      missing last one; an existing key is never replaced. */
  function Insert(es: seq<(string, DocNode)>, names: seq<string>, page: DocNode): (r: seq<(string, DocNode)>)
    requires |names| >= 1
    ensures |r| == |es| || (|r| == |es| + 1 && r[|es|].0 == names[0] && forall k :: 0 <= k < |es| ==> es[k].0 != names[0])
    ensures forall k :: 0 <= k < |es| ==> r[k].0 == es[k].0
    ensures forall k :: 0 <= k < |es| && es[k].1.Page? ==> r[k] == es[k]
    ensures forall k :: 0 <= k < |es| ==> r[k].1.Folder? == es[k].1.Folder?
    decreases |names|
  {
    match FindKey(es, names[0])
    case None =>
      var node := if |names| == 1 then page else Folder(Insert([], names[1..], page));
      es + [(names[0], node)]
    case Some(k) =>
      if |names| == 1 then es
      else match es[k].1
        case Page(_, _, _) => es
        case Folder(children) => es[k := (names[0], Folder(Insert(children, names[1..], page)))]
  }

  /** `part.replace(/\.(mdx?|astro)$/, '')` for every segment. */
  function Names(parts: seq<string>): (r: seq<string>)
    ensures |r| == |parts|
    ensures forall i :: 0 <= i < |parts| ==> r[i] == StripExtension(parts[i])
  {
    seq(|parts|, i requires 0 <= i < |parts| => StripExtension(parts[i]))
  }

  /** The page object created for a file. */
  function PageFor(rel: string, frontmatter: Option<Frontmatter>): (p: DocNode)
    ensures p.Page? && StartsWith(p.path, "/docs/")
  {
    var parts := Split(rel, '/');
    var path := "/docs/" + StripExtension(rel);
    StartsWithConcat("/docs/", StripExtension(rel));
    Page(path, parts[|parts| - 1], frontmatter.GetOr(NoFrontmatter))
  }

  /** The names a glob path is filed under. */
  function PathNames(fullPath: string): (r: seq<string>)
    ensures |r| >= 1
  {
    Names(Split(RelPath(fullPath), '/'))
  }

  /** Where one glob entry is filed: its names and its page. */
  function Filing(fullPath: string, frontmatter: Option<Frontmatter>): (f: (seq<string>, DocNode))
    ensures |f.0| >= 1 && f.1.Page? && StartsWith(f.1.path, "/docs/")
  {
    (PathNames(fullPath), PageFor(RelPath(fullPath), frontmatter))
  }

  /** The filings of all glob entries, in the glob's key order. */
  function Filings(pages: seq<(string, Option<Frontmatter>)>): (r: seq<(seq<string>, DocNode)>)
    ensures |r| == |pages|
    ensures forall i :: 0 <= i < |pages| ==> r[i] == Filing(pages[i].0, pages[i].1)
  {
    seq(|pages|, i requires 0 <= i < |pages| => Filing(pages[i].0, pages[i].1))
  }

  /** Every filing names at least one segment and holds a page under `/docs/`. */
  predicate ValidFilings(items: seq<(seq<string>, DocNode)>) {
    forall i :: 0 <= i < |items| ==> |items[i].0| >= 1 && items[i].1.Page? && StartsWith(items[i].1.path, "/docs/")
  }

  /** The `forEach` over the glob's keys: each filing inserted in turn. */
  function InsertAll(items: seq<(seq<string>, DocNode)>): seq<(string, DocNode)>
    requires ValidFilings(items)
    decreases |items|
  {
    if |items| == 0 then []
    else
      var last := items[|items| - 1];
      Insert(InsertAll(items[..|items| - 1]), last.0, last.1)
  }

  /** The tree `getNavigationItems` builds from the glob result. */
  function BuildTree(pages: seq<(string, Option<Frontmatter>)>): seq<(string, DocNode)> {
    InsertAll(Filings(pages))
  }

  // ---------------------------------------------------------------------
  // Properties of insertion

  lemma FindKeyAppend(es: seq<(string, DocNode)>, x: (string, DocNode), name: string)
    ensures FindKey(es + [x], name) ==
      if FindKey(es, name).Some? then FindKey(es, name)
      else if x.0 == name then Some(|es|) else None
  {
    var r := FindKey(es + [x], name);
    if FindKey(es, name).Some? {
      var k := FindKey(es, name).value;
      assert (es + [x])[k] == es[k];
      FindKeyUnique(es + [x], name, k);
    } else if x.0 == name {
      assert (es + [x])[|es|] == x;
      FindKeyUnique(es + [x], name, |es|);
    }
  }

  /** The first position holding a key is the one `FindKey` returns. */
  lemma {:induction false} FindKeyUnique(es: seq<(string, DocNode)>, name: string, k: nat)
    requires k < |es| && es[k].0 == name
    requires forall j :: 0 <= j < k ==> es[j].0 != name
    ensures FindKey(es, name) == Some(k)
    decreases k
  {
    if k > 0 {
      assert es[0].0 != name;
      assert forall j :: 0 <= j < k - 1 ==> es[1..][j] == es[j + 1];
      FindKeyUnique(es[1..], name, k - 1);
    }
  }

  lemma FindKeySameKeys(es: seq<(string, DocNode)>, es': seq<(string, DocNode)>, name: string)
    requires |es'| == |es| && forall k :: 0 <= k < |es| ==> es'[k].0 == es[k].0
    ensures FindKey(es', name) == FindKey(es, name)
  {
    match FindKey(es, name)
    case None =>
      assert forall k :: 0 <= k < |es'| ==> es'[k].0 != name;
    case Some(k) =>
      FindKeyUnique(es', name, k);
  }

  /** First wins: when the path already leads to a node, or runs through
      a page, the tree is left as it was. */
  lemma {:induction false} InsertFirstWins(es: seq<(string, DocNode)>, names: seq<string>, page: DocNode)
    requires |names| >= 1
    requires Reach(es, names).Some? || Blocked(es, names)
    ensures Insert(es, names, page) == es
    decreases |names|
  {
    match FindKey(es, names[0])
    case None =>
      assert false;
    case Some(k) =>
      if |names| > 1 && es[k].1.Folder? {
        var children := es[k].1.entries;
        InsertFirstWins(children, names[1..], page);
        assert es[k] == (names[0], Folder(children));
        assert es[k := (names[0], Folder(children))] == es;
      }
  }

  /** A fresh, unblocked path leads to the inserted page afterwards. */
  lemma {:induction false} InsertFresh(es: seq<(string, DocNode)>, names: seq<string>, page: DocNode)
    requires |names| >= 1
    requires Reach(es, names).None? && !Blocked(es, names)
    ensures Reach(Insert(es, names, page), names) == Some(page)
    decreases |names|
  {
    var r := Insert(es, names, page);
    match FindKey(es, names[0])
    case None =>
      var node := if |names| == 1 then page else Folder(Insert([], names[1..], page));
      FindKeyAppend(es, (names[0], node), names[0]);
      if |names| > 1 {
        InsertFresh([], names[1..], page);
      }
    case Some(k) =>
      var children := es[k].1.entries;
      InsertFresh(children, names[1..], page);
      var r := es[k := (names[0], Folder(Insert(children, names[1..], page)))];
      FindKeySameKeys(es, r, names[0]);
  }

  /** A page already in the tree stays where it is, whatever is inserted. */
  lemma {:induction false} InsertKeepsPages(es: seq<(string, DocNode)>, names: seq<string>, page: DocNode, other: seq<string>)
    requires |names| >= 1 && |other| >= 1
    requires Reach(es, other).Some? && Reach(es, other).value.Page?
    ensures Reach(Insert(es, names, page), other) == Reach(es, other)
    decreases |names|
  {
    var r := Insert(es, names, page);
    var k2 := FindKey(es, other[0]).value;
    match FindKey(es, names[0])
    case None =>
      var node := if |names| == 1 then page else Folder(Insert([], names[1..], page));
      FindKeyAppend(es, (names[0], node), other[0]);
      assert r[k2] == es[k2];
      ReachSameAt(es, r, other, k2);
    case Some(k) =>
      if |names| > 1 && es[k].1.Folder? {
        var children := es[k].1.entries;
        FindKeySameKeys(es, r, other[0]);
        if k2 == k {
          InsertKeepsPages(children, names[1..], page, other[1..]);
        } else {
          ReachSameAt(es, r, other, k2);
        }
      }
  }

  /** Reach only depends on the entry the first name selects. */
  lemma ReachSameAt(es: seq<(string, DocNode)>, es': seq<(string, DocNode)>, names: seq<string>, k: nat)
    requires |names| >= 1
    requires FindKey(es, names[0]) == Some(k) && FindKey(es', names[0]) == Some(k)
    requires es'[k] == es[k]
    ensures Reach(es', names) == Reach(es, names)
  {
  }

  // ---------------------------------------------------------------------
  // Shape of the built tree

  /** Keys are distinct in every folder and every page lives under
      `/docs/`. */
  ghost predicate WellFormedNode(node: DocNode)
    decreases node
  {
    match node
    case Page(path, _, _) => StartsWith(path, "/docs/")
    case Folder(es) =>
      && NoDuplicates(Keys(es))
      && forall i :: 0 <= i < |es| ==> WellFormedNode(es[i].1)
  }

  ghost predicate WellFormed(es: seq<(string, DocNode)>) {
    WellFormedNode(Folder(es))
  }

  lemma {:induction false} InsertWellFormed(es: seq<(string, DocNode)>, names: seq<string>, page: DocNode)
    requires |names| >= 1 && WellFormed(es)
    requires page.Page? && StartsWith(page.path, "/docs/")
    ensures WellFormed(Insert(es, names, page))
    decreases |names|
  {
    var r := Insert(es, names, page);
    match FindKey(es, names[0])
    case None =>
      if |names| > 1 {
        InsertWellFormed([], names[1..], page);
      }
      assert Keys(r) == Keys(es) + [names[0]];
      assert names[0] !in Keys(es);
      NoDuplicatesSnoc(Keys(es), names[0]);
      assert forall i :: 0 <= i < |es| ==> r[i] == es[i];
    case Some(k) =>
      if |names| > 1 && es[k].1.Folder? {
        var children := es[k].1.entries;
        InsertWellFormed(children, names[1..], page);
        assert Keys(r) == Keys(es);
      }
  }

  lemma NoDuplicatesSnoc(xs: seq<string>, x: string)
    requires NoDuplicates(xs) && x !in xs
    ensures NoDuplicates(xs + [x])
  {
  }

  /** Every tree built from filings is well formed. */
  lemma {:induction false} InsertAllWellFormed(items: seq<(seq<string>, DocNode)>)
    requires ValidFilings(items)
    ensures WellFormed(InsertAll(items))
    decreases |items|
  {
    if |items| > 0 {
      var last := items[|items| - 1];
      InsertAllWellFormed(items[..|items| - 1]);
      InsertWellFormed(InsertAll(items[..|items| - 1]), last.0, last.1);
    }
  }

  lemma BuildTreeWellFormed(pages: seq<(string, Option<Frontmatter>)>)
    ensures WellFormed(BuildTree(pages))
  {
    InsertAllWellFormed(Filings(pages));
  }

  /** First wins across the whole build: a page filed by an earlier glob
      entry is never replaced by a later one. */
  lemma {:induction false} InsertAllKeepsPages(items: seq<(seq<string>, DocNode)>, j: nat, names: seq<string>)
    requires ValidFilings(items) && j <= |items| && |names| >= 1
    requires Reach(InsertAll(items[..j]), names).Some? && Reach(InsertAll(items[..j]), names).value.Page?
    ensures Reach(InsertAll(items), names) == Reach(InsertAll(items[..j]), names)
    decreases |items|
  {
    if j == |items| {
      assert items[..j] == items;
    } else {
      var init := items[..|items| - 1];
      assert init[..j] == items[..j];
      InsertAllKeepsPages(init, j, names);
      var last := items[|items| - 1];
      InsertKeepsPages(InsertAll(init), last.0, last.1, names);
    }
  }

  /** A filing whose path is still free when it comes up is filed there. */
  lemma InsertAllFiles(items: seq<(seq<string>, DocNode)>, j: nat)
    requires ValidFilings(items) && j < |items|
    requires Reach(InsertAll(items[..j]), items[j].0).None? && !Blocked(InsertAll(items[..j]), items[j].0)
    ensures Reach(InsertAll(items[..j + 1]), items[j].0) == Some(items[j].1)
  {
    assert items[..j + 1][..j] == items[..j];
    InsertFresh(InsertAll(items[..j]), items[j].0, items[j].1);
  }

  /** Over a whole build: when filing `j`'s path is still free once the
      filings before it are inserted, the finished tree holds filing `j`'s
      page there, whatever comes after. */
  lemma InsertAllFirstWins(items: seq<(seq<string>, DocNode)>, j: nat)
    requires ValidFilings(items) && j < |items|
    requires Reach(InsertAll(items[..j]), items[j].0).None? && !Blocked(InsertAll(items[..j]), items[j].0)
    ensures Reach(InsertAll(items), items[j].0) == Some(items[j].1)
  {
    InsertAllFiles(items, j);
    InsertAllKeepsPages(items, j + 1, items[j].0);
  }
}
