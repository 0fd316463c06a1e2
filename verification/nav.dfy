/** `treeToNav` and the root of `getNavigationItems`
    (docs/src/lib/docs-navigation.ts): a folder of the page tree becomes a
    list of navigation items, a page a link and a sub-folder a section,
    sorted by order and then by title. The collation `localeCompare` uses is
    locale dependent; it is a parameter here, a collation key on titles. */
module Nav {
  import opened Outcomes
  import opened Text
  import opened Titles
  import opened NavTree

  /** `order ?? 9999`. */
  const DefaultOrder: int := 9999

  /** The page-object fields the renderer skips when listing a folder. */
  predicate Reserved(key: string) {
    key == "__file" || key == "filename" || key == "path" || key == "frontmatter"
  }

  datatype NavItem =
    | Link(title: string, url: string, icon: Icon, order: int)
    | Section(title: string, icon: Icon, items: seq<NavItem>, order: int)

  /** The two fixed entries of the navigation root. */
  datatype RootItem =
    | RootLink(title: string, url: string, icon: Icon)
    | RootGroup(title: string, icon: Icon, items: seq<NavItem>)

  // ---------------------------------------------------------------------
  // Sorting: `(a, b) => (a.order - b.order) || a.title.localeCompare(b.title)`

  /** `a` sorts strictly before `b`. */
  predicate Precedes(a: NavItem, b: NavItem, collate: string -> real) {
    a.order < b.order || (a.order == b.order && collate(a.title) < collate(b.title))
  }

  /** `a` may sort before `b`: `b` does not strictly precede it. */
  predicate NotAfter(a: NavItem, b: NavItem, collate: string -> real) {
    !Precedes(b, a, collate)
  }

  predicate Sorted(xs: seq<NavItem>, collate: string -> real) {
    forall i, j :: 0 <= i < j < |xs| ==> NotAfter(xs[i], xs[j], collate)
  }

  /** Places `x` after every item it does not strictly precede, so that
      items comparing equal keep their order (the sort is stable). */
  function InsertSorted(s: seq<NavItem>, x: NavItem, collate: string -> real): (r: seq<NavItem>)
    requires Sorted(s, collate)
    ensures Sorted(r, collate)
    ensures multiset(r) == multiset(s) + multiset{x}
    decreases |s|
  {
    if |s| == 0 then [x]
    else if Precedes(x, s[0], collate) then
      SortedCons(x, s, collate);
      [x] + s
    else
      var rest := InsertSorted(s[1..], x, collate);
      assert s == [s[0]] + s[1..];
      FirstNotAfterRest(s, x, rest, collate);
      SortedCons(s[0], rest, collate);
      [s[0]] + rest
  }

  /** The head of a sorted list is not after any item of the rest, nor
      after an `x` it is not preceded by. */
  lemma FirstNotAfterRest(s: seq<NavItem>, x: NavItem, rest: seq<NavItem>, collate: string -> real)
    requires Sorted(s, collate) && |s| > 0 && !Precedes(x, s[0], collate)
    requires multiset(rest) == multiset(s[1..]) + multiset{x}
    ensures forall y :: y in rest ==> NotAfter(s[0], y, collate)
  {
    forall y | y in rest ensures NotAfter(s[0], y, collate) {
      assert y in multiset(rest);
      if y != x {
        assert y in multiset(s[1..]);
        var j :| 0 <= j < |s[1..]| && s[1..][j] == y;
        assert s[j + 1] == y;
      }
    }
  }

  lemma SortedCons(a: NavItem, rest: seq<NavItem>, collate: string -> real)
    requires Sorted(rest, collate)
    requires forall y :: y in rest ==> NotAfter(a, y, collate)
    ensures Sorted([a] + rest, collate)
  {
    var r := [a] + rest;
    forall i, j | 0 <= i < j < |r| ensures NotAfter(r[i], r[j], collate) {
      assert r[j] == rest[j - 1];
      if i > 0 {
        assert r[i] == rest[i - 1];
      }
    }
  }

  /** Where insertion puts `x`: after the longest run of items it does not
      strictly precede, in front of the first one it does. Items that
      compare equal to `x` therefore stay in front of it. */
  lemma {:induction false} InsertSortedPosition(s: seq<NavItem>, x: NavItem, collate: string -> real) returns (p: nat)
    requires Sorted(s, collate)
    ensures InsertedAt(InsertSorted(s, x, collate), s, x, p)
    ensures forall i :: 0 <= i < p ==> !Precedes(x, s[i], collate)
    ensures p < |s| ==> Precedes(x, s[p], collate)
    decreases |s|
  {
    if |s| == 0 || Precedes(x, s[0], collate) {
      p := 0;
    } else {
      var t := s[1..];
      var q := InsertSortedPosition(t, x, collate);
      p := q + 1;
      assert InsertSorted(s, x, collate) == [s[0]] + InsertSorted(t, x, collate);
      InsertedAtCons(InsertSorted(t, x, collate), s, x, q);
      forall i | 1 <= i < p ensures !Precedes(x, s[i], collate) {
        assert s[i] == t[i - 1];
      }
    }
  }

  /** `r` is `s` with `x` inserted at position `p`. */
  ghost predicate InsertedAt<T>(r: seq<T>, s: seq<T>, x: T, p: nat) {
    && p <= |s| && |r| == |s| + 1 && r[p] == x
    && (forall i :: 0 <= i < p ==> r[i] == s[i])
    && (forall i :: p < i <= |s| ==> r[i] == s[i - 1])
  }

  lemma InsertedAtCons<T>(r: seq<T>, s: seq<T>, x: T, q: nat)
    requires |s| > 0 && InsertedAt(r, s[1..], x, q)
    ensures InsertedAt([s[0]] + r, s, x, q + 1)
  {
    var r2 := [s[0]] + r;
    forall i | 1 <= i < q + 1 ensures r2[i] == s[i] {
      assert r2[i] == r[i - 1] && s[i] == s[1..][i - 1];
    }
    forall i | q + 1 < i <= |s| ensures r2[i] == s[i - 1] {
      assert r2[i] == r[i - 1] && s[i - 1] == s[1..][i - 2];
    }
  }

  /** `Array.prototype.sort` with the comparator above. */
  function SortItems(xs: seq<NavItem>, collate: string -> real): (r: seq<NavItem>)
    ensures Sorted(r, collate)
    ensures multiset(r) == multiset(xs)
    decreases |xs|
  {
    if |xs| == 0 then []
    else
      var init := xs[..|xs| - 1];
      assert xs == init + [xs[|xs| - 1]];
      InsertSorted(SortItems(init, collate), xs[|xs| - 1], collate)
  }

  // ---------------------------------------------------------------------
  // Rendering

  /** `parentPath.split('/').pop() || 'Index'`. */
  function ParentName(parent: string): string {
    var fields := Split(parent, '/');
    var last := fields[|fields| - 1];
    if |last| > 0 then last else "Index"
  }

  /** The title of a page: `navbar_title`, else `Introduction` for the
      root index, else the formatted key, the parent folder's name standing
      in for a key `index`. */
  function PageTitle(key: string, path: string, fm: Frontmatter, parent: string): string {
    if Truthy(fm.navbarTitle) then fm.navbarTitle.value
    else if path == "/docs" || path == "/docs/index" then "Introduction"
    else FormatTitle(if key == "index" then ParentName(parent) else key)
  }

  /** `value.path === '/docs/index' ? '/docs' : value.path`. */
  function PageUrl(path: string): string {
    if path == "/docs/index" then "/docs" else path
  }

  /** The item for one entry of a folder. */
  function Item(key: string, node: DocNode, parent: string, collate: string -> real): (r: NavItem)
    ensures r.Link? <==> node.Page?
    decreases node, 2
  {
    match node
    case Page(path, _, fm) =>
      Link(PageTitle(key, path, fm, parent), PageUrl(path), GetIcon(key), fm.order.GetOr(DefaultOrder))
    case Folder(_) =>
      var children := TreeToNav(node, parent + "/" + key, collate);
      Section(FormatTitle(key), GetIcon(key), children,
              if |children| > 0 then children[0].order else DefaultOrder)
  }

  /** The items of the entries from position `i` on, reserved keys skipped. */
  function Mapped(node: DocNode, i: nat, parent: string, collate: string -> real): seq<NavItem>
    requires node.Folder? && i <= |node.entries|
    decreases node, 0, |node.entries| - i
  {
    if i == |node.entries| then []
    else
      var e := node.entries[i];
      (if Reserved(e.0) then [] else [Item(e.0, e.1, parent, collate)])
        + Mapped(node, i + 1, parent, collate)
  }

  /** `treeToNav(node, parentPath)`; a page has no entries of its own. */
  function TreeToNav(node: DocNode, parent: string, collate: string -> real): (r: seq<NavItem>)
    ensures Sorted(r, collate)
    decreases node, 1
  {
    match node
    case Page(_, _, _) => []
    case Folder(_) => SortItems(Mapped(node, 0, parent, collate), collate)
  }

  /** The whole navigation: a link home and the documentation section. */
  function GetNavigationItems(pages: seq<(string, Option<Frontmatter>)>, collate: string -> real): (r: seq<RootItem>)
    ensures |r| == 2
    ensures r[0] == RootLink("Home", "/", Home)
    ensures r[1].RootGroup? && r[1].title == "Documentation" && r[1].icon == BookOpen
    ensures Sorted(r[1].items, collate)
  {
    [RootLink("Home", "/", Home),
     RootGroup("Documentation", BookOpen, TreeToNav(Folder(BuildTree(pages)), "/docs", collate))]
  }

  // ---------------------------------------------------------------------
  // Properties

  /** Entry `k` of the folder is listed and yields `x`. */
  predicate ItemAt(node: DocNode, k: nat, parent: string, collate: string -> real, x: NavItem)
    requires node.Folder? && k < |node.entries|
  {
    !Reserved(node.entries[k].0) && x == Item(node.entries[k].0, node.entries[k].1, parent, collate)
  }

  /** Exactly the non-reserved entries from position `i` on yield items. */
  lemma {:induction false} MappedMembers(node: DocNode, i: nat, parent: string, collate: string -> real, x: NavItem)
    requires node.Folder? && i <= |node.entries|
    ensures x in Mapped(node, i, parent, collate) <==>
      exists k :: i <= k < |node.entries| && ItemAt(node, k, parent, collate, x)
    decreases |node.entries| - i
  {
    if i < |node.entries| {
      var e := node.entries[i];
      var head := if Reserved(e.0) then [] else [Item(e.0, e.1, parent, collate)];
      var tail := Mapped(node, i + 1, parent, collate);
      assert Mapped(node, i, parent, collate) == head + tail;
      MappedMembers(node, i + 1, parent, collate, x);
      assert x in head <==> ItemAt(node, i, parent, collate, x);
      if exists k :: i <= k < |node.entries| && ItemAt(node, k, parent, collate, x) {
        var k :| i <= k < |node.entries| && ItemAt(node, k, parent, collate, x);
        assert k == i || (i + 1 <= k < |node.entries| && ItemAt(node, k, parent, collate, x));
      }
    }
  }

  /** A folder lists one item per entry whose key is not reserved, and
      no other: reserved keys never show up. */
  lemma TreeToNavMembers(es: seq<(string, DocNode)>, parent: string, collate: string -> real, x: NavItem)
    ensures x in TreeToNav(Folder(es), parent, collate) <==>
      exists k :: 0 <= k < |es| && ItemAt(Folder(es), k, parent, collate, x)
  {
    var m := Mapped(Folder(es), 0, parent, collate);
    assert multiset(TreeToNav(Folder(es), parent, collate)) == multiset(m);
    assert x in TreeToNav(Folder(es), parent, collate) <==> x in multiset(m);
    MappedMembers(Folder(es), 0, parent, collate, x);
  }

  /** The number of entries whose key is not reserved. */
  function CountVisible(es: seq<(string, DocNode)>): (n: nat)
    ensures n <= |es|
  {
    if |es| == 0 then 0
    else (if Reserved(es[0].0) then 0 else 1) + CountVisible(es[1..])
  }

  lemma {:induction false} MappedLength(node: DocNode, i: nat, parent: string, collate: string -> real)
    requires node.Folder? && i <= |node.entries|
    ensures |Mapped(node, i, parent, collate)| == CountVisible(node.entries[i..])
    decreases |node.entries| - i
  {
    if i < |node.entries| {
      MappedLength(node, i + 1, parent, collate);
      assert node.entries[i..][1..] == node.entries[i + 1..];
    } else {
      assert node.entries[i..] == [];
    }
  }

  /** Sorting neither drops nor repeats items: a folder lists as many
      items as it has non-reserved keys. */
  lemma TreeToNavLength(es: seq<(string, DocNode)>, parent: string, collate: string -> real)
    ensures |TreeToNav(Folder(es), parent, collate)| == CountVisible(es)
  {
    var m := Mapped(Folder(es), 0, parent, collate);
    assert |multiset(TreeToNav(Folder(es), parent, collate))| == |multiset(m)|;
    MappedLength(Folder(es), 0, parent, collate);
    assert es[0..] == es;
  }

  /** The link for a page: URL `/docs/index` shown as `/docs`, the icon of
      its key, a missing order read as 9999, and the first title rule that
      applies. */
  lemma PageLink(key: string, path: string, filename: string, fm: Frontmatter, parent: string, collate: string -> real)
    ensures var r := Item(key, Page(path, filename, fm), parent, collate);
      && r.Link?
      && (path == "/docs/index" ==> r.url == "/docs")
      && (path != "/docs/index" ==> r.url == path)
      && r.icon == GetIcon(key)
      && (fm.order.None? ==> r.order == DefaultOrder)
      && (fm.order.Some? ==> r.order == fm.order.value)
      && (Truthy(fm.navbarTitle) ==> r.title == fm.navbarTitle.value)
      && (!Truthy(fm.navbarTitle) && (path == "/docs" || path == "/docs/index") ==> r.title == "Introduction")
  {
  }

  /** An `index` page inside folder `name` is titled after that folder. */
  lemma IndexTitledAfterFolder(grandparent: string, name: string, path: string, fm: Frontmatter)
    requires |name| > 0 && '/' !in name
    requires !Truthy(fm.navbarTitle) && path != "/docs" && path != "/docs/index"
    ensures PageTitle("index", path, fm, grandparent + "/" + name) == FormatTitle(name)
  {
    assert grandparent + "/" + name == grandparent + ['/'] + name;
    SplitLastField(grandparent, '/', name);
  }

  /** Any other page without a navbar title is titled after its own key,
      so the title carries no dash or underscore. */
  lemma KeyTitle(key: string, path: string, fm: Frontmatter, parent: string)
    requires !Truthy(fm.navbarTitle) && path != "/docs" && path != "/docs/index" && key != "index"
    ensures PageTitle(key, path, fm, parent) == FormatTitle(key)
    ensures '-' !in PageTitle(key, path, fm, parent) && '_' !in PageTitle(key, path, fm, parent)
  {
    FormatTitleNoDashes(key);
  }

  /** A section is titled and iconed after its key, and takes the smallest
      order among its items, 9999 when it has none. */
  lemma SectionOrder(key: string, es: seq<(string, DocNode)>, parent: string, collate: string -> real)
    ensures var r := Item(key, Folder(es), parent, collate);
      && r.Section?
      && r.title == FormatTitle(key) && r.icon == GetIcon(key)
      && r.items == TreeToNav(Folder(es), parent + "/" + key, collate)
      && (|r.items| == 0 ==> r.order == DefaultOrder)
      && (forall c :: c in r.items ==> r.order <= c.order)
      && (|r.items| > 0 ==> exists c :: c in r.items && c.order == r.order)
  {
    var r := Item(key, Folder(es), parent, collate);
    var items := r.items;
    forall c | c in items ensures r.order <= c.order {
      var j :| 0 <= j < |items| && items[j] == c;
      if j > 0 {
        assert NotAfter(items[0], items[j], collate);
      }
    }
  }

  /** Sorted lists start with the smallest order. */
  lemma SortedFirstIsMin(xs: seq<NavItem>, collate: string -> real)
    requires Sorted(xs, collate) && |xs| > 0
    ensures forall j :: 0 <= j < |xs| ==> xs[0].order <= xs[j].order
  {
    forall j | 0 < j < |xs| ensures xs[0].order <= xs[j].order {
      assert NotAfter(xs[0], xs[j], collate);
    }
  }
}
