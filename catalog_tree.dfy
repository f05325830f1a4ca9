/** The catalog tree (`AssetCatalogTree`, `AssetCatalogTreeItem`): one item per path prefix
    of the catalogs inserted. The source nests child maps keyed by component name and gives
    each item a raw pointer to its parent; here the items sit in one map keyed by their full
    path, and the parent pointer is the parent's key. */
module CatalogTree {
  import opened Wrappers
  import opened Strings
  import opened Uuid
  import opened CatalogPath
  import opened AssetCatalog

  /** `AssetCatalogTreeItem`: `name` is the path component the item stands for. */
  datatype TreeItem = TreeItem(name: string, catalogId: CatalogId, simpleName: string, parent: Option<Path>)

  /** The parent handle of the item at `p`: none for a root item. */
  function ParentHandle(p: Path): (r: Option<Path>)
    requires p != []
    ensures r.None? <==> |p| == 1
    ensures r.Some? ==> r.value == Parent(p) && r.value != []
  {
    if |p| == 1 then None else Some(p[..|p| - 1])
  }

  /** Every item is stored under its own path: its name is the last component and its
      parent handle leads to the item one level up, which exists. (Both quantifiers fire on
      a lookup only, so that the parent chain is not unrolled without end.) */
  predicate ValidItems(items: map<Path, TreeItem>) {
    && (forall p {:trigger items[p]} :: p in items ==>
          p != [] && items[p].name == p[|p| - 1] && items[p].parent == ParentHandle(p))
    && (forall p {:trigger items[p]} :: p in items && |p| > 1 ==> Parent(p) in items)
  }

  /** The non-empty prefixes of `p` of length at most `k`. */
  function Prefixes(p: Path, k: nat): (r: set<Path>)
    requires k <= |p|
    ensures forall q {:trigger q in r} :: q in r <==> 1 <= |q| <= k && q == p[..|q|]
  {
    if k == 0 then {} else Prefixes(p, k - 1) + {p[..k]}
  }

  /** The item `insert_item` leaves at prefix `q` of `c.path`: an existing item is reused,
      and at the last component a placeholder with the nil identifier adopts `c.id`; a new
      item carries `c`'s identifier and label only at the last component. */
  function NodeAfterInsert(items: map<Path, TreeItem>, c: Catalog, q: Path): TreeItem
    requires q != []
  {
    if q in items then
      if q == c.path && items[q].catalogId == NIL then items[q].(catalogId := c.id) else items[q]
    else
      var isLast := q == c.path;
      TreeItem(q[|q| - 1], if isLast then c.id else NIL, if isLast then c.simpleName else "", ParentHandle(q))
  }

  /** The items after `insert_item` has dealt with the first `k` components of `c.path`:
      each step settles the next prefix from what is stored there at that point. */
  function InsertedUpTo(items: map<Path, TreeItem>, c: Catalog, k: nat): map<Path, TreeItem>
    requires k <= |c.path|
  {
    if k == 0 then items
    else
      var m := InsertedUpTo(items, c, k - 1);
      m[c.path[..k] := NodeAfterInsert(m, c, c.path[..k])]
  }

  /** The items after `insert_item(c)`. */
  function Inserted(items: map<Path, TreeItem>, c: Catalog): map<Path, TreeItem> {
    InsertedUpTo(items, c, |c.path|)
  }

  /** Item by item, what the first `k` steps leave: the prefixes dealt with hold what
      `NodeAfterInsert` says of the original items, everything else is the original. */
  lemma {:induction false} InsertedUpToAt(items: map<Path, TreeItem>, c: Catalog, k: nat, q: Path)
    requires k <= |c.path|
    ensures var r := InsertedUpTo(items, c, k);
      && (q in r <==> q in items || q in Prefixes(c.path, k))
      && (q in r && q in Prefixes(c.path, k) ==> r[q] == NodeAfterInsert(items, c, q))
      && (q in r && q !in Prefixes(c.path, k) ==> r[q] == items[q])
  {
    if k > 0 {
      var p := c.path;
      var pk := p[..k];
      InsertedUpToAt(items, c, k - 1, q);
      InsertedUpToAt(items, c, k - 1, pk);
      assert pk !in Prefixes(p, k - 1);
      assert Prefixes(p, k) == Prefixes(p, k - 1) + {pk};
    }
  }

  /** `InsertedUpToAt` for every path at once, after the whole path. */
  lemma InsertedAt(items: map<Path, TreeItem>, c: Catalog)
    ensures var r := Inserted(items, c);
      forall q {:trigger q in r} :: (q in r <==> q in items || q in Prefixes(c.path, |c.path|))
        && (q in r && q in Prefixes(c.path, |c.path|) ==> r[q] == NodeAfterInsert(items, c, q))
        && (q in r && q !in Prefixes(c.path, |c.path|) ==> r[q] == items[q])
  {
    forall q {
      InsertedUpToAt(items, c, |c.path|, q);
    }
  }

  /** One item per distinct prefix: the keys grow by exactly the prefixes of the path, so
      inserting a path that is already there reuses its items. */
  lemma InsertedKeys(items: map<Path, TreeItem>, c: Catalog)
    ensures Inserted(items, c).Keys == items.Keys + Prefixes(c.path, |c.path|)
  {
    InsertedAt(items, c);
  }

  /** Inserting keeps every item in its place. */
  lemma InsertedValid(items: map<Path, TreeItem>, c: Catalog)
    requires ValidItems(items)
    ensures ValidItems(Inserted(items, c))
  {
    InsertedPlaced(items, c);
    InsertedClosed(items, c);
  }

  lemma InsertedPlaced(items: map<Path, TreeItem>, c: Catalog)
    requires ValidItems(items)
    ensures var r := Inserted(items, c);
      forall p {:trigger r[p]} :: p in r ==> p != [] && r[p].name == p[|p| - 1] && r[p].parent == ParentHandle(p)
  {
    var r := Inserted(items, c);
    var added := Prefixes(c.path, |c.path|);
    forall p | p in r ensures p != [] && r[p].name == p[|p| - 1] && r[p].parent == ParentHandle(p) {
      InsertedUpToAt(items, c, |c.path|, p);
      if p in added {
        assert p != [];
        if p in items {
          assert items[p].name == p[|p| - 1] && items[p].parent == ParentHandle(p);
        }
      } else {
        assert r[p] == items[p];
      }
    }
  }

  lemma InsertedClosed(items: map<Path, TreeItem>, c: Catalog)
    requires ValidItems(items)
    ensures var r := Inserted(items, c);
      forall p {:trigger r[p]} :: p in r && |p| > 1 ==> Parent(p) in r
  {
    var r := Inserted(items, c);
    var added := Prefixes(c.path, |c.path|);
    forall p | p in r && |p| > 1 ensures Parent(p) in r {
      InsertedUpToAt(items, c, |c.path|, p);
      InsertedUpToAt(items, c, |c.path|, Parent(p));
      if p in added {
        assert Parent(p) == c.path[..|p| - 1];
      } else {
        assert p in items && items[p] == items[p];
      }
    }
  }

  /** The item at the catalog's own path: a placeholder adopts the catalog's identifier
      (keeping its label), an item that already carries a real identifier is left as it is,
      and a new item gets the catalog's identifier and label. */
  lemma InsertedLastItem(items: map<Path, TreeItem>, c: Catalog)
    requires c.path != []
    ensures var r := Inserted(items, c);
      && c.path in r
      && (c.path in items && items[c.path].catalogId == NIL ==> r[c.path] == items[c.path].(catalogId := c.id))
      && (c.path in items && items[c.path].catalogId != NIL ==> r[c.path] == items[c.path])
      && (c.path !in items ==> r[c.path].catalogId == c.id && r[c.path].simpleName == c.simpleName)
  {
    assert c.path == c.path[..|c.path|];
    InsertedUpToAt(items, c, |c.path|, c.path);
  }

  /** Items for the strict prefixes are only created as placeholders; existing ones, and
      every item off the path, are untouched. */
  lemma InsertedOtherItems(items: map<Path, TreeItem>, c: Catalog)
    ensures var r := Inserted(items, c);
      && (forall q :: q in items && q != c.path ==> q in r && r[q] == items[q])
      && (forall q :: q in r && q !in items && q != c.path ==> r[q].catalogId == NIL && r[q].simpleName == "")
  {
    InsertedAt(items, c);
  }

  /** Inserting the same catalog twice is the same as inserting it once. */
  lemma InsertIdempotent(items: map<Path, TreeItem>, c: Catalog)
    ensures Inserted(Inserted(items, c), c) == Inserted(items, c)
  {
    var once := Inserted(items, c);
    var twice := Inserted(once, c);
    InsertedAt(items, c);
    InsertedAt(once, c);
    assert twice.Keys == once.Keys;
    forall q | q in twice ensures twice[q] == once[q] {
    }
  }

  /** Of two catalogs at the same path, the one inserted first settles the item: the
      second leaves it as the first insertion made it, with a real identifier. */
  lemma FirstInsertedKeepsPath(items: map<Path, TreeItem>, a: Catalog, b: Catalog)
    requires a.path == b.path && a.path != [] && a.id != NIL
    ensures var once := Inserted(items, a);
      && a.path in once && once[a.path].catalogId != NIL
      && Inserted(once, b)[a.path] == once[a.path]
  {
    InsertedLastItem(items, a);
    InsertedLastItem(Inserted(items, a), b);
  }

  /** The order in which `foreach_item` visits the items: depth first, an item before the
      items below it, siblings in the order of their names (the child maps are ordered by
      name). */
  predicate PathLess(a: Path, b: Path)
    decreases |a|
  {
    if a == [] then b != []
    else if b == [] then false
    else if a[0] == b[0] then PathLess(a[1..], b[1..])
    else LessStr(a[0], b[0])
  }

  lemma {:induction false} PathLessIrreflexive(a: Path)
    ensures !PathLess(a, a)
    decreases |a|
  {
    if a != [] {
      PathLessIrreflexive(a[1..]);
    }
  }

  lemma {:induction false} PathLessTransitive(a: Path, b: Path, c: Path)
    requires PathLess(a, b) && PathLess(b, c)
    ensures PathLess(a, c)
    decreases |a|
  {
    if a != [] {
      if a[0] == b[0] && b[0] == c[0] {
        PathLessTransitive(a[1..], b[1..], c[1..]);
      } else if a[0] != b[0] && b[0] != c[0] {
        LessStrTransitive(a[0], b[0], c[0]);
        if a[0] == c[0] {
          LessStrAsymmetric(a[0], b[0]);
        }
      }
    }
  }

  lemma {:induction false} PathLessTotal(a: Path, b: Path)
    requires a != b
    ensures PathLess(a, b) || PathLess(b, a)
    decreases |a|
  {
    if a != [] && b != [] {
      if a[0] == b[0] {
        assert a == [a[0]] + a[1..] && b == [b[0]] + b[1..];
        PathLessTotal(a[1..], b[1..]);
      } else {
        LessStrTotal(a[0], b[0]);
      }
    }
  }

  lemma PathLessAsymmetric(a: Path, b: Path)
    requires PathLess(a, b)
    ensures !PathLess(b, a)
  {
    if PathLess(b, a) {
      PathLessTransitive(a, b, a);
      PathLessIrreflexive(a);
    }
  }

  /** A parent is visited before its descendants. */
  lemma {:induction false} AncestorVisitedFirst(a: Path, b: Path)
    requires IsContainedIn(b, a) && a != b
    ensures PathLess(a, b)
    decreases |a|
  {
    if a != [] {
      assert b[0] == a[0];
      assert b[1..][..|a| - 1] == a[1..];
      AncestorVisitedFirst(a[1..], b[1..]);
    }
  }

  /** A subtree is visited in one stretch: whatever is visited between an item and one of
      its descendants lies below that item too. */
  lemma {:induction false} SubtreeIsContiguous(a: Path, b: Path, c: Path)
    requires IsContainedIn(c, a) && PathLess(a, b) && PathLess(b, c)
    ensures IsContainedIn(b, a)
    decreases |a|
  {
    if a != [] {
      assert c[0] == a[0];
      assert c[1..][..|a| - 1] == a[1..];
      if b[0] != a[0] {
        LessStrAsymmetric(a[0], b[0]);
      } else {
        SubtreeIsContiguous(a[1..], b[1..], c[1..]);
        assert b == [b[0]] + b[1..];
      }
    }
  }

  predicate VisitOrder(visited: seq<Path>) {
    forall i, j :: 0 <= i < j < |visited| ==> PathLess(visited[i], visited[j])
  }

  predicate IsFirst(m: Path, s: set<Path>) {
    m in s && forall x :: x in s && x != m ==> PathLess(m, x)
  }

  lemma {:induction false} FirstExists(s: set<Path>)
    requires s != {}
    ensures exists m :: IsFirst(m, s)
    decreases |s|
  {
    var x :| x in s;
    if s != {x} {
      var rest := s - {x};
      FirstExists(rest);
      var m :| IsFirst(m, rest);
      PathLessTotal(m, x);
      if PathLess(m, x) {
        assert IsFirst(m, s);
      } else {
        forall y | y in s && y != x ensures PathLess(x, y) {
          if y != m {
            PathLessTransitive(x, m, y);
          }
        }
        assert IsFirst(x, s);
      }
    } else {
      assert IsFirst(x, s);
    }
  }

  /** One step of `catalog_path`: prepending the name of the item at `v` to what was
      collected below it leaves the parent handle's path in front. */
  lemma StepUp(items: map<Path, TreeItem>, key: Path, v: Path, path: Path)
    requires ValidItems(items) && v in items && key == v + path
    ensures items[v].parent.Some? ==>
      items[v].parent.value in items && key == items[v].parent.value + ([items[v].name] + path)
        && |items[v].parent.value| < |v|
    ensures items[v].parent.None? ==> key == [items[v].name] + path
  {
    var it := items[v];
    assert v != [] && it.name == v[|v| - 1] && it.parent == ParentHandle(v);
    assert v == Parent(v) + [it.name];
    if |v| > 1 {
      assert Parent(v) in items;
    } else {
      assert v == [it.name];
    }
  }

  class AssetCatalogTree {
    var items: map<Path, TreeItem>

    ghost predicate Valid()
      reads this
    {
      ValidItems(items)
    }

    constructor ()
      ensures Valid() && items == map[]
    {
      items := map[];
    }

    /** `insert_item`: walks the components of the catalog's path, creating the item for
        each prefix that has none yet, and settles the identifier at the last one. */
    method InsertItem(c: Catalog)
      requires Valid()
      modifies this
      ensures Valid()
      ensures items == Inserted(old(items), c)
    {
      ghost var before := items;
      var m := items;
      var p := c.path;
      var parent: Option<Path> := None;
      var k := 0;
      while k < |p|
        invariant 0 <= k <= |p|
        invariant m == InsertedUpTo(before, c, k)
        invariant parent == if k == 0 then None else Some(p[..k])
      {
        var q := p[..k + 1];
        var isLast := k + 1 == |p|;
        assert q[..k] == p[..k];
        assert parent == ParentHandle(q);
        var item: TreeItem;
        if q in m {
          item := m[q];
        } else {
          item := TreeItem(p[k], if isLast then c.id else NIL, if isLast then c.simpleName else "", parent);
        }
        if isLast && item.catalogId == NIL {
          item := item.(catalogId := c.id);
        }
        m := m[q := item];
        parent := Some(q);
        k := k + 1;
      }
      InsertedValid(before, c);
      items := m;
    }

    /** `AssetCatalogTreeItem::catalog_path`: following the parent handles up from an item
        and prepending each name rebuilds exactly the item's path. */
    method CatalogPathOf(key: Path) returns (path: Path)
      requires Valid() && key in items
      ensures path == key
    {
      path := [];
      var cur := Some(key);
      while cur.Some?
        invariant cur.Some? ==> cur.value in items && key == cur.value + path
        invariant cur.None? ==> path == key
        decreases if cur.Some? then |cur.value| else 0
      {
        var v := cur.value;
        StepUp(items, key, v, path);
        path := [items[v].name] + path;
        cur := items[v].parent;
      }
    }

    /** `AssetCatalogTreeItem::count_parents`: the number of parent handles followed, one
        less than the depth of the item's path. */
    method CountParents(key: Path) returns (n: int)
      requires Valid() && key in items
      ensures n == |key| - 1
    {
      n := 0;
      var cur := items[key].parent;
      while cur.Some?
        invariant cur.Some? ==> cur.value in items && n == |key| - 1 - |cur.value|
        invariant cur.None? ==> n == |key| - 1
        decreases if cur.Some? then |cur.value| else 0
      {
        n := n + 1;
        cur := items[cur.value].parent;
      }
    }

    /** `foreach_item`: the items in the order the callback is called with them, that is
        every item exactly once, in `PathLess` order. */
    method ForeachItem() returns (visited: seq<Path>)
      requires Valid()
      ensures VisitOrder(visited)
      ensures forall q :: q in visited <==> q in items
    {
      visited := [];
      var rest := items.Keys;
      while rest != {}
        invariant rest <= items.Keys
        invariant forall q :: q in visited <==> q in items && q !in rest
        invariant VisitOrder(visited)
        invariant forall i, b :: 0 <= i < |visited| && b in rest ==> PathLess(visited[i], b)
        decreases rest
      {
        FirstExists(rest);
        var m :| IsFirst(m, rest);
        visited := visited + [m];
        rest := rest - {m};
      }
    }
  }
}
