/** The catalog service (`AssetCatalogService`): the live catalogs and the tombstones of
    deleted ones, both keyed by identifier, the definition file they were read from, and
    the tree derived from the live catalogs' paths. */
module CatalogService {
  import opened Wrappers
  import opened Strings
  import opened Uuid
  import opened CatalogPath
  import opened AssetCatalog
  import opened DefinitionFile
  import opened CatalogTree

  /** What `AssetCatalogDefinitionFile` keeps besides its parsing and writing code: where it
      lives, and the catalogs it is responsible for. The source holds non-owning pointers
      into the service's maps; here it holds their identifiers. */
  datatype CatalogDefinitionFile = CatalogDefinitionFile(filePath: string, catalogIds: set<CatalogId>)

  /** What `BLI_stat` and `BLI_exists` report about the path handed to `load_from_disk`,
      with the content of the file that would be read. */
  datatype FsEntry =
    | Missing
    | RegularFile(lines: seq<string>)
    | Directory(defaultFile: Option<seq<string>>)
    | OtherKind

  /** Every live catalog is stored under its own identifier, is not flagged deleted and has
      a cleaned-up path. */
  predicate LiveStore(catalogs: map<CatalogId, Catalog>) {
    forall id :: id in catalogs ==>
      catalogs[id].id == id && !catalogs[id].isDeleted && IsCanonical(catalogs[id].path)
  }

  /** Every tombstone is stored under its own identifier and is flagged deleted. */
  predicate DeletedStore(deleted: map<CatalogId, Catalog>) {
    forall id :: id in deleted ==> deleted[id].id == id && deleted[id].isDeleted
  }

  predicate Disjoint(catalogs: map<CatalogId, Catalog>, deleted: map<CatalogId, Catalog>) {
    forall id :: id in catalogs ==> id !in deleted
  }

  /** The tombstones after `deleted_catalogs_.add(id, c)`. Blender's `Map::add` inserts
      only a key that is not there yet: a tombstone already held for `id` stays, and `c`
      is dropped. */
  function AddTombstone(deleted: map<CatalogId, Catalog>, id: CatalogId, c: Catalog): (r: map<CatalogId, Catalog>)
    ensures r.Keys == deleted.Keys + {id}
    ensures forall x :: x in deleted ==> r[x] == deleted[x]
    ensures id !in deleted ==> r[id] == c
  {
    if id in deleted then deleted else deleted[id := c]
  }

  /** The paths that have a live catalog. */
  function PathsOf(catalogs: map<CatalogId, Catalog>): set<Path> {
    set id | id in catalogs :: catalogs[id].path
  }

  /** Every prefix (the empty one included) of the given paths. */
  function Ancestors(ps: set<Path>): set<Path> {
    set p, k | p in ps && 0 <= k <= |p| :: p[..k]
  }

  /** Order of `std::set<AssetCatalogPath>`: by the path text. */
  predicate PathTextLess(a: Path, b: Path) {
    LessStr(Str(a), Str(b))
  }

  predicate IsFirstPath(m: Path, s: set<Path>) {
    m in s && forall x :: x in s && x != m ==> PathTextLess(m, x)
  }

  /** A non-empty set of canonical paths has a first element in text order. */
  lemma {:induction false} FirstPathExists(s: set<Path>)
    requires s != {}
    requires forall p :: p in s ==> IsCanonical(p)
    ensures exists m :: IsFirstPath(m, s)
    decreases |s|
  {
    var x :| x in s;
    if s == {x} {
      assert IsFirstPath(x, s);
    } else {
      var rest := s - {x};
      FirstPathExists(rest);
      var m :| IsFirstPath(m, rest);
      assert m in s && m != x;
      if Str(m) == Str(x) {
        StrInjective(m, x);
      }
      LessStrTotal(Str(m), Str(x));
      if PathTextLess(m, x) {
        assert IsFirstPath(m, s);
      } else {
        assert LessStr(Str(x), Str(m));
        forall y | y in s && y != x ensures PathTextLess(x, y) {
          if y != m {
            assert y in rest && PathTextLess(m, y);
            LessStrTransitive(Str(x), Str(m), Str(y));
          }
        }
        assert IsFirstPath(x, s);
      }
    }
  }

  lemma ContainedInTransitive(a: Path, b: Path, c: Path)
    requires IsContainedIn(a, b) && IsContainedIn(b, c)
    ensures IsContainedIn(a, c)
  {
    assert a[..|c|] == a[..|b|][..|c|];
  }

  lemma PathsOfAdd(m: map<CatalogId, Catalog>, c: Catalog)
    requires c.id !in m
    ensures PathsOf(m[c.id := c]) == PathsOf(m) + {c.path}
  {
    var r := m[c.id := c];
    forall p | p in PathsOf(r) ensures p in PathsOf(m) + {c.path} {
      var id :| id in r && r[id].path == p;
      if id != c.id {
        assert m[id].path == p;
      }
    }
    forall p | p in PathsOf(m) + {c.path} ensures p in PathsOf(r) {
      if p != c.path {
        var id :| id in m && m[id].path == p;
        assert r[id].path == p;
      } else {
        assert r[c.id].path == p;
      }
    }
  }

  lemma LivePathsCanonical(m: map<CatalogId, Catalog>)
    requires LiveStore(m)
    ensures forall p :: p in PathsOf(m) ==> IsCanonical(p)
  {
    forall p | p in PathsOf(m) ensures IsCanonical(p) {
      var id :| id in m && m[id].path == p;
    }
  }

  lemma ParentOfAncestor(ps: set<Path>, x: Path)
    requires x in Ancestors(ps) && x != []
    ensures Parent(x) in Ancestors(ps)
  {
    var p, k :| p in ps && 0 <= k <= |p| && x == p[..k];
    assert Parent(x) == p[..k - 1];
  }

  lemma ParentCanonical(p: Path)
    requires IsCanonical(p) && p != []
    ensures IsCanonical(Parent(p))
  {
    var q := Parent(p);
    forall i | 0 <= i < |q| ensures IsCleanComponent(q[i]) {
      assert q[i] == p[i];
    }
  }

  lemma CreateRoom(created: set<Path>, p: Path, all: set<Path>)
    requires created <= all && p in all && p !in created
    ensures |created| + 1 <= |all|
  {
    SubsetSize(created + {p}, all);
  }

  /** A path created by `create_missing_catalogs`: not the empty path, a proper ancestor of
      a path that had a catalog, and at no path that already had one. */
  predicate MissingAncestor(p: Path, before: map<CatalogId, Catalog>) {
    p != [] && p in Ancestors(PathsOf(before)) && p !in PathsOf(before)
  }

  /** No other live catalog shares the path of the catalog stored at `id`. */
  predicate OnlyAtItsPath(catalogs: map<CatalogId, Catalog>, id: CatalogId)
    requires id in catalogs
  {
    forall other :: other in catalogs && other != id ==> catalogs[other].path != catalogs[id].path
  }

  /** Every live catalog below the top level has a live catalog at its parent path. */
  predicate ParentsExist(catalogs: map<CatalogId, Catalog>) {
    forall id {:trigger Parent(catalogs[id].path)} ::
      id in catalogs && |catalogs[id].path| > 1 ==> Parent(catalogs[id].path) in PathsOf(catalogs)
  }

  /** The identifiers live in `after` that were not live in `before`. */
  function NewIds(after: map<CatalogId, Catalog>, before: map<CatalogId, Catalog>): set<CatalogId> {
    after.Keys - before.Keys
  }

  /** Reading a definition file keeps the live map well formed (a catalog line yields a
      catalog with a clean path that is not flagged deleted), and every identifier the
      file gains is one the reading made live. */
  lemma {:induction false} ParseKeepsStores(lines: seq<string>, seenVersion: bool, policy: KeepPolicy,
                                            deleted: set<CatalogId>, st: ParseState)
    requires LiveStore(st.live)
    ensures var r := ParseLines(lines, seenVersion, policy, deleted, st);
      && LiveStore(r.live)
      && forall x :: x in r.fileIds && x !in st.fileIds ==> x in r.live && x !in st.live
    decreases |lines|
  {
    if lines != [] {
      var t := Trim(lines[0]);
      if IsIgnored(t) || !seenVersion {
        ParseKeepsStores(lines[1..], true, policy, deleted, st);
        ParseKeepsStores(lines[1..], seenVersion, policy, deleted, st);
      } else {
        var st' := CatalogStep(t, policy, deleted, st);
        StepKeepsStores(t, policy, deleted, st);
        ParseKeepsStores(lines[1..], true, policy, deleted, st');
        ParseKeepsExisting(lines[1..], true, policy, deleted, st');
      }
    }
  }

  lemma StepKeepsStores(line: string, policy: KeepPolicy, deleted: set<CatalogId>, st: ParseState)
    requires LiveStore(st.live)
    ensures var r := CatalogStep(line, policy, deleted, st);
      && LiveStore(r.live)
      && forall x :: x in r.fileIds && x !in st.fileIds ==> x in r.live && x !in st.live
  {
  }

  /** `asset_definition_default_file_path_from_dir`: the default definition file's name
      joined to the directory, with a '/' between them unless the directory is empty or
      already ends in one (as `BLI_join_dirfile` does on POSIX systems). */
  function DefaultFilePath(dir: string): (r: string)
    ensures |r| >= |dir| + |DEFAULT_CATALOG_FILENAME|
    ensures r[..|dir|] == dir && r[|r| - |DEFAULT_CATALOG_FILENAME|..] == DEFAULT_CATALOG_FILENAME
    ensures dir == [] || dir[|dir| - 1] == '/' ==> |r| == |dir| + |DEFAULT_CATALOG_FILENAME|
    ensures dir != [] && dir[|dir| - 1] != '/' ==> |r| == |dir| + 1 + |DEFAULT_CATALOG_FILENAME| && r[|dir|] == '/'
  {
    if dir == [] || dir[|dir| - 1] == '/' then dir + DEFAULT_CATALOG_FILENAME
    else dir + "/" + DEFAULT_CATALOG_FILENAME
  }

  /** The definition file `load_from_disk` reads for what lies at `path`, with its lines:
      a regular file is read itself, a directory's default definition file when it has
      one; anything else gives no file. */
  function FileToLoad(path: string, entry: FsEntry): (r: Option<(string, seq<string>)>)
    ensures r.Some? <==> entry.RegularFile? || (entry.Directory? && entry.defaultFile.Some?)
    ensures entry.RegularFile? ==> r == Some((path, entry.lines))
    ensures entry.Directory? && entry.defaultFile.Some? ==> r == Some((DefaultFilePath(path), entry.defaultFile.value))
  {
    match entry
    case RegularFile(lines) => Some((path, lines))
    case Directory(Some(lines)) => Some((DefaultFilePath(path), lines))
    case _ => None
  }

  /** What a fresh load of the file at `path` makes of the live catalogs and the
      definition file, before the tree is rebuilt. */
  function LoadedState(path: string, entry: FsEntry, catalogs: map<CatalogId, Catalog>,
                       deleted: map<CatalogId, Catalog>, file: Option<CatalogDefinitionFile>)
    : (r: (map<CatalogId, Catalog>, Option<CatalogDefinitionFile>))
  {
    match FileToLoad(path, entry)
    case None => (catalogs, file)
    case Some((filePath, lines)) =>
      var st := ParseLines(lines, false, LoadFresh, deleted.Keys, ParseState(catalogs, {}));
      (st.live, Some(CatalogDefinitionFile(filePath, st.fileIds)))
  }

  /** `merge_from_disk_before_writing` reads the file only when there is a definition
      file, its path is known and a regular file lies there. */
  predicate MergeApplies(file: Option<CatalogDefinitionFile>, onDisk: FsEntry) {
    file.Some? && file.value.filePath != [] && onDisk.RegularFile?
  }

  /** The definition file, if there is one, with the identifiers `ids` added to the ones
      it is responsible for. */
  function Recorded(f: Option<CatalogDefinitionFile>, ids: set<CatalogId>): Option<CatalogDefinitionFile> {
    if f.Some? then Some(f.value.(catalogIds := f.value.catalogIds + ids)) else None
  }

  lemma RecordedNothing(f: Option<CatalogDefinitionFile>, catalogs: map<CatalogId, Catalog>)
    ensures Recorded(f, NewIds(catalogs, catalogs)) == f
  {
    if f.Some? {
      assert f.value.catalogIds + NewIds(catalogs, catalogs) == f.value.catalogIds;
    }
  }

  /** A catalog created under a fresh identifier is recorded like the ones created before
      it. */
  lemma RecordCreated(f0: Option<CatalogDefinitionFile>, f1: Option<CatalogDefinitionFile>,
                      f2: Option<CatalogDefinitionFile>, before: map<CatalogId, Catalog>,
                      catalogs: map<CatalogId, Catalog>, c: Catalog)
    requires c.id !in before
    requires f1 == Recorded(f0, NewIds(catalogs, before))
    requires f2.Some? <==> f1.Some?
    requires f2.Some? ==> f2.value == f1.value.(catalogIds := f1.value.catalogIds + {c.id})
    ensures f2 == Recorded(f0, NewIds(catalogs[c.id := c], before))
  {
    var added := NewIds(catalogs[c.id := c], before);
    assert added == NewIds(catalogs, before) + {c.id};
    if f2.Some? {
      assert f2.value.catalogIds == f0.value.catalogIds + added;
    }
  }

  /** The state of `create_missing_catalogs`' loop over the queue `toCheck` and the set
      `seen` of visited paths. `paths` stands for the live paths, `beforePaths` for the
      paths that had a catalog when the loop started, `anc` for their ancestors. The
      catalogs from before are untouched, every path queued or seen (but the empty one)
      is live, every live path is seen or queued, the parent of every seen path is seen
      or queued, everything lies at or above a path that had a catalog, and each catalog
      created so far sits alone at a missing ancestor. */
  ghost predicate MissingLoop(catalogs: map<CatalogId, Catalog>, deleted: map<CatalogId, Catalog>,
                              before: map<CatalogId, Catalog>, paths: set<Path>, beforePaths: set<Path>,
                              anc: set<Path>, used0: set<CatalogId>,
                              seen: set<Path>, toCheck: set<Path>, created: set<Path>)
  {
    && QueueState(paths, beforePaths, anc, seen, toCheck, created)
    && CreatedState(catalogs, deleted, before, paths, beforePaths, anc, used0, created)
  }

  /** The path sets of the loop state: the queue and the seen set cover the live paths,
      stay at or above the earlier paths, and the seen set is closed under the parent
      relation up to the queue. */
  ghost predicate QueueState(paths: set<Path>, beforePaths: set<Path>, anc: set<Path>,
                             seen: set<Path>, toCheck: set<Path>, created: set<Path>)
  {
    && (forall p :: p in paths ==> IsCanonical(p))
    && (forall x {:trigger Parent(x)} :: x in anc && x != [] ==> Parent(x) in anc)
    && beforePaths <= paths
    && [] in seen
    && toCheck <= paths
    && seen - {[]} <= paths
    && paths <= seen + toCheck
    && (forall x {:trigger Parent(x)} :: x in seen && x != [] ==> Parent(x) in seen + toCheck)
    && seen + toCheck <= anc + {[]}
    && created <= paths && created <= anc
  }

  /** The catalogs of the loop state: the earlier ones untouched, every one at a live
      path, each new one alone at a missing ancestor. */
  ghost predicate CreatedState(catalogs: map<CatalogId, Catalog>, deleted: map<CatalogId, Catalog>,
                               before: map<CatalogId, Catalog>, paths: set<Path>, beforePaths: set<Path>,
                               anc: set<Path>, used0: set<CatalogId>, created: set<Path>)
  {
    && (forall id :: id in before ==> id in catalogs && catalogs[id] == before[id])
    && (forall id :: id in catalogs ==> catalogs[id].path in paths)
    && (forall id :: id in catalogs && id !in before ==>
          && id !in deleted && catalogs[id].path != [] && catalogs[id].path in anc
          && catalogs[id].path !in beforePaths && OnlyAtItsPath(catalogs, id))
  }

  /** Popping a path that was seen already changes nothing else. */
  lemma PopSeen(catalogs: map<CatalogId, Catalog>, deleted: map<CatalogId, Catalog>,
                before: map<CatalogId, Catalog>, paths: set<Path>, beforePaths: set<Path>,
                anc: set<Path>, used0: set<CatalogId>,
                seen: set<Path>, toCheck: set<Path>, created: set<Path>, path: Path)
    requires MissingLoop(catalogs, deleted, before, paths, beforePaths, anc, used0, seen, toCheck, created)
    requires path in toCheck && path in seen
    ensures MissingLoop(catalogs, deleted, before, paths, beforePaths, anc, used0, seen, toCheck - {path}, created)
  {
  }

  /** Popping a new path whose parent was seen marks it seen. */
  lemma PopWithParent(catalogs: map<CatalogId, Catalog>, deleted: map<CatalogId, Catalog>,
                      before: map<CatalogId, Catalog>, paths: set<Path>, beforePaths: set<Path>,
                      anc: set<Path>, used0: set<CatalogId>,
                      seen: set<Path>, toCheck: set<Path>, created: set<Path>, path: Path)
    requires MissingLoop(catalogs, deleted, before, paths, beforePaths, anc, used0, seen, toCheck, created)
    requires path in toCheck && path !in seen && Parent(path) in seen
    ensures MissingLoop(catalogs, deleted, before, paths, beforePaths, anc, used0,
                        seen + {path}, toCheck - {path}, created)
  {
  }

  /** The first queued path, new and with an unseen parent: that parent has no catalog
      yet (it would sort before the path, so it would have been popped first), it is a
      missing ancestor, and an identifier is still free for it. */
  lemma ParentIsMissing(catalogs: map<CatalogId, Catalog>, deleted: map<CatalogId, Catalog>,
                        before: map<CatalogId, Catalog>, paths: set<Path>, beforePaths: set<Path>,
                        anc: set<Path>, used0: set<CatalogId>,
                        seen: set<Path>, toCheck: set<Path>, created: set<Path>, path: Path)
    requires MissingLoop(catalogs, deleted, before, paths, beforePaths, anc, used0, seen, toCheck, created)
    requires |used0| + |anc| < UUID_SPACE - 1
    requires |catalogs.Keys + deleted.Keys| == |used0| + |created|
    requires IsFirstPath(path, toCheck) && path !in seen && Parent(path) !in seen
    ensures path != [] && IsCanonical(Parent(path))
    ensures Parent(path) !in paths && Parent(path) in anc && Parent(path) !in beforePaths
    ensures Parent(path) !in created
    ensures |catalogs.Keys + deleted.Keys| < UUID_SPACE - 1
  {
    var parent := Parent(path);
    assert path in paths && path != [];
    ParentSortsFirst(path);
    if parent in toCheck {
      assert PathTextLess(path, parent);
      LessStrAsymmetric(Str(parent), Str(path));
    }
    ParentCanonical(path);
    CreateRoom(created, parent, anc);
  }

  /** Creating a catalog at the missing parent and queueing that parent. */
  lemma CreatedParent(catalogs: map<CatalogId, Catalog>, deleted: map<CatalogId, Catalog>,
                      before: map<CatalogId, Catalog>, paths: set<Path>, beforePaths: set<Path>,
                      anc: set<Path>, used0: set<CatalogId>,
                      seen: set<Path>, toCheck: set<Path>, created: set<Path>, path: Path, c: Catalog)
    requires MissingLoop(catalogs, deleted, before, paths, beforePaths, anc, used0, seen, toCheck, created)
    requires path in toCheck && path !in seen && path != []
    requires Parent(path) !in paths && Parent(path) in anc && Parent(path) !in beforePaths
    requires Parent(path) !in seen && Parent(path) !in created
    requires c.path == Parent(path) && IsCanonical(c.path) && c.id !in catalogs && c.id !in deleted
    ensures MissingLoop(catalogs[c.id := c], deleted, before, paths + {Parent(path)}, beforePaths, anc, used0,
                        seen + {path}, toCheck - {path} + {Parent(path)}, created + {Parent(path)})
  {
    QueueCreated(paths, beforePaths, anc, seen, toCheck, created, path);
    CatalogCreated(catalogs, deleted, before, paths, beforePaths, anc, used0, created, c);
  }

  lemma QueueCreated(paths: set<Path>, beforePaths: set<Path>, anc: set<Path>,
                     seen: set<Path>, toCheck: set<Path>, created: set<Path>, path: Path)
    requires QueueState(paths, beforePaths, anc, seen, toCheck, created)
    requires path in toCheck && path !in seen && path != []
    requires Parent(path) in anc && Parent(path) !in created && IsCanonical(Parent(path))
    ensures QueueState(paths + {Parent(path)}, beforePaths, anc,
                       seen + {path}, toCheck - {path} + {Parent(path)}, created + {Parent(path)})
  {
  }

  lemma CatalogCreated(catalogs: map<CatalogId, Catalog>, deleted: map<CatalogId, Catalog>,
                       before: map<CatalogId, Catalog>, paths: set<Path>, beforePaths: set<Path>,
                       anc: set<Path>, used0: set<CatalogId>, created: set<Path>, c: Catalog)
    requires CreatedState(catalogs, deleted, before, paths, beforePaths, anc, used0, created)
    requires c.path !in paths && c.path != [] && c.path in anc && c.path !in beforePaths && c.path !in created
    requires c.id !in catalogs && c.id !in deleted
    ensures CreatedState(catalogs[c.id := c], deleted, before, paths + {c.path}, beforePaths, anc, used0,
                         created + {c.path})
  {
    var after := catalogs[c.id := c];
    assert c.id !in before;
    forall id | id in after && id !in before
      ensures id !in deleted && after[id].path != [] && after[id].path in anc
      ensures after[id].path !in beforePaths && OnlyAtItsPath(after, id)
    {
      if id != c.id {
        assert after[id] == catalogs[id];
        assert after[id].path != c.path;
      }
    }
  }

  /** Creating a catalog under a fresh identifier at a new path keeps the count of used
      identifiers in step with the created paths. */
  lemma CountCreated(catalogs: map<CatalogId, Catalog>, deleted: map<CatalogId, Catalog>,
                     used0: set<CatalogId>, created: set<Path>, c: Catalog)
    requires |catalogs.Keys + deleted.Keys| == |used0| + |created|
    requires c.id !in catalogs && c.id !in deleted && c.path !in created
    ensures |catalogs[c.id := c].Keys + deleted.Keys| == |used0| + |created + {c.path}|
  {
    KeysAfterAdd(catalogs, deleted, c);
    CardAdd(catalogs.Keys + deleted.Keys, c.id);
    CardAdd(created, c.path);
  }

  lemma KeysAfterAdd(catalogs: map<CatalogId, Catalog>, deleted: map<CatalogId, Catalog>, c: Catalog)
    ensures catalogs[c.id := c].Keys + deleted.Keys == catalogs.Keys + deleted.Keys + {c.id}
  {
  }

  lemma CardAdd<T>(s: set<T>, x: T)
    requires x !in s
    ensures |s + {x}| == |s| + 1
  {
  }

  /** Before the first iteration: every live path is queued and only the empty path is
      seen. */
  lemma LoopStart(catalogs: map<CatalogId, Catalog>, deleted: map<CatalogId, Catalog>)
    requires LiveStore(catalogs)
    ensures MissingLoop(catalogs, deleted, catalogs, PathsOf(catalogs), PathsOf(catalogs),
                        Ancestors(PathsOf(catalogs)), catalogs.Keys + deleted.Keys, {[]}, PathsOf(catalogs), {})
  {
    var ps := PathsOf(catalogs);
    var anc := Ancestors(ps);
    LivePathsCanonical(catalogs);
    forall x | x in anc && x != [] ensures Parent(x) in anc {
      ParentOfAncestor(ps, x);
    }
    assert forall id :: id in catalogs ==> catalogs[id].path in ps;
    assert forall p :: p in ps ==> IsCanonical(p);
    assert ps <= anc by {
      forall p | p in ps ensures p in anc { assert p == p[..|p|]; }
    }
  }

  /** After the last iteration: nothing is queued, so every live path was seen and its
      parent too, and the abstract sets stand for the live and earlier paths. */
  lemma LoopEnd(catalogs: map<CatalogId, Catalog>, deleted: map<CatalogId, Catalog>,
                before: map<CatalogId, Catalog>, paths: set<Path>, beforePaths: set<Path>,
                anc: set<Path>, used0: set<CatalogId>, seen: set<Path>, created: set<Path>)
    requires MissingLoop(catalogs, deleted, before, paths, beforePaths, anc, used0, seen, {}, created)
    requires paths == PathsOf(catalogs) && beforePaths == PathsOf(before) && anc == Ancestors(beforePaths)
    ensures ParentsExist(catalogs)
    ensures forall id {:trigger id in NewIds(catalogs, before)} :: id in NewIds(catalogs, before) ==>
      id !in deleted && MissingAncestor(catalogs[id].path, before) && OnlyAtItsPath(catalogs, id)
  {
    forall id | id in catalogs && |catalogs[id].path| > 1
      ensures Parent(catalogs[id].path) in PathsOf(catalogs)
    {
      var p := catalogs[id].path;
      assert p in seen && Parent(p) in seen && Parent(p) != [];
    }
  }

  /** Room in the identifier space for `create_missing_catalogs`: each catalog it creates
      takes one fresh identifier, and it creates at most one per ancestor path. */
  ghost predicate RoomFor(catalogs: map<CatalogId, Catalog>, deleted: map<CatalogId, Catalog>) {
    |catalogs.Keys + deleted.Keys| + |Ancestors(PathsOf(catalogs))| < UUID_SPACE - 1
  }

  /** Some live catalog lies at `q` or below it. */
  ghost predicate HasCatalogAtOrBelow(catalogs: map<CatalogId, Catalog>, q: Path) {
    exists id :: id in catalogs && IsContainedIn(catalogs[id].path, q)
  }

  /** The tree holds one item per non-empty prefix of a live catalog's path, and no other. */
  ghost predicate TreeKeysMatch(items: map<Path, TreeItem>, catalogs: map<CatalogId, Catalog>) {
    forall q :: q in items <==> q != [] && HasCatalogAtOrBelow(catalogs, q)
  }

  /** An item with a real identifier carries a live catalog that sits exactly at its path,
      and the item at the path of a live catalog with a real identifier carries a real one
      (which of several catalogs at that path depends on the insertion order). */
  ghost predicate TreeIdsMatch(items: map<Path, TreeItem>, catalogs: map<CatalogId, Catalog>) {
    && (forall q {:trigger items[q]} :: q in items && items[q].catalogId != NIL ==>
          items[q].catalogId in catalogs && catalogs[items[q].catalogId].path == q)
    && (forall id {:trigger catalogs[id]} :: id in catalogs && id != NIL && catalogs[id].path != [] ==>
          catalogs[id].path in items && items[catalogs[id].path].catalogId != NIL)
  }

  /** What `read_into_tree` builds from the live catalogs. */
  ghost predicate TreeMatches(items: map<Path, TreeItem>, catalogs: map<CatalogId, Catalog>) {
    TreeKeysMatch(items, catalogs) && TreeIdsMatch(items, catalogs)
  }

  lemma AncestorsMonotone(a: set<Path>, b: set<Path>)
    requires a <= b
    ensures Ancestors(a) <= Ancestors(b)
  {
    forall x | x in Ancestors(a) ensures x in Ancestors(b) {
      var p, k :| p in a && 0 <= k <= |p| && x == p[..k];
    }
  }

  /** Moving a catalog to the tombstones leaves as much room as before. */
  lemma RoomAfterDelete(catalogs: map<CatalogId, Catalog>, deleted: map<CatalogId, Catalog>, id: CatalogId, c: Catalog)
    requires RoomFor(catalogs, deleted) && id in catalogs
    ensures RoomFor(catalogs - {id}, AddTombstone(deleted, id, c))
  {
    KeysAfterMove(catalogs, deleted, id, c);
    PathsOfRemove(catalogs, id);
    AncestorsMonotone(PathsOf(catalogs - {id}), PathsOf(catalogs));
    SubsetSize(Ancestors(PathsOf(catalogs - {id})), Ancestors(PathsOf(catalogs)));
  }

  /** Flagging a live catalog deleted and moving it to the tombstones keeps both stores
      well formed. */
  lemma StoresAfterDelete(catalogs: map<CatalogId, Catalog>, deleted: map<CatalogId, Catalog>, id: CatalogId)
    requires LiveStore(catalogs) && DeletedStore(deleted) && id in catalogs
    ensures LiveStore(catalogs - {id})
    ensures DeletedStore(AddTombstone(deleted, id, catalogs[id].(isDeleted := true)))
  {
  }

  lemma KeysAfterMove(catalogs: map<CatalogId, Catalog>, deleted: map<CatalogId, Catalog>, id: CatalogId, c: Catalog)
    requires id in catalogs
    ensures (catalogs - {id}).Keys + AddTombstone(deleted, id, c).Keys == catalogs.Keys + deleted.Keys
  {
  }

  lemma PathsOfRemove(catalogs: map<CatalogId, Catalog>, id: CatalogId)
    ensures PathsOf(catalogs - {id}) <= PathsOf(catalogs)
  {
    var rest := catalogs - {id};
    forall p | p in PathsOf(rest) ensures p in PathsOf(catalogs) {
      var other :| other in rest && rest[other].path == p;
      assert catalogs[other].path == p;
    }
  }

  /** What `delete_catalog` leaves of a live catalog `id`: it is gone from the live map
      and flagged deleted among the tombstones, unless a tombstone for `id` was there
      already and stays (`Map::add`); every other catalog is untouched, the
      only new catalogs sit at missing ancestors of the remaining ones, and the
      definition file records those new catalogs. */
  ghost predicate DeletedFrom(before: map<CatalogId, Catalog>, deleted0: map<CatalogId, Catalog>,
                              file0: Option<CatalogDefinitionFile>, id: CatalogId,
                              after: map<CatalogId, Catalog>, deleted1: map<CatalogId, Catalog>,
                              file1: Option<CatalogDefinitionFile>)
    requires id in before
  {
    && id !in after
    && deleted1 == AddTombstone(deleted0, id, before[id].(isDeleted := true))
    && (forall other :: other in before && other != id ==> other in after && after[other] == before[other])
    && (forall other {:trigger other in NewIds(after, before - {id})} ::
          other in NewIds(after, before - {id}) ==> MissingAncestor(after[other].path, before - {id}))
    && file1 == Recorded(file0, NewIds(after, before - {id}))
  }

  /** What `rebuild_tree` leaves, starting from the live catalogs `before`: the tombstones
      stay; every catalog stays; every catalog below the top level has one at its parent
      path; each new catalog sits alone at a missing ancestor path of `before` and is
      recorded in the definition file; the tree matches the live catalogs. */
  ghost predicate RebuiltFrom(before: map<CatalogId, Catalog>, deleted0: map<CatalogId, Catalog>,
                              file0: Option<CatalogDefinitionFile>, after: map<CatalogId, Catalog>,
                              deleted1: map<CatalogId, Catalog>, file1: Option<CatalogDefinitionFile>,
                              items: map<Path, TreeItem>)
  {
    && deleted1 == deleted0
    && (forall x :: x in before ==> x in after && after[x] == before[x])
    && ParentsExist(after)
    && (forall x {:trigger x in NewIds(after, before)} :: x in NewIds(after, before) ==>
          x !in deleted1 && MissingAncestor(after[x].path, before) && OnlyAtItsPath(after, x))
    && file1 == Recorded(file0, NewIds(after, before))
    && TreeMatches(items, after)
  }

  /** What `delete_catalog` leaves, from what its two halves guarantee: the catalog moved
      to the tombstones, and the rebuild kept every remaining catalog and added only
      catalogs at missing ancestors that are not tombstones. */
  lemma DeleteOutcome(before: map<CatalogId, Catalog>, deleted0: map<CatalogId, Catalog>,
                      file0: Option<CatalogDefinitionFile>, id: CatalogId, moved: map<CatalogId, Catalog>,
                      after: map<CatalogId, Catalog>, deleted1: map<CatalogId, Catalog>,
                      file1: Option<CatalogDefinitionFile>)
    requires id in before && moved == before - {id}
    requires deleted1 == AddTombstone(deleted0, id, before[id].(isDeleted := true))
    requires forall x :: x in moved ==> x in after && after[x] == moved[x]
    requires forall x {:trigger x in NewIds(after, moved)} :: x in NewIds(after, moved) ==>
      x !in deleted1 && MissingAncestor(after[x].path, moved)
    requires file1 == Recorded(file0, NewIds(after, moved))
    ensures DeletedFrom(before, deleted0, file0, id, after, deleted1, file1)
    ensures Disjoint(before, deleted0) ==> Disjoint(after, deleted1)
  {
    forall other | other in after
      ensures other in moved || other in NewIds(after, moved)
    {
    }
    assert id in deleted1;
  }

  /** The live catalogs after `update_catalog_path`'s loop: each catalog at or below
      `from` is moved to the same place below `to`; the others stay. A rebased path that
      is empty (the catalog at `from` itself, when `to` is empty) fails the loop's
      `if (!new_path)` test like a path outside `from`, so that catalog stays too. */
  function RenamedAll(catalogs: map<CatalogId, Catalog>, from: Path, to: Path): (r: map<CatalogId, Catalog>)
    ensures r.Keys == catalogs.Keys
  {
    map id | id in catalogs ::
      match Rebase(catalogs[id].path, from, to)
      case Some(moved) => if moved == [] then catalogs[id] else catalogs[id].(path := moved)
      case None => catalogs[id]
  }

  /** Renaming moves exactly the subtree below `from`, keeping each catalog's place in
      it, and changes nothing but paths; a catalog whose rebased path would be empty
      stays where it is. */
  lemma RenameMovesSubtree(catalogs: map<CatalogId, Catalog>, from: Path, to: Path, id: CatalogId)
    requires id in catalogs
    ensures var r := RenamedAll(catalogs, from, to);
      var p := catalogs[id].path;
      && r[id] == catalogs[id].(path := r[id].path)
      && (IsContainedIn(p, from) && |to| + |p| - |from| > 0 ==>
            IsContainedIn(r[id].path, to) && r[id].path[|to|..] == p[|from|..])
      && (!IsContainedIn(p, from) || |to| + |p| - |from| == 0 ==> r[id] == catalogs[id])
  {
  }

  /** The renamed catalog itself lands exactly at the new path, unless that is empty,
      in which case it keeps its old one. */
  lemma RenamedItself(catalogs: map<CatalogId, Catalog>, id: CatalogId, to: Path)
    requires id in catalogs
    ensures to != [] ==> RenamedAll(catalogs, catalogs[id].path, to)[id].path == to
    ensures to == [] ==> RenamedAll(catalogs, catalogs[id].path, to)[id] == catalogs[id]
  {
    var p := catalogs[id].path;
    assert IsContainedIn(p, p);
    assert p[|p|..] == [];
    assert to + [] == to;
  }

  /** Renaming a path to itself changes nothing. */
  lemma RenameToSelf(catalogs: map<CatalogId, Catalog>, from: Path)
    ensures RenamedAll(catalogs, from, from) == catalogs
  {
    var r := RenamedAll(catalogs, from, from);
    forall id | id in catalogs ensures r[id] == catalogs[id] {
      var p := catalogs[id].path;
      if IsContainedIn(p, from) {
        assert from + p[|from|..] == p;
      }
    }
  }

  /** Renaming to a clean path keeps every live catalog's path clean. */
  lemma RenameKeepsLiveStore(catalogs: map<CatalogId, Catalog>, from: Path, to: Path)
    requires LiveStore(catalogs) && IsCanonical(to)
    ensures LiveStore(RenamedAll(catalogs, from, to))
  {
    var r := RenamedAll(catalogs, from, to);
    forall id | id in r ensures r[id].id == id && !r[id].isDeleted && IsCanonical(r[id].path) {
      RenameMovesSubtree(catalogs, from, to, id);
    }
  }

  /** One more catalog inserted into the tree: its path's prefixes join the items. */
  lemma TreeKeysStep(items: map<Path, TreeItem>, catalogs: map<CatalogId, Catalog>,
                     done: map<CatalogId, Catalog>, id: CatalogId)
    requires id in catalogs && id !in done
    requires TreeKeysMatch(items, done)
    ensures TreeKeysMatch(Inserted(items, catalogs[id]), done[id := catalogs[id]])
  {
    var c := catalogs[id];
    var after := done[id := c];
    InsertedKeys(items, c);
    forall q ensures q in Inserted(items, c) <==> q != [] && HasCatalogAtOrBelow(after, q) {
      if q in items {
        var other :| other in done && IsContainedIn(done[other].path, q);
        assert after[other] == done[other];
      } else if q in Prefixes(c.path, |c.path|) {
        assert after[id] == c && IsContainedIn(c.path, q);
      }
    }
  }

  /** One more catalog inserted into the tree: the item at its path carries a real
      identifier, and only its own identifier is new among the items. */
  lemma TreeIdsStep(items: map<Path, TreeItem>, catalogs: map<CatalogId, Catalog>,
                    done: map<CatalogId, Catalog>, id: CatalogId)
    requires id in catalogs && id !in done && catalogs[id].id == id
    requires TreeIdsMatch(items, done)
    ensures TreeIdsMatch(Inserted(items, catalogs[id]), done[id := catalogs[id]])
  {
    var c := catalogs[id];
    var after := done[id := c];
    var r := Inserted(items, c);
    forall q | q in r && r[q].catalogId != NIL
      ensures r[q].catalogId in after && after[r[q].catalogId].path == q
    {
      InsertedUpToAt(items, c, |c.path|, q);
      if q in items && r[q] == items[q] {
        assert items[q].catalogId in done;
      } else {
        assert r[q].catalogId == c.id && q == c.path;
      }
    }
    forall x | x in after && x != NIL && after[x].path != []
      ensures after[x].path in r && r[after[x].path].catalogId != NIL
    {
      var p := after[x].path;
      if x == id {
        InsertedLastItem(items, c);
      } else {
        assert after[x] == done[x] && p in items && items[p].catalogId != NIL;
        InsertedUpToAt(items, c, |c.path|, p);
        if p == c.path {
          InsertedLastItem(items, c);
        }
      }
    }
  }

  lemma TreeMatchesStep(items: map<Path, TreeItem>, catalogs: map<CatalogId, Catalog>,
                        done: map<CatalogId, Catalog>, id: CatalogId)
    requires id in catalogs && id !in done && catalogs[id].id == id
    requires TreeMatches(items, done)
    ensures TreeMatches(Inserted(items, catalogs[id]), done[id := catalogs[id]])
  {
    TreeKeysStep(items, catalogs, done, id);
    TreeIdsStep(items, catalogs, done, id);
  }

  class AssetCatalogService {
    var catalogs: map<CatalogId, Catalog>
    var deletedCatalogs: map<CatalogId, Catalog>
    var definitionFile: Option<CatalogDefinitionFile>
    var tree: AssetCatalogTree

    ghost predicate Valid()
      reads this, tree
    {
      && LiveStore(catalogs)
      && DeletedStore(deletedCatalogs)
      && (definitionFile.Some? ==> definitionFile.value.catalogIds <= catalogs.Keys + deletedCatalogs.Keys)
      && tree.Valid()
    }

    /** A service for an asset library: nothing loaded yet, and an empty tree. */
    constructor ()
      ensures Valid() && fresh(tree)
      ensures catalogs == map[] && deletedCatalogs == map[] && definitionFile.None?
      ensures tree.items == map[]
    {
      catalogs := map[];
      deletedCatalogs := map[];
      definitionFile := None;
      tree := new AssetCatalogTree();
    }

    /** `is_empty`: no live catalog, so no path is in use and every filter holds only its
        active identifier. Tombstones do not count. */
    function IsEmpty(): (r: bool)
      reads this
      ensures r <==> PathsOf(catalogs) == {}
      ensures r ==> forall id: CatalogId :: CreateCatalogFilter(id).matchingIds == {id}
    {
      if catalogs == map[] then true
      else
        var id :| id in catalogs;
        assert catalogs[id].path in PathsOf(catalogs);
        false
    }

    /** `find_catalog`: the live catalog with that identifier, if there is one. */
    function FindCatalog(id: CatalogId): (r: Option<Catalog>)
      reads this
      requires LiveStore(catalogs)
      ensures r.Some? <==> id in catalogs
      ensures r.Some? ==> r.value.id == id && !r.value.isDeleted && r.value == catalogs[id]
    {
      if id in catalogs then Some(catalogs[id]) else None
    }

    /** `create_catalog_filter`: the active identifier, and, when it names a live catalog,
        every live catalog at or below that catalog's path. */
    function CreateCatalogFilter(activeId: CatalogId): (f: AssetCatalogFilter)
      reads this
      ensures f.Contains(activeId)
      ensures activeId !in catalogs ==> f.matchingIds == {activeId}
      ensures activeId in catalogs ==> forall id :: f.Contains(id) <==>
        id == activeId || (id in catalogs && IsContainedIn(catalogs[id].path, catalogs[activeId].path))
    {
      if activeId !in catalogs then AssetCatalogFilter({activeId})
      else
        var active := catalogs[activeId].path;
        AssetCatalogFilter({activeId} + set id | id in catalogs && IsContainedIn(catalogs[id].path, active))
    }

    /** `AssetCatalogFilter::contains` on a filter the service built: an asset passes
        exactly when its catalog is the active one, or is live and lies at or below the
        live active catalog's path. */
    lemma FilterContains(activeId: CatalogId, assetCatalogId: CatalogId)
      ensures CreateCatalogFilter(activeId).Contains(assetCatalogId) <==>
        || assetCatalogId == activeId
        || (&& activeId in catalogs && assetCatalogId in catalogs
            && IsContainedIn(catalogs[assetCatalogId].path, catalogs[activeId].path))
    {
    }

    /** Filters nest like the paths do: the filter of a catalog below another one passes
        no identifier the outer filter would block. */
    lemma FilterNesting(outer: CatalogId, inner: CatalogId)
      requires outer in catalogs && inner in catalogs
      requires IsContainedIn(catalogs[inner].path, catalogs[outer].path)
      ensures CreateCatalogFilter(inner).matchingIds <= CreateCatalogFilter(outer).matchingIds
    {
      var fi := CreateCatalogFilter(inner);
      var fo := CreateCatalogFilter(outer);
      forall id | fi.Contains(id) ensures fo.Contains(id) {
        if id != inner {
          ContainedInTransitive(catalogs[id].path, catalogs[inner].path, catalogs[outer].path);
        }
      }
    }

    /** `create_catalog`: a catalog at the cleaned-up path under a fresh identifier,
        recorded in the definition file if there is one and inserted into the tree. The
        random identifier of the source is a fresh one here, which needs an unused
        identifier to exist. */
    method CreateCatalog(pathText: string) returns (c: Catalog)
      requires Valid()
      requires |catalogs.Keys + deletedCatalogs.Keys| < UUID_SPACE - 1
      modifies this, tree
      ensures Valid() && tree == old(tree)
      ensures c.id != NIL && c.id !in old(catalogs) && c.id !in old(deletedCatalogs)
      ensures c == FromPath(pathText, c.id)
      ensures catalogs == old(catalogs)[c.id := c]
      ensures deletedCatalogs == old(deletedCatalogs)
      ensures definitionFile.Some? <==> old(definitionFile).Some?
      ensures definitionFile.Some? ==>
        definitionFile.value == old(definitionFile).value.(catalogIds := old(definitionFile).value.catalogIds + {c.id})
      ensures tree.items == Inserted(old(tree.items), c)
    {
      var id := GenerateFresh(catalogs.Keys + deletedCatalogs.Keys);
      c := FromPath(pathText, id);
      AddCatalog(c);
    }

    /** The second half of `create_catalog`: stores a new catalog, records it in the
        definition file if there is one, and inserts it into the tree. */
    method AddCatalog(c: Catalog)
      requires Valid()
      requires c.id != NIL && c.id !in catalogs && c.id !in deletedCatalogs
      requires !c.isDeleted && IsCanonical(c.path)
      modifies this, tree
      ensures Valid() && tree == old(tree)
      ensures catalogs == old(catalogs)[c.id := c]
      ensures deletedCatalogs == old(deletedCatalogs)
      ensures definitionFile.Some? <==> old(definitionFile).Some?
      ensures definitionFile.Some? ==>
        definitionFile.value == old(definitionFile).value.(catalogIds := old(definitionFile).value.catalogIds + {c.id})
      ensures tree.items == Inserted(old(tree.items), c)
    {
      catalogs := catalogs[c.id := c];
      if definitionFile.Some? {
        var cdf := definitionFile.value;
        definitionFile := Some(cdf.(catalogIds := cdf.catalogIds + {c.id}));
      }
      assert tree.items == old(tree.items);
      tree.InsertItem(c);
    }

    /** `create_missing_catalogs`: visits the live catalogs' paths in text order, parents
        before children, and creates a catalog at every parent path nobody has yet. */
    method CreateMissingCatalogs()
      requires Valid()
      requires |catalogs.Keys + deletedCatalogs.Keys| + |Ancestors(PathsOf(catalogs))| < UUID_SPACE - 1
      modifies this, tree
      ensures Valid() && tree == old(tree)
      ensures deletedCatalogs == old(deletedCatalogs)
      ensures forall id :: id in old(catalogs) ==> id in catalogs && catalogs[id] == old(catalogs)[id]
      ensures ParentsExist(catalogs)
      ensures forall id {:trigger id in NewIds(catalogs, old(catalogs))} :: id in NewIds(catalogs, old(catalogs)) ==>
        id !in deletedCatalogs && MissingAncestor(catalogs[id].path, old(catalogs)) && OnlyAtItsPath(catalogs, id)
      ensures definitionFile == Recorded(old(definitionFile), NewIds(catalogs, old(catalogs)))
    {
      ghost var before := catalogs;
      ghost var beforePaths := PathsOf(before);
      ghost var anc := Ancestors(beforePaths);
      ghost var used0 := catalogs.Keys + deletedCatalogs.Keys;
      var toCheck := PathsOf(catalogs);
      var seen: set<Path> := {[]};
      ghost var created: set<Path> := {};
      ghost var paths := toCheck;
      LoopStart(catalogs, deletedCatalogs);
      RecordedNothing(definitionFile, catalogs);
      while toCheck != {}
        invariant Valid() && tree == old(tree)
        invariant deletedCatalogs == old(deletedCatalogs)
        invariant paths == PathsOf(catalogs)
        invariant MissingLoop(catalogs, deletedCatalogs, before, paths, beforePaths, anc, used0, seen, toCheck, created)
        invariant |catalogs.Keys + deletedCatalogs.Keys| == |used0| + |created|
        invariant definitionFile == Recorded(old(definitionFile), NewIds(catalogs, before))
        decreases anc + {[]} - seen, toCheck
      {
        FirstPathExists(toCheck);
        var path :| IsFirstPath(path, toCheck);
        if path in seen {
          PopSeen(catalogs, deletedCatalogs, before, paths, beforePaths, anc, used0, seen, toCheck, created, path);
          toCheck := toCheck - {path};
          continue;
        }
        var parent := Parent(path);
        if parent in seen {
          PopWithParent(catalogs, deletedCatalogs, before, paths, beforePaths, anc, used0, seen, toCheck, created, path);
          seen := seen + {path};
          toCheck := toCheck - {path};
          continue;
        }
        ParentIsMissing(catalogs, deletedCatalogs, before, paths, beforePaths, anc, used0, seen, toCheck, created, path);
        CleanupStr(parent);
        ghost var cats := catalogs;
        ghost var file := definitionFile;
        var c := CreateCatalog(Str(parent));
        assert c.id !in before;
        RecordCreated(old(definitionFile), file, definitionFile, before, cats, c);
        CreatedParent(cats, deletedCatalogs, before, paths, beforePaths, anc, used0, seen, toCheck, created, path, c);
        CountCreated(cats, deletedCatalogs, used0, created, c);
        PathsOfAdd(cats, c);
        seen := seen + {path};
        toCheck := toCheck - {path} + {parent};
        created := created + {parent};
        paths := paths + {parent};
      }
      LoopEnd(catalogs, deletedCatalogs, before, paths, beforePaths, anc, used0, seen, created);
    }

    /** `read_into_tree`: a new tree holding every live catalog, inserted in the order of
        the map (any order here). */
    method ReadIntoTree() returns (t: AssetCatalogTree)
      requires LiveStore(catalogs)
      ensures fresh(t) && t.Valid()
      ensures TreeMatches(t.items, catalogs)
    {
      t := new AssetCatalogTree();
      var todo := catalogs.Keys;
      ghost var done: map<CatalogId, Catalog> := map[];
      while todo != {}
        invariant todo <= catalogs.Keys
        invariant done.Keys == catalogs.Keys - todo
        invariant forall id :: id in done ==> done[id] == catalogs[id]
        invariant fresh(t) && t.Valid()
        invariant TreeMatches(t.items, done)
        decreases todo
      {
        var id :| id in todo;
        TreeMatchesStep(t.items, catalogs, done, id);
        t.InsertItem(catalogs[id]);
        done := done[id := catalogs[id]];
        todo := todo - {id};
      }
      assert done == catalogs;
    }

    /** `rebuild_tree`: creates the missing parent catalogs, then replaces the tree by one
        read from the live catalogs. */
    method RebuildTree()
      requires Valid() && RoomFor(catalogs, deletedCatalogs)
      modifies this, tree
      ensures Valid() && fresh(tree)
      ensures RebuiltFrom(old(catalogs), old(deletedCatalogs), old(definitionFile),
                          catalogs, deletedCatalogs, definitionFile, tree.items)
    {
      CreateMissingCatalogs();
      tree := ReadIntoTree();
    }

    /** The loop of `update_catalog_path`: every live catalog whose path rebases from
        `from` to a non-empty path below `to` takes the rebased path, visiting the
        catalogs in any order. */
    method RenamePaths(from: Path, to: Path)
      modifies this
      ensures catalogs == RenamedAll(old(catalogs), from, to)
      ensures deletedCatalogs == old(deletedCatalogs) && definitionFile == old(definitionFile) && tree == old(tree)
    {
      ghost var target := RenamedAll(catalogs, from, to);
      var todo := catalogs.Keys;
      while todo != {}
        invariant todo <= catalogs.Keys && catalogs.Keys == old(catalogs).Keys
        invariant forall id :: id in catalogs ==> catalogs[id] == if id in todo then old(catalogs)[id] else target[id]
        invariant deletedCatalogs == old(deletedCatalogs) && definitionFile == old(definitionFile) && tree == old(tree)
        decreases todo
      {
        var id :| id in todo;
        var newPath := Rebase(catalogs[id].path, from, to);
        if newPath.Some? && newPath.value != [] {
          catalogs := catalogs[id := catalogs[id].(path := newPath.value)];
        }
        todo := todo - {id};
      }
    }

    /** `update_catalog_path`: the catalog must exist (the source dereferences it
        unchecked); every catalog at or below its path moves below `newPath`, then the
        tree is rebuilt. */
    method UpdateCatalogPath(id: CatalogId, newPath: Path)
      requires Valid() && id in catalogs && IsCanonical(newPath)
      requires RoomFor(RenamedAll(catalogs, catalogs[id].path, newPath), deletedCatalogs)
      modifies this, tree
      ensures Valid()
      ensures RebuiltFrom(RenamedAll(old(catalogs), old(catalogs)[id].path, newPath), old(deletedCatalogs),
                          old(definitionFile), catalogs, deletedCatalogs, definitionFile, tree.items)
      ensures id in catalogs
      ensures newPath != [] ==> catalogs[id].path == newPath
      ensures newPath == [] ==> catalogs[id] == old(catalogs)[id]
    {
      var oldPath := catalogs[id].path;
      RenameKeepsLiveStore(catalogs, oldPath, newPath);
      RenamedItself(catalogs, id, newPath);
      RenamePaths(oldPath, newPath);
      ghost var renamed := catalogs;
      RebuildTree();
      assert id in renamed;
    }

    /** The first half of `delete_catalog`: the catalog is flagged deleted and leaves the
        live map; it becomes a tombstone unless its identifier is one already, in which
        case the old tombstone stays (`Map::add`). */
    method MoveToTombstones(id: CatalogId)
      requires Valid() && id in catalogs
      modifies this
      ensures Valid()
      ensures catalogs == old(catalogs) - {id}
      ensures deletedCatalogs == AddTombstone(old(deletedCatalogs), id, old(catalogs)[id].(isDeleted := true))
      ensures tree == old(tree) && definitionFile == old(definitionFile)
    {
      var c := catalogs[id].(isDeleted := true);
      var live := catalogs - {id};
      var tombstones := AddTombstone(deletedCatalogs, id, c);
      StoresAfterDelete(catalogs, deletedCatalogs, id);
      KeysAfterMove(catalogs, deletedCatalogs, id, c);
      assert LiveStore(live) && DeletedStore(tombstones);
      assert live.Keys + tombstones.Keys == catalogs.Keys + deletedCatalogs.Keys;
      catalogs, deletedCatalogs := live, tombstones;
    }

    /** `delete_catalog`: an unknown identifier changes nothing; a known one is flagged
        deleted and moved to the tombstones, after which the tree is rebuilt (which may
        create a catalog again at the deleted one's path when catalogs below it remain). */
    method DeleteCatalog(id: CatalogId)
      requires Valid() && RoomFor(catalogs, deletedCatalogs)
      modifies this, tree
      ensures Valid()
      ensures id !in old(catalogs) ==>
        && catalogs == old(catalogs) && deletedCatalogs == old(deletedCatalogs)
        && definitionFile == old(definitionFile) && tree == old(tree) && tree.items == old(tree.items)
      ensures id in old(catalogs) ==>
        && DeletedFrom(old(catalogs), old(deletedCatalogs), old(definitionFile), id, catalogs, deletedCatalogs, definitionFile)
        && TreeMatches(tree.items, catalogs)
      ensures id in old(catalogs) && id in old(deletedCatalogs) ==> deletedCatalogs == old(deletedCatalogs)
      ensures Disjoint(old(catalogs), old(deletedCatalogs)) ==> Disjoint(catalogs, deletedCatalogs)
    {
      if id !in catalogs {
        return;
      }
      RoomAfterDelete(catalogs, deletedCatalogs, id, catalogs[id].(isDeleted := true));
      MoveToTombstones(id);
      ghost var moved := catalogs;
      RebuildTree();
      DeleteOutcome(old(catalogs), old(deletedCatalogs), old(definitionFile), id, moved, catalogs, deletedCatalogs, definitionFile);
    }

    /** `find_catalog_by_path`: some live catalog at exactly that path (which one, when
        several share it, depends on the map's iteration order), or none if none is. */
    method FindCatalogByPath(path: Path) returns (r: Option<Catalog>)
      requires Valid()
      ensures r.Some? ==> r.value.id in catalogs && catalogs[r.value.id] == r.value && r.value.path == path
      ensures r.None? <==> path !in PathsOf(catalogs)
    {
      var todo := catalogs.Keys;
      while todo != {}
        invariant todo <= catalogs.Keys
        invariant forall id :: id in catalogs && id !in todo ==> catalogs[id].path != path
        decreases todo
      {
        var id :| id in todo;
        if catalogs[id].path == path {
          return Some(catalogs[id]);
        }
        todo := todo - {id};
      }
      return None;
    }
    /** One parsed catalog handed to the keep-callback for `policy`: it is stored unless
        its identifier is live already (or, when merging, a tombstone); a kept identifier
        the file does not have yet joins the file's identifiers `ids0`. */
    method OfferParsed(c: Catalog, policy: KeepPolicy, ids0: set<CatalogId>) returns (ids: set<CatalogId>)
      modifies this
      ensures ParseState(catalogs, ids) == KeepParsed(c, policy, deletedCatalogs.Keys, ParseState(old(catalogs), ids0))
      ensures deletedCatalogs == old(deletedCatalogs) && definitionFile == old(definitionFile) && tree == old(tree)
    {
      ids := ids0;
      var keep := c.id !in catalogs && (policy == LoadFresh || c.id !in deletedCatalogs);
      if keep {
        catalogs := catalogs[c.id := c];
        if c.id !in ids {
          ids := ids + {c.id};
        }
      }
    }

    /** The loop of `AssetCatalogDefinitionFile::parse_catalog_file` with the service's
        keep-callback for `policy` in place: every line is trimmed, blank and comment lines
        are skipped, the first other line must be the version line (the loop stops
        otherwise), and each catalog line that parses is offered to the callback, which
        stores it in the live map unless the identifier is live already (or, when merging,
        a tombstone); a kept identifier the file does not have yet joins `ids`. */
    method ParseCatalogFile(lines: seq<string>, policy: KeepPolicy, ids0: set<CatalogId>) returns (ids: set<CatalogId>)
      modifies this
      ensures ParseState(catalogs, ids)
           == ParseLines(lines, false, policy, deletedCatalogs.Keys, ParseState(old(catalogs), ids0))
      ensures deletedCatalogs == old(deletedCatalogs) && definitionFile == old(definitionFile) && tree == old(tree)
    {
      ids := ids0;
      var seenVersion := false;
      var i := 0;
      while i < |lines|
        invariant 0 <= i <= |lines|
        invariant ParseLines(lines, false, policy, deletedCatalogs.Keys, ParseState(old(catalogs), ids0))
               == ParseLines(lines[i..], seenVersion, policy, deletedCatalogs.Keys, ParseState(catalogs, ids))
        invariant deletedCatalogs == old(deletedCatalogs) && definitionFile == old(definitionFile) && tree == old(tree)
      {
        var t := Trim(lines[i]);
        if IsIgnored(t) {
          ParseLinesSkip(lines, i, seenVersion, policy, deletedCatalogs.Keys, ParseState(catalogs, ids));
          i := i + 1;
          continue;
        }
        if !seenVersion {
          ParseLinesVersion(lines, i, policy, deletedCatalogs.Keys, ParseState(catalogs, ids));
          if !ParseVersionLine(t) {
            break;
          }
          seenVersion := true;
          i := i + 1;
          continue;
        }
        ParseContentLine(lines, i, policy, deletedCatalogs.Keys, ParseState(catalogs, ids));
        var parsed := ParseCatalogLine(t);
        if parsed.Some? {
          ids := OfferParsed(parsed.value, policy, ids);
        }
        i := i + 1;
      }
      if i == |lines| {
        assert lines[i..] == [];
      }
    }

    /** `parse_catalog_file` of the service followed by `load_single_file`: a new
        definition file at `filePath`, holding the catalogs a fresh load kept, becomes the
        service's definition file. The source asserts that none was loaded before. */
    method LoadSingleFile(filePath: string, lines: seq<string>)
      requires Valid() && definitionFile.None?
      modifies this
      ensures Valid() && tree == old(tree) && deletedCatalogs == old(deletedCatalogs)
      ensures definitionFile.Some? && definitionFile.value.filePath == filePath
      ensures ParseState(catalogs, definitionFile.value.catalogIds)
           == ParseLines(lines, false, LoadFresh, deletedCatalogs.Keys, ParseState(old(catalogs), {}))
    {
      ParseKeepsStores(lines, false, LoadFresh, deletedCatalogs.Keys, ParseState(catalogs, {}));
      var ids := ParseCatalogFile(lines, LoadFresh, {});
      definitionFile := Some(CatalogDefinitionFile(filePath, ids));
    }

    /** `load_from_disk`: nothing happens when nothing lies at `path`; otherwise the file
        found there (the path itself, or a directory's default file) is loaded, if there
        is one, and the tree is rebuilt, creating the missing parent catalogs. */
    method LoadFromDisk(path: string, entry: FsEntry)
      requires Valid()
      requires FileToLoad(path, entry).Some? ==> definitionFile.None?
      requires !entry.Missing? ==> RoomFor(LoadedState(path, entry, catalogs, deletedCatalogs, definitionFile).0, deletedCatalogs)
      modifies this, tree
      ensures Valid()
      ensures entry.Missing? ==>
        && catalogs == old(catalogs) && deletedCatalogs == old(deletedCatalogs)
        && definitionFile == old(definitionFile) && tree == old(tree) && tree.items == old(tree.items)
      ensures !entry.Missing? ==>
        var loaded := LoadedState(path, entry, old(catalogs), old(deletedCatalogs), old(definitionFile));
        && deletedCatalogs == old(deletedCatalogs)
        && (forall x :: x in loaded.0 ==> x in catalogs && catalogs[x] == loaded.0[x])
        && ParentsExist(catalogs)
        && (forall x {:trigger x in NewIds(catalogs, loaded.0)} :: x in NewIds(catalogs, loaded.0) ==>
              x !in deletedCatalogs && MissingAncestor(catalogs[x].path, loaded.0))
        && definitionFile == Recorded(loaded.1, NewIds(catalogs, loaded.0))
        && TreeMatches(tree.items, catalogs)
    {
      if entry.Missing? {
        return;
      }
      var file := FileToLoad(path, entry);
      if file.Some? {
        LoadSingleFile(file.value.0, file.value.1);
      }
      RebuildTree();
    }

    /** `merge_from_disk_before_writing`: when the definition file's path names a regular
        file, that file is read again, keeping only catalogs that are neither live nor
        tombstones, and the file records them. The tree is not rebuilt. */
    method MergeFromDiskBeforeWriting(onDisk: FsEntry)
      requires Valid()
      modifies this
      ensures Valid() && tree == old(tree) && deletedCatalogs == old(deletedCatalogs)
      ensures !MergeApplies(old(definitionFile), onDisk) ==>
        catalogs == old(catalogs) && definitionFile == old(definitionFile)
      ensures MergeApplies(old(definitionFile), onDisk) ==>
        var f := old(definitionFile).value;
        var r := ParseLines(onDisk.lines, false, MergeBeforeWriting, deletedCatalogs.Keys, ParseState(old(catalogs), f.catalogIds));
        catalogs == r.live && definitionFile == Some(f.(catalogIds := r.fileIds))
      ensures forall x :: x in old(catalogs) ==> x in catalogs && catalogs[x] == old(catalogs)[x]
      ensures forall x :: x in deletedCatalogs && x in catalogs ==> x in old(catalogs)
    {
      if !MergeApplies(definitionFile, onDisk) {
        return;
      }
      var f := definitionFile.value;
      var st := ParseState(catalogs, f.catalogIds);
      ParseKeepsStores(onDisk.lines, false, MergeBeforeWriting, deletedCatalogs.Keys, st);
      ParseKeepsExisting(onDisk.lines, false, MergeBeforeWriting, deletedCatalogs.Keys, st);
      MergeNeverResurrects(onDisk.lines, false, deletedCatalogs.Keys, st);
      var ids := ParseCatalogFile(onDisk.lines, MergeBeforeWriting, f.catalogIds);
      definitionFile := Some(f.(catalogIds := ids));
    }

    /** The catalog a definition-file entry points at: the live one, or else its
        tombstone. */
    function FileCatalog(id: CatalogId): (c: Catalog)
      reads this
      requires id in catalogs || id in deletedCatalogs
    {
      if id in catalogs then catalogs[id] else deletedCatalogs[id]
    }

    /** What `write_to_disk_unsafe` writes for the service's definition file: the header,
        the version line, then its live catalogs, sorted by path and identifier. */
    method DefinitionFileContent() returns (lines: seq<string>, written: seq<Catalog>)
      requires Valid() && definitionFile.Some?
      ensures Sorted(written)
      ensures forall c :: c in written <==>
        c.id in definitionFile.value.catalogIds && c.id in catalogs && catalogs[c.id] == c
      ensures lines == FileContent(written)
    {
      var ids := definitionFile.value.catalogIds;
      var entries := set id | id in ids :: FileCatalog(id);
      lines, written := WriteContent(entries);
      forall c ensures c in written <==> c.id in ids && c.id in catalogs && catalogs[c.id] == c {
        if c.id in ids && c.id in catalogs && catalogs[c.id] == c {
          assert FileCatalog(c.id) == c;
        }
      }
    }

    /** `write_to_disk_on_blendfile_save`. With a definition file: merge it with what is on
        disk, then write it. With none and nothing live or deleted: write nothing and
        report success. Otherwise a definition file at `newFilePath` (the place
        `find_suitable_cdf_path_for_writing` picks) is made from the live catalogs
        (`construct_cdf_in_memory`), merged and written. `onDisk` is what lies at the
        definition file's path; `writeSucceeds` is the outcome of the file-system calls
        of `write_to_disk`. */
    method WriteToDiskOnBlendfileSave(newFilePath: string, onDisk: FsEntry, writeSucceeds: bool)
      returns (ok: bool, lines: Option<seq<string>>, written: seq<Catalog>)
      requires Valid()
      modifies this
      ensures Valid() && tree == old(tree) && deletedCatalogs == old(deletedCatalogs)
      ensures lines.None? <==> old(definitionFile).None? && old(catalogs) == map[] && old(deletedCatalogs) == map[]
      ensures lines.None? ==> ok && catalogs == old(catalogs) && definitionFile == old(definitionFile)
      ensures lines.Some? ==>
        && ok == writeSucceeds
        && definitionFile.Some?
        && definitionFile.value.filePath == (if old(definitionFile).Some? then old(definitionFile).value.filePath else newFilePath)
        && (old(definitionFile).None? ==> old(catalogs).Keys <= definitionFile.value.catalogIds)
        && Sorted(written)
        && (forall c :: c in written <==> c.id in definitionFile.value.catalogIds && c.id in catalogs && catalogs[c.id] == c)
        && lines.value == FileContent(written)
      ensures forall x :: x in old(catalogs) ==> x in catalogs && catalogs[x] == old(catalogs)[x]
      ensures forall x :: x in deletedCatalogs && x in catalogs ==> x in old(catalogs)
    {
      if definitionFile.None? {
        if catalogs == map[] && deletedCatalogs == map[] {
          return true, None, [];
        }
        definitionFile := Some(CatalogDefinitionFile(newFilePath, catalogs.Keys));
      }
      ghost var f := definitionFile.value;
      MergeFromDiskBeforeWriting(onDisk);
      assert f.catalogIds <= definitionFile.value.catalogIds by {
        if MergeApplies(Some(f), onDisk) {
          ParseKeepsExisting(onDisk.lines, false, MergeBeforeWriting, deletedCatalogs.Keys, ParseState(old(catalogs), f.catalogIds));
        }
      }
      var content;
      content, written := DefinitionFileContent();
      return writeSucceeds, Some(content), written;
    }
  }
}
