# Asset catalogs, modelled in Dafny

This project models the asset catalog system of Blender's kernel, the code in
`source/blender/blenkernel/intern/asset_catalog.cc`, and proves properties of the model. An
asset catalog is a named place in a hierarchy of paths such as `characters/ellie/poses`,
identified by a UUID. The model covers:

- `AssetCatalogService`: the live catalogs, the tombstones of deleted catalogs, the definition
  file they were read from, and the derived tree. It is a Dafny class whose methods update
  these fields as the source does.
- `AssetCatalogTree`: one item per path prefix.
- `AssetCatalogDefinitionFile`: the text format of `blender_assets.cats.txt`, its reading
  loop with the keep-callbacks, and the content written back.
- `AssetCatalog`, the display name derived from a path, and `AssetCatalogFilter`.

Files, one module each:

| file | module | what it holds |
|---|---|---|
| `wrappers.dfy` | `Wrappers` | `Option` |
| `strings.dfy` | `Strings` | trimming, `atoi`, the byte-wise string order |
| `uuid.dfy` | `Uuid` | 128-bit identifiers, their text form, the fresh-identifier stand-in |
| `catalog_path.dfy` | `CatalogPath` | paths as sequences of components, `cleanup`, `parent`, `is_contained_in`, `rebase` |
| `asset_catalog.dfy` | `AssetCatalog` | the catalog record, `sensible_simple_name_for_path`, `from_path`, the filter |
| `definition_file.dfy` | `DefinitionFile` | line parsing, the fold over a file's lines, the sorted output, the read-back proofs |
| `catalog_tree.dfy` | `CatalogTree` | `insert_item`, `catalog_path`, `count_parents`, `foreach_item` |
| `catalog_service.dfy` | `CatalogService` | the service class and its operations |

Modelling choices:

- A file is the sequence of its lines. What lies at a path on disk (missing, a regular file
  with its lines, a directory with or without its default file, something else) is the
  parameter `FsEntry`.
- The random UUID generator is replaced by `Uuid.GenerateFresh`. It returns some non-nil
  identifier that is neither live nor a tombstone, so it needs a free identifier to exist.
- The definition file holds the identifiers of its catalogs instead of pointers. Each one is
  resolved in the live map, or else in the tombstones.
- The tree keeps its items in one map keyed by full path. An item's parent pointer is the
  parent's key.
- When `insert_item` meets a placeholder (nil identifier) at a catalog's own path, the item
  adopts only the identifier. Its label stays the empty placeholder label
  (asset_catalog.cc:499-501).
- `merge_from_disk_before_writing` adds catalogs to the live map without rebuilding the tree,
  as the code does.

## Model

| member | source | states |
|---|---|---|
| Uuid.ParseFormat | source/blender/blenkernel/intern/asset_catalog.cc:626-632 | reading the text an identifier is written as gives that identifier back |
| Uuid.GenerateFresh | source/blender/blenkernel/intern/asset_catalog.cc:767-774 | the identifier given to a new catalog is not nil and is used by no live or deleted catalog |
| CatalogPath.CleanupStr | source/blender/blenkernel/intern/asset_catalog.cc:419-420 | cleaning up the text of a clean path gives the same path, so `create_catalog(parent_path)` creates a catalog at exactly the parent path |
| CatalogPath.Rebase | source/blender/blenkernel/intern/asset_catalog.cc:143-147 | a path is rebased exactly when it lies at or below `from`; the result lies below `to` with the same tail of components |
| CatalogPath.ParentSortsFirst | source/blender/blenkernel/intern/asset_catalog.cc:389-393 | a parent path's text sorts before its child's, so the ordered set hands out parents first |
| CatalogPath.SiblingWithCommonPrefixIsNotContained | source/blender/blenkernel/intern/asset_catalog.cc:106-110 | containment is by whole components: `a/bc` extends the text `a/b` but is not contained in it |
| AssetCatalog.SensibleSimpleName | source/blender/blenkernel/intern/asset_catalog.cc:776-787 | every separator becomes '-'; a name shorter than `MAX_NAME - 1` characters is kept; a longer one becomes "..." and its last 60 characters; the result always fits `MAX_NAME` characters (the source counts bytes, see Left out) |
| AssetCatalog.TopLevelNameKept | source/blender/blenkernel/intern/asset_catalog.cc:776-782 | a top-level path whose component is shorter than `MAX_NAME - 1` UTF-8 bytes, the unit `std::string::length()` counts, is labelled with that component unchanged |
| Strings.Utf8Length | source/blender/blenkernel/intern/asset_catalog.cc:780-786 | the byte length of a text is never less than its number of characters, and equal to it exactly when every character is ASCII |
| AssetCatalog.FromPath | source/blender/blenkernel/intern/asset_catalog.cc:767-774 | a new catalog, not deleted, at the cleaned-up path, named after it |
| DefinitionFile.VersionLineNumber | source/blender/blenkernel/intern/asset_catalog.cc:602-613 | a version line with digits after "VERSION " is accepted exactly when `atoi` reads 1 |
| DefinitionFile.WrittenVersionLineAccepted | source/blender/blenkernel/intern/asset_catalog.cc:704 | the version line the writer emits passes the reader's version check |
| DefinitionFile.ParseCatalogLine | source/blender/blenkernel/intern/asset_catalog.cc:615-622 | a line without ':' yields no catalog; a parsed catalog is not deleted, has a clean path and a trimmed name |
| DefinitionFile.ParseLineBadId | source/blender/blenkernel/intern/asset_catalog.cc:626-633 | an identifier field that does not parse yields no catalog |
| DefinitionFile.ParseLineEmptyPath | source/blender/blenkernel/intern/asset_catalog.cc:640-643 | ':' directly after the first ':' yields no catalog |
| DefinitionFile.ParseLineNoName | source/blender/blenkernel/intern/asset_catalog.cc:645-649 | without a second ':' the whole rest is the path and the name is empty; an empty rest gives a catalog at the empty path |
| DefinitionFile.ParseLineFull | source/blender/blenkernel/intern/asset_catalog.cc:650-655 | with two ':' the path is the text between them and the name is the trimmed rest |
| DefinitionFile.CatalogLineRoundTrip | source/blender/blenkernel/intern/asset_catalog.cc:615-656 | a written catalog line reads back as the catalog it was written from |
| DefinitionFile.KeepParsed | source/blender/blenkernel/intern/asset_catalog.cc:585-598 | a catalog the callback refuses changes nothing; a kept one is stored and recorded in the file; known catalogs are never replaced |
| DefinitionFile.ParseLinesSkip | source/blender/blenkernel/intern/asset_catalog.cc:562-565 | blank and comment lines are skipped |
| DefinitionFile.VersionGate | source/blender/blenkernel/intern/asset_catalog.cc:567-578 | when the first line that is not blank or a comment is not a valid version line, reading yields nothing and no callback runs |
| DefinitionFile.NothingButComments | source/blender/blenkernel/intern/asset_catalog.cc:562-565 | a file of blank and comment lines yields nothing |
| DefinitionFile.ParseKeepsExisting | source/blender/blenkernel/intern/asset_catalog.cc:585-598 | reading never replaces a known catalog, and the file only gains identifiers |
| DefinitionFile.FirstOccurrenceWins | source/blender/blenkernel/intern/asset_catalog.cc:591-598 | when an identifier occurs several times in a file, the first kept occurrence is the catalog that stays |
| DefinitionFile.MergeNeverResurrects | source/blender/blenkernel/intern/asset_catalog.cc:279-296 | a merge never makes a tombstoned identifier live again |
| DefinitionFile.WriteContent | source/blender/blenkernel/intern/asset_catalog.cc:700-719 | the output is header, blank line, version line, blank line, then one line per non-deleted catalog, sorted by path and identifier |
| DefinitionFile.SortedIsUnique | source/blender/blenkernel/intern/asset_catalog.cc:706-716 | two sorted listings of the same catalogs are equal, so the output does not depend on map order |
| DefinitionFile.HeaderIsIgnored | source/blender/blenkernel/intern/asset_catalog.cc:51-56 | the reader skips every header line and the blank line after it |
| DefinitionFile.FileRoundTrip | source/blender/blenkernel/intern/asset_catalog.cc:687-719 | loading a written file into an empty service gives back exactly the catalogs written, and the file records each of them, for catalogs with a non-empty clean path and a trimmed name, neither holding a line break |
| CatalogTree.InsertedKeys | source/blender/blenkernel/intern/asset_catalog.cc:475-507 | inserting adds exactly the path's prefixes, so a path already present reuses its items |
| CatalogTree.InsertedLastItem | source/blender/blenkernel/intern/asset_catalog.cc:484-497 | at the catalog's own path a placeholder adopts the identifier, an item with a real identifier keeps it, a new item gets the identifier and label |
| CatalogTree.InsertedOtherItems | source/blender/blenkernel/intern/asset_catalog.cc:484-491 | items for strict prefixes are created as nil placeholders, and no other item changes |
| CatalogTree.InsertIdempotent | source/blender/blenkernel/intern/asset_catalog.cc:475-507 | inserting the same catalog twice is the same as inserting it once |
| CatalogTree.FirstInsertedKeepsPath | source/blender/blenkernel/intern/asset_catalog.cc:494-497 | of two catalogs at one path, the first one inserted settles the item |
| CatalogTree.InsertedValid | source/blender/blenkernel/intern/asset_catalog.cc:475-507 | after an insertion every item still sits at its path with the right name and an existing parent |
| CatalogTree.AssetCatalogTree.InsertItem | source/blender/blenkernel/intern/asset_catalog.cc:475-507 | the component walk leaves the items `Inserted` describes and keeps the tree well formed |
| CatalogTree.AssetCatalogTree.CatalogPathOf | source/blender/blenkernel/intern/asset_catalog.cc:450-457 | following parent links and prepending names rebuilds exactly the item's path |
| CatalogTree.AssetCatalogTree.CountParents | source/blender/blenkernel/intern/asset_catalog.cc:459-466 | the number of parents is the path depth minus one |
| CatalogTree.AssetCatalogTree.ForeachItem | source/blender/blenkernel/intern/asset_catalog.cc:509-521 | every item is visited exactly once, depth first, siblings by name |
| CatalogTree.AncestorVisitedFirst | source/blender/blenkernel/intern/asset_catalog.cc:514-521 | an item is visited before everything below it |
| CatalogTree.SubtreeIsContiguous | source/blender/blenkernel/intern/asset_catalog.cc:514-521 | a subtree is visited in one stretch |
| CatalogService.AssetCatalogService.constructor | source/blender/blenkernel/intern/asset_catalog.cc:58-61 | a new service has no catalogs, no tombstones, no definition file and an empty tree |
| CatalogService.AssetCatalogService.FindCatalog | source/blender/blenkernel/intern/asset_catalog.cc:68-75 | the live catalog with that identifier, or none exactly when there is none |
| CatalogService.AssetCatalogService.FindCatalogByPath | source/blender/blenkernel/intern/asset_catalog.cc:77-86 | a live catalog at exactly that path, or none exactly when no live catalog has it |
| CatalogService.AssetCatalogService.CreateCatalogFilter | source/blender/blenkernel/intern/asset_catalog.cc:88-113 | the filter always holds the active identifier; for an unknown one nothing else; otherwise exactly the live catalogs at or below its path |
| CatalogService.AssetCatalogService.FilterContains | source/blender/blenkernel/intern/asset_catalog.cc:794-797 | a built filter passes an asset exactly when its catalog is the active one, or is live and at or below the live active catalog's path |
| CatalogService.AssetCatalogService.IsEmpty | source/blender/blenkernel/intern/asset_catalog.cc:63-66 | empty exactly when no live catalog holds a path (tombstones do not count); then every filter holds only its active identifier |
| CatalogService.AssetCatalogService.FilterNesting | source/blender/blenkernel/intern/asset_catalog.cc:88-113 | the filter of a catalog below another passes nothing the outer filter blocks |
| CatalogService.AssetCatalogService.CreateCatalog | source/blender/blenkernel/intern/asset_catalog.cc:155-178 | a new catalog at the cleaned-up path under an unused identifier; the file records it; the tree gains its path |
| CatalogService.AssetCatalogService.AddCatalog | source/blender/blenkernel/intern/asset_catalog.cc:165-175 | the catalog is stored, recorded in the definition file if there is one, and inserted into the tree |
| CatalogService.AssetCatalogService.DeleteCatalog | source/blender/blenkernel/intern/asset_catalog.cc:115-133 | an unknown identifier changes nothing: the maps, the definition file and the tree's items stay; a known one leaves the live map and becomes a flagged tombstone, unless its identifier is a tombstone already, in which case the tombstones stay as they were; every other catalog keeps its value; the rebuild adds only catalogs for missing parents, which the definition file records; the two maps stay disjoint and the tree matches the live catalogs |
| CatalogService.AddTombstone | source/blender/blenkernel/intern/asset_catalog.cc:128 | `Map::add` adds the identifier and never replaces an existing tombstone; the new tombstone goes in only when the identifier had none |
| CatalogService.AssetCatalogService.MoveToTombstones | source/blender/blenkernel/intern/asset_catalog.cc:123-130 | the catalog is flagged deleted and leaves the live map; the tombstones become `AddTombstone` of the old ones, so an existing tombstone for the identifier stays |
| CatalogService.DeleteOutcome | source/blender/blenkernel/intern/asset_catalog.cc:115-133 | after the move and the rebuild, the deleted identifier is not live and the maps stay disjoint |
| CatalogService.AssetCatalogService.UpdateCatalogPath | source/blender/blenkernel/intern/asset_catalog.cc:136-153 | every live catalog whose path rebases to a non-empty path moves to it below the new path, the others stay; the renamed catalog ends at the new path, or keeps its old one when the new path is empty; the rebuild then adds only missing parents and the tree matches the live catalogs |
| CatalogService.AssetCatalogService.RenamePaths | source/blender/blenkernel/intern/asset_catalog.cc:142-150 | the loop gives every catalog its rebased path when that is not empty and leaves it otherwise, whatever the visiting order |
| CatalogService.RenameMovesSubtree | source/blender/blenkernel/intern/asset_catalog.cc:142-150 | only paths change; a catalog below the old path keeps its place below the new one; a catalog outside the old path, or one whose rebased path would be empty, stays |
| CatalogService.RenameToSelf | source/blender/blenkernel/intern/asset_catalog.cc:136-153 | renaming a path to itself changes nothing |
| CatalogService.FirstPathExists | source/blender/blenkernel/intern/asset_catalog.cc:396-399 | a non-empty queue of paths has a first path in text order |
| CatalogService.ParentIsMissing | source/blender/blenkernel/intern/asset_catalog.cc:404-422 | a popped path whose parent was not seen has a parent with no catalog yet, which is a missing ancestor of an earlier path |
| CatalogService.AssetCatalogService.CreateMissingCatalogs | source/blender/blenkernel/intern/asset_catalog.cc:387-423 | it terminates; afterwards every catalog below the top level has a catalog at its parent path; every new catalog sits alone at a non-empty path that had none and lies above an earlier one; earlier catalogs are untouched |
| CatalogService.AssetCatalogService.ReadIntoTree | source/blender/blenkernel/intern/asset_catalog.cc:369-379 | the new tree holds an item for exactly the non-empty prefixes of live catalogs' paths; an item with a real identifier carries a live catalog at exactly its path; the item at the path of a live catalog with a real identifier carries a real one |
| CatalogService.AssetCatalogService.RebuildTree | source/blender/blenkernel/intern/asset_catalog.cc:381-385 | missing parents are created and recorded, nothing else in the maps changes, then the tree matches the live catalogs as `ReadIntoTree` states |
| CatalogService.AssetCatalogService.OfferParsed | source/blender/blenkernel/intern/asset_catalog.cc:251-262 | the keep-callback and the file's duplicate check applied to one parsed catalog, as `KeepParsed` describes |
| CatalogService.AssetCatalogService.ParseCatalogFile | source/blender/blenkernel/intern/asset_catalog.cc:552-600 | the line loop leaves the live catalogs and the file's identifiers that the fold `ParseLines` describes |
| CatalogService.ParseKeepsStores | source/blender/blenkernel/intern/asset_catalog.cc:552-600 | reading keeps every live catalog clean and not deleted, and each identifier the file gains was made live by the reading |
| CatalogService.AssetCatalogService.LoadSingleFile | source/blender/blenkernel/intern/asset_catalog.cc:232-268 | a fresh load creates the definition file at the given path, holding the catalogs it kept |
| CatalogService.DefaultFilePath | source/blender/blenkernel/intern/asset_catalog.cc:180-188 | the default file name joined to the directory |
| CatalogService.AssetCatalogService.LoadFromDisk | source/blender/blenkernel/intern/asset_catalog.cc:195-230 | nothing at the path changes nothing, the tree's items included; otherwise the file found there is loaded and the tree rebuilt, creating only missing parents |
| CatalogService.AssetCatalogService.MergeFromDiskBeforeWriting | source/blender/blenkernel/intern/asset_catalog.cc:270-300 | without a definition file, a known path or a regular file there, nothing changes; otherwise the file is read with the merge callback; known catalogs stay and no tombstone becomes live |
| CatalogService.AssetCatalogService.DefinitionFileContent | source/blender/blenkernel/intern/asset_catalog.cc:700-719 | the written lines list exactly the definition file's live catalogs, sorted |
| CatalogService.AssetCatalogService.WriteToDiskOnBlendfileSave | source/blender/blenkernel/intern/asset_catalog.cc:302-321 | nothing is written, with success, exactly when there is no definition file and no live or deleted catalog; otherwise the file (the loaded one, or a new one holding the live catalogs) is merged and its live catalogs written |

## Left out

- CatalogService.AssetCatalogService.DeleteCatalog: an identifier can be live and a tombstone
  at once, because a load checks only the live map. Deleting it then keeps the old tombstone,
  as `Map::add` does, and the source frees the just-loaded catalog while the definition file
  still points at it. The model's definition file holds identifiers, so that entry resolves to
  the old tombstone; the dangling pointer is not modelled.
- File-system calls (`BLI_stat`, `BLI_exists`, `BLI_is_file`, `std::fstream`, `std::ofstream`)
  are not modelled. What lies at a path is the parameter `FsEntry`.
- The write sequence `.writing` → `~` → rename and `ensure_directory_exists` are not
  modelled. Their combined outcome is the parameter `writeSucceeds`.
- `find_suitable_cdf_path_for_writing` and `BKE_asset_library_find_suitable_root_path_from_path`
  are host-library path lookups. Their result is the parameter `newFilePath`.
- CatalogService.DefaultFilePath: models `BLI_join_dirfile` with '/' only. The Windows
  separator and truncation at `PATH_MAX` are not modelled.
- `load_from_disk()` without an argument only forwards the library root. The root is not
  stored; callers pass the path.
- `AssetCatalogPath` (`asset_catalog_path.cc`) is not part of this model. A path is a sequence of
  components; `cleanup` splits on both slashes, trims components, turns ':' into '-' and drops
  empty components.
- `BLI_uuid_generate_random` is replaced by `Uuid.GenerateFresh`. Because the identifier space
  is finite, the operations that may create catalogs require room for the identifiers they could
  take (`RoomFor` and the bound on `CreateCatalog`). A random 128-bit generator has no such
  precondition.
- `BLI_uuid_parse_string` is modelled as the strict 36-character parser `Uuid.Parse`.
- CatalogService.AssetCatalogService.UpdateCatalogPath: requires the new path to be clean.
  The source accepts any `AssetCatalogPath`, and the model keeps every live path clean.
- CatalogService.AssetCatalogService.ReadIntoTree: does not say which of several catalogs
  at one path the item there carries, nor the item's label. Both depend on the order in which
  the map is visited.
- CatalogService.AssetCatalogService.CreateMissingCatalogs: does not state the tree's items
  after the catalogs it creates are inserted. `rebuild_tree` replaces that tree right after.
- AssetCatalog.SensibleSimpleName: lengths are counted in characters, not in the UTF-8 bytes
  the source counts. A name holding non-ASCII characters is cut at a different place, or not
  cut at all. The source's byte tail may even split a character, which a Dafny string cannot
  hold. For ASCII text the two counts agree (`Strings.Utf8Length`).
- DefinitionFile.FileRoundTrip: the written file is the sequence of its lines. Joining them with
  `std::endl` and splitting them with `std::getline` are not modelled. Catalogs whose path or
  name holds a line break are therefore outside `IsWritable`.
- CatalogService.AssetCatalogService.FindCatalogByPath: does not say which catalog is returned
  when several share the path. That depends on the map's iteration order.
- `std::cerr` diagnostics are left out.
- `BLI_assert_msg` checks are preconditions, for example "no definition file loaded yet" in
  `LoadSingleFile`.
- `foreach_root_item`, `foreach_child`, `has_children` and the item getters are plain accessors
  of the tree and are not modelled.
- `MAX_NAME` (64) comes from Blender's DNA headers, which are not part of this model.
- `atoi`'s undefined behaviour on overflow is not modelled. The value read is unbounded.
- `HEADER` is modelled as its five lines rather than one string with embedded newlines.
