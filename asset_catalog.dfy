/** One catalog record (`AssetCatalog`), the display name derived from its path, and the
    snapshot filter (`AssetCatalogFilter`) built from a catalog and its descendants. */
module AssetCatalog {
  import opened Strings
  import opened Uuid
  import opened CatalogPath

  /** `MAX_NAME` from Blender's DNA headers: name buffers hold 63 characters plus the
      terminating zero. */
  const MAX_NAME: nat := 64

  /** Number of trailing characters kept when a long name is shortened. */
  const KEPT_NAME_TAIL: nat := 60

  const ELLIPSIS: string := "..."

  /** `isDeleted` is the single flag of `AssetCatalog::flags`. */
  datatype Catalog = Catalog(id: CatalogId, path: Path, simpleName: string, isDeleted: bool)

  /** `sensible_simple_name_for_path`: the path text with every separator turned into '-';
      a text of 63 characters or more keeps only its last 60, after an ellipsis. Lengths
      are counted in characters; the source counts the bytes of the UTF-8 text, which is
      the same for ASCII paths. */
  function SensibleSimpleName(p: Path): (r: string)
    ensures |r| < MAX_NAME
    ensures SEPARATOR !in r
    ensures |Str(p)| < MAX_NAME - 1 ==> r == ReplaceChar(Str(p), SEPARATOR, '-')
    ensures |Str(p)| >= MAX_NAME - 1 ==>
      |r| == MAX_NAME - 1 && r[..|ELLIPSIS|] == ELLIPSIS &&
      r[|ELLIPSIS|..] == ReplaceChar(Str(p), SEPARATOR, '-')[|Str(p)| - KEPT_NAME_TAIL..]
  {
    var name := ReplaceChar(Str(p), SEPARATOR, '-');
    ReplaceCharAt(Str(p), SEPARATOR, '-');
    assert SEPARATOR !in name by {
      forall i | 0 <= i < |name| ensures name[i] != SEPARATOR { }
    }
    if |name| < MAX_NAME - 1 then name
    else
      var tail := name[|name| - KEPT_NAME_TAIL..];
      assert forall c :: c in tail ==> c in name;
      ELLIPSIS + tail
  }

  /** A top-level catalog whose name fits, counted in UTF-8 bytes as the source counts it,
      is labelled with its own component, unchanged. */
  lemma TopLevelNameKept(component: string)
    requires IsCleanComponent(component) && Utf8Length(component) < MAX_NAME - 1
    ensures SensibleSimpleName([component]) == component
  {
    var r := ReplaceChar(component, SEPARATOR, '-');
    ReplaceCharAt(component, SEPARATOR, '-');
    assert r == component;
  }

  /** `AssetCatalog::from_path`: a new, not deleted catalog at the cleaned-up path, named
      after it. The identifier is the caller's fresh one. */
  function FromPath(pathText: string, id: CatalogId): (c: Catalog)
    ensures c.id == id && !c.isDeleted
    ensures IsCanonical(c.path) && c.path == Cleanup(pathText)
    ensures |c.simpleName| < MAX_NAME && SEPARATOR !in c.simpleName
  {
    var clean := Cleanup(pathText);
    CleanupCanonical(pathText);
    Catalog(id, clean, SensibleSimpleName(clean), false)
  }

  /** The identifiers an asset may carry to pass the filter; fixed once built. */
  datatype AssetCatalogFilter = AssetCatalogFilter(matchingIds: set<CatalogId>) {
    /** `AssetCatalogFilter::contains`. */
    predicate Contains(id: CatalogId) {
      id in matchingIds
    }
  }
}
