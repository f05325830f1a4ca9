/** Catalog paths (`AssetCatalogPath`), modelled by their components. A path is canonical
    when every component is non-empty, trimmed, and free of separators and of ':', which the
    definition file uses as its field delimiter. Containment and rebasing work on whole
    components, never on raw string prefixes. */
module CatalogPath {
  import opened Wrappers
  import opened Strings

  type Path = seq<string>

  /** The separator written between components. */
  const SEPARATOR: char := '/'

  /** Both slashes split components when a path is read from text. */
  predicate IsSeparator(c: char) {
    c == '/' || c == '\\'
  }

  predicate IsCleanComponent(s: string) {
    && s != []
    && IsTrimmed(s)
    && forall i :: 0 <= i < |s| ==> !IsSeparator(s[i]) && s[i] != ':'
  }

  predicate IsCanonical(p: Path) {
    forall i :: 0 <= i < |p| ==> IsCleanComponent(p[i])
  }

  /** The path's string form: its components joined by the separator. */
  function Str(p: Path): string {
    if p == [] then ""
    else if |p| == 1 then p[0]
    else p[0] + [SEPARATOR] + Str(p[1..])
  }

  /** Index of the first separator of either kind; `FirstSeparatorSpec` says what it
      finds. */
  function FirstSeparator(s: string): (r: Option<nat>)
    ensures r.Some? ==> r.value < |s|
  {
    if s == [] then None
    else if IsSeparator(s[0]) then Some(0)
    else match FirstSeparator(s[1..])
      case None => None
      case Some(i) => Some(i + 1)
  }

  predicate SeparatorFree(s: string) {
    forall i :: 0 <= i < |s| ==> !IsSeparator(s[i])
  }

  /** There is no separator exactly when none is found; when one is found, it is a
      separator and none comes before it. */
  lemma {:induction false} FirstSeparatorSpec(s: string)
    ensures FirstSeparator(s).None? <==> SeparatorFree(s)
    ensures FirstSeparator(s).Some? ==>
      IsSeparator(s[FirstSeparator(s).value]) && SeparatorFree(s[..FirstSeparator(s).value])
  {
    if s != [] && !IsSeparator(s[0]) {
      FirstSeparatorSpec(s[1..]);
      if SeparatorFree(s[1..]) {
        assert forall i :: 1 <= i < |s| ==> s[i] == s[1..][i - 1];
      } else {
        var j :| 0 <= j < |s[1..]| && IsSeparator(s[1..][j]);
        assert IsSeparator(s[j + 1]);
      }
      match FirstSeparator(s[1..])
      case None =>
      case Some(i) =>
        var pre, rest := s[..i + 1], s[1..][..i];
        forall k | 1 <= k < |pre| ensures !IsSeparator(pre[k]) {
          assert pre[k] == rest[k - 1];
        }
    }
  }

  /** The raw pieces between separators, as `iterate_components` visits them. */
  function Split(s: string): (parts: seq<string>)
    ensures |parts| >= 1
    decreases |s|
  {
    match FirstSeparator(s)
    case None => [s]
    case Some(i) => [s[..i]] + Split(s[i + 1..])
  }

  /** No piece holds a separator. */
  lemma {:induction false} SplitPiecesFree(s: string)
    ensures forall k :: 0 <= k < |Split(s)| ==> SeparatorFree(Split(s)[k])
    decreases |s|
  {
    FirstSeparatorSpec(s);
    match FirstSeparator(s)
    case None =>
    case Some(i) =>
      SplitPiecesFree(s[i + 1..]);
      var parts := Split(s);
      assert parts == [s[..i]] + Split(s[i + 1..]);
      forall k | 0 <= k < |parts| ensures SeparatorFree(parts[k]) {
        if k > 0 { assert parts[k] == Split(s[i + 1..])[k - 1]; }
      }
  }

  /** `cleanup_component`: trim, and turn the field delimiter ':' into '-'. */
  function CleanupComponent(c: string): string {
    ReplaceChar(Trim(c), ':', '-')
  }

  /** A separator-free piece cleans up to nothing or to a clean component. */
  lemma CleanupComponentClean(c: string)
    requires SeparatorFree(c)
    ensures CleanupComponent(c) == [] || IsCleanComponent(CleanupComponent(c))
  {
    var t := Trim(c);
    TrimSeparatorFree(c);
    ReplaceCharAt(t, ':', '-');
  }

  /** Trimming takes an infix, so it keeps a piece free of separators. */
  lemma {:induction false} TrimSeparatorFree(c: string)
    requires SeparatorFree(c)
    ensures SeparatorFree(Trim(c))
    decreases |c|
  {
    if c != [] && IsTrimSpace(c[0]) {
      var t := c[1..];
      assert forall i :: 0 <= i < |t| ==> t[i] == c[i + 1];
      TrimSeparatorFree(t);
    } else if c != [] && IsTrimSpace(c[|c| - 1]) {
      TrimSeparatorFree(c[..|c| - 1]);
    }
  }

  /** Cleans every piece and drops those left empty. */
  function CleanComponents(parts: seq<string>): Path {
    if parts == [] then []
    else
      var c := CleanupComponent(parts[0]);
      if c == [] then CleanComponents(parts[1..]) else [c] + CleanComponents(parts[1..])
  }

  lemma {:induction false} CleanComponentsCanonical(parts: seq<string>)
    requires forall k :: 0 <= k < |parts| ==> SeparatorFree(parts[k])
    ensures IsCanonical(CleanComponents(parts))
  {
    if parts != [] {
      CleanupComponentClean(parts[0]);
      assert forall k :: 0 <= k < |parts[1..]| ==> parts[1..][k] == parts[k + 1];
      CleanComponentsCanonical(parts[1..]);
      var c := CleanupComponent(parts[0]);
      var rest := CleanComponents(parts[1..]);
      if c != [] {
        forall k | 0 <= k < |[c] + rest| ensures IsCleanComponent(([c] + rest)[k]) {
          if k > 0 { assert ([c] + rest)[k] == rest[k - 1]; }
        }
      }
    }
  }

  /** `AssetCatalogPath::cleanup()` applied to the text of a path. */
  function Cleanup(s: string): Path {
    CleanComponents(Split(s))
  }

  /** Whatever the text, its cleaned-up path is canonical. */
  lemma CleanupCanonical(s: string)
    ensures IsCanonical(Cleanup(s))
  {
    SplitPiecesFree(s);
    CleanComponentsCanonical(Split(s));
  }

  /** The direct parent: the path without its last component; the empty path is its own
      parent. */
  function Parent(p: Path): (r: Path)
    ensures p != [] ==> |r| == |p| - 1 && p == r + [p[|p| - 1]]
  {
    if p == [] then [] else p[..|p| - 1]
  }

  /** `is_contained_in`: `p` is `other` or lies below it, whole components at a time. */
  predicate IsContainedIn(p: Path, other: Path) {
    |other| <= |p| && p[..|other|] == other
  }

  /** `rebase`: moves a path that lies at or under `from` to the same place under `to`;
      `None` stands for the source's empty "no match" path. */
  function Rebase(p: Path, from: Path, to: Path): (r: Option<Path>)
    ensures r.Some? <==> IsContainedIn(p, from)
    ensures r.Some? ==> IsContainedIn(r.value, to) && |r.value| == |to| + |p| - |from|
    ensures r.Some? ==> r.value[|to|..] == p[|from|..]
    ensures r.Some? && IsCanonical(p) && IsCanonical(to) ==> IsCanonical(r.value)
  {
    if IsContainedIn(p, from) then Some(to + p[|from|..]) else None
  }

  // ---------------------------------------------------------------------------------------
  // Lemmas relating the component view to the text view.

  lemma {:induction false} FirstSeparatorOfConcat(x: string, z: string)
    ensures FirstSeparator(x).Some? ==> FirstSeparator(x + z) == FirstSeparator(x)
    ensures FirstSeparator(x).None? && FirstSeparator(z).Some? ==>
      FirstSeparator(x + z) == Some(|x| + FirstSeparator(z).value)
    ensures FirstSeparator(x).None? && FirstSeparator(z).None? ==> FirstSeparator(x + z).None?
  {
    if x != [] {
      assert (x + z)[1..] == x[1..] + z;
      FirstSeparatorOfConcat(x[1..], z);
    } else {
      assert x + z == z;
    }
  }

  /** Splitting text joined by a separator splits each side. */
  lemma {:induction false} SplitJoin(x: string, y: string)
    ensures Split(x + [SEPARATOR] + y) == Split(x) + Split(y)
    decreases |x|
  {
    var s := x + [SEPARATOR] + y;
    FirstSeparatorOfConcat(x, [SEPARATOR] + y);
    assert s == x + ([SEPARATOR] + y);
    match FirstSeparator(x)
    case None =>
      assert FirstSeparator([SEPARATOR] + y) == Some(0);
      assert s[..|x|] == x && s[|x| + 1..] == y;
    case Some(i) =>
      assert s[..i] == x[..i];
      assert s[i + 1..] == x[i + 1..] + [SEPARATOR] + y;
      SplitJoin(x[i + 1..], y);
  }

  lemma {:induction false} CleanComponentsConcat(a: seq<string>, b: seq<string>)
    ensures CleanComponents(a + b) == CleanComponents(a) + CleanComponents(b)
  {
    if a != [] {
      assert (a + b)[0] == a[0] && (a + b)[1..] == a[1..] + b;
      CleanComponentsConcat(a[1..], b);
    } else {
      assert a + b == b;
    }
  }

  /** Cleaning text joined by a separator cleans each side. */
  lemma CleanupJoin(x: string, y: string)
    ensures Cleanup(x + [SEPARATOR] + y) == Cleanup(x) + Cleanup(y)
  {
    SplitJoin(x, y);
    CleanComponentsConcat(Split(x), Split(y));
  }

  lemma CleanupOfComponent(c: string)
    requires IsCleanComponent(c)
    ensures Cleanup(c) == [c]
  {
    FirstSeparatorSpec(c);
    ReplaceCharAt(c, ':', '-');
    assert ReplaceChar(Trim(c), ':', '-') == c;
    assert CleanComponents([c]) == [c] + CleanComponents([]);
  }

  /** Cleaning the text of a canonical path gives the path back: `cleanup` is the inverse
      of `str` on canonical paths. */
  lemma {:induction false} CleanupStr(p: Path)
    requires IsCanonical(p)
    ensures Cleanup(Str(p)) == p
  {
    if p == [] {
      assert Split("") == [""];
      assert CleanupComponent("") == [];
    } else if |p| == 1 {
      CleanupOfComponent(p[0]);
    } else {
      var rest := p[1..];
      assert IsCanonical(rest) by {
        forall i | 0 <= i < |rest| ensures IsCleanComponent(rest[i]) {
          assert rest[i] == p[i + 1];
        }
      }
      assert Str(p) == p[0] + [SEPARATOR] + Str(rest);
      CleanupJoin(p[0], Str(rest));
      assert IsCleanComponent(p[0]);
      CleanupOfComponent(p[0]);
      CleanupStr(rest);
      assert [p[0]] + rest == p;
    }
  }

  /** Distinct canonical paths have distinct texts. */
  lemma StrInjective(p: Path, q: Path)
    requires IsCanonical(p) && IsCanonical(q)
    requires Str(p) == Str(q)
    ensures p == q
  {
    CleanupStr(p);
    CleanupStr(q);
  }

  /** The text of a concatenation is the two texts joined by a separator. */
  lemma {:induction false} StrConcat(p: Path, q: Path)
    requires p != [] && q != []
    ensures Str(p + q) == Str(p) + [SEPARATOR] + Str(q)
  {
    if |p| == 1 {
      assert (p + q)[0] == p[0] && (p + q)[1..] == q;
    } else {
      assert (p + q)[0] == p[0] && (p + q)[1..] == p[1..] + q;
      StrConcat(p[1..], q);
    }
  }

  /** The parent's text is a proper prefix of the child's, so the parent sorts first in
      the ordered sets the catalog service keeps. */
  lemma ParentSortsFirst(p: Path)
    requires IsCanonical(p) && p != []
    ensures LessStr(Str(Parent(p)), Str(p))
  {
    var q := Parent(p);
    var last := [p[|p| - 1]];
    if q == [] {
      assert IsCleanComponent(p[0]);
      ProperPrefixIsLess("", Str(p));
    } else {
      StrConcat(q, last);
      assert Str(p)[..|Str(q)|] == Str(q);
      ProperPrefixIsLess(Str(q), Str(p));
    }
  }

  /** Containment is the component-wise reading of "equal, or the text continues with a
      separator": a raw text prefix that ends inside a component does not count. */
  lemma ContainedInAsText(p: Path, other: Path)
    requires IsCanonical(p) && IsCanonical(other) && other != []
    ensures IsContainedIn(p, other) <==>
      Str(p) == Str(other) || StartsWith(Str(p), Str(other) + [SEPARATOR])
  {
    if IsContainedIn(p, other) && |p| > |other| {
      ContainedBelowAsText(p, other);
    }
    if Str(p) == Str(other) {
      StrInjective(p, other);
    }
    if StartsWith(Str(p), Str(other) + [SEPARATOR]) {
      TextBelowIsContained(p, other);
    }
  }

  /** A path strictly below `other` spells out `other`'s text and a separator first. */
  lemma ContainedBelowAsText(p: Path, other: Path)
    requires other != [] && IsContainedIn(p, other) && |p| > |other|
    ensures StartsWith(Str(p), Str(other) + [SEPARATOR])
  {
    assert p == other + p[|other|..];
    StrConcat(other, p[|other|..]);
    assert Str(p)[..|Str(other) + [SEPARATOR]|] == Str(other) + [SEPARATOR];
  }

  /** A canonical path whose text continues `other`'s text with a separator lies below
      `other`. */
  lemma TextBelowIsContained(p: Path, other: Path)
    requires IsCanonical(p) && IsCanonical(other)
    requires StartsWith(Str(p), Str(other) + [SEPARATOR])
    ensures IsContainedIn(p, other)
  {
    var rest := Str(p)[|Str(other)| + 1..];
    assert Str(p) == Str(other) + [SEPARATOR] + rest;
    CleanupJoin(Str(other), rest);
    CleanupStr(p);
    CleanupStr(other);
    assert p[..|other|] == other;
  }

  /** The sibling-name trap: "a/bc" extends the text "a/b" but is not contained in it. */
  lemma SiblingWithCommonPrefixIsNotContained()
    ensures StartsWith(Str(["a", "bc"]), Str(["a", "b"]))
    ensures !IsContainedIn(["a", "bc"], ["a", "b"])
  {
    assert Str(["a", "bc"]) == "a/bc";
    assert Str(["a", "b"]) == "a/b";
  }

  /** The text of a canonical path holds no field delimiter, and a non-empty one is
      non-empty and trimmed; so it can sit between two ':' in a definition-file line. */
  lemma {:induction false} StrIsFieldSafe(p: Path)
    requires IsCanonical(p)
    ensures ':' !in Str(p)
    ensures p != [] ==> Str(p) != [] && IsTrimmed(Str(p))
  {
    if |p| == 1 {
      assert IsCleanComponent(p[0]);
    } else if |p| > 1 {
      var rest := p[1..];
      assert IsCanonical(rest) by {
        forall i | 0 <= i < |rest| ensures IsCleanComponent(rest[i]) {
          assert rest[i] == p[i + 1];
        }
      }
      StrIsFieldSafe(rest);
      assert IsCleanComponent(p[0]);
      var s := Str(p);
      assert s == p[0] + [SEPARATOR] + Str(rest);
      assert ':' !in s by {
        forall i | 0 <= i < |s| ensures s[i] != ':' {
          if i < |p[0]| {
            assert s[i] == p[0][i];
          } else if i > |p[0]| {
            assert s[i] == Str(rest)[i - |p[0]| - 1];
          }
        }
      }
      assert s[0] == p[0][0];
      assert s[|s| - 1] == Str(rest)[|Str(rest)| - 1];
    }
  }
}
