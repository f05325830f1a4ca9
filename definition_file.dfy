/** The catalog definition file (`AssetCatalogDefinitionFile`): its line format, the
    version gate, the per-line parser, the fold over a file's lines that the catalog service
    drives through its keep-callbacks, and the content written back, sorted by path then
    identifier. A file is a sequence of lines, as `std::getline` delivers them. */
module DefinitionFile {
  import opened Wrappers
  import opened Strings
  import opened Uuid
  import opened CatalogPath
  import opened AssetCatalog

  const DEFAULT_CATALOG_FILENAME: string := "blender_assets.cats.txt"

  const SUPPORTED_VERSION: int := 1

  /** Ends in a space so that a future field starting with "VERSION" cannot match. */
  const VERSION_MARKER: string := "VERSION "

  const DELIMITER: char := ':'

  const COMMENT_MARKER: char := '#'

  /** A comment line: the marker, then free text. */
  function Comment(text: string): (line: string)
    ensures line != [] && line[0] == COMMENT_MARKER
  {
    [COMMENT_MARKER] + text
  }

  /** `HEADER`, one element per line. */
  const HEADER: seq<string> := [
    Comment(" This is an Asset Catalog Definition file for Blender."),
    Comment(""),
    Comment(" Empty lines and lines starting with `#` will be ignored."),
    Comment(" The first non-ignored line should be the version indicator."),
    Comment(" Other lines are of the format \"UUID:catalog/path/for/assets:simple catalog name\"")
  ]

  /** Blank lines and comment lines, judged after trimming. */
  predicate IsIgnored(trimmedLine: string) {
    trimmedLine == [] || trimmedLine[0] == COMMENT_MARKER
  }

  /** `parse_version_line`: the marker, then an `atoi` reading equal to the supported
      version. */
  function ParseVersionLine(line: string): (ok: bool)
    ensures ok ==> StartsWith(line, VERSION_MARKER)
  {
    StartsWith(line, VERSION_MARKER) && Atoi(line[|VERSION_MARKER|..]) == SUPPORTED_VERSION
  }

  lemma {:induction false} AtoiOfDigits(digits: string, tail: string)
    requires digits != [] && forall i :: 0 <= i < |digits| ==> IsDigit(digits[i])
    requires tail == [] || !IsDigit(tail[0])
    ensures Atoi(digits + tail) == DecimalValue(digits)
  {
    DigitRunOf(digits, tail);
    assert (digits + tail)[..|digits|] == digits;
  }

  lemma {:induction false} DigitRunOf(digits: string, tail: string)
    requires forall i :: 0 <= i < |digits| ==> IsDigit(digits[i])
    requires tail == [] || !IsDigit(tail[0])
    ensures DigitRun(digits + tail) == |digits|
  {
    if digits != [] {
      assert (digits + tail)[1..] == digits[1..] + tail;
      DigitRunOf(digits[1..], tail);
    } else {
      assert digits + tail == tail;
    }
  }

  /** A version line whose number is written in decimal digits directly after the marker is
      accepted exactly when that number is the supported version, whatever follows the
      digits: "VERSION 1" and "VERSION 01" pass, "VERSION 2" and "VERSION 10" do not. */
  lemma VersionLineNumber(digits: string, tail: string)
    requires digits != [] && forall i :: 0 <= i < |digits| ==> IsDigit(digits[i])
    requires tail == [] || !IsDigit(tail[0])
    ensures ParseVersionLine(VERSION_MARKER + digits + tail) <==> DecimalValue(digits) == 1
  {
    var rest := digits + tail;
    ConcatSplits(VERSION_MARKER, rest);
    AtoiOfDigits(digits, tail);
    assert VERSION_MARKER + digits + tail == VERSION_MARKER + rest;
  }

  lemma ConcatSplits(a: string, b: string)
    ensures StartsWith(a + b, a) && (a + b)[|a|..] == b
  {
    assert (a + b)[..|a|] == a;
  }

  /** The line the writer emits, "VERSION 1", passes the gate. */
  lemma WrittenVersionLineAccepted()
    ensures ParseVersionLine(VersionLine())
  {
    VersionLineNumber("1", "");
    assert VERSION_MARKER + "1" + "" == VersionLine();
  }

  /** `VERSION_MARKER << SUPPORTED_VERSION`. */
  function VersionLine(): string {
    VERSION_MARKER + "1"
  }

  /** `parse_catalog_line`: "UUID:path:simple name". Everything up to the first ':' is the
      identifier (trimmed); the path runs to the next ':' or to the end of the line; the
      name is the trimmed rest. A missing ':', an identifier that does not parse, or an
      empty path field yields no catalog. */
  function ParseCatalogLine(line: string): (r: Option<Catalog>)
    ensures DELIMITER !in line ==> r.None?
    ensures r.Some? ==> !r.value.isDeleted && IsCanonical(r.value.path) && IsTrimmed(r.value.simpleName)
  {
    match FindFirst(line, DELIMITER)
    case None => None
    case Some(first) =>
      match Uuid.Parse(Trim(line[..first]))
      case None => None
      case Some(id) => ParsePathAndName(id, line[first + 1..])
  }

  /** The part of `parse_catalog_line` after the identifier: the path runs to the next
      ':' or to the end, the name is the trimmed rest; an empty path field yields nothing. */
  function ParsePathAndName(id: CatalogId, rest: string): (r: Option<Catalog>)
    ensures r.Some? ==> !r.value.isDeleted && IsCanonical(r.value.path) && IsTrimmed(r.value.simpleName)
  {
    match FindFirst(rest, DELIMITER)
    case Some(0) => None
    case None =>
      CleanupCanonical(rest);
      Some(Catalog(id, Cleanup(rest), "", false))
    case Some(second) =>
      CleanupCanonical(rest[..second]);
      Some(Catalog(id, Cleanup(rest[..second]), Trim(rest[second + 1..]), false))
  }

  /** A line whose identifier field parses reads as its path-and-name part. */
  lemma ParseLineId(idText: string, rest: string, id: CatalogId)
    requires DELIMITER !in idText && Uuid.Parse(Trim(idText)) == Some(id)
    ensures ParseCatalogLine(idText + [DELIMITER] + rest) == ParsePathAndName(id, rest)
  {
    var line := idText + [DELIMITER] + rest;
    FindFirstAfterPrefix(idText, DELIMITER, rest);
    assert line[..|idText|] == idText;
    assert line[|idText| + 1..] == rest;
  }

  /** An identifier field that does not parse drops the line. */
  lemma ParseLineBadId(idText: string, rest: string)
    requires DELIMITER !in idText && Uuid.Parse(Trim(idText)).None?
    ensures ParseCatalogLine(idText + [DELIMITER] + rest) == None
  {
    FindFirstAfterPrefix(idText, DELIMITER, rest);
    assert (idText + [DELIMITER] + rest)[..|idText|] == idText;
  }

  /** A ':' right after the first one (an empty path field) drops the line. */
  lemma ParseLineEmptyPath(idText: string, rest: string)
    requires DELIMITER !in idText
    ensures ParseCatalogLine(idText + [DELIMITER, DELIMITER] + rest) == None
  {
    var line := idText + [DELIMITER, DELIMITER] + rest;
    assert line == idText + [DELIMITER] + ([DELIMITER] + rest);
    FindFirstAfterPrefix(idText, DELIMITER, [DELIMITER] + rest);
    assert line[|idText| + 1..] == [DELIMITER] + rest;
  }

  /** Without a second ':' the whole rest is the path and the name is empty. */
  lemma ParseLineNoName(idText: string, pathText: string, id: CatalogId)
    requires DELIMITER !in idText && Uuid.Parse(Trim(idText)) == Some(id)
    requires DELIMITER !in pathText
    ensures ParseCatalogLine(idText + [DELIMITER] + pathText) == Some(Catalog(id, Cleanup(pathText), "", false))
  {
    ParseLineId(idText, pathText, id);
  }

  /** With both delimiters, the path is the text between them and the name is the trimmed
      text after the second. */
  lemma ParseLineFull(idText: string, pathText: string, nameText: string, id: CatalogId)
    requires DELIMITER !in idText && Uuid.Parse(Trim(idText)) == Some(id)
    requires DELIMITER !in pathText && pathText != []
    ensures ParseCatalogLine(idText + [DELIMITER] + pathText + [DELIMITER] + nameText)
         == Some(Catalog(id, Cleanup(pathText), Trim(nameText), false))
  {
    var rest := pathText + [DELIMITER] + nameText;
    assert idText + [DELIMITER] + pathText + [DELIMITER] + nameText == idText + [DELIMITER] + rest;
    ParseLineId(idText, rest, id);
    PathAndNameFull(id, pathText, nameText);
  }

  /** The path-and-name part with its ':' reads as the cleaned path and the trimmed name. */
  lemma PathAndNameFull(id: CatalogId, pathText: string, nameText: string)
    requires DELIMITER !in pathText && pathText != []
    ensures ParsePathAndName(id, pathText + [DELIMITER] + nameText)
         == Some(Catalog(id, Cleanup(pathText), Trim(nameText), false))
  {
    var rest := pathText + [DELIMITER] + nameText;
    FindFirstAfterPrefix(pathText, DELIMITER, nameText);
    assert rest[..|pathText|] == pathText;
    assert rest[|pathText| + 1..] == nameText;
  }

  // ---------------------------------------------------------------------------------------
  // Writing one catalog line and reading it back.

  /** `catalog_id << ":" << path << ":" << simple_name`. */
  function FormatCatalogLine(c: Catalog): string {
    Uuid.Format(c.id) + [DELIMITER] + Str(c.path) + [DELIMITER] + c.simpleName
  }

  /** What the writer can store so that the reader gives it back: a non-empty canonical
      path (the empty one would produce the "::" the reader skips) and a trimmed name,
      neither holding a line break (the writer ends each line with `std::endl` and the
      reader splits the file with `std::getline`). */
  predicate IsWritable(c: Catalog) {
    && IsCanonical(c.path) && c.path != [] && IsTrimmed(c.simpleName)
    && '\n' !in Str(c.path) && '\n' !in c.simpleName
  }

  lemma FormattedIdIsFieldSafe(id: CatalogId)
    ensures DELIMITER !in Uuid.Format(id)
    ensures Trim(Uuid.Format(id)) == Uuid.Format(id)
    ensures Uuid.Format(id) != [] && !IsTrimSpace(Uuid.Format(id)[0]) && Uuid.Format(id)[0] != COMMENT_MARKER
  {
    var f := Uuid.Format(id);
    Uuid.FormatShape(id);
    assert !IsTrimSpace(f[0]) && !IsTrimSpace(f[35]) && IsLowerHex(f[0]);
    assert forall i :: 0 <= i < |f| ==> f[i] != DELIMITER;
  }

  /** Reading a written line gives back the catalog it was written from. */
  lemma CatalogLineRoundTrip(c: Catalog)
    requires IsWritable(c)
    ensures ParseCatalogLine(FormatCatalogLine(c)) == Some(c.(isDeleted := false))
  {
    FormattedIdIsFieldSafe(c.id);
    Uuid.ParseFormat(c.id);
    StrIsFieldSafe(c.path);
    ParseLineFull(Uuid.Format(c.id), Str(c.path), c.simpleName, c.id);
    CleanupStr(c.path);
  }

  /** A written line is already trimmed and is neither blank nor a comment. */
  lemma CatalogLineIsContent(c: Catalog)
    requires IsWritable(c)
    ensures Trim(FormatCatalogLine(c)) == FormatCatalogLine(c)
    ensures !IsIgnored(FormatCatalogLine(c))
  {
    FormattedIdIsFieldSafe(c.id);
    FieldsLineIsContent(Uuid.Format(c.id), Str(c.path), c.simpleName);
  }

  /** Three fields joined by ':' form a trimmed, non-comment line when the first one
      starts with neither space nor '#' and the last one is trimmed. */
  lemma FieldsLineIsContent(first: string, middle: string, last: string)
    requires first != [] && !IsTrimSpace(first[0]) && first[0] != COMMENT_MARKER
    requires IsTrimmed(last)
    ensures var line := first + [DELIMITER] + middle + [DELIMITER] + last;
      Trim(line) == line && !IsIgnored(line)
  {
    var line := first + [DELIMITER] + middle + [DELIMITER] + last;
    assert line[0] == first[0];
    if last == [] {
      assert line[|line| - 1] == DELIMITER;
    } else {
      assert line[|line| - 1] == last[|last| - 1];
    }
  }

  // ---------------------------------------------------------------------------------------
  // Reading a whole file.

  /** The two keep-callbacks the service hands to `parse_catalog_file`: a fresh load keeps
      identifiers it does not know yet; a merge before writing also refuses deleted ones. */
  datatype KeepPolicy = LoadFresh | MergeBeforeWriting

  /** What a parse changes: the service's live catalogs (the callbacks add to them) and
      the identifiers the definition file is responsible for. */
  datatype ParseState = ParseState(live: map<CatalogId, Catalog>, fileIds: set<CatalogId>)

  /** The callback's verdict on one parsed catalog. */
  predicate Keeps(policy: KeepPolicy, live: map<CatalogId, Catalog>, deleted: set<CatalogId>, id: CatalogId) {
    id !in live && (policy == LoadFresh || id !in deleted)
  }

  /** One non-ignored line after the version line: parse it, ask the callback, which
      stores a kept catalog, then record it in the file unless the file already has that
      identifier (the first occurrence wins). */
  function CatalogStep(line: string, policy: KeepPolicy, deleted: set<CatalogId>, st: ParseState): (r: ParseState)
    ensures st.live.Keys <= r.live.Keys && st.fileIds <= r.fileIds
    ensures forall id :: id in st.live ==> r.live[id] == st.live[id]
  {
    var parsed := ParseCatalogLine(line);
    if parsed.None? then st else KeepParsed(parsed.value, policy, deleted, st)
  }

  /** The callback and the file's duplicate check applied to one parsed catalog. */
  function KeepParsed(c: Catalog, policy: KeepPolicy, deleted: set<CatalogId>, st: ParseState): (r: ParseState)
    ensures st.live.Keys <= r.live.Keys && st.fileIds <= r.fileIds
    ensures forall id :: id in st.live ==> r.live[id] == st.live[id]
    ensures Keeps(policy, st.live, deleted, c.id) ==> c.id in r.live && r.live[c.id] == c && c.id in r.fileIds
    ensures !Keeps(policy, st.live, deleted, c.id) ==> r == st
    ensures forall id :: id in r.live && id !in st.live ==> id == c.id
  {
    if !Keeps(policy, st.live, deleted, c.id) then st
    else if c.id in st.fileIds then ParseState(st.live[c.id := c], st.fileIds)
    else ParseState(st.live[c.id := c], st.fileIds + {c.id})
  }

  /** `parse_catalog_file` over the remaining lines; `seenVersion` is its flag. Each line
      is trimmed; ignored lines are skipped; the first other line must be a valid version
      line, otherwise the loop stops and nothing is parsed. */
  function ParseLines(lines: seq<string>, seenVersion: bool, policy: KeepPolicy,
                      deleted: set<CatalogId>, st: ParseState): (r: ParseState)
    decreases |lines|
  {
    if lines == [] then st
    else
      var t := Trim(lines[0]);
      if IsIgnored(t) then ParseLines(lines[1..], seenVersion, policy, deleted, st)
      else if !seenVersion then
        if ParseVersionLine(t) then ParseLines(lines[1..], true, policy, deleted, st) else st
      else ParseLines(lines[1..], true, policy, deleted, CatalogStep(t, policy, deleted, st))
  }

  /** `parse_catalog_file`'s loop at line `i`: a blank or comment line is skipped. */
  lemma ParseLinesSkip(lines: seq<string>, i: nat, seenVersion: bool, policy: KeepPolicy,
                       deleted: set<CatalogId>, st: ParseState)
    requires i < |lines| && IsIgnored(Trim(lines[i]))
    ensures ParseLines(lines[i..], seenVersion, policy, deleted, st)
         == ParseLines(lines[i + 1..], seenVersion, policy, deleted, st)
  {
    assert lines[i..][0] == lines[i] && lines[i..][1..] == lines[i + 1..];
  }

  /** `parse_catalog_file`'s loop at line `i`, before the version line: a valid version
      line lets the loop go on, anything else ends it. */
  lemma ParseLinesVersion(lines: seq<string>, i: nat, policy: KeepPolicy,
                          deleted: set<CatalogId>, st: ParseState)
    requires i < |lines| && !IsIgnored(Trim(lines[i]))
    ensures ParseLines(lines[i..], false, policy, deleted, st)
         == if ParseVersionLine(Trim(lines[i])) then ParseLines(lines[i + 1..], true, policy, deleted, st) else st
  {
    assert lines[i..][0] == lines[i] && lines[i..][1..] == lines[i + 1..];
  }

  predicate AllIgnored(lines: seq<string>) {
    forall i :: 0 <= i < |lines| ==> IsIgnored(Trim(lines[i]))
  }

  lemma {:induction false} SkipIgnored(pre: seq<string>, rest: seq<string>, seenVersion: bool,
                                       policy: KeepPolicy, deleted: set<CatalogId>, st: ParseState)
    requires AllIgnored(pre)
    ensures ParseLines(pre + rest, seenVersion, policy, deleted, st)
         == ParseLines(rest, seenVersion, policy, deleted, st)
  {
    if pre != [] {
      assert IsIgnored(Trim(pre[0]));
      assert (pre + rest)[0] == pre[0] && (pre + rest)[1..] == pre[1..] + rest;
      SkipIgnored(pre[1..], rest, seenVersion, policy, deleted, st);
    } else {
      assert pre + rest == rest;
    }
  }

  /** The version check comes first: when the first line that is neither blank nor a
      comment is not a valid version line, the file yields nothing and no callback runs. */
  lemma VersionGate(pre: seq<string>, first: string, rest: seq<string>,
                    policy: KeepPolicy, deleted: set<CatalogId>, st: ParseState)
    requires AllIgnored(pre)
    requires !IsIgnored(Trim(first)) && !ParseVersionLine(Trim(first))
    ensures ParseLines(pre + [first] + rest, false, policy, deleted, st) == st
  {
    assert pre + [first] + rest == pre + ([first] + rest);
    SkipIgnored(pre, [first] + rest, false, policy, deleted, st);
  }

  /** A file of blank and comment lines only yields nothing. */
  lemma NothingButComments(lines: seq<string>, policy: KeepPolicy, deleted: set<CatalogId>, st: ParseState)
    requires AllIgnored(lines)
    ensures ParseLines(lines, false, policy, deleted, st) == st
  {
    SkipIgnored(lines, [], false, policy, deleted, st);
    assert lines + [] == lines;
  }

  /** Catalogs already known are never replaced, and the file only gains identifiers. */
  lemma {:induction false} ParseKeepsExisting(lines: seq<string>, seenVersion: bool, policy: KeepPolicy,
                                              deleted: set<CatalogId>, st: ParseState)
    ensures var r := ParseLines(lines, seenVersion, policy, deleted, st);
      && st.live.Keys <= r.live.Keys && st.fileIds <= r.fileIds
      && forall id :: id in st.live ==> r.live[id] == st.live[id]
    decreases |lines|
  {
    if lines != [] {
      var t := Trim(lines[0]);
      if IsIgnored(t) || !seenVersion {
        ParseKeepsExisting(lines[1..], true, policy, deleted, st);
        ParseKeepsExisting(lines[1..], seenVersion, policy, deleted, st);
      } else {
        ParseKeepsExisting(lines[1..], true, policy, deleted, CatalogStep(t, policy, deleted, st));
      }
    }
  }

  /** A merge never brings back a deleted catalog: no identifier in `deleted` becomes live
      unless it already was. */
  lemma {:induction false} MergeNeverResurrects(lines: seq<string>, seenVersion: bool,
                                                deleted: set<CatalogId>, st: ParseState)
    ensures var r := ParseLines(lines, seenVersion, MergeBeforeWriting, deleted, st);
      forall id :: id in deleted && id in r.live ==> id in st.live
    decreases |lines|
  {
    if lines != [] {
      var t := Trim(lines[0]);
      if IsIgnored(t) || !seenVersion {
        MergeNeverResurrects(lines[1..], true, deleted, st);
        MergeNeverResurrects(lines[1..], seenVersion, deleted, st);
      } else {
        var st' := CatalogStep(t, MergeBeforeWriting, deleted, st);
        assert forall id :: id in deleted && id in st'.live ==> id in st.live;
        MergeNeverResurrects(lines[1..], true, deleted, st');
      }
    }
  }

  /** The line, read as a catalog line, does not carry `id`. */
  predicate DoesNotCarry(trimmedLine: string, id: CatalogId) {
    var parsed := ParseCatalogLine(trimmedLine);
    parsed.None? || parsed.value.id != id
  }

  /** The first occurrence of an identifier wins: if catalog line `i` is the first
      (after the version line) to carry `c.id`, and the callback would keep it, the result
      holds exactly that catalog and the file records its identifier. */
  lemma {:induction false} FirstOccurrenceWins(lines: seq<string>, i: nat, c: Catalog, policy: KeepPolicy,
                                               deleted: set<CatalogId>, st: ParseState)
    requires i < |lines| && !IsIgnored(Trim(lines[i])) && ParseCatalogLine(Trim(lines[i])) == Some(c)
    requires forall j :: 0 <= j < i && !IsIgnored(Trim(lines[j])) ==> DoesNotCarry(Trim(lines[j]), c.id)
    requires Keeps(policy, st.live, deleted, c.id)
    ensures var r := ParseLines(lines, true, policy, deleted, st);
      c.id in r.live && r.live[c.id] == c && c.id in r.fileIds
    decreases i
  {
    var t := Trim(lines[0]);
    var st' := if IsIgnored(t) then st else CatalogStep(t, policy, deleted, st);
    assert ParseLines(lines, true, policy, deleted, st) == ParseLines(lines[1..], true, policy, deleted, st');
    if i == 0 {
      assert st' == KeepParsed(c, policy, deleted, st);
      ParseKeepsExisting(lines[1..], true, policy, deleted, st');
    } else {
      if !IsIgnored(t) {
        assert DoesNotCarry(t, c.id);
      }
      assert c.id !in st'.live;
      forall j | 0 <= j < i - 1 && !IsIgnored(Trim(lines[1..][j]))
        ensures DoesNotCarry(Trim(lines[1..][j]), c.id)
      {
        assert lines[1..][j] == lines[j + 1];
      }
      FirstOccurrenceWins(lines[1..], i - 1, c, policy, deleted, st');
    }
  }

  // ---------------------------------------------------------------------------------------
  // Writing a whole file.

  /** The order of `AssetCatalogOrderedSet`: by path text, then by identifier (the
      identifier order is that of the 128-bit value). */
  predicate CatalogLess(a: Catalog, b: Catalog) {
    LessStr(Str(a.path), Str(b.path)) || (Str(a.path) == Str(b.path) && a.id < b.id)
  }

  lemma CatalogLessAsymmetric(a: Catalog, b: Catalog)
    requires CatalogLess(a, b)
    ensures !CatalogLess(b, a) && a != b
  {
    if LessStr(Str(a.path), Str(b.path)) {
      LessStrAsymmetric(Str(a.path), Str(b.path));
      LessStrIrreflexive(Str(a.path));
    }
  }

  lemma CatalogLessTransitive(a: Catalog, b: Catalog, c: Catalog)
    requires CatalogLess(a, b) && CatalogLess(b, c)
    ensures CatalogLess(a, c)
  {
    if LessStr(Str(a.path), Str(b.path)) && LessStr(Str(b.path), Str(c.path)) {
      LessStrTransitive(Str(a.path), Str(b.path), Str(c.path));
    }
  }

  lemma CatalogLessTotal(a: Catalog, b: Catalog)
    requires a.id != b.id
    ensures CatalogLess(a, b) || CatalogLess(b, a)
  {
    LessStrTotal(Str(a.path), Str(b.path));
  }

  /** Catalogs that share an identifier are the same catalog, as in a map keyed by it. */
  predicate UniqueIds(s: set<Catalog>) {
    forall a, b :: a in s && b in s && a.id == b.id ==> a == b
  }

  predicate Sorted(cs: seq<Catalog>) {
    forall i, j :: 0 <= i < j < |cs| ==> CatalogLess(cs[i], cs[j])
  }

  predicate IsLeast(m: Catalog, s: set<Catalog>) {
    m in s && forall x :: x in s && x != m ==> CatalogLess(m, x)
  }

  /** Every non-empty set of catalogs with distinct identifiers has a first element. */
  lemma {:induction false} LeastExists(s: set<Catalog>)
    requires s != {} && UniqueIds(s)
    ensures exists m :: IsLeast(m, s)
    decreases |s|
  {
    var x :| x in s;
    if s != {x} {
      var rest := s - {x};
      LeastExists(rest);
      var m :| IsLeast(m, rest);
      CatalogLessTotal(m, x);
      if CatalogLess(m, x) {
        assert IsLeast(m, s);
      } else {
        forall y | y in s && y != x ensures CatalogLess(x, y) {
          if y != m {
            CatalogLessTransitive(x, m, y);
          }
        }
        assert IsLeast(x, s);
      }
    } else {
      assert IsLeast(x, s);
    }
  }

  /** One line per catalog, in the given order. */
  function CatalogLines(cs: seq<Catalog>): (lines: seq<string>)
    ensures |lines| == |cs|
  {
    if cs == [] then [] else [FormatCatalogLine(cs[0])] + CatalogLines(cs[1..])
  }

  lemma {:induction false} CatalogLineAt(cs: seq<Catalog>, i: nat)
    requires i < |cs|
    ensures CatalogLines(cs)[i] == FormatCatalogLine(cs[i])
    decreases i
  {
    if i > 0 {
      CatalogLineAt(cs[1..], i - 1);
    }
  }

  /** The file as `write_to_disk_unsafe` lays it out: the header, a blank line, the version
      line, a blank line, then one line per catalog. */
  function FileContent(cs: seq<Catalog>): (lines: seq<string>)
    ensures |lines| == |HEADER| + 3 + |cs|
  {
    HEADER + ["", VersionLine(), ""] + CatalogLines(cs)
  }

  /** `write_to_disk_unsafe`, without the file system: the catalogs the definition file
      points at are gathered, deleted ones skipped, into an ordered set, which is then
      written in ascending order. `written` is that order. */
  method WriteContent(entries: set<Catalog>) returns (lines: seq<string>, written: seq<Catalog>)
    requires UniqueIds(entries)
    ensures Sorted(written)
    ensures forall c :: c in written <==> c in entries && !c.isDeleted
    ensures lines == FileContent(written)
  {
    var ordered: set<Catalog> := {};
    var todo := entries;
    while todo != {}
      invariant todo <= entries
      invariant forall c :: c in ordered <==> c in entries - todo && !c.isDeleted
      decreases todo
    {
      var c :| c in todo;
      if !c.isDeleted {
        ordered := ordered + {c};
      }
      todo := todo - {c};
    }
    written := [];
    var rest := ordered;
    while rest != {}
      invariant rest <= ordered
      invariant forall c :: c in written <==> c in ordered && c !in rest
      invariant Sorted(written)
      invariant forall i, b :: 0 <= i < |written| && b in rest ==> CatalogLess(written[i], b)
      decreases rest
    {
      LeastExists(rest);
      var m :| IsLeast(m, rest);
      written := written + [m];
      rest := rest - {m};
    }
    lines := FileContent(written);
  }

  lemma HeadIsMember(s: seq<Catalog>)
    ensures s == [] || s[0] in s
  {
  }

  /** The output does not depend on the order in which the catalogs were held: two sorted
      sequences of the same catalogs are the same sequence. */
  lemma {:induction false} SortedIsUnique(a: seq<Catalog>, b: seq<Catalog>)
    requires Sorted(a) && Sorted(b)
    requires forall c :: c in a <==> c in b
    ensures a == b
    decreases |a|
  {
    if a != [] {
      assert a[0] in b;
      assert b != [];
      if a[0] != b[0] {
        assert b[0] in a;
        var i :| 0 <= i < |a| && a[i] == b[0];
        var j :| 0 <= j < |b| && b[j] == a[0];
        assert CatalogLess(a[0], a[i]);
        assert CatalogLess(b[0], b[j]);
        CatalogLessAsymmetric(a[0], b[0]);
      }
      forall c ensures c in a[1..] <==> c in b[1..] {
        if c in a[1..] {
          var i :| 1 <= i < |a| && a[i] == c;
          CatalogLessAsymmetric(a[0], a[i]);
          assert c in b;
        }
        if c in b[1..] {
          var j :| 1 <= j < |b| && b[j] == c;
          CatalogLessAsymmetric(b[0], b[j]);
          assert c in a;
        }
      }
      SortedIsUnique(a[1..], b[1..]);
      assert a == [a[0]] + a[1..] && b == [b[0]] + b[1..];
    } else {
      HeadIsMember(b);
    }
  }

  // ---------------------------------------------------------------------------------------
  // Reading back what was written.

  function IdsOf(cs: seq<Catalog>): (ids: set<CatalogId>)
    ensures forall i :: 0 <= i < |cs| ==> cs[i].id in ids
    ensures forall id :: id in ids ==> exists i :: 0 <= i < |cs| && cs[i].id == id
  {
    set i | 0 <= i < |cs| :: cs[i].id
  }

  predicate DistinctIds(cs: seq<Catalog>) {
    forall i, j :: 0 <= i < j < |cs| ==> cs[i].id != cs[j].id
  }

  /** A line that starts with the comment marker is ignored, whatever trails it. */
  lemma CommentLineIsIgnored(line: string)
    requires line != [] && line[0] == COMMENT_MARKER
    ensures IsIgnored(Trim(line))
  {
    TrimKeepsFirst(line);
  }

  /** The header and the blank line after it are skipped by the reader. */
  lemma HeaderIsIgnored()
    ensures AllIgnored(HEADER + [""])
  {
    var lines := HEADER + [""];
    forall i | 0 <= i < |lines| ensures IsIgnored(Trim(lines[i])) {
      if i < |HEADER| {
        assert lines[i] == HEADER[i];
        CommentLineIsIgnored(lines[i]);
      }
    }
  }

  /** Every written catalog line is content and reads back as the catalog written. */
  lemma WrittenLinesReadBack(cs: seq<Catalog>)
    requires forall i :: 0 <= i < |cs| ==> IsWritable(cs[i]) && !cs[i].isDeleted
    ensures ReadsBack(CatalogLines(cs), cs)
  {
    var lines := CatalogLines(cs);
    forall i | 0 <= i < |lines|
      ensures Trim(lines[i]) == lines[i] && !IsIgnored(lines[i]) && ParseCatalogLine(lines[i]) == Some(cs[i])
    {
      CatalogLineAt(cs, i);
      CatalogLineIsContent(cs[i]);
      CatalogLineRoundTrip(cs[i]);
      assert cs[i].(isDeleted := false) == cs[i];
    }
  }

  /** After the version line, a line that is not ignored is one catalog step. */
  lemma ParseContentLine(lines: seq<string>, k: nat, policy: KeepPolicy, deleted: set<CatalogId>, st: ParseState)
    requires k < |lines| && !IsIgnored(Trim(lines[k]))
    ensures ParseLines(lines[k..], true, policy, deleted, st)
         == ParseLines(lines[k + 1..], true, policy, deleted, CatalogStep(Trim(lines[k]), policy, deleted, st))
  {
    var rest := lines[k..];
    assert rest[0] == lines[k] && rest[1..] == lines[k + 1..];
  }

  /** A line that reads as a catalog the callback keeps adds it and records its identifier. */
  lemma StepOnReadLine(line: string, c: Catalog, policy: KeepPolicy, deleted: set<CatalogId>, st: ParseState)
    requires ParseCatalogLine(line) == Some(c)
    requires Keeps(policy, st.live, deleted, c.id) && c.id !in st.fileIds
    ensures CatalogStep(line, policy, deleted, st) == ParseState(st.live[c.id := c], st.fileIds + {c.id})
  {
  }

  lemma IdsOfFrom(cs: seq<Catalog>, k: nat)
    requires k < |cs|
    ensures IdsOf(cs[k..]) == {cs[k].id} + IdsOf(cs[k + 1..])
  {
    var all, tail := cs[k..], cs[k + 1..];
    forall id | id in IdsOf(all) ensures id == cs[k].id || id in IdsOf(tail) {
      var i :| 0 <= i < |all| && all[i].id == id;
      if i > 0 {
        assert tail[i - 1] == all[i];
      }
    }
    forall id | id in IdsOf(tail) ensures id in IdsOf(all) {
      var i :| 0 <= i < |tail| && tail[i].id == id;
      assert all[i + 1] == tail[i];
    }
    assert all[0] == cs[k];
  }

  /** Lines that each read back, as they are, as the catalog at the same position. */
  predicate ReadsBack(lines: seq<string>, cs: seq<Catalog>) {
    && |lines| == |cs|
    && forall i {:trigger ParseCatalogLine(lines[i])} :: 0 <= i < |lines| ==>
         Trim(lines[i]) == lines[i] && !IsIgnored(lines[i]) && ParseCatalogLine(lines[i]) == Some(cs[i])
  }

  /** The callback keeps every catalog from position `k` on. */
  predicate KeptFrom(cs: seq<Catalog>, k: nat, policy: KeepPolicy, deleted: set<CatalogId>, st: ParseState) {
    forall i :: k <= i < |cs| ==> Keeps(policy, st.live, deleted, cs[i].id) && cs[i].id !in st.fileIds
  }

  /** The state after storing the catalog read from one line. */
  function Stored(st: ParseState, c: Catalog): ParseState {
    ParseState(st.live[c.id := c], st.fileIds + {c.id})
  }

  /** With distinct identifiers, storing one catalog keeps the later ones kept. */
  lemma KeptFromNext(cs: seq<Catalog>, k: nat, policy: KeepPolicy, deleted: set<CatalogId>, st: ParseState)
    requires k < |cs| && DistinctIds(cs) && KeptFrom(cs, k, policy, deleted, st)
    ensures KeptFrom(cs, k + 1, policy, deleted, Stored(st, cs[k]))
  {
    forall i | k + 1 <= i < |cs|
      ensures Keeps(policy, st.live[cs[k].id := cs[k]], deleted, cs[i].id)
    {
      assert cs[i].id != cs[k].id;
    }
  }

  /** What `ReadsBack` says about line `k`. */
  lemma ReadsBackAt(lines: seq<string>, cs: seq<Catalog>, k: nat)
    requires ReadsBack(lines, cs) && k < |cs|
    ensures Trim(lines[k]) == lines[k] && !IsIgnored(lines[k]) && ParseCatalogLine(lines[k]) == Some(cs[k])
  {
    assert ParseCatalogLine(lines[k]) == Some(cs[k]);
  }

  /** Reading line `k` stores catalog `k`. */
  lemma ReadStep(lines: seq<string>, cs: seq<Catalog>, k: nat, policy: KeepPolicy,
                 deleted: set<CatalogId>, st: ParseState)
    requires ReadsBack(lines, cs) && k < |cs| && KeptFrom(cs, k, policy, deleted, st)
    ensures ParseLines(lines[k..], true, policy, deleted, st)
         == ParseLines(lines[k + 1..], true, policy, deleted, Stored(st, cs[k]))
  {
    ReadsBackAt(lines, cs, k);
    ParseContentLine(lines, k, policy, deleted, st);
    StepOnReadLine(lines[k], cs[k], policy, deleted, st);
  }

  /** The state after storing the catalogs from position `k` on, in order. */
  function StoredFrom(st: ParseState, cs: seq<Catalog>, k: nat): ParseState
    decreases |cs| - k
  {
    if k >= |cs| then st else StoredFrom(Stored(st, cs[k]), cs, k + 1)
  }

  /** Reading catalog lines one by one from position `k` stores each catalog in turn. */
  lemma {:induction false} ParsedLines(lines: seq<string>, cs: seq<Catalog>, k: nat, policy: KeepPolicy,
                                       deleted: set<CatalogId>, st: ParseState)
    requires ReadsBack(lines, cs) && DistinctIds(cs) && k <= |cs| && KeptFrom(cs, k, policy, deleted, st)
    ensures ParseLines(lines[k..], true, policy, deleted, st) == StoredFrom(st, cs, k)
    decreases |cs| - k
  {
    if k < |cs| {
      ReadStep(lines, cs, k, policy, deleted, st);
      KeptFromNext(cs, k, policy, deleted, st);
      ParsedLines(lines, cs, k + 1, policy, deleted, Stored(st, cs[k]));
    } else {
      assert lines[k..] == [];
    }
  }

  /** Storing from position `k` adds exactly the identifiers from there on. */
  lemma {:induction false} StoredFromKeys(st: ParseState, cs: seq<Catalog>, k: nat)
    requires k <= |cs|
    ensures var r := StoredFrom(st, cs, k);
      r.live.Keys == st.live.Keys + IdsOf(cs[k..]) && r.fileIds == st.fileIds + IdsOf(cs[k..])
    decreases |cs| - k
  {
    if k < |cs| {
      StoredFromKeys(Stored(st, cs[k]), cs, k + 1);
      IdsOfFrom(cs, k);
    } else {
      assert IdsOf(cs[k..]) == {};
    }
  }

  /** Storing from position `k` leaves alone every identifier not stored from there on. */
  lemma {:induction false} StoredFromKeeps(st: ParseState, cs: seq<Catalog>, k: nat, id: CatalogId)
    requires k <= |cs| && id in st.live && id !in IdsOf(cs[k..])
    ensures var r := StoredFrom(st, cs, k);
      id in r.live && r.live[id] == st.live[id]
    decreases |cs| - k
  {
    if k < |cs| {
      IdsOfFrom(cs, k);
      StoredFromKeeps(Stored(st, cs[k]), cs, k + 1, id);
    }
  }

  /** With distinct identifiers, every catalog from position `k` on ends up stored under
      its identifier. */
  lemma {:induction false} StoredFromValues(st: ParseState, cs: seq<Catalog>, k: nat, i: nat)
    requires DistinctIds(cs) && k <= i < |cs|
    ensures var r := StoredFrom(st, cs, k);
      cs[i].id in r.live && r.live[cs[i].id] == cs[i]
    decreases |cs| - k
  {
    var st' := Stored(st, cs[k]);
    if k < i {
      StoredFromValues(st', cs, k + 1, i);
    } else {
      var later := cs[k + 1..];
      assert cs[i].id !in IdsOf(later) by {
        forall j | 0 <= j < |later| ensures later[j].id != cs[i].id {
          assert later[j] == cs[k + 1 + j];
        }
      }
      StoredFromKeeps(st', cs, k + 1, cs[i].id);
    }
  }

  /** After the header: the version line opens the gate and the blank line after it is
      skipped. */
  lemma AfterHeader(body: seq<string>, policy: KeepPolicy, deleted: set<CatalogId>, st: ParseState)
    ensures ParseLines([VersionLine(), ""] + body, false, policy, deleted, st)
         == ParseLines(body, true, policy, deleted, st)
  {
    var v := VersionLine();
    WrittenVersionLineAccepted();
    assert IsTrimmed(v) && !IsIgnored(v);
    assert ([v, ""] + body)[1..] == [""] + body;
    assert AllIgnored([""]);
    SkipIgnored([""], body, true, policy, deleted, st);
  }

  /** The reader skips the header and passes the version gate, then reads the body. */
  lemma FileContentReadsBody(cs: seq<Catalog>, policy: KeepPolicy, deleted: set<CatalogId>, st: ParseState)
    ensures ParseLines(FileContent(cs), false, policy, deleted, st)
         == ParseLines(CatalogLines(cs), true, policy, deleted, st)
  {
    var body := CatalogLines(cs);
    var pre := HEADER + [""];
    assert FileContent(cs) == pre + ([VersionLine(), ""] + body);
    HeaderIsIgnored();
    SkipIgnored(pre, [VersionLine(), ""] + body, false, policy, deleted, st);
    AfterHeader(body, policy, deleted, st);
  }

  /** Reading the body of a written file into an empty service. */
  lemma BodyReadBack(lines: seq<string>, cs: seq<Catalog>)
    requires ReadsBack(lines, cs) && DistinctIds(cs)
    ensures var r := ParseLines(lines, true, LoadFresh, {}, ParseState(map[], {}));
      && r.live.Keys == IdsOf(cs) && r.fileIds == IdsOf(cs)
      && (forall i :: 0 <= i < |cs| ==> r.live[cs[i].id] == cs[i])
  {
    var st := ParseState(map[], {});
    assert KeptFrom(cs, 0, LoadFresh, {}, st);
    assert lines[0..] == lines && cs[0..] == cs;
    ParsedLines(lines, cs, 0, LoadFresh, {}, st);
    StoredFromKeys(st, cs, 0);
    forall i | 0 <= i < |cs| ensures StoredFrom(st, cs, 0).live[cs[i].id] == cs[i] {
      StoredFromValues(st, cs, 0, i);
    }
  }

  /** `write_to_disk_unsafe` followed by a fresh load gives back exactly the catalogs that
      were written, keyed by their identifiers, and the file records each of them. */
  lemma FileRoundTrip(cs: seq<Catalog>)
    requires forall i :: 0 <= i < |cs| ==> IsWritable(cs[i]) && !cs[i].isDeleted
    requires DistinctIds(cs)
    ensures var r := ParseLines(FileContent(cs), false, LoadFresh, {}, ParseState(map[], {}));
      && r.live.Keys == IdsOf(cs) && r.fileIds == IdsOf(cs)
      && (forall i :: 0 <= i < |cs| ==> r.live[cs[i].id] == cs[i])
  {
    FileContentReadsBody(cs, LoadFresh, {}, ParseState(map[], {}));
    WrittenLinesReadBack(cs);
    BodyReadBack(CatalogLines(cs), cs);
  }
}
