/** The pure text helpers of the spreadsheet converter (xlxs/converter.py):
    recognising a Google Sheets link, turning a share link into its xlsx export
    link, sanitising file names, and naming the output folder and the per-sheet
    CSV files. */
module SheetsConverter {
  import opened Results
  import opened PyText
  import opened PosixPath

  /** The substring that marks a Google Sheets link. */
  const SheetsMarker: string := "docs.google.com/spreadsheets"

  const ExportPrefix: string := "https://" + SheetsMarker + "/d/"
  const ExportSuffix: string := "/export?format=xlsx"

  /** Default `max_len` of `sanitize_filename`. */
  const DefaultMaxLen: int := 200

  const NoSheetIdMessage: string := "Couldn't find sheet ID in the Google Sheets URL."

  /** The exception the converter raises for a link without a sheet id. */
  datatype ConvertError = ValueError(message: string)

  // ---------------------------------------------------------------------------
  // Recognising a Google Sheets link

  /** `is_google_sheets_url`: a plain substring test, not a URL parse. */
  function IsGoogleSheetsUrl(s: string): (b: bool)
    ensures b <==> exists i :: OccursAt(s, SheetsMarker, i)
  {
    Contains(s, SheetsMarker)
  }

  // ---------------------------------------------------------------------------
  // The sheet id: the regular expression `/d/([a-zA-Z0-9-_]+)`, searched for

  /** The character class `[a-zA-Z0-9-_]` (the `-` after the range `0-9` is a
      literal dash). */
  predicate IsIdChar(c: char) {
    ('a' <= c <= 'z') || ('A' <= c <= 'Z') || ('0' <= c <= '9') || c == '-' || c == '_'
  }

  /** The pattern matches starting at index `i`: `/d/` followed by at least
      one id character. */
  predicate IdMatchAt(s: string, i: int) {
    && 0 <= i && i + 3 < |s|
    && s[i] == '/' && s[i + 1] == 'd' && s[i + 2] == '/'
    && IsIdChar(s[i + 3])
  }

  /** End of the greedy run of id characters that starts at `k`. */
  function IdRunEnd(s: string, k: nat): (e: nat)
    requires k <= |s|
    ensures k <= e <= |s|
    ensures forall j :: k <= j < e ==> IsIdChar(s[j])
    ensures e == |s| || !IsIdChar(s[e])
    decreases |s| - k
  {
    if k < |s| && IsIdChar(s[k]) then IdRunEnd(s, k + 1) else k
  }

  /** Leftmost start, at or after `from`, where the pattern matches. */
  function FirstIdMatch(s: string, from: nat): (r: Option<nat>)
    requires from <= |s|
    ensures r.None? ==> forall j :: from <= j ==> !IdMatchAt(s, j)
    ensures r.Some? ==> from <= r.value && IdMatchAt(s, r.value)
    ensures r.Some? ==> forall j :: from <= j < r.value ==> !IdMatchAt(s, j)
    decreases |s| - from
  {
    if from + 3 >= |s| then None
    else if IdMatchAt(s, from) then Some(from)
    else FirstIdMatch(s, from + 1)
  }

  /** The id is the maximal run of id characters after the leftmost `/d/`
      that is immediately followed by one. */
  ghost predicate IsSheetIdOf(s: string, id: string) {
    exists m ::
      && IdMatchAt(s, m)
      && (forall j :: 0 <= j < m ==> !IdMatchAt(s, j))
      && m + 3 + |id| <= |s|
      && s[m + 3..m + 3 + |id|] == id
      && (m + 3 + |id| == |s| || !IsIdChar(s[m + 3 + |id|]))
  }

  predicate AllIdChars(id: string) {
    forall j :: 0 <= j < |id| ==> IsIdChar(id[j])
  }

  /** `m.group(1)` of `re.search(r"/d/([a-zA-Z0-9-_]+)", share_url)`. */
  function SheetId(s: string): (r: Option<string>)
    ensures r.None? <==> forall j :: !IdMatchAt(s, j)
    ensures r.Some? ==> r.value != [] && AllIdChars(r.value) && IsSheetIdOf(s, r.value)
  {
    match FirstIdMatch(s, 0)
    case None => None
    case Some(m) =>
      var e := IdRunEnd(s, m + 3);
      var id := s[m + 3..e];
      assert IdMatchAt(s, m) && s[m + 3..m + 3 + |id|] == id;
      Some(id)
  }

  /** `google_sheets_export_xlsx_url`: the export link for the sheet id, or the
      `ValueError` the converter raises when the link carries none. */
  function ExportUrl(shareUrl: string): (r: Result<string, ConvertError>)
    ensures r.Failure? <==> forall j :: !IdMatchAt(shareUrl, j)
    ensures r.Failure? ==> r.error == ValueError(NoSheetIdMessage)
    ensures r.Success? ==> exists id ::
      && id != [] && AllIdChars(id) && IsSheetIdOf(shareUrl, id)
      && r.value == ExportPrefix + id + ExportSuffix
  {
    match SheetId(shareUrl)
    case None => Failure(ValueError(NoSheetIdMessage))
    case Some(id) => Success(ExportPrefix + id + ExportSuffix)
  }

  /** No `/d/` followed by an id character starts inside the host part of an
      export link. */
  lemma NoIdMatchInExportHost(u: string, id: string, j: int)
    requires u == ExportPrefix + id + ExportSuffix
    requires 0 <= j < |ExportPrefix| - 3
    ensures !IdMatchAt(u, j)
  {
    assert u[j] == ExportPrefix[j] && u[j + 1] == ExportPrefix[j + 1] && u[j + 2] == ExportPrefix[j + 2];
  }

  /** Every export link is recognised as a Google Sheets link. */
  lemma ExportLinkIsSheetsUrl(id: string)
    ensures IsGoogleSheetsUrl(ExportPrefix + id + ExportSuffix)
  {
    var u := ExportPrefix + id + ExportSuffix;
    assert u == "https://" + SheetsMarker + ("/d/" + id + ExportSuffix);
    assert u[8..8 + |SheetsMarker|] == SheetsMarker;
    assert OccursAt(u, SheetsMarker, 8);
  }

  /** A leftmost match at `m` whose id run is exactly `id` determines the id. */
  lemma SheetIdFromMatch(u: string, m: nat, id: string)
    requires IdMatchAt(u, m)
    requires forall j :: 0 <= j < m ==> !IdMatchAt(u, j)
    requires m + 3 + |id| < |u| && u[m + 3..m + 3 + |id|] == id
    requires AllIdChars(id) && !IsIdChar(u[m + 3 + |id|])
    ensures SheetId(u) == Some(id)
  {
    assert FirstIdMatch(u, 0) == Some(m);
    assert IdRunEnd(u, m + 3) == m + 3 + |id|;
  }

  /** The sheet id read back from an export link is the id it was built from. */
  lemma SheetIdOfExportLink(id: string)
    requires id != [] && AllIdChars(id)
    ensures SheetId(ExportPrefix + id + ExportSuffix) == Some(id)
  {
    var u := ExportPrefix + id + ExportSuffix;
    var n := |ExportPrefix|;
    assert u[n..n + |id|] == id;
    assert u[n + |id|] == '/';
    assert IdMatchAt(u, n - 3);
    forall j | 0 <= j < n - 3
      ensures !IdMatchAt(u, j)
    {
      NoIdMatchInExportHost(u, id, j);
    }
    SheetIdFromMatch(u, n - 3, id);
  }

  /** The export link of a sheet is itself a Google Sheets link, carries the
      same sheet id, and converting it again changes nothing. */
  lemma ExportUrlRoundTrip(shareUrl: string)
    requires ExportUrl(shareUrl).Success?
    ensures IsGoogleSheetsUrl(ExportUrl(shareUrl).value)
    ensures SheetId(ExportUrl(shareUrl).value) == SheetId(shareUrl)
    ensures ExportUrl(ExportUrl(shareUrl).value) == ExportUrl(shareUrl)
  {
    var id := SheetId(shareUrl).value;
    ExportLinkIsSheetsUrl(id);
    SheetIdOfExportLink(id);
  }

  // ---------------------------------------------------------------------------
  // File-name sanitising: `re.sub(r"[\\/*?<>|:\"']", "", name)`, strip, cut

  /** The ten characters the substitution deletes. */
  predicate IsForbidden(c: char) {
    || c == '\\' || c == '/' || c == '*' || c == '?' || c == '<'
    || c == '>' || c == '|' || c == ':' || c == '"' || c == '\''
  }

  predicate Clean(s: string) {
    forall i :: 0 <= i < |s| ==> !IsForbidden(s[i])
  }

  lemma CleanSlice(s: string, a: int, b: int)
    requires Clean(s) && 0 <= a <= b <= |s|
    ensures Clean(s[a..b])
  {
    assert forall i :: 0 <= i < b - a ==> s[a..b][i] == s[a + i];
  }

  /** The substitution step: every forbidden character deleted, every other
      character kept as often as it occurred. */
  function RemoveForbidden(s: string): (r: string)
    ensures Clean(r)
    ensures |r| <= |s|
  {
    if |s| == 0 then []
    else if IsForbidden(s[0]) then RemoveForbidden(s[1..])
    else [s[0]] + RemoveForbidden(s[1..])
  }

  /** A clean text passes through the substitution unchanged. */
  lemma {:induction false} RemoveForbiddenFixesClean(s: string)
    requires Clean(s)
    ensures RemoveForbidden(s) == s
    decreases |s|
  {
    if |s| > 0 {
      RemoveForbiddenFixesClean(s[1..]);
      assert [s[0]] + s[1..] == s;
    }
  }

  /** Every character that is not forbidden survives the substitution as often
      as it occurred; no forbidden one survives. */
  lemma {:induction false} RemoveForbiddenCounts(s: string, c: char)
    ensures multiset(RemoveForbidden(s))[c] == if IsForbidden(c) then 0 else multiset(s)[c]
    decreases |s|
  {
    if |s| > 0 {
      assert s == [s[0]] + s[1..];
      RemoveForbiddenCounts(s[1..], c);
    }
  }

  lemma {:induction false} RemoveForbiddenKeepsOrder(s: string) returns (idx: seq<int>)
    ensures EmbedsBy(RemoveForbidden(s), s, idx)
    decreases |s|
  {
    if |s| == 0 {
      idx := [];
    } else {
      var rest := RemoveForbidden(s[1..]);
      var tail := RemoveForbiddenKeepsOrder(s[1..]);
      var shifted := EmbedShift(rest, s, tail);
      if IsForbidden(s[0]) {
        idx := shifted;
      } else {
        assert RemoveForbidden(s) == [s[0]] + rest;
        idx := EmbedCons(rest, s, shifted);
      }
    }
  }

  /** The name before the cut: forbidden characters deleted, then stripped. */
  function Trimmed(name: string): (t: string)
    ensures Clean(t) && NoEdgeSpace(t)
    ensures |t| <= |name|
  {
    var x := RemoveForbidden(name);
    var t := Strip(x);
    CleanSlice(x, StripOffset(x), StripOffset(x) + |t|);
    t
  }

  /** `sanitize_filename(name, max_len)`: forbidden characters deleted, the
      result stripped, then cut to `max_len` with Python slice semantics, so
      that `min(max_len, len)` characters remain for a non-negative
      `max_len`. */
  function Sanitize(name: string, maxLen: int): (r: string)
    ensures Clean(r)
    ensures r == [] || !IsSpace(r[0])
    ensures |r| <= |Trimmed(name)| && r == Trimmed(name)[..|r|]
    ensures 0 <= maxLen <= |Trimmed(name)| ==> |r| == maxLen
    ensures maxLen >= |Trimmed(name)| ==> r == Trimmed(name)
    ensures maxLen < 0 && |Trimmed(name)| + maxLen >= 0 ==> |r| == |Trimmed(name)| + maxLen
    ensures |Trimmed(name)| + maxLen < 0 ==> r == []
  {
    var t := Trimmed(name);
    var r := PyPrefix(t, maxLen);
    CleanSlice(t, 0, |r|);
    r
  }

  /** The result is a prefix of the stripped substitution result, exactly as
      long as Python's `[:max_len]` slice keeps. */
  lemma SanitizeIsPrefix(name: string, maxLen: int)
    ensures var t := Strip(RemoveForbidden(name));
      && Trimmed(name) == t
      && |Sanitize(name, maxLen)| <= |t| && Sanitize(name, maxLen) == t[..|Sanitize(name, maxLen)|]
      && |Sanitize(name, maxLen)| == (if maxLen >= 0 then (if maxLen <= |t| then maxLen else |t|)
                                      else if |t| + maxLen >= 0 then |t| + maxLen else 0)
  {
  }

  /** What survives sanitising keeps its original relative order. */
  lemma SanitizeKeepsOrder(name: string, maxLen: int)
    ensures IsSubsequence(Sanitize(name, maxLen), name)
  {
    var x := RemoveForbidden(name);
    var t := Strip(x);
    var f := RemoveForbiddenKeepsOrder(name);
    var g := StripEmbeds(x);
    var h := PrefixEmbeds(t, maxLen);
    var tf := EmbedCompose(t, x, name, g, f);
    var idx := EmbedCompose(PyPrefix(t, maxLen), t, name, h, tf);
  }

  /** When nothing is cut off, sanitising loses only forbidden characters and
      whitespace: every other character survives as often as it occurred. */
  lemma SanitizeLosesOnlyForbiddenAndSpace(name: string, maxLen: int, c: char)
    requires maxLen >= |Trimmed(name)|
    requires !IsForbidden(c) && !IsSpace(c)
    ensures multiset(Sanitize(name, maxLen))[c] == multiset(name)[c]
  {
    var x := RemoveForbidden(name);
    var t := Strip(x);
    assert Sanitize(name, maxLen) == t;
    RemoveForbiddenCounts(name, c);
    StripKeepsCounts(x, c);
  }

  /** A name that is already clean, trimmed and short enough is left alone. */
  lemma SanitizeFixesCleanName(name: string, maxLen: int)
    requires Clean(name) && NoEdgeSpace(name) && |name| <= maxLen
    ensures Sanitize(name, maxLen) == name
  {
    RemoveForbiddenFixesClean(name);
    StripFixesTrimmed(name);
  }

  /** Cutting happens after stripping, so a cut can end on a space: sanitising
      twice is not the same as sanitising once. */
  lemma SanitizeNotIdempotent()
    ensures Sanitize("ab c", 3) == "ab "
    ensures Sanitize(Sanitize("ab c", 3), 3) == "ab"
  {
    SanitizeCutBeforeSpace();
    SanitizeDropsTrailingSpace();
  }

  /** On a name without forbidden characters only the strip and the cut act. */
  lemma SanitizeOfClean(name: string, maxLen: int)
    requires Clean(name)
    ensures Sanitize(name, maxLen) == PyPrefix(Strip(name), maxLen)
  {
    RemoveForbiddenFixesClean(name);
  }

  lemma SanitizeCutBeforeSpace()
    ensures Sanitize("ab c", 3) == "ab "
  {
    var once: string := "ab c";
    assert Clean(once) && NoEdgeSpace(once);
    SanitizeOfClean(once, 3);
    StripFixesTrimmed(once);
    var r := PyPrefix(once, 3);
    assert |r| == 3 && r[0] == 'a' && r[1] == 'b' && r[2] == ' ';
  }

  lemma SanitizeDropsTrailingSpace()
    ensures Sanitize("ab ", 3) == "ab"
  {
    var trimmed: string := "ab";
    var twice: string := "ab ";
    assert twice == trimmed + [' '];
    assert Clean(twice) && NoEdgeSpace(trimmed);
    SanitizeOfClean(twice, 3);
    StripDropsTrailingSpace(trimmed, ' ');
  }

  // ---------------------------------------------------------------------------
  // Output folder and per-sheet CSV names

  /** `get_output_dir_from_input`: the stem of the input's final component
      when it has a suffix, otherwise the sanitised final component, and
      `output` when that leaves nothing. */
  function OutputDir(input: string): (r: string)
    ensures r != [] && NoSlash(r)
    ensures var name := Name(input);
      Suffix(name) != [] ==> r + Suffix(name) == name
    ensures var name := Name(input);
      Suffix(name) == [] ==> Clean(r) && |r| <= DefaultMaxLen
    ensures var name := Name(input);
      Suffix(name) == [] && Sanitize(name, DefaultMaxLen) != [] ==> r == Sanitize(name, DefaultMaxLen)
    ensures var name := Name(input);
      Suffix(name) == [] && Sanitize(name, DefaultMaxLen) == [] ==> r == "output"
  {
    var name := Name(input);
    var folder := Folder(name);
    FallbackFolderIsUsable();
    if folder == [] then FallbackFolder else folder
  }

  /** The folder name before the `output` fallback. */
  function Folder(name: string): (f: string)
    requires NoSlash(name)
    ensures NoSlash(f)
    ensures Suffix(name) != [] ==> f + Suffix(name) == name
    ensures Suffix(name) == [] ==> f == Sanitize(name, DefaultMaxLen)
  {
    if Suffix(name) != [] then
      var stem := Stem(name);
      assert forall i :: 0 <= i < |stem| ==> stem[i] == name[i];
      stem
    else
      var safe := Sanitize(name, DefaultMaxLen);
      assert forall i :: 0 <= i < |safe| ==> !IsForbidden(safe[i]);
      safe
  }

  const FallbackFolder: string := "output"

  lemma FallbackFolderIsUsable()
    ensures FallbackFolder != [] && NoSlash(FallbackFolder)
    ensures Clean(FallbackFolder) && |FallbackFolder| <= DefaultMaxLen
  {
  }

  /** The CSV file name of a sheet (converter lines 67-68). */
  function SheetCsvName(sheetName: string): (r: string)
    ensures EndsWith(r, ".csv") && |r| > 4
    ensures var stem := r[..|r| - 4];
      stem != [] && Clean(stem) && |stem| <= DefaultMaxLen && !IsSpace(stem[0])
    ensures Sanitize(sheetName, DefaultMaxLen) == [] ==> r == "Sheet.csv"
    ensures Sanitize(sheetName, DefaultMaxLen) != [] ==> r == Sanitize(sheetName, DefaultMaxLen) + ".csv"
  {
    var safe := Sanitize(sheetName, DefaultMaxLen);
    var stem := if safe != [] then safe else FallbackSheetName;
    FallbackSheetNameIsClean();
    CsvStem(stem);
    stem + ".csv"
  }

  const FallbackSheetName: string := "Sheet"

  lemma FallbackSheetNameIsClean()
    ensures FallbackSheetName != [] && Clean(FallbackSheetName) && !IsSpace(FallbackSheetName[0])
    ensures |FallbackSheetName| <= DefaultMaxLen
    ensures FallbackSheetName + ".csv" == "Sheet.csv"
  {
  }

  /** Appending `.csv` to a usable stem keeps the stem recoverable. */
  lemma CsvStem(stem: string)
    requires stem != [] && Clean(stem) && |stem| <= DefaultMaxLen && !IsSpace(stem[0])
    ensures var r := stem + ".csv";
      && EndsWith(r, ".csv") && |r| > 4
      && var s := r[..|r| - 4];
         s != [] && Clean(s) && |s| <= DefaultMaxLen && !IsSpace(s[0])
  {
    var r := stem + ".csv";
    assert r[..|r| - 4] == stem;
  }

  /** A clean, non-empty stem with `.csv` appended is one path component. */
  lemma CsvNameIsSingleComponent(stem: string)
    requires stem != [] && Clean(stem)
    ensures IsSingleComponent(stem + ".csv")
  {
    var r := stem + ".csv";
    forall i | 0 <= i < |r|
      ensures r[i] != '/'
    {
      if i < |stem| {
        assert r[i] == stem[i] && !IsForbidden(stem[i]);
      }
    }
  }

  /** Every CSV file is written directly inside the output folder: its name is
      one path component that does not climb out of the folder. */
  lemma SheetCsvInOutputDir(outputDir: string, sheetName: string)
    ensures IsSingleComponent(SheetCsvName(sheetName))
    ensures Components(Join(outputDir, SheetCsvName(sheetName))) == Components(outputDir) + [SheetCsvName(sheetName)]
    ensures Name(Join(outputDir, SheetCsvName(sheetName))) == SheetCsvName(sheetName)
  {
    var r := SheetCsvName(sheetName);
    var stem := r[..|r| - 4];
    assert r == stem + ".csv";
    CsvNameIsSingleComponent(stem);
    SingleComponentJoin(outputDir, r);
  }

  /** The input `..xlsx` has the suffix `.xlsx` and the stem `.`, so its
      output folder is the current directory rather than a new one. */
  lemma DotDotXlsxIsCurrentDir()
    ensures OutputDir("..xlsx") == "."
  {
    var input: string := "..xlsx";
    assert IsSingleComponent(input);
    SingleComponentJoin([], input);
    assert Name(input) == input;
    SuffixAt(input, 1);
    assert input[..1] == ".";
  }
}
