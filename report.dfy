/** The backup report of `utils/report.go`: the error-message parser, the
    backup-type summary and the configuration flags it records, the text of
    the report file, and the two version gates a restore runs. */
module Report {
  import opened Wrappers
  import opened Strings
  import opened SemVer

  // ---------------------------------------------------------------------
  // Error messages
  // ---------------------------------------------------------------------

  /** The header that precedes the message in a critical log line. */
  const CriticalHeader := "[CRITICAL]:-"

  /** The slice `errStr[headerIndex+12:]` is out of range: the header is
      missing (`headerIndex` is -1) and the text is under 11 characters. */
  datatype SlicePanic = SliceOutOfRange(errStr: string)

  predicate FirstHeaderAt(errStr: string, k: int)
  {
    0 <= k && OccursAt(errStr, CriticalHeader, k) &&
    forall m :: 0 <= m < k ==> !OccursAt(errStr, CriticalHeader, m)
  }

  /** The message after the first critical header, with exit code 1; an
      empty string means no error and exit code 0. Without a header Go's
      index is -1 and the text from position 11 on is returned. */
  function ParseErrorMessage(errStr: string): (r: Result<(string, int), SlicePanic>)
    ensures errStr == "" ==> r == Ok(("", 0))
    ensures errStr != "" && r.Ok? ==> r.value.1 == 1
    ensures forall k :: FirstHeaderAt(errStr, k) ==> r == Ok((errStr[k + |CriticalHeader|..], 1))
    ensures errStr != "" && (forall k :: 0 <= k <= |errStr| ==> !OccursAt(errStr, CriticalHeader, k)) ==>
      r == if |errStr| >= |CriticalHeader| - 1 then Ok((errStr[|CriticalHeader| - 1..], 1))
           else Err(SliceOutOfRange(errStr))
  {
    if errStr == "" then Ok(("", 0))
    else
      var headerIndex := IndexOf(errStr, CriticalHeader);
      var start := headerIndex + |CriticalHeader|;
      if 0 <= start <= |errStr| then Ok((errStr[start..], 1))
      else Err(SliceOutOfRange(errStr))
  }

  /** The message is recovered whatever precedes the header, so long as no
      earlier header occurs. */
  lemma ParseErrorMessageAfterHeader(prefix: string, msg: string)
    requires forall m :: 0 <= m <= |prefix| ==> !OccursAt(prefix + CriticalHeader + msg, CriticalHeader, m) ||
                                                  m == |prefix|
    ensures ParseErrorMessage(prefix + CriticalHeader + msg) == Ok((msg, 1))
  {
    var s := prefix + CriticalHeader + msg;
    assert s[|prefix|..|prefix| + |CriticalHeader|] == CriticalHeader;
    assert FirstHeaderAt(s, |prefix|);
    assert s[|prefix| + |CriticalHeader|..] == msg;
  }

  // ---------------------------------------------------------------------
  // Backup type
  // ---------------------------------------------------------------------

  datatype Section = AllSections | DataOnlySection | MetadataOnlySection

  /** What the backup-type line of the report describes. */
  datatype BackupKind = BackupKind(schemaFiltered: bool, compressed: bool, section: Section,
                                   withStatistics: bool)

  /** `--metadata-only` wins over `--data-only` when both are given. */
  function SectionOf(dataOnly: bool, ddlOnly: bool): (s: Section)
    ensures s == MetadataOnlySection <==> ddlOnly
    ensures s == DataOnlySection <==> dataOnly && !ddlOnly
    ensures s == AllSections <==> !dataOnly && !ddlOnly
  {
    if ddlOnly then MetadataOnlySection
    else if dataOnly then DataOnlySection
    else AllSections
  }

  function FilterText(schemaFiltered: bool): string
  {
    if schemaFiltered then "Schema-Filtered" else "Unfiltered"
  }

  function CompressionText(compressed: bool): string
  {
    if compressed then "Compressed" else "Uncompressed"
  }

  function SectionText(s: Section): string
  {
    match s
    case AllSections => ""
    case DataOnlySection => " Data-Only"
    case MetadataOnlySection => " Metadata-Only"
  }

  function StatisticsText(withStatistics: bool): string
  {
    if withStatistics then " With Statistics" else ""
  }

  /** `"%s %s Full%s Backup%s"` filled with the four words. */
  function BackupTypeText(k: BackupKind): string
  {
    FilterText(k.schemaFiltered) + " " + CompressionText(k.compressed) + " Full" +
    SectionText(k.section) + " Backup" + StatisticsText(k.withStatistics)
  }

  /** The backup-type line tells every kind of backup apart: the report
      loses nothing of the four settings it summarises. */
  lemma BackupTypeTextInjective(k1: BackupKind, k2: BackupKind)
    requires BackupTypeText(k1) == BackupTypeText(k2)
    ensures k1 == k2
  {
    var t := BackupTypeText(k1);
    assert t[0] == BackupTypeText(k2)[0];
    assert k1.schemaFiltered == k2.schemaFiltered;
    var f := |FilterText(k1.schemaFiltered)| + 1;
    assert t[f] == BackupTypeText(k2)[f];
    assert k1.compressed == k2.compressed;
    var o := f + |CompressionText(k1.compressed)| + 5;
    assert t[o] == BackupTypeText(k2)[o];
    if o + 1 < |t| {
      assert t[o + 1] == BackupTypeText(k2)[o + 1];
    }
    assert k1.section == k2.section;
  }

  /** The settings a backup records in its configuration file. */
  datatype BackupConfig = BackupConfig(backupVersion: string, databaseName: string,
                                       databaseVersion: string, compressed: bool, dataOnly: bool,
                                       schemaFiltered: bool, metadataOnly: bool,
                                       withStatistics: bool)

  /** What a backup reports: its type, its size and its configuration. */
  class Report {
    var backupType: string
    var databaseSize: string
    var config: BackupConfig

    constructor (backupType: string, databaseSize: string, config: BackupConfig)
      ensures this.backupType == backupType && this.databaseSize == databaseSize
      ensures this.config == config
    {
      this.backupType := backupType;
      this.databaseSize := databaseSize;
      this.config := config;
    }

    /** Sets the backup-type line from the command-line flags and raises
        the configuration flags they imply; a flag already set stays set,
        and `withStatistics` is left to the caller. */
    method SetBackupTypeFromFlags(dataOnly: bool, ddlOnly: bool, noCompression: bool,
                                  schemaInclude: seq<string>, withStats: bool)
      modifies this
      ensures backupType == BackupTypeText(BackupKind(|schemaInclude| > 0, !noCompression,
                                                      SectionOf(dataOnly, ddlOnly), withStats))
      ensures config == old(config).(schemaFiltered := old(config.schemaFiltered) || |schemaInclude| > 0,
                                     compressed := old(config.compressed) || !noCompression,
                                     dataOnly := old(config.dataOnly) || dataOnly,
                                     metadataOnly := old(config.metadataOnly) || ddlOnly)
      ensures databaseSize == old(databaseSize)
    {
      var filterStr := "Unfiltered";
      if |schemaInclude| > 0 {
        config := config.(schemaFiltered := true);
        filterStr := "Schema-Filtered";
      }
      var compressStr := "Compressed";
      if noCompression {
        compressStr := "Uncompressed";
      } else {
        config := config.(compressed := true);
      }
      var sectionStr := "";
      if dataOnly {
        config := config.(dataOnly := true);
        sectionStr := " Data-Only";
      }
      if ddlOnly {
        config := config.(metadataOnly := true);
        sectionStr := " Metadata-Only";
      }
      var statsStr := "";
      if withStats {
        statsStr := " With Statistics";
      }
      backupType := filterStr + " " + compressStr + " Full" + sectionStr + " Backup" + statsStr;
    }

    /** The text of the report file: the filled-in template followed by
        one line per object type in byte order of the type names. */
    method WriteReportFile(timestamp: string, args: seq<string>, objectCounts: map<string, int>,
                           errMsg: string) returns (text: string)
      ensures
        exists rows ::
          IsCountListing(objectCounts, rows) &&
          text == ReportHeader(timestamp, config, Join(args, ' '), backupType, errMsg, databaseSize) +
                  CountSection(rows)
    {
      var gpbackupCommandLine := Join(args, ' ');
      var header := ReportHeader(timestamp, config, gpbackupCommandLine, backupType, errMsg, databaseSize);
      var rows := ObjectCountRows(objectCounts);
      var objectStr := WriteCountSection(rows);
      text := header + objectStr;
    }
  }

  // ---------------------------------------------------------------------
  // Report file
  // ---------------------------------------------------------------------

  /** "Success" or "Failure", and the error line under it. */
  function BackupStatus(errMsg: string): (r: (string, string))
    ensures r.0 == "Failure" <==> errMsg != ""
    ensures r.0 == "Success" <==> errMsg == ""
    ensures errMsg == "" <==> r.1 == ""
    ensures errMsg != "" ==> |r.1| == |errMsg| + 15
    ensures errMsg != "" ==> r.1[..14] == "Backup Error: " && r.1[|r.1| - 1] == '\n' &&
                             r.1[14..|r.1| - 1] == errMsg
  {
    if errMsg == "" then ("Success", "")
    else ("Failure", "Backup Error: " + errMsg + "\n")
  }

  /** The labels of the report file's template, between which its nine
      `%s` fields stand. */
  const ReportLabels: seq<string> := [
    "Greenplum Database Backup Report\n\nTimestamp Key: ", "\nGPDB Version: ", "\ngpbackup Version: ",
    "\n\nDatabase Name: ", "\nCommand Line: ", "\nBackup Type: ", "\nBackup Status: ", "\n",
    "\nDatabase Size: ", ""]

  /** The report file's template. */
  const ReportTemplate := Template(ReportLabels)

  /** The report template with its nine fields filled in: the status line
      says `Success`, or `Failure` followed by a line with the error. */
  function ReportHeader(timestamp: string, config: BackupConfig, commandLine: string,
                        backupType: string, errMsg: string, databaseSize: string): (r: string)
    ensures r == Interleave(ReportLabels, [timestamp, config.databaseVersion, config.backupVersion,
      config.databaseName, commandLine, backupType, if errMsg == "" then "Success" else "Failure",
      if errMsg == "" then "" else "Backup Error: " + errMsg + "\n", databaseSize])
  {
    var (status, errLine) := BackupStatus(errMsg);
    var args := [timestamp, config.databaseVersion, config.backupVersion, config.databaseName, commandLine,
                 backupType, status, errLine, databaseSize];
    SprintfTemplate(ReportLabels, args);
    Sprintf(ReportTemplate, args)
  }

  const CountHeading := "\nCount of Database Objects in Backup:\n"

  /** The object-count part of the report. */
  function CountSection(rows: seq<(string, int)>): string
  {
    CountHeading + CountLines(rows)
  }

  /** Builds the object-count part line by line. */
  method WriteCountSection(rows: seq<(string, int)>) returns (objectStr: string)
    ensures objectStr == CountSection(rows)
  {
    var lines := "";
    for i := 0 to |rows|
      invariant lines == CountLines(rows[..i])
    {
      CountLinesPrefix(rows, i);
      lines := lines + CountLine(rows[i].0, rows[i].1);
    }
    assert rows[..|rows|] == rows;
    objectStr := CountHeading + lines;
  }

  /** `%-29s`: `s` left-justified in a field of `width` characters. */
  function PadRight(s: string, width: nat): (r: string)
    ensures |r| == if |s| >= width then |s| else width
    ensures r[..|s|] == s
    ensures forall i :: |s| <= i < |r| ==> r[i] == ' '
    decreases width - |s|
  {
    if |s| >= width then s else PadRight(s + " ", width)
  }

  /** `%d`: decimal digits, with a minus sign below zero. */
  function IntText(n: int): (r: string)
    ensures r != []
    ensures n >= 0 ==> AllDigits(r) && DigitsValue(r) == n && !HasLeadingZeroes(r)
    ensures n < 0 ==> r[0] == '-' && AllDigits(r[1..]) && DigitsValue(r[1..]) == -n &&
                      !HasLeadingZeroes(r[1..])
  {
    if n >= 0 then
      NatToDigitsValue(n);
      NatToDigits(n)
    else
      NatToDigitsValue(-n);
      assert ("-" + NatToDigits(-n))[1..] == NatToDigits(-n);
      "-" + NatToDigits(-n)
  }

  /** One `%-29s%d\n` line: the name padded with spaces to 29 columns,
      the count in decimal, a newline; a name without a newline gives one
      line. */
  function CountLine(name: string, count: int): (r: string)
    ensures var w := if |name| >= 29 then |name| else 29;
      |r| == w + |IntText(count)| + 1 && r[..|name|] == name &&
      (forall i :: |name| <= i < w ==> r[i] == ' ') &&
      r[w..|r| - 1] == IntText(count) && r[|r| - 1] == '\n'
    ensures '\n' !in name ==> Count(r, '\n') == 1
  {
    var padded := PadRight(name, 29);
    var number := IntText(count);
    LineNewlines(name, count);
    assert (padded + number + "\n")[..|padded|] == padded;
    padded + number + "\n"
  }

  /** Padding adds only spaces and a decimal number has no newline, so
      the line's one newline is its last character. */
  lemma LineNewlines(name: string, count: int)
    ensures '\n' !in name ==> Count(PadRight(name, 29) + IntText(count) + "\n", '\n') == 1
  {
    if '\n' !in name {
      LineFieldsWithoutNewline(name, count);
      var padded := PadRight(name, 29);
      var number := IntText(count);
      CountAbsent(padded, '\n');
      CountAbsent(number, '\n');
      CountAppend(padded, number, '\n');
      CountAppend(padded + number, "\n", '\n');
    }
  }

  lemma LineFieldsWithoutNewline(name: string, count: int)
    requires '\n' !in name
    ensures '\n' !in PadRight(name, 29) && '\n' !in IntText(count)
  {
    var padded := PadRight(name, 29);
    forall i | 0 <= i < |padded|
      ensures padded[i] != '\n'
    {
      if i < |name| {
        assert padded[i] == padded[..|name|][i];
      }
    }
    var number := IntText(count);
    forall i | 0 <= i < |number|
      ensures number[i] != '\n'
    {
      if count < 0 && i > 0 {
        assert number[i] == number[1..][i - 1];
      }
    }
  }

  /** The count lines in order: one line per row when no object type
      contains a newline. */
  function CountLines(rows: seq<(string, int)>): (r: string)
    ensures (forall i :: 0 <= i < |rows| ==> '\n' !in rows[i].0) ==> Count(r, '\n') == |rows|
  {
    if rows == [] then ""
    else
      var line := CountLine(rows[0].0, rows[0].1);
      CountAppend(line, CountLines(rows[1..]), '\n');
      line + CountLines(rows[1..])
  }

  lemma {:induction false} CountLinesAppend(rows: seq<(string, int)>, row: (string, int))
    ensures CountLines(rows + [row]) == CountLines(rows) + CountLine(row.0, row.1)
  {
    if rows == [] {
      assert rows + [row] == [row] && [row][1..] == [];
    } else {
      var rest := rows[1..];
      assert (rows + [row])[1..] == rest + [row];
      CountLinesAppend(rest, row);
    }
  }

  lemma CountLinesPrefix(rows: seq<(string, int)>, i: nat)
    requires i < |rows|
    ensures CountLines(rows[..i + 1]) == CountLines(rows[..i]) + CountLine(rows[i].0, rows[i].1)
  {
    assert rows[..i + 1] == rows[..i] + [rows[i]];
    CountLinesAppend(rows[..i], rows[i]);
  }

  /** The object types of a count listing. */
  function RowNames(rows: seq<(string, int)>): (names: seq<string>)
    ensures |names| == |rows|
    ensures forall i :: 0 <= i < |rows| ==> names[i] == rows[i].0
  {
    if rows == [] then [] else [rows[0].0] + RowNames(rows[1..])
  }

  /** `rows` lists every entry of `counts` once, in byte order of the
      object type. */
  predicate IsCountListing(counts: map<string, int>, rows: seq<(string, int)>)
  {
    StrictlySorted(RowNames(rows)) &&
    Elements(RowNames(rows)) == counts.Keys &&
    forall i :: 0 <= i < |rows| ==> rows[i].0 in counts && rows[i].1 == counts[rows[i].0]
  }

  /** The map's keys in the order the map hands them out, which Go leaves
      unspecified. */
  method MapKeys(objectCounts: map<string, int>) returns (objectSlice: seq<string>)
    ensures Distinct(objectSlice) && Elements(objectSlice) == objectCounts.Keys
    ensures |objectSlice| == |objectCounts|
  {
    objectSlice := [];
    var remaining := objectCounts.Keys;
    while remaining != {}
      invariant remaining <= objectCounts.Keys
      invariant Distinct(objectSlice)
      invariant Elements(objectSlice) == objectCounts.Keys - remaining
      invariant |objectSlice| + |remaining| == |objectCounts.Keys|
      decreases |remaining|
    {
      var k :| k in remaining;
      ElementsAppend(objectSlice, k);
      objectSlice := objectSlice + [k];
      remaining := remaining - {k};
    }
  }

  /** Each name paired with its count, in the order given. */
  method PairWithCounts(names: seq<string>, objectCounts: map<string, int>) returns (rows: seq<(string, int)>)
    requires forall j :: 0 <= j < |names| ==> names[j] in objectCounts
    ensures RowNames(rows) == names
    ensures forall j :: 0 <= j < |rows| ==> rows[j].1 == objectCounts[names[j]]
  {
    rows := [];
    for i := 0 to |names|
      invariant |rows| == i
      invariant forall j :: 0 <= j < i ==> rows[j] == (names[j], objectCounts[names[j]])
    {
      rows := rows + [(names[i], objectCounts[names[i]])];
    }
  }

  /** The keys of the map, sorted with `sort.Strings`, paired with their
      counts. */
  method ObjectCountRows(objectCounts: map<string, int>) returns (rows: seq<(string, int)>)
    ensures IsCountListing(objectCounts, rows)
    ensures |rows| == |objectCounts|
  {
    var objectSlice := MapKeys(objectCounts);
    var sorted := SortStrings(objectSlice);
    PermutationKeepsDistinct(objectSlice, sorted);
    DistinctSortedIsStrict(sorted);
    assert Elements(sorted) == Elements(objectSlice) by {
      forall x ensures x in Elements(sorted) <==> x in Elements(objectSlice) {
        assert x in Elements(sorted) <==> x in multiset(sorted);
        assert x in Elements(objectSlice) <==> x in multiset(objectSlice);
      }
    }
    assert forall j :: 0 <= j < |sorted| ==> sorted[j] in objectCounts by {
      forall j | 0 <= j < |sorted| ensures sorted[j] in objectCounts {
        assert sorted[j] in Elements(sorted);
      }
    }
    rows := PairWithCounts(sorted, objectCounts);
  }

  /** However the map hands out its keys, the listing is the same: the
      report's object counts are deterministic. */
  lemma CountListingUnique(counts: map<string, int>, rows1: seq<(string, int)>,
                           rows2: seq<(string, int)>)
    requires IsCountListing(counts, rows1) && IsCountListing(counts, rows2)
    ensures rows1 == rows2
  {
    StrictlySortedUnique(RowNames(rows1), RowNames(rows2));
  }

  // ---------------------------------------------------------------------
  // Version gates
  // ---------------------------------------------------------------------

  /** A database version: the text it reports and its semantic version. */
  datatype GPDBVersion = GPDBVersion(versionString: string, semVer: Version)

  /** Why a restore refuses to go on (the program logs it and exits). */
  datatype GateError =
    | InvalidVersion(version: string, reason: ParseError)
    | BackupNewerThanRestore(restoreVersion: string, backupVersion: string)
    | NoVersionNumber(versionString: string)
    | CatalogIncompatible(backupVersion: string, restoreVersion: string)

  /** A backup may be restored by a gprestore that is not older than the
      gpbackup that took it, build metadata not counted. */
  function EnsureBackupVersionCompatibility(backupVersion: string, restoreVersion: string): (r: Outcome<GateError>)
    ensures r.Pass? <==> Parse(backupVersion).Ok? && Parse(restoreVersion).Ok? &&
                         !GreaterThan(Parse(backupVersion).value, Parse(restoreVersion).value)
    ensures Parse(backupVersion).Err? ==> r == Fail(InvalidVersion(backupVersion, Parse(backupVersion).error))
    ensures Parse(backupVersion).Ok? && Parse(restoreVersion).Err? ==>
      r == Fail(InvalidVersion(restoreVersion, Parse(restoreVersion).error))
    ensures Parse(backupVersion).Ok? && Parse(restoreVersion).Ok? && r.Fail? ==>
      r == Fail(BackupNewerThanRestore(restoreVersion, backupVersion))
  {
    match Parse(backupVersion)
    case Err(e) => Fail(InvalidVersion(backupVersion, e))
    case Ok(backupSemVer) =>
      match Parse(restoreVersion)
      case Err(e) => Fail(InvalidVersion(restoreVersion, e))
      case Ok(restoreSemVer) =>
        if GreaterThan(backupSemVer, restoreSemVer) then
          Fail(BackupNewerThanRestore(restoreVersion, backupVersion))
        else Pass
  }

  /** A `+dev` build of gpbackup passes against the release of gprestore
      with the same number. */
  lemma DevBuildIsCompatible(v: Version)
    requires WellFormed(v) && v.build == []
    ensures EnsureBackupVersionCompatibility(Format(v.(build := ["dev"])), Format(v)) == Pass
  {
    var dev := v.(build := ["dev"]);
    assert WellFormed(dev);
    ParseFormat(v);
    ParseFormat(dev);
    CompareAntisymmetric(dev, v);
  }

  /** Of two well-formed versions, at most one is refused against the
      other, and a refusal is never mutual. */
  lemma BackupGateOneWay(a: string, b: string)
    requires Parse(a).Ok? && Parse(b).Ok?
    ensures EnsureBackupVersionCompatibility(a, b).Pass? || EnsureBackupVersionCompatibility(b, a).Pass?
  {
    CompareAntisymmetric(Parse(a).value, Parse(b).value);
  }

  /** Upgrading gprestore never loses a backup it could restore. */
  lemma BackupGateUpgrade(backup: string, restore: string, newer: string)
    requires EnsureBackupVersionCompatibility(backup, restore).Pass?
    requires Parse(newer).Ok? && !GreaterThan(Parse(restore).value, Parse(newer).value)
    ensures EnsureBackupVersionCompatibility(backup, newer).Pass?
  {
    var u, v, w := Parse(backup).value, Parse(restore).value, Parse(newer).value;
    CompareAntisymmetric(u, v);
    CompareAntisymmetric(v, w);
    CompareAntisymmetric(u, w);
    if Compare(u, v) == -1 && Compare(v, w) == -1 {
      CompareTransitive(w, v, u);
    }
  }

  lemma BackupGateExamples()
    ensures EnsureBackupVersionCompatibility("1.2.0", "1.1.0") == Fail(BackupNewerThanRestore("1.1.0", "1.2.0"))
    ensures EnsureBackupVersionCompatibility("1.1.0", "1.2.0") == Pass
    ensures EnsureBackupVersionCompatibility("1.2.3+dev", "1.2.3") == Pass
  {
    var v110, v120, v123 := Version(1, 1, 0, [], []), Version(1, 2, 0, [], []), Version(1, 2, 3, [], []);
    assert Format(v110) == "1.1.0";
    assert Format(v120) == "1.2.0";
    assert Format(v123) == "1.2.3";
    assert Format(v123.(build := ["dev"])) == "1.2.3+dev";
    ParseFormat(v110);
    ParseFormat(v120);
    DevBuildIsCompatible(v123);
  }

  // The pattern `\d+\.\d+\.\d+`, leftmost-first with greedy repetition.

  /** Every character of `s[a..b]` is a digit. */
  predicate DigitsBetween(s: string, a: nat, b: nat)
    requires a <= b <= |s|
  {
    forall k :: a <= k < b ==> IsDigit(s[k])
  }

  /** The end of the run of digits that starts at `i`. */
  function DigitRunEnd(s: string, i: nat): (j: nat)
    requires i <= |s|
    ensures i <= j <= |s| && DigitsBetween(s, i, j)
    ensures j == |s| || !IsDigit(s[j])
    decreases |s| - i
  {
    if i < |s| && IsDigit(s[i]) then DigitRunEnd(s, i + 1) else i
  }

  /** `s[i..e]` is three non-empty runs of digits separated by two dots. */
  ghost predicate TripleAt(s: string, i: nat, e: nat)
    requires i <= e <= |s|
  {
    exists p, q :: i < p && p + 1 < q && q + 1 < e && s[p] == '.' && s[q] == '.' &&
                   DigitsBetween(s, i, p) && DigitsBetween(s, p + 1, q) && DigitsBetween(s, q + 1, e)
  }

  /** A run of digits ended by the end of the text or a non-digit is the
      run `DigitRunEnd` finds. */
  lemma DigitRunEndIs(s: string, i: nat, m: nat)
    requires i <= m <= |s| && DigitsBetween(s, i, m)
    requires m == |s| || !IsDigit(s[m])
    ensures DigitRunEnd(s, i) == m
  {
  }

  /** Where the match that starts at `i` ends: the first two runs must be
      whole runs followed by a dot, and the last run is taken whole. */
  function TripleEndAt(s: string, i: nat): (r: Option<nat>)
    requires i <= |s|
    ensures r.Some? ==> i < r.value <= |s| && TripleAt(s, i, r.value) &&
                        (r.value == |s| || !IsDigit(s[r.value]))
  {
    var j := DigitRunEnd(s, i);
    if j == i || j == |s| || s[j] != '.' then None
    else
      var k := DigitRunEnd(s, j + 1);
      if k == j + 1 || k == |s| || s[k] != '.' then None
      else
        var l := DigitRunEnd(s, k + 1);
        if l == k + 1 then None
        else
          assert DigitsBetween(s, i, j) && DigitsBetween(s, j + 1, k) && DigitsBetween(s, k + 1, l);
          Some(l)
  }

  /** Whenever a triple starts at `i`, `TripleEndAt` finds a match there:
      backtracking into a shorter run never helps the pattern. */
  lemma TripleEndAtComplete(s: string, i: nat, e: nat)
    requires i <= e <= |s| && TripleAt(s, i, e)
    ensures TripleEndAt(s, i).Some?
  {
    var p, q :| i < p && p + 1 < q && q + 1 < e && s[p] == '.' && s[q] == '.' &&
                DigitsBetween(s, i, p) && DigitsBetween(s, p + 1, q) && DigitsBetween(s, q + 1, e);
    DigitRunEndIs(s, i, p);
    DigitRunEndIs(s, p + 1, q);
    assert IsDigit(s[q + 1]);
  }

  /** The leftmost match at or after `from`, as its start and end. */
  function FindTripleFrom(s: string, from: nat): (r: Option<(nat, nat)>)
    requires from <= |s|
    ensures r.Some? ==> from <= r.value.0 <= |s| && TripleEndAt(s, r.value.0) == Some(r.value.1)
    ensures r.Some? ==> forall p :: from <= p < r.value.0 ==> TripleEndAt(s, p).None?
    ensures r.None? ==> forall p :: from <= p <= |s| ==> TripleEndAt(s, p).None?
    decreases |s| - from
  {
    match TripleEndAt(s, from)
    case Some(e) => Some((from, e))
    case None => if from == |s| then None else FindTripleFrom(s, from + 1)
  }

  /** The match found is the leftmost triple in the text, and there is a
      match whenever the text holds a triple anywhere. */
  lemma FindTripleLeftmost(s: string)
    ensures forall p, e :: 0 <= p <= e <= |s| && TripleAt(s, p, e) ==>
      FindTripleFrom(s, 0).Some? && FindTripleFrom(s, 0).value.0 <= p
  {
    forall p, e | 0 <= p <= e <= |s| && TripleAt(s, p, e)
      ensures FindTripleFrom(s, 0).Some? && FindTripleFrom(s, 0).value.0 <= p
    {
      TripleEndAtComplete(s, p, e);
    }
  }

  /** The backup's database may be restored into one whose major version
      is not lower; the first `X.Y.Z` in the backup's version text is the
      one compared. A text without one makes the program panic. */
  function EnsureDatabaseVersionCompatibility(backupGPDBVersion: string,
                                              restoreGPDBVersion: GPDBVersion): (r: Outcome<GateError>)
    ensures (forall i, e :: 0 <= i <= e <= |backupGPDBVersion| ==> !TripleAt(backupGPDBVersion, i, e)) ==>
      r == Fail(NoVersionNumber(backupGPDBVersion))
    ensures r.Pass? ==>
      exists i, e ::
        0 <= i < e <= |backupGPDBVersion| && TripleAt(backupGPDBVersion, i, e) &&
        Parse(backupGPDBVersion[i..e]).Ok? &&
        Parse(backupGPDBVersion[i..e]).value.major <= restoreGPDBVersion.semVer.major
    ensures FindTripleFrom(backupGPDBVersion, 0).None? ==> r == Fail(NoVersionNumber(backupGPDBVersion))
    ensures FindTripleFrom(backupGPDBVersion, 0).Some? ==>
      var (i, e) := FindTripleFrom(backupGPDBVersion, 0).value;
      var first := backupGPDBVersion[i..e];
      (Parse(first).Err? ==> r == Fail(InvalidVersion(first, Parse(first).error))) &&
      (Parse(first).Ok? ==>
        (r.Pass? <==> Parse(first).value.major <= restoreGPDBVersion.semVer.major) &&
        (r.Fail? ==> r == Fail(CatalogIncompatible(backupGPDBVersion, restoreGPDBVersion.versionString))))
  {
    var found := FindTripleFrom(backupGPDBVersion, 0);
    if found.None? then Fail(NoVersionNumber(backupGPDBVersion))
    else
      var (i, e) := found.value;
      var threeDigitVersion := backupGPDBVersion[i..e];
      match Parse(threeDigitVersion)
      case Err(err) => Fail(InvalidVersion(threeDigitVersion, err))
      case Ok(backupGPDBSemVer) =>
        if backupGPDBSemVer.major > restoreGPDBVersion.semVer.major then
          Fail(CatalogIncompatible(backupGPDBVersion, restoreGPDBVersion.versionString))
        else Pass
  }

  /** `MAJOR.MINOR.` and digits parse as a plain version, or fail on the
      first field with a leading zero. */
  lemma ParsePlainTriple(a: string, b: string, c: string)
    requires AllDigits(a) && AllDigits(b) && AllDigits(c) && a != [] && b != [] && c != []
    ensures !HasLeadingZeroes(a) && !HasLeadingZeroes(b) && !HasLeadingZeroes(c) ==>
      Parse(a + "." + b + "." + c) == Ok(Version(DigitsValue(a), DigitsValue(b), DigitsValue(c), [], []))
    ensures HasLeadingZeroes(a) ==> Parse(a + "." + b + "." + c) == Err(LeadingZeroes(a))
  {
    ParseDottedPrefix(a, b, c);
    if ParseNumber(a).Ok? && ParseNumber(b).Ok? {
      assert '+' !in c && '-' !in c;
      SplitOffAbsent(c, '+');
      SplitOffAbsent(c, '-');
    }
  }

  /** A position that holds no digit starts no match. */
  lemma NoMatchAtNonDigit(s: string, x: nat)
    requires x < |s| && !IsDigit(s[x])
    ensures TripleEndAt(s, x).None?
  {
    assert DigitRunEnd(s, x) == x;
  }

  /** A match at `o` with none before it is the one the search finds. */
  lemma LeftmostMatchIs(s: string, o: nat, l: nat)
    requires o <= |s| && TripleEndAt(s, o) == Some(l)
    requires forall x :: 0 <= x < o ==> TripleEndAt(s, x).None?
    ensures FindTripleFrom(s, 0) == Some((o, l))
  {
  }

  /** Three whole digit runs at `o..j`, `j+1..k` and `k+1..l`, with dots at
      `j` and `k`, are the match at `o`. */
  lemma TripleEndAtRuns(s: string, o: nat, j: nat, k: nat, l: nat)
    requires o < j && j + 1 < k && k + 1 < l <= |s|
    requires s[j] == '.' && s[k] == '.'
    requires DigitsBetween(s, o, j) && DigitsBetween(s, j + 1, k) && DigitsBetween(s, k + 1, l)
    requires l == |s| || !IsDigit(s[l])
    ensures TripleEndAt(s, o) == Some(l)
  {
    DigitRunEndIs(s, o, j);
    DigitRunEndIs(s, j + 1, k);
    DigitRunEndIs(s, k + 1, l);
  }

  /** A digit string placed at `o` is a run of digits there. */
  lemma DigitsPlaced(s: string, o: nat, t: string)
    requires AllDigits(t) && o + |t| <= |s| && s[o..o + |t|] == t
    ensures DigitsBetween(s, o, o + |t|)
  {
    forall x | o <= x < o + |t|
      ensures IsDigit(s[x])
    {
      assert s[x] == t[x - o];
    }
  }

  /** No digit before `o` and the three runs from `o` on: the leftmost
      match is the one at `o`. */
  lemma FirstTripleAtRuns(s: string, o: nat, j: nat, k: nat, l: nat)
    requires o < j && j + 1 < k && k + 1 < l <= |s|
    requires forall x :: 0 <= x < o ==> !IsDigit(s[x])
    requires s[j] == '.' && s[k] == '.'
    requires DigitsBetween(s, o, j) && DigitsBetween(s, j + 1, k) && DigitsBetween(s, k + 1, l)
    requires l == |s| || !IsDigit(s[l])
    ensures FindTripleFrom(s, 0) == Some((o, l))
  {
    TripleEndAtRuns(s, o, j, k, l);
    forall x | 0 <= x < o
      ensures TripleEndAt(s, x).None?
    {
      NoMatchAtNonDigit(s, x);
    }
    LeftmostMatchIs(s, o, l);
  }

  /** Where the pieces of `p + a.b.c + rest` sit in the text. */
  lemma TripleLayout(p: string, a: string, b: string, c: string, rest: string)
    ensures var s := p + a + "." + b + "." + c + rest;
      var j := |p| + |a|;
      var k := j + 1 + |b|;
      var l := k + 1 + |c|;
      l <= |s| && s[|p|..j] == a && s[j] == '.' && s[j + 1..k] == b && s[k] == '.' && s[k + 1..l] == c &&
      s[|p|..l] == a + "." + b + "." + c && s[l..] == rest && s[..|p|] == p
  {
    var t := a + "." + b + "." + c;
    var s := p + t + rest;
    assert s == p + a + "." + b + "." + c + rest;
    var j, k, l := |p| + |a|, |p| + |a| + 1 + |b|, |p| + |t|;
    assert s[|p|..l] == t && s[l..] == rest && s[..|p|] == p;
    assert t[..|a|] == a && t[|a|] == '.';
    assert t[|a| + 1..|a| + 1 + |b|] == b && t[|a| + 1 + |b|] == '.';
    assert t[|a| + 1 + |b| + 1..] == c;
  }

  /** The positions of `p + a.b.c + rest` that the search looks at: no
      digit before the triple, three digit runs with dots between them, and
      no digit right after the last run. */
  lemma FirstTripleRuns(p: string, a: string, b: string, c: string, rest: string)
    requires forall x :: 0 <= x < |p| ==> !IsDigit(p[x])
    requires AllDigits(a) && AllDigits(b) && AllDigits(c) && a != [] && b != [] && c != []
    requires rest == [] || !IsDigit(rest[0])
    ensures var s := p + a + "." + b + "." + c + rest;
      var o := |p|;
      var j := o + |a|;
      var k := j + 1 + |b|;
      var l := k + 1 + |c|;
      o < j && j + 1 < k && k + 1 < l <= |s| && s[j] == '.' && s[k] == '.' &&
      (forall x :: 0 <= x < o ==> !IsDigit(s[x])) &&
      DigitsBetween(s, o, j) && DigitsBetween(s, j + 1, k) && DigitsBetween(s, k + 1, l) &&
      (l == |s| || !IsDigit(s[l])) && s[o..l] == a + "." + b + "." + c
  {
    var s := p + a + "." + b + "." + c + rest;
    var o := |p|;
    var j := o + |a|;
    var k := j + 1 + |b|;
    var l := k + 1 + |c|;
    TripleLayout(p, a, b, c, rest);
    DigitsPlaced(s, o, a);
    DigitsPlaced(s, j + 1, b);
    DigitsPlaced(s, k + 1, c);
    if l < |s| {
      assert s[l] == s[l..][0] == rest[0];
    }
    forall x | 0 <= x < o
      ensures !IsDigit(s[x])
    {
      assert s[x] == s[..o][x] == p[x];
    }
  }

  /** The gate on a text whose first match spans `o..l` and reads as
      `MAJOR.MINOR.PATCH`: only that major number decides. */
  lemma DatabaseGateOnRuns(s: string, o: nat, j: nat, k: nat, l: nat, v: Version, restore: GPDBVersion)
    requires o < j && j + 1 < k && k + 1 < l <= |s|
    requires forall x :: 0 <= x < o ==> !IsDigit(s[x])
    requires s[j] == '.' && s[k] == '.'
    requires DigitsBetween(s, o, j) && DigitsBetween(s, j + 1, k) && DigitsBetween(s, k + 1, l)
    requires l == |s| || !IsDigit(s[l])
    requires Parse(s[o..l]) == Ok(v)
    ensures EnsureDatabaseVersionCompatibility(s, restore) ==
      if v.major > restore.semVer.major then Fail(CatalogIncompatible(s, restore.versionString))
      else Pass
  {
    FirstTripleAtRuns(s, o, j, k, l);
  }

  /** A version text whose first digit starts `MAJOR.MINOR.PATCH` (the
      patch run ended by the end of the text or a character that is not a
      digit) is judged by that major number alone, whatever follows. */
  lemma DatabaseGateOnFirstTriple(p: string, a: string, b: string, c: string, rest: string,
                                  restore: GPDBVersion)
    requires forall x :: 0 <= x < |p| ==> !IsDigit(p[x])
    requires AllDigits(a) && AllDigits(b) && AllDigits(c) && a != [] && b != [] && c != []
    requires !HasLeadingZeroes(a) && !HasLeadingZeroes(b) && !HasLeadingZeroes(c)
    requires rest == [] || !IsDigit(rest[0])
    ensures var s := p + a + "." + b + "." + c + rest;
      EnsureDatabaseVersionCompatibility(s, restore) ==
        if DigitsValue(a) > restore.semVer.major then Fail(CatalogIncompatible(s, restore.versionString))
        else Pass
  {
    var s := p + a + "." + b + "." + c + rest;
    var o := |p|;
    var j := o + |a|;
    var k := j + 1 + |b|;
    var l := k + 1 + |c|;
    FirstTripleRuns(p, a, b, c, rest);
    ParsePlainTriple(a, b, c);
    DatabaseGateOnRuns(s, o, j, k, l, Version(DigitsValue(a), DigitsValue(b), DigitsValue(c), [], []), restore);
  }

  lemma DatabaseGateExamples()
    ensures EnsureDatabaseVersionCompatibility("6.5.0 build 123", GPDBVersion("5.0.0", Version(5, 0, 0, [], [])))
            == Fail(CatalogIncompatible("6.5.0 build 123", "5.0.0"))
    ensures EnsureDatabaseVersionCompatibility("6.5.0 build 123", GPDBVersion("6.0.0", Version(6, 0, 0, [], [])))
            == Pass
  {
    assert "6.5.0 build 123" == "" + "6" + "." + "5" + "." + "0" + " build 123";
    assert DigitsValue("6") == 6;
    DatabaseGateOnFirstTriple("", "6", "5", "0", " build 123", GPDBVersion("5.0.0", Version(5, 0, 0, [], [])));
    DatabaseGateOnFirstTriple("", "6", "5", "0", " build 123", GPDBVersion("6.0.0", Version(6, 0, 0, [], [])));
  }

  /** Only the first triple counts: a later one that would pass does not
      rescue the text. */
  lemma DatabaseGateFirstTripleWins()
    ensures EnsureDatabaseVersionCompatibility("9.0.0 x 5.0.0", GPDBVersion("5.0.0", Version(5, 0, 0, [], [])))
            == Fail(CatalogIncompatible("9.0.0 x 5.0.0", "5.0.0"))
  {
    assert "9.0.0 x 5.0.0" == "" + "9" + "." + "0" + "." + "0" + " x 5.0.0";
    assert DigitsValue("9") == 9;
    DatabaseGateOnFirstTriple("", "9", "0", "0", " x 5.0.0", GPDBVersion("5.0.0", Version(5, 0, 0, [], [])));
  }
}
