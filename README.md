# gpbackup filters, report and redirect, modelled in Dafny

This project models three small pieces of gpbackup/gprestore, the
Greenplum backup and restore tools. All three work on strings and lists
and need no database to reason about.

- **Table filters** (`options/options.go`):
  - the `schema.table` parser `SeparateSchemaAndTable` and its three errors;
  - the shape check `ValidateCharacters`, which implements the pattern `^.+\..+$`;
  - the partition expansion `ExpandIncludesForPartitions`. It appends every
    catalog table name not yet in the include list, through
    `AddIncludedRelation`;
  - the options record with its getters;
  - the WHERE-clause builders `schemaFilterClause` and `ExtensionFilterClause`.
- **Backup report and version gates** (`utils/report.go`):
  - `ParseErrorMessage`;
  - `SetBackupTypeFromFlags`, which writes the backup-type line and sets
    configuration flags;
  - the text of `WriteReportFile`, including its status line and its sorted
    object-count listing;
  - `EnsureBackupVersionCompatibility`, which compares gpbackup and
    gprestore versions by Semantic Versioning 2.0.0 precedence (section 11);
  - `EnsureDatabaseVersionCompatibility`, which takes the first
    `\d+\.\d+\.\d+` of the backup's database version and compares only the
    major number.
- **Redirect** (`restore/wrappers.go`):
  - `SubstituteRedirectDatabaseInStatements` rewrites
    `DATABASE <name>(;| OWNER| SET)`, in place, in the statements tagged
    with one of the four global object types;
  - `GetGlobalStatements` picks the statements to read and decides whether
    to redirect.

The modules follow the code's layout:

| Module | File | Contents |
|---|---|---|
| `Wrappers` | `wrappers.dfy` | `Option`, `Result` and `Outcome` values. They stand in for Go's `(value, error)` returns and for `logger.Fatal`, `CheckError` and panics. |
| `Strings` | `strings.dfy` | The parts of Go's `strings` and `sort` packages that the code uses: `Split`, `Join`, `Index` (-1 when absent), byte-order comparison and `sort.Strings`. |
| `Options` | `options.dfy` | The `Options` class, whose `includedRelations` field the partition expansion updates in place, and the name checks and clause builders. |
| `SemVer` | `semver.dfy` | Semantic versions: parsing in the order `semver.Make` splits them, section 11 precedence, and a formatter with a parse/format round trip. |
| `Report` | `report.dfy` | The `Report` class, `BackupConfig`, the report text and the two version gates. |
| `Restore` | `restore.dfy` | The redirect rewrite, over an `array` of statements, and the global-statement dispatch. |

Some inputs come from outside the code modelled here. They become
parameters:

- the catalog rows returned by the partition query;
- `utils.SliceToQuotedString`;
- `os.Args` and the report's timestamp;
- the backed-up database name (`backupConfig.DatabaseName`) and the
  `--redirect-db` flag (`*redirect`);
- the two table-of-contents reads in `GetGlobalStatements`.

Go's map iteration order is unspecified. The model makes it an arbitrary
choice (`:|`) and states only what holds for every order.

## Model

| member | source | states |
|---|---|---|
| Strings.Split | options/options.go:303 | `strings.Split`: one more part than there are separators, no part holds a separator, and joining the parts gives the input back |
| Strings.SplitJoin | options/options.go:303 | splitting undoes joining when no part holds the separator |
| Strings.IndexOf | utils/report.go:45 | `strings.Index`: the position of the first occurrence, or -1 exactly when there is none |
| Strings.IndexOfChar | utils/report.go:45 | for a one-character pattern: -1 iff the character is absent, otherwise the position of its first occurrence |
| Strings.SprintfTemplate | utils/report.go:95-115 | `fmt.Sprintf` with `%s` verbs: filling a template of labels with one value per gap gives the labels with each value in its gap |
| Strings.SprintfMissing | utils/report.go:114-115 | a `%s` with no argument left prints `%!s(MISSING)` |
| Strings.SortStrings | utils/report.go:122 | `sort.Strings`: the output is sorted in byte order and is a permutation of the input |
| Strings.LessTransitive | utils/report.go:122 | the byte order on strings is transitive (with LessIrreflexive, LessAsymmetric and LessTotal, a strict total order) |
| Strings.StrictlySortedUnique | utils/report.go:118-122 | two strictly sorted lists with the same elements are equal |
| Options.SplitOneDot | options/options.go:303-314 | a name with one dot splits into the text before and after it; a piece is empty exactly when the dot is at that end |
| Options.SeparateSchemaAndTable | options/options.go:300-325 | succeeds iff every entry has exactly one dot with text on both sides; on success, the same length and order, and schema + "." + table is the entry; on failure, the first bad entry is named with the embedded-dots, missing-dot or missing-schema-or-table error its dot count selects |
| Options.FqnPatternMatch | options/options.go:332-334 | the direct test agrees with the meaning of `^.+\..+$` (no newline, a dot with a character on each side) in both directions |
| Options.ValidateCharacters | options/options.go:327-340 | the empty list passes; otherwise passes iff every entry matches the pattern, and a failure names the first entry that does not |
| Options.SeparableNamesMatchPattern | options/options.go:300-340 | every name the parser accepts (and that has no newline) also passes the pattern |
| Options.NestedNameOnlyPassesPattern | options/options.go:304-305 | `a.b.c` passes the pattern but draws the embedded-dots error from the parser |
| Options.FqnDifference | options/options.go:357-375 | the difference list holds each catalog name that is not included, once, and nothing else |
| Options.IncludeSet | options/options.go:357-360 | the include set is the set of the include list's entries |
| Options.FqnSet | options/options.go:362-366 | the catalog set is the set of `schema.table` names of the rows |
| Options.Options.constructor | options/options.go:178-201 | every field takes its flag value; the original include list is the include list |
| Options.Options.AddIncludedRelation | options/options.go:258-260 | appends exactly one name at the end; the original include list and every other field stay as they were |
| Options.Options.ExpandIncludesForPartitions | options/options.go:342-386 | an empty include list: no error and no change; otherwise passes iff every entry splits; a failure changes nothing; after success the old list is a prefix, followed by exactly the distinct catalog names not in it; every catalog name is then included; when all catalog names are already included nothing changes; the original list is untouched |
| Options.Options.SchemaFilterClause | options/options.go:488-497 | always starts with the system-schema exclusions; the `NOT IN` exclude condition wins over the `IN` include condition; with neither list only the exclusions and a space are returned |
| Options.ExtensionFilterClause | options/options.go:499-506 | the column is `oid` for an empty namespace and `<ns>.oid` otherwise |
| SemVer.Parse | utils/report.go:141-143 | `semver.Make`, splitting as the library does (major and minor up to the first two dots, build after the first `+`, pre-release after the first `-` before it) and checking the numbers and identifiers as sections 2, 9 and 10 of Semantic Versioning 2.0.0 require: a non-empty text without a dot is the missing-major-minor-patch error, and every version accepted is well formed and formats back to exactly the input text |
| SemVer.ParseTail | utils/report.go:141-143 | the part after the minor number: the version it yields keeps the given major and minor, is well formed, and its patch, pre-release and build texts put together are exactly that part |
| SemVer.ParseFormat | utils/report.go:141-143 | parsing the text of a well-formed version gives back that version, build metadata included |
| SemVer.NatToDigitsValue | utils/report.go:141 | the decimal text of a number has no leading zero and reads back as the number |
| SemVer.DigitsCanonical | utils/report.go:141-143 | a run of digits without a leading zero is the decimal text of its value |
| SemVer.Compare | utils/report.go:145 | returns -1, 0 or 1: -1 iff the first version has lower precedence by the rules of section 11 of Semantic Versioning 2.0.0 (core numbers in order, then a pre-release below the release, then the pre-release identifiers field by field), 1 iff the second has, and 0 iff only their build metadata differs |
| SemVer.GreaterThan | utils/report.go:145 | `GT`: true iff the second version has lower precedence than the first |
| SemVer.ComparePrereleaseLess | utils/report.go:145 | the field-by-field pre-release comparison returns -1 iff the first list is lower by section 11.4 of Semantic Versioning 2.0.0: at the first differing identifier numbers sort below text, numbers by value, text in byte order, and a shorter list that is a prefix of the other sorts first |
| SemVer.CompareAntisymmetric | utils/report.go:145 | precedence is antisymmetric, and two versions compare equal exactly when only their build metadata differs |
| SemVer.CompareTransitive | utils/report.go:145 | precedence (`GT`) is transitive |
| SemVer.ComparePrereleaseTransitive | utils/report.go:145 | pre-release comparison (section 11.4 of Semantic Versioning 2.0.0) is transitive |
| Report.ParseErrorMessage | utils/report.go:40-49 | an empty string gives `("", 0)`; otherwise the code is 1 and the message is the text after the first `[CRITICAL]:-`; without a header, the text from index 11 on, or a slice panic on a shorter text |
| Report.ParseErrorMessageAfterHeader | utils/report.go:44-48 | whatever precedes the first header, the text after it is returned |
| Report.SectionOf | utils/report.go:63-71 | Metadata-Only iff `ddlOnly`, Data-Only iff `dataOnly` without `ddlOnly`, otherwise no section word |
| Report.BackupTypeTextInjective | utils/report.go:52-76 | distinct settings give distinct backup-type lines |
| Report.Report.constructor | utils/report.go:34-38 | the report holds the given type, size and configuration |
| Report.Report.SetBackupTypeFromFlags | utils/report.go:51-77 | the backup type is "filter compress Full[section] Backup[stats]" for the flags given; schema-filtered, compressed, data-only and metadata-only are raised when their condition holds and never lowered; nothing else changes |
| Report.BackupStatus | utils/report.go:109-113 | "Failure" iff the error message is non-empty, and then the line "Backup Error: <msg>" |
| Report.ReportHeader | utils/report.go:95-115 | the report template filled in: its labels, with the timestamp, database version, gpbackup version, database name, command line, backup type, `Success` or `Failure`, the error line (empty on success) and the database size in the nine gaps |
| Report.PadRight | utils/report.go:124 | `%-29s`: the name, then spaces up to width 29 |
| Report.IntText | utils/report.go:124 | `%d`: digits without a leading zero that read back as the number, with a minus sign below zero |
| Report.MapKeys | utils/report.go:118-121 | collects every map key exactly once, in an unspecified order |
| Report.PairWithCounts | utils/report.go:123-126 | pairs each name with its count, in the order given |
| Report.ObjectCountRows | utils/report.go:117-126 | the listing holds each object type once, in strictly ascending byte order, each with its count |
| Report.CountListingUnique | utils/report.go:118-126 | only one listing meets that description, so the output does not depend on the map's order |
| Report.CountLine | utils/report.go:124 | `%-29s%d\n`: the name, spaces up to column 29, the count in decimal, a newline; a name without a newline makes exactly one line |
| Report.CountLines | utils/report.go:123-126 | when no object type holds a newline, the listing has exactly one line per row |
| Report.CountLinesAppend | utils/report.go:123-126 | adding one row adds its line at the end |
| Report.WriteCountSection | utils/report.go:117-126 | the object-count part is the heading followed by one line per row |
| Report.Report.WriteReportFile | utils/report.go:94-128 | the report is the filled template followed by the count section of an ordered listing of the counts |
| Report.EnsureBackupVersionCompatibility | utils/report.go:140-149 | passes iff both versions parse and the backup's precedence is not greater; an unparsable version is reported, the backup's first; otherwise the refusal names both versions |
| Report.DevBuildIsCompatible | utils/report.go:130-139 | `X.Y.Z+dev` passes against `X.Y.Z`, for every well-formed `X.Y.Z` |
| Report.BackupGateOneWay | utils/report.go:145-148 | of two parsable versions, at least one direction passes |
| Report.BackupGateUpgrade | utils/report.go:145-148 | a backup that a gprestore accepts is accepted by any gprestore that is not older |
| Report.BackupGateExamples | utils/report.go:140-149 | `("1.2.0","1.1.0")` fails naming both, `("1.1.0","1.2.0")` passes, `"1.2.3+dev"` against `"1.2.3"` passes |
| Report.DigitRunEnd | utils/report.go:152 | the end of the maximal run of digits starting at a position |
| Report.DigitRunEndIs | utils/report.go:152 | a digit run ended by a non-digit or by the end of the text is that maximal run |
| Report.TripleEndAt | utils/report.go:152-153 | a match at a position is three digit runs separated by two dots, with the last run taken whole |
| Report.TripleEndAtComplete | utils/report.go:152-153 | wherever a triple starts, a match is found there (backtracking into a shorter run never succeeds) |
| Report.FindTripleFrom | utils/report.go:152-153 | the match found is at the leftmost position that has one, and there is none when no position has one |
| Report.FindTripleLeftmost | utils/report.go:152-153 | if the text holds a triple anywhere, the match is found at or before it |
| Report.EnsureDatabaseVersionCompatibility | utils/report.go:151-159 | only the leftmost `X.Y.Z` match is used: with no match, the no-version-number panic; when that match does not parse, its parse error; otherwise a pass iff its major number is not above the restore major, and a refusal names both versions |
| Report.ParsePlainTriple | utils/report.go:153-154 | `a.b.c` of digits parses to that version, or fails with the leading-zeroes error on the first field |
| Report.DatabaseGateOnFirstTriple | utils/report.go:151-159 | for a text made of digit-free text, then `MAJOR.MINOR.PATCH` (no leading zeroes), then anything not starting with a digit, only the major number decides: the catalog-incompatibility error when it is above the restore major, otherwise a pass, whatever the minor and patch numbers and whatever follows |
| Report.DatabaseGateExamples | utils/report.go:151-159 | `"6.5.0 build 123"` fails against major 5 and passes against major 6 |
| Report.DatabaseGateFirstTripleWins | utils/report.go:151-159 | in `"9.0.0 x 5.0.0"` the first triple decides: it fails against major 5 although the later `5.0.0` would pass |
| Restore.StartsWithMention | restore/wrappers.go:53 | a mention begins with the letter `D` of `DATABASE` |
| Restore.MatchAt | restore/wrappers.go:53 | a match at the start of the text is `DATABASE <name>` and one of `;`, ` OWNER`, ` SET`; there is none iff no ending fits |
| Restore.RedirectText | restore/wrappers.go:53-56 | `ReplaceAllString` of `DATABASE <name>` followed by `;`, ` OWNER` or ` SET`, the name taken literally: redirecting to the original name leaves the text unchanged |
| Restore.MatchCount | restore/wrappers.go:53-56 | the number of replacements; each uses at least ten characters, so there are at most a tenth as many as the text is long |
| Restore.MatchCountZero | restore/wrappers.go:53-56 | no replacement is made exactly when the pattern starts at no position of the text |
| Restore.RedirectWithoutMatch | restore/wrappers.go:53-56 | text without a match is unchanged, whatever the target |
| Restore.RedirectLength | restore/wrappers.go:53-56 | the text grows by (target length − original length) once per match |
| Restore.NoKeywordNoMatch | restore/wrappers.go:53 | a text without `D` has no match |
| Restore.RedirectCopiesPrefix | restore/wrappers.go:56 | text before the first `D` is copied as it is |
| Restore.RedirectCreateDatabase | restore/wrappers.go:53-56 | `CREATE DATABASE foo;` becomes `CREATE DATABASE bar2;` |
| Restore.RedirectLeavesOtherStatements | restore/wrappers.go:53-56 | `GRANT ALL ON bar.baz TO x;` is untouched when `foo` is redirected |
| Restore.Substituted | restore/wrappers.go:51-56 | the object type is kept; only the four global tags are rewritten, and other statements are unchanged |
| Restore.SubstitutedAll | restore/wrappers.go:54-58 | the same length, with each statement substituted on its own |
| Restore.SubstituteSameNameIsIdentity | restore/wrappers.go:50-60 | redirecting to the backed-up name returns every statement as read |
| Restore.SubstituteRedirectDatabaseInStatements | restore/wrappers.go:50-60 | the array is rewritten in place, element by element as above, and the same array is returned |
| Restore.GetGlobalStatements | restore/wrappers.go:62-75 | any requested types select the four global tags, whichever were named; none selects every entry; statements are rewritten iff the redirect name is non-empty |

The getters of `Options.Options` (`GetIncludedTables`,
`GetOriginalIncludedTables`, `GetExcludedTables`, `IsLeafPartitionData`,
`GetIncludedSchemas`, `GetExcludedSchemas`, options/options.go:234-256) are
plain field reads. The contracts above use them.

## Left out

- backup/wrappers.go: catalog queries, locking, printers and logging are orchestration. The sorting routines it calls live in files that are not part of this model.
- `NewOptions` and `setFiltersFromFile`: they read flags and files. The constructor takes the values they produce.
- `QuoteTableNames`, `getUserTableRelationsWithIncludeFiltering` and `getOidsFromRelationList`: they run SQL on a live connection. The model keeps only the name check `QuoteTableNames` makes, and takes the partition query's rows as a parameter.
- The `flags.Set` call in `ExpandIncludesForPartitions` (options/options.go:378), and the errors from the connection: these are outside effects.
- Options.Options.ExpandIncludesForPartitions: a failure names the entry as written. Go names it after `EscapeSingleQuotes` has doubled its single quotes, because `utils.EscapeSingleQuotes` is not part of this model.
- `ReadConfigFile` and `WriteConfigFile`: YAML encoding and file I/O.
- `ConstructEmailMessage` and `EmailReport`: the hostname, environment variables, a shell and sendmail.
- `SetLoggerVerbosity`, `InitializeConnection` and `InitializeBackupConfig`: logger and connection setup. The two version gates they call are modelled.
- The table-of-contents readers `GetSQLStatementForObjectTypes`, `GetAllSQLStatements` and `MustOpenFileForReaderAt`: they are not part of this model and become parameters of `GetGlobalStatements`.
- `StatementWithType`: the model keeps only the object type and the statement text, the two fields the rewrite reads and writes.
- Process exit: `logger.Fatal`, `CheckError` and Go panics become error values.
- Strings.Sprintf: only the `%s` verb is modelled, and a format is taken as already split into its literal text and its `%s` verbs, so Go's parsing of the format string is not modelled. A surplus argument (Go's `%!(EXTRA …)`) is not modelled either, because every call modelled here passes exactly one argument per verb.
- Report.Report.WriteReportFile: the writer becomes the returned text. `MustPrintf` uses the count section as a format string, so a `%` in an object-type name would be read as a verb.
- Report.ParseErrorMessage: Go's `strings.Index` counts bytes. The model counts characters, which agree on ASCII text.
- Report.PadRight: Go's `%-29s` counts code points. The model counts characters.
- SemVer.Parse: the `blang/semver` library is not part of this model. Parsing follows the grammar of sections 2, 9 and 10 of Semantic Versioning 2.0.0, in the order `semver.Make` checks. Numbers are unbounded, so the library's `uint64` overflow error is not modelled.
- Restore.RedirectText: a `$` in the redirect name would be expanded by Go's `ReplaceAllString` template. The model copies the name literally.
- `SetBackupTypeFromFlags` is called with three arguments at backup/wrappers.go:41. The model follows the five-parameter signature at utils/report.go:51.
