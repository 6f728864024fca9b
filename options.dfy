/** Table filters of gpbackup/gprestore: checking `schema.table` names,
    splitting them, and widening the table include list with the partition
    tables the catalog reports (options/options.go). */
module Options {
  import opened Wrappers
  import opened Strings

  /** A table name split into its schema and its table part. */
  datatype FqnStruct = FqnStruct(schemaName: string, tableName: string)

  /** The errors the name checks report; each names the offending entry. */
  datatype FqnError =
    | EmbeddedDots(fqn: string)          // more than one dot
    | MissingDot(fqn: string)            // no dot at all
    | MissingSchemaOrTable(fqn: string)  // one dot, but an empty side
    | NotFullyQualified(fqn: string)     // rejected by the shape pattern

  /** `fmt.Sprintf("%s.%s", schema, table)`. */
  function Qualified(f: FqnStruct): string
  {
    f.schemaName + "." + f.tableName
  }

  /** Exactly one dot, with text on both sides of it. */
  predicate IsSchemaDotTable(fqn: string)
  {
    0 < |fqn| && Count(fqn, '.') == 1 && fqn[0] != '.' && fqn[|fqn| - 1] != '.'
  }

  /** Which of the three complaints a malformed name draws. */
  function ExpectedFqnError(fqn: string): FqnError
  {
    if Count(fqn, '.') > 1 then EmbeddedDots(fqn)
    else if Count(fqn, '.') == 0 then MissingDot(fqn)
    else MissingSchemaOrTable(fqn)
  }

  /** A name with a single dot splits into the text before and after it;
      the first piece is empty exactly when the name starts with the dot,
      the second exactly when it ends with it. */
  lemma SplitOneDot(fqn: string)
    requires Count(fqn, '.') == 1
    ensures var parts := Split(fqn, '.');
      |parts| == 2 && fqn == parts[0] + "." + parts[1] &&
      (parts[0] == "" <==> fqn[0] == '.') &&
      (parts[1] == "" <==> fqn[|fqn| - 1] == '.')
  {
    var parts := Split(fqn, '.');
    assert Join(parts[1..], '.') == parts[1];
    assert fqn == parts[0] + "." + parts[1];
    if parts[0] != "" {
      assert fqn[0] == parts[0][0];
      assert parts[0][0] in parts[0];
    }
    if parts[1] != "" {
      assert fqn[|fqn| - 1] == parts[1][|parts[1]| - 1];
      assert parts[1][|parts[1]| - 1] in parts[1];
    }
  }

  /** `SeparateSchemaAndTable`: every name must have exactly one dot with
      text on both sides. The names are split in order; the first malformed
      one stops the scan and is named in the error. */
  method SeparateSchemaAndTable(tableNames: seq<string>) returns (r: Result<seq<FqnStruct>, FqnError>)
    ensures r.Ok? <==> forall i :: 0 <= i < |tableNames| ==> IsSchemaDotTable(tableNames[i])
    ensures r.Ok? ==> |r.value| == |tableNames|
    ensures r.Ok? ==> forall i :: 0 <= i < |tableNames| ==>
      Qualified(r.value[i]) == tableNames[i] &&
      r.value[i].schemaName != "" && '.' !in r.value[i].schemaName &&
      r.value[i].tableName != "" && '.' !in r.value[i].tableName
    ensures r.Err? ==>
      exists i :: 0 <= i < |tableNames| &&
        (forall j :: 0 <= j < i ==> IsSchemaDotTable(tableNames[j])) &&
        !IsSchemaDotTable(tableNames[i]) && r.error == ExpectedFqnError(tableNames[i])
  {
    var fqnSlice: seq<FqnStruct> := [];
    for i := 0 to |tableNames|
      invariant |fqnSlice| == i
      invariant forall j :: 0 <= j < i ==> IsSchemaDotTable(tableNames[j])
      invariant forall j :: 0 <= j < i ==>
        Qualified(fqnSlice[j]) == tableNames[j] &&
        fqnSlice[j].schemaName != "" && '.' !in fqnSlice[j].schemaName &&
        fqnSlice[j].tableName != "" && '.' !in fqnSlice[j].tableName
    {
      var fqn := tableNames[i];
      var parts := Split(fqn, '.');
      if |parts| > 2 {
        return Err(EmbeddedDots(fqn));
      }
      if |parts| < 2 {
        return Err(MissingDot(fqn));
      }
      SplitOneDot(fqn);
      var schema := parts[0];
      var table := parts[1];
      if schema == "" || table == "" {
        return Err(MissingSchemaOrTable(fqn));
      }
      fqnSlice := fqnSlice + [FqnStruct(schema, table)];
    }
    return Ok(fqnSlice);
  }

  /** What the anchored pattern `^.+\..+$` accepts: `.` matches any
      character but a newline, so the name has no newline and a dot with
      at least one character before it and one after it. */
  ghost predicate MatchesFqnPattern(fqn: string)
  {
    '\n' !in fqn && exists k :: 0 < k < |fqn| - 1 && fqn[k] == '.'
  }

  /** The pattern test, computed directly. */
  function FqnPatternMatch(fqn: string): (b: bool)
    ensures b <==> MatchesFqnPattern(fqn)
  {
    var b := '\n' !in fqn && |fqn| >= 3 && '.' in fqn[1..|fqn| - 1];
    assert b ==> exists k :: 0 < k < |fqn| - 1 && fqn[k] == '.' by {
      if b {
        var m :| 0 <= m < |fqn[1..|fqn| - 1]| && fqn[1..|fqn| - 1][m] == '.';
        assert fqn[m + 1] == '.';
      }
    }
    assert MatchesFqnPattern(fqn) ==> b by {
      if MatchesFqnPattern(fqn) {
        var k :| 0 < k < |fqn| - 1 && fqn[k] == '.';
        assert fqn[1..|fqn| - 1][k - 1] == '.';
      }
    }
    b
  }

  /** `ValidateCharacters`: an empty list passes; otherwise every entry must
      match the pattern, and the first one that does not is named. */
  method ValidateCharacters(tableList: seq<string>) returns (r: Outcome<FqnError>)
    ensures r.Pass? <==> forall i :: 0 <= i < |tableList| ==> MatchesFqnPattern(tableList[i])
    ensures r.Fail? ==>
      exists i :: 0 <= i < |tableList| &&
        (forall j :: 0 <= j < i ==> MatchesFqnPattern(tableList[j])) &&
        !MatchesFqnPattern(tableList[i]) && r.error == NotFullyQualified(tableList[i])
  {
    if |tableList| == 0 {
      return Pass;
    }
    for i := 0 to |tableList|
      invariant forall j :: 0 <= j < i ==> MatchesFqnPattern(tableList[j])
    {
      if !FqnPatternMatch(tableList[i]) {
        return Fail(NotFullyQualified(tableList[i]));
      }
    }
    return Pass;
  }

  lemma {:induction false} CountPositiveHasWitness(s: string, c: char)
    requires Count(s, c) > 0
    ensures exists k :: 0 <= k < |s| && s[k] == c
  {
    if s[0] != c {
      CountPositiveHasWitness(s[1..], c);
      var k :| 0 <= k < |s[1..]| && s[1..][k] == c;
      assert s[k + 1] == c;
    }
  }

  /** Every name that `SeparateSchemaAndTable` accepts and that has no
      newline also passes `ValidateCharacters`. */
  lemma SeparableNamesMatchPattern(fqn: string)
    requires IsSchemaDotTable(fqn) && '\n' !in fqn
    ensures MatchesFqnPattern(fqn)
  {
    CountPositiveHasWitness(fqn, '.');
    var k :| 0 <= k < |fqn| && fqn[k] == '.';
    assert 0 < k < |fqn| - 1;
  }

  /** The converse fails: `a.b.c` passes the pattern but has embedded dots. */
  lemma NestedNameOnlyPassesPattern()
    ensures MatchesFqnPattern("a.b.c")
    ensures !IsSchemaDotTable("a.b.c") && ExpectedFqnError("a.b.c") == EmbeddedDots("a.b.c")
  {
    assert "a.b.c"[1] == '.';
    assert Count("a.b.c", '.') == 2 by {
      assert "a.b.c"[1..] == ".b.c";
      assert ".b.c"[1..] == "b.c";
      assert "b.c"[1..] == ".c";
      assert ".c"[1..] == "c";
      assert "c"[1..] == "";
    }
  }

  /** The set of names `fmt.Sprintf("%s.%s", ...)` makes of catalog rows. */
  function RowFqns(rows: seq<FqnStruct>): set<string>
  {
    set i | 0 <= i < |rows| :: Qualified(rows[i])
  }

  /** The set arithmetic of `ExpandIncludesForPartitions`: the names of the
      catalog rows that are not yet included, each once. The order is that
      of a Go map iteration, which is unspecified; here it is an arbitrary
      choice. */
  method FqnDifference(included: seq<string>, catalogRows: seq<FqnStruct>) returns (diff: seq<string>)
    ensures Distinct(diff)
    ensures Elements(diff) == RowFqns(catalogRows) - Elements(included)
  {
    var includeSet := IncludeSet(included);
    var allFqnSet := FqnSet(catalogRows);
    diff := [];
    var remaining := allFqnSet;
    while remaining != {}
      invariant remaining <= allFqnSet
      invariant Distinct(diff)
      invariant Elements(diff) == (allFqnSet - remaining) - includeSet
      decreases |remaining|
    {
      var key :| key in remaining;
      if key !in includeSet {
        AppendFresh(diff, key);
        diff := diff + [key];
      }
      remaining := remaining - {key};
    }
  }

  lemma AppendFresh(diff: seq<string>, key: string)
    requires Distinct(diff) && key !in Elements(diff)
    ensures Distinct(diff + [key])
    ensures Elements(diff + [key]) == Elements(diff) + {key}
  {
    ElementsAppend(diff, key);
  }

  /** The `includeSet` map of `ExpandIncludesForPartitions`, as a set. */
  method IncludeSet(included: seq<string>) returns (includeSet: set<string>)
    ensures includeSet == Elements(included)
  {
    includeSet := {};
    for i := 0 to |included|
      invariant includeSet == Elements(included[..i])
    {
      includeSet := includeSet + {included[i]};
      ElementsAppend(included[..i], included[i]);
      assert included[..i + 1] == included[..i] + [included[i]];
    }
    assert included[..|included|] == included;
  }

  /** The `allFqnSet` map of `ExpandIncludesForPartitions`, as a set. */
  method FqnSet(catalogRows: seq<FqnStruct>) returns (allFqnSet: set<string>)
    ensures allFqnSet == RowFqns(catalogRows)
  {
    allFqnSet := {};
    for i := 0 to |catalogRows|
      invariant allFqnSet == RowFqns(catalogRows[..i])
    {
      allFqnSet := allFqnSet + {Qualified(catalogRows[i])};
      RowFqnsAppend(catalogRows[..i], catalogRows[i]);
      assert catalogRows[..i + 1] == catalogRows[..i] + [catalogRows[i]];
    }
    assert catalogRows[..|catalogRows|] == catalogRows;
  }

  lemma RowFqnsAppend(rows: seq<FqnStruct>, row: FqnStruct)
    ensures RowFqns(rows + [row]) == RowFqns(rows) + {Qualified(row)}
  {
    var extended := rows + [row];
    assert forall j :: 0 <= j < |rows| ==> extended[j] == rows[j];
    assert extended[|rows|] == row;
  }

  /** The parsed command-line options. Only `AddIncludedRelation` and the
      partition expansion change them after construction. */
  class Options {
    var includedRelations: seq<string>
    var excludedRelations: seq<string>
    var isLeafPartitionData: bool
    var excludedSchemas: seq<string>
    var includedSchemas: seq<string>
    var originalIncludedRelations: seq<string>
    var redirectSchema: string
    var backupDir: string
    var pluginConfig: string
    var timestamp: string
    var redirectDB: string
    var createDB: bool
    var withGlobals: bool
    var withStats: bool
    var onErrorContinue: bool
    var incremental: bool
    var dataOnly: bool
    var metadataOnly: bool
    var jobs: int
    var quiet: bool
    var debug: bool
    var verbose: bool

    /** The record `NewOptions` builds from the flag values; the original
        include list is the include list as it was at construction. */
    constructor (includedRelations: seq<string>, excludedRelations: seq<string>,
                 includedSchemas: seq<string>, excludedSchemas: seq<string>,
                 leafPartitionData: bool, redirectSchema: string, backupDir: string,
                 pluginConfig: string, timestamp: string, redirectDB: string,
                 createDB: bool, withGlobals: bool, withStats: bool, incremental: bool,
                 dataOnly: bool, metadataOnly: bool, jobs: int, quiet: bool,
                 debug: bool, verbose: bool, onErrorContinue: bool)
      ensures this.includedRelations == includedRelations
      ensures this.originalIncludedRelations == includedRelations
      ensures this.excludedRelations == excludedRelations
      ensures this.includedSchemas == includedSchemas
      ensures this.excludedSchemas == excludedSchemas
      ensures this.isLeafPartitionData == leafPartitionData
      ensures this.redirectSchema == redirectSchema && this.backupDir == backupDir
      ensures this.pluginConfig == pluginConfig && this.timestamp == timestamp
      ensures this.redirectDB == redirectDB && this.createDB == createDB
      ensures this.withGlobals == withGlobals && this.withStats == withStats
      ensures this.incremental == incremental && this.dataOnly == dataOnly
      ensures this.metadataOnly == metadataOnly && this.jobs == jobs
      ensures this.quiet == quiet && this.debug == debug && this.verbose == verbose
      ensures this.onErrorContinue == onErrorContinue
    {
      this.includedRelations := includedRelations;
      this.excludedRelations := excludedRelations;
      this.includedSchemas := includedSchemas;
      this.excludedSchemas := excludedSchemas;
      this.isLeafPartitionData := leafPartitionData;
      this.originalIncludedRelations := includedRelations;
      this.redirectSchema := redirectSchema;
      this.backupDir := backupDir;
      this.pluginConfig := pluginConfig;
      this.timestamp := timestamp;
      this.redirectDB := redirectDB;
      this.createDB := createDB;
      this.withGlobals := withGlobals;
      this.withStats := withStats;
      this.incremental := incremental;
      this.dataOnly := dataOnly;
      this.metadataOnly := metadataOnly;
      this.jobs := jobs;
      this.quiet := quiet;
      this.debug := debug;
      this.verbose := verbose;
      this.onErrorContinue := onErrorContinue;
    }

    function GetIncludedTables(): seq<string>
      reads this
    {
      includedRelations
    }

    function GetOriginalIncludedTables(): seq<string>
      reads this
    {
      originalIncludedRelations
    }

    function GetExcludedTables(): seq<string>
      reads this
    {
      excludedRelations
    }

    function IsLeafPartitionData(): bool
      reads this
    {
      isLeafPartitionData
    }

    function GetIncludedSchemas(): seq<string>
      reads this
    {
      includedSchemas
    }

    function GetExcludedSchemas(): seq<string>
      reads this
    {
      excludedSchemas
    }

    /** Appends one name to the include list; the list kept from
        construction, like every other field, stays as it was. */
    method AddIncludedRelation(relation: string)
      modifies this`includedRelations
      ensures GetIncludedTables() == old(GetIncludedTables()) + [relation]
      ensures GetOriginalIncludedTables() == old(GetOriginalIncludedTables())
    {
      includedRelations := includedRelations + [relation];
    }

    /** `ExpandIncludesForPartitions`, given the rows the catalog query
        returns. With an empty include list nothing happens. Otherwise the
        list must split into schema and table names (the check
        `QuoteTableNames` makes before quoting), and then every catalog name
        not yet included is appended once, after the untouched original
        entries. */
    method ExpandIncludesForPartitions(catalogRows: seq<FqnStruct>) returns (r: Outcome<FqnError>)
      modifies this`includedRelations
      ensures old(includedRelations) == [] ==> r.Pass? && includedRelations == old(includedRelations)
      ensures old(includedRelations) != [] ==>
        (r.Pass? <==> forall i :: 0 <= i < |old(includedRelations)| ==> IsSchemaDotTable(old(includedRelations)[i]))
      ensures r.Fail? ==> includedRelations == old(includedRelations)
      ensures r.Pass? ==>
        |old(includedRelations)| <= |includedRelations| &&
        includedRelations[..|old(includedRelations)|] == old(includedRelations)
      ensures r.Pass? && old(includedRelations) != [] ==>
        var added := includedRelations[|old(includedRelations)|..];
        Distinct(added) && Elements(added) == RowFqns(catalogRows) - Elements(old(includedRelations))
      ensures r.Pass? && old(includedRelations) != [] ==> RowFqns(catalogRows) <= Elements(includedRelations)
      ensures r.Pass? && RowFqns(catalogRows) <= Elements(old(includedRelations)) ==>
        includedRelations == old(includedRelations)
      ensures originalIncludedRelations == old(originalIncludedRelations)
    {
      if |GetIncludedTables()| == 0 {
        return Pass;
      }
      var split := SeparateSchemaAndTable(GetIncludedTables());
      if split.Err? {
        return Fail(split.error);
      }
      var diff := FqnDifference(GetIncludedTables(), catalogRows);
      ghost var before := includedRelations;
      for i := 0 to |diff|
        invariant includedRelations == before + diff[..i]
      {
        AddIncludedRelation(diff[i]);
        assert diff[..i + 1] == diff[..i] + [diff[i]];
      }
      assert diff[..|diff|] == diff;
      assert includedRelations[|before|..] == diff;
      assert Elements(includedRelations) == Elements(before) + Elements(diff) by {
        assert includedRelations == before + diff;
      }
      assert diff != [] ==> diff[0] in Elements(diff);
      return Pass;
    }

    /** `schemaFilterClause`: the fixed exclusion of system schemas,
        followed by at most one schema-list condition; the exclude list wins
        over the include list. `quoteList` is `utils.SliceToQuotedString`. */
    function SchemaFilterClause(namespace: string, quoteList: seq<string> -> string): (clause: string)
      reads this
      ensures |SystemSchemaExclusions(namespace)| < |clause| &&
        clause[..|SystemSchemaExclusions(namespace)|] == SystemSchemaExclusions(namespace)
      ensures excludedSchemas != [] ==>
        clause == SystemSchemaExclusions(namespace) + " " + SchemaListCondition(namespace, "NOT IN", quoteList(excludedSchemas))
      ensures excludedSchemas == [] && includedSchemas != [] ==>
        clause == SystemSchemaExclusions(namespace) + " " + SchemaListCondition(namespace, "IN", quoteList(includedSchemas))
      ensures excludedSchemas == [] && includedSchemas == [] ==>
        clause == SystemSchemaExclusions(namespace) + " "
    {
      var system := SystemSchemaExclusions(namespace);
      var listCondition :=
        if |GetExcludedSchemas()| > 0 then SchemaListCondition(namespace, "NOT IN", quoteList(GetExcludedSchemas()))
        else if |GetIncludedSchemas()| > 0 then SchemaListCondition(namespace, "IN", quoteList(GetIncludedSchemas()))
        else "";
      assert (system + " " + listCondition)[..|system|] == system;
      system + " " + listCondition
    }
  }

  /** The schemas never backed up: temporary and toast schemas and the
      five system schemas. */
  function SystemSchemaExclusions(namespace: string): string
  {
    namespace + ".nspname NOT LIKE 'pg_temp_%' AND " +
    namespace + ".nspname NOT LIKE 'pg_toast%' AND " +
    namespace + ".nspname NOT IN ('gp_toolkit', 'information_schema', 'pg_aoseg', 'pg_bitmapindex', 'pg_catalog')"
  }

  /** `\nAND <ns>.nspname <op> (<list>)`. */
  function SchemaListCondition(namespace: string, op: string, quotedList: string): string
  {
    "\nAND " + namespace + ".nspname " + op + " (" + quotedList + ")"
  }

  /** `ExtensionFilterClause`: excludes objects that belong to an
      extension; the column is `oid` without a namespace and `<ns>.oid`
      with one. */
  function ExtensionFilterClause(namespace: string): (clause: string)
    ensures namespace == "" ==> clause == "oid" + ExtensionExclusion
    ensures namespace != "" ==> clause == namespace + ".oid" + ExtensionExclusion
  {
    var oidStr := if namespace != "" then namespace + ".oid" else "oid";
    oidStr + ExtensionExclusion
  }

  const ExtensionExclusion := " NOT IN (select objid from pg_depend where deptype = 'e')"
}
