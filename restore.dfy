/** The redirect step of a restore (`restore/wrappers.go`): the global
    statements read from the table of contents have the backed-up database's
    name replaced by the name of the database being restored into. */
module Restore {
  import opened Wrappers
  import opened Strings

  /** A statement from the table of contents and its object-type tag. */
  datatype StatementWithType = StatementWithType(objectType: string, statement: string)

  /** The tags of the statements that name the database itself. */
  const GlobalObjectTypes: seq<string> := ["SESSION GUCS", "DATABASE GUC", "DATABASE", "DATABASE METADATA"]

  /** The map lookup `shouldReplace[objectType]`, false for a missing key. */
  predicate ShouldReplace(objectType: string)
  {
    objectType in GlobalObjectTypes
  }

  /** The three endings the pattern `DATABASE <name>(;| OWNER| SET)` allows,
      tried in this order. */
  const Terminators: seq<string> := [";", " OWNER", " SET"]

  /** `s` starts with `DATABASE <name>` followed by `suffix`. */
  predicate StartsWithMention(s: string, name: string, suffix: string)
    ensures StartsWithMention(s, name, suffix) ==> |s| > 0 && s[0] == 'D'
  {
    var m := "DATABASE " + name + suffix;
    |m| <= |s| && s[..|m|] == m
  }

  /** The ending of a match of the pattern at the start of `s`, if any. */
  function MatchAt(s: string, name: string): (r: Option<string>)
    ensures r.Some? ==> r.value in Terminators && StartsWithMention(s, name, r.value)
    ensures r.None? <==> !StartsWithMention(s, name, ";") && !StartsWithMention(s, name, " OWNER") &&
                         !StartsWithMention(s, name, " SET")
    ensures r.Some? ==> |s| > 0 && s[0] == 'D'
  {
    if StartsWithMention(s, name, ";") then Some(";")
    else if StartsWithMention(s, name, " OWNER") then Some(" OWNER")
    else if StartsWithMention(s, name, " SET") then Some(" SET")
    else None
  }

  /** `ReplaceAllString` with the name taken literally: from left to right,
      each match `DATABASE <original><t>` becomes `DATABASE <target><t>`
      and the scan goes on after it; all other text is copied. Redirecting
      to the original name gives the text back unchanged. */
  function RedirectText(s: string, original: string, target: string): (r: string)
    ensures original == target ==> r == s
    decreases |s|
  {
    if s == [] then []
    else
      match MatchAt(s, original)
      case Some(t) =>
        var m := "DATABASE " + original + t;
        assert s == s[..|m|] + s[|m|..];
        "DATABASE " + target + t + RedirectText(s[|m|..], original, target)
      case None =>
        assert s == [s[0]] + s[1..];
        [s[0]] + RedirectText(s[1..], original, target)
  }

  /** The redirect pattern for `original` starts at no position of `s`. */
  ghost predicate NoMatchAnywhere(s: string, original: string)
  {
    forall k :: 0 <= k < |s| ==> MatchAt(s[k..], original).None?
  }

  /** How many matches `RedirectText` replaces. Each one uses up at least
      `DATABASE ` and a one-character ending, so there are at most a tenth
      as many as the text has characters. */
  function MatchCount(s: string, original: string): (n: nat)
    ensures 10 * n <= |s|
    decreases |s|
  {
    if s == [] then 0
    else
      match MatchAt(s, original)
      case Some(t) => 1 + MatchCount(s[|"DATABASE " + original + t|..], original)
      case None => MatchCount(s[1..], original)
  }

  /** No replacement is made exactly when the pattern starts at no position
      of the text. */
  lemma {:induction false} MatchCountZero(s: string, original: string)
    ensures MatchCount(s, original) == 0 <==> NoMatchAnywhere(s, original)
    decreases |s|
  {
    if s != [] {
      NoMatchAnywhereStep(s, original);
      if MatchAt(s, original).None? {
        MatchCountZero(s[1..], original);
      }
    }
  }

  /** A text has no match anywhere when its first position has none and
      its tail has none anywhere. */
  lemma NoMatchAnywhereStep(s: string, original: string)
    requires s != []
    ensures NoMatchAnywhere(s, original) <==>
      MatchAt(s, original).None? && NoMatchAnywhere(s[1..], original)
  {
    assert s[0..] == s;
    assert forall k :: 0 <= k < |s| - 1 ==> s[1..][k..] == s[k + 1..];
    if MatchAt(s, original).None? && NoMatchAnywhere(s[1..], original) {
      forall k | 0 <= k < |s|
        ensures MatchAt(s[k..], original).None?
      {
        if k > 0 {
          assert s[1..][k - 1..] == s[k..];
        }
      }
    }
  }

  /** A text in which the pattern occurs nowhere is copied unchanged,
      whatever the target. */
  lemma {:induction false} RedirectWithoutMatch(s: string, original: string, target: string)
    requires MatchCount(s, original) == 0
    ensures RedirectText(s, original, target) == s
    decreases |s|
  {
    if s != [] {
      assert MatchAt(s, original).None?;
      RedirectWithoutMatch(s[1..], original, target);
      assert s == [s[0]] + s[1..];
    }
  }

  /** The length bookkeeping of one replacement: the rewritten head is `d`
      longer than the `consumed` characters it replaces. */
  lemma LengthStep(redirected: int, total: int, count: int, consumed: int, restRedirected: int, rest: int,
                   c: int, d: int)
    requires restRedirected == rest + c * d
    requires redirected == consumed + d + restRedirected
    requires total == consumed + rest && count == 1 + c
    ensures redirected == total + count * d
  {
    assert count * d == d + c * d;
  }

  /** Each replacement trades the original name for the target, so the
      text grows by the difference in length once per match. */
  lemma {:induction false} RedirectLength(s: string, original: string, target: string)
    ensures |RedirectText(s, original, target)| ==
            |s| + MatchCount(s, original) * (|target| - |original|)
    decreases |s|
  {
    if s != [] {
      match MatchAt(s, original)
      case Some(t) =>
        var consumed := |"DATABASE " + original + t|;
        var rest := s[consumed..];
        RedirectLength(rest, original, target);
        LengthStep(|RedirectText(s, original, target)|, |s|, MatchCount(s, original), consumed,
                   |RedirectText(rest, original, target)|, |rest|, MatchCount(rest, original),
                   |target| - |original|);
      case None =>
        RedirectLength(s[1..], original, target);
        assert MatchCount(s, original) == MatchCount(s[1..], original);
    }
  }

  /** A text in which `DATABASE` never occurs has no match. */
  lemma {:induction false} NoKeywordNoMatch(s: string, original: string)
    requires 'D' !in s
    ensures MatchCount(s, original) == 0
    decreases |s|
  {
    if s != [] {
      assert s[0] != 'D';
      NoKeywordNoMatch(s[1..], original);
    }
  }

  /** Text before the first `D` is copied as it is. */
  lemma {:induction false} RedirectCopiesPrefix(p: string, s: string, original: string, target: string)
    requires 'D' !in p
    ensures RedirectText(p + s, original, target) == p + RedirectText(s, original, target)
    decreases |p|
  {
    if p != [] {
      assert (p + s)[0] == p[0] && p[0] != 'D';
      assert MatchAt(p + s, original).None?;
      assert (p + s)[1..] == p[1..] + s;
      assert p == [p[0]] + p[1..];
      assert RedirectText(p + s, original, target) == [p[0]] + RedirectText(p[1..] + s, original, target);
      RedirectCopiesPrefix(p[1..], s, original, target);
    } else {
      assert p + s == s;
    }
  }

  /** A text that is one match and nothing else is one replacement. */
  lemma RedirectSingleMatch()
    ensures RedirectText("DATABASE foo;", "foo", "bar2") == "DATABASE bar2;"
  {
    var tail := "DATABASE foo;";
    assert "DATABASE " + "foo" + ";" == tail;
    assert StartsWithMention(tail, "foo", ";");
    assert tail[|tail|..] == [];
    assert RedirectText(tail, "foo", "bar2") == "DATABASE " + "bar2" + ";" + RedirectText([], "foo", "bar2");
  }

  /** How the `CREATE DATABASE` example splits at its match. */
  lemma CreateStatementPieces()
    ensures 'D' !in "CREATE "
    ensures "CREATE DATABASE foo;" == "CREATE " + "DATABASE foo;"
    ensures "CREATE DATABASE bar2;" == "CREATE " + "DATABASE bar2;"
  {
  }

  /** `CREATE DATABASE foo;` is redirected to `bar2`. */
  lemma RedirectCreateDatabase()
    ensures RedirectText("CREATE DATABASE foo;", "foo", "bar2") == "CREATE DATABASE bar2;"
  {
    CreateStatementPieces();
    RedirectSingleMatch();
    RedirectCopiesPrefix("CREATE ", "DATABASE foo;", "foo", "bar2");
  }

  /** A statement that mentions other names only is left alone. */
  lemma RedirectLeavesOtherStatements()
    ensures RedirectText("GRANT ALL ON bar.baz TO x;", "foo", "bar2") == "GRANT ALL ON bar.baz TO x;"
  {
    NoKeywordNoMatch("GRANT ALL ON bar.baz TO x;", "foo");
    RedirectWithoutMatch("GRANT ALL ON bar.baz TO x;", "foo", "bar2");
  }

  /** One statement after substitution: only the four global tags are
      rewritten, and the tag itself never changes. */
  function Substituted(st: StatementWithType, original: string, target: string): (r: StatementWithType)
    ensures r.objectType == st.objectType
    ensures !ShouldReplace(st.objectType) ==> r == st
    ensures ShouldReplace(st.objectType) ==> r.statement == RedirectText(st.statement, original, target)
  {
    if ShouldReplace(st.objectType) then st.(statement := RedirectText(st.statement, original, target))
    else st
  }

  /** The whole list after substitution. */
  function SubstitutedAll(statements: seq<StatementWithType>, original: string, target: string): (r: seq<StatementWithType>)
    ensures |r| == |statements|
    ensures forall i :: 0 <= i < |r| ==> r[i] == Substituted(statements[i], original, target)
  {
    seq(|statements|, i requires 0 <= i < |statements| => Substituted(statements[i], original, target))
  }

  /** Redirecting to the backed-up name gives back every statement as read. */
  lemma SubstituteSameNameIsIdentity(statements: seq<StatementWithType>, name: string)
    ensures SubstitutedAll(statements, name, name) == statements
  {
    assert forall i :: 0 <= i < |statements| ==> SubstitutedAll(statements, name, name)[i] == statements[i];
  }

  /** Rewrites the eligible statements in place and hands back the same
      array. */
  method SubstituteRedirectDatabaseInStatements(statements: array<StatementWithType>,
                                                originalDatabase: string, redirect: string)
    returns (result: array<StatementWithType>)
    modifies statements
    ensures result == statements
    ensures statements[..] == SubstitutedAll(old(statements[..]), originalDatabase, redirect)
  {
    for i := 0 to statements.Length
      invariant forall j :: 0 <= j < i ==>
        statements[j] == Substituted(old(statements[j]), originalDatabase, redirect)
      invariant forall j :: i <= j < statements.Length ==> statements[j] == old(statements[j])
    {
      if ShouldReplace(statements[i].objectType) {
        statements[i] := statements[i].(statement := RedirectText(statements[i].statement, originalDatabase, redirect));
      }
    }
    result := statements;
  }

  /** The global statements to replay: any requested types select the four
      global tags (whichever types were named), none selects every entry;
      the statements are rewritten only when a redirect name is given.
      `readByTypes` and `readAll` stand for the table-of-contents reads. */
  method GetGlobalStatements(objectTypes: seq<string>,
                             readByTypes: seq<string> -> seq<StatementWithType>,
                             readAll: seq<StatementWithType>,
                             originalDatabase: string, redirect: string)
    returns (statements: array<StatementWithType>)
    ensures fresh(statements)
    ensures var selected := if |objectTypes| > 0 then readByTypes(GlobalObjectTypes) else readAll;
      statements[..] == if redirect != "" then SubstitutedAll(selected, originalDatabase, redirect) else selected
  {
    var selected: seq<StatementWithType>;
    if |objectTypes| > 0 {
      selected := readByTypes(GlobalObjectTypes);
    } else {
      selected := readAll;
    }
    statements := new StatementWithType[|selected|](i requires 0 <= i < |selected| => selected[i]);
    if redirect != "" {
      statements := SubstituteRedirectDatabaseInStatements(statements, originalDatabase, redirect);
    }
  }
}
