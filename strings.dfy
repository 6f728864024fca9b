/** The parts of Go's `strings` and `sort` packages that the modelled code
    relies on: splitting at a separator, finding a substring, and the
    byte-wise ordering `sort.Strings` uses. A Go string is modelled as a
    sequence of characters. */
module Strings {

  /** Number of occurrences of `c` in `s`. */
  function Count(s: string, c: char): nat
  {
    if s == [] then 0 else (if s[0] == c then 1 else 0) + Count(s[1..], c)
  }

  /** `strings.Join(parts, string(sep))`. */
  function Join(parts: seq<string>, sep: char): string
  {
    if |parts| == 0 then ""
    else if |parts| == 1 then parts[0]
    else parts[0] + [sep] + Join(parts[1..], sep)
  }

  /** `strings.Split(s, string(sep))`: the pieces of `s` between the
      occurrences of `sep`; there is always one more piece than there are
      separators, and joining the pieces gives `s` back. */
  function Split(s: string, sep: char): (parts: seq<string>)
    ensures |parts| == Count(s, sep) + 1
    ensures forall i :: 0 <= i < |parts| ==> sep !in parts[i]
    ensures Join(parts, sep) == s
  {
    if s == [] then [""]
    else
      var rest := Split(s[1..], sep);
      if s[0] == sep then
        assert s == [sep] + s[1..];
        [""] + rest
      else
        var parts := [[s[0]] + rest[0]] + rest[1..];
        assert parts[1..] == rest[1..];
        assert s == [s[0]] + s[1..];
        parts
  }

  /** Splitting a string that has no separator gives the string itself. */
  lemma SplitWithoutSeparator(s: string, sep: char)
    requires sep !in s
    ensures Split(s, sep) == [s]
  {
    assert Count(s, sep) == 0 by { CountAbsent(s, sep); }
    var parts := Split(s, sep);
    assert Join(parts, sep) == parts[0];
  }

  lemma {:induction false} CountAbsent(s: string, c: char)
    requires c !in s
    ensures Count(s, c) == 0
  {
    if s != [] {
      assert s == [s[0]] + s[1..];
      CountAbsent(s[1..], c);
    }
  }

  /** Occurrences in a concatenation add up. */
  lemma {:induction false} CountAppend(a: string, b: string, c: char)
    ensures Count(a + b, c) == Count(a, c) + Count(b, c)
  {
    if a == [] {
      assert a + b == b;
    } else {
      assert (a + b)[1..] == a[1..] + b;
      CountAppend(a[1..], b, c);
    }
  }

  /** One piece of a `fmt` format: literal text, or the verb `%s`. */
  datatype FormatPiece = Text(text: string) | StringVerb

  /** `fmt.Sprintf` for a format whose only verb is `%s`: text is copied,
      each `%s` takes the next argument, or becomes `%!s(MISSING)` when
      none is left. */
  function Sprintf(format: seq<FormatPiece>, args: seq<string>): string
    decreases |format|
  {
    if format == [] then ""
    else
      match format[0]
      case Text(t) => t + Sprintf(format[1..], args)
      case StringVerb =>
        if args == [] then "%!s(MISSING)" + Sprintf(format[1..], [])
        else args[0] + Sprintf(format[1..], args[1..])
  }

  /** A format made of literal labels with a `%s` between each two. */
  function Template(labels: seq<string>): (format: seq<FormatPiece>)
    requires labels != []
  {
    if |labels| == 1 then [Text(labels[0])] else [Text(labels[0]), StringVerb] + Template(labels[1..])
  }

  /** The labels with the values in the gaps between them. */
  function Interleave(labels: seq<string>, values: seq<string>): string
    requires |labels| == |values| + 1
  {
    if values == [] then labels[0] else labels[0] + values[0] + Interleave(labels[1..], values[1..])
  }

  /** Filling a template with one value per gap puts each value in its
      gap. */
  lemma {:induction false} SprintfTemplate(labels: seq<string>, values: seq<string>)
    requires |labels| == |values| + 1
    ensures Sprintf(Template(labels), values) == Interleave(labels, values)
  {
    if values == [] {
      assert Sprintf([Text(labels[0])], []) == labels[0] + Sprintf([], []);
    } else {
      var rest := Template(labels[1..]);
      var format := [Text(labels[0]), StringVerb] + rest;
      assert format[1..] == [StringVerb] + rest;
      assert ([StringVerb] + rest)[1..] == rest;
      SprintfTemplate(labels[1..], values[1..]);
    }
  }

  /** Every `%s` past the last argument is reported as missing. */
  lemma SprintfMissing(before: string, after: string)
    ensures Sprintf(Template([before, after]), []) == before + "%!s(MISSING)" + after
  {
    var format := [Text(before), StringVerb] + [Text(after)];
    assert format[1..] == [StringVerb, Text(after)];
    assert format[1..][1..] == [Text(after)];
    assert Sprintf([Text(after)], []) == after + Sprintf([], []);
  }

  /** A separator ends the first piece. */
  lemma {:induction false} SplitAtSeparator(a: string, sep: char, b: string)
    requires sep !in a
    ensures Split(a + [sep] + b, sep) == [a] + Split(b, sep)
  {
    if a == [] {
      assert a + [sep] + b == [sep] + b;
      assert ([sep] + b)[1..] == b;
    } else {
      assert (a + [sep] + b)[1..] == a[1..] + [sep] + b;
      SplitAtSeparator(a[1..], sep, b);
      assert [a[0]] + a[1..] == a;
    }
  }

  /** Split undoes Join when no part contains the separator. */
  lemma {:induction false} SplitJoin(parts: seq<string>, sep: char)
    requires |parts| >= 1
    requires forall i :: 0 <= i < |parts| ==> sep !in parts[i]
    ensures Split(Join(parts, sep), sep) == parts
  {
    if |parts| == 1 {
      SplitWithoutSeparator(parts[0], sep);
    } else {
      SplitJoin(parts[1..], sep);
      SplitAtSeparator(parts[0], sep, Join(parts[1..], sep));
    }
  }

  /** `pat` occurs in `s` at position `k`. */
  predicate OccursAt(s: string, pat: string, k: int)
  {
    0 <= k && k + |pat| <= |s| && s[k..k + |pat|] == pat
  }

  /** The first occurrence of `pat` in `s` at or after `from`, or -1. */
  function IndexFrom(s: string, pat: string, from: nat): (r: int)
    requires from <= |s|
    ensures r == -1 || (from <= r && OccursAt(s, pat, r))
    ensures r != -1 ==> forall k :: from <= k < r ==> !OccursAt(s, pat, k)
    ensures r == -1 ==> forall k :: from <= k <= |s| ==> !OccursAt(s, pat, k)
    decreases |s| - from
  {
    if from + |pat| > |s| then -1
    else if s[from..from + |pat|] == pat then from
    else if from == |s| then -1
    else IndexFrom(s, pat, from + 1)
  }

  /** `strings.Index(s, pat)`: the first position of `pat` in `s`, or -1. */
  function IndexOf(s: string, pat: string): (r: int)
    ensures r == -1 || OccursAt(s, pat, r)
    ensures r != -1 ==> forall k :: 0 <= k < r ==> !OccursAt(s, pat, k)
    ensures r == -1 <==> forall k :: 0 <= k <= |s| ==> !OccursAt(s, pat, k)
  {
    var r := IndexFrom(s, pat, 0);
    assert r != -1 ==> OccursAt(s, pat, r) && r <= |s|;
    r
  }

  /** For a single character, `strings.IndexRune(s, c)`. */
  lemma IndexOfChar(s: string, c: char)
    ensures IndexOf(s, [c]) == -1 <==> c !in s
    ensures IndexOf(s, [c]) != -1 ==>
      s[IndexOf(s, [c])] == c && c !in s[..IndexOf(s, [c])]
  {
    var r := IndexOf(s, [c]);
    if c in s {
      var k :| 0 <= k < |s| && s[k] == c;
      assert OccursAt(s, [c], k);
    }
    if r != -1 {
      assert s[r..r + 1] == [c];
      assert s[r] == s[r..r + 1][0];
      forall k | 0 <= k < r ensures s[k] != c {
        assert !OccursAt(s, [c], k);
        assert s[k..k + 1] == [s[k]];
      }
    }
  }

  /** The first `c` in `s` is at `r` when `s[r]` is `c` and no earlier
      character is. */
  lemma IndexOfCharIs(s: string, c: char, r: int)
    requires 0 <= r < |s| && s[r] == c && c !in s[..r]
    ensures IndexOf(s, [c]) == r
  {
    IndexOfChar(s, c);
    assert s[r..r + 1] == [c];
  }

  /** Go's `<` on strings: byte-wise lexicographic order. Code-point order
      of characters agrees with the byte order of their UTF-8 encodings. */
  predicate Less(a: string, b: string)
  {
    if a == [] then b != []
    else if b == [] then false
    else if a[0] != b[0] then a[0] < b[0]
    else Less(a[1..], b[1..])
  }

  lemma {:induction false} LessIrreflexive(a: string)
    ensures !Less(a, a)
  {
    if a != [] {
      LessIrreflexive(a[1..]);
    }
  }

  lemma {:induction false} LessAsymmetric(a: string, b: string)
    ensures !(Less(a, b) && Less(b, a))
  {
    if a != [] && b != [] && a[0] == b[0] {
      LessAsymmetric(a[1..], b[1..]);
    }
  }

  lemma {:induction false} LessTotal(a: string, b: string)
    requires a != b
    ensures Less(a, b) || Less(b, a)
  {
    if a != [] && b != [] && a[0] == b[0] {
      assert a == [a[0]] + a[1..] && b == [b[0]] + b[1..];
      LessTotal(a[1..], b[1..]);
    }
  }

  lemma {:induction false} LessTransitive(a: string, b: string, c: string)
    ensures Less(a, b) && Less(b, c) ==> Less(a, c)
  {
    if Less(a, b) && Less(b, c) && a != [] && a[0] == b[0] && b[0] == c[0] {
      LessTransitive(a[1..], b[1..], c[1..]);
    }
  }

  /** The set of elements of a sequence. */
  function Elements<T>(s: seq<T>): set<T>
  {
    set x | x in s
  }

  lemma ElementsAppend<T>(s: seq<T>, x: T)
    ensures Elements(s + [x]) == Elements(s) + {x}
  {
  }

  /** No element occurs twice. */
  predicate Distinct<T(==)>(s: seq<T>)
  {
    forall i, j :: 0 <= i < j < |s| ==> s[i] != s[j]
  }

  /** Ascending, duplicates allowed: the order `sort.Strings` produces. */
  predicate Sorted(s: seq<string>)
  {
    forall i, j :: 0 <= i < j < |s| ==> !Less(s[j], s[i])
  }

  /** Strictly ascending. */
  predicate StrictlySorted(s: seq<string>)
  {
    forall i, j :: 0 <= i < j < |s| ==> Less(s[i], s[j])
  }

  /** Inserts `x` before the first element of a sorted `s` not below it. */
  function Insert(s: seq<string>, x: string): (r: seq<string>)
    requires Sorted(s)
    ensures Sorted(r)
    ensures multiset(r) == multiset(s) + multiset{x}
  {
    if s == [] then [x]
    else if Less(s[0], x) then
      var tail := Insert(s[1..], x);
      assert s == [s[0]] + s[1..];
      forall j | 0 <= j < |tail| ensures !Less(tail[j], s[0]) {
        assert tail[j] in multiset(s[1..]) + multiset{x};
        if tail[j] != x {
          var k :| 0 <= k < |s[1..]| && s[1..][k] == tail[j];
          assert s[k + 1] == tail[j];
        } else {
          LessAsymmetric(s[0], x);
        }
      }
      [s[0]] + tail
    else
      assert !Less(x, s[0]) ==> x == s[0] by {
        if x != s[0] { LessTotal(x, s[0]); }
      }
      forall j | 0 <= j < |s| ensures !Less(s[j], x) {
        if j > 0 {
          assert !Less(s[j], s[0]);
          LessTransitive(s[j], x, s[0]);
        }
      }
      assert s == [s[0]] + s[1..];
      [x] + s
  }

  /** `sort.Strings(s)`: sorts ascending; modelled as insertion sort. */
  method SortStrings(s: seq<string>) returns (r: seq<string>)
    ensures Sorted(r)
    ensures multiset(r) == multiset(s)
  {
    r := [];
    for i := 0 to |s|
      invariant Sorted(r)
      invariant multiset(r) == multiset(s[..i])
    {
      r := Insert(r, s[i]);
      assert s[..i + 1] == s[..i] + [s[i]];
    }
    assert s[..|s|] == s;
  }

  /** A sorted sequence with no repeated element is strictly ascending. */
  lemma DistinctSortedIsStrict(s: seq<string>)
    requires Sorted(s) && Distinct(s)
    ensures StrictlySorted(s)
  {
    forall i, j | 0 <= i < j < |s| ensures Less(s[i], s[j]) {
      assert !Less(s[j], s[i]);
      LessTotal(s[i], s[j]);
    }
  }

  /** Reordering keeps a sequence free of repeats. */
  lemma {:induction false} PermutationKeepsDistinct<T>(s: seq<T>, t: seq<T>)
    requires multiset(s) == multiset(t) && Distinct(s)
    ensures Distinct(t)
  {
    forall i, j | 0 <= i < j < |t| ensures t[i] != t[j] {
      if t[i] == t[j] {
        assert t == t[..i] + [t[i]] + t[i + 1..j] + [t[j]] + t[j + 1..];
        assert multiset(t)[t[i]] >= 2;
        DistinctOccursOnce(s, t[i]);
      }
    }
  }

  lemma {:induction false} DistinctOccursOnce<T>(s: seq<T>, x: T)
    requires Distinct(s)
    ensures multiset(s)[x] <= 1
  {
    if s != [] {
      assert s == [s[0]] + s[1..];
      DistinctOccursOnce(s[1..], x);
      if s[0] == x {
        assert x !in s[1..];
      }
    }
  }

  /** There is only one strictly ascending arrangement of a set of strings:
      the sorted output does not depend on the order the input came in. */
  lemma {:induction false} StrictlySortedUnique(a: seq<string>, b: seq<string>)
    requires StrictlySorted(a) && StrictlySorted(b)
    requires Elements(a) == Elements(b)
    ensures a == b
  {
    if a != [] { assert a[0] in Elements(a); }
    if b != [] { assert b[0] in Elements(b); }
    if a != [] && b != [] {
      assert a[0] in Elements(b) && b[0] in Elements(a);
      if a[0] != b[0] {
        var i :| 0 <= i < |b| && b[i] == a[0];
        var j :| 0 <= j < |a| && a[j] == b[0];
        assert Less(b[0], a[0]) by { assert i > 0; }
        assert Less(a[0], b[0]) by { assert j > 0; }
        LessAsymmetric(a[0], b[0]);
      }
      forall x ensures x in Elements(a[1..]) <==> x in Elements(b[1..]) {
        StrictHeadNotInTail(a, x);
        StrictHeadNotInTail(b, x);
        assert x in Elements(a) <==> x == a[0] || x in Elements(a[1..]);
        assert x in Elements(b) <==> x == b[0] || x in Elements(b[1..]);
      }
      StrictlySortedUnique(a[1..], b[1..]);
      assert a == [a[0]] + a[1..] && b == [b[0]] + b[1..];
    }
  }

  lemma StrictHeadNotInTail(s: seq<string>, x: string)
    requires StrictlySorted(s) && s != []
    ensures x in s[1..] ==> x != s[0]
  {
    if x in s[1..] {
      var k :| 0 <= k < |s[1..]| && s[1..][k] == x;
      assert Less(s[0], s[k + 1]);
      LessIrreflexive(s[0]);
    }
  }
}
