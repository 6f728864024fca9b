/** Semantic versions as Semantic Versioning 2.0.0 defines them: the
    grammar of section 2, 9 and 10 (`MAJOR.MINOR.PATCH`, an optional
    `-` pre-release and an optional `+` build part) and the precedence of
    section 11, under which build metadata is ignored. This is the
    behaviour of `semver.Make` and `Version.GT`, which the version gate
    calls. */
module SemVer {
  import opened Wrappers
  import opened Strings

  /** A pre-release identifier: numeric, or alphanumeric with hyphens. */
  datatype PreIdentifier = Numeric(n: nat) | Alphanumeric(s: string)

  datatype Version = Version(major: nat, minor: nat, patch: nat,
                             pre: seq<PreIdentifier>, build: seq<string>)

  datatype ParseError =
    | EmptyVersion
    | NoMajorMinorPatch
    | InvalidNumber(part: string)
    | LeadingZeroes(part: string)
    | EmptyNumber
    | EmptyPrerelease
    | InvalidPrerelease(part: string)
    | EmptyBuild
    | InvalidBuild(part: string)

  predicate IsDigit(c: char)
  {
    '0' <= c <= '9'
  }

  /** `[0-9A-Za-z-]`, the identifier characters of section 9 and 10. */
  predicate IsIdentifierChar(c: char)
  {
    IsDigit(c) || 'a' <= c <= 'z' || 'A' <= c <= 'Z' || c == '-'
  }

  predicate AllDigits(s: string)
  {
    forall i :: 0 <= i < |s| ==> IsDigit(s[i])
  }

  predicate AllIdentifierChars(s: string)
  {
    forall i :: 0 <= i < |s| ==> IsIdentifierChar(s[i])
  }

  predicate HasLeadingZeroes(s: string)
  {
    |s| > 1 && s[0] == '0'
  }

  /** The decimal value of a digit string. */
  function DigitsValue(s: string): nat
    requires AllDigits(s)
  {
    if s == [] then 0
    else 10 * DigitsValue(s[..|s| - 1]) + (s[|s| - 1] as int - '0' as int)
  }

  /** A numeric field: digits only, no leading zero, not empty. */
  function ParseNumber(s: string): Result<nat, ParseError>
  {
    if !AllDigits(s) then Err(InvalidNumber(s))
    else if HasLeadingZeroes(s) then Err(LeadingZeroes(s))
    else if s == "" then Err(EmptyNumber)
    else Ok(DigitsValue(s))
  }

  function ParsePreIdentifier(s: string): Result<PreIdentifier, ParseError>
  {
    if s == "" then Err(EmptyPrerelease)
    else if AllDigits(s) then
      if HasLeadingZeroes(s) then Err(LeadingZeroes(s)) else Ok(Numeric(DigitsValue(s)))
    else if AllIdentifierChars(s) then Ok(Alphanumeric(s))
    else Err(InvalidPrerelease(s))
  }

  function ParsePrerelease(parts: seq<string>): Result<seq<PreIdentifier>, ParseError>
  {
    if parts == [] then Ok([])
    else
      var first :- ParsePreIdentifier(parts[0]);
      var rest :- ParsePrerelease(parts[1..]);
      Ok([first] + rest)
  }

  function ParseBuild(parts: seq<string>): Result<seq<string>, ParseError>
  {
    if parts == [] then Ok([])
    else if parts[0] == "" then Err(EmptyBuild)
    else if !AllIdentifierChars(parts[0]) then Err(InvalidBuild(parts[0]))
    else
      var rest :- ParseBuild(parts[1..]);
      Ok([parts[0]] + rest)
  }

  /** `semver.Make`: the text up to the first dot is the major number, up
      to the second the minor number; `ParseTail` reads the rest. */
  function Parse(s: string): (r: Result<Version, ParseError>)
    ensures s != "" && '.' !in s ==> r == Err(NoMajorMinorPatch)
    ensures r.Ok? ==> WellFormed(r.value) && Format(r.value) == s
  {
    IndexOfChar(s, '.');
    if s == "" then Err(EmptyVersion)
    else
      var i := IndexOf(s, ".");
      if i == -1 then Err(NoMajorMinorPatch)
      else
        var rest := s[i + 1..];
        var j := IndexOf(rest, ".");
        if j == -1 then Err(NoMajorMinorPatch)
        else
          var major :- ParseNumber(s[..i]);
          var minor :- ParseNumber(rest[..j]);
          var v :- ParseTail(rest[j + 1..], major, minor);
          TwoDotsRejoin(s, i, j);
          ParseNumberCanonical(s[..i]);
          ParseNumberCanonical(rest[..j]);
          FormatLayout(v);
          Ok(v)
  }

  /** The text before the first `c` of `t` and the dot-separated parts
      after it; all of `t` and no parts when `c` does not occur. */
  function SplitOff(t: string, c: char): (string, seq<string>)
  {
    var k := IndexOf(t, [c]);
    if k == -1 then (t, []) else (t[..k], Split(t[k + 1..], '.'))
  }

  /** The rest of `semver.Make` after `MAJOR.MINOR.`: the first `+` starts
      the build part and, before it, the first `-` the pre-release part. */
  function ParseTail(patchAndMore: string, major: nat, minor: nat): (r: Result<Version, ParseError>)
    ensures r.Ok? ==> r.value.major == major && r.value.minor == minor && WellFormed(r.value)
    ensures r.Ok? ==>
      NatToDigits(r.value.patch) + PrereleaseText(r.value.pre) + BuildText(r.value.build) == patchAndMore
  {
    var (patchAndPre, buildParts) := SplitOff(patchAndMore, '+');
    var (patchStr, preParts) := SplitOff(patchAndPre, '-');
    var patch :- ParseNumber(patchStr);
    var pre :- ParsePrerelease(preParts);
    var build :- ParseBuild(buildParts);
    ParseNumberCanonical(patchStr);
    ParsePrereleaseCanonical(preParts);
    ParseBuildCanonical(buildParts);
    PatchAndPreRejoin(patchAndPre, patchStr, preParts, pre);
    BuildRejoin(patchAndMore, patchAndPre, buildParts);
    Ok(Version(major, minor, patch, pre, build))
  }

  /** -1, 0 or 1 as `a` is below, equal to or above `b`. */
  function CompareNat(a: nat, b: nat): int
  {
    if a < b then -1 else if a > b then 1 else 0
  }

  /** Section 11.4.1 to 11.4.3: numeric identifiers compare numerically,
      alphanumeric ones in ASCII order, and numeric ones are lower. */
  function CompareIdentifier(a: PreIdentifier, b: PreIdentifier): int
  {
    match (a, b)
    case (Numeric(x), Numeric(y)) => CompareNat(x, y)
    case (Numeric(_), Alphanumeric(_)) => -1
    case (Alphanumeric(_), Numeric(_)) => 1
    case (Alphanumeric(x), Alphanumeric(y)) =>
      if Less(x, y) then -1 else if Less(y, x) then 1 else 0
  }

  /** Section 11.4: identifier by identifier; when one list is a prefix of
      the other, the longer list is higher (11.4.4). */
  function ComparePrerelease(a: seq<PreIdentifier>, b: seq<PreIdentifier>): int
  {
    if a == [] && b == [] then 0
    else if a == [] then -1
    else if b == [] then 1
    else
      var c := CompareIdentifier(a[0], b[0]);
      if c != 0 then c else ComparePrerelease(a[1..], b[1..])
  }

  /** Section 11.4.1 to 11.4.3 for one pair of identifiers: `a` has lower
      precedence than `b`. */
  predicate IdentifierLess(a: PreIdentifier, b: PreIdentifier)
  {
    match (a, b)
    case (Numeric(x), Numeric(y)) => x < y
    case (Numeric(_), Alphanumeric(_)) => true
    case (Alphanumeric(_), Numeric(_)) => false
    case (Alphanumeric(x), Alphanumeric(y)) => Less(x, y)
  }

  /** Section 11.4: the first identifier in which the lists differ decides,
      and a list that is a proper prefix of the other is lower (11.4.4). */
  ghost predicate PrereleaseLess(a: seq<PreIdentifier>, b: seq<PreIdentifier>)
  {
    exists k :: 0 <= k <= |a| && k <= |b| && a[..k] == b[..k] &&
      ((k == |a| && k < |b|) || (k < |a| && k < |b| && IdentifierLess(a[k], b[k])))
  }

  /** Section 11.2: major, minor and patch compared numerically from left
      to right, the first difference deciding. */
  predicate CoreLess(v: Version, w: Version)
  {
    v.major < w.major ||
    (v.major == w.major && (v.minor < w.minor || (v.minor == w.minor && v.patch < w.patch)))
  }

  /** Section 11: `v` has lower precedence than `w`. With an equal core, a
      pre-release is lower than the normal version (11.3), and two
      pre-releases compare by 11.4. */
  ghost predicate Precedes(v: Version, w: Version)
  {
    CoreLess(v, w) ||
    (v.major == w.major && v.minor == w.minor && v.patch == w.patch && v.pre != [] &&
     (w.pre == [] || PrereleaseLess(v.pre, w.pre)))
  }

  /** The two versions agree in everything precedence looks at. */
  predicate SamePrecedence(v: Version, w: Version)
  {
    v.major == w.major && v.minor == w.minor && v.patch == w.patch && v.pre == w.pre
  }

  /** Precedence as a three-way comparison: -1 exactly when `v` is lower
      by section 11, 1 exactly when it is higher, 0 exactly when the two
      differ at most in build metadata. */
  function Compare(v: Version, w: Version): (r: int)
    ensures r in {-1, 0, 1}
    ensures r == -1 <==> Precedes(v, w)
    ensures r == 1 <==> Precedes(w, v)
    ensures r == 0 <==> SamePrecedence(v, w)
  {
    ComparePrereleaseAntisymmetric(v.pre, w.pre);
    ComparePrereleaseLess(v.pre, w.pre);
    ComparePrereleaseLess(w.pre, v.pre);
    if v.major != w.major then CompareNat(v.major, w.major)
    else if v.minor != w.minor then CompareNat(v.minor, w.minor)
    else if v.patch != w.patch then CompareNat(v.patch, w.patch)
    else if v.pre == [] && w.pre == [] then 0
    else if v.pre == [] then 1
    else if w.pre == [] then -1
    else ComparePrerelease(v.pre, w.pre)
  }

  /** `Version.GT`: `v` has higher precedence than `w`. */
  predicate GreaterThan(v: Version, w: Version)
    ensures GreaterThan(v, w) <==> Precedes(w, v)
  {
    Compare(v, w) == 1
  }

  lemma CompareIdentifierAntisymmetric(a: PreIdentifier, b: PreIdentifier)
    ensures CompareIdentifier(a, b) == -CompareIdentifier(b, a)
    ensures CompareIdentifier(a, b) == 0 <==> a == b
    ensures CompareIdentifier(a, b) in {-1, 0, 1}
  {
    if a.Alphanumeric? && b.Alphanumeric? {
      LessAsymmetric(a.s, b.s);
      if a.s != b.s {
        LessTotal(a.s, b.s);
      }
    }
  }

  lemma {:induction false} ComparePrereleaseAntisymmetric(a: seq<PreIdentifier>, b: seq<PreIdentifier>)
    ensures ComparePrerelease(a, b) == -ComparePrerelease(b, a)
    ensures ComparePrerelease(a, b) == 0 <==> a == b
    ensures ComparePrerelease(a, b) in {-1, 0, 1}
  {
    if a != [] && b != [] {
      CompareIdentifierAntisymmetric(a[0], b[0]);
      ComparePrereleaseAntisymmetric(a[1..], b[1..]);
      assert a == [a[0]] + a[1..] && b == [b[0]] + b[1..];
    }
  }

  /** The comparison of one pair of identifiers agrees with 11.4.1 to
      11.4.3. */
  lemma CompareIdentifierLess(a: PreIdentifier, b: PreIdentifier)
    ensures CompareIdentifier(a, b) == -1 <==> IdentifierLess(a, b)
  {
    if a.Alphanumeric? && b.Alphanumeric? {
      LessAsymmetric(a.s, b.s);
    }
  }

  /** Lists that start with the same identifier compare as their tails. */
  lemma PrereleaseLessTail(a: seq<PreIdentifier>, b: seq<PreIdentifier>)
    requires a != [] && b != [] && a[0] == b[0]
    ensures PrereleaseLess(a, b) <==> PrereleaseLess(a[1..], b[1..])
  {
    if PrereleaseLess(a, b) {
      var k :| 0 <= k <= |a| && k <= |b| && a[..k] == b[..k] &&
        ((k == |a| && k < |b|) || (k < |a| && k < |b| && IdentifierLess(a[k], b[k])));
      CompareIdentifierLess(a[0], a[0]);
      CompareIdentifierAntisymmetric(a[0], a[0]);
      assert k > 0;
      assert a[1..][..k - 1] == a[1..k] == b[1..k] == b[1..][..k - 1];
      assert a[1..][k - 1..] == a[k..];
      assert PrereleaseLess(a[1..], b[1..]);
    }
    if PrereleaseLess(a[1..], b[1..]) {
      var k :| 0 <= k <= |a[1..]| && k <= |b[1..]| && a[1..][..k] == b[1..][..k] &&
        ((k == |a[1..]| && k < |b[1..]|) || (k < |a[1..]| && k < |b[1..]| && IdentifierLess(a[1..][k], b[1..][k])));
      assert a[..k + 1] == [a[0]] + a[1..][..k] == [b[0]] + b[1..][..k] == b[..k + 1];
      assert PrereleaseLess(a, b);
    }
  }

  /** A lower list agrees with the other at its head or is lower there. */
  lemma PrereleaseLessHead(a: seq<PreIdentifier>, b: seq<PreIdentifier>)
    requires a != [] && b != []
    ensures PrereleaseLess(a, b) ==> a[0] == b[0] || IdentifierLess(a[0], b[0])
  {
    if PrereleaseLess(a, b) {
      var k :| 0 <= k <= |a| && k <= |b| && a[..k] == b[..k] &&
        ((k == |a| && k < |b|) || (k < |a| && k < |b| && IdentifierLess(a[k], b[k])));
      if k > 0 {
        assert a[0] == a[..k][0] == b[..k][0] == b[0];
      }
    }
  }

  /** The comparison of pre-release lists agrees with the first-difference
      rule of section 11.4, in both directions. */
  lemma {:induction false} ComparePrereleaseLess(a: seq<PreIdentifier>, b: seq<PreIdentifier>)
    ensures ComparePrerelease(a, b) == -1 <==> PrereleaseLess(a, b)
  {
    if a == [] && b != [] {
      assert a[..0] == b[..0];
    } else if a != [] && b != [] {
      CompareIdentifierLess(a[0], b[0]);
      CompareIdentifierAntisymmetric(a[0], b[0]);
      var c := CompareIdentifier(a[0], b[0]);
      if c == 0 {
        PrereleaseLessTail(a, b);
        ComparePrereleaseLess(a[1..], b[1..]);
      } else if c == -1 {
        assert a[..0] == b[..0];
      } else {
        PrereleaseLessHead(a, b);
      }
    }
  }

  /** Precedence is antisymmetric, and two versions have the same
      precedence exactly when they differ at most in build metadata. */
  lemma CompareAntisymmetric(v: Version, w: Version)
    ensures Compare(v, w) == -Compare(w, v)
    ensures Compare(v, w) == 0 <==> SamePrecedence(v, w)
    ensures Compare(v, w) in {-1, 0, 1}
  {
    ComparePrereleaseAntisymmetric(v.pre, w.pre);
    if v.pre != [] && w.pre != [] {
      CompareIdentifierAntisymmetric(v.pre[0], w.pre[0]);
    }
  }

  lemma CompareIdentifierTransitive(a: PreIdentifier, b: PreIdentifier, c: PreIdentifier)
    requires CompareIdentifier(a, b) == 1 && CompareIdentifier(b, c) == 1
    ensures CompareIdentifier(a, c) == 1
  {
    if a.Alphanumeric? && b.Alphanumeric? && c.Alphanumeric? {
      LessTransitive(c.s, b.s, a.s);
      LessAsymmetric(a.s, c.s);
    }
  }

  lemma {:induction false} ComparePrereleaseTransitive(a: seq<PreIdentifier>, b: seq<PreIdentifier>, c: seq<PreIdentifier>)
    requires ComparePrerelease(a, b) == 1 && ComparePrerelease(b, c) == 1
    ensures ComparePrerelease(a, c) == 1
  {
    if a != [] && b != [] && c != [] {
      var ab, bc := CompareIdentifier(a[0], b[0]), CompareIdentifier(b[0], c[0]);
      CompareIdentifierAntisymmetric(a[0], b[0]);
      CompareIdentifierAntisymmetric(b[0], c[0]);
      CompareIdentifierAntisymmetric(a[0], c[0]);
      if ab == 0 && bc == 0 {
        ComparePrereleaseTransitive(a[1..], b[1..], c[1..]);
      } else if ab == 1 && bc == 1 {
        CompareIdentifierTransitive(a[0], b[0], c[0]);
      }
    }
  }

  /** Precedence is transitive: with antisymmetry, a total order on
      versions up to build metadata. */
  lemma CompareTransitive(u: Version, v: Version, w: Version)
    requires GreaterThan(u, v) && GreaterThan(v, w)
    ensures GreaterThan(u, w)
  {
    if SamePrecedence(u, v) || SamePrecedence(v, w) {
      CompareAntisymmetric(u, v);
      CompareAntisymmetric(v, w);
    } else if u.major == v.major == w.major && u.minor == v.minor == w.minor
           && u.patch == v.patch == w.patch && u.pre != [] && v.pre != [] && w.pre != [] {
      ComparePrereleaseTransitive(u.pre, v.pre, w.pre);
    }
  }

  /** The decimal digits of `n`, without leading zeroes. */
  function NatToDigits(n: nat): (s: string)
    ensures AllDigits(s) && s != []
    decreases n
  {
    var d := ['0' + (n % 10) as char];
    if n < 10 then d else NatToDigits(n / 10) + d
  }

  lemma {:induction false} NatToDigitsValue(n: nat)
    ensures DigitsValue(NatToDigits(n)) == n
    ensures !HasLeadingZeroes(NatToDigits(n))
    ensures n > 0 ==> NatToDigits(n)[0] != '0'
    decreases n
  {
    if n >= 10 {
      NatToDigitsValue(n / 10);
      var s := NatToDigits(n);
      assert s[..|s| - 1] == NatToDigits(n / 10);
    }
  }

  /** The text of a pre-release identifier. */
  function IdentifierText(id: PreIdentifier): string
  {
    match id
    case Numeric(n) => NatToDigits(n)
    case Alphanumeric(s) => s
  }

  function IdentifierTexts(pre: seq<PreIdentifier>): (texts: seq<string>)
    ensures |texts| == |pre|
    ensures forall i :: 0 <= i < |pre| ==> texts[i] == IdentifierText(pre[i])
  {
    if pre == [] then [] else [IdentifierText(pre[0])] + IdentifierTexts(pre[1..])
  }

  /** What section 9 and 10 allow: non-empty identifiers of `[0-9A-Za-z-]`;
      an alphanumeric pre-release identifier is not all digits. */
  predicate WellFormed(v: Version)
  {
    (forall i :: 0 <= i < |v.pre| ==>
      (v.pre[i].Alphanumeric? ==> v.pre[i].s != "" && AllIdentifierChars(v.pre[i].s) && !AllDigits(v.pre[i].s))) &&
    (forall i :: 0 <= i < |v.build| ==> v.build[i] != "" && AllIdentifierChars(v.build[i]))
  }

  function PrereleaseText(pre: seq<PreIdentifier>): string
  {
    if pre == [] then "" else "-" + Join(IdentifierTexts(pre), '.')
  }

  function BuildText(build: seq<string>): string
  {
    if build == [] then "" else "+" + Join(build, '.')
  }

  /** The version string, `MAJOR.MINOR.PATCH[-PRE][+BUILD]`. */
  function Format(v: Version): string
  {
    NatToDigits(v.major) + "." + NatToDigits(v.minor) + "." + NatToDigits(v.patch) +
    PrereleaseText(v.pre) + BuildText(v.build)
  }

  lemma {:induction false} JoinCharacters(parts: seq<string>, sep: char, c: char)
    requires c != sep
    requires forall i :: 0 <= i < |parts| ==> c !in parts[i]
    ensures c !in Join(parts, sep)
  {
    if |parts| > 1 {
      JoinCharacters(parts[1..], sep, c);
    }
  }

  lemma IdentifierCharsExclude(s: string)
    requires AllIdentifierChars(s)
    ensures '.' !in s && '+' !in s
  {
  }

  /** One identifier's text parses back to the identifier. */
  lemma ParseIdentifierText(id: PreIdentifier)
    requires id.Alphanumeric? ==> id.s != "" && AllIdentifierChars(id.s) && !AllDigits(id.s)
    ensures ParsePreIdentifier(IdentifierText(id)) == Ok(id)
  {
    if id.Numeric? {
      NatToDigitsValue(id.n);
    }
  }

  lemma {:induction false} ParsePrereleaseTexts(pre: seq<PreIdentifier>)
    requires forall i :: 0 <= i < |pre| ==>
      (pre[i].Alphanumeric? ==> pre[i].s != "" && AllIdentifierChars(pre[i].s) && !AllDigits(pre[i].s))
    ensures ParsePrerelease(IdentifierTexts(pre)) == Ok(pre)
  {
    if pre != [] {
      var texts := IdentifierTexts(pre);
      assert texts[0] == IdentifierText(pre[0]) && texts[1..] == IdentifierTexts(pre[1..]);
      ParseIdentifierText(pre[0]);
      ParsePrereleaseTexts(pre[1..]);
      assert ParsePrerelease(texts) == Ok([pre[0]] + pre[1..]);
      assert pre == [pre[0]] + pre[1..];
    }
  }

  lemma {:induction false} ParseBuildTexts(build: seq<string>)
    requires forall i :: 0 <= i < |build| ==> build[i] != "" && AllIdentifierChars(build[i])
    ensures ParseBuild(build) == Ok(build)
  {
    if build != [] {
      ParseBuildTexts(build[1..]);
      assert build == [build[0]] + build[1..];
    }
  }

  lemma SplitOffAbsent(t: string, c: char)
    requires c !in t
    ensures SplitOff(t, c) == (t, [])
  {
    IndexOfChar(t, c);
  }

  /** Splitting at the first `c` recovers what `c` was put between. */
  lemma SplitOffJoin(head: string, c: char, parts: seq<string>)
    requires c !in head && c != '.' && parts != []
    requires forall i :: 0 <= i < |parts| ==> '.' !in parts[i]
    ensures SplitOff(head + [c] + Join(parts, '.'), c) == (head, parts)
  {
    var t := head + [c] + Join(parts, '.');
    assert t[..|head|] == head && t[|head|] == c;
    IndexOfCharIs(t, c, |head|);
    assert t[|head| + 1..] == Join(parts, '.');
    SplitJoin(parts, '.');
  }

  lemma IdentifierTextsDotFree(pre: seq<PreIdentifier>)
    requires forall i :: 0 <= i < |pre| ==> (pre[i].Alphanumeric? ==> AllIdentifierChars(pre[i].s))
    ensures forall i :: 0 <= i < |pre| ==> '.' !in IdentifierTexts(pre)[i] && '+' !in IdentifierTexts(pre)[i]
  {
    forall i | 0 <= i < |pre|
      ensures '.' !in IdentifierTexts(pre)[i] && '+' !in IdentifierTexts(pre)[i]
    {
      if pre[i].Alphanumeric? {
        IdentifierCharsExclude(pre[i].s);
      }
    }
  }

  lemma ParseTailFormat(v: Version)
    requires WellFormed(v)
    ensures ParseTail(NatToDigits(v.patch) + PrereleaseText(v.pre) + BuildText(v.build), v.major, v.minor) == Ok(v)
  {
    var n3, p, b := NatToDigits(v.patch), PrereleaseText(v.pre), BuildText(v.build);
    var texts := IdentifierTexts(v.pre);
    NatToDigitsValue(v.patch);
    IdentifierTextsDotFree(v.pre);
    JoinCharacters(texts, '.', '+');
    assert '+' !in n3 + p;
    if v.build == [] {
      assert n3 + p + b == n3 + p;
      SplitOffAbsent(n3 + p, '+');
    } else {
      forall i | 0 <= i < |v.build| ensures '.' !in v.build[i] {
        IdentifierCharsExclude(v.build[i]);
      }
      assert n3 + p + b == (n3 + p) + ['+'] + Join(v.build, '.');
      SplitOffJoin(n3 + p, '+', v.build);
    }
    if v.pre == [] {
      assert n3 + p == n3;
      SplitOffAbsent(n3, '-');
    } else {
      assert n3 + p == n3 + ['-'] + Join(texts, '.');
      SplitOffJoin(n3, '-', texts);
    }
    ParseBuildTexts(v.build);
    ParsePrereleaseTexts(v.pre);
  }

  /** The first dot of `head.rest` is the one after `head`. */
  lemma FirstDotAfter(head: string, rest: string)
    requires AllDigits(head)
    ensures IndexOf(head + "." + rest, ".") == |head|
    ensures (head + "." + rest)[..|head|] == head && (head + "." + rest)[|head| + 1..] == rest
  {
    var s := head + "." + rest;
    assert s[..|head|] == head && s[|head|] == '.';
    IndexOfCharIs(s, '.', |head|);
    assert s[|head| + 1..] == rest;
  }

  /** Two digit runs and two dots: the runs are the major and minor
      numbers, the major one checked first, and `ParseTail` reads the rest. */
  lemma ParseDottedPrefix(n1: string, n2: string, tail: string)
    requires AllDigits(n1) && AllDigits(n2)
    ensures ParseNumber(n1).Err? ==> Parse(n1 + "." + n2 + "." + tail) == Err(ParseNumber(n1).error)
    ensures ParseNumber(n1).Ok? && ParseNumber(n2).Err? ==>
      Parse(n1 + "." + n2 + "." + tail) == Err(ParseNumber(n2).error)
    ensures ParseNumber(n1).Ok? && ParseNumber(n2).Ok? ==>
      Parse(n1 + "." + n2 + "." + tail) == ParseTail(tail, ParseNumber(n1).value, ParseNumber(n2).value)
  {
    var rest := n2 + "." + tail;
    assert n1 + "." + n2 + "." + tail == n1 + "." + rest;
    FirstDotAfter(n1, rest);
    FirstDotAfter(n2, tail);
  }

  lemma FormatLayout(v: Version)
    ensures Format(v) == NatToDigits(v.major) + "." + NatToDigits(v.minor) + "." +
                         (NatToDigits(v.patch) + PrereleaseText(v.pre) + BuildText(v.build))
  {
  }

  lemma ParseFormatted(v: Version)
    requires ParseTail(NatToDigits(v.patch) + PrereleaseText(v.pre) + BuildText(v.build), v.major, v.minor) == Ok(v)
    ensures Parse(NatToDigits(v.major) + "." + NatToDigits(v.minor) + "." +
                  (NatToDigits(v.patch) + PrereleaseText(v.pre) + BuildText(v.build))) == Ok(v)
  {
    NatToDigitsValue(v.major);
    NatToDigitsValue(v.minor);
    ParseDottedPrefix(NatToDigits(v.major), NatToDigits(v.minor),
                NatToDigits(v.patch) + PrereleaseText(v.pre) + BuildText(v.build));
  }

  /** Parsing undoes formatting: every well-formed version is read back
      exactly, build metadata included. */
  lemma ParseFormat(v: Version)
    requires WellFormed(v)
    ensures Parse(Format(v)) == Ok(v)
  {
    ParseTailFormat(v);
    ParseFormatted(v);
    FormatLayout(v);
  }

  /** A digit string that does not start with `0` has a positive value. */
  lemma {:induction false} LeadingDigitPositive(s: string)
    requires AllDigits(s) && s != [] && s[0] != '0'
    ensures DigitsValue(s) > 0
    decreases |s|
  {
    var t := s[..|s| - 1];
    if |s| > 1 {
      assert t[0] == s[0];
      LeadingDigitPositive(t);
    } else {
      assert t == [];
    }
  }

  /** A digit string without leading zeroes is the decimal text of its
      value. */
  lemma {:induction false} DigitsCanonical(s: string)
    requires AllDigits(s) && s != [] && !HasLeadingZeroes(s)
    ensures NatToDigits(DigitsValue(s)) == s
    decreases |s|
  {
    var n := DigitsValue(s);
    var t := s[..|s| - 1];
    var d := s[|s| - 1] as int - '0' as int;
    assert n == 10 * DigitsValue(t) + d;
    assert '0' + (d as char) == s[|s| - 1];
    if |s| == 1 {
      assert t == [];
      assert s == [s[0]];
    } else {
      assert t[0] == s[0];
      LeadingDigitPositive(t);
      DigitsCanonical(t);
      assert n / 10 == DigitsValue(t) && n % 10 == d;
      assert s == t + [s[|s| - 1]];
    }
  }

  lemma ParseNumberCanonical(s: string)
    requires ParseNumber(s).Ok?
    ensures NatToDigits(ParseNumber(s).value) == s
  {
    DigitsCanonical(s);
  }

  lemma ParsePreIdentifierCanonical(t: string)
    requires ParsePreIdentifier(t).Ok?
    ensures var id := ParsePreIdentifier(t).value;
      IdentifierText(id) == t &&
      (id.Alphanumeric? ==> id.s != "" && AllIdentifierChars(id.s) && !AllDigits(id.s))
  {
    if AllDigits(t) {
      DigitsCanonical(t);
    }
  }

  /** An accepted pre-release part is the text of what it parses to. */
  lemma {:induction false} ParsePrereleaseCanonical(parts: seq<string>)
    requires ParsePrerelease(parts).Ok?
    ensures var pre := ParsePrerelease(parts).value;
      IdentifierTexts(pre) == parts &&
      forall i :: 0 <= i < |pre| ==>
        (pre[i].Alphanumeric? ==> pre[i].s != "" && AllIdentifierChars(pre[i].s) && !AllDigits(pre[i].s))
  {
    if parts != [] {
      ParsePreIdentifierCanonical(parts[0]);
      ParsePrereleaseCanonical(parts[1..]);
      var first, tail := ParsePreIdentifier(parts[0]).value, ParsePrerelease(parts[1..]).value;
      var pre := ParsePrerelease(parts).value;
      assert pre == [first] + tail;
      assert pre[1..] == tail;
      assert IdentifierTexts(pre) == [IdentifierText(first)] + IdentifierTexts(tail);
      assert parts == [parts[0]] + parts[1..];
      forall i | 0 < i < |pre|
        ensures pre[i].Alphanumeric? ==> pre[i].s != "" && AllIdentifierChars(pre[i].s) && !AllDigits(pre[i].s)
      {
        assert pre[i] == tail[i - 1];
      }
    }
  }

  /** An accepted build part is kept as it is. */
  lemma {:induction false} ParseBuildCanonical(parts: seq<string>)
    requires ParseBuild(parts).Ok?
    ensures ParseBuild(parts).value == parts
    ensures forall i :: 0 <= i < |parts| ==> parts[i] != "" && AllIdentifierChars(parts[i])
  {
    if parts != [] {
      ParseBuildCanonical(parts[1..]);
      assert parts == [parts[0]] + parts[1..];
      forall i | 0 < i < |parts|
        ensures parts[i] != "" && AllIdentifierChars(parts[i])
      {
        assert parts[i] == parts[1..][i - 1];
      }
    }
  }

  /** What `SplitOff` takes apart: the whole text when `c` does not occur,
      otherwise the head, `c` and the joined parts. */
  lemma SplitOffRejoin(t: string, c: char)
    ensures SplitOff(t, c).1 == [] ==> SplitOff(t, c).0 == t
    ensures SplitOff(t, c).1 != [] ==> t == SplitOff(t, c).0 + [c] + Join(SplitOff(t, c).1, '.')
  {
    IndexOfChar(t, c);
    var k := IndexOf(t, [c]);
    if k != -1 {
      assert t == t[..k] + [c] + t[k + 1..];
    }
  }

  lemma PrereleaseTextOf(pre: seq<PreIdentifier>, parts: seq<string>)
    requires IdentifierTexts(pre) == parts
    ensures PrereleaseText(pre) == if parts == [] then "" else "-" + Join(parts, '.')
  {
  }

  /** The patch number and pre-release part put back together. */
  lemma PatchAndPreRejoin(patchAndPre: string, patchStr: string, preParts: seq<string>, pre: seq<PreIdentifier>)
    requires SplitOff(patchAndPre, '-') == (patchStr, preParts)
    requires IdentifierTexts(pre) == preParts
    ensures patchStr + PrereleaseText(pre) == patchAndPre
  {
    SplitOffRejoin(patchAndPre, '-');
    PrereleaseTextOf(pre, preParts);
  }

  /** The text before the first `+` and the build part put back together. */
  lemma BuildRejoin(t: string, head: string, buildParts: seq<string>)
    requires SplitOff(t, '+') == (head, buildParts)
    ensures head + BuildText(buildParts) == t
  {
    SplitOffRejoin(t, '+');
  }

  /** A text is the parts around its first dot. */
  lemma FirstDotRejoin(s: string, i: int)
    requires i == IndexOf(s, ".") && i != -1
    ensures s == s[..i] + "." + s[i + 1..]
  {
    assert s[i..i + 1] == ".";
  }

  /** A text with two dots is the parts around them. */
  lemma TwoDotsRejoin(s: string, i: int, j: int)
    requires i == IndexOf(s, ".") && i != -1
    requires j == IndexOf(s[i + 1..], ".") && j != -1
    ensures s == s[..i] + "." + s[i + 1..][..j] + "." + s[i + 1..][j + 1..]
  {
    var rest := s[i + 1..];
    FirstDotRejoin(s, i);
    FirstDotRejoin(rest, j);
    Regroup(s[..i], rest[..j], rest[j + 1..]);
  }

  lemma Regroup(x: string, y: string, z: string)
    ensures x + "." + (y + "." + z) == x + "." + y + "." + z
  {
  }
}
