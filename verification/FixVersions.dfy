/**
 dev/merge_arrow_pr.py: which fix version is suggested for a merge, and which fix versions
 an issue ends up with when it is resolved.
 */
module FixVersions {
  import opened Common

  datatype Version = Version(name: string, released: bool)

  /** ValueError: unpacking name.split(".") failed.  IndexError: [-1] of an empty list. */
  datatype Outcome<+T> = Ok(value: T) | ValueError | IndexError

  /** Python's order on strings. */
  predicate AtMost(a: string, b: string) {
    a == "" || (b != "" && (a[0] < b[0] || (a[0] == b[0] && AtMost(a[1..], b[1..]))))
  }

  /** name.split("."). */
  function Fields(name: string): (r: seq<string>)
    ensures |r| > 0
  {
    if name == "" then [""]
    else
      var rest := Fields(name[1..]);
      if name[0] == '.' then [""] + rest else [[name[0]] + rest[0]] + rest[1..]
  }

  predicate ThreeFields(v: Version) {
    |Fields(v.name)| == 3
  }

  predicate IsPatch(v: Version)
    requires ThreeFields(v)
  {
    Fields(v.name)[2] != "0"
  }

  predicate StartsWithDigit(s: string) {
    s != "" && '0' <= s[0] <= '9'
  }

  /** _filter_mainline_versions: cpp-<digit>.. for PARQUET, <digit>.. otherwise. */
  predicate IsMainline(parquet: bool, v: Version) {
    if parquet then "cpp-" <= v.name && StartsWithDigit(v.name[4..]) else StartsWithDigit(v.name)
  }

  // ---------------------------------------------------------------- the suggestion

  /** What sorted(.., key=name, reverse=True) of the unreleased versions may return. */
  ghost predicate IsSortedUnreleased(all: seq<Version>, sorted: seq<Version>) {
    && (forall v :: v in sorted <==> v in all && !v.released)
    && (forall i, j | 0 <= i < j < |sorted| :: AtMost(sorted[j].name, sorted[i].name))
  }

  ghost predicate Mainline(parquet: bool, all: seq<Version>, v: Version) {
    v in all && !v.released && IsMainline(parquet, v)
  }

  /** An unreleased mainline version that is not a patch release. */
  ghost predicate Candidate(parquet: bool, all: seq<Version>, v: Version) {
    Mainline(parquet, all, v) && ThreeFields(v) && !IsPatch(v)
  }

  /** The versions that satisfy p, in their order and as often as they occur. */
  function Filter(p: Version -> bool, versions: seq<Version>): seq<Version> {
    if versions == [] then []
    else
      var n := |versions| - 1;
      Filter(p, versions[..n]) + if p(versions[n]) then [versions[n]] else []
  }

  lemma FilterSnoc(p: Version -> bool, versions: seq<Version>, i: nat)
    requires i < |versions|
    ensures versions[..i + 1] == versions[..i] + [versions[i]]
    ensures Filter(p, versions[..i + 1]) == Filter(p, versions[..i]) + if p(versions[i]) then [versions[i]] else []
  {
    assert versions[..i + 1][..i] == versions[..i];
  }

  lemma {:induction false} FilterMembers(p: Version -> bool, versions: seq<Version>)
    ensures forall v :: v in Filter(p, versions) <==> v in versions && p(v)
    ensures |Filter(p, versions)| <= |versions|
    ensures |Filter(p, versions)| == |versions| ==> Filter(p, versions) == versions
  {
    if versions != [] {
      var n := |versions| - 1;
      assert versions == versions[..n] + [versions[n]];
      FilterMembers(p, versions[..n]);
    }
  }

  lemma {:induction false} FilterDescending(p: Version -> bool, versions: seq<Version>)
    requires Descending(versions)
    ensures Descending(Filter(p, versions))
  {
    if versions != [] {
      var n := |versions| - 1;
      FilterDescending(p, versions[..n]);
      FilterMembers(p, versions[..n]);
      SnocDescending(versions, n, Filter(p, versions[..n]));
    }
  }

  /** The filter keeps every occurrence of what it keeps. */
  lemma {:induction false} FilterCounts(p: Version -> bool, versions: seq<Version>, v: Version)
    ensures multiset(Filter(p, versions))[v] == if p(v) then multiset(versions)[v] else 0
  {
    if versions != [] {
      var n := |versions| - 1;
      FilterCounts(p, versions[..n], v);
      assert versions == versions[..n] + [versions[n]];
    }
  }

  function IsMainlineOf(parquet: bool): Version -> bool {
    v => IsMainline(parquet, v)
  }

  predicate IsNonPatch(v: Version) {
    ThreeFields(v) && !IsPatch(v)
  }

  method FilterMainline(parquet: bool, versions: seq<Version>) returns (r: seq<Version>)
    ensures r == Filter(IsMainlineOf(parquet), versions)
  {
    r := [];
    var i := 0;
    while i < |versions|
      invariant 0 <= i <= |versions|
      invariant r == Filter(IsMainlineOf(parquet), versions[..i])
    {
      FilterSnoc(IsMainlineOf(parquet), versions, i);
      if IsMainline(parquet, versions[i]) {
        r := r + [versions[i]];
      }
      i := i + 1;
    }
    assert versions[..i] == versions;
  }

  ghost predicate Descending(vs: seq<Version>) {
    forall i, j | 0 <= i < j < |vs| :: AtMost(vs[j].name, vs[i].name)
  }

  lemma SnocDescending(vs: seq<Version>, i: nat, r: seq<Version>)
    requires i < |vs| && (forall v <- r :: v in vs[..i])
    ensures Descending(vs) && Descending(r) ==> Descending(r + [vs[i]])
  {
    if Descending(vs) && Descending(r) {
      forall k | 0 <= k < |r| ensures AtMost(vs[i].name, r[k].name) {
        assert r[k] in vs[..i];
      }
    }
  }

  /** The loop that keeps the versions whose third field is "0". */
  method NonPatch(versions: seq<Version>) returns (r: Outcome<seq<Version>>)
    ensures r.ValueError? <==> exists v <- versions :: !ThreeFields(v)
    ensures !r.IndexError?
    ensures r.Ok? ==> r.value == Filter(IsNonPatch, versions)
  {
    var kept: seq<Version> := [];
    var i := 0;
    while i < |versions|
      invariant 0 <= i <= |versions|
      invariant NonPatchUpTo(versions, i, kept)
    {
      var v := versions[i];
      if !ThreeFields(v) {
        NonPatchFails(versions, i);
        return ValueError;
      }
      NonPatchStep(versions, i, kept);
      if !IsPatch(v) {
        kept := kept + [v];
      }
      i := i + 1;
    }
    NonPatchEnds(versions, kept);
    return Ok(kept);
  }

  ghost predicate NonPatchUpTo(versions: seq<Version>, i: nat, kept: seq<Version>)
    requires i <= |versions|
  {
    (forall k | 0 <= k < i :: ThreeFields(versions[k])) && kept == Filter(IsNonPatch, versions[..i])
  }

  lemma NonPatchStep(versions: seq<Version>, i: nat, kept: seq<Version>)
    requires i < |versions| && ThreeFields(versions[i]) && NonPatchUpTo(versions, i, kept)
    ensures NonPatchUpTo(versions, i + 1, if IsPatch(versions[i]) then kept else kept + [versions[i]])
  {
    FilterSnoc(IsNonPatch, versions, i);
  }

  lemma NonPatchFails(versions: seq<Version>, i: nat)
    requires i < |versions| && !ThreeFields(versions[i])
    ensures exists v <- versions :: !ThreeFields(v)
  {
    assert versions[i] in versions;
  }

  lemma NonPatchEnds(versions: seq<Version>, kept: seq<Version>)
    requires NonPatchUpTo(versions, |versions|, kept)
    ensures forall v <- versions :: ThreeFields(v)
    ensures kept == Filter(IsNonPatch, versions)
  {
    assert versions[..|versions|] == versions;
  }

  /** branch.replace("branch-", ""). */
  function WithoutMarker(branch: string): string {
    if branch == "" then ""
    else if "branch-" <= branch then WithoutMarker(branch[7..])
    else [branch[0]] + WithoutMarker(branch[1..])
  }

  /** How the versions of a branch start; on master every version does. */
  function Prefix(branch: string): string {
    if branch == "master" then "" else WithoutMarker(branch)
  }

  function StartsWith(prefix: string): Version -> bool {
    (v: Version) => prefix <= v.name
  }

  method StartingWith(prefix: string, versions: seq<Version>) returns (r: seq<Version>)
    ensures r == Filter(StartsWith(prefix), versions)
  {
    r := [];
    var i := 0;
    while i < |versions|
      invariant 0 <= i <= |versions|
      invariant r == Filter(StartsWith(prefix), versions[..i])
    {
      FilterSnoc(StartsWith(prefix), versions, i);
      if prefix <= versions[i].name {
        r := r + [versions[i]];
      }
      i := i + 1;
    }
    assert versions[..i] == versions;
  }

  /** fix_version_from_branch. */
  method FromBranch(branch: string, versions: seq<Version>) returns (r: Outcome<string>)
    requires Descending(versions)
    ensures !r.ValueError?
    ensures r.IndexError? <==> forall v <- versions :: !(Prefix(branch) <= v.name)
    ensures r.Ok? ==> exists v :: v in versions && v.name == r.value && Prefix(branch) <= v.name
    ensures r.Ok? ==> forall v <- versions :: Prefix(branch) <= v.name ==> AtMost(r.value, v.name)
  {
    if branch == "master" {
      r := LastName(versions);
      AnyPrefix(versions);
    } else {
      var mine := StartingWith(Prefix(branch), versions);
      FilterDescending(StartsWith(Prefix(branch)), versions);
      r := LastName(mine);
      BranchMembers(Prefix(branch), versions);
    }
  }

  lemma AnyPrefix(versions: seq<Version>)
    ensures forall v <- versions :: "" <= v.name
    ensures versions == [] <==> forall v <- versions :: !("" <= v.name)
  {
    assert versions != [] ==> versions[0] in versions;
  }

  lemma BranchMembers(prefix: string, versions: seq<Version>)
    ensures var mine := Filter(StartsWith(prefix), versions);
      && (forall v :: v in mine <==> v in versions && prefix <= v.name)
      && (mine == [] <==> forall v <- versions :: !(prefix <= v.name))
  {
    var mine := Filter(StartsWith(prefix), versions);
    FilterMembers(StartsWith(prefix), versions);
    assert mine != [] ==> mine[0] in mine;
  }

  /** get_candidate_fix_versions for one of the merge branches. */
  method SuggestFor(branch: string, parquet: bool, ghost all: seq<Version>, sorted: seq<Version>)
    returns (r: Outcome<string>)
    requires IsSortedUnreleased(all, sorted)
    ensures r.ValueError? <==> exists v :: Mainline(parquet, all, v) && !ThreeFields(v)
    ensures !r.ValueError? ==>
      (r.IndexError? <==> forall v :: Candidate(parquet, all, v) ==> !(Prefix(branch) <= v.name))
    ensures r.Ok? ==> exists v :: Candidate(parquet, all, v) && v.name == r.value && Prefix(branch) <= v.name
    ensures r.Ok? ==> forall v :: Candidate(parquet, all, v) && Prefix(branch) <= v.name ==> AtMost(r.value, v.name)
    ensures r.Ok? ==> forall a: Release | a.Valid() && a.Name() == r.value :: Denoted(a.patch) == 0
  {
    assert Descending(sorted);
    var mainline := FilterMainline(parquet, sorted);
    FilterDescending(IsMainlineOf(parquet), sorted);
    FilterMembers(IsMainlineOf(parquet), sorted);
    FilterMembers(IsNonPatch, mainline);
    assert forall v :: v in mainline <==> Mainline(parquet, all, v);
    FilterDescending(IsNonPatch, mainline);
    var nonPatch := NonPatch(mainline);
    if nonPatch.ValueError? {
      return ValueError;
    }
    if |mainline| > |nonPatch.value| {
      mainline := nonPatch.value;
    }
    assert forall v :: v in mainline <==> Candidate(parquet, all, v);
    r := FromBranch(branch, mainline);
    if r.Ok? {
      NeverPatch(parquet, all, r.value);
    }
  }

  /** No candidate has the name of a release whose third number is not zero. */
  lemma NeverPatch(parquet: bool, all: seq<Version>, name: string)
    requires exists v :: Candidate(parquet, all, v) && v.name == name
    ensures forall a: Release | a.Valid() && a.Name() == name :: Denoted(a.patch) == 0
  {
    forall a: Release | a.Valid() && a.Name() == name ensures Denoted(a.patch) == 0 {
      PatchOfRelease(a, false);
    }
  }

  /** versions[-1].name: the least name of a descending list. */
  method LastName(versions: seq<Version>) returns (r: Outcome<string>)
    requires Descending(versions)
    ensures r.IndexError? <==> versions == []
    ensures !r.ValueError?
    ensures r.Ok? ==> exists v <- versions :: v.name == r.value
    ensures r.Ok? ==> forall v <- versions :: AtMost(r.value, v.name)
  {
    if versions == [] {
      return IndexError;
    }
    var last := versions[|versions| - 1];
    assert last in versions;
    AtMostReflexive(last.name);
    return Ok(last.name);
  }

  lemma AtMostReflexive(a: string)
    ensures AtMost(a, a)
  {
  }

  /** The comment promises another suggestion when there is a non-patch release; when all
      unreleased mainline versions are patch releases the code has none, on any branch, and fails. */
  method OnlyPatchReleasesFail(branch: string, parquet: bool, ghost all: seq<Version>, sorted: seq<Version>)
    returns (r: Outcome<string>)
    requires IsSortedUnreleased(all, sorted)
    requires forall v :: Mainline(parquet, all, v) ==> ThreeFields(v) && IsPatch(v)
    ensures r == IndexError
  {
    r := SuggestFor(branch, parquet, all, sorted);
  }

  /** Such a list of versions. */
  lemma PatchReleaseWitness(all: seq<Version>)
    requires all == [Version("1.0.1", false)]
    ensures Mainline(false, all, all[0])
    ensures forall v :: Mainline(false, all, v) ==> ThreeFields(v) && IsPatch(v)
  {
    var name := "1.0.1";
    FieldsStep(name);
    FieldsStep(name[1..]);
    FieldsStep(name[2..]);
    FieldsStep(name[3..]);
    FieldsStep(name[4..]);
    assert name[4..][1..] == "" && name[3..][1..] == name[4..] && name[2..][1..] == name[3..];
    assert name[1..][1..] == name[2..];
    assert ['1'] + "" == "1" && ['0'] + "" == "0";
    assert Fields(name[4..]) == ["1"];
    assert Fields(name[3..]) == ["", "1"];
    assert Fields(name[2..]) == ["0", "1"];
    assert Fields(name[1..]) == ["", "0", "1"];
    assert Fields(name) == ["1", "0", "1"];
  }

  lemma FieldsStep(name: string)
    requires name != ""
    ensures Fields(name) == var rest := Fields(name[1..]);
      if name[0] == '.' then [""] + rest else [[name[0]] + rest[0]] + rest[1..]
  {
  }

  // ---------------------------------------------------------------- the order of versions

  predicate Digits(s: string) {
    forall i | 0 <= i < |s| :: '0' <= s[i] <= '9'
  }

  /** A number in decimal, without leading zeros. */
  predicate Numeral(s: string) {
    s != "" && Digits(s) && (|s| > 1 ==> s[0] != '0')
  }

  function Digit(c: char): int {
    c as int - '0' as int
  }

  function Pow10(n: nat): (p: int)
    ensures p > 0
  {
    if n == 0 then 1 else 10 * Pow10(n - 1)
  }

  /** The number that a string of digits denotes. */
  function Denoted(s: string): int {
    if s == "" then 0 else Digit(s[0]) * Pow10(|s| - 1) + Denoted(s[1..])
  }

  lemma {:induction false} DenotedBound(s: string)
    requires Digits(s)
    ensures 0 <= Denoted(s) < Pow10(|s|)
  {
    if s != "" {
      DenotedBound(s[1..]);
      Scaled(Digit(s[0]), 9, Pow10(|s| - 1));
      Scaled(0, Digit(s[0]), Pow10(|s| - 1));
    }
  }

  lemma Scaled(a: int, b: int, p: int)
    requires a <= b && p > 0
    ensures a * p <= b * p && (a < b ==> a * p + p <= b * p)
  {
    Difference(b, a, p);
    NonNegative(b - a, p);
    if a < b {
      Difference(b, a + 1, p);
      Difference(a + 1, a, p);
      NonNegative(b - (a + 1), p);
    }
  }

  /** For numbers of the same length the order of strings is the order of numbers. */
  lemma {:induction false} SameLengthOrder(x: string, y: string)
    requires Digits(x) && Digits(y) && |x| == |y|
    ensures AtMost(x, y) <==> Denoted(x) <= Denoted(y)
    ensures Denoted(x) == Denoted(y) ==> x == y
  {
    if x != "" {
      var p := Pow10(|x| - 1);
      SameLengthOrder(x[1..], y[1..]);
      DenotedBound(x[1..]);
      DenotedBound(y[1..]);
      if Digit(x[0]) < Digit(y[0]) {
        Scaled(Digit(x[0]), Digit(y[0]), p);
      } else if Digit(y[0]) < Digit(x[0]) {
        Scaled(Digit(y[0]), Digit(x[0]), p);
      } else {
        assert x == [x[0]] + x[1..] && y == [y[0]] + y[1..];
      }
    }
  }

  lemma {:induction false} Pow10Grows(a: nat, b: nat)
    requires a <= b
    ensures Pow10(a) <= Pow10(b)
    decreases b
  {
    if a < b {
      Pow10Grows(a, b - 1);
    }
  }

  /** The shorter of two numerals is the smaller number. */
  lemma ShorterIsLess(x: string, y: string)
    requires Numeral(x) && Numeral(y) && |x| < |y|
    ensures Denoted(x) < Denoted(y)
  {
    DenotedBound(x);
    DenotedBound(y[1..]);
    Pow10Grows(|x|, |y| - 1);
    Scaled(1, Digit(y[0]), Pow10(|y| - 1));
  }

  lemma {:induction false} AtMostTotal(x: string, y: string)
    ensures AtMost(x, y) || AtMost(y, x)
    ensures AtMost(x, y) && AtMost(y, x) ==> x == y
    ensures x == y ==> AtMost(x, y)
  {
    if x != "" && y != "" && x[0] == y[0] {
      AtMostTotal(x[1..], y[1..]);
      assert x == [x[0]] + x[1..] && y == [y[0]] + y[1..];
    }
  }

  /** What may follow a field of a name. */
  predicate EndsField(s: string) {
    s == "" || s[0] == '.'
  }

  /** Different fields decide, whatever follows them. */
  lemma {:induction false} FieldDecides(x: string, s: string, y: string, t: string)
    requires Digits(x) && Digits(y) && x != y && EndsField(s) && EndsField(t)
    ensures AtMost(x + s, y + t) <==> AtMost(x, y)
  {
    if x == "" {
      assert x + s == s && (y + t)[0] == y[0];
    } else if y == "" {
      assert y + t == t && (x + s)[0] == x[0];
    } else {
      assert (x + s)[0] == x[0] && (y + t)[0] == y[0];
      if x[0] == y[0] {
        assert (x + s)[1..] == x[1..] + s && (y + t)[1..] == y[1..] + t;
        assert x == [x[0]] + x[1..] && y == [y[0]] + y[1..];
        FieldDecides(x[1..], s, y[1..], t);
      }
    }
  }

  /** An equal beginning does not matter. */
  lemma {:induction false} SamePrefix(x: string, s: string, t: string)
    ensures AtMost(x + s, x + t) <==> AtMost(s, t)
  {
    if x == "" {
      assert x + s == s && x + t == t;
    } else {
      assert (x + s)[1..] == x[1..] + s && (x + t)[1..] == x[1..] + t;
      SamePrefix(x[1..], s, t);
    }
  }

  datatype Release = Release(major: string, minor: string, patch: string) {
    predicate Valid() {
      Numeral(major) && Numeral(minor) && Numeral(patch)
    }

    function Name(): string {
      major + ("." + (minor + ("." + patch)))
    }
  }

  /** Not newer: compared as three numbers. */
  predicate NotNewer(a: Release, b: Release) {
    || Denoted(a.major) < Denoted(b.major)
    || (a.major == b.major && Denoted(a.minor) < Denoted(b.minor))
    || (a.major == b.major && a.minor == b.minor && Denoted(a.patch) <= Denoted(b.patch))
  }

  /** The order of strings agrees with that of numbers: they have the same length, or the shorter
      one comes first. */
  predicate OrdersAlike(x: string, y: string) {
    if |x| == |y| then true else if |x| < |y| then AtMost(x, y) else AtMost(y, x)
  }

  /** The first fields in which two releases differ. */
  function FirstDifference(a: Release, b: Release): (string, string) {
    if a.major != b.major then (a.major, b.major)
    else if a.minor != b.minor then (a.minor, b.minor)
    else (a.patch, b.patch)
  }

  lemma NumeralOrder(x: string, y: string)
    requires Numeral(x) && Numeral(y)
    ensures (AtMost(x, y) <==> Denoted(x) <= Denoted(y)) <==> OrdersAlike(x, y)
    ensures Denoted(x) == Denoted(y) <==> x == y
  {
    AtMostTotal(x, y);
    if |x| == |y| {
      SameLengthOrder(x, y);
    } else if |x| < |y| {
      ShorterIsLess(x, y);
    } else {
      ShorterIsLess(y, x);
    }
  }

  lemma NamesDecidedByDifference(a: Release, b: Release)
    requires a.Valid() && b.Valid()
    ensures var (x, y) := FirstDifference(a, b);
      AtMost(a.Name(), b.Name()) <==> AtMost(x, y)
  {
    var rest, rest' := "." + (a.minor + ("." + a.patch)), "." + (b.minor + ("." + b.patch));
    if a.major != b.major {
      FieldDecides(a.major, rest, b.major, rest');
    } else {
      SamePrefix(a.major, rest, rest');
      SamePrefix(".", a.minor + ("." + a.patch), b.minor + ("." + b.patch));
      if a.minor != b.minor {
        FieldDecides(a.minor, "." + a.patch, b.minor, "." + b.patch);
      } else {
        SamePrefix(a.minor, "." + a.patch, "." + b.patch);
        SamePrefix(".", a.patch, b.patch);
      }
    }
  }

  /** The list is sorted by name where the comment expects newest to oldest.  For two releases the
      two orders agree exactly when they agree on the first fields that differ. */
  lemma NameOrderIsReleaseOrder(a: Release, b: Release)
    requires a.Valid() && b.Valid()
    ensures (AtMost(a.Name(), b.Name()) <==> NotNewer(a, b))
      <==> OrdersAlike(FirstDifference(a, b).0, FirstDifference(a, b).1)
  {
    NamesDecidedByDifference(a, b);
    NumeralOrder(a.major, b.major);
    NumeralOrder(a.minor, b.minor);
    NumeralOrder(a.patch, b.patch);
  }

  /** By name 10.0.0 counts as older than 9.0.0. */
  lemma TenBeforeNine()
    ensures AtMost("10.0.0", "9.0.0") && !AtMost("9.0.0", "10.0.0")
    ensures Release("10", "0", "0").Name() == "10.0.0" && Release("9", "0", "0").Name() == "9.0.0"
    ensures NotNewer(Release("9", "0", "0"), Release("10", "0", "0"))
    ensures !NotNewer(Release("10", "0", "0"), Release("9", "0", "0"))
  {
    ShorterIsLess("9", "10");
  }

  // ---------------------------------------------------------------- what names mean

  /** The fields of a release's name are its three numbers. */
  lemma FieldsOfRelease(a: Release)
    requires a.Valid()
    ensures Fields(a.Name()) == [a.major, a.minor, a.patch]
  {
    FieldsOfThree(a.major, a.minor, a.patch);
  }

  function Dotted(x: string, y: string, z: string): string {
    x + ("." + (y + ("." + z)))
  }

  lemma FieldsOfThree(x: string, y: string, z: string)
    requires '.' !in x && '.' !in y && '.' !in z
    ensures Fields(Dotted(x, y, z)) == [x, y, z]
  {
    FieldsOfPlain(z);
    FieldsAfterPlain(y, z);
    FieldsAfterPlain(x, y + ("." + z));
  }

  lemma {:induction false} FieldsOfPlain(x: string)
    requires '.' !in x
    ensures Fields(x) == [x]
  {
    if x != "" {
      FieldsOfPlain(x[1..]);
      assert x == [x[0]] + x[1..];
    }
  }

  lemma {:induction false} FieldsAfterPlain(x: string, rest: string)
    requires '.' !in x
    ensures Fields(x + ("." + rest)) == [x] + Fields(rest)
  {
    var s := x + ("." + rest);
    if x == "" {
      assert s[1..] == rest;
    } else {
      assert s[1..] == x[1..] + ("." + rest);
      FieldsAfterPlain(x[1..], rest);
      assert x == [x[0]] + x[1..];
    }
  }

  function JoinDots(fields: seq<string>): string
    requires fields != []
  {
    if |fields| == 1 then fields[0] else fields[0] + ("." + JoinDots(fields[1..]))
  }

  /** Splitting at the dots and joining again gives the name back, and no field has a dot. */
  lemma {:induction false} FieldsJoin(name: string)
    ensures JoinDots(Fields(name)) == name
    ensures forall i | 0 <= i < |Fields(name)| :: '.' !in Fields(name)[i]
  {
    if name != "" {
      var rest, fields := Fields(name[1..]), Fields(name);
      FieldsJoin(name[1..]);
      assert name == [name[0]] + name[1..];
      if name[0] == '.' {
        assert fields[1..] == rest;
      } else {
        assert fields[1..] == rest[1..] && fields[0] == [name[0]] + rest[0];
        if |rest| > 1 {
          Regroup([name[0]], rest[0], "." + JoinDots(rest[1..]));
        }
      }
    }
  }

  /** A name can be taken apart exactly when it is three texts without dots between two dots, and
      then it is that of a patch release exactly when the third is not "0". */
  lemma NameInThree(v: Version)
    ensures ThreeFields(v) <==>
      exists x, y, z :: v.name == Dotted(x, y, z) && '.' !in x && '.' !in y && '.' !in z
    ensures forall x, y, z | v.name == Dotted(x, y, z) && '.' !in x && '.' !in y && '.' !in z ::
      ThreeFields(v) && (IsPatch(v) <==> z != "0")
  {
    if ThreeFields(v) {
      var f := Fields(v.name);
      FieldsJoin(v.name);
      assert JoinDots(f[1..][1..]) == f[2] && JoinDots(f[1..]) == f[1] + ("." + f[2]);
      assert v.name == Dotted(f[0], f[1], f[2]);
    }
    forall x, y, z | v.name == Dotted(x, y, z) && '.' !in x && '.' !in y && '.' !in z
      ensures ThreeFields(v) && (IsPatch(v) <==> z != "0")
    {
      FieldsOfThree(x, y, z);
    }
  }

  /** A release is a patch release exactly when its third number is not zero. */
  lemma PatchOfRelease(a: Release, released: bool)
    requires a.Valid()
    ensures ThreeFields(Version(a.Name(), released))
    ensures IsPatch(Version(a.Name(), released)) <==> Denoted(a.patch) != 0
  {
    FieldsOfRelease(a);
    NumeralOrder(a.patch, "0");
    assert Denoted("0") == 0;
  }

  /** What a candidate for a suggestion is, on releases. */
  lemma CandidateRelease(parquet: bool, all: seq<Version>, a: Release)
    requires a.Valid()
    ensures Candidate(parquet, all, Version(a.Name(), false)) <==>
      !parquet && Version(a.Name(), false) in all && Denoted(a.patch) == 0
  {
    PatchOfRelease(a, false);
    MainlineShape(parquet, Version(a.Name(), false));
    assert a.Name()[0] == a.major[0];
  }

  /** The versions that count as mainline: those that match \d.* or, for PARQUET, cpp-\d.* */
  lemma MainlineShape(parquet: bool, v: Version)
    ensures IsMainline(parquet, v) <==>
      exists d: char, rest: string :: '0' <= d <= '9' && v.name == (if parquet then "cpp-" else "") + ([d] + rest)
  {
    var head := if parquet then "cpp-" else "";
    if IsMainline(parquet, v) {
      var d, rest := v.name[|head|], v.name[|head| + 1..];
      assert v.name == head + ([d] + rest);
    }
    if d: char, rest: string :| '0' <= d <= '9' && v.name == head + ([d] + rest) {
      assert v.name[..|head|] == head && v.name[|head|..] == [d] + rest;
    }
  }

  /** Where the marker of a release branch starts in s. */
  predicate MarkerAt(s: string, i: nat) {
    i + 7 <= |s| && s[i..i + 7] == "branch-"
  }

  lemma MarkerAtStart(s: string)
    ensures MarkerAt(s, 0) <==> "branch-" <= s
  {
    if 7 <= |s| {
      assert s[0..0 + 7] == s[..7];
    }
  }

  /** Without the marker a branch name stays as it is. */
  lemma {:induction false} NoMarker(s: string)
    requires forall i: nat :: !MarkerAt(s, i)
    ensures WithoutMarker(s) == s
  {
    if s != "" {
      MarkerAtStart(s);
      forall i: nat ensures !MarkerAt(s[1..], i) {
        var j := i + 1;
        assert !MarkerAt(s, j);
        assert j + 7 <= |s| ==> s[1..][i..i + 7] == s[j..j + 7];
      }
      NoMarker(s[1..]);
    }
  }

  /** The first marker is taken out, and what follows it is treated in the same way. */
  lemma {:induction false} FirstMarker(s: string, i: nat)
    requires MarkerAt(s, i) && forall j: nat | j < i :: !MarkerAt(s, j)
    ensures WithoutMarker(s) == s[..i] + WithoutMarker(s[i + 7..])
    decreases i
  {
    if i == 0 {
      MarkerAtStart(s);
    } else {
      MarkerAtStart(s);
      var t, k := s[1..], i - 1;
      assert t[k..k + 7] == s[i..i + 7];
      forall j: nat | j < k ensures !MarkerAt(t, j) {
        var m := j + 1;
        assert !MarkerAt(s, m);
        assert t[j..j + 7] == s[m..m + 7];
      }
      FirstMarker(t, k);
      assert t[k + 7..] == s[i + 7..];
      assert s[..i] == [s[0]] + t[..k];
    }
  }

  /** The order of names is that of Python: the first place where they differ decides, and a name
      comes before the names it begins. */
  lemma {:induction false} LexicographicOrder(a: string, b: string)
    ensures AtMost(a, b) <==> a <= b || exists i: nat :: DiffersAt(a, b, i) && a[i] < b[i]
  {
    if a != "" && b != "" {
      if a[0] == b[0] {
        LexicographicOrder(a[1..], b[1..]);
        SameStart(a, b);
      } else {
        OtherStart(a, b);
      }
    }
  }

  lemma OtherStart(a: string, b: string)
    requires a != "" && b != "" && a[0] != b[0]
    ensures !(a <= b) && DiffersAt(a, b, 0) && forall i: nat | DiffersAt(a, b, i) :: i == 0
  {
    forall i: nat | i > 0 ensures !DiffersAt(a, b, i) {
      if i < |a| && i < |b| {
        assert a[..i][0] != b[..i][0];
      }
    }
  }

  lemma SameStart(a: string, b: string)
    requires a != "" && b != "" && a[0] == b[0]
    ensures a <= b <==> a[1..] <= b[1..]
    ensures (exists i: nat :: DiffersAt(a, b, i) && a[i] < b[i])
      <==> exists i: nat :: DiffersAt(a[1..], b[1..], i) && a[1..][i] < b[1..][i]
  {
    var a', b' := a[1..], b[1..];
    assert a == [a[0]] + a' && b == [b[0]] + b';
    if i: nat :| DiffersAt(a', b', i) && a'[i] < b'[i] {
      DiffersShift(a, b, i);
    }
    if i: nat :| DiffersAt(a, b, i) && a[i] < b[i] {
      DiffersShift(a, b, i - 1);
    }
  }

  lemma DiffersShift(a: string, b: string, i: nat)
    requires a != "" && b != "" && a[0] == b[0]
    ensures DiffersAt(a, b, i + 1) <==> DiffersAt(a[1..], b[1..], i)
  {
    var a', b' := a[1..], b[1..];
    if i < |a'| && i < |b'| {
      assert a[..i + 1] == [a[0]] + a'[..i] && b[..i + 1] == [b[0]] + b'[..i];
      assert a[..i + 1][1..] == a'[..i] && b[..i + 1][1..] == b'[..i];
    }
  }

  predicate DiffersAt(a: string, b: string, i: nat) {
    i < |a| && i < |b| && a[..i] == b[..i] && a[i] != b[i]
  }

  // ---------------------------------------------------------------- resolving an issue

  lemma ConcatDistinct<T>(a: seq<T>, b: seq<T>)
    requires NoDuplicates(a) && NoDuplicates(b) && forall x <- b :: x !in a
    ensures NoDuplicates(a + b)
  {
    assert forall i | 0 <= i < |b| :: b[i] in b;
  }

  /** A current fix version that must not be overwritten. */
  predicate CarriedOver(requested: seq<string>, v: Version) {
    ThreeFields(v) && IsPatch(v) && v.name !in requested
  }

  /** The version merge of resolve, on names. */
  method MergeFixVersions(requested: seq<string>, current: seq<Version>) returns (r: Outcome<seq<string>>)
    ensures r.ValueError? <==> exists v <- current :: !ThreeFields(v)
    ensures !r.IndexError?
    ensures r.Ok? ==> r.value == requested + Carried(requested, current)
  {
    var names := requested;
    var i := 0;
    while i < |current|
      invariant 0 <= i <= |current|
      invariant forall v <- current[..i] :: ThreeFields(v)
      invariant names == requested + Carried(requested, current[..i])
    {
      var v := current[i];
      assert v in current;
      CarriedSnoc(requested, current, i);
      if |Fields(v.name)| != 3 {
        return ValueError;
      }
      if Fields(v.name)[2] != "0" && v.name !in requested {
        Regroup(requested, Carried(requested, current[..i]), [v.name]);
        names := names + [v.name];
      }
      i := i + 1;
    }
    assert current[..i] == current;
    return Ok(names);
  }

  /** The names added to the requested ones, in the order of the current list. */
  function Carried(requested: seq<string>, current: seq<Version>): seq<string> {
    if current == [] then []
    else
      var n := |current| - 1;
      Carried(requested, current[..n]) + if CarriedOver(requested, current[n]) then [current[n].name] else []
  }

  lemma CarriedSnoc(requested: seq<string>, current: seq<Version>, i: nat)
    requires i < |current|
    ensures current[..i + 1] == current[..i] + [current[i]]
    ensures Carried(requested, current[..i + 1])
      == Carried(requested, current[..i]) + if CarriedOver(requested, current[i]) then [current[i].name] else []
  {
    assert current[..i + 1][..i] == current[..i];
  }

  function Names(vs: seq<Version>): seq<string> {
    seq(|vs|, i requires 0 <= i < |vs| => vs[i].name)
  }

  /** The added names are those of current point releases that were not requested; none is added
      twice if none is there twice. */
  lemma CarriedNames(requested: seq<string>, current: seq<Version>)
    ensures forall name :: name in Carried(requested, current) <==>
      exists v :: v in current && v.name == name && CarriedOver(requested, v)
    ensures NoDuplicates(Names(current)) ==> NoDuplicates(Carried(requested, current))
  {
    forall name ensures name in Carried(requested, current) <==>
      exists v :: v in current && v.name == name && CarriedOver(requested, v)
    {
      CarriedMembers(requested, current, name);
    }
    if NoDuplicates(Names(current)) {
      CarriedDistinct(requested, current);
    }
  }

  lemma {:induction false} CarriedMembers(requested: seq<string>, current: seq<Version>, name: string)
    ensures name in Carried(requested, current) <==>
      exists v :: v in current && v.name == name && CarriedOver(requested, v)
  {
    if current != [] {
      var n := |current| - 1;
      var v, before := current[n], current[..n];
      CarriedMembers(requested, before, name);
      assert current == before + [v];
      if u :| u in before && u.name == name && CarriedOver(requested, u) { assert u in current; }
      if u :| u in current && u.name == name && CarriedOver(requested, u) { assert u in before || u == v; }
      assert v in current;
    }
  }

  lemma {:induction false} CarriedDistinct(requested: seq<string>, current: seq<Version>)
    requires NoDuplicates(Names(current))
    ensures NoDuplicates(Carried(requested, current))
  {
    if current != [] {
      var n := |current| - 1;
      var v, before := current[n], current[..n];
      assert forall i | 0 <= i < n :: Names(before)[i] == Names(current)[i];
      CarriedDistinct(requested, before);
      forall name | name in Carried(requested, before) ensures name != v.name {
        CarriedMembers(requested, before, name);
        var u :| u in before && u.name == name && CarriedOver(requested, u);
        var i :| 0 <= i < n && before[i] == u;
        assert Names(current)[i] == name && Names(current)[n] == v.name;
      }
      ConcatDistinct(Carried(requested, before), if CarriedOver(requested, v) then [v.name] else []);
    }
  }

  /** After resolving, the issue has the requested versions and every current point release,
      each once if no name was given twice. */
  lemma ResolvedVersions(requested: seq<string>, current: seq<Version>)
    requires forall v <- current :: ThreeFields(v)
    ensures forall name :: name in requested + Carried(requested, current) <==>
      name in requested || exists v :: v in current && v.name == name && IsPatch(v)
    ensures NoDuplicates(requested) && NoDuplicates(Names(current)) ==>
      NoDuplicates(requested + Carried(requested, current))
  {
    CarriedNames(requested, current);
    var carried := Carried(requested, current);
    forall name | name in carried ensures name !in requested {
      var v :| v in current && v.name == name && CarriedOver(requested, v);
    }
    if NoDuplicates(requested) && NoDuplicates(Names(current)) {
      ConcatDistinct(requested, carried);
    }
    forall name ensures name in requested + carried <==>
      name in requested || exists v :: v in current && v.name == name && IsPatch(v)
    {
      if v :| v in current && v.name == name && IsPatch(v) {
        assert name in requested || CarriedOver(requested, v);
      }
    }
  }

  /** The same on releases: a current release that was not requested stays exactly when its third
      number is not zero. */
  lemma ResolvedReleases(requested: seq<string>, current: seq<Version>, a: Release)
    requires forall v <- current :: ThreeFields(v)
    requires a.Valid() && exists v :: v in current && v.name == a.Name()
    ensures a.Name() in requested + Carried(requested, current) <==> a.Name() in requested || Denoted(a.patch) != 0
  {
    ResolvedVersions(requested, current);
    PatchOfRelease(a, false);
    forall v | v in current && v.name == a.Name() ensures IsPatch(v) <==> Denoted(a.patch) != 0 {
      assert Fields(v.name) == Fields(Version(a.Name(), false).name);
    }
  }

  // ---------------------------------------------------------------- examples of suggestions

  /** With only two unreleased mainline versions of three fields, one of them a patch release, the
      other is suggested for master, whichever name is less. */
  method SuggestsPlain(plain: Version, patch: Version, sorted: seq<Version>) returns (r: Outcome<string>)
    requires IsMainline(false, plain) && IsMainline(false, patch) && !plain.released && !patch.released
    requires ThreeFields(plain) && !IsPatch(plain) && ThreeFields(patch) && IsPatch(patch)
    requires IsSortedUnreleased([patch, plain], sorted)
    ensures r == Ok(plain.name)
  {
    ghost var all := [patch, plain];
    assert forall v :: v in all <==> v == patch || v == plain;
    assert Candidate(false, all, plain);
    r := SuggestFor("master", false, all, sorted);
  }

  lemma FieldsOf0111()
    ensures Fields("0.11.1") == ["0", "11", "1"]
  {
    FieldsOfThree("0", "11", "1");
    assert Dotted("0", "11", "1") == "0.11.1";
  }

  lemma FieldsOf0120()
    ensures Fields("0.12.0") == ["0", "12", "0"]
  {
    FieldsOfThree("0", "12", "0");
    assert Dotted("0", "12", "0") == "0.12.0";
  }

  lemma PatchIsLess()
    ensures AtMost("0.11.1", "0.12.0")
  {
    SamePrefix("0.1", "1.1", "2.0");
    assert "0.1" + "1.1" == "0.11.1" && "0.1" + "2.0" == "0.12.0";
  }

  lemma SortedTwo(x: Version, y: Version)
    requires AtMost(x.name, y.name) && !x.released && !y.released
    ensures IsSortedUnreleased([x, y], [y, x])
  {
  }

  /** 0.11.1 is not suggested while 0.12.0 is there, although its name is less. */
  method NoPatchSuggested() returns (r: Outcome<string>)
    ensures r == Ok("0.12.0")
  {
    var patch, plain := Version("0.11.1", false), Version("0.12.0", false);
    FieldsOf0111();
    FieldsOf0120();
    PatchIsLess();
    SortedTwo(patch, plain);
    r := SuggestsPlain(plain, patch, [plain, patch]);
  }
}
