/** Ordering of dotted numeric driver versions, as `packaging.version` orders
    release numbers: integer segments compared left to right, with missing
    trailing segments read as zero. Only `[0-9]+(\.[0-9]+)*` is accepted;
    anything else is the library's invalid-version error. */
module Versions {
  import opened Wrappers
  import opened Text

  /** `packaging.version.InvalidVersion`, which is not a `DriverError`. */
  datatype VersionError = InvalidVersion(text: string)

  /** Every dot-separated piece is a non-empty run of ASCII digits. */
  predicate IsDottedNumeric(s: string) {
    var parts := SplitOn(s, {'.'});
    forall i :: 0 <= i < |parts| ==> |parts[i]| > 0 && AllDigits(parts[i])
  }

  /** `version.parse(s).release` */
  function ParseRelease(s: string): (r: Result<seq<nat>, VersionError>)
    ensures r.Success? <==> IsDottedNumeric(s)
    ensures r.Failure? ==> r.error == InvalidVersion(s)
    ensures r.Success? ==> |r.value| == |SplitOn(s, {'.'})| >= 1
    ensures r.Success? ==> forall i :: 0 <= i < |r.value| ==> r.value[i] == DigitsValue(SplitOn(s, {'.'})[i])
  {
    var parts := SplitOn(s, {'.'});
    if forall i :: 0 <= i < |parts| ==> |parts[i]| > 0 && AllDigits(parts[i]) then
      Success(seq(|parts|, i requires 0 <= i < |parts| => DigitsValue(parts[i])))
    else
      Failure(InvalidVersion(s))
  }

  /** The canonical text of a release: segments in decimal, joined by dots. */
  function FormatRelease(v: seq<nat>): string {
    Join(seq(|v|, i requires 0 <= i < |v| => NatToString(v[i])), ".")
  }

  /** Formatting then parsing gives the release back. */
  lemma FormatParseRoundTrip(v: seq<nat>)
    requires |v| >= 1
    ensures IsDottedNumeric(FormatRelease(v))
    ensures ParseRelease(FormatRelease(v)) == Success(v)
  {
    var pieces := seq(|v|, i requires 0 <= i < |v| => NatToString(v[i]));
    forall i, k | 0 <= i < |pieces| && 0 <= k < |pieces[i]|
      ensures pieces[i][k] !in {'.'}
    {
      assert IsDigit(pieces[i][k]);
    }
    SplitJoin(pieces, '.', {'.'});
    forall i | 0 <= i < |v|
      ensures DigitsValue(pieces[i]) == v[i]
    {
      NatToStringRoundTrip(v[i]);
    }
    assert SplitOn(FormatRelease(v), {'.'}) == pieces;
    var r := ParseRelease(FormatRelease(v));
    assert r.Success?;
    assert r.value == v;
  }

  function Tail(a: seq<nat>): seq<nat> {
    if |a| == 0 then [] else a[1..]
  }

  function Head(a: seq<nat>): nat {
    if |a| == 0 then 0 else a[0]
  }

  /** Release comparison with implicit trailing zeros: -1, 0 or 1. */
  function CompareRelease(a: seq<nat>, b: seq<nat>): (r: int)
    ensures -1 <= r <= 1
    decreases |a| + |b|
  {
    if |a| == 0 && |b| == 0 then 0
    else if Head(a) < Head(b) then -1
    else if Head(a) > Head(b) then 1
    else CompareRelease(Tail(a), Tail(b))
  }

  lemma {:induction false} CompareReflexive(a: seq<nat>)
    ensures CompareRelease(a, a) == 0
    decreases |a|
  {
    if |a| > 0 {
      CompareReflexive(Tail(a));
    }
  }

  lemma {:induction false} CompareAntisymmetric(a: seq<nat>, b: seq<nat>)
    ensures CompareRelease(a, b) == -CompareRelease(b, a)
    decreases |a| + |b|
  {
    if !(|a| == 0 && |b| == 0) && Head(a) == Head(b) {
      CompareAntisymmetric(Tail(a), Tail(b));
    }
  }

  lemma {:induction false} CompareTransitive(a: seq<nat>, b: seq<nat>, c: seq<nat>)
    requires CompareRelease(a, b) >= 0 && CompareRelease(b, c) >= 0
    ensures CompareRelease(a, c) >= 0
    decreases |a| + |b| + |c|
  {
    if |a| == 0 && |c| == 0 {
    } else if Head(a) == Head(b) && Head(b) == Head(c) {
      CompareTransitive(Tail(a), Tail(b), Tail(c));
    }
  }

  /** A trailing zero segment never changes the comparison. */
  lemma {:induction false} TrailingZeroIgnored(a: seq<nat>, b: seq<nat>)
    ensures CompareRelease(a + [0], b) == CompareRelease(a, b)
    decreases |a| + |b|
  {
    if |a| == 0 {
      assert Head(a + [0]) == 0 && Tail(a + [0]) == [];
      if |b| > 0 && Head(b) == 0 {
        assert CompareRelease(a + [0], b) == CompareRelease([], Tail(b));
      }
    } else {
      assert Head(a + [0]) == Head(a) && Tail(a + [0]) == Tail(a) + [0];
      if Head(a) == Head(b) {
        TrailingZeroIgnored(Tail(a), Tail(b));
      }
    }
  }

  /** Segment `j` of a release, zero past its end. */
  function Seg(a: seq<nat>, j: nat): nat {
    if j < |a| then a[j] else 0
  }

  /** `i` is the first segment where the two releases differ. */
  predicate FirstDiff(a: seq<nat>, b: seq<nat>, i: nat) {
    (forall j: nat :: j < i ==> Seg(a, j) == Seg(b, j)) && Seg(a, i) != Seg(b, i)
  }

  /** `a` orders before `b`: smaller at the first segment where they differ. */
  ghost predicate ReleaseLess(a: seq<nat>, b: seq<nat>) {
    exists i: nat :: FirstDiff(a, b, i) && Seg(a, i) < Seg(b, i)
  }

  lemma SegTail(a: seq<nat>, j: nat)
    ensures Seg(Tail(a), j) == Seg(a, j + 1)
    ensures Seg(a, 0) == Head(a)
  {
  }

  /** The comparison is 0 exactly when every segment agrees. */
  lemma {:induction false} CompareZeroIff(a: seq<nat>, b: seq<nat>)
    ensures CompareRelease(a, b) == 0 <==> forall j: nat :: Seg(a, j) == Seg(b, j)
    decreases |a| + |b|
  {
    if |a| == 0 && |b| == 0 {
    } else {
      SegTail(a, 0);
      SegTail(b, 0);
      CompareZeroIff(Tail(a), Tail(b));
      if Head(a) == Head(b) {
        forall j: nat
          ensures Seg(Tail(a), j) == Seg(Tail(b), j) <==> Seg(a, j + 1) == Seg(b, j + 1)
        {
          SegTail(a, j);
          SegTail(b, j);
        }
        if CompareRelease(a, b) == 0 {
          forall j: nat
            ensures Seg(a, j) == Seg(b, j)
          {
            if j > 0 {
              assert Seg(Tail(a), j - 1) == Seg(Tail(b), j - 1);
            }
          }
        }
        if forall j: nat :: Seg(a, j) == Seg(b, j) {
          forall j: nat
            ensures Seg(Tail(a), j) == Seg(Tail(b), j)
          {
            assert Seg(a, j + 1) == Seg(b, j + 1);
          }
        }
      }
    }
  }

  /** The comparison is decided by the first differing segment. */
  lemma {:induction false} CompareFirstDiff(a: seq<nat>, b: seq<nat>, i: nat)
    requires FirstDiff(a, b, i)
    ensures CompareRelease(a, b) == if Seg(a, i) < Seg(b, i) then -1 else 1
    decreases i
  {
    SegTail(a, 0);
    SegTail(b, 0);
    if i > 0 {
      assert Head(a) == Head(b) by {
        assert Seg(a, 0) == Seg(b, 0);
      }
      forall j: nat | j < i - 1
        ensures Seg(Tail(a), j) == Seg(Tail(b), j)
      {
        SegTail(a, j);
        SegTail(b, j);
        assert Seg(a, j + 1) == Seg(b, j + 1);
      }
      SegTail(a, i - 1);
      SegTail(b, i - 1);
      CompareFirstDiff(Tail(a), Tail(b), i - 1);
    }
  }

  /** -1 exactly when `a` orders before `b`, 1 exactly when after. */
  lemma {:induction false} CompareLessIff(a: seq<nat>, b: seq<nat>)
    ensures CompareRelease(a, b) == -1 <==> ReleaseLess(a, b)
    ensures CompareRelease(a, b) == 1 <==> ReleaseLess(b, a)
    decreases |a| + |b|
  {
    DiffWitness(a, b);
    if ReleaseLess(a, b) {
      var i: nat :| FirstDiff(a, b, i) && Seg(a, i) < Seg(b, i);
      CompareFirstDiff(a, b, i);
    }
    if ReleaseLess(b, a) {
      var i: nat :| FirstDiff(b, a, i) && Seg(b, i) < Seg(a, i);
      assert FirstDiff(a, b, i);
      CompareFirstDiff(a, b, i);
    }
  }

  /** A non-zero comparison has a first differing segment, which decides it. */
  lemma {:induction false} DiffWitness(a: seq<nat>, b: seq<nat>)
    ensures CompareRelease(a, b) == -1 ==> ReleaseLess(a, b)
    ensures CompareRelease(a, b) == 1 ==> ReleaseLess(b, a)
    decreases |a| + |b|
  {
    if |a| == 0 && |b| == 0 {
    } else {
      SegTail(a, 0);
      SegTail(b, 0);
      if Head(a) < Head(b) {
        assert FirstDiff(a, b, 0);
      } else if Head(a) > Head(b) {
        assert FirstDiff(b, a, 0);
      } else {
        DiffWitness(Tail(a), Tail(b));
        if CompareRelease(a, b) == -1 {
          var i: nat :| FirstDiff(Tail(a), Tail(b), i) && Seg(Tail(a), i) < Seg(Tail(b), i);
          ShiftDiff(a, b, i);
        } else if CompareRelease(a, b) == 1 {
          var i: nat :| FirstDiff(Tail(b), Tail(a), i) && Seg(Tail(b), i) < Seg(Tail(a), i);
          ShiftDiff(b, a, i);
        }
      }
    }
  }

  /** A first difference of the tails is one segment later in the whole. */
  lemma ShiftDiff(a: seq<nat>, b: seq<nat>, i: nat)
    requires Head(a) == Head(b) && FirstDiff(Tail(a), Tail(b), i)
    ensures FirstDiff(a, b, i + 1)
    ensures Seg(a, i + 1) == Seg(Tail(a), i) && Seg(b, i + 1) == Seg(Tail(b), i)
  {
    SegTail(a, i);
    SegTail(b, i);
    forall j: nat | j < i + 1
      ensures Seg(a, j) == Seg(b, j)
    {
      SegTail(a, 0);
      SegTail(b, 0);
      if j > 0 {
        SegTail(a, j - 1);
        SegTail(b, j - 1);
      }
    }
  }

  /** `compare_versions(ver1, ver2)`; the first invalid argument is reported. */
  function CompareVersions(ver1: string, ver2: string): (r: Result<int, VersionError>)
    ensures r.Success? <==> IsDottedNumeric(ver1) && IsDottedNumeric(ver2)
    ensures !IsDottedNumeric(ver1) ==> r == Failure(InvalidVersion(ver1))
    ensures IsDottedNumeric(ver1) && !IsDottedNumeric(ver2) ==> r == Failure(InvalidVersion(ver2))
    ensures r.Success? ==> r.value in {-1, 0, 1}
  {
    match ParseRelease(ver1)
    case Failure(e) => Failure(e)
    case Success(a) =>
      match ParseRelease(ver2)
      case Failure(e) => Failure(e)
      case Success(b) => Success(CompareRelease(a, b))
  }

  lemma CompareVersionsReflexive(v: string)
    requires IsDottedNumeric(v)
    ensures CompareVersions(v, v) == Success(0)
  {
    CompareReflexive(ParseRelease(v).value);
  }

  lemma CompareVersionsAntisymmetric(v1: string, v2: string)
    requires IsDottedNumeric(v1) && IsDottedNumeric(v2)
    ensures CompareVersions(v1, v2).value == -CompareVersions(v2, v1).value
  {
    CompareAntisymmetric(ParseRelease(v1).value, ParseRelease(v2).value);
  }

  /** For valid versions, -1, 0 and 1 follow the release order: before,
      equal segment by segment (missing segments read as zero), after. */
  lemma CompareVersionsOrder(v1: string, v2: string)
    requires IsDottedNumeric(v1) && IsDottedNumeric(v2)
    ensures var a, b := ParseRelease(v1).value, ParseRelease(v2).value;
      && (CompareVersions(v1, v2) == Success(-1) <==> ReleaseLess(a, b))
      && (CompareVersions(v1, v2) == Success(0) <==> forall j: nat :: Seg(a, j) == Seg(b, j))
      && (CompareVersions(v1, v2) == Success(1) <==> ReleaseLess(b, a))
  {
    var a, b := ParseRelease(v1).value, ParseRelease(v2).value;
    CompareLessIff(a, b);
    CompareZeroIff(a, b);
  }

  /** `version_meets_minimum(driver_version, minimum_version)` */
  function VersionMeetsMinimum(driverVersion: string, minimumVersion: string): (r: Result<bool, VersionError>)
    ensures r.Success? <==> IsDottedNumeric(driverVersion) && IsDottedNumeric(minimumVersion)
    ensures r.Success? ==> (r.value <==> CompareRelease(ParseRelease(driverVersion).value, ParseRelease(minimumVersion).value) >= 0)
  {
    match CompareVersions(driverVersion, minimumVersion)
    case Failure(e) => Failure(e)
    case Success(c) => Success(c >= 0)
  }

  /** Every version meets itself as a minimum: the boundary is inclusive. */
  lemma MeetsMinimumInclusive(v: string)
    requires IsDottedNumeric(v)
    ensures VersionMeetsMinimum(v, v) == Success(true)
  {
    CompareReflexive(ParseRelease(v).value);
  }

  lemma MeetsMinimumTransitive(a: string, b: string, c: string)
    requires VersionMeetsMinimum(a, b) == Success(true)
    requires VersionMeetsMinimum(b, c) == Success(true)
    ensures VersionMeetsMinimum(a, c) == Success(true)
  {
    CompareTransitive(ParseRelease(a).value, ParseRelease(b).value, ParseRelease(c).value);
  }

  /** Of two valid versions, at least one meets the other. */
  lemma MeetsMinimumTotal(a: string, b: string)
    requires IsDottedNumeric(a) && IsDottedNumeric(b)
    ensures VersionMeetsMinimum(a, b) == Success(true) || VersionMeetsMinimum(b, a) == Success(true)
  {
    CompareAntisymmetric(ParseRelease(a).value, ParseRelease(b).value);
  }

  /** Two digit runs joined by a dot parse as a two-segment release. */
  lemma ParseTwoSegments(major: string, minor: string)
    requires |major| > 0 && AllDigits(major) && |minor| > 0 && AllDigits(minor)
    ensures ParseRelease(major + "." + minor) == Success([DigitsValue(major), DigitsValue(minor)])
  {
    assert major + "." + minor == major + ['.'] + minor;
    SplitOnConcat(major, '.', minor, {'.'});
    forall k | 0 <= k < |major| ensures major[k] !in {'.'} { assert IsDigit(major[k]); }
    forall k | 0 <= k < |minor| ensures minor[k] !in {'.'} { assert IsDigit(minor[k]); }
    SplitOnWithout(major, {'.'});
    SplitOnWithout(minor, {'.'});
    var parts := SplitOn(major + "." + minor, {'.'});
    assert parts == [major, minor];
    assert IsDottedNumeric(major + "." + minor);
    var r := ParseRelease(major + "." + minor);
    assert |r.value| == 2;
    assert r.value[0] == DigitsValue(parts[0]) && r.value[1] == DigitsValue(parts[1]);
    assert r.value == [DigitsValue(major), DigitsValue(minor)];
  }

  /** Leading zeros are ignored: `528.03` equals `528.3`. */
  lemma LeadingZeroExample()
    ensures CompareVersions("528.03", "528.3") == Success(0)
  {
    assert "528" + "." + "03" == "528.03" && "528" + "." + "3" == "528.3";
    ParseTwoSegments("528", "03");
    ParseTwoSegments("528", "3");
    assert "03"[..1] == "0";
    assert DigitsValue("03") == 3 && DigitsValue("3") == 3;
    assert ParseRelease("528.03") == ParseRelease("528.3");
  }

  lemma Parse528p33()
    ensures ParseRelease("528.33") == Success([528, 33])
  {
    assert "528" + "." + "33" == "528.33";
    assert "528"[..2] == "52" && "52"[..1] == "5" && "33"[..1] == "3";
    ParseTwoSegments("528", "33");
  }

  lemma Parse566p03()
    ensures ParseRelease("566.03") == Success([566, 3])
  {
    assert "566" + "." + "03" == "566.03";
    assert "566"[..2] == "56" && "56"[..1] == "5" && "03"[..1] == "0";
    ParseTwoSegments("566", "03");
  }

  lemma Parse500p00()
    ensures ParseRelease("500.00") == Success([500, 0])
  {
    assert "500" + "." + "00" == "500.00";
    assert "500"[..2] == "50" && "50"[..1] == "5" && "00"[..1] == "0";
    ParseTwoSegments("500", "00");
  }

  /** The minimum check on the tool's own thresholds: newer passes, older
      fails, and the boundary itself passes. */
  lemma MeetsMinimumExamples()
    ensures VersionMeetsMinimum("566.03", "528.33") == Success(true)
    ensures VersionMeetsMinimum("500.00", "528.33") == Success(false)
    ensures VersionMeetsMinimum("528.33", "528.33") == Success(true)
  {
    Parse528p33();
    Parse566p03();
    Parse500p00();
  }

  /** A trailing `.0` does not change a version: `528.33.0` equals `528.33`. */
  lemma TrailingZeroVersion(v: string)
    requires IsDottedNumeric(v)
    ensures CompareVersions(v + ".0", v) == Success(0)
  {
    var parts := SplitOn(v, {'.'});
    assert v + ".0" == v + ['.'] + "0";
    SplitOnConcat(v, '.', "0", {'.'});
    SplitOnWithout("0", {'.'});
    var a := ParseRelease(v).value;
    var b := ParseRelease(v + ".0").value;
    assert SplitOn(v + ".0", {'.'}) == parts + ["0"];
    assert DigitsValue("0") == 0;
    assert b == a + [0];
    TrailingZeroIgnored(a, a);
    CompareReflexive(a);
  }
}
