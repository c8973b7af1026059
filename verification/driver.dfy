/** Driver metadata read from the host-side `nvidia-smi`, and the
    compatibility verdict against the toolkit's driver thresholds. Whether the
    host binary exists, and what each run of it reports, are inputs. */
module Driver {
  import opened Wrappers
  import opened Text
  import opened Subprocess
  import opened Versions
  import opened Constants

  datatype DriverError = DriverError(message: string)

  /** A query's answer together with the command lines it ran, in order. */
  datatype Query<T> = Query(result: Result<T, DriverError>, ran: seq<seq<string>>)

  predicate IsVersionChar(c: char) {
    IsDigit(c) || c == '.'
  }

  predicate IsVersionText(v: string) {
    |v| > 0 && forall i :: 0 <= i < |v| ==> IsVersionChar(v[i])
  }

  // ---------------------------------------------------------------------------
  // Field extraction from the report text

  /** The pattern `label\s*([0-9.]+)` tried at the start of `s` (regular
      expressions do not backtrack usefully here: after the greedy spaces, a
      shorter run only leaves a space in front of the digits). */
  function LabelMatchAt(s: string, key: string): (r: Option<string>)
    ensures r.Some? <==> StartsWith(s, key) && exists k :: VersionStartsAt(s, key, k)
    ensures r.Some? ==> IsVersionText(r.value) && exists k :: CapturedAt(s, key, k, r.value)
  {
    if !StartsWith(s, key) then None
    else
      var k := SpacesEnd(s, key);
      var n := Span(s[k..], IsVersionChar);
      if n == 0 then
        NothingAfterSpaces(s, key);
        None
      else
        var v := s[k..k + n];
        VersionRun(s, key, k, n, v);
        Some(v)
  }

  /** After the label, a run of whitespace and then a character of `[0-9.]` at `k`. */
  predicate VersionStartsAt(s: string, key: string, k: int) {
    |key| <= k < |s| && AllSpace(s[|key|..k]) && IsVersionChar(s[k])
  }

  /** The group captures `v` at `k`: whitespace before it, and it is not followed
      by another character of `[0-9.]`. */
  predicate CapturedAt(s: string, key: string, k: int, v: string) {
    && |key| <= k && k + |v| <= |s| && AllSpace(s[|key|..k]) && s[k..k + |v|] == v
    && (k + |v| == |s| || !IsVersionChar(s[k + |v|]))
  }

  /** The version run found after the spaces: it matches, and its end is the
      end of the text or a character that cannot extend it. */
  lemma VersionRun(s: string, key: string, k: nat, n: nat, v: string)
    requires |key| <= k < |s| && AllSpace(s[|key|..k])
    requires 0 < n && n == Span(s[k..], IsVersionChar)
    requires k + n <= |s| && v == s[k..k + n]
    ensures IsVersionText(v) && VersionStartsAt(s, key, k) && CapturedAt(s, key, k, v)
  {
    assert s[k] == s[k..][0];
    assert s[k..][..n] == v;
    assert k + n == |s| || s[k + n] == s[k..][n];
  }

  /** Where the greedy `\s*` after the label stops. */
  function SpacesEnd(s: string, key: string): (k: nat)
    requires StartsWith(s, key)
    ensures |key| <= k <= |s| && AllSpace(s[|key|..k])
    ensures k < |s| ==> !IsSpace(s[k])
  {
    var rest := s[|key|..];
    var k := |key| + Span(rest, IsSpace);
    assert s[|key|..k] == rest[..k - |key|];
    assert k < |s| ==> s[k] == rest[k - |key|];
    k
  }

  lemma NothingAfterSpaces(s: string, key: string)
    requires StartsWith(s, key)
    requires var k := SpacesEnd(s, key); Span(s[k..], IsVersionChar) == 0
    ensures forall j :: !VersionStartsAt(s, key, j)
  {
    var k := SpacesEnd(s, key);
    forall j | |key| <= j < |s| && AllSpace(s[|key|..j])
      ensures !IsVersionChar(s[j])
    {
      if j < k {
        assert IsSpace(s[|key|..k][j - |key|]);
      } else if j == k {
        assert s[j] == s[k..][0];
      } else {
        assert false;
      }
    }
  }

  /** The pattern tried at position `j`. */
  function LabelMatcher(key: string): (string, nat) -> Option<string> {
    (t: string, j: nat) => if j <= |t| then LabelMatchAt(t[j..], key) else None
  }

  /** `re.search(label + r"\s*([0-9.]+)", s).group(1)`: the match at the
      first position where the pattern matches, which need not be the first
      occurrence of the label. */
  function SearchLabel(s: string, key: string): (r: Option<string>)
    ensures r.Some? ==> IsVersionText(r.value)
    ensures r.None? ==> forall i :: 0 <= i <= |s| ==> LabelMatchAt(s[i..], key).None?
    ensures r.Some? ==> exists i :: (0 <= i <= |s| && LabelMatchAt(s[i..], key) == r
      && forall j :: 0 <= j < i ==> LabelMatchAt(s[j..], key).None?)
  {
    var r := FirstMatch(s, LabelMatcher(key), 0);
    assert forall j :: 0 <= j <= |s| ==> LabelMatcher(key)(s, j) == LabelMatchAt(s[j..], key);
    r
  }

  /** The extractor reads back a version written right after the label and
      any run of whitespace. */
  lemma LabelReadBack(key: string, w: string, v: string, t: string)
    requires AllSpace(w) && IsVersionText(v)
    requires |t| == 0 || (!IsVersionChar(t[0]) && !IsSpace(t[0]))
    ensures SearchLabel(key + w + v + t, key) == Some(v)
  {
    var s := key + w + v + t;
    LabelMatchReadBack(key, w, v, t);
    assert s[0..] == s;
  }

  lemma LabelMatchReadBack(key: string, w: string, v: string, t: string)
    requires AllSpace(w) && IsVersionText(v)
    requires |t| == 0 || (!IsVersionChar(t[0]) && !IsSpace(t[0]))
    ensures LabelMatchAt(key + w + v + t, key) == Some(v)
  {
    var s := key + w + v + t;
    assert s == key + (w + (v + t));
    assert s[..|key|] == key;
    assert s[|key|..] == w + (v + t);
    SpanOfConcat(w, v + t, IsSpace);
    var k := SpacesEnd(s, key);
    assert k == |key| + |w|;
    assert s[k..] == v + t;
    SpanOfConcat(v, t, IsVersionChar);
    assert s[k..k + |v|] == v;
  }

  const DriverLabel := "Driver Version:"
  const CudaLabel := "CUDA Version:"

  // ---------------------------------------------------------------------------
  // The three queries

  /** One run of the host `nvidia-smi` with a 3-second timeout: its stdout on
      exit status 0, otherwise the query's `DriverError`. */
  function RunNvidiaSmi(argv: seq<string>, what: string, outcome: ProcessOutcome): (r: Result<string, DriverError>)
    requires |argv| > 0
    ensures r.Success? <==> ExitedZero(outcome)
    ensures r.Success? ==> r.value == outcome.stdout
    ensures outcome.Exited? && outcome.code != 0 ==> r == Failure(DriverError("nvidia-smi failed: " + outcome.stderr))
    ensures !outcome.Exited? ==> r.Failure? && StartsWith(r.error.message, "Failed to get " + what + ": ")
  {
    match RunCommand(argv, Some(NvidiaSmiTimeout), false, outcome)
    case Failure(e) =>
      var m := "Failed to get " + what + ": " + e.message;
      assert m[..|"Failed to get " + what + ": "|] == "Failed to get " + what + ": ";
      Failure(DriverError(m))
    case Success(c) =>
      if c.returncode != 0 then Failure(DriverError("nvidia-smi failed: " + c.stderr)) else Success(c.stdout)
  }

  const VersionQueryArgv := [WindowsNvidiaSmiPath]
  const NameQueryArgv := [WindowsNvidiaSmiPath, "--query-gpu=name", "--format=csv,noheader"]

  /** `get_driver_version()` */
  function GetDriverVersion(hostExists: bool, outcome: ProcessOutcome): (q: Query<Option<string>>)
    ensures !hostExists ==> q == Query(Success(None), [])
    ensures hostExists ==> q.ran == [VersionQueryArgv]
    ensures hostExists ==> (q.result.Success? <==> ExitedZero(outcome))
    ensures hostExists && ExitedZero(outcome) ==> q.result.value == SearchLabel(outcome.stdout, DriverLabel)
    ensures hostExists && outcome.Exited? && outcome.code != 0 ==>
      q.result == Failure(DriverError("nvidia-smi failed: " + outcome.stderr))
  {
    if !hostExists then Query(Success(None), [])
    else
      var r := RunNvidiaSmi(VersionQueryArgv, "driver version", outcome);
      Query(if r.Success? then Success(SearchLabel(r.value, DriverLabel)) else Failure(r.error), [VersionQueryArgv])
  }

  /** `get_driver_cuda_version()` */
  function GetDriverCudaVersion(hostExists: bool, outcome: ProcessOutcome): (q: Query<Option<string>>)
    ensures !hostExists ==> q == Query(Success(None), [])
    ensures hostExists ==> q.ran == [VersionQueryArgv]
    ensures hostExists ==> (q.result.Success? <==> ExitedZero(outcome))
    ensures hostExists && ExitedZero(outcome) ==> q.result.value == SearchLabel(outcome.stdout, CudaLabel)
    ensures hostExists && outcome.Exited? && outcome.code != 0 ==>
      q.result == Failure(DriverError("nvidia-smi failed: " + outcome.stderr))
  {
    if !hostExists then Query(Success(None), [])
    else
      var r := RunNvidiaSmi(VersionQueryArgv, "CUDA version", outcome);
      Query(if r.Success? then Success(SearchLabel(r.value, CudaLabel)) else Failure(r.error), [VersionQueryArgv])
  }

  /** `get_gpu_name()`: the whole report with surrounding whitespace removed,
      or nothing when that is empty. */
  function GetGpuName(hostExists: bool, outcome: ProcessOutcome): (q: Query<Option<string>>)
    ensures !hostExists ==> q == Query(Success(None), [])
    ensures hostExists ==> q.ran == [NameQueryArgv]
    ensures hostExists ==> (q.result.Success? <==> ExitedZero(outcome))
    ensures hostExists && ExitedZero(outcome) && q.result.value.Some? ==>
      var n := q.result.value.value;
      && |n| > 0 && !IsSpace(n[0]) && !IsSpace(n[|n| - 1])
      && exists a, b :: 0 <= a <= b <= |outcome.stdout| && outcome.stdout[a..b] == n
           && AllSpace(outcome.stdout[..a]) && AllSpace(outcome.stdout[b..])
    ensures hostExists && ExitedZero(outcome) ==> (q.result.value.None? <==> AllSpace(outcome.stdout))
    ensures hostExists && outcome.Exited? && outcome.code != 0 ==>
      q.result == Failure(DriverError("nvidia-smi failed: " + outcome.stderr))
  {
    if !hostExists then Query(Success(None), [])
    else
      var r := RunNvidiaSmi(NameQueryArgv, "GPU name", outcome);
      if r.Failure? then Query(Failure(r.error), [NameQueryArgv])
      else
        Query(Success(TrimmedName(r.value)), [NameQueryArgv])
  }

  /** The report with surrounding whitespace removed, or nothing when only
      whitespace is left. */
  function TrimmedName(report: string): (n: Option<string>)
    ensures n.None? <==> AllSpace(report)
    ensures n.Some? ==>
      var v := n.value;
      && |v| > 0 && !IsSpace(v[0]) && !IsSpace(v[|v| - 1])
      && exists a, b :: 0 <= a <= b <= |report| && report[a..b] == v
           && AllSpace(report[..a]) && AllSpace(report[b..])
  {
    var v := Strip(report);
    StripWindow(report);
    StripEmpty(report);
    if v == "" then None
    else
      var a := |report| - |LStrip(report)|;
      assert 0 <= a <= a + |v| <= |report| && report[a..a + |v|] == v
        && AllSpace(report[..a]) && AllSpace(report[a + |v|..]);
      Some(v)
  }

  // ---------------------------------------------------------------------------
  // Compatibility

  datatype DriverInfo = DriverInfo(
    driverVersion: Option<string>,
    cudaVersion: Option<string>,
    gpuName: Option<string>,
    minRequired: string,
    recommended: string,
    targetCuda: Option<string>)  // absent when the host binary is missing

  datatype Compatibility = Compatibility(compatible: bool, message: string, info: DriverInfo)

  /** What `check_driver_compatibility` can raise: a `DriverError`, or the
      version library's own error for a malformed version such as `566.`. */
  datatype CheckError = QueryFailed(driverError: DriverError) | MalformedVersion(versionError: VersionError)

  datatype Verdict = TooOld | BelowRecommended | UpToDate

  /** What each of the three `nvidia-smi` runs reports. */
  datatype QueryOutcomes = QueryOutcomes(driverRun: ProcessOutcome, cudaRun: ProcessOutcome, nameRun: ProcessOutcome)

  datatype Check = Check(result: Result<Compatibility, CheckError>, ran: seq<seq<string>>)

  /** The tool's two thresholds, in order: the recommended driver meets the minimum. */
  lemma ThresholdsOrdered()
    ensures IsDottedNumeric(MinWindowsDriver) && IsDottedNumeric(RecommendedDriver)
    ensures VersionMeetsMinimum(RecommendedDriver, MinWindowsDriver) == Success(true)
    ensures VersionMeetsMinimum(MinWindowsDriver, RecommendedDriver) == Success(false)
  {
    Parse528p33();
    Parse566p03();
  }

  /** The nested minimum/recommended test of the compatibility check. */
  function Classify(driverVersion: string): (r: Result<Verdict, VersionError>)
    ensures r.Success? <==> IsDottedNumeric(driverVersion)
    ensures r.Failure? ==> r.error == InvalidVersion(driverVersion)
  {
    ThresholdsOrdered();
    match VersionMeetsMinimum(driverVersion, MinWindowsDriver)
    case Failure(e) => Failure(e)
    case Success(meetsMinimum) =>
      if !meetsMinimum then Success(TooOld)
      else
        match VersionMeetsMinimum(driverVersion, RecommendedDriver)
        case Failure(e) => Failure(e)
        case Success(meetsRecommended) => Success(if meetsRecommended then UpToDate else BelowRecommended)
  }

  /** The three verdicts partition the valid versions by the two thresholds,
      and an up-to-date driver always meets the minimum. */
  lemma ClassifyThreeWay(v: string)
    requires IsDottedNumeric(v)
    ensures Classify(v) == Success(TooOld) <==> VersionMeetsMinimum(v, MinWindowsDriver) == Success(false)
    ensures Classify(v) == Success(BelowRecommended) <==>
      VersionMeetsMinimum(v, MinWindowsDriver) == Success(true) && VersionMeetsMinimum(v, RecommendedDriver) == Success(false)
    ensures Classify(v) == Success(UpToDate) <==> VersionMeetsMinimum(v, RecommendedDriver) == Success(true)
    ensures Classify(v) == Success(UpToDate) ==> VersionMeetsMinimum(v, MinWindowsDriver) == Success(true)
  {
    ThresholdsOrdered();
    if VersionMeetsMinimum(v, RecommendedDriver) == Success(true) {
      MeetsMinimumTransitive(v, RecommendedDriver, MinWindowsDriver);
    }
  }

  function VerdictMessage(driverVersion: string, v: Verdict): string {
    match v
    case UpToDate => "Driver " + driverVersion + " is up-to-date and supports CUDA " + CudaVersion
    case BelowRecommended =>
      "Driver " + driverVersion + " supports CUDA " + CudaVersion + ", but " + RecommendedDriver + "+ recommended"
    case TooOld =>
      "Driver " + driverVersion + " is too old. Minimum " + MinWindowsDriver + " required for CUDA " + CudaVersion
  }

  const HostMissingInfo := DriverInfo(None, None, None, MinWindowsDriver, RecommendedDriver, None)

  /** `check_driver_compatibility()` */
  function CheckDriverCompatibility(hostExists: bool, outs: QueryOutcomes): (c: Check)
    ensures !hostExists ==> c == Check(Success(Compatibility(false, "Windows NVIDIA driver not found", HostMissingInfo)), [])
    ensures hostExists ==> |c.ran| >= 1 && c.ran[0] == VersionQueryArgv
    ensures hostExists && ExitedZero(outs.driverRun) && SearchLabel(outs.driverRun.stdout, DriverLabel).None? ==>
      c == Check(Failure(QueryFailed(DriverError("Could not determine driver version"))), [VersionQueryArgv])
    ensures hostExists && c.result.Success? ==>
      && outs.driverRun.Exited? && outs.cudaRun.Exited?
      && var info := c.result.value.info;
      && info.driverVersion == SearchLabel(outs.driverRun.stdout, DriverLabel)
      && info.driverVersion.Some?
      && info.cudaVersion == SearchLabel(outs.cudaRun.stdout, CudaLabel)
      && info.targetCuda == Some(CudaVersion)
      && (c.result.value.compatible <==> VersionMeetsMinimum(info.driverVersion.value, MinWindowsDriver) == Success(true))
    ensures hostExists && c.result.Success? ==>
      && ExitedZero(outs.driverRun) && ExitedZero(outs.cudaRun) && ExitedZero(outs.nameRun)
      && var info := c.result.value.info;
      && info.gpuName == GetGpuName(true, outs.nameRun).result.value
      && Classify(info.driverVersion.value).Success?
      && c.result.value.message == VerdictMessage(info.driverVersion.value, Classify(info.driverVersion.value).value)
    ensures hostExists && !ExitedZero(outs.driverRun) ==> c.result.Failure? && c.result.error.QueryFailed?
    ensures hostExists && (!ExitedZero(outs.cudaRun) || !ExitedZero(outs.nameRun)) ==>
      c.result.Failure? && c.result.error.QueryFailed?
  {
    if !hostExists then
      Check(Success(Compatibility(false, "Windows NVIDIA driver not found", HostMissingInfo)), [])
    else
      var dq := GetDriverVersion(true, outs.driverRun);
      if dq.result.Failure? then Check(Failure(QueryFailed(dq.result.error)), dq.ran)
      else if dq.result.value.None? || dq.result.value.value == "" then
        Check(Failure(QueryFailed(DriverError("Could not determine driver version"))), dq.ran)
      else
        var driverVersion := dq.result.value.value;
        var cq := GetDriverCudaVersion(true, outs.cudaRun);
        if cq.result.Failure? then Check(Failure(QueryFailed(cq.result.error)), dq.ran + cq.ran)
        else
          var nq := GetGpuName(true, outs.nameRun);
          var ran := dq.ran + cq.ran + nq.ran;
          if nq.result.Failure? then Check(Failure(QueryFailed(nq.result.error)), ran)
          else
            var info := DriverInfo(dq.result.value, cq.result.value, nq.result.value,
                                   MinWindowsDriver, RecommendedDriver, Some(CudaVersion));
            Check(Judge(driverVersion, info), ran)
  }

  /** The verdict on a driver version that was read: compatible exactly when
      it meets the minimum, with the message of its band. */
  function Judge(driverVersion: string, info: DriverInfo): (r: Result<Compatibility, CheckError>)
    ensures r.Success? <==> IsDottedNumeric(driverVersion)
    ensures r.Failure? ==> r.error == MalformedVersion(InvalidVersion(driverVersion))
    ensures r.Success? ==>
      && r.value.info == info
      && (r.value.compatible <==> VersionMeetsMinimum(driverVersion, MinWindowsDriver) == Success(true))
      && r.value.message == VerdictMessage(driverVersion, Classify(driverVersion).value)
  {
    match Classify(driverVersion)
    case Failure(e) => Failure(MalformedVersion(e))
    case Success(v) =>
      ClassifyThreeWay(driverVersion);
      Success(Compatibility(v != TooOld, VerdictMessage(driverVersion, v), info))
  }

  /** A driver report whose version text is not dotted numeric (`566.`) ends
      the check with the version library's error, not with a verdict. */
  lemma MalformedVersionIsAnError(outs: QueryOutcomes)
    requires ExitedZero(outs.driverRun) && ExitedZero(outs.cudaRun) && ExitedZero(outs.nameRun)
    requires var v := SearchLabel(outs.driverRun.stdout, DriverLabel); v.Some? && !IsDottedNumeric(v.value)
    ensures CheckDriverCompatibility(true, outs).result
         == Failure(MalformedVersion(InvalidVersion(SearchLabel(outs.driverRun.stdout, DriverLabel).value)))
  {
  }
}
