/** The `nvidia-smi` repair: replace a crashing WSL-side binary with a
    symbolic link to the host's binary. The file system is reduced to what
    the repair looks at and changes; every command it runs is recorded, and
    what each command reports is an input. A command that does not succeed
    is taken to change nothing. */
module NvidiaSmi {
  import opened Wrappers
  import opened Text
  import opened Subprocess
  import opened Constants

  /** What sits at the WSL-side `nvidia-smi` path. Any entry that is not a
      symbolic link (a binary, or anything else) counts as a regular file. */
  datatype LocalEntry = Missing | RegularFile | Symlink(target: string)

  datatype Fs = Fs(
    hostExists: bool,         // the host's nvidia-smi.exe
    entry: LocalEntry,        // the WSL-side nvidia-smi
    parentExists: bool,       // its directory
    backups: seq<string>)     // where earlier binaries were moved to

  datatype NvidiaSmiError = NvidiaSmiError(message: string)

  /** A step's result, the commands it ran in order, and the file system after it. */
  datatype Step<T> = Step(result: Result<T, NvidiaSmiError>, ran: seq<seq<string>>, fs: Fs)

  /** What each command of a repair run reports. The three probes are the
      first test of an existing link, the test of a regular file, and the
      final test; `timestamp` is the clock reading the backup name uses. */
  datatype Outcomes = Outcomes(
    linkProbe: ProcessOutcome,
    fileProbe: ProcessOutcome,
    finalProbe: ProcessOutcome,
    rm: ProcessOutcome,
    mv: ProcessOutcome,
    mkdir: ProcessOutcome,
    ln: ProcessOutcome,
    timestamp: string)

  // ---------------------------------------------------------------------------
  // Commands

  /** The probe's command line: the given path, or `nvidia-smi` looked up on PATH. */
  function ProbeArgv(path: Option<string>): seq<string> {
    match path
    case Some(p) => [p]
    case None => ["nvidia-smi"]
  }

  const RmArgv := ["sudo", "rm", WslNvidiaSmiPath]
  function MvArgv(dest: string): seq<string> { ["sudo", "mv", WslNvidiaSmiPath, dest] }
  const MkdirArgv := ["sudo", "mkdir", "-p", WslNvidiaSmiDir]
  const LnArgv := ["sudo", "ln", "-sf", WindowsNvidiaSmiPath, WslNvidiaSmiPath]

  predicate IsProbe(argv: seq<string>) {
    argv == ProbeArgv(None) || argv == ProbeArgv(Some(WslNvidiaSmiPath))
  }

  /** A command that changes the file system. */
  predicate Privileged(argv: seq<string>) {
    |argv| > 0 && argv[0] == "sudo"
  }

  /** `test_nvidia_smi(path)`: the probe passes exactly when it exits with
      status 0; a timeout or a missing executable is a failed probe. */
  function TestNvidiaSmi(path: Option<string>, outcome: ProcessOutcome): (ok: bool)
    ensures ok <==> ExitedZero(outcome)
  {
    var r := RunCommand(ProbeArgv(path), Some(NvidiaSmiTimeout), false, outcome);
    r.Success? && r.value.returncode == 0
  }

  /** The message of a privileged step that failed: its status with the
      command's stderr, or the runner's own error. */
  function StepFailure(prefix: string, argv: seq<string>, outcome: ProcessOutcome): (e: NvidiaSmiError)
    requires |argv| > 0 && !ExitedZero(outcome)
    ensures outcome.Exited? ==> e.message == prefix + outcome.stderr
    ensures StartsWith(e.message, prefix)
  {
    var m := match RunCommand(argv, Some(SudoTimeout), false, outcome)
      case Success(c) => prefix + c.stderr
      case Failure(err) => prefix + err.message;
    assert m[..|prefix|] == prefix;
    NvidiaSmiError(m)
  }

  // ---------------------------------------------------------------------------
  // The three privileged steps

  /** The `rm` of a link that does not work, run with `check=True`. */
  function RemoveBrokenSymlink(fs: Fs, rm: ProcessOutcome): (s: Step<()>)
    ensures s.ran == [RmArgv]
    ensures s.result.Success? <==> ExitedZero(rm)
    ensures s.result.Success? ==> s.fs == fs.(entry := Missing)
    ensures s.result.Failure? ==> s.fs == fs && StartsWith(s.result.error.message, "Failed to remove broken symlink: ")
  {
    match RunCommand(RmArgv, Some(SudoTimeout), true, rm)
    case Success(_) => Step(Success(()), [RmArgv], fs.(entry := Missing))
    case Failure(e) =>
      var m := "Failed to remove broken symlink: " + e.message;
      assert m[..|"Failed to remove broken symlink: "|] == "Failed to remove broken symlink: ";
      Step(Failure(NvidiaSmiError(m)), [RmArgv], fs)
  }

  const BackupPrefix := WslNvidiaSmiName + ".old."

  /** Where the binary is moved: next to it, named after the clock reading. */
  function BackupPath(timestamp: string): string {
    WslNvidiaSmiDir + "/" + BackupPrefix + timestamp
  }

  /** `backup_nvidia_smi()`: nothing to do unless a regular file is there;
      otherwise the backup path is checked to lie in the binary's directory
      and the binary is moved there. */
  function BackupNvidiaSmi(fs: Fs, timestamp: string, mv: ProcessOutcome): (s: Step<Option<string>>)
    ensures !fs.entry.RegularFile? ==> s == Step(Success(None), [], fs)
    ensures fs.entry.RegularFile? && !ValidatePathSafe(BackupPath(timestamp), Some(WslNvidiaSmiDir), []) ==>
      s == Step(Failure(NvidiaSmiError("Invalid backup path")), [], fs)
    ensures fs.entry.RegularFile? && ValidatePathSafe(BackupPath(timestamp), Some(WslNvidiaSmiDir), []) ==>
      && s.ran == [MvArgv(BackupPath(timestamp))]
      && (s.result.Success? <==> ExitedZero(mv))
      && (s.result.Success? ==> (s.result.value == Some(BackupPath(timestamp))
            && s.fs == fs.(entry := Missing, backups := fs.backups + [BackupPath(timestamp)])))
      && (s.result.Failure? ==> s.fs == fs && StartsWith(s.result.error.message, "Failed to backup nvidia-smi: "))
  {
    if !fs.entry.RegularFile? then Step(Success(None), [], fs)
    else
      var dest := BackupPath(timestamp);
      if !ValidatePathSafe(dest, Some(WslNvidiaSmiDir), []) then
        Step(Failure(NvidiaSmiError("Invalid backup path")), [], fs)
      else if ExitedZero(mv) then
        Step(Success(Some(dest)), [MvArgv(dest)], fs.(entry := Missing, backups := fs.backups + [dest]))
      else
        Step(Failure(StepFailure("Failed to backup nvidia-smi: ", MvArgv(dest), mv)), [MvArgv(dest)], fs)
  }

  const HostMissingAt :=
    "Windows nvidia-smi not found at " + WindowsNvidiaSmiPath + ". Please install NVIDIA drivers on Windows first."
  const DirFailurePrefix := "Failed to create directory " + WslNvidiaSmiDir + ": "
  const LinkFailurePrefix := "Failed to create symlink: "

  /** `create_nvidia_smi_symlink()`: create the directory when it is missing,
      then force the link into place (over whatever is there). */
  function CreateSymlink(fs: Fs, mkdir: ProcessOutcome, ln: ProcessOutcome): (s: Step<bool>)
    ensures !fs.hostExists ==> s == Step(Failure(NvidiaSmiError(HostMissingAt)), [], fs)
    ensures fs.hostExists ==> (s.ran == (if fs.parentExists then [] else [MkdirArgv])
      + (if fs.parentExists || ExitedZero(mkdir) then [LnArgv] else []))
    ensures s.result.Success? <==> fs.hostExists && (fs.parentExists || ExitedZero(mkdir)) && ExitedZero(ln)
    ensures s.result.Success? ==> s.result.value && s.fs == fs.(entry := Symlink(WindowsNvidiaSmiPath), parentExists := true)
    ensures s.result.Failure? ==> s.fs.entry == fs.entry && s.fs.backups == fs.backups
    ensures fs.hostExists && !fs.parentExists && !ExitedZero(mkdir) ==> StartsWith(s.result.error.message, DirFailurePrefix)
    ensures fs.hostExists && (fs.parentExists || ExitedZero(mkdir)) && !ExitedZero(ln) ==>
      StartsWith(s.result.error.message, LinkFailurePrefix)
  {
    if !fs.hostExists then Step(Failure(NvidiaSmiError(HostMissingAt)), [], fs)
    else if !fs.parentExists && !ExitedZero(mkdir) then
      Step(Failure(StepFailure(DirFailurePrefix, MkdirArgv, mkdir)), [MkdirArgv], fs)
    else
      var made := if fs.parentExists then [] else [MkdirArgv];
      var fs1 := fs.(parentExists := true);
      if ExitedZero(ln) then
        Step(Success(true), made + [LnArgv], fs1.(entry := Symlink(WindowsNvidiaSmiPath)))
      else
        Step(Failure(StepFailure(LinkFailurePrefix, LnArgv, ln)), made + [LnArgv], fs1)
  }

  // ---------------------------------------------------------------------------
  // The repair

  const HostMissing := "Windows nvidia-smi not found. Please install NVIDIA drivers on Windows first."
  const AlreadyWorking := "nvidia-smi already working, no fix needed"
  const NowWorking := "nvidia-smi is now working"
  const StillBroken := "Symlink created but nvidia-smi still not working"
  const CreatedMessage := "Created symlink to " + WindowsNvidiaSmiPath

  function LinkWorkingMessage(target: string): string {
    "nvidia-smi already working (symlink to " + target + ")"
  }

  function BackedUpMessage(dest: string): string {
    "Backed up old nvidia-smi to " + dest
  }

  /** Every privileged command among `ran` exited with status 0: a run that
      reports success never went past a failed `rm`, `mv`, `mkdir` or `ln`. */
  predicate PrivilegedSucceeded(ran: seq<seq<string>>, o: Outcomes) {
    && (RmArgv in ran ==> ExitedZero(o.rm))
    && (MvArgv(BackupPath(o.timestamp)) in ran ==> ExitedZero(o.mv))
    && (MkdirArgv in ran ==> ExitedZero(o.mkdir))
    && (LnArgv in ran ==> ExitedZero(o.ln))
  }

  /** Runs put one after the other keep their privileged steps' successes;
      a later run without a move leaves the backup message as it was. */
  lemma RanConcat(a: seq<seq<string>>, b: seq<seq<string>>, o: Outcomes)
    ensures PrivilegedSucceeded(a, o) && PrivilegedSucceeded(b, o) ==> PrivilegedSucceeded(a + b, o)
    ensures MvArgv(BackupPath(o.timestamp)) !in b ==> BackupParts(a + b, o.timestamp) == BackupParts(a, o.timestamp)
    ensures MvArgv(BackupPath(o.timestamp)) !in a ==> BackupParts(a + b, o.timestamp) == BackupParts(b, o.timestamp)
  {
  }

  /** The messages a repair reports before the link's: the backup's, when
      the binary was moved. */
  function BackupParts(ran: seq<seq<string>>, timestamp: string): seq<string> {
    if MvArgv(BackupPath(timestamp)) in ran then [BackedUpMessage(BackupPath(timestamp))] else []
  }

  /** The second half of the repair, once no broken link is left: test a
      regular file and back it up when it fails, then link and test again. */
  function RepairFile(fs: Fs, o: Outcomes): (s: Step<(bool, string)>)
    requires fs.hostExists && !fs.entry.Symlink?
    ensures fs.entry.RegularFile? && ExitedZero(o.fileProbe) ==>
      s == Step(Success((true, AlreadyWorking)), [ProbeArgv(Some(WslNvidiaSmiPath))], fs)
    ensures s.result.Success? && s.fs.entry != fs.entry ==> s.fs.entry == Symlink(WindowsNvidiaSmiPath)
    ensures s.result.Success? && !s.result.value.0 ==> s.result.value.1 == StillBroken
    ensures s.result.Success? && s.result.value.0 ==> ExitedZero(o.fileProbe) || ExitedZero(o.finalProbe)
    ensures s.result.Success? ==> !s.fs.entry.Missing? && s.fs.hostExists
    ensures s.result.Success? ==> |s.ran| > 0 && IsProbe(s.ran[|s.ran| - 1])
    ensures fs.entry.RegularFile? ==> s.fs.entry.RegularFile? || |s.fs.backups| == |fs.backups| + 1
    ensures IsPrefix(fs.backups, s.fs.backups)
    // the link is forced only over nothing, or over a binary already moved away
    ensures LnArgv in s.ran ==> fs.entry.Missing? || |s.fs.backups| == |fs.backups| + 1
  {
    var probe := if fs.entry.RegularFile? then [ProbeArgv(Some(WslNvidiaSmiPath))] else [];
    if fs.entry.RegularFile? && TestNvidiaSmi(Some(WslNvidiaSmiPath), o.fileProbe) then
      Step(Success((true, AlreadyWorking)), probe, fs)
    else
      var r := ReplaceFile(fs, o);
      assert r.result.Success? ==> (probe + r.ran)[|probe + r.ran| - 1] == r.ran[|r.ran| - 1];
      Step(r.result, probe + r.ran, r.fs)
  }

  /** A repair of a file that succeeds without linking found the binary
      working; one that links reports what the final probe found and, when
      working, the backup (if the binary was moved) and the link. Every
      privileged step of a successful repair exited with 0. */
  lemma RepairFileReports(fs: Fs, o: Outcomes)
    requires fs.hostExists && !fs.entry.Symlink?
    ensures var s := RepairFile(fs, o);
      && (s.result.Success? && LnArgv !in s.ran ==>
            fs.entry.RegularFile? && ExitedZero(o.fileProbe) && s.result.value == (true, AlreadyWorking))
      && (s.result.Success? && LnArgv in s.ran ==> (s.result.value.0 <==> ExitedZero(o.finalProbe)))
      && (s.result.Success? && LnArgv in s.ran && s.result.value.0 ==>
            s.result.value.1 == Join(BackupParts(s.ran, o.timestamp) + [CreatedMessage, NowWorking], "; "))
      && (s.result.Success? ==> PrivilegedSucceeded(s.ran, o))
  {
    var probe := if fs.entry.RegularFile? then [ProbeArgv(Some(WslNvidiaSmiPath))] else [];
    if !(fs.entry.RegularFile? && ExitedZero(o.fileProbe)) {
      var r := ReplaceFile(fs, o);
      assert RepairFile(fs, o) == Step(r.result, probe + r.ran, r.fs);
      ReplaceFileReports(fs, o);
      assert PrivilegedSucceeded(probe, o) && MvArgv(BackupPath(o.timestamp)) !in probe && LnArgv !in probe;
      RanConcat(probe, r.ran, o);
    }
  }

  /** Back up a regular file (there is nothing to back up when the entry is
      missing), then link and probe. */
  function ReplaceFile(fs: Fs, o: Outcomes): (s: Step<(bool, string)>)
    requires fs.hostExists && !fs.entry.Symlink?
    ensures s.result.Success? ==> s.fs.entry == Symlink(WindowsNvidiaSmiPath) && s.fs.hostExists
    ensures s.result.Success? && s.result.value.0 ==> ExitedZero(o.finalProbe)
    ensures s.result.Success? && !s.result.value.0 ==> s.result.value.1 == StillBroken
    ensures s.result.Success? ==> |s.ran| > 0 && IsProbe(s.ran[|s.ran| - 1])
    ensures IsPrefix(fs.backups, s.fs.backups)
    ensures fs.entry.RegularFile? && s.fs.entry != fs.entry ==> |s.fs.backups| == |fs.backups| + 1
    ensures LnArgv in s.ran ==> fs.entry.Missing? || |s.fs.backups| == |fs.backups| + 1
  {
    var b := BackupNvidiaSmi(fs, o.timestamp, o.mv);
    if b.result.Failure? then Step(Failure(b.result.error), b.ran, b.fs)
    else
      var parts := if b.result.value.Some? then [BackedUpMessage(b.result.value.value)] else [];
      var l := LinkAndProbe(b.fs, parts, o);
      Step(l.result, b.ran + l.ran, l.fs)
  }

  /** A replacement that succeeds linked the binary, reports what the final
      probe found, and on a working result lists the backup (when the binary
      was moved) and the link; every privileged step it ran exited with 0. */
  lemma ReplaceFileReports(fs: Fs, o: Outcomes)
    requires fs.hostExists && !fs.entry.Symlink?
    ensures var s := ReplaceFile(fs, o);
      && (s.result.Success? ==> LnArgv in s.ran && (s.result.value.0 <==> ExitedZero(o.finalProbe)))
      && (s.result.Success? && s.result.value.0 ==>
            s.result.value.1 == Join(BackupParts(s.ran, o.timestamp) + [CreatedMessage, NowWorking], "; "))
      && (s.result.Success? ==> PrivilegedSucceeded(s.ran, o))
  {
    var b := BackupNvidiaSmi(fs, o.timestamp, o.mv);
    if b.result.Success? {
      var parts := if b.result.value.Some? then [BackedUpMessage(b.result.value.value)] else [];
      var l := LinkAndProbe(b.fs, parts, o);
      assert ReplaceFile(fs, o) == Step(l.result, b.ran + l.ran, l.fs);
      assert PrivilegedSucceeded(b.ran, o) && BackupParts(b.ran, o.timestamp) == parts;
      LinkSteps(b.fs, parts, o);
      RanConcat(b.ran, l.ran, o);
    }
  }

  /** A successful link ran its privileged steps with status 0 and moved nothing. */
  lemma LinkSteps(fs: Fs, parts: seq<string>, o: Outcomes)
    requires fs.hostExists
    ensures var l := LinkAndProbe(fs, parts, o);
      l.result.Success? ==> PrivilegedSucceeded(l.ran, o) && MvArgv(BackupPath(o.timestamp)) !in l.ran
  {
  }

  /** The last steps of the repair: force the link into place and probe the
      command once more; `parts` are the messages of the steps before. */
  function LinkAndProbe(fs: Fs, parts: seq<string>, o: Outcomes): (s: Step<(bool, string)>)
    requires fs.hostExists
    ensures s.result.Success? <==> (fs.parentExists || ExitedZero(o.mkdir)) && ExitedZero(o.ln)
    ensures s.result.Success? ==>
      && s.fs == fs.(entry := Symlink(WindowsNvidiaSmiPath), parentExists := true)
      && s.ran == (if fs.parentExists then [] else [MkdirArgv]) + [LnArgv, ProbeArgv(None)]
      && (s.result.value.0 <==> ExitedZero(o.finalProbe))
      && (s.result.value.0 ==> s.result.value.1 == Join(parts + [CreatedMessage, NowWorking], "; "))
      && (!s.result.value.0 ==> s.result.value.1 == StillBroken)
    ensures s.result.Failure? ==> s.fs.entry == fs.entry && s.fs.backups == fs.backups && s.fs.hostExists
  {
    var c := CreateSymlink(fs, o.mkdir, o.ln);
    if c.result.Failure? then Step(Failure(c.result.error), c.ran, c.fs)
    else if TestNvidiaSmi(None, o.finalProbe) then
      Step(Success((true, Join(parts + [CreatedMessage, NowWorking], "; "))), c.ran + [ProbeArgv(None)], c.fs)
    else
      Step(Success((false, StillBroken)), c.ran + [ProbeArgv(None)], c.fs)
  }

  /** `fix_nvidia_smi()` */
  function FixNvidiaSmi(fs: Fs, o: Outcomes): (s: Step<(bool, string)>)
    ensures !fs.hostExists ==> s == Step(Failure(NvidiaSmiError(HostMissing)), [], fs)
    ensures fs.entry.Symlink? && fs.hostExists && ExitedZero(o.linkProbe) ==>
      s == Step(Success((true, LinkWorkingMessage(fs.entry.target))), [ProbeArgv(None)], fs)
    ensures fs.entry.Symlink? && fs.hostExists && !ExitedZero(o.linkProbe) && !ExitedZero(o.rm) ==>
      s.result.Failure? && s.fs == fs && s.ran == [ProbeArgv(None), RmArgv]
    ensures fs.entry.RegularFile? && fs.hostExists && ExitedZero(o.fileProbe) ==>
      s == Step(Success((true, AlreadyWorking)), [ProbeArgv(Some(WslNvidiaSmiPath))], fs)
    // the outcome reported is the last probe's
    ensures s.result.Success? ==> |s.ran| > 0 && IsProbe(s.ran[|s.ran| - 1])
    ensures s.result.Success? && !s.result.value.0 ==> s.result.value.1 == StillBroken
    // a run that links reports the final probe, and on success every step's message
    ensures s.result.Success? && LnArgv !in s.ran ==> s.result.value.0
    ensures s.result.Success? && LnArgv in s.ran ==> (s.result.value.0 <==> ExitedZero(o.finalProbe))
    ensures s.result.Success? && LnArgv in s.ran && s.result.value.0 ==>
      s.result.value.1 == Join(BackupParts(s.ran, o.timestamp) + [CreatedMessage, NowWorking], "; ")
    ensures s.result.Success? ==> PrivilegedSucceeded(s.ran, o)
    ensures s.result.Success? ==> !s.fs.entry.Missing? && s.fs.hostExists
  {
    if !fs.hostExists then Step(Failure(NvidiaSmiError(HostMissing)), [], fs)
    else if fs.entry.Symlink? then FixLink(fs, o)
    else
      RepairFileReports(fs, o);
      RepairFile(fs, o)
  }

  /** The repair when a link is already in place: keep it if it works,
      otherwise remove it and continue as if nothing had been there. */
  function FixLink(fs: Fs, o: Outcomes): (s: Step<(bool, string)>)
    requires fs.hostExists && fs.entry.Symlink?
    ensures ExitedZero(o.linkProbe) ==>
      s == Step(Success((true, LinkWorkingMessage(fs.entry.target))), [ProbeArgv(None)], fs)
    ensures !ExitedZero(o.linkProbe) && !ExitedZero(o.rm) ==>
      s.result.Failure? && s.fs == fs && s.ran == [ProbeArgv(None), RmArgv]
    ensures !ExitedZero(o.linkProbe) && ExitedZero(o.rm) ==>
      var rest := RepairFile(fs.(entry := Missing), o);
      s == Step(rest.result, [ProbeArgv(None), RmArgv] + rest.ran, rest.fs)
    ensures |s.ran| > 0 && s.ran[0] == ProbeArgv(None)
    ensures s.result.Success? && LnArgv !in s.ran ==> s.result.value.0
    ensures s.result.Success? && LnArgv in s.ran ==> (s.result.value.0 <==> ExitedZero(o.finalProbe))
    ensures s.result.Success? && LnArgv in s.ran && s.result.value.0 ==>
      s.result.value.1 == Join(BackupParts(s.ran, o.timestamp) + [CreatedMessage, NowWorking], "; ")
    ensures s.result.Success? ==> PrivilegedSucceeded(s.ran, o)
  {
    if TestNvidiaSmi(None, o.linkProbe) then
      Step(Success((true, LinkWorkingMessage(fs.entry.target))), [ProbeArgv(None)], fs)
    else
      var rm := RemoveBrokenSymlink(fs, o.rm);
      if rm.result.Failure? then Step(Failure(rm.result.error), [ProbeArgv(None)] + rm.ran, rm.fs)
      else
        var rest := RepairFile(rm.fs, o);
        RepairFileReports(rm.fs, o);
        RanConcat([ProbeArgv(None)] + rm.ran, rest.ran, o);
        Step(rest.result, [ProbeArgv(None)] + rm.ran + rest.ran, rest.fs)
  }

  // ---------------------------------------------------------------------------
  // Properties of whole runs

  /** Once a run reports a working `nvidia-smi`, a second run whose probes
      pass reports it working again, runs no privileged command and changes
      nothing: the repair is idempotent. */
  lemma FixIdempotent(fs: Fs, o: Outcomes, o2: Outcomes)
    requires FixNvidiaSmi(fs, o).result.Success? && FixNvidiaSmi(fs, o).result.value.0
    requires ExitedZero(o2.linkProbe) && ExitedZero(o2.fileProbe)
    ensures var r1 := FixNvidiaSmi(fs, o); var r2 := FixNvidiaSmi(r1.fs, o2);
      && r2.result.Success? && r2.result.value.0
      && r2.fs == r1.fs
      && forall i :: 0 <= i < |r2.ran| ==> !Privileged(r2.ran[i])
  {
  }

  /** What a repair run keeps safe, whatever its commands report: a changed
      entry is the link to the host binary, a regular file is never dropped
      (it stays, or it gains a backup), and earlier backups are kept. */
  lemma FixSafety(fs: Fs, o: Outcomes)
    ensures var s := FixNvidiaSmi(fs, o);
      && (s.result.Success? && s.fs.entry != fs.entry ==> s.fs.entry == Symlink(WindowsNvidiaSmiPath))
      && (fs.entry.RegularFile? ==> s.fs.entry.RegularFile? || |s.fs.backups| == |fs.backups| + 1)
      && IsPrefix(fs.backups, s.fs.backups)
      && s.fs.hostExists == fs.hostExists
  {
    if fs.hostExists && fs.entry.Symlink? && !ExitedZero(o.linkProbe) && ExitedZero(o.rm) {
      var rest := RepairFile(fs.(entry := Missing), o);
      assert FixNvidiaSmi(fs, o).fs == rest.fs;
    }
  }

  /** A timestamp without a slash names a backup inside the binary's directory. */
  lemma BackupPathInside(timestamp: string)
    requires Lacks(timestamp, '/')
    ensures ValidatePathSafe(BackupPath(timestamp), Some(WslNvidiaSmiDir), [])
  {
    var name := BackupPrefix + timestamp;
    assert BackupPath(timestamp) == WslNvidiaSmiDir + "/" + name;
    assert name[..|BackupPrefix|] == BackupPrefix;
    assert name != "" && name != "." && name != "..";
    assert forall i :: 0 <= i < |name| ==> name[i] != '/' by {
      forall i | 0 <= i < |name| ensures name[i] != '/' {
        if i >= |BackupPrefix| {
          assert name[i] == timestamp[i - |BackupPrefix|];
        }
      }
    }
    ChildIsInside(WslNvidiaSmiDir, name, []);
  }

  /** A crashing binary is moved to its timestamped backup, replaced by the
      link, and the run reports all three steps. */
  lemma CrashingBinaryRepaired(fs: Fs, o: Outcomes)
    requires fs.hostExists && fs.entry == RegularFile
    requires !ExitedZero(o.fileProbe) && Lacks(o.timestamp, '/')
    requires ExitedZero(o.mv) && (fs.parentExists || ExitedZero(o.mkdir)) && ExitedZero(o.ln)
    requires ExitedZero(o.finalProbe)
    ensures var r := FixNvidiaSmi(fs, o);
      && r.result == Success((true, BackedUpMessage(BackupPath(o.timestamp)) + "; " + CreatedMessage + "; " + NowWorking))
      && r.fs == fs.(entry := Symlink(WindowsNvidiaSmiPath), parentExists := true,
                     backups := fs.backups + [BackupPath(o.timestamp)])
      && r.ran == [ProbeArgv(Some(WslNvidiaSmiPath)), MvArgv(BackupPath(o.timestamp))]
           + (if fs.parentExists then [] else [MkdirArgv]) + [LnArgv, ProbeArgv(None)]
  {
    RepairCrashingFile(fs, o);
    ThreePartJoin(BackedUpMessage(BackupPath(o.timestamp)), CreatedMessage, NowWorking);
  }

  lemma RepairCrashingFile(fs: Fs, o: Outcomes)
    requires fs.hostExists && fs.entry == RegularFile
    requires !ExitedZero(o.fileProbe) && Lacks(o.timestamp, '/')
    requires ExitedZero(o.mv) && (fs.parentExists || ExitedZero(o.mkdir)) && ExitedZero(o.ln)
    requires ExitedZero(o.finalProbe)
    ensures RepairFile(fs, o).result ==
      Success((true, Join([BackedUpMessage(BackupPath(o.timestamp)), CreatedMessage, NowWorking], "; ")))
    ensures RepairFile(fs, o).fs == fs.(entry := Symlink(WindowsNvidiaSmiPath), parentExists := true,
      backups := fs.backups + [BackupPath(o.timestamp)])
    ensures RepairFile(fs, o).ran == [ProbeArgv(Some(WslNvidiaSmiPath)), MvArgv(BackupPath(o.timestamp))]
      + (if fs.parentExists then [] else [MkdirArgv]) + [LnArgv, ProbeArgv(None)]
  {
    var made: seq<seq<string>> := if fs.parentExists then [] else [MkdirArgv];
    CrashingFileReplaced(fs, o);
    SeqShuffle(ProbeArgv(Some(WslNvidiaSmiPath)), MvArgv(BackupPath(o.timestamp)), made, LnArgv, ProbeArgv(None));
  }

  /** The replacement step for a crashing binary: moved aside, linked, probed. */
  lemma CrashingFileReplaced(fs: Fs, o: Outcomes)
    requires fs.hostExists && fs.entry == RegularFile
    requires Lacks(o.timestamp, '/')
    requires ExitedZero(o.mv) && (fs.parentExists || ExitedZero(o.mkdir)) && ExitedZero(o.ln)
    requires ExitedZero(o.finalProbe)
    ensures var dest := BackupPath(o.timestamp);
      ReplaceFile(fs, o) == Step(Success((true, Join([BackedUpMessage(dest), CreatedMessage, NowWorking], "; "))),
        [MvArgv(dest)] + ((if fs.parentExists then [] else [MkdirArgv]) + [LnArgv, ProbeArgv(None)]),
        fs.(entry := Symlink(WindowsNvidiaSmiPath), parentExists := true, backups := fs.backups + [dest]))
  {
    var dest := BackupPath(o.timestamp);
    var made: seq<seq<string>> := if fs.parentExists then [] else [MkdirArgv];
    BackupSucceeds(fs, o.timestamp, o.mv);
    var b := BackupNvidiaSmi(fs, o.timestamp, o.mv);
    var parts := [BackedUpMessage(dest)];
    assert parts + [CreatedMessage, NowWorking] == [BackedUpMessage(dest), CreatedMessage, NowWorking];
    var l := LinkAndProbe(b.fs, parts, o);
    assert l.ran == made + [LnArgv, ProbeArgv(None)];
  }

  lemma BackupSucceeds(fs: Fs, timestamp: string, mv: ProcessOutcome)
    requires fs.entry == RegularFile && Lacks(timestamp, '/') && ExitedZero(mv)
    ensures BackupNvidiaSmi(fs, timestamp, mv) == Step(Success(Some(BackupPath(timestamp))), [MvArgv(BackupPath(timestamp))],
      fs.(entry := Missing, backups := fs.backups + [BackupPath(timestamp)]))
  {
    BackupPathInside(timestamp);
  }

  lemma SeqShuffle<T>(a: T, b: T, m: seq<T>, c: T, d: T)
    ensures [a] + ([b] + (m + [c, d])) == [a, b] + m + [c, d]
  {
  }

  lemma ThreePartJoin(a: string, b: string, c: string)
    ensures Join([a, b, c], "; ") == a + "; " + b + "; " + c
  {
    assert [a, b, c][1..] == [b, c];
    assert [b, c][1..] == [c];
    assert Join([c], "; ") == c;
    assert Join([b, c], "; ") == b + "; " + c;
  }

  /** A link that does not work is removed and replaced; nothing is backed up. */
  lemma BrokenLinkReplaced(fs: Fs, o: Outcomes)
    requires fs.hostExists && fs.entry.Symlink?
    requires !ExitedZero(o.linkProbe) && ExitedZero(o.rm)
    requires (fs.parentExists || ExitedZero(o.mkdir)) && ExitedZero(o.ln) && ExitedZero(o.finalProbe)
    ensures var r := FixNvidiaSmi(fs, o);
      && r.result == Success((true, CreatedMessage + "; " + NowWorking))
      && r.fs == fs.(entry := Symlink(WindowsNvidiaSmiPath), parentExists := true)
      && r.ran == [ProbeArgv(None), RmArgv] + (if fs.parentExists then [] else [MkdirArgv]) + [LnArgv, ProbeArgv(None)]
  {
    var nothing: seq<string> := [];
    assert nothing + [CreatedMessage, NowWorking] == [CreatedMessage, NowWorking];
    assert Join([CreatedMessage, NowWorking], "; ") == CreatedMessage + "; " + NowWorking by {
      assert [CreatedMessage, NowWorking][1..] == [NowWorking];
    }
  }
}
