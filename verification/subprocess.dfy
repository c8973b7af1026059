/** The process runner and the path-containment check every privileged step
    relies on. The child process itself is not modelled: its observable end
    (exit status and captured output, a timeout, or a missing executable) is
    an input. */
module Subprocess {
  import opened Wrappers
  import opened Text

  /** What the operating system reports for one child process. */
  datatype ProcessOutcome =
    | Exited(code: int, stdout: string, stderr: string)
    | TimedOut   // the timeout elapsed; the child was killed
    | NotFound   // the executable does not exist

  /** The runner's exception; `returncode` is known only for a completed child. */
  datatype SubprocessError = SubprocessError(message: string, returncode: Option<int>)

  datatype Completed = Completed(returncode: int, stdout: string, stderr: string)

  /** The child ran to completion with exit status 0. */
  predicate ExitedZero(o: ProcessOutcome) {
    o.Exited? && o.code == 0
  }

  function TimeoutText(timeout: Option<nat>): string {
    match timeout
    case Some(t) => NatToString(t)
    case None => "None"
  }

  /** `run_command`: a completed child is returned as is, unless `check` is set
      and it failed; a timeout or a missing executable is always an error. */
  function RunCommand(command: seq<string>, timeout: Option<nat>, check: bool, outcome: ProcessOutcome)
    : (r: Result<Completed, SubprocessError>)
    requires |command| > 0
    ensures r.Success? <==> outcome.Exited? && (!check || outcome.code == 0)
    ensures r.Success? ==> r.value == Completed(outcome.code, outcome.stdout, outcome.stderr)
    ensures r.Failure? && outcome.Exited? ==> r.error.returncode == Some(outcome.code) && outcome.code != 0
    ensures r.Failure? && !outcome.Exited? ==> r.error.returncode == None
    ensures outcome.NotFound? ==> r.error.message == "Command not found: " + command[0]
  {
    match outcome
    case Exited(code, out, err) =>
      if check && code != 0 then
        Failure(SubprocessError(
          "Command failed with exit code " + IntToString(code) + ": " + Join(command, " "), Some(code)))
      else
        Success(Completed(code, out, err))
    case TimedOut =>
      Failure(SubprocessError(
        "Command timed out after " + TimeoutText(timeout) + " seconds: " + Join(command, " "), None))
    case NotFound =>
      Failure(SubprocessError("Command not found: " + command[0], None))
  }

  /** A caller that passes `check=False` and then tests the exit status sees
      an error exactly when `check=True` would have raised one. */
  lemma CheckedAndUncheckedAgree(command: seq<string>, timeout: Option<nat>, outcome: ProcessOutcome)
    requires |command| > 0
    ensures RunCommand(command, timeout, true, outcome).Success?
        <==> (RunCommand(command, timeout, false, outcome).Success?
              && RunCommand(command, timeout, false, outcome).value.returncode == 0)
    ensures RunCommand(command, timeout, true, outcome).Success? <==> ExitedZero(outcome)
  {
  }

  // ---------------------------------------------------------------------------
  // Lexical `Path.resolve()` and `validate_path_safe`

  /** A segment that names a directory entry: not empty, `.` or `..`, and slash-free. */
  predicate NormalSegment(s: string) {
    s != "" && s != "." && s != ".." && Lacks(s, '/')
  }

  predicate Normalized(segs: seq<string>) {
    forall i :: 0 <= i < |segs| ==> NormalSegment(segs[i])
  }

  /** One segment of resolution: empty and `.` segments vanish, `..` drops the
      last directory (and stays at the root), anything else is appended. */
  function Step(stack: seq<string>, seg: string): seq<string> {
    if seg == "" || seg == "." then stack
    else if seg == ".." then (if |stack| == 0 then stack else stack[..|stack| - 1])
    else stack + [seg]
  }

  function Collapse(stack: seq<string>, segs: seq<string>): (r: seq<string>)
    ensures Normalized(stack) && (forall i :: 0 <= i < |segs| ==> Lacks(segs[i], '/')) ==> Normalized(r)
    decreases |segs|
  {
    if |segs| == 0 then stack else Collapse(Step(stack, segs[0]), segs[1..])
  }

  /** `Path(path).resolve()` without symbolic links: the absolute path as its
      list of segments below the root. A relative path starts at `cwd`. */
  function Resolve(path: string, cwd: seq<string>): seq<string> {
    Collapse(if StartsWith(path, "/") then [] else cwd, SplitOn(path, {'/'}))
  }

  predicate IsPrefix<T(==)>(a: seq<T>, b: seq<T>) {
    |a| <= |b| && b[..|a|] == a
  }

  /** `b` extends `a` exactly when it is `a` followed by more elements. */
  lemma PrefixExtends<T>(a: seq<T>, b: seq<T>)
    ensures IsPrefix(a, b) <==> exists below :: b == a + below
  {
    if IsPrefix(a, b) {
      assert b == a + b[|a|..];
    }
  }

  /** `validate_path_safe(path, allowed_parent)`: without a parent any path is
      accepted; with one, the resolved path must be the resolved parent
      followed by zero or more segments. */
  function ValidatePathSafe(path: string, allowedParent: Option<string>, cwd: seq<string>): (r: bool)
    ensures allowedParent.None? ==> r
    ensures allowedParent.Some? ==>
      (r <==> exists below :: Resolve(path, cwd) == Resolve(allowedParent.value, cwd) + below)
  {
    match allowedParent
    case None => true
    case Some(parent) =>
      PrefixExtends(Resolve(parent, cwd), Resolve(path, cwd));
      IsPrefix(Resolve(parent, cwd), Resolve(path, cwd))
  }

  lemma {:induction false} CollapseConcat(stack: seq<string>, a: seq<string>, b: seq<string>)
    ensures Collapse(stack, a + b) == Collapse(Collapse(stack, a), b)
    decreases |a|
  {
    if |a| > 0 {
      assert (a + b)[0] == a[0] && (a + b)[1..] == a[1..] + b;
      CollapseConcat(Step(stack, a[0]), a[1..], b);
    } else {
      assert a + b == b;
    }
  }

  /** Appending `/name` to a non-empty path adds exactly one segment. */
  lemma ResolveChild(parent: string, name: string, cwd: seq<string>)
    requires |parent| > 0 && NormalSegment(name)
    ensures Resolve(parent + "/" + name, cwd) == Resolve(parent, cwd) + [name]
  {
    var p := parent + "/" + name;
    assert p == parent + ['/'] + name;
    SplitOnConcat(parent, '/', name, {'/'});
    SplitOnWithout(name, {'/'});
    assert StartsWith(p, "/") == StartsWith(parent, "/");
    var base := if StartsWith(parent, "/") then [] else cwd;
    CollapseConcat(base, SplitOn(parent, {'/'}), [name]);
  }

  /** A directory entry named by a normal segment lies inside its directory. */
  lemma ChildIsInside(parent: string, name: string, cwd: seq<string>)
    requires |parent| > 0 && NormalSegment(name)
    ensures ValidatePathSafe(parent + "/" + name, Some(parent), cwd)
  {
    ResolveChild(parent, name, cwd);
  }

  /** A directory counts as inside itself. */
  lemma ParentIsInside(parent: string, cwd: seq<string>)
    ensures ValidatePathSafe(parent, Some(parent), cwd)
  {
  }

  /** A single segment directly below the root. */
  lemma ResolveRootChild(name: string, cwd: seq<string>)
    requires NormalSegment(name)
    ensures Resolve("/" + name, cwd) == [name]
  {
    var p := "/" + name;
    assert p == "" + ['/'] + name;
    SplitOnConcat("", '/', name, {'/'});
    SplitOnWithout(name, {'/'});
    assert SplitOn(p, {'/'}) == ["", name];
    assert Collapse([], ["", name]) == Collapse([], [name]);
  }

  /** `..` is collapsed before the containment test: `parent/../sibling` is
      rejected unless `sibling` names the parent itself. */
  lemma DotDotEscapes(parent: string, sibling: string, cwd: seq<string>)
    requires |parent| > 0 && NormalSegment(sibling)
    requires var rp := Resolve(parent, cwd); |rp| > 0 && rp[|rp| - 1] != sibling
    ensures !ValidatePathSafe(parent + "/../" + sibling, Some(parent), cwd)
  {
    var rp := Resolve(parent, cwd);
    var p := parent + "/../" + sibling;
    SplitDotDot(parent, sibling);
    assert StartsWith(p, "/") == StartsWith(parent, "/");
    var base := if StartsWith(parent, "/") then [] else cwd;
    CollapseConcat(base, SplitOn(parent, {'/'}), ["..", sibling]);
    UpThenDown(rp, sibling);
    var r := Resolve(p, cwd);
    assert r == Collapse(rp, ["..", sibling]);
    assert r[|rp| - 1] != rp[|rp| - 1];
  }

  lemma SplitDotDot(parent: string, sibling: string)
    requires NormalSegment(sibling)
    ensures SplitOn(parent + "/../" + sibling, {'/'}) == SplitOn(parent, {'/'}) + ["..", sibling]
  {
    var tail := ".." + ['/'] + sibling;
    assert parent + "/../" + sibling == parent + ['/'] + tail;
    SplitOnConcat(parent, '/', tail, {'/'});
    SplitOnConcat("..", '/', sibling, {'/'});
    SplitOnWithout("..", {'/'});
    SplitOnWithout(sibling, {'/'});
  }

  /** `..` followed by a plain segment replaces the last segment. */
  lemma UpThenDown(stack: seq<string>, seg: string)
    requires |stack| > 0 && NormalSegment(seg)
    ensures Collapse(stack, ["..", seg]) == stack[..|stack| - 1] + [seg]
  {
    var up := stack[..|stack| - 1];
    assert Collapse(stack, ["..", seg]) == Collapse(up, [seg]);
    assert Collapse(up, [seg]) == up + [seg];
  }

  /** Containment is by whole segments, not by characters: `dir/lib2/x` is not
      inside `dir/lib` although the text `dir/lib` is a prefix of it. */
  lemma SegmentwiseContainment(dir: string, name: string, other: string, leaf: string, cwd: seq<string>)
    requires |dir| > 0 && NormalSegment(name) && NormalSegment(other) && NormalSegment(leaf)
    requires name != other
    ensures !ValidatePathSafe(dir + "/" + other + "/" + leaf, Some(dir + "/" + name), cwd)
  {
    ResolveChild(dir, name, cwd);
    ResolveChild(dir, other, cwd);
    ResolveChild(dir + "/" + other, leaf, cwd);
    var rd := Resolve(dir, cwd);
    var r := Resolve(dir + "/" + other + "/" + leaf, cwd);
    assert r == rd + [other] + [leaf];
    assert r[|rd|] == other;
  }
}
