/** WSL2 detection and the parsers for `/etc/os-release` and `/proc/version`.
    The environment, the existence of the interop markers and the contents of
    the two files are inputs. */
module System {
  import opened Wrappers
  import opened Text

  /** Reading a file that may be missing or unreadable. `Undecodable` is a
      file whose bytes are not text in the locale's encoding: `read_text`
      then raises `UnicodeDecodeError`, a `ValueError` that the handlers for
      `OSError` do not catch. */
  datatype FileRead = Absent | Unreadable | Undecodable | Content(text: string)

  /** The exception that escapes the detection functions. */
  datatype SystemError = UnicodeDecodeError

  /** What WSL2 detection looks at. */
  datatype WslProbe = WslProbe(
    distroEnv: Option<string>,   // WSL_DISTRO_NAME, if set
    interopExists: bool,         // /proc/sys/fs/binfmt_misc/WSLInterop
    interopLateExists: bool,     // /proc/sys/fs/binfmt_misc/WSLInterop-late
    procVersion: FileRead)       // /proc/version

  const Unknown := "Unknown"

  // ---------------------------------------------------------------------------
  // Case-insensitive search for the WSL2 marker

  /** `c` matches the pattern letter `p` under `re.IGNORECASE`: the letter
      itself, its ASCII other case, and the two non-ASCII letters that fold
      to `s` and `i` (long s, dotless and dotted capital i). */
  predicate FoldMatch(c: char, p: char) {
    || c == p
    || ('a' <= p <= 'z' && c as int == p as int - 32)
    || (p == 's' && c == '\U{17F}')
    || (p == 'i' && (c == '\U{130}' || c == '\U{131}'))
  }

  /** `word` (lower-case) matches case-insensitively at position `i` of `s`. */
  predicate FoldedAt(s: string, i: nat, word: string) {
    i + |word| <= |s| && forall k :: 0 <= k < |word| ==> FoldMatch(s[i + k], word[k])
  }

  /** The first alternative of `(microsoft.*wsl2|wsl2)` at position `i`:
      `microsoft`, then anything but a line break, then `wsl2` at `j`. */
  predicate MicrosoftThenWsl2(s: string, i: nat, j: nat) {
    && FoldedAt(s, i, "microsoft") && i + 9 <= j <= |s|
    && Lacks(s[i + 9..j], '\n') && FoldedAt(s, j, "wsl2")
  }

  /** `re.search(r"(microsoft.*wsl2|wsl2)", s, re.IGNORECASE)` succeeds. */
  ghost predicate Wsl2Pattern(s: string) {
    exists i: nat :: Wsl2MatchAt(s, i)
  }

  /** Either alternative matches at position `i`. */
  ghost predicate Wsl2MatchAt(s: string, i: nat) {
    (exists j: nat :: MicrosoftThenWsl2(s, i, j)) || FoldedAt(s, i, "wsl2")
  }

  /** Scan for `wsl2` from position `i` on. */
  function ScanWsl2(s: string, i: nat): (r: bool)
    requires i <= |s|
    ensures r <==> exists j: nat :: i <= j && FoldedAt(s, j, "wsl2")
    decreases |s| - i
  {
    if i + 4 > |s| then false
    else FoldedAt(s, i, "wsl2") || ScanWsl2(s, i + 1)
  }

  /** The `microsoft.*` alternative never matches where `wsl2` alone would
      not: the pattern holds exactly when `wsl2` occurs, in any case. */
  lemma PatternIsWsl2Anywhere(s: string)
    ensures Wsl2Pattern(s) <==> exists j: nat :: FoldedAt(s, j, "wsl2")
  {
    if Wsl2Pattern(s) {
      var i: nat :| Wsl2MatchAt(s, i);
      if !FoldedAt(s, i, "wsl2") {
        var j: nat :| MicrosoftThenWsl2(s, i, j);
        assert FoldedAt(s, j, "wsl2");
      }
    }
    if exists j: nat :: FoldedAt(s, j, "wsl2") {
      var j: nat :| FoldedAt(s, j, "wsl2");
      assert Wsl2MatchAt(s, j);
    }
  }

  /** The marker search, as a scan for `wsl2`. */
  function ContainsWsl2(s: string): (r: bool)
    ensures r <==> Wsl2Pattern(s)
  {
    PatternIsWsl2Anywhere(s);
    ScanWsl2(s, 0)
  }

  /** `is_wsl2()`: a non-empty WSL_DISTRO_NAME, either interop marker, or the
      marker in a readable `/proc/version`. The file is read only when the
      first two tests fail, so only then can its decoding error escape. */
  function IsWsl2(p: WslProbe): (r: Result<bool, SystemError>)
    ensures r.Failure? <==>
      && !(p.distroEnv.Some? && p.distroEnv.value != "")
      && !p.interopExists && !p.interopLateExists
      && p.procVersion.Undecodable?
    ensures r.Success? ==>
      (r.value <==> || (p.distroEnv.Some? && p.distroEnv.value != "")
                    || p.interopExists || p.interopLateExists
                    || (p.procVersion.Content? && Wsl2Pattern(p.procVersion.text)))
  {
    if p.distroEnv.Some? && p.distroEnv.value != "" then Success(true)
    else if p.interopExists || p.interopLateExists then Success(true)
    else
      match p.procVersion
      case Content(text) => Success(ContainsWsl2(text))
      case Undecodable => Failure(UnicodeDecodeError)
      case _ => Success(false)
  }

  /** A kernel string naming `WSL2` in any of the letter cases is enough. */
  lemma KernelMarkerDetected(before: string, marker: string, after: string)
    requires |marker| == 4 && (marker[0] == 'w' || marker[0] == 'W') && (marker[1] == 's' || marker[1] == 'S')
    requires (marker[2] == 'l' || marker[2] == 'L') && marker[3] == '2'
    ensures IsWsl2(WslProbe(None, false, false, Content(before + marker + after))) == Success(true)
  {
    var s := before + marker + after;
    assert forall k :: 0 <= k < 4 ==> s[|before| + k] == marker[k];
    assert FoldedAt(s, |before|, "wsl2");
  }

  /** `get_wsl_distro_name()`: the variable's value even when it is empty,
      although detection ignores an empty one. */
  function GetWslDistroName(distroEnv: Option<string>): (r: string)
    ensures distroEnv.Some? ==> r == distroEnv.value
    ensures distroEnv.None? ==> r == Unknown
  {
    distroEnv.GetOr(Unknown)
  }

  /** A set but empty WSL_DISTRO_NAME names no distribution and is no evidence
      of WSL2; the name reported is then the empty text, not `Unknown`. */
  lemma EmptyDistroName(interop: bool, late: bool, proc: FileRead)
    ensures GetWslDistroName(Some("")) == ""
    ensures IsWsl2(WslProbe(Some(""), interop, late, proc)) == IsWsl2(WslProbe(None, interop, late, proc))
  {
  }

  // ---------------------------------------------------------------------------
  // /etc/os-release

  /** A character `[^"\n]` accepts. */
  predicate ValueChar(c: char) {
    c != '"' && c != '\n'
  }

  predicate IsFieldValue(v: string) {
    |v| > 0 && forall k :: 0 <= k < |v| ==> ValueChar(v[k])
  }

  /** Where the value starts: past the key, and past an opening quote. */
  function ValueStart(t: string, key: string): (q: nat)
    ensures q == |key| || (q == |key| + 1 && |t| > |key| && t[|key|] == '"')
  {
    if |t| > |key| && t[|key|] == '"' then |key| + 1 else |key|
  }

  /** `key"?([^"\n]+)` at the start of `t`. An opening quote is consumed when
      present; giving it back cannot help, since the value may not start
      with a quote. */
  function FieldAt(t: string, key: string): (r: Option<string>)
    ensures r.Some? ==> StartsWith(t, key) && IsFieldValue(r.value)
    ensures r.Some? ==> var q := ValueStart(t, key);
      && q + |r.value| <= |t| && t[q..q + |r.value|] == r.value
      && (q + |r.value| == |t| || !ValueChar(t[q + |r.value|]))
    ensures StartsWith(t, key) && |t| > |key| && ValueChar(t[|key|]) ==> r.Some?
    ensures StartsWith(t, key) && |t| > |key| + 1 && t[|key|] == '"' && ValueChar(t[|key| + 1]) ==> r.Some?
  {
    if !StartsWith(t, key) then None
    else
      var q := ValueStart(t, key);
      var n := Span(t[q..], ValueChar);
      if n == 0 then None
      else
        assert t[q..][..n] == t[q..q + n];
        assert q + n == |t| || t[q + n] == t[q..][n];
        Some(t[q..q + n])
  }

  /** The pattern tried at position `j`, where MULTILINE `^` allows it: the
      start of the text or just after a line feed. */
  function FieldMatchAt(s: string, key: string, j: nat): Option<string>
    requires j <= |s|
  {
    if j == 0 || s[j - 1] == '\n' then FieldAt(s[j..], key) else None
  }

  function FieldMatcher(key: string): (string, nat) -> Option<string> {
    (t: string, j: nat) => if j <= |t| then FieldMatchAt(t, key, j) else None
  }

  /** `re.search("^" + key + r'"?([^"\n]+)"?', s, re.MULTILINE).group(1)` */
  function SearchField(s: string, key: string): (r: Option<string>)
    ensures r.None? ==> forall j :: 0 <= j <= |s| ==> FieldMatchAt(s, key, j).None?
    ensures r.Some? ==> exists j :: (0 <= j <= |s| && FieldMatchAt(s, key, j) == r
      && forall j' :: 0 <= j' < j ==> FieldMatchAt(s, key, j').None?)
    ensures r.Some? ==> IsFieldValue(r.value)
  {
    var r := FirstMatch(s, FieldMatcher(key), 0);
    assert forall j :: 0 <= j <= |s| ==> FieldMatcher(key)(s, j) == FieldMatchAt(s, key, j);
    r
  }

  const NameKey := "NAME="
  const VersionKey := "VERSION="

  /** `get_os_info()`: the NAME and VERSION values, each `Unknown` when its
      line is absent, and both `Unknown` when the file is missing or cannot
      be read; a decoding error escapes. */
  function GetOsInfo(osRelease: FileRead): (r: Result<(string, string), SystemError>)
    ensures r.Failure? <==> osRelease.Undecodable?
    ensures osRelease.Absent? || osRelease.Unreadable? ==> r == Success((Unknown, Unknown))
    ensures osRelease.Content? ==> r.Success? && r.value.0 == SearchField(osRelease.text, NameKey).GetOr(Unknown)
    ensures osRelease.Content? ==> r.Success? && r.value.1 == SearchField(osRelease.text, VersionKey).GetOr(Unknown)
    ensures r.Success? && r.value.0 != Unknown ==> IsFieldValue(r.value.0)
    ensures r.Success? && r.value.1 != Unknown ==> IsFieldValue(r.value.1)
  {
    match osRelease
    case Content(text) =>
      Success((SearchField(text, NameKey).GetOr(Unknown), SearchField(text, VersionKey).GetOr(Unknown)))
    case Undecodable => Failure(UnicodeDecodeError)
    case _ => Success((Unknown, Unknown))
  }

  /** A quoted value is read back without its quotes. */
  lemma QuotedFieldReadBack(key: string, v: string, rest: string)
    requires IsFieldValue(v)
    ensures FieldAt(key + "\"" + v + "\"" + rest, key) == Some(v)
  {
    var t := key + "\"" + v + "\"" + rest;
    assert t == key + ("\"" + (v + ("\"" + rest)));
    assert t[..|key|] == key;
    assert t[|key|] == '"';
    assert t[|key| + 1..] == v + ("\"" + rest);
    SpanOfConcat(v, "\"" + rest, ValueChar);
    assert t[|key| + 1..|key| + 1 + |v|] == v;
  }

  /** An unquoted value is read up to the end of its line. */
  lemma PlainFieldReadBack(key: string, v: string, rest: string)
    requires IsFieldValue(v)
    ensures FieldAt(key + v + "\n" + rest, key) == Some(v)
  {
    var t := key + v + "\n" + rest;
    assert t == key + (v + ("\n" + rest));
    assert t[..|key|] == key;
    assert t[|key|] == v[0];
    assert t[|key|..] == v + ("\n" + rest);
    SpanOfConcat(v, "\n" + rest, ValueChar);
    assert t[|key|..|key| + |v|] == v;
  }

  /** A field on the first line of the file is what the search reports. */
  lemma FirstLineField(key: string, v: string, rest: string)
    requires IsFieldValue(v)
    ensures SearchField(key + "\"" + v + "\"" + rest, key) == Some(v)
  {
    var s := key + "\"" + v + "\"" + rest;
    QuotedFieldReadBack(key, v, rest);
    assert s[0..] == s;
  }

  /** An empty quoted value does not match at all: the search goes on to later
      lines instead of returning an empty name. */
  lemma EmptyQuotedFieldSkipped(key: string, rest: string)
    ensures FieldAt(key + "\"\"" + rest, key).None?
  {
    var t := key + "\"\"" + rest;
    assert t[..|key|] == key;
    assert t[|key|] == '"' && t[|key| + 1] == '"';
    assert t[|key| + 1..][0] == '"';
  }

  // ---------------------------------------------------------------------------
  // /proc/version

  const KernelKey := "Linux version "

  predicate NotSpace(c: char) {
    !IsSpace(c)
  }

  /** `Linux version ([^\s]+)` at the start of `t`. */
  function KernelAt(t: string): (r: Option<string>)
    ensures r.Some? ==> StartsWith(t, KernelKey) && |r.value| > 0
    ensures r.Some? ==> (|KernelKey| + |r.value| <= |t| && t[|KernelKey|..|KernelKey| + |r.value|] == r.value
      && (forall k :: 0 <= k < |r.value| ==> !IsSpace(r.value[k]))
      && (|KernelKey| + |r.value| == |t| || IsSpace(t[|KernelKey| + |r.value|])))
    ensures r.None? <==> !StartsWith(t, KernelKey) || |t| == |KernelKey| || IsSpace(t[|KernelKey|])
  {
    if !StartsWith(t, KernelKey) then None
    else
      var n := Span(t[|KernelKey|..], NotSpace);
      WordRun(t, |KernelKey|, n);
      if n == 0 then None
      else Some(t[|KernelKey|..|KernelKey| + n])
  }

  /** The run of non-space characters starting at offset `h` of `t`. */
  lemma WordRun(t: string, h: nat, n: nat)
    requires h <= |t| && n == Span(t[h..], NotSpace)
    ensures h + n <= |t|
    ensures n == 0 <==> h == |t| || IsSpace(t[h])
    ensures forall k :: h <= k < h + n ==> !IsSpace(t[k])
    ensures h + n == |t| || IsSpace(t[h + n])
  {
    assert h < |t| ==> t[h] == t[h..][0];
    assert t[h..][..n] == t[h..h + n];
    assert h + n == |t| || t[h + n] == t[h..][n];
  }

  function KernelMatcher(): (string, nat) -> Option<string> {
    (t: string, j: nat) => if j <= |t| then KernelAt(t[j..]) else None
  }

  /** `j` is the first offset of `text` where `Linux version` and a word match. */
  predicate FirstKernelAt(text: string, j: nat) {
    && j <= |text| && KernelAt(text[j..]).Some?
    && forall j' :: 0 <= j' < j ==> KernelAt(text[j'..]).None?
  }

  /** `get_kernel_version()`: the first `Linux version` followed by a word,
      or `Unknown`. */
  function GetKernelVersion(procVersion: FileRead): (r: Result<string, SystemError>)
    ensures r.Failure? <==> procVersion.Undecodable?
    ensures procVersion.Absent? || procVersion.Unreadable? ==> r == Success(Unknown)
    ensures procVersion.Content? && r.value != Unknown ==>
      exists j: nat :: FirstKernelAt(procVersion.text, j) && KernelAt(procVersion.text[j..]) == Some(r.value)
    ensures procVersion.Content? ==>
      forall j: nat :: FirstKernelAt(procVersion.text, j) ==> r.value == KernelAt(procVersion.text[j..]).value
    ensures procVersion.Content? && (forall j :: 0 <= j <= |procVersion.text| ==> KernelAt(procVersion.text[j..]).None?)
      ==> r.value == Unknown
    ensures r.Success? && r.value != Unknown ==> |r.value| > 0 && forall k :: 0 <= k < |r.value| ==> !IsSpace(r.value[k])
  {
    match procVersion
    case Content(text) =>
      var m := FirstMatch(text, KernelMatcher(), 0);
      KernelFirst(text);
      Success(m.GetOr(Unknown))
    case Undecodable => Failure(UnicodeDecodeError)
    case _ => Success(Unknown)
  }

  /** The search over `/proc/version` finds the first kernel match. */
  lemma KernelFirst(text: string)
    ensures var m := FirstMatch(text, KernelMatcher(), 0);
      && (m.None? ==> forall j :: 0 <= j <= |text| ==> KernelAt(text[j..]).None?)
      && (m.Some? ==> exists j: nat :: FirstKernelAt(text, j) && KernelAt(text[j..]) == m)
      && forall j: nat :: FirstKernelAt(text, j) ==> m == KernelAt(text[j..])
  {
    KernelMatcherAt(text);
    KernelFound(text);
    forall j: nat | FirstKernelAt(text, j)
      ensures FirstMatch(text, KernelMatcher(), 0) == KernelAt(text[j..])
    {
      FirstMatchIsFirst(text, KernelMatcher(), 0, j);
    }
  }

  lemma KernelMatcherAt(text: string)
    ensures forall j :: 0 <= j <= |text| ==> KernelMatcher()(text, j) == KernelAt(text[j..])
  {
  }

  lemma KernelFound(text: string)
    ensures var m := FirstMatch(text, KernelMatcher(), 0);
      m.Some? ==> exists j: nat :: FirstKernelAt(text, j) && KernelAt(text[j..]) == m
  {
    KernelMatcherAt(text);
  }

  /** The kernel release is read back up to the first whitespace. */
  lemma KernelReadBack(v: string, rest: string)
    requires |v| > 0 && forall k :: 0 <= k < |v| ==> !IsSpace(v[k])
    requires |rest| == 0 || IsSpace(rest[0])
    ensures KernelAt(KernelKey + v + rest) == Some(v)
  {
    var t := KernelKey + v + rest;
    assert t[..|KernelKey|] == KernelKey;
    assert t[|KernelKey|..] == v + rest;
    SpanOfConcat(v, rest, NotSpace);
    assert (v + rest)[..|v|] == v;
  }
}
