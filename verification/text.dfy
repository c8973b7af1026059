/** Text primitives with Python's meaning: `str.isspace`, `strip`, `split`,
    `join`, `str(int)`, and the code-point ordering `sorted()` uses on `str`. */
module Text {
  import opened Wrappers

  /** `c.isspace()`: the ASCII controls TAB..CR and FS..US, the space, and the
      Unicode space separators. The same set is what `\s` matches in a `str`
      regular expression. */
  predicate IsSpace(c: char) {
    || c == ' '
    || ('\t' <= c <= '\r')
    || ('\U{1C}' <= c <= '\U{1F}')
    || c == '\U{85}' || c == '\U{A0}' || c == '\U{1680}'
    || ('\U{2000}' <= c <= '\U{200A}')
    || c == '\U{2028}' || c == '\U{2029}' || c == '\U{202F}' || c == '\U{205F}'
    || c == '\U{3000}'
  }

  predicate IsAsciiLetter(c: char) {
    ('a' <= c <= 'z') || ('A' <= c <= 'Z')
  }

  predicate IsDigit(c: char) {
    '0' <= c <= '9'
  }

  predicate AllSpace(s: string) {
    forall i :: 0 <= i < |s| ==> IsSpace(s[i])
  }

  predicate AllDigits(s: string) {
    forall i :: 0 <= i < |s| ==> IsDigit(s[i])
  }

  /** `c` does not occur in `s`. */
  predicate Lacks(s: string, c: char) {
    forall i :: 0 <= i < |s| ==> s[i] != c
  }

  /** Length of the longest prefix of `s` whose characters all satisfy `p`:
      what a greedy `[...]*` consumes. */
  function Span(s: string, p: char -> bool): (n: nat)
    ensures n <= |s|
    ensures forall k :: 0 <= k < n ==> p(s[k])
    ensures n < |s| ==> !p(s[n])
    decreases |s|
  {
    if |s| > 0 && p(s[0]) then 1 + Span(s[1..], p) else 0
  }

  /** Nothing longer than `Span` satisfies `p` throughout. */
  lemma SpanMaximal(s: string, p: char -> bool, j: nat)
    requires j <= |s| && forall k :: 0 <= k < j ==> p(s[k])
    ensures j <= Span(s, p)
  {
  }

  /** `Span` stops exactly at the first character that fails `p`. */
  lemma SpanOfConcat(v: string, t: string, p: char -> bool)
    requires forall k :: 0 <= k < |v| ==> p(v[k])
    requires |t| == 0 || !p(t[0])
    ensures Span(v + t, p) == |v|
  {
    SpanMaximal(v + t, p, |v|);
    if |t| > 0 {
      assert (v + t)[|v|] == t[0];
    }
  }

  /** What `re.search` does with a pattern: try it at every position from `i`
      on, and report the first position where it matches. `m(s, j)` is the
      pattern tried at position `j` of `s`. */
  function FirstMatch<T>(s: string, m: (string, nat) -> Option<T>, i: nat): (r: Option<T>)
    requires i <= |s|
    ensures r.None? ==> forall j :: i <= j <= |s| ==> m(s, j).None?
    ensures r.Some? ==> exists j :: (i <= j <= |s| && m(s, j) == r
      && forall j' :: i <= j' < j ==> m(s, j').None?)
    decreases |s| - i
  {
    if m(s, i).Some? || i == |s| then m(s, i)
    else
      var r := FirstMatch(s, m, i + 1);
      if r.Some? then
        ghost var j :| i + 1 <= j <= |s| && m(s, j) == r
          && forall j' :: i + 1 <= j' < j ==> m(s, j').None?;
        assert forall j' :: i <= j' < j ==> m(s, j').None?;
        r
      else
        r
  }

  /** A match with no match before it is the one the search returns. */
  lemma FirstMatchIsFirst<T>(s: string, m: (string, nat) -> Option<T>, i: nat, j: nat)
    requires i <= j <= |s| && m(s, j).Some?
    requires forall j' :: i <= j' < j ==> m(s, j').None?
    ensures FirstMatch(s, m, i) == m(s, j)
  {
    var r := FirstMatch(s, m, i);
    var k :| i <= k <= |s| && m(s, k) == r && forall j' :: i <= j' < k ==> m(s, j').None?;
    assert !(k < j) && !(j < k);
  }

  /** `s.startswith(prefix)` */
  predicate StartsWith(s: string, prefix: string) {
    |prefix| <= |s| && s[..|prefix|] == prefix
  }

  // ---------------------------------------------------------------------------
  // strip

  /** `s.lstrip()`: the suffix of `s` left after its leading whitespace. */
  function LStrip(s: string): (r: string)
    ensures |r| <= |s| && r == s[|s| - |r|..]
    ensures AllSpace(s[..|s| - |r|])
    ensures |r| > 0 ==> !IsSpace(r[0])
  {
    if |s| > 0 && IsSpace(s[0]) then LStrip(s[1..]) else s
  }

  /** `s.rstrip()`: the prefix of `s` left after its trailing whitespace. */
  function RStrip(s: string): (r: string)
    ensures |r| <= |s| && r == s[..|r|]
    ensures AllSpace(s[|r|..])
    ensures |r| > 0 ==> !IsSpace(r[|r| - 1])
  {
    if |s| > 0 && IsSpace(s[|s| - 1]) then RStrip(s[..|s| - 1]) else s
  }

  /** `s.strip()` */
  function Strip(s: string): string {
    RStrip(LStrip(s))
  }

  /** `w` sits in `s` at offset `a` with only whitespace around it. */
  predicate Window(s: string, a: nat, w: string) {
    && a + |w| <= |s| && s[a..a + |w|] == w
    && AllSpace(s[..a]) && AllSpace(s[a + |w|..])
  }

  /** `strip` keeps one window of `s`: all-space text on either side, and no
      space at either end of the window (`StripEmpty` adds that it is empty
      exactly for all-space text). */
  lemma StripWindow(s: string)
    ensures Window(s, |s| - |LStrip(s)|, Strip(s))
    ensures |Strip(s)| > 0 ==> !IsSpace(Strip(s)[0]) && !IsSpace(Strip(s)[|Strip(s)| - 1])
  {
    StripSlice(s, LStrip(s), Strip(s));
    StripEnds(s);
  }

  /** The window facts, stated for the two stripping steps' results. */
  lemma StripSlice(s: string, l: string, n: string)
    requires |l| <= |s| && l == s[|s| - |l|..] && AllSpace(s[..|s| - |l|])
    requires |n| <= |l| && n == l[..|n|] && AllSpace(l[|n|..])
    ensures Window(s, |s| - |l|, n)
  {
    var a := |s| - |l|;
    var b := a + |n|;
    forall k | 0 <= k < |n|
      ensures s[a..b][k] == n[k]
    {
      assert n[k] == l[k] && l[k] == s[a + k];
    }
    assert s[a..b] == n;
    forall k | 0 <= k < |s| - b
      ensures s[b..][k] == l[|n|..][k]
    {
      assert l[|n| + k] == s[b + k];
    }
    assert s[b..] == l[|n|..];
  }

  lemma StripEnds(s: string)
    ensures |Strip(s)| > 0 ==> !IsSpace(Strip(s)[0]) && !IsSpace(Strip(s)[|Strip(s)| - 1])
  {
    var l := LStrip(s);
    var n := RStrip(l);
    if |n| > 0 {
      assert n[0] == l[0];
    }
  }

  lemma StripEmpty(s: string)
    ensures Strip(s) == "" <==> AllSpace(s)
  {
    var l := LStrip(s);
    var n := RStrip(l);
    var a := |s| - |l|;
    if |n| == 0 {
      assert s[..a] == s;
    } else {
      assert n[0] == l[0];
      assert s[a..] == l;
      assert s[a] == n[0];
    }
  }

  /** Leading whitespace is invisible to `lstrip`. */
  lemma {:induction false} LStripAfterSpace(w: string, b: string)
    requires AllSpace(w)
    ensures LStrip(w + b) == LStrip(b)
  {
    if |w| > 0 {
      assert (w + b)[1..] == w[1..] + b;
      LStripAfterSpace(w[1..], b);
    } else {
      assert w + b == b;
    }
  }

  /** `rstrip` never reaches past a non-space character. */
  lemma {:induction false} RStripKeeps(x: string, c: char, y: string)
    requires !IsSpace(c)
    ensures RStrip(x + [c] + y) == x + [c] + RStrip(y)
    decreases |y|
  {
    if |y| == 0 {
      assert x + [c] + y == x + [c];
    } else if IsSpace(y[|y| - 1]) {
      assert (x + [c] + y)[..|x + [c] + y| - 1] == x + [c] + y[..|y| - 1];
      RStripKeeps(x, c, y[..|y| - 1]);
    } else {
    }
  }

  // ---------------------------------------------------------------------------
  // split and join

  /** `s.split(sep)` generalised to a set of separator characters: the maximal
      separator-free pieces, always at least one. */
  function SplitOn(s: string, seps: set<char>): (r: seq<string>)
    ensures |r| >= 1
    ensures forall i, k :: 0 <= i < |r| && 0 <= k < |r[i]| ==> r[i][k] !in seps
    decreases |s|
  {
    if |s| == 0 then [""]
    else
      var rest := SplitOn(s[1..], seps);
      if s[0] in seps then [""] + rest else [[s[0]] + rest[0]] + rest[1..]
  }

  /** `sep.join(parts)` */
  function Join(parts: seq<string>, sep: string): string
    decreases |parts|
  {
    if |parts| == 0 then ""
    else if |parts| == 1 then parts[0]
    else parts[0] + sep + Join(parts[1..], sep)
  }

  lemma {:induction false} SplitOnWithout(s: string, seps: set<char>)
    requires forall k :: 0 <= k < |s| ==> s[k] !in seps
    ensures SplitOn(s, seps) == [s]
    decreases |s|
  {
    if |s| > 0 {
      SplitOnWithout(s[1..], seps);
      assert [s[0]] + s[1..] == s;
    }
  }

  /** Splitting distributes over a separator occurrence. */
  lemma {:induction false} SplitOnConcat(a: string, c: char, b: string, seps: set<char>)
    requires c in seps
    ensures SplitOn(a + [c] + b, seps) == SplitOn(a, seps) + SplitOn(b, seps)
    decreases |a|
  {
    if |a| == 0 {
      assert a + [c] + b == [c] + b;
      assert ([c] + b)[1..] == b;
    } else {
      var s := a + [c] + b;
      assert s[0] == a[0] && s[1..] == a[1..] + [c] + b;
      SplitOnConcat(a[1..], c, b, seps);
      var ra, rb := SplitOn(a[1..], seps), SplitOn(b, seps);
      var rest := SplitOn(s[1..], seps);
      assert rest == ra + rb;
      if a[0] !in seps {
        assert rest[0] == ra[0];
        assert rest[1..] == ra[1..] + rb;
        assert SplitOn(s, seps) == [[a[0]] + ra[0]] + (ra[1..] + rb);
      }
    }
  }

  lemma {:induction false} JoinAppend(parts: seq<string>, x: string, sep: string)
    requires |parts| >= 1
    ensures Join(parts + [x], sep) == Join(parts, sep) + sep + x
    decreases |parts|
  {
    if |parts| == 1 {
      assert parts + [x] == [parts[0], x];
    } else {
      assert (parts + [x])[1..] == parts[1..] + [x];
      JoinAppend(parts[1..], x, sep);
    }
  }

  /** Splitting a join of separator-free pieces gives the pieces back. */
  lemma {:induction false} SplitJoin(parts: seq<string>, c: char, seps: set<char>)
    requires c in seps && |parts| >= 1
    requires forall i, k :: 0 <= i < |parts| && 0 <= k < |parts[i]| ==> parts[i][k] !in seps
    ensures SplitOn(Join(parts, [c]), seps) == parts
    decreases |parts|
  {
    SplitOnWithout(parts[0], seps);
    if |parts| > 1 {
      SplitJoin(parts[1..], c, seps);
      SplitOnConcat(parts[0], c, Join(parts[1..], [c]), seps);
      assert parts[0] + [c] + Join(parts[1..], [c]) == Join(parts, [c]);
      assert [parts[0]] + parts[1..] == parts;
    }
  }

  /** Joining the pieces of a split gives the text back. */
  lemma {:induction false} JoinSplit(s: string, c: char)
    ensures Join(SplitOn(s, {c}), [c]) == s
    decreases |s|
  {
    if |s| > 0 {
      var rest := SplitOn(s[1..], {c});
      JoinSplit(s[1..], c);
      if s[0] == c {
        assert SplitOn(s, {c}) == [""] + rest;
        assert ([""] + rest)[1..] == rest;
        assert s == [c] + s[1..];
      } else {
        var r := SplitOn(s, {c});
        assert r == [[s[0]] + rest[0]] + rest[1..];
        if |rest| == 1 {
          assert s == [s[0]] + rest[0];
        } else {
          assert r[1..] == rest[1..];
          assert Join(rest, [c]) == rest[0] + [c] + Join(rest[1..], [c]);
          assert s == [s[0]] + s[1..];
        }
      }
    }
  }

  /** The first occurrence of `c` in a text that has one. */
  lemma {:induction false} FirstOccurrence(t: string, c: char) returns (i: nat)
    requires !Lacks(t, c)
    ensures i < |t| && t[i] == c && Lacks(t[..i], c)
    decreases |t|
  {
    if t[0] == c {
      i := 0;
    } else {
      var k :| 0 <= k < |t| && t[k] == c;
      assert t[1..][k - 1] == c;
      var j := FirstOccurrence(t[1..], c);
      i := j + 1;
      assert t[..i] == [t[0]] + t[1..][..j];
    }
  }

  /** The first piece of a split is the text up to the first separator. */
  lemma {:induction false} SplitFirstPiece(b: string, seps: set<char>)
    ensures var p := SplitOn(b, seps)[0];
      |p| <= |b| && b[..|p|] == p && (|p| == |b| || b[|p|] in seps)
    decreases |b|
  {
    if |b| > 0 && b[0] !in seps {
      SplitFirstPiece(b[1..], seps);
    }
  }

  /** `strip` removes only whitespace, so a non-space character occurs in the
      stripped text exactly when it occurs in the original. */
  lemma StripLacks(s: string, c: char)
    requires !IsSpace(c)
    ensures Lacks(Strip(s), c) <==> Lacks(s, c)
  {
    StripSlice(s, LStrip(s), Strip(s));
    WindowLacks(s, |s| - |LStrip(s)|, Strip(s), c);
  }

  lemma WindowLacks(s: string, a: nat, w: string, c: char)
    requires !IsSpace(c) && Window(s, a, w)
    ensures Lacks(w, c) <==> Lacks(s, c)
  {
    if Lacks(w, c) {
      forall k | 0 <= k < |s|
        ensures s[k] != c
      {
        if k < a {
          assert s[..a][k] == s[k];
        } else if k < a + |w| {
          assert w[k - a] == s[k];
        } else {
          assert s[a + |w|..][k - a - |w|] == s[k];
        }
      }
    }
    if Lacks(s, c) {
      forall k | 0 <= k < |w|
        ensures w[k] != c
      {
        assert w[k] == s[a + k];
      }
    }
  }

  // ---------------------------------------------------------------------------
  // decimal rendering, `str(n)` and `int(s)`

  function DigitChar(d: nat): (c: char)
    requires d < 10
    ensures IsDigit(c)
  {
    (48 + d) as char
  }

  /** `str(n)` for a non-negative integer. */
  function NatToString(n: nat): (r: string)
    ensures |r| > 0 && AllDigits(r)
    ensures n > 0 ==> r[0] != '0'
  {
    if n < 10 then [DigitChar(n)] else NatToString(n / 10) + [DigitChar(n % 10)]
  }

  /** `str(i)`, with a minus sign for negative values (signal exits are negative). */
  function IntToString(i: int): string {
    if i < 0 then "-" + NatToString(-i) else NatToString(i)
  }

  /** `int(s)` for a non-empty run of ASCII digits (leading zeros allowed). */
  function DigitsValue(s: string): nat
    requires AllDigits(s)
  {
    if |s| == 0 then 0 else 10 * DigitsValue(s[..|s| - 1]) + (s[|s| - 1] as int - 48)
  }

  lemma {:induction false} NatToStringRoundTrip(n: nat)
    ensures DigitsValue(NatToString(n)) == n
  {
    if n >= 10 {
      var p := NatToString(n / 10);
      var s := p + [DigitChar(n % 10)];
      assert s[..|s| - 1] == p;
      NatToStringRoundTrip(n / 10);
    }
  }

  /** Leading zeros do not change the value of a digit run. */
  lemma {:induction false} LeadingZeroIgnored(s: string)
    requires AllDigits(s)
    ensures DigitsValue("0" + s) == DigitsValue(s)
    decreases |s|
  {
    if |s| > 0 {
      var t := "0" + s;
      assert t[..|t| - 1] == "0" + s[..|s| - 1];
      LeadingZeroIgnored(s[..|s| - 1]);
    }
  }

  // ---------------------------------------------------------------------------
  // ordering of `str` and `sorted(set_of_str)`

  /** `a <= b` on Python strings: lexicographic by code point, a proper prefix first. */
  predicate LexLe(a: string, b: string)
    decreases |a|
  {
    |a| == 0 || (|b| > 0 && (a[0] < b[0] || (a[0] == b[0] && LexLe(a[1..], b[1..]))))
  }

  lemma {:induction false} LexLeReflexive(a: string)
    ensures LexLe(a, a)
    decreases |a|
  {
    if |a| > 0 {
      LexLeReflexive(a[1..]);
    }
  }

  lemma {:induction false} LexLeTotal(a: string, b: string)
    ensures LexLe(a, b) || LexLe(b, a)
    decreases |a|
  {
    if |a| > 0 && |b| > 0 && a[0] == b[0] {
      LexLeTotal(a[1..], b[1..]);
    }
  }

  lemma {:induction false} LexLeAntisymmetric(a: string, b: string)
    requires LexLe(a, b) && LexLe(b, a)
    ensures a == b
    decreases |a|
  {
    if |a| > 0 {
      LexLeAntisymmetric(a[1..], b[1..]);
      assert a == [a[0]] + a[1..] && b == [b[0]] + b[1..];
    }
  }

  lemma {:induction false} LexLeTransitive(a: string, b: string, c: string)
    requires LexLe(a, b) && LexLe(b, c)
    ensures LexLe(a, c)
    decreases |a|
  {
    if |a| > 0 && a[0] == b[0] && b[0] == c[0] {
      LexLeTransitive(a[1..], b[1..], c[1..]);
    }
  }

  lemma LexLeAntisymmetricAll()
    ensures forall a, b :: LexLe(a, b) && LexLe(b, a) ==> a == b
  {
    forall a, b | LexLe(a, b) && LexLe(b, a)
      ensures a == b
    {
      LexLeAntisymmetric(a, b);
    }
  }

  /** A least element of a non-empty set, found by removing one element at a time. */
  lemma {:induction false} LeastOf(s: set<string>) returns (m: string)
    requires s != {}
    ensures m in s && forall x :: x in s ==> LexLe(m, x)
    decreases |s|
  {
    var y :| y in s;
    if s == {y} {
      LexLeReflexive(y);
      m := y;
    } else {
      var m' := LeastOf(s - {y});
      LexLeTotal(m', y);
      if LexLe(m', y) {
        m := m';
      } else {
        forall x | x in s
          ensures LexLe(y, x)
        {
          if x == y {
            LexLeReflexive(y);
          } else {
            LexLeTransitive(y, m', x);
          }
        }
        m := y;
      }
    }
  }

  lemma LeastExists(s: set<string>)
    requires s != {}
    ensures exists m :: m in s && forall x :: x in s ==> LexLe(m, x)
  {
    var m := LeastOf(s);
  }

  /** `min(s)` for a non-empty set of strings. */
  function Least(s: set<string>): (m: string)
    requires s != {}
    ensures m in s && forall x :: x in s ==> LexLe(m, x)
  {
    LeastExists(s);
    LexLeAntisymmetricAll();
    var m :| m in s && forall x :: x in s ==> LexLe(m, x);
    m
  }

  predicate StrictlySorted(r: seq<string>) {
    forall i, j :: 0 <= i < j < |r| ==> LexLe(r[i], r[j]) && r[i] != r[j]
  }

  /** `sorted(s)` for a set of strings: every member once, in ascending order. */
  function SortedList(s: set<string>): (r: seq<string>)
    ensures |r| == |s|
    ensures forall x :: x in r <==> x in s
    ensures StrictlySorted(r)
    decreases |s|
  {
    if s == {} then []
    else
      var m := Least(s);
      var t := SortedList(s - {m});
      ConsSorted(m, t);
      [m] + t
  }

  lemma ConsSorted(m: string, t: seq<string>)
    requires StrictlySorted(t)
    requires forall x :: x in t ==> LexLe(m, x) && x != m
    ensures StrictlySorted([m] + t)
  {
    var r := [m] + t;
    forall i, j | 0 <= i < j < |r|
      ensures LexLe(r[i], r[j]) && r[i] != r[j]
    {
      if i > 0 {
        assert r[i] == t[i - 1] && r[j] == t[j - 1];
      } else {
        assert r[j] == t[j - 1] && r[j] in t;
      }
    }
  }
}
