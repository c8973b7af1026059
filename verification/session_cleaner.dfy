/** The session cleaner: terminal escape sequences written out as text in a
    session file (`\u001b[...` or `\\033[...`) are counted and deleted by a
    fixed list of regular expressions applied one after another. */
module SessionCleaner {
  import opened Wrappers
  import opened Text

  // ---------------------------------------------------------------------------
  // the patterns

  /** A character class: the listed characters, or everything else. */
  datatype Class = In(chars: set<char>) | NotIn(chars: set<char>)

  predicate Has(k: Class, c: char) {
    match k
    case In(cs) => c in cs
    case NotIn(cs) => c !in cs
  }

  /** What the run of the repeated class must satisfy: a minimum length
      (`*` or `+`), or a minimum number of `;` (the `[\d;]*;[\d;]*...`
      pattern, whose runs are exactly the `[\d;]` texts with that many `;`). */
  datatype RunRule = AtLeast(n: nat) | Semicolons(n: nat)

  /** A pattern of the shape `head run tail`: fixed classes, one repeated
      class, fixed classes. */
  datatype Pattern = Pattern(head: seq<Class>, run: Class, rule: RunRule, tail: seq<Class>)

  function Occurrences(s: string, c: char): nat
    decreases |s|
  {
    if |s| == 0 then 0 else (if s[0] == c then 1 else 0) + Occurrences(s[1..], c)
  }

  predicate RuleHolds(rule: RunRule, run: string) {
    match rule
    case AtLeast(n) => |run| >= n
    case Semicolons(n) => Occurrences(run, ';') >= n
  }

  /** A literal text as a sequence of one-character classes. */
  function Lit(s: string): (r: seq<Class>)
    ensures |r| == |s| && forall i :: 0 <= i < |s| ==> r[i] == In({s[i]})
  {
    seq(|s|, i requires 0 <= i < |s| => In({s[i]}))
  }

  /** `s` is matched class by class. */
  predicate Fits(cs: seq<Class>, s: string) {
    |s| == |cs| && forall i :: 0 <= i < |s| ==> Has(cs[i], s[i])
  }

  /** The text `\u001b` (six characters) and the text `\\033` (five). */
  const Esc := "\\u001b"
  const Oct := "\\\\033"

  /** `\d` (ASCII digits only) and `[\d;]` */
  const Digits := {'0', '1', '2', '3', '4', '5', '6', '7', '8', '9'}
  const DigitsSemi := Digits + {';'}
  const Letters := set c: char | 'a' <= c <= 'z' || 'A' <= c <= 'Z'
  const CursorLetters := {'H', 'J', 'K', 'A', 'B', 'C', 'D', 'E', 'F', 'G', 'P', 'S', 'T'}

  /** The seven patterns of one escape spelling, in the order the cleaner
      applies them: colour, cursor, private mode set/reset, private mode
      query, device status, position report, window title. */
  function Family(esc: string, notInTitle: set<char>, titleEnd: string): seq<Pattern> {
    [ Pattern(Lit(esc + "["), In(DigitsSemi), AtLeast(0), Lit("m")),
      Pattern(Lit(esc + "["), In(DigitsSemi), AtLeast(0), [In(CursorLetters)]),
      Pattern(Lit(esc + "[?"), In(Digits), AtLeast(1), [In({'h', 'l'})]),
      Pattern(Lit(esc + "[?"), In(Digits), AtLeast(1), Lit("$p")),
      Pattern(Lit(esc + "[>"), In(Digits), AtLeast(0), [In(Letters)]),
      Pattern(Lit(esc + "["), In(DigitsSemi), AtLeast(0), [In({'n', 'R'})]),
      Pattern(Lit(esc + "]") + [In({'0', '1', '2'})] + Lit(";"), NotIn(notInTitle), AtLeast(0), Lit(titleEnd)) ]
  }

  /** `<esc>[` then anything but letters, then a letter: what is counted. */
  function CatchAll(esc: string): Pattern {
    Pattern(Lit(esc + "["), NotIn(Letters), AtLeast(0), [In(Letters)])
  }

  /** The extended colour pattern: four or more `;` between `[` and `m`. */
  const ExtendedColour := Pattern(Lit(Esc + "["), In(DigitsSemi), Semicolons(4), Lit("m"))

  /** Every pattern `clean_escape_sequences` applies, in order. The class
      `[^\\u001b]` of the title pattern excludes the characters `\`, `u`,
      `0`, `1` and `b`, and `[^\\\\033]` excludes `\`, `0` and `3`. */
  const CleanPatterns: seq<Pattern> :=
    Family(Esc, {'\\', 'u', '0', '1', 'b'}, Esc + "\\\\")
    + Family(Oct, {'\\', '0', '3'}, Oct + "\\\\\\\\")
    + [ExtendedColour, CatchAll(Esc), CatchAll(Oct)]

  /** Every pattern starts with a fixed class and ends with one that the
      repeated class does not contain, so the greedy run cannot give back a
      character: the only run that can be followed by the tail is the
      longest one. */
  predicate Anchored(p: Pattern) {
    |p.head| > 0 && |p.tail| > 0 && forall c :: Has(p.tail[0], c) ==> !Has(p.run, c)
  }

  lemma CleanPatternsAnchored()
    ensures |CleanPatterns| == 17
    ensures forall k :: 0 <= k < |CleanPatterns| ==> Anchored(CleanPatterns[k])
  {
    var f1 := Family(Esc, {'\\', 'u', '0', '1', 'b'}, Esc + "\\\\");
    var f2 := Family(Oct, {'\\', '0', '3'}, Oct + "\\\\\\\\");
    var rest := [ExtendedColour, CatchAll(Esc), CatchAll(Oct)];
    assert (Esc + "\\\\")[0] == '\\' by { assert Esc[0] == '\\'; }
    assert (Oct + "\\\\\\\\")[0] == '\\' by { assert Oct[0] == '\\'; }
    FamilyAnchored(Esc, {'\\', 'u', '0', '1', 'b'}, Esc + "\\\\");
    FamilyAnchored(Oct, {'\\', '0', '3'}, Oct + "\\\\\\\\");
    CatchAllAnchored(Esc);
    CatchAllAnchored(Oct);
    assert Anchored(ExtendedColour) by {
      assert ExtendedColour.tail[0] == In({'m'});
    }
    ConcatAnchored(f1, f2);
    ConcatAnchored(f1 + f2, rest);
  }

  lemma FamilyAnchored(esc: string, notInTitle: set<char>, titleEnd: string)
    requires |titleEnd| > 0 && titleEnd[0] in notInTitle
    ensures |Family(esc, notInTitle, titleEnd)| == 7
    ensures forall k :: 0 <= k < 7 ==> Anchored(Family(esc, notInTitle, titleEnd)[k])
  {
    var ps := Family(esc, notInTitle, titleEnd);
    assert 'm' !in DigitsSemi && '$' !in Digits;
    assert Letters !! Digits by {
      forall c | c in Letters ensures c !in Digits { }
    }
    TailAnchored(ps[0].head, ps[0].run, ps[0].rule, ps[0].tail);
    TailAnchored(ps[1].head, ps[1].run, ps[1].rule, ps[1].tail);
    TailAnchored(ps[2].head, ps[2].run, ps[2].rule, ps[2].tail);
    TailAnchored(ps[3].head, ps[3].run, ps[3].rule, ps[3].tail);
    TailAnchored(ps[4].head, ps[4].run, ps[4].rule, ps[4].tail);
    TailAnchored(ps[5].head, ps[5].run, ps[5].rule, ps[5].tail);
    TailAnchored(ps[6].head, ps[6].run, ps[6].rule, ps[6].tail);
    forall k | 0 <= k < 7
      ensures Anchored(ps[k])
    {
      assert ps[k] == Pattern(ps[k].head, ps[k].run, ps[k].rule, ps[k].tail);
    }
  }

  /** A pattern is anchored when its first tail class is a set of characters
      that its run excludes. */
  lemma TailAnchored(head: seq<Class>, run: Class, rule: RunRule, tail: seq<Class>)
    requires |head| > 0 && |tail| > 0 && tail[0].In?
    requires run.In? ==> tail[0].chars !! run.chars
    requires run.NotIn? ==> tail[0].chars <= run.chars
    ensures Anchored(Pattern(head, run, rule, tail))
  {
  }

  lemma CatchAllAnchored(esc: string)
    ensures Anchored(CatchAll(esc))
  {
  }

  lemma ConcatAnchored(a: seq<Pattern>, b: seq<Pattern>)
    requires forall k :: 0 <= k < |a| ==> Anchored(a[k])
    requires forall k :: 0 <= k < |b| ==> Anchored(b[k])
    ensures forall k :: 0 <= k < |a + b| ==> Anchored((a + b)[k])
  {
  }

  // ---------------------------------------------------------------------------
  // matching

  /** The length of the match of `p` at the start of `s`, if any. */
  function MatchLen(p: Pattern, s: string): (r: Option<nat>)
    ensures r.Some? ==> |p.head| + |p.tail| <= r.value <= |s|
  {
    var h := |p.head|;
    if |s| < h || !Fits(p.head, s[..h]) then None
    else
      var rest := s[h..];
      var n := Span(rest, c => Has(p.run, c));
      if !RuleHolds(p.rule, rest[..n]) then None
      else if |rest| - n < |p.tail| || !Fits(p.tail, rest[n..n + |p.tail|]) then None
      else Some(h + n + |p.tail|)
  }

  /** What the regular expression accepts at the start of `s` with length
      `len`, by any split into head, run and tail. */
  predicate Accepts(p: Pattern, s: string, len: nat) {
    exists k: nat :: k <= len && Split(p, s, len, k)
  }

  predicate Split(p: Pattern, s: string, len: nat, k: nat) {
    var h := |p.head|;
    && len == h + k + |p.tail| && len <= |s|
    && Fits(p.head, s[..h])
    && (forall i :: h <= i < h + k ==> Has(p.run, s[i]))
    && RuleHolds(p.rule, s[h..h + k])
    && Fits(p.tail, s[h + k..len])
  }

  /** For an anchored pattern, the longest-run match is the only match: it
      is the match the backtracking engine finds. */
  lemma MatchLenAccepts(p: Pattern, s: string, len: nat)
    requires Anchored(p)
    ensures MatchLen(p, s) == Some(len) <==> Accepts(p, s, len)
  {
    if MatchLen(p, s) == Some(len) {
      MatchLenSplits(p, s, len);
    }
    if Accepts(p, s, len) {
      var k: nat :| k <= len && Split(p, s, len, k);
      SplitIsLongest(p, s, len, k);
    }
  }

  lemma MatchLenSplits(p: Pattern, s: string, len: nat)
    requires MatchLen(p, s) == Some(len)
    ensures Split(p, s, len, Span(s[|p.head|..], c => Has(p.run, c)))
  {
    var h := |p.head|;
    var rest := s[h..];
    var n := Span(rest, c => Has(p.run, c));
    assert forall i :: h <= i < h + n ==> s[i] == rest[i - h];
    assert rest[..n] == s[h..h + n];
    assert rest[n..n + |p.tail|] == s[h + n..len];
  }

  lemma SplitIsLongest(p: Pattern, s: string, len: nat, k: nat)
    requires Anchored(p) && Split(p, s, len, k)
    ensures MatchLen(p, s) == Some(len)
  {
    var h := |p.head|;
    var rest := s[h..];
    var n := Span(rest, c => Has(p.run, c));
    assert forall i :: 0 <= i < k ==> rest[i] == s[h + i];
    SpanMaximal(rest, c => Has(p.run, c), k);
    assert Has(p.tail[0], s[h + k]) by {
      assert s[h + k] == s[h + k..len][0];
    }
    if n > k {
      assert false;
    }
    assert n == k;
    assert rest[..k] == s[h..h + k];
    assert rest[k..k + |p.tail|] == s[h + k..len];
    assert RuleHolds(p.rule, rest[..n]) && Fits(p.tail, rest[n..n + |p.tail|]);
  }

  /** The match of `p` at position `i` of `s`. */
  function MatchAt(p: Pattern, s: string, i: nat): Option<nat>
    requires i <= |s|
  {
    MatchLen(p, s[i..])
  }

  /** `p` matches at no position of `s`, scanning from the left. */
  predicate NoMatch(p: Pattern, s: string)
    decreases |s|
  {
    |s| == 0 || (MatchLen(p, s).None? && NoMatch(p, s[1..]))
  }

  /** `NoMatch` holds exactly when no position of `s` starts a match. */
  lemma {:induction false} NoMatchAt(p: Pattern, s: string)
    ensures NoMatch(p, s) <==> forall i: nat :: i < |s| ==> MatchAt(p, s, i).None?
    decreases |s|
  {
    if |s| > 0 {
      NoMatchAt(p, s[1..]);
      assert MatchAt(p, s, 0) == MatchLen(p, s) by {
        assert s[0..] == s;
      }
      forall i: nat | 0 < i <= |s|
        ensures MatchAt(p, s, i) == MatchAt(p, s[1..], i - 1)
      {
        assert s[1..][i - 1..] == s[i..];
      }
      if forall i: nat :: i < |s| ==> MatchAt(p, s, i).None? {
        forall j: nat | j < |s| - 1
          ensures MatchAt(p, s[1..], j).None?
        {
          assert MatchAt(p, s, j + 1).None?;
        }
      }
    }
  }

  /** A text is its first character followed by `rest` exactly when `rest`
      is the remainder. */
  lemma ConsSame(s: string, rest: string)
    requires |s| > 0
    ensures [s[0]] + rest == s <==> rest == s[1..]
  {
    assert s == [s[0]] + s[1..];
    assert ([s[0]] + rest)[1..] == rest;
  }

  /** `len(re.findall(p, s))`: matches taken left to right without overlap.
      There are none exactly when `p` matches at no position. */
  function Count(p: Pattern, s: string): (r: nat)
    requires |p.head| > 0
    ensures r == 0 <==> NoMatch(p, s)
    decreases |s|
  {
    if |s| == 0 then 0
    else
      match MatchLen(p, s)
      case Some(n) => 1 + Count(p, s[n..])
      case None => Count(p, s[1..])
  }

  /** `re.sub(p, "", s)`: the same matches, deleted. The text never grows,
      and it is unchanged exactly when `p` matches at no position. */
  function Delete(p: Pattern, s: string): (r: string)
    requires |p.head| > 0
    ensures |r| <= |s|
    ensures r == s <==> NoMatch(p, s)
    decreases |s|
  {
    if |s| == 0 then ""
    else
      match MatchLen(p, s)
      case Some(n) => Delete(p, s[n..])
      case None =>
        ConsSame(s, Delete(p, s[1..]));
        [s[0]] + Delete(p, s[1..])
  }

  // ---------------------------------------------------------------------------
  // deletion only removes characters

  /** `a` is `b` with some characters left out. */
  predicate Subsequence(a: string, b: string)
    decreases |b|
  {
    |a| == 0 || (|b| > 0 && ((a[0] == b[0] && Subsequence(a[1..], b[1..])) || Subsequence(a, b[1..])))
  }

  lemma {:induction false} SubsequenceLength(a: string, b: string)
    requires Subsequence(a, b)
    ensures |a| <= |b|
    ensures |a| == |b| ==> a == b
    decreases |b|
  {
    if |a| > 0 {
      if a[0] == b[0] && Subsequence(a[1..], b[1..]) {
        SubsequenceLength(a[1..], b[1..]);
        if |a| == |b| {
          assert a == [a[0]] + a[1..] && b == [b[0]] + b[1..];
        }
      } else {
        SubsequenceLength(a, b[1..]);
      }
    }
  }

  lemma {:induction false} SubsequenceOfSuffix(a: string, b: string, k: nat)
    requires k <= |b| && Subsequence(a, b[k..])
    ensures Subsequence(a, b)
    decreases k
  {
    if k > 0 {
      assert b[1..][k - 1..] == b[k..];
      SubsequenceOfSuffix(a, b[1..], k - 1);
    }
  }

  lemma {:induction false} SubsequenceReflexive(a: string)
    ensures Subsequence(a, a)
    decreases |a|
  {
    if |a| > 0 {
      SubsequenceReflexive(a[1..]);
    }
  }

  lemma {:induction false} SubsequenceTransitive(a: string, b: string, c: string)
    requires Subsequence(a, b) && Subsequence(b, c)
    ensures Subsequence(a, c)
    decreases |c|
  {
    if |a| > 0 {
      if b[0] == c[0] && Subsequence(b[1..], c[1..]) {
        if a[0] == b[0] && Subsequence(a[1..], b[1..]) {
          SubsequenceTransitive(a[1..], b[1..], c[1..]);
        } else {
          SubsequenceTransitive(a, b[1..], c[1..]);
        }
      } else {
        SubsequenceTransitive(a, b, c[1..]);
      }
    }
  }

  /** Deleting the matches leaves a subsequence. */
  lemma {:induction false} DeleteSubsequence(p: Pattern, s: string)
    requires |p.head| > 0
    ensures Subsequence(Delete(p, s), s)
    decreases |s|
  {
    if |s| > 0 {
      match MatchLen(p, s)
      case Some(n) =>
        DeleteSubsequence(p, s[n..]);
        SubsequenceOfSuffix(Delete(p, s), s, n);
      case None =>
        DeleteSubsequence(p, s[1..]);
        assert ([s[0]] + Delete(p, s[1..]))[1..] == Delete(p, s[1..]);
    }
  }

  /** Each match deleted takes at least the pattern's fixed parts with it. */
  lemma {:induction false} DeleteLength(p: Pattern, s: string)
    requires |p.head| > 0
    ensures |Delete(p, s)| + Count(p, s) * (|p.head| + |p.tail|) <= |s|
    decreases |s|
  {
    if |s| > 0 {
      match MatchLen(p, s)
      case Some(n) =>
        var t := s[n..];
        DeleteLength(p, t);
        MulSucc(Count(p, t), Count(p, s), |p.head| + |p.tail|);
        assert Delete(p, s) == Delete(p, t);
      case None =>
        DeleteLength(p, s[1..]);
        assert Count(p, s) == Count(p, s[1..]);
        assert |Delete(p, s)| == 1 + |Delete(p, s[1..])|;
    }
  }

  /** One more match adds one more width. */
  lemma MulSucc(c: nat, c': nat, w: nat)
    requires c' == c + 1
    ensures c' * w == c * w + w
  {
  }

  lemma DeleteShape(p: Pattern, s: string)
    requires |p.head| > 0
    ensures Subsequence(Delete(p, s), s)
    ensures |Delete(p, s)| + Count(p, s) * (|p.head| + |p.tail|) <= |s|
  {
    DeleteSubsequence(p, s);
    DeleteLength(p, s);
  }

  // ---------------------------------------------------------------------------
  // counting and cleaning

  /** `count_escape_sequences`: the catch-all matches of both spellings, none
      exactly when neither catch-all matches anywhere. */
  function EscapeCount(s: string): (r: nat)
    ensures r == 0 <==> NoMatch(CatchAll(Esc), s) && NoMatch(CatchAll(Oct), s)
  {
    Count(CatchAll(Esc), s) + Count(CatchAll(Oct), s)
  }

  /** A pattern that starts with a backslash never matches text without one. */
  lemma {:induction false} CountWithoutBackslash(p: Pattern, s: string)
    requires |p.head| > 0 && p.head[0] == In({'\\'}) && Lacks(s, '\\')
    ensures Count(p, s) == 0
    decreases |s|
  {
    if |s| > 0 {
      assert MatchLen(p, s) == None by {
        if |s| >= |p.head| {
          assert s[..|p.head|][0] == s[0];
        }
      }
      CountWithoutBackslash(p, s[1..]);
    }
  }

  /** Text without a backslash has no escape sequence to count. */
  lemma NoBackslashNoCount(s: string)
    requires Lacks(s, '\\')
    ensures EscapeCount(s) == 0
  {
    assert Esc[0] == '\\' && Oct[0] == '\\';
    CountWithoutBackslash(CatchAll(Esc), s);
    CountWithoutBackslash(CatchAll(Oct), s);
  }

  /** The passes applied one after another. */
  function Passes(ps: seq<Pattern>, s: string): string
    requires forall k :: 0 <= k < |ps| ==> |ps[k].head| > 0
    decreases |ps|
  {
    if |ps| == 0 then s else Passes(ps[1..], Delete(ps[0], s))
  }

  lemma {:induction false} PassesSubsequence(ps: seq<Pattern>, s: string)
    requires forall k :: 0 <= k < |ps| ==> |ps[k].head| > 0
    ensures Subsequence(Passes(ps, s), s)
    decreases |ps|
  {
    if |ps| == 0 {
      SubsequenceReflexive(s);
    } else {
      DeleteShape(ps[0], s);
      PassesSubsequence(ps[1..], Delete(ps[0], s));
      SubsequenceTransitive(Passes(ps, s), Delete(ps[0], s), s);
    }
  }

  lemma {:induction false} PassesSplit(ps: seq<Pattern>, qs: seq<Pattern>, s: string)
    requires forall k :: 0 <= k < |ps| ==> |ps[k].head| > 0
    requires forall k :: 0 <= k < |qs| ==> |qs[k].head| > 0
    ensures forall k :: 0 <= k < |ps + qs| ==> |(ps + qs)[k].head| > 0
    ensures Passes(ps + qs, s) == Passes(qs, Passes(ps, s))
    decreases |ps|
  {
    if |ps| == 0 {
      assert ps + qs == qs;
    } else {
      assert (ps + qs)[1..] == ps[1..] + qs;
      PassesSplit(ps[1..], qs, Delete(ps[0], s));
    }
  }

  /** `clean_escape_sequences` only deletes: the result is a subsequence of
      the text, and text with a counted escape sequence gets strictly shorter. */
  function Clean(s: string): (r: string)
    ensures Subsequence(r, s) && |r| <= |s|
    ensures EscapeCount(s) > 0 ==> |r| < |s|
  {
    CleanPatternsAnchored();
    PassesDeletes(s);
    PassesShrink(s);
    Passes(CleanPatterns, s)
  }

  lemma PassesDeletes(s: string)
    requires forall k :: 0 <= k < |CleanPatterns| ==> |CleanPatterns[k].head| > 0
    ensures Subsequence(Passes(CleanPatterns, s), s) && |Passes(CleanPatterns, s)| <= |s|
  {
    PassesSubsequence(CleanPatterns, s);
    SubsequenceLength(Passes(CleanPatterns, s), s);
  }

  /** If the earlier passes delete nothing, the last two delete what was
      counted. */
  lemma PassesShrink(s: string)
    requires forall k :: 0 <= k < |CleanPatterns| ==> |CleanPatterns[k].head| > 0
    ensures EscapeCount(s) > 0 ==> |Passes(CleanPatterns, s)| < |s|
  {
    CleanPatternsAnchored();
    var ps := CleanPatterns;
    var early := ps[..15];
    var late := [CatchAll(Esc), CatchAll(Oct)];
    assert ps == early + late;
    PassesSplit(early, late, s);
    var x := Passes(early, s);
    PassesSubsequence(early, s);
    SubsequenceLength(x, s);
    var y := Delete(CatchAll(Esc), x);
    var z := Delete(CatchAll(Oct), y);
    assert Passes(late, x) == z by {
      assert late[0] == CatchAll(Esc) && late[1..][0] == CatchAll(Oct);
      assert late[1..][1..] == [];
      assert Passes(late[1..], y) == Passes(late[1..][1..], z);
    }
    DeleteShape(CatchAll(Esc), x);
    DeleteShape(CatchAll(Oct), y);
    SubsequenceLength(y, x);
    SubsequenceLength(z, y);
    if EscapeCount(s) > 0 && x == s {
      if Count(CatchAll(Esc), x) > 0 {
        assert y != x;
      } else {
        assert y == x;
        assert z != y;
      }
    }
  }

  // ---------------------------------------------------------------------------
  // file names

  /** The index of the last `.` of `name`, if any. */
  function LastDot(name: string): (r: Option<nat>)
    ensures r.Some? ==> r.value < |name| && name[r.value] == '.' && Lacks(name[r.value + 1..], '.')
    ensures r.None? ==> Lacks(name, '.')
    decreases |name|
  {
    if |name| == 0 then None
    else if name[|name| - 1] == '.' then Some(|name| - 1)
    else
      var r := LastDot(name[..|name| - 1]);
      assert forall k :: 0 <= k < |name| - 1 ==> name[..|name| - 1][k] == name[k];
      if r.Some? then
        assert name[r.value + 1..] == name[..|name| - 1][r.value + 1..] + [name[|name| - 1]];
        r
      else r
  }

  /** `PurePath.suffix`: from the last dot, unless that dot starts the name
      or ends it. */
  function Suffix(name: string): string {
    match LastDot(name)
    case Some(i) => if 0 < i < |name| - 1 then name[i..] else ""
    case None => ""
  }

  /** `PurePath.stem`: the name without its suffix. */
  function Stem(name: string): string {
    name[..|name| - |Suffix(name)|]
  }

  /** `path.with_suffix(f"{path.suffix}.backup")`: the stem, the old suffix
      and `.backup`. */
  function BackupName(name: string): (r: string)
    ensures r == name + ".backup"
  {
    assert Stem(name) + Suffix(name) == name;
    Stem(name) + Suffix(name) + ".backup"
  }

  predicate EndsWith(s: string, t: string) {
    |t| <= |s| && s[|s| - |t|..] == t
  }

  /** A name has the suffix `.jsonl` exactly when it ends with `.jsonl`
      after at least one other character. */
  lemma JsonlSuffix(name: string)
    ensures Suffix(name) == ".jsonl" <==> EndsWith(name, ".jsonl") && |name| > 6
  {
    var n := |name|;
    if EndsWith(name, ".jsonl") && n > 6 {
      var tail := name[n - 6..];
      assert tail == ".jsonl";
      assert name[n - 6] == '.';
      assert Lacks(name[n - 5..], '.') by {
        assert name[n - 5..] == tail[1..];
      }
      var r := LastDot(name);
      assert r.Some?;
    }
  }

  /** `find_session_files` on a regular file: the file itself when its
      suffix is `.jsonl`, otherwise nothing. */
  function SessionFilesOfFile(name: string): (r: seq<string>)
    ensures r == [name] <==> EndsWith(name, ".jsonl") && |name| > 6
    ensures r != [name] ==> r == []
  {
    JsonlSuffix(name);
    if Suffix(name) == ".jsonl" then [name] else []
  }

  // ---------------------------------------------------------------------------
  // cleaning one file

  /** What `clean_file` reports and does: the two counts, the backup written
      (its name and content), and the new content of the file. */
  datatype CleanOutcome = CleanOutcome(
    before: nat,
    after: nat,
    backupFile: Option<(string, string)>,
    rewritten: Option<string>)

  const NothingDone := CleanOutcome(0, 0, None, None)

  /** `clean_file`. The file system is a parameter: `read` is the content or
      `None` when reading raises, and `backupOk` and `writeOk` say whether
      writing the backup and the cleaned file succeed. Any exception gives
      `(0, 0)`; a failed write of the cleaned file leaves the backup behind. */
  function CleanFile(name: string, read: Option<string>, backup: bool, backupOk: bool, writeOk: bool): (r: CleanOutcome)
    ensures read.None? || (backup && !backupOk) ==> r == NothingDone
    ensures read.Some? && EscapeCount(read.value) == 0 ==> r == NothingDone
    ensures r.rewritten.None? <==> r.before == 0
    ensures r.rewritten.Some? ==>
      && read.Some? && r.before == EscapeCount(read.value) && writeOk
      && r.rewritten.value == Clean(read.value)
      && r.after == EscapeCount(r.rewritten.value)
      && Subsequence(r.rewritten.value, read.value) && |r.rewritten.value| < |read.value|
    ensures r.backupFile.Some? <==> backup && r != NothingDone
    ensures r.backupFile.Some? ==> read.Some? && r.backupFile.value == (name + ".backup", read.value)
  {
    match read
    case None => NothingDone
    case Some(content) =>
      var before := EscapeCount(content);
      if before == 0 then NothingDone
      else if backup && !backupOk then NothingDone
      else
        var saved := if backup then Some((BackupName(name), content)) else None;
        var cleaned := Clean(content);
        if !writeOk then CleanOutcome(0, 0, saved, None)
        else CleanOutcome(before, EscapeCount(cleaned), saved, Some(cleaned))
  }

  /** With every step succeeding, a file with escape sequences is rewritten,
      and a file without is not. */
  lemma CleanFileRewrites(name: string, content: string, backup: bool)
    ensures var r := CleanFile(name, Some(content), backup, true, true);
      (r.rewritten.Some? <==> EscapeCount(content) > 0)
      && (r.rewritten.Some? ==> r.before == EscapeCount(content) && (r.backupFile.Some? <==> backup))
  {
  }
}
