/** Writing the selection back to `extensions.json`: the selected extensions
    grouped under a comment per category, then the commented extensions that
    were not selected, as `save_extensions` lays them out. */
module ExtGenerate {
  import opened Wrappers
  import opened Text
  import opened ExtSelector

  // ---------------------------------------------------------------------------
  // `str.title()` on ASCII text

  predicate IsUpper(c: char) {
    'A' <= c <= 'Z'
  }

  function ToUpper(c: char): (r: char)
    ensures IsAsciiLetter(c) ==> IsUpper(r) && ToLower(r) == ToLower(c)
    ensures !IsAsciiLetter(c) ==> r == c
  {
    if 'a' <= c <= 'z' then (c as int - 32) as char else c
  }

  function ToLower(c: char): (r: char)
    ensures IsAsciiLetter(c) ==> 'a' <= r <= 'z'
    ensures !IsAsciiLetter(c) ==> r == c
  {
    if 'A' <= c <= 'Z' then (c as int + 32) as char else c
  }

  /** `str.title()` continued after a letter (`afterLetter`) or after anything else. */
  function TitleFrom(s: string, afterLetter: bool): (r: string)
    ensures |r| == |s|
    decreases |s|
  {
    if |s| == 0 then ""
    else
      var c := s[0];
      [if !IsAsciiLetter(c) then c else if afterLetter then ToLower(c) else ToUpper(c)]
      + TitleFrom(s[1..], IsAsciiLetter(c))
  }

  /** `s.title()` changes only the case of letters: a word's first letter is
      upper case and its other letters lower case. */
  function Title(s: string): (r: string)
    ensures |r| == |s|
    ensures forall k :: 0 <= k < |s| && !IsAsciiLetter(s[k]) ==> r[k] == s[k]
    ensures forall k :: 0 <= k < |s| && IsAsciiLetter(s[k]) ==>
      && IsAsciiLetter(r[k]) && ToLower(r[k]) == ToLower(s[k])
      && (IsUpper(r[k]) <==> StartsWord(s, k))
  {
    TitleFromShape(s, false);
    TitleFrom(s, false)
  }

  /** A letter starts a word when nothing, or a non-letter, precedes it. */
  predicate StartsWord(s: string, k: nat)
    requires k < |s|
  {
    k == 0 || !IsAsciiLetter(s[k - 1])
  }

  lemma {:induction false} TitleFromShape(s: string, afterLetter: bool)
    ensures var r := TitleFrom(s, afterLetter);
      forall k :: 0 <= k < |s| ==>
        && (!IsAsciiLetter(s[k]) ==> r[k] == s[k])
        && (IsAsciiLetter(s[k]) ==> IsAsciiLetter(r[k]) && ToLower(r[k]) == ToLower(s[k]))
        && (IsAsciiLetter(s[k]) ==> (IsUpper(r[k]) <==> if k == 0 then !afterLetter else !IsAsciiLetter(s[k - 1])))
    decreases |s|
  {
    if |s| > 0 {
      var rest := TitleFrom(s[1..], IsAsciiLetter(s[0]));
      TitleFromShape(s[1..], IsAsciiLetter(s[0]));
      var r := TitleFrom(s, afterLetter);
      forall k | 0 <= k < |s|
        ensures !IsAsciiLetter(s[k]) ==> r[k] == s[k]
        ensures IsAsciiLetter(s[k]) ==> IsAsciiLetter(r[k]) && ToLower(r[k]) == ToLower(s[k])
        ensures IsAsciiLetter(s[k]) ==> (IsUpper(r[k]) <==> if k == 0 then !afterLetter else !IsAsciiLetter(s[k - 1]))
      {
        if k > 0 {
          assert r[k] == rest[k - 1] && s[k] == s[1..][k - 1];
          assert k - 1 == 0 ==> s[k - 1] == s[0];
          assert k - 1 > 0 ==> s[1..][k - 2] == s[k - 1];
        }
      }
    }
  }

  /** Title-casing twice is title-casing once. */
  lemma TitleIdempotent(s: string)
    ensures Title(Title(s)) == Title(s)
  {
    var t := Title(s);
    forall k | 0 <= k < |s|
      ensures Title(t)[k] == t[k]
    {
      if IsAsciiLetter(s[k]) {
        assert StartsWord(t, k) <==> StartsWord(s, k);
        CaseDetermines(Title(t)[k], t[k]);
      }
    }
  }

  /** Two letters with the same lower-case form and the same case are equal. */
  lemma CaseDetermines(a: char, b: char)
    requires IsAsciiLetter(a) && IsAsciiLetter(b) && ToLower(a) == ToLower(b)
    requires IsUpper(a) <==> IsUpper(b)
    ensures a == b
  {
  }

  /** Title-casing never introduces a character that is not a letter. */
  lemma TitleLacks(s: string, c: char)
    requires !IsAsciiLetter(c) && Lacks(s, c)
    ensures Lacks(Title(s), c)
  {
  }

  // ---------------------------------------------------------------------------
  // the generated lines

  /** A line of the output: free text, or a quoted extension id with what
      follows it, optionally behind `// `. */
  datatype OutLine =
    | Plain(text: string)
    | Entry(indent: string, commented: bool, id: string, tail: string)

  function Render(l: OutLine): string {
    match l
    case Plain(t) => t
    case Entry(indent, commented, id, tail) =>
      indent + (if commented then "// " else "") + "\"" + id + "\"" + tail
  }

  const Indent := "        "

  /** A description worth writing after the id. */
  predicate Described(e: Extension) {
    e.description != "" && e.description != NotInDatabase
  }

  /** The lines of one category: a comma after every id but the last, and the
      description as a trailing comment when there is one. */
  function EntryLines(es: seq<Extension>): (r: seq<OutLine>)
    ensures |r| == |es|
    ensures forall i :: 0 <= i < |es| ==>
      && r[i].Entry? && r[i].indent == Indent && !r[i].commented && r[i].id == es[i].id
      && (StartsWith(r[i].tail, ",") <==> i < |es| - 1)
  {
    seq(|es|, i requires 0 <= i < |es| => Entry(Indent, false, es[i].id, EntryTail(es[i], i < |es| - 1)))
  }

  /** What follows an id: a comma when another id follows, then the description. */
  function EntryTail(e: Extension, more: bool): (t: string)
    ensures StartsWith(t, ",") <==> more
  {
    var note := if Described(e) then " // " + e.description else "";
    assert |note| > 0 ==> note[0] == ' ';
    if more then "," + note else note
  }

  /** Where the comma between two categories goes: at the end of the previous
      line, as `lines[-1] += ","` puts it, or right after the previous id. */
  datatype Separator = AtLineEnd | AfterId

  /** Adds the separating comma to the last line. */
  function AppendComma(ls: seq<OutLine>, sep: Separator): (r: seq<OutLine>)
    ensures |r| == |ls|
    ensures |ls| > 0 ==> r[..|ls| - 1] == ls[..|ls| - 1]
  {
    if |ls| == 0 then ls
    else
      var last := ls[|ls| - 1];
      ls[..|ls| - 1] + [
        match last
        case Plain(t) => Plain(t + ",")
        case Entry(indent, commented, id, tail) =>
          Entry(indent, commented, id, if sep == AtLineEnd then tail + "," else "," + tail)]
  }

  /** As written, the comma lands at the very end of the rendered line. */
  lemma AppendCommaAtLineEnd(ls: seq<OutLine>)
    requires |ls| > 0
    ensures var r := AppendComma(ls, AtLineEnd);
      |r| == |ls| && r[..|ls| - 1] == ls[..|ls| - 1] && Render(r[|ls| - 1]) == Render(ls[|ls| - 1]) + ","
  {
  }

  /** The category blocks, each opened by a blank line and a title comment,
      with a comma appended before every block but the first. */
  function Blocks(acc: seq<OutLine>, cats: seq<string>, groups: map<string, seq<Extension>>,
                  first: bool, sep: Separator): seq<OutLine>
    requires forall k :: 0 <= k < |cats| ==> cats[k] in groups
    decreases |cats|
  {
    if |cats| == 0 then acc
    else
      var acc' := if first then acc else AppendComma(acc, sep);
      Blocks(acc' + Block(cats[0], groups[cats[0]]), cats[1..], groups, false, sep)
  }

  /** One category: a blank line, the title-cased name as a comment, the entries. */
  function Block(cat: string, es: seq<Extension>): seq<OutLine> {
    [Plain(""), Plain(Indent + "// " + Title(cat))] + EntryLines(es)
  }

  /** `save_extensions` indexes `extensions_by_id[ext_id]`, which raises
      `KeyError` for an unknown id. */
  datatype SaveError = KeyError(id: string)

  /** The extensions of `ids`, or the first id with none. */
  function Lookup(ids: seq<string>, byId: map<string, Extension>): (r: Result<seq<Extension>, SaveError>)
    ensures r.Success? <==> forall k :: 0 <= k < |ids| ==> ids[k] in byId
    ensures r.Success? ==> |r.value| == |ids| && forall k :: 0 <= k < |ids| ==> r.value[k] == byId[ids[k]]
    ensures r.Failure? ==> exists k :: (0 <= k < |ids| && ids[k] == r.error.id && ids[k] !in byId
      && forall j :: 0 <= j < k ==> ids[j] in byId)
    decreases |ids|
  {
    if |ids| == 0 then Success([])
    else if ids[0] !in byId then Failure(KeyError(ids[0]))
    else
      match Lookup(ids[1..], byId)
      case Failure(e) =>
        assert forall j :: 1 <= j < |ids| ==> ids[j] == ids[1..][j - 1];
        Failure(e)
      case Success(rest) => Success([byId[ids[0]]] + rest)
  }

  // Each of the two lines below is one string literal in the script; the
  // pieces concatenate to exactly that text and let the proofs that they hold
  // no quote or line break check them piece by piece.
  const OptionalBanner := Indent + "// ============= " + "OPTIONAL/DISABLED " + "EXTENSIONS ============="
  const OptionalHint := Indent + "// Uncomment any of " + "these if you need them " + "for specific projects"

  /** The optional section: nothing when no id is left over, otherwise a
      banner and one commented line per id, with its description when the
      id is known and described. */
  function OptionalLines(ids: seq<string>, byId: map<string, Extension>): seq<OutLine> {
    if |ids| == 0 then [] else OptionalHead + OptionalEntries(ids, byId)
  }

  const OptionalHead := [Plain(""), Plain(""), Plain(OptionalBanner), Plain(OptionalHint)]

  /** One commented line per id, in order. */
  function OptionalEntries(ids: seq<string>, byId: map<string, Extension>): seq<OutLine> {
    seq(|ids|, k requires 0 <= k < |ids| =>
      Entry(Indent, true, ids[k],
        if ids[k] in byId && Described(byId[ids[k]]) then ", // " + byId[ids[k]].description else ""))
  }

  const Header := [Plain("{"), Entry("    ", false, "recommendations", ": [")]
  const Footer := [Plain("    ]"), Plain("}")]

  /** The lines `save_extensions` writes for a selection, given the commented
      ids it found in the file. */
  function GenerateLines(selected: set<string>, byId: map<string, Extension>, commented: set<string>,
                         sep: Separator): (r: Result<seq<OutLine>, SaveError>)
    ensures r.Failure? <==> !(selected <= byId.Keys)
    ensures r.Failure? ==> UnknownLeast(selected, byId, r.error.id)
  {
    SortedLookup(selected, byId);
    match Lookup(SortedList(selected), byId)
    case Failure(e) => Failure(e)
    case Success(exts) =>
      Success(Body(exts, sep) + OptionalLines(SortedList(commented - selected), byId) + Footer)
  }

  /** The key line and the category blocks, categories in sorted order. */
  function Body(exts: seq<Extension>, sep: Separator): seq<OutLine> {
    var groups := Group(exts);
    Blocks(Header, SortedList(groups.Keys), groups, true, sep)
  }

  function Rendered(ls: seq<OutLine>): (r: seq<string>)
    ensures |r| == |ls| && forall i :: 0 <= i < |ls| ==> r[i] == Render(ls[i])
  {
    seq(|ls|, i requires 0 <= i < |ls| => Render(ls[i]))
  }

  /** `"\n".join(lines) + "\n"` */
  function RenderText(ls: seq<OutLine>): string {
    Join(Rendered(ls), "\n") + "\n"
  }

  /** What saving leaves behind: the old content moved to the backup file, if
      there was one, and the new content, unless generation failed after the
      backup was taken. */
  datatype SaveOutcome = SaveOutcome(backup: Option<string>, written: Result<string, SaveError>)

  function Written(r: Result<seq<OutLine>, SaveError>): Result<string, SaveError> {
    match r
    case Failure(e) => Failure(e)
    case Success(ls) => Success(RenderText(ls))
  }

  /** `save_extensions` as written: the file is renamed to the backup before
      it is parsed again for commented ids, so that parse sees no file, and
      the comma between categories goes at the end of the previous line. */
  function SaveExtensionsAsWritten(existing: Option<string>, st: SelectorState): (r: SaveOutcome)
    ensures r.backup == existing
    ensures r.written.Failure? <==> !(st.selected <= st.byId.Keys)
    ensures r.written.Failure? ==> UnknownLeast(st.selected, st.byId, r.written.error.id)
  {
    var commented := ParseExtensionsJson(None).1;
    SaveOutcome(existing, Written(GenerateLines(st.selected, st.byId, commented, AtLineEnd)))
  }

  /** `save_extensions` as intended: the commented ids are read from the file
      before it is moved away, and the comma between categories follows the id. */
  function SaveExtensions(existing: Option<string>, st: SelectorState): (r: SaveOutcome)
    ensures r.backup == existing
    ensures r.written.Failure? <==> !(st.selected <= st.byId.Keys)
    ensures r.written.Failure? ==> UnknownLeast(st.selected, st.byId, r.written.error.id)
  {
    var commented := ParseExtensionsJson(existing).1;
    SaveOutcome(existing, Written(GenerateLines(st.selected, st.byId, commented, AfterId)))
  }

  // ---------------------------------------------------------------------------
  // reading the written text back

  /** Free of the characters that end a line. */
  predicate NoBreaks(t: string) {
    Lacks(t, '\n') && Lacks(t, '\r')
  }

  /** Safe between quotes on one line. */
  predicate Quotable(t: string) {
    NoBreaks(t) && Lacks(t, '"')
  }

  /** A line that renders to one line, with a quote only around an entry's id. */
  predicate Clean(l: OutLine) {
    match l
    case Plain(t) => Quotable(t)
    case Entry(indent, _, id, tail) => AllSpace(indent) && NoBreaks(indent) && Quotable(id) && NoBreaks(tail)
  }

  predicate WellFormed(ls: seq<OutLine>) {
    forall i :: 0 <= i < |ls| ==> Clean(ls[i])
  }

  /** The ids of the entries, commented or not. */
  function EntryIds(ls: seq<OutLine>, commented: bool): set<string> {
    set i | 0 <= i < |ls| && ls[i].Entry? && ls[i].commented == commented :: ls[i].id
  }

  lemma LacksConcat(a: string, b: string, c: char)
    ensures Lacks(a + b, c) <==> Lacks(a, c) && Lacks(b, c)
  {
    if Lacks(a, c) && Lacks(b, c) {
      forall k | 0 <= k < |a + b|
        ensures (a + b)[k] != c
      {
        if k >= |a| {
          assert (a + b)[k] == b[k - |a|];
        }
      }
    }
    if Lacks(a + b, c) {
      assert forall k :: 0 <= k < |a| ==> a[k] == (a + b)[k];
      assert forall k :: 0 <= k < |b| ==> b[k] == (a + b)[|a| + k];
    }
  }

  lemma RenderNoBreaks(l: OutLine)
    requires Clean(l)
    ensures NoBreaks(Render(l))
  {
    if l.Entry? {
      var mark := if l.commented then "// " else "";
      var q := "\"";
      LacksConcat(l.indent, mark, '\n');
      LacksConcat(l.indent + mark, q, '\n');
      LacksConcat(l.indent + mark + q, l.id, '\n');
      LacksConcat(l.indent + mark + q + l.id, q, '\n');
      LacksConcat(l.indent + mark + q + l.id + q, l.tail, '\n');
      LacksConcat(l.indent, mark, '\r');
      LacksConcat(l.indent + mark, q, '\r');
      LacksConcat(l.indent + mark + q, l.id, '\r');
      LacksConcat(l.indent + mark + q + l.id, q, '\r');
      LacksConcat(l.indent + mark + q + l.id + q, l.tail, '\r');
    }
  }

  /** The text splits back into the rendered lines and the empty piece after
      the final newline. */
  lemma LinesOfText(ls: seq<OutLine>)
    requires WellFormed(ls) && |ls| > 0
    ensures Lines(RenderText(ls)) == Rendered(ls) + [""]
  {
    var parts := Rendered(ls) + [""];
    JoinAppend(Rendered(ls), "", "\n");
    assert RenderText(ls) == Join(parts, ['\n']);
    forall i, k | 0 <= i < |parts| && 0 <= k < |parts[i]|
      ensures parts[i][k] !in {'\n', '\r'}
    {
      RenderNoBreaks(ls[i]);
    }
    SplitJoin(parts, '\n', {'\n', '\r'});
  }

  /** An entry line parses to its id and flag; any other clean line to nothing. */
  lemma LineParse(l: OutLine)
    requires Clean(l)
    ensures ParseLine(Render(l)) == if l.Entry? then Some((l.id, l.commented)) else None
  {
    if l.Entry? {
      ParseEntryLine(l.indent, l.commented, l.id, l.tail);
    }
  }

  /** Parsing the written text finds exactly the entries' ids, split by
      whether they are commented. */
  lemma ParseText(ls: seq<OutLine>)
    requires WellFormed(ls) && |ls| > 0
    ensures ParseExtensionsJson(Some(RenderText(ls))) == (EntryIds(ls, false), EntryIds(ls, true))
  {
    LinesOfText(ls);
    var xs := Rendered(ls) + [""];
    var ps := Parsed(ls);
    LinesParse(ls);
    ParseLinesCollect(xs, ps);
    CollectEntries(ls, ps, false);
    CollectEntries(ls, ps, true);
  }

  /** What each line of the written text parses to. */
  function Parsed(ls: seq<OutLine>): (ps: seq<Option<(string, bool)>>)
    ensures |ps| == |ls| + 1
    ensures forall i :: 0 <= i < |ps| ==>
      ps[i] == if i < |ls| && ls[i].Entry? then Some((ls[i].id, ls[i].commented)) else None
  {
    seq(|ls| + 1, i requires 0 <= i < |ls| + 1 =>
      if i < |ls| && ls[i].Entry? then Some((ls[i].id, ls[i].commented)) else None)
  }

  lemma LinesParse(ls: seq<OutLine>)
    requires WellFormed(ls)
    ensures forall i :: 0 <= i < |ls| + 1 ==> ParseLine((Rendered(ls) + [""])[i]) == Parsed(ls)[i]
  {
    var xs := Rendered(ls) + [""];
    forall i | 0 <= i < |xs|
      ensures ParseLine(xs[i]) == Parsed(ls)[i]
    {
      if i < |ls| {
        LineParse(ls[i]);
      } else {
        assert xs[i] == "";
      }
    }
  }

  lemma ParseLinesCollect(xs: seq<string>, ps: seq<Option<(string, bool)>>)
    requires |xs| == |ps| && forall i :: 0 <= i < |xs| ==> ParseLine(xs[i]) == ps[i]
    ensures ParseLines(xs) == Collect(ps)
  {
    assert ParseEach(xs) == ps;
  }

  lemma CollectEntries(ls: seq<OutLine>, ps: seq<Option<(string, bool)>>, c: bool)
    requires |ps| == |ls| + 1
    requires forall i :: 0 <= i < |ps| ==>
      ps[i] == if i < |ls| && ls[i].Entry? then Some((ls[i].id, ls[i].commented)) else None
    ensures (if c then Collect(ps).1 else Collect(ps).0) == EntryIds(ls, c)
  {
    CollectMembers(ps);
    var r := if c then Collect(ps).1 else Collect(ps).0;
    forall id | id in EntryIds(ls, c)
      ensures id in r
    {
      var i :| 0 <= i < |ls| && ls[i].Entry? && ls[i].commented == c && ls[i].id == id;
      assert ps[i] == Some((id, c));
    }
  }

  // ---------------------------------------------------------------------------
  // what the generated lines hold

  lemma EntryIdsConcat(a: seq<OutLine>, b: seq<OutLine>, c: bool)
    ensures EntryIds(a + b, c) == EntryIds(a, c) + EntryIds(b, c)
  {
    var ab := a + b;
    forall id | id in EntryIds(a, c)
      ensures id in EntryIds(ab, c)
    {
      var i :| 0 <= i < |a| && a[i].Entry? && a[i].commented == c && a[i].id == id;
      assert ab[i] == a[i];
    }
    forall id | id in EntryIds(b, c)
      ensures id in EntryIds(ab, c)
    {
      var i :| 0 <= i < |b| && b[i].Entry? && b[i].commented == c && b[i].id == id;
      assert ab[|a| + i] == b[i];
    }
    forall id | id in EntryIds(ab, c)
      ensures id in EntryIds(a, c) + EntryIds(b, c)
    {
      var i :| 0 <= i < |ab| && ab[i].Entry? && ab[i].commented == c && ab[i].id == id;
      if i < |a| {
        assert ab[i] == a[i];
      } else {
        assert ab[i] == b[i - |a|];
      }
    }
  }

  lemma WellFormedConcat(a: seq<OutLine>, b: seq<OutLine>)
    requires WellFormed(a) && WellFormed(b)
    ensures WellFormed(a + b)
  {
    assert forall i :: |a| <= i < |a + b| ==> (a + b)[i] == b[i - |a|];
  }

  lemma EntryIdsSingle(l: OutLine, c: bool)
    ensures EntryIds([l], c) == if l.Entry? && l.commented == c then {l.id} else {}
  {
    if l.Entry? && l.commented == c {
      assert [l][0] == l;
    }
  }

  /** The separating comma changes no entry and keeps every line clean. */
  lemma AppendCommaKeeps(ls: seq<OutLine>, sep: Separator)
    ensures forall c: bool :: EntryIds(AppendComma(ls, sep), c) == EntryIds(ls, c)
    ensures WellFormed(ls) ==> WellFormed(AppendComma(ls, sep))
  {
    if |ls| > 0 {
      var n := |ls| - 1;
      var r := AppendComma(ls, sep);
      assert ls == ls[..n] + [ls[n]];
      assert r == ls[..n] + [r[n]];
      forall c: bool
        ensures EntryIds(r, c) == EntryIds(ls, c)
      {
        EntryIdsConcat(ls[..n], [ls[n]], c);
        EntryIdsConcat(ls[..n], [r[n]], c);
        EntryIdsSingle(ls[n], c);
        EntryIdsSingle(r[n], c);
      }
      if WellFormed(ls) {
        match ls[n]
        case Plain(t) =>
          LacksConcat(t, ",", '\n');
          LacksConcat(t, ",", '\r');
          LacksConcat(t, ",", '"');
        case Entry(_, _, _, tail) =>
          LacksConcat(tail, ",", '\n');
          LacksConcat(tail, ",", '\r');
          LacksConcat(",", tail, '\n');
          LacksConcat(",", tail, '\r');
        assert Clean(r[n]);
      }
    }
  }

  /** The ids of a sequence of extensions. */
  function IdsOf(es: seq<Extension>): set<string> {
    set e | e in es :: e.id
  }

  /** Every id, category and description can be written on one line, and
      ids and categories between quotes. */
  predicate Writable(e: Extension) {
    Quotable(e.id) && Quotable(e.category) && NoBreaks(e.description)
  }

  lemma EntryTailNoBreaks(e: Extension, more: bool)
    requires NoBreaks(e.description)
    ensures NoBreaks(EntryTail(e, more))
  {
    var note := if Described(e) then " // " + e.description else "";
    LacksConcat(" // ", e.description, '\n');
    LacksConcat(" // ", e.description, '\r');
    LacksConcat(",", note, '\n');
    LacksConcat(",", note, '\r');
  }

  lemma EntryLinesFacts(es: seq<Extension>)
    requires forall e :: e in es ==> Writable(e)
    ensures WellFormed(EntryLines(es))
    ensures EntryIds(EntryLines(es), false) == IdsOf(es)
    ensures EntryIds(EntryLines(es), true) == {}
  {
    var ls := EntryLines(es);
    IndentClean();
    forall i | 0 <= i < |ls|
      ensures Clean(ls[i])
    {
      assert es[i] in es;
      EntryTailNoBreaks(es[i], i < |es| - 1);
    }
    forall id | id in IdsOf(es)
      ensures id in EntryIds(ls, false)
    {
      var i :| 0 <= i < |es| && es[i].id == id;
      assert ls[i].id == id;
    }
  }

  lemma IndentClean()
    ensures AllSpace(Indent) && NoBreaks(Indent)
  {
  }

  lemma TitleLineClean(cat: string)
    requires Quotable(cat)
    ensures Quotable(Indent + "// " + Title(cat))
  {
    TitleLacks(cat, '\n');
    TitleLacks(cat, '\r');
    TitleLacks(cat, '"');
    LacksConcat(Indent + "// ", Title(cat), '\n');
    LacksConcat(Indent + "// ", Title(cat), '\r');
    LacksConcat(Indent + "// ", Title(cat), '"');
  }

  lemma BlockFacts(cat: string, es: seq<Extension>)
    requires Quotable(cat) && forall e :: e in es ==> Writable(e)
    ensures WellFormed(Block(cat, es))
    ensures EntryIds(Block(cat, es), false) == IdsOf(es)
    ensures EntryIds(Block(cat, es), true) == {}
  {
    var head := [Plain(""), Plain(Indent + "// " + Title(cat))];
    TitleLineClean(cat);
    EntryLinesFacts(es);
    WellFormedConcat(head, EntryLines(es));
    EntryIdsConcat(head, EntryLines(es), false);
    EntryIdsConcat(head, EntryLines(es), true);
  }

  /** The ids of the listed categories' extensions. */
  function GroupIds(cats: seq<string>, groups: map<string, seq<Extension>>): set<string>
    requires forall k :: 0 <= k < |cats| ==> cats[k] in groups
    decreases |cats|
  {
    if |cats| == 0 then {} else IdsOf(groups[cats[0]]) + GroupIds(cats[1..], groups)
  }

  predicate WritableGroups(groups: map<string, seq<Extension>>) {
    forall c :: c in groups ==> Quotable(c) && forall e :: e in groups[c] ==> Writable(e)
  }

  /** The blocks add every listed category's ids as entries and nothing else. */
  lemma {:induction false} BlocksFacts(acc: seq<OutLine>, cats: seq<string>, groups: map<string, seq<Extension>>,
                                       first: bool, sep: Separator)
    requires forall k :: 0 <= k < |cats| ==> cats[k] in groups
    requires WritableGroups(groups) && WellFormed(acc)
    ensures WellFormed(Blocks(acc, cats, groups, first, sep))
    ensures EntryIds(Blocks(acc, cats, groups, first, sep), false) == EntryIds(acc, false) + GroupIds(cats, groups)
    ensures EntryIds(Blocks(acc, cats, groups, first, sep), true) == EntryIds(acc, true)
    decreases |cats|
  {
    if |cats| > 0 {
      var acc' := if first then acc else AppendComma(acc, sep);
      var block := Block(cats[0], groups[cats[0]]);
      AppendCommaKeeps(acc, sep);
      BlockFacts(cats[0], groups[cats[0]]);
      WellFormedConcat(acc', block);
      EntryIdsConcat(acc', block, false);
      EntryIdsConcat(acc', block, true);
      BlocksFacts(acc' + block, cats[1..], groups, false, sep);
    }
  }

  lemma {:induction false} GroupIdsMember(cats: seq<string>, groups: map<string, seq<Extension>>)
    requires forall k :: 0 <= k < |cats| ==> cats[k] in groups
    ensures forall id :: id in GroupIds(cats, groups) <==>
      exists k :: 0 <= k < |cats| && id in IdsOf(groups[cats[k]])
    decreases |cats|
  {
    if |cats| > 0 {
      GroupIdsMember(cats[1..], groups);
      assert forall k :: 1 <= k < |cats| ==> cats[k] == cats[1..][k - 1];
    }
  }

  /** Grouping by category loses and adds no id. */
  lemma AllGroupIds(es: seq<Extension>)
    ensures forall k :: 0 <= k < |SortedList(Group(es).Keys)| ==> SortedList(Group(es).Keys)[k] in Group(es)
    ensures GroupIds(SortedList(Group(es).Keys), Group(es)) == IdsOf(es)
  {
    GroupLists(es);
    var groups := Group(es);
    assert forall i :: 0 <= i < |es| ==> es[i].category in groups;
    GroupIdsOf(es, groups, SortedList(groups.Keys));
  }

  lemma GroupIdsOf(es: seq<Extension>, groups: map<string, seq<Extension>>, cats: seq<string>)
    requires forall c :: c in groups ==> groups[c] == InCategory(es, c)
    requires forall i :: 0 <= i < |es| ==> es[i].category in groups
    requires forall c :: c in cats <==> c in groups
    ensures GroupIds(cats, groups) == IdsOf(es)
  {
    GroupIdsMember(cats, groups);
    forall id | id in IdsOf(es)
      ensures id in GroupIds(cats, groups)
    {
      var i :| 0 <= i < |es| && es[i].id == id;
      var c := es[i].category;
      var k :| 0 <= k < |cats| && cats[k] == c;
      assert es[i] in InCategory(es, c);
    }
  }

  lemma GroupsWritable(es: seq<Extension>)
    requires forall e :: e in es ==> Writable(e)
    ensures WritableGroups(Group(es))
  {
    GroupLists(es);
    forall c | c in Group(es)
      ensures Quotable(c)
    {
      var i :| 0 <= i < |es| && es[i].category == c;
      assert es[i] in es;
    }
  }

  /** The looked-up extensions carry exactly the looked-up ids. */
  lemma LookupIds(ids: seq<string>, byId: map<string, Extension>)
    requires Lookup(ids, byId).Success?
    requires forall id :: id in byId ==> byId[id].id == id
    ensures forall x :: x in IdsOf(Lookup(ids, byId).value) <==> x in ids
  {
    var es := Lookup(ids, byId).value;
    forall x | x in ids
      ensures x in IdsOf(es)
    {
      var k :| 0 <= k < |ids| && ids[k] == x;
      assert es[k] in es;
    }
  }

  lemma OptionalFacts(ids: seq<string>, byId: map<string, Extension>)
    requires forall k :: 0 <= k < |ids| ==> Quotable(ids[k])
    requires forall id :: id in byId ==> NoBreaks(byId[id].description)
    ensures WellFormed(OptionalLines(ids, byId))
    ensures EntryIds(OptionalLines(ids, byId), false) == {}
    ensures EntryIds(OptionalLines(ids, byId), true) == set x | x in ids
  {
    if |ids| > 0 {
      var entries := OptionalEntries(ids, byId);
      OptionalHeadFacts();
      OptionalEntriesClean(ids, byId);
      OptionalEntriesIds(ids, byId);
      WellFormedConcat(OptionalHead, entries);
      EntryIdsConcat(OptionalHead, entries, false);
      EntryIdsConcat(OptionalHead, entries, true);
    }
  }

  lemma OptionalHeadFacts()
    ensures WellFormed(OptionalHead)
    ensures EntryIds(OptionalHead, false) == {} && EntryIds(OptionalHead, true) == {}
  {
    BannerClean();
    IndentClean();
  }

  lemma OptionalEntriesClean(ids: seq<string>, byId: map<string, Extension>)
    requires forall k :: 0 <= k < |ids| ==> Quotable(ids[k])
    requires forall id :: id in byId ==> NoBreaks(byId[id].description)
    ensures WellFormed(OptionalEntries(ids, byId))
  {
    var entries := OptionalEntries(ids, byId);
    IndentClean();
    forall i | 0 <= i < |entries|
      ensures Clean(entries[i])
    {
      if ids[i] in byId {
        LacksConcat(", // ", byId[ids[i]].description, '\n');
        LacksConcat(", // ", byId[ids[i]].description, '\r');
      }
    }
  }

  lemma OptionalEntriesIds(ids: seq<string>, byId: map<string, Extension>)
    ensures EntryIds(OptionalEntries(ids, byId), false) == {}
    ensures EntryIds(OptionalEntries(ids, byId), true) == set x | x in ids
  {
    var entries := OptionalEntries(ids, byId);
    forall x | x in ids
      ensures x in EntryIds(entries, true)
    {
      var k :| 0 <= k < |ids| && ids[k] == x;
      assert entries[k].id == x;
    }
  }

  lemma BannerClean()
    ensures Quotable(OptionalBanner) && Quotable(OptionalHint)
  {
    BannerLacks('\n');
    BannerLacks('\r');
    BannerLacks('"');
  }

  lemma BannerLacks(c: char)
    requires c == '\n' || c == '\r' || c == '"'
    ensures Lacks(OptionalBanner, c) && Lacks(OptionalHint, c)
  {
    TitleBannerLacks(c);
    HintLacks(c);
  }

  lemma TitleBannerLacks(c: char)
    requires c == '\n' || c == '\r' || c == '"'
    ensures Lacks(OptionalBanner, c)
  {
    assert Lacks(Indent, c);
    assert Lacks("// ============= ", c) && Lacks("OPTIONAL/DISABLED ", c) && Lacks("EXTENSIONS =============", c);
    LacksFour(Indent, "// ============= ", "OPTIONAL/DISABLED ", "EXTENSIONS =============", c);
  }

  lemma HintLacks(c: char)
    requires c == '\n' || c == '\r' || c == '"'
    ensures Lacks(OptionalHint, c)
  {
    assert Lacks(Indent, c);
    assert Lacks("// Uncomment any of ", c) && Lacks("these if you need them ", c) && Lacks("for specific projects", c);
    LacksFour(Indent, "// Uncomment any of ", "these if you need them ", "for specific projects", c);
  }

  lemma LacksFour(a: string, b: string, d: string, e: string, c: char)
    requires Lacks(a, c) && Lacks(b, c) && Lacks(d, c) && Lacks(e, c)
    ensures Lacks(a + b + d + e, c)
  {
    LacksConcat(a, b, c);
    LacksConcat(a + b, d, c);
    LacksConcat(a + b + d, e, c);
  }

  lemma FrameFacts()
    ensures WellFormed(Header) && WellFormed(Footer)
    ensures EntryIds(Header, false) == {"recommendations"} && EntryIds(Header, true) == {}
    ensures EntryIds(Footer, false) == {} && EntryIds(Footer, true) == {}
  {
    HeaderFacts();
    FooterFacts();
  }

  lemma HeaderFacts()
    ensures WellFormed(Header)
    ensures EntryIds(Header, false) == {"recommendations"} && EntryIds(Header, true) == {}
  {
    assert Header[1].id == "recommendations";
  }

  lemma FooterFacts()
    ensures WellFormed(Footer)
    ensures EntryIds(Footer, false) == {} && EntryIds(Footer, true) == {}
  {
  }

  /** The ids a catalogue can write: each keyed by its own id and writable. */
  predicate WritableCatalogue(byId: map<string, Extension>) {
    forall id :: id in byId ==> byId[id].id == id && Writable(byId[id])
  }

  /** For a selection of known, writable extensions, generation succeeds, and
      the uncommented entries are the selection (and the `recommendations` key
      itself), the commented ones the commented ids not selected. */
  lemma GenerateFacts(selected: set<string>, byId: map<string, Extension>, commented: set<string>, sep: Separator)
    requires selected <= byId.Keys && WritableCatalogue(byId)
    requires forall id :: id in commented ==> Quotable(id)
    ensures GenerateLines(selected, byId, commented, sep).Success?
    ensures var ls := GenerateLines(selected, byId, commented, sep).value;
      && WellFormed(ls) && |ls| > 0
      && EntryIds(ls, false) == {"recommendations"} + selected
      && EntryIds(ls, true) == commented - selected
  {
    var exts := LookupSelected(selected, byId);
    var body := Body(exts, sep);
    var opt := OptionalLines(SortedList(commented - selected), byId);
    var ls := body + opt + Footer;
    GenerateFound(selected, byId, commented, sep, exts);
    BodyFacts(exts, sep);
    LeftOverFacts(selected, byId, commented);
    Assemble(body, opt);
  }

  lemma GenerateFound(selected: set<string>, byId: map<string, Extension>, commented: set<string>, sep: Separator,
                      exts: seq<Extension>)
    requires Lookup(SortedList(selected), byId) == Success(exts)
    ensures GenerateLines(selected, byId, commented, sep)
      == Success(Body(exts, sep) + OptionalLines(SortedList(commented - selected), byId) + Footer)
  {
  }

  /** The optional section lists the commented ids left unselected. */
  lemma LeftOverFacts(selected: set<string>, byId: map<string, Extension>, commented: set<string>)
    requires WritableCatalogue(byId) && forall id :: id in commented ==> Quotable(id)
    ensures var opt := OptionalLines(SortedList(commented - selected), byId);
      && WellFormed(opt) && EntryIds(opt, false) == {} && EntryIds(opt, true) == commented - selected
  {
    var rest := SortedList(commented - selected);
    SortedQuotable(commented - selected);
    assert forall id :: id in byId ==> NoBreaks(byId[id].description);
    OptionalFacts(rest, byId);
    SortedListMembers(commented - selected);
  }

  lemma SortedQuotable(s: set<string>)
    requires forall x :: x in s ==> Quotable(x)
    ensures forall k :: 0 <= k < |SortedList(s)| ==> Quotable(SortedList(s)[k])
  {
    assert forall k :: 0 <= k < |SortedList(s)| ==> SortedList(s)[k] in s;
  }

  lemma SortedListMembers(s: set<string>)
    ensures (set x | x in SortedList(s)) == s
  {
  }

  /** A selection of known ids is found, and found writable. */
  lemma LookupSelected(selected: set<string>, byId: map<string, Extension>) returns (exts: seq<Extension>)
    requires selected <= byId.Keys && WritableCatalogue(byId)
    ensures Lookup(SortedList(selected), byId) == Success(exts)
    ensures IdsOf(exts) == selected && forall e :: e in exts ==> Writable(e)
  {
    SelectedFound(selected, byId);
    exts := Lookup(SortedList(selected), byId).value;
    assert forall id :: id in byId ==> byId[id].id == id;
    SelectedIds(selected, byId);
    FoundWritable(SortedList(selected), byId);
  }

  lemma SelectedFound(selected: set<string>, byId: map<string, Extension>)
    requires selected <= byId.Keys
    ensures Lookup(SortedList(selected), byId).Success?
  {
    var ids := SortedList(selected);
    forall k | 0 <= k < |ids| ensures ids[k] in byId {
      assert ids[k] in selected;
    }
  }

  lemma SelectedIds(selected: set<string>, byId: map<string, Extension>)
    requires Lookup(SortedList(selected), byId).Success?
    requires forall id :: id in byId ==> byId[id].id == id
    ensures IdsOf(Lookup(SortedList(selected), byId).value) == selected
  {
    var ids := SortedList(selected);
    var es := Lookup(ids, byId).value;
    LookupIds(ids, byId);
    forall x
      ensures x in IdsOf(es) <==> x in selected
    {
      assert x in ids <==> x in selected;
    }
  }

  lemma FoundWritable(ids: seq<string>, byId: map<string, Extension>)
    requires Lookup(ids, byId).Success? && WritableCatalogue(byId)
    ensures forall e :: e in Lookup(ids, byId).value ==> Writable(e)
  {
    var exts := Lookup(ids, byId).value;
    forall e | e in exts
      ensures Writable(e)
    {
      var k :| 0 <= k < |exts| && exts[k] == e;
      assert ids[k] in byId;
    }
  }

  /** The category blocks hold the extensions' ids and the key line's. */
  lemma BodyFacts(exts: seq<Extension>, sep: Separator)
    requires forall e :: e in exts ==> Writable(e)
    ensures WellFormed(Body(exts, sep))
    ensures EntryIds(Body(exts, sep), false) == {"recommendations"} + IdsOf(exts)
    ensures EntryIds(Body(exts, sep), true) == {}
  {
    AllGroupIds(exts);
    GroupsWritable(exts);
    FrameFacts();
    BlocksFacts(Header, SortedList(Group(exts).Keys), Group(exts), true, sep);
  }

  /** Between the body, which has no commented entry, and the footer, the
      optional section, which has no active one, adds only commented ids. */
  lemma Assemble(body: seq<OutLine>, opt: seq<OutLine>)
    requires WellFormed(body) && WellFormed(opt)
    requires EntryIds(body, true) == {} && EntryIds(opt, false) == {}
    ensures var ls := body + opt + Footer;
      && WellFormed(ls) && |ls| > 0
      && EntryIds(ls, false) == EntryIds(body, false)
      && EntryIds(ls, true) == EntryIds(opt, true)
  {
    FrameFacts();
    WellFormedConcat(body, opt);
    WellFormedConcat(body + opt, Footer);
    EntryIdsConcat(body, opt, false);
    EntryIdsConcat(body, opt, true);
    EntryIdsConcat(body + opt, Footer, false);
    EntryIdsConcat(body + opt, Footer, true);
  }

  // ---------------------------------------------------------------------------
  // saving and reading back

  /** Reading back what was generated gives the selection (and the
      `recommendations` key line, which the line parser also takes for an
      id) as active ids, and the unselected commented ids as commented. */
  lemma GenerateRoundTrip(selected: set<string>, byId: map<string, Extension>, commented: set<string>, sep: Separator)
    requires selected <= byId.Keys && WritableCatalogue(byId)
    requires forall id :: id in commented ==> Quotable(id)
    ensures GenerateLines(selected, byId, commented, sep).Success?
    ensures ParseExtensionsJson(Some(RenderText(GenerateLines(selected, byId, commented, sep).value)))
      == ({"recommendations"} + selected, commented - selected)
  {
    GenerateFacts(selected, byId, commented, sep);
    ParseText(GenerateLines(selected, byId, commented, sep).value);
  }

  /** `id` is a selected id the catalogue lacks, and the least such id. */
  predicate UnknownLeast(selected: set<string>, byId: map<string, Extension>, id: string) {
    && id in selected && id !in byId
    && forall x :: x in selected && x !in byId ==> LexLe(id, x)
  }

  /** Looking up the sorted selection fails exactly when a selected id is
      unknown, and then on the least such id, the first the loop reaches. */
  lemma SortedLookup(selected: set<string>, byId: map<string, Extension>)
    ensures var r := Lookup(SortedList(selected), byId);
      && (r.Failure? <==> !(selected <= byId.Keys))
      && (r.Failure? ==> UnknownLeast(selected, byId, r.error.id))
  {
    var ids := SortedList(selected);
    var r := Lookup(ids, byId);
    if r.Failure? {
      var k :| 0 <= k < |ids| && ids[k] == r.error.id && ids[k] !in byId && forall j :: 0 <= j < k ==> ids[j] in byId;
      forall x | x in selected && x !in byId
        ensures LexLe(r.error.id, x)
      {
        var m :| 0 <= m < |ids| && ids[m] == x;
        if m < k {
          assert false;
        } else if m == k {
          LexLeReflexive(x);
        }
      }
    } else {
      assert forall x :: x in selected ==> x in ids;
    }
  }

  /** A parsed id lacks whatever its line lacks. */
  lemma ParsedIdLacks(raw: string, c: char)
    requires Lacks(raw, c) && ParseLine(raw).Some?
    ensures Lacks(ParseLine(raw).value.0, c)
  {
    var id := ParseLine(raw).value.0;
    StrippedLacks(raw, c);
    var i :| QuotedIdAt(Strip(raw), i, id);
    QuotedIdLacks(Strip(raw), i, id, c);
  }

  lemma StrippedLacks(raw: string, c: char)
    requires Lacks(raw, c)
    ensures Lacks(Strip(raw), c)
  {
    StripWindow(raw);
    var a := |raw| - |LStrip(raw)|;
    SliceLacks(raw, a, a + |Strip(raw)|, c);
  }

  lemma SliceLacks(s: string, a: nat, b: nat, c: char)
    requires a <= b <= |s| && Lacks(s, c)
    ensures Lacks(s[a..b], c)
  {
    forall k | 0 <= k < b - a
      ensures s[a..b][k] != c
    {
      assert s[a..b][k] == s[a + k];
    }
  }

  lemma QuotedIdLacks(t: string, i: nat, id: string, c: char)
    requires QuotedIdAt(t, i, id) && Lacks(t, c)
    ensures Lacks(id, c)
  {
    assert forall k :: 0 <= k < |id| ==> id[k] == t[i + 1 + k];
  }

  /** Every id read from a file can be written back on one line. */
  lemma ParsedIdsQuotable(text: string)
    ensures forall id :: id in ParseExtensionsJson(Some(text)).1 ==> Quotable(id)
  {
    var lines := Lines(text);
    forall id | id in ParseExtensionsJson(Some(text)).1
      ensures Quotable(id)
    {
      var i :| 0 <= i < |lines| && ParseLine(lines[i]) == Some((id, true));
      ParsedIdLacks(lines[i], '\n');
      ParsedIdLacks(lines[i], '\r');
    }
  }

  /** Saving a valid selection keeps the old file as the backup and writes a
      file that reads back as the selection, with the commented ids of the
      old file that were not selected still commented. */
  lemma SaveRoundTrip(existing: Option<string>, st: SelectorState)
    requires Valid(st) && forall id :: id in st.byId ==> Writable(st.byId[id])
    ensures SaveExtensions(existing, st).backup == existing
    ensures SaveExtensions(existing, st).written.Success?
    ensures ParseExtensionsJson(Some(SaveExtensions(existing, st).written.value))
      == ({"recommendations"} + st.selected, ParseExtensionsJson(existing).1 - st.selected)
  {
    if existing.Some? {
      ParsedIdsQuotable(existing.value);
    }
    GenerateRoundTrip(st.selected, st.byId, ParseExtensionsJson(existing).1, AfterId);
  }

  /** As written, the saved file never keeps a commented id. */
  lemma SaveAsWrittenDropsOptional(existing: Option<string>, st: SelectorState)
    requires Valid(st) && forall id :: id in st.byId ==> Writable(st.byId[id])
    ensures SaveExtensionsAsWritten(existing, st).written.Success?
    ensures ParseExtensionsJson(Some(SaveExtensionsAsWritten(existing, st).written.value)) == ({"recommendations"} + st.selected, {})
  {
    GenerateRoundTrip(st.selected, st.byId, {}, AtLineEnd);
  }

  /** A file with one commented extension. */
  function OneCommented(id: string): seq<OutLine> {
    [Plain("{"), Entry(Indent, true, id, ""), Plain("}")]
  }

  /** Saving an empty selection over a file with the commented extension
      `x.y`: as written the extension is lost, as intended it is kept. */
  lemma SaveLosesCommentedExample(id: string)
    requires id == "x.y"
    ensures var existing := Some(RenderText(OneCommented(id)));
      var st := SelectorState([], map[], {});
      && ParseExtensionsJson(existing).1 == {id}
      && ParseExtensionsJson(Some(SaveExtensionsAsWritten(existing, st).written.value)).1 == {}
      && ParseExtensionsJson(Some(SaveExtensions(existing, st).written.value)).1 == {id}
  {
    OneCommentedParses(id);
    EmptyStateSaves(Some(RenderText(OneCommented(id))));
  }

  lemma OneCommentedParses(id: string)
    requires Quotable(id)
    ensures ParseExtensionsJson(Some(RenderText(OneCommented(id)))).1 == {id}
  {
    var ls := OneCommented(id);
    IndentClean();
    assert WellFormed(ls);
    assert ls[1].id == id;
    assert EntryIds(ls, true) == {id};
    CommentedRead(ls, {id});
  }

  lemma CommentedRead(ls: seq<OutLine>, ids: set<string>)
    requires WellFormed(ls) && |ls| > 0 && EntryIds(ls, true) == ids
    ensures ParseExtensionsJson(Some(RenderText(ls))).1 == ids
  {
    ParseText(ls);
  }

  lemma EmptyStateSaves(existing: Option<string>)
    ensures var st := SelectorState([], map[], {});
      && ParseExtensionsJson(Some(SaveExtensionsAsWritten(existing, st).written.value)).1 == {}
      && ParseExtensionsJson(Some(SaveExtensions(existing, st).written.value)).1 == ParseExtensionsJson(existing).1
  {
    var st := SelectorState([], map[], {});
    assert Valid(st);
    SaveRoundTrip(existing, st);
    SaveAsWrittenDropsOptional(existing, st);
  }

  // ---------------------------------------------------------------------------
  // commas between the recommendations

  /** A line of the recommendations list. */
  predicate Recommendation(l: OutLine) {
    l.Entry? && !l.commented && l.indent == Indent
  }

  /** The line's id is followed directly by a comma. */
  predicate Separated(l: OutLine)
    requires l.Entry?
  {
    StartsWith(l.tail, ",")
  }

  /** Every recommendation but the last line is separated, the last line not. */
  predicate Commas(ls: seq<OutLine>) {
    forall i :: 0 <= i < |ls| && Recommendation(ls[i]) ==> (Separated(ls[i]) <==> i < |ls| - 1)
  }

  /** If there is a recommendation, the last line is one. */
  predicate EndsWithRecommendation(ls: seq<OutLine>) {
    (exists i :: 0 <= i < |ls| && Recommendation(ls[i])) ==> |ls| > 0 && Recommendation(ls[|ls| - 1])
  }

  lemma BlockCommas(acc: seq<OutLine>, cat: string, es: seq<Extension>)
    requires |es| > 0
    requires forall i :: 0 <= i < |acc| && Recommendation(acc[i]) ==> Separated(acc[i])
    ensures Commas(acc + Block(cat, es)) && EndsWithRecommendation(acc + Block(cat, es))
  {
    var b := Block(cat, es);
    var ls := acc + b;
    assert forall i :: |acc| <= i < |ls| ==> ls[i] == b[i - |acc|];
    assert forall k :: 2 <= k < |b| ==> b[k] == EntryLines(es)[k - 2];
    assert Recommendation(ls[|ls| - 1]);
  }

  lemma AppendCommaAfterId(acc: seq<OutLine>)
    requires Commas(acc) && EndsWithRecommendation(acc)
    ensures forall i :: (0 <= i < |AppendComma(acc, AfterId)| && Recommendation(AppendComma(acc, AfterId)[i])
      ==> Separated(AppendComma(acc, AfterId)[i]))
  {
    if |acc| > 0 {
      var r := AppendComma(acc, AfterId);
      var n := |acc| - 1;
      assert forall i :: 0 <= i < n ==> r[i] == acc[i];
      if acc[n].Entry? {
        assert r[n].tail == "," + acc[n].tail;
      }
    }
  }

  /** With the comma after the id, the blocks keep every recommendation but
      the very last one separated. */
  lemma {:induction false} BlocksCommas(acc: seq<OutLine>, cats: seq<string>, groups: map<string, seq<Extension>>, first: bool)
    requires forall k :: 0 <= k < |cats| ==> cats[k] in groups && |groups[cats[k]]| > 0
    requires Commas(acc) && EndsWithRecommendation(acc)
    requires first ==> forall i :: 0 <= i < |acc| ==> !Recommendation(acc[i])
    ensures Commas(Blocks(acc, cats, groups, first, AfterId)) && EndsWithRecommendation(Blocks(acc, cats, groups, first, AfterId))
    decreases |cats|
  {
    if |cats| > 0 {
      var acc' := if first then acc else AppendComma(acc, AfterId);
      AppendCommaAfterId(acc);
      BlockCommas(acc', cats[0], groups[cats[0]]);
      BlocksCommas(acc' + Block(cats[0], groups[cats[0]]), cats[1..], groups, false);
    }
  }

  lemma BodyCommas(exts: seq<Extension>)
    ensures Commas(Body(exts, AfterId)) && EndsWithRecommendation(Body(exts, AfterId))
  {
    var groups := Group(exts);
    GroupsNonEmpty(exts);
    HeaderOpens();
    BlocksCommas(Header, SortedList(groups.Keys), groups, true);
  }

  lemma GroupsNonEmpty(es: seq<Extension>)
    ensures forall c :: c in Group(es) ==> |Group(es)[c]| > 0
  {
    GroupLists(es);
  }

  /** The opening lines hold no recommendation. */
  lemma HeaderOpens()
    ensures Commas(Header) && EndsWithRecommendation(Header)
    ensures forall i :: 0 <= i < |Header| ==> !Recommendation(Header[i])
  {
    assert !Recommendation(Header[0]) && !Recommendation(Header[1]);
  }

  /** With the comma after the id, a recommendation is followed by a comma
      exactly when another recommendation comes after it: the list is valid
      JSON once the comments are dropped. */
  lemma SeparatorsAfterIds(selected: set<string>, byId: map<string, Extension>, commented: set<string>)
    requires GenerateLines(selected, byId, commented, AfterId).Success?
    ensures var ls := GenerateLines(selected, byId, commented, AfterId).value;
      forall i :: 0 <= i < |ls| && Recommendation(ls[i]) ==>
        (Separated(ls[i]) <==> exists j :: i < j < |ls| && Recommendation(ls[j]))
  {
    var exts := Lookup(SortedList(selected), byId).value;
    var body := Body(exts, AfterId);
    var opt := OptionalLines(SortedList(commented - selected), byId);
    assert Lookup(SortedList(selected), byId) == Success(exts);
    assert GenerateLines(selected, byId, commented, AfterId) == Success(body + opt + Footer);
    BodyCommas(exts);
    NoRecommendationAfter(SortedList(commented - selected), byId);
    TailCommas(body, opt);
  }

  /** The optional section and the closing lines hold no recommendation. */
  lemma NoRecommendationAfter(ids: seq<string>, byId: map<string, Extension>)
    ensures var rest := OptionalLines(ids, byId) + Footer;
      forall i :: 0 <= i < |rest| ==> !Recommendation(rest[i])
  {
  }

  lemma TailCommas(body: seq<OutLine>, opt: seq<OutLine>)
    requires Commas(body) && EndsWithRecommendation(body)
    requires forall i :: 0 <= i < |opt + Footer| ==> !Recommendation((opt + Footer)[i])
    ensures var ls := body + opt + Footer;
      forall i :: 0 <= i < |ls| && Recommendation(ls[i]) ==>
        (Separated(ls[i]) <==> exists j :: i < j < |ls| && Recommendation(ls[j]))
  {
    var rest := opt + Footer;
    var ls := body + opt + Footer;
    assert ls == body + rest;
    forall i | 0 <= i < |ls| && Recommendation(ls[i])
      ensures Separated(ls[i]) <==> exists j :: i < j < |ls| && Recommendation(ls[j])
    {
      assert i < |body| && ls[i] == body[i];
      if i < |body| - 1 {
        assert Recommendation(ls[|body| - 1]);
      } else {
        forall j | i < j < |ls|
          ensures !Recommendation(ls[j])
        {
          assert ls[j] == rest[j - |body|];
        }
      }
    }
  }

  /** Two distinct strings in order are their own sorted list. */
  lemma SortedPair(x: string, y: string)
    requires LexLe(x, y) && x != y
    ensures SortedList({x, y}) == [x, y]
  {
    var r := SortedList({x, y});
    assert r[0] in {x, y} && r[1] in {x, y};
    if r[0] == y {
      LexLeAntisymmetric(x, y);
    }
  }

  lemma GroupPair(a: Extension, b: Extension)
    requires a.category != b.category
    ensures Group([a, b]) == map[a.category := [a], b.category := [b]]
  {
    GroupOne(a);
    GroupSnoc([a], b);
    assert [a] + [b] == [a, b];
    assert b.category !in Group([a]);
    var none: seq<Extension> := [];
    assert none + [b] == [b];
  }

  lemma GroupOne(a: Extension)
    ensures Group([a]) == map[a.category := [a]]
  {
    var none: seq<Extension> := [];
    assert Group(none) == map[];
    GroupSnoc(none, a);
    assert none + [a] == [a];
  }

  lemma GroupSnoc(init: seq<Extension>, last: Extension)
    ensures Group(init + [last])
      == Group(init)[last.category := (if last.category in Group(init) then Group(init)[last.category] else []) + [last]]
  {
    var es := init + [last];
    assert es[..|es| - 1] == init && es[|es| - 1] == last;
  }

  /** The blocks of two one-extension categories, as written: the comma
      between them is added to the end of the first block's last line. */
  lemma TwoBlocks(a: Extension, b: Extension)
    requires a.category != b.category
    ensures var groups := map[a.category := [a], b.category := [b]];
      Blocks(Header, [a.category, b.category], groups, true, AtLineEnd)
      == AppendComma(Header + Block(a.category, [a]), AtLineEnd) + Block(b.category, [b])
  {
    var groups := map[a.category := [a], b.category := [b]];
    var cats := [a.category, b.category];
    assert cats[1..] == [b.category];
    assert cats[1..][1..] == [];
    var acc := Header + Block(a.category, [a]);
    assert Blocks(Header, cats, groups, true, AtLineEnd) == Blocks(acc, [b.category], groups, false, AtLineEnd);
    assert Blocks(acc, [b.category], groups, false, AtLineEnd)
      == Blocks(AppendComma(acc, AtLineEnd) + Block(b.category, [b]), [], groups, false, AtLineEnd);
  }

  /** As written, when the first of two categories ends with a described
      extension, the comma between the categories lands after that
      description, inside its `//` comment: the id is followed by no comma
      though another recommendation follows. */
  lemma CommaInsideComment(a: Extension, b: Extension)
    requires LexLe(a.id, b.id) && a.id != b.id
    requires LexLe(a.category, b.category) && a.category != b.category
    requires Described(a)
    ensures var r := GenerateLines({a.id, b.id}, map[a.id := a, b.id := b], {}, AtLineEnd);
      && r.Success? && |r.value| > 8
      && Recommendation(r.value[4]) && r.value[4].id == a.id && !Separated(r.value[4])
      && Render(r.value[4]) == Indent + "\"" + a.id + "\"" + " // " + a.description + ","
      && Recommendation(r.value[7]) && r.value[7].id == b.id
  {
    PairLines(a, b);
    PairShape(a, b, AppendComma(Header + Block(a.category, [a]), AtLineEnd) + Block(b.category, [b]) + [] + Footer);
  }

  lemma PairLines(a: Extension, b: Extension)
    requires LexLe(a.id, b.id) && a.id != b.id
    requires LexLe(a.category, b.category) && a.category != b.category
    ensures GenerateLines({a.id, b.id}, map[a.id := a, b.id := b], {}, AtLineEnd)
      == Success(AppendComma(Header + Block(a.category, [a]), AtLineEnd) + Block(b.category, [b]) + [] + Footer)
  {
    var byId := map[a.id := a, b.id := b];
    PairLookup(a, b);
    PairBody(a, b);
    NoneOptional({a.id, b.id}, byId);
  }

  lemma PairLookup(a: Extension, b: Extension)
    requires LexLe(a.id, b.id) && a.id != b.id
    ensures Lookup(SortedList({a.id, b.id}), map[a.id := a, b.id := b]) == Success([a, b])
  {
    SortedPair(a.id, b.id);
    var found := Lookup([a.id, b.id], map[a.id := a, b.id := b]);
    assert found.Success? && found.value[0] == a && found.value[1] == b;
    assert found.value == [a, b];
  }

  lemma PairBody(a: Extension, b: Extension)
    requires LexLe(a.category, b.category) && a.category != b.category
    ensures Body([a, b], AtLineEnd) == AppendComma(Header + Block(a.category, [a]), AtLineEnd) + Block(b.category, [b])
  {
    var groups := map[a.category := [a], b.category := [b]];
    GroupPair(a, b);
    SortedPair(a.category, b.category);
    assert groups.Keys == {a.category, b.category};
    TwoBlocks(a, b);
  }

  lemma NoneOptional(selected: set<string>, byId: map<string, Extension>)
    ensures OptionalLines(SortedList({} - selected), byId) == []
  {
    assert {} - selected == {};
  }

  lemma PairShape(a: Extension, b: Extension, ls: seq<OutLine>)
    requires Described(a)
    requires ls == AppendComma(Header + Block(a.category, [a]), AtLineEnd) + Block(b.category, [b]) + [] + Footer
    ensures |ls| > 8
    ensures Recommendation(ls[4]) && ls[4].id == a.id && !Separated(ls[4])
    ensures Render(ls[4]) == Indent + "\"" + a.id + "\"" + " // " + a.description + ","
    ensures Recommendation(ls[7]) && ls[7].id == b.id
  {
    var appended := AppendComma(Header + Block(a.category, [a]), AtLineEnd);
    FirstBlockComma(a);
    var line := Entry(Indent, false, a.id, " // " + a.description + ",");
    assert ls[4] == line;
    assert ls[7] == Block(b.category, [b])[2];
    assert !Separated(line) by {
      assert line.tail[0] == ' ';
    }
  }

  /** The comma after the first block goes to the end of its one entry line. */
  lemma FirstBlockComma(a: Extension)
    requires Described(a)
    ensures var appended := AppendComma(Header + Block(a.category, [a]), AtLineEnd);
      |appended| == 5 && appended[4] == Entry(Indent, false, a.id, " // " + a.description + ",")
  {
    var first := Header + Block(a.category, [a]);
    assert first[4] == Entry(Indent, false, a.id, " // " + a.description);
  }
}
