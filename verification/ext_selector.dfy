/** The VS Code extension selector's data: extensions from a catalogue, their
    state in a workspace `extensions.json`, and the selection the user edits.
    The terminal interface around it is not modelled; what remains is the
    line parser, the loading and grouping of extensions, and the three
    selection actions. */
module ExtSelector {
  import opened Wrappers
  import opened Text

  // ---------------------------------------------------------------------------
  // extensions and categories

  datatype Extension = Extension(
    id: string,
    description: string,
    category: string,
    nix: Option<string>,
    isActive: bool,
    isCommented: bool)

  /** `Extension.status`: an active extension shows a check mark even when it
      is also commented somewhere in the file. */
  function Status(e: Extension): (s: string)
    ensures s == "\U{2713}" <==> e.isActive
    ensures s == "#" <==> !e.isActive && e.isCommented
    ensures s == "\U{25CB}" <==> !e.isActive && !e.isCommented
  {
    if e.isActive then "\U{2713}" else if e.isCommented then "#" else "\U{25CB}"
  }

  /** `Extension.status_text`, with the same precedence as `Status`. */
  function StatusText(e: Extension): (s: string)
    ensures s == "Currently Active" <==> e.isActive
    ensures s == "Commented Out" <==> !e.isActive && e.isCommented
    ensures s == "Not Configured" <==> !e.isActive && !e.isCommented
  {
    if e.isActive then "Currently Active" else if e.isCommented then "Commented Out" else "Not Configured"
  }

  /** The symbol and the text always describe the same state. */
  lemma StatusAgrees(e: Extension)
    ensures Status(e) == "\U{2713}" <==> StatusText(e) == "Currently Active"
    ensures Status(e) == "#" <==> StatusText(e) == "Commented Out"
    ensures Status(e) == "\U{25CB}" <==> StatusText(e) == "Not Configured"
  {
  }

  datatype Category = Category(name: string, extensions: seq<Extension>)

  /** The number of active extensions in a list. */
  function CountActive(es: seq<Extension>): (n: nat)
    ensures n <= |es|
    ensures n == |es| <==> forall i :: 0 <= i < |es| ==> es[i].isActive
    ensures n == 0 <==> forall i :: 0 <= i < |es| ==> !es[i].isActive
    decreases |es|
  {
    if |es| == 0 then 0
    else CountActive(es[..|es| - 1]) + (if es[|es| - 1].isActive then 1 else 0)
  }

  /** Counting distributes over concatenation. */
  lemma {:induction false} CountActiveConcat(a: seq<Extension>, b: seq<Extension>)
    ensures CountActive(a + b) == CountActive(a) + CountActive(b)
    decreases |b|
  {
    if |b| == 0 {
      assert a + b == a;
    } else {
      assert (a + b)[..|a + b| - 1] == a + b[..|b| - 1];
      CountActiveConcat(a, b[..|b| - 1]);
    }
  }

  /** `Category.active_count`: it counts the flag read from the file, not the
      current selection. */
  function ActiveCount(c: Category): (n: nat)
    ensures n <= TotalCount(c)
    ensures n == TotalCount(c) <==> forall i :: 0 <= i < |c.extensions| ==> c.extensions[i].isActive
    ensures n == 0 <==> forall i :: 0 <= i < |c.extensions| ==> !c.extensions[i].isActive
  {
    CountActive(c.extensions)
  }

  /** `Category.total_count` */
  function TotalCount(c: Category): nat {
    |c.extensions|
  }

  // ---------------------------------------------------------------------------
  // parsing `extensions.json` line by line

  /** `id` is what follows the first `"` of `t` at index `i`, up to the next
      `"` or the end of `t`. */
  predicate QuotedIdAt(t: string, i: nat, id: string) {
    && i < |t| && t[i] == '"' && Lacks(t[..i], '"') && Lacks(id, '"')
    && i + 1 + |id| <= |t| && t[i + 1..i + 1 + |id|] == id
    && (i + 1 + |id| == |t| || t[i + 1 + |id|] == '"')
  }

  /** The second piece of `t.split('"')` is the text after the first quote. */
  lemma SecondPiece(t: string)
    requires !Lacks(t, '"')
    ensures |SplitOn(t, {'"'})| >= 2
    ensures exists i :: QuotedIdAt(t, i, SplitOn(t, {'"'})[1])
  {
    var i := FirstOccurrence(t, '"');
    var a, b := t[..i], t[i + 1..];
    assert t == a + ['"'] + b;
    SplitOnConcat(a, '"', b, {'"'});
    SplitOnWithout(a, {'"'});
    SplitFirstPiece(b, {'"'});
    var p := SplitOn(b, {'"'})[0];
    assert SplitOn(t, {'"'})[1] == p;
    assert t[i + 1..i + 1 + |p|] == b[..|p|];
    assert QuotedIdAt(t, i, p);
  }

  /** One line of the file: `None` when it is skipped, otherwise the id and
      whether the line is a `//` comment. */
  function ParseLine(raw: string): (r: Option<(string, bool)>)
    ensures r.None? <==> Lacks(raw, '"')
    ensures r.Some? ==> (r.value.1 <==> StartsWith(Strip(raw), "//"))
    ensures r.Some? ==> exists i :: QuotedIdAt(Strip(raw), i, r.value.0)
  {
    var line := Strip(raw);
    StripLacks(raw, '"');
    if line == "" || Lacks(line, '"') then None
    else
      var commented := StartsWith(LStrip(line), "//");
      var parts := SplitOn(line, {'"'});
      SecondPiece(line);
      if |parts| >= 2 then Some((parts[1], commented)) else None
  }

  /** The ids of parsed lines, split into active and commented ones. */
  function Collect(ps: seq<Option<(string, bool)>>): (r: (set<string>, set<string>))
    decreases |ps|
  {
    if |ps| == 0 then ({}, {})
    else
      var rest := Collect(ps[..|ps| - 1]);
      match ps[|ps| - 1]
      case None => rest
      case Some((id, commented)) =>
        if commented then (rest.0, rest.1 + {id}) else (rest.0 + {id}, rest.1)
  }

  lemma {:induction false} CollectMembers(ps: seq<Option<(string, bool)>>)
    ensures forall id :: id in Collect(ps).0 <==> exists i :: 0 <= i < |ps| && ps[i] == Some((id, false))
    ensures forall id :: id in Collect(ps).1 <==> exists i :: 0 <= i < |ps| && ps[i] == Some((id, true))
    decreases |ps|
  {
    if |ps| > 0 {
      var init := ps[..|ps| - 1];
      CollectMembers(init);
      assert forall i :: 0 <= i < |init| ==> init[i] == ps[i];
    }
  }

  /** The ids of the lines, split into active and commented ones: an id is
      active exactly when some line parses to it uncommented, and commented
      exactly when some line parses to it behind `//`. */
  function ParseLines(lines: seq<string>): (r: (set<string>, set<string>))
    ensures forall id :: id in r.0 <==> exists i :: 0 <= i < |lines| && ParseLine(lines[i]) == Some((id, false))
    ensures forall id :: id in r.1 <==> exists i :: 0 <= i < |lines| && ParseLine(lines[i]) == Some((id, true))
  {
    var ps := ParseEach(lines);
    CollectMembers(ps);
    Collect(ps)
  }

  function ParseEach(lines: seq<string>): (ps: seq<Option<(string, bool)>>)
    ensures |ps| == |lines| && forall i :: 0 <= i < |lines| ==> ps[i] == ParseLine(lines[i])
  {
    seq(|lines|, i requires 0 <= i < |lines| => ParseLine(lines[i]))
  }

  /** The lines of a text file as `for line in f` reads them in universal
      newline mode, where `\n`, `\r` and `\r\n` each end a line. Splitting at
      every `\n` and `\r` turns a `\r\n` into a break and an empty line, and
      the parser skips empty lines. */
  function Lines(text: string): (r: seq<string>)
    ensures |r| >= 1
    ensures forall i, k :: 0 <= i < |r| && 0 <= k < |r[i]| ==> r[i][k] != '\n' && r[i][k] != '\r'
  {
    SplitOn(text, {'\n', '\r'})
  }

  /** Lines joined by `\n` split back into the same lines. */
  lemma LinesJoin(ls: seq<string>)
    requires |ls| >= 1
    requires forall i, k :: 0 <= i < |ls| && 0 <= k < |ls[i]| ==> ls[i][k] != '\n' && ls[i][k] != '\r'
    ensures Lines(Join(ls, "\n")) == ls
  {
    SplitJoin(ls, '\n', {'\n', '\r'});
  }

  /** `parse_extensions_json`: a missing file has no ids. */
  function ParseExtensionsJson(file: Option<string>): (r: (set<string>, set<string>))
    ensures file.None? ==> r == ({}, {})
    ensures file.Some? ==> r == ParseLines(Lines(file.value))
  {
    match file
    case None => ({}, {})
    case Some(text) => ParseLines(Lines(text))
  }

  /** A line with a quote parses to the second quote-separated piece of the
      stripped line. */
  lemma ParseQuotedLine(raw: string, t: string)
    requires Strip(raw) == t && !Lacks(t, '"')
    ensures |SplitOn(t, {'"'})| >= 2
    ensures ParseLine(raw) == Some((SplitOn(t, {'"'})[1], StartsWith(t, "//")))
  {
    StripEnds(raw);
    LStripNonSpace(t);
    SecondPiece(t);
  }

  /** The piece after the first quote of a quoted id is the id. */
  lemma QuotedSplit(q: string, id: string, rest: string)
    requires Lacks(q, '"') && Lacks(id, '"')
    ensures |SplitOn(q + "\"" + id + "\"" + rest, {'"'})| >= 2
    ensures SplitOn(q + "\"" + id + "\"" + rest, {'"'})[1] == id
  {
    assert q + "\"" + id + "\"" + rest == q + ['"'] + (id + ['"'] + rest);
    SplitOnConcat(q, '"', id + ['"'] + rest, {'"'});
    SplitOnConcat(id, '"', rest, {'"'});
    SplitOnWithout(q, {'"'});
    SplitOnWithout(id, {'"'});
  }

  /** Leading whitespace and trailing text do not move the quoted part. */
  lemma StripEntry(indent: string, q: string, id: string, tail: string)
    requires AllSpace(indent) && (|q| == 0 || !IsSpace(q[0]))
    ensures Strip(indent + q + "\"" + id + "\"" + tail) == q + "\"" + id + "\"" + RStrip(tail)
  {
    var head := q + "\"" + id;
    var body := head + "\"" + tail;
    assert indent + q + "\"" + id + "\"" + tail == indent + body;
    LStripAfterSpace(indent, body);
    LStripNonSpace(body);
    RStripAfterQuote(head, tail);
  }

  lemma LStripNonSpace(s: string)
    requires |s| > 0 && !IsSpace(s[0])
    ensures LStrip(s) == s
  {
  }

  lemma RStripAfterQuote(head: string, tail: string)
    ensures RStrip(head + "\"" + tail) == head + "\"" + RStrip(tail)
  {
    assert head + "\"" + tail == head + ['"'] + tail;
    assert head + "\"" + RStrip(tail) == head + ['"'] + RStrip(tail);
    RStripKeeps(head, '"', tail);
  }

  /** A quoted id on a line of its own parses as active, and behind `//` as
      commented; whitespace around the line and text after the id do not matter. */
  lemma ParseEntryLine(indent: string, commented: bool, id: string, tail: string)
    requires AllSpace(indent) && Lacks(id, '"')
    ensures ParseLine(indent + (if commented then "// " else "") + "\"" + id + "\"" + tail) == Some((id, commented))
  {
    if commented {
      ParseMarkedLine(indent, "// ", id, tail);
    } else {
      ParseMarkedLine(indent, "", id, tail);
    }
  }

  lemma ParseMarkedLine(indent: string, q: string, id: string, tail: string)
    requires AllSpace(indent) && Lacks(id, '"')
    requires q == "// " || q == ""
    ensures ParseLine(indent + q + "\"" + id + "\"" + tail) == Some((id, q != ""))
  {
    var raw := indent + q + "\"" + id + "\"" + tail;
    var t := q + "\"" + id + "\"" + RStrip(tail);
    CommentMark(q);
    assert Strip(raw) == t by {
      StripEntry(indent, q, id, tail);
    }
    assert |SplitOn(t, {'"'})| >= 2 && SplitOn(t, {'"'})[1] == id by {
      QuotedSplit(q, id, RStrip(tail));
    }
    assert !Lacks(t, '"') && (StartsWith(t, "//") <==> q != "") by {
      MarkedText(q, id, RStrip(tail));
    }
    ParseQuotedLine(raw, t);
  }

  lemma CommentMark(q: string)
    requires q == "// " || q == ""
    ensures Lacks(q, '"') && (|q| == 0 || !IsSpace(q[0]))
  {
    if q != "" {
      assert q[0] == '/' && q[1] == '/' && q[2] == ' ';
    }
  }

  lemma MarkedText(q: string, id: string, rest: string)
    requires q == "// " || q == ""
    ensures var t := q + "\"" + id + "\"" + rest;
      !Lacks(t, '"') && (StartsWith(t, "//") <==> q != "")
  {
    var t := q + "\"" + id + "\"" + rest;
    assert t[|q|] == '"';
    if q == "" {
      assert t[0] == '"';
    } else {
      assert t[..2] == "//";
    }
  }

  // ---------------------------------------------------------------------------
  // loading

  /** One record of the catalogue file; absent keys are `None`. */
  datatype CatalogueEntry = CatalogueEntry(
    id: string,
    description: Option<string>,
    category: Option<string>,
    nix: Option<string>)

  const NotInDatabase := "(not in database)"
  const UnknownCategory := "unknown"

  /** An extension described by the catalogue, flagged from the parsed file. */
  function FromCatalogue(d: CatalogueEntry, active: set<string>, commented: set<string>): Extension {
    Extension(d.id, d.description.GetOr(""), d.category.GetOr(UnknownCategory), d.nix,
      d.id in active, d.id in commented)
  }

  /** An extension named in the file but not in the catalogue. */
  function Placeholder(id: string, active: set<string>, commented: set<string>): Extension {
    Extension(id, NotInDatabase, UnknownCategory, None, id in active, id in commented)
  }

  /** `extensions_by_id` filled in order: a later extension with the same id
      replaces an earlier one. */
  function Index(es: seq<Extension>): (m: map<string, Extension>)
    ensures m.Keys == set i | 0 <= i < |es| :: es[i].id
    decreases |es|
  {
    if |es| == 0 then map[]
    else
      var init := es[..|es| - 1];
      var last := es[|es| - 1];
      var m := Index(init);
      assert forall i :: 0 <= i < |init| ==> init[i] == es[i];
      m[last.id := last]
  }

  /** Each id maps to an extension carrying that id. */
  lemma {:induction false} IndexKeysMatch(es: seq<Extension>)
    ensures forall id :: id in Index(es) ==> Index(es)[id].id == id
    decreases |es|
  {
    if |es| > 0 {
      IndexKeysMatch(es[..|es| - 1]);
    }
  }

  /** Each id maps to the last extension that carries it. */
  lemma {:induction false} IndexHoldsLast(es: seq<Extension>)
    ensures forall id :: id in Index(es) ==>
      exists i :: 0 <= i < |es| && es[i] == Index(es)[id] && forall j :: i < j < |es| ==> es[j].id != id
    decreases |es|
  {
    if |es| > 0 {
      var init := es[..|es| - 1];
      var last := es[|es| - 1];
      IndexHoldsLast(init);
      forall id | id in Index(es)
        ensures exists i :: 0 <= i < |es| && es[i] == Index(es)[id] && forall j :: i < j < |es| ==> es[j].id != id
      {
        if id == last.id {
          assert es[|es| - 1] == Index(es)[id];
        } else {
          var i :| 0 <= i < |init| && init[i] == Index(init)[id] && forall j :: i < j < |init| ==> init[j].id != id;
          assert es[i] == Index(es)[id];
          NoLaterId(es, init, id, i);
        }
      }
    }
  }

  /** No extension after `i` carries `id` when none before the last does
      and the last carries another id. */
  lemma NoLaterId(es: seq<Extension>, init: seq<Extension>, id: string, i: nat)
    requires |es| > 0 && init == es[..|es| - 1] && es[|es| - 1].id != id
    requires i < |init| && forall j :: i < j < |init| ==> init[j].id != id
    ensures forall j :: i < j < |es| ==> es[j].id != id
  {
    forall j | i < j < |es|
      ensures es[j].id != id
    {
      if j < |init| {
        assert init[j] == es[j];
      }
    }
  }

  /** The extensions of category `c`, in their original order. */
  function InCategory(es: seq<Extension>, c: string): (r: seq<Extension>)
    ensures forall e :: e in r <==> e in es && e.category == c
    ensures |r| <= |es|
    decreases |es|
  {
    if |es| == 0 then []
    else
      var rest := InCategory(es[..|es| - 1], c);
      assert forall e :: e in es <==> e in es[..|es| - 1] || e == es[|es| - 1];
      if es[|es| - 1].category == c then rest + [es[|es| - 1]] else rest
  }

  /** A non-empty category list has a source extension. */
  lemma InCategoryWitness(es: seq<Extension>, c: string)
    requires |InCategory(es, c)| > 0
    ensures exists i :: 0 <= i < |es| && es[i].category == c
  {
    var e := InCategory(es, c)[0];
    assert e in InCategory(es, c);
  }

  /** The per-category lists built by appending each extension to the list of
      its category. */
  function Group(es: seq<Extension>): (m: map<string, seq<Extension>>)
    ensures m.Keys == set i | 0 <= i < |es| :: es[i].category
    decreases |es|
  {
    if |es| == 0 then map[]
    else
      var init := es[..|es| - 1];
      var last := es[|es| - 1];
      var m := Group(init);
      assert forall i :: 0 <= i < |init| ==> init[i] == es[i];
      m[last.category := (if last.category in m then m[last.category] else []) + [last]]
  }

  /** Each list is the category's extensions in their original order. */
  lemma {:induction false} GroupLists(es: seq<Extension>)
    ensures forall c :: c in Group(es) ==> Group(es)[c] == InCategory(es, c) && |Group(es)[c]| > 0
    decreases |es|
  {
    if |es| > 0 {
      var init := es[..|es| - 1];
      GroupLists(init);
      var last := es[|es| - 1];
      assert forall c :: c != last.category ==> InCategory(es, c) == InCategory(init, c);
      if last.category !in Group(init) {
        if |InCategory(init, last.category)| > 0 {
          InCategoryWitness(init, last.category);
          assert false;
        }
      }
    }
  }

  predicate SortedById(es: seq<Extension>) {
    forall i, j :: 0 <= i < j < |es| ==> LexLe(es[i].id, es[j].id)
  }

  /** Inserts `e` after every leading extension whose id is not greater. */
  function InsertById(e: Extension, es: seq<Extension>): seq<Extension>
    decreases |es|
  {
    if |es| == 0 then [e]
    else if LexLe(es[0].id, e.id) then [es[0]] + InsertById(e, es[1..])
    else [e] + es
  }

  lemma {:induction false} InsertKeeps(e: Extension, es: seq<Extension>)
    ensures multiset(InsertById(e, es)) == multiset(es) + multiset{e}
    decreases |es|
  {
    if |es| > 0 {
      assert es == [es[0]] + es[1..];
      InsertKeeps(e, es[1..]);
    }
  }

  lemma {:induction false} InsertSorted(e: Extension, es: seq<Extension>)
    requires SortedById(es)
    ensures SortedById(InsertById(e, es))
    decreases |es|
  {
    if |es| > 0 {
      if LexLe(es[0].id, e.id) {
        var rest := InsertById(e, es[1..]);
        InsertSorted(e, es[1..]);
        InsertAbove(e, es[1..], es[0].id);
        ConsSortedById(es[0], rest);
        assert InsertById(e, es) == [es[0]] + rest;
      } else {
        LexLeTotal(es[0].id, e.id);
        forall k | 0 <= k < |es|
          ensures LexLe(e.id, es[k].id)
        {
          if k > 0 {
            LexLeTransitive(e.id, es[0].id, es[k].id);
          }
        }
        ConsSortedById(e, es);
      }
    }
  }

  /** A bound below `e` and every member of `es` stays below the insertion. */
  lemma {:induction false} InsertAbove(e: Extension, es: seq<Extension>, lo: string)
    requires LexLe(lo, e.id) && forall k :: 0 <= k < |es| ==> LexLe(lo, es[k].id)
    ensures forall k :: 0 <= k < |InsertById(e, es)| ==> LexLe(lo, InsertById(e, es)[k].id)
    decreases |es|
  {
    if |es| > 0 && LexLe(es[0].id, e.id) {
      InsertAbove(e, es[1..], lo);
      assert InsertById(e, es) == [es[0]] + InsertById(e, es[1..]);
    }
  }

  lemma ConsSortedById(x: Extension, es: seq<Extension>)
    requires SortedById(es) && forall k :: 0 <= k < |es| ==> LexLe(x.id, es[k].id)
    ensures SortedById([x] + es)
  {
    var r := [x] + es;
    forall i, j | 0 <= i < j < |r|
      ensures LexLe(r[i].id, r[j].id)
    {
      assert r[j] == es[j - 1];
      if i > 0 {
        assert r[i] == es[i - 1];
      }
    }
  }

  /** `sorted(es, key=lambda e: e.id)`: an insertion sort that places each
      extension after those before it with an equal id, so it is stable. */
  function SortById(es: seq<Extension>): seq<Extension>
    decreases |es|
  {
    if |es| == 0 then []
    else InsertById(es[|es| - 1], SortById(es[..|es| - 1]))
  }

  /** Sorting orders by id and keeps every extension as often as it occurs. */
  lemma SortByIdSorts(es: seq<Extension>)
    ensures SortedById(SortById(es))
    ensures multiset(SortById(es)) == multiset(es)
  {
    SortByIdOrders(es);
    SortByIdKeeps(es);
  }

  lemma {:induction false} SortByIdOrders(es: seq<Extension>)
    ensures SortedById(SortById(es))
    decreases |es|
  {
    if |es| > 0 {
      SortByIdOrders(es[..|es| - 1]);
      InsertSorted(es[|es| - 1], SortById(es[..|es| - 1]));
    }
  }

  lemma {:induction false} SortByIdKeeps(es: seq<Extension>)
    ensures multiset(SortById(es)) == multiset(es)
    decreases |es|
  {
    if |es| > 0 {
      var init := es[..|es| - 1];
      SortByIdKeeps(init);
      InsertKeeps(es[|es| - 1], SortById(init));
      assert es == init + [es[|es| - 1]];
    }
  }

  /** The state the selector works on. */
  datatype SelectorState = SelectorState(
    categories: seq<Category>,
    byId: map<string, Extension>,
    selected: set<string>)

  /** Every selected id names a known extension, stored under its own id. */
  predicate Valid(st: SelectorState) {
    && st.selected <= st.byId.Keys
    && forall id :: id in st.byId ==> st.byId[id].id == id
  }

  function CatalogueIds(catalogue: seq<CatalogueEntry>): set<string> {
    set i | 0 <= i < |catalogue| :: catalogue[i].id
  }

  /** The ids the file names that the catalogue lacks, in ascending order. */
  function MissingIds(catalogue: seq<CatalogueEntry>, active: set<string>, commented: set<string>): seq<string> {
    SortedList((active + commented) - CatalogueIds(catalogue))
  }

  /** The catalogue entries as extensions, then a placeholder for each missing id. */
  function Loaded(catalogue: seq<CatalogueEntry>, active: set<string>, commented: set<string>): seq<Extension> {
    var missing := MissingIds(catalogue, active, commented);
    seq(|catalogue|, i requires 0 <= i < |catalogue| => FromCatalogue(catalogue[i], active, commented))
    + seq(|missing|, k requires 0 <= k < |missing| => Placeholder(missing[k], active, commented))
  }

  /** What `Loaded` produces, stated without building it: the catalogue's
      extensions in order, then one placeholder per id in `missing`. */
  ghost predicate Shaped(all: seq<Extension>, catalogue: seq<CatalogueEntry>, missing: seq<string>,
                   active: set<string>, commented: set<string>)
  {
    && |all| == |catalogue| + |missing|
    && (forall i :: 0 <= i < |catalogue| ==> all[i] == FromCatalogue(catalogue[i], active, commented))
    && (forall k :: 0 <= k < |missing| ==> all[|catalogue| + k] == Placeholder(missing[k], active, commented))
    && (forall x :: x in missing <==> x in active + commented && x !in CatalogueIds(catalogue))
  }

  lemma LoadedShape(catalogue: seq<CatalogueEntry>, active: set<string>, commented: set<string>)
    ensures Shaped(Loaded(catalogue, active, commented), catalogue, MissingIds(catalogue, active, commented), active, commented)
  {
  }

  /** The body of `load_data` once the file is parsed: index every extension,
      group by category, sort the categories by name and each category's
      extensions by id, and select the active ones. Python visits the missing
      ids in set order; since they are distinct from every catalogue id and
      each category is re-sorted by id, ascending order gives the same state. */
  function LoadFrom(catalogue: seq<CatalogueEntry>, active: set<string>, commented: set<string>): SelectorState {
    var all := Loaded(catalogue, active, commented);
    SelectorState(Categorise(Group(all)), Index(all), ActiveIds(all))
  }

  /** The categories' names, in order. */
  function Names(cs: seq<Category>): (r: seq<string>)
    ensures |r| == |cs| && forall k :: 0 <= k < |cs| ==> r[k] == cs[k].name
  {
    seq(|cs|, k requires 0 <= k < |cs| => cs[k].name)
  }

  /** One category per key, in ascending name order, each sorted by id. */
  function Categorise(groups: map<string, seq<Extension>>): seq<Category> {
    var names := SortedList(groups.Keys);
    seq(|names|, k requires 0 <= k < |names| => Category(names[k], SortById(groups[names[k]])))
  }

  /** The ids of the active extensions. */
  function ActiveIds(all: seq<Extension>): set<string> {
    set e | e in all && e.isActive :: e.id
  }

  /** `load_data`: every catalogue id and every id the file names is known,
      the file's active ids are selected, and the state is valid. */
  function LoadData(catalogue: seq<CatalogueEntry>, file: Option<string>): (r: SelectorState)
    ensures var parsed := ParseExtensionsJson(file);
      && r.byId.Keys == CatalogueIds(catalogue) + parsed.0 + parsed.1
      && r.selected == parsed.0
      && Valid(r)
  {
    var parsed := ParseExtensionsJson(file);
    LoadedKeys(catalogue, parsed.0, parsed.1);
    LoadedSelection(catalogue, parsed.0, parsed.1);
    LoadFrom(catalogue, parsed.0, parsed.1)
  }

  /** What opening `extensions.json` gives: no file, a file that exists but
      cannot be opened or decoded (the exception's text), or its text. */
  datatype ExtensionsFile = NoFile | Unreadable(reason: string) | Readable(text: string)

  /** `parse_extensions_json` with its reading: the existence test lets a
      missing file through with no ids, an existing file that cannot be read
      raises, and a readable one is parsed line by line. */
  function ReadExtensionsJson(f: ExtensionsFile): (r: Result<(set<string>, set<string>), string>)
    ensures r.Failure? <==> f.Unreadable?
    ensures r.Failure? ==> r.error == f.reason
    ensures f.NoFile? ==> r == Success(({}, {}))
    ensures f.Readable? ==> r == Success(ParseLines(Lines(f.text)))
  {
    match f
    case NoFile => Success(ParseExtensionsJson(None))
    case Unreadable(reason) => Failure(reason)
    case Readable(text) => Success(ParseExtensionsJson(Some(text)))
  }

  const LoadErrorPrefix := "Error loading data: "

  /** `on_mount`: load the data, or end the application with the error when
      reading `extensions.json` raises. */
  function Mount(catalogue: seq<CatalogueEntry>, f: ExtensionsFile): (r: Result<SelectorState, string>)
    ensures r.Failure? <==> f.Unreadable?
    ensures r.Failure? ==> r.error == LoadErrorPrefix + f.reason
    ensures r.Success? ==> var parsed := ReadExtensionsJson(f).value;
      && r.value.byId.Keys == CatalogueIds(catalogue) + parsed.0 + parsed.1
      && r.value.selected == parsed.0
      && Valid(r.value)
  {
    match f
    case Unreadable(reason) => Failure(LoadErrorPrefix + reason)
    case NoFile => Success(LoadData(catalogue, None))
    case Readable(text) => Success(LoadData(catalogue, Some(text)))
  }

  lemma ShapedKeys(all: seq<Extension>, catalogue: seq<CatalogueEntry>, missing: seq<string>,
                   active: set<string>, commented: set<string>)
    requires Shaped(all, catalogue, missing, active, commented)
    ensures Index(all).Keys == CatalogueIds(catalogue) + active + commented
  {
    forall id | id in Index(all)
      ensures id in CatalogueIds(catalogue) + active + commented
    {
      var i :| 0 <= i < |all| && all[i].id == id;
      if i < |catalogue| {
        assert catalogue[i].id == id;
      } else {
        assert missing[i - |catalogue|] == id;
      }
    }
    forall id | id in CatalogueIds(catalogue) + active + commented
      ensures id in Index(all)
    {
      if id in CatalogueIds(catalogue) {
        var i :| 0 <= i < |catalogue| && catalogue[i].id == id;
        assert all[i].id == id;
      } else {
        assert id in missing;
        var k :| 0 <= k < |missing| && missing[k] == id;
        assert all[|catalogue| + k].id == id;
      }
    }
  }

  /** The known ids are exactly the catalogue's ids and the ids the file names. */
  lemma LoadedKeys(catalogue: seq<CatalogueEntry>, active: set<string>, commented: set<string>)
    ensures LoadFrom(catalogue, active, commented).byId.Keys == CatalogueIds(catalogue) + active + commented
  {
    LoadedShape(catalogue, active, commented);
    ShapedKeys(Loaded(catalogue, active, commented), catalogue, MissingIds(catalogue, active, commented), active, commented);
  }

  lemma ShapedFlags(all: seq<Extension>, catalogue: seq<CatalogueEntry>, missing: seq<string>,
                    active: set<string>, commented: set<string>)
    requires Shaped(all, catalogue, missing, active, commented)
    ensures forall i :: 0 <= i < |all| ==>
      (all[i].isActive <==> all[i].id in active) && (all[i].isCommented <==> all[i].id in commented)
  {
    forall i | 0 <= i < |all|
      ensures (all[i].isActive <==> all[i].id in active) && (all[i].isCommented <==> all[i].id in commented)
    {
      if i >= |catalogue| {
        assert all[i] == Placeholder(missing[i - |catalogue|], active, commented);
      }
    }
  }

  lemma ShapedEntryFlags(all: seq<Extension>, catalogue: seq<CatalogueEntry>, missing: seq<string>,
                         active: set<string>, commented: set<string>)
    requires Shaped(all, catalogue, missing, active, commented)
    ensures forall id :: id in Index(all) ==>
      && Index(all)[id].id == id
      && (Index(all)[id].isActive <==> id in active)
      && (Index(all)[id].isCommented <==> id in commented)
  {
    ShapedFlags(all, catalogue, missing, active, commented);
    IndexKeysMatch(all);
    IndexHoldsLast(all);
  }

  lemma ShapedPlaceholders(all: seq<Extension>, catalogue: seq<CatalogueEntry>, missing: seq<string>,
                           active: set<string>, commented: set<string>)
    requires Shaped(all, catalogue, missing, active, commented)
    ensures forall id :: id in Index(all) && id !in CatalogueIds(catalogue) ==>
      Index(all)[id] == Placeholder(id, active, commented)
  {
    IndexKeysMatch(all);
    IndexHoldsLast(all);
    forall id | id in Index(all) && id !in CatalogueIds(catalogue)
      ensures Index(all)[id] == Placeholder(id, active, commented)
    {
      var i :| 0 <= i < |all| && all[i] == Index(all)[id] && forall j :: i < j < |all| ==> all[j].id != id;
      if i >= |catalogue| {
        assert all[i] == Placeholder(missing[i - |catalogue|], active, commented);
      }
    }
  }

  lemma PlaceholderUncatalogued(all: seq<Extension>, catalogue: seq<CatalogueEntry>, missing: seq<string>,
                                active: set<string>, commented: set<string>, i: nat)
    requires Shaped(all, catalogue, missing, active, commented)
    requires |catalogue| <= i < |all|
    ensures all[i].id !in CatalogueIds(catalogue)
  {
    assert all[i].id == missing[i - |catalogue|];
  }

  lemma ShapedLastEntry(all: seq<Extension>, catalogue: seq<CatalogueEntry>, missing: seq<string>,
                        active: set<string>, commented: set<string>)
    requires Shaped(all, catalogue, missing, active, commented)
    ensures forall id :: id in Index(all) && id in CatalogueIds(catalogue) ==>
      exists i :: (0 <= i < |catalogue| && catalogue[i].id == id
        && Index(all)[id] == FromCatalogue(catalogue[i], active, commented)
        && forall j :: i < j < |catalogue| ==> catalogue[j].id != id)
  {
    IndexKeysMatch(all);
    IndexHoldsLast(all);
    forall id | id in Index(all) && id in CatalogueIds(catalogue)
      ensures exists i :: (0 <= i < |catalogue| && catalogue[i].id == id
        && Index(all)[id] == FromCatalogue(catalogue[i], active, commented)
        && forall j :: i < j < |catalogue| ==> catalogue[j].id != id)
    {
      var i :| 0 <= i < |all| && all[i] == Index(all)[id] && forall j :: i < j < |all| ==> all[j].id != id;
      if i >= |catalogue| {
        PlaceholderUncatalogued(all, catalogue, missing, active, commented, i);
        assert false;
      }
      assert catalogue[i].id == id;
      forall j | i < j < |catalogue|
        ensures catalogue[j].id != id
      {
        assert all[j].id == catalogue[j].id;
      }
    }
  }

  /** Each id maps to an extension with that id whose flags come from the
      file; an id the catalogue lists maps to its last catalogue entry, and any
      other id to a placeholder. */
  lemma LoadedEntries(catalogue: seq<CatalogueEntry>, active: set<string>, commented: set<string>)
    ensures var byId := LoadFrom(catalogue, active, commented).byId;
      && (forall id :: id in byId ==>
            && byId[id].id == id
            && (byId[id].isActive <==> id in active)
            && (byId[id].isCommented <==> id in commented))
      && (forall id :: id in byId && id !in CatalogueIds(catalogue) ==>
            byId[id] == Placeholder(id, active, commented))
      && (forall id :: id in byId && id in CatalogueIds(catalogue) ==>
            exists i :: (0 <= i < |catalogue| && catalogue[i].id == id
              && byId[id] == FromCatalogue(catalogue[i], active, commented)
              && forall j :: i < j < |catalogue| ==> catalogue[j].id != id))
  {
    var all := Loaded(catalogue, active, commented);
    var missing := MissingIds(catalogue, active, commented);
    LoadedShape(catalogue, active, commented);
    ShapedEntryFlags(all, catalogue, missing, active, commented);
    ShapedPlaceholders(all, catalogue, missing, active, commented);
    ShapedLastEntry(all, catalogue, missing, active, commented);
  }

  lemma ShapedSelection(all: seq<Extension>, catalogue: seq<CatalogueEntry>, missing: seq<string>,
                        active: set<string>, commented: set<string>)
    requires Shaped(all, catalogue, missing, active, commented)
    ensures ActiveIds(all) == active
  {
    ShapedKeys(all, catalogue, missing, active, commented);
    ShapedFlags(all, catalogue, missing, active, commented);
    forall id | id in active
      ensures id in ActiveIds(all)
    {
      assert id in Index(all);
      var i :| 0 <= i < |all| && all[i].id == id;
      assert all[i] in all;
    }
  }

  /** The selection starts as the active ids of the file, and the state is valid. */
  lemma LoadedSelection(catalogue: seq<CatalogueEntry>, active: set<string>, commented: set<string>)
    ensures LoadFrom(catalogue, active, commented).selected == active
    ensures Valid(LoadFrom(catalogue, active, commented))
  {
    var all := Loaded(catalogue, active, commented);
    var missing := MissingIds(catalogue, active, commented);
    LoadedShape(catalogue, active, commented);
    ShapedSelection(all, catalogue, missing, active, commented);
    ShapedKeys(all, catalogue, missing, active, commented);
    IndexKeysMatch(all);
  }

  /** Categorising keeps every group: one category per key, holding the
      group's extensions. */
  lemma CategoriseKeeps(groups: map<string, seq<Extension>>)
    ensures var cs := Categorise(groups);
      && (forall k :: 0 <= k < |cs| ==> cs[k].name in groups && multiset(cs[k].extensions) == multiset(groups[cs[k].name]))
      && (forall c :: c in groups ==> exists k :: 0 <= k < |cs| && cs[k].name == c)
  {
    var cs := Categorise(groups);
    var names := SortedList(groups.Keys);
    forall k | 0 <= k < |cs|
      ensures cs[k].name in groups && multiset(cs[k].extensions) == multiset(groups[cs[k].name])
    {
      SortByIdSorts(groups[names[k]]);
    }
    forall c | c in groups
      ensures exists k :: 0 <= k < |cs| && cs[k].name == c
    {
      assert c in names;
      var k :| 0 <= k < |names| && names[k] == c;
      assert cs[k].name == c;
    }
  }

  /** Each category's extensions are those of its group, sorted by id. */
  lemma CategoriseSorts(groups: map<string, seq<Extension>>)
    requires forall c :: c in groups ==> |groups[c]| > 0 && forall e :: e in groups[c] ==> e.category == c
    ensures var cs := Categorise(groups);
      && StrictlySorted(Names(cs))
      && (forall k :: 0 <= k < |cs| ==>
            && |cs[k].extensions| > 0
            && SortedById(cs[k].extensions)
            && forall e :: e in cs[k].extensions ==> e.category == cs[k].name)
  {
    var cs := Categorise(groups);
    var names := SortedList(groups.Keys);
    assert Names(cs) == names;
    forall k | 0 <= k < |cs|
      ensures |cs[k].extensions| > 0
      ensures SortedById(cs[k].extensions)
      ensures forall e :: e in cs[k].extensions ==> e.category == cs[k].name
    {
      var es := groups[names[k]];
      SortByIdSorts(es);
      assert es[0] in multiset(cs[k].extensions);
      forall e | e in cs[k].extensions
        ensures e.category == names[k]
      {
        assert e in multiset(es);
      }
    }
  }

  /** The groups `Group` builds are non-empty and hold only their own category. */
  lemma GroupsWellFormed(all: seq<Extension>)
    ensures forall c :: c in Group(all) ==>
      |Group(all)[c]| > 0 && forall e: Extension :: e in Group(all)[c] ==> e.category == c
  {
    GroupLists(all);
  }

  /** Categories that keep every group list every indexed extension. */
  lemma ListedIn(all: seq<Extension>, cs: seq<Category>)
    requires forall k :: 0 <= k < |cs| ==> cs[k].name in Group(all) && multiset(cs[k].extensions) == multiset(Group(all)[cs[k].name])
    requires forall c :: c in Group(all) ==> exists k :: 0 <= k < |cs| && cs[k].name == c
    ensures forall id :: id in Index(all) ==> exists k :: 0 <= k < |cs| && Index(all)[id] in cs[k].extensions
  {
    var groups := Group(all);
    GroupLists(all);
    IndexHoldsLast(all);
    forall id | id in Index(all)
      ensures exists k :: 0 <= k < |cs| && Index(all)[id] in cs[k].extensions
    {
      var e := Index(all)[id];
      var i :| 0 <= i < |all| && all[i] == e && forall j :: i < j < |all| ==> all[j].id != id;
      assert e.category in groups;
      var k :| 0 <= k < |cs| && cs[k].name == e.category;
      assert e in groups[e.category];
      assert e in multiset(cs[k].extensions);
    }
  }

  /** Grouping then categorising lists every indexed extension. */
  lemma IndexedAreCategorised(all: seq<Extension>)
    ensures var cs := Categorise(Group(all));
      forall id :: id in Index(all) ==> exists k :: 0 <= k < |cs| && Index(all)[id] in cs[k].extensions
  {
    CategoriseKeeps(Group(all));
    ListedIn(all, Categorise(Group(all)));
  }

  /** The categories as loaded: names strictly ascending, each non-empty and
      holding only extensions of its own name, sorted by id. */
  lemma LoadedCategories(catalogue: seq<CatalogueEntry>, active: set<string>, commented: set<string>)
    ensures var cs := LoadFrom(catalogue, active, commented).categories;
      && StrictlySorted(Names(cs))
      && (forall k :: 0 <= k < |cs| ==>
            && |cs[k].extensions| > 0
            && SortedById(cs[k].extensions)
            && forall e :: e in cs[k].extensions ==> e.category == cs[k].name)
  {
    var all := Loaded(catalogue, active, commented);
    GroupsWellFormed(all);
    CategoriseSorts(Group(all));
  }

  /** Every indexed extension is listed under its category. */
  lemma LoadedAreListed(catalogue: seq<CatalogueEntry>, active: set<string>, commented: set<string>)
    ensures var st := LoadFrom(catalogue, active, commented);
      forall id :: id in st.byId ==> exists k :: 0 <= k < |st.categories| && st.byId[id] in st.categories[k].extensions
  {
    IndexedAreCategorised(Loaded(catalogue, active, commented));
  }

  // ---------------------------------------------------------------------------
  // the selection actions

  /** `action_toggle_current`: `cursor` is the extension under the cursor,
      `None` when the cursor is on a category or nowhere. */
  function Toggle(st: SelectorState, cursor: Option<string>): (r: SelectorState)
    ensures r.categories == st.categories && r.byId == st.byId
    ensures cursor.None? ==> r == st
    ensures cursor.Some? ==> (cursor.value in r.selected <==> cursor.value !in st.selected)
    ensures forall x :: cursor != Some(x) ==> (x in r.selected <==> x in st.selected)
  {
    match cursor
    case None => st
    case Some(id) =>
      if id in st.selected then st.(selected := st.selected - {id})
      else st.(selected := st.selected + {id})
  }

  /** `action_select_all` */
  function SelectAll(st: SelectorState): (r: SelectorState)
    ensures r.categories == st.categories && r.byId == st.byId
    ensures forall id :: id in r.selected <==> id in st.byId
  {
    st.(selected := st.byId.Keys)
  }

  /** `action_deselect_all` */
  function DeselectAll(st: SelectorState): (r: SelectorState)
    ensures r.categories == st.categories && r.byId == st.byId
    ensures forall id :: id !in r.selected
  {
    st.(selected := {})
  }

  /** Toggling the same extension twice restores the selection. */
  lemma ToggleTwice(st: SelectorState, cursor: Option<string>)
    ensures Toggle(Toggle(st, cursor), cursor) == st
  {
  }

  /** Every action keeps the state valid, given that the cursor can only rest
      on an extension that the tree shows, which is an indexed one. */
  lemma ActionsKeepValid(st: SelectorState, cursor: Option<string>)
    requires Valid(st)
    requires cursor.Some? ==> cursor.value in st.byId
    ensures Valid(Toggle(st, cursor)) && Valid(SelectAll(st)) && Valid(DeselectAll(st))
  {
  }

  /** After select-all, toggling any indexed extension leaves all but that
      one selected; after deselect-all, only that one. */
  lemma ToggleAfterBulk(st: SelectorState, id: string)
    requires id in st.byId
    ensures Toggle(SelectAll(st), Some(id)).selected == st.byId.Keys - {id}
    ensures Toggle(DeselectAll(st), Some(id)).selected == {id}
  {
  }
}
