/** The content script's HTML-to-Markdown converter (`htmlToMarkdown` in
    content.js): a recursive walk over a DOM subtree with special handling
    for tables, lists, blockquotes and ARIA headings, and a fixed template
    per tag for everything else. */
module HtmlMarkdown {
  import opened Wrappers
  import opened Text
  import opened Seqs

  /** A DOM node. Element tag names are the lower-cased `tagName`. */
  datatype Node =
    | TextNode(text: string)
    | CommentNode(data: string)
    | Element(tag: string, attrs: map<string, string>, children: seq<Node>)

  /** An element found by a descendant search, with its parent's tag name
      (what `parentElement.tagName` reports). */
  datatype Found = Found(node: Node, parentTag: string)

  function Size(n: Node): (k: nat)
    ensures k >= 1
    decreases n, 1
  {
    match n
    case Element(_, _, cs) => 1 + SizeSeq(cs)
    case _ => 1
  }

  function SizeSeq(cs: seq<Node>): nat
    decreases cs, 0
  {
    if |cs| == 0 then 0 else Size(cs[0]) + SizeSeq(cs[1..])
  }

  /** Every element under `cs`, in document order (pre-order): the result of
      `querySelectorAll('*')` over a parent whose children are `cs`. */
  function ElementsIn(cs: seq<Node>, parentTag: string): (r: seq<Found>)
    ensures forall k :: 0 <= k < |r| ==> r[k].node.Element? && Size(r[k].node) <= SizeSeq(cs)
    decreases SizeSeq(cs)
  {
    if |cs| == 0 then []
    else if cs[0].Element? then
      assert Size(cs[0]) == 1 + SizeSeq(cs[0].children);
      [Found(cs[0], parentTag)] + ElementsIn(cs[0].children, cs[0].tag) + ElementsIn(cs[1..], parentTag)
    else ElementsIn(cs[1..], parentTag)
  }

  /** `n.querySelectorAll(...)` for a selector matching any of the tag names `tags`. */
  function SelectAll(n: Node, tags: set<string>): (r: seq<Found>)
    ensures forall k :: 0 <= k < |r| ==> r[k].node.Element? && r[k].node.tag in tags && Size(r[k].node) < Size(n)
  {
    match n
    case Element(tag, _, cs) => KeepTags(ElementsIn(cs, tag), tags, Size(n))
    case _ => []
  }

  function KeepTags(fs: seq<Found>, tags: set<string>, bound: nat): (r: seq<Found>)
    requires forall k :: 0 <= k < |fs| ==> fs[k].node.Element? && Size(fs[k].node) < bound
    ensures forall k :: 0 <= k < |r| ==> r[k].node.Element? && r[k].node.tag in tags && Size(r[k].node) < bound
  {
    if |fs| == 0 then []
    else (if fs[0].node.tag in tags then [fs[0]] else []) + KeepTags(fs[1..], tags, bound)
  }

  /** `n.querySelector(...)` for a tag selector: the first match, if any. */
  function SelectFirst(n: Node, tag: string): (r: Option<Found>)
    ensures r.Some? ==> r.value.node.Element? && r.value.node.tag == tag && Size(r.value.node) < Size(n)
  {
    var all := SelectAll(n, {tag});
    if |all| == 0 then None else Some(all[0])
  }

  /** Whether a found element carries one of `tags`. */
  predicate HasTag(f: Found, tags: set<string>) {
    f.node.Element? && f.node.tag in tags
  }

  function TagIn(tags: set<string>): Found -> bool {
    f => HasTag(f, tags)
  }

  /** Every element strictly inside `n`, in document order. */
  function Descendants(n: Node): seq<Found> {
    if n.Element? then ElementsIn(n.children, n.tag) else []
  }

  /** `querySelectorAll` by tag returns the elements inside the node that
      carry one of the tags, all of them and only them, in document order. */
  lemma SelectAllInOrder(n: Node, tags: set<string>)
    ensures SelectAll(n, tags) == Filter(Descendants(n), TagIn(tags))
    ensures forall f :: f in SelectAll(n, tags) <==> f in Descendants(n) && HasTag(f, tags)
  {
    if n.Element? {
      KeepTagsFilters(ElementsIn(n.children, n.tag), tags, Size(n));
    }
    FilterMembers(Descendants(n), TagIn(tags));
  }

  lemma {:induction false} KeepTagsFilters(fs: seq<Found>, tags: set<string>, bound: nat)
    requires forall k :: 0 <= k < |fs| ==> fs[k].node.Element? && Size(fs[k].node) < bound
    ensures KeepTags(fs, tags, bound) == Filter(fs, TagIn(tags))
  {
    if |fs| > 0 {
      KeepTagsFilters(fs[1..], tags, bound);
    }
  }

  /** `querySelector` by tag finds nothing exactly when no element inside
      the node carries the tag; otherwise it finds the first such element in
      document order. */
  lemma SelectFirstIsFirst(n: Node, tag: string)
    ensures var d := Descendants(n);
            && (SelectFirst(n, tag).None? <==> forall i :: 0 <= i < |d| ==> !HasTag(d[i], {tag}))
            && (SelectFirst(n, tag).Some? ==>
                  exists i :: 0 <= i < |d| && d[i] == SelectFirst(n, tag).value && HasTag(d[i], {tag})
                              && forall j :: 0 <= j < i ==> !HasTag(d[j], {tag}))
  {
    SelectAllInOrder(n, {tag});
    FilterFirst(Descendants(n), TagIn({tag}));
  }

  /** `getAttribute(name)`: `None` stands for `null`. */
  function Attr(n: Node, name: string): Option<string> {
    if n.Element? && name in n.attrs then Some(n.attrs[name]) else None
  }

  /** `textContent`: the concatenated text of every descendant text node. */
  function TextContent(n: Node): string
    decreases n, 1
  {
    match n
    case TextNode(t) => t
    case CommentNode(_) => ""
    case Element(_, _, cs) => TextContentSeq(cs)
  }

  function TextContentSeq(cs: seq<Node>): string
    decreases cs, 0
  {
    if |cs| == 0 then "" else TextContent(cs[0]) + TextContentSeq(cs[1..])
  }

  // ---------------------------------------------------------------------
  // ARIA headings (content.js:1471-1478)

  function Clamp(x: int, lo: int, hi: int): int
    requires lo <= hi
  {
    if x < lo then lo else if x > hi then hi else x
  }

  /** The number of `#` characters for a `role="heading"` element: the
      `aria-level` attribute (or "1" when it is missing or empty) read by
      `parseInt(_, 10)` and clamped to 1..6; a non-numeric level is NaN,
      which `Math.min`/`Math.max` propagate and `'#'.repeat` reads as 0. */
  function HeadingHashes(ariaLevel: Option<string>): (k: nat)
    ensures k <= 6
  {
    var text := if ariaLevel.None? || ariaLevel.value == "" then "1" else ariaLevel.value;
    match ParseInt(text, true)
    case None => 0
    case Some(level) => Clamp(level, 1, 6)
  }

  /** A numeric `aria-level` L gives clamp(L, 1, 6) hashes. */
  lemma HeadingOfNumericLevel(level: int)
    ensures HeadingHashes(Some(IntToString(level))) == Clamp(level, 1, 6)
  {
    ParseIntOfIntToString(level);
  }

  /** A missing or empty `aria-level` counts as level 1. */
  lemma HeadingOfMissingLevel()
    ensures HeadingHashes(None) == 1
    ensures HeadingHashes(Some("")) == 1
  {
    ParseIntOfNatToString(1, true);
    assert NatToString(1) == "1";
  }

  /** A `role="heading"` element (not a table, list or blockquote) with a
      numeric `aria-level` L becomes a line break, clamp(L, 1, 6) hashes, a
      space, its converted children, and a blank line. */
  lemma HeadingMarkdown(tag: string, attrs: map<string, string>, cs: seq<Node>, parentTag: string, depth: nat, level: int)
    requires tag !in {"table", "ul", "ol", "blockquote"}
    requires "role" in attrs && attrs["role"] == "heading"
    requires "aria-level" in attrs && attrs["aria-level"] == IntToString(level)
    ensures var out := ProcessNode(Element(tag, attrs, cs), parentTag, depth);
            var k := Clamp(level, 1, 6);
            out == "\n" + Repeat('#', k) + " " + ProcessChildren(cs, tag, depth) + "\n\n"
            && 1 <= k <= 6
  {
    HeadingOfNumericLevel(level);
  }

  // ---------------------------------------------------------------------
  // Tables (content.js:1332-1400)

  /** `Math.max(...rows.map(row => row.length))`. */
  function NumCols(rows: seq<seq<string>>): (n: nat)
    ensures forall i :: 0 <= i < |rows| ==> |rows[i]| <= n
    ensures |rows| > 0 ==> exists i :: 0 <= i < |rows| && |rows[i]| == n
  {
    if |rows| == 0 then 0
    else
      var m := NumCols(rows[1..]);
      if |rows[0]| >= m then |rows[0]|
      else
        assert exists i :: 0 <= i < |rows[1..]| && |rows[1..][i]| == m;
        m
  }

  /** A row padded with empty cells up to `n` cells. */
  function Pad(row: seq<string>, n: nat): (r: seq<string>)
    requires |row| <= n
    ensures |r| == n
    ensures forall j :: 0 <= j < n ==> r[j] == if j < |row| then row[j] else ""
  {
    row + seq(n - |row|, _ => "")
  }

  /** One markdown table line: `'| ' + cells.join(' | ') + ' |\n'`. */
  function RowLine(cells: seq<string>): string {
    "| " + Join(cells, " | ") + " |\n"
  }

  /** The separator after a header row. */
  function Separator(n: nat): seq<string> {
    seq(n, _ => "---")
  }

  /** The line a data row lands on: after the separator, when there is one. */
  function RowPos(i: nat, header: bool): nat {
    if header && i > 0 then i + 1 else i
  }

  /** The cell lists the converter emits, one per markdown line: every row
      padded to the widest row's length, with the separator inserted after
      the first row exactly when the table has a header. */
  function EmittedRows(rows: seq<seq<string>>, header: bool): (e: seq<seq<string>>)
    requires |rows| > 0
    ensures |e| == |rows| + (if header then 1 else 0)
  {
    var n := NumCols(rows);
    var padded := seq(|rows|, i requires 0 <= i < |rows| => Pad(rows[i], n));
    if header then [padded[0], Separator(n)] + padded[1..] else padded
  }

  /** Every emitted line has as many cells as the widest row; row `i` is
      padded and lands after the separator when there is one. */
  lemma EmittedRowsShape(rows: seq<seq<string>>, header: bool)
    requires |rows| > 0
    ensures var e := EmittedRows(rows, header);
            && (forall k :: 0 <= k < |e| ==> |e[k]| == NumCols(rows))
            && (forall i :: 0 <= i < |rows| ==> e[RowPos(i, header)] == Pad(rows[i], NumCols(rows)))
            && (header ==> e[1] == Separator(NumCols(rows)))
  {
    var n := NumCols(rows);
    var padded := seq(|rows|, i requires 0 <= i < |rows| => Pad(rows[i], n));
    var e := EmittedRows(rows, header);
    assert forall k :: 0 <= k < |padded| ==> |padded[k]| == n;
    if header {
      assert e == [padded[0], Separator(n)] + padded[1..];
      InsertedSeparator(padded, Separator(n), n);
      forall i | 0 <= i < |rows|
        ensures e[RowPos(i, header)] == Pad(rows[i], n)
      {
        assert e[RowPos(i, header)] == padded[i];
      }
    } else {
      assert e == padded;
    }
  }

  /** Inserting a line of `n` cells after the first of lines of `n` cells
      keeps every line at `n` cells and shifts the later lines by one. */
  lemma InsertedSeparator(lines: seq<seq<string>>, sep: seq<string>, n: nat)
    requires |lines| > 0 && |sep| == n
    requires forall k :: 0 <= k < |lines| ==> |lines[k]| == n
    ensures var e := [lines[0], sep] + lines[1..];
            && (forall k :: 0 <= k < |e| ==> |e[k]| == n)
            && e[0] == lines[0] && e[1] == sep
            && (forall i :: 1 <= i < |lines| ==> e[i + 1] == lines[i])
  {
    var e := [lines[0], sep] + lines[1..];
    forall k | 2 <= k < |e|
      ensures e[k] == lines[k - 1]
    {
      assert e[k] == lines[1..][k - 2];
    }
  }

  /** The markdown lines of a table, each ending in a newline. */
  function TableLines(rows: seq<seq<string>>, header: bool): (lines: seq<string>)
    requires |rows| > 0
    ensures |lines| == |rows| + (if header then 1 else 0)
  {
    var e := EmittedRows(rows, header);
    seq(|e|, k requires 0 <= k < |e| => RowLine(e[k]))
  }

  /** The markdown of a table with at least one row. */
  function TableMarkdown(rows: seq<seq<string>>, header: bool): string
    requires |rows| > 0
  {
    "\n" + Concat(TableLines(rows, header)) + "\n"
  }

  /** `while (row.length < numCols) row.push('')`. */
  method PadInPlace(row: seq<string>, n: nat) returns (r: seq<string>)
    requires |row| <= n
    ensures r == Pad(row, n)
  {
    r := row;
    while |r| < n
      invariant |row| <= |r| <= n
      invariant r == row + seq(|r| - |row|, _ => "")
    {
      r := r + [""];
    }
  }

  /** The pieces `processTable` has appended after `i` rows: the opening
      newline, each row's line, and the separator right after the first row
      of a table with a header. */
  function Appended(rows: seq<seq<string>>, header: bool, i: nat): (parts: seq<string>)
    requires i <= |rows|
    ensures |parts| == 1 + RowPos(i, header)
    decreases i
  {
    if i == 0 then ["\n"]
    else
      var withRow := Appended(rows, header, i - 1) + [RowLine(Pad(rows[i - 1], NumCols(rows)))];
      if i == 1 && header then withRow + [RowLine(Separator(NumCols(rows)))] else withRow
  }

  /** `processTable`'s loop: pad each row, append its line, and append the
      separator after the first row of a table with a header. */
  method RenderTable(rows: seq<seq<string>>, header: bool) returns (md: string)
    requires |rows| > 0
    ensures md == TableMarkdown(rows, header)
  {
    var n := NumCols(rows);
    md := "\n";
    RenderedNone(rows, header);
    var rowIdx := 0;
    while rowIdx < |rows|
      invariant 0 <= rowIdx <= |rows|
      invariant md == Concat(Appended(rows, header, rowIdx))
    {
      md := RenderRow(rows, header, n, rowIdx, md);
      rowIdx := rowIdx + 1;
    }
    RenderedAll(rows, header);
    md := md + "\n";
  }

  /** The body of `processTable`'s loop for row `rowIdx`. */
  method RenderRow(rows: seq<seq<string>>, header: bool, n: nat, rowIdx: nat, before: string) returns (md: string)
    requires n == NumCols(rows) && rowIdx < |rows|
    requires before == Concat(Appended(rows, header, rowIdx))
    ensures md == Concat(Appended(rows, header, rowIdx + 1))
  {
    var row := PadInPlace(rows[rowIdx], n);
    ghost var parts := Appended(rows, header, rowIdx) + [RowLine(row)];
    ConcatAppend(Appended(rows, header, rowIdx), RowLine(row));
    md := before + RowLine(row);
    if rowIdx == 0 && header {
      ConcatAppend(parts, RowLine(Separator(n)));
      md := md + RowLine(Separator(n));
      assert Appended(rows, header, rowIdx + 1) == parts + [RowLine(Separator(n))];
    } else {
      assert Appended(rows, header, rowIdx + 1) == parts;
    }
  }

  /** Before any row the markdown is the opening newline. */
  lemma RenderedNone(rows: seq<seq<string>>, header: bool)
    ensures Concat(Appended(rows, header, 0)) == "\n"
  {
    assert ["\n"][1..] == [];
  }

  /** After every row the pieces are the opening newline and all the lines
      of the table. */
  lemma RenderedAll(rows: seq<seq<string>>, header: bool)
    requires |rows| > 0
    ensures TableMarkdown(rows, header) == Concat(Appended(rows, header, |rows|)) + "\n"
  {
    var lines := TableLines(rows, header);
    AppendedLines(rows, header, |rows|);
    assert lines[..|lines|] == lines;
    var parts := ["\n"] + lines;
    assert parts[1..] == lines;
  }

  /** The pieces after `i` rows are the opening newline and the table's
      lines up to the position of row `i`. */
  lemma {:induction false} AppendedLines(rows: seq<seq<string>>, header: bool, i: nat)
    requires |rows| > 0 && i <= |rows|
    ensures RowPos(i, header) <= |TableLines(rows, header)|
    ensures Appended(rows, header, i) == ["\n"] + TableLines(rows, header)[..RowPos(i, header)]
  {
    if i > 0 {
      AppendedLines(rows, header, i - 1);
      var lines := TableLines(rows, header);
      var d := RowPos(i - 1, header);
      var prev := Appended(rows, header, i - 1);
      LineOfRow(rows, header, i - 1);
      GrowPrefix(prev, ["\n"], lines, d);
      if i == 1 && header {
        LineOfSeparator(rows);
        GrowPrefix(prev + [lines[d]], ["\n"], lines, d + 1);
      }
    }
  }

  /** A prefix of `s` after `h`, grown by its next element. */
  lemma GrowPrefix<T>(a: seq<T>, h: seq<T>, s: seq<T>, d: nat)
    requires d < |s| && a == h + s[..d]
    ensures a + [s[d]] == h + s[..d + 1]
  {
    assert s[..d + 1] == s[..d] + [s[d]];
  }

  lemma LineOfRow(rows: seq<seq<string>>, header: bool, i: nat)
    requires i < |rows|
    ensures RowPos(i, header) < |TableLines(rows, header)|
    ensures TableLines(rows, header)[RowPos(i, header)] == RowLine(Pad(rows[i], NumCols(rows)))
  {
    EmittedRowsShape(rows, header);
  }

  lemma LineOfSeparator(rows: seq<seq<string>>)
    requires |rows| > 0
    ensures |TableLines(rows, true)| > 1
    ensures TableLines(rows, true)[1] == RowLine(Separator(NumCols(rows)))
  {
    EmittedRowsShape(rows, true);
  }

  // ---------------------------------------------------------------------
  // Lists (content.js:1403-1431)

  /** The marker of the item at position `idx` among the `li` children. */
  function Marker(ordered: bool, idx: nat): string {
    if ordered then NatToString(idx + 1) + "." else "-"
  }

  /** The lines (without their `\n`) emitted for one item whose converted and
      trimmed content is `content`, at list depth `depth`. */
  function ItemLines(content: string, ordered: bool, idx: nat, depth: nat): (r: seq<string>)
  {
    var indent := Repeat(' ', 2 * depth);
    var lines := Split(content, '\n');
    [indent + Marker(ordered, idx) + " " + lines[0]] + Continuations(lines[1..], indent + "  ")
  }

  /** The non-blank lines, in order. */
  function NonBlank(lines: seq<string>): (r: seq<string>)
    ensures forall x :: x in r ==> x in lines && !IsBlank(x)
    ensures forall x :: x in lines && !IsBlank(x) ==> x in r
  {
    if |lines| == 0 then []
    else (if IsBlank(lines[0]) then [] else [lines[0]]) + NonBlank(lines[1..])
  }

  predicate NotBlank(x: string) {
    !IsBlank(x)
  }

  /** `NonBlank` is the filter keeping the lines that are not blank: the
      kept lines stay in input order (filtering the two sides of any split
      and joining them gives the whole) and each non-blank line is kept as
      often as it occurs. */
  lemma NonBlankInOrder(lines: seq<string>)
    ensures NonBlank(lines) == Filter(lines, NotBlank)
    ensures forall i :: 0 <= i <= |lines| ==> NonBlank(lines) == NonBlank(lines[..i]) + NonBlank(lines[i..])
    ensures forall x :: multiset(NonBlank(lines))[x] == if IsBlank(x) then 0 else multiset(lines)[x]
  {
    NonBlankIsFilter(lines);
    FilterSplit(lines, NotBlank);
    forall i | 0 <= i <= |lines|
      ensures NonBlank(lines) == NonBlank(lines[..i]) + NonBlank(lines[i..])
    {
      NonBlankIsFilter(lines[..i]);
      NonBlankIsFilter(lines[i..]);
    }
    FilterCounts(lines, NotBlank);
  }

  lemma {:induction false} NonBlankIsFilter(lines: seq<string>)
    ensures NonBlank(lines) == Filter(lines, NotBlank)
  {
    if |lines| > 0 {
      NonBlankIsFilter(lines[1..]);
    }
  }

  /** Continuation lines: the non-blank ones, each behind `prefix`. */
  function Continuations(lines: seq<string>, prefix: string): (r: seq<string>)
  {
    var kept := NonBlank(lines);
    seq(|kept|, k requires 0 <= k < |kept| => prefix + kept[k])
  }

  function PrefixAll(ls: seq<string>, prefix: string): (r: seq<string>)
    ensures |r| == |ls|
  {
    seq(|ls|, k requires 0 <= k < |ls| => prefix + ls[k])
  }

  lemma PrefixAllAppend(a: seq<string>, b: seq<string>, prefix: string)
    ensures PrefixAll(a + b, prefix) == PrefixAll(a, prefix) + PrefixAll(b, prefix)
  {
  }

  lemma {:induction false} PrefixAllCounts(ls: seq<string>, prefix: string)
    ensures forall x :: multiset(PrefixAll(ls, prefix))[prefix + x] == multiset(ls)[x]
  {
    if |ls| > 0 {
      PrefixAllCounts(ls[1..], prefix);
      assert PrefixAll(ls, prefix) == [prefix + ls[0]] + PrefixAll(ls[1..], prefix);
      assert ls == [ls[0]] + ls[1..];
      forall x
        ensures (prefix + ls[0] == prefix + x) == (ls[0] == x)
      {
        if prefix + ls[0] == prefix + x {
          assert (prefix + ls[0])[|prefix|..] == ls[0];
          assert (prefix + x)[|prefix|..] == x;
        }
      }
    }
  }

  function Lined(lines: seq<string>): string {
    Concat(seq(|lines|, k requires 0 <= k < |lines| => lines[k] + "\n"))
  }

  function ListMarkdown(contents: seq<string>, ordered: bool, depth: nat): string {
    "\n" + Concat(seq(|contents|, i requires 0 <= i < |contents| => Lined(ItemLines(contents[i], ordered, i, depth)))) + "\n"
  }

  /** Ordered items are numbered by position: different positions get
      different markers. */
  lemma MarkersDistinct(i: nat, j: nat)
    requires i != j
    ensures Marker(true, i) != Marker(true, j)
  {
    var a, b := NatToString(i + 1), NatToString(j + 1);
    NatToStringInjective(i + 1, j + 1);
    assert (a + ".")[..|a|] == a;
    assert (b + ".")[..|b|] == b;
  }

  /** Each continuation line is `prefix` followed by a non-blank line of the
      input, and every non-blank input line appears behind `prefix`. */
  lemma ContinuationLines(lines: seq<string>, prefix: string)
    ensures var c := Continuations(lines, prefix);
            && (forall k :: 0 <= k < |c| ==>
                  |c[k]| >= |prefix| && c[k][..|prefix|] == prefix
                  && c[k][|prefix|..] in lines && !IsBlank(c[k][|prefix|..]))
            && (forall x :: x in lines && !IsBlank(x) ==> prefix + x in c)
  {
    ContinuationMembers(lines, prefix);
  }

  /** The continuation lines keep the input's order (those of the two sides
      of any split, joined, are the whole) and its multiplicity (a
      non-blank line occurring n times yields n continuation lines). */
  lemma ContinuationsInOrder(lines: seq<string>, prefix: string)
    ensures forall i :: 0 <= i <= |lines| ==>
              Continuations(lines, prefix) == Continuations(lines[..i], prefix) + Continuations(lines[i..], prefix)
    ensures forall x :: multiset(Continuations(lines, prefix))[prefix + x] == if IsBlank(x) then 0 else multiset(lines)[x]
  {
    NonBlankInOrder(lines);
    forall i | 0 <= i <= |lines|
      ensures Continuations(lines, prefix) == Continuations(lines[..i], prefix) + Continuations(lines[i..], prefix)
    {
      PrefixAllAppend(NonBlank(lines[..i]), NonBlank(lines[i..]), prefix);
      assert Continuations(lines, prefix) == PrefixAll(NonBlank(lines), prefix);
      assert Continuations(lines[..i], prefix) == PrefixAll(NonBlank(lines[..i]), prefix);
      assert Continuations(lines[i..], prefix) == PrefixAll(NonBlank(lines[i..]), prefix);
    }
    PrefixAllCounts(NonBlank(lines), prefix);
    assert Continuations(lines, prefix) == PrefixAll(NonBlank(lines), prefix);
  }

  lemma ContinuationMembers(lines: seq<string>, prefix: string)
    ensures var c := Continuations(lines, prefix);
            && (forall k :: 0 <= k < |c| ==>
                  |c[k]| >= |prefix| && c[k][..|prefix|] == prefix
                  && c[k][|prefix|..] in lines && !IsBlank(c[k][|prefix|..]))
            && (forall x :: x in lines && !IsBlank(x) ==> prefix + x in c)
  {
    var c := Continuations(lines, prefix);
    var kept := NonBlank(lines);
    forall k | 0 <= k < |c|
      ensures |c[k]| >= |prefix| && c[k][..|prefix|] == prefix
      ensures c[k][|prefix|..] in lines && !IsBlank(c[k][|prefix|..])
    {
      assert c[k][|prefix|..] == kept[k];
      assert kept[k] in kept;
    }
    forall x | x in lines && !IsBlank(x)
      ensures prefix + x in c
    {
      var k :| 0 <= k < |kept| && kept[k] == x;
      assert c[k] == prefix + x;
    }
  }

  /** The first line of an item is the indent (two spaces per level), the
      marker, a space and the first line of the content; every further
      line is a non-blank content line behind two more spaces, and every
      non-blank further content line appears; no emitted line holds a line
      break. */
  lemma ItemLinesShape(content: string, ordered: bool, idx: nat, depth: nat)
    ensures var r := ItemLines(content, ordered, idx, depth);
            var indent := Repeat(' ', 2 * depth);
            var lines := Split(content, '\n');
            && |r| >= 1
            && r[0] == indent + Marker(ordered, idx) + " " + lines[0]
            && (forall k :: 1 <= k < |r| ==>
                  |r[k]| >= 2 * depth + 2 && r[k][..2 * depth + 2] == Repeat(' ', 2 * depth + 2)
                  && r[k][2 * depth + 2..] in lines[1..] && !IsBlank(r[k][2 * depth + 2..]))
            && (forall x :: x in lines[1..] && !IsBlank(x) ==> indent + "  " + x in r[1..])
            && (forall k :: 0 <= k < |r| ==> '\n' !in r[k])
            && |r| == 1 + |NonBlank(lines[1..])|
            && r[1..] == Continuations(lines[1..], indent + "  ")
  {
    ItemContinuations(content, ordered, idx, depth);
    ItemLinesUnbroken(content, ordered, idx, depth);
  }

  /** The lines after the first are the continuation lines of the content's
      further lines, behind two more spaces than the marker. */
  lemma ItemContinuations(content: string, ordered: bool, idx: nat, depth: nat)
    ensures var r := ItemLines(content, ordered, idx, depth);
            var indent := Repeat(' ', 2 * depth);
            var lines := Split(content, '\n');
            && |r| >= 1
            && r[0] == indent + Marker(ordered, idx) + " " + lines[0]
            && (forall k :: 1 <= k < |r| ==>
                  |r[k]| >= 2 * depth + 2 && r[k][..2 * depth + 2] == Repeat(' ', 2 * depth + 2)
                  && r[k][2 * depth + 2..] in lines[1..] && !IsBlank(r[k][2 * depth + 2..]))
            && (forall x :: x in lines[1..] && !IsBlank(x) ==> indent + "  " + x in r[1..])
            && r[1..] == Continuations(lines[1..], indent + "  ")
  {
    var indent := Repeat(' ', 2 * depth);
    var lines := Split(content, '\n');
    var prefix := indent + "  ";
    assert prefix == Repeat(' ', 2 * depth + 2);
    var conts := Continuations(lines[1..], prefix);
    var r := ItemLines(content, ordered, idx, depth);
    assert r[1..] == conts;
    ContinuationLines(lines[1..], prefix);
    forall k | 1 <= k < |r|
      ensures |r[k]| >= 2 * depth + 2 && r[k][..2 * depth + 2] == Repeat(' ', 2 * depth + 2)
      ensures r[k][2 * depth + 2..] in lines[1..] && !IsBlank(r[k][2 * depth + 2..])
    {
      assert r[k] == conts[k - 1];
    }
  }

  /** No line emitted for an item holds a line break. */
  lemma ItemLinesUnbroken(content: string, ordered: bool, idx: nat, depth: nat)
    ensures var r := ItemLines(content, ordered, idx, depth);
            forall k :: 0 <= k < |r| ==> '\n' !in r[k]
  {
    var indent := Repeat(' ', 2 * depth);
    var lines := Split(content, '\n');
    var rest := lines[1..];
    assert forall k :: 0 <= k < |rest| ==> rest[k] == lines[k + 1];
    var prefix := indent + "  ";
    assert '\n' !in prefix by {
      FirstLineUnbroken(indent, " ", "");
      assert indent + " " + " " + "" == prefix;
    }
    ContinuationsUnbroken(rest, prefix);
    var conts := Continuations(rest, prefix);
    var first := indent + Marker(ordered, idx) + " " + lines[0];
    MarkerUnbroken(ordered, idx);
    FirstLineUnbroken(indent, Marker(ordered, idx), lines[0]);
    var r := ItemLines(content, ordered, idx, depth);
    assert r == [first] + conts;
    forall k | 0 <= k < |r|
      ensures '\n' !in r[k]
    {
      if k > 0 {
        assert r[k] == conts[k - 1];
      }
    }
  }

  /** Continuation lines hold no line break when the prefix and the lines
      hold none. */
  lemma ContinuationsUnbroken(lines: seq<string>, prefix: string)
    requires '\n' !in prefix
    requires forall k :: 0 <= k < |lines| ==> '\n' !in lines[k]
    ensures var c := Continuations(lines, prefix);
            forall k :: 0 <= k < |c| ==> '\n' !in c[k]
  {
    var kept := NonBlank(lines);
    forall k | 0 <= k < |kept|
      ensures '\n' !in prefix + kept[k]
    {
      assert kept[k] in kept;
      InUnbroken(lines, kept[k]);
      UnbrokenJoin(prefix, kept[k]);
    }
  }

  /** Two texts without a line break make one without a line break. */
  lemma UnbrokenJoin(a: string, b: string)
    requires '\n' !in a && '\n' !in b
    ensures '\n' !in a + b
  {
  }

  /** An item marker holds no line break. */
  lemma MarkerUnbroken(ordered: bool, idx: nat)
    ensures '\n' !in Marker(ordered, idx)
  {
    if ordered {
      var d := NatToString(idx + 1);
      assert forall i :: 0 <= i < |d| ==> IsDigit(d[i]);
      assert '\n' !in d;
    }
  }

  /** A line taken from lines without a line break has none. */
  lemma InUnbroken(ls: seq<string>, x: string)
    requires forall k :: 0 <= k < |ls| ==> '\n' !in ls[k]
    requires x in ls
    ensures '\n' !in x
  {
  }

  /** A line made of spaces, a marker, a space and a text holds no line
      break when the marker and the text hold none. */
  lemma FirstLineUnbroken(indent: string, marker: string, line: string)
    requires forall i :: 0 <= i < |indent| ==> indent[i] == ' '
    requires '\n' !in marker && '\n' !in line
    ensures '\n' !in indent + marker + " " + line
  {
    assert '\n' !in indent;
  }

  /** The `li` element children of a list, in order. */
  function ListItems(cs: seq<Node>): (r: seq<Node>)
    ensures SizeSeq(r) <= SizeSeq(cs)
    ensures forall k :: 0 <= k < |r| ==> r[k].Element? && r[k].tag == "li" && Size(r[k]) <= SizeSeq(cs)
  {
    if |cs| == 0 then []
    else if cs[0].Element? && cs[0].tag == "li" then [cs[0]] + ListItems(cs[1..])
    else ListItems(cs[1..])
  }

  predicate IsLi(n: Node) {
    n.Element? && n.tag == "li"
  }

  /** `Array.from(children).filter(child => child is an li)`: the `li`
      children, all of them and only them, in order, each as often as it
      occurs. */
  lemma {:induction false} ListItemsInOrder(cs: seq<Node>)
    ensures ListItems(cs) == Filter(cs, IsLi)
    ensures forall n :: n in ListItems(cs) <==> n in cs && IsLi(n)
  {
    if |cs| > 0 {
      ListItemsInOrder(cs[1..]);
    }
    FilterMembers(cs, IsLi);
  }

  // ---------------------------------------------------------------------
  // Code blocks (content.js:1536-1541)

  predicate IsWordChar(c: char) {
    IsDigit(c) || ('a' <= c <= 'z') || ('A' <= c <= 'Z') || c == '_'
  }

  function WordRun(s: string): (k: nat)
    ensures k <= |s|
    ensures forall i :: 0 <= i < k ==> IsWordChar(s[i])
    ensures k < |s| ==> !IsWordChar(s[k])
  {
    if |s| == 0 || !IsWordChar(s[0]) then 0 else 1 + WordRun(s[1..])
  }

  /** Whether `language-` followed by a word character starts at `i`. */
  predicate LanguageAt(s: string, i: nat) {
    i + 10 <= |s| && s[i..i + 9] == "language-" && IsWordChar(s[i + 9])
  }

  /** The first capture of `/language-(\w+)/` in a class name, or "". */
  function CodeLanguage(className: string): (r: string)
    ensures forall i :: 0 <= i < |r| ==> IsWordChar(r[i])
  {
    LanguageFrom(className, 0)
  }

  /** The regular expression's scan, trying positions `k`, `k + 1`, ... */
  function LanguageFrom(s: string, k: nat): (r: string)
    requires k <= |s|
    ensures forall i :: 0 <= i < |r| ==> IsWordChar(r[i])
    decreases |s| - k
  {
    if |s| - k < 10 then ""
    else if LanguageAt(s, k) then s[k + 9..k + 9 + WordRun(s[k + 9..])]
    else LanguageFrom(s, k + 1)
  }

  /** The pattern matches nowhere in `s`. */
  predicate NoLanguage(s: string) {
    forall i: nat :: i < |s| ==> !LanguageAt(s, i)
  }

  /** `i` is the leftmost position where the pattern matches. */
  predicate LeftmostLanguage(s: string, i: nat) {
    LanguageAt(s, i) && forall j: nat :: j < i ==> !LanguageAt(s, j)
  }

  /** The leftmost position from `from` on where the pattern matches. */
  function FirstLanguage(s: string, from: nat): (r: Option<nat>)
    requires from <= |s|
    ensures r.Some? ==> from <= r.value && r.value + 10 <= |s|
    decreases |s| - from
  {
    if from == |s| then None
    else if LanguageAt(s, from) then Some(from)
    else FirstLanguage(s, from + 1)
  }

  /** The position found is a match and no position between `from` and it
      is one; when none is found, no position from `from` on is a match. */
  lemma {:induction false} FirstLanguageLeftmost(s: string, from: nat)
    requires from <= |s|
    ensures var r := FirstLanguage(s, from);
            && (r.Some? ==> LanguageAt(s, r.value))
            && (r.Some? ==> forall j: nat :: from <= j < r.value ==> !LanguageAt(s, j))
            && (r.None? ==> forall j: nat :: from <= j < |s| ==> !LanguageAt(s, j))
    decreases |s| - from
  {
    if from < |s| && !LanguageAt(s, from) {
      FirstLanguageLeftmost(s, from + 1);
    }
  }

  /** `CodeLanguage` is "" exactly when the pattern matches nowhere;
      otherwise it is the whole word run after the leftmost match. */
  lemma CodeLanguageLeftmost(s: string)
    ensures CodeLanguage(s) == "" <==> NoLanguage(s)
    ensures CodeLanguage(s) != "" ==>
              exists i: nat :: LeftmostLanguage(s, i) && CodeLanguage(s) == s[i + 9..i + 9 + WordRun(s[i + 9..])]
  {
    LanguageFromFirst(s, 0);
    FirstLanguageLeftmost(s, 0);
    match FirstLanguage(s, 0)
    case None =>
    case Some(i) =>
      assert WordRun(s[i + 9..]) > 0;
      assert LeftmostLanguage(s, i);
  }

  /** The scan from `k` returns the word run after the leftmost match from
      `k` on, or "" when there is none. */
  lemma {:induction false} LanguageFromFirst(s: string, k: nat)
    requires k <= |s|
    ensures match FirstLanguage(s, k)
            case None => LanguageFrom(s, k) == ""
            case Some(i) => LanguageFrom(s, k) == s[i + 9..i + 9 + WordRun(s[i + 9..])]
    decreases |s| - k
  {
    if |s| - k >= 10 && !LanguageAt(s, k) {
      LanguageFromFirst(s, k + 1);
    }
  }

  // ---------------------------------------------------------------------
  // The converter

  /** `processNode(node, {listDepth: depth})`, where `parentTag` is the tag
      of the node's parent element. */
  function ProcessNode(node: Node, parentTag: string, depth: nat): string
    decreases Size(node), 5
  {
    match node
    case TextNode(t) => t
    case CommentNode(_) => ""
    case Element(tag, attrs, cs) =>
      if tag == "table" then ProcessTable(node, depth)
      else if tag == "ul" || tag == "ol" then ProcessList(node, depth)
      else if tag == "blockquote" then "\n" + Trim(ProcessChildren(cs, tag, depth)) + "\n\n"
      else if Attr(node, "role") == Some("heading") then
        "\n" + Repeat('#', HeadingHashes(Attr(node, "aria-level"))) + " " + ProcessChildren(cs, tag, depth) + "\n\n"
      else if tag in {"thead", "tbody", "tr", "th", "td"} then ProcessChildren(cs, tag, depth)
      else if tag == "li" && depth > 0 then ProcessChildren(cs, tag, depth)
      else
        var content := ProcessChildren(cs, tag, depth);
        if tag == "h1" then "\n# " + content + "\n\n"
        else if tag == "h2" then "\n## " + content + "\n\n"
        else if tag == "h3" then "\n### " + content + "\n\n"
        else if tag == "h4" then "\n#### " + content + "\n\n"
        else if tag == "h5" then "\n##### " + content + "\n\n"
        else if tag == "h6" then "\n###### " + content + "\n\n"
        else if tag == "b" || tag == "strong" then "**" + content + "**"
        else if tag == "i" || tag == "em" then "*" + content + "*"
        else if tag in {"s", "del", "strike"} then "~~" + content + "~~"
        else if tag == "a" then
          var href := Attr(node, "href").GetOr("");
          if href != "" then "[" + content + "](" + href + ")" else content
        else if tag == "img" then
          var src := Attr(node, "src").GetOr("");
          var alt := Attr(node, "alt").GetOr("");
          if src != "" then "![" + alt + "](" + src + ")" else ""
        else if tag == "code" then
          if parentTag == "pre" then content else "`" + content + "`"
        else if tag == "pre" then
          var code := SelectFirst(node, "code");
          var codeText := if code.Some? then TextContent(code.value.node) else TextContent(node);
          var language := if code.Some? then CodeLanguage(Attr(code.value.node, "class").GetOr("")) else "";
          "\n```" + language + "\n" + codeText + "\n```\n\n"
        else if tag == "hr" then "\n---\n\n"
        else if tag == "br" then "\n"
        else if tag == "p" || tag == "div" then content + "\n"
        else content
  }

  /** The children's conversions, joined. */
  function ProcessChildren(cs: seq<Node>, parentTag: string, depth: nat): string
    decreases SizeSeq(cs), 6
  {
    if |cs| == 0 then ""
    else ProcessNode(cs[0], parentTag, depth) + ProcessChildren(cs[1..], parentTag, depth)
  }

  /** The trimmed conversion of each cell (`th`/`td` descendant) of a row. */
  function RowCells(tr: Node, depth: nat): seq<string>
    decreases Size(tr), 1
  {
    var cells := SelectAll(tr, {"th", "td"});
    seq(|cells|, k requires 0 <= k < |cells| => Trim(ProcessNode(cells[k].node, cells[k].parentTag, depth)))
  }

  function RowsOf(trs: seq<Found>, bound: nat, depth: nat): seq<seq<string>>
    requires forall k :: 0 <= k < |trs| ==> Size(trs[k].node) < bound
    decreases bound, 2
  {
    seq(|trs|, k requires 0 <= k < |trs| => RowCells(trs[k].node, depth))
  }

  /** Whether a table's first row is followed by the separator: it has a
      `thead`, or it has neither `thead` nor `tbody` and its first `tr`
      holds a `th`. */
  function TableHasHeader(table: Node): bool {
    var thead := SelectFirst(table, "thead");
    var tbody := SelectFirst(table, "tbody");
    var trs := SelectAll(table, {"tr"});
    thead.Some? || (tbody.None? && |trs| > 0 && |SelectAll(trs[0].node, {"th"})| > 0)
  }

  /** The rows a table contributes: the `tr`s under its `thead`, then those
      under its `tbody`, or, with neither, every `tr` under the table. */
  function TableRows(table: Node, depth: nat): seq<seq<string>>
    decreases Size(table), 3
  {
    var thead := SelectFirst(table, "thead");
    var tbody := SelectFirst(table, "tbody");
    var headRows := if thead.Some? then RowsOf(SelectAll(thead.value.node, {"tr"}), Size(table), depth) else [];
    var bodyRows := if tbody.Some? then RowsOf(SelectAll(tbody.value.node, {"tr"}), Size(table), depth) else [];
    var plainRows := if thead.None? && tbody.None? then RowsOf(SelectAll(table, {"tr"}), Size(table), depth) else [];
    headRows + bodyRows + plainRows
  }

  function ProcessTable(table: Node, depth: nat): string
    decreases Size(table), 4
  {
    var rows := TableRows(table, depth);
    if |rows| == 0 then "" else TableMarkdown(rows, TableHasHeader(table))
  }

  function ProcessList(list: Node, depth: nat): string
    requires list.Element?
    decreases Size(list), 4
  {
    var items := ListItems(list.children);
    var contents := seq(|items|, i requires 0 <= i < |items| => Trim(ProcessChildren(items[i].children, "li", depth + 1)));
    ListMarkdown(contents, list.tag == "ol", depth)
  }

  /** `htmlToMarkdown(element)`: `None` is a missing element. */
  function HtmlToMarkdown(element: Option<Node>, parentTag: string): string {
    if element.None? then "" else Trim(ProcessNode(element.value, parentTag, 0))
  }

  /** Converting a run of sibling nodes converts each in turn and joins the
      results in document order. */
  lemma {:induction false} ProcessChildrenAppend(a: seq<Node>, b: seq<Node>, parentTag: string, depth: nat)
    ensures ProcessChildren(a + b, parentTag, depth) == ProcessChildren(a, parentTag, depth) + ProcessChildren(b, parentTag, depth)
    decreases |a|
  {
    if |a| > 0 {
      ProcessChildrenAppend(a[1..], b, parentTag, depth);
      assert (a + b)[0] == a[0] && (a + b)[1..] == a[1..] + b;
    } else {
      assert a + b == b;
    }
  }

  /** An element without a rule of its own: the converter keeps only its
      children's conversion. */
  predicate PassThrough(n: Node) {
    && n.Element?
    && Attr(n, "role") != Some("heading")
    && n.tag !in {"table", "ul", "ol", "blockquote", "h1", "h2", "h3", "h4", "h5", "h6", "b", "strong",
                  "i", "em", "s", "del", "strike", "a", "img", "code", "pre", "hr", "br", "p", "div"}
  }

  /** A tree in which no element has a rule of its own. */
  predicate Plain(n: Node)
    decreases n
  {
    match n
    case Element(_, _, cs) => PassThrough(n) && forall k :: 0 <= k < |cs| ==> Plain(cs[k])
    case _ => true
  }

  /** On a tree without formatting the converter yields exactly the text
      content: text passes through unchanged and comments vanish. */
  lemma {:induction false} PlainIsTextContent(n: Node, parentTag: string, depth: nat)
    requires Plain(n)
    ensures ProcessNode(n, parentTag, depth) == TextContent(n)
    decreases n, 1
  {
    if n.Element? {
      PlainChildrenAreText(n.children, n.tag, depth);
    }
  }

  lemma {:induction false} PlainChildrenAreText(cs: seq<Node>, parentTag: string, depth: nat)
    requires forall k :: 0 <= k < |cs| ==> Plain(cs[k])
    ensures ProcessChildren(cs, parentTag, depth) == TextContentSeq(cs)
    decreases cs, 0
  {
    if |cs| > 0 {
      PlainIsTextContent(cs[0], parentTag, depth);
      PlainChildrenAreText(cs[1..], parentTag, depth);
    }
  }

  /** `htmlToMarkdown` of a missing element is ""; otherwise its result has
      no white space at either end, and for a tree without formatting it is
      the trimmed text content. */
  lemma HtmlToMarkdownTrimmed(element: Option<Node>, parentTag: string)
    ensures element.None? ==> HtmlToMarkdown(element, parentTag) == ""
    ensures var r := HtmlToMarkdown(element, parentTag);
            Trim(r) == r && (r != [] ==> !IsSpace(r[0]) && !IsSpace(r[|r| - 1]))
    ensures element.Some? && Plain(element.value) ==>
              HtmlToMarkdown(element, parentTag) == Trim(TextContent(element.value))
  {
    if element.Some? {
      var raw := ProcessNode(element.value, parentTag, 0);
      TrimShape(raw);
      TrimTrimmed(raw);
      if Plain(element.value) {
        PlainIsTextContent(element.value, parentTag, 0);
      }
    }
  }

  /** A table converts to "" exactly when it has no rows; otherwise its
      Markdown starts and ends with a line break. */
  lemma ProcessTableEmpty(table: Node, depth: nat)
    ensures ProcessTable(table, depth) == "" <==> |TableRows(table, depth)| == 0
    ensures ProcessTable(table, depth) != "" ==>
              var md := ProcessTable(table, depth);
              md[0] == '\n' && md[|md| - 1] == '\n'
  {
  }

  /** A table with a `thead` inside has a header row; one with a `tbody`
      and no `thead` has none. */
  lemma TableHeaderCases(table: Node)
    ensures var d := Descendants(table);
            (exists i :: 0 <= i < |d| && HasTag(d[i], {"thead"})) ==> TableHasHeader(table)
    ensures var d := Descendants(table);
            ((forall i :: 0 <= i < |d| ==> !HasTag(d[i], {"thead"}))
             && (exists i :: 0 <= i < |d| && HasTag(d[i], {"tbody"})))
            ==> !TableHasHeader(table)
  {
    SelectFirstIsFirst(table, "thead");
    SelectFirstIsFirst(table, "tbody");
  }

  /** A list with no `li` children converts to an empty line pair. */
  lemma ProcessListEmpty(list: Node, depth: nat)
    requires list.Element?
    ensures ListItems(list.children) == [] ==> ProcessList(list, depth) == "\n\n"
    ensures (forall k :: 0 <= k < |list.children| ==> !IsLi(list.children[k])) ==> ProcessList(list, depth) == "\n\n"
  {
    ListItemsInOrder(list.children);
    FilterFirst(list.children, IsLi);
  }
}
