/**
  The custom parts of a note's Markdown export (sidebar.js
  convertToMarkdown): the rules added to the HTML-to-Markdown library for
  report headings, tables and citation buttons, the clean-up of long
  newline runs, and the assembly of title, body and Sources appendix.
  The library's own conversion is not modelled: its output for the note
  body is an input, and the citation rule is modelled over the citation
  nodes in the order the library visits them.
*/
module NoteMarkdown {
  import opened Wrappers
  import opened Text
  import NoteSources

  // ---------------------------------------------------------------------
  // Citation buttons (sidebar.js:1042-1104)

  /** What the citation rule reads from a matched node. */
  datatype CitationNode = CitationNode(
    isButton: bool,                 // the node is a BUTTON
    dataSourceIndex: Option<string>, // its data-source-index attribute
    href: Option<string>,           // its href attribute
    spanText: Option<string>,       // text of its first span, when it has one
    content: string)                // the converted content of the node

  /** `s.replace(p, "")` for a string pattern: the first occurrence removed. */
  function RemoveFirst(s: string, p: string): (r: string)
    requires |p| > 0
    decreases |s|
  {
    if |s| < |p| then s
    else if s[..|p|] == p then s[|p|..]
    else [s[0]] + RemoveFirst(s[1..], p)
  }

  /** The label a citation refers to: a non-empty data-source-index, else
      the href without its first `#cite-`, else (for a button) the trimmed
      text of its span, else the trimmed content. */
  function OriginalId(n: CitationNode): string {
    var fromAttr :=
      if n.dataSourceIndex.Some? && n.dataSourceIndex.value != [] then n.dataSourceIndex.value
      else if n.href.Some? then RemoveFirst(n.href.value, "#cite-")
      else [];
    var fromSpan := if fromAttr == [] && n.isButton && n.spanText.Some? then Trim(n.spanText.value) else fromAttr;
    if fromSpan == [] then Trim(n.content) else fromSpan
  }

  /** The sources of the label in order of precedence: an href of the form
      `#cite-X` yields X; a button's span is read only when neither
      attribute yields a label; the content is the last resort. */
  lemma OriginalIdPrecedence(n: CitationNode, x: string)
    ensures n.dataSourceIndex.Some? && n.dataSourceIndex.value != [] ==> OriginalId(n) == n.dataSourceIndex.value
    ensures (n.dataSourceIndex.None? || n.dataSourceIndex.value == []) && n.href == Some("#cite-" + x) && x != [] ==>
              OriginalId(n) == x
    ensures ((n.dataSourceIndex.None? || n.dataSourceIndex.value == []) && n.href.None? && n.isButton && n.spanText.Some?
              && Trim(n.spanText.value) != []) ==> OriginalId(n) == Trim(n.spanText.value)
    ensures (n.dataSourceIndex.None? || n.dataSourceIndex.value == []) && n.href.None? && (!n.isButton || n.spanText.None?) ==>
              OriginalId(n) == Trim(n.content)
  {
    var h := "#cite-" + x;
    assert h[..6] == "#cite-" && h[6..] == x;
  }

  /** The display numbers of the citations, in visiting order. */
  function Displays(m: map<string, string>, nodes: seq<CitationNode>): (ds: seq<string>)
    ensures |ds| == |nodes|
    ensures forall k :: 0 <= k < |nodes| ==> ds[k] == NoteSources.DisplayFor(m, OriginalId(nodes[k]))
  {
    seq(|nodes|, k requires 0 <= k < |nodes| => NoteSources.DisplayFor(m, OriginalId(nodes[k])))
  }

  /** The number of times `d` occurs in `ds`. */
  function Count(ds: seq<string>, d: string): nat {
    if ds == [] then 0
    else Count(ds[..|ds| - 1], d) + (if ds[|ds| - 1] == d then 1 else 0)
  }

  /** Which occurrence of its display number the citation at `k` is. */
  function Occurrence(ds: seq<string>, k: nat): nat
    requires k < |ds|
  {
    Count(ds[..k + 1], ds[k])
  }

  function AnchorId(d: string, k: nat): string {
    "cite-ref-" + d + "-" + NatToString(k)
  }

  /** The replacement of one citation: a superscript link to the source's
      appendix anchor, carrying the anchor id of this occurrence. */
  function Markup(d: string, k: nat): string {
    "<sup><a id=\"" + AnchorId(d, k) + "\" href=\"#src-" + d + "\">[" + d + "]</a></sup>"
  }

  function CitationOutputs(ds: seq<string>): (outs: seq<string>)
    ensures |outs| == |ds|
  {
    if ds == [] then []
    else CitationOutputs(ds[..|ds| - 1]) + [Markup(ds[|ds| - 1], Count(ds, ds[|ds| - 1]))]
  }

  lemma {:induction false} CitationOutputsAt(ds: seq<string>, k: nat)
    requires k < |ds|
    ensures CitationOutputs(ds)[k] == Markup(ds[k], Occurrence(ds, k))
    decreases |ds|
  {
    if k < |ds| - 1 {
      assert ds[..|ds| - 1][..k + 1] == ds[..k + 1];
      CitationOutputsAt(ds[..|ds| - 1], k);
    } else {
      assert ds[..k + 1] == ds;
    }
  }

  /** The citation rule over the citations in visiting order: each
      citation's display number, then its markup. */
  method CitationPass(m: map<string, string>, nodes: seq<CitationNode>) returns (outs: seq<string>)
    ensures outs == CitationOutputs(Displays(m, nodes))
  {
    outs := CiteAll(Displays(m, nodes));
  }

  /** The markup of each citation, given the display numbers in visiting
      order, with the per-number occurrence counters kept between calls. */
  method CiteAll(ds: seq<string>) returns (outs: seq<string>)
    ensures outs == CitationOutputs(ds)
  {
    var occurrences: map<string, nat> := map[];
    outs := [];
    var i := 0;
    while i < |ds|
      invariant 0 <= i <= |ds|
      invariant outs == CitationOutputs(ds[..i])
      invariant Counted(occurrences, ds[..i])
    {
      var d := ds[i];
      PassStep(ds, i);
      CountedStep(occurrences, ds, i);
      if d !in occurrences {
        occurrences := occurrences[d := 0];
      }
      var count := occurrences[d] + 1;
      occurrences := occurrences[d := count];
      outs := outs + [Markup(d, count)];
      i := i + 1;
    }
    assert ds[..i] == ds;
  }

  /** The counters hold, per display number, how often it occurs in `ds`;
      a number not yet seen has no counter. */
  ghost predicate Counted(occurrences: map<string, nat>, ds: seq<string>) {
    forall d :: Count(ds, d) == if d in occurrences then occurrences[d] else 0
  }

  /** One more citation: its output. */
  lemma PassStep(ds: seq<string>, i: nat)
    requires i < |ds|
    ensures CitationOutputs(ds[..i + 1]) == CitationOutputs(ds[..i]) + [Markup(ds[i], Count(ds[..i], ds[i]) + 1)]
  {
    assert ds[..i + 1][..i] == ds[..i];
  }

  /** One more citation: the counter of its number, created at 0 when
      missing, goes up by one. */
  lemma CountedStep(occurrences: map<string, nat>, ds: seq<string>, i: nat)
    requires i < |ds| && Counted(occurrences, ds[..i])
    ensures var before := if ds[i] in occurrences then occurrences else occurrences[ds[i] := 0];
            && ds[i] in before && before[ds[i]] == Count(ds[..i], ds[i])
            && Counted(before[ds[i] := before[ds[i]] + 1], ds[..i + 1])
  {
    assert ds[..i + 1][..i] == ds[..i];
  }

  /** The k-th citation carrying a display number is its occurrence
      number k, counting from 1: later citations of the same number count
      strictly higher, and the first one counts 1. */
  lemma {:induction false} OccurrenceCounts(ds: seq<string>, j: nat, k: nat)
    requires j < k < |ds|
    ensures Occurrence(ds, k) >= 1
    ensures ds[j] == ds[k] ==> Occurrence(ds, j) < Occurrence(ds, k)
    ensures (forall i :: 0 <= i < k ==> ds[i] != ds[k]) ==> Occurrence(ds, k) == 1
  {
    CountMonotone(ds[..k + 1], k + 1, ds[k]);
    if ds[j] == ds[k] {
      CountMonotone(ds[..k + 1], j + 1, ds[k]);
      assert ds[..k + 1][..j + 1] == ds[..j + 1];
    }
    assert ds[..k + 1][..k] == ds[..k];
    if forall i :: 0 <= i < k ==> ds[i] != ds[k] {
      CountAbsent(ds[..k], ds[k]);
    }
  }

  lemma {:induction false} CountMonotone(ds: seq<string>, n: nat, d: string)
    requires 0 < n <= |ds| && ds[n - 1] == d
    ensures Count(ds[..n], d) <= Count(ds, d)
    ensures n < |ds| && ds[|ds| - 1] == d ==> Count(ds[..n], d) < Count(ds, d)
    ensures Count(ds, d) >= 1
    decreases |ds|
  {
    if n < |ds| {
      assert ds[..|ds| - 1][..n] == ds[..n];
      CountMonotone(ds[..|ds| - 1], n, d);
    } else {
      assert ds[..n] == ds;
    }
  }

  lemma {:induction false} CountAbsent(ds: seq<string>, d: string)
    requires forall i :: 0 <= i < |ds| ==> ds[i] != d
    ensures Count(ds, d) == 0
  {
    if ds != [] {
      CountAbsent(ds[..|ds| - 1], d);
    }
  }

  /** Anchor ids determine their display number and occurrence: the last
      `-` separates them, since an occurrence number has no `-`. */
  lemma AnchorIdInjective(d1: string, k1: nat, d2: string, k2: nat)
    requires AnchorId(d1, k1) == AnchorId(d2, k2)
    ensures d1 == d2 && k1 == k2
  {
    var a1, a2 := AnchorId(d1, k1), AnchorId(d2, k2);
    var p1, p2 := "cite-ref-" + d1 + "-", "cite-ref-" + d2 + "-";
    var n1, n2 := NatToString(k1), NatToString(k2);
    LastDashBefore(p1, n1);
    LastDashBefore(p2, n2);
    assert |p1| == |p2|;
    assert p1 == a1[..|p1|] && p2 == a2[..|p2|];
    assert n1 == a1[|p1|..] && n2 == a2[|p2|..];
    assert d1 == p1[9..|p1| - 1] && d2 == p2[9..|p2| - 1];
    if k1 != k2 {
      NatToStringInjective(k1, k2);
    }
  }

  lemma LastDashBefore(p: string, n: string)
    requires |p| > 0 && p[|p| - 1] == '-'
    requires forall i :: 0 <= i < |n| ==> IsDigit(n[i])
    ensures LastIndexOf(p + n, '-') == |p| - 1
  {
    var s := p + n;
    assert s[|p| - 1] == '-';
    assert s[|p|..] == n;
    assert '-' !in s[|p|..];
  }

  /** No two citations of a note get the same anchor id. */
  lemma AnchorsDistinct(ds: seq<string>, j: nat, k: nat)
    requires j < k < |ds|
    ensures AnchorId(ds[j], Occurrence(ds, j)) != AnchorId(ds[k], Occurrence(ds, k))
  {
    OccurrenceCounts(ds, j, k);
    if AnchorId(ds[j], Occurrence(ds, j)) == AnchorId(ds[k], Occurrence(ds, k)) {
      AnchorIdInjective(ds[j], Occurrence(ds, j), ds[k], Occurrence(ds, k));
    }
  }

  // ---------------------------------------------------------------------
  // Report headings (sidebar.js:968-979)

  /** `parseInt(level) || 1`. */
  function HeadingLevel(ariaLevel: string): int {
    match ParseInt(ariaLevel, false)
    case None => 1
    case Some(v) => if v == 0 then 1 else v
  }

  function InvalidCountError(): string { "RangeError: Invalid count value" }

  /** A heading with that many `#` (not clamped); a negative level makes
      `'#'.repeat` throw. */
  function HeadingRule(ariaLevel: string, content: string): Result<string, string> {
    var level := HeadingLevel(ariaLevel);
    if level < 0 then Err(InvalidCountError())
    else Ok("\n" + Repeat('#', level) + " " + Trim(content) + "\n\n")
  }

  /** A positive numeric level gives exactly that many `#`; a zero, empty
      or non-numeric level gives one; a negative level fails. */
  lemma HeadingRuleLevels(n: nat, content: string)
    ensures n >= 1 ==> HeadingRule(NatToString(n), content) == Ok("\n" + Repeat('#', n) + " " + Trim(content) + "\n\n")
    ensures HeadingRule(NatToString(0), content) == Ok("\n# " + Trim(content) + "\n\n")
    ensures HeadingRule("", content) == Ok("\n# " + Trim(content) + "\n\n")
    ensures n >= 1 ==> HeadingRule(IntToString(-(n as int)), content) == Err(InvalidCountError())
  {
    ParseIntOfNatToString(n, false);
    DefaultLevel(content);
    if n >= 1 {
      NegativeLevel(n);
    }
  }

  lemma DefaultLevel(content: string)
    ensures HeadingRule(NatToString(0), content) == Ok("\n# " + Trim(content) + "\n\n")
    ensures HeadingRule("", content) == Ok("\n# " + Trim(content) + "\n\n")
  {
    ParseIntOfNatToString(0, false);
    assert NatToString(0) == "0";
    assert HeadingLevel("0") == 1;
    assert HeadingRule("0", content) == Ok("\n" + Repeat('#', 1) + " " + Trim(content) + "\n\n");
    assert HeadingLevel("") == 1 by {
      assert ParseDigits("", 10) == None;
    }
    assert Repeat('#', 1) == "#";
    assert "\n" + Repeat('#', 1) + " " + Trim(content) + "\n\n" == "\n# " + Trim(content) + "\n\n";
  }

  lemma NegativeLevel(n: nat)
    requires n >= 1
    ensures HeadingLevel(IntToString(-(n as int))) == -(n as int)
  {
    ParseIntOfNatToString(n, false);
    var u := NatToString(n);
    assert FirstNonSpace(u) == 0 by {
      assert !IsSpace(u[0]);
    }
    assert u[0..] == u;
    var t := IntToString(-(n as int));
    assert t == "-" + u;
    assert FirstNonSpace(t) == 0 by {
      assert !IsSpace(t[0]);
    }
    assert t[0..] == t;
    assert t[1..] == u;
  }

  // ---------------------------------------------------------------------
  // Tables (sidebar.js:1005-1040)

  /** `text.replace(/\|/g, '\\|')`. */
  function EscapePipes(s: string): (r: string) {
    if s == [] then [] else (if s[0] == '|' then "\\|" else [s[0]]) + EscapePipes(s[1..])
  }

  /** `text.replace(/\n/g, ' ')`. */
  function NewlinesToSpaces(s: string): (r: string)
    ensures |r| == |s| && '\n' !in r
    ensures forall i :: 0 <= i < |s| ==> r[i] == (if s[i] == '\n' then ' ' else s[i])
  {
    if s == [] then [] else [if s[0] == '\n' then ' ' else s[0]] + NewlinesToSpaces(s[1..])
  }

  /** One table cell: trimmed, pipes escaped, line feeds made spaces. */
  function TableCell(text: string): string {
    NewlinesToSpaces(EscapePipes(Trim(text)))
  }

  /** Every `|` of an escaped text is preceded by a backslash. */
  predicate PipesEscaped(r: string) {
    forall i :: 0 <= i < |r| && r[i] == '|' ==> i > 0 && r[i - 1] == '\\'
  }

  /** Reading `\|` back as `|`. */
  function UnescapePipes(r: string): string
    decreases |r|
  {
    if |r| >= 2 && r[0] == '\\' && r[1] == '|' then "|" + UnescapePipes(r[2..])
    else if r == [] then []
    else [r[0]] + UnescapePipes(r[1..])
  }

  /** A table cell never breaks the row: it has no line feed and no bare
      `|`; and escaping pipes is undone by reading `\|` as `|` whenever
      the text has no backslash of its own. */
  lemma {:induction false} TableCellSafe(text: string)
    ensures '\n' !in TableCell(text)
    ensures PipesEscaped(TableCell(text))
    ensures '\\' !in Trim(text) ==> UnescapePipes(EscapePipes(Trim(text))) == Trim(text)
  {
    var e := EscapePipes(Trim(text));
    EscapePipesShape(Trim(text));
    var r := TableCell(text);
    forall i | 0 <= i < |r| && r[i] == '|'
      ensures i > 0 && r[i - 1] == '\\'
    {
      assert e[i] == '|';
    }
  }

  lemma {:induction false} EscapePipesShape(s: string)
    ensures PipesEscaped(EscapePipes(s))
    ensures '\\' !in s ==> UnescapePipes(EscapePipes(s)) == s
  {
    if s != [] {
      EscapePipesShape(s[1..]);
      var t := EscapePipes(s[1..]);
      var h := if s[0] == '|' then "\\|" else [s[0]];
      var r := h + t;
      forall i | 0 <= i < |r| && r[i] == '|'
        ensures i > 0 && r[i - 1] == '\\'
      {
        if i >= |h| {
          assert r[i] == t[i - |h|];
        }
      }
      if '\\' !in s {
        assert s == [s[0]] + s[1..];
        if s[0] == '|' {
          assert r[2..] == t;
        } else {
          assert r[1..] == t;
        }
      }
    }
  }

  function TableRow(cells: seq<string>): string {
    "| " + Join(TableCells(cells), " | ") + " |\n"
  }

  function TableCells(cells: seq<string>): (r: seq<string>)
    ensures |r| == |cells|
    ensures forall k :: 0 <= k < |cells| ==> r[k] == TableCell(cells[k])
  {
    seq(|cells|, k requires 0 <= k < |cells| => TableCell(cells[k]))
  }

  function Dashes(n: nat): (r: seq<string>)
    ensures |r| == n && forall k :: 0 <= k < n ==> r[k] == "---"
  {
    seq(n, k => "---")
  }

  function SeparatorRow(n: nat): string {
    "| " + Join(Dashes(n), " | ") + " |\n"
  }

  /** The rows of the table, the separator right after the first one. */
  function TableRows(rows: seq<seq<string>>): string {
    if rows == [] then []
    else TableRows(rows[..|rows| - 1]) + TableRow(rows[|rows| - 1])
         + (if |rows| == 1 then SeparatorRow(|rows[0]|) else [])
  }

  /** The table rule: nothing for a table without rows. */
  function TableRule(rows: seq<seq<string>>): string {
    if rows == [] then [] else "\n\n" + TableRows(rows) + "\n"
  }

  /** The first row is followed by a separator with as many columns as it
      has cells, and every later row follows without one. */
  lemma {:induction false} TableLayout(rows: seq<seq<string>>, n: nat)
    requires 1 <= n <= |rows|
    ensures TableRows(rows[..1]) == TableRow(rows[0]) + SeparatorRow(|rows[0]|)
    ensures n >= 2 ==> TableRows(rows[..n]) == TableRows(rows[..n - 1]) + TableRow(rows[n - 1])
  {
    assert rows[..1][..0] == [];
    assert rows[..n][..n - 1] == rows[..n - 1];
  }

  // ---------------------------------------------------------------------
  // Newline clean-up (sidebar.js:1110-1111)

  /** The length of the run of line feeds `s` starts with. */
  function NewlineRun(s: string): (n: nat)
    ensures n <= |s| && (n < |s| ==> s[n] != '\n')
    ensures forall i :: 0 <= i < n ==> s[i] == '\n'
  {
    if s == [] || s[0] != '\n' then 0 else 1 + NewlineRun(s[1..])
  }

  /** `s.replace(/\n{3,}/g, '\n\n')`: every run of three or more line
      feeds becomes two. */
  function CollapseNewlines(s: string): (r: string)
    ensures (r == []) == (s == [])
    ensures r != [] ==> r[0] == s[0]
    decreases |s|
  {
    if s == [] then []
    else if s[0] != '\n' then [s[0]] + CollapseNewlines(s[1..])
    else
      var n := NewlineRun(s);
      (if n >= 3 then "\n\n" else s[..n]) + CollapseNewlines(s[n..])
  }

  predicate NoTripleNewline(s: string) {
    forall i :: 0 <= i < |s| - 2 ==> !(s[i] == '\n' && s[i + 1] == '\n' && s[i + 2] == '\n')
  }

  /** The characters other than line feeds. */
  function WithoutNewlines(s: string): string {
    if s == [] then [] else (if s[0] == '\n' then [] else [s[0]]) + WithoutNewlines(s[1..])
  }

  /** After the clean-up no three line feeds follow each other, every other
      character is kept in order, and a text without such a run is left
      unchanged. */
  lemma CollapseNewlinesSpec(s: string)
    ensures NoTripleNewline(CollapseNewlines(s))
    ensures WithoutNewlines(CollapseNewlines(s)) == WithoutNewlines(s)
    ensures NoTripleNewline(s) ==> CollapseNewlines(s) == s
  {
    CollapseNoTriple(s);
    CollapseKeepsText(s);
    if NoTripleNewline(s) {
      CollapseIdentity(s);
    }
  }

  lemma {:induction false} CollapseNoTriple(s: string)
    ensures NoTripleNewline(CollapseNewlines(s))
    decreases |s|
  {
    if s != [] {
      if s[0] != '\n' {
        CollapseNoTriple(s[1..]);
        NoTripleAfterChar(s[0], CollapseNewlines(s[1..]));
      } else {
        var n := NewlineRun(s);
        CollapseNoTriple(s[n..]);
        NoTripleAfterRun(if n >= 3 then "\n\n" else s[..n], CollapseNewlines(s[n..]));
      }
    }
  }

  lemma {:induction false} CollapseKeepsText(s: string)
    ensures WithoutNewlines(CollapseNewlines(s)) == WithoutNewlines(s)
    decreases |s|
  {
    if s != [] {
      if s[0] != '\n' {
        CollapseKeepsText(s[1..]);
        WithoutNewlinesAppend([s[0]], CollapseNewlines(s[1..]));
        assert s == [s[0]] + s[1..];
        WithoutNewlinesAppend([s[0]], s[1..]);
      } else {
        var n := NewlineRun(s);
        CollapseKeepsText(s[n..]);
        var p := if n >= 3 then "\n\n" else s[..n];
        AllNewlines(p);
        AllNewlines(s[..n]);
        WithoutNewlinesAppend(p, CollapseNewlines(s[n..]));
        assert s == s[..n] + s[n..];
        WithoutNewlinesAppend(s[..n], s[n..]);
      }
    }
  }

  lemma {:induction false} CollapseIdentity(s: string)
    requires NoTripleNewline(s)
    ensures CollapseNewlines(s) == s
    decreases |s|
  {
    if s != [] {
      var n := if s[0] != '\n' then 1 else NewlineRun(s);
      if |s| >= 3 {
        assert !(s[0] == '\n' && s[1] == '\n' && s[2] == '\n');
      }
      assert n < 3;
      assert NoTripleNewline(s[n..]) by {
        forall i | 0 <= i < |s[n..]| - 2
          ensures !(s[n..][i] == '\n' && s[n..][i + 1] == '\n' && s[n..][i + 2] == '\n')
        {
          assert s[n..][i] == s[i + n];
        }
      }
      CollapseIdentity(s[n..]);
      assert s == s[..n] + s[n..];
    }
  }

  lemma NoTripleAfterChar(c: char, t: string)
    requires c != '\n' && NoTripleNewline(t)
    ensures NoTripleNewline([c] + t)
  {
    var r := [c] + t;
    forall i | 0 <= i < |r| - 2
      ensures !(r[i] == '\n' && r[i + 1] == '\n' && r[i + 2] == '\n')
    {
      if i > 0 {
        assert r[i] == t[i - 1] && r[i + 1] == t[i] && r[i + 2] == t[i + 1];
      }
    }
  }

  lemma NoTripleAfterRun(p: string, t: string)
    requires |p| <= 2 && NoTripleNewline(t) && (t == [] || t[0] != '\n')
    ensures NoTripleNewline(p + t)
  {
    var r := p + t;
    forall i | 0 <= i < |r| - 2
      ensures !(r[i] == '\n' && r[i + 1] == '\n' && r[i + 2] == '\n')
    {
      if i >= |p| {
        assert r[i] == t[i - |p|] && r[i + 1] == t[i - |p| + 1] && r[i + 2] == t[i - |p| + 2];
      } else {
        assert i + 2 >= |p|;
        if i + 2 == |p| { assert r[i + 2] == t[0]; }
        else { assert r[i + 1] == t[0]; }
      }
    }
  }

  lemma {:induction false} AllNewlines(p: string)
    requires forall i :: 0 <= i < |p| ==> p[i] == '\n'
    ensures WithoutNewlines(p) == []
  {
    if p != [] {
      AllNewlines(p[1..]);
    }
  }

  lemma {:induction false} WithoutNewlinesAppend(a: string, b: string)
    ensures WithoutNewlines(a + b) == WithoutNewlines(a) + WithoutNewlines(b)
  {
    if a != [] {
      assert (a + b)[1..] == a[1..] + b;
      WithoutNewlinesAppend(a[1..], b);
    } else {
      assert a + b == b;
    }
  }

  // ---------------------------------------------------------------------
  // Assembly (sidebar.js:1106-1154)

  /** The title and the converted body, before the clean-up. */
  function TitledBody(title: string, body: string): string {
    "# " + title + "\n\n" + body
  }

  /** The export: title and body cleaned of long newline runs, then the
      Sources appendix when the note has sources. */
  method ConvertToMarkdown(body: string, sources: seq<NoteSources.Source>, title: string) returns (md: string)
    ensures md == CollapseNewlines(TitledBody(title, body)) + NoteSources.Appendix(sources)
  {
    md := TitledBody(title, body);
    md := CollapseNewlines(md);
    var appendix := NoteSources.WriteAppendix(sources);
    md := md + appendix;
  }

  /** The part before the appendix has no run of three line feeds, and
      the appendix is empty exactly when the note has no sources. */
  lemma MarkdownShape(body: string, sources: seq<NoteSources.Source>, title: string)
    ensures NoTripleNewline(CollapseNewlines(TitledBody(title, body)))
    ensures NoteSources.Appendix(sources) == [] <==> sources == []
  {
    CollapseNewlinesSpec(TitledBody(title, body));
  }
}
