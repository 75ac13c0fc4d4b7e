/**
  The numbering of a note's sources in the Markdown export (sidebar.js
  convertToMarkdown): the display numbers given to inline citations and
  the Sources appendix (duplicates removed, sorted by number, renumbered).
*/
module NoteSources {
  import opened Wrappers
  import opened Text
  import opened Seqs
  import Extraction

  type Source = Extraction.Source

  function Labels(sources: seq<Source>): (r: seq<string>)
    ensures |r| == |sources| && forall k :: 0 <= k < |sources| ==> r[k] == sources[k].sourceIndex
  {
    Extraction.Labels(sources)
  }

  // ---------------------------------------------------------------------
  // Display numbers of inline citations (sidebar.js:952-959)

  /** The map from a source's label to its display number: its 1-based
      position in the list, a later duplicate overwriting an earlier one. */
  function DisplayNumbers(sources: seq<Source>): map<string, string>
  {
    if sources == [] then map[]
    else
      var n := |sources|;
      DisplayNumbers(sources[..n - 1])[sources[n - 1].sourceIndex := NatToString(n)]
  }

  /** A label is mapped exactly when some source carries it, and it is
      mapped to the position (plus one) of the last source carrying it. */
  lemma {:induction false} DisplayNumbersLast(sources: seq<Source>)
    ensures forall id :: id in DisplayNumbers(sources) <==> id in Labels(sources)
    ensures forall k :: 0 <= k < |sources| && LastWith(sources, k) ==>
              DisplayNumbers(sources)[sources[k].sourceIndex] == NatToString(k + 1)
  {
    if sources != [] {
      var n := |sources|;
      var init := sources[..n - 1];
      DisplayNumbersLast(init);
      assert Labels(sources) == Labels(init) + [sources[n - 1].sourceIndex];
      forall k | 0 <= k < n && LastWith(sources, k)
        ensures DisplayNumbers(sources)[sources[k].sourceIndex] == NatToString(k + 1)
      {
        if k < n - 1 {
          assert sources[k].sourceIndex != sources[n - 1].sourceIndex;
          assert LastWith(init, k);
        }
      }
    }
  }

  /** No later source carries the label of source `k`. */
  predicate LastWith(sources: seq<Source>, k: nat)
    requires k < |sources|
  {
    forall j :: k < j < |sources| ==> sources[j].sourceIndex != sources[k].sourceIndex
  }

  /** The loop that fills the display-number map. */
  method BuildDisplayMap(sources: seq<Source>) returns (m: map<string, string>)
    ensures m == DisplayNumbers(sources)
  {
    m := map[];
    var i := 0;
    while i < |sources|
      invariant 0 <= i <= |sources|
      invariant m == DisplayNumbers(sources[..i])
    {
      assert sources[..i + 1][..i] == sources[..i];
      m := m[sources[i].sourceIndex := NatToString(i + 1)];
      i := i + 1;
    }
    assert sources[..i] == sources;
  }

  // ---------------------------------------------------------------------
  // De-duplication (sidebar.js:1117-1123)

  /** The sources with each label kept once, at its first occurrence. */
  function Unique(sources: seq<Source>): (r: seq<Source>)
    ensures |r| <= |sources|
  {
    if sources == [] then []
    else
      var u := Unique(sources[..|sources| - 1]);
      var x := sources[|sources| - 1];
      if x.sourceIndex in Labels(u) then u else u + [x]
  }

  predicate DistinctLabels(s: seq<Source>) {
    forall a, b :: 0 <= a < b < |s| ==> s[a].sourceIndex != s[b].sourceIndex
  }

  /** After de-duplication no two sources share a label and every label of
      the input is still present. */
  lemma {:induction false} UniqueLabels(sources: seq<Source>)
    ensures DistinctLabels(Unique(sources))
    ensures forall id :: id in Labels(Unique(sources)) <==> id in Labels(sources)
  {
    if sources != [] {
      var n := |sources|;
      var init := sources[..n - 1];
      var x := sources[n - 1];
      UniqueLabels(init);
      assert Labels(sources) == Labels(init) + [x.sourceIndex];
      var u0 := Unique(init);
      if x.sourceIndex !in Labels(u0) {
        var u := u0 + [x];
        assert Labels(u) == Labels(u0) + [x.sourceIndex];
        forall a, b | 0 <= a < b < |u|
          ensures u[a].sourceIndex != u[b].sourceIndex
        {
          if b == |u| - 1 {
            assert Labels(u0)[a] == u[a].sourceIndex;
          }
        }
      }
    }
  }

  /** No earlier source carries the label of source `j`. */
  predicate IsFirst(sources: seq<Source>, j: nat)
    requires j < |sources|
  {
    forall i :: 0 <= i < j ==> sources[i].sourceIndex != sources[j].sourceIndex
  }

  /** The first occurrences among `sources[..n]`, in order: the reference
      definition of keeping the first source of each label. */
  function FirstOccurrences(sources: seq<Source>, n: nat): seq<Source>
    requires n <= |sources|
  {
    if n == 0 then []
    else FirstOccurrences(sources, n - 1) + (if IsFirst(sources, n - 1) then [sources[n - 1]] else [])
  }

  /** De-duplication keeps exactly the first source of each label, in
      input order. */
  lemma {:induction false} UniqueIsFirstOccurrences(sources: seq<Source>, n: nat)
    requires n <= |sources|
    ensures Unique(sources[..n]) == FirstOccurrences(sources, n)
  {
    if n > 0 {
      var x := sources[n - 1];
      assert sources[..n][..n - 1] == sources[..n - 1];
      UniqueIsFirstOccurrences(sources, n - 1);
      UniqueLabels(sources[..n - 1]);
      if IsFirst(sources, n - 1) {
        assert x.sourceIndex !in Labels(sources[..n - 1]);
      } else {
        var i :| 0 <= i < n - 1 && sources[i].sourceIndex == x.sourceIndex;
        assert Labels(sources[..n - 1])[i] == x.sourceIndex;
      }
    }
  }

  /** The de-duplication loop (insertion-ordered map keyed by label). */
  method DedupSources(sources: seq<Source>) returns (unique: seq<Source>)
    ensures unique == Unique(sources)
  {
    unique := [];
    var i := 0;
    while i < |sources|
      invariant 0 <= i <= |sources|
      invariant unique == Unique(sources[..i])
    {
      assert sources[..i + 1][..i] == sources[..i];
      if sources[i].sourceIndex !in Labels(unique) {
        unique := unique + [sources[i]];
      }
      i := i + 1;
    }
    assert sources[..i] == sources;
  }

  // ---------------------------------------------------------------------
  // Sorting by number (sidebar.js:1127-1132)

  /** `parseInt(sourceIndex) || 0`. */
  function Key(s: Source): int {
    match ParseInt(s.sourceIndex, false)
    case None => 0
    case Some(v) => v
  }

  predicate SortedBy(s: seq<Source>, key: Source -> int) {
    forall a, b :: 0 <= a < b < |s| ==> key(s[a]) <= key(s[b])
  }

  /** Inserts `x` after every element whose key is not larger. */
  function Insert(sorted: seq<Source>, x: Source, key: Source -> int): (r: seq<Source>)
    ensures multiset(r) == multiset(sorted) + multiset{x}
  {
    if sorted == [] then [x]
    else
      var last := sorted[|sorted| - 1];
      var init := sorted[..|sorted| - 1];
      assert sorted == init + [last];
      if key(last) <= key(x) then sorted + [x] else Insert(init, x, key) + [last]
  }

  /** A stable sort by key (an insertion sort from the front), standing for
      `Array.prototype.sort` with the comparator `numA - numB`. */
  function SortBy(s: seq<Source>, key: Source -> int): (r: seq<Source>)
    ensures multiset(r) == multiset(s)
  {
    if s == [] then []
    else
      assert s == s[..|s| - 1] + [s[|s| - 1]];
      Insert(SortBy(s[..|s| - 1], key), s[|s| - 1], key)
  }

  lemma {:induction false} InsertSorted(sorted: seq<Source>, x: Source, key: Source -> int)
    requires SortedBy(sorted, key)
    ensures SortedBy(Insert(sorted, x, key), key)
  {
    if sorted != [] {
      var last := sorted[|sorted| - 1];
      var init := sorted[..|sorted| - 1];
      if key(last) > key(x) {
        InsertSorted(init, x, key);
        var r := Insert(init, x, key);
        InsertBelow(init, x, key, last);
        var out := r + [last];
        forall a, b | 0 <= a < b < |out|
          ensures key(out[a]) <= key(out[b])
        {
          if b == |out| - 1 {
            assert out[a] == r[a];
          } else {
            assert out[a] == r[a] && out[b] == r[b];
          }
        }
      }
    }
  }

  function KeyIs(key: Source -> int, v: int): Source -> bool {
    x => key(x) == v
  }

  /** Inserting `x` leaves the elements with any one key in their order,
      and an element with the key of `x` lands after all the others. */
  lemma {:induction false} InsertStable(sorted: seq<Source>, x: Source, key: Source -> int, v: int)
    ensures Filter(Insert(sorted, x, key), KeyIs(key, v))
            == Filter(sorted, KeyIs(key, v)) + Filter([x], KeyIs(key, v))
  {
    var p := KeyIs(key, v);
    if sorted == [] {
      assert Insert(sorted, x, key) == [x];
    } else {
      var last := sorted[|sorted| - 1];
      var init := sorted[..|sorted| - 1];
      assert sorted == init + [last];
      if key(last) <= key(x) {
        assert Insert(sorted, x, key) == sorted + [x];
        FilterAppend(sorted, [x], p);
      } else {
        var r := Insert(init, x, key);
        assert Insert(sorted, x, key) == r + [last];
        InsertStable(init, x, key, v);
        FilterAppend(r, [last], p);
        FilterAppend(init, [last], p);
        // `last` and `x` have different keys, so at most one of them is kept
        if p(x) {
          assert Filter([last], p) == [] && Filter([x], p) == [x];
        } else {
          assert Filter([x], p) == [];
        }
      }
    }
  }

  lemma {:induction false} SortByStable(s: seq<Source>, key: Source -> int, v: int)
    ensures Filter(SortBy(s, key), KeyIs(key, v)) == Filter(s, KeyIs(key, v))
  {
    if s != [] {
      var init := s[..|s| - 1];
      SortByStable(init, key, v);
      assert SortBy(s, key) == Insert(SortBy(init, key), s[|s| - 1], key);
      InsertStable(SortBy(init, key), s[|s| - 1], key, v);
      FilterAppend(init, [s[|s| - 1]], KeyIs(key, v));
      assert s == init + [s[|s| - 1]];
    }
  }

  /** Every element of the insertion result has a key no larger than a
      bound both the list and the inserted element respect. */
  lemma InsertBelow(init: seq<Source>, x: Source, key: Source -> int, last: Source)
    requires forall a :: 0 <= a < |init| ==> key(init[a]) <= key(last)
    requires key(x) < key(last)
    ensures forall a :: 0 <= a < |Insert(init, x, key)| ==> key(Insert(init, x, key)[a]) <= key(last)
  {
    var r := Insert(init, x, key);
    forall a | 0 <= a < |r|
      ensures key(r[a]) <= key(last)
    {
      var y := r[a];
      assert y in multiset(r);
      if y != x {
        assert y in multiset(init);
        var i :| 0 <= i < |init| && init[i] == y;
      }
    }
  }

  /** The sorted list is ordered by key, is a permutation of the input, and
      is stable: the elements sharing any one key keep their input order. */
  lemma {:induction false} SortBySorted(s: seq<Source>, key: Source -> int)
    ensures SortedBy(SortBy(s, key), key)
    ensures multiset(SortBy(s, key)) == multiset(s)
    ensures forall v :: Filter(SortBy(s, key), KeyIs(key, v)) == Filter(s, KeyIs(key, v))
  {
    if s != [] {
      SortBySorted(s[..|s| - 1], key);
      InsertSorted(SortBy(s[..|s| - 1], key), s[|s| - 1], key);
    }
    forall v {
      SortByStable(s, key, v);
    }
  }

  // ---------------------------------------------------------------------
  // The appendix (sidebar.js:1113-1152)

  const SourcesHeading: string := "\n\n---\n\n## Sources\n\n"

  function AnchorTag(n: nat): string {
    "<a id=\"src-" + NatToString(n) + "\"></a>\n"
  }

  function BackLink(n: nat): string {
    "**[[" + NatToString(n) + "]](#cite-ref-" + NatToString(n) + "-1)** "
  }

  /** The entry numbered `n`: its anchor, its number linking back to the
      first citation carrying it, its text, and a quote line only when the
      quote is not empty. */
  function Entry(n: nat, s: Source): string {
    AnchorTag(n) + BackLink(n) + EntryBody(s)
  }

  function EntryBody(s: Source): string {
    s.text + "\n\n" + (if s.quote != [] then "> " + s.quote + "\n\n" else "")
  }

  /** The entries of `xs[lo..hi]`, numbered by position from 1. */
  function EntriesBetween(xs: seq<Source>, lo: nat, hi: nat): string
    requires lo <= hi <= |xs|
    decreases hi
  {
    if hi == lo then [] else EntriesBetween(xs, lo, hi - 1) + Entry(hi, xs[hi - 1])
  }

  /** The order of the appendix: de-duplicated, then sorted by number. */
  function AppendixOrder(sources: seq<Source>): seq<Source> {
    SortBy(Unique(sources), Key)
  }

  /** The text appended after the cleaned-up note body. */
  function Appendix(sources: seq<Source>): string {
    if sources == [] then []
    else
      var order := AppendixOrder(sources);
      SourcesHeading + EntriesBetween(order, 0, |order|)
  }

  /** Each label of the input appears exactly once in the appendix, the
      entries are ordered by number, and the entry numbered `k + 1` carries
      its anchor `src-(k+1)` and links back to `cite-ref-(k+1)-1`. */
  lemma AppendixEntries(sources: seq<Source>, k: nat)
    requires k < |AppendixOrder(sources)|
    ensures var order := AppendixOrder(sources);
            && DistinctLabels(order) && SortedBy(order, Key)
            && (forall id :: id in Labels(order) <==> id in Labels(sources))
            && Includes(Appendix(sources), AnchorTag(k + 1) + BackLink(k + 1))
  {
    var u := Unique(sources);
    var order := AppendixOrder(sources);
    UniqueLabels(sources);
    SortBySorted(u, Key);
    PermutationLabels(u, order);
    EntryIncluded(order, k);
  }

  lemma {:induction false} EntryIncluded(order: seq<Source>, k: nat)
    requires k < |order|
    ensures Includes(SourcesHeading + EntriesBetween(order, 0, |order|), AnchorTag(k + 1) + BackLink(k + 1))
  {
    EntryIncludedUpTo(SourcesHeading, order, k, |order|);
  }

  lemma {:induction false} EntryIncludedUpTo(h: string, order: seq<Source>, k: nat, hi: nat)
    requires k < hi <= |order|
    ensures Includes(h + EntriesBetween(order, 0, hi), AnchorTag(k + 1) + BackLink(k + 1))
    decreases hi
  {
    EntriesStep(h, order, hi);
    if k == hi - 1 {
      HeadIncluded(h + EntriesBetween(order, 0, hi - 1), hi, order[hi - 1]);
    } else {
      EntryIncludedUpTo(h, order, k, hi - 1);
      IncludesExtend(h + EntriesBetween(order, 0, hi - 1), AnchorTag(k + 1) + BackLink(k + 1), Entry(hi, order[hi - 1]));
    }
  }

  lemma EntriesStep(h: string, order: seq<Source>, hi: nat)
    requires 0 < hi <= |order|
    ensures h + EntriesBetween(order, 0, hi) == (h + EntriesBetween(order, 0, hi - 1)) + Entry(hi, order[hi - 1])
  {
  }

  lemma HeadIncluded(pre: string, n: nat, x: Source)
    ensures Includes(pre + Entry(n, x), AnchorTag(n) + BackLink(n))
  {
    IncludesMiddle(pre, AnchorTag(n) + BackLink(n), EntryBody(x));
    assert pre + (AnchorTag(n) + BackLink(n)) + EntryBody(x) == pre + Entry(n, x);
  }

  /** A permutation keeps the set of labels and their distinctness. */
  lemma PermutationLabels(a: seq<Source>, b: seq<Source>)
    requires multiset(a) == multiset(b) && DistinctLabels(a)
    ensures DistinctLabels(b)
    ensures forall id :: id in Labels(b) <==> id in Labels(a)
  {
    forall id | id in Labels(a)
      ensures id in Labels(b)
    {
      var k :| 0 <= k < |a| && Labels(a)[k] == id;
      assert a[k] in multiset(b);
      var j :| 0 <= j < |b| && b[j] == a[k];
      assert Labels(b)[j] == id;
    }
    forall id | id in Labels(b)
      ensures id in Labels(a)
    {
      var k :| 0 <= k < |b| && Labels(b)[k] == id;
      assert b[k] in multiset(a);
      var j :| 0 <= j < |a| && a[j] == b[k];
      assert Labels(a)[j] == id;
    }
    forall x, y | 0 <= x < y < |b|
      ensures b[x].sourceIndex != b[y].sourceIndex
    {
      if b[x].sourceIndex == b[y].sourceIndex {
        DistinctNoTwins(a, b, x, y);
      }
    }
  }

  /** Two positions of a permutation of a list with distinct labels hold
      different sources, so equal labels would contradict distinctness. */
  lemma DistinctNoTwins(a: seq<Source>, b: seq<Source>, x: nat, y: nat)
    requires multiset(a) == multiset(b) && DistinctLabels(a)
    requires x < y < |b|
    ensures b[x].sourceIndex != b[y].sourceIndex
  {
    assert b[x] in multiset(a) && b[y] in multiset(a);
    var i :| 0 <= i < |a| && a[i] == b[x];
    var j :| 0 <= j < |a| && a[j] == b[y];
    OnlyOnce(a, i);
    TwoPositions(b, x, y);
  }

  /** A value found at two positions occurs at least twice. */
  lemma TwoPositions<T>(b: seq<T>, x: nat, y: nat)
    requires x < y < |b|
    ensures b[x] == b[y] ==> multiset(b)[b[x]] >= 2
  {
    assert b == b[..y] + b[y..];
    assert b[..y][x] == b[x] && b[y..][0] == b[y];
    assert multiset(b) == multiset(b[..y]) + multiset(b[y..]);
  }

  lemma {:induction false} OnlyOnce(a: seq<Source>, i: nat)
    requires DistinctLabels(a) && i < |a|
    ensures multiset(a)[a[i]] == 1
  {
    assert a == a[..i] + [a[i]] + a[i + 1..];
    assert a[i] !in a[..i] by {
      forall j | 0 <= j < i ensures a[j] != a[i] { assert a[j].sourceIndex != a[i].sourceIndex; }
    }
    assert a[i] !in a[i + 1..] by {
      forall j | i + 1 <= j < |a| ensures a[j] != a[i] { assert a[j].sourceIndex != a[i].sourceIndex; }
    }
  }

  /** The loop that writes the entries, numbering them from 1. */
  method WriteAppendix(sources: seq<Source>) returns (text: string)
    ensures text == Appendix(sources)
  {
    if |sources| == 0 {
      return [];
    }
    var unique := DedupSources(sources);
    var order := SortBy(unique, Key);
    var entries := [];
    var i := 0;
    while i < |order|
      invariant 0 <= i <= |order|
      invariant entries == EntriesBetween(order, 0, i)
    {
      entries := entries + Entry(i + 1, order[i]);
      i := i + 1;
    }
    text := SourcesHeading + entries;
  }

  // ---------------------------------------------------------------------
  // Inline numbers against appendix numbers

  /** The display number an inline citation of label `id` gets. */
  function DisplayFor(m: map<string, string>, id: string): string {
    if id in m then m[id] else id
  }

  /** As written, inline numbers come from list positions and appendix
      numbers from the sorted order: with the sources listed as "2" then
      "1", the citation of source "2" shows and links to number 1, and the
      appendix entry numbered 1 is source "1". */
  lemma InlineNumberMismatch(a: Source, b: Source)
    requires a.sourceIndex == "2" && b.sourceIndex == "1"
    ensures DisplayFor(DisplayNumbers([a, b]), "2") == NatToString(1)
    ensures AppendixOrder([a, b])[0].sourceIndex == "1"
  {
    DisplayOfTwo(a, b);
    UniqueOfTwo(a, b);
    KeyOfNumber(a, 2);
    KeyOfNumber(b, 1);
    SortOfTwo(a, b, Key);
  }

  lemma DisplayOfTwo(a: Source, b: Source)
    requires a.sourceIndex != b.sourceIndex
    ensures DisplayFor(DisplayNumbers([a, b]), a.sourceIndex) == NatToString(1)
  {
    assert [a, b][..1] == [a];
  }

  lemma UniqueOfTwo(a: Source, b: Source)
    requires a.sourceIndex != b.sourceIndex
    ensures Unique([a, b]) == [a, b]
  {
    assert [a, b][..1] == [a];
    assert [a][..0] == [];
    assert Labels([a]) == [a.sourceIndex];
  }

  lemma SortOfTwo(a: Source, b: Source, key: Source -> int)
    requires key(b) < key(a)
    ensures SortBy([a, b], key) == [b, a]
  {
    assert [a, b][..1] == [a];
    assert [a][..0] == [];
    assert SortBy([a], key) == [a];
    assert [a][..0] == [];
  }

  lemma KeyOfNumber(s: Source, n: nat)
    requires s.sourceIndex == NatToString(n)
    ensures Key(s) == n
  {
    ParseIntOfNatToString(n, false);
  }

  /** Display numbers taken from the appendix order. */
  function CorrectedDisplayNumbers(sources: seq<Source>): map<string, string> {
    DisplayNumbers(AppendixOrder(sources))
  }

  /** With the corrected map, the citation of any listed label shows the
      number `k + 1` of the appendix entry carrying that label. */
  lemma CorrectedNumbersAgree(sources: seq<Source>, id: string)
    requires id in Labels(sources)
    ensures var order := AppendixOrder(sources);
            exists k :: 0 <= k < |order| && order[k].sourceIndex == id
                        && DisplayFor(CorrectedDisplayNumbers(sources), id) == NatToString(k + 1)
  {
    var order := AppendixOrder(sources);
    UniqueLabels(sources);
    SortBySorted(Unique(sources), Key);
    PermutationLabels(Unique(sources), order);
    DisplayNumbersLast(order);
    var k :| 0 <= k < |order| && Labels(order)[k] == id;
    assert LastWith(order, k);
  }
}
