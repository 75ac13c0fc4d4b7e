/** Bookkeeping of the content script's extractors (content.js): citation
    collection from a note's hover tooltips, the choice of the content
    container inside a viewer, the lookup of a note by title or index, and
    the strategy order of `handleArtifactDownload`. Everything the page
    would show (span texts, tooltip contents, selector matches, extractor
    results) arrives as an input. */
module Extraction {
  import opened Wrappers
  import opened Text

  // ---------------------------------------------------------------------
  // Citations (content.js:1621-1870)

  /** What hovering one citation button yields. `Populated` carries the
      trimmed footer text (the source title, "" when absent) and the
      converted quote before its final trim. */
  datatype Attempt =
    | NoTooltip
    | NoContent
    | Threw(message: string)
    | Populated(title: string, highlighted: string)

  /** One stored citation: its 1-based position, the source title, the
      trimmed quote, an empty link and the button's label. */
  datatype Source = Source(index: nat, text: string, quote: string, href: string, sourceIndex: string)

  /** A queued button: its position among all citation buttons and its label. */
  datatype Queued = Queued(button: nat, spanText: string)

  datatype Collected = Collected(sources: seq<Source>, errors: seq<string>)

  function Labels(sources: seq<Source>): (r: seq<string>)
    ensures |r| == |sources| && forall k :: 0 <= k < |sources| ==> r[k] == sources[k].sourceIndex
  {
    seq(|sources|, k requires 0 <= k < |sources| => sources[k].sourceIndex)
  }

  /** The buttons whose span text is present and not blank, with that text
      trimmed, in document order. */
  function QueuedFrom(spans: seq<Option<string>>): (q: seq<Queued>)
    ensures forall k :: 0 <= k < |q| ==> q[k].button < |spans|
  {
    if |spans| == 0 then []
    else
      var last := spans[|spans| - 1];
      var q := QueuedFrom(spans[..|spans| - 1]);
      if last.Some? && Trim(last.value) != [] then q + [Queued(|spans| - 1, Trim(last.value))]
      else q
  }

  /** A button is queued exactly when its span is present and not blank,
      under its trimmed text, in document order. */
  lemma QueuedButtons(spans: seq<Option<string>>)
    ensures var q := QueuedFrom(spans);
            && (forall k :: 0 <= k < |q| ==> spans[q[k].button].Some? && q[k].spanText == Trim(spans[q[k].button].value) != [])
            && (forall a, b :: 0 <= a < b < |q| ==> q[a].button < q[b].button)
            && (forall b :: 0 <= b < |spans| && spans[b].Some? && Trim(spans[b].value) != [] ==>
                  exists k :: 0 <= k < |q| && q[k].button == b)
  {
    QueuedSound(spans);
    QueuedOrdered(spans);
    QueuedComplete(spans);
  }

  /** The queue of `spans` extends the queue of all but its last span. */
  lemma QueuedInit(spans: seq<Option<string>>)
    requires |spans| > 0
    ensures var init := spans[..|spans| - 1];
            var qi, q := QueuedFrom(init), QueuedFrom(spans);
            && |qi| <= |q| <= |qi| + 1
            && (forall k :: 0 <= k < |qi| ==> q[k] == qi[k])
            && (forall b :: 0 <= b < |init| ==> init[b] == spans[b])
            && (|q| > |qi| ==> q[|qi|] == Queued(|spans| - 1, Trim(spans[|spans| - 1].value)))
            && (|q| > |qi| <==> spans[|spans| - 1].Some? && Trim(spans[|spans| - 1].value) != [])
  {
  }

  lemma {:induction false} QueuedSound(spans: seq<Option<string>>)
    ensures var q := QueuedFrom(spans);
            forall k :: 0 <= k < |q| ==> spans[q[k].button].Some? && q[k].spanText == Trim(spans[q[k].button].value) != []
  {
    if |spans| > 0 {
      QueuedSound(spans[..|spans| - 1]);
      QueuedInit(spans);
    }
  }

  lemma {:induction false} QueuedOrdered(spans: seq<Option<string>>)
    ensures var q := QueuedFrom(spans);
            forall a, b :: 0 <= a < b < |q| ==> q[a].button < q[b].button
  {
    if |spans| > 0 {
      QueuedOrdered(spans[..|spans| - 1]);
      QueuedInit(spans);
    }
  }

  lemma {:induction false} QueuedComplete(spans: seq<Option<string>>)
    ensures var q := QueuedFrom(spans);
            forall b :: 0 <= b < |spans| && spans[b].Some? && Trim(spans[b].value) != [] ==>
              exists k :: 0 <= k < |q| && q[k].button == b
  {
    if |spans| > 0 {
      var init := spans[..|spans| - 1];
      QueuedComplete(init);
      QueuedInit(spans);
      var qi, q := QueuedFrom(init), QueuedFrom(spans);
      forall b | 0 <= b < |spans| && spans[b].Some? && Trim(spans[b].value) != []
        ensures exists k :: 0 <= k < |q| && q[k].button == b
      {
        if b == |spans| - 1 {
          assert q[|qi|].button == b;
        } else {
          var k :| 0 <= k < |qi| && qi[k].button == b;
          assert q[k].button == b;
        }
      }
    }
  }

  function NoTooltipError(spanLabel: string): string {
    "Citation " + spanLabel + ": Tooltip container did not appear after mouseenter"
  }

  function NoContentError(spanLabel: string): string {
    "Citation " + spanLabel + ": Tooltip has no content (timeout after 600ms)"
  }

  function ThrewError(spanLabel: string, message: string): string {
    "Citation " + spanLabel + ": " + message
  }

  function EmptyTitleError(spanLabel: string): string {
    "Citation " + spanLabel + ": Empty source filename"
  }

  function EmptyQuoteError(spanLabel: string, title: string): string {
    "Citation " + spanLabel + ": Empty quote text (source: " + (if title == [] then "unknown" else title) + ")"
  }

  /** The state after handling one queued button: a label already stored
      is skipped; a missing or empty tooltip or a thrown error appends one
      error and stores nothing; a populated tooltip is stored (even with an
      empty title or quote, which each add an error). */
  function Step(c: Collected, spanLabel: string, attempt: Attempt): Collected {
    if spanLabel in Labels(c.sources) then c
    else
      match attempt
      case NoTooltip => Collected(c.sources, c.errors + [NoTooltipError(spanLabel)])
      case NoContent => Collected(c.sources, c.errors + [NoContentError(spanLabel)])
      case Threw(m) => Collected(c.sources, c.errors + [ThrewError(spanLabel, m)])
      case Populated(title, highlighted) =>
        var quote := Trim(highlighted);
        var titleErrors := if Trim(title) == [] then [EmptyTitleError(spanLabel)] else [];
        var quoteErrors := if quote == [] then [EmptyQuoteError(spanLabel, title)] else [];
        Collected(c.sources + [Source(|c.sources| + 1, title, quote, "", spanLabel)], c.errors + titleErrors + quoteErrors)
  }

  /** The state after the queued buttons `q`, in order. */
  function CollectAll(q: seq<Queued>, attempts: seq<Attempt>): Collected
    requires forall k :: 0 <= k < |q| ==> q[k].button < |attempts|
  {
    if |q| == 0 then Collected([], [])
    else
      var last := q[|q| - 1];
      Step(CollectAll(q[..|q| - 1], attempts), last.spanText, attempts[last.button])
  }

  /** `true` when some queued button before position `n` with this label
      yielded a populated tooltip. */
  predicate PopulatedBefore(q: seq<Queued>, attempts: seq<Attempt>, spanLabel: string, n: nat)
    requires n <= |q| && forall k :: 0 <= k < |q| ==> q[k].button < |attempts|
  {
    exists k :: 0 <= k < n && q[k].spanText == spanLabel && attempts[q[k].button].Populated?
  }

  /** The collected sources never share a label, each one's `index` is its
      1-based position, and a label is stored exactly when one of its
      buttons yielded a populated tooltip. */
  lemma CollectedSources(q: seq<Queued>, attempts: seq<Attempt>)
    requires forall k :: 0 <= k < |q| ==> q[k].button < |attempts|
    ensures Numbered(CollectAll(q, attempts).sources)
    ensures forall l :: l in Labels(CollectAll(q, attempts).sources) <==> PopulatedBefore(q, attempts, l, |q|)
  {
    CollectedNumbered(q, attempts);
    forall l
      ensures l in Labels(CollectAll(q, attempts).sources) <==> PopulatedBefore(q, attempts, l, |q|)
    {
      CollectedLabel(q, attempts, l);
    }
  }

  lemma {:induction false} CollectedNumbered(q: seq<Queued>, attempts: seq<Attempt>)
    requires forall k :: 0 <= k < |q| ==> q[k].button < |attempts|
    ensures Numbered(CollectAll(q, attempts).sources)
  {
    if |q| > 0 {
      var last := q[|q| - 1];
      CollectedNumbered(q[..|q| - 1], attempts);
      StepKeepsNumbering(CollectAll(q[..|q| - 1], attempts), last.spanText, attempts[last.button]);
    }
  }

  lemma {:induction false} CollectedLabel(q: seq<Queued>, attempts: seq<Attempt>, l: string)
    requires forall k :: 0 <= k < |q| ==> q[k].button < |attempts|
    ensures l in Labels(CollectAll(q, attempts).sources) <==> PopulatedBefore(q, attempts, l, |q|)
  {
    if |q| > 0 {
      var init, last := q[..|q| - 1], q[|q| - 1];
      CollectedNumbered(init, attempts);
      CollectedLabel(init, attempts, l);
      StepKeepsNumbering(CollectAll(init, attempts), last.spanText, attempts[last.button]);
      PopulatedStep(q, attempts, l);
    }
  }

  /** A label was populated before the end of `q` exactly when it was
      before its last button, or that button has it and was populated. */
  lemma PopulatedStep(q: seq<Queued>, attempts: seq<Attempt>, l: string)
    requires |q| > 0 && forall k :: 0 <= k < |q| ==> q[k].button < |attempts|
    ensures var init, last := q[..|q| - 1], q[|q| - 1];
            PopulatedBefore(q, attempts, l, |q|)
            <==> PopulatedBefore(init, attempts, l, |init|) || (last.spanText == l && attempts[last.button].Populated?)
  {
    var init := q[..|q| - 1];
    if PopulatedBefore(init, attempts, l, |init|) {
      var k :| 0 <= k < |init| && init[k].spanText == l && attempts[init[k].button].Populated?;
      assert q[k] == init[k];
    }
    if PopulatedBefore(q, attempts, l, |q|) {
      var k :| 0 <= k < |q| && q[k].spanText == l && attempts[q[k].button].Populated?;
      if k < |init| {
        assert init[k] == q[k];
      }
    }
  }

  /** Button `j` is the first of its label whose hover was populated: the
      hover that stores the label. */
  predicate FirstPopulatedAt(q: seq<Queued>, attempts: seq<Attempt>, j: nat)
    requires j < |q| && forall k :: 0 <= k < |q| ==> q[k].button < |attempts|
  {
    attempts[q[j].button].Populated? && !PopulatedBefore(q, attempts, q[j].spanText, j)
  }

  /** The positions before `n` whose hover stores a label, in queue order. */
  function Origins(q: seq<Queued>, attempts: seq<Attempt>, n: nat): (o: seq<nat>)
    requires n <= |q| && forall k :: 0 <= k < |q| ==> q[k].button < |attempts|
    ensures forall k :: 0 <= k < |o| ==> o[k] < n
  {
    if n == 0 then []
    else Origins(q, attempts, n - 1) + (if FirstPopulatedAt(q, attempts, n - 1) then [n - 1] else [])
  }

  /** The entry that the populated hover of button `j` stores as the
      `k`-th source (from 0): the tooltip's title and trimmed quote. */
  function EntryAt(q: seq<Queued>, attempts: seq<Attempt>, j: nat, k: nat): Source
    requires j < |q| && forall i :: 0 <= i < |q| ==> q[i].button < |attempts|
    requires attempts[q[j].button].Populated?
  {
    var a := attempts[q[j].button];
    Source(k + 1, a.title, Trim(a.highlighted), "", q[j].spanText)
  }

  /** The messages the hover of button `j` logs: none when its label was
      stored by an earlier button, one for a failed hover, and one each for
      an empty title and an empty quote of a populated one. */
  function MessagesAt(q: seq<Queued>, attempts: seq<Attempt>, j: nat): seq<string>
    requires j < |q| && forall k :: 0 <= k < |q| ==> q[k].button < |attempts|
  {
    var l := q[j].spanText;
    if PopulatedBefore(q, attempts, l, j) then []
    else
      match attempts[q[j].button]
      case NoTooltip => [NoTooltipError(l)]
      case NoContent => [NoContentError(l)]
      case Threw(m) => [ThrewError(l, m)]
      case Populated(title, highlighted) =>
        (if Trim(title) == [] then [EmptyTitleError(l)] else [])
        + (if Trim(highlighted) == [] then [EmptyQuoteError(l, title)] else [])
  }

  /** The messages of the buttons before `n`, in queue order. */
  function ErrorsUpTo(q: seq<Queued>, attempts: seq<Attempt>, n: nat): seq<string>
    requires n <= |q| && forall k :: 0 <= k < |q| ==> q[k].button < |attempts|
  {
    if n == 0 then [] else ErrorsUpTo(q, attempts, n - 1) + MessagesAt(q, attempts, n - 1)
  }

  /** The origins are increasing, each is the first populated hover of its
      label, and every such hover before `n` is one of them. */
  lemma {:induction false} OriginsAreFirsts(q: seq<Queued>, attempts: seq<Attempt>, n: nat)
    requires n <= |q| && forall k :: 0 <= k < |q| ==> q[k].button < |attempts|
    ensures var o := Origins(q, attempts, n);
            && (forall a, b :: 0 <= a < b < |o| ==> o[a] < o[b])
            && (forall k :: 0 <= k < |o| ==> FirstPopulatedAt(q, attempts, o[k]))
            && (forall j :: 0 <= j < n && FirstPopulatedAt(q, attempts, j) ==> j in o)
  {
    if n > 0 {
      OriginsAreFirsts(q, attempts, n - 1);
    }
  }

  /** The collection after the first `n` buttons is the reference: the
      entries stored by the first populated hovers, in queue order, and
      the messages of every button. */
  lemma {:induction false} CollectedPrefix(q: seq<Queued>, attempts: seq<Attempt>, n: nat)
    requires n <= |q| && forall k :: 0 <= k < |q| ==> q[k].button < |attempts|
    ensures var c, o := CollectAll(q[..n], attempts), Origins(q, attempts, n);
            && |c.sources| == |o|
            && (forall k :: 0 <= k < |o| ==>
                  attempts[q[o[k]].button].Populated? && c.sources[k] == EntryAt(q, attempts, o[k], k))
            && c.errors == ErrorsUpTo(q, attempts, n)
  {
    if n > 0 {
      var init := q[..n - 1];
      assert q[..n][..n - 1] == init;
      CollectedPrefix(q, attempts, n - 1);
      var c := CollectAll(init, attempts);
      var l, a := q[n - 1].spanText, attempts[q[n - 1].button];
      assert CollectAll(q[..n], attempts) == Step(c, l, a);
      CollectedLabel(init, attempts, l);
      PopulatedPrefix(q, attempts, l, n - 1);
      StepFollowsReference(q, attempts, n, c);
    }
  }

  /** One hover takes a collection that matches the reference for the
      first `n - 1` buttons to one that matches it for the first `n`. */
  lemma StepFollowsReference(q: seq<Queued>, attempts: seq<Attempt>, n: nat, c: Collected)
    requires 0 < n <= |q| && forall k :: 0 <= k < |q| ==> q[k].button < |attempts|
    requires var o := Origins(q, attempts, n - 1);
             && |c.sources| == |o|
             && (forall k :: 0 <= k < |o| ==>
                   attempts[q[o[k]].button].Populated? && c.sources[k] == EntryAt(q, attempts, o[k], k))
             && c.errors == ErrorsUpTo(q, attempts, n - 1)
    requires q[n - 1].spanText in Labels(c.sources) <==> PopulatedBefore(q, attempts, q[n - 1].spanText, n - 1)
    ensures var d, o := Step(c, q[n - 1].spanText, attempts[q[n - 1].button]), Origins(q, attempts, n);
            && |d.sources| == |o|
            && (forall k :: 0 <= k < |o| ==>
                  attempts[q[o[k]].button].Populated? && d.sources[k] == EntryAt(q, attempts, o[k], k))
            && d.errors == ErrorsUpTo(q, attempts, n)
  {
    var l, a := q[n - 1].spanText, attempts[q[n - 1].button];
    var o := Origins(q, attempts, n - 1);
    var d := Step(c, l, a);
    if l in Labels(c.sources) || !a.Populated? {
      StepKeeps(q, attempts, n, c);
    } else {
      StepStores(q, attempts, n, c);
      forall k | 0 <= k < |o| + 1
        ensures attempts[q[(o + [n - 1])[k]].button].Populated?
        ensures d.sources[k] == EntryAt(q, attempts, (o + [n - 1])[k], k)
      {
        if k < |o| {
          assert (o + [n - 1])[k] == o[k] && d.sources[k] == c.sources[k];
        }
      }
    }
  }

  /** A hover that stores nothing: its label was stored before, or the
      tooltip failed. Only its messages are added. */
  lemma StepKeeps(q: seq<Queued>, attempts: seq<Attempt>, n: nat, c: Collected)
    requires 0 < n <= |q| && forall k :: 0 <= k < |q| ==> q[k].button < |attempts|
    requires q[n - 1].spanText in Labels(c.sources) <==> PopulatedBefore(q, attempts, q[n - 1].spanText, n - 1)
    requires q[n - 1].spanText in Labels(c.sources) || !attempts[q[n - 1].button].Populated?
    requires c.errors == ErrorsUpTo(q, attempts, n - 1)
    ensures var d := Step(c, q[n - 1].spanText, attempts[q[n - 1].button]);
            && d.sources == c.sources
            && d.errors == ErrorsUpTo(q, attempts, n)
            && Origins(q, attempts, n) == Origins(q, attempts, n - 1)
  {
    assert ErrorsUpTo(q, attempts, n) == c.errors + MessagesAt(q, attempts, n - 1);
  }

  /** A first populated hover: its entry is appended as the next source,
      and its messages are added. */
  lemma StepStores(q: seq<Queued>, attempts: seq<Attempt>, n: nat, c: Collected)
    requires 0 < n <= |q| && forall k :: 0 <= k < |q| ==> q[k].button < |attempts|
    requires !PopulatedBefore(q, attempts, q[n - 1].spanText, n - 1)
    requires q[n - 1].spanText !in Labels(c.sources) && attempts[q[n - 1].button].Populated?
    requires c.errors == ErrorsUpTo(q, attempts, n - 1)
    ensures var d := Step(c, q[n - 1].spanText, attempts[q[n - 1].button]);
            && d.sources == c.sources + [EntryAt(q, attempts, n - 1, |c.sources|)]
            && d.errors == ErrorsUpTo(q, attempts, n)
            && Origins(q, attempts, n) == Origins(q, attempts, n - 1) + [n - 1]
  {
    assert ErrorsUpTo(q, attempts, n) == c.errors + MessagesAt(q, attempts, n - 1);
  }

  /** Whether a label was populated before `m` depends only on the buttons
      before `m`. */
  lemma PopulatedPrefix(q: seq<Queued>, attempts: seq<Attempt>, l: string, m: nat)
    requires m <= |q| && forall k :: 0 <= k < |q| ==> q[k].button < |attempts|
    ensures PopulatedBefore(q[..m], attempts, l, m) <==> PopulatedBefore(q, attempts, l, m)
  {
    if PopulatedBefore(q, attempts, l, m) {
      var k :| 0 <= k < m && q[k].spanText == l && attempts[q[k].button].Populated?;
      assert q[..m][k] == q[k];
    }
  }

  /** What the collection holds: entry k is the entry stored by the k-th
      first populated hover, in queue order, with that tooltip's title and
      trimmed quote; every label's first populated hover gives an entry;
      and the errors are the messages of the buttons in queue order. */
  lemma CollectedContents(q: seq<Queued>, attempts: seq<Attempt>)
    requires forall k :: 0 <= k < |q| ==> q[k].button < |attempts|
    ensures var c, o := CollectAll(q, attempts), Origins(q, attempts, |q|);
            && |c.sources| == |o|
            && (forall a, b :: 0 <= a < b < |o| ==> o[a] < o[b])
            && (forall k :: 0 <= k < |o| ==>
                  FirstPopulatedAt(q, attempts, o[k]) && c.sources[k] == EntryAt(q, attempts, o[k], k))
            && (forall j :: 0 <= j < |q| && FirstPopulatedAt(q, attempts, j) ==> j in o)
            && c.errors == ErrorsUpTo(q, attempts, |q|)
  {
    assert q[..|q|] == q;
    CollectedPrefix(q, attempts, |q|);
    OriginsAreFirsts(q, attempts, |q|);
  }

  /** Stored labels are distinct and each entry's `index` is its 1-based position. */
  predicate Numbered(s: seq<Source>) {
    && (forall a, b :: 0 <= a < b < |s| ==> s[a].sourceIndex != s[b].sourceIndex)
    && (forall k :: 0 <= k < |s| ==> s[k].index == k + 1)
  }

  lemma StepKeepsNumbering(c: Collected, spanLabel: string, attempt: Attempt)
    requires Numbered(c.sources)
    ensures Numbered(Step(c, spanLabel, attempt).sources)
    ensures spanLabel in Labels(Step(c, spanLabel, attempt).sources) <==> spanLabel in Labels(c.sources) || attempt.Populated?
    ensures forall l :: l != spanLabel ==> (l in Labels(Step(c, spanLabel, attempt).sources) <==> l in Labels(c.sources))
  {
    var s := Step(c, spanLabel, attempt).sources;
    if spanLabel !in Labels(c.sources) && attempt.Populated? {
      assert s == c.sources + [Source(|c.sources| + 1, attempt.title, Trim(attempt.highlighted), "", spanLabel)];
      assert Labels(s) == Labels(c.sources) + [spanLabel];
      forall a, b | 0 <= a < b < |s|
        ensures s[a].sourceIndex != s[b].sourceIndex
      {
        if b == |s| - 1 {
          assert Labels(c.sources)[a] == s[a].sourceIndex;
        }
      }
    }
  }

  /** The two passes of the citation extraction: queue every button with a
      non-blank label (the map of stored sources is still empty then, so
      its duplicate test never excludes anything), then hover them in order,
      skipping a label that has meanwhile been stored. */
  method ExtractCitations(spans: seq<Option<string>>, attempts: seq<Attempt>) returns (sources: seq<Source>, errors: seq<string>)
    requires |attempts| == |spans|
    ensures Collected(sources, errors) == CollectAll(QueuedFrom(spans), attempts)
  {
    var queue := QueueButtons(spans);
    sources, errors := HoverAll(queue, attempts);
  }

  method QueueButtons(spans: seq<Option<string>>) returns (queue: seq<Queued>)
    ensures queue == QueuedFrom(spans)
  {
    queue := [];
    var b := 0;
    while b < |spans|
      invariant 0 <= b <= |spans|
      invariant queue == QueuedFrom(spans[..b])
    {
      assert spans[..b + 1][..b] == spans[..b];
      var span := spans[b];
      if span.Some? && Trim(span.value) != [] {
        queue := queue + [Queued(b, Trim(span.value))];
      }
      b := b + 1;
    }
    assert spans[..|spans|] == spans;
  }

  method HoverAll(queue: seq<Queued>, attempts: seq<Attempt>) returns (sources: seq<Source>, errors: seq<string>)
    requires forall k :: 0 <= k < |queue| ==> queue[k].button < |attempts|
    ensures Collected(sources, errors) == CollectAll(queue, attempts)
  {
    sources, errors := [], [];
    var i := 0;
    while i < |queue|
      invariant 0 <= i <= |queue|
      invariant Collected(sources, errors) == CollectAll(queue[..i], attempts)
    {
      CollectStep(queue, attempts, i);
      sources, errors := HoverOne(sources, errors, queue[i].spanText, attempts[queue[i].button]);
      i := i + 1;
    }
    assert queue[..|queue|] == queue;
  }

  lemma CollectStep(queue: seq<Queued>, attempts: seq<Attempt>, i: nat)
    requires i < |queue| && forall k :: 0 <= k < |queue| ==> queue[k].button < |attempts|
    ensures CollectAll(queue[..i + 1], attempts) == Step(CollectAll(queue[..i], attempts), queue[i].spanText, attempts[queue[i].button])
  {
    assert queue[..i + 1][..i] == queue[..i];
  }

  /** One pass of the hover loop's body. */
  method HoverOne(sources0: seq<Source>, errors0: seq<string>, spanLabel: string, attempt: Attempt)
    returns (sources: seq<Source>, errors: seq<string>)
    ensures Collected(sources, errors) == Step(Collected(sources0, errors0), spanLabel, attempt)
  {
    sources, errors := sources0, errors0;
    if spanLabel in Labels(sources) {
      return;
    }
    match attempt
    case NoTooltip =>
      errors := errors + [NoTooltipError(spanLabel)];
    case NoContent =>
      errors := errors + [NoContentError(spanLabel)];
    case Threw(m) =>
      errors := errors + [ThrewError(spanLabel, m)];
    case Populated(title, highlighted) =>
      var data := Source(|sources| + 1, title, Trim(highlighted), "", spanLabel);
      if Trim(title) == [] {
        errors := errors + [EmptyTitleError(spanLabel)];
      }
      if Trim(highlighted) == [] {
        errors := errors + [EmptyQuoteError(spanLabel, title)];
      }
      sources := sources + [data];
  }

  // ---------------------------------------------------------------------
  // Content container choice (content.js:1246-1268 and 2248-2269)

  /** The selectors tried inside a source viewer, in priority order. */
  const SourceContentSelectors: seq<string> :=
    [".scroll-container", "labs-tailwind-doc-viewer", ".panel-content", ".ql-editor", ".content", "[class*=\"content\"]"]

  /** The selectors tried inside a report viewer, in priority order. */
  const ReportContentSelectors: seq<string> :=
    ["labs-tailwind-doc-viewer", ".ql-editor", ".scroll-container", ".content", "[class*=\"content\"]"]

  /** `true` when candidate `k` matched and its markup is longer than 50
      UTF-16 code units. */
  predicate Long(found: seq<Option<string>>, k: nat)
    requires k < |found|
  {
    found[k].Some? && Utf16Length(found[k].value) > 50
  }

  /** The candidate the loop settles on: the first long one; otherwise the
      last selector's match when there is one; `None` means the viewer
      itself. */
  function ContentChoice(found: seq<Option<string>>): (r: Option<nat>)
    ensures r.Some? ==> r.value < |found| && found[r.value].Some?
    ensures r.None? <==> (forall k :: 0 <= k < |found| ==> !Long(found, k))
                         && (|found| == 0 || found[|found| - 1].None?)
    ensures (exists k :: 0 <= k < |found| && Long(found, k)) ==>
              r.Some? && Long(found, r.value) && forall j :: 0 <= j < r.value ==> !Long(found, j)
    ensures (forall k :: 0 <= k < |found| ==> !Long(found, k)) && r.Some? ==> r.value == |found| - 1
  {
    if exists k :: 0 <= k < |found| && Long(found, k) then Some(FirstLong(found, 0))
    else if |found| > 0 && found[|found| - 1].Some? then Some(|found| - 1)
    else None
  }

  function FirstLong(found: seq<Option<string>>, from: nat): (k: nat)
    requires from <= |found| && exists k :: from <= k < |found| && Long(found, k)
    ensures from <= k < |found| && Long(found, k)
    ensures forall j :: from <= j < k ==> !Long(found, j)
    decreases |found| - from
  {
    if Long(found, from) then from else FirstLong(found, from + 1)
  }

  /** Over either viewer's selector list, a choice names one of its
      selectors, and when no match is long the fallback is the match of the
      catch-all `[class*="content"]` selector, which both lists try last. */
  lemma ChosenSelector(selectors: seq<string>, found: seq<Option<string>>)
    requires selectors == SourceContentSelectors || selectors == ReportContentSelectors
    requires |found| == |selectors|
    ensures ContentChoice(found).Some? ==> ContentChoice(found).value < |selectors|
    ensures (forall k :: 0 <= k < |found| ==> !Long(found, k)) && ContentChoice(found).Some? ==>
              selectors[ContentChoice(found).value] == "[class*=\"content\"]"
  {
  }

  lemma FirstLongAt(found: seq<Option<string>>, k: nat)
    requires k < |found| && Long(found, k) && forall j :: 0 <= j < k ==> !Long(found, j)
    ensures FirstLong(found, 0) == k
  {
  }

  /** The selector loop: `found[k]` is the `innerHTML` of the k-th
      selector's match (`None` when nothing matches). */
  method ChooseContent(found: seq<Option<string>>) returns (choice: Option<nat>)
    ensures choice == ContentChoice(found)
    ensures choice.Some? ==> choice.value < |found| && found[choice.value].Some?
  {
    choice := None;
    var k := 0;
    while k < |found|
      invariant 0 <= k <= |found|
      invariant forall j :: 0 <= j < k ==> !Long(found, j)
      invariant choice == if k == 0 || found[k - 1].None? then None else Some(k - 1)
    {
      choice := if found[k].Some? then Some(k) else None;
      if found[k].Some? && Utf16Length(found[k].value) > 50 {
        FirstLongAt(found, k);
        return;
      }
      k := k + 1;
    }
  }

  /** The chosen markup: the candidate's, or the viewer's own. */
  function ContentHtml(found: seq<Option<string>>, viewerHtml: string): (html: string)
    ensures (exists k :: 0 <= k < |found| && Long(found, k)) ==> Utf16Length(html) > 50
    ensures html == viewerHtml || exists k :: 0 <= k < |found| && found[k] == Some(html)
  {
    match ContentChoice(found)
    case None => viewerHtml
    case Some(k) => found[k].value
  }

  // ---------------------------------------------------------------------
  // Note lookup (content.js:1075-1117)

  /** `true` when a note's title text, trimmed, is exactly `title`. */
  predicate TitleIs(text: Option<string>, title: string) {
    text.Some? && Trim(text.value) == title
  }

  /** The first note from position `from` on whose trimmed title is exactly `title`. */
  function TitleMatch(titles: seq<Option<string>>, title: string, from: nat): (r: Option<nat>)
    requires from <= |titles|
    ensures r.Some? ==> from <= r.value < |titles| && TitleIs(titles[r.value], title)
    ensures r.Some? ==> forall j :: from <= j < r.value ==> !TitleIs(titles[j], title)
    ensures r.None? ==> forall j :: from <= j < |titles| ==> !TitleIs(titles[j], title)
    decreases |titles| - from
  {
    if from == |titles| then None
    else if TitleIs(titles[from], title) then Some(from)
    else TitleMatch(titles, title, from + 1)
  }

  /** Which note to open: `titles[k]` is the title text of the k-th note
      (`None` when it has no title element); `noteTitle` is "" when no
      title was given. */
  function FindNote(titles: seq<Option<string>>, noteTitle: string, noteIndex: int): (r: Result<nat, string>)
    ensures r.Ok? ==> r.value < |titles|
    ensures noteTitle != [] && TitleMatch(titles, noteTitle, 0).Some? ==> r == Ok(TitleMatch(titles, noteTitle, 0).value)
    ensures (noteTitle == [] || TitleMatch(titles, noteTitle, 0).None?) ==>
              (r.Ok? <==> 0 <= noteIndex < |titles|) && (r.Ok? ==> r.value == noteIndex)
  {
    var byTitle := if noteTitle != [] then TitleMatch(titles, noteTitle, 0) else None;
    if byTitle.Some? then Ok(byTitle.value)
    else if 0 <= noteIndex < |titles| then Ok(noteIndex)
    else Err(NotFoundMessage(noteTitle, noteIndex, |titles|))
  }

  /** The error `FindNote` reports when neither the title nor the index
      selects a note. */
  function NotFoundMessage(noteTitle: string, noteIndex: int, total: nat): string {
    "Note not found: \"" + noteTitle + "\" at index " + IntToString(noteIndex) + ". Total notes: " + NatToString(total)
  }

  // ---------------------------------------------------------------------
  // Artifact dispatch (content.js:2492-2647)

  /** The result of the report or data-table extractor. */
  datatype Extracted = ExtractOk(html: string, title: string) | ExtractFailed(error: string)

  /** The result of the infographic extractor. */
  datatype Rendered = RenderOk(via: string, data: string, format: string) | RenderFailed

  /** What the handler answers. */
  datatype Download =
    | Delivered(via: string, data: string, format: string, title: string)
    | ButtonClicked
    | Failed(error: string)

  /** A title candidate: an item's selector match whose trimmed text is
      not blank. */
  predicate IsTitle(text: Option<string>) {
    text.Some? && Trim(text.value) != []
  }

  /** The title loop over the selectors' matches: "" exactly when no match
      has a non-blank text, otherwise the trimmed text of the first match
      that has one. */
  function FirstTitle(texts: seq<Option<string>>): (r: string)
    ensures r == [] <==> forall k :: 0 <= k < |texts| ==> !IsTitle(texts[k])
    ensures r != [] ==>
              exists k :: 0 <= k < |texts| && IsTitle(texts[k]) && r == Trim(texts[k].value)
                          && forall j :: 0 <= j < k ==> !IsTitle(texts[j])
  {
    TitleFrom(texts, 0)
  }

  /** The loop from selector `from` on. */
  function TitleFrom(texts: seq<Option<string>>, from: nat): (r: string)
    requires from <= |texts|
    ensures r == [] <==> forall k :: from <= k < |texts| ==> !IsTitle(texts[k])
    ensures r != [] ==>
              exists k :: from <= k < |texts| && IsTitle(texts[k]) && r == Trim(texts[k].value)
                          && forall j :: from <= j < k ==> !IsTitle(texts[j])
    decreases |texts| - from
  {
    if from == |texts| then ""
    else if IsTitle(texts[from]) then Trim(texts[from].value)
    else TitleFrom(texts, from + 1)
  }

  predicate IsDocument(artifactType: string) {
    artifactType == "Report" || artifactType == "Data Table"
  }

  /** `handleArtifactDownload`. `items[k]` lists, for the k-th artifact
      that has a "More" button, the texts of its title selector matches;
      `extract` is the report or data-table extractor, given the title;
      `infographic` and `button` are the outcomes of the infographic
      extractor and of the download-button click (`Some(message)` when the
      click throws). */
  function Dispatch(index: int, artifactType: string, moreClicked: bool, skipMore: bool, name: string,
                    items: seq<seq<Option<string>>>, extract: string -> Extracted, infographic: Rendered,
                    button: Option<string>): Download
  {
    if IsDocument(artifactType) && skipMore then
      match extract(name)
      case ExtractOk(html, t) => Delivered("content_extraction", html, "html", if t != [] then t else name)
      case ExtractFailed(e) => Failed(if e != [] then e else artifactType + " extraction failed")
    else if !moreClicked && (index < 0 || index >= |items|) then
      Failed("Artifact index " + IntToString(index) + " out of range (0-" + IntToString(|items| - 1) + ")")
    else
      var item: Option<nat> := if moreClicked then None else Some(index as nat);
      var found := if name == [] && item.Some? then FirstTitle(items[item.value]) else name;
      var title := if found != [] then found else artifactType + " " + IntToString(index + 1);
      var document := if IsDocument(artifactType) then extract(title) else ExtractFailed("");
      if document.ExtractOk? then
        Delivered("content_extraction", document.html, "html", if document.title != [] then document.title else title)
      else if artifactType == "Infographic" && item.Some? && infographic.RenderOk? then
        Delivered(infographic.via, infographic.data, infographic.format, title)
      else if button.Some? then Failed(button.value)
      else ButtonClicked
  }

  /** An out-of-range index fails before any strategy runs (unless the
      "More" menu is already open or a document is extracted directly). */
  lemma DispatchRange(index: int, artifactType: string, moreClicked: bool, skipMore: bool, name: string,
                      items: seq<seq<Option<string>>>, extract: string -> Extracted, infographic: Rendered, button: Option<string>)
    requires !moreClicked && !(IsDocument(artifactType) && skipMore)
    ensures Dispatch(index, artifactType, moreClicked, skipMore, name, items, extract, infographic, button).Failed?
            <== (index < 0 || index >= |items|)
  {
  }

  /** Strategy order: the button is clicked only when document extraction
      (for reports and data tables) and infographic extraction (for an
      indexed infographic) did not deliver, and every delivery through the
      index path carries a non-empty title. */
  lemma DispatchOrder(index: int, artifactType: string, name: string, items: seq<seq<Option<string>>>,
                      extract: string -> Extracted, infographic: Rendered, button: Option<string>)
    requires 0 <= index < |items|
    ensures var d := Dispatch(index, artifactType, false, false, name, items, extract, infographic, button);
            var title := if name != [] then name
                         else if FirstTitle(items[index]) != [] then FirstTitle(items[index])
                         else artifactType + " " + IntToString(index + 1);
            && title != []
            && (IsDocument(artifactType) && extract(title).ExtractOk? ==> d.Delivered? && d.via == "content_extraction")
            && (artifactType == "Infographic" && infographic.RenderOk? ==> d == Delivered(infographic.via, infographic.data, infographic.format, title))
            && (d.ButtonClicked? ==> !(IsDocument(artifactType) && extract(title).ExtractOk?) && !(artifactType == "Infographic" && infographic.RenderOk?))
            && (d.Delivered? ==> d.title != [])
  {
  }

  /** With the "More" menu already open there is no artifact item: the
      index is not range-checked, no title is read from the page, the
      infographic extractor is skipped, and a document that does not
      extract falls through to the button click. */
  lemma DispatchMoreOpen(index: int, artifactType: string, skipMore: bool, name: string,
                         items: seq<seq<Option<string>>>, extract: string -> Extracted, infographic: Rendered,
                         button: Option<string>)
    requires !(IsDocument(artifactType) && skipMore)
    ensures var d := Dispatch(index, artifactType, true, skipMore, name, items, extract, infographic, button);
            var title := if name != [] then name else artifactType + " " + IntToString(index + 1);
            && (IsDocument(artifactType) && extract(title).ExtractOk? ==>
                  d == Delivered("content_extraction", extract(title).html, "html",
                                 if extract(title).title != [] then extract(title).title else title))
            && (d.Delivered? ==> d.via == "content_extraction" && IsDocument(artifactType))
            && (d.Failed? <==> !(IsDocument(artifactType) && extract(title).ExtractOk?) && button.Some?)
            && (d.Failed? ==> d.error == button.value)
            && (d.ButtonClicked? <==> !(IsDocument(artifactType) && extract(title).ExtractOk?) && button.None?)
  {
  }
}
