/** Mind map export (`extractMindmapTreeData` and the "Expand all" wait in
    content.js): every `g.node[role="treeitem"]` of the rendered SVG, in
    document (depth-first) order, is read from its ARIA attributes, and the
    parent/child links are rebuilt from the sequence of levels with a
    stack. */
module Mindmap {
  import opened Wrappers
  import opened Text

  /** The ARIA attributes of one tree item; `None` is a missing attribute. */
  datatype ItemAttrs = ItemAttrs(ariaLabel: Option<string>, ariaLevel: Option<string>, ariaExpanded: Option<string>)

  /** One entry of the exported `nodes` list (its `children` are the
      indices in `Tree.children`). */
  datatype MindNode = MindNode(name: string, level: int, expanded: bool, childCount: nat)

  datatype Tree = Tree(title: string, root: Option<nat>, nodes: seq<MindNode>, children: seq<seq<nat>>, totalNodes: nat)

  // ---------------------------------------------------------------------
  // Labels (content.js:2151-2160)

  /** The text before the first comma, trimmed, or "Unnamed" when that is empty. */
  function NodeName(text: string): (r: string)
    ensures r != []
    ensures r == "Unnamed" || (r == Trim(Split(text, ',')[0]) && ',' !in r)
    ensures Trim(Split(text, ',')[0]) != [] ==> r == Trim(Split(text, ',')[0]) && ',' !in r
    ensures Trim(Split(text, ',')[0]) == [] ==> r == "Unnamed"
  {
    var first := Split(text, ',')[0];
    var t := Trim(first);
    if t == [] then "Unnamed"
    else
      TrimKeepsAbsent(first, ',');
      t
  }

  /** Trimming adds no character. */
  lemma TrimKeepsAbsent(s: string, c: char)
    requires c !in s
    ensures c !in Trim(s)
  {
    TrimShape(s);
    var t := Trim(s);
    assert forall k :: 0 <= k < |t| ==> t[k] == s[FirstNonSpace(s) + k];
  }

  /** `parseInt(level) || 0`: a missing attribute is the string "null", which
      is NaN like any other non-number; NaN and 0 both become 0. */
  function NodeLevel(level: Option<string>): (r: int)
    ensures level.None? ==> r == 0
  {
    var text := if level.None? then "null" else level.value;
    match ParseInt(text, false)
    case None => 0
    case Some(v) => v
  }

  /** A numeric `aria-level` gives its value, and one without a decimal
      digit (a missing attribute reads as "null") gives 0. */
  lemma NodeLevelOfAttribute(n: nat, s: string)
    ensures NodeLevel(Some(NatToString(n))) == n
    ensures (forall k :: 0 <= k < |s| ==> !IsDigit(s[k])) ==> NodeLevel(Some(s)) == 0
  {
    ParseIntOfNatToString(n, false);
    if forall k :: 0 <= k < |s| ==> !IsDigit(s[k]) {
      var t := s[FirstNonSpace(s)..];
      assert forall k :: 0 <= k < |t| ==> t[k] == s[FirstNonSpace(s) + k];
      NoDigitsUnsigned(t);
      if |t| > 0 {
        assert forall k :: 0 <= k < |t[1..]| ==> t[1..][k] == t[k + 1];
        NoDigitsUnsigned(t[1..]);
      }
    }
  }

  /** Without a decimal digit there is nothing for `parseInt` to read. */
  lemma NoDigitsUnsigned(u: string)
    requires forall k :: 0 <= k < |u| ==> !IsDigit(u[k])
    ensures ParseUnsigned(u, false) == None
  {
    if |u| > 0 {
      assert RadixDigit(u[0], 10) < 0;
    }
  }

  /** End of the run of decimal digits starting at `i`. */
  function DigitsEnd(s: string, i: nat): (j: nat)
    requires i <= |s|
    ensures i <= j <= |s|
    ensures forall k :: i <= k < j ==> IsDigit(s[k])
    ensures j < |s| ==> !IsDigit(s[j])
    decreases |s| - i
  {
    if i < |s| && IsDigit(s[i]) then DigitsEnd(s, i + 1) else i
  }

  /** `true` when the pattern `(\d+)\s+<word>` matches at position `i`:
      the longest digit run from `i`, at least one white space, then `word`. */
  predicate CountAt(s: string, i: nat, word: string) {
    i < |s| && IsDigit(s[i])
    && var j := DigitsEnd(s, i);
       var m := j + FirstNonSpace(s[j..]);
       m > j && OccursAt(s, word, m)
  }

  /** The leftmost position in [i, n) that satisfies `p`, if any. */
  function FirstAt(n: nat, i: nat, p: nat -> bool): (r: Option<nat>)
    requires i <= n
    ensures r.Some? ==> i <= r.value < n
    decreases n - i
  {
    if i == n then None
    else if p(i) then Some(i)
    else FirstAt(n, i + 1, p)
  }

  /** The position found satisfies `p` and no position between `i` and it
      does; when none is found, no position in [i, n) does. */
  lemma {:induction false} FirstAtLeftmost(n: nat, i: nat, p: nat -> bool)
    requires i <= n
    ensures var r := FirstAt(n, i, p);
            && (r.Some? ==> p(r.value))
            && (r.Some? ==> forall k :: i <= k < r.value ==> !p(k))
            && (r.None? ==> forall k :: i <= k < n ==> !p(k))
    decreases n - i
  {
    if i < n && !p(i) {
      FirstAtLeftmost(n, i + 1, p);
    }
  }

  /** The leftmost position from `i` on where the pattern matches. */
  function FirstCountAt(s: string, i: nat, word: string): (r: Option<nat>)
    requires i <= |s|
    ensures r.Some? ==> i <= r.value < |s|
  {
    FirstAt(|s|, i, (k: nat) => CountAt(s, k, word))
  }

  /** The position found is a match and no position between `i` and it is
      one; when none is found, no position from `i` on is a match. */
  lemma FirstCountAtLeftmost(s: string, i: nat, word: string)
    requires i <= |s|
    ensures var r := FirstCountAt(s, i, word);
            && (r.Some? ==> CountAt(s, r.value, word))
            && (r.Some? ==> forall k :: i <= k < r.value ==> !CountAt(s, k, word))
            && (r.None? ==> forall k :: i <= k < |s| ==> !CountAt(s, k, word))
  {
    var p := (k: nat) => CountAt(s, k, word);
    var r := FirstCountAt(s, i, word);
    FirstAtLeftmost(|s|, i, p);
    var end := if r.Some? then r.value else |s|;
    forall k | i <= k < end
      ensures !CountAt(s, k, word)
    {
      assert !p(k);
    }
  }

  /** The number captured by the first match of `(\d+)\s+<word>`, or 0. */
  function CountBefore(text: string, word: string): nat {
    match FirstCountAt(text, 0, word)
    case None => 0
    case Some(i) =>
      var d := text[i..DigitsEnd(text, i)];
      DigitsValue(d, 10)
  }

  /** The child count as the source computes it, with `/(\d+)\s+children?/`:
      the `?` only makes the final `n` optional, so the singular "1 child"
      does not match. */
  function ChildCountAsWritten(text: string): nat {
    CountBefore(text, "childre")
  }

  /** The evidently intended child count: a number followed by "child" or
      "children". */
  function ChildCount(text: string): nat {
    CountBefore(text, "child")
  }

  /** For a label "<name>, <n> child" or "<name>, <n> children" whose name
      holds no digit, the intended count is n. */
  lemma ChildCountOfLabel(name: string, n: nat, plural: bool)
    requires forall k :: 0 <= k < |name| ==> !IsDigit(name[k])
    ensures ChildCount(name + ", " + NatToString(n) + (if plural then " children" else " child")) == n
  {
    var pre := name + ", ";
    assert forall k :: 0 <= k < |pre| ==> !IsDigit(pre[k]) by {
      assert forall k :: 0 <= k < |name| ==> pre[k] == name[k];
    }
    var word := if plural then " children" else " child";
    assert OccursAt(word, "child", 1) by { assert word[1..6] == "child"; }
    NumberAfter(pre, NatToString(n), word, "child");
    NatToStringValue(n);
  }

  /** The count read from a label made of digit-free text, a number, a
      space and `word` is that number. */
  lemma NumberAfter(pre: string, digits: string, rest: string, word: string)
    requires forall k :: 0 <= k < |pre| ==> !IsDigit(pre[k])
    requires |digits| > 0 && forall k :: 0 <= k < |digits| ==> IsDigit(digits[k])
    requires |rest| > 1 && rest[0] == ' ' && !IsSpace(rest[1]) && OccursAt(rest, word, 1)
    ensures forall k :: 0 <= k < |digits| ==> RadixDigit(digits[k], 10) >= 0
    ensures CountBefore(pre + digits + rest, word) == DigitsValue(digits, 10)
  {
    var s := pre + digits + rest;
    var i := |pre|;
    FirstMatchAfter(pre, digits, rest, word);
    assert s[i..DigitsEnd(s, i)] == digits;
  }

  lemma FirstMatchAfter(pre: string, digits: string, rest: string, word: string)
    requires forall k :: 0 <= k < |pre| ==> !IsDigit(pre[k])
    requires |digits| > 0 && forall k :: 0 <= k < |digits| ==> IsDigit(digits[k])
    requires |rest| > 1 && rest[0] == ' ' && !IsSpace(rest[1]) && OccursAt(rest, word, 1)
    ensures FirstCountAt(pre + digits + rest, 0, word) == Some(|pre|)
    ensures DigitsEnd(pre + digits + rest, |pre|) == |pre| + |digits|
  {
    var s := pre + digits + rest;
    var i := |pre|;
    assert forall k :: 0 <= k < i ==> s[k] == pre[k];
    assert s[i..] == digits + rest;
    CountAtNumber(s, i, digits, rest, word);
    FirstCountAfter(s, 0, i, word);
  }

  /** A digit run followed by a space-led `rest` that continues with `word`
      is a match, and its digits are that run. */
  lemma CountAtNumber(s: string, i: nat, digits: string, rest: string, word: string)
    requires i <= |s| && s[i..] == digits + rest
    requires |digits| > 0 && forall k :: 0 <= k < |digits| ==> IsDigit(digits[k])
    requires |rest| > 1 && rest[0] == ' ' && !IsSpace(rest[1]) && OccursAt(rest, word, 1)
    ensures CountAt(s, i, word)
    ensures DigitsEnd(s, i) == i + |digits|
  {
    var j := i + |digits|;
    DigitRunAt(s, i, digits, rest);
    assert s[j..] == rest;
    SpaceThenWord(rest);
    OccursAfter(s, j, rest, word);
  }

  lemma DigitRunAt(s: string, i: nat, digits: string, rest: string)
    requires i <= |s| && s[i..] == digits + rest
    requires forall k :: 0 <= k < |digits| ==> IsDigit(digits[k])
    requires |rest| > 0 && !IsDigit(rest[0])
    ensures DigitsEnd(s, i) == i + |digits|
  {
    var j := i + |digits|;
    assert s[i..j] == digits;
    assert s[j..] == rest;
    assert forall k :: i <= k < j ==> s[k] == s[i..j][k - i];
    DigitsEndOf(s, i, |digits|);
  }

  lemma OccursAfter(s: string, j: nat, rest: string, word: string)
    requires j <= |s| && s[j..] == rest && |rest| > 1 && OccursAt(rest, word, 1)
    ensures OccursAt(s, word, j + 1)
  {
    assert s[j + 1..j + 1 + |word|] == rest[1..1 + |word|];
  }

  lemma SpaceThenWord(rest: string)
    requires |rest| > 1 && rest[0] == ' ' && !IsSpace(rest[1])
    ensures FirstNonSpace(rest) == 1
  {
    assert IsSpace(rest[0]);
    assert rest[1..][0] == rest[1];
  }

  /** Positions before `i` that hold no digit cannot start a match. */
  lemma FirstCountAfter(s: string, k: nat, i: nat, word: string)
    requires k <= i <= |s|
    requires forall m :: k <= m < i ==> !IsDigit(s[m])
    ensures FirstCountAt(s, k, word) == FirstCountAt(s, i, word)
    decreases i - k
  {
    if k < i {
      FirstCountAfter(s, k + 1, i, word);
    }
  }

  /** The singular label "<name>, 1 child" gets the count 0 from the source's
      pattern, though `ChildCountOfLabel` gives it the count 1. */
  lemma SingularChildMissed(name: string)
    requires forall k :: 0 <= k < |name| ==> !IsDigit(name[k])
    ensures ChildCountAsWritten(name + ", 1 child") == 0
  {
    var s := name + ", 1 child";
    var i := |name| + 2;
    assert s[..i] == name + ", ";
    FirstCountAfter(s, 0, i, "childre");
    assert s[i..] == "1" + " child";
    NoMatchAtSingular(s, i);
    assert s[i + 1..] == " child";
    assert forall k :: i + 1 <= k < |s| ==> s[k] == s[i + 1..][k - i - 1];
    FirstCountAfter(s, i + 1, |s|, "childre");
  }

  lemma NoMatchAtSingular(s: string, i: nat)
    requires i <= |s| && s[i..] == "1" + " child"
    ensures !CountAt(s, i, "childre")
  {
    DigitRunAt(s, i, "1", " child");
    assert s[i + 1..] == " child";
    SpaceThenWord(" child");
  }

  lemma DigitsEndOf(s: string, i: nat, len: nat)
    requires i + len <= |s|
    requires forall k :: i <= k < i + len ==> IsDigit(s[k])
    requires i + len == |s| || !IsDigit(s[i + len])
    ensures DigitsEnd(s, i) == i + len
    decreases len
  {
    if len > 0 {
      DigitsEndOf(s, i + 1, len - 1);
    }
  }

  /** One node's data (content.js:2151-2169); a missing label reads as "". */
  function ParseNode(a: ItemAttrs): MindNode
  {
    var text := a.ariaLabel.GetOr("");
    MindNode(NodeName(text), NodeLevel(a.ariaLevel), a.ariaExpanded == Some("true"), ChildCount(text))
  }

  /** A node read from an item labelled "<name>, <n> child" or "<name>, <n>
      children" (name without digits) carries the count n; it is expanded
      exactly when `aria-expanded` is "true"; a missing label gives the
      name "Unnamed" and the count 0. */
  lemma ParseNodeOfLabel(name: string, n: nat, plural: bool, level: Option<string>, expanded: Option<string>)
    requires forall k :: 0 <= k < |name| ==> !IsDigit(name[k])
    ensures var text := name + ", " + NatToString(n) + (if plural then " children" else " child");
            var node := ParseNode(ItemAttrs(Some(text), level, expanded));
            node.childCount == n && (node.expanded <==> expanded == Some("true"))
            && node.level == NodeLevel(level) && node.name == NodeName(text)
    ensures var node := ParseNode(ItemAttrs(None, level, expanded));
            node.name == "Unnamed" && node.childCount == 0
  {
    ChildCountOfLabel(name, n, plural);
    assert Split("", ',') == [""];
    assert FirstCountAt("", 0, "child") == None;
  }

  // ---------------------------------------------------------------------
  // Hierarchy (content.js:2177-2198)

  /** The parent of node `i`: the nearest earlier node with a strictly
      smaller level, if any. */
  function Parent(levels: seq<int>, i: nat): (r: Option<nat>)
    requires i < |levels|
    ensures r.Some? ==> r.value < i && levels[r.value] < levels[i]
    ensures r.Some? ==> forall m :: r.value < m < i ==> levels[m] >= levels[i]
    ensures r.None? ==> forall m :: 0 <= m < i ==> levels[m] >= levels[i]
  {
    NearestBelow(levels, i, i)
  }

  function NearestBelow(levels: seq<int>, i: nat, j: nat): (r: Option<nat>)
    requires j <= i < |levels|
    requires forall m :: j <= m < i ==> levels[m] >= levels[i]
    ensures r.Some? ==> r.value < j && levels[r.value] < levels[i]
    ensures r.Some? ==> forall m :: r.value < m < i ==> levels[m] >= levels[i]
    ensures r.None? ==> forall m :: 0 <= m < i ==> levels[m] >= levels[i]
  {
    if j == 0 then None
    else if levels[j - 1] < levels[i] then Some(j - 1)
    else NearestBelow(levels, i, j - 1)
  }

  /** The children of `p` among the first `k` nodes, in document order. */
  function ChildrenOf(levels: seq<int>, p: nat, k: nat): (r: seq<nat>)
    requires k <= |levels|
    ensures forall a :: 0 <= a < |r| ==> r[a] < k && Parent(levels, r[a]) == Some(p)
    ensures forall i :: 0 <= i < k && Parent(levels, i) == Some(p) ==> i in r
    ensures forall a, b :: 0 <= a < b < |r| ==> r[a] < r[b]
  {
    if k == 0 then []
    else ChildrenOf(levels, p, k - 1) + (if Parent(levels, k - 1) == Some(p) then [k - 1] else [])
  }

  /** `children[p]` lists the children of `p` among the first `k` nodes. */
  predicate ChildrenUpTo(levels: seq<int>, children: seq<seq<nat>>, k: nat)
    requires k <= |levels|
  {
    |children| == |levels| && forall p :: 0 <= p < |levels| ==> children[p] == ChildrenOf(levels, p, k)
  }

  /** The stack holds earlier nodes, in order, with strictly increasing levels. */
  predicate StackOrdered(levels: seq<int>, stack: seq<nat>, i: nat) {
    (forall a :: 0 <= a < |stack| ==> stack[a] < i && stack[a] < |levels|)
    && (forall a, b :: 0 <= a < b < |stack| ==> stack[a] < stack[b] && levels[stack[a]] < levels[stack[b]])
  }

  /** Every node seen so far has a node on the stack at or after it whose
      level is not above its own (`dom` names one). */
  ghost predicate Dominated(levels: seq<int>, stack: seq<nat>, dom: seq<nat>, i: nat)
    requires i <= |levels|
  {
    |dom| == i && forall m :: 0 <= m < i ==> dom[m] in stack && m <= dom[m] < |levels| && levels[dom[m]] <= levels[m]
  }

  /** The source's stack walk: for each node, pop every entry whose level is
      not below its own, attach it to the entry left on top, push it. */
  method BuildHierarchy(levels: seq<int>) returns (children: seq<seq<nat>>)
    ensures |children| == |levels|
    ensures forall p :: 0 <= p < |levels| ==> children[p] == ChildrenOf(levels, p, |levels|)
  {
    var n := |levels|;
    children := seq(n, _ => []);
    var stack: seq<nat> := [];
    ghost var dom: seq<nat> := [];
    var i := 0;
    while i < n
      invariant 0 <= i <= n
      invariant ChildrenUpTo(levels, children, i)
      invariant StackOrdered(levels, stack, i)
      invariant Dominated(levels, stack, dom, i)
    {
      ghost var stack0 := stack;
      stack := PopNotBelow(levels, stack, i);
      NoCloserParent(levels, i, stack0, stack, dom);
      ghost var children0 := children;
      if |stack| > 0 {
        var top := stack[|stack| - 1];
        children := children[top := children[top] + [i]];
      }
      AttachStep(levels, children0, children, stack, i);
      dom := PushStep(levels, i, stack0, stack, dom);
      stack := stack + [i];
      i := i + 1;
    }
  }

  /** `while (stack.length > 0 && top.level >= level) stack.pop()`. */
  method PopNotBelow(levels: seq<int>, stack0: seq<nat>, i: nat) returns (stack: seq<nat>)
    requires i < |levels| && forall a :: 0 <= a < |stack0| ==> stack0[a] < |levels|
    ensures |stack| <= |stack0| && stack == stack0[..|stack|]
    ensures forall a :: |stack| <= a < |stack0| ==> levels[stack0[a]] >= levels[i]
    ensures |stack| > 0 ==> levels[stack[|stack| - 1]] < levels[i]
  {
    stack := stack0;
    while |stack| > 0 && levels[stack[|stack| - 1]] >= levels[i]
      invariant |stack| <= |stack0| && stack == stack0[..|stack|]
      invariant forall a :: |stack| <= a < |stack0| ==> levels[stack0[a]] >= levels[i]
    {
      stack := stack[..|stack| - 1];
    }
  }

  /** After the pops, the top of the stack is node `i`'s parent. */
  lemma NoCloserParent(levels: seq<int>, i: nat, stack0: seq<nat>, stack: seq<nat>, dom: seq<nat>)
    requires i < |levels|
    requires StackOrdered(levels, stack0, i) && Dominated(levels, stack0, dom, i)
    requires |stack| <= |stack0| && stack == stack0[..|stack|]
    requires forall a :: |stack| <= a < |stack0| ==> levels[stack0[a]] >= levels[i]
    requires |stack| > 0 ==> levels[stack[|stack| - 1]] < levels[i]
    ensures Parent(levels, i) == if |stack| == 0 then None else Some(stack[|stack| - 1])
  {
    var lo := if |stack| == 0 then -1 else stack[|stack| - 1];
    forall m | lo < m < i
      ensures levels[m] >= levels[i]
    {
      var a :| 0 <= a < |stack0| && stack0[a] == dom[m];
      assert a >= |stack|;
    }
  }

  /** Attaching node `i` to the top of the stack (when there is one) adds
      it to its parent's children. */
  lemma AttachStep(levels: seq<int>, children0: seq<seq<nat>>, children: seq<seq<nat>>, stack: seq<nat>, i: nat)
    requires i < |levels| && ChildrenUpTo(levels, children0, i)
    requires Parent(levels, i) == if |stack| == 0 then None else Some(stack[|stack| - 1])
    requires |stack| > 0 ==> stack[|stack| - 1] < |levels|
    requires children == if |stack| == 0 then children0 else children0[stack[|stack| - 1] := children0[stack[|stack| - 1]] + [i]]
    ensures ChildrenUpTo(levels, children, i + 1)
  {
  }

  /** Pushing node `i` after the pops keeps the stack ordered and every
      node dominated. */
  lemma PushStep(levels: seq<int>, i: nat, stack0: seq<nat>, stack: seq<nat>, dom: seq<nat>) returns (dom': seq<nat>)
    requires i < |levels|
    requires StackOrdered(levels, stack0, i) && Dominated(levels, stack0, dom, i)
    requires |stack| <= |stack0| && stack == stack0[..|stack|]
    requires forall a :: |stack| <= a < |stack0| ==> levels[stack0[a]] >= levels[i]
    requires |stack| > 0 ==> levels[stack[|stack| - 1]] < levels[i]
    ensures StackOrdered(levels, stack + [i], i + 1) && Dominated(levels, stack + [i], dom', i + 1)
  {
    dom' := seq(i + 1, m requires 0 <= m <= i => if m == i || dom[m] !in stack then i else dom[m]);
    forall m | 0 <= m <= i
      ensures dom'[m] in stack + [i] && m <= dom'[m] < |levels| && levels[dom'[m]] <= levels[m]
    {
      if m < i && dom[m] !in stack {
        var a :| 0 <= a < |stack0| && stack0[a] == dom[m];
        assert a >= |stack|;
      }
    }
  }

  // ---------------------------------------------------------------------
  // The whole tree (content.js:2137-2204)

  /** The index of the last node whose level is exactly 1. */
  function LastRoot(nodes: seq<MindNode>): (r: Option<nat>)
    ensures r.Some? ==> r.value < |nodes| && nodes[r.value].level == 1
    ensures r.Some? ==> forall k :: r.value < k < |nodes| ==> nodes[k].level != 1
    ensures r.None? ==> forall k :: 0 <= k < |nodes| ==> nodes[k].level != 1
  {
    if |nodes| == 0 then None
    else if nodes[|nodes| - 1].level == 1 then Some(|nodes| - 1)
    else LastRoot(nodes[..|nodes| - 1])
  }

  function Levels(nodes: seq<MindNode>): (r: seq<int>)
    ensures |r| == |nodes| && forall k :: 0 <= k < |nodes| ==> r[k] == nodes[k].level
  {
    seq(|nodes|, k requires 0 <= k < |nodes| => nodes[k].level)
  }

  /** `extractMindmapTreeData`: the first pass parses each item and keeps
      the last level-1 node as root and title; the second rebuilds the links. */
  method ExtractTree(items: seq<ItemAttrs>) returns (tree: Tree)
    ensures tree.totalNodes == |items| && tree.nodes == ParseAll(items)
    ensures tree.root == LastRoot(tree.nodes)
    ensures tree.title == if tree.root.None? then "" else tree.nodes[tree.root.value].name
    ensures |tree.children| == |items|
    ensures forall p :: 0 <= p < |items| ==> tree.children[p] == ChildrenOf(Levels(tree.nodes), p, |items|)
  {
    var nodes: seq<MindNode> := [];
    var title := "";
    var root: Option<nat> := None;
    var i := 0;
    while i < |items|
      invariant 0 <= i <= |items| && nodes == ParseAll(items[..i])
      invariant root == LastRoot(nodes)
      invariant title == if root.None? then "" else nodes[root.value].name
    {
      var data := ParseNode(items[i]);
      LastRootStep(nodes, data);
      ParseAllStep(items, i);
      nodes := nodes + [data];
      if data.level == 1 {
        title := data.name;
        root := Some(i);
      }
      i := i + 1;
    }
    assert items[..|items|] == items;
    var children := BuildHierarchy(Levels(nodes));
    tree := Tree(title, root, nodes, children, |items|);
  }

  /** The parsed nodes, in document order. */
  function ParseAll(items: seq<ItemAttrs>): (r: seq<MindNode>)
    ensures |r| == |items|
  {
    if |items| == 0 then [] else ParseAll(items[..|items| - 1]) + [ParseNode(items[|items| - 1])]
  }

  lemma ParseAllStep(items: seq<ItemAttrs>, i: nat)
    requires i < |items|
    ensures ParseAll(items[..i + 1]) == ParseAll(items[..i]) + [ParseNode(items[i])]
  {
    assert items[..i + 1][..i] == items[..i];
  }

  lemma LastRootStep(nodes: seq<MindNode>, data: MindNode)
    ensures LastRoot(nodes + [data]) == if data.level == 1 then Some(|nodes|) else LastRoot(nodes)
  {
    assert (nodes + [data])[..|nodes|] == nodes;
  }

  /** A node is attached at most once: no index is a child of two parents,
      nor twice of one. */
  lemma AttachedOnce(levels: seq<int>, p: nat, q: nat, i: nat)
    requires p < |levels| && q < |levels|
    requires i in ChildrenOf(levels, p, |levels|) && i in ChildrenOf(levels, q, |levels|)
    ensures p == q
  {
  }

  // ---------------------------------------------------------------------
  // Waiting for "Expand all" to settle (content.js:1921-1941)

  /** The count seen before check `k` (0 before the first check). */
  function Previous(counts: seq<nat>, k: nat): nat
    requires k < |counts|
  {
    if k == 0 then 0 else counts[k - 1]
  }

  /** The node count has been unchanged at checks k-2, k-1 and k. */
  predicate StableAt(counts: seq<nat>, k: nat)
    requires k < |counts|
  {
    k >= 2 && counts[k] == Previous(counts, k) && counts[k - 1] == Previous(counts, k - 1)
    && counts[k - 2] == Previous(counts, k - 2)
  }

  /** The polling loop over the counts its 20 checks would observe;
      returns the number of checks made. */
  method WaitForStable(counts: seq<nat>) returns (checks: nat)
    requires |counts| >= 20
    ensures 1 <= checks <= 20
    ensures forall k :: 0 <= k < checks - 1 ==> !StableAt(counts, k)
    ensures checks < 20 ==> StableAt(counts, checks - 1)
  {
    var previous := 0;
    var stable := 0;
    var i := 0;
    while i < 20
      invariant 0 <= i <= 20
      invariant previous == if i == 0 then 0 else counts[i - 1]
      invariant stable <= i && stable <= 2
      invariant forall k :: i - stable <= k < i ==> counts[k] == Previous(counts, k)
      invariant i - stable > 0 ==> counts[i - stable - 1] != Previous(counts, i - stable - 1)
      invariant forall k :: 0 <= k < i ==> !StableAt(counts, k)
    {
      var current := counts[i];
      if current == previous {
        stable := stable + 1;
        if stable >= 3 {
          return i + 1;
        }
      } else {
        stable := 0;
      }
      previous := current;
      i := i + 1;
    }
    return 20;
  }
}
