/** Keeping the elements of a sequence that satisfy a predicate, in order
    (what `Array.prototype.filter` does), and the facts that pin it down:
    membership, order, multiplicity and the first element kept. */
module Seqs {
  function Filter<T>(s: seq<T>, p: T -> bool): (r: seq<T>)
    ensures |r| <= |s|
  {
    if |s| == 0 then [] else (if p(s[0]) then [s[0]] else []) + Filter(s[1..], p)
  }

  /** A value is kept exactly when it occurs in the input and satisfies `p`. */
  lemma {:induction false} FilterMembers<T>(s: seq<T>, p: T -> bool)
    ensures forall x :: x in Filter(s, p) <==> x in s && p(x)
  {
    if |s| > 0 {
      FilterMembers(s[1..], p);
      assert s == [s[0]] + s[1..];
    }
  }

  /** Filtering a concatenation filters each part: the kept elements stay
      in input order. */
  lemma {:induction false} FilterAppend<T>(a: seq<T>, b: seq<T>, p: T -> bool)
    ensures Filter(a + b, p) == Filter(a, p) + Filter(b, p)
  {
    if |a| > 0 {
      FilterAppend(a[1..], b, p);
      assert (a + b)[0] == a[0] && (a + b)[1..] == a[1..] + b;
    } else {
      assert a + b == b;
    }
  }

  /** Filtering any split of the input and joining the parts gives the whole. */
  lemma FilterSplit<T>(s: seq<T>, p: T -> bool)
    ensures forall i :: 0 <= i <= |s| ==> Filter(s, p) == Filter(s[..i], p) + Filter(s[i..], p)
  {
    forall i | 0 <= i <= |s|
      ensures Filter(s, p) == Filter(s[..i], p) + Filter(s[i..], p)
    {
      FilterAppend(s[..i], s[i..], p);
      assert s[..i] + s[i..] == s;
    }
  }

  /** A value satisfying `p` is kept as often as it occurs; any other value
      not at all. */
  lemma {:induction false} FilterCounts<T>(s: seq<T>, p: T -> bool)
    ensures forall x :: multiset(Filter(s, p))[x] == if p(x) then multiset(s)[x] else 0
  {
    if |s| > 0 {
      FilterCounts(s[1..], p);
      assert s == [s[0]] + s[1..];
    }
  }

  /** Nothing is kept exactly when no element satisfies `p`; otherwise the
      first element kept is the first one that does. */
  lemma {:induction false} FilterFirst<T>(s: seq<T>, p: T -> bool)
    ensures Filter(s, p) == [] <==> forall i :: 0 <= i < |s| ==> !p(s[i])
    ensures Filter(s, p) != [] ==>
              exists i :: 0 <= i < |s| && p(s[i]) && Filter(s, p)[0] == s[i] && forall j :: 0 <= j < i ==> !p(s[j])
  {
    if |s| > 0 {
      FilterFirst(s[1..], p);
      if !p(s[0]) {
        assert Filter(s, p) == Filter(s[1..], p);
        forall i | 1 <= i < |s|
          ensures s[i] == s[1..][i - 1]
        {
        }
        if Filter(s, p) != [] {
          var i :| 0 <= i < |s[1..]| && p(s[1..][i]) && Filter(s[1..], p)[0] == s[1..][i]
                   && forall j :: 0 <= j < i ==> !p(s[1..][j]);
          assert forall j :: 1 <= j < i + 1 ==> s[j] == s[1..][j - 1];
          assert p(s[i + 1]) && Filter(s, p)[0] == s[i + 1];
        }
      }
    }
  }
}
