/** Order-preserving filtering of sequences, the positions it keeps, and
    duplicate-free sequences. The list comprehensions with an `if` and the
    `set(...)` conversion of the modelled scripts are stated in these terms. */
module Seqs {

  /** The elements of `s` satisfying `keep`, in their original order. */
  function Filter<T>(s: seq<T>, keep: T -> bool): (r: seq<T>)
    ensures |r| <= |s|
    decreases |s|
  {
    if s == [] then []
    else (if keep(s[0]) then [s[0]] else []) + Filter(s[1..], keep)
  }

  /** The indices `k` in `[lo, |s|)` with `keep(s[k])`, ascending. */
  function PositionsFrom<T>(s: seq<T>, keep: T -> bool, lo: nat): (ps: seq<nat>)
    requires lo <= |s|
    ensures forall m :: 0 <= m < |ps| ==> lo <= ps[m] < |s| && keep(s[ps[m]])
    ensures forall m, m' :: 0 <= m < m' < |ps| ==> ps[m] < ps[m']
    decreases |s| - lo
  {
    if lo == |s| then []
    else (if keep(s[lo]) then [lo] else []) + PositionsFrom(s, keep, lo + 1)
  }

  function Positions<T>(s: seq<T>, keep: T -> bool): seq<nat> {
    PositionsFrom(s, keep, 0)
  }

  lemma {:induction false} FilterAtPositionsFrom<T>(s: seq<T>, keep: T -> bool, lo: nat)
    requires lo <= |s|
    ensures |PositionsFrom(s, keep, lo)| == |Filter(s[lo..], keep)|
    ensures forall m :: 0 <= m < |Filter(s[lo..], keep)| ==>
              Filter(s[lo..], keep)[m] == s[PositionsFrom(s, keep, lo)[m]]
    ensures forall k :: lo <= k < |s| && keep(s[k]) ==> k in PositionsFrom(s, keep, lo)
    decreases |s| - lo
  {
    if lo < |s| {
      FilterAtPositionsFrom(s, keep, lo + 1);
      assert s[lo..][0] == s[lo];
      assert s[lo..][1..] == s[lo + 1..];
    }
  }

  /** Filtering keeps exactly the elements at `Positions(s, keep)`: the
      m-th kept element is the element at the m-th kept position, those
      positions ascend, and every element satisfying `keep` is kept. */
  lemma FilterAtPositions<T>(s: seq<T>, keep: T -> bool)
    ensures |Positions(s, keep)| == |Filter(s, keep)|
    ensures forall m :: 0 <= m < |Filter(s, keep)| ==> Filter(s, keep)[m] == s[Positions(s, keep)[m]]
    ensures forall m, m' :: 0 <= m < m' < |Positions(s, keep)| ==> Positions(s, keep)[m] < Positions(s, keep)[m']
    ensures forall k :: 0 <= k < |s| && keep(s[k]) ==> k in Positions(s, keep)
  {
    FilterAtPositionsFrom(s, keep, 0);
    assert s[0..] == s;
  }

  /** The place in `Filter(s, keep)` of an element `s[k]` that passes. */
  lemma KeptAt<T>(s: seq<T>, keep: T -> bool, k: nat) returns (m: nat)
    requires k < |s| && keep(s[k])
    ensures m < |Positions(s, keep)| == |Filter(s, keep)|
    ensures Positions(s, keep)[m] == k && Filter(s, keep)[m] == s[k]
  {
    FilterAtPositions(s, keep);
    var pos := Positions(s, keep);
    assert k in pos;
    m :| 0 <= m < |pos| && pos[m] == k;
  }

  /** Nothing survives a filter no element passes. */
  lemma {:induction false} FilterNone<T>(s: seq<T>, keep: T -> bool)
    requires forall k :: 0 <= k < |s| ==> !keep(s[k])
    ensures Filter(s, keep) == []
    decreases |s|
  {
    if s != [] {
      FilterNone(s[1..], keep);
    }
  }

  /** Filtering distributes over concatenation. */
  lemma {:induction false} FilterAppend<T>(a: seq<T>, b: seq<T>, keep: T -> bool)
    ensures Filter(a + b, keep) == Filter(a, keep) + Filter(b, keep)
    decreases |a|
  {
    if a == [] {
      assert a + b == b;
    } else {
      var ab := a + b;
      assert ab[0] == a[0];
      assert ab[1..] == a[1..] + b;
      FilterAppend(a[1..], b, keep);
      var h := if keep(a[0]) then [a[0]] else [];
      assert Filter(ab, keep) == h + Filter(ab[1..], keep);
      assert Filter(a, keep) == h + Filter(a[1..], keep);
      ConcatAssoc(h, Filter(a[1..], keep), Filter(b, keep));
    }
  }

  lemma ConcatAssoc<T>(a: seq<T>, b: seq<T>, c: seq<T>)
    ensures (a + b) + c == a + (b + c)
  {
  }

  predicate Distinct<T(==)>(s: seq<T>) {
    forall i, j :: 0 <= i < j < |s| ==> s[i] != s[j]
  }

  function Elements<T>(s: seq<T>): set<T> {
    set x | x in s
  }

  lemma ElementsAppend<T>(s: seq<T>, x: T)
    ensures Elements(s + [x]) == Elements(s) + {x}
  {
    assert forall y :: y in s + [x] <==> y in s || y == x;
  }

  /** Appending an element not yet listed keeps a sequence duplicate-free. */
  lemma DistinctAppend<T>(s: seq<T>, x: T)
    requires Distinct(s) && x !in Elements(s)
    ensures Distinct(s + [x])
  {
  }

  /** A duplicate-free sequence has as many elements as the set it lists. */
  lemma {:induction false} DistinctCardinality<T>(s: seq<T>)
    requires Distinct(s)
    ensures |Elements(s)| == |s|
    decreases |s|
  {
    if s != [] {
      DistinctCardinality(s[1..]);
      assert Elements(s) == {s[0]} + Elements(s[1..]);
      assert s[0] !in Elements(s[1..]) by {
        forall k | 0 <= k < |s[1..]| ensures s[1..][k] != s[0] {
          assert s[1..][k] == s[k + 1];
        }
      }
    }
  }

  /** The kept elements among the first `c` of `s`, built one element at a
      time as a scanning loop builds them. */
  function FilterUpTo<T>(s: seq<T>, keep: T -> bool, c: nat): (r: seq<T>)
    requires c <= |s|
    ensures |r| <= c
  {
    if c == 0 then [] else FilterUpTo(s, keep, c - 1) + (if keep(s[c - 1]) then [s[c - 1]] else [])
  }

  /** Scanning the first `c` elements left to right keeps what `Filter`
      keeps of that prefix. */
  lemma {:induction false} FilterUpToIsFilter<T>(s: seq<T>, keep: T -> bool, c: nat)
    requires c <= |s|
    ensures FilterUpTo(s, keep, c) == Filter(s[..c], keep)
  {
    if c > 0 {
      FilterUpToIsFilter(s, keep, c - 1);
      assert s[..c] == s[..c - 1] + [s[c - 1]];
      FilterAppend(s[..c - 1], [s[c - 1]], keep);
      assert Filter([s[c - 1]], keep) == if keep(s[c - 1]) then [s[c - 1]] else [];
    }
  }
}
