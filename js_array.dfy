/** The JavaScript array operations the server applies to its shared arrays, on
    sequences: `slice` with a negative start and `splice(i, 1)`. */
module JsArray {

  /** No element occurs twice. */
  predicate Distinct<T(==)>(s: seq<T>)
  {
    forall i, j :: 0 <= i < j < |s| ==> s[i] != s[j]
  }

  /** How many times `x` occurs in `s`. */
  function Count<T(==)>(s: seq<T>, x: T): nat
  {
    if s == [] then 0 else (if s[0] == x then 1 else 0) + Count(s[1..], x)
  }

  /** `s.slice(-n)` for `n > 0`: the last `n` elements, or all of `s` when it is
      shorter. */
  function SliceLast<T>(s: seq<T>, n: nat): (r: seq<T>)
    requires n > 0
    ensures |r| == if |s| < n then |s| else n
    ensures forall k :: 0 <= k < |r| ==> r[k] == s[|s| - |r| + k]
  {
    if |s| <= n then s else s[|s| - n..]
  }

  /** `s.splice(i, 1)` for a start `i` that is never negative: removes the element
      at `i`, and does nothing when `i` is past the end. */
  function Splice<T>(s: seq<T>, i: nat): (r: seq<T>)
    ensures i < |s| ==> |r| == |s| - 1 && multiset(r) == multiset(s) - multiset{s[i]}
    ensures i >= |s| ==> r == s
    ensures forall k :: 0 <= k < |r| ==> r[k] == if k < i then s[k] else s[k + 1]
  {
    if i < |s| then
      assert s == s[..i] + [s[i]] + s[i + 1..];
      s[..i] + s[i + 1..]
    else s
  }

  /** Appending a fresh element keeps a sequence free of duplicates. */
  lemma AppendDistinct<T>(s: seq<T>, x: T)
    requires Distinct(s) && x !in s
    ensures Distinct(s + [x])
  {
  }

  /** Removing one element keeps a sequence free of duplicates, and when the index is
      in range the removed element no longer occurs. */
  lemma SpliceDistinct<T>(s: seq<T>, i: nat)
    requires Distinct(s)
    ensures Distinct(Splice(s, i))
    ensures i < |s| ==> s[i] !in Splice(s, i)
  {
    var r := Splice(s, i);
    if i < |s| {
      assert forall k :: 0 <= k < |r| ==> r[k] == s[if k < i then k else k + 1];
    }
  }

  /** Which elements survive `splice(i, 1)` on a sequence without duplicates: exactly
      those other than the one at `i`.  Whether a given element leaves depends only on
      what stands at `i` now. */
  lemma SpliceMembership<T>(s: seq<T>, i: nat, x: T)
    requires Distinct(s)
    ensures x in Splice(s, i) <==> x in s && !(i < |s| && s[i] == x)
  {
    var r := Splice(s, i);
    SpliceDistinct(s, i);
    if x in s && !(i < |s| && s[i] == x) {
      var k :| 0 <= k < |s| && s[k] == x;
      if i < |s| {
        assert r[if k < i then k else k - 1] == x;
      }
    }
  }

  /** In a sequence without duplicates every member occurs exactly once. */
  lemma {:induction false} DistinctCount<T>(s: seq<T>, x: T)
    requires Distinct(s)
    ensures Count(s, x) == if x in s then 1 else 0
  {
    if s != [] {
      assert Distinct(s[1..]);
      DistinctCount(s[1..], x);
      if s[0] == x {
        assert x !in s[1..];
      } else {
        assert x in s <==> x in s[1..];
      }
    }
  }

  /** `history.push(record); history = history.slice(-100)`: the result is the last
      min(100, |h| + 1) records of `h + [record]`, ends with the new record, and
      drops exactly the oldest record when `h` was full. */
  lemma AppendBounded<T>(h: seq<T>, x: T, n: nat)
    requires 0 < n && |h| <= n
    ensures var r := SliceLast(h + [x], n);
      && 0 < |r| <= n && r[|r| - 1] == x
      && (|h| < n ==> r == h + [x])
      && (|h| == n ==> r == h[1..] + [x])
  {
    var r := SliceLast(h + [x], n);
    if |h| == n {
      assert r == (h + [x])[1..];
      assert (h + [x])[1..] == h[1..] + [x];
    }
  }
}
