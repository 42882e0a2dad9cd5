/** Order-preserving list operations used by both the server and the client:
    JavaScript's `Array.prototype.filter` and `splice(k, 1)`, and what it means
    for them to keep the relative order of what remains. */
module Sequences {

  /** `r` is obtained from `s` by deleting elements, without reordering any. */
  predicate IsSubsequence<T(==)>(r: seq<T>, s: seq<T>)
    decreases |s|
  {
    if r == [] then true
    else if s == [] then false
    else (r[0] == s[0] && IsSubsequence(r[1..], s[1..])) || IsSubsequence(r, s[1..])
  }

  lemma {:induction false} SubsequenceReflexive<T>(s: seq<T>)
    ensures IsSubsequence(s, s)
    decreases |s|
  {
    if s != [] {
      SubsequenceReflexive(s[1..]);
    }
  }

  /** `s.filter(keep)`: the elements of `s` that satisfy `keep`, in order. */
  function Filter<T(==)>(s: seq<T>, keep: T -> bool): (r: seq<T>)
    ensures |r| <= |s|
    ensures forall x :: x in r ==> x in s && keep(x)
    ensures forall i :: 0 <= i < |s| && keep(s[i]) ==> s[i] in r
  {
    if s == [] then []
    else if keep(s[0]) then [s[0]] + Filter(s[1..], keep)
    else Filter(s[1..], keep)
  }

  /** The filter keeps every passing element as many times as it occurs in `s`,
      and no failing one. */
  lemma {:induction false} FilterCount<T(!new)>(s: seq<T>, keep: T -> bool)
    ensures forall x :: multiset(Filter(s, keep))[x] == if keep(x) then multiset(s)[x] else 0
  {
    if s != [] {
      FilterCount(s[1..], keep);
      assert s == [s[0]] + s[1..];
    }
  }

  lemma {:induction false} FilterIsSubsequence<T>(s: seq<T>, keep: T -> bool)
    ensures IsSubsequence(Filter(s, keep), s)
  {
    if s != [] {
      FilterIsSubsequence(s[1..], keep);
      var r := Filter(s, keep);
      if keep(s[0]) {
        assert r[0] == s[0] && r[1..] == Filter(s[1..], keep);
      }
    }
  }

  /** Filtering with a predicate every element satisfies gives back the list itself. */
  lemma {:induction false} FilterAll<T>(s: seq<T>, keep: T -> bool)
    requires forall i :: 0 <= i < |s| ==> keep(s[i])
    ensures Filter(s, keep) == s
  {
    if s != [] {
      FilterAll(s[1..], keep);
      assert [s[0]] + s[1..] == s;
    }
  }

  /** Filtering with a predicate no element satisfies gives the empty list. */
  lemma {:induction false} FilterNone<T>(s: seq<T>, keep: T -> bool)
    requires forall i :: 0 <= i < |s| ==> !keep(s[i])
    ensures Filter(s, keep) == []
  {
    if s != [] {
      FilterNone(s[1..], keep);
    }
  }

  lemma {:induction false} FilterConcat<T>(a: seq<T>, b: seq<T>, keep: T -> bool)
    ensures Filter(a + b, keep) == Filter(a, keep) + Filter(b, keep)
  {
    if a == [] {
      assert a + b == b;
    } else {
      var ab := a + b;
      assert ab[0] == a[0] && ab[1..] == a[1..] + b;
      FilterConcat(a[1..], b, keep);
      if keep(a[0]) {
        var x, y := Filter(a[1..], keep), Filter(b, keep);
        assert Filter(ab, keep) == [a[0]] + (x + y);
        assert [a[0]] + (x + y) == ([a[0]] + x) + y;
      }
    }
  }

  /** Two predicates that agree on every element filter the list alike. */
  lemma {:induction false} FilterCongruent<T>(s: seq<T>, k1: T -> bool, k2: T -> bool)
    requires forall i :: 0 <= i < |s| ==> k1(s[i]) == k2(s[i])
    ensures Filter(s, k1) == Filter(s, k2)
  {
    if s != [] {
      FilterCongruent(s[1..], k1, k2);
    }
  }

  /** `s.splice(k, 1)` as a value: `s` without its element at index `k`. */
  function RemoveAt<T>(s: seq<T>, k: nat): (r: seq<T>)
    requires k < |s|
    ensures |r| == |s| - 1
    ensures forall i :: 0 <= i < k ==> r[i] == s[i]
    ensures forall i :: k <= i < |r| ==> r[i] == s[i + 1]
  {
    s[..k] + s[k + 1..]
  }

  lemma {:induction false} RemoveAtIsSubsequence<T>(s: seq<T>, k: nat)
    requires k < |s|
    ensures IsSubsequence(RemoveAt(s, k), s)
  {
    var r := RemoveAt(s, k);
    if k == 0 {
      assert r == s[1..];
      SubsequenceReflexive(s[1..]);
    } else {
      RemoveAtIsSubsequence(s[1..], k - 1);
      assert r[0] == s[0] && r[1..] == RemoveAt(s[1..], k - 1);
    }
  }

  /** Filtering around one rejected element drops just that element. */
  lemma FilterAroundRejected<T>(pre: seq<T>, x: T, post: seq<T>, keep: T -> bool)
    requires !keep(x)
    ensures Filter(pre + [x] + post, keep) == Filter(pre, keep) + Filter(post, keep)
  {
    FilterConcat(pre, [x], keep);
    FilterConcat(pre + [x], post, keep);
    assert Filter([x], keep) == [];
    assert Filter(pre, keep) + [] == Filter(pre, keep);
  }

  /** When exactly the element at `k` fails `keep`, filtering removes just that one. */
  lemma FilterDropsOne<T>(s: seq<T>, keep: T -> bool, k: nat)
    requires k < |s| && !keep(s[k])
    requires forall i :: 0 <= i < |s| && i != k ==> keep(s[i])
    ensures Filter(s, keep) == RemoveAt(s, k)
  {
    var pre, post := s[..k], s[k + 1..];
    forall i | 0 <= i < |pre| ensures keep(pre[i]) { assert pre[i] == s[i]; }
    forall i | 0 <= i < |post| ensures keep(post[i]) { assert post[i] == s[k + 1 + i]; }
    FilterAll(pre, keep);
    FilterAll(post, keep);
    SplitAt(s, k);
    FilterAroundRejected(pre, s[k], post, keep);
  }

  lemma SplitAt<T>(s: seq<T>, k: nat)
    requires k < |s|
    ensures s == s[..k] + [s[k]] + s[k + 1..]
  {
  }
}
