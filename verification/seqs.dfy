/** Generic sequence operations behind the store's `Array.prototype.filter` calls. */
module Seqs {

  /** `a` can be obtained from `b` by deleting elements; what is kept stays in order. */
  predicate IsSubsequence<T(==)>(a: seq<T>, b: seq<T>)
    decreases |b|
  {
    if |b| == 0 then |a| == 0
    else IsSubsequence(a, b[1..]) || (|a| > 0 && a[0] == b[0] && IsSubsequence(a[1..], b[1..]))
  }

  /** `xs.filter(p)`: the elements satisfying `p`, in their original order. */
  function Keep<T>(s: seq<T>, p: T -> bool): (r: seq<T>)
    ensures |r| <= |s|
    decreases |s|
  {
    if |s| == 0 then []
    else if p(s[0]) then [s[0]] + Keep(s[1..], p)
    else Keep(s[1..], p)
  }

  /** The filter's result is a subsequence of its input. */
  lemma {:induction false} KeepSubsequence<T>(s: seq<T>, p: T -> bool)
    ensures IsSubsequence(Keep(s, p), s)
    decreases |s|
  {
    if |s| > 0 {
      KeepSubsequence(s[1..], p);
      if p(s[0]) {
        assert Keep(s, p)[1..] == Keep(s[1..], p);
      }
    }
  }

  /** The filter keeps everything exactly when every element satisfies `p`. */
  lemma {:induction false} KeepAll<T>(s: seq<T>, p: T -> bool)
    ensures Keep(s, p) == s <==> forall i :: 0 <= i < |s| ==> p(s[i])
    decreases |s|
  {
    if |s| > 0 {
      KeepAll(s[1..], p);
      if p(s[0]) {
        assert Keep(s, p) == s <==> Keep(s[1..], p) == s[1..];
      } else {
        assert |Keep(s, p)| < |s|;
      }
      if forall i :: 0 <= i < |s| ==> p(s[i]) {
        assert forall i :: 0 <= i < |s| - 1 ==> s[1..][i] == s[i + 1];
      }
    }
  }

  /** What survives the filter: exactly the elements that satisfy `p`. */
  lemma {:induction false} KeepMembers<T(!new)>(s: seq<T>, p: T -> bool)
    ensures forall x :: x in Keep(s, p) <==> x in s && p(x)
    decreases |s|
  {
    if |s| > 0 {
      KeepMembers(s[1..], p);
      assert forall x :: x in s <==> x == s[0] || x in s[1..];
    }
  }

  /** The filter keeps every copy of an element that satisfies `p` and no copy of one that does not. */
  lemma {:induction false} KeepMultiset<T(!new)>(s: seq<T>, p: T -> bool)
    ensures forall x :: multiset(Keep(s, p))[x] == if p(x) then multiset(s)[x] else 0
    decreases |s|
  {
    if |s| > 0 {
      KeepMultiset(s[1..], p);
      assert s == [s[0]] + s[1..];
      assert multiset(s) == multiset([s[0]]) + multiset(s[1..]);
    }
  }

  /** Filtering with two predicates that agree on every element gives the same result. */
  lemma {:induction false} KeepCongruent<T(!new)>(s: seq<T>, p: T -> bool, q: T -> bool)
    requires forall i :: 0 <= i < |s| ==> p(s[i]) == q(s[i])
    ensures Keep(s, p) == Keep(s, q)
    decreases |s|
  {
    if |s| > 0 {
      KeepCongruent(s[1..], p, q);
    }
  }

  /** Filtering distributes over concatenation. */
  lemma {:induction false} KeepConcat<T>(a: seq<T>, b: seq<T>, p: T -> bool)
    ensures Keep(a + b, p) == Keep(a, p) + Keep(b, p)
    decreases |a|
  {
    if |a| == 0 {
      assert a + b == b;
    } else {
      assert (a + b)[1..] == a[1..] + b;
      KeepConcat(a[1..], b, p);
    }
  }

  /** Filtering around an element that fails `p` is filtering the two sides. */
  lemma KeepAround<T>(s: seq<T>, p: T -> bool, k: nat)
    requires k < |s|
    requires !p(s[k])
    ensures Keep(s, p) == Keep(s[..k], p) + Keep(s[k + 1..], p)
  {
    var front, back := s[..k], s[k + 1..];
    assert s == front + ([s[k]] + back);
    KeepConcat(front, [s[k]] + back, p);
    KeepConcat([s[k]], back, p);
    assert Keep([s[k]], p) == [];
  }

  /** A slice whose elements all satisfy `p` is kept whole. */
  lemma KeepSliceWhole<T>(s: seq<T>, p: T -> bool, lo: nat, hi: nat)
    requires lo <= hi <= |s|
    requires forall i :: lo <= i < hi ==> p(s[i])
    ensures Keep(s[lo..hi], p) == s[lo..hi]
  {
    var t := s[lo..hi];
    assert forall i :: 0 <= i < |t| ==> t[i] == s[lo + i];
    KeepAll(t, p);
  }

  /** When exactly the element at `k` fails `p`, filtering removes that one element. */
  lemma KeepDropsOne<T>(s: seq<T>, p: T -> bool, k: nat)
    requires k < |s|
    requires !p(s[k])
    requires forall i :: 0 <= i < |s| && i != k ==> p(s[i])
    ensures Keep(s, p) == s[..k] + s[k + 1..]
  {
    KeepAround(s, p, k);
    KeepSliceWhole(s, p, 0, k);
    KeepSliceWhole(s, p, k + 1, |s|);
    assert s[..k] == s[0..k];
    assert s[k + 1..] == s[k + 1..|s|];
  }

  /** `xs.filter((_, index) => index !== i)`: drops position `i` when there is one. */
  function RemoveAt<T>(s: seq<T>, i: int): (r: seq<T>)
    ensures 0 <= i < |s| ==> |r| == |s| - 1 && r == s[..i] + s[i + 1..]
    ensures !(0 <= i < |s|) ==> r == s
    decreases |s|
  {
    if |s| == 0 then []
    else (if i == 0 then [] else [s[0]]) + RemoveAt(s[1..], i - 1)
  }
}
