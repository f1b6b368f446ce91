/** Filtering a sequence while keeping its order: the shape of every
    `for _, x := range xs { if cond { out = append(out, x) } }` loop of the
    override manager. */
module Seqs {

  /** The elements of `s` that satisfy `p`, in the order of `s`. */
  function Filter<T>(s: seq<T>, p: T -> bool): (r: seq<T>)
    ensures |r| <= |s|
    decreases |s|
  {
    if s == [] then []
    else Filter(s[..|s| - 1], p) + (if p(s[|s| - 1]) then [s[|s| - 1]] else [])
  }

  /** `a` is `b` with some elements left out, the others kept in order. */
  ghost predicate IsSubsequence<T>(a: seq<T>, b: seq<T>)
    decreases |b|
  {
    if a == [] then true
    else if b == [] then false
    else if a[|a| - 1] == b[|b| - 1] then IsSubsequence(a[..|a| - 1], b[..|b| - 1])
    else IsSubsequence(a, b[..|b| - 1])
  }

  lemma {:induction false} FilterAppend<T>(s: seq<T>, t: seq<T>, p: T -> bool)
    ensures Filter(s + t, p) == Filter(s, p) + Filter(t, p)
    decreases |t|
  {
    if t == [] {
      assert s + t == s;
    } else {
      var t' := t[..|t| - 1];
      assert (s + t)[..|s + t| - 1] == s + t';
      FilterAppend(s, t', p);
    }
  }

  /** An element is kept exactly when it is in `s` and satisfies `p`. */
  lemma {:induction false} FilterMembership<T>(s: seq<T>, p: T -> bool, x: T)
    ensures x in Filter(s, p) <==> x in s && p(x)
    decreases |s|
  {
    if s != [] {
      var s' := s[..|s| - 1];
      FilterMembership(s', p, x);
      assert s == s' + [s[|s| - 1]];
    }
  }

  /** Every element of the result satisfies `p` and comes from `s`. */
  lemma FilterAll<T>(s: seq<T>, p: T -> bool)
    ensures forall x | x in Filter(s, p) :: x in s && p(x)
  {
    forall x | x in Filter(s, p)
      ensures x in s && p(x)
    {
      FilterMembership(s, p, x);
    }
  }

  /** The result keeps the order of `s`. */
  lemma {:induction false} FilterIsSubsequence<T>(s: seq<T>, p: T -> bool)
    ensures IsSubsequence(Filter(s, p), s)
    decreases |s|
  {
    if s != [] {
      var s' := s[..|s| - 1];
      FilterIsSubsequence(s', p);
      if p(s[|s| - 1]) {
        var f := Filter(s, p);
        assert f[..|f| - 1] == Filter(s', p);
      } else {
        assert Filter(s, p) == Filter(s', p);
        SubsequenceOfPrefix(Filter(s', p), s);
      }
    }
  }

  /** A subsequence of `s'` stays one after `s'` grows by a last element. */
  lemma {:induction false} SubsequenceOfPrefix<T>(a: seq<T>, b: seq<T>)
    requires b != []
    requires IsSubsequence(a, b[..|b| - 1])
    ensures IsSubsequence(a, b)
    decreases |b|, |a|
  {
    var b' := b[..|b| - 1];
    if a != [] && a[|a| - 1] == b[|b| - 1] {
      // the greedy match takes b's last element: a's prefix must fit in b'
      SubsequenceShrink(a, b');
    }
  }

  /** Dropping the last element of `a` keeps it a subsequence. */
  lemma {:induction false} SubsequenceShrink<T>(a: seq<T>, b: seq<T>)
    requires a != []
    requires IsSubsequence(a, b)
    ensures IsSubsequence(a[..|a| - 1], b)
    decreases |b|, |a|
  {
    var a' := a[..|a| - 1];
    var b' := b[..|b| - 1];
    if a[|a| - 1] == b[|b| - 1] {
      if a' != [] {
        SubsequenceOfPrefix(a', b);
      }
    } else {
      SubsequenceShrink(a, b');
      if a' != [] {
        SubsequenceOfPrefix(a', b);
      }
    }
  }

  /** Filtering two sequences that hold the same elements gives results that
      hold the same elements. */
  lemma {:induction false} FilterPermutation<T>(s: seq<T>, t: seq<T>, p: T -> bool)
    requires multiset(s) == multiset(t)
    ensures multiset(Filter(s, p)) == multiset(Filter(t, p))
    decreases |s|
  {
    if s == [] {
      assert |t| == |multiset(t)| == 0;
    } else {
      var x := s[|s| - 1];
      var s' := s[..|s| - 1];
      SplitLast(s);
      assert x in multiset(t);
      var k :| 0 <= k < |t| && t[k] == x;
      var t' := t[..k] + t[k + 1..];
      RemoveAtMultiset(t, k);
      FilterPermutation(s', t', p);
      FilterRemoveAt(t, k, p);
    }
  }

  /** Taking out the element at k takes one copy of it out of the multiset. */
  lemma RemoveAtMultiset<T>(t: seq<T>, k: int)
    requires 0 <= k < |t|
    ensures multiset(t[..k] + t[k + 1..]) == multiset(t) - multiset{t[k]}
  {
    assert t == t[..k] + [t[k]] + t[k + 1..];
  }

  /** Filtering with the element at k taken out keeps what filtering the
      whole keeps, but that element. */
  lemma FilterRemoveAt<T>(t: seq<T>, k: int, p: T -> bool)
    requires 0 <= k < |t|
    ensures multiset(Filter(t, p)) ==
            multiset(Filter(t[..k] + t[k + 1..], p)) + (if p(t[k]) then multiset{t[k]} else multiset{})
  {
    var a, x, b := t[..k], t[k], t[k + 1..];
    SplitAround(t, k);
    var fa, fx, fb := Filter(a, p), (if p(x) then [x] else []), Filter(b, p);
    FilterAround(a, x, b, p);
    FilterAppend(a, b, p);
    MultisetMiddle(fa, fx, fb);
    assert multiset(fx) == (if p(x) then multiset{x} else multiset{});
  }

  /** Slicing facts, proved where nothing else is in scope. */
  lemma PrefixSnoc<T>(s: seq<T>, k: int)
    requires 0 <= k < |s|
    ensures s[..k + 1] == s[..k] + [s[k]] && s[..k + 1][..k] == s[..k]
  {
  }

  lemma TakeAll<T>(s: seq<T>)
    ensures s[..|s|] == s
  {
  }

  lemma DropFirst<T>(s: seq<T>, i: int)
    requires 0 <= i < |s|
    ensures s[i..][1..] == s[i + 1..]
  {
  }

  lemma SnocPrefix<T>(s: seq<T>, x: T)
    ensures (s + [x])[..|s|] == s && (s + [x])[|s|] == x
  {
  }

  lemma SplitLast<T>(s: seq<T>)
    requires s != []
    ensures s == s[..|s| - 1] + [s[|s| - 1]]
  {
  }

  lemma SplitAround<T>(t: seq<T>, k: int)
    requires 0 <= k < |t|
    ensures t == t[..k] + [t[k]] + t[k + 1..]
  {
  }

  lemma MultisetMiddle<T>(a: seq<T>, m: seq<T>, b: seq<T>)
    ensures multiset(a + m + b) == multiset(a + b) + multiset(m)
  {
  }

  /** Filtering a sequence around one element. */
  lemma FilterAround<T>(a: seq<T>, x: T, b: seq<T>, p: T -> bool)
    ensures Filter(a + [x] + b, p) == Filter(a, p) + (if p(x) then [x] else []) + Filter(b, p)
  {
    FilterAppend(a + [x], b, p);
    FilterAppend(a, [x], p);
    assert [x][..0] == [];
  }

  /** Filtering with `p` and with its negation splits `s` into two parts
      that together hold every element of `s` exactly once. */
  lemma {:induction false} FilterSplit<T>(s: seq<T>, p: T -> bool, q: T -> bool)
    requires forall x :: q(x) == !p(x)
    ensures multiset(Filter(s, p)) + multiset(Filter(s, q)) == multiset(s)
    ensures |Filter(s, p)| + |Filter(s, q)| == |s|
    decreases |s|
  {
    if s != [] {
      var s' := s[..|s| - 1];
      var x := s[|s| - 1];
      FilterSplit(s', p, q);
      SplitLast(s);
      if p(x) {
        assert Filter(s, q) == Filter(s', q);
      } else {
        assert Filter(s, p) == Filter(s', p);
      }
    }
  }

  /** Two conditions that agree on every element of `s` keep the same
      elements. */
  lemma {:induction false} FilterCongruent<T>(s: seq<T>, p: T -> bool, q: T -> bool)
    requires forall i | 0 <= i < |s| :: p(s[i]) == q(s[i])
    ensures Filter(s, p) == Filter(s, q)
    decreases |s|
  {
    if s != [] {
      var s' := s[..|s| - 1];
      assert forall i | 0 <= i < |s'| :: s'[i] == s[i];
      FilterCongruent(s', p, q);
    }
  }

  /** Sequences of the same length whose elements agree on `p` position by
      position keep the same number of elements. */
  lemma {:induction false} FilterPointwise<T>(s: seq<T>, t: seq<T>, p: T -> bool)
    requires |s| == |t|
    requires forall i | 0 <= i < |s| :: p(s[i]) == p(t[i])
    ensures |Filter(s, p)| == |Filter(t, p)|
    decreases |s|
  {
    if s != [] {
      var n := |s| - 1;
      assert forall i | 0 <= i < n :: s[..n][i] == s[i] && t[..n][i] == t[i];
      FilterPointwise(s[..n], t[..n], p);
    }
  }
}
