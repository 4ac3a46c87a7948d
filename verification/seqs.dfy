/** Order-preserving selection from sequences: the `Array.prototype.filter`
    of the model and the subsequence relation it produces. */
module Seqs {

  /** `a` can be obtained from `b` by deleting elements, without reordering. */
  predicate IsSubsequence<T(==)>(a: seq<T>, b: seq<T>)
    decreases |b|
  {
    if a == [] then true
    else if b == [] then false
    else (a[0] == b[0] && IsSubsequence(a[1..], b[1..])) || IsSubsequence(a, b[1..])
  }

  /** The elements of `s` that satisfy `keep`, in their original order. */
  function Filter<T(==)>(s: seq<T>, keep: T -> bool): (r: seq<T>)
    ensures |r| <= |s|
    ensures forall i :: 0 <= i < |r| ==> keep(r[i]) && r[i] in s
    ensures forall i :: 0 <= i < |s| && keep(s[i]) ==> s[i] in r
  {
    if s == [] then []
    else if keep(s[0]) then [s[0]] + Filter(s[1..], keep)
    else Filter(s[1..], keep)
  }

  lemma {:induction false} FilterIsSubsequence<T>(s: seq<T>, keep: T -> bool)
    ensures IsSubsequence(Filter(s, keep), s)
  {
    if s != [] {
      FilterIsSubsequence(s[1..], keep);
    }
  }

  lemma {:induction false} FilterAppend<T>(a: seq<T>, b: seq<T>, keep: T -> bool)
    ensures Filter(a + b, keep) == Filter(a, keep) + Filter(b, keep)
  {
    if a != [] {
      assert (a + b)[0] == a[0];
      assert (a + b)[1..] == a[1..] + b;
      FilterAppend(a[1..], b, keep);
      if keep(a[0]) {
        assert Filter(a + b, keep) == [a[0]] + Filter(a[1..] + b, keep);
      }
    } else {
      assert a + b == b;
    }
  }

  /** A rejected element leaves the filter unchanged wherever it stands. */
  lemma FilterSkipsRejected<T>(a: seq<T>, x: T, b: seq<T>, keep: T -> bool)
    requires !keep(x)
    ensures Filter(a + [x] + b, keep) == Filter(a + b, keep)
  {
    FilterAppend(a + [x], b, keep);
    FilterAppend(a, [x], keep);
    FilterAppend(a, b, keep);
    assert Filter([x], keep) == [];
  }

  /** Filtering keeps everything exactly when every element passes. */
  lemma {:induction false} FilterKeepsAll<T>(s: seq<T>, keep: T -> bool)
    ensures Filter(s, keep) == s <==> forall i :: 0 <= i < |s| ==> keep(s[i])
  {
    if s != [] {
      FilterKeepsAll(s[1..], keep);
      if !keep(s[0]) {
        assert |Filter(s, keep)| <= |s[1..]| < |s|;
      }
    }
  }

  /** What one filter keeps and its complement keeps add up to the whole. */
  lemma {:induction false} FilterComplementCount<T>(s: seq<T>, keep: T -> bool, drop: T -> bool)
    requires forall x :: drop(x) == !keep(x)
    ensures |Filter(s, keep)| + |Filter(s, drop)| == |s|
  {
    if s != [] {
      FilterComplementCount(s[1..], keep, drop);
    }
  }

  /** A subsequence made only of kept elements is no longer than the filter. */
  lemma {:induction false} SubsequenceOfKeptIsShorter<T>(a: seq<T>, s: seq<T>, keep: T -> bool)
    requires IsSubsequence(a, s)
    requires forall i :: 0 <= i < |a| ==> keep(a[i])
    ensures |a| <= |Filter(s, keep)|
    decreases |s|
  {
    if a != [] {
      if a[0] == s[0] && IsSubsequence(a[1..], s[1..]) {
        SubsequenceOfKeptIsShorter(a[1..], s[1..], keep);
      } else {
        SubsequenceOfKeptIsShorter(a, s[1..], keep);
      }
    }
  }

  /** The filter is the only subsequence of `s` that has no rejected element
      and is as long as the kept part: nothing kept is dropped and nothing is
      reordered. */
  lemma {:induction false} FilterIsTheLongestKeptSubsequence<T>(a: seq<T>, s: seq<T>, keep: T -> bool)
    requires IsSubsequence(a, s)
    requires forall i :: 0 <= i < |a| ==> keep(a[i])
    requires |a| == |Filter(s, keep)|
    ensures a == Filter(s, keep)
    decreases |s|
  {
    if s == [] {
    } else if !keep(s[0]) {
      if a != [] && a[0] == s[0] {
        assert false;
      }
      assert IsSubsequence(a, s[1..]);
      FilterIsTheLongestKeptSubsequence(a, s[1..], keep);
    } else if a[0] == s[0] && IsSubsequence(a[1..], s[1..]) {
      FilterIsTheLongestKeptSubsequence(a[1..], s[1..], keep);
    } else {
      SubsequenceOfKeptIsShorter(a, s[1..], keep);
      assert false;
    }
  }

  /** The subsequence relation is transitive. */
  lemma {:induction false} SubsequenceTransitive<T>(a: seq<T>, b: seq<T>, c: seq<T>)
    requires IsSubsequence(a, b) && IsSubsequence(b, c)
    ensures IsSubsequence(a, c)
    decreases |c|
  {
    if a != [] {
      if b[0] == c[0] && IsSubsequence(b[1..], c[1..]) {
        if a[0] == b[0] && IsSubsequence(a[1..], b[1..]) {
          SubsequenceTransitive(a[1..], b[1..], c[1..]);
        } else {
          SubsequenceTransitive(a, b[1..], c[1..]);
        }
      } else {
        SubsequenceTransitive(a, b, c[1..]);
      }
    }
  }
}
