/** Sequence combinators the solution is written in: the iterator adaptors
    `filter`, `flatten`, `sum` and `product` of the source, over Dafny sequences. */
module Seqs {

  /** `a` is obtained from `b` by deleting some elements and keeping the order
      of the rest. */
  predicate IsSubseq<T(==)>(a: seq<T>, b: seq<T>)
    decreases |b|
  {
    if |a| == 0 then true
    else if |b| == 0 then false
    else (a[0] == b[0] && IsSubseq(a[1..], b[1..])) || IsSubseq(a, b[1..])
  }

  lemma {:induction false} SubseqLength<T>(a: seq<T>, b: seq<T>)
    requires IsSubseq(a, b)
    ensures |a| <= |b|
    decreases |b|
  {
    if |a| > 0 {
      if a[0] == b[0] && IsSubseq(a[1..], b[1..]) {
        SubseqLength(a[1..], b[1..]);
      } else {
        SubseqLength(a, b[1..]);
      }
    }
  }

  /** The elements of `s` that satisfy `keep`, in their original order. */
  function Filter<T>(s: seq<T>, keep: T -> bool): seq<T>
  {
    if |s| == 0 then []
    else if keep(s[0]) then [s[0]] + Filter(s[1..], keep)
    else Filter(s[1..], keep)
  }

  /** `Filter` keeps, in order, every occurrence of each element satisfying
      `keep` and nothing else. */
  lemma {:induction false} FilterSpec<T(!new)>(s: seq<T>, keep: T -> bool)
    ensures IsSubseq(Filter(s, keep), s)
    ensures forall x :: multiset(Filter(s, keep))[x] == if keep(x) then multiset(s)[x] else 0
    ensures forall x :: x in Filter(s, keep) <==> x in s && keep(x)
  {
    if |s| > 0 {
      FilterSpec(s[1..], keep);
      var rest := Filter(s[1..], keep);
      assert s == [s[0]] + s[1..];
      if keep(s[0]) {
        assert ([s[0]] + rest)[1..] == rest;
      }
    }
  }

  /** The concatenation of the members of `xss`, in order. */
  function Flatten<T(!new)>(xss: seq<seq<T>>): (r: seq<T>)
    ensures |r| == TotalLength(xss)
    ensures forall x :: x in r <==> exists k :: 0 <= k < |xss| && x in xss[k]
  {
    if |xss| == 0 then []
    else
      var rest := Flatten(xss[1..]);
      assert forall k :: 1 <= k < |xss| ==> xss[k] == xss[1..][k - 1];
      xss[0] + rest
  }

  function TotalLength<T>(xss: seq<seq<T>>): nat
  {
    if |xss| == 0 then 0 else |xss[0]| + TotalLength(xss[1..])
  }

  /** The members of `xss` that are not empty. */
  function DropEmpty<T>(xss: seq<seq<T>>): seq<seq<T>>
  {
    Filter(xss, (xs: seq<T>) => |xs| > 0)
  }

  /** Dropping the empty members does not change the concatenation. */
  lemma {:induction false} FlattenDropEmpty<T(!new)>(xss: seq<seq<T>>)
    ensures Flatten(DropEmpty(xss)) == Flatten(xss)
  {
    if |xss| > 0 {
      FlattenDropEmpty(xss[1..]);
    }
  }

  function Sum(s: seq<int>): int
  {
    if |s| == 0 then 0 else s[0] + Sum(s[1..])
  }

  /** The sum of a concatenation is the sum of the parts. */
  lemma {:induction false} SumConcat(a: seq<int>, b: seq<int>)
    ensures Sum(a + b) == Sum(a) + Sum(b)
  {
    if |a| == 0 {
      assert a + b == b;
    } else {
      assert (a + b)[1..] == a[1..] + b;
      SumConcat(a[1..], b);
    }
  }

  function Product(s: seq<int>): int
  {
    if |s| == 0 then 1 else s[0] * Product(s[1..])
  }

  /** The product of a concatenation is the product of the parts. */
  lemma {:induction false} ProductConcat(a: seq<int>, b: seq<int>)
    ensures Product(a + b) == Product(a) * Product(b)
  {
    if |a| == 0 {
      assert a + b == b;
    } else {
      assert (a + b)[1..] == a[1..] + b;
      ProductConcat(a[1..], b);
    }
  }
}
