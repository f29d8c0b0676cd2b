/**
 * `Array.prototype.filter` on sequences.
 */
module Seqs {
  /** `xs.filter(p)`: the elements that satisfy `p`, in their order. */
  function Filter<T(!new)>(xs: seq<T>, p: T -> bool): (r: seq<T>)
    ensures |r| <= |xs|
    ensures forall x :: x in r <==> x in xs && p(x)
  {
    if xs == [] then [] else (if p(xs[0]) then [xs[0]] else []) + Filter(xs[1..], p)
  }

  /** Filtering distributes over concatenation, so it keeps relative order. */
  lemma {:induction false} FilterConcat<T(!new)>(a: seq<T>, b: seq<T>, p: T -> bool)
    ensures Filter(a + b, p) == Filter(a, p) + Filter(b, p)
    decreases |a|
  {
    if a == [] {
      assert a + b == b;
    } else {
      var h := if p(a[0]) then [a[0]] else [];
      assert (a + b)[0] == a[0];
      assert (a + b)[1..] == a[1..] + b;
      assert Filter(a + b, p) == h + Filter(a[1..] + b, p);
      FilterConcat(a[1..], b, p);
      assert Filter(a, p) == h + Filter(a[1..], p);
      assert h + (Filter(a[1..], p) + Filter(b, p)) == (h + Filter(a[1..], p)) + Filter(b, p);
    }
  }

  /** A filter every element passes keeps the whole sequence. */
  lemma {:induction false} FilterKeepsAll<T(!new)>(xs: seq<T>, p: T -> bool)
    requires forall k :: 0 <= k < |xs| ==> p(xs[k])
    ensures Filter(xs, p) == xs
    decreases |xs|
  {
    if xs != [] {
      assert p(xs[0]);
      assert forall k :: 0 <= k < |xs| - 1 ==> xs[1..][k] == xs[k + 1];
      FilterKeepsAll(xs[1..], p);
      assert [xs[0]] + xs[1..] == xs;
    }
  }

  /** What a filter drops is what the opposite filter keeps: together they
      hold every element exactly as often as the sequence does. */
  lemma {:induction false} FilterPartition<T(!new)>(xs: seq<T>, p: T -> bool, q: T -> bool)
    requires forall x :: q(x) == !p(x)
    ensures multiset(Filter(xs, p)) + multiset(Filter(xs, q)) == multiset(xs)
    decreases |xs|
  {
    if xs != [] {
      var t := xs[1..];
      FilterPartition(t, p, q);
      assert xs == [xs[0]] + t;
      var hp := if p(xs[0]) then [xs[0]] else [];
      var hq := if q(xs[0]) then [xs[0]] else [];
      assert multiset(hp) + multiset(hq) == multiset{xs[0]};
      assert multiset(Filter(xs, p)) == multiset(hp) + multiset(Filter(t, p));
      assert multiset(Filter(xs, q)) == multiset(hq) + multiset(Filter(t, q));
    }
  }

  /** No element occurs twice. */
  predicate NoDuplicates<T(==)>(xs: seq<T>)
  {
    forall i, j :: 0 <= i < j < |xs| ==> xs[i] != xs[j]
  }

  /** Filtering never introduces a duplicate. */
  lemma {:induction false} FilterKeepsNoDuplicates<T(!new)>(xs: seq<T>, p: T -> bool)
    requires NoDuplicates(xs)
    ensures NoDuplicates(Filter(xs, p))
    decreases |xs|
  {
    if xs != [] {
      var t := xs[1..];
      assert NoDuplicates(t) by {
        forall i, j | 0 <= i < j < |t| ensures t[i] != t[j] {
          assert t[i] == xs[i + 1] && t[j] == xs[j + 1];
        }
      }
      FilterKeepsNoDuplicates(t, p);
      assert xs[0] !in t by {
        forall k | 0 <= k < |t| ensures t[k] != xs[0] {
          assert t[k] == xs[k + 1];
        }
      }
      var r := Filter(xs, p);
      var h := if p(xs[0]) then [xs[0]] else [];
      var f := Filter(t, p);
      assert r == h + f;
      forall i, j | 0 <= i < j < |r| ensures r[i] != r[j] {
        if h != [] && i == 0 {
          assert r[j] == f[j - 1] && f[j - 1] in f;
        } else {
          assert r[i] == f[i - |h|] && r[j] == f[j - |h|];
        }
      }
    }
  }
}
