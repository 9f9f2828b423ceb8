/**
 `itertools.permutations(xs, r=2)`: every ordered pair of elements taken from two different
 positions of `xs`, in lexicographic order of the positions. Equal elements at different
 positions still give a pair, as in Python.
 */
module Permutations {

  /** Position pair `p` comes strictly before position pair `q` in lexicographic order. */
  predicate Before(p: (nat, nat), q: (nat, nat)) {
    p.0 < q.0 || (p.0 == q.0 && p.1 < q.1)
  }

  /** The pairs (i, j), j != i, for a fixed first position i and second positions from j on. */
  function Row(n: nat, i: nat, j: nat): (r: seq<(nat, nat)>)
    requires i < n && j <= n
    ensures forall k :: 0 <= k < |r| ==> r[k].0 == i && j <= r[k].1 < n && r[k].1 != i
    ensures forall k, l :: 0 <= k < l < |r| ==> r[k].1 < r[l].1
    ensures forall m: nat :: j <= m < n && m != i ==> (i, m) in r
    ensures |r| == if j <= i then n - j - 1 else n - j
    decreases n - j
  {
    if j == n then []
    else if j == i then Row(n, i, j + 1)
    else [(i, j)] + Row(n, i, j + 1)
  }

  /** The position pairs whose first position is at least i. */
  function PairsFrom(n: nat, i: nat): (r: seq<(nat, nat)>)
    requires i <= n
    ensures forall k :: 0 <= k < |r| ==> i <= r[k].0 < n && r[k].1 < n && r[k].0 != r[k].1
    ensures forall k, l :: 0 <= k < l < |r| ==> Before(r[k], r[l])
    ensures forall a: nat, b: nat :: i <= a < n && b < n && a != b ==> (a, b) in r
    ensures |r| == (n - i) * (n - 1)
    decreases n - i
  {
    if i == n then []
    else
      var row, rest := Row(n, i, 0), PairsFrom(n, i + 1);
      RowThenRest(n, i, row, rest);
      row + rest
  }

  /** Row i followed by the pairs of later rows: the facts PairsFrom states, one at a time. */
  lemma RowThenRest(n: nat, i: nat, row: seq<(nat, nat)>, rest: seq<(nat, nat)>)
    requires i < n
    requires row == Row(n, i, 0)
    requires forall k :: 0 <= k < |rest| ==> i + 1 <= rest[k].0 < n && rest[k].1 < n && rest[k].0 != rest[k].1
    requires forall k, l :: 0 <= k < l < |rest| ==> Before(rest[k], rest[l])
    requires forall a: nat, b: nat :: i + 1 <= a < n && b < n && a != b ==> (a, b) in rest
    requires |rest| == (n - i - 1) * (n - 1)
    ensures forall k :: 0 <= k < |row + rest| ==>
              i <= (row + rest)[k].0 < n && (row + rest)[k].1 < n && (row + rest)[k].0 != (row + rest)[k].1
    ensures forall k, l :: 0 <= k < l < |row + rest| ==> Before((row + rest)[k], (row + rest)[l])
    ensures forall a: nat, b: nat :: i <= a < n && b < n && a != b ==> (a, b) in row + rest
    ensures |row + rest| == (n - i) * (n - 1)
  {
    RowThenRestLength(n, i, |row|, |rest|);
    RowThenRestBounds(n, i, row, rest);
    RowThenRestOrdered(n, i, row, rest);
    RowThenRestCovers(n, i, row, rest);
  }

  lemma RowThenRestLength(n: nat, i: nat, rowLength: nat, restLength: nat)
    requires i < n
    requires rowLength == n - 1 && restLength == (n - i - 1) * (n - 1)
    ensures rowLength + restLength == (n - i) * (n - 1)
  {
    assert (n - i) * (n - 1) == (n - 1) + (n - i - 1) * (n - 1);
  }

  lemma RowThenRestBounds(n: nat, i: nat, row: seq<(nat, nat)>, rest: seq<(nat, nat)>)
    requires forall k :: 0 <= k < |row| ==> row[k].0 == i && row[k].1 < n && row[k].1 != i
    requires i < n
    requires forall k :: 0 <= k < |rest| ==> i + 1 <= rest[k].0 < n && rest[k].1 < n && rest[k].0 != rest[k].1
    ensures forall k :: 0 <= k < |row + rest| ==>
              i <= (row + rest)[k].0 < n && (row + rest)[k].1 < n && (row + rest)[k].0 != (row + rest)[k].1
  {
    var r := row + rest;
    forall k | 0 <= k < |r|
      ensures i <= r[k].0 < n && r[k].1 < n && r[k].0 != r[k].1
    {
      if k < |row| {
        assert r[k] == row[k];
      } else {
        assert r[k] == rest[k - |row|];
      }
    }
  }

  lemma RowThenRestOrdered(n: nat, i: nat, row: seq<(nat, nat)>, rest: seq<(nat, nat)>)
    requires forall k :: 0 <= k < |row| ==> row[k].0 == i
    requires forall k, l :: 0 <= k < l < |row| ==> row[k].1 < row[l].1
    requires forall k :: 0 <= k < |rest| ==> i + 1 <= rest[k].0
    requires forall k, l :: 0 <= k < l < |rest| ==> Before(rest[k], rest[l])
    ensures forall k, l :: 0 <= k < l < |row + rest| ==> Before((row + rest)[k], (row + rest)[l])
  {
    var r := row + rest;
    forall k, l | 0 <= k < l < |r|
      ensures Before(r[k], r[l])
    {
      if l < |row| {
        assert r[k] == row[k] && r[l] == row[l];
      } else if k < |row| {
        assert r[k] == row[k] && r[l] == rest[l - |row|];
      } else {
        assert r[k] == rest[k - |row|] && r[l] == rest[l - |row|];
      }
    }
  }

  lemma RowThenRestCovers(n: nat, i: nat, row: seq<(nat, nat)>, rest: seq<(nat, nat)>)
    requires forall m: nat :: m < n && m != i ==> (i, m) in row
    requires forall a: nat, b: nat :: i + 1 <= a < n && b < n && a != b ==> (a, b) in rest
    ensures forall a: nat, b: nat :: i <= a < n && b < n && a != b ==> (a, b) in row + rest
  {
    forall a: nat, b: nat | i <= a < n && b < n && a != b
      ensures (a, b) in row + rest
    {
      if a == i {
        assert (a, b) in row;
      } else {
        assert (a, b) in rest;
      }
    }
  }

  /** The position pairs permutations(range(n), r=2) yields, in the order it yields them. */
  function IndexPairs(n: nat): (r: seq<(nat, nat)>)
    ensures forall k :: 0 <= k < |r| ==> r[k].0 < n && r[k].1 < n && r[k].0 != r[k].1
    ensures forall k, l :: 0 <= k < l < |r| ==> Before(r[k], r[l])
    ensures forall a: nat, b: nat :: a < n && b < n && a != b ==> (a, b) in r
    ensures |r| == n * (n - 1)
  {
    PairsFrom(n, 0)
  }

  /** Where the position pair (i, j) sits in the order permutations yields. */
  lemma PairIndex(n: nat, i: nat, j: nat) returns (k: nat)
    requires i < n && j < n && i != j
    ensures k < |IndexPairs(n)| && IndexPairs(n)[k] == (i, j)
  {
    var ip := IndexPairs(n);
    assert (i, j) in ip;
    k :| 0 <= k < |ip| && ip[k] == (i, j);
  }

  /** permutations(xs, r=2): the elements at every two different positions, n*(n-1) pairs. */
  function Pairs<T>(xs: seq<T>): (ps: seq<(T, T)>)
    ensures |ps| == |xs| * (|xs| - 1)
    ensures forall i, j :: 0 <= i < |xs| && 0 <= j < |xs| && i != j ==> (xs[i], xs[j]) in ps
    ensures forall p :: p in ps ==>
              exists i, j :: 0 <= i < |xs| && 0 <= j < |xs| && i != j && p == (xs[i], xs[j])
  {
    var ip := IndexPairs(|xs|);
    var ps := seq(|ip|, k requires 0 <= k < |ip| => (xs[ip[k].0], xs[ip[k].1]));
    assert forall i, j :: 0 <= i < |xs| && 0 <= j < |xs| && i != j ==> (xs[i], xs[j]) in ps by {
      forall i: nat, j: nat | i < |xs| && j < |xs| && i != j
        ensures (xs[i], xs[j]) in ps
      {
        var k := PairIndex(|xs|, i, j);
        assert ps[k] == (xs[i], xs[j]);
      }
    }
    assert forall p :: p in ps ==>
             exists i, j :: 0 <= i < |xs| && 0 <= j < |xs| && i != j && p == (xs[i], xs[j]) by {
      forall p | p in ps
        ensures exists i, j :: 0 <= i < |xs| && 0 <= j < |xs| && i != j && p == (xs[i], xs[j])
      {
        var k :| 0 <= k < |ps| && ps[k] == p;
        assert p == (xs[ip[k].0], xs[ip[k].1]);
      }
    }
    ps
  }

  /** The positions the k-th pair is taken from. */
  lemma PairPositions<T>(xs: seq<T>, k: nat) returns (i: nat, j: nat)
    requires k < |Pairs(xs)|
    ensures i < |xs| && j < |xs| && i != j && Pairs(xs)[k] == (xs[i], xs[j])
  {
    var ip := IndexPairs(|xs|);
    i, j := ip[k].0, ip[k].1;
  }

  /** With fewer than two elements there is no pair. */
  lemma NoPairsBelowTwo<T>(xs: seq<T>)
    requires |xs| <= 1
    ensures Pairs(xs) == []
  {
  }

  /** A pair of values is yielded exactly when the values sit at two different positions. */
  lemma PairsMembership<T>(xs: seq<T>, a: T, b: T)
    ensures (a, b) in Pairs(xs) <==>
              exists i, j :: 0 <= i < |xs| && 0 <= j < |xs| && i != j && xs[i] == a && xs[j] == b
  {
  }

  /** When the elements are distinct, no pair of values is yielded twice. */
  lemma PairsDistinct<T>(xs: seq<T>)
    requires forall i, j :: 0 <= i < j < |xs| ==> xs[i] != xs[j]
    ensures forall k, l :: 0 <= k < l < |Pairs(xs)| ==> Pairs(xs)[k] != Pairs(xs)[l]
  {
  }
}
