/** The ordered pairs (i, j), i != j, that the `get_graph_edges` methods
    list, row by row: for i in range(n), for j in range(n), if i != j. */
module Pairs {
  import opened Wrappers

  /** The pairs (i, k) with k < j and k != i, by increasing k. */
  function Row(i: nat, j: nat): (s: seq<(nat, nat)>)
    ensures |s| == if i < j then j - 1 else j
  {
    if j == 0 then []
    else
      var s := Row(i, j - 1);
      if j - 1 == i then s else s + [(i, j - 1)]
  }

  /** Rows 0 .. m-1 of the n by n pairs without the diagonal. */
  function Rows(m: nat, n: nat): seq<(nat, nat)> {
    if m == 0 then []
    else Rows(m - 1, n) + Row(m - 1, n)
  }

  function OrderedPairs(n: nat): seq<(nat, nat)> {
    Rows(n, n)
  }

  lemma {:induction false} RowMembers(i: nat, j: nat)
    ensures forall p :: p in Row(i, j) <==> p.0 == i && p.1 < j && p.1 != i
  {
    if j > 0 {
      RowMembers(i, j - 1);
    }
  }

  lemma {:induction false} RowsMembers(m: nat, n: nat)
    ensures forall p :: p in Rows(m, n) <==> p.0 < m && p.1 < n && p.1 != p.0
  {
    if m > 0 {
      RowsMembers(m - 1, n);
      RowMembers(m - 1, n);
    }
  }

  lemma DistinctConcat<T>(a: seq<T>, b: seq<T>)
    requires Distinct(a) && Distinct(b)
    requires forall x :: x in a ==> x !in b
    ensures Distinct(a + b)
  {
    var c := a + b;
    forall i, j | 0 <= i < j < |c| ensures c[i] != c[j] {
      if j < |a| {
      } else if i >= |a| {
        assert c[i] == b[i - |a|] && c[j] == b[j - |a|];
      } else {
        assert c[i] in a && c[j] in b;
      }
    }
  }

  lemma {:induction false} RowDistinct(i: nat, j: nat)
    ensures Distinct(Row(i, j))
  {
    if j > 0 {
      RowDistinct(i, j - 1);
      if j - 1 != i {
        RowMembers(i, j - 1);
        DistinctConcat(Row(i, j - 1), [(i, j - 1)]);
      }
    }
  }

  lemma MulStep(a: int, b: int, m: nat, k: int)
    requires m > 0 && a == (m - 1) * k && b == k
    ensures a + b == m * k
  {
  }

  lemma {:induction false} RowsLength(m: nat, n: nat)
    requires m <= n
    ensures |Rows(m, n)| == m * (n - 1)
  {
    if m > 0 {
      RowsLength(m - 1, n);
      assert |Rows(m, n)| == |Rows(m - 1, n)| + |Row(m - 1, n)|;
      MulStep(|Rows(m - 1, n)|, |Row(m - 1, n)|, m, n - 1);
    }
  }

  lemma {:induction false} RowsDistinct(m: nat, n: nat)
    ensures Distinct(Rows(m, n))
  {
    if m > 0 {
      RowsDistinct(m - 1, n);
      RowDistinct(m - 1, n);
      RowsMembers(m - 1, n);
      RowMembers(m - 1, n);
      DistinctConcat(Rows(m - 1, n), Row(m - 1, n));
    }
  }

  /** There are n(n - 1) pairs, each listed once, and they are exactly the
      pairs of distinct indices below n. */
  lemma OrderedPairsSpec(n: nat)
    ensures |OrderedPairs(n)| == n * (n - 1)
    ensures Distinct(OrderedPairs(n))
    ensures forall i: nat, j: nat :: (i, j) in OrderedPairs(n) <==> i < n && j < n && i != j
  {
    RowsLength(n, n);
    RowsDistinct(n, n);
    RowsMembers(n, n);
    forall i: nat, j: nat ensures (i, j) in OrderedPairs(n) <==> i < n && j < n && i != j {
      var p: (nat, nat) := (i, j);
      assert p in Rows(n, n) <==> p.0 < n && p.1 < n && p.1 != p.0;
    }
  }
}
