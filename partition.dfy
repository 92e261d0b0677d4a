/** A disjoint-set structure standing for the per-feature DisjointSet that
    polyhex/objects/old_polyhexes.py keeps of hexagon coordinates: `add`,
    `merge`, `connected` and the sizes of its subsets. Each element carries
    the tag of its subset; `next` is a tag no element carries yet. */
module Partition {

  datatype Partition<T> = Partition(tag: map<T, nat>, next: nat)
  {
    /** Every tag in use is below `next`. */
    predicate Valid() {
      forall z :: z in tag ==> tag[z] < next
    }

    /** The elements added so far. */
    function Universe(): set<T> {
      tag.Keys
    }

    /** x and y were added and lie in the same subset. */
    predicate Connected(x: T, y: T) {
      x in tag && y in tag && tag[x] == tag[y]
    }

    /** The subset holding z. */
    function Block(z: T): (b: set<T>)
      requires z in tag
      ensures z in b && b <= tag.Keys
      ensures forall w :: w in tag ==> (w in b <==> Connected(z, w))
    {
      set w | w in tag.Keys && tag[w] == tag[z]
    }

    /** Adds x as a new singleton subset, unless it is already present. */
    function Add(x: T): (p: Partition<T>)
      ensures p.Universe() == Universe() + {x}
    {
      if x in tag then this else Partition(tag[x := next], next + 1)
    }

    /** Unites the subsets of x and y. */
    function Merge(x: T, y: T): (p: Partition<T>)
      requires x in tag && y in tag
      ensures p.Universe() == Universe()
    {
      var lx, ly := tag[x], tag[y];
      Partition(map z | z in tag :: if tag[z] == ly then lx else tag[z], next)
    }
  }

  /** The empty structure scipy's `DisjointSet()` creates. */
  function Empty<T>(): (p: Partition<T>)
    ensures p.Valid() && p.Universe() == {}
  {
    Partition(map[], 0)
  }

  /** Size of the largest subset among those of the elements of S. */
  ghost function LargestOver<T>(p: Partition<T>, S: set<T>): (n: nat)
    requires S != {} && S <= p.tag.Keys
    ensures forall z :: z in S ==> |p.Block(z)| <= n
    ensures exists z :: z in S && |p.Block(z)| == n
    decreases |S|
  {
    var z :| z in S;
    if S == {z} then |p.Block(z)|
    else
      var m := LargestOver(p, S - {z});
      if |p.Block(z)| >= m then |p.Block(z)| else m
  }

  /** Size of the largest subset: scipy's `max(len(s) for s in subsets())`. */
  ghost function Largest<T>(p: Partition<T>): nat
    requires p.tag != map[]
  {
    LargestOver(p, p.tag.Keys)
  }

  /** q keeps every element of p and every pair p connects. */
  ghost predicate Coarsens<T>(p: Partition<T>, q: Partition<T>) {
    p.Universe() <= q.Universe() &&
    forall z, w :: z in p.tag && w in p.tag && p.Connected(z, w) ==> q.Connected(z, w)
  }

  lemma CoarsensTransitive<T>(p: Partition<T>, q: Partition<T>, s: Partition<T>)
    requires Coarsens(p, q) && Coarsens(q, s)
    ensures Coarsens(p, s)
  {
  }

  lemma SubsetCard<T>(a: set<T>, b: set<T>)
    requires a <= b
    ensures |a| <= |b|
  {
    assert b == a + (b - a);
  }

  /** The largest subset never shrinks under a coarsening. */
  lemma CoarsensLargest<T>(p: Partition<T>, q: Partition<T>)
    requires Coarsens(p, q) && p.tag != map[]
    ensures q.tag != map[] && Largest(p) <= Largest(q)
  {
    var z :| z in p.tag.Keys && |p.Block(z)| == Largest(p);
    assert z in q.tag.Keys;
    assert p.Block(z) <= q.Block(z);
    SubsetCard(p.Block(z), q.Block(z));
  }

  /** Adding keeps the structure valid, coarsens it, and connects the new
      element only with itself. */
  lemma AddSpec<T>(p: Partition<T>, x: T)
    requires p.Valid()
    ensures p.Add(x).Valid()
    ensures Coarsens(p, p.Add(x))
    ensures forall z, w :: p.Add(x).Connected(z, w) <==> p.Connected(z, w) || (z == x && w == x)
  {
  }

  /** Merging keeps the structure valid and connects exactly the pairs
      drawn from the union of the two subsets. */
  lemma MergeSpec<T>(p: Partition<T>, x: T, y: T)
    requires p.Valid() && x in p.tag && y in p.tag
    ensures p.Merge(x, y).Valid()
    ensures Coarsens(p, p.Merge(x, y))
    ensures p.Merge(x, y).Connected(x, y)
    ensures forall z, w :: p.Merge(x, y).Connected(z, w) <==>
      p.Connected(z, w) || (p.Connected(z, x) && p.Connected(w, y)) || (p.Connected(z, y) && p.Connected(w, x))
  {
  }

  /** Adding never separates or drops anything, valid or not. */
  lemma AddCoarsens<T>(p: Partition<T>, x: T)
    ensures Coarsens(p, p.Add(x))
  {
  }

  /** Merging never separates or drops anything, and joins x and y. */
  lemma MergeCoarsens<T>(p: Partition<T>, x: T, y: T)
    requires x in p.tag && y in p.tag
    ensures Coarsens(p, p.Merge(x, y)) && p.Merge(x, y).Connected(x, y)
  {
  }

  /** Merging elements that are already connected changes nothing. */
  lemma MergeConnectedIsIdentity<T>(p: Partition<T>, x: T, y: T)
    requires p.Connected(x, y)
    ensures p.Merge(x, y) == p
  {
    var q := p.Merge(x, y);
    assert q.tag == p.tag;
  }
}
