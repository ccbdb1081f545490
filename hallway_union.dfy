/** The disjoint-set forest that tracks which grid points already belong to
    one connected region of the dungeon (HallwayUnion.java). */
module Union {
  import opened Geometry

  /** A parent map is well ranked when every parent is itself a key, and
      following a non-root parent pointer strictly raises a ghost rank that
      never exceeds `bound`. This is what makes the parent map acyclic. */
  ghost predicate Ranked(parent: map<Point, Point>, rank: map<Point, nat>, bound: nat)
  {
    && parent.Values <= parent.Keys
    && (forall p :: p in parent ==> p in rank && rank[p] <= bound)
    && (forall p {:trigger parent[p]} :: p in parent && parent[p] != p ==> rank[p] < rank[parent[p]])
  }

  /** The root reached from `p` by following parent pointers. */
  ghost function Root(parent: map<Point, Point>, rank: map<Point, nat>, bound: nat, p: Point): Point
    requires Ranked(parent, rank, bound) && p in parent
    decreases bound - rank[p]
  {
    if parent[p] == p then p else Root(parent, rank, bound, parent[p])
  }

  /** The representative of any point: a point not yet seen is its own. */
  ghost function Rep(parent: map<Point, Point>, rank: map<Point, nat>, bound: nat, p: Point): Point
    requires Ranked(parent, rank, bound)
  {
    if p in parent then Root(parent, rank, bound, p) else p
  }

  /** The root of `p` is a key that is its own parent, and it lies strictly
      above `p` in rank unless `p` is that root. */
  lemma {:induction false} RootIsRoot(parent: map<Point, Point>, rank: map<Point, nat>, bound: nat, p: Point)
    requires Ranked(parent, rank, bound) && p in parent
    ensures Root(parent, rank, bound, p) in parent
    ensures parent[Root(parent, rank, bound, p)] == Root(parent, rank, bound, p)
    ensures Root(parent, rank, bound, p) == p || rank[p] < rank[Root(parent, rank, bound, p)]
    ensures Root(parent, rank, bound, p) == p <==> parent[p] == p
    decreases bound - rank[p]
  {
    if parent[p] != p {
      RootIsRoot(parent, rank, bound, parent[p]);
    }
  }

  /** Path compression: pointing `p` straight at its root keeps the map well
      ranked and changes nobody's root. */
  lemma {:induction false} CompressKeepsRoots(parent: map<Point, Point>, rank: map<Point, nat>, bound: nat, p: Point, q: Point)
    requires Ranked(parent, rank, bound) && p in parent && q in parent
    ensures Ranked(parent[p := Root(parent, rank, bound, p)], rank, bound)
    ensures Root(parent[p := Root(parent, rank, bound, p)], rank, bound, q) == Root(parent, rank, bound, q)
    decreases bound - rank[q]
  {
    var r := Root(parent, rank, bound, p);
    var parent' := parent[p := r];
    RootIsRoot(parent, rank, bound, p);
    assert Ranked(parent', rank, bound);
    if q == p {
      if r != p {
        assert parent'[r] == r;
      }
    } else if parent[q] != q {
      CompressKeepsRoots(parent, rank, bound, p, parent[q]);
    }
  }

  /** The rank a root receives when another root is hung below it. */
  function LinkRank(rank: map<Point, nat>, r1: Point, r2: Point): (n: nat)
    requires r1 in rank && r2 in rank
    ensures n >= rank[r2] && n > rank[r1]
  {
    if rank[r2] > rank[r1] then rank[r2] else rank[r1] + 1
  }

  /** Linking root `r1` under root `r2` keeps the map well ranked once `r2`'s
      rank is raised, and sends exactly the points whose root was `r1` to `r2`. */
  lemma {:induction false} LinkMergesClasses(parent: map<Point, Point>, rank: map<Point, nat>, bound: nat,
                                             r1: Point, r2: Point, q: Point)
    requires Ranked(parent, rank, bound)
    requires r1 in parent && parent[r1] == r1 && r2 in parent && parent[r2] == r2 && r1 != r2
    requires q in parent
    ensures var bound' := if LinkRank(rank, r1, r2) > bound then LinkRank(rank, r1, r2) else bound;
            && Ranked(parent[r1 := r2], rank[r2 := LinkRank(rank, r1, r2)], bound')
            && Root(parent[r1 := r2], rank[r2 := LinkRank(rank, r1, r2)], bound', q)
               == if Root(parent, rank, bound, q) == r1 then r2 else Root(parent, rank, bound, q)
    decreases bound - rank[q]
  {
    var n := LinkRank(rank, r1, r2);
    var bound' := if n > bound then n else bound;
    var parent', rank' := parent[r1 := r2], rank[r2 := n];
    assert Ranked(parent', rank', bound');
    if q == r1 {
      assert parent'[r2] == r2;
    } else if parent[q] != q {
      LinkMergesClasses(parent, rank, bound, r1, r2, parent[q]);
    }
  }

  /** The union-find structure itself: a parent map updated in place. */
  class HallwayUnion {
    var parent: map<Point, Point>
    ghost var rank: map<Point, nat>
    ghost var bound: nat

    ghost predicate Valid()
      reads this
    {
      Ranked(parent, rank, bound)
    }

    /** The representative of `p` in the current state. */
    ghost function RepOf(p: Point): Point
      reads this
      requires Valid()
    {
      Rep(parent, rank, bound, p)
    }

    /** A representative is its own representative, so finding twice
        finds the same root. */
    lemma RepIdempotent(p: Point)
      requires Valid()
      ensures RepOf(RepOf(p)) == RepOf(p)
    {
      if p in parent {
        RootIsRoot(parent, rank, bound, p);
      }
    }

    constructor ()
      ensures Valid() && parent == map[]
    {
      parent := map[];
      rank := map[];
      bound := 0;
    }

    /** Finds the root of `p`, inserting `p` as its own parent when unseen and
        pointing `p` straight at the root afterwards. */
    method Find(p: Point) returns (r: Point)
      requires Valid()
      modifies this
      ensures Valid()
      ensures parent.Keys == old(parent.Keys) + {p}
      ensures p !in old(parent) ==> r == p && parent == old(parent)[p := p]
      ensures r == old(RepOf(p))
      ensures parent[p] == r && r in parent && parent[r] == r
      ensures forall q :: RepOf(q) == old(RepOf(q))
      decreases bound - (if p in parent then rank[p] else 0)
    {
      if p !in parent {
        parent := parent[p := p];
        rank := rank[p := 0];
        forall q ensures RepOf(q) == old(RepOf(q)) {
          if q in old(parent) { RootUnchangedByInsert(old(parent), old(rank), bound, p, q); }
        }
      }
      if parent[p] != p {
        RootIsRoot(parent, rank, bound, p);
        ghost var parent0, rank0, bound0 := parent, rank, bound;
        assert RepOf(p) == RepOf(parent[p]);
        var root := Find(parent[p]);
        assert root == Rep(parent0, rank0, bound0, p);
        assert RepOf(p) == root;
        ghost var parent1, rank1, bound1 := parent, rank, bound;
        RootIsRoot(parent1, rank1, bound1, p);
        parent := parent[p := root];
        forall q ensures RepOf(q) == Rep(parent1, rank1, bound1, q) {
          if q in parent1 { CompressKeepsRoots(parent1, rank1, bound1, p, q); }
        }
        RootIsRoot(parent, rank, bound, p);
      }
      r := parent[p];
    }

    /** Merges the classes of `p1` and `p2` by hanging the first root under
        the second; points of every other class keep their representative. */
    method Union(p1: Point, p2: Point)
      requires Valid()
      modifies this
      ensures Valid()
      ensures parent.Keys == old(parent.Keys) + {p1, p2}
      ensures forall q :: RepOf(q) == if old(RepOf(q)) == old(RepOf(p1)) then old(RepOf(p2)) else old(RepOf(q))
      ensures RepOf(p1) == RepOf(p2)
      ensures old(RepOf(p1)) == old(RepOf(p2)) ==> forall q :: RepOf(q) == old(RepOf(q))
      ensures forall a, b :: RepOf(a) == RepOf(b) <==>
                || old(RepOf(a)) == old(RepOf(b))
                || (old(RepOf(a)) == old(RepOf(p1)) && old(RepOf(b)) == old(RepOf(p2)))
                || (old(RepOf(a)) == old(RepOf(p2)) && old(RepOf(b)) == old(RepOf(p1)))
    {
      var root1 := Find(p1);
      assert RepOf(root1) == root1;
      var root2 := Find(p2);
      assert parent.Keys == old(parent.Keys) + {p1, p2};
      label Found:
      RootIsRoot(parent, rank, bound, root1);
      if root1 != root2 {
        Link(root1, root2);
      }
      forall q ensures RepOf(q) == if old(RepOf(q)) == old(RepOf(p1)) then old(RepOf(p2)) else old(RepOf(q)) {
        assert old@Found(RepOf(q)) == old(RepOf(q));
      }
    }

    /** Hangs root `r1` directly under root `r2` (the re-parenting step of union). */
    method Link(r1: Point, r2: Point)
      requires Valid()
      requires r1 in parent && parent[r1] == r1 && r2 in parent && parent[r2] == r2 && r1 != r2
      modifies this
      ensures Valid()
      ensures parent == old(parent)[r1 := r2] && parent.Keys == old(parent.Keys)
      ensures forall q :: RepOf(q) == if old(RepOf(q)) == r1 then r2 else old(RepOf(q))
    {
      ghost var parent0, rank0, bound0 := parent, rank, bound;
      var n := LinkRank(rank, r1, r2);
      parent := parent[r1 := r2];
      rank := rank[r2 := n];
      bound := if n > bound then n else bound;
      forall q ensures RepOf(q) == if Rep(parent0, rank0, bound0, q) == r1 then r2 else Rep(parent0, rank0, bound0, q) {
        if q in parent0 {
          LinkMergesClasses(parent0, rank0, bound0, r1, r2, q);
        }
      }
    }

    /** Whether `p1` and `p2` share a representative; compresses both paths. */
    method Connected(p1: Point, p2: Point) returns (b: bool)
      requires Valid()
      modifies this
      ensures Valid()
      ensures parent.Keys == old(parent.Keys) + {p1, p2}
      ensures b <==> old(RepOf(p1)) == old(RepOf(p2))
      ensures forall q :: RepOf(q) == old(RepOf(q))
    {
      var r1 := Find(p1);
      var r2 := Find(p2);
      b := r1 == r2;
    }
  }

  /** Adding a fresh self-parented key leaves every existing root alone. */
  lemma {:induction false} RootUnchangedByInsert(parent: map<Point, Point>, rank: map<Point, nat>, bound: nat, p: Point, q: Point)
    requires Ranked(parent, rank, bound) && p !in parent && q in parent
    ensures Ranked(parent[p := p], rank[p := 0], bound)
    ensures Root(parent[p := p], rank[p := 0], bound, q) == Root(parent, rank, bound, q)
    decreases bound - rank[q]
  {
    assert Ranked(parent[p := p], rank[p := 0], bound);
    if parent[q] != q {
      RootUnchangedByInsert(parent, rank, bound, p, parent[q]);
    }
  }
}
