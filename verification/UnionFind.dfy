/** The union-find forest that clustering keeps in a map from IDs to parent IDs. */
module UnionFind {
  /** The parent of `x` does not exceed it, and `x` has the root of its parent. */
  ghost predicate NodeFits(parent: map<nat, nat>, roots: map<nat, nat>, x: nat)
    requires x in parent && roots.Keys == parent.Keys
  {
    && parent[x] in parent && parent[x] <= x
    && roots[x] in parent && parent[roots[x]] == roots[x] && roots[x] <= x
    && roots[x] == roots[parent[x]]
    && (parent[x] == x ==> roots[x] == x)
  }

  /** `parent` is a forest on a fixed key set in which no parent exceeds its child, and `roots`
      gives every key the root above it. */
  ghost predicate IsForest(parent: map<nat, nat>, roots: map<nat, nat>) {
    && roots.Keys == parent.Keys
    && forall x {:trigger NodeFits(parent, roots, x)} :: x in parent ==> NodeFits(parent, roots, x)
  }

  function Smaller(a: nat, b: nat): nat {
    if a < b then a else b
  }

  /** The root map after the classes of `a` and `b` became one, under the smaller root. */
  ghost function Merged(roots: map<nat, nat>, a: nat, b: nat): map<nat, nat>
    requires a in roots && b in roots
  {
    map x | x in roots ::
      if roots[x] == roots[a] || roots[x] == roots[b] then Smaller(roots[a], roots[b]) else roots[x]
  }

  /** The root map is determined by the parents: it is what following them upwards reaches. */
  lemma {:induction false} RootsAreDetermined(parent: map<nat, nat>, roots: map<nat, nat>, others: map<nat, nat>,
                                              x: nat)
    requires IsForest(parent, roots) && IsForest(parent, others)
    requires x in parent
    ensures roots[x] == others[x]
    decreases x
  {
    assert NodeFits(parent, roots, x) && NodeFits(parent, others, x);
    if parent[x] != x {
      RootsAreDetermined(parent, roots, others, parent[x]);
    }
  }

  lemma CompressionKeepsRoots(parent: map<nat, nat>, roots: map<nat, nat>, x: nat)
    requires IsForest(parent, roots) && x in parent
    ensures roots[x] in parent && IsForest(parent[x := roots[x]], roots)
  {
    assert NodeFits(parent, roots, x) && NodeFits(parent, roots, roots[x]);
    var after := parent[x := roots[x]];
    forall y | y in after
      ensures NodeFits(after, roots, y)
    {
      assert NodeFits(parent, roots, y);
    }
  }

  lemma MergedSymmetric(roots: map<nat, nat>, a: nat, b: nat)
    requires a in roots && b in roots
    ensures Merged(roots, a, b) == Merged(roots, b, a)
    ensures roots[a] == roots[b] ==> Merged(roots, a, b) == roots
  {
  }

  lemma LinkMergesClasses(parent: map<nat, nat>, roots: map<nat, nat>, a: nat, b: nat)
    requires IsForest(parent, roots) && a in parent && b in parent
    requires roots[a] < roots[b]
    ensures roots[b] in parent && IsForest(parent[roots[b] := roots[a]], Merged(roots, a, b))
  {
    assert NodeFits(parent, roots, a) && NodeFits(parent, roots, b);
    var after, merged := parent[roots[b] := roots[a]], Merged(roots, a, b);
    assert NodeFits(parent, roots, roots[a]) && NodeFits(parent, roots, roots[b]);
    forall x | x in after
      ensures NodeFits(after, merged, x)
    {
      assert NodeFits(parent, roots, x) && NodeFits(parent, roots, roots[x]);
    }
  }

  class Forest {
    var parent: map<nat, nat>
    ghost var roots: map<nat, nat>

    ghost predicate Valid()
      reads this
    {
      IsForest(parent, roots)
    }

    /** Every key starts as its own root. */
    constructor (keys: seq<nat>)
      ensures Valid()
      ensures roots == map x | x in keys :: x
    {
      parent := map x | x in keys :: x;
      roots := map x | x in keys :: x;
      new;
      assert forall x :: x in parent ==> NodeFits(parent, roots, x);
    }

    /** Returns the root of `x`, compressing the path it walked; no key's root changes. */
    method Find(x: nat) returns (r: nat)
      requires Valid() && x in roots
      modifies this
      ensures Valid() && roots == old(roots)
      ensures r == roots[x]
      decreases x
    {
      assert NodeFits(parent, roots, x);
      if parent[x] != x {
        r := Find(parent[x]);
        CompressionKeepsRoots(parent, roots, x);
        parent := parent[x := r];
      }
      return parent[x];
    }

    /** Merges two classes; the smaller of the two roots becomes the root of both. */
    method Union(a: nat, b: nat)
      requires Valid() && a in roots && b in roots
      modifies this
      ensures Valid() && roots == Merged(old(roots), a, b)
    {
      var ra := Find(a);
      var rb := Find(b);
      MergedSymmetric(roots, a, b);
      if ra == rb {
        return;
      }
      if ra < rb {
        LinkMergesClasses(parent, roots, a, b);
        roots := Merged(roots, a, b);
        parent := parent[rb := ra];
      } else {
        LinkMergesClasses(parent, roots, b, a);
        roots := Merged(roots, a, b);
        parent := parent[ra := rb];
      }
    }
  }
}
