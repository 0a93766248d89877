/** Finite symmetric graphs over natural numbers, and the classes of their connectedness. */
module Graph {
  import Sorting

  type Edges = set<(nat, nat)>

  ghost predicate Symmetric(edges: Edges) {
    forall a, b :: (a, b) in edges ==> (b, a) in edges
  }

  ghost predicate IsPath(edges: Edges, p: seq<nat>) {
    && p != []
    && forall i :: 0 <= i < |p| - 1 ==> (p[i], p[i + 1]) in edges
  }

  ghost predicate Joins(edges: Edges, p: seq<nat>, a: nat, b: nat) {
    IsPath(edges, p) && p[0] == a && p[|p| - 1] == b
  }

  ghost predicate Connected(edges: Edges, a: nat, b: nat) {
    exists p :: Joins(edges, p, a, b)
  }

  // ---------- Connectedness is an equivalence ----------

  lemma ConnectedRefl(edges: Edges, a: nat)
    ensures Connected(edges, a, a)
  {
    assert Joins(edges, [a], a, a);
  }

  lemma ConnectedStep(edges: Edges, a: nat, b: nat)
    requires (a, b) in edges
    ensures Connected(edges, a, b)
  {
    assert Joins(edges, [a, b], a, b);
  }

  lemma ConnectedTrans(edges: Edges, a: nat, b: nat, c: nat)
    requires Connected(edges, a, b) && Connected(edges, b, c)
    ensures Connected(edges, a, c)
  {
    var p :| Joins(edges, p, a, b);
    var q :| Joins(edges, q, b, c);
    assert Joins(edges, p + q[1..], a, c) by {
      var r := p + q[1..];
      forall i | 0 <= i < |r| - 1
        ensures (r[i], r[i + 1]) in edges
      {
        if i < |p| - 1 {
          assert (p[i], p[i + 1]) in edges;
        } else {
          assert (q[i - |p| + 1], q[i - |p| + 2]) in edges;
        }
      }
    }
  }

  lemma {:induction false} ReversedPath(edges: Edges, p: seq<nat>, a: nat, b: nat)
    requires Symmetric(edges)
    requires Joins(edges, p, a, b)
    ensures Connected(edges, b, a)
    decreases |p|
  {
    if |p| == 1 {
      ConnectedRefl(edges, a);
    } else {
      assert (p[0], p[1]) in edges;
      assert Joins(edges, p[1..], p[1], b) by {
        forall i | 0 <= i < |p| - 2
          ensures (p[1..][i], p[1..][i + 1]) in edges
        {
          assert (p[i + 1], p[i + 2]) in edges;
        }
      }
      ReversedPath(edges, p[1..], p[1], b);
      ConnectedStep(edges, p[1], a);
      ConnectedTrans(edges, b, p[1], a);
    }
  }

  lemma ConnectedSym(edges: Edges, a: nat, b: nat)
    requires Symmetric(edges)
    ensures Connected(edges, a, b) <==> Connected(edges, b, a)
  {
    if Connected(edges, a, b) {
      var p :| Joins(edges, p, a, b);
      ReversedPath(edges, p, a, b);
    }
    if Connected(edges, b, a) {
      var p :| Joins(edges, p, b, a);
      ReversedPath(edges, p, b, a);
    }
  }

  // ---------- Connectedness in related graphs ----------

  /** If a marking agrees on the two ends of every edge, it is constant on every component. */
  lemma {:induction false} PathKeepsLabel(edges: Edges, mark: map<nat, nat>, p: seq<nat>)
    requires forall a, b :: (a, b) in edges ==> a in mark && b in mark && mark[a] == mark[b]
    requires IsPath(edges, p) && p[0] in mark
    ensures p[|p| - 1] in mark && mark[p[0]] == mark[p[|p| - 1]]
    decreases |p|
  {
    if |p| > 1 {
      var q := p[..|p| - 1];
      assert forall i :: 0 <= i < |q| ==> q[i] == p[i];
      PathKeepsLabel(edges, mark, q);
      assert (p[|p| - 2], p[|p| - 1]) in edges;
    }
  }

  /** A marking that is constant along edges, and whose mark is itself connected to what it
      marks, tells exactly which vertices are connected. */
  lemma LabelsAreComponents(edges: Edges, mark: map<nat, nat>, a: nat, b: nat)
    requires Symmetric(edges)
    requires a in mark && b in mark
    requires forall x, y :: (x, y) in edges ==> x in mark && y in mark && mark[x] == mark[y]
    requires forall x :: x in mark ==> Connected(edges, x, mark[x])
    ensures mark[a] == mark[b] <==> Connected(edges, a, b)
  {
    if Connected(edges, a, b) {
      var p :| Joins(edges, p, a, b);
      PathKeepsLabel(edges, mark, p);
    }
    if mark[a] == mark[b] {
      ConnectedSym(edges, b, mark[b]);
      ConnectedTrans(edges, a, mark[a], b);
    }
  }

  lemma ConnectedMonotone(small: Edges, large: Edges, a: nat, b: nat)
    requires small <= large
    requires Connected(small, a, b)
    ensures Connected(large, a, b)
  {
    var p :| Joins(small, p, a, b);
    assert Joins(large, p, a, b) by {
      forall i | 0 <= i < |p| - 1
        ensures (p[i], p[i + 1]) in large
      {
        assert (p[i], p[i + 1]) in small;
      }
    }
  }

  /** If the ends of every edge of the one graph are connected in the other, so are any two vertices
      that are connected in the one. */
  lemma ConnectedWithin(edges: Edges, coarse: Edges, a: nat, b: nat)
    requires forall x, y :: (x, y) in edges ==> Connected(coarse, x, y)
    requires Connected(edges, a, b)
    ensures Connected(coarse, a, b)
  {
    var p :| Joins(edges, p, a, b);
    PathWithin(edges, coarse, p);
  }

  lemma {:induction false} PathWithin(edges: Edges, coarse: Edges, p: seq<nat>)
    requires forall x, y :: (x, y) in edges ==> Connected(coarse, x, y)
    requires IsPath(edges, p)
    ensures Connected(coarse, p[0], p[|p| - 1])
    decreases |p|
  {
    if |p| == 1 {
      ConnectedRefl(coarse, p[0]);
    } else {
      var q := p[..|p| - 1];
      assert forall i :: 0 <= i < |q| ==> q[i] == p[i];
      PathWithin(edges, coarse, q);
      assert (p[|p| - 2], p[|p| - 1]) in edges;
      ConnectedTrans(coarse, p[0], p[|p| - 2], p[|p| - 1]);
    }
  }

  /** A path that starts outside a set that no edge enters from outside uses only the edges that
      avoid the set. */
  lemma {:induction false} PathStaysOutside(edges: Edges, rest: Edges, closed: iset<nat>, p: seq<nat>)
    requires forall a, b :: (a, b) in edges && a !in closed ==> b !in closed && (a, b) in rest
    requires IsPath(edges, p) && p[0] !in closed
    ensures IsPath(rest, p) && p[|p| - 1] !in closed
    decreases |p|
  {
    if |p| > 1 {
      var q := p[..|p| - 1];
      assert forall i :: 0 <= i < |q| ==> q[i] == p[i];
      PathStaysOutside(edges, rest, closed, q);
      assert (p[|p| - 2], p[|p| - 1]) in edges;
      forall i | 0 <= i < |p| - 1
        ensures (p[i], p[i + 1]) in rest
      {
        if i < |p| - 2 {
          assert (q[i], q[i + 1]) in rest;
        }
      }
    }
  }

  // ---------- Paths without repetition ----------

  /** Two connected vertices are joined by a path that visits no vertex twice. */
  lemma {:induction false} Shorten(edges: Edges, p: seq<nat>, a: nat, b: nat) returns (q: seq<nat>)
    requires Joins(edges, p, a, b)
    ensures Joins(edges, q, a, b) && Sorting.NoRepeats(q)
    decreases |p|
  {
    if Sorting.NoRepeats(p) {
      q := p;
    } else {
      var i, j :| 0 <= i < j < |p| && p[i] == p[j];
      var r := p[..i] + p[j..];
      forall k | 0 <= k < |r| - 1
        ensures (r[k], r[k + 1]) in edges
      {
        if k < i {
          assert (p[k], p[k + 1]) in edges;
        } else {
          assert (p[k - i + j], p[k - i + j + 1]) in edges;
        }
      }
      q := Shorten(edges, r, a, b);
    }
  }

  lemma {:induction false} NoRepeatsFits(p: seq<nat>, vertices: set<nat>)
    requires Sorting.NoRepeats(p)
    requires forall i :: 0 <= i < |p| ==> p[i] in vertices
    ensures |p| <= |vertices|
    decreases |p|
  {
    if p != [] {
      NoRepeatsFits(p[1..], vertices - {p[0]});
    }
  }
}
