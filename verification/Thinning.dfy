/** What becomes of the clusters when photos of one component drop out of the pool. */
module Thinning {
  import opened Photos
  import opened Graph
  import opened Sorting
  import opened Dupes
  import opened DupesLaws

  // ---------- Taking photos out of one component ----------

  /** `c` is a component of the graph on the first pool.  The second pool differs from the first only
      in missing some photos of that component, and its graph only in links among photos that were
      connected already. */
  ghost predicate Thinned(pool: set<Photo>, other: set<Photo>, links: Edges, rest: Edges, c: PhotoId) {
    && UniqueIds(pool) && UniqueIds(other) && Symmetric(links) && Symmetric(rest)
    && Faces(other) <= Faces(pool)
    && (forall p :: p in pool && !Connected(links, c, p.id) ==> FaceOf(p) in Faces(other))
    && (forall a, b :: (a, b) in rest ==> Connected(links, a, b))
    && (forall a, b :: (a, b) in links && !Connected(links, c, a) ==> (a, b) in rest)
  }

  lemma FaceIn(pool: set<Photo>, f: Face) returns (p: Photo)
    requires f in Faces(pool)
    ensures p in pool && FaceOf(p) == f
  {
    p :| p in pool && FaceOf(p) == f;
  }

  /** Outside the component, connected photos stay connected. */
  lemma ConnectedOutsideRemain(pool: set<Photo>, other: set<Photo>, links: Edges, rest: Edges, c: PhotoId, a: PhotoId,
                               b: PhotoId)
    requires Thinned(pool, other, links, rest, c)
    requires !Connected(links, c, a) && Connected(links, a, b)
    ensures Connected(rest, a, b)
  {
    var inside := iset x: nat | Connected(links, c, x);
    forall x, y | (x, y) in links && x !in inside
      ensures y !in inside && (x, y) in rest
    {
      if Connected(links, c, y) {
        ConnectedStep(links, y, x);
        ConnectedTrans(links, c, y, x);
      }
    }
    var p :| Joins(links, p, a, b);
    PathStaysOutside(links, rest, inside, p);
    assert Joins(rest, p, a, b);
  }

  // ---------- The clusters of the thinned pool ----------

  /** What the two clusterings have in common with their graphs. */
  ghost predicate Situation(pool: set<Photo>, other: set<Photo>, links: Edges, rest: Edges, c: PhotoId,
                            out: seq<Cluster>, out': seq<Cluster>) {
    && Thinned(pool, other, links, rest, c)
    && IsClustering(pool, links, out)
    && IsClustering(other, rest, out')
  }

  /** The members of a cluster outside the component are connected to its ID in both graphs alike. */
  lemma SurvivingMember(pool: set<Photo>, other: set<Photo>, links: Edges, rest: Edges, c: PhotoId, d: Cluster,
                        p: Photo)
    returns (p': Photo)
    requires Thinned(pool, other, links, rest, c)
    requires IsCluster(pool, links, d) && !Connected(links, c, d.id)
    requires p in d.photos
    ensures p' in other && FaceOf(p') == FaceOf(p) && Connected(rest, d.id, p.id)
  {
    if Connected(links, c, p.id) {
      ConnectedSym(links, d.id, p.id);
      ConnectedTrans(links, c, p.id, d.id);
    }
    p' := FaceIn(other, FaceOf(p));
    ConnectedOutsideRemain(pool, other, links, rest, c, d.id, p.id);
  }

  /** A cluster of the thinned pool that is connected to a cluster outside the component is that
      cluster. */
  lemma SurvivorMatches(pool: set<Photo>, other: set<Photo>, links: Edges, rest: Edges, c: PhotoId, d: Cluster,
                        d': Cluster)
    requires Thinned(pool, other, links, rest, c)
    requires IsCluster(pool, links, d) && IsCluster(other, rest, d')
    requires !Connected(links, c, d.id)
    requires Connected(rest, d'.id, d.id)
    ensures d'.id == d.id && PhotoKeys(d'.photos) == PhotoKeys(d.photos)
  {
    SurvivorHasAll(pool, other, links, rest, c, d, d');
    SurvivorHasNoMore(pool, other, links, rest, c, d, d');
    StrictlySortedUnique(PhotoKeys(d.photos), PhotoKeys(d'.photos));
  }

  /** A member of the old cluster has a counterpart among those of the thinned pool's cluster. */
  lemma NewMember(pool: set<Photo>, other: set<Photo>, links: Edges, rest: Edges, c: PhotoId, d: Cluster, d': Cluster,
                  p: Photo)
    returns (p': Photo)
    requires Thinned(pool, other, links, rest, c)
    requires IsCluster(pool, links, d) && IsCluster(other, rest, d')
    requires !Connected(links, c, d.id)
    requires Connected(rest, d'.id, d.id) && p in d.photos
    ensures p' in d'.photos && FaceOf(p') == FaceOf(p)
  {
    p' := SurvivingMember(pool, other, links, rest, c, d, p);
    ConnectedTrans(rest, d'.id, d.id, p.id);
  }

  lemma SurvivorHasAll(pool: set<Photo>, other: set<Photo>, links: Edges, rest: Edges, c: PhotoId, d: Cluster,
                       d': Cluster)
    requires Thinned(pool, other, links, rest, c)
    requires IsCluster(pool, links, d) && IsCluster(other, rest, d')
    requires !Connected(links, c, d.id)
    requires Connected(rest, d'.id, d.id)
    ensures d'.id <= d.id && forall k :: k in PhotoKeys(d.photos) ==> k in PhotoKeys(d'.photos)
  {
    var least := ClusterIdIsSmallest(pool, links, d);
    var least' := NewMember(pool, other, links, rest, c, d, d', least);
    assert d'.id <= least'.id;
    forall k | k in PhotoKeys(d.photos)
      ensures k in PhotoKeys(d'.photos)
    {
      var p := MemberWithKey(d, k);
      var p' := NewMember(pool, other, links, rest, c, d, d', p);
      KeyOfMember(d', p');
    }
  }

  lemma MemberWithKey(c: Cluster, k: Key) returns (p: Photo)
    requires k in PhotoKeys(c.photos)
    ensures p in c.photos && PhotoKey(p) == k
  {
    var i :| 0 <= i < |c.photos| && PhotoKeys(c.photos)[i] == k;
    p := c.photos[i];
  }

  lemma KeyOfMember(c: Cluster, p: Photo)
    requires p in c.photos
    ensures PhotoKey(p) in PhotoKeys(c.photos)
  {
    var i :| 0 <= i < |c.photos| && c.photos[i] == p;
    assert PhotoKeys(c.photos)[i] == PhotoKey(p);
  }

  /** A member of the thinned pool's cluster has a counterpart among the members of the old one. */
  lemma OldMember(pool: set<Photo>, other: set<Photo>, links: Edges, rest: Edges, c: PhotoId, d: Cluster, d': Cluster,
                  p': Photo)
    returns (p: Photo)
    requires Thinned(pool, other, links, rest, c)
    requires IsCluster(pool, links, d) && IsCluster(other, rest, d')
    requires Connected(links, d.id, d'.id) && p' in d'.photos
    ensures p in d.photos && FaceOf(p) == FaceOf(p')
  {
    assert p' in other && FaceOf(p') in Faces(other);
    p := FaceIn(pool, FaceOf(p'));
    ConnectedWithin(rest, links, d'.id, p.id);
    ConnectedTrans(links, d.id, d'.id, p.id);
  }

  lemma SurvivorHasNoMore(pool: set<Photo>, other: set<Photo>, links: Edges, rest: Edges, c: PhotoId, d: Cluster,
                          d': Cluster)
    requires Thinned(pool, other, links, rest, c)
    requires IsCluster(pool, links, d) && IsCluster(other, rest, d')
    requires Connected(rest, d'.id, d.id)
    ensures d.id <= d'.id && forall k :: k in PhotoKeys(d'.photos) ==> k in PhotoKeys(d.photos)
  {
    ConnectedWithin(rest, links, d'.id, d.id);
    ConnectedSym(links, d'.id, d.id);
    var least' := ClusterIdIsSmallest(other, rest, d');
    var least := OldMember(pool, other, links, rest, c, d, d', least');
    assert least.id == FaceOf(least).id == least'.id;
    forall k | k in PhotoKeys(d'.photos)
      ensures k in PhotoKeys(d.photos)
    {
      var p' := MemberWithKey(d', k);
      var q := OldMember(pool, other, links, rest, c, d, d', p');
      KeyOfMember(d, q);
    }
  }

  /** Two different members of a cluster, connected to each other. */
  lemma TwoMembers(pool: set<Photo>, links: Edges, d: Cluster) returns (p: Photo, q: Photo)
    requires UniqueIds(pool) && Symmetric(links) && IsCluster(pool, links, d)
    ensures p in d.photos && q in d.photos && p != q && Connected(links, p.id, q.id)
  {
    p, q := d.photos[0], d.photos[1];
    assert p in d.photos && q in d.photos && Less(PhotoKeys(d.photos)[0], PhotoKeys(d.photos)[1]);
    ConnectedSym(links, d.id, p.id);
    ConnectedTrans(links, p.id, d.id, q.id);
  }

  /** Every cluster outside the component is still there, unchanged. */
  lemma OtherClusterSurvives(pool: set<Photo>, other: set<Photo>, links: Edges, rest: Edges, c: PhotoId,
                             out: seq<Cluster>, out': seq<Cluster>, d: Cluster) returns (d': Cluster)
    requires Situation(pool, other, links, rest, c, out, out')
    requires d in out && !Connected(links, c, d.id)
    ensures d' in out' && d'.id == d.id && PhotoKeys(d'.photos) == PhotoKeys(d.photos)
  {
    assert IsCluster(pool, links, d);
    var p, q := TwoMembers(pool, links, d);
    var p' := SurvivingMember(pool, other, links, rest, c, d, p);
    var q' := SurvivingMember(pool, other, links, rest, c, d, q);
    ConnectedSym(rest, d.id, p.id);
    ConnectedTrans(rest, p.id, d.id, q.id);
    d' := ClusterOf(other, rest, out', p', q');
    ConnectedTrans(rest, d'.id, p.id, d.id);
    SurvivorMatches(pool, other, links, rest, c, d, d');
  }

  /** Every cluster of the thinned pool either lies inside the component, or is one of the others. */
  lemma NewClusterIsInsideOrOld(pool: set<Photo>, other: set<Photo>, links: Edges, rest: Edges, c: PhotoId,
                                out: seq<Cluster>, out': seq<Cluster>, d': Cluster) returns (d: Cluster)
    requires Situation(pool, other, links, rest, c, out, out') && d' in out'
    ensures (forall p :: p in d'.photos ==> Connected(links, c, p.id)) ||
            (d in out && !Connected(links, c, d.id) && d'.id == d.id && PhotoKeys(d'.photos) == PhotoKeys(d.photos))
  {
    assert IsCluster(other, rest, d');
    var p', q' := TwoMembers(other, rest, d');
    assert FaceOf(p') in Faces(other) && FaceOf(q') in Faces(other);
    var p := FaceIn(pool, FaceOf(p'));
    var q := FaceIn(pool, FaceOf(q'));
    ConnectedWithin(rest, links, p.id, q.id);
    d := ClusterOf(pool, links, out, p, q);
    if Connected(links, c, d.id) {
      ConnectedTrans(links, c, d.id, p.id);
      InsideStaysInside(links, rest, c, d', p');
    } else {
      var p'' := SurvivingMember(pool, other, links, rest, c, d, p);
      ConnectedSym(rest, d.id, p.id);
      ConnectedTrans(rest, d'.id, p.id, d.id);
      SurvivorMatches(pool, other, links, rest, c, d, d');
    }
  }

  lemma InsideStaysInside(links: Edges, rest: Edges, c: PhotoId, d': Cluster, p': Photo)
    requires Symmetric(rest) && forall a, b :: (a, b) in rest ==> Connected(links, a, b)
    requires forall r :: r in d'.photos ==> Connected(rest, d'.id, r.id)
    requires p' in d'.photos && Connected(links, c, p'.id)
    ensures forall r :: r in d'.photos ==> Connected(links, c, r.id)
  {
    ConnectedSym(rest, d'.id, p'.id);
    ConnectedWithin(rest, links, p'.id, d'.id);
    ConnectedTrans(links, c, p'.id, d'.id);
    forall r | r in d'.photos
      ensures Connected(links, c, r.id)
    {
      ConnectedWithin(rest, links, d'.id, r.id);
      ConnectedTrans(links, c, d'.id, r.id);
    }
  }
}
