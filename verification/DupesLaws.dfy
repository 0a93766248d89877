/** What the clustering result depends on, and what can be read off it. */
module DupesLaws {
  import opened Photos
  import opened Graph
  import opened Sorting
  import opened Dupes
  import DHash

  // ---------- The result is determined by the faces of the eligible photos ----------

  /** What clustering looks at. */
  datatype Face = Face(id: PhotoId, sizeBytes: int, time: Time, hash: DHash.Hash)

  function FaceOf(p: Photo): Face {
    Face(p.id, p.sizeBytes, p.time, HashOf(p))
  }

  ghost function Faces(pool: set<Photo>): set<Face> {
    set p | p in pool :: FaceOf(p)
  }

  /** Every photo of the one pool has a counterpart in the other. */
  lemma Counterpart(pool: set<Photo>, other: set<Photo>, p: Photo) returns (q: Photo)
    requires Faces(pool) == Faces(other) && p in pool
    ensures q in other && FaceOf(q) == FaceOf(p)
  {
    assert FaceOf(p) in Faces(other);
    q :| q in other && FaceOf(q) == FaceOf(p);
  }

  lemma CutByFaces(pool: set<Photo>, other: set<Photo>, window: Time, p: Photo, q: Photo, p': Photo, q': Photo)
    requires Faces(pool) == Faces(other) && FaceOf(p) == FaceOf(p') && FaceOf(q) == FaceOf(q')
    ensures Cut(pool, window, p, q) ==> Cut(other, window, p', q')
  {
    if Cut(pool, window, p, q) {
      var k :| k in pool && k.time < 0 && k.time - p.time > window;
      var k' := Counterpart(pool, other, k);
    }
  }

  lemma LinkedByFaces(pool: set<Photo>, other: set<Photo>, threshold: int, window: Time, p: Photo, q: Photo, p': Photo,
                      q': Photo)
    requires Faces(pool) == Faces(other)
    requires FaceOf(p) == FaceOf(p') && FaceOf(q) == FaceOf(q') && (p != q ==> p' != q')
    requires Linked(pool, threshold, window, p, q)
    ensures Linked(other, threshold, window, p', q')
  {
    CutByFaces(other, pool, window, p', q', p, q);
    CutByFaces(other, pool, window, q', p', q, p);
  }

  lemma LinksByFaces(pool: set<Photo>, other: set<Photo>, threshold: int, window: Time)
    requires Faces(pool) == Faces(other) && UniqueIds(pool) && UniqueIds(other)
    ensures Links(pool, threshold, window) <= Links(other, threshold, window)
  {
    forall a, b | (a, b) in Links(pool, threshold, window)
      ensures (a, b) in Links(other, threshold, window)
    {
      var p, q :| p in pool && q in pool && Linked(pool, threshold, window, p, q) && (p.id, q.id) == (a, b);
      var p' := Counterpart(pool, other, p);
      var q' := Counterpart(pool, other, q);
      LinkedByFaces(pool, other, threshold, window, p, q, p', q');
    }
  }

  function Ids(s: seq<Photo>): seq<PhotoId> {
    seq(|s|, i requires 0 <= i < |s| => s[i].id)
  }

  /** Two results show the same clusters with the same members, in the same order. */
  ghost predicate SameClusters(out: seq<Cluster>, other: seq<Cluster>) {
    && |out| == |other|
    && forall i :: 0 <= i < |out| ==> out[i].id == other[i].id && Ids(out[i].photos) == Ids(other[i].photos)
  }

  lemma ClusterIdIsSmallest(pool: set<Photo>, links: Edges, c: Cluster) returns (p: Photo)
    requires IsCluster(pool, links, c)
    ensures p in c.photos && p.id == c.id && p in pool
  {
    p :| p in c.photos && p.id == c.id;
  }

  /** Clusters of two pools with the same faces whose IDs are connected have the same ID and the
      same photo keys. */
  lemma ConnectedClustersMatch(pool: set<Photo>, other: set<Photo>, links: Edges, c: Cluster, d: Cluster)
    requires Faces(pool) == Faces(other) && Symmetric(links)
    requires IsCluster(pool, links, c) && IsCluster(other, links, d) && Connected(links, c.id, d.id)
    ensures c.id == d.id && PhotoKeys(c.photos) == PhotoKeys(d.photos)
  {
    ConnectedSym(links, c.id, d.id);
    KeysIncluded(pool, other, links, c, d);
    KeysIncluded(other, pool, links, d, c);
    StrictlySortedUnique(PhotoKeys(c.photos), PhotoKeys(d.photos));
  }

  lemma KeysIncluded(pool: set<Photo>, other: set<Photo>, links: Edges, c: Cluster, d: Cluster)
    requires Faces(pool) == Faces(other)
    requires IsCluster(pool, links, c) && IsCluster(other, links, d) && Connected(links, d.id, c.id)
    ensures d.id <= c.id && forall k :: k in PhotoKeys(c.photos) ==> k in PhotoKeys(d.photos)
  {
    var least := ClusterIdIsSmallest(pool, links, c);
    var least' := Counterpart(pool, other, least);
    assert least' in d.photos;
    forall k | k in PhotoKeys(c.photos)
      ensures k in PhotoKeys(d.photos)
    {
      var i :| 0 <= i < |c.photos| && k == PhotoKey(c.photos[i]);
      assert c.photos[i] in c.photos;
      var q := Counterpart(pool, other, c.photos[i]);
      ConnectedTrans(links, d.id, c.id, q.id);
      assert q in d.photos;
      var j :| 0 <= j < |d.photos| && d.photos[j] == q;
      assert PhotoKeys(d.photos)[j] == k;
    }
  }

  lemma ClusterOf(pool: set<Photo>, links: Edges, out: seq<Cluster>, p: Photo, q: Photo) returns (c: Cluster)
    requires IsClustering(pool, links, out)
    requires p in pool && q in pool && p != q && Connected(links, p.id, q.id)
    ensures c in out && IsCluster(pool, links, c) && Together(c, p, q)
  {
    c :| c in out && Together(c, p, q);
  }

  /** Every cluster of one result occurs in the other. */
  lemma MatchingCluster(pool: set<Photo>, other: set<Photo>, links: Edges,
                        out: seq<Cluster>, out': seq<Cluster>, c: Cluster) returns (d: Cluster)
    requires Faces(pool) == Faces(other) && Symmetric(links)
    requires IsClustering(pool, links, out) && IsClustering(other, links, out')
    requires c in out
    ensures d in out' && d.id == c.id && PhotoKeys(d.photos) == PhotoKeys(c.photos)
  {
    assert IsCluster(pool, links, c);
    var p, q := c.photos[0], c.photos[1];
    assert p in c.photos && q in c.photos;
    assert Less(PhotoKeys(c.photos)[0], PhotoKeys(c.photos)[1]);
    var p' := Counterpart(pool, other, p);
    var q' := Counterpart(pool, other, q);
    ConnectedSym(links, c.id, p.id);
    ConnectedTrans(links, p.id, c.id, q.id);
    d := ClusterOf(other, links, out', p', q');
    ConnectedSym(links, d.id, p'.id);
    ConnectedTrans(links, c.id, p.id, d.id);
    ConnectedClustersMatch(pool, other, links, c, d);
  }

  lemma ClusterKeysIncluded(pool: set<Photo>, other: set<Photo>, links: Edges, out: seq<Cluster>, out': seq<Cluster>)
    requires Faces(pool) == Faces(other) && Symmetric(links)
    requires IsClustering(pool, links, out) && IsClustering(other, links, out')
    ensures forall k :: k in ClusterKeys(out) ==> k in ClusterKeys(out')
  {
    forall k | k in ClusterKeys(out)
      ensures k in ClusterKeys(out')
    {
      var i :| 0 <= i < |out| && k == ClusterKey(out[i]);
      var d := MatchingCluster(pool, other, links, out, out', out[i]);
      assert |PhotoKeys(d.photos)| == |d.photos|;
      var j :| 0 <= j < |out'| && out'[j] == d;
      assert ClusterKeys(out')[j] == k;
    }
  }

  lemma EqualKeysEqualIds(s: seq<Photo>, t: seq<Photo>)
    requires PhotoKeys(s) == PhotoKeys(t)
    ensures |s| == |t| && Ids(s) == Ids(t)
  {
    assert |s| == |PhotoKeys(s)| == |t|;
    forall i | 0 <= i < |s|
      ensures s[i].id == t[i].id
    {
      assert PhotoKeys(s)[i] == PhotoKeys(t)[i];
    }
  }

  lemma ClusteringUnique(pool: set<Photo>, other: set<Photo>, links: Edges, out: seq<Cluster>, out': seq<Cluster>)
    requires Faces(pool) == Faces(other) && Symmetric(links)
    requires IsClustering(pool, links, out) && IsClustering(other, links, out')
    ensures SameClusters(out, out')
  {
    ClusterKeysIncluded(pool, other, links, out, out');
    ClusterKeysIncluded(other, pool, links, out', out);
    StrictlySortedUnique(ClusterKeys(out), ClusterKeys(out'));
    assert |out| == |ClusterKeys(out)| == |ClusterKeys(out')| == |out'|;
    forall i | 0 <= i < |out|
      ensures out[i].id == out'[i].id && Ids(out[i].photos) == Ids(out'[i].photos)
    {
      SameAtIndex(pool, other, links, out, out', i);
    }
  }

  lemma SameAtIndex(pool: set<Photo>, other: set<Photo>, links: Edges, out: seq<Cluster>, out': seq<Cluster>, i: nat)
    requires Faces(pool) == Faces(other) && Symmetric(links)
    requires IsClustering(pool, links, out) && IsClustering(other, links, out')
    requires ClusterKeys(out) == ClusterKeys(out') && i < |out| == |out'|
    ensures out[i].id == out'[i].id && Ids(out[i].photos) == Ids(out'[i].photos)
  {
    var d := MatchingCluster(pool, other, links, out, out', out[i]);
    var j :| 0 <= j < |out'| && out'[j] == d;
    EqualKeysEqualIds(out[i].photos, d.photos);
    assert ClusterKey(out[i]) == ClusterKey(d);
    assert ClusterKeys(out)[i] == ClusterKeys(out')[i];
    SameKeySameIndex(out', i, j);
  }

  lemma SameKeySameIndex(out: seq<Cluster>, i: nat, j: nat)
    requires StrictlySorted(ClusterKeys(out))
    requires i < |out| && j < |out| && ClusterKey(out[i]) == ClusterKey(out[j])
    ensures i == j
  {
    assert ClusterKeys(out)[i] == ClusterKeys(out)[j];
  }

  /** The result depends on nothing but the faces of the eligible photos: not on the order of the
      input, nor on the order in which the map yields its groups, nor on any other field. */
  lemma ResultDeterminedByFaces(photos: seq<Photo>, others: seq<Photo>, threshold: int, window: Time,
                                out: seq<Cluster>, out': seq<Cluster>)
    requires DistinctIds(photos) && DistinctIds(others)
    requires Faces(Pool(photos)) == Faces(Pool(others))
    requires IsResult(photos, threshold, window, out) && IsResult(others, threshold, window, out')
    ensures SameClusters(out, out')
  {
    PoolOf(photos);
    PoolOf(others);
    PoolsDetermineResult(Pool(photos), Pool(others), threshold, window, out, out');
  }

  lemma SameLinks(pool: set<Photo>, other: set<Photo>, threshold: int, window: Time)
    requires UniqueIds(pool) && UniqueIds(other) && Faces(pool) == Faces(other)
    ensures Links(pool, threshold, window) == Links(other, threshold, window)
  {
    LinksByFaces(pool, other, threshold, window);
    LinksByFaces(other, pool, threshold, window);
  }

  lemma PoolsDetermineResult(pool: set<Photo>, other: set<Photo>, threshold: int, window: Time,
                             out: seq<Cluster>, out': seq<Cluster>)
    requires UniqueIds(pool) && UniqueIds(other) && Faces(pool) == Faces(other)
    requires IsClustering(pool, Links(pool, threshold, window), out)
    requires IsClustering(other, Links(other, threshold, window), out')
    ensures SameClusters(out, out')
  {
    SameLinks(pool, other, threshold, window);
    LinksSymmetric(pool, threshold, window);
    ClusteringUnique(pool, other, Links(pool, threshold, window), out, out');
  }

  /** For permuted inputs the results are equal, photo by photo. */
  lemma ResultIgnoresOrder(photos: seq<Photo>, others: seq<Photo>, threshold: int, window: Time,
                           out: seq<Cluster>, out': seq<Cluster>)
    requires DistinctIds(photos) && DistinctIds(others)
    requires forall p :: p in photos <==> p in others
    requires IsResult(photos, threshold, window, out) && IsResult(others, threshold, window, out')
    ensures out == out'
  {
    assert Pool(photos) == Pool(others);
    PoolOf(photos);
    ResultDeterminedByFaces(photos, others, threshold, window, out, out');
    forall i | 0 <= i < |out|
      ensures out[i] == out'[i]
    {
      SameIdsSamePhotos(Pool(photos), Links(Pool(photos), threshold, window), out[i], out'[i]);
    }
  }

  lemma SameIdsSamePhotos(pool: set<Photo>, links: Edges, c: Cluster, d: Cluster)
    requires UniqueIds(pool) && IsCluster(pool, links, c) && IsCluster(pool, links, d)
    requires c.id == d.id && Ids(c.photos) == Ids(d.photos)
    ensures c == d
  {
    assert |c.photos| == |Ids(c.photos)| == |Ids(d.photos)| == |d.photos|;
    forall i | 0 <= i < |c.photos|
      ensures c.photos[i] == d.photos[i]
    {
      assert Ids(c.photos)[i] == Ids(d.photos)[i];
      assert c.photos[i] in c.photos && d.photos[i] in d.photos;
    }
  }

  // ---------- The clusters partition the photos that have a duplicate ----------

  lemma ClustersAreDisjoint(photos: seq<Photo>, threshold: int, window: Time, out: seq<Cluster>, i: nat, j: nat,
                            p: Photo)
    requires IsResult(photos, threshold, window, out)
    requires i < |out| && j < |out| && p in out[i].photos && p in out[j].photos
    ensures i == j
  {
    var pool := Pool(photos);
    var links := Links(pool, threshold, window);
    LinksSymmetric(pool, threshold, window);
    assert IsCluster(pool, links, out[i]) && IsCluster(pool, links, out[j]);
    ConnectedSym(links, out[j].id, p.id);
    ConnectedTrans(links, out[i].id, p.id, out[j].id);
    ConnectedClustersMatch(pool, pool, links, out[i], out[j]);
    EqualKeysEqualIds(out[i].photos, out[j].photos);
    SameKeySameIndex(out, i, j);
  }

  /** A photo is in some cluster exactly if it is eligible and connected to another photo; and two
      photos are in the same cluster exactly if they are connected. */
  lemma ClustersCoverComponents(photos: seq<Photo>, threshold: int, window: Time, out: seq<Cluster>, p: Photo, q: Photo)
    requires IsResult(photos, threshold, window, out) && p != q
    ensures (exists c :: c in out && Together(c, p, q)) <==>
      p in Pool(photos) && q in Pool(photos) && Connected(Links(Pool(photos), threshold, window), p.id, q.id)
  {
    var links := Links(Pool(photos), threshold, window);
    LinksSymmetric(Pool(photos), threshold, window);
    if c :| c in out && Together(c, p, q) {
      TogetherConnected(Pool(photos), links, out, c, p, q);
    }
  }

  // ---------- The scan loses links only for photos dated before the zero time ----------

  /** The graph the documentation speaks of: two photos are joined when they are close in hash and
      the window does not separate them. */
  ghost function NearLinks(pool: set<Photo>, threshold: int, window: Time): Edges {
    set p, q | p in pool && q in pool && p != q && Near(threshold, window, p, q) :: (p.id, q.id)
  }

  /** Two photos dated before the zero time, more than a window apart, and an undated photo close in
      hash to the earlier one. */
  ghost predicate HasCutPair(pool: set<Photo>, threshold: int, window: Time) {
    exists p, q :: p in pool && q in pool && Close(threshold, p, q) && Cut(pool, window, p, q)
  }

  lemma NearLinkOf(pool: set<Photo>, threshold: int, window: Time, p: Photo, q: Photo)
    requires UniqueIds(pool) && p in pool && q in pool
    ensures (p.id, q.id) in NearLinks(pool, threshold, window) <==> p != q && Near(threshold, window, p, q)
  {
  }

  /** The clustered graph is the documented one exactly if no close pair is cut. */
  lemma LinksAreNearLinks(pool: set<Photo>, threshold: int, window: Time)
    requires UniqueIds(pool)
    ensures Links(pool, threshold, window) == NearLinks(pool, threshold, window) <==>
      !HasCutPair(pool, threshold, window)
  {
    if HasCutPair(pool, threshold, window) {
      var p, q :| p in pool && q in pool && Close(threshold, p, q) && Cut(pool, window, p, q);
      NearLinkOf(pool, threshold, window, p, q);
      LinkOf(pool, threshold, window, p, q);
    } else {
      forall p, q | p in pool && q in pool
        ensures Linked(pool, threshold, window, p, q) <==> p != q && Near(threshold, window, p, q)
      {
        DHash.DistanceIsMetric(HashOf(p), HashOf(q), HashOf(p));
      }
    }
  }

  /** In particular it is when no eligible photo is dated before the zero time. */
  lemma NoEarlyTimesNoCut(pool: set<Photo>, threshold: int, window: Time)
    requires UniqueIds(pool)
    requires window <= 0 || forall p :: p in pool ==> p.time >= 0
    ensures Links(pool, threshold, window) == NearLinks(pool, threshold, window)
  {
    LinksAreNearLinks(pool, threshold, window);
  }

  /** Every close pair that is cut is connected all the same, by way of other photos. */
  ghost predicate CutPairsConnected(pool: set<Photo>, threshold: int, window: Time) {
    forall p, q :: p in pool && q in pool && Close(threshold, p, q) && Cut(pool, window, p, q) ==>
      Connected(Links(pool, threshold, window), p.id, q.id)
  }

  lemma NearLinkedConnected(pool: set<Photo>, threshold: int, window: Time, a: PhotoId, b: PhotoId)
    requires UniqueIds(pool) && CutPairsConnected(pool, threshold, window)
    requires (a, b) in NearLinks(pool, threshold, window)
    ensures Connected(Links(pool, threshold, window), a, b)
  {
    var links := Links(pool, threshold, window);
    var p, q :| p in pool && q in pool && p != q && Near(threshold, window, p, q) && (p.id, q.id) == (a, b);
    LinksSymmetric(pool, threshold, window);
    LinkOf(pool, threshold, window, p, q);
    ConnectedSym(links, a, b);
    if Linked(pool, threshold, window, p, q) {
      ConnectedStep(links, a, b);
    } else if Cut(pool, window, q, p) {
      DHash.DistanceIsMetric(HashOf(p), HashOf(q), HashOf(p));
    }
  }

  lemma LinksAreNear(pool: set<Photo>, threshold: int, window: Time)
    ensures Links(pool, threshold, window) <= NearLinks(pool, threshold, window)
  {
  }

  lemma SameComponentsSameClusters(pool: set<Photo>, links: Edges, others: Edges, out: seq<Cluster>)
    requires SameComponents(links, others) && IsClustering(pool, links, out)
    ensures IsClustering(pool, others, out)
  {
    forall c | c in out
      ensures IsCluster(pool, others, c)
    {
      assert IsCluster(pool, links, c);
    }
  }

  /** The result consists of the components of the documented graph if and only if every close pair
      that is cut is connected by way of other photos. */
  lemma ResultIsDocumentedOne(photos: seq<Photo>, threshold: int, window: Time, out: seq<Cluster>)
    requires DistinctIds(photos) && IsResult(photos, threshold, window, out)
    ensures IsClustering(Pool(photos), NearLinks(Pool(photos), threshold, window), out) <==>
      CutPairsConnected(Pool(photos), threshold, window)
  {
    var pool := Pool(photos);
    var links, near := Links(pool, threshold, window), NearLinks(pool, threshold, window);
    PoolOf(photos);
    LinksSymmetric(pool, threshold, window);
    if CutPairsConnected(pool, threshold, window) {
      ComponentsAgree(pool, threshold, window);
      SameComponentsSameClusters(pool, links, near, out);
    }
    if IsClustering(pool, near, out) {
      forall p, q | p in pool && q in pool && Close(threshold, p, q) && Cut(pool, window, p, q)
        ensures Connected(links, p.id, q.id)
      {
        NearLinkOf(pool, threshold, window, p, q);
        ConnectedStep(near, p.id, q.id);
        var c := ClusterOf(pool, near, out, p, q);
        TogetherConnected(pool, links, out, c, p, q);
      }
    }
  }

  lemma NearLikeLinked(pool: set<Photo>, threshold: int, window: Time, a: PhotoId, b: PhotoId)
    requires UniqueIds(pool) && CutPairsConnected(pool, threshold, window)
    ensures Connected(Links(pool, threshold, window), a, b) <==> Connected(NearLinks(pool, threshold, window), a, b)
  {
    var links, near := Links(pool, threshold, window), NearLinks(pool, threshold, window);
    LinksAreNear(pool, threshold, window);
    if Connected(links, a, b) {
      ConnectedMonotone(links, near, a, b);
    }
    if Connected(near, a, b) {
      forall x, y | (x, y) in near
        ensures Connected(links, x, y)
      {
        NearLinkedConnected(pool, threshold, window, x, y);
      }
      ConnectedWithin(near, links, a, b);
    }
  }

  ghost predicate SameComponents(edges: Edges, others: Edges) {
    forall a, b :: Connected(edges, a, b) <==> Connected(others, a, b)
  }

  /** The components of the clustered graph and of the documented one are the same if and only if every
      close pair that is cut is connected by way of other photos. */
  lemma ComponentsAgree(pool: set<Photo>, threshold: int, window: Time)
    requires UniqueIds(pool)
    ensures SameComponents(Links(pool, threshold, window), NearLinks(pool, threshold, window)) <==>
            CutPairsConnected(pool, threshold, window)
  {
    var links, near := Links(pool, threshold, window), NearLinks(pool, threshold, window);
    if CutPairsConnected(pool, threshold, window) {
      forall a, b
        ensures Connected(links, a, b) <==> Connected(near, a, b)
      {
        NearLikeLinked(pool, threshold, window, a, b);
      }
    } else {
      var p, q :| p in pool && q in pool && Close(threshold, p, q) && Cut(pool, window, p, q) &&
        !Connected(links, p.id, q.id);
      NearLinkOf(pool, threshold, window, p, q);
      ConnectedStep(near, p.id, q.id);
    }
  }

  lemma TogetherConnected(pool: set<Photo>, links: Edges, out: seq<Cluster>, c: Cluster, p: Photo, q: Photo)
    requires Symmetric(links) && IsClustering(pool, links, out) && c in out && Together(c, p, q)
    ensures Connected(links, p.id, q.id)
  {
    assert IsCluster(pool, links, c);
    ConnectedSym(links, c.id, p.id);
    ConnectedTrans(links, p.id, c.id, q.id);
  }

  function Dated(id: PhotoId, time: Time, hash: Word): Photo {
    Photo(id, "", Unsorted, 0, 0, 0, 0, false, 1, "", hash, hash, CURRENT_HASH_VERSION, 1, time)
  }

  lemma CutPairUnlinked(pool: set<Photo>, p: Photo, k: Photo, q: Photo, threshold: int, window: Time, x: Photo,
                        y: Photo)
    requires !Close(threshold, p, k) && !Close(threshold, k, q) && Cut(pool, window, p, q)
    requires x in {p, k, q} && y in {p, k, q}
    ensures !Linked(pool, threshold, window, x, y)
  {
    LinkedSymmetric(pool, threshold, window, p, k);
    LinkedSymmetric(pool, threshold, window, k, q);
    LinkedSymmetric(pool, threshold, window, p, q);
  }

  lemma CutPairNoLinks(pool: set<Photo>, p: Photo, k: Photo, q: Photo, threshold: int, window: Time)
    requires !Close(threshold, p, k) && !Close(threshold, k, q) && Cut(pool, window, p, q) && pool <= {p, k, q}
    ensures Links(pool, threshold, window) == {}
  {
    forall x, y | x in pool && y in pool
      ensures !Linked(pool, threshold, window, x, y)
    {
      CutPairUnlinked(pool, p, k, q, threshold, window, x, y);
    }
  }

  /** Three photos of which only one pair is close are not clustered if that pair is cut. */
  lemma CutPairAlone(p: Photo, k: Photo, q: Photo, threshold: int, window: Time, out: seq<Cluster>)
    requires p.id != k.id && k.id != q.id && p.id != q.id && Eligible(k)
    requires !Close(threshold, p, k) && !Close(threshold, k, q)
    requires window > 0 && p.time < 0 && q.time == 0 && k.time < 0 && k.time - p.time > window
    requires IsResult([p, k, q], threshold, window, out)
    ensures out == []
  {
    var pool := Pool([p, k, q]);
    assert k in [p, k, q] && k in pool && Cut(pool, window, p, q);
    PoolOf([p, k, q]);
    CutPairNoLinks(pool, p, k, q, threshold, window);
    NoLinksNoClusters(pool, out);
  }

  lemma NoLinksNoClusters(pool: set<Photo>, out: seq<Cluster>)
    requires UniqueIds(pool) && IsClustering(pool, {}, out)
    ensures out == []
  {
    if out != [] {
      assert out[0] in out;
      var a, b := ClusterHasLink(pool, {}, out[0]);
    }
  }

  const SECOND := 1_000_000_000
  const HOUR := 3600 * SECOND

  /** A photo dated before the zero time and an undated copy of it are near, but nothing is
      clustered: the scan from the first breaks off at an unrelated photo in between. */
  lemma CutPairExample(hash: Word, unrelated: Word, out: seq<Cluster>)
    requires hash != ZeroWord() && unrelated != ZeroWord() && hash != unrelated
    requires IsResult([Dated(0, -2 * HOUR, hash), Dated(1, -SECOND, unrelated), Dated(2, 0, hash)], 0, HOUR, out)
    ensures Near(0, HOUR, Dated(0, -2 * HOUR, hash), Dated(2, 0, hash)) && out == []
  {
    var p, k, q := Dated(0, -2 * HOUR, hash), Dated(1, -SECOND, unrelated), Dated(2, 0, hash);
    DHash.DistanceIsMetric(HashOf(p), HashOf(q), HashOf(k));
    DHash.DistanceIsMetric(HashOf(k), HashOf(p), HashOf(q));
    DHash.DistanceIsMetric(HashOf(p), HashOf(k), HashOf(q));
    DHash.DistanceIsMetric(HashOf(k), HashOf(q), HashOf(p));
    CutPairAlone(p, k, q, 0, HOUR, out);
  }

  // ---------- How far apart the members of a cluster can be ----------

  /** The distance between the ends of a path is at most its number of steps times the threshold. */
  lemma {:induction false} PathDistance(pool: set<Photo>, threshold: int, window: Time, path: seq<PhotoId>, p: Photo,
                                        q: Photo)
    requires UniqueIds(pool) && p in pool && q in pool && threshold >= 0
    requires Joins(Links(pool, threshold, window), path, p.id, q.id)
    ensures DHash.Distance(HashOf(p), HashOf(q)) <= (|path| - 1) * threshold
    decreases |path|
  {
    var links := Links(pool, threshold, window);
    if |path| == 1 {
      DHash.DistanceIsMetric(HashOf(p), HashOf(q), HashOf(p));
    } else {
      assert (path[0], path[1]) in links;
      var r :| r in pool && r.id == path[1];
      LinkOf(pool, threshold, window, p, r);
      var rest := path[1..];
      forall i | 0 <= i < |rest| - 1
        ensures (rest[i], rest[i + 1]) in links
      {
        assert (path[i + 1], path[i + 2]) in links;
      }
      PathDistance(pool, threshold, window, rest, r, q);
      DHash.DistanceIsMetric(HashOf(p), HashOf(r), HashOf(q));
      assert (|path| - 1) * threshold == threshold + (|rest| - 1) * threshold;
    }
  }

  /** A path that starts in a component stays in it. */
  lemma {:induction false} PathStaysInside(links: Edges, path: seq<PhotoId>, a: PhotoId, k: nat)
    requires IsPath(links, path) && path[0] == a && k < |path|
    ensures Connected(links, a, path[k])
  {
    var front := path[..k + 1];
    forall i | 0 <= i < |front| - 1
      ensures (front[i], front[i + 1]) in links
    {
      assert (path[i], path[i + 1]) in links;
    }
    assert Joins(links, front, a, path[k]);
  }

  /** Two members of a cluster are joined by a path no longer than the cluster. */
  lemma ClusterPath(pool: set<Photo>, threshold: int, window: Time, c: Cluster, p: Photo, q: Photo)
    returns (path: seq<PhotoId>)
    requires IsCluster(pool, Links(pool, threshold, window), c)
    requires p in c.photos && q in c.photos
    ensures Joins(Links(pool, threshold, window), path, p.id, q.id) && |path| <= |c.photos|
  {
    var links := Links(pool, threshold, window);
    LinksSymmetric(pool, threshold, window);
    ConnectedSym(links, c.id, p.id);
    ConnectedTrans(links, p.id, c.id, q.id);
    var walk :| Joins(links, walk, p.id, q.id);
    path := Shorten(links, walk, p.id, q.id);
    var members := set i | 0 <= i < |c.photos| :: c.photos[i].id;
    forall k | 0 <= k < |path|
      ensures path[k] in members
    {
      MemberOnPath(pool, threshold, window, c, p, path, k);
    }
    NoRepeatsFits(path, members);
    ImageSize(c.photos, members);
  }

  /** Any two photos of a cluster with m members are within (m - 1) times the threshold of each
      other, although only neighbours on some path need be within the threshold itself. */
  lemma ClusterDiameter(photos: seq<Photo>, threshold: int, window: Time, out: seq<Cluster>, c: Cluster, p: Photo,
                        q: Photo)
    requires DistinctIds(photos) && IsResult(photos, threshold, window, out)
    requires c in out && p in c.photos && q in c.photos
    ensures DHash.Distance(HashOf(p), HashOf(q)) <= (|c.photos| - 1) * threshold
  {
    PoolOf(photos);
    MembersWithin(Pool(photos), threshold, window, c, p, q);
  }

  lemma MembersWithin(pool: set<Photo>, threshold: int, window: Time, c: Cluster, p: Photo, q: Photo)
    requires UniqueIds(pool) && IsCluster(pool, Links(pool, threshold, window), c)
    requires p in c.photos && q in c.photos
    ensures DHash.Distance(HashOf(p), HashOf(q)) <= (|c.photos| - 1) * threshold
  {
    var a, b := ClusterHasLink(pool, Links(pool, threshold, window), c);
    assert threshold >= 0;
    var path := ClusterPath(pool, threshold, window, c, p, q);
    PathDistance(pool, threshold, window, path, p, q);
    StepsTimesThreshold(|path| - 1, |c.photos| - 1, threshold);
  }

  lemma StepsTimesThreshold(few: nat, many: nat, threshold: nat)
    requires few <= many
    ensures few * threshold <= many * threshold
  {
  }

  lemma ClusterHasLink(pool: set<Photo>, links: Edges, c: Cluster) returns (a: PhotoId, b: PhotoId)
    requires UniqueIds(pool) && IsCluster(pool, links, c)
    ensures (a, b) in links
  {
    assert Less(PhotoKeys(c.photos)[0], PhotoKeys(c.photos)[1]);
    assert c.photos[0] in c.photos && c.photos[1] in c.photos;
    var p := if c.photos[0].id == c.id then c.photos[1] else c.photos[0];
    var walk :| Joins(links, walk, c.id, p.id);
    a, b := walk[0], walk[1];
  }

  lemma MemberOnPath(pool: set<Photo>, threshold: int, window: Time, c: Cluster, p: Photo, path: seq<PhotoId>, k: nat)
    requires IsCluster(pool, Links(pool, threshold, window), c) && p in c.photos
    requires IsPath(Links(pool, threshold, window), path) && path[0] == p.id && k < |path|
    ensures exists i :: 0 <= i < |c.photos| && c.photos[i].id == path[k]
  {
    var links := Links(pool, threshold, window);
    PathStaysInside(links, path, p.id, k);
    ConnectedTrans(links, c.id, p.id, path[k]);
    if k > 0 {
      assert (path[k - 1], path[k]) in links;
      var r :| r in pool && r.id == path[k];
      assert r in c.photos;
    }
  }

  lemma {:induction false} ImageSize(s: seq<Photo>, ids: set<PhotoId>)
    requires ids == set i | 0 <= i < |s| :: s[i].id
    ensures |ids| <= |s|
  {
    if s == [] {
      assert ids == {};
    } else {
      var t := s[..|s| - 1];
      var rest := set i | 0 <= i < |t| :: t[i].id;
      ImageSize(t, rest);
      assert ids == rest + {s[|s| - 1].id};
    }
  }

  // ---------- A picture that hashes to zero is never clustered ----------

  /** No pixel is brighter than its right neighbour or the one below it. */
  ghost predicate NeverFalls(g: DHash.Grid) {
    forall k :: 0 <= k < 64 ==> !DHash.FallsRight(g, k) && !DHash.FallsDown(g, k)
  }

  /** A successful hash is mistaken for a failed one exactly if the picture never gets darker
      rightwards or downwards, as a uniform one does not. */
  lemma FlatPictureIsNotEligible(g: DHash.Grid, h: DHash.Hash, p: Photo)
    requires forall k :: 0 <= k < 64 ==> (h.h[k] <==> DHash.FallsRight(g, k))
    requires forall k :: 0 <= k < 64 ==> (h.v[k] <==> DHash.FallsDown(g, k))
    requires HashOf(p) == h && p.state != Trashed && p.dhashedAt != 0 && p.hashVersion == CURRENT_HASH_VERSION
    ensures Eligible(p) <==> !NeverFalls(g)
  {
    if NeverFalls(g) {
      assert h.h == ZeroWord() && h.v == ZeroWord();
    }
  }
}
