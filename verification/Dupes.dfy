/** Near-duplicate clustering: what it means, and the order-dependent code that computes it. */
module Dupes {
  import opened Photos
  import opened Graph
  import opened UnionFind
  import DHash
  import opened Sorting

  datatype Cluster = Cluster(id: PhotoId, photos: seq<Photo>)

  // ---------- The graph that clustering is about ----------

  /** Hashed under the current algorithm, successfully, and not in the trash. */
  predicate Eligible(p: Photo) {
    && p.state != Trashed
    && p.dhashedAt != 0 && p.hashVersion >= CURRENT_HASH_VERSION
    && !(p.dhash == ZeroWord() && p.dhashV == ZeroWord())
  }

  /** A photo takes part unless it is in the trash, was never hashed, was hashed by an older version, or has
      a hash without a single one bit. */
  lemma EligibleMeans(p: Photo)
    ensures Eligible(p) <==>
      && p.state != Trashed && p.dhashedAt != 0 && p.hashVersion >= 2
      && exists k :: 0 <= k < 64 && (p.dhash[k] || p.dhashV[k])
  {
    if forall k :: 0 <= k < 64 ==> !p.dhash[k] && !p.dhashV[k] {
      assert p.dhash == ZeroWord() && p.dhashV == ZeroWord();
    } else {
      var k :| 0 <= k < 64 && (p.dhash[k] || p.dhashV[k]);
      assert !ZeroWord()[k];
    }
  }

  function HashOf(p: Photo): DHash.Hash {
    DHash.Hash(p.dhash, p.dhashV)
  }

  ghost function Pool(photos: seq<Photo>): set<Photo> {
    set p | p in photos && Eligible(p)
  }

  /** The window does not separate the two times: it is off, a time is unknown, or the gap is at
      most the window. */
  predicate WithinWindow(window: Time, s: Time, t: Time) {
    window <= 0 || s == 0 || t == 0 || (s - t <= window && t - s <= window)
  }

  /** The pair of `p`, dated before the zero time, and the undated `q` is never compared: some
      photo dated before the zero time stops the scan from `p` before it gets to `q`. */
  ghost predicate Cut(pool: set<Photo>, window: Time, p: Photo, q: Photo) {
    && window > 0 && p.time < 0 && q.time == 0
    && exists k :: k in pool && k.time < 0 && k.time - p.time > window
  }

  predicate Close(threshold: int, p: Photo, q: Photo) {
    DHash.Distance(HashOf(p), HashOf(q)) <= threshold
  }

  /** Close enough to be duplicates of one another. */
  predicate Near(threshold: int, window: Time, p: Photo, q: Photo) {
    && Close(threshold, p, q)
    && WithinWindow(window, p.time, q.time)
  }

  ghost predicate Linked(pool: set<Photo>, threshold: int, window: Time, p: Photo, q: Photo) {
    && p != q && Near(threshold, window, p, q)
    && !Cut(pool, window, p, q) && !Cut(pool, window, q, p)
  }

  /** The graph of linked photos, by ID. */
  ghost function Links(pool: set<Photo>, threshold: int, window: Time): Edges {
    set p, q | p in pool && q in pool && Linked(pool, threshold, window, p, q) :: (p.id, q.id)
  }

  ghost predicate UniqueIds(pool: set<Photo>) {
    forall p, q :: p in pool && q in pool && p.id == q.id ==> p == q
  }

  lemma LinkedSymmetric(pool: set<Photo>, threshold: int, window: Time, p: Photo, q: Photo)
    ensures Linked(pool, threshold, window, p, q) <==> Linked(pool, threshold, window, q, p)
  {
    DHash.DistanceIsMetric(HashOf(p), HashOf(q), HashOf(p));
  }

  lemma LinksSymmetric(pool: set<Photo>, threshold: int, window: Time)
    ensures Symmetric(Links(pool, threshold, window))
  {
    forall a, b | (a, b) in Links(pool, threshold, window)
      ensures (b, a) in Links(pool, threshold, window)
    {
      var p, q :| p in pool && q in pool && Linked(pool, threshold, window, p, q) && (p.id, q.id) == (a, b);
      LinkedSymmetric(pool, threshold, window, p, q);
    }
  }

  lemma LinkOf(pool: set<Photo>, threshold: int, window: Time, p: Photo, q: Photo)
    requires UniqueIds(pool) && p in pool && q in pool
    ensures (p.id, q.id) in Links(pool, threshold, window) <==> Linked(pool, threshold, window, p, q)
  {
  }

  // ---------- The result of clustering ----------

  function PhotoKey(p: Photo): Key {
    (-p.sizeBytes, p.id)
  }

  function ClusterKey(c: Cluster): Key {
    (-|c.photos|, c.id)
  }

  function PhotoKeys(s: seq<Photo>): (keys: seq<Key>)
    ensures |keys| == |s| && forall i :: 0 <= i < |s| ==> keys[i] == PhotoKey(s[i])
  {
    Keys(PhotoKey, s)
  }

  function ClusterKeys(s: seq<Cluster>): (keys: seq<Key>)
    ensures |keys| == |s| && forall i :: 0 <= i < |s| ==> keys[i] == ClusterKey(s[i])
  {
    Keys(ClusterKey, s)
  }

  /** `c` holds, in order of decreasing size and then ID, exactly the photos connected to its ID,
      which is the smallest ID among them; and it holds at least two. */
  ghost predicate IsCluster(pool: set<Photo>, links: Edges, c: Cluster) {
    && |c.photos| >= 2
    && StrictlySorted(PhotoKeys(c.photos))
    && (forall p :: p in c.photos <==> p in pool && Connected(links, c.id, p.id))
    && (forall p :: p in c.photos ==> c.id <= p.id)
    && (exists p :: p in c.photos && p.id == c.id)
  }

  ghost predicate Together(c: Cluster, p: Photo, q: Photo) {
    p in c.photos && q in c.photos
  }

  /** `out` lists, in order of decreasing length and then ID, clusters only, and two different
      connected photos are together in one of them. */
  ghost predicate IsClustering(pool: set<Photo>, links: Edges, out: seq<Cluster>) {
    && (forall c :: c in out ==> IsCluster(pool, links, c))
    && StrictlySorted(ClusterKeys(out))
    && (forall p, q :: p in pool && q in pool && p != q && Connected(links, p.id, q.id) ==>
          exists c :: c in out && Together(c, p, q))
  }

  ghost predicate IsResult(photos: seq<Photo>, threshold: int, window: Time, out: seq<Cluster>) {
    IsClustering(Pool(photos), Links(Pool(photos), threshold, window), out)
  }

  // ---------- The scan ----------

  /** The pair (i, j) ends the scan from i: both are dated and the gap exceeds the window. */
  predicate Breaks(window: Time, s: Time, t: Time) {
    window > 0 && s != 0 && t != 0 && t - s > window
  }

  ghost predicate InTimeOrder(hashed: seq<Photo>) {
    forall i, j :: 0 <= i < j < |hashed| ==> hashed[i].time <= hashed[j].time
  }

  /** The scan from i gets as far as j. */
  ghost predicate Compared(hashed: seq<Photo>, window: Time, i: nat, j: nat)
    requires i < j < |hashed|
  {
    forall k :: i < k <= j ==> !Breaks(window, hashed[i].time, hashed[k].time)
  }

  ghost predicate PairFits(hashed: seq<Photo>, links: Edges, threshold: int, window: Time, i: nat, j: nat)
    requires i < j < |hashed|
  {
    (hashed[i].id, hashed[j].id) in links <==> Compared(hashed, window, i, j) && Close(threshold, hashed[i], hashed[j])
  }

  /** The links are exactly the close pairs that the scan compares. */
  ghost predicate ScanFits(hashed: seq<Photo>, links: Edges, threshold: int, window: Time) {
    forall i, j {:trigger PairFits(hashed, links, threshold, window, i, j)} ::
      0 <= i < j < |hashed| ==> PairFits(hashed, links, threshold, window, i, j)
  }

  /** Breaking off loses no link: what comes after is too late, or undated and cut off. */
  lemma LinkedPairIsCompared(pool: set<Photo>, hashed: seq<Photo>, threshold: int, window: Time, i: nat, j: nat)
    requires InTimeOrder(hashed) && forall p :: p in hashed <==> p in pool
    requires i < j < |hashed| && Linked(pool, threshold, window, hashed[i], hashed[j])
    ensures Compared(hashed, window, i, j)
  {
    forall k | i < k <= j
      ensures !Breaks(window, hashed[i].time, hashed[k].time)
    {
      assert hashed[k].time <= hashed[j].time;
      assert hashed[k] in pool;
    }
  }

  /** A compared pair is linked as soon as its hashes are close. */
  lemma ComparedPairIsLinked(pool: set<Photo>, hashed: seq<Photo>, threshold: int, window: Time, i: nat, j: nat)
    requires InTimeOrder(hashed) && DistinctIds(hashed) && forall p :: p in hashed <==> p in pool
    requires i < j < |hashed| && Compared(hashed, window, i, j) && Close(threshold, hashed[i], hashed[j])
    ensures Linked(pool, threshold, window, hashed[i], hashed[j])
  {
    assert hashed[i].time <= hashed[j].time;
    assert !Breaks(window, hashed[i].time, hashed[j].time);
    forall m | 0 <= m < |hashed| && window > 0 && hashed[m].time < 0 && hashed[i].time < 0 && hashed[j].time == 0
      ensures hashed[m].time - hashed[i].time <= window
    {
      if i < m {
        assert m < j;
        assert !Breaks(window, hashed[i].time, hashed[m].time);
      }
    }
  }

  lemma LinksFitScan(pool: set<Photo>, hashed: seq<Photo>, threshold: int, window: Time)
    requires InTimeOrder(hashed) && DistinctIds(hashed) && UniqueIds(pool) && forall p :: p in hashed <==> p in pool
    ensures ScanFits(hashed, Links(pool, threshold, window), threshold, window)
  {
    forall i, j | 0 <= i < j < |hashed|
      ensures PairFits(hashed, Links(pool, threshold, window), threshold, window, i, j)
    {
      LinkOf(pool, threshold, window, hashed[i], hashed[j]);
      if Linked(pool, threshold, window, hashed[i], hashed[j]) {
        LinkedPairIsCompared(pool, hashed, threshold, window, i, j);
      } else if Compared(hashed, window, i, j) && Close(threshold, hashed[i], hashed[j]) {
        ComparedPairIsLinked(pool, hashed, threshold, window, i, j);
      }
    }
  }

  /** `roots` is constant along the edges seen so far and connects every ID to its root. */
  ghost predicate RootsConnected(links: Edges, roots: map<PhotoId, PhotoId>) {
    forall x {:trigger Connected(links, x, roots[x])} :: x in roots ==> Connected(links, x, roots[x])
  }

  lemma OwnRootsConnected(links: Edges, roots: map<PhotoId, PhotoId>)
    requires forall x :: x in roots ==> roots[x] == x
    ensures RootsConnected(links, roots)
  {
    forall x | x in roots
      ensures Connected(links, x, roots[x])
    {
      ConnectedRefl(links, x);
    }
  }

  lemma MergedRootsConnected(links: Edges, roots: map<PhotoId, PhotoId>, a: PhotoId, b: PhotoId)
    requires Symmetric(links) && RootsConnected(links, roots)
    requires a in roots && b in roots && (a, b) in links
    ensures RootsConnected(links, Merged(roots, a, b))
  {
    ConnectedStep(links, a, b);
    ConnectedSym(links, a, b);
    assert Connected(links, a, roots[a]) && Connected(links, b, roots[b]);
    forall x | x in roots
      ensures Connected(links, x, Merged(roots, a, b)[x])
    {
      assert Connected(links, x, roots[x]);
      if roots[x] == roots[a] {
        ConnectedSym(links, a, roots[a]);
        ConnectedTrans(links, x, roots[x], a);
        ConnectedTrans(links, x, a, b);
        ConnectedTrans(links, x, b, roots[b]);
      } else if roots[x] == roots[b] {
        ConnectedSym(links, b, roots[b]);
        ConnectedTrans(links, x, roots[x], b);
        ConnectedTrans(links, x, b, a);
        ConnectedTrans(links, x, a, roots[a]);
      }
    }
  }

  /** The keys are the IDs of the photos. */
  ghost predicate HasIds(hashed: seq<Photo>, roots: map<PhotoId, PhotoId>) {
    && (forall i :: 0 <= i < |hashed| ==> hashed[i].id in roots)
    && (forall x :: x in roots ==> exists i :: 0 <= i < |hashed| && hashed[i].id == x)
  }

  ghost predicate PairMerged(hashed: seq<Photo>, links: Edges, roots: map<PhotoId, PhotoId>, m: nat, k: nat)
    requires HasIds(hashed, roots) && m < k < |hashed|
  {
    (hashed[m].id, hashed[k].id) in links ==> roots[hashed[m].id] == roots[hashed[k].id]
  }

  /** The linked pairs that the scan passed before reaching (i, j) have equal roots. */
  ghost predicate Scanned(hashed: seq<Photo>, links: Edges, roots: map<PhotoId, PhotoId>, i: nat, j: nat)
    requires HasIds(hashed, roots)
  {
    forall m, k {:trigger PairMerged(hashed, links, roots, m, k)} ::
      0 <= m < k < |hashed| && (m < i || (m == i && k < j)) ==> PairMerged(hashed, links, roots, m, k)
  }

  lemma MergedScanned(hashed: seq<Photo>, links: Edges, roots: map<PhotoId, PhotoId>, i: nat, j: nat)
    requires HasIds(hashed, roots) && Scanned(hashed, links, roots, i, j)
    requires i < j < |hashed|
    ensures HasIds(hashed, Merged(roots, hashed[i].id, hashed[j].id))
    ensures Scanned(hashed, links, Merged(roots, hashed[i].id, hashed[j].id), i, j + 1)
  {
    var merged := Merged(roots, hashed[i].id, hashed[j].id);
    forall m, k | 0 <= m < k < |hashed| && (m < i || (m == i && k <= j))
      ensures PairMerged(hashed, links, merged, m, k)
    {
      if (m, k) != (i, j) {
        assert PairMerged(hashed, links, roots, m, k);
      }
    }
  }

  lemma BreakScanned(hashed: seq<Photo>, links: Edges, threshold: int, window: Time,
                     roots: map<PhotoId, PhotoId>, i: nat, j: nat)
    requires ScanFits(hashed, links, threshold, window)
    requires i < j < |hashed| && Breaks(window, hashed[i].time, hashed[j].time)
    requires HasIds(hashed, roots) && Scanned(hashed, links, roots, i, j)
    ensures Scanned(hashed, links, roots, i + 1, i + 2)
  {
    forall m, k | 0 <= m < k < |hashed| && m <= i
      ensures PairMerged(hashed, links, roots, m, k)
    {
      if m == i && j <= k {
        assert PairFits(hashed, links, threshold, window, i, k);
        assert !Compared(hashed, window, i, k);
      }
    }
  }

  /** The forest after the scan passed everything before (i, j). */
  ghost predicate ScanState(hashed: seq<Photo>, links: Edges, roots: map<PhotoId, PhotoId>, i: nat, j: nat) {
    && HasIds(hashed, roots)
    && RootsConnected(links, roots)
    && Scanned(hashed, links, roots, i, j)
  }

  lemma UnionStep(hashed: seq<Photo>, links: Edges, threshold: int, window: Time,
                  roots: map<PhotoId, PhotoId>, i: nat, j: nat)
    requires Symmetric(links) && ScanFits(hashed, links, threshold, window)
    requires i < j < |hashed| && Compared(hashed, window, i, j)
    requires ScanState(hashed, links, roots, i, j)
    ensures !Close(threshold, hashed[i], hashed[j]) ==> ScanState(hashed, links, roots, i, j + 1)
    ensures Close(threshold, hashed[i], hashed[j]) ==>
      ScanState(hashed, links, Merged(roots, hashed[i].id, hashed[j].id), i, j + 1)
  {
    assert PairFits(hashed, links, threshold, window, i, j);
    if !Close(threshold, hashed[i], hashed[j]) {
      assert PairMerged(hashed, links, roots, i, j);
    } else {
      MergedRootsConnected(links, roots, hashed[i].id, hashed[j].id);
      MergedScanned(hashed, links, roots, i, j);
    }
  }

  /** Unites photo i with the later photos linked to it, breaking off at the first too far away. */
  method LinkRow(forest: Forest, hashed: seq<Photo>, threshold: int, window: Time, i: nat, ghost links: Edges)
    requires Symmetric(links) && ScanFits(hashed, links, threshold, window)
    requires i < |hashed|
    requires forest.Valid() && ScanState(hashed, links, forest.roots, i, i + 1)
    modifies forest
    ensures forest.Valid() && ScanState(hashed, links, forest.roots, i + 1, i + 2)
  {
    var j := i + 1;
    while j < |hashed|
      invariant i < j <= |hashed|
      invariant forest.Valid() && ScanState(hashed, links, forest.roots, i, j)
      invariant forall k :: i < k < j ==> !Breaks(window, hashed[i].time, hashed[k].time)
    {
      if Breaks(window, hashed[i].time, hashed[j].time) {
        BreakScanned(hashed, links, threshold, window, forest.roots, i, j);
        return;
      }
      UnionStep(hashed, links, threshold, window, forest.roots, i, j);
      if Close(threshold, hashed[i], hashed[j]) {
        forest.Union(hashed[i].id, hashed[j].id);
      }
      j := j + 1;
    }
  }

  /** Unites all linked pairs, row by row. */
  method LinkPairs(hashed: seq<Photo>, threshold: int, window: Time, ghost links: Edges) returns (forest: Forest)
    requires Symmetric(links) && ScanFits(hashed, links, threshold, window)
    ensures fresh(forest) && forest.Valid()
    ensures ScanState(hashed, links, forest.roots, |hashed|, |hashed| + 1)
  {
    var ids := seq(|hashed|, i requires 0 <= i < |hashed| => hashed[i].id);
    forest := new Forest(ids);
    assert HasIds(hashed, forest.roots) by {
      assert forall i :: 0 <= i < |hashed| ==> ids[i] == hashed[i].id;
    }
    OwnRootsConnected(links, forest.roots);
    for i := 0 to |hashed|
      invariant fresh(forest) && forest.Valid()
      invariant ScanState(hashed, links, forest.roots, i, i + 1)
    {
      LinkRow(forest, hashed, threshold, window, i, links);
    }
  }

  // ---------- Grouping and sorting ----------

  /** `group` holds, without repetition, the photos with root `r`. */
  ghost predicate IsGroup(hashed: seq<Photo>, roots: map<PhotoId, PhotoId>, r: PhotoId, group: seq<Photo>) {
    && NoRepeats(group)
    && forall p :: p in group <==> p in hashed && p.id in roots && roots[p.id] == r
  }

  /** The photos grouped by root. */
  ghost predicate GroupsOf(hashed: seq<Photo>, roots: map<PhotoId, PhotoId>, groups: map<PhotoId, seq<Photo>>) {
    && (forall p :: p in hashed ==> p.id in roots && roots[p.id] in groups)
    && (forall r {:trigger IsGroup(hashed, roots, r, groups[r])} :: r in groups ==>
          IsGroup(hashed, roots, r, groups[r]))
  }

  lemma GroupGrows(done: seq<Photo>, roots: map<PhotoId, PhotoId>, groups: map<PhotoId, seq<Photo>>,
                   p: Photo, group: seq<Photo>)
    requires GroupsOf(done, roots, groups) && p !in done && p.id in roots
    requires group == (if roots[p.id] in groups then groups[roots[p.id]] else []) + [p]
    ensures GroupsOf(done + [p], roots, groups[roots[p.id] := group])
  {
    var after := groups[roots[p.id] := group];
    forall r | r in after
      ensures IsGroup(done + [p], roots, r, after[r])
    {
      if r in groups {
        assert IsGroup(done, roots, r, groups[r]);
      }
    }
  }

  lemma PrefixGrows(s: seq<Photo>, i: nat)
    requires i < |s| && NoRepeats(s)
    ensures s[..i + 1] == s[..i] + [s[i]] && s[i] !in s[..i]
  {
  }

  method GroupByRoot(forest: Forest, hashed: seq<Photo>) returns (groups: map<PhotoId, seq<Photo>>)
    requires forest.Valid() && HasIds(hashed, forest.roots) && NoRepeats(hashed)
    modifies forest
    ensures forest.Valid() && forest.roots == old(forest.roots)
    ensures GroupsOf(hashed, forest.roots, groups)
  {
    assert hashed[..|hashed|] == hashed;
    groups := map[];
    for i := 0 to |hashed|
      invariant forest.Valid() && forest.roots == old(forest.roots)
      invariant GroupsOf(hashed[..i], forest.roots, groups)
    {
      var p := hashed[i];
      var root := forest.Find(p.id);
      var group := (if root in groups then groups[root] else []) + [p];
      PrefixGrows(hashed, i);
      GroupGrows(hashed[..i], forest.roots, groups, p, group);
      groups := groups[root := group];
    }
  }

  /** The clusters of the groups with at least two photos, one each. */
  ghost predicate ClustersOf(groups: map<PhotoId, seq<Photo>>, todo: set<PhotoId>, out: seq<Cluster>) {
    && (forall i, j :: 0 <= i < j < |out| ==> out[i].id != out[j].id)
    && (forall c :: c in out ==>
          c.id in groups && c.id !in todo && |groups[c.id]| >= 2 && c.photos == Sort(PhotoKey, groups[c.id]))
    && (forall r :: r in groups && r !in todo && |groups[r]| >= 2 ==>
          Cluster(r, Sort(PhotoKey, groups[r])) in out)
  }

  /** Visits the groups in whatever order the map yields them. */
  method SortGroups(groups: map<PhotoId, seq<Photo>>) returns (out: seq<Cluster>)
    ensures ClustersOf(groups, {}, out)
  {
    out := [];
    var todo := groups.Keys;
    while todo != {}
      invariant todo <= groups.Keys
      invariant ClustersOf(groups, todo, out)
      decreases todo
    {
      var root :| root in todo;
      todo := todo - {root};
      if |groups[root]| >= 2 {
        out := out + [Cluster(root, Sort(PhotoKey, groups[root]))];
      }
    }
  }

  /** The eligible photos, in the order given. */
  method EligiblePhotos(photos: seq<Photo>) returns (hashed: seq<Photo>)
    requires DistinctIds(photos)
    ensures DistinctIds(hashed)
    ensures forall p :: p in hashed <==> p in Pool(photos)
    ensures forall p :: p in hashed <==>
      && p in photos && p.state != Trashed && p.dhashedAt != 0 && p.hashVersion >= 2
      && exists k :: 0 <= k < 64 && (p.dhash[k] || p.dhashV[k])
  {
    hashed := [];
    for i := 0 to |photos|
      invariant DistinctIds(hashed)
      invariant forall p :: p in hashed <==> p in Pool(photos[..i])
    {
      assert photos[..i + 1] == photos[..i] + [photos[i]];
      forall k | 0 <= k < |hashed|
        ensures hashed[k].id != photos[i].id
      {
        assert hashed[k] in Pool(photos[..i]);
        var m :| 0 <= m < i && photos[m] == hashed[k];
      }
      var p := photos[i];
      if p.state == Trashed {
        continue;
      }
      if p.dhashedAt == 0 || p.hashVersion < CURRENT_HASH_VERSION {
        continue;
      }
      if p.dhash == ZeroWord() && p.dhashV == ZeroWord() {
        continue;
      }
      hashed := hashed + [p];
    }
    assert photos[..|photos|] == photos;
    forall p
      ensures Eligible(p) <==>
        && p.state != Trashed && p.dhashedAt != 0 && p.hashVersion >= 2
        && exists k :: 0 <= k < 64 && (p.dhash[k] || p.dhashV[k])
    {
      EligibleMeans(p);
    }
  }

  lemma DistinctIdsNoRepeats(s: seq<Photo>)
    ensures DistinctIds(s) ==> NoRepeats(s)
    ensures DistinctIds(s) ==> forall p, q :: p in s && q in s && p.id == q.id ==> p == q
  {
  }

  lemma SortedByTime(photos: seq<Photo>)
    requires DistinctIds(photos)
    ensures var r := Sort((p: Photo) => (p.time, 0), photos);
      DistinctIds(r) && InTimeOrder(r) && |r| == |photos| && forall p :: p in r <==> p in photos
  {
    var key := (p: Photo) => (p.time, 0);
    DistinctIdsNoRepeats(photos);
    SortOfDistinct(key, photos);
    var r := Sort(key, photos);
    forall i, j | 0 <= i < j < |r|
      ensures r[i].id != r[j].id && r[i].time <= r[j].time
    {
      assert !Less(key(r[j]), key(r[i]));
      assert r[i] in photos && r[j] in photos && r[i] != r[j];
    }
  }

  lemma PoolOf(photos: seq<Photo>)
    requires DistinctIds(photos)
    ensures UniqueIds(Pool(photos))
  {
  }

  // ---------- Putting it together ----------

  lemma LinkedRootsAgree(hashed: seq<Photo>, pool: set<Photo>, threshold: int, window: Time,
                         roots: map<PhotoId, PhotoId>, x: PhotoId, y: PhotoId)
    requires forall p :: p in pool ==> p in hashed
    requires ScanState(hashed, Links(pool, threshold, window), roots, |hashed|, |hashed| + 1)
    requires (x, y) in Links(pool, threshold, window)
    ensures x in roots && y in roots && roots[x] == roots[y]
  {
    var links := Links(pool, threshold, window);
    LinksSymmetric(pool, threshold, window);
    var p, q :| p in pool && q in pool && p != q && (p.id, q.id) == (x, y);
    var i :| 0 <= i < |hashed| && hashed[i] == p;
    var j :| 0 <= j < |hashed| && hashed[j] == q;
    if i < j {
      assert PairMerged(hashed, links, roots, i, j);
    } else {
      assert PairMerged(hashed, links, roots, j, i);
    }
  }

  /** After the scan the roots tell exactly which photos are connected. */
  lemma RootsTellConnected(hashed: seq<Photo>, pool: set<Photo>, threshold: int, window: Time,
                           roots: map<PhotoId, PhotoId>, a: PhotoId, b: PhotoId)
    requires forall p :: p in hashed <==> p in pool
    requires ScanState(hashed, Links(pool, threshold, window), roots, |hashed|, |hashed| + 1)
    requires a in roots && b in roots
    ensures roots[a] == roots[b] <==> Connected(Links(pool, threshold, window), a, b)
  {
    var links := Links(pool, threshold, window);
    LinksSymmetric(pool, threshold, window);
    forall x, y | (x, y) in links
      ensures x in roots && y in roots && roots[x] == roots[y]
    {
      LinkedRootsAgree(hashed, pool, threshold, window, roots, x, y);
    }
    forall x | x in roots
      ensures Connected(links, x, roots[x])
    {
    }
    LabelsAreComponents(links, roots, a, b);
  }

  /** A group with two photos, sorted, is a cluster. */
  lemma GroupIsCluster(hashed: seq<Photo>, pool: set<Photo>, links: Edges, parent: map<PhotoId, PhotoId>,
                       roots: map<PhotoId, PhotoId>, r: PhotoId, group: seq<Photo>)
    requires DistinctIds(hashed) && HasIds(hashed, roots) && IsForest(parent, roots)
    requires forall p :: p in hashed <==> p in pool
    requires forall a, b :: a in roots && b in roots ==> (roots[a] == roots[b] <==> Connected(links, a, b))
    requires IsGroup(hashed, roots, r, group) && |group| >= 2
    ensures IsCluster(pool, links, Cluster(r, Sort(PhotoKey, group)))
  {
    var photos := Sort(PhotoKey, group);
    SortOfDistinct(PhotoKey, group);
    DistinctIdsNoRepeats(hashed);
    assert group[0] in hashed && roots[group[0].id] == r;
    assert NodeFits(parent, roots, group[0].id);
    assert r in roots && NodeFits(parent, roots, r);
    SortIsStrict(PhotoKey, group);
    forall p
      ensures p in photos <==> p in pool && Connected(links, r, p.id)
    {
      assert p in photos <==> p in group;
      assert p in hashed ==> p.id in roots;
    }
    forall p | p in photos
      ensures r <= p.id
    {
      assert p in group;
      assert NodeFits(parent, roots, p.id);
    }
    var m :| 0 <= m < |hashed| && hashed[m].id == r;
    assert hashed[m] in group;
    assert hashed[m] in photos && hashed[m].id == r;
  }

  /** The sorted list of the sorted groups is the clustering. */
  lemma SortedGroupsAreClustering(hashed: seq<Photo>, pool: set<Photo>, links: Edges, parent: map<PhotoId, PhotoId>,
                                  roots: map<PhotoId, PhotoId>, groups: map<PhotoId, seq<Photo>>, out: seq<Cluster>)
    requires DistinctIds(hashed) && HasIds(hashed, roots) && IsForest(parent, roots)
    requires forall p :: p in hashed <==> p in pool
    requires forall a, b :: a in roots && b in roots ==> (roots[a] == roots[b] <==> Connected(links, a, b))
    requires GroupsOf(hashed, roots, groups) && ClustersOf(groups, {}, out)
    ensures IsClustering(pool, links, Sort(ClusterKey, out))
  {
    var sorted := Sort(ClusterKey, out);
    SortOfDistinct(ClusterKey, out);
    forall c | c in sorted
      ensures IsCluster(pool, links, c)
    {
      assert c in out;
      assert IsGroup(hashed, roots, c.id, groups[c.id]);
      GroupIsCluster(hashed, pool, links, parent, roots, c.id, groups[c.id]);
    }
    SortIsStrict(ClusterKey, out);
    forall p, q | p in pool && q in pool && p != q && Connected(links, p.id, q.id)
      ensures exists c :: c in sorted && Together(c, p, q)
    {
      assert p in hashed && q in hashed;
      PairInCluster(hashed, roots, groups, out, p, q);
      var c :| c in out && Together(c, p, q);
      assert c in sorted;
    }
  }

  lemma PairInCluster(hashed: seq<Photo>, roots: map<PhotoId, PhotoId>, groups: map<PhotoId, seq<Photo>>,
                      out: seq<Cluster>, p: Photo, q: Photo)
    requires GroupsOf(hashed, roots, groups) && ClustersOf(groups, {}, out)
    requires p in hashed && q in hashed && p != q
    requires p.id in roots && q.id in roots && roots[p.id] == roots[q.id]
    ensures exists c :: c in out && Together(c, p, q)
  {
    var r := roots[p.id];
    var group := groups[r];
    assert IsGroup(hashed, roots, r, group);
    assert p in group && q in group;
    assert |group| >= 2;
    SortOfDistinct(PhotoKey, group);
    assert Together(Cluster(r, Sort(PhotoKey, group)), p, q);
  }

  lemma FewPhotosNoClusters(pool: set<Photo>, links: Edges, hashed: seq<Photo>)
    requires |hashed| < 2 && forall p :: p in hashed <==> p in pool
    ensures IsClustering(pool, links, [])
  {
  }

  /** The members of a cluster come by decreasing size, and by ID among those of one size. */
  lemma MembersInOrder(pool: set<Photo>, links: Edges, c: Cluster, i: nat, j: nat)
    requires IsCluster(pool, links, c) && i < j < |c.photos|
    ensures var p, q := c.photos[i], c.photos[j];
      p.sizeBytes > q.sizeBytes || (p.sizeBytes == q.sizeBytes && p.id < q.id)
  {
    assert Less(PhotoKeys(c.photos)[i], PhotoKeys(c.photos)[j]);
  }

  /** Clusters come by decreasing number of members, and by ID among those of one number. */
  lemma ClustersInOrder(pool: set<Photo>, links: Edges, out: seq<Cluster>, i: nat, j: nat)
    requires IsClustering(pool, links, out) && i < j < |out|
    ensures |out[i].photos| > |out[j].photos| || (|out[i].photos| == |out[j].photos| && out[i].id < out[j].id)
  {
    assert Less(ClusterKeys(out)[i], ClusterKeys(out)[j]);
  }

  /** The order of the result, in plain terms. */
  lemma ResultInOrder(pool: set<Photo>, links: Edges, out: seq<Cluster>)
    requires IsClustering(pool, links, out)
    ensures forall i, j :: 0 <= i < j < |out| ==>
      |out[i].photos| > |out[j].photos| || (|out[i].photos| == |out[j].photos| && out[i].id < out[j].id)
    ensures forall c, i, j :: c in out && 0 <= i < j < |c.photos| ==>
      c.photos[i].sizeBytes > c.photos[j].sizeBytes ||
      (c.photos[i].sizeBytes == c.photos[j].sizeBytes && c.photos[i].id < c.photos[j].id)
  {
    forall i, j | 0 <= i < j < |out|
      ensures |out[i].photos| > |out[j].photos| || (|out[i].photos| == |out[j].photos| && out[i].id < out[j].id)
    {
      ClustersInOrder(pool, links, out, i, j);
    }
    forall c, i, j | c in out && 0 <= i < j < |c.photos|
      ensures c.photos[i].sizeBytes > c.photos[j].sizeBytes ||
        (c.photos[i].sizeBytes == c.photos[j].sizeBytes && c.photos[i].id < c.photos[j].id)
    {
      MembersInOrder(pool, links, c, i, j);
    }
  }

  /** Whatever order the groups are visited in, the result lists exactly the components with at
      least two photos. */
  method Find(photos: seq<Photo>, threshold: int, window: Time) returns (out: seq<Cluster>)
    requires DistinctIds(photos)
    ensures IsResult(photos, threshold, window, out)
    ensures forall i, j :: 0 <= i < j < |out| ==>
      |out[i].photos| > |out[j].photos| || (|out[i].photos| == |out[j].photos| && out[i].id < out[j].id)
    ensures forall c, i, j :: c in out && 0 <= i < j < |c.photos| ==>
      c.photos[i].sizeBytes > c.photos[j].sizeBytes ||
      (c.photos[i].sizeBytes == c.photos[j].sizeBytes && c.photos[i].id < c.photos[j].id)
  {
    ghost var pool := Pool(photos);
    ghost var links := Links(pool, threshold, window);
    var hashed := EligiblePhotos(photos);
    if |hashed| < 2 {
      FewPhotosNoClusters(pool, links, hashed);
      return [];
    }
    SortedByTime(hashed);
    hashed := Sort((p: Photo) => (p.time, 0), hashed);
    PoolOf(photos);
    LinksSymmetric(pool, threshold, window);
    LinksFitScan(pool, hashed, threshold, window);
    var forest := LinkPairs(hashed, threshold, window, links);
    forall a, b | a in forest.roots && b in forest.roots
      ensures forest.roots[a] == forest.roots[b] <==> Connected(links, a, b)
    {
      RootsTellConnected(hashed, pool, threshold, window, forest.roots, a, b);
    }
    DistinctIdsNoRepeats(hashed);
    var groups := GroupByRoot(forest, hashed);
    out := SortGroups(groups);
    SortedGroupsAreClustering(hashed, pool, links, forest.parent, forest.roots, groups, out);
    out := Sort(ClusterKey, out);
    ResultInOrder(pool, links, out);
  }
}
