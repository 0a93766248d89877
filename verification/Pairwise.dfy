/** When the members of a cluster are pairwise similar, as the documentation has it, and when the
    chain of similar photos that holds them together leads too far. */
module Pairwise {
  import opened Photos
  import opened Graph
  import opened Sorting
  import opened Dupes
  import opened DupesLaws
  import DHash

  // ---------- The documented promise ----------

  /** Any two members of any cluster are within the threshold. */
  ghost predicate PairwiseClose(threshold: int, out: seq<Cluster>) {
    forall c, p, q :: c in out && p in c.photos && q in c.photos ==> Close(threshold, p, q)
  }

  /** Being close is transitive among these photos. */
  ghost predicate TransitivelyClose(pool: set<Photo>, threshold: int) {
    forall p, q, r :: p in pool && q in pool && r in pool && Close(threshold, p, q) && Close(threshold, q, r) ==>
      Close(threshold, p, r)
  }

  /** A photo that is connected and close to another is close to all that are linked to the other. */
  ghost predicate StepwiseClose(pool: set<Photo>, threshold: int, window: Time) {
    forall p, q, r {:trigger CarriesOver(pool, threshold, window, p, q, r)} ::
      p in pool && q in pool && r in pool ==> CarriesOver(pool, threshold, window, p, q, r)
  }

  ghost predicate CarriesOver(pool: set<Photo>, threshold: int, window: Time, p: Photo, q: Photo, r: Photo) {
    Connected(Links(pool, threshold, window), p.id, q.id) && Linked(pool, threshold, window, q, r) ==>
      (Close(threshold, p, q) ==> Close(threshold, p, r))
  }

  lemma {:induction false} StepwisePathClose(pool: set<Photo>, threshold: int, window: Time, path: seq<PhotoId>,
                                             p: Photo, q: Photo)
    requires UniqueIds(pool) && p in pool && q in pool && threshold >= 0 && StepwiseClose(pool, threshold, window)
    requires Joins(Links(pool, threshold, window), path, p.id, q.id)
    ensures Close(threshold, p, q)
    decreases |path|
  {
    var links := Links(pool, threshold, window);
    if |path| == 1 {
      DHash.DistanceIsMetric(HashOf(p), HashOf(q), HashOf(p));
    } else {
      var front := path[..|path| - 1];
      assert (path[|path| - 2], path[|path| - 1]) in links;
      var r :| r in pool && r.id == path[|path| - 2];
      LinkOf(pool, threshold, window, r, q);
      assert forall i :: 0 <= i < |front| - 1 ==> (front[i], front[i + 1]) == (path[i], path[i + 1]);
      assert Joins(links, front, p.id, r.id);
      StepwisePathClose(pool, threshold, window, front, p, r);
      assert CarriesOver(pool, threshold, window, p, r, q);
    }
  }

  lemma StepwiseIsPairwise(photos: seq<Photo>, threshold: int, window: Time, out: seq<Cluster>)
    requires DistinctIds(photos) && IsResult(photos, threshold, window, out)
    requires StepwiseClose(Pool(photos), threshold, window)
    ensures PairwiseClose(threshold, out)
  {
    var pool := Pool(photos);
    var links := Links(pool, threshold, window);
    PoolOf(photos);
    LinksSymmetric(pool, threshold, window);
    forall c, p, q | c in out && p in c.photos && q in c.photos
      ensures Close(threshold, p, q)
    {
      var a, b := ClusterHasLink(pool, links, c);
      TogetherConnected(pool, links, out, c, p, q);
      var path :| Joins(links, path, p.id, q.id);
      StepwisePathClose(pool, threshold, window, path, p, q);
    }
  }

  lemma PairwiseStep(photos: seq<Photo>, threshold: int, window: Time, out: seq<Cluster>, p: Photo, q: Photo, r: Photo)
    requires DistinctIds(photos) && IsResult(photos, threshold, window, out) && PairwiseClose(threshold, out)
    requires p in Pool(photos) && q in Pool(photos) && r in Pool(photos)
    requires Connected(Links(Pool(photos), threshold, window), p.id, q.id) &&
      Linked(Pool(photos), threshold, window, q, r)
    ensures Close(threshold, p, r)
  {
    var pool := Pool(photos);
    var links := Links(pool, threshold, window);
    PoolOf(photos);
    LinkOf(pool, threshold, window, q, r);
    ConnectedStep(links, q.id, r.id);
    ConnectedTrans(links, p.id, q.id, r.id);
    if p == r {
      DHash.DistanceIsMetric(HashOf(p), HashOf(r), HashOf(p));
    } else {
      var c := ClusterOf(pool, links, out, p, r);
    }
  }

  /** Whatever the window, the members of all clusters are pairwise close if and only if closeness carries
      over every link of a cluster. */
  lemma PairwiseIfAndOnlyIfStepwise(photos: seq<Photo>, threshold: int, window: Time, out: seq<Cluster>)
    requires DistinctIds(photos) && IsResult(photos, threshold, window, out)
    ensures PairwiseClose(threshold, out) <==> StepwiseClose(Pool(photos), threshold, window)
  {
    var pool := Pool(photos);
    if StepwiseClose(pool, threshold, window) {
      StepwiseIsPairwise(photos, threshold, window, out);
    }
    if PairwiseClose(threshold, out) {
      forall p, q, r | p in pool && q in pool && r in pool
        ensures CarriesOver(pool, threshold, window, p, q, r)
      {
        if Connected(Links(pool, threshold, window), p.id, q.id) && Linked(pool, threshold, window, q, r) {
          PairwiseStep(photos, threshold, window, out, p, q, r);
        }
      }
    }
  }

  /** In particular if closeness is transitive. */
  lemma TransitiveIsPairwise(photos: seq<Photo>, threshold: int, window: Time, out: seq<Cluster>)
    requires DistinctIds(photos) && IsResult(photos, threshold, window, out)
    requires TransitivelyClose(Pool(photos), threshold)
    ensures PairwiseClose(threshold, out)
  {
    StepwiseIsPairwise(photos, threshold, window, out);
  }

  /** Two links with a common end put their other ends into one cluster. */
  lemma TwoLinksTogether(photos: seq<Photo>, threshold: int, window: Time, out: seq<Cluster>, p: Photo, q: Photo,
                         r: Photo)
    returns (c: Cluster)
    requires DistinctIds(photos) && IsResult(photos, threshold, window, out)
    requires p in Pool(photos) && q in Pool(photos) && r in Pool(photos) && p != r
    requires Linked(Pool(photos), threshold, window, p, q) && Linked(Pool(photos), threshold, window, q, r)
    ensures c in out && p in c.photos && r in c.photos
  {
    var links := Links(Pool(photos), threshold, window);
    PoolOf(photos);
    LinkOf(Pool(photos), threshold, window, p, q);
    LinkOf(Pool(photos), threshold, window, q, r);
    ConnectedStep(links, p.id, q.id);
    ConnectedStep(links, q.id, r.id);
    ConnectedTrans(links, p.id, q.id, r.id);
    c := ClusterOf(Pool(photos), links, out, p, r);
  }

  /** Without a window the members of all clusters are pairwise close if and only if closeness is
      transitive among the eligible photos. */
  lemma PairwiseIfAndOnlyIfTransitive(photos: seq<Photo>, threshold: int, window: Time, out: seq<Cluster>)
    requires DistinctIds(photos) && window <= 0 && IsResult(photos, threshold, window, out)
    ensures PairwiseClose(threshold, out) <==> TransitivelyClose(Pool(photos), threshold)
  {
    var pool := Pool(photos);
    if TransitivelyClose(pool, threshold) {
      TransitiveIsPairwise(photos, threshold, window, out);
    }
    if PairwiseClose(threshold, out) {
      forall p, q, r | p in pool && q in pool && r in pool && Close(threshold, p, q) && Close(threshold, q, r)
        ensures Close(threshold, p, r)
      {
        TwoStepsClose(photos, threshold, window, out, p, q, r);
      }
    }
  }

  lemma TwoStepsClose(photos: seq<Photo>, threshold: int, window: Time, out: seq<Cluster>, p: Photo, q: Photo, r: Photo)
    requires DistinctIds(photos) && window <= 0 && IsResult(photos, threshold, window, out)
    requires PairwiseClose(threshold, out)
    requires p in Pool(photos) && q in Pool(photos) && r in Pool(photos) && Close(threshold, p, q) &&
      Close(threshold, q, r)
    ensures Close(threshold, p, r)
  {
    var pool := Pool(photos);
    if p == r {
      DHash.DistanceIsMetric(HashOf(p), HashOf(r), HashOf(p));
    } else if p != q && q != r {
      var c := TwoLinksTogether(photos, threshold, window, out, p, q, r);
    }
  }

  // ---------- Hashes in a row ----------

  /** Alternating bits, the first `n` of them flipped.  No such hash is zero. */
  function Row(n: nat): DHash.Hash {
    DHash.Hash(seq(64, k => (k % 2 == 0) != (k < n)), seq(64, k => (k % 2 == 0) != (k + 64 < n)))
  }

  /** How many of 0, ..., n - 1 are below `b`. */
  function Below(n: nat, b: int): nat {
    if b <= 0 then 0 else if b >= n then n else b
  }

  /** How many of `x`'s first bits are set if exactly those from `a` up to `b` are. */
  lemma {:induction false} OnesBetween(x: seq<bool>, a: int, b: int)
    requires a <= b && forall k :: 0 <= k < |x| ==> (x[k] <==> a <= k < b)
    ensures DHash.OnesCount(x) == Below(|x|, b) - Below(|x|, a)
    decreases |x|
  {
    if x != [] {
      OnesBetween(x[1..], a - 1, b - 1);
    }
  }

  lemma RowDistance(m: nat, n: nat)
    requires m <= n <= 128
    ensures DHash.Distance(Row(m), Row(n)) == n - m && DHash.Distance(Row(n), Row(m)) == n - m
  {
    OnesBetween(DHash.Xor(Row(m).h, Row(n).h), m, n);
    OnesBetween(DHash.Xor(Row(m).v, Row(n).v), m - 64, n - 64);
    DHash.DistanceIsMetric(Row(m), Row(n), Row(m));
  }

  function InRow(id: PhotoId, time: Time, n: nat): Photo {
    Dated(id, time, Row(n).h).(dhashV := Row(n).v)
  }

  lemma InRowEligible(id: PhotoId, time: Time, n: nat)
    ensures Eligible(InRow(id, time, n))
  {
    var h := Row(n).h;
    assert h[1] || h[2];
    assert !ZeroWord()[1] && !ZeroWord()[2];
  }

  // ---------- The promise fails ----------

  function Least(a: nat, b: nat): nat {
    if a <= b then a else b
  }

  lemma ThirdOfChain(threshold: nat)
    requires 0 < threshold < 128
    ensures Close(threshold, InRow(0, 0, 0), InRow(1, 0, threshold))
    ensures Close(threshold, InRow(1, 0, threshold), InRow(2, 0, Least(2 * threshold, 128)))
    ensures !Close(threshold, InRow(0, 0, 0), InRow(2, 0, Least(2 * threshold, 128)))
  {
    RowDistance(0, threshold);
    RowDistance(threshold, Least(2 * threshold, 128));
    RowDistance(0, Least(2 * threshold, 128));
  }

  /** For every threshold that is neither zero nor as large as any distance, three photos that are
      clustered together although the first and the last are not within the threshold. */
  lemma ChainIsNotPairwise(threshold: nat, out: seq<Cluster>) returns (c: Cluster)
    requires 0 < threshold < 128
    requires IsResult([InRow(0, 0, 0), InRow(1, 0, threshold), InRow(2, 0, Least(2 * threshold, 128))], threshold, 0,
                      out)
    ensures c in out && InRow(0, 0, 0) in c.photos && InRow(2, 0, Least(2 * threshold, 128)) in c.photos
    ensures !Close(threshold, InRow(0, 0, 0), InRow(2, 0, Least(2 * threshold, 128)))
  {
    InRowEligible(0, 0, 0);
    InRowEligible(1, 0, threshold);
    InRowEligible(2, 0, Least(2 * threshold, 128));
    ThirdOfChain(threshold);
    c := UndatedTogether(InRow(0, 0, 0), InRow(1, 0, threshold), InRow(2, 0, Least(2 * threshold, 128)), threshold,
                         out);
  }

  lemma UndatedTogether(p: Photo, q: Photo, r: Photo, threshold: int, out: seq<Cluster>) returns (c: Cluster)
    requires p.id != q.id && q.id != r.id && p.id != r.id && Eligible(p) && Eligible(q) && Eligible(r)
    requires Close(threshold, p, q) && Close(threshold, q, r)
    requires IsResult([p, q, r], threshold, 0, out)
    ensures c in out && p in c.photos && r in c.photos
  {
    var photos := [p, q, r];
    assert p in photos && q in photos && r in photos;
    c := TwoLinksTogether(photos, threshold, 0, out, p, q, r);
  }

  /** For every other threshold the promise holds for all photos. */
  lemma ExtremeThresholdsArePairwise(photos: seq<Photo>, threshold: int, window: Time, out: seq<Cluster>)
    requires DistinctIds(photos) && IsResult(photos, threshold, window, out)
    requires threshold <= 0 || threshold >= 128
    ensures PairwiseClose(threshold, out)
  {
    var pool := Pool(photos);
    forall p, q, r | p in pool && q in pool && r in pool && Close(threshold, p, q) && Close(threshold, q, r)
      ensures Close(threshold, p, r)
    {
      DHash.DistanceIsMetric(HashOf(p), HashOf(q), HashOf(r));
    }
    TransitiveIsPairwise(photos, threshold, window, out);
  }

  // ---------- The bound on the distance is reached ----------

  /** `m` photos, each `threshold` away from the one before it. */
  function Chain(m: nat, threshold: nat): (r: seq<Photo>)
    ensures |r| == m && forall i :: 0 <= i < m ==> r[i] == InRow(i, 0, i * threshold)
  {
    seq(m, i requires 0 <= i < m => InRow(i, 0, i * threshold))
  }

  /** Undated photos numbered in order, each close to the next. */
  ghost predicate IsChain(photos: seq<Photo>, threshold: int) {
    && (forall i :: 0 <= i < |photos| ==> photos[i].id == i && photos[i].time == 0 && Eligible(photos[i]))
    && (forall i {:trigger photos[i]} :: 0 < i < |photos| ==> Close(threshold, photos[i - 1], photos[i]))
  }

  lemma ChainIsChain(m: nat, threshold: nat)
    requires m >= 1 && (m - 1) * threshold <= 128
    ensures IsChain(Chain(m, threshold), threshold)
  {
    var photos := Chain(m, threshold);
    forall i | 0 <= i < m
      ensures Eligible(photos[i])
    {
      InRowEligible(i, 0, i * threshold);
    }
    forall i {:trigger photos[i]} | 0 < i < m
      ensures Close(threshold, photos[i - 1], photos[i])
    {
      StepsTimesThreshold(i, m - 1, threshold);
      assert i * threshold == (i - 1) * threshold + threshold;
      RowDistance((i - 1) * threshold, i * threshold);
    }
  }

  lemma ChainInPool(photos: seq<Photo>, threshold: int)
    requires IsChain(photos, threshold)
    ensures DistinctIds(photos) && forall p :: p in photos <==> p in Pool(photos)
  {
  }

  lemma {:induction false} ChainConnected(photos: seq<Photo>, threshold: int, window: Time, i: nat)
    requires IsChain(photos, threshold) && i < |photos|
    ensures Connected(Links(Pool(photos), threshold, window), 0, i)
  {
    var pool := Pool(photos);
    var links := Links(pool, threshold, window);
    if i == 0 {
      ConnectedRefl(links, 0);
    } else {
      ChainConnected(photos, threshold, window, i - 1);
      var p, q := photos[i - 1], photos[i];
      ChainInPool(photos, threshold);
      PoolOf(photos);
      assert p in photos && q in photos && Close(threshold, p, q);
      LinkOf(pool, threshold, window, p, q);
      ConnectedStep(links, i - 1, i);
      ConnectedTrans(links, 0, i - 1, i);
    }
  }

  lemma {:induction false} FirstNumbers(m: nat) returns (ids: set<PhotoId>)
    ensures |ids| == m && forall i :: i in ids <==> 0 <= i < m
  {
    if m == 0 {
      ids := {};
    } else {
      ids := FirstNumbers(m - 1);
      ids := ids + {m - 1};
    }
  }

  lemma ChainMemberIds(photos: seq<Photo>, threshold: int, members: seq<Photo>, ids: set<PhotoId>)
    requires IsChain(photos, threshold) && forall p :: p in photos <==> p in members
    requires forall i :: i in ids <==> 0 <= i < |photos|
    ensures ids == set i | 0 <= i < |members| :: members[i].id
  {
    forall i | i in ids
      ensures exists k :: 0 <= k < |members| && members[k].id == i
    {
      assert photos[i] in photos;
      var k :| 0 <= k < |members| && members[k] == photos[i];
    }
    forall k | 0 <= k < |members|
      ensures members[k].id in ids
    {
      assert members[k] in photos;
    }
  }

  /** A cluster that holds every photo of the chain holds nothing else, and each once. */
  lemma ChainClusterSize(photos: seq<Photo>, threshold: int, links: Edges, c: Cluster)
    requires IsChain(photos, threshold) && IsCluster(Pool(photos), links, c)
    requires forall p :: p in photos ==> p in c.photos
    ensures |c.photos| == |photos|
  {
    var ids := FirstNumbers(|photos|);
    ChainMemberIds(photos, threshold, c.photos, ids);
    ImageSize(c.photos, ids);
    forall i, j | 0 <= i < j < |c.photos|
      ensures Ids(c.photos)[i] != Ids(c.photos)[j]
    {
      assert Less(PhotoKeys(c.photos)[i], PhotoKeys(c.photos)[j]);
      assert c.photos[i] in photos && c.photos[j] in photos;
    }
    NoRepeatsFits(Ids(c.photos), ids);
  }

  lemma ChainInOneCluster(photos: seq<Photo>, threshold: int, window: Time, out: seq<Cluster>) returns (c: Cluster)
    requires |photos| >= 2 && IsChain(photos, threshold) && IsResult(photos, threshold, window, out)
    ensures c in out && |c.photos| == |photos| && forall p :: p in photos ==> p in c.photos
  {
    var pool := Pool(photos);
    var links := Links(pool, threshold, window);
    ChainInPool(photos, threshold);
    assert photos[0] in photos && photos[1] in photos;
    ChainConnected(photos, threshold, window, 1);
    c := ClusterOf(pool, links, out, photos[0], photos[1]);
    forall p | p in photos
      ensures p in c.photos
    {
      ChainConnected(photos, threshold, window, p.id);
      ConnectedTrans(links, c.id, 0, p.id);
    }
    ChainClusterSize(photos, threshold, links, c);
  }

  lemma ChainEnds(m: nat, threshold: nat)
    requires m >= 1 && (m - 1) * threshold <= 128
    ensures DHash.Distance(HashOf(Chain(m, threshold)[0]), HashOf(Chain(m, threshold)[m - 1])) == (m - 1) * threshold
  {
    RowDistance(0, (m - 1) * threshold);
    assert HashOf(InRow(0, 0, 0 * threshold)) == Row(0);
  }

  /** A chain whose ends are as far apart as its steps allow. */
  ghost predicate IsStretched(photos: seq<Photo>, threshold: nat) {
    && |photos| >= 2 && IsChain(photos, threshold)
    && DHash.Distance(HashOf(photos[0]), HashOf(photos[|photos| - 1])) == (|photos| - 1) * threshold
  }

  /** There is such a chain of every length, for every threshold for which its ends are no further apart than
      hashes have bits. */
  lemma StretchedExists(m: nat, threshold: nat) returns (photos: seq<Photo>)
    requires m >= 2 && (m - 1) * threshold <= 128
    ensures |photos| == m && IsStretched(photos, threshold)
  {
    photos := Chain(m, threshold);
    ChainIsChain(m, threshold);
    ChainEnds(m, threshold);
  }

  /** On it the bound on the distance of two members is reached, whatever the window. */
  lemma DiameterIsReached(photos: seq<Photo>, threshold: nat, window: Time, out: seq<Cluster>)
    returns (c: Cluster, p: Photo, q: Photo)
    requires IsStretched(photos, threshold) && IsResult(photos, threshold, window, out)
    ensures c in out && |c.photos| == |photos| && p in c.photos && q in c.photos
    ensures DHash.Distance(HashOf(p), HashOf(q)) == (|c.photos| - 1) * threshold
  {
    c := ChainInOneCluster(photos, threshold, window, out);
    p, q := photos[0], photos[|photos| - 1];
    assert p in photos && q in photos;
  }

  // ---------- The window ----------

  /** Two photos not dated before the zero time are clustered if and only if they are close and either there
      is no window, or one of them is undated, or their gap is at most the window. */
  lemma GapUpToWindowIsClustered(p: Photo, q: Photo, threshold: int, window: Time, out: seq<Cluster>)
    requires p.id != q.id && Eligible(p) && Eligible(q) && p.time >= 0 && q.time >= 0
    requires IsResult([p, q], threshold, window, out)
    ensures out != [] <==>
      && DHash.Distance(DHash.Hash(p.dhash, p.dhashV), DHash.Hash(q.dhash, q.dhashV)) <= threshold
      && (window <= 0 || p.time == 0 || q.time == 0 || (q.time - p.time <= window && p.time - q.time <= window))
  {
    var pool := Pool([p, q]);
    var links := Links(pool, threshold, window);
    assert p in [p, q] && q in [p, q];
    PoolOf([p, q]);
    LinkOf(pool, threshold, window, p, q);
    LinkedSymmetric(pool, threshold, window, p, q);
    if Linked(pool, threshold, window, p, q) {
      ConnectedStep(links, p.id, q.id);
      var c := ClusterOf(pool, links, out, p, q);
    } else {
      assert links == {};
      NoLinksNoClusters(pool, out);
    }
  }

  /** So a gap equal to the window is accepted. */
  lemma GapOfWindowIsClustered(n: nat, time: Time, window: Time, out: seq<Cluster>)
    requires time > 0 && window > 0
    requires IsResult([InRow(0, time, n), InRow(1, time + window, n)], 0, window, out)
    ensures out != []
  {
    InRowEligible(0, time, n);
    InRowEligible(1, time + window, n);
    DHash.DistanceIsMetric(Row(n), Row(n), Row(n));
    GapUpToWindowIsClustered(InRow(0, time, n), InRow(1, time + window, n), 0, window, out);
  }
}
