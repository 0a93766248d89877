/** A resolution that is not local: trashing a photo lets the scan reach a pair that the photo kept it
    from, and two clusters become one. */
module Revealed {
  import opened Photos
  import opened Graph
  import opened Dupes
  import opened DupesLaws
  import opened StoreModel
  import opened Handlers
  import opened Pairwise
  import opened Reform

  /** A chain of three photos dated before the zero time, the last of them more than a window after
      the first, and two undated copies of a photo that is close to the first only. */
  ghost predicate Scene(p: Photo, m: Photo, k: Photo, q: Photo, r: Photo, threshold: int, window: Time) {
    && p.id == 0 && m.id == 1 && k.id == 2 && q.id == 3 && r.id == 4
    && Eligible(p) && Eligible(m) && Eligible(k) && Eligible(q) && Eligible(r)
    && window > 0 && q.time == 0 && r.time == 0
    && p.time < m.time < k.time < 0
    && m.time - p.time <= window && k.time - m.time <= window && k.time - p.time > window
    && Near(threshold, window, p, m) && Near(threshold, window, m, k) && Close(threshold, q, r)
    && Close(threshold, p, q) && Close(threshold, p, r)
    && !Close(threshold, m, q) && !Close(threshold, m, r) && !Close(threshold, k, q) && !Close(threshold, k, r)
  }

  // ---------- Before ----------

  ghost predicate IsBefore(pool: set<Photo>, p: Photo, m: Photo, k: Photo, q: Photo, r: Photo, threshold: int,
                           window: Time) {
    Scene(p, m, k, q, r, threshold, window) && pool == {p, m, k, q, r}
  }

  lemma CrossPairsUnlinked(pool: set<Photo>, p: Photo, m: Photo, k: Photo, q: Photo, r: Photo, threshold: int,
                           window: Time, x: Photo, y: Photo)
    requires IsBefore(pool, p, m, k, q, r, threshold, window) && x in {p, m, k} && y in {q, r}
    ensures !Linked(pool, threshold, window, x, y) && !Linked(pool, threshold, window, y, x)
  {
    LinkedSymmetric(pool, threshold, window, x, y);
    if x == p {
      assert k in pool && Cut(pool, window, p, y);
    }
  }

  /** No link leads from the dated photos to the undated ones. */
  lemma SidesUnlinked(pool: set<Photo>, p: Photo, m: Photo, k: Photo, q: Photo, r: Photo, threshold: int, window: Time,
                      a: PhotoId, b: PhotoId)
    requires IsBefore(pool, p, m, k, q, r, threshold, window) && (a, b) in Links(pool, threshold, window)
    ensures a <= 4 && b <= 4 && (a <= 2 <==> b <= 2)
  {
    var x, y :| x in pool && y in pool && Linked(pool, threshold, window, x, y) && (x.id, y.id) == (a, b);
    if x in {p, m, k} && y in {q, r} {
      CrossPairsUnlinked(pool, p, m, k, q, r, threshold, window, x, y);
    } else if y in {p, m, k} && x in {q, r} {
      CrossPairsUnlinked(pool, p, m, k, q, r, threshold, window, y, x);
    }
  }

  lemma SidesUnconnected(links: Edges)
    requires forall a, b :: (a, b) in links ==> a <= 4 && b <= 4 && (a <= 2 <==> b <= 2)
    ensures !Connected(links, 0, 3)
  {
    var side: map<nat, nat> := map[0 := 0, 1 := 0, 2 := 0, 3 := 3, 4 := 3];
    assert forall a, b :: (a, b) in links ==> a in side && b in side && side[a] == side[b];
    if walk :| Joins(links, walk, 0, 3) {
      PathKeepsLabel(links, side, walk);
    }
  }

  /** The numbers 0, 1, 2 are connected, and 3 and 4 are, but not with each other. */
  ghost predicate TwoSides(links: Edges) {
    && Symmetric(links) && !Connected(links, 0, 3)
    && Connected(links, 0, 1) && Connected(links, 1, 2) && Connected(links, 3, 4)
  }

  lemma ConnectedBefore(pool: set<Photo>, p: Photo, m: Photo, k: Photo, q: Photo, r: Photo, threshold: int,
                        window: Time)
    requires IsBefore(pool, p, m, k, q, r, threshold, window)
    ensures UniqueIds(pool) && TwoSides(Links(pool, threshold, window))
  {
    var links := Links(pool, threshold, window);
    LinksSymmetric(pool, threshold, window);
    LinkOf(pool, threshold, window, p, m);
    LinkOf(pool, threshold, window, m, k);
    LinkOf(pool, threshold, window, q, r);
    ConnectedStep(links, 0, 1);
    ConnectedStep(links, 1, 2);
    ConnectedStep(links, 3, 4);
    forall a, b | (a, b) in links
      ensures a <= 4 && b <= 4 && (a <= 2 <==> b <= 2)
    {
      SidesUnlinked(pool, p, m, k, q, r, threshold, window, a, b);
    }
    SidesUnconnected(links);
  }

  /** What is connected to one side is not connected to the other. */
  lemma SidesApart(links: Edges, c: PhotoId)
    requires TwoSides(links)
    ensures Connected(links, c, 0) ==>
      Connected(links, c, 1) && Connected(links, c, 2) && !Connected(links, c, 3) && !Connected(links, c, 4)
    ensures Connected(links, c, 3) ==> !Connected(links, c, 0)
  {
    ConnectedSym(links, c, 0);
    ConnectedSym(links, 3, 4);
    if Connected(links, c, 0) {
      ConnectedTrans(links, c, 0, 1);
      ConnectedTrans(links, c, 1, 2);
      if Connected(links, c, 4) {
        ConnectedTrans(links, c, 4, 3);
      }
      if Connected(links, c, 3) {
        ConnectedTrans(links, 0, c, 3);
      }
    }
  }

  /** The chain is one cluster. */
  lemma ChainCluster(pool: set<Photo>, links: Edges, out: seq<Cluster>, p: Photo, m: Photo, k: Photo, q: Photo,
                     r: Photo)
    returns (c: Cluster)
    requires UniqueIds(pool) && TwoSides(links) && IsClustering(pool, links, out)
    requires p in pool && m in pool && k in pool && q in pool && r in pool
    requires p.id == 0 && m.id == 1 && k.id == 2 && q.id == 3 && r.id == 4
    ensures c in out
    ensures 0 in Ids(c.photos) && 1 in Ids(c.photos) && 2 in Ids(c.photos) && 3 !in Ids(c.photos) && 4 !in Ids(c.photos)
  {
    c := ClusterOf(pool, links, out, p, m);
    SidesApart(links, c.id);
    MemberIds(pool, links, c, p);
    MemberIds(pool, links, c, m);
    MemberIds(pool, links, c, k);
    MemberIds(pool, links, c, q);
    MemberIds(pool, links, c, r);
  }

  /** The two copies are another. */
  lemma CopiesCluster(pool: set<Photo>, links: Edges, out: seq<Cluster>, p: Photo, q: Photo, r: Photo)
    returns (d: Cluster)
    requires UniqueIds(pool) && TwoSides(links) && IsClustering(pool, links, out)
    requires p in pool && q in pool && r in pool && p.id == 0 && q.id == 3 && r.id == 4
    ensures d in out && 3 in Ids(d.photos) && 0 !in Ids(d.photos)
  {
    d := ClusterOf(pool, links, out, q, r);
    SidesApart(links, d.id);
    MemberIds(pool, links, d, p);
    MemberIds(pool, links, d, q);
  }

  /** No cluster has photos of both sides. */
  lemma NoneHasBoth(pool: set<Photo>, links: Edges, out: seq<Cluster>)
    requires UniqueIds(pool) && TwoSides(links) && IsClustering(pool, links, out)
    ensures forall e :: e in out ==> !(0 in Ids(e.photos) && 3 in Ids(e.photos))
  {
    forall e | e in out
      ensures !(0 in Ids(e.photos) && 3 in Ids(e.photos))
    {
      assert IsCluster(pool, links, e);
      if 0 in Ids(e.photos) && 3 in Ids(e.photos) {
        MembersConnected(pool, links, e, 0, 3);
      }
    }
  }

  // ---------- Afterwards ----------

  /** With the other two dated photos gone, the first is linked to both copies. */
  lemma ConnectedAfter(pool: set<Photo>, p: Photo, q: Photo, r: Photo, threshold: int, window: Time)
    requires pool == {p, q, r} && p.id == 0 && q.id == 3 && r.id == 4
    requires window > 0 && p.time < 0 && q.time == 0 && r.time == 0 && Close(threshold, p, q) && Close(threshold, p, r)
    ensures UniqueIds(pool) && Symmetric(Links(pool, threshold, window))
    ensures Connected(Links(pool, threshold, window), 0, 3) && Connected(Links(pool, threshold, window), 0, 4)
  {
    LinksSymmetric(pool, threshold, window);
    LinkOf(pool, threshold, window, p, q);
    LinkOf(pool, threshold, window, p, r);
    ConnectedStep(Links(pool, threshold, window), 0, 3);
    ConnectedStep(Links(pool, threshold, window), 0, 4);
  }

  /** They form one cluster. */
  lemma ClusterAfter(pool: set<Photo>, links: Edges, out: seq<Cluster>, p: Photo, q: Photo, r: Photo)
    returns (d: Cluster)
    requires UniqueIds(pool) && p in pool && q in pool && r in pool && p.id == 0 && q.id == 3 && r.id == 4
    requires IsClustering(pool, links, out) && Symmetric(links) && Connected(links, 0, 3) && Connected(links, 0, 4)
    ensures d in out && p in d.photos && q in d.photos && r in d.photos
  {
    d := ClusterOf(pool, links, out, p, q);
    ConnectedTrans(links, d.id, 0, 4);
  }

  /** And every cluster with one of the copies in it has the first photo. */
  lemma CopyWithFirst(pool: set<Photo>, links: Edges, out: seq<Cluster>, p: Photo, q: Photo)
    requires UniqueIds(pool) && p in pool && q in pool && p.id == 0 && q.id == 3
    requires IsClustering(pool, links, out) && Symmetric(links) && Connected(links, 0, 3)
    ensures forall e :: e in out && 3 in Ids(e.photos) ==> 0 in Ids(e.photos)
  {
    ConnectedSym(links, 0, 3);
    forall e | e in out && 3 in Ids(e.photos)
      ensures 0 in Ids(e.photos)
    {
      assert IsCluster(pool, links, e);
      MemberIds(pool, links, e, q);
      ConnectedTrans(links, e.id, 3, 0);
      MemberIds(pool, links, e, p);
    }
  }

  // ---------- The resolution ----------

  /** The state before and after: the first of the chain was kept, the others trashed. */
  ghost predicate Happens(s: State, s': State, p: Photo, m: Photo, k: Photo, q: Photo, r: Photo) {
    && s.photos == map[0 := p, 1 := m, 2 := k, 3 := q, 4 := r]
    && s'.photos == map[0 := p.(state := Kept), 1 := m.(state := Trashed), 2 := k.(state := Trashed), 3 := q, 4 := r]
    && s'.settings == s.settings
    && Scene(p, m, k, q, r, s.settings.dupeThreshold, s.settings.dupeTimeWindow)
    && Undecided(p) && Undecided(m) && Undecided(k) && Undecided(q) && Undecided(r)
  }

  lemma PoolBefore(s: State, p: Photo, m: Photo, k: Photo, q: Photo, r: Photo, photos: seq<Photo>)
    requires s.photos == map[0 := p, 1 := m, 2 := k, 3 := q, 4 := r] && Lists(s.photos, photos)
    requires Scene(p, m, k, q, r, s.settings.dupeThreshold, s.settings.dupeTimeWindow)
    ensures Pool(photos) == {p, m, k, q, r}
  {
    assert s.photos[0] == p && s.photos[1] == m && s.photos[2] == k && s.photos[3] == q && s.photos[4] == r;
  }

  lemma PoolAfter(s: State, s': State, p: Photo, m: Photo, k: Photo, q: Photo, r: Photo, photos': seq<Photo>)
    requires Happens(s, s', p, m, k, q, r) && Lists(s'.photos, photos')
    ensures Pool(photos') == {p.(state := Kept), q, r}
  {
    assert s'.photos[0] == p.(state := Kept) && s'.photos[3] == q && s'.photos[4] == r;
    assert s'.photos[1].state == Trashed && s'.photos[2].state == Trashed;
  }

  /** What is found before. */
  lemma FoundBefore(s: State, s': State, p: Photo, m: Photo, k: Photo, q: Photo, r: Photo, photos: seq<Photo>,
                    out: seq<Cluster>)
    returns (c: Cluster, d: Cluster)
    requires Happens(s, s', p, m, k, q, r) && Found(s, photos, out)
    ensures c in out
    ensures 0 in Ids(c.photos) && 1 in Ids(c.photos) && 2 in Ids(c.photos) && 3 !in Ids(c.photos) && 4 !in Ids(c.photos)
    ensures d in out && 3 in Ids(d.photos) && 0 !in Ids(d.photos)
    ensures forall e :: e in out ==> !(0 in Ids(e.photos) && 3 in Ids(e.photos))
  {
    var pool, links := Pool(photos), LinksIn(s, photos);
    PoolBefore(s, p, m, k, q, r, photos);
    ConnectedBefore(pool, p, m, k, q, r, s.settings.dupeThreshold, s.settings.dupeTimeWindow);
    c := ChainCluster(pool, links, out, p, m, k, q, r);
    d := CopiesCluster(pool, links, out, p, q, r);
    NoneHasBoth(pool, links, out);
  }

  /** What is found afterwards. */
  lemma FoundAfter(s: State, s': State, p: Photo, m: Photo, k: Photo, q: Photo, r: Photo, photos': seq<Photo>,
                   out': seq<Cluster>)
    returns (d': Cluster)
    requires Happens(s, s', p, m, k, q, r) && Found(s', photos', out')
    ensures d' in out' && 0 in Ids(d'.photos) && 3 in Ids(d'.photos) && q in d'.photos && r in d'.photos
    ensures forall e :: e in out' && 3 in Ids(e.photos) ==> 0 in Ids(e.photos)
  {
    var kept, pool, links := p.(state := Kept), Pool(photos'), LinksIn(s', photos');
    PoolAfter(s, s', p, m, k, q, r, photos');
    ConnectedAfter(pool, kept, q, r, s.settings.dupeThreshold, s.settings.dupeTimeWindow);
    d' := ClusterAfter(pool, links, out', kept, q, r);
    MemberId(d', kept);
    MemberId(d', q);
    CopyWithFirst(pool, links, out', kept, q);
  }

  /** The photos are the same but for the states of the first three. */
  lemma HappensTo(s: State, s': State, p: Photo, m: Photo, k: Photo, q: Photo, r: Photo, id: PhotoId)
    requires Happens(s, s', p, m, k, q, r)
    requires id in s.photos && id in s'.photos
    ensures id <= 4 && s.photos[id].id == id && s'.photos[id] == s.photos[id].(state := s'.photos[id].state)
    ensures if id <= 2 then s'.photos[id].state != Unsorted else s'.photos[id].state == s.photos[id].state
  {
  }

  lemma HappensKeys(s: State, s': State, p: Photo, m: Photo, k: Photo, q: Photo, r: Photo)
    requires Happens(s, s', p, m, k, q, r)
    ensures s.photos.Keys == s'.photos.Keys == {0, 1, 2, 3, 4}
  {
  }

  lemma HappensResolves(s: State, s': State, p: Photo, m: Photo, k: Photo, q: Photo, r: Photo, c: Cluster)
    requires Happens(s, s', p, m, k, q, r)
    requires 0 in Ids(c.photos) && 1 in Ids(c.photos) && 2 in Ids(c.photos) && 3 !in Ids(c.photos) &&
      4 !in Ids(c.photos)
    ensures Resolved(s.photos, s'.photos, c) && KeyedById(s.photos) && KeyedById(s'.photos)
  {
    HappensKeys(s, s', p, m, k, q, r);
    forall id | id in s.photos
      ensures s.photos[id].id == id && s'.photos[id].id == id && IndexOf(s.photos[id]) == IndexOf(s'.photos[id])
      ensures if id in Ids(c.photos) then s'.photos[id].state != Unsorted else s'.photos[id].state == s.photos[id].state
    {
      HappensTo(s, s', p, m, k, q, r, id);
      assert id in {0, 1, 2, 3, 4};
    }
  }

  lemma OpenForFirst(d': Cluster, q: Photo, r: Photo)
    requires 0 in Ids(d'.photos) && q in d'.photos && r in d'.photos && q != r && Undecided(q) && Undecided(r)
    ensures IsOpenFor(d', 0)
  {
    TwoUndecided(d'.photos, q, r);
    var p := MemberById(d', 0);
    var i :| 0 <= i < |d'.photos| && d'.photos[i] == p;
  }

  /** The cluster of the chain is resolved; but the other cluster does not remain, the cluster found
      instead is neither old nor part of the resolved one, and it is offered although a member of the
      resolved one is in it. */
  lemma ResolvingIsNotLocal(s: State, s': State, p: Photo, m: Photo, k: Photo, q: Photo, r: Photo,
                            photos: seq<Photo>, out: seq<Cluster>, photos': seq<Photo>, out': seq<Cluster>)
    returns (c: Cluster, d: Cluster, d': Cluster)
    requires Happens(s, s', p, m, k, q, r)
    requires Found(s, photos, out) && Found(s', photos', out')
    ensures Resolution(s, s', photos, out, photos', out', c)
    ensures d in out && d.id != c.id && !Remains(out', d)
    ensures d' in out' && !IsOther(out, c, d') && !IsDecidedPart(c, d')
    ensures 0 in Ids(c.photos) && IsOpenFor(d', 0)
  {
    c, d := FoundBefore(s, s', p, m, k, q, r, photos, out);
    d' := FoundAfter(s, s', p, m, k, q, r, photos', out');
    HappensResolves(s, s', p, m, k, q, r, c);
    OpenForFirst(d', q, r);
    DifferentIds(s, photos, out, c, d);
  }

  lemma DifferentIds(s: State, photos: seq<Photo>, out: seq<Cluster>, c: Cluster, d: Cluster)
    requires Found(s, photos, out) && c in out && d in out
    requires 0 in Ids(c.photos) && 0 !in Ids(d.photos)
    ensures c.id != d.id
  {
    var pool, links := Pool(photos), LinksIn(s, photos);
    PoolOf(photos);
    if c.id == d.id {
      var p := MemberById(c, 0);
      assert IsCluster(pool, links, c) && IsCluster(pool, links, d);
      MemberIds(pool, links, d, p);
    }
  }

  lemma MakeInRow(id: PhotoId, time: Time, n: nat) returns (p: Photo)
    ensures p.id == id && p.time == time && Eligible(p) && Undecided(p) && HashOf(p) == Row(n)
  {
    p := InRow(id, time, n);
    InRowEligible(id, time, n);
  }

  lemma RowIsClose(threshold: int, p: Photo, m: nat, q: Photo, n: nat)
    requires m <= 128 && n <= 128 && HashOf(p) == Row(m) && HashOf(q) == Row(n)
    ensures Close(threshold, p, q) <==> (if m <= n then n - m else m - n) <= threshold
  {
    RowDistance(if m <= n then m else n, if m <= n then n else m);
  }

  /** There are such photos, all undecided: at the default threshold of 35 and with a window of an hour. */
  lemma SceneExists() returns (p: Photo, m: Photo, k: Photo, q: Photo, r: Photo)
    ensures Scene(p, m, k, q, r, 35, HOUR)
    ensures Undecided(p) && Undecided(m) && Undecided(k) && Undecided(q) && Undecided(r)
  {
    p := MakeInRow(0, -2 * HOUR, 35);
    m := MakeInRow(1, -HOUR, 70);
    k := MakeInRow(2, -SECOND, 105);
    q := MakeInRow(3, 0, 0);
    r := MakeInRow(4, 0, 0);
    RowIsClose(35, p, 35, m, 70);
    RowIsClose(35, m, 70, k, 105);
    RowIsClose(35, q, 0, r, 0);
    RowIsClose(35, p, 35, q, 0);
    RowIsClose(35, p, 35, r, 0);
    RowIsClose(35, m, 70, q, 0);
    RowIsClose(35, m, 70, r, 0);
    RowIsClose(35, k, 105, q, 0);
    RowIsClose(35, k, 105, r, 0);
  }
}
