/** How the clusters change when a cluster is resolved, and that undo forms them again. */
module Reform {
  import opened Photos
  import opened Graph
  import Sorting
  import opened Dupes
  import opened DupesLaws
  import opened Thinning
  import opened StoreModel
  import opened StoreRuns
  import UndoLaws
  import opened Handlers

  // ---------- Resolving a cluster ----------

  /** The fields of a photo that decisions do not touch and clustering looks at. */
  datatype Index = Index(id: PhotoId, sizeBytes: int, dhash: Word, dhashV: Word, hashVersion: int, dhashedAt: Time,
                         time: Time)

  function IndexOf(p: Photo): Index {
    Index(p.id, p.sizeBytes, p.dhash, p.dhashV, p.hashVersion, p.dhashedAt, p.time)
  }

  ghost predicate SameIndex(photos: map<PhotoId, Photo>, others: map<PhotoId, Photo>) {
    && photos.Keys == others.Keys
    && forall id :: id in photos ==> IndexOf(photos[id]) == IndexOf(others[id])
  }

  /** Every undecided member of the cluster has been decided, and no other photo's state changed. */
  ghost predicate Resolved(photos: map<PhotoId, Photo>, others: map<PhotoId, Photo>, c: Cluster) {
    && SameIndex(photos, others)
    && (forall id :: id in photos && id !in Ids(c.photos) ==> others[id].state == photos[id].state)
    && (forall id :: id in photos && id in Ids(c.photos) ==> others[id].state != Unsorted)
  }

  /** The photos that take part in clustering. */
  ghost function Candidates(photos: map<PhotoId, Photo>): set<Photo> {
    set id | id in photos && Eligible(photos[id]) :: photos[id]
  }

  lemma CandidatesArePool(photos: map<PhotoId, Photo>, list: seq<Photo>)
    requires Lists(photos, list) && KeyedById(photos)
    ensures Pool(list) == Candidates(photos) && UniqueIds(Pool(list))
  {
    forall p | p in Candidates(photos)
      ensures p in Pool(list)
    {
      var id :| id in photos && photos[id] == p;
    }
  }

  /** A close pair of photos of the second pool that the scan of the first pool missed, as something
      cut it off, and that the scan of the second reaches, as nothing there does. */
  ghost predicate Uncut(pool: set<Photo>, other: set<Photo>, threshold: int, window: Time, p: Photo, q: Photo) {
    && p in other && q in other && Close(threshold, p, q)
    && Cut(pool, window, p, q) && !Cut(other, window, p, q)
  }

  /** Every pair that ceases to be cut is in one cluster already. */
  ghost predicate JoinsNothing(pool: set<Photo>, other: set<Photo>, threshold: int, window: Time) {
    forall p, q :: Uncut(pool, other, threshold, window, p, q) ==> Connected(Links(pool, threshold, window), p.id, q.id)
  }

  /** Going from the first state to the second does not bring a pair of photos into the scan that is
      not in one cluster already. */
  ghost predicate RevealsNothing(s: State, s': State) {
    JoinsNothing(Candidates(s.photos), Candidates(s'.photos), s.settings.dupeThreshold, s.settings.dupeTimeWindow)
  }

  lemma NoCutPairNothingRevealed(s: State, s': State)
    requires Faces(Candidates(s'.photos)) <= Faces(Candidates(s.photos))
    requires !HasCutPair(Candidates(s.photos), s.settings.dupeThreshold, s.settings.dupeTimeWindow)
    ensures RevealsNothing(s, s')
  {
    var pool, other := Candidates(s.photos), Candidates(s'.photos);
    var threshold, window := s.settings.dupeThreshold, s.settings.dupeTimeWindow;
    if p', q' :| Uncut(pool, other, threshold, window, p', q') {
      assert FaceOf(p') in Faces(other) && FaceOf(q') in Faces(other);
      var p := FaceIn(pool, FaceOf(p'));
      var q := FaceIn(pool, FaceOf(q'));
      assert Close(threshold, p, q) && Cut(pool, window, p, q);
    }
  }

  /** A linked pair of the second pool that was not cut in the first was linked there. */
  lemma UncutLinkIsOld(pool: set<Photo>, other: set<Photo>, threshold: int, window: Time, p': Photo, q': Photo)
    requires UniqueIds(pool) && Faces(other) <= Faces(pool)
    requires p' in other && q' in other && p'.id != q'.id && Near(threshold, window, p', q')
    requires !Cut(pool, window, p', q') && !Cut(pool, window, q', p')
    ensures (p'.id, q'.id) in Links(pool, threshold, window)
  {
    assert FaceOf(p') in Faces(other) && FaceOf(q') in Faces(other);
    var p := FaceIn(pool, FaceOf(p'));
    var q := FaceIn(pool, FaceOf(q'));
    LinkOf(pool, threshold, window, p, q);
  }

  /** A link of the second graph joins photos that were connected in the first. */
  lemma LinkedPairWasConnected(pool: set<Photo>, other: set<Photo>, threshold: int, window: Time, p': Photo, q': Photo)
    requires UniqueIds(pool) && UniqueIds(other) && Faces(other) <= Faces(pool) &&
      JoinsNothing(pool, other, threshold, window)
    requires p' in other && q' in other && Linked(other, threshold, window, p', q')
    ensures Connected(Links(pool, threshold, window), p'.id, q'.id)
  {
    var links := Links(pool, threshold, window);
    if Cut(pool, window, p', q') {
      assert Uncut(pool, other, threshold, window, p', q');
    } else if Cut(pool, window, q', p') {
      LinkedSymmetric(other, threshold, window, p', q');
      assert Uncut(pool, other, threshold, window, q', p');
      LinksSymmetric(pool, threshold, window);
      ConnectedSym(links, p'.id, q'.id);
    } else {
      UncutLinkIsOld(pool, other, threshold, window, p', q');
      ConnectedStep(links, p'.id, q'.id);
    }
  }

  lemma LinksStayInside(pool: set<Photo>, other: set<Photo>, threshold: int, window: Time)
    requires UniqueIds(pool) && UniqueIds(other) && Faces(other) <= Faces(pool) &&
      JoinsNothing(pool, other, threshold, window)
    ensures forall a, b :: (a, b) in Links(other, threshold, window) ==> Connected(Links(pool, threshold, window), a, b)
  {
    forall a, b | (a, b) in Links(other, threshold, window)
      ensures Connected(Links(pool, threshold, window), a, b)
    {
      var p', q' :| p' in other && q' in other && Linked(other, threshold, window, p', q') && (p'.id, q'.id) == (a, b);
      LinkedPairWasConnected(pool, other, threshold, window, p', q');
    }
  }

  lemma CutBySomeFace(pool: set<Photo>, other: set<Photo>, window: Time, p: Photo, q: Photo)
    requires Faces(other) <= Faces(pool)
    ensures Cut(other, window, p, q) ==> Cut(pool, window, p, q)
  {
    if Cut(other, window, p, q) {
      var k' :| k' in other && k'.time < 0 && k'.time - p.time > window;
      assert FaceOf(k') in Faces(other);
      var k := FaceIn(pool, FaceOf(k'));
      assert k.time == FaceOf(k).time == k'.time;
    }
  }

  /** A link between photos that both stay is a link afterwards. */
  lemma LinkStays(pool: set<Photo>, other: set<Photo>, threshold: int, window: Time, p: Photo, q: Photo)
    requires UniqueIds(other) && Faces(other) <= Faces(pool)
    requires Linked(pool, threshold, window, p, q) && p.id != q.id && FaceOf(p) in Faces(other) &&
      FaceOf(q) in Faces(other)
    ensures (p.id, q.id) in Links(other, threshold, window)
  {
    var p' := FaceIn(other, FaceOf(p));
    var q' := FaceIn(other, FaceOf(q));
    CutBySomeFace(pool, other, window, p', q');
    CutBySomeFace(pool, other, window, q', p');
    LinkOf(other, threshold, window, p', q');
  }

  lemma MemberIds(pool: set<Photo>, links: Edges, c: Cluster, p: Photo)
    requires UniqueIds(pool) && IsCluster(pool, links, c) && p in pool
    ensures p.id in Ids(c.photos) <==> Connected(links, c.id, p.id)
  {
    if p.id in Ids(c.photos) {
      var i :| 0 <= i < |c.photos| && Ids(c.photos)[i] == p.id;
      assert c.photos[i] in c.photos;
    }
    if Connected(links, c.id, p.id) {
      assert p in c.photos;
      var i :| 0 <= i < |c.photos| && c.photos[i] == p;
      assert Ids(c.photos)[i] == p.id;
    }
  }

  /** The face of a photo that takes part after the resolution took part before. */
  lemma ResolvedFaces(s: State, s': State, photos: seq<Photo>, photos': seq<Photo>, links: Edges, c: Cluster)
    requires Lists(s.photos, photos) && Lists(s'.photos, photos') && KeyedById(s.photos) && KeyedById(s'.photos)
    requires Resolved(s.photos, s'.photos, c)
    requires IsCluster(Pool(photos), links, c)
    ensures Faces(Pool(photos')) <= Faces(Pool(photos))
  {
    var pool, other := Pool(photos), Pool(photos');
    forall f | f in Faces(other)
      ensures f in Faces(pool)
    {
      var p' := FaceIn(other, f);
      var p := s.photos[p'.id];
      assert IndexOf(p) == IndexOf(s'.photos[p'.id]);
      if p.id in Ids(c.photos) {
        var i :| 0 <= i < |c.photos| && Ids(c.photos)[i] == p.id;
        assert c.photos[i] in c.photos && c.photos[i] in photos;
      }
      assert p in pool && FaceOf(p) == f;
    }
  }

  /** Photos outside the resolved cluster take part as before. */
  lemma OutsideFaceStays(s: State, s': State, photos: seq<Photo>, photos': seq<Photo>, links: Edges, c: Cluster,
                         p: Photo)
    requires Lists(s.photos, photos) && Lists(s'.photos, photos') && KeyedById(s.photos) && KeyedById(s'.photos)
    requires Resolved(s.photos, s'.photos, c)
    requires IsCluster(Pool(photos), links, c)
    requires p in Pool(photos) && !Connected(links, c.id, p.id)
    ensures FaceOf(p) in Faces(Pool(photos'))
  {
    PoolOf(photos);
    MemberIds(Pool(photos), links, c, p);
    var p' := s'.photos[p.id];
    assert IndexOf(p') == IndexOf(s.photos[p.id]);
    assert p' in Pool(photos') && FaceOf(p') == FaceOf(p);
  }

  lemma LinkOutsideStays(s: State, s': State, photos: seq<Photo>, photos': seq<Photo>, c: Cluster, a: PhotoId,
                         b: PhotoId)
    requires Lists(s.photos, photos) && Lists(s'.photos, photos') && KeyedById(s.photos) && KeyedById(s'.photos)
    requires Resolved(s.photos, s'.photos, c) && Faces(Pool(photos')) <= Faces(Pool(photos))
    requires IsCluster(Pool(photos), Links(Pool(photos), s.settings.dupeThreshold, s.settings.dupeTimeWindow), c)
    requires (a, b) in Links(Pool(photos), s.settings.dupeThreshold, s.settings.dupeTimeWindow)
    requires !Connected(Links(Pool(photos), s.settings.dupeThreshold, s.settings.dupeTimeWindow), c.id, a)
    ensures (a, b) in Links(Pool(photos'), s.settings.dupeThreshold, s.settings.dupeTimeWindow)
  {
    var pool, threshold, window := Pool(photos), s.settings.dupeThreshold, s.settings.dupeTimeWindow;
    var links := Links(pool, threshold, window);
    LinksSymmetric(pool, threshold, window);
    PoolOf(photos);
    PoolOf(photos');
    var p, q :| p in pool && q in pool && Linked(pool, threshold, window, p, q) && (p.id, q.id) == (a, b);
    if Connected(links, c.id, b) {
      ConnectedStep(links, b, a);
      ConnectedTrans(links, c.id, b, a);
    }
    OutsideFaceStays(s, s', photos, photos', links, c, p);
    OutsideFaceStays(s, s', photos, photos', links, c, q);
    LinkStays(pool, Pool(photos'), threshold, window, p, q);
  }

  /** The graph that is clustered in a state. */
  ghost function LinksIn(s: State, photos: seq<Photo>): Edges {
    Links(Pool(photos), s.settings.dupeThreshold, s.settings.dupeTimeWindow)
  }

  /** Both clusterings in one look: before and after the members of `c` were decided. */
  ghost predicate Resolution(s: State, s': State, photos: seq<Photo>, out: seq<Cluster>,
                             photos': seq<Photo>, out': seq<Cluster>, c: Cluster) {
    && KeyedById(s.photos) && KeyedById(s'.photos) && s'.settings == s.settings
    && Found(s, photos, out) && Found(s', photos', out') && c in out
    && Resolved(s.photos, s'.photos, c)
  }

  lemma ResolvedSituation(s: State, s': State, photos: seq<Photo>, out: seq<Cluster>,
                          photos': seq<Photo>, out': seq<Cluster>, c: Cluster)
    requires Resolution(s, s', photos, out, photos', out', c) && RevealsNothing(s, s')
    ensures Situation(Pool(photos), Pool(photos'), LinksIn(s, photos), LinksIn(s', photos'), c.id, out, out')
    ensures IsCluster(Pool(photos), LinksIn(s, photos), c)
  {
    var links, rest := LinksIn(s, photos), LinksIn(s', photos');
    var threshold, window := s.settings.dupeThreshold, s.settings.dupeTimeWindow;
    CandidatesArePool(s.photos, photos);
    CandidatesArePool(s'.photos, photos');
    ResolvedFaces(s, s', photos, photos', links, c);
    LinksSymmetric(Pool(photos), threshold, window);
    LinksSymmetric(Pool(photos'), threshold, window);
    forall p | p in Pool(photos) && !Connected(links, c.id, p.id)
      ensures FaceOf(p) in Faces(Pool(photos'))
    {
      OutsideFaceStays(s, s', photos, photos', links, c, p);
    }
    LinksStayInside(Pool(photos), Pool(photos'), threshold, window);
    forall a, b | (a, b) in links && !Connected(links, c.id, a)
      ensures (a, b) in rest
    {
      LinkOutsideStays(s, s', photos, photos', c, a, b);
    }
  }

  /** The same cluster, by ID, members and order. */
  predicate SameCluster(d: Cluster, d': Cluster) {
    d'.id == d.id && Ids(d'.photos) == Ids(d.photos)
  }

  /** `d` is found again. */
  ghost predicate Remains(out': seq<Cluster>, d: Cluster) {
    exists d' :: d' in out' && SameCluster(d, d')
  }

  /** `d'` is one of the clusters other than `c`. */
  ghost predicate IsOther(out: seq<Cluster>, c: Cluster, d': Cluster) {
    exists d :: d in out && d.id != c.id && SameCluster(d, d')
  }

  /** `d'` consists of decided members of `c`. */
  ghost predicate IsDecidedPart(c: Cluster, d': Cluster) {
    forall p :: p in d'.photos ==> p.id in Ids(c.photos) && !Undecided(p)
  }

  /** After every undecided member of a cluster was decided, every other cluster is found as before,
      with the same ID and the same members in the same order. */
  lemma OtherClustersRemain(s: State, s': State, photos: seq<Photo>, out: seq<Cluster>,
                            photos': seq<Photo>, out': seq<Cluster>, c: Cluster, d: Cluster)
    requires Resolution(s, s', photos, out, photos', out', c) && RevealsNothing(s, s')
    requires d in out && d.id != c.id
    ensures Remains(out', d)
  {
    var pool, links := Pool(photos), LinksIn(s, photos);
    ResolvedSituation(s, s', photos, out, photos', out', c);
    assert IsCluster(pool, links, d);
    if Connected(links, c.id, d.id) {
      ConnectedClustersMatch(pool, pool, links, c, d);
    }
    var d' := OtherClusterSurvives(pool, Pool(photos'), links, LinksIn(s', photos'), c.id, out, out', d);
    EqualKeysEqualIds(d'.photos, d.photos);
  }

  /** And every cluster found then is one of the others, or consists of decided members of the
      resolved one. */
  lemma NewClustersAreOldOrDecided(s: State, s': State, photos: seq<Photo>, out: seq<Cluster>,
                                   photos': seq<Photo>, out': seq<Cluster>, c: Cluster, d': Cluster)
    requires Resolution(s, s', photos, out, photos', out', c) && RevealsNothing(s, s')
    requires d' in out'
    ensures IsOther(out, c, d') || IsDecidedPart(c, d')
  {
    var links, rest := LinksIn(s, photos), LinksIn(s', photos');
    ResolvedSituation(s, s', photos, out, photos', out', c);
    var d := NewClusterIsInsideOrOld(Pool(photos), Pool(photos'), links, rest, c.id, out, out', d');
    if forall p :: p in d'.photos ==> Connected(links, c.id, p.id) {
      InsideIsDecided(s, s', photos, photos', links, rest, c, d');
    } else {
      OutsideIsOther(out, links, c, d, d');
    }
  }

  lemma OutsideIsOther(out: seq<Cluster>, links: Edges, c: Cluster, d: Cluster, d': Cluster)
    requires d in out && !Connected(links, c.id, d.id) && d'.id == d.id && PhotoKeys(d'.photos) == PhotoKeys(d.photos)
    ensures IsOther(out, c, d')
  {
    ConnectedRefl(links, c.id);
    EqualKeysEqualIds(d'.photos, d.photos);
    assert SameCluster(d, d');
  }

  lemma ResolvedMember(s: State, s': State, photos: seq<Photo>, photos': seq<Photo>, links: Edges, rest: Edges,
                       c: Cluster, p: Photo)
    requires Lists(s.photos, photos) && Lists(s'.photos, photos')
    requires Resolved(s.photos, s'.photos, c) && Thinned(Pool(photos), Pool(photos'), links, rest, c.id)
    requires IsCluster(Pool(photos), links, c)
    requires p in Pool(photos') && Connected(links, c.id, p.id)
    ensures p.id in Ids(c.photos) && !Undecided(p)
  {
    assert FaceOf(p) in Faces(Pool(photos'));
    var q := FaceIn(Pool(photos), FaceOf(p));
    MemberIds(Pool(photos), links, c, q);
    assert p in photos' && s'.photos[p.id] == p;
  }

  lemma InsideIsDecided(s: State, s': State, photos: seq<Photo>, photos': seq<Photo>, links: Edges, rest: Edges,
                        c: Cluster, d': Cluster)
    requires Lists(s.photos, photos) && Lists(s'.photos, photos')
    requires Resolved(s.photos, s'.photos, c) && Thinned(Pool(photos), Pool(photos'), links, rest, c.id)
    requires IsCluster(Pool(photos), links, c) && IsCluster(Pool(photos'), rest, d')
    requires forall p :: p in d'.photos ==> Connected(links, c.id, p.id)
    ensures IsDecidedPart(c, d')
  {
    forall p | p in d'.photos
      ensures p.id in Ids(c.photos) && !Undecided(p)
    {
      ResolvedMember(s, s', photos, photos', links, rest, c, p);
    }
  }

  /** Two members of one cluster are connected, also if they are given by their IDs. */
  lemma MembersConnected(pool: set<Photo>, links: Edges, d: Cluster, a: PhotoId, b: PhotoId)
    requires UniqueIds(pool) && Symmetric(links) && IsCluster(pool, links, d) && a in Ids(d.photos) &&
      b in Ids(d.photos)
    ensures Connected(links, a, b)
  {
    var p := MemberById(d, a);
    var q := MemberById(d, b);
    ConnectedSym(links, d.id, p.id);
    ConnectedTrans(links, p.id, d.id, q.id);
  }

  /** A pair that ceases to be cut is found in one cluster; if that cluster is an old one or part of an
      old one, the pair was connected before. */
  lemma UncutPairWasTogether(s: State, s': State, photos: seq<Photo>, out: seq<Cluster>,
                             photos': seq<Photo>, out': seq<Cluster>, c: Cluster, p: Photo, q: Photo)
    requires Resolution(s, s', photos, out, photos', out', c)
    requires forall d' :: d' in out' ==> IsOther(out, c, d') || IsDecidedPart(c, d')
    requires Uncut(Pool(photos), Pool(photos'), s.settings.dupeThreshold, s.settings.dupeTimeWindow, p, q)
    ensures Connected(LinksIn(s, photos), p.id, q.id)
  {
    var pool, links := Pool(photos), LinksIn(s, photos);
    CandidatesArePool(s.photos, photos);
    LinksSymmetric(pool, s.settings.dupeThreshold, s.settings.dupeTimeWindow);
    var d' := UncutPairIsTogether(s, s', photos, photos', out', p, q);
    if IsOther(out, c, d') {
      var d :| d in out && d.id != c.id && SameCluster(d, d');
      MembersConnected(pool, links, d, p.id, q.id);
    } else {
      MembersConnected(pool, links, c, p.id, q.id);
    }
  }

  lemma UncutPairIsTogether(s: State, s': State, photos: seq<Photo>, photos': seq<Photo>, out': seq<Cluster>, p: Photo,
                            q: Photo)
    returns (d': Cluster)
    requires Found(s', photos', out') && s'.settings == s.settings
    requires Uncut(Pool(photos), Pool(photos'), s.settings.dupeThreshold, s.settings.dupeTimeWindow, p, q)
    ensures d' in out' && p in d'.photos && q in d'.photos && p.id in Ids(d'.photos) && q.id in Ids(d'.photos)
  {
    var other, rest := Pool(photos'), LinksIn(s', photos');
    PoolOf(photos');
    LinkOf(other, s.settings.dupeThreshold, s.settings.dupeTimeWindow, p, q);
    ConnectedStep(rest, p.id, q.id);
    d' := ClusterOf(other, rest, out', p, q);
    MemberId(d', p);
    MemberId(d', q);
  }

  /** Resolving a cluster leaves all others alone and forms no new ones if and only if every pair of
      photos that the trashed ones kept apart in the scan is in one cluster already. */
  lemma ResolvingIsLocal(s: State, s': State, photos: seq<Photo>, out: seq<Cluster>,
                         photos': seq<Photo>, out': seq<Cluster>, c: Cluster)
    requires Resolution(s, s', photos, out, photos', out', c)
    ensures (forall d :: d in out && d.id != c.id ==> Remains(out', d)) &&
            (forall d' :: d' in out' ==> IsOther(out, c, d') || IsDecidedPart(c, d')) <==>
            RevealsNothing(s, s')
  {
    if RevealsNothing(s, s') {
      forall d | d in out && d.id != c.id
        ensures Remains(out', d)
      {
        OtherClustersRemain(s, s', photos, out, photos', out', c, d);
      }
      forall d' | d' in out'
        ensures IsOther(out, c, d') || IsDecidedPart(c, d')
      {
        NewClustersAreOldOrDecided(s, s', photos, out, photos', out', c, d');
      }
    }
    if forall d' :: d' in out' ==> IsOther(out, c, d') || IsDecidedPart(c, d') {
      LocalRevealsNothing(s, s', photos, out, photos', out', c);
    }
  }

  lemma LocalRevealsNothing(s: State, s': State, photos: seq<Photo>, out: seq<Cluster>,
                            photos': seq<Photo>, out': seq<Cluster>, c: Cluster)
    requires Resolution(s, s', photos, out, photos', out', c)
    requires forall d' :: d' in out' ==> IsOther(out, c, d') || IsDecidedPart(c, d')
    ensures RevealsNothing(s, s')
  {
    CandidatesArePool(s.photos, photos);
    CandidatesArePool(s'.photos, photos');
    forall p, q | Uncut(Pool(photos), Pool(photos'), s.settings.dupeThreshold, s.settings.dupeTimeWindow, p, q)
      ensures Connected(LinksIn(s, photos), p.id, q.id)
    {
      UncutPairWasTogether(s, s', photos, out, photos', out', c, p, q);
    }
  }

  /** In particular if no close pair is cut before, as there is none while no photo is dated before
      the zero time or the window is off. */
  lemma NoCutPairIsLocal(s: State, s': State, photos: seq<Photo>, out: seq<Cluster>,
                         photos': seq<Photo>, out': seq<Cluster>, c: Cluster)
    requires Resolution(s, s', photos, out, photos', out', c)
    requires !HasCutPair(Pool(photos), s.settings.dupeThreshold, s.settings.dupeTimeWindow) ||
             s.settings.dupeTimeWindow <= 0 || forall id :: id in s.photos ==> s.photos[id].time >= 0
    ensures RevealsNothing(s, s')
  {
    CandidatesArePool(s.photos, photos);
    CandidatesArePool(s'.photos, photos');
    ResolvedFaces(s, s', photos, photos', LinksIn(s, photos), c);
    NoCutPairNothingRevealed(s, s');
  }

  lemma {:induction false} AllDecided(members: seq<Photo>)
    requires forall p :: p in members ==> !Undecided(p)
    ensures UndecidedIds(members) == []
  {
    if members != [] {
      AllDecided(members[..|members| - 1]);
    }
  }

  /** So no member of a resolved cluster is offered as part of an open cluster. */
  lemma ResolvedIsNeverOffered(s: State, s': State, photos: seq<Photo>, out: seq<Cluster>, c: Cluster, id: PhotoId,
                               d': Cluster)
    requires KeyedById(s.photos) && KeyedById(s'.photos) && s'.settings == s.settings
    requires Found(s, photos, out) && c in out && Resolved(s.photos, s'.photos, c) && RevealsNothing(s, s')
    requires id in Ids(c.photos) && IsShown(s', d')
    ensures !IsOpenFor(d', id)
  {
    var photos', out' :| Found(s', photos', out') && d' in out';
    NewClustersAreOldOrDecided(s, s', photos, out, photos', out', c, d');
    if IsDecidedPart(c, d') {
      AllDecided(d'.photos);
    } else {
      var d :| d in out && d.id != c.id && SameCluster(d, d');
      NotInOther(s, photos, out, c, d, id);
      NotAmongIds(d'.photos, id);
    }
  }

  /** The photo takes part in clustering and is connected to two undecided photos, of which it may be one. */
  ghost predicate Offers(s: State, id: PhotoId) {
    exists p, q, r :: OffersWith(Candidates(s.photos), s.settings.dupeThreshold, s.settings.dupeTimeWindow, id, p, q, r)
  }

  ghost predicate OffersWith(pool: set<Photo>, threshold: int, window: Time, id: PhotoId, p: Photo, q: Photo,
                             r: Photo) {
    && p in pool && q in pool && r in pool && p.id == id && q != r && Undecided(q) && Undecided(r)
    && Connected(Links(pool, threshold, window), p.id, q.id) && Connected(Links(pool, threshold, window), p.id, r.id)
  }

  lemma OpenClusterOffers(pool: set<Photo>, threshold: int, window: Time, out: seq<Cluster>, d: Cluster, id: PhotoId)
    returns (p: Photo, q: Photo, r: Photo)
    requires IsClustering(pool, Links(pool, threshold, window), out) && d in out && IsOpenFor(d, id)
    ensures OffersWith(pool, threshold, window, id, p, q, r)
  {
    var links := Links(pool, threshold, window);
    LinksSymmetric(pool, threshold, window);
    var j :| 0 <= j < |d.photos| && d.photos[j].id == id;
    var a := UndecidedMember(d.photos, 0);
    var b := UndecidedMember(d.photos, 1);
    p, q, r := d.photos[j], d.photos[a], d.photos[b];
    assert p in d.photos && q in d.photos && r in d.photos;
    TogetherConnected(pool, links, out, d, p, q);
    TogetherConnected(pool, links, out, d, p, r);
    DifferentMembers(pool, links, d, a, b);
  }

  lemma DifferentMembers(pool: set<Photo>, links: Edges, d: Cluster, a: nat, b: nat)
    requires IsCluster(pool, links, d) && a < |d.photos| && b < |d.photos| && a != b
    ensures d.photos[a] != d.photos[b]
  {
    var i, j := if a < b then a else b, if a < b then b else a;
    assert Sorting.Less(PhotoKeys(d.photos)[i], PhotoKeys(d.photos)[j]);
  }

  lemma OffersOpenCluster(pool: set<Photo>, threshold: int, window: Time, out: seq<Cluster>, id: PhotoId,
                          p: Photo, q: Photo, r: Photo) returns (d: Cluster)
    requires UniqueIds(pool) && IsClustering(pool, Links(pool, threshold, window), out)
    requires OffersWith(pool, threshold, window, id, p, q, r)
    ensures d in out && IsOpenFor(d, id)
  {
    var links := Links(pool, threshold, window);
    var x := if p != q then q else r;
    d := ClusterOf(pool, links, out, p, x);
    ConnectedTrans(links, d.id, p.id, q.id);
    ConnectedTrans(links, d.id, p.id, r.id);
    assert q in d.photos && r in d.photos;
    TwoUndecided(d.photos, q, r);
    var i :| 0 <= i < |d.photos| && d.photos[i] == p;
  }

  /** A photo is offered in an open cluster if and only if it is connected to two undecided photos. */
  lemma OfferedExactly(s: State, photos: seq<Photo>, out: seq<Cluster>, id: PhotoId)
    requires KeyedById(s.photos) && Found(s, photos, out)
    ensures (exists d :: IsShown(s, d) && IsOpenFor(d, id)) <==> Offers(s, id)
  {
    var pool, threshold, window := Pool(photos), s.settings.dupeThreshold, s.settings.dupeTimeWindow;
    CandidatesArePool(s.photos, photos);
    ShownAreFound(s, photos, out);
    if d :| IsShown(s, d) && IsOpenFor(d, id) {
      var p, q, r := OpenClusterOffers(pool, threshold, window, out, d, id);
    }
    if Offers(s, id) {
      var p, q, r :| OffersWith(pool, threshold, window, id, p, q, r);
      var d := OffersOpenCluster(pool, threshold, window, out, id, p, q, r);
    }
  }

  /** So a member of a resolved cluster is offered again if and only if some member that still takes part is
      connected, among the photos that are left, to two undecided ones. */
  lemma ResolvedIsOfferedExactly(s: State, s': State, photos: seq<Photo>, out: seq<Cluster>,
                                 photos': seq<Photo>, out': seq<Cluster>, c: Cluster)
    requires Resolution(s, s', photos, out, photos', out', c)
    ensures (forall id, d' :: id in Ids(c.photos) && IsShown(s', d') ==> !IsOpenFor(d', id)) <==>
            (forall id :: id in Ids(c.photos) ==> !Offers(s', id))
  {
    forall id | id in Ids(c.photos)
      ensures (exists d' :: IsShown(s', d') && IsOpenFor(d', id)) <==> Offers(s', id)
    {
      OfferedExactly(s', photos', out', id);
    }
  }

  lemma NotAmongIds(members: seq<Photo>, id: PhotoId)
    requires id !in Ids(members)
    ensures forall j :: 0 <= j < |members| ==> members[j].id != id
  {
    forall j | 0 <= j < |members|
      ensures members[j].id != id
    {
      assert Ids(members)[j] == members[j].id;
    }
  }

  lemma NotInOther(s: State, photos: seq<Photo>, out: seq<Cluster>, c: Cluster, d: Cluster, id: PhotoId)
    requires Found(s, photos, out) && c in out && d in out && d.id != c.id && id in Ids(c.photos)
    ensures id !in Ids(d.photos)
  {
    ShownMembers(s, c);
    ShownMembers(s, d);
    if id in Ids(d.photos) {
      var p := MemberById(c, id);
      var q := MemberById(d, id);
      InOneCluster(photos, s.settings.dupeThreshold, s.settings.dupeTimeWindow, out, c, d, p);
    }
  }

  lemma InOneCluster(photos: seq<Photo>, threshold: int, window: Time, out: seq<Cluster>, c: Cluster, d: Cluster,
                     p: Photo)
    requires IsResult(photos, threshold, window, out)
    requires c in out && d in out && p in c.photos && p in d.photos
    ensures c == d
  {
    var m :| 0 <= m < |out| && out[m] == c;
    var n :| 0 <= n < |out| && out[n] == d;
    ClustersAreDisjoint(photos, threshold, window, out, m, n, p);
  }

  lemma MemberById(c: Cluster, id: PhotoId) returns (p: Photo)
    requires id in Ids(c.photos)
    ensures p in c.photos && p.id == id
  {
    var i :| 0 <= i < |c.photos| && Ids(c.photos)[i] == id;
    p := c.photos[i];
  }

  // ---------- The resolver decides every undecided member ----------

  lemma {:induction false} ApplyKeepsIndex(photos: map<PhotoId, Photo>, ops: seq<ClusterMemberOp>, now: Time,
                                           id: PhotoId)
    requires AllKnown(photos, ops) && id in photos
    ensures IndexOf(ApplyOps(photos, ops, now)[id]) == IndexOf(photos[id])
  {
    if ops != [] {
      ApplyKeepsIndex(photos, ops[..|ops| - 1], now, id);
    }
  }

  lemma {:induction false} ApplyDecides(photos: map<PhotoId, Photo>, ops: seq<ClusterMemberOp>, now: Time, id: PhotoId)
    requires AllKnown(photos, ops) && id in photos
    requires forall op :: op in ops ==> op.newState != Unsorted
    ensures UndoLaws.HasOp(ops, id) ==> ApplyOps(photos, ops, now)[id].state != Unsorted
    ensures !UndoLaws.HasOp(ops, id) ==> ApplyOps(photos, ops, now)[id].state == photos[id].state
  {
    if ops != [] {
      UndoLaws.LastOp(ops, id);
      assert ops[|ops| - 1] in ops;
      ApplyDecides(photos, ops[..|ops| - 1], now, id);
    }
  }

  lemma KeyedBySameIndex(photos: map<PhotoId, Photo>, others: map<PhotoId, Photo>)
    requires KeyedById(photos) && SameIndex(photos, others)
    ensures KeyedById(others)
  {
    forall id | id in others
      ensures others[id].id == id
    {
      assert IndexOf(photos[id]) == IndexOf(others[id]);
    }
  }

  lemma OpsResolve(photos: map<PhotoId, Photo>, ops: seq<ClusterMemberOp>, now: Time, c: Cluster)
    requires AllKnown(photos, ops)
    requires forall op :: op in ops ==> op.newState != Unsorted && op.photoId in Ids(c.photos)
    requires forall id :: id in photos && id in Ids(c.photos) && photos[id].state == Unsorted ==>
      UndoLaws.HasOp(ops, id)
    ensures Resolved(photos, ApplyOps(photos, ops, now), c)
  {
    var after := ApplyOps(photos, ops, now);
    forall id | id in photos
      ensures IndexOf(photos[id]) == IndexOf(after[id])
      ensures id in Ids(c.photos) ==> after[id].state != Unsorted
      ensures id !in Ids(c.photos) ==> after[id].state == photos[id].state
    {
      ApplyKeepsIndex(photos, ops, now, id);
      ApplyDecides(photos, ops, now, id);
    }
  }

  lemma OpFromMember(dirs: Trash.Dirs, files: Trash.Files, keep: set<PhotoId>, c: Cluster, ops: seq<ClusterMemberOp>,
                     op: ClusterMemberOp)
    requires Resolves(dirs, files, keep, c.photos, ops) && op in ops
    ensures op.newState != Unsorted && op.photoId in Ids(c.photos)
  {
    var p :| p in c.photos && Undecided(p) && OpFor(dirs, keep, p, op);
    MemberId(c, p);
  }

  lemma ResolvesCovers(dirs: Trash.Dirs, files: Trash.Files, keep: set<PhotoId>, photos: map<PhotoId, Photo>,
                       c: Cluster, ops: seq<ClusterMemberOp>)
    requires forall p :: p in c.photos ==> p.id in photos && photos[p.id] == p
    requires Resolves(dirs, files, keep, c.photos, ops)
    requires forall p :: p in c.photos && Undecided(p) && p.id !in keep ==> Trash.Source(dirs, p.path) in files
    ensures forall op :: op in ops ==> op.newState != Unsorted && op.photoId in Ids(c.photos)
    ensures forall id :: id in photos && id in Ids(c.photos) && photos[id].state == Unsorted ==> UndoLaws.HasOp(ops, id)
  {
    forall op | op in ops
      ensures op.newState != Unsorted && op.photoId in Ids(c.photos)
    {
      OpFromMember(dirs, files, keep, c, ops, op);
    }
    forall id | id in photos && id in Ids(c.photos) && photos[id].state == Unsorted
      ensures UndoLaws.HasOp(ops, id)
    {
      MemberHasOp(dirs, files, keep, photos, c, ops, id);
    }
  }

  /** When the files of the members not to be kept are there, the operations built for a cluster
      resolve it. */
  lemma ResolvingResolves(dirs: Trash.Dirs, files: Trash.Files, keep: set<PhotoId>, s: State, c: Cluster,
                          ops: seq<ClusterMemberOp>, now: Time)
    requires KeyedById(s.photos) && IsShown(s, c) && s.session.Some?
    requires AllKnown(s.photos, ops) && Resolves(dirs, files, keep, c.photos, ops)
    requires forall p :: p in c.photos && Undecided(p) && p.id !in keep ==> Trash.Source(dirs, p.path) in files
    ensures Resolved(s.photos, RecordClusterDecision(s, c.id, Some(ops), now).state.photos, c)
    ensures RecordClusterDecision(s, c.id, Some(ops), now).state.settings == s.settings
    ensures KeyedById(RecordClusterDecision(s, c.id, Some(ops), now).state.photos)
  {
    ShownMembers(s, c);
    ResolvesCovers(dirs, files, keep, s.photos, c, ops);
    OpsResolve(s.photos, ops, now, c);
    KeyedBySameIndex(s.photos, ApplyOps(s.photos, ops, now));
  }

  lemma MemberId(c: Cluster, p: Photo)
    requires p in c.photos
    ensures p.id in Ids(c.photos)
  {
    var i :| 0 <= i < |c.photos| && c.photos[i] == p;
    assert Ids(c.photos)[i] == p.id;
  }

  lemma MemberHasOp(dirs: Trash.Dirs, files: Trash.Files, keep: set<PhotoId>, photos: map<PhotoId, Photo>, c: Cluster,
                    ops: seq<ClusterMemberOp>, id: PhotoId)
    requires Resolves(dirs, files, keep, c.photos, ops)
    requires forall p :: p in c.photos ==> p.id in photos && photos[p.id] == p
    requires forall p :: p in c.photos && Undecided(p) && p.id !in keep ==> Trash.Source(dirs, p.path) in files
    requires id in photos && id in Ids(c.photos) && photos[id].state == Unsorted
    ensures UndoLaws.HasOp(ops, id)
  {
    var i :| 0 <= i < |c.photos| && Ids(c.photos)[i] == id;
    var p := c.photos[i];
    assert p in c.photos && HasOpFor(dirs, keep, p, ops);
    var op :| op in ops && OpFor(dirs, keep, p, op);
    var j :| 0 <= j < |ops| && ops[j] == op;
    assert ops[j].photoId == id;
  }

  // ---------- Undo forms the clusters again ----------

  lemma RecordingKeepsIndex(s: State, step: Step)
    requires s.session.Some? && IsRecording(step)
    ensures SameIndex(s.photos, Exec(s, step).photos) && Exec(s, step).settings == s.settings
  {
    if step.DecideMany? && AllKnown(s.photos, Members(step.ops)) {
      forall id | id in s.photos
        ensures IndexOf(ApplyOps(s.photos, Members(step.ops), step.now)[id]) == IndexOf(s.photos[id])
      {
        ApplyKeepsIndex(s.photos, Members(step.ops), step.now, id);
      }
    }
  }

  lemma {:induction false} RestoreKeepsIndex(photos: map<PhotoId, Photo>, ops: seq<ClusterMemberOp>, id: PhotoId)
    requires id in photos
    ensures IndexOf(RestoreOps(photos, ops)[id]) == IndexOf(photos[id])
    decreases |ops|
  {
    if ops != [] {
      RestoreKeepsIndex(RestoreOne(photos, ops[|ops| - 1]), ops[..|ops| - 1], id);
    }
  }

  lemma UndoKeepsIndex(s: State)
    requires s.session.Some?
    ensures SameIndex(s.photos, Undo(s).state.photos) && Undo(s).state.settings == s.settings
  {
    if Stack(s) != [] && Top(s).cluster.Some? && !Top(s).skipped {
      forall id | id in s.photos
        ensures IndexOf(RestoreOps(s.photos, Top(s).cluster.value)[id]) == IndexOf(s.photos[id])
      {
        RestoreKeepsIndex(s.photos, Top(s).cluster.value, id);
      }
    }
  }

  lemma {:induction false} RunKeepsIndex(s: State, steps: seq<Step>)
    requires s.session.Some? && forall i :: 0 <= i < |steps| ==> IsRecording(steps[i])
    ensures Run(s, steps).session.Some?
    ensures SameIndex(s.photos, Run(s, steps).photos) && Run(s, steps).settings == s.settings
    decreases |steps|
  {
    if steps != [] {
      RunKeepsIndex(s, steps[..|steps| - 1]);
      RecordingKeepsIndex(Run(s, steps[..|steps| - 1]), steps[|steps| - 1]);
      ExecKeepsSession(Run(s, steps[..|steps| - 1]), steps[|steps| - 1]);
    }
  }

  lemma {:induction false} UndoTimesKeepsIndex(s: State, n: nat)
    requires s.session.Some?
    ensures SameIndex(s.photos, UndoTimes(s, n).photos) && UndoTimes(s, n).settings == s.settings
    decreases n
  {
    if n > 0 {
      UndoKeepsIndex(s);
      ExecKeepsSession(s, UndoLast);
      UndoTimesKeepsIndex(Undo(s).state, n - 1);
    }
  }

  lemma SameFaces(s: State, s': State, photos: seq<Photo>, photos': seq<Photo>)
    requires Lists(s.photos, photos) && Lists(s'.photos, photos')
    requires KeyedById(s.photos) && SameIndex(s.photos, s'.photos)
    requires forall id :: id in s.photos ==> s.photos[id].state == s'.photos[id].state
    ensures Faces(Pool(photos)) <= Faces(Pool(photos'))
  {
    forall f | f in Faces(Pool(photos))
      ensures f in Faces(Pool(photos'))
    {
      var p := FaceIn(Pool(photos), f);
      var p' := s'.photos[p.id];
      assert IndexOf(p) == IndexOf(p');
      assert p' in Pool(photos') && FaceOf(p') == f;
    }
  }

  lemma SameStatesSameClusters(s: State, s': State, photos: seq<Photo>, out: seq<Cluster>,
                               photos': seq<Photo>, out': seq<Cluster>)
    requires KeyedById(s.photos) && SameIndex(s.photos, s'.photos) && s'.settings == s.settings
    requires forall id :: id in s.photos ==> s.photos[id].state == s'.photos[id].state
    requires Found(s, photos, out) && Found(s', photos', out')
    ensures SameClusters(out, out')
  {
    KeyedBySameIndex(s.photos, s'.photos);
    SameFaces(s, s', photos, photos');
    SameFaces(s', s, photos', photos);
    ResultDeterminedByFaces(photos, photos', s.settings.dupeThreshold, s.settings.dupeTimeWindow, out, out');
  }

  lemma SameIndexTrans(a: map<PhotoId, Photo>, b: map<PhotoId, Photo>, c: map<PhotoId, Photo>)
    requires SameIndex(a, b) && SameIndex(b, c)
    ensures SameIndex(a, c)
  {
  }

  /** After any run of recordings and as many undos as entries were pushed, the same clusters are
      found, with the same IDs and the same members in the same order: undoing a cluster decision
      shows that very cluster again. */
  lemma UndoReformsClusters(s: State, steps: seq<Step>, photos: seq<Photo>, out: seq<Cluster>,
                            photos': seq<Photo>, out': seq<Cluster>)
    requires s.session.Some? && KeyedById(s.photos)
    requires forall i :: 0 <= i < |steps| ==> IsRecording(steps[i]) && HasMembers(steps[i])
    requires Found(s, photos, out)
    requires Found(UndoTimes(Run(s, steps), UndoLaws.Recordings(s, steps)), photos', out')
    ensures SameClusters(out, out')
  {
    var ran := Run(s, steps);
    var s' := UndoTimes(ran, UndoLaws.Recordings(s, steps));
    RunKeepsIndex(s, steps);
    UndoTimesKeepsIndex(ran, UndoLaws.Recordings(s, steps));
    SameIndexTrans(s.photos, ran.photos, s'.photos);
    UndoLaws.RoundTrip(s, steps);
    forall id | id in s.photos
      ensures s.photos[id].state == s'.photos[id].state
    {
      SameStates(s, s', UndoLaws.TrashedIn(s, steps), id);
    }
    SameStatesSameClusters(s, s', photos, out, photos', out');
  }

  lemma SameStates(s: State, s': State, ids: set<PhotoId>, id: PhotoId)
    requires s.session.Some? && s'.session.Some? && UndoLaws.ViewOf(s') == UndoLaws.Cleared(UndoLaws.ViewOf(s), ids)
    requires id in s.photos
    ensures id in s'.photos && s'.photos[id].state == s.photos[id].state
  {
    UndoLaws.SameKeys(s.photos, s'.photos, ids);
    assert UndoLaws.Standings(s'.photos)[id] == UndoLaws.ClearPaths(UndoLaws.Standings(s.photos), ids)[id];
  }

  lemma {:induction false} SameUndecided(a: seq<Photo>, b: seq<Photo>)
    requires |a| == |b| && forall i :: 0 <= i < |a| ==> a[i].id == b[i].id && a[i].state == b[i].state
    ensures UndecidedIds(a) == UndecidedIds(b)
  {
    if a != [] {
      SameUndecided(a[..|a| - 1], b[..|b| - 1]);
    }
  }

  /** Recording and undoing changes neither what clustering looks at nor any photo's state. */
  lemma UndoneStatesAreSame(s: State, step: Step)
    requires s.session.Some? && HasMembers(step) && Pushes(s, step)
    ensures var s' := Undo(Exec(s, step)).state;
      && SameIndex(s.photos, s'.photos) && s'.settings == s.settings
      && forall id :: id in s.photos ==> s.photos[id].state == s'.photos[id].state
  {
    var s' := Undo(Exec(s, step)).state;
    ExecKeepsSession(s, step);
    RecordingKeepsIndex(s, step);
    UndoKeepsIndex(Exec(s, step));
    SameIndexTrans(s.photos, Exec(s, step).photos, s'.photos);
    UndoLaws.UndoInverts(s, step);
    ExecKeepsSession(Exec(s, step), UndoLast);
    forall id | id in s.photos
      ensures s.photos[id].state == s'.photos[id].state
    {
      SameStates(s, s', UndoLaws.TrashedBy(Pushed(s, step)), id);
    }
  }

  lemma SameClusterAgain(s: State, s': State, c: Cluster, photos': seq<Photo>, out': seq<Cluster>)
    returns (again: Cluster)
    requires KeyedById(s.photos) && IsShown(s, c) && Found(s', photos', out')
    requires SameIndex(s.photos, s'.photos) && s'.settings == s.settings
    requires forall id :: id in s.photos ==> s.photos[id].state == s'.photos[id].state
    ensures again in out' && again.id == c.id
    ensures Ids(again.photos) == Ids(c.photos) && UndecidedIds(again.photos) == UndecidedIds(c.photos)
  {
    var photos, out :| Found(s, photos, out) && c in out;
    SameStatesSameClusters(s, s', photos, out, photos', out');
    var i :| 0 <= i < |out| && out[i] == c;
    again := out'[i];
    SameMembers(s, s', c, again);
  }

  /** After a cluster decision is undone, the cluster that the undone entry names is found again, and
      it offers the same members to decide. */
  lemma UndoShowsTheCluster(s: State, c: Cluster, step: Step, photos': seq<Photo>, out': seq<Cluster>)
    returns (again: Cluster)
    requires s.session.Some? && KeyedById(s.photos) && IsShown(s, c)
    requires step.DecideMany? && step.clusterId == c.id && HasMembers(step) && Pushes(s, step)
    requires Found(Undo(Exec(s, step)).state, photos', out')
    ensures Undo(Exec(s, step)).result == Ok(Pushed(s, step))
    ensures again in out' && again.id == Pushed(s, step).photoId
    ensures Ids(again.photos) == Ids(c.photos) && UndecidedIds(again.photos) == UndecidedIds(c.photos)
  {
    UndoneStatesAreSame(s, step);
    again := SameClusterAgain(s, Undo(Exec(s, step)).state, c, photos', out');
    UndoReturnsEntry(s, step);
  }

  lemma UndoReturnsEntry(s: State, step: Step)
    requires s.session.Some? && step.DecideMany? && HasMembers(step) && Pushes(s, step)
    ensures Undo(Exec(s, step)).result == Ok(Pushed(s, step)) && Pushed(s, step).photoId == step.clusterId
  {
  }

  lemma SameMembers(s: State, s': State, c: Cluster, d: Cluster)
    requires IsShown(s, c) && IsShown(s', d) && Ids(c.photos) == Ids(d.photos)
    requires forall id :: id in s.photos ==> id in s'.photos && s.photos[id].state == s'.photos[id].state
    ensures UndecidedIds(d.photos) == UndecidedIds(c.photos)
  {
    ShownMembers(s, c);
    ShownMembers(s', d);
    assert |c.photos| == |Ids(c.photos)| == |d.photos|;
    forall i | 0 <= i < |c.photos|
      ensures c.photos[i].id == d.photos[i].id && c.photos[i].state == d.photos[i].state
    {
      assert Ids(c.photos)[i] == Ids(d.photos)[i];
      assert c.photos[i] in c.photos && d.photos[i] in d.photos;
    }
    SameUndecided(c.photos, d.photos);
  }
}
