/** Requests one after the other: what is shown after a cluster was resolved, and after that was undone. */
module Requests {
  import opened Photos
  import opened Dupes
  import opened DupesLaws
  import opened StoreModel
  import opened StoreRuns
  import opened Trash
  import opened FileLaws
  import opened Handlers
  import opened Reform
  import StoreLaws
  import UndoLaws
  import UndoLimits

  // ---------- Paths stay as they are ----------

  lemma SamePathsFit(dirs: Dirs, photos: map<PhotoId, Photo>, others: map<PhotoId, Photo>)
    requires PathsFit(dirs, photos) && photos.Keys == others.Keys
    requires forall id :: id in photos ==> UndoLimits.Undecidable(others[id]) == UndoLimits.Undecidable(photos[id])
    ensures PathsFit(dirs, others)
  {
    forall id | id in others
      ensures others[id].id == photos[id].id && others[id].path == photos[id].path
    {
      assert UndoLimits.Undecidable(others[id]).path == UndoLimits.Undecidable(photos[id]).path;
    }
  }

  lemma UndoKeepsPaths(dirs: Dirs, s: State)
    requires s.session.Some? && PathsFit(dirs, s.photos)
    ensures PathsFit(dirs, Undo(s).state.photos)
  {
    UndoKeepsIndex(s);
    forall id | id in s.photos
      ensures UndoLimits.Undecidable(Undo(s).state.photos[id]) == UndoLimits.Undecidable(s.photos[id])
    {
      UndoLimits.UndoDecisionTime(s, id);
    }
    SamePathsFit(dirs, s.photos, Undo(s).state.photos);
  }

  lemma OutcomeIsPerformed(dirs: Dirs, before: World, after: World, clusterId: PhotoId, members: seq<Photo>,
                           keep: set<PhotoId>, now: Time, did: Action)
    requires ResolveOutcome(dirs, before, after, clusterId, members, keep, now, Some(did)) && before.store.session.Some?
    ensures did == Resolve(clusterId, did.ops, now) && Possible(dirs, before, did) &&
      after == Perform(dirs, before, did)
    ensures AllKnown(before.store.photos, did.ops)
    ensures after.store == RecordClusterDecision(before.store, clusterId, Some(did.ops), now).state
  {
  }

  lemma ResolveKeepsPaths(dirs: Dirs, before: World, after: World, clusterId: PhotoId, members: seq<Photo>,
                          keep: set<PhotoId>, now: Time, did: Option<Action>)
    requires ResolveOutcome(dirs, before, after, clusterId, members, keep, now, did)
    requires before.store.session.Some? && PathsFit(dirs, before.store.photos)
    ensures PathsFit(dirs, after.store.photos)
  {
    if did.Some? {
      var ops := did.value.ops;
      forall id | id in before.store.photos
        ensures UndoLimits.Undecidable(ApplyOps(before.store.photos, ops, now)[id]) ==
          UndoLimits.Undecidable(before.store.photos[id])
      {
        UndoLimits.ApplyDecisionTime(before.store.photos, ops, now, id);
      }
      SamePathsFit(dirs, before.store.photos, after.store.photos);
    }
  }

  // ---------- After a cluster was resolved ----------

  /** The files of the members to be trashed are all there. */
  ghost predicate AllThere(dirs: Dirs, files: Files, keep: set<PhotoId>, members: seq<Photo>) {
    forall p :: p in members && Undecided(p) && p.id !in keep ==> Source(dirs, p.path) in files
  }

  /** If there was nothing to do, the cluster counts as resolved as it is. */
  lemma NothingToResolve(dirs: Dirs, files: Files, keep: set<PhotoId>, s: State, c: Cluster)
    requires IsShown(s, c) && Resolves(dirs, files, keep, c.photos, []) && AllThere(dirs, files, keep, c.photos)
    ensures Resolved(s.photos, s.photos, c)
  {
    ShownMembers(s, c);
    forall id | id in s.photos && id in Ids(c.photos)
      ensures s.photos[id].state != Unsorted
    {
      var p := MemberById(c, id);
      assert !HasOpFor(dirs, keep, p, []);
    }
  }

  /** The outcome of resolving a cluster whose files are there: it is resolved. */
  lemma OutcomeIsResolved(dirs: Dirs, before: World, after: World, c: Cluster, keep: set<PhotoId>, now: Time,
                          did: Option<Action>)
    requires KeyedById(before.store.photos) && before.store.session.Some? && IsShown(before.store, c)
    requires ResolveOutcome(dirs, before, after, c.id, c.photos, keep, now, did)
    requires AllThere(dirs, before.files, keep, c.photos)
    ensures Resolved(before.store.photos, after.store.photos, c)
    ensures KeyedById(after.store.photos) && after.store.settings == before.store.settings
  {
    if did.None? {
      NothingToResolve(dirs, before.files, keep, before.store, c);
    } else {
      OutcomeIsPerformed(dirs, before, after, c.id, c.photos, keep, now, did.value);
      ResolvingResolves(dirs, before.files, keep, before.store, c, did.value.ops, now);
    }
  }

  lemma NothingOffered(dirs: Dirs, before: World, after: World, c: Cluster, keep: set<PhotoId>, now: Time,
                       did: Option<Action>, id: PhotoId, d': Cluster)
    requires KeyedById(before.store.photos) && before.store.session.Some? && IsShown(before.store, c)
    requires ResolveOutcome(dirs, before, after, c.id, c.photos, keep, now, did)
    requires AllThere(dirs, before.files, keep, c.photos) && RevealsNothing(before.store, after.store)
    requires id in Ids(c.photos) && IsShown(after.store, d')
    ensures !IsOpenFor(d', id)
  {
    OutcomeIsResolved(dirs, before, after, c, keep, now, did);
    var photos, out :| Found(before.store, photos, out) && c in out;
    ResolvedIsNeverOffered(before.store, after.store, photos, out, c, id, d');
  }

  /** Resolves a cluster and renders a photo picked afterwards.  If it is a member of the cluster
      resolved, it comes alone, never as part of a cluster still to be decided. */
  method ResolveThenRender(h: Handler, clusterId: PhotoId, keep: set<PhotoId>, stamp: string, now: Time,
                           picked: PhotoId)
    returns (target: Option<Cluster>, shown: Option<Cluster>)
    requires PathsFit(h.dirs, h.store.photos) && h.store.session.Some?
    modifies h`files, h.store
    ensures (&& target.Some? && picked in Ids(target.value.photos)
             && AllThere(h.dirs, old(h.files), keep, target.value.photos)
             && RevealsNothing(old(h.store.State()), h.store.State())) ==>
      shown.None?
  {
    ghost var before := h.Current();
    ghost var did;
    target, did := h.HandleClusterResolve(clusterId, false, keep, stamp, now);
    ghost var after := h.Current();
    if target.Some? {
      ResolveKeepsPaths(h.dirs, before, after, clusterId, target.value.photos, keep, now, did);
    }
    shown := h.OpenClusterFor(picked);
    if target.Some? && shown.Some? && picked in Ids(target.value.photos)
       && AllThere(h.dirs, before.files, keep, target.value.photos) && RevealsNothing(before.store, after.store) {
      NothingOffered(h.dirs, before, after, target.value, keep, now, did, picked, shown.value);
    }
  }

  /** What becomes of one photo of a resolved cluster: an undecided member is kept if it is to be, and otherwise
      trashed if its file is there, which is then where the photo says; any other is left alone. */
  ghost predicate IsResolved(dirs: Dirs, before: World, after: World, keep: set<PhotoId>, now: Time, p: Photo) {
    var source := dirs.photoDir + "/" + p.path;
    && p.id in after.store.photos
    && var q := after.store.photos[p.id];
       if p.state != Unsorted then q == p
       else if p.id in keep then
         q == p.(state := Kept, keepCount := p.keepCount + 1, lastSeenAt := now, lastDecisionAt := now)
       else if source in before.files then
         && q == p.(state := Trashed, trashedPath := q.trashedPath, lastSeenAt := now, lastDecisionAt := now)
         && q.trashedPath in after.files && after.files[q.trashedPath] == before.files[source]
         && source !in after.files
       else q == p
  }

  lemma OpAt(ops: seq<ClusterMemberOp>, op: ClusterMemberOp) returns (i: nat)
    requires op in ops
    ensures i < |ops| && ops[i] == op
  {
    i :| 0 <= i < |ops| && ops[i] == op;
  }

  /** A photo that no operation names is as before. */
  lemma UnnamedStays(dirs: Dirs, before: World, ops: seq<ClusterMemberOp>, clusterId: PhotoId, now: Time, id: PhotoId)
    requires Possible(dirs, before, Resolve(clusterId, ops, now)) && id in before.store.photos
    requires forall op :: op in ops ==> op.photoId != id
    ensures id in Perform(dirs, before, Resolve(clusterId, ops, now)).store.photos
    ensures Perform(dirs, before, Resolve(clusterId, ops, now)).store.photos[id] == before.store.photos[id]
  {
    UndoLaws.ApplyAt(before.store.photos, ops, now, id);
  }

  /** A photo that an operation names is decided as the operation says. */
  lemma NamedIsDecided(dirs: Dirs, before: World, ops: seq<ClusterMemberOp>, clusterId: PhotoId, now: Time,
                       op: ClusterMemberOp)
    requires Possible(dirs, before, Resolve(clusterId, ops, now)) && DistinctOps(ops) && op in ops
    ensures var after := Perform(dirs, before, Resolve(clusterId, ops, now));
      && op.photoId in before.store.photos && op.photoId in after.store.photos
      && StoreLaws.IsDecided(before.store.photos[op.photoId], after.store.photos[op.photoId], op.newState, false,
                             op.trashTo, now)
      && (op.newState == Trashed ==>
            && op.trashFrom in before.files && op.trashFrom !in after.files
            && op.trashTo in after.files && after.files[op.trashTo] == before.files[op.trashFrom])
  {
    var i := OpAt(ops, op);
    StoreLaws.LastOpDecides(before.store.photos, ops, now, i);
    if op.newState == Trashed {
      MovedFileIsThere(dirs, before.files, ops, i);
      TrashedFileLeaves(dirs, before.files, ops, op);
    }
  }

  /** Resolving a cluster does to each member what it is meant to, and nothing to any other photo. */
  lemma ResolutionMeans(dirs: Dirs, before: World, after: World, c: Cluster, keep: set<PhotoId>, now: Time,
                        did: Option<Action>, p: Photo)
    requires before.store.session.Some? && KeyedById(before.store.photos) && IsShown(before.store, c)
    requires ResolveOutcome(dirs, before, after, c.id, c.photos, keep, now, did)
    requires p.id in before.store.photos && before.store.photos[p.id] == p
    ensures if p in c.photos then IsResolved(dirs, before, after, keep, now, p)
      else p.id in after.store.photos && after.store.photos[p.id] == p
  {
    ShownMembers(before.store, c);
    if did.None? {
      assert !HasOpFor(dirs, keep, p, []);
    } else {
      OutcomeIsPerformed(dirs, before, after, c.id, c.photos, keep, now, did.value);
      ResolvedPhoto(dirs, before, c, keep, now, did.value.ops, p);
    }
  }

  lemma ResolvedPhoto(dirs: Dirs, before: World, c: Cluster, keep: set<PhotoId>, now: Time, ops: seq<ClusterMemberOp>,
                      p: Photo)
    requires Possible(dirs, before, Resolve(c.id, ops, now)) && DistinctOps(ops)
    requires Resolves(dirs, before.files, keep, c.photos, ops)
    requires forall q :: q in c.photos ==> q.id in before.store.photos && before.store.photos[q.id] == q
    requires p.id in before.store.photos && before.store.photos[p.id] == p
    ensures var after := Perform(dirs, before, Resolve(c.id, ops, now));
      if p in c.photos then IsResolved(dirs, before, after, keep, now, p)
      else p.id in after.store.photos && after.store.photos[p.id] == p
  {
    if op :| op in ops && op.photoId == p.id {
      assert ComesFrom(dirs, keep, c.photos, op);
      var q :| q in c.photos && Undecided(q) && OpFor(dirs, keep, q, op);
      NamedIsDecided(dirs, before, ops, c.id, now, op);
    } else {
      UnnamedStays(dirs, before, ops, c.id, now, p.id);
      assert !HasOpFor(dirs, keep, p, ops);
    }
  }

  // ---------- After that was undone ----------

  /** What undoing and showing amounts to: for a decision on a cluster, the cluster with its ID is shown if
      there is one. */
  ghost predicate UndoShows(dirs: Dirs, before: World, after: World, undone: Option<Decision>, shown: Option<Cluster>) {
    && after == Perform(dirs, before, UndoOne)
    && (undone.Some? ==> Undo(before.store).result == Ok(undone.value))
    && (undone.None? ==> Undo(before.store).result.Err?)
    && (shown.Some? ==>
          && undone.Some? && undone.value.cluster.Some?
          && IsShown(after.store, shown.value) && shown.value.id == undone.value.photoId)
    && (undone.Some? && undone.value.cluster.Some? && shown.None? ==>
          && (exists photos, out :: Found(after.store, photos, out))
          && forall c :: IsShown(after.store, c) ==> c.id != undone.value.photoId)
  }

  /** Undoes the last entry and looks up the cluster it names, if it is a decision on a cluster. */
  method UndoAndShow(h: Handler) returns (undone: Option<Decision>, shown: Option<Cluster>)
    requires PathsFit(h.dirs, h.store.photos) && h.store.session.Some?
    modifies h`files, h.store
    ensures UndoShows(h.dirs, old(h.Current()), h.Current(), undone, shown)
  {
    UndoKeepsPaths(h.dirs, h.store.State());
    undone := h.HandleUndo();
    shown := None;
    if undone.Some? && undone.value.cluster.Some? {
      shown := h.ClusterById(undone.value.photoId);
    }
  }

  /** No two clusters shown have the same ID. */
  lemma OneClusterPerId(s: State, photos: seq<Photo>, out: seq<Cluster>, c: Cluster, d: Cluster)
    requires Found(s, photos, out) && c in out && d in out && c.id == d.id
    ensures c == d
  {
    PoolOf(photos);
    var p := ClusterIdIsSmallest(Pool(photos), LinksIn(s, photos), c);
    var q := ClusterIdIsSmallest(Pool(photos), LinksIn(s, photos), d);
    InOneCluster(photos, s.settings.dupeThreshold, s.settings.dupeTimeWindow, out, c, d, p);
  }

  /** Undoing moves the files of a resolved cluster back. */
  lemma ResolveMovedBack(dirs: Dirs, w: World, clusterId: PhotoId, ops: seq<ClusterMemberOp>, now: Time)
    requires Possible(dirs, w, Resolve(clusterId, ops, now))
    ensures Perform(dirs, Perform(dirs, w, Resolve(clusterId, ops, now)), UndoOne).files == w.files
  {
    var step := DecideMany(clusterId, Some(ops), now);
    UndoReturnsEntry(w.store, step);
    SnapshotMoves(dirs, w.store.photos, ops, w.files);
    AllMoveBackInverts(dirs, w.files, Snapshot(w.store.photos, ops));
  }

  lemma ShownAgain(s: State, c: Cluster, ops: seq<ClusterMemberOp>, now: Time, s': State, photos: seq<Photo>,
                   out: seq<Cluster>)
    returns (again: Cluster)
    requires s.session.Some? && KeyedById(s.photos) && IsShown(s, c) && AllKnown(s.photos, ops)
    requires s' == Undo(Exec(s, DecideMany(c.id, Some(ops), now))).state && Found(s', photos, out)
    ensures again.id == c.id && Ids(again.photos) == Ids(c.photos) &&
      UndecidedIds(again.photos) == UndecidedIds(c.photos)
    ensures forall d :: IsShown(s', d) && d.id == c.id ==> d == again
    ensures IsShown(s', again)
  {
    var step := DecideMany(c.id, Some(ops), now);
    assert Pushes(s, step);
    again := UndoShowsTheCluster(s, c, step, photos, out);
    UndoReturnsEntry(s, step);
    ShownAreFound(s', photos, out);
    forall d | IsShown(s', d) && d.id == c.id
      ensures d == again
    {
      OneClusterPerId(s', photos, out, d, again);
    }
  }

  /** What undoing the resolution of a cluster gives back. */
  lemma UndoneWorld(dirs: Dirs, before: World, after: World, undone: World, clusterId: PhotoId,
                    ops: seq<ClusterMemberOp>, now: Time)
    requires Possible(dirs, before, Resolve(clusterId, ops, now)) &&
      after == Perform(dirs, before, Resolve(clusterId, ops, now))
    requires undone == Perform(dirs, after, UndoOne)
    ensures undone.files == before.files
    ensures var r := Undo(after.store).result; r.Ok? && r.value.cluster.Some? && r.value.photoId == clusterId
    ensures undone.store == Undo(Exec(before.store, DecideMany(clusterId, Some(ops), now))).state
  {
    ResolveMovedBack(dirs, before, clusterId, ops, now);
    UndoReturnsEntry(before.store, DecideMany(clusterId, Some(ops), now));
  }

  /** What is shown after a resolution was undone is the cluster resolved. */
  lemma UndoneIsShown(dirs: Dirs, before: World, after: World, last: World, c: Cluster, keep: set<PhotoId>, now: Time,
                      did: Action, undone: Option<Decision>, shown: Option<Cluster>)
    requires before.store.session.Some? && KeyedById(before.store.photos) && IsShown(before.store, c)
    requires ResolveOutcome(dirs, before, after, c.id, c.photos, keep, now, Some(did))
    requires UndoShows(dirs, after, last, undone, shown)
    ensures last.files == before.files && shown.Some? && shown.value.id == c.id
    ensures Ids(shown.value.photos) == Ids(c.photos) && UndecidedIds(shown.value.photos) == UndecidedIds(c.photos)
  {
    OutcomeIsPerformed(dirs, before, after, c.id, c.photos, keep, now, did);
    UndoneWorld(dirs, before, after, last, c.id, did.ops, now);
    var photos, out := SomeFound(last.store, shown);
    var again := ShownAgain(before.store, c, did.ops, now, last.store, photos, out);
  }

  lemma SomeFound(s: State, shown: Option<Cluster>) returns (photos: seq<Photo>, out: seq<Cluster>)
    requires if shown.Some? then IsShown(s, shown.value) else exists photos, out :: Found(s, photos, out)
    ensures Found(s, photos, out)
  {
    photos, out :| Found(s, photos, out);
  }

  /** Resolves a cluster and undoes that.  If anything was decided, the very cluster is shown again, with
      the same members to decide, and all files are back. */
  method ResolveThenUndo(h: Handler, clusterId: PhotoId, keep: set<PhotoId>, stamp: string, now: Time)
    returns (target: Option<Cluster>, shown: Option<Cluster>, ghost did: Option<Action>)
    requires PathsFit(h.dirs, h.store.photos) && h.store.session.Some?
    modifies h`files, h.store
    ensures target.Some? && did.Some? ==>
      && h.files == old(h.files)
      && shown.Some? && shown.value.id == target.value.id == clusterId
      && Ids(shown.value.photos) == Ids(target.value.photos)
      && UndecidedIds(shown.value.photos) == UndecidedIds(target.value.photos)
  {
    ghost var before := h.Current();
    target, did := h.HandleClusterResolve(clusterId, false, keep, stamp, now);
    ghost var after := h.Current();
    shown := None;
    if target.None? {
      return;
    }
    ResolveKeepsPaths(h.dirs, before, after, clusterId, target.value.photos, keep, now, did);
    var undone;
    undone, shown := UndoAndShow(h);
    if did.Some? {
      UndoneIsShown(h.dirs, before, after, h.Current(), target.value, keep, now, did.value, undone, shown);
    }
  }
}
