/** The request handlers for decisions, clusters and undo, without HTTP: each moves files and calls
    the store, in the order the program does. */
module Handlers {
  import opened Photos
  import M = StoreModel
  import opened Stores
  import Dupes
  import DupesLaws
  import Sorting
  import opened Trash
  import opened FileLaws

  datatype Choice = Keep | Discard | PassOver | UnknownChoice

  datatype Reply = Done | NotFound | BadRequest | Failed

  /** The photos of a cluster still to be decided. */
  predicate Undecided(p: Photo) {
    p.state == Unsorted
  }

  /** The operation the resolver makes for a member: kept if its ID was posted, else trashed. */
  predicate OpFor(dirs: Dirs, keep: set<PhotoId>, p: Photo, op: ClusterMemberOp) {
    && op.photoId == p.id
    && (if p.id in keep then op.newState == Kept
        else op.newState == Trashed && op.trashFrom == Source(dirs, p.path))
  }

  ghost predicate HasOpFor(dirs: Dirs, keep: set<PhotoId>, p: Photo, ops: seq<ClusterMemberOp>) {
    exists op :: op in ops && OpFor(dirs, keep, p, op)
  }

  ghost predicate ComesFrom(dirs: Dirs, keep: set<PhotoId>, members: seq<Photo>, op: ClusterMemberOp) {
    exists p :: p in members && Undecided(p) && OpFor(dirs, keep, p, op)
  }

  /** The operations decide exactly the undecided members, save those whose file is gone. */
  ghost predicate Resolves(dirs: Dirs, files: Files, keep: set<PhotoId>, members: seq<Photo>,
                           ops: seq<ClusterMemberOp>) {
    && (forall op :: op in ops ==> ComesFrom(dirs, keep, members, op))
    && (forall p :: p in members && Undecided(p) && (p.id in keep || Source(dirs, p.path) in files) ==>
          HasOpFor(dirs, keep, p, ops))
  }

  /** No photo lies in the trash directory, and no two photos share a path. */
  ghost predicate PathsFit(dirs: Dirs, photos: map<PhotoId, Photo>) {
    && KeyedById(photos)
    && (forall id :: id in photos ==> !InTrash(dirs, Source(dirs, photos[id].path)))
    && (forall a, b :: a in photos && b in photos && photos[a].path == photos[b].path ==> a == b)
  }

  /** Some undecided member is to be trashed, and its file is there. */
  ghost predicate MovesSome(dirs: Dirs, files: Files, keep: set<PhotoId>, members: seq<Photo>) {
    exists p :: p in members && Undecided(p) && p.id !in keep && Source(dirs, p.path) in files
  }

  /** What resolving a cluster amounts to.  `did` is what was done to the files, and recorded if there
      is a session; without one, the files are moved and the store refuses.  The files change exactly
      if the file of some member to be trashed is there. */
  ghost predicate ResolveOutcome(dirs: Dirs, before: World, after: World, clusterId: PhotoId, members: seq<Photo>,
                                 keep: set<PhotoId>, now: Time, did: Option<Action>) {
    && (did.None? ==> after == before && Resolves(dirs, before.files, keep, members, []))
    && (did.Some? ==>
          && did.value.Resolve? && did.value.clusterId == clusterId && did.value.now == now
          && Resolves(dirs, before.files, keep, members, did.value.ops)
          && DistinctOps(did.value.ops)
          && MovesFit(dirs, before.files, did.value.ops) && after.files == AllMoved(before.files, did.value.ops)
          && if before.store.session.None? then after.store == before.store
             else Possible(dirs, before, did.value) && after == Perform(dirs, before, did.value))
    && (after.files != before.files <==> MovesSome(dirs, before.files, keep, members))
  }

  /** The path in the trash of a file with this path: the same path in the trash directory, perhaps with a stamp
      before the extension. */
  ghost predicate IsTrashPath(dirs: Dirs, rel: Path, stamp: string, to: Path) {
    to == dirs.trashDir + "/" + rel || KeepsName(dirs.trashDir + "/" + rel, stamp, to)
  }

  /** No two operations are on the same photo. */
  predicate DistinctOps(ops: seq<ClusterMemberOp>) {
    forall j, k :: 0 <= j < k < |ops| ==> ops[j].photoId != ops[k].photoId
  }

  class Handler {
    const dirs: Dirs
    const store: Store
    var files: Files

    constructor (d: Dirs, st: Store, f: Files)
      ensures dirs == d && store == st && files == f
    {
      dirs, store, files := d, st, f;
    }

    ghost function Current(): World
      reads this, store
    {
      World(store.State(), files)
    }

    /** Moves a photo's file to a free path in the trash; fails if the file is missing. */
    method MoveToTrash(rel: Path, stamp: string) returns (to: Option<Path>)
      requires !InTrash(dirs, Source(dirs, rel))
      modifies this`files
      ensures to.Some? <==> Source(dirs, rel) in old(files)
      ensures to.None? ==> files == old(files)
      ensures to.Some? ==>
        && to.value !in old(files) && InTrash(dirs, to.value)
        && files == Renamed(old(files), Source(dirs, rel), to.value)
        && IsTrashPath(dirs, rel, stamp, to.value)
    {
      var dst := UniqueDest(files, Target(dirs, rel), stamp);
      if dst != Target(dirs, rel) {
        ghost var i: nat :| dst == Candidate(Target(dirs, rel), stamp, i);
        CandidateInTrash(dirs, rel, stamp, i);
      }
      assert InTrash(dirs, Target(dirs, rel));
      var src := Source(dirs, rel);
      if src !in files {
        return None;
      }
      files := Renamed(files, src, dst);
      return Some(dst);
    }

    /** Moves a file back from the trash; nothing happens if it is missing there. */
    method RestoreFromTrash(from: Path, to: Path)
      modifies this`files
      ensures files == if from in old(files) then Renamed(old(files), from, to) else old(files)
    {
      if from in files {
        files := Renamed(files, from, to);
      }
    }

    /** Keeps, trashes or skips one photo.  Without a session the decision is refused, but only after
        the file has been moved. */
    method HandleDecision(choice: Choice, id: PhotoId, stamp: string, now: Time)
      returns (reply: Reply, ghost did: Option<Action>)
      requires PathsFit(dirs, store.photos)
      modifies this`files, store
      ensures reply == Done <==> did.Some?
      ensures did.Some? ==>
        Possible(dirs, old(Current()), did.value) && Current() == Perform(dirs, old(Current()), did.value)
      ensures did.Some? ==> match did.value
        case KeepOne(k, t) => choice == Keep && (k, t) == (id, now)
        case TrashOne(k, _, t) => choice == Discard && (k, t) == (id, now)
        case SkipOne(k, t) => choice == PassOver && (k, t) == (id, now)
        case _ => false
      ensures reply == NotFound <==> id !in old(store.photos)
      ensures reply == BadRequest <==> id in old(store.photos) && choice == UnknownChoice
      ensures reply == Done <==>
        && id in old(store.photos) && choice != UnknownChoice && old(store.session).Some?
        && (choice == Discard ==> dirs.photoDir + "/" + old(store.photos)[id].path in old(files))
      ensures reply == Done && choice == Keep ==>
        var p := old(store.photos)[id];
        && store.photos == old(store.photos)[id :=
             p.(state := Kept, keepCount := p.keepCount + 1, lastSeenAt := now, lastDecisionAt := now)]
        && files == old(files)
      ensures reply == Done && choice == PassOver ==>
        && store.photos == old(store.photos)[id := old(store.photos)[id].(lastSeenAt := now)]
        && files == old(files)
      ensures reply == Done && choice == Discard ==>
        var p := old(store.photos)[id];
        var to := store.photos[id].trashedPath;
        && store.photos == old(store.photos)[id :=
             p.(state := Trashed, trashedPath := to, lastSeenAt := now, lastDecisionAt := now)]
        && files == Renamed(old(files), dirs.photoDir + "/" + p.path, to)
        && to !in old(files) && IsTrashPath(dirs, p.path, stamp, to)
      ensures did.None? ==> store.State() == old(store.State())
      ensures did.None? ==>
        (files != old(files) <==>
           && old(store.session).None? && choice == Discard && id in old(store.photos)
           && Source(dirs, old(store.photos)[id].path) in old(files))
      ensures did.None? && files != old(files) ==>
        exists to :: to !in old(files) && InTrash(dirs, to) &&
          files == Renamed(old(files), Source(dirs, old(store.photos)[id].path), to)
    {
      did := None;
      if id !in store.photos {
        return NotFound, None;
      }
      var photo := store.photos[id];
      if choice == PassOver {
        var r := store.RecordSkip(id, now);
        if r.Err? {
          return Failed, None;
        }
        return Done, Some(SkipOne(id, now));
      }
      if choice == Keep {
        var r := store.RecordDecision(id, Kept, "", "", now);
        if r.Err? {
          return Failed, None;
        }
        return Done, Some(KeepOne(id, now));
      }
      if choice != Discard {
        return BadRequest, None;
      }
      var to := MoveToTrash(photo.path, stamp);
      if to.None? {
        return Failed, None;
      }
      var src := Source(dirs, photo.path);
      var r := store.RecordDecision(id, Trashed, src, to.value, now);
      if r.Err? {
        assert src in old(files) && src !in files;
        return Failed, None;
      }
      return Done, Some(TrashOne(id, to.value, now));
    }

    /** Takes back the last entry, and moves its files back in the order they were moved. */
    method HandleUndo() returns (undone: Option<Decision>)
      modifies this`files, store
      ensures old(store.session).Some? ==> Current() == Perform(dirs, old(Current()), UndoOne)
      ensures old(store.session).None? ==> undone.None? && Current() == old(Current())
      ensures undone.Some? ==> M.Undo(old(store.State())).result == Ok(undone.value)
      ensures undone.None? ==> M.Undo(old(store.State())).result.Err? && files == old(files)
      ensures undone.Some? && undone.value.cluster.None? ==>
        var d := undone.value;
        files ==
          if !d.skipped && d.newState == Trashed && d.trashTo != "" && d.trashFrom != "" && d.trashTo in old(files)
          then Renamed(old(files), d.trashTo, d.trashFrom) else old(files)
    {
      var r := store.Undo();
      if r.Err? {
        return None;
      }
      var d := r.value;
      if d.cluster.Some? {
        MoveMembersBack(d.cluster.value);
      } else if !d.skipped {
        OneMoveBack(files, MovesOf(d)[0]);
        if d.newState == Trashed && d.trashTo != "" && d.trashFrom != "" {
          RestoreFromTrash(d.trashTo, d.trashFrom);
        }
      }
      return Some(d);
    }

    method MoveMembersBack(ops: seq<ClusterMemberOp>)
      modifies this`files
      ensures files == AllMovedBack(old(files), ops)
    {
      for i := 0 to |ops|
        invariant AllMovedBack(files, ops[i..]) == AllMovedBack(old(files), ops)
      {
        assert ops[i..][1..] == ops[i + 1..];
        var op := ops[i];
        if op.newState == Trashed && op.trashTo != "" && op.trashFrom != "" {
          RestoreFromTrash(op.trashTo, op.trashFrom);
        }
      }
    }

    /** Builds the operations that resolve the undecided members, moving files as it goes.  A member
        whose file is missing is left out. */
    method ResolveMembers(members: seq<Photo>, keep: set<PhotoId>, stamp: string) returns (ops: seq<ClusterMemberOp>)
      requires PathsFit(dirs, store.photos) && DistinctIds(members)
      requires forall p :: p in members ==> p.id in store.photos && store.photos[p.id] == p
      modifies this`files
      ensures M.AllKnown(store.photos, ops)
      ensures MovesFit(dirs, old(files), ops) && files == AllMoved(old(files), ops)
      ensures Resolves(dirs, old(files), keep, members, ops) && DistinctOps(ops)
      ensures forall op :: op in ops && op.newState == Trashed ==>
        IsTrashPath(dirs, store.photos[op.photoId].path, stamp, op.trashTo)
    {
      ops := [];
      for i := 0 to |members|
        invariant PartlyResolved(dirs, store.photos, old(files), files, keep, stamp, members[..i], ops)
        invariant AllThere(dirs, old(files), files, members, i)
      {
        var p := members[i];
        assert p in members;
        if p.state != Unsorted {
          PartlySkips(dirs, store.photos, old(files), files, keep, stamp, members, i, ops);
          continue;
        }
        if p.id in keep {
          var op := ClusterMemberOp(p.id, NoState, Kept, 0, 0, 0, "", "");
          PartlyGrows(dirs, store.photos, old(files), files, keep, stamp, members, i, ops, op);
          ops := ops + [op];
          continue;
        }
        ghost var before := files;
        var to := MoveToTrash(p.path, stamp);
        if to.None? {
          PartlySkips(dirs, store.photos, old(files), files, keep, stamp, members, i, ops);
          continue;
        }
        var op := ClusterMemberOp(p.id, NoState, Trashed, 0, 0, 0, Source(dirs, p.path), to.value);
        PartlyGrows(dirs, store.photos, old(files), before, keep, stamp, members, i, ops, op);
        OthersThere(dirs, store.photos, old(files), before, members, i, to.value);
        ops := ops + [op];
      }
      assert members[..|members|] == members;
    }

    static method ByClusterId(clusters: seq<Dupes.Cluster>, clusterId: PhotoId) returns (r: Option<Dupes.Cluster>)
      ensures r.Some? ==> r.value in clusters && r.value.id == clusterId
      ensures r.None? ==> forall c :: c in clusters ==> c.id != clusterId
    {
      for i := 0 to |clusters|
        invariant forall k :: 0 <= k < i ==> clusters[k].id != clusterId
      {
        if clusters[i].id == clusterId {
          return Some(clusters[i]);
        }
      }
      r := None;
    }

    static method CollectUndecided(members: seq<Photo>) returns (ids: seq<PhotoId>)
      ensures ids == UndecidedIds(members)
    {
      ids := [];
      for i := 0 to |members|
        invariant ids == UndecidedIds(members[..i])
      {
        UndecidedOneMore(members, i);
        if members[i].state == Unsorted {
          ids := ids + [members[i].id];
        }
      }
      assert members[..|members|] == members;
    }

    method SkipMembers(clusterId: PhotoId, members: seq<Photo>, now: Time)
      modifies store
      ensures old(store.session).Some? ==>
        Current() == Perform(dirs, old(Current()), SkipAll(clusterId, UndecidedIds(members), now))
      ensures old(store.session).None? ==> store.State() == old(store.State())
    {
      var ids := CollectUndecided(members);
      var _ := store.SkipCluster(clusterId, ids, now);
    }

    method ResolveCluster(clusterId: PhotoId, members: seq<Photo>, keep: set<PhotoId>, stamp: string, now: Time)
      returns (ghost did: Option<Action>)
      requires PathsFit(dirs, store.photos) && DistinctIds(members)
      requires forall p :: p in members ==> p.id in store.photos && store.photos[p.id] == p
      modifies this`files, store
      ensures ResolveOutcome(dirs, old(Current()), Current(), clusterId, members, keep, now, did)
    {
      var ops := ResolveMembers(members, keep, stamp);
      ResolvingMoves(dirs, old(files), keep, members, ops);
      if |ops| == 0 {
        return None;
      }
      var _ := store.RecordClusterDecision(clusterId, Some(ops), now);
      did := Some(Resolve(clusterId, ops, now));
      ResolutionRecorded(dirs, old(Current()), Current(), clusterId, ops, now);
    }

    /** Applies "keep these, trash the rest", or a skip, to the undecided members of the cluster with
        the given ID, if there still is one. */
    method HandleClusterResolve(clusterId: PhotoId, skip: bool, keep: set<PhotoId>, stamp: string, now: Time)
      returns (target: Option<Dupes.Cluster>, ghost did: Option<Action>)
      requires PathsFit(dirs, store.photos)
      modifies this`files, store
      ensures target.Some? ==> target.value.id == clusterId && IsShown(old(store.State()), target.value)
      ensures target.None? ==> did.None? && Current() == old(Current())
      ensures target.Some? && skip ==>
        && did == Some(SkipAll(clusterId, UndecidedIds(target.value.photos), now))
        && Current() == if old(store.session).Some? then Perform(dirs, old(Current()), did.value) else old(Current())
      ensures target.Some? && !skip ==>
        ResolveOutcome(dirs, old(Current()), Current(), clusterId, target.value.photos, keep, now, did)
    {
      did := None;
      target := ClusterById(clusterId);
      if target.None? {
        return;
      }
      ShownMembers(store.State(), target.value);
      if skip {
        SkipMembers(clusterId, target.value.photos, now);
        did := Some(SkipAll(clusterId, UndecidedIds(target.value.photos), now));
        return;
      }
      did := ResolveCluster(clusterId, target.value.photos, keep, stamp, now);
    }

    /** The clusters of all photos under the present settings. */
    method FindClusters() returns (clusters: seq<Dupes.Cluster>, ghost photos: seq<Photo>)
      requires PathsFit(dirs, store.photos)
      ensures Found(store.State(), photos, clusters)
    {
      var listed := store.AllPhotos();
      clusters := Dupes.Find(listed, store.settings.dupeThreshold, store.settings.dupeTimeWindow);
      photos := listed;
    }

    /** The cluster contains the photo, and at least two of its members are undecided. */
    static method IsOpen(c: Dupes.Cluster, id: PhotoId) returns (open: bool)
      ensures open <==> IsOpenFor(c, id)
    {
      var contains := false;
      var unsorted := 0;
      var members := c.photos;
      for k := 0 to |members|
        invariant contains <==> exists j :: 0 <= j < k && members[j].id == id
        invariant unsorted == |UndecidedIds(members[..k])|
      {
        UndecidedOneMore(members, k);
        if members[k].id == id {
          contains := true;
        }
        if members[k].state == Unsorted {
          unsorted := unsorted + 1;
        }
      }
      assert members[..|members|] == members;
      open := contains && unsorted >= 2;
    }

    /** The cluster of a photo, if at least two of its members are undecided. */
    method OpenClusterFor(id: PhotoId) returns (r: Option<Dupes.Cluster>)
      requires PathsFit(dirs, store.photos)
      ensures r.Some? ==> IsShown(store.State(), r.value) && IsOpenFor(r.value, id)
      ensures r.None? ==> forall c :: IsShown(store.State(), c) ==> !IsOpenFor(c, id)
    {
      ghost var photos;
      var clusters;
      clusters, photos := FindClusters();
      for i := 0 to |clusters|
        invariant forall k :: 0 <= k < i ==> !IsOpenFor(clusters[k], id)
      {
        var open := IsOpen(clusters[i], id);
        if open {
          return Some(clusters[i]);
        }
      }
      ShownAreFound(store.State(), photos, clusters);
      r := None;
    }

    /** The cluster with the given ID, if there is one. */
    method ClusterById(clusterId: PhotoId) returns (r: Option<Dupes.Cluster>)
      requires PathsFit(dirs, store.photos)
      ensures r.Some? ==> IsShown(store.State(), r.value) && r.value.id == clusterId
      ensures r.None? ==> forall c :: IsShown(store.State(), c) ==> c.id != clusterId
      ensures exists photos, out :: Found(store.State(), photos, out)
    {
      ghost var photos;
      var clusters;
      clusters, photos := FindClusters();
      r := ByClusterId(clusters, clusterId);
      ShownAreFound(store.State(), photos, clusters);
    }
  }

  ghost function IdsOf(members: seq<Photo>): set<PhotoId> {
    set k | 0 <= k < |members| :: members[k].id
  }

  lemma NewId(members: seq<Photo>, i: nat)
    requires DistinctIds(members) && i < |members|
    ensures members[i].id !in IdsOf(members[..i])
  {
  }

  /** The operations are on different photos among these, and move trashed files where they should. */
  ghost predicate Named(dirs: Dirs, photos: map<PhotoId, Photo>, stamp: string, done: seq<Photo>,
                        ops: seq<ClusterMemberOp>) {
    && M.AllKnown(photos, ops) && DistinctOps(ops) && (forall op :: op in ops ==> op.photoId in IdsOf(done))
    && (forall op :: op in ops && op.newState == Trashed ==>
          op.photoId in photos && IsTrashPath(dirs, photos[op.photoId].path, stamp, op.trashTo))
  }

  /** The operations resolve these members, and the files were moved as they say. */
  ghost predicate PartlyResolved(dirs: Dirs, photos: map<PhotoId, Photo>, before: Files, files: Files,
                                 keep: set<PhotoId>, stamp: string, done: seq<Photo>, ops: seq<ClusterMemberOp>) {
    && Named(dirs, photos, stamp, done, ops)
    && MovesFit(dirs, before, ops) && files == AllMoved(before, ops)
    && Resolves(dirs, before, keep, done, ops)
  }

  lemma MoreIds(done: seq<Photo>, p: Photo)
    ensures IdsOf(done + [p]) == IdsOf(done) + {p.id}
  {
    var longer := done + [p];
    assert forall k :: 0 <= k < |done| ==> longer[k] == done[k];
    assert longer[|done|] == p;
  }

  lemma PartlySkips(dirs: Dirs, photos: map<PhotoId, Photo>, before: Files, files: Files, keep: set<PhotoId>,
                    stamp: string, members: seq<Photo>, i: nat, ops: seq<ClusterMemberOp>)
    requires i < |members| && PartlyResolved(dirs, photos, before, files, keep, stamp, members[..i], ops)
    requires !Undecided(members[i]) || (members[i].id !in keep && Source(dirs, members[i].path) !in before)
    ensures PartlyResolved(dirs, photos, before, files, keep, stamp, members[..i + 1], ops)
  {
    assert members[..i + 1] == members[..i] + [members[i]];
    ResolvesSkips(dirs, before, keep, members[..i], ops, members[i]);
    MoreIds(members[..i], members[i]);
  }

  lemma NamedGrows(dirs: Dirs, photos: map<PhotoId, Photo>, stamp: string, done: seq<Photo>,
                   ops: seq<ClusterMemberOp>, p: Photo, op: ClusterMemberOp)
    requires Named(dirs, photos, stamp, done, ops) && op.photoId == p.id
    requires p.id in photos && photos[p.id] == p && p.id !in IdsOf(done)
    requires op.newState == Trashed ==> IsTrashPath(dirs, p.path, stamp, op.trashTo)
    ensures Named(dirs, photos, stamp, done + [p], ops + [op])
  {
    MoreIds(done, p);
  }

  lemma PartlyGrows(dirs: Dirs, photos: map<PhotoId, Photo>, before: Files, files: Files, keep: set<PhotoId>,
                    stamp: string, members: seq<Photo>, i: nat, ops: seq<ClusterMemberOp>, op: ClusterMemberOp)
    requires i < |members| && PartlyResolved(dirs, photos, before, files, keep, stamp, members[..i], ops)
    requires DistinctIds(members) && members[i].id in photos && photos[members[i].id] == members[i]
    requires Undecided(members[i]) && OpFor(dirs, keep, members[i], op) && MoveFits(dirs, files, op)
    requires op.newState == Trashed ==> IsTrashPath(dirs, members[i].path, stamp, op.trashTo)
    ensures PartlyResolved(dirs, photos, before, Moved(files, op), keep, stamp, members[..i + 1], ops + [op])
  {
    assert members[..i + 1] == members[..i] + [members[i]];
    NewId(members, i);
    MovesGrow(dirs, before, ops, op);
    ResolvesGrows(dirs, before, keep, members[..i], ops, members[i], op);
    NamedGrows(dirs, photos, stamp, members[..i], ops, members[i], op);
  }

  lemma SourcesDiffer(dirs: Dirs, a: Path, b: Path)
    requires a != b
    ensures Source(dirs, a) != Source(dirs, b)
  {
    assert Source(dirs, a)[|dirs.photoDir| + 1..] == a;
    assert Source(dirs, b)[|dirs.photoDir| + 1..] == b;
  }

  /** The files of the members from number `i` on are still there, if they were. */
  ghost predicate AllThere(dirs: Dirs, before: Files, files: Files, members: seq<Photo>, i: nat) {
    forall k :: i <= k < |members| && Source(dirs, members[k].path) in before ==> Source(dirs, members[k].path) in files
  }

  lemma OthersThere(dirs: Dirs, photos: map<PhotoId, Photo>, before: Files, files: Files, members: seq<Photo>, i: nat,
                    to: Path)
    requires PathsFit(dirs, photos) && DistinctIds(members) && i < |members|
    requires forall p :: p in members ==> p.id in photos && photos[p.id] == p
    requires AllThere(dirs, before, files, members, i) && Source(dirs, members[i].path) in files
    ensures AllThere(dirs, before, Renamed(files, Source(dirs, members[i].path), to), members, i + 1)
  {
    forall k | i < k < |members|
      ensures Source(dirs, members[k].path) != Source(dirs, members[i].path)
    {
      assert members[k] in members && members[i] in members;
      SourcesDiffer(dirs, members[k].path, members[i].path);
    }
  }

  lemma ResolvesSkips(dirs: Dirs, files: Files, keep: set<PhotoId>, done: seq<Photo>, ops: seq<ClusterMemberOp>,
                      p: Photo)
    requires Resolves(dirs, files, keep, done, ops)
    requires !Undecided(p) || (p.id !in keep && Source(dirs, p.path) !in files)
    ensures Resolves(dirs, files, keep, done + [p], ops)
  {
    forall op | op in ops
      ensures ComesFrom(dirs, keep, done + [p], op)
    {
      var q :| q in done && Undecided(q) && OpFor(dirs, keep, q, op);
      assert q in done + [p];
    }
  }

  lemma ResolvesGrows(dirs: Dirs, files: Files, keep: set<PhotoId>, done: seq<Photo>, ops: seq<ClusterMemberOp>,
                      p: Photo, op: ClusterMemberOp)
    requires Resolves(dirs, files, keep, done, ops)
    requires Undecided(p) && OpFor(dirs, keep, p, op)
    ensures Resolves(dirs, files, keep, done + [p], ops + [op])
  {
    forall o | o in ops + [op]
      ensures ComesFrom(dirs, keep, done + [p], o)
    {
      if o in ops {
        var q :| q in done && Undecided(q) && OpFor(dirs, keep, q, o);
        assert q in done + [p];
      } else {
        assert p in done + [p];
      }
    }
    forall q | q in done + [p] && Undecided(q) && (q.id in keep || Source(dirs, q.path) in files)
      ensures HasOpFor(dirs, keep, q, ops + [op])
    {
      if q in done {
        var o :| o in ops && OpFor(dirs, keep, q, o);
        assert o in ops + [op];
      } else {
        assert op in ops + [op];
      }
    }
  }

  /** The moves made for a cluster change the files exactly if the file of an undecided member that is
      not kept is there. */
  lemma ResolvingMoves(dirs: Dirs, files: Files, keep: set<PhotoId>, members: seq<Photo>, ops: seq<ClusterMemberOp>)
    requires Resolves(dirs, files, keep, members, ops) && MovesFit(dirs, files, ops)
    ensures AllMoved(files, ops) != files <==> MovesSome(dirs, files, keep, members)
  {
    if p :| p in members && Undecided(p) && p.id !in keep && Source(dirs, p.path) in files {
      assert HasOpFor(dirs, keep, p, ops);
      var op :| op in ops && OpFor(dirs, keep, p, op);
      TrashedFileLeaves(dirs, files, ops, op);
    }
    if op :| op in ops && op.newState == Trashed {
      assert ComesFrom(dirs, keep, members, op);
      var p :| p in members && Undecided(p) && OpFor(dirs, keep, p, op);
      TrashedFileLeaves(dirs, files, ops, op);
    } else {
      NoMoves(dirs, files, ops);
    }
  }

  lemma ResolutionRecorded(dirs: Dirs, before: World, after: World, clusterId: PhotoId, ops: seq<ClusterMemberOp>,
                           now: Time)
    requires M.AllKnown(before.store.photos, ops)
    requires MovesFit(dirs, before.files, ops) && after.files == AllMoved(before.files, ops)
    requires after.store == M.RecordClusterDecision(before.store, clusterId, Some(ops), now).state
    ensures before.store.session.None? ==> after.store == before.store
    ensures before.store.session.Some? ==>
      && Possible(dirs, before, Resolve(clusterId, ops, now))
      && after == Perform(dirs, before, Resolve(clusterId, ops, now))
  {
  }

  // ---------- The clusters that requests see ----------

  /** `c` is among the clusters computed from the present photos and settings. */
  ghost predicate IsShown(s: M.State, c: Dupes.Cluster) {
    exists photos, out :: Found(s, photos, out) && c in out
  }

  ghost predicate Found(s: M.State, photos: seq<Photo>, out: seq<Dupes.Cluster>) {
    M.Lists(s.photos, photos) && Dupes.IsResult(photos, s.settings.dupeThreshold, s.settings.dupeTimeWindow, out)
  }

  function UndecidedIds(members: seq<Photo>): seq<PhotoId> {
    if members == [] then []
    else
      UndecidedIds(members[..|members| - 1]) +
      if Undecided(members[|members| - 1]) then [members[|members| - 1].id] else []
  }

  lemma UndecidedOneMore(members: seq<Photo>, i: nat)
    requires i < |members|
    ensures UndecidedIds(members[..i + 1]) ==
      UndecidedIds(members[..i]) + if members[i].state == Unsorted then [members[i].id] else []
  {
    assert members[..i + 1][..i] == members[..i];
  }

  predicate IsOpenFor(c: Dupes.Cluster, id: PhotoId) {
    (exists j :: 0 <= j < |c.photos| && c.photos[j].id == id) && |UndecidedIds(c.photos)| >= 2
  }

  lemma {:induction false} TwoUndecided(members: seq<Photo>, q: Photo, r: Photo)
    requires q in members && Undecided(q)
    ensures |UndecidedIds(members)| >= 1
    ensures r in members && Undecided(r) && q != r ==> |UndecidedIds(members)| >= 2
    decreases |members|
  {
    var init, last := members[..|members| - 1], members[|members| - 1];
    assert members == init + [last];
    if q in init {
      TwoUndecided(init, q, r);
    } else if r in init && Undecided(r) {
      TwoUndecided(init, r, q);
    }
  }

  /** The undecided member with `k` undecided ones before it. */
  lemma {:induction false} UndecidedMember(members: seq<Photo>, k: nat) returns (i: nat)
    requires k < |UndecidedIds(members)|
    ensures i < |members| && Undecided(members[i]) && |UndecidedIds(members[..i])| == k
    decreases |members|
  {
    var init := members[..|members| - 1];
    if k < |UndecidedIds(init)| {
      i := UndecidedMember(init, k);
      assert init[..i] == members[..i];
    } else {
      i := |members| - 1;
    }
  }

  /** A cluster is open for a photo if the photo is in it and two of its members are neither kept, nor trashed,
      nor anything else but unsorted. */
  lemma OpenMeans(c: Dupes.Cluster, id: PhotoId)
    requires DistinctIds(c.photos)
    ensures IsOpenFor(c, id) <==>
      && (exists i :: 0 <= i < |c.photos| && c.photos[i].id == id)
      && exists j, k :: 0 <= j < k < |c.photos| && c.photos[j].state == Unsorted && c.photos[k].state == Unsorted
  {
    if |UndecidedIds(c.photos)| >= 2 {
      var a := UndecidedMember(c.photos, 0);
      var b := UndecidedMember(c.photos, 1);
      var j, k := if a < b then a else b, if a < b then b else a;
      assert j < k && c.photos[j].state == Unsorted && c.photos[k].state == Unsorted;
    }
    if j, k :| 0 <= j < k < |c.photos| && c.photos[j].state == Unsorted && c.photos[k].state == Unsorted {
      TwoUndecided(c.photos, c.photos[j], c.photos[k]);
    }
  }

  /** The IDs that a skip of a cluster lists are those of its unsorted members. */
  lemma {:induction false} UndecidedIdsMean(members: seq<Photo>, id: PhotoId)
    ensures id in UndecidedIds(members) <==>
      exists k :: 0 <= k < |members| && members[k].state == Unsorted && members[k].id == id
    decreases |members|
  {
    if members != [] {
      var init := members[..|members| - 1];
      UndecidedIdsMean(init, id);
      if k :| 0 <= k < |init| && init[k].state == Unsorted && init[k].id == id {
        assert members[k].state == Unsorted && members[k].id == id;
      }
      if k :| 0 <= k < |members| && members[k].state == Unsorted && members[k].id == id && k < |init| {
        assert init[k].state == Unsorted && init[k].id == id;
      }
    }
  }

  /** All listings give the same clusters. */
  lemma ShownAreFound(s: M.State, photos: seq<Photo>, out: seq<Dupes.Cluster>)
    requires Found(s, photos, out)
    ensures forall c :: IsShown(s, c) <==> c in out
  {
    forall c | IsShown(s, c)
      ensures c in out
    {
      var others, out' :| Found(s, others, out') && c in out';
      DupesLaws.ResultIgnoresOrder(photos, others, s.settings.dupeThreshold, s.settings.dupeTimeWindow, out, out');
    }
  }

  lemma ShownMembers(s: M.State, c: Dupes.Cluster)
    requires IsShown(s, c)
    ensures DistinctIds(c.photos)
    ensures forall p :: p in c.photos ==> p.id in s.photos && s.photos[p.id] == p
  {
    var photos, out :| Found(s, photos, out) && c in out;
    var pool := Dupes.Pool(photos);
    var links := Dupes.Links(pool, s.settings.dupeThreshold, s.settings.dupeTimeWindow);
    assert Dupes.IsCluster(pool, links, c);
    forall i, j | 0 <= i < j < |c.photos|
      ensures c.photos[i].id != c.photos[j].id
    {
      assert c.photos[i] in c.photos && c.photos[j] in c.photos;
      assert Sorting.Less(Dupes.PhotoKeys(c.photos)[i], Dupes.PhotoKeys(c.photos)[j]);
    }
  }
}
