/** What each operation of the store does, in plain terms: the fields it changes, the counts it adds, the
    list of recent skips it leaves, and what it leaves alone. */
module StoreLaws {
  import opened Photos
  import opened StoreModel
  import opened StoreRuns
  import SessionLaws
  import UndoLaws
  import opened UndoLimits

  // ---------- What is common to recordings ----------

  /** The session and the day of `now` count `bump` more, and no other day does. */
  ghost predicate Counts(s: State, after: State, bump: nat, now: Time) {
    && s.session.Some? && after.session.Some?
    && after.session.value.done == s.session.value.done + bump
    && forall day: int ::
         (if day in after.daily then after.daily[day] else 0) ==
         (if day in s.daily then s.daily[day] else 0) +
         (if day * 86_400_000_000_000 <= now < (day + 1) * 86_400_000_000_000 then bump else 0)
  }

  /** One entry more is on the stack; settings and everything else about the session are as before, except
      the counts and the list of recent skips. */
  predicate PushesOne(s: State, after: State, d: Decision) {
    && s.session.Some? && after.session.Some?
    && after.session.value.stack == s.session.value.stack + [d]
    && after.session.value.startedAt == s.session.value.startedAt
    && after.session.value.target == s.session.value.target && after.session.value.mix == s.session.value.mix
    && after.settings == s.settings && after.lastBatchDone == s.lastBatchDone
  }

  predicate SameSkips(s: State, after: State) {
    s.session.Some? && after.session.Some? && after.session.value.recentlySkipped == s.session.value.recentlySkipped
  }

  /** All photos but these are as before. */
  ghost predicate OnlyThese(photos: map<PhotoId, Photo>, after: map<PhotoId, Photo>, ids: set<PhotoId>) {
    after.Keys == photos.Keys && forall id :: id in photos && id !in ids ==> after[id] == photos[id]
  }

  /** The photo `q` is `p` after it was decided on. */
  predicate IsDecided(p: Photo, q: Photo, newState: PhotoState, countsUnsure: bool, trashTo: Path, now: Time) {
    && q.state == newState && q.lastSeenAt == now && q.lastDecisionAt == now
    && q.keepCount == (if newState == Kept then p.keepCount + 1 else p.keepCount)
    && q.unsureCount == (if newState == Unsure && countsUnsure then p.unsureCount + 1 else p.unsureCount)
    && q.trashedPath == (if newState == Trashed then trashTo else p.trashedPath)
    && Undecidable(q) == Undecidable(p)
  }

  lemma DayHolds(t: Time, day: Day)
    ensures DayOf(t) == day <==> day * 86_400_000_000_000 <= t < (day + 1) * 86_400_000_000_000
  {
  }

  lemma RaisedCounts(s: State, after: State, bump: nat, now: Time)
    requires s.session.Some? && after.session.Some? && after.session.value.done == s.session.value.done + bump
    requires after.daily == RaiseDaily(s.daily, DayOf(now), bump) || (bump == 0 && after.daily == s.daily)
    ensures Counts(s, after, bump, now)
  {
    forall day: int
      ensures (if day in after.daily then after.daily[day] else 0) ==
              (if day in s.daily then s.daily[day] else 0) +
              (if day * 86_400_000_000_000 <= now < (day + 1) * 86_400_000_000_000 then bump else 0)
    {
      DayHolds(now, day);
    }
  }

  // ---------- Decisions ----------

  /** A decision on one photo counts one, and decides that photo only. */
  lemma DecisionRecorded(s: State, id: PhotoId, newState: PhotoState, trashFrom: Path, trashTo: Path, now: Time)
    returns (d: Decision)
    requires id in s.photos && s.session.Some?
    ensures var r := RecordDecision(s, id, newState, trashFrom, trashTo, now);
      && r.result == Ok(d) && PushesOne(s, r.state, d) && SameSkips(s, r.state) && Counts(s, r.state, 1, now)
      && OnlyThese(s.photos, r.state.photos, {id})
      && IsDecided(s.photos[id], r.state.photos[id], newState, true, trashTo, now)
    ensures d.photoId == id && d.newState == newState && d.timestamp == now && !d.skipped && d.cluster.None?
    ensures d.trashFrom == trashFrom && d.trashTo == trashTo
    ensures d.prevState == s.photos[id].state && d.prevLastSeenAt == s.photos[id].lastSeenAt
    ensures d.prevKeepCount == s.photos[id].keepCount && d.prevUnsureCount == s.photos[id].unsureCount
  {
    var r := RecordDecision(s, id, newState, trashFrom, trashTo, now);
    d := r.result.value;
    RaisedCounts(s, r.state, 1, now);
  }

  /** What a cluster operation on `n` photos counts. */
  function ClusterCount(settings: Settings, n: nat): nat {
    if settings.clusterCountsAsOne then 1 else if n == 0 then 1 else n
  }

  lemma {:induction false} LastOpDecides(photos: map<PhotoId, Photo>, ops: seq<ClusterMemberOp>, now: Time, i: nat)
    requires AllKnown(photos, ops) && i < |ops|
    requires forall j, k :: 0 <= j < k < |ops| ==> ops[j].photoId != ops[k].photoId
    ensures IsDecided(photos[ops[i].photoId], ApplyOps(photos, ops, now)[ops[i].photoId], ops[i].newState, false,
                      ops[i].trashTo, now)
    decreases |ops|
  {
    var init := ops[..|ops| - 1];
    if i < |init| {
      LastOpDecides(photos, init, now, i);
      assert init[i] == ops[i];
    } else {
      assert !UndoLaws.HasOp(init, ops[i].photoId);
      UndoLaws.ApplyAt(photos, init, now, ops[i].photoId);
    }
  }

  /** A decision on a cluster decides each photo that an operation names as it says, and no other; it counts
      one, or one for each photo, as the settings have it. */
  lemma ClusterDecisionRecorded(s: State, clusterId: PhotoId, ops: seq<ClusterMemberOp>, now: Time)
    returns (d: Decision)
    requires s.session.Some? && AllKnown(s.photos, ops)
    requires forall j, k :: 0 <= j < k < |ops| ==> ops[j].photoId != ops[k].photoId
    ensures var r := RecordClusterDecision(s, clusterId, Some(ops), now);
      && r.result == Ok(d) && PushesOne(s, r.state, d) && SameSkips(s, r.state)
      && Counts(s, r.state, if s.settings.clusterCountsAsOne then 1 else if |ops| == 0 then 1 else |ops|, now)
      && OnlyThese(s.photos, r.state.photos, set i | 0 <= i < |ops| :: ops[i].photoId)
      && forall i :: 0 <= i < |ops| ==>
           IsDecided(s.photos[ops[i].photoId], r.state.photos[ops[i].photoId], ops[i].newState, false,
                     ops[i].trashTo, now)
    ensures d.photoId == clusterId && d.timestamp == now && !d.skipped && d.cluster.Some?
  {
    var r := RecordClusterDecision(s, clusterId, Some(ops), now);
    d := r.result.value;
    RaisedCounts(s, r.state, ClusterCount(s.settings, |ops|), now);
    forall i | 0 <= i < |ops|
      ensures IsDecided(s.photos[ops[i].photoId], r.state.photos[ops[i].photoId], ops[i].newState, false,
                        ops[i].trashTo, now)
    {
      LastOpDecides(s.photos, ops, now, i);
    }
    forall id | id in s.photos && id !in set i | 0 <= i < |ops| :: ops[i].photoId
      ensures r.state.photos[id] == s.photos[id]
    {
      UndoLaws.ApplyAt(s.photos, ops, now, id);
    }
  }

  // ---------- Skips ----------

  /** `r` is the end of `longer`, as much of it as the cap allows. */
  predicate IsEndOf(longer: seq<PhotoId>, cap: nat, r: seq<PhotoId>) {
    && |r| == (if |longer| <= cap then |longer| else cap)
    && r == longer[|longer| - |r|..]
  }

  /** A skip changes nothing about the photo but when it was last seen.  The photo comes last on the list of
      recent skips, which loses at its front what exceeds the target, or five. */
  lemma SkipRecorded(s: State, id: PhotoId, now: Time) returns (d: Decision)
    requires id in s.photos && s.session.Some?
    ensures var r := RecordSkip(s, id, now);
      && r.result == Ok(d) && PushesOne(s, r.state, d)
      && Counts(s, r.state, if s.settings.skipAdvancesCounter then 1 else 0, now)
      && r.state.photos == s.photos[id := s.photos[id].(lastSeenAt := now)]
      && IsEndOf(s.session.value.recentlySkipped + [id],
                 if s.session.value.target > 0 then s.session.value.target else 5,
                 r.state.session.value.recentlySkipped)
    ensures d.photoId == id && d.timestamp == now && d.skipped && d.cluster.None?
  {
    var r := RecordSkip(s, id, now);
    d := r.result.value;
    RaisedCounts(s, r.state, if s.settings.skipAdvancesCounter then 1 else 0, now);
  }

  /** A skip of a cluster changes no photo.  Its members come last on the list of recent skips, which loses at
      its front what exceeds the target, or ten. */
  lemma ClusterSkipRecorded(s: State, clusterId: PhotoId, ids: seq<PhotoId>, now: Time) returns (d: Decision)
    requires s.session.Some?
    ensures var r := SkipCluster(s, clusterId, ids, now);
      && r.result == Ok(d) && PushesOne(s, r.state, d) && r.state.photos == s.photos
      && Counts(s, r.state,
                if !s.settings.skipAdvancesCounter then 0
                else if s.settings.clusterCountsAsOne then 1 else if |ids| == 0 then 1 else |ids|, now)
      && IsEndOf(s.session.value.recentlySkipped + ids,
                 if s.session.value.target > 0 then s.session.value.target else 10,
                 r.state.session.value.recentlySkipped)
    ensures d.photoId == clusterId && d.timestamp == now && d.skipped && d.cluster.Some?
  {
    var r := SkipCluster(s, clusterId, ids, now);
    d := r.result.value;
    RaisedCounts(s, r.state, if s.settings.skipAdvancesCounter then ClusterCount(s.settings, |ids|) else 0, now);
  }

  /** What is left of `cap` after `n`. */
  function Less(cap: nat, n: nat): nat {
    if cap >= n then cap - n else 0
  }

  /** The IDs that a recording puts on the list of recent skips. */
  function Skipping(step: Step): seq<PhotoId> {
    if step.Skip? then [step.id] else if step.SkipMany? then step.ids else []
  }

  /** Undoing what was just recorded takes exactly its own IDs off the list of recent skips: all earlier ones
      come back that had not exceeded the cap. */
  lemma UndoRestoresSkips(s: State, step: Step, cap: nat)
    requires s.session.Some? && Pushes(s, step) && HasMembers(step)
    requires cap == if s.session.value.target > 0 then s.session.value.target else if step.Skip? then 5 else 10
    ensures var before, undone := s.session.value.recentlySkipped, Undo(Exec(s, step)).state.session;
      && undone.Some?
      && if step.Skip? || step.SkipMany?
         then IsEndOf(before, Less(cap, |Skipping(step)|), undone.value.recentlySkipped)
         else undone.value.recentlySkipped == before
  {
    var after := Exec(s, step);
    var before, listed := s.session.value.recentlySkipped, after.session.value.recentlySkipped;
    ExecKeepsSession(s, step);
    RecordingPushes(s, step);
    SessionLaws.UndoUnskips(after);
    if step.Skip? {
      assert listed[|listed| - 1] == step.id;
    } else if step.SkipMany? {
      UnskipBlock(before, step.ids, Pushed(s, step).cluster.value, cap);
    }
  }

  lemma UnskipBlock(before: seq<PhotoId>, ids: seq<PhotoId>, ops: seq<ClusterMemberOp>, cap: nat)
    requires ops == SkipOps(ids)
    ensures IsEndOf(before, Less(cap, |ids|), RemoveEach(Capped(before + ids, cap), ops))
  {
    var listed := Capped(before + ids, cap);
    EndOfListed(before, ids, cap, listed);
    SessionLaws.RemoveSkipped(listed, ops, ids);
  }

  lemma EndOfListed(before: seq<PhotoId>, ids: seq<PhotoId>, cap: nat, listed: seq<PhotoId>)
    requires listed == Capped(before + ids, cap)
    ensures |listed| >= |ids| ==> listed == listed[..|listed| - |ids|] + ids && cap >= |ids|
    ensures |listed| >= |ids| ==> IsEndOf(before, Less(cap, |ids|), listed[..|listed| - |ids|])
    ensures |listed| < |ids| ==> cap < |ids| && multiset(listed) <= multiset(ids)
  {
    if |listed| >= |ids| {
      var room := |listed| - |ids|;
      assert listed[..room] == before[|before| - room..];
    } else {
      assert ids == ids[..|ids| - |listed|] + listed;
    }
  }

  // ---------- Refusals, and what every undo does ----------

  /** Which recordings are refused, and why; a refused one changes nothing.  Of an unknown photo without a
      session, a decision or a skip names the photo, a decision on a cluster the session. */
  lemma RecordingsRefused(s: State, id: PhotoId, newState: PhotoState, trashFrom: Path, trashTo: Path,
                          ops: Option<seq<ClusterMemberOp>>, ids: seq<PhotoId>, now: Time)
    ensures var r := RecordDecision(s, id, newState, trashFrom, trashTo, now);
      && (r.result == Err(PhotoNotFound) <==> id !in s.photos)
      && (r.result == Err(NoActiveSession) <==> id in s.photos && s.session.None?)
      && (r.result.Err? ==> r.state == s)
    ensures var r := RecordSkip(s, id, now);
      && (r.result == Err(PhotoNotFound) <==> id !in s.photos)
      && (r.result == Err(NoActiveSession) <==> id in s.photos && s.session.None?)
      && (r.result.Err? ==> r.state == s)
    ensures var r := RecordClusterDecision(s, id, ops, now);
      && (r.result == Err(NoActiveSession) <==> s.session.None?)
      && (r.result == Err(PhotoNotFound) <==>
            s.session.Some? && ops.Some? && exists op :: op in ops.value && op.photoId !in s.photos)
      && (r.result.Err? ==> r.state == s)
    ensures var r := SkipCluster(s, id, ids, now);
      && (r.result == Err(NoActiveSession) <==> s.session.None?)
      && (r.result.Err? ==> r.state == s)
  {
    if ops.Some? && AllKnown(s.photos, ops.value) {
      assert forall op :: op in ops.value ==> op.photoId in s.photos;
    } else if ops.Some? {
      var i :| 0 <= i < |ops.value| && ops.value[i].photoId !in s.photos;
      assert ops.value[i] in ops.value;
    }
  }

  lemma {:induction false} OthersStay(photos: map<PhotoId, Photo>, ops: seq<ClusterMemberOp>, id: PhotoId)
    requires id in photos && forall op :: op in ops ==> op.photoId != id
    ensures RestoreOps(photos, ops)[id] == photos[id]
    decreases |ops|
  {
    if ops != [] {
      assert ops[|ops| - 1] in ops;
      OthersStay(RestoreOne(photos, ops[|ops| - 1]), ops[..|ops| - 1], id);
    }
  }

  predicate Names(d: Decision, id: PhotoId) {
    d.photoId == id || (d.cluster.Some? && exists op :: op in d.cluster.value && op.photoId == id)
  }

  /** Whatever the top entry is, undo drops it, and leaves alone all photos that it does not name.  It reports
      a photo that is gone, and takes nothing off the count then, or for a skip that added nothing. */
  lemma UndoPops(s: State, d: Decision)
    requires s.session.Some? && s.session.value.stack != []
    requires d == s.session.value.stack[|s.session.value.stack| - 1]
    ensures var r, session := Undo(s), s.session.value;
      && r.state.session.Some?
      && r.state.session.value.stack == session.stack[..|session.stack| - 1]
      && r.state.session.value.startedAt == session.startedAt && r.state.session.value.target == session.target
      && r.state.session.value.mix == session.mix
      && r.state.settings == s.settings && r.state.lastBatchDone == s.lastBatchDone
      && r.state.photos.Keys == s.photos.Keys
      && (forall id :: id in s.photos && !Names(d, id) ==> r.state.photos[id] == s.photos[id])
    ensures var r := Undo(s).result;
      r == if !d.skipped && d.cluster.None? && d.photoId !in s.photos then Err(PhotoNotFound) else Ok(d)
    ensures var before, after := s.session.value.done, Undo(s).state.session.value.done;
      if Undo(s).result.Err? || (d.skipped && !d.advancedCounter) then after == before
      else after == Less(before, if d.counterBump == 0 then 1 else d.counterBump)
  {
    if d.cluster.Some? {
      forall id | id in s.photos && !Names(d, id)
        ensures RestoreOps(s.photos, d.cluster.value)[id] == s.photos[id]
      {
        OthersStay(s.photos, d.cluster.value, id);
      }
    }
  }

  /** There is nothing to undo exactly if there is no session, or nothing on its stack; then nothing changes. */
  lemma NothingUndone(s: State)
    ensures Undo(s).result == Err(NothingToUndo) <==> s.session.None? || s.session.value.stack == []
    ensures Undo(s).result == Err(NothingToUndo) ==> Undo(s).state == s
  {
  }

  // ---------- Sessions, scans and the indexer ----------

  /** A new session has counted, recorded and skipped nothing. */
  lemma SessionStarted(s: State, target: nat, mix: Mix, now: Time)
    requires mix != OtherMix
    ensures var after := StartSession(s, target, mix, now);
      && after.session.Some? && after.photos == s.photos && after.settings == s.settings
      && after.daily == s.daily && after.lastBatchDone == s.lastBatchDone
      && after.session.value.startedAt == now && after.session.value.target == target
      && after.session.value.mix == mix && after.session.value.done == 0
      && after.session.value.stack == [] && after.session.value.recentlySkipped == []
  {
  }

  /** Extending adds to a finite target, or makes it open-ended if nothing is to be added; an open-ended
      session stays so.  The list of recent skips is cleared, and nothing else changes. */
  lemma SessionExtended(s: State, delta: int)
    ensures s.session.None? ==> SessionExtend(s, delta) == s
    ensures s.session.Some? ==>
      var session, after := s.session.value, SessionExtend(s, delta);
      && after.session.Some? && after.photos == s.photos && after.settings == s.settings
      && after.daily == s.daily && after.lastBatchDone == s.lastBatchDone
      && after.session.value.target == (if delta > 0 && session.target > 0 then session.target + delta else 0)
      && after.session.value.recentlySkipped == [] && after.session.value.stack == session.stack
      && after.session.value.done == session.done && after.session.value.mix == session.mix
      && after.session.value.startedAt == session.startedAt
  {
  }

  /** Of the photos that a scan did not find, those in the trash stay and the others go. */
  lemma ScanForgets(s: State, found: set<PhotoId>)
    ensures var after := ForgetMissing(s, found);
      && after == s.(photos := after.photos)
      && (forall id :: id in after.photos <==> id in s.photos && (id in found || s.photos[id].state == Trashed))
      && (forall id :: id in after.photos ==> after.photos[id] == s.photos[id])
  {
  }

  /** A photo that a scan finds is undecided if it is new; if it is known, only its size changes, and its time
      if it had none. */
  lemma ScanRegisters(s: State, id: PhotoId, path: Path, sizeBytes: int, mtime: Time)
    ensures var after := UpsertPhoto(s, id, path, sizeBytes, mtime);
      && after == s.(photos := after.photos) && after.photos.Keys == s.photos.Keys + {id}
      && (forall k :: k in s.photos && k != id ==> after.photos[k] == s.photos[k])
      && var q := after.photos[id];
         && q.sizeBytes == sizeBytes
         && (id !in s.photos ==>
               && q.id == id && q.path == path && q.state == Unsorted && q.keepCount == q.unsureCount == 0
               && q.lastSeenAt == q.lastDecisionAt == q.dhashedAt == 0 && !q.locked
               && q.trashedPath == "" && q.time == mtime)
         && (id in s.photos ==>
               && q == s.photos[id].(sizeBytes := sizeBytes, time := q.time)
               && q.time == if s.photos[id].time == 0 then mtime else s.photos[id].time)
  {
  }

  /** A photo waits to be hashed if it is not in the trash and was never hashed, or by an older version. */
  lemma WaitingMeans(photos: map<PhotoId, Photo>, id: PhotoId)
    ensures id in UnhashedIds(photos) <==>
      id in photos && photos[id].state != Trashed && (photos[id].dhashedAt == 0 || photos[id].hashVersion < 2)
  {
  }
}
