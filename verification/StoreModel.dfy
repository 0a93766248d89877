/** The store's operations as functions on its state.  Each operation is one atomic step: the
    program runs it under a lock.  The class in module `Stores` carries them out. */
module StoreModel {
  import opened Photos

  datatype Error = PhotoNotFound | NoActiveSession | NothingToUndo | InvalidMix | NegativeTarget

  type Day = int

  const NANOS_PER_DAY := 86_400_000_000_000

  /** The calendar day of a timestamp; days start at midnight of one fixed time zone. */
  function DayOf(t: Time): Day {
    t / NANOS_PER_DAY
  }

  datatype State = State(
    photos: map<PhotoId, Photo>,
    session: Option<Session>,
    settings: Settings,
    daily: map<Day, nat>,
    lastBatchDone: nat)

  /** The list holds every photo of the map exactly once. */
  ghost predicate Lists(photos: map<PhotoId, Photo>, list: seq<Photo>) {
    && DistinctIds(list)
    && forall p :: p in list <==> p.id in photos && photos[p.id] == p
  }

  /** What an operation leaves behind and what it returns. */
  datatype Outcome = Outcome(state: State, result: Result<Decision, Error>)

  // ---------- Counters ----------

  function DailyCount(daily: map<Day, nat>, day: Day): nat {
    if day in daily then daily[day] else 0
  }

  function Lowered(count: nat, bump: nat): nat {
    if count >= bump then count - bump else 0
  }

  function RaiseDaily(daily: map<Day, nat>, day: Day, bump: nat): map<Day, nat> {
    daily[day := DailyCount(daily, day) + bump]
  }

  function LowerDaily(daily: map<Day, nat>, day: Day, bump: nat): map<Day, nat> {
    daily[day := Lowered(DailyCount(daily, day), bump)]
  }

  /** How much a cluster operation on `n` photos counts for. */
  function ClusterBump(settings: Settings, n: nat): nat {
    if settings.clusterCountsAsOne || n < 1 then 1 else n
  }

  // ---------- Decisions on one photo ----------

  function Decided(p: Photo, newState: PhotoState, trashTo: Path, now: Time): Photo {
    p.(state := newState,
       keepCount := if newState == Kept then p.keepCount + 1 else p.keepCount,
       unsureCount := if newState == Unsure then p.unsureCount + 1 else p.unsureCount,
       trashedPath := if newState == Trashed then trashTo else p.trashedPath,
       lastDecisionAt := now,
       lastSeenAt := now)
  }

  function DecisionEntry(p: Photo, id: PhotoId, newState: PhotoState, trashFrom: Path, trashTo: Path,
                         now: Time): Decision {
    Decision(id, p.state, newState, now, p.keepCount, p.unsureCount, p.lastSeenAt, trashFrom, trashTo,
             false, false, 0, None)
  }

  function RecordDecision(s: State, id: PhotoId, newState: PhotoState, trashFrom: Path, trashTo: Path,
                          now: Time): Outcome {
    if id !in s.photos then Outcome(s, Err(PhotoNotFound))
    else if s.session.None? then Outcome(s, Err(NoActiveSession))
    else
      var d := DecisionEntry(s.photos[id], id, newState, trashFrom, trashTo, now);
      var session := s.session.value;
      Outcome(s.(photos := s.photos[id := Decided(s.photos[id], newState, trashTo, now)],
                 session := Some(session.(done := session.done + 1, stack := session.stack + [d])),
                 daily := RaiseDaily(s.daily, DayOf(now), 1)),
              Ok(d))
  }

  // ---------- Skips ----------

  /** Drops the oldest IDs beyond the cap. */
  function Capped(ids: seq<PhotoId>, cap: nat): seq<PhotoId> {
    if |ids| > cap then ids[|ids| - cap..] else ids
  }

  function CapOf(target: nat, whenOpenEnded: nat): nat {
    if target <= 0 then whenOpenEnded else target
  }

  function RecordSkip(s: State, id: PhotoId, now: Time): Outcome {
    if id !in s.photos then Outcome(s, Err(PhotoNotFound))
    else if s.session.None? then Outcome(s, Err(NoActiveSession))
    else
      var p := s.photos[id];
      var session := s.session.value;
      var advance := s.settings.skipAdvancesCounter;
      var d := Decision(id, p.state, p.state, now, 0, 0, p.lastSeenAt, "", "", true, advance, 0, None);
      Outcome(s.(photos := s.photos[id := p.(lastSeenAt := now)],
                 session := Some(session.(
                   done := if advance then session.done + 1 else session.done,
                   stack := session.stack + [d],
                   recentlySkipped := Capped(session.recentlySkipped + [id], CapOf(session.target, 5)))),
                 daily := if advance then RaiseDaily(s.daily, DayOf(now), 1) else s.daily),
              Ok(d))
  }

  function SkipOp(id: PhotoId): ClusterMemberOp {
    ClusterMemberOp(id, NoState, NoState, 0, 0, 0, "", "")
  }

  function SkipOps(ids: seq<PhotoId>): seq<ClusterMemberOp> {
    seq(|ids|, i requires 0 <= i < |ids| => SkipOp(ids[i]))
  }

  function SkipCluster(s: State, clusterId: PhotoId, ids: seq<PhotoId>, now: Time): Outcome {
    if s.session.None? then Outcome(s, Err(NoActiveSession))
    else
      var session := s.session.value;
      var advance := s.settings.skipAdvancesCounter;
      var bump := if advance then ClusterBump(s.settings, |ids|) else 0;
      var d := Decision(clusterId, NoState, NoState, now, 0, 0, 0, "", "", true, advance, bump, Some(SkipOps(ids)));
      Outcome(s.(session := Some(session.(
                   done := session.done + bump,
                   stack := session.stack + [d],
                   recentlySkipped := Capped(session.recentlySkipped + ids, CapOf(session.target, 10)))),
                 daily := if advance then RaiseDaily(s.daily, DayOf(now), bump) else s.daily),
              Ok(d))
  }

  // ---------- Decisions on a cluster ----------

  /** The members of a possibly nil slice. */
  function Members(ops: Option<seq<ClusterMemberOp>>): seq<ClusterMemberOp> {
    if ops.None? then [] else ops.value
  }

  predicate AllKnown(photos: map<PhotoId, Photo>, ops: seq<ClusterMemberOp>) {
    forall i :: 0 <= i < |ops| ==> ops[i].photoId in photos
  }

  function SnapshotOne(p: Photo, op: ClusterMemberOp): ClusterMemberOp {
    op.(prevState := p.state, prevKeepCount := p.keepCount, prevUnsureCount := p.unsureCount,
        prevLastSeenAt := p.lastSeenAt)
  }

  /** The operations with the state each photo has before any of them. */
  function Snapshot(photos: map<PhotoId, Photo>, ops: seq<ClusterMemberOp>): (r: seq<ClusterMemberOp>)
    requires AllKnown(photos, ops)
    ensures |r| == |ops|
    ensures forall i :: 0 <= i < |ops| ==> r[i] == SnapshotOne(photos[ops[i].photoId], ops[i])
  {
    seq(|ops|, i requires 0 <= i < |ops| => SnapshotOne(photos[ops[i].photoId], ops[i]))
  }

  function DecidedInCluster(p: Photo, newState: PhotoState, trashTo: Path, now: Time): Photo {
    p.(state := newState,
       keepCount := if newState == Kept then p.keepCount + 1 else p.keepCount,
       trashedPath := if newState == Trashed then trashTo else p.trashedPath,
       lastDecisionAt := now,
       lastSeenAt := now)
  }

  /** The photos after the operations, carried out from the first to the last. */
  function ApplyOps(photos: map<PhotoId, Photo>, ops: seq<ClusterMemberOp>, now: Time): (r: map<PhotoId, Photo>)
    requires AllKnown(photos, ops)
    ensures r.Keys == photos.Keys
  {
    if ops == [] then photos
    else
      var op := ops[|ops| - 1];
      var before := ApplyOps(photos, ops[..|ops| - 1], now);
      before[op.photoId := DecidedInCluster(before[op.photoId], op.newState, op.trashTo, now)]
  }

  lemma {:induction false} SnapshotApplies(photos: map<PhotoId, Photo>, ops: seq<ClusterMemberOp>, now: Time)
    requires AllKnown(photos, ops)
    ensures AllKnown(photos, Snapshot(photos, ops))
    ensures ApplyOps(photos, Snapshot(photos, ops), now) == ApplyOps(photos, ops, now)
  {
    if ops != [] {
      var init := ops[..|ops| - 1];
      assert Snapshot(photos, ops)[..|ops| - 1] == Snapshot(photos, init);
      SnapshotApplies(photos, init, now);
    }
  }

  function RecordClusterDecision(s: State, clusterId: PhotoId, ops: Option<seq<ClusterMemberOp>>, now: Time): Outcome {
    if s.session.None? then Outcome(s, Err(NoActiveSession))
    else if !AllKnown(s.photos, Members(ops)) then Outcome(s, Err(PhotoNotFound))
    else
      var session := s.session.value;
      var taken := Snapshot(s.photos, Members(ops));
      var bump := ClusterBump(s.settings, |taken|);
      var d := Decision(clusterId, NoState, NoState, now, 0, 0, 0, "", "", false, false, bump,
                        if ops.None? then None else Some(taken));
      Outcome(s.(photos := ApplyOps(s.photos, Members(ops), now),
                 session := Some(session.(done := session.done + bump, stack := session.stack + [d])),
                 daily := RaiseDaily(s.daily, DayOf(now), bump)),
              Ok(d))
  }

  // ---------- Undo ----------

  /** What undoing an entry takes off the counters, if it takes anything. */
  function UndoBump(d: Decision): nat {
    if d.counterBump <= 0 then 1 else d.counterBump
  }

  /** Removes the last occurrence of `id`, if there is one. */
  function RemoveLast(ids: seq<PhotoId>, id: PhotoId): seq<PhotoId> {
    if ids == [] then []
    else if ids[|ids| - 1] == id then ids[..|ids| - 1]
    else RemoveLast(ids[..|ids| - 1], id) + [ids[|ids| - 1]]
  }

  lemma {:induction false} RemoveLastAt(ids: seq<PhotoId>, id: PhotoId, i: int)
    requires -1 <= i < |ids|
    requires forall k :: i < k < |ids| ==> ids[k] != id
    requires i >= 0 ==> ids[i] == id
    ensures RemoveLast(ids, id) == if i >= 0 then ids[..i] + ids[i + 1..] else ids
  {
    if ids != [] && ids[|ids| - 1] != id {
      var init := ids[..|ids| - 1];
      RemoveLastAt(init, id, i);
      assert ids == init + [ids[|ids| - 1]];
      if i >= 0 {
        assert ids[i + 1..] == init[i + 1..] + [ids[|ids| - 1]];
        assert ids[..i] == init[..i];
      }
    } else if ids != [] {
      assert i == |ids| - 1;
      assert ids[i + 1..] == [];
    }
  }

  function RemoveEach(ids: seq<PhotoId>, ops: seq<ClusterMemberOp>): seq<PhotoId>
    decreases |ops|
  {
    if ops == [] then ids else RemoveEach(RemoveLast(ids, ops[0].photoId), ops[1..])
  }

  function Restored(p: Photo, prevState: PhotoState, keepCount: nat, unsureCount: nat, lastSeenAt: Time,
                    newState: PhotoState): Photo {
    p.(state := prevState, keepCount := keepCount, unsureCount := unsureCount, lastSeenAt := lastSeenAt,
       trashedPath := if newState == Trashed then "" else p.trashedPath)
  }

  function RestoreOne(photos: map<PhotoId, Photo>, op: ClusterMemberOp): (r: map<PhotoId, Photo>)
    ensures r.Keys == photos.Keys
  {
    if op.photoId in photos then
      photos[op.photoId := Restored(photos[op.photoId], op.prevState, op.prevKeepCount, op.prevUnsureCount,
                                    op.prevLastSeenAt, op.newState)]
    else photos
  }

  /** The photos after every member was restored, from the last to the first. */
  function RestoreOps(photos: map<PhotoId, Photo>, ops: seq<ClusterMemberOp>): (r: map<PhotoId, Photo>)
    ensures r.Keys == photos.Keys
  {
    if ops == [] then photos else RestoreOps(RestoreOne(photos, ops[|ops| - 1]), ops[..|ops| - 1])
  }

  function RollBack(s: State, d: Decision): State
    requires s.session.Some?
  {
    s.(session := Some(s.session.value.(done := Lowered(s.session.value.done, UndoBump(d)))),
       daily := LowerDaily(s.daily, DayOf(d.timestamp), UndoBump(d)))
  }

  /** The entry popped, the photos and the skip list as given. */
  function Popped(s: State, photos: map<PhotoId, Photo>, recentlySkipped: seq<PhotoId>): State
    requires s.session.Some? && s.session.value.stack != []
  {
    var session := s.session.value;
    s.(photos := photos,
       session := Some(session.(stack := session.stack[..|session.stack| - 1], recentlySkipped := recentlySkipped)))
  }

  function Undo(s: State): Outcome {
    if s.session.None? || s.session.value.stack == [] then Outcome(s, Err(NothingToUndo))
    else
      var session := s.session.value;
      var d := session.stack[|session.stack| - 1];
      if d.skipped && d.cluster.Some? then
        var popped := Popped(s, s.photos, RemoveEach(session.recentlySkipped, d.cluster.value));
        Outcome(if d.advancedCounter then RollBack(popped, d) else popped, Ok(d))
      else if d.skipped then
        var photos := if d.photoId in s.photos
          then s.photos[d.photoId := s.photos[d.photoId].(lastSeenAt := d.prevLastSeenAt)] else s.photos;
        var popped := Popped(s, photos, RemoveLast(session.recentlySkipped, d.photoId));
        Outcome(if d.advancedCounter then RollBack(popped, d) else popped, Ok(d))
      else if d.cluster.Some? then
        Outcome(RollBack(Popped(s, RestoreOps(s.photos, d.cluster.value), session.recentlySkipped), d), Ok(d))
      else if d.photoId !in s.photos then
        Outcome(Popped(s, s.photos, session.recentlySkipped), Err(PhotoNotFound))
      else
        var p := s.photos[d.photoId];
        var photos := s.photos[d.photoId := Restored(p, d.prevState, d.prevKeepCount, d.prevUnsureCount,
                                                     d.prevLastSeenAt, d.newState)];
        Outcome(RollBack(Popped(s, photos, session.recentlySkipped), d), Ok(d))
  }

  // ---------- Sessions and settings ----------

  function StartSession(s: State, target: int, mix: Mix, now: Time): (r: State)
    requires mix != OtherMix && target >= 0
  {
    s.(session := Some(Session(now, target, 0, mix, [], [])))
  }

  function SessionExtend(s: State, delta: int): State {
    if s.session.None? then s
    else
      var session := s.session.value;
      var target := if delta <= 0 then 0 else if session.target > 0 then session.target + delta else session.target;
      s.(session := Some(session.(target := target, recentlySkipped := [])))
  }

  /** The photos outside `keep` that are not in the trash. */
  function Missing(photos: map<PhotoId, Photo>, keep: set<PhotoId>): set<PhotoId> {
    set id | id in photos && id !in keep && photos[id].state != Trashed
  }

  function ForgetMissing(s: State, keep: set<PhotoId>): State {
    s.(photos := s.photos - Missing(s.photos, keep))
  }

  // ---------- Photos found by a scan ----------

  function NewPhoto(id: PhotoId, path: Path, sizeBytes: int, mtime: Time): Photo {
    Photo(id, path, Unsorted, 0, 0, 0, 0, false, sizeBytes, "", ZeroWord(), ZeroWord(), 0, 0, mtime)
  }

  /** A photo that is known already gets the file's size, and the file's time if it has none. */
  function UpsertPhoto(s: State, id: PhotoId, path: Path, sizeBytes: int, mtime: Time): State {
    var photo :=
      if id !in s.photos then NewPhoto(id, path, sizeBytes, mtime)
      else s.photos[id].(sizeBytes := sizeBytes, time := if s.photos[id].time == 0 then mtime else s.photos[id].time);
    s.(photos := s.photos[id := photo])
  }

  // ---------- The indexer's writes ----------

  function SetCaptureTime(s: State, id: PhotoId, t: Time): State {
    if t == 0 || id !in s.photos then s else s.(photos := s.photos[id := s.photos[id].(time := t)])
  }

  function SetHash(s: State, id: PhotoId, h: Word, v: Word, now: Time): State {
    if id !in s.photos then s
    else s.(photos := s.photos[id :=
      s.photos[id].(dhash := h, dhashV := v, hashVersion := CURRENT_HASH_VERSION, dhashedAt := now)])
  }

  /** Still to be hashed: never hashed, or under an older version; trashed photos are left alone. */
  predicate Unhashed(p: Photo) {
    p.state != Trashed && (p.dhashedAt == 0 || p.hashVersion < CURRENT_HASH_VERSION)
  }

  ghost function UnhashedIds(photos: map<PhotoId, Photo>): set<PhotoId> {
    set id | id in photos && Unhashed(photos[id])
  }
}
