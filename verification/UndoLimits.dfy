/** What undo does not give back: the time of the last decision, the trashed path, and whatever a
    cluster decision without members did. */
module UndoLimits {
  import opened Photos
  import opened StoreModel
  import opened StoreRuns
  import opened UndoLaws

  // ---------- The photo that comes back ----------

  /** The photos whose state an entry decided. */
  function DecidedBy(d: Decision): set<PhotoId> {
    if d.skipped then {}
    else if d.cluster.Some? then set i | 0 <= i < |d.cluster.value| :: d.cluster.value[i].photoId
    else {d.photoId}
  }

  /** A photo without the fields that decisions change. */
  function Undecidable(p: Photo): Photo {
    p.(state := NoState, keepCount := 0, unsureCount := 0, lastSeenAt := 0, lastDecisionAt := 0, trashedPath := "")
  }

  lemma PhotoParts(p: Photo, q: Photo)
    ensures p == q <==>
      StandingOf(p) == StandingOf(q) && p.lastDecisionAt == q.lastDecisionAt && Undecidable(p) == Undecidable(q)
  {
  }

  lemma {:induction false} ApplyDecisionTime(photos: map<PhotoId, Photo>, ops: seq<ClusterMemberOp>, now: Time,
                                             id: PhotoId)
    requires AllKnown(photos, ops) && id in photos
    ensures ApplyOps(photos, ops, now)[id].lastDecisionAt == if HasOp(ops, id) then now else photos[id].lastDecisionAt
    ensures Undecidable(ApplyOps(photos, ops, now)[id]) == Undecidable(photos[id])
  {
    if ops != [] {
      LastOp(ops, id);
      ApplyDecisionTime(photos, ops[..|ops| - 1], now, id);
    }
  }

  lemma {:induction false} RestoreDecisionTime(photos: map<PhotoId, Photo>, ops: seq<ClusterMemberOp>, id: PhotoId)
    requires id in photos
    ensures RestoreOps(photos, ops)[id].lastDecisionAt == photos[id].lastDecisionAt
    ensures Undecidable(RestoreOps(photos, ops)[id]) == Undecidable(photos[id])
    decreases |ops|
  {
    if ops != [] {
      RestoreDecisionTime(RestoreOne(photos, ops[|ops| - 1]), ops[..|ops| - 1], id);
    }
  }

  /** No undo changes the time of a photo's last decision. */
  lemma UndoDecisionTime(s: State, id: PhotoId)
    requires s.session.Some? && id in s.photos
    ensures id in Undo(s).state.photos
    ensures Undo(s).state.photos[id].lastDecisionAt == s.photos[id].lastDecisionAt
    ensures Undecidable(Undo(s).state.photos[id]) == Undecidable(s.photos[id])
  {
    if Stack(s) != [] && !Top(s).skipped && Top(s).cluster.Some? {
      RestoreDecisionTime(s.photos, Top(s).cluster.value, id);
    }
  }

  lemma {:induction false} UndoTimesDecisionTime(s: State, n: nat, id: PhotoId)
    requires s.session.Some? && id in s.photos
    ensures id in UndoTimes(s, n).photos
    ensures UndoTimes(s, n).photos[id].lastDecisionAt == s.photos[id].lastDecisionAt
    ensures Undecidable(UndoTimes(s, n).photos[id]) == Undecidable(s.photos[id])
    decreases n
  {
    if n > 0 {
      UndoDecisionTime(s, id);
      ExecKeepsSession(s, UndoLast);
      UndoTimesDecisionTime(Undo(s).state, n - 1, id);
    }
  }

  lemma DecidedBySnapshot(photos: map<PhotoId, Photo>, ops: seq<ClusterMemberOp>, d: Decision, id: PhotoId)
    requires AllKnown(photos, ops) && id in photos && !d.skipped && d.cluster == Some(Snapshot(photos, ops))
    ensures id in DecidedBy(d) <==> HasOp(ops, id)
  {
    SnapshotHasOps(photos, ops, id);
  }

  /** The time of the last decision after a step: that of the step, for the photos it decides. */
  function TimeAfter(s: State, step: Step, id: PhotoId): Time
    requires id in s.photos
  {
    if Pushes(s, step) && id in DecidedBy(Pushed(s, step)) then Pushed(s, step).timestamp
    else s.photos[id].lastDecisionAt
  }

  lemma StepDecisionTime(s: State, step: Step, id: PhotoId)
    requires s.session.Some? && (IsRecording(step) || IsNeutral(step)) && HasMembers(step) && id in s.photos
    ensures id in Exec(s, step).photos
    ensures Exec(s, step).photos[id].lastDecisionAt == TimeAfter(s, step, id)
    ensures !step.CaptureTime? && !step.Hashed? ==> Undecidable(Exec(s, step).photos[id]) == Undecidable(s.photos[id])
  {
    if step.DecideMany? && Pushes(s, step) {
      ApplyDecisionTime(s.photos, step.ops.value, step.now, id);
      DecidedBySnapshot(s.photos, step.ops.value, Pushed(s, step), id);
    }
  }

  /** What recording an entry and undoing it makes of a photo. */
  function Returned(p: Photo, d: Decision, id: PhotoId): Photo {
    p.(lastDecisionAt := if id in DecidedBy(d) then d.timestamp else p.lastDecisionAt,
       trashedPath := if id in TrashedBy(d) then "" else p.trashedPath)
  }

  lemma StandingReturned(s: State, s': State, ids: set<PhotoId>, id: PhotoId)
    requires s.session.Some? && s'.session.Some? && ViewOf(s') == Cleared(ViewOf(s), ids)
    requires id in s.photos
    ensures id in s'.photos
    ensures StandingOf(s'.photos[id]) ==
      StandingOf(s.photos[id]).(trashedPath := if id in ids then "" else s.photos[id].trashedPath)
  {
    SameKeys(s.photos, s'.photos, ids);
    assert Standings(s'.photos)[id] == ClearPaths(Standings(s.photos), ids)[id];
  }

  /** Whatever was recorded, undoing it gives back every photo but for the time of its last decision
      and its trashed path. */
  lemma UndoReturns(s: State, step: Step, id: PhotoId)
    requires s.session.Some? && HasMembers(step) && Pushes(s, step) && id in s.photos
    ensures id in Undo(Exec(s, step)).state.photos
    ensures Undo(Exec(s, step)).state.photos[id] == Returned(s.photos[id], Pushed(s, step), id)
  {
    var after, undone := Exec(s, step), Undo(Exec(s, step)).state;
    ExecKeepsSession(s, step);
    ExecKeepsSession(after, UndoLast);
    UndoInverts(s, step);
    StandingReturned(s, undone, TrashedBy(Pushed(s, step)), id);
    StepDecisionTime(s, step, id);
    UndoDecisionTime(after, id);
    PhotoParts(undone.photos[id], Returned(s.photos[id], Pushed(s, step), id));
  }

  /** The entry changed nothing about this photo that undo does not give back. */
  predicate ReturnsWhole(p: Photo, d: Decision, id: PhotoId) {
    && (id in DecidedBy(d) ==> p.lastDecisionAt == d.timestamp)
    && (id in TrashedBy(d) ==> p.trashedPath == "")
  }

  /** Undoing what was just recorded gives back the very same photos if and only if each photo decided
      had been decided at that very time before, and each one trashed had no trashed path. */
  lemma DecisionTimeIsNotRestored(s: State, step: Step)
    requires s.session.Some? && HasMembers(step) && Pushes(s, step)
    ensures Undo(Exec(s, step)).state.photos == s.photos <==>
      forall id :: id in s.photos ==> ReturnsWhole(s.photos[id], Pushed(s, step), id)
  {
    var undone := Undo(Exec(s, step)).state.photos;
    SameKeysReturned(s, step);
    forall id | id in s.photos
      ensures undone[id] == s.photos[id] <==> ReturnsWhole(s.photos[id], Pushed(s, step), id)
    {
      UndoReturns(s, step, id);
    }
  }

  lemma SameKeysReturned(s: State, step: Step)
    requires s.session.Some? && HasMembers(step) && Pushes(s, step)
    ensures Undo(Exec(s, step)).state.photos.Keys == s.photos.Keys
  {
    ExecKeepsSession(s, step);
    ExecKeepsSession(Exec(s, step), UndoLast);
    UndoInverts(s, step);
    SameKeys(s.photos, Undo(Exec(s, step)).state.photos, TrashedBy(Pushed(s, step)));
  }

  // ---------- Over a whole run ----------

  /** The time of the last decision on a photo after a run. */
  function LastDecided(s: State, steps: seq<Step>, id: PhotoId): Time
    requires id in s.photos
  {
    if steps == [] then s.photos[id].lastDecisionAt
    else
      var before, step := Run(s, steps[..|steps| - 1]), steps[|steps| - 1];
      if Pushes(before, step) && id in DecidedBy(Pushed(before, step)) then Pushed(before, step).timestamp
      else LastDecided(s, steps[..|steps| - 1], id)
  }

  predicate IsRecorded(step: Step) {
    (IsRecording(step) || IsNeutral(step)) && HasMembers(step)
  }

  predicate TouchesIndex(step: Step) {
    step.CaptureTime? || step.Hashed?
  }

  lemma {:induction false} RunDecisionTime(s: State, steps: seq<Step>, id: PhotoId)
    requires s.session.Some? && id in s.photos && forall i :: 0 <= i < |steps| ==> IsRecorded(steps[i])
    ensures Run(s, steps).session.Some? && id in Run(s, steps).photos
    ensures Run(s, steps).photos[id].lastDecisionAt == LastDecided(s, steps, id)
    ensures (forall i :: 0 <= i < |steps| ==> !TouchesIndex(steps[i])) ==>
      Undecidable(Run(s, steps).photos[id]) == Undecidable(s.photos[id])
    decreases |steps|
  {
    if steps != [] {
      var init, step := steps[..|steps| - 1], steps[|steps| - 1];
      RunDecisionTime(s, init, id);
      StepDecisionTime(Run(s, init), step, id);
      ExecKeepsSession(Run(s, init), step);
    }
  }

  /** However many undos follow a run, the time of a photo's last decision stays that of the last entry
      of the run that decided it, undone or not. */
  lemma LastDecisionStays(s: State, steps: seq<Step>, n: nat, id: PhotoId)
    requires s.session.Some? && id in s.photos && forall i :: 0 <= i < |steps| ==> IsRecorded(steps[i])
    ensures id in UndoTimes(Run(s, steps), n).photos
    ensures UndoTimes(Run(s, steps), n).photos[id].lastDecisionAt == LastDecided(s, steps, id)
  {
    RunDecisionTime(s, steps, id);
    UndoTimesDecisionTime(Run(s, steps), n, id);
  }

  /** The run did nothing to this photo that undoing it does not give back. */
  predicate RunReturnsWhole(s: State, steps: seq<Step>, id: PhotoId)
    requires id in s.photos
  {
    && LastDecided(s, steps, id) == s.photos[id].lastDecisionAt
    && (id in TrashedIn(s, steps) ==> s.photos[id].trashedPath == "")
  }

  /** n recordings, with settings changes and extensions, and n undos give back the very same photos if
      and only if each photo's last decision had been made at the time of the last one on the way, and
      each photo trashed on the way had no trashed path. */
  lemma RunReturnsPhotos(s: State, steps: seq<Step>)
    requires s.session.Some? && forall i :: 0 <= i < |steps| ==> IsRecorded(steps[i]) && !TouchesIndex(steps[i])
    ensures UndoTimes(Run(s, steps), Recordings(s, steps)).photos == s.photos <==>
      forall id :: id in s.photos ==> RunReturnsWhole(s, steps, id)
  {
    var undone := UndoTimes(Run(s, steps), Recordings(s, steps));
    RoundTrip(s, steps);
    SameKeys(s.photos, undone.photos, TrashedIn(s, steps));
    forall id | id in s.photos
      ensures undone.photos[id] == s.photos[id] <==> RunReturnsWhole(s, steps, id)
    {
      RunReturnsPhoto(s, steps, id);
    }
  }

  lemma RunReturnsPhoto(s: State, steps: seq<Step>, id: PhotoId)
    requires s.session.Some? && forall i :: 0 <= i < |steps| ==> IsRecorded(steps[i]) && !TouchesIndex(steps[i])
    requires id in s.photos
    ensures id in UndoTimes(Run(s, steps), Recordings(s, steps)).photos
    ensures UndoTimes(Run(s, steps), Recordings(s, steps)).photos[id] == s.photos[id] <==> RunReturnsWhole(s, steps, id)
  {
    var undone := UndoTimes(Run(s, steps), Recordings(s, steps));
    RoundTrip(s, steps);
    RunDecisionTime(s, steps, id);
    UndoTimesDecisionTime(Run(s, steps), Recordings(s, steps), id);
    StandingReturned(s, undone, TrashedIn(s, steps), id);
    PhotoParts(undone.photos[id], s.photos[id]);
  }

  // ---------- A cluster decision without members ----------

  /** A cluster decision given a nil slice is undone as if it had been a decision on the photo whose
      ID the cluster has: if there is none, the counters stay raised; if there is one, its fields
      are overwritten with zero values.  The view comes back only if they were zero before. */
  lemma NilSliceIsNotUndone(s: State, step: Step)
    requires s.session.Some? && step.DecideMany? && step.ops.None?
    ensures Pushes(s, step) && Exec(s, step).session.Some?
    ensures var undone := Undo(Exec(s, step));
      && undone.state.session.Some?
      && (step.clusterId !in s.photos ==>
            undone.result == Err(PhotoNotFound) && undone.state.session.value.done == s.session.value.done + 1)
      && (step.clusterId in s.photos ==> FieldsOf(undone.state.photos[step.clusterId]) == Fields(NoState, 0, 0, 0))
      && (ViewOf(undone.state) == ViewOf(s) <==>
            step.clusterId in s.photos && FieldsOf(s.photos[step.clusterId]) == Fields(NoState, 0, 0, 0))
  {
    var after := Exec(s, step);
    LowerUndoesRaise(s.daily, DayOf(step.now), 1);
    assert Stack(after)[..|Stack(after)| - 1] == Stack(s);
    var undone := Undo(after).state;
    if step.clusterId in s.photos {
      assert Standings(undone.photos)[step.clusterId].fields == Fields(NoState, 0, 0, 0);
      if FieldsOf(s.photos[step.clusterId]) == Fields(NoState, 0, 0, 0) {
        assert Standings(undone.photos) == Standings(s.photos);
      } else {
        assert Standings(s.photos)[step.clusterId].fields == FieldsOf(s.photos[step.clusterId]);
      }
    }
  }
}
