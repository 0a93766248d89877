/** Undo gives back what was recorded: n recordings, then n undos. */
module UndoLaws {
  import opened Photos
  import opened StoreModel
  import opened StoreRuns

  // ---------- What undo is about ----------

  /** The fields of a photo that decisions change and undo restores. */
  datatype Fields = Fields(state: PhotoState, keepCount: nat, unsureCount: nat, lastSeenAt: Time)

  datatype Standing = Standing(fields: Fields, trashedPath: Path)

  function FieldsOf(p: Photo): Fields {
    Fields(p.state, p.keepCount, p.unsureCount, p.lastSeenAt)
  }

  function StandingOf(p: Photo): Standing {
    Standing(FieldsOf(p), p.trashedPath)
  }

  function Standings(photos: map<PhotoId, Photo>): map<PhotoId, Standing> {
    map id | id in photos :: StandingOf(photos[id])
  }

  /** The days with a positive count. */
  function BusyDays(daily: map<Day, nat>): map<Day, nat> {
    map day | day in daily && daily[day] > 0 :: daily[day]
  }

  /** Photos, stack and counters: everything undo is meant to restore.  When a photo was last
      decided on is not part of it, nor is the list of recent skips. */
  datatype View = View(standings: map<PhotoId, Standing>, stack: seq<Decision>, done: nat, daily: map<Day, nat>)

  function ViewOf(s: State): View
    requires s.session.Some?
  {
    View(Standings(s.photos), Stack(s), s.session.value.done, BusyDays(s.daily))
  }

  /** The trashed path emptied for the given photos. */
  function ClearPaths(standings: map<PhotoId, Standing>, ids: set<PhotoId>): map<PhotoId, Standing> {
    map id | id in standings :: if id in ids then standings[id].(trashedPath := "") else standings[id]
  }

  function Cleared(v: View, ids: set<PhotoId>): View {
    v.(standings := ClearPaths(v.standings, ids))
  }

  /** The photos that an entry moved to the trash. */
  function TrashedBy(d: Decision): set<PhotoId> {
    if d.cluster.Some? then
      set i | 0 <= i < |d.cluster.value| && d.cluster.value[i].newState == Trashed :: d.cluster.value[i].photoId
    else if !d.skipped && d.newState == Trashed then {d.photoId}
    else {}
  }

  // ---------- Counters ----------

  lemma BusyDaysByCount(a: map<Day, nat>, b: map<Day, nat>)
    ensures BusyDays(a) == BusyDays(b) <==> forall day :: DailyCount(a, day) == DailyCount(b, day)
  {
    if BusyDays(a) == BusyDays(b) {
      forall day
        ensures DailyCount(a, day) == DailyCount(b, day)
      {
        assert day in BusyDays(a) <==> day in BusyDays(b);
        assert day in BusyDays(a) ==> BusyDays(a)[day] == BusyDays(b)[day];
      }
    }
    if forall day :: DailyCount(a, day) == DailyCount(b, day) {
      forall day
        ensures day in BusyDays(a) <==> day in BusyDays(b)
        ensures day in BusyDays(a) ==> BusyDays(a)[day] == BusyDays(b)[day]
      {
        assert DailyCount(a, day) == DailyCount(b, day);
      }
    }
  }

  lemma LowerUndoesRaise(daily: map<Day, nat>, day: Day, bump: nat)
    ensures BusyDays(LowerDaily(RaiseDaily(daily, day, bump), day, bump)) == BusyDays(daily)
  {
    BusyDaysByCount(LowerDaily(RaiseDaily(daily, day, bump), day, bump), daily);
  }

  lemma LowerByBusyDays(a: map<Day, nat>, b: map<Day, nat>, day: Day, bump: nat)
    requires BusyDays(a) == BusyDays(b)
    ensures BusyDays(LowerDaily(a, day, bump)) == BusyDays(LowerDaily(b, day, bump))
  {
    BusyDaysByCount(a, b);
    BusyDaysByCount(LowerDaily(a, day, bump), LowerDaily(b, day, bump));
    forall other
      ensures DailyCount(LowerDaily(a, day, bump), other) == DailyCount(LowerDaily(b, day, bump), other)
    {
      assert DailyCount(a, other) == DailyCount(b, other) && DailyCount(a, day) == DailyCount(b, day);
    }
  }

  // ---------- Restoring the members of a cluster ----------

  predicate HasOp(ops: seq<ClusterMemberOp>, id: PhotoId) {
    exists i :: 0 <= i < |ops| && ops[i].photoId == id
  }

  predicate HasTrashOp(ops: seq<ClusterMemberOp>, id: PhotoId) {
    exists i :: 0 <= i < |ops| && ops[i].photoId == id && ops[i].newState == Trashed
  }

  function PrevOf(op: ClusterMemberOp): Fields {
    Fields(op.prevState, op.prevKeepCount, op.prevUnsureCount, op.prevLastSeenAt)
  }

  lemma LastOp(ops: seq<ClusterMemberOp>, id: PhotoId)
    requires ops != []
    ensures HasOp(ops, id) <==> HasOp(ops[..|ops| - 1], id) || ops[|ops| - 1].photoId == id
    ensures HasTrashOp(ops, id) <==>
      (HasTrashOp(ops[..|ops| - 1], id) || (ops[|ops| - 1].photoId == id && ops[|ops| - 1].newState == Trashed))
  {
    var init := ops[..|ops| - 1];
    if HasOp(init, id) {
      var i :| 0 <= i < |init| && init[i].photoId == id;
      assert ops[i].photoId == id;
    }
    if HasTrashOp(init, id) {
      var i :| 0 <= i < |init| && init[i].photoId == id && init[i].newState == Trashed;
      assert ops[i].photoId == id && ops[i].newState == Trashed;
    }
    if HasOp(ops, id) && ops[|ops| - 1].photoId != id {
      var i :| 0 <= i < |ops| && ops[i].photoId == id;
      assert init[i].photoId == id;
    }
    if HasTrashOp(ops, id) && !(ops[|ops| - 1].photoId == id && ops[|ops| - 1].newState == Trashed) {
      var i :| 0 <= i < |ops| && ops[i].photoId == id && ops[i].newState == Trashed;
      assert init[i].photoId == id && init[i].newState == Trashed;
    }
  }

  /** What a cluster decision leaves alone. */
  lemma {:induction false} ApplyAt(photos: map<PhotoId, Photo>, ops: seq<ClusterMemberOp>, now: Time, id: PhotoId)
    requires AllKnown(photos, ops) && id in photos
    ensures !HasOp(ops, id) ==> ApplyOps(photos, ops, now)[id] == photos[id]
    ensures !HasTrashOp(ops, id) ==> ApplyOps(photos, ops, now)[id].trashedPath == photos[id].trashedPath
  {
    if ops != [] {
      LastOp(ops, id);
      ApplyAt(photos, ops[..|ops| - 1], now, id);
    }
  }

  /** Every operation on `id` remembers the fields `f`. */
  ghost predicate Remember(ops: seq<ClusterMemberOp>, id: PhotoId, f: Fields) {
    forall i :: 0 <= i < |ops| && ops[i].photoId == id ==> PrevOf(ops[i]) == f
  }

  /** What restoring the members does to one photo. */
  lemma {:induction false} RestoreAt(photos: map<PhotoId, Photo>, ops: seq<ClusterMemberOp>, id: PhotoId, f: Fields)
    requires id in photos && Remember(ops, id, f)
    ensures var p := RestoreOps(photos, ops)[id];
      && (if HasOp(ops, id) then FieldsOf(p) == f else p == photos[id])
      && p.trashedPath == if HasTrashOp(ops, id) then "" else photos[id].trashedPath
    decreases |ops|
  {
    if ops != [] {
      var op := ops[|ops| - 1];
      LastOp(ops, id);
      RestoreAt(RestoreOne(photos, op), ops[..|ops| - 1], id, f);
    }
  }

  /** Restoring the snapshot undoes the cluster decision, except for the emptied paths. */
  lemma RestoreUndoesApply(photos: map<PhotoId, Photo>, ops: seq<ClusterMemberOp>, now: Time, trashed: set<PhotoId>)
    requires AllKnown(photos, ops)
    requires forall id :: id in trashed <==> HasTrashOp(ops, id)
    ensures Standings(RestoreOps(ApplyOps(photos, ops, now), Snapshot(photos, ops))) ==
      ClearPaths(Standings(photos), trashed)
  {
    var taken := Snapshot(photos, ops);
    forall id | id in photos
      ensures StandingOf(RestoreOps(ApplyOps(photos, ops, now), taken)[id]) ==
        ClearPaths(Standings(photos), trashed)[id]
    {
      SnapshotHasOps(photos, ops, id);
      ApplyAt(photos, ops, now, id);
      RestoreAt(ApplyOps(photos, ops, now), taken, id, FieldsOf(photos[id]));
    }
  }

  lemma SnapshotHasOps(photos: map<PhotoId, Photo>, ops: seq<ClusterMemberOp>, id: PhotoId)
    requires AllKnown(photos, ops) && id in photos
    ensures HasOp(Snapshot(photos, ops), id) <==> HasOp(ops, id)
    ensures HasTrashOp(Snapshot(photos, ops), id) <==> HasTrashOp(ops, id)
    ensures Remember(Snapshot(photos, ops), id, FieldsOf(photos[id]))
  {
    var taken := Snapshot(photos, ops);
    if HasOp(ops, id) {
      var i :| 0 <= i < |ops| && ops[i].photoId == id;
      assert taken[i].photoId == id;
    }
    if HasTrashOp(ops, id) {
      var i :| 0 <= i < |ops| && ops[i].photoId == id && ops[i].newState == Trashed;
      assert taken[i].photoId == id && taken[i].newState == Trashed;
    }
  }

  // ---------- One recording and its undo ----------

  lemma RestoredStanding(photos: map<PhotoId, Photo>, id: PhotoId, p: Photo, ids: set<PhotoId>)
    requires id in photos && forall k :: k in ids ==> k == id
    requires StandingOf(p) == Standing(FieldsOf(photos[id]), if id in ids then "" else photos[id].trashedPath)
    ensures Standings(photos[id := p]) == ClearPaths(Standings(photos), ids)
  {
  }

  lemma UndoDecision(s: State, step: Step)
    requires s.session.Some? && step.Decide? && Pushes(s, step)
    ensures ViewOf(Undo(Exec(s, step)).state) == Cleared(ViewOf(s), TrashedBy(Pushed(s, step)))
  {
    var after := Exec(s, step);
    LowerUndoesRaise(s.daily, DayOf(step.now), 1);
    assert Stack(after)[..|Stack(after)| - 1] == Stack(s);
    var undone := Undo(after).state.photos;
    assert undone == s.photos[step.id := undone[step.id]];
    RestoredStanding(s.photos, step.id, undone[step.id], TrashedBy(Pushed(s, step)));
  }

  lemma UndoSkip(s: State, step: Step)
    requires s.session.Some? && step.Skip? && Pushes(s, step)
    ensures ViewOf(Undo(Exec(s, step)).state) == Cleared(ViewOf(s), TrashedBy(Pushed(s, step)))
  {
    var after := Exec(s, step);
    LowerUndoesRaise(s.daily, DayOf(step.now), 1);
    assert Stack(after)[..|Stack(after)| - 1] == Stack(s);
    var undone := Undo(after).state.photos;
    assert undone == s.photos[step.id := undone[step.id]];
    RestoredStanding(s.photos, step.id, undone[step.id], {});
  }

  lemma UndoSkipMany(s: State, step: Step)
    requires s.session.Some? && step.SkipMany?
    ensures Pushes(s, step) && ViewOf(Undo(Exec(s, step)).state) == Cleared(ViewOf(s), TrashedBy(Pushed(s, step)))
  {
    var after := Exec(s, step);
    LowerUndoesRaise(s.daily, DayOf(step.now), ClusterBump(s.settings, |step.ids|));
    assert Stack(after)[..|Stack(after)| - 1] == Stack(s);
    assert TrashedBy(Pushed(s, step)) == {};
    assert Standings(s.photos) == ClearPaths(Standings(s.photos), {});
  }

  lemma UndoDecideMany(s: State, step: Step)
    requires s.session.Some? && step.DecideMany? && HasMembers(step) && Pushes(s, step)
    ensures ViewOf(Undo(Exec(s, step)).state) == Cleared(ViewOf(s), TrashedBy(Pushed(s, step)))
  {
    var after := Exec(s, step);
    var ops := step.ops.value;
    LowerUndoesRaise(s.daily, DayOf(step.now), ClusterBump(s.settings, |ops|));
    assert Stack(after)[..|Stack(after)| - 1] == Stack(s);
    TrashedBySnapshot(s.photos, ops, TrashedBy(Pushed(s, step)), Pushed(s, step));
    RestoreUndoesApply(s.photos, ops, step.now, TrashedBy(Pushed(s, step)));
  }

  lemma TrashedBySnapshot(photos: map<PhotoId, Photo>, ops: seq<ClusterMemberOp>, trashed: set<PhotoId>, d: Decision)
    requires AllKnown(photos, ops) && d.cluster == Some(Snapshot(photos, ops)) && trashed == TrashedBy(d)
    ensures forall id :: id in trashed <==> HasTrashOp(ops, id)
  {
    var taken := Snapshot(photos, ops);
    forall id
      ensures id in trashed <==> HasTrashOp(ops, id)
    {
      if HasTrashOp(ops, id) {
        var i :| 0 <= i < |ops| && ops[i].photoId == id && ops[i].newState == Trashed;
        assert taken[i].photoId == id && taken[i].newState == Trashed;
      }
    }
  }

  /** Undoing what was just recorded restores the view; only the trashed path of photos that were
      moved to the trash comes back empty, whatever it was before. */
  lemma UndoInverts(s: State, step: Step)
    requires s.session.Some? && HasMembers(step) && Pushes(s, step)
    ensures ViewOf(Undo(Exec(s, step)).state) == Cleared(ViewOf(s), TrashedBy(Pushed(s, step)))
  {
    match step {
      case Decide(_, _, _, _, _) => UndoDecision(s, step);
      case Skip(_, _) => UndoSkip(s, step);
      case SkipMany(_, _, _) => UndoSkipMany(s, step);
      case DecideMany(_, _, _) => UndoDecideMany(s, step);
    }
  }

  // ---------- Undo sees nothing but the view ----------

  function RestoreStanding(standings: map<PhotoId, Standing>, op: ClusterMemberOp): map<PhotoId, Standing> {
    if op.photoId in standings then
      var path := if op.newState == Trashed then "" else standings[op.photoId].trashedPath;
      standings[op.photoId := Standing(PrevOf(op), path)]
    else standings
  }

  lemma RestoreOneStanding(photos: map<PhotoId, Photo>, op: ClusterMemberOp)
    ensures Standings(RestoreOne(photos, op)) == RestoreStanding(Standings(photos), op)
  {
  }

  lemma ClearRestore(standings: map<PhotoId, Standing>, op: ClusterMemberOp, ids: set<PhotoId>)
    ensures RestoreStanding(ClearPaths(standings, ids), op) == ClearPaths(RestoreStanding(standings, op), ids)
  {
  }

  lemma {:induction false} RestoreRespects(photos: map<PhotoId, Photo>, others: map<PhotoId, Photo>,
                                           ops: seq<ClusterMemberOp>, ids: set<PhotoId>)
    requires Standings(others) == ClearPaths(Standings(photos), ids)
    ensures Standings(RestoreOps(others, ops)) == ClearPaths(Standings(RestoreOps(photos, ops)), ids)
    decreases |ops|
  {
    if ops != [] {
      var op := ops[|ops| - 1];
      RestoreOneStanding(photos, op);
      RestoreOneStanding(others, op);
      ClearRestore(Standings(photos), op, ids);
      RestoreRespects(RestoreOne(photos, op), RestoreOne(others, op), ops[..|ops| - 1], ids);
    }
  }

  /** An entry for one photo, as an operation on it. */
  function AsOp(d: Decision): ClusterMemberOp {
    ClusterMemberOp(d.photoId, d.prevState, d.newState, d.prevKeepCount, d.prevUnsureCount, d.prevLastSeenAt, "", "")
  }

  function SeenStanding(standings: map<PhotoId, Standing>, id: PhotoId, t: Time): map<PhotoId, Standing>
    requires id in standings
  {
    standings[id := standings[id].(fields := standings[id].fields.(lastSeenAt := t))]
  }

  lemma SeenIsStanding(photos: map<PhotoId, Photo>, id: PhotoId, t: Time)
    requires id in photos
    ensures Standings(photos[id := photos[id].(lastSeenAt := t)]) == SeenStanding(Standings(photos), id, t)
  {
  }

  lemma ClearSeen(standings: map<PhotoId, Standing>, id: PhotoId, t: Time, ids: set<PhotoId>)
    requires id in standings
    ensures SeenStanding(ClearPaths(standings, ids), id, t) == ClearPaths(SeenStanding(standings, id, t), ids)
  {
  }

  lemma SeenRespects(photos: map<PhotoId, Photo>, others: map<PhotoId, Photo>, id: PhotoId, t: Time, ids: set<PhotoId>)
    requires Standings(others) == ClearPaths(Standings(photos), ids)
    requires id in photos && id in others
    ensures Standings(others[id := others[id].(lastSeenAt := t)]) ==
      ClearPaths(Standings(photos[id := photos[id].(lastSeenAt := t)]), ids)
  {
    SeenIsStanding(photos, id, t);
    SeenIsStanding(others, id, t);
    ClearSeen(Standings(photos), id, t, ids);
  }

  lemma SameKeys(photos: map<PhotoId, Photo>, others: map<PhotoId, Photo>, ids: set<PhotoId>)
    requires Standings(others) == ClearPaths(Standings(photos), ids)
    ensures photos.Keys == others.Keys
  {
    assert Standings(others).Keys == others.Keys;
    assert ClearPaths(Standings(photos), ids).Keys == Standings(photos).Keys == photos.Keys;
  }

  lemma UndoPhotosRespect(s: State, other: State, ids: set<PhotoId>)
    requires s.session.Some? && other.session.Some? && Stack(s) == Stack(other) != []
    requires Standings(other.photos) == ClearPaths(Standings(s.photos), ids)
    ensures Standings(Undo(other).state.photos) == ClearPaths(Standings(Undo(s).state.photos), ids)
  {
    var d := Top(s);
    SameKeys(s.photos, other.photos, ids);
    if d.skipped {
      if d.cluster.None? && d.photoId in s.photos {
        SeenRespects(s.photos, other.photos, d.photoId, d.prevLastSeenAt, ids);
      }
    } else if d.cluster.Some? {
      RestoreRespects(s.photos, other.photos, d.cluster.value, ids);
    } else if d.photoId in s.photos {
      RestoreOneStanding(s.photos, AsOp(d));
      RestoreOneStanding(other.photos, AsOp(d));
      ClearRestore(Standings(s.photos), AsOp(d), ids);
    }
  }

  /** Undo takes the entry's bump off the counters unless it was a skip that did not count, or its
      photo is gone. */
  predicate TakesOff(s: State, d: Decision) {
    if d.skipped then d.advancedCounter else d.cluster.Some? || d.photoId in s.photos
  }

  lemma UndoCounters(s: State)
    requires s.session.Some? && Stack(s) != []
    ensures var d, after := Top(s), Undo(s).state;
      && after.session.Some? && Stack(after) == Stack(s)[..|Stack(s)| - 1]
      && after.session.value.done ==
        (if TakesOff(s, d) then Lowered(s.session.value.done, UndoBump(d)) else s.session.value.done)
      && after.daily == (if TakesOff(s, d) then LowerDaily(s.daily, DayOf(d.timestamp), UndoBump(d)) else s.daily)
  {
  }

  lemma UndoCountersRespect(s: State, other: State)
    requires s.session.Some? && other.session.Some? && Stack(s) == Stack(other) != []
    requires s.photos.Keys == other.photos.Keys
    requires s.session.value.done == other.session.value.done && BusyDays(s.daily) == BusyDays(other.daily)
    ensures Undo(s).state.session.Some? && Undo(other).state.session.Some?
    ensures Stack(Undo(s).state) == Stack(Undo(other).state)
    ensures Undo(s).state.session.value.done == Undo(other).state.session.value.done
    ensures BusyDays(Undo(s).state.daily) == BusyDays(Undo(other).state.daily)
  {
    UndoCounters(s);
    UndoCounters(other);
    LowerByBusyDays(s.daily, other.daily, DayOf(Top(s).timestamp), UndoBump(Top(s)));
  }

  lemma ViewParts(s: State, other: State, ids: set<PhotoId>)
    requires s.session.Some? && other.session.Some?
    ensures ViewOf(other) == Cleared(ViewOf(s), ids) <==>
      && Standings(other.photos) == ClearPaths(Standings(s.photos), ids)
      && Stack(other) == Stack(s) && other.session.value.done == s.session.value.done
      && BusyDays(other.daily) == BusyDays(s.daily)
  {
  }

  lemma UndoRespects(s: State, other: State, ids: set<PhotoId>)
    requires s.session.Some? && other.session.Some?
    requires ViewOf(other) == Cleared(ViewOf(s), ids)
    ensures Undo(s).state.session.Some? && Undo(other).state.session.Some?
    ensures ViewOf(Undo(other).state) == Cleared(ViewOf(Undo(s).state), ids)
  {
    ViewParts(s, other, ids);
    SameKeys(s.photos, other.photos, ids);
    if Stack(s) != [] {
      UndoCountersRespect(s, other);
      UndoPhotosRespect(s, other, ids);
      ViewParts(Undo(s).state, Undo(other).state, ids);
    }
  }

  lemma {:induction false} UndoTimesRespects(s: State, other: State, ids: set<PhotoId>, n: nat)
    requires s.session.Some? && other.session.Some?
    requires ViewOf(other) == Cleared(ViewOf(s), ids)
    ensures UndoTimes(s, n).session.Some? && UndoTimes(other, n).session.Some?
    ensures ViewOf(UndoTimes(other, n)) == Cleared(ViewOf(UndoTimes(s, n)), ids)
    decreases n
  {
    if n > 0 {
      ExecKeepsSession(s, UndoLast);
      ExecKeepsSession(other, UndoLast);
      UndoRespects(s, other, ids);
      UndoTimesRespects(Undo(s).state, Undo(other).state, ids, n - 1);
    }
  }

  // ---------- The round trip ----------

  /** How many steps of the run pushed an entry. */
  function Recordings(s: State, steps: seq<Step>): nat {
    if steps == [] then 0
    else
      var init := steps[..|steps| - 1];
      Recordings(s, init) + if Pushes(Run(s, init), steps[|steps| - 1]) then 1 else 0
  }

  /** The photos that some step of the run moved to the trash. */
  function TrashedIn(s: State, steps: seq<Step>): set<PhotoId> {
    if steps == [] then {}
    else
      var init := steps[..|steps| - 1];
      var before := Run(s, init);
      TrashedIn(s, init) +
      if Pushes(before, steps[|steps| - 1]) then TrashedBy(Pushed(before, steps[|steps| - 1])) else {}
  }

  lemma RunUnfolds(s: State, steps: seq<Step>)
    requires steps != []
    ensures var init, step := steps[..|steps| - 1], steps[|steps| - 1];
      && Run(s, steps) == Exec(Run(s, init), step)
      && Recordings(s, steps) == Recordings(s, init) + (if Pushes(Run(s, init), step) then 1 else 0)
      && TrashedIn(s, steps) ==
        TrashedIn(s, init) + (if Pushes(Run(s, init), step) then TrashedBy(Pushed(Run(s, init), step)) else {})
  {
  }

  lemma NeutralKeepsView(s: State, step: Step)
    requires s.session.Some? && IsNeutral(step)
    ensures ViewOf(Exec(s, step)) == ViewOf(s)
  {
    assert Standings(Exec(s, step).photos) == Standings(s.photos);
  }

  lemma ClearedNothing(v: View)
    ensures Cleared(v, {}) == v
  {
  }

  lemma ClearedTwice(v: View, a: set<PhotoId>, b: set<PhotoId>)
    ensures Cleared(Cleared(v, a), b) == Cleared(v, a + b)
  {
  }

  /** One more recording costs one more undo. */
  lemma RoundTripPush(s: State, step: Step, n: nat, v: View, ids: set<PhotoId>)
    requires s.session.Some? && HasMembers(step) && Pushes(s, step)
    requires UndoTimes(s, n).session.Some? && ViewOf(UndoTimes(s, n)) == Cleared(v, ids)
    ensures UndoTimes(Exec(s, step), n + 1).session.Some?
    ensures ViewOf(UndoTimes(Exec(s, step), n + 1)) == Cleared(v, ids + TrashedBy(Pushed(s, step)))
  {
    UndoInverts(s, step);
    ExecKeepsSession(s, step);
    ExecKeepsSession(Exec(s, step), UndoLast);
    UndoTimesRespects(s, Undo(Exec(s, step)).state, TrashedBy(Pushed(s, step)), n);
    ClearedTwice(v, ids, TrashedBy(Pushed(s, step)));
  }

  /** A step that pushes nothing costs nothing. */
  lemma RoundTripOther(s: State, step: Step, n: nat, v: View, ids: set<PhotoId>)
    requires s.session.Some? && (IsRecording(step) || IsNeutral(step)) && !Pushes(s, step)
    requires UndoTimes(s, n).session.Some? && ViewOf(UndoTimes(s, n)) == Cleared(v, ids)
    ensures UndoTimes(Exec(s, step), n).session.Some?
    ensures ViewOf(UndoTimes(Exec(s, step), n)) == Cleared(v, ids)
  {
    ExecKeepsSession(s, step);
    if IsNeutral(step) {
      NeutralKeepsView(s, step);
    } else {
      RecordingPushes(s, step);
    }
    ClearedNothing(ViewOf(s));
    UndoTimesRespects(s, Exec(s, step), {}, n);
    ClearedNothing(ViewOf(UndoTimes(s, n)));
  }

  /** Any run of recordings, settings changes, extensions and indexer writes, followed by as many
      undos as it pushed entries, restores photos, stack, session count and every day's count.  The
      trashed paths of the photos the run moved to the trash come back empty. */
  lemma {:induction false} RoundTrip(s: State, steps: seq<Step>)
    requires s.session.Some?
    requires forall i :: 0 <= i < |steps| ==> (IsRecording(steps[i]) || IsNeutral(steps[i])) && HasMembers(steps[i])
    ensures UndoTimes(Run(s, steps), Recordings(s, steps)).session.Some?
    ensures ViewOf(UndoTimes(Run(s, steps), Recordings(s, steps))) == Cleared(ViewOf(s), TrashedIn(s, steps))
    decreases |steps|
  {
    if steps == [] {
      ClearedNothing(ViewOf(s));
    } else {
      var init := steps[..|steps| - 1];
      RoundTrip(s, init);
      RunKeepsSession(s, init);
      RunUnfolds(s, steps);
      RoundTripOneMore(s, Run(s, init), steps[|steps| - 1], Recordings(s, init), TrashedIn(s, init));
    }
  }

  lemma RoundTripOneMore(s: State, before: State, step: Step, n: nat, ids: set<PhotoId>)
    requires s.session.Some? && before.session.Some? && (IsRecording(step) || IsNeutral(step)) && HasMembers(step)
    requires UndoTimes(before, n).session.Some? && ViewOf(UndoTimes(before, n)) == Cleared(ViewOf(s), ids)
    ensures var pushes := Pushes(before, step);
      var undone := UndoTimes(Exec(before, step), n + if pushes then 1 else 0);
      && undone.session.Some?
      && ViewOf(undone) == Cleared(ViewOf(s), ids + if pushes then TrashedBy(Pushed(before, step)) else {})
  {
    if Pushes(before, step) {
      RoundTripPush(before, step, n, ViewOf(s), ids);
    } else {
      RoundTripOther(before, step, n, ViewOf(s), ids);
      assert ids + {} == ids;
    }
  }

  /** The height of the undo stack. */
  function Height(s: State): nat {
    if s.session.Some? then |Stack(s)| else 0
  }

  predicate IsUndoable(step: Step) {
    (IsRecording(step) || IsNeutral(step) || step.UndoLast?) && HasMembers(step)
  }

  /** After the first `i` steps nothing older than the run has been undone. */
  predicate StaysAbove(s: State, steps: seq<Step>, i: nat)
    requires i <= |steps|
  {
    Height(Run(s, steps[..i])) >= Height(s)
  }

  ghost predicate AlwaysAbove(s: State, steps: seq<Step>) {
    forall i :: 0 <= i <= |steps| ==> StaysAbove(s, steps, i)
  }

  lemma AlwaysAboveInit(s: State, steps: seq<Step>)
    requires steps != [] && AlwaysAbove(s, steps)
    ensures AlwaysAbove(s, steps[..|steps| - 1]) && Height(Run(s, steps)) >= Height(s)
  {
    var init := steps[..|steps| - 1];
    forall i | 0 <= i <= |init|
      ensures StaysAbove(s, init, i)
    {
      assert init[..i] == steps[..i] && StaysAbove(s, steps, i);
    }
    assert steps[..|steps|] == steps && StaysAbove(s, steps, |steps|);
  }

  /** Undoing everything since `s` restores its view, with the trashed paths of the given photos emptied. */
  ghost predicate IsTakenBack(s: State, after: State, ids: set<PhotoId>)
    requires s.session.Some?
  {
    && after.session.Some? && Height(after) >= Height(s)
    && var undone := UndoTimes(after, Height(after) - Height(s));
       undone.session.Some? && ViewOf(undone) == Cleared(ViewOf(s), ids)
  }

  /** Undos may also come in between.  However recordings, undos and the rest alternate, as long as nothing
      older than the run is undone, undoing what is left of it restores the view; the trashed paths of all
      photos trashed on the way come back empty, also of those undone at once. */
  lemma {:induction false} RoundTripWithUndos(s: State, steps: seq<Step>)
    requires s.session.Some? && AlwaysAbove(s, steps) && forall i :: 0 <= i < |steps| ==> IsUndoable(steps[i])
    ensures IsTakenBack(s, Run(s, steps), TrashedIn(s, steps))
    decreases |steps|
  {
    if steps == [] {
      ClearedNothing(ViewOf(s));
    } else {
      AlwaysAboveInit(s, steps);
      RoundTripWithUndos(s, steps[..|steps| - 1]);
      RoundTripUnfolds(s, steps);
    }
  }

  lemma RoundTripUnfolds(s: State, steps: seq<Step>)
    requires s.session.Some? && steps != [] && IsUndoable(steps[|steps| - 1]) && Height(Run(s, steps)) >= Height(s)
    requires IsTakenBack(s, Run(s, steps[..|steps| - 1]), TrashedIn(s, steps[..|steps| - 1]))
    ensures IsTakenBack(s, Run(s, steps), TrashedIn(s, steps))
  {
    var init := steps[..|steps| - 1];
    RunUnfolds(s, steps);
    RoundTripStep(s, Run(s, init), steps[|steps| - 1], TrashedIn(s, init));
  }

  lemma RoundTripStep(s: State, before: State, step: Step, ids: set<PhotoId>)
    requires s.session.Some? && IsUndoable(step) && IsTakenBack(s, before, ids) &&
      Height(Exec(before, step)) >= Height(s)
    ensures IsTakenBack(s, Exec(before, step),
                        ids + if Pushes(before, step) then TrashedBy(Pushed(before, step)) else {})
  {
    var n := Height(before) - Height(s);
    ExecKeepsSession(before, step);
    assert ids + {} == ids;
    if Pushes(before, step) {
      RecordingPushes(before, step);
      RoundTripPush(before, step, n, ViewOf(s), ids);
    } else if !step.UndoLast? {
      OtherKeepsStack(before, step);
      RoundTripOther(before, step, n, ViewOf(s), ids);
    } else if Stack(before) != [] {
      UndoCounters(before);
    }
  }

  lemma OtherKeepsStack(s: State, step: Step)
    requires s.session.Some? && !Pushes(s, step) && (IsRecording(step) || IsNeutral(step))
    ensures Height(Exec(s, step)) == Height(s)
  {
    if IsRecording(step) {
      RecordingPushes(s, step);
    }
  }
}
