/** Invariants of every run of a session: what the stack says about the photos, about the list of
    recent skips and about the counters. */
module SessionLaws {
  import opened Photos
  import opened StoreModel
  import opened StoreRuns
  import opened UndoLaws

  // ---------- The stack replays to the present ----------

  type Base = map<PhotoId, Fields>

  function DecidedFields(f: Fields, newState: PhotoState, countsUnsure: bool, t: Time): Fields {
    Fields(newState,
           if newState == Kept then f.keepCount + 1 else f.keepCount,
           if newState == Unsure && countsUnsure then f.unsureCount + 1 else f.unsureCount,
           t)
  }

  /** What the members' transitions do to the fields of one photo. */
  function ReplayOps(f: Fields, ops: seq<ClusterMemberOp>, id: PhotoId, t: Time): Fields {
    if ops == [] then f
    else
      var before := ReplayOps(f, ops[..|ops| - 1], id, t);
      if ops[|ops| - 1].photoId == id then DecidedFields(before, ops[|ops| - 1].newState, false, t) else before
  }

  /** What an entry did to the fields of one photo. */
  function ReplayEntry(f: Fields, d: Decision, id: PhotoId): Fields {
    if d.skipped then (if d.cluster.None? && d.photoId == id then f.(lastSeenAt := d.timestamp) else f)
    else if d.cluster.Some? then ReplayOps(f, d.cluster.value, id, d.timestamp)
    else if d.photoId == id then DecidedFields(f, d.newState, true, d.timestamp)
    else f
  }

  function Replay(f: Fields, stack: seq<Decision>, id: PhotoId): Fields {
    if stack == [] then f
    else ReplayEntry(Replay(f, stack[..|stack| - 1], id), stack[|stack| - 1], id)
  }

  /** What the entry says about a photo's past is what it was. */
  ghost predicate RemembersAt(f: Fields, d: Decision, id: PhotoId) {
    if d.skipped then
      d.cluster.None? && d.photoId == id ==> d.prevLastSeenAt == f.lastSeenAt && d.prevState == d.newState == f.state
    else if d.cluster.Some? then Remember(d.cluster.value, id, f)
    else d.photoId == id ==> Fields(d.prevState, d.prevKeepCount, d.prevUnsureCount, d.prevLastSeenAt) == f
  }

  /** For one photo: replaying the stack gives its present fields, and every entry remembers what it
      replaced. */
  ghost predicate TellsHistory(f: Fields, stack: seq<Decision>, id: PhotoId, now: Fields)
    decreases |stack|
  {
    && Replay(f, stack, id) == now
    && forall i {:trigger stack[i]} :: 0 <= i < |stack| ==> RemembersAt(Replay(f, stack[..i], id), stack[i], id)
  }

  ghost predicate Historic(base: Base, s: State) {
    && s.session.Some?
    && s.photos.Keys <= base.Keys
    && forall id {:trigger TellsHistory(base[id], Stack(s), id, FieldsOf(s.photos[id]))} :: id in s.photos ==>
         TellsHistory(base[id], Stack(s), id, FieldsOf(s.photos[id]))
  }

  lemma HistoryGrows(f: Fields, stack: seq<Decision>, d: Decision, id: PhotoId, before: Fields, after: Fields)
    requires TellsHistory(f, stack, id, before)
    requires RemembersAt(before, d, id) && after == ReplayEntry(before, d, id)
    ensures TellsHistory(f, stack + [d], id, after)
  {
    var longer := stack + [d];
    assert longer[..|longer| - 1] == stack;
    forall i | 0 <= i < |longer|
      ensures RemembersAt(Replay(f, longer[..i], id), longer[i], id)
    {
      if i < |stack| {
        assert longer[..i] == stack[..i];
        assert RemembersAt(Replay(f, stack[..i], id), stack[i], id);
      }
    }
  }

  lemma HistoryShrinks(f: Fields, stack: seq<Decision>, id: PhotoId, now: Fields)
    requires stack != [] && TellsHistory(f, stack, id, now)
    ensures var init := stack[..|stack| - 1];
      && TellsHistory(f, init, id, Replay(f, init, id))
      && RemembersAt(Replay(f, init, id), stack[|stack| - 1], id)
      && now == ReplayEntry(Replay(f, init, id), stack[|stack| - 1], id)
  {
    var init := stack[..|stack| - 1];
    assert RemembersAt(Replay(f, stack[..|stack| - 1], id), stack[|stack| - 1], id);
    forall i | 0 <= i < |init|
      ensures RemembersAt(Replay(f, init[..i], id), init[i], id)
    {
      assert init[..i] == stack[..i];
      assert RemembersAt(Replay(f, stack[..i], id), stack[i], id);
    }
  }

  // What a recording does to the fields of one photo is what its entry replays to.

  lemma {:induction false} ApplyReplays(photos: map<PhotoId, Photo>, ops: seq<ClusterMemberOp>, now: Time, id: PhotoId)
    requires AllKnown(photos, ops) && id in photos
    ensures FieldsOf(ApplyOps(photos, ops, now)[id]) == ReplayOps(FieldsOf(photos[id]), ops, id, now)
  {
    if ops != [] {
      ApplyReplays(photos, ops[..|ops| - 1], now, id);
    }
  }

  lemma {:induction false} SnapshotReplays(photos: map<PhotoId, Photo>, ops: seq<ClusterMemberOp>, now: Time,
                                           id: PhotoId, f: Fields)
    requires AllKnown(photos, ops)
    ensures ReplayOps(f, Snapshot(photos, ops), id, now) == ReplayOps(f, ops, id, now)
  {
    if ops != [] {
      assert Snapshot(photos, ops)[..|ops| - 1] == Snapshot(photos, ops[..|ops| - 1]);
      SnapshotReplays(photos, ops[..|ops| - 1], now, id, f);
    }
  }

  lemma RecordingReplays(s: State, step: Step, id: PhotoId)
    requires s.session.Some? && HasMembers(step) && Pushes(s, step) && id in s.photos
    ensures id in Exec(s, step).photos
    ensures FieldsOf(Exec(s, step).photos[id]) == ReplayEntry(FieldsOf(s.photos[id]), Pushed(s, step), id)
    ensures RemembersAt(FieldsOf(s.photos[id]), Pushed(s, step), id)
  {
    if step.DecideMany? {
      var ops := step.ops.value;
      ApplyReplays(s.photos, ops, step.now, id);
      SnapshotReplays(s.photos, ops, step.now, id, FieldsOf(s.photos[id]));
      SnapshotHasOps(s.photos, ops, id);
    }
  }

  /** Undoing an entry takes a photo back to what the entry remembers. */
  lemma UndoUnreplays(s: State, id: PhotoId, f: Fields)
    requires s.session.Some? && Stack(s) != [] && id in s.photos
    requires RemembersAt(f, Top(s), id) && FieldsOf(s.photos[id]) == ReplayEntry(f, Top(s), id)
    ensures id in Undo(s).state.photos && FieldsOf(Undo(s).state.photos[id]) == f
  {
    var d := Top(s);
    if !d.skipped && d.cluster.Some? {
      RestoreAt(s.photos, d.cluster.value, id, f);
      ReplayNoOps(f, d.cluster.value, id, d.timestamp);
    }
  }

  lemma {:induction false} ReplayNoOps(f: Fields, ops: seq<ClusterMemberOp>, id: PhotoId, t: Time)
    ensures !HasOp(ops, id) ==> ReplayOps(f, ops, id, t) == f
  {
    if ops != [] {
      LastOp(ops, id);
      ReplayNoOps(f, ops[..|ops| - 1], id, t);
    }
  }

  lemma RecordingKeepsHistory(base: Base, s: State, step: Step)
    requires Historic(base, s) && HasMembers(step) && Pushes(s, step)
    ensures Historic(base, Exec(s, step))
  {
    var after := Exec(s, step);
    RecordingPushes(s, step);
    RecordingKeepsPhotos(s, step);
    forall id | id in after.photos
      ensures TellsHistory(base[id], Stack(after), id, FieldsOf(after.photos[id]))
    {
      assert TellsHistory(base[id], Stack(s), id, FieldsOf(s.photos[id]));
      RecordingReplays(s, step, id);
      HistoryGrows(base[id], Stack(s), Pushed(s, step), id, FieldsOf(s.photos[id]), FieldsOf(after.photos[id]));
    }
  }

  lemma RecordingKeepsPhotos(s: State, step: Step)
    requires s.session.Some? && IsRecording(step)
    ensures Exec(s, step).photos.Keys == s.photos.Keys
  {
  }

  lemma UndoPops(s: State)
    requires s.session.Some? && Stack(s) != []
    ensures Undo(s).state.session.Some? && Stack(Undo(s).state) == Stack(s)[..|Stack(s)| - 1]
    ensures Undo(s).state.photos.Keys == s.photos.Keys
  {
  }

  lemma UndoKeepsHistoryAt(f: Fields, s: State, id: PhotoId)
    requires s.session.Some? && Stack(s) != [] && id in s.photos
    requires TellsHistory(f, Stack(s), id, FieldsOf(s.photos[id]))
    ensures id in Undo(s).state.photos
    ensures TellsHistory(f, Stack(s)[..|Stack(s)| - 1], id, FieldsOf(Undo(s).state.photos[id]))
  {
    HistoryShrinks(f, Stack(s), id, FieldsOf(s.photos[id]));
    UndoUnreplays(s, id, Replay(f, Stack(s)[..|Stack(s)| - 1], id));
  }

  lemma UndoKeepsHistory(base: Base, s: State)
    requires Historic(base, s)
    ensures Historic(base, Undo(s).state)
  {
    if Stack(s) != [] {
      var after := Undo(s).state;
      UndoPops(s);
      forall id | id in after.photos
        ensures TellsHistory(base[id], Stack(after), id, FieldsOf(after.photos[id]))
      {
        assert TellsHistory(base[id], Stack(s), id, FieldsOf(s.photos[id]));
        UndoKeepsHistoryAt(base[id], s, id);
      }
    }
  }

  lemma OtherStepsKeepHistory(base: Base, s: State, step: Step)
    requires Historic(base, s) && (IsNeutral(step) || step.Forget?)
    ensures Historic(base, Exec(s, step))
  {
    var after := Exec(s, step);
    forall id | id in after.photos
      ensures TellsHistory(base[id], Stack(after), id, FieldsOf(after.photos[id]))
    {
      assert TellsHistory(base[id], Stack(s), id, FieldsOf(s.photos[id]));
    }
  }

  /** In every state a run reaches, for every photo still there, replaying the stack from the start
      of the session gives its present state, counts and last-seen time; and what each entry
      remembers of its past is what the replay gives just before the entry. */
  lemma {:induction false} StackTellsHistory(s: State, steps: seq<Step>)
    requires s.session.Some? && Stack(s) == []
    requires forall i :: 0 <= i < |steps| ==> HasMembers(steps[i])
    ensures Historic(map id | id in s.photos :: FieldsOf(s.photos[id]), Run(s, steps))
    decreases |steps|
  {
    var base := map id | id in s.photos :: FieldsOf(s.photos[id]);
    if steps == [] {
      forall id | id in s.photos
        ensures TellsHistory(base[id], Stack(s), id, FieldsOf(s.photos[id]))
      {
      }
    } else {
      var init, step := steps[..|steps| - 1], steps[|steps| - 1];
      var before := Run(s, init);
      StackTellsHistory(s, init);
      if IsRecording(step) {
        if Pushes(before, step) {
          RecordingKeepsHistory(base, before, step);
        } else {
          RecordingPushes(before, step);
        }
      } else if step.UndoLast? {
        UndoKeepsHistory(base, before);
      } else {
        OtherStepsKeepHistory(base, before, step);
      }
    }
  }

  // ---------- The list of recent skips ----------

  /** The IDs an entry put on the list of recent skips. */
  function SkippedBy(d: Decision): seq<PhotoId> {
    if !d.skipped then []
    else if d.cluster.Some? then
      seq(|d.cluster.value|, i requires 0 <= i < |d.cluster.value| => d.cluster.value[i].photoId)
    else [d.photoId]
  }

  /** The IDs skipped by the entries still on the stack, in order. */
  function SkipsOn(stack: seq<Decision>): seq<PhotoId> {
    if stack == [] then [] else SkipsOn(stack[..|stack| - 1]) + SkippedBy(stack[|stack| - 1])
  }

  predicate IsSuffix(a: seq<PhotoId>, b: seq<PhotoId>) {
    |a| <= |b| && b[|b| - |a|..] == a
  }

  /** The list of recent skips is the end of what was skipped and not undone, and no longer than the
      session's target, or 10 for an open-ended session. */
  predicate SkipsFit(s: State) {
    && s.session.Some?
    && IsSuffix(s.session.value.recentlySkipped, SkipsOn(Stack(s)))
    && |s.session.value.recentlySkipped| <= CapOf(s.session.value.target, 10)
  }

  lemma {:induction false} RemoveLastIn(front: seq<PhotoId>, block: seq<PhotoId>, id: PhotoId)
    requires id in block
    ensures RemoveLast(front + block, id) == front + RemoveLast(block, id)
    ensures multiset(RemoveLast(block, id)) == multiset(block) - multiset{id}
    decreases |block|
  {
    var init, last := block[..|block| - 1], block[|block| - 1];
    assert block == init + [last];
    assert (front + block)[..|front + block| - 1] == front + init;
    if last != id {
      RemoveLastIn(front, init, id);
      assert front + block == (front + init) + [last];
    }
  }

  lemma {:induction false} RemoveLastAbsent(ids: seq<PhotoId>, id: PhotoId)
    requires id !in ids
    ensures RemoveLast(ids, id) == ids
  {
    RemoveLastAt(ids, id, -1);
  }

  /** Removing the members of a block one by one, in order, removes exactly the block. */
  lemma {:induction false} RemoveBlock(front: seq<PhotoId>, block: seq<PhotoId>, ops: seq<ClusterMemberOp>,
                                       ids: seq<PhotoId>)
    requires |ids| == |ops| && forall i :: 0 <= i < |ops| ==> ids[i] == ops[i].photoId
    requires multiset(block) == multiset(ids)
    ensures RemoveEach(front + block, ops) == front
    decreases |ops|
  {
    if ops == [] {
      assert |multiset(block)| == 0;
      assert front + block == front;
    } else {
      assert ids == [ids[0]] + ids[1..];
      assert ids[0] in multiset(block);
      RemoveLastIn(front, block, ids[0]);
      RemoveBlock(front, RemoveLast(block, ids[0]), ops[1..], ids[1..]);
    }
  }

  /** If only part of the block is left, removing its members leaves nothing. */
  lemma {:induction false} RemoveRemainder(rest: seq<PhotoId>, ops: seq<ClusterMemberOp>, ids: seq<PhotoId>)
    requires |ids| == |ops| && forall i :: 0 <= i < |ops| ==> ids[i] == ops[i].photoId
    requires multiset(rest) <= multiset(ids)
    ensures RemoveEach(rest, ops) == []
    decreases |ops|
  {
    if ops == [] {
      assert |multiset(rest)| == 0;
    } else {
      assert ids == [ids[0]] + ids[1..];
      if ids[0] in rest {
        RemoveLastIn([], rest, ids[0]);
        assert [] + rest == rest && [] + RemoveLast(rest, ids[0]) == RemoveLast(rest, ids[0]);
      } else {
        RemoveLastAbsent(rest, ids[0]);
        assert multiset(rest)[ids[0]] == 0;
      }
      RemoveRemainder(RemoveLast(rest, ids[0]), ops[1..], ids[1..]);
    }
  }

  lemma SuffixOfParts(a: seq<PhotoId>, front: seq<PhotoId>, block: seq<PhotoId>)
    requires IsSuffix(a, front + block)
    ensures |a| >= |block| ==> a == a[..|a| - |block|] + block && IsSuffix(a[..|a| - |block|], front)
    ensures |a| < |block| ==> multiset(a) <= multiset(block)
  {
    if |a| >= |block| {
      var whole := front + block;
      assert a == whole[|whole| - |a|..];
      assert a[|a| - |block|..] == block;
      assert a[..|a| - |block|] == front[|front| - (|a| - |block|)..];
    } else {
      assert a == block[|block| - |a|..];
      assert block == block[..|block| - |a|] + a;
    }
  }

  lemma CappedIsSuffix(ids: seq<PhotoId>, more: seq<PhotoId>, all: seq<PhotoId>, cap: nat)
    requires IsSuffix(ids, all)
    ensures IsSuffix(Capped(ids + more, cap), all + more) && |Capped(ids + more, cap)| <= cap
  {
    assert (all + more)[|all + more| - |ids + more|..] == ids + more;
    var capped := Capped(ids + more, cap);
    assert (all + more)[|all + more| - |capped|..] == (ids + more)[|ids + more| - |capped|..];
  }

  lemma RecordingFitsSkips(s: State, step: Step)
    requires SkipsFit(s) && Pushes(s, step)
    ensures SkipsFit(Exec(s, step))
  {
    var d := Pushed(s, step);
    RecordingPushes(s, step);
    var session := s.session.value;
    var after := Stack(s) + [d];
    assert after[..|after| - 1] == Stack(s);
    if step.Skip? {
      CappedIsSuffix(session.recentlySkipped, [step.id], SkipsOn(Stack(s)), CapOf(session.target, 5));
    } else if step.SkipMany? {
      assert SkippedBy(d) == step.ids;
      CappedIsSuffix(session.recentlySkipped, step.ids, SkipsOn(Stack(s)), CapOf(session.target, 10));
    } else {
      assert SkipsOn(after) == SkipsOn(Stack(s));
    }
  }

  /** The list of recent skips after the entry was undone. */
  function Unskipped(recent: seq<PhotoId>, d: Decision): seq<PhotoId> {
    if !d.skipped then recent
    else if d.cluster.Some? then RemoveEach(recent, d.cluster.value)
    else RemoveLast(recent, d.photoId)
  }

  /** Undoing a skip takes the entry's IDs off the end of the list, as far as they are still on it. */
  lemma UnskippedIsSuffix(recent: seq<PhotoId>, d: Decision, earlier: seq<PhotoId>)
    requires IsSuffix(recent, earlier + SkippedBy(d))
    ensures IsSuffix(Unskipped(recent, d), earlier) && |Unskipped(recent, d)| <= |recent|
  {
    var block := SkippedBy(d);
    SuffixOfParts(recent, earlier, block);
    if !d.skipped {
      assert recent[..|recent| - 0] == recent;
    } else if d.cluster.Some? {
      RemoveSkipped(recent, d.cluster.value, block);
    } else if recent != [] {
      assert recent[|recent| - 1] == d.photoId;
      assert RemoveLast(recent, d.photoId) == recent[..|recent| - 1];
    }
  }

  /** Removing the members of a skipped cluster removes its block, or what is left of it. */
  lemma RemoveSkipped(recent: seq<PhotoId>, ops: seq<ClusterMemberOp>, block: seq<PhotoId>)
    requires |block| == |ops| && forall i :: 0 <= i < |ops| ==> block[i] == ops[i].photoId
    requires |recent| >= |block| ==> recent == recent[..|recent| - |block|] + block
    requires |recent| < |block| ==> multiset(recent) <= multiset(block)
    ensures RemoveEach(recent, ops) == if |recent| >= |block| then recent[..|recent| - |block|] else []
  {
    if |recent| >= |block| {
      RemoveBlock(recent[..|recent| - |block|], block, ops, block);
    } else {
      RemoveRemainder(recent, ops, block);
    }
  }

  lemma UndoUnskips(s: State)
    requires s.session.Some? && Stack(s) != []
    ensures var after := Undo(s).state.session;
      && after.Some? && after.value.target == s.session.value.target
      && after.value.recentlySkipped == Unskipped(s.session.value.recentlySkipped, Top(s))
  {
  }

  lemma UndoFitsSkips(s: State)
    requires SkipsFit(s)
    ensures SkipsFit(Undo(s).state)
  {
    if Stack(s) != [] {
      UndoPops(s);
      UndoUnskips(s);
      UnskippedIsSuffix(s.session.value.recentlySkipped, Top(s), SkipsOn(Stack(s)[..|Stack(s)| - 1]));
    }
  }

  /** In every state a run reaches, whatever was evicted, undone or cleared on the way, the list of
      recent skips is the end of the skips still on the stack, and within its cap. */
  lemma {:induction false} SkipsAlwaysFit(s: State, steps: seq<Step>)
    requires s.session.Some? && Stack(s) == [] && s.session.value.recentlySkipped == []
    ensures SkipsFit(Run(s, steps))
    decreases |steps|
  {
    if steps != [] {
      var init, step := steps[..|steps| - 1], steps[|steps| - 1];
      var before := Run(s, init);
      SkipsAlwaysFit(s, init);
      if IsRecording(step) {
        if Pushes(before, step) {
          RecordingFitsSkips(before, step);
        } else {
          RecordingPushes(before, step);
        }
      } else if step.UndoLast? {
        UndoFitsSkips(before);
      }
    }
  }

  /** A photo just skipped is on the list, so that it does not come up again at once. */
  lemma SkippedIsListed(s: State, step: Step)
    requires s.session.Some? && step.Skip? && Pushes(s, step)
    ensures Exec(s, step).session.Some? && step.id in Exec(s, step).session.value.recentlySkipped
  {
    var longer := s.session.value.recentlySkipped + [step.id];
    var listed := Exec(s, step).session.value.recentlySkipped;
    assert listed[|listed| - 1] == longer[|longer| - 1] == step.id;
  }

  /** All members of a cluster just skipped are on the list if and only if the cap has room for them:
      a cluster with more undecided members than the session's target loses the first of them. */
  lemma SkippedClusterIsListed(s: State, step: Step)
    requires s.session.Some? && step.SkipMany?
    requires forall i, j :: 0 <= i < j < |step.ids| ==> step.ids[i] != step.ids[j]
    ensures Exec(s, step).session.Some?
    ensures (forall id :: id in step.ids ==> id in Exec(s, step).session.value.recentlySkipped) <==>
            |step.ids| <= CapOf(s.session.value.target, 10)
  {
    var cap := CapOf(s.session.value.target, 10);
    var longer := s.session.value.recentlySkipped + step.ids;
    var listed := Exec(s, step).session.value.recentlySkipped;
    if |step.ids| <= cap {
      forall i | 0 <= i < |step.ids|
        ensures step.ids[i] in listed
      {
        assert listed[|listed| - |step.ids| + i] == longer[|longer| - |step.ids| + i] == step.ids[i];
      }
    } else {
      assert listed == step.ids[|step.ids| - cap..];
      assert step.ids[0] in step.ids && step.ids[0] !in listed;
    }
  }

  // ---------- The counters ----------

  /** What an entry counted for, which is what undoing it takes off again. */
  function Worth(d: Decision): nat {
    if d.skipped && !d.advancedCounter then 0 else UndoBump(d)
  }

  function TotalWorth(stack: seq<Decision>): nat {
    if stack == [] then 0 else TotalWorth(stack[..|stack| - 1]) + Worth(stack[|stack| - 1])
  }

  function WorthOn(d: Decision, day: Day): nat {
    if DayOf(d.timestamp) == day then Worth(d) else 0
  }

  function TotalWorthOn(stack: seq<Decision>, day: Day): nat {
    if stack == [] then 0 else TotalWorthOn(stack[..|stack| - 1], day) + WorthOn(stack[|stack| - 1], day)
  }

  /** The last entry is a decision on one photo that is gone.  An undo pops it without taking it off
      the counters. */
  predicate MissesPhoto(s: State) {
    && s.session.Some? && Stack(s) != []
    && !Top(s).skipped && Top(s).cluster.None? && Top(s).photoId !in s.photos
  }

  predicate Leaks(s: State, step: Step) {
    step.UndoLast? && MissesPhoto(s)
  }

  function Leaked(s: State, steps: seq<Step>): nat {
    if steps == [] then 0
    else
      var before := Run(s, steps[..|steps| - 1]);
      Leaked(s, steps[..|steps| - 1]) + if Leaks(before, steps[|steps| - 1]) then Worth(Top(before)) else 0
  }

  function LeakedOn(s: State, steps: seq<Step>, day: Day): nat {
    if steps == [] then 0
    else
      var before := Run(s, steps[..|steps| - 1]);
      LeakedOn(s, steps[..|steps| - 1], day) +
      if Leaks(before, steps[|steps| - 1]) then WorthOn(Top(before), day) else 0
  }

  lemma RecordingCounts(s: State, step: Step, day: Day)
    requires s.session.Some? && Pushes(s, step)
    ensures Exec(s, step).session.value.done == s.session.value.done + Worth(Pushed(s, step))
    ensures DailyCount(Exec(s, step).daily, day) == DailyCount(s.daily, day) + WorthOn(Pushed(s, step), day)
  {
  }

  /** If the counters cover what the last entry is worth, undo takes off exactly that; unless it
      leaks, and takes off nothing. */
  lemma UndoCounts(s: State, day: Day)
    requires s.session.Some? && Stack(s) != []
    requires s.session.value.done >= Worth(Top(s))
    requires DailyCount(s.daily, DayOf(Top(s).timestamp)) >= Worth(Top(s))
    ensures var taken := if Leaks(s, UndoLast) then 0 else 1;
      && Undo(s).state.session.value.done == s.session.value.done - taken * Worth(Top(s))
      && DailyCount(Undo(s).state.daily, day) == DailyCount(s.daily, day) - taken * WorthOn(Top(s), day)
  {
  }

  lemma TotalsGrow(stack: seq<Decision>, d: Decision, day: Day)
    ensures TotalWorth(stack + [d]) == TotalWorth(stack) + Worth(d)
    ensures TotalWorthOn(stack + [d], day) == TotalWorthOn(stack, day) + WorthOn(d, day)
  {
    var longer := stack + [d];
    assert longer[..|longer| - 1] == stack;
  }

  /** The counters exceed what the stack is worth by the given amounts. */
  predicate Balanced(s: State, day: Day, extra: int, extraOn: int) {
    && s.session.Some?
    && s.session.value.done == TotalWorth(Stack(s)) + extra
    && DailyCount(s.daily, day) == TotalWorthOn(Stack(s), day) + extraOn
  }

  lemma RecordingBalances(s: State, step: Step, day: Day, extra: int, extraOn: int)
    requires Balanced(s, day, extra, extraOn) && IsRecording(step)
    ensures Balanced(Exec(s, step), day, extra, extraOn)
  {
    RecordingPushes(s, step);
    if Pushes(s, step) {
      RecordingCounts(s, step, day);
      TotalsGrow(Stack(s), Pushed(s, step), day);
    }
  }

  lemma UndoBalances(s: State, day: Day, extra: nat, extraOn: int, extraTop: nat)
    requires Balanced(s, day, extra, extraOn) && Stack(s) != []
    requires Balanced(s, DayOf(Top(s).timestamp), extra, extraTop)
    ensures if Leaks(s, UndoLast)
      then Balanced(Undo(s).state, day, extra + Worth(Top(s)), extraOn + WorthOn(Top(s), day))
      else Balanced(Undo(s).state, day, extra, extraOn)
  {
    UndoPops(s);
    UndoCounts(s, day);
  }

  /** The session count is what the entries on the stack are worth, plus what leaked; and the count
      of each day has grown by what its entries on the stack are worth, plus what leaked. */
  lemma {:induction false} CountersBalance(s: State, steps: seq<Step>, day: Day)
    requires s.session.Some? && Stack(s) == [] && s.session.value.done == 0
    ensures Balanced(Run(s, steps), day, Leaked(s, steps), DailyCount(s.daily, day) + LeakedOn(s, steps, day))
    decreases |steps|
  {
    if steps != [] {
      var init, step := steps[..|steps| - 1], steps[|steps| - 1];
      var before := Run(s, init);
      CountersBalance(s, init, day);
      var extra, extraOn := Leaked(s, init), DailyCount(s.daily, day) + LeakedOn(s, init, day);
      if IsRecording(step) {
        RecordingBalances(before, step, day, extra, extraOn);
      } else if step.UndoLast? && Stack(before) != [] {
        var topDay := DayOf(Top(before).timestamp);
        CountersBalance(s, init, topDay);
        UndoBalances(before, day, extra, extraOn, DailyCount(s.daily, topDay) + LeakedOn(s, init, topDay));
      } else {
        OtherStepsCount(before, step, day);
      }
    }
  }

  lemma OtherStepsCount(s: State, step: Step, day: Day)
    requires s.session.Some? && !IsRecording(step) && (step.UndoLast? ==> Stack(s) == [])
    ensures var after := Exec(s, step);
      && after.session.Some? && Stack(after) == Stack(s)
      && after.session.value.done == s.session.value.done && after.daily == s.daily
  {
  }

  /** If the session count is what the stack is worth, an undo keeps it so if and only if the last entry
      is not a decision on a photo that is gone; that is also when undo fails. */
  lemma UndoKeepsWorth(s: State)
    requires s.session.Some? && Stack(s) != [] && s.session.value.done == TotalWorth(Stack(s))
    ensures var after := Undo(s).state;
      && after.session.Some?
      && (after.session.value.done == TotalWorth(Stack(after)) <==> !MissesPhoto(s))
      && (Undo(s).result.Err? <==> MissesPhoto(s))
  {
    UndoPops(s);
  }

  /** Over a whole run: the session count is what the stack is worth if and only if no undo of the run
      met a decision on a photo that was gone. */
  lemma CountIsWorthIfNothingMissed(s: State, steps: seq<Step>)
    requires s.session.Some? && Stack(s) == [] && s.session.value.done == 0
    ensures var after := Run(s, steps);
      && after.session.Some?
      && (after.session.value.done == TotalWorth(Stack(after)) <==>
            forall i :: 0 <= i < |steps| ==> !LeaksAt(s, steps, i))
  {
    CountersBalance(s, steps, 0);
    LeakedNothing(s, steps);
  }

  /** Step number `i` of the run is an undo that misses its photo. */
  predicate LeaksAt(s: State, steps: seq<Step>, i: nat)
    requires i < |steps|
  {
    Leaks(Run(s, steps[..i]), steps[i])
  }

  lemma LeaksAtInit(s: State, steps: seq<Step>, i: nat)
    requires i + 1 < |steps|
    ensures LeaksAt(s, steps[..|steps| - 1], i) == LeaksAt(s, steps, i)
  {
    assert steps[..|steps| - 1][..i] == steps[..i];
  }

  lemma {:induction false} LeakedNothing(s: State, steps: seq<Step>)
    ensures Leaked(s, steps) == 0 <==> forall i :: 0 <= i < |steps| ==> !LeaksAt(s, steps, i)
    decreases |steps|
  {
    if steps != [] {
      var init := steps[..|steps| - 1];
      LeakedNothing(s, init);
      forall i | 0 <= i < |init|
        ensures LeaksAt(s, init, i) == LeaksAt(s, steps, i)
      {
        LeaksAtInit(s, steps, i);
      }
      LeakedUnfolds(s, steps);
    }
  }

  lemma LeakedUnfolds(s: State, steps: seq<Step>)
    requires steps != []
    ensures Leaked(s, steps) == 0 <==> Leaked(s, steps[..|steps| - 1]) == 0 && !LeaksAt(s, steps, |steps| - 1)
  {
  }

  /** Deciding on a photo, forgetting it, and undoing: the stack is empty again, but the session still
      counts one decision. */
  lemma ForgottenPhotoLeaks(s: State, id: PhotoId, now: Time)
    requires s.session.Some? && Stack(s) == [] && s.session.value.done == 0 && id in s.photos
    ensures var after := Run(s, [Decide(id, Kept, "", "", now), Forget({}), UndoLast]);
      after.session.Some? && Stack(after) == [] && after.session.value.done == 1
  {
    RunThree(s, Decide(id, Kept, "", "", now), Forget({}), UndoLast);
    ForgottenStep(s, id, now);
  }

  lemma RunThree(s: State, a: Step, b: Step, c: Step)
    ensures Run(s, [a, b, c]) == Exec(Exec(Exec(s, a), b), c)
  {
    RunOneMore(s, [], a);
    RunOneMore(s, [a], b);
    RunOneMore(s, [a, b], c);
    assert [] + [a] == [a] && [a] + [b] == [a, b] && [a, b] + [c] == [a, b, c];
  }

  lemma ForgottenStep(s: State, id: PhotoId, now: Time)
    requires s.session.Some? && Stack(s) == [] && s.session.value.done == 0 && id in s.photos
    ensures var after := Exec(Exec(Exec(s, Decide(id, Kept, "", "", now)), Forget({})), UndoLast);
      after.session.Some? && Stack(after) == [] && after.session.value.done == 1
  {
    var decided := Exec(s, Decide(id, Kept, "", "", now));
    assert id in Missing(decided.photos, {});
    var forgotten := Exec(decided, Forget({}));
    UndoPops(forgotten);
  }

  /** The clamps to zero in undo never act: in every state a run reaches, both counters cover the
      entry that undo would pop. */
  lemma ClampsNeverAct(s: State, steps: seq<Step>)
    requires s.session.Some? && Stack(s) == [] && s.session.value.done == 0
    ensures var after := Run(s, steps);
      && after.session.Some?
      && (Stack(after) != [] ==>
            && after.session.value.done >= Worth(Top(after))
            && DailyCount(after.daily, DayOf(Top(after).timestamp)) >= Worth(Top(after)))
  {
    CountersBalance(s, steps, 0);
    if Stack(Run(s, steps)) != [] {
      CountersBalance(s, steps, DayOf(Top(Run(s, steps)).timestamp));
    }
  }

  /** Nothing leaks while no photo is forgotten. */
  lemma {:induction false} NoForgettingNoLeak(s: State, steps: seq<Step>)
    requires s.session.Some? && Stack(s) == []
    requires forall i :: 0 <= i < |steps| ==> !steps[i].Forget? && HasMembers(steps[i])
    ensures Leaked(s, steps) == 0
    ensures Run(s, steps).session.Some? && EntriesKnown(Run(s, steps))
    decreases |steps|
  {
    if steps != [] {
      var init, step := steps[..|steps| - 1], steps[|steps| - 1];
      var before := Run(s, init);
      NoForgettingNoLeak(s, init);
      ExecKeepsSession(before, step);
      if step.UndoLast? && Stack(before) != [] {
        assert EntryKnown(before, Top(before));
      }
      StepKeepsEntriesKnown(before, step);
    }
  }

  lemma StepKeepsEntriesKnown(s: State, step: Step)
    requires s.session.Some? && EntriesKnown(s) && !step.Forget? && HasMembers(step)
    ensures Exec(s, step).session.Some? && EntriesKnown(Exec(s, step))
  {
    var after := Exec(s, step);
    assert after.photos.Keys == s.photos.Keys;
    if IsRecording(step) {
      RecordingPushes(s, step);
    } else if step.UndoLast? && Stack(s) != [] {
      UndoPops(s);
    }
    forall d | d in Stack(after)
      ensures EntryKnown(after, d)
    {
      if d in Stack(s) {
        assert EntryKnown(s, d);
      }
    }
  }

  /** An entry for one photo names a photo that is still there. */
  predicate EntryKnown(s: State, d: Decision) {
    !d.skipped && d.cluster.None? ==> d.photoId in s.photos
  }

  ghost predicate EntriesKnown(s: State)
    requires s.session.Some?
  {
    forall d :: d in Stack(s) ==> EntryKnown(s, d)
  }
}
