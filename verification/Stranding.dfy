/** When an undo leaves a file in the trash: a run on which it happens, and runs on which it does not. */
module Stranding {
  import opened Photos
  import opened StoreModel
  import opened StoreRuns
  import SessionLaws
  import UndoLaws
  import opened UndoLimits
  import opened Trash
  import opened FileLaws

  // ---------- A file that is left behind ----------

  /** A photo is trashed; then kept, from a page that still shows it; and then forgotten by a rescan, as it
      is not trashed any more and its file is gone.  Both undos fail. */
  function StrandingRun(id: PhotoId, to: Path, now: Time): seq<Action> {
    [TrashOne(id, to, now), KeepOne(id, now), Aside(Forget({})), UndoOne, UndoOne]
  }

  lemma PlayFive(dirs: Dirs, w: World, a: Action, b: Action, c: Action, d: Action, e: Action)
    ensures var w1 := Perform(dirs, w, a);
      var w2 := Perform(dirs, w1, b);
      var w3 := Perform(dirs, w2, c);
      var w4 := Perform(dirs, w3, d);
      && Play(dirs, w, [a, b, c, d, e]) == Perform(dirs, w4, e)
      && (Feasible(dirs, w, [a, b, c, d, e]) <==>
            && Possible(dirs, w, a) && Possible(dirs, w1, b) && Possible(dirs, w2, c)
            && Possible(dirs, w3, d) && Possible(dirs, w4, e))
  {
    assert [] + [a] == [a] && [a] + [b] == [a, b] && [a, b] + [c] == [a, b, c];
    assert [a, b, c] + [d] == [a, b, c, d] && [a, b, c, d] + [e] == [a, b, c, d, e];
    PlayOneMore(dirs, w, [], a);
    PlayOneMore(dirs, w, [a], b);
    PlayOneMore(dirs, w, [a, b], c);
    PlayOneMore(dirs, w, [a, b, c], d);
    PlayOneMore(dirs, w, [a, b, c, d], e);
  }

  /** The world after the photo was trashed, kept and forgotten: two entries name it, and it is gone. */
  lemma TrashedKeptForgotten(dirs: Dirs, w: World, id: PhotoId, to: Path, now: Time)
    requires w.store.session.Some? && Stack(w.store) == [] && Possible(dirs, w, TrashOne(id, to, now))
    ensures var trashed := Perform(dirs, w, TrashOne(id, to, now));
      var kept := Perform(dirs, trashed, KeepOne(id, now));
      var gone := Perform(dirs, kept, Aside(Forget({})));
      && trashed.store.session.Some? && kept.store.session.Some? && gone.store.session.Some?
      && gone.files == Moved(w.files, TrashOp(id, SourceOf(dirs, w.store, id), to))
      && id !in gone.store.photos && |Stack(gone.store)| == 2
      && forall i :: 0 <= i < 2 ==>
        !Stack(gone.store)[i].skipped && Stack(gone.store)[i].cluster.None? && Stack(gone.store)[i].photoId == id
  {
    var trashed := Perform(dirs, w, TrashOne(id, to, now));
    var kept := Perform(dirs, trashed, KeepOne(id, now));
    assert id in Missing(kept.store.photos, {});
  }

  lemma UndoMisses(dirs: Dirs, w: World)
    requires SessionLaws.MissesPhoto(w.store)
    ensures Perform(dirs, w, UndoOne).files == w.files && Perform(dirs, w, UndoOne).store.photos == w.store.photos
    ensures Perform(dirs, w, UndoOne).store.session.Some?
    ensures Stack(Perform(dirs, w, UndoOne).store) == Stack(w.store)[..|Stack(w.store)| - 1]
  {
  }

  /** In the end the stack is empty, but the file of the photo is in the trash. */
  lemma FileIsStranded(dirs: Dirs, w: World, id: PhotoId, to: Path, now: Time)
    requires w.store.session.Some? && Stack(w.store) == [] && Possible(dirs, w, TrashOne(id, to, now))
    ensures var after := Play(dirs, w, StrandingRun(id, to, now));
      && Feasible(dirs, w, StrandingRun(id, to, now)) && after.store.session.Some? && Stack(after.store) == []
      && after.files == Renamed(w.files, SourceOf(dirs, w.store, id), to) && after.files != w.files
  {
    TrashedKeptForgotten(dirs, w, id, to, now);
    var gone := Perform(dirs, Perform(dirs, Perform(dirs, w, TrashOne(id, to, now)), KeepOne(id, now)),
                        Aside(Forget({})));
    PlayFive(dirs, w, TrashOne(id, to, now), KeepOne(id, now), Aside(Forget({})), UndoOne, UndoOne);
    UndoMisses(dirs, gone);
    UndoMisses(dirs, Perform(dirs, gone, UndoOne));
    assert to in Renamed(w.files, SourceOf(dirs, w.store, id), to);
  }

  // ---------- Nothing strands while nothing is forgotten ----------

  lemma RequestKeepsKnown(dirs: Dirs, w: World, a: Action)
    requires Possible(dirs, w, a) && SessionLaws.EntriesKnown(w.store) && (a.Aside? ==> !a.step.Forget?)
    ensures Perform(dirs, w, a).store.session.Some? && SessionLaws.EntriesKnown(Perform(dirs, w, a).store)
  {
    if a.Register? {
      var after := Perform(dirs, w, a).store;
      forall d | d in Stack(after)
        ensures SessionLaws.EntryKnown(after, d)
      {
        assert SessionLaws.EntryKnown(w.store, d);
      }
    } else {
      SessionLaws.StepKeepsEntriesKnown(w.store, StepOf(dirs, w.store, a));
    }
  }

  lemma {:induction false} RunKeepsKnown(dirs: Dirs, w: World, actions: seq<Action>)
    requires w.store.session.Some? && Stack(w.store) == [] && Feasible(dirs, w, actions)
    requires forall i :: 0 <= i < |actions| ==> actions[i].Aside? ==> !actions[i].step.Forget?
    ensures Play(dirs, w, actions).store.session.Some? && SessionLaws.EntriesKnown(Play(dirs, w, actions).store)
    decreases |actions|
  {
    if actions != [] {
      RunKeepsKnown(dirs, w, actions[..|actions| - 1]);
      RequestKeepsKnown(dirs, Play(dirs, w, actions[..|actions| - 1]), actions[|actions| - 1]);
    }
  }

  /** While no photo is forgotten, no undo leaves a file in the trash. */
  lemma NothingForgottenNothingStrands(dirs: Dirs, w: World, actions: seq<Action>)
    requires w.store.session.Some? && Stack(w.store) == [] && Feasible(dirs, w, actions)
    requires forall i :: 0 <= i < |actions| ==> actions[i].Aside? ==> !actions[i].step.Forget?
    ensures NoneStrands(dirs, w, actions, 0)
  {
    forall i | 0 <= i < |actions|
      ensures !StrandsAt(dirs, w, actions, i)
    {
      FeasibleFront(dirs, w, actions, i);
      RunKeepsKnown(dirs, w, actions[..i]);
      var s := Play(dirs, w, actions[..i]).store;
      if Stack(s) != [] {
        assert SessionLaws.EntryKnown(s, Top(s));
      }
    }
  }

  // ---------- Nothing strands while trashed photos are left alone ----------

  /** The request decides on no photo that is in the trash. */
  predicate LeavesTrashAlone(s: State, a: Action) {
    match a
    case TrashOne(id, _, _) => id in s.photos ==> s.photos[id].state != Trashed
    case KeepOne(id, _) => id in s.photos ==> s.photos[id].state != Trashed
    case Resolve(_, ops, _) =>
      forall i :: 0 <= i < |ops| && ops[i].photoId in s.photos ==> s.photos[ops[i].photoId].state != Trashed
    case _ => true
  }

  /** The entry trashed one photo. */
  predicate IsTrashing(d: Decision) {
    !d.skipped && d.cluster.None? && d.newState == Trashed
  }

  /** If entry `i` trashed a photo, the photo is there, in the trash, and no later entry decided on it. */
  ghost predicate StillTrashed(s: State, i: nat)
    requires s.session.Some? && i < |Stack(s)|
  {
    var d := Stack(s)[i];
    IsTrashing(d) ==>
      && d.photoId in s.photos && s.photos[d.photoId].state == Trashed
      && forall j :: i < j < |Stack(s)| ==> d.photoId !in DecidedBy(Stack(s)[j])
  }

  ghost predicate AllStillTrashed(s: State) {
    s.session.Some? && forall i :: 0 <= i < |Stack(s)| ==> StillTrashed(s, i)
  }

  /** A recording changes the state of no photo but those it decides. */
  lemma RecordingKeepsState(s: State, step: Step, id: PhotoId)
    requires s.session.Some? && HasMembers(step) && Pushes(s, step) && id in s.photos &&
      id !in DecidedBy(Pushed(s, step))
    ensures id in Exec(s, step).photos && Exec(s, step).photos[id].state == s.photos[id].state
  {
    if step.DecideMany? {
      DecidedBySnapshot(s.photos, step.ops.value, Pushed(s, step), id);
      UndoLaws.ApplyAt(s.photos, step.ops.value, step.now, id);
    }
  }

  lemma {:induction false} RestoreKeepsState(photos: map<PhotoId, Photo>, ops: seq<ClusterMemberOp>, id: PhotoId)
    requires id in photos && !UndoLaws.HasOp(ops, id)
    ensures RestoreOps(photos, ops)[id] == photos[id]
    decreases |ops|
  {
    if ops != [] {
      UndoLaws.LastOp(ops, id);
      RestoreKeepsState(RestoreOne(photos, ops[|ops| - 1]), ops[..|ops| - 1], id);
    }
  }

  lemma UndoKeepsState(s: State, id: PhotoId)
    requires s.session.Some? && Stack(s) != [] && id in s.photos && id !in DecidedBy(Top(s))
    ensures id in Undo(s).state.photos && Undo(s).state.photos[id].state == s.photos[id].state
  {
    if !Top(s).skipped && Top(s).cluster.Some? {
      RestoreKeepsState(s.photos, Top(s).cluster.value, id);
    }
  }

  lemma PushKeepsTrashed(s: State, step: Step)
    requires AllStillTrashed(s) && HasMembers(step) && Pushes(s, step)
    requires forall id :: id in s.photos && id in DecidedBy(Pushed(s, step)) ==> s.photos[id].state != Trashed
    ensures AllStillTrashed(Exec(s, step))
  {
    var after := Exec(s, step);
    RecordingPushes(s, step);
    ExecKeepsSession(s, step);
    forall i | 0 <= i < |Stack(after)|
      ensures StillTrashed(after, i)
    {
      if i < |Stack(s)| {
        assert StillTrashed(s, i);
        var id := Stack(s)[i].photoId;
        if IsTrashing(Stack(s)[i]) {
          RecordingKeepsState(s, step, id);
        }
      }
    }
  }

  lemma UndoKeepsTrashed(s: State)
    requires AllStillTrashed(s)
    ensures AllStillTrashed(Undo(s).state)
  {
    if Stack(s) != [] {
      var after := Undo(s).state;
      SessionLaws.UndoPops(s);
      forall i | 0 <= i < |Stack(after)|
        ensures StillTrashed(after, i)
      {
        assert StillTrashed(s, i);
        if IsTrashing(Stack(s)[i]) {
          assert Stack(s)[i].photoId !in DecidedBy(Stack(s)[|Stack(s)| - 1]);
          UndoKeepsState(s, Stack(s)[i].photoId);
        }
      }
    }
  }

  /** Steps that leave the stack and the states of photos alone, and forget none in the trash. */
  lemma OtherKeepsTrashed(s: State, after: State)
    requires AllStillTrashed(s) && after.session.Some? && Stack(after) == Stack(s)
    requires forall id :: id in s.photos && s.photos[id].state == Trashed ==>
      id in after.photos && after.photos[id].state == Trashed
    ensures AllStillTrashed(after)
  {
    forall i | 0 <= i < |Stack(after)|
      ensures StillTrashed(after, i)
    {
      assert StillTrashed(s, i);
    }
  }

  lemma DecidesUntrashed(dirs: Dirs, w: World, a: Action)
    requires Possible(dirs, w, a) && LeavesTrashAlone(w.store, a)
    requires !a.Register? && !a.Aside? && Pushes(w.store, StepOf(dirs, w.store, a))
    ensures var d := Pushed(w.store, StepOf(dirs, w.store, a));
      forall id :: id in w.store.photos && id in DecidedBy(d) ==> w.store.photos[id].state != Trashed
  {
    if a.Resolve? {
      var d := Pushed(w.store, StepOf(dirs, w.store, a));
      forall id | id in w.store.photos && id in DecidedBy(d)
        ensures w.store.photos[id].state != Trashed
      {
        DecidedBySnapshot(w.store.photos, a.ops, d, id);
      }
    }
  }

  lemma RequestKeepsTrashed(dirs: Dirs, w: World, a: Action)
    requires Possible(dirs, w, a) && LeavesTrashAlone(w.store, a) && AllStillTrashed(w.store)
    ensures AllStillTrashed(Perform(dirs, w, a).store)
  {
    if a.UndoOne? {
      UndoKeepsTrashed(w.store);
    } else if a.Register? {
      OtherKeepsTrashed(w.store, Perform(dirs, w, a).store);
    } else if a.Aside? {
      SessionLaws.OtherStepsCount(w.store, a.step, 0);
      OtherKeepsTrashed(w.store, Perform(dirs, w, a).store);
    } else {
      var step := StepOf(dirs, w.store, a);
      RecordingPushes(w.store, step);
      if Pushes(w.store, step) {
        DecidesUntrashed(dirs, w, a);
        PushKeepsTrashed(w.store, step);
      }
    }
  }

  predicate LeavesTrashAloneAt(dirs: Dirs, w: World, actions: seq<Action>, i: nat)
    requires i < |actions|
  {
    LeavesTrashAlone(Play(dirs, w, actions[..i]).store, actions[i])
  }

  ghost predicate AlwaysLeavesTrashAlone(dirs: Dirs, w: World, actions: seq<Action>) {
    forall i :: 0 <= i < |actions| ==> LeavesTrashAloneAt(dirs, w, actions, i)
  }

  lemma LeavesTrashAloneFront(dirs: Dirs, w: World, actions: seq<Action>, n: nat)
    requires AlwaysLeavesTrashAlone(dirs, w, actions) && n <= |actions|
    ensures AlwaysLeavesTrashAlone(dirs, w, actions[..n])
  {
    forall i | 0 <= i < n
      ensures LeavesTrashAloneAt(dirs, w, actions[..n], i)
    {
      assert actions[..n][..i] == actions[..i] && LeavesTrashAloneAt(dirs, w, actions, i);
    }
  }

  lemma {:induction false} RunKeepsTrashed(dirs: Dirs, w: World, actions: seq<Action>)
    requires w.store.session.Some? && Stack(w.store) == [] && Feasible(dirs, w, actions)
    requires AlwaysLeavesTrashAlone(dirs, w, actions)
    ensures AllStillTrashed(Play(dirs, w, actions).store)
    decreases |actions|
  {
    if actions != [] {
      FeasibleFront(dirs, w, actions, |actions| - 1);
      LeavesTrashAloneFront(dirs, w, actions, |actions| - 1);
      RunKeepsTrashed(dirs, w, actions[..|actions| - 1]);
      LastKeepsTrashed(dirs, w, actions);
    }
  }

  lemma LastKeepsTrashed(dirs: Dirs, w: World, actions: seq<Action>)
    requires actions != [] && Feasible(dirs, w, actions) && AlwaysLeavesTrashAlone(dirs, w, actions)
    requires AllStillTrashed(Play(dirs, w, actions[..|actions| - 1]).store)
    ensures AllStillTrashed(Play(dirs, w, actions).store)
  {
    assert LeavesTrashAloneAt(dirs, w, actions, |actions| - 1);
    RequestKeepsTrashed(dirs, Play(dirs, w, actions[..|actions| - 1]), actions[|actions| - 1]);
  }

  /** However often the directory is rescanned: while nothing is decided on photos in the trash, no undo
      leaves a file there. */
  lemma TrashLeftAloneNothingStrands(dirs: Dirs, w: World, actions: seq<Action>)
    requires w.store.session.Some? && Stack(w.store) == [] && Feasible(dirs, w, actions)
    requires AlwaysLeavesTrashAlone(dirs, w, actions)
    ensures NoneStrands(dirs, w, actions, 0)
  {
    forall i | 0 <= i < |actions|
      ensures !StrandsAt(dirs, w, actions, i)
    {
      var front := actions[..i];
      FeasibleFront(dirs, w, actions, i);
      LeavesTrashAloneFront(dirs, w, actions, i);
      RunKeepsTrashed(dirs, w, front);
      var s := Play(dirs, w, front).store;
      if Stack(s) != [] {
        assert StillTrashed(s, |Stack(s)| - 1);
      }
    }
  }
}
