/** Store and files together: what the request handlers do to both, and what every run of them keeps. */
module FileLaws {
  import opened Photos
  import opened StoreModel
  import opened StoreRuns
  import SessionLaws
  import opened Trash

  datatype World = World(store: State, files: Files)

  /** What one request amounts to.  The paths in the trash are those the search for a free path
      found; the clusters and members are those the handler looked up. */
  datatype Action =
    | TrashOne(id: PhotoId, to: Path, now: Time)
    | KeepOne(id: PhotoId, now: Time)
    | SkipOne(id: PhotoId, now: Time)
    | SkipAll(clusterId: PhotoId, ids: seq<PhotoId>, now: Time)
    | Resolve(clusterId: PhotoId, ops: seq<ClusterMemberOp>, now: Time)
    | UndoOne
    | Aside(step: Step)
    | Register(id: PhotoId, path: Path, sizeBytes: int, mtime: Time)

  function TrashOp(id: PhotoId, from: Path, to: Path): ClusterMemberOp {
    ClusterMemberOp(id, NoState, Trashed, 0, 0, 0, from, to)
  }

  function SourceOf(dirs: Dirs, s: State, id: PhotoId): Path {
    if id in s.photos then Source(dirs, s.photos[id].path) else ""
  }

  /** The store operation of a request.  A rescan of the photo directory is a series of requests: one
      registers each photo found, and one forgets the rest. */
  function StepOf(dirs: Dirs, s: State, a: Action): Step
    requires !a.Register?
  {
    match a
    case TrashOne(id, to, now) => Decide(id, Trashed, SourceOf(dirs, s, id), to, now)
    case KeepOne(id, now) => Decide(id, Kept, "", "", now)
    case SkipOne(id, now) => Skip(id, now)
    case SkipAll(clusterId, ids, now) => SkipMany(clusterId, ids, now)
    case Resolve(clusterId, ops, now) => DecideMany(clusterId, Some(ops), now)
    case UndoOne => UndoLast
    case Aside(step) => step
  }

  /** The file moves that go with an entry. */
  function MovesOf(d: Decision): seq<ClusterMemberOp> {
    if d.cluster.Some? then d.cluster.value
    else if d.skipped then []
    else [ClusterMemberOp(d.photoId, d.prevState, d.newState, 0, 0, 0, d.trashFrom, d.trashTo)]
  }

  function FilesAfter(dirs: Dirs, w: World, a: Action): Files {
    match a
    case TrashOne(id, to, _) => Moved(w.files, TrashOp(id, SourceOf(dirs, w.store, id), to))
    case Resolve(_, ops, _) => AllMoved(w.files, ops)
    case UndoOne => (match Undo(w.store).result
                     case Ok(d) => AllMovedBack(w.files, MovesOf(d))
                     case Err(_) => w.files)
    case _ => w.files
  }

  function StoreAfter(dirs: Dirs, s: State, a: Action): State {
    if a.Register? then UpsertPhoto(s, a.id, a.path, a.sizeBytes, a.mtime) else Exec(s, StepOf(dirs, s, a))
  }

  function Perform(dirs: Dirs, w: World, a: Action): World {
    World(StoreAfter(dirs, w.store, a), FilesAfter(dirs, w, a))
  }

  /** The requests a handler carries out: known photos whose files are where they belong. */
  predicate Possible(dirs: Dirs, w: World, a: Action) {
    && w.store.session.Some?
    && match a
       case TrashOne(id, to, _) =>
         id in w.store.photos && MoveFits(dirs, w.files, TrashOp(id, SourceOf(dirs, w.store, id), to))
       case Resolve(_, ops, _) => AllKnown(w.store.photos, ops) && MovesFit(dirs, w.files, ops)
       case Aside(step) => IsNeutral(step) || step.Forget?
       case _ => true
  }

  function Play(dirs: Dirs, w: World, actions: seq<Action>): World {
    if actions == [] then w else Perform(dirs, Play(dirs, w, actions[..|actions| - 1]), actions[|actions| - 1])
  }

  predicate Feasible(dirs: Dirs, w: World, actions: seq<Action>) {
    actions == [] ||
    (Feasible(dirs, w, actions[..|actions| - 1]) &&
     Possible(dirs, Play(dirs, w, actions[..|actions| - 1]), actions[|actions| - 1]))
  }

  // ---------- The stack tells where the files are ----------

  /** The files after the moves of all entries, from where they were at the start. */
  function ReplayFiles(files: Files, stack: seq<Decision>): Files {
    if stack == [] then files
    else AllMoved(ReplayFiles(files, stack[..|stack| - 1]), MovesOf(stack[|stack| - 1]))
  }

  ghost predicate EntryFits(dirs: Dirs, start: Files, stack: seq<Decision>, i: nat)
    requires i < |stack|
  {
    MovesFit(dirs, ReplayFiles(start, stack[..i]), MovesOf(stack[i]))
  }

  ghost predicate FilesTell(dirs: Dirs, start: Files, stack: seq<Decision>, files: Files) {
    && ReplayFiles(start, stack) == files
    && forall i {:trigger EntryFits(dirs, start, stack, i)} :: 0 <= i < |stack| ==> EntryFits(dirs, start, stack, i)
  }

  ghost predicate FilesKept(dirs: Dirs, start: Files, w: World) {
    w.store.session.Some? && FilesTell(dirs, start, Stack(w.store), w.files)
  }

  lemma FilesTellMore(dirs: Dirs, start: Files, stack: seq<Decision>, files: Files, d: Decision)
    requires FilesTell(dirs, start, stack, files) && MovesFit(dirs, files, MovesOf(d))
    ensures FilesTell(dirs, start, stack + [d], AllMoved(files, MovesOf(d)))
  {
    var longer := stack + [d];
    assert longer[..|longer| - 1] == stack;
    forall i | 0 <= i < |longer|
      ensures EntryFits(dirs, start, longer, i)
    {
      if i < |stack| {
        assert longer[..i] == stack[..i];
        assert EntryFits(dirs, start, stack, i);
      }
    }
  }

  lemma FilesTellLess(dirs: Dirs, start: Files, stack: seq<Decision>, files: Files)
    requires stack != [] && FilesTell(dirs, start, stack, files)
    ensures var init := stack[..|stack| - 1];
      FilesTell(dirs, start, init, AllMovedBack(files, MovesOf(stack[|stack| - 1])))
  {
    var init, d := stack[..|stack| - 1], stack[|stack| - 1];
    assert EntryFits(dirs, start, stack, |stack| - 1);
    AllMoveBackInverts(dirs, ReplayFiles(start, init), MovesOf(d));
    forall i | 0 <= i < |init|
      ensures EntryFits(dirs, start, init, i)
    {
      assert init[..i] == stack[..i];
      assert EntryFits(dirs, start, stack, i);
    }
  }

  lemma FilesTellInit(dirs: Dirs, start: Files, stack: seq<Decision>, files: Files)
    requires stack != [] && FilesTell(dirs, start, stack, files)
    ensures FilesTell(dirs, start, stack[..|stack| - 1], ReplayFiles(start, stack[..|stack| - 1]))
  {
    var init := stack[..|stack| - 1];
    FilesTellLess(dirs, start, stack, files);
    assert EntryFits(dirs, start, stack, |stack| - 1);
    AllMoveBackInverts(dirs, ReplayFiles(start, init), MovesOf(stack[|stack| - 1]));
  }

  /** The moves of a snapshot are those of the operations. */
  lemma {:induction false} SnapshotMoves(dirs: Dirs, photos: map<PhotoId, Photo>, ops: seq<ClusterMemberOp>,
                                         files: Files)
    requires AllKnown(photos, ops)
    ensures MovesFit(dirs, files, Snapshot(photos, ops)) == MovesFit(dirs, files, ops)
    ensures AllMoved(files, Snapshot(photos, ops)) == AllMoved(files, ops)
    decreases |ops|
  {
    if ops != [] {
      assert Snapshot(photos, ops)[1..] == Snapshot(photos, ops[1..]);
      SnapshotMoves(dirs, photos, ops[1..], Moved(files, ops[0]));
    }
  }

  /** Entries that move nothing. */
  lemma {:induction false} NoMoves(dirs: Dirs, files: Files, ops: seq<ClusterMemberOp>)
    requires forall i :: 0 <= i < |ops| ==> ops[i].newState != Trashed
    ensures MovesFit(dirs, files, ops) && AllMoved(files, ops) == files
    decreases |ops|
  {
    if ops != [] {
      NoMoves(dirs, files, ops[1..]);
    }
  }

  lemma OneMove(dirs: Dirs, files: Files, op: ClusterMemberOp)
    ensures MovesFit(dirs, files, [op]) == MoveFits(dirs, files, op)
    ensures AllMoved(files, [op]) == Moved(files, op)
  {
    assert AllMoved(Moved(files, op), []) == Moved(files, op);
  }

  lemma OneMoveBack(files: Files, op: ClusterMemberOp)
    ensures AllMovedBack(files, [op]) == MovedBack(files, op)
  {
    assert AllMovedBack(MovedBack(files, op), []) == MovedBack(files, op);
  }

  /** The entry a request pushes records the moves the request made. */
  lemma EntryRecordsMoves(dirs: Dirs, w: World, a: Action)
    requires Possible(dirs, w, a) && !a.Aside? && !a.Register? && Pushes(w.store, StepOf(dirs, w.store, a))
    ensures var d := Pushed(w.store, StepOf(dirs, w.store, a));
      MovesFit(dirs, w.files, MovesOf(d)) && AllMoved(w.files, MovesOf(d)) == FilesAfter(dirs, w, a)
  {
    var d := Pushed(w.store, StepOf(dirs, w.store, a));
    match a {
      case TrashOne(_, _, _) => OneMove(dirs, w.files, MovesOf(d)[0]);
      case KeepOne(_, _) => NoMoves(dirs, w.files, MovesOf(d));
      case SkipOne(_, _) => NoMoves(dirs, w.files, MovesOf(d));
      case SkipAll(_, _, _) => NoMoves(dirs, w.files, MovesOf(d));
      case Resolve(_, ops, _) => SnapshotMoves(dirs, w.store.photos, ops, w.files);
    }
  }

  /** A request that records nothing moves nothing. */
  lemma NoEntryNoMoves(dirs: Dirs, w: World, a: Action)
    requires Possible(dirs, w, a) && !a.Register?
    requires IsRecording(StepOf(dirs, w.store, a)) && !Pushes(w.store, StepOf(dirs, w.store, a))
    ensures FilesAfter(dirs, w, a) == w.files
  {
  }

  // ---------- Undos that leave a file in the trash ----------

  /** The last entry trashed a photo that is gone: undoing it fails, and its file stays in the trash. */
  predicate Strands(s: State) {
    SessionLaws.MissesPhoto(s) && Top(s).newState == Trashed
  }

  lemma UndoResult(s: State)
    requires s.session.Some?
    ensures Stack(s) == [] ==> Undo(s).result.Err? && Undo(s).state == s
    ensures Stack(s) != [] ==>
      if SessionLaws.MissesPhoto(s) then Undo(s).result.Err? else Undo(s).result == Ok(Top(s))
  {
  }

  /** Where the files were at the start, but for those left in the trash since: the place from which
      the entries on the stack account for where the files are. */
  function BaseStep(base: Files, s: State, a: Action): Files {
    if a.UndoOne? && Strands(s) then Moved(base, MovesOf(Top(s))[0]) else base
  }

  function BaseAfter(dirs: Dirs, w: World, actions: seq<Action>): Files {
    if actions == [] then w.files
    else
      var init := actions[..|actions| - 1];
      BaseStep(BaseAfter(dirs, w, init), Play(dirs, w, init).store, actions[|actions| - 1])
  }

  /** A file moved after all entries could as well have been moved before all of them. */
  lemma {:induction false} MoveBeforeAll(dirs: Dirs, base: Files, stack: seq<Decision>, files: Files,
                                         op: ClusterMemberOp)
    requires FilesTell(dirs, base, stack, files) && MoveFits(dirs, files, op)
    ensures MoveFits(dirs, base, op) && FilesTell(dirs, Moved(base, op), stack, Moved(files, op))
    decreases |stack|
  {
    if stack != [] {
      var init, d := stack[..|stack| - 1], stack[|stack| - 1];
      var before := ReplayFiles(base, init);
      assert EntryFits(dirs, base, stack, |stack| - 1);
      FilesTellInit(dirs, base, stack, files);
      MoveFirst(dirs, before, MovesOf(d), op);
      MoveBeforeAll(dirs, base, init, before, op);
      FilesTellMore(dirs, Moved(base, op), init, Moved(before, op), d);
      assert stack == init + [d];
    }
  }

  lemma StrandedFits(dirs: Dirs, base: Files, w: World)
    requires FilesKept(dirs, base, w) && Strands(w.store)
    ensures var op, init := MovesOf(Top(w.store))[0], Stack(w.store)[..|Stack(w.store)| - 1];
      && op.newState == Trashed && MoveFits(dirs, base, op)
      && FilesTell(dirs, Moved(base, op), init, w.files)
  {
    var stack := Stack(w.store);
    var init, op := stack[..|stack| - 1], MovesOf(Top(w.store))[0];
    var before := ReplayFiles(base, init);
    assert EntryFits(dirs, base, stack, |stack| - 1);
    FilesTellInit(dirs, base, stack, w.files);
    OneMove(dirs, before, op);
    MoveBeforeAll(dirs, base, init, before, op);
  }

  lemma UndoKeeps(dirs: Dirs, base: Files, w: World)
    requires FilesKept(dirs, base, w)
    ensures FilesKept(dirs, BaseStep(base, w.store, UndoOne), Perform(dirs, w, UndoOne))
  {
    UndoResult(w.store);
    if Stack(w.store) != [] {
      SessionLaws.UndoPops(w.store);
      if Strands(w.store) {
        StrandedFits(dirs, base, w);
      } else {
        FilesTellLess(dirs, base, Stack(w.store), w.files);
        if SessionLaws.MissesPhoto(w.store) {
          OneMoveBack(w.files, MovesOf(Top(w.store))[0]);
        }
      }
    }
  }

  lemma PerformKeeps(dirs: Dirs, base: Files, w: World, a: Action)
    requires FilesKept(dirs, base, w) && Possible(dirs, w, a)
    ensures FilesKept(dirs, BaseStep(base, w.store, a), Perform(dirs, w, a))
  {
    if a.UndoOne? {
      UndoKeeps(dirs, base, w);
    } else if a.Aside? {
      SessionLaws.OtherStepsCount(w.store, a.step, 0);
    } else if !a.Register? {
      var step := StepOf(dirs, w.store, a);
      RecordingPushes(w.store, step);
      if Pushes(w.store, step) {
        EntryRecordsMoves(dirs, w, a);
        FilesTellMore(dirs, base, Stack(w.store), w.files, Pushed(w.store, step));
      } else {
        NoEntryNoMoves(dirs, w, a);
      }
    }
  }

  /** In every world a run reaches, the stack tells exactly which files are where: those that its
      entries moved, and all others where they were at the start or were left in the trash. */
  lemma {:induction false} RunKeeps(dirs: Dirs, w: World, actions: seq<Action>)
    requires w.store.session.Some? && Stack(w.store) == [] && Feasible(dirs, w, actions)
    ensures FilesKept(dirs, BaseAfter(dirs, w, actions), Play(dirs, w, actions))
    decreases |actions|
  {
    if actions != [] {
      var init := actions[..|actions| - 1];
      RunKeeps(dirs, w, init);
      PerformKeeps(dirs, BaseAfter(dirs, w, init), Play(dirs, w, init), actions[|actions| - 1]);
    }
  }

  // ---------- Contents ----------

  lemma {:induction false} ReplayConserves(dirs: Dirs, start: Files, stack: seq<Decision>, files: Files)
    requires FilesTell(dirs, start, stack, files)
    ensures Contents(files) == Contents(start)
    decreases |stack|
  {
    if stack != [] {
      var init := stack[..|stack| - 1];
      assert EntryFits(dirs, start, stack, |stack| - 1);
      FilesTellInit(dirs, start, stack, files);
      MovesConserve(dirs, ReplayFiles(start, init), MovesOf(stack[|stack| - 1]));
      ReplayConserves(dirs, start, init, ReplayFiles(start, init));
    }
  }

  lemma {:induction false} BaseConserves(dirs: Dirs, w: World, actions: seq<Action>)
    requires w.store.session.Some? && Stack(w.store) == [] && Feasible(dirs, w, actions)
    ensures Contents(BaseAfter(dirs, w, actions)) == Contents(w.files)
    decreases |actions|
  {
    if actions != [] {
      var init := actions[..|actions| - 1];
      BaseConserves(dirs, w, init);
      RunKeeps(dirs, w, init);
      var before, base := Play(dirs, w, init), BaseAfter(dirs, w, init);
      if actions[|actions| - 1].UndoOne? && Strands(before.store) {
        StrandedFits(dirs, base, before);
        OneMove(dirs, base, MovesOf(Top(before.store))[0]);
        MovesConserve(dirs, base, [MovesOf(Top(before.store))[0]]);
      }
    }
  }

  /** No run of requests loses, duplicates or overwrites a file, whatever is forgotten or stranded. */
  lemma ContentsConserved(dirs: Dirs, w: World, actions: seq<Action>)
    requires w.store.session.Some? && Stack(w.store) == [] && Feasible(dirs, w, actions)
    ensures Contents(Play(dirs, w, actions).files) == Contents(w.files)
  {
    RunKeeps(dirs, w, actions);
    BaseConserves(dirs, w, actions);
    var after := Play(dirs, w, actions);
    ReplayConserves(dirs, BaseAfter(dirs, w, actions), Stack(after.store), after.files);
  }

  // ---------- When the files come back ----------

  /** Request number `i` is an undo that leaves a file in the trash. */
  predicate StrandsAt(dirs: Dirs, w: World, actions: seq<Action>, i: nat)
    requires i < |actions|
  {
    actions[i].UndoOne? && Strands(Play(dirs, w, actions[..i]).store)
  }

  ghost predicate NoneStrands(dirs: Dirs, w: World, actions: seq<Action>, from: nat) {
    forall i :: from <= i < |actions| ==> !StrandsAt(dirs, w, actions, i)
  }

  lemma {:induction false} FeasibleFront(dirs: Dirs, w: World, actions: seq<Action>, k: nat)
    requires Feasible(dirs, w, actions) && k <= |actions|
    ensures Feasible(dirs, w, actions[..k])
    decreases |actions|
  {
    if k < |actions| {
      var init := actions[..|actions| - 1];
      FeasibleFront(dirs, w, init, k);
      assert init[..k] == actions[..k];
    } else {
      assert actions[..k] == actions;
    }
  }

  lemma StrandsAtFront(dirs: Dirs, w: World, actions: seq<Action>, n: nat, i: nat)
    requires i < n <= |actions|
    ensures StrandsAt(dirs, w, actions[..n], i) == StrandsAt(dirs, w, actions, i)
  {
    assert actions[..n][..i] == actions[..i];
  }

  lemma NoneStrandsInit(dirs: Dirs, w: World, actions: seq<Action>, k: nat)
    requires k < |actions|
    ensures NoneStrands(dirs, w, actions, k) <==>
      NoneStrands(dirs, w, actions[..|actions| - 1], k) && !StrandsAt(dirs, w, actions, |actions| - 1)
  {
    var n := |actions| - 1;
    forall i | k <= i < n
      ensures StrandsAt(dirs, w, actions[..n], i) == StrandsAt(dirs, w, actions, i)
    {
      StrandsAtFront(dirs, w, actions, n, i);
    }
  }

  /** At some path in the trash there was no file before, and is one now. */
  ghost predicate HasArrival(dirs: Dirs, before: Files, after: Files) {
    exists path :: path in after && path !in before && InTrash(dirs, path)
  }

  /** A file left in the trash arrives there, and one that arrived stays. */
  lemma StrandingArrives(dirs: Dirs, first: Files, base: Files, w: World)
    requires FilesKept(dirs, base, w) && Strands(w.store)
    requires base == first || HasArrival(dirs, first, base)
    ensures HasArrival(dirs, first, BaseStep(base, w.store, UndoOne))
  {
    StrandedFits(dirs, base, w);
    var op := MovesOf(Top(w.store))[0];
    var after := Moved(base, op);
    if base == first {
      assert op.trashTo in after && op.trashTo !in first;
    } else {
      var path :| path in base && path !in first && InTrash(dirs, path);
      assert path in after;
    }
  }

  /** The place the files start from stays the same until an undo leaves a file in the trash; from then on
      it has a file more there. */
  lemma {:induction false} BaseChanges(dirs: Dirs, w: World, actions: seq<Action>, k: nat)
    requires w.store.session.Some? && Stack(w.store) == [] && Feasible(dirs, w, actions) && k <= |actions|
    ensures if NoneStrands(dirs, w, actions, k) then BaseAfter(dirs, w, actions) == BaseAfter(dirs, w, actions[..k])
      else HasArrival(dirs, BaseAfter(dirs, w, actions[..k]), BaseAfter(dirs, w, actions))
    decreases |actions|
  {
    if k == |actions| {
      assert actions[..k] == actions;
    } else {
      var init := actions[..|actions| - 1];
      assert init[..k] == actions[..k];
      BaseChanges(dirs, w, init, k);
      BaseChangesOnce(dirs, w, actions, k);
    }
  }

  lemma BaseChangesOnce(dirs: Dirs, w: World, actions: seq<Action>, k: nat)
    requires w.store.session.Some? && Stack(w.store) == [] && Feasible(dirs, w, actions) && k < |actions|
    requires var init := actions[..|actions| - 1];
      if NoneStrands(dirs, w, init, k) then BaseAfter(dirs, w, init) == BaseAfter(dirs, w, actions[..k])
      else HasArrival(dirs, BaseAfter(dirs, w, actions[..k]), BaseAfter(dirs, w, init))
    ensures if NoneStrands(dirs, w, actions, k) then BaseAfter(dirs, w, actions) == BaseAfter(dirs, w, actions[..k])
      else HasArrival(dirs, BaseAfter(dirs, w, actions[..k]), BaseAfter(dirs, w, actions))
  {
    var init := actions[..|actions| - 1];
    NoneStrandsInit(dirs, w, actions, k);
    if StrandsAt(dirs, w, actions, |actions| - 1) {
      RunKeeps(dirs, w, init);
      StrandingArrives(dirs, BaseAfter(dirs, w, actions[..k]), BaseAfter(dirs, w, init), Play(dirs, w, init));
    }
  }

  /** The stack and the files determine where the files were before all entries. */
  lemma {:induction false} BaseDetermined(dirs: Dirs, a: Files, b: Files, stack: seq<Decision>, files: Files)
    requires FilesTell(dirs, a, stack, files) && FilesTell(dirs, b, stack, files)
    ensures a == b
    decreases |stack|
  {
    if stack != [] {
      FilesTellLess(dirs, a, stack, files);
      FilesTellLess(dirs, b, stack, files);
      BaseDetermined(dirs, a, b, stack[..|stack| - 1], AllMovedBack(files, MovesOf(stack[|stack| - 1])));
    }
  }

  /** Whenever the stack is again what it was at an earlier point of the run, every file is where it was
      then, if and only if no undo since left a file in the trash. */
  lemma FilesReturnWithStack(dirs: Dirs, w: World, actions: seq<Action>, k: nat)
    requires w.store.session.Some? && Stack(w.store) == [] && Feasible(dirs, w, actions) && k <= |actions|
    ensures var earlier, later := Play(dirs, w, actions[..k]), Play(dirs, w, actions);
      && earlier.store.session.Some? && later.store.session.Some?
      && (Stack(later.store) == Stack(earlier.store) ==>
            (later.files == earlier.files <==> NoneStrands(dirs, w, actions, k)))
  {
    var earlier, later := Play(dirs, w, actions[..k]), Play(dirs, w, actions);
    var first, last := BaseAfter(dirs, w, actions[..k]), BaseAfter(dirs, w, actions);
    FeasibleFront(dirs, w, actions, k);
    RunKeeps(dirs, w, actions[..k]);
    RunKeeps(dirs, w, actions);
    BaseChanges(dirs, w, actions, k);
    if Stack(later.store) == Stack(earlier.store) && later.files == earlier.files {
      BaseDetermined(dirs, first, last, Stack(later.store), later.files);
    }
  }

  /** Two runs that leave the same stack leave the files in the same places if and only if they left the
      same files in the trash by undos that failed. */
  lemma StackDeterminesFiles(dirs: Dirs, w: World, some: seq<Action>, others: seq<Action>)
    requires w.store.session.Some? && Stack(w.store) == []
    requires Feasible(dirs, w, some) && Feasible(dirs, w, others)
    ensures Play(dirs, w, some).store.session.Some? && Play(dirs, w, others).store.session.Some?
    ensures Stack(Play(dirs, w, some).store) == Stack(Play(dirs, w, others).store) ==>
      (Play(dirs, w, some).files == Play(dirs, w, others).files <==>
         BaseAfter(dirs, w, some) == BaseAfter(dirs, w, others))
    ensures NoneStrands(dirs, w, some, 0) <==> BaseAfter(dirs, w, some) == w.files
  {
    RunKeeps(dirs, w, some);
    RunKeeps(dirs, w, others);
    BaseChanges(dirs, w, some, 0);
    if Stack(Play(dirs, w, some).store) == Stack(Play(dirs, w, others).store) &&
       Play(dirs, w, some).files == Play(dirs, w, others).files {
      BaseDetermined(dirs, BaseAfter(dirs, w, some), BaseAfter(dirs, w, others), Stack(Play(dirs, w, some).store),
                     Play(dirs, w, some).files);
    }
  }

  // ---------- Undoing all, or all since some point ----------

  function Undos(n: nat): seq<Action> {
    seq(n, _ => UndoOne)
  }

  lemma PlayOneMore(dirs: Dirs, w: World, actions: seq<Action>, a: Action)
    ensures Play(dirs, w, actions + [a]) == Perform(dirs, Play(dirs, w, actions), a)
    ensures Feasible(dirs, w, actions + [a]) <==>
      Feasible(dirs, w, actions) && Possible(dirs, Play(dirs, w, actions), a)
  {
    var longer := actions + [a];
    assert longer[..|longer| - 1] == actions;
  }

  /** Each undo takes the last entry off the stack, whether it finds its photo or not. */
  lemma {:induction false} UndosPop(dirs: Dirs, w: World, actions: seq<Action>, n: nat)
    requires w.store.session.Some? && Stack(w.store) == [] && Feasible(dirs, w, actions)
    requires Play(dirs, w, actions).store.session.Some? && n <= |Stack(Play(dirs, w, actions).store)|
    ensures Feasible(dirs, w, actions + Undos(n))
    ensures var before, after := Play(dirs, w, actions).store, Play(dirs, w, actions + Undos(n)).store;
      after.session.Some? && Stack(after) == Stack(before)[..|Stack(before)| - n]
    decreases n
  {
    if n == 0 {
      assert actions + Undos(0) == actions;
    } else {
      UndosPop(dirs, w, actions, n - 1);
      var all := actions + Undos(n - 1);
      assert actions + Undos(n) == all + [UndoOne];
      PlayOneMore(dirs, w, all, UndoOne);
      SessionLaws.UndoPops(Play(dirs, w, all).store);
    }
  }

  /** As many undo requests as a run left entries on the stack put every file back where it was when the
      session started, if and only if no undo of the run or after it left a file in the trash. */
  lemma UndoReturnsEveryFile(dirs: Dirs, w: World, actions: seq<Action>)
    requires w.store.session.Some? && Stack(w.store) == [] && Feasible(dirs, w, actions)
    ensures Play(dirs, w, actions).store.session.Some?
    ensures var all := actions + Undos(|Stack(Play(dirs, w, actions).store)|);
      && Feasible(dirs, w, all) && Play(dirs, w, all).store.session.Some? && Stack(Play(dirs, w, all).store) == []
      && (Play(dirs, w, all).files == w.files <==> NoneStrands(dirs, w, all, 0))
  {
    RunKeeps(dirs, w, actions);
    var all := actions + Undos(|Stack(Play(dirs, w, actions).store)|);
    UndosPop(dirs, w, actions, |Stack(Play(dirs, w, actions).store)|);
    assert all[..0] == [];
    FilesReturnWithStack(dirs, w, all, 0);
  }

  /** Without an undo the stack only grows. */
  lemma {:induction false} RequestsOnlyPush(dirs: Dirs, w: World, actions: seq<Action>, k: nat)
    requires w.store.session.Some? && Stack(w.store) == [] && Feasible(dirs, w, actions) && k <= |actions|
    requires forall i :: k <= i < |actions| ==> !actions[i].UndoOne?
    ensures Play(dirs, w, actions[..k]).store.session.Some? && Play(dirs, w, actions).store.session.Some?
    ensures Stack(Play(dirs, w, actions[..k]).store) <= Stack(Play(dirs, w, actions).store)
    decreases |actions|
  {
    RunKeeps(dirs, w, actions);
    if k == |actions| {
      assert actions[..k] == actions;
    } else {
      var init := actions[..|actions| - 1];
      assert init[..k] == actions[..k];
      RequestsOnlyPush(dirs, w, init, k);
      RequestPushes(dirs, Play(dirs, w, init), actions[|actions| - 1]);
    }
  }

  lemma RequestPushes(dirs: Dirs, w: World, a: Action)
    requires Possible(dirs, w, a) && !a.UndoOne?
    ensures Perform(dirs, w, a).store.session.Some?
    ensures Stack(w.store) <= Stack(Perform(dirs, w, a).store)
  {
    if !a.Register? {
      var step := StepOf(dirs, w.store, a);
      if IsRecording(step) {
        RecordingPushes(w.store, step);
      } else {
        SessionLaws.OtherStepsCount(w.store, step, 0);
      }
    }
  }

  /** From any point `k` of a session: as many undo requests as were pushed since put every file back
      where it was at that point, if and only if none of them leaves a file in the trash. */
  lemma UndoReturnsFilesSince(dirs: Dirs, w: World, actions: seq<Action>, k: nat)
    requires w.store.session.Some? && Stack(w.store) == [] && Feasible(dirs, w, actions) && k <= |actions|
    requires forall i :: k <= i < |actions| ==> !actions[i].UndoOne?
    ensures var earlier, later := Play(dirs, w, actions[..k]), Play(dirs, w, actions);
      && earlier.store.session.Some? && later.store.session.Some? && |Stack(earlier.store)| <= |Stack(later.store)|
      && var all := actions + Undos(|Stack(later.store)| - |Stack(earlier.store)|);
         Feasible(dirs, w, all) && (Play(dirs, w, all).files == earlier.files <==> NoneStrands(dirs, w, all, |actions|))
  {
    var earlier, later := Play(dirs, w, actions[..k]), Play(dirs, w, actions);
    RequestsOnlyPush(dirs, w, actions, k);
    var n := |Stack(later.store)| - |Stack(earlier.store)|;
    assert Stack(later.store)[..|Stack(later.store)| - n] == Stack(earlier.store);
    UndosPop(dirs, w, actions, n);
    UndosReturn(dirs, w, actions, k, actions + Undos(n), n);
  }

  lemma UndosReturn(dirs: Dirs, w: World, actions: seq<Action>, k: nat, all: seq<Action>, n: nat)
    requires w.store.session.Some? && Stack(w.store) == [] && k <= |actions|
    requires all == actions + Undos(n) && Feasible(dirs, w, all)
    requires forall i :: k <= i < |actions| ==> !actions[i].UndoOne?
    requires var earlier, last := Play(dirs, w, actions[..k]).store, Play(dirs, w, all).store;
      earlier.session.Some? && last.session.Some? && Stack(last) == Stack(earlier)
    ensures Play(dirs, w, all).files == Play(dirs, w, actions[..k]).files <==> NoneStrands(dirs, w, all, |actions|)
  {
    assert all[..k] == actions[..k];
    FilesReturnWithStack(dirs, w, all, k);
    assert forall i :: k <= i < |actions| ==> all[i] == actions[i];
    NothingStrandsWithoutUndo(dirs, w, all, k, |actions|);
  }

  lemma NothingStrandsWithoutUndo(dirs: Dirs, w: World, actions: seq<Action>, k: nat, m: nat)
    requires k <= m <= |actions| && forall i :: k <= i < m ==> !actions[i].UndoOne?
    ensures NoneStrands(dirs, w, actions, k) <==> NoneStrands(dirs, w, actions, m)
  {
    assert forall i :: k <= i < m ==> !StrandsAt(dirs, w, actions, i);
  }

  // ---------- The path kept with a trashed photo ----------

  /** A move recorded by an operation leaves the file where the operation says. */
  lemma {:induction false} MovedFileIsThere(dirs: Dirs, files: Files, ops: seq<ClusterMemberOp>, i: nat)
    requires MovesFit(dirs, files, ops) && i < |ops| && ops[i].newState == Trashed
    ensures ops[i].trashTo in AllMoved(files, ops) && !InTrash(dirs, ops[i].trashFrom)
    ensures ops[i].trashFrom in files && AllMoved(files, ops)[ops[i].trashTo] == files[ops[i].trashFrom]
    decreases |ops|
  {
    if i == 0 {
      OthersStay(dirs, Moved(files, ops[0]), ops[1..], ops[0].trashTo);
    } else {
      MovedFileIsThere(dirs, Moved(files, ops[0]), ops[1..], i - 1);
    }
  }

  /** A file in the trash stays where it is while others are moved there. */
  lemma {:induction false} OthersStay(dirs: Dirs, files: Files, ops: seq<ClusterMemberOp>, path: Path)
    requires MovesFit(dirs, files, ops) && path in files && InTrash(dirs, path)
    ensures path in AllMoved(files, ops) && AllMoved(files, ops)[path] == files[path]
    decreases |ops|
  {
    if ops != [] {
      OthersStay(dirs, Moved(files, ops[0]), ops[1..], path);
    }
  }

  lemma {:induction false} LastTrashPath(photos: map<PhotoId, Photo>, ops: seq<ClusterMemberOp>, now: Time, i: nat)
    requires AllKnown(photos, ops) && i < |ops| && ops[i].newState == Trashed
    requires forall j :: i < j < |ops| ==> ops[j].photoId != ops[i].photoId
    ensures ApplyOps(photos, ops, now)[ops[i].photoId].trashedPath == ops[i].trashTo
    ensures ApplyOps(photos, ops, now)[ops[i].photoId].state == Trashed
    decreases |ops|
  {
    if i < |ops| - 1 {
      LastTrashPath(photos, ops[..|ops| - 1], now, i);
    }
  }

  /** After a request moved a photo's file to the trash, the photo is trashed and its recorded path
      leads to that very file. */
  lemma TrashedPathLeadsToFile(dirs: Dirs, w: World, a: Action, i: nat)
    requires Possible(dirs, w, a)
    requires a.TrashOne? || (a.Resolve? && i < |a.ops| && a.ops[i].newState == Trashed
                             && forall j :: i < j < |a.ops| ==> a.ops[j].photoId != a.ops[i].photoId)
    ensures var id := if a.TrashOne? then a.id else a.ops[i].photoId;
      var from := if a.TrashOne? then SourceOf(dirs, w.store, id) else a.ops[i].trashFrom;
      var after := Perform(dirs, w, a);
      && id in after.store.photos && after.store.photos[id].state == Trashed
      && after.store.photos[id].trashedPath in after.files
      && from in w.files && after.files[after.store.photos[id].trashedPath] == w.files[from]
  {
    if a.Resolve? {
      MovedFileIsThere(dirs, w.files, a.ops, i);
      LastTrashPath(w.store.photos, a.ops, a.now, i);
    }
  }
}
