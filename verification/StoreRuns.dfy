/** Runs of the store: any sequence of its operations within one session. */
module StoreRuns {
  import opened Photos
  import opened StoreModel

  datatype Step =
    | Decide(id: PhotoId, newState: PhotoState, trashFrom: Path, trashTo: Path, now: Time)
    | Skip(id: PhotoId, now: Time)
    | SkipMany(clusterId: PhotoId, ids: seq<PhotoId>, now: Time)
    | DecideMany(clusterId: PhotoId, ops: Option<seq<ClusterMemberOp>>, now: Time)
    | UndoLast
    | Change(settings: Settings)
    | Extend(delta: int)
    | Forget(keep: set<PhotoId>)
    | CaptureTime(id: PhotoId, t: Time)
    | Hashed(id: PhotoId, h: Word, v: Word, now: Time)

  /** The four operations that push an entry on the undo stack. */
  predicate IsRecording(step: Step) {
    step.Decide? || step.Skip? || step.SkipMany? || step.DecideMany?
  }

  /** The operations that touch neither the stack nor anything undo restores. */
  predicate IsNeutral(step: Step) {
    step.Change? || step.Extend? || step.CaptureTime? || step.Hashed?
  }

  /** A cluster decision passes a slice that is not nil. */
  predicate HasMembers(step: Step) {
    step.DecideMany? ==> step.ops.Some?
  }

  function Record(s: State, step: Step): Outcome
    requires IsRecording(step)
  {
    match step
    case Decide(id, newState, trashFrom, trashTo, now) => RecordDecision(s, id, newState, trashFrom, trashTo, now)
    case Skip(id, now) => RecordSkip(s, id, now)
    case SkipMany(clusterId, ids, now) => SkipCluster(s, clusterId, ids, now)
    case DecideMany(clusterId, ops, now) => RecordClusterDecision(s, clusterId, ops, now)
  }

  /** The state after one operation; a failing one changes nothing, except that an undo which
      misses its photo has popped its entry. */
  function Exec(s: State, step: Step): State {
    if IsRecording(step) then Record(s, step).state
    else match step
      case UndoLast => Undo(s).state
      case Change(settings) => s.(settings := settings)
      case Extend(delta) => SessionExtend(s, delta)
      case Forget(keep) => ForgetMissing(s, keep)
      case CaptureTime(id, t) => SetCaptureTime(s, id, t)
      case Hashed(id, h, v, now) => SetHash(s, id, h, v, now)
      case _ => s
  }

  function Run(s: State, steps: seq<Step>): State {
    if steps == [] then s else Exec(Run(s, steps[..|steps| - 1]), steps[|steps| - 1])
  }

  lemma RunOneMore(s: State, steps: seq<Step>, step: Step)
    ensures Run(s, steps + [step]) == Exec(Run(s, steps), step)
  {
    var longer := steps + [step];
    assert longer[..|longer| - 1] == steps;
  }

  function UndoTimes(s: State, n: nat): State
    decreases n
  {
    if n == 0 then s else UndoTimes(Undo(s).state, n - 1)
  }

  /** The step pushes an entry. */
  predicate Pushes(s: State, step: Step) {
    IsRecording(step) && Record(s, step).result.Ok?
  }

  function Pushed(s: State, step: Step): Decision
    requires Pushes(s, step)
  {
    Record(s, step).result.value
  }

  function Stack(s: State): seq<Decision>
    requires s.session.Some?
  {
    s.session.value.stack
  }

  function Top(s: State): Decision
    requires s.session.Some? && Stack(s) != []
  {
    Stack(s)[|Stack(s)| - 1]
  }

  lemma ExecKeepsSession(s: State, step: Step)
    requires s.session.Some?
    ensures Exec(s, step).session.Some?
  {
  }

  lemma {:induction false} RunKeepsSession(s: State, steps: seq<Step>)
    requires s.session.Some?
    ensures Run(s, steps).session.Some?
  {
    if steps != [] {
      RunKeepsSession(s, steps[..|steps| - 1]);
      ExecKeepsSession(Run(s, steps[..|steps| - 1]), steps[|steps| - 1]);
    }
  }

  /** What a recording does to the stack: it pushes the entry it returns, or fails and changes
      nothing. */
  lemma RecordingPushes(s: State, step: Step)
    requires s.session.Some? && IsRecording(step)
    ensures if Pushes(s, step) then Stack(Exec(s, step)) == Stack(s) + [Pushed(s, step)] else Exec(s, step) == s
  {
  }
}
