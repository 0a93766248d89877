/** The background worker that hashes photos, as store steps. */
module Indexer {
  import opened Photos
  import opened StoreModel
  import opened StoreRuns
  import opened Stores
  import opened UndoLaws

  // ---------- The worker ----------

  /** What can be learnt from a photo's file: its capture time, zero if unknown, and its hash unless
      it cannot be decoded. */
  datatype Finding = Finding(captured: Time, hash: Option<(Word, Word)>)

  /** Hashing a photo takes it, and nothing else, off the waiting set; also if it was trashed, hashed or
      forgotten since it was chosen, and no longer is on it. */
  lemma HashingShrinksWaiting(s: State, id: PhotoId, h: Word, v: Word, now: Time)
    requires now != 0
    ensures UnhashedIds(SetHash(s, id, h, v, now).photos) == UnhashedIds(s.photos) - {id}
  {
  }

  lemma CaptureTimeKeepsWaiting(s: State, id: PhotoId, t: Time)
    ensures UnhashedIds(SetCaptureTime(s, id, t).photos) == UnhashedIds(s.photos)
  {
  }

  /** Everything but the index fields of the photos. */
  ghost predicate DecisionsUntouched(s: State, other: State) {
    && Standings(other.photos) == Standings(s.photos)
    && other.session == s.session && other.settings == s.settings && other.daily == s.daily
    && other.lastBatchDone == s.lastBatchDone
  }

  lemma HashUntouched(s: State, id: PhotoId, h: Word, v: Word, now: Time)
    ensures DecisionsUntouched(s, SetHash(s, id, h, v, now))
  {
  }

  lemma CaptureTimeUntouched(s: State, id: PhotoId, t: Time)
    ensures DecisionsUntouched(s, SetCaptureTime(s, id, t))
  {
  }

  /** The store after what was found in a photo's file has been recorded. */
  function Examined(s: State, id: PhotoId, finding: Finding, now: Time): State {
    var dated := SetCaptureTime(s, id, finding.captured);
    if finding.hash.Some? then SetHash(dated, id, finding.hash.value.0, finding.hash.value.1, now) else dated
  }

  /** The photo with the capture time found, if any, and with the hash found, if any. */
  function Found(p: Photo, finding: Finding, now: Time): Photo {
    var dated := if finding.captured != 0 then p.(time := finding.captured) else p;
    if finding.hash.None? then dated
    else dated.(dhash := finding.hash.value.0, dhashV := finding.hash.value.1, hashVersion := 2, dhashedAt := now)
  }

  /** The photo `q` is `p` after its file was looked at: it has the capture time found, if any; it counts as
      hashed; and its hash is the one found, or has no bit set if the file cannot be decoded. */
  ghost predicate IsIndexed(p: Photo, finding: Finding, now: Time, q: Photo) {
    && q.time == (if finding.captured != 0 then finding.captured else p.time)
    && q.hashVersion == 2 && q.dhashedAt == now
    && (finding.hash.Some? ==> q.dhash == finding.hash.value.0 && q.dhashV == finding.hash.value.1)
    && (finding.hash.None? ==> forall k :: 0 <= k < 64 ==> !q.dhash[k] && !q.dhashV[k])
  }

  /** Exactly these photos were looked at and indexed, and no other was changed. */
  ghost predicate Indexed(before: map<PhotoId, Photo>, after: map<PhotoId, Photo>, ids: set<PhotoId>,
                          look: PhotoId -> Finding, now: Time) {
    && after.Keys == before.Keys && ids <= before.Keys
    && (forall id :: id in ids ==> IsIndexed(before[id], look(id), now, after[id]))
    && (forall id :: id in before && id !in ids ==> after[id] == before[id])
  }

  lemma OneMoreIndexed(start: map<PhotoId, Photo>, before: map<PhotoId, Photo>, after: map<PhotoId, Photo>,
                       ids: set<PhotoId>, id: PhotoId, look: PhotoId -> Finding, now: Time)
    requires Indexed(start, before, ids, look, now) && id in before && id !in ids && after.Keys == before.Keys
    requires IsIndexed(before[id], look(id), now, after[id])
    requires forall k :: k in after && k != id ==> after[k] == before[k]
    ensures Indexed(start, after, ids + {id}, look, now)
  {
  }

  class Worker {
    const store: Store
    var hashedThisRun: nat

    constructor (st: Store)
      ensures store == st && hashedThisRun == 0
    {
      store, hashedThisRun := st, 0;
    }

    /** Records what was found in the file of one photo; false if it could not be hashed, or is no longer
        in the store.  The photo may have been decided on or forgotten since it was chosen. */
    method HashOne(id: PhotoId, finding: Finding, now: Time) returns (ok: bool)
      requires now != 0
      modifies store
      ensures store.State() == Examined(old(store.State()), id, finding, now)
      ensures store.photos.Keys == old(store.photos).Keys
      ensures forall k :: k in store.photos ==>
        store.photos[k] == if k == id then Found(old(store.photos)[k], finding, now) else old(store.photos)[k]
      ensures DecisionsUntouched(old(store.State()), store.State())
      ensures old(KeyedById(store.photos)) ==> KeyedById(store.photos)
      ensures ok <==> finding.hash.Some? && id in old(store.photos)
      ensures UnhashedIds(store.photos) == old(UnhashedIds(store.photos)) - if finding.hash.Some? then {id} else {}
    {
      if finding.captured != 0 {
        CaptureTimeUntouched(store.State(), id, finding.captured);
        CaptureTimeKeepsWaiting(store.State(), id, finding.captured);
        var _ := store.SetCaptureTime(id, finding.captured);
      }
      if finding.hash.None? {
        return false;
      }
      HashUntouched(store.State(), id, finding.hash.value.0, finding.hash.value.1, now);
      HashingShrinksWaiting(store.State(), id, finding.hash.value.0, finding.hash.value.1, now);
      ok := store.SetHash(id, finding.hash.value.0, finding.hash.value.1, now);
    }

    /** One round of the worker: hash the photo chosen, or mark it as failed.  Afterwards it does not
        wait, and every other photo waits that did before. */
    method Round(id: PhotoId, finding: Finding, now: Time)
      requires now != 0
      modifies this, store
      ensures DecisionsUntouched(old(store.State()), store.State())
      ensures old(KeyedById(store.photos)) ==> KeyedById(store.photos)
      ensures UnhashedIds(store.photos) == old(UnhashedIds(store.photos)) - {id}
      ensures store.photos.Keys == old(store.photos).Keys
      ensures id in store.photos ==> IsIndexed(old(store.photos)[id], finding, now, store.photos[id])
      ensures forall k :: k in store.photos && k != id ==> store.photos[k] == old(store.photos)[k]
      ensures hashedThisRun == old(hashedThisRun) + if finding.hash.Some? && id in old(store.photos) then 1 else 0
    {
      var ok := HashOne(id, finding, now);
      if ok {
        hashedThisRun := hashedThisRun + 1;
      } else {
        HashUntouched(store.State(), id, ZeroWord(), ZeroWord(), now);
        HashingShrinksWaiting(store.State(), id, ZeroWord(), ZeroWord(), now);
        var _ := store.MarkHashFailed(id, now);
      }
    }

    /** Works until nothing waits: it always gets there, each photo being hashed or marked as failed
        once, and no decision is touched. */
    method Drain(look: PhotoId -> Finding, now: Time)
      requires KeyedById(store.photos) && now != 0
      modifies this, store
      ensures UnhashedIds(store.photos) == {}
      ensures Indexed(old(store.photos), store.photos, old(UnhashedIds(store.photos)), look, now)
      ensures DecisionsUntouched(old(store.State()), store.State())
      ensures hashedThisRun == old(hashedThisRun) + |Hashable(old(UnhashedIds(store.photos)), look)|
    {
      ghost var start := UnhashedIds(store.photos);
      ghost var done: set<PhotoId> := {};
      while true
        invariant KeyedById(store.photos)
        invariant DecisionsUntouched(old(store.State()), store.State())
        invariant done <= start && UnhashedIds(store.photos) == start - done
        invariant Indexed(old(store.photos), store.photos, done, look, now)
        invariant hashedThisRun == old(hashedThisRun) + |Hashable(done, look)|
        decreases start - done
      {
        var p := store.NextUnhashed();
        if p.None? {
          assert done == start;
          return;
        }
        var id := p.value.id;
        ghost var waiting, before := UnhashedIds(store.photos), store.photos;
        assert id in waiting && id !in done;
        Round(id, look(id), now);
        OneMoreHashable(done, id, look);
        OneLessWaiting(start, done, waiting, id);
        OneMoreIndexed(old(store.photos), before, store.photos, done, id, look, now);
        done := done + {id};
      }
    }
  }

  lemma OneLessWaiting(start: set<PhotoId>, done: set<PhotoId>, waiting: set<PhotoId>, id: PhotoId)
    requires waiting == start - done && id in waiting
    ensures waiting - {id} == start - (done + {id}) && done + {id} <= start + done &&
      start - (done + {id}) < start - done
  {
  }

  /** The photos whose file can be decoded. */
  ghost function Hashable(ids: set<PhotoId>, look: PhotoId -> Finding): set<PhotoId> {
    set id | id in ids && look(id).hash.Some?
  }

  lemma OneMoreHashable(ids: set<PhotoId>, id: PhotoId, look: PhotoId -> Finding)
    requires id !in ids
    ensures |Hashable(ids + {id}, look)| == |Hashable(ids, look)| + if look(id).hash.Some? then 1 else 0
  {
    if look(id).hash.Some? {
      assert Hashable(ids + {id}, look) == Hashable(ids, look) + {id};
    } else {
      assert Hashable(ids + {id}, look) == Hashable(ids, look);
    }
  }

  // ---------- The worker's writes commute with decisions ----------

  predicate IsIndexing(step: Step) {
    step.CaptureTime? || step.Hashed?
  }

  /** What an indexing step does to the photo it names. */
  function Stamped(p: Photo, step: Step): Photo
    requires IsIndexing(step)
  {
    match step
    case CaptureTime(_, t) => if t == 0 then p else p.(time := t)
    case Hashed(_, h, v, now) => p.(dhash := h, dhashV := v, hashVersion := CURRENT_HASH_VERSION, dhashedAt := now)
  }

  function StampedAt(photos: map<PhotoId, Photo>, step: Step): (r: map<PhotoId, Photo>)
    requires IsIndexing(step)
    ensures r.Keys == photos.Keys
    ensures forall id :: id in photos ==> r[id] == if id == step.id then Stamped(photos[id], step) else photos[id]
  {
    if step.id in photos then photos[step.id := Stamped(photos[step.id], step)] else photos
  }

  lemma IndexingStamps(s: State, step: Step)
    requires IsIndexing(step)
    ensures Exec(s, step) == s.(photos := StampedAt(s.photos, step))
  {
    assert StampedAt(s.photos, step) == Exec(s, step).photos;
  }

  lemma {:induction false} ApplyCommutes(photos: map<PhotoId, Photo>, ops: seq<ClusterMemberOp>, now: Time, step: Step)
    requires IsIndexing(step) && AllKnown(photos, ops)
    ensures ApplyOps(StampedAt(photos, step), ops, now) == StampedAt(ApplyOps(photos, ops, now), step)
  {
    if ops != [] {
      var op := ops[|ops| - 1];
      var before := ApplyOps(photos, ops[..|ops| - 1], now);
      ApplyCommutes(photos, ops[..|ops| - 1], now, step);
      UpdateCommutes(before, op.photoId, DecidedInCluster(before[op.photoId], op.newState, op.trashTo, now),
                     DecidedInCluster(StampedAt(before, step)[op.photoId], op.newState, op.trashTo, now), step);
    }
  }

  lemma RestoreOneCommutes(photos: map<PhotoId, Photo>, op: ClusterMemberOp, step: Step)
    requires IsIndexing(step)
    ensures RestoreOne(StampedAt(photos, step), op) == StampedAt(RestoreOne(photos, op), step)
  {
    assert RestoreOne(StampedAt(photos, step), op) == StampedAt(RestoreOne(photos, op), step);
  }

  lemma {:induction false} RestoreCommutes(photos: map<PhotoId, Photo>, ops: seq<ClusterMemberOp>, step: Step)
    requires IsIndexing(step)
    ensures RestoreOps(StampedAt(photos, step), ops) == StampedAt(RestoreOps(photos, ops), step)
    decreases |ops|
  {
    if ops != [] {
      RestoreOneCommutes(photos, ops[|ops| - 1], step);
      RestoreCommutes(RestoreOne(photos, ops[|ops| - 1]), ops[..|ops| - 1], step);
    }
  }

  lemma SnapshotCommutes(photos: map<PhotoId, Photo>, ops: seq<ClusterMemberOp>, step: Step)
    requires IsIndexing(step) && AllKnown(photos, ops)
    ensures Snapshot(StampedAt(photos, step), ops) == Snapshot(photos, ops)
  {
  }

  lemma UpdateCommutes(photos: map<PhotoId, Photo>, id: PhotoId, p: Photo, p': Photo, step: Step)
    requires IsIndexing(step) && id in photos
    requires p' == if id == step.id then Stamped(p, step) else p
    ensures StampedAt(photos, step)[id := p'] == StampedAt(photos[id := p], step)
  {
  }

  lemma SeenCommutes(photos: map<PhotoId, Photo>, id: PhotoId, t: Time, step: Step)
    requires IsIndexing(step) && id in photos
    ensures var stamped := StampedAt(photos, step);
      stamped[id := stamped[id].(lastSeenAt := t)] == StampedAt(photos[id := photos[id].(lastSeenAt := t)], step)
  {
    UpdateCommutes(photos, id, photos[id].(lastSeenAt := t), StampedAt(photos, step)[id].(lastSeenAt := t), step);
  }

  /** Recording is the same with the photo index stamped first or afterwards. */
  lemma DecideCommutes(s: State, indexing: Step, step: Step)
    requires s.session.Some? && IsIndexing(indexing) && (step.Decide? || step.Skip?)
    ensures Exec(s.(photos := StampedAt(s.photos, indexing)), step) ==
      Exec(s, step).(photos := StampedAt(Exec(s, step).photos, indexing))
  {
    var stamped := StampedAt(s.photos, indexing);
    if step.id in s.photos {
      if step.Decide? {
        UpdateCommutes(s.photos, step.id, Decided(s.photos[step.id], step.newState, step.trashTo, step.now),
                       Decided(stamped[step.id], step.newState, step.trashTo, step.now), indexing);
      } else {
        UpdateCommutes(s.photos, step.id, s.photos[step.id].(lastSeenAt := step.now),
                       stamped[step.id].(lastSeenAt := step.now), indexing);
      }
    }
  }

  lemma DecideManyCommutes(s: State, indexing: Step, step: Step)
    requires s.session.Some? && IsIndexing(indexing) && step.DecideMany?
    ensures Exec(s.(photos := StampedAt(s.photos, indexing)), step) ==
      Exec(s, step).(photos := StampedAt(Exec(s, step).photos, indexing))
  {
    var ops := Members(step.ops);
    if AllKnown(s.photos, ops) {
      ApplyCommutes(s.photos, ops, step.now, indexing);
      SnapshotCommutes(s.photos, ops, indexing);
    }
  }

  lemma ForgetCommutes(s: State, indexing: Step, keep: set<PhotoId>)
    requires IsIndexing(indexing)
    ensures ForgetMissing(s.(photos := StampedAt(s.photos, indexing)), keep) ==
      ForgetMissing(s, keep).(photos := StampedAt(ForgetMissing(s, keep).photos, indexing))
  {
    var stamped := StampedAt(s.photos, indexing);
    assert Missing(stamped, keep) == Missing(s.photos, keep);
    assert stamped - Missing(s.photos, keep) == StampedAt(s.photos - Missing(s.photos, keep), indexing);
  }

  /** An indexing step before or after any other step leads to the same state. */
  lemma IndexingCommutes(s: State, indexing: Step, step: Step)
    requires s.session.Some? && IsIndexing(indexing) && !IsIndexing(step)
    ensures Exec(Exec(s, indexing), step) == Exec(Exec(s, step), indexing)
  {
    IndexingStamps(s, indexing);
    IndexingStamps(Exec(s, step), indexing);
    match step {
      case Decide(_, _, _, _, _) => DecideCommutes(s, indexing, step);
      case Skip(_, _) => DecideCommutes(s, indexing, step);
      case SkipMany(_, _, _) =>
      case DecideMany(_, _, _) => DecideManyCommutes(s, indexing, step);
      case UndoLast => UndoCommutes(s, indexing);
      case Change(_) =>
      case Extend(_) =>
      case Forget(keep) => ForgetCommutes(s, indexing, keep);
    }
  }

  /** The indexing steps of a run, or its other steps. */
  function Only(steps: seq<Step>, indexing: bool): (r: seq<Step>)
    ensures forall i :: 0 <= i < |r| ==> (IsIndexing(r[i]) <==> indexing)
  {
    if steps == [] then []
    else
      var last := steps[|steps| - 1];
      Only(steps[..|steps| - 1], indexing) + if IsIndexing(last) == indexing then [last] else []
  }

  lemma {:induction false} StepBeforeIndexing(s: State, indexing: seq<Step>, step: Step)
    requires s.session.Some? && !IsIndexing(step) && forall i :: 0 <= i < |indexing| ==> IsIndexing(indexing[i])
    ensures Exec(Run(s, indexing), step) == Run(Exec(s, step), indexing)
    decreases |indexing|
  {
    if indexing != [] {
      var init, last := indexing[..|indexing| - 1], indexing[|indexing| - 1];
      RunKeepsSession(s, init);
      StepBeforeIndexing(s, init, step);
      IndexingCommutes(Run(s, init), last, step);
    }
  }

  /** However the worker's writes and everything else are interleaved, the outcome is as if everything
      else had been done first and the photos had been indexed afterwards. */
  lemma {:induction false} IndexingComesLast(s: State, steps: seq<Step>)
    requires s.session.Some?
    ensures Run(s, steps) == Run(Run(s, Only(steps, false)), Only(steps, true))
    decreases |steps|
  {
    if steps != [] {
      var init, last := steps[..|steps| - 1], steps[|steps| - 1];
      var others, indexing := Only(init, false), Only(init, true);
      IndexingComesLast(s, init);
      if IsIndexing(last) {
        RunOneMore(Run(s, others), indexing, last);
        assert Only(steps, false) == others && Only(steps, true) == indexing + [last];
      } else {
        RunKeepsSession(s, others);
        StepBeforeIndexing(Run(s, others), indexing, last);
        RunOneMore(s, others, last);
        assert Only(steps, false) == others + [last] && Only(steps, true) == indexing;
      }
    }
  }

  lemma {:induction false} IndexingRunUntouched(s: State, steps: seq<Step>)
    requires forall i :: 0 <= i < |steps| ==> IsIndexing(steps[i])
    ensures DecisionsUntouched(s, Run(s, steps))
    decreases |steps|
  {
    if steps != [] {
      var init, last := steps[..|steps| - 1], steps[|steps| - 1];
      IndexingRunUntouched(s, init);
      match last {
        case CaptureTime(id, t) => CaptureTimeUntouched(Run(s, init), id, t);
        case Hashed(id, h, v, now) => HashUntouched(Run(s, init), id, h, v, now);
      }
    }
  }

  /** So decisions, session and counters end as if the worker had not run. */
  lemma IndexingIsInvisible(s: State, steps: seq<Step>)
    requires s.session.Some?
    ensures DecisionsUntouched(Run(s, Only(steps, false)), Run(s, steps))
  {
    IndexingComesLast(s, steps);
    IndexingRunUntouched(Run(s, Only(steps, false)), Only(steps, true));
  }

  lemma UndoCommutes(s: State, indexing: Step)
    requires s.session.Some? && IsIndexing(indexing)
    ensures Undo(s.(photos := StampedAt(s.photos, indexing))).state ==
      Undo(s).state.(photos := StampedAt(Undo(s).state.photos, indexing))
  {
    if Stack(s) != [] {
      var d := Top(s);
      if d.skipped {
        if d.cluster.None? && d.photoId in s.photos {
          SeenCommutes(s.photos, d.photoId, d.prevLastSeenAt, indexing);
        }
      } else if d.cluster.Some? {
        RestoreCommutes(s.photos, d.cluster.value, indexing);
      } else if d.photoId in s.photos {
        RestoreOneCommutes(s.photos, AsOp(d), indexing);
      }
    }
  }
}
