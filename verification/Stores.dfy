/** The store: a class whose methods update its fields in place, each proved to take exactly the
    step that `StoreModel` describes. */
module Stores {
  import opened Photos
  import M = StoreModel

  class Store {
    var photos: map<PhotoId, Photo>
    var session: Option<Session>
    var settings: Settings
    var daily: map<M.Day, nat>
    var lastBatchDone: nat

    function State(): M.State
      reads this
    {
      M.State(photos, session, settings, daily, lastBatchDone)
    }

    /** An empty store with the given settings. */
    constructor (initial: Settings)
      ensures State() == M.State(map[], None, initial, map[], 0)
    {
      photos, session, settings, daily, lastBatchDone := map[], None, initial, map[], 0;
    }

    method StartSession(target: int, mix: Mix, now: Time) returns (r: Result<Session, M.Error>)
      modifies this
      ensures mix == OtherMix ==> r == Err(M.InvalidMix) && State() == old(State())
      ensures mix != OtherMix && target < 0 ==> r == Err(M.NegativeTarget) && State() == old(State())
      ensures mix != OtherMix && target >= 0 ==>
        State() == M.StartSession(old(State()), target, mix, now) && r == Ok(session.value)
    {
      if mix == OtherMix {
        return Err(M.InvalidMix);
      }
      if target < 0 {
        return Err(M.NegativeTarget);
      }
      session := Some(Session(now, target, 0, mix, [], []));
      return Ok(session.value);
    }

    method EndSession()
      modifies this
      ensures State() == old(State()).(session := None,
        lastBatchDone := if old(session).Some? then old(session).value.done else old(lastBatchDone))
    {
      if session.Some? {
        lastBatchDone := session.value.done;
      }
      session := None;
    }

    method SessionExtend(delta: int) returns (ok: bool)
      modifies this
      ensures State() == M.SessionExtend(old(State()), delta)
      ensures ok == old(session).Some?
    {
      if session.None? {
        return false;
      }
      if delta <= 0 {
        session := Some(session.value.(target := 0));
      } else if session.value.target > 0 {
        session := Some(session.value.(target := session.value.target + delta));
      }
      session := Some(session.value.(recentlySkipped := []));
      ok := true;
    }

    method UpdateSettings(ns: Settings)
      modifies this
      ensures State() == old(State()).(settings := ns)
    {
      settings := ns;
    }

    method RaiseDaily(day: M.Day, bump: nat)
      modifies this`daily
      ensures daily == M.RaiseDaily(old(daily), day, bump)
    {
      daily := daily[day := (if day in daily then daily[day] else 0) + bump];
    }

    method RecordDecision(id: PhotoId, newState: PhotoState, trashFrom: Path, trashTo: Path, now: Time)
      returns (r: Result<Decision, M.Error>)
      modifies this
      ensures M.Outcome(State(), r) == M.RecordDecision(old(State()), id, newState, trashFrom, trashTo, now)
    {
      if id !in photos {
        return Err(M.PhotoNotFound);
      }
      if session.None? {
        return Err(M.NoActiveSession);
      }
      var p := photos[id];
      var d := Decision(id, p.state, newState, now, p.keepCount, p.unsureCount, p.lastSeenAt, trashFrom, trashTo,
                        false, false, 0, None);
      match newState {
        case Kept => p := p.(keepCount := p.keepCount + 1);
        case Unsure => p := p.(unsureCount := p.unsureCount + 1);
        case Trashed => p := p.(trashedPath := trashTo);
        case _ =>
      }
      p := p.(state := newState);
      p := p.(lastDecisionAt := now);
      p := p.(lastSeenAt := now);
      photos := photos[id := p];

      session := Some(session.value.(done := session.value.done + 1));
      session := Some(session.value.(stack := session.value.stack + [d]));
      RaiseDaily(M.DayOf(now), 1);
      return Ok(d);
    }

    method RecordSkip(id: PhotoId, now: Time) returns (r: Result<Decision, M.Error>)
      modifies this
      ensures M.Outcome(State(), r) == M.RecordSkip(old(State()), id, now)
    {
      if id !in photos {
        return Err(M.PhotoNotFound);
      }
      if session.None? {
        return Err(M.NoActiveSession);
      }
      var p := photos[id];
      var advance := settings.skipAdvancesCounter;
      var d := Decision(id, p.state, p.state, now, 0, 0, p.lastSeenAt, "", "", true, advance, 0, None);
      photos := photos[id := p.(lastSeenAt := now)];

      var cap := session.value.target;
      if cap <= 0 {
        cap := 5;
      }
      var rs := session.value.recentlySkipped + [id];
      if |rs| > cap {
        rs := rs[|rs| - cap..];
      }
      session := Some(session.value.(recentlySkipped := rs));
      session := Some(session.value.(stack := session.value.stack + [d]));
      if advance {
        session := Some(session.value.(done := session.value.done + 1));
        RaiseDaily(M.DayOf(now), 1);
      }
      return Ok(d);
    }

    method SkipCluster(clusterId: PhotoId, ids: seq<PhotoId>, now: Time) returns (r: Result<Decision, M.Error>)
      modifies this
      ensures M.Outcome(State(), r) == M.SkipCluster(old(State()), clusterId, ids, now)
    {
      if session.None? {
        return Err(M.NoActiveSession);
      }
      var advance := settings.skipAdvancesCounter;
      var cap := session.value.target;
      if cap <= 0 {
        cap := 10;
      }
      var rs := session.value.recentlySkipped + ids;
      if |rs| > cap {
        rs := rs[|rs| - cap..];
      }
      session := Some(session.value.(recentlySkipped := rs));

      var ops := [];
      for i := 0 to |ids|
        invariant ops == M.SkipOps(ids[..i])
      {
        ops := ops + [ClusterMemberOp(ids[i], NoState, NoState, 0, 0, 0, "", "")];
      }
      assert ids[..|ids|] == ids;
      var bump := 0;
      if advance {
        bump := 1;
        if !settings.clusterCountsAsOne {
          bump := |ids|;
          if bump < 1 {
            bump := 1;
          }
        }
        session := Some(session.value.(done := session.value.done + bump));
        RaiseDaily(M.DayOf(now), bump);
      }
      var d := Decision(clusterId, NoState, NoState, now, 0, 0, 0, "", "", true, advance, bump, Some(ops));
      session := Some(session.value.(stack := session.value.stack + [d]));
      return Ok(d);
    }

    /** Fills in the previous state of every member; fails at the first unknown photo. */
    method SnapshotMembers(given: seq<ClusterMemberOp>) returns (known: bool, ops: seq<ClusterMemberOp>)
      ensures known == M.AllKnown(photos, given)
      ensures known ==> ops == M.Snapshot(photos, given)
    {
      ops := given;
      for i := 0 to |ops|
        invariant |ops| == |given|
        invariant M.AllKnown(photos, given[..i])
        invariant forall k :: 0 <= k < i ==> ops[k] == M.SnapshotOne(photos[given[k].photoId], given[k])
        invariant forall k :: i <= k < |given| ==> ops[k] == given[k]
      {
        if ops[i].photoId !in photos {
          return false, ops;
        }
        var p := photos[ops[i].photoId];
        ops := ops[i := ops[i].(prevState := p.state, prevKeepCount := p.keepCount,
                                prevUnsureCount := p.unsureCount, prevLastSeenAt := p.lastSeenAt)];
      }
      assert given[..|given|] == given;
      known := true;
    }

    /** Carries out the members' transitions in order. */
    method ApplyMembers(ops: seq<ClusterMemberOp>, now: Time)
      requires M.AllKnown(photos, ops)
      modifies this`photos
      ensures photos == M.ApplyOps(old(photos), ops, now)
    {
      for i := 0 to |ops|
        invariant photos == M.ApplyOps(old(photos), ops[..i], now)
      {
        assert ops[..i + 1][..i] == ops[..i];
        var op := ops[i];
        var p := photos[op.photoId];
        match op.newState {
          case Kept => p := p.(keepCount := p.keepCount + 1);
          case Trashed => p := p.(trashedPath := op.trashTo);
          case _ =>
        }
        p := p.(state := op.newState, lastDecisionAt := now, lastSeenAt := now);
        photos := photos[op.photoId := p];
      }
      assert ops[..|ops|] == ops;
    }

    method RecordClusterDecision(clusterId: PhotoId, given: Option<seq<ClusterMemberOp>>, now: Time)
      returns (r: Result<Decision, M.Error>)
      modifies this
      ensures M.Outcome(State(), r) == M.RecordClusterDecision(old(State()), clusterId, given, now)
    {
      if session.None? {
        return Err(M.NoActiveSession);
      }
      // Snapshot the previous state before changing anything.
      var known, ops := SnapshotMembers(M.Members(given));
      if !known {
        return Err(M.PhotoNotFound);
      }
      M.SnapshotApplies(photos, M.Members(given), now);
      ApplyMembers(ops, now);
      var bump := 1;
      if !settings.clusterCountsAsOne {
        bump := |ops|;
        if bump < 1 {
          bump := 1;
        }
      }
      var d := Decision(clusterId, NoState, NoState, now, 0, 0, 0, "", "", false, false, bump,
                        if given.None? then None else Some(ops));
      PushCounted(d, bump, M.DayOf(now));
      return Ok(d);
    }

    /** Pushes an entry and counts it, in the session and for the day. */
    method PushCounted(d: Decision, bump: nat, day: M.Day)
      requires session.Some?
      modifies this`session, this`daily
      ensures session ==
        Some(old(session).value.(done := old(session).value.done + bump, stack := old(session).value.stack + [d]))
      ensures daily == M.RaiseDaily(old(daily), day, bump)
    {
      session := Some(session.value.(done := session.value.done + bump));
      session := Some(session.value.(stack := session.value.stack + [d]));
      RaiseDaily(day, bump);
    }

    /** Drops the last occurrence of `id` from the skip list. */
    method Unskip(id: PhotoId)
      requires session.Some?
      modifies this`session
      ensures session ==
        Some(old(session).value.(recentlySkipped := M.RemoveLast(old(session).value.recentlySkipped, id)))
    {
      var rs := session.value.recentlySkipped;
      var i := |rs| - 1;
      while i >= 0 && rs[i] != id
        invariant -1 <= i < |rs|
        invariant forall k :: i < k < |rs| ==> rs[k] != id
      {
        i := i - 1;
      }
      M.RemoveLastAt(rs, id, i);
      if i >= 0 {
        session := Some(session.value.(recentlySkipped := rs[..i] + rs[i + 1..]));
      }
    }

    method RollBackCounters(day: M.Day, bump: nat)
      requires session.Some?
      modifies this`session, this`daily
      ensures session == Some(old(session).value.(done := M.Lowered(old(session).value.done, bump)))
      ensures daily == M.LowerDaily(old(daily), day, bump)
    {
      if session.value.done >= bump {
        session := Some(session.value.(done := session.value.done - bump));
      } else {
        session := Some(session.value.(done := 0));
      }
      var count := if day in daily then daily[day] else 0;
      if count >= bump {
        daily := daily[day := count - bump];
      } else {
        daily := daily[day := 0];
      }
    }

    /** Restores the members from the last to the first. */
    method RestoreMembers(ops: seq<ClusterMemberOp>)
      modifies this`photos
      ensures photos == M.RestoreOps(old(photos), ops)
    {
      var i := |ops| - 1;
      assert ops[..|ops|] == ops;
      while i >= 0
        invariant -1 <= i < |ops|
        invariant M.RestoreOps(photos, ops[..i + 1]) == M.RestoreOps(old(photos), ops)
      {
        assert ops[..i + 1][..i] == ops[..i];
        var op := ops[i];
        if op.photoId in photos {
          var p := photos[op.photoId];
          p := p.(state := op.prevState, keepCount := op.prevKeepCount, unsureCount := op.prevUnsureCount);
          p := p.(lastSeenAt := op.prevLastSeenAt);
          if op.newState == Trashed {
            p := p.(trashedPath := "");
          }
          photos := photos[op.photoId := p];
        }
        i := i - 1;
      }
    }

    method Undo() returns (r: Result<Decision, M.Error>)
      modifies this
      ensures M.Outcome(State(), r) == M.Undo(old(State()))
    {
      if session.None? || |session.value.stack| == 0 {
        return Err(M.NothingToUndo);
      }
      var n := |session.value.stack|;
      var last := session.value.stack[n - 1];
      session := Some(session.value.(stack := session.value.stack[..n - 1]));
      var day := M.DayOf(last.timestamp);
      var bump := last.counterBump;
      if bump <= 0 {
        bump := 1;
      }
      if last.skipped && last.cluster.Some? {
        UnskipMembers(last.cluster.value);
        if last.advancedCounter {
          RollBackCounters(day, bump);
        }
      } else if last.skipped {
        if last.photoId in photos {
          photos := photos[last.photoId := photos[last.photoId].(lastSeenAt := last.prevLastSeenAt)];
        }
        Unskip(last.photoId);
        if last.advancedCounter {
          RollBackCounters(day, bump);
        }
      } else if last.cluster.Some? {
        RestoreMembers(last.cluster.value);
        RollBackCounters(day, bump);
      } else {
        if last.photoId !in photos {
          return Err(M.PhotoNotFound);
        }
        var p := photos[last.photoId];
        p := p.(state := last.prevState, keepCount := last.prevKeepCount, unsureCount := last.prevUnsureCount);
        p := p.(lastSeenAt := last.prevLastSeenAt);
        if last.newState == Trashed {
          p := p.(trashedPath := "");
        }
        photos := photos[last.photoId := p];
        RollBackCounters(day, bump);
      }
      return Ok(last);
    }

    method UnskipMembers(ops: seq<ClusterMemberOp>)
      requires session.Some?
      modifies this`session
      ensures session ==
        Some(old(session).value.(recentlySkipped := M.RemoveEach(old(session).value.recentlySkipped, ops)))
    {
      ghost var before := session.value.recentlySkipped;
      for i := 0 to |ops|
        invariant session.Some? &&
          session == Some(old(session).value.(recentlySkipped := session.value.recentlySkipped))
        invariant M.RemoveEach(session.value.recentlySkipped, ops[i..]) == M.RemoveEach(before, ops)
      {
        assert ops[i..][1..] == ops[i + 1..];
        Unskip(ops[i].photoId);
      }
    }

    /** Drops the photos outside `keep`, except the trashed ones; returns how many were dropped. */
    method ForgetMissing(keep: set<PhotoId>) returns (removed: nat)
      modifies this`photos
      ensures photos == M.ForgetMissing(old(State()), keep).photos
      ensures removed == |M.Missing(old(photos), keep)|
    {
      removed := 0;
      var todo := photos.Keys;
      ghost var dropped: set<PhotoId> := {};
      while todo != {}
        invariant todo <= photos.Keys
        invariant photos == old(photos) - dropped && removed == |dropped|
        invariant dropped == set id | id in old(photos) && id !in todo && id !in keep &&
          old(photos)[id].state != Trashed
        decreases todo
      {
        var id :| id in todo;
        todo := todo - {id};
        if id !in keep && photos[id].state != Trashed {
          photos := photos - {id};
          removed := removed + 1;
          dropped := dropped + {id};
        }
      }
      assert dropped == M.Missing(old(photos), keep);
    }

    /** Registers a photo that a scan found, or updates it; returns whether it is new. */
    method UpsertPhoto(id: PhotoId, path: Path, sizeBytes: int, mtime: Time) returns (isNew: bool)
      modifies this
      ensures State() == M.UpsertPhoto(old(State()), id, path, sizeBytes, mtime)
      ensures isNew <==> id !in old(photos)
    {
      if id !in photos {
        photos := photos[id := M.NewPhoto(id, path, sizeBytes, mtime)];
        return true;
      }
      var p := photos[id];
      if p.sizeBytes != sizeBytes {
        p := p.(sizeBytes := sizeBytes);
      }
      if p.time == 0 && mtime != 0 {
        p := p.(time := mtime);
      }
      photos := photos[id := p];
      isNew := false;
    }

    method SetCaptureTime(id: PhotoId, t: Time) returns (ok: bool)
      modifies this
      ensures State() == M.SetCaptureTime(old(State()), id, t)
      ensures ok <==> t == 0 || id in photos
    {
      if t == 0 {
        return true;
      }
      if id !in photos {
        return false;
      }
      if photos[id].time != t {
        photos := photos[id := photos[id].(time := t)];
      } else {
        assert photos == photos[id := photos[id].(time := t)];
      }
      ok := true;
    }

    method SetHash(id: PhotoId, h: Word, v: Word, now: Time) returns (ok: bool)
      modifies this
      ensures State() == M.SetHash(old(State()), id, h, v, now)
      ensures ok <==> id in photos
    {
      if id !in photos {
        return false;
      }
      photos := photos[id := photos[id].(dhash := h, dhashV := v)];
      photos := photos[id := photos[id].(hashVersion := CURRENT_HASH_VERSION, dhashedAt := now)];
      ok := true;
    }

    method MarkHashFailed(id: PhotoId, now: Time) returns (ok: bool)
      modifies this
      ensures State() == M.SetHash(old(State()), id, ZeroWord(), ZeroWord(), now)
      ensures ok <==> id in photos
    {
      ok := SetHash(id, ZeroWord(), ZeroWord(), now);
    }

    /** Some photo still to be hashed, whichever the map yields first. */
    method NextUnhashed() returns (p: Option<Photo>)
      ensures p.None? <==> M.UnhashedIds(photos) == {}
      ensures p.Some? ==> exists id :: id in M.UnhashedIds(photos) && photos[id] == p.value
    {
      var todo := photos.Keys;
      while todo != {}
        invariant todo <= photos.Keys
        invariant M.UnhashedIds(photos) <= todo
        decreases todo
      {
        var id :| id in todo;
        if M.Unhashed(photos[id]) {
          assert id in M.UnhashedIds(photos);
          return Some(photos[id]);
        }
        todo := todo - {id};
      }
      p := None;
    }

    /** How many of the photos outside the trash are hashed. */
    method HashProgress() returns (hashed: nat, total: nat)
      ensures total == |set id | id in photos && photos[id].state != Trashed|
      ensures total - hashed == |M.UnhashedIds(photos)|
    {
      hashed, total := 0, 0;
      var todo := photos.Keys;
      ghost var seen: set<PhotoId>, waiting: set<PhotoId> := {}, {};
      while todo != {}
        invariant todo <= photos.Keys
        invariant seen == set id | id in photos && id !in todo && photos[id].state != Trashed
        invariant waiting == set id | id in photos && id !in todo && M.Unhashed(photos[id])
        invariant total == |seen| && total - hashed == |waiting|
        decreases todo
      {
        var id :| id in todo;
        todo := todo - {id};
        if photos[id].state != Trashed {
          seen := seen + {id};
          total := total + 1;
          if photos[id].dhashedAt != 0 && photos[id].hashVersion >= CURRENT_HASH_VERSION {
            hashed := hashed + 1;
          } else {
            waiting := waiting + {id};
          }
        }
      }
      assert seen == set id | id in photos && photos[id].state != Trashed;
      assert waiting == M.UnhashedIds(photos);
    }

    /** All photos, each once.  The order is that of the map, not of the paths. */
    method AllPhotos() returns (out: seq<Photo>)
      requires KeyedById(photos)
      ensures M.Lists(photos, out)
    {
      out := [];
      var todo := photos.Keys;
      while todo != {}
        invariant todo <= photos.Keys
        invariant DistinctIds(out)
        invariant forall p :: p in out <==> p.id in photos && p.id !in todo && photos[p.id] == p
        decreases todo
      {
        var id :| id in todo;
        todo := todo - {id};
        out := out + [photos[id]];
      }
    }
  }
}
