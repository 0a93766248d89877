/** The records the program keeps: photos, undo-stack entries, the session and the settings.

    Photo IDs are base64 strings in the program, compared as strings; the model keeps only that
    they are distinct and totally ordered, and takes them as natural numbers.  A `Time` is a
    number of nanoseconds counted from the zero value of the program's time type, so that 0 is
    that zero value and a negative time lies before it. */
module Photos {
  datatype Option<+T> = None | Some(value: T)

  datatype Result<+T, +E> = Ok(value: T) | Err(error: E)

  type PhotoId = nat
  type Time = int
  type Path = string

  /** A 64-bit word as the sequence of its bits, lowest first. */
  type Word = w: seq<bool> | |w| == 64 witness seq(64, _ => false)

  function ZeroWord(): Word {
    seq(64, _ => false)
  }

  /** `NoState` is the empty string, which fields never assigned by the program hold. */
  datatype PhotoState = NoState | Unsorted | Kept | Unsure | Trashed

  datatype Photo = Photo(
    id: PhotoId,
    path: Path,
    state: PhotoState,
    keepCount: nat,
    unsureCount: nat,
    lastSeenAt: Time,
    lastDecisionAt: Time,
    locked: bool,
    sizeBytes: int,
    trashedPath: Path,
    dhash: Word,
    dhashV: Word,
    hashVersion: int,
    dhashedAt: Time,
    time: Time)

  datatype ClusterMemberOp = ClusterMemberOp(
    photoId: PhotoId,
    prevState: PhotoState,
    newState: PhotoState,
    prevKeepCount: nat,
    prevUnsureCount: nat,
    prevLastSeenAt: Time,
    trashFrom: Path,
    trashTo: Path)

  /** One entry of the undo stack.  `cluster` is None for a nil slice, which is not the same
      thing as an empty one: undo tells them apart. */
  datatype Decision = Decision(
    photoId: PhotoId,
    prevState: PhotoState,
    newState: PhotoState,
    timestamp: Time,
    prevKeepCount: nat,
    prevUnsureCount: nat,
    prevLastSeenAt: Time,
    trashFrom: Path,
    trashTo: Path,
    skipped: bool,
    advancedCounter: bool,
    counterBump: nat,
    cluster: Option<seq<ClusterMemberOp>>)

  datatype Mix = AllNew | Mixed | HeavyReview | ReviewOnly | OtherMix

  datatype Session = Session(
    startedAt: Time,
    target: nat,
    done: nat,
    mix: Mix,
    stack: seq<Decision>,
    recentlySkipped: seq<PhotoId>)

  datatype Settings = Settings(
    baseRate: real,
    decay: real,
    unsureBaseRate: real,
    cooldownHours: real,
    lockThreshold: int,
    dupeThreshold: int,
    dupeTimeWindow: Time,
    skipAdvancesCounter: bool,
    clusterCountsAsOne: bool)

  const CURRENT_HASH_VERSION := 2

  /** A list of photos no two of which share an ID. */
  ghost predicate DistinctIds(photos: seq<Photo>) {
    forall i, j :: 0 <= i < j < |photos| ==> photos[i].id != photos[j].id
  }

  /** Every photo is filed under its own ID. */
  ghost predicate KeyedById(photos: map<PhotoId, Photo>) {
    forall id :: id in photos ==> photos[id].id == id
  }
}
