/** The weighted choice of the next photo, over exact reals. */
module Picker {
  import opened Photos
  import opened StoreModel
  import opened StoreRuns
  import UndoLimits

  datatype PickError = NoSession | NoCandidate

  datatype Candidate = Candidate(photo: Photo, weight: real)

  function Pow(base: real, n: nat): real {
    if n == 0 then 1.0 else base * Pow(base, n - 1)
  }

  /** Conversion to an integer drops the fraction. */
  function Truncated(r: real): int {
    if r >= 0.0 then r.Floor else -((-r).Floor)
  }

  function Cooldown(settings: Settings): Time {
    Truncated(settings.cooldownHours * 3_600_000_000_000.0)
  }

  /** The multipliers for new and for resurfacing photos. */
  function MixWeights(mix: Mix): (real, real) {
    match mix
    case AllNew => (1.0, 0.0)
    case HeavyReview => (0.3, 2.5)
    case ReviewOnly => (0.0, 1.0)
    case _ => (1.0, 1.0)
  }

  function WeightFor(p: Photo, settings: Settings, mix: Mix, now: Time): real {
    var (newMult, resurfaceMult) := MixWeights(mix);
    if p.state == Trashed || p.locked then 0.0
    else if settings.lockThreshold > 0 && p.keepCount >= settings.lockThreshold then 0.0
    else if p.lastDecisionAt != 0 && now - p.lastDecisionAt < Cooldown(settings) then 0.0
    else match p.state
      case Unsorted => newMult * 1.0
      case Kept => resurfaceMult * settings.baseRate * Pow(settings.decay, p.keepCount)
      case Unsure => resurfaceMult * settings.unsureBaseRate * Pow(settings.decay, p.unsureCount)
      case _ => 0.0
  }

  // ---------- The pool and its intervals ----------

  /** A photo that cannot be picked now. */
  predicate Barred(p: Photo, session: Session, settings: Settings, now: Time) {
    p.id in session.recentlySkipped || WeightFor(p, settings, session.mix, now) <= 0.0
  }

  // ---------- Which photos can come up, and how likely ----------

  /** The photo was decided on less than the cooldown ago, counted in whole nanoseconds. */
  predicate CoolsDown(p: Photo, settings: Settings, now: Time) {
    var cooldown := settings.cooldownHours * 3600.0 * 1_000_000_000.0;
    var gap := now - p.lastDecisionAt;
    p.lastDecisionAt != 0 && if cooldown >= 0.0 then (gap + 1) as real <= cooldown else gap as real < cooldown
  }

  /** How likely the photo comes up, measured against a new one under an even mix. */
  function Rate(p: Photo, settings: Settings): real {
    match p.state
    case Unsorted => 1.0
    case Kept => settings.baseRate * Pow(settings.decay, p.keepCount)
    case Unsure => settings.unsureBaseRate * Pow(settings.decay, p.unsureCount)
    case _ => 0.0
  }

  /** The photo can come up: it was not skipped of late, is neither trashed nor locked nor kept too often, and
      its cooldown is over; it is new and the mix is not for review only, or it is kept or unsure, the mix is
      not for new photos only, and its rate is not zero. */
  predicate CanComeUp(p: Photo, session: Session, settings: Settings, now: Time) {
    && p.id !in session.recentlySkipped && p.state != Trashed && !p.locked
    && (settings.lockThreshold > 0 ==> p.keepCount < settings.lockThreshold)
    && !CoolsDown(p, settings, now)
    && match p.state
       case Unsorted => session.mix != ReviewOnly
       case Kept => session.mix != AllNew && settings.baseRate * Pow(settings.decay, p.keepCount) > 0.0
       case Unsure => session.mix != AllNew && settings.unsureBaseRate * Pow(settings.decay, p.unsureCount) > 0.0
       case _ => false
  }

  lemma CooldownMeans(p: Photo, settings: Settings, now: Time)
    ensures p.lastDecisionAt != 0 && now - p.lastDecisionAt < Cooldown(settings) <==> CoolsDown(p, settings, now)
  {
    var x := settings.cooldownHours * 3_600_000_000_000.0;
    assert settings.cooldownHours * 3600.0 * 1_000_000_000.0 == x;
    TruncatedMeans(x, now - p.lastDecisionAt);
  }

  lemma TruncatedMeans(x: real, d: int)
    ensures d < Truncated(x) <==> if x >= 0.0 then (d + 1) as real <= x else d as real < x
  {
    if x >= 0.0 {
      assert x.Floor as real <= x < (x.Floor + 1) as real;
    } else {
      var y := -x;
      assert y.Floor as real <= y < (y.Floor + 1) as real;
    }
  }

  lemma ScaledPositive(a: real, b: real, c: real)
    requires a >= 0.0
    ensures a * b * c == a * (b * c)
    ensures a * b * c > 0.0 <==> a > 0.0 && b * c > 0.0
  {
    var x := b * c;
    assert a * b * c == a * x;
    if a > 0.0 && x > 0.0 {
      assert a * x > 0.0;
    } else if a > 0.0 {
      ScaledMonotone(a, x, 0.0);
    }
  }

  /** A photo is barred exactly if it cannot come up. */
  lemma BarredExactly(p: Photo, session: Session, settings: Settings, now: Time)
    ensures Barred(p, session, settings, now) <==> !CanComeUp(p, session, settings, now)
  {
    CooldownMeans(p, settings, now);
    ScaledPositive(MixWeights(session.mix).1, settings.baseRate, Pow(settings.decay, p.keepCount));
    ScaledPositive(MixWeights(session.mix).1, settings.unsureBaseRate, Pow(settings.decay, p.unsureCount));
  }

  /** The weight of a photo that can come up: its rate, times 0.3 for new photos and 2.5 for others when the
      session is mostly for review, and just its rate under every other mix. */
  lemma WeightMeans(p: Photo, session: Session, settings: Settings, now: Time)
    requires CanComeUp(p, session, settings, now)
    ensures WeightFor(p, settings, session.mix, now) ==
      (if session.mix != HeavyReview then 1.0 else if p.state == Unsorted then 0.3 else 2.5) * Rate(p, settings)
    ensures p.state == Unsorted ==> Rate(p, settings) == 1.0
    ensures p.state == Kept ==> Rate(p, settings) == settings.baseRate * Pow(settings.decay, p.keepCount)
    ensures p.state == Unsure ==> Rate(p, settings) == settings.unsureBaseRate * Pow(settings.decay, p.unsureCount)
  {
    CooldownMeans(p, settings, now);
    ScaledPositive(MixWeights(session.mix).1, settings.baseRate, Pow(settings.decay, p.keepCount));
    ScaledPositive(MixWeights(session.mix).1, settings.unsureBaseRate, Pow(settings.decay, p.unsureCount));
  }

  /** With positive rates and decay no kept or unsure photo has rate zero. */
  lemma {:induction false} RatesPositive(p: Photo, settings: Settings)
    requires settings.baseRate > 0.0 && settings.unsureBaseRate > 0.0 && settings.decay > 0.0
    ensures settings.baseRate * Pow(settings.decay, p.keepCount) > 0.0
    ensures settings.unsureBaseRate * Pow(settings.decay, p.unsureCount) > 0.0
  {
    PowPositive(settings.decay, p.keepCount);
    PowPositive(settings.decay, p.unsureCount);
  }

  lemma {:induction false} PowPositive(base: real, n: nat)
    requires base > 0.0
    ensures Pow(base, n) > 0.0
  {
    if n > 0 {
      PowPositive(base, n - 1);
    }
  }

  /** What a power is. */
  lemma {:induction false} PowAdds(base: real, m: nat, n: nat)
    ensures Pow(base, 0) == 1.0 && Pow(base, 1) == base
    ensures Pow(base, m + n) == Pow(base, m) * Pow(base, n)
    decreases m
  {
    if m > 0 {
      PowAdds(base, m - 1, n);
      assert Pow(base, m + n) == base * (Pow(base, m - 1) * Pow(base, n));
    }
  }

  /** The photos that can be picked, in order, with their weights. */
  function PoolOf(photos: seq<Photo>, session: Session, settings: Settings, now: Time): seq<Candidate> {
    if photos == [] then []
    else
      var p := photos[|photos| - 1];
      PoolOf(photos[..|photos| - 1], session, settings, now) +
      if Barred(p, session, settings, now) then [] else [Candidate(p, WeightFor(p, settings, session.mix, now))]
  }

  /** The weight of the first `k` candidates. */
  function Prefix(pool: seq<Candidate>, k: nat): real
    requires k <= |pool|
  {
    if k == 0 then 0.0 else Prefix(pool, k - 1) + pool[k - 1].weight
  }

  /** The point lies in the interval of candidate k; the intervals are closed above, and the first
      also contains its lower end. */
  predicate Lands(pool: seq<Candidate>, k: nat, target: real)
    requires k < |pool|
  {
    (k == 0 || Prefix(pool, k) < target) && target <= Prefix(pool, k + 1)
  }

  ghost predicate AllPositive(pool: seq<Candidate>) {
    forall i :: 0 <= i < |pool| ==> pool[i].weight > 0.0
  }

  lemma {:induction false} PoolHolds(photos: seq<Photo>, session: Session, settings: Settings, now: Time)
    ensures var pool := PoolOf(photos, session, settings, now);
      && AllPositive(pool)
      && (forall p :: p in photos && !Barred(p, session, settings, now) ==>
            Candidate(p, WeightFor(p, settings, session.mix, now)) in pool)
      && (forall c :: c in pool ==> c.photo in photos && !Barred(c.photo, session, settings, now))
  {
    if photos != [] {
      PoolHolds(photos[..|photos| - 1], session, settings, now);
      assert photos == photos[..|photos| - 1] + [photos[|photos| - 1]];
    }
  }

  lemma PoolEmpty(photos: seq<Photo>, session: Session, settings: Settings, now: Time)
    ensures PoolOf(photos, session, settings, now) == [] <==>
      forall p :: p in photos ==> Barred(p, session, settings, now)
  {
    PoolHolds(photos, session, settings, now);
    var pool := PoolOf(photos, session, settings, now);
    if pool != [] {
      assert pool[0] in pool;
    }
  }

  lemma {:induction false} PrefixGrows(pool: seq<Candidate>, j: nat, k: nat)
    requires AllPositive(pool) && j <= k <= |pool|
    ensures Prefix(pool, j) <= Prefix(pool, k) && (j < k ==> Prefix(pool, j) < Prefix(pool, k))
    decreases k
  {
    if j < k {
      PrefixGrows(pool, j, k - 1);
    }
  }

  /** The intervals do not overlap, so the pick is determined by the draw. */
  lemma PickIsUnique(pool: seq<Candidate>, j: nat, k: nat, target: real)
    requires AllPositive(pool) && target >= 0.0
    requires j < |pool| && k < |pool| && Lands(pool, j, target) && Lands(pool, k, target)
    ensures j == k
  {
    if j < k {
      PrefixGrows(pool, j + 1, k);
    } else if k < j {
      PrefixGrows(pool, k + 1, j);
    }
  }

  /** Every candidate can be picked: the middle of its interval is the target of some draw below 1. */
  lemma EveryCandidateCanBePicked(pool: seq<Candidate>, k: nat) returns (draw: real)
    requires AllPositive(pool) && k < |pool|
    ensures 0.0 <= draw < 1.0 && Lands(pool, k, Target(draw, Prefix(pool, |pool|)))
  {
    var total := Prefix(pool, |pool|);
    PrefixGrows(pool, 0, k);
    PrefixGrows(pool, k + 1, |pool|);
    PrefixGrows(pool, k, k + 1);
    var target := (Prefix(pool, k) + Prefix(pool, k + 1)) / 2.0;
    assert total > 0.0 && 0.0 <= target < total;
    draw := target / total;
    Quotient(target, total);
  }

  lemma Quotient(a: real, b: real)
    requires 0.0 <= a < b
    ensures (a / b) * b == a && 0.0 <= a / b < 1.0
  {
  }

  /** The point that a draw stands for. */
  function Target(draw: real, total: real): real {
    draw * total
  }

  lemma TargetInside(draw: real, total: real)
    requires 0.0 <= draw < 1.0 && total > 0.0
    ensures 0.0 <= Target(draw, total) < total
  {
  }

  /** Collects the candidates and their total weight. */
  method BuildPool(photos: seq<Photo>, session: Session, settings: Settings, now: Time)
    returns (pool: seq<Candidate>, total: real)
    ensures pool == PoolOf(photos, session, settings, now) && total == Prefix(pool, |pool|)
  {
    pool, total := [], 0.0;
    for i := 0 to |photos|
      invariant pool == PoolOf(photos[..i], session, settings, now)
      invariant total == Prefix(pool, |pool|)
    {
      assert photos[..i + 1][..i] == photos[..i];
      if photos[i].id in session.recentlySkipped {
        continue;
      }
      var w := WeightFor(photos[i], settings, session.mix, now);
      if w <= 0.0 {
        continue;
      }
      PrefixOfFront(pool, Candidate(photos[i], w), |pool|);
      pool := pool + [Candidate(photos[i], w)];
      total := total + w;
    }
    assert photos[..|photos|] == photos;
  }

  /** Subtracts weights from the target until it is used up; with a target below the total that
      happens inside the loop. */
  method PickAt(pool: seq<Candidate>, start: real) returns (k: nat)
    requires pool != [] && 0.0 <= start < Prefix(pool, |pool|)
    ensures k < |pool| && Lands(pool, k, start)
  {
    k := |pool| - 1;
    var target := start;
    for i := 0 to |pool|
      invariant target == start - Prefix(pool, i)
      invariant i == 0 || target > 0.0
    {
      target := target - pool[i].weight;
      if target <= 0.0 {
        return i;
      }
    }
    assert false;
  }

  /** Picks the candidate in whose interval the draw lands.  It fails exactly if every photo is
      barred. */
  method Next(photos: seq<Photo>, session: Option<Session>, settings: Settings, now: Time, draw: real)
    returns (r: Result<Photo, PickError>, ghost at: nat)
    requires 0.0 <= draw < 1.0
    ensures session.None? <==> r == Err(NoSession)
    ensures session.Some? ==>
      (r == Err(NoCandidate) <==> forall p :: p in photos ==> !CanComeUp(p, session.value, settings, now))
    ensures session.Some? && r.Ok? ==> r.value in photos && CanComeUp(r.value, session.value, settings, now)
    ensures session.Some? && r.Ok? ==>
      var pool := PoolOf(photos, session.value, settings, now);
      at < |pool| && r.value == pool[at].photo && Lands(pool, at, draw * Prefix(pool, |pool|))
  {
    if session.None? {
      return Err(NoSession), 0;
    }
    var pool, total := BuildPool(photos, session.value, settings, now);
    PoolIsWhatCanComeUp(photos, session.value, settings, now);
    if |pool| == 0 {
      return Err(NoCandidate), 0;
    }
    TotalPositive(photos, session.value, settings, now);
    TargetInside(draw, total);
    var k := PickAt(pool, Target(draw, total));
    assert pool[k] in pool;
    return Ok(pool[k].photo), k;
  }

  lemma PoolIsWhatCanComeUp(photos: seq<Photo>, session: Session, settings: Settings, now: Time)
    ensures var pool := PoolOf(photos, session, settings, now);
      && (pool == [] <==> forall p :: p in photos ==> !CanComeUp(p, session, settings, now))
      && forall c :: c in pool ==> c.photo in photos && CanComeUp(c.photo, session, settings, now)
  {
    PoolEmpty(photos, session, settings, now);
    PoolHolds(photos, session, settings, now);
    forall p
      ensures Barred(p, session, settings, now) <==> !CanComeUp(p, session, settings, now)
    {
      BarredExactly(p, session, settings, now);
    }
  }

  /** Each photo that can come up has its share of the draws, as wide as its weight, after those of the photos
      before it. */
  lemma ShareIsWeight(photos: seq<Photo>, session: Session, settings: Settings, now: Time, k: nat)
    requires k < |PoolOf(photos, session, settings, now)|
    ensures var pool := PoolOf(photos, session, settings, now);
      && Prefix(pool, 0) == 0.0 && Prefix(pool, k + 1) - Prefix(pool, k) == pool[k].weight
      && CanComeUp(pool[k].photo, session, settings, now)
      && pool[k].weight ==
           (if session.mix != HeavyReview then 1.0 else if pool[k].photo.state == Unsorted then 0.3 else 2.5) *
           Rate(pool[k].photo, settings)
  {
    var pool := PoolOf(photos, session, settings, now);
    assert pool[k] in pool;
    PoolIsWhatCanComeUp(photos, session, settings, now);
    PoolWeight(photos, session, settings, now, k);
    WeightMeans(pool[k].photo, session, settings, now);
  }

  lemma {:induction false} PoolWeight(photos: seq<Photo>, session: Session, settings: Settings, now: Time, k: nat)
    requires k < |PoolOf(photos, session, settings, now)|
    ensures var c := PoolOf(photos, session, settings, now)[k];
      c.weight == WeightFor(c.photo, settings, session.mix, now)
    decreases |photos|
  {
    var init := photos[..|photos| - 1];
    if k < |PoolOf(init, session, settings, now)| {
      PoolWeight(init, session, settings, now, k);
    }
  }

  /** A photo of the list can be picked, by some draw below one, exactly if it can come up. */
  lemma PickedExactly(photos: seq<Photo>, session: Session, settings: Settings, now: Time, p: Photo)
    requires p in photos
    ensures var pool := PoolOf(photos, session, settings, now);
      (exists draw, k :: 0 <= k < |pool| && 0.0 <= draw < 1.0 && pool[k].photo == p && LandsAt(pool, k, draw)) <==>
      CanComeUp(p, session, settings, now)
  {
    var pool := PoolOf(photos, session, settings, now);
    PoolIsWhatCanComeUp(photos, session, settings, now);
    PoolHolds(photos, session, settings, now);
    if draw, k :| 0 <= k < |pool| && 0.0 <= draw < 1.0 && pool[k].photo == p && LandsAt(pool, k, draw) {
      assert pool[k] in pool;
    }
    if CanComeUp(p, session, settings, now) {
      BarredExactly(p, session, settings, now);
      var k :| 0 <= k < |pool| && pool[k] == Candidate(p, WeightFor(p, settings, session.mix, now));
      var draw := EveryCandidateCanBePicked(pool, k);
      assert LandsAt(pool, k, draw);
    }
  }

  /** The draw falls into the share of candidate k. */
  predicate LandsAt(pool: seq<Candidate>, k: nat, draw: real)
    requires k < |pool|
  {
    Lands(pool, k, draw * Prefix(pool, |pool|))
  }

  lemma TotalPositive(photos: seq<Photo>, session: Session, settings: Settings, now: Time)
    requires PoolOf(photos, session, settings, now) != []
    ensures Prefix(PoolOf(photos, session, settings, now), |PoolOf(photos, session, settings, now)|) > 0.0
  {
    PoolHolds(photos, session, settings, now);
    PrefixGrows(PoolOf(photos, session, settings, now), 0, |PoolOf(photos, session, settings, now)|);
  }

  lemma {:induction false} PrefixOfFront(pool: seq<Candidate>, c: Candidate, k: nat)
    requires k <= |pool|
    ensures Prefix(pool + [c], k) == Prefix(pool, k)
  {
    if k > 0 {
      PrefixOfFront(pool, c, k - 1);
    }
  }

  // ---------- How weights behave ----------

  lemma {:induction false} PowUnit(base: real, n: nat)
    requires 0.0 <= base <= 1.0
    ensures 0.0 <= Pow(base, n) <= 1.0
  {
    if n > 0 {
      PowUnit(base, n - 1);
      Shrinks(base, Pow(base, n - 1));
    }
  }

  lemma {:induction false} PowFalls(base: real, m: nat, n: nat)
    requires 0.0 <= base <= 1.0 && m <= n
    ensures Pow(base, n) <= Pow(base, m)
    decreases n
  {
    if m < n {
      PowFalls(base, m, n - 1);
      PowUnit(base, n - 1);
      Shrinks(base, Pow(base, n - 1));
    }
  }

  lemma Shrinks(base: real, x: real)
    requires 0.0 <= base <= 1.0 && x >= 0.0
    ensures 0.0 <= base * x <= x
  {
  }

  lemma ScaledMonotone(a: real, x: real, y: real)
    requires a >= 0.0 && x <= y
    ensures a * x <= a * y
  {
  }

  /** The more often a photo was kept, the less it weighs. */
  lemma KeptPhotosFade(p: Photo, more: nat, settings: Settings, mix: Mix, now: Time)
    requires p.state == Kept && more >= p.keepCount
    requires 0.0 <= settings.decay <= 1.0 && settings.baseRate >= 0.0
    ensures WeightFor(p.(keepCount := more), settings, mix, now) <= WeightFor(p, settings, mix, now)
  {
    var a := MixWeights(mix).1 * settings.baseRate;
    PowFalls(settings.decay, p.keepCount, more);
    PowUnit(settings.decay, more);
    PowUnit(settings.decay, p.keepCount);
    ScaledMonotone(MixWeights(mix).1, 0.0, settings.baseRate);
    assert a >= 0.0;
    ScaledMonotone(a, Pow(settings.decay, more), Pow(settings.decay, p.keepCount));
    ScaledMonotone(a, 0.0, Pow(settings.decay, p.keepCount));
  }

  lemma UnsureWeighs(p: Photo, settings: Settings, mix: Mix, now: Time)
    requires p.state == Unsure && settings.lockThreshold <= 0
    ensures WeightFor(p, settings, mix, now) ==
      if p.locked || (p.lastDecisionAt != 0 && now - p.lastDecisionAt < Cooldown(settings)) then 0.0
      else MixWeights(mix).1 * settings.unsureBaseRate * Pow(settings.decay, p.unsureCount)
  {
  }

  /** An unsure photo weighs less the more often it was put off, however often it was kept. */
  lemma UnsurePhotosFade(p: Photo, more: nat, kept: nat, settings: Settings, mix: Mix, now: Time)
    requires p.state == Unsure && more >= p.unsureCount && settings.lockThreshold <= 0
    requires 0.0 <= settings.decay <= 1.0 && settings.unsureBaseRate >= 0.0
    ensures WeightFor(p.(unsureCount := more, keepCount := kept), settings, mix, now) <=
      WeightFor(p, settings, mix, now)
    ensures WeightFor(p.(keepCount := kept), settings, mix, now) == WeightFor(p, settings, mix, now)
  {
    var a := MixWeights(mix).1 * settings.unsureBaseRate;
    UnsureWeighs(p, settings, mix, now);
    UnsureWeighs(p.(keepCount := kept), settings, mix, now);
    UnsureWeighs(p.(unsureCount := more, keepCount := kept), settings, mix, now);
    PowFalls(settings.decay, p.unsureCount, more);
    ScaledMonotone(MixWeights(mix).1, 0.0, settings.unsureBaseRate);
    ScaledMonotone(a, Pow(settings.decay, more), Pow(settings.decay, p.unsureCount));
  }

  /** A photo kept more often never weighs more. */
  ghost predicate KeptFade(settings: Settings, mix: Mix, now: Time) {
    forall p: Photo, more: nat {:trigger WeightFor(p.(keepCount := more), settings, mix, now)} ::
      p.state == Kept && more >= p.keepCount ==>
        WeightFor(p.(keepCount := more), settings, mix, now) <= WeightFor(p, settings, mix, now)
  }

  function KeptPhoto(count: nat): Photo {
    Photo(0, "", Kept, count, 0, 0, 0, false, 1, "", ZeroWord(), ZeroWord(), 0, 0, 0)
  }

  lemma KeptPhotoWeight(count: nat, settings: Settings, mix: Mix, now: Time)
    requires settings.lockThreshold <= 0
    ensures WeightFor(KeptPhoto(count), settings, mix, now) ==
      MixWeights(mix).1 * settings.baseRate * Pow(settings.decay, count)
  {
  }

  lemma RisesOnce(a: real, decay: real, n: nat)
    requires a > 0.0 && (if n == 0 then decay > 1.0 else n == 1 && decay < 0.0)
    ensures a * Pow(decay, n + 1) > a * Pow(decay, n)
  {
    assert Pow(decay, 0) == 1.0 && Pow(decay, 1) == decay && Pow(decay, 2) == decay * decay;
    if n == 1 {
      assert decay * decay > 0.0;
    }
    ScaledStrictly(a, Pow(decay, n), Pow(decay, n + 1));
  }

  lemma ScaledStrictly(a: real, x: real, y: real)
    requires a > 0.0 && x < y
    ensures a * x < a * y
  {
  }

  /** With review photos drawn at all and no lock threshold, photos fade as they are kept if and only if the
      decay is between zero and one. */
  lemma KeptFadeExactly(settings: Settings, mix: Mix, now: Time)
    requires settings.lockThreshold <= 0 && settings.baseRate > 0.0 && MixWeights(mix).1 > 0.0
    ensures KeptFade(settings, mix, now) <==> 0.0 <= settings.decay <= 1.0
  {
    if 0.0 <= settings.decay <= 1.0 {
      forall p: Photo, more: nat {:trigger WeightFor(p.(keepCount := more), settings, mix, now)} |
        p.state == Kept && more >= p.keepCount
        ensures WeightFor(p.(keepCount := more), settings, mix, now) <= WeightFor(p, settings, mix, now)
      {
        KeptPhotosFade(p, more, settings, mix, now);
      }
    } else {
      var n := if settings.decay > 1.0 then 0 else 1;
      ScaledStrictly(MixWeights(mix).1, 0.0, settings.baseRate);
      RisesOnce(MixWeights(mix).1 * settings.baseRate, settings.decay, n);
      KeptPhotoWeight(n, settings, mix, now);
      KeptPhotoWeight(n + 1, settings, mix, now);
      assert KeptPhoto(n).(keepCount := n + 1) == KeptPhoto(n + 1);
    }
  }

  /** A photo whose decision was undone, its own or its cluster's, is not picked again before the
      cooldown has passed since that decision, although its state and counts are what they were: undo
      does not restore the time of the last decision. */
  lemma UndoneDecisionCoolsDown(s: State, step: Step, id: PhotoId, settings: Settings, mix: Mix, now: Time)
    requires s.session.Some? && HasMembers(step) && Pushes(s, step)
    requires id in s.photos && id in UndoLimits.DecidedBy(Pushed(s, step)) && Pushed(s, step).timestamp != 0
    requires now - Pushed(s, step).timestamp < Cooldown(settings)
    ensures id in Undo(Exec(s, step)).state.photos
    ensures var p := Undo(Exec(s, step)).state.photos[id];
      WeightFor(p, settings, mix, now) == 0.0 && p.state == s.photos[id].state
  {
    UndoLimits.UndoReturns(s, step, id);
  }
}
