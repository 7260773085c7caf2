/** The rocket controller of the firework engine (class `FireworkRockets`,
    src/main.ts:2127-2597): rockets are launched under a FIFO cap, climb from
    their start to their apex along an eased path while a 20-point trail
    follows them and sparks spray from their tail, and each rocket that
    reaches its duration reports a burst, hands the explosion to the burst
    pool and is removed. A fixed buffer of 3000 render points shows the sparks,
    eight points per spark.

    Sprites, lines, colours and the sparks' own positions (gravity, drag and
    the lerp-based tail) are not part of this model. */
module Rockets {
  import opened MathUtil
  import opened Motes
  import opened EffectPool
  import opened Fireworks
  import opened ListOps

  const TrailPoints: nat := 20
  const TrailFloats: nat := 60
  const SparkTrailLength: nat := 8
  const MaxSparkParticles: nat := 3000
  const SparkSpawnRate: real := 80.0

  /** One rising rocket. `trail` is the content of the rocket's
      `trailPositions` buffer: x, y, z of point 0 (the head) first, then of
      the older points. */
  datatype Rocket = Rocket(
    start: Vec,
    end: Vec,
    age: real,
    duration: real,
    intensity: real,
    pattern: Pattern,
    userTriggered: bool,
    trail: seq<real>,
    sparks: seq<Mote>)

  /** The arguments of one `onBurst(world, pattern, intensity, userTriggered)`
      call. */
  datatype BurstEvent = BurstEvent(world: Vec, pattern: Pattern, intensity: real, userTriggered: bool)

  /** What a slot of the spark render buffer shows: point `point` of spark
      `spark` of the collected list, or nothing (alpha 0). */
  datatype PointRef = PointRef(spark: nat, point: nat)

  /** The draws of one launch: the apex offsets in x and z, the apex height and
      the duration. */
  datatype LaunchDraws = LaunchDraws(offsetX: real, height: real, offsetZ: real, duration: real)

  predicate LaunchDrawsOk(d: LaunchDraws) {
    IsDraw(d.offsetX) && IsDraw(d.height) && IsDraw(d.offsetZ) && IsDraw(d.duration)
  }

  /** The draws of one rocket in one update: the draw that rounds the spark
      count, and one life-span draw per new spark. */
  datatype RocketDraws = RocketDraws(spawn: real, sparkLives: seq<real>)

  predicate RocketDrawsOk(d: RocketDraws, dt: real) {
    && IsDraw(d.spawn)
    && SparkCount(dt, d.spawn) <= |d.sparkLives|
    && forall j :: 0 <= j < |d.sparkLives| ==> IsDraw(d.sparkLives[j])
  }

  function LerpVec(a: Vec, b: Vec, t: real): Vec {
    Vec(Lerp(a.x, b.x, t), Lerp(a.y, b.y, t), Lerp(a.z, b.z, t))
  }

  /** The launch pad below the target and the apex above it, pulled 30%
      towards the centre and jittered by at most 0.15 sideways, at a height in
      [2.2, 3.8). */
  function LaunchStart(target: Vec): (s: Vec)
    ensures s.x == target.x && s.y == -0.8 && s.z == target.z
  {
    Vec(target.x, -0.8, target.z)
  }

  function LaunchEnd(target: Vec, d: LaunchDraws): (e: Vec)
    requires LaunchDrawsOk(d)
    ensures target.x * 0.7 - 0.15 <= e.x < target.x * 0.7 + 0.15
    ensures 2.2 <= e.y < 3.8
    ensures target.z * 0.7 - 0.15 <= e.z < target.z * 0.7 + 0.15
  {
    Vec(target.x * 0.7 + Lerp(-0.15, 0.15, d.offsetX), Lerp(2.2, 3.8, d.height), target.z * 0.7 + Lerp(-0.15, 0.15, d.offsetZ))
  }

  /** The record `launch` pushes: newborn, with no sparks, a duration in
      [0.7, 1.0) and a trail whose every point is the launch pad. */
  function NewRocket(target: Vec, intensity: real, pattern: Pattern, userTriggered: bool, d: LaunchDraws): (r: Rocket)
    requires LaunchDrawsOk(d)
    ensures r.age == 0.0 && 0.7 <= r.duration < 1.0 && r.sparks == [] && Shaped(r)
    ensures forall j :: 0 <= j < TrailPoints ==> TrailPoint(r.trail, j) == r.start
  {
    Rocket(LaunchStart(target), LaunchEnd(target, d), 0.0, Lerp(0.7, 1.0, d.duration),
           intensity, pattern, userTriggered, Filled(LaunchStart(target), TrailPoints), [])
  }

  /** What every rocket of the list satisfies: a 60-float trail and a
      positive duration. */
  predicate Shaped(r: Rocket) {
    |r.trail| == TrailFloats && r.duration > 0.0
  }

  ghost predicate AllShaped(rs: seq<Rocket>) {
    forall k :: 0 <= k < |rs| ==> Shaped(rs[k])
  }

  /** Coordinate `c` (0 = x, 1 = y, 2 = z) of a point. */
  function Coord(p: Vec, c: nat): real {
    if c == 0 then p.x else if c == 1 then p.y else p.z
  }

  /** Point `j` of a flat x, y, z buffer. */
  function TrailPoint(t: seq<real>, j: nat): Vec
    requires 3 * j + 2 < |t|
  {
    Vec(t[3 * j], t[3 * j + 1], t[3 * j + 2])
  }

  /** A trail with every point at `p`, as `launch` initialises it. */
  function Filled(p: Vec, n: nat): (t: seq<real>)
    ensures |t| == 3 * n
    ensures forall j :: 0 <= j < n ==> TrailPoint(t, j) == p
  {
    seq(3 * n, k requires 0 <= k < 3 * n => Coord(p, k % 3))
  }

  /** A trail after one tick: `p` is pushed in at the head and the oldest
      point drops off the tail. */
  function ShiftIn(t: seq<real>, p: Vec): (r: seq<real>)
    requires |t| % 3 == 0 && |t| >= 3
    ensures |r| == |t|
    ensures TrailPoint(r, 0) == p
    ensures forall j :: 1 <= j < |t| / 3 ==> TrailPoint(r, j) == TrailPoint(t, j - 1)
  {
    [p.x, p.y, p.z] + t[..|t| - 3]
  }

  /** A trail after a series of ticks, the oldest position first. */
  function ShiftAll(t: seq<real>, ps: seq<Vec>): (r: seq<real>)
    requires |t| % 3 == 0 && |t| >= 3
    ensures |r| == |t|
    decreases |ps|
  {
    if ps == [] then t else ShiftIn(ShiftAll(t, ps[..|ps| - 1]), ps[|ps| - 1])
  }

  /** The trail is a record of the last positions: after a series of ticks,
      point `j` is the position of `j` ticks ago while there is one, and
      otherwise the initial point `j - |ps|`; after 20 ticks the trail holds
      nothing but the last 20 positions. */
  lemma {:induction false} ShiftAllRemembers(t: seq<real>, ps: seq<Vec>, j: nat)
    requires |t| % 3 == 0 && |t| >= 3 && j < |t| / 3
    ensures j < |ps| ==> TrailPoint(ShiftAll(t, ps), j) == ps[|ps| - 1 - j]
    ensures j >= |ps| ==> TrailPoint(ShiftAll(t, ps), j) == TrailPoint(t, j - |ps|)
    decreases |ps|
  {
    if ps != [] {
      var front := ps[..|ps| - 1];
      if j > 0 {
        ShiftAllRemembers(t, front, j - 1);
        assert TrailPoint(ShiftAll(t, ps), j) == TrailPoint(ShiftAll(t, front), j - 1);
        if j < |ps| {
          assert front[|front| - 1 - (j - 1)] == ps[|ps| - 1 - j];
        }
      }
    }
  }

  /** Where the rocket's head is: the eased progress `clamp(age / duration)`
      between start and apex. */
  function Position(r: Rocket): (p: Vec)
    requires r.duration > 0.0
    ensures r.age >= r.duration ==> p == r.end
    ensures r.age <= 0.0 ==> p == r.start
  {
    assert r.age >= r.duration ==> r.age / r.duration >= 1.0;
    assert r.age <= 0.0 ==> r.age / r.duration <= 0.0;
    LerpVec(r.start, r.end, EaseOutCubic(Clamp(r.age / r.duration, 0.0, 1.0)))
  }

  /** Where the head is after a tick of `dt`: the point written into the
      trail on that tick. */
  function HeadAfter(r: Rocket, dt: real): (p: Vec)
    requires r.duration > 0.0
    ensures r.age + dt >= r.duration ==> p == r.end
  {
    Position(r.(age := r.age + dt))
  }

  /** `x % 1` in JavaScript: the fraction after truncation toward zero, so it
      has the sign of `x`. */
  function JsFrac(x: real): (f: real)
    ensures 0.0 <= x ==> 0.0 <= f < 1.0 && f == x - x.Floor as real
    ensures x < 0.0 ==> -1.0 < f <= 0.0 && f == x + (-x).Floor as real
  {
    if x >= 0.0 then x - x.Floor as real else x + (-x).Floor as real
  }

  /** `Math.floor(80 * dt) + (Math.random() < (80 * dt) % 1 ? 1 : 0)`: the
      whole part of the expected count, plus one more when the draw falls
      below the fractional part. For a non-negative `dt` it differs from
      `80 * dt` by less than one. */
  function SparkCount(dt: real, u: real): (n: int)
    requires IsDraw(u)
    ensures var c := SparkSpawnRate * dt;
            && (n == c.Floor + 1 <==> u < JsFrac(c))
            && (n == c.Floor <==> JsFrac(c) <= u)
    ensures dt >= 0.0 ==> 0 <= n && n as real - 1.0 < SparkSpawnRate * dt < n as real + 1.0
  {
    var c := SparkSpawnRate * dt;
    c.Floor + (if u < JsFrac(c) then 1 else 0)
  }

  /** The sparks a rocket sprays in one tick: life 0, span `rand(0.2, 0.45)`.
      A negative count sprays none. */
  function NewSparks(d: RocketDraws, dt: real): (ss: seq<Mote>)
    requires RocketDrawsOk(d, dt)
    ensures var n := SparkCount(dt, d.spawn); |ss| == if n > 0 then n else 0
    ensures WellFormed(ss)
    ensures forall j :: 0 <= j < |ss| ==> ss[j].life == 0.0 && 0.2 <= ss[j].maxLife < 0.45
  {
    var n := SparkCount(dt, d.spawn);
    var k := if n > 0 then n else 0;
    seq(k, j requires 0 <= j < k => Mote(0.0, Lerp(0.2, 0.45, d.sparkLives[j])))
  }

  /** A rocket bursts on the tick whose new age reaches its duration, which
      is the tick its head reaches the apex. */
  predicate Fires(r: Rocket, dt: real)
    ensures Fires(r, dt) && r.duration > 0.0 ==> HeadAfter(r, dt) == r.end
  {
    r.age + dt >= r.duration
  }

  function EventOf(r: Rocket): BurstEvent {
    BurstEvent(r.end, r.pattern, r.intensity, r.userTriggered)
  }

  /** The rocket after one tick of `update` (src/main.ts:2365-2493): aged by
      `dt`, its new head position pushed into its trail, its sparks grown by
      the new ones and then aged and retired. Nothing else changes. */
  function Advance(r: Rocket, d: RocketDraws, dt: real): (a: Rocket)
    requires RocketDrawsOk(d, dt) && Shaped(r)
    ensures a == r.(age := r.age + dt, trail := a.trail, sparks := a.sparks)
    ensures Shaped(a)
    ensures TrailPoint(a.trail, 0) == HeadAfter(r, dt)
    ensures forall j :: 1 <= j < TrailPoints ==> TrailPoint(a.trail, j) == TrailPoint(r.trail, j - 1)
    ensures forall k :: 0 <= k < |a.sparks| ==> Live(a.sparks[k])
    ensures WellFormed(r.sparks) ==> WellFormed(a.sparks)
  {
    r.(age := r.age + dt, trail := ShiftIn(r.trail, HeadAfter(r, dt)), sparks := Aged(r.sparks + NewSparks(d, dt), dt))
  }

  datatype RocketSweepResult = RocketSweepResult(kept: seq<Rocket>, events: seq<BurstEvent>, sparks: seq<Mote>)

  ghost predicate AllRocketDrawsOk(ds: seq<RocketDraws>, dt: real) {
    forall i :: 0 <= i < |ds| ==> RocketDrawsOk(ds[i], dt)
  }

  /** The rocket loop of `update`, which walks the list from the last rocket
      to the first: the rockets still climbing (in their old order), one burst
      event per rocket that reached its duration (the last rocket's first),
      and every rocket's sparks after the tick, in the order they are
      collected for rendering. Every rocket is either kept or fired, never
      both. */
  function RocketSweep(rs: seq<Rocket>, ds: seq<RocketDraws>, dt: real): (r: RocketSweepResult)
    requires |rs| == |ds| && AllRocketDrawsOk(ds, dt) && AllShaped(rs)
    ensures |r.kept| + |r.events| == |rs|
    ensures forall k :: 0 <= k < |r.kept| ==> r.kept[k].age < r.kept[k].duration && Shaped(r.kept[k])
    decreases |rs|
  {
    if rs == [] then RocketSweepResult([], [], [])
    else
      var rest := RocketSweep(rs[1..], ds[1..], dt);
      var a := Advance(rs[0], ds[0], dt);
      if Fires(rs[0], dt) then
        RocketSweepResult(rest.kept, rest.events + [EventOf(a)], rest.sparks + a.sparks)
      else
        RocketSweepResult([a] + rest.kept, rest.events, rest.sparks + a.sparks)
  }

  /** Every rocket is accounted for: one that reaches its duration has its
      burst event among the events, one that does not is kept, advanced. */
  lemma {:induction false} RocketSweepVisitsEach(rs: seq<Rocket>, ds: seq<RocketDraws>, dt: real, i: nat)
    requires |rs| == |ds| && AllRocketDrawsOk(ds, dt) && AllShaped(rs) && i < |rs|
    ensures Fires(rs[i], dt) ==> EventOf(rs[i]) in RocketSweep(rs, ds, dt).events
    ensures !Fires(rs[i], dt) ==> Advance(rs[i], ds[i], dt) in RocketSweep(rs, ds, dt).kept
    decreases |rs|
  {
    if i > 0 {
      RocketSweepVisitsEach(rs[1..], ds[1..], dt, i - 1);
    }
  }

  /** The burst events a sweep should report, stated apart from the draws:
      one per rocket whose tick reaches its duration, the last rocket's first,
      and none for the others. */
  function FiringEvents(rs: seq<Rocket>, dt: real): seq<BurstEvent>
    decreases |rs|
  {
    if rs == [] then []
    else FiringEvents(rs[1..], dt) + (if Fires(rs[0], dt) then [EventOf(rs[0])] else [])
  }

  /** The events of a sweep are exactly those: each firing rocket reports
      once, in the order the backward loop visits it, and no other rocket
      reports anything. */
  lemma {:induction false} RocketSweepEvents(rs: seq<Rocket>, ds: seq<RocketDraws>, dt: real)
    requires |rs| == |ds| && AllRocketDrawsOk(ds, dt) && AllShaped(rs)
    ensures RocketSweep(rs, ds, dt).events == FiringEvents(rs, dt)
    decreases |rs|
  {
    if rs != [] {
      RocketSweepEvents(rs[1..], ds[1..], dt);
    }
  }

  /** An event is reported exactly when it is the event of a rocket that
      fires on this tick. */
  lemma {:induction false} FiringEventsExactly(rs: seq<Rocket>, dt: real, e: BurstEvent)
    ensures e in FiringEvents(rs, dt) <==> exists i :: 0 <= i < |rs| && Fires(rs[i], dt) && e == EventOf(rs[i])
    decreases |rs|
  {
    if rs != [] {
      FiringEventsExactly(rs[1..], dt, e);
      if e in FiringEvents(rs[1..], dt) {
        var i :| 0 <= i < |rs[1..]| && Fires(rs[1..][i], dt) && e == EventOf(rs[1..][i]);
        assert rs[1..][i] == rs[i + 1];
      }
      if exists i :: 0 <= i < |rs| && Fires(rs[i], dt) && e == EventOf(rs[i]) {
        var i :| 0 <= i < |rs| && Fires(rs[i], dt) && e == EventOf(rs[i]);
        if i > 0 {
          assert rs[i] == rs[1..][i - 1];
        }
      }
    }
  }

  /** The bursts the pool is asked to spawn for a series of events. */
  function SpawnedBursts(es: seq<BurstEvent>, particlesPerBurst: nat): (bs: seq<Burst>)
    ensures |bs| == |es|
    ensures forall k :: 0 <= k < |es| ==>
              bs[k] == NewBurst(es[k].world, es[k].intensity, es[k].pattern, particlesPerBurst)
  {
    seq(|es|, k requires 0 <= k < |es| => NewBurst(es[k].world, es[k].intensity, es[k].pattern, particlesPerBurst))
  }

  lemma RocketSweepUnfold(rs: seq<Rocket>, ds: seq<RocketDraws>, dt: real)
    requires rs != [] && |rs| == |ds| && AllRocketDrawsOk(ds, dt) && AllShaped(rs)
    ensures var rest := RocketSweep(rs[1..], ds[1..], dt);
            var a := Advance(rs[0], ds[0], dt);
            RocketSweep(rs, ds, dt)
              == if Fires(rs[0], dt) then RocketSweepResult(rest.kept, rest.events + [EventOf(a)], rest.sparks + a.sparks)
                 else RocketSweepResult([a] + rest.kept, rest.events, rest.sparks + a.sparks)
  {
  }

  lemma SpawnedBurstsSnoc(es: seq<BurstEvent>, e: BurstEvent, particlesPerBurst: nat)
    ensures SpawnedBursts(es + [e], particlesPerBurst)
              == SpawnedBursts(es, particlesPerBurst) + [NewBurst(e.world, e.intensity, e.pattern, particlesPerBurst)]
  {
  }

  /** The state of the rocket loop once it has visited the rockets from
      index `i` on, out of the list `ob` it started from: the rockets before
      `i` untouched, then the visited rockets that are still climbing; the
      events and sparks of the visited rockets. */
  ghost predicate RocketsSweptFrom(ob: seq<Rocket>, ds: seq<RocketDraws>, dt: real, i: nat,
                                   rs: seq<Rocket>, events: seq<BurstEvent>, sparks: seq<Mote>)
  {
    && i <= |ob| == |ds| && AllRocketDrawsOk(ds, dt) && AllShaped(ob)
    && var r := RocketSweep(ob[i..], ds[i..], dt);
       rs == ob[..i] + r.kept && events == r.events && sparks == r.sparks
  }

  /** Before rocket `i` is visited, it sits unchanged at index `i`. */
  lemma RocketsSweptFromAt(ob: seq<Rocket>, ds: seq<RocketDraws>, dt: real, i: nat,
                           rs: seq<Rocket>, events: seq<BurstEvent>, sparks: seq<Mote>)
    requires i < |ob| && RocketsSweptFrom(ob, ds, dt, i + 1, rs, events, sparks)
    ensures i < |rs| && rs[i] == ob[i]
  {
    SpliceShape(ob, i, RocketSweep(ob[i + 1..], ds[i + 1..], dt).kept, rs);
  }

  /** One turn of the rocket loop on the list, the events and the sparks:
      updating rocket `i` of the current list moves the loop state from index
      `i + 1` to index `i`. */
  lemma {:induction false} RocketSweepStep(ob: seq<Rocket>, ds: seq<RocketDraws>, dt: real, i: nat,
                                           pre: seq<Rocket>, events: seq<BurstEvent>, sparks: seq<Mote>,
                                           post: seq<Rocket>, ev: Option<BurstEvent>, sp: seq<Mote>)
    requires i < |ob| && RocketsSweptFrom(ob, ds, dt, i + 1, pre, events, sparks)
    requires var a := Advance(ob[i], ds[i], dt);
             && sp == a.sparks
             && (Fires(ob[i], dt) ==> post == pre[..i] + pre[i + 1..] && ev == Some(EventOf(a)))
             && (!Fires(ob[i], dt) ==> post == pre[i := a] && ev == None)
    ensures RocketsSweptFrom(ob, ds, dt, i, post, if ev.Some? then events + [ev.value] else events, sparks + sp)
  {
    var rest := RocketSweep(ob[i + 1..], ds[i + 1..], dt);
    SpliceAt(ob, i, rest.kept, pre, Advance(ob[i], ds[i], dt));
    RocketSweepUnfold(ob[i..], ds[i..], dt);
    Unfold(ob, i);
    Unfold(ds, i);
  }

  /** The pool's side of one turn of the rocket loop: the spawn made for
      the turn's event, if any, extends the series of spawns by one. */
  lemma SpawnStep(b0: seq<Burst>, cap: nat, particlesPerBurst: nat, events: seq<BurstEvent>, ev: Option<BurstEvent>,
                  bs: seq<Burst>, bs': seq<Burst>)
    requires bs == AdmitAll(b0, cap, SpawnedBursts(events, particlesPerBurst))
    requires ev.Some? ==> bs' == Admit(bs, cap, NewBurst(ev.value.world, ev.value.intensity, ev.value.pattern, particlesPerBurst))
    requires ev.None? ==> bs' == bs
    ensures bs' == AdmitAll(b0, cap, SpawnedBursts(if ev.Some? then events + [ev.value] else events, particlesPerBurst))
  {
    if ev.Some? {
      var e := ev.value;
      AdmitAllSnoc(b0, cap, SpawnedBursts(events, particlesPerBurst), NewBurst(e.world, e.intensity, e.pattern, particlesPerBurst));
      SpawnedBurstsSnoc(events, e, particlesPerBurst);
    }
  }

  function MinInt(a: int, b: int): int { if a <= b then a else b }

  /** What slot `x` of the spark render buffer shows once `n` sparks have
      been collected: the sparks' points in order, eight per spark, until the
      3000 slots run out; nothing (alpha 0) after the last point. Every slot
      shows a point of a collected spark, no point is shown twice, and the
      shown slots form a prefix of the buffer. */
  function SparkSlot(n: nat, x: nat): (r: Option<PointRef>)
    ensures r.Some? <==> x < SparkTrailLength * n && x < MaxSparkParticles
    ensures r.Some? ==> r.value.spark < n && r.value.point < SparkTrailLength
    ensures r.Some? ==> SparkTrailLength * r.value.spark + r.value.point == x
  {
    if x < MinInt(SparkTrailLength * n, MaxSparkParticles) then Some(PointRef(x / SparkTrailLength, x % SparkTrailLength)) else None
  }

  /** The head-first shift of a trail buffer (src/main.ts:2391-2399): from the
      tail down to point 1 each point takes the coordinates of the one before
      it, then the current position is written into point 0. */
  method ShiftTrail(a: array<real>, p: Vec)
    requires a.Length % 3 == 0 && a.Length >= 3
    modifies a
    ensures a[..] == ShiftIn(old(a[..]), p)
  {
    ghost var o := a[..];
    var n := a.Length / 3;
    var j := n - 1;
    while j > 0
      invariant 0 <= j <= n - 1
      invariant forall k :: 3 * (j + 1) <= k < a.Length ==> a[k] == o[k - 3]
      invariant forall k :: 0 <= k < 3 * (j + 1) ==> a[k] == o[k]
    {
      a[j * 3 + 0] := a[(j - 1) * 3 + 0];
      a[j * 3 + 1] := a[(j - 1) * 3 + 1];
      a[j * 3 + 2] := a[(j - 1) * 3 + 2];
      j := j - 1;
    }
    a[0] := p.x;
    a[1] := p.y;
    a[2] := p.z;
    assert a[..] == ShiftIn(o, p);
  }

  class RocketController {
    var rockets: seq<Rocket>
    const maxRockets: nat
    const fireworks: BurstPool
    /** The spark render buffer, one entry per render point. */
    const sparkSlots: array<Option<PointRef>>

    ghost predicate Valid()
      reads this, fireworks
    {
      && fireworks.Valid()
      && sparkSlots.Length == MaxSparkParticles
      && AllShaped(rockets)
    }

    /** `new FireworkRockets(scene, fireworks, maxRockets, onBurst)`; the
        default cap is 6. */
    constructor (fireworks: BurstPool, maxRockets: nat := 6)
      requires fireworks.Valid()
      ensures Valid() && fresh(sparkSlots)
      ensures this.fireworks == fireworks && this.maxRockets == maxRockets && rockets == []
    {
      this.fireworks := fireworks;
      this.maxRockets := maxRockets;
      rockets := [];
      sparkSlots := new Option<PointRef>[MaxSparkParticles](_ => None);
    }

    /** `launch(targetXZ, intensity, pattern, userTriggered)`
        (src/main.ts:2237-2356): at the cap the oldest rocket is shifted out
        and returned for disposal (it never bursts); then a new rocket, whose
        freshly allocated trail has every point at the launch pad, is
        appended. */
    method Launch(d: LaunchDraws, target: Vec, intensity: real := 1.0, pattern: Pattern := Sphere, userTriggered: bool := false)
      returns (evicted: Option<Rocket>)
      requires Valid() && LaunchDrawsOk(d)
      modifies this`rockets
      ensures Valid()
      ensures evicted == if |old(rockets)| >= maxRockets && |old(rockets)| > 0 then Some(old(rockets)[0]) else None
      ensures rockets == Admit(old(rockets), maxRockets, NewRocket(target, intensity, pattern, userTriggered, d))
    {
      evicted := None;
      if |rockets| >= maxRockets && |rockets| > 0 {
        evicted := Some(rockets[0]);
        rockets := rockets[1..];
      }
      ghost var kept := rockets;
      var start := LaunchStart(target);
      var trail := new real[TrailFloats];
      var i := 0;
      while i < TrailPoints
        invariant 0 <= i <= TrailPoints
        invariant forall k :: 0 <= k < 3 * i ==> trail[k] == Coord(start, k % 3)
        invariant rockets == kept
      {
        trail[i * 3 + 0] := start.x;
        trail[i * 3 + 1] := start.y;
        trail[i * 3 + 2] := start.z;
        i := i + 1;
      }
      assert trail[..] == Filled(start, TrailPoints);
      var r := Rocket(start, LaunchEnd(target, d), 0.0, Lerp(0.7, 1.0, d.duration),
                      intensity, pattern, userTriggered, trail[..], []);
      assert r == NewRocket(target, intensity, pattern, userTriggered, d);
      rockets := rockets + [r];
    }

    /** The body of the rocket loop for index `i` (src/main.ts:2365-2505):
        age the rocket, shift its trail, spray and age its sparks, and when it
        reaches its duration report the burst, spawn it in the pool and splice
        the rocket out. `collected` is what the rocket adds to the render
        list. */
    method UpdateRocket(i: nat, dt: real, d: RocketDraws) returns (event: Option<BurstEvent>, collected: seq<Mote>)
      requires Valid() && i < |rockets| && RocketDrawsOk(d, dt)
      modifies this`rockets, fireworks`bursts
      ensures Valid()
      ensures var a := Advance(old(rockets)[i], d, dt);
              && collected == a.sparks
              && (Fires(old(rockets)[i], dt) ==>
                    && rockets == old(rockets)[..i] + old(rockets)[i + 1..]
                    && event == Some(EventOf(a))
                    && fireworks.bursts == Admit(old(fireworks.bursts), fireworks.maxBursts,
                                                 NewBurst(a.end, a.intensity, a.pattern, fireworks.particlesPerBurst)))
              && (!Fires(old(rockets)[i], dt) ==>
                    && rockets == old(rockets)[i := a]
                    && event == None
                    && fireworks.bursts == old(fireworks.bursts))
    {
      var r := rockets[i];
      var sparks := SprayAndAge(r.sparks, dt, d);
      var head := HeadAfter(r, dt);
      r := r.(age := r.age + dt, trail := ShiftIn(r.trail, head), sparks := sparks);
      collected := sparks;
      event := Retire(i, r);
    }

    /** The end of a rocket's tick, once `a` is its advanced record: at its
        duration it reports its burst, spawns it in the pool and is spliced
        out; otherwise it is stored back. */
    method Retire(i: nat, a: Rocket) returns (event: Option<BurstEvent>)
      requires Valid() && i < |rockets| && Shaped(a)
      modifies this`rockets, fireworks`bursts
      ensures Valid()
      ensures a.age >= a.duration ==>
                && rockets == old(rockets)[..i] + old(rockets)[i + 1..]
                && event == Some(EventOf(a))
                && fireworks.bursts == Admit(old(fireworks.bursts), fireworks.maxBursts,
                                             NewBurst(a.end, a.intensity, a.pattern, fireworks.particlesPerBurst))
      ensures a.age < a.duration ==> rockets == old(rockets)[i := a] && event == None && fireworks.bursts == old(fireworks.bursts)
    {
      if a.age >= a.duration {
        event := Some(EventOf(a));
        var _ := fireworks.Spawn(a.end, a.intensity, a.pattern);
        rockets := rockets[..i] + rockets[i + 1..];
      } else {
        event := None;
        rockets := rockets[i := a];
      }
    }

    /** The rocket loop of `update` (src/main.ts:2358-2505), from the last
        rocket to the first. Each rocket that reaches its duration reports its
        burst and spawns it in the pool, in that order, before it is spliced
        out; the pool receives one spawn per event, in event order. */
    method SweepRockets(dt: real, draws: seq<RocketDraws>) returns (events: seq<BurstEvent>, collected: seq<Mote>)
      requires Valid() && |draws| == |rockets| && AllRocketDrawsOk(draws, dt)
      modifies this`rockets, fireworks`bursts
      ensures Valid()
      ensures var r := RocketSweep(old(rockets), draws, dt);
              && rockets == r.kept && events == r.events && collected == r.sparks
              && fireworks.bursts == AdmitAll(old(fireworks.bursts), fireworks.maxBursts, SpawnedBursts(events, fireworks.particlesPerBurst))
    {
      ghost var ob, b0 := rockets, fireworks.bursts;
      var i := |rockets|;
      events, collected := [], [];
      assert SpawnedBursts([], fireworks.particlesPerBurst) == [];
      assert ob[i..] == [] && draws[i..] == [] && ob[..i] == ob;
      while i > 0
        invariant 0 <= i <= |ob|
        invariant Valid()
        invariant RocketsSweptFrom(ob, draws, dt, i, rockets, events, collected)
        invariant fireworks.bursts == AdmitAll(b0, fireworks.maxBursts, SpawnedBursts(events, fireworks.particlesPerBurst))
      {
        i := i - 1;
        events, collected := VisitRocket(i, dt, draws, ob, b0, events, collected);
      }
      assert ob[0..] == ob && draws[0..] == draws;
    }

    /** One turn of the rocket loop: rocket `i` is updated, its event (if any)
        appended and its sparks collected. */
    method VisitRocket(i: nat, dt: real, draws: seq<RocketDraws>, ghost ob: seq<Rocket>, ghost b0: seq<Burst>,
                       events: seq<BurstEvent>, collected: seq<Mote>)
      returns (events': seq<BurstEvent>, collected': seq<Mote>)
      requires Valid() && i < |ob| && RocketsSweptFrom(ob, draws, dt, i + 1, rockets, events, collected)
      requires fireworks.bursts == AdmitAll(b0, fireworks.maxBursts, SpawnedBursts(events, fireworks.particlesPerBurst))
      modifies this`rockets, fireworks`bursts
      ensures Valid() && RocketsSweptFrom(ob, draws, dt, i, rockets, events', collected')
      ensures fireworks.bursts == AdmitAll(b0, fireworks.maxBursts, SpawnedBursts(events', fireworks.particlesPerBurst))
    {
      ghost var pre, bs := rockets, fireworks.bursts;
      RocketsSweptFromAt(ob, draws, dt, i, pre, events, collected);
      var ev, sp := UpdateRocket(i, dt, draws[i]);
      RocketSweepStep(ob, draws, dt, i, pre, events, collected, rockets, ev, sp);
      SpawnStep(b0, fireworks.maxBursts, fireworks.particlesPerBurst, events, ev, bs, fireworks.bursts);
      collected' := collected + sp;
      events' := if ev.Some? then events + [ev.value] else events;
    }

    /** The render pass over the collected sparks (src/main.ts:2508-2565):
        each spark writes its eight tail points into consecutive slots while
        slots remain, and every slot after the last one written gets alpha 0.
        `written` is the final write index. */
    method FillSparkBuffer(all: seq<Mote>) returns (written: nat)
      requires Valid()
      modifies sparkSlots
      ensures written == MinInt(SparkTrailLength * |all|, MaxSparkParticles)
      ensures forall x :: 0 <= x < sparkSlots.Length ==> sparkSlots[x] == SparkSlot(|all|, x)
    {
      var idx := 0;
      var k := 0;
      while k < |all|
        invariant 0 <= k <= |all|
        invariant idx == MinInt(SparkTrailLength * k, MaxSparkParticles)
        invariant forall x :: 0 <= x < idx ==> sparkSlots[x] == SparkSlot(|all|, x)
      {
        if idx >= MaxSparkParticles {
          break;
        }
        var p := 0;
        while p < SparkTrailLength && idx < MaxSparkParticles
          invariant 0 <= p <= SparkTrailLength
          invariant idx == MinInt(SparkTrailLength * k + p, MaxSparkParticles)
          invariant forall x :: 0 <= x < idx ==> sparkSlots[x] == SparkSlot(|all|, x)
        {
          assert idx / SparkTrailLength == k && idx % SparkTrailLength == p;
          sparkSlots[idx] := Some(PointRef(k, p));
          idx := idx + 1;
          p := p + 1;
        }
        k := k + 1;
      }
      written := idx;
      while idx < MaxSparkParticles
        invariant written <= idx <= MaxSparkParticles
        invariant forall x :: 0 <= x < idx ==> sparkSlots[x] == SparkSlot(|all|, x)
      {
        sparkSlots[idx] := None;
        idx := idx + 1;
      }
    }

    /** `update(dtSeconds)` (src/main.ts:2358-2566): the rocket loop, then
        the spark render pass over everything it collected. Returns the
        `onBurst` calls in the order they were made. */
    method Update(dt: real, draws: seq<RocketDraws>) returns (events: seq<BurstEvent>)
      requires Valid() && |draws| == |rockets| && AllRocketDrawsOk(draws, dt)
      modifies this`rockets, fireworks`bursts, sparkSlots
      ensures Valid()
      ensures var r := RocketSweep(old(rockets), draws, dt);
              && rockets == r.kept && events == r.events
              && fireworks.bursts == AdmitAll(old(fireworks.bursts), fireworks.maxBursts, SpawnedBursts(events, fireworks.particlesPerBurst))
              && forall x :: 0 <= x < sparkSlots.Length ==> sparkSlots[x] == SparkSlot(|r.sparks|, x)
    {
      var all;
      events, all := SweepRockets(dt, draws);
      var _ := FillSparkBuffer(all);
    }
  }

  /** The spark part of one rocket's tick (src/main.ts:2418-2493): push the
      new sparks one by one, then age the whole list and splice out the spent
      ones. */
  method SprayAndAge(sparks: seq<Mote>, dt: real, d: RocketDraws) returns (out: seq<Mote>)
    requires RocketDrawsOk(d, dt)
    ensures out == Aged(sparks + NewSparks(d, dt), dt)
  {
    var n := SparkCount(dt, d.spawn);
    out := sparks;
    var s := 0;
    while s < n
      invariant 0 <= s <= (if n > 0 then n else 0)
      invariant out == sparks + NewSparks(d, dt)[..s]
    {
      out := out + [Mote(0.0, Lerp(0.2, 0.45, d.sparkLives[s]))];
      assert NewSparks(d, dt)[..s + 1] == NewSparks(d, dt)[..s] + [NewSparks(d, dt)[s]];
      s := s + 1;
    }
    assert NewSparks(d, dt)[..s] == NewSparks(d, dt);
    out := AgeAndRetire(out, dt);
  }
}
