/** The burst pool of the firework engine (class `Fireworks`,
    src/main.ts:1461-2097): it spawns bursts under a FIFO cap, advances their
    age every frame, rolls a once-only secondary explosion in the middle of a
    burst's life, feeds a capped ember list, removes expired bursts and embers,
    and fills the ember render buffer.

    A burst's particles (velocities, colours, seeds) are computed once at spawn
    time and only read by the shader afterwards; they are represented here by
    their count. */
module Fireworks {
  import opened MathUtil
  import opened Motes
  import opened EffectPool
  import opened ListOps

  /** One active explosion (`FireworkBurst`). `opacity` is the value the
      update writes into the material's `uOpacity` uniform. */
  datatype Burst = Burst(
    origin: Vec,
    pattern: Pattern,
    intensity: real,
    particleCount: nat,
    age: real,
    duration: real,
    secondarySpawned: bool,
    opacity: real)

  /** The `Math.random()` draws one burst consumes in one update: the
      Bernoulli trial of the secondary explosion, the number of secondaries,
      their origins (each computed in the source from a randomly chosen
      particle's analytic position, which is not part of this model), and one
      life-span draw per ember fed this tick. */
  datatype BurstDraws = BurstDraws(trigger: real, count: real, origins: seq<Vec>, emberLives: seq<real>)

  predicate DrawsOk(d: BurstDraws) {
    && IsDraw(d.trigger)
    && IsDraw(d.count)
    && |d.origins| >= 4
    && |d.emberLives| >= EmbersPerTick
    && forall j :: 0 <= j < |d.emberLives| ==> IsDraw(d.emberLives[j])
  }

  const MaxTrailParticles: nat := 2000
  const EmbersPerTick: nat := 8
  const FadeStart: real := 0.6
  const SecondaryChance: real := 0.35

  /** Life span of a primary burst by pattern. */
  function BurstDuration(p: Pattern): (d: real)
    ensures 2.0 <= d <= 2.2
  {
    match p
    case Heart => 2.2
    case Ring => 2.1
    case Sphere => 2.0
  }

  /** The record `spawn` pushes (src/main.ts:1753-1766). */
  function NewBurst(origin: Vec, intensity: real, pattern: Pattern, particlesPerBurst: nat): (b: Burst)
    ensures b.origin == origin && b.pattern == pattern && b.intensity == intensity
    ensures b.age == 0.0 && b.opacity == 1.0 && Alive(b)
    ensures !b.secondarySpawned && !InSecondaryWindow(b)
  {
    Burst(origin, pattern, intensity, particlesPerBurst, 0.0, BurstDuration(pattern), false, 1.0)
  }

  /** The record `spawnSecondary` pushes (src/main.ts:1890-1903): a quarter of
      the particles (`Math.floor(particlesPerBurst * 0.25)`), a one-second
      sphere at half the given intensity, already flagged as spawned so that it
      never explodes again. */
  function SecondaryBurst(origin: Vec, intensity: real, particlesPerBurst: nat): (b: Burst)
    ensures b.origin == origin && b.pattern == Sphere && b.intensity == intensity * 0.5
    ensures b.particleCount == particlesPerBurst / 4 && b.age == 0.0 && b.duration == 1.0 && Alive(b)
    ensures b.secondarySpawned && !InSecondaryWindow(b)
  {
    Burst(origin, Sphere, intensity * 0.5, particlesPerBurst / 4, 0.0, 1.0, true, 1.0)
  }

  /** `1 - easeOutCubic(clamp((age / duration - 0.6) / (1 - 0.6), 0, 1))`. */
  function FadeOpacity(age: real, duration: real): (r: real)
    requires duration > 0.0
    ensures 0.0 <= r <= 1.0
    ensures age <= FadeStart * duration ==> r == 1.0
    ensures age >= duration ==> r == 0.0
  {
    var p := (age / duration - FadeStart) / (1.0 - FadeStart);
    assert age <= FadeStart * duration ==> age / duration <= FadeStart;
    assert age >= duration ==> age / duration >= 1.0;
    1.0 - EaseOutCubic(Clamp(p, 0.0, 1.0))
  }

  /** Fading never reverses: an older burst is never brighter. */
  lemma FadeOpacityMonotone(a1: real, a2: real, duration: real)
    requires duration > 0.0 && a1 <= a2
    ensures FadeOpacity(a2, duration) <= FadeOpacity(a1, duration)
  {
    assert a1 / duration <= a2 / duration;
    var p1 := (a1 / duration - FadeStart) / (1.0 - FadeStart);
    var p2 := (a2 / duration - FadeStart) / (1.0 - FadeStart);
    assert p1 <= p2;
    EaseOutCubicMonotone(Clamp(p1, 0.0, 1.0), Clamp(p2, 0.0, 1.0));
  }

  /** The open window (0.4 d, 0.6 d) in which a burst not yet flagged rolls
      its secondary trial. */
  predicate InSecondaryWindow(b: Burst) {
    !b.secondarySpawned && b.age > b.duration * 0.4 && b.age < b.duration * 0.6
  }

  /** `numSecondary = randInt(2, 4)` when the trial `Math.random() < 0.35`
      succeeds inside the window, no secondary otherwise. */
  function SecondaryCount(b: Burst, d: BurstDraws): (n: nat)
    requires DrawsOk(d)
    ensures n == 0 || 2 <= n <= 4
    ensures n > 0 <==> InSecondaryWindow(b) && d.trigger < SecondaryChance
  {
    if InSecondaryWindow(b) && d.trigger < SecondaryChance then RandInt(2, 4, d.count) else 0
  }

  /** The first `n` secondaries of a burst, in the order they are pushed. */
  function Children(b: Burst, d: BurstDraws, particlesPerBurst: nat, n: nat): (cs: seq<Burst>)
    requires n <= |d.origins|
    ensures |cs| == n
    ensures forall k :: 0 <= k < n ==> cs[k] == SecondaryBurst(d.origins[k], b.intensity * 0.6, particlesPerBurst)
  {
    seq(n, k requires 0 <= k < n => SecondaryBurst(d.origins[k], b.intensity * 0.6, particlesPerBurst))
  }

  /** `Math.min(8, maxTrailParticles - trailParticles.length)` embers while
      the burst is in its first 70% and the list is not full; none otherwise. */
  function EmberCount(b: Burst, trailLen: nat): (k: nat)
    ensures k <= EmbersPerTick
    ensures k > 0 <==> b.age < b.duration * 0.7 && trailLen < MaxTrailParticles
    ensures k > 0 ==> trailLen + k <= MaxTrailParticles
    ensures k > 0 && trailLen + EmbersPerTick <= MaxTrailParticles ==> k == EmbersPerTick
    ensures k > 0 && MaxTrailParticles < trailLen + EmbersPerTick ==> k == MaxTrailParticles - trailLen
  {
    if b.age < b.duration * 0.7 && trailLen < MaxTrailParticles then
      if EmbersPerTick <= MaxTrailParticles - trailLen then EmbersPerTick else MaxTrailParticles - trailLen
    else 0
  }

  /** The first `k` embers fed by a burst: life 0, span `rand(0.35, 0.7)`. */
  function NewEmbers(d: BurstDraws, k: nat): (es: seq<Mote>)
    requires DrawsOk(d) && k <= EmbersPerTick
    ensures |es| == k && WellFormed(es)
    ensures forall j :: 0 <= j < k ==> es[j].life == 0.0 && 0.35 <= es[j].maxLife < 0.7
  {
    seq(k, j requires 0 <= j < k => Mote(0.0, Lerp(0.35, 0.7, d.emberLives[j])))
  }

  datatype StepResult = StepResult(burst: Burst, children: seq<Burst>, embers: seq<Mote>)

  /** One burst's share of `update` (src/main.ts:1913-2020) when the ember list
      holds `trailLen` entries: the aged and faded burst, the secondaries it
      pushes and the embers it feeds.

      The secondary flag goes from false to true exactly on a tick whose new
      age lies strictly between 0.4 and 0.6 of the duration, whatever the
      Bernoulli outcome; secondaries are only produced on such a tick, and a
      burst already flagged never produces any. */
  function Step(b: Burst, d: BurstDraws, dt: real, trailLen: nat, particlesPerBurst: nat): (r: StepResult)
    requires DrawsOk(d) && b.duration > 0.0
    ensures r.burst == b.(age := b.age + dt, opacity := r.burst.opacity, secondarySpawned := r.burst.secondarySpawned)
    ensures r.burst.opacity == FadeOpacity(b.age + dt, b.duration)
    ensures r.burst.secondarySpawned <==>
              b.secondarySpawned || b.duration * 0.4 < b.age + dt < b.duration * 0.6
    ensures b.secondarySpawned ==> r.children == []
    ensures |r.children| > 0 ==>
              !b.secondarySpawned && b.duration * 0.4 < b.age + dt < b.duration * 0.6
              && d.trigger < SecondaryChance && 2 <= |r.children| <= 4
    ensures forall k :: 0 <= k < |r.children| ==>
              r.children[k].secondarySpawned && r.children[k].age == 0.0 && r.children[k].duration == 1.0
              && r.children[k].intensity == b.intensity * 0.3
    ensures |r.embers| <= EmbersPerTick && WellFormed(r.embers)
    ensures |r.embers| > 0 ==> b.age + dt < b.duration * 0.7 && trailLen + |r.embers| <= MaxTrailParticles
  {
    var a := b.(age := b.age + dt, opacity := FadeOpacity(b.age + dt, b.duration));
    var n := SecondaryCount(a, d);
    var flagged := if InSecondaryWindow(a) then a.(secondarySpawned := true) else a;
    var k := EmberCount(flagged, trailLen);
    StepResult(flagged, Children(a, d, particlesPerBurst, n), NewEmbers(d, k))
  }

  /** A burst stays in the pool while its age is below its duration. */
  predicate Alive(b: Burst) {
    b.age < b.duration
  }

  datatype SweepResult = SweepResult(kept: seq<Burst>, children: seq<Burst>, trail: seq<Mote>)

  ghost predicate AllDrawsOk(ds: seq<BurstDraws>) {
    forall i :: 0 <= i < |ds| ==> DrawsOk(ds[i])
  }

  ghost predicate PositiveDurations(bs: seq<Burst>) {
    forall i :: 0 <= i < |bs| ==> bs[i].duration > 0.0
  }

  /** The burst loop of `update`, which walks the list from the last burst
      to the first: the bursts that are still alive (in their old order), the
      secondaries pushed on the way (the last burst's first) and the ember list
      grown by every burst in turn.

      Afterwards no kept burst has reached its duration, every secondary is
      newborn and flagged, and the ember list has only grown, never past its
      cap of 2000. */
  function Sweep(bs: seq<Burst>, ds: seq<BurstDraws>, dt: real, trail: seq<Mote>, particlesPerBurst: nat): (r: SweepResult)
    requires |bs| == |ds| && AllDrawsOk(ds) && PositiveDurations(bs)
    requires |trail| <= MaxTrailParticles && WellFormed(trail)
    ensures |r.kept| <= |bs|
    ensures forall i :: 0 <= i < |r.kept| ==> Alive(r.kept[i]) && r.kept[i].duration > 0.0
    ensures forall i :: 0 <= i < |r.children| ==>
              r.children[i].secondarySpawned && r.children[i].age == 0.0 && r.children[i].duration == 1.0
    ensures |r.children| <= 4 * |bs|
    ensures |r.trail| <= MaxTrailParticles && trail <= r.trail
    ensures WellFormed(r.trail)
    decreases |bs|
  {
    if bs == [] then SweepResult([], [], trail)
    else
      var rest := Sweep(bs[1..], ds[1..], dt, trail, particlesPerBurst);
      var s := Step(bs[0], ds[0], dt, |rest.trail|, particlesPerBurst);
      WellFormedConcat(rest.trail, s.embers);
      assert rest.trail <= rest.trail + s.embers;
      SweepResult(
        (if Alive(s.burst) then [s.burst] else []) + rest.kept,
        rest.children + s.children,
        rest.trail + s.embers)
  }

  /** A burst after one tick, stated apart from the draws and the ember
      list: aged by `dt`, faded, and flagged for good once its new age has
      been inside the secondary window. */
  function Advanced(b: Burst, dt: real): Burst
    requires b.duration > 0.0
  {
    b.(age := b.age + dt, opacity := FadeOpacity(b.age + dt, b.duration),
       secondarySpawned := b.secondarySpawned || b.duration * 0.4 < b.age + dt < b.duration * 0.6)
  }

  /** The bursts a sweep should keep: every burst advanced by one tick, the
      ones still alive, in their old order. */
  function LiveAdvanced(bs: seq<Burst>, dt: real): seq<Burst>
    requires PositiveDurations(bs)
    decreases |bs|
  {
    if bs == [] then []
    else
      var a := Advanced(bs[0], dt);
      (if Alive(a) then [a] else []) + LiveAdvanced(bs[1..], dt)
  }

  /** The sweep keeps exactly the bursts that are still alive after their
      tick, in order, whatever the draws and the ember list: none is dropped
      early and none outlives its duration. */
  lemma {:induction false} SweepKeepsTheLive(bs: seq<Burst>, ds: seq<BurstDraws>, dt: real, trail: seq<Mote>, particlesPerBurst: nat)
    requires |bs| == |ds| && AllDrawsOk(ds) && PositiveDurations(bs)
    requires |trail| <= MaxTrailParticles && WellFormed(trail)
    ensures Sweep(bs, ds, dt, trail, particlesPerBurst).kept == LiveAdvanced(bs, dt)
    decreases |bs|
  {
    if bs != [] {
      SweepKeepsTheLive(bs[1..], ds[1..], dt, trail, particlesPerBurst);
      var rest := Sweep(bs[1..], ds[1..], dt, trail, particlesPerBurst);
      assert Step(bs[0], ds[0], dt, |rest.trail|, particlesPerBurst).burst == Advanced(bs[0], dt);
    }
  }

  /** One unfolding of `Sweep`: the first burst is visited after the rest. */
  lemma SweepUnfold(bs: seq<Burst>, ds: seq<BurstDraws>, dt: real, trail: seq<Mote>, particlesPerBurst: nat)
    requires bs != [] && |bs| == |ds| && AllDrawsOk(ds) && PositiveDurations(bs)
    requires |trail| <= MaxTrailParticles && WellFormed(trail)
    ensures var rest := Sweep(bs[1..], ds[1..], dt, trail, particlesPerBurst);
            var s := Step(bs[0], ds[0], dt, |rest.trail|, particlesPerBurst);
            Sweep(bs, ds, dt, trail, particlesPerBurst)
              == SweepResult((if Alive(s.burst) then [s.burst] else []) + rest.kept, rest.children + s.children, rest.trail + s.embers)
  {
  }

  /** The state of the burst loop once it has visited the bursts from index
      `i` on, out of the list `ob` it started from: the bursts before `i` are
      untouched, followed by the survivors and the secondaries of the visited
      ones; the ember list is theirs too. */
  ghost predicate SweptFrom(ob: seq<Burst>, ds: seq<BurstDraws>, dt: real, trail: seq<Mote>, particlesPerBurst: nat,
                            i: nat, bursts: seq<Burst>, trailNow: seq<Mote>)
  {
    && i <= |ob| == |ds| && AllDrawsOk(ds) && PositiveDurations(ob)
    && |trail| <= MaxTrailParticles && WellFormed(trail)
    && var done := Sweep(ob[i..], ds[i..], dt, trail, particlesPerBurst);
       bursts == ob[..i] + done.kept + done.children && trailNow == done.trail
  }

  /** One turn of the burst loop: updating burst `i` of the current list
      moves the loop state from index `i + 1` to index `i`. */
  lemma SweepStep(ob: seq<Burst>, ds: seq<BurstDraws>, dt: real, trail: seq<Mote>, particlesPerBurst: nat, i: nat,
                  pre: seq<Burst>, tp: seq<Mote>, post: seq<Burst>, tpost: seq<Mote>)
    requires i < |ob| && SweptFrom(ob, ds, dt, trail, particlesPerBurst, i + 1, pre, tp)
    requires i < |pre| && DrawsOk(ds[i]) && pre[i].duration > 0.0
    requires var s := Step(pre[i], ds[i], dt, |tp|, particlesPerBurst);
             && post == pre[..i] + (if Alive(s.burst) then [s.burst] else []) + pre[i + 1..] + s.children
             && tpost == tp + s.embers
    ensures SweptFrom(ob, ds, dt, trail, particlesPerBurst, i, post, tpost)
  {
    var rest := Sweep(ob[i + 1..], ds[i + 1..], dt, trail, particlesPerBurst);
    SpliceShape(ob, i, rest.kept + rest.children, pre);
    var s := Step(ob[i], ds[i], dt, |rest.trail|, particlesPerBurst);
    SpliceRegroup(ob, i, if Alive(s.burst) then [s.burst] else [], rest.kept, rest.children, s.children, pre, post);
    Unfold(ob, i);
    Unfold(ds, i);
    SweepUnfold(ob[i..], ds[i..], dt, trail, particlesPerBurst);
  }

  /** What the ember render buffer shows for a live ember:
      `(1 - life / maxLife) * 0.6`. */
  function EmberAlpha(m: Mote): (a: real)
    requires m.maxLife > 0.0
    ensures Live(m) ==> a > 0.0
    ensures 0.0 <= m.life ==> a <= 0.6
  {
    RatioBelowOne(m.life, m.maxLife);
    (1.0 - m.life / m.maxLife) * 0.6
  }

  lemma RatioBelowOne(a: real, b: real)
    requires b > 0.0
    ensures a < b ==> a / b < 1.0
    ensures 0.0 <= a ==> 0.0 <= a / b
  {
    var q := a / b;
    assert q * b == a;
    assert (1.0 - q) * b == b - a;
  }

  class BurstPool {
    var bursts: seq<Burst>
    var trailParticles: seq<Mote>
    const maxBursts: nat
    const particlesPerBurst: nat
    const maxTrailParticles: nat
    /** The `aAlpha` attribute of the ember geometry, one slot per ember. */
    const trailAlpha: array<real>

    ghost predicate Valid()
      reads this
    {
      && maxTrailParticles == MaxTrailParticles
      && trailAlpha.Length == maxTrailParticles
      && |trailParticles| <= maxTrailParticles
      && WellFormed(trailParticles)
      && PositiveDurations(bursts)
    }

    /** `new Fireworks(scene, { maxBursts, particlesPerBurst })`, whose
        defaults are 8 and 700. */
    constructor (maxBursts: nat := 8, particlesPerBurst: nat := 700)
      ensures Valid() && fresh(trailAlpha)
      ensures this.maxBursts == maxBursts && this.particlesPerBurst == particlesPerBurst
      ensures bursts == [] && trailParticles == []
    {
      this.maxBursts := maxBursts;
      this.particlesPerBurst := particlesPerBurst;
      maxTrailParticles := MaxTrailParticles;
      bursts := [];
      trailParticles := [];
      trailAlpha := new real[MaxTrailParticles](_ => 0.0);
    }

    /** `spawn(origin, intensity, pattern)` (src/main.ts:1552-1767): at the cap
        the oldest burst is shifted out and returned for disposal, then the new
        burst is appended last; below the cap nothing is removed. */
    method Spawn(origin: Vec, intensity: real, pattern: Pattern) returns (evicted: Option<Burst>)
      requires Valid()
      modifies this`bursts
      ensures Valid()
      ensures bursts == Admit(old(bursts), maxBursts, NewBurst(origin, intensity, pattern, particlesPerBurst))
      ensures evicted == if |old(bursts)| >= maxBursts && |old(bursts)| > 0 then Some(old(bursts)[0]) else None
    {
      evicted := None;
      if |bursts| >= maxBursts && |bursts| > 0 {
        evicted := Some(bursts[0]);
        bursts := bursts[1..];
      }
      bursts := bursts + [NewBurst(origin, intensity, pattern, particlesPerBurst)];
    }

    /** `spawnSecondary(origin, intensity)` (src/main.ts:1770-1904): a push
        with no capacity check. */
    method SpawnSecondary(origin: Vec, intensity: real)
      requires Valid()
      modifies this`bursts
      ensures Valid()
      ensures bursts == old(bursts) + [SecondaryBurst(origin, intensity, particlesPerBurst)]
    {
      bursts := bursts + [SecondaryBurst(origin, intensity, particlesPerBurst)];
    }

    /** The secondary trial of the burst at index `i`, which is inside its
        window (src/main.ts:1924-1954): on success `randInt(2, 4)` secondaries
        are pushed at the end of the list; either way the burst is flagged. */
    method RollSecondary(i: nat, d: BurstDraws)
      requires Valid() && i < |bursts| && DrawsOk(d) && InSecondaryWindow(bursts[i])
      modifies this`bursts
      ensures Valid()
      ensures bursts == old(bursts)[i := old(bursts)[i].(secondarySpawned := true)]
                        + Children(old(bursts)[i], d, particlesPerBurst, SecondaryCount(old(bursts)[i], d))
    {
      var b := bursts[i];
      ghost var before := bursts;
      if d.trigger < SecondaryChance {
        var n := RandInt(2, 4, d.count);
        var j := 0;
        while j < n
          invariant 0 <= j <= n
          invariant Valid()
          invariant bursts == before + Children(b, d, particlesPerBurst, j)
        {
          SpawnSecondary(d.origins[j], b.intensity * 0.6);
          assert Children(b, d, particlesPerBurst, j + 1)
              == Children(b, d, particlesPerBurst, j) + [SecondaryBurst(d.origins[j], b.intensity * 0.6, particlesPerBurst)];
          j := j + 1;
        }
      }
      bursts := bursts[i := b.(secondarySpawned := true)];
    }

    /** The ember feed of one burst (src/main.ts:1957-2014): while the burst is
        in the first 70% of its life and the list is not full,
        `min(8, maxTrailParticles - length)` embers are pushed. */
    method FeedEmbers(b: Burst, d: BurstDraws)
      requires Valid() && DrawsOk(d)
      modifies this`trailParticles
      ensures Valid()
      ensures trailParticles == old(trailParticles) + NewEmbers(d, EmberCount(b, |old(trailParticles)|))
    {
      if b.age < b.duration * 0.7 && |trailParticles| < maxTrailParticles {
        var count := if EmbersPerTick <= maxTrailParticles - |trailParticles|
                     then EmbersPerTick else maxTrailParticles - |trailParticles|;
        ghost var t0 := trailParticles;
        var j := 0;
        while j < count
          invariant 0 <= j <= count && count == EmberCount(b, |t0|)
          invariant trailParticles == t0 + NewEmbers(d, j)
        {
          trailParticles := trailParticles + [Mote(0.0, Lerp(0.35, 0.7, d.emberLives[j]))];
          assert NewEmbers(d, j + 1) == NewEmbers(d, j) + [Mote(0.0, Lerp(0.35, 0.7, d.emberLives[j]))];
          j := j + 1;
        }
      } else {
        assert NewEmbers(d, 0) == [];
      }
    }

    /** The body of the burst loop for index `i`: age and fade the burst, roll
        the secondary trial, feed embers, and splice the burst out once it has
        lived its duration. Secondaries land at the end of the list, after the
        bursts the backward loop has still to visit. */
    method UpdateBurst(i: nat, dt: real, d: BurstDraws)
      requires Valid() && i < |bursts| && DrawsOk(d)
      modifies this`bursts, this`trailParticles
      ensures Valid()
      ensures var s := Step(old(bursts)[i], d, dt, |old(trailParticles)|, particlesPerBurst);
              && bursts == old(bursts)[..i] + (if Alive(s.burst) then [s.burst] else []) + old(bursts)[i + 1..] + s.children
              && trailParticles == old(trailParticles) + s.embers
    {
      ghost var s := Step(bursts[i], d, dt, |trailParticles|, particlesPerBurst);
      ghost var before := bursts;
      var b := bursts[i];
      b := b.(age := b.age + dt);
      b := b.(opacity := FadeOpacity(b.age, b.duration));
      bursts := bursts[i := b];
      if !b.secondarySpawned && b.age > b.duration * 0.4 && b.age < b.duration * 0.6 {
        RollSecondary(i, d);
        b := bursts[i];
      } else {
        assert SecondaryCount(b, d) == 0;
        assert Children(b, d, particlesPerBurst, 0) == [];
      }
      assert b == s.burst;
      assert bursts == before[i := b] + s.children;
      FeedEmbers(b, d);
      if b.age >= b.duration {
        bursts := bursts[..i] + bursts[i + 1..];
        assert bursts == before[..i] + before[i + 1..] + s.children;
      } else {
        assert bursts == before[..i] + [b] + before[i + 1..] + s.children;
      }
    }

    /** `update(dtSeconds)` (src/main.ts:1913-2073). The bursts become the
        survivors of the backward sweep followed by the secondaries it pushed,
        the embers are the grown list aged by `dt` with the spent ones retired,
        and the render buffer shows exactly the live embers, in list order,
        with alpha 0 in every slot past the end of the list. Afterwards no
        burst in the pool has reached its duration. */
    method Update(dt: real, draws: seq<BurstDraws>)
      requires Valid()
      requires |draws| == |bursts| && AllDrawsOk(draws)
      modifies this`bursts, this`trailParticles, trailAlpha
      ensures Valid()
      ensures var r := Sweep(old(bursts), draws, dt, old(trailParticles), particlesPerBurst);
              bursts == r.kept + r.children && trailParticles == Aged(r.trail, dt)
      ensures forall i :: 0 <= i < |bursts| ==> Alive(bursts[i])
      ensures forall i :: 0 <= i < trailAlpha.Length ==>
                trailAlpha[i] == if i < |trailParticles| then EmberAlpha(trailParticles[i]) else 0.0
    {
      SweepBursts(dt, draws);
      trailParticles := AgeAndRetire(trailParticles, dt);
      FillTrailBuffer();
    }

    /** The burst loop of `update`: visit the bursts from the last to the
        first, each by `UpdateBurst`. */
    method SweepBursts(dt: real, draws: seq<BurstDraws>)
      requires Valid()
      requires |draws| == |bursts| && AllDrawsOk(draws)
      modifies this`bursts, this`trailParticles
      ensures Valid()
      ensures var r := Sweep(old(bursts), draws, dt, old(trailParticles), particlesPerBurst);
              bursts == r.kept + r.children && trailParticles == r.trail
    {
      ghost var ob, ot := bursts, trailParticles;
      var i := |bursts|;
      assert ob[i..] == [] && draws[i..] == [] && ob[..i] == ob;
      while i > 0
        invariant 0 <= i <= |ob|
        invariant Valid()
        invariant SweptFrom(ob, draws, dt, ot, particlesPerBurst, i, bursts, trailParticles)
      {
        i := i - 1;
        ghost var pre, tp := bursts, trailParticles;
        UpdateBurst(i, dt, draws[i]);
        SweepStep(ob, draws, dt, ot, particlesPerBurst, i, pre, tp, bursts, trailParticles);
      }
      assert ob[0..] == ob && draws[0..] == draws;
    }

    /** The render-buffer pass: slot `i` gets the alpha of ember `i` while
        there is one, and 0 after the last ember. */
    method FillTrailBuffer()
      requires Valid()
      modifies trailAlpha
      ensures forall i :: 0 <= i < trailAlpha.Length ==>
                trailAlpha[i] == if i < |trailParticles| then EmberAlpha(trailParticles[i]) else 0.0
    {
      var i := 0;
      while i < maxTrailParticles
        invariant 0 <= i <= maxTrailParticles
        invariant forall k :: 0 <= k < i ==>
                    trailAlpha[k] == if k < |trailParticles| then EmberAlpha(trailParticles[k]) else 0.0
      {
        if i < |trailParticles| {
          trailAlpha[i] := EmberAlpha(trailParticles[i]);
        } else {
          trailAlpha[i] := 0.0;
        }
        i := i + 1;
      }
    }
  }

  /** The burst pool's FIFO order: a run of primary spawns into a pool within
      its cap leaves exactly the newest `maxBursts` bursts, so spawning 11
      bursts into an empty pool of cap 10 keeps the last 10 and drops the
      first. */
  lemma SpawnRunKeepsNewest(bs: seq<Burst>, maxBursts: nat, spawned: seq<Burst>)
    requires 0 < maxBursts && |bs| <= maxBursts
    ensures AdmitAll(bs, maxBursts, spawned) == Newest(bs + spawned, maxBursts)
    ensures |spawned| == 11 && bs == [] && maxBursts == 10 ==>
              AdmitAll(bs, maxBursts, spawned) == spawned[1..]
  {
    AdmitAllKeepsNewest(bs, maxBursts, spawned);
    if |spawned| == 11 && bs == [] && maxBursts == 10 {
      assert bs + spawned == spawned;
    }
  }
}
