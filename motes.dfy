/** The short-lived points that both effects emit and retire the same way:
    the embers a burst sheds (`TrailParticle`, src/main.ts:1452-1459) and the
    sparks a rocket sprays (`RocketSparkParticle`, src/main.ts:2099-2106).
    Their positions, velocities and colours evolve by drag and gravity terms
    that are not part of this model; what is kept is the clock that retires
    them. */
module Motes {
  import opened ListOps

  /** `life` counts up from 0; the mote is retired once it reaches `maxLife`. */
  datatype Mote = Mote(life: real, maxLife: real)

  /** Every mote the engine creates has a positive life span (drawn from
      [0.35, 0.7) for embers and [0.2, 0.45) for sparks). */
  ghost predicate WellFormed(ms: seq<Mote>) {
    forall i :: 0 <= i < |ms| ==> ms[i].maxLife > 0.0
  }

  lemma WellFormedConcat(a: seq<Mote>, b: seq<Mote>)
    requires WellFormed(a) && WellFormed(b)
    ensures WellFormed(a + b)
  {
    forall i | 0 <= i < |a + b| ensures (a + b)[i].maxLife > 0.0 {
      if i >= |a| {
        assert (a + b)[i] == b[i - |a|];
      }
    }
  }

  /** Still shown: it has not yet lived its span. */
  predicate Live(m: Mote) {
    m.life < m.maxLife
  }

  /** The list after one tick, as a reference definition: every mote is aged by
      `dt`, those with `life >= maxLife` are dropped, the rest keep their order. */
  function Aged(ms: seq<Mote>, dt: real): (r: seq<Mote>)
    ensures |r| <= |ms|
    ensures forall i :: 0 <= i < |r| ==> Live(r[i])
    ensures WellFormed(ms) ==> WellFormed(r)
  {
    if ms == [] then []
    else
      var m := ms[0].(life := ms[0].life + dt);
      (if Live(m) then [m] else []) + Aged(ms[1..], dt)
  }

  lemma {:induction false} AgedAppend(a: seq<Mote>, b: seq<Mote>, dt: real)
    ensures Aged(a + b, dt) == Aged(a, dt) + Aged(b, dt)
  {
    if a == [] {
      assert a + b == b;
    } else {
      assert (a + b)[1..] == a[1..] + b;
      AgedAppend(a[1..], b, dt);
    }
  }

  /** A mote survives a tick exactly when its aged life is still short of its
      span: none is dropped early and none outlives it. */
  lemma {:induction false} AgedKeepsExactlyTheLive(ms: seq<Mote>, dt: real, m: Mote)
    ensures m in Aged(ms, dt) <==> exists i :: 0 <= i < |ms| && m == ms[i].(life := ms[i].life + dt) && Live(m)
  {
    if ms != [] {
      AgedKeepsExactlyTheLive(ms[1..], dt, m);
      var m0 := ms[0].(life := ms[0].life + dt);
      if m in Aged(ms[1..], dt) {
        var i :| 0 <= i < |ms[1..]| && m == ms[1..][i].(life := ms[1..][i].life + dt) && Live(m);
        assert m == ms[i + 1].(life := ms[i + 1].life + dt);
      }
      if exists i :: 0 <= i < |ms| && m == ms[i].(life := ms[i].life + dt) && Live(m) {
        var i :| 0 <= i < |ms| && m == ms[i].(life := ms[i].life + dt) && Live(m);
        if i > 0 {
          assert m == ms[1..][i - 1].(life := ms[1..][i - 1].life + dt);
        }
      }
    }
  }

  /** The source's backward sweep (`for (i = len - 1; i >= 0; i--)`): add `dt`
      to each mote's life and `splice` out the ones whose life reached their
      span. Walking backwards keeps the indices still to visit valid. */
  method AgeAndRetire(ms: seq<Mote>, dt: real) returns (out: seq<Mote>)
    ensures out == Aged(ms, dt)
  {
    out := ms;
    var i := |ms|;
    assert ms[i..] == [] && ms[..i] == ms;
    while i > 0
      invariant 0 <= i <= |ms|
      invariant AgedFrom(ms, dt, i, out)
    {
      i := i - 1;
      AgedStep(ms, dt, i, out);
      var m := out[i].(life := out[i].life + dt);
      if m.life >= m.maxLife {
        out := out[..i] + out[i + 1..];
      } else {
        out := out[i := m];
      }
    }
    assert ms[..0] == [] && ms[0..] == ms;
  }

  /** The backward sweep after visiting the motes from index `i` on. */
  ghost predicate AgedFrom(ms: seq<Mote>, dt: real, i: nat, out: seq<Mote>) {
    i <= |ms| && out == ms[..i] + Aged(ms[i..], dt)
  }

  /** One turn of the sweep: entry `i` is still the original mote, and
      storing it aged, or splicing it out once its life is spent, moves the
      sweep from `i + 1` to `i`. */
  lemma AgedStep(ms: seq<Mote>, dt: real, i: nat, out: seq<Mote>)
    requires i < |ms| && AgedFrom(ms, dt, i + 1, out)
    ensures i < |out| && out[i] == ms[i]
    ensures var m := ms[i].(life := ms[i].life + dt);
            && (!Live(m) ==> AgedFrom(ms, dt, i, out[..i] + out[i + 1..]))
            && (Live(m) ==> AgedFrom(ms, dt, i, out[i := m]))
  {
    var m := ms[i].(life := ms[i].life + dt);
    SpliceAt(ms, i, Aged(ms[i + 1..], dt), out, m);
    Unfold(ms, i);
    assert Aged(ms[i..], dt) == (if Live(m) then [m] else []) + Aged(ms[i + 1..], dt);
  }
}
