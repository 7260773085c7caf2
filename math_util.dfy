/** Numeric helpers of the firework engine (src/main.ts, top of file) and the
    value types shared by the other modules.

    Every `Math.random()` call of the source becomes an explicit draw `u` with
    `IsDraw(u)`, i.e. a real in [0, 1). */
module MathUtil {

  datatype Option<T> = None | Some(value: T)

  /** A point or a direction in world space (THREE.Vector3). */
  datatype Vec = Vec(x: real, y: real, z: real)

  /** The closed enumeration of burst silhouettes. */
  datatype Pattern = Sphere | Heart | Ring

  /** What `Math.random()` may return. */
  predicate IsDraw(u: real) {
    0.0 <= u < 1.0
  }

  function Min(a: real, b: real): real { if a <= b then a else b }

  function Max(a: real, b: real): real { if a >= b then a else b }

  /** `Math.max(min, Math.min(max, value))`: inside the range the value is kept,
      outside it the nearer bound is returned. With `min > max`, `min` wins. */
  function Clamp(value: real, min: real, max: real): (r: real)
    ensures min <= r
    ensures min <= max ==> r <= max
    ensures min <= value <= max ==> r == value
    ensures value <= min ==> r == min
    ensures min <= max <= value ==> r == max
  {
    Max(min, Min(max, value))
  }

  /** Linear interpolation `a + (b - a) * t`. */
  function Lerp(a: real, b: real, t: real): (r: real)
    ensures t == 0.0 ==> r == a
    ensures t == 1.0 ==> r == b
    ensures a <= b && 0.0 <= t <= 1.0 ==> a <= r <= b
    ensures a <= b && 0.0 <= t < 1.0 ==> a <= r && (a < b ==> r < b)
  {
    var d := b - a;
    ScaleBetween(d, t);
    a + d * t
  }

  /** A fraction `t` of a non-negative span `d` lies within the span, and
      strictly below it when `t < 1` and the span is not empty. */
  lemma ScaleBetween(d: real, t: real)
    ensures t == 0.0 ==> d * t == 0.0
    ensures t == 1.0 ==> d * t == d
    ensures 0.0 <= d && 0.0 <= t <= 1.0 ==> 0.0 <= d * t <= d
    ensures 0.0 < d && 0.0 <= t < 1.0 ==> d * t < d
  {
    if 0.0 <= d && 0.0 <= t <= 1.0 {
      assert d * t <= d * 1.0;
    }
    if 0.0 < d && 0.0 <= t < 1.0 {
      var e := 1.0 - t;
      assert d * e > 0.0;
      assert d * t == d - d * e;
    }
  }

  function Cube(x: real): real { x * x * x }

  /** `1 - (1 - x)^3` on the clamped input: starts at 0, ends at 1, decelerating. */
  function EaseOutCubic(t: real): (r: real)
    ensures 0.0 <= r <= 1.0
    ensures t <= 0.0 ==> r == 0.0
    ensures t >= 1.0 ==> r == 1.0
  {
    var x := Clamp(t, 0.0, 1.0);
    CubeMonotone(0.0, 1.0 - x);
    CubeMonotone(1.0 - x, 1.0);
    1.0 - Cube(1.0 - x)
  }

  lemma CubeMonotone(a: real, b: real)
    requires 0.0 <= a <= b
    ensures Cube(a) <= Cube(b)
  {
    assert a * a <= b * b by {
      assert a * a <= a * b;
      assert a * b <= b * b;
    }
    assert a * a * a <= b * b * a;
    assert b * b * a <= b * b * b;
  }

  /** The easing curve never goes backwards: a later time is never less eased. */
  lemma EaseOutCubicMonotone(s: real, t: real)
    requires s <= t
    ensures EaseOutCubic(s) <= EaseOutCubic(t)
  {
    var xs, xt := Clamp(s, 0.0, 1.0), Clamp(t, 0.0, 1.0);
    assert xs <= xt;
    CubeMonotone(1.0 - xt, 1.0 - xs);
  }

  /** `Math.floor(rand(min, max + 1))` with `rand(a, b) = lerp(a, b, u)`:
      for a draw `u` in [0, 1) the result is an integer of [min, max], and it is
      exactly `k` when `u` falls in the k-th of the `max - min + 1` equal cells. */
  function RandInt(min: int, max: int, u: real): (r: int)
    requires IsDraw(u)
    ensures min <= max ==> min <= r <= max
    ensures min <= max ==> (r - min) as real <= u * (max + 1 - min) as real < (r - min + 1) as real
  {
    var v := Lerp(min as real, (max + 1) as real, u);
    assert v == min as real + u * (max + 1 - min) as real;
    v.Floor
  }

  /** Every integer of [min, max] is produced by some draw, so `RandInt`
      leaves no value of its range unreachable. */
  lemma RandIntCovers(min: int, max: int, k: int) returns (u: real)
    requires min <= k <= max
    ensures IsDraw(u) && RandInt(min, max, u) == k
  {
    var n := (max + 1 - min) as real;
    u := (k - min) as real / n;
    assert u * n == (k - min) as real;
    assert Lerp(min as real, (max + 1) as real, u) == k as real;
  }

  /** `items[randInt(0, Math.max(0, items.length - 1))]`; on an empty list the
      source reads past the end and gets `undefined`, modelled as `None`. */
  function PickOne<T>(items: seq<T>, u: real): (r: Option<T>)
    requires IsDraw(u)
    ensures r.Some? <==> |items| > 0
    ensures r.Some? ==> r.value in items
  {
    var i := RandInt(0, if |items| - 1 > 0 then |items| - 1 else 0, u);
    if 0 <= i < |items| then Some(items[i]) else None
  }

  /** Every item of a non-empty list can be the one picked. */
  lemma PickOneCovers<T>(items: seq<T>, k: nat) returns (u: real)
    requires k < |items|
    ensures IsDraw(u) && PickOne(items, u) == Some(items[k])
  {
    u := RandIntCovers(0, |items| - 1, k);
  }

  /** The pattern for a new firework from one draw `r`: user-triggered
      launches take the heart below 0.32 and the ring below 0.46, automatic
      ones the heart below 0.16 and the ring below 0.32; the rest are spheres. */
  function ChooseFireworkPattern(isUserTriggered: bool, r: real): (p: Pattern)
    ensures p == Heart <==> r < (if isUserTriggered then 0.32 else 0.16)
    ensures p == Ring <==> (if isUserTriggered then 0.32 <= r < 0.46 else 0.16 <= r < 0.32)
  {
    if isUserTriggered then
      if r < 0.32 then Heart else if r < 0.46 then Ring else Sphere
    else
      if r < 0.16 then Heart else if r < 0.32 then Ring else Sphere
  }

  /** A tap makes a heart more likely: every draw that gives an automatic
      launch a heart gives a user-triggered one a heart too, and some draws give
      only the user-triggered launch a heart. */
  lemma HeartFavouredOnTap(r: real)
    ensures ChooseFireworkPattern(false, r) == Heart ==> ChooseFireworkPattern(true, r) == Heart
    ensures ChooseFireworkPattern(true, 0.2) == Heart && ChooseFireworkPattern(false, 0.2) != Heart
  {
  }
}
