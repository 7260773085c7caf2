/** The capacity rule shared by the burst pool (src/main.ts:1557-1560), the
    rocket list (src/main.ts:2242-2245) and the floating notes
    (src/main.ts:3090-3099): before a new entry is pushed, a list that is at
    or above its cap loses its oldest entry (`shift()`), and then the new entry
    is appended (`push`). */
module EffectPool {

  /** `if (list.length >= cap) list.shift()`. On an empty list `shift()`
      removes nothing, which only matters for a cap of 0. */
  function Evict<T>(s: seq<T>, cap: nat): (r: seq<T>)
    ensures |s| >= cap && |s| > 0 ==> r == s[1..]
    ensures |s| < cap || |s| == 0 ==> r == s
  {
    if |s| >= cap && |s| > 0 then s[1..] else s
  }

  /** Eviction followed by the push of `x`. */
  function Admit<T>(s: seq<T>, cap: nat, x: T): (r: seq<T>)
    ensures |r| > 0 && r[|r| - 1] == x
    ensures |s| >= cap && |s| > 0 ==> r == s[1..] + [x] && |r| == |s|
    ensures |s| < cap || |s| == 0 ==> r == s + [x] && |r| == |s| + 1
  {
    Evict(s, cap) + [x]
  }

  /** A series of admissions, oldest first. */
  function AdmitAll<T>(s: seq<T>, cap: nat, xs: seq<T>): seq<T>
    decreases |xs|
  {
    if xs == [] then s else AdmitAll(Admit(s, cap, xs[0]), cap, xs[1..])
  }

  /** Admitting a series and then one more entry is one longer series. */
  lemma {:induction false} AdmitAllSnoc<T>(s: seq<T>, cap: nat, xs: seq<T>, x: T)
    ensures AdmitAll(s, cap, xs + [x]) == Admit(AdmitAll(s, cap, xs), cap, x)
    decreases |xs|
  {
    if xs == [] {
      assert [x][1..] == [];
    } else {
      assert (xs + [x])[1..] == xs[1..] + [x];
      AdmitAllSnoc(Admit(s, cap, xs[0]), cap, xs[1..], x);
    }
  }

  /** The newest `n` entries of `t` (all of them when there are at most `n`). */
  function Newest<T>(t: seq<T>, n: nat): (r: seq<T>)
    ensures |r| == if |t| <= n then |t| else n
  {
    if |t| <= n then t else t[|t| - n..]
  }

  lemma NewestTwice<T>(t: seq<T>, r: seq<T>, n: nat)
    ensures Newest(Newest(t, n) + r, n) == Newest(t + r, n)
  {
    if |t| > n {
      var u := t + r;
      assert Newest(t, n) + r == u[|t| - n..];
    }
  }

  /** FIFO order: starting from a list within its cap, admitting any number
      of entries one by one leaves exactly the newest `cap` of the old and new
      entries together, in arrival order; so it is always the oldest entry that
      is evicted, and the list never grows past its cap. */
  lemma {:induction false} AdmitAllKeepsNewest<T>(s: seq<T>, cap: nat, xs: seq<T>)
    requires 0 < cap && |s| <= cap
    ensures AdmitAll(s, cap, xs) == Newest(s + xs, cap)
    ensures |AdmitAll(s, cap, xs)| <= cap
    decreases |xs|
  {
    if xs == [] {
      assert s + xs == s;
    } else {
      var s' := Admit(s, cap, xs[0]);
      assert s' == Newest(s + [xs[0]], cap);
      AdmitAllKeepsNewest(s', cap, xs[1..]);
      NewestTwice(s + [xs[0]], xs[1..], cap);
      assert s + [xs[0]] + xs[1..] == s + xs;
    }
  }
}
