/** The floating wish notes (src/main.ts:3052-3145 and their tick in the
    frame loop, 3627-3671): at most five text sprites that rise slowly in a
    band of the sky, each in one of five vertical slots so that they do not
    overlap. A new note evicts the oldest one at the cap and takes the first
    free slot in cyclic order from a running spawn counter; a note that has
    lived its duration, or that is in the top 5% of the band and older than
    1.5 s, is removed and its slot freed.

    The sprite, its text, its opacity and its scale are not part of this
    model; what is kept is the note's height, its climb, its clock and its
    slot. */
module FloatingNotes {
  import opened MathUtil
  import opened EffectPool
  import opened ListOps

  const NoteSlots: nat := 5
  const MaxFloatingNotes: nat := 5
  const NoteZoneMinY: real := 3.0
  const NoteZoneMaxY: real := 4.2

  /** One floating note: its horizontal offset `x`, its height `y`, its
      climb rate, its clock and the slot it holds. */
  datatype Note = Note(x: real, y: real, velocityY: real, age: real, duration: real, slot: nat)

  /** The three draws of a new note: its offset, its climb rate and its
      duration, in the order the source draws them. */
  datatype NoteDraws = NoteDraws(x: real, velocity: real, duration: real)

  predicate NoteDrawsOk(d: NoteDraws) {
    IsDraw(d.x) && IsDraw(d.velocity) && IsDraw(d.duration)
  }

  /** Slot `i` steps after `start` in cyclic order. */
  function Cyc(start: nat, i: nat): (s: nat)
    ensures s < NoteSlots
  {
    (start + i) % NoteSlots
  }

  /** `slot` is the first slot not in `used` when the five slots are
      scanned cyclically from `start`. */
  ghost predicate FirstFreeFrom(used: set<nat>, start: nat, slot: nat) {
    exists i :: 0 <= i < NoteSlots && slot == Cyc(start, i) && slot !in used
                && forall j :: 0 <= j < i ==> Cyc(start, j) in used
  }

  /** The slots held by a list of notes. */
  ghost function SlotsOf(ns: seq<Note>): set<nat> {
    set k | 0 <= k < |ns| :: ns[k].slot
  }

  /** No two notes share a slot. */
  ghost predicate DistinctSlots(ns: seq<Note>) {
    forall a, b :: 0 <= a < b < |ns| ==> ns[a].slot != ns[b].slot
  }

  ghost predicate PositiveDurations(ns: seq<Note>) {
    forall k :: 0 <= k < |ns| ==> ns[k].duration > 0.0
  }

  /** The note `spawnFloatingNote` pushes into `slot`: newborn, at the
      bottom of its slot's band (3.0 plus 0.24 per slot), climbing at a rate
      in [0.08, 0.12) for a duration in [3.5, 4.5). */
  function NewNote(slot: nat, d: NoteDraws): (n: Note)
    requires NoteDrawsOk(d)
    ensures n.slot == slot && n.age == 0.0
    ensures n.y == NoteZoneMinY + slot as real * 0.24
    ensures slot < NoteSlots ==> NoteZoneMinY <= n.y < NoteZoneMaxY
    ensures 0.08 <= n.velocityY < 0.12 && 3.5 <= n.duration < 4.5
    ensures -0.1 <= n.x < 0.1
  {
    var spacing := (NoteZoneMaxY - NoteZoneMinY) / NoteSlots as real;
    Note(Lerp(-0.1, 0.1, d.x), NoteZoneMinY + slot as real * spacing, Lerp(0.08, 0.12, d.velocity),
         0.0, Lerp(3.5, 4.5, d.duration), slot)
  }

  /** One tick of a note: its clock advances by `dt` and it climbs by
      `velocityY * dt`; once above the top of the band it is held there and
      stops climbing. */
  function TickNote(n: Note, dt: real): (m: Note)
    ensures m.slot == n.slot && m.duration == n.duration && m.x == n.x && m.age == n.age + dt
    ensures m.y <= NoteZoneMaxY
    ensures n.y + n.velocityY * dt <= NoteZoneMaxY ==> m.y == n.y + n.velocityY * dt && m.velocityY == n.velocityY
    ensures n.y + n.velocityY * dt > NoteZoneMaxY ==> m.y == NoteZoneMaxY && m.velocityY == 0.0
  {
    var y := n.y + n.velocityY * dt;
    if y > NoteZoneMaxY then n.(age := n.age + dt, y := NoteZoneMaxY, velocityY := 0.0)
    else n.(age := n.age + dt, y := y)
  }

  /** The removal test of the tick: the clamped time fraction has reached 1,
      or the note is in the top 5% of the band and older than 1.5 s. */
  predicate Expired(n: Note)
    requires n.duration > 0.0
    ensures n.age >= n.duration ==> Expired(n)
    ensures Expired(n) ==> n.age >= n.duration || n.age > 1.5
  {
    assert n.age >= n.duration ==> n.age / n.duration >= 1.0;
    assert n.age < n.duration ==> n.age / n.duration < 1.0;
    var tt := Clamp(n.age / n.duration, 0.0, 1.0);
    var zoneProgress := (n.y - NoteZoneMinY) / (NoteZoneMaxY - NoteZoneMinY);
    tt >= 1.0 || (zoneProgress >= 0.95 && n.age > 1.5)
  }

  /** A note that has lived its duration is always removed; one still short
      of it is removed only high in the band (at 4.14 or above) and after
      1.5 s. */
  lemma ExpiredWhen(n: Note)
    requires n.duration > 0.0
    ensures n.age >= n.duration ==> Expired(n)
    ensures n.age < n.duration ==> (Expired(n) <==> n.y >= 4.14 && n.age > 1.5)
  {
    var q := n.age / n.duration;
    assert q * n.duration == n.age;
    assert (q - 1.0) * n.duration == n.age - n.duration;
    assert (n.y - NoteZoneMinY) / (NoteZoneMaxY - NoteZoneMinY) >= 0.95 <==> n.y >= 4.14;
  }

  /** The notes after one tick, as a reference definition: each note is
      ticked, the expired ones are dropped, the rest keep their order. */
  function Ticked(ns: seq<Note>, dt: real): (r: seq<Note>)
    requires PositiveDurations(ns)
    ensures |r| <= |ns|
    ensures forall k :: 0 <= k < |r| ==> r[k].duration > 0.0 && !Expired(r[k])
    decreases |ns|
  {
    if ns == [] then []
    else
      var m := TickNote(ns[0], dt);
      (if Expired(m) then [] else [m]) + Ticked(ns[1..], dt)
  }

  /** Nothing that survives a tick is expired or above the band, every
      survivor is the tick of a note of the old list that keeps its slot, and
      so the survivors hold a subset of the old slots, still pairwise
      distinct. */
  lemma {:induction false} TickedKeepsSlots(ns: seq<Note>, dt: real)
    requires PositiveDurations(ns)
    ensures var r := Ticked(ns, dt);
            && |r| <= |ns| && PositiveDurations(r)
            && (forall k :: 0 <= k < |r| ==> !Expired(r[k]) && r[k].y <= NoteZoneMaxY)
            && SlotsOf(r) <= SlotsOf(ns)
            && (DistinctSlots(ns) ==> DistinctSlots(r))
    decreases |ns|
  {
    if ns != [] {
      TickedKeepsSlots(ns[1..], dt);
      var m := TickNote(ns[0], dt);
      var rest := Ticked(ns[1..], dt);
      SlotsOfCons(ns);
      if !Expired(m) {
        SlotsOfCons([m] + rest);
        assert ([m] + rest)[1..] == rest;
        if DistinctSlots(ns) {
          DistinctCons(ns);
          DistinctCons([m] + rest);
        }
      }
    }
  }

  /** The slots of a non-empty list are its head's slot and its tail's. */
  lemma SlotsOfCons(ns: seq<Note>)
    requires ns != []
    ensures SlotsOf(ns) == {ns[0].slot} + SlotsOf(ns[1..])
  {
    forall s | s in SlotsOf(ns) ensures s in {ns[0].slot} + SlotsOf(ns[1..]) {
      var k :| 0 <= k < |ns| && ns[k].slot == s;
      if k > 0 {
        assert ns[1..][k - 1].slot == s;
      }
    }
    forall s | s in SlotsOf(ns[1..]) ensures s in SlotsOf(ns) {
      var k :| 0 <= k < |ns[1..]| && ns[1..][k].slot == s;
      assert ns[k + 1].slot == s;
    }
  }

  /** A non-empty list has distinct slots exactly when its tail does and
      the head's slot is not among the tail's. */
  lemma DistinctCons(ns: seq<Note>)
    requires ns != []
    ensures DistinctSlots(ns) <==> DistinctSlots(ns[1..]) && ns[0].slot !in SlotsOf(ns[1..])
  {
    var t := ns[1..];
    if DistinctSlots(ns) {
      forall a, b | 0 <= a < b < |t| ensures t[a].slot != t[b].slot {
        assert t[a] == ns[a + 1] && t[b] == ns[b + 1];
      }
      forall k | 0 <= k < |t| ensures t[k].slot != ns[0].slot {
        assert t[k] == ns[k + 1];
      }
    }
    if DistinctSlots(t) && ns[0].slot !in SlotsOf(t) {
      forall a, b | 0 <= a < b < |ns| ensures ns[a].slot != ns[b].slot {
        assert ns[b] == t[b - 1];
        if a > 0 {
          assert ns[a] == t[a - 1];
        }
      }
    }
  }

  /** The board's invariant: the slot set is exactly the slots of the live
      notes, all below five; no two notes share a slot; there are never more
      than five notes. */
  ghost predicate BoardOk(ns: seq<Note>, used: set<nat>) {
    && |ns| <= MaxFloatingNotes
    && used == SlotsOf(ns)
    && DistinctSlots(ns)
    && (forall s :: s in used ==> s < NoteSlots)
    && PositiveDurations(ns)
  }

  /** The eviction of `spawnFloatingNote` on a well-kept board leaves a
      well-kept board of at most four notes, hence fewer than five slots in
      use. */
  lemma EvictFrees(ns: seq<Note>, used: set<nat>)
    requires BoardOk(ns, used)
    ensures var k := Evict(ns, MaxFloatingNotes);
            var u := if |ns| >= MaxFloatingNotes then used - {ns[0].slot} else used;
            BoardOk(k, u) && |k| < MaxFloatingNotes && |u| < NoteSlots
  {
    if |ns| >= MaxFloatingNotes {
      DropOldest(ns);
    }
    SlotsOfCard(Evict(ns, MaxFloatingNotes));
  }

  /** Fewer than five slots in use leaves a free one in every scan. */
  lemma FreeSlotExists(used: set<nat>, start: nat)
    requires |used| < NoteSlots
    ensures exists i :: 0 <= i < NoteSlots && Cyc(start, i) !in used
  {
    if forall i :: 0 <= i < NoteSlots ==> Cyc(start, i) in used {
      var all: set<nat> := {0, 1, 2, 3, 4};
      forall s | s in all ensures s in used {
        var i := (s + NoteSlots - start % NoteSlots) % NoteSlots;
        assert Cyc(start, i) == s;
      }
      SubsetCard(all, used);
      assert false;
    }
  }

  lemma {:induction false} SubsetCard<T>(a: set<T>, b: set<T>)
    requires a <= b
    ensures |a| <= |b|
    decreases |a|
  {
    if a != {} {
      var x :| x in a;
      SubsetCard(a - {x}, b - {x});
    }
  }

  /** A list of notes holds at most as many slots as it has notes. */
  lemma {:induction false} SlotsOfCard(ns: seq<Note>)
    ensures |SlotsOf(ns)| <= |ns|
    decreases |ns|
  {
    if ns != [] {
      var front := ns[..|ns| - 1];
      SlotsOfCard(front);
      assert SlotsOf(ns) == SlotsOf(front) + {ns[|ns| - 1].slot} by {
        forall s | s in SlotsOf(ns) ensures s in SlotsOf(front) + {ns[|ns| - 1].slot} {
          var k :| 0 <= k < |ns| && ns[k].slot == s;
          if k < |ns| - 1 {
            assert front[k].slot == s;
          }
        }
        forall s | s in SlotsOf(front) ensures s in SlotsOf(ns) {
          var k :| 0 <= k < |front| && front[k].slot == s;
          assert ns[k].slot == s;
        }
      }
    }
  }

  /** Dropping the oldest note of a list with distinct slots frees exactly its
      slot. */
  lemma DropOldest(ns: seq<Note>)
    requires ns != [] && DistinctSlots(ns)
    ensures SlotsOf(ns[1..]) == SlotsOf(ns) - {ns[0].slot} && DistinctSlots(ns[1..])
  {
    forall s | s in SlotsOf(ns) - {ns[0].slot} ensures s in SlotsOf(ns[1..]) {
      var k :| 0 <= k < |ns| && ns[k].slot == s;
      assert ns[1..][k - 1].slot == s;
    }
    forall s | s in SlotsOf(ns[1..]) ensures s in SlotsOf(ns) - {ns[0].slot} {
      var k :| 0 <= k < |ns[1..]| && ns[1..][k].slot == s;
      assert ns[k + 1].slot == s;
    }
  }

  /** Appending a note in a free slot below five to a board of fewer than
      five notes keeps it well kept and adds exactly that slot. */
  lemma AddNote(ns: seq<Note>, used: set<nat>, n: Note)
    requires BoardOk(ns, used) && |ns| < MaxFloatingNotes
    requires n.slot !in used && n.slot < NoteSlots && n.duration > 0.0
    ensures BoardOk(ns + [n], used + {n.slot})
  {
    var t := ns + [n];
    assert t[|ns|] == n;
    forall s | s in SlotsOf(t) ensures s in SlotsOf(ns) + {n.slot} {
      var k :| 0 <= k < |t| && t[k].slot == s;
      if k < |ns| {
        assert ns[k].slot == s;
      }
    }
    forall s | s in SlotsOf(ns) ensures s in SlotsOf(t) {
      var k :| 0 <= k < |ns| && ns[k].slot == s;
      assert t[k].slot == s;
    }
    forall a, b | 0 <= a < b < |t| ensures t[a].slot != t[b].slot {
      if b == |ns| {
        assert t[a].slot in SlotsOf(ns) by { assert ns[a] == t[a]; }
      }
    }
  }

  class NoteBoard {
    var notes: seq<Note>
    var usedSlots: set<nat>
    var spawnIndex: nat

    ghost predicate Valid()
      reads this
    {
      BoardOk(notes, usedSlots)
    }

    constructor ()
      ensures Valid() && notes == [] && usedSlots == {} && spawnIndex == 0
    {
      notes := [];
      usedSlots := {};
      spawnIndex := 0;
    }

    /** `getAvailableSlot()` (src/main.ts:3076-3086): scans the five slots
        cyclically from the spawn counter and returns the first free one, or
        the counter's own slot when all five are taken. */
    method GetAvailableSlot() returns (slot: nat)
      ensures slot < NoteSlots
      ensures (exists i :: 0 <= i < NoteSlots && Cyc(spawnIndex, i) !in usedSlots) ==> FirstFreeFrom(usedSlots, spawnIndex, slot)
      ensures (forall i :: 0 <= i < NoteSlots ==> Cyc(spawnIndex, i) in usedSlots) ==> slot == spawnIndex % NoteSlots
    {
      var i := 0;
      while i < NoteSlots
        invariant 0 <= i <= NoteSlots
        invariant forall j :: 0 <= j < i ==> Cyc(spawnIndex, j) in usedSlots
      {
        var s := Cyc(spawnIndex, i);
        if s !in usedSlots {
          return s;
        }
        i := i + 1;
      }
      slot := spawnIndex % NoteSlots;
    }

    /** `spawnFloatingNote(world, text)` (src/main.ts:3088-3145): at the cap
        the oldest note is shifted out and its slot freed; the new note takes
        the first free slot from the counter, which is then advanced. Because
        the eviction leaves at most four notes, a free slot always exists, so
        the fallback of `getAvailableSlot` is never taken and no two notes
        ever share a slot. */
    method SpawnNote(d: NoteDraws) returns (slot: nat)
      requires Valid() && NoteDrawsOk(d)
      modifies this
      ensures Valid()
      ensures FirstFreeFrom(SlotsOf(Evict(old(notes), MaxFloatingNotes)), old(spawnIndex), slot)
      ensures notes == Admit(old(notes), MaxFloatingNotes, NewNote(slot, d))
      ensures spawnIndex == old(spawnIndex) + 1
    {
      EvictFrees(notes, usedSlots);
      if |notes| >= MaxFloatingNotes {
        var oldest := notes[0];
        notes := notes[1..];
        usedSlots := usedSlots - {oldest.slot};
      }
      FreeSlotExists(usedSlots, spawnIndex);
      slot := GetAvailableSlot();
      var n := NewNote(slot, d);
      AddNote(notes, usedSlots, n);
      usedSlots := usedSlots + {slot};
      spawnIndex := spawnIndex + 1;
      notes := notes + [n];
    }

    /** The note loop of the frame tick (src/main.ts:3627-3671), from the
        last note to the first: each note is aged and raised, and an expired
        one has its slot deleted and is spliced out. */
    method Tick(dt: real)
      requires Valid()
      modifies this`notes, this`usedSlots
      ensures Valid()
      ensures notes == Ticked(old(notes), dt)
    {
      ghost var on := notes;
      var i := |notes|;
      assert on[i..] == [] && on[..i] == on;
      while i > 0
        invariant 0 <= i <= |on|
        invariant TickLoop(on, dt, i, notes, usedSlots)
      {
        i := i - 1;
        TickStep(on, dt, i, notes, usedSlots);
        var m := TickNote(notes[i], dt);
        if Expired(m) {
          usedSlots := usedSlots - {m.slot};
          notes := notes[..i] + notes[i + 1..];
        } else {
          notes := notes[i := m];
        }
      }
      assert on[..0] == [] && on[0..] == on;
      TickedBoardOk(on, dt, old(usedSlots));
      assert notes == Ticked(on, dt);
    }

    /** The scene change that clears every note (src/main.ts:3773-3780). */
    method Clear()
      modifies this`notes, this`usedSlots
      ensures Valid() && notes == [] && usedSlots == {}
    {
      notes := [];
      usedSlots := {};
    }
  }

  /** The note loop after visiting the notes from index `i` on: the notes
      before `i` untouched, the survivors of the visited ones ticked, and the
      slot set still exactly the slots of the list, pairwise distinct. */
  ghost predicate TickLoop(on: seq<Note>, dt: real, i: nat, ns: seq<Note>, used: set<nat>) {
    && i <= |on| && PositiveDurations(on)
    && ns == on[..i] + Ticked(on[i..], dt)
    && used == SlotsOf(ns) && DistinctSlots(ns)
  }

  /** One turn of the note loop: the note at index `i` is still the
      original one, and ticking it, or splicing it out and freeing its slot,
      moves the loop from `i + 1` to `i`. */
  lemma TickStep(on: seq<Note>, dt: real, i: nat, pre: seq<Note>, used: set<nat>)
    requires i < |on| && TickLoop(on, dt, i + 1, pre, used)
    ensures i < |pre| && pre[i] == on[i]
    ensures var m := TickNote(on[i], dt);
            && (Expired(m) ==> TickLoop(on, dt, i, pre[..i] + pre[i + 1..], used - {m.slot}))
            && (!Expired(m) ==> TickLoop(on, dt, i, pre[i := m], used))
  {
    var rest := Ticked(on[i + 1..], dt);
    var m := TickNote(on[i], dt);
    SpliceAt(on, i, rest, pre, m);
    Unfold(on, i);
    assert Ticked(on[i..], dt) == (if Expired(m) then [] else [m]) + rest;
    if Expired(m) {
      DropAt(pre, i);
    } else {
      ReplaceAt(pre, i, m);
    }
  }

  /** A well-kept board stays well kept after a tick. */
  lemma TickedBoardOk(ns: seq<Note>, dt: real, used: set<nat>)
    requires BoardOk(ns, used)
    ensures BoardOk(Ticked(ns, dt), SlotsOf(Ticked(ns, dt)))
  {
    TickedKeepsSlots(ns, dt);
  }

  /** Splicing out note `i` of a list with distinct slots frees exactly its
      slot. */
  lemma DropAt(ns: seq<Note>, i: nat)
    requires i < |ns| && DistinctSlots(ns)
    ensures var t := ns[..i] + ns[i + 1..];
            SlotsOf(t) == SlotsOf(ns) - {ns[i].slot} && DistinctSlots(t)
  {
    var t := ns[..i] + ns[i + 1..];
    forall s | s in SlotsOf(ns) - {ns[i].slot} ensures s in SlotsOf(t) {
      var k :| 0 <= k < |ns| && ns[k].slot == s;
      if k < i {
        assert t[k].slot == s;
      } else {
        assert t[k - 1].slot == s;
      }
    }
    forall s | s in SlotsOf(t) ensures s in SlotsOf(ns) - {ns[i].slot} {
      var k :| 0 <= k < |t| && t[k].slot == s;
      if k < i {
        assert ns[k].slot == s;
      } else {
        assert ns[k + 1].slot == s;
      }
    }
    forall a, b | 0 <= a < b < |t| ensures t[a].slot != t[b].slot {
      var a' := if a < i then a else a + 1;
      var b' := if b < i then b else b + 1;
      assert t[a] == ns[a'] && t[b] == ns[b'];
    }
  }

  /** Replacing note `i` by one in the same slot changes no slot. */
  lemma ReplaceAt(ns: seq<Note>, i: nat, m: Note)
    requires i < |ns| && m.slot == ns[i].slot
    ensures SlotsOf(ns[i := m]) == SlotsOf(ns)
    ensures DistinctSlots(ns) ==> DistinctSlots(ns[i := m])
  {
    var t := ns[i := m];
    forall s | s in SlotsOf(ns) ensures s in SlotsOf(t) {
      var k :| 0 <= k < |ns| && ns[k].slot == s;
      assert t[k].slot == s;
    }
    forall s | s in SlotsOf(t) ensures s in SlotsOf(ns) {
      var k :| 0 <= k < |t| && t[k].slot == s;
      assert ns[k].slot == s;
    }
  }
}
