# Firework engine bookkeeping, in Dafny

This project models the effect-lifecycle bookkeeping of the "happy" New Year
firework page (`src/main.ts`) and two string helpers of its build step
(`scripts/inline-assets.cjs`), and proves properties of that model.

- **Burst pool** (`Fireworks`, module `Fireworks`, class `BurstPool`). Primary
  bursts are spawned under a FIFO cap. Each frame a backward loop does the
  following for every burst:
  - ages and fades it;
  - rolls a once-only secondary explosion in the open window (0.4·d, 0.6·d);
  - feeds at most 8 embers into a list capped at 2000, while the burst is in
    the first 70% of its life;
  - splices it out once `age ≥ duration`.

  The embers are then aged and retired, and a 2000-slot alpha buffer is filled.
- **Rocket controller** (`FireworkRockets`, module `Rockets`, class
  `RocketController`). Rockets are launched under a FIFO cap. Each frame every
  rocket:
  - is aged;
  - pushes its eased head position into a 20-point trail that shifts like a
    shift register;
  - sprays `floor(80·dt)` sparks, plus one more on a draw below the
    fractional part;
  - ages and retires its sparks.

  When a rocket reaches its duration it calls `onBurst`, then asks the burst
  pool to spawn, then is removed. The collected sparks are packed into a
  3000-slot render buffer, eight points per spark.
- **Floating notes** (module `FloatingNotes`, class `NoteBoard`). There are at
  most five notes, each holding one of five vertical slots. A new note evicts
  the oldest at the cap and takes the first free slot, scanning cyclically
  from a spawn counter. A note is removed, and its slot freed, when its time
  is up, or when it is in the top 5% of the band (at 4.14 or above) and older
  than 1.5 s.
- **Adaptive pixel ratio** (module `PerformanceScaling`, class
  `PerformanceScaler`). Frame times are averaged over 30 frames, the target
  ratio is lowered or raised within [0.9, device cap], and the applied ratio
  eases 35% of the way towards it when that step exceeds 0.03.
- **Helpers** (module `MathUtil`): `clamp`, `lerp`, `easeOutCubic`,
  `randInt`, `pickOne` and `chooseFireworkPattern`.
- **Build step** (module `InlineAssets`): `escapeForHtml`,
  `toFsPathFromHtmlUrl`, and the script and stylesheet URL tests.

Modules `EffectPool`, `Motes` and `ListOps` hold what several owners share:
- the evict-then-push capacity rule;
- the age-and-retire sweep used for both embers and sparks;
- the sequence surgery of the source's backward `splice` loops.

Every `Math.random()` call becomes an explicit draw parameter `u` with
`0 ≤ u < 1`. Each burst, rocket, launch and note takes a record of the draws
it consumes, in source order. Mutable JavaScript objects whose fields are
updated in place are classes with `modifies` clauses, and their arrays of
records are `seq` fields. Each loop-carrying method is proved equal to a
recursive reference function, and the properties are proved about that
function:
- `Sweep` for the bursts;
- `RocketSweep` for the rockets;
- `Aged` for embers and sparks;
- `Ticked` for the notes.

## Model

| member | source | states |
|---|---|---|
| MathUtil.Clamp | src/main.ts:32-34 | The result is never below `min` and, for `min ≤ max`, never above `max`. A value inside the range is returned unchanged, and values beyond either bound give that bound. |
| MathUtil.Lerp | src/main.ts:36-38 | `t = 0` gives `a` and `t = 1` gives `b`. For `t ∈ [0, 1]` the result lies between `a` and `b`, strictly below `b` when `t < 1` and `a < b`. |
| MathUtil.EaseOutCubic | src/main.ts:45-48 | The result lies in [0, 1]. It is 0 at or before the start and 1 at or after the end, because the input is clamped. |
| MathUtil.EaseOutCubicMonotone | src/main.ts:45-48 | The easing curve is monotone: a later time is never less eased. |
| MathUtil.RandInt | src/main.ts:54-56 | For a draw in [0, 1), `floor(lerp(min, max + 1, u))` lies in [min, max]. It is `k` exactly when `u` falls in the k-th of `max - min + 1` equal cells. |
| MathUtil.RandIntCovers | src/main.ts:54-56 | Every integer of [min, max] is produced by some draw. |
| MathUtil.PickOne | src/main.ts:58-60 | A non-empty list yields one of its items. An empty list yields nothing (`undefined` in the source). |
| MathUtil.PickOneCovers | src/main.ts:58-60 | Every item of a non-empty list is picked by some draw. |
| MathUtil.ChooseFireworkPattern | src/main.ts:187-198 | Heart exactly when the draw is below 0.32 (tap) or 0.16 (automatic). Ring exactly when it lies in [0.32, 0.46) (tap) or [0.16, 0.32) (automatic). Sphere otherwise. |
| MathUtil.HeartFavouredOnTap | src/main.ts:187-198 | Every draw that gives an automatic launch a heart gives a tap a heart too, and some draw gives only the tap a heart. |
| EffectPool.Evict | src/main.ts:1557-1560 | At or above the cap exactly the oldest entry (index 0) is removed. Below the cap nothing is removed. |
| EffectPool.Admit | src/main.ts:1557-1560 | After eviction the new entry is last. At the cap the length is unchanged and the rest is the old list minus its head. Below the cap the length grows by one. |
| EffectPool.AdmitAllKeepsNewest | src/main.ts:1557-1560 | From a list within its cap, any run of admissions leaves exactly the newest `cap` entries in arrival order, and never more than `cap`. |
| Fireworks.SpawnRunKeepsNewest | src/main.ts:1552-1560 | A run of primary spawns keeps the newest `maxBursts` bursts. Eleven spawns into an empty pool with cap 10 keep the last ten. |
| Motes.Aged | src/main.ts:2022-2044 | The reference sweep: nothing kept is spent, the list never grows, and positive life spans are preserved. |
| Motes.AgedKeepsExactlyTheLive | src/main.ts:2022-2044 | A mote survives exactly when its aged life is still below its span, so none is dropped early and none outlives it. |
| Motes.AgeAndRetire | src/main.ts:2022-2044 | The backward add-`dt`-and-splice loop leaves exactly `Aged` of its input. |
| Fireworks.NewBurst | src/main.ts:1753-1766 | A spawned burst is newborn at full opacity, alive, unflagged and not yet in its secondary window, at the given origin, pattern and intensity. |
| Fireworks.SecondaryBurst | src/main.ts:1890-1903 | A secondary is a newborn, alive one-second sphere with a quarter of the particles and half the intensity it is given. It is already flagged, so it never explodes again. |
| Fireworks.BurstDuration | src/main.ts:1761 | The life span of a primary burst lies in [2.0, 2.2], depending on its pattern. |
| Fireworks.FadeOpacity | src/main.ts:1914-1921 | The opacity lies in [0, 1]. It is full for the first 60% of life and zero once the duration is reached. |
| Fireworks.FadeOpacityMonotone | src/main.ts:1914-1921 | An older burst is never brighter. |
| Fireworks.SecondaryCount | src/main.ts:1924-1931 | Secondaries are produced exactly when an unflagged burst is inside the open window and the trial draw is below 0.35. There are then 2 to 4 of them. |
| Fireworks.Children | src/main.ts:1930-1948 | Secondary `k` is a `SecondaryBurst` at origin draw `k`, in push order. It is passed 0.6 of the parent's intensity and stores half of that, 0.3 of the parent's. |
| Fireworks.EmberCount | src/main.ts:1957-1964 | At most 8 embers. They are fed exactly while the burst is in its first 70% and the list is not full, and they never take the list past 2000. The count is `min(8, 2000 - length)`: the full 8 when there is room, otherwise exactly the room left. |
| Fireworks.NewEmbers | src/main.ts:1965-2012 | Each new ember is born at life 0 with a span in [0.35, 0.7). |
| Fireworks.Step | src/main.ts:1906-2019 | Only age, opacity and the flag change. The flag is set exactly when it was already set or the new age lies strictly inside (0.4·d, 0.6·d). A flagged burst never produces secondaries, and those produced are newborn, flagged, last 1 s and have 0.3 of the intensity. The embers stay within their cap and are fed only in the first 70%. |
| Fireworks.Sweep | src/main.ts:1908-2020 | After the burst loop no kept burst has reached its duration. Every secondary is newborn and flagged, and there are at most four per burst. The ember list only grows, never past 2000. |
| Fireworks.SweepKeepsTheLive | src/main.ts:1908-2020 | The burst loop keeps exactly the bursts still alive after their tick, in their old order, whatever the draws and the ember list (`LiveAdvanced`). None is dropped early and none outlives its duration. |
| Fireworks.EmberAlpha | src/main.ts:2061-2072 | A live ember is shown with positive alpha, and never more than 0.6. |
| Fireworks.BurstPool.constructor | src/main.ts:1472-1490 | The pool starts empty, with the given caps (defaults 8 and 700) and a 2000-slot alpha buffer. |
| Fireworks.BurstPool.Spawn | src/main.ts:1552-1767 | The new burst is admitted under the FIFO cap. The burst returned for disposal is exactly the old head when at the cap, and none otherwise. |
| Fireworks.BurstPool.SpawnSecondary | src/main.ts:1770-1904 | A push without any capacity check. The child is a flagged one-second sphere at half the given intensity. |
| Fireworks.BurstPool.RollSecondary | src/main.ts:1924-1954 | Inside the window the burst is flagged whatever the trial gives. On success its children are appended at the end. |
| Fireworks.BurstPool.FeedEmbers | src/main.ts:1957-2014 | The ember list grows by exactly `NewEmbers(EmberCount)`. |
| Fireworks.BurstPool.UpdateBurst | src/main.ts:1908-2020 | The body of the burst loop. Burst `i` is replaced by its step, or spliced out once it has reached its duration, and its secondaries land at the end. |
| Fireworks.BurstPool.SweepBursts | src/main.ts:1908-2020 | The backward loop leaves exactly the survivors followed by the secondaries of `Sweep`, and its ember list. |
| Fireworks.BurstPool.Update | src/main.ts:1906-2078 | `update` leaves the swept bursts, every one of them still alive, and the embers aged by `dt`. The alpha buffer shows each ember in order, with 0 past the end of the list. |
| Fireworks.BurstPool.FillTrailBuffer | src/main.ts:2061-2072 | Slot `i` holds ember `i`'s alpha while there is one, and 0 after. |
| Rockets.LaunchStart | src/main.ts:2247 | The launch pad lies straight below the target, at height -0.8. |
| Rockets.LaunchEnd | src/main.ts:2247-2252 | The apex lies within ±0.15 of 0.7 × target in x and z, at a height in [2.2, 3.8). |
| Rockets.NewRocket | src/main.ts:2247-2356 | A launched rocket is newborn with no sparks. Its duration lies in [0.7, 1.0), and every point of its 20-point trail is the launch pad. |
| Rockets.ShiftIn | src/main.ts:2391-2399 | After one tick of the trail, point 0 is the current position, point `j` is the old point `j-1`, and the length is unchanged. |
| Rockets.ShiftTrail | src/main.ts:2391-2399 | The in-place backward copy loop over the float buffer computes exactly `ShiftIn`. |
| Rockets.ShiftAllRemembers | src/main.ts:2391-2399 | After any number of ticks, point `j` is the position from `j` ticks ago, or an initial point when there have been fewer ticks. |
| Rockets.Position | src/main.ts:2365-2370 | The head is at the start at age 0 and at the apex once the duration is reached. |
| Rockets.HeadAfter | src/main.ts:2365-2370 | The head position written on a tick is the apex once the new age reaches the duration. |
| Rockets.Fires | src/main.ts:2498 | A rocket fires on the tick its new age reaches its duration, which is the tick its head reaches the apex. |
| Rockets.JsFrac | src/main.ts:2420-2422 | JavaScript's `% 1` is the fraction that keeps the sign of its operand: `x - floor(x)` in [0, 1) for `x ≥ 0`, and `x + floor(-x)` in (-1, 0] for `x < 0`. |
| Rockets.SparkCount | src/main.ts:2418-2422 | The whole part of `80·dt`, plus one exactly when the draw is below the fractional part. For `dt ≥ 0` it is within one of `80·dt`. |
| Rockets.NewSparks | src/main.ts:2424-2466 | A rocket sprays `SparkCount` sparks (none for a negative count), each newborn with a span in [0.2, 0.45). |
| Rockets.SprayAndAge | src/main.ts:2418-2493 | The push loop followed by the backward age-and-splice loop leaves exactly `Aged(sparks + new sparks)`. |
| Rockets.Advance | src/main.ts:2365-2493 | Only age, trail and sparks change. The trail gains the new head and shifts, and every spark left is live. |
| Rockets.RocketSweep | src/main.ts:2363-2505 | Kept rockets plus burst events number exactly the rockets swept. Every kept rocket is still below its duration and keeps its 20-point trail. |
| Rockets.RocketSweepVisitsEach | src/main.ts:2498-2504 | A rocket reaching its duration has its burst event among the events. One that does not is kept, advanced. |
| Rockets.RocketSweepEvents | src/main.ts:2363-2504 | The events of the rocket loop are exactly `FiringEvents`: one per rocket that reaches its duration, in the backward visiting order, and none for any other rocket. |
| Rockets.FiringEventsExactly | src/main.ts:2498-2501 | An event is reported exactly when it is the event of a rocket that fires on this tick. |
| Rockets.SpawnedBursts | src/main.ts:2498-2504 | The pool is asked for one primary burst per event, at the event's apex, pattern and intensity, in event order. |
| Rockets.SparkSlot | src/main.ts:2522-2565 | Render slot `x` shows a point exactly when `x` lies below both 8 × sparks and 3000. That point is point `x mod 8` of collected spark `x div 8`, with the spark index below the spark count and the point index below 8. Every other slot is empty. |
| Rockets.RocketController.constructor | src/main.ts:2146-2162 | The controller starts with no rockets, the given cap (default 6) and a 3000-slot spark buffer. |
| Rockets.RocketController.Launch | src/main.ts:2237-2356 | At the cap the oldest rocket is evicted and returned, so it never bursts. The new rocket, with its freshly filled trail buffer, is appended. |
| Rockets.RocketController.UpdateRocket | src/main.ts:2363-2505 | One turn of the rocket loop. A rocket that fires reports its event, spawns its burst in the pool and is spliced out. Otherwise it is stored back advanced and the pool is untouched. |
| Rockets.RocketController.Retire | src/main.ts:2498-2504 | `onBurst`, then `fireworks.spawn`, then removal, all on the tick the age reaches the duration. |
| Rockets.RocketController.SweepRockets | src/main.ts:2358-2505 | The loop leaves exactly `RocketSweep`'s rockets, events and sparks. The pool has received one spawn per event, in event order. |
| Rockets.RocketController.FillSparkBuffer | src/main.ts:2522-2565 | The final write index is `min(8 × sparks, 3000)`, and every slot of the buffer is `SparkSlot`. |
| Rockets.RocketController.Update | src/main.ts:2358-2566 | `update` leaves the swept rockets, returns the `onBurst` calls in order, admits the spawned bursts into the pool and fills the spark buffer. |
| FloatingNotes.Cyc | src/main.ts:3079 | A cyclic scan position is always one of the five slots. |
| FloatingNotes.NewNote | src/main.ts:3109-3144 | A new note is born in its slot's band, 3.0 + 0.24 per slot and below 4.2. It climbs at [0.08, 0.12) for a duration in [3.5, 4.5). |
| FloatingNotes.TickNote | src/main.ts:3629-3642 | The clock advances by `dt` and the note climbs by `velocityY·dt`. Above 4.2 it is held at 4.2 with its climb stopped. |
| FloatingNotes.Expired | src/main.ts:3661-3662 | A note whose time is up is always removed. A removed note has either used up its time or is older than 1.5 s. |
| FloatingNotes.ExpiredWhen | src/main.ts:3630-3662 | A note past its duration is always removed. One short of it is removed exactly when it is at 4.14 or above and older than 1.5 s. |
| FloatingNotes.Ticked | src/main.ts:3628-3671 | The reference tick never adds notes, and no note it keeps is expired. |
| FloatingNotes.TickedKeepsSlots | src/main.ts:3628-3671 | After a tick no survivor is expired or above the band. The survivors hold a subset of the old slots, still pairwise distinct. |
| FloatingNotes.FreeSlotExists | src/main.ts:3076-3086 | With fewer than five slots in use, the cyclic scan finds a free one. |
| FloatingNotes.EvictFrees | src/main.ts:3090-3099 | Eviction at the cap frees exactly the oldest note's slot and leaves fewer than five slots in use. |
| FloatingNotes.AddNote | src/main.ts:3109-3111 | Adding a note in a free slot keeps the slots distinct and adds exactly that slot. |
| FloatingNotes.TickedBoardOk | src/main.ts:3628-3671 | A tick keeps the board invariant: slot set = slots of the notes, all distinct and below five, at most five notes. |
| FloatingNotes.NoteBoard.constructor | src/main.ts:3069-3074 | The board starts with no notes, no slots in use and the counter at 0. |
| FloatingNotes.NoteBoard.GetAvailableSlot | src/main.ts:3076-3086 | The result is always in [0, 5). It is the first unused slot in cyclic order from the counter, or the counter's own slot when all five are used. |
| FloatingNotes.NoteBoard.SpawnNote | src/main.ts:3088-3145 | FIFO eviction at five notes, then the new note takes the first free slot and the counter advances. A free slot always exists, so no two notes ever share a slot. |
| FloatingNotes.NoteBoard.Tick | src/main.ts:3628-3671 | The backward loop leaves exactly `Ticked` of the notes, with each removed note's slot freed. |
| FloatingNotes.NoteBoard.Clear | src/main.ts:3773-3780 | The scene change empties both the notes and the slot set. |
| PerformanceScaling.DeviceCap | src/main.ts:2608 | `clamp(dpr \|\| 1, 1, 2)` lies in [1, 2]. It keeps a ratio that is already in range and maps 0 to 1. |
| PerformanceScaling.Retarget | src/main.ts:2622-2630 | A slow window (> 22 ms) never raises the target or takes it below 0.9, and lowers it when it is above 0.9. A fast window (< 16 ms) never takes it above the cap and raises it when it is below the cap. A window in between leaves it alone. |
| PerformanceScaling.RetargetStaysInRange | src/main.ts:2622-2630 | A target in [0.9, 2] stays there whatever the frame times and the display. |
| PerformanceScaling.Settle | src/main.ts:2632-2636 | The applied ratio moves towards the target without overshooting. It moves exactly when the gap exceeds 3/35 (0.03 / 0.35), and the gap then shrinks to 65%. |
| PerformanceScaling.SettleConverges | src/main.ts:2632-2636 | With a fixed target the gap never grows. Each window that leaves it above 3/35 closes more than 0.03 of it. |
| PerformanceScaling.PerformanceScaler.constructor | src/main.ts:2606-2611 | Both ratios start at the device cap, with an empty window. |
| PerformanceScaling.PerformanceScaler.Update | src/main.ts:2613-2637 | Frames 1 to 29 of a window only accumulate. The 30th resets the window, retargets on the mean and settles the applied ratio, and `resized` reports whether the ratio changed. Both ratios stay in [0.9, 2]. |
| InlineAssets.ReplaceAll | scripts/inline-assets.cjs:11-12 | `replaceAll` of a pattern by itself changes nothing, and a replacement at least as long as its pattern never shortens the text. |
| InlineAssets.EscapeForHtml | scripts/inline-assets.cjs:7-13 | The escaped text contains neither `</script>` nor `</style>`, so inlined code can never close its element early. |
| InlineAssets.EscapeIdentity | scripts/inline-assets.cjs:7-13 | Text containing neither closing tag is returned unchanged. |
| InlineAssets.EscapeLength | scripts/inline-assets.cjs:11-12 | The output is exactly one character (a backslash) longer per closing tag in the input. |
| InlineAssets.NoneLeft | scripts/inline-assets.cjs:11-12 | `replaceAll` leaves no occurrence of its pattern, and creates none of another lead tag that did not occur before. |
| InlineAssets.ReplaceAbsent | scripts/inline-assets.cjs:11-12 | `replaceAll` of an absent pattern is the identity. |
| InlineAssets.ReplaceLength | scripts/inline-assets.cjs:11-12 | A one-character-longer replacement of a non-overlapping pattern adds one character per occurrence. |
| InlineAssets.CountKept | scripts/inline-assets.cjs:11-12 | The `</script>` pass keeps the number of `</style>` occurrences. |
| InlineAssets.BeforeFirst | scripts/inline-assets.cjs:16 | `split(c)[0]` is the longest prefix without `c`. |
| InlineAssets.CleanUrl | scripts/inline-assets.cjs:16 | The cleaned URL is a prefix of the URL with neither `?` nor `#`. |
| InlineAssets.CleanUrlIdempotent | scripts/inline-assets.cjs:16 | Cleaning twice is cleaning once, and a URL without `?` or `#` is already clean. |
| InlineAssets.ToFsPath | scripts/inline-assets.cjs:15-19 | The path is `dist/` followed by the cleaned URL minus one leading `/`, with no `?` or `#`. |
| InlineAssets.LeadingSlashDropped | scripts/inline-assets.cjs:17-18 | `"/x"` and `"x"` resolve to the same file. |
| InlineAssets.IsAssetUrl | scripts/inline-assets.cjs:41-55 | A URL collected as an asset of an extension contains that extension. |
| InlineAssets.VersionedAssetAccepted | scripts/inline-assets.cjs:41-55 | A URL ending in the extension is collected (`.js` at lines 41 and 55, `.css` at 48), and so is the same URL with a query. Both clean to the plain path. |

## Left out

- Three.js scene objects, shaders, materials, geometry and `dispose` calls are not modelled. Particle payloads (positions, velocities, colours, sizes) are left out too. A burst keeps only its particle count.
- Floating-point and transcendental numerics are left out:
  - burst and ember kinematics (`exp` drag, gravity, turbulence);
  - the secondary origins, which are the draws `origins`;
  - the spark tails' `lerp`;
  - `Math.pow` alphas and colours.

  Numbers are exact reals.
- `onBurst`'s own effects (vibration, notes, sound) are left out. The call is modelled as a returned `BurstEvent`, in call order.
- Rockets.RocketController.UpdateRocket: the controller stores each rocket's `trailPositions` buffer as a value (`seq<real>`) inside the rocket record. The in-place backward copy is modelled separately by `Rockets.ShiftTrail` on an `array<real>` and proved equal to `ShiftIn`. Aliasing of the buffer with the line geometry is not modelled.
- Fireworks.BurstPool.Update: the per-ember turbulence draws and the ember positions are not modelled. The render pass keeps only the alpha.
- PerformanceScaling.PerformanceScaler.Update: `window.devicePixelRatio` is a parameter. `renderer.setPixelRatio` is reported as `resized`. NaN and `undefined` ratios are not modelled.
- InlineAssets.ToFsPath: `path.join` is modelled as concatenation with `/`, without its normalisation of `.`, `..` or repeated separators.
- The asynchronous driver `main` of `scripts/inline-assets.cjs` (file access, regex matching, rewriting of `index.html`) is I/O and not part of this model.
- DOM, audio, input gestures, timers and scene phases are not part of this model.
- Behaviour of the code worth knowing, which the model follows exactly:
  - secondaries are passed 0.6 of the parent's intensity (src/main.ts:1945), and `spawnSecondary` stores half of what it is passed (src/main.ts:1902), so they carry 0.3 of it;
  - a full ember list stops growing, and nothing already in it is overwritten (src/main.ts:1955-1960);
  - the secondary window is the open interval (0.4·d, 0.6·d) (src/main.ts:1925-1927);
  - rocket durations are drawn from [0.7, 1.0) (src/main.ts:2349);
  - `onBurst` is called before `fireworks.spawn` (src/main.ts:2500-2501).
