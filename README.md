# FunctionConfig: a verified model of the response curve

`FunctionConfig` maps a scalar input (a head-tracker displacement or
rotation) to a scalar output through a curve defined by user-edited control
points. It keeps the points sorted by `x` and rebuilds a memoization table
from them on every edit. The table holds 200 samples per unit of input: a
linear ramp from the origin up to the first point, then Catmull-Rom samples
taken with a sliding four-point window. `getValue` answers from that table.
It mirrors negative inputs at least one sample step below 0 (closer to 0
there is no mirroring, see below), clamps beyond the end of the table, and
blends two neighbouring samples.

The model has five modules:

- `Numeric` (numeric.dfy): the C++ `(int)` cast (truncation toward zero),
  `ceil`, and 32-bit `int` negation.
- `Points` (points.dfy): control points, the comparator `sortFn`, and the
  stable sort `reload` applies. The sort is a pure function, proved to give
  a sorted, stable permutation. Any sorted stable rearrangement equals it, so
  the result does not depend on which stable algorithm `qStableSort` uses.
- `Memo` (memo.dfy): the table `reload` builds, as a function of the sorted
  points, with `MEMOIZE_PRECISION` (QFunctionConfigurator/FunctionConfig.h:19)
  as the constant `MemoizePrecision = 200`. Also `ensureInBounds`, the window pointer, the Catmull-Rom blend,
  and the two lookups `getValueInternal` and `getValue` over a table. The
  properties of the curve are lemmas here.
- `Settings` (settings.dfy): the settings group as a map. The keys are `Count`
  (`point-count`), `X(i)` (`point-<i>-x`) and `Y(i)` (`point-<i>-y`).
  `loadSettings` is the function `Loaded`, `saveSettings` the function
  `Saved`, and the round trip is proved.
- `FunctionConfigModel` (function_config.dfy): the class `FunctionConfig`.
  Its fields are `points`, `data` (a nullable `array<real>`), `size`,
  `lastValueTracked`, `trackingActive`, and the `const` `title`. `Valid()`
  is the invariant that `data` holds exactly `Table(points)` and that `size`
  is its length. The constructors and every mutator establish it. `reload`
  fills a freshly allocated array in its two loops (`FillRamp`, `FillCurve`),
  and these are proved against `Table`.

Each public method is modelled as one atomic step.

## Behaviour as the code has it

Where the code and a plain description of the curve differ, the model
follows the code:

- `ensureInBounds` returns `(0, 0)` for a negative index. It does not return
  the nearest point (`EnsureInBounds`).
- `removePoint` and `movePoint` do no range check. `QList::removeAt` and
  `operator[]` require a valid index, so the model requires
  `0 <= i < |points|`. They are not no-ops out of range.
- The title-only constructor runs `reload` on an empty list. It does not read
  the settings (`Titled`).
- In `getValue` the blend factor is the fractional part of `x`, not of
  `200 * x`. How far the result moves from the lower sample toward the upper
  one therefore depends on where `x` lies within its unit interval, not on
  where `200 * x` lies between the two samples: at `x = 1.9025` the factor is
  `0.9025` although `200 * x = 380.5` lies halfway between the samples 380 and 381.
  For `x <= 0` both casts round toward zero to the same index, so there is no
  blending at all (`EvaluateNonPositive`). For `|x| >= 1/200`, `getValue` is
  thus odd on the sample grid (`EvaluateOddOnGrid`), and off it
  `getValue(x) + getValue(-x)` is the blended part of the gap between the two
  samples (`EvaluateNearlyOdd`).
- Near 0 the mirroring is lost. For `-1/200 < x <= 0` both casts give index
  0, which is not negative and so is not negated: `getValue(x)` is `+data[0]`
  (`EvaluateNearZero`). When `data[0] != 0`, `getValue` is not odd at 0 and
  near it. This can happen only when the first point lies below `x = 1/200`:
  otherwise the ramp puts 0 at index 0 (`RampValues`), and the mirroring
  near 0 is harmless.
- The table covers the index `(int)(200 * last.x)` but its last sample can be
  taken up to one step before the last knot: with knots at 0 and 0.999 the
  200th and last entry is sampled at 0.995 (`TableEndsShort`). For such a
  curve no entry is at or beyond the last knot, and the value `getValue`
  clamps to beyond the table can differ from `last.y`.
- The main loop of `reload` samples at `first.x + (k - K0) / 200`, where
  `K0 = (int)(200 * first.x)`, not at `k / 200`. Each sample therefore sits up
  to one step right of `k / 200` (`SampleOffset`).
- With several points at the same `x`, the window stops after the last of
  them. A sample at that `x` therefore takes the last one's `y`
  (`KnotReproduced`).

## Model

| member | source | states |
|---|---|---|
| `Numeric.Trunc` | QFunctionConfigurator/FunctionConfig.cpp:49 | the `(int)` cast: the result has the sign of its argument and lies within 1 of it, toward zero |
| `Numeric.Ceil` | QFunctionConfigurator/FunctionConfig.cpp:50 | `ceil`: the least integer not below the argument |
| `Numeric.Neg32` | QFunctionConfigurator/FunctionConfig.cpp:78-80 | the negation `getValueInternal` applies to a negative index: `-n` for every 32-bit `n` except `INT_MIN`, which stays negative (the two's-complement choice for the overflow) |
| `Numeric.TruncCeilAgree` | QFunctionConfigurator/FunctionConfig.cpp:49-50 | both casts give the same index for a whole or non-positive argument |
| `Points.SortFn` | QFunctionConfigurator/FunctionConfig.cpp:104-106 | the comparator: `one` sorts before `two` exactly when its `x` is strictly smaller |
| `Points.SortByX` | QFunctionConfigurator/FunctionConfig.cpp:114-115 | the list `qStableSort` with `sortFn` produces, built by stable insertion; it has as many points as its input (sorted, permuted and stable by the lemmas below) |
| `Points.SortSorted` | QFunctionConfigurator/FunctionConfig.cpp:114-115 | after the sort the points are ascending by `x` |
| `Points.SortPermutes` | QFunctionConfigurator/FunctionConfig.cpp:114-115 | the sort keeps exactly the same multiset of points |
| `Points.SortStable` | QFunctionConfigurator/FunctionConfig.cpp:104-115 | for every `x`, the points with that `x` keep their relative order (the sort is stable with comparator `one.x < two.x`) |
| `Points.StableSortUnique` | QFunctionConfigurator/FunctionConfig.cpp:104-115 | any sorted rearrangement that keeps every equal-`x` run is the sort's result |
| `Points.SortedFixpoint` | QFunctionConfigurator/FunctionConfig.cpp:114-115 | sorting an already sorted list leaves it unchanged |
| `Points.SortIdempotent` | QFunctionConfigurator/FunctionConfig.cpp:114-115 | sorting twice is sorting once |
| `Points.RemoveKeepsSorted` | QFunctionConfigurator/FunctionConfig.cpp:165 | deleting one point from a sorted list leaves it sorted |
| `Points.ReplacePermutes` | QFunctionConfigurator/FunctionConfig.cpp:187 | replacing point `idx` removes exactly that point from the multiset and adds the new one |
| `Memo.EnsureInBounds` | QFunctionConfigurator/FunctionConfig.cpp:95-102 | `(0,0)` for an empty list or a negative index, `points[i]` in range, the last point above the range |
| `Memo.Param` | QFunctionConfigurator/FunctionConfig.cpp:143 | the spline parameter `t`: 0 when `b.x == c.x`, otherwise `(i - b.x) / (c.x - b.x)` |
| `Memo.Blend` | QFunctionConfigurator/FunctionConfig.cpp:144-147 | the Catmull-Rom blend of the four ordinates `a`, `b`, `c`, `d` at `t`, with the source's polynomial weights and factor `0.5` |
| `Memo.SampleInWindow` | QFunctionConfigurator/FunctionConfig.cpp:135-147 | the value written for position `i` with the pointer at `j`: the blend of the points `ensureInBounds` gives at `j-2`, `j-1`, `j`, `j+1`, at the parameter of `j-1` and `j` |
| `Memo.Window` | QFunctionConfigurator/FunctionConfig.cpp:133-134 | the `while` stops at the first index at or after its start whose point lies right of `i`, or at `|points|`; everything it passed lies at or left of `i` |
| `Memo.WindowSkip` | QFunctionConfigurator/FunctionConfig.cpp:127-134 | resuming the `while` anywhere before its stopping point gives the same stopping point, so keeping `j` across iterations is sound |
| `Memo.WindowMono` | QFunctionConfigurator/FunctionConfig.cpp:129-134 | a larger position never stops the pointer earlier |
| `Memo.WindowExact` | QFunctionConfigurator/FunctionConfig.cpp:133-134 | the pointer stops at `w` when all points before `w` lie at or left of `i` and `points[w]` lies right of it |
| `Memo.WindowBrackets` | QFunctionConfigurator/FunctionConfig.cpp:129-138 | in the main loop `1 <= j <= |points|` and `points[j-1].x <= i`, and either `j == |points|` or `i < points[j].x` |
| `Memo.TableSize` | QFunctionConfigurator/FunctionConfig.cpp:112-121 | `_size`: 0 without points, else `200 * ((int)last.x + 1)` |
| `Memo.TableCoversLast` | QFunctionConfigurator/FunctionConfig.cpp:121 | the size is a whole number of 200-sample units, and for a non-negative last point it is at least 200 and exceeds `200 * last.x`, so the index `(int)(200 * last.x)` of the last point lies inside the table |
| `Memo.TableEndsShort` | QFunctionConfigurator/FunctionConfig.cpp:121-131 | for knots at 0 and 0.999 the table has 200 entries and its last entry is sampled at 0.995, short of the last knot |
| `Memo.RampEnd` | QFunctionConfigurator/FunctionConfig.cpp:123-129 | `K0 = (int)(first.x * 200)`, the bound of the ramp loop and the start of the main loop |
| `Memo.SamplePos` | QFunctionConfigurator/FunctionConfig.cpp:129-131 | the `i` of the main loop at index `k`: `first.x + (k - K0) / 200`, starting at `first.x` and stepping exactly `1/200` |
| `Memo.Sample` | QFunctionConfigurator/FunctionConfig.cpp:123-148 | the value stored at index `k`: `first.y * k / K0` below `K0`, else the window blend at `SamplePos(k)` with the pointer at `Window(SamplePos(k), 1)` |
| `Memo.Table` | QFunctionConfigurator/FunctionConfig.cpp:120-149 | the table `reload` builds has `TableSize(points)` entries |
| `Memo.TableShape` | QFunctionConfigurator/FunctionConfig.cpp:112-131 | size is `200 * (trunc(last.x) + 1)` and the first main-loop index `K0 = trunc(200 * first.x)` satisfies `0 <= K0 < size`, so the two loops write exactly the indices `0..size-1` |
| `Memo.EmptyTable` | QFunctionConfigurator/FunctionConfig.cpp:112-120 | no points give the empty table |
| `Memo.SortWellFormed` | QFunctionConfigurator/FunctionConfig.cpp:114-115 | sorting non-negative points gives a sorted, non-negative list |
| `Memo.RampValues` | QFunctionConfigurator/FunctionConfig.cpp:123-125 | below `K0` the table is `first.y * k / K0`, which is 0 at index 0 |
| `Memo.SampleOffset` | QFunctionConfigurator/FunctionConfig.cpp:129-131 | the main-loop position for index `k` lies in `[k/200, (k+1)/200)` |
| `Memo.BlendAtZero` | QFunctionConfigurator/FunctionConfig.cpp:144-147 | at `t = 0` the Catmull-Rom weights are `(0, 1, 0, 0)` |
| `Memo.SampleAtLeftPoint` | QFunctionConfigurator/FunctionConfig.cpp:135-148 | a sample taken at `b.x` equals `b.y`: `t` is 0 both when `c.x == b.x` and when `i == b.x` |
| `Memo.KnotReproduced` | QFunctionConfigurator/FunctionConfig.cpp:133-148 | the table entry whose position equals a knot's `x` holds that knot's `y`, when no later knot shares the `x` |
| `Memo.KnotOnGrid` | QFunctionConfigurator/FunctionConfig.cpp:129-148 | a knot a whole number `d` of 1/200 steps right of the first point is reproduced at index `K0 + d`, which lies inside the table |
| `Memo.FlatBeyondLast` | QFunctionConfigurator/FunctionConfig.cpp:133-148 | every entry whose position is at or beyond the last knot equals the last knot's `y` |
| `Memo.ReloadIdempotent` | QFunctionConfigurator/FunctionConfig.cpp:108-151 | rebuilding from the rebuilt list gives the same list and the same table |
| `Memo.Lookup` | QFunctionConfigurator/FunctionConfig.cpp:77-93 | `getValueInternal` on a table: the sign of the index times the entry at its 32-bit magnitude, 0 for an empty table or a magnitude that stays negative, the last entry at or beyond the end |
| `Memo.Evaluate` | QFunctionConfigurator/FunctionConfig.cpp:48-56 | `getValue` on a table: the lookups at `(int)(200x)` and `ceil(200x)` blended by `x - (int)x` |
| `Memo.LookupCases` | QFunctionConfigurator/FunctionConfig.cpp:82-91 | `getValueInternal` gives 0 for an empty table, `data[idx]` inside it, and `data[size-1]` at or above `size` |
| `Memo.LookupOdd` | QFunctionConfigurator/FunctionConfig.cpp:78-92 | for `0 < n`, `getValueInternal(-n) == -getValueInternal(n)` |
| `Memo.LookupMinInt` | QFunctionConfigurator/FunctionConfig.cpp:78-87 | with the two's-complement result the model takes for the undefined `-INT_MIN`, `INT_MIN` negates to itself, takes the `idx < 0` branch and reads as 0 |
| `Memo.EvaluateEmpty` | QFunctionConfigurator/FunctionConfig.cpp:48-56 | with no points every evaluation is 0 |
| `Memo.EvaluateBetween` | QFunctionConfigurator/FunctionConfig.cpp:49-56 | for `x >= 0` the result lies between the samples at `trunc(200x)` and `ceil(200x)` |
| `Memo.EvaluateNonPositive` | QFunctionConfigurator/FunctionConfig.cpp:49-56 | for `x <= 0` the result is the single mirrored sample at `trunc(200x)` |
| `Memo.EvaluateOnGrid` | QFunctionConfigurator/FunctionConfig.cpp:49-56 | when `200x` is a whole number `n`, the result is the lookup at `n` |
| `Memo.EvaluateOddOnGrid` | QFunctionConfigurator/FunctionConfig.cpp:48-56 | on the sample grid and for `|x| >= 1/200` (`200x` a whole `n > 0`), `getValue(-x) == -getValue(x)` |
| `Memo.EvaluateNearZero` | QFunctionConfigurator/FunctionConfig.cpp:48-93 | for `-1/200 < x <= 0` both casts give index 0, which is not mirrored: the result is `data[0]` with its own sign (0 for an empty table) |
| `Memo.EvaluateNearlyOdd` | QFunctionConfigurator/FunctionConfig.cpp:48-93 | for `x >= 1/200`, `getValue(-x)` is minus the lower sample, and `getValue(x) + getValue(-x)` lies between 0 and the gap between the two samples |
| `Memo.EvaluateClamped` | QFunctionConfigurator/FunctionConfig.cpp:88-91 | at or beyond `size / 200` the result is the last sample |
| `Memo.TwoPointCurve` | QFunctionConfigurator/FunctionConfig.cpp:108-151 | for the points (20,80) and (40,160) the table has 8200 entries, and evaluation gives 80 at 20, 160 at 40, 0 at 0 and 160 at 60 |
| `Settings.PointCount` | QFunctionConfigurator/FunctionConfig.cpp:217 | the number of points read: `point-count` as an integer, 2 when the key is absent |
| `Settings.LoadedPoint` | QFunctionConfigurator/FunctionConfig.cpp:219-220 | point `i` as read: `point-<i>-x` and `point-<i>-y` as doubles, with defaults `(i+1)*20` and `(i+1)*80` |
| `Settings.Loaded` | QFunctionConfigurator/FunctionConfig.cpp:217-221 | `loadSettings` reads `point-count` points (2 when absent, none when negative), each with defaults `(i+1)*20` and `(i+1)*80` |
| `Settings.SavePairs` | QFunctionConfigurator/FunctionConfig.cpp:239-242 | the pair writes of the loop from index `i` on: `point-<m>-x` and `point-<m>-y` set to point `m`'s coordinates for each `m >= i` |
| `Settings.Saved` | QFunctionConfigurator/FunctionConfig.cpp:237-242 | the store after `saveSettings`: `point-count` set to the number of points, then every pair written |
| `Settings.SavedLookup` | QFunctionConfigurator/FunctionConfig.cpp:237-242 | after `saveSettings`, `point-count` holds `|points|`, every pair holds its point, and no other key changes |
| `Settings.SaveLoadRoundTrip` | QFunctionConfigurator/FunctionConfig.cpp:210-245 | loading what was just saved gives the same point list, whatever the store held before |
| `Settings.DefaultCurve` | QFunctionConfigurator/FunctionConfig.cpp:217-220 | an empty store loads the two points (20,80) and (40,160) |
| `FunctionConfigModel.FunctionConfig.Valid` | QFunctionConfigurator/FunctionConfig.h:24-31 | the invariant the fields keep between calls: the points sorted and non-negative, `_data` null exactly when there are no points, `_size` the table size, and `_data` holding exactly `Table(points)` |
| `FunctionConfigModel.FunctionConfig.constructor` | QFunctionConfigurator/FunctionConfig.cpp:19-33 | sets the title, the sorted points and their table, the last point `(0,0)` and tracking off |
| `FunctionConfigModel.FunctionConfig.Titled` | QFunctionConfigurator/FunctionConfig.cpp:38-41 | no points, a null table of size 0, and the settings are not read |
| `FunctionConfigModel.FunctionConfig.Reload` | QFunctionConfigurator/FunctionConfig.cpp:108-151 | the points become their stable sort, and a fresh table equal to `Table(points)` replaces the old one (null when there are no points) |
| `FunctionConfigModel.NewTable` | QFunctionConfigurator/FunctionConfig.cpp:120-149 | the array `reload` allocates has `200 * (trunc(last.x) + 1)` entries and ends up holding exactly `Table(points)` |
| `FunctionConfigModel.FillRamp` | QFunctionConfigurator/FunctionConfig.cpp:123-125 | the first loop writes the ramp samples at every index below `K0` |
| `FunctionConfigModel.FillCurve` | QFunctionConfigurator/FunctionConfig.cpp:127-149 | the main loop, with its exact `1/200` step and the pointer `j` carried across iterations, writes `Sample(points, k)` at every index from `K0` to `size-1` and leaves the ramp alone |
| `FunctionConfigModel.AdvanceWindow` | QFunctionConfigurator/FunctionConfig.cpp:133-134 | the inner `while`, resumed at the previous sample's `j`, stops exactly where `Window(points, i, 1)` stops |
| `FunctionConfigModel.FunctionConfig.ValueInternal` | QFunctionConfigurator/FunctionConfig.cpp:77-93 | reading the array (null, size 0, out of range) gives `Lookup(Table(points), x)` |
| `FunctionConfigModel.FunctionConfig.GetValue` | QFunctionConfigurator/FunctionConfig.cpp:48-63 | returns the blend of the lookups at `trunc(200x)` and `ceil(200x)` by `x - trunc(x)`, records `(x, ret)`, and changes nothing else |
| `FunctionConfigModel.FunctionConfig.GetLastPoint` | QFunctionConfigurator/FunctionConfig.cpp:68-75 | returns the recorded point and the tracking flag, changing nothing |
| `FunctionConfigModel.FunctionConfig.SetTrackingActive` | QFunctionConfigurator/FunctionConfig.h:56-58 | only the tracking flag changes |
| `FunctionConfigModel.FunctionConfig.GetTitle` | QFunctionConfigurator/FunctionConfig.h:59 | the title given at construction; it is a `const` field, so no method can change it |
| `FunctionConfigModel.FunctionConfig.RemovePoint` | QFunctionConfigurator/FunctionConfig.cpp:163-168 | for a valid index, exactly the `i`-th point is removed, the rest keep their order, and the table is rebuilt |
| `FunctionConfigModel.FunctionConfig.AddPoint` | QFunctionConfigurator/FunctionConfig.cpp:174-179 | the points become the stable sort of the old list plus `pt`, the multiset grows by exactly `pt`, and the table is rebuilt |
| `FunctionConfigModel.FunctionConfig.MovePoint` | QFunctionConfigurator/FunctionConfig.cpp:185-190 | for a valid index, exactly that point is replaced by `pt`, the list is re-sorted, and the table is rebuilt |
| `FunctionConfigModel.FunctionConfig.GetPoints` | QFunctionConfigurator/FunctionConfig.cpp:196-204 | the copy built element by element equals the current points; nothing changes |
| `FunctionConfigModel.FunctionConfig.LoadSettings` | QFunctionConfigurator/FunctionConfig.cpp:210-227 | the points become the stable sort of the list read from the store, and the table is rebuilt |
| `FunctionConfigModel.FunctionConfig.SaveSettings` | QFunctionConfigurator/FunctionConfig.cpp:234-245 | the store written is `Saved(settings, points)`, and the object does not change |
| `FunctionConfigModel.TrackedValue` | QFunctionConfigurator/FunctionConfig.cpp:19-75 | a curve built from any non-negative points answers `getValue` from the table of its sorted points, and with tracking on `getLastPoint` reports that input and output |
| `FunctionConfigModel.SaveEditLoad` | QFunctionConfigurator/FunctionConfig.cpp:163-245 | saving a curve, removing any one of its points and loading the saved settings back restores the sorted curve |

## Left out

- The Win32 mutex (`CreateMutex`, `WaitForSingleObject`, `ReleaseMutex`, `CloseHandle`) is left out. Each public method is one atomic step, so no interleaving is modelled.
- The destructor and `delete _data` are memory management. Rebuilding allocates a fresh array (`fresh(data)`); freeing the old one is not modelled.
- `SharedInitialize` is folded into both constructors, because Dafny initialises fields in the constructor body. Its effect is stated in their contracts.
- Floating point is left out. `MEMOIZE_PRECISION` is the float `200.0f`, the loop step `1.0f / 200` is a rounded float added to a double, and all coordinates are doubles. The model uses exact reals and proves nothing about rounding.
- 32-bit overflow in `reload` is left out: `_size` and `(int)(first.x * 200)` are unbounded integers in the model. `GetValue` requires both casts of `200 * x` to fit an `int`, where C++ leaves them undefined otherwise. `getValueInternal` does take a 32-bit index.
- `-INT_MIN` in `getValueInternal` is a signed overflow, which C++ leaves undefined: a compiler may assume `idx` is never negative after the negation, drop the `idx < 0` test and read `_data[INT_MIN]`. The model instead takes the two's-complement result, so `Neg32(INT_MIN)` is `INT_MIN`, the `idx < 0` branch is taken and the value is 0 (`LookupMinInt`). This is one choice for undefined behaviour, not what the source guarantees.
- Negative abscissas are excluded: `Reload` and its callers require `x >= 0` for every point. This is stronger than the source needs. The main loop starts at `(int)(200 * first.x)`, which is negative, so that `_data` is written at a negative index (undefined behaviour), only when `first.x <= -1/200`; for `first.x` in `(-1/200, 0)` it truncates to 0 and the loop is well defined. Likewise `_size` is `200 * ((int)last.x + 1)`, positive for every `last.x > -1`. The model therefore also leaves out the well-defined curves whose first point lies in `(-1/200, 0)`.
- The settings group name `Curves-<title>` and the key spellings are left out. Only which key holds what is modelled. `loadSettings` reading the store outside the lock is irrelevant once methods are atomic.
- `ToInt` of a double stored under `point-count` truncates. QVariant's own conversion rule is not modelled; `saveSettings` only ever writes an integer there.
- Memo.KnotReproduced: the knot property holds only when a main-loop position equals the knot's `x` exactly, as for a knot on the 1/200 grid counted from the first point (`KnotOnGrid`). Other knots are reproduced only approximately, and this is not stated.
- FaceTrackNoIR/FTNoIR_cxx_protocolserver.h is not part of this model: it holds float fields of the protocol layer that feeds the curve.
