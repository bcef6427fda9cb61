# Spirograph state machine

A model of the integer state machine in `spiro.py`. That program draws
spirographs (hypotrochoids) with turtle graphics.

- A `Spiro` traces one curve. Its angle `a` starts at 0 and moves forward by
  `step = 5` degrees per timer tick. The drawing is complete once `a` reaches
  `360 * nRot`.
- `nRot` is the inner radius divided by the greatest common divisor of the
  two radii. It is the smallest number of turns after which the curve
  returns to where it started.
- A `SpiroAnimator` ticks all of its spiros together. Once every one of them
  is complete, it relaunches each with new random parameters.
- `toggleTurtles` shows each hidden turtle cursor and hides each shown one.

Files:

- `fractions.dfy` (module `Fractions`): Euclid's algorithm, as Python's
  `fractions._gcd` runs it, with proofs that it gives the greatest common
  divisor.
- `spiro.dfy` (module `Spirograph`): the state of a spiro as a datatype, and
  pure functions for one tick (`Tick`), one group tick (`AnimatorTick`), a
  launch (`Initial`) and a toggle (`ToggleAll`). It also holds the classes
  `Spiro` and `SpiroAnimator`. Their methods update their fields in place and
  are proved against those functions.
- `findings.dfy` (module `SpiroFindings`): the three places where the program
  as written cannot do what it evidently means to (see Findings).

## Model

| member | source | states |
|---|---|---|
| Fractions.Gcd | spiro.py:37 | Euclid's algorithm on the remainder, step for step as `_gcd` runs it; positive when either argument is; `GcdDivisors` and `GcdIsGreatest` prove it is the greatest common divisor |
| Fractions.GcdDivisors | spiro.py:37 | the GCD of two naturals, not both zero, is positive, and its divisors are exactly the common divisors of the two |
| Fractions.GcdIsGreatest | spiro.py:37 | the GCD divides both arguments, and no common divisor is larger than it |
| Fractions.GcdScale | spiro.py:37 | scaling both arguments by `n > 0` scales their GCD by `n` |
| Fractions.FloorDivIsDiv | spiro.py:38 | the recursive floor division equals `x // y` for naturals |
| Fractions.FloorModIsMod | spiro.py:37 | the recursive remainder equals `x % y` for naturals, as Euclid's step uses it |
| Spirograph.ReducedRotations | spiro.py:36-38 | `nRot` is `r // gcd(r, R)`; what it means is proved in `ReducedRotationsFactor` and `ReducedRotationsClose` |
| Spirograph.ReducedRotationsFactor | spiro.py:36-38 | `nRot >= 1`, `nRot * gcd(r, R) == r` exactly, and the GCD also divides `R` |
| Spirograph.ReducedRotationsClose | spiro.py:36-38 | `nRot` divides `r`, `nRot` turns close the curve, and every number of turns that closes it is a multiple of `nRot` (so `nRot` is the least) |
| Spirograph.ClosingTurnsAreMultiples | spiro.py:36-38 | any positive number of turns after which the curve closes is a multiple of `nRot` |
| Spirograph.WithParams | spiro.py:29-43 | the state `setparams` leaves: new centre and radii, `nRot` recomputed, angle 0, flags untouched; `RelaunchIsInitial` shows what it gives when `restart` follows |
| Spirograph.Restarted | spiro.py:45-47 | the state `restart` leaves: not complete, turtle shown, angle kept; `RestartAloneRecompletes` shows the consequence of keeping the angle |
| Spirograph.Initial | spiro.py:13-27 | the state of a spiro just made with given parameters; `RelaunchIsInitial` proves it is what `setparams` then `restart` give from any state, and that it is well formed |
| Spirograph.RelaunchIsInitial | spiro.py:106-111 | `setparams` followed by `restart` leaves a spiro at angle 0, not complete, shown, with `nRot` recomputed, whatever its old state; that state is well formed |
| Spirograph.Tick | spiro.py:67-79 | one `update` of a spiro; its meaning is `TickSpec` |
| Spirograph.TickSpec | spiro.py:67-79 | a complete spiro is left unchanged; an incomplete one moves forward exactly one step and becomes complete exactly when the angle reaches `360 * nRot`; parameters are kept, completion is sticky, and well-formedness and the completion invariant are preserved |
| Spirograph.Ticks | spiro.py:67-79 | `n` updates in a row; `TicksFromStart`, `TicksAdd` and `CompletesAfterFullTurns` say where they lead |
| Spirograph.TicksFromStart | spiro.py:67-79 | from angle 0, after `m <= 72 * nRot` ticks the angle is `5 * m`, and the spiro is complete exactly when `m == 72 * nRot` |
| Spirograph.CompleteIsFinal | spiro.py:67-69 | once complete, any number of further ticks changes nothing |
| Spirograph.TicksAdd | spiro.py:67-79 | `m` ticks followed by `n` ticks are `m + n` ticks |
| Spirograph.CompletesAfterFullTurns | spiro.py:67-79 | a newly launched spiro is complete after `n` ticks exactly when `n >= 72 * nRot`; from then on its angle is exactly `360 * nRot` |
| Spirograph.RestartAloneRecompletes | spiro.py:45-46 | `restart` on its own clears the flag but keeps the angle, so a complete spiro is complete again after one tick |
| Spirograph.PyRange | spiro.py:59 | Python's `range(start, stop, step)` for a positive step; `PyRangeLength` and `PyRangeAt` give its length and its elements |
| Spirograph.PyRangeLength | spiro.py:59 | `range(start, stop, step)` holds `ceil((stop - start) / step)` values, or none when `start >= stop` |
| Spirograph.PyRangeAt | spiro.py:59 | the `k`-th value of the range is `start + k * step` |
| Spirograph.DrawAngles | spiro.py:57-65 | `draw` visits `72 * nRot + 1` angles, strictly increasing, from 0 to exactly `360 * nRot` |
| Spirograph.RangeValues | spiro.py:59 | the `for` loop of `draw` visits exactly the values of `range(start, stop, step)`, in order |
| Spirograph.RandInt | spiro.py:98-102 | `randint(lo, hi)` gives a value exactly when `lo <= hi`, and that value lies in `[lo, hi]` |
| Spirograph.RandIntReachesAll | spiro.py:98-102 | every value in `[lo, hi]` is produced by some draw |
| Spirograph.GenRandomParams | spiro.py:96-104 | parameters are produced exactly when `min(width, height) // 2 >= 50`; they then satisfy `50 <= R <= min(width, height) // 2`, `10 <= r <= 9 * R // 10`, and the centre lies within `[-width // 2, width // 2]` by `[-height // 2, height // 2]` |
| Spirograph.GenRandomParamsReachesAll | spiro.py:96-104 | every parameter set within those bounds can be drawn |
| Spirograph.BoundedParamsAreValid | spiro.py:98-99 | parameters within the bounds have `0 < r < R`, so `setparams` may take them |
| Spirograph.TickAll | spiro.py:114-116 | every spiro of the group takes its own `update`; used by `AnimatorTickSpec` |
| Spirograph.InitialAll | spiro.py:106-111 | every spiro of the group relaunched with its own parameters; `InitialAllInvariant` proves the result satisfies the group invariant |
| Spirograph.Toggled | spiro.py:127-131 | one spiro's turtle shown if hidden and hidden if shown |
| Spirograph.ToggleAll | spiro.py:126-131 | `Toggled` for every spiro of the group; its meaning is `ToggleAllSpec` |
| Spirograph.CountCompleteIn | spiro.py:114-118 | the `nComplete` counter after the loop has seen `n` spiros; its meaning is `CountCompleteInAll` |
| Spirograph.CountComplete | spiro.py:114-121 | the `nComplete` counter after the whole loop; its meaning is `CountCompleteAll` |
| Spirograph.CountCompleteInAll | spiro.py:114-118 | once the loop has seen `n` spiros the counter is at most `n`, and it equals `n` exactly when each of them is complete |
| Spirograph.CountCompleteAll | spiro.py:114-121 | the count never exceeds the number of spiros, and equals it exactly when every spiro is complete |
| Spirograph.AnimatorTick | spiro.py:113-122 | a group tick keeps the number of spiros |
| Spirograph.AnimatorTickSpec | spiro.py:113-122 | the group restarts exactly when every spiro is complete after its tick; after a restart each spiro is at its new initial state (angle 0, not complete, shown); otherwise each spiro has had exactly its own tick |
| Spirograph.ToggleAllSpec | spiro.py:126-131 | toggling flips each visibility flag, changes nothing else, and toggling twice restores the states |
| Spirograph.InitialAllInvariant | spiro.py:86-93 | a group launched with positive radii satisfies the group invariant: every spiro is well formed (positive radii, reduced `nRot`, angle a non-negative multiple of the step) and none is marked complete before its angle reaches `360 * nRot` |
| Spirograph.GroupOperationsKeepInvariant | spiro.py:113-131 | ticking every spiro and toggling every turtle keep the group invariant |
| Spirograph.AnimatorTickKeepsInvariant | spiro.py:113-122 | a group tick keeps the group invariant, whether or not it restarts |
| Spirograph.TickAndCount | spiro.py:115-118 | the body of `update`'s loop: the spiro takes exactly its tick, the other spiros are untouched, and the counter goes up by one exactly when that spiro is now complete |
| Spirograph.TickList | spiro.py:114-118 | `update`'s loop: every spiro takes exactly its tick, and the result is the number of spiros that are complete afterwards |
| Spirograph.Spiro.constructor | spiro.py:13-27 | a new spiro is in the initial state for its parameters: angle 0, not complete, shown, `nRot` reduced; it is well formed and not wrongly marked complete |
| Spirograph.Spiro.SetParams | spiro.py:29-43 | stores the centre and radii, sets `nRot` to `r // gcd(r, R)`, resets the angle to 0, and leaves the flags alone; the spiro is then well formed |
| Spirograph.Spiro.Restart | spiro.py:45-55 | clears the completion flag and shows the turtle; nothing else changes, and the spiro stays well formed |
| Spirograph.Spiro.Update | spiro.py:67-79 | the new state is exactly `Tick` of the old one (see `TickSpec`), and the spiro stays well formed |
| Spirograph.Spiro.Draw | spiro.py:57-65 | returns the angles `range(0, 360 * nRot + 1, step)`: `72 * nRot + 1` of them, strictly increasing, from 0 to exactly `360 * nRot`; hides the turtle and changes nothing else |
| Spirograph.Spiro.ToggleTurtle | spiro.py:127-131 | flips the visibility flag and changes nothing else, and the spiro stays well formed |
| Spirograph.SpiroAnimator.constructor | spiro.py:82-93 | makes one fresh, distinct spiro per parameter set, each in its initial state; the group invariant holds |
| Spirograph.SpiroAnimator.Restart | spiro.py:106-111 | every spiro is relaunched in the initial state for its new parameters, and the group invariant holds |
| Spirograph.SpiroAnimator.Update | spiro.py:113-122 | the new states are exactly `AnimatorTick` of the old ones (see `AnimatorTickSpec`), and the group invariant is kept |
| Spirograph.SpiroAnimator.TickEach | spiro.py:114-118 | ticks every spiro once (the new states are `TickAll` of the old ones), and the returned count is the number of complete spiros afterwards |
| Spirograph.SpiroAnimator.ToggleTurtles | spiro.py:126-131 | the new states are exactly `ToggleAll` of the old ones, and the group invariant is kept |
| SpiroFindings.RestartAsWritten | spiro.py:105-111 | the group restart as written: it returns only for an empty group and otherwise raises `AttributeError` at its first `spiro.clear()` |
| SpiroFindings.RestartAsWrittenFails | spiro.py:108 | the group restart as written raises `AttributeError` for any non-empty group |
| SpiroFindings.UpdateAsWritten | spiro.py:113-124 | the group update as written: tick, count, restart as written when every spiro is complete, then call itself again for `turtle.ontimer`'s argument, with a budget of nested calls |
| SpiroFindings.UpdateAsWrittenNeverReturns | spiro.py:124 | whatever the recursion limit, the group update as written never returns normally: it raises `RecursionError`, or `AttributeError` in the restart if every spiro completes first |
| SpiroFindings.OneSpiroAsWritten | spiro.py:113-124 | for a group of one spiro that is `k` ticks into its drawing, the update as written raises `AttributeError` exactly when the recursion limit leaves room for the remaining `72 * nRot - k` ticks, and `RecursionError` otherwise |
| SpiroFindings.InitAsWritten | spiro.py:87-93 | the animator constructor as written: after making the first spiro it runs the update as written on that spiro alone |
| SpiroFindings.InitAsWrittenFails | spiro.py:94 | the animator constructor as written, with at least one spiro, never finishes: it raises `AttributeError` if the recursion limit allows the first spiro's `72 * nRot` ticks, and `RecursionError` otherwise |

## Left out

- The curve's coordinates, the ratios `k` and `l`, and the colour: these are
  floating-point trigonometry and rendering. Only the integer angle is
  modelled, and `Draw` returns the angles it visits instead of moving a turtle.
- The turtle itself. It is reduced to its visibility flag: `showturtle` sets
  it, `hideturtle` clears it, and `isvisible` reads it. Pen up/down,
  `setpos` and `clear` are not modelled.
- The timer. `turtle.ontimer` and `deltaT` are left out, so each call of
  `SpiroAnimator.Update` is one tick.
- Randomness. The draws of `random.randint` are inputs (`RandInt`'s `draw`,
  the `Draws` datatype). The animator's constructor, `Restart` and `Update`
  take the drawn parameters `ps`, which must lie within `genRandomParams`'s
  bounds. `Update` uses them only when the group restarts.
  `random.uniform` and `random.random` draw `l` and the colour, which are not
  modelled.
- `turtle.window_width()` and `turtle.window_height()` become the
  constructor's `width` and `height` parameters.
- `saveDrawing`, the key handler, the command-line parsing in `main`, and
  `int()` truncation of non-integer radii: these are I/O and argument
  parsing. Radii are integers here.
- Radii that are zero or negative. `genRandomParams` only draws `R >= 50`
  and `r >= 10`, but the command-line path can pass zero or negative radii to
  `Spiro` (`r = 0` gives `nRot = 0`, a negative `r` a negative `nRot`). The
  model excludes them: `SetParams` and the `Spiro` constructor require
  `R > 0 && r > 0`, and `ReducedRotations` gives 0 as a placeholder for
  other radii.
- The playlist script `解析itunes播放列表.py` is not part of this model.
- The remainder in Euclid's algorithm and the floor division that gives
  `nRot` are written as repeated subtraction (`FloorMod`, `FloorDiv`).
  `FloorModIsMod` and `FloorDivIsDiv` prove they give the same numbers as
  `%` and `//`.

## Findings

| source | as written | input that shows it | evidently intended | confidence | as-written member | corrected member |
|---|---|---|---|---|---|---|
| spiro.py:124 | `turtle.ontimer(self.update(), self.deltaT)` calls `update` right away to compute the callback argument, so `update` never returns normally: it recurses until Python raises `RecursionError`, or, if every spiro completes first, the restart raises `AttributeError` at spiro.py:108 | any call of `SpiroAnimator.update` | pass the method itself, `turtle.ontimer(self.update, self.deltaT)`, so each tick runs once and schedules the next | not executed | SpiroFindings.UpdateAsWrittenNeverReturns | Spirograph.SpiroAnimator.Update |
| spiro.py:94 | the constructor makes the same eager `self.update()` call inside its loop, right after creating the first spiro, so it never finishes: `RecursionError`, or `AttributeError` at spiro.py:108 when the first spiro's `72 * nRot` ticks fit within the recursion limit | `SpiroAnimator(1)`, or any `N >= 1` | create all `N` spiros, then schedule `self.update` once | not executed | SpiroFindings.InitAsWrittenFails | Spirograph.SpiroAnimator.constructor |
| spiro.py:108 | `spiro.clear()` calls a method `Spiro` does not have, so the first iteration raises `AttributeError` | a restart of any non-empty group, which `update` triggers once every spiro is complete | clear the spiro's turtle drawing (`spiro.t.clear()`), then set new parameters and restart | not executed | SpiroFindings.RestartAsWrittenFails | Spirograph.SpiroAnimator.Restart |
