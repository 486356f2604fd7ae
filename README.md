# Flickity animation core in Dafny

This project models the animation part of a Flickity slider, `js/animate.js`.
It has four modules. It covers the horizontal axis only.

- **Physics**: the motion state as a value and the meaning of each step as a pure function.
  - The steps are the drag force, the selected-slide attraction, the Euler integrator with its friction factor, the predicted resting position and the settle detector.
  - It also defines a whole `animate` tick, `startAnimation`, and the frame loop that repeats the tick while the slider is animating.
  - It proves the loop's stopping behaviour.
- **Wrap**: the arithmetic of `positionSlider`.
  - It defines the wrap-around normalisation `modulo(x, w) - w` and the shift `_shiftCells` gives each boundary cell.
  - It also defines the render offset, which adds the cursor and mirrors for right-to-left, and the number `getPositionValue` renders.
- **Numerics**: `Math.round`, the floored modulo of the utility library (defined by its contract), and prefix sums of cell widths.
- **Animation**: the class `Flickity`.
  - Its fields are the ones the tick updates in place: position, velocity, the resting-frame counter and the mode flags.
  - The wrapped cells' shifts are arrays.
  - Its methods do what the JavaScript methods do, statement by statement. Each is specified by its new state being the Physics (or Wrap) function applied to the old state.
  - `RunFrames` stands in for the `requestAnimationFrame` chain. It runs ticks while each one asks for another frame, up to a frame budget.

Numbers are `real` (exact). `Math.round(v)` is `floor(v + 0.5)`.

## Model

| member | source | states |
|---|---|---|
| Physics.ApplyForce | js/animate.js:237-239 | the velocity grows by exactly the force; nothing else changes |
| Physics.ApplyForceAdditive | js/animate.js:237-239 | two forces in one tick add, in either order |
| Physics.ApplyDragForce | js/animate.js:254-267 | pointer up: no change; pointer down: the velocity becomes `dragX - x` whatever it was; only the velocity changes |
| Physics.ApplySelectedAttraction | js/animate.js:269-283 | no change if the pointer is down, free scrolling is on or there are no cells; otherwise only the velocity changes, and with a positive coefficient it rises iff `x < -target` and falls iff `x > -target` |
| Physics.AttractionForce | js/animate.js:274-282 | the force is `(-target - x) * selectedAttraction` |
| Physics.AttractionSignExample | js/animate.js:274-282 | target 200 at position -150 gives force `-50 * selectedAttraction` < 0 |
| Physics.FrictionFactor | js/animate.js:241-243 | one minus the coefficient of the current mode (free-scroll or normal); strictly between 0 and 1 when both coefficients are |
| Physics.IntegratePhysics | js/animate.js:228-235 | the position advances by the old velocity; only position and velocity change |
| Physics.IntegrationDecaysVelocity | js/animate.js:228-235 | with coefficients in (0, 1): `|v'| <= |v|`, `|v'| < |v|` when `v != 0`, and the sign of the velocity is kept |
| Physics.RestingPosition | js/animate.js:245-252 | `(r - x) * (1 - factor) == v`, so r is `x + v / coefficient` |
| Physics.RestingPositionInvariant | js/animate.js:228-252 | one integration step leaves the predicted resting position unchanged |
| Physics.CoastVelocity | js/animate.js:228-235 | after n free steps the velocity is `v * factor^n` |
| Physics.CoastKeepsRestingPosition | js/animate.js:228-252 | the predicted resting position is the same after any number of free steps |
| Physics.Hundredths | js/animate.js:171 | `Math.round(v * 100)` lies within 0.5 of `v * 100` |
| Physics.Settle | js/animate.js:169-182 | the counter rises by exactly 1 on a resting frame (pointer up, same hundredths) and is unchanged otherwise; past 2 the loop stops and free scrolling is cleared; at most 2, both flags are kept; nothing else changes |
| Physics.Tick | js/animate.js:63-84 | a tick keeps its inputs, raises the counter by 0 or 1, puts the position exactly on the drag target with the pointer down (counter unchanged), never restarts a stopped loop, and stops a running one only once the counter is past 2 |
| Physics.DragTickExample | js/animate.js:63-70 | one drag tick with friction 0.2 from 0 towards 100 lands on 100 with velocity 80 |
| Physics.FreeTickDecays | js/animate.js:63-70 | with no force acting, a tick is exactly one integration step and strictly shrinks a non-zero velocity |
| Physics.Start | js/animate.js:53-61 | while animating: no change at all; from idle: the loop is running after the synchronous first tick, with the counter at most 1 |
| Physics.Ticks | js/animate.js:78-83 | the frame loop keeps its inputs, raises the counter by at most one per frame, never restarts, and stops only past 2 |
| Physics.TicksCompose | js/animate.js:78-83 | a frames then b more frames is a + b frames |
| Physics.TicksStep | js/animate.js:78-83 | a running loop's next frame is one more tick |
| Physics.TicksStopped | js/animate.js:78-83 | once the loop has stopped, later frame counts give the same state |
| Physics.StoppedStaysStopped | js/animate.js:78-83 | a stopped loop runs no tick |
| Physics.NoEarlyStop | js/animate.js:174-177 | the loop cannot stop before enough frames for the counter to pass 2 |
| Physics.PointerDownNeverStops | js/animate.js:171-177 | with the pointer down the loop never stops and the counter never moves |
| Physics.StationaryTick | js/animate.js:169-173 | a tick of a slider that nothing moves keeps the position and counts one resting frame |
| Physics.StationaryStopsOnThirdTick | js/animate.js:169-181 | a stationary running loop with a fresh counter is running after ticks 1 and 2, stopped after tick 3, and runs nothing after tick 3 |
| Physics.StartStationaryStopsOnThirdTick | js/animate.js:53-61 | from idle, startAnimation's tick plus one more frame keep running; the second scheduled frame stops the loop |
| Wrap.ShiftedCellsFormPrefix | js/animate.js:204-215 | with non-negative widths (zero-width cells included), a shifted cell has only shifted cells before it |
| Wrap.ShiftsSplit | js/animate.js:204-215 | the shifted cells are exactly the first n, where n counts the cells that start inside the gap |
| Wrap.ShiftsWithoutGapClear | js/animate.js:204-215 | with no gap every shift is 0, as clearing the shifts would leave them |
| Wrap.ShiftsWithWideGapShiftAll | js/animate.js:204-215 | a gap wider than all the cells shifts every cell |
| Wrap.WrapPosition | js/animate.js:114-116 | the wrapped position lies in `[-w, 0)` and differs from x by a whole number of track lengths |
| Wrap.WrapPositionUnique | js/animate.js:114-116 | it is the only such value |
| Wrap.WrapPositionIdempotent | js/animate.js:114-116 | wrapping a wrapped position changes nothing |
| Wrap.WrapPositionPeriodic | js/animate.js:114-116 | moving by one track length does not change the wrapped position |
| Wrap.WrapPositionExample | js/animate.js:114-116 | position 950 on a 900 track wraps to -850 |
| Wrap.RenderOffset | js/animate.js:112-121 | un-mirrored and minus the cursor, the offset is the wrapped position (with wrap) or the position (without) |
| Wrap.RenderOffsetBounds | js/animate.js:112-121 | with wrap the offset lies in `[cursor - w, cursor)`, mirrored for right-to-left |
| Wrap.PositionValue | js/animate.js:159-167 | percent mode: on the two-decimal grid (a whole number of hundredths) and within 0.005 of the position as a percentage of the viewport, which fixes it; pixel mode: a whole number within 0.5 of the position |
| Wrap.PositionValueExamples | js/animate.js:159-167 | 125 in a 500 viewport renders as 25 (percent); 123.6 renders as 124 (pixels) |
| Numerics.Round | js/animate.js:171 | `Math.round` lands within half a unit, halves rounding up |
| Numerics.RoundUnique | js/animate.js:171 | that property determines the rounded value |
| Numerics.Modulo | js/animate.js:115 | the modulo lies in `[0, w)` and is congruent to x modulo w |
| Numerics.ModuloUnique | js/animate.js:115 | it is the only such value |
| Numerics.SumPrefixMonotone | js/animate.js:210-212 | with non-negative cell widths, a longer prefix consumes at least as much gap |
| Numerics.SumPrefixNonNegative | js/animate.js:210-212 | with non-negative cell widths, any prefix consumes a non-negative amount of gap |
| Animation.Flickity.StartAnimation | js/animate.js:53-61 | the new motion state is `Physics.Start` of the old one; a tick ran iff the slider was idle; shifts are left alone unless the tick wrapped |
| Animation.Flickity.Animate | js/animate.js:63-84 | the new motion state is `Physics.Tick` of the old one; the next frame is requested iff the loop is still running; with wrap the shifts match the wrapped position |
| Animation.Flickity.RunFrames | js/animate.js:78-83 | the final state is `Physics.Ticks` for the budget, reached after `frames` ticks, each of which found the loop running; fewer frames than the budget only on a stopped loop |
| Animation.Flickity.ApplyForce | js/animate.js:237-239 | the new state is `Physics.ApplyForce` of the old one |
| Animation.Flickity.ApplyDragForce | js/animate.js:254-267 | the new state is `Physics.ApplyDragForce` of the old one: with the pointer down the velocity is `dragX - x` |
| Animation.Flickity.ApplySelectedAttraction | js/animate.js:269-283 | the new state is `Physics.ApplySelectedAttraction` of the old one |
| Animation.Flickity.IntegratePhysics | js/animate.js:228-235 | the new state is `Physics.IntegratePhysics` of the old one |
| Animation.Flickity.GetFrictionFactor | js/animate.js:241-243 | one minus the current mode's coefficient, in (0, 1) for coefficients in (0, 1) |
| Animation.Flickity.GetRestingPosition | js/animate.js:245-252 | `(r - x) * (1 - factor) == velocity`, and every point of free motion from here predicts the same r |
| Animation.Flickity.Settle | js/animate.js:169-182 | the new state is `Physics.Settle` of the old one; when the loop stops with wrap on, the final render leaves the shifts matching the position |
| Animation.Flickity.PositionSlider | js/animate.js:111-126 | with wrap on and more than one cell the shifts match the wrapped position, otherwise they are untouched; the value is `PositionValue` of `RenderOffset` |
| Animation.Flickity.PositionSliderAtSelected | js/animate.js:146-157 | no cells: nothing changes; otherwise the position is `-target` and the shifts match it when wrapping |
| Animation.Flickity.ShiftWrapCells | js/animate.js:184-201 | the cells before the track get the -1 shifts of the gap `cursor + x`, and the cells after it get the +1 shifts of the gap `innerWidth - (x + w + cursor)` |
| Animation.Flickity.ShiftCells | js/animate.js:204-215 | the shift array becomes `Wrap.Shifts`: each cell gets the shift exactly when the gap left after the cells before it is positive |
| Animation.Flickity.UnshiftCells | js/animate.js:217-224 | every shift of a given list is 0 afterwards; a missing or empty list is left alone |
| Animation.SettleScenario | js/animate.js:53-83 | a fresh slider with no cells settles after startAnimation's tick and exactly two scheduled frames |

## Left out

- The module wrapper (AMD, CommonJS, browser global) and the `requestAnimationFrame` / `setTimeout` fallback are left out. They are loading and timing glue. `RunFrames` stands for the frame chain.
- The vertical axis (`options.verticalCells`: `y`, `dragY`, `slideableHeight`, `outerHeight`) is not modelled. Two bugs in it are therefore not modelled either:
  - `shiftWrapCells` reads the undeclared `_y` and `y`.
  - The scroll event tests `verticalCellse`.
- Writing the transform to the DOM is not modelled: the `translate3d`/`translateX` choice and the string form of `getPositionValue` with its unit. `PositionSlider` returns the number that would be rendered. The `transformProperty` lookup is always a non-empty string, so the right-to-left test reduces to the option.
- The `scroll` and `settle` events (`dispatchEvent`, the scroll progress of the first slide) are left out. They are notifications to listeners outside this file.
- `cell.wrapShift` on the cell objects is modelled as storing the shift in an array slot per cell. `cells[i].size.outerWidth` is given as a sequence of widths. The cells before and after the track are two separate arrays. So the model cannot show a cell object that sits in both lists. In JavaScript such a cell keeps the shift of the after-list, because that loop runs last (js/animate.js:200).
- `utils.modulo` lives in fizzy-ui-utils, which is not part of this model. It is given by its contract: the representative in `[0, w)`.
- JavaScript numbers are IEEE doubles; here they are exact reals. Rounding error in the integrator and in `x * 100` is not captured.
- Two configurations are excluded by `Animation.Flickity.Valid`, and through it by every tick method, and by the requires of `Numerics.Modulo`, `Wrap.WrapPosition` and `Wrap.PositionValue`:
  - A track length (`slideableWidth`) of 0 or below while wrapping. In JavaScript `utils.modulo(x, 0)` gives NaN at js/animate.js:115 and the rendered position becomes NaN.
  - A viewport width (`size.innerWidth`) of 0 in percent mode. Line 162 then divides by zero and renders an infinity or NaN.
  The sizing code outside this file is responsible for providing a positive width. Reals cannot express these values.
- Physics.RestingPosition: requires the friction coefficient to be non-zero. With a zero coefficient JavaScript divides by zero and returns an infinity or NaN, which reals cannot express.
- `this.cells` and `this.selectedSlide` appear only through the cell count and the selected slide's target. `delete this.isFreeScrolling` is modelled as setting the flag to false, since the code only ever tests it for truth.
