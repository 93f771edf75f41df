# Ripple field and card layouts, in Dafny

This project models two pieces of discrete logic from a repository of
browser-based 3D visual demos:

- **The ripple simulator** hook `useWaveSystem` (visual/1/hooks). It sits
  beside the mercury-lake demo, but no page in these sources uses it.
  It owns three n-by-n row-major buffers: height, the previous-height
  snapshot and velocity. It also keeps an oldest-first list of at most ten
  wave sources. `addWaveSource` maps a normalised cursor position to a
  clamped grid cell and enqueues a source. `updateWaves` runs one tick in
  five steps:
  1. snapshot the height field;
  2. clear it;
  3. add the ambient pattern;
  4. add each live source's ripple and retire expired or decayed sources,
     keeping the rest in order;
  5. apply one damped step of the 4-neighbour wave equation to interior
     cells, reading only the snapshot.
- **The card animation** of the CSS-3D demo (`PeriodicTableCSS3D`). It
  works out how many cards the data table yields. It computes each card's
  target in four layouts: a stack at the origin, a sphere, a helix and a
  5-by-5-by-N grid. It sends cards to their targets, and it cycles sphere →
  helix → grid on a timer.

Files:

- `numerics.dfy`: the host math library as a record of uninterpreted real
  functions, and the arithmetic of row-major indices.
- `wave_sources.dfy`: wave sources, clamping, the bounded FIFO and the
  retirement filter.
- `wave_field.dfy`: what one tick writes into each cell.
- `wave_system.dfy`: the simulator as a class over three `array<real>`
  buffers.
- `card_layout.dfy`: the card count, the target formulas, and the method
  that builds the target lists.
- `card_scene.dfy`: the mounted scene as a class, with `transform` and the
  layout cycle.

The time step is the code's `0.016` (commented `~60fps`) rather than
exactly 1/60. A cell index is the floor of the scaled coordinate, not the
nearest cell. A new source's start time is a reading of the host's wall
clock in seconds. That reading is passed in as the `now` parameter.

The sphere and helix targets are placed with three.js
`setFromSphericalCoords` and `setFromCylindricalCoords`. That library code
is not part of this model's sources. `CardLayout.FromSpherical` and
`CardLayout.FromCylindrical` reproduce its formulas: with y up, a point at
radius r, polar angle phi and azimuth theta is
(r sin phi sin theta, r cos phi, r sin phi cos theta), and a cylindrical
point is (r sin theta, y, r cos theta).

Properties of the ripple, sphere and helix formulas need facts about the
host's math functions. Each such property takes the facts it uses as
hypotheses: sine and cosine lie in [-1, 1], sin² + cos² = 1, exp of a
non-positive number lies in (0, 1], sqrt is non-negative, cos(acos t) = t on
[-1, 1], and pow of a base in (0, 1] does not grow with the exponent.

## Model

| member | source | states |
|---|---|---|
| `Numerics.CellIndex` | visual/1/hooks/useWaveSystem.ts:64-66 | cell (x, y) of an n-by-n grid is at index y*n+x, inside the n*n buffer, and that index splits back into x and y |
| `WaveSources.GridCoord` | visual/1/hooks/useWaveSystem.ts:26-31 | for any real input the grid coordinate lies in [0, gridSize-1] (and is 0 for an empty grid) |
| `WaveSources.GridCoordUnclamped` | visual/1/hooks/useWaveSystem.ts:26-31 | for inputs in [-1, 1] the clamp is inactive: the coordinate is floor((c+1)*0.5*(gridSize-1)) |
| `WaveSources.GridCoordMonotone` | visual/1/hooks/useWaveSystem.ts:26-31 | a larger normalised coordinate never gives a smaller grid coordinate |
| `WaveSources.GridCoordCentre` | visual/1/hooks/useWaveSystem.ts:26-31 | the screen centre maps to cell 31 of the default 64-cell grid |
| `WaveSources.NewSource` | visual/1/hooks/useWaveSystem.ts:33-40 | a new source has an in-grid cell, frequency 2.0, decay 0.95, the given amplitude and the given start time |
| `WaveSources.NewSourceAlive` | visual/1/hooks/useWaveSystem.ts:33-40 | a source added with amplitude at least 0.001 passes the retirement filter at the instant it is created (elapsed 0, so no decay yet) |
| `WaveSources.RetirementIsPermanent` | visual/1/hooks/useWaveSystem.ts:78-82 | with decay in (0, 1] and a non-negative amplitude, a source that fails the elapsed or amplitude test at some time fails it at every later time |
| `WaveSources.PushBounded` | visual/1/hooks/useWaveSystem.ts:42-47 | appending keeps a list of at most 10 within 10; the new source is last; below 10 nothing is dropped; at 10 exactly the front entry is dropped and the rest keep their order |
| `WaveSources.PushAllKeepsMostRecent` | visual/1/hooks/useWaveSystem.ts:42-47 | from a list within the bound, any sequence of additions leaves exactly the 10 most recent sources, oldest first |
| `WaveSources.Survivors` | visual/1/hooks/useWaveSystem.ts:77-104 | the filtered list never grows, holds only sources with elapsed ≤ 8.0 and decayed amplitude ≥ 0.001, and keeps every such source |
| `WaveSources.SurvivorsCount` | visual/1/hooks/useWaveSystem.ts:77-104 | each live source is kept exactly as often as it occurs; each retired source is gone |
| `WaveSources.SurvivorsConcat` | visual/1/hooks/useWaveSystem.ts:77-104 | filtering preserves relative order: the survivors of a+b are the survivors of a followed by those of b |
| `WaveSources.SurvivorsAllAlive` | visual/1/hooks/useWaveSystem.ts:77-104 | when every source is live, a tick retires nothing and the list is unchanged |
| `WaveField.AmbientBounded` | visual/1/hooks/useWaveSystem.ts:67-71 | the ambient term of every cell lies within 0.02 of zero |
| `WaveField.CrestSpeed` | visual/1/hooks/useWaveSystem.ts:87-90 | the signed distance to the crest shrinks by 3 cells per unit of time: the ring expands at waveSpeed*10 |
| `WaveField.RippleWave` | visual/1/hooks/useWaveSystem.ts:87-97 | once `time` ≥ the source's start time, the unhalved wave a source adds to a cell never exceeds the source's current decayed amplitude in size |
| `WaveField.Ripple` | visual/1/hooks/useWaveSystem.ts:87-99 | once `time` ≥ the source's start time, what one source adds to one cell in a tick is at most half its current decayed amplitude in size |
| `WaveField.SilentOutsideWindow` | visual/1/hooks/useWaveSystem.ts:90-99 | a cell with abs(wavePosition) ≥ 3.0 for every source receives no ripple at all |
| `Numerics.NeighbourIndices` | visual/1/hooks/useWaveSystem.ts:107-118 | for a cell off the outer ring, the four neighbour indices lie in [0, n*n); left and right stay in the cell's row; up and down stay in its column |
| `WaveField.BoundaryCellUnforced` | visual/1/hooks/useWaveSystem.ts:107-125 | a cell with x=0, x=n-1, y=0 or y=n-1 ends the tick holding only ambient plus ripple terms, and its velocity is unchanged |
| `WaveField.InteriorCellStencil` | visual/1/hooks/useWaveSystem.ts:109-122 | an interior cell's new velocity is the damped step driven by the snapshot's up+down+left+right-4*centre and its own old velocity, and nothing else |
| `WaveField.FlatNeighbourhoodOnlyDamps` | visual/1/hooks/useWaveSystem.ts:112-122 | an interior cell whose snapshot neighbourhood is level has a zero Laplacian, so its velocity is only multiplied by 0.995 and never grows in size |
| `WaveField.InteriorCellHeight` | visual/1/hooks/useWaveSystem.ts:107-125 | an interior cell ends the tick with its ambient term, the ripples of the surviving sources, and its new velocity times 0.016 |
| `WaveField.QuiescentTick` | visual/1/hooks/useWaveSystem.ts:55-125 | from a field and velocities at rest with no sources, a tick yields exactly the ambient pattern and zero velocities |
| `WaveHook.WaveSystem.constructor` | visual/1/hooks/useWaveSystem.ts:13-17 | the grid size defaults to 64; three fresh, distinct, zero-filled buffers of length gridSize*gridSize and an empty source list |
| `WaveHook.WaveSystem.AddWaveSource` | visual/1/hooks/useWaveSystem.ts:24-48 | the new source list is the bounded push of the clamped new source onto the old one; the class invariant (buffer sizes, at most 10 sources) is kept |
| `WaveHook.WaveSystem.UpdateWaves` | visual/1/hooks/useWaveSystem.ts:50-128 | afterwards `previous` equals the height on entry, the sources are the survivors of the old list, every cell's height and velocity equal the tick specification applied to the entry state, the buffers keep their length, and the height buffer itself is returned |
| `WaveHook.WaveSystem.CopyToPrevious` | visual/1/hooks/useWaveSystem.ts:56-58 | `previous` becomes an element-wise copy of the height buffer |
| `WaveHook.WaveSystem.ClearHeight` | visual/1/hooks/useWaveSystem.ts:61 | every height becomes 0 |
| `WaveHook.WaveSystem.AddAmbient` | visual/1/hooks/useWaveSystem.ts:64-74 | every cell gains exactly its ambient term sin(nx*4+t*0.5)*cos(ny*3+t*0.3)*0.02 |
| `WaveHook.WaveSystem.ProcessSources` | visual/1/hooks/useWaveSystem.ts:77-104 | the source list becomes the survivors of the old list, and every cell gains the ripples of exactly those survivors |
| `WaveHook.WaveSystem.FilterSource` | visual/1/hooks/useWaveSystem.ts:77-103 | a source is kept exactly when its elapsed time is at most 8.0 and its decayed amplitude at least 0.001; a kept source adds its ripple to every cell, a retired one leaves the field unchanged |
| `WaveHook.WaveSystem.AddRipple` | visual/1/hooks/useWaveSystem.ts:85-101 | every cell gains this source's ripple inside the packet window and nothing outside it |
| `WaveHook.WaveSystem.ApplyWaveEquation` | visual/1/hooks/useWaveSystem.ts:107-125 | interior cells take the damped velocity step computed from the snapshot; boundary velocities are unchanged; each interior height gains velocity*dt and every other height is unchanged |
| `WaveHook.WaveSystem.StepRow` | visual/1/hooks/useWaveSystem.ts:108-124 | one row of the stencil loop extends the set of stepped interior cells by that row |
| `CardLayout.CardCount` | src/app/visual/5/components/PeriodicTableCSS3D.tsx:183 | the count is at most 100 and uses only whole records; it is the largest such count |
| `CardLayout.DataGivesHundredCards` | src/app/visual/5/components/PeriodicTableCSS3D.tsx:31-150 | the shipped table yields exactly 100 cards |
| `CardLayout.SphericalOnSphere` | src/app/visual/5/components/PeriodicTableCSS3D.tsx:213 | every point built from spherical coordinates lies at distance r from the origin |
| `CardLayout.SpherePlacement` | src/app/visual/5/components/PeriodicTableCSS3D.tsx:208-216 | card i of l lies on the sphere of radius 800, at height 800*(2i/l - 1) |
| `CardLayout.SphereAscends` | src/app/visual/5/components/PeriodicTableCSS3D.tsx:208-216 | a later card sits strictly higher on the sphere, so no two cards share a height |
| `CardLayout.CylindricalOnCylinder` | src/app/visual/5/components/PeriodicTableCSS3D.tsx:225 | every point built from cylindrical coordinates lies at distance r from the y axis and keeps the given height |
| `CardLayout.HelixPlacement` | src/app/visual/5/components/PeriodicTableCSS3D.tsx:220-229 | card i lies on the cylinder of radius 900 around the y axis, at height 450-8i |
| `CardLayout.HelixY` | src/app/visual/5/components/PeriodicTableCSS3D.tsx:222 | for the first 100 cards the helix height lies in [-342, 450] |
| `CardLayout.HelixDescends` | src/app/visual/5/components/PeriodicTableCSS3D.tsx:222 | the helix height falls by exactly 8 per card, so it strictly decreases with the index |
| `CardLayout.GridX` | src/app/visual/5/components/PeriodicTableCSS3D.tsx:236 | the grid x offset is one of -800, -400, 0, 400, 800 |
| `CardLayout.GridY` | src/app/visual/5/components/PeriodicTableCSS3D.tsx:237 | the grid y offset is one of 800, 400, 0, -400, -800 |
| `CardLayout.GridZ` | src/app/visual/5/components/PeriodicTableCSS3D.tsx:238 | the grid z offset is -2000 plus a multiple of 1000; for the first 100 cards it is one of -2000, -1000, 0, 1000 |
| `CardLayout.GridRoundTrip` | src/app/visual/5/components/PeriodicTableCSS3D.tsx:233-239 | a card's grid position determines its index: decoding the position gives back the card index |
| `CardLayout.GridSlotsDistinct` | src/app/visual/5/components/PeriodicTableCSS3D.tsx:233-239 | distinct cards get distinct grid positions |
| `CardLayout.LayoutTargets` | src/app/visual/5/components/PeriodicTableCSS3D.tsx:185-240 | each of the four target lists has exactly one entry per card; every stack target is the origin; helix heights follow 450-8i |
| `CardLayout.BuildTargets` | src/app/visual/5/components/PeriodicTableCSS3D.tsx:185-240 | the four push loops build exactly the specified target lists |
| `CardLayout.NextIndex` | src/app/visual/5/components/PeriodicTableCSS3D.tsx:268 | the advanced counter stays in [0, 3): it steps 0→1→2 and wraps 2→0 |
| `CardLayout.IndexAfterCountsTicks` | src/app/visual/5/components/PeriodicTableCSS3D.tsx:263-274 | after k timer ticks from 0 the counter is k mod 3 |
| `CardAnimation.CardScene.constructor` | src/app/visual/5/components/PeriodicTableCSS3D.tsx:179-260 | mounting builds one card per record, at most 100 (100 of the table's 118 records here), builds the specified targets, starts the counter at 0, and leaves every card on its stack target |
| `CardAnimation.CardScene.Transform` | src/app/visual/5/components/PeriodicTableCSS3D.tsx:317-335 | card i comes to rest at target i, for every card |
| `CardAnimation.CardScene.Fire` | src/app/visual/5/components/PeriodicTableCSS3D.tsx:264-274 | one timer firing shows the layout the counter points at (never the stack), records it as the current mode, advances the counter modulo 3, and keeps every target list the same length as the cards |
| `CardAnimation.CycleSchedule` | src/app/visual/5/components/PeriodicTableCSS3D.tsx:263-275 | on a freshly mounted scene, the k-th firing shows layout k mod 3 of sphere, helix, grid, so the cycle runs sphere, helix, grid, sphere, …; after the last firing every card rests on that layout's target and it is the current mode; with no firing the cards and the mode are unchanged; the counter is left at ticks mod 3, so the next firing continues the cycle |

## Left out

- Floating point: buffers hold `real`s. The model does not capture
  `Float32Array` rounding to single precision, double-precision rounding
  of the intermediate expressions, or NaN and infinities.
- `Math.sin`, `cos`, `exp`, `pow`, `sqrt` and `acos` are arbitrary total
  real functions passed in as a `MathLib` record. Properties that need
  facts about them take those facts as hypotheses. Neither the range of
  the heights nor whether the centre cell is non-zero shortly after a
  source is added is stated: both depend on the functions' actual values.
  Convergence of the damped field over many ticks is not stated either.
- Wall-clock and timers: `performance.now()` becomes the `now` parameter of
  `AddWaveSource`. Each timer firing is a call of `CardScene.Fire`: the
  first comes from `setTimeout` (PeriodicTableCSS3D.tsx:264), the rest from
  `setInterval` (:269). The 5-second delays and the teardown that clears
  both timers (:303-314) are not modelled. The clock's monotonicity is not
  assumed; every property holds for any `time`, except the ripple bounds,
  which assume the tick time is not before the source's start time.
- React hooks: `useRef` and `useCallback` are plumbing. Their state becomes
  the fields of `WaveSystem` and `CardScene`.
- `Math.random()`: card colours and tween durations are not modelled. Card
  start positions are the constructor's `randomStart` parameter.
- CardAnimation.CardScene.Transform: does not model the tween (easing,
  random duration, the re-render tween, `removeAll`). It states where each
  card comes to rest, not the path it takes.
- Card rotations: `lookAt` on the sphere and helix targets, and the rotation
  tweens, are not modelled. Only positions are.
- Renderer, trackball controls, resize handling, DOM elements and the
  `currentMode` pip markup are host UI. Only the `currentMode` value is
  kept.
- The shader programs, the canvas flame field, the cursor parallax and
  the camera rig of the other demos are not part of this model.
