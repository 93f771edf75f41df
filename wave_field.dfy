/** What one tick of the ripple simulator writes into each cell of its
    n-by-n row-major height field: the ambient pattern, the ripples of the
    live sources, and (for interior cells only) one damped step of the
    discretised wave equation driven by the snapshot of the previous field. */
module WaveField {
  import opened Numerics
  import opened WaveSources

  const WaveSpeed: real := 0.3
  const Damping: real := 0.995
  /** The fixed time step of one tick. */
  const Dt: real := 0.016
  /** A source reaches a cell only while the cell is this close to the
      expanding ring. */
  const PacketHalfWidth: real := 3.0

  /** The gentle background pattern at cell (x, y) at `time`. */
  function Ambient(n: nat, x: int, y: int, time: real, m: MathLib): real
    requires n > 0
  {
    var nx := x as real / n as real;
    var ny := y as real / n as real;
    m.sin(nx * 4.0 + time * 0.5) * m.cos(ny * 3.0 + time * 0.3) * 0.02
  }

  /** The ambient term of buffer index `i`. */
  function AmbientAt(n: nat, i: int, time: real, m: MathLib): real
    requires n > 0
  {
    Ambient(n, i % n, i / n, time, m)
  }

  /** The ambient pattern stays within 0.02 of zero. */
  lemma AmbientBounded(n: nat, x: int, y: int, time: real, m: MathLib)
    requires n > 0 && TrigBounded(m)
    ensures Abs(Ambient(n, x, y, time, m)) <= 0.02
  {
    var nx := x as real / n as real;
    var ny := y as real / n as real;
    var sn, cs := m.sin(nx * 4.0 + time * 0.5), m.cos(ny * 3.0 + time * 0.3);
    assert Abs(sn) <= 1.0 && Abs(cs) <= 1.0;
    AbsMulLe(sn, cs);
    assert Ambient(n, x, y, time, m) == sn * cs * 0.02;
  }

  /** Euclidean distance from the source's cell to cell (x, y). */
  function Distance(s: WaveSource, x: int, y: int, m: MathLib): real
  {
    var dx := x - s.x;
    var dy := y - s.y;
    m.sqrt((dx * dx + dy * dy) as real)
  }

  /** Signed distance from cell (x, y) to the crest of the expanding ring. */
  function WavePosition(s: WaveSource, x: int, y: int, time: real, m: MathLib): real
  {
    Distance(s, x, y, m) - (time - s.startTime) * WaveSpeed * 10.0
  }

  /** The ripple height a source adds to a cell inside the wave packet. From
      the source's creation on it never exceeds the current decayed
      amplitude: every other factor is a sine or a decaying exponential. */
  function RippleWave(s: WaveSource, x: int, y: int, time: real, m: MathLib): (r: real)
    ensures TrigBounded(m) && ExpDecays(m) && SqrtNonNegative(m) && time >= s.startTime
         ==> -Abs(CurrentAmplitude(s, time, m)) <= r <= Abs(CurrentAmplitude(s, time, m))
  {
    FadedBounded(s, x, y, time, m);
    CurrentAmplitude(s, time, m) * m.sin(WavePosition(s, x, y, time, m) * s.frequency)
      * m.exp((-Distance(s, x, y, m)) * 0.08)
      * m.exp((-Abs(WavePosition(s, x, y, time, m))) * 0.3)
      * m.exp((-(time - s.startTime)) * 0.5)
  }

  /** What source `s` adds to cell (x, y) this tick: half the ripple inside
      the packet window, nothing outside it; so never more than half the
      current amplitude. */
  function Ripple(s: WaveSource, x: int, y: int, time: real, m: MathLib): (r: real)
    ensures TrigBounded(m) && ExpDecays(m) && SqrtNonNegative(m) && time >= s.startTime
         ==> Abs(r) <= 0.5 * Abs(CurrentAmplitude(s, time, m))
  {
    if Abs(WavePosition(s, x, y, time, m)) < PacketHalfWidth
    then RippleWave(s, x, y, time, m) * 0.5
    else 0.0
  }

  /** The crest travels outward at WaveSpeed * 10 = 3 cells per unit of
      time. */
  lemma CrestSpeed(s: WaveSource, x: int, y: int, t1: real, t2: real, m: MathLib)
    ensures WavePosition(s, x, y, t2, m) == WavePosition(s, x, y, t1, m) - (t2 - t1) * 3.0
  {
  }

  /** The whole product: amplitude, oscillation, both distance fall-offs and
      the fade with the source's age. */
  lemma FadedBounded(s: WaveSource, x: int, y: int, time: real, m: MathLib)
    ensures TrigBounded(m) && ExpDecays(m) && SqrtNonNegative(m) && time >= s.startTime
         ==> -Abs(CurrentAmplitude(s, time, m))
             <= CurrentAmplitude(s, time, m) * m.sin(WavePosition(s, x, y, time, m) * s.frequency)
                * m.exp((-Distance(s, x, y, m)) * 0.08)
                * m.exp((-Abs(WavePosition(s, x, y, time, m))) * 0.3)
                * m.exp((-(time - s.startTime)) * 0.5)
             <= Abs(CurrentAmplitude(s, time, m))
  {
    if TrigBounded(m) && ExpDecays(m) && SqrtNonNegative(m) && time >= s.startTime {
      AttenuationBounded(s, x, y, time, m);
      ElapsedDecayBounded(s, time, m);
      BoundStep(CurrentAmplitude(s, time, m) * m.sin(WavePosition(s, x, y, time, m) * s.frequency)
        * m.exp((-Distance(s, x, y, m)) * 0.08)
        * m.exp((-Abs(WavePosition(s, x, y, time, m))) * 0.3),
        m.exp((-(time - s.startTime)) * 0.5), Abs(CurrentAmplitude(s, time, m)));
    }
  }

  /** The fade with the source's age is a factor in (0, 1]. */
  lemma ElapsedDecayBounded(s: WaveSource, time: real, m: MathLib)
    requires ExpDecays(m) && time >= s.startTime
    ensures 0.0 < m.exp((-(time - s.startTime)) * 0.5) <= 1.0
  {
    assert (-(time - s.startTime)) * 0.5 <= 0.0;
  }

  /** The amplitude times the oscillation and both distance fall-offs
      stays within the amplitude. */
  lemma AttenuationBounded(s: WaveSource, x: int, y: int, time: real, m: MathLib)
    requires TrigBounded(m) && ExpDecays(m) && SqrtNonNegative(m)
    ensures -Abs(CurrentAmplitude(s, time, m))
         <= CurrentAmplitude(s, time, m) * m.sin(WavePosition(s, x, y, time, m) * s.frequency)
            * m.exp((-Distance(s, x, y, m)) * 0.08)
            * m.exp((-Abs(WavePosition(s, x, y, time, m))) * 0.3)
         <= Abs(CurrentAmplitude(s, time, m))
  {
    OscillationBounded(s, x, y, time, m);
    BoundStep(CurrentAmplitude(s, time, m) * m.sin(WavePosition(s, x, y, time, m) * s.frequency)
      * m.exp((-Distance(s, x, y, m)) * 0.08),
      m.exp((-Abs(WavePosition(s, x, y, time, m))) * 0.3), Abs(CurrentAmplitude(s, time, m)));
  }

  /** The amplitude times the oscillation and the distance fall-off stays
      within the amplitude. */
  lemma OscillationBounded(s: WaveSource, x: int, y: int, time: real, m: MathLib)
    requires TrigBounded(m) && ExpDecays(m) && SqrtNonNegative(m)
    ensures -Abs(CurrentAmplitude(s, time, m))
         <= CurrentAmplitude(s, time, m) * m.sin(WavePosition(s, x, y, time, m) * s.frequency)
            * m.exp((-Distance(s, x, y, m)) * 0.08)
         <= Abs(CurrentAmplitude(s, time, m))
  {
    var dx, dy := x - s.x, y - s.y;
    assert dx * dx + dy * dy >= 0;
    assert (-Distance(s, x, y, m)) * 0.08 <= 0.0;
    var bound := Abs(CurrentAmplitude(s, time, m));
    assert -bound <= CurrentAmplitude(s, time, m) * m.sin(WavePosition(s, x, y, time, m) * s.frequency) <= bound by {
      BoundStep(CurrentAmplitude(s, time, m), m.sin(WavePosition(s, x, y, time, m) * s.frequency), bound);
    }
    BoundStep(CurrentAmplitude(s, time, m) * m.sin(WavePosition(s, x, y, time, m) * s.frequency),
      m.exp((-Distance(s, x, y, m)) * 0.08), bound);
  }

  /** The ripple source `s` adds to buffer index `i`. */
  function RippleAt(s: WaveSource, n: nat, i: int, time: real, m: MathLib): real
    requires n > 0
  {
    Ripple(s, i % n, i / n, time, m)
  }

  /** The superposed ripples of `sources` at cell (x, y), added in list order. */
  function SourceSum(sources: seq<WaveSource>, x: int, y: int, time: real, m: MathLib): real
    decreases |sources|
  {
    if sources == [] then 0.0
    else SourceSum(sources[..|sources| - 1], x, y, time, m) + Ripple(sources[|sources| - 1], x, y, time, m)
  }

  /** Adding one more source adds its ripple to the sum. */
  lemma SourceSumSnoc(sources: seq<WaveSource>, s: WaveSource, x: int, y: int, time: real, m: MathLib)
    ensures SourceSum(sources + [s], x, y, time, m) == SourceSum(sources, x, y, time, m) + Ripple(s, x, y, time, m)
  {
    assert (sources + [s])[..|sources|] == sources;
  }

  /** Heights `hs` during step 3: cells below index `done` have gained
      their ambient term, the others still hold `base`. */
  ghost predicate AmbientBelow(done: int, n: nat, base: seq<real>, hs: seq<real>, time: real, m: MathLib)
    requires |base| == |hs| == n * n
  {
    forall i | 0 <= i < n * n :: hs[i] == if i < done then base[i] + AmbientAt(n, i, time, m) else base[i]
  }

  /** Adding the ambient term to cell `done` extends the prefix by one. */
  lemma AmbientStep(done: int, n: nat, base: seq<real>, hs: seq<real>, time: real, m: MathLib)
    requires |base| == |hs| == n * n && 0 <= done < n * n
    requires AmbientBelow(done, n, base, hs, time, m)
    ensures hs[done] == base[done]
    ensures AmbientBelow(done + 1, n, base, hs[done := hs[done] + AmbientAt(n, done, time, m)], time, m)
  {
  }

  /** Heights `hs` while source `s` is being added: cells below index
      `done` have gained its ripple, the others still hold `base`. */
  ghost predicate RippleBelow(done: int, n: nat, base: seq<real>, hs: seq<real>, s: WaveSource, time: real, m: MathLib)
    requires |base| == |hs| == n * n
  {
    forall i | 0 <= i < n * n :: hs[i] == if i < done then base[i] + RippleAt(s, n, i, time, m) else base[i]
  }

  /** Adding the ripple of `s` to cell `done` extends the prefix by one. */
  lemma RippleStep(done: int, n: nat, base: seq<real>, hs: seq<real>, s: WaveSource, time: real, m: MathLib)
    requires |base| == |hs| == n * n && 0 <= done < n * n
    requires RippleBelow(done, n, base, hs, s, time, m)
    ensures hs[done] == base[done]
    ensures RippleBelow(done + 1, n, base, hs[done := hs[done] + RippleAt(s, n, done, time, m)], s, time, m)
  {
  }

  /** Heights `hs` are the heights `base` plus, in every cell, the ripples
      of `sources`. */
  ghost predicate RipplesAdded(base: seq<real>, hs: seq<real>, sources: seq<WaveSource>, n: nat, time: real, m: MathLib)
  {
    && |base| == |hs| == n * n
    && forall i | 0 <= i < n * n :: hs[i] == base[i] + SourceSum(sources, i % n, i / n, time, m)
  }

  /** Adding one more source's ripple to every cell extends the sum by that
      source. */
  lemma RipplesAddedSnoc(base: seq<real>, before: seq<real>, after: seq<real>, sources: seq<WaveSource>, s: WaveSource, n: nat, time: real, m: MathLib)
    requires RipplesAdded(base, before, sources, n, time, m)
    requires |after| == n * n
    requires forall i | 0 <= i < n * n :: after[i] == before[i] + RippleAt(s, n, i, time, m)
    ensures RipplesAdded(base, after, sources + [s], n, time, m)
  {
    forall i | 0 <= i < n * n
      ensures after[i] == base[i] + SourceSum(sources + [s], i % n, i / n, time, m)
    {
      SourceSumSnoc(sources, s, i % n, i / n, time, m);
    }
  }

  /** One step of the per-tick filter over the source list `all`: after
      source k is retired or has its ripple added, the kept list and the
      accumulated ripples both cover one more source. */
  lemma FilterStep(base: seq<real>, before: seq<real>, after: seq<real>, all: seq<WaveSource>, k: nat,
                   kept: seq<WaveSource>, keep: bool, n: nat, time: real, m: MathLib)
    requires k < |all| && kept == Survivors(all[..k], time, m)
    requires RipplesAdded(base, before, kept, n, time, m)
    requires keep == Alive(all[k], time, m) && |after| == n * n
    requires keep ==> forall i | 0 <= i < n * n :: after[i] == before[i] + RippleAt(all[k], n, i, time, m)
    requires !keep ==> after == before
    ensures (if keep then kept + [all[k]] else kept) == Survivors(all[..k + 1], time, m)
    ensures RipplesAdded(base, after, if keep then kept + [all[k]] else kept, n, time, m)
  {
    assert all[..k + 1] == all[..k] + [all[k]];
    SurvivorsSnoc(all[..k], all[k], time, m);
    if keep {
      RipplesAddedSnoc(base, before, after, kept, all[k], n, time, m);
    }
  }

  /** A cell that lies outside the packet window of every source receives no
      ripple at all. */
  lemma {:induction false} SilentOutsideWindow(sources: seq<WaveSource>, x: int, y: int, time: real, m: MathLib)
    requires forall k | 0 <= k < |sources| :: Abs(WavePosition(sources[k], x, y, time, m)) >= PacketHalfWidth
    ensures SourceSum(sources, x, y, time, m) == 0.0
    decreases |sources|
  {
    if sources != [] {
      SilentOutsideWindow(sources[..|sources| - 1], x, y, time, m);
    }
  }

  /** Cell index `i` is off the outer ring of the n-by-n grid. */
  predicate Interior(n: nat, i: int)
  {
    n > 0 && 1 <= i % n < n - 1 && 1 <= i / n < n - 1
  }

  /** Every interior cell lies before row `y` once `y` has reached the
      last row. */
  lemma InteriorBeforeRow(n: nat, y: int, i: int)
    requires 0 <= i < n * n && Interior(n, i) && n - 1 <= y
    ensures i < y * n
  {
    var q := i / n;
    assert i == q * n + i % n;
    MulAtLeast(y - q, n);
    assert y * n == (y - q) * n + q * n;
  }

  /** The 4-neighbour Laplacian of the snapshot `prev` at interior cell `i`. */
  function Laplacian(prev: seq<real>, n: nat, i: int): real
    requires |prev| == n * n && 0 <= i < n * n && Interior(n, i)
  {
    NeighbourIndices(n, i);
    prev[i - n] + prev[i + n] + prev[i - 1] + prev[i + 1] - 4.0 * prev[i]
  }

  /** One damped velocity step under acceleration WaveSpeed^2 * lap. */
  function NextVelocity(v: real, lap: real): real
  {
    var acceleration := WaveSpeed * WaveSpeed * lap;
    (v + acceleration * Dt) * Damping
  }

  /** The velocity of cell `i` after a tick that started from heights `h0`
      and velocities `v0`: interior cells take one step, the ring keeps its
      velocity. */
  function TickVelocity(h0: seq<real>, v0: seq<real>, n: nat, i: int): real
    requires |h0| == n * n && |v0| == n * n && 0 <= i < n * n
  {
    if Interior(n, i) then NextVelocity(v0[i], Laplacian(h0, n, i)) else v0[i]
  }

  /** The height of cell `i` after a tick at `time` that started from
      heights `h0`, velocities `v0` and source list `sources`. */
  function TickHeight(h0: seq<real>, v0: seq<real>, sources: seq<WaveSource>, n: nat, time: real, m: MathLib, i: int): real
    requires |h0| == n * n && |v0| == n * n && 0 <= i < n * n
  {
    var x, y := i % n, i / n;
    Ambient(n, x, y, time, m)
      + SourceSum(Survivors(sources, time, m), x, y, time, m)
      + (if Interior(n, i) then TickVelocity(h0, v0, n, i) * Dt else 0.0)
  }

  /** Velocities `vs` and heights `hs` during step 5: interior cells below
      index `done` hold their stepped values, every other cell still holds
      its value from before the step (`v0`, `h0`). */
  ghost predicate SteppedBelow(done: int, n: nat, vs: seq<real>, hs: seq<real>, prev: seq<real>, v0: seq<real>, h0: seq<real>)
    requires |vs| == |hs| == |prev| == |v0| == |h0| == n * n
  {
    forall i | 0 <= i < n * n ::
      && vs[i] == (if Interior(n, i) && i < done then TickVelocity(prev, v0, n, i) else v0[i])
      && hs[i] == (if Interior(n, i) && i < done then h0[i] + vs[i] * Dt else h0[i])
  }

  /** Stepping interior cell `done`, which still holds its old values,
      extends the stepped prefix by one cell. */
  lemma StepCell(done: int, n: nat, vs: seq<real>, hs: seq<real>, prev: seq<real>, v0: seq<real>, h0: seq<real>)
    requires |vs| == |hs| == |prev| == |v0| == |h0| == n * n
    requires 0 <= done < n * n && Interior(n, done)
    requires SteppedBelow(done, n, vs, hs, prev, v0, h0)
    ensures vs[done] == v0[done] && hs[done] == h0[done]
    ensures SteppedBelow(done + 1, n, vs[done := TickVelocity(prev, v0, n, done)],
                         hs[done := h0[done] + TickVelocity(prev, v0, n, done) * Dt], prev, v0, h0)
  {
  }

  /** Passing over a cell of the outer ring changes nothing. */
  lemma SkipCell(done: int, n: nat, vs: seq<real>, hs: seq<real>, prev: seq<real>, v0: seq<real>, h0: seq<real>)
    requires |vs| == |hs| == |prev| == |v0| == |h0| == n * n
    requires !Interior(n, done)
    requires SteppedBelow(done, n, vs, hs, prev, v0, h0)
    ensures SteppedBelow(done + 1, n, vs, hs, prev, v0, h0)
  {
    forall i | 0 <= i < n * n
      ensures Interior(n, i) && i < done + 1 <==> Interior(n, i) && i < done
    {
      if i == done {}
    }
  }

  /** A cell on the outer ring ends the tick with only the ambient and
      ripple terms; its velocity is untouched. */
  lemma BoundaryCellUnforced(h0: seq<real>, v0: seq<real>, sources: seq<WaveSource>, n: nat, time: real, m: MathLib, x: int, y: int)
    requires |h0| == n * n && |v0| == n * n
    requires 0 <= x < n && 0 <= y < n
    requires x == 0 || x == n - 1 || y == 0 || y == n - 1
    ensures 0 <= y * n + x < n * n
    ensures TickVelocity(h0, v0, n, y * n + x) == v0[y * n + x]
    ensures TickHeight(h0, v0, sources, n, time, m, y * n + x)
         == Ambient(n, x, y, time, m) + SourceSum(Survivors(sources, time, m), x, y, time, m)
  {
    CellIndex(n, x, y);
  }

  /** An interior cell's new velocity depends only on the snapshot at the
      cell and its four neighbours and on its own old velocity. */
  lemma InteriorCellStencil(h0: seq<real>, v0: seq<real>, n: nat, x: int, y: int)
    requires |h0| == n * n && |v0| == n * n
    requires 1 <= x < n - 1 && 1 <= y < n - 1
    ensures 0 <= (y - 1) * n + x && (y + 1) * n + x < n * n
    ensures TickVelocity(h0, v0, n, y * n + x)
         == NextVelocity(v0[y * n + x],
                         h0[(y - 1) * n + x] + h0[(y + 1) * n + x]
                         + h0[y * n + (x - 1)] + h0[y * n + (x + 1)]
                         - 4.0 * h0[y * n + x])
  {
    CellIndex(n, x, y);
    CellIndex(n, x, y - 1);
    CellIndex(n, x, y + 1);
    assert (y - 1) * n + x == y * n + x - n;
    assert (y + 1) * n + x == y * n + x + n;
  }

  /** An interior cell whose snapshot neighbourhood is flat (the cell and
      its four neighbours level) feels no acceleration: its velocity is
      only damped, by the factor 0.995, and never grows. */
  lemma FlatNeighbourhoodOnlyDamps(h0: seq<real>, v0: seq<real>, n: nat, x: int, y: int)
    requires |h0| == n * n && |v0| == n * n
    requires 1 <= x < n - 1 && 1 <= y < n - 1
    requires 0 <= (y - 1) * n + x && (y + 1) * n + x < n * n
    requires h0[(y - 1) * n + x] == h0[(y + 1) * n + x] == h0[y * n + (x - 1)] == h0[y * n + (x + 1)] == h0[y * n + x]
    ensures 0 <= y * n + x < n * n
    ensures TickVelocity(h0, v0, n, y * n + x) == v0[y * n + x] * Damping
    ensures Abs(TickVelocity(h0, v0, n, y * n + x)) <= Abs(v0[y * n + x])
  {
    InteriorCellStencil(h0, v0, n, x, y);
    AbsMulLe(v0[y * n + x], Damping);
  }

  /** An interior cell ends the tick holding the ambient and ripple terms
      plus one time step's worth of its new velocity. */
  lemma InteriorCellHeight(h0: seq<real>, v0: seq<real>, sources: seq<WaveSource>, n: nat, time: real, m: MathLib, x: int, y: int)
    requires |h0| == n * n && |v0| == n * n
    requires 1 <= x < n - 1 && 1 <= y < n - 1
    ensures 0 <= y * n + x < n * n
    ensures TickHeight(h0, v0, sources, n, time, m, y * n + x)
         == Ambient(n, x, y, time, m) + SourceSum(Survivors(sources, time, m), x, y, time, m)
            + TickVelocity(h0, v0, n, y * n + x) * Dt
  {
    CellIndex(n, x, y);
  }

  /** From a field at rest with no sources, a tick produces exactly the
      ambient pattern and leaves every velocity at zero. */
  lemma QuiescentTick(h0: seq<real>, v0: seq<real>, n: nat, time: real, m: MathLib, i: int)
    requires |h0| == n * n && |v0| == n * n && 0 <= i < n * n
    requires forall j | 0 <= j < n * n :: h0[j] == 0.0 && v0[j] == 0.0
    ensures TickVelocity(h0, v0, n, i) == 0.0
    ensures TickHeight(h0, v0, [], n, time, m, i) == Ambient(n, i % n, i / n, time, m)
  {
    if Interior(n, i) {
      NeighbourIndices(n, i);
      assert Laplacian(h0, n, i) == 0.0;
    }
  }
}
