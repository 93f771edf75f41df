/** The ripple simulator object: three fixed n-by-n buffers (height, the
    previous height snapshot and velocity) and the oldest-first list of live
    wave sources, with the two operations the hook exposes. */
module WaveHook {
  import opened Numerics
  import opened WaveSources
  import opened WaveField

  class WaveSystem {
    const gridSize: nat
    const height: array<real>
    const previous: array<real>
    const velocity: array<real>
    var sources: seq<WaveSource>

    /** The buffers are n*n long and pairwise distinct, and the source list
        is within its bound. */
    ghost predicate Valid()
      reads this
    {
      && height.Length == gridSize * gridSize
      && previous.Length == gridSize * gridSize
      && velocity.Length == gridSize * gridSize
      && height != previous && height != velocity && previous != velocity
      && |sources| <= MaxSources
    }

    /** Zero-filled buffers and no sources. */
    constructor (gridSize: nat := 64)
      ensures Valid() && this.gridSize == gridSize && sources == []
      ensures fresh(height) && fresh(previous) && fresh(velocity)
      ensures forall i | 0 <= i < height.Length :: height[i] == 0.0 && previous[i] == 0.0 && velocity[i] == 0.0
    {
      this.gridSize := gridSize;
      height := new real[gridSize * gridSize](_ => 0.0);
      previous := new real[gridSize * gridSize](_ => 0.0);
      velocity := new real[gridSize * gridSize](_ => 0.0);
      sources := [];
    }

    /** Record a disturbance at normalised position (x, y) created at time
        `now` (amplitude 1.0 unless given): append it and, past the bound,
        drop the oldest source. */
    method AddWaveSource(x: real, y: real, now: real, amplitude: real := 1.0)
      requires Valid()
      modifies this
      ensures Valid()
      ensures sources == PushBounded(old(sources), NewSource(x, y, amplitude, now, gridSize))
    {
      var gridX := ((x + 1.0) * 0.5 * ((gridSize - 1) as real)).Floor;
      var gridY := ((y + 1.0) * 0.5 * ((gridSize - 1) as real)).Floor;
      var clampedX := Max(0, Min(gridSize - 1, gridX));
      var clampedY := Max(0, Min(gridSize - 1, gridY));
      var newSource := WaveSource(clampedX, clampedY, amplitude, NewFrequency, now, NewDecay);
      sources := sources + [newSource];
      if |sources| > MaxSources {
        sources := sources[1..];
      }
    }

    /** One tick at `time`: snapshot, clear, ambient, ripples with source
        retirement, then the wave equation on interior cells. Returns the
        height buffer itself. */
    method UpdateWaves(time: real, m: MathLib) returns (field: array<real>)
      requires Valid()
      modifies this, height, previous, velocity
      ensures Valid() && field == height
      ensures previous[..] == old(height[..])
      ensures sources == Survivors(old(sources), time, m)
      ensures forall i | 0 <= i < gridSize * gridSize ::
                velocity[i] == TickVelocity(old(height[..]), old(velocity[..]), gridSize, i)
      ensures forall i | 0 <= i < gridSize * gridSize ::
                height[i] == TickHeight(old(height[..]), old(velocity[..]), old(sources), gridSize, time, m, i)
    {
      ghost var h0, v0, s0 := height[..], velocity[..], sources;
      CopyToPrevious();
      ClearHeight();
      AddAmbient(time, m);
      ghost var h2 := height[..];
      ProcessSources(time, m);
      ghost var h3 := height[..];
      ApplyWaveEquation();
      forall i | 0 <= i < gridSize * gridSize
        ensures velocity[i] == TickVelocity(h0, v0, gridSize, i)
        ensures height[i] == TickHeight(h0, v0, s0, gridSize, time, m, i)
      {
        assert h2[i] == 0.0 + Ambient(gridSize, i % gridSize, i / gridSize, time, m);
        assert h3[i] == h2[i] + SourceSum(sources, i % gridSize, i / gridSize, time, m);
      }
      field := height;
    }

    /** Step 1: previous := height, element by element. */
    method CopyToPrevious()
      requires Valid()
      modifies previous
      ensures previous[..] == height[..]
    {
      var i := 0;
      while i < height.Length
        invariant 0 <= i <= height.Length
        invariant forall j | 0 <= j < i :: previous[j] == height[j]
      {
        previous[i] := height[i];
        i := i + 1;
      }
    }

    /** Step 2: every height back to zero. */
    method ClearHeight()
      requires Valid()
      modifies height
      ensures forall i | 0 <= i < height.Length :: height[i] == 0.0
    {
      var i := 0;
      while i < height.Length
        invariant 0 <= i <= height.Length
        invariant forall j | 0 <= j < i :: height[j] == 0.0
      {
        height[i] := 0.0;
        i := i + 1;
      }
    }

    /** Step 3: add the ambient pattern to every cell, row by row. */
    method AddAmbient(time: real, m: MathLib)
      requires Valid()
      modifies height
      ensures forall i | 0 <= i < height.Length :: height[i] == old(height[i]) + AmbientAt(gridSize, i, time, m)
    {
      var n := gridSize;
      ghost var base := height[..];
      ghost var done := 0;  // cells visited so far, in row-major order
      var y := 0;
      while y < n
        invariant 0 <= y <= n && done == y * n
        invariant AmbientBelow(done, n, base, height[..], time, m)
      {
        var x := 0;
        while x < n
          invariant 0 <= x <= n && done == y * n + x
          invariant AmbientBelow(done, n, base, height[..], time, m)
        {
          var index := y * n + x;
          CellIndex(n, x, y);
          ghost var hs := height[..];
          var nx := x as real / n as real;
          var ny := y as real / n as real;
          var ambient := m.sin(nx * 4.0 + time * 0.5) * m.cos(ny * 3.0 + time * 0.3) * 0.02;
          assert ambient == AmbientAt(n, index, time, m);
          AmbientStep(index, n, base, hs, time, m);
          height[index] := height[index] + ambient;
          assert height[..] == hs[index := hs[index] + AmbientAt(n, index, time, m)];
          x, done := x + 1, done + 1;
        }
        assert done == (y + 1) * n;
        y := y + 1;
      }
      assert done == n * n;
    }

    /** Step 4: keep the live sources in order, and add each live source's
        ripple to every cell inside its packet window. */
    method ProcessSources(time: real, m: MathLib)
      requires Valid()
      modifies this, height
      ensures Valid()
      ensures sources == Survivors(old(sources), time, m)
      ensures forall i | 0 <= i < gridSize * gridSize ::
                height[i] == old(height[i]) + SourceSum(sources, i % gridSize, i / gridSize, time, m)
    {
      var n := gridSize;
      var all := sources;
      ghost var base := height[..];
      var kept: seq<WaveSource> := [];
      var k := 0;
      while k < |all|
        invariant Valid() && sources == all
        invariant 0 <= k <= |all|
        invariant kept == Survivors(all[..k], time, m)
        invariant RipplesAdded(base, height[..], kept, n, time, m)
      {
        var source := all[k];
        ghost var before := height[..];
        var keep := FilterSource(source, time, m);
        FilterStep(base, before, height[..], all, k, kept, keep, n, time, m);
        if keep {
          kept := kept + [source];
        }
        k := k + 1;
      }
      assert all[..k] == all;
      sources := kept;
    }

    /** The filter callback for one source: retire it if it is past its
        lifetime or has decayed away; otherwise add its ripple and keep it. */
    method FilterSource(source: WaveSource, time: real, m: MathLib) returns (keep: bool)
      requires Valid()
      modifies height
      ensures keep == Alive(source, time, m)
      ensures keep ==> forall i | 0 <= i < height.Length ::
                height[i] == old(height[i]) + RippleAt(source, gridSize, i, time, m)
      ensures !keep ==> height[..] == old(height[..])
    {
      var elapsed := time - source.startTime;
      if elapsed > Lifetime {
        return false;
      }
      var currentAmplitude := source.amplitude * m.pow(source.decay, elapsed);
      if currentAmplitude < MinAmplitude {
        return false;
      }
      AddRipple(source, time, m);
      return true;
    }

    /** The ripple loop of the filter callback for one live source: add its
        ripple to every cell inside the packet window, row by row. */
    method AddRipple(source: WaveSource, time: real, m: MathLib)
      requires Valid()
      modifies height
      ensures forall i | 0 <= i < height.Length :: height[i] == old(height[i]) + RippleAt(source, gridSize, i, time, m)
    {
      var n := gridSize;
      ghost var base := height[..];
      ghost var done := 0;  // cells visited so far, in row-major order
      var y := 0;
      while y < n
        invariant 0 <= y <= n && done == y * n
        invariant RippleBelow(done, n, base, height[..], source, time, m)
      {
        var x := 0;
        while x < n
          invariant 0 <= x <= n && done == y * n + x
          invariant RippleBelow(done, n, base, height[..], source, time, m)
        {
          var index := y * n + x;
          CellIndex(n, x, y);
          ghost var hs := height[..];
          RippleStep(index, n, base, hs, source, time, m);
          var wavePosition := WavePosition(source, x, y, time, m);
          if Abs(wavePosition) < PacketHalfWidth {
            height[index] := height[index] + RippleWave(source, x, y, time, m) * 0.5;
          }
          assert height[..] == hs[index := hs[index] + RippleAt(source, n, index, time, m)];
          x, done := x + 1, done + 1;
        }
        assert done == (y + 1) * n;
        y := y + 1;
      }
      assert done == n * n;
    }

    /** Step 5: the damped wave equation on interior cells, reading only the
        snapshot in `previous`. */
    method ApplyWaveEquation()
      requires Valid()
      modifies height, velocity
      ensures forall i | 0 <= i < velocity.Length ::
                velocity[i] == TickVelocity(previous[..], old(velocity[..]), gridSize, i)
      ensures forall i | 0 <= i < height.Length ::
                height[i] == old(height[i]) + (if Interior(gridSize, i) then velocity[i] * Dt else 0.0)
    {
      var n: int := gridSize;
      ghost var prev, v0, h0 := previous[..], velocity[..], height[..];
      NothingStepped(prev);
      var y: int := 1;
      while y < n - 1
        invariant 1 <= y && (n >= 2 ==> y <= n - 1)
        invariant previous[..] == prev
        invariant StepDoneBelow(y * n, prev, v0, h0)
      {
        StepRow(y, prev, v0, h0);
        y := y + 1;
      }
      AllStepped(y, prev, v0, h0);
    }

    /** Before the first row no cell has been stepped: row 0 has no interior
        cell. */
    ghost method NothingStepped(prev: seq<real>)
      requires Valid() && |prev| == gridSize * gridSize
      ensures StepDoneBelow(gridSize, prev, velocity[..], height[..])
    {
      var n := gridSize;
      forall i | 0 <= i < n * n && i < n
        ensures !Interior(n, i)
      {
        DivModUnique(i, n, 0, i);
      }
    }

    /** After the last interior row every interior cell has been stepped. */
    ghost method AllStepped(y: int, prev: seq<real>, v0: seq<real>, h0: seq<real>)
      requires Valid() && |prev| == |v0| == |h0| == gridSize * gridSize
      requires 1 <= y && (gridSize >= 2 ==> y <= gridSize - 1) && !(y < gridSize - 1)
      requires StepDoneBelow(y * gridSize, prev, v0, h0)
      ensures forall i | 0 <= i < velocity.Length :: velocity[i] == TickVelocity(prev, v0, gridSize, i)
      ensures forall i | 0 <= i < height.Length ::
                height[i] == h0[i] + (if Interior(gridSize, i) then velocity[i] * Dt else 0.0)
    {
      var n := gridSize;
      forall i | 0 <= i < n * n && Interior(n, i)
        ensures i < y * n
      {
        InteriorBeforeRow(n, y, i);
      }
    }

    /** Step 5 has stepped exactly the interior cells below `done`. */
    ghost predicate StepDoneBelow(done: int, prev: seq<real>, v0: seq<real>, h0: seq<real>)
      requires Valid()
      requires |prev| == |v0| == |h0| == gridSize * gridSize
      reads this, height, velocity
    {
      SteppedBelow(done, gridSize, velocity[..], height[..], prev, v0, h0)
    }

    /** One row of step 5: the interior cells of row y, left to right. */
    method StepRow(y: int, ghost prev: seq<real>, ghost v0: seq<real>, ghost h0: seq<real>)
      requires Valid()
      requires 1 <= y < gridSize - 1
      requires |prev| == |v0| == |h0| == gridSize * gridSize
      requires previous[..] == prev
      requires StepDoneBelow(y * gridSize, prev, v0, h0)
      modifies height, velocity
      ensures StepDoneBelow((y + 1) * gridSize, prev, v0, h0)
    {
      var n: int := gridSize;
      CellIndex(n, 0, y);
      SkipCell(y * n, n, velocity[..], height[..], prev, v0, h0);
      var x: int := 1;
      while x < n - 1
        invariant 1 <= x <= n - 1
        invariant StepDoneBelow(y * n + x, prev, v0, h0)
      {
        var index := y * n + x;
        CellIndex(n, x, y);
        InteriorCellStencil(prev, v0, n, x, y);
        ghost var vs, hs := velocity[..], height[..];
        StepCell(index, n, vs, hs, prev, v0, h0);
        var laplacian :=
          previous[(y - 1) * n + x] +
          previous[(y + 1) * n + x] +
          previous[y * n + (x - 1)] +
          previous[y * n + (x + 1)] -
          4.0 * previous[index];
        var acceleration := WaveSpeed * WaveSpeed * laplacian;
        velocity[index] := (velocity[index] + acceleration * Dt) * Damping;
        height[index] := height[index] + velocity[index] * Dt;
        assert velocity[..] == vs[index := TickVelocity(prev, v0, n, index)];
        assert height[..] == hs[index := h0[index] + TickVelocity(prev, v0, n, index) * Dt];
        x := x + 1;
      }
      CellIndex(n, n - 1, y);
      SkipCell(y * n + n - 1, n, velocity[..], height[..], prev, v0, h0);
      assert y * n + n == (y + 1) * n;
    }
  }
}
