/** The wave-source list of the ripple simulator: how a cursor position
    becomes a grid cell, the bounded oldest-first queue that `addWaveSource`
    keeps, and the retirement filter that `updateWaves` applies each tick. */
module WaveSources {
  import opened Numerics

  /** At most this many sources are live at once. */
  const MaxSources: nat := 10
  /** Every new source oscillates at this frequency ... */
  const NewFrequency: real := 2.0
  /** ... and decays by this factor per unit of elapsed time. */
  const NewDecay: real := 0.95
  /** A source older than this is retired whatever its amplitude. */
  const Lifetime: real := 8.0
  /** A source whose decayed amplitude falls below this is retired. */
  const MinAmplitude: real := 0.001

  /** A transient disturbance centred on grid cell (x, y). */
  datatype WaveSource = WaveSource(
    x: int,
    y: int,
    amplitude: real,
    frequency: real,
    startTime: real,
    decay: real)

  /** Maps a normalised coordinate (nominally in [-1, 1]) to a grid index:
      floor((c + 1) * 0.5 * (gridSize - 1)), clamped to [0, gridSize - 1].
      Nothing is rejected: any real lands on a valid cell. */
  function GridCoord(c: real, gridSize: nat): (g: int)
    ensures gridSize >= 1 ==> 0 <= g <= gridSize - 1
    ensures gridSize == 0 ==> g == 0
  {
    var raw := ((c + 1.0) * 0.5 * ((gridSize - 1) as real)).Floor;
    Max(0, Min(gridSize - 1, raw))
  }

  /** On the documented input range the clamp never bites: the cell is the
      plain floor of the scaled coordinate. */
  lemma GridCoordUnclamped(c: real, gridSize: nat)
    requires -1.0 <= c <= 1.0 && gridSize >= 1
    ensures GridCoord(c, gridSize) == ((c + 1.0) * 0.5 * ((gridSize - 1) as real)).Floor
  {
    var s := (c + 1.0) * 0.5;
    var w := (gridSize - 1) as real;
    assert 0.0 <= s <= 1.0;
    assert 0.0 <= s * w <= w by {
      assert s * w <= 1.0 * w;
    }
    assert (c + 1.0) * 0.5 * w == s * w;
  }

  /** A cursor further right (or lower) never maps to a cell further left
      (or higher). */
  lemma GridCoordMonotone(c1: real, c2: real, gridSize: nat)
    requires c1 <= c2
    ensures GridCoord(c1, gridSize) <= GridCoord(c2, gridSize)
  {
    var w := (gridSize - 1) as real;
    if gridSize >= 1 {
      var t1, t2 := (c1 + 1.0) * 0.5 * w, (c2 + 1.0) * 0.5 * w;
      assert t1 <= t2 by {
        assert t2 - t1 == (c2 - c1) * 0.5 * w;
      }
      assert t1.Floor as real <= t1 && t2 < t2.Floor as real + 1.0;
    }
  }

  /** The centre of the screen maps to cell 31 of the default 64-cell grid. */
  lemma GridCoordCentre()
    ensures GridCoord(0.0, 64) == 31
  {
    assert (0.0 + 1.0) * 0.5 * ((64 - 1) as real) == 31.5;
  }

  /** The source `addWaveSource` creates: clamped cell, the caller's
      amplitude, the fixed frequency and decay, and the current time. */
  function NewSource(x: real, y: real, amplitude: real, now: real, gridSize: nat): (s: WaveSource)
    ensures gridSize >= 1 ==> 0 <= s.x < gridSize && 0 <= s.y < gridSize
    ensures s.frequency == 2.0 && s.decay == 0.95
    ensures s.amplitude == amplitude && s.startTime == now
  {
    WaveSource(GridCoord(x, gridSize), GridCoord(y, gridSize), amplitude, NewFrequency, now, NewDecay)
  }

  /** Append `s`; if that overfills the queue, drop its front (oldest) entry. */
  function PushBounded(sources: seq<WaveSource>, s: WaveSource): (r: seq<WaveSource>)
    ensures |sources| <= MaxSources ==> |r| <= MaxSources
    ensures |r| > 0 && r[|r| - 1] == s
    ensures |sources| < MaxSources ==> r == sources + [s]
    ensures |sources| == MaxSources ==> r == sources[1..] + [s]
  {
    var appended := sources + [s];
    if |appended| > MaxSources then appended[1..] else appended
  }

  /** The last (at most MaxSources) entries of `q`, in order. */
  function MostRecent(q: seq<WaveSource>): (r: seq<WaveSource>)
  {
    q[|q| - Min(|q|, MaxSources)..]
  }

  /** Adds every source of `adds` in arrival order. */
  function PushAll(sources: seq<WaveSource>, adds: seq<WaveSource>): seq<WaveSource>
    decreases |adds|
  {
    if adds == [] then sources else PushAll(PushBounded(sources, adds[0]), adds[1..])
  }

  /** From a list within the bound, one push keeps the most recent
      entries. */
  lemma PushBoundedIsMostRecent(sources: seq<WaveSource>, s: WaveSource)
    requires |sources| <= MaxSources
    ensures PushBounded(sources, s) == MostRecent(sources + [s])
  {
    var q := sources + [s];
    if |sources| < MaxSources {
      assert MostRecent(q) == q[0..];
    } else {
      assert MostRecent(q) == q[1..];
    }
  }

  /** Trimming to the most recent entries first changes nothing about which
      entries are most recent afterwards. */
  lemma MostRecentAbsorbs(q: seq<WaveSource>, rest: seq<WaveSource>)
    ensures MostRecent(MostRecent(q) + rest) == MostRecent(q + rest)
  {
    var k := Min(|q|, MaxSources);
    var x := q + rest;
    var x' := MostRecent(q) + rest;
    assert x' == x[|q| - k..];
    var k' := Min(|x'|, MaxSources);
    assert k' == Min(|x|, MaxSources);
    assert MostRecent(x') == x'[|x'| - k'..];
    assert x'[|x'| - k'..] == x[|x| - k'..];
  }

  /** The FIFO bound: starting from a list within the bound, any burst of
      additions leaves exactly the MaxSources most recent sources, oldest
      first. */
  lemma {:induction false} PushAllKeepsMostRecent(sources: seq<WaveSource>, adds: seq<WaveSource>)
    requires |sources| <= MaxSources
    ensures PushAll(sources, adds) == MostRecent(sources + adds)
    decreases |adds|
  {
    if adds == [] {
      assert sources + adds == sources;
    } else {
      var q, rest := sources + [adds[0]], adds[1..];
      assert q + rest == sources + adds;
      calc {
        PushAll(sources, adds);
        PushAll(PushBounded(sources, adds[0]), rest);
        { PushBoundedIsMostRecent(sources, adds[0]); PushAllKeepsMostRecent(PushBounded(sources, adds[0]), rest); }
        MostRecent(MostRecent(q) + rest);
        { MostRecentAbsorbs(q, rest); }
        MostRecent(q + rest);
      }
    }
  }

  /** The amplitude of `s` once `time - s.startTime` has elapsed. */
  function CurrentAmplitude(s: WaveSource, time: real, m: MathLib): real
  {
    s.amplitude * m.pow(s.decay, time - s.startTime)
  }

  /** A source survives a tick unless it is past its lifetime or its decayed
      amplitude has dropped below the threshold. */
  predicate Alive(s: WaveSource, time: real, m: MathLib)
  {
    && !(time - s.startTime > Lifetime)
    && !(CurrentAmplitude(s, time, m) < MinAmplitude)
  }

  /** A source created with an amplitude of at least the threshold is live
      at the instant it is created, when raising to the power 0 gives 1. */
  lemma NewSourceAlive(x: real, y: real, amplitude: real, now: real, gridSize: nat, m: MathLib)
    requires m.pow(NewDecay, 0.0) == 1.0 && amplitude >= MinAmplitude
    ensures Alive(NewSource(x, y, amplitude, now, gridSize), now, m)
  {
    var s := NewSource(x, y, amplitude, now, gridSize);
    assert now - s.startTime == 0.0;
    assert CurrentAmplitude(s, now, m) == amplitude * 1.0;
  }

  /** Retirement is final: a source with a non-negative amplitude and a
      decay in (0, 1] that is retired at `t1` would be retired at any later
      `t2` too, so the filter never has to bring a source back. */
  lemma RetirementIsPermanent(s: WaveSource, t1: real, t2: real, m: MathLib)
    requires PowDecreasing(m) && 0.0 < s.decay <= 1.0 && s.amplitude >= 0.0
    requires t1 <= t2 && !Alive(s, t1, m)
    ensures !Alive(s, t2, m)
  {
    if !(t1 - s.startTime > Lifetime) {
      var p1, p2 := m.pow(s.decay, t1 - s.startTime), m.pow(s.decay, t2 - s.startTime);
      assert p2 <= p1;
      assert s.amplitude * p2 <= s.amplitude * p1;
    }
  }

  /** The source list after a tick at `time`: the live sources, in their
      original order. */
  function Survivors(sources: seq<WaveSource>, time: real, m: MathLib): (r: seq<WaveSource>)
    ensures |r| <= |sources|
    ensures forall k | 0 <= k < |r| :: Alive(r[k], time, m)
    ensures forall k | 0 <= k < |sources| :: Alive(sources[k], time, m) ==> sources[k] in r
    decreases |sources|
  {
    if sources == [] then []
    else
      var last := sources[|sources| - 1];
      var kept := Survivors(sources[..|sources| - 1], time, m);
      if Alive(last, time, m) then kept + [last] else kept
  }

  /** One more source is kept exactly when it is alive. */
  lemma SurvivorsSnoc(sources: seq<WaveSource>, s: WaveSource, time: real, m: MathLib)
    ensures Survivors(sources + [s], time, m)
         == if Alive(s, time, m) then Survivors(sources, time, m) + [s] else Survivors(sources, time, m)
  {
    assert (sources + [s])[..|sources|] == sources;
  }

  /** Survivors is exactly a filter: every live source is kept as many times
      as it occurs, every retired one disappears. */
  lemma {:induction false} SurvivorsCount(sources: seq<WaveSource>, time: real, m: MathLib, s: WaveSource)
    ensures multiset(Survivors(sources, time, m))[s]
         == if Alive(s, time, m) then multiset(sources)[s] else 0
    decreases |sources|
  {
    if sources != [] {
      var init := sources[..|sources| - 1];
      SurvivorsCount(init, time, m, s);
      assert sources == init + [sources[|sources| - 1]];
    }
  }

  /** Filtering respects order: the survivors of a concatenation are the
      survivors of the front followed by the survivors of the back. */
  lemma {:induction false} SurvivorsConcat(a: seq<WaveSource>, b: seq<WaveSource>, time: real, m: MathLib)
    ensures Survivors(a + b, time, m) == Survivors(a, time, m) + Survivors(b, time, m)
    decreases |b|
  {
    if b == [] {
      assert a + b == a;
    } else {
      var init, last := b[..|b| - 1], b[|b| - 1];
      SurvivorsConcat(a, init, time, m);
      assert (a + b)[..|a + b| - 1] == a + init;
      assert (a + b)[|a + b| - 1] == last;
      var front := Survivors(a, time, m);
      var tail := Survivors(init, time, m);
      if Alive(last, time, m) {
        calc {
          Survivors(a + b, time, m);
          Survivors(a + init, time, m) + [last];
          front + tail + [last];
          front + (tail + [last]);
          front + Survivors(b, time, m);
        }
      }
    }
  }

  /** When every source is live, a tick retires nothing. */
  lemma {:induction false} SurvivorsAllAlive(sources: seq<WaveSource>, time: real, m: MathLib)
    requires forall k | 0 <= k < |sources| :: Alive(sources[k], time, m)
    ensures Survivors(sources, time, m) == sources
    decreases |sources|
  {
    if sources != [] {
      SurvivorsAllAlive(sources[..|sources| - 1], time, m);
      assert sources == sources[..|sources| - 1] + [sources[|sources| - 1]];
    }
  }
}
