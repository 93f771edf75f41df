/** The arithmetic of the CSS-3D card animation: how many cards the data
    table yields, and where each card goes in each of the four layouts
    (a stack at the origin, a sphere, a helix and a 5-by-5-by-N grid). */
module CardLayout {
  import opened Numerics

  /** One cell of the card data table: a string or a number. */
  datatype Entry = Text(s: string) | Number(n: int)

  /** Each card is described by this many consecutive table entries. */
  const EntriesPerCard: nat := 5
  /** No more cards than this are built. */
  const MaxCards: nat := 100
  /** The host's double-precision value of pi. */
  const Pi: real := 3.141592653589793

  /** The record repeated throughout the table: blank symbol, name, subtitle
      and two numbers that are never shown. */
  const Record: seq<Entry> := [Text(""), Text("Oleg"), Text("atlasgrid"), Number(0), Number(0)]

  /** The card data table: 118 copies of Record, one after another. */
  function CardData(): seq<Entry>
  {
    seq(118 * EntriesPerCard, k requires 0 <= k < 118 * EntriesPerCard => Record[k % EntriesPerCard])
  }

  /** How many cards a table of `tableLength` entries yields: as many whole
      records as it holds, but never more than MaxCards. */
  function CardCount(tableLength: nat): (c: nat)
    ensures c <= MaxCards
    ensures c * EntriesPerCard <= tableLength
    ensures c == MaxCards || tableLength < (c + 1) * EntriesPerCard
  {
    Min(tableLength / EntriesPerCard, MaxCards)
  }

  /** The table as shipped yields exactly one hundred cards. */
  lemma DataGivesHundredCards()
    ensures CardCount(|CardData()|) == 100
  {
  }

  /** A position in scene units. */
  datatype Vec3 = Vec3(x: real, y: real, z: real)

  const Origin: Vec3 := Vec3(0.0, 0.0, 0.0)

  /** Spherical to Cartesian, y up: polar angle phi from +y, azimuth theta
      around it from +z. */
  function FromSpherical(radius: real, phi: real, theta: real, m: MathLib): Vec3
  {
    var sinPhiRadius := m.sin(phi) * radius;
    Vec3(sinPhiRadius * m.sin(theta), m.cos(phi) * radius, sinPhiRadius * m.cos(theta))
  }

  /** Cylindrical to Cartesian, y along the axis. */
  function FromCylindrical(radius: real, theta: real, y: real, m: MathLib): Vec3
  {
    Vec3(radius * m.sin(theta), y, radius * m.cos(theta))
  }

  /** On a unit-consistent trigonometry every spherical point lies at its
      radius from the origin. */
  lemma SphericalOnSphere(radius: real, phi: real, theta: real, m: MathLib)
    requires Pythagorean(m)
    ensures Norm2(FromSpherical(radius, phi, theta, m)) == radius * radius
  {
    var sp, cp, st, ct := m.sin(phi), m.cos(phi), m.sin(theta), m.cos(theta);
    assert sp * sp + cp * cp == 1.0 && st * st + ct * ct == 1.0;
    var v := FromSpherical(radius, phi, theta, m);
    var h := sp * radius;
    assert v == Vec3(h * st, cp * radius, h * ct);
    ScaledUnit(h, st, ct);
    ScaledUnit(radius, sp, cp);
  }

  /** Every cylindrical point lies at its radius from the axis. */
  lemma CylindricalOnCylinder(radius: real, theta: real, y: real, m: MathLib)
    requires Pythagorean(m)
    ensures AxisDistance2(FromCylindrical(radius, theta, y, m)) == radius * radius
    ensures FromCylindrical(radius, theta, y, m).y == y
  {
    var st, ct := m.sin(theta), m.cos(theta);
    assert st * st + ct * ct == 1.0;
    ScaledUnit(radius, st, ct);
    assert (radius * st) * (radius * st) == (st * radius) * (st * radius);
  }

  /** Squared distance from the origin. */
  function Norm2(v: Vec3): real
  {
    v.x * v.x + v.y * v.y + v.z * v.z
  }

  /** Squared distance from the y axis. */
  function AxisDistance2(v: Vec3): real
  {
    v.x * v.x + v.z * v.z
  }

  /** Scaling a point of the unit circle by k puts it on the circle of
      radius |k|. */
  lemma ScaledUnit(k: real, a: real, b: real)
    requires a * a + b * b == 1.0
    ensures (k * a) * (k * a) + (k * b) * (k * b) == k * k
    ensures (a * k) * (a * k) + (b * k) * (b * k) == k * k
  {
    calc {
      (k * a) * (k * a) + (k * b) * (k * b);
      k * k * (a * a) + k * k * (b * b);
      k * k * (a * a + b * b);
      k * k;
    }
  }

  /** Polar angle of card i of `count` on the sphere: the cards are spread
      evenly in height from pole to pole. */
  function SpherePhi(i: nat, count: nat, m: MathLib): real
    requires i < count
  {
    m.acos(-1.0 + (2 * i) as real / count as real)
  }

  /** Azimuth of a card on the sphere: a spiral in phi. */
  function SphereTheta(count: nat, phi: real, m: MathLib): real
  {
    m.sqrt(count as real * Pi) * phi
  }

  /** Card i of `count` on the sphere of radius 800. */
  function SpherePosition(i: nat, count: nat, m: MathLib): Vec3
    requires i < count
  {
    var phi := SpherePhi(i, count, m);
    FromSpherical(800.0, phi, SphereTheta(count, phi, m), m)
  }

  /** Card i of `count` sits on the sphere of radius 800 at height
      800 * (2i/count - 1): from the bottom pole upward in even steps. */
  lemma SpherePlacement(i: nat, count: nat, m: MathLib)
    requires i < count && Pythagorean(m) && AcosInverse(m)
    ensures Norm2(SpherePosition(i, count, m)) == 800.0 * 800.0
    ensures SpherePosition(i, count, m).y == 800.0 * (-1.0 + (2 * i) as real / count as real)
  {
    var t := -1.0 + (2 * i) as real / count as real;
    assert 0.0 <= (2 * i) as real / count as real <= 2.0 by {
      assert (2 * i) as real <= 2.0 * count as real;
    }
    var phi := SpherePhi(i, count, m);
    assert m.cos(phi) == t;
    SphericalOnSphere(800.0, phi, SphereTheta(count, phi, m), m);
  }

  /** Later cards sit strictly higher on the sphere. */
  lemma SphereAscends(i: nat, j: nat, count: nat, m: MathLib)
    requires i < j < count && Pythagorean(m) && AcosInverse(m)
    ensures SpherePosition(i, count, m).y < SpherePosition(j, count, m).y
  {
    SpherePlacement(i, count, m);
    SpherePlacement(j, count, m);
    DivLess((2 * i) as real, (2 * j) as real, count as real);
  }

  /** The height of card i on the helix. */
  function HelixY(i: nat): (y: int)
    ensures i < MaxCards ==> -342 <= y <= 450
  {
    -(i * 8) + 450
  }

  /** Each card sits exactly 8 units below its predecessor on the helix, so
      the heights strictly decrease with the card index. */
  lemma {:induction false} HelixDescends(i: nat, j: nat)
    requires i < j
    ensures HelixY(j) == HelixY(i) - 8 * (j - i)
    ensures HelixY(j) < HelixY(i)
  {
  }

  /** Card i on the helix of radius 900. */
  function HelixPosition(i: nat, m: MathLib): Vec3
  {
    var theta := i as real * 0.175 + Pi;
    FromCylindrical(900.0, theta, HelixY(i) as real, m)
  }

  /** Card i sits on the cylinder of radius 900 around the y axis, at its
      helix height. */
  lemma HelixPlacement(i: nat, m: MathLib)
    requires Pythagorean(m)
    ensures AxisDistance2(HelixPosition(i, m)) == 900.0 * 900.0
    ensures HelixPosition(i, m).y == HelixY(i) as real
  {
    CylindricalOnCylinder(900.0, i as real * 0.175 + Pi, HelixY(i) as real, m);
  }

  /** Column of card i in its 5-by-5 layer, as an x offset. */
  function GridX(i: nat): (x: int)
    ensures x in {-800, -400, 0, 400, 800}
  {
    ((i % 5) * 400) - 800
  }

  /** Row of card i in its 5-by-5 layer, as a y offset (first row on top). */
  function GridY(i: nat): (y: int)
    ensures y in {800, 400, 0, -400, -800}
  {
    (-((i / 5) % 5) * 400) + 800
  }

  /** Layer of card i, as a z offset (one layer per 25 cards). */
  function GridZ(i: nat): (z: int)
    ensures z >= -2000 && (z + 2000) % 1000 == 0
    ensures i < MaxCards ==> z in {-2000, -1000, 0, 1000}
  {
    (i / 25) * 1000 - 2000
  }

  function GridPosition(i: nat): Vec3
  {
    Vec3(GridX(i) as real, GridY(i) as real, GridZ(i) as real)
  }

  /** Which card a grid slot belongs to: the inverse of the three offsets. */
  function GridCardAt(p: Vec3): int
  {
    var x, y, z := p.x.Floor, p.y.Floor, p.z.Floor;
    ((z + 2000) / 1000) * 25 + ((800 - y) / 400) * 5 + (x + 800) / 400
  }

  /** The grid slot of card i determines i. */
  lemma GridRoundTrip(i: nat)
    ensures GridCardAt(GridPosition(i)) == i
  {
    var layer, t := i / 25, i % 25;
    var row, col := t / 5, t % 5;
    assert i == layer * 25 + row * 5 + col;
    DivModUnique(i, 5, layer * 5 + row, col);
    DivModUnique(i / 5, 5, layer, row);
    var p := GridPosition(i);
    assert p.x.Floor == GridX(i) && p.y.Floor == GridY(i) && p.z.Floor == GridZ(i);
    DivModUnique(GridZ(i) + 2000, 1000, layer, 0);
    DivModUnique(800 - GridY(i), 400, row, 0);
    DivModUnique(GridX(i) + 800, 400, col, 0);
  }

  /** No two cards share a slot of the 5-by-5-by-N grid. */
  lemma GridSlotsDistinct(i: nat, j: nat)
    requires i != j
    ensures GridPosition(i) != GridPosition(j)
  {
    GridRoundTrip(i);
    GridRoundTrip(j);
  }

  /** The four layouts a card can be sent to. */
  datatype LayoutKey = Table | Sphere | Helix | Grid

  /** One target position per card for each layout. */
  datatype Targets = Targets(table: seq<Vec3>, sphere: seq<Vec3>, helix: seq<Vec3>, grid: seq<Vec3>)
  {
    function Of(key: LayoutKey): seq<Vec3>
    {
      match key
      case Table => table
      case Sphere => sphere
      case Helix => helix
      case Grid => grid
    }
  }

  /** The targets of `count` cards, layout by layout. */
  function LayoutTargets(count: nat, m: MathLib): (t: Targets)
    ensures |t.table| == |t.sphere| == |t.helix| == |t.grid| == count
    ensures forall key :: |t.Of(key)| == count
    ensures forall i | 0 <= i < count :: t.table[i] == Origin
    ensures forall i | 0 <= i < count :: t.helix[i].y == HelixY(i) as real
  {
    Targets(
      seq(count, _ => Origin),
      seq(count, i requires 0 <= i < count => SpherePosition(i, count, m)),
      seq(count, i requires 0 <= i < count => HelixPosition(i, m)),
      seq(count, i requires 0 <= i < count => GridPosition(i)))
  }

  /** Builds the four target lists with one pass per layout, appending one
      target per card. */
  method BuildTargets(count: nat, m: MathLib) returns (t: Targets)
    ensures t == LayoutTargets(count, m)
  {
    var table: seq<Vec3> := [];
    for idx := 0 to count
      invariant |table| == idx
      invariant forall j | 0 <= j < idx :: table[j] == Origin
    {
      table := table + [Origin];
    }
    var sphere: seq<Vec3> := [];
    for i := 0 to count
      invariant |sphere| == i
      invariant forall j | 0 <= j < i :: sphere[j] == SpherePosition(j, count, m)
    {
      var phi := SpherePhi(i, count, m);
      var theta := SphereTheta(count, phi, m);
      sphere := sphere + [FromSpherical(800.0, phi, theta, m)];
    }
    var helix: seq<Vec3> := [];
    for i := 0 to count
      invariant |helix| == i
      invariant forall j | 0 <= j < i :: helix[j] == HelixPosition(j, m)
    {
      var theta := i as real * 0.175 + Pi;
      var y := -(i * 8) + 450;
      helix := helix + [FromCylindrical(900.0, theta, y as real, m)];
    }
    var grid: seq<Vec3> := [];
    for i := 0 to count
      invariant |grid| == i
      invariant forall j | 0 <= j < i :: grid[j] == GridPosition(j)
    {
      var x := ((i % 5) * 400) - 800;
      var y := (-((i / 5) % 5) * 400) + 800;
      var z := (i / 25) * 1000 - 2000;
      grid := grid + [Vec3(x as real, y as real, z as real)];
    }
    t := Targets(table, sphere, helix, grid);
  }

  /** The three layouts the animation cycles through, in order. */
  const LayoutSequence: seq<LayoutKey> := [Sphere, Helix, Grid]

  /** The cycle counter after one timer tick. */
  function NextIndex(seqIndex: nat): (r: nat)
    ensures r < |LayoutSequence|
    ensures seqIndex < |LayoutSequence| - 1 ==> r == seqIndex + 1
    ensures seqIndex == |LayoutSequence| - 1 ==> r == 0
  {
    (seqIndex + 1) % |LayoutSequence|
  }

  /** The cycle counter after `ticks` timer ticks from its initial 0. */
  function IndexAfter(ticks: nat): nat
  {
    if ticks == 0 then 0 else NextIndex(IndexAfter(ticks - 1))
  }

  /** The counter simply counts ticks modulo three. */
  lemma {:induction false} IndexAfterCountsTicks(ticks: nat)
    ensures IndexAfter(ticks) == ticks % |LayoutSequence|
  {
    if ticks > 0 {
      IndexAfterCountsTicks(ticks - 1);
    }
  }
}
