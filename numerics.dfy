/** Shared numeric vocabulary: the floating-point library the core calls
    (kept uninterpreted), integer clamping, and the arithmetic of
    row-major grid indices. */
module Numerics {

  /** The transcendental functions the core takes from the host's `Math`
      object. The model never looks inside them: each is an arbitrary total
      function on reals supplied by the caller. */
  datatype MathLib = MathLib(
    sin: real -> real,
    cos: real -> real,
    exp: real -> real,
    pow: (real, real) -> real,
    sqrt: real -> real,
    acos: real -> real)

  function Abs(r: real): real
  {
    if r < 0.0 then -r else r
  }

  function Min(a: int, b: int): int
  {
    if a <= b then a else b
  }

  function Max(a: int, b: int): int
  {
    if a >= b then a else b
  }

  /** Sine and cosine take values in [-1, 1]. */
  ghost predicate TrigBounded(m: MathLib)
  {
    forall a :: -1.0 <= m.sin(a) <= 1.0 && -1.0 <= m.cos(a) <= 1.0
  }

  /** sin(a)^2 + cos(a)^2 = 1 for every angle. */
  ghost predicate Pythagorean(m: MathLib)
  {
    forall a :: m.sin(a) * m.sin(a) + m.cos(a) * m.cos(a) == 1.0
  }

  /** exp maps every non-positive argument into (0, 1]. */
  ghost predicate ExpDecays(m: MathLib)
  {
    forall a :: a <= 0.0 ==> 0.0 < m.exp(a) <= 1.0
  }

  /** The square root of a non-negative number is non-negative. */
  ghost predicate SqrtNonNegative(m: MathLib)
  {
    forall a :: a >= 0.0 ==> m.sqrt(a) >= 0.0
  }

  /** cos undoes acos on [-1, 1]. */
  ghost predicate AcosInverse(m: MathLib)
  {
    forall t :: -1.0 <= t <= 1.0 ==> m.cos(m.acos(t)) == t
  }

  /** For a base in (0, 1], a larger exponent never gives a larger power. */
  ghost predicate PowDecreasing(m: MathLib)
  {
    forall b, e1, e2 :: 0.0 < b <= 1.0 && e1 <= e2 ==> m.pow(b, e2) <= m.pow(b, e1)
  }

  /** A factor of magnitude at most one never enlarges the other. */
  lemma AbsMulLe(a: real, b: real)
    requires Abs(b) <= 1.0
    ensures Abs(a * b) <= Abs(a)
  {
    var c := Abs(a);
    assert a * b == c * b || a * b == -(c * b);
    MulNonNegative(c, 1.0 - b);
    MulNonNegative(c, 1.0 + b);
    assert c * (1.0 - b) == c - c * b && c * (1.0 + b) == c + c * b;
  }

  /** Multiplying by a factor in [-1, 1] keeps a symmetric bound. */
  lemma BoundStep(p: real, f: real, bound: real)
    requires -bound <= p <= bound && -1.0 <= f <= 1.0
    ensures -bound <= p * f <= bound
  {
    AbsMulLe(p, f);
  }

  /** Dividing by a positive number keeps a strict order. */
  lemma DivLess(a: real, b: real, c: real)
    requires a < b && c > 0.0
    ensures a / c < b / c
  {
    assert (b / c - a / c) * c == b - a;
  }

  lemma MulNonNegative(x: real, y: real)
    requires x >= 0.0 && y >= 0.0
    ensures x * y >= 0.0
  {
  }

  /** A product with a factor of at least one outweighs the other factor. */
  lemma MulAtLeast(k: int, n: int)
    requires n > 0
    ensures k >= 1 ==> k * n >= n
    ensures k <= -1 ==> k * n <= -n
  {
  }

  /** Division by a positive divisor has one quotient and one remainder. */
  lemma DivModUnique(i: int, n: int, q: int, r: int)
    requires n > 0 && 0 <= r < n && i == q * n + r
    ensures i / n == q && i % n == r
  {
    var q', r' := i / n, i % n;
    assert (q' - q) * n == r - r';
    MulAtLeast(q' - q, n);
  }

  /** Cell (x, y) of an n-by-n row-major grid sits at index y * n + x, inside
      the buffer, and that index splits back into x and y. */
  lemma CellIndex(n: nat, x: int, y: int)
    requires 0 <= x < n && 0 <= y < n
    ensures 0 <= y * n + x < n * n
    ensures (y * n + x) % n == x && (y * n + x) / n == y
  {
    DivModUnique(y * n + x, n, y, x);
    MulAtLeast(n - y, n);
  }

  /** The left and right neighbours of cell (x, y), x off the first and
      last column, lie in the buffer and in row y. */
  lemma RowNeighbours(n: nat, x: int, y: int)
    requires 1 <= x < n - 1 && 0 <= y < n
    ensures 0 <= y * n + x - 1 && y * n + x + 1 < n * n
    ensures (y * n + x - 1) / n == y && (y * n + x + 1) / n == y
  {
    CellIndex(n, x - 1, y);
    CellIndex(n, x + 1, y);
  }

  /** The up and down neighbours of cell (x, y), y off the first and last
      row, lie in the buffer and in column x. */
  lemma ColumnNeighbours(n: nat, x: int, y: int)
    requires 0 <= x < n && 1 <= y < n - 1
    ensures 0 <= y * n + x - n && y * n + x + n < n * n
    ensures (y * n + x - n) % n == x && (y * n + x + n) % n == x
  {
    CellIndex(n, x, y - 1);
    CellIndex(n, x, y + 1);
    assert (y - 1) * n == y * n - n && (y + 1) * n == y * n + n;
  }

  /** The four neighbours of a cell off the outer ring of an n-by-n grid
      lie inside the buffer, the left and right ones in the same row and
      the up and down ones in the same column. */
  lemma NeighbourIndices(n: nat, i: int)
    requires 0 <= i < n * n && 1 <= i % n < n - 1 && 1 <= i / n < n - 1
    ensures 0 <= i - n && i + n < n * n && 0 <= i - 1 && i + 1 < n * n
    ensures (i - 1) / n == i / n && (i + 1) / n == i / n
    ensures (i - n) % n == i % n && (i + n) % n == i % n
  {
    var x, y := i % n, i / n;
    assert i == y * n + x;
    RowNeighbours(n, x, y);
    ColumnNeighbours(n, x, y);
  }
}
