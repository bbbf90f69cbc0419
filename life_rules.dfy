/** What one generation of the Game of Life computes, stated as functions on
    the board storage: the B3/S23 rule, the neighbour index with its
    32-bit wrap, the neighbour count and the next board. */
module LifeRules {
  import opened Boards

  /** 2^32: an `i32` cast to `u32` is taken modulo this. */
  const U32_MODULUS: int := 0x1_0000_0000

  /** The largest `i32`; coordinates are cast from `usize` to `i32`. */
  const I32_MAX: int := 0x7FFF_FFFF

  /** The eight Moore offsets, in the order of `DIRECTIONS`. */
  const Directions: seq<(int, int)> :=
    [(-1, -1), (-1, 0), (-1, 1),
     (0, -1),           (0, 1),
     (1, -1), (1, 0), (1, 1)]

  /** The branch structure of `update` for one cell. Its contract is the
      canonical B3/S23 table: born with exactly 3 live neighbours, survives
      with 2 or 3, dead otherwise. */
  function Rule(alive: bool, liveNeighbours: nat): (next: bool)
    ensures next <==> liveNeighbours == 3 || (alive && liveNeighbours == 2)
    ensures alive && (liveNeighbours < 2 || liveNeighbours > 3) ==> !next
    ensures !alive && liveNeighbours != 3 ==> !next
  {
    if alive then
      if liveNeighbours < 2 || liveNeighbours > 3 then false else true
    else
      liveNeighbours == 3
  }

  /** `((v) as u32) % n`: the value is first reinterpreted as a `u32`, that
      is taken modulo 2^32, and only then reduced modulo `n`. */
  function Wrap(v: int, n: nat): (r: nat)
    requires n > 0
    ensures r < n
  {
    (v % U32_MODULUS) % n
  }

  /** Neighbour `d` of `(x, y)` is live, looked up at the wrapped index. */
  predicate NeighbourLive(cells: seq<seq<bool>>, width: nat, height: nat, x: int, y: int, d: (int, int))
    requires Shaped(cells, width, height) && 0 < width == height
  {
    cells[Wrap(x + d.0, width)][Wrap(y + d.1, height)]
  }

  /** Live neighbours among the first `k` directions. */
  function CountFrom(cells: seq<seq<bool>>, width: nat, height: nat, x: int, y: int, k: nat): (n: nat)
    requires Shaped(cells, width, height) && 0 < width == height
    requires k <= |Directions|
    ensures n <= k
  {
    if k == 0 then 0
    else CountFrom(cells, width, height, x, y, k - 1)
         + (if NeighbourLive(cells, width, height, x, y, Directions[k - 1]) then 1 else 0)
  }

  /** `count_neighbours(x, y)`: between 0 and 8. */
  function LiveNeighbours(cells: seq<seq<bool>>, width: nat, height: nat, x: int, y: int): (n: nat)
    requires Shaped(cells, width, height) && 0 < width == height
    ensures n <= 8
  {
    CountFrom(cells, width, height, x, y, |Directions|)
  }

  /** The board `update` produces: every cell is the rule applied to the
      same cell of the OLD board and its neighbour count on the OLD board. */
  function Step(width: nat, height: nat, cells: seq<seq<bool>>): (next: seq<seq<bool>>)
    requires Shaped(cells, width, height) && FitsStorage(width, height)
    ensures Shaped(next, width, height)
  {
    seq(|cells|, x requires 0 <= x < |cells| =>
      seq(|cells[x]|, y requires 0 <= y < |cells[x]| =>
        Rule(cells[x][y], LiveNeighbours(cells, width, height, x, y))))
  }

  /** Every cell of the next board depends only on the old cell and the
      old neighbours: boards that agree there agree on the next cell. */
  lemma StepIsLocal(width: nat, height: nat, a: seq<seq<bool>>, b: seq<seq<bool>>, x: nat, y: nat)
    requires Shaped(a, width, height) && Shaped(b, width, height) && FitsStorage(width, height)
    requires x < width && y < height
    requires a[x][y] == b[x][y]
    requires forall d :: d in Directions ==> (NeighbourLive(a, width, height, x, y, d) <==> NeighbourLive(b, width, height, x, y, d))
    ensures Step(width, height, a)[x][y] == Step(width, height, b)[x][y]
  {
    CountFromAgree(a, b, width, height, x, y, |Directions|);
  }

  lemma {:induction false} CountFromAgree(a: seq<seq<bool>>, b: seq<seq<bool>>, width: nat, height: nat, x: int, y: int, k: nat)
    requires Shaped(a, width, height) && Shaped(b, width, height) && 0 < width == height
    requires k <= |Directions|
    requires forall i :: 0 <= i < k ==> (NeighbourLive(a, width, height, x, y, Directions[i]) <==> NeighbourLive(b, width, height, x, y, Directions[i]))
    ensures CountFrom(a, width, height, x, y, k) == CountFrom(b, width, height, x, y, k)
  {
    if k > 0 {
      CountFromAgree(a, b, width, height, x, y, k - 1);
    }
  }

  // ---------------------------------------------------------------------
  // The wrap of the neighbour index.

  /** Non-negative offsets below 2^32 are reduced as on a torus: this covers
      the right and bottom edges, where `x + 1 == width` wraps to 0. */
  lemma WrapOfNonNegative(v: int, n: nat)
    requires n > 0 && 0 <= v < U32_MODULUS
    ensures Wrap(v, n) == v % n
    ensures v == n ==> Wrap(v, n) == 0
  {
  }

  /** `a == q * n + r` with `0 <= r < n` determines `a % n`. */
  lemma ModUnique(a: int, n: int, q: int, r: int)
    requires n > 0 && 0 <= r < n && a == q * n + r
    ensures a % n == r
  {
    var k := q - a / n;
    assert a == (a / n) * n + a % n;
    assert k * n == a % n - r;
    MulBounds(k, n);
  }

  lemma MulBounds(k: int, n: int)
    requires n > 0
    ensures k >= 1 ==> k * n >= n
    ensures k <= -1 ==> k * n <= -n
  {
  }

  /** The left and top edges: `-1` becomes `(2^32 - 1) % n`, which is the
      last index `n - 1` exactly when `n` divides 2^32. */
  lemma WrapMinusOneIffDivides(n: nat)
    requires n > 0
    ensures Wrap(-1, n) == n - 1 <==> U32_MODULUS % n == 0
  {
    var m := U32_MODULUS - 1;
    assert -1 % U32_MODULUS == m;
    var q := m / n;
    assert m == q * n + m % n;
    if m % n == n - 1 {
      ModUnique(U32_MODULUS, n, q + 1, 0);
    }
    if U32_MODULUS % n == 0 {
      var p := U32_MODULUS / n;
      assert U32_MODULUS == p * n;
      ModUnique(m, n, p - 1, n - 1);
    }
  }

  /** A width of 3 does not divide 2^32: the left neighbour of column 0 is
      column 0 itself. */
  lemma WrapMinusOneOnWidthThree()
    ensures Wrap(-1, 3) == 0
    ensures U32_MODULUS % 3 != 0
  {
  }

  /** The neighbour index is the torus index `(x + dx) mod width` for every
      offset when the width divides 2^32 (a power of two),
      and for every cell not on the first column otherwise. */
  lemma NeighbourIndexIsTorus(x: int, dx: int, n: nat)
    requires 0 < n <= I32_MAX && 0 <= x < n && -1 <= dx <= 1
    requires x > 0 || dx >= 0 || U32_MODULUS % n == 0
    ensures Wrap(x + dx, n) == (x + dx) % n
  {
    if x + dx >= 0 {
      WrapOfNonNegative(x + dx, n);
    } else {
      assert x + dx == -1;
      WrapMinusOneIffDivides(n);
      assert -1 % n == n - 1;
    }
  }

  // ---------------------------------------------------------------------
  // Consequences for whole boards.

  /** A board with no live cell. */
  function DeadCells(width: nat, height: nat): (cells: seq<seq<bool>>)
    ensures Shaped(cells, width, height)
    ensures forall x, y :: InStorage(cells, x, y) ==> !cells[x][y]
  {
    seq(height, _ => seq(width, _ => false))
  }

  lemma {:induction false} CountOnDeadBoard(width: nat, height: nat, x: int, y: int, k: nat)
    requires 0 < width == height && k <= |Directions|
    ensures CountFrom(DeadCells(width, height), width, height, x, y, k) == 0
  {
    if k > 0 {
      CountOnDeadBoard(width, height, x, y, k - 1);
    }
  }

  /** Nothing is born from nothing: the empty board is a fixed point. */
  lemma StepOfDeadBoard(width: nat, height: nat)
    requires FitsStorage(width, height)
    ensures Step(width, height, DeadCells(width, height)) == DeadCells(width, height)
  {
    var dead := DeadCells(width, height);
    forall x, y | 0 <= x < width && 0 <= y < height
      ensures Step(width, height, dead)[x][y] == dead[x][y]
    {
      CountOnDeadBoard(width, height, x, y, |Directions|);
    }
    SameCells(Step(width, height, dead), dead, width, height);
  }

  /** On a 3 x 3 board (3 does not divide 2^32) a lone live cell in the
      corner (0, 0) is its own left, upper and upper-left neighbour: it
      counts 3 live neighbours and survives, where on a torus it would have
      none and die. */
  lemma LoneCornerCellOnWidthThree()
    ensures var cells := [[true, false, false], [false, false, false], [false, false, false]];
            Shaped(cells, 3, 3) &&
            LiveNeighbours(cells, 3, 3, 0, 0) == 3 &&
            Step(3, 3, cells)[0][0]
  {
  }
}
