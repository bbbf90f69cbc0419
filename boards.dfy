/** The board of the Game of Life: a fixed-size grid of cells stored as
    `height` rows of `width` booleans and indexed `data[x][y]`.

    Because storage has `height` rows but the first index is the column `x`,
    a coordinate `x < width, y < height` is a valid index exactly when the
    board is square (or has no cells at all); see `IndexableIffFits`. */
module Boards {

  /** Storage shape built by `vec![vec![_; width]; height]`. */
  ghost predicate Shaped(cells: seq<seq<bool>>, width: nat, height: nat) {
    |cells| == height && forall k :: 0 <= k < |cells| ==> |cells[k]| == width
  }

  /** The dimensions for which every coordinate `x < width, y < height`
      can be used as `data[x][y]` without leaving the storage. */
  predicate FitsStorage(width: nat, height: nat) {
    width == height || width == 0 || height == 0
  }

  /** `cells[x][y]` exists. */
  predicate InStorage(cells: seq<seq<bool>>, x: int, y: int) {
    0 <= x < |cells| && 0 <= y < |cells[x]|
  }

  /** Every in-range coordinate is a valid storage index if and only if the
      dimensions fit the storage: a non-square board with cells has some
      coordinate whose access panics. */
  lemma IndexableIffFits(cells: seq<seq<bool>>, width: nat, height: nat)
    requires Shaped(cells, width, height)
    ensures (forall x, y :: 0 <= x < width && 0 <= y < height ==> InStorage(cells, x, y))
            <==> FitsStorage(width, height)
  {
    if !FitsStorage(width, height) {
      if width > height {
        // column `height` is in range but there is no row `height`
        assert !InStorage(cells, height, 0);
      } else {
        // `y == width` is in range but row 0 has only `width` cells
        assert !InStorage(cells, 0, width);
      }
    }
  }

  /** Two boards of the same fitting shape are equal when they agree on every
      in-range cell. */
  lemma {:induction false} SameCells(a: seq<seq<bool>>, b: seq<seq<bool>>, width: nat, height: nat)
    requires Shaped(a, width, height) && Shaped(b, width, height) && FitsStorage(width, height)
    requires forall x, y :: 0 <= x < width && 0 <= y < height ==> a[x][y] == b[x][y]
    ensures a == b
  {
    forall x | 0 <= x < |a|
      ensures a[x] == b[x]
    {
      assert |a[x]| == width == |b[x]|;
      forall y | 0 <= y < |a[x]|
        ensures a[x][y] == b[x][y]
      {
        assert x < width && y < height;
      }
    }
  }

  /** A pixel of a bitmap: its three colour channels. */
  newtype byte = x: int | 0 <= x < 256

  datatype Pixel = Pixel(r: byte, g: byte, b: byte)

  /** A decoded bitmap: its dimensions and `get_pixel(x, y)`. */
  datatype Bitmap = Bitmap(width: nat, height: nat, pixel: (nat, nat) -> Pixel)

  /** A pixel marks a live cell when it is pure black. */
  predicate IsBlack(p: Pixel) {
    p.r == 0 && p.g == 0 && p.b == 0
  }

  /** Every cell that `live` asks to set, among `x < width, y < height`,
      lies inside storage of `height` rows of `width` cells. Only those
      cells are written, so only they can leave the storage. */
  predicate LiveCellsFit(width: nat, height: nat, live: (nat, nat) -> bool) {
    forall x: nat, y: nat :: x < width && y < height && live(x, y) ==> x < height && y < width
  }

  /** The nested loop shared by `Board::random` and `Board::from_bmp`:
      allocate `height` rows of `width` dead cells, then for `i < width`,
      `j < height` write `true` into cell `[i][j]` when `live(i, j)` holds.
      A cell of the storage ends up live exactly when it is in range and
      `live` holds there; every other cell stays dead. */
  method FillCells(width: nat, height: nat, live: (nat, nat) -> bool) returns (cells: seq<seq<bool>>)
    requires LiveCellsFit(width, height, live)
    ensures Shaped(cells, width, height)
    ensures forall x, y :: InStorage(cells, x, y) ==> (cells[x][y] <==> x < width && y < height && live(x, y))
    ensures FitsStorage(width, height) ==>
              forall x, y :: 0 <= x < width && 0 <= y < height ==> InStorage(cells, x, y) && cells[x][y] == live(x, y)
  {
    cells := seq(height, _ => seq(width, _ => false));
    var i := 0;
    while i < width
      invariant 0 <= i <= width
      invariant Shaped(cells, width, height)
      invariant forall x, y :: InStorage(cells, x, y) ==>
                  (cells[x][y] <==> x < i && y < height && live(x, y))
    {
      var j := 0;
      while j < height
        invariant 0 <= j <= height
        invariant Shaped(cells, width, height)
        invariant forall x, y :: InStorage(cells, x, y) ==>
                    (cells[x][y] <==> (x < i || (x == i && y < j)) && y < height && live(x, y))
      {
        if live(i, j) {
          cells := cells[i := cells[i][j := true]];
        }
        j := j + 1;
      }
      i := i + 1;
    }
  }

  class Board {
    var width: nat
    var height: nat
    var data: seq<seq<bool>>

    ghost predicate Valid()
      reads this
    {
      Shaped(data, width, height)
    }

    /** `data[x][y]` is inside the storage. */
    predicate CanIndex(x: nat, y: nat)
      reads this
    {
      InStorage(data, x, y)
    }

    /** `Board::new`: every cell holds `default`. */
    constructor (width: nat, height: nat, default: bool)
      ensures Valid() && this.width == width && this.height == height
      ensures forall x, y :: InStorage(data, x, y) ==> data[x][y] == default
      ensures FitsStorage(width, height) ==>
                forall x, y :: 0 <= x < width && 0 <= y < height ==> CanIndex(x, y) && Get(x, y) == default
    {
      this.width := width;
      this.height := height;
      data := seq(height, _ => seq(width, _ => default));
    }

    /** `Board::random`; `draw(i, j)` stands for the outcome of comparing the
        number drawn for cell `(i, j)` with the live probability. */
    constructor Random(width: nat, height: nat, draw: (nat, nat) -> bool)
      requires LiveCellsFit(width, height, draw)
      ensures Valid() && this.width == width && this.height == height
      ensures forall x: nat, y: nat :: CanIndex(x, y) ==> (Get(x, y) <==> x < width && y < height && draw(x, y))
      ensures FitsStorage(width, height) ==>
                forall x, y :: 0 <= x < width && 0 <= y < height ==> CanIndex(x, y) && Get(x, y) == draw(x, y)
    {
      var cells := FillCells(width, height, draw);
      this.width := width;
      this.height := height;
      data := cells;
    }

    /** `Board::from_bmp` over an already decoded bitmap: a cell is live
        exactly when its pixel is black, and the board takes the bitmap's
        dimensions. */
    constructor FromBitmap(image: Bitmap)
      requires forall x: nat, y: nat :: x < image.width && y < image.height && IsBlack(image.pixel(x, y)) ==>
                 x < image.height && y < image.width
      ensures Valid() && width == image.width && height == image.height
      ensures forall x: nat, y: nat :: CanIndex(x, y) ==>
                (Get(x, y) <==> x < width && y < height && IsBlack(image.pixel(x, y)))
      ensures FitsStorage(width, height) ==>
                forall x, y :: 0 <= x < width && 0 <= y < height ==>
                  CanIndex(x, y) && (Get(x, y) <==> IsBlack(image.pixel(x, y)))
    {
      var cells := FillCells(image.width, image.height, (x: nat, y: nat) => IsBlack(image.pixel(x, y)));
      width := image.width;
      height := image.height;
      data := cells;
    }

    /** `Board::get`: the stored cell `data[x][y]`. */
    function Get(x: nat, y: nat): (alive: bool)
      reads this
      requires CanIndex(x, y)
      ensures alive == data[x][y]
    {
      data[x][y]
    }

    /** `Board::set`: only cell `(x, y)` changes, and it now reads `value`. */
    method Set(x: nat, y: nat, value: bool)
      requires Valid() && CanIndex(x, y)
      modifies this
      ensures Valid() && width == old(width) && height == old(height)
      ensures data == old(data)[x := old(data)[x][y := value]]
      ensures CanIndex(x, y) && Get(x, y) == value
      ensures forall i: nat, j: nat :: CanIndex(i, j) && (i, j) != (x, y) ==> Get(i, j) == old(data)[i][j]
    {
      data := data[x := data[x][y := value]];
    }
  }
}
