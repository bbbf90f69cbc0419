/** The simulation: a board, a generation counter and the `paused` and
    `finished` flags, advanced one generation at a time by `Update`. */
module Game {
  import opened Boards
  import opened LifeRules

  class GameOfLife {
    var board: Board
    var paused: bool
    var finished: bool
    var generation: nat

    ghost predicate Valid()
      reads this, board
    {
      board.Valid()
    }

    /** `GameOfLife::new`: generation 0, running, not finished. */
    constructor (board: Board)
      requires board.Valid()
      ensures Valid() && this.board == board
      ensures generation == 0 && !IsPaused() && !IsFinished()
    {
      this.board := board;
      paused := false;
      finished := false;
      generation := 0;
    }

    /** `GameOfLife::update`: fills a fresh board cell by cell from the old
        board, then counts the generation and swaps the new board in. The
        flags are neither checked nor changed. */
    method Update()
      requires Valid()
      requires FitsStorage(board.width, board.height)
      requires board.width <= I32_MAX && board.height <= I32_MAX
      modifies this
      ensures Valid() && fresh(board)
      ensures board.width == old(board.width) && board.height == old(board.height)
      ensures board.data == Step(old(board.width), old(board.height), old(board.data))
      ensures generation == old(generation) + 1
      ensures paused == old(paused) && finished == old(finished)
    {
      var width := board.width;
      var height := board.height;
      ghost var cells := board.data;
      var newBoard := new Board(width, height, false);

      var i := 0;
      while i < width
        invariant 0 <= i <= width
        invariant unchanged(this) && board.data == cells
        invariant fresh(newBoard) && newBoard.Valid()
        invariant newBoard.width == width && newBoard.height == height
        invariant forall x, y :: 0 <= x < i && 0 <= y < height ==>
                    newBoard.data[x][y] == Rule(cells[x][y], LiveNeighbours(cells, width, height, x, y))
        invariant forall x, y :: i <= x < width && 0 <= y < height ==> !newBoard.data[x][y]
      {
        var j := 0;
        while j < height
          invariant 0 <= j <= height
          invariant unchanged(this) && board.data == cells
          invariant fresh(newBoard) && newBoard.Valid()
          invariant newBoard.width == width && newBoard.height == height
          invariant forall x, y :: 0 <= x < i && 0 <= y < height ==>
                      newBoard.data[x][y] == Rule(cells[x][y], LiveNeighbours(cells, width, height, x, y))
          invariant forall y :: 0 <= y < j ==>
                      newBoard.data[i][y] == Rule(cells[i][y], LiveNeighbours(cells, width, height, i, y))
          invariant forall y :: j <= y < height ==> !newBoard.data[i][y]
          invariant forall x, y :: i < x < width && 0 <= y < height ==> !newBoard.data[x][y]
        {
          var cellAlive := board.Get(i, j);
          var liveNeighbours := CountNeighbours(i, j);

          if cellAlive {
            if liveNeighbours < 2 || liveNeighbours > 3 {
              newBoard.Set(i, j, false);
            } else {
              newBoard.Set(i, j, true);
            }
          } else {
            if liveNeighbours == 3 {
              newBoard.Set(i, j, true);
            }
          }
          j := j + 1;
        }
        i := i + 1;
      }

      SameCells(newBoard.data, Step(width, height, cells), width, height);
      generation := generation + 1;
      board := newBoard;
    }

    /** `GameOfLife::count_neighbours`: sums the eight wrapped neighbours,
        reading the board's storage directly. */
    method CountNeighbours(x: int, y: int) returns (neighbours: nat)
      requires Valid() && 0 < board.width == board.height <= I32_MAX
      requires 0 <= x < board.width && 0 <= y < board.height
      ensures neighbours == LiveNeighbours(board.data, board.width, board.height, x, y)
      ensures neighbours <= 8
    {
      neighbours := 0;
      var width := board.width;
      var height := board.height;
      var k := 0;
      while k < |Directions|
        invariant 0 <= k <= |Directions|
        invariant neighbours == CountFrom(board.data, width, height, x, y, k)
      {
        var direction := Directions[k];
        var nx := (x + direction.0) % U32_MODULUS % width;
        var ny := (y + direction.1) % U32_MODULUS % height;
        if board.data[nx][ny] {
          neighbours := neighbours + 1;
        }
        k := k + 1;
      }
    }

    /** `GameOfLife::reset`: a new random board of the same size, generation
        back to 0, flags untouched. */
    method Reset(draw: (nat, nat) -> bool)
      requires Valid() && LiveCellsFit(board.width, board.height, draw)
      modifies this
      ensures Valid() && fresh(board)
      ensures board.width == old(board.width) && board.height == old(board.height)
      ensures forall x: nat, y: nat :: board.CanIndex(x, y) ==>
                (board.Get(x, y) <==> x < board.width && y < board.height && draw(x, y))
      ensures FitsStorage(board.width, board.height) ==>
                forall x, y :: 0 <= x < board.width && 0 <= y < board.height ==>
                  board.CanIndex(x, y) && board.Get(x, y) == draw(x, y)
      ensures generation == 0
      ensures paused == old(paused) && finished == old(finished)
    {
      board := new Board.Random(board.width, board.height, draw);
      generation := 0;
    }

    /** `GameOfLife::get_board`: the board the game currently owns. */
    function GetBoard(): (current: Board)
      reads this
      ensures current == board
    {
      board
    }

    /** `GameOfLife::is_paused`. */
    function IsPaused(): (p: bool)
      reads this
      ensures p == paused
    {
      paused
    }

    /** `GameOfLife::get_genereation`: generations since `new` or `reset`. */
    function GetGeneration(): (g: nat)
      reads this
      ensures g == generation
    {
      generation
    }

    /** `GameOfLife::is_finished`. */
    function IsFinished(): (f: bool)
      reads this
      ensures f == finished
    {
      finished
    }

    method Pause()
      modifies this
      ensures IsPaused()
      ensures board == old(board) && generation == old(generation) && finished == old(finished)
    {
      paused := true;
    }

    method Unpause()
      modifies this
      ensures !IsPaused()
      ensures board == old(board) && generation == old(generation) && finished == old(finished)
    {
      paused := false;
    }

    method TogglePause()
      modifies this
      ensures IsPaused() == !old(IsPaused())
      ensures board == old(board) && generation == old(generation) && finished == old(finished)
    {
      paused := !paused;
    }

    method Finish()
      modifies this
      ensures IsFinished()
      ensures board == old(board) && generation == old(generation) && paused == old(paused)
    {
      finished := true;
    }
  }

  /** Not an operation of the program: a client that states a property of
      `TogglePause`, namely that toggling twice restores every field. */
  method ToggleTwice(game: GameOfLife)
    modifies game
    ensures game.IsPaused() == old(game.IsPaused())
    ensures game.board == old(game.board) && game.GetGeneration() == old(game.GetGeneration())
    ensures game.IsFinished() == old(game.IsFinished())
  {
    game.TogglePause();
    game.TogglePause();
  }
}
