/**
 `validateSolution(size, seed, difficulty, solution)` (app.js lines 113-137):
 regenerate the puzzle, replay the client's moves in order, failing on the
 first bad one, and accept when every cell but the last holds its own index.
 */
module Validator {
  import opened Errors
  import opened Grids
  import opened Scrambler
  import opened Generator

  /** One element of the submitted list: a coordinate pair, or anything else. */
  datatype Move = Coord(x: int, y: int) | Malformed

  /** The submitted body: a list of moves, or a value that is not a list at all. */
  datatype Solution = NotAList | MoveList(moves: seq<Move>)

  /**
   One move (lines 124-132): the format test, the bounds test, then the first
   empty neighbour in the order -X, +X, -Y, +Y is swapped with `(x, y)`.
   */
  function ApplyMove(g: Grid, m: Move): (r: Result<Grid>)
    requires WellFormed(g)
    ensures m.Malformed? ==> r == Err(InvalidFormat)
    ensures m.Coord? && !InBounds(g, m.x, m.y) ==> r == Err(InvalidCoordinate)
    ensures r.Err? ==> r.error in {InvalidFormat, InvalidCoordinate, InvalidMove}
    ensures r.Ok? ==> m.Coord? && InBounds(g, m.x, m.y)
    ensures r.Ok? ==> exists nx, ny :: InBounds(g, nx, ny) && Adjacent(m.x, m.y, nx, ny) && At(g, nx, ny) == Empty
                                        && r.value == Swap(g, m.x, m.y, nx, ny)
  {
    match m
    case Malformed => Err(InvalidFormat)
    case Coord(x, y) =>
      var w, h := g.width, g.height;
      if x < 0 || x >= w || y < 0 || y >= h then Err(InvalidCoordinate)
      else if x >= 1 && At(g, x - 1, y) == Empty then Ok(Swap(g, x, y, x - 1, y))
      else if x < w - 1 && At(g, x + 1, y) == Empty then Ok(Swap(g, x, y, x + 1, y))
      else if y >= 1 && At(g, x, y - 1) == Empty then Ok(Swap(g, x, y, x, y - 1))
      else if y < h - 1 && At(g, x, y + 1) == Empty then Ok(Swap(g, x, y, x, y + 1))
      else Err(InvalidMove)
  }

  /**
   In a grid whose only empty cell is `(ex, ey)`, a move on `(x, y)` inside
   the grid succeeds exactly when `(x, y)` is next to the empty cell; it then
   swaps the two, and `(x, y)` becomes the only empty cell.
   */
  lemma MoveNextToEmpty(g: Grid, x: int, y: int, ex: int, ey: int)
    requires HoldsTileSet(g) && EmptyOnlyAt(g, ex, ey) && InBounds(g, x, y)
    ensures Adjacent(x, y, ex, ey) ==> ApplyMove(g, Coord(x, y)) == Ok(Swap(g, x, y, ex, ey))
    ensures !Adjacent(x, y, ex, ey) ==> ApplyMove(g, Coord(x, y)) == Err(InvalidMove)
    ensures Adjacent(x, y, ex, ey) ==> EmptyOnlyAt(Swap(g, x, y, ex, ey), x, y)
  {
    if Adjacent(x, y, ex, ey) {
      var r := Swap(g, x, y, ex, ey);
      assert At(r, x, y) == Empty;
      assert At(g, x, y) != Empty;
    }
  }

  /** A move on the empty cell itself is rejected as an invalid move. */
  lemma MoveOnEmptyRejected(g: Grid, x: int, y: int)
    requires HoldsTileSet(g) && InBounds(g, x, y) && At(g, x, y) == Empty
    ensures ApplyMove(g, Coord(x, y)) == Err(InvalidMove)
  {
    EmptyIsUnique(g, x, y);
    MoveNextToEmpty(g, x, y, x, y);
  }

  /** The `forEach` of lines 123-133: moves applied in order, stopping at the first failure. */
  function Replay(g: Grid, moves: seq<Move>): (r: Result<Grid>)
    requires WellFormed(g)
    ensures r.Ok? ==> WellFormed(r.value) && r.value.width == g.width && r.value.height == g.height
    ensures r.Ok? ==> multiset(r.value.cells) == multiset(g.cells)
    decreases |moves|
  {
    if |moves| == 0 then Ok(g)
    else
      var next :- ApplyMove(g, moves[0]);
      Replay(next, moves[1..])
  }

  /** Replaying two lists in a row is replaying their concatenation; a failure in the first ends it. */
  lemma {:induction false} ReplayAppend(g: Grid, front: seq<Move>, back: seq<Move>)
    requires WellFormed(g)
    ensures Replay(g, front + back) == match Replay(g, front)
                                      case Err(e) => Err(e)
                                      case Ok(mid) => Replay(mid, back)
    decreases |front|
  {
    if |front| == 0 {
      assert front + back == back;
    } else {
      assert (front + back)[0] == front[0];
      assert (front + back)[1..] == front[1..] + back;
      match ApplyMove(g, front[0])
      case Err(_) =>
      case Ok(next) => ReplayAppend(next, front[1..], back);
    }
  }

  /** The first failing move decides the outcome: no later move is looked at. */
  lemma {:induction false} ReplayStopsAtFirstFailure(g: Grid, moves: seq<Move>, k: nat, mid: Grid)
    requires WellFormed(g) && k < |moves|
    requires Replay(g, moves[..k]) == Ok(mid)
    requires ApplyMove(mid, moves[k]).Err?
    ensures Replay(g, moves) == Err(ApplyMove(mid, moves[k]).error)
    decreases k
  {
    if k == 0 {
      assert moves[..0] == [];
      ReplayFailsFirst(g, moves);
    } else {
      var pre := moves[..k];
      assert pre[0] == moves[0];
      var next := ApplyMove(g, moves[0]).value;
      PrefixTail(moves, k);
      ReplayStep(g, pre);
      ReplayStopsAtFirstFailure(next, moves[1..], k - 1, mid);
      ReplayStep(g, moves);
    }
  }

  lemma ReplayStep(g: Grid, moves: seq<Move>)
    requires WellFormed(g) && |moves| > 0 && ApplyMove(g, moves[0]).Ok?
    ensures Replay(g, moves) == Replay(ApplyMove(g, moves[0]).value, moves[1..])
  {
  }

  lemma ReplayFailsFirst(g: Grid, moves: seq<Move>)
    requires WellFormed(g) && |moves| > 0 && ApplyMove(g, moves[0]).Err?
    ensures Replay(g, moves) == Err(ApplyMove(g, moves[0]).error)
  {
  }

  /** The final test of lines 134-136: cells `0 .. size²-2` hold their own index. */
  predicate SolvedCheck(g: Grid, size: int)
    requires WellFormed(g) && g.width == size && g.height == size
    ensures size >= 1 && HoldsTileSet(g) ==> (SolvedCheck(g, size) <==> g == SolvedGrid(size, size))
  {
    var prefixOk := forall i :: 0 <= i < size * size - 1 ==> g.cells[i] == Tile(i);
    assert size >= 1 && HoldsTileSet(g) && prefixOk ==> g == SolvedGrid(size, size) by {
      if size >= 1 && HoldsTileSet(g) && prefixOk {
        PrefixSolvedIsSolved(g);
      }
    }
    prefixOk
  }

  /** `validateSolution`: `Ok(())` where the source returns normally. */
  function Validate(size: int, difficulty: int, rng: nat -> real, solution: Solution): (r: Result<()>)
    requires IsGenerator(rng)
    ensures solution.NotAList? ==> r == Err(InvalidFormat)
    ensures solution.MoveList? ==> (r.Ok? <==>
              && MakePuzzleFromSeed(size, difficulty, rng).Ok?
              && Replay(MakePuzzleFromSeed(size, difficulty, rng).value, solution.moves) == Ok(SolvedGrid(size, size)))
    ensures solution.MoveList? && MakePuzzleFromSeed(size, difficulty, rng).Err? ==>
              r == Err(MakePuzzleFromSeed(size, difficulty, rng).error)
    ensures solution.MoveList? && MakePuzzleFromSeed(size, difficulty, rng).Ok? ==>
              match Replay(MakePuzzleFromSeed(size, difficulty, rng).value, solution.moves)
              case Err(e) => r == Err(e)
              case Ok(_) => r.Ok? || r == Err(IncorrectSolution)
  {
    if solution.NotAList? then Err(InvalidFormat)
    else
      var g :- MakePuzzleFromSeed(size, difficulty, rng);
      var final :- Replay(g, solution.moves);
      if SolvedCheck(final, size) then
        assert HoldsTileSet(final);
        Ok(())
      else Err(IncorrectSolution)
  }
}
