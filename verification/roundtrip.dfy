/**
 The scramble is undone by the validator: replaying, last first, the cells
 the empty square stood on before each scramble slide moves every tile back,
 so every generated puzzle has a solution the validator accepts.
 */
module RoundTrip {
  import opened Errors
  import opened Grids
  import opened Scrambler
  import opened Generator
  import opened Validator

  /** The trail of empty positions, reversed, as moves. */
  function Unwind(trail: seq<(int, int)>): (moves: seq<Move>)
    ensures |moves| == |trail|
    ensures forall i :: 0 <= i < |trail| ==> moves[i] == Coord(trail[|trail| - 1 - i].0, trail[|trail| - 1 - i].1)
  {
    if |trail| == 0 then []
    else Unwind(trail[1..]) + [Coord(trail[0].0, trail[0].1)]
  }

  /** A move on the cell the empty square has just left slides its tile back. */
  lemma UndoSlide(s: State, u: real)
    requires Tracked(s) && 0.0 <= u < 1.0
    requires s.grid.width >= 2 && s.grid.height >= 2
    ensures ScrambleStep(s, u).Ok?
    ensures ApplyMove(ScrambleStep(s, u).value.grid, Coord(s.emptyX, s.emptyY)) == Ok(s.grid)
  {
    var next := ScrambleStep(s, u).value;
    assert Adjacent(s.emptyX, s.emptyY, next.emptyX, next.emptyY);
    MoveNextToEmpty(next.grid, s.emptyX, s.emptyY, next.emptyX, next.emptyY);
    SwapTwice(s.grid, s.emptyX, s.emptyY, next.emptyX, next.emptyY);
  }

  /** Replaying the unwound trail of a scramble restores the grid it started from. */
  lemma {:induction false} UnwindRestores(s: State, rolls: seq<real>)
    requires Tracked(s) && AllDraws(rolls)
    requires s.grid.width >= 2 && s.grid.height >= 2
    ensures Scramble(s, rolls).Ok?
    ensures Replay(Scramble(s, rolls).value.grid, Unwind(Trail(s, rolls))) == Ok(s.grid)
    decreases |rolls|
  {
    if |rolls| > 0 {
      UndoSlide(s, rolls[0]);
      var next := ScrambleStep(s, rolls[0]).value;
      var final := Scramble(s, rolls).value.grid;
      assert Scramble(s, rolls) == Scramble(next, rolls[1..]);
      assert Trail(s, rolls) == [(s.emptyX, s.emptyY)] + Trail(next, rolls[1..]);
      var rest := Trail(next, rolls[1..]);
      assert ([(s.emptyX, s.emptyY)] + rest)[1..] == rest;
      assert Unwind(Trail(s, rolls)) == Unwind(rest) + [Coord(s.emptyX, s.emptyY)];
      UnwindRestores(next, rolls[1..]);
      ReplayAppend(final, Unwind(rest), [Coord(s.emptyX, s.emptyY)]);
      assert Replay(next.grid, [Coord(s.emptyX, s.emptyY)]) == Ok(s.grid);
    }
  }

  /** The solution the server could hand out for a puzzle it generated: the scramble unwound. */
  function ScrambleSolution(size: int, difficulty: int, rng: nat -> real): (moves: seq<Move>)
    requires 2 <= size <= 16 && 0 <= difficulty <= 255 && IsGenerator(rng)
    ensures |moves| == |ScrambleDraws(size, difficulty, rng)|
  {
    Unwind(Trail(Start(size, size), ScrambleDraws(size, difficulty, rng)))
  }

  /** Every puzzle generated from valid parameters is solvable, and the validator says so. */
  lemma GeneratedPuzzleIsSolvable(size: int, difficulty: int, rng: nat -> real)
    requires 2 <= size <= 16 && 0 <= difficulty <= 255 && IsGenerator(rng)
    ensures Validate(size, difficulty, rng, MoveList(ScrambleSolution(size, difficulty, rng))) == Ok(())
  {
    var start := Start(size, size);
    var draws := ScrambleDraws(size, difficulty, rng);
    UnwindRestores(start, draws);
    var puzzle := MakePuzzleFromSeed(size, difficulty, rng);
    assert puzzle == MakePuzzle(size, size, MoveCount(size, difficulty, rng(0)), Tail(rng));
    assert puzzle == Ok(Scramble(start, draws).value.grid);
    var moves := ScrambleSolution(size, difficulty, rng);
    assert Replay(puzzle.value, moves) == Ok(SolvedGrid(size, size));
  }
}
