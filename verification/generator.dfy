/**
 `makePuzzleFromSeed(size, seed, difficulty)` (app.js lines 90-100): the
 parameter guard, the move count drawn first from the seeded stream, and the
 square scramble that continues on the same stream.

 The seeded stream itself (`seedrandom` over a salted seed) is the parameter
 `rng`: the value of its `i`-th call.
 */
module Generator {
  import opened Errors
  import opened Grids
  import opened Scrambler

  /** `nMoves` (line 96): `floor(u * size² * (difficulty + 1)) + floor(size² / 2)`. */
  function MoveCount(size: int, difficulty: int, u: real): (n: nat)
    requires 2 <= size <= 16 && 0 <= difficulty <= 255 && 0.0 <= u < 1.0
    ensures size * size / 2 <= n < size * size * (difficulty + 1) + size * size / 2
  {
    assert size * size * (difficulty + 1) >= 4 by {
      assert size * size >= 4;
      MulMonotone(1, difficulty + 1, size * size);
    }
    Draw(u, size * size * (difficulty + 1)) + size * size / 2
  }

  /** The stream after its first value has been taken. */
  function Tail(rng: nat -> real): (t: nat -> real)
    ensures forall i: nat :: t(i) == rng(i + 1)
  {
    (i: nat) => rng(i + 1)
  }

  /** The draws the scramble of `MakePuzzleFromSeed` consumes: the `nMoves` values after the first. */
  function ScrambleDraws(size: int, difficulty: int, rng: nat -> real): (r: seq<real>)
    requires 2 <= size <= 16 && 0 <= difficulty <= 255 && IsGenerator(rng)
    ensures AllDraws(r)
    ensures size * size / 2 <= |r| < size * size * (difficulty + 1) + size * size / 2
    ensures forall i :: 0 <= i < |r| ==> r[i] == rng(i + 1)
  {
    Rolls(Tail(rng), MoveCount(size, difficulty, rng(0)))
  }

  /**
   The guard of lines 91-94, checked in order before anything is drawn, then
   the scramble of a `size` x `size` grid.
   */
  function MakePuzzleFromSeed(size: int, difficulty: int, rng: nat -> real): (r: Result<Grid>)
    requires IsGenerator(rng)
    ensures size < 2 ==> r == Err(InvalidSize)
    ensures size > 16 ==> r == Err(SizeTooLarge)
    ensures 2 <= size <= 16 && difficulty < 0 ==> r == Err(InvalidDifficulty)
    ensures 2 <= size <= 16 && difficulty > 255 ==> r == Err(DifficultyTooHigh)
    ensures r.Ok? <==> 2 <= size <= 16 && 0 <= difficulty <= 255
    ensures r.Ok? ==> HoldsTileSet(r.value) && r.value.width == size && r.value.height == size
  {
    if size < 2 then Err(InvalidSize)
    else if size > 16 then Err(SizeTooLarge)
    else if difficulty < 0 then Err(InvalidDifficulty)
    else if difficulty > 255 then Err(DifficultyTooHigh)
    else
      MakePuzzle(size, size, MoveCount(size, difficulty, rng(0)), Tail(rng))
  }
}
