# Sliding-squares puzzle engine in Dafny

This project models the core of a sliding-tile ("N-puzzle") server: `app.js`.
It has three parts:

- The scrambler `makePuzzle` starts from the solved grid. It then slides the empty cell a number of times. For each slide it picks the `d`-th legal direction in the fixed order -X, +X, -Y, +Y, where `d = floor(rng() * adjacentSquares)`.
- The parameter guard `makePuzzleFromSeed` checks size and difficulty, in a fixed order. It then draws the move count and scrambles a square grid.
- The replay validator `validateSolution` regenerates the puzzle and replays the client's moves, stopping at the first bad one. It accepts when cells `0 .. size²-2` hold their own index.

The text serialiser `prettyJSONPuzzle` and its `elStr` are modelled too.

The grid is a flat row-major `seq<Cell>` with `datatype Cell = Tile(n) | Empty`. The cell at `(x, y)` is at `y * width + x`. Every thrown `Error` becomes a value of `Errors.Error` inside a `Result`.

The seeded generator (`seedrandom` over a salted seed) is a parameter, `rng: nat -> real`. Its `i`-th value is the result of the `i`-th call of `rng()`, and every value lies in [0, 1). The move count uses value 0. The scramble uses values `1 .. nMoves`. Puzzle identity is the pair (parameters, `rng`). All operations are pure functions, so the same identity always gives the same grid.

Modules:

- `errors.dfy`: the error kinds, their messages, and `Result`/`Option`.
- `grid.dfy`: cells, grids, coordinate indexing, swapping, the solved grid, and the tile-set invariant.
- `scrambler.dfy`: `makePuzzle`, covering the direction count, the direction search, slides, the scramble loop and the trail of empty positions.
- `generator.dfy`: `makePuzzleFromSeed`, covering the guard, the move count and the seeded scramble.
- `validator.dfy`: `validateSolution`, covering one move, the replay and acceptance.
- `roundtrip.dfy`: replaying the scramble's trail in reverse solves every generated puzzle.
- `pretty.dfy`: `prettyJSONPuzzle` and `elStr`.

Behaviour of `app.js` worth noting:

- The code checks that the solution is an array (line 114) before it regenerates the puzzle. A non-list body is therefore reported as a format error even when size or difficulty are out of range.
- The format of each single move is checked inside the replay loop (line 124). A malformed move is only reported if every earlier move succeeded.
- An out-of-range coordinate has its own message, 'Invalid solution coordinate.' (line 127). It is modelled as `InvalidCoordinate`, separate from `InvalidMove`.
- Each parameter violation has its own message (lines 91-94), one `Error` case per check.

## Model

| member | source | states |
|---|---|---|
| Grids.Index | app.js:13-14 | cell `(x, y)` sits at a buffer position below `width*height`, and dividing that position by `width` gives back `y` as quotient and `x` as remainder |
| Grids.IndexInjective | app.js:13-14 | two in-grid coordinates share a buffer slot exactly when they are equal |
| Grids.Swap | app.js:118-122 | the two cells trade contents, every other cell is unchanged, and the multiset of cells is preserved |
| Grids.SwapTwice | app.js:118-122 | swapping the same two cells twice restores the grid |
| Grids.SolvedGrid | app.js:12-19 | the start grid has `w*h` cells; cell `(x, y)` holds tile `y*w+x`, except the bottom-right corner, which is the only empty cell |
| Grids.EmptyIsUnique | app.js:18-19 | in any grid that keeps the tile set, an empty cell is the only empty cell |
| Grids.PrefixSolvedIsSolved | app.js:134-136 | if a grid keeps the tile set and cells `0 .. n-2` hold their index, it is exactly the solved grid, so its last cell is empty |
| Scrambler.LegalDirections | app.js:23-33 | the legal directions are exactly those whose neighbour is inside the grid, listed in order -X, +X, -Y, +Y; their number equals `adjacentSquares` if and only if both dimensions are at least 2, and never exceeds it |
| Scrambler.AdjacentSquares | app.js:23-25 | for an empty cell inside the grid the count is between 2 and 4, and it is 4 away from every edge; it equals the number of legal directions exactly when both dimensions are at least 2, as `LegalDirections` states |
| Scrambler.SearchDirection | app.js:27-36 | any direction the search returns leads to a neighbour inside the grid |
| Scrambler.SearchSelectsNth | app.js:27-36 | the search returns the `d`-th legal direction, and fails (the 'Invalid direction' throw) exactly when `d` is not an index of the legal directions |
| Scrambler.Draw | app.js:26 | `floor(u * k)` of a draw `u` in [0, 1) lies in `[0, k)` |
| Scrambler.Start | app.js:12-21 | the scramble starts from the solved grid with the tracked empty position at `(w-1, h-1)`, and the tracking invariant holds |
| Scrambler.Slide | app.js:37-57 | a slide moves the tracked position to the neighbour, which stays in the grid and is the only empty cell; the neighbour's tile moves into the old empty cell; every other cell and the multiset of cells are unchanged; the result is the swap of the two cells |
| Scrambler.ScrambleStep | app.js:22-63 | on a grid at least 2x2, a step never throws and slides into the `floor(u * adjacentSquares)`-th legal direction; on any grid, a step keeps the tracking invariant, and its only possible error is 'Invalid direction' |
| Scrambler.Scramble | app.js:22-64 | the scramble keeps the tile set and the tracked empty cell, and on a grid at least 2x2 it never throws |
| Scrambler.Trail | app.js:20-64 | the trail covers every draw exactly when the scramble does not throw, which it never does on a grid at least 2x2; it is never longer than the draws, and its first entry is the tracked empty cell |
| Scrambler.TrailStopsAtThrow | app.js:22-64 | a trail shorter than the draws stops at the throw: scrambling as many draws as it has entries succeeds, and one draw more throws; so the trail has one entry per slide performed |
| Scrambler.TrailInside | app.js:20-64 | every position on the trail is a cell of the grid |
| Scrambler.TrailSteps | app.js:37-57 | each position on the trail is next to the one before it, because every slide moves the empty cell one step |
| Scrambler.StepMovesOneCell | app.js:37-57 | a step that does not throw moves the tracked empty cell to a neighbouring cell |
| Scrambler.MakePuzzle | app.js:11-66 | the result is a `w` x `h` rearrangement of the solved grid, and it never fails when both dimensions are at least 2 |
| Scrambler.NarrowGridCanThrow | app.js:23-34 | on a grid one cell wide, `adjacentSquares` over-counts, so a draw can reach the 'Invalid direction' throw |
| Generator.MoveCount | app.js:96 | `nMoves` lies between `floor(size²/2)` inclusive and `size²(difficulty+1) + floor(size²/2)` exclusive |
| Generator.ScrambleDraws | app.js:95-98 | the scramble consumes the generator values after the first, one per move, with the count bounded as above |
| Generator.MakePuzzleFromSeed | app.js:90-100 | size < 2, size > 16, difficulty < 0 and difficulty > 255 are rejected with their own errors, in that order of precedence; valid parameters always give a `size` x `size` rearrangement of the solved grid |
| Validator.ApplyMove | app.js:124-132 | a malformed move is a format error, and a move outside the grid is a coordinate error; a successful move swaps `(x, y)` with an adjacent empty cell inside the grid |
| Validator.MoveNextToEmpty | app.js:127-132 | in a grid whose only empty cell is `e`, a move on an in-grid cell succeeds if and only if the cell is adjacent to `e`; it then swaps the two, the moved-from cell becomes the only empty cell, and otherwise the move is an invalid-move error |
| Validator.MoveOnEmptyRejected | app.js:128-132 | a move on the empty cell itself is rejected as an invalid move |
| Validator.Replay | app.js:123-133 | a completed replay keeps the dimensions and the multiset of cells |
| Validator.ReplayAppend | app.js:123-133 | replaying `front + back` is replaying `front` and then `back`; if `front` fails, `back` is never looked at |
| Validator.ReplayStopsAtFirstFailure | app.js:123-133 | the first failing move's error is the replay's result, whatever follows it |
| Validator.SolvedCheck | app.js:134-136 | for a grid that keeps the tile set, cells `0 .. size²-2` hold their own index exactly when the grid is the solved grid, empty last cell included |
| Validator.Validate | app.js:113-137 | a non-list body is a format error; a parameter error comes before any move; a replay error is returned as is; a list is accepted if and only if the parameters are valid and the replay ends exactly in the solved grid, including the empty last cell |
| RoundTrip.UndoSlide | app.js:128-131 | after a scramble slide, a move on the cell the empty square just left slides its tile back and restores the grid |
| RoundTrip.UnwindRestores | app.js:22-64 | replaying, last first, the empty positions a scramble passed through restores the grid it started from |
| RoundTrip.GeneratedPuzzleIsSolvable | app.js:113-137 | for valid parameters, the unwound scramble trail is accepted by the validator |
| Pretty.DecimalRoundTrip | app.js:71 | the decimal text of a number reads back as that number |
| Pretty.DecimalWidth | app.js:71 | a number prints in at most four digits if and only if it is at most 9999 |
| Pretty.ElStr | app.js:69-75 | every cell renders as exactly four characters: `null`, or the number's decimal digits right-aligned with spaces, or the last four of them when there are more |
| Pretty.CellRoundTrip | app.js:69-75 | every empty cell and every tile up to 9999 reads back from its rendering as itself |
| Pretty.RowLayout | app.js:77-85 | a text row is four spaces, then cell `x` at offset `4+6x`; a comma follows every cell except the last of the last row, a space follows every cell except the last of its row, and the row ends with a line break |

## Left out

- The `seedrandom` generator and its salted seed string (lines 4, 95) are an external PRNG. Its outputs are the parameter `rng`, whose values are assumed to lie in [0, 1).
- IEEE floating-point rounding in `Math.floor(rng() * k)` (line 26) and in the `nMoves` formula (line 96) is not modelled. Both are computed on exact reals and then floored.
- `makeRandPuzzle` (lines 102-111) makes a fresh random seed with `randomstring.generate(10)`, which is non-deterministic. It then only delegates to `makePuzzleFromSeed`.
- The Express routes, `parseInt`, the default difficulty 3 and the HTTP status codes (lines 139-233) are request plumbing.
- The logger, `fs.readFile`, markdown rendering and `app.listen` (lines 139-149, 235-238) are I/O.
- JavaScript's dynamic type tests (lines 114 and 124) are reduced to the `NotAList` and `Malformed` cases. Numeric but non-integer coordinates are not modelled: moves carry integer pairs.
- Scrambler.MakePuzzle: requires both dimensions to be at least 1. The source never calls `makePuzzle` with a smaller grid, and an empty grid has no empty cell to track.
- Pretty.ElStr: cells are modelled as natural numbers printed in plain decimal. Negative or fractional values are not rendered. Nor are JavaScript's forms for very large numbers: exponent form from 10^21 (`'e+21'` as the last four characters) and rounded digits above 2^53. The grid never holds such values, since tiles are at most 254.
- Pretty.PrettyJSONPuzzle: no contract covers the whole document. The header is built from the width, height and seed, with the seed inserted without escaping. The per-row layout is stated by `Pretty.RowLayout`.
- Determinism gets no lemma of its own. Every operation is a pure function of its inputs, so equal inputs give equal grids by construction.
