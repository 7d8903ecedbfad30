/**
 The scrambler `makePuzzle(sizeX, sizeY, nMoves, rng)` (app.js lines 11-66):
 starting from the solved grid it slides the empty cell `nMoves` times, each
 time into the `d`-th legal neighbour in the fixed order -X, +X, -Y, +Y, where
 `d = floor(rng() * adjacentSquares)`.

 The random generator is a parameter: a stream of reals in [0, 1), one per
 call of `rng()`.
 */
module Scrambler {
  import opened Errors
  import opened Grids

  datatype Dir = MinusX | PlusX | MinusY | PlusY

  /** Position of a direction in the canonical order -X, +X, -Y, +Y. */
  function Rank(d: Dir): nat
  {
    match d
    case MinusX => 0
    case PlusX => 1
    case MinusY => 2
    case PlusY => 3
  }

  /** The cell one step from `(x, y)` in direction `d`. */
  function Neighbour(x: int, y: int, d: Dir): (int, int)
  {
    match d
    case MinusX => (x - 1, y)
    case PlusX => (x + 1, y)
    case MinusY => (x, y - 1)
    case PlusY => (x, y + 1)
  }

  lemma NeighbourIsAdjacent(x: int, y: int, d: Dir)
    ensures Adjacent(x, y, Neighbour(x, y, d).0, Neighbour(x, y, d).1)
  {
  }

  predicate NeighbourInside(w: int, h: int, x: int, y: int, d: Dir)
  {
    var (nx, ny) := Neighbour(x, y, d);
    0 <= nx < w && 0 <= ny < h
  }

  /**
   The legal directions from `(ex, ey)`, in canonical order: the reference
   the direction search below is measured against.
   */
  function LegalDirections(w: int, h: int, ex: int, ey: int): (r: seq<Dir>)
    requires 0 <= ex < w && 0 <= ey < h
    ensures forall d :: d in r <==> NeighbourInside(w, h, ex, ey, d)
    ensures forall i, j :: 0 <= i < j < |r| ==> Rank(r[i]) < Rank(r[j])
    ensures |r| <= AdjacentSquares(w, h, ex, ey)
    ensures |r| == AdjacentSquares(w, h, ex, ey) <==> w >= 2 && h >= 2
  {
    (if ex > 0 then [MinusX] else [])
    + (if ex < w - 1 then [PlusX] else [])
    + (if ey > 0 then [MinusY] else [])
    + (if ey < h - 1 then [PlusY] else [])
  }

  /** `adjacentSquares` (lines 23-25): 4, less one per axis on which the empty cell touches an edge. */
  function AdjacentSquares(w: int, h: int, ex: int, ey: int): (n: int)
    ensures 0 <= ex < w && 0 <= ey < h ==> 2 <= n <= 4
    ensures 0 < ex < w - 1 && 0 < ey < h - 1 ==> n == 4
  {
    4 - (if ex == 0 || ex == w - 1 then 1 else 0) - (if ey == 0 || ey == h - 1 then 1 else 0)
  }

  /** The test of `case cur` in the first switch (lines 30-33). */
  predicate CaseValid(w: int, h: int, ex: int, ey: int, cur: nat)
  {
    match cur
    case 0 => ex > 0
    case 1 => ex < w - 1
    case 2 => ey > 0
    case 3 => ey < h - 1
    case _ => false
  }

  function CaseDir(cur: nat): (d: Dir)
    requires cur < 4
    ensures Rank(d) == cur
  {
    match cur
    case 0 => MinusX
    case 1 => PlusX
    case 2 => MinusY
    case 3 => PlusY
  }

  /**
   The loop of lines 27-63 as written: `direction` counts down on each valid
   case and the case where it is 0 is taken; running past case 3 is the
   `'Invalid direction'` throw, here `None`.
   */
  function SearchDirection(w: int, h: int, ex: int, ey: int, cur: nat, direction: int): (r: Option<Dir>)
    requires 0 <= ex < w && 0 <= ey < h
    requires cur <= 4
    ensures r.Some? ==> NeighbourInside(w, h, ex, ey, r.value) && cur <= Rank(r.value)
    decreases 4 - cur
  {
    if cur == 4 then None
    else
      var valid := CaseValid(w, h, ex, ey, cur);
      if valid && direction == 0 then Some(CaseDir(cur))
      else SearchDirection(w, h, ex, ey, cur + 1, if valid then direction - 1 else direction)
  }

  /** The valid cases from `cur` on, as directions. */
  function LegalFrom(w: int, h: int, ex: int, ey: int, cur: nat): seq<Dir>
    requires cur <= 4
    decreases 4 - cur
  {
    if cur == 4 then []
    else (if CaseValid(w, h, ex, ey, cur) then [CaseDir(cur)] else []) + LegalFrom(w, h, ex, ey, cur + 1)
  }

  lemma {:induction false} SearchFromSelectsNth(w: int, h: int, ex: int, ey: int, cur: nat, d: int)
    requires 0 <= ex < w && 0 <= ey < h
    requires cur <= 4
    ensures var legal := LegalFrom(w, h, ex, ey, cur);
            SearchDirection(w, h, ex, ey, cur, d) == if 0 <= d < |legal| then Some(legal[d]) else None
    decreases 4 - cur
  {
    if cur < 4 {
      var valid := CaseValid(w, h, ex, ey, cur);
      SearchFromSelectsNth(w, h, ex, ey, cur + 1, if valid then d - 1 else d);
    }
  }

  /**
   The search picks the `d`-th legal direction in canonical order, and fails
   exactly when `d` is not an index of the legal directions.
   */
  lemma SearchSelectsNth(w: int, h: int, ex: int, ey: int, d: int)
    requires 0 <= ex < w && 0 <= ey < h
    ensures var legal := LegalDirections(w, h, ex, ey);
            SearchDirection(w, h, ex, ey, 0, d) == if 0 <= d < |legal| then Some(legal[d]) else None
  {
    SearchFromSelectsNth(w, h, ex, ey, 0, d);
    LegalFromIsLegal(w, h, ex, ey);
  }

  lemma LegalFromIsLegal(w: int, h: int, ex: int, ey: int)
    requires 0 <= ex < w && 0 <= ey < h
    ensures LegalFrom(w, h, ex, ey, 0) == LegalDirections(w, h, ex, ey)
  {
    assert LegalFrom(w, h, ex, ey, 4) == [];
    assert LegalFrom(w, h, ex, ey, 3) == if ey < h - 1 then [PlusY] else [];
    assert LegalFrom(w, h, ex, ey, 2) == (if ey > 0 then [MinusY] else []) + LegalFrom(w, h, ex, ey, 3);
    assert LegalFrom(w, h, ex, ey, 1) == (if ex < w - 1 then [PlusX] else []) + LegalFrom(w, h, ex, ey, 2);
    assert LegalFrom(w, h, ex, ey, 0) == (if ex > 0 then [MinusX] else []) + LegalFrom(w, h, ex, ey, 1);
  }

  /** `Math.floor(u * k)` for a draw `u` in [0, 1). */
  function Draw(u: real, k: nat): (d: nat)
    requires 0.0 <= u < 1.0 && k > 0
    ensures d < k
  {
    assert u * k as real < k as real;
    (u * k as real).Floor
  }

  /** The scrambler's working state: the grid and the tracked empty position `(emptyX, emptyY)`. */
  datatype State = State(grid: Grid, emptyX: int, emptyY: int)

  /** The tiles are conserved and `(emptyX, emptyY)` is the one empty cell. */
  ghost predicate Tracked(s: State)
  {
    && HoldsTileSet(s.grid)
    && EmptyOnlyAt(s.grid, s.emptyX, s.emptyY)
  }

  /** Lines 12-21: the solved grid, empty cell tracked at the bottom-right corner. */
  function Start(w: nat, h: nat): (s: State)
    requires w >= 1 && h >= 1
    ensures Tracked(s)
    ensures s.emptyX == w - 1 && s.emptyY == h - 1
    ensures s.grid.width == w && s.grid.height == h
    ensures forall x, y :: InBounds(s.grid, x, y) && !(x == w - 1 && y == h - 1) ==> At(s.grid, x, y) == Tile(y * w + x)
  {
    State(SolvedGrid(w, h), w - 1, h - 1)
  }

  /**
   One taken case of the second switch (lines 38-57): the neighbour's tile
   moves into the empty cell, the neighbour becomes empty, and the tracked
   position follows it.
   */
  function Slide(s: State, dir: Dir): (r: State)
    requires Tracked(s)
    requires NeighbourInside(s.grid.width, s.grid.height, s.emptyX, s.emptyY, dir)
    ensures Tracked(r)
    ensures r.grid.width == s.grid.width && r.grid.height == s.grid.height
    ensures (r.emptyX, r.emptyY) == Neighbour(s.emptyX, s.emptyY, dir)
    ensures At(r.grid, s.emptyX, s.emptyY) == At(s.grid, r.emptyX, r.emptyY)
    ensures forall x, y :: InBounds(s.grid, x, y) && !(x == s.emptyX && y == s.emptyY) && !(x == r.emptyX && y == r.emptyY)
                           ==> At(r.grid, x, y) == At(s.grid, x, y)
    ensures multiset(r.grid.cells) == multiset(s.grid.cells)
  {
    var g := s.grid;
    var (nx, ny) := Neighbour(s.emptyX, s.emptyY, dir);
    var i, j := Index(g, s.emptyX, s.emptyY), Index(g, nx, ny);
    var r := State(Grid(g.width, g.height, g.cells[i := g.cells[j]][j := Empty]), nx, ny);
    assert r.grid == Swap(g, s.emptyX, s.emptyY, nx, ny);
    assert EmptyOnlyAt(r.grid, nx, ny);
    r
  }

  /** One iteration of the scramble loop (lines 23-63). */
  function ScrambleStep(s: State, u: real): (r: Result<State>)
    requires Tracked(s) && 0.0 <= u < 1.0
    ensures r.Ok? ==> Tracked(r.value)
    ensures r.Ok? ==> r.value.grid.width == s.grid.width && r.value.grid.height == s.grid.height
    ensures r.Err? ==> r.error == InvalidDirection
    ensures s.grid.width >= 2 && s.grid.height >= 2 ==>
              var w, h := s.grid.width, s.grid.height;
              var d := Draw(u, AdjacentSquares(w, h, s.emptyX, s.emptyY));
              r == Ok(Slide(s, LegalDirections(w, h, s.emptyX, s.emptyY)[d]))
  {
    var w, h := s.grid.width, s.grid.height;
    var d := Draw(u, AdjacentSquares(w, h, s.emptyX, s.emptyY));
    StepChoice(w, h, s.emptyX, s.emptyY, u);
    match SearchDirection(w, h, s.emptyX, s.emptyY, 0, d)
    case None => Err(InvalidDirection)
    case Some(dir) => Ok(Slide(s, dir))
  }

  /** On a grid at least 2x2 the draw always names a legal direction, and the search finds it. */
  lemma StepChoice(w: int, h: int, ex: int, ey: int, u: real)
    requires 0 <= ex < w && 0 <= ey < h && 0.0 <= u < 1.0
    ensures var d := Draw(u, AdjacentSquares(w, h, ex, ey));
            var legal := LegalDirections(w, h, ex, ey);
            w >= 2 && h >= 2 ==> d < |legal| && SearchDirection(w, h, ex, ey, 0, d) == Some(legal[d])
  {
    SearchSelectsNth(w, h, ex, ey, Draw(u, AdjacentSquares(w, h, ex, ey)));
  }

  /** A step that succeeds moves the empty cell to a neighbouring cell. */
  lemma StepMovesOneCell(s: State, u: real)
    requires Tracked(s) && 0.0 <= u < 1.0
    requires ScrambleStep(s, u).Ok?
    ensures var next := ScrambleStep(s, u).value;
            Adjacent(s.emptyX, s.emptyY, next.emptyX, next.emptyY)
  {
    var w, h := s.grid.width, s.grid.height;
    var d := Draw(u, AdjacentSquares(w, h, s.emptyX, s.emptyY));
    var dir := SearchDirection(w, h, s.emptyX, s.emptyY, 0, d).value;
    assert ScrambleStep(s, u) == Ok(Slide(s, dir));
    NeighbourIsAdjacent(s.emptyX, s.emptyY, dir);
  }

  predicate AllDraws(rolls: seq<real>)
  {
    forall i :: 0 <= i < |rolls| ==> 0.0 <= rolls[i] < 1.0
  }

  /** The scramble loop run over the given draws, one slide per draw. */
  function Scramble(s: State, rolls: seq<real>): (r: Result<State>)
    requires Tracked(s) && AllDraws(rolls)
    ensures r.Ok? ==> Tracked(r.value)
    ensures r.Ok? ==> r.value.grid.width == s.grid.width && r.value.grid.height == s.grid.height
    ensures s.grid.width >= 2 && s.grid.height >= 2 ==> r.Ok?
    decreases |rolls|
  {
    if |rolls| == 0 then Ok(s)
    else
      var next :- ScrambleStep(s, rolls[0]);
      Scramble(next, rolls[1..])
  }

  /**
   The empty cell's position before each slide of `Scramble(s, rolls)`: one
   entry per slide performed, starting at the tracked cell.
   */
  function Trail(s: State, rolls: seq<real>): (t: seq<(int, int)>)
    requires Tracked(s) && AllDraws(rolls)
    ensures |t| <= |rolls|
    ensures s.grid.width >= 2 && s.grid.height >= 2 ==> |t| == |rolls|
    ensures |t| == |rolls| <==> Scramble(s, rolls).Ok?
    ensures |t| > 0 ==> t[0] == (s.emptyX, s.emptyY)
    decreases |rolls|
  {
    if |rolls| == 0 then []
    else
      match ScrambleStep(s, rolls[0])
      case Err(_) => []
      case Ok(next) => [(s.emptyX, s.emptyY)] + Trail(next, rolls[1..])
  }

  /** A step that succeeds hands the rest of the draws to the state it produced. */
  lemma ScrambleUnfold(s: State, rolls: seq<real>)
    requires Tracked(s) && AllDraws(rolls)
    requires |rolls| > 0
    ensures ScrambleStep(s, rolls[0]).Err? ==> Scramble(s, rolls) == Err(ScrambleStep(s, rolls[0]).error)
    ensures ScrambleStep(s, rolls[0]).Ok? ==> Scramble(s, rolls) == Scramble(ScrambleStep(s, rolls[0]).value, rolls[1..])
  {
  }

  /**
   A trail shorter than the draws stops at the throw: the slides it records
   all succeed, and the draw after them reaches 'Invalid direction'.
   */
  lemma {:induction false} TrailStopsAtThrow(s: State, rolls: seq<real>)
    requires Tracked(s) && AllDraws(rolls)
    ensures var n := |Trail(s, rolls)|;
            n < |rolls| ==> Scramble(s, rolls[..n]).Ok? && Scramble(s, rolls[..n + 1]).Err?
    decreases |rolls|
  {
    if |rolls| > 0 {
      var step := ScrambleStep(s, rolls[0]);
      if step.Err? {
        assert Trail(s, rolls) == [];
        var first := rolls[..1];
        assert first[0] == rolls[0];
        ScrambleUnfold(s, first);
      } else {
        var next := step.value;
        TrailUnfold(s, rolls);
        var m := |Trail(next, rolls[1..])|;
        TrailStopsAtThrow(next, rolls[1..]);
        if m < |rolls| - 1 {
          ScramblePrefix(s, rolls, m);
          ScramblePrefix(s, rolls, m + 1);
        }
      }
    }
  }

  /** The first `k + 1` draws from `s` are a successful step and then `k` draws from its result. */
  lemma ScramblePrefix(s: State, rolls: seq<real>, k: nat)
    requires Tracked(s) && AllDraws(rolls) && k < |rolls|
    requires ScrambleStep(s, rolls[0]).Ok?
    ensures Scramble(s, rolls[..k + 1]) == Scramble(ScrambleStep(s, rolls[0]).value, rolls[1..][..k])
  {
    var prefix := rolls[..k + 1];
    PrefixTail(rolls, k + 1);
    assert prefix[0] == rolls[0];
    ScrambleUnfold(s, prefix);
  }

  /** Every position of `t` is a cell of `g`. */
  predicate AllInside(g: Grid, t: seq<(int, int)>)
  {
    forall i :: 0 <= i < |t| ==> InBounds(g, t[i].0, t[i].1)
  }

  /** Each position of `t` is next to the one before it. */
  predicate IsWalk(t: seq<(int, int)>)
  {
    forall i :: 0 < i < |t| ==> Adjacent(t[i - 1].0, t[i - 1].1, t[i].0, t[i].1)
  }

  /** One slide of the trail: its first entry, then the trail of the next state. */
  lemma TrailUnfold(s: State, rolls: seq<real>)
    requires Tracked(s) && AllDraws(rolls)
    requires |rolls| > 0 && ScrambleStep(s, rolls[0]).Ok?
    ensures var next := ScrambleStep(s, rolls[0]).value;
            && Trail(s, rolls) == [(s.emptyX, s.emptyY)] + Trail(next, rolls[1..])
            && next.grid.width == s.grid.width && next.grid.height == s.grid.height
            && Adjacent(s.emptyX, s.emptyY, next.emptyX, next.emptyY)
  {
    StepMovesOneCell(s, rolls[0]);
  }

  /** Every entry of the trail is a cell of the grid. */
  lemma {:induction false} TrailInside(s: State, rolls: seq<real>)
    requires Tracked(s) && AllDraws(rolls)
    ensures AllInside(s.grid, Trail(s, rolls))
    decreases |rolls|
  {
    if |rolls| > 0 && ScrambleStep(s, rolls[0]).Ok? {
      var next := ScrambleStep(s, rolls[0]).value;
      TrailInside(next, rolls[1..]);
      TrailUnfold(s, rolls);
      var rest := Trail(next, rolls[1..]);
      var t := [(s.emptyX, s.emptyY)] + rest;
      assert forall i :: 0 < i < |t| ==> t[i] == rest[i - 1];
    }
  }

  /** Each entry of the trail is next to the one before it: the empty cell moves one step per slide. */
  lemma {:induction false} TrailSteps(s: State, rolls: seq<real>)
    requires Tracked(s) && AllDraws(rolls)
    ensures IsWalk(Trail(s, rolls))
    decreases |rolls|
  {
    if |rolls| > 0 && ScrambleStep(s, rolls[0]).Ok? {
      var next := ScrambleStep(s, rolls[0]).value;
      TrailSteps(next, rolls[1..]);
      TrailUnfold(s, rolls);
      var rest := Trail(next, rolls[1..]);
      var t := [(s.emptyX, s.emptyY)] + rest;
      assert |rest| > 0 ==> rest[0] == (next.emptyX, next.emptyY);
      assert forall i :: 0 < i < |t| ==> t[i] == rest[i - 1];
    }
  }

  /** The first `n` values of a generator stream. */
  function Rolls(rng: nat -> real, n: nat): (r: seq<real>)
    ensures |r| == n && forall i :: 0 <= i < n ==> r[i] == rng(i)
  {
    seq(n, i requires 0 <= i < n => rng(i))
  }

  ghost predicate IsGenerator(rng: nat -> real)
  {
    forall i :: 0.0 <= rng(i) < 1.0
  }

  /** `makePuzzle(w, h, nMoves, rng)`: the scrambled grid, or the `'Invalid direction'` throw. */
  function MakePuzzle(w: nat, h: nat, nMoves: nat, rng: nat -> real): (r: Result<Grid>)
    requires w >= 1 && h >= 1 && IsGenerator(rng)
    ensures r.Ok? ==> HoldsTileSet(r.value) && r.value.width == w && r.value.height == h
    ensures w >= 2 && h >= 2 ==> r.Ok?
  {
    var s :- Scramble(Start(w, h), Rolls(rng, nMoves));
    Ok(s.grid)
  }

  /**
   On a grid one cell wide the count of lines 23-25 exceeds the number of
   legal directions, so a draw can run the search past its last case.
   */
  lemma NarrowGridCanThrow()
    ensures ScrambleStep(Start(1, 3), 0.75) == Err(InvalidDirection)
  {
    var s := Start(1, 3);
    assert AdjacentSquares(1, 3, 0, 2) == 2;
    assert Draw(0.75, 2) == 1;
    SearchSelectsNth(1, 3, 0, 2, 1);
  }
}
