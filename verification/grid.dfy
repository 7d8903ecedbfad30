/**
 The puzzle grid: a flat row-major buffer of `width * height` cells, where the
 cell at column `x`, row `y` lives at index `y * width + x`, each cell holding
 a numbered tile or the single empty marker (`null` in the source).
 */
module Grids {

  datatype Cell = Tile(n: nat) | Empty

  datatype Grid = Grid(width: nat, height: nat, cells: seq<Cell>)

  predicate WellFormed(g: Grid)
  {
    |g.cells| == g.width * g.height
  }

  predicate InBounds(g: Grid, x: int, y: int)
  {
    0 <= x < g.width && 0 <= y < g.height
  }

  /** Row-major position of column `x`, row `y` in the buffer. */
  function Index(g: Grid, x: int, y: int): (i: nat)
    requires InBounds(g, x, y)
    ensures i < g.width * g.height
    ensures i / g.width == y && i % g.width == x
  {
    IndexBounds(g.width, g.height, x, y);
    y * g.width + x
  }

  lemma IndexBounds(w: nat, h: nat, x: int, y: int)
    requires 0 <= x < w && 0 <= y < h
    ensures 0 <= y * w + x < w * h
    ensures (y * w + x) / w == y && (y * w + x) % w == x
  {
    assert y * w <= (h - 1) * w by {
      MulMonotone(y, h - 1, w);
    }
    assert (h - 1) * w == h * w - w;
    DivModUnique(w, y, x);
  }

  lemma MulMonotone(a: nat, b: nat, c: nat)
    requires a <= b
    ensures a * c <= b * c
  {
    assert b * c == a * c + (b - a) * c;
  }

  lemma DivModUnique(w: nat, q: nat, r: nat)
    requires r < w
    ensures (q * w + r) / w == q && (q * w + r) % w == r
  {
    var n := q * w + r;
    var q', r' := n / w, n % w;
    assert n == q' * w + r';
    if q' < q {
      MulMonotone(q' + 1, q, w);
      assert false;
    } else if q < q' {
      MulMonotone(q + 1, q', w);
      assert false;
    }
  }

  /** Distinct coordinates inside the grid occupy distinct buffer slots. */
  lemma IndexInjective(g: Grid, x1: int, y1: int, x2: int, y2: int)
    requires InBounds(g, x1, y1) && InBounds(g, x2, y2)
    ensures Index(g, x1, y1) == Index(g, x2, y2) <==> x1 == x2 && y1 == y2
  {
  }

  /** `grid.getAt(x, y)` */
  function At(g: Grid, x: int, y: int): Cell
    requires WellFormed(g) && InBounds(g, x, y)
  {
    g.cells[Index(g, x, y)]
  }

  /** Exchanges the cells at two positions (the validator's `swap`). */
  function Swap(g: Grid, x1: int, y1: int, x2: int, y2: int): (r: Grid)
    requires WellFormed(g) && InBounds(g, x1, y1) && InBounds(g, x2, y2)
    ensures WellFormed(r) && r.width == g.width && r.height == g.height
    ensures At(r, x1, y1) == At(g, x2, y2) && At(r, x2, y2) == At(g, x1, y1)
    ensures forall x, y :: InBounds(g, x, y) && !(x == x1 && y == y1) && !(x == x2 && y == y2)
                           ==> At(r, x, y) == At(g, x, y)
    ensures multiset(r.cells) == multiset(g.cells)
  {
    var i, j := Index(g, x1, y1), Index(g, x2, y2);
    var r := Grid(g.width, g.height, g.cells[i := g.cells[j]][j := g.cells[i]]);
    forall x, y | InBounds(g, x, y) && !(x == x1 && y == y1) && !(x == x2 && y == y2)
      ensures At(r, x, y) == At(g, x, y)
    {
      IndexInjective(g, x, y, x1, y1);
      IndexInjective(g, x, y, x2, y2);
    }
    SwapMultiset(g.cells, i, j);
    r
  }

  lemma SwapMultiset<T>(s: seq<T>, i: nat, j: nat)
    requires i < |s| && j < |s|
    ensures multiset(s[i := s[j]][j := s[i]]) == multiset(s)
  {
  }

  /** Swapping the same two cells twice restores the grid. */
  lemma SwapTwice(g: Grid, x1: int, y1: int, x2: int, y2: int)
    requires WellFormed(g) && InBounds(g, x1, y1) && InBounds(g, x2, y2)
    ensures Swap(Swap(g, x1, y1, x2, y2), x1, y1, x2, y2) == g
  {
    var i, j := Index(g, x1, y1), Index(g, x2, y2);
    var once := Swap(g, x1, y1, x2, y2);
    assert once.cells == g.cells[i := g.cells[j]][j := g.cells[i]];
    assert Swap(once, x1, y1, x2, y2).cells == g.cells;
  }

  /** Two cells that share an edge. */
  predicate Adjacent(x1: int, y1: int, x2: int, y2: int)
  {
    || (y1 == y2 && (x1 - x2 == 1 || x2 - x1 == 1))
    || (x1 == x2 && (y1 - y2 == 1 || y2 - y1 == 1))
  }

  /** The grid holds the empty marker at `(ex, ey)` and nowhere else. */
  ghost predicate EmptyOnlyAt(g: Grid, ex: int, ey: int)
    requires WellFormed(g)
  {
    && InBounds(g, ex, ey)
    && At(g, ex, ey) == Empty
    && forall x, y :: InBounds(g, x, y) && At(g, x, y) == Empty ==> x == ex && y == ey
  }

  /** The solved buffer of `n` cells: tiles `0 .. n-2` in order, then the empty marker. */
  function SolvedCells(n: nat): seq<Cell>
    requires n >= 1
  {
    seq(n - 1, i requires 0 <= i < n - 1 => Tile(i)) + [Empty]
  }

  /** The grid `makePuzzle` starts from (app.js lines 12-19). */
  function SolvedGrid(w: nat, h: nat): (g: Grid)
    requires w >= 1 && h >= 1
    ensures WellFormed(g) && g.width == w && g.height == h
    ensures forall x, y :: InBounds(g, x, y) && !(x == w - 1 && y == h - 1) ==> At(g, x, y) == Tile(y * w + x)
    ensures EmptyOnlyAt(g, w - 1, h - 1)
  {
    assert 1 <= w * h by { MulMonotone(1, h, w); }
    var g := Grid(w, h, SolvedCells(w * h));
    IndexBounds(w, h, w - 1, h - 1);
    assert Index(g, w - 1, h - 1) == w * h - 1;
    forall x, y | InBounds(g, x, y) && !(x == w - 1 && y == h - 1)
      ensures At(g, x, y) == Tile(y * w + x)
    {
      IndexInjective(g, x, y, w - 1, h - 1);
    }
    g
  }

  /**
   The cell-conservation invariant: the grid is a rearrangement of the solved
   grid of its dimensions, so every tile `0 .. w*h-2` and the empty marker
   occur exactly once.
   */
  predicate HoldsTileSet(g: Grid)
  {
    && WellFormed(g)
    && g.width >= 1 && g.height >= 1
    && multiset(g.cells) == multiset(SolvedGrid(g.width, g.height).cells)
  }

  lemma {:induction false} SolvedCellsOneEmpty(n: nat)
    requires n >= 1
    ensures multiset(SolvedCells(n))[Empty] == 1
  {
    var tiles := seq(n - 1, i requires 0 <= i < n - 1 => Tile(i));
    assert SolvedCells(n) == tiles + [Empty];
    assert Empty !in tiles;
    assert multiset(tiles)[Empty] == 0;
  }

  lemma {:induction false} CountTwo<T>(s: seq<T>, v: T, i: nat, j: nat)
    requires i < j < |s| && s[i] == v && s[j] == v
    ensures multiset(s)[v] >= 2
  {
    assert s == s[..j] + s[j..];
    assert multiset(s) == multiset(s[..j]) + multiset(s[j..]);
    assert s[..j][i] == v;
    assert s[j..][0] == v;
    assert v in multiset(s[..j]) && v in multiset(s[j..]);
  }

  /** In a grid that keeps the tile set, an empty cell is the only one. */
  lemma EmptyIsUnique(g: Grid, ex: int, ey: int)
    requires HoldsTileSet(g) && InBounds(g, ex, ey) && At(g, ex, ey) == Empty
    ensures EmptyOnlyAt(g, ex, ey)
  {
    SolvedCellsOneEmpty(g.width * g.height);
    forall x, y | InBounds(g, x, y) && At(g, x, y) == Empty
      ensures x == ex && y == ey
    {
      var i, j := Index(g, x, y), Index(g, ex, ey);
      if i < j {
        CountTwo(g.cells, Empty, i, j);
      } else if j < i {
        CountTwo(g.cells, Empty, j, i);
      }
      IndexInjective(g, x, y, ex, ey);
    }
  }

  /**
   If every cell but the last holds its own index and the grid keeps the tile
   set, the last cell is the empty marker: the grid is exactly the solved one.
   */
  lemma {:induction false} PrefixSolvedIsSolved(g: Grid)
    requires HoldsTileSet(g)
    requires forall i :: 0 <= i < |g.cells| - 1 ==> g.cells[i] == Tile(i)
    ensures g == SolvedGrid(g.width, g.height)
  {
    var solved := SolvedGrid(g.width, g.height).cells;
    var n := |g.cells|;
    SolvedCellsOneEmpty(n);
    assert |solved| == n;
    assert g.cells[..n - 1] == solved[..n - 1];
    assert g.cells == g.cells[..n - 1] + [g.cells[n - 1]];
    assert multiset(g.cells) == multiset(g.cells[..n - 1]) + multiset{g.cells[n - 1]};
    assert Empty !in g.cells[..n - 1];
    assert multiset(g.cells[..n - 1])[Empty] == 0;
    assert g.cells == solved;
  }

  /** Dropping the head of a prefix is taking a prefix of the tail. */
  lemma PrefixTail<T>(s: seq<T>, k: nat)
    requires 0 < k <= |s|
    ensures s[..k][1..] == s[1..][..k - 1]
  {
  }
}
