/**
 `prettyJSONPuzzle(grid, seed)` (app.js lines 68-88): the puzzle document,
 one text row per grid row, every cell rendered four characters wide by
 `elStr`.
 */
module Pretty {
  import opened Errors
  import opened Grids

  predicate IsDigit(c: char)
  {
    '0' <= c <= '9'
  }

  predicate AllDigits(s: string)
  {
    forall i :: 0 <= i < |s| ==> IsDigit(s[i])
  }

  function DigitChar(d: nat): (c: char)
    requires d < 10
    ensures IsDigit(c)
  {
    ('0' as int + d) as char
  }

  function DigitValue(c: char): nat
    requires IsDigit(c)
  {
    c as int - '0' as int
  }

  /**
   The plain decimal text of a natural number. JavaScript prints an integer
   this way only below 2^53, where it holds the value exactly (from 10^21 it
   switches to exponent form).
   */
  function Decimal(n: nat): (s: string)
    ensures 1 <= |s| && AllDigits(s)
    decreases n
  {
    if n < 10 then [DigitChar(n)] else Decimal(n / 10) + [DigitChar(n % 10)]
  }

  /** Reads a string of digits back as a number. */
  function ParseDecimal(s: string): nat
    requires AllDigits(s)
    decreases |s|
  {
    if |s| == 0 then 0 else ParseDecimal(s[..|s| - 1]) * 10 + DigitValue(s[|s| - 1])
  }

  lemma {:induction false} DecimalRoundTrip(n: nat)
    ensures ParseDecimal(Decimal(n)) == n
    decreases n
  {
    if n >= 10 {
      var s := Decimal(n);
      assert s[..|s| - 1] == Decimal(n / 10);
      DecimalRoundTrip(n / 10);
    }
  }

  /** Numbers up to 9999 print in at most four digits, and no others do. */
  lemma {:induction false} DecimalWidth(n: nat)
    ensures |Decimal(n)| <= 4 <==> n <= 9999
    decreases n
  {
    if n >= 10 {
      DecimalWidth(n / 10);
      assert |Decimal(n / 10)| <= 3 <==> n / 10 <= 999 by {
        DecimalShorter(n / 10);
      }
    }
  }

  lemma {:induction false} DecimalShorter(n: nat)
    ensures |Decimal(n)| <= 3 <==> n <= 999
    decreases n
  {
    if n >= 10 {
      DecimalShorter(n / 10);
      DecimalShortest(n / 10);
    }
  }

  lemma {:induction false} DecimalShortest(n: nat)
    ensures |Decimal(n)| <= 2 <==> n <= 99
    ensures |Decimal(n)| <= 1 <==> n <= 9
    decreases n
  {
    if n >= 10 {
      DecimalShortest(n / 10);
    }
  }

  function Spaces(k: nat): (s: string)
    ensures |s| == k && forall i :: 0 <= i < k ==> s[i] == ' '
  {
    seq(k, _ => ' ')
  }

  /** `elStr` (lines 69-75): `'null'`, or the number right-aligned in four characters. */
  function ElStr(c: Cell): (r: string)
    ensures |r| == 4
    ensures c.Empty? ==> r == "null"
    ensures c.Tile? && |Decimal(c.n)| <= 4 ==> r == Spaces(4 - |Decimal(c.n)|) + Decimal(c.n)
    ensures c.Tile? && |Decimal(c.n)| > 4 ==> r == Decimal(c.n)[|Decimal(c.n)| - 4..]
  {
    match c
    case Empty => "null"
    case Tile(n) =>
      var s := "   " + Decimal(n);
      assert |Decimal(n)| <= 4 ==> s[|s| - 4..] == Spaces(4 - |Decimal(n)|) + Decimal(n);
      s[|s| - 4..]
  }

  function TrimLeft(s: string): (r: string)
    decreases |s|
  {
    if |s| > 0 && s[0] == ' ' then TrimLeft(s[1..]) else s
  }

  /** Reads a rendered cell back: `null`, or optional spaces then digits. */
  function ParseCell(s: string): Option<Cell>
  {
    if s == "null" then Some(Empty)
    else
      var digits := TrimLeft(s);
      if |digits| > 0 && AllDigits(digits) then Some(Tile(ParseDecimal(digits))) else None
  }

  lemma {:induction false} TrimSpaces(k: nat, d: string)
    requires |d| > 0 && d[0] != ' '
    ensures TrimLeft(Spaces(k) + d) == d
    decreases k
  {
    if k > 0 {
      assert (Spaces(k) + d)[1..] == Spaces(k - 1) + d;
      TrimSpaces(k - 1, d);
    } else {
      assert Spaces(k) + d == d;
    }
  }

  /** Every cell the source can print is read back as itself. */
  lemma CellRoundTrip(c: Cell)
    requires c.Tile? ==> c.n <= 9999
    ensures ParseCell(ElStr(c)) == Some(c)
  {
    if c.Tile? {
      var d := Decimal(c.n);
      DecimalWidth(c.n);
      TrimSpaces(4 - |d|, d);
      assert ElStr(c) != "null" by {
        assert IsDigit(ElStr(c)[3]);
      }
      DecimalRoundTrip(c.n);
    }
  }

  /** One cell with the separators of lines 81-82. */
  function CellText(g: Grid, x: int, y: int): string
    requires WellFormed(g) && InBounds(g, x, y)
  {
    ElStr(At(g, x, y))
    + (if y < g.height - 1 || x < g.width - 1 then "," else "")
    + (if x < g.width - 1 then " " else "")
  }

  /** Cells `x ..` of row `y`. */
  function CellsFrom(g: Grid, y: int, x: nat): string
    requires WellFormed(g) && 0 <= y < g.height && x <= g.width
    decreases g.width - x
  {
    if x == g.width then "" else CellText(g, x, y) + CellsFrom(g, y, x + 1)
  }

  /** One text row (lines 78-84). */
  function RowText(g: Grid, y: int): string
    requires WellFormed(g) && 0 <= y < g.height
  {
    "    " + CellsFrom(g, y, 0) + "\n"
  }

  function RowsFrom(g: Grid, y: nat): string
    requires WellFormed(g) && y <= g.height
    decreases g.height - y
  {
    if y == g.height then "" else RowText(g, y) + RowsFrom(g, y + 1)
  }

  /** `prettyJSONPuzzle(grid, seed)`; the seed is inserted as given. */
  function PrettyJSONPuzzle(g: Grid, seed: string): string
    requires WellFormed(g)
  {
    "{ \"width\": " + Decimal(g.width) + ", \"height\": " + Decimal(g.height)
    + ", \"id\": \"" + seed + "\", \"grid\": [\n\n"
    + RowsFrom(g, 0)
    + "\n] }\n"
  }

  lemma {:induction false} CellsFromSuffix(g: Grid, y: int, x0: nat, x: nat)
    requires WellFormed(g) && 0 <= y < g.height && x0 <= x < g.width
    ensures 6 * (x - x0) <= |CellsFrom(g, y, x0)|
    ensures CellsFrom(g, y, x0)[6 * (x - x0)..] == CellsFrom(g, y, x)
    decreases x - x0
  {
    if x0 < x {
      CellsFromSuffix(g, y, x0 + 1, x);
      var head, rest := CellText(g, x0, y), CellsFrom(g, y, x0 + 1);
      assert |head| == 6;
      assert CellsFrom(g, y, x0) == head + rest;
      DropAcross(head, rest, [], 6 * (x - x0 - 1));
      assert head + rest + [] == head + rest;
    }
  }

  /** Row `y` from the first character of cell `x` on. */
  lemma CellInRow(g: Grid, x: int, y: int)
    requires WellFormed(g) && InBounds(g, x, y)
    ensures 4 + 6 * x <= |RowText(g, y)|
    ensures RowText(g, y)[4 + 6 * x..] == CellText(g, x, y) + CellsFrom(g, y, x + 1) + "\n"
  {
    CellsFromSuffix(g, y, 0, x);
    var cells := CellsFrom(g, y, 0);
    DropAcross("    ", cells, "\n", 6 * x);
    assert CellsFrom(g, y, x) == CellText(g, x, y) + CellsFrom(g, y, x + 1);
  }

  lemma DropAcross<T>(a: seq<T>, b: seq<T>, c: seq<T>, k: nat)
    requires k <= |b|
    ensures (a + b + c)[|a| + k..] == b[k..] + c
  {
  }

  /**
   The layout of one text row: four spaces, then cell `x` in the four
   characters from `4 + 6x`, followed by a comma unless it is the last cell
   of the last row and by a space unless it is the last of its row; the row
   ends with a line break after its last cell.
   */
  lemma RowLayout(g: Grid, x: int, y: int)
    requires WellFormed(g) && InBounds(g, x, y)
    ensures var row, at := RowText(g, y), 4 + 6 * x;
            && at + 4 < |row|
            && row[..4] == "    "
            && row[at..at + 4] == ElStr(At(g, x, y))
            && (row[at + 4] == ',' <==> !(x == g.width - 1 && y == g.height - 1))
            && (x < g.width - 1 ==> row[at + 5] == ' ')
            && (x == g.width - 1 ==> row[at + 4..] == if y < g.height - 1 then ",\n" else "\n")
  {
    var row, at := RowText(g, y), 4 + 6 * x;
    CellInRow(g, x, y);
    var tail := row[at..];
    var cell := ElStr(At(g, x, y));
    assert tail[..4] == cell;
    assert row[at..at + 4] == tail[..4];
    if x < g.width - 1 {
      assert tail[4] == ',' && tail[5] == ' ';
    } else {
      assert CellsFrom(g, y, x + 1) == "";
      if y < g.height - 1 {
        assert tail == cell + "," + "\n";
      } else {
        assert tail == cell + "\n";
      }
    }
  }
}
