/** Row-major grids as both sprite pipelines store them: a width, a height
    and one flat sequence of cells, with cell (x, y) at position y * width + x
    (origin top-left).  Also the orthogonal neighbourhood of a cell, defined
    by adjacency rather than by the four tests the source performs. */
module Grids {

  /** Position of cell (x, y) in the flat sequence of a grid `width` cells wide. */
  function Index(width: nat, x: nat, y: nat): nat
  {
    y * width + x
  }

  lemma {:induction false} MulMonotonic(a: nat, b: nat, c: nat)
    requires a <= b
    ensures a * c <= b * c
  {
    if c > 0 {
      MulMonotonic(a, b, c - 1);
      assert a * c == a * (c - 1) + a;
      assert b * c == b * (c - 1) + b;
    }
  }

  /** Every in-range coordinate pair addresses a cell of the flat sequence. */
  lemma IndexInBounds(width: nat, height: nat, x: nat, y: nat)
    requires x < width && y < height
    ensures Index(width, x, y) < width * height
  {
    MulMonotonic(y + 1, height, width);
    assert (y + 1) * width == y * width + width;
  }

  /** Cell y of row-major order starts at row y * width and ends before the next row. */
  lemma RowBounds(width: nat, x: nat, y: nat)
    requires x < width
    ensures y * width <= Index(width, x, y) < (y + 1) * width
  {
    assert (y + 1) * width == y * width + width;
  }

  /** Distinct in-range coordinates address distinct cells. */
  lemma IndexInjective(width: nat, x1: nat, y1: nat, x2: nat, y2: nat)
    requires x1 < width && x2 < width
    requires Index(width, x1, y1) == Index(width, x2, y2)
    ensures x1 == x2 && y1 == y2
  {
    RowBounds(width, x1, y1);
    RowBounds(width, x2, y2);
    if y1 < y2 {
      MulMonotonic(y1 + 1, y2, width);
      assert false;
    } else if y2 < y1 {
      MulMonotonic(y2 + 1, y1, width);
      assert false;
    }
  }

  /** The coordinates that row-major order assigns to position i are in range
      and address i again. */
  lemma CoordinatesOf(width: nat, height: nat, i: nat)
    requires i < width * height
    ensures width > 0 && i % width < width && i / width < height
    ensures Index(width, i % width, i / width) == i
  {
    if width == 0 {
      assert false;
    }
    var q, r := i / width, i % width;
    assert i == q * width + r;
    if q >= height {
      MulMonotonic(height, q, width);
      assert false;
    }
  }

  /** Reading position Index(width, x, y) back as coordinates gives (x, y). */
  lemma IndexCoordinates(width: nat, x: nat, y: nat)
    requires x < width
    ensures Index(width, x, y) % width == x && Index(width, x, y) / width == y
  {
    var i := Index(width, x, y);
    var q, r := i / width, i % width;
    assert i == q * width + r;
    IndexInjective(width, r, q, x, y);
  }

  /** A width-by-height grid of cells of type T, row-major. */
  datatype Grid<T> = Grid(width: nat, height: nat, cells: seq<T>)
  {
    /** The flat sequence holds exactly one cell per coordinate pair. */
    ghost predicate Valid()
    {
      |cells| == width * height
    }

    /** The cell at column x, row y. */
    function Cell(x: nat, y: nat): T
      requires Valid() && x < width && y < height
    {
      IndexInBounds(width, height, x, y);
      cells[Index(width, x, y)]
    }

    /** Row y, the y-th chunk of `width` cells. */
    function Row(y: nat): (r: seq<T>)
      requires Valid() && y < height
      ensures |r| == width
      ensures forall x :: 0 <= x < width ==> r[x] == Cell(x, y)
    {
      MulMonotonic(y + 1, height, width);
      assert (y + 1) * width == y * width + width;
      cells[y * width .. (y + 1) * width]
    }

    /** The grid with cell (x, y) replaced by v and every other cell kept. */
    function Update(x: nat, y: nat, v: T): (r: Grid<T>)
      requires Valid() && x < width && y < height
      ensures r.Valid() && r.width == width && r.height == height
      ensures forall px: nat, py: nat :: px < width && py < height ==>
        r.Cell(px, py) == if px == x && py == y then v else Cell(px, py)
    {
      IndexInBounds(width, height, x, y);
      var r := Grid(width, height, cells[Index(width, x, y) := v]);
      assert forall px: nat, py: nat :: px < width && py < height ==>
        r.Cell(px, py) == if px == x && py == y then v else Cell(px, py) by {
        forall px: nat, py: nat | px < width && py < height
          ensures r.Cell(px, py) == if px == x && py == y then v else Cell(px, py)
        {
          var i, j := Index(width, x, y), Index(width, px, py);
          IndexInBounds(width, height, px, py);
          if px != x || py != y {
            if i == j {
              IndexInjective(width, px, py, x, y);
              assert false;
            }
            assert r.cells[j] == cells[j];
          }
        }
      }
      r
    }
  }

  /** The first k + 1 rows are the first k rows followed by row k. */
  lemma RowsPrefix<T>(g: Grid<T>, k: nat)
    requires g.Valid() && k < g.height
    ensures k * g.width <= (k + 1) * g.width <= |g.cells|
    ensures g.cells[..(k + 1) * g.width] == g.cells[..k * g.width] + g.Row(k)
  {
    MulMonotonic(k + 1, g.height, g.width);
    assert (k + 1) * g.width == k * g.width + g.width;
  }

  /** Two valid grids of the same shape that agree on every cell are equal. */
  lemma Extensionality<T>(g1: Grid<T>, g2: Grid<T>)
    requires g1.Valid() && g2.Valid()
    requires g1.width == g2.width && g1.height == g2.height
    requires forall x: nat, y: nat :: x < g1.width && y < g1.height ==> g1.Cell(x, y) == g2.Cell(x, y)
    ensures g1 == g2
  {
    forall i | 0 <= i < |g1.cells|
      ensures g1.cells[i] == g2.cells[i]
    {
      CoordinatesOf(g1.width, g1.height, i);
      assert g1.Cell(i % g1.width, i / g1.width) == g2.Cell(i % g1.width, i / g1.width);
    }
  }

  /** The grid whose cell (x, y) is f(x, y). */
  function Tabulate<T>(width: nat, height: nat, f: (nat, nat) --> T): (g: Grid<T>)
    requires forall x: nat, y: nat :: x < width && y < height ==> f.requires(x, y)
    ensures g.Valid() && g.width == width && g.height == height
    ensures forall x: nat, y: nat :: x < width && y < height ==> g.Cell(x, y) == f(x, y)
  {
    var cells := seq(width * height, i requires 0 <= i < width * height =>
      CoordinatesOf(width, height, i);
      f(i % width, i / width));
    var g := Grid(width, height, cells);
    assert forall x: nat, y: nat :: x < width && y < height ==> g.Cell(x, y) == f(x, y) by {
      forall x: nat, y: nat | x < width && y < height
        ensures g.Cell(x, y) == f(x, y)
      {
        IndexInBounds(width, height, x, y);
        IndexCoordinates(width, x, y);
      }
    }
    g
  }

  /** `s` read backwards, as `iter().rev()` yields it. */
  function Reverse<T>(s: seq<T>): (r: seq<T>)
    ensures |r| == |s|
    ensures forall k :: 0 <= k < |s| ==> r[k] == s[|s| - 1 - k]
  {
    seq(|s|, k requires 0 <= k < |s| => s[|s| - 1 - k])
  }

  /** (px, py) is one of the four cells orthogonally next to (x, y). */
  ghost predicate Adjacent(px: nat, py: nat, x: nat, y: nat)
  {
    (py == y && (px + 1 == x || px == x + 1)) || (px == x && (py + 1 == y || py == y + 1))
  }

  /** The in-range cells orthogonally next to (x, y); off-grid positions are
      absent, never wrapped round. */
  ghost function Neighborhood(width: nat, height: nat, x: nat, y: nat): set<(nat, nat)>
  {
    set px: nat, py: nat | px < width && py < height && Adjacent(px, py, x, y) :: (px, py)
  }

  /** The neighbours of (x, y) whose cell equals `live`. */
  ghost function LiveNeighbors<T>(g: Grid<T>, live: T, x: nat, y: nat): set<(nat, nat)>
    requires g.Valid()
  {
    set p | p in Neighborhood(g.width, g.height, x, y) && g.Cell(p.0, p.1) == live
  }

  /** 1 for a test that holds, 0 for one that does not. */
  function Term(b: bool): nat
  {
    if b then 1 else 0
  }

  /** The set holding p when b holds, and nothing otherwise. */
  ghost function Maybe(b: bool, p: (nat, nat)): (s: set<(nat, nat)>)
    ensures |s| == Term(b)
  {
    if b then {p} else {}
  }

  /** Membership in the neighbourhood is adjacency within range. */
  lemma InNeighborhood(width: nat, height: nat, x: nat, y: nat, p: (nat, nat))
    ensures p in Neighborhood(width, height, x, y) <==> p.0 < width && p.1 < height && Adjacent(p.0, p.1, x, y)
  {
    if p.0 < width && p.1 < height && Adjacent(p.0, p.1, x, y) {
      assert p == (p.0, p.1);
    }
  }

  /** The size of a union of four pairwise disjoint sets of at most one element. */
  lemma DisjointUnionSize(a: set<(nat, nat)>, b: set<(nat, nat)>, c: set<(nat, nat)>, d: set<(nat, nat)>)
    requires a !! b && a !! c && a !! d && b !! c && b !! d && c !! d
    ensures |a + b + c + d| == |a| + |b| + |c| + |d|
  {
    assert |a + b| == |a| + |b|;
    assert (a + b) !! c;
    assert |a + b + c| == |a + b| + |c|;
    assert (a + b + c) !! d;
  }

  /** The neighbours of (x, y) that pass `ok`, one direction at a time. */
  ghost function PassingByDirection(width: nat, height: nat, x: nat, y: nat, ok: (nat, nat) -> bool): set<(nat, nat)>
  {
    Maybe(x > 0 && ok(x - 1, y), (if x > 0 then x - 1 else 0, y)) +
    Maybe(y > 0 && ok(x, y - 1), (x, if y > 0 then y - 1 else 0)) +
    Maybe(x + 1 < width && ok(x + 1, y), (x + 1, y)) +
    Maybe(y + 1 < height && ok(x, y + 1), (x, y + 1))
  }

  lemma PassingIncluded(width: nat, height: nat, x: nat, y: nat, s: set<(nat, nat)>, ok: (nat, nat) -> bool)
    requires x < width && y < height
    requires forall p :: p in s ==> p in Neighborhood(width, height, x, y) && ok(p.0, p.1)
    ensures s <= PassingByDirection(width, height, x, y, ok)
  {
    forall p | p in s
      ensures p in PassingByDirection(width, height, x, y, ok)
    {
      InNeighborhood(width, height, x, y, p);
    }
  }

  lemma PassingIncludes(width: nat, height: nat, x: nat, y: nat, s: set<(nat, nat)>, ok: (nat, nat) -> bool)
    requires x < width && y < height
    requires forall p :: p in Neighborhood(width, height, x, y) && ok(p.0, p.1) ==> p in s
    ensures PassingByDirection(width, height, x, y, ok) <= s
  {
    forall p | p in PassingByDirection(width, height, x, y, ok)
      ensures p in s
    {
      InNeighborhood(width, height, x, y, p);
    }
  }

  lemma PassingSize(width: nat, height: nat, x: nat, y: nat, ok: (nat, nat) -> bool)
    ensures |PassingByDirection(width, height, x, y, ok)| ==
      Term(x > 0 && ok(x - 1, y)) + Term(y > 0 && ok(x, y - 1)) +
      Term(x + 1 < width && ok(x + 1, y)) + Term(y + 1 < height && ok(x, y + 1))
  {
    DisjointUnionSize(
      Maybe(x > 0 && ok(x - 1, y), (if x > 0 then x - 1 else 0, y)),
      Maybe(y > 0 && ok(x, y - 1), (x, if y > 0 then y - 1 else 0)),
      Maybe(x + 1 < width && ok(x + 1, y), (x + 1, y)),
      Maybe(y + 1 < height && ok(x, y + 1), (x, y + 1)));
  }

  /** The live neighbours are the neighbours, one direction at a time, whose cell is live. */
  lemma LiveNeighborsPassing<T>(g: Grid<T>, live: T, x: nat, y: nat)
    requires g.Valid() && x < g.width && y < g.height
    ensures LiveNeighbors(g, live, x, y) ==
      PassingByDirection(g.width, g.height, x, y, (px: nat, py: nat) => px < g.width && py < g.height && g.Cell(px, py) == live)
  {
    var ok := (px: nat, py: nat) => px < g.width && py < g.height && g.Cell(px, py) == live;
    var s := LiveNeighbors(g, live, x, y);
    PassingIncluded(g.width, g.height, x, y, s, ok);
    PassingIncludes(g.width, g.height, x, y, s, ok);
  }

  /** Counting the live neighbours one direction at a time (left, up, right,
      down) gives the size of the neighbourhood's live set. */
  lemma LiveNeighborsByDirection<T>(g: Grid<T>, live: T, x: nat, y: nat)
    requires g.Valid() && x < g.width && y < g.height
    ensures |LiveNeighbors(g, live, x, y)| ==
      Term(x > 0 && g.Cell(x - 1, y) == live) + Term(y > 0 && g.Cell(x, y - 1) == live) +
      Term(x + 1 < g.width && g.Cell(x + 1, y) == live) + Term(y + 1 < g.height && g.Cell(x, y + 1) == live)
  {
    var ok := (px: nat, py: nat) => px < g.width && py < g.height && g.Cell(px, py) == live;
    LiveNeighborsPassing(g, live, x, y);
    PassingSize(g.width, g.height, x, y, ok);
  }

  /** Two grids of one shape that agree on which cells equal `live` have the
      same live neighbours everywhere. */
  lemma LiveNeighborsAgree<T>(g1: Grid<T>, g2: Grid<T>, live: T, x: nat, y: nat)
    requires g1.Valid() && g2.Valid()
    requires g1.width == g2.width && g1.height == g2.height
    requires forall px: nat, py: nat :: px < g1.width && py < g1.height ==>
      (g1.Cell(px, py) == live <==> g2.Cell(px, py) == live)
    ensures LiveNeighbors(g1, live, x, y) == LiveNeighbors(g2, live, x, y)
  {
  }

  /** Some neighbour of an edge cell is missing. */
  ghost predicate OnEdge(width: nat, height: nat, x: nat, y: nat)
  {
    x == 0 || y == 0 || x + 1 == width || y + 1 == height
  }

  /** A corner cell misses a horizontal and a vertical neighbour. */
  ghost predicate AtCorner(width: nat, height: nat, x: nat, y: nat)
  {
    (x == 0 || x + 1 == width) && (y == 0 || y + 1 == height)
  }

  /** At most four neighbours are live, at most three on an edge and at most
      two at a corner. */
  lemma LiveNeighborsBounds<T>(g: Grid<T>, live: T, x: nat, y: nat)
    requires g.Valid() && x < g.width && y < g.height
    ensures |LiveNeighbors(g, live, x, y)| <= 4
    ensures OnEdge(g.width, g.height, x, y) ==> |LiveNeighbors(g, live, x, y)| <= 3
    ensures AtCorner(g.width, g.height, x, y) ==> |LiveNeighbors(g, live, x, y)| <= 2
  {
    LiveNeighborsByDirection(g, live, x, y);
  }
}
