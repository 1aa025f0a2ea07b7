/** The older, integer-coded sprite pipeline of src/bitmap.rs: cells are
    bytes, 0 for background, 1 for colour and 2 for outline.  The stages are
    those of the pixel-map pipeline, except that the neighbour count's first
    test reads the cell itself rather than its left neighbour (bitmap.rs:34);
    the model keeps that test as written.  The random draws are an input. */
module Bitmaps {
  import opened Grids

  /** A Rust `u8`. */
  newtype uint8 = b: int | 0 <= b < 256

  /** `Rng::gen_range(low, high)`: a value from low up to but excluding high,
      decided by the draw passed in. */
  function GenRange(low: nat, high: nat, draw: nat): (r: nat)
    requires low < high
    ensures low <= r < high
  {
    low + draw % (high - low)
  }

  /** The seed bitmap for a sequence of draws: each cell is its draw modulo 2. */
  ghost function Seeded(width: nat, height: nat, draws: seq<nat>): (g: Grid<uint8>)
    requires |draws| == width * height
    ensures g.Valid() && g.width == width && g.height == height
  {
    Grid(width, height, seq(width * height, (i: int) requires 0 <= i < width * height => (draws[i] % 2) as uint8))
  }

  /** Every cell of `g` is at most `bound`. */
  ghost predicate AtMost(g: Grid<uint8>, bound: uint8)
  {
    forall i :: 0 <= i < |g.cells| ==> g.cells[i] <= bound
  }

  /** A bitmap: its width, its height and its bytes in row-major order. */
  class Bitmap {
    const width: nat
    const height: nat
    var data: seq<uint8>

    ghost predicate Valid()
      reads this
    {
      |data| == width * height
    }

    /** The grid this bitmap holds. */
    function Model(): Grid<uint8>
      reads this
    {
      Grid(width, height, data)
    }

    /** The struct literal `Bitmap { width, height, data }`. */
    constructor (width: nat, height: nat, data: seq<uint8>)
      requires |data| == width * height
      ensures Valid() && Model() == Grid(width, height, data)
    {
      this.width := width;
      this.height := height;
      this.data := data;
    }

    /** `Bitmap::generate`: overwrite every byte of an all-zero bitmap with
        `gen_range(0, 2)`. */
    static method Generate(width: nat, height: nat, draws: seq<nat>) returns (b: Bitmap)
      requires |draws| == width * height
      ensures b.Valid() && b.Model() == Seeded(width, height, draws)
      ensures AtMost(b.Model(), 1)
    {
      var data: seq<uint8> := seq(width * height, _ => 0);
      var i := 0;
      while i < |data|
        invariant 0 <= i <= |data| == width * height
        invariant forall k :: 0 <= k < i ==> data[k] == Seeded(width, height, draws).cells[k]
      {
        data := data[i := GenRange(0, 2, draws[i]) as uint8];
        i := i + 1;
      }
      b := new Bitmap(width, height, data);
    }

    /** `get`: the byte at (x, y). */
    function Get(x: nat, y: nat): (v: uint8)
      reads this
      requires Valid() && x < width && y < height
      ensures v == Model().Cell(x, y)
    {
      IndexInBounds(width, height, x, y);
      data[Index(width, x, y)]
    }

    /** `get_mut(x, y)` followed by a write of `v` through the reference:
        only cell (x, y) changes. */
    method Set(x: nat, y: nat, v: uint8)
      requires Valid() && x < width && y < height
      modifies this
      ensures Valid() && Model() == old(Model()).Update(x, y, v)
    {
      IndexInBounds(width, height, x, y);
      data := data[Index(width, x, y) := v];
    }
  }

  /** The live (1) neighbours of (x, y) other than its left neighbour. */
  ghost function LiveExceptLeft(g: Grid<uint8>, x: nat, y: nat): set<(nat, nat)>
    requires g.Valid()
  {
    set p | p in LiveNeighbors(g, 1, x, y) && !(p.0 + 1 == x && p.1 == y)
  }

  /** What `count_neighbors` counts here: 1 when x > 0 and the cell itself is
      1, plus the live neighbours above, to the right and below. */
  ghost function Count(g: Grid<uint8>, x: nat, y: nat): nat
    requires g.Valid()
  {
    Term(x > 0 && x < g.width && y < g.height && g.Cell(x, y) == 1) + |LiveExceptLeft(g, x, y)|
  }

  /** Without the left neighbour, the live set is the up, right and down tests. */
  lemma LiveExceptLeftByDirection(g: Grid<uint8>, x: nat, y: nat)
    requires g.Valid() && x < g.width && y < g.height
    ensures |LiveExceptLeft(g, x, y)| ==
      Term(y > 0 && g.Cell(x, y - 1) == 1) + Term(x + 1 < g.width && g.Cell(x + 1, y) == 1) +
      Term(y + 1 < g.height && g.Cell(x, y + 1) == 1)
  {
    var ok := (px: nat, py: nat) => px < g.width && py < g.height && g.Cell(px, py) == 1 && !(px + 1 == x && py == y);
    var s := LiveExceptLeft(g, x, y);
    PassingIncluded(g.width, g.height, x, y, s, ok);
    PassingIncludes(g.width, g.height, x, y, s, ok);
    PassingSize(g.width, g.height, x, y, ok);
    assert s == PassingByDirection(g.width, g.height, x, y, ok);
    assert !(x > 0 && ok(x - 1, y));
    assert (y > 0 && ok(x, y - 1)) == (y > 0 && g.Cell(x, y - 1) == 1);
    assert (x + 1 < g.width && ok(x + 1, y)) == (x + 1 < g.width && g.Cell(x + 1, y) == 1);
    assert (y + 1 < g.height && ok(x, y + 1)) == (y + 1 < g.height && g.Cell(x, y + 1) == 1);
  }

  /** The count term by term, as the four tests of the source compute it. */
  lemma CountByDirection(g: Grid<uint8>, x: nat, y: nat)
    requires g.Valid() && x < g.width && y < g.height
    ensures Count(g, x, y) ==
      Term(x > 0 && g.Cell(x, y) == 1) + Term(y > 0 && g.Cell(x, y - 1) == 1) +
      Term(x + 1 < g.width && g.Cell(x + 1, y) == 1) + Term(y + 1 < g.height && g.Cell(x, y + 1) == 1)
  {
    LiveExceptLeftByDirection(g, x, y);
  }

  /** At most four, at most three on an edge and at most two at a corner. */
  lemma CountBounds(g: Grid<uint8>, x: nat, y: nat)
    requires g.Valid() && x < g.width && y < g.height
    ensures Count(g, x, y) <= 4
    ensures OnEdge(g.width, g.height, x, y) ==> Count(g, x, y) <= 3
    ensures AtCorner(g.width, g.height, x, y) ==> Count(g, x, y) <= 2
  {
    CountByDirection(g, x, y);
  }

  /** `count_neighbors` of bitmap.rs, its first test on (x, y) as written. */
  method CountNeighbors(state: Bitmap, x: nat, y: nat) returns (count: nat)
    requires state.Valid() && x < state.width && y < state.height
    ensures count == Count(state.Model(), x, y)
    ensures count <= 4
  {
    count := 0;
    if x > 0 && state.Get(x, y) == 1 {
      count := count + 1;
    }
    if y > 0 && state.Get(x, y - 1) == 1 {
      count := count + 1;
    }
    if x < state.width - 1 && state.Get(x + 1, y) == 1 {
      count := count + 1;
    }
    if y < state.height - 1 && state.Get(x, y + 1) == 1 {
      count := count + 1;
    }
    CountByDirection(state.Model(), x, y);
  }

  /** The automaton rule, case by case, on bytes: 0 becomes 1 with a count
      of at most one, 1 stays 1 with two or three, anything else becomes 0. */
  function Rule(cell: uint8, neighbors: nat): uint8
  {
    if cell == 0 then (if neighbors <= 1 then 1 else 0)
    else if cell == 1 then (if neighbors == 2 || neighbors == 3 then 1 else 0)
    else 0
  }

  /** One evolution pass, every cell computed from the old bitmap. */
  ghost function Evolved(g: Grid<uint8>): (e: Grid<uint8>)
    requires g.Valid()
    ensures e.Valid() && e.width == g.width && e.height == g.height
  {
    Tabulate(g.width, g.height, (x: nat, y: nat) requires x < g.width && y < g.height =>
      Rule(g.Cell(x, y), Count(g, x, y)))
  }

  /** `evolve`: clone the bitmap, then write every byte of the clone from the
      byte and count of the original. */
  method Evolve(state: Bitmap) returns (evolved: Bitmap)
    requires state.Valid()
    ensures evolved.Valid() && evolved.Model() == Evolved(state.Model())
  {
    evolved := new Bitmap(state.width, state.height, state.data);
    ghost var target := Evolved(state.Model());
    var y := 0;
    while y < state.height
      invariant 0 <= y <= state.height
      invariant evolved.Valid() && evolved.width == state.width && evolved.height == state.height
      invariant forall px: nat, py: nat :: px < state.width && py < y ==>
        evolved.Get(px, py) == target.Cell(px, py)
    {
      var x := 0;
      while x < state.width
        invariant 0 <= x <= state.width
        invariant evolved.Valid() && evolved.width == state.width && evolved.height == state.height
        invariant forall px: nat, py: nat :: px < state.width && (py < y || (py == y && px < x)) ==>
          evolved.Get(px, py) == target.Cell(px, py)
      {
        var cell := state.Get(x, y);
        var neighbors := CountNeighbors(state, x, y);
        evolved.Set(x, y,
          if (cell == 0 && neighbors <= 1) || (cell == 1 && (neighbors == 2 || neighbors == 3))
          then 1 else 0);
        x := x + 1;
      }
      y := y + 1;
    }
    Extensionality(evolved.Model(), target);
  }

  /** The 4x8 bitmap grown to 5x10: a zero row on top and at the bottom and a
      zero column on the right. */
  ghost function Grown(g: Grid<uint8>): (r: Grid<uint8>)
    requires g.Valid() && g.width == 4 && g.height == 8
    ensures r.Valid() && r.width == 5 && r.height == 10
  {
    Tabulate(5, 10, (x: nat, y: nat) requires x < 5 && y < 10 =>
      if y == 0 || y == 9 || x == 4 then 0 else g.Cell(x, y - 1))
  }

  /** The growth step of `generate_sprite_bitmap`: five zeros, then each row
      of four bytes followed by a zero, then five zeros. */
  method Grow(b: Bitmap) returns (newData: seq<uint8>)
    requires b.Valid() && b.width == 4 && b.height == 8
    ensures Grid(5, 10, newData) == Grown(b.Model())
  {
    ghost var target := Grown(b.Model());
    newData := seq(5, _ => 0 as uint8);
    GrownFirstRow(b.Model());
    var k := 0;
    while k < 8
      invariant 0 <= k <= 8
      invariant newData == target.cells[..5 * (k + 1)]
    {
      var row := b.data[4 * k .. 4 * k + 4];
      assert row == b.Model().Row(k);
      row := row + [0 as uint8];
      GrownRowStep(b.Model(), k);
      newData := newData + row;
      k := k + 1;
    }
    GrownLastRow(b.Model());
    newData := newData + seq(5, _ => 0 as uint8);
  }

  /** The first five cells of the grown grid are the padding. */
  lemma GrownFirstRow(g: Grid<uint8>)
    requires g.Valid() && g.width == 4 && g.height == 8
    ensures Grown(g).cells[..5] == seq(5, _ => 0 as uint8)
  {
    var target := Grown(g);
    RowsPrefix(target, 0);
    assert target.Row(0) == seq(5, _ => 0 as uint8);
  }

  /** Row k followed by the padding is row k + 1 of the grown grid. */
  lemma GrownRowStep(g: Grid<uint8>, k: nat)
    requires g.Valid() && g.width == 4 && g.height == 8 && k < 8
    ensures 5 * (k + 2) <= 50
    ensures Grown(g).cells[..5 * (k + 2)] == Grown(g).cells[..5 * (k + 1)] + (g.Row(k) + [0 as uint8])
  {
    var target := Grown(g);
    assert g.Row(k) + [0 as uint8] == target.Row(k + 1);
    assert (k + 1 + 1) * target.width == 5 * (k + 2);
    assert (k + 1) * target.width == 5 * (k + 1);
    RowsPrefix(target, k + 1);
  }

  /** The last five cells of the grown grid are the padding. */
  lemma GrownLastRow(g: Grid<uint8>)
    requires g.Valid() && g.width == 4 && g.height == 8
    ensures Grown(g).cells == Grown(g).cells[..45] + seq(5, _ => 0 as uint8)
  {
    var target := Grown(g);
    RowsPrefix(target, 9);
    assert target.Row(9) == seq(5, _ => 0 as uint8);
    assert target.cells[..50] == target.cells;
  }

  /** The outline pass, computed from a snapshot: a 0 with a positive count
      becomes 2, every other byte is kept. */
  ghost function Outlined(g: Grid<uint8>): (r: Grid<uint8>)
    requires g.Valid()
    ensures r.Valid() && r.width == g.width && r.height == g.height
  {
    Tabulate(g.width, g.height, (x: nat, y: nat) requires x < g.width && y < g.height =>
      if g.Cell(x, y) == 0 && Count(g, x, y) > 0 then 2 else g.Cell(x, y))
  }

  /** g1 and g2 have the same shape and the same cells equal to 1. */
  ghost predicate SameOnes(g1: Grid<uint8>, g2: Grid<uint8>)
  {
    && g1.Valid() && g2.Valid() && g1.width == g2.width && g1.height == g2.height
    && forall px: nat, py: nat :: px < g1.width && py < g1.height ==>
         (g1.Cell(px, py) == 1 <==> g2.Cell(px, py) == 1)
  }

  /** The count looks only at which cells are 1. */
  lemma CountDependsOnOnes(g1: Grid<uint8>, g2: Grid<uint8>, x: nat, y: nat)
    requires SameOnes(g1, g2)
    ensures Count(g1, x, y) == Count(g2, x, y)
  {
    LiveNeighborsAgree(g1, g2, 1, x, y);
    assert LiveExceptLeft(g1, x, y) == LiveExceptLeft(g2, x, y);
  }

  /** The outline step of `generate_sprite_bitmap`: a row-major sweep that
      rewrites bytes of the bitmap it is counting in. */
  method AddOutline(b: Bitmap)
    requires b.Valid()
    modifies b
    ensures b.Valid() && b.Model() == Outlined(old(b.Model()))
  {
    ghost var snapshot := b.Model();
    ghost var target := Outlined(snapshot);
    var y := 0;
    while y < b.height
      invariant 0 <= y <= b.height
      invariant b.Valid() && SameOnes(b.Model(), snapshot)
      invariant forall px: nat, py: nat :: px < b.width && py < b.height ==>
        b.Get(px, py) == if py < y then target.Cell(px, py) else snapshot.Cell(px, py)
    {
      var x := 0;
      while x < b.width
        invariant 0 <= x <= b.width
        invariant b.Valid() && SameOnes(b.Model(), snapshot)
        invariant forall px: nat, py: nat :: px < b.width && py < b.height ==>
          b.Get(px, py) == if py < y || (py == y && px < x) then target.Cell(px, py) else snapshot.Cell(px, py)
      {
        var cell := b.Get(x, y);
        var neighbors := CountNeighbors(b, x, y);
        CountDependsOnOnes(b.Model(), snapshot, x, y);
        if cell == 0 && neighbors > 0 {
          b.Set(x, y, 2);
        }
        x := x + 1;
      }
      y := y + 1;
    }
    Extensionality(b.Model(), target);
  }

  /** Every row of the 5x10 bitmap laid out as reverse(row) ++ row. */
  ghost function Mirrored(g: Grid<uint8>): (r: Grid<uint8>)
    requires g.Valid() && g.width == 5 && g.height == 10
    ensures r.Valid() && r.width == 10 && r.height == 10
  {
    Tabulate(10, 10, (x: nat, y: nat) requires x < 10 && y < 10 =>
      if x < 5 then g.Cell(4 - x, y) else g.Cell(x - 5, y))
  }

  /** The mirroring step of `generate_sprite_bitmap`: for each row of five
      bytes, append its reversal and then the row itself. */
  method Mirror(b: Bitmap) returns (mirrored: seq<uint8>)
    requires b.Valid() && b.width == 5 && b.height == 10
    ensures Grid(10, 10, mirrored) == Mirrored(b.Model())
  {
    ghost var target := Mirrored(b.Model());
    mirrored := [];
    var k := 0;
    while k < 10
      invariant 0 <= k <= 10
      invariant mirrored == target.cells[..10 * k]
    {
      var chunk := b.data[5 * k .. 5 * k + 5];
      assert chunk == b.Model().Row(k);
      var row := Reverse(chunk);
      row := row + chunk;
      MirroredRowStep(b.Model(), k);
      mirrored := mirrored + row;
      k := k + 1;
    }
    assert mirrored == target.cells;
  }

  /** Row k reversed and then row k itself is row k of the mirrored grid. */
  lemma MirroredRowStep(g: Grid<uint8>, k: nat)
    requires g.Valid() && g.width == 5 && g.height == 10 && k < 10
    ensures 10 * (k + 1) <= 100
    ensures Mirrored(g).cells[..10 * (k + 1)] == Mirrored(g).cells[..10 * k] + (Reverse(g.Row(k)) + g.Row(k))
  {
    var target := Mirrored(g);
    assert Reverse(g.Row(k)) + g.Row(k) == target.Row(k);
    assert (k + 1) * target.width == 10 * (k + 1);
    assert k * target.width == 10 * k;
    RowsPrefix(target, k);
  }

  /** The whole pipeline as a function of the 32 draws. */
  ghost function SpriteBitmap(draws: seq<nat>): (s: Grid<uint8>)
    requires |draws| == 32
    ensures s.Valid() && s.width == 10 && s.height == 10
  {
    Mirrored(Outlined(Grown(Evolved(Evolved(Seeded(4, 8, draws))))))
  }

  /** `generate_sprite_bitmap`, with the random draws passed in. */
  method GenerateSpriteBitmap(draws: seq<nat>) returns (sprite: Bitmap)
    requires |draws| == 32
    ensures sprite.Valid() && sprite.Model() == SpriteBitmap(draws)
    ensures sprite.width == 10 && sprite.height == 10 && |sprite.data| == 100
  {
    var bitmap := Bitmap.Generate(4, 8, draws);
    bitmap := Evolve(bitmap);
    bitmap := Evolve(bitmap);
    var newData := Grow(bitmap);
    bitmap := new Bitmap(5, 10, newData);
    AddOutline(bitmap);
    var mirrored := Mirror(bitmap);
    sprite := new Bitmap(10, 10, mirrored);
  }

  /** A byte evolves to 1 exactly when the rule keeps or brings it to life,
      and to 0 otherwise. */
  lemma EvolvedCell(g: Grid<uint8>, x: nat, y: nat)
    requires g.Valid() && x < g.width && y < g.height
    ensures Evolved(g).Cell(x, y) == 1 <==>
      (g.Cell(x, y) == 0 && Count(g, x, y) <= 1) ||
      (g.Cell(x, y) == 1 && (Count(g, x, y) == 2 || Count(g, x, y) == 3))
    ensures Evolved(g).Cell(x, y) != 1 ==> Evolved(g).Cell(x, y) == 0
  {
  }

  /** Evolution only produces the bytes 0 and 1. */
  lemma EvolvedBinary(g: Grid<uint8>)
    requires g.Valid()
    ensures AtMost(Evolved(g), 1)
  {
    var e := Evolved(g);
    forall i | 0 <= i < |e.cells|
      ensures e.cells[i] <= 1
    {
      CoordinatesOf(e.width, e.height, i);
      assert e.cells[i] == e.Cell(i % e.width, i / e.width);
    }
  }

  /** A live byte away from the left edge counts itself: its count is one
      more than its live upper, right and lower neighbours, and a live left
      neighbour adds nothing. */
  lemma CountIncludesSelf(g: Grid<uint8>, x: nat, y: nat)
    requires g.Valid() && 0 < x < g.width && y < g.height && g.Cell(x, y) == 1
    ensures Count(g, x, y) == 1 + Term(y > 0 && g.Cell(x, y - 1) == 1) +
      Term(x + 1 < g.width && g.Cell(x + 1, y) == 1) + Term(y + 1 < g.height && g.Cell(x, y + 1) == 1)
  {
    LiveExceptLeftByDirection(g, x, y);
  }

  /** The grown bitmap is padded with 0 on the top row, the bottom row and
      the right column, and holds the evolved bitmap one row down. */
  lemma GrownLayout(g: Grid<uint8>)
    requires g.Valid() && g.width == 4 && g.height == 8
    ensures |Grown(g).cells| == 50
    ensures forall x: nat :: x < 5 ==> Grown(g).Cell(x, 0) == 0 && Grown(g).Cell(x, 9) == 0
    ensures forall y: nat :: y < 10 ==> Grown(g).Cell(4, y) == 0
    ensures forall x: nat, y: nat :: x < 4 && y < 8 ==> Grown(g).Cell(x, y + 1) == g.Cell(x, y)
  {
  }

  /** The outline pass turns exactly the 0 bytes with a positive count into 2
      and keeps every other byte. */
  lemma OutlinedCell(g: Grid<uint8>, x: nat, y: nat)
    requires g.Valid() && x < g.width && y < g.height
    ensures Outlined(g).Cell(x, y) == 2 <==>
      g.Cell(x, y) == 2 || (g.Cell(x, y) == 0 && Count(g, x, y) > 0)
    ensures Outlined(g).Cell(x, y) == 1 <==> g.Cell(x, y) == 1
    ensures Outlined(g).Cell(x, y) != g.Cell(x, y) ==> g.Cell(x, y) == 0 && Outlined(g).Cell(x, y) == 2
  {
  }

  /** Because the first test of the count reads the byte itself, a 0 byte is
      outlined exactly when its upper, right or lower neighbour is 1: a live
      left neighbour alone leaves it 0. */
  lemma OutlineIgnoresLeftNeighbour(g: Grid<uint8>, x: nat, y: nat)
    requires g.Valid() && x < g.width && y < g.height && g.Cell(x, y) == 0
    ensures Outlined(g).Cell(x, y) == 2 <==>
      (y > 0 && g.Cell(x, y - 1) == 1) || (x + 1 < g.width && g.Cell(x + 1, y) == 1) ||
      (y + 1 < g.height && g.Cell(x, y + 1) == 1)
  {
    CountByDirection(g, x, y);
  }

  /** The outline pass keeps every 1, so it keeps every count: the bytes the
      sweep has already rewritten do not change the counts it still reads. */
  lemma OutlineKeepsCounts(g: Grid<uint8>, x: nat, y: nat)
    requires g.Valid() && x < g.width && y < g.height
    ensures Count(Outlined(g), x, y) == Count(g, x, y)
  {
    CountDependsOnOnes(Outlined(g), g, x, y);
  }

  /** Outlining an outlined bitmap changes nothing. */
  lemma OutlinedIdempotent(g: Grid<uint8>)
    requires g.Valid()
    ensures Outlined(Outlined(g)) == Outlined(g)
  {
    var o := Outlined(g);
    forall x: nat, y: nat | x < g.width && y < g.height
      ensures Outlined(o).Cell(x, y) == o.Cell(x, y)
    {
      OutlineKeepsCounts(g, x, y);
    }
    Extensionality(Outlined(o), o);
  }

  /** The mirrored bitmap is left-right symmetric about the seam between
      columns 4 and 5, and its right half is the bitmap it was made from. */
  lemma MirroredSymmetric(g: Grid<uint8>)
    requires g.Valid() && g.width == 5 && g.height == 10
    ensures |Mirrored(g).cells| == 100
    ensures forall x: nat, y: nat :: x < 10 && y < 10 ==> Mirrored(g).Cell(x, y) == Mirrored(g).Cell(9 - x, y)
    ensures forall x: nat, y: nat :: x < 5 && y < 10 ==> Mirrored(g).Cell(x + 5, y) == g.Cell(x, y)
  {
  }

  /** Every sprite bitmap is 10x10 and left-right symmetric. */
  lemma SpriteBitmapSymmetric(draws: seq<nat>)
    requires |draws| == 32
    ensures |SpriteBitmap(draws).cells| == 100
    ensures forall x: nat, y: nat :: x < 10 && y < 10 ==>
      SpriteBitmap(draws).Cell(x, y) == SpriteBitmap(draws).Cell(9 - x, y)
  {
    MirroredSymmetric(Outlined(Grown(Evolved(Evolved(Seeded(4, 8, draws))))));
  }

  /** A sprite bitmap holds only the codes 0, 1 and 2. */
  lemma SpriteBitmapCodes(draws: seq<nat>)
    requires |draws| == 32
    ensures AtMost(SpriteBitmap(draws), 2)
  {
    var evolved := Evolved(Evolved(Seeded(4, 8, draws)));
    var grown := Grown(evolved);
    var outlined := Outlined(grown);
    var sprite := SpriteBitmap(draws);
    forall x: nat, y: nat | x < 5 && y < 10
      ensures outlined.Cell(x, y) <= 2
    {
      if 0 < y < 9 && x < 4 {
        EvolvedCell(Evolved(Seeded(4, 8, draws)), x, y - 1);
      }
    }
    forall i | 0 <= i < |sprite.cells|
      ensures sprite.cells[i] <= 2
    {
      CoordinatesOf(10, 10, i);
      assert sprite.cells[i] == sprite.Cell(i % 10, i / 10);
    }
  }

  /** The padding keeps 1 off the sprite bitmap's frame: its top and bottom
      rows and its left and right columns hold only 0 or 2. */
  lemma SpriteBitmapFrameHasNoColor(draws: seq<nat>)
    requires |draws| == 32
    ensures forall x: nat :: x < 10 ==> SpriteBitmap(draws).Cell(x, 0) != 1 && SpriteBitmap(draws).Cell(x, 9) != 1
    ensures forall y: nat :: y < 10 ==> SpriteBitmap(draws).Cell(0, y) != 1 && SpriteBitmap(draws).Cell(9, y) != 1
  {
    var grown := Grown(Evolved(Evolved(Seeded(4, 8, draws))));
    var outlined := Outlined(grown);
    forall x: nat, y: nat | x < 5 && y < 10 && (y == 0 || y == 9 || x == 4)
      ensures outlined.Cell(x, y) != 1
    {
      OutlinedCell(grown, x, y);
    }
  }
}
