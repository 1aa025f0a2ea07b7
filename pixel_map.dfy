/** The sprite pipeline of src/pixel_map.rs, the version the program runs:
    seed a 4x8 grid from random choices, evolve it twice with a
    neighbour-counting automaton, grow it to 5x10 with padding on the top,
    right and bottom, mark an outline band in place, and mirror every row into
    reverse(row) ++ row to get a 10x10 sprite.  The random choices are an
    input, so every stage is a deterministic function of them. */
module PixelMaps {
  import opened Grids

  /** The three states of a sprite cell. */
  datatype PixelType = Background | Color | Outline

  datatype Option<T> = None | Some(value: T)

  /** `SliceRandom::choose`: nothing from an empty slice, otherwise the
      element at the uniformly drawn index; the draw is passed in. */
  function Choose(options: seq<PixelType>, draw: nat): (r: Option<PixelType>)
    ensures r.Some? <==> |options| > 0
    ensures r.Some? ==> r.value in options
  {
    if |options| == 0 then None else Some(options[draw % |options|])
  }

  /** The seed grid for a sequence of draws: an even draw picks Background,
      an odd one Color. */
  ghost function Seeded(width: nat, height: nat, draws: seq<nat>): (g: Grid<PixelType>)
    requires |draws| == width * height
    ensures g.Valid() && g.width == width && g.height == height
  {
    Grid(width, height, seq(width * height, i requires 0 <= i < width * height =>
      if draws[i] % 2 == 0 then Background else Color))
  }

  /** No cell of `g` is Outline. */
  ghost predicate NoOutline(g: Grid<PixelType>)
  {
    forall i :: 0 <= i < |g.cells| ==> g.cells[i] != Outline
  }

  /** A pixel map: its width, its height and its cells in row-major order. */
  class PixelMap {
    const width: nat
    const height: nat
    var data: seq<PixelType>

    ghost predicate Valid()
      reads this
    {
      |data| == width * height
    }

    /** The grid this pixel map holds. */
    function Model(): Grid<PixelType>
      reads this
    {
      Grid(width, height, data)
    }

    /** The struct literal `PixelMap { width, height, data }`. */
    constructor (width: nat, height: nat, data: seq<PixelType>)
      requires |data| == width * height
      ensures Valid() && Model() == Grid(width, height, data)
    {
      this.width := width;
      this.height := height;
      this.data := data;
    }

    /** `PixelMap::generate`: overwrite every cell of an all-Background grid
        with a random choice between Background and Color. */
    static method Generate(width: nat, height: nat, draws: seq<nat>) returns (m: PixelMap)
      requires |draws| == width * height
      ensures m.Valid() && m.Model() == Seeded(width, height, draws)
      ensures NoOutline(m.Model())
    {
      var data := seq(width * height, _ => Background);
      var i := 0;
      while i < |data|
        invariant 0 <= i <= |data| == width * height
        invariant forall k :: 0 <= k < i ==> data[k] == Seeded(width, height, draws).cells[k]
      {
        data := data[i := match Choose([Background, Color], draws[i])
          case Some(p) => p
          case None => Background];
        i := i + 1;
      }
      m := new PixelMap(width, height, data);
    }

    /** `get`: the cell at (x, y). */
    function Get(x: nat, y: nat): (p: PixelType)
      reads this
      requires Valid() && x < width && y < height
      ensures p == Model().Cell(x, y)
    {
      IndexInBounds(width, height, x, y);
      data[Index(width, x, y)]
    }

    /** `get_mut(x, y)` followed by a write of `p` through the reference:
        only cell (x, y) changes. */
    method Set(x: nat, y: nat, p: PixelType)
      requires Valid() && x < width && y < height
      modifies this
      ensures Valid() && Model() == old(Model()).Update(x, y, p)
    {
      IndexInBounds(width, height, x, y);
      data := data[Index(width, x, y) := p];
    }
  }

  /** The number of live (Color) orthogonal neighbours of (x, y), counting
      only neighbours on the grid. */
  ghost function Count(g: Grid<PixelType>, x: nat, y: nat): nat
    requires g.Valid()
  {
    |LiveNeighbors(g, Color, x, y)|
  }

  /** `count_neighbors`: a counter bumped once per live neighbour, testing
      left, up, right and down. */
  method CountNeighbors(state: PixelMap, x: nat, y: nat) returns (count: nat)
    requires state.Valid() && x < state.width && y < state.height
    ensures count == Count(state.Model(), x, y)
    ensures count <= 4
  {
    count := 0;
    if x > 0 && state.Get(x - 1, y) == Color {
      count := count + 1;
    }
    if y > 0 && state.Get(x, y - 1) == Color {
      count := count + 1;
    }
    if x < state.width - 1 && state.Get(x + 1, y) == Color {
      count := count + 1;
    }
    if y < state.height - 1 && state.Get(x, y + 1) == Color {
      count := count + 1;
    }
    LiveNeighborsByDirection(state.Model(), Color, x, y);
  }

  /** The automaton rule, case by case: an empty cell fills when at most one
      neighbour is live, a filled cell survives with two or three. */
  function Rule(cell: PixelType, neighbors: nat): PixelType
  {
    match cell
    case Background => if neighbors <= 1 then Color else Background
    case Color => if neighbors == 2 || neighbors == 3 then Color else Background
    case Outline => Background
  }

  /** One evolution pass, every cell computed from the old grid. */
  ghost function Evolved(g: Grid<PixelType>): (e: Grid<PixelType>)
    requires g.Valid()
    ensures e.Valid() && e.width == g.width && e.height == g.height
  {
    Tabulate(g.width, g.height, (x: nat, y: nat) requires x < g.width && y < g.height =>
      Rule(g.Cell(x, y), Count(g, x, y)))
  }

  /** `evolve`: clone the grid, then write every cell of the clone from the
      cell and neighbour count of the original. */
  method Evolve(state: PixelMap) returns (evolved: PixelMap)
    requires state.Valid()
    ensures evolved.Valid() && evolved.Model() == Evolved(state.Model())
  {
    evolved := new PixelMap(state.width, state.height, state.data);
    ghost var target := Evolved(state.Model());
    var y := 0;
    while y < state.height
      invariant 0 <= y <= state.height
      invariant evolved.Valid() && evolved.width == state.width && evolved.height == state.height
      invariant forall px: nat, py: nat :: px < state.width && py < y ==>
        evolved.Get(px, py) == target.Cell(px, py)
    {
      var x := 0;
      while x < state.width
        invariant 0 <= x <= state.width
        invariant evolved.Valid() && evolved.width == state.width && evolved.height == state.height
        invariant forall px: nat, py: nat :: px < state.width && (py < y || (py == y && px < x)) ==>
          evolved.Get(px, py) == target.Cell(px, py)
      {
        var cell := state.Get(x, y);
        var neighbors := CountNeighbors(state, x, y);
        evolved.Set(x, y,
          if (cell == Background && neighbors <= 1) || (cell == Color && (neighbors == 2 || neighbors == 3))
          then Color else Background);
        x := x + 1;
      }
      y := y + 1;
    }
    Extensionality(evolved.Model(), target);
  }

  /** The 4x8 grid grown to 5x10: an empty row on top and at the bottom and
      an empty column on the right; the left edge is the mirror seam. */
  ghost function Grown(g: Grid<PixelType>): (r: Grid<PixelType>)
    requires g.Valid() && g.width == 4 && g.height == 8
    ensures r.Valid() && r.width == 5 && r.height == 10
  {
    Tabulate(5, 10, (x: nat, y: nat) requires x < 5 && y < 10 =>
      if y == 0 || y == 9 || x == 4 then Background else g.Cell(x, y - 1))
  }

  /** The growth step of `generate_sprite_map`: a Background row, then each
      row of four cells followed by a Background cell, then a Background row. */
  method Grow(m: PixelMap) returns (newData: seq<PixelType>)
    requires m.Valid() && m.width == 4 && m.height == 8
    ensures Grid(5, 10, newData) == Grown(m.Model())
  {
    ghost var target := Grown(m.Model());
    newData := seq(5, _ => Background);
    GrownFirstRow(m.Model());
    var k := 0;
    while k < 8
      invariant 0 <= k <= 8
      invariant newData == target.cells[..5 * (k + 1)]
    {
      var row := m.data[4 * k .. 4 * k + 4];
      assert row == m.Model().Row(k);
      row := row + [Background];
      GrownRowStep(m.Model(), k);
      newData := newData + row;
      k := k + 1;
    }
    GrownLastRow(m.Model());
    newData := newData + seq(5, _ => Background);
  }

  /** The first five cells of the grown grid are the padding. */
  lemma GrownFirstRow(g: Grid<PixelType>)
    requires g.Valid() && g.width == 4 && g.height == 8
    ensures Grown(g).cells[..5] == seq(5, _ => Background)
  {
    var target := Grown(g);
    RowsPrefix(target, 0);
    assert target.Row(0) == seq(5, _ => Background);
  }

  /** Row k followed by the padding is row k + 1 of the grown grid. */
  lemma GrownRowStep(g: Grid<PixelType>, k: nat)
    requires g.Valid() && g.width == 4 && g.height == 8 && k < 8
    ensures 5 * (k + 2) <= 50
    ensures Grown(g).cells[..5 * (k + 2)] == Grown(g).cells[..5 * (k + 1)] + (g.Row(k) + [Background])
  {
    var target := Grown(g);
    assert g.Row(k) + [Background] == target.Row(k + 1);
    assert (k + 1 + 1) * target.width == 5 * (k + 2);
    assert (k + 1) * target.width == 5 * (k + 1);
    RowsPrefix(target, k + 1);
  }

  /** The last five cells of the grown grid are the padding. */
  lemma GrownLastRow(g: Grid<PixelType>)
    requires g.Valid() && g.width == 4 && g.height == 8
    ensures Grown(g).cells == Grown(g).cells[..45] + seq(5, _ => Background)
  {
    var target := Grown(g);
    RowsPrefix(target, 9);
    assert target.Row(9) == seq(5, _ => Background);
    assert target.cells[..50] == target.cells;
  }

  /** The outline pass, computed from a snapshot: an empty cell with a live
      neighbour becomes Outline, every other cell is kept. */
  ghost function Outlined(g: Grid<PixelType>): (r: Grid<PixelType>)
    requires g.Valid()
    ensures r.Valid() && r.width == g.width && r.height == g.height
  {
    Tabulate(g.width, g.height, (x: nat, y: nat) requires x < g.width && y < g.height =>
      if g.Cell(x, y) == Background && Count(g, x, y) > 0 then Outline else g.Cell(x, y))
  }

  /** g1 and g2 have the same shape and the same Color cells. */
  ghost predicate SameColorCells(g1: Grid<PixelType>, g2: Grid<PixelType>)
  {
    && g1.Valid() && g2.Valid() && g1.width == g2.width && g1.height == g2.height
    && forall px: nat, py: nat :: px < g1.width && py < g1.height ==>
         (g1.Cell(px, py) == Color <==> g2.Cell(px, py) == Color)
  }

  /** The outline step of `generate_sprite_map`: a row-major sweep that
      rewrites cells of the grid it is counting in. */
  method AddOutline(m: PixelMap)
    requires m.Valid()
    modifies m
    ensures m.Valid() && m.Model() == Outlined(old(m.Model()))
  {
    ghost var snapshot := m.Model();
    ghost var target := Outlined(snapshot);
    var y := 0;
    while y < m.height
      invariant 0 <= y <= m.height
      invariant m.Valid() && SameColorCells(m.Model(), snapshot)
      invariant forall px: nat, py: nat :: px < m.width && py < m.height ==>
        m.Get(px, py) == if py < y then target.Cell(px, py) else snapshot.Cell(px, py)
    {
      var x := 0;
      while x < m.width
        invariant 0 <= x <= m.width
        invariant m.Valid() && SameColorCells(m.Model(), snapshot)
        invariant forall px: nat, py: nat :: px < m.width && py < m.height ==>
          m.Get(px, py) == if py < y || (py == y && px < x) then target.Cell(px, py) else snapshot.Cell(px, py)
      {
        var cell := m.Get(x, y);
        var neighbors := CountNeighbors(m, x, y);
        LiveNeighborsAgree(m.Model(), snapshot, Color, x, y);
        if cell == Background && neighbors > 0 {
          m.Set(x, y, Outline);
        }
        x := x + 1;
      }
      y := y + 1;
    }
    Extensionality(m.Model(), target);
  }

  /** Every row of the 5x10 grid laid out as reverse(row) ++ row. */
  ghost function Mirrored(g: Grid<PixelType>): (r: Grid<PixelType>)
    requires g.Valid() && g.width == 5 && g.height == 10
    ensures r.Valid() && r.width == 10 && r.height == 10
  {
    Tabulate(10, 10, (x: nat, y: nat) requires x < 10 && y < 10 =>
      if x < 5 then g.Cell(4 - x, y) else g.Cell(x - 5, y))
  }

  /** The mirroring step of `generate_sprite_map`: for each row of five
      cells, append its reversal and then the row itself. */
  method Mirror(m: PixelMap) returns (mirrored: seq<PixelType>)
    requires m.Valid() && m.width == 5 && m.height == 10
    ensures Grid(10, 10, mirrored) == Mirrored(m.Model())
  {
    ghost var target := Mirrored(m.Model());
    mirrored := [];
    var k := 0;
    while k < 10
      invariant 0 <= k <= 10
      invariant mirrored == target.cells[..10 * k]
    {
      var chunk := m.data[5 * k .. 5 * k + 5];
      assert chunk == m.Model().Row(k);
      var row := Reverse(chunk);
      row := row + chunk;
      MirroredRowStep(m.Model(), k);
      mirrored := mirrored + row;
      k := k + 1;
    }
    assert mirrored == target.cells;
  }

  /** Row k reversed and then row k itself is row k of the mirrored grid. */
  lemma MirroredRowStep(g: Grid<PixelType>, k: nat)
    requires g.Valid() && g.width == 5 && g.height == 10 && k < 10
    ensures 10 * (k + 1) <= 100
    ensures Mirrored(g).cells[..10 * (k + 1)] == Mirrored(g).cells[..10 * k] + (Reverse(g.Row(k)) + g.Row(k))
  {
    var target := Mirrored(g);
    assert Reverse(g.Row(k)) + g.Row(k) == target.Row(k);
    assert (k + 1) * target.width == 10 * (k + 1);
    assert k * target.width == 10 * k;
    RowsPrefix(target, k);
  }

  /** The whole pipeline as a function of the 32 draws. */
  ghost function Sprite(draws: seq<nat>): (s: Grid<PixelType>)
    requires |draws| == 32
    ensures s.Valid() && s.width == 10 && s.height == 10
  {
    Mirrored(Outlined(Grown(Evolved(Evolved(Seeded(4, 8, draws))))))
  }

  /** `generate_sprite_map`, with the random draws passed in. */
  method GenerateSpriteMap(draws: seq<nat>) returns (sprite: PixelMap)
    requires |draws| == 32
    ensures sprite.Valid() && sprite.Model() == Sprite(draws)
    ensures sprite.width == 10 && sprite.height == 10 && |sprite.data| == 100
  {
    var pixelMap := PixelMap.Generate(4, 8, draws);
    pixelMap := Evolve(pixelMap);
    pixelMap := Evolve(pixelMap);
    var newData := Grow(pixelMap);
    pixelMap := new PixelMap(5, 10, newData);
    AddOutline(pixelMap);
    var mirrored := Mirror(pixelMap);
    sprite := new PixelMap(10, 10, mirrored);
  }

  // Properties of the stages

  /** A cell after evolution is Color exactly when it was Background with at
      most one live neighbour or Color with two or three; otherwise it is
      Background, never Outline. */
  lemma EvolvedCell(g: Grid<PixelType>, x: nat, y: nat)
    requires g.Valid() && x < g.width && y < g.height
    ensures Evolved(g).Cell(x, y) == Color <==>
      (g.Cell(x, y) == Background && Count(g, x, y) <= 1) ||
      (g.Cell(x, y) == Color && (Count(g, x, y) == 2 || Count(g, x, y) == 3))
    ensures Evolved(g).Cell(x, y) != Color ==> Evolved(g).Cell(x, y) == Background
  {
  }

  /** Evolution never produces an Outline cell. */
  lemma EvolvedNoOutline(g: Grid<PixelType>)
    requires g.Valid()
    ensures NoOutline(Evolved(g))
  {
    var e := Evolved(g);
    forall i | 0 <= i < |e.cells|
      ensures e.cells[i] != Outline
    {
      CoordinatesOf(e.width, e.height, i);
      assert e.cells[i] == e.Cell(i % e.width, i / e.width);
    }
  }

  /** An all-Background grid evolves to an all-Color grid: no cell has a
      live neighbour. */
  lemma AllBackgroundEvolvesToColor(g: Grid<PixelType>)
    requires g.Valid()
    requires forall x: nat, y: nat :: x < g.width && y < g.height ==> g.Cell(x, y) == Background
    ensures forall x: nat, y: nat :: x < g.width && y < g.height ==> Evolved(g).Cell(x, y) == Color
  {
    forall x: nat, y: nat | x < g.width && y < g.height
      ensures Evolved(g).Cell(x, y) == Color
    {
      LiveNeighborsByDirection(g, Color, x, y);
      assert g.Cell(x, y) == Background;
    }
  }

  /** A 2x2 all-Color grid is a fixed point of evolution: every cell is a
      corner with two live neighbours. */
  lemma TwoByTwoColorIsStable()
    ensures Evolved(Grid(2, 2, [Color, Color, Color, Color])) == Grid(2, 2, [Color, Color, Color, Color])
  {
    var g := Grid(2, 2, [Color, Color, Color, Color]);
    forall x: nat, y: nat | x < 2 && y < 2
      ensures Evolved(g).Cell(x, y) == g.Cell(x, y)
    {
      LiveNeighborsByDirection(g, Color, x, y);
    }
    Extensionality(Evolved(g), g);
  }

  /** The grown grid is padded with Background on the top row, the bottom row
      and the right column, and holds the evolved grid one row down. */
  lemma GrownLayout(g: Grid<PixelType>)
    requires g.Valid() && g.width == 4 && g.height == 8
    ensures |Grown(g).cells| == 50
    ensures forall x: nat :: x < 5 ==> Grown(g).Cell(x, 0) == Background && Grown(g).Cell(x, 9) == Background
    ensures forall y: nat :: y < 10 ==> Grown(g).Cell(4, y) == Background
    ensures forall x: nat, y: nat :: x < 4 && y < 8 ==> Grown(g).Cell(x, y + 1) == g.Cell(x, y)
  {
  }

  /** The outline pass turns exactly the Background cells with a live
      neighbour into Outline and keeps every other cell. */
  lemma OutlinedCell(g: Grid<PixelType>, x: nat, y: nat)
    requires g.Valid() && x < g.width && y < g.height
    ensures Outlined(g).Cell(x, y) == Outline <==>
      g.Cell(x, y) == Outline || (g.Cell(x, y) == Background && Count(g, x, y) > 0)
    ensures Outlined(g).Cell(x, y) == Color <==> g.Cell(x, y) == Color
    ensures Outlined(g).Cell(x, y) != g.Cell(x, y) ==> g.Cell(x, y) == Background && Outlined(g).Cell(x, y) == Outline
  {
  }

  /** The outline pass keeps every Color cell, so it keeps every neighbour
      count: the cells it has already rewritten do not change the counts it
      still reads, and the in-place sweep agrees with the snapshot rule. */
  lemma OutlineKeepsCounts(g: Grid<PixelType>, x: nat, y: nat)
    requires g.Valid() && x < g.width && y < g.height
    ensures Count(Outlined(g), x, y) == Count(g, x, y)
  {
    LiveNeighborsAgree(Outlined(g), g, Color, x, y);
  }

  /** Outlining an outlined grid changes nothing. */
  lemma OutlinedIdempotent(g: Grid<PixelType>)
    requires g.Valid()
    ensures Outlined(Outlined(g)) == Outlined(g)
  {
    var o := Outlined(g);
    forall x: nat, y: nat | x < g.width && y < g.height
      ensures Outlined(o).Cell(x, y) == o.Cell(x, y)
    {
      OutlineKeepsCounts(g, x, y);
    }
    Extensionality(Outlined(o), o);
  }

  /** The mirrored grid is left-right symmetric about the seam between
      columns 4 and 5, and its right half is the grid it was made from. */
  lemma MirroredSymmetric(g: Grid<PixelType>)
    requires g.Valid() && g.width == 5 && g.height == 10
    ensures |Mirrored(g).cells| == 100
    ensures forall x: nat, y: nat :: x < 10 && y < 10 ==> Mirrored(g).Cell(x, y) == Mirrored(g).Cell(9 - x, y)
    ensures forall x: nat, y: nat :: x < 5 && y < 10 ==> Mirrored(g).Cell(x + 5, y) == g.Cell(x, y)
  {
  }

  /** Every sprite is 10x10 and left-right symmetric. */
  lemma SpriteSymmetric(draws: seq<nat>)
    requires |draws| == 32
    ensures |Sprite(draws).cells| == 100
    ensures forall x: nat, y: nat :: x < 10 && y < 10 ==> Sprite(draws).Cell(x, y) == Sprite(draws).Cell(9 - x, y)
  {
    MirroredSymmetric(Outlined(Grown(Evolved(Evolved(Seeded(4, 8, draws))))));
  }

  /** The padding keeps Color off the sprite's frame: its top and bottom rows
      and its left and right columns hold only Background or Outline. */
  lemma SpriteFrameHasNoColor(draws: seq<nat>)
    requires |draws| == 32
    ensures forall x: nat :: x < 10 ==> Sprite(draws).Cell(x, 0) != Color && Sprite(draws).Cell(x, 9) != Color
    ensures forall y: nat :: y < 10 ==> Sprite(draws).Cell(0, y) != Color && Sprite(draws).Cell(9, y) != Color
  {
    var grown := Grown(Evolved(Evolved(Seeded(4, 8, draws))));
    var outlined := Outlined(grown);
    forall x: nat, y: nat | x < 5 && y < 10 && (y == 0 || y == 9 || x == 4)
      ensures outlined.Cell(x, y) != Color
    {
      OutlinedCell(grown, x, y);
    }
  }
}
