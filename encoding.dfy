/** The correspondence between the two pipelines: a pixel type is coded as
    the byte 0 (Background), 1 (Color) or 2 (Outline), as the comment in
    bitmap.rs:73-74 lays out.  Under this coding the seeding, growing and
    mirroring stages agree, and the neighbour counts differ exactly by the
    left-neighbour test of bitmap.rs:34. */
module Encoding {
  import opened Grids
  import PixelMaps
  import Bitmaps

  type PixelType = PixelMaps.PixelType
  type uint8 = Bitmaps.uint8

  /** The byte code of a pixel type. */
  function Encode(p: PixelType): (b: uint8)
    ensures b <= 2
    ensures b == 1 <==> p == PixelMaps.Color
  {
    match p
    case Background => 0
    case Color => 1
    case Outline => 2
  }

  /** The pixel type of a byte code; bytes above 2 have none. */
  function Decode(b: uint8): (r: PixelMaps.Option<PixelType>)
    ensures r.Some? <==> b <= 2
  {
    if b == 0 then PixelMaps.Some(PixelMaps.Background)
    else if b == 1 then PixelMaps.Some(PixelMaps.Color)
    else if b == 2 then PixelMaps.Some(PixelMaps.Outline)
    else PixelMaps.None
  }

  /** Decoding inverts encoding, in both directions. */
  lemma DecodeEncode(p: PixelType, b: uint8)
    ensures Decode(Encode(p)) == PixelMaps.Some(p)
    ensures Decode(b) == PixelMaps.Some(p) ==> Encode(p) == b
  {
  }

  /** A pixel map coded byte by byte. */
  function EncodeGrid(g: Grid<PixelType>): (e: Grid<uint8>)
    ensures e.width == g.width && e.height == g.height && |e.cells| == |g.cells|
    ensures forall i :: 0 <= i < |g.cells| ==> e.cells[i] == Encode(g.cells[i])
  {
    Grid(g.width, g.height, seq(|g.cells|, i requires 0 <= i < |g.cells| => Encode(g.cells[i])))
  }

  /** Coding commutes with reading a cell. */
  lemma EncodeGridCell(g: Grid<PixelType>, x: nat, y: nat)
    requires g.Valid() && x < g.width && y < g.height
    ensures EncodeGrid(g).Valid()
    ensures EncodeGrid(g).Cell(x, y) == Encode(g.Cell(x, y))
  {
    IndexInBounds(g.width, g.height, x, y);
  }

  /** Coding every cell of `g` gives `b`. */
  ghost predicate Codes(g: Grid<PixelType>, b: Grid<uint8>)
  {
    b == EncodeGrid(g)
  }

  /** Two grids with the same cells under the coding are the coded grid. */
  lemma CodesByCells(g: Grid<PixelType>, b: Grid<uint8>)
    requires g.Valid() && b.Valid() && g.width == b.width && g.height == b.height
    requires forall x: nat, y: nat :: x < g.width && y < g.height ==> b.Cell(x, y) == Encode(g.Cell(x, y))
    ensures Codes(g, b)
  {
    var e := EncodeGrid(g);
    forall x: nat, y: nat | x < g.width && y < g.height
      ensures e.Cell(x, y) == b.Cell(x, y)
    {
      EncodeGridCell(g, x, y);
    }
    Extensionality(e, b);
  }

  /** Both generators seed the same picture from the same draws. */
  lemma SeededAgree(width: nat, height: nat, draws: seq<nat>)
    requires |draws| == width * height
    ensures Codes(PixelMaps.Seeded(width, height, draws), Bitmaps.Seeded(width, height, draws))
  {
  }

  /** The two neighbour counts, related exactly: the byte count replaces the
      left neighbour's test by a test of the cell itself. */
  lemma CountsRelated(g: Grid<PixelType>, x: nat, y: nat)
    requires g.Valid() && x < g.width && y < g.height
    ensures Bitmaps.Count(EncodeGrid(g), x, y) + Term(x > 0 && g.Cell(x - 1, y) == PixelMaps.Color) ==
      PixelMaps.Count(g, x, y) + Term(x > 0 && g.Cell(x, y) == PixelMaps.Color)
  {
    var e := EncodeGrid(g);
    Bitmaps.CountByDirection(e, x, y);
    LiveNeighborsByDirection(g, PixelMaps.Color, x, y);
    EncodeGridCell(g, x, y);
    if x > 0 { EncodeGridCell(g, x - 1, y); }
    if y > 0 { EncodeGridCell(g, x, y - 1); }
    if x + 1 < g.width { EncodeGridCell(g, x + 1, y); }
    if y + 1 < g.height { EncodeGridCell(g, x, y + 1); }
  }

  /** The counts agree wherever the cell and its left neighbour are both
      Color or both not Color, in particular on the left edge. */
  lemma CountsAgree(g: Grid<PixelType>, x: nat, y: nat)
    requires g.Valid() && x < g.width && y < g.height
    requires x == 0 || (g.Cell(x - 1, y) == PixelMaps.Color <==> g.Cell(x, y) == PixelMaps.Color)
    ensures Bitmaps.Count(EncodeGrid(g), x, y) == PixelMaps.Count(g, x, y)
  {
    CountsRelated(g, x, y);
  }

  /** Where the counts agree, so does one evolution step. */
  lemma EvolvedAgree(g: Grid<PixelType>, x: nat, y: nat)
    requires g.Valid() && x < g.width && y < g.height
    requires x == 0 || (g.Cell(x - 1, y) == PixelMaps.Color <==> g.Cell(x, y) == PixelMaps.Color)
    ensures Bitmaps.Evolved(EncodeGrid(g)).Cell(x, y) == Encode(PixelMaps.Evolved(g).Cell(x, y))
  {
    CountsAgree(g, x, y);
    EncodeGridCell(g, x, y);
  }

  /** The outline passes agree on every cell that is not a Background cell
      with a Color left neighbour. */
  lemma OutlinedAgree(g: Grid<PixelType>, x: nat, y: nat)
    requires g.Valid() && x < g.width && y < g.height
    requires x == 0 || g.Cell(x, y) != PixelMaps.Background || g.Cell(x - 1, y) != PixelMaps.Color
    ensures Bitmaps.Outlined(EncodeGrid(g)).Cell(x, y) == Encode(PixelMaps.Outlined(g).Cell(x, y))
  {
    CountsRelated(g, x, y);
    EncodeGridCell(g, x, y);
  }

  /** Growing commutes with the coding. */
  lemma GrownAgree(g: Grid<PixelType>)
    requires g.Valid() && g.width == 4 && g.height == 8
    ensures Codes(PixelMaps.Grown(g), Bitmaps.Grown(EncodeGrid(g)))
  {
    var e := EncodeGrid(g);
    forall x: nat, y: nat | x < 5 && y < 10
      ensures Bitmaps.Grown(e).Cell(x, y) == Encode(PixelMaps.Grown(g).Cell(x, y))
    {
      if !(y == 0 || y == 9 || x == 4) {
        EncodeGridCell(g, x, y - 1);
      }
    }
    CodesByCells(PixelMaps.Grown(g), Bitmaps.Grown(e));
  }

  /** Mirroring commutes with the coding. */
  lemma MirroredAgree(g: Grid<PixelType>)
    requires g.Valid() && g.width == 5 && g.height == 10
    ensures Codes(PixelMaps.Mirrored(g), Bitmaps.Mirrored(EncodeGrid(g)))
  {
    var e := EncodeGrid(g);
    forall x: nat, y: nat | x < 10 && y < 10
      ensures Bitmaps.Mirrored(e).Cell(x, y) == Encode(PixelMaps.Mirrored(g).Cell(x, y))
    {
      if x < 5 {
        EncodeGridCell(g, 4 - x, y);
      } else {
        EncodeGridCell(g, x - 5, y);
      }
    }
    CodesByCells(PixelMaps.Mirrored(g), Bitmaps.Mirrored(e));
  }

  /** A Color cell followed by a Background cell on one row. */
  const ColorThenBackground: Grid<PixelType> := Grid(2, 1, [PixelMaps.Color, PixelMaps.Background])

  /** The byte count misses the live left neighbour of cell (1, 0): the
      pixel-map outline marks it, the byte outline leaves it 0. */
  lemma OutlineMissesLeftNeighbour()
    ensures PixelMaps.Outlined(ColorThenBackground).Cell(1, 0) == PixelMaps.Outline
    ensures Bitmaps.Outlined(EncodeGrid(ColorThenBackground)).Cell(1, 0) == 0
  {
    var g := ColorThenBackground;
    LiveNeighborsByDirection(g, PixelMaps.Color, 1, 0);
    EncodeGridCell(g, 1, 0);
    EncodeGridCell(g, 0, 0);
    Bitmaps.CountByDirection(EncodeGrid(g), 1, 0);
  }

  /** A Background cell between two Color cells on one row. */
  const ColorGapColor: Grid<PixelType> :=
    Grid(3, 1, [PixelMaps.Color, PixelMaps.Background, PixelMaps.Color])

  /** The middle cell has two live neighbours and stays empty in the
      pixel-map evolution; the byte count sees only one and brings it to
      life. */
  lemma EvolveMissesLeftNeighbour()
    ensures PixelMaps.Evolved(ColorGapColor).Cell(1, 0) == PixelMaps.Background
    ensures Bitmaps.Evolved(EncodeGrid(ColorGapColor)).Cell(1, 0) == 1
  {
    var g := ColorGapColor;
    LiveNeighborsByDirection(g, PixelMaps.Color, 1, 0);
    EncodeGridCell(g, 0, 0);
    EncodeGridCell(g, 1, 0);
    EncodeGridCell(g, 2, 0);
    Bitmaps.CountByDirection(EncodeGrid(g), 1, 0);
  }
}
