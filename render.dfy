/**
 * The frame renderer of mainproc: a black frame whose sides are the largest
 * multiples of three that fit the requested size, and one 3x3 block of
 * pixels per Life cell.
 */
module Render {

  newtype byte = x: int | 0 <= x < 256

  /** `color.RGBA{R, G, B, A}` */
  datatype Rgba = Rgba(r: byte, g: byte, b: byte, a: byte)

  /** Pixels per cell along each axis (`scale`). */
  const Scale: nat := 3

  const Black := Rgba(0, 0, 0, 255)
  const Blue := Rgba(0, 0, 255, 255)
  /** The dark red written at the centre of every block. */
  const Ember := Rgba(64, 0, 0, 255)

  /** `thiscolor`: blue for a live cell, black for a dead one. */
  function EdgeColor(alive: bool): (c: Rgba)
    ensures c == Blue <==> alive
    ensures c == Black <==> !alive
  {
    if alive then Blue else Black
  }

  /** The colour written at offset (dx, dy) of a cell's block, row by row as the nine `Set` calls write it. */
  function BlockPixel(alive: bool, dx: int, dy: int): (c: Rgba)
    requires 0 <= dx < Scale && 0 <= dy < Scale
    ensures c == Black || c == Ember || c == EdgeColor(alive)
    ensures c == Ember <==> dx == 1 && dy == 1
  {
    var edge := EdgeColor(alive);
    [[Black, edge, Black],
     [edge, Ember, edge],
     [Black, edge, Black]][dy][dx]
  }

  /** A frame side: `(grid / scale) * scale`. */
  function FrameSide(grid: nat): (n: nat)
    ensures n % Scale == 0 && n <= grid < n + Scale
  {
    (grid / Scale) * Scale
  }

  /** The block geometry: corners black, centre dark red, edge midpoints in the cell's colour. */
  lemma BlockPattern(alive: bool, dx: int, dy: int)
    requires 0 <= dx < Scale && 0 <= dy < Scale
    ensures dx != 1 && dy != 1 ==> BlockPixel(alive, dx, dy) == Black
    ensures dx == 1 && dy == 1 ==> BlockPixel(alive, dx, dy) == Ember
    ensures (dx == 1) != (dy == 1) ==> BlockPixel(alive, dx, dy) == EdgeColor(alive)
  {
  }

  /** A block pixel is blue exactly when it is one of the four edge midpoints of a live cell. */
  lemma BlueMarksLiveEdge(alive: bool, dx: int, dy: int)
    requires 0 <= dx < Scale && 0 <= dy < Scale
    ensures BlockPixel(alive, dx, dy) == Blue <==> alive && (dx - 1) * (dx - 1) + (dy - 1) * (dy - 1) == 1
  {
    BlockPattern(alive, dx, dy);
  }

  ghost predicate InBlock(x: int, y: int, px: int, py: int)
  {
    Scale * x <= px < Scale * x + Scale && Scale * y <= py < Scale * y + Scale
  }

  ghost predicate AllBlack(frame: array2<Rgba>)
    reads frame
  {
    forall px, py :: 0 <= px < frame.Length0 && 0 <= py < frame.Length1 ==> frame[px, py] == Black
  }

  /** Every pixel of `frame` is the block pixel of the cell it falls in. */
  ghost predicate Rendered(frame: array2<Rgba>, cells: array2<bool>)
    reads frame, cells
  {
    frame.Length0 == Scale * cells.Length0 && frame.Length1 == Scale * cells.Length1 &&
    forall px, py :: 0 <= px < frame.Length0 && 0 <= py < frame.Length1 ==>
      frame[px, py] == BlockPixel(cells[px / Scale, py / Scale], px % Scale, py % Scale)
  }

  /** `image.NewRGBA` of `sizex*scale` by `sizey*scale` pixels, then the loops that paint every pixel black. */
  method NewFrame(sizex: nat, sizey: nat) returns (frame: array2<Rgba>)
    ensures fresh(frame)
    ensures frame.Length0 == sizex * Scale && frame.Length1 == sizey * Scale
    ensures AllBlack(frame)
  {
    frame := new Rgba[sizex * Scale, sizey * Scale];
    var x := 0;
    while x < sizex * Scale
      invariant 0 <= x <= sizex * Scale
      invariant forall px, py :: 0 <= px < x && 0 <= py < frame.Length1 ==> frame[px, py] == Black
    {
      var y := 0;
      while y < sizey * Scale
        invariant 0 <= y <= sizey * Scale
        invariant forall px, py :: 0 <= px < x && 0 <= py < frame.Length1 ==> frame[px, py] == Black
        invariant forall py :: 0 <= py < y ==> frame[x, py] == Black
      {
        frame[x, y] := Black;
        y := y + 1;
      }
      x := x + 1;
    }
  }

  /** The nine `animage.Set` calls for cell (x, y): they write its block and no other pixel. */
  method DrawCell(frame: array2<Rgba>, x: nat, y: nat, alive: bool)
    requires Scale * x + Scale <= frame.Length0 && Scale * y + Scale <= frame.Length1
    modifies frame
    ensures forall px, py :: 0 <= px < frame.Length0 && 0 <= py < frame.Length1 ==>
      frame[px, py] == if InBlock(x, y, px, py) then BlockPixel(alive, px - Scale * x, py - Scale * y)
                       else old(frame[px, py])
  {
    var thiscolor := EdgeColor(alive);
    var ox, oy := x * Scale, y * Scale;
    frame[ox + 0, oy + 0] := Black;
    frame[ox + 1, oy + 0] := thiscolor;
    frame[ox + 2, oy + 0] := Black;
    frame[ox + 0, oy + 1] := thiscolor;
    frame[ox + 1, oy + 1] := Ember;
    frame[ox + 2, oy + 1] := thiscolor;
    frame[ox + 0, oy + 2] := Black;
    frame[ox + 1, oy + 2] := thiscolor;
    frame[ox + 2, oy + 2] := Black;
  }

  /** The cell loops of one generation: every block is drawn from the cell it stands for. */
  method DrawGrid(frame: array2<Rgba>, cells: array2<bool>)
    requires frame.Length0 == Scale * cells.Length0 && frame.Length1 == Scale * cells.Length1
    modifies frame
    ensures Rendered(frame, cells)
  {
    var sizex, sizey := cells.Length0, cells.Length1;
    var x := 0;
    while x < sizex
      invariant 0 <= x <= sizex
      invariant forall px, py :: 0 <= px < Scale * x && 0 <= py < frame.Length1 ==>
        frame[px, py] == BlockPixel(cells[px / Scale, py / Scale], px % Scale, py % Scale)
    {
      var y := 0;
      while y < sizey
        invariant 0 <= y <= sizey
        invariant forall px, py :: 0 <= px < Scale * x && 0 <= py < frame.Length1 ==>
          frame[px, py] == BlockPixel(cells[px / Scale, py / Scale], px % Scale, py % Scale)
        invariant forall px, py :: Scale * x <= px < Scale * x + Scale && 0 <= py < Scale * y ==>
          frame[px, py] == BlockPixel(cells[px / Scale, py / Scale], px % Scale, py % Scale)
      {
        DrawCell(frame, x, y, cells[x, y]);
        y := y + 1;
      }
      x := x + 1;
    }
  }

  /** A rendered frame shows each cell's state at the top midpoint of its block, and the fixed pixels around it. */
  lemma ReadBack(frame: array2<Rgba>, cells: array2<bool>, x: nat, y: nat)
    requires Rendered(frame, cells)
    requires x < cells.Length0 && y < cells.Length1
    ensures frame[Scale * x + 1, Scale * y] == Blue <==> cells[x, y]
    ensures frame[Scale * x + 1, Scale * y + 1] == Ember
    ensures frame[Scale * x, Scale * y] == Black && frame[Scale * x + 2, Scale * y + 2] == Black
  {
    var px, py := Scale * x, Scale * y;
    assert (px + 1) / Scale == x && (px + 1) % Scale == 1;
    assert (px + 2) / Scale == x && (px + 2) % Scale == 2;
    assert px / Scale == x && px % Scale == 0;
    assert (py + 1) / Scale == y && (py + 1) % Scale == 1;
    assert (py + 2) / Scale == y && (py + 2) % Scale == 2;
    assert py / Scale == y && py % Scale == 0;
  }
}
