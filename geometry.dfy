/** Values the pixel editor works with: grid positions, colours, the cells of
    the committed canvas, the active tool, the brush footprint and the mapping
    from a pointer offset to a grid cell. */
module Geometry {

  /** A grid position; x is the column, y the row. */
  datatype Vector = Vector(x: int, y: int)

  /** One colour channel, as a canvas stores it. */
  type Channel = n: int | 0 <= n <= 255

  datatype Colour = Colour(r: Channel, g: Channel, b: Channel)

  /** A committed cell: cleared (alpha zero) or painted with an opaque colour. */
  datatype Cell = Transparent | Opaque(colour: Colour)

  datatype Tool = Pen | Rubber

  /** Distance of an integer from zero. */
  function Abs(n: int): nat
  {
    if n < 0 then -n else n
  }

  const Black: Colour := Colour(0, 0, 0)
  const White: Colour := Colour(255, 255, 255)

  /** What one brush application writes: erasing clears, otherwise the fill colour. */
  function Ink(erase: bool, fill: Colour): (c: Cell)
    ensures c.Transparent? <==> erase
    ensures !erase ==> c.colour == fill
  {
    if erase then Transparent else Opaque(fill)
  }

  /** Left column of the brush rectangle for a brush `w` cells wide centred on `x`. */
  function Anchor(x: int, w: int): (a: int)
    requires w >= 1
    ensures a <= x < a + w
    ensures x - a == w / 2
  {
    x - w / 2
  }

  /** Whether cell (x, y) lies in the `bw` by `bh` rectangle that one brush
      application at `p` covers. */
  predicate InFootprint(p: Vector, bw: int, bh: int, x: int, y: int)
    requires bw >= 1 && bh >= 1
  {
    Anchor(p.x, bw) <= x < Anchor(p.x, bw) + bw &&
    Anchor(p.y, bh) <= y < Anchor(p.y, bh) + bh
  }

  /** The footprint always holds the target cell, and with a 1 by 1 brush it
      holds nothing else. */
  lemma FootprintHoldsTarget(p: Vector, bw: int, bh: int, x: int, y: int)
    requires bw >= 1 && bh >= 1
    ensures InFootprint(p, bw, bh, p.x, p.y)
    ensures bw == 1 && bh == 1 ==> (InFootprint(p, bw, bh, x, y) <==> x == p.x && y == p.y)
  {
  }

  /** Some point of `pts` has cell (x, y) in its footprint. */
  ghost predicate Covered(pts: seq<Vector>, bw: int, bh: int, x: int, y: int)
    requires bw >= 1 && bh >= 1
  {
    exists k :: 0 <= k < |pts| && InFootprint(pts[k], bw, bh, x, y)
  }

  /** Applying the brush at one more point covers what the earlier points
      covered plus that point's footprint. */
  lemma CoveredSnoc(pts: seq<Vector>, p: Vector, bw: int, bh: int)
    requires bw >= 1 && bh >= 1
    ensures forall x, y :: Covered(pts + [p], bw, bh, x, y) <==>
                           Covered(pts, bw, bh, x, y) || InFootprint(p, bw, bh, x, y)
  {
    var all := pts + [p];
    forall x, y ensures Covered(all, bw, bh, x, y) <==>
                        Covered(pts, bw, bh, x, y) || InFootprint(p, bw, bh, x, y)
    {
      if Covered(pts, bw, bh, x, y) {
        var k :| 0 <= k < |pts| && InFootprint(pts[k], bw, bh, x, y);
        assert all[k] == pts[k];
      }
      if InFootprint(p, bw, bh, x, y) {
        assert all[|pts|] == p;
      }
      if Covered(all, bw, bh, x, y) {
        var k :| 0 <= k < |all| && InFootprint(all[k], bw, bh, x, y);
        if k < |pts| {
          assert all[k] == pts[k];
        }
      }
    }
  }

  /** With a 1 by 1 brush the covered cells are exactly the points. */
  lemma CoveredUnitBrush(pts: seq<Vector>, x: int, y: int)
    ensures Covered(pts, 1, 1, x, y) <==> Vector(x, y) in pts
  {
    if Vector(x, y) in pts {
      var k :| 0 <= k < |pts| && pts[k] == Vector(x, y);
      assert InFootprint(pts[k], 1, 1, x, y);
    }
    if Covered(pts, 1, 1, x, y) {
      var k :| 0 <= k < |pts| && InFootprint(pts[k], 1, 1, x, y);
      FootprintHoldsTarget(pts[k], 1, 1, x, y);
      assert pts[k] == Vector(x, y);
    }
  }

  /** Maps a pointer offset from the canvas's top-left corner, in display
      pixels, to the grid cell under it: floor division by the scale factors.
      The result is not clamped to the grid. */
  function CellUnderPointer(offsetX: int, offsetY: int, scaleX: int, scaleY: int): (p: Vector)
    requires scaleX >= 1 && scaleY >= 1
    ensures p.x * scaleX <= offsetX < (p.x + 1) * scaleX
    ensures p.y * scaleY <= offsetY < (p.y + 1) * scaleY
  {
    Vector(offsetX / scaleX, offsetY / scaleY)
  }

  /** The cell under the pointer is the only one whose display rectangle
      holds the pointer offset: an independent characterisation of the floor,
      on both axes. */
  lemma CellUnderPointerUnique(offsetX: int, offsetY: int, scaleX: int, scaleY: int, c: Vector)
    requires scaleX >= 1 && scaleY >= 1
    requires c.x * scaleX <= offsetX < (c.x + 1) * scaleX
    requires c.y * scaleY <= offsetY < (c.y + 1) * scaleY
    ensures CellUnderPointer(offsetX, offsetY, scaleX, scaleY) == c
  {
    FloorUnique(offsetX, scaleX, c.x);
    FloorUnique(offsetY, scaleY, c.y);
  }

  /** On one axis: the only `c` with `c * scale <= offset < (c + 1) * scale`
      is `offset / scale`. */
  lemma FloorUnique(offset: int, scale: int, c: int)
    requires scale >= 1
    requires c * scale <= offset < (c + 1) * scale
    ensures offset / scale == c
  {
    var q := offset / scale;
    assert q * scale <= offset < (q + 1) * scale;
    if q < c {
      assert (q + 1) * scale <= c * scale by { MulMonotone(q + 1, c, scale); }
      assert false;
    } else if q > c {
      assert false;
    }
  }

  lemma MulMonotone(a: int, b: int, k: int)
    requires a <= b && k >= 0
    ensures a * k <= b * k
  {
    assert b * k - a * k == (b - a) * k;
  }

  /** With the display pixels inside the canvas (offset in [0, size * scale)),
      the mapped cell is inside the grid. */
  lemma {:induction false} PointerInsideCanvasMapsInsideGrid(offsetX: int, offsetY: int, scaleX: int, scaleY: int, width: int, height: int)
    requires scaleX >= 1 && scaleY >= 1
    requires 0 <= offsetX < width * scaleX && 0 <= offsetY < height * scaleY
    ensures 0 <= CellUnderPointer(offsetX, offsetY, scaleX, scaleY).x < width
    ensures 0 <= CellUnderPointer(offsetX, offsetY, scaleX, scaleY).y < height
  {
    var p := CellUnderPointer(offsetX, offsetY, scaleX, scaleY);
    if p.x < 0 { MulMonotone(p.x + 1, 0, scaleX); }
    if p.x >= width { MulMonotone(width, p.x, scaleX); }
    if p.y < 0 { MulMonotone(p.y + 1, 0, scaleY); }
    if p.y >= height { MulMonotone(height, p.y, scaleY); }
  }
}
