/** The editor component (TerminalPaint): its React state, the stroke state
    kept on the instance, the committed canvas as a grid of cells, the hidden
    canvas a resize copies through, and the event handlers that change them. */
module Paint {
  import opened Geometry
  import opened Settings
  import opened Raster
  import opened Exporter

  datatype Option<T> = None | Some(value: T)

  /** The cells of a canvas, row by row. */
  function Cells(a: array2<Cell>): (g: seq<seq<Cell>>)
    reads a
    ensures |g| == a.Length0 && Rectangular(g, a.Length1)
    ensures forall y, x :: 0 <= y < a.Length0 && 0 <= x < a.Length1 ==> g[y][x] == a[y, x]
  {
    seq(a.Length0, y requires 0 <= y < a.Length0 reads a =>
      seq(a.Length1, x requires 0 <= x < a.Length1 reads a => a[y, x]))
  }

  /** The fill colour a pen stroke starts with for a mouse button: the
      primary colour for the main button (0), the secondary colour for the
      secondary button (2), black for any other. */
  function ButtonColour(s: State, button: int): Colour
  {
    if button == 0 then s.primaryColour
    else if button == 2 then s.secondaryColour
    else Black
  }

  /** One more cell of the scan: the row text and the key after the first
      `i + 1` cells, from those after the first `i`. */
  lemma ScanStep(row: seq<Cell>, i: nat, template: string, before: string)
    requires i < |row|
    ensures RowText(row[..i + 1], template, before) ==
            RowText(row[..i], template, before) + CellText(row[i], template, KeyAfter(row[..i], template, before))
    ensures KeyAfter(row[..i + 1], template, before) == Key(row[i], template)
  {
    assert row[..i + 1] == row[..i] + [row[i]];
    RowTextLast(row[..i + 1], row[..i], row[i], template, before);
  }

  /** One more row of the scan: the text and the key after the first `j + 1`
      rows, from those after the first `j`. */
  lemma GridStep(rows: seq<seq<Cell>>, j: nat, template: string)
    requires j < |rows|
    ensures GridText(rows[..j + 1], template) ==
            GridText(rows[..j], template) + RowText(rows[j], template, KeyAfterRows(rows[..j], template)) + "\n"
    ensures KeyAfterRows(rows[..j + 1], template) == KeyAfter(rows[j], template, KeyAfterRows(rows[..j], template))
  {
    assert rows[..j + 1] == rows[..j] + [rows[j]];
    assert rows[..j + 1][..j] == rows[..j];
    GridTextLast(rows[..j + 1], rows[..j], rows[j], template);
  }

  /** Whether mouseMove joins the previous point to `pos` with a line: only
      when there is a previous point and the two differ in both coordinates. */
  predicate JoinsPrevious(previous: Option<Vector>, pos: Vector)
  {
    previous.Some? && pos.x != previous.value.x && pos.y != previous.value.y
  }

  /** A move along a single row is not joined: with a 1 by 1 brush, a move
      from `p` straight to a cell `n >= 2` columns to its right paints that
      cell but leaves the one next to `p`, which the line between them
      holds, as it was. */
  lemma StraightMoveLeavesGap(p: Vector, n: int)
    requires n >= 2
    ensures var q := Vector(p.x + n, p.y);
            !JoinsPrevious(Some(p), q) &&
            !InFootprint(q, 1, 1, p.x + 1, p.y) &&
            Vector(p.x + 1, p.y) in Line(p, q)
  {
    var q := Vector(p.x + n, p.y);
    assert Tracking(p, q, p.x, p.y, n);
    WalkUnfold(p, q, p.x, p.y, n);
    assert Step(p, q, Tracer(p.x, p.y, n)) == Tracer(p.x + 1, p.y, n);
    assert Line(p, q)[1] == Vector(p.x + 1, p.y);
  }

  class TerminalPaint {
    /** The React state (this.state). */
    var state: State
    /** Whether a stroke is in progress. */
    var painting: bool
    /** The cell the stroke was last at, if any. */
    var previousPoint: Option<Vector>
    /** The committed canvas context's fill colour (its fillStyle). */
    var fillStyle: Colour
    /** The committed canvas, one cell per character, indexed [row, column]. */
    var pixels: array2<Cell>
    /** The hidden canvas a resize copies the committed canvas through. */
    var temp: array2<Cell>

    /** The committed canvas has the size the state names, and every
        setting is in the range its clamp keeps it in. */
    predicate Valid()
      reads this
    {
      InRange(state) &&
      pixels.Length0 == state.height && pixels.Length1 == state.width &&
      pixels != temp
    }

    /** A new editor: 100 by 40 cells of 8 by 16 display pixels, a 1 by 1
        brush, black and white selected, the pen, no stroke, a transparent
        canvas, and a hidden canvas of the default size (300 by 150). */
    constructor ()
      ensures Valid() && fresh(pixels) && fresh(temp)
      ensures state == InitialState() && !painting && previousPoint == None && fillStyle == Black
      ensures forall y, x :: 0 <= y < pixels.Length0 && 0 <= x < pixels.Length1 ==> pixels[y, x] == Transparent
      ensures temp.Length0 == 150 && temp.Length1 == 300
    {
      state := InitialState();
      painting := false;
      previousPoint := None;
      fillStyle := Black;
      pixels := new Cell[40, 100]((_, _) => Transparent);
      temp := new Cell[150, 300]((_, _) => Transparent);
    }

    /** setColour: selects `colour` as the primary or the secondary colour.
        The committed canvas's fill colour is not touched; the next pen
        stroke picks it up. */
    method SetColour(colour: Colour, primary: bool)
      requires Valid()
      modifies this
      ensures Valid()
      ensures state == if primary then old(state).(primaryColour := colour)
                       else old(state).(secondaryColour := colour)
      ensures painting == old(painting) && previousPoint == old(previousPoint) && fillStyle == old(fillStyle)
      ensures pixels == old(pixels) && temp == old(temp)
    {
      if primary {
        state := state.(primaryColour := colour);
      } else {
        state := state.(secondaryColour := colour);
      }
    }

    /** drawPoint on the committed canvas: the brush rectangle centred on `p`
        (clipped to the grid) is cleared when erasing and filled with the
        fill colour otherwise; every other cell keeps its value. */
    method DrawPoint(p: Vector, erase: bool)
      requires Valid()
      modifies pixels
      ensures forall y, x :: 0 <= y < pixels.Length0 && 0 <= x < pixels.Length1 ==>
                pixels[y, x] == if InFootprint(p, state.brushWidth, state.brushHeight, x, y)
                                then Ink(erase, fillStyle) else old(pixels[y, x])
    {
      var left := p.x - state.brushWidth / 2;
      var top := p.y - state.brushHeight / 2;
      var ink := if erase then Transparent else Opaque(fillStyle);
      // clearRect / fillRect(left, top, brushWidth, brushHeight)
      forall y, x | 0 <= y < pixels.Length0 && 0 <= x < pixels.Length1 &&
                    left <= x < left + state.brushWidth && top <= y < top + state.brushHeight
      {
        pixels[y, x] := ink;
      }
    }

    /** drawLine: applies the brush at every point of the line from `from`
        to `to`, erasing with the rubber. A cell changes exactly when some
        point's footprint holds it. */
    method DrawLine(from: Vector, to: Vector)
      requires Valid()
      modifies pixels
      ensures forall y, x :: 0 <= y < pixels.Length0 && 0 <= x < pixels.Length1 ==>
                pixels[y, x] == if Covered(Line(from, to), state.brushWidth, state.brushHeight, x, y)
                                then Ink(state.tool == Rubber, fillStyle) else old(pixels[y, x])
    {
      var coordinates := LinePoints(from, to);
      var erase := state.tool == Rubber;
      var k := 0;
      while k < |coordinates|
        invariant 0 <= k <= |coordinates|
        invariant forall y, x :: 0 <= y < pixels.Length0 && 0 <= x < pixels.Length1 ==>
                    pixels[y, x] == if Covered(coordinates[..k], state.brushWidth, state.brushHeight, x, y)
                                    then Ink(erase, fillStyle) else old(pixels[y, x])
      {
        CoveredSnoc(coordinates[..k], coordinates[k], state.brushWidth, state.brushHeight);
        assert coordinates[..k + 1] == coordinates[..k] + [coordinates[k]];
        DrawPoint(coordinates[k], erase);
        k := k + 1;
      }
      assert coordinates[..k] == coordinates;
    }

    /** mouseDown: with the pen, sets the fill colour from the button; then
        starts a stroke and applies the brush once at the cell under the
        pointer. The previous point is not set. */
    method MouseDown(offsetX: int, offsetY: int, button: int)
      requires Valid()
      modifies this, pixels
      ensures Valid() && state == old(state) && pixels == old(pixels) && temp == old(temp)
      ensures painting && previousPoint == old(previousPoint)
      ensures fillStyle == if state.tool == Pen then ButtonColour(state, button) else old(fillStyle)
      ensures var pos := CellUnderPointer(offsetX, offsetY, state.scaleX, state.scaleY);
              forall y, x :: 0 <= y < pixels.Length0 && 0 <= x < pixels.Length1 ==>
                pixels[y, x] == if InFootprint(pos, state.brushWidth, state.brushHeight, x, y)
                                then Ink(state.tool == Rubber, fillStyle) else old(pixels[y, x])
    {
      var pos := CellUnderPointer(offsetX, offsetY, state.scaleX, state.scaleY);
      if state.tool == Pen {
        if button == 0 {
          fillStyle := state.primaryColour;
        } else if button == 2 {
          fillStyle := state.secondaryColour;
        } else {
          fillStyle := Black;
        }
      }
      painting := true;
      DrawPoint(pos, state.tool == Rubber);
    }

    /** mouseUp: ends the stroke and forgets the previous point. */
    method MouseUp()
      requires Valid()
      modifies this
      ensures Valid() && state == old(state) && pixels == old(pixels) && temp == old(temp)
      ensures !painting && previousPoint == None && fillStyle == old(fillStyle)
    {
      painting := false;
      previousPoint := None;
    }

    /** mouseOut: forgets the previous point; a stroke in progress goes on. */
    method MouseOut()
      requires Valid()
      modifies this
      ensures Valid() && state == old(state) && pixels == old(pixels) && temp == old(temp)
      ensures painting == old(painting) && previousPoint == None && fillStyle == old(fillStyle)
    {
      previousPoint := None;
    }

    /** mouseMove: during a stroke, applies the brush at the cell under the
        pointer, joins it to the previous point with a line when the two
        differ in both coordinates, and records it as the previous point.
        Outside a stroke the committed canvas and the stroke state stay. */
    method MouseMove(offsetX: int, offsetY: int)
      requires Valid()
      modifies this, pixels
      ensures Valid() && state == old(state) && pixels == old(pixels) && temp == old(temp)
      ensures painting == old(painting) && fillStyle == old(fillStyle)
      ensures var pos := CellUnderPointer(offsetX, offsetY, state.scaleX, state.scaleY);
              previousPoint == if painting then Some(pos) else old(previousPoint)
      ensures !painting ==> unchanged(pixels)
      ensures painting ==>
                var pos := CellUnderPointer(offsetX, offsetY, state.scaleX, state.scaleY);
                var joined := JoinsPrevious(old(previousPoint), pos);
                forall y, x :: 0 <= y < pixels.Length0 && 0 <= x < pixels.Length1 ==>
                  pixels[y, x] ==
                    if InFootprint(pos, state.brushWidth, state.brushHeight, x, y) ||
                       (joined && Covered(Line(old(previousPoint).value, pos), state.brushWidth, state.brushHeight, x, y))
                    then Ink(state.tool == Rubber, fillStyle) else old(pixels[y, x])
    {
      var pos := CellUnderPointer(offsetX, offsetY, state.scaleX, state.scaleY);
      if painting {
        DrawPoint(pos, state.tool == Rubber);
        if previousPoint.Some? && pos.x != previousPoint.value.x && pos.y != previousPoint.value.y {
          DrawLine(previousPoint.value, pos);
        }
        previousPoint := Some(pos);
      }
    }

    /** tempSave: sizes the hidden canvas to the display size of the
        committed one (which clears it) and draws the committed canvas into
        its top-left corner. */
    method TempSave()
      requires Valid()
      modifies this
      ensures Valid() && fresh(temp)
      ensures state == old(state) && painting == old(painting) && previousPoint == old(previousPoint)
      ensures fillStyle == old(fillStyle) && pixels == old(pixels)
      ensures temp.Length0 == state.height * state.scaleY && temp.Length1 == state.width * state.scaleX
      ensures temp.Length0 >= pixels.Length0 && temp.Length1 >= pixels.Length1
      ensures forall y, x :: 0 <= y < temp.Length0 && 0 <= x < temp.Length1 ==>
                temp[y, x] == if y < pixels.Length0 && x < pixels.Length1 then pixels[y, x] else Transparent
    {
      MulMonotone(1, state.scaleX, state.width);
      MulMonotone(1, state.scaleY, state.height);
      var canvasWidth := state.width * state.scaleX;
      var canvasHeight := state.height * state.scaleY;
      // setting the size clears the canvas, so the clearRect after it changes nothing
      temp := new Cell[canvasHeight, canvasWidth]((_, _) => Transparent);
      // drawImage at (0, 0), source-over: an opaque cell covers, a transparent one leaves the cell
      forall y, x | 0 <= y < pixels.Length0 && 0 <= x < pixels.Length1 &&
                    y < temp.Length0 && x < temp.Length1 && pixels[y, x].Opaque?
      {
        temp[y, x] := pixels[y, x];
      }
    }

    /** The re-render after a size change: React writes the canvas's new
        width and height attributes, and a canvas whose size is set is
        cleared and its context reset (the fill colour back to black). With
        the size unchanged nothing is written. */
    method Render()
      requires InRange(state) && pixels != temp
      modifies this
      ensures Valid()
      ensures state == old(state) && painting == old(painting) && previousPoint == old(previousPoint)
      ensures temp == old(temp)
      ensures old(pixels.Length0) == state.height && old(pixels.Length1) == state.width ==>
                pixels == old(pixels) && fillStyle == old(fillStyle)
      ensures old(pixels.Length0) != state.height || old(pixels.Length1) != state.width ==>
                fresh(pixels) && fillStyle == Black &&
                forall y, x :: 0 <= y < pixels.Length0 && 0 <= x < pixels.Length1 ==> pixels[y, x] == Transparent
    {
      if pixels.Length0 != state.height || pixels.Length1 != state.width {
        pixels := new Cell[state.height, state.width]((_, _) => Transparent);
        fillStyle := Black;
      }
    }

    /** tempRestore: unless the hidden canvas is empty, draws it over the
        committed canvas at (0, 0), source-over: its opaque cells cover,
        its transparent cells leave the committed cell as it is. */
    method TempRestore()
      requires Valid()
      modifies pixels
      ensures forall y, x :: 0 <= y < pixels.Length0 && 0 <= x < pixels.Length1 ==>
                pixels[y, x] == if y < temp.Length0 && x < temp.Length1 && temp[y, x].Opaque?
                                then temp[y, x] else old(pixels[y, x])
    {
      if temp.Length1 == 0 {
        return;
      }
      if temp.Length0 == 0 {
        return;
      }
      forall y, x | 0 <= y < pixels.Length0 && 0 <= x < pixels.Length1 &&
                    y < temp.Length0 && x < temp.Length1 && temp[y, x].Opaque?
      {
        pixels[y, x] := temp[y, x];
      }
    }

    /** handleInputChange: stores the clamped value. A width or height change
        goes through the hidden canvas, so the cells that are still inside
        the grid keep their values and the new cells are transparent. */
    method HandleInputChange(change: Change)
      requires Valid()
      modifies this, pixels
      ensures Valid()
      ensures state == Apply(old(state), change)
      ensures painting == old(painting) && previousPoint == old(previousPoint)
      ensures fillStyle == if state.width == old(state.width) && state.height == old(state.height)
                           then old(fillStyle) else Black
      ensures !Resizes(change) ==> pixels == old(pixels) && unchanged(pixels) && temp == old(temp)
      ensures Resizes(change) ==>
                forall y, x :: 0 <= y < pixels.Length0 && 0 <= x < pixels.Length1 ==>
                  pixels[y, x] == if y < old(state.height) && x < old(state.width)
                                  then old(pixels[y, x]) else Transparent
    {
      if Resizes(change) {
        ghost var oldHeight, oldWidth := state.height, state.width;
        TempSave();
        state := Apply(state, change);
        Render();
        label rendered:
        TempRestore();
        forall y, x | 0 <= y < pixels.Length0 && 0 <= x < pixels.Length1
          ensures pixels[y, x] == if y < oldHeight && x < oldWidth then old(pixels[y, x]) else Transparent
        {
          if y < oldHeight && x < oldWidth {
            assert temp[y, x] == old(pixels[y, x]);
            if old(pixels[y, x]).Transparent? {
              assert old@rendered(pixels[y, x]) == Transparent;
            }
          } else if y < temp.Length0 && x < temp.Length1 {
            assert temp[y, x] == Transparent;
          }
        }
      } else {
        state := Apply(state, change);
      }
    }

    /** The loops of export: the text of the committed canvas, scanned row by
        row with the colour key carried from cell to cell. */
    method ExportText(template: string) returns (outString: string)
      requires Valid()
      ensures outString == GridText(Cells(pixels), template)
    {
      ghost var rows := Cells(pixels);
      var beforeColour := TransparentKey;
      outString := "";
      var j := 0;
      while j < state.height
        invariant 0 <= j <= state.height
        invariant outString == GridText(rows[..j], template)
        invariant beforeColour == KeyAfterRows(rows[..j], template)
      {
        ghost var start := outString;
        ghost var startKey := beforeColour;
        ghost var row := rows[j];
        var i := 0;
        while i < state.width
          invariant 0 <= i <= state.width
          invariant outString == start + RowText(row[..i], template, startKey)
          invariant beforeColour == KeyAfter(row[..i], template, startKey)
        {
          var cell := pixels[j, i];
          assert cell == row[i];
          var currentColour, outputColour;
          if cell.Opaque? {
            var pixelColour := PixelColour(template, cell.colour);
            currentColour := pixelColour;
            outputColour := pixelColour;
          } else {
            currentColour := TransparentKey;
            outputColour := Reset;
          }
          ghost var done := outString;
          ghost var piece := CellText(cell, template, beforeColour);
          ScanStep(row, i, template, startKey);
          if beforeColour != currentColour {
            beforeColour := currentColour;
            outString := outString + outputColour;
            Assoc(done, outputColour, " ");
          } else {
            EmptyPrefix(" ");
          }
          outString := outString + " ";
          Assoc(start, RowText(row[..i], template, startKey), piece);
          i := i + 1;
        }
        assert row[..i] == row;
        GridStep(rows, j, template);
        outString := outString + "\n";
        j := j + 1;
      }
      assert rows[..j] == rows;
    }

    /** export: writes the text of the committed canvas into the text area. */
    method Export(template: string)
      requires Valid()
      modifies this
      ensures Valid()
      ensures state == old(state).(exportedValue := GridText(Cells(pixels), template))
      ensures painting == old(painting) && previousPoint == old(previousPoint) && fillStyle == old(fillStyle)
      ensures pixels == old(pixels) && temp == old(temp)
    {
      var outString := ExportText(template);
      state := state.(exportedValue := outString);
    }
  }
}
