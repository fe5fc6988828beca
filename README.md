# TerminalPaint in Dafny

A model of the pixel editor behind the terminal-art tool (`TerminalPaint.tsx`).
The editor keeps a committed canvas of `width` by `height` cells. Each cell is
either transparent or one opaque RGB colour. The user paints it with a
rectangular brush, joins fast pointer moves with a Bresenham line, resizes it
without losing what still fits, and exports it as text. In that text a colour
escape is written only where the colour changes, and every cell is one space.

The model follows the component's own structure:

- `geometry.dfy` (module `Geometry`): grid positions, colours, cells and tools.
  It also holds the brush footprint that `drawPoint` fills or clears, and the
  floor mapping from a pointer offset to the cell under it
  (`getCanvasCoordFromPointer`).
- `settings.dfy` (module `Settings`): the React state, the clamps
  `handleInputChange` applies, and the state after one input change.
- `raster.dfy` (module `Raster`): the point-collecting loop of `drawLine`, as
  a method proved equal to a specification function `Line`. The shape of
  `Line` is proved: it starts at `from`, ends at `to`, has no gaps, holds no
  cell twice and stays between its ends.
- `exporter.dfy` (module `Exporter`): the text `export` builds, as functions
  that follow its two nested loops. Lemmas cover the layout, the counts, the
  coalescing of runs, the template substitution and the decimal text of a
  channel.
- `terminal_paint.dfy` (module `Paint`): the component as a class. Its fields
  are the state, `painting`, `previousPoint`, the canvas context's fill
  colour, the committed canvas (an `array2` of cells, indexed `[row, column]`)
  and the hidden canvas a resize copies through. Its methods are the event
  handlers, and the export loops as a method proved against the exporter's
  functions.

Canvas 2D calls are modelled on whole cells, because the committed canvas's
size attributes are `width` and `height` (one canvas pixel per cell):

- `fillRect` and `clearRect` write the in-grid part of an integer rectangle.
- `drawImage` at the origin is source-over: an opaque cell covers the cell
  below it, and a transparent cell leaves it.
- `getImageData` reads one cell.
- Setting a canvas's size clears it and resets its context, so the fill colour
  goes back to black.

## Model

| member | source | states |
|---|---|---|
| Geometry.Ink | src/posts/apps/terminal-paint/src/TerminalPaint.tsx:156-160 | erasing writes a transparent cell; otherwise the cell gets the fill colour |
| Geometry.Anchor | src/posts/apps/terminal-paint/src/TerminalPaint.tsx:153-154 | the brush's corner is `floor(size / 2)` before the target, so the target lies inside the brush |
| Geometry.InFootprint | src/posts/apps/terminal-paint/src/TerminalPaint.tsx:152-160 | defines the rectangle one `drawPoint` fills or clears: `brushWidth` by `brushHeight` cells whose corner is `floor(size / 2)` up and left of the target |
| Geometry.FootprintHoldsTarget | src/posts/apps/terminal-paint/src/TerminalPaint.tsx:152-160 | the brush rectangle always holds the target cell; a 1 by 1 brush holds exactly that cell |
| Geometry.CoveredSnoc | src/posts/apps/terminal-paint/src/TerminalPaint.tsx:192-194 | applying the brush at one more point covers what the earlier points covered plus that point's rectangle |
| Geometry.CoveredUnitBrush | src/posts/apps/terminal-paint/src/TerminalPaint.tsx:192-194 | with a 1 by 1 brush, a line covers exactly its own points |
| Geometry.CellUnderPointer | src/posts/apps/terminal-paint/src/TerminalPaint.tsx:196-202 | the cell's display square holds the pointer offset: `x * scaleX <= offsetX < (x + 1) * scaleX`, and the same for y |
| Geometry.CellUnderPointerUnique | src/posts/apps/terminal-paint/src/TerminalPaint.tsx:199-200 | on each axis separately, that cell is the only one whose display rectangle holds the offset |
| Geometry.PointerInsideCanvasMapsInsideGrid | src/posts/apps/terminal-paint/src/TerminalPaint.tsx:196-202 | an offset inside the displayed canvas maps to a cell inside the grid |
| Settings.InitialState | src/posts/apps/terminal-paint/src/TerminalPaint.tsx:59-70 | the state the constructor sets (100 by 40 cells of 8 by 16, a 1 by 1 brush, black and white, the pen, the prompt text); every setting starts inside its clamp's range |
| Settings.ClampBounded | src/posts/apps/terminal-paint/src/TerminalPaint.tsx:257-272 | `min(max(1, v), 2048)` lies in [1, 2048], keeps in-range values and is the nearest allowed value |
| Settings.ClampSize | src/posts/apps/terminal-paint/src/TerminalPaint.tsx:273-286 | `max(1, v)` is at least 1, keeps values of at least 1 and is the nearest allowed value |
| Settings.Apply | src/posts/apps/terminal-paint/src/TerminalPaint.tsx:251-294 | the named field gets the clamped value (or the tool), no other field changes, an unknown input changes nothing, and every setting stays in range |
| Raster.Step | src/posts/apps/terminal-paint/src/TerminalPaint.tsx:178-186 | defines one loop iteration: `e2 = 2 * err` taken first, then a column step with `err -= dy` when `e2 > -dy`, then a row step with `err += dx` when `e2 < dx` |
| Raster.Walk | src/posts/apps/terminal-paint/src/TerminalPaint.tsx:177-191 | defines the positions the loop pushes, in order, from the current state until it reaches `to` |
| Raster.Line | src/posts/apps/terminal-paint/src/TerminalPaint.tsx:173-191 | defines the list `drawLine` paints: `from`, then the walk from the initial state `err = dx - dy`; `LineShape` states its shape |
| Raster.StepArith | src/posts/apps/terminal-paint/src/TerminalPaint.tsx:177-186 | each iteration moves along at least one axis and never past the end on either |
| Raster.StepKeepsTracking | src/posts/apps/terminal-paint/src/TerminalPaint.tsx:177-191 | one iteration keeps the error term in step with the position, moves to a neighbouring cell and gets closer to `to`, so the loop ends |
| Raster.StepTracks | src/posts/apps/terminal-paint/src/TerminalPaint.tsx:178-186 | one iteration keeps the position between the ends and the error term equal to `dx - dy - i*dy + j*dx` after `i` column steps and `j` row steps |
| Raster.StepMoves | src/posts/apps/terminal-paint/src/TerminalPaint.tsx:178-186 | one iteration moves to one of the eight neighbours and decreases the distance to `to` |
| Raster.WalkApproaches | src/posts/apps/terminal-paint/src/TerminalPaint.tsx:177-191 | every position the loop visits is strictly closer to `to` than the one it started from, so none is visited twice |
| Raster.WalkShape | src/posts/apps/terminal-paint/src/TerminalPaint.tsx:177-191 | the positions visited end at `to`, each is a neighbour of the one before it, and none leaves the rectangle spanned by the ends |
| Raster.LineShape | src/posts/apps/terminal-paint/src/TerminalPaint.tsx:173-191 | the point list starts with `from`, ends with `to`, has no gaps (each point is a neighbour of the one before it), holds no point twice, stays between its ends, and is the single point `from` when `from == to` |
| Raster.LinePoints | src/posts/apps/terminal-paint/src/TerminalPaint.tsx:162-191 | the loop (with `err << 1` as `2 * err`) collects exactly the points of `Line(from, to)` |
| Exporter.PixelColour | src/posts/apps/terminal-paint/src/TerminalPaint.tsx:112-115 | defines a colour's text: the template with the first `rrr`, `ggg` and `bbb` replaced, in that order, by the channels in decimal; `EscapeTemplateText` and `MarkerIsPlain` state what it gives |
| Exporter.Key | src/posts/apps/terminal-paint/src/TerminalPaint.tsx:111-122 | defines the key compared between cells: `transparent` for a cell with alpha zero, the colour's text otherwise |
| Exporter.Marker | src/posts/apps/terminal-paint/src/TerminalPaint.tsx:111-122 | defines the text written when the key changes: the literal reset `\x1b[0m` for a transparent cell, the colour's text otherwise |
| Exporter.RunMarker | src/posts/apps/terminal-paint/src/TerminalPaint.tsx:124-127 | defines what is written before a cell: its marker when its key differs from the key before it, nothing otherwise |
| Exporter.CellText | src/posts/apps/terminal-paint/src/TerminalPaint.tsx:124-129 | defines what one cell appends: `RunMarker` and then one space |
| Exporter.KeyAfter | src/posts/apps/terminal-paint/src/TerminalPaint.tsx:124-127 | defines the key held after some cells of a row: the last cell's key, or the key before when there are none |
| Exporter.RowText | src/posts/apps/terminal-paint/src/TerminalPaint.tsx:106-130 | defines the inner loop's text for one row, cell by cell, each cell seeing the key the cells before it left |
| Exporter.KeyAfterRows | src/posts/apps/terminal-paint/src/TerminalPaint.tsx:102-132 | defines the key held after some rows, starting from `transparent` and carried across row ends |
| Exporter.GridText | src/posts/apps/terminal-paint/src/TerminalPaint.tsx:102-132 | defines the export: each row's text followed by a newline, top row first; `ExportLayout`, `ExportCounts`, `ExportScan` and `BlockExport` state its properties |
| Exporter.Decimal | src/posts/apps/terminal-paint/src/TerminalPaint.tsx:113-115 | a channel's decimal text is made of digits and has no leading zero |
| Exporter.DecimalRoundTrip | src/posts/apps/terminal-paint/src/TerminalPaint.tsx:113-115 | reading the decimal text of a channel gives the channel back |
| Exporter.IndexFrom | src/posts/apps/terminal-paint/src/TerminalPaint.tsx:112-115 | the index found holds the pattern and no earlier index does; -1 only when no index does |
| Exporter.ReplaceFirst | src/posts/apps/terminal-paint/src/TerminalPaint.tsx:112-115 | only the first occurrence is replaced, and a text without the pattern is returned unchanged |
| Exporter.ReplaceAfter | src/posts/apps/terminal-paint/src/TerminalPaint.tsx:112-115 | when no occurrence starts earlier, the occurrence after a prefix is the one replaced |
| Exporter.ReplaceFirstChars | src/posts/apps/terminal-paint/src/TerminalPaint.tsx:112-115 | a replacement brings in no character that was in neither the text nor the replacement |
| Exporter.EscapeTemplateText | src/posts/apps/terminal-paint/src/TerminalPaint.tsx:395 | the export button's template gives `\x1b[48;2;R;G;Bm` with the channels in decimal; the `b` of `x1b` is not taken for the blue placeholder |
| Exporter.MarkerIsPlain | src/posts/apps/terminal-paint/src/TerminalPaint.tsx:111-122 | with a template free of spaces and newlines, no marker holds a space or a newline |
| Exporter.RowLayout | src/posts/apps/terminal-paint/src/TerminalPaint.tsx:106-130 | with a template free of spaces and newlines, stripping the markers from a row's text leaves one space per cell |
| Exporter.ExportLayout | src/posts/apps/terminal-paint/src/TerminalPaint.tsx:105-132 | with a template free of spaces and newlines, stripping the markers from the export leaves `height` lines of `width` spaces |
| Exporter.ExportCounts | src/posts/apps/terminal-paint/src/TerminalPaint.tsx:105-132 | with a template free of spaces and newlines, the export holds exactly `width * height` spaces and `height` newlines |
| Exporter.KeyAfterAppend | src/posts/apps/terminal-paint/src/TerminalPaint.tsx:124-127 | the key held after two pieces of the scan is the key after the second, started from the key after the first |
| Exporter.RowTextAppend | src/posts/apps/terminal-paint/src/TerminalPaint.tsx:106-130 | scanning two pieces of a row one after the other writes the same text as scanning them together |
| Exporter.ExportScan | src/posts/apps/terminal-paint/src/TerminalPaint.tsx:102-131 | with a template free of spaces and newlines, the export without its newlines is one scan of all cells in row-major order from the key `transparent`: a row end neither resets the key nor breaks a run |
| Exporter.RunText | src/posts/apps/terminal-paint/src/TerminalPaint.tsx:124-129 | a run of one colour writes its marker at most once, before its first cell, then one space per cell |
| Exporter.BlockExport | src/posts/apps/terminal-paint/src/TerminalPaint.tsx:102-132 | a grid of one colour exports as at most one marker followed by the bare layout |
| Exporter.TransparentExport | src/posts/apps/terminal-paint/src/TerminalPaint.tsx:102-132 | a grid with no opaque cell exports with no marker at all, only spaces and newlines |
| ExporterExamples.DecimalExamples | src/posts/apps/terminal-paint/src/TerminalPaint.tsx:113-115 | 0 and 255 are written `0` and `255` |
| ExporterExamples.EscapeTemplateRed | src/posts/apps/terminal-paint/src/TerminalPaint.tsx:395 | pure red with the export button's template is `\x1b[48;2;255;0;0m` |
| Paint.ButtonColour | src/posts/apps/terminal-paint/src/TerminalPaint.tsx:206-216 | defines the pen's fill colour for a mouse button: primary for 0, secondary for 2, black otherwise |
| Paint.JoinsPrevious | src/posts/apps/terminal-paint/src/TerminalPaint.tsx:244 | defines when `mouseMove` draws a line: a previous point exists and both coordinates differ from it |
| Paint.Cells | src/posts/apps/terminal-paint/src/TerminalPaint.tsx:107 | the cells read from the canvas, `height` rows of `width` cells, each the canvas's cell at that row and column |
| Paint.ScanStep | src/posts/apps/terminal-paint/src/TerminalPaint.tsx:106-130 | one more cell appends that cell's text, and the key becomes that cell's key |
| Paint.GridStep | src/posts/apps/terminal-paint/src/TerminalPaint.tsx:105-132 | one more row appends that row's text and a newline, and the key carries over from the row before |
| Paint.StraightMoveLeavesGap | src/posts/apps/terminal-paint/src/TerminalPaint.tsx:244 | with a 1 by 1 brush, a move of two or more cells along one row is not joined: the cell next to the previous point, which the line between them holds, is not in the new brush rectangle and so is left as it was |
| Paint.TerminalPaint.constructor | src/posts/apps/terminal-paint/src/TerminalPaint.tsx:44-71 | the initial state (100 by 40 cells of 8 by 16, 1 by 1 brush, black and white, pen), no stroke, a transparent canvas and a 300 by 150 hidden canvas |
| Paint.TerminalPaint.SetColour | src/posts/apps/terminal-paint/src/TerminalPaint.tsx:72-88 | only the chosen primary or secondary colour changes; the canvas's fill colour stays |
| Paint.TerminalPaint.DrawPoint | src/posts/apps/terminal-paint/src/TerminalPaint.tsx:152-161 | exactly the in-grid cells of the brush rectangle change: cleared when erasing, the fill colour otherwise |
| Paint.TerminalPaint.DrawLine | src/posts/apps/terminal-paint/src/TerminalPaint.tsx:162-195 | exactly the cells some point of `Line(from, to)` covers with the brush change, to the tool's ink |
| Paint.TerminalPaint.MouseDown | src/posts/apps/terminal-paint/src/TerminalPaint.tsx:203-220 | the pen takes the button's colour (primary for 0, secondary for 2, black otherwise); a stroke starts; the brush is applied once at the cell under the pointer; `previousPoint` is not set |
| Paint.TerminalPaint.MouseUp | src/posts/apps/terminal-paint/src/TerminalPaint.tsx:221-224 | the stroke ends and `previousPoint` is cleared; nothing else changes |
| Paint.TerminalPaint.MouseOut | src/posts/apps/terminal-paint/src/TerminalPaint.tsx:225-230 | only `previousPoint` is cleared; a stroke in progress goes on |
| Paint.TerminalPaint.MouseMove | src/posts/apps/terminal-paint/src/TerminalPaint.tsx:231-250 | outside a stroke nothing changes; during one, the brush is applied at the pointer's cell, the line from `previousPoint` is painted when both coordinates differ, and the pointer's cell becomes `previousPoint` |
| Paint.TerminalPaint.TempSave | src/posts/apps/terminal-paint/src/TerminalPaint.tsx:139-146 | the hidden canvas gets the display size and holds the committed canvas in its top-left corner, transparent elsewhere |
| Paint.TerminalPaint.Render | src/posts/apps/terminal-paint/src/TerminalPaint.tsx:363-367 | the canvas takes the state's size; a changed size clears it and resets the fill colour, and an unchanged size leaves it as it was |
| Paint.TerminalPaint.TempRestore | src/posts/apps/terminal-paint/src/TerminalPaint.tsx:147-151 | the hidden canvas's opaque cells are drawn over the committed canvas at the origin; nothing is drawn when it has no width or no height |
| Paint.TerminalPaint.HandleInputChange | src/posts/apps/terminal-paint/src/TerminalPaint.tsx:251-294 | the state becomes `Apply(state, change)`; after a resize every cell inside both the old and the new grid keeps its value and every new cell is transparent; other changes leave the canvas alone |
| Paint.TerminalPaint.ExportText | src/posts/apps/terminal-paint/src/TerminalPaint.tsx:98-132 | the two nested loops build exactly `GridText` of the committed canvas |
| Paint.TerminalPaint.Export | src/posts/apps/terminal-paint/src/TerminalPaint.tsx:98-138 | the text area's value becomes that text, and nothing else changes |

## Left out

- The overlay canvas (the brush preview and its translucent rubber colour) is left out. It is visual only and `export` never reads it.
- React rendering, the colour swatches, the tool selector's markup and the text area are left out, apart from what they feed the handlers. A swatch click is `SetColour` and a selector change is a `SelectTool` change.
- Registering and removing the document's `mouseup` listener is left out. `MouseUp` is the handler it calls.
- Pointer offsets are integers, so the float offsets from `getBoundingClientRect` are left out.
- Input values reach the model already parsed as integers. The `NaN` that `parseInt` gives for non-numeric text is left out.
- A tool value other than `Pen` or `Rubber` is left out.
- `Raster.LinePoints`: `err << 1` is modelled as `2 * err`. JavaScript's 32-bit shift differs only when `|err|` reaches 2^30, which needs a line over 2^29 cells long.
- `Paint.TerminalPaint.HandleInputChange`: `setState` is modelled as taking effect at once, with `tempRestore` after the re-render. Any other re-render is left out because it does not touch the canvas.
- Colours are fully opaque, because every fill colour is an `rgb(...)` colour or `black`. Partial alpha and anti-aliasing are therefore not modelled.
- `Paint.TerminalPaint.MouseMove`: the line is drawn only when both coordinates differ from `previousPoint`, as the code does. `Paint.StraightMoveLeavesGap` shows the gap this leaves on a straight move.
- Brush width and height are clamped to 2048, as the code does.
- `mouseDown` does not record `previousPoint`, as the code does. A stroke's first move is therefore never joined.
- The export's colour key starts as `transparent` and is not reset at a row end, as the code does. A leading transparent cell therefore writes no reset marker, and runs coalesce across row ends.
