/** The clamps the property inputs apply to a parsed integer before it is
    stored (TerminalPaint.handleInputChange). */
module Settings {
  import opened Geometry

  /** Largest character size and brush size an input may set. */
  const MaxSetting: int := 2048

  /** Character width/height and brush width/height: `min(max(1, v), 2048)`. */
  function ClampBounded(v: int): (r: int)
    ensures 1 <= r <= MaxSetting
    ensures 1 <= v <= MaxSetting ==> r == v
    ensures v < 1 ==> r == 1
    ensures v > MaxSetting ==> r == MaxSetting
    // the nearest value of the allowed range
    ensures forall u :: 1 <= u <= MaxSetting ==> Dist(r, v) <= Dist(u, v)
  {
    if v < 1 then 1 else if v > MaxSetting then MaxSetting else v
  }

  /** Canvas width/height in cells: `max(1, v)`, with no upper bound. */
  function ClampSize(v: int): (r: int)
    ensures r >= 1
    ensures v >= 1 ==> r == v
    ensures v < 1 ==> r == 1
    // the nearest allowed value
    ensures forall u :: 1 <= u ==> Dist(r, v) <= Dist(u, v)
  {
    if v < 1 then 1 else v
  }

  /** Distance between two integers. */
  function Dist(a: int, b: int): nat
  {
    Abs(a - b)
  }

  /** The component's React state: the canvas size in cells, the display
      size of one cell, the brush size, the two selected colours, the tool
      and the text area's content. */
  datatype State = State(
    width: int, height: int,
    scaleX: int, scaleY: int,
    brushWidth: int, brushHeight: int,
    primaryColour: Colour, secondaryColour: Colour,
    tool: Tool,
    exportedValue: string)

  /** The text area's content before the first export. */
  const ExportPrompt: string := "Click an export button to export your project."

  /** The state the constructor sets: 100 by 40 cells of 8 by 16 display
      pixels, a 1 by 1 brush, black and white selected, the pen, and the
      prompt in the text area. Every setting starts inside its clamp's range. */
  function InitialState(): (s: State)
    ensures InRange(s)
  {
    State(100, 40, 8, 16, 1, 1, Black, White, Pen, ExportPrompt)
  }

  /** The ranges the clamps keep every setting in. */
  predicate InRange(s: State)
  {
    s.width >= 1 && s.height >= 1 &&
    1 <= s.scaleX <= MaxSetting && 1 <= s.scaleY <= MaxSetting &&
    1 <= s.brushWidth <= MaxSetting && 1 <= s.brushHeight <= MaxSetting
  }

  /** One change event of a property input or the tool selector, with the
      value already read as an integer (or as a tool). An input with any
      other name changes nothing. */
  datatype Change =
    | ScaleX(value: int) | ScaleY(value: int)
    | BrushWidth(value: int) | BrushHeight(value: int)
    | Width(value: int) | Height(value: int)
    | SelectTool(tool: Tool)
    | Other

  /** Whether the change resizes the canvas (and so goes through the
      temporary copy). */
  predicate Resizes(c: Change)
  {
    c.Width? || c.Height?
  }

  /** The state after handleInputChange's setState for `c`. */
  function Apply(s: State, c: Change): (r: State)
    // the field the change names gets the clamped value ...
    ensures r.scaleX == if c.ScaleX? then ClampBounded(c.value) else s.scaleX
    ensures r.scaleY == if c.ScaleY? then ClampBounded(c.value) else s.scaleY
    ensures r.brushWidth == if c.BrushWidth? then ClampBounded(c.value) else s.brushWidth
    ensures r.brushHeight == if c.BrushHeight? then ClampBounded(c.value) else s.brushHeight
    ensures r.width == if c.Width? then ClampSize(c.value) else s.width
    ensures r.height == if c.Height? then ClampSize(c.value) else s.height
    ensures r.tool == if c.SelectTool? then c.tool else s.tool
    // ... and no other field changes
    ensures r.primaryColour == s.primaryColour && r.secondaryColour == s.secondaryColour
    ensures r.exportedValue == s.exportedValue
    ensures c.Other? ==> r == s
    // the clamps keep every setting in range, whatever the input
    ensures InRange(s) ==> InRange(r)
  {
    match c
    case ScaleX(v) => s.(scaleX := ClampBounded(v))
    case ScaleY(v) => s.(scaleY := ClampBounded(v))
    case BrushWidth(v) => s.(brushWidth := ClampBounded(v))
    case BrushHeight(v) => s.(brushHeight := ClampBounded(v))
    case Width(v) => s.(width := ClampSize(v))
    case Height(v) => s.(height := ClampSize(v))
    case SelectTool(t) => s.(tool := t)
    case Other => s
  }
}
