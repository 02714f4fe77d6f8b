/**
 * The value types shared by the drawing surface: tools, points and brush
 * styles (types.ts, constants.ts and the width slider of PropertiesBar.tsx).
 */
module Types {

  /**
   * The active tool. `Cursor` is used by the canvas, the toolbar and the tool
   * table but is missing from the declared enum; it is included here because
   * the logic relies on it. `Select` is declared but never treated specially.
   */
  datatype Tool =
    | Cursor
    | Pen
    | Highlighter
    | Eraser
    | Rectangle
    | Circle
    | Line
    | Arrow
    | Text
    | Select

  /** Tools whose strokes are painted straight onto the main surface. */
  predicate IsFreehand(t: Tool)
    ensures IsFreehand(t) ==> t != Cursor && t != Text && t != Select
  {
    t == Pen || t == Highlighter || t == Eraser
  }

  /** Tools that are dragged out on the preview surface and composited on release. */
  predicate IsShape(t: Tool)
    ensures IsShape(t) ==> !IsFreehand(t) && t != Cursor && t != Text && t != Select
  {
    t == Rectangle || t == Circle || t == Line || t == Arrow
  }

  /** A point in pixels; canvas points have their origin at the canvas's top-left corner. */
  datatype Point = Point(x: int, y: int)

  /** Stroke widths come from a range slider with bounds 1 and 50, read with parseInt. */
  type Width = w: int | 1 <= w <= 50 witness 4

  const DefaultStrokeWidth: Width := 4

  /** A brush style: a CSS color string and a stroke width. */
  datatype Style = Style(color: string, width: Width)
}
