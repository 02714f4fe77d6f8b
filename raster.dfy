/**
 * The drawing surfaces of CanvasLayer.tsx, held abstractly: a surface is the
 * sequence of paint operations committed to it since it was last cleared,
 * and the preview surface holds at most one shape. Also the pure arithmetic
 * of the component: canvas-local points, stroke parameters, the shape drawn
 * for a drag, the arrow head length, the layout of committed text and the
 * effect that applies the history cursor to the main surface.
 */
module Raster {
  import opened Wrappers
  import opened Types
  import JsString
  import App

  /** globalCompositeOperation: 'source-over' paints, 'destination-out' erases. */
  datatype Composite = SourceOver | DestinationOut

  /** The part of the main context's drawing state that the component sets. */
  datatype Paint = Paint(lineWidth: int, color: string, alpha: real, composite: Composite)

  /** A freshly sized 2D context: width 1, black, opaque, painting over. */
  const InitialPaint: Paint := Paint(1, "#000000", 1.0, SourceOver)

  /** The outline a shape tool draws on the preview surface. */
  datatype Geometry =
    | Box(corner: Point, w: int, h: int)
    | Ring(center: Point, radiusSquared: int)
    | Segment(from: Point, to: Point)
    | ArrowGeom(from: Point, to: Point, headLength: real)

  /** A shape stroked with the width and color of the style current at that move. */
  datatype Shape = Shape(geometry: Geometry, width: Width, color: string)

  /** One paint operation on the main surface. */
  datatype Op =
    | Stroke(paint: Paint, path: seq<Point>)
    | ShapeImage(shape: Shape)
    | TextLine(text: string, at: Point, fontSize: int, color: string)
    | Image(content: seq<Op>, alpha: real)

  type Surface = seq<Op>

  /** The top-left corner of the canvas's bounding client rectangle. */
  datatype Rect = Rect(left: int, top: int)

  /** getMousePos: client coordinates made canvas-local; the origin when the canvas is not mounted. */
  function MousePos(e: Point, rect: Option<Rect>): (p: Point)
    ensures rect.Some? ==> p.x + rect.value.left == e.x && p.y + rect.value.top == e.y
    ensures rect.None? ==> p == Point(0, 0)
  {
    match rect
    case None => Point(0, 0)
    case Some(r) => Point(e.x - r.left, e.y - r.top)
  }

  /**
   * The context state pointer-down sets for a stroke: the style's width and
   * color, alpha 0.4 only for the highlighter, erasing only for the eraser.
   */
  function StrokePaint(tool: Tool, style: Style): (p: Paint)
    ensures p.lineWidth == style.width && p.color == style.color
    ensures p.alpha == 0.4 <==> tool == Highlighter
    ensures p.alpha == 1.0 <==> tool != Highlighter
    ensures p.composite == DestinationOut <==> tool == Eraser
  {
    Paint(style.width, style.color,
          if tool == Highlighter then 0.4 else 1.0,
          if tool == Eraser then DestinationOut else SourceOver)
  }

  /** The arrow head length of drawArrow: 10 * (width / 4 + 0.5) pixels. */
  function HeadLength(w: Width): (r: real)
    ensures r == 2.5 * (w as real) + 5.0
    ensures 7.5 <= r <= 130.0
  {
    10.0 * ((w as real) / 4.0 + 0.5)
  }

  /** A wider stroke always gets a strictly longer arrow head. */
  lemma HeadLengthIncreasing(a: Width, b: Width)
    requires a < b
    ensures HeadLength(a) < HeadLength(b)
  {
  }

  /** The squared distance between two points: the squared circle radius. */
  function SquaredDistance(a: Point, b: Point): (d: int)
    ensures d >= 0
    ensures d == 0 <==> a == b
  {
    var dx, dy := b.x - a.x, b.y - a.y;
    SquareNonNegative(dx);
    SquareNonNegative(dy);
    dx * dx + dy * dy
  }

  lemma SquareNonNegative(n: int)
    ensures n * n >= 0 && (n * n == 0 <==> n == 0)
  {
    if n > 0 {
      assert n * n >= n;
    } else if n < 0 {
      assert n * n == (-n) * (-n);
      assert (-n) * (-n) >= -n;
    }
  }

  /**
   * The preview drawn on a pointer move: for a shape tool exactly one shape
   * spanning the drag from start to the current point, for any other tool
   * reaching this branch an empty preview.
   */
  function PreviewShape(tool: Tool, start: Point, p: Point, style: Style): (r: Option<Shape>)
    ensures r.Some? <==> IsShape(tool)
    ensures r.Some? ==> r.value.width == style.width && r.value.color == style.color
    ensures tool == Rectangle ==>
      && r.value.geometry.Box?
      && r.value.geometry.corner == start
      && start.x + r.value.geometry.w == p.x
      && start.y + r.value.geometry.h == p.y
    ensures tool == Circle ==>
      r.value.geometry == Ring(start, SquaredDistance(start, p))
    ensures tool == Line ==> r.value.geometry == Segment(start, p)
    ensures tool == Arrow ==>
      r.value.geometry == ArrowGeom(start, p, HeadLength(style.width))
  {
    var g :=
      if tool == Rectangle then Some(Box(start, p.x - start.x, p.y - start.y))
      else if tool == Circle then Some(Ring(start, SquaredDistance(start, p)))
      else if tool == Line then Some(Segment(start, p))
      else if tool == Arrow then Some(ArrowGeom(start, p, HeadLength(style.width)))
      else None;
    match g
    case None => None
    case Some(geometry) => Some(Shape(geometry, style.width, style.color))
  }

  /** What compositing the preview surface onto the main surface adds to it. */
  function PreviewOps(preview: Option<Shape>): (r: Surface)
    ensures |r| <= 1
    ensures r == [] <==> preview.None?
  {
    match preview
    case None => []
    case Some(s) => [ShapeImage(s)]
  }

  /** The font size of committed text: max(16, width * 3). */
  function FontSize(w: Width): (r: int)
    ensures r >= 16 && r >= 3 * w
    ensures r == 16 || r == 3 * w
  {
    if 16 >= w * 3 then 16 else w * 3
  }

  /** The line height of committed text: max(20, width * 4), always taller than the font. */
  function LineHeight(w: Width): (r: int)
    ensures r >= 20 && r >= 4 * w
    ensures r == 20 || r == 4 * w
    ensures r > FontSize(w)
  {
    if 20 >= w * 4 then 20 else w * 4
  }

  /**
   * The text lines committed for a text session: line i at the anchor's x and
   * i line heights below the anchor's y, all at the style's font size and color.
   */
  function TextLayout(lines: seq<string>, at: Point, style: Style): (r: Surface)
    ensures |r| == |lines|
    ensures forall i :: 0 <= i < |lines| ==>
      r[i] == TextLine(lines[i], Point(at.x, at.y + i * LineHeight(style.width)),
                       FontSize(style.width), style.color)
    decreases |lines|
  {
    if lines == [] then []
    else
      var h := LineHeight(style.width);
      var rest := TextLayout(lines[1..], Point(at.x, at.y + h), style);
      var r := [TextLine(lines[0], at, FontSize(style.width), style.color)] + rest;
      assert forall i :: 1 <= i < |lines| ==> r[i] == rest[i - 1];
      assert forall i :: 1 <= i < |lines| ==> at.y + h + (i - 1) * h == at.y + i * h;
      r
  }

  /** Typing "A\nB" at (50, 50) with the default width 4 commits two 16px lines with baselines at 50 and 70. */
  lemma TextPlacementExample(color: string)
    ensures TextLayout(JsString.Split("A\nB", '\n'), Point(50, 50), Style(color, DefaultStrokeWidth))
         == [TextLine("A", Point(50, 50), 16, color), TextLine("B", Point(50, 70), 16, color)]
  {
    JsString.SplitJoin(["A", "B"], '\n');
    assert JsString.Join(["A", "B"], '\n') == "A\nB";
  }

  /**
   * The surface left by clearing and then drawing a snapshot under the
   * context's current alpha and composite mode: erasing with an image over a
   * cleared surface leaves it empty, and a translucent draw leaves a faded copy.
   */
  function DrawOnCleared(snap: Surface, p: Paint): (r: Surface)
    ensures r == [] <==> snap == [] || p.composite == DestinationOut
    ensures r == snap <==> snap == [] || (p.composite != DestinationOut && p.alpha == 1.0)
  {
    if p.composite == DestinationOut || snap == [] then []
    else if p.alpha == 1.0 then snap
    else
      var faded := [Image(snap, p.alpha)];
      assert faded[0].content == snap;
      faded
  }

  /**
   * The history-restore effect as written: nothing at all when the stack is
   * empty; otherwise, with the cursor on an entry, clear and draw that entry
   * with whatever alpha and composite mode the context was left in; with
   * the cursor at -1, clear.
   */
  function EffectAsWritten(current: Surface, p: Paint, stack: seq<Surface>, index: int): (r: Surface)
    ensures |stack| == 0 ==> r == current
    ensures 0 <= index < |stack| ==> r == DrawOnCleared(stack[index], p)
    ensures |stack| > 0 && -1 <= index < |stack| && p.composite == SourceOver && p.alpha == 1.0 ==>
      r == Effect(stack, index)
    ensures |stack| > 0 && index == -1 ==> r == []
    ensures |stack| == 0 && current != [] ==> r != Effect(stack, -1)
  {
    if |stack| == 0 then current
    else if 0 <= index < |stack| then DrawOnCleared(stack[index], p)
    else if index == -1 then []
    else current
  }

  /** The restore effect as evidently intended: the entry under the cursor, or empty at -1. */
  function Effect(stack: seq<Surface>, index: int): (r: Surface)
    requires -1 <= index < |stack|
    ensures index == -1 ==> r == []
    ensures index >= 0 ==> r == stack[index]
  {
    if index >= 0 then stack[index] else []
  }

  /** As written, clearing the history leaves whatever was drawn on the surface. */
  lemma ClearKeepsDrawing(current: Surface, p: Paint)
    ensures var h := App.Initial<Surface>();
      EffectAsWritten(current, p, h.stack, h.index) == current
  {
  }

  /**
   * As written, the restore that follows an eraser stroke's record draws the
   * new snapshot with 'destination-out' over a cleared surface: the surface
   * ends up empty although the recorded snapshot is not.
   */
  lemma EraserRecordBlanksSurface(h: App.Log<Surface>, s: Surface, style: Style)
    requires h.Valid()
    ensures var r := App.Recorded(h, s);
      EffectAsWritten(s, StrokePaint(Eraser, style), r.stack, r.index) == []
  {
  }

  /**
   * As written, the restore that follows a highlighter stroke's record draws
   * the new snapshot at alpha 0.4: the surface becomes a faded copy of it.
   */
  lemma HighlighterRecordFadesSurface(h: App.Log<Surface>, s: Surface, style: Style)
    requires h.Valid() && s != []
    ensures var r := App.Recorded(h, s);
      var after := EffectAsWritten(s, StrokePaint(Highlighter, style), r.stack, r.index);
      after == [Image(s, 0.4)] && after != s
  {
    var after := [Image(s, 0.4)];
    assert after[0].content == s;
    assert |after| == 1;
  }

  /** The corrected effect after a record shows exactly what was just recorded. */
  lemma EffectAfterRecord(h: App.Log<Surface>, s: Surface)
    requires h.Valid()
    ensures var r := App.Recorded(h, s); Effect(r.stack, r.index) == s
  {
  }

  /** The corrected effect after a clear shows an empty surface. */
  lemma EffectAfterClear()
    ensures Effect([], -1) == []
  {
  }

  /**
   * Surfaces under the corrected effect obey the undo/redo inverse law: after
   * committing the surfaces ss, |ss| undos show the surface shown before the
   * commits (empty from the initial state), and |ss| redos show the last commit.
   */
  lemma ReplayReproducesSurfaces(h: App.Log<Surface>, ss: seq<Surface>)
    requires h.Valid() && ss != []
    ensures var f := App.RecordAll(h, ss);
      var u := App.UndoTimes(f, |ss|);
      && Effect(u.stack, u.index) == Effect(h.stack, h.index)
      && Effect(App.RedoTimes(u, |ss|).stack, App.RedoTimes(u, |ss|).index) == ss[|ss| - 1]
  {
    var f := App.RecordAll(h, ss);
    App.RecordAllAppends(h, ss);
    App.UndoRedoInverse(h, ss);
    var u := App.UndoTimes(f, |ss|);
    assert f.stack == h.stack[..h.index + 1] + ss;
    if h.index >= 0 {
      assert u.stack[h.index] == h.stack[h.index];
    }
    assert f.stack[f.index] == ss[|ss| - 1];
  }
}
