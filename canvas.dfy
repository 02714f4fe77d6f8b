/**
 * The gesture and text state machine of CanvasLayer.tsx: pointer down, move,
 * up and leave, the text overlay's commit rules, and the effect that applies
 * the history cursor to the main surface.
 */
module Canvas {
  import opened Wrappers
  import opened Types
  import opened Raster
  import JsString
  import App

  /**
   * The component's state: its gesture flags and positions, the main
   * surface with the part of its context state the component sets, the
   * current path, the preview surface, and the history it reports commits to.
   */
  class CanvasLayer<Img> {
    /** App's history; onSnapshotUpdate is its Record. */
    const history: App.History<Surface, Img>
    /** Where the canvas sits on the page. */
    const rect: Rect

    var isDrawing: bool
    var startPos: Point
    var isTyping: bool
    var textPos: Point
    var textContent: string

    /** The main surface. */
    var surface: Surface
    /** The main context's state. */
    var paint: Paint
    /** The main context's current path. */
    var path: seq<Point>
    /** The preview surface: empty, or the one shape last drawn on it. */
    var preview: Option<Shape>

    constructor (history: App.History<Surface, Img>, rect: Rect)
      ensures this.history == history && this.rect == rect
      ensures !isDrawing && startPos == Point(0, 0)
      ensures !isTyping && textPos == Point(0, 0) && textContent == ""
      ensures surface == [] && paint == InitialPaint && path == [] && preview == None
    {
      this.history := history;
      this.rect := rect;
      isDrawing := false;
      startPos := Point(0, 0);
      isTyping := false;
      textPos := Point(0, 0);
      textContent := "";
      surface := [];
      paint := InitialPaint;
      path := [];
      preview := None;
    }

    /**
     * What finishText does to the surface, the context and the history: an
     * open session with non-blank content draws its lines, sets the context
     * to opaque painting and records exactly one snapshot; anything else
     * changes none of them.
     */
    twostate predicate TextCommitted(style: Style)
      reads this`surface, this`paint, history
      ensures TextCommitted(style) ==>
        (|surface| > |old(surface)| <==> old(isTyping) && !JsString.IsBlank(old(textContent)))
    {
      var commit := old(isTyping) && !JsString.IsBlank(old(textContent));
      && (commit ==>
            && surface == old(surface) + TextLayout(JsString.Split(old(textContent), '\n'), old(textPos), style)
            && paint == old(paint).(alpha := 1.0, composite := SourceOver)
            && old(history.State()).Valid()
            && history.State() == App.Recorded(old(history.State()), surface)
            && history.bg == old(history.bg))
      && (!commit ==> surface == old(surface) && paint == old(paint) && unchanged(history))
    }

    /** The forEach of finishText: line i goes i line heights below the anchor. */
    method FillLines(lines: seq<string>, style: Style)
      modifies this`surface
      ensures surface == old(surface) + TextLayout(lines, textPos, style)
    {
      var fontSize := FontSize(style.width);
      var lineHeight := LineHeight(style.width);
      ghost var layout := TextLayout(lines, textPos, style);
      var i := 0;
      while i < |lines|
        invariant 0 <= i <= |lines|
        invariant surface == old(surface) + layout[..i]
      {
        surface := surface + [TextLine(lines[i], Point(textPos.x, textPos.y + i * lineHeight), fontSize, style.color)];
        assert layout[..i + 1] == layout[..i] + [layout[i]];
        i := i + 1;
      }
      assert layout[..|lines|] == layout;
    }

    /** finishText: commit the open text session, if any, and close it. */
    method FinishText(style: Style)
      requires history.Valid()
      modifies this`isTyping, this`textContent, this`surface, this`paint, history
      ensures history.Valid()
      ensures TextCommitted(style)
      ensures !isTyping && textContent == ""
    {
      if !isTyping || JsString.IsBlank(textContent) {
        isTyping := false;
        textContent := "";
        return;
      }
      paint := paint.(alpha := 1.0, composite := SourceOver);
      var lines := JsString.Split(textContent, '\n');
      FillLines(lines, style);
      history.Record(surface);
      isTyping := false;
      textContent := "";
    }

    /** The text branch of startDrawing: commit an open session, then open an empty one at p. */
    method BeginText(style: Style, p: Point)
      requires history.Valid()
      modifies this`isTyping, this`textContent, this`surface, this`paint, this`startPos, this`textPos, history
      ensures history.Valid()
      ensures TextCommitted(style)
      ensures isTyping && textContent == "" && textPos == p && startPos == p
    {
      if isTyping {
        FinishText(style);
      }
      startPos := p;
      textPos := p;
      isTyping := true;
      textContent := "";
    }

    /**
     * startDrawing (pointer down). The cursor tool ignores it. The text tool
     * commits an open session, then opens a new empty one at the point.
     * Every other tool starts a stroke at the point with the tool's paint.
     */
    method StartDrawing(tool: Tool, style: Style, e: Point)
      requires history.Valid()
      modifies this, history
      ensures history.Valid()
      ensures tool == Cursor ==> unchanged(this) && unchanged(history)
      ensures tool == Text ==>
        var p := MousePos(e, Some(rect));
        && TextCommitted(style)
        && isTyping && textContent == "" && textPos == p && startPos == p
        && isDrawing == old(isDrawing) && path == old(path) && preview == old(preview)
      ensures tool != Cursor && tool != Text ==>
        var p := MousePos(e, Some(rect));
        && isDrawing && startPos == p && path == [p] && paint == StrokePaint(tool, style)
        && isTyping == old(isTyping) && textPos == old(textPos) && textContent == old(textContent)
        && surface == old(surface) && preview == old(preview) && unchanged(history)
    {
      if tool == Cursor {
        return;
      }
      var p := MousePos(e, Some(rect));
      if tool == Text {
        BeginText(style, p);
        return;
      }
      startPos := p;
      isDrawing := true;
      path := [p];
      paint := StrokePaint(tool, style);
    }

    /**
     * draw (pointer move) while a gesture is open and the tool is neither the
     * cursor nor text. A freehand tool extends the path and strokes it onto the
     * main surface; any other tool replaces the preview with the drag's shape.
     */
    method Draw(tool: Tool, style: Style, e: Point)
      modifies this`path, this`surface, this`preview
      ensures !old(isDrawing) || tool == Cursor || tool == Text ==>
        path == old(path) && surface == old(surface) && preview == old(preview)
      ensures old(isDrawing) && IsFreehand(tool) ==>
        && path == old(path) + [MousePos(e, Some(rect))]
        && surface == old(surface) + [Stroke(paint, path)]
        && preview == old(preview)
      ensures old(isDrawing) && tool != Cursor && tool != Text && !IsFreehand(tool) ==>
        && preview == PreviewShape(tool, startPos, MousePos(e, Some(rect)), style)
        && surface == old(surface) && path == old(path)
    {
      if !isDrawing || tool == Cursor || tool == Text {
        return;
      }
      var p := MousePos(e, Some(rect));
      if IsFreehand(tool) {
        path := path + [p];
        surface := surface + [Stroke(paint, path)];
      } else {
        preview := PreviewShape(tool, startPos, p, style);
      }
    }

    /**
     * stopDrawing (pointer up and pointer leave). No-op unless a gesture is
     * open; otherwise close it, composite and clear the preview when the
     * current tool is a shape tool, and record exactly one snapshot.
     */
    method StopDrawing(tool: Tool)
      requires history.Valid()
      modifies this`isDrawing, this`surface, this`preview, this`paint, history
      ensures history.Valid()
      ensures !old(isDrawing) ==> unchanged(this) && unchanged(history)
      ensures old(isDrawing) ==>
        && !isDrawing
        && (IsShape(tool) ==>
              && surface == old(surface) + PreviewOps(old(preview))
              && preview == None
              && paint == old(paint).(alpha := 1.0, composite := SourceOver))
        && (!IsShape(tool) ==>
              surface == old(surface) && preview == old(preview) && paint == old(paint))
        && history.State() == App.Recorded(old(history.State()), surface)
        && history.bg == old(history.bg)
    {
      if !isDrawing {
        return;
      }
      isDrawing := false;
      if IsShape(tool) {
        paint := paint.(alpha := 1.0, composite := SourceOver);
        surface := surface + PreviewOps(preview);
        preview := None;
      }
      history.Record(surface);
    }

    /** The text box's onChange: the typed content replaces the session's content. */
    method TypeText(value: string)
      requires isTyping
      modifies this`textContent
      ensures textContent == value
    {
      textContent := value;
    }

    /** The text box's onKeyDown: Enter without Shift commits; Shift+Enter and other keys do not. */
    method KeyDown(key: string, shift: bool, style: Style)
      requires history.Valid()
      modifies this`isTyping, this`textContent, this`surface, this`paint, history
      ensures history.Valid()
      ensures key == "Enter" && !shift ==> TextCommitted(style) && !isTyping && textContent == ""
      ensures !(key == "Enter" && !shift) ==> unchanged(this) && unchanged(history)
    {
      if key == "Enter" && !shift {
        FinishText(style);
      }
    }

    /**
     * The history-restore effect as written, run after the stack or the
     * cursor changes; the restore draws under the context state left behind.
     */
    method SyncHistoryAsWritten()
      modifies this`surface
      ensures surface == EffectAsWritten(old(surface), paint, history.stack, history.index)
    {
      if |history.stack| == 0 {
        return;
      }
      var index := history.index;
      if 0 <= index < |history.stack| {
        surface := [];
        surface := DrawOnCleared(history.stack[index], paint);
      } else if index == -1 {
        surface := [];
      }
    }

    /**
     * The history-restore effect as evidently intended: the entry under the
     * cursor drawn opaquely, or an empty surface at -1, also after a clear.
     */
    method SyncHistory()
      requires history.Valid()
      modifies this`surface
      ensures surface == Effect(history.stack, history.index)
    {
      if history.index >= 0 {
        surface := history.stack[history.index];
      } else {
        surface := [];
      }
    }
  }

  /** A pen stroke from (10, 10) to (10, 50) is painted as it goes and recorded once on release. */
  method PenStroke(style: Style)
  {
    var h := new App.History<Surface, string>();
    var c := new CanvasLayer(h, Rect(0, 0));
    c.StartDrawing(Pen, style, Point(10, 10));
    assert c.path == [Point(10, 10)] && c.surface == [];
    c.Draw(Pen, style, Point(10, 50));
    assert c.path == [Point(10, 10), Point(10, 50)];
    c.StopDrawing(Pen);
    assert c.surface == [Stroke(StrokePaint(Pen, style), [Point(10, 10), Point(10, 50)])];
    assert h.stack == [c.surface] && h.index == 0;
  }

  /**
   * A rectangle dragged from (0, 0) to (20, 20) stays on the preview until
   * release, which composites it and records it as the first snapshot.
   */
  method RectangleDrag(style: Style)
  {
    var h := new App.History<Surface, string>();
    var c := new CanvasLayer(h, Rect(0, 0));
    c.StartDrawing(Rectangle, style, Point(0, 0));
    c.Draw(Rectangle, style, Point(20, 20));
    var box := Shape(Box(Point(0, 0), 20, 20), style.width, style.color);
    assert c.surface == [] && c.preview == Some(box);
    c.StopDrawing(Rectangle);
    assert c.surface == [ShapeImage(box)] && c.preview == None;
    assert h.stack == [c.surface] && h.index == 0;
  }

  /**
   * From two recorded surfaces: undo shows the first, undo again shows the
   * empty surface, and two redos show the second exactly.
   */
  method UndoTwiceRedoTwice(first: Surface, second: Surface)
  {
    var h := new App.History<Surface, string>();
    var c := new CanvasLayer(h, Rect(0, 0));
    h.Record(first);
    h.Record(second);
    assert h.stack == [first, second] && h.index == 1;
    h.Undo();
    c.SyncHistory();
    assert h.index == 0 && c.surface == first;
    h.Undo();
    c.SyncHistory();
    assert h.index == -1 && c.surface == [];
    h.Redo();
    h.Redo();
    c.SyncHistory();
    assert h.index == 1 && c.surface == second;
  }

  /**
   * As written, an eraser stroke is recorded, and the restore that follows
   * the record leaves the main surface empty, unlike the snapshot it restores.
   */
  method EraserStrokeVanishes(style: Style)
  {
    var h := new App.History<Surface, string>();
    var c := new CanvasLayer(h, Rect(0, 0));
    c.StartDrawing(Eraser, style, Point(5, 5));
    c.Draw(Eraser, style, Point(5, 25));
    c.StopDrawing(Eraser);
    assert |h.stack| == 1 && h.stack[0] != [];
    assert c.paint.composite == DestinationOut;
    c.SyncHistoryAsWritten();
    assert c.surface == [];
  }

  /**
   * As written, clearing after a pen stroke empties the history but the
   * restore that follows returns early: the stroke stays on the surface.
   */
  method ClearThenSyncAsWritten(style: Style)
  {
    var h := new App.History<Surface, string>();
    var c := new CanvasLayer(h, Rect(0, 0));
    c.StartDrawing(Pen, style, Point(1, 1));
    c.Draw(Pen, style, Point(1, 9));
    c.StopDrawing(Pen);
    var drawn := c.surface;
    assert drawn != [];
    h.Clear();
    c.SyncHistoryAsWritten();
    assert h.stack == [] && h.index == -1;
    assert c.surface == drawn;
  }

  /** With the corrected restore, clearing after a pen stroke leaves an empty surface. */
  method ClearThenSync(style: Style)
  {
    var h := new App.History<Surface, string>();
    var c := new CanvasLayer(h, Rect(0, 0));
    c.StartDrawing(Pen, style, Point(1, 1));
    c.Draw(Pen, style, Point(1, 9));
    c.StopDrawing(Pen);
    assert c.surface != [];
    h.Clear();
    c.SyncHistory();
    assert h.stack == [] && h.index == -1;
    assert c.surface == [];
  }
}
