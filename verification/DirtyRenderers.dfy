/** DirtyRenderer of backend/renderer/DirtyRenderer.js: drawing marks rectangles, rendering writes only
    what changed inside them. */
module DirtyRenderers {
  import opened FrameBuffers
  import opened Terminals
  import opened DirtyRects
  import opened RenderOutput
  import opened Wrappers

  /** Whatever terminal of sufficient size shows the first picture shows the second one after obeying
      the output. */
  ghost predicate Brings(output: seq<Token>, shown: Picture, wanted: Picture, width: nat, height: nat)
    requires Sized(shown, width, height) && Sized(wanted, width, height)
  {
    forall t: Terminal :: Fits(t, width, height) && Shows(t, shown, width, height) ==>
      Shows(Interpret(output, t), wanted, width, height)
  }

  /** What obeying some output does to the area of the frame: with a full frame every cell shows the wanted
      picture, otherwise the cells where the pictures differ do, and the others stay as they are. */
  ghost predicate Painted(t: Terminal, t': Terminal, shown: Picture, wanted: Picture, full: bool, width: nat, height: nat)
    requires Sized(shown, width, height) && Sized(wanted, width, height)
  {
    && SameSize(t, t')
    && forall u, v :: 0 <= u < width && 0 <= v < height ==>
      Look(t', u, v) == if full || shown[v][u] != wanted[v][u] then Some(wanted[v][u].ch) else Look(t, u, v)
  }

  ghost predicate Paints(output: seq<Token>, shown: Picture, wanted: Picture, full: bool, width: nat, height: nat)
    requires Sized(shown, width, height) && Sized(wanted, width, height)
  {
    forall t: Terminal :: Fits(t, width, height) ==> Painted(t, Interpret(output, t), shown, wanted, full, width, height)
  }

  lemma PaintsBrings(output: seq<Token>, shown: Picture, wanted: Picture, full: bool, width: nat, height: nat)
    requires Sized(shown, width, height) && Sized(wanted, width, height) && Paints(output, shown, wanted, full, width, height)
    ensures Brings(output, shown, wanted, width, height)
  {
    hide Interpret;
    forall t: Terminal | Fits(t, width, height) && Shows(t, shown, width, height)
      ensures Shows(Interpret(output, t), wanted, width, height)
    {
      assert Painted(t, Interpret(output, t), shown, wanted, full, width, height);
    }
  }

  lemma {:induction false} SizeStays(tokens: seq<Token>, t: Terminal)
    ensures SameSize(t, Interpret(tokens, t))
  {
    if tokens != [] {
      SizeStays(tokens[..|tokens| - 1], t);
    }
  }

  /** All cells blank. */
  function BlankPicture(width: nat, height: nat): (p: Picture)
    ensures Sized(p, width, height) && forall v, u :: 0 <= v < height && 0 <= u < width ==> p[v][u] == BLANK
  {
    seq(height, v requires 0 <= v < height => seq(width, u requires 0 <= u < width => BLANK))
  }

  function TotalArea(rects: seq<Rect>): int {
    if rects == [] then 0 else TotalArea(rects[..|rects| - 1]) + rects[|rects| - 1].width * rects[|rects| - 1].height
  }

  lemma {:induction false} AppendInside(rects: seq<Rect>, r: Rect)
    ensures forall u, v :: InsideAny(rects + [r], u, v) <==> InsideAny(rects, u, v) || Inside(r, u, v)
  {
    forall u, v ensures InsideAny(rects + [r], u, v) <==> InsideAny(rects, u, v) || Inside(r, u, v) {
      InsideAppend(rects, r, u, v);
    }
  }

  lemma PartialPaintsChanges(cur: Picture, prev: Picture, rects: seq<Rect>, t: Terminal, width: nat, height: nat)
    requires Sized(cur, width, height) && Sized(prev, width, height) && Fits(t, width, height) && AllWithin(cur, prev, rects)
    requires forall u, v :: Differs(cur, prev, u, v) ==> InsideAny(rects, u, v)
    ensures Painted(t, Interpret(DirtyTokens(cur, prev, rects), t), prev, cur, false, width, height)
  {
    hide InsideAny, AllWithin, DirtyTokens, Interpret;
    DirtyEffect(cur, prev, rects, t);
  }

  class DirtyRenderer {
    var width: nat
    var height: nat
    var currentFrame: FrameBuffer
    var previousFrame: FrameBuffer
    var dirtyRects: seq<Rect>
    var isEnabled: bool
    var frames: nat
    var dirtyFrames: nat
    var fullFrames: nat
    var totalRects: nat

    ghost predicate Valid()
      reads `width, `height, `currentFrame, `previousFrame, `dirtyRects
    {
      && currentFrame.Valid() && previousFrame.Valid() && currentFrame.buffer != previousFrame.buffer
      && currentFrame.width == previousFrame.width == width && currentFrame.height == previousFrame.height == height
      && AllOnScreen(dirtyRects, width, height)
    }

    /** Every cell where the frames differ lies in a dirty rectangle. */
    ghost predicate Covered()
      requires Valid()
      reads `width, `height, `currentFrame, `previousFrame, `dirtyRects, currentFrame.buffer, previousFrame.buffer
    {
      forall v, u :: 0 <= v < height && 0 <= u < width && currentFrame.buffer[v, u] != previousFrame.buffer[v, u] ==>
        InsideAny(dirtyRects, u, v)
    }

    ghost function Current(): (p: Picture)
      requires Valid()
      reads `width, `height, `currentFrame, `previousFrame, `dirtyRects, currentFrame.buffer
      ensures Sized(p, width, height)
    {
      currentFrame.Contents()
    }

    ghost function Previous(): (p: Picture)
      requires Valid()
      reads `width, `height, `currentFrame, `previousFrame, `dirtyRects, previousFrame.buffer
      ensures Sized(p, width, height)
    {
      previousFrame.Contents()
    }

    constructor (width: nat, height: nat)
      ensures Valid() && Covered() && isEnabled && frames == 0 && fresh(currentFrame.buffer) && fresh(previousFrame.buffer)
      ensures this.width == width && this.height == height && dirtyRects == []
      ensures Current() == BlankPicture(width, height) == Previous()
    {
      this.width, this.height := width, height;
      currentFrame := new FrameBuffer(width, height);
      previousFrame := new FrameBuffer(width, height);
      dirtyRects, isEnabled := [], true;
      frames, dirtyFrames, fullFrames, totalRects := 0, 0, 0, 0;
      new;
      SamePicture(Current(), BlankPicture(width, height), width, height);
      SamePicture(Previous(), BlankPicture(width, height), width, height);
    }

    /** markDirty adds exactly the part of the rectangle that is on the screen. */
    method MarkDirty(x: int, y: int, w: int, h: int)
      requires Valid()
      modifies `dirtyRects
      ensures Valid()
      ensures forall u, v :: InsideAny(dirtyRects, u, v) <==>
        InsideAny(old(dirtyRects), u, v) || (Inside(Rect(x, y, w, h), u, v) && 0 <= u < width && 0 <= v < height)
      ensures dirtyRects == old(dirtyRects) || dirtyRects == old(dirtyRects) + [Clip(x, y, w, h, width, height)]
    {
      var rect := Clip(x, y, w, h, width, height);
      forall u, v ensures Inside(rect, u, v) <==> Inside(Rect(x, y, w, h), u, v) && 0 <= u < width && 0 <= v < height {
        ClipIsIntersection(x, y, w, h, width, height, u, v);
      }
      if rect.width <= 0 || rect.height <= 0 {
        return;
      }
      AppendInside(dirtyRects, rect);
      dirtyRects := dirtyRects + [rect];
    }

    /** Drawing one pixel. While enabled, the coverage is kept. A disabled renderer marks nothing, and keeps
        it exactly when the cell is off the screen, marked already, or drawn as it was shown. */
    method SetPixel(x: int, y: int, ch: char, fg: Attribute, bg: Attribute, style: Attribute) returns (changed: bool)
      requires Valid()
      modifies `dirtyRects, currentFrame.buffer
      ensures Valid() && (isEnabled && old(Covered()) ==> Covered())
      ensures changed <==> !isEnabled || (currentFrame.InFrame(x, y) && old(currentFrame.buffer[y, x]) != Pixel(ch, fg, bg, style))
      ensures forall v, u :: 0 <= v < height && 0 <= u < width ==>
        currentFrame.buffer[v, u] == if u == x && v == y then Pixel(ch, fg, bg, style) else old(currentFrame.buffer[v, u])
      ensures !isEnabled ==> dirtyRects == old(dirtyRects)
      ensures !isEnabled && old(Covered()) ==>
        (Covered() <==> !currentFrame.InFrame(x, y) || InsideAny(dirtyRects, x, y)
                        || previousFrame.buffer[y, x] == Pixel(ch, fg, bg, style))
      ensures old(dirtyRects) == [] ==> |dirtyRects| <= 1 && TotalArea(dirtyRects) <= 1
    {
      hide InsideAny, Inside;
      changed := currentFrame.SetPixel(x, y, ch, fg, bg, style);
      if !isEnabled {
        return true;
      }
      if changed {
        OneCell(x, y);
        MarkDirty(x, y, 1, 1);
        assert [] + [Clip(x, y, 1, 1, width, height)] == [Clip(x, y, 1, 1, width, height)];
        OneRectArea(Clip(x, y, 1, 1, width, height));
      }
    }

    lemma OneRectArea(r: Rect)
      ensures TotalArea([r]) == r.width * r.height
      ensures 0 <= r.width <= 1 && 0 <= r.height <= 1 ==> TotalArea([r]) <= 1
    {
      assert [r][..0] == [];
    }

    method SetRow(y: int, rowData: seq<Pixel>) returns (changed: bool)
      requires Valid()
      modifies `dirtyRects, currentFrame.buffer
      ensures Valid() && (isEnabled && old(Covered()) ==> Covered())
      ensures forall v, u :: 0 <= v < height && 0 <= u < width ==>
        currentFrame.buffer[v, u] == if v == y && u < |rowData| then rowData[u] else old(currentFrame.buffer[v, u])
      ensures !isEnabled ==> changed && dirtyRects == old(dirtyRects)
      ensures !isEnabled && old(Covered()) ==>
        (Covered() <==> forall u :: 0 <= u < width && u < |rowData| && 0 <= y < height ==>
          InsideAny(dirtyRects, u, y) || previousFrame.buffer[y, u] == rowData[u])
    {
      hide InsideAny;
      changed := currentFrame.SetRow(y, rowData);
      if !isEnabled {
        return true;
      }
      if changed {
        MarkDirty(0, y, width, 1);
      }
    }

    method SetRegion(x: int, y: int, w: int, h: int, data: seq<seq<Option<Pixel>>>) returns (changed: bool)
      requires Valid()
      modifies `dirtyRects, currentFrame.buffer
      ensures Valid() && (isEnabled && old(Covered()) ==> Covered())
      ensures forall v, u :: 0 <= v < height && 0 <= u < width ==>
        currentFrame.buffer[v, u] ==
          var c := currentFrame.RegionCell(x, y, w, h, data, u, v); if c.Some? then c.value else old(currentFrame.buffer[v, u])
      ensures !isEnabled ==> changed && dirtyRects == old(dirtyRects)
      ensures !isEnabled && old(Covered()) ==>
        (Covered() <==> forall v, u :: 0 <= v < height && 0 <= u < width ==>
          var c := currentFrame.RegionCell(x, y, w, h, data, u, v);
          c.None? || InsideAny(dirtyRects, u, v) || previousFrame.buffer[v, u] == c.value)
    {
      hide InsideAny;
      changed := currentFrame.SetRegion(x, y, w, h, data);
      if !isEnabled {
        return true;
      }
      if changed {
        MarkDirty(x, y, w, h);
      }
    }

    /** clear and fill mark the whole screen, enabled or not. */
    method Clear(character: char) returns (changed: bool)
      requires Valid()
      modifies `dirtyRects, currentFrame.buffer
      ensures Valid() && (old(Covered()) ==> Covered())
      ensures forall v, u :: 0 <= v < height && 0 <= u < width ==> currentFrame.buffer[v, u] == Pixel(character, Null, Null, Null)
    {
      changed := currentFrame.Clear(character);
      if changed {
        MarkDirty(0, 0, width, height);
      }
    }

    method Fill(character: char, fg: Attribute, bg: Attribute, style: Attribute) returns (changed: bool)
      requires Valid()
      modifies `dirtyRects, currentFrame.buffer
      ensures Valid() && (old(Covered()) ==> Covered())
      ensures forall v, u :: 0 <= v < height && 0 <= u < width ==> currentFrame.buffer[v, u] == Pixel(character, fg, bg, style)
    {
      changed := currentFrame.Fill(character, fg, bg, style);
      if changed {
        MarkDirty(0, 0, width, height);
      }
    }

    lemma OneCell(x: int, y: int)
      ensures forall u, v :: Inside(Rect(x, y, 1, 1), u, v) <==> u == x && v == y
    {
    }

    /** resize starts over with two blank frames, nothing dirty. */
    method Resize(newWidth: nat, newHeight: nat)
      requires Valid()
      modifies this
      ensures Valid() && Covered() && width == newWidth && height == newHeight && dirtyRects == []
      ensures isEnabled == old(isEnabled) && frames == old(frames)
      ensures fresh(currentFrame) && fresh(currentFrame.buffer) && fresh(previousFrame.buffer)
      ensures Current() == BlankPicture(newWidth, newHeight) == Previous()
    {
      width, height := newWidth, newHeight;
      currentFrame := new FrameBuffer(newWidth, newHeight);
      previousFrame := new FrameBuffer(newWidth, newHeight);
      dirtyRects := [];
      SamePicture(Current(), BlankPicture(newWidth, newHeight), newWidth, newHeight);
      SamePicture(Previous(), BlankPicture(newWidth, newHeight), newWidth, newHeight);
    }

    method Enable()
      requires Valid()
      modifies `isEnabled
      ensures Valid() && isEnabled && (old(Covered()) ==> Covered())
    {
      isEnabled := true;
    }

    method Disable()
      requires Valid()
      modifies `isEnabled
      ensures Valid() && !isEnabled && (old(Covered()) ==> Covered())
    {
      isEnabled := false;
    }

    // ---- rendering --------------------------------------------------------

    /** The rule for drawing everything: the first frame, many rectangles, or half the screen. */
    predicate NeedsFull()
      reads this
    {
      frames == 1 || |dirtyRects| > 20 || 2 * TotalArea(dirtyRects) > width * height
    }

    /** Whether the next render writes the full frame. */
    predicate FullDue()
      reads this
    {
      dirtyRects != [] && (frames == 0 || |dirtyRects| > 20 || 2 * TotalArea(dirtyRects) > width * height)
    }

    method ShouldFullRender() returns (full: bool)
      ensures full <==> NeedsFull()
    {
      if frames == 1 {
        return true;
      }
      if |dirtyRects| > 20 {
        return true;
      }
      var totalArea := 0;
      for i := 0 to |dirtyRects|
        invariant totalArea == TotalArea(dirtyRects[..i])
      {
        assert dirtyRects[..i + 1][..i] == dirtyRects[..i];
        totalArea := totalArea + dirtyRects[i].width * dirtyRects[i].height;
      }
      assert dirtyRects[..|dirtyRects|] == dirtyRects;
      full := 2 * totalArea > width * height;
    }

    method RenderFullFrame() returns (output: seq<Token>)
      requires Valid()
      ensures output == FullTokens(Current())
    {
      hide Renditions;
      ghost var cur := Current();
      output := [Home];
      for y := 0 to height
        invariant output == [Home] + FullRows(cur, y)
      {
        ghost var before := output;
        for x := 0 to width
          invariant output == before + FullRow(cur[y], x)
        {
          var pixel := currentFrame.GetPixel(x, y);
          if pixel.Some? {
            output := output + Renditions(pixel.value);
            output := output + [Glyph(pixel.value.ch)];
          }
        }
        if y < height - 1 {
          output := output + [NewLine];
        }
      }
    }

    method RenderRect(rect: Rect) returns (output: seq<Token>)
      requires Valid() && OnScreen(rect, width, height)
      ensures Within(Current(), Previous(), rect) && output == RectTokens(Current(), Previous(), rect)
    {
      hide CellTokens, RectRows, RowTokens, Within;
      ghost var cur, prev := Current(), Previous();
      WithinFrame(rect);
      output := [MoveTo(rect.y + 1, rect.x + 1)];
      var y := rect.y;
      NoRows(cur, prev, rect);
      while y < rect.y + rect.height
        invariant rect.y <= y <= rect.y + rect.height
        invariant output == [MoveTo(rect.y + 1, rect.x + 1)] + RectRows(cur, prev, rect, y - rect.y)
      {
        RowsNext(cur, prev, rect, y - rect.y);
        ghost var before := output;
        if y > rect.y {
          output := output + [Down];
          output := output + [Column(rect.x + 1)];
          assert output == before + [Down, Column(rect.x + 1)];
        }
        var row := RenderRow(rect, y);
        output := output + row;
        y := y + 1;
      }
    }

    lemma NoRows(cur: Picture, prev: Picture, r: Rect)
      requires Within(cur, prev, r)
      ensures RectRows(cur, prev, r, 0) == []
    {
    }

    lemma RowsNext(cur: Picture, prev: Picture, r: Rect, n: nat)
      requires Within(cur, prev, r) && n < r.height
      ensures 0 <= r.y && 0 <= r.x && r.y + n < |cur| == |prev| && r.x + r.width <= |cur[r.y + n]| == |prev[r.y + n]| && r.width > 0
      ensures RectRows(cur, prev, r, n + 1) ==
        RectRows(cur, prev, r, n) + (if n > 0 then [Down, Column(r.x + 1)] else [])
        + RowTokens(cur[r.y + n], prev[r.y + n], r.x, r.width)
    {
      hide RowTokens;
    }

    lemma WithinFrame(rect: Rect)
      requires Valid() && OnScreen(rect, width, height)
      ensures Within(Current(), Previous(), rect)
    {
    }

    /** One row of a rectangle: the inner loop of renderRect. */
    method RenderRow(rect: Rect, y: int) returns (output: seq<Token>)
      requires Valid() && OnScreen(rect, width, height) && rect.y <= y < rect.y + rect.height
      ensures output == RowTokens(Current()[y], Previous()[y], rect.x, rect.width)
    {
      hide RowTokens, CellTokens, Renditions;
      ghost var cur, prev := Current()[y], Previous()[y];
      output := [];
      assert RowTokens(cur, prev, rect.x, 0) == [] by { NoCells(cur, prev, rect.x); }
      var x := rect.x;
      while x < rect.x + rect.width
        invariant rect.x <= x <= rect.x + rect.width
        invariant output == RowTokens(cur, prev, rect.x, x - rect.x)
      {
        var pixel := currentFrame.GetPixel(x, y);
        if pixel.Some? {
          var prevPixel := previousFrame.GetPixel(x, y);
          var p := pixel.value;
          RowNext(cur, prev, rect.x, x - rect.x);
          CellIs(p, prev[x]);
          if prevPixel.None? || prevPixel.value.ch != p.ch || prevPixel.value.fg != p.fg
             || prevPixel.value.bg != p.bg || prevPixel.value.style != p.style {
            output := output + (Renditions(p) + [Glyph(p.ch)]);
          } else {
            output := output + [Forward];
          }
        }
        x := x + 1;
      }
    }

    lemma RowNext(cur: seq<Pixel>, prev: seq<Pixel>, x: nat, n: nat)
      requires x + n < |cur| == |prev|
      ensures RowTokens(cur, prev, x, n + 1) == RowTokens(cur, prev, x, n) + CellTokens(cur[x + n], prev[x + n])
    {
      hide CellTokens;
    }

    lemma NoCells(cur: seq<Pixel>, prev: seq<Pixel>, x: nat)
      requires x <= |cur| == |prev|
      ensures RowTokens(cur, prev, x, 0) == []
    {
    }

    lemma CellIs(p: Pixel, prev: Pixel)
      ensures CellTokens(p, prev) ==
        if prev.ch != p.ch || prev.fg != p.fg || prev.bg != p.bg || prev.style != p.style
        then Renditions(p) + [Glyph(p.ch)] else [Forward]
    {
      hide Renditions;
    }

    method RenderDirtyRects(rects: seq<Rect>) returns (output: seq<Token>)
      requires Valid() && AllOnScreen(rects, width, height)
      ensures AllWithin(Current(), Previous(), rects) && output == DirtyTokens(Current(), Previous(), rects)
    {
      hide RectTokens, Within;
      output := [];
      forall i | 0 <= i < |rects| ensures Within(Current(), Previous(), rects[i]) {
        WithinFrame(rects[i]);
      }
      for i := 0 to |rects|
        invariant output == DirtyTokens(Current(), Previous(), rects[..i])
      {
        assert rects[..i + 1][..i] == rects[..i];
        var one := RenderRect(rects[i]);
        output := output + one;
      }
      assert rects[..|rects|] == rects;
    }

    /** render. If the coverage holds, the output repaints the full frame or exactly the changed cells, and so
        brings a terminal from the previous picture to the current one; the current picture becomes the
        previous one. */
    method Render() returns (output: seq<Token>)
      requires Valid()
      modifies this
      ensures Valid() && width == old(width) && height == old(height) && currentFrame == old(currentFrame)
      ensures isEnabled == old(isEnabled) && frames == old(frames) + 1 && Current() == old(Current())
      ensures old(Covered()) ==> Paints(output, old(Previous()), Current(), old(FullDue()), width, height)
      ensures old(Covered()) ==> Brings(output, old(Previous()), Current(), width, height)
      ensures old(Covered()) ==> Covered() && Previous() == Current()
      ensures old(dirtyRects) == [] ==> output == [] && previousFrame == old(previousFrame)
      ensures old(FullDue()) ==> output == FullTokens(Current())
      ensures dirtyRects == []
    {
      hide Brings, Paints, InsideAny, AllWithin, FullTokens, DirtyTokens, Disjoint, Covers, Sized, OnScreen, TotalArea, Covered, AllOnScreen, FrameBuffer.Contents;
      ghost var due := FullDue();
      frames := frames + 1;
      assert dirtyRects != [] ==> NeedsFull() == due;
      hide FullDue, NeedsFull;
      var mergedRects := MergeDirtyRects(dirtyRects, width, height);
      output := [];
      if |mergedRects| == 0 {
        if old(Covered()) {
          NothingChanged();
          PaintsBrings([], Previous(), Current(), false, width, height);
        }
        return;
      }
      output := ChooseOutput(mergedRects);
      if Covered() {
        PaintsBrings(output, Previous(), Current(), NeedsFull(), width, height);
      }
      totalRects := totalRects + |mergedRects|;
      KeepAsPrevious();
    }

    /** The end of render: the current frame is stored as the previous one. */
    method KeepAsPrevious()
      requires Valid()
      modifies `previousFrame, `dirtyRects
      ensures Valid() && Covered() && dirtyRects == [] && Current() == old(Current()) && Previous() == Current()
    {
      previousFrame := currentFrame.Clone();
      dirtyRects := [];
      SameCovered();
    }

    /** Full or partial output. */
    method ChooseOutput(rects: seq<Rect>) returns (output: seq<Token>)
      requires Valid() && AllOnScreen(rects, width, height) && Covers(rects, dirtyRects)
      modifies `fullFrames, `dirtyFrames
      ensures Covered() ==> Paints(output, Previous(), Current(), NeedsFull(), width, height)
      ensures NeedsFull() ==> fullFrames == old(fullFrames) + 1 && output == FullTokens(Current())
      ensures !NeedsFull() ==> dirtyFrames == old(dirtyFrames) + 1
    {
      hide Paints, InsideAny, AllWithin, FullTokens, DirtyTokens, Covers;
      var full := ShouldFullRender();
      if full {
        output := RenderFullFrame();
        fullFrames := fullFrames + 1;
        FullPaints();
      } else {
        output := RenderDirtyRects(rects);
        dirtyFrames := dirtyFrames + 1;
        if Covered() {
          PartialPaints(rects);
        }
      }
    }

    /** With no dirty rectangle and full coverage the frames are equal. */
    lemma NothingChanged()
      requires Valid() && dirtyRects == [] && Covered()
      ensures Previous() == Current() && Paints([], Previous(), Current(), false, width, height)
    {
      forall v, u | 0 <= v < height && 0 <= u < width ensures currentFrame.buffer[v, u] == previousFrame.buffer[v, u] {
        assert !InsideAny(dirtyRects, u, v);
      }
      SamePicture(Current(), Previous(), width, height);
    }

    lemma FullPaints()
      requires Valid()
      ensures Paints(FullTokens(Current()), Previous(), Current(), true, width, height)
    {
      hide FullTokens;
      forall t: Terminal | Fits(t, width, height)
        ensures Painted(t, Interpret(FullTokens(Current()), t), Previous(), Current(), true, width, height)
      {
        FullShowsCurrent(Current(), t, width, height);
        SizeStays(FullTokens(Current()), t);
        hide Interpret;
      }
    }

    lemma PartialPaints(rects: seq<Rect>)
      requires Valid() && Covered() && Covers(rects, dirtyRects) && AllWithin(Current(), Previous(), rects)
      ensures Paints(DirtyTokens(Current(), Previous(), rects), Previous(), Current(), false, width, height)
    {
      hide DirtyTokens, InsideAny, AllWithin, Covers, Interpret;
      var cur, prev := Current(), Previous();
      forall u, v | Differs(cur, prev, u, v) ensures InsideAny(rects, u, v) {
        assert currentFrame.buffer[v, u] != previousFrame.buffer[v, u];
        CoversCells(rects, dirtyRects, u, v);
      }
      forall t: Terminal | Fits(t, width, height)
        ensures Painted(t, Interpret(DirtyTokens(cur, prev, rects), t), prev, cur, false, width, height)
      {
        PartialPaintsChanges(cur, prev, rects, t, width, height);
      }
    }

    lemma SameCovered()
      requires Valid() && Previous() == Current()
      ensures Covered()
    {
      var cur, prev := currentFrame.Contents(), previousFrame.Contents();
      forall v, u | 0 <= v < height && 0 <= u < width ensures currentFrame.buffer[v, u] == previousFrame.buffer[v, u] {
        assert cur[v][u] == prev[v][u];
      }
    }
  }
}
