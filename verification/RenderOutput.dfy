/** The output of the renderer as control tokens, and what a terminal shows after obeying it. */
module RenderOutput {
  import opened FrameBuffers
  import opened Terminals
  import opened DirtyRects
  import opened Wrappers

  // ---- what is written ----------------------------------------------------

  /** getAnsiSequence: nothing for a null attribute. */
  function Renditions(p: Pixel): seq<Token> {
    (if p.fg != Null then [Rendition(Foreground, p.fg)] else [])
    + (if p.bg != Null then [Rendition(Background, p.bg)] else [])
    + (if p.style != Null then [Rendition(Style, p.style)] else [])
  }

  /** The attributes in force. */
  datatype Pen = Pen(fg: Attribute, bg: Attribute, style: Attribute)

  function Dipped(pen: Pen, token: Token): Pen {
    match token
    case Rendition(Foreground, a) => pen.(fg := a)
    case Rendition(Background, a) => pen.(bg := a)
    case Rendition(Style, a) => pen.(style := a)
    case _ => pen
  }

  function DippedAll(pen: Pen, tokens: seq<Token>): Pen {
    if tokens == [] then pen else Dipped(DippedAll(pen, tokens[..|tokens| - 1]), tokens[|tokens| - 1])
  }

  /** The sequence before a glyph brings exactly the attributes that the pixel has into force. */
  lemma RenditionsSet(p: Pixel, pen: Pen)
    ensures DippedAll(pen, Renditions(p)) ==
      Pen(if p.fg != Null then p.fg else pen.fg, if p.bg != Null then p.bg else pen.bg, if p.style != Null then p.style else pen.style)
  {
    var a := if p.fg != Null then [Rendition(Foreground, p.fg)] else [];
    var b := if p.bg != Null then [Rendition(Background, p.bg)] else [];
    var c := if p.style != Null then [Rendition(Style, p.style)] else [];
    DippedConcat(pen, a + b, c);
    DippedConcat(pen, a, b);
    DippedOne(DippedAll(pen, a + b), Rendition(Style, p.style));
    DippedOne(DippedAll(pen, a), Rendition(Background, p.bg));
    DippedOne(pen, Rendition(Foreground, p.fg));
  }

  lemma DippedOne(pen: Pen, token: Token)
    ensures DippedAll(pen, [token]) == Dipped(pen, token) && DippedAll(pen, []) == pen
  {
    assert [token][..0] == [];
  }

  lemma {:induction false} DippedConcat(pen: Pen, a: seq<Token>, b: seq<Token>)
    ensures DippedAll(pen, a + b) == DippedAll(DippedAll(pen, a), b)
  {
    if b == [] {
      assert a + b == a;
    } else {
      DippedConcat(pen, a, b[..|b| - 1]);
      assert (a + b)[..|a + b| - 1] == a + b[..|b| - 1];
    }
  }

  /** A changed pixel is printed; over an unchanged one the cursor moves on. */
  function CellTokens(cur: Pixel, prev: Pixel): seq<Token> {
    if cur != prev then Renditions(cur) + [Glyph(cur.ch)] else [Forward]
  }

  function RowTokens(cur: seq<Pixel>, prev: seq<Pixel>, x: nat, n: nat): seq<Token>
    requires x + n <= |cur| == |prev|
  {
    if n == 0 then [] else RowTokens(cur, prev, x, n - 1) + CellTokens(cur[x + n - 1], prev[x + n - 1])
  }

  ghost predicate Within(cur: Picture, prev: Picture, r: Rect) {
    && |cur| == |prev| && Sized(cur, if cur == [] then 0 else |cur[0]|, |cur|) && Sized(prev, if cur == [] then 0 else |cur[0]|, |cur|)
    && OnScreen(r, if cur == [] then 0 else |cur[0]|, |cur|)
  }

  /** The first n rows of a rectangle. */
  ghost function RectRows(cur: Picture, prev: Picture, r: Rect, n: nat): seq<Token>
    requires Within(cur, prev, r) && n <= r.height
  {
    if n == 0 then []
    else
      RectRows(cur, prev, r, n - 1) + (if n > 1 then [Down, Column(r.x + 1)] else [])
      + RowTokens(cur[r.y + n - 1], prev[r.y + n - 1], r.x, r.width)
  }

  ghost function RectTokens(cur: Picture, prev: Picture, r: Rect): seq<Token>
    requires Within(cur, prev, r)
  {
    [MoveTo(r.y + 1, r.x + 1)] + RectRows(cur, prev, r, r.height)
  }

  ghost predicate AllWithin(cur: Picture, prev: Picture, rects: seq<Rect>) {
    forall i :: 0 <= i < |rects| ==> Within(cur, prev, rects[i])
  }

  ghost function DirtyTokens(cur: Picture, prev: Picture, rects: seq<Rect>): seq<Token>
    requires AllWithin(cur, prev, rects)
  {
    if rects == [] then [] else DirtyTokens(cur, prev, rects[..|rects| - 1]) + RectTokens(cur, prev, rects[|rects| - 1])
  }

  function FullRow(cur: seq<Pixel>, n: nat): seq<Token>
    requires n <= |cur|
  {
    if n == 0 then [] else FullRow(cur, n - 1) + Renditions(cur[n - 1]) + [Glyph(cur[n - 1].ch)]
  }

  /** The first n rows of the frame, a newline after each but the last of the frame. */
  function FullRows(cur: Picture, n: nat): seq<Token>
    requires n <= |cur|
  {
    if n == 0 then []
    else FullRows(cur, n - 1) + FullRow(cur[n - 1], |cur[n - 1]|) + (if n < |cur| then [NewLine] else [])
  }

  function FullTokens(cur: Picture): seq<Token> { [Home] + FullRows(cur, |cur|) }

  // ---- one cell -----------------------------------------------------------

  lemma RenditionsDoNothing(p: Pixel, t: Terminal)
    ensures Interpret(Renditions(p), t) == t
  {
    var a := if p.fg != Null then [Rendition(Foreground, p.fg)] else [];
    var b := if p.bg != Null then [Rendition(Background, p.bg)] else [];
    var c := if p.style != Null then [Rendition(Style, p.style)] else [];
    InterpretConcat(a + b, c, t);
    InterpretConcat(a, b, t);
    InterpretOne(Rendition(Foreground, p.fg), t);
    InterpretOne(Rendition(Background, p.bg), t);
    InterpretOne(Rendition(Style, p.style), t);
  }

  /** Only the cell (u, v) may have changed, and the cursor is one column on. */
  ghost predicate CellDone(t: Terminal, t': Terminal, u: int, v: int, now: Option<char>) {
    && SameSize(t, t') && At(t', v, u + 1)
    && forall a, b :: Look(t', a, b) == if a == u && b == v then now else Look(t, a, b)
  }

  lemma PrintCell(p: Pixel, t: Terminal, u: int, v: int)
    requires At(t, v, u) && 0 <= u && u + 1 < t.cols
    ensures CellDone(t, Interpret(Renditions(p) + [Glyph(p.ch)], t), u, v, Some(p.ch))
  {
    RenditionsDoNothing(p, t);
    InterpretAppend(Renditions(p), Glyph(p.ch), t);
  }

  lemma CellEffect(cur: Pixel, prev: Pixel, t: Terminal, u: int, v: int)
    requires At(t, v, u) && 0 <= u && u + 1 < t.cols
    ensures CellDone(t, Interpret(CellTokens(cur, prev), t), u, v, if cur != prev then Some(cur.ch) else Look(t, u, v))
  {
    if cur != prev {
      PrintCell(cur, t, u, v);
    } else {
      InterpretOne(Forward, t);
    }
  }

  // ---- part of a row ------------------------------------------------------

  /** In row v the changed cells from x to x + n show the new picture; all else is as before. */
  ghost predicate RowDone(t: Terminal, t': Terminal, cur: seq<Pixel>, prev: seq<Pixel>, x: int, n: int, v: int)
    requires 0 <= x && 0 <= n && x + n <= |cur| == |prev|
  {
    && SameSize(t, t')
    && forall a, b :: Look(t', a, b) ==
         if b == v && x <= a < x + n && cur[a] != prev[a] then Some(cur[a].ch) else Look(t, a, b)
  }

  lemma CellJoins(t: Terminal, m: Terminal, t': Terminal, cur: seq<Pixel>, prev: seq<Pixel>, x: nat, n: nat, v: int)
    requires x + n < |cur| == |prev| && RowDone(t, m, cur, prev, x, n, v)
    requires CellDone(m, t', x + n, v, if cur[x + n] != prev[x + n] then Some(cur[x + n].ch) else Look(m, x + n, v))
    ensures RowDone(t, t', cur, prev, x, n + 1, v) && At(t', v, x + n + 1)
  {
  }

  lemma {:induction false} RowEffect(cur: seq<Pixel>, prev: seq<Pixel>, x: nat, n: nat, t: Terminal, v: int)
    requires x + n <= |cur| == |prev| < t.cols && At(t, v, x)
    ensures RowDone(t, Interpret(RowTokens(cur, prev, x, n), t), cur, prev, x, n, v)
    ensures At(Interpret(RowTokens(cur, prev, x, n), t), v, x + n)
  {
    hide Obey, CellTokens, RowDone, CellDone;
    if n > 0 {
      RowEffect(cur, prev, x, n - 1, t, v);
      RowSize(t, Interpret(RowTokens(cur, prev, x, n - 1), t), cur, prev, x, n - 1, v);
      var front, cell := RowTokens(cur, prev, x, n - 1), CellTokens(cur[x + n - 1], prev[x + n - 1]);
      var middle := Interpret(front, t);
      InterpretConcat(front, cell, t);
      CellEffect(cur[x + n - 1], prev[x + n - 1], middle, x + n - 1, v);
      CellJoins(t, middle, Interpret(cell, middle), cur, prev, x, n - 1, v);
    } else {
      assert Interpret([], t) == t;
      NothingDone(t, cur, prev, x, v);
    }
  }

  lemma RowSize(t: Terminal, t': Terminal, cur: seq<Pixel>, prev: seq<Pixel>, x: int, n: int, v: int)
    requires 0 <= x && 0 <= n && x + n <= |cur| == |prev| && RowDone(t, t', cur, prev, x, n, v)
    ensures SameSize(t, t')
  {
  }

  lemma NothingDone(t: Terminal, cur: seq<Pixel>, prev: seq<Pixel>, x: nat, v: int)
    requires x <= |cur| == |prev|
    ensures RowDone(t, t, cur, prev, x, 0, v)
  {
  }

  // ---- a rectangle --------------------------------------------------------

  ghost predicate Differs(cur: Picture, prev: Picture, u: int, v: int) {
    0 <= v < |cur| == |prev| && 0 <= u < |cur[v]| == |prev[v]| && cur[v][u] != prev[v][u]
  }

  /** The changed cells of the region show the new picture; all else is as before. */
  ghost predicate Repainted(t: Terminal, t': Terminal, cur: Picture, prev: Picture, r: Rect) {
    && SameSize(t, t')
    && forall a, b :: Look(t', a, b) ==
         if Inside(r, a, b) && Differs(cur, prev, a, b) then Some(cur[b][a].ch) else Look(t, a, b)
  }

  lemma NextLine(t: Terminal, v: int, x: int)
    requires 0 <= v && v + 1 < t.rows && 0 <= x < t.cols && t.row == v
    ensures Interpret([Down, Column(x + 1)], t) == t.(row := v + 1, col := x)
  {
    assert [Down, Column(x + 1)] == [Down] + [Column(x + 1)];
    InterpretAppend([Down], Column(x + 1), t);
    InterpretOne(Down, t);
  }

  lemma RowJoins(t: Terminal, m: Terminal, l: Terminal, t': Terminal, cur: Picture, prev: Picture, r: Rect, n: nat)
    requires Within(cur, prev, r) && n < r.height
    requires Repainted(t, m, cur, prev, Rect(r.x, r.y, r.width, n))
    requires SameSize(m, l) && l.cells == m.cells
    requires RowDone(l, t', cur[r.y + n], prev[r.y + n], r.x, r.width, r.y + n)
    ensures Repainted(t, t', cur, prev, Rect(r.x, r.y, r.width, n + 1))
  {
    var grown := Rect(r.x, r.y, r.width, n + 1);
    forall a, b ensures Look(t', a, b) ==
      (if Inside(grown, a, b) && Differs(cur, prev, a, b) then Some(cur[b][a].ch) else Look(t, a, b))
    {
      assert Look(l, a, b) == Look(m, a, b);
    }
  }

  lemma {:induction false} RectRowsEffect(cur: Picture, prev: Picture, r: Rect, n: nat, t: Terminal)
    requires Within(cur, prev, r) && n <= r.height && At(t, r.y, r.x) && t.rows >= |cur| && t.cols > |cur[0]|
    ensures
      var t' := Interpret(RectRows(cur, prev, r, n), t);
      Repainted(t, t', cur, prev, Rect(r.x, r.y, r.width, n)) && (n > 0 ==> t'.row == r.y + n - 1)
  {
    hide Obey, RowTokens;
    if n > 0 {
      RectRowsEffect(cur, prev, r, n - 1, t);
      var front, step := RectRows(cur, prev, r, n - 1), if n > 1 then [Down, Column(r.x + 1)] else [];
      var row := RowTokens(cur[r.y + n - 1], prev[r.y + n - 1], r.x, r.width);
      var m := Interpret(front, t);
      InterpretConcat(front + step, row, t);
      InterpretConcat(front, step, t);
      var l := Interpret(step, m);
      if n > 1 {
        NextLine(m, r.y + n - 2, r.x);
      }
      RowEffect(cur[r.y + n - 1], prev[r.y + n - 1], r.x, r.width, l, r.y + n - 1);
      RowJoins(t, m, l, Interpret(row, l), cur, prev, r, n - 1);
    }
  }

  lemma RectEffect(cur: Picture, prev: Picture, r: Rect, t: Terminal)
    requires Within(cur, prev, r) && t.rows >= |cur| && t.cols > |cur[0]|
    ensures Repainted(t, Interpret(RectTokens(cur, prev, r), t), cur, prev, r)
  {
    hide RectRows, Obey, Interpret, Repainted, Sized;
    var rows := RectRows(cur, prev, r, r.height);
    InterpretConcat([MoveTo(r.y + 1, r.x + 1)], rows, t);
    InterpretOne(MoveTo(r.y + 1, r.x + 1), t);
    MoveEffect(cur, prev, r, t);
    var m := Obey(t, MoveTo(r.y + 1, r.x + 1));
    RectRowsEffect(cur, prev, r, r.height, m);
    assert Rect(r.x, r.y, r.width, r.height) == r;
    MovedFirst(t, m, Interpret(rows, m), cur, prev, r);
  }

  lemma MoveEffect(cur: Picture, prev: Picture, r: Rect, t: Terminal)
    requires Within(cur, prev, r) && t.rows >= |cur| && t.cols > |cur[0]|
    ensures
      var m := Obey(t, MoveTo(r.y + 1, r.x + 1));
      At(m, r.y, r.x) && SameSize(t, m) && m.cells == t.cells
  {
  }

  lemma MovedFirst(t: Terminal, m: Terminal, t': Terminal, cur: Picture, prev: Picture, r: Rect)
    requires SameSize(t, m) && m.cells == t.cells && Repainted(m, t', cur, prev, r)
    ensures Repainted(t, t', cur, prev, r)
  {
    forall a, b ensures Look(m, a, b) == Look(t, a, b) {
    }
  }

  // ---- all dirty rectangles -----------------------------------------------

  /** The changed cells inside some rectangle show the new picture; all else is as before. */
  ghost predicate RepaintedAny(t: Terminal, t': Terminal, cur: Picture, prev: Picture, rects: seq<Rect>) {
    && SameSize(t, t')
    && forall a, b :: Look(t', a, b) ==
         if InsideAny(rects, a, b) && Differs(cur, prev, a, b) then Some(cur[b][a].ch) else Look(t, a, b)
  }

  lemma InsideAppend(rects: seq<Rect>, r: Rect, u: int, v: int)
    ensures InsideAny(rects + [r], u, v) <==> InsideAny(rects, u, v) || Inside(r, u, v)
  {
    if InsideAny(rects, u, v) {
      var i :| 0 <= i < |rects| && Inside(rects[i], u, v);
      assert Inside((rects + [r])[i], u, v);
    }
    if Inside(r, u, v) {
      assert Inside((rects + [r])[|rects|], u, v);
    }
  }

  lemma RectJoins(t: Terminal, m: Terminal, t': Terminal, cur: Picture, prev: Picture, rects: seq<Rect>, r: Rect)
    requires RepaintedAny(t, m, cur, prev, rects) && Repainted(m, t', cur, prev, r)
    ensures RepaintedAny(t, t', cur, prev, rects + [r])
  {
    hide InsideAny, Inside;
    forall a, b ensures Look(t', a, b) ==
      (if InsideAny(rects + [r], a, b) && Differs(cur, prev, a, b) then Some(cur[b][a].ch) else Look(t, a, b))
    {
      InsideAppend(rects, r, a, b);
    }
  }

  lemma {:induction false} DirtyEffect(cur: Picture, prev: Picture, rects: seq<Rect>, t: Terminal)
    requires AllWithin(cur, prev, rects) && t.rows >= |cur| && (cur != [] ==> t.cols > |cur[0]|)
    ensures RepaintedAny(t, Interpret(DirtyTokens(cur, prev, rects), t), cur, prev, rects)
  {
    hide Obey, RectTokens, Within;
    if rects != [] {
      var front, r := rects[..|rects| - 1], rects[|rects| - 1];
      DirtyEffect(cur, prev, front, t);
      var m := Interpret(DirtyTokens(cur, prev, front), t);
      InterpretConcat(DirtyTokens(cur, prev, front), RectTokens(cur, prev, r), t);
      NotEmpty(cur, prev, r);
      RectEffect(cur, prev, r, m);
      RectJoins(t, m, Interpret(RectTokens(cur, prev, r), m), cur, prev, front, r);
      assert front + [r] == rects;
    }
  }

  lemma NotEmpty(cur: Picture, prev: Picture, r: Rect)
    requires Within(cur, prev, r)
    ensures cur != []
  {
  }

  /** Partial output has the same effect as redrawing: if every changed cell is in a rectangle and the
      terminal shows the previous picture, it then shows the current one. */
  lemma PartialShowsCurrent(cur: Picture, prev: Picture, rects: seq<Rect>, t: Terminal, width: nat, height: nat)
    requires Sized(cur, width, height) && Sized(prev, width, height) && Fits(t, width, height) && Shows(t, prev, width, height)
    requires AllWithin(cur, prev, rects)
    requires forall u, v :: Differs(cur, prev, u, v) ==> InsideAny(rects, u, v)
    ensures Shows(Interpret(DirtyTokens(cur, prev, rects), t), cur, width, height)
  {
    hide InsideAny, AllWithin, DirtyTokens, Interpret;
    DirtyEffect(cur, prev, rects, t);
    var t' := Interpret(DirtyTokens(cur, prev, rects), t);
    forall u, v | 0 <= u < width && 0 <= v < height ensures Look(t', u, v) == Some(cur[v][u].ch) {
      assert Look(t, u, v) == Some(prev[v][u].ch);
    }
  }

  // ---- the whole frame ----------------------------------------------------

  ghost predicate RowPrinted(t: Terminal, t': Terminal, cur: seq<Pixel>, n: int, v: int)
    requires 0 <= n <= |cur|
  {
    && SameSize(t, t')
    && forall a, b :: Look(t', a, b) == if b == v && 0 <= a < n then Some(cur[a].ch) else Look(t, a, b)
  }

  lemma {:induction false} FullRowEffect(cur: seq<Pixel>, n: nat, t: Terminal, v: int)
    requires n <= |cur| < t.cols && At(t, v, 0)
    ensures RowPrinted(t, Interpret(FullRow(cur, n), t), cur, n, v) && At(Interpret(FullRow(cur, n), t), v, n)
  {
    hide Obey, Renditions;
    if n > 0 {
      FullRowEffect(cur, n - 1, t, v);
      var front, cell := FullRow(cur, n - 1), Renditions(cur[n - 1]) + [Glyph(cur[n - 1].ch)];
      assert front + Renditions(cur[n - 1]) + [Glyph(cur[n - 1].ch)] == front + cell;
      InterpretConcat(front, cell, t);
      PrintCell(cur[n - 1], Interpret(front, t), n - 1, v);
      hide Interpret;
    } else {
      assert Interpret([], t) == t;
    }
  }

  /** The first n rows are printed, and the cursor is at the start of the next one, if there is one. */
  ghost predicate RowsPrinted(t: Terminal, t': Terminal, cur: Picture, n: int)
    requires 0 <= n <= |cur|
  {
    && SameSize(t, t')
    && forall a, b :: Look(t', a, b) == if 0 <= b < n && 0 <= a < |cur[b]| then Some(cur[b][a].ch) else Look(t, a, b)
  }

  lemma {:induction false} FullRowsEffect(cur: Picture, n: nat, t: Terminal)
    requires n <= |cur| <= t.rows && At(t, 0, 0) && forall v :: 0 <= v < |cur| ==> |cur[v]| < t.cols
    ensures
      var t' := Interpret(FullRows(cur, n), t);
      RowsPrinted(t, t', cur, n) && (n < |cur| ==> At(t', n, 0))
  {
    hide Obey, FullRow;
    if n > 0 {
      FullRowsEffect(cur, n - 1, t);
      var front, row := FullRows(cur, n - 1), FullRow(cur[n - 1], |cur[n - 1]|);
      var end := if n < |cur| then [NewLine] else [];
      var m := Interpret(front, t);
      InterpretConcat(front + row, end, t);
      InterpretConcat(front, row, t);
      FullRowEffect(cur[n - 1], |cur[n - 1]|, m, n - 1);
      var l := Interpret(row, m);
      PrintedJoins(t, m, l, cur, n - 1);
      if n < |cur| {
        LineFeed(l, n - 1);
      } else {
        assert Interpret([], l) == l;
      }
    } else {
      assert Interpret([], t) == t;
    }
  }

  lemma LineFeed(t: Terminal, v: int)
    requires 0 <= v && v + 1 < t.rows && t.row == v
    ensures
      var t' := Interpret([NewLine], t);
      SameSize(t, t') && At(t', v + 1, 0) && forall a, b :: Look(t', a, b) == Look(t, a, b)
  {
    InterpretOne(NewLine, t);
  }

  lemma PrintedJoins(t: Terminal, m: Terminal, l: Terminal, cur: Picture, n: nat)
    requires n < |cur| && RowsPrinted(t, m, cur, n) && RowPrinted(m, l, cur[n], |cur[n]|, n)
    ensures RowsPrinted(t, l, cur, n + 1)
  {
    forall a, b ensures Look(l, a, b) ==
      (if 0 <= b < n + 1 && 0 <= a < |cur[b]| then Some(cur[b][a].ch) else Look(t, a, b))
    {
      assert Look(m, a, b) == if 0 <= b < n && 0 <= a < |cur[b]| then Some(cur[b][a].ch) else Look(t, a, b);
    }
  }

  /** A full redraw shows the current picture, whatever the terminal showed before. */
  lemma FullShowsCurrent(cur: Picture, t: Terminal, width: nat, height: nat)
    requires Sized(cur, width, height) && Fits(t, width, height)
    ensures Shows(Interpret(FullTokens(cur), t), cur, width, height)
  {
    hide FullRows;
    InterpretConcat([Home], FullRows(cur, |cur|), t);
    InterpretOne(Home, t);
    FullRowsEffect(cur, |cur|, Obey(t, Home));
  }
}
