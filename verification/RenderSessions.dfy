/** Whole sessions of the renderer: any list of drawing calls, renders, resizes and switches, against
    plain redrawing. */
module RenderSessions {
  import opened FrameBuffers
  import opened Terminals
  import opened DirtyRects
  import opened DirtyRenderers
  import opened Wrappers

  datatype Command =
    | PixelAt(x: int, y: int, pixel: Pixel)
    | RowAt(y: int, row: seq<Pixel>)
    | RegionFrom(x: int, y: int, w: int, h: int, data: seq<seq<Option<Pixel>>>)
    | ClearTo(ch: char)
    | FillWith(pixel: Pixel)
    | ResizeTo(width: nat, height: nat)
    | TurnOn
    | TurnOff
    | Show

  /** What a session sees of the renderer. */
  datatype View = View(width: nat, height: nat, cur: Picture, prev: Picture, enabled: bool, covered: bool,
                       frames: nat, dirty: bool)

  // ---- plain drawing ------------------------------------------------------

  /** What a cell holds after one command that keeps the size. */
  function CellAfter(c: Command, before: Pixel, u: int, v: int): Pixel {
    match c
    case PixelAt(x, y, p) => if u == x && v == y then p else before
    case RowAt(y, row) => if v == y && 0 <= u < |row| then row[u] else before
    case RegionFrom(x, y, w, h, data) =>
      if x <= u < x + w && y <= v < y + h && RegionAt(data, v - y, u - x).Some? then RegionAt(data, v - y, u - x).value else before
    case ClearTo(ch) => Pixel(ch, Null, Null, Null)
    case FillWith(p) => p
    case _ => before
  }

  function Drawn(p: Picture, c: Command): (r: Picture)
    ensures !c.ResizeTo? ==> forall width, height :: Sized(p, width, height) ==> Sized(r, width, height)
    ensures c.ResizeTo? ==> Sized(r, c.width, c.height)
  {
    if c.ResizeTo? then BlankPicture(c.width, c.height)
    else seq(|p|, v requires 0 <= v < |p| => seq(|p[v]|, u requires 0 <= u < |p[v]| => CellAfter(c, p[v][u], u, v)))
  }

  function DrawnAll(p: Picture, commands: seq<Command>): Picture {
    if commands == [] then p else Drawn(DrawnAll(p, commands[..|commands| - 1]), commands[|commands| - 1])
  }

  /** The calls that a disabled renderer does not mark. */
  predicate Marking(c: Command) { c.PixelAt? || c.RowAt? || c.RegionFrom? }

  // ---- one command --------------------------------------------------------

  ghost predicate ViewOk(a: View) { Sized(a.cur, a.width, a.height) && Sized(a.prev, a.width, a.height) }

  /** What one command does, and with `full` whether a render writes the whole frame. */
  ghost predicate SessionStep(c: Command, a: View, t: Terminal, b: View, t': Terminal, full: bool) {
    && ViewOk(a) && ViewOk(b) && SameSize(t, t')
    && b.width == (if c.ResizeTo? then c.width else a.width) && b.height == (if c.ResizeTo? then c.height else a.height)
    && b.enabled == (if c.TurnOn? then true else if c.TurnOff? then false else a.enabled)
    && b.cur == Drawn(a.cur, c)
    && b.frames == a.frames + (if c.Show? then 1 else 0)
    && (c.Show? && a.frames == 0 ==> (full <==> a.dirty))
    && (!c.Show? ==> t' == t)
    && (!c.Show? && !c.ResizeTo? ==> b.prev == a.prev)
    && (c.ResizeTo? ==> b.covered && b.prev == BlankPicture(c.width, c.height))
    && (a.covered && (a.enabled || !Marking(c)) ==> b.covered)
    && (c.Show? && a.covered ==> b.prev == a.cur && Painted(t, t', a.prev, a.cur, full, a.width, a.height))
  }

  ghost function Seen(renderer: DirtyRenderer): (a: View)
    requires renderer.Valid()
    reads renderer, renderer.currentFrame.buffer, renderer.previousFrame.buffer
    ensures ViewOk(a)
  {
    View(renderer.width, renderer.height, renderer.Current(), renderer.Previous(), renderer.isEnabled, renderer.Covered(),
         renderer.frames, renderer.dirtyRects != [])
  }

  /** A drawing call does to the frame what it does to the picture, and leaves the previous frame alone. */
  method Draw(renderer: DirtyRenderer, c: Command)
    requires renderer.Valid() && !c.Show? && !c.ResizeTo? && !c.TurnOn? && !c.TurnOff?
    modifies renderer`dirtyRects, renderer.currentFrame.buffer
    ensures renderer.Valid() && renderer.Previous() == old(renderer.Previous())
    ensures old(renderer.Covered()) && (renderer.isEnabled || !Marking(c)) ==> renderer.Covered()
    ensures renderer.Current() == Drawn(old(renderer.Current()), c)
  {
    hide Drawn, InsideAny, AllOnScreen, RegionAt, Inside, TotalArea, DirtyRenderer.Covered, DirtyRenderer.FullDue, DirtyRenderer.NeedsFull, FrameBuffer.Contents;
    ghost var p, prev := renderer.Current(), renderer.previousFrame.Contents();
    match c {
      case PixelAt(x, y, q) => var changed := renderer.SetPixel(x, y, q.ch, q.fg, q.bg, q.style);
      case RowAt(y, row) => var changed := renderer.SetRow(y, row);
      case RegionFrom(x, y, w, h, data) => var changed := renderer.SetRegion(x, y, w, h, data);
      case ClearTo(ch) => var changed := renderer.Clear(ch);
      case FillWith(q) => var changed := renderer.Fill(q.ch, q.fg, q.bg, q.style);
    }
    assert renderer.previousFrame.Contents() == prev;
    CellsDrawn(p, renderer.Current(), c, renderer.width, renderer.height);
  }

  lemma CellsDrawn(p: Picture, cur: Picture, c: Command, width: nat, height: nat)
    requires Sized(p, width, height) && Sized(cur, width, height) && !c.ResizeTo?
    requires forall v, u :: 0 <= v < height && 0 <= u < width ==> cur[v][u] == CellAfter(c, p[v][u], u, v)
    ensures cur == Drawn(p, c)
  {
    hide CellAfter;
    SamePicture(cur, Drawn(p, c), width, height);
  }

  lemma DrawsNothing(p: Picture, c: Command, width: nat, height: nat)
    requires Sized(p, width, height) && (c.Show? || c.TurnOn? || c.TurnOff?)
    ensures Drawn(p, c) == p
  {
    SamePicture(Drawn(p, c), p, width, height);
  }

  /** One command, with the terminal that obeys the output. */
  method Perform(renderer: DirtyRenderer, c: Command, t: Terminal) returns (t': Terminal)
    requires renderer.Valid() && Fits(t, renderer.width, renderer.height)
    modifies renderer, renderer.currentFrame.buffer
    ensures renderer.Valid() && (renderer.currentFrame == old(renderer.currentFrame) || fresh(renderer.currentFrame.buffer))
    ensures SessionStep(c, old(Seen(renderer)), t, Seen(renderer), t', old(renderer.FullDue()))
    ensures old(renderer.dirtyRects) == [] && c.Show? ==> t' == t
    ensures c.ResizeTo? ==> renderer.dirtyRects == []
  {
    hide Painted, Paints, Brings, Interpret, Drawn, Sized, BlankPicture, TotalArea, DirtyRenderer.Covered;
    t' := t;
    ghost var a := Seen(renderer);
    match c {
      case Show =>
        DrawsNothing(a.cur, c, a.width, a.height);
        ghost var due := renderer.FullDue();
        var output := renderer.Render();
        t' := Interpret(output, t);
        SizeStays(output, t);
        if a.covered {
          Obeyed(output, t, a.prev, a.cur, due, a.width, a.height);
        }
        if output == [] {
          assert Interpret([], t) == t by { NothingObeyed(t); }
        }
      case ResizeTo(w, h) =>
        renderer.Resize(w, h);
        assert Drawn(a.cur, c) == BlankPicture(w, h) by { ResizedIsBlank(a.cur, w, h); }
      case TurnOn =>
        DrawsNothing(a.cur, c, a.width, a.height);
        renderer.Enable();
      case TurnOff =>
        DrawsNothing(a.cur, c, a.width, a.height);
        renderer.Disable();
      case _ => Draw(renderer, c);
    }
  }

  lemma Obeyed(output: seq<Token>, t: Terminal, shown: Picture, wanted: Picture, full: bool, width: nat, height: nat)
    requires Sized(shown, width, height) && Sized(wanted, width, height) && Fits(t, width, height)
    requires Paints(output, shown, wanted, full, width, height)
    ensures Painted(t, Interpret(output, t), shown, wanted, full, width, height)
  {
  }

  lemma NothingObeyed(t: Terminal)
    ensures Interpret([], t) == t
  {
  }

  lemma ResizedIsBlank(p: Picture, w: nat, h: nat)
    ensures Drawn(p, ResizeTo(w, h)) == BlankPicture(w, h)
  {
  }

  // ---- whole sessions -----------------------------------------------------

  ghost predicate IsSession(commands: seq<Command>, views: seq<View>, ts: seq<Terminal>, fulls: seq<bool>) {
    && |views| == |ts| == |commands| + 1 && |fulls| == |commands| && ViewOk(views[0])
    && forall k :: 0 <= k < |commands| ==> SessionStep(commands[k], views[k], ts[k], views[k + 1], ts[k + 1], fulls[k])
  }

  predicate SizesFit(t: Terminal, commands: seq<Command>) {
    forall i :: 0 <= i < |commands| && commands[i].ResizeTo? ==> t.rows >= commands[i].height && t.cols > commands[i].width
  }

  /** Running any list of commands on a terminal that is large enough for every size. */
  method Run(renderer: DirtyRenderer, commands: seq<Command>, t: Terminal)
    returns (ts: seq<Terminal>, ghost views: seq<View>, ghost fulls: seq<bool>)
    requires renderer.Valid() && Fits(t, renderer.width, renderer.height) && SizesFit(t, commands)
    modifies renderer, renderer.currentFrame.buffer
    ensures renderer.Valid() && IsSession(commands, views, ts, fulls)
    ensures ts[0] == t && views[0] == old(Seen(renderer)) && views[|commands|] == Seen(renderer)
  {
    hide *;
    StartFits(renderer, t);
    ts, views, fulls := [t], [Seen(renderer)], [];
    NoSteps(commands, views, ts, fulls);
    for i := 0 to |commands|
      invariant renderer.Valid() && |ts| == |views| == i + 1 && |fulls| == i
      invariant renderer.currentFrame == old(renderer.currentFrame) || fresh(renderer.currentFrame.buffer)
      invariant ts[0] == t && views[0] == old(Seen(renderer)) && views[i] == Seen(renderer)
      invariant SameSize(t, ts[i]) && Fits(ts[i], renderer.width, renderer.height)
      invariant views[i].width == renderer.width && views[i].height == renderer.height
      invariant FirstSteps(commands, views, ts, fulls, i)
    {
      ghost var full := renderer.FullDue();
      var next := Perform(renderer, commands[i], ts[i]);
      ghost var after := Seen(renderer);
      StartFits(renderer, next);
      StepFits(commands, i, t, views[i], ts[i], after, next, full);
      OneMoreStep(commands, views, ts, fulls, i, after, next, full);
      ts, views, fulls := ts + [next], views + [after], fulls + [full];
    }
    AllSteps(commands, views, ts, fulls);
  }

  lemma StartFits(renderer: DirtyRenderer, t: Terminal)
    requires renderer.Valid()
    ensures Seen(renderer).width == renderer.width && Seen(renderer).height == renderer.height && SameSize(t, t)
    ensures ViewOk(Seen(renderer))
  {
  }

  lemma StepFits(commands: seq<Command>, i: nat, t: Terminal, a: View, m: Terminal, b: View, t': Terminal, full: bool)
    requires i < |commands| && SizesFit(t, commands) && SameSize(t, m) && Fits(m, a.width, a.height)
    requires SessionStep(commands[i], a, m, b, t', full)
    ensures SameSize(t, t') && Fits(t', b.width, b.height)
  {
    hide Drawn, Painted;
  }

  ghost predicate FirstSteps(commands: seq<Command>, views: seq<View>, ts: seq<Terminal>, fulls: seq<bool>, n: nat) {
    && |views| == |ts| == n + 1 && |fulls| == n <= |commands|
    && forall k :: 0 <= k < n ==> SessionStep(commands[k], views[k], ts[k], views[k + 1], ts[k + 1], fulls[k])
  }

  lemma NoSteps(commands: seq<Command>, views: seq<View>, ts: seq<Terminal>, fulls: seq<bool>)
    requires |views| == |ts| == 1 && fulls == []
    ensures FirstSteps(commands, views, ts, fulls, 0)
  {
  }

  lemma OneMoreStep(commands: seq<Command>, views: seq<View>, ts: seq<Terminal>, fulls: seq<bool>, n: nat,
                    b: View, t': Terminal, full: bool)
    requires n < |commands| && |views| == |ts| == n + 1 && FirstSteps(commands, views, ts, fulls, n)
    requires SessionStep(commands[n], views[n], ts[n], b, t', full)
    ensures FirstSteps(commands, views + [b], ts + [t'], fulls + [full], n + 1)
  {
    hide SessionStep;
  }

  lemma AllSteps(commands: seq<Command>, views: seq<View>, ts: seq<Terminal>, fulls: seq<bool>)
    requires FirstSteps(commands, views, ts, fulls, |commands|) && ViewOk(views[0])
    ensures IsSession(commands, views, ts, fulls)
  {
    hide SessionStep;
  }

  lemma StepAt(commands: seq<Command>, views: seq<View>, ts: seq<Terminal>, fulls: seq<bool>, k: nat)
    requires IsSession(commands, views, ts, fulls) && k < |commands|
    ensures |views| == |ts| == |commands| + 1 && |fulls| == |commands|
    ensures SessionStep(commands[k], views[k], ts[k], views[k + 1], ts[k + 1], fulls[k]) && ViewOk(views[k]) && ViewOk(views[k + 1])
  {
  }

  /** The frame holds what plain drawing gives, enabled or not. */
  lemma {:induction false} FrameIsDrawn(commands: seq<Command>, views: seq<View>, ts: seq<Terminal>, fulls: seq<bool>, k: nat)
    requires IsSession(commands, views, ts, fulls) && k <= |commands|
    ensures |views| == |commands| + 1 && views[k].cur == DrawnAll(views[0].cur, commands[..k])
  {
    hide Drawn;
    if k > 0 {
      StepAt(commands, views, ts, fulls, k - 1);
      FrameIsDrawn(commands, views, ts, fulls, k - 1);
      assert commands[..k][..k - 1] == commands[..k - 1];
    }
  }

  /** From step j to step k nothing is drawn past the marking. */
  ghost predicate MarkedFrom(commands: seq<Command>, views: seq<View>, j: nat, k: nat)
    requires k <= |commands| < |views|
  {
    forall i :: j <= i < k && Marking(commands[i]) ==> views[i].enabled
  }

  ghost predicate NoResize(commands: seq<Command>, j: nat, k: nat)
    requires k <= |commands|
  {
    forall i :: j <= i < k ==> !commands[i].ResizeTo?
  }

  /** The coverage holds as long as nothing is drawn while disabled. */
  lemma {:induction false} StaysCovered(commands: seq<Command>, views: seq<View>, ts: seq<Terminal>, fulls: seq<bool>, j: nat, k: nat)
    requires IsSession(commands, views, ts, fulls) && j <= k <= |commands|
    requires views[j].covered && MarkedFrom(commands, views, j, k)
    ensures views[k].covered
    decreases k
  {
    hide Drawn, Painted, Sized;
    if j < k {
      StepAt(commands, views, ts, fulls, k - 1);
      StaysCovered(commands, views, ts, fulls, j, k - 1);
    }
  }

  lemma {:induction false} SizeSince(commands: seq<Command>, views: seq<View>, ts: seq<Terminal>, fulls: seq<bool>, j: nat, k: nat)
    requires IsSession(commands, views, ts, fulls) && j <= k <= |commands| && NoResize(commands, j, k)
    ensures views[k].width == views[j].width && views[k].height == views[j].height && ViewOk(views[j]) && ViewOk(views[k])
    decreases k
  {
    hide Drawn, Painted, Sized;
    if k > 0 {
      StepAt(commands, views, ts, fulls, k - 1);
      if j < k {
        SizeSince(commands, views, ts, fulls, j, k - 1);
      }
    }
  }

  /** From step j to step k the coverage holds and the size stays. */
  ghost predicate Tracked(commands: seq<Command>, views: seq<View>, j: nat, k: nat)
    requires k <= |commands| < |views|
  {
    j <= k && views[j].covered && MarkedFrom(commands, views, j, k) && NoResize(commands, j, k)
  }

  /** Some render from step j on wrote this cell. */
  ghost predicate Written(commands: seq<Command>, views: seq<View>, fulls: seq<bool>, j: nat, k: nat, u: nat, v: nat)
    requires k <= |commands| == |fulls| < |views|
  {
    exists i :: j <= i < k && commands[i].Show? && Rewrites(views[i], fulls[i], u, v)
  }

  ghost predicate Rewrites(a: View, full: bool, u: nat, v: nat) {
    v < |a.cur| == |a.prev| && u < |a.cur[v]| == |a.prev[v]| && (full || a.prev[v][u] != a.cur[v][u])
  }

  lemma WrittenNext(commands: seq<Command>, views: seq<View>, fulls: seq<bool>, j: nat, k: nat, u: nat, v: nat)
    requires j <= k < |commands| == |fulls| < |views|
    ensures Written(commands, views, fulls, j, k + 1, u, v) <==>
      Written(commands, views, fulls, j, k, u, v) || (commands[k].Show? && Rewrites(views[k], fulls[k], u, v))
  {
    hide Rewrites;
  }

  /** From any covered start j on, a cell of the terminal is right, that is as the previous frame has it, if
      and only if it was right at the start or some render has written it since. */
  lemma {:induction false} CellRightIff(commands: seq<Command>, views: seq<View>, ts: seq<Terminal>, fulls: seq<bool>,
                                        j: nat, k: nat, u: nat, v: nat)
    requires IsSession(commands, views, ts, fulls) && j <= k <= |commands| && Tracked(commands, views, j, k)
    requires u < views[j].width && v < views[j].height
    ensures v < |views[j].prev| && u < |views[j].prev[v]| && v < |views[k].prev| && u < |views[k].prev[v]|
    ensures Look(ts[k], u, v) == Some(views[k].prev[v][u].ch) <==>
      Look(ts[j], u, v) == Some(views[j].prev[v][u].ch) || Written(commands, views, fulls, j, k, u, v)
    decreases k
  {
    hide Drawn, Written, BlankPicture;
    SizeSince(commands, views, ts, fulls, j, k);
    if j == k {
      NothingWritten(commands, views, fulls, j, u, v);
    } else {
      StepAt(commands, views, ts, fulls, k - 1);
      CellRightIff(commands, views, ts, fulls, j, k - 1, u, v);
      WrittenNext(commands, views, fulls, j, k - 1, u, v);
      StaysCovered(commands, views, ts, fulls, j, k - 1);
      SizeSince(commands, views, ts, fulls, j, k - 1);
    }
  }

  lemma NothingWritten(commands: seq<Command>, views: seq<View>, fulls: seq<bool>, j: nat, u: nat, v: nat)
    requires j <= |commands| == |fulls| < |views|
    ensures !Written(commands, views, fulls, j, j, u, v)
  {
  }

  lemma ShowKeeps(c: Command, a: View, t: Terminal, b: View, t': Terminal, full: bool)
    requires SessionStep(c, a, t, b, t', full) && c.Show? && a.covered
    ensures b.width == a.width && b.height == a.height && b.cur == a.cur == b.prev && ViewOk(b)
  {
    hide Drawn, Painted;
    DrawsNothing(a.cur, c, a.width, a.height);
  }

  /** When the terminal shows the picture, at a render after any covered start and any draws and renders
      since: if and only if every cell was right at the start or has been written by some render since. */
  lemma ShownIff(commands: seq<Command>, views: seq<View>, ts: seq<Terminal>, fulls: seq<bool>, j: nat, k: nat)
    requires IsSession(commands, views, ts, fulls) && j <= k < |commands| && commands[k].Show? && Tracked(commands, views, j, k + 1)
    ensures ViewOk(views[j]) && Sized(views[k + 1].cur, views[j].width, views[j].height)
    ensures Shows(ts[k + 1], views[k + 1].cur, views[j].width, views[j].height) <==>
      forall u: nat, v: nat :: u < views[j].width && v < views[j].height ==>
        Look(ts[j], u, v) == Some(views[j].prev[v][u].ch) || Written(commands, views, fulls, j, k + 1, u, v)
  {
    hide Drawn, Written, Painted, SessionStep;
    StepAt(commands, views, ts, fulls, k);
    SizeSince(commands, views, ts, fulls, j, k + 1);
    StaysCovered(commands, views, ts, fulls, j, k);
    ShowKeeps(commands[k], views[k], ts[k], views[k + 1], ts[k + 1], fulls[k]);
    var w, h := views[j].width, views[j].height;
    var prev: Picture, cur: Picture := views[j].prev, views[k + 1].cur;
    forall u: nat, v: nat | u < w && v < h
      ensures v < |cur| && u < |cur[v]|
      ensures Look(ts[k + 1], u, v) == Some(cur[v][u].ch) <==>
        Look(ts[j], u, v) == Some(prev[v][u].ch) || Written(commands, views, fulls, j, k + 1, u, v)
    {
      CellRightIff(commands, views, ts, fulls, j, k + 1, u, v);
    }
    if Shows(ts[k + 1], cur, w, h) {
      forall u: nat, v: nat | u < w && v < h ensures Look(ts[k + 1], u, v) == Some(cur[v][u].ch) {
      }
    }
    if forall u: nat, v: nat :: u < w && v < h ==> Look(ts[j], u, v) == Some(prev[v][u].ch) || Written(commands, views, fulls, j, k + 1, u, v) {
      forall u: nat, v: nat | u < w && v < h ensures Look(ts[k + 1], u, v) == Some(cur[v][u].ch) {
        assert Look(ts[j], u, v) == Some(prev[v][u].ch) || Written(commands, views, fulls, j, k + 1, u, v);
      }
    }
  }

  /** A start as the constructor and a resize leave it: covered, with a blank previous frame. A cell is right
      there exactly when it is blank on the terminal. */
  ghost predicate StartsBlank(a: View, width: nat, height: nat) {
    a.covered && a.width == width && a.height == height && a.prev == BlankPicture(width, height)
  }

  lemma ResizeStarts(commands: seq<Command>, views: seq<View>, ts: seq<Terminal>, fulls: seq<bool>, j: nat)
    requires IsSession(commands, views, ts, fulls) && j < |commands| && commands[j].ResizeTo?
    ensures StartsBlank(views[j + 1], commands[j].width, commands[j].height) && ts[j + 1] == ts[j]
  {
    hide Drawn, Painted, Sized;
    StepAt(commands, views, ts, fulls, j);
  }

  /** A session of a new renderer. */
  method RunNew(width: nat, height: nat, commands: seq<Command>, t: Terminal)
    returns (renderer: DirtyRenderer, ts: seq<Terminal>, ghost views: seq<View>, ghost fulls: seq<bool>)
    requires Fits(t, width, height) && SizesFit(t, commands)
    ensures renderer.Valid() && IsSession(commands, views, ts, fulls)
    ensures ts[0] == t && views[|commands|] == Seen(renderer)
    ensures StartsBlank(views[0], width, height) && views[0].cur == BlankPicture(width, height)
    ensures views[0].enabled && views[0].frames == 0 && !views[0].dirty
  {
    hide IsSession, Interpret, Painted, Drawn;
    renderer := new DirtyRenderer(width, height);
    ts, views, fulls := Run(renderer, commands, t);
  }

  /** Until the next render the previous frame stays. */
  lemma {:induction false} PreviousStays(commands: seq<Command>, views: seq<View>, ts: seq<Terminal>, fulls: seq<bool>, j: nat, k: nat)
    requires IsSession(commands, views, ts, fulls) && j <= k <= |commands|
    requires forall i :: j <= i < k ==> !commands[i].Show? && !commands[i].ResizeTo?
    ensures |views| == |ts| == |commands| + 1 && views[k].prev == views[j].prev && ts[k] == ts[j] && views[k].frames == views[j].frames
    decreases k
  {
    hide Drawn, Painted, Sized;
    if j < k {
      StepAt(commands, views, ts, fulls, k - 1);
      PreviousStays(commands, views, ts, fulls, j, k - 1);
    }
  }

  /** The first render after any covered start: the terminal shows the picture if and only if the full frame
      was written or every cell that the picture has as at the start was right there. The first render of a
      renderer writes the full frame exactly when something is dirty. */
  lemma FirstShownIff(commands: seq<Command>, views: seq<View>, ts: seq<Terminal>, fulls: seq<bool>, j: nat, k: nat)
    requires IsSession(commands, views, ts, fulls) && j <= k < |commands| && commands[k].Show? && Tracked(commands, views, j, k + 1)
    requires forall i :: j <= i < k ==> !commands[i].Show?
    ensures ViewOk(views[j]) && Sized(views[k + 1].cur, views[j].width, views[j].height)
    ensures Shows(ts[k + 1], views[k + 1].cur, views[j].width, views[j].height) <==>
      fulls[k] || forall u: nat, v: nat ::
        u < views[j].width && v < views[j].height && views[k + 1].cur[v][u] == views[j].prev[v][u] ==>
          Look(ts[j], u, v) == Some(views[j].prev[v][u].ch)
    ensures views[j].frames == 0 ==> (fulls[k] <==> views[k].dirty)
  {
    hide Drawn, SessionStep, Painted;
    StepAt(commands, views, ts, fulls, k);
    SizeSince(commands, views, ts, fulls, j, k + 1);
    SizeSince(commands, views, ts, fulls, j, k);
    PreviousStays(commands, views, ts, fulls, j, k);
    StaysCovered(commands, views, ts, fulls, j, k);
    ShowKeeps(commands[k], views[k], ts[k], views[k + 1], ts[k + 1], fulls[k]);
    ShowPaints(commands[k], views[k], ts[k], views[k + 1], ts[k + 1], fulls[k]);
    hide IsSession, MarkedFrom;
    PaintedShowsIff(ts[j], ts[k + 1], views[j].prev, views[k].cur, fulls[k], views[j].width, views[j].height);
  }

  lemma ShowPaints(c: Command, a: View, t: Terminal, b: View, t': Terminal, full: bool)
    requires SessionStep(c, a, t, b, t', full) && c.Show? && a.covered
    ensures ViewOk(a) && Painted(t, t', a.prev, a.cur, full, a.width, a.height)
    ensures a.frames == 0 ==> (full <==> a.dirty)
  {
  }

  lemma PaintedShowsIff(t: Terminal, t': Terminal, shown: Picture, cur: Picture, full: bool, width: nat, height: nat)
    requires Sized(cur, width, height) && Sized(shown, width, height) && Painted(t, t', shown, cur, full, width, height)
    ensures Shows(t', cur, width, height) <==>
      full || forall u: nat, v: nat :: u < width && v < height && cur[v][u] == shown[v][u] ==> Look(t, u, v) == Some(shown[v][u].ch)
  {
    forall u: nat, v: nat | u < width && v < height
      ensures Look(t', u, v) == Some(cur[v][u].ch) <==> full || cur[v][u] != shown[v][u] || Look(t, u, v) == Some(shown[v][u].ch)
    {
    }
  }

  lemma ShownStaysShown(c: Command, a: View, t: Terminal, b: View, t': Terminal, full: bool)
    requires SessionStep(c, a, t, b, t', full) && !c.ResizeTo? && a.covered && ViewOk(a) && ViewOk(b)
    requires Shows(t, a.prev, a.width, a.height)
    ensures Shows(t', b.prev, b.width, b.height)
  {
    hide Drawn;
  }

  /** Without a resize a terminal that is in step stays in step: after each render it shows the picture that
      plain drawing gives. */
  lemma {:induction false} StaysInStep(commands: seq<Command>, views: seq<View>, ts: seq<Terminal>, fulls: seq<bool>, j: nat, k: nat)
    requires IsSession(commands, views, ts, fulls) && j <= k <= |commands| && NoResize(commands, j, k)
    requires views[j].covered && MarkedFrom(commands, views, j, k)
    requires ViewOk(views[j]) && Shows(ts[j], views[j].prev, views[j].width, views[j].height)
    ensures ViewOk(views[k]) && Shows(ts[k], views[k].prev, views[k].width, views[k].height)
    ensures j < k && commands[k - 1].Show? ==> Shows(ts[k], views[k].cur, views[k].width, views[k].height)
    decreases k
  {
    hide Drawn, Painted, SessionStep, Shows;
    if j < k {
      StepAt(commands, views, ts, fulls, k - 1);
      StaysInStep(commands, views, ts, fulls, j, k - 1);
      StaysCovered(commands, views, ts, fulls, j, k - 1);
      ShownStaysShown(commands[k - 1], views[k - 1], ts[k - 1], views[k], ts[k], fulls[k - 1]);
      if commands[k - 1].Show? {
        ShowKeeps(commands[k - 1], views[k - 1], ts[k - 1], views[k], ts[k], fulls[k - 1]);
      }
    }
  }

  /** Rendering right after a resize writes nothing, so a terminal that shows a letter anywhere in the new
      area does not show the new, blank picture. */
  method ResizeAndShow(renderer: DirtyRenderer, width: nat, height: nat, t: Terminal) returns (t': Terminal)
    requires renderer.Valid() && Fits(t, renderer.width, renderer.height) && Fits(t, width, height)
    modifies renderer, renderer.currentFrame.buffer
    ensures renderer.Valid() && renderer.width == width && renderer.height == height
    ensures t' == t && renderer.Current() == BlankPicture(width, height)
    ensures width > 0 && height > 0 && Look(t, 0, 0) == Some('x') ==> !Shows(t', renderer.Current(), width, height)
  {
    ghost var a, due := Seen(renderer), renderer.FullDue();
    t' := Perform(renderer, ResizeTo(width, height), t);
    ResizedView(ResizeTo(width, height), a, t, Seen(renderer), t', due);
    a, due := Seen(renderer), renderer.FullDue();
    t' := Perform(renderer, Show, t');
    ShownView(a, t, Seen(renderer), t', due);
    hide SessionStep, Painted, Drawn;
  }

  /** The first render of a new renderer, with nothing dirty, and one pixel drawn after it: the next render is
      not a first one any more. */
  method ShowAndDraw(width: nat, height: nat, p: Pixel) returns (renderer: DirtyRenderer, output: seq<Token>)
    requires width >= 2 && height >= 1
    ensures fresh(renderer) && renderer.Valid() && renderer.width == width && renderer.height == height && output == []
    ensures renderer.Covered() && !renderer.FullDue() && renderer.Previous() == BlankPicture(width, height)
    ensures renderer.Current() == Drawn(BlankPicture(width, height), PixelAt(0, 0, p))
  {
    hide Interpret, Paints, Brings, InsideAny, AllOnScreen, Drawn, TotalArea, BlankPicture, DirtyRenderer.Covered;
    renderer := new DirtyRenderer(width, height);
    output := renderer.Render();
    var changed := renderer.SetPixel(0, 0, p.ch, p.fg, p.bg, p.style);
    assert 2 * 1 <= width * height;
    CellsDrawn(BlankPicture(width, height), renderer.Current(), PixelAt(0, 0, p), width, height);
  }

  /** A first render with nothing dirty uses up the full frame, so a new renderer can leave a letter standing
      beside the pixel that was drawn. */
  method ShowDrawShow(width: nat, height: nat, t: Terminal) returns (renderer: DirtyRenderer, t': Terminal)
    requires width >= 2 && height >= 1 && Fits(t, width, height)
    ensures renderer.Valid() && renderer.width == width && renderer.height == height
    ensures renderer.Current() == Drawn(BlankPicture(width, height), PixelAt(0, 0, Pixel('a', Null, Null, Null)))
    ensures Look(t, 1, 0) == Some('x') ==> !Shows(t', renderer.Current(), width, height)
  {
    hide Interpret, Paints, Brings, Shows, InsideAny, AllOnScreen, DirtyRenderer.Covered, DirtyRenderer.FullDue;
    var output: seq<Token>;
    renderer, output := ShowAndDraw(width, height, Pixel('a', Null, Null, Null));
    assert Interpret(output, t) == t by { NothingObeyed(t); }
    output := renderer.Render();
    t' := Interpret(output, t);
    LetterStays(output, t, renderer.Current(), width, height);
  }

  lemma LetterStays(output: seq<Token>, t: Terminal, cur: Picture, width: nat, height: nat)
    requires width >= 2 && height >= 1 && Fits(t, width, height) && Sized(cur, width, height) && cur[0][1] == BLANK
    requires Paints(output, BlankPicture(width, height), cur, false, width, height)
    ensures Look(t, 1, 0) == Some('x') ==> !Shows(Interpret(output, t), cur, width, height)
  {
    hide Interpret;
    assert Painted(t, Interpret(output, t), BlankPicture(width, height), cur, false, width, height);
    assert Look(Interpret(output, t), 1, 0) == Look(t, 1, 0);
  }

  lemma ResizedView(c: Command, a: View, t: Terminal, b: View, t': Terminal, full: bool)
    requires SessionStep(c, a, t, b, t', full) && c.ResizeTo?
    ensures t' == t && b.width == c.width && b.height == c.height && b.cur == BlankPicture(c.width, c.height)
  {
  }

  lemma ShownView(a: View, t: Terminal, b: View, t': Terminal, full: bool)
    requires SessionStep(Show, a, t, b, t', full)
    ensures b.width == a.width && b.height == a.height && b.cur == a.cur
  {
    hide Painted;
    DrawsNothing(a.cur, Show, a.width, a.height);
  }
}
