/** Dirty rectangles and their merging: markDirty and mergeDirtyRects of
    backend/renderer/DirtyRenderer.js. */
module DirtyRects {
  datatype Rect = Rect(x: int, y: int, width: int, height: int)

  predicate Inside(r: Rect, u: int, v: int) {
    r.x <= u < r.x + r.width && r.y <= v < r.y + r.height
  }

  /** Not empty, and within a screen of this size. */
  predicate OnScreen(r: Rect, width: nat, height: nat) {
    0 <= r.x && 0 <= r.y && r.width > 0 && r.height > 0 && r.x + r.width <= width && r.y + r.height <= height
  }

  ghost predicate AllOnScreen(rects: seq<Rect>, width: nat, height: nat) {
    forall i :: 0 <= i < |rects| ==> OnScreen(rects[i], width, height)
  }

  ghost predicate InsideAny(rects: seq<Rect>, u: int, v: int) {
    exists i :: 0 <= i < |rects| && Inside(rects[i], u, v)
  }

  predicate Overlap(a: Rect, b: Rect) {
    !(a.x + a.width <= b.x || b.x + b.width <= a.x || a.y + a.height <= b.y || b.y + b.height <= a.y)
  }

  /** No cell lies in two of them. */
  ghost predicate Disjoint(rects: seq<Rect>) {
    forall i, j :: 0 <= i < j < |rects| ==> !Overlap(rects[i], rects[j])
  }

  function Min(a: int, b: int): int { if a < b then a else b }

  function Max(a: int, b: int): int { if a > b then a else b }

  function MergeTwo(a: Rect, b: Rect): Rect {
    var x, y := Min(a.x, b.x), Min(a.y, b.y);
    Rect(x, y, Max(a.x + a.width, b.x + b.width) - x, Max(a.y + a.height, b.y + b.height) - y)
  }

  predicate Contains(outer: Rect, inner: Rect) {
    && outer.x <= inner.x && inner.x + inner.width <= outer.x + outer.width
    && outer.y <= inner.y && inner.y + inner.height <= outer.y + outer.height
  }

  ghost predicate ContainedIn(r: Rect, rects: seq<Rect>) {
    exists i :: 0 <= i < |rects| && Contains(rects[i], r)
  }

  /** Every rectangle lies within one of the others. */
  ghost predicate Covers(outer: seq<Rect>, inner: seq<Rect>) {
    forall i :: 0 <= i < |inner| ==> ContainedIn(inner[i], outer)
  }

  /** Rectangles that are not empty overlap exactly when they share a cell. */
  lemma OverlapMeans(a: Rect, b: Rect)
    requires a.width > 0 && a.height > 0 && b.width > 0 && b.height > 0
    ensures Overlap(a, b) <==> exists u, v :: Inside(a, u, v) && Inside(b, u, v)
  {
    if Overlap(a, b) {
      assert Inside(a, Max(a.x, b.x), Max(a.y, b.y)) && Inside(b, Max(a.x, b.x), Max(a.y, b.y));
    }
  }

  lemma MergeFacts(a: Rect, b: Rect, width: nat, height: nat)
    requires OnScreen(a, width, height) && OnScreen(b, width, height)
    ensures OnScreen(MergeTwo(a, b), width, height) && Contains(MergeTwo(a, b), a) && Contains(MergeTwo(a, b), b)
  {
  }

  /** Nothing smaller contains both. */
  lemma MergeIsLeast(a: Rect, b: Rect, r: Rect)
    requires Contains(r, a) && Contains(r, b)
    ensures Contains(r, MergeTwo(a, b))
  {
  }

  lemma CoversCells(outer: seq<Rect>, inner: seq<Rect>, u: int, v: int)
    requires Covers(outer, inner) && InsideAny(inner, u, v)
    ensures InsideAny(outer, u, v)
  {
    var i :| 0 <= i < |inner| && Inside(inner[i], u, v);
    assert ContainedIn(inner[i], outer);
    var k :| 0 <= k < |outer| && Contains(outer[k], inner[i]);
    assert Inside(outer[k], u, v);
  }

  lemma CoversTransitive(a: seq<Rect>, b: seq<Rect>, c: seq<Rect>)
    requires Covers(a, b) && Covers(b, c)
    ensures Covers(a, c)
  {
    forall i | 0 <= i < |c| ensures ContainedIn(c[i], a) {
      assert ContainedIn(c[i], b);
      var k :| 0 <= k < |b| && Contains(b[k], c[i]);
      assert ContainedIn(b[k], a);
      var l :| 0 <= l < |a| && Contains(a[l], b[k]);
      assert Contains(a[l], c[i]);
    }
  }

  lemma CoversItself(a: seq<Rect>)
    ensures Covers(a, a)
  {
    forall i | 0 <= i < |a| ensures ContainedIn(a[i], a) {
      assert Contains(a[i], a[i]);
    }
  }

  // ---- marking ------------------------------------------------------------

  /** markDirty: the part of a rectangle that is on the screen, if there is any. */
  function Clip(x: int, y: int, w: int, h: int, width: nat, height: nat): Rect {
    var nx, ny := Max(0, x), Max(0, y);
    Rect(nx, ny, Min(x + w, width) - nx, Min(y + h, height) - ny)
  }

  /** Clipping loses exactly the cells off the screen. */
  lemma ClipIsIntersection(x: int, y: int, w: int, h: int, width: nat, height: nat, u: int, v: int)
    ensures Inside(Clip(x, y, w, h, width, height), u, v) <==> Inside(Rect(x, y, w, h), u, v) && 0 <= u < width && 0 <= v < height
  {
  }

  // ---- merging ------------------------------------------------------------

  function UpTo(n: nat): (s: set<int>)
    ensures |s| == n && forall k :: k in s <==> 0 <= k < n
  {
    if n == 0 then {} else UpTo(n - 1) + {n - 1}
  }

  /** Every rectangle taken so far lies in one that is written out. */
  ghost predicate Taken(rects: seq<Rect>, taken: set<int>, out: seq<Rect>) {
    forall k :: k in taken ==> 0 <= k < |rects| && ContainedIn(rects[k], out)
  }

  /** Among the rectangles from position i on, those taken lie in `current`; earlier ones in `out`. */
  ghost predicate TakenInto(rects: seq<Rect>, taken: set<int>, out: seq<Rect>, current: Rect) {
    forall k :: k in taken ==> 0 <= k < |rects| && (ContainedIn(rects[k], out) || Contains(current, rects[k]))
  }

  lemma TakenAppend(rects: seq<Rect>, taken: set<int>, out: seq<Rect>, current: Rect)
    requires TakenInto(rects, taken, out, current)
    ensures Taken(rects, taken, out + [current])
  {
    forall k | k in taken ensures 0 <= k < |rects| && ContainedIn(rects[k], out + [current]) {
      if ContainedIn(rects[k], out) {
        var l :| 0 <= l < |out| && Contains(out[l], rects[k]);
        assert Contains((out + [current])[l], rects[k]);
      } else {
        assert Contains((out + [current])[|out|], rects[k]);
      }
    }
  }

  lemma TakenGrows(rects: seq<Rect>, taken: set<int>, out: seq<Rect>, current: Rect, j: nat)
    requires TakenInto(rects, taken, out, current) && j < |rects|
    ensures TakenInto(rects, taken + {j}, out, MergeTwo(current, rects[j]))
  {
    forall k | k in taken + {j}
      ensures 0 <= k < |rects| && (ContainedIn(rects[k], out) || Contains(MergeTwo(current, rects[j]), rects[k]))
    {
    }
  }

  lemma TakenStart(rects: seq<Rect>, taken: set<int>, out: seq<Rect>, i: nat)
    requires Taken(rects, taken, out) && i < |rects|
    ensures TakenInto(rects, taken + {i}, out, rects[i])
  {
  }

  /** The inner loop: one rectangle absorbs every later one that it overlaps on the way. */
  method Absorb(rects: seq<Rect>, i: nat, taken: set<int>, ghost out: seq<Rect>, ghost width: nat, ghost height: nat)
    returns (current: Rect, taken': set<int>)
    requires i < |rects| && i !in taken && taken <= UpTo(|rects|) && AllOnScreen(rects, width, height) && Taken(rects, taken, out)
    ensures OnScreen(current, width, height) && taken + {i} <= taken' <= UpTo(|rects|)
    ensures TakenInto(rects, taken', out, current)
    ensures taken' == taken + {i} ==> current == rects[i] && forall j :: i < j < |rects| && j !in taken ==> !Overlap(rects[i], rects[j])
  {
    hide TakenInto, Taken, MergeTwo, Overlap, OnScreen, UpTo, Contains, ContainedIn;
    current, taken' := rects[i], taken + {i};
    assert OnScreen(rects[i], width, height);
    TakenStart(rects, taken, out, i);
    for j := i + 1 to |rects|
      invariant OnScreen(current, width, height) && taken + {i} <= taken' <= UpTo(|rects|)
      invariant TakenInto(rects, taken', out, current)
      invariant forall k :: j <= k < |rects| ==> (k in taken' <==> k in taken)
      invariant taken' == taken + {i} ==>
        current == rects[i] && forall k :: i < k < j && k !in taken ==> !Overlap(rects[i], rects[k])
    {
      if j !in taken' {
        if Overlap(current, rects[j]) {
          MergeFacts(current, rects[j], width, height);
          TakenGrows(rects, taken', out, current, j);
          current := MergeTwo(current, rects[j]);
          taken' := taken' + {j};
        }
      }
    }
  }

  lemma TakenCount(taken: set<int>, i: int, taken': set<int>)
    requires i !in taken && taken + {i} <= taken'
    ensures |taken'| >= |taken| + 1 && (taken' != taken + {i} ==> |taken'| >= |taken| + 2)
  {
    var more := taken' - (taken + {i});
    assert taken' == (taken + {i}) + more;
    assert more == {} ==> taken' == taken + {i};
  }

  lemma UpToNext(i: nat)
    ensures UpTo(i) + {i} == UpTo(i + 1)
  {
  }

  /** No rectangle before position i overlaps a later one. */
  ghost predicate ClearUpTo(rects: seq<Rect>, i: nat) {
    forall a, b :: 0 <= a < i && a < b < |rects| ==> !Overlap(rects[a], rects[b])
  }

  lemma AppendOnScreen(out: seq<Rect>, r: Rect, width: nat, height: nat)
    requires AllOnScreen(out, width, height) && OnScreen(r, width, height)
    ensures AllOnScreen(out + [r], width, height)
  {
  }

  lemma TakenAll(rects: seq<Rect>, taken: set<int>, out: seq<Rect>)
    requires Taken(rects, taken, out) && UpTo(|rects|) <= taken <= UpTo(|rects|)
    ensures Covers(out, rects) && |taken| == |rects|
  {
    assert taken == UpTo(|rects|);
  }

  lemma NothingTaken(rects: seq<Rect>, width: nat, height: nat)
    ensures Taken(rects, {}, []) && UpTo(0) == {} && AllOnScreen([], width, height) && ClearUpTo(rects, 0)
  {
  }

  lemma ClearNext(rects: seq<Rect>, i: nat, taken: set<int>)
    requires ClearUpTo(rects, i) && i < |rects| && taken == UpTo(i)
    requires forall j :: i < j < |rects| && j !in taken ==> !Overlap(rects[i], rects[j])
    ensures ClearUpTo(rects, i + 1)
  {
  }

  /** One pass of the outer loop. */
  method MergePass(rects: seq<Rect>, ghost width: nat, ghost height: nat) returns (merged: bool, out: seq<Rect>)
    requires AllOnScreen(rects, width, height)
    ensures AllOnScreen(out, width, height) && Covers(out, rects)
    ensures merged ==> |out| < |rects|
    ensures !merged ==> Disjoint(rects)
    ensures rects != [] ==> out != []
  {
    hide *;
    var taken: set<int> := {};
    merged, out := false, [];
    NothingTaken(rects, width, height);
    for i := 0 to |rects|
      invariant AllOnScreen(out, width, height) && Taken(rects, taken, out)
      invariant UpTo(i) <= taken <= UpTo(|rects|)
      invariant |out| <= |taken| && (merged ==> |out| < |taken|) && (taken != {} ==> out != [])
      invariant !merged ==> taken == UpTo(i) && ClearUpTo(rects, i)
    {
      UpToNext(i);
      if i !in taken {
        var current, taken' := Absorb(rects, i, taken, out, width, height);
        TakenAppend(rects, taken', out, current);
        TakenCount(taken, i, taken');
        AppendOnScreen(out, current, width, height);
        if taken' != taken + {i} {
          merged := true;
        } else if !merged {
          ClearNext(rects, i, taken);
        }
        out := out + [current];
        taken := taken';
      }
    }
    TakenAll(rects, taken, out);
    assert rects != [] ==> 0 in UpTo(|rects|);
    if !merged {
      ClearIsDisjoint(rects);
    }
  }

  lemma ClearIsDisjoint(rects: seq<Rect>)
    requires ClearUpTo(rects, |rects|)
    ensures Disjoint(rects)
  {
  }

  /** combineRects: one rectangle around all of them. */
  method CombineRects(rects: seq<Rect>, ghost width: nat, ghost height: nat) returns (r: Rect)
    requires rects != [] && AllOnScreen(rects, width, height)
    ensures OnScreen(r, width, height) && Covers([r], rects)
    ensures NoLarger(r, rects)
  {
    hide ContainedIn, NoLarger;
    assert NoLarger(rects[0], rects) by { ElementNoLarger(rects, 0); }
    var minX, minY := rects[0].x, rects[0].y;
    var maxX, maxY := rects[0].x + rects[0].width, rects[0].y + rects[0].height;
    for i := 0 to |rects|
      invariant OnScreen(Rect(minX, minY, maxX - minX, maxY - minY), width, height)
      invariant forall k :: 0 <= k < i ==> Contains(Rect(minX, minY, maxX - minX, maxY - minY), rects[k])
      invariant NoLarger(Rect(minX, minY, maxX - minX, maxY - minY), rects)
    {
      var rect := rects[i];
      ElementNoLarger(rects, i);
      MergedNoLarger(Rect(minX, minY, maxX - minX, maxY - minY), rect, rects);
      minX, minY := Min(minX, rect.x), Min(minY, rect.y);
      maxX, maxY := Max(maxX, rect.x + rect.width), Max(maxY, rect.y + rect.height);
    }
    r := Rect(minX, minY, maxX - minX, maxY - minY);
    ContainsAll(r, rects);
  }

  ghost predicate AllIn(outer: Rect, rects: seq<Rect>) { forall k :: 0 <= k < |rects| ==> Contains(outer, rects[k]) }

  /** Whatever contains all of them contains r. */
  ghost predicate NoLarger(r: Rect, rects: seq<Rect>) { forall outer :: AllIn(outer, rects) ==> Contains(outer, r) }

  lemma ElementNoLarger(rects: seq<Rect>, k: nat)
    requires k < |rects|
    ensures NoLarger(rects[k], rects)
  {
  }

  lemma MergedNoLarger(a: Rect, b: Rect, rects: seq<Rect>)
    requires NoLarger(a, rects) && NoLarger(b, rects)
    ensures NoLarger(MergeTwo(a, b), rects)
  {
    hide AllIn;
    forall outer | AllIn(outer, rects) ensures Contains(outer, MergeTwo(a, b)) {
      MergeIsLeast(a, b, outer);
    }
  }

  lemma ContainsAll(r: Rect, rects: seq<Rect>)
    requires forall k :: 0 <= k < |rects| ==> Contains(r, rects[k])
    ensures Covers([r], rects)
  {
    forall i | 0 <= i < |rects| ensures ContainedIn(rects[i], [r]) {
      assert Contains([r][0], rects[i]);
    }
  }

  /** mergeDirtyRects: passes until nothing merges any more, then at most twenty rectangles. The
      result stays on the screen, covers every dirty cell and has no cell in two rectangles. */
  method MergeDirtyRects(dirty: seq<Rect>, ghost width: nat, ghost height: nat) returns (rects: seq<Rect>)
    requires AllOnScreen(dirty, width, height)
    ensures AllOnScreen(rects, width, height) && Covers(rects, dirty) && Disjoint(rects)
    ensures |rects| <= 20 && (rects == [] <==> dirty == [])
  {
    hide Overlap, OnScreen, ContainedIn, Covers;
    CoversItself(dirty);
    if |dirty| == 0 {
      return [];
    }
    rects := dirty;
    var merged := true;
    while merged
      invariant AllOnScreen(rects, width, height) && Covers(rects, dirty) && rects != []
      invariant !merged ==> Disjoint(rects)
      decreases |rects| + if merged then 1 else 0
    {
      var out;
      merged, out := MergePass(rects, width, height);
      if merged {
        CoversTransitive(out, rects, dirty);
        rects := out;
      }
    }
    if |rects| > 20 {
      var combined := CombineRects(rects, width, height);
      CoversTransitive([combined], rects, dirty);
      rects := [combined];
    }
  }
}
