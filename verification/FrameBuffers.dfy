/** Pixels, pictures and FrameBuffer of backend/renderer/FrameBuffer.js. */
module FrameBuffers {
  import opened Wrappers

  /** A colour by number or by name, or null. */
  datatype Attribute = Null | Number(n: int) | Name(s: string)

  datatype Pixel = Pixel(ch: char, fg: Attribute, bg: Attribute, style: Attribute)

  const BLANK: Pixel := Pixel(' ', Null, Null, Null)

  /** Rows of pixels, from the top. */
  type Picture = seq<seq<Pixel>>

  ghost predicate Sized(p: Picture, width: nat, height: nat) {
    |p| == height && forall v :: 0 <= v < |p| ==> |p[v]| == width
  }

  /** What setRegion finds for one cell: nothing where the data has no entry. */
  function RegionAt(data: seq<seq<Option<Pixel>>>, row: int, col: int): Option<Pixel> {
    if 0 <= row < |data| && 0 <= col < |data[row]| then data[row][col] else None
  }

  class FrameBuffer {
    const width: nat
    const height: nat
    const buffer: array2<Pixel>

    ghost predicate Valid() {
      buffer.Length0 == height && buffer.Length1 == width
    }

    predicate InFrame(x: int, y: int) { 0 <= x < width && 0 <= y < height }

    ghost function RowUpTo(v: nat, n: nat): (r: seq<Pixel>)
      requires Valid() && v < height && n <= width
      reads buffer
      ensures |r| == n && forall u :: 0 <= u < n ==> r[u] == buffer[v, u]
    {
      if n == 0 then [] else RowUpTo(v, n - 1) + [buffer[v, n - 1]]
    }

    ghost function RowsUpTo(n: nat): (r: Picture)
      requires Valid() && n <= height
      reads buffer
      ensures Sized(r, width, n) && forall v, u :: 0 <= v < n && 0 <= u < width ==> r[v][u] == buffer[v, u]
    {
      if n == 0 then [] else RowsUpTo(n - 1) + [RowUpTo(n - 1, width)]
    }

    /** The contents as a value. */
    ghost function Contents(): (r: Picture)
      requires Valid()
      reads buffer
      ensures Sized(r, width, height) && forall v, u :: 0 <= v < height && 0 <= u < width ==> r[v][u] == buffer[v, u]
    {
      RowsUpTo(height)
    }

    constructor (width: nat, height: nat)
      ensures Valid() && fresh(buffer) && this.width == width && this.height == height
      ensures forall v, u :: 0 <= v < height && 0 <= u < width ==> buffer[v, u] == BLANK
    {
      this.width, this.height := width, height;
      this.buffer := new Pixel[height, width]((v, u) => BLANK);
    }

    method GetPixel(x: int, y: int) returns (p: Option<Pixel>)
      requires Valid()
      ensures p == if InFrame(x, y) then Some(buffer[y, x]) else None
    {
      if x < 0 || x >= width || y < 0 || y >= height {
        return None;
      }
      p := Some(buffer[y, x]);
    }

    method SetPixel(x: int, y: int, ch: char, fg: Attribute, bg: Attribute, style: Attribute) returns (changed: bool)
      requires Valid()
      modifies buffer
      ensures changed <==> InFrame(x, y) && old(buffer[y, x]) != Pixel(ch, fg, bg, style)
      ensures forall v, u :: 0 <= v < height && 0 <= u < width ==>
        buffer[v, u] == if u == x && v == y then Pixel(ch, fg, bg, style) else old(buffer[v, u])
    {
      if x < 0 || x >= width || y < 0 || y >= height {
        return false;
      }
      var pixel := buffer[y, x];
      changed := false;
      if pixel.ch != ch {
        pixel := pixel.(ch := ch);
        changed := true;
      }
      if pixel.fg != fg {
        pixel := pixel.(fg := fg);
        changed := true;
      }
      if pixel.bg != bg {
        pixel := pixel.(bg := bg);
        changed := true;
      }
      if pixel.style != style {
        pixel := pixel.(style := style);
        changed := true;
      }
      buffer[y, x] := pixel;
    }

    method SetRow(y: int, rowData: seq<Pixel>) returns (changed: bool)
      requires Valid()
      modifies buffer
      ensures forall v, u :: 0 <= v < height && 0 <= u < width ==>
        buffer[v, u] == if v == y && u < |rowData| then rowData[u] else old(buffer[v, u])
      ensures !changed <==> forall v, u :: 0 <= v < height && 0 <= u < width ==> buffer[v, u] == old(buffer[v, u])
    {
      if y < 0 || y >= height {
        return false;
      }
      changed := false;
      var n := if |rowData| < width then |rowData| else width;
      for x := 0 to n
        invariant forall v, u :: 0 <= v < height && 0 <= u < width ==>
          buffer[v, u] == if v == y && u < x then rowData[u] else old(buffer[v, u])
        invariant !changed <==> forall v, u :: 0 <= v < height && 0 <= u < width ==> buffer[v, u] == old(buffer[v, u])
      {
        var data := rowData[x];
        var differs := SetPixel(x, y, data.ch, data.fg, data.bg, data.style);
        if differs {
          changed := true;
        }
      }
    }

    /** The cell that the region has for (u, v), if any. */
    function RegionCell(x: int, y: int, w: int, h: int, data: seq<seq<Option<Pixel>>>, u: int, v: int): Option<Pixel> {
      if x <= u < x + w && y <= v < y + h then RegionAt(data, v - y, u - x) else None
    }

    method SetRegion(x: int, y: int, w: int, h: int, data: seq<seq<Option<Pixel>>>) returns (changed: bool)
      requires Valid()
      modifies buffer
      ensures forall v, u :: 0 <= v < height && 0 <= u < width ==>
        buffer[v, u] == var c := RegionCell(x, y, w, h, data, u, v); if c.Some? then c.value else old(buffer[v, u])
      ensures forall v, u :: 0 <= v < height && 0 <= u < width ==>
        buffer[v, u] ==
          if x <= u < x + w && y <= v < y + h && v - y < |data| && u - x < |data[v - y]| && data[v - y][u - x].Some?
          then data[v - y][u - x].value else old(buffer[v, u])
      ensures !changed <==> forall v, u :: 0 <= v < height && 0 <= u < width ==> buffer[v, u] == old(buffer[v, u])
    {
      changed := false;
      var row := 0;
      while row < h
        invariant row == 0 || 0 < row <= h
        invariant forall v, u :: 0 <= v < height && 0 <= u < width ==>
          buffer[v, u] == var c := RegionCell(x, y, w, row, data, u, v); if c.Some? then c.value else old(buffer[v, u])
        invariant !changed <==> forall v, u :: 0 <= v < height && 0 <= u < width ==> buffer[v, u] == old(buffer[v, u])
      {
        var differs := SetRegionRow(x, y, w, row, data);
        if differs {
          changed := true;
        }
        row := row + 1;
      }
    }

    /** One row of the region: the inner loop. */
    method SetRegionRow(x: int, y: int, w: int, row: int, data: seq<seq<Option<Pixel>>>) returns (changed: bool)
      requires Valid()
      modifies buffer
      ensures forall v, u :: 0 <= v < height && 0 <= u < width ==>
        buffer[v, u] == if v == y + row && x <= u < x + w && RegionAt(data, row, u - x).Some?
                        then RegionAt(data, row, u - x).value else old(buffer[v, u])
      ensures !changed <==> forall v, u :: 0 <= v < height && 0 <= u < width ==> buffer[v, u] == old(buffer[v, u])
    {
      changed := false;
      var col := 0;
      while col < w
        invariant col == 0 || 0 < col <= w
        invariant forall v, u :: 0 <= v < height && 0 <= u < width ==>
          buffer[v, u] == if v == y + row && x <= u < x + col && RegionAt(data, row, u - x).Some?
                          then RegionAt(data, row, u - x).value else old(buffer[v, u])
        invariant !changed <==> forall v, u :: 0 <= v < height && 0 <= u < width ==> buffer[v, u] == old(buffer[v, u])
      {
        var rowData := RegionAt(data, row, col);
        if rowData.Some? {
          var p := rowData.value;
          var differs := SetPixel(x + col, y + row, p.ch, p.fg, p.bg, p.style);
          if differs {
            changed := true;
          }
        }
        col := col + 1;
      }
    }

    method Fill(character: char, fg: Attribute, bg: Attribute, style: Attribute) returns (changed: bool)
      requires Valid()
      modifies buffer
      ensures forall v, u :: 0 <= v < height && 0 <= u < width ==> buffer[v, u] == Pixel(character, fg, bg, style)
      ensures !changed <==> forall v, u :: 0 <= v < height && 0 <= u < width ==> buffer[v, u] == old(buffer[v, u])
    {
      var p := Pixel(character, fg, bg, style);
      changed := false;
      for y := 0 to height
        invariant forall v, u :: 0 <= v < height && 0 <= u < width ==> buffer[v, u] == if v < y then p else old(buffer[v, u])
        invariant !changed <==> forall v, u :: 0 <= v < height && 0 <= u < width ==> buffer[v, u] == old(buffer[v, u])
      {
        for x := 0 to width
          invariant forall v, u :: 0 <= v < height && 0 <= u < width ==>
            buffer[v, u] == if v < y || (v == y && u < x) then p else old(buffer[v, u])
          invariant !changed <==> forall v, u :: 0 <= v < height && 0 <= u < width ==> buffer[v, u] == old(buffer[v, u])
        {
          if buffer[y, x] != p {
            buffer[y, x] := p;
            changed := true;
          }
        }
      }
    }

    method Clear(character: char) returns (changed: bool)
      requires Valid()
      modifies buffer
      ensures forall v, u :: 0 <= v < height && 0 <= u < width ==> buffer[v, u] == Pixel(character, Null, Null, Null)
      ensures !changed <==> forall v, u :: 0 <= v < height && 0 <= u < width ==> buffer[v, u] == old(buffer[v, u])
    {
      changed := Fill(character, Null, Null, Null);
    }

    method Clone() returns (clone: FrameBuffer)
      requires Valid()
      ensures clone.Valid() && fresh(clone) && fresh(clone.buffer) && clone.width == width && clone.height == height
      ensures clone.Contents() == Contents()
    {
      clone := new FrameBuffer(width, height);
      for y := 0 to height
        invariant forall v, u :: 0 <= v < y && 0 <= u < width ==> clone.buffer[v, u] == buffer[v, u]
      {
        for x := 0 to width
          invariant forall v, u :: 0 <= v < y && 0 <= u < width ==> clone.buffer[v, u] == buffer[v, u]
          invariant forall u :: 0 <= u < x ==> clone.buffer[y, u] == buffer[y, u]
        {
          clone.buffer[y, x] := buffer[y, x];
        }
      }
      SamePicture(clone.Contents(), Contents(), width, height);
    }
  }

  lemma SamePicture(a: Picture, b: Picture, width: nat, height: nat)
    requires Sized(a, width, height) && Sized(b, width, height)
    requires forall v, u :: 0 <= v < height && 0 <= u < width ==> a[v][u] == b[v][u]
    ensures a == b
  {
    forall v | 0 <= v < height ensures a[v] == b[v] {
    }
  }
}
