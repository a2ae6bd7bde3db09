/** A character terminal, as far as the renderer's output needs it: cursor movements of ECMA-48
    (CUP 8.3.21, CUD 8.3.19, CHA 8.3.9, CUF 8.3.20), newline as CR LF, and printed characters. */
module Terminals {
  import opened FrameBuffers
  import opened Wrappers

  datatype Layer = Foreground | Background | Style

  /** Home and MoveTo are CUP, Down is CUD 1, Column is CHA, Forward is CUF 1; Rendition is SGR, which
      moves nothing and prints nothing. Positions in controls count from 1. */
  datatype Token = Home | MoveTo(row: int, col: int) | Down | Column(col: int) | Forward | NewLine
                 | Rendition(layer: Layer, attribute: Attribute) | Glyph(ch: char)

  /** Rows and columns count from 0. */
  datatype Terminal = Terminal(rows: nat, cols: nat, row: int, col: int, cells: map<(int, int), char>)

  function Clamp(x: int, n: nat): int { if x < 0 then 0 else if x >= n then n - 1 else x }

  function ScrollUp(cells: map<(int, int), char>): map<(int, int), char> {
    map p | p in cells && p.0 >= 1 :: (p.0 - 1, p.1) := cells[p]
  }

  function Obey(t: Terminal, token: Token): Terminal {
    match token
    case Home => t.(row := 0, col := 0)
    case MoveTo(r, c) => t.(row := Clamp(r - 1, t.rows), col := Clamp(c - 1, t.cols))
    case Down => t.(row := Clamp(t.row + 1, t.rows))
    case Column(c) => t.(col := Clamp(c - 1, t.cols))
    case Forward => t.(col := Clamp(t.col + 1, t.cols))
    case NewLine => if t.row + 1 < t.rows then t.(row := t.row + 1, col := 0)
                    else t.(col := 0, cells := ScrollUp(t.cells))
    case Rendition(_, _) => t
    case Glyph(ch) => t.(cells := t.cells[(t.row, t.col) := ch], col := Clamp(t.col + 1, t.cols))
  }

  function Interpret(tokens: seq<Token>, t: Terminal): Terminal {
    if tokens == [] then t else Obey(Interpret(tokens[..|tokens| - 1], t), tokens[|tokens| - 1])
  }

  lemma {:induction false} InterpretConcat(a: seq<Token>, b: seq<Token>, t: Terminal)
    ensures Interpret(a + b, t) == Interpret(b, Interpret(a, t))
  {
    hide Obey;
    if b == [] {
      assert a + b == a;
    } else {
      var front := b[..|b| - 1];
      InterpretConcat(a, front, t);
      assert (a + b)[..|a + b| - 1] == a + front;
    }
  }

  lemma InterpretOne(token: Token, t: Terminal)
    ensures Interpret([token], t) == Obey(t, token)
  {
    hide Obey;
    assert [token][..0] == [];
  }

  lemma InterpretAppend(a: seq<Token>, token: Token, t: Terminal)
    ensures Interpret(a + [token], t) == Obey(Interpret(a, t), token)
  {
    hide Obey;
    assert (a + [token])[..|a|] == a;
  }

  function Look(t: Terminal, u: int, v: int): Option<char> {
    if (v, u) in t.cells then Some(t.cells[(v, u)]) else None
  }

  ghost predicate At(t: Terminal, v: int, u: int) { t.row == v && t.col == u }

  ghost predicate SameSize(t: Terminal, t': Terminal) { t'.rows == t.rows && t'.cols == t.cols }

  /** The terminal is at least as high as the frame and wider than it. */
  ghost predicate Fits(t: Terminal, width: nat, height: nat) { t.rows >= height && t.cols > width }

  /** The glyphs of the frame's area are those of the picture. */
  ghost predicate Shows(t: Terminal, p: Picture, width: nat, height: nat)
    requires Sized(p, width, height)
  {
    forall u, v :: 0 <= u < width && 0 <= v < height ==> Look(t, u, v) == Some(p[v][u].ch)
  }
}
