/** The screen a terminal draws on: the drawing routines of src/vtc_process.c, and scrolling
    and shifting as what happens to its rows. */
module TermGrid {
  type Grid = seq<seq<nat>>

  datatype Pos = Pos(row: nat, col: nat)

  /** The cells from `b` on, up to but not with `e`. */
  datatype Rect = Rect(b: Pos, e: Pos)

  const BLANK: nat := 0x20

  predicate Dims(g: Grid, rows: nat, cols: nat) {
    |g| == rows && forall i :: 0 <= i < rows ==> |g[i]| == cols
  }

  /** What teken_funcs_fill asserts. */
  predicate RectIn(r: Rect, rows: nat, cols: nat) {
    r.b.row < r.e.row <= rows && r.b.col < r.e.col <= cols
  }

  /** What teken_funcs_copy asserts besides. */
  predicate FitsAt(r: Rect, p: Pos, rows: nat, cols: nat) {
    p.row + (r.e.row - r.b.row) <= rows && p.col + (r.e.col - r.b.col) <= cols
  }

  /** What is shown for a character. */
  function Shown(ch: nat): nat { if ch > 126 || ch < 32 then 0x3f else ch }

  // ------------------------------------------------ drawing, all cells at once

  function Put(g: Grid, p: Pos, ch: nat): (h: Grid)
    requires p.row < |g| && p.col < |g[p.row]|
  {
    var row: seq<nat> := g[p.row][p.col := ch];
    g[p.row := row]
  }

  function FilledRow(g: Grid, i: nat, r: Rect, ch: nat): (row: seq<nat>)
    requires i < |g|
    ensures |row| == |g[i]|
  {
    if r.b.row <= i < r.e.row
    then seq(|g[i]|, j requires 0 <= j < |g[i]| => if r.b.col <= j < r.e.col then ch else g[i][j])
    else g[i]
  }

  function Filled(g: Grid, r: Rect, ch: nat): (h: Grid)
    ensures |h| == |g|
  {
    seq(|g|, i requires 0 <= i < |g| => FilledRow(g, i, r, ch))
  }

  /** Row `i` of the copy of `r` to `p`: every cell has the old value of the cell it comes from. */
  function CopiedRow(g: Grid, i: nat, r: Rect, p: Pos): (row: seq<nat>)
    requires i < |g| && Dims(g, |g|, |g[i]|) && RectIn(r, |g|, |g[i]|) && FitsAt(r, p, |g|, |g[i]|)
    ensures |row| == |g[i]|
  {
    if p.row <= i < p.row + (r.e.row - r.b.row) then
      var from := i - p.row + r.b.row;
      seq(|g[i]|, j requires 0 <= j < |g[i]| =>
        if p.col <= j < p.col + (r.e.col - r.b.col) then g[from][j - p.col + r.b.col] else g[i][j])
    else g[i]
  }

  function Copied(g: Grid, r: Rect, p: Pos, cols: nat): (h: Grid)
    requires Dims(g, |g|, cols) && RectIn(r, |g|, cols) && FitsAt(r, p, |g|, cols)
    ensures Dims(h, |g|, cols)
  {
    seq(|g|, i requires 0 <= i < |g| => CopiedRow(g, i, r, p))
  }

  // ------------------------------------------------ scrolling and shifting

  function Blank(cols: nat): (row: seq<nat>)
    ensures |row| == cols && forall j :: 0 <= j < cols ==> row[j] == BLANK
  {
    seq(cols, _ => BLANK)
  }

  /** The rows `b..e` move up by `n` (down if `n` is negative); blank rows come in. */
  function Scrolled(g: Grid, b: nat, e: nat, n: int, cols: nat): (h: Grid)
    requires e <= |g|
    ensures |h| == |g|
  {
    seq(|g|, i requires 0 <= i < |g| =>
      if i < b || i >= e then g[i] else if b <= i + n < e then g[i + n] else Blank(cols))
  }

  /** The cells of a row from `from` on move left by `n` (right if `n` is negative). */
  function Shifted(row: seq<nat>, from: nat, n: int): (r: seq<nat>)
    ensures |r| == |row|
  {
    seq(|row|, j requires 0 <= j < |row| =>
      if j < from then row[j] else if from <= j + n < |row| then row[j + n] else BLANK)
  }

  /** Scrolling twice the same way is scrolling once by the sum; what is outside stays. */
  lemma ScrolledTwice(g: Grid, b: nat, e: nat, m: int, n: int, cols: nat)
    requires e <= |g| && ((m >= 0 && n >= 0) || (m <= 0 && n <= 0))
    ensures Scrolled(Scrolled(g, b, e, m, cols), b, e, n, cols) == Scrolled(g, b, e, m + n, cols)
    ensures forall i :: 0 <= i < |g| && (i < b || i >= e) ==> Scrolled(g, b, e, m, cols)[i] == g[i]
  {
    var h := Scrolled(g, b, e, m, cols);
    forall i | 0 <= i < |g| ensures Scrolled(h, b, e, n, cols)[i] == Scrolled(g, b, e, m + n, cols)[i] {
      if b <= i < e && b <= i + n < e { assert h[i + n] == if b <= i + n + m < e then g[i + n + m] else Blank(cols); }
    }
  }

  lemma ShiftedTwice(row: seq<nat>, from: nat, m: int, n: int)
    requires (m >= 0 && n >= 0) || (m <= 0 && n <= 0)
    ensures Shifted(Shifted(row, from, m), from, n) == Shifted(row, from, m + n)
  {
    var h := Shifted(row, from, m);
    forall j | 0 <= j < |row| ensures Shifted(h, from, n)[j] == Shifted(row, from, m + n)[j] {
      if from <= j && from <= j + n < |row| { assert h[j + n] == if from <= j + n + m < |row| then row[j + n + m]
        else BLANK; }
    }
  }

  /** Scrolling there and back loses only what went over the edge. */
  lemma ScrolledBack(g: Grid, b: nat, e: nat, n: int, cols: nat)
    requires n >= 0 && b <= e <= |g| && Dims(g, |g|, cols)
    ensures Scrolled(Scrolled(g, b, e, n, cols), b, e, -n, cols)
      == Filled(g, Rect(Pos(b, 0), Pos(if b + n < e then b + n else e, cols)), BLANK)
  {
    var h := Scrolled(g, b, e, n, cols);
    var k := Scrolled(h, b, e, -n, cols);
    FilledIs(g, b, if b + n < e then b + n else e, cols);
    forall i | 0 <= i < |g| ensures k[i] == if b <= i < e && i < b + n then Blank(cols) else g[i] {
      assert b <= i < e && b <= i - n ==> h[i - n] == g[i];
    }
  }

  // ------------------------------------------------ how the code scrolls and shifts

  /** A full-width copy and a full-width fill scroll. */
  lemma ScrollUpIs(g: Grid, b: nat, e: nat, n: int, cols: nat)
    requires Dims(g, |g|, cols) && cols > 0 && b < e <= |g| && n > 0
    ensures b + n < e ==>
      Filled(Copied(g, Rect(Pos(b + n, 0), Pos(e, cols)), Pos(b, 0), cols), Rect(Pos(e - n, 0), Pos(e, cols)), BLANK)
        == Scrolled(g, b, e, n, cols)
    ensures b + n >= e ==> Filled(g, Rect(Pos(b, 0), Pos(e, cols)), BLANK) == Scrolled(g, b, e, n, cols)
  {
    if b + n < e {
      var h := Copied(g, Rect(Pos(b + n, 0), Pos(e, cols)), Pos(b, 0), cols);
      var k := Filled(h, Rect(Pos(e - n, 0), Pos(e, cols)), BLANK);
      forall i | 0 <= i < |g| ensures k[i] == Scrolled(g, b, e, n, cols)[i] {
        assert h[i] == CopiedRow(g, i, Rect(Pos(b + n, 0), Pos(e, cols)), Pos(b, 0));
        assert b <= i < e - n ==> h[i] == g[i + n];
        assert e - n <= i < e ==> k[i] == Blank(cols);
      }
    } else {
      FilledIs(g, b, e, cols);
      forall i | 0 <= i < |g|
        ensures Filled(g, Rect(Pos(b, 0), Pos(e, cols)), BLANK)[i] == Scrolled(g, b, e, n, cols)[i] {}
    }
  }

  lemma ScrollDownIs(g: Grid, b: nat, e: nat, n: int, cols: nat)
    requires Dims(g, |g|, cols) && cols > 0 && b < e <= |g| && n > 0
    ensures b + n < e ==>
      Filled(Copied(g, Rect(Pos(b, 0), Pos(e - n, cols)), Pos(b + n, 0), cols),
        Rect(Pos(b, 0), Pos(b + n, cols)), BLANK)
        == Scrolled(g, b, e, -n, cols)
    ensures b + n >= e ==> Filled(g, Rect(Pos(b, 0), Pos(e, cols)), BLANK) == Scrolled(g, b, e, -n, cols)
  {
    if b + n < e {
      var h := Copied(g, Rect(Pos(b, 0), Pos(e - n, cols)), Pos(b + n, 0), cols);
      var k := Filled(h, Rect(Pos(b, 0), Pos(b + n, cols)), BLANK);
      forall i | 0 <= i < |g| ensures k[i] == Scrolled(g, b, e, -n, cols)[i] {
        assert h[i] == CopiedRow(g, i, Rect(Pos(b, 0), Pos(e - n, cols)), Pos(b + n, 0));
        assert b + n <= i < e ==> h[i] == g[i - n];
        assert b <= i < b + n ==> k[i] == Blank(cols);
      }
    } else {
      FilledIs(g, b, e, cols);
      forall i | 0 <= i < |g|
        ensures Filled(g, Rect(Pos(b, 0), Pos(e, cols)), BLANK)[i] == Scrolled(g, b, e, -n, cols)[i] {}
    }
  }

  lemma FilledIs(g: Grid, b: nat, e: nat, cols: nat)
    requires Dims(g, |g|, cols) && b <= e <= |g|
    ensures forall i :: 0 <= i < |g| ==>
      Filled(g, Rect(Pos(b, 0), Pos(e, cols)), BLANK)[i] == if b <= i < e then Blank(cols) else g[i]
  {}

  /** A copy within a row and a fill shift it. */
  lemma ShiftLeftIs(g: Grid, row: nat, col: nat, n: int, cols: nat)
    requires Dims(g, |g|, cols) && row < |g| && col < cols && n > 0
    ensures col + n < cols ==>
      Filled(Copied(g, Rect(Pos(row, col + n), Pos(row + 1, cols)), Pos(row, col), cols),
        Rect(Pos(row, cols - n), Pos(row + 1, cols)), BLANK)
        == g[row := Shifted(g[row], col, n)]
    ensures col + n >= cols ==>
      Filled(g, Rect(Pos(row, col), Pos(row + 1, cols)), BLANK) == g[row := Shifted(g[row], col, n)]
  {
    if col + n < cols {
      var h := Copied(g, Rect(Pos(row, col + n), Pos(row + 1, cols)), Pos(row, col), cols);
      var r := Rect(Pos(row, cols - n), Pos(row + 1, cols));
      assert h[row] == CopiedRow(g, row, Rect(Pos(row, col + n), Pos(row + 1, cols)), Pos(row, col));
      assert FilledRow(h, row, r, BLANK) == Shifted(g[row], col, n);
      OneRow(g, h, r, row);
    } else {
      var r := Rect(Pos(row, col), Pos(row + 1, cols));
      assert FilledRow(g, row, r, BLANK) == Shifted(g[row], col, n);
      OneRow(g, g, r, row);
    }
  }

  lemma ShiftRightIs(g: Grid, row: nat, col: nat, n: int, cols: nat)
    requires Dims(g, |g|, cols) && row < |g| && col < cols && n > 0
    ensures col + n < cols ==>
      Filled(Copied(g, Rect(Pos(row, col), Pos(row + 1, cols - n)), Pos(row, col + n), cols),
        Rect(Pos(row, col), Pos(row + 1, col + n)), BLANK)
        == g[row := Shifted(g[row], col, -n)]
    ensures col + n >= cols ==>
      Filled(g, Rect(Pos(row, col), Pos(row + 1, cols)), BLANK) == g[row := Shifted(g[row], col, -n)]
  {
    if col + n < cols {
      var h := Copied(g, Rect(Pos(row, col), Pos(row + 1, cols - n)), Pos(row, col + n), cols);
      var r := Rect(Pos(row, col), Pos(row + 1, col + n));
      assert h[row] == CopiedRow(g, row, Rect(Pos(row, col), Pos(row + 1, cols - n)), Pos(row, col + n));
      assert FilledRow(h, row, r, BLANK) == Shifted(g[row], col, -n);
      OneRow(g, h, r, row);
    } else {
      var r := Rect(Pos(row, col), Pos(row + 1, cols));
      assert FilledRow(g, row, r, BLANK) == Shifted(g[row], col, -n);
      OneRow(g, g, r, row);
    }
  }

  /** A fill in one row of a grid that differs in that row only. */
  lemma OneRow(g: Grid, h: Grid, r: Rect, row: nat)
    requires |h| == |g| && row < |g| && r.b.row == row && r.e.row == row + 1
    requires forall i :: 0 <= i < |g| && i != row ==> h[i] == g[i]
    ensures Filled(h, r, BLANK) == g[row := FilledRow(h, row, r, BLANK)]
  {}

  // ------------------------------------------------ the screen

  /** memmove of one row: `cells` at `at`. */
  function Spliced(row: seq<nat>, at: nat, cells: seq<nat>): (r: seq<nat>)
    requires at + |cells| <= |row|
    ensures |r| == |row|
  {
    row[..at] + cells + row[at + |cells|..]
  }

  lemma SplicedIs(g: Grid, y: nat, r: Rect, p: Pos, cols: nat)
    requires Dims(g, |g|, cols) && RectIn(r, |g|, cols) && FitsAt(r, p, |g|, cols) && y < r.e.row - r.b.row
    ensures Spliced(g[p.row + y], p.col, g[r.b.row + y][r.b.col..r.e.col]) == CopiedRow(g, p.row + y, r, p)
  {}

  /** The screen of a process: `vram` is its rows. */
  class Screen {
    var nlin: nat
    var ncol: nat
    var vram: Grid

    ghost predicate Valid()
      reads this
    {
      Dims(vram, nlin, ncol)
    }

    constructor (lin: nat, col: nat)
      ensures Valid() && nlin == lin && ncol == col && vram == seq(lin, _ => Blank(col))
    {
      nlin, ncol, vram := lin, col, seq(lin, _ => Blank(col));
    }

    /** term_putchar: one cell, and what it shows can be printed. */
    method PutChar(p: Pos, ch: nat)
      requires Valid() && p.row < nlin && p.col < ncol
      modifies `vram
      ensures Valid() && vram == Put(old(vram), p, Shown(ch))
      ensures forall i, j :: 0 <= i < nlin && 0 <= j < ncol && Pos(i, j) != p ==> vram[i][j] == old(vram)[i][j]
      ensures vram[p.row][p.col] == if 0x20 <= ch <= 0x7e then ch else 0x3f
    {
      vram := Put(vram, p, Shown(ch));
    }

    /** term_fill: one cell after another. */
    method Fill(r: Rect, ch: nat)
      requires Valid() && RectIn(r, nlin, ncol)
      modifies `vram
      ensures Valid() && vram == Filled(old(vram), r, Shown(ch))
    {
      ghost var g := vram;
      var row := r.b.row;
      while row < r.e.row
        invariant r.b.row <= row <= r.e.row && Valid()
        invariant forall i :: 0 <= i < nlin ==> vram[i] == if i < row then FilledRow(g, i, r, Shown(ch)) else g[i]
      {
        ghost var h := vram;
        var col := r.b.col;
        while col < r.e.col
          invariant r.b.col <= col <= r.e.col && Valid()
          invariant forall i :: 0 <= i < nlin && i != row ==> vram[i] == h[i]
          invariant forall j :: 0 <= j < ncol ==> vram[row][j] == if r.b.col <= j < col then Shown(ch) else g[row][j]
        {
          PutChar(Pos(row, col), ch);
          col := col + 1;
        }
        assert vram[row] == FilledRow(g, row, r, Shown(ch));
        row := row + 1;
      }
      assert vram == Filled(g, r, Shown(ch));
    }

    /** term_copy: the rows are taken in the order that does not overwrite what is still to be copied. */
    method Copy(r: Rect, p: Pos)
      requires Valid() && RectIn(r, nlin, ncol) && FitsAt(r, p, nlin, ncol)
      modifies `vram
      ensures Valid() && vram == Copied(old(vram), r, p, ncol)
    {
      hide Spliced, CopiedRow;
      ghost var g := vram;
      var nrow := r.e.row - r.b.row;
      if p.row < r.b.row {
        var y := 0;
        while y < nrow
          invariant 0 <= y <= nrow && Valid()
          invariant forall i :: 0 <= i < nlin ==>
            vram[i] == if p.row <= i < p.row + y then CopiedRow(g, i, r, p) else g[i]
        {
          SplicedIs(g, y, r, p, ncol);
          vram := vram[p.row + y := Spliced(vram[p.row + y], p.col, vram[r.b.row + y][r.b.col..r.e.col])];
          y := y + 1;
        }
      } else {
        var y := nrow;
        while y > 0
          invariant 0 <= y <= nrow && Valid()
          invariant forall i :: 0 <= i < nlin ==>
            vram[i] == if p.row + y <= i < p.row + nrow then CopiedRow(g, i, r, p) else g[i]
        {
          y := y - 1;
          SplicedIs(g, y, r, p, ncol);
          vram := vram[p.row + y := Spliced(vram[p.row + y], p.col, vram[r.b.row + y][r.b.col..r.e.col])];
        }
      }
      forall i | 0 <= i < nlin ensures vram[i] == CopiedRow(g, i, r, p) {
        NotCopied(g, i, r, p);
      }
      assert vram == Copied(g, r, p, ncol);
    }
  }

  lemma NotCopied(g: Grid, i: nat, r: Rect, p: Pos)
    requires i < |g| && Dims(g, |g|, |g[i]|) && RectIn(r, |g|, |g[i]|) && FitsAt(r, p, |g|, |g[i]|)
    ensures !(p.row <= i < p.row + (r.e.row - r.b.row)) ==> CopiedRow(g, i, r, p) == g[i]
  {}
}
