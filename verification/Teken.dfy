/** The terminal emulator (src/teken.c and src/teken_subr.h), drawing on a TermGrid.Screen.
    The dispatch of escape sequences is left open: any routine may come next. */
module Teken {
  import opened TermGrid

  datatype Span = Span(b: nat, e: nat)

  /** The largest number teken_state_numbers lets through. */
  const ARG_MAX: nat := 429496719

  const T_NUMCOL: nat := 160

  predicate IsArg(n: nat) { 1 <= n <= ARG_MAX }

  /** A sum of `unsigned` or `int` operands that does not overflow either. */
  function Plus(a: nat, b: nat): nat
    requires a + b <= 0x7fff_ffff
  {
    a + b
  }

  predicate InWindow(p: Pos, win: Pos) { p.row < win.row && p.col < win.col }

  /** What teken_input_char asserts after every character, and that the origin region is the
      scroll region in origin mode and the whole window otherwise.  Rows and columns are 16-bit numbers. */
  ghost predicate Good(win: Pos, cursor: Pos, saved: Pos, scroll: Span, origin: Span, originMode: bool) {
    && 1 <= win.row <= 0xffff && 2 <= win.col <= 0xffff
    && origin.b <= cursor.row < origin.e && InWindow(cursor, win) && InWindow(saved, win)
    && scroll.b < scroll.e <= win.row
    && origin == if originMode then scroll else Span(0, win.row)
  }

  /** A character of `w` columns drawn at `p`, the rest of the row moved right in insert mode. */
  function Drawn(g: Grid, p: Pos, c: nat, w: nat, ins: bool, cols: nat): (h: Grid)
    requires Dims(g, |g|, cols) && p.row < |g| && p.col < cols && 1 <= w <= 2 && w <= cols
    ensures Dims(h, |g|, cols)
  {
    var g1 := if ins && p.col < cols - w then Copied(g, Rect(p, Pos(p.row + 1, cols - w)), Pos(p.row, p.col + w), cols)
      else g;
    var g2 := Put(g1, p, Shown(c));
    if w == 2 && p.col + 1 < cols then Put(g2, Pos(p.row, p.col + 1), Shown(c)) else g2
  }

  /** The cells from `p` on, moved right by `w`. */
  lemma MovedRight(g: Grid, p: Pos, w: nat, cols: nat)
    requires Dims(g, |g|, cols) && p.row < |g| && 1 <= w && p.col + w < cols
    ensures var h := Copied(g, Rect(p, Pos(p.row + 1, cols - w)), Pos(p.row, p.col + w), cols);
      && (forall j :: 0 <= j < cols ==> h[p.row][j] == if j >= p.col + w then g[p.row][j - w] else g[p.row][j])
      && forall i :: 0 <= i < |g| && i != p.row ==> h[i] == g[i]
  {
    var r, to := Rect(p, Pos(p.row + 1, cols - w)), Pos(p.row, p.col + w);
    assert Copied(g, r, to, cols)[p.row] == CopiedRow(g, p.row, r, to);
  }

  /** In insert mode the cells from `p` on move right by the width of the character. */
  lemma DrawnInserts(g: Grid, p: Pos, c: nat, w: nat, cols: nat)
    requires Dims(g, |g|, cols) && p.row < |g| && p.col < cols && 1 <= w <= 2 && w <= cols
    ensures forall j :: 0 <= j < cols ==>
      Drawn(g, p, c, w, true, cols)[p.row][j] == if p.col <= j < p.col + w then Shown(c)
        else Shifted(g[p.row], p.col, -(w as int))[j]
    ensures forall i :: 0 <= i < |g| && i != p.row ==> Drawn(g, p, c, w, true, cols)[i] == g[i]
  {
    hide Copied, Shown;
    var row, d := g[p.row], Drawn(g, p, c, w, true, cols)[p.row];
    if p.col + w < cols {
      MovedRight(g, p, w, cols);
      var h := Copied(g, Rect(p, Pos(p.row + 1, cols - w)), Pos(p.row, p.col + w), cols);
      forall j | 0 <= j < cols && !(p.col <= j < p.col + w) ensures d[j] == Shifted(row, p.col, -(w as int))[j] {
        assert d[j] == h[p.row][j] == if j >= p.col + w then g[p.row][j - w] else g[p.row][j];
        assert Shifted(row, p.col, -(w as int))[j] == if j >= p.col + w then row[j - w] else row[j];
      }
    }
  }

  /** The screen, the cursor and the flag TS_WRAPPED. */
  datatype Paper = Paper(g: Grid, cursor: Pos, wrapped: bool)

  /** What decides where a character goes. */
  datatype Setup = Setup(win: Pos, scroll: Span, autowrap: bool, insert: bool, cons25: bool)

  predicate Fits(p: Paper, u: Setup) {
    && Dims(p.g, u.win.row, u.win.col) && InWindow(p.cursor, u.win)
    && u.scroll.b < u.scroll.e <= u.win.row && 2 <= u.win.col <= 0xffff
  }

  predicate Wraps(p: Paper, w: nat, u: Setup) {
    u.autowrap && ((p.wrapped && p.cursor.col + 1 == u.win.col) || p.cursor.col + w > u.win.col)
  }

  /** On to the next row; at the end of the scroll region, and below it, the region scrolls. */
  function LineFed(p: Paper, u: Setup): Paper
    requires Fits(p, u)
  {
    if p.cursor.row + 1 >= u.scroll.e
    then Paper(Scrolled(p.g, u.scroll.b, u.scroll.e, 1, u.win.col), Pos(u.scroll.e - 1, p.cursor.col), false)
    else Paper(p.g, Pos(p.cursor.row + 1, p.cursor.col), false)
  }

  /** In cons25 mode the cursor never rests behind the last column.  `col` is where the character takes it. */
  function PrintedCons25(p: Paper, c: nat, w: nat, u: Setup, col: nat): Paper
    requires Fits(p, u) && 1 <= w <= 2
  {
    var g := Drawn(p.g, p.cursor, c, w, u.insert, u.win.col);
    if col < u.win.col then Paper(g, Pos(p.cursor.row, col), p.wrapped)
    else if p.cursor.row == u.scroll.e - 1 then
      Paper(Scrolled(g, u.scroll.b, u.scroll.e, 1, u.win.col), Pos(p.cursor.row, 0), p.wrapped)
    else Paper(g, Pos(Min(u.win.row - 1, p.cursor.row + 1), 0), p.wrapped)
  }

  /** On the next row, scrolling if need be; on the last row of the window, outside the scroll
      region, the character is drawn where the cursor is. */
  function PrintedWrapped(p: Paper, c: nat, w: nat, u: Setup): Paper
    requires Fits(p, u) && 1 <= w <= 2
  {
    var cols := u.win.col;
    if p.cursor.row == u.scroll.e - 1 then
      ScrolledDims(p.g, u.scroll.b, u.scroll.e, 1, cols);
      Paper(Drawn(Scrolled(p.g, u.scroll.b, u.scroll.e, 1, cols), Pos(p.cursor.row, 0), c, w, u.insert, cols),
        Pos(p.cursor.row, w), false)
    else if p.cursor.row + 1 == u.win.row then Paper(Drawn(p.g, p.cursor, c, w, u.insert, cols), p.cursor, p.wrapped)
    else Paper(Drawn(p.g, Pos(p.cursor.row + 1, 0), c, w, u.insert, cols), Pos(p.cursor.row + 1, w), false)
  }

  function PrintedHere(p: Paper, c: nat, w: nat, u: Setup, col: nat): Paper
    requires Fits(p, u) && 1 <= w <= 2
  {
    Paper(Drawn(p.g, p.cursor, c, w, u.insert, u.win.col),
      Pos(p.cursor.row, Min(u.win.col - 1, col)), col >= u.win.col)
  }

  function PrintedTo(p: Paper, c: nat, w: nat, u: Setup, col: nat): Paper
    requires Fits(p, u) && 1 <= w <= 2
  {
    if u.cons25 then PrintedCons25(p, c, w, u, col)
    else if Wraps(p, w, u) then PrintedWrapped(p, c, w, u)
    else PrintedHere(p, c, w, u, col)
  }

  /** `col + w` in a 16-bit column. */
  function Advanced(col: nat, w: nat): nat { (col + w) % 0x1_0000 }

  /** A character of `w` columns printed. */
  function Printed(p: Paper, c: nat, w: nat, u: Setup): Paper
    requires Fits(p, u) && 1 <= w <= 2
  {
    PrintedTo(p, c, w, u, Advanced(p.cursor.col, w))
  }

  /** The same, if columns were not 16-bit numbers. */
  function Intended(p: Paper, c: nat, w: nat, u: Setup): Paper
    requires Fits(p, u) && 1 <= w <= 2
  {
    PrintedTo(p, c, w, u, p.cursor.col + w)
  }

  /** A wide character that goes to the next row of a window of two columns: the cursor is put behind it, which is
      outside the window, where the code asserts it is not. */
  predicate Overruns(p: Paper, w: nat, u: Setup) {
    && !u.cons25 && Wraps(p, w, u) && w == u.win.col
    && (p.cursor.row == u.scroll.e - 1 || p.cursor.row + 1 < u.win.row)
  }

  /** Printing a character keeps the cursor in the window, if and only if it is not of that kind. */
  lemma PrintedStays(p: Paper, c: nat, w: nat, u: Setup)
    requires Fits(p, u) && 1 <= w <= 2
    ensures Fits(Printed(p, c, w, u), u) <==> !Overruns(p, w, u)
    ensures Overruns(p, w, u) ==> Printed(p, c, w, u).cursor.col == u.win.col == 2
  {
    hide Drawn, Scrolled;
    var g := Drawn(p.g, p.cursor, c, w, u.insert, u.win.col);
    ScrolledDims(g, u.scroll.b, u.scroll.e, 1, u.win.col);
    ScrolledDims(p.g, u.scroll.b, u.scroll.e, 1, u.win.col);
  }

  /** Two wide characters in a window of two columns. */
  lemma TwoWide()
    ensures var p, u := Paper([Blank(2), Blank(2)], Pos(0, 0), false), Setup(Pos(2, 2), Span(0, 2), true, false, false);
      Fits(p, u) && (var q := Printed(p, 0x1100, 2, u);
        && Fits(q, u) && q.cursor == Pos(0, 1) && q.wrapped
        && Printed(q, 0x1100, 2, u).cursor == Pos(1, 2) && !Fits(Printed(q, 0x1100, 2, u), u))
  {
    hide Drawn, Blank;
    var p, u := Paper([Blank(2), Blank(2)], Pos(0, 0), false), Setup(Pos(2, 2), Span(0, 2), true, false, false);
    PrintedStays(p, 0x1100, 2, u);
    PrintedStays(Printed(p, 0x1100, 2, u), 0x1100, 2, u);
  }

  /** The column wraps around to 0, and the cursor should have gone on or waited. */
  predicate Astray(p: Paper, w: nat, u: Setup) {
    && p.cursor.col + w == 0x1_0000
    && if u.cons25 then p.cursor.row == u.scroll.e - 1 || p.cursor.row + 1 < u.win.row else !u.autowrap
  }

  /** A character goes where it should and leaves the cursor where it should, unless it is a wide one in the last of
      65535 columns and there is no automatic wrapping; teken_wcwidth takes no character below 0x1100 for a wide one. */
  lemma PrintedAsIntended(p: Paper, c: nat, w: nat, u: Setup)
    requires Fits(p, u) && 1 <= w <= 2 && (w == 2 ==> c >= 0x1100)
    ensures Printed(p, c, w, u) == Intended(p, c, w, u) <==> !Astray(p, w, u)
  {
    hide Drawn, Scrolled;
    if p.cursor.col + w == 0x1_0000 && u.cons25 && p.cursor.row == u.scroll.e - 1 {
      DrawnHere(p.g, p.cursor, c, w, u.insert, u.win.col);
      ScrolledLast(Drawn(p.g, p.cursor, c, w, u.insert, u.win.col), u.scroll.b, u.scroll.e, u.win.col);
    }
  }

  lemma DrawnHere(g: Grid, p: Pos, c: nat, w: nat, ins: bool, cols: nat)
    requires Dims(g, |g|, cols) && p.row < |g| && p.col < cols && 1 <= w <= 2 && w <= cols
    ensures Drawn(g, p, c, w, ins, cols)[p.row][p.col] == Shown(c)
  {}

  lemma ScrolledLast(g: Grid, b: nat, e: nat, cols: nat)
    requires Dims(g, |g|, cols) && b < e <= |g|
    ensures Scrolled(g, b, e, 1, cols)[e - 1] == Blank(cols)
  {}

  /** One row of 65535 columns, without wrapping: behind a wide character the cursor is back in column 0. */
  lemma GoesAstray()
    ensures var p := Paper([Blank(0xffff)], Pos(0, 0xfffe), false);
      var u := Setup(Pos(1, 0xffff), Span(0, 1), false, false, false);
      && Fits(p, u) && Printed(p, 0x1100, 2, u).cursor == Pos(0, 0) && !Printed(p, 0x1100, 2, u).wrapped
      && Intended(p, 0x1100, 2, u).cursor == Pos(0, 0xfffe) && Intended(p, 0x1100, 2, u).wrapped
  {
    hide Drawn, Blank;
  }

  /** The screen and `t_last`, which is the character last drawn. */
  datatype Typed = Typed(p: Paper, last: nat)

  /** What teken_subr_regular_character does with a character: `scs` is teken_scs_process, `wcw` is teken_wcwidth. */
  function Typing(t: Typed, c0: nat, scs: nat -> nat, wcw: nat -> int, eightBit: bool, u: Setup): Typed {
    var c := scs(c0);
    var w := if eightBit then 1 else wcw(c);
    if Ignored(c0, w, eightBit, u.cons25) || !Fits(t.p, u) || w > 2 then t else Typed(Printed(t.p, c, w, u), c)
  }

  /** The character takes the cursor out of the window. */
  predicate Strays(t: Typed, c0: nat, scs: nat -> nat, wcw: nat -> int, eightBit: bool, u: Setup) {
    var w := if eightBit then 1 else wcw(scs(c0));
    !Ignored(c0, w, eightBit, u.cons25) && w >= 0 && Overruns(t.p, w, u)
  }

  /** The last character typed again, `n` times, or until the cursor has left the window.  What follows then does no
      better: a wide character is none that teken_scs_process changes. */
  function Repeated(t: Typed, scs: nat -> nat, wcw: nat -> int, eightBit: bool, u: Setup, n: nat): Typed {
    if n == 0 then t
    else
      var q := Repeated(t, scs, wcw, eightBit, u, n - 1);
      if q.last == 0 then q else Typing(q, q.last, scs, wcw, eightBit, u)
  }

  lemma RepeatedNone(t: Typed, scs: nat -> nat, wcw: nat -> int, eightBit: bool, u: Setup)
    ensures Repeated(t, scs, wcw, eightBit, u, 0) == t
  {}

  lemma RepeatedMore(t: Typed, scs: nat -> nat, wcw: nat -> int, eightBit: bool, u: Setup, n: nat)
    ensures var q := Repeated(t, scs, wcw, eightBit, u, n);
      q.last != 0 ==> Repeated(t, scs, wcw, eightBit, u, n + 1) == Typing(q, q.last, scs, wcw, eightBit, u)
  {}

  /** Nothing more is told of a cursor that has left the window. */
  lemma {:induction false} RepeatedOutside(t: Typed, scs: nat -> nat, wcw: nat -> int, eightBit: bool, u: Setup,
                                           n: nat, m: nat)
    requires n <= m && !Fits(Repeated(t, scs, wcw, eightBit, u, n).p, u)
    ensures Repeated(t, scs, wcw, eightBit, u, m) == Repeated(t, scs, wcw, eightBit, u, n)
    decreases m
  {
    if n < m { RepeatedOutside(t, scs, wcw, eightBit, u, n, m - 1); }
  }

  /** With no last character nothing happens, however often. */
  lemma {:induction false} RepeatedNothing(t: Typed, scs: nat -> nat, wcw: nat -> int, eightBit: bool, u: Setup,
                                           n: nat, m: nat)
    requires n <= m && Repeated(t, scs, wcw, eightBit, u, n).last == 0
    ensures Repeated(t, scs, wcw, eightBit, u, m) == Repeated(t, scs, wcw, eightBit, u, n)
    decreases m
  {
    if n < m { RepeatedNothing(t, scs, wcw, eightBit, u, n, m - 1); }
  }

  /** Whether a character is ignored. */
  predicate Ignored(c0: nat, width: int, eightBit: bool, cons25: bool) {
    if eightBit then !cons25 && (c0 <= 0x1b || c0 == 0x7f) else width <= 0
  }

  /** One column back; in cons25 mode from the first column to the end of the row above, in the origin region. */
  function BackedUp(p: Paper, win: Pos, top: nat, cons25: bool): Paper {
    if p.cursor.col > 0 then p.(cursor := Pos(p.cursor.row, p.cursor.col - 1), wrapped := p.wrapped && cons25)
    else if cons25 && p.cursor.row > top && win.col > 0 then p.(cursor := Pos(p.cursor.row - 1, win.col - 1))
    else p
  }

  /** A line feed, or in cons25 mode a blank origin region. */
  function NewPage(p: Paper, u: Setup, origin: Span): Paper
    requires Fits(p, u)
  {
    if !u.cons25 then LineFed(p, u)
    else Paper(Filled(p.g, Rect(Pos(origin.b, 0), Pos(origin.e, u.win.col)), BLANK), Pos(origin.b, 0), false)
  }

  predicate TabAt(tabs: set<nat>, col: nat) { if col >= T_NUMCOL then col % 8 == 0 else col in tabs }

  /** The number of tab stops from column `a` on, up to but not with `b`. */
  function TabsIn(tabs: set<nat>, a: nat, b: nat): nat {
    if b <= a then 0 else TabsIn(tabs, a, b - 1) + if TabAt(tabs, b - 1) then 1 else 0
  }

  lemma {:induction false} TabsFrom(tabs: set<nat>, a: nat, b: nat)
    requires a < b
    ensures TabsIn(tabs, a, b) == TabsIn(tabs, a + 1, b) + if TabAt(tabs, a) then 1 else 0
    decreases b
  {
    if a + 1 < b { TabsFrom(tabs, a, b - 1); }
  }

  /** From `p` to `q` in the same row: the `n`-th tab stop from `p` on, or the last column if there are fewer. */
  predicate Tabbed(tabs: set<nat>, p: Pos, q: Pos, n: nat, cols: nat) {
    && q.row == p.row && p.col <= q.col && (q.col < cols || q == p)
    && var k := TabsIn(tabs, p.col + 1, q.col + 1);
      (k == n && TabAt(tabs, q.col)) || (k < n && q.col + 1 == cols)
  }

  class Terminal {
    const screen: Screen
    var winsize: Pos
    var cursor: Pos
    var saved: Pos
    var scroll: Span
    var origin: Span
    var originMode: bool          // TS_ORIGIN
    var insert: bool              // TS_INSERT
    var autowrap: bool            // TS_AUTOWRAP
    var wrapped: bool             // TS_WRAPPED
    var eightBit: bool            // TS_8BIT
    var cons25: bool              // TS_CONS25
    var instring: bool            // TS_INSTRING
    var last: nat                 // t_last
    var tabs: set<nat>            // t_tabstops

    ghost predicate Valid()
      reads this, screen
    {
      && Good(winsize, cursor, saved, scroll, origin, originMode)
      && screen.Valid() && screen.nlin == winsize.row && screen.ncol == winsize.col
    }

    /** teken_init, and a window of the given size. */
    constructor (lin: nat, col: nat)
      requires 1 <= lin <= 0xffff && 2 <= col <= 0xffff
      ensures Valid() && fresh(screen) && winsize == Pos(lin, col) && cursor == Pos(0, 0) && autowrap && !originMode
    {
      screen := new Screen(lin, col);
      winsize, eightBit, cons25, last := Pos(lin, col), false, false, 0;
      cursor, saved, scroll, origin := Pos(0, 0), Pos(0, 0), Span(0, lin), Span(0, lin);
      originMode, insert, autowrap, wrapped, instring, tabs := false, false, true, false, false, {};
      new;
      DoReset();
    }

    // -------------------------------------------- resetting

    /** teken_subr_do_reset: what is on the screen stays. */
    method DoReset()
      modifies `cursor, `saved, `scroll, `origin, `originMode, `insert, `autowrap, `wrapped, `instring, `tabs
      ensures 1 <= winsize.row <= 0xffff && 2 <= winsize.col <= 0xffff ==>
        Good(winsize, cursor, saved, scroll, origin, originMode)
      ensures cursor == saved == Pos(0, 0) && scroll == origin == Span(0, winsize.row)
      ensures !originMode && !insert && autowrap && !wrapped && !instring
      ensures forall c :: c in tabs <==> 0 < c < T_NUMCOL && c % 8 == 0
    {
      cursor := Pos(0, 0);
      scroll := Span(0, winsize.row);
      origin := scroll;
      originMode, insert, wrapped, instring, autowrap := false, false, false, false, true;
      saved := cursor;
      TabDefault();
    }

    /** teken_tab_default */
    method TabDefault()
      modifies `tabs
      ensures forall c :: c in tabs <==> 0 < c < T_NUMCOL && c % 8 == 0
    {
      tabs := {};
      var i := 8;
      while i < T_NUMCOL
        invariant 8 <= i <= T_NUMCOL && i % 8 == 0
        invariant forall c :: c in tabs <==> 0 < c < i && c % 8 == 0
      {
        tabs := tabs + {i};
        i := i + 8;
      }
    }

    /** term_resize and teken_set_winsize: what fits of the screen stays.  The window is the screen if and only if
        its size can be told in 16 bits. */
    method Resize(lin: nat, col: nat)
      requires Valid() && lin >= 1 && col >= 2
      modifies this, screen
      ensures Valid() <==> lin <= 0xffff && col <= 0xffff
      ensures winsize == Pos(lin % 0x1_0000, col % 0x1_0000)
      ensures screen.Valid() && screen.nlin == lin && screen.ncol == col
      ensures cursor == Pos(0, 0) && !originMode && cons25 == old(cons25) && eightBit == old(eightBit)
      ensures forall i, j :: 0 <= i < lin && 0 <= j < col ==>
        screen.vram[i][j] == if i < old(screen.nlin) && j < old(screen.ncol) then old(screen.vram)[i][j] else BLANK
    {
      var old_ := screen.vram;
      var n, m := screen.nlin, screen.ncol;
      screen.vram := seq(lin, i requires 0 <= i < lin => seq(col, j requires 0 <= j < col =>
        if i < n && j < m && i < |old_| && j < |old_[i]| then old_[i][j] else BLANK));
      screen.nlin, screen.ncol := lin, col;
      winsize := Pos(lin % 0x1_0000, col % 0x1_0000);
      DoReset();
    }

    /** teken_subr_reset_to_initial_state */
    method ResetToInitialState()
      requires Valid()
      modifies `cursor, `saved, `scroll, `origin, `originMode, `insert, `autowrap, `wrapped, `instring, `tabs,
        screen`vram
      ensures Valid() && screen.vram == Filled(old(screen.vram), Rect(Pos(0, 0), winsize), BLANK)
      ensures cursor == saved == Pos(0, 0) && scroll == origin == Span(0, winsize.row)
      ensures !originMode && !insert && autowrap && !wrapped && !instring
      ensures forall c :: c in tabs <==> 0 < c < T_NUMCOL && c % 8 == 0
    {
      DoReset();
      EraseDisplay(2);
    }

    // -------------------------------------------- scrolling

    /** teken_subr_do_scroll: the rows of the scroll region move; blank rows come in. */
    method DoScroll(amount: int)
      requires screen.Valid() && screen.nlin == winsize.row && screen.ncol == winsize.col && winsize.col > 0
      requires scroll.b < scroll.e <= winsize.row <= 0xffff
      requires amount != 0 && -(ARG_MAX as int) <= amount <= ARG_MAX
      modifies screen`vram
      ensures screen.Valid() && screen.vram == Scrolled(old(screen.vram), scroll.b, scroll.e, amount, winsize.col)
    {
      hide Copied, Filled, Scrolled;
      var cols := winsize.col;
      var g := screen.vram;
      if amount > 0 {
        ScrollUpIs(g, scroll.b, scroll.e, amount, cols);
        var from := scroll.b;
        if Plus(scroll.b, amount) < scroll.e {
          screen.Copy(Rect(Pos(scroll.b + amount, 0), Pos(scroll.e, cols)), Pos(scroll.b, 0));
          from := scroll.e - amount;
        }
        screen.Fill(Rect(Pos(from, 0), Pos(scroll.e, cols)), BLANK);
      } else {
        var n: nat := -amount;
        ScrollDownIs(g, scroll.b, scroll.e, n, cols);
        var to := scroll.e;
        if Plus(scroll.b, n) < scroll.e {
          screen.Copy(Rect(Pos(scroll.b, 0), Pos(scroll.e - n, cols)), Pos(scroll.b + n, 0));
          to := scroll.b + n;
        }
        screen.Fill(Rect(Pos(scroll.b, 0), Pos(to, cols)), BLANK);
      }
    }

    /** teken_subr_pan_down and teken_subr_pan_up */
    method Pan(amount: int)
      requires Valid() && amount != 0 && -(ARG_MAX as int) <= amount <= ARG_MAX
      modifies screen`vram
      ensures Valid() && screen.vram == Scrolled(old(screen.vram), scroll.b, scroll.e, amount, winsize.col)
    {
      DoScroll(amount);
    }

    method Index()
      requires Valid()
      modifies `cursor, `wrapped, screen`vram
      ensures Valid()
      ensures ThePaper() == if old(cursor).row < scroll.e - 1
        then Paper(old(screen.vram), Pos(old(cursor).row + 1, old(cursor).col), false)
        else Paper(Scrolled(old(screen.vram), scroll.b, scroll.e, 1, winsize.col), old(cursor), old(wrapped))
    {
      if cursor.row < scroll.e - 1 {
        cursor := Pos(cursor.row + 1, cursor.col);
        wrapped := false;
      } else {
        DoScroll(1);
      }
    }

    method ReverseIndex()
      requires Valid()
      modifies `cursor, `wrapped, screen`vram
      ensures Valid()
      ensures ThePaper() == if old(cursor).row > scroll.b
        then Paper(old(screen.vram), Pos(old(cursor).row - 1, old(cursor).col), false)
        else Paper(Scrolled(old(screen.vram), scroll.b, scroll.e, -1, winsize.col), old(cursor), old(wrapped))
    {
      if cursor.row > scroll.b {
        cursor := Pos(cursor.row - 1, cursor.col);
        wrapped := false;
      } else {
        DoScroll(-1);
      }
    }

    /** teken_subr_newline: below the scroll region it scrolls too, and the cursor comes back into the region. */
    method Newline()
      requires Valid()
      modifies `cursor, `wrapped, screen`vram
      ensures Valid() && ThePaper() == LineFed(old(ThePaper()), TheSetup())
    {
      cursor := Pos(cursor.row + 1, cursor.col);
      if cursor.row >= scroll.e {
        DoScroll(1);
        cursor := Pos(scroll.e - 1, cursor.col);
      }
      wrapped := false;
    }

    method NextLine()
      requires Valid()
      modifies `cursor, `wrapped, screen`vram
      ensures Valid() && ThePaper() == LineFed(old(ThePaper()).(cursor := Pos(old(cursor).row, 0)), TheSetup())
    {
      cursor := Pos(cursor.row, 0);
      Newline();
    }

    /** teken_subr_newpage */
    method Newpage()
      requires Valid()
      modifies `cursor, `wrapped, screen`vram
      ensures Valid() && ThePaper() == NewPage(old(ThePaper()), TheSetup(), origin)
    {
      if cons25 {
        screen.Fill(Rect(Pos(origin.b, 0), Pos(origin.e, winsize.col)), BLANK);
        cursor := Pos(origin.b, 0);
        wrapped := false;
      } else {
        Newline();
      }
    }

    // -------------------------------------------- moving the cursor

    method Backspace()
      requires Valid()
      modifies `cursor, `wrapped
      ensures Valid() && ThePaper() == BackedUp(old(ThePaper()), winsize, origin.b, cons25)
    {
      if cons25 {
        if cursor.col == 0 {
          if cursor.row == origin.b {
            return;
          }
          cursor := Pos(cursor.row - 1, winsize.col - 1);
        } else {
          cursor := Pos(cursor.row, cursor.col - 1);
        }
      } else {
        if cursor.col == 0 {
          return;
        }
        cursor := Pos(cursor.row, cursor.col - 1);
        wrapped := false;
      }
    }

    method CarriageReturn()
      requires Valid()
      modifies `cursor, `wrapped
      ensures Valid() && cursor == Pos(old(cursor).row, 0) && !wrapped
    {
      cursor := Pos(cursor.row, 0);
      wrapped := false;
    }

    method CursorBackward(n: nat)
      requires Valid() && IsArg(n)
      modifies `cursor, `wrapped
      ensures Valid() && !wrapped && cursor == Pos(old(cursor).row, Max(0, old(cursor).col - n))
    {
      cursor := Pos(cursor.row, if n > cursor.col then 0 else cursor.col - n);
      wrapped := false;
    }

    method CursorForward(n: nat)
      requires Valid() && IsArg(n)
      modifies `cursor, `wrapped
      ensures Valid() && !wrapped && cursor == Pos(old(cursor).row, Min(winsize.col - 1, old(cursor).col + n))
    {
      cursor := Pos(cursor.row, if Plus(cursor.col, n) >= winsize.col then winsize.col - 1 else cursor.col + n);
      wrapped := false;
    }

    /** teken_subr_cursor_down: from below the scroll region it goes up to the last row of the region. */
    method CursorDown(n: nat)
      requires Valid() && IsArg(n)
      modifies `cursor, `wrapped
      ensures Valid() && !wrapped && cursor == Pos(Min(scroll.e - 1, old(cursor).row + n), old(cursor).col)
    {
      cursor := Pos(if Plus(cursor.row, n) >= scroll.e then scroll.e - 1 else cursor.row + n, cursor.col);
      wrapped := false;
    }

    method CursorUp(n: nat)
      requires Valid() && IsArg(n)
      modifies `cursor, `wrapped
      ensures Valid() && !wrapped && cursor == Pos(Max(scroll.b, old(cursor).row - n), old(cursor).col)
    {
      cursor := Pos(if Plus(scroll.b, n) >= cursor.row then scroll.b else cursor.row - n, cursor.col);
      wrapped := false;
    }

    method CursorNextLine(n: nat)
      requires Valid() && IsArg(n)
      modifies `cursor, `wrapped
      ensures Valid() && !wrapped && cursor == Pos(Min(scroll.e - 1, old(cursor).row + n), 0)
    {
      cursor := Pos(cursor.row, 0);
      CursorDown(n);
    }

    method CursorPreviousLine(n: nat)
      requires Valid() && IsArg(n)
      modifies `cursor, `wrapped
      ensures Valid() && !wrapped && cursor == Pos(Max(scroll.b, old(cursor).row - n), 0)
    {
      cursor := Pos(cursor.row, 0);
      CursorUp(n);
    }

    /** teken_subr_cursor_position: counted from 1, and from the top of the origin region. */
    method CursorPosition(row: nat, col: nat)
      requires Valid() && IsArg(row) && IsArg(col)
      modifies `cursor, `wrapped
      ensures Valid() && !wrapped
      ensures cursor == Pos(Min(origin.e - 1, origin.b + row - 1), Min(winsize.col - 1, col - 1))
    {
      var r, c := Plus(row - 1, origin.b), col - 1;
      cursor := Pos(if r < origin.e then r else origin.e - 1, if c < winsize.col then c else winsize.col - 1);
      wrapped := false;
    }

    method HorizontalPosition(col: nat)
      requires Valid() && IsArg(col)
      modifies `cursor, `wrapped
      ensures Valid() && !wrapped && cursor == Pos(old(cursor).row, Min(winsize.col - 1, col - 1))
    {
      var c := col - 1;
      cursor := Pos(cursor.row, if c < winsize.col then c else winsize.col - 1);
      wrapped := false;
    }

    method VerticalPosition(row: nat)
      requires Valid() && IsArg(row)
      modifies `cursor, `wrapped
      ensures Valid() && !wrapped && cursor == Pos(Min(origin.e - 1, origin.b + row - 1), old(cursor).col)
    {
      var r := Plus(row - 1, origin.b);
      cursor := Pos(if r < origin.e then r else origin.e - 1, cursor.col);
      wrapped := false;
    }

    predicate TabIsSet(col: nat)
      reads `tabs
    {
      TabAt(tabs, col)
    }

    /** teken_subr_cursor_forward_tabulation: to the `ntabs`-th tab stop from here, or to the last column. */
    method ForwardTab(ntabs: nat)
      requires Valid() && IsArg(ntabs)
      modifies `cursor
      ensures Valid() && Tabbed(tabs, old(cursor), cursor, ntabs, winsize.col)
    {
      var n := ntabs;
      while n > 0
        invariant Valid() && cursor.row == old(cursor).row && old(cursor).col <= cursor.col
        invariant n >= 0 && n + TabsIn(tabs, old(cursor).col + 1, cursor.col + 1) == ntabs
        invariant n == 0 ==> TabIsSet(cursor.col)
        decreases winsize.col - cursor.col
      {
        if cursor.col == winsize.col - 1 {
          break;
        }
        cursor := Pos(cursor.row, cursor.col + 1);
        if TabIsSet(cursor.col) {
          n := n - 1;
        }
      }
    }

    method BackwardTab(ntabs: nat)
      requires Valid() && IsArg(ntabs)
      modifies `cursor
      ensures Valid() && cursor.row == old(cursor).row && cursor.col <= old(cursor).col
      ensures var n := TabsIn(tabs, cursor.col, old(cursor).col);
        (n == ntabs && TabIsSet(cursor.col)) || (n < ntabs && cursor.col == 0)
    {
      var n := ntabs;
      while n > 0
        invariant Valid() && cursor.row == old(cursor).row && cursor.col <= old(cursor).col
        invariant n >= 0 && n + TabsIn(tabs, cursor.col, old(cursor).col) == ntabs
        invariant n == 0 ==> TabIsSet(cursor.col)
        decreases cursor.col
      {
        if cursor.col == 0 {
          break;
        }
        TabsFrom(tabs, cursor.col - 1, old(cursor).col);
        cursor := Pos(cursor.row, cursor.col - 1);
        if TabIsSet(cursor.col) {
          n := n - 1;
        }
      }
    }

    method TabSet()
      requires Valid()
      modifies `tabs
      ensures Valid() && forall c: nat :: TabAt(tabs, c) <==> TabAt(old(tabs), c) || (c == cursor.col && c < T_NUMCOL)
    {
      if cursor.col < T_NUMCOL {
        tabs := tabs + {cursor.col};
      }
    }

    method TabClear(cmd: nat)
      requires Valid()
      modifies `tabs
      ensures Valid()
      ensures cmd == 0 ==>
        forall c: nat :: TabAt(tabs, c) <==> TabAt(old(tabs), c) && !(c == cursor.col && c < T_NUMCOL)
      ensures cmd == 3 ==> forall c: nat :: TabAt(tabs, c) <==> c >= T_NUMCOL && c % 8 == 0
      ensures cmd != 0 && cmd != 3 ==> tabs == old(tabs)
    {
      if cmd == 0 {
        if cursor.col < T_NUMCOL {
          tabs := tabs - {cursor.col};
        }
      } else if cmd == 3 {
        tabs := {};
      }
    }

    method SaveCursor()
      requires Valid()
      modifies `saved
      ensures Valid() && saved == cursor
    {
      saved := cursor;
    }

    /** teken_subr_restore_cursor: origin mode ends if the saved place is outside the region. */
    method RestoreCursor()
      requires Valid()
      modifies `cursor, `wrapped, `originMode, `origin
      ensures Valid() && cursor == saved && !wrapped
      ensures originMode == (old(originMode) && scroll.b <= saved.row < scroll.e)
    {
      cursor := saved;
      wrapped := false;
      if cursor.row < origin.b || cursor.row >= origin.e {
        originMode := false;
        origin := Span(0, winsize.row);
      }
    }

    // -------------------------------------------- margins and modes

    /** teken_subr_set_top_and_bottom_margins: at least two rows, or else the whole window. */
    method SetMargins(top0: nat, bottom0: nat)
      requires Valid() && top0 <= ARG_MAX && bottom0 <= ARG_MAX
      modifies `scroll, `origin, `cursor, `wrapped
      ensures Valid() && cursor == Pos(origin.b, 0) && !wrapped
      ensures var b := if top0 > 0 then top0 - 1 else 0;
        var e := if bottom0 == 0 then winsize.row else Min(bottom0, winsize.row);
        scroll == if b + 1 < e then Span(b, e) else Span(0, winsize.row)
    {
      var top, bottom := top0, bottom0;
      if top > 0 {
        top := top - 1;
      }
      if bottom == 0 || bottom > winsize.row {
        bottom := winsize.row;
      }
      if top >= bottom - 1 {
        top, bottom := 0, winsize.row;
      }
      scroll := Span(top, bottom);
      if originMode {
        origin := scroll;
      }
      cursor := Pos(origin.b, 0);
      wrapped := false;
    }

    /** Mode 6 of teken_subr_set_dec_mode. */
    method SetOriginMode()
      requires Valid()
      modifies `originMode, `origin, `cursor, `wrapped
      ensures Valid() && originMode && cursor == Pos(scroll.b, 0) && !wrapped
    {
      originMode := true;
      origin := scroll;
      cursor := Pos(scroll.b, 0);
      wrapped := false;
    }

    /** Mode 6 of teken_subr_reset_dec_mode. */
    method ResetOriginMode()
      requires Valid()
      modifies `originMode, `origin, `cursor, `wrapped
      ensures Valid() && !originMode && cursor == Pos(0, 0) && !wrapped
    {
      originMode := false;
      origin := Span(0, winsize.row);
      cursor := Pos(0, 0);
      wrapped := false;
    }

    /** teken_subr_alignment_test */
    method AlignmentTest()
      requires Valid()
      modifies `cursor, `scroll, `origin, `originMode, `wrapped, screen`vram
      ensures Valid() && cursor == Pos(0, 0) && scroll == Span(0, winsize.row) && !originMode && !wrapped
      ensures screen.vram == Filled(old(screen.vram), Rect(Pos(0, 0), winsize), 0x45)
    {
      cursor := Pos(0, 0);
      scroll := Span(0, winsize.row);
      origin := scroll;
      wrapped, originMode := false, false;
      screen.Fill(Rect(Pos(0, 0), winsize), 0x45);
    }

    // -------------------------------------------- lines and characters

    /** teken_subr_delete_line: the rows below move up, within the scroll region. */
    method DeleteLine(n: nat)
      requires Valid() && IsArg(n)
      modifies screen`vram
      ensures Valid()
      ensures screen.vram == if scroll.b <= cursor.row < scroll.e
        then Scrolled(old(screen.vram), cursor.row, scroll.e, n, winsize.col) else old(screen.vram)
    {
      hide Copied, Filled, Scrolled;
      if cursor.row < scroll.b || cursor.row >= scroll.e {
        return;
      }
      var cols := winsize.col;
      ScrollUpIs(screen.vram, cursor.row, scroll.e, n, cols);
      var from := cursor.row;
      if Plus(cursor.row, n) < scroll.e {
        screen.Copy(Rect(Pos(cursor.row + n, 0), Pos(scroll.e, cols)), Pos(cursor.row, 0));
        from := scroll.e - n;
      }
      screen.Fill(Rect(Pos(from, 0), Pos(scroll.e, cols)), BLANK);
    }

    /** teken_subr_insert_line: the rows from the cursor on move down, within the scroll region. */
    method InsertLine(n: nat)
      requires Valid() && IsArg(n)
      modifies screen`vram
      ensures Valid()
      ensures screen.vram == if scroll.b <= cursor.row < scroll.e
        then Scrolled(old(screen.vram), cursor.row, scroll.e, -(n as int), winsize.col) else old(screen.vram)
    {
      hide Copied, Filled, Scrolled;
      if cursor.row < scroll.b || cursor.row >= scroll.e {
        return;
      }
      var cols := winsize.col;
      ScrollDownIs(screen.vram, cursor.row, scroll.e, n, cols);
      var to := scroll.e;
      if Plus(cursor.row, n) < scroll.e {
        screen.Copy(Rect(Pos(cursor.row, 0), Pos(scroll.e - n, cols)), Pos(cursor.row + n, 0));
        to := cursor.row + n;
      }
      screen.Fill(Rect(Pos(cursor.row, 0), Pos(to, cols)), BLANK);
    }

    method DeleteCharacter(n: nat)
      requires Valid() && IsArg(n)
      modifies screen`vram
      ensures Valid()
      ensures screen.vram == old(screen.vram)[cursor.row := Shifted(old(screen.vram)[cursor.row], cursor.col, n)]
    {
      hide Copied, Filled, Shifted;
      var cols := winsize.col;
      ShiftLeftIs(screen.vram, cursor.row, cursor.col, n, cols);
      var from := cursor.col;
      if Plus(cursor.col, n) < cols {
        screen.Copy(Rect(Pos(cursor.row, cursor.col + n), Pos(cursor.row + 1, cols)), cursor);
        from := cols - n;
      }
      screen.Fill(Rect(Pos(cursor.row, from), Pos(cursor.row + 1, cols)), BLANK);
    }

    method InsertCharacter(n: nat)
      requires Valid() && IsArg(n)
      modifies screen`vram
      ensures Valid()
      ensures screen.vram ==
        old(screen.vram)[cursor.row := Shifted(old(screen.vram)[cursor.row], cursor.col, -(n as int))]
    {
      hide Copied, Filled, Shifted;
      var cols := winsize.col;
      ShiftRightIs(screen.vram, cursor.row, cursor.col, n, cols);
      var to := cols;
      if Plus(cursor.col, n) < cols {
        screen.Copy(Rect(cursor, Pos(cursor.row + 1, cols - n)), Pos(cursor.row, cursor.col + n));
        to := cursor.col + n;
      }
      screen.Fill(Rect(cursor, Pos(cursor.row + 1, to)), BLANK);
    }

    method EraseCharacter(n: nat)
      requires Valid() && IsArg(n)
      modifies screen`vram
      ensures Valid()
      ensures screen.vram ==
        Filled(old(screen.vram), Rect(cursor, Pos(cursor.row + 1, Min(winsize.col, cursor.col + n))), BLANK)
      ensures forall i, j :: 0 <= i < winsize.row && 0 <= j < winsize.col ==>
        screen.vram[i][j]
          == if i == cursor.row && cursor.col <= j < cursor.col + n then BLANK else old(screen.vram)[i][j]
    {
      var to := if Plus(cursor.col, n) >= winsize.col then winsize.col else cursor.col + n;
      screen.Fill(Rect(cursor, Pos(cursor.row + 1, to)), BLANK);
    }

    /** The part of the cursor's row that teken_subr_erase_line blanks. */
    function LineRect(mode: nat): Rect
      reads `cursor, `winsize
    {
      Rect(Pos(cursor.row, if mode == 1 || mode == 2 then 0 else cursor.col),
           Pos(cursor.row + 1, if mode == 1 then cursor.col + 1 else winsize.col))
    }

    method EraseLine(mode: nat)
      requires Valid()
      modifies screen`vram
      ensures Valid()
      ensures forall i, j :: 0 <= i < winsize.row && 0 <= j < winsize.col ==>
        screen.vram[i][j] == if i == cursor.row && Erased(mode, cursor, i, j) then BLANK else old(screen.vram)[i][j]
    {
      screen.Fill(LineRect(mode), BLANK);
    }

    /** teken_subr_erase_display */
    method EraseDisplay(mode: nat)
      requires Valid()
      modifies screen`vram
      ensures Valid()
      ensures mode == 2 ==> screen.vram == Filled(old(screen.vram), Rect(Pos(0, 0), winsize), BLANK)
      ensures forall i, j :: 0 <= i < winsize.row && 0 <= j < winsize.col ==>
        screen.vram[i][j] == if Erased(mode, cursor, i, j) then BLANK else old(screen.vram)[i][j]
    {
      var from, to := 0, winsize.row;
      if mode == 1 {
        EraseLine(1);
        if cursor.row == 0 {
          return;
        }
        to := cursor.row;
      } else if mode != 2 {
        EraseLine(0);
        if cursor.row == winsize.row - 1 {
          return;
        }
        from := cursor.row + 1;
      }
      screen.Fill(Rect(Pos(from, 0), Pos(to, winsize.col)), BLANK);
    }
  
    // -------------------------------------------- printing

    /** teken_subr_do_putchar */
    method DoPutchar(p: Pos, c: nat, w: nat)
      requires Valid() && InWindow(p, winsize) && 1 <= w <= 2
      modifies `last, screen`vram
      ensures Valid() && last == c && screen.vram == Drawn(old(screen.vram), p, c, w, insert, winsize.col)
    {
      hide Copied, Put, Shown;
      last := c;
      if insert && p.col < winsize.col - w {
        screen.Copy(Rect(p, Pos(p.row + 1, winsize.col - w)), Pos(p.row, p.col + w));
      }
      screen.PutChar(p, c);
      if w == 2 && p.col + 1 < winsize.col {
        screen.PutChar(Pos(p.row, p.col + 1), c);
      }
    }

    function TheSetup(): Setup
      reads `winsize, `scroll, `autowrap, `insert, `cons25
    {
      Setup(winsize, scroll, autowrap, insert, cons25)
    }

    function ThePaper(): Paper
      reads `cursor, `wrapped, screen
    {
      Paper(screen.vram, cursor, wrapped)
    }

    /** The part of teken_subr_regular_character for cons25 mode. */
    method PrintCons25(c: nat, w: nat)
      requires Valid() && 1 <= w <= 2
      modifies `last, `cursor, screen`vram
      ensures Valid() && last == c
      ensures ThePaper() == PrintedCons25(old(ThePaper()), c, w, TheSetup(), Advanced(old(cursor).col, w))
    {
      hide Drawn, Scrolled;
      DoPutchar(cursor, c, w);
      var col := (cursor.col + w) % 0x1_0000;
      if col >= winsize.col {
        if cursor.row == scroll.e - 1 {
          DoScroll(1);
          cursor := Pos(cursor.row, 0);
        } else if cursor.row < winsize.row - 1 {
          cursor := Pos(cursor.row + 1, 0);
        } else {
          cursor := Pos(cursor.row, 0);
        }
      } else {
        cursor := Pos(cursor.row, col);
      }
    }

    /** The part that wraps the line. */
    method PrintWrapped(c: nat, w: nat)
      requires Valid() && 1 <= w <= 2 && !cons25 && Wraps(ThePaper(), w, TheSetup())
      modifies `last, `cursor, `wrapped, screen`vram
      ensures last == c && ThePaper() == PrintedWrapped(old(ThePaper()), c, w, TheSetup())
      ensures Valid() <==> !Overruns(old(ThePaper()), w, TheSetup())
      ensures Valid() <==> cursor.col < winsize.col
    {
      hide Drawn, Scrolled;
      var row;
      if cursor.row == scroll.e - 1 {
        DoScroll(1);
        row := scroll.e - 1;
      } else {
        row := cursor.row + 1;
        if row == winsize.row {
          DoPutchar(cursor, c, w);
          return;
        }
      }
      DoPutchar(Pos(row, 0), c, w);
      cursor := Pos(row, w);
      wrapped := false;
    }

    /** The part that does not. */
    method PrintHere(c: nat, w: nat)
      requires Valid() && 1 <= w <= 2
      modifies `last, `cursor, `wrapped, screen`vram
      ensures Valid() && last == c
      ensures ThePaper() == PrintedHere(old(ThePaper()), c, w, TheSetup(), Advanced(old(cursor).col, w))
    {
      hide Drawn;
      DoPutchar(cursor, c, w);
      var col := (cursor.col + w) % 0x1_0000;
      if col >= winsize.col {
        wrapped := true;
        cursor := Pos(cursor.row, winsize.col - 1);
      } else {
        wrapped := false;
        cursor := Pos(cursor.row, col);
      }
    }

    function TheTyped(): Typed
      reads `cursor, `wrapped, `last, screen
    {
      Typed(ThePaper(), last)
    }

    /** teken_subr_regular_character; `scs` is teken_scs_process and `wcw` is teken_wcwidth. */
    method RegularCharacter(c0: nat, scs: nat -> nat, wcw: nat -> int)
      requires Valid() && forall c :: wcw(c) <= 2
      modifies `last, `cursor, `wrapped, screen`vram
      ensures TheTyped() == Typing(old(TheTyped()), c0, scs, wcw, eightBit, TheSetup())
      ensures Valid() <==> !Strays(old(TheTyped()), c0, scs, wcw, eightBit, TheSetup())
      ensures Valid() <==> cursor.col < winsize.col
    {
      hide Drawn, Scrolled, PrintedCons25, PrintedWrapped, PrintedHere;
      var c, w;
      if eightBit {
        if !cons25 && (c0 <= 0x1b || c0 == 0x7f) {
          return;
        }
        c := scs(c0);
        w := 1;
      } else {
        c := scs(c0);
        w := wcw(c);
        if w <= 0 {
          return;
        }
      }
      if cons25 {
        PrintCons25(c, w);
      } else if autowrap && ((wrapped && cursor.col + 1 == winsize.col) || cursor.col + w > winsize.col) {
        PrintWrapped(c, w);
      } else {
        PrintHere(c, w);
      }
    }

    /** What becomes of the window when the last character is repeated. */
    function TheRepeated(rpts: nat, scs: nat -> nat, wcw: nat -> int): Typed
      reads `winsize, `scroll, `autowrap, `insert, `cons25, `cursor, `wrapped, `last, `eightBit, screen
    {
      Repeated(TheTyped(), scs, wcw, eightBit, TheSetup(), Min(rpts, winsize.row * winsize.col))
    }

    /** teken_subr_repeat_last_graphic_char: no more often than there are cells. */
    method RepeatLast(rpts: nat, scs: nat -> nat, wcw: nat -> int)
      requires Valid() && IsArg(rpts) && forall c :: wcw(c) <= 2
      modifies `last, `cursor, `wrapped, screen`vram
      ensures TheTyped() == old(TheRepeated(rpts, scs, wcw))
      ensures Valid() <==> Fits(TheTyped().p, TheSetup())
      ensures Valid() <==> cursor.col < winsize.col
    {
      hide Typing, Repeated, Strays;
      ghost var t, u := TheTyped(), TheSetup();
      var most := winsize.row * winsize.col;
      var n := if rpts > most then most else rpts;
      ghost var times := n;
      RepeatedNone(t, scs, wcw, eightBit, u);
      while last != 0 && n > 0
        invariant Valid() && 0 <= n <= times && TheSetup() == u
        invariant TheTyped() == Repeated(t, scs, wcw, eightBit, u, times - n)
        decreases n
      {
        RepeatedMore(t, scs, wcw, eightBit, u, times - n);
        RegularCharacter(last, scs, wcw);
        n := n - 1;
        if cursor.col >= winsize.col {     // the assertion that ends every character will fail
          RepeatedOutside(t, scs, wcw, eightBit, u, times - n, times);
          return;
        }
      }
      if last == 0 { RepeatedNothing(t, scs, wcw, eightBit, u, times - n, times); }
    }

    // -------------------------------------------- any run

    /** The routine takes the cursor out of the window, or makes the window another size than the screen. */
    ghost predicate Trips(op: Op)
      reads this, screen
    {
      match op
      case Print(c0, scs, wcw) => Strays(TheTyped(), c0, scs, wcw, eightBit, TheSetup())
      case Repeat(n, scs, wcw) => !Fits(TheRepeated(n, scs, wcw).p, TheSetup())
      case Size(lin, col) => lin > 0xffff || col > 0xffff
      case _ => false
    }

    predicate OneSize()
      reads `winsize, screen
    {
      winsize == Pos(screen.nlin, screen.ncol)
    }

    method Apply(op: Op)
      requires Valid() && OpOk(op)
      modifies this, screen
      ensures Valid() <==> !old(Trips(op))
      ensures Valid() <==> cursor.col < winsize.col && OneSize()
      ensures !op.Print? && !op.Repeat? && !op.Size? ==> Done(op, old(TheState()), TheState())
      ensures op.Print? ==> TheTyped() == Typing(old(TheTyped()), op.c0, op.scs, op.wcw, eightBit, TheSetup())
      ensures op.Repeat? ==> TheTyped() == old(TheRepeated(op.n4, op.scs, op.wcw))
      ensures winsize == if op.Size? then Pos(op.lin % 0x1_0000, op.col % 0x1_0000) else old(winsize)
    {
      hide Strays, Typing, Repeated, Fits, Done;
      match op {
        case Print(c0, scs, wcw) => RegularCharacter(c0, scs, wcw);
        case Repeat(n, scs, wcw) => RepeatLast(n, scs, wcw);
        case Size(lin, col) => Resize(lin, col);
        case _ => Route(op);
      }
    }

    lemma FitsNow()
      requires Valid()
      ensures Fits(ThePaper(), TheSetup())
      ensures Fits(ThePaper().(cursor := Pos(cursor.row, 0)), TheSetup())
    {}

    lemma OriginIs()
      requires Valid()
      ensures origin == if originMode then scroll else Span(0, winsize.row)
    {}

    ghost function TheState(): State
      reads this, screen
    {
      State(winsize, cursor, saved, scroll, origin, originMode, insert, autowrap, wrapped, eightBit, cons25, instring,
        tabs, screen.vram)
    }

    /** Any routine but those that print and resize. */
    method Route(op: Op)
      requires Valid() && OpOk(op) && !op.Print? && !op.Repeat? && !op.Size?
      modifies this, screen
      ensures Valid() && winsize == old(winsize) && Done(op, old(TheState()), TheState())
    {
      hide DoneMoves, DoneModes, DoneEdits;
      if IsMove(op) {
        RouteMoves(op);
      } else if IsEdit(op) {
        RouteEdits(op);
      } else {
        RouteModes(op);
      }
    }

    method RouteMoves(op: Op)
      requires Valid() && OpOk(op) && IsMove(op)
      modifies `cursor, `wrapped, screen`vram
      ensures Valid() && DoneMoves(op, old(TheState()), TheState())
    {
      hide Valid, Good, DoneMoves;
      if op.Indexing? {
        RouteIndex(op.back);
      } else if op.Line? || op.NextLineOp? {
        RouteFeeds(op);
      } else {
        RouteSteps(op);
      }
    }

    method RouteIndex(back: bool)
      requires Valid()
      modifies `cursor, `wrapped, screen`vram
      ensures Valid() && DoneMoves(Indexing(back), old(TheState()), TheState())
    {
      hide Valid, Good, Fits, Scrolled, Filled, LineFed, NewPage, BackedUp, Moved;
      FitsNow();
      if back {
        ReverseIndex();
      } else {
        Index();
      }
    }

    method RouteFeeds(op: Op)
      requires Valid() && (op.Line? || op.NextLineOp?)
      modifies `cursor, `wrapped, screen`vram
      ensures Valid() && DoneMoves(op, old(TheState()), TheState())
    {
      hide Valid, Good, Fits, Scrolled, Filled, LineFed, NewPage, BackedUp, Moved;
      FitsNow();
      match op {
        case Line(page) => if page { Newpage(); } else { Newline(); }
        case NextLineOp => NextLine();
      }
    }

    method RouteSteps(op: Op)
      requires Valid() && OpOk(op) && (op.Back? || op.Return? || op.Move? || op.MoveTo?)
      modifies `cursor, `wrapped
      ensures Valid() && DoneMoves(op, old(TheState()), TheState())
    {
      hide Valid, Good, Fits, BackedUp, Moved, Min, Scrolled, LineFed, NewPage;
      FitsNow();
      match op {
        case Back => Backspace();
        case Return => CarriageReturn();
        case Move(dir, n) => MoveCursor(dir, n);
        case MoveTo(r, c) => CursorPosition(r, c);
      }
    }

    method RouteEdits(op: Op)
      requires Valid() && OpOk(op) && IsEdit(op)
      modifies screen`vram
      ensures Valid() && DoneEdits(op, old(TheState()), TheState())
    {
      hide Valid, Good, Fits, Scrolled, Filled, Shifted, Blanked;
      FitsNow();
      match op {
        case Scroll(n) => Pan(n);
        case Lines(ins, n) => if ins { InsertLine(n); } else { DeleteLine(n); }
        case Characters(ins, n) => if ins { InsertCharacter(n); } else { DeleteCharacter(n); }
        case Erase(what, n) => EraseSome(what, n);
      }
      FitsNow();
    }

    method EraseSome(what: What, n: nat)
      requires Valid() && (what.Chars? ==> IsArg(n))
      modifies screen`vram
      ensures Valid() && Dims(screen.vram, winsize.row, winsize.col)
      ensures forall i, j :: 0 <= i < winsize.row && 0 <= j < winsize.col ==>
        screen.vram[i][j] == if Blanked(what, n, cursor, i, j) then BLANK else old(screen.vram)[i][j]
    {
      hide Filled, Erased;
      match what {
        case Chars => EraseCharacter(n);
        case InLine => EraseLine(n);
        case InDisplay => EraseDisplay(n);
      }
    }

    method RouteModes(op: Op)
      requires Valid() && OpOk(op) && !op.Print? && !op.Repeat? && !op.Size? && !IsMove(op) && !IsEdit(op)
      modifies this, screen`vram
      ensures Valid() && winsize == old(winsize) && DoneModes(op, old(TheState()), TheState())
    {
      hide DoneModes, Good;
      if op.Tab? {
        RouteTab(op.set_, op.cmd);
      } else if op.Align? || op.Reset? {
        RouteResets(op);
      } else if op.InsertMode? || op.AutoWrap? || op.Flags? || op.StartString? {
        RouteFlags(op);
      } else {
        RoutePlaces(op);
      }
    }

    method RouteTab(set_: bool, cmd: nat)
      requires Valid()
      modifies `tabs
      ensures Valid() && DoneModes(Tab(set_, cmd), old(TheState()), TheState())
    {
      hide Good;
      if set_ {
        TabSet();
      } else {
        TabClear(cmd);
      }
    }

    method RouteFlags(op: Op)
      requires Valid() && (op.InsertMode? || op.AutoWrap? || op.Flags? || op.StartString?)
      modifies `insert, `autowrap, `eightBit, `cons25, `instring
      ensures Valid() && DoneModes(op, old(TheState()), TheState())
    {
      hide Good;
      match op {
        case InsertMode(on) => insert := on;
        case AutoWrap(on) => autowrap := on;
        case Flags(eight, cons) => eightBit, cons25 := eight, cons;
        case StartString => instring := true;
      }
    }

    method RoutePlaces(op: Op)
      requires Valid() && OpOk(op) && (op.Save? || op.Restore? || op.Margins? || op.OriginMode?)
      modifies `saved, `cursor, `wrapped, `originMode, `origin, `scroll
      ensures Valid() && DoneModes(op, old(TheState()), TheState())
    {
      hide Good;
      OriginIs();
      match op {
        case Save => SaveCursor();
        case Restore => RestoreCursor();
        case Margins(t, b) => SetMargins(t, b);
        case OriginMode(on) => if on { SetOriginMode(); } else { ResetOriginMode(); }
      }
      OriginIs();
    }

    method RouteResets(op: Op)
      requires Valid() && (op.Align? || op.Reset?)
      modifies `cursor, `saved, `scroll, `origin, `originMode, `insert, `autowrap, `wrapped, `instring, `tabs,
        screen`vram
      ensures Valid() && DoneModes(op, old(TheState()), TheState())
    {
      hide Good, Filled;
      if op.Align? {
        AlignmentTest();
      } else {
        ResetToInitialState();
      }
      OriginIs();
    }

    method MoveCursor(dir: Dir, n: nat)
      requires Valid() && IsArg(n)
      modifies `cursor, `wrapped
      ensures Valid() && Moved(dir, n, old(TheState()), TheState())
    {
      hide Valid, Good, TabAt, TabsIn, Tabbed, Min, Max;
      match dir {
        case Left => CursorBackward(n);
        case Right => CursorForward(n);
        case Up => CursorUp(n);
        case Down => CursorDown(n);
        case UpLines => CursorPreviousLine(n);
        case DownLines => CursorNextLine(n);
        case ToTab => ForwardTab(n);
        case BackToTab => BackwardTab(n);
        case ToRow => VerticalPosition(n);
        case ToColumn => HorizontalPosition(n);
      }
    }

    /** The character is left to t_nextstate. */
    predicate HandsOn(c: nat)
      reads `instring, `cons25
    {
      && (instring ==> c == 0x1b)
      && !(c == 0 || 0x07 <= c <= 0x0d || (0x0e <= c <= 0x0f && !cons25))
    }

    /** teken_input_char.  `next` is what t_nextstate makes of a character that is not a control character. */
    method InputChar(c: nat, next: Op)
      requires Valid() && OpOk(next)
      modifies this, screen
      // the assertions at the end hold, if and only if nothing has taken the cursor out of the window
      ensures Valid() <==> !(old(HandsOn(c)) && old(Trips(next)))
      ensures old(instring) && c != 0x1b ==>
        && instring == (c != 0x07) && ThePaper() == old(ThePaper())
        && saved == old(saved) && scroll == old(scroll) && origin == old(origin)
      ensures !old(instring) && (c == 0 || c == 0x07 || ((c == 0x0e || c == 0x0f) && !old(cons25))) ==>
        ThePaper() == old(ThePaper()) && !instring
      ensures !old(instring) && c == 0x08 ==> ThePaper() == BackedUp(old(ThePaper()), winsize, origin.b, cons25)
      ensures !old(instring) && c == 0x09 ==>
        screen.vram == old(screen.vram) && Tabbed(tabs, old(cursor), cursor, 1, winsize.col)
      ensures !old(instring) && (c == 0x0a || c == 0x0b) ==> ThePaper() == LineFed(old(ThePaper()), old(TheSetup()))
      ensures !old(instring) && c == 0x0c ==> ThePaper() == NewPage(old(ThePaper()), old(TheSetup()), origin)
      ensures !old(instring) && c == 0x0d ==> ThePaper() == Paper(old(screen.vram), Pos(old(cursor).row, 0), false)
      // these change nothing but the screen and the cursor
      ensures !old(instring) && 0x08 <= c <= 0x0d ==>
        && saved == old(saved) && scroll == old(scroll) && origin == old(origin)
        && tabs == old(tabs) && TheSetup() == old(TheSetup())
    {
      hide Done, LineFed, NewPage, BackedUp, Tabbed;
      if instring {
        if c == 0x1b {
          instring := false;
        } else {
          if c == 0x07 {
            instring := false;
          }
          return;
        }
      }
      if c == 0 || c == 0x07 {
      } else if c == 0x08 {
        Backspace();
      } else if c == 0x0a || c == 0x0b {
        Newline();
      } else if c == 0x0c {
        Newpage();
      } else if c == 0x0e || c == 0x0f {
        if cons25 {
          Apply(next);
        }
      } else if c == 0x0d {
        CarriageReturn();
      } else if c == 0x09 {
        ForwardTab(1);
      } else {
        Apply(next);
      }
    }

    /** Whatever routines a stream of characters leads to, everything the emulator asserts holds after each, up to
        one that takes the cursor out of the window or resizes beyond 16 bits: `done` are through. */
    method Run(ops: seq<Op>) returns (done: nat)
      requires Valid() && forall k :: 0 <= k < |ops| ==> OpOk(ops[k])
      modifies this, screen
      ensures done <= |ops| && (Valid() <==> done == |ops|)
      ensures done < |ops| ==>
        if ops[done].Size? then ops[done].lin > 0xffff || ops[done].col > 0xffff
        else winsize.col == 2 && (ops[done].Print? || ops[done].Repeat?)
      // never in a window of three columns or more
      ensures old(winsize).col > 2 && (forall k :: 0 <= k < |ops| ==> WideSize(ops[k])) ==> done == |ops|
    {
      hide Done;
      done := 0;
      while done < |ops|
        invariant 0 <= done <= |ops| && Valid()
        invariant old(winsize).col > 2 && (forall k :: 0 <= k < |ops| ==> WideSize(ops[k])) ==> winsize.col > 2
      {
        ghost var t, u := TheTyped(), TheSetup();
        if ops[done].Repeat? {
          StaysInWide(t, ops[done].scs, ops[done].wcw, eightBit, u, Min(ops[done].n4, winsize.row * winsize.col));
        }
        Apply(ops[done]);
        if cursor.col >= winsize.col || !OneSize() {
          return;
        }
        done := done + 1;
      }
    }
  }

  /** In a window of three columns or more no character takes the cursor out of it. */
  lemma {:induction false} StaysInWide(t: Typed, scs: nat -> nat, wcw: nat -> int, eightBit: bool, u: Setup, n: nat)
    requires Fits(t.p, u)
    ensures u.win.col > 2 ==> Fits(Repeated(t, scs, wcw, eightBit, u, n).p, u)
  {
    hide Printed, Fits;
    if n > 0 && u.win.col > 2 {
      StaysInWide(t, scs, wcw, eightBit, u, n - 1);
      var q := Repeated(t, scs, wcw, eightBit, u, n - 1);
      var c := scs(q.last);
      var w := if eightBit then 1 else wcw(c);
      if 1 <= w <= 2 { PrintedStays(q.p, c, w, u); }
    }
  }

  lemma ScrolledDims(g: Grid, b: nat, e: nat, n: int, cols: nat)
    requires Dims(g, |g|, cols) && e <= |g|
    ensures Dims(Scrolled(g, b, e, n, cols), |g|, cols)
  {
    var h := Scrolled(g, b, e, n, cols);
    forall i | 0 <= i < |g| ensures |h[i]| == cols {
      assert h[i] == if i < b || i >= e then g[i] else if b <= i + n < e then g[i + n] else Blank(cols);
    }
  }

  datatype Dir = Left | Right | Up | Down | UpLines | DownLines | ToTab | BackToTab | ToRow | ToColumn

  datatype What = Chars | InLine | InDisplay

  /** A routine with its arguments. */
  datatype Op =
    | Scroll(n: int) | Indexing(back: bool) | Line(page: bool) | NextLineOp | Back | Return
    | Move(dir: Dir, n0: nat) | MoveTo(r: nat, c: nat) | Tab(set_: bool, cmd: nat) | Save | Restore
    | Margins(t: nat, b: nat) | OriginMode(on: bool) | InsertMode(on: bool) | AutoWrap(on: bool)
    | Flags(eight: bool, cons: bool)
    | Align | Lines(ins: bool, n1: nat) | Characters(ins: bool, n2: nat) | Erase(what: What, n3: nat)
    | Print(c0: nat, scs: nat -> nat, wcw: nat -> int) | Repeat(n4: nat, scs: nat -> nat, wcw: nat -> int)
    | Reset | StartString | Size(lin: nat, col: nat)

  predicate WideSize(op: Op) { op.Size? ==> op.lin <= 0xffff && 2 < op.col <= 0xffff }

  /** Arguments as the escape sequences deliver them: 1 or more where a count is meant, and bounded. */
  ghost predicate OpOk(op: Op) {
    match op
    case Scroll(n) => n != 0 && -(ARG_MAX as int) <= n <= ARG_MAX
    case Move(_, n) => IsArg(n)
    case MoveTo(r, c) => IsArg(r) && IsArg(c)
    case Margins(t, b) => t <= ARG_MAX && b <= ARG_MAX
    case Lines(_, n) => IsArg(n)
    case Characters(_, n) => IsArg(n)
    case Erase(what, n) => what.Chars? ==> IsArg(n)
    case Print(_, _, wcw) => forall c :: wcw(c) <= 2
    case Repeat(n, _, wcw) => IsArg(n) && forall c :: wcw(c) <= 2
    case Size(lin, col) => lin >= 1 && col >= 2
    case _ => true
  }

  // ------------------------------------------------ what a routine does

  /** Everything a routine can see or change. */
  datatype State = State(win: Pos, cursor: Pos, saved: Pos, scroll: Span, origin: Span, originMode: bool, insert: bool,
                         autowrap: bool, wrapped: bool, eightBit: bool, cons25: bool, instring: bool,
                         tabs: set<nat>, g: Grid)

  function PaperOf(s: State): Paper { Paper(s.g, s.cursor, s.wrapped) }

  function SetupOf(s: State): Setup { Setup(s.win, s.scroll, s.autowrap, s.insert, s.cons25) }

  /** The same state with another screen, cursor and flag. */
  function WithPaper(s: State, p: Paper): State { s.(g := p.g, cursor := p.cursor, wrapped := p.wrapped) }

  predicate IsMove(op: Op) {
    op.Indexing? || op.Line? || op.NextLineOp? || op.Back? || op.Return? || op.Move? || op.MoveTo?
  }

  predicate IsEdit(op: Op) { op.Scroll? || op.Lines? || op.Characters? || op.Erase? }

  /** What each routine makes of the state, and that it changes nothing else. */
  ghost predicate Done(op: Op, s: State, t: State) {
    if IsMove(op) then DoneMoves(op, s, t) else if IsEdit(op) then DoneEdits(op, s, t) else DoneModes(op, s, t)
  }

  ghost predicate DoneMoves(op: Op, s: State, t: State) {
    && Fits(PaperOf(s), SetupOf(s))
    && match op
       case Indexing(back) =>
         if !back && s.cursor.row < s.scroll.e - 1 then
           t == s.(cursor := Pos(s.cursor.row + 1, s.cursor.col), wrapped := false)
         else if back && s.cursor.row > s.scroll.b then
           t == s.(cursor := Pos(s.cursor.row - 1, s.cursor.col), wrapped := false)
         else t == s.(g := Scrolled(s.g, s.scroll.b, s.scroll.e, if back then -1 else 1, s.win.col))
       case Line(page) =>
         t == WithPaper(s, if page then NewPage(PaperOf(s), SetupOf(s), s.origin) else LineFed(PaperOf(s), SetupOf(s)))
       case NextLineOp =>
         var left := PaperOf(s).(cursor := Pos(s.cursor.row, 0));
         Fits(left, SetupOf(s)) && t == WithPaper(s, LineFed(left, SetupOf(s)))
       case Back => t == WithPaper(s, BackedUp(PaperOf(s), s.win, s.origin.b, s.cons25))
       case Return => t == s.(cursor := Pos(s.cursor.row, 0), wrapped := false)
       case Move(dir, n) => Moved(dir, n, s, t)
       case MoveTo(r, c) =>
         && t.cursor.row == Min(s.origin.e - 1, s.origin.b + r - 1) && t.cursor.col == Min(s.win.col - 1, c - 1)
         && t == s.(cursor := t.cursor, wrapped := false)
       case _ => true
  }

  /** The cursor moves one way, no further than it may. */
  ghost predicate Moved(dir: Dir, n: nat, s: State, t: State) {
    var row, col := t.cursor.row, t.cursor.col;
    && t == s.(cursor := t.cursor, wrapped := s.wrapped && (dir.ToTab? || dir.BackToTab?))
    && match dir
       case Left => row == s.cursor.row && col == Max(0, s.cursor.col - n)
       case Right => row == s.cursor.row && col == Min(s.win.col - 1, s.cursor.col + n)
       case Up => row == Max(s.scroll.b, s.cursor.row - n) && col == s.cursor.col
       case Down => row == Min(s.scroll.e - 1, s.cursor.row + n) && col == s.cursor.col
       case UpLines => row == Max(s.scroll.b, s.cursor.row - n) && col == 0
       case DownLines => row == Min(s.scroll.e - 1, s.cursor.row + n) && col == 0
       case ToTab => Tabbed(s.tabs, s.cursor, t.cursor, n, s.win.col)
       case BackToTab =>
         && row == s.cursor.row && col <= s.cursor.col
         && var k := TabsIn(s.tabs, col, s.cursor.col); (k == n && TabAt(s.tabs, col)) || (k < n && col == 0)
       case ToRow => row == Min(s.origin.e - 1, s.origin.b + n - 1) && col == s.cursor.col
       case ToColumn => row == s.cursor.row && col == Min(s.win.col - 1, n - 1)
  }

  ghost predicate DoneEdits(op: Op, s: State, t: State) {
    && Fits(PaperOf(s), SetupOf(s)) && t == s.(g := t.g) && Fits(PaperOf(t), SetupOf(t))
    && match op
       case Scroll(n) => t.g == Scrolled(s.g, s.scroll.b, s.scroll.e, n, s.win.col)
       case Lines(ins, n) =>
         var step := if ins then -(n as int) else n;
         t.g == if s.scroll.b <= s.cursor.row < s.scroll.e then Scrolled(s.g, s.cursor.row, s.scroll.e, step, s.win.col)
           else s.g
       case Characters(ins, n) =>
         var step := if ins then -(n as int) else n;
         t.g == s.g[s.cursor.row := Shifted(s.g[s.cursor.row], s.cursor.col, step)]
       case Erase(what, n) =>
         forall i, j :: 0 <= i < s.win.row && 0 <= j < s.win.col ==>
           t.g[i][j] == if Blanked(what, n, s.cursor, i, j) then BLANK else s.g[i][j]
       case _ => true
  }

  /** The cells that are blanked: some behind the cursor, or a part of its row or of the screen. */
  predicate Blanked(what: What, n: nat, cursor: Pos, i: nat, j: nat) {
    match what
    case Chars => i == cursor.row && cursor.col <= j < cursor.col + n
    case InLine => i == cursor.row && Erased(n, cursor, i, j)
    case InDisplay => Erased(n, cursor, i, j)
  }

  ghost predicate DoneModes(op: Op, s: State, t: State) {
    match op
    case Tab(set_, cmd) =>
      && t == s.(tabs := t.tabs)
      && forall c: nat :: TabAt(t.tabs, c) <==>
           if c < T_NUMCOL && c == s.cursor.col && (set_ || cmd == 0) then set_
           else if !set_ && cmd == 3 then c >= T_NUMCOL && c % 8 == 0
           else TabAt(s.tabs, c)
    case Save => t == s.(saved := s.cursor)
    case Restore =>
      var on := s.originMode && s.scroll.b <= s.saved.row < s.scroll.e;
      t == s.(cursor := s.saved, wrapped := false, originMode := on,
              origin := if on then s.scroll else Span(0, s.win.row))
    case Margins(top, bottom) =>
      var b := if top > 0 then top - 1 else 0;
      var e := if bottom == 0 || bottom > s.win.row then s.win.row else bottom;
      var region := if b + 1 < e then Span(b, e) else Span(0, s.win.row);
      var origin := if s.originMode then region else s.origin;
      t == s.(scroll := region, origin := origin, cursor := Pos(origin.b, 0), wrapped := false)
    case OriginMode(on) =>
      var origin := if on then s.scroll else Span(0, s.win.row);
      t == s.(originMode := on, origin := origin, cursor := Pos(origin.b, 0), wrapped := false)
    case InsertMode(on) => t == s.(insert := on)
    case AutoWrap(on) => t == s.(autowrap := on)
    case Flags(eight, cons) => t == s.(eightBit := eight, cons25 := cons)
    case Align =>
      t == s.(cursor := Pos(0, 0), scroll := Span(0, s.win.row), origin := Span(0, s.win.row), originMode := false,
              wrapped := false, g := Filled(s.g, Rect(Pos(0, 0), s.win), 0x45))
    case Reset =>
      && (forall c :: c in t.tabs <==> 0 < c < T_NUMCOL && c % 8 == 0)
      && t == s.(cursor := Pos(0, 0), saved := Pos(0, 0), scroll := Span(0, s.win.row), origin := Span(0, s.win.row),
                 originMode := false, insert := false, autowrap := true, wrapped := false, instring := false,
                 tabs := t.tabs, g := Filled(s.g, Rect(Pos(0, 0), s.win), BLANK))
    case StartString => t == s.(instring := true)
    case _ => true
  }

  /** Up to the cursor, all, or from the cursor on. */
  predicate Erased(mode: nat, cursor: Pos, i: nat, j: nat) {
    if mode == 1 then i < cursor.row || (i == cursor.row && j <= cursor.col)
    else if mode == 2 then true
    else i > cursor.row || (i == cursor.row && j >= cursor.col)
  }

  function Min(a: int, b: int): int { if a < b then a else b }
  function Max(a: int, b: int): int { if a < b then b else a }

  // ------------------------------------------------ numeric arguments

  const T_NUMSIZE: nat := 8

  /** What the digits of an argument, the first first, are worth to the code: digits are dropped once the
      number is UINT_MAX / 100 or more. */
  function Capped(digits: seq<nat>): nat
    requires forall i :: 0 <= i < |digits| ==> digits[i] < 10
  {
    if digits == [] then 0
    else
      var v := Capped(digits[..|digits| - 1]);
      if v < 42949672 then 10 * v + digits[|digits| - 1] else v
  }

  function Decimal(digits: seq<nat>): nat
    requires forall i :: 0 <= i < |digits| ==> digits[i] < 10
  {
    if digits == [] then 0 else 10 * Decimal(digits[..|digits| - 1]) + digits[|digits| - 1]
  }

  /** A number is read exactly, or it is one far beyond any window; it never overflows. */
  lemma {:induction false} CappedRight(digits: seq<nat>)
    requires forall i :: 0 <= i < |digits| ==> digits[i] < 10
    ensures Capped(digits) <= ARG_MAX && Capped(digits) <= Decimal(digits)
    ensures Capped(digits) == Decimal(digits) || (42949672 <= Capped(digits) && Decimal(digits) > ARG_MAX)
  {
    if digits != [] { CappedRight(digits[..|digits| - 1]); }
  }

  class Arguments {
    const nums: array<nat>
    var curnum: nat
    var firstDigit: bool          // TS_FIRSTDIGIT
    ghost var digits: seq<nat>    // the digits of the current argument

    ghost predicate Valid()
      reads this, nums
    {
      && nums.Length == T_NUMSIZE && curnum < T_NUMSIZE
      && (forall i :: 0 <= i < |digits| ==> digits[i] < 10)
      && (firstDigit <==> digits == [])
      && (!firstDigit ==> nums[curnum] == Capped(digits))
      && forall i :: 0 <= i < curnum ==> nums[i] <= ARG_MAX
    }

    /** teken_state_switch */
    constructor ()
      ensures Valid() && fresh(nums) && curnum == 0 && digits == []
    {
      nums := new nat[T_NUMSIZE];
      curnum, firstDigit, digits := 0, true, [];
    }

    /** teken_state_numbers.  `true` if the character belongs to the arguments; if not, the first
        `curnum` numbers are the arguments, none beyond ARG_MAX. */
    method Take(c: nat) returns (taken: bool)
      requires Valid()
      modifies this, nums
      ensures taken == (0x30 <= c <= 0x39 || c == 0x3b)
      ensures taken ==> Valid()
      ensures 0x30 <= c <= 0x39 ==> digits == old(digits) + [c - 0x30] && curnum == old(curnum)
      ensures c == 0x3b ==> digits == [] && curnum == if old(curnum) + 1 == T_NUMSIZE then 0 else old(curnum) + 1
      ensures c == 0x3b && curnum > 0 ==> nums[curnum - 1] == Capped(old(digits))
      ensures !taken ==> curnum <= T_NUMSIZE && forall i :: 0 <= i < curnum ==> nums[i] <= ARG_MAX
      ensures !taken ==> curnum == old(curnum) + (if old(curnum) > 0 || old(digits) != [] then 1 else 0)
      ensures !taken && curnum > 0 ==> nums[curnum - 1] == Capped(old(digits))
      ensures forall i :: 0 <= i < old(curnum) ==> nums[i] == old(nums[i])
    {
      CappedRight(digits);
      if 0x30 <= c <= 0x39 {
        var d := c - 0x30;
        assert (digits + [d])[..|digits|] == digits;
        if firstDigit {
          firstDigit := false;
          nums[curnum] := d;
        } else if nums[curnum] < 0xffff_ffff / 100 {
          nums[curnum] := nums[curnum] * 10 + d;
        }
        digits := digits + [d];
        return true;
      } else if c == 0x3b {
        if firstDigit {
          nums[curnum] := 0;
        }
        curnum := curnum + 1;
        digits := [];
        if curnum == T_NUMSIZE {
          curnum := 0;
        }
        firstDigit := true;
        return true;
      }
      if firstDigit && curnum > 0 {
        nums[curnum] := 0;
        curnum := curnum + 1;
      } else if !firstDigit {
        curnum := curnum + 1;
      }
      return false;
    }
  }
}
