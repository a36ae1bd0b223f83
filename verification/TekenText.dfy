/** Plain text on the terminal: with automatic wrapping, the characters stand in reading order. */
module TekenText {
  import opened TermGrid
  import opened Teken

  /** The place after `p`, in reading order. */
  function After(p: Pos, cols: nat): Pos {
    if p.col + 1 >= cols then Pos(p.row + 1, 0) else Pos(p.row, p.col + 1)
  }

  /** The place of character number `k` of a text that starts in row `r`. */
  function Place(r: nat, k: nat, cols: nat): Pos {
    if k == 0 then Pos(r, 0) else After(Place(r, k - 1, cols), cols)
  }

  predicate Before(p: Pos, q: Pos) {
    p.row < q.row || (p.row == q.row && p.col < q.col)
  }

  lemma {:induction false} PlaceGrows(r: nat, j: nat, k: nat, cols: nat)
    requires j <= k && cols > 0
    ensures Place(r, j, cols) == Place(r, k, cols) <==> j == k
    ensures j < k ==> Before(Place(r, j, cols), Place(r, k, cols))
    ensures Place(r, k, cols).col < cols && Place(r, j, cols).row <= Place(r, k, cols).row && r <= Place(r, k, cols).row
    decreases k
  {
    if k > 0 {
      PlaceGrows(r, if j < k then j else k - 1, k - 1, cols);
    }
  }

  /** A text of characters one column wide, printed one after another. */
  function PrintedAll(p: Paper, s: seq<nat>, u: Setup): Paper
    requires Fits(p, u)
  {
    if s == [] then p
    else
      var q := PrintedAll(p, s[..|s| - 1], u);
      if Fits(q, u) then Printed(q, s[|s| - 1], 1, u) else q
  }

  ghost predicate PlainSetup(u: Setup) { u.autowrap && !u.insert && !u.cons25 }

  /** Where the cursor is once the text up to `next` is printed: behind a full line it waits in the last column. */
  ghost predicate Rests(p: Paper, r: nat, n: nat, u: Setup) {
    var next := Place(r, n, u.win.col);
    if n > 0 && next.col == 0 then p.wrapped && p.cursor == Place(r, n - 1, u.win.col)
    else !p.wrapped && p.cursor == next
  }

  /** The first `n` places hold the text, and no other cell has changed. */
  ghost predicate Holds(g0: Grid, g: Grid, r: nat, s: seq<nat>, cols: nat) {
    && Dims(g, |g0|, cols) && Dims(g0, |g0|, cols)
    && (forall k :: 0 <= k < |s| ==> CellAt(g, Place(r, k, cols)) == Shown(s[k]))
    && (forall i, j :: 0 <= i < |g0| && 0 <= j < cols && (i < r || !Before(Pos(i, j), Place(r, |s|, cols))) ==>
          g[i][j] == g0[i][j])
  }

  function CellAt(g: Grid, p: Pos): nat {
    if p.row < |g| && p.col < |g[p.row]| then g[p.row][p.col] else 0
  }

  /** Where the next character is drawn: in the next place. */
  lemma DrawnNext(p: Paper, r: nat, n: nat, c: nat, u: Setup)
    requires Fits(p, u) && PlainSetup(u) && Rests(p, r, n, u) && Place(r, n, u.win.col).row < u.scroll.e
    ensures var q := Printed(p, c, 1, u);
      && q.g == Put(p.g, Place(r, n, u.win.col), Shown(c)) && Rests(q, r, n + 1, u) && Fits(q, u)
  {
    hide Place;
    var cols := u.win.col;
    var next := Place(r, n, cols);
    assert Place(r, n + 1, cols) == After(next, cols) by { PlaceAfter(r, n, cols); }
    PlaceGrows(r, n, n, cols);
    if n > 0 {
      assert next == After(Place(r, n - 1, cols), cols) by { PlaceAfter(r, n - 1, cols); }
      PlaceGrows(r, n - 1, n - 1, cols);
    }
  }

  lemma PlaceAfter(r: nat, n: nat, cols: nat)
    ensures Place(r, n + 1, cols) == After(Place(r, n, cols), cols)
  {}

  lemma HoldsNext(g0: Grid, g: Grid, r: nat, s: seq<nat>, c: nat, cols: nat)
    requires Holds(g0, g, r, s, cols) && cols > 0 && Place(r, |s|, cols).row < |g0|
    ensures Place(r, |s|, cols).col < cols && Holds(g0, Put(g, Place(r, |s|, cols), Shown(c)), r, s + [c], cols)
  {
    hide Place;
    var p := Place(r, |s|, cols);
    PlaceGrows(r, |s|, |s|, cols);
    var h := Put(g, p, Shown(c));
    PlaceGrows(r, |s|, |s| + 1, cols);
    forall k | 0 <= k < |s| + 1 ensures CellAt(h, Place(r, k, cols)) == Shown((s + [c])[k]) {
      PlaceGrows(r, k, |s|, cols);
    }
    forall i, j | 0 <= i < |g0| && 0 <= j < cols && (i < r || !Before(Pos(i, j), Place(r, |s| + 1, cols)))
      ensures h[i][j] == g0[i][j]
    {
      assert Pos(i, j) != p;
    }
  }

  /** As long as it does not run off the scroll region, a text printed from the start of a row stands on
      the screen in reading order, and nothing else has changed. */
  lemma {:induction false} TextStands(p: Paper, s: seq<nat>, u: Setup)
    requires Fits(p, u) && PlainSetup(u) && !p.wrapped && p.cursor.col == 0
    requires s == [] || Place(p.cursor.row, |s| - 1, u.win.col).row < u.scroll.e
    ensures var q := PrintedAll(p, s, u);
      Fits(q, u) && Rests(q, p.cursor.row, |s|, u) && Holds(p.g, q.g, p.cursor.row, s, u.win.col)
  {
    hide Printed, Holds, Rests;
    var r, cols := p.cursor.row, u.win.col;
    if s == [] {
      NothingTyped(p, u);
    } else {
      var n := |s| - 1;
      if n > 0 { PlaceGrows(r, n - 1, n, cols); }
      TextStands(p, s[..n], u);
      var q := PrintedAll(p, s[..n], u);
      DrawnNext(q, r, n, s[n], u);
      HoldsNext(p.g, q.g, r, s[..n], s[n], cols);
      assert s == s[..n] + [s[n]];
    }
  }

  lemma NothingTyped(p: Paper, u: Setup)
    requires Fits(p, u) && !p.wrapped && p.cursor.col == 0
    ensures Rests(p, p.cursor.row, 0, u) && Holds(p.g, p.g, p.cursor.row, [], u.win.col)
  {}

  // ------------------------------------------------ in cons25 mode

  ghost predicate ConsoleSetup(u: Setup) { u.cons25 && !u.insert }

  /** There the cursor is always in the next place; in the last one of the region it waits for nothing: the
      region scrolls at once. */
  lemma DrawnNextConsole(p: Paper, r: nat, n: nat, c: nat, u: Setup)
    requires Fits(p, u) && ConsoleSetup(u) && p.cursor == Place(r, n, u.win.col)
    requires Place(r, n + 1, u.win.col).row < u.scroll.e
    ensures var q := Printed(p, c, 1, u);
      q.g == Put(p.g, Place(r, n, u.win.col), Shown(c)) && q.cursor == Place(r, n + 1, u.win.col) && Fits(q, u)
  {
    hide Place;
    PlaceAfter(r, n, u.win.col);
  }

  /** The same text stands the same way in cons25 mode, as long as nothing scrolls. */
  lemma {:induction false} ConsoleTextStands(p: Paper, s: seq<nat>, u: Setup)
    requires Fits(p, u) && ConsoleSetup(u) && p.cursor.col == 0
    requires Place(p.cursor.row, |s|, u.win.col).row < u.scroll.e
    ensures var q := PrintedAll(p, s, u);
      && Fits(q, u) && q.cursor == Place(p.cursor.row, |s|, u.win.col)
      && Holds(p.g, q.g, p.cursor.row, s, u.win.col)
  {
    hide Printed, Holds;
    var r, cols := p.cursor.row, u.win.col;
    if s == [] {
      NothingHeld(p, u);
    } else {
      var n := |s| - 1;
      PlaceGrows(r, n, n + 1, cols);
      ConsoleTextStands(p, s[..n], u);
      var q := PrintedAll(p, s[..n], u);
      DrawnNextConsole(q, r, n, s[n], u);
      HoldsNext(p.g, q.g, r, s[..n], s[n], cols);
      assert s == s[..n] + [s[n]];
    }
  }

  lemma NothingHeld(p: Paper, u: Setup)
    requires Fits(p, u)
    ensures Holds(p.g, p.g, p.cursor.row, [], u.win.col)
  {}

  /** Behind the last place of the region it scrolls by one row, and the cursor is at the start of the last. */
  lemma ConsoleScrolls(p: Paper, c: nat, u: Setup)
    requires Fits(p, u) && ConsoleSetup(u) && p.cursor == Pos(u.scroll.e - 1, u.win.col - 1)
    ensures var q := Printed(p, c, 1, u);
      && q.cursor == Pos(u.scroll.e - 1, 0)
      && q.g == Scrolled(Put(p.g, p.cursor, Shown(c)), u.scroll.b, u.scroll.e, 1, u.win.col)
  {
    hide Scrolled;
  }
}
