/** What each byte does to the terminal, cell by cell and number by number: 25 rows of 80 cells, a
    blank is 0x0720.  The laws speak of `Feed` only, so they say what kernel/console.c must do on
    every byte whatever the grid terminal is made of.
 */
module TerminalLaws {

  import opened Terminal

  const ESC: int := 27

  /** Nothing but cells, and the return to state 0, separates u from t. */
  ghost predicate CellsOnly(t: Term, u: Term) {
    u == t.(rows := u.rows, state := 0) && Sane(u)
  }

  /** Rows top .. bottom-1 have moved up by one, the last of them is blank, all other cells are as before. */
  ghost predicate ScrolledUp(t: Term, u: Term)
    requires Sane(t) && Sane(u)
  {
    forall r, c :: 0 <= r < 25 && 0 <= c < 80 ==>
      u.rows[r][c] == if t.top <= r < t.bottom - 1 then t.rows[r + 1][c] else if r == t.bottom - 1 then 0x0720 else t.rows[r][c]
  }

  ghost predicate ScrolledDown(t: Term, u: Term)
    requires Sane(t) && Sane(u)
  {
    forall r, c :: 0 <= r < 25 && 0 <= c < 80 ==>
      u.rows[r][c] == if t.top < r < t.bottom then t.rows[r - 1][c] else if r == t.top then 0x0720 else t.rows[r][c]
  }

  /** Bytes 10, 11 and 12, and ESC D: down one row, or on the last row of the region everything in it moves up. */
  lemma LineFeeds(t: Term, c: int, erase: int)
    requires Sane(t) && ((t.state == 0 && 10 <= c <= 12) || (t.state == 1 && c == 'D' as int))
    ensures var u := Feed(t, c, erase);
      && (t.y + 1 < t.bottom ==> u == t.(y := t.y + 1, state := 0))
      && (t.y + 1 >= t.bottom ==> CellsOnly(t, u) && ScrolledUp(t, u))
  {
  }

  /** ESC M: up one row, or on the first row of the region everything in it moves down. */
  lemma ReverseLineFeeds(t: Term, erase: int)
    requires Sane(t) && t.state == 1
    ensures var u := Feed(t, 'M' as int, erase);
      && (t.y > t.top ==> u == t.(y := t.y - 1, state := 0))
      && (t.y <= t.top ==> CellsOnly(t, u) && ScrolledDown(t, u))
  {
  }

  /** ESC E: the start of the next row, if there is one. */
  lemma NextRow(t: Term, erase: int)
    requires Sane(t) && t.state == 1
    ensures Feed(t, 'E' as int, erase) == if t.y < 24 then t.(x := 0, y := t.y + 1, state := 0) else t.(state := 0)
  {
  }

  /** A printing character fills the cell at the cursor, with the attribute; a full row is left by a line feed first. */
  lemma Prints(t: Term, c: int, erase: int)
    requires Sane(t) && t.state == 0 && 31 < c < 127
    ensures t.x < 80 ==> var u := Feed(t, c, erase);
      && Sane(u) && u == t.(rows := u.rows, x := t.x + 1)
      && forall r, k :: 0 <= r < 25 && 0 <= k < 80 ==> u.rows[r][k] == if r == t.y && k == t.x then t.attr * 256 + c else t.rows[r][k]
    ensures t.x == 80 ==> Feed(t, c, erase) == Feed(Feed(t.(x := 0), 10, erase), c, erase)
  {
    if t.x == 80 {
      var v := Feed(t.(x := 0), 10, erase);
      assert v == Continue(t);
    }
  }

  /** Carriage return, backspace, and bytes that are not for the screen. */
  lemma PlainMoves(t: Term, c: int, erase: int)
    requires Sane(t) && t.state == 0 && c != erase
    ensures c == 13 ==> Feed(t, c, erase) == t.(x := 0)
    ensures c == 8 ==> Feed(t, c, erase) == t.(x := if t.x > 0 then t.x - 1 else 0)
    ensures c == ESC ==> Feed(t, c, erase) == t.(state := 1)
    ensures (c < 8 || 13 < c < 27 || 27 < c <= 31 || c >= 127) ==> Feed(t, c, erase) == t
  {
  }

  /** Tab: to the next multiple of eight, beyond column 80 by way of a line feed. */
  lemma Tabs(t: Term, erase: int)
    requires Sane(t) && t.state == 0 && erase != 9
    ensures var x := t.x + 8 - t.x % 8;
      Feed(t, 9, erase) == if x <= 80 then t.(x := x) else Feed(t.(x := x - 80), 10, erase)
  {
  }

  /** The erase character blanks the cell before the cursor and steps back. */
  lemma RubsOut(t: Term, erase: int)
    requires Sane(t) && t.state == 0 && !(31 < erase < 127) && erase != ESC && !(10 <= erase <= 13)
    ensures t.x == 0 ==> Feed(t, erase, erase) == t
    ensures t.x > 0 ==> var u := Feed(t, erase, erase);
      && Sane(u) && u == t.(rows := u.rows, x := t.x - 1)
      && forall r, k :: 0 <= r < 25 && 0 <= k < 80 ==> u.rows[r][k] == if r == t.y && k == t.x - 1 then 0x0720 else t.rows[r][k]
  {
  }

  // ---------------------------------------------------------------- commands, with their parameters collected

  /** J: below and after the cursor, above and before it, or everything. */
  lemma ErasesDisplay(t: Term, erase: int)
    requires Sane(t) && t.state == 3
    ensures var u, p := Feed(t, 'J' as int, erase), t.par[0];
      && CellsOnly(t, u)
      && forall r, k :: 0 <= r < 25 && 0 <= k < 80 ==>
           u.rows[r][k] == if (p == 0 && (r > t.y || (r == t.y && k >= t.x))) || (p == 1 && (r < t.y || (r == t.y && k < t.x))) || p == 2 then 0x0720 else t.rows[r][k]
  {
  }

  /** K: the same for the cursor's row. */
  lemma ErasesLine(t: Term, erase: int)
    requires Sane(t) && t.state == 3
    ensures var u, p := Feed(t, 'K' as int, erase), t.par[0];
      && CellsOnly(t, u)
      && forall r, k :: 0 <= r < 25 && 0 <= k < 80 ==>
           u.rows[r][k] == if r == t.y && ((p == 0 && k >= t.x) || (p == 1 && k < t.x) || p == 2) then 0x0720 else t.rows[r][k]
  {
  }

  /** The repeat count of L, M, P and @: none or zero is one, and never more than there is room for. */
  function Times(p: int, room: int): int {
    if p == 0 then (if room < 1 then room else 1) else if p < room then p else room
  }

  /** L: n blank rows at the cursor's, those below move down to the end of the screen. */
  lemma InsertsLines(t: Term, erase: int)
    requires Sane(t) && t.state == 3
    ensures var u, n := Feed(t, 'L' as int, erase), Times(t.par[0], 25 - t.y);
      && CellsOnly(t, u)
      && forall r, k :: 0 <= r < 25 && 0 <= k < 80 ==>
           u.rows[r][k] == if r < t.y then t.rows[r][k] else if r < t.y + n then 0x0720 else t.rows[r - n][k]
  {
  }

  /** M: n rows from the cursor's go, those below move up, blank rows appear at the end of the screen. */
  lemma DeletesLines(t: Term, erase: int)
    requires Sane(t) && t.state == 3
    ensures var u, n := Feed(t, 'M' as int, erase), Times(t.par[0], 25 - t.y);
      && CellsOnly(t, u)
      && forall r, k :: 0 <= r < 25 && 0 <= k < 80 ==>
           u.rows[r][k] == if r < t.y then t.rows[r][k] else if r < 25 - n then t.rows[r + n][k] else 0x0720
  {
  }

  /** @: n blank cells at the cursor, those after it move right. */
  lemma InsertsCells(t: Term, erase: int)
    requires Sane(t) && t.state == 3
    ensures var u, n := Feed(t, '@' as int, erase), Times(t.par[0], 80 - t.x);
      && CellsOnly(t, u)
      && forall r, k :: 0 <= r < 25 && 0 <= k < 80 ==>
           u.rows[r][k] == if r != t.y || k < t.x then t.rows[r][k] else if k < t.x + n then 0x0720 else t.rows[r][k - n]
  {
  }

  /** P: n cells from the cursor go, those after them move left. */
  lemma DeletesCells(t: Term, erase: int)
    requires Sane(t) && t.state == 3
    ensures var u, n := Feed(t, 'P' as int, erase), Times(t.par[0], 80 - t.x);
      && CellsOnly(t, u)
      && forall r, k :: 0 <= r < 25 && 0 <= k < 80 ==>
           u.rows[r][k] == if r != t.y || k < t.x then t.rows[r][k] else if k < 80 - n then t.rows[r][k + n] else 0x0720
  {
  }

  /** A parameter that the m command knows. */
  predicate Known(p: int) { p == 0 || p == 1 || p == 4 || p == 7 || p == 27 }

  /** m: the last known parameter decides the attribute; with none of them it stays. */
  lemma SetsAttribute(t: Term, k: int, erase: int)
    requires Sane(t) && t.state == 3 && -1 <= k <= t.npar && forall i :: k < i <= t.npar ==> !Known(t.par[i])
    requires k >= 0 ==> Known(t.par[k])
    ensures var u := Feed(t, 'm' as int, erase);
      && u == t.(attr := u.attr, state := 0)
      && u.attr == if k < 0 then t.attr else if t.par[k] == 0 || t.par[k] == 27 then 0x07 else if t.par[k] == 7 then 0x70 else 0x0f
  {
    LastKnown(t.attr, t.par, t.npar + 1, k);
  }

  lemma {:induction false} LastKnown(attr: int, par: seq<int>, n: nat, k: int)
    requires n <= |par| && -1 <= k < n && (forall i :: k < i < n ==> !Known(par[i])) && (k >= 0 ==> Known(par[k]))
    ensures Renditions(attr, par, n) ==
      if k < 0 then attr else if par[k] == 0 || par[k] == 27 then 0x07 else if par[k] == 7 then 0x70 else 0x0f
  {
    if n > 0 && k < n - 1 {
      LastKnown(attr, par, n - 1, k);
    }
  }

  /** r: rows given from one, the second is the last when not given; only a proper region is set. */
  lemma SetsMargins(t: Term, erase: int)
    requires Sane(t) && t.state == 3
    ensures var u, p, q := Feed(t, 'r' as int, erase), t.par[0], t.par[1];
      var first, last := if p == 0 then 0 else p - 1, if q == 0 then 25 else q;
      && u == t.(top := u.top, bottom := u.bottom, par := u.par, state := 0)
      && (u.top, u.bottom) == if first < last <= 25 then (first, last) else (t.top, t.bottom)
  {
  }

  /** The cursor goes to column x and row y, unsigned 32-bit numbers, if that is on the screen; cells stay. */
  ghost predicate WentTo(t: Term, u: Term, x: int, y: int) {
    && u == t.(x := u.x, y := u.y, par := u.par, state := 0)
    && (u.x, u.y) == if 0 <= x < 80 && 0 <= y < 25 then (x, y) else (t.x, t.y)
  }

  /** G and ` go to a column, d to a row, H and f to both; all counted from one, and zero counts as one. */
  lemma GoesTo(t: Term, erase: int)
    requires Sane(t) && t.state == 3
    ensures var p, q := (if t.par[0] == 0 then 0 else t.par[0] - 1), (if t.par[1] == 0 then 0 else t.par[1] - 1);
      && WentTo(t, Feed(t, 'G' as int, erase), p, t.y) && WentTo(t, Feed(t, '`' as int, erase), p, t.y)
      && WentTo(t, Feed(t, 'd' as int, erase), t.x, p)
      && WentTo(t, Feed(t, 'H' as int, erase), q, p) && WentTo(t, Feed(t, 'f' as int, erase), q, p)
  {
  }

  /** A, B, e, E and F move up or down by a distance; zero counts as one, and sums are taken modulo 2^32. */
  lemma MovesVertically(t: Term, erase: int)
    requires Sane(t) && t.state == 3
    ensures var n := if t.par[0] == 0 then 1 else t.par[0];
      && WentTo(t, Feed(t, 'A' as int, erase), t.x, (t.y - n) % 0x1_0000_0000) && WentTo(t, Feed(t, 'F' as int, erase), 0, (t.y - n) % 0x1_0000_0000)
      && WentTo(t, Feed(t, 'B' as int, erase), t.x, (t.y + n) % 0x1_0000_0000) && WentTo(t, Feed(t, 'e' as int, erase), t.x, (t.y + n) % 0x1_0000_0000)
      && WentTo(t, Feed(t, 'E' as int, erase), 0, (t.y + n) % 0x1_0000_0000)
  {
  }

  /** C, a and D move right or left. */
  lemma MovesHorizontally(t: Term, erase: int)
    requires Sane(t) && t.state == 3
    ensures var n := if t.par[0] == 0 then 1 else t.par[0];
      && WentTo(t, Feed(t, 'C' as int, erase), (t.x + n) % 0x1_0000_0000, t.y) && WentTo(t, Feed(t, 'a' as int, erase), (t.x + n) % 0x1_0000_0000, t.y)
      && WentTo(t, Feed(t, 'D' as int, erase), (t.x - n) % 0x1_0000_0000, t.y)
  {
  }

  /** s records the cursor and u goes back to it. */
  lemma SavesAndRestores(t: Term, erase: int)
    requires Sane(t) && t.state == 3
    ensures Feed(t, 's' as int, erase) == t.(savedX := t.x, savedY := t.y, state := 0)
    ensures Feed(t, 'u' as int, erase) == t.(x := t.savedX, y := t.savedY, state := 0)
  {
  }

  predicate Final(c: int) {
    c == 'G' as int || c == '`' as int || c == 'A' as int || c == 'B' as int || c == 'e' as int || c == 'C' as int || c == 'a' as int
    || c == 'D' as int || c == 'E' as int || c == 'F' as int || c == 'd' as int || c == 'H' as int || c == 'f' as int || c == 'J' as int
    || c == 'K' as int || c == 'L' as int || c == 'M' as int || c == 'P' as int || c == '@' as int || c == 'm' as int || c == 'r' as int
    || c == 's' as int || c == 'u' as int
  }

  /** The bytes of a control sequence: ESC [ opens it with all parameters zero, a digit extends a number modulo 2^32, a semicolon
      starts the next of sixteen, and a byte that is no command only ends it. */
  lemma Sequences(t: Term, c: int, erase: int)
    requires Sane(t)
    ensures t.state == 1 && c == '[' as int ==> Feed(t, c, erase) == t.(state := 2)
    ensures t.state == 2 && c == '?' as int ==> var u := Feed(t, c, erase);
      u == t.(state := 3, npar := 0, par := u.par) && forall i :: 0 <= i < 16 ==> u.par[i] == 0
    ensures t.state == 2 && c != '?' as int ==> var z := Feed(t, '?' as int, erase); Feed(t, c, erase) == Feed(z, c, erase)
    ensures t.state == 3 && 48 <= c <= 57 ==>
      Feed(t, c, erase) == t.(par := t.par[t.npar := (10 * t.par[t.npar] + (c - 48)) % 0x1_0000_0000])
    ensures t.state == 3 && c == ';' as int ==> Feed(t, c, erase) == if t.npar < 15 then t.(npar := t.npar + 1) else t.(state := 0)
    ensures t.state == 3 && !(48 <= c <= 57) && c != ';' as int && !Final(c) ==> Feed(t, c, erase) == t.(state := 0)
  {
  }
}
