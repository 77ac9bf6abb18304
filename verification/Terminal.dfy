/** The terminal that kernel/console.c presents, as a plain grid of 25 rows of 80 cells: no
    video memory, no origin, no addresses.
 */
module Terminal {

  const LINES: nat := 25
  const COLUMNS: nat := 80
  const NPAR: nat := 16
  const WORD: nat := 0x1_0000_0000

  /** Character and attribute: attr * 256 + character. */
  type Cell = int
  type Row = seq<Cell>

  const BLANK: Cell := 0x0720

  datatype Term = Term(
    rows: seq<Row>, x: int, y: int, top: int, bottom: int, savedX: int, savedY: int, attr: int,
    state: int, npar: int, par: seq<int>)

  predicate Sane(t: Term) {
    && |t.rows| == LINES && (forall r :: 0 <= r < LINES ==> |t.rows[r]| == COLUMNS)
    && 0 <= t.x <= COLUMNS && 0 <= t.y < LINES
    && 0 <= t.top < t.bottom <= LINES
    && 0 <= t.savedX <= COLUMNS && 0 <= t.savedY < LINES
    && 0 <= t.state < 4 && 0 <= t.npar < NPAR && |t.par| == NPAR
    && (forall i :: 0 <= i < NPAR ==> 0 <= t.par[i] < WORD)
  }

  // ---------------------------------------------------------------- rows

  function Blanks(n: nat): (r: Row)
    ensures |r| == n && forall i :: 0 <= i < n ==> r[i] == BLANK
  {
    seq(n, _ => BLANK)
  }

  function BlankRows(n: nat): (r: seq<Row>)
    ensures |r| == n && forall i :: 0 <= i < n ==> r[i] == Blanks(COLUMNS)
  {
    seq(n, _ => Blanks(COLUMNS))
  }

  /** Rows a .. b-1 move up by n, blank rows appear at the bottom of the region. */
  function Up(rows: seq<Row>, a: nat, b: nat, n: nat): seq<Row>
    requires a + n <= b <= |rows|
  {
    rows[..a] + rows[a + n..b] + BlankRows(n) + rows[b..]
  }

  function Down(rows: seq<Row>, a: nat, b: nat, n: nat): seq<Row>
    requires a + n <= b <= |rows|
  {
    rows[..a] + BlankRows(n) + rows[a..b - n] + rows[b..]
  }

  /** Columns a .. b-1 of a row become blank. */
  function Erase(row: Row, a: nat, b: nat): Row
    requires a <= b <= |row|
  {
    row[..a] + Blanks(b - a) + row[b..]
  }

  function InsertBlanks(row: Row, x: nat, n: nat): Row
    requires x + n <= |row|
  {
    row[..x] + Blanks(n) + row[x..|row| - n]
  }

  function DeleteCells(row: Row, x: nat, n: nat): Row
    requires x + n <= |row|
  {
    row[..x] + row[x + n..] + Blanks(n)
  }

  function OnRow(t: Term, row: Row): (u: Term)
    requires Sane(t) && |row| == COLUMNS
    ensures Sane(u)
  {
    t.(rows := t.rows[t.y := row])
  }

  function Least(a: int, b: int): int { if a < b then a else b }

  /** A repeat count: 0 means 1, and at most `most`. */
  function Count(n: int, most: nat): int { if n > most then most else if n == 0 then 1 else n }

  // ---------------------------------------------------------------- movements

  function Goto(t: Term, x: int, y: int): (u: Term)
    ensures Sane(t) ==> Sane(u) && u.state == t.state
  {
    if 0 <= x < COLUMNS && 0 <= y < LINES then t.(x := x, y := y) else t
  }

  /** Arithmetic on unsigned 32-bit words. */
  function Wrap(a: int): int { a % WORD }

  function LineFeed(t: Term): (u: Term)
    requires Sane(t)
    ensures Sane(u) && u.state == t.state
  {
    if t.y + 1 < t.bottom then t.(y := t.y + 1) else t.(rows := Up(t.rows, t.top, t.bottom, 1))
  }

  function ReverseLineFeed(t: Term): (u: Term)
    requires Sane(t)
    ensures Sane(u) && u.state == t.state
  {
    if t.y > t.top then t.(y := t.y - 1) else t.(rows := Down(t.rows, t.top, t.bottom, 1))
  }

  /** Past the right margin the line is continued on the next one. */
  function Continue(t: Term): (u: Term)
    requires Sane(t.(x := t.x - COLUMNS))
    ensures Sane(u) && u.state == t.state && u.x == t.x - COLUMNS
  {
    LineFeed(t.(x := t.x - COLUMNS))
  }

  /** A cell where the cursor is, which then moves on. */
  function PutCell(t: Term, v: Cell): (u: Term)
    requires Sane(t) && t.x < COLUMNS
    ensures Sane(u) && u.state == t.state
  {
    OnRow(t, t.rows[t.y][t.x := v]).(x := t.x + 1)
  }

  /** A full row is left for the next. */
  function Room(t: Term): (u: Term)
    requires Sane(t)
    ensures Sane(u) && u.state == t.state && u.x < COLUMNS
  {
    if t.x >= COLUMNS then Continue(t) else t
  }

  function Print(t: Term, c: int): (u: Term)
    requires Sane(t)
    ensures Sane(u) && u.state == t.state
  {
    PutCell(Room(t), t.attr * 256 + c)
  }

  function Tab(t: Term): (u: Term)
    requires Sane(t)
    ensures Sane(u) && u.state == t.state
  {
    var x := t.x + 8 - t.x % 8;
    if x > COLUMNS then Continue(t.(x := x)) else t.(x := x)
  }

  function Rubout(t: Term): (u: Term)
    requires Sane(t)
    ensures Sane(u) && u.state == t.state
  {
    if t.x == 0 then t else OnRow(t, t.rows[t.y][t.x - 1 := BLANK]).(x := t.x - 1)
  }

  function EraseDisplay(t: Term, n: int): (u: Term)
    requires Sane(t)
    ensures Sane(u) && u.state == t.state
  {
    if n == 0 then t.(rows := t.rows[..t.y] + [Erase(t.rows[t.y], t.x, COLUMNS)] + BlankRows(LINES - t.y - 1))
    else if n == 1 then t.(rows := BlankRows(t.y) + [Erase(t.rows[t.y], 0, t.x)] + t.rows[t.y + 1..])
    else if n == 2 then t.(rows := BlankRows(LINES))
    else t
  }

  function EraseLine(t: Term, n: int): (u: Term)
    requires Sane(t)
    ensures Sane(u) && u.state == t.state
  {
    if n == 0 then OnRow(t, Erase(t.rows[t.y], t.x, COLUMNS))
    else if n == 1 then OnRow(t, Erase(t.rows[t.y], 0, t.x))
    else if n == 2 then OnRow(t, Blanks(COLUMNS))
    else t
  }

  function InsertLines(t: Term, n: int): (u: Term)
    requires Sane(t) && n >= 0
    ensures Sane(u) && u.state == t.state
  {
    t.(rows := Down(t.rows, t.y, LINES, Least(Count(n, LINES), LINES - t.y)))
  }

  function DeleteLines(t: Term, n: int): (u: Term)
    requires Sane(t) && n >= 0
    ensures Sane(u) && u.state == t.state
  {
    t.(rows := Up(t.rows, t.y, LINES, Least(Count(n, LINES), LINES - t.y)))
  }

  function InsertChars(t: Term, n: int): (u: Term)
    requires Sane(t) && n >= 0
    ensures Sane(u) && u.state == t.state
  {
    OnRow(t, InsertBlanks(t.rows[t.y], t.x, Least(Count(n, COLUMNS), COLUMNS - t.x)))
  }

  function DeleteChars(t: Term, n: int): (u: Term)
    requires Sane(t) && n >= 0
    ensures Sane(u) && u.state == t.state
  {
    OnRow(t, DeleteCells(t.rows[t.y], t.x, Least(Count(n, COLUMNS), COLUMNS - t.x)))
  }

  function Rendition(attr: int, p: int): int {
    if p == 0 || p == 27 then 0x07 else if p == 1 || p == 4 then 0x0f else if p == 7 then 0x70 else attr
  }

  /** Parameters 0 .. n-1 of the m command, in order. */
  function Renditions(attr: int, par: seq<int>, n: nat): int
    requires n <= |par|
  {
    if n == 0 then attr else Rendition(Renditions(attr, par, n - 1), par[n - 1])
  }

  function Region(t: Term, a: int, b: int): (u: Term)
    requires Sane(t) && 0 <= a && 0 <= b
    ensures Sane(u) && u.state == t.state
  {
    var top, bottom := if a == 0 then 0 else a - 1, if b == 0 then LINES else b;
    if top < bottom <= LINES then t.(top := top, bottom := bottom) else t
  }

  function OrOne(n: int): int { if n == 0 then 1 else n }

  function LessOne(n: int): int { if n == 0 then 0 else n - 1 }

  // ---------------------------------------------------------------- escape sequences

  /** The cursor commands with one parameter. */
  predicate Moves(c: int) {
    c == 'G' as int || c == '`' as int || c == 'A' as int || c == 'B' as int || c == 'e' as int || c == 'C' as int || c == 'a' as int
    || c == 'D' as int || c == 'E' as int || c == 'F' as int || c == 'd' as int
  }

  function Travel(t: Term, c: int): (u: Term)
    requires Sane(t) && Moves(c)
    ensures Sane(u) && u.state == t.state
  {
    var p := t.par[0];
    if c == 'G' as int || c == '`' as int then Goto(SetPar(t, LessOne(p)), LessOne(p), t.y)
    else if c == 'A' as int then Goto(SetPar(t, OrOne(p)), t.x, Wrap(t.y - OrOne(p)))
    else if c == 'B' as int || c == 'e' as int then Goto(SetPar(t, OrOne(p)), t.x, Wrap(t.y + OrOne(p)))
    else if c == 'C' as int || c == 'a' as int then Goto(SetPar(t, OrOne(p)), Wrap(t.x + OrOne(p)), t.y)
    else if c == 'D' as int then Goto(SetPar(t, OrOne(p)), Wrap(t.x - OrOne(p)), t.y)
    else if c == 'E' as int then Goto(SetPar(t, OrOne(p)), 0, Wrap(t.y + OrOne(p)))
    else if c == 'F' as int then Goto(SetPar(t, OrOne(p)), 0, Wrap(t.y - OrOne(p)))
    else Goto(SetPar(t, LessOne(p)), t.x, LessOne(p))
  }

  function Address(t: Term): (u: Term)
    requires Sane(t)
    ensures Sane(u) && u.state == t.state
  {
    var p, q := LessOne(t.par[0]), LessOne(t.par[1]);
    Goto(t.(par := t.par[0 := p][1 := q]), q, p)
  }

  function Margins(t: Term): (u: Term)
    requires Sane(t)
    ensures Sane(u) && u.state == t.state
  {
    var p, q := t.par[0], t.par[1];
    Region(t.(par := t.par[0 := LessOne(p)][1 := if q == 0 then LINES else q]), p, q)
  }

  /** The command c with the parameters collected, as par[] is changed by it. */
  function Command(t: Term, c: int): (u: Term)
    requires Sane(t)
    ensures Sane(u) && u.state == t.state
  {
    var p := t.par[0];
    if Moves(c) then Travel(t, c)
    else if c == 'H' as int || c == 'f' as int then Address(t)
    else if c == 'J' as int then EraseDisplay(t, p)
    else if c == 'K' as int then EraseLine(t, p)
    else if c == 'L' as int then InsertLines(t, p)
    else if c == 'M' as int then DeleteLines(t, p)
    else if c == 'P' as int then DeleteChars(t, p)
    else if c == '@' as int then InsertChars(t, p)
    else if c == 'm' as int then t.(attr := Renditions(t.attr, t.par, t.npar + 1))
    else if c == 'r' as int then Margins(t)
    else if c == 's' as int then t.(savedX := t.x, savedY := t.y)
    else if c == 'u' as int then t.(x := t.savedX, y := t.savedY)
    else t
  }

  function SetPar(t: Term, p: int): (u: Term)
    requires Sane(t) && 0 <= p < WORD
    ensures Sane(u) && u.state == t.state
  {
    t.(par := t.par[0 := p])
  }

  /** A byte after ESC [ */
  function Parameter(t: Term, c: int): (u: Term)
    requires Sane(t)
    ensures Sane(u)
  {
    if c == ';' as int && t.npar < NPAR - 1 then t.(npar := t.npar + 1)
    else if '0' as int <= c <= '9' as int then t.(par := t.par[t.npar := Wrap(10 * t.par[t.npar] + c - '0' as int)])
    else Command(t.(state := 0), c)
  }

  /** The byte after ESC.  The last two tests look at the column, as the source does. */
  function Escape(t: Term, c: int): (u: Term)
    requires Sane(t)
    ensures Sane(u)
  {
    if c == '[' as int then t.(state := 2)
    else if c == 'E' as int then Goto(t, 0, t.y + 1)
    else if c == 'M' as int then ReverseLineFeed(t)
    else if c == 'D' as int then LineFeed(t)
    else if c == 'Z' as int then t
    else if t.x == '7' as int then t.(savedX := t.x, savedY := t.y)
    else if t.x == '8' as int then t.(x := t.savedX, y := t.savedY)
    else t
  }

  function Ground(t: Term, c: int, erase: int): (u: Term)
    requires Sane(t)
    ensures Sane(u)
  {
    if 31 < c < 127 then Print(t, c)
    else if c == 27 then t.(state := 1)
    else if c == 10 || c == 11 || c == 12 then LineFeed(t)
    else if c == 13 then t.(x := 0)
    else if c == erase then Rubout(t)
    else if c == 8 then (if t.x > 0 then t.(x := t.x - 1) else t)
    else if c == 9 then Tab(t)
    else t
  }

  function Zeros(): (p: seq<int>)
    ensures |p| == NPAR && forall i :: 0 <= i < NPAR ==> p[i] == 0
  {
    seq(NPAR, _ => 0)
  }

  /** One byte, as a signed character; erase is the line discipline's erase character. */
  function Feed(t: Term, c: int, erase: int): (u: Term)
    requires Sane(t)
    ensures Sane(u)
  {
    if t.state == 0 then Ground(t, c, erase)
    else if t.state == 1 then Escape(t.(state := 0), c)
    else if t.state == 2 then
      var u := t.(par := Zeros(), npar := 0, state := 3);
      if c == '?' as int then u else Parameter(u, c)
    else Parameter(t, c)
  }

  /** Every byte stream keeps the terminal sane. */
  function FeedAll(t: Term, bytes: seq<int>, erase: int): (u: Term)
    requires Sane(t)
    ensures Sane(u)
    decreases |bytes|
  {
    if bytes == [] then t else FeedAll(Feed(t, bytes[0], erase), bytes[1..], erase)
  }

  // ---------------------------------------------------------------- control sequences are understood

  lemma {:induction false} FeedConcat(t: Term, a: seq<int>, b: seq<int>, erase: int)
    requires Sane(t)
    ensures FeedAll(t, a + b, erase) == FeedAll(FeedAll(t, a, erase), b, erase)
    decreases |a|
  {
    if a == [] {
      assert a + b == b;
    } else {
      assert (a + b)[1..] == a[1..] + b;
      FeedConcat(Feed(t, a[0], erase), a[1..], b, erase);
    }
  }

  lemma FeedOne(t: Term, c: int, erase: int)
    requires Sane(t)
    ensures FeedAll(t, [c], erase) == Feed(t, c, erase)
  {
    assert [c][1..] == [];
  }

  /** Decimal notation. */
  function Digits(n: nat): (d: seq<int>)
    ensures d != [] && '0' as int <= d[0] <= '9' as int
  {
    if n < 10 then ['0' as int + n] else Digits(n / 10) + ['0' as int + n % 10]
  }

  /** Parameters separated by semicolons. */
  function Parameters(ps: seq<nat>): (d: seq<int>)
    requires ps != []
    ensures d != [] && '0' as int <= d[0] <= '9' as int
  {
    if |ps| == 1 then Digits(ps[0]) else Parameters(ps[..|ps| - 1]) + ([';' as int] + Digits(ps[|ps| - 1]))
  }

  function Padded(ps: seq<nat>): (p: seq<int>)
    requires |ps| <= NPAR
    ensures |p| == NPAR && forall i :: 0 <= i < NPAR ==> p[i] == if i < |ps| then ps[i] else 0
  {
    ps + seq(NPAR - |ps|, _ => 0)
  }

  lemma DigitParsed(t: Term, d: nat, erase: int)
    requires Sane(t) && t.state == 3 && d <= 9 && 10 * t.par[t.npar] + d < WORD
    ensures FeedAll(t, ['0' as int + d], erase) == t.(par := t.par[t.npar := 10 * t.par[t.npar] + d])
  {
    FeedOne(t, '0' as int + d, erase);
  }

  lemma {:induction false} DigitsParsed(t: Term, n: nat, erase: int)
    requires Sane(t) && t.state == 3 && t.par[t.npar] == 0 && n < WORD
    ensures FeedAll(t, Digits(n), erase) == t.(par := t.par[t.npar := n])
    decreases n
  {
    if n < 10 {
      DigitParsed(t, n, erase);
    } else {
      DigitsParsed(t, n / 10, erase);
      var u := t.(par := t.par[t.npar := n / 10]);
      FeedConcat(t, Digits(n / 10), ['0' as int + n % 10], erase);
      DigitParsed(u, n % 10, erase);
      assert u.par[t.npar := n] == t.par[t.npar := n];
    }
  }

  /** A fresh parameter state: ESC [ has been read. */
  function Opened(t: Term, ps: seq<nat>): Term
    requires 1 <= |ps| <= NPAR
  {
    t.(state := 3, npar := |ps| - 1, par := Padded(ps))
  }

  /** A semicolon and a number fill the next parameter. */
  lemma NextParameter(u: Term, n: nat, erase: int)
    requires Sane(u) && u.state == 3 && u.npar < NPAR - 1 && u.par[u.npar + 1] == 0 && n < WORD
    ensures FeedAll(u, [';' as int] + Digits(n), erase) == u.(npar := u.npar + 1, par := u.par[u.npar + 1 := n])
  {
    FeedConcat(u, [';' as int], Digits(n), erase);
    FeedOne(u, ';' as int, erase);
    DigitsParsed(u.(npar := u.npar + 1), n, erase);
  }

  lemma {:induction false} ParametersParsed(t: Term, ps: seq<nat>, erase: int)
    requires Sane(t) && t.state == 3 && t.npar == 0 && t.par == Zeros()
    requires 1 <= |ps| <= NPAR && forall i :: 0 <= i < |ps| ==> ps[i] < WORD
    ensures FeedAll(t, Parameters(ps), erase) == Opened(t, ps)
    decreases |ps|
  {
    if |ps| == 1 {
      DigitsParsed(t, ps[0], erase);
      assert Zeros()[0 := ps[0]] == Padded(ps);
    } else {
      var k := |ps| - 1;
      ParametersParsed(t, ps[..k], erase);
      FeedConcat(t, Parameters(ps[..k]), [';' as int] + Digits(ps[k]), erase);
      NextParameter(Opened(t, ps[..k]), ps[k], erase);
      assert Padded(ps[..k])[k := ps[k]] == Padded(ps);
    }
  }

  /** ESC [ p1 ; ... ; pn F runs command F with exactly those parameters, for up to sixteen 32-bit numbers. */
  lemma ControlSequence(t: Term, ps: seq<nat>, f: int, erase: int)
    requires Sane(t) && t.state == 0
    requires 1 <= |ps| <= NPAR && forall i :: 0 <= i < |ps| ==> ps[i] < WORD
    requires f != ';' as int && !('0' as int <= f <= '9' as int)
    ensures FeedAll(t, [27, '[' as int] + Parameters(ps) + [f], erase) == Command(t.(npar := |ps| - 1, par := Padded(ps)), f)
  {
    var esc, csi := t.(state := 1), t.(state := 2);
    var p := Parameters(ps);
    FeedConcat(t, [27, '[' as int] + p, [f], erase);
    FeedConcat(t, [27, '[' as int], p, erase);
    assert [27, '[' as int] == [27] + ['[' as int];
    FeedConcat(t, [27], ['[' as int], erase);
    FeedOne(t, 27, erase);
    FeedOne(esc, '[' as int, erase);
    var u := t.(state := 3, npar := 0, par := Zeros());
    assert FeedAll(csi, p, erase) == FeedAll(u, p, erase);
    ParametersParsed(u, ps, erase);
    FeedOne(Opened(t, ps), f, erase);
    assert Opened(t, ps).(state := 0) == t.(npar := |ps| - 1, par := Padded(ps));
  }

  /** ESC [ row ; column H puts the cursor there, counting from one. */
  lemma CursorAddressing(t: Term, row: nat, column: nat, erase: int)
    requires Sane(t) && t.state == 0 && 1 <= row <= LINES && 1 <= column <= COLUMNS
    ensures var u := FeedAll(t, [27, '[' as int] + Parameters([row, column]) + ['H' as int], erase);
      u.x == column - 1 && u.y == row - 1 && u.rows == t.rows && u.state == 0
  {
    ControlSequence(t, [row, column], 'H' as int, erase);
  }

  // ---------------------------------------------------------------- ESC 7 and ESC 8

  predicate Records(t: Term, u: Term) { u.savedX == t.x && u.savedY == t.y }

  predicate Returns(t: Term, u: Term) { u.x == t.savedX && u.y == t.savedY }

  /** ESC 7 is meant to record the cursor.  It does so exactly in column 55, the code of the digit, or where nothing is to be done. */
  lemma EscSevenRecords(t: Term, erase: int)
    requires Sane(t) && t.state == 1
    ensures Records(t, Feed(t, '7' as int, erase)) <==> t.x == 55 || Records(t, t)
  {
  }

  /** ESC 8 is meant to go back there.  It does so exactly in column 56, or where nothing is to be done. */
  lemma EscEightReturns(t: Term, erase: int)
    requires Sane(t) && t.state == 1
    ensures Returns(t, Feed(t, '8' as int, erase)) <==> t.x == 56 || Returns(t, t)
  {
  }

  /** What decides is the column: after ESC, any byte that is not one of [ E M D Z records the cursor in column 55, goes
      back in column 56 and does nothing elsewhere. */
  lemma ColumnDecides(t: Term, c: int, erase: int)
    requires Sane(t) && t.state == 1
    requires c != '[' as int && c != 'E' as int && c != 'M' as int && c != 'D' as int && c != 'Z' as int
    ensures var u := t.(state := 0);
      Feed(t, c, erase) == if t.x == 55 then u.(savedX := t.x, savedY := t.y) else if t.x == 56 then u.(x := t.savedX, y := t.savedY) else u
  {
  }

  /** In column 3 with nothing recorded, ESC 7 then a carriage return then ESC 8 leaves the cursor in column 0. */
  lemma EscSevenFails(t: Term, erase: int)
    requires Sane(t) && t.state == 0 && t.x == 3 && t.savedX == 0 && t.savedY == 0
    ensures var u := FeedAll(t, [27, '7' as int], erase); u.savedX == 0 && u.x == 3 && !Records(t, u)
    ensures FeedAll(t, [27, '7' as int, 13, 27, '8' as int], erase).x == 0
  {
    var u := FeedAll(t, [27, '7' as int], erase);
    FeedConcat(t, [27], ['7' as int], erase);
    assert [27] + ['7' as int] == [27, '7' as int];
    FeedOne(t, 27, erase);
    FeedOne(t.(state := 1), '7' as int, erase);
    FeedConcat(t, [27, '7' as int], [13, 27, '8' as int], erase);
    assert [27, '7' as int] + [13, 27, '8' as int] == [27, '7' as int, 13, 27, '8' as int];
    FeedConcat(u, [13], [27, '8' as int], erase);
    assert [13] + [27, '8' as int] == [13, 27, '8' as int];
    FeedOne(u, 13, erase);
    var w := FeedAll(u, [13], erase);
    FeedConcat(w, [27], ['8' as int], erase);
    assert [27] + ['8' as int] == [27, '8' as int];
    FeedOne(w, 27, erase);
    FeedOne(w.(state := 1), '8' as int, erase);
  }
}
