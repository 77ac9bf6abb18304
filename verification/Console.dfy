/** kernel/console.c: video memory with a moving origin.  Addresses are in cells (two bytes)
    from SCREEN_START; every address the source forms is even.
 */
module Consoles {
  import opened Terminal

  /** (SCREEN_END - SCREEN_START) / 2 */
  const CELLS: nat := 0x4000
  const SIZE: nat := 2000

  /** The 25 rows that the display shows when its start address is o. */
  function Window(vm: seq<Cell>, o: nat): (w: seq<Row>)
    requires o + SIZE <= |vm|
    ensures |w| == LINES && forall r :: 0 <= r < LINES ==> |w[r]| == COLUMNS
    ensures forall r, c :: 0 <= r < LINES && 0 <= c < COLUMNS ==> w[r][c] == vm[o + 80 * r + c]
  {
    seq(LINES, r requires 0 <= r < LINES => vm[o + 80 * r..o + 80 * r + COLUMNS])
  }

  lemma WindowIs(vm: seq<Cell>, o: nat, rows: seq<Row>)
    requires o + SIZE <= |vm| && |rows| == LINES && forall r :: 0 <= r < LINES ==> |rows[r]| == COLUMNS
    requires forall r, c :: 0 <= r < LINES && 0 <= c < COLUMNS ==> vm[o + 80 * r + c] == rows[r][c]
    ensures Window(vm, o) == rows
  {
    forall r | 0 <= r < LINES
      ensures Window(vm, o)[r] == rows[r]
    {
      forall c | 0 <= c < COLUMNS
        ensures Window(vm, o)[r][c] == rows[r][c]
      {
      }
    }
  }

  lemma UpRow(rows: seq<Row>, a: nat, b: nat, n: nat, r: nat)
    requires a + n <= b <= |rows| && r < |rows|
    ensures |Up(rows, a, b, n)| == |rows|
    ensures Up(rows, a, b, n)[r] == if a <= r < b - n then rows[r + n] else if b - n <= r < b then Blanks(COLUMNS) else rows[r]
  {
  }

  lemma DownRow(rows: seq<Row>, a: nat, b: nat, n: nat, r: nat)
    requires a + n <= b <= |rows| && r < |rows|
    ensures |Down(rows, a, b, n)| == |rows|
    ensures Down(rows, a, b, n)[r] == if a + n <= r < b then rows[r - n] else if a <= r < a + n then Blanks(COLUMNS) else rows[r]
  {
  }

  /** Moving the cells of rows a+1 .. b-1 down in memory by one row, and blanking row b-1, scrolls the region up. */
  lemma UpWindow(vm: seq<Cell>, vm': seq<Cell>, o: nat, a: nat, b: nat)
    requires |vm'| == |vm| && o + SIZE <= |vm| && a < b <= LINES
    requires forall i {:trigger vm'[i]} :: o <= i < o + SIZE ==>
      (vm'[i] == if o + 80 * a <= i < o + 80 * (b - 1) then vm[i + 80] else if o + 80 * (b - 1) <= i < o + 80 * b then BLANK else vm[i])
    ensures Window(vm', o) == Up(Window(vm, o), a, b, 1)
  {
    var rows := Up(Window(vm, o), a, b, 1);
    forall r | 0 <= r < LINES
      ensures |rows[r]| == COLUMNS && forall c :: 0 <= c < COLUMNS ==> vm'[o + 80 * r + c] == rows[r][c]
    {
      UpRow(Window(vm, o), a, b, 1, r);
      forall c | 0 <= c < COLUMNS
        ensures vm'[o + 80 * r + c] == rows[r][c]
      {
        if a <= r < b - 1 {
          assert o + 80 * r + c + 80 == o + 80 * (r + 1) + c;
        }
      }
    }
    WindowIs(vm', o, rows);
  }

  lemma DownWindow(vm: seq<Cell>, vm': seq<Cell>, o: nat, a: nat, b: nat)
    requires |vm'| == |vm| && o + SIZE <= |vm| && a < b <= LINES
    requires forall i {:trigger vm'[i]} :: o <= i < o + SIZE ==>
      (vm'[i] == if o + 80 * (a + 1) <= i < o + 80 * b then vm[i - 80] else if o + 80 * a <= i < o + 80 * (a + 1) then BLANK else vm[i])
    ensures Window(vm', o) == Down(Window(vm, o), a, b, 1)
  {
    var rows := Down(Window(vm, o), a, b, 1);
    forall r | 0 <= r < LINES
      ensures |rows[r]| == COLUMNS && forall c :: 0 <= c < COLUMNS ==> vm'[o + 80 * r + c] == rows[r][c]
    {
      DownRow(Window(vm, o), a, b, 1, r);
      forall c | 0 <= c < COLUMNS
        ensures vm'[o + 80 * r + c] == rows[r][c]
      {
        if a + 1 <= r < b {
          assert o + 80 * r + c - 80 == o + 80 * (r - 1) + c;
        }
      }
    }
    WindowIs(vm', o, rows);
  }

  /** Hardware scroll: the window moves one row on and its last row is blanked. */
  lemma ShiftWindow(vm: seq<Cell>, vm': seq<Cell>, o: nat, o': nat)
    requires |vm'| == |vm| && o + SIZE <= |vm| && o' + SIZE <= |vm|
    requires forall i {:trigger vm'[i]} :: o' <= i < o' + SIZE ==> vm'[i] == if i < o' + 1920 then vm[i - o' + o + 80] else BLANK
    ensures Window(vm', o') == Up(Window(vm, o), 0, LINES, 1)
  {
    var rows := Up(Window(vm, o), 0, LINES, 1);
    forall r | 0 <= r < LINES
      ensures |rows[r]| == COLUMNS && forall c :: 0 <= c < COLUMNS ==> vm'[o' + 80 * r + c] == rows[r][c]
    {
      UpRow(Window(vm, o), 0, LINES, 1, r);
      forall c | 0 <= c < COLUMNS
        ensures vm'[o' + 80 * r + c] == rows[r][c]
      {
        assert vm'[o' + (80 * r + c)] == if 80 * r + c < SIZE - COLUMNS then vm[o + (80 * r + c) + COLUMNS] else BLANK;
        if r < LINES - 1 {
          assert o + (80 * r + c) + COLUMNS == o + 80 * (r + 1) + c;
        }
      }
    }
    WindowIs(vm', o', rows);
  }

  /** rep stosw */
  method Fill(vm: array<Cell>, start: nat, count: nat)
    requires start + count <= vm.Length
    modifies vm
    ensures forall i {:trigger vm[i]} :: 0 <= i < vm.Length ==> vm[i] == if start <= i < start + count then BLANK else old(vm[i])
  {
    for k := 0 to count
      invariant forall i {:trigger vm[i]} :: 0 <= i < vm.Length ==> vm[i] == if start <= i < start + k then BLANK else old(vm[i])
    {
      vm[start + k] := BLANK;
    }
  }

  /** cld; rep movsl: upwards, for a source above the destination. */
  method CopyForward(vm: array<Cell>, src: nat, dst: nat, count: nat)
    requires dst <= src && src + count <= vm.Length
    modifies vm
    ensures forall i {:trigger vm[i]} :: 0 <= i < vm.Length ==> vm[i] == if dst <= i < dst + count then old(vm[i - dst + src]) else old(vm[i])
  {
    for k := 0 to count
      invariant forall i {:trigger vm[i]} :: 0 <= i < vm.Length ==> vm[i] == if dst <= i < dst + k then old(vm[i - dst + src]) else old(vm[i])
    {
      vm[dst + k] := vm[src + k];
    }
  }

  /** std; rep movsl: downwards, for a source below the destination. */
  method CopyBackward(vm: array<Cell>, src: nat, dst: nat, count: nat)
    requires src <= dst && dst + count <= vm.Length
    modifies vm
    ensures forall i {:trigger vm[i]} :: 0 <= i < vm.Length ==> vm[i] == if dst <= i < dst + count then old(vm[i - dst + src]) else old(vm[i])
  {
    var k := count;
    while k > 0
      invariant 0 <= k <= count
      invariant forall i {:trigger vm[i]} :: 0 <= i < vm.Length ==> vm[i] == if dst + k <= i < dst + count then old(vm[i - dst + src]) else old(vm[i])
    {
      k := k - 1;
      vm[dst + k] := vm[src + k];
    }
  }

  method MoveUp(vm: array<Cell>, o: nat, a: nat, b: nat)
    requires o + SIZE <= vm.Length && a < b <= LINES
    modifies vm
    ensures forall i {:trigger vm[i]} :: 0 <= i < vm.Length ==>
      (vm[i] == if o + 80 * a <= i < o + 80 * (b - 1) then old(vm[i + 80]) else if o + 80 * (b - 1) <= i < o + 80 * b then BLANK else old(vm[i]))
  {
    CopyForward(vm, o + 80 * (a + 1), o + 80 * a, (b - a - 1) * 80);
    Fill(vm, o + 80 * (b - 1), COLUMNS);
  }

  method MoveDown(vm: array<Cell>, o: nat, a: nat, b: nat)
    requires o + SIZE <= vm.Length && a < b <= LINES
    modifies vm
    ensures forall i {:trigger vm[i]} :: 0 <= i < vm.Length ==>
      (vm[i] == if o + 80 * (a + 1) <= i < o + 80 * b then old(vm[i - 80]) else if o + 80 * a <= i < o + 80 * (a + 1) then BLANK else old(vm[i]))
  {
    CopyBackward(vm, o + 80 * a, o + 80 * (a + 1), (b - a - 1) * 80);
    Fill(vm, o + 80 * a, COLUMNS);
  }

  /** The loop of insert_char over n cells from p: each takes its left neighbour's value, the first a blank. */
  method PushRight(vm: array<Cell>, p: nat, n: nat)
    requires p + n <= vm.Length
    modifies vm
    ensures forall j {:trigger vm[j]} :: 0 <= j < vm.Length ==>
      (vm[j] == if p < j < p + n then old(vm[j - 1]) else if j == p && n > 0 then BLANK else old(vm[j]))
  {
    var saved := BLANK;
    for k := 0 to n
      invariant saved == if k == 0 then BLANK else old(vm[p + k - 1])
      invariant forall j {:trigger vm[j]} :: 0 <= j < vm.Length ==>
        (vm[j] == if p < j < p + k then old(vm[j - 1]) else if j == p && k > 0 then BLANK else old(vm[j]))
    {
      var tmp := vm[p + k];
      vm[p + k] := saved;
      saved := tmp;
    }
  }

  /** The loop of delete_char over n cells from p. */
  method PullLeft(vm: array<Cell>, p: nat, n: nat)
    requires 0 < n && p + n <= vm.Length
    modifies vm
    ensures forall j {:trigger vm[j]} :: 0 <= j < vm.Length ==>
      (vm[j] == if p <= j < p + n - 1 then old(vm[j + 1]) else if j == p + n - 1 then BLANK else old(vm[j]))
  {
    for k := 0 to n - 1
      invariant forall j {:trigger vm[j]} :: 0 <= j < vm.Length ==> (vm[j] == if p <= j < p + k then old(vm[j + 1]) else old(vm[j]))
    {
      vm[p + k] := vm[p + k + 1];
    }
    vm[p + n - 1] := BLANK;
  }

  /** Only row y changed. */
  lemma RowWindow(vm: seq<Cell>, vm': seq<Cell>, o: nat, y: nat, row: Row)
    requires |vm'| == |vm| && o + SIZE <= |vm| && y < LINES && |row| == COLUMNS
    requires forall c :: 0 <= c < COLUMNS ==> vm'[o + 80 * y + c] == row[c]
    requires forall i {:trigger vm'[i]} :: o <= i < o + SIZE && !(o + 80 * y <= i < o + 80 * y + COLUMNS) ==> vm'[i] == vm[i]
    ensures Window(vm', o) == Window(vm, o)[y := row]
  {
    WindowIs(vm', o, Window(vm, o)[y := row]);
  }

  /** The cells at offsets i .. j-1 of the window became blank, i in row y at column x. */
  lemma EraseToEnd(vm: seq<Cell>, vm': seq<Cell>, o: nat, x: nat, y: nat)
    requires |vm'| == |vm| && o + SIZE <= |vm| && x <= COLUMNS && y < LINES
    requires forall i {:trigger vm'[i]} :: o <= i < o + SIZE ==> vm'[i] == if i < o + 80 * y + x then vm[i] else BLANK
    ensures Window(vm', o) == Window(vm, o)[..y] + [Erase(Window(vm, o)[y], x, COLUMNS)] + BlankRows(LINES - y - 1)
  {
    WindowIs(vm', o, Window(vm, o)[..y] + [Erase(Window(vm, o)[y], x, COLUMNS)] + BlankRows(LINES - y - 1));
  }

  lemma EraseFromStart(vm: seq<Cell>, vm': seq<Cell>, o: nat, x: nat, y: nat)
    requires |vm'| == |vm| && o + SIZE <= |vm| && x <= COLUMNS && y < LINES
    requires forall i {:trigger vm'[i]} :: o <= i < o + SIZE ==> vm'[i] == if i < o + 80 * y + x then BLANK else vm[i]
    ensures Window(vm', o) == BlankRows(y) + [Erase(Window(vm, o)[y], 0, x)] + Window(vm, o)[y + 1..]
  {
    WindowIs(vm', o, BlankRows(y) + [Erase(Window(vm, o)[y], 0, x)] + Window(vm, o)[y + 1..]);
  }

  lemma SameRow(a: Row, b: Row)
    requires |a| == |b| && forall i :: 0 <= i < |a| ==> a[i] == b[i]
    ensures a == b
  {
  }

  lemma InsertCell(row: Row, x: nat, n: nat, i: nat)
    requires x + n <= |row| && i < |row|
    ensures InsertBlanks(row, x, n)[i] == if i < x then row[i] else if i < x + n then BLANK else row[i - n]
  {
  }

  lemma InsertAgain(row: Row, x: nat, n: nat)
    requires |row| == COLUMNS && x + n <= COLUMNS
    ensures x + n < COLUMNS ==> InsertBlanks(InsertBlanks(row, x, n), x, 1) == InsertBlanks(row, x, n + 1)
    ensures x + n == COLUMNS && n > 0 ==> InsertBlanks(InsertBlanks(row, x, n), x, 1) == InsertBlanks(row, x, n)
    ensures InsertBlanks(row, x, 0) == row
  {
    if x < COLUMNS {
      var m := if x + n < COLUMNS then n + 1 else n;
      forall i | 0 <= i < COLUMNS
        ensures InsertBlanks(InsertBlanks(row, x, n), x, 1)[i] == InsertBlanks(row, x, m)[i]
      {
        InsertCell(InsertBlanks(row, x, n), x, 1, i);
        InsertCell(row, x, m, i);
        InsertCell(row, x, n, if i > 0 then i - 1 else 0);
        InsertCell(row, x, n, i);
      }
    }
  }

  lemma DeleteAgain(row: Row, x: nat, n: nat)
    requires |row| == COLUMNS && x + n <= COLUMNS
    ensures x + n < COLUMNS ==> DeleteCells(DeleteCells(row, x, n), x, 1) == DeleteCells(row, x, n + 1)
    ensures x + n == COLUMNS && n > 0 ==> DeleteCells(DeleteCells(row, x, n), x, 1) == DeleteCells(row, x, n)
    ensures DeleteCells(row, x, 0) == row
  {
    if x + n < COLUMNS {
      SameRow(DeleteCells(DeleteCells(row, x, n), x, 1), DeleteCells(row, x, n + 1));
    } else if n > 0 {
      SameRow(DeleteCells(DeleteCells(row, x, n), x, 1), DeleteCells(row, x, n));
    }
  }

  /** The rows once n cells have been opened, or closed, at column x of row y; at most as many as there are. */
  function OpenedCells(rows: seq<Row>, x: nat, y: nat, n: nat): seq<Row>
    requires y < |rows| && |rows[y]| == COLUMNS && x <= COLUMNS
  {
    rows[y := InsertBlanks(rows[y], x, Least(n, COLUMNS - x))]
  }

  function ClosedCells(rows: seq<Row>, x: nat, y: nat, n: nat): seq<Row>
    requires y < |rows| && |rows[y]| == COLUMNS && x <= COLUMNS
  {
    rows[y := DeleteCells(rows[y], x, Least(n, COLUMNS - x))]
  }

  /** The cells from the cursor to the end of its row were pushed right by one. */
  lemma PushedWindow(vm: seq<Cell>, vm': seq<Cell>, o: nat, x: nat, y: nat)
    requires |vm'| == |vm| && o + SIZE <= |vm| && y < LINES && x <= COLUMNS
    requires forall j {:trigger vm'[j]} :: 0 <= j < |vm| ==>
      vm'[j] == if o + 80 * y + x < j < o + 80 * y + 80 then vm[j - 1] else if j == o + 80 * y + x && x < 80 then BLANK else vm[j]
    ensures Window(vm', o) == OpenedCells(Window(vm, o), x, y, 1)
  {
    var row := Window(vm, o)[y];
    var n := Least(1, COLUMNS - x);
    forall c: nat | c < COLUMNS
      ensures vm'[o + 80 * y + c] == InsertBlanks(row, x, n)[c]
    {
      InsertCell(row, x, n, c);
    }
    RowWindow(vm, vm', o, y, InsertBlanks(row, x, n));
  }

  /** They were pulled left by one. */
  lemma PulledWindow(vm: seq<Cell>, vm': seq<Cell>, o: nat, x: nat, y: nat)
    requires |vm'| == |vm| && o + SIZE <= |vm| && y < LINES && x < COLUMNS
    requires forall j {:trigger vm'[j]} :: 0 <= j < |vm| ==>
      vm'[j] == if o + 80 * y + x <= j < o + 80 * y + 79 then vm[j + 1] else if j == o + 80 * y + 79 then BLANK else vm[j]
    ensures Window(vm', o) == ClosedCells(Window(vm, o), x, y, 1)
  {
    RowWindow(vm, vm', o, y, DeleteCells(Window(vm, o)[y], x, 1));
  }

  lemma OpenedNext(rows: seq<Row>, x: nat, y: nat, n: nat)
    requires y < |rows| && |rows[y]| == COLUMNS && x <= COLUMNS
    ensures OpenedCells(rows, x, y, 0) == rows
    ensures OpenedCells(OpenedCells(rows, x, y, n), x, y, 1) == OpenedCells(rows, x, y, n + 1)
  {
    InsertAgain(rows[y], x, Least(n, COLUMNS - x));
    InsertAgain(InsertBlanks(rows[y], x, Least(n, COLUMNS - x)), x, 0);
  }

  lemma ClosedNext(rows: seq<Row>, x: nat, y: nat, n: nat)
    requires y < |rows| && |rows[y]| == COLUMNS && x <= COLUMNS
    ensures ClosedCells(rows, x, y, 0) == rows
    ensures ClosedCells(ClosedCells(rows, x, y, n), x, y, 1) == ClosedCells(rows, x, y, n + 1)
  {
    DeleteAgain(rows[y], x, Least(n, COLUMNS - x));
    DeleteAgain(DeleteCells(rows[y], x, Least(n, COLUMNS - x)), x, 0);
  }

  /** The rows once n lines have been opened, or closed, at row y; at most as many as there are. */
  function OpenedLines(rows: seq<Row>, y: nat, n: nat): seq<Row>
    requires |rows| == LINES && y < LINES
  {
    Down(rows, y, LINES, Least(n, LINES - y))
  }

  function ClosedLines(rows: seq<Row>, y: nat, n: nat): seq<Row>
    requires |rows| == LINES && y < LINES
  {
    Up(rows, y, LINES, Least(n, LINES - y))
  }

  lemma OpenedLinesNext(rows: seq<Row>, y: nat, n: nat)
    requires |rows| == LINES && y < LINES
    ensures OpenedLines(rows, y, 0) == rows && |OpenedLines(rows, y, n)| == LINES
    ensures OpenedLines(OpenedLines(rows, y, n), y, 1) == OpenedLines(rows, y, n + 1)
  {
    DownAgain(rows, y, Least(n, LINES - y));
  }

  lemma ClosedLinesNext(rows: seq<Row>, y: nat, n: nat)
    requires |rows| == LINES && y < LINES
    ensures ClosedLines(rows, y, 0) == rows && |ClosedLines(rows, y, n)| == LINES
    ensures ClosedLines(ClosedLines(rows, y, n), y, 1) == ClosedLines(rows, y, n + 1)
  {
    UpAgain(rows, y, Least(n, LINES - y));
  }

  lemma DownAgain(rows: seq<Row>, y: nat, n: nat)
    requires |rows| == LINES && y + n <= LINES && y < LINES
    ensures y + n < LINES ==> Down(Down(rows, y, LINES, n), y, LINES, 1) == Down(rows, y, LINES, n + 1)
    ensures y + n == LINES ==> Down(Down(rows, y, LINES, n), y, LINES, 1) == Down(rows, y, LINES, n)
    ensures Down(rows, y, LINES, 0) == rows
  {
    var m := if y + n < LINES then n + 1 else n;
    forall r | 0 <= r < LINES
      ensures Down(Down(rows, y, LINES, n), y, LINES, 1)[r] == Down(rows, y, LINES, m)[r]
    {
      DownRow(Down(rows, y, LINES, n), y, LINES, 1, r);
      DownRow(rows, y, LINES, m, r);
      DownRow(rows, y, LINES, n, r);
      if r > 0 {
        DownRow(rows, y, LINES, n, r - 1);
      }
    }
  }

  lemma UpAgain(rows: seq<Row>, y: nat, n: nat)
    requires |rows| == LINES && y + n <= LINES && y < LINES
    ensures y + n < LINES ==> Up(Up(rows, y, LINES, n), y, LINES, 1) == Up(rows, y, LINES, n + 1)
    ensures y + n == LINES ==> Up(Up(rows, y, LINES, n), y, LINES, 1) == Up(rows, y, LINES, n)
    ensures Up(rows, y, LINES, 0) == rows
  {
    var m := if y + n < LINES then n + 1 else n;
    forall r | 0 <= r < LINES
      ensures Up(Up(rows, y, LINES, n), y, LINES, 1)[r] == Up(rows, y, LINES, m)[r]
    {
      UpRow(Up(rows, y, LINES, n), y, LINES, 1, r);
      UpRow(rows, y, LINES, m, r);
      UpRow(rows, y, LINES, n, r);
      if r + 1 < LINES {
        UpRow(rows, y, LINES, n, r + 1);
      }
    }
  }

  /** Cell i has been on the screen at an origin from number `from` on. */
  ghost predicate Shown(os: seq<nat>, from: int, i: int) { exists k :: 0 <= from <= k < |os| && os[k] <= i < os[k] + SIZE }

  /** The origins os went on to os', and the cells in which vm and vm' differ were on the screen on the way. */
  ghost predicate Visited(vm: seq<Cell>, os: seq<nat>, vm': seq<Cell>, os': seq<nat>) {
    && 1 <= |os| <= |os'| && os'[..|os|] == os && |vm'| == |vm|
    && forall i :: 0 <= i < |vm| && vm'[i] != vm[i] ==> Shown(os', |os| - 1, i)
  }

  /** Then one more window, whose origin is the last. */
  lemma VisitedMore(vm: seq<Cell>, os: seq<nat>, vm': seq<Cell>, os': seq<nat>, vm'': seq<Cell>, os'': seq<nat>)
    requires Visited(vm, os, vm', os') && |vm''| == |vm| && os'' != []
    requires var o := os''[|os''| - 1];
      && (os'' == os' || os'' == os' + [o])
      && forall i :: 0 <= i < |vm| && !(o <= i < o + SIZE) ==> vm''[i] == vm'[i]
    ensures Visited(vm, os, vm'', os'')
  {
    forall i | 0 <= i < |vm| && vm''[i] != vm[i]
      ensures Shown(os'', |os| - 1, i)
    {
      if vm''[i] != vm'[i] {
        var k := |os''| - 1;
        assert os''[k] <= i < os''[k] + SIZE;
      } else {
        var k :| |os| - 1 <= k < |os'| && os'[k] <= i < os'[k] + SIZE;
        assert os''[k] == os'[k];
      }
    }
  }

  /** Video memory, the origins so far and what is on the screen. */
  datatype Shot = Shot(vm: seq<Cell>, origins: seq<nat>, screen: Term)

  /** The screen is the window at the last origin. */
  ghost predicate Displays(s: Shot) {
    && |s.vm| == CELLS && s.origins != [] && s.origins[|s.origins| - 1] + SIZE <= CELLS
    && Sane(s.screen) && s.screen.rows == Window(s.vm, s.origins[|s.origins| - 1])
  }

  /** Byte c was handled between states a and b. */
  ghost predicate Handled(a: Shot, b: Shot, c: int, erase: int) {
    && Displays(a) && Displays(b) && b.screen == Feed(a.screen, c, erase)
    && Visited(a.vm, a.origins, b.vm, b.origins)
  }

  ghost predicate IsRun(shots: seq<Shot>, bytes: seq<int>, erase: int) {
    |shots| == |bytes| + 1 && forall k :: 0 <= k < |bytes| ==> HandledAt(shots, bytes, erase, k)
  }

  ghost predicate HandledAt(shots: seq<Shot>, bytes: seq<int>, erase: int, k: nat)
    requires |shots| == |bytes| + 1 && k < |bytes|
  {
    Handled(shots[k], shots[k + 1], bytes[k], erase)
  }

  lemma RunGrows(shots: seq<Shot>, bytes: seq<int>, erase: int, s: Shot, c: int, bytes': seq<int>)
    requires IsRun(shots, bytes, erase) && Handled(shots[|bytes|], s, c, erase) && bytes' == bytes + [c]
    ensures IsRun(shots + [s], bytes', erase)
  {
    forall k | 0 <= k < |bytes| + 1
      ensures HandledAt(shots + [s], bytes', erase, k)
    {
      assert k < |bytes| ==> HandledAt(shots, bytes, erase, k);
    }
  }

  lemma {:induction false} RunFeeds(shots: seq<Shot>, bytes: seq<int>, erase: int)
    requires IsRun(shots, bytes, erase) && Displays(shots[0])
    ensures Displays(shots[|bytes|]) && shots[|bytes|].screen == FeedAll(shots[0].screen, bytes, erase)
    decreases |bytes|
  {
    if bytes != [] {
      var n := |bytes| - 1;
      var shots', bytes' := shots[..n + 1], bytes[..n];
      forall k | 0 <= k < n
        ensures HandledAt(shots', bytes', erase, k)
      {
        assert HandledAt(shots, bytes, erase, k);
      }
      RunFeeds(shots', bytes', erase);
      assert HandledAt(shots, bytes, erase, n);
      assert bytes == bytes[..n] + [bytes[n]];
      FeedConcat(shots[0].screen, bytes[..n], [bytes[n]], erase);
      FeedOne(shots[n].screen, bytes[n], erase);
    }
  }

  class Console {
    const vm: array<Cell>
    var origin: nat
    var scrEnd: nat
    var pos: int
    var x: nat
    var y: nat
    var top: nat
    var bottom: nat
    var state: int
    var npar: int
    var par: seq<int>
    var attr: int
    var savedX: int
    var savedY: int
    /** Every origin so far, the present one last. */
    ghost var origins: seq<nat>

    ghost function Screen(): Term
      reads this, vm
      requires origin + SIZE <= vm.Length
    {
      Term(Window(vm[..], origin), x, y, top, bottom, savedX, savedY, attr, state, npar, par)
    }

    /** The window lies in video memory and the cursor address agrees with the cursor. */
    ghost predicate Valid()
      reads this, vm
    {
      && vm.Length == CELLS && scrEnd == origin + SIZE && scrEnd <= CELLS
      && pos == origin + 80 * y + x
      && origins != [] && origins[|origins| - 1] == origin
      && Sane(Screen())
    }

    /** In numbers: where the window and the cursor are, and which cell shows where. */
    lemma ValidLaw()
      requires Valid()
      ensures vm.Length == 0x4000 && scrEnd == origin + 2000 <= 0x4000 && pos == origin + 80 * y + x
      ensures 0 <= x <= 80 && 0 <= y < 25 && 0 <= top < bottom <= 25
      ensures forall r, c :: 0 <= r < 25 && 0 <= c < 80 ==> Screen().rows[r][c] == vm[origin + 80 * r + c]
      ensures Screen().x == x && Screen().y == y && Screen().top == top && Screen().bottom == bottom && Screen().attr == attr
    {
    }

    ghost function Rows(): seq<Row>
      reads this, vm
      requires origin + SIZE <= vm.Length
    {
      Window(vm[..], origin)
    }

    /** Cells that are not on the screen are not written, and the screen has moved at most once. */
    twostate predicate InsideOnly()
      reads this, vm
    {
      && (origins == old(origins) || origins == old(origins) + [origin])
      && forall i :: 0 <= i < vm.Length && !(origin <= i < origin + SIZE) ==> vm[i] == old(vm[i])
    }

    /** The cells written have been on the screen, at one of the origins since then. */
    twostate predicate InsideVisited()
      reads this, vm
    {
      Visited(old(vm[..]), old(origins), vm[..], origins)
    }

    /** The whole screen: the window moves on in video memory, or back to its start. */
    method HardwareScroll()
      requires Valid()
      modifies this`origin, this`origins, this`scrEnd, this`pos, vm
      ensures Valid() && InsideOnly()
      ensures Screen() == old(Screen()).(rows := Up(old(Screen()).rows, 0, LINES, 1))
      ensures origin == if old(scrEnd) + COLUMNS > CELLS then 0 else old(origin) + COLUMNS
    {
      ghost var before, o := vm[..], origin;
      origin := origin + COLUMNS;
      pos := pos + COLUMNS;
      scrEnd := scrEnd + COLUMNS;
      if scrEnd > CELLS {
        CopyForward(vm, origin, 0, 1920);
        Fill(vm, 1920, COLUMNS);
        scrEnd := scrEnd - origin;
        pos := pos - origin;
        origin := 0;
      } else {
        Fill(vm, scrEnd - COLUMNS, COLUMNS);
      }
      origins := origins + [origin];
      ShiftWindow(before, vm[..], o, origin);
    }

    /** scrup: hardware scrolling for the whole screen, copying for a region. */
    method Scrup()
      requires Valid()
      modifies this`origin, this`origins, this`scrEnd, this`pos, vm
      ensures Valid() && InsideOnly()
      ensures Screen() == old(Screen()).(rows := Up(old(Screen()).rows, top, bottom, 1))
    {
      if top == 0 && bottom == LINES {
        HardwareScroll();
      } else {
        ghost var before := vm[..];
        MoveUp(vm, origin, top, bottom);
        UpWindow(before, vm[..], origin, top, bottom);
      }
    }

    method Scrdown()
      requires Valid()
      modifies vm
      ensures Valid() && InsideOnly()
      ensures Screen() == old(Screen()).(rows := Down(old(Screen()).rows, top, bottom, 1))
    {
      ghost var before := vm[..];
      MoveDown(vm, origin, top, bottom);
      DownWindow(before, vm[..], origin, top, bottom);
    }

    method Lf()
      requires Valid()
      modifies this`origin, this`origins, this`scrEnd, this`pos, this`y, vm
      ensures Valid() && InsideOnly() && Screen() == LineFeed(old(Screen()))
    {
      if y + 1 < bottom {
        y := y + 1;
        pos := pos + COLUMNS;
        return;
      }
      Scrup();
    }

    method Ri()
      requires Valid()
      modifies this`pos, this`y, vm
      ensures Valid() && InsideOnly() && Screen() == ReverseLineFeed(old(Screen()))
    {
      if y > top {
        y := y - 1;
        pos := pos - COLUMNS;
        return;
      }
      Scrdown();
    }

    method GotoXY(newX: int, newY: int)
      requires Valid() && 0 <= newX && 0 <= newY
      modifies this`x, this`y, this`pos
      ensures Valid() && Screen() == Goto(old(Screen()), newX, newY)
    {
      if newX >= COLUMNS || newY >= LINES {
        return;
      }
      x := newX;
      y := newY;
      pos := origin + 80 * y + x;
    }

    /** The cell at address p, in column `at` of the cursor's row, is written. */
    method StoreCell(p: int, ghost at: nat, v: Cell)
      requires Valid() && at < COLUMNS && p == origin + 80 * y + at
      modifies vm
      ensures Valid() && InsideOnly() && Screen() == OnRow(old(Screen()), old(Screen()).rows[y][at := v])
    {
      ghost var before := vm[..];
      vm[p] := v;
      RowWindow(before, vm[..], origin, y, Window(before, origin)[y][at := v]);
    }

    method CsiJ(n: int)
      requires Valid()
      modifies vm
      ensures Valid() && InsideOnly() && Screen() == EraseDisplay(old(Screen()), n)
    {
      if n == 0 {
        ghost var before := vm[..];
        Fill(vm, pos, scrEnd - pos);
        EraseToEnd(before, vm[..], origin, x, y);
      } else if n == 1 {
        BlankToCursor();
      } else if n == 2 {
        BlankAll();
      }
    }

    method BlankToCursor()
      requires Valid()
      modifies vm
      ensures Valid() && InsideOnly() && Screen() == EraseDisplay(old(Screen()), 1)
    {
      ghost var before := vm[..];
      Fill(vm, origin, pos - origin);
      EraseFromStart(before, vm[..], origin, x, y);
    }

    method BlankAll()
      requires Valid()
      modifies vm
      ensures Valid() && InsideOnly() && Screen() == EraseDisplay(old(Screen()), 2)
    {
      Fill(vm, origin, SIZE);
      WindowIs(vm[..], origin, BlankRows(LINES));
    }

    /** Blanks in columns from .. to-1 of the cursor's row. */
    method FillRow(from: nat, to: nat)
      requires Valid() && from <= to <= COLUMNS
      modifies vm
      ensures Valid() && InsideOnly() && Screen() == OnRow(old(Screen()), Erase(old(Screen()).rows[y], from, to))
    {
      ghost var before := vm[..];
      Fill(vm, origin + 80 * y + from, to - from);
      RowWindow(before, vm[..], origin, y, Erase(Window(before, origin)[y], from, to));
    }

    method CsiK(n: int)
      requires Valid()
      modifies vm
      ensures Valid() && InsideOnly() && Screen() == EraseLine(old(Screen()), n)
    {
      if n == 0 {
        FillRow(x, COLUMNS);
      } else if n == 1 {
        FillRow(0, x);
      } else if n == 2 {
        ghost var row := Window(vm[..], origin)[y];
        FillRow(0, COLUMNS);
        assert Erase(row, 0, COLUMNS) == Blanks(COLUMNS);
      }
    }

    /** insert_char */
    method InsertChar()
      requires Valid()
      modifies vm
      ensures Valid() && InsideOnly() && Rows() == OpenedCells(old(Rows()), x, y, 1)
    {
      ghost var before := vm[..];
      PushRight(vm, pos, COLUMNS - x);
      PushedWindow(before, vm[..], origin, x, y);
    }

    /** delete_char */
    method DeleteChar()
      requires Valid()
      modifies vm
      ensures Valid() && InsideOnly() && Rows() == ClosedCells(old(Rows()), x, y, 1)
    {
      if x >= COLUMNS {
        ClosedNext(Rows(), x, y, 0);
        return;
      }
      ghost var before := vm[..];
      PullLeft(vm, pos, COLUMNS - x);
      PulledWindow(before, vm[..], origin, x, y);
    }

    /** csi_at */
    method CsiAt(n: int)
      requires Valid() && n >= 0
      modifies vm
      ensures Valid() && InsideOnly() && Screen() == InsertChars(old(Screen()), n)
    {
      InsertCells(if n > COLUMNS then COLUMNS else if n == 0 then 1 else n);
    }

    method InsertCells(nr: nat)
      requires Valid()
      modifies vm
      ensures Valid() && InsideOnly() && Rows() == OpenedCells(old(Rows()), x, y, nr)
    {
      OpenedNext(Rows(), x, y, 0);
      for k := 0 to nr
        invariant Valid() && InsideOnly() && Rows() == OpenedCells(old(Rows()), x, y, k)
      {
        InsertChar();
        OpenedNext(old(Rows()), x, y, k);
      }
    }

    /** csi_P */
    method CsiP(n: int)
      requires Valid() && n >= 0
      modifies vm
      ensures Valid() && InsideOnly() && Screen() == DeleteChars(old(Screen()), n)
    {
      RemoveCells(if n > COLUMNS then COLUMNS else if n == 0 then 1 else n);
    }

    method RemoveCells(nr: nat)
      requires Valid()
      modifies vm
      ensures Valid() && InsideOnly() && Rows() == ClosedCells(old(Rows()), x, y, nr)
    {
      ClosedNext(Rows(), x, y, 0);
      for k := 0 to nr
        invariant Valid() && InsideOnly() && Rows() == ClosedCells(old(Rows()), x, y, k)
      {
        DeleteChar();
        ClosedNext(old(Rows()), x, y, k);
      }
    }

    /** insert_line borrows the scroll region. */
    method InsertLine()
      requires Valid()
      modifies this`top, this`bottom, vm
      ensures Valid() && InsideOnly()
      ensures top == old(top) && bottom == old(bottom) && Rows() == OpenedLines(old(Rows()), y, 1)
    {
      var oldTop, oldBottom := top, bottom;
      top := y;
      bottom := LINES;
      Scrdown();
      top := oldTop;
      bottom := oldBottom;
    }

    method DeleteLine()
      requires Valid()
      modifies this`top, this`bottom, this`origin, this`origins, this`scrEnd, this`pos, vm
      ensures Valid() && InsideOnly()
      ensures top == old(top) && bottom == old(bottom) && Rows() == ClosedLines(old(Rows()), y, 1)
    {
      var oldTop, oldBottom := top, bottom;
      top := y;
      bottom := LINES;
      Scrup();
      top := oldTop;
      bottom := oldBottom;
    }

    /** csi_L */
    method CsiL(n: int)
      requires Valid() && n >= 0
      modifies this`top, this`bottom, vm
      ensures Valid() && InsideOnly() && Screen() == InsertLines(old(Screen()), n)
    {
      OpenLines(if n > LINES then LINES else if n == 0 then 1 else n);
    }

    method OpenLines(nr: nat)
      requires Valid()
      modifies this`top, this`bottom, vm
      ensures Valid() && InsideOnly() && top == old(top) && bottom == old(bottom) && Rows() == OpenedLines(old(Rows()), y, nr)
    {
      ghost var rows := Rows();
      OpenedLinesNext(rows, y, 0);
      for k := 0 to nr
        invariant Valid() && InsideOnly() && top == old(top) && bottom == old(bottom) && Rows() == OpenedLines(rows, y, k)
      {
        OpenNext(rows, k);
      }
    }

    /** One line more than k. */
    method OpenNext(ghost rows: seq<Row>, ghost k: nat)
      requires Valid() && |rows| == LINES && Rows() == OpenedLines(rows, y, k)
      modifies this`top, this`bottom, vm
      ensures Valid() && InsideOnly() && top == old(top) && bottom == old(bottom) && Rows() == OpenedLines(rows, y, k + 1)
    {
      InsertLine();
      OpenedLinesNext(rows, y, k);
    }

    /** csi_M */
    method CsiM(n: int)
      requires Valid() && n >= 0
      modifies this`top, this`bottom, this`origin, this`origins, this`scrEnd, this`pos, vm
      ensures Valid() && InsideVisited() && Screen() == DeleteLines(old(Screen()), n)
    {
      CloseLines(if n > LINES then LINES else if n == 0 then 1 else n);
    }

    method CloseLines(nr: nat)
      requires Valid()
      modifies this`top, this`bottom, this`origin, this`origins, this`scrEnd, this`pos, vm
      ensures Valid() && InsideVisited() && top == old(top) && bottom == old(bottom) && Rows() == ClosedLines(old(Rows()), y, nr)
    {
      ghost var rows, cells, os := Rows(), vm[..], origins;
      ClosedLinesNext(rows, y, 0);
      for k := 0 to nr
        invariant Valid() && Visited(cells, os, vm[..], origins)
        invariant top == old(top) && bottom == old(bottom) && Rows() == ClosedLines(rows, y, k)
      {
        CloseNext(rows, k, cells, os);
      }
    }

    /** One line more than k; cells and os are as they were before the first. */
    method CloseNext(ghost rows: seq<Row>, ghost k: nat, ghost cells: seq<Cell>, ghost os: seq<nat>)
      requires Valid() && |rows| == LINES && Rows() == ClosedLines(rows, y, k) && Visited(cells, os, vm[..], origins)
      modifies this`top, this`bottom, this`origin, this`origins, this`scrEnd, this`pos, vm
      ensures Valid() && Visited(cells, os, vm[..], origins)
      ensures top == old(top) && bottom == old(bottom) && Rows() == ClosedLines(rows, y, k + 1)
    {
      ghost var before, visited := vm[..], origins;
      DeleteLine();
      VisitedMore(cells, os, before, visited, vm[..], origins);
      ClosedLinesNext(rows, y, k);
    }

    /** csi_m */
    method CsiSgr()
      requires Valid()
      modifies this`attr
      ensures Valid() && Screen() == old(Screen()).(attr := Renditions(old(attr), par, npar + 1))
    {
      for i := 0 to npar + 1
        invariant Valid() && attr == Renditions(old(attr), par, i)
      {
        if par[i] == 0 || par[i] == 27 {
          attr := 0x07;
        } else if par[i] == 1 || par[i] == 4 {
          attr := 0x0f;
        } else if par[i] == 7 {
          attr := 0x70;
        }
      }
    }

    method SaveCur()
      requires Valid()
      modifies this`savedX, this`savedY
      ensures Valid() && Screen() == old(Screen()).(savedX := x, savedY := y)
    {
      savedX := x;
      savedY := y;
    }

    method RestoreCur()
      requires Valid()
      modifies this`x, this`y, this`pos
      ensures Valid() && Screen() == old(Screen()).(x := savedX, y := savedY)
    {
      x := savedX;
      y := savedY;
      pos := origin + 80 * y + x;
    }

    /** The row is full: continue in the first column of the next one. */
    method NextLine()
      requires vm.Length == CELLS && scrEnd == origin + SIZE && scrEnd <= CELLS && pos == origin + 80 * y + x
      requires origins != [] && origins[|origins| - 1] == origin
      requires x >= COLUMNS && Sane(Screen().(x := x - COLUMNS))
      modifies this`origin, this`origins, this`scrEnd, this`pos, this`x, this`y, vm
      ensures Valid() && InsideOnly() && Screen() == Continue(old(Screen()))
    {
      x := x - COLUMNS;
      pos := pos - COLUMNS;
      Lf();
    }

    /** A printing character. */
    method PrintChar(c: int)
      requires Valid()
      modifies this`origin, this`origins, this`scrEnd, this`pos, this`x, this`y, vm
      ensures Valid() && InsideOnly() && Screen() == Print(old(Screen()), c)
    {
      MakeRoom();
      PutHere(attr * 256 + c);
    }

    method MakeRoom()
      requires Valid()
      modifies this`origin, this`origins, this`scrEnd, this`pos, this`x, this`y, vm
      ensures Valid() && InsideOnly() && Screen() == Room(old(Screen()))
    {
      if x >= COLUMNS {
        NextLine();
      }
    }

    /** The cell under the cursor, which then moves on. */
    method PutHere(v: Cell)
      requires Valid() && x < COLUMNS
      modifies this`pos, this`x, vm
      ensures Valid() && InsideOnly() && Screen() == Terminal.PutCell(old(Screen()), v)
    {
      StoreCell(pos, x, v);
      pos := pos + 1;
      x := x + 1;
    }

    method TabStop()
      requires Valid()
      modifies this`origin, this`origins, this`scrEnd, this`pos, this`x, this`y, vm
      ensures Valid() && InsideOnly() && Screen() == Tab(old(Screen()))
    {
      var step := 8 - x % 8;
      x := x + step;
      pos := pos + step;
      if x > COLUMNS {
        NextLine();
      }
    }

    /** del */
    method Del()
      requires Valid()
      modifies this`pos, this`x, vm
      ensures Valid() && InsideOnly() && Screen() == Rubout(old(Screen()))
    {
      if x > 0 {
        pos := pos - 1;
        x := x - 1;
        StoreCell(pos, x, BLANK);
      }
    }

    /** con_write, state 0 */
    method GroundByte(c: int, erase: int)
      requires Valid() && state == 0
      modifies this`origin, this`origins, this`scrEnd, this`pos, this`x, this`y, this`state, vm
      ensures Valid() && InsideOnly() && Screen() == Ground(old(Screen()), c, erase)
    {
      if c > 31 && c < 127 {
        PrintChar(c);
      } else if c == 27 {
        state := 1;
      } else if c == 10 || c == 11 || c == 12 {
        Lf();
      } else if c == 13 {
        pos := pos - x;
        x := 0;
      } else if c == erase {
        Del();
      } else if c == 8 {
        if x > 0 {
          x := x - 1;
          pos := pos - 1;
        }
      } else if c == 9 {
        TabStop();
      }
    }

    /** con_write, state 1, after state=0 */
    method EscapeByte(c: int)
      requires Valid() && state == 0
      modifies this`origin, this`origins, this`scrEnd, this`pos, this`x, this`y, this`state, this`savedX, this`savedY, vm
      ensures Valid() && InsideOnly() && Screen() == Escape(old(Screen()), c)
    {
      if c == '[' as int {
        state := 2;
      } else if c == 'E' as int {
        GotoXY(0, y + 1);
      } else if c == 'M' as int {
        Ri();
      } else if c == 'D' as int {
        Lf();
      } else if c == 'Z' as int {
        // the answer goes to the read queue, not to the screen
      } else if x == '7' as int {
        SaveCur();
      } else if x == '8' as int {
        RestoreCur();
      }
    }

    /** Positions are given from one: the first parameter becomes a position from zero. */
    method Par0LessOne()
      requires Valid()
      modifies this`par
      ensures Valid() && par[0] == LessOne(old(par)[0]) && Screen() == SetPar(old(Screen()), LessOne(old(par)[0]))
    {
      if par[0] != 0 {
        par := par[0 := par[0] - 1];
      }
      assert par == old(par)[0 := LessOne(old(par)[0])];
    }

    /** A distance of zero, or none given, means one. */
    method Par0OrOne()
      requires Valid()
      modifies this`par
      ensures Valid() && par[0] == OrOne(old(par)[0]) && Screen() == SetPar(old(Screen()), OrOne(old(par)[0]))
    {
      if par[0] == 0 {
        par := par[0 := par[0] + 1];
      }
      assert par == old(par)[0 := OrOne(old(par)[0])];
    }

    /** The cursor commands with one parameter. */
    method Move(c: int)
      requires Valid() && Moves(c)
      modifies this`pos, this`x, this`y, this`par
      ensures Valid() && Screen() == Travel(old(Screen()), c)
    {
      if c == 'G' as int || c == '`' as int {
        Par0LessOne();
        GotoXY(par[0], y);
      } else if c == 'd' as int {
        Par0LessOne();
        GotoXY(x, par[0]);
      } else {
        Par0OrOne();
        if c == 'A' as int {
          GotoXY(x, Wrap(y - par[0]));
        } else if c == 'B' as int || c == 'e' as int {
          GotoXY(x, Wrap(y + par[0]));
        } else if c == 'C' as int || c == 'a' as int {
          GotoXY(Wrap(x + par[0]), y);
        } else if c == 'D' as int {
          GotoXY(Wrap(x - par[0]), y);
        } else if c == 'E' as int {
          GotoXY(0, Wrap(y + par[0]));
        } else {
          GotoXY(0, Wrap(y - par[0]));
        }
      }
    }

    /** H and f */
    method Position()
      requires Valid()
      modifies this`pos, this`x, this`y, this`par
      ensures Valid() && Screen() == Address(old(Screen()))
    {
      if par[0] != 0 {
        par := par[0 := par[0] - 1];
      }
      if par[1] != 0 {
        par := par[1 := par[1] - 1];
      }
      assert par == old(par)[0 := LessOne(old(par)[0])][1 := LessOne(old(par)[1])];
      GotoXY(par[1], par[0]);
    }

    /** r */
    method SetRegion()
      requires Valid()
      modifies this`top, this`bottom, this`par
      ensures Valid() && Screen() == Margins(old(Screen()))
    {
      if par[0] != 0 {
        par := par[0 := par[0] - 1];
      }
      if par[1] == 0 {
        par := par[1 := LINES];
      }
      assert par == old(par)[0 := LessOne(old(par)[0])][1 := if old(par)[1] == 0 then LINES else old(par)[1]];
      if par[0] < par[1] && par[1] <= LINES {
        top := par[0];
        bottom := par[1];
      }
    }

    /** con_write, state 4, after state=0 */
    method CommandByte(c: int)
      requires Valid()
      modifies this`origin, this`origins, this`scrEnd, this`pos, this`x, this`y, this`top, this`bottom, this`par, this`attr, this`savedX, this`savedY, vm
      ensures Valid() && InsideVisited() && Screen() == Command(old(Screen()), c)
    {
      if Moves(c) {
        Move(c);
      } else if c == 'H' as int || c == 'f' as int {
        Position();
      } else if c == 'J' as int {
        CsiJ(par[0]);
      } else if c == 'K' as int {
        CsiK(par[0]);
      } else if c == 'L' as int {
        CsiL(par[0]);
      } else if c == 'M' as int {
        CsiM(par[0]);
      } else if c == 'P' as int {
        CsiP(par[0]);
      } else if c == '@' as int {
        CsiAt(par[0]);
      } else if c == 'm' as int {
        CsiSgr();
      } else if c == 'r' as int {
        SetRegion();
      } else if c == 's' as int {
        SaveCur();
      } else if c == 'u' as int {
        RestoreCur();
      }
    }

    /** con_write, state 3, falling through to state 4 */
    method ParameterByte(c: int)
      requires Valid() && state == 3
      modifies this`origin, this`origins, this`scrEnd, this`pos, this`x, this`y, this`top, this`bottom, this`par, this`npar, this`attr, this`savedX, this`savedY, this`state, vm
      ensures Valid() && InsideVisited() && Screen() == Parameter(old(Screen()), c)
    {
      if c == ';' as int && npar < NPAR - 1 {
        npar := npar + 1;
      } else if c >= '0' as int && c <= '9' as int {
        par := par[npar := Wrap(10 * par[npar] + c - '0' as int)];
      } else {
        state := 0;
        CommandByte(c);
      }
    }

    /** One turn of con_write's loop. */
    method WriteByte(c: int, erase: int)
      requires Valid()
      modifies this, vm
      ensures Valid() && InsideVisited() && Screen() == Feed(old(Screen()), c, erase)
    {
      if state == 0 {
        GroundByte(c, erase);
      } else if state == 1 {
        state := 0;
        EscapeByte(c);
      } else if state == 2 {
        par := Zeros();
        npar := 0;
        state := 3;
        if c != '?' as int {
          ParameterByte(c);
        }
      } else {
        ParameterByte(c);
      }
    }

    ghost function Now(): Shot
      reads this, vm
      requires origin + SIZE <= vm.Length
    {
      Shot(vm[..], origins, Screen())
    }

    /** con_write: for every byte stream the window of video memory is the grid terminal's screen.  The record of the
        states between bytes shows it for each byte, and that each byte writes only cells that are on the screen
        while it is handled. */
    method ConWrite(bytes: seq<int>, erase: int) returns (ghost shots: seq<Shot>)
      requires Valid()
      modifies this, vm
      ensures Valid() && Screen() == FeedAll(old(Screen()), bytes, erase)
      ensures IsRun(shots, bytes, erase) && shots[0] == old(Now()) && shots[|bytes|] == Now()
    {
      shots := [Now()];
      for k := 0 to |bytes|
        invariant Valid() && IsRun(shots, bytes[..k], erase) && shots[0] == old(Now()) && shots[k] == Now()
      {
        HandleByte(bytes[k], erase);
        RunGrows(shots, bytes[..k], erase, Now(), bytes[k], bytes[..k + 1]);
        shots := shots + [Now()];
      }
      assert bytes[..|bytes|] == bytes;
      RunFeeds(shots, bytes, erase);
    }

    method HandleByte(c: int, erase: int)
      requires Valid()
      modifies this, vm
      ensures Valid() && Handled(old(Now()), Now(), c, erase)
    {
      WriteByte(c, erase);
    }

    /** The initial values of the file's variables, and con_init's cursor position.  A position that is not on the
        screen is ignored, and then `pos` keeps its initial value, which is the address 0 and not a cell. */
    constructor (column: nat, line: nat)
      ensures Valid() <==> column < COLUMNS && line < LINES
      ensures fresh(vm) && origins == [origin] && top == 0 && bottom == LINES && state == 0
      ensures Valid() ==> x == column && y == line
      ensures !Valid() ==> pos < 0
    {
      vm := new Cell[CELLS](_ => BLANK);
      origin, scrEnd := 0, SIZE;
      top, bottom := 0, LINES;
      state, npar, par, attr, savedX, savedY := 0, 0, Zeros(), 0x07, 0, 0;
      if column >= COLUMNS || line >= LINES {
        x, y, pos := 0, 0, -0x5c000;
      } else {
        x, y, pos := column, line, 80 * line + column;
      }
      origins := [0];
    }
  }
}
