/** kernel/src/io/tty/tty.c as two pure machines: the 25 x 80 screen that scrolls,
    and an unbounded log of rows that never drops one. */
module Screens {
  import opened Machine
  import opened Bits

  const COLS: int := 80
  const ROWS: int := 25
  const CELLS: int := 2000

  datatype Cmd = Put(c: cchar) | SetFg(n: u8) | SetBg(n: u8)

  /** The cell of a character: the colour shifted into the high byte, or-ed in 32 bits
      with the character, which is a signed number, and cut to 16 bits. */
  function CellOf(color: u8, c: cchar): u16 {
    Or(color * 0x100, ToU32(ToInt8(c as int))) % 0x1_0000
  }

  function Blank(color: u8): u16 { CellOf(color, ' ') }

  function WithFg(color: u8, n: u8): u8 { color - color % 16 + n % 16 }

  function WithBg(color: u8, n: u8): u8 { n % 16 * 16 + color % 16 }

  // ---------------------------------------------------------------- the screen

  /** `scrolls` counts the calls of `tty_scroll_up`. */
  datatype Screen = Screen(cells: seq<u16>, row: int, col: int, color: u8, scrolls: nat)
  {
    predicate Valid() {
      |cells| == CELLS && 0 <= row < ROWS && 0 <= col < COLS
    }
  }

  function Cleared(color: u8): Screen {
    Screen(Rep(Blank(color), CELLS), 0, 0, color, 0)
  }

  function ScrolledCells(cells: seq<u16>, color: u8): seq<u16>
    requires |cells| == CELLS
  {
    cells[COLS..] + Rep(Blank(color), COLS)
  }

  /** The two checks at the end of `tty_putc`. */
  function Settle(s: Screen): Screen
    requires |s.cells| == CELLS
  {
    var w := if s.col >= COLS then s.(col := 0, row := s.row + 1) else s;
    if w.row >= ROWS then
      w.(cells := ScrolledCells(w.cells, w.color), col := 0, row := w.row - 1, scrolls := w.scrolls + 1)
    else w
  }

  function Step(s: Screen, cmd: Cmd): (r: Screen)
    requires s.Valid()
    ensures r.Valid()
  {
    match cmd
    case Put(c) =>
      if c == '\n' then Settle(s.(col := 0, row := s.row + 1))
      else Settle(s.(cells := s.cells[COLS * s.row + s.col := CellOf(s.color, c)], col := s.col + 1))
    case SetFg(n) => s.(color := WithFg(s.color, n))
    case SetBg(n) => s.(color := WithBg(s.color, n))
  }

  function Run(s: Screen, cmds: seq<Cmd>): (r: Screen)
    requires s.Valid()
    ensures r.Valid()
  {
    if cmds == [] then s else Step(Run(s, cmds[..|cmds| - 1]), cmds[|cmds| - 1])
  }

  lemma {:induction false} RunConcat(s: Screen, a: seq<Cmd>, b: seq<Cmd>)
    requires s.Valid()
    ensures Run(s, a + b) == Run(Run(s, a), b)
  {
    if b == [] {
      assert a + b == a;
    } else {
      var n := |b| - 1;
      assert (a + b)[..|a + b| - 1] == a + b[..n];
      RunConcat(s, a, b[..n]);
    }
  }

  // ------------------------------------------------------------------- the log

  type Row = r: seq<u16> | |r| == 80 witness Rep(0, 80)

  function BlankRow(color: u8): Row { Rep(Blank(color), COLS) }

  datatype Log = Log(rows: seq<Row>, row: int, col: int, color: u8)
  {
    /** The log has 25 rows to begin with and then just enough for the cursor. */
    predicate Valid() {
      0 <= row && 0 <= col < COLS && |rows| == Max(ROWS, row + 1)
    }
  }

  function EmptyLog(color: u8): (l: Log)
    ensures l.Valid()
  {
    Log(Rep(BlankRow(color), ROWS), 0, 0, color)
  }

  /** Move the cursor, adding a blank row when it leaves the last one. */
  function MoveTo(l: Log, row: int, col: int): Log {
    Log(if row == |l.rows| then l.rows + [BlankRow(l.color)] else l.rows, row, col, l.color)
  }

  function LogStep(l: Log, cmd: Cmd): (r: Log)
    requires l.Valid()
    ensures r.Valid()
  {
    match cmd
    case Put(c) =>
      if c == '\n' then MoveTo(l, l.row + 1, 0)
      else
        var written := l.(rows := l.rows[l.row := l.rows[l.row][l.col := CellOf(l.color, c)]]);
        if l.col + 1 == COLS then MoveTo(written, l.row + 1, 0) else written.(col := l.col + 1)
    case SetFg(n) => l.(color := WithFg(l.color, n))
    case SetBg(n) => l.(color := WithBg(l.color, n))
  }

  function LogRun(l: Log, cmds: seq<Cmd>): (r: Log)
    requires l.Valid()
    ensures r.Valid()
  {
    if cmds == [] then l else LogStep(LogRun(l, cmds[..|cmds| - 1]), cmds[|cmds| - 1])
  }

  // ---------------------------------------------------------------- refinement

  /** The cells of the last 25 rows. */
  function LastRows(rows: seq<Row>): seq<u16>
    requires |rows| >= ROWS
  {
    seq(CELLS, i requires 0 <= i < CELLS => rows[|rows| - ROWS + i / 80][i % 80])
  }

  /** The screen that shows the end of a log. */
  function View(l: Log): (s: Screen)
    requires l.Valid()
    ensures s.Valid()
  {
    Screen(LastRows(l.rows), Min(l.row, ROWS - 1), l.col, l.color, Max(0, l.row - (ROWS - 1)))
  }

  lemma EmptyView(color: u8)
    ensures View(EmptyLog(color)) == Cleared(color)
  {
    assert LastRows(EmptyLog(color).rows) == Rep(Blank(color), CELLS);
  }

  lemma WriteView(rows: seq<Row>, k: nat, col: nat, v: u16)
    requires |rows| >= ROWS && |rows| - ROWS <= k < |rows| && col < COLS
    ensures LastRows(rows[k := rows[k][col := v]])
         == LastRows(rows)[COLS * (k - (|rows| - ROWS)) + col := v]
  {
    var top := |rows| - ROWS;
    var a := LastRows(rows[k := rows[k][col := v]]);
    var b := LastRows(rows)[COLS * (k - top) + col := v];
    forall i | 0 <= i < CELLS ensures a[i] == b[i] {
      assert i == 80 * (i / 80) + i % 80;
    }
  }

  lemma ScrollView(rows: seq<Row>, color: u8)
    requires |rows| >= ROWS
    ensures LastRows(rows + [BlankRow(color)]) == ScrolledCells(LastRows(rows), color)
  {
    var a := LastRows(rows + [BlankRow(color)]);
    var b := ScrolledCells(LastRows(rows), color);
    forall i | 0 <= i < CELLS ensures a[i] == b[i] {
      if i < CELLS - COLS {
        assert (i + 80) / 80 == i / 80 + 1 && (i + 80) % 80 == i % 80;
      }
    }
  }

  /** Moving the log's cursor to the start of the next row is what the screen does. */
  lemma NextRowView(l: Log, s: Screen)
    requires 0 <= l.row && |l.rows| == Max(ROWS, l.row + 1)
    requires s == Screen(LastRows(l.rows), Min(l.row, ROWS - 1) + 1, 0, l.color, Max(0, l.row - (ROWS - 1)))
    ensures View(MoveTo(l, l.row + 1, 0)) == Settle(s)
  {
    if l.row + 1 == |l.rows| {
      ScrollView(l.rows, l.color);
    }
  }

  lemma StepView(l: Log, cmd: Cmd)
    requires l.Valid()
    ensures Step(View(l), cmd) == View(LogStep(l, cmd))
  {
    if cmd.Put? {
      var s := View(l);
      if cmd.c == '\n' {
        NextRowView(l, s.(col := 0, row := s.row + 1));
      } else {
        var v := CellOf(l.color, cmd.c);
        WriteView(l.rows, l.row, l.col, v);
        var written := l.(rows := l.rows[l.row := l.rows[l.row][l.col := v]]);
        var cells := s.cells[COLS * s.row + s.col := v];
        assert cells == LastRows(written.rows);
        if l.col + 1 == COLS {
          NextRowView(written, s.(cells := cells, col := 0, row := s.row + 1));
        }
      }
    }
  }

  /** After every run of terminal commands the 2000 cells are the last 25 rows of
      the log, the cursor row is the log's row cut off at 24, and the screen has
      scrolled once for each row beyond that. */
  lemma {:induction false} ScreenRefinesLog(color: u8, cmds: seq<Cmd>)
    ensures Run(Cleared(color), cmds) == View(LogRun(EmptyLog(color), cmds))
  {
    if cmds == [] {
      EmptyView(color);
    } else {
      var n := |cmds| - 1;
      ScreenRefinesLog(color, cmds[..n]);
      StepView(LogRun(EmptyLog(color), cmds[..n]), cmds[n]);
    }
  }

  /** Rows above the cursor are never touched again: a log only changes at the
      cursor row or by growing. */
  lemma {:induction false} LogKeepsRows(l: Log, cmds: seq<Cmd>)
    requires l.Valid()
    ensures LogRun(l, cmds).row >= l.row
    ensures |LogRun(l, cmds).rows| >= |l.rows|
    ensures LogRun(l, cmds).rows[..l.row] == l.rows[..l.row]
  {
    if cmds != [] {
      LogKeepsRows(l, cmds[..|cmds| - 1]);
    }
  }

  /** A character with its top bit set is sign-extended and sets the whole colour. */
  lemma CellIs(color: u8, c: cchar)
    ensures CellOf(color, c) == (if c as int < 0x80 then color else 0xFF) * 0x100 + c as int
  {
    SignExtended(c as int);
    if c as int < 0x80 {
      ShownColor(color, color * 0x100, c as int, c as int);
    } else {
      HiddenColor(color, color * 0x100, ToU32(ToInt8(c as int)), c as int);
    }
  }

  lemma ShownColor(color: u8, a: nat, b: nat, x: u8)
    requires a == color * 0x100 && b == x
    ensures Or(a, b) % 0x1_0000 == color * 0x100 + x
  {
    Zeros(color);
    LowBytes(a, b, color, 0, 0, x);
  }

  lemma HiddenColor(color: u8, a: nat, b: nat, x: u8)
    requires a == color * 0x100 && b == 0xFFFF * 0x1_0000 + (0xFF * 0x100 + x)
    ensures Or(a, b) % 0x1_0000 == 0xFF * 0x100 + x
  {
    Powers();
    Ones(color, 8, 0x100);
    LowBytes(a, b, color, 0xFFFF, 0xFF, x);
  }

  lemma SignExtended(x: u8)
    ensures ToU32(ToInt8(x)) == if x < 0x80 then x else 0xFFFF * 0x1_0000 + (0xFF * 0x100 + x)
  {
  }

  lemma Bytes(cell: int, high: u8, low: u8)
    requires cell == high * 0x100 + low
    ensures cell / 0x100 == high && cell % 0x100 == low
  {
  }

  /** A character shows in the current colour exactly when it is 7-bit, unless the
      colour already is white on white. */
  lemma ColorShownIff(color: u8, c: cchar)
    ensures CellOf(color, c) / 0x100 == color <==> (c as int < 0x80 || color == 0xFF)
    ensures CellOf(color, c) % 0x100 == c as int
  {
    CellIs(color, c);
    Bytes(CellOf(color, c), if c as int < 0x80 then color else 0xFF, c as int);
  }
}
