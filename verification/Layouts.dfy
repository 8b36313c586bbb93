/** What text looks like on the terminal: split at newlines, then break a row as
    soon as it holds 80 characters. */
module Layouts {
  import opened Machine
  import opened Screens

  function Puts(s: Text): seq<Cmd> {
    seq(|s|, i requires 0 <= i < |s| => Put(s[i]))
  }

  /** The index of the first newline, or the length when there is none. */
  function LineEnd(s: Text): (k: nat)
    ensures k <= |s| && (k < |s| ==> s[k] == '\n') && forall i :: 0 <= i < k ==> s[i] != '\n'
  {
    if s == [] || s[0] == '\n' then 0
    else
      1 + LineEnd(s[1..])
  }

  /** The rows of one line; a line of exactly 80 characters leaves an empty row. */
  function Chunks(line: Text): (rows: seq<Text>)
    ensures |rows| > 0 && |rows[|rows| - 1]| < COLS
  {
    if |line| < COLS then [line] else [line[..COLS]] + Chunks(line[COLS..])
  }

  function Layout(s: Text): (rows: seq<Text>)
    ensures |rows| > 0 && |rows[|rows| - 1]| < COLS
  {
    var k := LineEnd(s);
    if k == |s| then Chunks(s) else Chunks(s[..k]) + Layout(s[k + 1..])
  }

  /** Adding one character to laid-out rows. */
  function Extend(rows: seq<Text>, c: cchar): seq<Text>
    requires |rows| > 0
  {
    if c == '\n' then rows + [[]]
    else
      var n := |rows| - 1;
      rows[n := rows[n] + [c]] + (if |rows[n]| + 1 == COLS then [[]] else [])
  }

  lemma ExtendLast(first: seq<Text>, rest: seq<Text>, c: cchar)
    requires |rest| > 0
    ensures Extend(first + rest, c) == first + Extend(rest, c)
  {
  }

  lemma {:induction false} ChunksSnoc(line: Text, c: cchar)
    requires c != '\n'
    ensures Chunks(line + [c]) == Extend(Chunks(line), c)
    decreases |line|
  {
    var longer := line + [c];
    if |line| + 1 < COLS {
    } else if |line| < COLS {
      assert longer[..COLS] == longer && longer[COLS..] == [];
      assert Chunks([]) == [[]];
    } else {
      ChunksSnoc(line[COLS..], c);
      assert longer[COLS..] == line[COLS..] + [c];
      assert longer[..COLS] == line[..COLS];
      ExtendLast([line[..COLS]], Chunks(line[COLS..]), c);
    }
  }

  lemma {:induction false} LineEndSnoc(s: Text, c: cchar)
    ensures LineEnd(s + [c]) == if LineEnd(s) < |s| || c == '\n' then LineEnd(s) else |s| + 1
  {
    if s == [] {
      assert (s + [c])[1..] == [];
    } else if s[0] != '\n' {
      LineEndSnoc(s[1..], c);
      assert (s + [c])[1..] == s[1..] + [c];
    }
  }

  lemma {:induction false} LayoutSnoc(s: Text, c: cchar)
    ensures Layout(s + [c]) == Extend(Layout(s), c)
    decreases |s|
  {
    var k := LineEnd(s);
    LineEndSnoc(s, c);
    if k < |s| {
      LayoutSnoc(s[k + 1..], c);
      assert (s + [c])[..k] == s[..k];
      assert (s + [c])[k + 1..] == s[k + 1..] + [c];
      ExtendLast(Chunks(s[..k]), Layout(s[k + 1..]), c);
    } else if c == '\n' {
      assert (s + [c])[..k] == s;
      assert (s + [c])[k + 1..] == [];
      assert Layout([]) == [[]];
    } else {
      ChunksSnoc(s, c);
    }
  }

  /** One row of text in one colour, blank to the right. */
  function RowCells(color: u8, line: Text): Row {
    seq(COLS, i requires 0 <= i < COLS => if i < |line| then CellOf(color, line[i]) else Blank(color))
  }

  function RowAt(color: u8, lines: seq<Text>, i: nat): Row {
    if i < |lines| then RowCells(color, lines[i]) else BlankRow(color)
  }

  /** Rows of text, followed by blank rows up to 25 when there are fewer. */
  function RowsOf(color: u8, lines: seq<Text>): (rows: seq<Row>)
    ensures |rows| == Max(ROWS, |lines|)
  {
    seq(Max(ROWS, |lines|), i requires 0 <= i => RowAt(color, lines, i))
  }

  function LogOf(color: u8, lines: seq<Text>): (l: Log)
    requires |lines| > 0 && |lines[|lines| - 1]| < COLS
    ensures l.Valid()
  {
    Log(RowsOf(color, lines), |lines| - 1, |lines[|lines| - 1]|, color)
  }

  lemma EmptyLayout(color: u8)
    ensures LogOf(color, Layout([])) == EmptyLog(color)
  {
    assert RowCells(color, []) == BlankRow(color);
    assert RowsOf(color, [[]]) == Rep(BlankRow(color), ROWS);
  }

  lemma NewRow(color: u8, lines: seq<Text>)
    requires |lines| > 0
    ensures RowsOf(color, lines + [[]])
         == if |lines| == |RowsOf(color, lines)| then RowsOf(color, lines) + [BlankRow(color)] else RowsOf(color, lines)
  {
    assert RowCells(color, []) == BlankRow(color);
  }

  lemma WrittenRow(color: u8, lines: seq<Text>, c: cchar)
    requires |lines| > 0 && |lines[|lines| - 1]| < COLS
    ensures RowsOf(color, lines[|lines| - 1 := lines[|lines| - 1] + [c]])
         == var n, rows := |lines| - 1, RowsOf(color, lines); rows[n := rows[n][|lines[n]| := CellOf(color, c)]]
  {
    var n := |lines| - 1;
    assert RowCells(color, lines[n] + [c]) == RowCells(color, lines[n])[|lines[n]| := CellOf(color, c)];
  }

  lemma ExtendIsStep(color: u8, lines: seq<Text>, c: cchar)
    requires |lines| > 0 && |lines[|lines| - 1]| < COLS
    ensures |Extend(lines, c)[|Extend(lines, c)| - 1]| < COLS
    ensures LogOf(color, Extend(lines, c)) == LogStep(LogOf(color, lines), Put(c))
  {
    if c == '\n' {
      NewRow(color, lines);
    } else {
      WrittenRow(color, lines, c);
      var n := |lines| - 1;
      NewRow(color, lines[n := lines[n] + [c]]);
    }
  }

  /** The log of a text written in one colour holds its layout. */
  lemma {:induction false} LogIsLayout(color: u8, s: Text)
    ensures LogRun(EmptyLog(color), Puts(s)) == LogOf(color, Layout(s))
  {
    if s == [] {
      EmptyLayout(color);
    } else {
      var n := |s| - 1;
      LogIsLayout(color, s[..n]);
      assert Puts(s)[..n] == Puts(s[..n]);
      assert s == s[..n] + [s[n]];
      LayoutSnoc(s[..n], s[n]);
      ExtendIsStep(color, Layout(s[..n]), s[n]);
    }
  }

  /** The screen whose last rows are the given rows of text. */
  function Shown(color: u8, lines: seq<Text>): Screen
    requires |lines| > 0 && |lines[|lines| - 1]| < COLS
  {
    Screen(LastRows(RowsOf(color, lines)), Min(|lines| - 1, ROWS - 1), |lines[|lines| - 1]|, color,
           Max(0, |lines| - ROWS))
  }

  /** Writing any text on a cleared screen shows the last 25 rows of its layout,
      the cursor behind its last character. */
  lemma ScreenShowsLayout(color: u8, s: Text)
    ensures Run(Cleared(color), Puts(s)) == Shown(color, Layout(s))
  {
    ScreenRefinesLog(color, Puts(s));
    LogIsLayout(color, s);
  }

  /** The eager break: 80 characters and a newline leave an empty row between. */
  lemma FullLineLeavesEmptyRow(line: Text, rest: Text)
    requires |line| == COLS && '\n' !in line
    ensures Layout(line + ['\n'] + rest) == [line, []] + Layout(rest)
  {
    var s := line + ['\n'] + rest;
    var k := LineEnd(s);
    assert s[COLS] == '\n';
    assert forall i :: 0 <= i < COLS ==> s[i] == line[i];
    assert s[..k] == line && s[k + 1..] == rest;
    assert line[..COLS] == line && Chunks(line[COLS..]) == [[]];
  }
}
