/** kernel/src/io/tty/tty.c: the terminal over the VGA text memory. The memory is
    held as its 4000 bytes, two per 16-bit cell, low byte first. */
module Terminal {
  import opened Machine
  import opened Bits
  import opened Memory
  import opened Screens
  import opened Layouts
  import opened Format

  const BYTES: int := 4000

  /** The 16-bit reading of a byte memory. */
  function CellsIn(bytes: seq<u8>): (cells: seq<u16>)
    requires |bytes| == BYTES
  {
    seq(CELLS, i requires 0 <= i < CELLS => Join(bytes[2 * i], bytes[2 * i + 1]))
  }

  /** Moving 3840 bytes down by 160 moves whole cells up by one row. */
  lemma ByteMoveIsRowMove(m: seq<u8>)
    requires |m| == BYTES
    ensures CellsIn(MemmoveResult(m, 0, 160, 3840))[..CELLS - COLS] == CellsIn(m)[COLS..]
  {
    var r := MemmoveResult(m, 0, 160, 3840);
    forall i | 0 <= i < CELLS - COLS ensures CellsIn(r)[i] == CellsIn(m)[COLS + i] {
      assert r[2 * i] == m[160..4000][2 * i] && r[2 * i + 1] == m[160..4000][2 * i + 1];
    }
  }

  lemma OneMorePut(s: Screen, all: Text, n: nat)
    requires s.Valid() && n < |all|
    ensures Run(s, Puts(all[..n + 1])) == Step(Run(s, Puts(all[..n])), Put(all[n]))
  {
    PutsPrefix(all, n, Puts(all[..n]), Puts(all[..n + 1]));
  }

  lemma PutsPrefix(all: Text, n: nat, fewer: seq<Cmd>, more: seq<Cmd>)
    requires n < |all| && fewer == Puts(all[..n]) && more == Puts(all[..n + 1])
    ensures |more| == n + 1 && more[..n] == fewer && more[n] == Put(all[n])
  {
  }

  lemma Behind(all: Text, n: nat)
    requires n < |all|
    ensures all[n..][0] == all[n] && all[n..][1..] == all[n + 1..]
  {
  }

  class Tty {
    const vga: array<u8>
    var vgaRow: int
    var vgaCol: int
    var color: u8
    ghost var scrolls: nat

    ghost predicate Valid()
      reads this
    {
      vga.Length == BYTES && 0 <= vgaRow < ROWS && 0 <= vgaCol < COLS
    }

    ghost function Cells(): seq<u16>
      reads vga
      requires vga.Length == BYTES
    {
      CellsIn(vga[..])
    }

    ghost function Shows(): (s: Screen)
      reads this, vga
      requires vga.Length == BYTES
      ensures Valid() ==> s.Valid()
    {
      Screen(Cells(), vgaRow, vgaCol, color, scrolls)
    }

    /** `vga_buffer` at its boot-time values; `memory` is the text memory. */
    constructor (memory: array<u8>)
      requires memory.Length == BYTES
      ensures Valid() && vga == memory && color == 0x0F && scrolls == 0
    {
      vga := memory;
      vgaRow, vgaCol, color, scrolls := 0, 0, 0x0F, 0;
    }

    /** Stores one cell, low byte first. */
    method SetCell(index: nat, v: u16)
      requires vga.Length == BYTES && index < CELLS
      modifies vga
      ensures Cells() == old(Cells())[index := v]
    {
      ghost var was := vga[..];
      var lo: u8, hi: u8 := v % 0x100, v / 0x100;
      vga[2 * index] := lo;
      vga[2 * index + 1] := hi;
      assert forall i :: 0 <= i < BYTES && i / 2 != index ==> vga[i] == was[i];
      assert Cells() == CellsIn(was)[index := v];
    }

    method Clear()
      requires vga.Length == BYTES
      modifies this`vgaRow, this`vgaCol, this`scrolls, vga
      ensures Valid() && Shows() == Cleared(color)
    {
      vgaCol, vgaRow, scrolls := 0, 0, 0;
      var blank := Blank(color);
      for col := 0 to COLS
        modifies vga
        invariant forall i :: 0 <= i < CELLS && i % 80 < col ==> Cells()[i] == blank
      {
        for row := 0 to ROWS
          modifies vga
          invariant forall i :: 0 <= i < CELLS && i % 80 < col ==> Cells()[i] == blank
          invariant forall i :: 0 <= i < CELLS && i % 80 == col && i / 80 < row ==> Cells()[i] == blank
        {
          ghost var was := Cells();
          SetCell(COLS * row + col, blank);
          forall i | 0 <= i < CELLS && i % 80 == col && i / 80 < row + 1 ensures Cells()[i] == blank {
            assert i == 80 * (i / 80) + i % 80;
          }
        }
      }
      assert Cells() == Rep(blank, CELLS);
    }

    method ScrollUp()
      requires vga.Length == BYTES
      modifies this`scrolls, vga
      ensures Cells() == ScrolledCells(old(Cells()), color)
      ensures scrolls == old(scrolls) + 1
    {
      ghost var was := Cells();
      ByteMoveIsRowMove(vga[..]);
      Memmove(vga, 0, 160, 3840);
      assert Cells()[..CELLS - COLS] == was[COLS..];
      scrolls := scrolls + 1;
      for col := 0 to COLS
        modifies vga
        invariant Cells()[..CELLS - COLS] == was[COLS..]
        invariant forall i :: CELLS - COLS <= i < CELLS - COLS + col ==> Cells()[i] == Blank(color)
      {
        SetCell(COLS * (ROWS - 1) + col, Blank(color));
      }
      assert Cells() == was[COLS..] + Rep(Blank(color), COLS);
    }

    method Putc(c: cchar)
      requires Valid()
      modifies this`vgaRow, this`vgaCol, this`scrolls, vga
      ensures Valid() && Shows() == Step(old(Shows()), Put(c))
    {
      if c == '\n' {
        vgaCol := 0;
        vgaRow := vgaRow + 1;
      } else {
        SetCell(COLS * vgaRow + vgaCol, CellOf(color, c));
        vgaCol := vgaCol + 1;
      }
      if vgaCol >= COLS {
        vgaCol := 0;
        vgaRow := vgaRow + 1;
      }
      if vgaRow >= ROWS {
        vgaCol := 0;
        vgaRow := vgaRow - 1;
        ScrollUp();
      }
    }

    method SetForeground(c: u8)
      requires Valid()
      modifies this`color
      ensures Valid() && Shows() == Step(old(Shows()), SetFg(c))
      ensures color / 16 == old(color) / 16 && color % 16 == c % 16
    {
      HighNibble(color, color / 16, 0, color % 16);
      LowNibble(c);
      JoinNibbles(color / 16, c % 16);
      color := Or(And(color, 0xF0), And(c, 0x0F));
    }

    method SetBackground(c: u8)
      requires Valid()
      modifies this`color
      ensures Valid() && Shows() == Step(old(Shows()), SetBg(c))
      ensures color / 16 == c % 16 && color % 16 == old(color) % 16
    {
      HighNibble(c * 16, c % 16, c / 16, 0);
      LowNibble(color);
      JoinNibbles(c % 16, color % 16);
      color := Or(And(c * 16, 0xF0), And(color, 0x0F));
    }

    /** `tty_puts` on a string ending at its first NUL. */
    method Putstr(s: Text)
      requires Valid()
      modifies this`vgaRow, this`vgaCol, this`scrolls, vga
      ensures Valid() && Shows() == Run(old(Shows()), Puts(UpToNul(s)))
    {
      var rest := s;
      ghost var before, all, n := Shows(), UpToNul(s), 0;
      while rest != [] && rest[0] != NUL
        invariant Valid() && 0 <= n <= |all| && UpToNul(rest) == all[n..]
        invariant Shows() == Run(before, Puts(all[..n]))
        decreases |rest|
      {
        OneMorePut(before, all, n);
        Behind(all, n);
        Putc(rest[0]);
        rest, n := rest[1..], n + 1;
      }
      assert all[..n] == all;
    }
  }
}
