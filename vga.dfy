/** The VGA text-mode display surface: an 80 x 25 grid of cells, each cell two
    bytes [character][attribute], stored row-major in one 4000-byte region
    (kernel.c:1-4). This module fixes the layout, the views of a cell, and the
    one-row scroll, both as a value (ScrolledGrid) and as the in-place nested
    loops of the source (ScrollUp). */
module VgaText {

  /** A byte of video memory or of the input string, 0..255 (C `char` is passed
      through unmodified, so its signedness plays no part). */
  type Byte = b: int | 0 <= b < 256

  const WIDTH: nat := 80
  const HEIGHT: nat := 25
  /** The row a newline past the bottom is clamped to. */
  const LAST_ROW: nat := HEIGHT - 1
  /** White on black, the attribute of every cell written. */
  const ATTR: Byte := 0x0F
  const SPACE: Byte := 0x20
  const NEWLINE: Byte := 0x0A
  /** Bytes in one row, and in the whole surface. */
  const ROW_BYTES: nat := 2 * WIDTH
  const SIZE: nat := 2 * WIDTH * HEIGHT

  /** A snapshot of the whole display surface. */
  type Grid = g: seq<Byte> | |g| == SIZE witness seq(SIZE, _ => 0)

  /** Byte offset of the character byte of cell (row, col); its attribute byte
      follows it. Both bytes lie inside the surface. */
  function Offset(row: nat, col: nat): (off: nat)
    requires row < HEIGHT && col < WIDTH
    ensures off % 2 == 0 && off + 1 < SIZE
    ensures off == row * ROW_BYTES + 2 * col
  {
    (row * WIDTH + col) * 2
  }

  /** Distinct cells occupy disjoint byte pairs. */
  lemma OffsetInjective(r1: nat, c1: nat, r2: nat, c2: nat)
    requires r1 < HEIGHT && c1 < WIDTH && r2 < HEIGHT && c2 < WIDTH
    requires (r1, c1) != (r2, c2)
    ensures Offset(r1, c1) != Offset(r2, c2)
    ensures Offset(r1, c1) + 1 != Offset(r2, c2)
  {
    if r1 < r2 {
      assert Offset(r1, c1) < (r1 + 1) * ROW_BYTES <= Offset(r2, c2);
    } else if r2 < r1 {
      assert Offset(r2, c2) + 1 < (r2 + 1) * ROW_BYTES <= Offset(r1, c1);
    }
  }

  function CharAt(g: Grid, row: nat, col: nat): Byte
    requires row < HEIGHT && col < WIDTH
  {
    g[Offset(row, col)]
  }

  function AttrAt(g: Grid, row: nat, col: nat): Byte
    requires row < HEIGHT && col < WIDTH
  {
    g[Offset(row, col) + 1]
  }

  /** A cell holding a space on the fixed attribute. */
  predicate IsBlankCell(g: Grid, row: nat, col: nat)
    requires row < HEIGHT && col < WIDTH
  {
    CharAt(g, row, col) == SPACE && AttrAt(g, row, col) == ATTR
  }

  predicate IsBlankScreen(g: Grid)
  {
    forall r, c :: 0 <= r < HEIGHT && 0 <= c < WIDTH ==> IsBlankCell(g, r, c)
  }

  /** One blank row: spaces, each followed by the fixed attribute. */
  function BlankRow(): (row: seq<Byte>)
    ensures |row| == ROW_BYTES
  {
    seq(ROW_BYTES, k => if k % 2 == 0 then SPACE else ATTR)
  }

  /** The surface after a one-row scroll, stated as a snapshot shift: rows
      1..HEIGHT-1 move up by one row and a blank row is appended. */
  function ScrolledGrid(g: Grid): (r: Grid)
    ensures forall k :: 0 <= k < SIZE - ROW_BYTES ==> r[k] == g[k + ROW_BYTES]
    ensures forall k :: SIZE - ROW_BYTES <= k < SIZE && k % 2 == 0 ==> r[k] == SPACE
    ensures forall k :: SIZE - ROW_BYTES <= k < SIZE && k % 2 == 1 ==> r[k] == ATTR
  {
    g[ROW_BYTES..] + BlankRow()
  }

  /** Scrolling moves every cell (both bytes) of rows 1..24 up by one row. */
  lemma ScrollShiftsRows(g: Grid, row: nat, col: nat)
    requires row < HEIGHT - 1 && col < WIDTH
    ensures CharAt(ScrolledGrid(g), row, col) == CharAt(g, row + 1, col)
    ensures AttrAt(ScrolledGrid(g), row, col) == AttrAt(g, row + 1, col)
  {
    assert Offset(row + 1, col) == Offset(row, col) + ROW_BYTES;
  }

  /** Scrolling leaves the bottom row blank. */
  lemma ScrollBlanksLastRow(g: Grid, col: nat)
    requires col < WIDTH
    ensures IsBlankCell(ScrolledGrid(g), HEIGHT - 1, col)
  {
    var off := Offset(HEIGHT - 1, col);
    assert off - (SIZE - ROW_BYTES) == 2 * col;
    assert ScrolledGrid(g)[off] == BlankRow()[2 * col];
    assert ScrolledGrid(g)[off + 1] == BlankRow()[2 * col + 1];
  }

  /** The scrolled screen is blank exactly when rows 1..24 were blank; in
      particular a blank screen scrolls to a blank screen. */
  lemma ScrollBlankIff(g: Grid)
    ensures IsBlankScreen(ScrolledGrid(g)) <==>
      (forall r, c :: 1 <= r < HEIGHT && 0 <= c < WIDTH ==> IsBlankCell(g, r, c))
  {
    var h := ScrolledGrid(g);
    forall r, c | 1 <= r < HEIGHT && 0 <= c < WIDTH
      ensures IsBlankCell(h, r - 1, c) == IsBlankCell(g, r, c)
    {
      ScrollShiftsRows(g, r - 1, c);
    }
    if IsBlankScreen(h) {
      forall r, c | 1 <= r < HEIGHT && 0 <= c < WIDTH
        ensures IsBlankCell(g, r, c)
      {
        assert IsBlankCell(h, r - 1, c);
      }
    }
    if forall r, c :: 1 <= r < HEIGHT && 0 <= c < WIDTH ==> IsBlankCell(g, r, c) {
      forall r, c | 0 <= r < HEIGHT && 0 <= c < WIDTH
        ensures IsBlankCell(h, r, c)
      {
        if r < HEIGHT - 1 {
          assert IsBlankCell(g, r + 1, c);
        } else {
          ScrollBlanksLastRow(g, c);
        }
      }
    }
  }

  lemma ScrollKeepsBlankScreen(g: Grid)
    requires IsBlankScreen(g)
    ensures IsBlankScreen(ScrolledGrid(g))
  {
    ScrollBlankIff(g);
  }

  /** The scroll of kernel.c, in place: for each row i from 0 to 23, copy both
      bytes of every cell of row i+1 into row i, left to right; then clear the
      last row. Row i+1 is read before it is overwritten, so the result is the
      snapshot shift. */
  method ScrollUp(vm: array<Byte>)
    requires vm.Length == SIZE
    modifies vm
    ensures vm[..] == ScrolledGrid(old(vm[..]))
  {
    ghost var g := vm[..];
    for i := 0 to HEIGHT - 1
      invariant forall k :: 0 <= k < i * ROW_BYTES ==> vm[k] == g[k + ROW_BYTES]
      invariant forall k :: i * ROW_BYTES <= k < SIZE ==> vm[k] == g[k]
    {
      CopyRowUp(vm, i);
    }
    assert vm[..SIZE - ROW_BYTES] == g[ROW_BYTES..];
    ClearLastRow(vm);
  }

  /** Inner loop of the scroll: row `i` receives the cells of row `i + 1`; no
      other byte changes. */
  method CopyRowUp(vm: array<Byte>, i: nat)
    requires vm.Length == SIZE && i < HEIGHT - 1
    modifies vm
    ensures forall k :: 0 <= k < SIZE && !(i * ROW_BYTES <= k < (i + 1) * ROW_BYTES) ==> vm[k] == old(vm[k])
    ensures forall k :: i * ROW_BYTES <= k < (i + 1) * ROW_BYTES ==> vm[k] == old(vm[k + ROW_BYTES])
  {
    ghost var base := i * ROW_BYTES;
    for j := 0 to WIDTH
      invariant forall k :: 0 <= k < SIZE && !(base <= k < base + 2 * j) ==> vm[k] == old(vm[k])
      invariant forall k :: base <= k < base + 2 * j ==> vm[k] == old(vm[k + ROW_BYTES])
    {
      assert (i * WIDTH + j) * 2 == base + 2 * j;
      assert ((i + 1) * WIDTH + j) * 2 == base + 2 * j + ROW_BYTES;
      vm[(i * WIDTH + j) * 2] := vm[((i + 1) * WIDTH + j) * 2];
      vm[(i * WIDTH + j) * 2 + 1] := vm[((i + 1) * WIDTH + j) * 2 + 1];
    }
  }

  /** Last loop of the scroll: every cell of row 24 becomes a blank. */
  method ClearLastRow(vm: array<Byte>)
    requires vm.Length == SIZE
    modifies vm
    ensures vm[..] == old(vm[..SIZE - ROW_BYTES]) + BlankRow()
  {
    ghost var base := SIZE - ROW_BYTES;
    for j := 0 to WIDTH
      invariant forall k :: 0 <= k < base ==> vm[k] == old(vm[k])
      invariant forall k :: base <= k < base + 2 * j ==> vm[k] == BlankRow()[k - base]
    {
      vm[((HEIGHT - 1) * WIDTH + j) * 2] := SPACE;
      vm[((HEIGHT - 1) * WIDTH + j) * 2 + 1] := ATTR;
    }
    assert vm[..] == old(vm[..SIZE - ROW_BYTES]) + BlankRow();
  }
}
