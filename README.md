# print_string of MyOS, modelled in Dafny

MyOS prints text by writing straight into the VGA text-mode buffer: 80 columns
by 25 rows, each cell two bytes `[character][attribute]`, stored row-major. This
project models `print_string` (kernel.c:6-52) and its one call in `kernelmain`
(kernel.c:56).

`print_string` walks a NUL-terminated string with a cursor `(row, col)`. The
cursor is a pair of locals that start at `(0, 0)` on every call.

- A newline sets the column to 0 and moves to the next row. Past the last row,
  the row is clamped to 24 and the screen scrolls up one row in place: nested
  loops copy each row onto the one above, then a loop blanks the last row with
  spaces on attribute `0x0F`.
- Any other byte is stored in the cursor's cell with attribute `0x0F`. The
  column then advances, wrapping to column 0 of the next row at column 80.

The project has four modules:

- `VgaText` (vga.dfy) holds the buffer layout and the cell offsets. It gives the
  scroll twice: as a value (`ScrolledGrid`) and as the in-place loops of the
  source (`ScrollUp`, `CopyRowUp`, `ClearLastRow`). The loops are proved equal
  to the value.
- `Console` (console.dfy) defines `State`, a snapshot of the buffer with the
  cursor, and the loop as functions over it: `Step` for one byte, `Run` for
  the first n bytes, `Print` for a whole call. `PrintString` is the imperative loop over an `array`, and it is proved
  to produce exactly what `Print` describes.
- `ConsoleProperties` (console_properties.dfy) proves what a call promises: the
  effect of one byte, the role of the terminator, runs split in two, whole
  lines of text, scrolling and wrapping in whole calls, and the result of the
  `kernelmain` call.
- `WrapFix` (wrapfix.dfy) covers the finding below. It exhibits the out-of-bounds
  write and proves the corrected loop.

The column wrap (kernel.c:42-46) does not check the bottom of the screen. So the
row can become 25, and the next non-newline byte would be stored past the end
of the buffer. kernel.c carries on writing past the end; the model does not
follow it there and does not repair it silently either. A run ends with the
outcome `WriteOutOfBounds(state, index)` at the byte whose write would leave
the buffer, and `PrintString` stops there. A newline on row 25 is still handled
as the source does: the row goes to 26, is clamped to 24, and the screen
scrolls once. That is why the loop keeps the invariant `row <= 25`, not
`row <= 24`.

## Model

| member | source | states |
|---|---|---|
| VgaText.Offset | kernel.c:39-40 | The cell offset `(row*80+col)*2` is even, equals `row*160 + 2*col`, and both bytes of the cell lie inside the 4000-byte buffer whenever row < 25 and col < 80 |
| VgaText.OffsetInjective | kernel.c:39-40 | Distinct cells occupy disjoint byte pairs, so a write to one cell never touches another |
| VgaText.ScrolledGrid | kernel.c:21-34 | A scroll moves every byte of rows 1..24 up by one row (160 bytes) and leaves the last row as spaces on attribute 0x0F |
| VgaText.ScrollShiftsRows | kernel.c:21-28 | After a scroll, both bytes of every cell of rows 0..23 equal those of the same column one row lower before it |
| VgaText.ScrollBlanksLastRow | kernel.c:30-34 | After a scroll, every cell of row 24 is a space on attribute 0x0F |
| VgaText.ScrollBlankIff | kernel.c:21-34 | The scrolled screen is all blank if and only if rows 1..24 were all blank |
| VgaText.ScrollKeepsBlankScreen | kernel.c:21-34 | Scrolling an all-blank screen gives an all-blank screen |
| VgaText.ScrollUp | kernel.c:21-34 | The in-place ascending copy followed by the last-row clear leaves the buffer equal to the snapshot shift `ScrolledGrid` of its old contents |
| VgaText.CopyRowUp | kernel.c:23-27 | The inner copy loop makes row i equal to the old row i+1 and changes no byte outside row i |
| VgaText.ClearLastRow | kernel.c:30-34 | The clearing loop keeps rows 0..23 and replaces row 24 with a blank row |
| Console.StrLen | kernel.c:11 | `while (*str)` reads up to the first zero byte: the result indexes a zero and no earlier byte is zero |
| Console.NewLine | kernel.c:13-19 | A newline puts the cursor at column 0 of a row on the screen, at most one row lower |
| Console.Step | kernel.c:13-46 | One byte fails exactly when it is not a newline and the row is 25; otherwise the next cursor has col < 80 and row <= 25 |
| Console.Run | kernel.c:11-49 | Every state the loop reaches has col < 80 and row <= 25 |
| Console.Print | kernel.c:6-11 | A call ends with col < 80 and row <= 25; on a string whose first byte is the terminator it writes nothing and leaves the cursor at (0, 0) |
| Console.RunStops | kernel.c:39-46 | The model's failure is final: once a run reports the write past the buffer, every longer run reports the same state and index (kernel.c itself goes on; see Left out) |
| Console.PrintString | kernel.c:6-49 | The in-place loop returns the outcome `Print` gives for the old buffer and string, and leaves the buffer equal to that outcome's surface |
| Console.PutChar | kernel.c:39-40 | The two writes store c and 0x0F in the two bytes of cell (row, col) and leave every other byte as it was, as `PutCell` describes |
| ConsoleProperties.PutCellFrame | kernel.c:39-40 | Writing a cell stores c and 0x0F in that cell's two bytes and no other byte changes |
| ConsoleProperties.StepPutsChar | kernel.c:39-46 | A non-newline byte stores c and 0x0F in the cursor's cell, changes no other byte, and advances the column, wrapping to column 0 of the next row at 80 |
| ConsoleProperties.StepNewLine | kernel.c:13-19 | A newline sets col to 0 and leaves row <= 24; without a scroll the buffer is unchanged and the row is one more; past the bottom the row is 24 and exactly one scroll happens |
| ConsoleProperties.RunFailsOnlyBelowScreen | kernel.c:39-46 | A run that fails stops at a byte within the run that is not a newline, on row 25 |
| ConsoleProperties.StrLenAt | kernel.c:11 | A zero at n with no zero before it is where the loop stops |
| ConsoleProperties.StrLenAppend | kernel.c:11 | Bytes appended after the terminator do not move it |
| ConsoleProperties.RunSamePrefix | kernel.c:11-48 | The run over the first n bytes depends only on those bytes |
| ConsoleProperties.PrintIgnoresTail | kernel.c:9-11 | A call on s + t behaves as a call on s when s holds a zero: nothing after the terminator is read or written, and each call starts at (0, 0) |
| ConsoleProperties.RunAppend | kernel.c:11-49 | Running the first (length of a) + m bytes of a + b is running a, then the first m bytes of b from where a left off, with failing indices counted from the start; after a failure nothing more happens |
| ConsoleProperties.WriteLineAt | kernel.c:39-40 | In a written line, byte k of the text is in the k-th cell with attribute 0x0F |
| ConsoleProperties.WriteLineOutside | kernel.c:39-40 | A written line changes no byte outside its own cells |
| ConsoleProperties.CellExtendsLine | kernel.c:39-40 | Writing the cell after a line of m bytes gives the line of m + 1 bytes |
| ConsoleProperties.RunLine | kernel.c:39-46 | Bytes without newlines that fit in the rest of a row are stored in consecutive cells of that row, and the cursor ends after them, wrapping when the row is exactly filled |
| ConsoleProperties.PrintTerminated | kernel.c:11 | A call on zero-free bytes followed by the terminator processes all of them |
| ConsoleProperties.RunNewLines | kernel.c:13-16 | n newlines from column 0 with n rows left below move the cursor down n rows and write nothing |
| ConsoleProperties.NewLinesScroll | kernel.c:13-34 | A call on 25 newlines scrolls exactly once: the surface is the scrolled old surface and the cursor is (24, 0) |
| ConsoleProperties.WrapsToNextRow | kernel.c:39-46 | A call on 81 bytes without newlines fills row 0 with the first 80, stores the 81st at (1, 0) with attribute 0x0F, and ends with the cursor at (1, 1) |
| ConsoleProperties.WrapGrid | kernel.c:39-40 | After a full row 0 and one cell written at (1, 0), row 0 still holds the 80 bytes and (1, 0) holds the 81st |
| ConsoleProperties.LineAfterBottom | kernel.c:13-46 | From any surface with the cursor on row 24, a newline and a short line scroll exactly once and write the line on row 24 from column 0, with the cursor after it |
| ConsoleProperties.BottomLineGrid | kernel.c:21-40 | After that scroll and line, rows 0..23 hold the old rows 1..24, row 24 holds the line with attribute 0x0F, and the rest of row 24 is blank |
| ConsoleProperties.Join | kernel.c:11 | Lines without zero bytes, joined by newlines, give a string without zero bytes (so PrintTerminated applies to it) |
| ConsoleProperties.NextLine | kernel.c:13-19 | Above the bottom row, a newline and a short line write the line on the next row from column 0, with no scroll and the cursor after it |
| ConsoleProperties.RunLines | kernel.c:11-49 | From (0, 0), up to 25 short lines joined by newlines never fail and never scroll: the run ends with exactly the surface `LinesGrid` (line i written on row i from column 0) and the cursor after the last byte of the last line |
| ConsoleProperties.LinesGridCell | kernel.c:39-46 | On that surface, cell (r, c) holds byte c of line r with attribute 0x0F when line r reaches column c, and is unchanged otherwise, so 25 lines fill rows 0..24 exactly |
| ConsoleProperties.ScrollOnce | kernel.c:11-49 | A call on 25 short lines, a newline and one more line scrolls exactly once: the result is the 25-line surface `LinesGrid`, scrolled, with the last line written on row 24 and the cursor after it |
| ConsoleProperties.ScrollOnceGrid | kernel.c:21-46 | After that call, row r < 24 holds line r + 1 with attribute 0x0F (the rest of the row is the old row r + 1), row 24 holds the last line, and the rest of row 24 is blank |
| ConsoleProperties.TwoLinesRun | kernel.c:11-49 | A call on two short lines joined by a newline ends with the two-line surface `LinesGrid` and the cursor after the second line |
| ConsoleProperties.TwoLinesGrid | kernel.c:39-40 | On the two-line surface, the cells of rows 0 and 1 hold the lines with attribute 0x0F and every other byte is as it was |
| ConsoleProperties.TwoLines | kernel.c:11-49 | Two short lines joined by a newline: cells of row 0 and row 1 hold them with attribute 0x0F, the cursor is (1, length of the second), and every other byte is unchanged, so nothing scrolls |
| ConsoleProperties.HelloBytes | kernel.c:56 | The literal of the call is "Hello World", a newline, and "Hello My Friend", with no other newline or zero |
| ConsoleProperties.HelloWorld | kernel.c:56 | The call leaves "Hello World" on row 0 and "Hello My Friend" on row 1 from column 0 with attribute 0x0F, the cursor at (1, 15), and every other byte as it was |
| WrapFix.BottomRowOverflows | kernel.c:41-46 | From (24, 0), 80 non-newline bytes fill row 24, the wrap sets the row to 25, and the 81st byte's write leaves the buffer |
| WrapFix.OverflowExample | kernel.c:42-46 | The call on 24 newlines and 81 letters stops at byte 104 with the cursor at (25, 0), whose offset is 4000, the first byte past the buffer |
| WrapFix.StepFixed | kernel.c:42-46 | The corrected step, which scrolls on a wrap past the last row, always keeps the cursor on the screen |
| WrapFix.RunFixed | kernel.c:11-49 | The corrected loop keeps the cursor on the screen after every byte, so every write lands inside the buffer |
| WrapFix.PrintFixed | kernel.c:6-49 | A corrected call on any string ends with the cursor on the screen |
| WrapFix.StepFixedAgrees | kernel.c:42-46 | The corrected step equals the source's step if and only if the byte is a newline or the cursor is not in the bottom-right cell; there the source moves to row 25 while the corrected step scrolls to (24, 0) |
| WrapFix.RunFixedAgrees | kernel.c:11-49 | On every string whose run under the source never reaches row 25, the corrected loop gives the same buffer and cursor |

## Left out

- The physical address 0xB8000 and `volatile` (kernel.c:1, kernel.c:8): the buffer is an ordinary array passed in, because what the hardware shows cannot be verified.
- `kernelmain`'s idle loop (kernel.c:57-59): it never ends and states nothing. Only its call at kernel.c:56 is modelled.
- The commented-out pointer increments (kernel.c:50-51): dead code.
- Keyboard input, port I/O, interrupts and reentrancy: none of them appear in kernel.c.
- A cursor kept across calls: kernel.c keeps no cursor beyond one call (kernel.c:9); each call starts at (0, 0), and the model does the same.
- The signedness of C `char`: bytes are 0..255 and are stored unchanged.
- Console.PrintString: kernel.c does not stop at row 25. It goes on writing at offsets 4000, 4002, and so on, past the 4000-byte buffer; a later newline clamps the row to 24 and scrolls, so the call recovers. The model stops at the first such write and reports `WriteOutOfBounds` with its index and state. The later bytes, what the stray writes overwrite, and that recovery are not modelled. Console.Run, Console.Print and Console.RunStops follow the same cut.
- Console.PrintString: the C function returns nothing. The model returns the final outcome, which holds the cursor that the C locals hold, so the cursor can be stated.
- The model reads the string as a sequence of bytes that contains a zero; a C string without a terminator reads past its end, and that is not modelled.

## Findings

| source | as written | input that shows it | evidently intended | confidence | as-written member | corrected member |
|---|---|---|---|---|---|---|
| kernel.c:42-46 | The column wrap increments `row` without the `row >= VGA_HEIGHT` check of the newline branch, so `row` reaches 25 and the next non-newline byte is stored at offset 4000 or beyond, past the 4000-byte buffer | 24 newlines followed by 81 letters: byte 104 is written at offset 4000 | A wrap past the last row clamps the row to 24 and scrolls, as a newline does, so every write lands in the buffer | not executed | WrapFix.OverflowExample | WrapFix.RunFixed |
