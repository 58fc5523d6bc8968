/** The column wrap of print_string (kernel.c:42-46) moves the cursor to the
    next row without the bottom-of-screen check that the newline branch makes
    (kernel.c:16-19). This module exhibits a string whose bytes are then
    written past the 4000-byte surface, and gives the corrected step, in which
    a wrap past the last row scrolls exactly as a newline does, together with
    its guarantee that every write lands on the surface. */
module WrapFix {
  import opened VgaText
  import opened Console
  import opened ConsoleProperties

  const LETTER_A: Byte := 0x41

  // ---- As written ----------------------------------------------------------

  /** On row 24, a run of non-newline bytes fills the row, the wrap moves the
      cursor to row 25, and the next byte is a write past the surface. */
  lemma BottomRowOverflows(g: Grid, t: seq<Byte>)
    requires |t| > WIDTH && forall k :: 0 <= k <= WIDTH ==> t[k] != NEWLINE
    ensures var out := Run(State(g, HEIGHT - 1, 0), t, WIDTH + 1);
      out.WriteOutOfBounds? && out.index == WIDTH
      && out.state.row == HEIGHT && out.state.col == 0
  {
    var st := State(g, HEIGHT - 1, 0);
    var n := WIDTH;
    RunLine(st, t, n);
    var full := State(WriteLine(g, Offset(HEIGHT - 1, 0), t, n), HEIGHT, 0);
    assert Run(st, t, n) == Finished(full);
    assert Run(st, t, n + 1) == StepAt(full, t[n], n);
  }

  /** The string of 24 newlines followed by 81 letters: the newlines bring the
      cursor to row 24, 80 letters fill that row, the wrap sets the row to 25
      without scrolling, and the 81st letter (byte 104 of the string) is stored
      at offset (25 * 80 + 0) * 2 = 4000, the first byte past the surface. */
  lemma OverflowExample(g: Grid)
    ensures 0 in Repeat(NEWLINE, 24) + (Repeat(LETTER_A, 81) + [0])
    ensures var out := Print(g, Repeat(NEWLINE, 24) + (Repeat(LETTER_A, 81) + [0]));
      out.WriteOutOfBounds? && out.index == 104
      && out.state.row == HEIGHT && out.state.col == 0
      && (out.state.row * WIDTH + out.state.col) * 2 == SIZE
  {
    var nl := Repeat(NEWLINE, 24);
    var t := Repeat(LETTER_A, 81) + [0];
    var s := nl + t;
    var con := State(g, 0, 0);
    var len := 105;
    StrLenAt(s, len);
    assert Print(g, s) == Run(con, s, len);
    var m := 81;
    RunAppend(con, nl, t, m, len);
    RunNewLines(con, nl, 24);
    BottomRowOverflows(g, t);
  }

  // ---- Corrected -----------------------------------------------------------

  /** The states of the corrected loop: the cursor is always on the surface. */
  predicate OnScreen(con: State)
  {
    con.row < HEIGHT && con.col < WIDTH
  }

  /** One iteration with the missing check added: a wrap past the last row
      clamps the row to 24 and scrolls, as the newline branch does. */
  function StepFixed(con: State, c: Byte): (next: State)
    requires OnScreen(con)
    ensures OnScreen(next)
  {
    if c == NEWLINE then NewLine(con)
    else
      var g := PutCell(con, c);
      if con.col + 1 >= WIDTH then NewLine(State(g, con.row, con.col))
      else State(g, con.row, con.col + 1)
  }

  /** The corrected loop over the first n bytes of s: it never leaves the
      surface, so every byte is written inside it and no run fails. */
  function RunFixed(con: State, s: seq<Byte>, n: nat): (out: State)
    requires OnScreen(con) && n <= |s|
    ensures OnScreen(out)
    decreases n
  {
    if n == 0 then con else StepFixed(RunFixed(con, s, n - 1), s[n - 1])
  }

  /** The corrected call: whatever the string, the cursor ends on the surface. */
  function PrintFixed(g: Grid, s: seq<Byte>): (out: State)
    requires 0 in s
    ensures OnScreen(out)
  {
    RunFixed(State(g, 0, 0), s, StrLen(s))
  }

  /** The corrected step differs from the one of kernel.c exactly on a
      non-newline byte in the bottom-right cell: there kernel.c moves to row 25,
      while the corrected step scrolls and returns to column 0 of row 24. */
  lemma StepFixedAgrees(con: State, c: Byte)
    requires OnScreen(con)
    ensures Step(con, c) == Some(StepFixed(con, c)) <==>
      (c == NEWLINE || con.row < HEIGHT - 1 || con.col < WIDTH - 1)
    ensures c != NEWLINE && con.row == HEIGHT - 1 && con.col == WIDTH - 1 ==>
      Step(con, c).value.row == HEIGHT
      && StepFixed(con, c) == State(ScrolledGrid(PutCell(con, c)), HEIGHT - 1, 0)
  {
  }

  /** Every state the as-written run passes through over its first n bytes is
      on the surface. */
  ghost predicate StaysOnScreen(con: State, s: seq<Byte>, n: nat)
    requires Valid(con) && n <= |s|
  {
    forall i :: 0 <= i <= n ==> Run(con, s, i).Finished? && Run(con, s, i).state.row < HEIGHT
  }

  /** On every string whose run under kernel.c never reaches row 25, the
      corrected loop computes the same surface and cursor. */
  lemma {:induction false} RunFixedAgrees(con: State, s: seq<Byte>, n: nat)
    requires OnScreen(con) && n <= |s|
    requires StaysOnScreen(con, s, n)
    ensures Run(con, s, n) == Finished(RunFixed(con, s, n))
    decreases n
  {
    if n > 0 {
      var m := n - 1;
      assert StaysOnScreen(con, s, m) by {
        forall i | 0 <= i <= m
          ensures Run(con, s, i).Finished? && Run(con, s, i).state.row < HEIGHT
        {
          assert i <= n;
        }
      }
      RunFixedAgrees(con, s, m);
      var st := RunFixed(con, s, m);
      assert Run(con, s, n) == StepAt(st, s[m], m);
      assert Run(con, s, n).Finished? && Run(con, s, n).state.row < HEIGHT;
      StepFixedAgrees(st, s[m]);
    }
  }
}
