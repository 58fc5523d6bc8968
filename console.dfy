/** print_string of kernel.c (lines 6-52): the character dispatch over a
    NUL-terminated string, with the cursor (row, col) kept in locals that start
    at (0, 0) on every call. The behaviour is given first as functions over a
    snapshot of the surface (Step, Run, Print) and then as the imperative loop
    that updates the video memory in place (PrintString), proved equal to them. */
module Console {
  import opened VgaText

  datatype Option<T> = None | Some(value: T)

  /** The display surface together with the cursor of print_string. */
  datatype State = State(grid: Grid, row: nat, col: nat)

  /** The states print_string can reach: the column always wraps eagerly, so
      col < 80; the row may reach 25 through a column wrap, which does not
      check the bottom of the screen (kernel.c:42-46). */
  predicate Valid(con: State)
  {
    con.col < WIDTH && con.row <= HEIGHT
  }

  /** How a call ends. WriteOutOfBounds(state, i): byte i of the string is not a
      newline while the row is 25, so its cell offset lies past the surface;
      `state` is the surface and cursor just before that write. */
  datatype Outcome =
    | Finished(state: State)
    | WriteOutOfBounds(state: State, index: nat)

  /** The number of bytes before the first zero: how far `while (*str)` reads. */
  function StrLen(s: seq<Byte>): (n: nat)
    requires 0 in s
    ensures n < |s| && s[n] == 0
    ensures forall k :: 0 <= k < n ==> s[k] != 0
  {
    if s[0] == 0 then 0 else 1 + StrLen(s[1..])
  }

  /** Newline branch (kernel.c:13-36): column 0, next row; past the bottom the
      row is clamped to 24 and the surface scrolls up once. */
  function NewLine(con: State): (next: State)
    ensures next.col == 0 && next.row < HEIGHT && next.row <= con.row + 1
  {
    if con.row + 1 >= HEIGHT then State(ScrolledGrid(con.grid), HEIGHT - 1, 0)
    else State(con.grid, con.row + 1, 0)
  }

  /** The character and the fixed attribute stored at the cursor's cell
      (kernel.c:39-40). */
  function PutCell(con: State, c: Byte): Grid
    requires con.row < HEIGHT && con.col < WIDTH
  {
    var off := Offset(con.row, con.col);
    con.grid[off := c][off + 1 := ATTR]
  }

  /** One iteration of the loop of kernel.c:11-49 on a non-zero byte c. None
      when the byte would be written past the surface. */
  function Step(con: State, c: Byte): (next: Option<State>)
    requires Valid(con)
    ensures next.None? <==> (c != NEWLINE && con.row == HEIGHT)
    ensures next.Some? ==> Valid(next.value)
  {
    if c == NEWLINE then Some(NewLine(con))
    else if con.row >= HEIGHT then None
    else
      var g := PutCell(con, c);
      if con.col + 1 >= WIDTH then Some(State(g, con.row + 1, 0))
      else Some(State(g, con.row, con.col + 1))
  }

  /** Step on byte i of the string, as an outcome. */
  function StepAt(st: State, c: Byte, i: nat): Outcome
    requires Valid(st)
  {
    match Step(st, c)
    case None => WriteOutOfBounds(st, i)
    case Some(next) => Finished(next)
  }

  /** The loop over the first n bytes of s (none of them the terminator), one
      Step each, stopping at the first write past the surface. Every state it
      passes through keeps the column below 80 and the row at most 25. */
  function Run(con: State, s: seq<Byte>, n: nat): (out: Outcome)
    requires Valid(con) && n <= |s|
    ensures Valid(out.state)
    decreases n
  {
    if n == 0 then Finished(con)
    else
      match Run(con, s, n - 1)
      case WriteOutOfBounds(st, i) => WriteOutOfBounds(st, i)
      case Finished(st) => StepAt(st, s[n - 1], n - 1)
  }

  /** A call print_string(s) on a surface g: the cursor starts at (0, 0) and the
      bytes before the terminator are processed. */
  function Print(g: Grid, s: seq<Byte>): (out: Outcome)
    requires 0 in s
    ensures Valid(out.state)
    ensures s[0] == 0 ==> out == Finished(State(g, 0, 0))
  {
    Run(State(g, 0, 0), s, StrLen(s))
  }

  /** A write out of bounds is where the run ends: a failing run stays failed,
      with the same state and index, however many bytes follow. */
  lemma {:induction false} RunStops(con: State, s: seq<Byte>, i: nat, n: nat)
    requires Valid(con) && i < n <= |s|
    requires Run(con, s, i + 1).WriteOutOfBounds?
    ensures Run(con, s, n) == Run(con, s, i + 1)
    decreases n
  {
    if n > i + 1 {
      RunStops(con, s, i, n - 1);
    }
  }

  /** print_string on the video memory `vm`. The out-parameter reports the final
      cursor (the source's locals) and whether the loop reached a write past the
      surface, where it stops. */
  method PrintString(vm: array<Byte>, s: seq<Byte>) returns (out: Outcome)
    requires vm.Length == SIZE && 0 in s
    modifies vm
    ensures out == Print(old(vm[..]), s)
    ensures vm[..] == out.state.grid
  {
    ghost var start := State(vm[..], 0, 0);
    ghost var len := StrLen(s);
    var row: nat, col: nat := 0, 0;
    var i := 0;
    while s[i] != 0
      invariant i <= len
      invariant Run(start, s, i) == Finished(State(vm[..], row, col))
      decreases len - i
    {
      assert s[len] == 0;
      assert i < len;
      ghost var before := State(vm[..], row, col);
      var c := s[i];
      assert Run(start, s, i + 1) == StepAt(before, c, i);
      if c == NEWLINE {
        ghost var next := NewLine(before);
        assert StepAt(before, c, i) == Finished(next);
        col := 0;
        row := row + 1;
        if row >= HEIGHT {
          row := HEIGHT - 1;
          ScrollUp(vm);
        }
        assert next == State(vm[..], row, col);
      } else {
        if row >= HEIGHT {
          out := WriteOutOfBounds(State(vm[..], row, col), i);
          RunStops(start, s, i, len);
          return;
        }
        ghost var next := Step(before, c).value;
        assert StepAt(before, c, i) == Finished(next);
        PutChar(vm, row, col, c);
        col := col + 1;
        if col >= WIDTH {
          col := 0;
          row := row + 1;
        }
        assert next == State(vm[..], row, col);
      }
      i := i + 1;
    }
    out := Finished(State(vm[..], row, col));
  }

  /** The write of kernel.c:39-40: the character and the fixed attribute
      into the two bytes of cell (row, col). */
  method PutChar(vm: array<Byte>, row: nat, col: nat, c: Byte)
    requires vm.Length == SIZE && row < HEIGHT && col < WIDTH
    modifies vm
    ensures vm[..] == PutCell(State(old(vm[..]), row, col), c)
  {
    vm[(row * WIDTH + col) * 2] := c;
    vm[(row * WIDTH + col) * 2 + 1] := ATTR;
  }
}
