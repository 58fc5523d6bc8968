/** What print_string promises, stated over the functional model of the
    Console module: the effect of one byte, the role of the terminator, runs
    that are split in two, whole lines of text, scrolling and wrapping in
    whole calls, and the call made by kernelmain (kernel.c:56). */
module ConsoleProperties {
  import opened VgaText
  import opened Console

  /** Bytes of a string of 8-bit characters. */
  function Ascii(s: string): (b: seq<Byte>)
    requires forall i :: 0 <= i < |s| ==> s[i] as int < 256
    ensures |b| == |s| && forall i :: 0 <= i < |s| ==> b[i] == s[i] as int
  {
    seq(|s|, i requires 0 <= i < |s| => s[i] as int)
  }

  // ---- One byte (kernel.c:13-47) -------------------------------------------

  /** The write of one cell stores c and the attribute 0x0F in the two bytes of
      the cursor's cell and leaves every other byte as it was. */
  lemma PutCellFrame(con: State, c: Byte)
    requires con.row < HEIGHT && con.col < WIDTH
    ensures CharAt(PutCell(con, c), con.row, con.col) == c
    ensures AttrAt(PutCell(con, c), con.row, con.col) == ATTR
    ensures forall k :: 0 <= k < SIZE && k != Offset(con.row, con.col) && k != Offset(con.row, con.col) + 1 ==>
      PutCell(con, c)[k] == con.grid[k]
  {
  }

  /** A non-newline byte c at (row, col) sets that cell's character byte to c and
      its attribute byte to 0x0F, changes no other byte, and advances the column,
      wrapping to column 0 of the next row at column 80. */
  lemma StepPutsChar(con: State, c: Byte)
    requires Valid(con) && c != NEWLINE && con.row < HEIGHT
    ensures Step(con, c).Some?
    ensures var next := Step(con, c).value;
      CharAt(next.grid, con.row, con.col) == c && AttrAt(next.grid, con.row, con.col) == ATTR
      && (forall k :: 0 <= k < SIZE && k != Offset(con.row, con.col) && k != Offset(con.row, con.col) + 1 ==>
            next.grid[k] == con.grid[k])
      && (if con.col + 1 < WIDTH then next.row == con.row && next.col == con.col + 1
          else next.row == con.row + 1 && next.col == 0)
  {
  }

  /** A newline writes nothing unless it moves the row past the bottom, and
      then the row is clamped to 24 and exactly one scroll happens; the column
      returns to 0 and the row is at most 24 afterwards. */
  lemma StepNewLine(con: State)
    requires Valid(con)
    ensures Step(con, NEWLINE).Some?
    ensures var next := Step(con, NEWLINE).value;
      next.col == 0 && next.row <= HEIGHT - 1
      && (con.row + 1 < HEIGHT ==> next.grid == con.grid && next.row == con.row + 1)
      && (con.row + 1 >= HEIGHT ==> next.grid == ScrolledGrid(con.grid) && next.row == HEIGHT - 1)
  {
  }

  /** A run that fails stops at a byte that is not a newline, on row 25. */
  lemma {:induction false} RunFailsOnlyBelowScreen(con: State, s: seq<Byte>, n: nat)
    requires Valid(con) && n <= |s|
    requires Run(con, s, n).WriteOutOfBounds?
    ensures var out := Run(con, s, n);
      out.index < n && s[out.index] != NEWLINE && out.state.row == HEIGHT
    decreases n
  {
    if Run(con, s, n - 1).WriteOutOfBounds? {
      RunFailsOnlyBelowScreen(con, s, n - 1);
    }
  }

  // ---- The terminator (kernel.c:9, 11, 48) ---------------------------------

  /** Whatever follows the first zero byte does not move the terminator. */
  lemma {:induction false} StrLenAppend(s: seq<Byte>, t: seq<Byte>)
    requires 0 in s
    ensures 0 in s + t && StrLen(s + t) == StrLen(s)
  {
    if s[0] != 0 {
      assert (s + t)[1..] == s[1..] + t;
      StrLenAppend(s[1..], t);
    }
  }

  /** The run over the first n bytes reads only those bytes. */
  lemma {:induction false} RunSamePrefix(con: State, s1: seq<Byte>, s2: seq<Byte>, n: nat)
    requires Valid(con) && n <= |s1| && n <= |s2|
    requires forall k :: 0 <= k < n ==> s1[k] == s2[k]
    ensures Run(con, s1, n) == Run(con, s2, n)
    decreases n
  {
    if n > 0 {
      RunSamePrefix(con, s1, s2, n - 1);
    }
  }

  /** The first zero byte is at n when it is at n and nowhere before. */
  lemma {:induction false} StrLenAt(s: seq<Byte>, n: nat)
    requires n < |s| && s[n] == 0
    requires forall k :: 0 <= k < n ==> s[k] != 0
    ensures 0 in s && StrLen(s) == n
  {
    if n > 0 {
      StrLenAt(s[1..], n - 1);
    }
  }

  /** Bytes after the terminator are never read or written: a call on s + t
      behaves as a call on s, and it starts from the cursor (0, 0) whatever
      came before. */
  lemma PrintIgnoresTail(g: Grid, s: seq<Byte>, t: seq<Byte>)
    requires 0 in s
    ensures 0 in s + t && Print(g, s + t) == Print(g, s)
  {
    StrLenAppend(s, t);
    RunSamePrefix(State(g, 0, 0), s + t, s, StrLen(s));
  }

  // ---- Runs split in two ---------------------------------------------------

  /** The outcome of running the first m bytes of `rest` after `first`, with
      the index of a failing write counted from the start of the whole string
      (`first` covered `n` bytes). */
  function Continue(first: Outcome, rest: seq<Byte>, m: nat, n: nat): Outcome
    requires Valid(first.state) && m <= |rest|
  {
    match first
    case WriteOutOfBounds(_, _) => first
    case Finished(st) =>
      match Run(st, rest, m)
      case Finished(last) => Finished(last)
      case WriteOutOfBounds(last, i) => WriteOutOfBounds(last, n + i)
  }

  /** Running the first n = |a| + m bytes of a + b is running a, then the first
      m bytes of b from where a left off; once a write has gone out of bounds
      nothing further happens. */
  lemma {:induction false} RunAppend(con: State, a: seq<Byte>, b: seq<Byte>, m: nat, n: nat)
    requires Valid(con) && m <= |b| && n == |a| + m
    ensures Run(con, a + b, n) == Continue(Run(con, a, |a|), b, m, |a|)
    decreases m
  {
    if m == 0 {
      RunSamePrefix(con, a + b, a, n);
    } else {
      var m', n' := m - 1, n - 1;
      RunAppend(con, a, b, m', n');
      assert (a + b)[n'] == b[m'];
      match Run(con, a, |a|)
      case WriteOutOfBounds(_, _) =>
      case Finished(st) =>
        match Run(st, b, m')
        case WriteOutOfBounds(x, i) =>
          assert Run(con, a + b, n') == WriteOutOfBounds(x, |a| + i);
        case Finished(x) =>
          assert Run(con, a + b, n') == Finished(x);
          assert Run(con, a + b, n) == StepAt(x, b[m'], n');
          assert Run(st, b, m) == StepAt(x, b[m'], m');
    }
  }

  // ---- Lines of text -------------------------------------------------------

  /** The surface after the first n bytes of t are stored in consecutive cells
      starting at byte offset `base`, each followed by the fixed attribute. */
  function WriteLine(g: Grid, base: nat, t: seq<Byte>, n: nat): Grid
    requires n <= |t| && base + 2 * n <= SIZE
    decreases n
  {
    if n == 0 then g
    else
      var at := base + 2 * (n - 1);
      WriteLine(g, base, t, n - 1)[at := t[n - 1]][at + 1 := ATTR]
  }

  /** Byte k of the line is in the k-th cell, with attribute 0x0F. */
  lemma {:induction false} WriteLineAt(g: Grid, base: nat, t: seq<Byte>, n: nat, k: nat)
    requires n <= |t| && base + 2 * n <= SIZE && k < n
    ensures WriteLine(g, base, t, n)[base + 2 * k] == t[k]
    ensures WriteLine(g, base, t, n)[base + 2 * k + 1] == ATTR
    decreases n
  {
    if k < n - 1 {
      WriteLineAt(g, base, t, n - 1, k);
    }
  }

  /** Bytes outside the line's cells keep their value. */
  lemma {:induction false} WriteLineOutside(g: Grid, base: nat, t: seq<Byte>, n: nat, j: nat)
    requires n <= |t| && base + 2 * n <= SIZE && j < SIZE && !(base <= j < base + 2 * n)
    ensures WriteLine(g, base, t, n)[j] == g[j]
    decreases n
  {
    if n > 0 {
      WriteLineOutside(g, base, t, n - 1, j);
    }
  }

  /** Cells along a row are two bytes apart. */
  lemma OffsetAlongRow(row: nat, col: nat, k: nat)
    requires row < HEIGHT && col + k < WIDTH
    ensures Offset(row, col + k) == Offset(row, col) + 2 * k
  {
  }

  /** n bytes without newlines that fit in the rest of the row are written
      without going out of bounds into consecutive cells of that row, and the
      cursor ends after them, wrapping to the next row when the row is exactly
      filled. */
  lemma {:induction false} RunLine(con: State, t: seq<Byte>, n: nat)
    requires Valid(con) && con.row < HEIGHT && n <= |t| && con.col + n <= WIDTH
    requires forall k :: 0 <= k < n ==> t[k] != NEWLINE
    ensures Offset(con.row, con.col) + 2 * n <= SIZE
    ensures Run(con, t, n) == Finished(State(
      WriteLine(con.grid, Offset(con.row, con.col), t, n),
      if con.col + n < WIDTH then con.row else con.row + 1,
      if con.col + n < WIDTH then con.col + n else 0))
    decreases n
  {
    if n > 0 {
      var m := n - 1;
      var base := Offset(con.row, con.col);
      var mid := State(WriteLine(con.grid, base, t, m), con.row, con.col + m);
      assert Run(con, t, m) == Finished(mid) by {
        RunLine(con, t, m);
      }
      CellExtendsLine(con.grid, con.row, con.col, t, m, n);
      var g := WriteLine(con.grid, base, t, n);
      var next := if con.col + n < WIDTH then State(g, con.row, con.col + n) else State(g, con.row + 1, 0);
      assert Step(mid, t[m]) == Some(next) by {
        StepWrites(mid, t[m], g);
      }
      assert Run(con, t, n) == StepAt(mid, t[m], m);
      assert StepAt(mid, t[m], m) == Finished(next);
    }
  }

  /** A non-newline byte on the surface yields the surface with its cell
      written and the cursor advanced. */
  lemma StepWrites(con: State, c: Byte, g: Grid)
    requires Valid(con) && con.row < HEIGHT && c != NEWLINE
    requires g == con.grid[Offset(con.row, con.col) := c][Offset(con.row, con.col) + 1 := ATTR]
    ensures Step(con, c) == Some(if con.col + 1 < WIDTH then State(g, con.row, con.col + 1)
      else State(g, con.row + 1, 0))
  {
  }

  /** Writing the next cell of the row extends the line by one byte. */
  lemma CellExtendsLine(g: Grid, row: nat, col: nat, t: seq<Byte>, m: nat, n: nat)
    requires row < HEIGHT && col + n <= WIDTH && n == m + 1 && n <= |t|
    ensures Offset(row, col) + 2 * n <= SIZE
    ensures var off := Offset(row, col + m);
      WriteLine(g, Offset(row, col), t, n) ==
      WriteLine(g, Offset(row, col), t, m)[off := t[m]][off + 1 := ATTR]
  {
    OffsetAlongRow(row, col, m);
  }

  /** Lines joined by single newlines, as print_string receives them. */
  function Join(ls: seq<seq<Byte>>): (x: seq<Byte>)
    requires |ls| > 0
    ensures (forall i :: 0 <= i < |ls| ==> 0 !in ls[i]) ==> 0 !in x
  {
    if |ls| == 1 then ls[0] else Join(ls[..|ls| - 1]) + ([NEWLINE] + ls[|ls| - 1])
  }

  /** Lines shorter than a row, without newlines or zeros. */
  predicate ShortLines(ls: seq<seq<Byte>>)
  {
    forall i :: 0 <= i < |ls| ==> |ls[i]| < WIDTH && NEWLINE !in ls[i] && 0 !in ls[i]
  }

  /** Above the bottom row, a newline and a short line write the line on the
      next row from column 0, with the cursor after it; nothing scrolls. */
  lemma NextLine(h: Grid, r: nat, c: nat, b: seq<Byte>)
    requires r < LAST_ROW && c < WIDTH && |b| < WIDTH && NEWLINE !in b
    ensures Run(State(h, r, c), [NEWLINE] + b, 1 + |b|) ==
      Finished(State(WriteLine(h, Offset(r + 1, 0), b, |b|), r + 1, |b|))
  {
    var st1 := State(h, r, c);
    var st2 := State(h, r + 1, 0);
    var m := |b|;
    assert Run(st1, [NEWLINE], 1) == Finished(st2);
    var last := State(WriteLine(h, Offset(r + 1, 0), b, m), r + 1, m);
    assert Run(st2, b, m) == Finished(last) by {
      RunLine(st2, b, m);
    }
    RunAppend(st1, [NEWLINE], b, m, 1 + m);
    assert Continue(Run(st1, [NEWLINE], 1), b, m, 1) == Finished(last);
  }

  /** Up to 25 short lines from (0, 0) stay on the screen and never scroll:
      line i is written on row i from column 0, and the cursor ends after the
      last byte of the last line. */
  lemma {:induction false} RunLines(g: Grid, ls: seq<seq<Byte>>)
    requires 0 < |ls| <= HEIGHT && ShortLines(ls)
    ensures var x := Join(ls);
      Run(State(g, 0, 0), x, |x|) == Finished(State(LinesGrid(g, ls), |ls| - 1, |ls[|ls| - 1]|))
    decreases |ls|
  {
    var con := State(g, 0, 0);
    if |ls| == 1 {
      RunLine(con, ls[0], |ls[0]|);
    } else {
      var init := ls[..|ls| - 1];
      var b := ls[|ls| - 1];
      assert ShortLines(init) by {
        forall i | 0 <= i < |init|
          ensures |init[i]| < WIDTH && NEWLINE !in init[i] && 0 !in init[i]
        {
          assert init[i] == ls[i];
        }
      }
      RunLines(g, init);
      var a := Join(init);
      var st := Run(con, a, |a|).state;
      assert Run(con, a, |a|) == Finished(st);
      var m := 1 + |b|;
      var n := |a| + m;
      var last := State(WriteLine(st.grid, Offset(st.row + 1, 0), b, |b|), st.row + 1, |b|);
      assert Run(st, [NEWLINE] + b, m) == Finished(last) by {
        NextLine(st.grid, st.row, st.col, b);
      }
      var x := Join(ls);
      assert x == a + ([NEWLINE] + b) && |x| == n;
      RunAppend(con, a, [NEWLINE] + b, m, n);
      assert Continue(Run(con, a, |a|), [NEWLINE] + b, m, |a|) == Finished(last);
      assert Run(con, x, |x|) == Finished(last);
      assert last.row == |ls| - 1 && last.col == |ls[|ls| - 1]|;
    }
  }

  /** The surface after up to 25 short lines are written from (0, 0): line i
      in the cells of row i from column 0. */
  function LinesGrid(g: Grid, ls: seq<seq<Byte>>): Grid
    requires 0 < |ls| <= HEIGHT && ShortLines(ls)
    decreases |ls|
  {
    var i := |ls| - 1;
    var below := if i == 0 then g else LinesGrid(g, ls[..i]);
    WriteLine(below, Offset(i, 0), ls[i], |ls[i]|)
  }

  /** Cell (r, c) after the lines are written: byte c of line r with attribute
      0x0F when line r reaches column c, and otherwise the cell as it was. */
  lemma {:induction false} LinesGridCell(g: Grid, ls: seq<seq<Byte>>, r: nat, c: nat)
    requires 0 < |ls| <= HEIGHT && ShortLines(ls) && r < HEIGHT && c < WIDTH
    ensures r < |ls| && c < |ls[r]| ==>
      CharAt(LinesGrid(g, ls), r, c) == ls[r][c] && AttrAt(LinesGrid(g, ls), r, c) == ATTR
    ensures !(r < |ls| && c < |ls[r]|) ==>
      CharAt(LinesGrid(g, ls), r, c) == CharAt(g, r, c) && AttrAt(LinesGrid(g, ls), r, c) == AttrAt(g, r, c)
    decreases |ls|
  {
    var i := |ls| - 1;
    var n := |ls[i]|;
    var base := Offset(i, 0);
    var below := if i == 0 then g else LinesGrid(g, ls[..i]);
    var lg := LinesGrid(g, ls);
    assert lg == WriteLine(below, base, ls[i], n);
    if r == i && c < n {
      assert CharAt(lg, r, c) == ls[r][c] && AttrAt(lg, r, c) == ATTR by {
        OffsetAlongRow(i, 0, c);
        WriteLineAt(below, base, ls[i], n, c);
      }
    } else {
      assert CharAt(lg, r, c) == CharAt(below, r, c) && AttrAt(lg, r, c) == AttrAt(below, r, c) by {
        CellOutsideLine(r, c, i, n);
        WriteLineOutside(below, base, ls[i], n, Offset(r, c));
        WriteLineOutside(below, base, ls[i], n, Offset(r, c) + 1);
      }
      if i > 0 {
        var init := ls[..i];
        InitShortLines(ls, i);
        LinesGridCell(g, init, r, c);
        assert r < i ==> init[r] == ls[r];
      }
    }
  }

  /** A cell other than the first n cells of row i lies outside them. */
  lemma CellOutsideLine(r: nat, c: nat, i: nat, n: nat)
    requires r < HEIGHT && c < WIDTH && i < HEIGHT && n <= WIDTH && !(r == i && c < n)
    ensures Offset(r, c) + 1 < Offset(i, 0) || Offset(i, 0) + 2 * n <= Offset(r, c)
  {
  }

  /** The first i lines of short lines are short lines. */
  lemma InitShortLines(ls: seq<seq<Byte>>, i: nat)
    requires ShortLines(ls) && i <= |ls|
    ensures ShortLines(ls[..i])
  {
    forall k | 0 <= k < i
      ensures |ls[..i][k]| < WIDTH && NEWLINE !in ls[..i][k] && 0 !in ls[..i][k]
    {
      assert ls[..i][k] == ls[k];
    }
  }

  /** Every byte of the surface belongs to one cell. */
  lemma CellOfByte(j: nat) returns (r: nat, c: nat)
    requires j < SIZE
    ensures r < HEIGHT && c < WIDTH
    ensures j == Offset(r, c) || j == Offset(r, c) + 1
  {
    r := j / ROW_BYTES;
    c := (j % ROW_BYTES) / 2;
  }

  /** Two lines, each shorter than a row, separated by one newline, written by
      one call on any surface: the first lands on row 0 and the second on row 1
      from column 0, the cursor ends after the second, and every other byte is as
      it was (in particular nothing scrolls). */
  lemma TwoLines(g: Grid, a: seq<Byte>, b: seq<Byte>)
    requires |a| < WIDTH && |b| < WIDTH
    requires NEWLINE !in a && NEWLINE !in b && 0 !in a && 0 !in b
    ensures 0 in a + [NEWLINE] + b + [0]
    ensures Print(g, a + [NEWLINE] + b + [0]).Finished?
    ensures var st := Print(g, a + [NEWLINE] + b + [0]).state;
      st.row == 1 && st.col == |b|
      && (forall k :: 0 <= k < |a| ==> CharAt(st.grid, 0, k) == a[k] && AttrAt(st.grid, 0, k) == ATTR)
      && (forall k :: 0 <= k < |b| ==> CharAt(st.grid, 1, k) == b[k] && AttrAt(st.grid, 1, k) == ATTR)
      && (forall j :: 0 <= j < SIZE && !(0 <= j < 2 * |a|) && !(ROW_BYTES <= j < ROW_BYTES + 2 * |b|) ==>
            st.grid[j] == g[j])
  {
    TwoLinesRun(g, a, b);
    TwoLinesGrid(g, a, b);
  }

  /** Two lines joined by one newline are the string of the call. */
  lemma JoinTwo(a: seq<Byte>, b: seq<Byte>)
    ensures Join([a, b]) == a + [NEWLINE] + b
  {
    assert [a, b][..1] == [a];
    assert Join([a]) == a;
  }

  /** The run behind TwoLines is RunLines on the two lines. */
  lemma TwoLinesRun(g: Grid, a: seq<Byte>, b: seq<Byte>)
    requires |a| < WIDTH && |b| < WIDTH
    requires NEWLINE !in a && NEWLINE !in b && 0 !in a && 0 !in b
    ensures ShortLines([a, b])
    ensures 0 in a + [NEWLINE] + b + [0]
    ensures Print(g, a + [NEWLINE] + b + [0]) == Finished(State(LinesGrid(g, [a, b]), 1, |b|))
  {
    var ls := [a, b];
    assert ShortLines(ls);
    var x := Join(ls);
    JoinTwo(a, b);
    assert 0 !in x;
    PrintTerminated(g, x);
    RunLines(g, ls);
    RunSamePrefix(State(g, 0, 0), x + [0], x, |x|);
  }

  /** The cells of the two-line surface, and every other byte unchanged. */
  lemma TwoLinesGrid(g: Grid, a: seq<Byte>, b: seq<Byte>)
    requires |a| < WIDTH && |b| < WIDTH && ShortLines([a, b])
    ensures var h := LinesGrid(g, [a, b]);
      (forall k :: 0 <= k < |a| ==> CharAt(h, 0, k) == a[k] && AttrAt(h, 0, k) == ATTR)
      && (forall k :: 0 <= k < |b| ==> CharAt(h, 1, k) == b[k] && AttrAt(h, 1, k) == ATTR)
      && (forall j :: 0 <= j < SIZE && !(0 <= j < 2 * |a|) && !(ROW_BYTES <= j < ROW_BYTES + 2 * |b|) ==>
            h[j] == g[j])
  {
    var ls := [a, b];
    var h := LinesGrid(g, ls);
    forall k | 0 <= k < |a|
      ensures CharAt(h, 0, k) == a[k] && AttrAt(h, 0, k) == ATTR
    {
      LinesGridCell(g, ls, 0, k);
    }
    forall k | 0 <= k < |b|
      ensures CharAt(h, 1, k) == b[k] && AttrAt(h, 1, k) == ATTR
    {
      LinesGridCell(g, ls, 1, k);
    }
    forall j | 0 <= j < SIZE && !(0 <= j < 2 * |a|) && !(ROW_BYTES <= j < ROW_BYTES + 2 * |b|)
      ensures h[j] == g[j]
    {
      var r, c := CellOfByte(j);
      assert !(r < |ls| && c < |ls[r]|) by {
        if r == 0 {
          assert ls[0] == a;
        } else if r == 1 {
          assert ls[1] == b;
        }
      }
      LinesGridCell(g, ls, r, c);
      assert h[Offset(r, c)] == g[Offset(r, c)] && h[Offset(r, c) + 1] == g[Offset(r, c) + 1];
    }
  }

  /** A call on a string without zeros, then the terminator, runs all of it. */
  lemma PrintTerminated(g: Grid, x: seq<Byte>)
    requires 0 !in x
    ensures 0 in x + [0] && Print(g, x + [0]) == Run(State(g, 0, 0), x + [0], |x|)
  {
    StrLenAt(x + [0], |x|);
  }

  // ---- Scrolling and wrapping in a whole call ------------------------------

  /** n copies of the byte c. */
  function Repeat(c: Byte, n: nat): (r: seq<Byte>)
    ensures |r| == n && forall k :: 0 <= k < n ==> r[k] == c
  {
    seq(n, _ => c)
  }

  /** n newlines from column 0 of a row that has n more rows below it move the
      cursor down n rows and write nothing. */
  lemma {:induction false} RunNewLines(con: State, s: seq<Byte>, n: nat)
    requires Valid(con) && con.col == 0 && con.row + n < HEIGHT && n <= |s|
    requires forall k :: 0 <= k < n ==> s[k] == NEWLINE
    ensures Run(con, s, n) == Finished(State(con.grid, con.row + n, 0))
    decreases n
  {
    if n > 0 {
      var m := n - 1;
      RunNewLines(con, s, m);
      var mid := State(con.grid, con.row + m, 0);
      assert Run(con, s, n) == StepAt(mid, s[m], m);
    }
  }

  /** A call on 25 newlines: the first 24 move the cursor down to row 24, and
      the 25th takes the row to 25, which is clamped to 24 with exactly one
      scroll. Nothing is written. */
  lemma NewLinesScroll(g: Grid)
    ensures 0 in Repeat(NEWLINE, HEIGHT) + [0]
    ensures Print(g, Repeat(NEWLINE, HEIGHT) + [0]) == Finished(State(ScrolledGrid(g), HEIGHT - 1, 0))
  {
    var x := Repeat(NEWLINE, HEIGHT);
    PrintTerminated(g, x);
    var con := State(g, 0, 0);
    var s := x + [0];
    var m := HEIGHT - 1;
    RunNewLines(con, s, m);
    assert Run(con, s, HEIGHT) == StepAt(State(g, m, 0), s[m], m);
  }

  /** A call on 81 bytes without newlines: the first 80 fill row 0, the wrap
      moves the cursor to (1, 0), the 81st byte lands there with attribute
      0x0F, and the cursor ends at (1, 1). */
  lemma WrapsToNextRow(g: Grid, t: seq<Byte>)
    requires |t| == WIDTH + 1 && NEWLINE !in t && 0 !in t
    ensures 0 in t + [0]
    ensures var out := Print(g, t + [0]);
      out.Finished? && out.state.row == 1 && out.state.col == 1
      && CharAt(out.state.grid, 1, 0) == t[WIDTH] && AttrAt(out.state.grid, 1, 0) == ATTR
      && (forall k :: 0 <= k < WIDTH ==>
            CharAt(out.state.grid, 0, k) == t[k] && AttrAt(out.state.grid, 0, k) == ATTR)
  {
    PrintTerminated(g, t);
    var con := State(g, 0, 0);
    var s := t + [0];
    var n := WIDTH;
    RunLine(con, s, n);
    var full := State(WriteLine(g, 0, s, n), 1, 0);
    assert Run(con, s, n) == Finished(full);
    assert Run(con, s, n + 1) == StepAt(full, s[n], n);
    WrapGrid(g, s);
  }

  /** The surface after a full row 0 and one more cell at (1, 0). */
  lemma WrapGrid(g: Grid, s: seq<Byte>)
    requires |s| > WIDTH
    ensures var full := State(WriteLine(g, 0, s, WIDTH), 1, 0);
      var h := PutCell(full, s[WIDTH]);
      CharAt(h, 1, 0) == s[WIDTH] && AttrAt(h, 1, 0) == ATTR
      && (forall k :: 0 <= k < WIDTH ==> CharAt(h, 0, k) == s[k] && AttrAt(h, 0, k) == ATTR)
  {
    var full := State(WriteLine(g, 0, s, WIDTH), 1, 0);
    PutCellFrame(full, s[WIDTH]);
    forall k | 0 <= k < WIDTH
      ensures CharAt(PutCell(full, s[WIDTH]), 0, k) == s[k] && AttrAt(PutCell(full, s[WIDTH]), 0, k) == ATTR
    {
      WriteLineAt(g, 0, s, WIDTH, k);
    }
  }

  /** From any surface with the cursor on row 24, a newline and a line shorter
      than a row scroll exactly once and write the line on row 24 from column 0;
      the cursor ends after it. */
  lemma LineAfterBottom(h: Grid, c: nat, t: seq<Byte>)
    requires c < WIDTH && |t| < WIDTH && NEWLINE !in t
    ensures Run(State(h, HEIGHT - 1, c), [NEWLINE] + (t + [0]), 1 + |t|) ==
      Finished(State(WriteLine(ScrolledGrid(h), Offset(HEIGHT - 1, 0), t, |t|), HEIGHT - 1, |t|))
  {
    var st1 := State(h, HEIGHT - 1, c);
    var st2 := State(ScrolledGrid(h), HEIGHT - 1, 0);
    RunAppend(st1, [NEWLINE], t + [0], |t|, 1 + |t|);
    assert Run(st1, [NEWLINE], 1) == Finished(st2);
    RunSamePrefix(st2, t + [0], t, |t|);
    RunLine(st2, t, |t|);
  }

  /** The surface that LineAfterBottom leaves: rows 0..23 hold the old rows
      1..24, row 24 holds the line with attribute 0x0F, and the rest of row 24
      is blank. */
  lemma BottomLineGrid(h: Grid, t: seq<Byte>)
    requires |t| < WIDTH
    ensures var b := WriteLine(ScrolledGrid(h), Offset(LAST_ROW, 0), t, |t|);
      (forall r, k :: 0 <= r < LAST_ROW && 0 <= k < WIDTH ==>
         CharAt(b, r, k) == CharAt(h, r + 1, k) && AttrAt(b, r, k) == AttrAt(h, r + 1, k))
      && (forall k :: 0 <= k < |t| ==> CharAt(b, LAST_ROW, k) == t[k] && AttrAt(b, LAST_ROW, k) == ATTR)
      && (forall k :: |t| <= k < WIDTH ==> CharAt(b, LAST_ROW, k) == SPACE && AttrAt(b, LAST_ROW, k) == ATTR)
  {
    var base := Offset(LAST_ROW, 0);
    var sg := ScrolledGrid(h);
    var b := WriteLine(sg, base, t, |t|);
    forall r, k | 0 <= r < LAST_ROW && 0 <= k < WIDTH
      ensures CharAt(b, r, k) == CharAt(h, r + 1, k) && AttrAt(b, r, k) == AttrAt(h, r + 1, k)
    {
      ScrollShiftsRows(h, r, k);
      WriteLineOutside(sg, base, t, |t|, Offset(r, k));
      WriteLineOutside(sg, base, t, |t|, Offset(r, k) + 1);
    }
    forall k | 0 <= k < |t|
      ensures CharAt(b, LAST_ROW, k) == t[k] && AttrAt(b, LAST_ROW, k) == ATTR
    {
      WriteLineAt(sg, base, t, |t|, k);
    }
    forall k | |t| <= k < WIDTH
      ensures CharAt(b, LAST_ROW, k) == SPACE && AttrAt(b, LAST_ROW, k) == ATTR
    {
      ScrollBlanksLastRow(h, k);
      WriteLineOutside(sg, base, t, |t|, Offset(LAST_ROW, k));
      WriteLineOutside(sg, base, t, |t|, Offset(LAST_ROW, k) + 1);
    }
  }

  /** A call on 25 short lines followed by a newline and one more line: the
      25 lines fill rows 0..24 without scrolling, the 25th newline scrolls
      exactly once, and the last line is written on row 24 of the scrolled
      surface (ScrollOnceGrid gives its cells). */
  lemma ScrollOnce(g: Grid, ls: seq<seq<Byte>>, t: seq<Byte>)
    requires |ls| == HEIGHT && ShortLines(ls)
    requires |t| < WIDTH && NEWLINE !in t && 0 !in t
    ensures 0 in Join(ls) + ([NEWLINE] + (t + [0]))
    ensures Print(g, Join(ls) + ([NEWLINE] + (t + [0]))) ==
      Finished(State(WriteLine(ScrolledGrid(LinesGrid(g, ls)), Offset(LAST_ROW, 0), t, |t|), LAST_ROW, |t|))
  {
    var x := Join(ls);
    var rest := [NEWLINE] + (t + [0]);
    var s := x + rest;
    var con := State(g, 0, 0);
    var m := 1 + |t|;
    var len := |x| + m;
    assert 0 !in x;
    assert forall k :: 0 <= k < len ==> s[k] != 0 by {
      forall k | 0 <= k < len
        ensures s[k] != 0
      {
        if k < |x| {
          assert s[k] == x[k];
        } else if k > |x| {
          assert s[k] == t[k - |x| - 1];
        }
      }
    }
    StrLenAt(s, len);
    assert Print(g, s) == Run(con, s, len);
    RunAppend(con, x, rest, m, len);
    RunLines(g, ls);
    LineAfterBottom(LinesGrid(g, ls), |ls[LAST_ROW]|, t);
  }

  /** The cells ScrollOnce leaves: row r < 24 holds line r + 1 (the part of
      the row past that line is the old row r + 1), row 24 holds the last line
      with attribute 0x0F, and the rest of row 24 is blank. */
  lemma ScrollOnceGrid(g: Grid, ls: seq<seq<Byte>>, t: seq<Byte>)
    requires |ls| == HEIGHT && ShortLines(ls) && |t| < WIDTH
    ensures var b := WriteLine(ScrolledGrid(LinesGrid(g, ls)), Offset(LAST_ROW, 0), t, |t|);
      (forall r, k :: 0 <= r < LAST_ROW && 0 <= k < |ls[r + 1]| ==>
         CharAt(b, r, k) == ls[r + 1][k] && AttrAt(b, r, k) == ATTR)
      && (forall r, k :: 0 <= r < LAST_ROW && |ls[r + 1]| <= k < WIDTH ==>
         CharAt(b, r, k) == CharAt(g, r + 1, k) && AttrAt(b, r, k) == AttrAt(g, r + 1, k))
      && (forall k :: 0 <= k < |t| ==> CharAt(b, LAST_ROW, k) == t[k] && AttrAt(b, LAST_ROW, k) == ATTR)
      && (forall k :: |t| <= k < WIDTH ==> CharAt(b, LAST_ROW, k) == SPACE && AttrAt(b, LAST_ROW, k) == ATTR)
  {
    var h := LinesGrid(g, ls);
    BottomLineGrid(h, t);
    forall r, k | 1 <= r < HEIGHT && 0 <= k < WIDTH
      ensures k < |ls[r]| ==> CharAt(h, r, k) == ls[r][k] && AttrAt(h, r, k) == ATTR
      ensures |ls[r]| <= k ==> CharAt(h, r, k) == CharAt(g, r, k) && AttrAt(h, r, k) == AttrAt(g, r, k)
    {
      LinesGridCell(g, ls, r, k);
    }
  }

  // ---- The call of kernelmain (kernel.c:56) --------------------------------

  /** The bytes of the string literal of kernel.c:56 are the two lines joined by
      a newline. */
  lemma HelloBytes()
    ensures Ascii("Hello World\nHello My Friend") ==
      Ascii("Hello World") + [NEWLINE] + Ascii("Hello My Friend")
    ensures NEWLINE !in Ascii("Hello World") && 0 !in Ascii("Hello World")
    ensures NEWLINE !in Ascii("Hello My Friend") && 0 !in Ascii("Hello My Friend")
  {
  }

  /** print_string("Hello World\nHello My Friend") on any surface: row 0 holds
      "Hello World" and row 1 "Hello My Friend" from column 0, every written cell
      carries 0x0F, the cursor ends at (1, 15), and every other byte is as it was
      (no scroll). */
  lemma HelloWorld(g: Grid)
    ensures 0 in Ascii("Hello World\nHello My Friend") + [0]
    ensures Print(g, Ascii("Hello World\nHello My Friend") + [0]).Finished?
    ensures var st := Print(g, Ascii("Hello World\nHello My Friend") + [0]).state;
      st.row == 1 && st.col == 15
      && (forall k :: 0 <= k < 11 ==>
            CharAt(st.grid, 0, k) == "Hello World"[k] as int && AttrAt(st.grid, 0, k) == ATTR)
      && (forall k :: 0 <= k < 15 ==>
            CharAt(st.grid, 1, k) == "Hello My Friend"[k] as int && AttrAt(st.grid, 1, k) == ATTR)
      && (forall j :: 0 <= j < SIZE && !(0 <= j < 22) && !(ROW_BYTES <= j < ROW_BYTES + 30) ==>
            st.grid[j] == g[j])
  {
    HelloBytes();
    TwoLines(g, Ascii("Hello World"), Ascii("Hello My Friend"));
  }
}
