/** The remote screen, as far as the line editor relies on it: one row of cells
    without a right margin, and a cursor. */
module Terminal {

  const BELL := '\U{0007}'
  const BS := '\U{0008}'
  const DEL := '\U{007F}'

  /** Cells that were never written are blank. */
  datatype Screen = Screen(cells: map<nat, char>, col: nat)

  predicate IsPrintable(c: char) {
    ' ' <= c && c != DEL
  }

  predicate Printable(s: string) {
    forall i :: 0 <= i < |s| ==> IsPrintable(s[i])
  }

  function Cell(s: Screen, i: nat): char {
    if i in s.cells then s.cells[i] else ' '
  }

  function Put(s: Screen, c: char): Screen {
    if c == BS then s.(col := if s.col == 0 then 0 else s.col - 1)
    else if c == '\r' then s.(col := 0)
    else if c == '\n' then s.(cells := map[])
    else if IsPrintable(c) then Screen(s.cells[s.col := c], s.col + 1)
    else s
  }

  function Replay(s: Screen, bytes: string): Screen {
    if bytes == [] then s else Put(Replay(s, bytes[..|bytes| - 1]), bytes[|bytes| - 1])
  }

  lemma {:induction false} ReplayConcat(s: Screen, a: string, b: string)
    ensures Replay(s, a + b) == Replay(Replay(s, a), b)
    decreases |b|
  {
    if b == [] {
      assert a + b == a;
    } else {
      var b' := b[..|b| - 1];
      assert (a + b)[..|a + b| - 1] == a + b';
      ReplayConcat(s, a, b');
    }
  }

  function Repeat(c: char, n: nat): (r: string)
    ensures |r| == n && forall i :: 0 <= i < n ==> r[i] == c
  {
    seq(n, _ => c)
  }

  lemma {:induction false} ReplayBackspaces(s: Screen, n: nat)
    requires n <= s.col
    ensures Replay(s, Repeat(BS, n)) == s.(col := s.col - n)
  {
    if n > 0 {
      assert Repeat(BS, n)[..n - 1] == Repeat(BS, n - 1);
      ReplayBackspaces(s, n - 1);
    }
  }

  lemma {:induction false} ReplayPrintable(s: Screen, w: string)
    requires Printable(w)
    ensures Replay(s, w).col == s.col + |w|
    ensures forall i: nat :: Cell(Replay(s, w), i)
              == if s.col <= i < s.col + |w| then w[i - s.col] else Cell(s, i)
  {
    if w != [] {
      var w' := w[..|w| - 1];
      ReplayPrintable(s, w');
      forall i: nat
        ensures Cell(Replay(s, w), i) == if s.col <= i < s.col + |w| then w[i - s.col] else Cell(s, i)
      {
        assert Cell(Replay(s, w'), i) == if s.col <= i < s.col + |w'| then w'[i - s.col] else Cell(s, i);
      }
    }
  }

  /** Whatever is sent, a cell keeps its character or shows a printable one. */
  lemma {:induction false} CellStaysOrPrintable(s: Screen, bytes: string, i: nat)
    ensures Cell(Replay(s, bytes), i) == Cell(s, i) || IsPrintable(Cell(Replay(s, bytes), i))
  {
    if bytes != [] {
      CellStaysOrPrintable(s, bytes[..|bytes| - 1], i);
    }
  }

  /** No byte of the stream takes the cursor left of column `base`. */
  predicate StaysRightOf(s: Screen, bytes: string, base: nat) {
    forall n :: 0 <= n <= |bytes| ==> Replay(s, bytes[..n]).col >= base
  }

  lemma StaysRightOfConcat(s: Screen, a: string, b: string, base: nat)
    requires StaysRightOf(s, a, base)
    requires StaysRightOf(Replay(s, a), b, base)
    ensures StaysRightOf(s, a + b, base)
  {
    forall n | 0 <= n <= |a + b|
      ensures Replay(s, (a + b)[..n]).col >= base
    {
      if n <= |a| {
        assert (a + b)[..n] == a[..n];
      } else {
        assert (a + b)[..n] == a + b[..n - |a|];
        ReplayConcat(s, a, b[..n - |a|]);
      }
    }
  }

  lemma StaysRightOfBackspaces(s: Screen, n: nat, base: nat)
    requires base + n <= s.col
    ensures StaysRightOf(s, Repeat(BS, n), base)
  {
    forall k | 0 <= k <= n
      ensures Replay(s, Repeat(BS, n)[..k]).col >= base
    {
      assert Repeat(BS, n)[..k] == Repeat(BS, k);
      ReplayBackspaces(s, k);
    }
  }

  lemma StaysRightOfPrintable(s: Screen, w: string, base: nat)
    requires Printable(w) && base <= s.col
    ensures StaysRightOf(s, w, base)
  {
    forall k | 0 <= k <= |w|
      ensures Replay(s, w[..k]).col >= base
    {
      ReplayPrintable(s, w[..k]);
    }
  }

  function LineCell(line: string, j: nat): char {
    if j < |line| then line[j] else ' '
  }

  /** From column `base` on the row holds exactly `line`, and the cursor is `cur` cells into it. */
  ghost predicate Shows(s: Screen, base: nat, line: string, cur: nat) {
    && s.col == base + cur
    && forall i: nat :: base <= i ==> Cell(s, i) == LineCell(line, i - base)
  }

  /** Columns left of `base` are the same on both screens. */
  ghost predicate SamePrompt(s: Screen, t: Screen, base: nat) {
    forall i: nat :: i < base ==> Cell(s, i) == Cell(t, i)
  }

  /** A carriage return and line feed leave a blank row with the cursor at its start. */
  lemma ReplayNewLine(s: Screen)
    ensures Replay(s, "\r\n") == Screen(map[], 0)
  {
    assert "\r\n"[..1] == "\r";
    assert "\r"[..0] == "";
  }
}
