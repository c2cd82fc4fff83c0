/** Incremental redisplay: the bytes that turn the line and cursor on the screen
    into the new line and cursor (vty.c, rl_movecursor and rl_update). */
module Redisplay {
  import opened Limits
  import opened Terminal

  function Min(a: nat, b: nat): nat { if a <= b then a else b }

  function Max(a: nat, b: nat): nat { if a <= b then b else a }

  /** The first place where the lines differ, or the end of the shorter one. */
  function FirstDiff(a: string, b: string): (d: nat)
    ensures d <= |a| && d <= |b|
    ensures forall i :: 0 <= i < d ==> a[i] == b[i]
    ensures d < |a| && d < |b| ==> a[d] != b[d]
  {
    if a == [] || b == [] || a[0] != b[0] then 0 else 1 + FirstDiff(a[1..], b[1..])
  }

  /** Moving left sends backspaces; moving right sends the line's own characters. */
  function MoveBytes(line: string, from: nat, to: nat): string
    requires to <= |line| || to <= from
  {
    if to <= from then Repeat(BS, from - to) else line[from..to]
  }

  /** Where the first movement ends: the first difference within both lines, else the new cursor. */
  function Stop(was: string, now: string, cur: nat): nat {
    var d := FirstDiff(now, was);
    if d < Min(|was|, |now|) then d else cur
  }

  /** The second half of an update between lines of different lengths: draw to the end of the
      new line, blank what is left of a longer old one, come back to the cursor. */
  function TailBytes(wasLen: nat, now: string, to: nat, cur: nat): string
    requires to <= |now| && cur <= |now|
  {
    var end := Max(wasLen, |now|);
    MoveBytes(now, to, |now|) + (Repeat(' ', end - |now|) + MoveBytes(now, end, cur))
  }

  /** The bytes rl_update sends for the displayed `was` line with its cursor at `oldCur`. */
  function UpdateBytes(was: string, wasCur: nat, now: string, cur: nat): string
    requires cur <= |now|
  {
    var to := Stop(was, now, cur);
    var first := MoveBytes(now, wasCur, to);
    if |was| == |now| then
      first + MoveBytes(now, to, cur)
    else
      first + TailBytes(|was|, now, to, cur)
  }

  /** The cells the update writes: whatever its forward motion passes over. */
  predicate Painted(was: string, wasCur: nat, now: string, cur: nat, j: nat) {
    var to := Stop(was, now, cur);
    || wasCur <= j < to
    || to <= j < (if |was| == |now| then cur else Max(|was|, |now|))
  }

  /** Between two screens exactly the line's cells in from..to were written. */
  ghost predicate Wrote(s: Screen, r: Screen, base: nat, line: string, from: nat, to: nat) {
    forall i: nat :: Cell(r, i) == if base + from <= i < base + to then LineCell(line, i - base) else Cell(s, i)
  }

  /** The stream writes exactly from..to, leaves the cursor at `stop`, and stays right of `base`. */
  ghost predicate Writes(s: Screen, bytes: string, base: nat, line: string, from: nat, to: nat, stop: nat) {
    && Replay(s, bytes).col == base + stop
    && Wrote(s, Replay(s, bytes), base, line, from, to)
    && StaysRightOf(s, bytes, base)
  }

  lemma WritesConcat(s: Screen, x: string, y: string, base: nat, line: string,
                     a: nat, b: nat, c: nat, mid: nat, stop: nat)
    requires a <= b <= c
    requires Writes(s, x, base, line, a, b, mid) && Writes(Replay(s, x), y, base, line, b, c, stop)
    ensures Writes(s, x + y, base, line, a, c, stop)
  {
    ReplayConcat(s, x, y);
    StaysRightOfConcat(s, x, y, base);
  }

  lemma MoveEffect(s: Screen, base: nat, line: string, from: nat, to: nat)
    requires to <= |line| || to <= from
    requires Printable(line) && s.col == base + from
    ensures Writes(s, MoveBytes(line, from, to), base, line, from, to, to)
  {
    if to <= from {
      ReplayBackspaces(s, from - to);
      StaysRightOfBackspaces(s, from - to, base);
    } else {
      ReplayPrintable(s, line[from..to]);
      StaysRightOfPrintable(s, line[from..to], base);
    }
  }

  /** What the bytes do to any screen whose cursor is where the editor believes it is:
      the painted cells receive the new line or blanks, no other cell changes. */
  lemma UpdateEffect(s: Screen, base: nat, was: string, wasCur: nat, now: string, cur: nat)
    requires cur <= |now| && Printable(now) && s.col == base + wasCur
    ensures var r := Replay(s, UpdateBytes(was, wasCur, now, cur));
            && r.col == base + cur
            && forall i: nat :: Cell(r, i)
                 == if i >= base && Painted(was, wasCur, now, cur, i - base) then LineCell(now, i - base) else Cell(s, i)
    ensures StaysRightOf(s, UpdateBytes(was, wasCur, now, cur), base)
  {
    var to := Stop(was, now, cur);
    MoveEffect(s, base, now, wasCur, to);
    var b1 := MoveBytes(now, wasCur, to);
    var b2 := if |was| == |now| then MoveBytes(now, to, cur) else TailBytes(|was|, now, to, cur);
    if |was| == |now| {
      MoveEffect(Replay(s, b1), base, now, to, cur);
    } else {
      TailEffect(Replay(s, b1), base, |was|, now, to, cur);
    }
    ReplayConcat(s, b1, b2);
    StaysRightOfConcat(s, b1, b2, base);
  }

  lemma TailEffect(s: Screen, base: nat, wasLen: nat, now: string, to: nat, cur: nat)
    requires to <= |now| && cur <= |now| && Printable(now) && s.col == base + to
    ensures Writes(s, TailBytes(wasLen, now, to, cur), base, now, to, Max(wasLen, |now|), cur)
  {
    var end := Max(wasLen, |now|);
    var b1, b2, b3 := MoveBytes(now, to, |now|), Repeat(' ', end - |now|), MoveBytes(now, end, cur);
    MoveEffect(s, base, now, to, |now|);
    var s1 := Replay(s, b1);
    BlanksEffect(s1, base, now, end);
    MoveEffect(Replay(s1, b2), base, now, end, cur);
    WritesConcat(s1, b2, b3, base, now, |now|, end, end, end, cur);
    WritesConcat(s, b1, b2 + b3, base, now, to, |now|, end, |now|, cur);
  }

  lemma BlanksEffect(s: Screen, base: nat, line: string, end: nat)
    requires |line| <= end && s.col == base + |line|
    ensures Writes(s, Repeat(' ', end - |line|), base, line, |line|, end, end)
  {
    ReplayPrintable(s, Repeat(' ', end - |line|));
    StaysRightOfPrintable(s, Repeat(' ', end - |line|), base);
  }

  /** Exact domain over any screen and any remembered line, stale or not: the update succeeds
      iff every cell it leaves alone already shows what the new line needs there. */
  lemma UpdateCorrectIff(s: Screen, base: nat, was: string, wasCur: nat, now: string, cur: nat)
    requires cur <= |now| && Printable(now) && s.col == base + wasCur
    ensures Shows(Replay(s, UpdateBytes(was, wasCur, now, cur)), base, now, cur)
       <==> forall i: nat :: base <= i && !Painted(was, wasCur, now, cur, i - base)
              ==> Cell(s, i) == LineCell(now, i - base)
    ensures SamePrompt(s, Replay(s, UpdateBytes(was, wasCur, now, cur)), base)
  {
    var r := Replay(s, UpdateBytes(was, wasCur, now, cur));
    UpdateEffect(s, base, was, wasCur, now, cur);
    if Shows(r, base, now, cur) {
      forall i: nat | base <= i && !Painted(was, wasCur, now, cur, i - base)
        ensures Cell(s, i) == LineCell(now, i - base)
      {
        assert Cell(r, i) == LineCell(now, i - base);
      }
    }
  }

  /** When the screen does show the remembered line, the update draws the new one
      iff the lengths differ or the lines agree from the new cursor onward. */
  lemma UpdateFromShownIff(s: Screen, base: nat, was: string, wasCur: nat, now: string, cur: nat)
    requires Shows(s, base, was, wasCur) && wasCur <= |was|
    requires cur <= |now| && Printable(now)
    ensures Shows(Replay(s, UpdateBytes(was, wasCur, now, cur)), base, now, cur)
       <==> |was| != |now| || was[cur..] == now[cur..]
    ensures SamePrompt(s, Replay(s, UpdateBytes(was, wasCur, now, cur)), base)
  {
    UpdateCorrectIff(s, base, was, wasCur, now, cur);
    if |was| == |now| && was[cur..] != now[cur..] {
      MissedChange(s, base, was, wasCur, now, cur);
    } else {
      forall i: nat | base <= i && !Painted(was, wasCur, now, cur, i - base)
        ensures Cell(s, i) == LineCell(now, i - base)
      {
        UnpaintedAgrees(was, wasCur, now, cur, i - base);
      }
    }
  }

  lemma UnpaintedAgrees(was: string, wasCur: nat, now: string, cur: nat, j: nat)
    requires wasCur <= |was| && cur <= |now| && (|was| != |now| || was[cur..] == now[cur..])
    requires !Painted(was, wasCur, now, cur, j)
    ensures LineCell(was, j) == LineCell(now, j)
  {
    if |was| == |now| && cur <= j < |was| {
      assert was[cur..][j - cur] == now[cur..][j - cur];
    }
  }

  lemma MissedChange(s: Screen, base: nat, was: string, wasCur: nat, now: string, cur: nat)
    requires Shows(s, base, was, wasCur)
    requires cur <= |now| == |was| && was[cur..] != now[cur..]
    ensures exists i: nat :: base <= i && !Painted(was, wasCur, now, cur, i - base)
              && Cell(s, i) != LineCell(now, i - base)
  {
    var k: nat :| k < |now| - cur && was[cur..][k] != now[cur..][k];
    var d := FirstDiff(now, was);
    var j := if cur <= d then d else cur + k;
    assert !Painted(was, wasCur, now, cur, (base + j) - base);
    assert Cell(s, base + j) == LineCell(was, j);
  }

  /** After a command, Tab or `?` the editor restarts on a blank row with its old cursor at the
      start and its new cursor at the end: the whole line appears, whatever was remembered. */
  lemma RepaintOnBlankRow(s: Screen, base: nat, stale: string, now: string)
    requires Shows(s, base, [], 0) && Printable(now)
    ensures Shows(Replay(s, UpdateBytes(stale, 0, now, |now|)), base, now, |now|)
    ensures SamePrompt(s, Replay(s, UpdateBytes(stale, 0, now, |now|)), base)
  {
    UpdateCorrectIff(s, base, stale, 0, now, |now|);
    forall i: nat | base <= i && !Painted(stale, 0, now, |now|, i - base)
      ensures Cell(s, i) == LineCell(now, i - base)
    {
      assert Cell(s, i) == LineCell([], i - base);
    }
  }

  /** An update between lines of at most m characters sends at most 3 * m bytes: for command lines it
      fits the write buffer. */
  lemma UpdateLength(was: string, wasCur: nat, now: string, cur: nat, m: nat)
    requires |was| <= m && |now| <= m && wasCur <= m && cur <= |now|
    ensures |UpdateBytes(was, wasCur, now, cur)| <= 3 * m
    ensures m == MAX_LINE ==> 3 * m < MAX_WBUFFER
  {
    assert |TailBytes(|was|, now, Stop(was, now, cur), cur)| <= 2 * m;
  }

  /** The bound is reached for every m: all columns back, forth and back again. */
  lemma UpdateBoundIsTight(was: string, now: string)
    requires was != "" && |now| == |was| - 1 && (now != "" ==> now[0] != was[0])
    ensures |UpdateBytes(was, |was|, now, 0)| == 3 * |was|
  {
    assert FirstDiff(now, was) == 0 && Stop(was, now, 0) == 0;
    assert |TailBytes(|was|, now, 0, 0)| == 2 * |was|;
  }

  /** Outside the domain: replacing "ab" by "ac" with the cursor left at the start repaints nothing. */
  lemma UpdateCanMissAChange(s: Screen)
    requires Shows(s, 0, "ab", 0)
    ensures !Shows(Replay(s, UpdateBytes("ab", 0, "ac", 0)), 0, "ac", 0)
  {
    UpdateFromShownIff(s, 0, "ab", 0, "ac", 0);
    assert "ab"[0..] == "ab" && "ac"[0..] == "ac";
    assert "ab"[1] != "ac"[1];
  }
}
