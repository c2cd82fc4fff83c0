/** rl_movecursor and rl_update of vty.c on their buffers, proved to send exactly the bytes of
    Redisplay.UpdateBytes and to remember the line and cursor they have drawn. */
module Displays {
  import opened Limits
  import opened Sequences
  import opened Terminal
  import opened Redisplay
  import opened LineBuffers

  /** The bytes begin with the string `s` and its terminator. */
  ghost predicate HoldsString(b: seq<char>, s: string) {
    && |s| < |b|
    && b[..|s|] == s
    && b[|s|] == '\0'
    && '\0' !in s
  }

  /** strcpy */
  method CopyString(dst: array<char>, src: array<char>, ghost s: string)
    requires dst != src && HoldsString(src[..], s) && |s| < dst.Length
    modifies dst
    ensures HoldsString(dst[..], s)
  {
    var i := 0;
    CharAt(src[..], s, 0);
    while src[i] != '\0'
      invariant i <= |s| && HoldsString(src[..], s)
      invariant dst[..i] == s[..i]
      invariant src[i] == '\0' <==> i == |s|
      decreases |s| - i
    {
      CharAt(src[..], s, i);
      dst[i] := src[i];
      i := i + 1;
      CharAt(src[..], s, i);
    }
    dst[i] := '\0';
  }

  class Display {
    const oldBuff: array<char>
    const wBuff: array<char>
    var oldPtr: nat
    /** Everything sent to the client so far. */
    var wire: string
    /** The string in old_buff. */
    ghost var shown: string

    ghost predicate Valid()
      reads this, oldBuff
    {
      && oldBuff.Length == MAX_CMDLINE && wBuff.Length == MAX_WBUFFER && oldBuff != wBuff
      && HoldsString(oldBuff[..], shown)
      && oldPtr < MAX_CMDLINE
    }

    constructor ()
      ensures Valid() && shown == "" && oldPtr == 0 && wire == ""
      ensures fresh(oldBuff) && fresh(wBuff)
    {
      oldBuff := new char[MAX_CMDLINE];
      wBuff := new char[MAX_WBUFFER];
      oldPtr, wire, shown := 0, "", "";
      new;
      oldBuff[0] := '\0';
    }

    /** vty_out of a short text, without paging. */
    method Send(text: string)
      requires Valid()
      modifies this`wire
      ensures Valid() && wire == old(wire) + text
    {
      wire := wire + text;
    }

    /** old_buff[0] = '\0'; old_ptr = rl_buff */
    method Forget()
      requires Valid()
      modifies this`oldPtr, this`shown, oldBuff
      ensures Valid() && shown == "" && oldPtr == 0
    {
      oldBuff[0] := '\0';
      oldPtr := 0;
      shown := "";
    }

    method MoveCursor(line: LineBuffer, to: nat, from: nat, at: nat) returns (end: nat)
      requires line.Valid() && wBuff != line.buff
      requires to <= line.index || to <= from
      requires at + |MoveBytes(line.Line(), from, to)| <= wBuff.Length
      modifies wBuff
      ensures end == at + |MoveBytes(line.Line(), from, to)|
      ensures wBuff[..end] == old(wBuff[..at]) + MoveBytes(line.Line(), from, to)
    {
      ghost var bytes := MoveBytes(line.Line(), from, to);
      ghost var sent := wBuff[..at];
      end := at;
      var f := from;
      while to < f
        invariant to <= f <= from || (f == from && from < to)
        invariant to < from ==> end == at + (from - f)
        invariant from <= to ==> end == at
        invariant end <= at + |bytes|
        invariant wBuff[..end] == sent + bytes[..end - at]
      {
        wBuff[end] := BS;
        end := end + 1;
        f := f - 1;
      }
      while to > f
        invariant from <= f <= to || f == to
        invariant from < to ==> end == at + (f - from)
        invariant to <= from ==> end == at + |bytes|
        invariant end <= at + |bytes|
        invariant wBuff[..end] == sent + bytes[..end - at]
      {
        assert bytes[end - at] == line.Line()[f] == line.buff[f];
        wBuff[end] := line.buff[f];
        end := end + 1;
        f := f + 1;
      }
      assert bytes[..end - at] == bytes;
    }

    /** The first loop of rl_update: where to stop, and how far both lines were read. */
    method FindStop(line: LineBuffer) returns (i: nat, to: nat)
      requires Valid() && line.Valid()
      ensures i == FirstDiff(line.Line(), shown)
      ensures to == Stop(shown, line.Line(), line.ptr)
    {
      ghost var now := line.Line();
      i, to := 0, line.ptr;
      while line.buff[i] != '\0' && oldBuff[i] != '\0'
        invariant i <= |now| && i <= |shown| && to == line.ptr
        invariant forall j :: 0 <= j < i ==> now[j] == shown[j]
        decreases |now| - i
      {
        CharAt(oldBuff[..], shown, i);
        assert i < |now| ==> line.buff[i] == now[i];
        if line.buff[i] != oldBuff[i] {
          to := i;
          break;
        }
        i := i + 1;
      }
      CharAt(oldBuff[..], shown, i);
      assert i < |now| ==> line.buff[i] == now[i];
    }

    /** The second loop of rl_update: on to the end of the shorter line. */
    method SkipCommon(line: LineBuffer, start: nat) returns (i: nat)
      requires Valid() && line.Valid() && start <= |line.Line()| && start <= |shown|
      ensures i == Min(|line.Line()|, |shown|)
    {
      i := start;
      while line.buff[i] != '\0' && oldBuff[i] != '\0'
        invariant i <= |line.Line()| && i <= |shown|
        decreases |shown| - i
      {
        CharAt(oldBuff[..], shown, i);
        i := i + 1;
      }
      CharAt(oldBuff[..], shown, i);
    }

    method EndOfLine(line: LineBuffer, start: nat) returns (i: nat)
      requires line.Valid() && start <= line.index
      ensures i == line.index
    {
      i := start;
      while line.buff[i] != '\0'
        invariant i <= line.index
        decreases line.index - i
      {
        i := i + 1;
      }
    }

    /** A blank for each character the old line still has from `start` on. */
    method BlankRest(start: nat, at: nat) returns (end: nat)
      requires Valid() && start <= |shown| && at + (|shown| - start) <= wBuff.Length
      modifies wBuff
      ensures end == at + (|shown| - start)
      ensures wBuff[..end] == old(wBuff[..at]) + Repeat(' ', |shown| - start)
    {
      ghost var sent := wBuff[..at];
      var i := start;
      end := at;
      CharAt(oldBuff[..], shown, i);
      while oldBuff[i] != '\0'
        invariant Valid() && i <= |shown| && end == at + (i - start)
        invariant oldBuff[i] == '\0' <==> i == |shown|
        invariant wBuff[..end] == sent + Repeat(' ', i - start)
        decreases |shown| - i
      {
        wBuff[end] := ' ';
        end := end + 1;
        i := i + 1;
        CharAt(oldBuff[..], shown, i);
      }
    }

    /** Lines of different lengths: draw to the end of the new one and blank the rest of the old. */
    method DrawTail(line: LineBuffer, to: nat, i: nat, at: nat) returns (from: nat, end: nat)
      requires Valid() && line.Valid() && line.buff != wBuff
      requires to <= line.index && i == Min(|line.Line()|, |shown|)
      requires at + |MoveBytes(line.Line(), to, line.index)| + MAX_CMDLINE <= wBuff.Length
      modifies wBuff
      ensures from == Max(|shown|, |line.Line()|) && at <= end <= at + MAX_CMDLINE + (line.index - to)
      ensures wBuff[..end] == old(wBuff[..at])
                + (MoveBytes(line.Line(), to, line.index) + Repeat(' ', from - line.index))
    {
      ghost var sent := wBuff[..at];
      from := EndOfLine(line, i);
      ghost var b2 := MoveBytes(line.Line(), to, from);
      var drawn := MoveCursor(line, from, to, at);
      end := BlankRest(i, drawn);
      ghost var b3 := Repeat(' ', end - drawn);
      from := from + (end - drawn);
      assert (sent + b2) + b3 == sent + (b2 + b3);
    }

    method RedrawTail(line: LineBuffer, to: nat, i: nat, at: nat) returns (end: nat)
      requires Valid() && line.Valid() && line.buff != wBuff
      requires to <= line.index && i == Min(|line.Line()|, |shown|)
      requires at + 3 * MAX_CMDLINE <= wBuff.Length
      modifies wBuff
      ensures end <= wBuff.Length
      ensures wBuff[..end] == old(wBuff[..at]) + TailBytes(|shown|, line.Line(), to, line.ptr)
    {
      ghost var sent, now := wBuff[..at], line.Line();
      var from;
      from, end := DrawTail(line, to, i, at);
      ghost var b4 := MoveBytes(now, from, line.ptr);
      end := MoveCursor(line, line.ptr, from, end);
      ghost var b2, b3 := MoveBytes(now, to, |now|), Repeat(' ', from - |now|);
      Regroup(sent, b2 + b3, b4);
      Regroup(b2, b3, b4);
    }

    /** The bytes of rl_update in w_buff. */
    method FillBuffer(line: LineBuffer) returns (end: nat)
      requires Valid() && line.Valid() && line.buff != oldBuff && line.buff != wBuff
      modifies wBuff
      ensures end <= wBuff.Length
      ensures wBuff[..end] == UpdateBytes(shown, oldPtr, line.Line(), line.ptr)
    {
      ghost var now, cur := line.Line(), line.ptr;
      var i, to := FindStop(line);
      ghost var b1 := MoveBytes(now, oldPtr, to);
      end := MoveCursor(line, to, oldPtr, 0);
      assert wBuff[..end] == b1;
      i := SkipCommon(line, i);
      CharAt(oldBuff[..], shown, i);
      if line.buff[i] != '\0' || oldBuff[i] != '\0' {
        end := RedrawTail(line, to, i, end);
      } else {
        end := MoveCursor(line, line.ptr, to, end);
      }
    }

    /** rl_update: sends the update and remembers what is shown now. */
    method Update(line: LineBuffer)
      requires Valid() && line.Valid() && line.buff != oldBuff && line.buff != wBuff
      modifies this`wire, this`oldPtr, this`shown, oldBuff, wBuff
      ensures Valid() && line.Valid()
      ensures wire == old(wire) + UpdateBytes(old(shown), old(oldPtr), line.Line(), line.ptr)
      ensures shown == line.Line() && oldPtr == line.ptr
    {
      var end := FillBuffer(line);
      wire := wire + wBuff[..end];
      LineIsString(line);
      CopyString(oldBuff, line.buff, line.Line());
      oldPtr := line.ptr;
      shown := line.Line();
    }
  }

  lemma LineIsString(line: LineBuffer)
    requires line.Valid()
    ensures HoldsString(line.buff[..], line.Line())
  {
  }

  lemma SliceAt(b: seq<char>, s: string, i: nat, j: nat)
    requires HoldsString(b, s) && i <= j <= |s|
    ensures b[i..j] == s[i..j]
  {
    var all := b[..|s|];
    assert all == s;
    assert all[i..j] == b[i..j];
  }

  lemma CharAt(b: seq<char>, s: string, i: nat)
    requires HoldsString(b, s) && i <= |s|
    ensures b[i] == '\0' <==> i == |s|
    ensures i < |s| ==> b[i] == s[i]
  {
    if i < |s| {
      assert b[..|s|][i] == b[i];
      assert s[i] in s;
    }
  }
}
