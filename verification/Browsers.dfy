/** The browsing half of the editor: both histories, the one in use, and the unfinished line
    kept in hst_buff while older lines are shown (vty.c:83-148). */
module Browsers {
  import opened Limits
  import opened LineBuffers
  import opened Histories
  import opened Displays
  import opened Zippers
  import opened Editing

  /** A line that the buffers can hold. */
  predicate Storable(s: string) {
    |s| <= MAX_LINE && '\0' !in s
  }

  ghost predicate AllStorable(lines: seq<string>) {
    forall i :: 0 <= i < |lines| ==> Storable(lines[i])
  }

  class Browser {
    const confHist: History
    const execHist: History
    const hstBuff: array<char>
    var hist: History
    /** The string in hst_buff. */
    ghost var draft: string
    /** The objects that make up the browser; none is ever replaced. */
    ghost const Repr: set<object>

    ghost predicate Valid()
      reads this, Repr
    {
      && Repr == {this, hstBuff, confHist, confHist.slots, execHist, execHist.slots}
      && confHist != execHist && confHist.slots != execHist.slots
      && hist in {confHist, execHist}
      && confHist.Valid() && execHist.Valid()
      && hstBuff.Length == MAX_CMDLINE && HoldsString(hstBuff[..], draft)
      && AllStorable(confHist.Entries()) && AllStorable(execHist.Entries())
    }

    /** The browsing state around the edited line. */
    ghost function Around(z: Zipper): Nav
      requires Valid()
      reads this, Repr
    {
      Nav(hist.Entries(), hist.pos, draft, z)
    }

    constructor ()
      ensures Valid() && fresh(Repr)
      ensures hist == confHist && confHist.Entries() == [] && confHist.pos == 0 && draft == ""
    {
      var conf := new History();
      var exec := new History();
      var draftBuff := new char[MAX_CMDLINE];
      confHist, execHist, hstBuff, hist, draft := conf, exec, draftBuff, conf, "";
      Repr := {this, draftBuff, conf, conf.slots, exec, exec.slots};
      new;
      hstBuff[0] := '\0';
    }

    /** The history part of reset_vty. */
    method Rewind(mode: nat)
      requires Valid()
      modifies this`hist, confHist`pos, execHist`pos
      ensures Valid() && hist == (if mode == 0 then confHist else execHist)
      ensures confHist.pos == confHist.len && execHist.pos == execHist.len
    {
      confHist.pos := confHist.len;
      execHist.pos := execHist.len;
      hist := if mode == 0 then confHist else execHist;
    }

    /** history_add to the history in use. */
    method Record(cmd: string)
      requires Valid() && Storable(cmd)
      modifies hist, hist.slots
      ensures Valid() && hist.Entries() == Recorded(old(hist.Entries()), cmd)
    {
      var added := hist.Add(cmd);
    }

    /** hist_write_entry */
    method WriteEntry(line: LineBuffer, cmd: string)
      requires Storable(cmd) && line.buff.Length == MAX_CMDLINE
      modifies line, line.buff
      ensures line.Valid() && line.Zip() == Zipper(Recalled(cmd), "")
    {
      RecalledCopiesIff(cmd);
      var s := Format(cmd);
      line.Write(s);
    }

    /** The unfinished line goes to hst_buff. */
    method SaveDraft(line: LineBuffer)
      requires Valid() && line.Valid() && line.buff !in Repr
      modifies this`draft, hstBuff
      ensures Valid() && draft == line.Zip().Text()
      ensures line.Valid() && line.Zip() == old(line.Zip())
    {
      line.ZipText();
      LineIsString(line);
      CopyString(hstBuff, line.buff, line.Line());
      draft := line.Line();
    }

    /** hist_get_next, with the unfinished line saved on leaving it. */
    method StepOlder(line: LineBuffer) returns (ok: bool, cmd: string)
      requires Valid() && line.Valid() && line.buff !in Repr
      modifies this`draft, hist`pos, hstBuff
      ensures Valid() && line.Valid() && line.Zip() == old(line.Zip()) && hist == old(hist)
      ensures hist.Entries() == old(hist.Entries()) && (ok <==> old(hist.pos) > 0)
      ensures !ok ==> hist.pos == old(hist.pos) && draft == old(draft)
      ensures ok ==>
                && hist.pos == old(hist.pos) - 1 && cmd == hist.Entries()[hist.pos] && Storable(cmd)
                && draft == if hist.pos + 1 == hist.len then line.Zip().Text() else old(draft)
    {
      ok, cmd := hist.Older();
      if ok && hist.pos == hist.len - 1 {
        SaveDraft(line);
      }
    }

    /** history_next */
    method Older(line: LineBuffer) returns (ok: bool)
      requires Valid() && line.Valid() && line !in Repr && line.buff !in Repr
      modifies this`draft, hist`pos, hstBuff, line, line.buff
      ensures Valid() && line.Valid() && hist == old(hist)
      ensures Around(line.Zip()) == Editing.Older(old(Around(line.Zip())))
      ensures ok <==> old(hist.pos) > 0
    {
      var cmd;
      ok, cmd := StepOlder(line);
      if ok {
        WriteEntry(line, cmd);
      }
    }

    /** history_prev */
    method Newer(line: LineBuffer) returns (ok: bool)
      requires Valid() && line.Valid() && line !in Repr && line.buff !in Repr
      modifies hist`pos, line, line.buff
      ensures Valid() && line.Valid() && hist == old(hist)
      ensures Around(line.Zip()) == Editing.Newer(old(Around(line.Zip())))
      ensures ok <==> old(hist.pos) < hist.len
    {
      if hist.pos == hist.len {
        return false;
      }
      var found, cmd := hist.Newer();
      if !found {
        cmd := DraftText();
      }
      WriteEntry(line, cmd);
      return true;
    }

    /** hst_buff read as a string. */
    method DraftText() returns (s: string)
      requires Valid()
      ensures s == draft
    {
      var i := 0;
      CharAt(hstBuff[..], draft, 0);
      while hstBuff[i] != '\0'
        invariant i <= |draft| && (hstBuff[i] == '\0' <==> i == |draft|)
        decreases |draft| - i
      {
        i := i + 1;
        CharAt(hstBuff[..], draft, i);
      }
      return hstBuff[..i];
    }
  }
}
