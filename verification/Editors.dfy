/** The editor object of a connection: line buffer, display, histories and flags, and readline
    itself, proved to follow the state machine of module Editing key by key. */
module Editors {
  import opened Sequences
  import opened Terminal
  import opened Redisplay
  import opened Zippers
  import opened LineBuffers
  import opened Browsers
  import opened Displays
  import opened Editing
  import opened Histories
  import opened Readers

  /** How a call of readline ends: at a key of the break set, at CTRL-C, or with the connection. */
  datatype Outcome = Broke(key: char) | Cancelled | Closed

  /** The key ends the line: a break key or CTRL-C outside escape and quote. */
  predicate Stops(e: Edit, c: char, breakset: string) {
    !e.escape && !e.quote && (c in breakset || c == CTRL_C)
  }

  ghost predicate NoneStops(e: Edit, keys: string, breakset: string)
    requires e.nav.pos <= |e.nav.entries|
  {
    forall i :: 0 <= i < |keys| ==> !Stops(Run(e, keys[..i]), keys[i], breakset)
  }

  lemma NoneStopsAppend(e: Edit, keys: string, c: char, breakset: string)
    requires e.nav.pos <= |e.nav.entries|
    requires NoneStops(e, keys, breakset) && !Stops(Run(e, keys), c, breakset)
    ensures NoneStops(e, keys + [c], breakset)
  {
    forall i | 0 <= i <= |keys|
      ensures !Stops(Run(e, (keys + [c])[..i]), (keys + [c])[i], breakset)
    {
      assert (keys + [c])[..i] == keys[..i];
      assert keys[..|keys|] == keys;
    }
  }

  /** The key bindings that change the line alone. `before` is the byte in front of the buffer. */
  method ApplyOp(line: LineBuffer, op: Op, before: char) returns (ok: bool)
    requires line.Valid()
    modifies line, line.buff
    ensures line.Valid() && line.Zip() == EditLine(op, old(line.Zip()))
    ensures ok <==> !(op == OpErase && old(line.ptr) == 0)
  {
    ok := true;
    match op {
      case OpHome => line.MoveToBol();
      case OpEnd => line.MoveToEol();
      case OpBack => line.BackwardChar();
      case OpForward => line.ForwardChar();
      case OpWordBack => line.BackwardWord();
      case OpWordForward => line.ForwardWord();
      case OpErase => ok := line.ClearChar();
      case OpEraseWord => line.ClearWord(before);
      case OpEraseLine => line.ClearLine();
      case OpCapitalize => line.CapitalizeWord();
      case OpLower => line.ToLowerWord();
      case OpUpper => line.ToUpperWord();
      case _ =>
    }
  }

  class Editor {
    const line: LineBuffer
    const display: Display
    const browser: Browser
    var mode: nat
    var escape: bool
    var quote: bool
    /** The objects that make up the editor; none is ever replaced. */
    ghost const Repr: set<object>
    /** Those that readline may change as a whole: not the histories, of which it changes only the
        positions, nor the mode. */
    ghost const Scratch: set<object>

    /** The parts are as they should be, but perhaps for the history in use. */
    ghost predicate Intact()
      reads this, Repr
    {
      && Scratch == {line, line.buff, display, display.oldBuff, display.wBuff, browser, browser.hstBuff}
      && Repr == {this, line, line.buff, display, display.oldBuff, display.wBuff} + browser.Repr
      && line.buff != display.oldBuff && line.buff != display.wBuff
      && browser.Repr !! {this, line, line.buff, display, display.oldBuff, display.wBuff}
      && browser in browser.Repr
      && line.Valid() && display.Valid() && browser.Valid()
    }

    /** The history of the mode. */
    ghost function InUse(): History
      reads this
    {
      if mode == 0 then browser.confHist else browser.execHist
    }

    ghost function Other(): History
      reads this
    {
      if mode == 0 then browser.execHist else browser.confHist
    }

    ghost predicate Valid()
      reads this, Repr
    {
      Intact() && browser.hist == InUse()
    }

    ghost function State(): Edit
      requires Intact()
      reads this, Repr
    {
      Edit(browser.Around(line.Zip()), escape, quote)
    }

    /** The display remembers exactly the current line and cursor. */
    ghost predicate InSync()
      requires line.Valid()
      reads this, line, line.buff, display
    {
      display.shown == line.Line() && display.oldPtr == line.ptr
    }

    constructor ()
      ensures Valid() && fresh(Repr)
      ensures State() == Edit(Nav([], 0, "", Zipper("", [])), false, false)
      ensures display.wire == "" && display.shown == "" && display.oldPtr == 0
    {
      var l := new LineBuffer();
      var d := new Display();
      var b := new Browser();
      line, display, browser := l, d, b;
      mode, escape, quote := 0, false, false;
      Repr := {this, l, l.buff, d, d.oldBuff, d.wBuff} + b.Repr;
      Scratch := {l, l.buff, d, d.oldBuff, d.wBuff, b, b.hstBuff};
    }

    /** reprint_line: a fresh prompt on a new row, with nothing shown behind it. */
    method ReprintLine(prompt: string)
      requires Valid()
      modifies display`wire, display`oldPtr, display`shown, display.oldBuff
      ensures Valid() && State() == old(State())
      ensures display.wire == old(display.wire) + ("\r\n" + prompt)
      ensures display.shown == "" && display.oldPtr == 0
    {
      display.Send("\r\n" + prompt);
      display.Forget();
    }

    /** reset_vty, after the mode may have changed. */
    method Reset()
      requires Intact()
      modifies this`escape, Scratch, browser.confHist`pos, browser.execHist`pos
      ensures Valid() && State() == Editing.Reset(Edit(Nav(InUse().Entries(), 0, old(browser.draft), Zipper("", "")),
                                                       false, quote))
      ensures display.wire == old(display.wire) && display.shown == "" && display.oldPtr == 0
      ensures browser.confHist.Entries() == old(browser.confHist.Entries())
      ensures browser.execHist.Entries() == old(browser.execHist.Entries())
    {
      browser.Rewind(mode);
      line.Reset();
      display.Forget();
      escape := false;
    }

    /** A handler's change of mode, and reset_vty: between the normal mode and the others the histories
        change places. */
    method Leave(mode: nat)
      requires Valid()
      modifies this`mode, this`escape, Scratch, browser.confHist`pos, browser.execHist`pos
      ensures Valid() && this.mode == mode
      ensures var e, other := old(State()), old(Other().Entries());
              if (mode == 0) == (old(this.mode) == 0) then
                State() == Editing.Reset(e) && Other().Entries() == other
              else
                State() == Editing.Reset(e.(nav := e.nav.(entries := other))) && Other().Entries() == e.nav.entries
      ensures display.wire == old(display.wire) && display.shown == ""
    {
      ghost var inUse, other := InUse().Entries(), Other().Entries();
      assert State().nav.entries == inUse;
      this.mode := mode;
      Reset();
    }

    method LineOp(op: Op, before: char) returns (r: Reaction)
      requires Valid()
      modifies line, line.buff
      ensures Valid() && State() == WithLine(old(State()), EditLine(op, Line(old(State()))))
      ensures r == if op == OpErase && old(State()).nav.z.left == [] then Bell else Quiet
    {
      hide EditLine;
      var ok := ApplyOp(line, op, before);
      r := if ok then Quiet else Bell;
    }

    method Browse(older: bool) returns (r: Reaction)
      requires Valid()
      modifies line, line.buff, browser`draft, browser.hist`pos, browser.hstBuff
      ensures Valid() && (State(), r) == Perform(old(State()), if older then OpOlder else OpNewer)
    {
      hide Editing.Older, Editing.Newer;
      var ok;
      if older {
        ok := browser.Older(line);
      } else {
        ok := browser.Newer(line);
      }
      r := if ok then Quiet else Bell;
    }

    /** escape_char_hdl, quoted_insert, and the keys that are bound to nothing. */
    method Mark(op: Op) returns (r: Reaction)
      requires Valid() && (op == OpEscape || op == OpQuote || op == Unbound)
      modifies this`escape, this`quote
      ensures Valid() && (State(), r) == Perform(old(State()), op)
    {
      hide EditLine, Editing.Older, Editing.Newer, IsLine, AllStorable, HoldsString, ZipOf;
      if op == OpEscape {
        escape := true;
      } else if op == OpQuote {
        quote := true;
      }
      r := if op == Unbound then Bell else Quiet;
    }

    /** The operations that send nothing. */
    method PerformSilently(op: Op, before: char) returns (r: Reaction)
      requires Valid() && op != OpReprint
      modifies this`escape, this`quote, line, line.buff, browser`draft, browser.hist`pos, browser.hstBuff
      ensures Valid() && (State(), r) == Perform(old(State()), op)
    {
      hide EditLine, Editing.Older, Editing.Newer;
      r := Quiet;
      if op == OpOlder || op == OpNewer {
        r := Browse(op == OpOlder);
      } else if op == OpEscape || op == OpQuote || op == Unbound {
        r := Mark(op);
      } else {
        r := LineOp(op, before);
      }
    }

    /** spec_chars_hdl and esc_chars_hdl behind their key tables. */
    method PerformOp(op: Op, prompt: string, before: char) returns (r: Reaction)
      requires Valid()
      modifies this`escape, this`quote, line, line.buff, browser`draft, browser.hist`pos, browser.hstBuff
      modifies display`wire, display`oldPtr, display`shown, display.oldBuff
      ensures Valid() && (State(), r) == Perform(old(State()), op)
      ensures r == Reprint ==> display.wire == old(display.wire) + ("\r\n" + prompt)
                               && display.shown == "" && display.oldPtr == 0
      ensures r != Reprint ==> display.wire == old(display.wire)
                               && display.shown == old(display.shown) && display.oldPtr == old(display.oldPtr)
    {
      hide EditLine, IsLine, AllStorable, HoldsString, ZipOf;
      if op == OpReprint {
        ReprintLine(prompt);
        r := Reprint;
      } else {
        r := PerformSilently(op, before);
      }
    }

    method TypeChar(c: char) returns (r: Reaction)
      requires Valid() && c != '\0'
      modifies line, line.buff
      ensures Valid() && (State(), r) == Type(old(State()), c)
    {
      line.ZipText();
      var ok := line.SaveChar(c);
      r := if ok then Quiet else Bell;
    }

    /** The branches of readline's loop body, up to the bell. */
    method Dispatch(c: char, prompt: string, before: char) returns (r: Reaction)
      requires Valid() && c != '\0'
      modifies this`escape, this`quote, line, line.buff, browser`draft, browser.hist`pos, browser.hstBuff
      modifies display`wire, display`oldPtr, display`shown, display.oldBuff
      ensures Valid() && (State(), r) == React(old(State()), c)
      ensures r == Reprint ==> display.wire == old(display.wire) + ("\r\n" + prompt)
                               && display.shown == "" && display.oldPtr == 0
      ensures r != Reprint ==> display.wire == old(display.wire)
                               && display.shown == old(display.shown) && display.oldPtr == old(display.oldPtr)
    {
      hide Perform, Insert, ControlOp, EscapeOp, IsLine, AllStorable, HoldsString, ZipOf;
      if escape {
        if c == 'O' || c == '[' {
          return Skip;
        }
        r := PerformOp(EscapeOp(c), prompt, before);
        escape := false;
      } else if quote {
        r := Quiet;
        if c != '\r' && c < DEL {
          r := TypeChar(c);
        }
        quote := false;
      } else if c < ' ' || c == DEL {
        r := PerformOp(ControlOp(c), prompt, before);
      } else {
        r := TypeChar(c);
      }
    }

    /** The bell, if any, and the redisplay. */
    method Refresh(bell: bool, doEcho: bool)
      requires Valid()
      modifies display`wire, display`oldPtr, display`shown, display.oldBuff, display.wBuff
      ensures Valid() && State() == old(State())
      ensures doEcho ==> InSync()
      ensures doEcho ==>
                (var update := UpdateBytes(old(display.shown), old(display.oldPtr), line.Line(), line.ptr);
                 display.wire == old(display.wire) + (if bell then [BELL] else []) + update)
    {
      if bell {
        display.Send([BELL]);
      } else {
        assert display.wire + [] == display.wire;
      }
      if doEcho {
        display.Update(line);
      }
    }

    /** One pass of readline's loop over a key that does not end the line. */
    method HandleKey(c: char, prompt: string, before: char, doEcho: bool)
      requires Valid() && c != '\0' && (doEcho ==> InSync())
      modifies this`escape, this`quote, line, line.buff, browser`draft, browser.hist`pos, browser.hstBuff
      modifies display`wire, display`oldPtr, display`shown, display.oldBuff, display.wBuff
      ensures Valid() && State() == React(old(State()), c).0
      ensures doEcho ==> InSync() && display.wire == old(display.wire) + Paint(old(State()), c, prompt)
    {
      line.ZipText();
      ghost var e := State();
      ghost var was, wasPtr, sent := line.Line(), line.ptr, display.wire;
      assert Line(e).Text() == was && |Line(e).left| == wasPtr;
      var r := Dispatch(c, prompt, before);
      line.ZipText();
      ghost var now := Line(State());
      assert now.Text() == line.Line() && |now.left| == line.ptr;
      if r == Skip {
        SkipChangesNothing(e, c);
        return;
      }
      ghost var mid := display.wire;
      Refresh(r == Bell, doEcho);
      if doEcho {
        PaintParts(e, c, prompt, sent, mid);
      }
    }

    /** The editor is where the state machine is after `keys`, and has sent what it sends. */
    ghost predicate Follows(e: Edit, keys: string, sent: string, reprompt: string, doEcho: bool)
      requires e.nav.pos <= |e.nav.entries|
      reads this, Repr
    {
      && Valid()
      && State() == Run(e, keys)
      && (doEcho ==> InSync() && display.wire == sent + Emission(e, keys, reprompt))
    }

    method FollowKey(c: char, before: char, doEcho: bool,
                     ghost e: Edit, ghost keys: string, ghost sent: string, reprompt: string)
      requires e.nav.pos <= |e.nav.entries|
      requires Follows(e, keys, sent, reprompt, doEcho) && c != '\0'
      modifies this`escape, this`quote, Scratch, browser.confHist`pos, browser.execHist`pos
      ensures Follows(e, keys + [c], sent, reprompt, doEcho)
    {
      RunAppend(e, keys, c, reprompt);
      HandleKey(c, reprompt, before, doEcho);
      if doEcho {
        Regroup(sent, Emission(e, keys, reprompt), Paint(Run(e, keys), c, reprompt));
      }
    }

    /** The bytes the next redisplay will send. */
    ghost function Update(): string
      requires line.Valid()
      reads this, line, line.buff, display
    {
      UpdateBytes(display.shown, display.oldPtr, line.Line(), line.ptr)
    }

    method ShowPrompt(prompt: string, reprompt: string, doEcho: bool)
      requires Valid()
      modifies display`wire, display`oldPtr, display`shown, display.oldBuff, display.wBuff
      ensures Follows(old(State()), "", old(display.wire) + prompt + old(Update()), reprompt, doEcho)
    {
      display.Send(prompt);
      display.Update(line);
      assert display.wire + "" == display.wire;
    }

    /** The editor when readline has reacted to `keys` and then ended as `outcome` says. */
    ghost predicate Ended(outcome: Outcome, e: Edit, keys: string, sent: string, breakset: string,
                          reprompt: string, doEcho: bool)
      requires e.nav.pos <= |e.nav.entries|
      reads this, Repr
    {
      match outcome
      case Broke(c) =>
        c in breakset && Stops(Run(e, keys), c, breakset) && Follows(e, keys, sent, reprompt, doEcho)
      case Closed => Follows(e, keys, sent, reprompt, doEcho)
      case Cancelled =>
        && CTRL_C !in breakset && Stops(Run(e, keys), CTRL_C, breakset)
        && Valid() && State() == Editing.Reset(Run(e, keys)) && display.shown == "" && display.oldPtr == 0
        && (doEcho ==> display.wire == sent + Emission(e, keys, reprompt))
    }

    /** What readline does with a key: `go` on after reacting to it, or end as `outcome` says. */
    method Answer(c: char, breakset: string, reprompt: string, before: char, doEcho: bool,
                  ghost e: Edit, ghost keys: string, ghost sent: string)
      returns (go: bool, outcome: Outcome)
      requires e.nav.pos <= |e.nav.entries|
      requires Follows(e, keys, sent, reprompt, doEcho) && c != '\0'
      modifies this`escape, this`quote, Scratch, browser.confHist`pos, browser.execHist`pos
      ensures go ==> !Stops(Run(e, keys), c, breakset) && Follows(e, keys + [c], sent, reprompt, doEcho)
      ensures !go ==> Ending(outcome) == [c] && Ended(outcome, e, keys, sent, breakset, reprompt, doEcho)
    {
      hide Emission, React, Paint;
      if !escape && !quote && c in breakset {
        return false, Broke(c);
      }
      if !escape && !quote && c == CTRL_C {
        Reset();
        return false, Cancelled;
      }
      FollowKey(c, before, doEcho, e, keys, sent, reprompt);
      return true, Closed;
    }

    /** The invariant of readline's loop: of the characters pending at its start it has reacted to
        the first n; while it goes on, the editor follows them, and then it has ended. */
    ghost predicate Reading(reader: Reader, go: bool, outcome: Outcome, e: Edit, pending: string, n: nat,
                            sent: string, breakset: string, reprompt: string, doEcho: bool)
      requires e.nav.pos <= |e.nav.entries|
      reads this, Repr, reader, reader.Repr, reader.sBuff, reader.sbBuff
    {
      && reader.Valid() && Repr !! reader.Repr
      && n <= |pending| && NoneStops(e, pending[..n], breakset)
      && (if go then AsText(reader.Pending()) == pending[n..]
          else AsText(reader.Pending()) == AfterEnding(outcome, pending[n..]))
      && (if go then Follows(e, pending[..n], sent, reprompt, doEcho)
          else Ended(outcome, e, pending[..n], sent, breakset, reprompt, doEcho)
               && Ending(outcome) <= pending[n..] && (outcome == Closed ==> n == |pending|))
    }

    /** The next key; the editor is left alone. */
    method NextKey(reader: Reader, reprompt: string, doEcho: bool, ghost e: Edit, ghost keys: string, ghost sent: string)
      returns (open: bool, c: char)
      requires reader.Valid() && Repr !! reader.Repr && e.nav.pos <= |e.nav.entries|
      requires Follows(e, keys, sent, reprompt, doEcho)
      modifies reader.Repr
      ensures reader.Valid() && Follows(e, keys, sent, reprompt, doEcho)
      ensures open ==> AsText(old(reader.Pending())) == [c] + AsText(reader.Pending()) && c != '\0'
      ensures open ==> |reader.Incoming()| < |old(reader.Incoming())|
      ensures !open ==> old(reader.Pending()) == [] && reader.Pending() == []
    {
      hide Run, Emission, IsLine, AllStorable, HoldsString, ZipOf;
      assert this !in reader.Repr;
      open, c := ReadKey(reader);
    }

    /** The answer to a key; the reader is left alone. */
    method AnswerKey(reader: Reader, c: char, breakset: string, reprompt: string, before: char, doEcho: bool,
                     ghost e: Edit, ghost keys: string, ghost sent: string)
      returns (go: bool, outcome: Outcome)
      requires reader.Valid() && Repr !! reader.Repr && e.nav.pos <= |e.nav.entries|
      requires Follows(e, keys, sent, reprompt, doEcho) && c != '\0'
      modifies this`escape, this`quote, Scratch, browser.confHist`pos, browser.execHist`pos
      ensures reader.Valid() && reader.Pending() == old(reader.Pending()) && reader.Incoming() == old(reader.Incoming())
      ensures go ==> !Stops(Run(e, keys), c, breakset) && Follows(e, keys + [c], sent, reprompt, doEcho)
      ensures !go ==> Ending(outcome) == [c] && Ended(outcome, e, keys, sent, breakset, reprompt, doEcho)
    {
      assert forall o :: o in Scratch + {this, browser.confHist, browser.execHist} ==> o in Repr;
      hide Run, Emission, Ended, Stops, Ending;
      go, outcome := Answer(c, breakset, reprompt, before, doEcho, e, keys, sent);
    }

    /** One pass of readline's loop: the next key and the answer to it. */
    method Pass(reader: Reader, breakset: string, reprompt: string, before: char, doEcho: bool,
                ghost e: Edit, ghost keys: string, ghost sent: string)
      returns (go: bool, c: char, outcome: Outcome)
      requires reader.Valid() && Repr !! reader.Repr && e.nav.pos <= |e.nav.entries|
      requires Follows(e, keys, sent, reprompt, doEcho)
      modifies this`escape, this`quote, Scratch, browser.confHist`pos, browser.execHist`pos, reader.Repr
      ensures reader.Valid()
      ensures AsText(old(reader.Pending())) == (if go then [c] else Ending(outcome)) + AsText(reader.Pending())
      ensures go ==> !Stops(Run(e, keys), c, breakset) && Follows(e, keys + [c], sent, reprompt, doEcho)
      ensures go ==> |reader.Incoming()| < |old(reader.Incoming())|
      ensures !go ==> Ended(outcome, e, keys, sent, breakset, reprompt, doEcho)
      ensures !go && outcome == Closed ==> reader.Pending() == []
    {
      hide Run, Emission, Follows, Stops;
      var open;
      open, c := NextKey(reader, reprompt, doEcho, e, keys, sent);
      if !open {
        return false, c, Closed;
      }
      go, outcome := AnswerKey(reader, c, breakset, reprompt, before, doEcho, e, keys, sent);
    }

    /** A pass keeps the invariant. */
    method Turn(reader: Reader, breakset: string, reprompt: string, before: char, doEcho: bool,
                ghost e: Edit, ghost pending: string, ghost n: nat, ghost sent: string)
      returns (go: bool, outcome: Outcome, ghost n': nat)
      requires reader.Valid() && Repr !! reader.Repr && e.nav.pos <= |e.nav.entries| && n <= |pending|
      requires Follows(e, pending[..n], sent, reprompt, doEcho)
      modifies this`escape, this`quote, Scratch, browser.confHist`pos, browser.execHist`pos, reader.Repr
      ensures reader.Valid()
      ensures old(Reading(reader, true, Closed, e, pending, n, sent, breakset, reprompt, doEcho)) ==>
                Reading(reader, go, outcome, e, pending, n', sent, breakset, reprompt, doEcho)
      ensures go ==> |reader.Incoming()| < |old(reader.Incoming())|
    {
      hide Follows, Ended, Run, Emission;
      ghost var reading := Reading(reader, true, Closed, e, pending, n, sent, breakset, reprompt, doEcho);
      var c;
      go, c, outcome := Pass(reader, breakset, reprompt, before, doEcho, e, pending[..n], sent);
      n' := n;
      if go && reading {
        assert pending[n..][0] == c;
        assert pending[..n] + [c] == pending[..n + 1];
        assert pending[n..][1..] == pending[n + 1..];
        NoneStopsAppend(e, pending[..n], c, breakset);
        n' := n + 1;
      }
    }

    method ReadKeys(reader: Reader, breakset: string, reprompt: string, before: char, doEcho: bool,
                    ghost e: Edit, ghost pending: string, ghost sent: string)
      returns (outcome: Outcome, ghost n: nat)
      requires reader.Valid() && Repr !! reader.Repr && e.nav.pos <= |e.nav.entries|
      requires Follows(e, "", sent, reprompt, doEcho) && pending == AsText(reader.Pending())
      modifies this`escape, this`quote, Scratch, browser.confHist`pos, browser.execHist`pos, reader.Repr
      ensures Valid() && reader.Valid()
      ensures n <= |pending| && NoneStops(e, pending[..n], breakset)
      ensures Stopped(outcome, Run(e, pending[..n]), breakset, pending, n, AsText(reader.Pending()))
      ensures State() == AfterKeys(e, pending[..n], outcome)
      ensures doEcho ==> display.shown == ShownThen(e, pending[..n], outcome)
      ensures doEcho ==> display.wire == sent + Emission(e, pending[..n], reprompt)
    {
      hide Run, Emission, IsLine, AllStorable, HoldsString;
      n := 0;
      outcome := Closed;
      var go := true;
      assert pending[..0] == "" && pending[0..] == pending;
      while go
        invariant Reading(reader, go, outcome, e, pending, n, sent, breakset, reprompt, doEcho)
        decreases go, |reader.Incoming()|
      {
        go, outcome, n := Turn(reader, breakset, reprompt, before, doEcho, e, pending, n, sent);
      }
      line.ZipText();
      EndingIsNext(outcome, pending, n);
    }

    /** readline: shows the prompt and the line, then reacts to the first `n` pending characters until
        the next one ends the line. With echo on, every byte sent is accounted for. The ghosts are the
        state, the pending characters and what was sent up to the first update, for the contract. */
    method Readline(reader: Reader, prompt: string, breakset: string, reprompt: string, before: char, doEcho: bool,
                    ghost e: Edit, ghost pending: string, ghost sent: string)
      returns (outcome: Outcome, ghost n: nat)
      requires Valid() && reader.Valid() && Repr !! reader.Repr
      requires e == State() && pending == AsText(reader.Pending()) && sent == display.wire + prompt + Update()
      modifies this`escape, this`quote, Scratch, browser.confHist`pos, browser.execHist`pos, reader.Repr
      ensures Valid() && reader.Valid() && e.nav.pos <= |e.nav.entries|
      ensures n <= |pending| && NoneStops(e, pending[..n], breakset)
      ensures Stopped(outcome, Run(e, pending[..n]), breakset, pending, n, AsText(reader.Pending()))
      ensures State() == AfterKeys(e, pending[..n], outcome)
      ensures doEcho ==> display.shown == ShownThen(e, pending[..n], outcome)
      ensures doEcho ==> display.wire == sent + Emission(e, pending[..n], reprompt)
      ensures mode == old(mode)
      ensures browser.confHist.Entries() == old(browser.confHist.Entries())
      ensures browser.execHist.Entries() == old(browser.execHist.Entries())
    {
      hide Follows, Run, Emission, NoneStops, Stopped, AfterKeys, ShownThen, IsLine, AllStorable, HoldsString, ZipOf;
      assert forall o :: o in {this, browser.confHist, browser.execHist} ==> o !in Scratch && o !in reader.Repr;
      assert browser.confHist.slots !in Scratch && browser.confHist.slots !in reader.Repr;
      assert browser.execHist.slots !in Scratch && browser.execHist.slots !in reader.Repr;
      ShowPrompt(prompt, reprompt, doEcho);
      outcome, n := ReadKeys(reader, breakset, reprompt, before, doEcho, e, pending, sent);
    }
  }

  /** How readline ended behind the first n of the pending characters, and what is left of them. */
  ghost predicate Stopped(outcome: Outcome, e: Edit, breakset: string, pending: string, n: nat, left: string) {
    match outcome
    case Closed => n == |pending| && left == ""
    case Broke(c) =>
      n < |pending| && pending[n] == c && c in breakset && Stops(e, c, breakset) && left == pending[n + 1..]
    case Cancelled =>
      && n < |pending| && pending[n] == CTRL_C && CTRL_C !in breakset && Stops(e, CTRL_C, breakset)
      && left == pending[n + 1..]
  }

  /** The state readline leaves. */
  function AfterKeys(e: Edit, keys: string, outcome: Outcome): Edit
    requires e.nav.pos <= |e.nav.entries|
  {
    if outcome == Cancelled then Reset(Run(e, keys)) else Run(e, keys)
  }

  /** The line readline leaves as shown. */
  function ShownThen(e: Edit, keys: string, outcome: Outcome): string
    requires e.nav.pos <= |e.nav.entries|
  {
    if outcome == Cancelled then "" else Line(Run(e, keys)).Text()
  }

  lemma EndingIsNext(outcome: Outcome, pending: string, n: nat)
    requires n <= |pending| && Ending(outcome) <= pending[n..]
    ensures outcome != Closed ==>
              n < |pending| && Ending(outcome) == [pending[n]] && AfterEnding(outcome, pending[n..]) == pending[n + 1..]
  {
    if outcome != Closed {
      assert pending[n..][0] == pending[n] && pending[n..][1..] == pending[n + 1..];
    }
  }

  /** The key readline consumed without reacting to it. */
  function Ending(o: Outcome): string {
    match o
    case Broke(c) => [c]
    case Cancelled => [CTRL_C]
    case Closed => ""
  }

  /** What is left of the pending characters behind the ending; nothing when the peer closed. */
  function AfterEnding(o: Outcome, rest: string): string {
    if o == Closed || rest == "" then "" else rest[1..]
  }

  lemma RunAppend(e: Edit, keys: string, c: char, prompt: string)
    requires e.nav.pos <= |e.nav.entries|
    ensures Run(e, keys + [c]) == React(Run(e, keys), c).0
    ensures Emission(e, keys + [c], prompt) == Emission(e, keys, prompt) + Paint(Run(e, keys), c, prompt)
  {
    assert (keys + [c])[..|keys|] == keys;
  }

  /** What a pass sends, as the editor sends it: a fresh prompt or a bell, then the update. */
  lemma PaintParts(e: Edit, c: char, prompt: string, sent: string, mid: string)
    requires e.nav.pos <= |e.nav.entries| && React(e, c).1 != Skip
    requires mid == if React(e, c).1 == Reprint then sent + ("\r\n" + prompt) else sent
    ensures var (e', r) := React(e, c);
            var was, now := Line(e), Line(e');
            var update := if r == Reprint then UpdateBytes("", 0, now.Text(), |now.left|)
                          else UpdateBytes(was.Text(), |was.left|, now.Text(), |now.left|);
            mid + (if r == Bell then [BELL] else []) + update == sent + Paint(e, c, prompt)
  {
    var (e', r) := React(e, c);
    var was, now := Line(e), Line(e');
    var update := if r == Reprint then UpdateBytes("", 0, now.Text(), |now.left|)
                  else UpdateBytes(was.Text(), |was.left|, now.Text(), |now.left|);
    match r {
      case Quiet =>
        assert mid + [] == sent;
      case Bell =>
        Regroup(sent, [BELL], update);
      case Reprint =>
        assert mid + [] == mid;
        Regroup(sent, "\r\n" + prompt, update);
    }
  }

  lemma SkipChangesNothing(e: Edit, c: char)
    requires e.nav.pos <= |e.nav.entries| && React(e, c).1 == Skip
    ensures React(e, c).0 == e
  {
  }
}
