/** vty_main: a call of readline and what comes between two of them. The line is scanned, its command run
    or completed, and the editor left ready to draw the line on a fresh row (vty.c:900-957, 1115-1147). */
module Shells {
  import opened Limits
  import opened Sequences
  import opened Terminal
  import opened Lists
  import opened Redisplay
  import opened Zippers
  import opened LineBuffers
  import opened Histories
  import opened Browsers
  import opened Readers
  import opened Editing
  import opened Editors
  import opened Tokens
  import opened Scanners
  import opened Commands
  import opened CommandLists
  import opened Completion
  import opened Sessions

  const BREAKSET := "\r\t?"

  /** What a handler, help or an error message does that the session depends on: the mode and privilege
      it leaves, and what it prints. */
  datatype Effect = Effect(mode: nat, privilege: int, printed: string)

  /** Where a connection stands: the session, the remembered line and everything sent so far. */
  datatype Moment = Moment(s: Session, shown: string, sent: string)

  /** If the pending keys end a line by Tab, its match fits the buffer. */
  ghost predicate RoomAtTab(f: Forest, root: Link<Cmd>, privilege: int, e: Edit, pending: string)
    requires Commands.Closed(f) && root in f && e.nav.pos <= |e.nav.entries|
  {
    forall n :: 0 <= n < |pending| && pending[n] == '\t' && NoneStops(e, pending[..n], BREAKSET)
      && Stops(Editing.Run(e, pending[..n]), '\t', BREAKSET)
      ==> HasRoom(f, root, Line(Editing.Run(e, pending[..n])).Text(), privilege)
  }

  class Shell {
    const editor: Editor
    const argv: array<Option<string>>
    var argc: nat
    var privilege: int

    /** The parts of a connection, with all its texts consisting of bytes. */
    ghost predicate Valid()
      reads this, editor, editor.Repr
    {
      && editor.Valid() && argv.Length == MAX_ARGS && argv !in editor.Repr && this !in editor.Repr
      && SaneSession(Bytes, State())
    }

    ghost function State(): Session
      requires editor.Valid()
      reads this, editor, editor.Repr
    {
      Session(editor.State(), editor.Other().Entries(), editor.mode == 0, privilege)
    }

    ghost function Now(): Moment
      requires editor.Valid()
      reads this, editor, editor.Repr
    {
      Moment(State(), editor.display.shown, editor.display.wire)
    }

    constructor (editor: Editor, privilege: int)
      requires editor.Valid() && SaneNav(Bytes, editor.State().nav)
      requires AllLines(editor.browser.confHist.Entries()) && AllLines(editor.browser.execHist.Entries())
      ensures Valid() && fresh(argv) && this.editor == editor && this.privilege == privilege
    {
      this.editor, this.privilege, argc := editor, privilege, 0;
      argv := new Option<string>[MAX_ARGS](_ => None);
    }

    /** The line has been taken up: its words are in the argument vector. */
    ghost predicate TakenUp(line: string)
      requires Valid()
      reads this, argv, editor, editor.Repr
    {
      editor.line.Zip() == Zipper(line, "") && HoldsArgs(argv[..], Args(line)) && argc == |Args(line)|
    }

    /** At the end of readline the cursor goes to the end of the line and a new row is started. */
    method StartRow(key: Option<char>)
      requires Valid()
      modifies editor.line`ptr, editor.display`wire
      ensures Valid() && editor.line.Zip() == Zipper(old(editor.line.Line()), "")
      ensures State() == WithZip(old(State()), editor.line.Zip())
      ensures editor.display.wire == old(editor.display.wire) + ((if key == Some('?') then "?" else "") + "\r\n")
    {
      editor.line.ZipText();
      editor.line.ptr := editor.line.index;
      editor.display.Send((if key == Some('?') then "?" else "") + "\r\n");
      assert editor.line.Zip().Text() == old(editor.line.Line());
    }

    /** getline: the line is scanned into the argument vector. */
    method ScanLine(ghost line: string)
      requires Valid() && editor.line.Zip() == Zipper(line, "")
      modifies this`argc, argv
      ensures Valid() && TakenUp(line) && State() == old(State())
    {
      hide Args;
      editor.line.ZipText();
      var text := editor.line.buff[..editor.line.index];
      assert text == line + "" == line;
      assert Bytes.All(line);
      var scanner := new Scanner(text);
      var n := scanner.LexScan(argv);
      argc := n;
    }

    /** At a break key the line is taken up on a new row. */
    method TakeUp(key: Option<char>, ghost line: string)
      requires Valid() && editor.line.Line() == line
      modifies this`argc, argv, editor.line`ptr, editor.display`wire
      ensures Valid() && TakenUp(line) && State() == WithZip(old(State()), Zipper(line, ""))
      ensures editor.display.wire == old(editor.display.wire) + ((if key == Some('?') then "?" else "") + "\r\n")
      ensures editor.display.shown == old(editor.display.shown)
    {
      hide Args;
      StartRow(key);
      ScanLine(line);
    }

    /** What is printed, and old_ptr = rl_buff. */
    method Rearm(printed: string)
      requires Valid()
      modifies editor.display`oldPtr, editor.display`wire
      ensures Valid() && State() == old(State())
      ensures editor.display.oldPtr == 0 && editor.display.wire == old(editor.display.wire) + printed
    {
      editor.display.Send(printed);
      editor.display.oldPtr := 0;
    }

    /** The lookup of tabl_hdl. */
    method FindMatch(root: Link<Cmd>, ghost f: Forest, ghost line: string) returns (m: Option<string>)
      requires Valid() && TakenUp(line) && WellFormed(f) && root in f
      ensures m == MatchOf(f, root, line, privilege)
    {
      hide Find, Words, Nodes, Ring, Apart, Commands.Closed, SaneSession;
      editor.line.ZipText();
      assert line + "" == line;
      m := None;
      if argc > 0 && editor.line.ptr > 0 && editor.line.buff[editor.line.ptr - 1] != ' ' {
        var status, found := CmdFinder(argv, root, COMPLETE, privilege, f, Args(line));
        if status == CMD_FOUND {
          FindWithName(f, root, Args(line), privilege);
          m := Some(found.value.container.value.name);
        }
      }
    }

    /** cmd_complete on the connection, if there is a match. */
    method PrintMatch(m: Option<string>, ghost line: string)
      requires editor.Valid() && editor.line.Zip() == Zipper(line, "")
      requires m.Some? ==> HasInput(line) && '\0' !in m.value && WordStart(line) + |m.value| + 1 <= MAX_LINE
      modifies editor.line, editor.line.buff
      ensures editor.Valid()
      ensures State() == WithZip(old(State()), Zipper(if m.Some? then Completed(line, m.value) else line, ""))
    {
      editor.line.ZipText();
      assert line + "" == line;
      if m.Some? {
        CmdComplete(editor.line, m.value);
      }
    }

    /** tabl_hdl: completes the last word if the lookup finds its command. */
    method Tab(root: Link<Cmd>, ghost f: Forest, ghost line: string)
      requires Valid() && TakenUp(line) && WellFormed(f) && root in f
      requires HasRoom(f, root, line, privilege) && NamesIn(Bytes, f)
      modifies editor.line, editor.line.buff
      ensures Valid() && State() == WithZip(old(State()), Zipper(AfterTab(f, root, line, privilege), ""))
    {
      TabIsSane(State(), f, root, line, privilege);
      var m := FindMatch(root, f, line);
      hide MatchOf, AfterTab, HasRoom, NamesIn, SaneSession, Ring, Apart, Args, WellFormed;
      PrintMatch(m, line);
    }

    /** history_add of the line. */
    method RecordLine(ghost line: string)
      requires Valid() && TakenUp(line)
      modifies editor.browser.hist, editor.browser.hist.slots
      ensures Valid() && TakenUp(line) && State() == Logged(old(State()), line, editor.browser.hist.pos)
    {
      ghost var s := State();
      editor.line.ZipText();
      LineIsStorable(editor.line);
      RecordedKeeps(Bytes, s.e.nav.entries, line);
      var cmd := editor.line.buff[..editor.line.index];
      assert cmd == line + "" == line;
      hide Args, Recorded, SaneNav;
      editor.browser.Record(cmd);
      RecordedIsSane(s, line, editor.browser.hist.pos);
    }

    method SetPrivilege(to: int)
      requires Valid()
      modifies this`privilege
      ensures Valid()
      ensures var m := old(Now()); Now() == m.(s := m.s.(privilege := to))
    {
      privilege := to;
    }

    /** The handler's effect, if it runs, and reset_vty. */
    method Leave(runs: bool, effect: Effect)
      requires Valid()
      modifies this`privilege, editor.Repr
      ensures Valid()
      ensures var m := old(Now());
              Now() == Moment(if runs then Left(m.s, effect.mode == 0, effect.privilege)
                              else Left(m.s, m.s.normal, m.s.privilege), "", m.sent)
    {
      ghost var s := State();
      var to := if runs then effect.privilege else privilege;
      LeftIsSane(s, if runs then effect.mode == 0 else s.normal, to);
      LeftIsSane(s, if runs then effect.mode == 0 else s.normal, privilege);
      hide SaneSession, Reset;
      editor.Leave(if runs then effect.mode else editor.mode);
      SetPrivilege(to);
    }

    /** exec_hdl up to the handler: a line with words goes to the history, and its command is looked up. */
    method LookUp(root: Link<Cmd>, ghost f: Forest, ghost line: string)
      returns (runs: bool, status: Status, found: Option<Link<Cmd>>)
      requires Valid() && TakenUp(line) && WellFormed(f) && root in f
      modifies editor.Repr
      ensures Valid() && runs == HandlerRuns(f, root, line, privilege)
      ensures var m := old(Now());
              Now() == if Args(line) == [] then m else m.(s := Logged(m.s, line, State().e.nav.pos))
      ensures Args(line) != [] ==> (status, found) == Find(f, root, Args(line), FIND, privilege)
    {
      hide Cycle, Find, Args, Logged, Ring, Apart, Commands.Closed, SaneSession;
      status, found := CMD_INVALID, None;
      if argc > 0 {
        RecordLine(line);
        status, found := CmdFinder(argv, root, FIND, privilege, f, Args(line));
      }
      runs := argc > 0 && status == CMD_FOUND;
    }

    /** exec_hdl: after the lookup the handler of the command found runs; then the line is reset. */
    method Enter(root: Link<Cmd>, ghost f: Forest, ghost line: string, effect: Effect)
      returns (status: Status, found: Option<Link<Cmd>>)
      requires Valid() && TakenUp(line) && WellFormed(f) && root in f
      modifies this`privilege, editor.Repr
      ensures Valid()
      ensures var m := old(Now());
              Now() == Moment(AfterEnter(f, m.s, root, effect.mode == 0, effect.privilege), "", m.sent)
      ensures Args(line) != [] ==> (status, found) == Find(f, root, Args(line), FIND, old(privilege))
    {
      ghost var s := State();
      assert line + "" == line;
      assert Commands.Closed(f);
      hide WellFormed, Find, Args, Logged, Left, AfterEnter, HandlerRuns, Commands.Closed, SaneSession;
      var runs;
      runs, status, found := LookUp(root, f, line);
      LeftIsEnter(f, s, root, effect.mode == 0, effect.privilege, State().e.nav.pos);
      Leave(runs, effect);
    }

    /** The break key's handler. */
    method Dispatch(key: Option<char>, root: Link<Cmd>, ghost f: Forest, ghost line: string, effect: Effect)
      returns (status: Status, found: Option<Link<Cmd>>)
      requires Valid() && TakenUp(line) && WellFormed(f) && root in f && NamesIn(Bytes, f)
      requires key == Some('\t') ==> HasRoom(f, root, line, privilege)
      modifies this`privilege, editor.Repr
      ensures Valid()
      ensures var m := old(Now());
              Now() == Moment(Rest(f, m.s, root, key, effect.mode == 0, effect.privilege),
                              if key == Some('\r') then "" else m.shown, m.sent)
      ensures key == Some('\r') && Args(line) != [] ==>
                (status, found) == Find(f, root, Args(line), FIND, old(privilege))
    {
      hide Find, Args, Recorded, Ring, Apart, Commands.Closed, HasRoom, AfterTab, AfterEnter, SaneSession, NamesIn;
      assert line + "" == line;
      status, found := CMD_INVALID, None;
      if key == Some('\r') {
        status, found := Enter(root, f, line, effect);
      } else if key == Some('\t') {
        Tab(root, f, line);
      }
    }

    /** What vty_main does between two calls of readline: the line is taken up on a new row and its key
        handled, and the next call finds the state Rest gives, with old_ptr at the line's start. */
    method Finish(key: Option<char>, root: Link<Cmd>, ghost f: Forest, effect: Effect)
      returns (status: Status, found: Option<Link<Cmd>>)
      requires Valid() && WellFormed(f) && root in f && NamesIn(Bytes, f)
      requires key == Some('\t') ==> HasRoom(f, root, editor.line.Line(), privilege)
      modifies this`argc, this`privilege, argv, editor.Repr
      ensures Valid() && editor.display.oldPtr == 0
      ensures Now() == Finished(f, old(Now()), root, key, effect)
      ensures key == Some('\r') && Args(old(editor.line.Line())) != [] ==>
                (status, found) == Find(f, root, Args(old(editor.line.Line())), FIND, old(privilege))
    {
      hide Find, Args, Ring, Apart, Commands.Closed, HasRoom, Rest, SaneSession, NamesIn;
      ghost var line, s := editor.line.Line(), State();
      editor.line.ZipText();
      TakeUp(key, line);
      RestOfTakenUp(f, s, root, key, effect.mode == 0, effect.privilege);
      status, found := Dispatch(key, root, f, line, effect);
      Rearm(effect.printed);
    }

    /** What readline needs to draw the whole line: the cursor at its end, old_ptr at its start. */
    ghost predicate Ready()
      requires editor.Valid()
      reads this, editor, editor.Repr
    {
      editor.line.Zip().right == "" && editor.display.oldPtr == 0
    }

    /** The call of readline: of the characters pending it reacts to the first n, and the next one, if
        the peer has not closed, ends the line. */
    method ReadLine(reader: Reader, prompt: string, before: char, ghost m: Moment, ghost pending: string)
      returns (outcome: Outcome, ghost n: nat)
      requires Valid() && Ready() && reader.Valid() && editor.Repr !! reader.Repr && this !in reader.Repr
      requires m == Now() && pending == AsText(reader.Pending())
      modifies editor`escape, editor`quote, editor.Scratch, reader.Repr
      modifies editor.browser.confHist`pos, editor.browser.execHist`pos
      ensures Valid() && reader.Valid()
      ensures n <= |pending| && m.s.e.nav.pos <= |m.s.e.nav.entries|
      ensures RoundRead(m, pending, pending[..n], outcome, AsText(reader.Pending()))
      ensures Now() == Ended(m, prompt, pending[..n], outcome)
    {
      hide Editing.Run, Emission, NoneStops, SaneSession, Stopped, AfterKeys, ShownThen, UpdateBytes;
      PendingIsText(reader);
      ReadyBytes(editor);
      assert this !in editor.Scratch && this !in reader.Repr;
      outcome, n := editor.Readline(reader, prompt, BREAKSET, prompt, before, true,
                                    m.s.e, pending, m.sent + prompt + editor.Update());
      assert pending[..n] <= pending;
      AfterKeysIsSane(m.s, pending, n, outcome);
    }

    /** readline as the first part of a round. */
    method ReadPart(reader: Reader, prompt: string, before: char, root: Link<Cmd>, effect: Effect,
                    ghost m: Moment, ghost pending: string)
      returns (outcome: Outcome, ghost r: Round)
      requires Valid() && Ready() && reader.Valid() && editor.Repr !! reader.Repr && this !in reader.Repr
      requires m == Now() && pending == AsText(reader.Pending())
      modifies editor.Repr, reader.Repr
      ensures Valid() && reader.Valid()
      ensures r == RoundOf(root, prompt, r.keys, outcome, effect)
      ensures m.s.e.nav.pos <= |m.s.e.nav.entries|
      ensures RoundRead(m, pending, r.keys, outcome, AsText(reader.Pending()))
      ensures Now() == Ended(m, r.prompt, r.keys, outcome)
    {
      hide SaneSession, RoundRead, Ended;
      ghost var n;
      outcome, n := ReadLine(reader, prompt, before, m, pending);
      r := RoundOf(root, prompt, pending[..n], outcome, effect);
    }

    /** It leaves the command tree alone. */
    method ReadRound(reader: Reader, prompt: string, before: char, root: Link<Cmd>, ghost f: Forest, effect: Effect,
                     ghost m: Moment, ghost pending: string)
      returns (outcome: Outcome, ghost r: Round)
      requires Valid() && Ready() && reader.Valid() && editor.Repr !! reader.Repr && this !in reader.Repr
      requires WellFormed(f) && forall n :: n in Nodes(f) ==> n !in editor.Repr && n !in reader.Repr
      requires m == Now() && pending == AsText(reader.Pending())
      modifies editor.Repr, reader.Repr
      ensures Valid() && reader.Valid() && WellFormed(f)
      ensures r == RoundOf(root, prompt, r.keys, outcome, effect)
      ensures m.s.e.nav.pos <= |m.s.e.nav.entries|
      ensures RoundRead(m, pending, r.keys, outcome, AsText(reader.Pending()))
      ensures Now() == Ended(m, r.prompt, r.keys, outcome)
    {
      hide Cycle, Ring, Apart, Commands.Closed, RoundRead, Ended, SaneSession;
      outcome, r := ReadPart(reader, prompt, before, root, effect, m, pending);
    }

    /** The second part of a round. It leaves the reader alone. */
    method FinishRound(key: Option<char>, reader: Reader, root: Link<Cmd>, ghost f: Forest, effect: Effect)
      requires Valid() && WellFormed(f) && root in f && NamesIn(Bytes, f)
      requires key == Some('\t') ==> HasRoom(f, root, editor.line.Line(), privilege)
      requires reader.Valid() && editor.Repr !! reader.Repr && this !in reader.Repr && argv !in reader.Repr
      modifies this`argc, this`privilege, argv, editor.Repr
      ensures Valid() && Ready() && Now() == Finished(f, old(Now()), root, key, effect)
      ensures reader.Valid() && reader.Pending() == old(reader.Pending())
    {
      hide Rest, SaneSession, Ring, Apart, NamesIn, HasRoom, Find, Args, Editor.Valid;
      WellFormedIsClosed(f);
      RestEndsLine(f, State(), root, key, effect.mode == 0, effect.privilege);
      var status, found := Finish(key, root, f, effect);
    }

    /** One turn of vty_main's loop. Unless the peer closes, the state, the remembered line and every byte
        sent are those of one round of the session machine, which is then ready for the next. */
    method Turn(reader: Reader, prompt: string, before: char, root: Link<Cmd>, ghost f: Forest, effect: Effect)
      returns (outcome: Outcome, ghost r: Round)
      requires Valid() && Ready() && reader.Valid() && editor.Repr !! reader.Repr
      requires this !in reader.Repr && argv !in reader.Repr
      requires WellFormed(f) && root in f && NamesIn(Bytes, f)
      requires RoomAtTab(f, root, privilege, State().e, AsText(reader.Pending()))
      modifies this`argc, this`privilege, argv, editor.Repr, reader.Repr
      ensures Valid() && reader.Valid() && (outcome != Closed ==> Ready())
      ensures r == RoundOf(root, prompt, r.keys, outcome, effect)
      ensures RoundRead(old(Now()), old(AsText(reader.Pending())), r.keys, outcome, AsText(reader.Pending()))
      ensures Turned(f, old(Now()), r, outcome, Now())
    {
      hide Turned, RoundRead, RoomAtTab, Ended, Finished, SaneSession, Ring, Apart, NamesIn;
      ghost var m, pending := Now(), AsText(reader.Pending());
      assert forall n :: n in Nodes(f) ==> n !in editor.Repr && n !in reader.Repr;
      outcome, r := ReadRound(reader, prompt, before, root, f, effect, m, pending);
      RoomForKey(f, m, pending, r, outcome, AsText(reader.Pending()));
      EndedIsTurned(f, m, r, outcome);
      if outcome != Closed {
        FinishedIsTurned(f, m, root, prompt, r.keys, outcome, effect);
        editor.line.ZipText();
        hide HasRoom, Commands.Closed;
        FinishRound(KeyOf(outcome), reader, root, f, effect);
      }
    }

    /** Everything a turn rests on. */
    ghost predicate Connected(reader: Reader, f: Forest)
      reads this, editor, editor.Repr, reader, reader.Repr, Nodes(f)
    {
      && Valid() && reader.Valid() && editor.Repr !! reader.Repr && this !in reader.Repr && argv !in reader.Repr
      && WellFormed(f)
    }

    /** A turn leaves the command tree alone. */
    method Visited(reader: Reader, v: Visit, ghost f: Forest, ghost m: Moment, ghost pending: string)
      returns (outcome: Outcome, ghost r: Round)
      requires Connected(reader, f) && Ready() && v.root in f && NamesIn(Bytes, f)
      requires m == Now() && pending == AsText(reader.Pending())
      requires RoomAtTab(f, v.root, m.s.privilege, m.s.e, pending)
      modifies this`argc, this`privilege, argv, editor.Repr, reader.Repr
      ensures Connected(reader, f) && (outcome != Closed ==> Ready())
      ensures r == RoundAt(v, r.keys, outcome) && m.s.e.nav.pos <= |m.s.e.nav.entries|
      ensures RoundRead(m, pending, r.keys, outcome, AsText(reader.Pending()))
      ensures Turned(f, m, r, outcome, Now())
    {
      hide Turned, RoundRead, RoomAtTab, WellFormed, NamesIn, Commands.Closed;
      NodesAreApart(editor, reader, f);
      hide Shell.Valid, Editor.Valid, Reader.Valid;
      outcome, r := Turn(reader, v.prompt, v.before, v.root, f, v.effect);
    }

    /** The loop has come to this point: while the connection is open, state, remembered line and every byte
        sent are those of the session machine over the rounds the characters received so far make up. */
    ghost predicate Serving(reader: Reader, f: Forest, m: Moment, pending: string, visits: seq<Visit>, open: bool,
                            rounds: seq<Round>, mid: Moment, left: string)
      requires VisitsIn(f, visits) && m.s.e.nav.pos <= |m.s.e.nav.entries|
      reads this, editor, editor.Repr, reader, reader.Repr, Nodes(f)
    {
      && Connected(reader, f)
      && var now, rest := Now(), AsText(reader.Pending());
         if open then
           && Ready() && Served(f, m, pending, visits, rounds, now, rest) && now.s.e.nav.pos <= |now.s.e.nav.entries|
           && RoomThroughout(f, now, rest, visits[|rounds|..])
         else HungUp(f, m, pending, visits, rounds, mid, left, now, rest)
    }

    lemma ServingStarts(reader: Reader, visits: seq<Visit>, f: Forest)
      requires Connected(reader, f) && Ready() && VisitsIn(f, visits)
      requires RoomThroughout(f, Now(), AsText(reader.Pending()), visits)
      ensures Now().s.e.nav.pos <= |Now().s.e.nav.entries|
      ensures Serving(reader, f, Now(), AsText(reader.Pending()), visits, true, [], Now(), AsText(reader.Pending()))
    {
      hide RoomThroughout, WellFormed, Served;
      WellFormedIsClosed(f);
      ServedNothing(f, Now(), AsText(reader.Pending()), visits);
      assert visits[0..] == visits;
    }

    lemma ServingHasRoom(reader: Reader, visits: seq<Visit>, f: Forest, m: Moment, pending: string,
                         rounds: seq<Round>, mid: Moment, left: string)
      requires VisitsIn(f, visits) && m.s.e.nav.pos <= |m.s.e.nav.entries| && |rounds| < |visits|
      ensures Serving(reader, f, m, pending, visits, true, rounds, mid, left) ==>
                && Connected(reader, f) && Ready()
                && RoomAtTab(f, visits[|rounds|].root, privilege, State().e, AsText(reader.Pending()))
    {
      hide RoomAtTab, Served, Editor.Valid, Reader.Valid, SaneSession, RoomThroughout, Next, RoundRead;
      if Serving(reader, f, m, pending, visits, true, rounds, mid, left) {
        RoomForNext(f, Now(), AsText(reader.Pending()), visits, |rounds|);
      }
    }

    /** A turn takes an open connection one round further, or to its close. */
    method ServeOne(reader: Reader, v: Visit, ghost visits: seq<Visit>, ghost f: Forest, ghost m: Moment,
                    ghost pending: string, ghost was: seq<Round>, ghost mid0: Moment, ghost left0: string)
      returns (open: bool, ghost rounds: seq<Round>, ghost mid: Moment, ghost left: string)
      requires Connected(reader, f) && Ready() && NamesIn(Bytes, f)
      requires VisitsIn(f, visits) && m.s.e.nav.pos <= |m.s.e.nav.entries| && |was| < |visits| && v == visits[|was|]
      requires RoomAtTab(f, v.root, privilege, State().e, AsText(reader.Pending()))
      modifies this`argc, this`privilege, argv, editor.Repr, reader.Repr
      ensures open ==> |rounds| == |was| + 1
      ensures old(Serving(reader, f, m, pending, visits, true, was, mid0, left0)) ==>
                Serving(reader, f, m, pending, visits, open, rounds, mid, left)
    {
      hide Turned, RoundRead, RoomAtTab, Served, HungUp, WellFormed, NamesIn, Commands.Closed, RoomThroughout, Next,
           SaneSession, Editor.Valid, Reader.Valid;
      ghost var serving := Serving(reader, f, m, pending, visits, true, was, mid0, left0);
      mid, left := Now(), AsText(reader.Pending());
      WellFormedIsClosed(f);
      var outcome;
      ghost var r;
      outcome, r := Visited(reader, v, f, mid, left);
      open, rounds := outcome != Closed, if outcome == Closed then was else was + [r];
      if serving {
        RoomForNext(f, mid, left, visits, |was|);
        ServedFurther(f, m, pending, visits, was, mid, left, r, outcome, Now(), AsText(reader.Pending()));
      }
    }

    /** The loop of vty_main, for as many turns as are given or until the peer closes. */
    method Serve(reader: Reader, visits: seq<Visit>, ghost f: Forest)
      returns (open: bool, ghost rounds: seq<Round>, ghost mid: Moment, ghost left: string)
      requires Connected(reader, f) && Ready() && VisitsIn(f, visits) && NamesIn(Bytes, f)
      requires RoomThroughout(f, Now(), AsText(reader.Pending()), visits)
      modifies this`argc, this`privilege, argv, editor.Repr, reader.Repr
      ensures open ==> |rounds| == |visits|
      ensures Serving(reader, f, old(Now()), old(AsText(reader.Pending())), visits, open, rounds, mid, left)
    {
      hide RoomThroughout, WellFormed, NamesIn, Ready, Serving, SaneSession, Editor.Valid, Reader.Valid, Now;
      ghost var m, pending := Now(), AsText(reader.Pending());
      open, rounds, mid, left := true, [], m, pending;
      ServingStarts(reader, visits, f);
      var i := 0;
      while open && i < |visits|
        invariant open ==> i == |rounds| <= |visits|
        invariant Serving(reader, f, m, pending, visits, open, rounds, mid, left)
        decreases open, |visits| - i
      {
        ServingHasRoom(reader, visits, f, m, pending, rounds, mid, left);
        open, rounds, mid, left := ServeOne(reader, visits[i], visits, f, m, pending, rounds, mid, left);
        i := i + 1;
      }
    }
  }

  // ---------- many turns ----------

  /** What a turn takes from elsewhere: the menu and prompt of the mode, the byte in front of the line
      buffer, and what a handler does. */
  datatype Visit = Visit(root: Link<Cmd>, prompt: string, before: char, effect: Effect)

  function RoundAt(v: Visit, keys: string, outcome: Outcome): Round {
    RoundOf(v.root, v.prompt, keys, outcome, v.effect)
  }

  predicate VisitsIn(f: Forest, visits: seq<Visit>) {
    forall i :: 0 <= i < |visits| ==> visits[i].root in f
  }

  /** The key that ended a round. */
  function EndOf(r: Round): char {
    if r.key.Some? then r.key.value else CTRL_C
  }

  /** The characters the rounds consumed. */
  function Typed(rounds: seq<Round>): string {
    if rounds == [] then ""
    else
      var r := rounds[|rounds| - 1];
      Typed(rounds[..|rounds| - 1]) + r.keys + [EndOf(r)]
  }

  ghost function MomentAfter(f: Forest, m: Moment, rounds: seq<Round>): (m': Moment)
    requires Commands.Closed(f) && RootsIn(f, rounds) && m.s.e.nav.pos <= |m.s.e.nav.entries|
    ensures m'.s.e.nav.pos <= |m'.s.e.nav.entries|
  {
    var (s, shown) := SessionAfter(f, m.s, m.shown, rounds);
    Moment(s, shown, m.sent + SessionBytes(f, m.s, m.shown, rounds))
  }

  /** The round is that of the visit, and its end is the first key to end a line. */
  ghost predicate Fulfils(m: Moment, v: Visit, r: Round)
    requires m.s.e.nav.pos <= |m.s.e.nav.entries|
  {
    && r == RoundAt(v, r.keys, if r.key.Some? then Broke(r.key.value) else Cancelled)
    && NoneStops(m.s.e, r.keys, BREAKSET) && Stops(Editing.Run(m.s.e, r.keys), EndOf(r), BREAKSET)
  }

  /** The first of the pending characters make up the rounds, one for each of the first visits, and the
      rounds lead to that moment. */
  ghost predicate Served(f: Forest, m: Moment, pending: string, visits: seq<Visit>, rounds: seq<Round>,
                         m': Moment, left: string)
    requires Commands.Closed(f) && m.s.e.nav.pos <= |m.s.e.nav.entries|
  {
    && RootsIn(f, rounds) && |rounds| <= |visits| && pending == Typed(rounds) + left
    && m' == MomentAfter(f, m, rounds)
    && forall i :: 0 <= i < |rounds| ==> Fulfils(MomentAfter(f, m, rounds[..i]), visits[i], rounds[i])
  }

  /** The peer closed in the call of readline behind the rounds, when all that was left had been read. */
  ghost predicate HungUp(f: Forest, m: Moment, pending: string, visits: seq<Visit>, rounds: seq<Round>,
                         mid: Moment, left: string, now: Moment, rest: string)
    requires Commands.Closed(f) && VisitsIn(f, visits) && m.s.e.nav.pos <= |m.s.e.nav.entries|
  {
    && |rounds| < |visits| && Served(f, m, pending, visits, rounds, mid, left) && rest == ""
    && NoneStops(mid.s.e, left, BREAKSET)
    && Turned(f, mid, RoundAt(visits[|rounds|], left, Closed), Closed, now)
  }

  /** Wherever the pending characters lead, the match of a Tab fits the buffer. */
  ghost predicate RoomThroughout(f: Forest, m: Moment, pending: string, visits: seq<Visit>)
    requires Commands.Closed(f) && VisitsIn(f, visits) && m.s.e.nav.pos <= |m.s.e.nav.entries|
    decreases |visits|
  {
    visits == [] ||
    (&& RoomAtTab(f, visits[0].root, m.s.privilege, m.s.e, pending)
     && forall keys, outcome, left :: outcome != Closed && RoundRead(m, pending, keys, outcome, left) ==>
          RoomThroughout(f, Next(f, m, RoundAt(visits[0], keys, outcome)), left, visits[1..]))
  }

  lemma RoomForNext(f: Forest, m: Moment, pending: string, visits: seq<Visit>, i: nat)
    requires Commands.Closed(f) && VisitsIn(f, visits) && m.s.e.nav.pos <= |m.s.e.nav.entries|
    requires i < |visits| && RoomThroughout(f, m, pending, visits[i..])
    ensures RoomAtTab(f, visits[i].root, m.s.privilege, m.s.e, pending)
    ensures forall keys, outcome, left :: outcome != Closed && RoundRead(m, pending, keys, outcome, left) ==>
              RoomThroughout(f, Next(f, m, RoundAt(visits[i], keys, outcome)), left, visits[i + 1..])
  {
    hide RoomAtTab, RoundRead, Next;
    assert visits[i..][1..] == visits[i + 1..] && visits[i..][0] == visits[i];
  }

  lemma ServedNothing(f: Forest, m: Moment, pending: string, visits: seq<Visit>)
    requires Commands.Closed(f) && m.s.e.nav.pos <= |m.s.e.nav.entries|
    ensures Served(f, m, pending, visits, [], m, pending)
  {
    assert m.sent + "" == m.sent;
  }

  lemma MomentAfterStep(f: Forest, m: Moment, rounds: seq<Round>, r: Round)
    requires Commands.Closed(f) && RootsIn(f, rounds) && r.root in f && m.s.e.nav.pos <= |m.s.e.nav.entries|
    ensures RootsIn(f, rounds + [r])
    ensures MomentAfter(f, m, rounds + [r]) == Next(f, MomentAfter(f, m, rounds), r)
  {
    hide AfterRound, ShownAfter, RoundBytes;
    assert (rounds + [r])[..|rounds|] == rounds;
    var sh := SessionAfter(f, m.s, m.shown, rounds);
    Regroup(m.sent, SessionBytes(f, m.s, m.shown, rounds), RoundBytes(sh.0.e, sh.1, r));
  }

  /** A turn extends the rounds by its own, or the peer has hung up. */
  lemma ServedFurther(f: Forest, m: Moment, pending: string, visits: seq<Visit>, rounds: seq<Round>,
                      mid: Moment, left: string, r: Round, outcome: Outcome, now: Moment, rest: string)
    requires Commands.Closed(f) && VisitsIn(f, visits) && m.s.e.nav.pos <= |m.s.e.nav.entries|
    requires |rounds| < |visits| && r == RoundAt(visits[|rounds|], r.keys, outcome)
    requires mid.s.e.nav.pos <= |mid.s.e.nav.entries|
    ensures Served(f, m, pending, visits, rounds, mid, left) && RoundRead(mid, left, r.keys, outcome, rest)
            && Turned(f, mid, r, outcome, now) ==>
              if outcome == Closed then HungUp(f, m, pending, visits, rounds, mid, left, now, rest)
              else && Served(f, m, pending, visits, rounds + [r], now, rest)
                   && now == Next(f, mid, r) && now.s.e.nav.pos <= |now.s.e.nav.entries|
  {
    hide MomentAfter, Editing.Run, NoneStops, Next, ReadlineBytes;
    if !Served(f, m, pending, visits, rounds, mid, left) || !RoundRead(mid, left, r.keys, outcome, rest)
       || !Turned(f, mid, r, outcome, now) {
    } else if outcome == Closed {
      assert r.keys == left;
    } else {
      var all := rounds + [r];
      MomentAfterStep(f, m, rounds, r);
      assert left == r.keys + [EndOf(r)] + rest;
      assert all[..|rounds|] == rounds;
      forall i | 0 <= i < |all|
        ensures Fulfils(MomentAfter(f, m, all[..i]), visits[i], all[i])
      {
        assert i < |rounds| ==> all[..i] == rounds[..i];
      }
    }
  }

  /** Where the bytes the program sent meet the session theorem: when the peer closes, whatever it typed
      and whatever the handlers did, the row shows the line that is in the buffer, the cursor in place. */
  lemma HungUpIsShown(screen: Screen, f: Forest, m: Moment, pending: string, visits: seq<Visit>, rounds: seq<Round>,
                      mid: Moment, left: string, now: Moment)
    requires Commands.Closed(f) && VisitsIn(f, visits) && NamesIn(Visible, f) && EndsRow(m.sent)
    requires SaneSession(Visible, m.s) && Line(m.s.e).right == ""
    ensures HungUp(f, m, pending, visits, rounds, mid, left, now, "")
            && GoodSession(f, m.s, m.shown, rounds) && CleanKeys(mid.s.e, left) && Printable(visits[|rounds|].prompt) ==>
              var p := visits[|rounds|].prompt;
              && Shows(Replay(screen, now.sent), BaseAfterAll(mid.s.e, left, |p|, p),
                       Line(now.s.e).Text(), Line(now.s.e).Cursor())
  {
    hide Editing.Run, ReadlineBytes, SessionAfter, SessionBytes, GoodSession, CleanKeys, NamesIn, EndsRow;
    if HungUp(f, m, pending, visits, rounds, mid, left, now, "")
       && GoodSession(f, m.s, m.shown, rounds) && CleanKeys(mid.s.e, left) && Printable(visits[|rounds|].prompt) {
      SessionIsShown(screen, m.sent, f, m.s, m.shown, rounds, left, visits[|rounds|].prompt);
    }
  }

  /** The moment a round leads to. */
  ghost function Next(f: Forest, m: Moment, r: Round): Moment
    requires Commands.Closed(f) && r.root in f && m.s.e.nav.pos <= |m.s.e.nav.entries|
  {
    Moment(AfterRound(f, m.s, r), ShownAfter(m.s.e, r), m.sent + RoundBytes(m.s.e, m.shown, r))
  }

  /** One turn led from the first moment to the second: by a round, or, when the peer closed, by
      readline's part of it. */
  ghost predicate Turned(f: Forest, m: Moment, r: Round, outcome: Outcome, m': Moment)
    requires Commands.Closed(f) && r.root in f && m.s.e.nav.pos <= |m.s.e.nav.entries|
  {
    if outcome == Closed then
      var e := Editing.Run(m.s.e, r.keys);
      m' == Moment(m.s.(e := e), Line(e).Text(), m.sent + ReadlineBytes(m.s.e, m.shown, r.keys, r.prompt))
    else m' == Next(f, m, r)
  }

  /** The moment when readline has ended. */
  function Ended(m: Moment, prompt: string, keys: string, outcome: Outcome): Moment
    requires m.s.e.nav.pos <= |m.s.e.nav.entries|
  {
    var text := Line(m.s.e).Text();
    Moment(m.s.(e := AfterKeys(m.s.e, keys, outcome)), ShownThen(m.s.e, keys, outcome),
           m.sent + prompt + UpdateBytes(m.shown, 0, text, |text|) + Emission(m.s.e, keys, prompt))
  }

  lemma EndedIsTurned(f: Forest, m: Moment, r: Round, outcome: Outcome)
    requires Commands.Closed(f) && r.root in f && m.s.e.nav.pos <= |m.s.e.nav.entries|
    ensures Ended(m, r.prompt, r.keys, outcome).sent == m.sent + ReadlineBytes(m.s.e, m.shown, r.keys, r.prompt)
    ensures outcome == Closed ==> Turned(f, m, r, outcome, Ended(m, r.prompt, r.keys, outcome))
  {
    hide Editing.Run, Emission, UpdateBytes;
  }

  lemma NodesAreApart(editor: Editor, reader: Reader, f: Forest)
    requires editor.Valid() && reader.Valid()
    ensures forall n :: n in Nodes(f) ==> n !in editor.Repr && n !in reader.Repr
  {
  }

  lemma RestEndsLine(f: Forest, s: Session, root: Link<Cmd>, key: Option<char>, normal: bool, privilege: int)
    requires Commands.Closed(f) && root in f
    ensures Line(Rest(f, s, root, key, normal, privilege).e).right == ""
  {
  }

  /** The moment after what comes between two calls of readline. */
  ghost function Finished(f: Forest, m: Moment, root: Link<Cmd>, key: Option<char>, effect: Effect): Moment
    requires Commands.Closed(f) && root in f
  {
    Moment(Rest(f, m.s, root, key, effect.mode == 0, effect.privilege),
           if key == Some('\r') then "" else m.shown,
           m.sent + ((if key == Some('?') then "?" else "") + "\r\n") + effect.printed)
  }

  lemma FinishedIsTurned(f: Forest, m: Moment, root: Link<Cmd>, prompt: string, keys: string, outcome: Outcome,
                         effect: Effect)
    requires Commands.Closed(f) && root in f && m.s.e.nav.pos <= |m.s.e.nav.entries| && outcome != Closed
    ensures var r := RoundOf(root, prompt, keys, outcome, effect);
            Turned(f, m, r, outcome, Finished(f, Ended(m, prompt, keys, outcome), root, r.key, effect))
  {
    hide Editing.Run, Emission, UpdateBytes, Rest, ReadlineBytes;
    EndedIsTurned(f, m, RoundOf(root, prompt, keys, outcome, effect), outcome);
  }

  /** The keys that end a line: Return, Tab, the question mark and CTRL-C, unless they are quoted or behind
      ESC. vty_main sees CTRL-C as no key. */
  lemma EndingKeysAre(e: Edit, c: char)
    ensures Stops(e, c, BREAKSET) <==> !e.escape && !e.quote && c in {'\r', '\t', '?', '\U{0003}'}
    ensures KeyOf(Cancelled) == None && KeyOf(Broke(c)) == Some(c)
  {
  }

  /** The key vty_main switches on. */
  function KeyOf(outcome: Outcome): Option<char> {
    if outcome.Broke? then Some(outcome.key) else None
  }

  function RoundOf(root: Link<Cmd>, prompt: string, keys: string, outcome: Outcome, effect: Effect): Round {
    Round(root, prompt, keys, KeyOf(outcome), effect.mode == 0, effect.privilege, effect.printed)
  }

  /** Of the pending characters the keys are those in front of the first that ends the line. */
  ghost predicate RoundRead(m: Moment, pending: string, keys: string, outcome: Outcome, left: string)
    requires m.s.e.nav.pos <= |m.s.e.nav.entries|
  {
    && keys <= pending && NoneStops(m.s.e, keys, BREAKSET)
    && Stopped(outcome, Editing.Run(m.s.e, keys), BREAKSET, pending, |keys|, left)
  }

  lemma ReadyBytes(editor: Editor)
    requires editor.Valid() && editor.line.Zip().right == "" && editor.display.oldPtr == 0
    ensures var text := Line(editor.State()).Text();
            editor.Update() == UpdateBytes(editor.display.shown, 0, text, |text|)
  {
    editor.line.ZipText();
    assert editor.line.Zip().left + "" == editor.line.Zip().left;
  }

  lemma RoomForKey(f: Forest, m: Moment, pending: string, r: Round, outcome: Outcome, left: string)
    requires Commands.Closed(f) && r.root in f && m.s.e.nav.pos <= |m.s.e.nav.entries|
    requires RoomAtTab(f, r.root, m.s.privilege, m.s.e, pending) && RoundRead(m, pending, r.keys, outcome, left)
    ensures KeyOf(outcome) == Some('\t') ==>
              HasRoom(f, r.root, Line(Ended(m, r.prompt, r.keys, outcome).s.e).Text(), m.s.privilege)
  {
    hide Editing.Run, HasRoom, NoneStops;
    assert pending[..|r.keys|] == r.keys;
  }

  lemma AfterKeysIsSane(s: Session, pending: string, n: nat, outcome: Outcome)
    requires SaneSession(Bytes, s) && Bytes.All(pending) && n <= |pending|
    ensures SaneSession(Bytes, s.(e := AfterKeys(s.e, pending[..n], outcome)))
  {
    hide Editing.Run;
    RunKeepsBytes(s.e, pending[..n]);
    assert Zipper("", "").Text() == "";
  }

  /** The session with the line recorded. */
  function Logged(s: Session, line: string, pos: nat): Session {
    s.(e := s.e.(nav := s.e.nav.(entries := Recorded(s.e.nav.entries, line), pos := pos)))
  }

  /** The session with the line reset, in the history of the mode. */
  function Left(s: Session, normal: bool, privilege: int): Session {
    if normal == s.normal then Session(Reset(s.e), s.other, normal, privilege)
    else Session(Reset(s.e.(nav := s.e.nav.(entries := s.other))), s.e.nav.entries, normal, privilege)
  }

  lemma LeftIsEnter(f: Forest, s: Session, root: Link<Cmd>, normal: bool, privilege: int, pos: nat)
    requires Commands.Closed(f) && root in f
    ensures var line := Line(s.e).Text();
            var m := if Args(line) == [] then s else Logged(s, line, pos);
            (if HandlerRuns(f, root, line, s.privilege) then Left(m, normal, privilege)
             else Left(m, s.normal, s.privilege)) == AfterEnter(f, s, root, normal, privilege)
  {
    hide Args, Find, Recorded;
  }

  lemma LeftIsSane(s: Session, normal: bool, privilege: int)
    requires SaneSession(Bytes, s)
    ensures SaneSession(Bytes, Left(s, normal, privilege))
  {
    assert Zipper("", "").Text() == "";
  }

  lemma LineIsStorable(line: LineBuffer)
    requires line.Valid()
    ensures Storable(line.Line())
  {
  }

  lemma RecordedIsSane(s: Session, line: string, pos: nat)
    requires SaneSession(Bytes, s) && pos <= |Recorded(s.e.nav.entries, line)|
    requires AllLines(Recorded(s.e.nav.entries, line))
    ensures SaneSession(Bytes, Logged(s, line, pos))
  {
  }

  lemma RestOfTakenUp(f: Forest, s: Session, root: Link<Cmd>, key: Option<char>, normal: bool, privilege: int)
    requires Commands.Closed(f) && root in f
    ensures Rest(f, WithZip(s, Zipper(Line(s.e).Text(), "")), root, key, normal, privilege)
         == Rest(f, s, root, key, normal, privilege)
  {
    hide Args, HandlerRuns, AfterTab;
    assert Line(s.e).Text() + "" == Line(s.e).Text();
  }

  /** What Tab needs and leaves. */
  lemma TabIsSane(s: Session, f: Forest, root: Link<Cmd>, line: string, privilege: int)
    requires Commands.Closed(f) && root in f && HasRoom(f, root, line, privilege) && NamesIn(Bytes, f)
    requires SaneSession(Bytes, s) && Line(s.e) == Zipper(line, "")
    ensures SaneSession(Bytes, WithZip(s, Zipper(AfterTab(f, root, line, privilege), "")))
    ensures var m := MatchOf(f, root, line, privilege);
            if m.None? then AfterTab(f, root, line, privilege) == line
            else HasInput(line) && '\0' !in m.value && WordStart(line) + |m.value| + 1 <= MAX_LINE
                 && AfterTab(f, root, line, privilege) == Completed(line, m.value)
  {
    assert line + "" == line;
    var now := AfterTab(f, root, line, privilege);
    MatchIsName(Bytes, f, root, line, privilege);
    AfterTabIsLineText(Bytes, f, root, line, privilege);
    MatchHasInput(f, root, line, privilege);
    hide MatchOf, NamesIn, Commands.Closed;
    assert now + "" == now;
  }

  lemma MatchHasInput(f: Forest, root: Link<Cmd>, line: string, privilege: int)
    requires Commands.Closed(f) && root in f
    ensures MatchOf(f, root, line, privilege).Some? ==> HasInput(line)
  {
  }

  ghost predicate AllLines(lines: seq<string>) {
    forall i :: 0 <= i < |lines| ==> IsLineText(Bytes, lines[i])
  }

  function WithZip(s: Session, z: Zipper): Session {
    s.(e := WithLine(s.e, z))
  }
}
