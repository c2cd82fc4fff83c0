/** What Return and the other keys that end a line leave, and what the two histories hold over a whole
    session (vty.c:160-198, 231-249, 936-957, 1115-1147). */
module Logs {
  import opened Lists
  import opened Zippers
  import opened Histories
  import opened Editing
  import opened Keys
  import opened Tokens
  import opened Commands
  import opened Completion
  import opened Sessions

  // ---------- one line ----------

  /** A line of spaces has no words. */
  lemma SpacesHaveNoWords(line: string)
    requires AllSpaces(line)
    ensures Args(line) == []
  {
    assert line == seq(|line|, _ => ' ') + "";
    WordsOfSpaces(|line|, "");
    WordsOfNothing();
  }

  predicate EndsWith(entries: seq<string>, line: string) {
    entries != [] && entries[|entries| - 1] == line
  }

  lemma RecordedEndsWith(entries: seq<string>, line: string)
    requires Args(line) != []
    ensures EndsWith(Recorded(entries, line), line)
  {
    hide Args;
    if AllSpaces(line) {
      SpacesHaveNoWords(line);
    }
  }

  /** A handler runs iff the walk over the line's words ends at a complete command. */
  lemma HandlerRunsIff(f: Forest, root: Link<Cmd>, line: string, privilege: int)
    requires Commands.Closed(f) && root in f
    ensures HandlerRuns(f, root, line, privilege)
       <==> Args(line) != []
            && exists path, found :: Judged(f, root, Args(line), FIND, privilege, path, CMD_FOUND, found)
  {
    hide Args, Find, Judged;
    if Args(line) != [] {
      var (status, m) := Find(f, root, Args(line), FIND, privilege);
      var path := FoundIsJudged(f, root, Args(line), FIND, privilege);
      if path', found :| Judged(f, root, Args(line), FIND, privilege, path', CMD_FOUND, found) {
        JudgedIsFound(f, root, Args(line), FIND, privilege, path', CMD_FOUND, found);
      }
    }
  }

  /** Return: the line becomes empty, at the end of the history of the mode. If it had words it is now the
      newest entry of the history of the mode it was entered in, else both histories stay. Only a handler
      that ran changes the mode and the privilege. */
  lemma EnterRecords(f: Forest, s: Session, root: Link<Cmd>, normal: bool, privilege: int)
    requires Commands.Closed(f) && root in f
    ensures var line, s', runs := Line(s.e).Text(), AfterEnter(f, s, root, normal, privilege), HandlerRuns(f, root, Line(s.e).Text(), s.privilege);
            && Line(s'.e) == Zipper("", "") && s'.e.nav.pos == |s'.e.nav.entries| && !s'.e.escape
            && s'.normal == (if runs then normal else s.normal) && s'.privilege == (if runs then privilege else s.privilege)
            && HistoryOf(s', !s.normal) == HistoryOf(s, !s.normal)
            && (if Args(line) == [] then HistoryOf(s', s.normal) == HistoryOf(s, s.normal)
                else EndsWith(HistoryOf(s', s.normal), line))
  {
    hide Args, HandlerRuns, Recorded;
    var line := Line(s.e).Text();
    if Args(line) != [] {
      RecordedEndsWith(s.e.nav.entries, line);
    } else {
      NoWordsNoHandler(f, root, line, s.privilege);
    }
  }

  lemma NoWordsNoHandler(f: Forest, root: Link<Cmd>, line: string, privilege: int)
    requires Commands.Closed(f) && root in f && Args(line) == []
    ensures !HandlerRuns(f, root, line, privilege)
  {
  }

  /** So CTRL-N right behind Return shows the line that was entered, as the format it is used as makes it. */
  lemma EnteredLineComesBack(f: Forest, s: Session, root: Link<Cmd>, normal: bool, privilege: int)
    requires Commands.Closed(f) && root in f && !s.e.quote && Args(Line(s.e).Text()) != []
    ensures var line, s' := Line(s.e).Text(), AfterEnter(f, s, root, normal, privilege);
            s'.normal == s.normal ==>
              && s'.e.nav.pos <= |s'.e.nav.entries|
              && Line(React(s'.e, '\U{000E}').0) == Zipper(Recalled(line), "")
              && React(s'.e, '\U{000E}').1 == Quiet
  {
    hide Args, HandlerRuns, Recorded, Recalled, React, AfterEnter;
    var line, s' := Line(s.e).Text(), AfterEnter(f, s, root, normal, privilege);
    EnterRecords(f, s, root, normal, privilege);
    EnterKeepsQuote(f, s, root, normal, privilege);
    if s'.normal == s.normal {
      BrowsingKeys(s'.e);
      AtEnd(Recalled(line));
    }
  }

  lemma EnterKeepsQuote(f: Forest, s: Session, root: Link<Cmd>, normal: bool, privilege: int)
    requires Commands.Closed(f) && root in f
    ensures AfterEnter(f, s, root, normal, privilege).e.quote == s.e.quote
  {
    hide Args, HandlerRuns, Recorded;
  }

  /** The keys that end a line without entering it leave both histories, the mode and the privilege: CTRL-C
      empties the line at the end of the history, a question mark keeps it with the cursor at its end, and so
      does Tab what it makes of it. */
  lemma OtherEndsKeepHistories(f: Forest, s: Session, r: Round)
    requires Commands.Closed(f) && r.root in f && s.e.nav.pos <= |s.e.nav.entries|
    requires r.key in {None, Some('?'), Some('\t')}
    ensures var e, s' := Editing.Run(s.e, r.keys), AfterRound(f, s, r);
            var text := Line(e).Text();
            && HistoryOf(s', true) == HistoryOf(s, true) && HistoryOf(s', false) == HistoryOf(s, false)
            && s'.normal == s.normal && s'.privilege == s.privilege
            && match r.key
               case None => Line(s'.e) == Zipper("", "") && s'.e.nav.pos == |s.e.nav.entries| && !s'.e.escape
               case Some(c) => s'.e == Put(e, if c == '\t' then AfterTab(f, r.root, text, s.privilege) else text,
                                           if c == '\t' then |AfterTab(f, r.root, text, s.privilege)| else |text|)
  {
    hide Editing.Run, AfterTab, Args, HandlerRuns;
    RunKeepsEntries(s.e, r.keys);
    var text := Line(Editing.Run(s.e, r.keys)).Text();
    AtEnd(text);
    AtEnd(AfterTab(f, r.root, text, s.privilege));
    assert Line(Reset(Editing.Run(s.e, r.keys))).Text() == "";
  }

  // ---------- whole sessions ----------

  /** The history in use in the normal mode, and the one in use in the others. */
  function HistoryOf(s: Session, normal: bool): seq<string> {
    if s.normal == normal then s.e.nav.entries else s.other
  }

  lemma {:induction false} RunKeepsEntries(e: Edit, keys: string)
    requires e.nav.pos <= |e.nav.entries|
    ensures Editing.Run(e, keys).nav.entries == e.nav.entries
    decreases |keys|
  {
    if keys != [] {
      RunKeepsEntries(e, keys[..|keys| - 1]);
      ReactKeepsEntries(Editing.Run(e, keys[..|keys| - 1]), keys[|keys| - 1]);
    }
  }

  lemma ReactKeepsEntries(e: Edit, c: char)
    requires e.nav.pos <= |e.nav.entries|
    ensures React(e, c).0.nav.entries == e.nav.entries
  {
    hide EditLine, ControlOp, EscapeOp, Recalled;
  }

  /** The lines entered by Return in that mode, those without words left out. */
  ghost function Entered(f: Forest, s: Session, shown: string, rounds: seq<Round>, normal: bool): seq<string>
    requires Commands.Closed(f) && RootsIn(f, rounds) && s.e.nav.pos <= |s.e.nav.entries|
    decreases |rounds|
  {
    if rounds == [] then []
    else
      var init, r := rounds[..|rounds| - 1], rounds[|rounds| - 1];
      var m := SessionAfter(f, s, shown, init).0;
      var line := Line(Editing.Run(m.e, r.keys)).Text();
      Entered(f, s, shown, init, normal)
      + if r.key == Some('\r') && m.normal == normal && Args(line) != [] then [line] else []
  }

  /** What a round adds to the histories. */
  lemma RoundRecords(f: Forest, s: Session, r: Round, normal: bool)
    requires Commands.Closed(f) && r.root in f && s.e.nav.pos <= |s.e.nav.entries|
    ensures var line := Line(Editing.Run(s.e, r.keys)).Text();
            HistoryOf(AfterRound(f, s, r), normal)
              == if r.key == Some('\r') && s.normal == normal && Args(line) != [] then Recorded(HistoryOf(s, normal), line)
                 else HistoryOf(s, normal)
  {
    hide Editing.Run, AfterTab, Args, Find, Recorded;
    RunKeepsEntries(s.e, r.keys);
  }

  /** Over any session each history holds what recording the lines entered in its mode gives. */
  lemma {:induction false} HistoriesAreRecorded(f: Forest, s: Session, shown: string, rounds: seq<Round>, normal: bool,
                                                log: seq<string>)
    requires Commands.Closed(f) && RootsIn(f, rounds) && s.e.nav.pos <= |s.e.nav.entries|
    requires HistoryOf(s, normal) == RecordedAll(log)
    ensures HistoryOf(SessionAfter(f, s, shown, rounds).0, normal)
         == RecordedAll(log + Entered(f, s, shown, rounds, normal))
    decreases |rounds|
  {
    hide AfterRound, HistoryOf, Recorded, RecordedAll, Args, Editing.Run;
    if rounds == [] {
      assert log + [] == log;
    } else {
      var init, r := rounds[..|rounds| - 1], rounds[|rounds| - 1];
      HistoriesAreRecorded(f, s, shown, init, normal, log);
      var m := SessionAfter(f, s, shown, init).0;
      RoundRecords(f, m, r, normal);
      RecordedOneMore(log, Entered(f, s, shown, init, normal), Line(Editing.Run(m.e, r.keys)).Text());
    }
  }

  lemma RecordedOneMore(log: seq<string>, more: seq<string>, line: string)
    ensures RecordedAll(log + (more + [line])) == Recorded(RecordedAll(log + more), line)
    ensures log + (more + []) == log + more
  {
    var all := log + (more + [line]);
    assert all[..|all| - 1] == log + more;
  }

  /** The last ten of them without immediate repeats, whatever the changes of mode. */
  lemma HistoriesHoldTheLog(f: Forest, s: Session, shown: string, rounds: seq<Round>, normal: bool, log: seq<string>)
    requires Commands.Closed(f) && RootsIn(f, rounds) && s.e.nav.pos <= |s.e.nav.entries|
    requires HistoryOf(s, normal) == RecordedAll(log)
    ensures var all := log + Entered(f, s, shown, rounds, normal);
            HistoryOf(SessionAfter(f, s, shown, rounds).0, normal) == Last(Squeeze(NonBlank(all)), 10)
  {
    hide SessionAfter, Entered, RecordedAll, Squeeze, NonBlank;
    HistoriesAreRecorded(f, s, shown, rounds, normal, log);
    HistoryIsTailOfLog(log + Entered(f, s, shown, rounds, normal));
  }
}
