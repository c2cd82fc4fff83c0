/** Whole sessions: calls of readline with what vty_main does between them, and the proof that the
    screen shows the line after every key (vty.c:900-957, 1121-1147). */
module Sessions {
  import opened Limits
  import opened Lists
  import opened Terminal
  import opened Redisplay
  import opened Zippers
  import opened Histories
  import opened Editing
  import opened Tokens
  import opened Commands
  import opened CommandLists
  import opened Completion

  // ---------- the fresh row ----------

  /** From a row that was just started, readline draws its prompt and the whole line, whatever line was
      drawn before it, and keeps the screen up to date over any keys. */
  lemma ReadlineIsShown(s: Screen, sent: string, prompt: string, stale: string, e: Edit, keys: string, reprompt: string)
    requires Sane(e) && CleanKeys(e, keys) && Printable(prompt) && Printable(reprompt) && Line(e).right == ""
    ensures var text := Line(e).Text();
            var bytes := sent + "\r\n" + prompt + UpdateBytes(stale, 0, text, |text|) + Emission(e, keys, reprompt);
            var z := Line(Editing.Run(e, keys));
            Shows(Replay(s, bytes), BaseAfterAll(e, keys, |prompt|, reprompt), z.Text(), z.Cursor())
  {
    hide Emission, BaseAfterAll, Editing.Run, UpdateBytes, Sane, CleanKeys;
    var text := Line(e).Text();
    assert text == Line(e).left;
    var prompted := sent + "\r\n" + prompt;
    var drawn := prompted + UpdateBytes(stale, 0, text, |text|);
    ReplayConcat(s, sent, "\r\n" + prompt);
    assert sent + ("\r\n" + prompt) == prompted;
    ReplayPrompt(Replay(s, sent), prompt);
    SaneLineIsPrintable(e);
    RepaintOnBlankRow(Replay(s, prompted), |prompt|, stale, text);
    ReplayConcat(s, prompted, UpdateBytes(stale, 0, text, |text|));
    ScreenFollowsEveryRun(Replay(s, drawn), |prompt|, e, keys, reprompt);
    ReplayConcat(s, drawn, Emission(e, keys, reprompt));
  }

  // ---------- completion in the session ----------

  /** The lookup answers with a command of the forest. */
  lemma {:induction false} FoundIsMember(f: Forest, h: Link<Cmd>, words: seq<string>, act: Action, privilege: int)
    requires Commands.Closed(f) && h in f && words != []
    ensures var m := Find(f, h, words, act, privilege).1;
            m.Some? ==> m.value in Nodes(f) && m.value.container.Some?
    decreases |words|
  {
    var c := Candidates(f[h], words[0], privilege);
    if c != [] {
      assert c[0] in f[h] && Fits(c[0], words[0], privilege);
      if |words| > 1 {
        FoundIsMember(f, ChildOf(c[0]), words[1..], act, privilege);
      }
    }
  }

  /** The name Tab prints: that of the command the words of a line that ends in input lead to. */
  ghost function MatchOf(f: Forest, root: Link<Cmd>, line: string, privilege: int): Option<string>
    requires Commands.Closed(f) && root in f
  {
    if !HasInput(line) || Args(line) == [] then None
    else
      var (status, m) := Find(f, root, Args(line), COMPLETE, privilege);
      if status == CMD_FOUND && m.Some? && m.value.container.Some? then Some(Name(m.value)) else None
  }

  /** The line a Tab leaves. */
  ghost function AfterTab(f: Forest, root: Link<Cmd>, line: string, privilege: int): string
    requires Commands.Closed(f) && root in f
  {
    match MatchOf(f, root, line, privilege)
    case None => line
    case Some(name) => Completed(line, name)
  }

  /** What Tab does, for any menus and words: of a line whose last space is in front of column n, the text
      from there on becomes the name found, if there is such text and the walk ends with a command; else,
      with the words ambiguous, invalid or followed by a space, the line stays. */
  lemma TabIsJudged(f: Forest, root: Link<Cmd>, line: string, privilege: int, n: nat,
                    path: seq<Link<Cmd>>, status: Status, found: Option<Link<Cmd>>)
    requires Commands.Closed(f) && root in f
    requires n <= |line| && ' ' !in line[n..] && (n > 0 ==> line[n - 1] == ' ')
    requires Args(line) != [] && Judged(f, root, Args(line), COMPLETE, privilege, path, status, found)
    ensures status == CMD_FOUND ==> found.Some? && found.value.container.Some?
    ensures AfterTab(f, root, line, privilege)
         == if n < |line| && status == CMD_FOUND then line[..n] + Name(found.value) + " " else line
  {
    hide Find, Args, Unique, OnlyFits, NoneFits, FirstOfSeveral;
    JudgedIsFound(f, root, Args(line), COMPLETE, privilege, path, status, found);
    LastSpace(line, n);
  }

  lemma TabWithoutWords(f: Forest, root: Link<Cmd>, line: string, privilege: int)
    requires Commands.Closed(f) && root in f && Args(line) == []
    ensures AfterTab(f, root, line, privilege) == line
  {
  }

  lemma LastSpace(line: string, n: nat)
    requires n <= |line| && ' ' !in line[n..] && (n > 0 ==> line[n - 1] == ' ')
    ensures WordStart(line) == n && (HasInput(line) <==> n < |line|)
  {
    var k := WordStart(line);
    assert forall i :: n <= i < |line| ==> line[i] == line[n..][i - n];
    assert k > 0 ==> line[k - 1] == ' ';
    assert n > 0 ==> !NonSpace.Has(line[n - 1]);
  }

  /** The match, if there is one, fits behind the last space of the line. */
  ghost predicate HasRoom(f: Forest, root: Link<Cmd>, line: string, privilege: int)
    requires Commands.Closed(f) && root in f
  {
    var m := MatchOf(f, root, line, privilege);
    m.Some? ==> WordStart(line) + |m.value| + 1 <= MAX_LINE
  }

  /** The command names consist of such characters. */
  ghost predicate NamesIn(k: Repertoire, f: Forest) {
    forall n :: n in Nodes(f) && n.container.Some? ==> k.All(Name(n))
  }

  lemma MatchIsName(k: Repertoire, f: Forest, root: Link<Cmd>, line: string, privilege: int)
    requires Commands.Closed(f) && root in f && NamesIn(k, f)
    ensures var m := MatchOf(f, root, line, privilege);
            m.Some? ==> k.All(m.value)
  {
    hide Find, Nodes, Args;
    if Args(line) != [] {
      FoundIsMember(f, root, Args(line), COMPLETE, privilege);
    }
  }

  /** Tab keeps a line within its characters, and within its length exactly when the match fits. */
  lemma AfterTabIsLineText(k: Repertoire, f: Forest, root: Link<Cmd>, line: string, privilege: int)
    requires Commands.Closed(f) && root in f && IsLineText(k, line) && NamesIn(k, f)
    ensures IsLineText(k, AfterTab(f, root, line, privilege)) <==> HasRoom(f, root, line, privilege)
  {
    MatchIsName(k, f, root, line, privilege);
    hide MatchOf, NamesIn;
    var m := MatchOf(f, root, line, privilege);
    if m.Some? {
      CompletedKeeps(k, line, m.value);
    }
  }

  /** A Tab behind a menu name, spaces and a word prints the match behind the spaces. */
  lemma TabBehindSpaces(f: Forest, root: Link<Cmd>, menu: string, spaces: nat, word: string, privilege: int)
    requires Commands.Closed(f) && root in f && IsWord(menu) && IsWord(word) && spaces > 0
    requires Find(f, root, [menu, word], COMPLETE, privilege).0 == CMD_FOUND
    ensures var m := Find(f, root, [menu, word], COMPLETE, privilege).1;
            && m.Some? && m.value.container.Some?
            && AfterTab(f, root, menu + Repeat(' ', spaces) + word, privilege)
                 == menu + Repeat(' ', spaces) + Name(m.value) + " "
  {
    var pre := menu + Repeat(' ', spaces);
    WordsOfSpaced(menu, spaces, word);
    FindWithName(f, root, [menu, word], privilege);
    hide Find, Words;
    LastWordBegins(pre, word);
    assert (pre + word)[..|pre|] == pre;
    assert WordSet.Has(word[|word| - 1]) && (pre + word)[|pre + word| - 1] == word[|word| - 1];
  }

  /** Tab can lead past the buffer: "show", 109 spaces and "ru" is a line of 115 characters, and with
      running-config as the only match it becomes one of 128. */
  lemma TabCanOverflow(f: Forest, root: Link<Cmd>, show: Link<Cmd>, run: Link<Cmd>, privilege: int)
    requires Commands.Closed(f) && root in f && show.container.Some? && run.container.Some?
    requires OnlyFits(f[root], "show", privilege, show) && ChildOf(show) in f
    requires OnlyFits(f[ChildOf(show)], "ru", privilege, run) && Name(run) == "running-config"
    ensures var line := "show" + Repeat(' ', 109) + "ru";
            && IsLineText(Visible, line) && |AfterTab(f, root, line, privilege)| == 128
            && !HasRoom(f, root, line, privilege)
  {
    hide Find, AfterTab, HasRoom, Words, OnlyFits;
    FindTwoWords(f, root, "show", "ru", show, run, privilege);
    TabBehindSpaces(f, root, "show", 109, "ru", privilege);
    NoRoomBehindSpaces(f, root, "show" + Repeat(' ', 109) + "ru", privilege);
  }

  lemma FindTwoWords(f: Forest, h: Link<Cmd>, a: string, b: string, m: Link<Cmd>, n: Link<Cmd>, privilege: int)
    requires Commands.Closed(f) && h in f && m.container.Some? && n.container.Some? && ChildOf(m) in f
    requires OnlyFits(f[h], a, privilege, m) && OnlyFits(f[ChildOf(m)], b, privilege, n)
    ensures Find(f, h, [a, b], COMPLETE, privilege) == (CMD_FOUND, Some(n))
  {
    hide Candidates, OnlyFits, NoneFits, FirstOfSeveral;
    CandidatesIff(f[h], a, privilege, m);
    CandidatesIff(f[ChildOf(m)], b, privilege, n);
    assert [a, b][1..] == [b];
  }

  lemma NoRoomBehindSpaces(f: Forest, root: Link<Cmd>, line: string, privilege: int)
    requires Commands.Closed(f) && root in f && |line| <= MAX_LINE
    ensures |AfterTab(f, root, line, privilege)| > MAX_LINE ==> !HasRoom(f, root, line, privilege)
  {
    hide MatchOf;
  }

  lemma LastWordBegins(pre: string, word: string)
    requires IsWord(word) && pre != "" && pre[|pre| - 1] == ' '
    ensures WordStart(pre + word) == |pre|
  {
    var line := pre + word;
    forall i | |pre| <= i < |line|
      ensures NonSpace.Has(line[i])
    {
      assert line[i] == word[i - |pre|] && WordSet.Has(word[i - |pre|]);
    }
    assert !NonSpace.Has(line[|pre| - 1]);
  }

  lemma WordsOfSpaced(menu: string, spaces: nat, word: string)
    requires IsWord(menu) && IsWord(word) && spaces > 0
    ensures Words(menu + Repeat(' ', spaces) + word) == [menu, word]
  {
    var rest := Repeat(' ', spaces) + word;
    hide Words;
    assert menu + Repeat(' ', spaces) + word == menu + rest;
    assert rest[0] == ' ';
    WordsOfWord(menu, rest);
    assert WordSet.Has(word[0]);
    assert Repeat(' ', spaces) == seq(spaces, _ => ' ');
    WordsOfSpaces(spaces, word);
    WordsOfWord(word, "");
    WordsOfNothing();
    assert word + "" == word;
  }

  lemma CompletedKeeps(k: Repertoire, line: string, name: string)
    requires k.All(line) && k.All(name)
    ensures k.All(Completed(line, name))
  {
    var n := WordStart(line);
    PartsOf(k, line[..n], line[n..]);
    assert line == line[..n] + line[n..];
    PartsOf(k, line[..n], name);
    PartsOf(k, line[..n] + name, " ");
  }

  // ---------- between two calls of readline ----------

  /** What a connection keeps: the editor with the history in use, the lines of the other history, whether
      the mode is the normal one, which decides which history is in use, and the privilege. */
  datatype Session = Session(e: Edit, other: seq<string>, normal: bool, privilege: int)

  predicate SaneSession(k: Repertoire, s: Session) {
    SaneNav(k, s.e.nav) && forall i :: 0 <= i < |s.other| ==> IsLineText(k, s.other[i])
  }

  /** Return runs the handler of the command found, and only that may change the mode and the privilege. */
  ghost predicate HandlerRuns(f: Forest, root: Link<Cmd>, line: string, privilege: int)
    requires Commands.Closed(f) && root in f
  {
    Args(line) != [] && Find(f, root, Args(line), FIND, privilege).0 == CMD_FOUND
  }

  /** exec_hdl: a line with words is recorded; then the line is reset, in the history of the mode the
      handler leaves. */
  ghost function AfterEnter(f: Forest, s: Session, root: Link<Cmd>, normal: bool, privilege: int): Session
    requires Commands.Closed(f) && root in f
  {
    var line := Line(s.e).Text();
    var entries := if Args(line) == [] then s.e.nav.entries else Recorded(s.e.nav.entries, line);
    var runs := HandlerRuns(f, root, line, s.privilege);
    if runs && normal != s.normal then
      Session(Reset(s.e.(nav := s.e.nav.(entries := s.other))), entries, normal, privilege)
    else
      Session(Reset(s.e.(nav := s.e.nav.(entries := entries))), s.other, s.normal,
              if runs then privilege else s.privilege)
  }

  /** The state at the next call of readline: after Return that of exec_hdl, after Tab with the line
      completed, else with the line kept, the cursor at its end. */
  ghost function Rest(f: Forest, s: Session, root: Link<Cmd>, key: Option<char>, normal: bool, privilege: int): Session
    requires Commands.Closed(f) && root in f
  {
    var line := Line(s.e).Text();
    if key == Some('\r') then AfterEnter(f, s, root, normal, privilege)
    else s.(e := WithLine(s.e, Zipper(if key == Some('\t') then AfterTab(f, root, line, s.privilege) else line, "")))
  }

  // ---------- whole sessions ----------

  /** One turn of vty_main: the menu and prompt it starts with, the keys readline reacts to, the key that
      ends it, None for CTRL-C, the mode and privilege a handler leaves, and what is printed. */
  datatype Round = Round(root: Link<Cmd>, prompt: string, keys: string, key: Option<char>,
                         normal: bool, privilege: int, printed: string)

  ghost function AfterRound(f: Forest, s: Session, r: Round): (s': Session)
    requires Commands.Closed(f) && r.root in f && s.e.nav.pos <= |s.e.nav.entries|
    ensures s'.e.nav.pos <= |s'.e.nav.entries|
  {
    var m := Editing.Run(s.e, r.keys);
    Rest(f, s.(e := if r.key == None then Reset(m) else m), r.root, r.key, r.normal, r.privilege)
  }

  /** What old_buff holds at the next call. */
  function ShownAfter(e: Edit, r: Round): string
    requires e.nav.pos <= |e.nav.entries|
  {
    if r.key == None || r.key == Some('\r') then "" else Line(Editing.Run(e, r.keys)).Text()
  }

  /** What readline sends from its start until it has reacted to the keys. */
  function ReadlineBytes(e: Edit, shown: string, keys: string, prompt: string): string
    requires e.nav.pos <= |e.nav.entries|
  {
    prompt + UpdateBytes(shown, 0, Line(e).Text(), |Line(e).Text()|) + Emission(e, keys, prompt)
  }

  /** What is sent from the start of a round to the start of the next. */
  function RoundBytes(e: Edit, shown: string, r: Round): string
    requires e.nav.pos <= |e.nav.entries|
  {
    ReadlineBytes(e, shown, r.keys, r.prompt) + (if r.key == Some('?') then "?" else "") + "\r\n" + r.printed
  }

  /** Between readline and what a handler prints the row is ended, behind a question mark after one. */
  lemma RoundEnds(e: Edit, shown: string, r: Round)
    requires e.nav.pos <= |e.nav.entries|
    ensures var sent := ReadlineBytes(e, shown, r.keys, r.prompt);
            RoundBytes(e, shown, r) == match r.key
                                       case Some('?') => sent + "?\r\n" + r.printed
                                       case _ => sent + "\r\n" + r.printed
  {
    hide ReadlineBytes;
    var sent := ReadlineBytes(e, shown, r.keys, r.prompt);
    assert sent + "?" + "\r\n" == sent + "?\r\n";
    assert sent + "" + "\r\n" == sent + "\r\n";
  }

  predicate RootsIn(f: Forest, rounds: seq<Round>) {
    forall i :: 0 <= i < |rounds| ==> rounds[i].root in f
  }

  /** The state and the remembered line after the rounds. */
  ghost function SessionAfter(f: Forest, s: Session, shown: string, rounds: seq<Round>): (r: (Session, string))
    requires Commands.Closed(f) && RootsIn(f, rounds) && s.e.nav.pos <= |s.e.nav.entries|
    ensures r.0.e.nav.pos <= |r.0.e.nav.entries|
    decreases |rounds|
  {
    if rounds == [] then (s, shown)
    else
      var (m, sh) := SessionAfter(f, s, shown, rounds[..|rounds| - 1]);
      var r := rounds[|rounds| - 1];
      (AfterRound(f, m, r), ShownAfter(m.e, r))
  }

  ghost function SessionBytes(f: Forest, s: Session, shown: string, rounds: seq<Round>): string
    requires Commands.Closed(f) && RootsIn(f, rounds) && s.e.nav.pos <= |s.e.nav.entries|
    decreases |rounds|
  {
    if rounds == [] then ""
    else
      var init := rounds[..|rounds| - 1];
      var (m, sh) := SessionAfter(f, s, shown, init);
      SessionBytes(f, s, shown, init) + RoundBytes(m.e, sh, rounds[|rounds| - 1])
  }

  predicate EndsRow(s: string) { |s| >= 2 && s[|s| - 2..] == "\r\n" }

  /** No control characters are inserted, completion has room, and what is printed ends its row. */
  ghost predicate GoodRound(f: Forest, s: Session, r: Round)
    requires Commands.Closed(f) && r.root in f && s.e.nav.pos <= |s.e.nav.entries|
  {
    && CleanKeys(s.e, r.keys)
    && (r.key == Some('\t') ==> HasRoom(f, r.root, Line(Editing.Run(s.e, r.keys)).Text(), s.privilege))
    && (r.printed == "" || EndsRow(r.printed))
  }

  ghost predicate GoodSession(f: Forest, s: Session, shown: string, rounds: seq<Round>)
    requires Commands.Closed(f) && RootsIn(f, rounds) && s.e.nav.pos <= |s.e.nav.entries|
  {
    forall n :: 0 <= n < |rounds| ==> GoodRound(f, SessionAfter(f, s, shown, rounds[..n]).0, rounds[n])
  }

  lemma EnterKeepsSane(k: Repertoire, f: Forest, s: Session, root: Link<Cmd>, normal: bool, privilege: int)
    requires Commands.Closed(f) && root in f && SaneSession(k, s)
    ensures SaneSession(k, AfterEnter(f, s, root, normal, privilege))
  {
    hide Args, HandlerRuns;
    var line := Line(s.e).Text();
    RecordedKeeps(k, s.e.nav.entries, line);
    hide Recorded;
    assert Zipper("", "").Text() == "";
  }

  lemma RecordedKeeps(k: Repertoire, entries: seq<string>, line: string)
    requires IsLineText(k, line) && forall i :: 0 <= i < |entries| ==> IsLineText(k, entries[i])
    ensures forall i :: 0 <= i < |Recorded(entries, line)| ==> IsLineText(k, Recorded(entries, line)[i])
  {
  }

  /** What vty_main does between two calls keeps the texts clean and puts the cursor at the line's end. */
  lemma RestIsReady(k: Repertoire, f: Forest, s: Session, root: Link<Cmd>, key: Option<char>,
                    normal: bool, privilege: int)
    requires Commands.Closed(f) && root in f && SaneSession(k, s) && NamesIn(k, f)
    requires key == Some('\t') ==> HasRoom(f, root, Line(s.e).Text(), s.privilege)
    ensures var s' := Rest(f, s, root, key, normal, privilege);
            SaneSession(k, s') && Line(s'.e).right == ""
  {
    var line := Line(s.e).Text();
    if key == Some('\r') {
      EnterKeepsSane(k, f, s, root, normal, privilege);
    } else {
      if key == Some('\t') {
        AfterTabIsLineText(k, f, root, line, s.privilege);
      }
      hide AfterTab, HasRoom, NamesIn, Args;
      var z := Line(Rest(f, s, root, key, normal, privilege).e);
      assert z.left + "" == z.left;
    }
  }

  lemma RoundIsReady(f: Forest, s: Session, r: Round)
    requires Commands.Closed(f) && r.root in f && SaneSession(Visible, s) && NamesIn(Visible, f)
    requires GoodRound(f, s, r)
    ensures SaneSession(Visible, AfterRound(f, s, r)) && Line(AfterRound(f, s, r).e).right == ""
  {
    hide HasRoom, NamesIn, Args, Editing.Run, Rest, CleanKeys;
    RunIsSane(s.e, r.keys);
    var m := Editing.Run(s.e, r.keys);
    var s' := s.(e := if r.key == None then Reset(m) else m);
    assert Line(Reset(m)).Text() == "";
    RestIsReady(Visible, f, s', r.root, r.key, r.normal, r.privilege);
  }

  /** Keys without quoted control characters keep the state sane, whatever the screen. */
  lemma RunIsSane(e: Edit, keys: string)
    requires Sane(e) && CleanKeys(e, keys)
    ensures Sane(Editing.Run(e, keys))
  {
    hide Editing.Run, Sane, CleanKeys;
    SaneLineIsPrintable(e);
    var line := Line(e).Text();
    var s := Screen(map i: nat | i < |line| :: line[i], Line(e).Cursor());
    ScreenFollowsEveryRun(s, 0, e, keys, "");
  }

  lemma EndsRowConcat(a: string, b: string)
    requires EndsRow(b)
    ensures EndsRow(a + b)
  {
    assert (a + b)[|a + b| - 2..] == b[|b| - 2..];
  }

  /** Every round leaves the editor ready for the next, on a fresh row. */
  lemma {:induction false} SessionIsReady(f: Forest, s: Session, shown: string, rounds: seq<Round>)
    requires Commands.Closed(f) && RootsIn(f, rounds) && NamesIn(Visible, f)
    requires SaneSession(Visible, s) && Line(s.e).right == "" && GoodSession(f, s, shown, rounds)
    ensures var s' := SessionAfter(f, s, shown, rounds).0;
            SaneSession(Visible, s') && Line(s'.e).right == ""
    ensures rounds != [] ==> EndsRow(SessionBytes(f, s, shown, rounds))
    decreases |rounds|
  {
    hide CleanKeys, AfterRound, ShownAfter, ReadlineBytes, HasRoom, NamesIn, EndsRow;
    if rounds != [] {
      var init, r := rounds[..|rounds| - 1], rounds[|rounds| - 1];
      forall n | 0 <= n < |init|
        ensures GoodRound(f, SessionAfter(f, s, shown, init[..n]).0, init[n])
      {
        assert init[..n] == rounds[..n];
      }
      SessionIsReady(f, s, shown, init);
      var (m, sh) := SessionAfter(f, s, shown, init);
      RoundIsReady(f, m, r);
      RoundEndsRow(ReadlineBytes(m.e, sh, r.keys, r.prompt) + (if r.key == Some('?') then "?" else ""), r.printed);
      EndsRowConcat(SessionBytes(f, s, shown, init), RoundBytes(m.e, sh, r));
    }
  }

  lemma RoundEndsRow(a: string, printed: string)
    requires printed == "" || EndsRow(printed)
    ensures EndsRow(a + "\r\n" + printed)
  {
    EndsRowConcat(a, "\r\n");
    if printed != "" {
      EndsRowConcat(a + "\r\n", printed);
    } else {
      assert a + "\r\n" + printed == a + "\r\n";
    }
  }

  lemma SessionOfNothing(f: Forest, s: Session, shown: string)
    requires Commands.Closed(f) && s.e.nav.pos <= |s.e.nav.entries|
    ensures SessionBytes(f, s, shown, []) == ""
  {
  }

  /** The session theorem: whatever the rounds before, commands, completions, help, cancelled lines and
      changes of mode among them, and whatever the keys since, the row shows exactly the line, with the
      cursor in place. */
  lemma SessionIsShown(screen: Screen, sent: string, f: Forest, s: Session, shown: string, rounds: seq<Round>,
                       keys: string, prompt: string)
    requires Commands.Closed(f) && RootsIn(f, rounds) && NamesIn(Visible, f) && Printable(prompt) && EndsRow(sent)
    requires SaneSession(Visible, s) && Line(s.e).right == "" && GoodSession(f, s, shown, rounds)
    requires CleanKeys(SessionAfter(f, s, shown, rounds).0.e, keys)
    ensures var (s', shown') := SessionAfter(f, s, shown, rounds);
            var bytes := sent + SessionBytes(f, s, shown, rounds) + ReadlineBytes(s'.e, shown', keys, prompt);
            var z := Line(Editing.Run(s'.e, keys));
            Shows(Replay(screen, bytes), BaseAfterAll(s'.e, keys, |prompt|, prompt), z.Text(), z.Cursor())
  {
    hide SaneNav, CleanKeys, Editing.Run, Emission, BaseAfterAll, UpdateBytes, SessionAfter, SessionBytes, GoodSession;
    SaneLineIsPrintable(s.e);
    SessionIsReady(f, s, shown, rounds);
    var (s', shown') := SessionAfter(f, s, shown, rounds);
    var before := sent + SessionBytes(f, s, shown, rounds);
    if rounds == [] {
      SessionOfNothing(f, s, shown);
      assert before == sent;
    } else {
      EndsRowConcat(sent, SessionBytes(f, s, shown, rounds));
    }
    var head := before[..|before| - 2];
    assert before == head + "\r\n";
    ReadlineIsShown(screen, head, prompt, shown', s'.e, keys, prompt);
    var update := UpdateBytes(shown', 0, Line(s'.e).Text(), |Line(s'.e).Text()|);
    assert before + (prompt + update + Emission(s'.e, keys, prompt))
        == head + "\r\n" + prompt + update + Emission(s'.e, keys, prompt);
  }
}
