/** What every key does, on its code: the text, the cursor, the history and the flags after it, and whether
    the bell rings (vty.c:750-811, 961-1004). */
module Keys {
  import opened Sequences
  import opened Terminal
  import opened Zippers
  import opened Histories
  import opened Editing

  /** The state with another text and cursor, nothing else changed. */
  function Put(e: Edit, text: string, at: nat): Edit
    requires at <= |text|
  {
    e.(nav := e.nav.(z := At(text, at)))
  }

  /** The state in which a history line has been recalled, with the cursor at its end. */
  function Browsed(e: Edit, pos: nat, draft: string, line: string): Edit {
    e.(nav := Nav(e.nav.entries, pos, draft, At(Recalled(line), |Recalled(line)|)))
  }

  /** One entry older, with the line kept as the draft when it was the unfinished one; the bell at the oldest. */
  function StepOlder(e: Edit): (Edit, Reaction)
    requires e.nav.pos <= |e.nav.entries|
  {
    var n := e.nav;
    if n.pos == 0 then (e, Bell)
    else (Browsed(e, n.pos - 1, if n.pos == |n.entries| then n.z.Text() else n.draft, n.entries[n.pos - 1]), Quiet)
  }

  /** One entry newer, the draft behind the newest; the bell at the unfinished line. */
  function StepNewer(e: Edit): (Edit, Reaction)
    requires e.nav.pos <= |e.nav.entries|
  {
    var n := e.nav;
    if n.pos == |n.entries| then (e, Bell)
    else (Browsed(e, n.pos + 1, n.draft, if n.pos + 1 < |n.entries| then n.entries[n.pos + 1] else n.draft), Quiet)
  }

  /** One column to the left, and to the right. */
  function Leftwards(e: Edit): Edit {
    var at := |Line(e).left|;
    Put(e, Line(e).Text(), if at == 0 then 0 else at - 1)
  }

  function Rightwards(e: Edit): Edit {
    var at := |Line(e).left|;
    Put(e, Line(e).Text(), if at < |Line(e).Text()| then at + 1 else at)
  }

  /** Neither behind ESC nor quoted. */
  predicate Plain(e: Edit) {
    e.nav.pos <= |e.nav.entries| && !e.escape && !e.quote
  }

  lemma TextParts(z: Zipper)
    ensures z == At(z.Text(), |z.left|)
    ensures z.Text()[..|z.left|] == z.left && z.Text()[|z.left|..] == z.right
  {
  }

  /** CTRL-A, CTRL-E, CTRL-B and CTRL-F move to the start, to the end, one left and one right. */
  lemma MovingKeys(e: Edit)
    requires Plain(e)
    ensures var text := Line(e).Text();
            && React(e, '\U{0001}') == (Put(e, text, 0), Quiet)
            && React(e, '\U{0005}') == (Put(e, text, |text|), Quiet)
            && React(e, '\U{0002}') == (Leftwards(e), Quiet)
            && React(e, '\U{0006}') == (Rightwards(e), Quiet)
  {
    MovesAreColumns(Line(e));
  }

  lemma MovesAreColumns(z: Zipper)
    ensures var text, at := z.Text(), |z.left|;
            && Home(z) == At(text, 0) && End(z) == At(text, |text|)
            && Back(z) == At(text, if at == 0 then 0 else at - 1)
            && Forward(z) == At(text, if at < |text| then at + 1 else at)
  {
    MovesKeepText(z);
    TextParts(Home(z));
    TextParts(End(z));
    TextParts(Back(z));
    TextParts(Forward(z));
  }

  /** BS and DEL erase the character left of the cursor, or ring the bell at the start; CTRL-U and CTRL-X
      erase all that is left of the cursor. */
  lemma ErasingKeys(e: Edit)
    requires Plain(e)
    ensures var text, at := Line(e).Text(), |Line(e).left|;
            var r := if at == 0 then (e, Bell) else (Put(e, text[..at - 1] + text[at..], at - 1), Quiet);
            && React(e, '\U{0008}') == r && React(e, '\U{007F}') == r
            && React(e, '\U{0015}') == (Put(e, text[at..], 0), Quiet)
            && React(e, '\U{0018}') == (Put(e, text[at..], 0), Quiet)
  {
    ErasuresAreColumns(Line(e));
  }

  lemma ErasuresAreColumns(z: Zipper)
    ensures var text, at := z.Text(), |z.left|;
            && EraseChar(z) == (if at == 0 then z else At(text[..at - 1] + text[at..], at - 1))
            && EraseToStart(z) == At(text[at..], 0)
  {
    TextParts(z);
    TextParts(EraseChar(z));
    TextParts(EraseToStart(z));
    if z.left != "" {
      assert z.Text()[..|z.left| - 1] == z.left[..|z.left| - 1];
    }
  }

  /** CTRL-W erases the spaces left of the cursor and the word in front of them. */
  lemma EraseWordKey(e: Edit) returns (a: nat, b: nat)
    requires Plain(e)
    ensures var text, at := Line(e).Text(), |Line(e).left|;
            && SpacedBefore(text, at, a, b)
            && React(e, '\U{0017}') == (Put(e, text[..a] + text[at..], a), Quiet)
  {
    a, b := EraseWordMeaning(Line(e));
  }

  /** CTRL-N and CTRL-P browse, towards older lines and towards newer ones. */
  lemma BrowsingKeys(e: Edit)
    requires Plain(e)
    ensures React(e, '\U{000E}') == StepOlder(e) && React(e, '\U{0010}') == StepNewer(e)
  {
    StepsAre(e);
  }

  lemma StepsAre(e: Edit)
    requires e.nav.pos <= |e.nav.entries|
    ensures Perform(e, OpOlder) == StepOlder(e) && Perform(e, OpNewer) == StepNewer(e)
  {
    hide Recalled, At;
    var n := e.nav;
    if n.pos > 0 {
      AtEnd(Recalled(n.entries[n.pos - 1]));
    }
    if n.pos < |n.entries| {
      AtEnd(Recalled(if n.pos + 1 < |n.entries| then n.entries[n.pos + 1] else n.draft));
    }
  }

  lemma AtEnd(line: string)
    ensures At(line, |line|) == Zipper(line, [])
  {
  }

  /** CTRL-R and CTRL-L draw the line anew, CTRL-T does nothing, ESC waits for the key behind it, and all
      other control characters ring the bell. */
  lemma OtherControlKeys(e: Edit, c: char)
    requires Plain(e) && c < ' '
    ensures c == '\U{0012}' || c == '\U{000C}' ==> React(e, c) == (e, Reprint)
    ensures c == '\U{0014}' ==> React(e, c) == (e, Quiet)
    ensures c == '\U{001B}' ==> React(e, c) == (e.(escape := true), Quiet)
    ensures c as int in {0, 3, 4, 7, 9, 10, 11, 13, 15, 17, 19, 22, 25, 26, 28, 29, 30, 31} ==> React(e, c) == (e, Bell)
  {
    assert WithLine(e, Line(e)) == e;
  }

  /** Every other character is inserted at the cursor, or rings the bell if the line has 127 characters. */
  lemma TypedKeys(e: Edit, c: char)
    requires Plain(e) && ' ' <= c && c != '\U{007F}'
    ensures React(e, c) == Inserted(e, c)
  {
    InsertIs(e, c);
  }

  function Inserted(e: Edit, c: char): (Edit, Reaction) {
    var text, at := Line(e).Text(), |Line(e).left|;
    if |text| < 127 then (Put(e, text[..at] + [c] + text[at..], at + 1), Quiet) else (e, Bell)
  }

  lemma InsertIs(e: Edit, c: char)
    ensures Type(e, c) == Inserted(e, c)
  {
    TextParts(Line(e));
    TextParts(Insert(Line(e), c));
  }

  /** Behind ESC: O and [, which lead in the arrow keys, are passed over; the others end the escape. A and B
      browse, C and D move one column, q and Q quote the next key, <, > and d do nothing, DEL erases what is
      left of the cursor. */
  lemma EscapedKeys(e: Edit)
    requires e.nav.pos <= |e.nav.entries| && e.escape
    ensures var out, text, at := e.(escape := false), Line(e).Text(), |Line(e).left|;
            && React(e, 'O') == (e, Skip) && React(e, '[') == (e, Skip)
            && React(e, 'A') == StepOlder(out) && React(e, 'B') == StepNewer(out)
            && React(e, 'C') == (Rightwards(out), Quiet) && React(e, 'D') == (Leftwards(out), Quiet)
            && React(e, 'q') == (out.(quote := true), Quiet) && React(e, 'Q') == (out.(quote := true), Quiet)
            && React(e, '<') == (out, Quiet) && React(e, '>') == (out, Quiet) && React(e, 'd') == (out, Quiet)
            && React(e, '\U{007F}') == (Put(out, text[at..], 0), Quiet)
  {
    hide React, Perform, EscapeOp, StepOlder, StepNewer, Put;
    var out := e.(escape := false);
    EscapeLeadsOn(e);
    EscapeCodes();
    EscapedAre(e);
    SimpleOps(out);
    StepsAre(out);
  }

  lemma EscapedAre(e: Edit)
    requires e.nav.pos <= |e.nav.entries| && e.escape
    ensures forall c :: c !in {'O', '['} ==> React(e, c) == Perform(e.(escape := false), EscapeOp(c))
  {
    forall c | c !in {'O', '['}
      ensures React(e, c) == Perform(e.(escape := false), EscapeOp(c))
    {
      EscapedIs(e, c);
    }
  }

  lemma EscapeLeadsOn(e: Edit)
    requires e.nav.pos <= |e.nav.entries| && e.escape
    ensures React(e, 'O') == (e, Skip) && React(e, '[') == (e, Skip)
  {
  }

  lemma EscapedIs(e: Edit, c: char)
    requires e.nav.pos <= |e.nav.entries| && e.escape && c !in "O["
    ensures React(e, c) == Perform(e.(escape := false), EscapeOp(c))
  {
    hide Older, Newer, EditLine;
  }

  lemma EscapeCodes()
    ensures EscapeOp('A') == OpOlder && EscapeOp('B') == OpNewer && EscapeOp('C') == OpForward && EscapeOp('D') == OpBack
    ensures EscapeOp('q') == EscapeOp('Q') == OpQuote && EscapeOp('<') == EscapeOp('>') == EscapeOp('d') == Nothing
    ensures EscapeOp('\U{007F}') == OpEraseLine && EscapeOp('b') == OpWordBack && EscapeOp('f') == OpWordForward
    ensures EscapeOp('c') == OpCapitalize && EscapeOp('l') == OpLower && EscapeOp('u') == OpUpper
  {
  }

  /** The operations on columns, and those on the flags. */
  lemma SimpleOps(e: Edit)
    requires e.nav.pos <= |e.nav.entries|
    ensures Perform(e, OpForward) == (Rightwards(e), Quiet) && Perform(e, OpBack) == (Leftwards(e), Quiet)
    ensures Perform(e, OpQuote) == (e.(quote := true), Quiet) && Perform(e, Nothing) == (e, Quiet)
    ensures Perform(e, OpEraseLine) == (Put(e, Line(e).Text()[|Line(e).left|..], 0), Quiet)
  {
    hide Back, Forward, EraseToStart;
    MovesAreColumns(Line(e));
    ErasuresAreColumns(Line(e));
    assert WithLine(e, Line(e)) == e;
  }

  /** Behind ESC f and b move over words and the gaps between them. */
  lemma EscapedMoves(e: Edit) returns (a: nat, b: nat, a': nat, b': nat)
    requires e.nav.pos <= |e.nav.entries| && e.escape
    ensures var out, text, at := e.(escape := false), Line(e).Text(), |Line(e).left|;
            && NextWord(text, at, a, b) && React(e, 'f') == (Put(out, text, b), Quiet)
            && WordBefore(text, at, a', b') && React(e, 'b') == (Put(out, text, a'), Quiet)
  {
    hide React, EscapeOp, NextWord, WordBefore, WordForward, WordBack, Older, Newer;
    EscapeCodes();
    EscapedIs(e, 'f');
    EscapedIs(e, 'b');
    a, b := WordForwardMeaning(Line(e));
    a', b' := WordBackMeaning(Line(e));
  }

  /** Behind ESC c, l and u capitalize the next word, and change it to lower and to upper case. */
  lemma EscapedCases(e: Edit) returns (a: nat, b: nat)
    requires e.nav.pos <= |e.nav.entries| && e.escape
    ensures var out, text, at := e.(escape := false), Line(e).Text(), |Line(e).left|;
            && NextWord(text, at, a, b)
            && React(e, 'c') == (Put(out, text[..a] + Capitalized(text[a..b]) + text[b..], b), Quiet)
            && React(e, 'l') == (Put(out, text[..a] + Recase(text[a..b], Lower) + text[b..], b), Quiet)
            && React(e, 'u') == (Put(out, text[..a] + Recase(text[a..b], Upper) + text[b..], b), Quiet)
  {
    hide React, EscapeOp, NextWord, CapitalizeWord, Convert, Capitalized, Recase, Older, Newer;
    EscapeCodes();
    EscapedIs(e, 'c');
    EscapedIs(e, 'l');
    EscapedIs(e, 'u');
    a, b := CapitalizeMeaning(Line(e));
    var al, bl := CaseWordMeaning(Line(e), Lower);
    var au, bu := CaseWordMeaning(Line(e), Upper);
    NextWordIsUnique(Line(e).Text(), |Line(e).left|, a, b, al, bl);
    NextWordIsUnique(Line(e).Text(), |Line(e).left|, a, b, au, bu);
  }

  /** Behind ESC every other key rings the bell and ends the escape. */
  lemma EscapedOthers(e: Edit, c: char)
    requires e.nav.pos <= |e.nav.entries| && e.escape
    requires c !in "O[ABCDqQ<>dfbclu" && c != '\U{007F}'
    ensures React(e, c) == (e.(escape := false), Bell)
  {
  }

  /** A quoted key is inserted whatever it is, except Return and characters from DEL on, which are dropped. */
  lemma QuotedKeys(e: Edit, c: char)
    requires e.nav.pos <= |e.nav.entries| && !e.escape && e.quote
    ensures var out := e.(quote := false);
            React(e, c) == if c != '\r' && c < '\U{007F}' then Inserted(out, c) else (out, Quiet)
  {
    InsertIs(e, c);
  }

  /** What a key that leaves the line alone sends: the character 7 for the bell; for the line drawn anew a
      new row, the prompt, the line, and backspaces to the cursor; else nothing. */
  lemma SentForNoChange(e: Edit, c: char, prompt: string)
    requires e.nav.pos <= |e.nav.entries| && Line(React(e, c).0) == Line(e)
    ensures var text, at := Line(e).Text(), |Line(e).left|;
            Paint(e, c, prompt) == match React(e, c).1
                                   case Bell => "\U{0007}"
                                   case Reprint => "\r\n" + prompt + text + Repeat('\U{0008}', |text| - at)
                                   case _ => ""
  {
    hide React;
    var text, at := Line(e).Text(), |Line(e).left|;
    assert text[0..|text|] == text;
    Regroup("\r\n" + prompt, text, Repeat('\U{0008}', |text| - at));
  }

  /** There is only one next word. */
  lemma NextWordIsUnique(text: string, at: nat, a: nat, b: nat, a': nat, b': nat)
    requires NextWord(text, at, a, b) && NextWord(text, at, a', b')
    ensures a == a' && b == b'
  {
    hide IsGap;
    assert a < |text| ==> !IsGap(text[a]);
    assert a' < |text| ==> !IsGap(text[a']);
    assert b < |text| ==> IsGap(text[b]);
    assert b' < |text| ==> IsGap(text[b']);
  }
}
