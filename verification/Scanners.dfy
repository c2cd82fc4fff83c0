/** lexscan, the generated scanner of lex.yy.c (lines 595-854): the match loop over the compressed
    tables with its last accepting state, the end of the buffer, and the actions of lex.c that fill
    the argument vector. */
module Scanners {
  import opened Lists
  import opened Tokens
  import opened ScanTables

  const YY_START := 1
  const YY_JAMBASE := 10
  const YY_END_OF_BUFFER := 6
  const YY_STATE_EOF := 7

  /** A C string: 8-bit characters without NUL. */
  predicate IsText(s: string) {
    forall i :: 0 <= i < |s| ==> 0 < s[i] as int < CHARS
  }

  // ---------- what the states mean ----------

  /** A longer token may still come: all blanks, or all characters of a word. */
  predicate Growing(w: string) { AllIn(BlankSet, w) || AllIn(WordSet, w) }

  /** The state after the characters `w` of a token. */
  function StateOf(w: string): (s: int)
    ensures IsState(s)
  {
    if w == "" then YY_START
    else if |w| == 1 then 3 + ClassOf(w[0])
    else if AllIn(BlankSet, w) then 10
    else if AllIn(WordSet, w) then 11
    else 12
  }

  lemma AllInAppend(k: CharSet, w: string, c: char)
    ensures AllIn(k, w + [c]) <==> AllIn(k, w) && k.Has(c)
  {
    if AllIn(k, w + [c]) {
      forall i | 0 <= i < |w|
        ensures k.Has(w[i])
      {
        assert (w + [c])[i] == w[i];
      }
      assert (w + [c])[|w|] == c;
    }
  }

  /** The tables move from state to state as the meanings say. */
  lemma StateStep(w: string, c: char)
    requires Growing(w) && c != '\0'
    ensures Chase(StateOf(w), ClassOf(c)) == StateOf(w + [c])
  {
    hide Chase;
    StartTransitions();
    AllInAppend(BlankSet, w, c);
    AllInAppend(WordSet, w, c);
    if w == "" {
      assert w + [c] == [c];
    } else {
      assert BlankSet.Has(w[0]) || WordSet.Has(w[0]);
      if AllIn(BlankSet, w) {
        BlankTransitions(StateOf(w), ClassOf(c));
      } else {
        WordTransitions(StateOf(w), ClassOf(c));
      }
    }
  }

  /** At the buffer's end every token that may still grow moves to state 3. */
  lemma StateAtEnd(w: string)
    requires Growing(w)
    ensures Chase(StateOf(w), 0) == 3
  {
    hide Chase;
    StartTransitions();
    if w != "" {
      assert BlankSet.Has(w[0]) || WordSet.Has(w[0]);
      if AllIn(BlankSet, w) {
        BlankTransitions(StateOf(w), 0);
      } else {
        WordTransitions(StateOf(w), 0);
      }
    }
  }

  /** A state is stuck exactly when no longer token can come, and what it accepts. */
  lemma StuckIff(w: string)
    requires IsText(w)
    ensures IsStuck(StateOf(w)) <==> !Growing(w)
    ensures Growing(w) && w != "" ==> YY_ACCEPT[StateOf(w)] == if AllIn(BlankSet, w) then 3 else 1
    ensures YY_ACCEPT[StateOf(w)] == 0 <==> w == "" || (|w| > 1 && !Growing(w))
  {
    if |w| == 1 {
      assert AllIn(BlankSet, w) <==> BlankSet.Has(w[0]);
      assert AllIn(WordSet, w) <==> WordSet.Has(w[0]);
    } else if w != "" {
      assert AllIn(BlankSet, w) ==> BlankSet.Has(w[0]);
      assert AllIn(WordSet, w) ==> WordSet.Has(w[0]);
    }
  }

  /** The match loop, started at `bp`, has read up to `cp`: within the text it is in the state of
      what it has read and remembers the one before; then come the two NULs behind the text. */
  ghost predicate Matching(text: string, bp: nat, cp: nat, state: int, lastState: int, lastPos: nat) {
    && bp <= |text| && bp <= cp <= |text| + 2
    && if cp <= |text| then
         && state == StateOf(text[bp..cp])
         && (cp > bp ==> Growing(text[bp..cp - 1]))
         && (cp > bp + 1 ==> lastPos == cp - 1 && lastState == StateOf(text[bp..cp - 1]))
       else
         && Growing(text[bp..])
         && if cp == |text| + 1 then state == 3
            else state == 12 && lastState == 3 && lastPos == |text| + 1
  }

  lemma MatchStep(text: string, bp: nat, cp: nat, state: int, lastState: int, lastPos: nat)
    requires IsText(text) && Matching(text, bp, cp, state, lastState, lastPos)
    requires IsState(state) && !IsStuck(state)
    ensures cp < |text| + 2
    ensures var next := Chase(state, ClassOf((text + "\0\0")[cp]));
            if YY_ACCEPT[state] != 0 then Matching(text, bp, cp + 1, next, state, cp)
            else Matching(text, bp, cp + 1, next, lastState, lastPos)
  {
    hide Chase;
    if cp < |text| {
      var w := text[bp..cp];
      StuckIff(w);
      StateStep(w, text[cp]);
      assert text[bp..cp + 1] == w + [text[cp]];
    } else if cp == |text| {
      assert text[bp..cp] == text[bp..];
      StuckIff(text[bp..]);
      StateAtEnd(text[bp..]);
    } else {
      EndTransition();
    }
  }

  /** When the loop stops, the action found, after backing up if need be, is the rule of the maximal
      munch and the position its end; or, if the whole rest may still grow, the end of the buffer. */
  lemma MatchEnd(text: string, bp: nat, cp: nat, state: int, lastState: int, lastPos: nat)
    requires IsText(text) && Matching(text, bp, cp, state, lastState, lastPos)
    requires IsState(state) && IsStuck(state)
    ensures YY_ACCEPT[state] == 0 ==> IsState(lastState) && lastState <= 12
    ensures var act := YY_ACCEPT[if YY_ACCEPT[state] == 0 then lastState else state];
            var end := if YY_ACCEPT[state] == 0 then lastPos else cp;
            var s := text[bp..];
            if Growing(s) then act == YY_END_OF_BUFFER && end == |text| + 1
            else s != "" && act == Munch(s).rule && end == bp + Munch(s).len
  {
    if cp <= |text| {
      var w, s := text[bp..cp], text[bp..];
      StuckIff(w);
      assert w == s[..cp - bp];
      NotGrowing(s, cp - bp);
      if |w| == 1 {
        assert w[0] == s[0];
      } else {
        var v := text[bp..cp - 1];
        assert v == s[..cp - 1 - bp];
        StuckIff(v);
        MunchOfGrowing(s, cp - 1 - bp);
      }
    }
  }

  lemma AllInPrefix(k: CharSet, s: string, n: nat)
    requires n <= |s|
    ensures AllIn(k, s) ==> AllIn(k, s[..n])
  {
  }

  lemma NotGrowing(s: string, n: nat)
    requires n <= |s| && !Growing(s[..n])
    ensures s != "" && !Growing(s)
    ensures n == 1 ==> !BlankSet.Has(s[0]) && !WordSet.Has(s[0])
  {
    AllInPrefix(BlankSet, s, n);
    AllInPrefix(WordSet, s, n);
    if n == 1 {
      assert s[..n] == [s[0]];
    }
  }

  /** The longest growing prefix is the maximal munch. */
  lemma MunchOfGrowing(s: string, n: nat)
    requires 0 < n <= |s| && Growing(s[..n]) && (n < |s| ==> !Growing(s[..n + 1]))
    ensures Munch(s) == Token(if AllIn(BlankSet, s[..n]) then 3 else 1, n)
  {
    assert s[..n][0] == s[0];
    PrefixInRun(BlankSet, s, n);
    PrefixInRun(WordSet, s, n);
    if n < |s| {
      PrefixInRun(BlankSet, s, n + 1);
      PrefixInRun(WordSet, s, n + 1);
    }
  }

  // ---------- the scanner ----------

  /** The inner loop of a transition: down the default chain to a state that owns an entry. */
  method NextState(from: int, class_: int) returns (next: int)
    requires IsState(from) && 0 <= class_ <= 6
    ensures next == Chase(from, class_)
  {
    var s, k := from, class_;
    DefaultsDescend(s, k);
    while YY_CHK[YY_BASE[s] + k] != s
      invariant IsState(s) && 0 <= k <= 6 && Chase(s, k) == Chase(from, class_)
      invariant 0 <= YY_BASE[s] + k < |YY_CHK|
      decreases Rank(s)
    {
      DefaultsDescend(s, k);
      s := YY_DEF[s];
      if s >= 13 {
        k := YY_META[k];
      }
      DefaultsDescend(s, k);
    }
    next := YY_NXT[YY_BASE[s] + k];
  }

  method ClassOfChar(c: char) returns (k: int)
    requires c as int < CHARS
    ensures k == ClassOf(c)
  {
    EcIsClass();
    k := YY_EC[c as int];
    assert (0 + c as int) as char == c;
  }

  /** The transition on the character at hand. */
  method Transition(state: int, c: char) returns (next: int)
    requires IsState(state) && c as int < CHARS
    ensures next == Chase(state, ClassOf(c))
  {
    var k := ClassOfChar(c);
    next := NextState(state, k);
  }

  /** A buffer of the scanner over a string, with the globals of the scan. */
  class Scanner {
    const buf: array<char>
    const nChars: nat
    var cBufP: nat
    var hold: char
    var textPtr: nat
    var lastState: int
    var lastPos: nat
    var echo: string
    /** The string scanned. */
    ghost const text: string

    /** The buffer is the text and two NULs, but for the held character. */
    ghost predicate Valid()
      reads this, buf
    {
      && IsText(text) && nChars == |text| && buf.Length == nChars + 2
      && cBufP <= nChars + 1
      && buf[..][cBufP := hold] == text + "\0\0"
    }

    /** yy_scan_string. */
    constructor (s: string)
      requires IsText(s)
      ensures Valid() && text == s && cBufP == 0 && echo == "" && fresh(buf)
    {
      var b := new char[|s| + 2];
      forall i | 0 <= i < |s| {
        b[i] := s[i];
      }
      b[|s|] := '\0';
      b[|s| + 1] := '\0';
      buf, nChars := b, |s|;
      cBufP, textPtr := 0, 0;
      hold := b[0];
      lastState, lastPos := 0, 0;
      echo := "";
      text := s;
      new;
      assert buf[..] == text + "\0\0";
    }

    /** The match loop from `bp`. */
    method Match(bp: nat) returns (cp: nat, state: int)
      requires IsText(text) && nChars == |text| && bp <= nChars && buf[..] == text + "\0\0"
      modifies this`lastState, this`lastPos
      ensures IsState(state) && IsStuck(state) && Matching(text, bp, cp, state, lastState, lastPos)
    {
      hide Chase, ClassOf;
      cp, state := bp, YY_START;
      assert text[bp..bp] == "";
      while YY_BASE[state] != YY_JAMBASE
        invariant IsState(state) && Matching(text, bp, cp, state, lastState, lastPos)
        decreases |text| + 2 - cp
      {
        MatchStep(text, bp, cp, state, lastState, lastPos);
        assert buf[cp] == (text + "\0\0")[cp];
        if YY_ACCEPT[state] != 0 {
          lastState := state;
          lastPos := cp;
        }
        state := Transition(state, buf[cp]);
        cp := cp + 1;
      }
    }

    /** yy_find_action: the accepting state's action, backing up to the last one if need be. */
    method FindAction(cp: nat, state: int) returns (act: int, end: nat)
      requires 0 <= state <= 12 && (YY_ACCEPT[state] == 0 ==> 0 <= lastState <= 12)
      ensures act == YY_ACCEPT[if YY_ACCEPT[state] == 0 then lastState else state]
      ensures end == if YY_ACCEPT[state] == 0 then lastPos else cp
    {
      act, end := YY_ACCEPT[state], cp;
      if act == 0 {
        end := lastPos;
        act := YY_ACCEPT[lastState];
      }
    }

    /** YY_DO_BEFORE_ACTION: terminate the token in the buffer. */
    method BeforeAction(bp: nat, cp: nat)
      requires buf.Length == nChars + 2 && cp <= nChars + 1
      modifies this`textPtr, this`hold, this`cBufP, buf
      ensures textPtr == bp && cBufP == cp && buf[..] == old(buf[..])[cp := '\0']
      ensures buf[..][cBufP := hold] == old(buf[..])
    {
      textPtr := bp;
      hold := buf[cp];
      buf[cp] := '\0';
      cBufP := cp;
    }

    /** yy_get_previous_state: the state at the current position, from the token's start. */
    method PreviousState() returns (state: int)
      requires IsText(text) && nChars == |text| && buf[..] == text + "\0\0"
      requires textPtr < cBufP == nChars && Growing(text[textPtr..])
      modifies this`lastState, this`lastPos
      ensures state == StateOf(text[textPtr..])
    {
      hide Chase, ClassOf;
      state := YY_START;
      var cp := textPtr;
      assert text[cp..cp] == "";
      while cp < cBufP
        invariant textPtr <= cp <= nChars && state == StateOf(text[textPtr..cp])
      {
        var w := text[textPtr..cp];
        assert w == text[textPtr..][..cp - textPtr];
        AllInPrefix(BlankSet, text[textPtr..], cp - textPtr);
        AllInPrefix(WordSet, text[textPtr..], cp - textPtr);
        StateStep(w, text[cp]);
        assert text[textPtr..cp + 1] == w + [text[cp]];
        assert buf[cp] == (text + "\0\0")[cp] == text[cp];
        if YY_ACCEPT[state] != 0 {
          lastState := state;
          lastPos := cp;
        }
        state := Transition(state, buf[cp]);
        cp := cp + 1;
      }
      assert text[textPtr..cp] == text[textPtr..];
    }

    /** The end of the buffer: the end of the file if nothing else was matched, and otherwise the
        token that ends with the text. */
    method EndOfBuffer() returns (act: int)
      requires Valid() && cBufP == nChars + 1 && textPtr <= nChars && Growing(text[textPtr..])
      modifies this`cBufP, this`hold, this`textPtr, this`lastState, this`lastPos, buf
      ensures Valid() && textPtr == old(textPtr)
      ensures var s := text[textPtr..];
              if s == "" then act == YY_STATE_EOF && cBufP == textPtr
              else act == Munch(s).rule && cBufP == textPtr + Munch(s).len == nChars && buf[cBufP] == '\0'
    {
      buf[cBufP] := hold;
      if cBufP - textPtr == 1 {
        cBufP := textPtr;
        assert buf[cBufP] == (text + "\0\0")[nChars] == '\0';
        return YY_STATE_EOF;
      }
      cBufP := nChars;
      var state := PreviousState();
      var cp;
      StuckIff(text[textPtr..]);
      assert text[textPtr..] == text[textPtr..][..nChars - textPtr];
      MunchOfGrowing(text[textPtr..], nChars - textPtr);
      act, cp := FindAction(cBufP, state);
      BeforeAction(textPtr, cp);
    }

    /** One turn of lexscan's loop, up to the action of a rule or of the end of the text: the maximal
        munch of what is left. */
    method NextAction() returns (act: int)
      requires Valid() && cBufP <= nChars
      modifies this`cBufP, this`hold, this`textPtr, this`lastState, this`lastPos, buf
      ensures Valid() && textPtr == old(cBufP)
      ensures var s := text[textPtr..];
              if s == "" then act == YY_STATE_EOF && cBufP == textPtr
              else act == Munch(s).rule && cBufP == textPtr + Munch(s).len <= nChars && buf[cBufP] == '\0'
    {
      var bp := cBufP;
      buf[bp] := hold;
      var cp, state := Match(bp);
      MatchEnd(text, bp, cp, state, lastState, lastPos);
      act, cp := FindAction(cp, state);
      BeforeAction(bp, cp);
      if act == YY_END_OF_BUFFER {
        act := EndOfBuffer();
      }
    }

    /** The text of the token: yytext up to its terminator. */
    method YyText() returns (s: string)
      requires Valid() && textPtr <= cBufP <= nChars
      ensures s == text[textPtr..cBufP]
    {
      s := buf[textPtr..cBufP];
      assert forall i :: textPtr <= i < cBufP ==> buf[i] == buf[..][cBufP := hold][i];
    }

    /** Of the line's words and line feeds, `found` words are kept as far as the vector has room and the
        line feeds are echoed, and the rest is still to be scanned. */
    ghost predicate Scanning(args: array<Option<string>>, argc: nat, found: seq<string>, sent: string)
      reads this, buf, args
    {
      && Valid() && cBufP <= nChars
      && found + Words(text[cBufP..]) == Words(text)
      && HoldsArgs(args[..], First(found, MAX_ARGS - 1)) && argc == |First(found, MAX_ARGS - 1)|
      && echo + Newlines(text[cBufP..]) == sent + Newlines(text)
    }

    /** One token: its action of lex.c. */
    method ScanToken(args: array<Option<string>>, argc: nat, ghost found: seq<string>, ghost sent: string)
      returns (more: bool, argc': nat, ghost found': seq<string>)
      requires args.Length == MAX_ARGS && Scanning(args, argc, found, sent)
      modifies this, buf, args
      ensures more ==> Scanning(args, argc', found', sent) && cBufP > old(cBufP)
      ensures !more ==> HoldsArgs(args[..], Args(text)) && argc' == |Args(text)| && echo == sent + Newlines(text)
    {
      hide Words, Newlines, Munch;
      ghost var s := text[cBufP..];
      ScanStep(s);
      var act := NextAction();
      assert s != "" ==> text[cBufP..] == s[Munch(s).len..];
      found' := found;
      argc' := argc;
      if act == 2 || act == YY_STATE_EOF {
        assert found + [] == found;
        return false, argc, found;
      }
      if act == 1 {
        var word := YyText();
        assert word == s[..Munch(s).len];
        argc' := KeepWord(args, argc, word, found);
        found' := found + [word];
        assert found' + Words(text[cBufP..]) == found + ([word] + Words(text[cBufP..]));
      } else if act == 5 {
        var lexeme := YyText();
        assert lexeme == s[..Munch(s).len];
        assert echo + lexeme + Newlines(text[cBufP..]) == echo + (lexeme + Newlines(text[cBufP..]));
        echo := echo + lexeme;
      }
      more := true;
    }

    /** lexscan: the argument vector holds the first nine words of the line, NULL-terminated, and the
        count is returned; line feeds are echoed by flex's default rule. */
    method LexScan(args: array<Option<string>>) returns (argc: nat)
      requires Valid() && cBufP == 0 && args.Length == MAX_ARGS
      modifies this, buf, args
      ensures HoldsArgs(args[..], Args(text)) && argc == |Args(text)|
      ensures echo == old(echo) + Newlines(text)
    {
      argc := 0;
      args[0] := None;
      ghost var found: seq<string> := [];
      assert text[0..] == text;
      var more := true;
      while more
        invariant more ==> Scanning(args, argc, found, old(echo))
        invariant !more ==>
                    HoldsArgs(args[..], Args(text)) && argc == |Args(text)| && echo == old(echo) + Newlines(text)
        decreases more, if more then nChars - cBufP else 0
      {
        more, argc, found := ScanToken(args, argc, found, old(echo));
      }
    }
  }

  /** The action of rule 1: a word is kept while there is room for it and the terminator. */
  method KeepWord(args: array<Option<string>>, argc: nat, word: string, ghost found: seq<string>)
    returns (argc': nat)
    requires args.Length == MAX_ARGS
    requires HoldsArgs(args[..], First(found, MAX_ARGS - 1)) && argc == |First(found, MAX_ARGS - 1)|
    modifies args
    ensures var kept := First(found + [word], MAX_ARGS - 1);
            HoldsArgs(args[..], kept) && argc' == |kept|
  {
    argc' := argc;
    if argc < MAX_ARGS - 1 {
      args[argc] := Some(word);
      argc' := argc + 1;
      args[argc'] := None;
    } else {
      assert First(found + [word], MAX_ARGS - 1) == First(found, MAX_ARGS - 1);
    }
  }

  /** What one token contributes to the words and the echo of a line. */
  lemma ScanStep(s: string)
    ensures s == "" ==> Words(s) == [] && Newlines(s) == ""
    ensures s != "" ==>
              (var t := Munch(s);
               var rest := s[t.len..];
               && (t.rule == 1 ==> Words(s) == [s[..t.len]] + Words(rest) && Newlines(s) == Newlines(rest))
               && (t.rule == 2 ==> Words(s) == [] && Newlines(s) == "")
               && (t.rule == 3 || t.rule == 4 ==> Words(s) == Words(rest) && Newlines(s) == Newlines(rest))
               && (t.rule == 5 ==> Words(s) == Words(rest) && Newlines(s) == s[..t.len] + Newlines(rest)))
  {
    if s != "" {
      NewlinesOfToken(s);
      hide Newlines, Munch;
    }
  }

  lemma NewlinesOfToken(s: string)
    requires s != ""
    ensures var t := Munch(s);
            Newlines(s) == if t.rule == 2 then "" else if t.rule == 5 then s[..t.len] + Newlines(s[t.len..])
                           else Newlines(s[t.len..])
  {
    var t := Munch(s);
    if t.rule == 1 || t.rule == 3 {
      hide Newlines;
      forall i | 0 <= i < t.len
        ensures s[i] != '\r' && s[i] != '\n'
      {
        assert s[..t.len][i] == s[i];
      }
      NoNewlines(s, t.len);
    } else {
      assert s[..1] == [s[0]];
    }
  }
}
