/** Completion of the last word of the line by the Tab key: cmd_complete of vty.c (lines 890-897) on
    the line buffer, composed with the scanner and cmd_finder. */
module Completion {
  import opened Limits
  import opened Lists
  import opened Zippers
  import opened LineBuffers
  import opened Displays
  import opened Tokens
  import opened Commands

  /** Where the text behind the last space of the line begins. */
  function WordStart(line: string): (k: nat)
    ensures k <= |line|
  {
    BackSpan(line, NonSpace)
  }

  /** The line after completion: the text behind the last space replaced by the match and a space. */
  function Completed(line: string, match_: string): string {
    line[..WordStart(line)] + match_ + " "
  }

  /** has_input: the cursor stands behind a character that is not a space. */
  predicate HasInput(line: string) { line != "" && line[|line| - 1] != ' ' }

  /** cmd_complete: back to the start of the word, then the match and a space are printed over it. The
      source does not check for room; the caller has to. */
  method CmdComplete(line: LineBuffer, match_: string)
    requires line.Valid() && line.ptr == line.index && HasInput(line.Line())
    requires '\0' !in match_ && WordStart(line.Line()) + |match_| + 1 <= MAX_LINE
    modifies line, line.buff
    ensures line.Valid() && line.Zip() == Zipper(Completed(old(line.Line()), match_), "")
  {
    ghost var s, b := line.Line(), line.buff[..];
    assert line.buff[line.ptr - 1] == s[|s| - 1];
    var more := true;
    while more && line.buff[line.ptr - 1] != ' '
      invariant line.buff[..] == b && line.index == old(line.index) == |s|
      invariant WordStart(s) <= line.ptr <= |s| && (!more <==> line.ptr == 0)
      decreases line.ptr
    {
      assert line.buff[line.ptr - 1] == s[line.ptr - 1];
      line.ptr := line.ptr - 1;
      more := line.ptr != 0;
    }
    assert more ==> line.buff[line.ptr - 1] == s[line.ptr - 1];
    ghost var k := line.ptr;
    assert k == WordStart(s);
    PrintAt(line, match_ + " ");
    var n := LengthOf(line.buff, s[..k] + (match_ + " "));
    line.index := n;
    CompletedBytes(line.buff[..], s[..k] + (match_ + " "));
    assert s[..k] + (match_ + " ") == Completed(s, match_);
  }

  lemma CompletedBytes(b: seq<char>, s: string)
    requires |b| == MAX_CMDLINE && HoldsString(b, s)
    ensures IsLine(b, |s|, |s|) && ZipOf(b, |s|, |s|) == Zipper(s, "")
  {
    forall i | 0 <= i < |s|
      ensures b[i] != '\0'
    {
      CharAt(b, s, i);
    }
  }

  /** sprintf at the cursor, which moves behind what is printed. */
  method PrintAt(line: LineBuffer, text: string)
    requires line.buff.Length == MAX_CMDLINE && line.ptr + |text| <= MAX_LINE
    requires '\0' !in text && '\0' !in line.buff[..line.ptr]
    modifies line`ptr, line.buff
    ensures line.ptr == old(line.ptr) + |text|
    ensures HoldsString(line.buff[..], old(line.buff[..line.ptr]) + text)
  {
    ghost var head := line.buff[..line.ptr];
    var p := line.ptr;
    forall i | 0 <= i < |text| {
      line.buff[p + i] := text[i];
    }
    line.buff[p + |text|] := '\0';
    line.ptr := p + |text|;
    assert line.buff[..p + |text|] == head + text;
  }

  /** strlen */
  method LengthOf(buff: array<char>, ghost s: string) returns (n: nat)
    requires HoldsString(buff[..], s)
    ensures n == |s|
  {
    n := 0;
    CharAt(buff[..], s, 0);
    while buff[n] != '\0'
      invariant n <= |s| && (buff[n] == '\0' <==> n == |s|)
      decreases |s| - n
    {
      n := n + 1;
      CharAt(buff[..], s, n);
    }
  }

  // ---------- what completion does to the words ----------

  function Front(ws: seq<string>): seq<string>
    requires ws != []
  {
    ws[..|ws| - 1]
  }

  /** A space ends whatever is scanned before it. */
  lemma {:induction false} WordsSplitAtSpace(pre: string, rest: string)
    requires '\r' !in pre && (pre != "" ==> pre[|pre| - 1] == ' ')
    requires rest != "" ==> !BlankSet.Has(rest[0])
    ensures Words(pre + rest) == Words(pre) + Words(rest)
    decreases |pre|
  {
    hide Words;
    if pre == "" {
      WordsOfNothing();
      assert pre + rest == rest && [] + Words(rest) == Words(rest);
    } else {
      var t := Munch(pre);
      MunchBeforeSpace(pre, rest);
      hide Munch;
      WordsAfterToken(pre);
      WordsAfterToken(pre + rest);
      assert (pre + rest)[..t.len] == pre[..t.len] && (pre + rest)[t.len..] == pre[t.len..] + rest;
      WordsSplitAtSpace(pre[t.len..], rest);
    }
  }

  lemma WordsOfNothing()
    ensures Words("") == []
  {
  }

  lemma WordsAfterToken(s: string)
    requires s != ""
    ensures var t := Munch(s);
            t.rule != 2 ==> Words(s) == (if t.rule == 1 then [s[..t.len]] else []) + Words(s[t.len..])
  {
  }

  lemma MunchBeforeSpace(pre: string, rest: string)
    requires pre != "" && pre[|pre| - 1] == ' '
    requires rest != "" ==> !BlankSet.Has(rest[0])
    ensures Munch(pre + rest) == Munch(pre) && (Munch(pre).rule == 2 ==> pre[0] == '\r')
  {
    RunBefore(WordSet, pre, rest);
    RunBefore(BlankSet, pre, rest);
    assert (pre + rest)[0] == pre[0];
  }

  lemma RunBefore(k: CharSet, pre: string, rest: string)
    requires pre != "" && pre[|pre| - 1] == ' ' && (k == WordSet || k == BlankSet)
    requires rest != "" ==> !BlankSet.Has(rest[0])
    ensures Run(k, pre + rest) == Run(k, pre)
  {
    var n := Run(k, pre);
    assert pre + rest == pre[..n] + (pre[n..] + rest);
    if n == |pre| {
      assert pre[..n][n - 1] == ' ';
      assert pre[n..] + rest == rest;
    }
    RunOfWord(k, pre[..n], pre[n..] + rest);
  }

  lemma WordsOfLastWord(pre: string, w: string, rest: string)
    requires '\r' !in pre && (pre != "" ==> pre[|pre| - 1] == ' ') && IsWord(w)
    requires rest == "" || rest == " "
    ensures Words(pre + w + rest) == Words(pre) + [w]
  {
    assert pre + w + rest == pre + (w + rest);
    WordsSplitAtSpace(pre, w + rest);
    WordsOfWord(w, rest);
    assert seq(1, _ => ' ') + "" == " ";
    WordsOfSpaces(1, "");
  }

  /** Completion replaces the last word of the line by the match and leaves the others. */
  lemma WordsOfCompleted(line: string, match_: string)
    requires '\r' !in line && IsWord(line[WordStart(line)..]) && IsWord(match_)
    ensures Words(line) != [] && Words(line)[|Words(line)| - 1] == line[WordStart(line)..]
    ensures Words(Completed(line, match_)) == Front(Words(line)) + [match_]
  {
    hide Words, IsWord;
    var pre, w := line[..WordStart(line)], line[WordStart(line)..];
    assert pre != "" ==> pre[|pre| - 1] == ' ' by {
      assert pre != "" ==> !NonSpace.Has(line[|pre| - 1]);
    }
    assert pre + w + "" == line;
    WordsOfLastWord(pre, w, "");
    WordsOfLastWord(pre, match_, " ");
  }

  // ---------- what completion does to the match ----------

  /** A longer prefix of the only candidate's name still has it as the only candidate. */
  lemma {:induction false} CandidatesNarrow(menu: seq<Link<Cmd>>, word: string, longer: string, privilege: int)
    requires word <= longer
    ensures var c, d := Candidates(menu, word, privilege), Candidates(menu, longer, privilege);
            && (c == [] ==> d == [])
            && (|c| == 1 ==> d == if longer <= Name(c[0]) then c else [])
    decreases |menu|
  {
    if menu != [] {
      CandidatesNarrow(menu[..|menu| - 1], word, longer, privilege);
    }
  }

  /** A walk for completion that finds a command has one candidate for its first word, and goes on there. */
  lemma FindStep(f: Forest, h: Link<Cmd>, words: seq<string>, privilege: int)
    requires Closed(f) && h in f && words != []
    ensures var c, r := Candidates(f[h], words[0], privilege), Find(f, h, words, COMPLETE, privilege);
            if |c| != 1 then r.0 != CMD_FOUND
            else if |words| == 1 then r == (CMD_FOUND, Some(c[0]))
            else c[0] in f[h] && Fits(c[0], words[0], privilege)
                 && r == Find(f, ChildOf(c[0]), words[1..], COMPLETE, privilege)
  {
    hide Candidates;
  }

  /** If a walk for completion finds a command, its name in place of the last word finds it again. */
  lemma {:induction false} FindWithName(f: Forest, h: Link<Cmd>, words: seq<string>, privilege: int)
    requires Closed(f) && h in f && words != []
    requires Find(f, h, words, COMPLETE, privilege).0 == CMD_FOUND
    ensures var m := Find(f, h, words, COMPLETE, privilege).1;
            && m.Some? && m.value.container.Some? && words[|words| - 1] <= Name(m.value)
            && Find(f, h, Front(words) + [Name(m.value)], COMPLETE, privilege) == (CMD_FOUND, m)
    decreases |words|
  {
    hide Candidates, Find;
    FindStep(f, h, words, privilege);
    var c := Candidates(f[h], words[0], privilege);
    var m := Find(f, h, words, COMPLETE, privilege).1;
    var words' := Front(words) + [Name(c[0])];
    if |words| == 1 {
      CandidatesNarrow(f[h], words[0], Name(c[0]), privilege);
      FindStep(f, h, words', privilege);
      assert words' == [Name(c[0])];
    } else {
      FindWithName(f, ChildOf(c[0]), words[1..], privilege);
      words' := Front(words) + [Name(m.value)];
      FindStep(f, h, words', privilege);
      assert words'[1..] == Front(words[1..]) + [Name(m.value)];
    }
  }

  lemma SpacelessPrefix(w: string, text: string)
    requires forall i :: 0 <= i < |w| ==> w[i] != ' '
    ensures w <= text + " " <==> w <= text
  {
    var longer := text + " ";
    if w <= longer {
      assert longer[|text|] == ' ';
    }
  }

  lemma PrefixBehind(head: string, a: string, b: string)
    ensures head + a <= head + b <==> a <= b
  {
    if head + a <= head + b {
      assert a == (head + a)[|head|..] && b == (head + b)[|head|..];
      assert (head + b)[..|head + a|] == head + a;
    }
  }

  /** The typed line stays a prefix of the completed one iff the text behind its last space is a
      prefix of the match: not when a character the scanner drops is glued to the word. */
  lemma TypedTextStaysIff(line: string, match_: string)
    ensures line <= Completed(line, match_) <==> line[WordStart(line)..] <= match_
  {
    var k := WordStart(line);
    var w := line[k..];
    assert line == line[..k] + w && Completed(line, match_) == line[..k] + (match_ + " ");
    forall i | 0 <= i < |w|
      ensures w[i] != ' '
    {
      assert NonSpace.Has(line[k + i]);
    }
    PrefixBehind(line[..k], w, match_ + " ");
    SpacelessPrefix(w, match_);
  }

  /** Completion only appends and is stable: for a line of at most nine words, the last behind a space,
      the typed text stays a prefix, and scanning the completed line and looking it up again finds the
      same command. */
  lemma CompletionIsStable(f: Forest, h: Link<Cmd>, line: string, privilege: int)
    requires Closed(f) && h in f && '\r' !in line && IsWord(line[WordStart(line)..])
    requires |Words(line)| < MAX_ARGS && Args(line) != []
    requires Find(f, h, Args(line), COMPLETE, privilege).0 == CMD_FOUND
    ensures var m := Find(f, h, Args(line), COMPLETE, privilege).1;
            && m.Some? && m.value.container.Some?
            && line <= Completed(line, Name(m.value))
            && (IsWord(Name(m.value)) ==>
                  var line' := Completed(line, Name(m.value));
                  && Args(line') == Front(Args(line)) + [Name(m.value)]
                  && Find(f, h, Args(line'), COMPLETE, privilege) == (CMD_FOUND, m))
  {
    hide Words, Find, IsWord;
    WordsOfCompleted(line, line[WordStart(line)..]);
    FindWithName(f, h, Words(line), privilege);
    var name := Name(Find(f, h, Words(line), COMPLETE, privilege).1.value);
    TypedTextStaysIff(line, name);
    if IsWord(name) {
      WordsOfCompleted(line, name);
    }
  }

  /** Beyond nine words the lookup no longer sees the last word, and its match is printed over it:
      the words in front stay, and the last one becomes the name of a command the ninth word fits. */
  lemma CompletionBeyondNine(f: Forest, h: Link<Cmd>, line: string, privilege: int)
    requires Closed(f) && h in f && '\r' !in line && IsWord(line[WordStart(line)..])
    requires |Words(line)| >= MAX_ARGS && Find(f, h, Args(line), COMPLETE, privilege).0 == CMD_FOUND
    ensures var m := Find(f, h, Args(line), COMPLETE, privilege).1;
            && m.Some? && m.value.container.Some? && Words(line)[MAX_ARGS - 2] <= Name(m.value)
            && (IsWord(Name(m.value)) ==>
                  Words(Completed(line, Name(m.value))) == Front(Words(line)) + [Name(m.value)])
  {
    FindWithName(f, h, Args(line), privilege);
    var name := Name(Find(f, h, Args(line), COMPLETE, privilege).1.value);
    if IsWord(name) {
      WordsOfCompleted(line, name);
    }
  }
}
