/** One keystroke of readline, and whole runs of them: the editor as a state machine over
    zippers, the bytes it sends, and the proof that the screen follows (vty.c:750-811, 961-1009). */
module Editing {
  import opened Limits
  import opened Terminal
  import opened Redisplay
  import opened Zippers
  import opened Histories

  const CTRL_A := '\U{0001}'
  const CTRL_B := '\U{0002}'
  const CTRL_C := '\U{0003}'
  const CTRL_E := '\U{0005}'
  const CTRL_F := '\U{0006}'
  const CTRL_L := '\U{000C}'
  const CTRL_N := '\U{000E}'
  const CTRL_P := '\U{0010}'
  const CTRL_R := '\U{0012}'
  const CTRL_T := '\U{0014}'
  const CTRL_U := '\U{0015}'
  const CTRL_W := '\U{0017}'
  const CTRL_X := '\U{0018}'
  const ESC := '\U{001B}'

  /** The browsed history, its position, the draft kept while browsing, and the line. */
  datatype Nav = Nav(entries: seq<string>, pos: nat, draft: string, z: Zipper)

  /** What the session remembers between keystrokes. */
  datatype Edit = Edit(nav: Nav, escape: bool, quote: bool)

  /** What a keystroke makes readline do besides changing the state: nothing and no redisplay,
      just the redisplay, the bell before it, or a fresh prompt before it. */
  datatype Reaction = Skip | Quiet | Bell | Reprint

  /** hist_write_entry: the stored line, used as a format. */
  function Recall(n: Nav, pos: nat, line: string): Nav {
    n.(pos := pos, z := Zipper(Recalled(line), []))
  }

  /** history_next: towards older entries, saving the draft on leaving it. */
  function Older(n: Nav): Nav
    requires n.pos <= |n.entries|
  {
    if n.pos == 0 then n
    else
      var d := if n.pos == |n.entries| then n.z.Text() else n.draft;
      Recall(n.(draft := d), n.pos - 1, n.entries[n.pos - 1])
  }

  /** history_prev: towards newer entries, ending at the draft. */
  function Newer(n: Nav): Nav
    requires n.pos <= |n.entries|
  {
    if n.pos == |n.entries| then n
    else if n.pos + 1 == |n.entries| then Recall(n, n.pos + 1, n.draft)
    else Recall(n, n.pos + 1, n.entries[n.pos + 1])
  }

  function Line(e: Edit): Zipper { e.nav.z }

  function WithLine(e: Edit, z: Zipper): Edit { e.(nav := e.nav.(z := z)) }

  function Type(e: Edit, c: char): (Edit, Reaction) {
    var z := Insert(Line(e), c);
    (WithLine(e, z), if z == Line(e) then Bell else Quiet)
  }

  /** The editing operations keys are bound to; Nothing succeeds without effect, Unbound rings the bell. */
  datatype Op =
    | OpHome | OpEnd | OpBack | OpForward | OpWordBack | OpWordForward
    | OpErase | OpEraseWord | OpEraseLine
    | OpCapitalize | OpLower | OpUpper
    | OpOlder | OpNewer | OpReprint | OpEscape | OpQuote | Nothing | Unbound

  /** spec_chars_hdl */
  function ControlOp(c: char): Op {
    if c == CTRL_A then OpHome
    else if c == CTRL_E then OpEnd
    else if c == CTRL_B then OpBack
    else if c == CTRL_F then OpForward
    else if c == DEL || c == BS then OpErase
    else if c == CTRL_R || c == CTRL_L then OpReprint
    else if c == CTRL_N then OpOlder
    else if c == CTRL_P then OpNewer
    else if c == CTRL_T then Nothing
    else if c == ESC then OpEscape
    else if c == CTRL_X || c == CTRL_U then OpEraseLine
    else if c == CTRL_W then OpEraseWord
    else Unbound
  }

  /** esc_chars_hdl */
  function EscapeOp(c: char): Op {
    if c == '<' || c == '>' || c == 'd' then Nothing
    else if c == 'Q' || c == 'q' then OpQuote
    else if c == 'A' then OpOlder
    else if c == 'B' then OpNewer
    else if c == 'C' then OpForward
    else if c == 'D' then OpBack
    else if c == 'b' then OpWordBack
    else if c == 'f' then OpWordForward
    else if c == 'c' then OpCapitalize
    else if c == 'l' then OpLower
    else if c == 'u' then OpUpper
    else if c == DEL then OpEraseLine
    else Unbound
  }

  /** The operations that change only the line and its cursor. */
  function EditLine(op: Op, z: Zipper): Zipper {
    match op
    case OpHome => Home(z)
    case OpEnd => End(z)
    case OpBack => Back(z)
    case OpForward => Forward(z)
    case OpWordBack => WordBack(z)
    case OpWordForward => WordForward(z)
    case OpErase => EraseChar(z)
    case OpEraseWord => EraseWord(z)
    case OpEraseLine => EraseToStart(z)
    case OpCapitalize => CapitalizeWord(z)
    case OpLower => LowerWord(z)
    case OpUpper => UpperWord(z)
    case _ => z
  }

  function Perform(e: Edit, op: Op): (Edit, Reaction)
    requires e.nav.pos <= |e.nav.entries|
  {
    match op
    case OpOlder => (e.(nav := Older(e.nav)), if e.nav.pos == 0 then Bell else Quiet)
    case OpNewer => (e.(nav := Newer(e.nav)), if e.nav.pos == |e.nav.entries| then Bell else Quiet)
    case OpReprint => (e, Reprint)
    case OpEscape => (e.(escape := true), Quiet)
    case OpQuote => (e.(quote := true), Quiet)
    case Unbound => (e, Bell)
    case _ => (WithLine(e, EditLine(op, Line(e))), if op == OpErase && Line(e).left == [] then Bell else Quiet)
  }

  /** One pass of readline's loop over a key that neither breaks nor cancels the line. */
  function React(e: Edit, c: char): (Edit, Reaction)
    requires e.nav.pos <= |e.nav.entries|
  {
    if e.escape then
      if c == 'O' || c == '[' then (e, Skip)
      else var (e', r) := Perform(e, EscapeOp(c)); (e'.(escape := false), r)
    else if e.quote then
      if c != '\r' && c < DEL then var (e', r) := Type(e, c); (e'.(quote := false), r)
      else (e.(quote := false), Quiet)
    else if c < ' ' || c == DEL then Perform(e, ControlOp(c))
    else Type(e, c)
  }

  /** The bytes one pass sends with echo on. */
  function Paint(e: Edit, c: char, prompt: string): string
    requires e.nav.pos <= |e.nav.entries|
  {
    var (e', r) := React(e, c);
    var was, now := Line(e), Line(e');
    match r
    case Skip => ""
    case Quiet => UpdateBytes(was.Text(), |was.left|, now.Text(), |now.left|)
    case Bell => [BELL] + UpdateBytes(was.Text(), |was.left|, now.Text(), |now.left|)
    case Reprint => ("\r\n" + prompt) + UpdateBytes("", 0, now.Text(), |now.left|)
  }

  /** The characters a text may consist of: those that occupy a cell, or all bytes but NUL. */
  datatype Repertoire = Visible | Bytes {
    predicate Has(c: char) {
      match this
      case Visible => IsPrintable(c)
      case Bytes => 0 < c as int < 256
    }

    predicate All(s: string) {
      forall i :: 0 <= i < |s| ==> Has(s[i])
    }
  }

  predicate IsLineText(k: Repertoire, s: string) {
    |s| <= MAX_LINE && k.All(s)
  }

  /** Every line fits the buffer and holds such characters only. */
  predicate SaneNav(k: Repertoire, n: Nav) {
    && n.pos <= |n.entries|
    && IsLineText(k, n.z.Text())
    && IsLineText(k, n.draft)
    && forall i :: 0 <= i < |n.entries| ==> IsLineText(k, n.entries[i])
  }

  predicate Sane(e: Edit) { SaneNav(Visible, e.nav) }

  /** The key is inserted into the line, if there is room. */
  predicate Types(e: Edit, c: char) {
    !e.escape && if e.quote then c != '\r' && c < DEL else ' ' <= c && c != DEL
  }

  /** A quoted key may be a control character. */
  predicate CleanKey(e: Edit, c: char) {
    e.quote && !e.escape ==> ' ' <= c || c == '\r'
  }

  lemma PartsOf(k: Repertoire, a: string, b: string)
    ensures k.All(a + b) <==> k.All(a) && k.All(b)
  {
    if k.All(a + b) {
      assert forall i :: 0 <= i < |a| ==> a[i] == (a + b)[i];
      assert forall i :: 0 <= i < |b| ==> b[i] == (a + b)[|a| + i];
    }
  }

  lemma RecaseKeeps(k: Repertoire, s: string, f: LetterCase)
    requires k.All(s)
    ensures k.All(Recase(s, f))
  {
  }

  lemma TypeKeeps(k: Repertoire, z: Zipper, c: char)
    requires IsLineText(k, z.Text()) && k.Has(c)
    ensures IsLineText(k, Insert(z, c).Text())
  {
    PartsOf(k, z.left, z.right);
    PartsOf(k, z.left + [c], z.right);
  }

  lemma ErasuresKeep(k: Repertoire, z: Zipper)
    requires IsLineText(k, z.Text())
    ensures IsLineText(k, EraseChar(z).Text()) && IsLineText(k, EraseWord(z).Text()) && IsLineText(k, EraseToStart(z).Text())
  {
    PartsOf(k, z.left, z.right);
    PartsOf(k, EraseChar(z).left, z.right);
    PartsOf(k, EraseWord(z).left, z.right);
    PartsOf(k, [], z.right);
  }

  lemma ConvertKeeps(k: Repertoire, z: Zipper, f: LetterCase)
    requires IsLineText(k, z.Text())
    ensures IsLineText(k, Convert(z, f).Text())
  {
    var n := Span(z.right, WordChar);
    PartsOf(k, z.left, z.right);
    PartsOf(k, z.right[..n], z.right[n..]);
    assert z.right[..n] + z.right[n..] == z.right;
    RecaseKeeps(k, z.right[..n], f);
    PartsOf(k, z.left, Recase(z.right[..n], f));
    PartsOf(k, Convert(z, f).left, z.right[n..]);
  }

  lemma CaseWordKeeps(k: Repertoire, z: Zipper, f: LetterCase)
    requires IsLineText(k, z.Text())
    ensures IsLineText(k, Convert(SkipGap(z), f).Text())
  {
    RightByKeepsTail(z, Span(z.right, Delimiter));
    ConvertKeeps(k, SkipGap(z), f);
  }

  lemma UpperNextKeeps(k: Repertoire, y: Zipper)
    requires IsLineText(k, y.Text()) && y.right != []
    ensures IsLineText(k, UpperNext(y).Text())
  {
    PartsOf(k, y.left, y.right);
    PartsOf(k, y.left, [Upper.Of(y.right[0])]);
    PartsOf(k, UpperNext(y).left, UpperNext(y).right);
  }

  lemma CapitalizeKeeps(k: Repertoire, z: Zipper)
    requires IsLineText(k, z.Text())
    ensures IsLineText(k, CapitalizeWord(z).Text())
  {
    var y := SkipGap(z);
    RightByKeepsTail(z, Span(z.right, Delimiter));
    if y.right != [] {
      UpperNextKeeps(k, y);
      ConvertKeeps(k, UpperNext(y), Lower);
    }
  }

  /** What every line edit guarantees: the new line is well formed and redrawable from the old. */
  predicate GoodEdit(k: Repertoire, z: Zipper, z': Zipper) {
    IsLineText(k, z'.Text()) && Redrawable(z, z')
  }

  lemma EditLineIsGood(k: Repertoire, op: Op, z: Zipper)
    requires IsLineText(k, z.Text())
    ensures GoodEdit(k, z, EditLine(op, z))
  {
    match op {
      case OpErase | OpEraseWord | OpEraseLine =>
        ErasuresKeep(k, z);
        ErasuresAreRedrawable(z);
      case OpCapitalize =>
        CapitalizeKeeps(k, z);
        CapitalizeIsRedrawable(z);
      case OpLower =>
        CaseWordKeeps(k, z, Lower);
        CaseWordIsRedrawable(z, Lower);
      case OpUpper =>
        CaseWordKeeps(k, z, Upper);
        CaseWordIsRedrawable(z, Upper);
      case _ =>
        MovesKeepText(z);
        SameTextIsRedrawable(z, EditLine(op, z));
    }
  }

  lemma RecallIsRedrawable(z: Zipper, line: string)
    ensures Zipper(line, []).Text() == line
    ensures Redrawable(z, Zipper(line, []))
  {
    assert line + [] == line;
  }

  lemma RecalledKeeps(k: Repertoire, line: string)
    requires IsLineText(k, line)
    ensures IsLineText(k, Recalled(line))
  {
    RecalledCopiesIff(line);
    forall i | 0 <= i < |Recalled(line)|
      ensures k.Has(Recalled(line)[i])
    {
      var j :| 0 <= j < |line| && line[j] == Recalled(line)[i];
    }
  }

  /** Recalling a line. */
  lemma RecallIsGood(k: Repertoire, n: Nav, pos: nat, line: string)
    requires SaneNav(k, n) && pos <= |n.entries| && IsLineText(k, line)
    ensures SaneNav(k, Recall(n, pos, line)) && Redrawable(n.z, Recall(n, pos, line).z)
  {
    RecalledKeeps(k, line);
    RecallIsRedrawable(n.z, Recalled(line));
  }

  lemma RecallsAreGood(k: Repertoire, n: Nav)
    requires SaneNav(k, n)
    ensures SaneNav(k, Older(n)) && Redrawable(n.z, Older(n).z)
    ensures SaneNav(k, Newer(n)) && Redrawable(n.z, Newer(n).z)
  {
    hide Recall, Recalled, Redrawable;
    SameTextIsRedrawable(n.z, n.z);
    if n.pos > 0 {
      var d := if n.pos == |n.entries| then n.z.Text() else n.draft;
      RecallIsGood(k, n.(draft := d), n.pos - 1, n.entries[n.pos - 1]);
    }
    if n.pos + 1 < |n.entries| {
      RecallIsGood(k, n, n.pos + 1, n.entries[n.pos + 1]);
    } else if n.pos < |n.entries| {
      RecallIsGood(k, n, n.pos + 1, n.draft);
    }
  }

  /** The outcome of a keystroke is sane and redrawable; without a redisplay the line is unchanged. */
  predicate GoodReaction(k: Repertoire, n: Nav, n': Nav, r: Reaction) {
    && SaneNav(k, n')
    && Redrawable(n.z, n'.z)
    && (r == Skip || r == Reprint ==> n'.z == n.z)
  }

  lemma PerformIsGood(k: Repertoire, e: Edit, op: Op)
    requires SaneNav(k, e.nav)
    ensures GoodReaction(k, e.nav, Perform(e, op).0.nav, Perform(e, op).1)
  {
    RecallsAreGood(k, e.nav);
    EditLineIsGood(k, op, Line(e));
    SameTextIsRedrawable(Line(e), Line(e));
  }

  lemma TypeIsGood(k: Repertoire, e: Edit, c: char)
    requires SaneNav(k, e.nav) && (k.Has(c) || |Line(e).Text()| == MAX_LINE)
    ensures GoodReaction(k, e.nav, Type(e, c).0.nav, Type(e, c).1)
  {
    if k.Has(c) {
      TypeKeeps(k, Line(e), c);
    }
    InsertIsRedrawable(Line(e), c);
  }

  /** Every keystroke keeps the state sane and yields a line the incremental redisplay can draw. */
  lemma ReactIsGood(k: Repertoire, e: Edit, c: char)
    requires SaneNav(k, e.nav) && (Types(e, c) ==> k.Has(c) || |Line(e).Text()| == MAX_LINE)
    ensures GoodReaction(k, e.nav, React(e, c).0.nav, React(e, c).1)
  {
    SameTextIsRedrawable(Line(e), Line(e));
    if e.escape {
      PerformIsGood(k, e, EscapeOp(c));
    } else if Types(e, c) {
      TypeIsGood(k, e, c);
    } else if !e.quote {
      PerformIsGood(k, e, ControlOp(c));
    }
  }

  /** Where the input line starts on its row after the keystroke. */
  function BaseAfter(e: Edit, c: char, base: nat, prompt: string): nat
    requires e.nav.pos <= |e.nav.entries|
  {
    if React(e, c).1 == Reprint then |prompt| else base
  }

  lemma ReplayPrompt(s: Screen, prompt: string)
    requires Printable(prompt)
    ensures Shows(Replay(s, "\r\n" + prompt), |prompt|, "", 0)
  {
    ReplayConcat(s, "\r\n", prompt);
    ReplayNewLine(s);
    ReplayPrintable(Screen(map[], 0), prompt);
  }

  lemma ReplayBell(s: Screen)
    ensures Replay(s, [BELL]) == s
  {
    assert [BELL][..0] == [];
  }

  /** One pass: if the screen shows the line before it, it shows the line after it. */
  lemma PaintShows(s: Screen, base: nat, e: Edit, c: char, prompt: string)
    requires Sane(e) && CleanKey(e, c) && Printable(prompt)
    requires Shows(s, base, Line(e).Text(), Line(e).Cursor())
    ensures var z := Line(React(e, c).0);
            Shows(Replay(s, Paint(e, c, prompt)), BaseAfter(e, c, base, prompt), z.Text(), z.Cursor())
  {
    ReactIsGood(Visible, e, c);
    var (e', r) := React(e, c);
    var z, z' := Line(e), Line(e');
    assert z'.Text()[z'.Cursor()..] == z'.right;
    match r {
      case Skip =>
      case Quiet =>
        UpdateFromShownIff(s, base, z.Text(), z.Cursor(), z'.Text(), z'.Cursor());
      case Bell =>
        ReplayBell(s);
        ReplayConcat(s, [BELL], UpdateBytes(z.Text(), |z.left|, z'.Text(), |z'.left|));
        UpdateFromShownIff(s, base, z.Text(), z.Cursor(), z'.Text(), z'.Cursor());
      case Reprint =>
        ReplayPrompt(s, prompt);
        ReplayConcat(s, "\r\n" + prompt, UpdateBytes("", 0, z'.Text(), |z'.left|));
        UpdateFromShownIff(Replay(s, "\r\n" + prompt), |prompt|, "", 0, z'.Text(), z'.Cursor());
    }
  }

  /** Exact for one pass: the screen follows iff no control character was inserted, that is, iff
      none was quoted or the line was full. */
  lemma PaintShowsIff(s: Screen, base: nat, e: Edit, c: char, prompt: string)
    requires Sane(e) && Printable(prompt)
    requires Shows(s, base, Line(e).Text(), Line(e).Cursor())
    ensures var z := Line(React(e, c).0);
            (Shows(Replay(s, Paint(e, c, prompt)), BaseAfter(e, c, base, prompt), z.Text(), z.Cursor())
             <==> DrawnKey(e, c))
  {
    if CleanKey(e, c) {
      PaintShows(s, base, e, c, prompt);
    } else if |Line(e).Text()| == MAX_LINE {
      var z := Line(e);
      ReplayBell(s);
      ReplayConcat(s, [BELL], UpdateBytes(z.Text(), |z.left|, z.Text(), |z.left|));
      UpdateFromShownIff(s, base, z.Text(), z.Cursor(), z.Text(), z.Cursor());
    } else {
      QuotedControlIsNeverShown(s, base, e, c, prompt);
    }
  }

  lemma QuotedControlIsTyped(e: Edit, c: char)
    requires Sane(e) && !CleanKey(e, c) && |Line(e).Text()| < MAX_LINE
    ensures Line(React(e, c).0) == Zipper(Line(e).left + [c], Line(e).right) && React(e, c).1 == Quiet
  {
    hide UpdateBytes;
  }

  lemma QuotedControlIsNeverShown(s: Screen, base: nat, e: Edit, c: char, prompt: string)
    requires Sane(e) && !CleanKey(e, c) && |Line(e).Text()| < MAX_LINE
    requires Shows(s, base, Line(e).Text(), Line(e).Cursor())
    ensures var z := Line(React(e, c).0);
            !Shows(Replay(s, Paint(e, c, prompt)), BaseAfter(e, c, base, prompt), z.Text(), z.Cursor())
  {
    hide React, Paint, Replay;
    QuotedControlIsTyped(e, c);
    var z, z' := Line(e), Line(React(e, c).0);
    var p := |z.left|;
    assert z'.Text()[p] == c && !IsPrintable(c);
    SaneLineIsPrintable(e);
    assert Cell(s, base + p) == LineCell(z.Text(), base + p - base);
    CellStaysOrPrintable(s, Paint(e, c, prompt), base + p);
    assert Cell(Replay(s, Paint(e, c, prompt)), base + p) != LineCell(z'.Text(), base + p - base);
  }

  lemma SaneLineIsPrintable(e: Edit)
    requires Sane(e)
    ensures Printable(Line(e).Text()) && e.nav.pos <= |e.nav.entries|
  {
  }

  // ---------- whole runs ----------

  /** The state after a sequence of keys. */
  function Run(e: Edit, keys: string): (r: Edit)
    requires e.nav.pos <= |e.nav.entries|
    ensures r.nav.pos <= |r.nav.entries|
  {
    if keys == [] then e else React(Run(e, keys[..|keys| - 1]), keys[|keys| - 1]).0
  }

  /** All bytes sent for a sequence of keys with echo on. */
  function Emission(e: Edit, keys: string, prompt: string): string
    requires e.nav.pos <= |e.nav.entries|
  {
    if keys == [] then ""
    else
      var init := keys[..|keys| - 1];
      Emission(e, init, prompt) + Paint(Run(e, init), keys[|keys| - 1], prompt)
  }

  function BaseAfterAll(e: Edit, keys: string, base: nat, prompt: string): nat
    requires e.nav.pos <= |e.nav.entries|
  {
    if keys == [] then base
    else
      var init := keys[..|keys| - 1];
      BaseAfter(Run(e, init), keys[|keys| - 1], BaseAfterAll(e, init, base, prompt), prompt)
  }

  /** No control character is inserted by quoting: none is quoted, or the line is full. */
  predicate DrawnKey(e: Edit, c: char) {
    CleanKey(e, c) || |Line(e).Text()| == MAX_LINE
  }

  predicate CleanKeys(e: Edit, keys: string)
    requires e.nav.pos <= |e.nav.entries|
  {
    forall i :: 0 <= i < |keys| ==> DrawnAt(e, keys, i)
  }

  predicate DrawnAt(e: Edit, keys: string, i: nat)
    requires e.nav.pos <= |e.nav.entries| && i < |keys|
  {
    DrawnKey(Run(e, keys[..i]), keys[i])
  }

  lemma DrawnAtInit(e: Edit, keys: string, i: nat)
    requires e.nav.pos <= |e.nav.entries| && i + 1 < |keys|
    ensures DrawnAt(e, keys[..|keys| - 1], i) <==> DrawnAt(e, keys, i)
  {
    hide Run, DrawnKey;
    assert keys[..|keys| - 1][..i] == keys[..i];
  }

  lemma DrawnAtLast(e: Edit, keys: string)
    requires e.nav.pos <= |e.nav.entries| && keys != []
    ensures DrawnAt(e, keys, |keys| - 1) <==> DrawnKey(Run(e, keys[..|keys| - 1]), keys[|keys| - 1])
  {
    hide Run, DrawnKey;
  }

  lemma CleanKeysStep(e: Edit, keys: string)
    requires e.nav.pos <= |e.nav.entries| && keys != []
    ensures CleanKeys(e, keys)
       <==> CleanKeys(e, keys[..|keys| - 1]) && DrawnKey(Run(e, keys[..|keys| - 1]), keys[|keys| - 1])
  {
    hide DrawnAt, React, DrawnKey;
    var init := keys[..|keys| - 1];
    DrawnAtLast(e, keys);
    forall i | 0 <= i < |init|
      ensures DrawnAt(e, init, i) <==> DrawnAt(e, keys, i)
    {
      DrawnAtInit(e, keys, i);
    }
    if CleanKeys(e, keys) {
      assert DrawnAt(e, keys, |init|) && CleanKeys(e, init);
    }
  }

  /** After the keys the row shows exactly the line followed by blanks, with the cursor in place. */
  ghost predicate ShowsAfter(s: Screen, base: nat, e: Edit, keys: string, prompt: string)
    requires e.nav.pos <= |e.nav.entries|
  {
    var z := Line(Run(e, keys));
    Shows(Replay(s, Emission(e, keys, prompt)), BaseAfterAll(e, keys, base, prompt), z.Text(), z.Cursor())
  }

  lemma RunUnfolds(e: Edit, keys: string, base: nat, prompt: string)
    requires e.nav.pos <= |e.nav.entries| && keys != []
    ensures var init, c := keys[..|keys| - 1], keys[|keys| - 1];
            && Run(e, keys) == React(Run(e, init), c).0
            && Emission(e, keys, prompt) == Emission(e, init, prompt) + Paint(Run(e, init), c, prompt)
            && BaseAfterAll(e, keys, base, prompt) == BaseAfter(Run(e, init), c, BaseAfterAll(e, init, base, prompt), prompt)
  {
    hide React, Paint, BaseAfter;
  }

  /** One more key: if the screen has followed so far, it follows the key iff it is drawn. */
  lemma ShowsAfterStep(s: Screen, base: nat, e: Edit, keys: string, prompt: string)
    requires e.nav.pos <= |e.nav.entries| && keys != [] && Printable(prompt)
    ensures var init, c := keys[..|keys| - 1], keys[|keys| - 1];
            var m := Run(e, init);
            Sane(m) && ShowsAfter(s, base, e, init, prompt) ==>
              && (ShowsAfter(s, base, e, keys, prompt) <==> DrawnKey(m, c))
              && (DrawnKey(m, c) ==> Sane(Run(e, keys)))
  {
    hide Run, Emission, BaseAfterAll, BaseAfter, Shows, Replay, Paint, React, SaneNav, DrawnKey;
    var init, c := keys[..|keys| - 1], keys[|keys| - 1];
    var m := Run(e, init);
    if Sane(m) && ShowsAfter(s, base, e, init, prompt) {
      RunUnfolds(e, keys, base, prompt);
      if DrawnKey(m, c) {
        DrawnKeepsSane(m, c);
      }
      PaintShowsIff(Replay(s, Emission(e, init, prompt)), BaseAfterAll(e, init, base, prompt), m, c, prompt);
      ReplayConcat(s, Emission(e, init, prompt), Paint(m, c, prompt));
    }
  }

  lemma DrawnKeepsSane(e: Edit, c: char)
    requires Sane(e) && DrawnKey(e, c)
    ensures Sane(React(e, c).0)
  {
    ReactIsGood(Visible, e, c);
  }

  /** The redisplay theorem: if no control character is inserted, then after any sequence of keys,
      hence after every pass of the loop, the screen shows the line and the cursor. */
  lemma {:induction false} ScreenFollowsEveryRun(s: Screen, base: nat, e: Edit, keys: string, prompt: string)
    requires Sane(e) && CleanKeys(e, keys) && Printable(prompt)
    requires Shows(s, base, Line(e).Text(), Line(e).Cursor())
    ensures Sane(Run(e, keys)) && ShowsAfter(s, base, e, keys, prompt)
  {
    if keys != [] {
      CleanKeysStep(e, keys);
      hide CleanKeys, ShowsAfter, DrawnKey;
      ScreenFollowsEveryRun(s, base, e, keys[..|keys| - 1], prompt);
      ShowsAfterStep(s, base, e, keys, prompt);
    }
  }

  /** The screen follows pass by pass. */
  ghost predicate ShowsThroughout(s: Screen, base: nat, e: Edit, keys: string, prompt: string)
    requires e.nav.pos <= |e.nav.entries|
  {
    forall n :: 0 <= n <= |keys| ==> ShowsAfter(s, base, e, keys[..n], prompt)
  }

  lemma ShowsThroughoutStep(s: Screen, base: nat, e: Edit, keys: string, prompt: string)
    requires e.nav.pos <= |e.nav.entries| && keys != []
    ensures ShowsThroughout(s, base, e, keys, prompt)
       <==> ShowsThroughout(s, base, e, keys[..|keys| - 1], prompt) && ShowsAfter(s, base, e, keys, prompt)
  {
    hide ShowsAfter;
    var init := keys[..|keys| - 1];
    assert keys[..|keys|] == keys;
    forall n | 0 <= n <= |init|
      ensures init[..n] == keys[..n]
    {
    }
    if ShowsThroughout(s, base, e, init, prompt) && ShowsAfter(s, base, e, keys, prompt) {
      forall n | 0 <= n <= |keys|
        ensures ShowsAfter(s, base, e, keys[..n], prompt)
      {
        if n <= |init| {
          assert ShowsAfter(s, base, e, init[..n], prompt);
        }
      }
    }
    if ShowsThroughout(s, base, e, keys, prompt) {
      assert ShowsAfter(s, base, e, keys[..|keys|], prompt);
      forall n | 0 <= n <= |init|
        ensures ShowsAfter(s, base, e, init[..n], prompt)
      {
        assert ShowsAfter(s, base, e, keys[..n], prompt);
      }
    }
  }

  /** And exactly then: the screen shows the line after every pass iff no key inserts a control
      character. */
  lemma {:induction false} ScreenFollowsIff(s: Screen, base: nat, e: Edit, keys: string, prompt: string)
    requires Sane(e) && Printable(prompt) && Shows(s, base, Line(e).Text(), Line(e).Cursor())
    ensures ShowsThroughout(s, base, e, keys, prompt) <==> CleanKeys(e, keys)
    decreases |keys|
  {
    SaneLineIsPrintable(e);
    hide Shows, ShowsAfter, SaneNav;
    if keys == [] {
      ScreenFollowsEveryRun(s, base, e, keys, prompt);
      assert forall n :: 0 <= n <= |keys| ==> keys[..n] == keys;
    } else {
      hide CleanKeys, DrawnKey, ShowsThroughout;
      var init := keys[..|keys| - 1];
      CleanKeysStep(e, keys);
      ShowsThroughoutStep(s, base, e, keys, prompt);
      ScreenFollowsIff(s, base, e, init, prompt);
      if CleanKeys(e, init) {
        ScreenFollowsEveryRun(s, base, e, init, prompt);
        ShowsAfterStep(s, base, e, keys, prompt);
      }
    }
  }

  /** Keys that are bytes keep every text of the state one of bytes, quoted control characters included. */
  lemma {:induction false} RunKeepsBytes(e: Edit, keys: string)
    requires SaneNav(Bytes, e.nav) && Bytes.All(keys)
    ensures SaneNav(Bytes, Run(e, keys).nav)
  {
    if keys != [] {
      var init := keys[..|keys| - 1];
      RunKeepsBytes(e, init);
      ReactIsGood(Bytes, Run(e, init), keys[|keys| - 1]);
    }
  }

  /** reset_vty: an empty line, browsing at the end of the history, no escape. */
  function Reset(e: Edit): Edit {
    Edit(Nav(e.nav.entries, |e.nav.entries|, e.nav.draft, Zipper("", "")), false, e.quote)
  }

  // ---------- browsing the history ----------

  /** Steps through the history: true towards older entries, false towards newer ones. */
  function Walk(n: Nav, steps: seq<bool>): (r: Nav)
    requires n.pos <= |n.entries|
    ensures r.pos <= |r.entries| && r.entries == n.entries
  {
    if steps == [] then n
    else
      var m := Walk(n, steps[..|steps| - 1]);
      if steps[|steps| - 1] then Older(m) else Newer(m)
  }

  /** The position a walk reaches: up and down, stopping at both ends. */
  function Clamped(pos: nat, len: nat, steps: seq<bool>): (p: nat)
    requires pos <= len
    ensures p <= len
  {
    if steps == [] then pos
    else
      var p := Clamped(pos, len, steps[..|steps| - 1]);
      if steps[|steps| - 1] then (if p == 0 then 0 else p - 1) else (if p == len then len else p + 1)
  }

  /** Every step so far bounced off an end. */
  predicate Still(pos: nat, len: nat, steps: seq<bool>)
    requires pos <= len
  {
    steps == [] || (Still(pos, len, steps[..|steps| - 1]) && Clamped(pos, len, steps) == pos)
  }

  /** The unfinished line: the one being edited at the end of the history, the one kept elsewhere. */
  function Unfinished(n: Nav): string
    requires n.pos <= |n.entries|
  {
    if n.pos == |n.entries| then n.z.Text() else n.draft
  }

  /** How often the steps leave the end of the history with the recalled unfinished line. */
  function Wear(pos: nat, len: nat, steps: seq<bool>): nat
    requires pos <= len
  {
    if steps == [] then 0
    else
      var init := steps[..|steps| - 1];
      Wear(pos, len, init)
      + if steps[|steps| - 1] && 0 < len == Clamped(pos, len, init) && !Still(pos, len, init) then 1 else 0
  }

  /** A line recalled and kept again that many times. */
  function Worn(line: string, times: nat): string {
    if times == 0 then line else Recalled(Worn(line, times - 1))
  }

  /** Browsing without editing, from any position: once a step has moved, the line is the recalled entry
      at the position reached, or the recalled unfinished line at the end of the history, with the cursor
      at its end; until then nothing changes. The unfinished line is kept anew, as recalled, each time the
      walk leaves it. */
  lemma {:induction false} BrowsingShowsEntries(n: Nav, steps: seq<bool>)
    requires n.pos <= |n.entries|
    ensures var len := |n.entries|;
            var p, draft := Clamped(n.pos, len, steps), Worn(Unfinished(n), Wear(n.pos, len, steps));
            Walk(n, steps) == if Still(n.pos, len, steps) then n
                              else Nav(n.entries, p, draft,
                                       Zipper(Recalled(if p < len then n.entries[p] else draft), []))
    ensures Still(n.pos, |n.entries|, steps) ==> Wear(n.pos, |n.entries|, steps) == 0
  {
    hide Recalled;
    if steps != [] {
      var init := steps[..|steps| - 1];
      BrowsingShowsEntries(n, init);
      var draft := Worn(Unfinished(n), Wear(n.pos, |n.entries|, init));
      assert Recalled(draft) + [] == Recalled(draft);
    }
  }

  lemma {:induction false} WornWithoutPercent(line: string, times: nat)
    requires '%' !in line
    ensures Worn(line, times) == line
  {
    if times > 0 {
      WornWithoutPercent(line, times - 1);
      RecalledCopiesIff(line);
    }
  }

  /** Without percent signs the lines come back as they are stored, over any walk. */
  lemma BrowsingIsFaithful(n: Nav, steps: seq<bool>)
    requires n.pos <= |n.entries| && '%' !in Unfinished(n)
    requires forall i :: 0 <= i < |n.entries| ==> '%' !in n.entries[i]
    ensures var len := |n.entries|;
            var p := Clamped(n.pos, len, steps);
            Walk(n, steps) == if Still(n.pos, len, steps) then n
                              else Nav(n.entries, p, Unfinished(n),
                                       Zipper(if p < len then n.entries[p] else Unfinished(n), []))
  {
    hide Recalled;
    var p := Clamped(n.pos, |n.entries|, steps);
    BrowsingShowsEntries(n, steps);
    WornWithoutPercent(Unfinished(n), Wear(n.pos, |n.entries|, steps));
    RecalledCopiesIff(if p < |n.entries| then n.entries[p] else Unfinished(n));
  }

  function Steps(older: nat, newer: nat): seq<bool> {
    seq(older, _ => true) + seq(newer, _ => false)
  }

  lemma StepsInit(k: nat, j: nat)
    requires j > 0
    ensures Steps(k, j)[..|Steps(k, j)| - 1] == Steps(k, j - 1) && !Steps(k, j)[|Steps(k, j)| - 1]
  {
  }

  lemma {:induction false} ClampedOlder(pos: nat, len: nat, k: nat)
    requires k <= pos <= len
    ensures Clamped(pos, len, Steps(k, 0)) == pos - k && (Still(pos, len, Steps(k, 0)) <==> k == 0)
    ensures Wear(pos, len, Steps(k, 0)) == 0
  {
    if k > 0 {
      ClampedOlder(pos, len, k - 1);
      assert Steps(k, 0)[..k - 1] == Steps(k - 1, 0);
    }
  }

  lemma {:induction false} ClampedSteps(pos: nat, len: nat, k: nat, j: nat)
    requires j <= k <= pos <= len && 0 < k
    ensures Clamped(pos, len, Steps(k, j)) == pos - k + j && !Still(pos, len, Steps(k, j))
    ensures Wear(pos, len, Steps(k, j)) == 0
  {
    if j == 0 {
      ClampedOlder(pos, len, k);
    } else {
      ClampedSteps(pos, len, k, j - 1);
      StepsInit(k, j);
    }
  }

  /** The line that belongs to the position: the stored entry, or the unfinished line at the end. */
  function Shown(n: Nav): string
    requires n.pos <= |n.entries|
  {
    if n.pos < |n.entries| then n.entries[n.pos] else Unfinished(n)
  }

  /** k steps older then k newer, from any position, recall the line that belongs there, cursor at its
      end; it comes back as it was iff it holds no percent sign. */
  lemma BrowsingRoundTrip(n: Nav, k: nat)
    requires 0 < k <= n.pos <= |n.entries|
    ensures Walk(n, Steps(k, k)) == n.(draft := Unfinished(n), z := Zipper(Recalled(Shown(n)), []))
    ensures Walk(n, Steps(k, k)).z.Text() == Shown(n) <==> '%' !in Shown(n)
  {
    hide Recalled;
    ClampedSteps(n.pos, |n.entries|, k, k);
    BrowsingShowsEntries(n, Steps(k, k));
    RecalledCopiesIff(Shown(n));
    assert Recalled(Shown(n)) + [] == Recalled(Shown(n));
  }
}
