/** The command line as the user edits it: the text left and right of the cursor. */
module Zippers {
  import opened Limits
  import opened Sequences

  datatype Zipper = Zipper(left: string, right: string) {
    function Text(): string { left + right }

    function Cursor(): nat { |left| }
  }

  /** The character classes the editor moves over. */
  datatype CharClass = Delimiter | WordChar | Space | NonSpace {
    predicate Has(c: char) {
      match this
      case Delimiter => c == ' ' || c == '-' || c == '.' || c == '/' || c == '@'
      case WordChar => c != ' ' && c != '-' && c != '.' && c != '/' && c != '@'
      case Space => c == ' '
      case NonSpace => c != ' '
    }
  }

  /** toupper and tolower of the C locale. */
  datatype LetterCase = Upper | Lower {
    function Of(c: char): (r: char)
      ensures r == '\0' <==> c == '\0'
    {
      if this == Upper && 'a' <= c <= 'z' then (c as int - 32) as char
      else if this == Lower && 'A' <= c <= 'Z' then (c as int + 32) as char
      else c
    }
  }

  /** The length of the longest prefix of `s` in the class. */
  function Span(s: string, k: CharClass): (n: nat)
    ensures n <= |s|
    ensures forall i :: 0 <= i < n ==> k.Has(s[i])
    ensures n < |s| ==> !k.Has(s[n])
  {
    if s == [] || !k.Has(s[0]) then 0 else 1 + Span(s[1..], k)
  }

  /** Where the longest suffix of `s` in the class begins. */
  function BackSpan(s: string, k: CharClass): (n: nat)
    ensures n <= |s|
    ensures forall i :: n <= i < |s| ==> k.Has(s[i])
    ensures n > 0 ==> !k.Has(s[n - 1])
  {
    if s == [] || !k.Has(s[|s| - 1]) then |s| else BackSpan(s[..|s| - 1], k)
  }

  function Recase(s: string, f: LetterCase): (t: string)
    ensures |t| == |s| && forall i :: 0 <= i < |s| ==> t[i] == f.Of(s[i])
  {
    seq(|s|, i requires 0 <= i < |s| => f.Of(s[i]))
  }

  function Insert(z: Zipper, c: char): Zipper {
    if |z.left| + |z.right| < MAX_LINE then Zipper(z.left + [c], z.right) else z
  }

  function EraseChar(z: Zipper): Zipper {
    if z.left == [] then z else Zipper(z.left[..|z.left| - 1], z.right)
  }

  /** Erase the spaces before the cursor, then the word before them. */
  function EraseWord(z: Zipper): Zipper {
    var spaces := BackSpan(z.left, Space);
    Zipper(z.left[..BackSpan(z.left[..spaces], NonSpace)], z.right)
  }

  function EraseToStart(z: Zipper): Zipper { Zipper([], z.right) }

  /** The cursor moved left to column `n`. */
  function LeftTo(z: Zipper, n: nat): Zipper
    requires n <= |z.left|
  {
    Zipper(z.left[..n], z.left[n..] + z.right)
  }

  /** The cursor moved right by `n` columns. */
  function RightBy(z: Zipper, n: nat): Zipper
    requires n <= |z.right|
  {
    Zipper(z.left + z.right[..n], z.right[n..])
  }

  function Home(z: Zipper): Zipper { LeftTo(z, 0) }

  function End(z: Zipper): Zipper { RightBy(z, |z.right|) }

  function Back(z: Zipper): Zipper {
    if z.left == [] then z else LeftTo(z, |z.left| - 1)
  }

  function Forward(z: Zipper): Zipper {
    if z.right == [] then z else RightBy(z, 1)
  }

  /** Over the delimiters at the cursor. */
  function SkipGap(z: Zipper): Zipper { RightBy(z, Span(z.right, Delimiter)) }

  function SkipWord(z: Zipper): Zipper { RightBy(z, Span(z.right, WordChar)) }

  function BackGap(z: Zipper): Zipper { LeftTo(z, BackSpan(z.left, Delimiter)) }

  function BackWord(z: Zipper): Zipper { LeftTo(z, BackSpan(z.left, WordChar)) }

  /** To the end of the next word: over delimiters, then over what is not one. */
  function WordForward(z: Zipper): Zipper { SkipWord(SkipGap(z)) }

  /** To the start of the word before the cursor. */
  function WordBack(z: Zipper): Zipper { BackWord(BackGap(z)) }

  /** Apply `f` to the rest of the word at the cursor, which ends behind it. */
  function Convert(z: Zipper, f: LetterCase): Zipper {
    var n := Span(z.right, WordChar);
    Zipper(z.left + Recase(z.right[..n], f), z.right[n..])
  }

  function LowerWord(z: Zipper): Zipper { Convert(SkipGap(z), Lower) }

  function UpperWord(z: Zipper): Zipper { Convert(SkipGap(z), Upper) }

  function UpperNext(z: Zipper): Zipper
    requires z.right != []
  {
    Zipper(z.left + [Upper.Of(z.right[0])], z.right[1..])
  }

  function CapitalizeWord(z: Zipper): Zipper {
    var y := SkipGap(z);
    if y.right == [] then y else Convert(UpperNext(y), Lower)
  }

  /** The shape every edit has, and the exact domain of the incremental redisplay:
      the length changes, or nothing from the new cursor on does. */
  predicate Redrawable(z: Zipper, z': Zipper) {
    |z.Text()| != |z'.Text()| || z.Text()[z'.Cursor()..] == z'.right
  }

  /** The same length, and the text right of the new cursor is a tail of the text right of the old. */
  predicate KeepsTail(z: Zipper, z': Zipper) {
    |z.left| <= |z'.left| && |z.Text()| == |z'.Text()| && z'.right == z.right[|z'.left| - |z.left|..]
  }

  lemma KeepsTailIsRedrawable(z: Zipper, z': Zipper)
    requires KeepsTail(z, z')
    ensures Redrawable(z, z')
  {
  }

  lemma KeepsTailTransitive(x: Zipper, y: Zipper, z: Zipper)
    requires KeepsTail(x, y) && KeepsTail(y, z)
    ensures KeepsTail(x, z)
  {
  }

  lemma ConvertKeepsTail(z: Zipper, f: LetterCase)
    ensures KeepsTail(z, Convert(z, f))
  {
  }

  lemma RightByKeepsTail(z: Zipper, n: nat)
    requires n <= |z.right|
    ensures KeepsTail(z, RightBy(z, n))
    ensures RightBy(z, n).Text() == z.Text()
  {
  }

  lemma LeftToKeepsText(z: Zipper, n: nat)
    requires n <= |z.left|
    ensures LeftTo(z, n).Text() == z.Text()
  {
  }

  lemma SameTextIsRedrawable(z: Zipper, z': Zipper)
    requires z'.Text() == z.Text()
    ensures Redrawable(z, z')
  {
    assert z'.Text()[z'.Cursor()..] == z'.right;
  }

  lemma MovesKeepText(z: Zipper)
    ensures Home(z).Text() == z.Text() && End(z).Text() == z.Text()
    ensures Back(z).Text() == z.Text() && Forward(z).Text() == z.Text()
    ensures WordForward(z).Text() == z.Text() && WordBack(z).Text() == z.Text()
  {
    LeftToKeepsText(z, 0);
    RightByKeepsTail(z, |z.right|);
    if z.left != [] { LeftToKeepsText(z, |z.left| - 1); }
    if z.right != [] { RightByKeepsTail(z, 1); }
    var y := SkipGap(z);
    RightByKeepsTail(z, Span(z.right, Delimiter));
    RightByKeepsTail(y, Span(y.right, WordChar));
    var x := BackGap(z);
    LeftToKeepsText(z, BackSpan(z.left, Delimiter));
    LeftToKeepsText(x, BackSpan(x.left, WordChar));
  }

  lemma CaseWordIsRedrawable(z: Zipper, f: LetterCase)
    ensures Redrawable(z, Convert(SkipGap(z), f))
  {
    var y := SkipGap(z);
    RightByKeepsTail(z, Span(z.right, Delimiter));
    ConvertKeepsTail(y, f);
    KeepsTailTransitive(z, y, Convert(y, f));
    KeepsTailIsRedrawable(z, Convert(y, f));
  }

  lemma CapitalizeIsRedrawable(z: Zipper)
    ensures Redrawable(z, CapitalizeWord(z))
  {
    var y := SkipGap(z);
    RightByKeepsTail(z, Span(z.right, Delimiter));
    if y.right != [] {
      var x := UpperNext(y);
      KeepsTailTransitive(z, y, x);
      ConvertKeepsTail(x, Lower);
      KeepsTailTransitive(z, x, CapitalizeWord(z));
    }
    KeepsTailIsRedrawable(z, CapitalizeWord(z));
  }

  lemma ErasuresAreRedrawable(z: Zipper)
    ensures Redrawable(z, EraseChar(z)) && Redrawable(z, EraseWord(z)) && Redrawable(z, EraseToStart(z))
  {
    assert z.Text()[z.Cursor()..] == z.right;
  }

  lemma InsertIsRedrawable(z: Zipper, c: char)
    ensures Redrawable(z, Insert(z, c))
  {
    assert z.Text()[z.Cursor()..] == z.right;
  }

  // ---------- what the word operations mean ----------

  /** The text with the cursor at a column. */
  function At(text: string, n: nat): Zipper
    requires n <= |text|
  {
    Zipper(text[..n], text[n..])
  }

  /** The characters between words. */
  predicate IsGap(c: char) { c in " -./@" }

  /** From column `at` on there is a gap up to column a and then a word up to column b, both as long as can be. */
  predicate NextWord(text: string, at: nat, a: nat, b: nat) {
    && at <= a <= b <= |text|
    && (forall i :: at <= i < a ==> IsGap(text[i])) && (a < |text| ==> !IsGap(text[a]))
    && (forall i :: a <= i < b ==> !IsGap(text[i])) && (b < |text| ==> IsGap(text[b]))
  }

  /** Up to column `at` there is a word from column a and then a gap from column b, both as long as can be. */
  predicate WordBefore(text: string, at: nat, a: nat, b: nat) {
    && a <= b <= at <= |text|
    && (forall i :: b <= i < at ==> IsGap(text[i])) && (b > 0 ==> !IsGap(text[b - 1]))
    && (forall i :: a <= i < b ==> !IsGap(text[i])) && (a > 0 ==> IsGap(text[a - 1]))
  }

  /** The same with spaces as the only gap. */
  predicate SpacedBefore(text: string, at: nat, a: nat, b: nat) {
    && a <= b <= at <= |text|
    && (forall i :: b <= i < at ==> text[i] == ' ') && (b > 0 ==> text[b - 1] != ' ')
    && (forall i :: a <= i < b ==> text[i] != ' ') && (a > 0 ==> text[a - 1] == ' ')
  }

  lemma ClassesAre()
    ensures forall c :: IsGap(c) <==> Delimiter.Has(c)
    ensures forall c :: IsGap(c) <==> !WordChar.Has(c)
  {
  }

  /** Reading a text at a column. */
  lemma TextFrom(z: Zipper, n: nat)
    requires n <= |z.right|
    ensures var t, at := z.Text(), |z.left|;
            && RightBy(z, n) == At(t, at + n) && z.right[..n] == t[at..at + n] && z.right[n..] == t[at + n..]
            && forall i :: at <= i < |t| ==> t[i] == z.right[i - at]
  {
  }

  /** Where the next word lies: its columns in the text, and what is right of the cursor before it. */
  lemma NextWordIs(z: Zipper) returns (a: nat, b: nat)
    ensures NextWord(z.Text(), |z.left|, a, b) && |z.left| <= a <= b <= |z.Text()|
    ensures SkipGap(z) == At(z.Text(), a) && Span(SkipGap(z).right, WordChar) == b - a
  {
    hide IsGap;
    ClassesAre();
    var g := Span(z.right, Delimiter);
    var y := SkipGap(z);
    a := |z.left| + g;
    b := a + Span(y.right, WordChar);
    TextFrom(z, g);
  }

  lemma WordForwardMeaning(z: Zipper) returns (a: nat, b: nat)
    ensures NextWord(z.Text(), |z.left|, a, b) && WordForward(z) == At(z.Text(), b)
  {
    hide NextWord, Span;
    a, b := NextWordIs(z);
    var y := SkipGap(z);
    assert y.Text() == z.Text() && |y.left| == a;
    TextFrom(y, b - a);
  }

  lemma LeftToIs(z: Zipper, n: nat)
    requires n <= |z.left|
    ensures LeftTo(z, n) == At(z.Text(), n)
    ensures forall i :: 0 <= i < |z.left| ==> z.Text()[i] == z.left[i]
  {
  }

  lemma WordBackMeaning(z: Zipper) returns (a: nat, b: nat)
    ensures WordBefore(z.Text(), |z.left|, a, b) && WordBack(z) == At(z.Text(), a)
  {
    hide IsGap;
    ClassesAre();
    b := BackSpan(z.left, Delimiter);
    var x := LeftTo(z, b);
    a := BackSpan(x.left, WordChar);
    LeftToIs(z, b);
    LeftToIs(x, a);
    LeftToKeepsText(z, b);
  }

  lemma EraseWordMeaning(z: Zipper) returns (a: nat, b: nat)
    ensures SpacedBefore(z.Text(), |z.left|, a, b)
    ensures EraseWord(z) == At(z.Text()[..a] + z.Text()[|z.left|..], a)
  {
    b := BackSpan(z.left, Space);
    a := BackSpan(z.left[..b], NonSpace);
    assert forall i :: 0 <= i < |z.left| ==> z.Text()[i] == z.left[i];
  }

  /** A text with a stretch rewritten, read at the end of that stretch. */
  lemma Rewritten(t: string, a: nat, b: nat, w: string)
    requires a <= b <= |t| && |w| == b - a
    ensures At(t[..a] + w + t[b..], b) == Zipper(t[..a] + w, t[b..])
  {
  }

  /** Past the gap the rest of the word changes its letters, nothing else changes, and the cursor ends
      behind the word. */
  lemma CaseWordMeaning(z: Zipper, f: LetterCase) returns (a: nat, b: nat)
    ensures NextWord(z.Text(), |z.left|, a, b) && |z.left| <= a <= b <= |z.Text()|
    ensures Convert(SkipGap(z), f) == At(z.Text()[..a] + Recase(z.Text()[a..b], f) + z.Text()[b..], b)
  {
    hide NextWord, Span, Recase;
    a, b := NextWordIs(z);
    var t, y := z.Text(), SkipGap(z);
    assert y.Text() == t && |y.left| == a;
    TextFrom(y, b - a);
    Rewritten(t, a, b, Recase(t[a..b], f));
  }

  /** The word at the start of a text, capitalized. */
  function Capitalized(word: string): string {
    if word == "" then "" else [Upper.Of(word[0])] + Recase(word[1..], Lower)
  }

  /** Past the gap the first character of the next word is upper-cased, its others are lower-cased,
      nothing else changes, and the cursor ends behind the word. */
  lemma CapitalizeMeaning(z: Zipper) returns (a: nat, b: nat)
    ensures NextWord(z.Text(), |z.left|, a, b) && |z.left| <= a <= b <= |z.Text()|
    ensures CapitalizeWord(z) == At(z.Text()[..a] + Capitalized(z.Text()[a..b]) + z.Text()[b..], b)
  {
    hide NextWord, Span, Recase;
    a, b := NextWordIs(z);
    var t, y := z.Text(), SkipGap(z);
    Rewritten(t, a, b, Capitalized(t[a..b]));
    if a < |t| {
      FirstIsWord(z, a, b);
      CapitalizedFrom(t, a, b);
    }
  }

  lemma FirstIsWord(z: Zipper, a: nat, b: nat)
    requires NextWord(z.Text(), |z.left|, a, b) && |z.left| <= a < |z.Text()|
    requires SkipGap(z) == At(z.Text(), a) && Span(SkipGap(z).right, WordChar) == b - a
    ensures a < b && Span(z.Text()[a + 1..], WordChar) == b - a - 1
  {
    ClassesAre();
    SpanTail(SkipGap(z).right);
    assert SkipGap(z).right[1..] == z.Text()[a + 1..];
  }

  lemma CapitalizedFrom(t: string, a: nat, b: nat)
    requires a < b <= |t| && Span(t[a + 1..], WordChar) == b - a - 1
    ensures Convert(UpperNext(At(t, a)), Lower) == Zipper(t[..a] + Capitalized(t[a..b]), t[b..])
  {
    hide Span, Recase;
    var rest, word := t[a + 1..], t[a..b];
    assert t[a..][1..] == rest && word[1..] == rest[..b - a - 1] && rest[b - a - 1..] == t[b..];
    assert word != "" && word[0] == t[a] == t[a..][0];
    Regroup(t[..a], [Upper.Of(t[a])], Recase(word[1..], Lower));
  }

  /** Upper and lower case, letter by letter. */
  lemma LettersAre(c: char)
    ensures var small, capital := "abcdefghijklmnopqrstuvwxyz", "ABCDEFGHIJKLMNOPQRSTUVWXYZ";
            && (forall i :: 0 <= i < 26 ==> Upper.Of(small[i]) == capital[i] && Lower.Of(capital[i]) == small[i])
            && (c !in small ==> Upper.Of(c) == c) && (c !in capital ==> Lower.Of(c) == c)
  {
    hide AreAlphabets;
    Alphabets();
    CaseTable("abcdefghijklmnopqrstuvwxyz", "ABCDEFGHIJKLMNOPQRSTUVWXYZ", c);
  }

  lemma Alphabets()
    ensures var small, capital := "abcdefghijklmnopqrstuvwxyz", "ABCDEFGHIJKLMNOPQRSTUVWXYZ";
            AreAlphabets(small, capital)
  {
  }

  predicate AreAlphabets(small: string, capital: string) {
    |small| == |capital| == 26 && forall i :: 0 <= i < 26 ==> small[i] as int == 97 + i && capital[i] as int == 65 + i
  }

  lemma CaseTable(small: string, capital: string, c: char)
    requires AreAlphabets(small, capital)
    ensures forall i :: 0 <= i < 26 ==> Upper.Of(small[i]) == capital[i] && Lower.Of(capital[i]) == small[i]
    ensures (c !in small ==> Upper.Of(c) == c) && (c !in capital ==> Lower.Of(c) == c)
  {
    if 'a' <= c <= 'z' {
      assert small[c as int - 97] == c;
    }
    if 'A' <= c <= 'Z' {
      assert capital[c as int - 65] == c;
    }
  }

  lemma SpanTail(r: string)
    requires r != [] && WordChar.Has(r[0])
    ensures Span(r, WordChar) == 1 + Span(r[1..], WordChar)
  {
  }
}
