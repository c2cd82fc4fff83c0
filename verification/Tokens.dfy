/** The token rules of lex.c as regular expressions, maximal munch over them, and the argument
    words a line stands for (lex.c:8-32). */
module Tokens {

  import opened Lists

  const MAX_ARGS := 10

  datatype CharSet = WordSet | SpecialSet | CarriageReturn | BlankSet | NotNewline | AnyChar {
    predicate Has(c: char) {
      match this
      case WordSet => 'a' <= c <= 'z' || 'A' <= c <= 'Z' || '0' <= c <= '9' || c == '/' || c == '.' || c == '-'
      case SpecialSet => c == '(' || c == ')' || c == '>' || c == '<' || c == '|' || c == '&' || c == ';' || c == '*'
      case CarriageReturn => c == '\r'
      case BlankSet => c == ' ' || c == '\t'
      case NotNewline => c != '\n'
      case AnyChar => true
    }
  }

  datatype Regex = Class(set_: CharSet) | Alt(a: Regex, b: Regex) | Plus(r: Regex)

  /** The string is in the language of the expression. */
  ghost predicate Matches(re: Regex, s: string)
    decreases re, |s|
  {
    match re
    case Class(k) => |s| == 1 && k.Has(s[0])
    case Alt(a, b) => Matches(a, s) || Matches(b, s)
    case Plus(r) => exists n :: 0 < n <= |s| && Matches(r, s[..n]) && (n == |s| || Matches(re, s[n..]))
  }

  const RULES := 5

  /** The rules in their order: words and specials, end of line, blanks, anything else on the line,
      and flex's default rule, which echoes a character. */
  function Rule(r: nat): Regex
    requires 1 <= r <= RULES
  {
    if r == 1 then Alt(Plus(Class(WordSet)), Class(SpecialSet))
    else if r == 2 then Class(CarriageReturn)
    else if r == 3 then Plus(Class(BlankSet))
    else if r == 4 then Class(NotNewline)
    else Class(AnyChar)
  }

  datatype Token = Token(rule: nat, len: nat)

  /** The longest match of any rule at the front of `s`, the earliest rule among equals. */
  ghost predicate IsMunch(s: string, t: Token) {
    && 1 <= t.rule <= RULES && 0 < t.len <= |s| && Matches(Rule(t.rule), s[..t.len])
    && forall r: nat, n: nat :: 1 <= r <= RULES && 0 < n <= |s| && Matches(Rule(r), s[..n])
         ==> n < t.len || (n == t.len && t.rule <= r)
  }

  predicate AllIn(k: CharSet, s: string) {
    forall i :: 0 <= i < |s| ==> k.Has(s[i])
  }

  /** One or more characters of a class. */
  lemma {:induction false} PlusOfClass(k: CharSet, s: string)
    ensures Matches(Plus(Class(k)), s) <==> s != "" && AllIn(k, s)
    decreases |s|
  {
    if s != "" {
      PlusOfClass(k, s[1..]);
      assert s[..1] == [s[0]];
      if AllIn(k, s) {
        assert Matches(Class(k), s[..1]);
        assert |s| > 1 ==> AllIn(k, s[1..]);
      }
      if Matches(Plus(Class(k)), s) {
        var n :| 0 < n <= |s| && Matches(Class(k), s[..n]) && (n == |s| || Matches(Plus(Class(k)), s[n..]));
        assert n == 1 && s[0] == s[..1][0];
        forall i | 0 <= i < |s|
          ensures k.Has(s[i])
        {
          assert i > 0 ==> s[i] == s[1..][i - 1];
        }
      }
    }
  }

  /** The length of the longest prefix in the class. */
  function Run(k: CharSet, s: string): (n: nat)
    ensures n <= |s|
    ensures AllIn(k, s[..n])
    ensures n < |s| ==> !k.Has(s[n])
  {
    if s == "" || !k.Has(s[0]) then 0
    else
      var n := Run(k, s[1..]);
      assert s[..n + 1] == [s[0]] + s[1..][..n];
      n + 1
  }

  /** The token at the front of a non-empty string, by its first character. */
  function Munch(s: string): (t: Token)
    requires s != ""
    ensures 1 <= t.rule <= RULES && 0 < t.len <= |s|
  {
    if WordSet.Has(s[0]) then Token(1, Run(WordSet, s))
    else if SpecialSet.Has(s[0]) then Token(1, 1)
    else if s[0] == '\r' then Token(2, 1)
    else if BlankSet.Has(s[0]) then Token(3, Run(BlankSet, s))
    else if s[0] != '\n' then Token(4, 1)
    else Token(5, 1)
  }

  lemma RuleMeaning(r: nat, s: string)
    requires 1 <= r <= RULES
    ensures Matches(Rule(r), s)
         <==> (s != "" && if r == 1 then AllIn(WordSet, s) || (|s| == 1 && SpecialSet.Has(s[0]))
                          else if r == 2 then s == "\r"
                          else if r == 3 then AllIn(BlankSet, s)
                          else if r == 4 then |s| == 1 && s[0] != '\n'
                          else |s| == 1)
  {
    PlusOfClass(WordSet, s);
    PlusOfClass(BlankSet, s);
  }

  lemma PrefixInRun(k: CharSet, s: string, n: nat)
    requires n <= |s|
    ensures AllIn(k, s[..n]) <==> n <= Run(k, s)
  {
    var m := Run(k, s);
    if n <= m {
      assert s[..n] == s[..m][..n];
    } else {
      assert s[..n][m] == s[m];
    }
  }

  /** Munch computes the maximal munch, and it is the only one. */
  lemma MunchIff(s: string, t: Token)
    requires s != ""
    ensures IsMunch(s, t) <==> t == Munch(s)
  {
    var m := Munch(s);
    forall r: nat, n: nat | 1 <= r <= RULES && 0 < n <= |s|
      ensures Matches(Rule(r), s[..n]) ==> n < m.len || (n == m.len && m.rule <= r)
      ensures r == m.rule && n == m.len ==> Matches(Rule(r), s[..n])
    {
      MunchBounds(s, r, n);
    }
    MunchBounds(s, m.rule, m.len);
    if IsMunch(s, t) {
      MunchBounds(s, t.rule, t.len);
      assert Matches(Rule(m.rule), s[..m.len]);
    }
  }

  lemma MunchBounds(s: string, r: nat, n: nat)
    requires s != "" && 1 <= r <= RULES && 0 < n <= |s|
    ensures var m := Munch(s);
            && (Matches(Rule(r), s[..n]) ==> n < m.len || (n == m.len && m.rule <= r))
            && (r == m.rule && n == m.len ==> Matches(Rule(r), s[..n]))
  {
    RuleMeaning(r, s[..n]);
    PrefixInRun(WordSet, s, n);
    PrefixInRun(BlankSet, s, n);
    assert s[..n][0] == s[0];
  }

  // ---------- whole lines ----------

  /** The tokens of a line, up to its end or to the first carriage return, inclusive. */
  function Lex(s: string): seq<Token>
    decreases |s|
  {
    if s == "" then []
    else
      var t := Munch(s);
      if t.rule == 2 then [t] else [t] + Lex(s[t.len..])
  }

  /** A sequence of tokens is what maximal munch makes of the line. */
  ghost predicate Tokenizes(s: string, toks: seq<Token>)
    decreases |toks|
  {
    if toks == [] then s == ""
    else
      && s != "" && IsMunch(s, toks[0])
      && if toks[0].rule == 2 then |toks| == 1 else Tokenizes(s[toks[0].len..], toks[1..])
  }

  /** There is exactly one maximal-munch token sequence for every line. */
  lemma {:induction false} TokenizesIff(s: string, toks: seq<Token>)
    ensures Tokenizes(s, toks) <==> toks == Lex(s)
    decreases |s|
  {
    if s != "" && toks != [] {
      var t := Munch(s);
      MunchIff(s, toks[0]);
      if toks[0] == t {
        if t.rule == 2 {
          assert |toks| == 1 ==> toks == [t];
        } else {
          TokenizesIff(s[t.len..], toks[1..]);
          assert toks == [toks[0]] + toks[1..];
        }
      }
    }
  }

  /** The words of a line: its rule-1 tokens. */
  function Words(s: string): seq<string>
    decreases |s|
  {
    if s == "" then []
    else
      var t := Munch(s);
      if t.rule == 2 then [] else (if t.rule == 1 then [s[..t.len]] else []) + Words(s[t.len..])
  }

  function First(words: seq<string>, n: nat): seq<string> {
    if |words| <= n then words else words[..n]
  }

  /** What the argument vector holds for a line: its first nine words. */
  function Args(s: string): seq<string> { First(Words(s), MAX_ARGS - 1) }

  /** A NULL-terminated argument vector. */
  ghost predicate HoldsArgs(argv: seq<Option<string>>, words: seq<string>) {
    && |words| < |argv|
    && (forall i :: 0 <= i < |words| ==> argv[i] == Some(words[i]))
    && argv[|words|] == None
  }

  /** The line feeds in front of the first carriage return. */
  function Newlines(s: string): string {
    if s == "" || s[0] == '\r' then ""
    else (if s[0] == '\n' then "\n" else "") + Newlines(s[1..])
  }

  lemma {:induction false} NoNewlines(s: string, n: nat)
    requires n <= |s| && forall i :: 0 <= i < n ==> s[i] != '\r' && s[i] != '\n'
    ensures Newlines(s) == Newlines(s[n..])
    decreases n
  {
    if n > 0 {
      NoNewlines(s[1..], n - 1);
      assert s[1..][n - 1..] == s[n..];
    }
  }

  /** Whatever follows a carriage return is not scanned. */
  lemma {:induction false} WordsStopAtReturn(s: string, rest: string)
    requires '\r' !in s
    ensures Words(s + "\r" + rest) == Words(s)
    decreases |s|
  {
    var line := s + "\r" + rest;
    if s != "" {
      var t := Munch(s);
      RunStopsAtReturn(WordSet, s, rest);
      RunStopsAtReturn(BlankSet, s, rest);
      assert line[0] == s[0] && Munch(line) == t;
      assert line[..t.len] == s[..t.len] && line[t.len..] == s[t.len..] + "\r" + rest;
      WordsStopAtReturn(s[t.len..], rest);
    }
  }

  lemma RunStopsAtReturn(k: CharSet, s: string, rest: string)
    requires k == WordSet || k == BlankSet
    ensures Run(k, s + "\r" + rest) == Run(k, s)
  {
    var n := Run(k, s);
    var tail := s[n..] + "\r" + rest;
    assert s + "\r" + rest == s[..n] + tail;
    assert tail[0] == if n < |s| then s[n] else '\r';
    RunOfWord(k, s[..n], tail);
  }

  predicate IsWord(w: string) { w != "" && AllIn(WordSet, w) }

  predicate AreWords(ws: seq<string>) { forall i :: 0 <= i < |ws| ==> IsWord(ws[i]) }

  /** Words printed with a space between them. */
  function Join(ws: seq<string>): string {
    if ws == [] then "" else if |ws| == 1 then ws[0] else ws[0] + " " + Join(ws[1..])
  }

  lemma {:induction false} RunOfWord(k: CharSet, w: string, rest: string)
    requires AllIn(k, w) && (rest != "" ==> !k.Has(rest[0]))
    ensures Run(k, w + rest) == |w|
  {
    if w == "" {
      assert w + rest == rest;
    } else {
      assert (w + rest)[1..] == w[1..] + rest;
      RunOfWord(k, w[1..], rest);
    }
  }

  /** A word in front of a blank or the end is scanned whole. */
  lemma WordsOfWord(w: string, rest: string)
    requires IsWord(w) && (rest != "" ==> rest[0] == ' ')
    ensures Words(w + rest) == [w] + Words(rest)
  {
    RunOfWord(WordSet, w, rest);
    assert (w + rest)[0] == w[0];
    assert (w + rest)[..|w|] == w && (w + rest)[|w|..] == rest;
  }

  lemma WordsOfSpaces(n: nat, rest: string)
    requires rest != "" ==> !BlankSet.Has(rest[0])
    ensures Words(seq(n, _ => ' ') + rest) == Words(rest)
  {
    var blanks: string := seq(n, _ => ' ');
    if n == 0 {
      assert blanks + rest == rest;
    } else {
      RunOfWord(BlankSet, blanks, rest);
      assert (blanks + rest)[0] == ' ';
      assert (blanks + rest)[n..] == rest;
    }
  }

  lemma JoinStartsWithWord(ws: seq<string>)
    requires AreWords(ws) && ws != []
    ensures Join(ws) != "" && WordSet.Has(Join(ws)[0])
  {
    assert IsWord(ws[0]);
  }

  /** Printing words and scanning them gives the words back. */
  lemma {:induction false} WordsRoundTrip(ws: seq<string>)
    requires AreWords(ws)
    ensures Words(Join(ws)) == ws
    decreases |ws|
  {
    if ws == [] {
    } else if |ws| == 1 {
      WordsOfWord(ws[0], "");
      assert ws[0] + "" == ws[0];
    } else {
      hide Words;
      WordsRoundTrip(ws[1..]);
      JoinStartsWithWord(ws[1..]);
      assert IsWord(ws[0]);
      WordsOfPair(ws[0], Join(ws[1..]));
      assert [ws[0]] + ws[1..] == ws;
    }
  }

  lemma WordsOfPair(w: string, rest: string)
    requires IsWord(w) && rest != "" && WordSet.Has(rest[0])
    ensures Words(w + " " + rest) == [w] + Words(rest)
  {
    hide Words;
    WordsOfWord(w, " " + rest);
    assert w + " " + rest == w + (" " + rest);
    assert seq(1, _ => ' ') == " ";
    WordsOfSpaces(1, rest);
  }

  /** At most nine printed words come back as the argument vector. */
  lemma ArgsRoundTrip(ws: seq<string>)
    requires AreWords(ws) && |ws| <= 9
    ensures Args(Join(ws)) == ws
  {
    WordsRoundTrip(ws);
  }
}
