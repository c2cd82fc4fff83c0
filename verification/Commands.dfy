/** The command tree of commands.c: menus as sorted lists, and what cmd_finder's walk through them
    means (vty.h, commands.h, commands.c:97-157). */
module Commands {
  import opened Lists

  /** A CLI_CMD without its links: the name, the privilege to see it, whether an argument follows
      instead of subcommands, and the head of its menu of subcommands. */
  datatype Cmd = Cmd(name: string, privilege: int, final: bool, child: Link<Cmd>)

  /** Every menu of the program: the commands linked behind each list head. */
  type Forest = map<Link<Cmd>, seq<Link<Cmd>>>

  // ---------- the walk ----------

  /** What the finder is used for, and how it ends. */
  datatype Action = FIND | COMPLETE | C_HELP | HELP
  datatype Status = CMD_FOUND | CMD_INVALID | CMD_AMBIGUOUS | CMD_INCOMPLETE

  /** The command is visible and the word is a prefix of its name. */
  predicate Fits(n: Link<Cmd>, word: string, privilege: int) {
    n.container.Some? && privilege >= n.container.value.privilege && word <= n.container.value.name
  }

  function Candidates(menu: seq<Link<Cmd>>, word: string, privilege: int): (c: seq<Link<Cmd>>)
    ensures |c| <= |menu| && forall i :: 0 <= i < |c| ==> c[i] in menu && Fits(c[i], word, privilege)
  {
    if menu == [] then []
    else
      var last := menu[|menu| - 1];
      Candidates(menu[..|menu| - 1], word, privilege) + if Fits(last, word, privilege) then [last] else []
  }

  /** Every command's menu is in the forest. */
  ghost predicate Closed(f: Forest) {
    forall h, i :: h in f && 0 <= i < |f[h]| ==> f[h][i].container.Some? && f[h][i].container.value.child in f
  }

  function Name(n: Link<Cmd>): string
    requires n.container.Some?
  {
    n.container.value.name
  }

  function ChildOf(n: Link<Cmd>): Link<Cmd>
    requires n.container.Some?
  {
    n.container.value.child
  }

  /** How many of the words left the walk does not consume. */
  function Spared(act: Action): nat { if act == C_HELP then 1 else 0 }

  /** cmd_finder on the words left at the menu of `h`: its status and the match it leaves. */
  ghost function Find(f: Forest, h: Link<Cmd>, words: seq<string>, act: Action, privilege: int)
    : (Status, Option<Link<Cmd>>)
    requires Closed(f) && h in f && words != []
    decreases |words|
  {
    var c := Candidates(f[h], words[0], privilege);
    if c == [] then (CMD_INVALID, None)
    else if |c| > 1 then (CMD_AMBIGUOUS, Some(c[0]))
    else if act == FIND && c[0].container.value.final then
      (if |words| > 1 then CMD_FOUND else CMD_INCOMPLETE, Some(c[0]))
    else if 1 + Spared(act) < |words| then Find(f, ChildOf(c[0]), words[1..], act, privilege)
    else (CMD_FOUND, Some(c[0]))
  }

  // ---------- what the walk means ----------

  /** The user's privilege reaches that of the menu's command at index k, and the word is a prefix of its name. */
  predicate FitsAt(menu: seq<Link<Cmd>>, k: nat, word: string, privilege: int) {
    && k < |menu| && menu[k].container.Some?
    && menu[k].container.value.privilege <= privilege && word <= menu[k].container.value.name
  }

  ghost predicate NoneFits(menu: seq<Link<Cmd>>, word: string, privilege: int) {
    forall k: nat :: !FitsAt(menu, k, word, privilege)
  }

  ghost predicate OnlyFits(menu: seq<Link<Cmd>>, word: string, privilege: int, n: Link<Cmd>) {
    exists k: nat :: IsOnlyFit(menu, k, word, privilege) && menu[k] == n
  }

  ghost predicate IsOnlyFit(menu: seq<Link<Cmd>>, k: nat, word: string, privilege: int) {
    FitsAt(menu, k, word, privilege) && forall j: nat :: FitsAt(menu, j, word, privilege) ==> j == k
  }

  /** Several commands of the menu fit, and n is the first. */
  ghost predicate FirstOfSeveral(menu: seq<Link<Cmd>>, word: string, privilege: int, n: Link<Cmd>) {
    exists j: nat, k: nat :: AreTwoFits(menu, j, k, word, privilege) && menu[j] == n
  }

  ghost predicate AreTwoFits(menu: seq<Link<Cmd>>, j: nat, k: nat, word: string, privilege: int) {
    && j < k && FitsAt(menu, j, word, privilege) && FitsAt(menu, k, word, privilege)
    && forall i: nat :: i < j ==> !FitsAt(menu, i, word, privilege)
  }

  /** Where the candidates stand in the menu. */
  lemma {:induction false} CandidatesStand(menu: seq<Link<Cmd>>, word: string, privilege: int) returns (j: nat, k: nat)
    ensures var c := Candidates(menu, word, privilege);
            && (c == [] ==> NoneFits(menu, word, privilege))
            && (|c| == 1 ==> IsOnlyFit(menu, j, word, privilege) && menu[j] == c[0])
            && (|c| > 1 ==> AreTwoFits(menu, j, k, word, privilege) && menu[j] == c[0])
    decreases |menu|
  {
    hide Fits, FitsAt;
    j, k := 0, 0;
    FitsWithin(menu, word, privilege);
    if menu != [] {
      var last := |menu| - 1;
      var init, c := menu[..last], Candidates(menu[..last], word, privilege);
      j, k := CandidatesStand(init, word, privilege);
      FitsWithin(init, word, privilege);
      FitsInFront(menu, word, privilege);
      if Fits(menu[last], word, privilege) {
        j, k := if c == [] then last else j, if |c| <= 1 then last else k;
      }
    }
  }

  lemma FitsInFront(menu: seq<Link<Cmd>>, word: string, privilege: int)
    requires menu != []
    ensures var last := |menu| - 1;
            && (forall i: nat :: i != last ==> (FitsAt(menu, i, word, privilege) <==> FitsAt(menu[..last], i, word, privilege)))
            && (FitsAt(menu, last, word, privilege) <==> Fits(menu[last], word, privilege))
  {
  }

  lemma FitsWithin(menu: seq<Link<Cmd>>, word: string, privilege: int)
    ensures forall i: nat :: FitsAt(menu, i, word, privilege) ==> i < |menu|
  {
  }

  /** No candidate, one, or several: exactly what the menu's indices say. */
  lemma CandidatesIff(menu: seq<Link<Cmd>>, word: string, privilege: int, n: Link<Cmd>)
    ensures var c := Candidates(menu, word, privilege);
            && (c == [] <==> NoneFits(menu, word, privilege))
            && (c == [n] <==> OnlyFits(menu, word, privilege, n))
            && (|c| > 1 && c[0] == n <==> FirstOfSeveral(menu, word, privilege, n))
  {
    hide Candidates, FitsAt;
    var j, k := CandidatesStand(menu, word, privilege);
  }

  predicate AllCommands(path: seq<Link<Cmd>>) {
    forall i :: 0 <= i < |path| ==> path[i].container.Some?
  }

  /** The menu a path from `h` leads to. */
  function EndMenu(h: Link<Cmd>, path: seq<Link<Cmd>>): Link<Cmd>
    requires AllCommands(path)
  {
    if path == [] then h else ChildOf(path[|path| - 1])
  }

  /** At each step the word fits exactly one visible command of the menu reached. */
  ghost predicate Unique(f: Forest, h: Link<Cmd>, words: seq<string>, path: seq<Link<Cmd>>, privilege: int)
    requires AllCommands(path)
    decreases |path|
  {
    path != [] ==>
      && words != [] && h in f
      && OnlyFits(f[h], words[0], privilege, path[0])
      && Unique(f, ChildOf(path[0]), words[1..], path[1..], privilege)
  }

  predicate NoneFinal(path: seq<Link<Cmd>>)
    requires AllCommands(path)
  {
    forall i :: 0 <= i < |path| ==> !path[i].container.value.final
  }

  /** The walk along `path` ends with this status and match: a final command ends a FIND at once and
      is complete iff a word follows; otherwise all words but the spared one are consumed, or the
      next word fits no command, or several. */
  ghost predicate Judged(f: Forest, h: Link<Cmd>, words: seq<string>, act: Action, privilege: int,
                         path: seq<Link<Cmd>>, status: Status, found: Option<Link<Cmd>>)
    requires |words| > Spared(act)
  {
    && AllCommands(path) && |path| <= |words| && Unique(f, h, words, path, privilege)
    && if status == CMD_FOUND || status == CMD_INCOMPLETE then
         && path != [] && found == Some(path[|path| - 1])
         && (act == FIND ==> NoneFinal(path[..|path| - 1]))
         && var final := act == FIND && path[|path| - 1].container.value.final;
            if status == CMD_INCOMPLETE then final && |path| == |words|
            else if final then |path| < |words|
            else |path| == |words| - Spared(act)
       else
         && |path| < |words| - Spared(act) && (act == FIND ==> NoneFinal(path))
         && EndMenu(h, path) in f
         && var menu, word := f[EndMenu(h, path)], words[|path|];
            if status == CMD_INVALID then NoneFits(menu, word, privilege) && found == None
            else found.Some? && FirstOfSeveral(menu, word, privilege, found.value)
  }

  /** If some path is judged so, that is what the walk answers. */
  lemma {:induction false} JudgedIsFound(f: Forest, h: Link<Cmd>, words: seq<string>, act: Action, privilege: int,
                                         path: seq<Link<Cmd>>, status: Status, found: Option<Link<Cmd>>)
    requires Closed(f) && h in f && |words| > Spared(act)
    requires Judged(f, h, words, act, privilege, path, status, found)
    ensures Find(f, h, words, act, privilege) == (status, found)
    decreases |path|
  {
    hide Candidates, NoneFits, OnlyFits, FirstOfSeveral;
    CandidatesIff(f[h], words[0], privilege, if path != [] then path[0] else if found.Some? then found.value else h);
    if |path| > 1 || (|path| == 1 && (status == CMD_INVALID || status == CMD_AMBIGUOUS)) {
      var h', words', path' := ChildOf(path[0]), words[1..], path[1..];
      assert path[0] in Candidates(f[h], words[0], privilege);
      assert h' in f;
      assert act == FIND ==> !path[0].container.value.final by {
        assert path[..|path| - 1] != [] ==> path[..|path| - 1][0] == path[0];
      }
      JudgedTail(f, h, words, act, privilege, path, status, found);
      JudgedIsFound(f, h', words', act, privilege, path', status, found);
    }
  }

  lemma JudgedTail(f: Forest, h: Link<Cmd>, words: seq<string>, act: Action, privilege: int,
                   path: seq<Link<Cmd>>, status: Status, found: Option<Link<Cmd>>)
    requires h in f && |words| > Spared(act) && Judged(f, h, words, act, privilege, path, status, found)
    requires |path| > 1 || (|path| == 1 && (status == CMD_INVALID || status == CMD_AMBIGUOUS))
    ensures |words| - 1 > Spared(act)
    ensures Judged(f, ChildOf(path[0]), words[1..], act, privilege, path[1..], status, found)
  {
    hide NoneFits, OnlyFits, FirstOfSeveral;
    var path' := path[1..];
    if path' != [] {
      assert path'[|path'| - 1] == path[|path| - 1];
      assert path'[..|path'| - 1] == path[..|path| - 1][1..];
    }
    assert EndMenu(ChildOf(path[0]), path') == EndMenu(h, path);
    if |path| < |words| {
      assert words[1..][|path'|] == words[|path|];
    }
  }

  lemma JudgedCons(f: Forest, h: Link<Cmd>, words: seq<string>, act: Action, privilege: int,
                   first: Link<Cmd>, rest: seq<Link<Cmd>>, status: Status, found: Option<Link<Cmd>>)
    requires h in f && |words| > 1 + Spared(act) && first.container.Some?
    requires OnlyFits(f[h], words[0], privilege, first)
    requires act == FIND ==> !first.container.value.final
    requires Judged(f, ChildOf(first), words[1..], act, privilege, rest, status, found)
    ensures Judged(f, h, words, act, privilege, [first] + rest, status, found)
  {
    hide NoneFits, OnlyFits, FirstOfSeveral;
    var path := [first] + rest;
    assert path[1..] == rest;
    if rest != [] {
      assert path[..|path| - 1] == [first] + rest[..|rest| - 1];
      assert path[|path| - 1] == rest[|rest| - 1];
    }
    assert EndMenu(h, path) == EndMenu(ChildOf(first), rest);
    if |path| < |words| {
      assert words[1..][|rest|] == words[|path|];
    }
  }

  /** The walk always answers along some path. */
  lemma {:induction false} FoundIsJudged(f: Forest, h: Link<Cmd>, words: seq<string>, act: Action, privilege: int)
    returns (path: seq<Link<Cmd>>)
    requires Closed(f) && h in f && |words| > Spared(act)
    ensures var (status, found) := Find(f, h, words, act, privilege);
            Judged(f, h, words, act, privilege, path, status, found)
    decreases |words|
  {
    hide Candidates, NoneFits, OnlyFits, FirstOfSeveral;
    var c := Candidates(f[h], words[0], privilege);
    CandidatesIff(f[h], words[0], privilege, if c == [] then h else c[0]);
    assert |c| == 1 ==> c == [c[0]];
    if |c| != 1 {
      path := [];
    } else if (act == FIND && c[0].container.value.final) || 1 + Spared(act) >= |words| {
      path := [c[0]];
      assert path[1..] == [] && path[..|path| - 1] == [];
      assert Unique(f, ChildOf(path[0]), words[1..], path[1..], privilege);
    } else {
      var rest := FoundIsJudged(f, ChildOf(c[0]), words[1..], act, privilege);
      var (status, found) := Find(f, ChildOf(c[0]), words[1..], act, privilege);
      JudgedCons(f, h, words, act, privilege, c[0], rest, status, found);
      path := [c[0]] + rest;
    }
  }

  /** Help on the last word walks the words in front of it as completion does; help behind the words walks
      them all. */
  lemma {:induction false} HelpLooksAhead(f: Forest, h: Link<Cmd>, words: seq<string>, privilege: int)
    requires Closed(f) && h in f && words != []
    ensures Find(f, h, words, HELP, privilege) == Find(f, h, words, COMPLETE, privilege)
    ensures |words| > 1 ==>
              Find(f, h, words, C_HELP, privilege) == Find(f, h, words[..|words| - 1], COMPLETE, privilege)
    decreases |words|
  {
    hide Candidates;
    var c := Candidates(f[h], words[0], privilege);
    if |c| == 1 && |words| > 1 {
      HelpLooksAhead(f, ChildOf(c[0]), words[1..], privilege);
      assert words[..|words| - 1][1..] == words[1..][..|words| - 2];
    }
  }

  /** Every command on the path is one the user may see, and its word is a prefix of its name. */
  lemma {:induction false} PathIsVisible(f: Forest, h: Link<Cmd>, words: seq<string>, path: seq<Link<Cmd>>,
                                         privilege: int, i: nat)
    requires AllCommands(path) && |path| <= |words| && Unique(f, h, words, path, privilege) && i < |path|
    ensures path[i].container.value.privilege <= privilege && words[i] <= Name(path[i])
    decreases i
  {
    if i > 0 {
      PathIsVisible(f, ChildOf(path[0]), words[1..], path[1..], privilege, i - 1);
    }
  }

  /** One word: found if it fits exactly one command of the menu that the user may see, ambiguous if it fits
      several, invalid if it fits none. */
  lemma OneWord(f: Forest, h: Link<Cmd>, word: string, privilege: int, n: Link<Cmd>)
    requires Closed(f) && h in f
    ensures var answer := Find(f, h, [word], COMPLETE, privilege);
            && (answer == (CMD_FOUND, Some(n)) <==> OnlyFits(f[h], word, privilege, n))
            && (answer == (CMD_AMBIGUOUS, Some(n)) <==> FirstOfSeveral(f[h], word, privilege, n))
            && (answer == (CMD_INVALID, None) <==> NoneFits(f[h], word, privilege))
  {
    hide OnlyFits, FirstOfSeveral, NoneFits, Candidates;
    CandidatesIff(f[h], word, privilege, n);
  }

  /** cmd_finder's status and match are exactly those of the declarative walk: for every tree, word
      list, action and privilege. */
  lemma FindIffJudged(f: Forest, h: Link<Cmd>, words: seq<string>, act: Action, privilege: int,
                      status: Status, found: Option<Link<Cmd>>)
    requires Closed(f) && h in f && |words| > Spared(act)
    ensures Find(f, h, words, act, privilege) == (status, found)
       <==> exists path :: Judged(f, h, words, act, privilege, path, status, found)
  {
    if Find(f, h, words, act, privilege) == (status, found) {
      var path := FoundIsJudged(f, h, words, act, privilege);
    } else if exists path :: Judged(f, h, words, act, privilege, path, status, found) {
      var path :| Judged(f, h, words, act, privilege, path, status, found);
      JudgedIsFound(f, h, words, act, privilege, path, status, found);
    }
  }
}
