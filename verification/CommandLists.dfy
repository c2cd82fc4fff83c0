/** cmd_register, cmd_is_completion and cmd_finder of commands.c on their linked lists and pointers
    (commands.c:97-157). */
module CommandLists {
  import opened Lists
  import opened Menus
  import opened Commands
  import opened Tokens

  ghost function Nodes(f: Forest): set<Link<Cmd>> {
    f.Keys + set h, i | h in f && 0 <= i < |f[h]| :: f[h][i]
  }

  /** The list head of a menu with its commands, as one ring. */
  ghost function Cycle(f: Forest, h: Link<Cmd>): (c: seq<Link<Cmd>>)
    requires h in f
    ensures forall i :: 0 <= i < |c| ==> c[i] in Nodes(f)
  {
    [h] + f[h]
  }

  ghost predicate Apart(f: Forest) {
    forall g, h, i, j :: g in f && h in f && g != h && 0 <= i < |f[g]| && 0 <= j < |f[h]| ==> f[g][i] != f[h][j]
  }

  /** Every menu is a ring of its own behind a head, its commands' menus included. */
  ghost predicate WellFormed(f: Forest)
    reads Nodes(f)
  {
    && Closed(f) && Apart(f)
    && forall h :: h in f ==> h.container.None? && Ring(Cycle(f, h))
  }

  lemma WellFormedIsClosed(f: Forest)
    requires WellFormed(f)
    ensures Closed(f)
  {
  }

  ghost function NamesOf(menu: seq<Link<Cmd>>): (names: seq<string>)
    requires forall i :: 0 <= i < |menu| ==> menu[i].container.Some?
    ensures |names| == |menu| && forall i :: 0 <= i < |menu| ==> names[i] == Name(menu[i])
  {
    seq(|menu|, i requires 0 <= i < |menu| => Name(menu[i]))
  }

  lemma SlotIs(names: seq<string>, k: nat, name: string)
    requires k <= |names|
    requires forall i :: 0 <= i < k ==> !Less(name, names[i])
    requires k < |names| ==> Less(name, names[k])
    ensures Slot(names, name) == k
  {
    var j := Slot(names, name);
  }

  /** The place of a name in a menu: in front of the first greater one. */
  ghost function Place(f: Forest, h: Link<Cmd>, name: string): (k: nat)
    requires Closed(f) && h in f
    ensures k <= |f[h]|
  {
    Slot(NamesOf(f[h]), name)
  }

  lemma NextInCycle(f: Forest, h: Link<Cmd>, k: nat)
    requires WellFormed(f) && h in f && k <= |f[h]|
    ensures (if k == 0 then h else f[h][k - 1]).next == if k < |f[h]| then f[h][k] else h
    ensures k < |f[h]| ==> f[h][k] != h
  {
    hide Ring, Closed, Apart;
    var c := Cycle(f, h);
    RingNext(c, k);
    if k < |f[h]| {
      RingNext(c, k + 1);
    }
  }

  /** The loop of cmd_register: the first command with a greater name, or the head. */
  method FindSlot(h: Link<Cmd>, name: string, ghost f: Forest) returns (tmp: Link<Cmd>, ghost k: nat)
    requires WellFormed(f) && h in f
    ensures WellFormed(f) && k == Place(f, h, name) <= |f[h]|
    ensures tmp == if Place(f, h, name) < |f[h]| then f[h][Place(f, h, name)] else h
  {
    hide Ring, Less;
    k := 0;
    NextInCycle(f, h, 0);
    tmp := h.next;
    while tmp != h
      invariant k <= |f[h]| && tmp == (if k < |f[h]| then f[h][k] else h) && (k < |f[h]| ==> tmp != h)
      invariant forall i :: 0 <= i < k ==> !Less(name, Name(f[h][i]))
      decreases |f[h]| - k
    {
      var c := tmp.container.value;
      if Less(name, c.name) {
        break;
      }
      NextInCycle(f, h, k + 1);
      tmp := tmp.next;
      k := k + 1;
    }
    SlotIs(NamesOf(f[h]), k, name);
  }

  /** The forest with a new command in its menu and an empty menu of its own. */
  ghost function Grown(f: Forest, h: Link<Cmd>, k: nat, n: Link<Cmd>): Forest
    requires h in f && k <= |f[h]| && n.container.Some?
  {
    f[h := Insert(f[h], k, n)][ChildOf(n) := []]
  }

  lemma GrownIsClosed(f: Forest, h: Link<Cmd>, k: nat, n: Link<Cmd>)
    requires Closed(f) && Apart(f) && h in f && k <= |f[h]|
    requires n.container.Some? && n !in Nodes(f) && ChildOf(n) !in Nodes(f)
    ensures Closed(Grown(f, h, k, n)) && Apart(Grown(f, h, k, n))
  {
    var f': Forest := Grown(f, h, k, n);
    assert ChildOf(n) !in f;
    forall g: Link<Cmd>, i | g in f' && 0 <= i < |f'[g]|
      ensures f'[g][i].container.Some? && ChildOf(f'[g][i]) in f'
      ensures f'[g][i] == n ==> g == h
      ensures f'[g][i] != n ==> g in f && f'[g][i] in f[g]
    {
      if g == h {
        assert f'[h][i] == if i < k then f[h][i] else if i == k then n else f[h][i - 1];
      } else if g in f {
        assert f[g][i] in Nodes(f);
      }
    }
    forall g: Link<Cmd>, g': Link<Cmd>, i, j | g in f' && g' in f' && g != g' && 0 <= i < |f'[g]| && 0 <= j < |f'[g']|
      ensures f'[g][i] != f'[g'][j]
    {
    }
  }

  lemma CycleOfGrown(f: Forest, h: Link<Cmd>, k: nat, n: Link<Cmd>)
    requires h in f && k <= |f[h]| && n.container.Some? && ChildOf(n) !in f
    ensures Cycle(Grown(f, h, k, n), h) == Inserted(Cycle(f, h), if k == |f[h]| then 0 else k + 1, n)
  {
    var c := Cycle(f, h);
    if k < |f[h]| {
      assert c[..k + 1] == [h] + f[h][..k] && c[k + 1..] == f[h][k..];
    }
  }

  /** Different menus share no links. */
  lemma CyclesApart(f: Forest, g: Link<Cmd>, h: Link<Cmd>)
    requires Closed(f) && Apart(f) && g in f && h in f && g != h
    requires g.container.None? && h.container.None?
    ensures forall i, j :: 0 <= i <= |f[g]| && 0 <= j <= |f[h]| ==> Cycle(f, g)[i] != Cycle(f, h)[j]
  {
    forall i, j | 0 <= i <= |f[g]| && 0 <= j <= |f[h]|
      ensures Cycle(f, g)[i] != Cycle(f, h)[j]
    {
      assert i > 0 ==> f[g][i - 1].container.Some?;
      assert j > 0 ==> f[h][j - 1].container.Some?;
    }
  }

  /** The links of a new command: its own empty menu, and its place in front of `tmp`. */
  method LinkCommand(h: Link<Cmd>, n: Link<Cmd>, tmp: Link<Cmd>, ghost f: Forest, ghost j: nat)
    requires WellFormed(f) && h in f && j <= |f[h]| && tmp == Cycle(f, h)[j]
    requires n.container.Some? && n !in Nodes(f)
    requires ChildOf(n) !in Nodes(f) && ChildOf(n).container.None?
    modifies n, ChildOf(n), h, f[h]
    ensures Ring([ChildOf(n)]) && Ring(Inserted(Cycle(f, h), j, n))
    ensures forall g :: g in f && g != h ==> Ring(Cycle(f, g))
  {
    hide Ring, Closed, Apart;
    forall g | g in f && g != h
      ensures forall i, j :: 0 <= i <= |f[g]| && 0 <= j <= |f[h]| ==> Cycle(f, g)[i] != Cycle(f, h)[j]
    {
      CyclesApart(f, g, h);
    }
    InitHead(n.container.value.child);
    assert Ring(Cycle(f, h));
    AddTail(n, tmp, Cycle(f, h), j);
  }

  lemma GrownIsWellFormed(f: Forest, h: Link<Cmd>, k: nat, n: Link<Cmd>)
    requires Closed(f) && Apart(f) && h in f && k <= |f[h]|
    requires n.container.Some? && n !in Nodes(f)
    requires ChildOf(n) !in Nodes(f) && ChildOf(n).container.None?
    requires Ring([ChildOf(n)]) && Ring(Inserted(Cycle(f, h), if k == |f[h]| then 0 else k + 1, n))
    requires forall g :: g in f ==> g.container.None? && (g != h ==> Ring(Cycle(f, g)))
    ensures WellFormed(Grown(f, h, k, n))
  {
    GrownIsClosed(f, h, k, n);
    CycleOfGrown(f, h, k, n);
    hide Ring, Closed, Apart;
    var f': Forest := Grown(f, h, k, n);
    forall g: Link<Cmd> | g in f'
      ensures g.container.None? && Ring(Cycle(f', g))
    {
      if g == ChildOf(n) {
        assert Cycle(f', g) == [g];
      } else if g != h {
        assert Cycle(f', g) == Cycle(f, g);
      }
    }
  }

  method Insertion(h: Link<Cmd>, n: Link<Cmd>, tmp: Link<Cmd>, ghost f: Forest, ghost k: nat) returns (ghost f': Forest)
    requires WellFormed(f) && h in f && k <= |f[h]| && tmp == if k < |f[h]| then f[h][k] else h
    requires n.container.Some? && n !in Nodes(f)
    requires ChildOf(n) !in Nodes(f) && ChildOf(n).container.None?
    modifies n, ChildOf(n), h, f[h]
    ensures f' == Grown(f, h, k, n) && WellFormed(f')
  {
    hide Ring, Closed, Apart;
    LinkCommand(h, n, tmp, f, if k == |f[h]| then 0 else k + 1);
    GrownIsWellFormed(f, h, k, n);
    f' := Grown(f, h, k, n);
  }

  /** cmd_register: the command and its empty menu join the forest, the command behind all names of
      its menu that are not greater. */
  method CmdRegister(h: Link<Cmd>, n: Link<Cmd>, ghost f: Forest) returns (ghost f': Forest)
    requires WellFormed(f) && h in f
    requires n.container.Some? && n !in Nodes(f)
    requires ChildOf(n) !in Nodes(f) && ChildOf(n).container.None?
    modifies n, ChildOf(n), h, f[h]
    ensures WellFormed(f')
    ensures f' == Grown(f, h, Place(f, h, Name(n)), n)
  {
    hide Ring, Less, Place, WellFormed, Grown, Closed, Apart, Nodes;
    WellFormedIsClosed(f);
    ghost var k;
    var tmp;
    tmp, k := FindSlot(h, n.container.value.name, f);
    f' := Insertion(h, n, tmp, f, k);
  }

  ghost predicate AllSorted(f: Forest)
    requires Closed(f)
  {
    forall h :: h in f ==> Sorted(NamesOf(f[h]))
  }

  lemma NothingIsSorted()
    ensures Sorted(NamesOf([]))
  {
  }

  /** Registering keeps every menu of the forest sorted, so every menu ever built is. */
  lemma RegisteringKeepsSorted(f: Forest, h: Link<Cmd>, n: Link<Cmd>)
    requires Closed(f) && Apart(f) && h in f && AllSorted(f)
    requires n.container.Some? && n !in Nodes(f) && ChildOf(n) !in Nodes(f)
    ensures var f' := Grown(f, h, Place(f, h, Name(n)), n);
            Closed(f') && AllSorted(f')
  {
    hide Slot, Less, Apart, Sorted;
    var k := Place(f, h, Name(n));
    GrownIsClosed(f, h, k, n);
    var f' := Grown(f, h, k, n);
    InsertKeepsSorted(NamesOf(f[h]), Name(n));
    assert NamesOf(Insert(f[h], k, n)) == Insert(NamesOf(f[h]), k, Name(n));
    NothingIsSorted();
  }

  /** cmd_is_completion: what the word leaves of the name, if it is a prefix of it. */
  method CmdIsCompletion(cmd: string, name: string) returns (rest: Option<string>)
    ensures rest.Some? <==> cmd <= name
    ensures rest.Some? ==> cmd + rest.value == name
  {
    var i := 0;
    while i < |cmd| && i < |name| && cmd[i] == name[i]
      invariant i <= |cmd| && i <= |name| && cmd[..i] == name[..i]
    {
      i := i + 1;
    }
    if i == |cmd| {
      return Some(name[i..]);
    }
    return None;
  }

  /** The inner loop of cmd_finder: the visible commands of a menu that the word fits, counted up to
      two. */
  method MatchWord(lst: Link<Cmd>, word: string, privilege: int, ghost f: Forest)
    returns (count: nat, found: Option<Link<Cmd>>)
    requires WellFormed(f) && lst in f
    ensures var c := Candidates(f[lst], word, privilege);
            && (count == 0 <==> c == []) && (count == 1 <==> |c| == 1)
            && (c == [] ==> found == None) && (c != [] ==> found == Some(c[0]))
  {
    hide Ring, Closed, Apart, Candidates;
    ghost var menu, k := f[lst], 0;
    count, found := 0, None;
    NextInCycle(f, lst, 0);
    CandidatesStart(word, privilege);
    assert menu[..0] == [];
    var tmp := lst.next;
    while tmp != lst
      invariant k <= |menu| && tmp == (if k < |menu| then menu[k] else lst) && (k < |menu| ==> tmp != lst)
      invariant var c := Candidates(menu[..k], word, privilege);
                count == |c| <= 1 && found == if c == [] then None else Some(c[0])
      decreases |menu| - k
    {
      CandidatesStep(menu, k, word, privilege);
      assert tmp.container.Some? by { MembersAreCommands(f, lst, k); }
      var n := tmp.container.value;
      var rest := CmdIsCompletion(word, n.name);
      if privilege >= n.privilege && rest.Some? {
        count := count + 1;
        if count > 1 {
          CandidatesGrow(menu, k + 1, word, privilege);
          return;
        }
        found := Some(tmp);
      }
      NextInCycle(f, lst, k + 1);
      tmp := tmp.next;
      k := k + 1;
    }
    assert menu[..k] == menu;
  }

  lemma MembersAreCommands(f: Forest, h: Link<Cmd>, k: nat)
    requires Closed(f) && h in f && k < |f[h]|
    ensures f[h][k].container.Some? && ChildOf(f[h][k]) in f
  {
  }

  lemma CandidatesStart(word: string, privilege: int)
    ensures Candidates([], word, privilege) == []
  {
  }

  lemma CandidatesStep(menu: seq<Link<Cmd>>, k: nat, word: string, privilege: int)
    requires k < |menu|
    ensures Candidates(menu[..k + 1], word, privilege)
         == Candidates(menu[..k], word, privilege) + if Fits(menu[k], word, privilege) then [menu[k]] else []
  {
    assert menu[..k + 1][..k] == menu[..k];
  }

  /** Candidates of a prefix of the menu stay the first candidates. */
  lemma {:induction false} CandidatesGrow(menu: seq<Link<Cmd>>, k: nat, word: string, privilege: int)
    requires k <= |menu|
    ensures Candidates(menu[..k], word, privilege) <= Candidates(menu, word, privilege)
    decreases |menu| - k
  {
    if k == |menu| {
      assert menu[..k] == menu;
    } else {
      CandidatesStep(menu, k, word, privilege);
      CandidatesGrow(menu, k + 1, word, privilege);
    }
  }

  /** cmd_finder: for every forest, argument vector, action and privilege it is the walk Find. */
  method CmdFinder(argv: array<Option<string>>, h: Link<Cmd>, act: Action, privilege: int,
                   ghost f: Forest, ghost words: seq<string>)
    returns (status: Status, found: Option<Link<Cmd>>)
    requires WellFormed(f) && h in f
    requires HoldsArgs(argv[..], words) && |words| > Spared(act)
    ensures (status, found) == Find(f, h, words, act, privilege)
  {
    hide Ring, Apart, Candidates;
    var adjuster := if act == C_HELP then 1 else 0;
    var i, lst := 0, h;
    while true
      invariant i < |words| - Spared(act) && lst in f
      invariant Find(f, h, words, act, privilege) == Find(f, lst, words[i..], act, privilege)
      decreases |words| - i
    {
      assert words[i..][1..] == words[i + 1..];
      var count;
      count, found := MatchWord(lst, argv[i].value, privilege, f);
      if count > 1 {
        return CMD_AMBIGUOUS, found;
      }
      if count == 0 {
        return CMD_INVALID, None;
      }
      var n := found.value.container.value;
      if act == FIND && n.final {
        return if argv[i + 1].Some? then CMD_FOUND else CMD_INCOMPLETE, found;
      }
      if argv[i + 1 + adjuster].None? {
        return CMD_FOUND, found;
      }
      lst := n.child;
      i := i + 1;
    }
  }
}
