/** Whole sequences of registrations, such as those of commands_init, on the linked menus of a program
    (commands.c:97-113, 382-423). */
module Registrations {
  import opened Lists
  import opened Menus
  import opened Commands
  import opened CommandLists

  /** One call of cmd_register: the head of the menu, and the new command. */
  datatype Registration = Registration(h: Link<Cmd>, n: Link<Cmd>)

  /** The menu is there, and the command and the head of its own menu are not yet linked anywhere. */
  ghost predicate Applies(f: Forest, r: Registration) {
    && r.h in f && r.n.container.Some? && r.n !in Nodes(f)
    && ChildOf(r.n) !in Nodes(f) && ChildOf(r.n).container.None?
  }

  ghost function After(f: Forest, r: Registration): (f': Forest)
    requires Closed(f) && Apart(f) && Applies(f, r)
    ensures Closed(f') && Apart(f')
  {
    GrownIsClosed(f, r.h, Place(f, r.h, Name(r.n)), r.n);
    Grown(f, r.h, Place(f, r.h, Name(r.n)), r.n)
  }

  /** The forest after a sequence of registrations; one that does not apply is passed over. */
  ghost function AfterAll(f: Forest, regs: seq<Registration>): (f': Forest)
    requires Closed(f) && Apart(f)
    ensures Closed(f') && Apart(f')
    decreases |regs|
  {
    if regs == [] then f
    else
      var g := AfterAll(f, regs[..|regs| - 1]);
      if Applies(g, regs[|regs| - 1]) then After(g, regs[|regs| - 1]) else g
  }

  ghost predicate AllApply(f: Forest, regs: seq<Registration>)
    requires Closed(f) && Apart(f)
  {
    forall k :: 0 <= k < |regs| ==> Applies(AfterAll(f, regs[..k]), regs[k])
  }

  /** The links the registrations bring in. */
  ghost function Brought(regs: seq<Registration>): set<Link<Cmd>> {
    (set i | 0 <= i < |regs| :: regs[i].n)
    + set i | 0 <= i < |regs| && regs[i].n.container.Some? :: ChildOf(regs[i].n)
  }

  lemma AllApplyInit(f: Forest, regs: seq<Registration>)
    requires Closed(f) && Apart(f) && regs != [] && AllApply(f, regs)
    ensures AllApply(f, regs[..|regs| - 1]) && Applies(AfterAll(f, regs[..|regs| - 1]), regs[|regs| - 1])
  {
    var init := regs[..|regs| - 1];
    forall k | 0 <= k < |init|
      ensures Applies(AfterAll(f, init[..k]), init[k])
    {
      assert init[..k] == regs[..k];
    }
  }

  lemma NodesAfter(f: Forest, r: Registration)
    requires Closed(f) && Apart(f) && Applies(f, r)
    ensures Nodes(After(f, r)) <= Nodes(f) + {r.n, ChildOf(r.n)}
  {
    var f' := After(f, r);
    var k := Place(f, r.h, Name(r.n));
    forall h: Link<Cmd>, i | h in f' && 0 <= i < |f'[h]|
      ensures f'[h][i] in Nodes(f) + {r.n}
    {
      if h == r.h {
        assert f'[h][i] == if i < k then f[h][i] else if i == k then r.n else f[h][i - 1];
      }
    }
  }

  lemma {:induction false} NodesAfterAll(f: Forest, regs: seq<Registration>, k: nat)
    requires Closed(f) && Apart(f) && k <= |regs|
    ensures Nodes(AfterAll(f, regs[..k])) <= Nodes(f) + Brought(regs)
    decreases k
  {
    if k > 0 {
      hide Nodes, After;
      NodesAfterAll(f, regs, k - 1);
      assert regs[..k][..k - 1] == regs[..k - 1];
      var g := AfterAll(f, regs[..k - 1]);
      if Applies(g, regs[k - 1]) {
        NodesAfter(g, regs[k - 1]);
      }
    }
  }

  /** A sequence of calls of cmd_register. */
  method RegisterAll(regs: seq<Registration>, ghost f: Forest) returns (ghost f': Forest)
    requires WellFormed(f) && AllApply(f, regs)
    modifies Nodes(f), Brought(regs)
    ensures WellFormed(f') && f' == AfterAll(f, regs)
  {
    hide Ring, Place, Closed, Apart, Nodes, Grown, Brought;
    var k := 0;
    f' := f;
    assert regs[..0] == [];
    while k < |regs|
      invariant k <= |regs| && WellFormed(f') && f' == AfterAll(f, regs[..k])
    {
      assert Applies(f', regs[k]);
      FrameOfStep(f, regs, k);
      assert regs[..k + 1][..k] == regs[..k];
      f' := CmdRegister(regs[k].h, regs[k].n, f');
      k := k + 1;
    }
    assert regs[..k] == regs;
  }

  lemma FrameOfStep(f: Forest, regs: seq<Registration>, k: nat)
    requires Closed(f) && Apart(f) && AllApply(f, regs) && k < |regs|
    ensures var g, all := AfterAll(f, regs[..k]), Nodes(f) + Brought(regs);
            && regs[k].n in all && ChildOf(regs[k].n) in all && regs[k].h in all
            && forall i :: 0 <= i < |g[regs[k].h]| ==> g[regs[k].h][i] in all
  {
    NodesAfterAll(f, regs, k);
    var g := AfterAll(f, regs[..k]);
    assert Applies(g, regs[k]);
    assert forall i :: 0 <= i < |g[regs[k].h]| ==> g[regs[k].h][i] in Nodes(g);
  }

  // ---------- what the menus hold ----------

  ghost function Entries(menu: seq<Link<Cmd>>): (e: seq<Entry<Link<Cmd>>>)
    requires forall i :: 0 <= i < |menu| ==> menu[i].container.Some?
    ensures |e| == |menu| && Names(e) == NamesOf(menu)
    ensures forall i :: 0 <= i < |menu| ==> e[i] == Entry(Name(menu[i]), menu[i])
  {
    seq(|menu|, i requires 0 <= i < |menu| => Entry(Name(menu[i]), menu[i]))
  }

  /** The registrations to one menu, in order. */
  ghost function To(regs: seq<Registration>, h: Link<Cmd>): seq<Entry<Link<Cmd>>> {
    if regs == [] then []
    else
      var r := regs[|regs| - 1];
      To(regs[..|regs| - 1], h) + if r.h == h && r.n.container.Some? then [Entry(Name(r.n), r.n)] else []
  }

  lemma EntriesOfInsert(menu: seq<Link<Cmd>>, k: nat, n: Link<Cmd>)
    requires k <= |menu| && n.container.Some? && forall i :: 0 <= i < |menu| ==> menu[i].container.Some?
    ensures forall i :: 0 <= i < |Insert(menu, k, n)| ==> Insert(menu, k, n)[i].container.Some?
    ensures Entries(Insert(menu, k, n)) == Insert(Entries(menu), k, Entry(Name(n), n))
  {
    forall i | 0 <= i <= |menu|
      ensures Insert(menu, k, n)[i] == if i < k then menu[i] else if i == k then n else menu[i - 1]
    {
    }
  }

  /** Every menu that starts empty is what registering its commands one by one makes of it. */
  lemma {:induction false} MenuIsRegistered(f: Forest, regs: seq<Registration>, h: Link<Cmd>)
    requires Closed(f) && Apart(f) && AllApply(f, regs) && (h in f ==> f[h] == [])
    ensures var f' := AfterAll(f, regs);
            if h in f' then Entries(f'[h]) == Registered(To(regs, h)) else To(regs, h) == []
    decreases |regs|
  {
    if regs != [] {
      var init, r := regs[..|regs| - 1], regs[|regs| - 1];
      AllApplyInit(f, regs);
      MenuIsRegistered(f, init, h);
      StepIsRegistered(AfterAll(f, init), r, To(init, h), h);
      assert To(regs, h) == To(init, h) + if r.h == h then [Entry(Name(r.n), r.n)] else [];
    }
  }

  lemma StepIsRegistered(g: Forest, r: Registration, before: seq<Entry<Link<Cmd>>>, h: Link<Cmd>)
    requires Closed(g) && Apart(g) && Applies(g, r)
    requires if h in g then Entries(g[h]) == Registered(before) else before == []
    ensures var g', now := After(g, r), before + if r.h == h then [Entry(Name(r.n), r.n)] else [];
            if h in g' then Entries(g'[h]) == Registered(now) else now == []
  {
    hide Apart, Slot;
    if r.h == h {
      var e := Entry(Name(r.n), r.n);
      EntriesOfInsert(g[h], Place(g, h, Name(r.n)), r.n);
      assert (before + [e])[..|before|] == before;
    } else {
      assert before + [] == before;
    }
  }

  /** Every menu that starts empty ends up sorted, with exactly the commands registered to it: those of
      each name in the order of their registration. */
  lemma MenusAreSortedAndStable(f: Forest, regs: seq<Registration>, h: Link<Cmd>, name: string)
    requires Closed(f) && Apart(f) && AllApply(f, regs) && (h in f ==> f[h] == [])
    requires h in AfterAll(f, regs)
    ensures var menu := AfterAll(f, regs)[h];
            Sorted(NamesOf(menu)) && Of(Entries(menu), name) == Of(To(regs, h), name)
  {
    MenuIsRegistered(f, regs, h);
    RegisteredIsSorted(To(regs, h));
    RegisteredIsStable(To(regs, h), name);
  }
}
