/** The order of a menu: strcmp, sorted insertion, and what any sequence of registrations yields
    (commands.c:97-113). */
module Menus {

  /** strcmp(a, b) < 0 */
  predicate Less(a: string, b: string) {
    b != "" && (a == "" || a[0] < b[0] || (a[0] == b[0] && Less(a[1..], b[1..])))
  }

  /** The names agree up to column k, where the first ends or has the smaller character. */
  predicate LessFrom(a: string, b: string, k: nat) {
    && k <= |a| && k < |b| && (forall i :: 0 <= i < k ==> a[i] == b[i])
    && (k < |a| ==> a[k] < b[k])
  }

  /** A name comes first iff it is a proper prefix of the other, or has the smaller character where the two
      first differ. */
  lemma {:induction false} LessIff(a: string, b: string)
    ensures Less(a, b) <==> exists k: nat :: LessFrom(a, b, k)
    decreases |a|
  {
    if a != "" && b != "" && a[0] == b[0] {
      LessIff(a[1..], b[1..]);
      if Less(a[1..], b[1..]) {
        var k: nat :| LessFrom(a[1..], b[1..], k);
        LessFromTails(a, b, k + 1);
      } else if k: nat :| LessFrom(a, b, k) {
        LessFromTails(a, b, k);
      }
    } else if Less(a, b) {
      assert LessFrom(a, b, 0);
    }
  }

  lemma LessFromTails(a: string, b: string, k: nat)
    requires a != "" && b != "" && a[0] == b[0]
    ensures LessFrom(a, b, k) <==> k > 0 && LessFrom(a[1..], b[1..], k - 1)
  {
    if k > 0 && LessFrom(a[1..], b[1..], k - 1) {
      assert forall i :: 0 < i < k ==> a[i] == a[1..][i - 1] && b[i] == b[1..][i - 1];
    }
  }

  lemma {:induction false} LessIsTotal(a: string, b: string)
    ensures Less(a, b) || Less(b, a) || a == b
    ensures !(Less(a, b) && Less(b, a)) && !Less(a, a)
    decreases |a|
  {
    if a != "" && b != "" && a[0] == b[0] {
      LessIsTotal(a[1..], b[1..]);
      assert a == [a[0]] + a[1..] && b == [b[0]] + b[1..];
    }
    if a != "" {
      LessIsTotal(a[1..], a[1..]);
    }
  }

  lemma {:induction false} LessIsTransitive(a: string, b: string, c: string)
    requires Less(a, b) && Less(b, c)
    ensures Less(a, c)
    decreases |a|
  {
    if a != "" && a[0] == b[0] && b[0] == c[0] {
      LessIsTransitive(a[1..], b[1..], c[1..]);
    }
  }

  lemma NotLessIsTransitive(a: string, b: string, c: string)
    requires !Less(b, a) && !Less(c, b)
    ensures !Less(c, a)
  {
    LessIsTotal(a, b);
    LessIsTotal(b, c);
    if Less(c, a) {
      if Less(a, b) {
        LessIsTransitive(c, a, b);
      }
      LessIsTotal(c, a);
    }
  }

  predicate Sorted(names: seq<string>) {
    forall i, j :: 0 <= i < j < |names| ==> !Less(names[j], names[i])
  }

  /** Where cmd_register inserts: in front of the first name that is greater. */
  function Slot(names: seq<string>, name: string): (k: nat)
    ensures k <= |names|
    ensures forall i :: 0 <= i < k ==> !Less(name, names[i])
    ensures k < |names| ==> Less(name, names[k])
  {
    if names == [] || Less(name, names[0]) then 0 else 1 + Slot(names[1..], name)
  }

  function Insert<T>(s: seq<T>, k: nat, x: T): seq<T>
    requires k <= |s|
  {
    s[..k] + [x] + s[k..]
  }

  /** From the slot on all names are greater. */
  lemma BeyondSlot(names: seq<string>, name: string, i: nat)
    requires Sorted(names) && Slot(names, name) <= i < |names|
    ensures Less(name, names[i])
  {
    var k := Slot(names, name);
    if i > k {
      assert !Less(names[i], names[k]);
      if !Less(name, names[i]) {
        NotLessIsTransitive(names[k], names[i], name);
      }
    }
  }

  lemma InsertKeepsSorted(names: seq<string>, name: string)
    requires Sorted(names)
    ensures Sorted(Insert(names, Slot(names, name), name))
  {
    var k := Slot(names, name);
    var s := Insert(names, k, name);
    forall i | k <= i < |names|
      ensures !Less(names[i], name)
    {
      BeyondSlot(names, name, i);
      LessIsTotal(name, names[i]);
    }
    hide Less;
    forall i, j | 0 <= i < j < |s|
      ensures !Less(s[j], s[i])
    {
      assert s[i] == if i < k then names[i] else if i == k then name else names[i - 1];
      assert s[j] == if j < k then names[j] else if j == k then name else names[j - 1];
    }
  }

  /** A registration: the name of a command, and the command, which tells equal names apart. */
  datatype Entry<T> = Entry(name: string, what: T)

  function Names<T>(menu: seq<Entry<T>>): (names: seq<string>)
    ensures |names| == |menu| && forall i :: 0 <= i < |menu| ==> names[i] == menu[i].name
  {
    seq(|menu|, i requires 0 <= i < |menu| => menu[i].name)
  }

  /** The menu after a sequence of registrations. */
  function Registered<T>(regs: seq<Entry<T>>): seq<Entry<T>> {
    if regs == [] then []
    else
      var menu, e := Registered(regs[..|regs| - 1]), regs[|regs| - 1];
      Insert(menu, Slot(Names(menu), e.name), e)
  }

  /** The entries of one name, in menu order. */
  function Of<T>(menu: seq<Entry<T>>, name: string): seq<Entry<T>> {
    if menu == [] then []
    else
      var last := menu[|menu| - 1];
      Of(menu[..|menu| - 1], name) + if last.name == name then [last] else []
  }

  lemma {:induction false} OfConcat<T>(a: seq<Entry<T>>, b: seq<Entry<T>>, name: string)
    ensures Of(a + b, name) == Of(a, name) + Of(b, name)
    decreases |b|
  {
    if b == [] {
      assert a + b == a;
    } else {
      assert (a + b)[..|a + b| - 1] == a + b[..|b| - 1];
      OfConcat(a, b[..|b| - 1], name);
    }
  }

  lemma {:induction false} OfNone<T>(menu: seq<Entry<T>>, name: string)
    requires forall i :: 0 <= i < |menu| ==> menu[i].name != name
    ensures Of(menu, name) == []
    decreases |menu|
  {
    if menu != [] {
      OfNone(menu[..|menu| - 1], name);
    }
  }

  lemma InsertOf<T>(menu: seq<Entry<T>>, e: Entry<T>, name: string)
    requires Sorted(Names(menu))
    ensures Of(Insert(menu, Slot(Names(menu), e.name), e), name) == Of(menu, name) + Of([e], name)
  {
    hide Slot, Less, Of;
    var k := Slot(Names(menu), e.name);
    var a, b := menu[..k], menu[k..];
    assert menu == a + b;
    OfConcat(a, b, name);
    OfConcat(a + [e], b, name);
    OfConcat(a, [e], name);
    if e.name == name {
      forall i | 0 <= i < |b|
        ensures b[i].name != name
      {
        BeyondSlot(Names(menu), name, k + i);
        LessIsTotal(name, name);
      }
      OfNone(b, name);
    } else {
      OfNone([e], name);
    }
  }

  lemma OfLast<T>(menu: seq<Entry<T>>, name: string)
    requires menu != []
    ensures Of(menu, name) == Of(menu[..|menu| - 1], name) + Of([menu[|menu| - 1]], name)
  {
    var last := menu[|menu| - 1];
    assert [last][..0] == [];
    assert Of([last], name) == if last.name == name then [last] else [];
  }

  lemma NamesOfInsert<T>(menu: seq<Entry<T>>, k: nat, e: Entry<T>)
    requires k <= |menu|
    ensures Names(Insert(menu, k, e)) == Insert(Names(menu), k, e.name)
  {
  }

  /** Whatever is registered, in whatever order, the menu is sorted by strcmp. */
  lemma {:induction false} RegisteredIsSorted<T>(regs: seq<Entry<T>>)
    ensures Sorted(Names(Registered(regs)))
    decreases |regs|
  {
    if regs != [] {
      hide Slot, Less;
      var menu, e := Registered(regs[..|regs| - 1]), regs[|regs| - 1];
      RegisteredIsSorted(regs[..|regs| - 1]);
      InsertKeepsSorted(Names(menu), e.name);
      NamesOfInsert(menu, Slot(Names(menu), e.name), e);
    }
  }

  /** Registering is a stable sort: the commands of each name are exactly those registered under it,
      in registration order. */
  lemma {:induction false} RegisteredIsStable<T>(regs: seq<Entry<T>>, name: string)
    ensures Of(Registered(regs), name) == Of(regs, name)
    decreases |regs|
  {
    if regs != [] {
      hide Slot, Less, Of;
      var menu, e := Registered(regs[..|regs| - 1]), regs[|regs| - 1];
      RegisteredIsStable(regs[..|regs| - 1], name);
      RegisteredIsSorted(regs[..|regs| - 1]);
      InsertOf(menu, e, name);
      OfLast(regs, name);
    }
  }
}
