/** __add_timer and increment_time of timers.c on the linked list of pending timers, proved to take
    the steps of module Timers. */
module TimerQueues {
  import opened Lists
  import opened Timers

  /** The word in the `expires` field. */
  function Expires(t: Timer): int { Wrap(t.due) }

  ghost predicate AllTimers(links: seq<Link<Timer>>) {
    forall i :: 0 <= i < |links| ==> links[i].container.Some?
  }

  ghost function Items(links: seq<Link<Timer>>): (items: seq<Timer>)
    requires AllTimers(links)
    ensures |items| == |links| && forall i :: 0 <= i < |links| ==> items[i] == links[i].container.value
  {
    seq(|links|, i requires 0 <= i < |links| => links[i].container.value)
  }

  lemma SlotIs(queue: seq<Timer>, k: nat, t: Timer)
    requires k <= |queue|
    requires forall i :: 0 <= i < k ==> !TimeAfter(Wrap(queue[i].due), Wrap(t.due))
    requires k < |queue| ==> TimeAfter(Wrap(queue[k].due), Wrap(t.due))
    ensures Slot(queue, t) == k
  {
    var j := Slot(queue, t);
  }

  /** None of the first k is still ahead of the clock. */
  predicate AllDue(queue: seq<Timer>, k: nat, now: int)
    requires k <= |queue|
  {
    forall i :: 0 <= i < k ==> !TimeBefore(Wrap(now), Wrap(queue[i].due))
  }

  lemma AllDueStep(queue: seq<Timer>, k: nat, now: int)
    requires k < |queue| && AllDue(queue, k, now) && !TimeBefore(Wrap(now), Wrap(queue[k].due))
    ensures AllDue(queue, k + 1, now)
  {
    hide TimeBefore, Wrap;
  }

  lemma NoneYet(queue: seq<Timer>, now: int)
    ensures AllDue(queue, 0, now)
  {
  }

  lemma RipeIs(queue: seq<Timer>, k: nat, now: int)
    requires k <= |queue| && AllDue(queue, k, now)
    requires k < |queue| ==> TimeBefore(Wrap(now), Wrap(queue[k].due))
    ensures Ripe(queue, now) == k
  {
    hide TimeBefore, Wrap;
    var j := Ripe(queue, now);
  }

  lemma InsertedBehindHead(head: Link<Timer>, links: seq<Link<Timer>>, k: nat, n: Link<Timer>)
    requires k <= |links|
    ensures Inserted([head] + links, if k == |links| then 0 else k + 1, n) == [head] + (links[..k] + [n] + links[k..])
  {
    var c := [head] + links;
    if k < |links| {
      assert c[..k + 1] == [head] + links[..k] && c[k + 1..] == links[k..];
    }
  }

  lemma InsertedItems(links: seq<Link<Timer>>, k: nat, n: Link<Timer>)
    requires AllTimers(links) && n.container.Some? && k <= |links|
    ensures var links' := links[..k] + [n] + links[k..];
            AllTimers(links') && Items(links') == Insert(Items(links), k, n.container.value)
  {
  }

  lemma ItemsFrom(links: seq<Link<Timer>>, k: nat)
    requires AllTimers(links) && k <= |links|
    ensures Items(links[k..]) == Items(links)[k..]
  {
  }

  lemma WrapAdd(now: int, inc: nat)
    ensures Wrap(Wrap(now) + inc) == Wrap(now + inc)
  {
    var q := now / WORD;
    assert now + inc == (Wrap(now) + inc) + q * WORD;
  }

  class TimerQueue {
    const head: Link<Timer>
    var jiffies: int
    /** The timers whose functions were called, in order. */
    var called: seq<Timer>
    ghost var links: seq<Link<Timer>>
    /** The time the clock word stands for. */
    ghost var now: int

    ghost predicate Valid()
      reads this, head, links
    {
      Ring([head] + links) && AllTimers(links) && jiffies == Wrap(now)
    }

    ghost function Queue(): seq<Timer>
      requires AllTimers(links)
      reads this
    {
      Items(links)
    }

    constructor (start: int)
      ensures Valid() && Queue() == [] && now == start && called == [] && fresh(head)
    {
      var h := new Link<Timer>(None);
      InitHead(h);
      head, links, now, jiffies, called := h, [], start, Wrap(start), [];
      assert [h] + [] == [h];
    }

    /** The first pending timer that expires after the new one, or the head. */
    method FindSlot(t: Timer) returns (at: Link<Timer>, ghost k: nat)
      requires Valid()
      ensures k == Slot(Queue(), t) && at == ([head] + links + [head])[k + 1]
    {
      ghost var c := [head] + links;
      k := 0;
      var next := head.next;
      assert |c| > 1 ==> c[0].next == c[1];
      at := next;
      while at != head && !TimeAfter(Expires(at.container.value), Expires(t))
        invariant k <= |links| && at == (c + [head])[k + 1]
        invariant forall i :: 0 <= i < k ==> !TimeAfter(Expires(links[i].container.value), Expires(t))
        decreases |links| - k
      {
        assert c[k + 1] == at == links[k];
        assert k + 1 < |c| - 1 ==> c[k + 1].next == c[k + 2];
        k := k + 1;
        at := at.next;
      }
      if k < |links| {
        assert c[k + 1] == links[k] && c[0] == head;
        assert at != head;
      }
      SlotIs(Queue(), k, t);
    }

    /** __add_timer */
    method AddTimer(n: Link<Timer>)
      requires Valid() && n.container.Some? && n != head && n !in links
      modifies this`links, n, head, links
      ensures Valid() && now == old(now) && called == old(called)
      ensures Queue() == Step(State(now, old(Queue()), []), Event.Add(n.container.value)).queue
    {
      hide Slot, Ring, TimeAfter, Wrap, Items, Step, Inserted, Timers.Insert;
      AddStep(now, Queue(), n.container.value);
      var at;
      ghost var k;
      at, k := FindSlot(n.container.value);
      ghost var c := [head] + links;
      ghost var j := if k == |links| then 0 else k + 1;
      assert at == c[j];
      assert forall x :: x in c ==> x == head || x in links;
      AddTail(n, at, c, j);
      InsertedBehindHead(head, links, k, n);
      InsertedItems(links, k, n);
      links := links[..k] + [n] + links[k..];
    }

    /** The first pending timer leaves the list and is called. */
    method CallFirst(t: Link<Timer>) returns (next: Link<Timer>)
      requires Valid() && links != [] && t == links[0]
      modifies this`links, this`called, head, links
      ensures Valid() && links == old(links)[1..]
      ensures called == old(called) + [t.container.value]
      ensures next == (if links == [] then head else links[0]) && (links != [] ==> next != head)
    {
      ghost var c := [head] + links;
      assert c[1] == t && links[1..] == c[2..];
      next := t.next;
      assert next == if |links| > 1 then links[1] else head by {
        assert |c| > 2 ==> c[1].next == c[2];
      }
      called := called + [t.container.value];
      Delete(t, c, 1);
      assert c[..1] + c[2..] == [head] + links[1..];
      links := links[1..];
      HeadApart(head, links);
    }

    /** Of the timers that were pending the first k have been called, and `i` is the next link. */
    ghost predicate Drained(was: seq<Link<Timer>>, before: seq<Timer>, k: nat, i: Link<Timer>)
      reads this, head, links
    {
      && Valid() && k <= |was| && AllTimers(was) && links == was[k..]
      && i == (if links == [] then head else links[0]) && (links != [] ==> i != head)
      && called == before + Items(was)[..k]
    }

    method CallNext(i: Link<Timer>, ghost was: seq<Link<Timer>>, ghost before: seq<Timer>, ghost k: nat)
      returns (next: Link<Timer>)
      requires Drained(was, before, k, i) && i != head
      modifies this`links, this`called, head, links
      ensures Drained(was, before, k + 1, next)
    {
      hide Ring, Wrap;
      assert links[0] == was[k];
      assert Items(was)[..k + 1] == Items(was)[..k] + [i.container.value];
      next := CallFirst(i);
      assert was[k..][1..] == was[k + 1..];
    }

    /** One pass of the loop: the next timer is called, unless there is none or it is still ahead. */
    method CallIfDue(i: Link<Timer>, ghost was: seq<Link<Timer>>, ghost before: seq<Timer>, ghost k: nat)
      returns (more: bool, next: Link<Timer>)
      requires Drained(was, before, k, i) && AllDue(Items(was), k, now)
      modifies this`links, this`called, head, links
      ensures more ==> k < |was| && Drained(was, before, k + 1, next) && AllDue(Items(was), k + 1, now)
      ensures !more ==> Drained(was, before, k, next) && Ripe(Items(was), now) == k
    {
      hide Ring, TimeBefore, Wrap, Ripe, AllDue;
      assert i != head ==> k < |was| && i == was[k];
      if i == head || TimeBefore(jiffies, Expires(i.container.value)) {
        RipeIs(Items(was), k, now);
        return false, i;
      }
      AllDueStep(Items(was), k, now);
      next := CallNext(i, was, before, k);
      return true, next;
    }

    /** The loop of increment_time at the new clock. */
    method CallRipe()
      requires Valid()
      modifies this`links, this`called, head, links
      ensures Valid()
      ensures var k := Ripe(old(Queue()), now);
              Queue() == old(Queue())[k..] && called == old(called) + old(Queue())[..k]
    {
      FirstOf(head, links);
      hide Ring, TimeBefore, Ripe, Wrap, AllDue, Items;
      ghost var was, k := links, 0;
      NoneYet(Items(was), now);
      assert called == called + Items(was)[..0];
      var i: Link<Timer> := head.next;
      var more := true;
      while more
        invariant Drained(was, old(called), k, i)
        invariant if more then AllDue(Items(was), k, now) else Ripe(Items(was), now) == k
        decreases more, |was| - k
      {
        more, i := CallIfDue(i, was, old(called), k);
        k := if more then k + 1 else k;
      }
      ItemsFrom(was, k);
    }

    method AdvanceClock(inc: nat)
      requires Valid()
      modifies this`now, this`jiffies
      ensures Valid() && now == old(now) + inc
    {
      hide Ring, Wrap;
      WrapAdd(now, inc);
      now := now + inc;
      jiffies := Wrap(jiffies + inc);
    }

    /** increment_time: every timer that is due leaves the list and is called. */
    method IncrementTime(inc: nat)
      requires Valid()
      modifies this, head, links
      ensures Valid() && now == old(now) + inc
      ensures var s := Step(State(old(now), old(Queue()), []), Tick(inc));
              Queue() == s.queue && called == old(called) + s.fired
    {
      hide Ring, Ripe, Wrap, Items, Step, TimeAfter, TimeBefore;
      ghost var queue, start := Queue(), now;
      AdvanceClock(inc);
      CallRipe();
      TickStep(start, queue, inc);
    }
  }

  lemma AddStep(now: int, queue: seq<Timer>, t: Timer)
    ensures Step(State(now, queue, []), Event.Add(t)).queue == Insert(queue, Slot(queue, t), t)
  {
  }

  lemma TickStep(now: int, queue: seq<Timer>, inc: nat)
    ensures var k := Ripe(queue, now + inc);
            Step(State(now, queue, []), Tick(inc)) == State(now + inc, queue[k..], queue[..k])
  {
  }

  lemma HeadApart(head: Link<Timer>, links: seq<Link<Timer>>)
    requires Ring([head] + links)
    ensures links != [] ==> links[0] != head
  {
    var c := [head] + links;
    if links != [] {
      assert c[0] != c[1];
    }
  }

  lemma FirstOf(head: Link<Timer>, links: seq<Link<Timer>>)
    requires Ring([head] + links)
    ensures head.next == if links == [] then head else links[0]
    ensures links != [] ==> links[0] != head
  {
    var c := [head] + links;
    if links != [] {
      assert c[0].next == c[1];
      assert c[0] != c[1];
    }
  }
}
