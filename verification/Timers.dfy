/** The timer queue of timers.c. Clock and expiries are words that wrap around; the model relates
    them to unbounded times and shows when the difference does not matter. */
module Timers {
  import opened Sequences

  const WORD := 0x1_0000_0000_0000_0000
  const HALF := 0x8000_0000_0000_0000

  /** A time as an unsigned word. */
  function Wrap(x: int): int { x % WORD }

  /** `time_after(a, b)`: the wrapped signed difference b - a is negative. */
  predicate TimeAfter(a: int, b: int) { Wrap(b - a) >= HALF }

  predicate TimeBefore(a: int, b: int) { TimeAfter(b, a) }

  /** For times less than a word apart, the comparison of their words is right iff the first is less
      than half a word behind and at most half a word ahead. */
  lemma TimeAfterIff(a: int, b: int)
    requires -WORD < a - b < WORD
    ensures (TimeAfter(Wrap(a), Wrap(b)) <==> a > b) <==> -HALF < a - b <= HALF
  {
    WrapDifference(a, b);
    if b - a >= 0 {
      WrapSmall(b - a);
    } else {
      WrapSmall(b - a + WORD);
      WrapShift(b - a);
    }
  }

  lemma WrapSmall(x: int)
    requires 0 <= x < WORD
    ensures Wrap(x) == x
  {
  }

  lemma WrapShift(x: int)
    ensures Wrap(x + WORD) == Wrap(x)
  {
  }

  lemma WrapDifference(a: int, b: int)
    ensures Wrap(Wrap(b) - Wrap(a)) == Wrap(b - a)
  {
    var q := b / WORD - a / WORD;
    assert b - a == (Wrap(b) - Wrap(a)) + q * WORD;
  }

  /** A pending timer with its unbounded expiry; the machine word is `Wrap(due)`. */
  datatype Timer = Timer(id: nat, due: int)

  /** Where __add_timer inserts: in front of the first timer that expires after the new one. */
  function Slot(queue: seq<Timer>, t: Timer): (k: nat)
    ensures k <= |queue|
    ensures forall i :: 0 <= i < k ==> !TimeAfter(Wrap(queue[i].due), Wrap(t.due))
    ensures k < |queue| ==> TimeAfter(Wrap(queue[k].due), Wrap(t.due))
  {
    if queue == [] || TimeAfter(Wrap(queue[0].due), Wrap(t.due)) then 0 else 1 + Slot(queue[1..], t)
  }

  /** How many timers increment_time fires: all in front of the first that is still ahead. */
  function Ripe(queue: seq<Timer>, now: int): (k: nat)
    ensures k <= |queue|
    ensures forall i :: 0 <= i < k ==> !TimeBefore(Wrap(now), Wrap(queue[i].due))
    ensures k < |queue| ==> TimeBefore(Wrap(now), Wrap(queue[k].due))
  {
    if queue == [] || TimeBefore(Wrap(now), Wrap(queue[0].due)) then 0 else 1 + Ripe(queue[1..], now)
  }

  function Insert(queue: seq<Timer>, k: nat, t: Timer): seq<Timer>
    requires k <= |queue|
  {
    queue[..k] + [t] + queue[k..]
  }

  datatype Event = Add(t: Timer) | Tick(inc: nat)

  /** The unbounded clock, the pending timers, and what the last event fired. */
  datatype State = State(now: int, queue: seq<Timer>, fired: seq<Timer>)

  function Step(s: State, e: Event): State {
    match e
    case Add(t) => State(s.now, Insert(s.queue, Slot(s.queue, t), t), [])
    case Tick(inc) =>
      var k := Ripe(s.queue, s.now + inc);
      State(s.now + inc, s.queue[k..], s.queue[..k])
  }

  function Run(start: int, events: seq<Event>): State {
    if events == [] then State(start, [], []) else Step(Run(start, events[..|events| - 1]), events[|events| - 1])
  }

  // ---------- the window ----------

  predicate Close(a: int, b: int) { -HALF < a - b < HALF }

  /** Clock, pending expiries and the times an event brings in are less than half a word apart. */
  predicate InWindow(s: State, e: Event) {
    && (forall i, j :: 0 <= i < |s.queue| && 0 <= j < |s.queue| ==> Close(s.queue[i].due, s.queue[j].due))
    && match e
       case Add(t) => forall i :: 0 <= i < |s.queue| ==> Close(s.queue[i].due, t.due)
       case Tick(inc) => forall i :: 0 <= i < |s.queue| ==> Close(s.queue[i].due, s.now + inc)
  }

  predicate AlwaysInWindow(start: int, events: seq<Event>) {
    forall n :: 0 <= n < |events| ==> InWindow(Run(start, events[..n]), events[n])
  }

  predicate Sorted(queue: seq<Timer>) {
    forall i, j :: 0 <= i < j < |queue| ==> queue[i].due <= queue[j].due
  }

  /** Within the window the word comparisons are the comparisons of the times. */
  lemma CloseCompares(a: int, b: int)
    requires Close(a, b)
    ensures TimeAfter(Wrap(a), Wrap(b)) <==> a > b
  {
    TimeAfterIff(a, b);
  }

  lemma SlotInWindow(queue: seq<Timer>, t: Timer)
    requires Sorted(queue) && forall i :: 0 <= i < |queue| ==> Close(queue[i].due, t.due)
    ensures var k := Slot(queue, t);
            (forall i :: 0 <= i < k ==> queue[i].due <= t.due) && forall i :: k <= i < |queue| ==> queue[i].due > t.due
  {
    forall i | 0 <= i < |queue|
      ensures TimeAfter(Wrap(queue[i].due), Wrap(t.due)) <==> queue[i].due > t.due
    {
      CloseCompares(queue[i].due, t.due);
    }
  }

  lemma RipeInWindow(queue: seq<Timer>, now: int)
    requires Sorted(queue) && forall i :: 0 <= i < |queue| ==> Close(queue[i].due, now)
    ensures var k := Ripe(queue, now);
            (forall i :: 0 <= i < k ==> queue[i].due <= now) && forall i :: k <= i < |queue| ==> queue[i].due > now
  {
    forall i | 0 <= i < |queue|
      ensures TimeBefore(Wrap(now), Wrap(queue[i].due)) <==> queue[i].due > now
    {
      CloseCompares(queue[i].due, now);
    }
  }

  lemma InsertKeepsSorted(queue: seq<Timer>, k: nat, t: Timer)
    requires Sorted(queue) && k <= |queue|
    requires forall i :: 0 <= i < k ==> queue[i].due <= t.due
    requires forall i :: k <= i < |queue| ==> queue[i].due > t.due
    ensures Sorted(Insert(queue, k, t))
  {
    var s := Insert(queue, k, t);
    forall i, j | 0 <= i < j < |s|
      ensures s[i].due <= s[j].due
    {
      assert s[i] == if i < k then queue[i] else if i == k then t else queue[i - 1];
      assert s[j] == if j < k then queue[j] else if j == k then t else queue[j - 1];
    }
  }

  lemma StepKeepsSorted(s: State, e: Event)
    requires Sorted(s.queue) && InWindow(s, e)
    ensures Sorted(Step(s, e).queue)
  {
    hide Slot, Ripe;
    if e.Add? {
      SlotInWindow(s.queue, e.t);
      InsertKeepsSorted(s.queue, Slot(s.queue, e.t), e.t);
    }
  }

  lemma AlwaysInWindowInit(start: int, events: seq<Event>)
    requires events != [] && AlwaysInWindow(start, events)
    ensures AlwaysInWindow(start, events[..|events| - 1])
    ensures InWindow(Run(start, events[..|events| - 1]), events[|events| - 1])
  {
    var init := events[..|events| - 1];
    forall n | 0 <= n < |init|
      ensures InWindow(Run(start, init[..n]), init[n])
    {
      assert init[..n] == events[..n];
    }
  }

  /** Every run within the window keeps the queue sorted by time. */
  lemma {:induction false} RunKeepsSorted(start: int, events: seq<Event>)
    requires AlwaysInWindow(start, events)
    ensures Sorted(Run(start, events).queue)
    decreases |events|
  {
    if events != [] {
      AlwaysInWindowInit(start, events);
      RunKeepsSorted(start, events[..|events| - 1]);
      StepKeepsSorted(Run(start, events[..|events| - 1]), events[|events| - 1]);
    }
  }

  /** The timers of one expiry, in queue order. */
  function Of(queue: seq<Timer>, due: int): seq<Timer> {
    if queue == [] then []
    else
      var last := queue[|queue| - 1];
      Of(queue[..|queue| - 1], due) + if last.due == due then [last] else []
  }

  lemma {:induction false} OfConcat(a: seq<Timer>, b: seq<Timer>, due: int)
    ensures Of(a + b, due) == Of(a, due) + Of(b, due)
    decreases |b|
  {
    if b == [] {
      assert a + b == a;
    } else {
      assert (a + b)[..|a + b| - 1] == a + b[..|b| - 1];
      OfConcat(a, b[..|b| - 1], due);
    }
  }

  lemma {:induction false} OfNone(a: seq<Timer>, due: int)
    requires forall i :: 0 <= i < |a| ==> a[i].due != due
    ensures Of(a, due) == []
    decreases |a|
  {
    if a != [] {
      OfNone(a[..|a| - 1], due);
    }
  }

  /** Equal expiries queue up in the order they were added. */
  lemma EqualExpiriesAreFifo(s: State, t: Timer, due: int)
    requires Sorted(s.queue) && InWindow(s, Add(t))
    ensures Of(Step(s, Add(t)).queue, due) == Of(s.queue, due) + if t.due == due then [t] else []
  {
    hide Slot;
    var k := Slot(s.queue, t);
    SlotInWindow(s.queue, t);
    InsertOf(s.queue, k, t, due);
  }

  lemma InsertOf(queue: seq<Timer>, k: nat, t: Timer, due: int)
    requires k <= |queue| && forall i :: k <= i < |queue| ==> queue[i].due > t.due
    ensures Of(Insert(queue, k, t), due) == Of(queue, due) + if t.due == due then [t] else []
  {
    var a, b := queue[..k], queue[k..];
    assert a + b == queue;
    OfConcat(a, b, due);
    OfConcat(a + [t], b, due);
    OfConcat(a, [t], due);
    assert [t][..0] == [] && Of([t], due) == if t.due == due then [t] else [];
    if t.due == due {
      OfNone(b, due);
    }
  }

  // ---------- every timer fires once, when it is due ----------

  function Added(events: seq<Event>): seq<Timer> {
    if events == [] then []
    else Added(events[..|events| - 1]) + if events[|events| - 1].Add? then [events[|events| - 1].t] else []
  }

  /** All timers fired during a run, in order. */
  function Fired(start: int, events: seq<Event>): seq<Timer> {
    if events == [] then [] else Fired(start, events[..|events| - 1]) + Run(start, events).fired
  }

  lemma OfFew(t: Timer, due: int)
    ensures Of([], due) == [] && Of([t], due) == if t.due == due then [t] else []
  {
    assert [t][..0] == [];
  }

  /** One event: the timers of one expiry that fire come off the front of those pending, and a new one
      joins them at the end. */
  lemma StepIsFifo(s: State, e: Event, due: int)
    requires Sorted(s.queue) && InWindow(s, e)
    ensures Of(Step(s, e).fired, due) + Of(Step(s, e).queue, due)
         == Of(s.queue, due) + Of(if e.Add? then [e.t] else [], due)
  {
    hide Ripe, Slot, Of, Sorted, InWindow;
    OfFew(if e.Add? then e.t else Timer(0, 0), due);
    if e.Add? {
      EqualExpiriesAreFifo(s, e.t, due);
    } else {
      var k := Ripe(s.queue, s.now + e.inc);
      OfConcat(s.queue[..k], s.queue[k..], due);
      assert s.queue[..k] + s.queue[k..] == s.queue;
    }
  }

  /** Over any run within the window the timers of one expiry fire in the order they were added, those
      still pending coming next. */
  lemma {:induction false} RunIsFifo(start: int, events: seq<Event>, due: int)
    requires AlwaysInWindow(start, events)
    ensures Of(Fired(start, events), due) + Of(Run(start, events).queue, due) == Of(Added(events), due)
    decreases |events|
  {
    if events != [] {
      hide Step, Of, Sorted, InWindow, AlwaysInWindow;
      var init, e := events[..|events| - 1], events[|events| - 1];
      var s, r := Run(start, init), Run(start, events);
      var joined := if e.Add? then [e.t] else [];
      AlwaysInWindowInit(start, events);
      RunKeepsSorted(start, init);
      RunIsFifo(start, init, due);
      StepIsFifo(s, e, due);
      OfConcat(Added(init), joined, due);
      OfConcat(Fired(start, init), r.fired, due);
      Regroup(Of(Fired(start, init), due), Of(r.fired, due), Of(r.queue, due));
      Regroup(Of(Fired(start, init), due), Of(s.queue, due), Of(joined, due));
    }
  }

  function Times(s: seq<Timer>, t: Timer): nat { multiset(s)[t] }

  lemma TimesConcat(a: seq<Timer>, b: seq<Timer>, t: Timer)
    ensures Times(a + b, t) == Times(a, t) + Times(b, t)
  {
  }

  /** Nothing is lost or fired twice: as often as a timer was added it was fired or is still pending. */
  lemma {:induction false} RunConservesTimers(start: int, events: seq<Event>, t: Timer)
    ensures Times(Added(events), t) == Times(Fired(start, events), t) + Times(Run(start, events).queue, t)
    decreases |events|
  {
    if events != [] {
      hide Step, Times;
      var init, e := events[..|events| - 1], events[|events| - 1];
      var s, r := Run(start, init), Run(start, events);
      RunConservesTimers(start, init, t);
      StepConserves(s, e, t);
      TimesConcat(Added(init), if e.Add? then [e.t] else [], t);
      TimesConcat(Fired(start, init), r.fired, t);
    } else {
      assert Times([], t) == 0;
    }
  }

  lemma StepConserves(s: State, e: Event, t: Timer)
    ensures Times(Step(s, e).queue, t) + Times(Step(s, e).fired, t)
         == Times(s.queue, t) + Times(if e.Add? then [e.t] else [], t)
  {
    hide Slot, Ripe, Times;
    var k := if e.Add? then Slot(s.queue, e.t) else Ripe(s.queue, s.now + e.inc);
    var a, b := s.queue[..k], s.queue[k..];
    assert s.queue == a + b;
    TimesConcat(a, b, t);
    if e.Add? {
      TimesConcat(a + [e.t], b, t);
      TimesConcat(a, [e.t], t);
    }
    TimesNone(t);
  }

  lemma TimesNone(t: Timer)
    ensures Times([], t) == 0
  {
  }

  /** The clock after the first n events. */
  function Clock(start: int, events: seq<Event>, n: nat): int
    requires n <= |events|
  {
    Run(start, events[..n]).now
  }

  function Increments(events: seq<Event>): nat {
    if events == [] then 0
    else (if events[0].Tick? then events[0].inc else 0) + Increments(events[1..])
  }

  /** The clock has advanced by the increments so far. */
  lemma {:induction false} ClockIsSum(start: int, events: seq<Event>)
    ensures Clock(start, events, |events|) == start + Increments(events)
    decreases |events|
  {
    assert events[..|events|] == events;
    if events != [] {
      var init, e := events[..|events| - 1], events[|events| - 1];
      ClockIsSum(start, init);
      assert init[..|init|] == init && events == init + [e];
      IncrementsConcat(init, [e]);
      assert [e][1..] == [];
    }
  }

  lemma {:induction false} IncrementsConcat(a: seq<Event>, b: seq<Event>)
    ensures Increments(a + b) == Increments(a) + Increments(b)
    decreases |a|
  {
    if a == [] {
      assert a + b == b;
    } else {
      assert (a + b)[1..] == a[1..] + b;
      IncrementsConcat(a[1..], b);
    }
  }

  /** From behind event i up to event n no increment reached `due`. */
  predicate Waiting(start: int, events: seq<Event>, i: nat, n: nat, due: int)
    requires n <= |events|
  {
    forall m :: i < m < n && events[m].Tick? ==> Clock(start, events, m + 1) < due
  }

  /** The timer was added among the first n events and no increment since reached it. */
  ghost predicate AddedAndWaiting(start: int, events: seq<Event>, n: nat, t: Timer)
    requires n <= |events|
  {
    exists i :: 0 <= i < n && events[i] == Add(t) && Waiting(start, events, i, n, t.due)
  }

  /** A timer is pending after n events iff it was added and no increment since then reached it. */
  lemma {:induction false} PendingIff(start: int, events: seq<Event>, n: nat, t: Timer)
    requires AlwaysInWindow(start, events) && n <= |events|
    ensures t in Run(start, events[..n]).queue <==> AddedAndWaiting(start, events, n, t)
  {
    if n > 0 {
      PendingIff(start, events, n - 1, t);
      PendingStep(start, events, n, t);
    }
  }

  lemma RunStep(start: int, events: seq<Event>, n: nat)
    requires 0 < n <= |events|
    ensures Run(start, events[..n]) == Step(Run(start, events[..n - 1]), events[n - 1])
  {
    assert events[..n][..n - 1] == events[..n - 1];
  }

  lemma AlwaysInWindowPrefix(start: int, events: seq<Event>, n: nat)
    requires AlwaysInWindow(start, events) && n <= |events|
    ensures AlwaysInWindow(start, events[..n])
  {
    forall m | 0 <= m < n
      ensures InWindow(Run(start, events[..n][..m]), events[..n][m])
    {
      assert events[..n][..m] == events[..m];
    }
  }

  lemma RunSortedAt(start: int, events: seq<Event>, n: nat)
    requires AlwaysInWindow(start, events) && n <= |events|
    ensures Sorted(Run(start, events[..n]).queue)
  {
    AlwaysInWindowPrefix(start, events, n);
    RunKeepsSorted(start, events[..n]);
  }

  /** What an event does to the membership of one timer. */
  lemma StepMembership(s: State, e: Event, t: Timer)
    requires Sorted(s.queue) && InWindow(s, e)
    ensures e.Add? ==> (t in Step(s, e).queue <==> t in s.queue || t == e.t) && t !in Step(s, e).fired
    ensures e.Tick? ==> (t in Step(s, e).queue <==> t in s.queue && s.now + e.inc < t.due)
                        && (t in Step(s, e).fired <==> t in s.queue && t.due <= s.now + e.inc)
  {
    hide Slot, Ripe;
    var k := if e.Add? then Slot(s.queue, e.t) else Ripe(s.queue, s.now + e.inc);
    if e.Tick? {
      RipeInWindow(s.queue, s.now + e.inc);
    }
    SplitMembership(s.queue, k, t);
  }

  lemma SplitMembership(queue: seq<Timer>, k: nat, t: Timer)
    requires k <= |queue|
    ensures t in queue <==> t in queue[..k] || t in queue[k..]
    ensures t in queue[..k] ==> exists i :: 0 <= i < k && queue[i] == t
    ensures t in queue[k..] ==> exists i :: k <= i < |queue| && queue[i] == t
  {
    assert queue == queue[..k] + queue[k..];
    if t in queue[k..] {
      var j :| 0 <= j < |queue| - k && queue[k..][j] == t;
      assert queue[k + j] == t;
    }
  }

  /** One more event: a timer waits if it was just added, or waited and was not reached. */
  lemma WaitingStep(start: int, events: seq<Event>, n: nat, t: Timer)
    requires 0 < n <= |events|
    ensures AddedAndWaiting(start, events, n, t)
       <==> || events[n - 1] == Add(t)
            || (AddedAndWaiting(start, events, n - 1, t) && (events[n - 1].Tick? ==> Clock(start, events, n) < t.due))
  {
    hide Run, Clock;
    forall i | 0 <= i < n - 1
      ensures Waiting(start, events, i, n, t.due)
         <==> Waiting(start, events, i, n - 1, t.due) && (events[n - 1].Tick? ==> Clock(start, events, n) < t.due)
    {
    }
    if events[n - 1] == Add(t) {
      assert Waiting(start, events, n - 1, n, t.due);
    }
  }

  lemma PendingStep(start: int, events: seq<Event>, n: nat, t: Timer)
    requires AlwaysInWindow(start, events) && 0 < n <= |events|
    ensures (t in Run(start, events[..n - 1]).queue <==> AddedAndWaiting(start, events, n - 1, t))
        ==> (t in Run(start, events[..n]).queue <==> AddedAndWaiting(start, events, n, t))
  {
    var s, e := Run(start, events[..n - 1]), events[n - 1];
    assert InWindow(s, e);
    hide AddedAndWaiting, Run, Sorted, AlwaysInWindow, InWindow;
    RunStep(start, events, n);
    RunSortedAt(start, events, n - 1);
    StepMembership(s, e, t);
    WaitingStep(start, events, n, t);
  }

  /** A timer fires at event j iff it was added before j, j is an increment that reaches its expiry,
      and no increment in between did. */
  lemma FiresWhenDueIff(start: int, events: seq<Event>, j: nat, t: Timer)
    requires AlwaysInWindow(start, events) && j < |events|
    ensures t in Run(start, events[..j + 1]).fired
       <==> && events[j].Tick? && t.due <= Clock(start, events, j + 1)
            && AddedAndWaiting(start, events, j, t)
  {
    PendingIff(start, events, j, t);
    RunStep(start, events, j + 1);
    RunSortedAt(start, events, j);
    StepMembership(Run(start, events[..j]), events[j], t);
  }

  /** The timers one increment fires come out in order of expiry, and those of one expiry are the next
      ones in the order they were added. */
  lemma FiredInOrder(start: int, events: seq<Event>, j: nat, due: int)
    requires AlwaysInWindow(start, events) && j < |events|
    ensures Sorted(Run(start, events[..j + 1]).fired)
    ensures Of(Fired(start, events[..j]), due) + Of(Run(start, events[..j + 1]).fired, due)
         <= Of(Added(events[..j + 1]), due)
  {
    RunStep(start, events, j + 1);
    RunSortedAt(start, events, j);
    hide Of, Step, Sorted;
    AlwaysInWindowPrefix(start, events, j + 1);
    FiredAreNext(start, events[..j + 1], due);
    assert events[..j + 1][..j] == events[..j];
  }

  lemma FiredAreNext(start: int, events: seq<Event>, due: int)
    requires events != [] && AlwaysInWindow(start, events)
    ensures Of(Fired(start, events[..|events| - 1]), due) + Of(Run(start, events).fired, due) <= Of(Added(events), due)
  {
    hide Of, AlwaysInWindow, Run;
    RunIsFifo(start, events, due);
    OfConcat(Fired(start, events[..|events| - 1]), Run(start, events).fired, due);
  }
}
