/** The pager of vty.c as a state machine over replies, and what it guarantees (vty.c:383-456). */
module Paging {
  import opened Sequences

  datatype Key = NextPage | NextLine | Abort

  /** The user's reply at the prompt: after `helps` requests for help the deciding character, and
      the window height at the time it was read. */
  datatype Reply = Reply(helps: nat, c: char, height: int) {
    function Key(): Key {
      if c == ' ' || c == 'Y' || c == 'y' then NextPage else if c == '\r' then NextLine else Abort
    }
  }

  /** What reaches the client: text, or the prompt with the reply it got. */
  datatype Event = Text(s: string) | Ask(reply: Reply)

  /** Whether paging is on, the lines shown since the last page, and the window height. */
  datatype Pager = Pager(on: bool, lines: int, height: int)

  /** The outcome of one output: its events, the pager afterwards, the replies taken, and whether
      the connection closed at a prompt. */
  datatype Paged = Paged(events: seq<Event>, after: Pager, used: nat, closed: bool)

  function Newlines(s: string): nat {
    if s == [] then 0 else (if s[0] == '\n' then 1 else 0) + Newlines(s[1..])
  }

  lemma {:induction false} NewlinesConcat(a: string, b: string)
    ensures Newlines(a + b) == Newlines(a) + Newlines(b)
    decreases |a|
  {
    if a == [] {
      assert a + b == b;
    } else {
      assert (a + b)[1..] == a[1..] + b;
      NewlinesConcat(a[1..], b);
    }
  }

  /** How many characters are read until the line count equals height - 1 behind one of them. */
  function Scan(text: string, lines: int, height: int): (r: (bool, nat))
    ensures r.1 <= |text| && (if r.0 then r.1 > 0 else r.1 == |text|)
  {
    if text == [] then (false, 0)
    else
      var now := lines + if text[0] == '\n' then 1 else 0;
      if now == height - 1 then (true, 1)
      else var (hit, n) := Scan(text[1..], now, height); (hit, n + 1)
  }

  function Before(e: Event, used: nat, p: Paged): Paged {
    p.(events := [e] + p.events, used := p.used + used)
  }

  /** automore_output of one buffer. */
  function Page(p: Pager, text: string, replies: seq<Reply>): (r: Paged)
    ensures r.used <= |replies|
    decreases |text|
  {
    var (hit, n) := Scan(text, p.lines, p.height);
    if !hit then
      Paged([Text(text)], p.(lines := p.lines + Newlines(text)), 0, false)
    else if p.height == 1 then
      Before(Text(text[..n]), 0, Page(p.(lines := 0), text[n..], replies))
    else if replies == [] then
      Paged([Text(text[..n])], p.(lines := p.height - 1), 0, true)
    else if replies[0].Key() == Abort then
      Paged([Text(text[..n]), Ask(replies[0])], Pager(false, 0, replies[0].height), 1, false)
    else
      Before(Text(text[..n]), 0,
             Before(Ask(replies[0]), 1, Page(Resumed(replies[0]), text[n..], replies[1..])))
  }

  /** The pager behind a reply that goes on. */
  function Resumed(r: Reply): Pager {
    Pager(true, if r.Key() == NextPage then 0 else r.height - 2, r.height)
  }

  /** vty_out: paged or straight through. */
  function Out(p: Pager, text: string, replies: seq<Reply>): (r: Paged)
    ensures r.used <= |replies|
  {
    if p.on then Page(p, text, replies) else Paged([Text(text)], p, 0, false)
  }

  /** A sequence of outputs on one connection. */
  function OutAll(p: Pager, texts: seq<string>, replies: seq<Reply>): (r: Paged)
    ensures r.used <= |replies|
    decreases |texts|
  {
    if texts == [] then Paged([], p, 0, false)
    else
      var a := Out(p, texts[0], replies);
      if a.closed then a
      else
        var b := OutAll(a.after, texts[1..], replies[a.used..]);
        Paged(a.events + b.events, b.after, a.used + b.used, b.closed)
  }

  // ---------- conservation ----------

  function TextOf(e: Event): string {
    if e.Text? then e.s else ""
  }

  /** The text that reached the client, prompts excluded. */
  function Payload(events: seq<Event>): string {
    if events == [] then ""
    else TextOf(events[0]) + Payload(events[1..])
  }

  lemma {:induction false} PayloadConcat(a: seq<Event>, b: seq<Event>)
    ensures Payload(a + b) == Payload(a) + Payload(b)
    decreases |a|
  {
    if a == [] {
      assert a + b == b;
    } else {
      assert (a + b)[1..] == a[1..] + b;
      PayloadConcat(a[1..], b);
    }
  }

  lemma PayloadBefore(e: Event, used: nat, p: Paged)
    ensures Payload(Before(e, used, p).events) == TextOf(e) + Payload(p.events)
  {
    assert ([e] + p.events)[1..] == p.events;
  }

  lemma PayloadOfSegment(s: string, replies: seq<Reply>)
    ensures Payload([Text(s)]) == s
    ensures replies != [] ==> Payload([Text(s), Ask(replies[0])]) == s
  {
    assert [Text(s)][1..] == [];
    if replies != [] {
      assert [Text(s), Ask(replies[0])][1..] == [Ask(replies[0])];
      assert [Ask(replies[0])][1..] == [];
    }
  }

  /** A segment and a reply in front of an outcome. */
  lemma BeforeTwice(s: string, r: Reply, q: Paged, more: seq<Event>)
    ensures Before(Text(s), 0, Before(Ask(r), 1, q)).events + more == [Text(s), Ask(r)] + (q.events + more)
  {
  }

  lemma PayloadBeforeTwice(s: string, r: Reply, q: Paged)
    ensures Payload(Before(Text(s), 0, Before(Ask(r), 1, q)).events) == s + Payload(q.events)
  {
    PayloadBefore(Ask(r), 1, q);
    PayloadBefore(Text(s), 0, Before(Ask(r), 1, q));
  }

  lemma PrefixConcat(text: string, n: nat, s: string)
    requires n <= |text| && s <= text[n..]
    ensures text[..n] + s <= text
    ensures s == text[n..] ==> text[..n] + s == text
  {
  }

  /** What is sent of a buffer is a prefix of it, and unless the reply was to abort or the
      connection closed, the whole of it. */
  lemma {:induction false} PageConserves(p: Pager, text: string, replies: seq<Reply>)
    requires p.on
    ensures var r := Page(p, text, replies);
            && Payload(r.events) <= text
            && (r.after.on && !r.closed ==> Payload(r.events) == text)
    decreases |text|
  {
    var (hit, n) := Scan(text, p.lines, p.height);
    if hit && p.height == 1 {
      var q := Page(p.(lines := 0), text[n..], replies);
      PageConserves(p.(lines := 0), text[n..], replies);
      PayloadBefore(Text(text[..n]), 0, q);
      PrefixConcat(text, n, Payload(q.events));
    } else if hit && replies != [] && replies[0].Key() != Abort {
      PageConserves(Resumed(replies[0]), text[n..], replies[1..]);
      var q := Page(Resumed(replies[0]), text[n..], replies[1..]);
      PayloadBeforeTwice(text[..n], replies[0], q);
      PrefixConcat(text, n, Payload(q.events));
    } else {
      PayloadOfSegment(if hit then text[..n] else text, replies);
    }
  }

  /** Paging goes off iff the last reply taken was to abort. */
  lemma {:induction false} OffIffAborted(p: Pager, text: string, replies: seq<Reply>)
    requires p.on
    ensures var r := Page(p, text, replies);
            !r.after.on <==> r.used > 0 && replies[r.used - 1].c !in {' ', 'y', 'Y', '\r'}
    decreases |text|
  {
    var (hit, n) := Scan(text, p.lines, p.height);
    if hit && p.height == 1 {
      OffIffAborted(p.(lines := 0), text[n..], replies);
    } else if hit && replies != [] && replies[0].Key() != Abort {
      OffIffAborted(Resumed(replies[0]), text[n..], replies[1..]);
    }
  }

  function Flat(texts: seq<string>): string {
    if texts == [] then "" else texts[0] + Flat(texts[1..])
  }

  /** Never aborted and never closed, a run sends exactly its outputs. */
  lemma {:induction false} RunConserves(p: Pager, texts: seq<string>, replies: seq<Reply>)
    requires OutAll(p, texts, replies).after.on && !OutAll(p, texts, replies).closed
    ensures Payload(OutAll(p, texts, replies).events) == Flat(texts)
    decreases |texts|
  {
    if texts != [] {
      var a := Out(p, texts[0], replies);
      if !a.after.on {
        OffStaysOff(a.after, texts[1..], replies[a.used..]);
      }
      PageConserves(p, texts[0], replies);
      RunConserves(a.after, texts[1..], replies[a.used..]);
      PayloadConcat(a.events, OutAll(a.after, texts[1..], replies[a.used..]).events);
    }
  }

  predicate AllText(events: seq<Event>) {
    forall i :: 0 <= i < |events| ==> events[i].Text?
  }

  /** Once aborted, the rest of the run goes through unpaged and complete. */
  lemma {:induction false} OffStaysOff(p: Pager, texts: seq<string>, replies: seq<Reply>)
    requires !p.on
    ensures var r := OutAll(p, texts, replies);
            && !r.after.on && !r.closed && AllText(r.events) && Payload(r.events) == Flat(texts)
    decreases |texts|
  {
    if texts != [] {
      var a := Out(p, texts[0], replies);
      OffStaysOff(a.after, texts[1..], replies[a.used..]);
      PayloadConcat(a.events, OutAll(a.after, texts[1..], replies[a.used..]).events);
    }
  }

  /** An abort costs the rest of the buffer it happens in, and nothing else. */
  lemma {:induction false} AbortDropsOneTail(p: Pager, texts: seq<string>, replies: seq<Reply>)
    returns (k: nat, sent: string)
    requires p.on && !OutAll(p, texts, replies).after.on && !OutAll(p, texts, replies).closed
    ensures k < |texts| && sent <= texts[k]
    ensures Payload(OutAll(p, texts, replies).events) == Flat(texts[..k]) + (sent + Flat(texts[k + 1..]))
    decreases |texts|
  {
    var a := Out(p, texts[0], replies);
    var b := OutAll(a.after, texts[1..], replies[a.used..]);
    PageConserves(p, texts[0], replies);
    PayloadConcat(a.events, b.events);
    if a.after.on {
      var j;
      j, sent := AbortDropsOneTail(a.after, texts[1..], replies[a.used..]);
      FlatSplit(texts, j);
      Regroup(texts[0], Flat(texts[1..][..j]), sent + Flat(texts[j + 2..]));
      k := j + 1;
    } else {
      k, sent := 0, Payload(a.events);
      OffStaysOff(a.after, texts[1..], replies[a.used..]);
      assert Flat(texts[..0]) == "";
    }
  }

  lemma FlatSplit(texts: seq<string>, j: nat)
    requires j + 1 < |texts|
    ensures Flat(texts[..j + 1]) == texts[0] + Flat(texts[1..][..j])
    ensures texts[1..][j + 1..] == texts[j + 2..]
  {
    assert texts[..j + 1][1..] == texts[1..][..j];
  }

  // ---------- spacing ----------

  /** Lines to show between a reply and the next prompt. */
  function Quota(r: Reply): int {
    if r.Key() == NextPage then r.height - 1 else 1
  }

  /** What each character at the prompt means: SPACE, y and Y a page, RETURN a line, and any other the end. */
  lemma ReplyMeaning(r: Reply)
    ensures r.c in {' ', 'y', 'Y'} ==>
              r.Key() == NextPage && Resumed(r) == Pager(true, 0, r.height) && Quota(r) == r.height - 1
    ensures r.c == '\r' ==> r.Key() == NextLine && Resumed(r) == Pager(true, r.height - 2, r.height) && Quota(r) == 1
    ensures r.c !in {' ', 'y', 'Y', '\r'} ==> r.Key() == Abort
  {
  }

  /** Exactly `budget` newlines reach the client before the next prompt, the last of them just
      before it, and then as many as the character typed allows: as many as a page has behind SPACE, y and
      Y, one behind RETURN; behind any other there is no further prompt. */
  predicate Disciplined(events: seq<Event>, budget: int)
    decreases |events|
  {
    events == [] ||
    match events[0]
    case Text(s) =>
      && Newlines(s) <= budget
      && (Newlines(s) == budget ==> s != "" && s[|s| - 1] == '\n' && (|events| == 1 || events[1].Ask?))
      && Disciplined(events[1..], budget - Newlines(s))
    case Ask(r) =>
      && budget == 0
      && if r.c in {' ', 'y', 'Y'} then Disciplined(events[1..], r.height - 1)
         else if r.c == '\r' then Disciplined(events[1..], 1)
         else AllText(events[1..])
  }

  /** Below the page limit of a window of at least two lines. */
  predicate Ready(p: Pager) {
    p.on && p.height >= 2 && 0 <= p.lines <= p.height - 2
  }

  predicate HeightsAtLeastTwo(replies: seq<Reply>) {
    forall i :: 0 <= i < |replies| ==> replies[i].height >= 2
  }

  function Budget(p: Pager): int { p.height - 1 - p.lines }

  lemma {:induction false} ScanMeaning(text: string, lines: int, height: int)
    requires lines < height - 1
    ensures var (hit, n) := Scan(text, lines, height);
            && (hit ==> Newlines(text[..n]) == height - 1 - lines && text[n - 1] == '\n')
            && (!hit ==> Newlines(text) < height - 1 - lines)
            && (hit <==> Newlines(text) >= height - 1 - lines)
    decreases |text|
  {
    if text != [] {
      var now := lines + if text[0] == '\n' then 1 else 0;
      var (_, n) := Scan(text, lines, height);
      assert text[..n][1..] == text[1..][..n - 1];
      if now < height - 1 {
        ScanMeaning(text[1..], now, height);
      }
    }
  }

  /** Whatever reaches the client after this output suits the state it leaves. */
  predicate Suits(r: Paged, more: seq<Event>) {
    if r.closed then more == []
    else if r.after.on then Disciplined(more, Budget(r.after))
    else AllText(more)
  }

  lemma {:induction false} PageIsDisciplined(p: Pager, text: string, replies: seq<Reply>, more: seq<Event>)
    requires Ready(p) && HeightsAtLeastTwo(replies) && Suits(Page(p, text, replies), more)
    ensures Disciplined(Page(p, text, replies).events + more, Budget(p))
    decreases |text|
  {
    var (hit, n) := Scan(text, p.lines, p.height);
    var r := Page(p, text, replies);
    ScanMeaning(text, p.lines, p.height);
    if !hit {
      NoAsk(p, text, replies, more);
    } else if replies == [] {
      assert r.events + more == [Text(text[..n])];
    } else if replies[0].Key() == Abort {
      AskFollows(text[..n], replies[0], more, Budget(p));
    } else {
      var q := Page(Resumed(replies[0]), text[n..], replies[1..]);
      assert r == Before(Text(text[..n]), 0, Before(Ask(replies[0]), 1, q));
      PageIsDisciplined(Resumed(replies[0]), text[n..], replies[1..], more);
      GoingOn(text[..n], replies[0], q, more, Budget(p));
    }
  }

  lemma {:induction false} PageStaysReady(p: Pager, text: string, replies: seq<Reply>)
    requires Ready(p) && HeightsAtLeastTwo(replies)
    ensures var r := Page(p, text, replies); !r.closed && r.after.on ==> Ready(r.after)
    decreases |text|
  {
    var (hit, n) := Scan(text, p.lines, p.height);
    ScanMeaning(text, p.lines, p.height);
    if hit && replies != [] && replies[0].Key() != Abort {
      PageStaysReady(Resumed(replies[0]), text[n..], replies[1..]);
    }
  }

  lemma GoingOn(s: string, r: Reply, q: Paged, more: seq<Event>, budget: int)
    requires s != "" && s[|s| - 1] == '\n' && Newlines(s) == budget && r.Key() != Abort
    requires Disciplined(q.events + more, Quota(r))
    ensures Disciplined(Before(Text(s), 0, Before(Ask(r), 1, q)).events + more, budget)
  {
    BeforeTwice(s, r, q, more);
    AskFollows(s, r, q.events + more, budget);
  }

  lemma NoAsk(p: Pager, text: string, replies: seq<Reply>, more: seq<Event>)
    requires Ready(p) && !Scan(text, p.lines, p.height).0
    requires Disciplined(more, Budget(p) - Newlines(text))
    ensures Page(p, text, replies) == Paged([Text(text)], p.(lines := p.lines + Newlines(text)), 0, false)
    ensures Disciplined([Text(text)] + more, Budget(p))
  {
    ScanMeaning(text, p.lines, p.height);
    assert ([Text(text)] + more)[1..] == more;
  }

  lemma AskFollows(s: string, r: Reply, tail: seq<Event>, budget: int)
    requires s != "" && s[|s| - 1] == '\n' && Newlines(s) == budget
    requires if r.Key() == Abort then AllText(tail) else Disciplined(tail, Quota(r))
    ensures Disciplined([Text(s), Ask(r)] + tail, budget)
  {
    var all := [Text(s), Ask(r)] + tail;
    assert all[1..] == [Ask(r)] + tail;
    assert all[1..][1..] == tail;
    assert Disciplined(all[1..], 0);
  }

  /** Paging over any run, whatever the outputs and replies, also across calls: exactly height - 1
      newlines between a page reply and the next prompt, exactly one after RETURN. */
  lemma {:induction false} RunIsDisciplined(p: Pager, texts: seq<string>, replies: seq<Reply>)
    requires Ready(p) && HeightsAtLeastTwo(replies)
    ensures Disciplined(OutAll(p, texts, replies).events, Budget(p))
    decreases |texts|
  {
    if texts != [] {
      var a := Out(p, texts[0], replies);
      PageStaysReady(p, texts[0], replies);
      if a.closed {
        PageIsDisciplined(p, texts[0], replies, []);
        assert a.events + [] == a.events;
      } else {
        var rest := replies[a.used..];
        if a.after.on {
          RunIsDisciplined(a.after, texts[1..], rest);
        } else {
          OffStaysOff(a.after, texts[1..], rest);
        }
        PageIsDisciplined(p, texts[0], replies, OutAll(a.after, texts[1..], rest).events);
      }
    }
  }

  // ---------- when the prompt is missed ----------

  /** The exact condition for a prompt within one buffer, whatever the count and the height. */
  lemma {:induction false} AsksIff(p: Pager, text: string, replies: seq<Reply>)
    requires p.on && replies != []
    ensures !AllText(Page(p, text, replies).events)
       <==> (p.height != 1
             && (p.lines < p.height - 1 <= p.lines + Newlines(text)
                 || (p.lines == p.height - 1 && NonNewlineFirst(text))))
    decreases |text|
  {
    var (hit, n) := Scan(text, p.lines, p.height);
    if p.lines < p.height - 1 {
      ScanMeaning(text, p.lines, p.height);
    } else {
      ScanBeyond(text, p.lines, p.height);
    }
    if hit && p.height == 1 {
      AsksIff(p.(lines := 0), text[n..], replies);
    } else if hit {
      assert Page(p, text, replies).events[1] == Ask(replies[0]);
    }
  }

  lemma {:induction false} ScanBeyond(text: string, lines: int, height: int)
    requires lines >= height - 1
    ensures Scan(text, lines, height).0 <==> lines == height - 1 && NonNewlineFirst(text)
    decreases |text|
  {
    if text != [] && lines + (if text[0] == '\n' then 1 else 0) > height - 1 {
      ScanBeyond(text[1..], lines + if text[0] == '\n' then 1 else 0, height);
    }
  }

  predicate NonNewlineFirst(text: string) {
    text != "" && text[0] != '\n'
  }

  /** What a connection does with its pager. Window sizes arrive with the input, which is read at the
      prompt or while paging is off. */
  datatype Use = SwitchOn | SwitchOff | Resize(height: int) | Output(text: string)

  function UseOne(p: Pager, u: Use, replies: seq<Reply>): (r: Paged)
    ensures r.used <= |replies|
  {
    match u
    case SwitchOn => Paged([], p.(on := true), 0, false)
    case SwitchOff => Paged([], Pager(false, 0, p.height), 0, false)
    case Resize(height) => Paged([], if p.on then p else p.(height := height), 0, false)
    case Output(text) => Out(p, text, replies)
  }

  function UseAll(p: Pager, uses: seq<Use>, replies: seq<Reply>): (r: Paged)
    ensures r.used <= |replies|
    decreases |uses|
  {
    if uses == [] then Paged([], p, 0, false)
    else
      var a := UseOne(p, uses[0], replies);
      if a.closed then a
      else
        var b := UseAll(a.after, uses[1..], replies[a.used..]);
        Paged(a.events + b.events, b.after, a.used + b.used, b.closed)
  }

  /** Off, no lines are counted; on, the page limit lies ahead, unless the window has no two lines. */
  predicate LimitAhead(p: Pager) {
    if p.on then p.lines <= p.height - 2 || p.height <= 1 else p.lines == 0
  }

  lemma {:induction false} PageKeepsLimitAhead(p: Pager, text: string, replies: seq<Reply>)
    requires p.on && LimitAhead(p)
    ensures var r := Page(p, text, replies); !r.closed ==> LimitAhead(r.after)
    decreases |text|
  {
    var (hit, n) := Scan(text, p.lines, p.height);
    if p.height >= 2 {
      ScanMeaning(text, p.lines, p.height);
    }
    if hit && p.height == 1 {
      PageKeepsLimitAhead(p.(lines := 0), text[n..], replies);
    } else if hit && replies != [] && replies[0].Key() != Abort {
      PageKeepsLimitAhead(Resumed(replies[0]), text[n..], replies[1..]);
    }
  }

  /** Whatever a connection does, whatever is answered and however the window is resized, the limit
      stays ahead: the count is never at or beyond the limit of a window of two lines or more. */
  lemma {:induction false} UsesKeepLimitAhead(p: Pager, uses: seq<Use>, replies: seq<Reply>)
    requires LimitAhead(p)
    ensures var r := UseAll(p, uses, replies); !r.closed ==> LimitAhead(r.after)
    decreases |uses|
  {
    if uses != [] {
      if p.on && uses[0].Output? {
        PageKeepsLimitAhead(p, uses[0].text, replies);
      }
      var a := UseOne(p, uses[0], replies);
      if !a.closed {
        UsesKeepLimitAhead(a.after, uses[1..], replies[a.used..]);
      }
    }
  }

  /** So in such a window an output asks iff it completes the page. */
  lemma AsksIffPageIsFull(p: Pager, text: string, replies: seq<Reply>)
    requires p.on && LimitAhead(p) && p.height >= 2 && replies != []
    ensures !AllText(Page(p, text, replies).events) <==> p.lines + Newlines(text) >= p.height - 1
  {
    AsksIff(p, text, replies);
  }

  /** The count lies where a window of at most one line never meets its limit. */
  predicate PastSmallLimit(p: Pager) {
    p.height == 1 || (p.height <= 0 && p.lines >= p.height)
  }

  /** There paging never asks again: the whole run goes through. */
  lemma {:induction false} SmallWindowNeverAsks(p: Pager, texts: seq<string>, replies: seq<Reply>)
    requires p.on && PastSmallLimit(p)
    ensures var r := OutAll(p, texts, replies);
            AllText(r.events) && !r.closed && r.used == 0 && Payload(r.events) == Flat(texts)
    decreases |texts|
  {
    if texts != [] {
      var a := Out(p, texts[0], replies);
      SmallWindowPage(p, texts[0], replies);
      PageConserves(p, texts[0], replies);
      SmallWindowNeverAsks(a.after, texts[1..], replies);
      PayloadConcat(a.events, OutAll(a.after, texts[1..], replies).events);
    }
  }

  lemma {:induction false} SmallWindowPage(p: Pager, text: string, replies: seq<Reply>)
    requires p.on && PastSmallLimit(p)
    ensures var r := Page(p, text, replies);
            AllText(r.events) && !r.closed && r.used == 0 && r.after.on && PastSmallLimit(r.after)
    decreases |text|
  {
    if p.height <= 0 {
      ScanBeyond(text, p.lines, p.height);
    }
    var (hit, n) := Scan(text, p.lines, p.height);
    if hit {
      SmallWindowPage(p.(lines := 0), text[n..], replies);
    }
  }

  lemma {:induction false} NewlinesOnly(n: nat)
    ensures Newlines(seq(n, _ => '\n')) == n
  {
    if n > 0 {
      assert seq(n, _ => '\n')[1..] == seq(n - 1, _ => '\n');
      NewlinesOnly(n - 1);
    }
  }

  /** A text that makes the pager ask, where it can be made to. */
  lemma SmallWindowAsks(p: Pager, reply: Reply) returns (text: string)
    requires p.on && p.height <= 1 && !PastSmallLimit(p)
    ensures !AllText(OutAll(p, [text], [reply]).events)
  {
    var n := p.height - 1 - p.lines;
    text := if n == 0 then "a" else seq(n, _ => '\n');
    NewlinesOnly(n);
    AsksIff(p, text, [reply]);
    var a := Page(p, text, [reply]);
    var k :| 0 <= k < |a.events| && !a.events[k].Text?;
    assert OutAll(p, [text], [reply]).events[k] == a.events[k];
  }

  /** Exactly when no outputs and no replies ever make a window of at most one line ask: with one line
      always, with none unless the count is still below it. */
  lemma SmallWindowNeverAsksIff(p: Pager)
    requires p.on && p.height <= 1
    ensures (forall texts: seq<string>, replies: seq<Reply> :: AllText(OutAll(p, texts, replies).events))
       <==> p.height == 1 || p.lines >= p.height
  {
    if PastSmallLimit(p) {
      forall texts: seq<string>, replies: seq<Reply>
        ensures AllText(OutAll(p, texts, replies).events)
      {
        SmallWindowNeverAsks(p, texts, replies);
      }
    } else {
      var reply := Reply(0, 'q', 0);
      var text := SmallWindowAsks(p, reply);
    }
  }

  /** RETURN leaves it below: in a window of no lines, too, the user is asked again one line later. */
  lemma ReturnAsksAgain(r: Reply, text: string, replies: seq<Reply>)
    requires r.Key() == NextLine && r.height <= 0 && replies != []
    ensures !AllText(Page(Resumed(r), text, replies).events) <==> Newlines(text) >= 1
  {
    AsksIff(Resumed(r), text, replies);
  }
}
