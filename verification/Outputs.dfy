/** vty_out, automore_output and ask_automore on their buffer, proved to follow the pager machine
    of module Paging with the replies read from the connection (vty.c:383-483). */
module Outputs {
  import opened Sequences
  import opened Limits
  import opened Terminal
  import opened Displays
  import opened Readers
  import opened Paging

  const MORE := " --More-- "
  const ERASE := Repeat(BS, 9) + Repeat(' ', 8) + Repeat(BS, 9)
  const HELP := "Press RETURN for another line, SPACE for another page, anything else to quit\r\n"

  /** What ask_automore sends for a reply. */
  function PromptBytes(helps: nat): string
    decreases helps
  {
    if helps == 0 then MORE + ERASE else PromptBytes(helps - 1) + HELP + (MORE + ERASE)
  }

  function Transcript(events: seq<Event>): string {
    if events == [] then ""
    else
      Transcript(events[..|events| - 1]) +
      match events[|events| - 1]
      case Text(s) => s
      case Ask(r) => PromptBytes(r.helps)
  }

  /** Nine columns back, eight blanks, nine columns back. */
  lemma EraseEffect(s: Screen)
    requires s.col >= 10
    ensures Replay(s, ERASE).col == s.col - 10
    ensures forall i: nat :: Cell(Replay(s, ERASE), i) == if s.col - 9 <= i < s.col - 1 then ' ' else Cell(s, i)
  {
    var s1 := Replay(s, Repeat(BS, 9));
    ReplayBackspaces(s, 9);
    var s2 := Replay(s1, Repeat(' ', 8));
    ReplayPrintable(s1, Repeat(' ', 8));
    ReplayBackspaces(s2, 9);
    ReplayConcat(s, Repeat(BS, 9), Repeat(' ', 8));
    ReplayConcat(s, Repeat(BS, 9) + Repeat(' ', 8), Repeat(BS, 9));
    forall i: nat
      ensures Cell(Replay(s, ERASE), i) == if s.col - 9 <= i < s.col - 1 then ' ' else Cell(s, i)
    {
      assert Cell(s2, i) == if s1.col <= i < s1.col + 8 then ' ' else Cell(s1, i);
    }
  }

  lemma MoreEffect(s: Screen)
    ensures Replay(s, MORE).col == s.col + 10
    ensures forall i: nat :: !(s.col + 1 <= i < s.col + 9)
              ==> Cell(Replay(s, MORE), i) == if i == s.col || i == s.col + 9 then ' ' else Cell(s, i)
  {
    ReplayPrintable(s, MORE);
    assert MORE[0] == ' ' && MORE[9] == ' ';
  }

  /** The prompt is taken off the row again: where the row was blank behind the cursor, every trace
      of it is gone and the cursor is back. */
  lemma EraseTakesThePromptOff(s: Screen)
    requires Shows(s, s.col, "", 0)
    ensures Shows(Replay(s, MORE + ERASE), s.col, "", 0)
    ensures SamePrompt(s, Replay(s, MORE + ERASE), s.col)
  {
    ReplayConcat(s, MORE, ERASE);
    MoreEffect(s);
    EraseEffect(Replay(s, MORE));
    forall i: nat | s.col <= i
      ensures Cell(Replay(s, MORE + ERASE), i) == LineCell("", i - s.col)
    {
      assert Cell(s, i) == LineCell("", i - s.col);
    }
  }

  // ---------- following the machine reply by reply ----------

  /** With the replies so far, the output of `text` has sent `events` and goes on from state `q`
      with the text from `at`, whatever replies follow. */
  ghost predicate Tracks(p: Pager, text: string, events: seq<Event>, replies: seq<Reply>, q: Pager, at: nat) {
    && at <= |text|
    && forall more: seq<Reply> ::
         Page(p, text, replies + more) == Extend(events, |replies|, Page(q, text[at..], more))
  }

  function Extend(events: seq<Event>, used: nat, p: Paged): Paged {
    p.(events := events + p.events, used := used + p.used)
  }

  lemma TracksStart(p: Pager, text: string)
    ensures Tracks(p, text, [], [], p, 0)
  {
    forall more: seq<Reply>
      ensures Page(p, text, [] + more) == Extend([], 0, Page(p, text[0..], more))
    {
      assert [] + more == more && text[0..] == text;
      assert [] + Page(p, text, more).events == Page(p, text, more).events;
    }
  }

  lemma TracksReply(p: Pager, text: string, events: seq<Event>, replies: seq<Reply>, q: Pager, at: nat,
                    n: nat, r: Reply)
    requires Tracks(p, text, events, replies, q, at)
    requires Scan(text[at..], q.lines, q.height) == (true, n) && q.height != 1 && r.Key() != Abort
    ensures Tracks(p, text, events + [Text(text[at..at + n]), Ask(r)], replies + [r], Resumed(r), at + n)
  {
    forall more: seq<Reply>
      ensures Page(p, text, (replies + [r]) + more)
        == Extend(events + [Text(text[at..at + n]), Ask(r)], |replies + [r]|, Page(Resumed(r), text[at + n..], more))
    {
      assert (replies + [r]) + more == replies + ([r] + more);
      ReplyStep(q, text, at, n, r, more);
      ExtendTwice(events, |replies|, text[at..at + n], r, Page(Resumed(r), text[at + n..], more));
    }
  }

  lemma ReplyStep(q: Pager, text: string, at: nat, n: nat, r: Reply, more: seq<Reply>)
    requires at <= |text| && Scan(text[at..], q.lines, q.height) == (true, n) && q.height != 1 && r.Key() != Abort
    ensures Page(q, text[at..], [r] + more)
         == Before(Text(text[at..at + n]), 0, Before(Ask(r), 1, Page(Resumed(r), text[at + n..], more)))
  {
    assert ([r] + more)[1..] == more;
    assert text[at..][n..] == text[at + n..] && text[at..][..n] == text[at..at + n];
  }

  lemma ExtendTwice(events: seq<Event>, used: nat, s: string, r: Reply, z: Paged)
    ensures Extend(events, used, Before(Text(s), 0, Before(Ask(r), 1, z)))
         == Extend(events + [Text(s), Ask(r)], used + 1, z)
  {
    BeforeTwice(s, r, z, []);
    assert events + ([Text(s)] + ([Ask(r)] + z.events)) == events + [Text(s), Ask(r)] + z.events;
  }

  lemma TracksAbort(p: Pager, text: string, events: seq<Event>, replies: seq<Reply>, q: Pager, at: nat,
                    n: nat, r: Reply)
    requires Tracks(p, text, events, replies, q, at)
    requires Scan(text[at..], q.lines, q.height) == (true, n) && q.height != 1 && r.Key() == Abort
    ensures Page(p, text, replies + [r])
         == Paged(events + [Text(text[at..at + n]), Ask(r)], Pager(false, 0, r.height), |replies| + 1, false)
  {
    assert text[at..][..n] == text[at..at + n];
  }

  lemma TracksSilent(p: Pager, text: string, events: seq<Event>, replies: seq<Reply>, q: Pager, at: nat, n: nat)
    requires Tracks(p, text, events, replies, q, at)
    requires Scan(text[at..], q.lines, q.height) == (true, n) && q.height == 1
    ensures Tracks(p, text, events + [Text(text[at..at + n])], replies, q.(lines := 0), at + n)
  {
    var events' := events + [Text(text[at..at + n])];
    forall more: seq<Reply>
      ensures Page(p, text, replies + more)
           == Extend(events', |replies|, Page(q.(lines := 0), text[at + n..], more))
    {
      assert text[at..][n..] == text[at + n..] && text[at..][..n] == text[at..at + n];
      var z := Page(q.(lines := 0), text[at + n..], more);
      assert events + ([Text(text[at..at + n])] + z.events) == events' + z.events;
    }
  }

  lemma TracksEnd(p: Pager, text: string, events: seq<Event>, replies: seq<Reply>, q: Pager, at: nat)
    requires Tracks(p, text, events, replies, q, at)
    requires !Scan(text[at..], q.lines, q.height).0
    ensures Page(p, text, replies)
         == Paged(events + [Text(text[at..])], q.(lines := q.lines + Newlines(text[at..])), |replies|, false)
  {
    assert replies + [] == replies;
  }

  lemma TracksClosed(p: Pager, text: string, events: seq<Event>, replies: seq<Reply>, q: Pager, at: nat, n: nat)
    requires Tracks(p, text, events, replies, q, at)
    requires Scan(text[at..], q.lines, q.height) == (true, n) && q.height != 1
    ensures Page(p, text, replies)
         == Paged(events + [Text(text[at..at + n])], q.(lines := q.height - 1), |replies|, true)
  {
    assert replies + [] == replies;
    assert text[at..][..n] == text[at..at + n];
  }

  // ---------- the device ----------

  class Output {
    const reader: Reader
    const wBuff: array<char>
    var paged: bool
    var lines: int
    /** Everything sent to the client so far. */
    var wire: string
    /** The objects that make up the device; none is ever replaced. */
    ghost const Repr: set<object>

    ghost predicate Valid()
      reads this, Repr
    {
      && Repr == {this, wBuff} + reader.Repr && reader in reader.Repr
      && this !in reader.Repr && wBuff !in reader.Repr && wBuff.Length == MAX_WBUFFER
      && {reader.sBuff, reader.sbBuff} <= Repr
      && reader.Valid()
    }

    ghost function State(): Pager
      requires Valid()
      reads this, Repr
    {
      Pager(paged, lines, reader.height)
    }

    constructor (reader: Reader)
      requires reader.Valid() && reader in reader.Repr
      ensures Valid() && fresh(Repr - reader.Repr) && this.reader == reader
      ensures State() == Pager(false, 0, reader.height) && wire == ""
    {
      var w := new char[MAX_WBUFFER];
      this.reader, wBuff, paged, lines, wire := reader, w, false, 0, "";
      Repr := {this, w} + reader.Repr;
    }

    method AutomoreOn()
      requires Valid()
      modifies this`paged
      ensures Valid() && State() == old(State()).(on := true)
    {
      paged := true;
    }

    method AutomoreOff()
      requires Valid()
      modifies this`paged, this`lines
      ensures Valid() && State() == Pager(false, 0, old(State()).height)
    {
      paged, lines := false, 0;
    }

    method SendAll(from: nat, to: nat)
      requires Valid() && from <= to <= wBuff.Length
      modifies this`wire
      ensures Valid() && wire == old(wire) + wBuff[from..to]
    {
      wire := wire + wBuff[from..to];
    }

    /** The prompt, one key, and the prompt off again. */
    method PromptForKey(lead: string) returns (open: bool, c: char)
      requires Valid()
      modifies this`wire, reader.Repr
      ensures Valid()
      ensures open ==> wire == old(wire) + lead + (MORE + ERASE)
      ensures open ==> AsText(old(reader.Pending())) == [c] + AsText(reader.Pending())
      ensures open ==> |reader.Incoming()| < |old(reader.Incoming())|
      ensures !open ==> wire == old(wire) + lead + MORE && reader.Pending() == []
    {
      wire := wire + lead + MORE;
      open, c := ReadKey(reader);
      if open {
        wire := wire + ERASE;
      }
    }

    /** The prompt of ask_automore until a key other than the request for help. */
    method ReadReply() returns (open: bool, c: char, ghost helps: nat)
      requires Valid()
      modifies this`wire, reader.Repr
      ensures Valid() && old(wire) <= wire
      ensures open ==> c != '?' && wire == old(wire) + PromptBytes(helps)
      ensures open ==> AsText(old(reader.Pending())) == Repeat('?', helps) + ([c] + AsText(reader.Pending()))
      ensures !open ==> reader.Pending() == []
    {
      hide PromptBytes;
      ghost var pending, sent := AsText(reader.Pending()), wire;
      helps := 0;
      open, c := PromptForKey("");
      PromptBytesOnce(sent);
      while open && c == '?'
        invariant Valid() && sent <= wire
        invariant open ==> wire == sent + PromptBytes(helps)
        invariant open ==> pending == Repeat('?', helps) + ([c] + AsText(reader.Pending()))
        invariant !open ==> reader.Pending() == []
        decreases open, |reader.Incoming()|
      {
        open, c := PromptForKey(HELP);
        HelpBytes(sent, helps);
        if open {
          HelpKeys(helps, [c] + AsText(reader.Pending()));
        }
        helps := helps + 1;
      }
    }

    /** ask_automore: how the output goes on. Nothing is asked while no line was shown. */
    method AskAutomore() returns (open: bool, key: Key, ghost r: Reply)
      requires Valid() && paged
      modifies this`wire, this`lines, this`paged, reader.Repr
      ensures Valid() && old(wire) <= wire
      ensures old(lines) == 0 ==> open && key == NextPage && State() == old(State()) && wire == old(wire)
                                  && reader.Pending() == old(reader.Pending())
      ensures old(lines) != 0 && open ==> key == r.Key() && r.c != '?' && wire == old(wire) + PromptBytes(r.helps)
      ensures old(lines) != 0 && open ==> State() == if key == Abort then Pager(false, 0, r.height) else Resumed(r)
      ensures old(lines) != 0 && open ==> AsText(old(reader.Pending())) == Typed(r) + AsText(reader.Pending())
      ensures !open ==> reader.Pending() == []
    {
      r := Reply(0, ' ', 0);
      if lines == 0 {
        return true, NextPage, r;
      }
      ghost var pending := AsText(reader.Pending());
      ghost var helps;
      var c;
      open, c, helps := ReadReply();
      r := Reply(helps, c, reader.height);
      if !open {
        return false, Abort, r;
      }
      assert pending == Typed(r) + AsText(reader.Pending());
      if c == ' ' || c == 'Y' || c == 'y' {
        lines := 0;
        key := NextPage;
      } else if c == '\r' {
        lines := reader.height - 2;
        key := NextLine;
      } else {
        AutomoreOff();
        key := Abort;
      }
    }

    /** The loop of automore_output: everything up to `at` is sent, `aux` is read, and the machine
        stands in state `q` at `at`. */
    ghost predicate Progress(p: Pager, text: string, t: Track, aux: nat, sent: string, pending: string)
      reads this, Repr
    {
      && Valid() && paged && HoldsString(wBuff[..], text)
      && Tracks(p, text, t.events, t.replies, t.q, t.at) && t.q.on
      && t.at <= aux <= |text|
      && State() == t.q.(lines := t.q.lines + Newlines(text[t.at..aux]))
      && Scan(text[t.at..], t.q.lines, t.q.height) == Ahead(Scan(text[aux..], lines, reader.height), aux - t.at)
      && wire == sent + Transcript(t.events)
      && pending == TypedAll(t.replies) + AsText(reader.Pending())
    }

    /** One character read: either the scan goes on, or it hits the page limit here. */
    method ReadOn(ghost p: Pager, ghost text: string, ghost t: Track, aux: nat, ghost sent: string, ghost pending: string)
      returns (hit: bool)
      requires Progress(p, text, t, aux, sent, pending) && aux < |text|
      modifies this`lines
      ensures !hit ==> Progress(p, text, t, aux + 1, sent, pending)
      ensures hit ==> AtLimit(p, text, t, aux + 1, pending)
      ensures wire == old(wire)
    {
      hide Page, Scan, Tracks, Transcript, TypedAll, Newlines;
      CharAt(wBuff[..], text, aux);
      ScanStep(text, t.at, aux, lines, reader.height);
      if wBuff[aux] == '\n' {
        lines := lines + 1;
      }
      return lines == reader.height - 1;
    }

    /** The output is over: the machine gives exactly these events for these replies. */
    ghost predicate Finished(p: Pager, text: string, t: Track, open: bool, sent: string, pending: string)
      reads this, Repr
    {
      && Valid()
      && Page(p, text, t.replies).events == t.events && Page(p, text, t.replies).used == |t.replies|
      && Page(p, text, t.replies).closed == !open
      && (open ==> Page(p, text, t.replies).after == State() && wire == sent + Transcript(t.events)
                   && pending == TypedAll(t.replies) + AsText(reader.Pending()))
      && (!open ==> sent + Transcript(t.events) <= wire && reader.Pending() == [])
    }

    /** The machine stands at a page limit: the segment up to `aux` is read. */
    ghost predicate AtLimit(p: Pager, text: string, t: Track, aux: nat, pending: string)
      reads this, Repr
    {
      && Valid() && paged && HoldsString(wBuff[..], text)
      && Tracks(p, text, t.events, t.replies, t.q, t.at) && t.q.on && t.at < aux <= |text|
      && lines == reader.height - 1 && State() == t.q.(lines := lines)
      && Scan(text[t.at..], t.q.lines, t.q.height) == (true, aux - t.at)
      && pending == TypedAll(t.replies) + AsText(reader.Pending())
    }

    method SendSegment(ghost p: Pager, ghost text: string, ghost t: Track, aux: nat, at: nat,
                       ghost sent: string, ghost pending: string)
      requires AtLimit(p, text, t, aux, pending) && t.at == at && wire == sent + Transcript(t.events)
      modifies this`wire
      ensures AtLimit(p, text, t, aux, pending) && wire == sent + Transcript(t.events + [Text(text[at..aux])])
    {
      hide Page, Scan, Tracks, Transcript, TypedAll, PromptBytes;
      SliceAt(wBuff[..], text, at, aux);
      assert wBuff[at..aux] == wBuff[..][at..aux];
      SendAll(at, aux);
      TranscriptAppend(t.events, Text(text[at..aux]));
    }

    /** Ask how to go on, and follow the machine over the reply. */
    method AskAndTrack(ghost p: Pager, ghost text: string, ghost t: Track, aux: nat,
                       ghost sent: string, ghost pending: string)
      returns (go: bool, open: bool, ghost t': Track)
      requires AtLimit(p, text, t, aux, pending)
      requires wire == sent + Transcript(t.events + [Text(text[t.at..aux])])
      modifies this`wire, this`lines, this`paged, reader.Repr
      ensures go ==> open && Progress(p, text, t', aux, sent, pending) && t'.at == aux
      ensures !go ==> Finished(p, text, t', open, sent, pending)
    {
      hide Page, Scan, Tracks, Transcript, TypedAll, PromptBytes;
      ghost var seg, n := Text(text[t.at..aux]), aux - t.at;
      ghost var events := t.events + [seg];
      var asked := lines != 0;
      var key;
      ghost var r;
      open, key, r := AskAutomore();
      assert text[aux..aux] == "";
      if !open {
        TracksClosed(p, text, t.events, t.replies, t.q, t.at, n);
        return false, false, Track(events, t.replies, t.q, aux);
      }
      if !asked {
        TracksSilent(p, text, t.events, t.replies, t.q, t.at, n);
        return true, true, Track(events, t.replies, t.q.(lines := 0), aux);
      }
      TranscriptAppend(events, Ask(r));
      assert events + [Ask(r)] == t.events + [seg, Ask(r)];
      TypedAppend(t.replies, r, AsText(reader.Pending()));
      t' := Track(events + [Ask(r)], t.replies + [r], Resumed(r), aux);
      go := key != Abort;
      if go {
        TracksReply(p, text, t.events, t.replies, t.q, t.at, n, r);
      } else {
        TracksAbort(p, text, t.events, t.replies, t.q, t.at, n, r);
      }
    }

    /** automore_output: the string in w_buff goes to the client under the user's control. The ghost
        track gives the replies it took; the machine accounts for every byte sent and key read. */
    method AutomoreOutput(ghost text: string) returns (open: bool, ghost t: Track)
      requires Valid() && paged && HoldsString(wBuff[..], text)
      modifies this`wire, this`lines, this`paged, reader.Repr
      ensures Valid() && Finished(old(State()), text, t, open, old(wire), old(AsText(reader.Pending())))
    {
      hide Page, Scan, Tracks, PromptBytes;
      ghost var p, sent, pending := State(), wire, AsText(reader.Pending());
      var ptr, aux, go := 0, 0, true;
      t := Track([], [], p, 0);
      open := true;
      TracksStart(p, text);
      assert text[0..0] == "" && Transcript([]) == "" && sent + "" == sent;
      assert TypedAll([]) + pending == pending;
      CharAt(wBuff[..], text, 0);
      while go && wBuff[aux] != '\0'
        invariant aux <= |text| && (wBuff[aux] == '\0' <==> aux == |text|)
        invariant go ==> open && Progress(p, text, t, aux, sent, pending) && ptr == t.at
        invariant !go ==> Finished(p, text, t, open, sent, pending)
        decreases go, |text| - aux
      {
        var hit := ReadOn(p, text, t, aux, sent, pending);
        aux := aux + 1;
        CharAt(wBuff[..], text, aux);
        if hit {
          SendSegment(p, text, t, aux, ptr, sent, pending);
          go, open, t := AskAndTrack(p, text, t, aux, sent, pending);
          ptr := aux;
        }
      }
      if go {
        SendRest(p, text, t, ptr, aux, sent, pending);
        t := Track(t.events + [Text(text[ptr..])], t.replies, t.q, |text|);
      }
    }

    method SendRest(ghost p: Pager, ghost text: string, ghost t: Track, at: nat, end: nat,
                    ghost sent: string, ghost pending: string)
      requires Progress(p, text, t, end, sent, pending) && at == t.at && end == |text|
      modifies this`wire
      ensures Finished(p, text, Track(t.events + [Text(text[at..])], t.replies, t.q, end), true, sent, pending)
    {
      hide Page, Scan, Tracks, Transcript, TypedAll, PromptBytes;
      assert wBuff[at..end] == text[at..] by {
        assert wBuff[..][..|text|] == text;
      }
      SendAll(at, end);
      TranscriptAppend(t.events, Text(text[at..]));
      assert text[at..end] == text[at..];
      TracksEnd(p, text, t.events, t.replies, t.q, at);
    }

    /** vty_out of a formatted text: paged from w_buff, cut to its size, or sent as it is. A text of exactly the
        buffer's size is sent with the terminator in place of its last character; of longer ones the source
        sends bytes from behind the buffer. */
    method VtyOut(text: string) returns (open: bool, ghost t: Track)
      requires Valid() && '\0' !in text && (|text| <= MAX_WBUFFER || paged)
      modifies this`wire, this`lines, this`paged, wBuff, reader.Repr
      ensures Valid()
      ensures old(paged) ==> Finished(old(State()), Cut(text), t, open, old(wire), old(AsText(reader.Pending())))
      ensures !old(paged) ==> open && State() == old(State()) && wire == old(wire) + if |text| < MAX_WBUFFER then text else Cut(text) + "\0"
    {
      hide Page, Scan, Transcript, TypedAll, Finished;
      t := Track([], [], Pager(false, 0, 0), 0);
      ghost var cut := Cut(text);
      var n := Format(text);
      if paged {
        open, t := AutomoreOutput(cut);
      } else {
        open := true;
        SendAll(0, n);
        ContentsUpTo(wBuff[..], cut, n);
        assert wBuff[0..n] == wBuff[..][..n];
      }
    }

    /** vsnprintf into w_buff: the buffer gets what fits, and the answer is the length of the text. */
    method Format(text: string) returns (n: nat)
      requires Valid() && '\0' !in text
      modifies wBuff
      ensures Valid() && n == |text| && HoldsString(wBuff[..], Cut(text))
      ensures State() == old(State()) && reader.Pending() == old(reader.Pending())
    {
      n := |text|;
      var end := if n < MAX_WBUFFER then n else MAX_WBUFFER - 1;
      forall i | 0 <= i < end {
        wBuff[i] := text[i];
      }
      wBuff[end] := '\0';
      assert wBuff[..][..end] == Cut(text);
    }
  }

  lemma TranscriptAppend(events: seq<Event>, e: Event)
    ensures Transcript(events + [e]) == Transcript(events) + match e case Text(s) => s case Ask(r) => PromptBytes(r.helps)
  {
    assert (events + [e])[..|events|] == events;
  }

  lemma TypedAppend(replies: seq<Reply>, r: Reply, rest: string)
    ensures TypedAll(replies + [r]) + rest == TypedAll(replies) + (Typed(r) + rest)
  {
    assert (replies + [r])[..|replies|] == replies;
  }

  lemma ContentsUpTo(b: seq<char>, s: string, n: nat)
    requires HoldsString(b, s) && |s| <= n <= |s| + 1
    ensures n <= |b| && b[..n] == if n == |s| then s else s + "\0"
  {
    assert n > |s| ==> b[..n] == b[..|s|] + [b[|s|]];
  }

  /** What vsnprintf leaves of a text in w_buff. */
  function Cut(text: string): string {
    if |text| < MAX_WBUFFER then text else text[..MAX_WBUFFER - 1]
  }

  /** Where a loop of automore_output stands: the events and replies so far, the machine's state
      and the first character not yet sent. */
  datatype Track = Track(events: seq<Event>, replies: seq<Reply>, q: Pager, at: nat)

  function Ahead(scan: (bool, nat), k: nat): (bool, nat) { (scan.0, scan.1 + k) }

  lemma ScanStep(text: string, at: nat, aux: nat, lines: int, height: int)
    requires at <= aux < |text|
    ensures var now := lines + if text[aux] == '\n' then 1 else 0;
            && Newlines(text[at..aux + 1]) == Newlines(text[at..aux]) + (now - lines)
            && Scan(text[aux..], lines, height)
                 == if now == height - 1 then (true, 1) else Ahead(Scan(text[aux + 1..], now, height), 1)
  {
    OneFurther(text, at, aux);
    assert Newlines([text[aux]]) == if text[aux] == '\n' then 1 else 0 by {
      assert [text[aux]][1..] == "";
    }
    hide Newlines;
    NewlinesConcat(text[at..aux], [text[aux]]);
  }

  /** The keys of a reply. */
  function Typed(r: Reply): string {
    Repeat('?', r.helps) + [r.c]
  }

  /** What is typed at a prompt is read up to the first character that is not a question mark. */
  lemma ReplyIsRead(keys: string, r: Reply, rest: string)
    requires r.c != '?' && keys == Typed(r) + rest
    ensures r.helps < |keys| && (forall i :: 0 <= i < r.helps ==> keys[i] == '?')
    ensures keys[r.helps] == r.c && keys[r.helps + 1..] == rest
  {
    assert |Typed(r)| == r.helps + 1;
    assert forall i :: 0 <= i <= r.helps ==> keys[i] == Typed(r)[i];
  }

  function TypedAll(replies: seq<Reply>): string {
    if replies == [] then "" else TypedAll(replies[..|replies| - 1]) + Typed(replies[|replies| - 1])
  }

  lemma HelpBytes(sent: string, helps: nat)
    ensures (sent + PromptBytes(helps)) + HELP + (MORE + ERASE) == sent + PromptBytes(helps + 1)
  {
    hide PromptBytes;
    assert PromptBytes(helps + 1) == PromptBytes(helps) + HELP + (MORE + ERASE) by {
      PromptStep(helps);
    }
    var p, m := PromptBytes(helps), MORE + ERASE;
    assert (sent + p) + HELP + m == sent + (p + HELP + m);
  }

  lemma PromptBytesOnce(sent: string)
    ensures sent + "" + (MORE + ERASE) == sent + PromptBytes(0)
  {
  }

  lemma PromptStep(helps: nat)
    ensures PromptBytes(helps + 1) == PromptBytes(helps) + HELP + (MORE + ERASE)
  {
  }

  lemma HelpKeys(helps: nat, rest: string)
    ensures Repeat('?', helps) + (['?'] + rest) == Repeat('?', helps + 1) + rest
  {
    assert Repeat('?', helps) + ['?'] == Repeat('?', helps + 1);
  }
}
