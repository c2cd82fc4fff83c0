/** The command history of vty.c: a ten-slot array of lines with a length and a browsing position. */
module Histories {
  const MAX_HISTORY := 10

  predicate AllSpaces(cmd: string) {
    forall i :: 0 <= i < |cmd| ==> cmd[i] == ' '
  }

  /** The stored entries after one more command. */
  function Recorded(entries: seq<string>, cmd: string): seq<string> {
    if AllSpaces(cmd) || (entries != [] && entries[|entries| - 1] == cmd) then entries
    else (if |entries| >= MAX_HISTORY then entries[1..] else entries) + [cmd]
  }

  function RecordedAll(inputs: seq<string>): seq<string> {
    if inputs == [] then []
    else Recorded(RecordedAll(inputs[..|inputs| - 1]), inputs[|inputs| - 1])
  }

  /** The unbounded log: no blank lines, no line equal to the one logged just before it. */
  function NonBlank(inputs: seq<string>): seq<string> {
    if inputs == [] then []
    else
      var rest := NonBlank(inputs[..|inputs| - 1]);
      if AllSpaces(inputs[|inputs| - 1]) then rest else rest + [inputs[|inputs| - 1]]
  }

  function Squeeze(log: seq<string>): (s: seq<string>)
    ensures s == [] <==> log == []
    ensures log != [] ==> s[|s| - 1] == log[|log| - 1]
    ensures forall i :: 0 < i < |s| ==> s[i] != s[i - 1]
  {
    if |log| <= 1 then log
    else
      var rest := Squeeze(log[..|log| - 1]);
      if log[|log| - 2] == log[|log| - 1] then rest else rest + [log[|log| - 1]]
  }

  function Last(log: seq<string>, n: nat): seq<string> {
    if |log| <= n then log else log[|log| - n..]
  }

  /** The ten slots hold the last ten lines of the log, in order. */
  lemma {:induction false} HistoryIsTailOfLog(inputs: seq<string>)
    ensures RecordedAll(inputs) == Last(Squeeze(NonBlank(inputs)), MAX_HISTORY)
  {
    if inputs != [] {
      var init, cmd := inputs[..|inputs| - 1], inputs[|inputs| - 1];
      HistoryIsTailOfLog(init);
      if !AllSpaces(cmd) {
        SqueezeAppend(NonBlank(init), cmd);
        RecordedLast(Squeeze(NonBlank(init)), cmd);
      }
    }
  }

  lemma SqueezeAppend(log: seq<string>, cmd: string)
    ensures Squeeze(log + [cmd]) == if log != [] && log[|log| - 1] == cmd then Squeeze(log) else Squeeze(log) + [cmd]
  {
    assert (log + [cmd])[..|log|] == log;
  }

  lemma RecordedLast(s: seq<string>, cmd: string)
    requires !AllSpaces(cmd)
    ensures Recorded(Last(s, MAX_HISTORY), cmd)
         == Last(if s != [] && s[|s| - 1] == cmd then s else s + [cmd], MAX_HISTORY)
  {
    if s != [] {
      assert Last(s, MAX_HISTORY)[|Last(s, MAX_HISTORY)| - 1] == s[|s| - 1];
    }
  }

  /** What a stored line becomes when it is recalled: hist_write_entry uses it as a format without
      arguments. A doubled percent sign comes out as one. Any other is undefined in C; here the line
      ends there. */
  function Recalled(line: string): string {
    if line == "" then ""
    else if line[0] != '%' then [line[0]] + Recalled(line[1..])
    else if |line| > 1 && line[1] == '%' then "%" + Recalled(line[2..])
    else ""
  }

  /** A line is recalled as it is iff it holds no percent sign; otherwise it comes out shorter. */
  lemma {:induction false} RecalledCopiesIff(line: string)
    ensures Recalled(line) == line <==> '%' !in line
    ensures |Recalled(line)| <= |line| && (|Recalled(line)| == |line| ==> '%' !in line)
    ensures forall i :: 0 <= i < |Recalled(line)| ==> Recalled(line)[i] in line
    decreases |line|
  {
    if line != "" {
      if line[0] != '%' {
        RecalledCopiesIff(line[1..]);
        assert line == [line[0]] + line[1..];
      } else if |line| > 1 && line[1] == '%' {
        RecalledCopiesIff(line[2..]);
        assert line == line[..2] + line[2..];
      }
    }
  }

  /** sprintf of a format without arguments. */
  method Format(format: string) returns (s: string)
    ensures s == Recalled(format)
  {
    s := "";
    var i := 0;
    assert format[0..] == format;
    while i < |format|
      invariant i <= |format| && s + Recalled(format[i..]) == Recalled(format)
    {
      var c := format[i];
      RecalledStep(format[i..]);
      if c != '%' {
        i := i + 1;
        assert format[i - 1..][1..] == format[i..];
      } else if i + 1 < |format| && format[i + 1] == '%' {
        i := i + 2;
        assert format[i - 2..][2..] == format[i..];
      } else {
        return;
      }
      s := s + [c];
    }
  }

  lemma RecalledStep(line: string)
    requires line != ""
    ensures line[0] != '%' ==> Recalled(line) == [line[0]] + Recalled(line[1..])
    ensures line[0] == '%' && |line| > 1 && line[1] == '%' ==> Recalled(line) == ['%'] + Recalled(line[2..])
    ensures line[0] == '%' && !(|line| > 1 && line[1] == '%') ==> Recalled(line) == ""
  {
  }

  class History {
    const slots: array<string>
    var len: nat
    var pos: nat

    ghost predicate Valid()
      reads this
    {
      slots.Length == MAX_HISTORY && pos <= len <= MAX_HISTORY
    }

    ghost function Entries(): seq<string>
      requires Valid()
      reads this, slots
    {
      slots[..len]
    }

    constructor ()
      ensures Valid() && Entries() == [] && pos == 0 && fresh(slots)
    {
      slots := new string[MAX_HISTORY](_ => "");
      len, pos := 0, 0;
    }

    /** hist_get_previous: towards the newer entries; None past the newest, where the draft is. */
    method Newer() returns (found: bool, cmd: string)
      requires Valid()
      modifies this`pos
      ensures Valid()
      ensures found <==> old(pos) + 1 < len
      ensures found ==> pos == old(pos) + 1 && cmd == Entries()[pos]
      ensures !found ==> pos == len
    {
      if pos + 1 >= len {
        pos := len;
        return false, "";
      }
      pos := pos + 1;
      return true, slots[pos];
    }

    /** hist_get_next: towards the older entries; None at the oldest. */
    method Older() returns (found: bool, cmd: string)
      requires Valid()
      modifies this`pos
      ensures Valid()
      ensures found <==> old(pos) > 0
      ensures found ==> pos == old(pos) - 1 && cmd == Entries()[pos]
      ensures !found ==> pos == old(pos)
    {
      if pos == 0 {
        return false, "";
      }
      pos := pos - 1;
      return true, slots[pos];
    }

    method IsEmptyLine(cmd: string) returns (empty: bool)
      ensures empty == AllSpaces(cmd)
    {
      var i := 0;
      while i < |cmd| && cmd[i] == ' '
        invariant i <= |cmd| && AllSpaces(cmd[..i])
      {
        i := i + 1;
      }
      if i < |cmd| {
        assert cmd[i] != ' ';
      } else {
        assert cmd[..i] == cmd;
      }
      return i == |cmd|;
    }

    method Delete(at: nat)
      requires Valid() && at < len
      modifies this`len, this`pos, slots
      ensures slots.Length == MAX_HISTORY && len == old(len) - 1 && pos == old(pos)
      ensures slots[..len] == old(slots[..at]) + old(slots[at + 1..len])
    {
      ghost var b := slots[..];
      len := len - 1;
      var i := at;
      while i < MAX_HISTORY - 1
        invariant len == old(len) - 1 && pos == old(pos) && at <= i <= MAX_HISTORY - 1
        invariant forall j :: 0 <= j < at ==> slots[j] == b[j]
        invariant forall j :: at <= j < i ==> slots[j] == b[j + 1]
        invariant forall j :: i <= j < MAX_HISTORY ==> slots[j] == b[j]
      {
        slots[i] := slots[i + 1];
        i := i + 1;
      }
      assert slots[..len] == b[..at] + b[at + 1..len + 1];
    }

    method Add(cmd: string) returns (added: bool)
      requires Valid()
      modifies this`len, this`pos, slots
      ensures Valid() && Entries() == Recorded(old(Entries()), cmd)
      ensures added ==> pos == len
      ensures !added ==> pos == old(pos) && Entries() == old(Entries())
      ensures added <==> !AllSpaces(cmd) && (old(len) == 0 || old(Entries())[old(len) - 1] != cmd)
    {
      var empty := IsEmptyLine(cmd);
      if empty || (len > 0 && slots[len - 1] == cmd) {
        return false;
      }
      ghost var before := Entries();
      if len >= MAX_HISTORY {
        Delete(0);
      }
      assert slots[..len] == if |before| >= MAX_HISTORY then before[1..] else before;
      slots[len] := cmd;
      len := len + 1;
      pos := len;
      return true;
    }
  }
}
