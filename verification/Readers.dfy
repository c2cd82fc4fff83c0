/** The buffered reader of vty.c in front of the telnet decoder (vty.c:264-381). */
module Readers {
  import opened Telnet

  /** Received bytes as characters. */
  function AsText(bytes: seq<Byte>): (s: string)
    ensures |s| == |bytes|
  {
    seq(|bytes|, i requires 0 <= i < |bytes| => bytes[i] as char)
  }

  /** The receiving half of a connection. `supply` is what successive reads of the socket return;
      when it is exhausted the peer has closed. */
  class Reader {
    const sBuff: array<Byte>
    const sbBuff: array<Byte>
    const signedChar: bool
    var sCount: nat
    var sPtr: nat
    var supply: seq<seq<Byte>>
    var state: Byte
    var sbPtr: nat
    var width: int
    var height: int

    ghost const Repr: set<object>

    ghost predicate Valid()
      reads this
    {
      && Repr == {this, sBuff, sbBuff}
      && sBuff.Length == MAX_RBUFFER && sbBuff.Length == SB_SIZE && sBuff != sbBuff
      && sPtr + sCount <= MAX_RBUFFER && sbPtr <= SB_SIZE
      && forall i :: 0 <= i < |supply| ==> 0 < |supply[i]| <= MAX_RBUFFER
    }

    ghost function State(): Decoder
      requires Valid()
      reads this, sbBuff
    {
      Decoder(state, sbBuff[..sbPtr], width, height, signedChar)
    }

    /** The bytes received but not yet read, and those still to be received. */
    ghost function Incoming(): seq<Byte>
      requires Valid()
      reads this, sBuff
    {
      sBuff[sPtr..sPtr + sCount] + Flatten(supply)
    }

    /** The characters still to be delivered. */
    ghost function Pending(): seq<Byte>
      requires Valid()
      reads this, sBuff, sbBuff
    {
      Chars(State(), Incoming())
    }

    constructor (supply: seq<seq<Byte>>, signedChar: bool)
      requires forall i :: 0 <= i < |supply| ==> 0 < |supply[i]| <= MAX_RBUFFER
      ensures Valid() && fresh(Repr)
      ensures State() == Decoder(0, [], 80, 25, signedChar)
      ensures Incoming() == Flatten(supply)
    {
      var received := new Byte[MAX_RBUFFER];
      var payload := new Byte[SB_SIZE];
      sBuff, sbBuff, Repr := received, payload, {this, received, payload};
      this.supply, this.signedChar := supply, signedChar;
      sCount, sPtr, state, sbPtr, width, height := 0, 0, 0, 0, 80, 25;
    }

    method SbAdd(c: Byte)
      requires Valid()
      modifies this`sbPtr, sbBuff
      ensures Valid() && sbBuff[..sbPtr] == Added(old(sbBuff[..sbPtr]), c)
    {
      if sbPtr < SB_SIZE {
        sbBuff[sbPtr] := c;
        sbPtr := sbPtr + 1;
      }
    }

    method HandleSubnegotiation()
      requires Valid()
      modifies this`width, this`height
      ensures Valid() && State() == Negotiated(old(State()))
    {
      if sbBuff[0] == TELOPT_NAWS {
        if sbPtr < 5 {
          return;
        }
        width := Join(FromChar(sbBuff[1], signedChar), FromChar(sbBuff[2], signedChar));
        height := Join(FromChar(sbBuff[3], signedChar), FromChar(sbBuff[4], signedChar));
      }
    }

    method Command(c: Byte) returns (swallowed: bool)
      requires Valid()
      modifies this`state, this`sbPtr, this`width, this`height, sbBuff
      ensures Valid() && (State(), swallowed) == Accept(old(State()), c)
    {
      if state == 0 {
        if c != IAC {
          return false;
        }
        state := IAC;
      } else if state == IAC {
        if c == IAC {
          return false;
        }
        if c == SB {
          state := SB;
          sbPtr := 0;
        } else if !IsCommand(c) {
          state := 0;
        }
      } else if state == SB {
        if c == IAC {
          state := SE;
        } else {
          SbAdd(c);
        }
      } else if state == SE {
        if c != SE {
          state := SB;
          SbAdd(c);
        } else {
          HandleSubnegotiation();
          state := 0;
        }
      }
      return true;
    }

    /** sk_recv into the empty buffer; nothing is received when the peer has closed. */
    method Receive()
      requires Valid() && sCount == 0
      modifies this`sCount, this`sPtr, this`supply, sBuff
      ensures Valid() && Incoming() == old(Incoming())
      ensures sCount == 0 <==> old(Incoming()) == []
    {
      assert Incoming() == Flatten(supply);
      if supply == [] {
        return;
      }
      var chunk := supply[0];
      forall i | 0 <= i < |chunk| {
        sBuff[i] := chunk[i];
      }
      supply := supply[1..];
      sCount, sPtr := |chunk|, 0;
      assert sBuff[0..|chunk|] == chunk;
    }

    /** n_getchar: the next received byte, unless the peer has closed. */
    method NextByte() returns (open: bool, c: Byte)
      requires Valid()
      modifies this`sCount, this`sPtr, this`supply, sBuff
      ensures Valid()
      ensures open ==> old(Incoming()) == [c] + Incoming()
      ensures !open ==> old(Incoming()) == [] && Incoming() == []
    {
      hide Flatten;
      if sCount == 0 {
        Receive();
        if sCount == 0 {
          return false, 0;
        }
      }
      c := sBuff[sPtr];
      assert sBuff[sPtr..sPtr + sCount] == [c] + sBuff[sPtr + 1..sPtr + sCount];
      sCount, sPtr := sCount - 1, sPtr + 1;
      return true, c;
    }

    /** One byte through the decoder: `deliver` unless it is protocol, a line feed or NUL. */
    method Decode() returns (open: bool, deliver: bool, c: Byte)
      requires Valid()
      modifies this, sBuff, sbBuff
      ensures Valid()
      ensures open ==> old(Incoming()) == [c] + Incoming() && State() == Accept(old(State()), c).0
      ensures open ==> (deliver <==> Delivered(old(State()), c))
      ensures !open ==> Incoming() == [] == old(Incoming()) && State() == old(State())
    {
      hide Flatten, Negotiated;
      open, c := NextByte();
      if !open {
        return false, false, 0;
      }
      var swallowed := Command(c);
      deliver := !swallowed && c != LF && c != 0;
    }

    /** The reader has consumed the bytes `taken` of what was incoming when its decoder was in state d. */
    ghost predicate Consumed(d: Decoder, incoming: seq<Byte>, taken: seq<Byte>)
      reads this, sBuff, sbBuff
    {
      Valid() && incoming == taken + Incoming() && State() == After(d, taken)
    }

    /** Delivers exactly the next decoded character, and consumes the bytes up to the one that carries it
        and no more. The contract sees the incoming bytes only as one sequence. */
    method GetChar() returns (open: bool, c: Byte, ghost taken: seq<Byte>)
      requires Valid()
      modifies Repr
      ensures Consumed(old(State()), old(Incoming()), if open then taken + [c] else taken)
      ensures Chars(old(State()), taken) == []
      ensures if open then Delivered(After(old(State()), taken), c) else Incoming() == []
      ensures if open then old(Pending()) == [c] + Pending() else old(Pending()) == []
    {
      hide Chars, Accept, Flatten, Delivered;
      ghost var d, incoming := State(), Incoming();
      taken := [];
      NothingTaken(d, incoming);
      var again := true;
      open, c := true, 0;
      while again
        invariant Valid() && open && Chars(d, taken) == []
        invariant if again then Consumed(d, incoming, taken)
                  else Consumed(d, incoming, taken + [c]) && Delivered(After(d, taken), c)
        decreases again, |Incoming()|
      {
        var deliver;
        open, deliver, c := Decode();
        TakenOne(d, incoming, taken, c, Incoming());
        if !open {
          assert taken + [] == taken;
          return;
        }
        again := !deliver;
        if again {
          taken := taken + [c];
        }
      }
      TakenUntil(d, taken, c, Incoming());
    }
  }

  lemma NothingTaken(d: Decoder, incoming: seq<Byte>)
    ensures Chars(d, []) == [] && After(d, []) == d && incoming == [] + incoming
  {
  }

  lemma TakenOne(d: Decoder, incoming: seq<Byte>, taken: seq<Byte>, c: Byte, rest: seq<Byte>)
    ensures After(d, taken + [c]) == Accept(After(d, taken), c).0
    ensures Chars(d, taken + [c]) == Chars(d, taken) + if Delivered(After(d, taken), c) then [c] else []
    ensures incoming == taken + ([c] + rest) ==> incoming == (taken + [c]) + rest
    ensures Chars(d, taken) == [] ==> Chars(d, taken + rest) == Chars(After(d, taken), rest)
  {
    hide Chars, After, Accept, Delivered;
    DecodeConcat(d, taken, [c]);
    DecodeConcat(d, taken, rest);
    OneByte(After(d, taken), c);
    assert [] + Chars(After(d, taken), rest) == Chars(After(d, taken), rest);
  }

  lemma TakenUntil(d: Decoder, taken: seq<Byte>, c: Byte, rest: seq<Byte>)
    requires Chars(d, taken) == [] && Delivered(After(d, taken), c)
    ensures Chars(d, (taken + [c]) + rest) == [c] + Chars(After(d, taken + [c]), rest)
  {
    hide Accept;
    TakenOne(d, [], taken, c, rest);
    DecodeConcat(d, taken + [c], rest);
  }

  /** The characters still to be delivered are those of a C string. */
  lemma PendingIsText(reader: Reader)
    requires reader.Valid()
    ensures var s := AsText(reader.Pending()); forall i :: 0 <= i < |s| ==> 0 < s[i] as int < 256
  {
    var bytes := reader.Pending();
    NoNulDelivered(reader.State(), reader.Incoming());
    assert forall i :: 0 <= i < |bytes| ==> bytes[i] in bytes;
  }

  /** The next decoded character, as a character. */
  method ReadKey(reader: Reader) returns (open: bool, c: char)
    requires reader.Valid()
    modifies reader.Repr
    ensures reader.Valid()
    ensures open ==> AsText(old(reader.Pending())) == [c] + AsText(reader.Pending()) && c != '\0'
    ensures open ==> |reader.Incoming()| < |old(reader.Incoming())|
    ensures !open ==> old(reader.Pending()) == [] && reader.Pending() == []
  {
    hide Flatten, After, Accept;
    var b;
    ghost var taken;
    open, b, taken := reader.GetChar();
    c := b as char;
  }
}
