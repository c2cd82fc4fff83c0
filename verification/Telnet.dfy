/** The telnet decoder of vty.c: RFC 854 commands, RFC 855 option negotiation and
    RFC 1073 window-size subnegotiation are taken out of the byte stream. */
module Telnet {
  type Byte = x: int | 0 <= x < 256

  const IAC: Byte := 255
  const WILL: Byte := 251
  const SB: Byte := 250
  const SE: Byte := 240
  const LAST_COMMAND: Byte := 255
  const FIRST_COMMAND: Byte := 236
  const TELOPT_NAWS: Byte := 31
  const SB_SIZE := 16
  const MAX_RBUFFER := 128
  const LF: Byte := 10

  /** The decoder's state is 0 between items, else the telnet code it is waiting behind. `payload`
      holds the bytes of the subnegotiation so far. `signedChar` tells whether the platform's
      plain char is signed. */
  datatype Decoder = Decoder(state: Byte, payload: seq<Byte>, width: int, height: int, signedChar: bool)

  predicate IsCommand(c: Byte) { FIRST_COMMAND <= c <= LAST_COMMAND }

  function Added(payload: seq<Byte>, c: Byte): seq<Byte> {
    if |payload| < SB_SIZE then payload + [c] else payload
  }

  /** A byte read back from a plain char. */
  function FromChar(b: Byte, signedChar: bool): int {
    if signedChar && b > 127 then b - 256 else b
  }

  /** `(hi << 8) | lo` on ints: a negative lo has all its upper bits set and so decides the result. */
  function Join(hi: int, lo: int): int {
    if lo < 0 then lo else hi * 256 + lo
  }

  /** hdl_iac_sb: a complete subnegotiation takes effect. */
  function Negotiated(d: Decoder): Decoder {
    if |d.payload| >= 5 && d.payload[0] == TELOPT_NAWS then
      d.(width := Join(FromChar(d.payload[1], d.signedChar), FromChar(d.payload[2], d.signedChar)),
         height := Join(FromChar(d.payload[3], d.signedChar), FromChar(d.payload[4], d.signedChar)))
    else d
  }

  /** telnet_cmd: the next state, and whether the byte belonged to the protocol. */
  function Accept(d: Decoder, c: Byte): (Decoder, bool) {
    if d.state == 0 then
      if c == IAC then (d.(state := IAC), true) else (d, false)
    else if d.state == IAC then
      if c == IAC then (d, false)
      else if c == SB then (d.(state := SB, payload := []), true)
      else if IsCommand(c) then (d, true)
      else (d.(state := 0), true)
    else if d.state == SB then
      if c == IAC then (d.(state := SE), true) else (d.(payload := Added(d.payload, c)), true)
    else if d.state == SE then
      if c != SE then (d.(state := SB, payload := Added(d.payload, c)), true)
      else (Negotiated(d).(state := 0), true)
    else (d, true)
  }

  predicate Delivered(d: Decoder, c: Byte) {
    !Accept(d, c).1 && c != LF && c != 0
  }

  /** The characters handed to the editor for a stream of bytes. */
  function Chars(d: Decoder, bytes: seq<Byte>): seq<Byte>
    decreases |bytes|
  {
    if bytes == [] then []
    else (if Delivered(d, bytes[0]) then [bytes[0]] else []) + Chars(Accept(d, bytes[0]).0, bytes[1..])
  }

  function After(d: Decoder, bytes: seq<Byte>): Decoder
    decreases |bytes|
  {
    if bytes == [] then d else After(Accept(d, bytes[0]).0, bytes[1..])
  }

  lemma DecodeStep(d: Decoder, c: Byte, rest: seq<Byte>)
    ensures Chars(d, [c] + rest) == (if Delivered(d, c) then [c] else []) + Chars(Accept(d, c).0, rest)
    ensures After(d, [c] + rest) == After(Accept(d, c).0, rest)
  {
    assert ([c] + rest)[1..] == rest;
  }

  lemma {:induction false} DecodeConcat(d: Decoder, a: seq<Byte>, b: seq<Byte>)
    ensures Chars(d, a + b) == Chars(d, a) + Chars(After(d, a), b)
    ensures After(d, a + b) == After(After(d, a), b)
    decreases |a|
  {
    if a == [] {
      assert a + b == b;
    } else {
      assert (a + b)[1..] == a[1..] + b;
      DecodeConcat(Accept(d, a[0]).0, a[1..], b);
    }
  }

  /** No NUL is ever delivered. */
  lemma {:induction false} NoNulDelivered(d: Decoder, bytes: seq<Byte>)
    ensures 0 !in Chars(d, bytes)
    decreases |bytes|
  {
    if bytes != [] {
      NoNulDelivered(Accept(d, bytes[0]).0, bytes[1..]);
    }
  }

  // ---------- chunks ----------

  function Flatten(chunks: seq<seq<Byte>>): seq<Byte> {
    if chunks == [] then [] else chunks[0] + Flatten(chunks[1..])
  }

  function CharsOfChunks(d: Decoder, chunks: seq<seq<Byte>>): seq<Byte>
    decreases |chunks|
  {
    if chunks == [] then [] else Chars(d, chunks[0]) + CharsOfChunks(After(d, chunks[0]), chunks[1..])
  }

  function AfterChunks(d: Decoder, chunks: seq<seq<Byte>>): Decoder
    decreases |chunks|
  {
    if chunks == [] then d else AfterChunks(After(d, chunks[0]), chunks[1..])
  }

  /** Characters and final state depend on the concatenated bytes only, not on how they arrive. */
  lemma {:induction false} ChunksDecodeAsOneStream(d: Decoder, chunks: seq<seq<Byte>>)
    ensures CharsOfChunks(d, chunks) == Chars(d, Flatten(chunks))
    ensures AfterChunks(d, chunks) == After(d, Flatten(chunks))
    decreases |chunks|
  {
    if chunks != [] {
      ChunksDecodeAsOneStream(After(d, chunks[0]), chunks[1..]);
      DecodeConcat(d, chunks[0], Flatten(chunks[1..]));
    }
  }

  // ---------- the protocol's own grammar ----------

  /** What a client may send: a data byte, a data byte 255 (which RFC 854 doubles), a two-byte
      command, a three-byte option negotiation, a subnegotiation block. */
  datatype Item =
    | Data(b: Byte)
    | Data255
    | Command(cmd: Byte)
    | Negotiate(verb: Byte, option: Byte)
    | Block(payload: seq<Byte>)

  predicate WellFormed(i: Item) {
    match i
    case Data(b) => b != IAC
    case Command(c) => FIRST_COMMAND <= c < SB
    case Negotiate(v, _) => WILL <= v < IAC
    case _ => true
  }

  function Doubled(payload: seq<Byte>): seq<Byte> {
    if payload == [] then []
    else (if payload[0] == IAC then [IAC, IAC] else [payload[0]]) + Doubled(payload[1..])
  }

  function Encode(i: Item): seq<Byte> {
    match i
    case Data(b) => [b]
    case Data255 => [IAC, IAC]
    case Command(c) => [IAC, c]
    case Negotiate(v, o) => [IAC, v, o]
    case Block(p) => [IAC, SB] + Doubled(p) + [IAC, SE]
  }

  function EncodeAll(items: seq<Item>): seq<Byte> {
    if items == [] then [] else Encode(items[0]) + EncodeAll(items[1..])
  }

  /** The items the decoder handles as the protocol means them. */
  predicate Regular(i: Item) {
    match i
    case Data(_) => true
    case Negotiate(_, o) => !IsCommand(o)
    case Block(_) => true
    case _ => false
  }

  /** The protocol's meaning of an item for the editor, line feeds and NULs left out. */
  function Meaning(i: Item): seq<Byte> {
    match i
    case Data(b) => if b == LF || b == 0 then [] else [b]
    case Data255 => [IAC]
    case _ => []
  }

  function MeaningAll(items: seq<Item>): seq<Byte> {
    if items == [] then [] else Meaning(items[0]) + MeaningAll(items[1..])
  }

  function FirstBytes(p: seq<Byte>): seq<Byte> {
    if |p| <= SB_SIZE then p else p[..SB_SIZE]
  }

  /** The effect an item has on the decoder as a whole. */
  function Effect(d: Decoder, i: Item): Decoder {
    if i.Block? then Negotiated(d.(payload := FirstBytes(i.payload))) else d
  }

  function EffectAll(d: Decoder, items: seq<Item>): Decoder
    decreases |items|
  {
    if items == [] then d else EffectAll(Effect(d, items[0]), items[1..])
  }

  function AddedAll(sb: seq<Byte>, p: seq<Byte>): seq<Byte>
    decreases |p|
  {
    if p == [] then sb else AddedAll(Added(sb, p[0]), p[1..])
  }

  lemma {:induction false} AddedAllIsPrefix(sb: seq<Byte>, p: seq<Byte>)
    requires |sb| <= SB_SIZE
    ensures AddedAll(sb, p) == FirstBytes(sb + p)
    decreases |p|
  {
    if p == [] {
      assert sb + p == sb;
    } else {
      AddedAllIsPrefix(Added(sb, p[0]), p[1..]);
      if |sb| < SB_SIZE {
        assert sb + [p[0]] + p[1..] == sb + p;
      } else {
        assert FirstBytes(sb + p) == sb == FirstBytes(sb + p[1..]);
      }
    }
  }

  /** Inside a block nothing is delivered, and 255 is un-doubled into the payload. */
  lemma {:induction false} DoubledDecodes(d: Decoder, p: seq<Byte>)
    requires d.state == SB
    ensures Chars(d, Doubled(p)) == []
    ensures After(d, Doubled(p)) == d.(payload := AddedAll(d.payload, p))
    decreases |p|
  {
    if p != [] {
      var head := if p[0] == IAC then [IAC, IAC] else [p[0]];
      var d' := d.(payload := Added(d.payload, p[0]));
      if p[0] == IAC {
        TwoBytes(d, IAC, IAC);
      } else {
        assert [p[0]][1..] == [];
      }
      assert Chars(d, head) == [] && After(d, head) == d';
      DecodeConcat(d, head, Doubled(p[1..]));
      DoubledDecodes(d', p[1..]);
    }
  }

  lemma TwoBytes(d: Decoder, a: Byte, b: Byte)
    ensures var d' := Accept(d, a).0;
            && After(d, [a, b]) == Accept(d', b).0
            && Chars(d, [a, b]) == (if Delivered(d, a) then [a] else []) + (if Delivered(d', b) then [b] else [])
  {
    var d' := Accept(d, a).0;
    assert [a, b][1..] == [b];
    assert [b][1..] == [];
    assert After(d', [b]) == Accept(d', b).0;
    assert Chars(d', [b]) == if Delivered(d', b) then [b] else [];
  }

  lemma BlockBodyDecodes(d: Decoder, p: seq<Byte>)
    requires d.state == 0
    ensures Chars(d, [IAC, SB] + Doubled(p)) == []
    ensures After(d, [IAC, SB] + Doubled(p)) == d.(state := SB, payload := FirstBytes(p))
  {
    TwoBytes(d, IAC, SB);
    DoubledDecodes(d.(state := SB, payload := []), p);
    AddedAllIsPrefix([], p);
    assert [] + p == p;
    DecodeConcat(d, [IAC, SB], Doubled(p));
  }

  lemma BlockDecodes(d: Decoder, p: seq<Byte>)
    requires d.state == 0
    ensures Chars(d, Encode(Block(p))) == []
    ensures After(d, Encode(Block(p))) == Effect(d, Block(p))
    ensures After(d, Encode(Block(p))).payload == if |p| <= 16 then p else p[..16]
  {
    BlockBodyDecodes(d, p);
    var full := d.(state := SB, payload := FirstBytes(p));
    TwoBytes(full, IAC, SE);
    DecodeConcat(d, [IAC, SB] + Doubled(p), [IAC, SE]);
  }

  /** From rest, the decoder is at rest again after an item iff the item is regular. */
  lemma ItemSettlesIff(d: Decoder, i: Item)
    requires d.state == 0 && WellFormed(i)
    ensures After(d, Encode(i)).state == 0 <==> Regular(i)
    ensures Regular(i) ==> Chars(d, Encode(i)) == Meaning(i) && After(d, Encode(i)) == Effect(d, i)
  {
    match i {
      case Data(b) =>
        assert [b][1..] == [];
      case Data255 =>
        TwoBytes(d, IAC, IAC);
      case Command(c) =>
        TwoBytes(d, IAC, c);
      case Negotiate(v, o) =>
        TwoBytes(d, IAC, v);
        assert [IAC, v, o] == [IAC, v] + [o];
        assert [o][1..] == [];
        DecodeConcat(d, [IAC, v], [o]);
      case Block(p) =>
        BlockDecodes(d, p);
    }
  }

  /** Every stream of regular items is decoded as the protocol means it. */
  lemma {:induction false} RegularStreamsDecode(d: Decoder, items: seq<Item>)
    requires d.state == 0
    requires forall i :: 0 <= i < |items| ==> WellFormed(items[i]) && Regular(items[i])
    ensures Chars(d, EncodeAll(items)) == MeaningAll(items)
    ensures After(d, EncodeAll(items)) == EffectAll(d, items)
    ensures After(d, EncodeAll(items)).state == 0
    decreases |items|
  {
    if items != [] {
      ItemSettlesIff(d, items[0]);
      RegularStreamsDecode(Effect(d, items[0]), items[1..]);
      DecodeConcat(d, Encode(items[0]), EncodeAll(items[1..]));
    }
  }

  /** The decoder is at rest at every item boundary of a stream iff all its items are regular. */
  lemma {:induction false} AtRestBetweenItemsIff(d: Decoder, items: seq<Item>)
    requires d.state == 0
    requires forall i :: 0 <= i < |items| ==> WellFormed(items[i])
    ensures (forall n :: 0 <= n <= |items| ==> After(d, EncodeAll(items[..n])).state == 0)
       <==> forall i :: 0 <= i < |items| ==> Regular(items[i])
  {
    if forall i :: 0 <= i < |items| ==> Regular(items[i]) {
      forall n | 0 <= n <= |items|
        ensures After(d, EncodeAll(items[..n])).state == 0
      {
        RegularStreamsDecode(d, items[..n]);
      }
    } else {
      var k := FirstIrregular(items);
      IrregularUnsettles(d, items, k);
    }
  }

  lemma IrregularUnsettles(d: Decoder, items: seq<Item>, k: nat)
    requires d.state == 0 && k < |items| && !Regular(items[k])
    requires forall i :: 0 <= i < |items| ==> WellFormed(items[i])
    requires forall i :: 0 <= i < k ==> Regular(items[i])
    ensures After(d, EncodeAll(items[..k + 1])).state != 0
  {
    RegularStreamsDecode(d, items[..k]);
    EncodeAllConcat(items[..k], items[k]);
    assert items[..k + 1] == items[..k] + [items[k]];
    DecodeConcat(d, EncodeAll(items[..k]), Encode(items[k]));
    ItemSettlesIff(After(d, EncodeAll(items[..k])), items[k]);
  }

  lemma FirstIrregular(items: seq<Item>) returns (k: nat)
    requires exists i :: 0 <= i < |items| && !Regular(items[i])
    ensures k < |items| && !Regular(items[k])
    ensures forall i :: 0 <= i < k ==> Regular(items[i])
  {
    k := 0;
    while Regular(items[k])
      invariant k < |items| && forall i :: 0 <= i < k ==> Regular(items[i])
      decreases |items| - k
    {
      k := k + 1;
    }
  }

  lemma {:induction false} EncodeAllConcat(items: seq<Item>, i: Item)
    ensures EncodeAll(items + [i]) == EncodeAll(items) + Encode(i)
    decreases |items|
  {
    if items == [] {
      assert ([] + [i])[1..] == [];
    } else {
      assert (items + [i])[1..] == items[1..] + [i];
      EncodeAllConcat(items[1..], i);
    }
  }

  /** A data byte that is no telnet code and is handed on. */
  predicate Plain(b: Byte) { !IsCommand(b) && b != LF && b != 0 }

  /** From rest, an item and a plain data byte behind it are delivered as the protocol means them iff
      the item is regular. Behind any other item the byte is lost. */
  lemma ItemDeliversIff(d: Decoder, i: Item, b: Byte)
    requires d.state == 0 && WellFormed(i) && Plain(b)
    ensures Chars(d, Encode(i) + [b]) == Meaning(i) + [b] <==> Regular(i)
    ensures !Regular(i) ==> Chars(d, Encode(i) + [b]) == Chars(d, Encode(i)) && |Chars(d, Encode(i))| <= 1
  {
    DecodeConcat(d, Encode(i), [b]);
    OneByte(After(d, Encode(i)), b);
    if Regular(i) {
      ItemSettlesIff(d, i);
    } else {
      IrregularSwallows(d, i, b);
      assert b in Meaning(i) + [b] && b !in Chars(d, Encode(i)) + [];
      assert Chars(d, Encode(i)) + [] == Chars(d, Encode(i));
    }
  }

  lemma OneByte(d: Decoder, b: Byte)
    ensures Chars(d, [b]) == if Delivered(d, b) then [b] else []
    ensures After(d, [b]) == Accept(d, b).0
  {
    assert [b][1..] == [];
  }

  /** Behind an irregular item the decoder waits for more, and what the item delivered is no plain byte. */
  lemma IrregularSwallows(d: Decoder, i: Item, b: Byte)
    requires d.state == 0 && WellFormed(i) && !Regular(i) && Plain(b)
    ensures !Delivered(After(d, Encode(i)), b)
    ensures b !in Chars(d, Encode(i)) && |Chars(d, Encode(i))| <= 1
  {
    match i {
      case Data255 =>
        TwoBytes(d, IAC, IAC);
      case Command(c) =>
        TwoBytes(d, IAC, c);
      case Negotiate(v, o) =>
        TwoBytes(d, IAC, v);
        assert [IAC, v, o] == [IAC, v] + [o];
        DecodeConcat(d, [IAC, v], [o]);
        OneByte(After(d, [IAC, v]), o);
        assert [o][1..] == [];
    }
  }

  /** At every item boundary of a stream the data so far and a plain byte sent next are delivered as
      the protocol means them, iff all items are regular. */
  lemma {:induction false} StreamDeliversIff(d: Decoder, items: seq<Item>, b: Byte)
    requires d.state == 0 && Plain(b)
    requires forall i :: 0 <= i < |items| ==> WellFormed(items[i])
    ensures (forall n :: 0 <= n <= |items| ==> DeliversNext(d, items[..n], b))
       <==> forall i :: 0 <= i < |items| ==> Regular(items[i])
  {
    if forall i :: 0 <= i < |items| ==> Regular(items[i]) {
      forall n | 0 <= n <= |items|
        ensures DeliversNext(d, items[..n], b)
      {
        RegularDeliversNext(d, items[..n], b);
      }
    } else {
      var k := FirstIrregular(items);
      IrregularStops(d, items[..k], items[k], b);
      assert items[..k + 1] == items[..k] + [items[k]];
      assert !DeliversNext(d, items[..k + 1], b);
    }
  }

  predicate DeliversNext(d: Decoder, items: seq<Item>, b: Byte) {
    Chars(d, EncodeAll(items) + [b]) == MeaningAll(items) + [b]
  }

  lemma RegularDeliversNext(d: Decoder, items: seq<Item>, b: Byte)
    requires d.state == 0 && Plain(b)
    requires forall i :: 0 <= i < |items| ==> WellFormed(items[i]) && Regular(items[i])
    ensures DeliversNext(d, items, b)
  {
    RegularStreamsDecode(d, items);
    DecodeConcat(d, EncodeAll(items), [b]);
    OneByte(After(d, EncodeAll(items)), b);
  }

  lemma IrregularStops(d: Decoder, items: seq<Item>, i: Item, b: Byte)
    requires d.state == 0 && Plain(b) && WellFormed(i) && !Regular(i)
    requires forall i :: 0 <= i < |items| ==> WellFormed(items[i]) && Regular(items[i])
    ensures !DeliversNext(d, items + [i], b)
  {
    hide Chars, After, Encode, Regular, WellFormed;
    RegularStreamsDecode(d, items);
    EncodeAllConcat(items, i);
    MeaningAllConcat(items, i);
    var before := EncodeAll(items);
    ItemDeliversIff(After(d, before), i, b);
    DecodeConcat(d, before, Encode(i) + [b]);
    assert (before + Encode(i)) + [b] == before + (Encode(i) + [b]);
    assert (MeaningAll(items) + Meaning(i)) + [b] == MeaningAll(items) + (Meaning(i) + [b]);
    SamePrefix(MeaningAll(items), Chars(After(d, before), Encode(i) + [b]), Meaning(i) + [b]);
  }

  lemma SamePrefix(a: seq<Byte>, b: seq<Byte>, c: seq<Byte>)
    ensures a + b == a + c ==> b == c
  {
    assert b == (a + b)[|a|..] && c == (a + c)[|a|..];
  }

  lemma {:induction false} MeaningAllConcat(items: seq<Item>, i: Item)
    ensures MeaningAll(items + [i]) == MeaningAll(items) + Meaning(i)
    decreases |items|
  {
    if items == [] {
      assert ([] + [i])[1..] == [];
      assert Meaning(i) + [] == [] + Meaning(i);
    } else {
      assert (items + [i])[1..] == items[1..] + [i];
      MeaningAllConcat(items[1..], i);
    }
  }

  /** A doubled 255 in the data is delivered once, but any plain byte behind it is lost. */
  lemma Doubled255LosesTheNextByte(d: Decoder, b: Byte)
    requires d.state == 0 && Plain(b)
    ensures Chars(d, Encode(Data255) + Encode(Data(b))) == [IAC] != Meaning(Data255) + Meaning(Data(b))
  {
    ItemDeliversIff(d, Data255, b);
    TwoBytes(d, IAC, IAC);
  }

  /** A block of window size with five bytes or more sets the width RFC 1073 encodes iff plain char is
      unsigned or both of its bytes are below 128; likewise the height; what follows the fifth byte does not
      count. Any other block, and a shorter one, leaves both alone. */
  lemma WindowSizeIff(d: Decoder, p: seq<Byte>)
    requires d.state == 0
    ensures var d' := After(d, [255, 250] + Doubled(p) + [255, 240]);
            && d'.state == 0
            && if |p| >= 5 && p[0] == 31 then
                 && (d'.width == 256 * (p[1] as int) + p[2] <==> !d.signedChar || (p[1] < 128 && p[2] < 128))
                 && (d'.height == 256 * (p[3] as int) + p[4] <==> !d.signedChar || (p[3] < 128 && p[4] < 128))
               else d'.width == d.width && d'.height == d.height
  {
    BlockDecodes(d, p);
  }

  /** A negotiation, WILL, WONT, DO or DONT and an option, is passed over and the byte behind it delivered
      iff the option is below the command codes, which begin at 236. */
  lemma NegotiationIsSilentIff(d: Decoder, verb: Byte, option: Byte, c: Byte)
    requires d.state == 0 && 251 <= verb <= 254 && c != 0 && c != 10 && c < 236
    ensures Chars(d, [255, verb, option, c]) == [c] <==> option < 236
    ensures option < 236 ==> After(d, [255, verb, option, c]) == d
  {
    var i := Negotiate(verb, option);
    assert [255, verb, option, c] == Encode(i) + [c];
    ItemDeliversIff(d, i, c);
    ItemSettlesIff(d, i);
    DecodeConcat(d, Encode(i), [c]);
    OneByte(d, c);
  }

  /** At rest every byte but 0, 10 and 255 is delivered, and those are not. */
  lemma PlainByteIff(d: Decoder, c: Byte)
    requires d.state == 0
    ensures Chars(d, [c]) == if c == 0 || c == 10 || c == 255 then [] else [c]
  {
    OneByte(d, c);
  }
}
