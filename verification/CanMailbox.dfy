/**
  CAN messages: the words can_message_transmit puts into a transmit mailbox, and the message
  can_message_receive takes out of a receive FIFO.
*/
module CanMailbox {
  import opened Words
  import opened BitFields
  import opened FieldUnions

  const FF_STANDARD: u8 := 0
  const FF_EXTENDED: u8 := 4
  const FT_DATA: u8 := 0
  const FT_REMOTE: u8 := 2
  const NOMAILBOX: u8 := 3

  /** The transmit and receive structures: both identifiers are present, `ff` tells which counts. */
  datatype Message = Message(sfid: u32, efid: u32, ff: u8, ft: u8, dlen: u8, data: seq<u8>) {
    predicate Valid() {
      |data| == 8
    }
    function Identifier(): u32 {
      if ff == FF_STANDARD then sfid else efid
    }
  }

  /** The words of one mailbox. */
  datatype Mailbox = Mailbox(tmi: u32, tmp: u32, data0: u32, data1: u32)

  /** TMI_SFID and TMI_EFID, with the frame format and type or-ed in as they are. */
  function IdentifierWord(m: Message): u32 {
    if m.ff == FF_STANDARD then Or(Field(21, 31, m.sfid), m.ft)
    else Or(Or(Field(3, 31, m.efid), m.ff), m.ft)
  }

  function DataWord(b0: u8, b1: u8, b2: u8, b3: u8): u32 {
    Or(Or(Or(Field(24, 31, b3), Field(16, 23, b2)), Field(8, 15, b1)), Field(0, 7, b0))
  }

  /** A mailbox after the message has been written to it; bit 0 of the identifier word (TEN) asks
      for the transmission. */
  function Filled(old0: Mailbox, m: Message): Mailbox
    requires m.Valid()
  {
    Mailbox(Or(Or(And(old0.tmi, BitMask(0)), IdentifierWord(m)), BitMask(0)),
            Or(And(old0.tmp, Not(Bits(0, 3))), And(m.dlen, Bits(0, 3))),
            DataWord(m.data[0], m.data[1], m.data[2], m.data[3]),
            DataWord(m.data[4], m.data[5], m.data[6], m.data[7]))
  }

  /** The words of a receive FIFO entry. */
  datatype Entry = Entry(mi: u32, mp: u32, data0: u32, data1: u32)

  /** The bus takes a mailbox whose transmission is requested and carries identifier, format, type,
      length and data; the receiver adds a filter index and a time stamp to the property word, and
      has no transmission request bit. */
  predicate Carries(sent: Mailbox, received: Entry) {
    && Bit(sent.tmi, 0)
    && received.mi == And(sent.tmi, Not(BitMask(0)))
    && GetBits(received.mp, 0, 3) == GetBits(sent.tmp, 0, 3)
    && received.data0 == sent.data0 && received.data1 == sent.data1
  }

  /** can_message_receive: the identifier not used by the format keeps its previous value. */
  function Decoded(previous: Message, e: Entry): Message {
    LowBitsOfByte(e.mi);
    var ff := And(BitMask(2), e.mi);
    Message(if ff == 0 then GetBits(e.mi, 21, 31) else previous.sfid,
            if ff == 0 then previous.efid else GetBits(e.mi, 3, 31),
            ff, And(BitMask(1), e.mi), Length(e.mp), Bytes(e.data0) + Bytes(e.data1))
  }

  lemma LowBitsOfByte(w: u32)
    ensures And(BitMask(2), w) in {0, 4} && And(BitMask(1), w) in {0, 2}
  {
    SmallMasks();
    TypeAndFormat(w);
    OneBitValue(w, 1);
    OneBitValue(w, 2);
  }

  lemma SmallMasks()
    ensures BitMask(0) == 1 && BitMask(1) == 2 && BitMask(2) == 4
  {
    PowersOfTwo();
    ShlExact(1, 0);
    ShlExact(1, 1);
    ShlExact(1, 2);
  }

  lemma OneBitValue(w: u32, k: nat)
    requires k < 32
    ensures GetBits(w, k, k) in {0, 1}
  {
    GetBitsBound(w, k, k);
  }

  /** The masked type and format bits, as fields. */
  lemma TypeAndFormat(w: u32)
    ensures And(BitMask(1), w) == 2 * GetBits(w, 1, 1)
    ensures And(BitMask(2), w) == 4 * GetBits(w, 2, 2)
  {
    MaskedBit(w, 1);
    MaskedBit(w, 2);
    PowersOfTwo();
  }

  lemma MaskedBit(w: u32, k: nat)
    requires k < 32
    ensures And(BitMask(k), w) == GetBits(w, k, k) * Pow2(k)
  {
    OneBitValue(w, k);
    WidthOne();
    FieldFits(k, k, GetBits(w, k, k));
    FieldBits();
    WordBits();
    forall i: nat | i < 32
      ensures Bit(And(BitMask(k), w), i) <==> Bit(Field(k, k, GetBits(w, k, k)), i)
    {
      if i == k {
        assert Bit(GetBits(w, k, k), 0) <==> Bit(w, 0 + k);
      }
    }
    WordExtensionality(And(BitMask(k), w), Field(k, k, GetBits(w, k, k)));
  }

  lemma WidthOne()
    ensures Pow2(1) == 2
  {
  }

  function Length(mp: u32): (l: u8)
    ensures l < 16
  {
    NibbleBound(mp);
    GetBits(mp, 0, 3)
  }

  lemma NibbleBound(w: u32)
    ensures GetBits(w, 0, 3) < 16
  {
    PowersOfTwo();
    GetBitsBound(w, 0, 3);
  }

  function Bytes(w: u32): (b: seq<u8>)
    ensures |b| == 4
  {
    ByteBounds(w);
    [GetBits(w, 0, 7), GetBits(w, 8, 15), GetBits(w, 16, 23), GetBits(w, 24, 31)]
  }

  lemma ByteBounds(w: u32)
    ensures GetBits(w, 0, 7) < 0x100 && GetBits(w, 8, 15) < 0x100
    ensures GetBits(w, 16, 23) < 0x100 && GetBits(w, 24, 31) < 0x100
  {
    PowersOfTwo();
    GetBitsBound(w, 0, 7);
    GetBitsBound(w, 8, 15);
    GetBitsBound(w, 16, 23);
    GetBitsBound(w, 24, 31);
  }

  // ----- the data words -----

  lemma DataRoundTrip(b0: u8, b1: u8, b2: u8, b3: u8)
    ensures Bytes(DataWord(b0, b1, b2, b3)) == [b0, b1, b2, b3]
    ensures var w := DataWord(b0, b1, b2, b3);
            GetBits(w, 0, 7) == b0 && GetBits(w, 8, 15) == b1 && GetBits(w, 16, 23) == b2 && GetBits(w, 24, 31) == b3
  {
    hide Field, Or, GetBits, Union, Pow2;
    PowersOfTwo();
    var parts: seq<Part> := [Placed(24, 31, b3), Placed(16, 23, b2), Placed(8, 15, b1), Placed(0, 7, b0)];
    UnionOfFour(parts[0], parts[1], parts[2], parts[3]);
    PartReadExactly(parts, 0);
    PartReadExactly(parts, 1);
    PartReadExactly(parts, 2);
    PartReadExactly(parts, 3);
  }

  lemma LengthRoundTrip(tmp: u32, dlen: u8)
    ensures GetBits(Or(And(tmp, Not(Bits(0, 3))), And(dlen, Bits(0, 3))), 0, 3) == LowPart(dlen, 4)
  {
    hide *;
    LengthInserted(tmp, dlen);
    PutGet(tmp, 0, 3, dlen);
    HalvedValue(dlen, 4);
  }

  lemma LengthInserted(tmp: u32, dlen: u32)
    ensures Or(And(tmp, Not(Bits(0, 3))), And(dlen, Bits(0, 3))) == Insert(tmp, 0, 3, dlen)
  {
    hide *;
    FieldBits();
    WordBits();
    var w := Or(And(tmp, Not(Bits(0, 3))), And(dlen, Bits(0, 3)));
    forall i: nat | i < 32
      ensures Bit(w, i) <==> Bit(Insert(tmp, 0, 3, dlen), i)
    {
    }
    WordExtensionality(w, Insert(tmp, 0, 3, dlen));
  }

  // ----- the identifier word -----

  /** The identifier fields and the flag bits occupy disjoint positions. */
  function StandardParts(id: u32, ft: u8): (parts: seq<Part>)
    ensures Separate(parts)
  {
    [Placed(21, 31, id), Placed(1, 1, ft / 2)]
  }

  function ExtendedParts(id: u32, ft: u8): (parts: seq<Part>)
    ensures Separate(parts)
  {
    [Placed(3, 31, id), Placed(2, 2, 1), Placed(1, 1, ft / 2)]
  }

  /** What the receiver gets of the identifier word, for the documented formats and types. */
  lemma ReceivedWord(tmi: u32, m: Message)
    requires m.ff in {FF_STANDARD, FF_EXTENDED} && m.ft in {FT_DATA, FT_REMOTE}
    ensures And(Or(Or(And(tmi, BitMask(0)), IdentifierWord(m)), BitMask(0)), Not(BitMask(0)))
            == Union(if m.ff == FF_STANDARD then StandardParts(m.sfid, m.ft) else ExtendedParts(m.efid, m.ft))
  {
    FlagFields(m.ft);
    if m.ff == FF_STANDARD {
      var parts := StandardParts(m.sfid, m.ft);
      UnionOfOne(parts[0]);
      UnionSnoc([parts[0]], parts[1]);
      assert [parts[0]] + [parts[1]] == parts;
      NoLowBit(m.sfid);
      WithoutRequest(tmi, Field(21, 31, m.sfid), m.ft / 2);
    } else {
      var parts := ExtendedParts(m.efid, m.ft);
      UnionOfThree(parts[0], parts[1], parts[2]);
      NoLowBit(m.efid);
      WithoutRequest(tmi, Or(Field(3, 31, m.efid), Field(2, 2, 1)), m.ft / 2);
    }
  }

  lemma FlagFields(ft: u8)
    requires ft in {FT_DATA, FT_REMOTE}
    ensures Field(1, 1, ft / 2) == ft && Field(2, 2, 1) == 4
  {
    PowersOfTwo();
    FieldFits(1, 1, ft / 2);
    FieldFits(2, 2, 1);
  }

  lemma NoLowBit(id: u32)
    ensures !Bit(Field(21, 31, id), 0) && !Bit(Or(Field(3, 31, id), Field(2, 2, 1)), 0)
  {
    hide *;
    WordBits();
    FieldBits();
  }

  /** The transmission request bit is set in the mailbox and absent from the frame. */
  lemma WithoutRequest(tmi: u32, upper: u32, flag: u32)
    requires !Bit(upper, 0)
    ensures And(Or(Or(And(tmi, BitMask(0)), Or(upper, Field(1, 1, flag))), BitMask(0)), Not(BitMask(0)))
            == Or(upper, Field(1, 1, flag))
  {
    hide *;
    WordBits();
    FieldBits();
    var l := And(Or(Or(And(tmi, BitMask(0)), Or(upper, Field(1, 1, flag))), BitMask(0)), Not(BitMask(0)));
    var r := Or(upper, Field(1, 1, flag));
    forall i: nat | i < 32
      ensures Bit(l, i) <==> Bit(r, i)
    {
    }
    WordExtensionality(l, r);
  }

  // ----- the registers of a filled mailbox, bit by bit -----

  /** Every filled mailbox requests its transmission, whatever it held and whatever the message. */
  lemma Requested(old0: Mailbox, m: Message)
    requires m.Valid()
    ensures Bit(Filled(old0, m).tmi, 0)
  {
    hide And, BitMask, Bit, IdentifierWord, DataWord;
    WordBits();
    FieldBits();
  }

  /** The identifier word of a message of documented format and type: the request in bit 0, the
      remote flag in bit 1, the extended flag in bit 2, the identifier from bit 21 or 3 on. */
  lemma FilledBits(old0: Mailbox, m: Message)
    requires m.Valid() && m.ff in {0, 4} && m.ft in {0, 2}
    ensures var word := Filled(old0, m);
            && (forall i: nat | i < 32 ::
                  Bit(word.tmi, i) <==> || i == 0 || (i == 1 && m.ft == 2)
                                        || (m.ff == 0 && 21 <= i && Bit(m.sfid, i - 21))
                                        || (m.ff == 4 && (i == 2 || (3 <= i && Bit(m.efid, i - 3)))))
            && GetBits(word.tmp, 0, 3) == m.dlen % 16 && GetBits(word.tmp, 4, 31) == GetBits(old0.tmp, 4, 31)
            && (forall k | 0 <= k < 4 ::
                  && GetBits(word.data0, 8 * k, 8 * k + 7) == m.data[k]
                  && GetBits(word.data1, 8 * k, 8 * k + 7) == m.data[4 + k])
  {
    hide And, Or, Not, BitMask, Bits, Field, GetBits, DataWord, Bit, LowPart, Pow2;
    IdentifierBits(old0.tmi, m);
    DataRoundTrip(m.data[0], m.data[1], m.data[2], m.data[3]);
    DataRoundTrip(m.data[4], m.data[5], m.data[6], m.data[7]);
    LengthInserted(old0.tmp, m.dlen);
    LengthRoundTrip(old0.tmp, m.dlen);
    PutFrame(old0.tmp, 0, 3, m.dlen, 4, 31);
    PowersOfTwo();
    HalvedValue(m.dlen, 4);
  }

  lemma IdentifierBits(tmi: u32, m: Message)
    requires m.ff in {0, 4} && m.ft in {0, 2}
    ensures forall i: nat | i < 32 ::
              Bit(Or(Or(And(tmi, BitMask(0)), IdentifierWord(m)), BitMask(0)), i)
              <==> || i == 0 || (i == 1 && m.ft == 2)
                   || (m.ff == 0 && 21 <= i && Bit(m.sfid, i - 21))
                   || (m.ff == 4 && (i == 2 || (3 <= i && Bit(m.efid, i - 3))))
  {
    hide And, Or, BitMask, Field, Bit;
    FlagFields(m.ft);
    FlagBits();
    WordBits();
    FieldBits();
  }

  lemma FlagBits()
    ensures Bit(1, 0) && !Bit(0, 0)
  {
  }

  /** Every filled mailbox reaches the receiver. */
  lemma SomeEntryArrives(old0: Mailbox, m: Message) returns (e: Entry)
    requires m.Valid()
    ensures Carries(Filled(old0, m), e)
  {
    hide And, Or, Not, BitMask, GetBits, IdentifierWord, DataWord, Bit;
    Requested(old0, m);
    var sent := Filled(old0, m);
    e := Entry(And(sent.tmi, Not(BitMask(0))), sent.tmp, sent.data0, sent.data1);
  }

  // ----- the round trip -----

  /** The message the receiver sees is the message sent, in everything its format uses. */
  predicate SameMessage(sent: Message, received: Message) {
    && received.ff == sent.ff && received.ft == sent.ft
    && received.Identifier() == sent.Identifier()
    && received.dlen == sent.dlen && received.data == sent.data
  }

  /** What the message structure's documentation asks of a frame. */
  predicate Documented(m: Message) {
    && m.ff in {FF_STANDARD, FF_EXTENDED} && m.ft in {FT_DATA, FT_REMOTE}
    && m.Identifier() < (if m.ff == FF_STANDARD then 0x800 else 0x2000_0000)
    && m.dlen < 16
  }

  /** For every message, documented or not, and whatever the mailbox and the receiving structure
      held before: the message arrives as sent if and only if its format and type are the
      documented constants, its identifier fits its format and its length fits four bits. */
  lemma RoundTripIff(old0: Mailbox, m: Message, e: Entry, previous: Message)
    requires m.Valid() && previous.Valid() && Carries(Filled(old0, m), e)
    ensures SameMessage(m, Decoded(previous, e)) <==> Documented(m)
  {
    hide And, Or, Not, BitMask, Bits, Field, GetBits, IdentifierWord, DataWord, Bytes, LowPart;
    DataRoundTrip(m.data[0], m.data[1], m.data[2], m.data[3]);
    DataRoundTrip(m.data[4], m.data[5], m.data[6], m.data[7]);
    assert m.data == m.data[..4] + m.data[4..];
    LengthRoundTrip(old0.tmp, m.dlen);
    LengthFits(m.dlen);
    LowBitsOfByte(e.mi);
    IdentifierBounds(e.mi);
    if m.ff in {FF_STANDARD, FF_EXTENDED} && m.ft in {FT_DATA, FT_REMOTE} {
      ReceivedWord(old0.tmi, m);
      IdentifierRead(m, e.mi, previous, e);
    }
  }

  /** Where the receiver finds each part of a message; of the two identifiers the one its format does
      not use keeps its previous value. */
  lemma DecodedFields(previous: Message, e: Entry)
    requires previous.Valid()
    ensures var m, extended := Decoded(previous, e), GetBits(e.mi, 2, 2) == 1;
            && m.ff == (if extended then 4 else 0) && m.ft == 2 * GetBits(e.mi, 1, 1)
            && m.sfid == (if extended then previous.sfid else GetBits(e.mi, 21, 31))
            && m.efid == (if extended then GetBits(e.mi, 3, 31) else previous.efid)
            && m.dlen == GetBits(e.mp, 0, 3) && m.Valid()
            && (forall k | 0 <= k < 4 ::
                  m.data[k] == GetBits(e.data0, 8 * k, 8 * k + 7) && m.data[4 + k] == GetBits(e.data1, 8 * k, 8 * k + 7))
  {
    hide And, BitMask, GetBits;
    TypeAndFormat(e.mi);
    OneBitValue(e.mi, 1);
    OneBitValue(e.mi, 2);
  }

  lemma LengthFits(dlen: u8)
    ensures LowPart(dlen, 4) == dlen <==> dlen < 16
  {
    hide LowPart, Pow2;
    PowersOfTwo();
    HalvedValue(dlen, 4);
  }

  lemma IdentifierBounds(mi: u32)
    ensures GetBits(mi, 21, 31) < 0x800 && GetBits(mi, 3, 31) < 0x2000_0000
  {
    IdentifierWidths();
    GetBitsBound(mi, 21, 31);
    GetBitsBound(mi, 3, 31);
  }

  lemma IdentifierWidths()
    ensures Pow2(11) == 0x800 && Pow2(29) == 0x2000_0000
  {
    PowersOfTwo();
  }

  /** Format, type and identifier of a received word of documented format and type. */
  lemma IdentifierRead(m: Message, mi: u32, previous: Message, e: Entry)
    requires m.ff in {FF_STANDARD, FF_EXTENDED} && m.ft in {FT_DATA, FT_REMOTE} && e.mi == mi
    requires mi == Union(if m.ff == FF_STANDARD then StandardParts(m.sfid, m.ft) else ExtendedParts(m.efid, m.ft))
    ensures And(BitMask(2), mi) == m.ff && And(BitMask(1), mi) == m.ft
    ensures m.ff == FF_STANDARD && m.sfid < 0x800 ==> GetBits(mi, 21, 31) == m.sfid
    ensures m.ff == FF_EXTENDED && m.efid < 0x2000_0000 ==> GetBits(mi, 3, 31) == m.efid
  {
    hide And, BitMask, GetBits, Union, Pow2;
    TypeAndFormat(mi);
    WidthOne();
    IdentifierWidths();
    if m.ff == FF_STANDARD {
      var parts := StandardParts(m.sfid, m.ft);
      NothingWritten(parts, 2, 2);
      PartReadExactly(parts, 1);
      if m.sfid < 0x800 {
        PartReadExactly(parts, 0);
      }
    } else {
      var parts := ExtendedParts(m.efid, m.ft);
      PartReadExactly(parts, 1);
      PartReadExactly(parts, 2);
      if m.efid < 0x2000_0000 {
        PartReadExactly(parts, 0);
      }
    }
  }

  // ----- the driver -----

  class Controller {
    const tmi: array<u32>
    const tmp: array<u32>
    const data0: array<u32>
    const data1: array<u32>
    /** The mailboxes as they were when their transmission was requested. */
    ghost var launched: seq<Mailbox>

    ghost predicate Valid()
      reads this
    {
      && tmi.Length == tmp.Length == data0.Length == data1.Length == 3
      && tmi != tmp && tmi != data0 && tmi != data1 && tmp != data0 && tmp != data1 && data0 != data1
    }

    ghost function MailboxAt(k: nat): Mailbox
      requires Valid() && k < 3
      reads this, tmi, tmp, data0, data1
    {
      Mailbox(tmi[k], tmp[k], data0[k], data1[k])
    }

    constructor (a: array<u32>, b: array<u32>, c: array<u32>, d: array<u32>)
      requires a.Length == b.Length == c.Length == d.Length == 3
      requires a != b && a != c && a != d && b != c && b != d && c != d
      ensures Valid() && tmi == a && tmp == b && data0 == c && data1 == d && launched == []
    {
      tmi, tmp, data0, data1 := a, b, c, d;
      launched := [];
    }

    /** CAN_TMI |= CAN_TMI_TEN: from here on the hardware may send the mailbox. */
    method Request(k: nat)
      requires Valid() && k < 3
      modifies tmi, `launched
      ensures tmi[..] == old(tmi[..])[k := Or(old(tmi[k]), BitMask(0))]
      ensures launched == old(launched) + [MailboxAt(k)]
    {
      tmi[k] := Or(tmi[k], BitMask(0));
      launched := launched + [MailboxAt(k)];
    }

    /** can_message_transmit.  CAN_TSTAT is read up to three times and may change in between:
        `first`, `second` and `third` are what it shows.  The lowest mailbox shown empty takes the
        message; with none, nothing is written and NOMAILBOX is returned.  The length in the
        caller's structure is reduced to four bits.  The transmission is requested once, of the
        complete mailbox. */
    method Transmit(m: Message, first: u32, second: u32, third: u32) returns (mailbox: u8, m': Message)
      requires Valid() && m.Valid()
      modifies tmi, tmp, data0, data1, `launched
      ensures mailbox == if Bit(first, 26) then 0 else if Bit(second, 27) then 1
                         else if Bit(third, 28) then 2 else NOMAILBOX
      ensures mailbox == NOMAILBOX ==> m' == m && launched == old(launched)
      ensures mailbox != NOMAILBOX ==> launched == old(launched) + [Filled(old(MailboxAt(mailbox)), m)]
      ensures mailbox != NOMAILBOX ==>
                m' == m.(dlen := LowPart(m.dlen, 4)) && MailboxAt(mailbox) == Filled(old(MailboxAt(mailbox)), m)
      ensures mailbox != NOMAILBOX ==> Bit(tmi[mailbox], 0)
      ensures forall k: nat | k < 3 && k != mailbox :: MailboxAt(k) == old(MailboxAt(k))
    {
      hide And, Or, Not, BitMask, Bits, Field, Bit, LowPart;
      FlagShown(first, 26);
      FlagShown(second, 27);
      FlagShown(third, 28);
      m' := m;
      if BitMask(26) == And(first, BitMask(26)) {
        mailbox := 0;
      } else if BitMask(27) == And(second, BitMask(27)) {
        mailbox := 1;
      } else if BitMask(28) == And(third, BitMask(28)) {
        mailbox := 2;
      } else {
        return NOMAILBOX, m;
      }
      tmi[mailbox] := And(tmi[mailbox], BitMask(0));
      if m.ff == FF_STANDARD {
        tmi[mailbox] := Or(tmi[mailbox], Or(Field(21, 31, m.sfid), m.ft));
      } else {
        tmi[mailbox] := Or(tmi[mailbox], Or(Or(Field(3, 31, m.efid), m.ff), m.ft));
      }
      LengthMask(m.dlen);
      m' := m'.(dlen := And(m.dlen, Bits(0, 3)));
      tmp[mailbox] := And(tmp[mailbox], Not(Bits(0, 3)));
      tmp[mailbox] := Or(tmp[mailbox], m'.dlen);
      data0[mailbox] := DataWord(m.data[0], m.data[1], m.data[2], m.data[3]);
      data1[mailbox] := DataWord(m.data[4], m.data[5], m.data[6], m.data[7]);
      Request(mailbox);
      Requested(old(MailboxAt(mailbox)), m);
    }
  }

  lemma LengthMask(dlen: u8)
    ensures And(dlen, Bits(0, 3)) == LowPart(dlen, 4) < 16
  {
    hide GetBits, LowPart, Bits, Field, Pow2;
    PowersOfTwo();
    FullField(0, 3);
    FieldFits(0, 3, 15);
    LowBits(dlen, 4);
    LowPartBound(dlen, 4);
  }

  lemma FlagShown(w: u32, k: nat)
    requires k < 32
    ensures BitMask(k) == And(w, BitMask(k)) <==> Bit(w, k)
  {
    hide *;
    WordBits();
    FieldBits();
    assert Bit(BitMask(k), k);
    if Bit(w, k) {
      forall i: nat | i < 32
        ensures Bit(BitMask(k), i) <==> Bit(And(w, BitMask(k)), i)
      {
      }
      WordExtensionality(BitMask(k), And(w, BitMask(k)));
    }
  }
}
