/** Decoding one message body once its status byte is known: the channel
    voice messages, system exclusive data and meta-events. */
module Messages {
  import opened MidiTypes
  import opened ByteSource
  import opened VariableLength
  import opened BitArithmetic

  // ---------------------------------------------------------------------
  // Field arithmetic

  /** `status & 0x0F`: the channel of a channel message. */
  function Channel(status: Byte): (ch: Byte)
    ensures ch == status % 16 && ch < 16
  {
    LowBitsMask(status);
    BitAnd(status, 0x0F)
  }

  /** `((msb << 7) | lsb) as i16 - 8192` on `u16` operands (the combined
      value is below 2^15, so the cast keeps it). Bit 7 of the first data
      byte lands on bit 0 of the shifted second one, so the `|` adds the two
      only when one of those bits is clear. */
  function PitchBendValue(lsb: Byte, msb: Byte): (v: I16)
    ensures v + 8192 == (if lsb >= 0x80 then msb + 1 - msb % 2 else msb) * 128 + lsb % 128
  {
    BitOrShift7(msb, lsb);
    BitOrLowBit(msb, lsb / 128);
    BitOr(msb * 128, lsb) - 8192
  }

  /** `data[0] as i8`: two's complement reading of a byte. */
  function AsI8(b: Byte): (k: I8)
    ensures k % 0x100 == b
  {
    if b >= 0x80 then b - 0x100 else b
  }

  /** `2^n` */
  function Pow2(n: nat): (p: nat)
    ensures p >= 1
  {
    if n == 0 then 1 else 2 * Pow2(n - 1)
  }

  /** 2^n fits in a byte exactly when n < 8. */
  lemma {:induction false} Pow2Fits(n: nat)
    ensures Pow2(n) < 0x100 <==> n < 8
  {
    if n < 8 {
      assert Pow2(7) == 128;
      Pow2Monotone(n, 7);
    } else {
      assert Pow2(8) == 256;
      Pow2Monotone(8, n);
    }
  }

  lemma {:induction false} Pow2Monotone(m: nat, n: nat)
    requires m <= n
    ensures Pow2(m) <= Pow2(n)
    decreases n
  {
    if m < n {
      Pow2Monotone(m, n - 1);
    }
  }

  /** The time-signature denominator `1 << data[1]` as the source computes
      it on a `u8`: builds without overflow checks take the shift amount
      modulo 8 (builds with them panic instead). */
  function DenominatorAsWritten(exponent: Byte): (d: Byte)
    ensures d == Pow2(exponent) <==> exponent < 8
    ensures exponent >= 8 ==> d < Pow2(exponent)
  {
    Pow2Fits(exponent % 8);
    Pow2Fits(exponent);
    Pow2(exponent % 8)
  }

  /** An exponent of 8 gives a denominator of 1 rather than 2^8. */
  lemma DenominatorAsWrittenWraps()
    ensures DenominatorAsWritten(8) == 1 != Pow2(8)
  {
    assert Pow2(8) == 256;
  }

  /** The time-signature denominator 2^exponent, rejected as a format error
      when it does not fit the `u8` field. */
  function Denominator(exponent: Byte): (r: Result<Byte>)
    ensures r.Ok? <==> Pow2(exponent) < 0x100
    ensures r.Ok? ==> r.value == Pow2(exponent)
    ensures r.Err? ==> r.error == Format
  {
    Pow2Fits(exponent);
    if exponent < 8 then Ok(Pow2(exponent)) else Err(Format)
  }

  // ---------------------------------------------------------------------
  // Meta-events

  /** The meta-event types the decoder knows. */
  predicate KnownMetaType(t: Byte)
  {
    t <= 0x07 || t == 0x2F || t == 0x51 || t == 0x58 || t == 0x59 || t == 0x7F
  }

  /** The payload length a meta-event type demands, if any. */
  function FixedMetaLength(t: Byte): Option<nat>
  {
    if t == 0x00 then Some(2)
    else if t == 0x2F then Some(0)
    else if t == 0x51 then Some(3)
    else if t == 0x58 then Some(4)
    else if t == 0x59 then Some(2)
    else None
  }

  /** The meta-type dispatch on a payload already read in full. */
  function MetaFromPayload(metaType: Byte, payload: seq<Byte>): (r: Result<MetaEvent>)
    ensures r.Ok? && r.value.SetTempo? ==> r.value.microsPerQuarter < 0x100_0000
    ensures r.Err? && r.error == Unsupported <==> !KnownMetaType(metaType)
  {
    match metaType
    case 0x00 =>
      if |payload| != 2 then Err(Format)
      else Ok(SequenceNumber(BigEndian16(payload[0], payload[1])))
    case 0x01 => Ok(Text(payload))
    case 0x02 => Ok(CopyrightNotice(payload))
    case 0x03 => Ok(TrackName(payload))
    case 0x04 => Ok(InstrumentName(payload))
    case 0x05 => Ok(Lyrics(payload))
    case 0x06 => Ok(Marker(payload))
    case 0x07 => Ok(CuePoint(payload))
    case 0x2F =>
      if |payload| != 0 then Err(Format) else Ok(EndOfTrack)
    case 0x51 =>
      if |payload| != 3 then Err(Format)
      else Ok(SetTempo((payload[0] as int) * 0x1_0000 + (payload[1] as int) * 0x100 + payload[2]))
    case 0x58 =>
      if |payload| != 4 then Err(Format)
      else
        var denominator :- Denominator(payload[1]);
        Ok(TimeSignature(payload[0], denominator, payload[2], payload[3]))
    case 0x59 =>
      if |payload| != 2 then Err(Format)
      else Ok(KeySignature(AsI8(payload[0]), payload[1]))
    case 0x7F => Ok(SequencerSpecific(payload))
    case _ => Err(Unsupported)
  }

  /** A meta-event after its 0xFF status: type byte, length, payload. */
  function DecodeMeta(data: seq<Byte>, pos: nat): (r: Result<Parsed<MetaEvent>>)
    ensures r.Ok? ==> pos + 2 <= r.value.next <= |data|
  {
    var metaType :- ReadByteAt(data, pos);
    var length :- DecodeVlq(data, metaType.next);
    var payload :- ReadBytesAt(data, length.next, length.value);
    var event :- MetaFromPayload(metaType.value, payload.value);
    Ok(Parsed(event, payload.next))
  }

  /** The meta-event branch of `parse_message`. */
  method ParseMeta(c: ByteCursor) returns (r: Result<MetaEvent>)
    modifies c
    ensures Follows(DecodeMeta(c.data, old(c.pos)), r, c.pos)
  {
    var metaType :- c.ReadU8();
    var length :- ReadVariableLength(c);
    var payload :- c.ReadExact(length);
    r := MetaFromPayload(metaType, payload);
  }

  // ---------------------------------------------------------------------
  // System exclusive

  /** The system-exclusive loop from `pos` on, having collected `acc`: the
      payload is every byte before the first 0xF7, which is consumed too. */
  function DecodeSysExFrom(data: seq<Byte>, pos: nat, acc: seq<Byte>): (r: Result<Parsed<seq<Byte>>>)
    decreases |data| - pos
    ensures r.Ok? ==> pos < r.value.next <= |data| && data[r.value.next - 1] == 0xF7
                      && r.value.value == acc + data[pos..r.value.next - 1]
                      && 0xF7 !in data[pos..r.value.next - 1]
    ensures r.Err? ==> r.error == Io && (pos <= |data| ==> 0xF7 !in data[pos..])
  {
    if pos >= |data| then Err(Io)
    else if data[pos] == 0xF7 then Ok(Parsed(acc, pos + 1))
    else DecodeSysExFrom(data, pos + 1, acc + [data[pos]])
  }

  function DecodeSysEx(data: seq<Byte>, pos: nat): Result<Parsed<seq<Byte>>>
  {
    DecodeSysExFrom(data, pos, [])
  }

  /** The system-exclusive loop of `parse_message`. */
  method ReadSysEx(c: ByteCursor) returns (r: Result<seq<Byte>>)
    modifies c
    ensures Follows(DecodeSysEx(c.data, old(c.pos)), r, c.pos)
  {
    var payload: seq<Byte> := [];
    while true
      invariant DecodeSysEx(c.data, old(c.pos)) == DecodeSysExFrom(c.data, c.pos, payload)
      decreases |c.data| - c.pos
    {
      ghost var p := c.pos;
      var b :- c.ReadU8();
      SysExStep(c.data, p, payload);
      if b == 0xF7 {
        break;
      }
      payload := payload + [b];
    }
    return Ok(payload);
  }

  /** One step of the system-exclusive loop: 0xF7 ends it, any other byte
      is collected. */
  lemma SysExStep(data: seq<Byte>, pos: nat, acc: seq<Byte>)
    requires pos < |data|
    ensures DecodeSysExFrom(data, pos, acc)
         == if data[pos] == 0xF7 then Ok(Parsed(acc, pos + 1)) else DecodeSysExFrom(data, pos + 1, acc + [data[pos]])
  {
  }

  // ---------------------------------------------------------------------
  // Messages

  /** `parse_message`: the body of the message whose status is `status`,
      starting at `pos`. */
  function DecodeMessage(data: seq<Byte>, pos: nat, status: Byte): (r: Result<Parsed<MidiMessage>>)
    ensures r.Ok? ==> pos < r.value.next <= |data|
  {
    if 0x80 <= status <= 0x8F then
      var note :- ReadByteAt(data, pos);
      var velocity :- ReadByteAt(data, note.next);
      Ok(Parsed(NoteOff(Channel(status), note.value, velocity.value), velocity.next))
    else if 0x90 <= status <= 0x9F then
      var note :- ReadByteAt(data, pos);
      var velocity :- ReadByteAt(data, note.next);
      if velocity.value == 0 then Ok(Parsed(NoteOff(Channel(status), note.value, velocity.value), velocity.next))
      else Ok(Parsed(NoteOn(Channel(status), note.value, velocity.value), velocity.next))
    else if 0xA0 <= status <= 0xAF then
      var note :- ReadByteAt(data, pos);
      var pressure :- ReadByteAt(data, note.next);
      Ok(Parsed(PolyphonicKeyPressure(Channel(status), note.value, pressure.value), pressure.next))
    else if 0xB0 <= status <= 0xBF then
      var controller :- ReadByteAt(data, pos);
      var value :- ReadByteAt(data, controller.next);
      Ok(Parsed(ControlChange(Channel(status), controller.value, value.value), value.next))
    else if 0xC0 <= status <= 0xCF then
      var program :- ReadByteAt(data, pos);
      Ok(Parsed(ProgramChange(Channel(status), program.value), program.next))
    else if 0xD0 <= status <= 0xDF then
      var pressure :- ReadByteAt(data, pos);
      Ok(Parsed(ChannelPressure(Channel(status), pressure.value), pressure.next))
    else if 0xE0 <= status <= 0xEF then
      var lsb :- ReadByteAt(data, pos);
      var msb :- ReadByteAt(data, lsb.next);
      Ok(Parsed(PitchBendChange(Channel(status), PitchBendValue(lsb.value, msb.value)), msb.next))
    else if status == 0xF0 then
      var payload :- DecodeSysEx(data, pos);
      Ok(Parsed(SysEx(payload.value), payload.next))
    else if status == 0xFF then
      var meta :- DecodeMeta(data, pos);
      Ok(Parsed(Meta(meta.value), meta.next))
    else
      Err(Unsupported)
  }

  /** `parse_message`. */
  method ParseMessage(c: ByteCursor, status: Byte) returns (r: Result<MidiMessage>)
    modifies c
    ensures Follows(DecodeMessage(c.data, old(c.pos), status), r, c.pos)
  {
    if 0x80 <= status <= 0x8F {
      var channel := Channel(status);
      var note :- c.ReadU8();
      var velocity :- c.ReadU8();
      r := Ok(NoteOff(channel, note, velocity));
    } else if 0x90 <= status <= 0x9F {
      var channel := Channel(status);
      var note :- c.ReadU8();
      var velocity :- c.ReadU8();
      if velocity == 0 {
        r := Ok(NoteOff(channel, note, velocity));
      } else {
        r := Ok(NoteOn(channel, note, velocity));
      }
    } else if 0xA0 <= status <= 0xAF {
      var channel := Channel(status);
      var note :- c.ReadU8();
      var pressure :- c.ReadU8();
      r := Ok(PolyphonicKeyPressure(channel, note, pressure));
    } else if 0xB0 <= status <= 0xBF {
      var channel := Channel(status);
      var controller :- c.ReadU8();
      var value :- c.ReadU8();
      r := Ok(ControlChange(channel, controller, value));
    } else if 0xC0 <= status <= 0xCF {
      var channel := Channel(status);
      var program :- c.ReadU8();
      r := Ok(ProgramChange(channel, program));
    } else if 0xD0 <= status <= 0xDF {
      var channel := Channel(status);
      var pressure :- c.ReadU8();
      r := Ok(ChannelPressure(channel, pressure));
    } else if 0xE0 <= status <= 0xEF {
      var channel := Channel(status);
      var lsb :- c.ReadU8();
      var msb :- c.ReadU8();
      r := Ok(PitchBendChange(channel, PitchBendValue(lsb, msb)));
    } else if status == 0xF0 {
      var payload :- ReadSysEx(c);
      r := Ok(SysEx(payload));
    } else if status == 0xFF {
      var meta :- ParseMeta(c);
      r := Ok(Meta(meta));
    } else {
      r := Err(Unsupported);
    }
  }

  // ---------------------------------------------------------------------
  // Properties

  /** The channel voice and mode statuses, 0x80 to 0xEF. */
  predicate IsChannelStatus(status: Byte)
  {
    0x80 <= status < 0xF0
  }

  /** How many data bytes follow a channel status: one for program change
      and channel pressure, two for the others. */
  function BodyLength(status: Byte): nat
  {
    if 0xC0 <= status < 0xE0 then 1 else 2
  }

  /** The channel a message is addressed to, if it is a channel message. */
  function MessageChannel(m: MidiMessage): Option<Byte>
  {
    match m
    case NoteOn(ch, _, _) => Some(ch)
    case NoteOff(ch, _, _) => Some(ch)
    case PolyphonicKeyPressure(ch, _, _) => Some(ch)
    case ControlChange(ch, _, _) => Some(ch)
    case ProgramChange(ch, _) => Some(ch)
    case ChannelPressure(ch, _) => Some(ch)
    case PitchBendChange(ch, _) => Some(ch)
    case Meta(_) => None
    case SysEx(_) => None
  }

  /** The data bytes a message keeps as they were, in file order. */
  function StoredBytes(m: MidiMessage): seq<Byte>
  {
    match m
    case NoteOn(_, note, velocity) => [note, velocity]
    case NoteOff(_, note, velocity) => [note, velocity]
    case PolyphonicKeyPressure(_, note, pressure) => [note, pressure]
    case ControlChange(_, controller, value) => [controller, value]
    case ProgramChange(_, program) => [program]
    case ChannelPressure(_, pressure) => [pressure]
    case PitchBendChange(_, _) => []
    case Meta(_) => []
    case SysEx(payload) => payload
  }

  /** The message kind the high nibble of a channel status selects; under
      0x9n the velocity decides between note-on and note-off. */
  predicate KindMatches(status: Byte, m: MidiMessage)
  {
    match status / 16
    case 0x8 => m.NoteOff?
    case 0x9 => (m.NoteOn? || m.NoteOff?) && (m.NoteOn? <==> m.velocity > 0)
    case 0xA => m.PolyphonicKeyPressure?
    case 0xB => m.ControlChange?
    case 0xC => m.ProgramChange?
    case 0xD => m.ChannelPressure?
    case 0xE => m.PitchBendChange?
    case _ => false
  }

  /** A channel message consumes exactly its body: it fails only on a short
      read, and otherwise has the kind of its status' high nibble, the
      channel of its low nibble, and keeps its data bytes in order (pitch
      bend combines them). */
  lemma ChannelMessageShape(data: seq<Byte>, pos: nat, status: Byte)
    requires IsChannelStatus(status)
    ensures var r := DecodeMessage(data, pos, status);
      && (r.Ok? <==> pos + BodyLength(status) <= |data|)
      && (r.Err? ==> r.error == Io)
      && (r.Ok? ==>
            && r.value.next == pos + BodyLength(status)
            && MessageChannel(r.value.value) == Some(status % 16)
            && KindMatches(status, r.value.value)
            && (status < 0xE0 ==> StoredBytes(r.value.value) == data[pos..r.value.next]))
  {
    var r := DecodeMessage(data, pos, status);
    if r.Ok? && status < 0xE0 {
      if BodyLength(status) == 1 {
        assert data[pos..r.value.next] == [data[pos]];
      } else {
        assert data[pos..r.value.next] == [data[pos], data[pos + 1]];
      }
    }
  }

  /** A note-on with a non-zero velocity stays a note-on, with the channel
      of the status and the note and velocity bytes as read. */
  lemma NoteOnWithVelocity(data: seq<Byte>, pos: nat, status: Byte)
    requires 0x90 <= status <= 0x9F
    requires pos + 2 <= |data| && data[pos + 1] > 0
    ensures DecodeMessage(data, pos, status) == Ok(Parsed(NoteOn(status % 16, data[pos], data[pos + 1]), pos + 2))
  {
  }

  /** A note-on with velocity 0 is a note-off on the same channel for the
      same note. */
  lemma NoteOnZeroVelocityIsNoteOff(data: seq<Byte>, pos: nat, status: Byte)
    requires 0x90 <= status <= 0x9F
    requires pos + 2 <= |data| && data[pos + 1] == 0
    ensures DecodeMessage(data, pos, status) == Ok(Parsed(NoteOff(status % 16, data[pos], 0), pos + 2))
  {
  }

  /** Every decoded note-on comes from a 0x9n status and is audible. */
  lemma DecodedNoteOnIsAudible(data: seq<Byte>, pos: nat, status: Byte)
    requires DecodeMessage(data, pos, status).Ok?
    requires DecodeMessage(data, pos, status).value.value.NoteOn?
    ensures 0x90 <= status <= 0x9F
    ensures DecodeMessage(data, pos, status).value.value.velocity > 0
  {
  }

  /** For data bytes, the pitch bend is the 14-bit value (second byte most
      significant) re-centred on zero. */
  lemma PitchBendOfDataBytes(lsb: Byte, msb: Byte)
    requires lsb < 0x80 && msb < 0x80
    ensures PitchBendValue(lsb, msb) == msb * 128 + lsb - 8192
    ensures -8192 <= PitchBendValue(lsb, msb) <= 8191
  {
  }

  /** The centre position 0x00 0x40 is no bend at all. */
  lemma PitchBendCentre()
    ensures PitchBendValue(0x00, 0x40) == 0
  {
  }

  /** A pitch-bend message reads its least significant byte first. */
  lemma PitchBendByteOrder(data: seq<Byte>, pos: nat, status: Byte)
    requires 0xE0 <= status <= 0xEF && pos + 2 <= |data|
    ensures DecodeMessage(data, pos, status)
         == Ok(Parsed(PitchBendChange(status % 16, PitchBendValue(data[pos], data[pos + 1])), pos + 2))
  {
  }

  /** Statuses outside the channel range, 0xF0 and 0xFF are refused without
      reading anything. */
  lemma UnsupportedStatus(data: seq<Byte>, pos: nat, status: Byte)
    requires status < 0x80 || 0xF1 <= status <= 0xFE
    ensures DecodeMessage(data, pos, status) == Err(Unsupported)
  {
  }

  /** A system-exclusive message holds the bytes before the first 0xF7 and
      consumes that terminator; without one it is a short read. */
  lemma SysExPayload(data: seq<Byte>, pos: nat)
    requires pos <= |data|
    ensures var r := DecodeMessage(data, pos, 0xF0);
      && (r.Ok? <==> 0xF7 in data[pos..])
      && (r.Err? ==> r.error == Io)
      && (r.Ok? ==> && r.value.value == SysEx(data[pos..r.value.next - 1])
                    && data[r.value.next - 1] == 0xF7
                    && 0xF7 !in r.value.value.payload)
  {
    var r := DecodeSysEx(data, pos);
    if r.Ok? {
      var k := r.value.next - 1;
      assert data[pos..][k - pos] == 0xF7;
    }
  }

  /** The meta-event types with a fixed payload length refuse any other
      length as a format error, and accept that length. */
  lemma MetaFixedLengthEnforced(metaType: Byte, payload: seq<Byte>)
    requires FixedMetaLength(metaType).Some?
    ensures |payload| != FixedMetaLength(metaType).value ==> MetaFromPayload(metaType, payload) == Err(Format)
    ensures |payload| == FixedMetaLength(metaType).value && (metaType == 0x58 ==> payload[1] < 8)
            ==> MetaFromPayload(metaType, payload).Ok?
  {
  }

  /** The text-like meta-events and sequencer-specific data take a payload
      of any length and keep it verbatim. */
  lemma MetaPayloadKept(metaType: Byte, payload: seq<Byte>)
    requires KnownMetaType(metaType) && FixedMetaLength(metaType).None?
    ensures MetaFromPayload(metaType, payload).Ok?
    ensures var e := MetaFromPayload(metaType, payload).value;
      if metaType == 0x7F then e == SequencerSpecific(payload) else e.text == payload
  {
  }

  /** The numeric meta-events are their payloads read big-endian: sequence
      number (16 bits) and tempo (24 bits); a key signature's key is the
      first byte as a signed value. */
  lemma MetaNumbers(payload: seq<Byte>)
    ensures |payload| == 2 ==>
      MetaFromPayload(0x00, payload) == Ok(SequenceNumber((payload[0] as int) * 0x100 + payload[1]))
    ensures |payload| == 3 ==>
      MetaFromPayload(0x51, payload)
        == Ok(SetTempo((payload[0] as int) * 0x1_0000 + (payload[1] as int) * 0x100 + payload[2]))
    ensures |payload| == 2 ==>
      MetaFromPayload(0x59, payload).Ok? && MetaFromPayload(0x59, payload).value.scale == payload[1]
      && MetaFromPayload(0x59, payload).value.key == AsI8(payload[0])
  {
  }

  /** The time signature keeps three bytes and turns the second into the
      denominator 2^n. */
  lemma TimeSignatureFields(payload: seq<Byte>)
    requires |payload| == 4 && payload[1] < 8
    ensures var r := MetaFromPayload(0x58, payload);
      && r.Ok? && r.value.TimeSignature?
      && r.value.numerator == payload[0] && r.value.denominator == Pow2(payload[1])
      && r.value.clocksPerMetronome == payload[2] && r.value.thirtySecondsPerQuarter == payload[3]
  {
  }

  /** A meta-event occupies its type byte, its length and exactly that many
      payload bytes. */
  lemma MetaLayout(data: seq<Byte>, pos: nat)
    requires DecodeMeta(data, pos).Ok?
    ensures pos < |data| && DecodeVlq(data, pos + 1).Ok?
    ensures DecodeMeta(data, pos).value.next
         == DecodeVlq(data, pos + 1).value.next + DecodeVlq(data, pos + 1).value.value
  {
  }

  /** A tempo meta-event read from the bytes: type 0x51, length 3, and the
      three payload bytes as a big-endian 24-bit number of microseconds per
      quarter note. */
  lemma SetTempoLayout(data: seq<Byte>, pos: nat)
    requires pos + 5 <= |data| && data[pos] == 0x51 && data[pos + 1] == 3
    ensures DecodeMeta(data, pos)
         == Ok(Parsed(SetTempo((data[pos + 2] as int) * 0x1_0000 + (data[pos + 3] as int) * 0x100 + data[pos + 4]), pos + 5))
  {
    var payload := data[pos + 2..pos + 5];
    assert MetaFromPayload(0x51, payload)
        == Ok(SetTempo((data[pos + 2] as int) * 0x1_0000 + (data[pos + 3] as int) * 0x100 + data[pos + 4]));
    assert ReadBytesAt(data, pos + 2, 3) == Ok(Parsed(payload, pos + 5));
    assert ReadByteAt(data, pos) == Ok(Parsed(0x51, pos + 1));
    DecodeVlqOneByte(data, pos + 1);
  }

  // ---------------------------------------------------------------------
  // Decoding depends only on the bytes from the read position on

  lemma ReadByteFrame(d1: seq<Byte>, p1: nat, d2: seq<Byte>, p2: nat)
    requires SameSuffix(d1, p1, d2, p2)
    ensures SameOutcome(ReadByteAt(d1, p1), p1, ReadByteAt(d2, p2), p2)
  {
    SameSuffixAdvance(d1, p1, d2, p2, 0);
  }

  lemma {:induction false} DecodeSysExFrame(d1: seq<Byte>, p1: nat, d2: seq<Byte>, p2: nat, acc: seq<Byte>)
    requires SameSuffix(d1, p1, d2, p2)
    ensures SameOutcome(DecodeSysExFrom(d1, p1, acc), p1, DecodeSysExFrom(d2, p2, acc), p2)
    decreases |d1| - p1
  {
    if p1 < |d1| {
      SameSuffixAdvance(d1, p1, d2, p2, 0);
      SameSuffixAdvance(d1, p1, d2, p2, 1);
      if d1[p1] != 0xF7 {
        DecodeSysExFrame(d1, p1 + 1, d2, p2 + 1, acc + [d1[p1]]);
      }
    }
  }

  lemma DecodeMetaFrame(d1: seq<Byte>, p1: nat, d2: seq<Byte>, p2: nat)
    requires SameSuffix(d1, p1, d2, p2)
    ensures SameOutcome(DecodeMeta(d1, p1), p1, DecodeMeta(d2, p2), p2)
  {
    ReadByteFrame(d1, p1, d2, p2);
    if p1 < |d1| {
      SameSuffixAdvance(d1, p1, d2, p2, 1);
      DecodeVlqFrame(d1, p1 + 1, d2, p2 + 1, 0);
      var len := DecodeVlq(d1, p1 + 1);
      if len.Ok? {
        SameSuffixAdvance(d1, p1, d2, p2, len.value.next - p1);
        ReadBytesFrame(d1, len.value.next, d2, len.value.next - p1 + p2, len.value.value);
      }
    }
  }

  /** A message decodes from its own bytes alone: the same bytes at another
      position, in another file, give the same message after the same
      number of bytes, or the same error. */
  lemma DecodeMessageFrame(d1: seq<Byte>, p1: nat, d2: seq<Byte>, p2: nat, status: Byte)
    requires SameSuffix(d1, p1, d2, p2)
    ensures SameOutcome(DecodeMessage(d1, p1, status), p1, DecodeMessage(d2, p2, status), p2)
  {
    if status == 0xF0 {
      DecodeSysExFrame(d1, p1, d2, p2, []);
    } else if status == 0xFF {
      DecodeMetaFrame(d1, p1, d2, p2);
    } else if IsChannelStatus(status) {
      ReadByteFrame(d1, p1, d2, p2);
      if p1 < |d1| {
        SameSuffixAdvance(d1, p1, d2, p2, 1);
        ReadByteFrame(d1, p1 + 1, d2, p2 + 1);
      }
    }
  }
}
