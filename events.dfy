/** One event of a track: a delta-time, then a status byte or, under
    running status, a data byte that reuses the stored status. */
module Events {
  import opened MidiTypes
  import opened ByteSource
  import opened VariableLength
  import opened Messages

  /** The running status only ever holds a channel status. */
  predicate ValidRunningStatus(rs: Option<Byte>)
  {
    rs.Some? ==> IsChannelStatus(rs.value)
  }

  /** A decoded event and the running status after it. */
  datatype Step = Step(event: MidiEvent, runningStatus: Option<Byte>)

  /** `parse_event` at `pos` with stored status `rs`. A data byte in status
      position is re-read as the message's first data byte; a status below
      0xF0 is stored. Every event takes at least two bytes, and a valid
      running status stays valid. */
  function DecodeEvent(data: seq<Byte>, pos: nat, rs: Option<Byte>): (r: Result<Parsed<Step>>)
    ensures r.Ok? ==> pos + 2 <= r.value.next <= |data|
    ensures r.Ok? && ValidRunningStatus(rs) ==> ValidRunningStatus(r.value.value.runningStatus)
  {
    var delta :- DecodeVlq(data, pos);
    var first :- ReadByteAt(data, delta.next);
    if first.value < 0x80 then
      if rs.None? then Err(Format)
      else
        var message :- DecodeMessage(data, delta.next, rs.value);
        Ok(Parsed(Step(MidiEvent(delta.value, message.value), rs), message.next))
    else
      var rs' := if first.value < 0xF0 then Some(first.value) else rs;
      var message :- DecodeMessage(data, first.next, first.value);
      Ok(Parsed(Step(MidiEvent(delta.value, message.value), rs'), message.next))
  }

  /** `parse_event`: `runningStatus` is the stored status before the event,
      `status'` the one after it. */
  method ParseEvent(c: ByteCursor, runningStatus: Option<Byte>) returns (r: Result<MidiEvent>, status': Option<Byte>)
    modifies c
    ensures match DecodeEvent(c.data, old(c.pos), runningStatus)
      case Ok(p) => r == Ok(p.value.event) && status' == p.value.runningStatus && c.pos == p.next
      case Err(e) => r == Err(e)
  {
    status' := runningStatus;
    var deltaTime :- ReadVariableLength(c);
    var status :- c.ReadU8();
    if status < 0x80 {
      if runningStatus.Some? {
        // The byte just read is the message's first data byte: put it back.
        c.Seek(c.pos - 1);
        status := runningStatus.value;
      } else {
        r := Err(Format);
        return;
      }
    } else if status < 0xF0 {
      status' := Some(status);
    }
    var message :- ParseMessage(c, status);
    r := Ok(MidiEvent(deltaTime, message));
  }

  /** A data byte in status position with no stored status is a format
      error. */
  lemma DataByteWithoutRunningStatus(data: seq<Byte>, pos: nat)
    requires DecodeVlq(data, pos).Ok?
    requires DecodeVlq(data, pos).value.next < |data|
    requires data[DecodeVlq(data, pos).value.next] < 0x80
    ensures DecodeEvent(data, pos, None) == Err(Format)
  {
  }

  /** System statuses (0xF0 to 0xFF) leave the stored status as it was;
      channel statuses replace it. */
  lemma StatusByteUpdatesRunningStatus(data: seq<Byte>, pos: nat, rs: Option<Byte>)
    requires DecodeEvent(data, pos, rs).Ok?
    ensures var q := DecodeVlq(data, pos).value.next;
      && q < |data|
      && DecodeEvent(data, pos, rs).value.value.runningStatus
         == if IsChannelStatus(data[q]) then Some(data[q]) else rs
  {
  }

  /** Under running status, an event that omits its status byte decodes
      exactly like the same event with the status written out, whatever was
      stored before it; it ends one byte earlier, right after its body, and
      both leave that status stored. */
  lemma RunningStatusMatchesExplicitStatus(delta: seq<Byte>, status: Byte, body: seq<Byte>, rs: Option<Byte>)
    requires IsChannelStatus(status)
    requires DecodeVlq(delta, 0).Ok? && DecodeVlq(delta, 0).value.next == |delta|
    requires |body| > 0 && body[0] < 0x80
    ensures SameOutcome(DecodeEvent(delta + body, 0, Some(status)), 0,
                        DecodeEvent(delta + [status] + body, 0, rs), 1)
    ensures DecodeEvent(delta + body, 0, Some(status)).Ok? ==>
              && DecodeMessage(body, 0, status).Ok?
              && DecodeEvent(delta + body, 0, Some(status)).value.next
                 == |delta| + DecodeMessage(body, 0, status).value.next
  {
    var implicit := delta + body;
    var explicit := delta + [status] + body;
    var n := |delta|;
    assert implicit[..n] == delta && explicit[..n] == delta;
    assert delta[0..n] == implicit[0..n] == explicit[0..n];
    DecodeVlqPrefix(delta, implicit, 0, 0);
    DecodeVlqPrefix(delta, explicit, 0, 0);
    assert implicit[n] == body[0] && explicit[n] == status;
    assert implicit[n..] == body && explicit[n + 1..] == body;
    DecodeMessageFrame(implicit, n, body, 0, status);
    DecodeMessageFrame(explicit, n + 1, body, 0, status);
  }

  /** Reference value: an end-of-track event with no delay. */
  lemma EndOfTrackEventExample()
    ensures DecodeEvent([0x00, 0xFF, 0x2F, 0x00], 0, None) == Ok(Parsed(Step(MidiEvent(0, Meta(EndOfTrack)), None), 4))
  {
    var d: seq<Byte> := [0x00, 0xFF, 0x2F, 0x00];
    assert ReadByteAt(d, 2) == Ok(Parsed(0x2F, 3));
    assert DecodeVlq(d, 3) == Ok(Parsed(0, 4));
    assert d[4..4] == [];
    assert ReadBytesAt(d, 4, 0) == Ok(Parsed([], 4));
    assert MetaFromPayload(0x2F, []) == Ok(EndOfTrack);
    assert DecodeMeta(d, 2) == Ok(Parsed(EndOfTrack, 4));
    assert DecodeMessage(d, 2, 0xFF) == Ok(Parsed(Meta(EndOfTrack), 4));
    assert DecodeVlq(d, 0) == Ok(Parsed(0, 1));
    assert ReadByteAt(d, 1) == Ok(Parsed(0xFF, 2));
  }

  /** Reference value: under the stored status 0x93, the bytes 0x60 0x40
      0x00 are a delay of 96 ticks and a note-on of key 64 on channel 3
      with velocity 0, which is a note-off; the status stays stored. */
  lemma RunningStatusExample()
    ensures DecodeEvent([0x60, 0x40, 0x00], 0, Some(0x93))
         == Ok(Parsed(Step(MidiEvent(0x60, NoteOff(3, 0x40, 0)), Some(0x93)), 3))
  {
    var d: seq<Byte> := [0x60, 0x40, 0x00];
    assert DecodeVlq(d, 0) == Ok(Parsed(0x60, 1));
    assert ReadByteAt(d, 1) == Ok(Parsed(0x40, 2));
    assert ReadByteAt(d, 2) == Ok(Parsed(0, 3));
    assert Channel(0x93) == 3;
    assert DecodeMessage(d, 1, 0x93) == Ok(Parsed(NoteOff(3, 0x40, 0), 3));
  }
}
