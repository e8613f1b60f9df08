/** Chunks, tracks and the file: an "MThd" header chunk, then as many
    "MTrk" chunks as the header announces. */
module MidiFileDecoder {
  import opened MidiTypes
  import opened ByteSource
  import opened VariableLength
  import opened Messages
  import opened Events

  /** The header chunk's tag, "MThd". */
  const HeaderTag: seq<Byte> := [0x4D, 0x54, 0x68, 0x64]
  /** A track chunk's tag, "MTrk". */
  const TrackTag: seq<Byte> := [0x4D, 0x54, 0x72, 0x6B]

  /** `validate_chunk_header` at `pos`: four bytes (an I/O error if fewer
      remain) that must be the expected tag. */
  function DecodeChunkTag(data: seq<Byte>, pos: nat, expected: seq<Byte>): (r: Result<Parsed<()>>)
    ensures r.Ok? <==> pos + 4 <= |data| && data[pos..pos + 4] == expected
    ensures r.Ok? ==> r.value.next == pos + 4
    ensures r.Err? ==> r.error == (if pos + 4 <= |data| then Format else Io)
  {
    var tag :- ReadBytesAt(data, pos, 4);
    if tag.value != expected then Err(Format) else Ok(Parsed((), tag.next))
  }

  /** `validate_chunk_header`. */
  method ValidateChunkHeader(c: ByteCursor, expected: seq<Byte>) returns (r: Result<()>)
    modifies c
    ensures Follows(DecodeChunkTag(c.data, old(c.pos), expected), r, c.pos)
  {
    var tag :- c.ReadExact(4);
    if tag != expected {
      return Err(Format);
    }
    return Ok(());
  }

  /** No event of `events` ends the track. */
  predicate NoEndOfTrack(events: seq<MidiEvent>)
  {
    forall i :: 0 <= i < |events| ==> !IsEndOfTrack(events[i])
  }

  /** Only the last event of `events`, if any, may end the track. */
  predicate EndOfTrackOnlyLast(events: seq<MidiEvent>)
  {
    forall i :: 0 <= i < |events| - 1 ==> !IsEndOfTrack(events[i])
  }

  /** The event loop of `parse_track` from `pos`, with `acc` read so far and
      `rs` stored: events are read while the position is below `end`, and
      reading stops after an end-of-track event. What was read before is
      kept as a prefix, and an end-of-track event can only come last. */
  function DecodeEventsFrom(data: seq<Byte>, pos: nat, end: nat, rs: Option<Byte>, acc: seq<MidiEvent>)
    : (r: Result<seq<MidiEvent>>)
    decreases end - pos
    ensures r.Ok? ==> acc <= r.value
    ensures r.Ok? && NoEndOfTrack(acc) ==> EndOfTrackOnlyLast(r.value)
  {
    if pos >= end then Ok(acc)
    else
      var step :- DecodeEvent(data, pos, rs);
      var acc' := acc + [step.value.event];
      if IsEndOfTrack(step.value.event) then Ok(acc')
      else DecodeEventsFrom(data, step.next, end, step.value.runningStatus, acc')
  }

  /** An end-of-track event ends the loop, however many bytes of the
      chunk's body remain. */
  lemma EventsStopAtEndOfTrack(data: seq<Byte>, pos: nat, end: nat, rs: Option<Byte>, acc: seq<MidiEvent>)
    requires pos < end
    requires DecodeEvent(data, pos, rs).Ok?
    requires IsEndOfTrack(DecodeEvent(data, pos, rs).value.value.event)
    ensures DecodeEventsFrom(data, pos, end, rs, acc) == Ok(acc + [DecodeEvent(data, pos, rs).value.value.event])
  {
  }

  /** Any other event is kept, and the loop goes on after it with the
      status it leaves stored. */
  lemma EventsContinue(data: seq<Byte>, pos: nat, end: nat, rs: Option<Byte>, acc: seq<MidiEvent>)
    requires pos < end
    requires DecodeEvent(data, pos, rs).Ok?
    requires !IsEndOfTrack(DecodeEvent(data, pos, rs).value.value.event)
    ensures var step := DecodeEvent(data, pos, rs).value;
      DecodeEventsFrom(data, pos, end, rs, acc)
      == DecodeEventsFrom(data, step.next, end, step.value.runningStatus, acc + [step.value.event])
  {
  }

  /** `parse_track` at `pos`: the tag, the 32-bit length, the events of the
      chunk's body with no stored status at its start, and the position
      just after the body, wherever the last event ended. */
  function DecodeTrack(data: seq<Byte>, pos: nat): (r: Result<Parsed<MidiTrack>>)
  {
    var tag :- DecodeChunkTag(data, pos, TrackTag);
    var length :- ReadU32At(data, tag.next);
    var end := length.next + length.value;
    var events :- DecodeEventsFrom(data, length.next, end, None, []);
    Ok(Parsed(MidiTrack(events), end))
  }

  /** `parse_track`. */
  method ParseTrack(c: ByteCursor) returns (r: Result<MidiTrack>)
    modifies c
    ensures Follows(DecodeTrack(c.data, old(c.pos)), r, c.pos)
  {
    var tag :- ValidateChunkHeader(c, TrackTag);
    var trackLength :- c.ReadU32();
    var trackStart := c.pos;
    var end := trackStart + trackLength;
    var events: seq<MidiEvent> := [];
    var runningStatus: Option<Byte> := None;
    while c.pos < end
      invariant DecodeEventsFrom(c.data, trackStart, end, None, [])
             == DecodeEventsFrom(c.data, c.pos, end, runningStatus, events)
      decreases end - c.pos
    {
      ghost var eventStart := c.pos;
      var event, status' :- ParseEvent(c, runningStatus);
      if IsEndOfTrack(event) {
        EventsStopAtEndOfTrack(c.data, eventStart, end, runningStatus, events);
        events := events + [event];
        break;
      }
      EventsContinue(c.data, eventStart, end, runningStatus, events);
      events := events + [event];
      runningStatus := status';
    }
    if c.pos != end {
      c.Seek(end);
    }
    return Ok(MidiTrack(events));
  }

  /** The track loop of `open` from `pos`, with `count` tracks still to
      read and `acc` read so far: exactly `count` more tracks, one after
      the other. */
  function DecodeTracksFrom(data: seq<Byte>, pos: nat, count: nat, acc: seq<MidiTrack>)
    : (r: Result<seq<MidiTrack>>)
    decreases count
    ensures r.Ok? ==> |r.value| == |acc| + count && acc <= r.value
  {
    if count == 0 then Ok(acc)
    else
      var track :- DecodeTrack(data, pos);
      DecodeTracksFrom(data, track.next, count - 1, acc + [track.value])
  }

  /** After a track that decodes, the loop goes on with the next one. */
  lemma TracksContinue(data: seq<Byte>, pos: nat, count: nat, acc: seq<MidiTrack>)
    requires count > 0 && DecodeTrack(data, pos).Ok?
    ensures DecodeTracksFrom(data, pos, count, acc)
         == DecodeTracksFrom(data, DecodeTrack(data, pos).value.next, count - 1,
                             acc + [DecodeTrack(data, pos).value.value])
  {
  }

  /** The header chunk at the start of the file, as `MidiFile::open` reads
      it: the tag, a length that must be 6, then three 16-bit fields, of
      which the format must be at most 2. */
  function DecodeHeader(data: seq<Byte>): (r: Result<Parsed<MidiHeader>>)
  {
    var tag :- DecodeChunkTag(data, 0, HeaderTag);
    var headerLength :- ReadU32At(data, tag.next);
    if headerLength.value != 6 then Err(Format)
    else
      var format :- ReadU16At(data, headerLength.next);
      var numTracks :- ReadU16At(data, format.next);
      var timeDivision :- ReadU16At(data, numTracks.next);
      if format.value > 2 then Err(Format)
      else Ok(Parsed(MidiHeader(format.value, numTracks.value, timeDivision.value), timeDivision.next))
  }

  /** `MidiFile::open` on the file's contents: the header, then the
      tracks it announces. */
  function DecodeFile(data: seq<Byte>): (r: Result<MidiFile>)
  {
    var header :- DecodeHeader(data);
    var tracks :- DecodeTracksFrom(data, header.next, header.value.numTracks, []);
    Ok(MidiFile(header.value, tracks))
  }

  /** `MidiFile::open`, given the file's contents. */
  method Open(bytes: seq<Byte>) returns (r: Result<MidiFile>)
    ensures r == DecodeFile(bytes)
  {
    var file := new ByteCursor(bytes);
    var tag :- ValidateChunkHeader(file, HeaderTag);
    var headerLength :- file.ReadU32();
    if headerLength != 6 {
      return Err(Format);
    }
    var format :- file.ReadU16();
    var numTracks :- file.ReadU16();
    var timeDivision :- file.ReadU16();
    if format > 2 {
      return Err(Format);
    }
    var header := MidiHeader(format, numTracks, timeDivision);
    var tracksStart := file.pos;
    assert DecodeHeader(bytes) == Ok(Parsed(header, tracksStart));
    var tracks: seq<MidiTrack> := [];
    var i := 0;
    while i < numTracks
      invariant i <= numTracks
      invariant DecodeTracksFrom(bytes, tracksStart, numTracks, [])
             == DecodeTracksFrom(bytes, file.pos, numTracks - i, tracks)
    {
      ghost var trackStart := file.pos;
      var track :- ParseTrack(file);
      TracksContinue(bytes, trackStart, numTracks - i, tracks);
      tracks := tracks + [track];
      i := i + 1;
    }
    return Ok(MidiFile(header, tracks));
  }

  /** A decoded track ends exactly where its declared length says, however
      many bytes its events used, and only its last event can be an
      end-of-track event. */
  lemma TrackLayout(data: seq<Byte>, pos: nat)
    requires DecodeTrack(data, pos).Ok?
    ensures pos + 8 <= |data| && data[pos..pos + 4] == TrackTag
    ensures DecodeTrack(data, pos).value.next == pos + 8 + BigEndian32(data[pos + 4..pos + 8])
    ensures EndOfTrackOnlyLast(DecodeTrack(data, pos).value.value.events)
  {
  }

  /** The stored status does not carry over into a track: a first event
      that omits its status byte is a format error. */
  lemma TrackStartsWithoutRunningStatus(data: seq<Byte>, pos: nat)
    requires pos + 8 <= |data| && data[pos..pos + 4] == TrackTag
    requires BigEndian32(data[pos + 4..pos + 8]) > 0
    requires DecodeVlq(data, pos + 8).Ok?
    requires DecodeVlq(data, pos + 8).value.next < |data|
    requires data[DecodeVlq(data, pos + 8).value.next] < 0x80
    ensures DecodeTrack(data, pos) == Err(Format)
  {
    DataByteWithoutRunningStatus(data, pos + 8);
  }

  /** A track whose declared length is zero has no events. */
  lemma EmptyTrack(data: seq<Byte>, pos: nat)
    requires pos + 8 <= |data| && data[pos..pos + 4] == TrackTag
    requires data[pos + 4..pos + 8] == [0, 0, 0, 0]
    ensures DecodeTrack(data, pos) == Ok(Parsed(MidiTrack([]), pos + 8))
  {
  }

  /** A file that does not start with "MThd" is a format error. */
  lemma HeaderTagRequired(data: seq<Byte>)
    requires |data| >= 4 && data[..4] != HeaderTag
    ensures DecodeFile(data) == Err(Format)
  {
    assert data[0..4] == data[..4];
  }

  /** A header chunk whose length is not 6 is a format error. */
  lemma HeaderLengthRequired(data: seq<Byte>)
    requires |data| >= 8 && data[..4] == HeaderTag
    requires BigEndian32(data[4..8]) != 6
    ensures DecodeFile(data) == Err(Format)
  {
    assert data[0..4] == data[..4];
  }

  /** A format above 2 is a format error. */
  lemma FormatAtMostTwo(data: seq<Byte>)
    requires |data| >= 14 && data[..4] == HeaderTag
    requires BigEndian32(data[4..8]) == 6
    requires BigEndian16(data[8], data[9]) > 2
    ensures DecodeFile(data) == Err(Format)
  {
    assert data[0..4] == data[..4];
  }

  /** A decoded file has a well-formed header chunk whose three fields are
      stored as read, and exactly as many tracks as the header announces. */
  lemma DecodedFileShape(data: seq<Byte>)
    requires DecodeFile(data).Ok?
    ensures |data| >= 14 && data[..4] == HeaderTag && BigEndian32(data[4..8]) == 6
    ensures var f := DecodeFile(data).value;
      && f.header == MidiHeader(BigEndian16(data[8], data[9]),
                                BigEndian16(data[10], data[11]),
                                BigEndian16(data[12], data[13]))
      && f.header.format <= 2
      && |f.tracks| == f.header.numTracks
  {
    assert data[0..4] == data[..4];
  }

  /** Reference value: a header chunk announcing format 0, one track and
      480 ticks per quarter note. */
  lemma HeaderExample()
    ensures DecodeHeader([0x4D, 0x54, 0x68, 0x64, 0, 0, 0, 6, 0, 0, 0, 1, 0x01, 0xE0])
         == Ok(Parsed(MidiHeader(0, 1, 480), 14))
  {
    var d: seq<Byte> := [0x4D, 0x54, 0x68, 0x64, 0, 0, 0, 6, 0, 0, 0, 1, 0x01, 0xE0];
    assert d[0..4] == HeaderTag;
    assert d[4..8] == [0, 0, 0, 6];
    assert ReadU32At(d, 4) == Ok(Parsed(6, 8));
    assert d[8..10] == [0, 0];
    assert ReadU16At(d, 8) == Ok(Parsed(0, 10));
    assert d[10..12] == [0, 1];
    assert ReadU16At(d, 10) == Ok(Parsed(1, 12));
    assert d[12..14] == [0x01, 0xE0];
    assert ReadU16At(d, 12) == Ok(Parsed(480, 14));
  }
}
