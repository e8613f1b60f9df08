/** The values a Standard MIDI File decodes to, and the error and result
    types every decoding step returns. */
module MidiTypes {

  /** An unsigned 8-bit value (`u8`). */
  type Byte = x: int | 0 <= x < 0x100
  /** An unsigned 16-bit value (`u16`). */
  type U16 = x: int | 0 <= x < 0x1_0000
  /** An unsigned 32-bit value (`u32`). */
  type U32 = x: int | 0 <= x < 0x1_0000_0000
  /** A signed 8-bit value (`i8`). */
  type I8 = x: int | -0x80 <= x < 0x80
  /** A signed 16-bit value (`i16`). */
  type I16 = x: int | -0x8000 <= x < 0x8000

  /** The kind of a decoding failure: a short read, a structural violation,
      or a feature the decoder does not handle. */
  datatype MidiError = Io | Format | Unsupported

  datatype Option<T> = None | Some(value: T)

  /** The outcome of a decoding step; usable with `:-`. */
  datatype Result<T> = Ok(value: T) | Err(error: MidiError) {
    predicate IsFailure() { Err? }

    function PropagateFailure<U>(): Result<U>
      requires Err?
    {
      Err(error)
    }

    function Extract(): T
      requires Ok?
    {
      value
    }
  }

  /** A decoded value together with the absolute position just after it. */
  datatype Parsed<T> = Parsed(value: T, next: nat)

  /** A method's result `r` and final cursor position `pos` are those the
      specification `spec` describes (on failure, the position is left
      unspecified: the whole decode is abandoned). */
  ghost predicate Follows<T>(spec: Result<Parsed<T>>, r: Result<T>, pos: nat)
  {
    match spec
    case Ok(p) => r == Ok(p.value) && pos == p.next
    case Err(e) => r == Err(e)
  }

  /** Two decoding outcomes agree up to where they started: the same error,
      or the same value after the same number of bytes. */
  ghost predicate SameOutcome<T>(r1: Result<Parsed<T>>, start1: nat, r2: Result<Parsed<T>>, start2: nat)
  {
    match r1
    case Err(e) => r2 == Err(e)
    case Ok(p1) => r2.Ok? && r2.value.value == p1.value && p1.next - start1 == r2.value.next - start2
  }

  datatype MetaEvent =
    | SequenceNumber(number: U16)
    | Text(text: seq<Byte>)
    | CopyrightNotice(text: seq<Byte>)
    | TrackName(text: seq<Byte>)
    | InstrumentName(text: seq<Byte>)
    | Lyrics(text: seq<Byte>)
    | Marker(text: seq<Byte>)
    | CuePoint(text: seq<Byte>)
    | EndOfTrack
    | SetTempo(microsPerQuarter: U32)
    | TimeSignature(numerator: Byte, denominator: Byte, clocksPerMetronome: Byte, thirtySecondsPerQuarter: Byte)
    | KeySignature(key: I8, scale: Byte)
    | SequencerSpecific(payload: seq<Byte>)

  datatype MidiMessage =
    | NoteOn(channel: Byte, note: Byte, velocity: Byte)
    | NoteOff(channel: Byte, note: Byte, velocity: Byte)
    | PolyphonicKeyPressure(channel: Byte, note: Byte, pressure: Byte)
    | ControlChange(channel: Byte, controller: Byte, value: Byte)
    | ProgramChange(channel: Byte, program: Byte)
    | ChannelPressure(channel: Byte, pressure: Byte)
    | PitchBendChange(channel: Byte, bend: I16)
    | Meta(meta: MetaEvent)
    | SysEx(payload: seq<Byte>)

  datatype MidiEvent = MidiEvent(deltaTime: U32, message: MidiMessage)

  datatype MidiTrack = MidiTrack(events: seq<MidiEvent>)

  datatype MidiHeader = MidiHeader(format: U16, numTracks: U16, timeDivision: U16)

  datatype MidiFile = MidiFile(header: MidiHeader, tracks: seq<MidiTrack>)

  predicate IsEndOfTrack(e: MidiEvent)
  {
    e.message == Meta(EndOfTrack)
  }
}
