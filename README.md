# midi_oxide decoder, modelled in Dafny

This project models the Standard MIDI File decoder in `src/main.rs` of
midi_oxide: `MidiFile::open` and the associated functions it calls,
`validate_chunk_header`, `parse_track`, `parse_event`, `parse_message` and
`read_variable_length`. The file is a byte sequence. The open `File` is a
`ByteCursor` object: the bytes and an absolute read position that the decoding
methods advance, as `read_u8`, `read_exact`, `read_u16`/`read_u32`
(big-endian) and `seek` do. Reading at or past the end is the I/O error.

Each decoding method is proved against a specification function. The function
takes the bytes and a start position and returns the decoded value and the
position just after it, or the error kind (`Io`, `Format`, `Unsupported`).
Where the source loops, the function takes an accumulator:
- the 7-bit groups of a variable-length quantity;
- the bytes of a system-exclusive message;
- the events of a track;
- the tracks of a file.

The loop invariant is then "what the whole decode returns is what the rest of
the decode returns from here". The properties of the format are lemmas about
these functions.

Files:
- `types.dfy`: the decoded values (`MidiFile`, `MidiHeader`, `MidiTrack`,
  `MidiEvent`, `MidiMessage`, `MetaEvent`), the fixed-width integers and the
  error kind.
- `bits.dfy`: bitwise AND and OR on naturals, and the facts that turn the
  masks and shifts of the decoder into arithmetic.
- `byte_source.dfy`: the cursor and its reads.
- `vlq.dfy`: variable-length quantities.
- `messages.dfy`: `parse_message`. This covers channel messages, system
  exclusive messages and meta-events.
- `events.dfy`: `parse_event` and running status.
- `midi_file.dfy`: chunk tags, `parse_track` and `MidiFile::open`.

## Model

| member | source | states |
|---|---|---|
| ByteSource.ByteCursor.ReadU8 | src/main.rs:215 | reads the byte at the position and advances by one; at the end it is the I/O error |
| ByteSource.ByteCursor.ReadExact | src/main.rs:159-160 | reads exactly `n` bytes and advances by `n`; if fewer remain it is the I/O error |
| ByteSource.ByteCursor.ReadU16 | src/main.rs:130-132 | two bytes, most significant first |
| ByteSource.ByteCursor.ReadU32 | src/main.rs:121 | four bytes, most significant first |
| ByteSource.ByteCursor.Seek | src/main.rs:197-201 | sets the position, even past the end or backwards |
| ByteSource.BigEndian16 | src/main.rs:130-132 | the high byte is the value divided by 256 and the low byte is its remainder |
| ByteSource.BigEndian32 | src/main.rs:121 | each of the four bytes is recovered from its own 8-bit slice of the value, most significant first |
| VariableLength.ShiftIn | src/main.rs:441 | `(value << 7) \| (byte & 0x7F)` on a u32 is `(value * 128 + byte mod 128) mod 2^32` |
| VariableLength.ShiftInBits | src/main.rs:441 | `ShiftIn` equals the bitwise OR of the shifted value, truncated to 32 bits, with the byte masked by 0x7F |
| VariableLength.DecodeVlqFrom | src/main.rs:439-445 | success means a byte with the high bit clear exists; decoding stops right after the first such byte, and every byte before it has the high bit set; running out first is the I/O error, and then every remaining byte has the high bit set |
| VariableLength.ReadVariableLength | src/main.rs:437-447 | the loop returns what `DecodeVlq` specifies and leaves the cursor just after the terminal byte |
| VariableLength.GroupsValueBound | src/main.rs:441 | n groups of 7 bits hold a value below 128^n |
| VariableLength.DecodeVlqValue | src/main.rs:437-447 | the result is the big-endian value of the 7-bit groups up to and including the terminal byte, reduced modulo 2^32 |
| VariableLength.DecodeVlqShort | src/main.rs:437-447 | with at most four bytes nothing is lost: the result is the exact group value, below 2^28 |
| VariableLength.DecodeVlqOneByte | src/main.rs:440-443 | a byte below 0x80 alone is a whole quantity equal to itself |
| VariableLength.DecodeVlqExample128 | src/main.rs:437-447 | 0x81 0x00 decodes to 128 and uses two bytes |
| VariableLength.DecodeVlqExample16383 | src/main.rs:437-447 | 0xFF 0x7F decodes to 16383, and the byte after it is not read |
| VariableLength.DecodeVlqFrame | src/main.rs:437-447 | decoding depends only on the bytes from the start position on |
| VariableLength.DecodeVlqPrefix | src/main.rs:437-447 | decoding reads nothing past the terminal byte |
| Messages.Channel | src/main.rs:249 | `status & 0x0F` is the status modulo 16, so it is below 16 |
| BitArithmetic.LowBitsMask | src/main.rs:249 | masking with 2^k - 1 (1, 3, ..., 127) keeps the value modulo 2^k |
| Messages.PitchBendValue | src/main.rs:321-323 | the bend plus 8192 is the second byte times 128 plus the low 7 bits of the first; bit 7 of the first byte is OR-ed into bit 0 of the second |
| Messages.AsI8 | src/main.rs:416 | `as i8` is the value congruent to the byte modulo 256 |
| Messages.Pow2Fits | src/main.rs:404 | 2^n fits a u8 exactly when n < 8 |
| Messages.DenominatorAsWritten | src/main.rs:404 | `1 << data[1]` on a u8 in a release build equals 2^exponent exactly when the exponent is below 8; from 8 on it is smaller than 2^exponent |
| Messages.DenominatorAsWrittenWraps | src/main.rs:404 | an exponent of 8 gives a denominator of 1, not 2^8 |
| Messages.Denominator | src/main.rs:404 | succeeds exactly when 2^exponent fits a u8, and is then 2^exponent; otherwise it is a format error |
| Messages.MetaFromPayload | src/main.rs:347-425 | a tempo is below 2^24; the result is Unsupported exactly for the meta types the decoder does not know |
| Messages.DecodeMeta | src/main.rs:341-345 | a meta-event uses at least its type byte and its one-byte-or-longer length, and never more bytes than exist |
| Messages.ParseMeta | src/main.rs:341-426 | the cursor version returns what `DecodeMeta` specifies and ends where it says |
| Messages.DecodeSysExFrom | src/main.rs:329-336 | success means a 0xF7 exists; the payload is the bytes before the first 0xF7, which is consumed; with no 0xF7 it is the I/O error |
| Messages.ReadSysEx | src/main.rs:328-338 | the collecting loop returns what `DecodeSysEx` specifies and ends where it says |
| Messages.DecodeMessage | src/main.rs:245-434 | a decoded message uses at least one byte and never more bytes than exist |
| Messages.ParseMessage | src/main.rs:245-434 | the cursor version returns what `DecodeMessage` specifies and ends where it says |
| Messages.ChannelMessageShape | src/main.rs:248-325 | for 0x80-0xEF: succeeds exactly when the body fits (1 byte for 0xCn/0xDn, 2 for the others) and consumes exactly that; the kind follows the high nibble, and under 0x9n it is NoteOn exactly when the velocity is above 0 and NoteOff otherwise; the channel is the low nibble; for statuses below 0xE0 the data bytes are kept in order (pitch bend combines them instead); the only error is a short read |
| Messages.NoteOnWithVelocity | src/main.rs:259-277 | 0x9n with a velocity above 0 is a NoteOn with the channel of the status and the note and velocity bytes as read, in two bytes |
| Messages.NoteOnZeroVelocityIsNoteOff | src/main.rs:259-270 | 0x9n with velocity 0 is a NoteOff with the same channel, the same note and velocity 0 |
| Messages.DecodedNoteOnIsAudible | src/main.rs:265-277 | a decoded NoteOn comes from a 0x9n status and has velocity above 0 |
| Messages.PitchBendOfDataBytes | src/main.rs:319-325 | for data bytes the bend is msb*128 + lsb - 8192, which lies in [-8192, 8191] |
| Messages.PitchBendCentre | src/main.rs:323 | lsb 0x00 with msb 0x40 is no bend |
| Messages.PitchBendByteOrder | src/main.rs:319-325 | the least significant byte is read first |
| Messages.UnsupportedStatus | src/main.rs:428-432 | a status below 0x80 or in 0xF1-0xFE is Unsupported |
| Messages.SysExPayload | src/main.rs:328-338 | succeeds exactly when a 0xF7 follows; the payload is the bytes before it and contains no 0xF7; the terminator is consumed; otherwise it is the I/O error |
| Messages.MetaFixedLengthEnforced | src/main.rs:348-419 | types 0x00, 0x2F, 0x51, 0x58 and 0x59 demand lengths 2, 0, 3, 4 and 2; any other length is a format error; the right length succeeds, except that for 0x58 the second payload byte must also be below 8 |
| Messages.MetaPayloadKept | src/main.rs:357-420 | text events and sequencer-specific data accept any length and keep the payload verbatim |
| Messages.MetaNumbers | src/main.rs:348-419 | a sequence number is 16 bits big-endian; a tempo is 24 bits big-endian; the key is the signed first byte and the scale is the second |
| Messages.TimeSignatureFields | src/main.rs:396-408 | for a 4-byte payload whose second byte is below 8: numerator, clocks and thirty-seconds are kept and the denominator is 2^(second byte) |
| Messages.MetaLayout | src/main.rs:342-345 | a meta-event ends right after its type byte, its length and exactly that many payload bytes |
| Messages.SetTempoLayout | src/main.rs:386-395 | 0x51 0x03 followed by three bytes is a tempo equal to their big-endian value, and uses five bytes |
| Messages.DecodeSysExFrame | src/main.rs:329-336 | the system-exclusive loop depends only on the bytes from its start on |
| Messages.DecodeMetaFrame | src/main.rs:341-345 | a meta-event depends only on the bytes from its start on |
| Messages.DecodeMessageFrame | src/main.rs:245-434 | a message depends only on the bytes from its start on |
| Events.DecodeEvent | src/main.rs:207-242 | an event uses at least two bytes; a stored status in 0x80-0xEF stays in that range |
| Events.ParseEvent | src/main.rs:207-242 | the cursor version (which rewinds one byte under running status) returns the event and stored status that `DecodeEvent` specifies, and ends where it says |
| Events.DataByteWithoutRunningStatus | src/main.rs:218-227 | a data byte in status position with no stored status is a format error |
| Events.StatusByteUpdatesRunningStatus | src/main.rs:214-233 | after an event, the stored status is its status byte if that byte is in 0x80-0xEF; otherwise it is unchanged |
| Events.RunningStatusMatchesExplicitStatus | src/main.rs:217-236 | an event that omits its status under running status decodes exactly like the event with that status written out, whatever was stored before, and it ends one byte earlier, right after the body |
| Events.EndOfTrackEventExample | src/main.rs:378-385 | 0x00 0xFF 0x2F 0x00 is an end-of-track event with no delay, using four bytes |
| Events.RunningStatusExample | src/main.rs:207-242 | under stored status 0x93, bytes 0x60 0x40 0x00 are a delay of 96 and a NoteOff of key 64 on channel 3; the status stays stored |
| MidiFileDecoder.DecodeChunkTag | src/main.rs:158-171 | succeeds exactly when four bytes exist and equal the expected tag, and then consumes them; a short read is the I/O error, and a different tag is a format error |
| MidiFileDecoder.ValidateChunkHeader | src/main.rs:158-171 | the cursor version returns what `DecodeChunkTag` specifies |
| MidiFileDecoder.DecodeEventsFrom | src/main.rs:183-194 | events already read stay a prefix of the result; only the last event can be an end-of-track event |
| MidiFileDecoder.ParseTrack | src/main.rs:174-204 | the loop and the final seek return what `DecodeTrack` specifies and leave the cursor at start + length |
| MidiFileDecoder.DecodeTracksFrom | src/main.rs:149-152 | yields exactly `count` more tracks after those already read |
| MidiFileDecoder.Open | src/main.rs:114-155 | the imperative decoder returns exactly `DecodeFile` of the bytes |
| MidiFileDecoder.TrackLayout | src/main.rs:174-204 | a decoded track starts with "MTrk" and ends at its start + 8 + the declared length, however many bytes its events used; only its last event can be an end-of-track event |
| MidiFileDecoder.TrackStartsWithoutRunningStatus | src/main.rs:174-227 | a track whose first event omits its status is a format error |
| MidiFileDecoder.EmptyTrack | src/main.rs:186 | a declared length of zero gives no events |
| MidiFileDecoder.HeaderTagRequired | src/main.rs:118 | a file that does not start with "MThd" is a format error |
| MidiFileDecoder.HeaderLengthRequired | src/main.rs:121-127 | a header length other than 6 is a format error |
| MidiFileDecoder.FormatAtMostTwo | src/main.rs:134-140 | a format above 2 is a format error |
| MidiFileDecoder.DecodedFileShape | src/main.rs:114-155 | a decoded file starts with "MThd" and length 6, stores the three header fields as read, has format at most 2, and has exactly as many tracks as announced |
| MidiFileDecoder.HeaderExample | src/main.rs:118-146 | the 14 bytes "MThd", 6, 0, 1, 480 decode to format 0, one track and 480 ticks per quarter note |

## Left out

- `main` (src/main.rs:450-486): argument handling and printing are not part
  of the decoder.
- `File::open` and operating-system I/O: the file is its contents as a byte
  sequence. `Open` takes those bytes, and the I/O error is a short read.
  Failures of `stream_position` and `seek` cannot happen here.
- Text meta-events keep their payload as raw bytes. `String::from_utf8_lossy`
  (UTF-8 repair) is not modelled.
- Error messages: only the error kind is kept (`Io`, `Format`, `Unsupported`).
- Allocation: `Vec::with_capacity` and `vec![0; length]` are not modelled.
  Neither is an abort on a huge declared meta length.
- Positions are unbounded naturals. The u64 sum `start + track_length` cannot
  overflow for a u32 length in practice.
- `Follows` and the cursor methods leave the cursor position unspecified after
  an error. The source abandons the whole decode then, so nothing reads that
  position.
- Messages.DenominatorAsWritten: models release builds only, where the
  shift amount is taken modulo 8. Cargo's default debug build has overflow
  checks and panics on an exponent of 8 or more; that panic is not modelled. The
  rest of the model uses the corrected `Messages.Denominator` (see Findings).
- There is no end-to-end example of a whole file. The header, single events
  and all structural properties are proved separately.

## Findings

| source | as written | input that shows it | evidently intended | confidence | as-written member | corrected member |
|---|---|---|---|---|---|---|
| src/main.rs:404 | `denominator: 1 << data[1]` on a `u8` | time-signature payload whose second byte is 8, e.g. 0x04 0x08 0x18 0x08 | the denominator is 2^n for the exponent n; an exponent too large for the `u8` field should be rejected, not wrapped to 2^(n mod 8) (or panic) | high, not executed | Messages.DenominatorAsWritten, Messages.DenominatorAsWrittenWraps | Messages.Denominator |
