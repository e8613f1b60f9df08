/** The seekable byte source the decoder reads from: the file's contents as
    a byte sequence and an absolute read position. Reading at or past the
    end is the I/O error; seeking sets the position, even past the end. */
module ByteSource {
  import opened MidiTypes
  import opened BitArithmetic

  /** Reads one byte at `pos`. */
  function ReadByteAt(data: seq<Byte>, pos: nat): Result<Parsed<Byte>>
  {
    if pos < |data| then Ok(Parsed(data[pos], pos + 1)) else Err(Io)
  }

  /** Reads exactly `n` bytes at `pos`, or fails if fewer remain. */
  function ReadBytesAt(data: seq<Byte>, pos: nat, n: nat): Result<Parsed<seq<Byte>>>
  {
    if pos + n <= |data| then Ok(Parsed(data[pos..pos + n], pos + n)) else Err(Io)
  }

  /** The value of two bytes, most significant first. */
  function BigEndian16(hi: Byte, lo: Byte): (v: U16)
    ensures v / 0x100 == hi && v % 0x100 == lo
  {
    hi * 0x100 + lo
  }

  /** The value of four bytes, most significant first. */
  function BigEndian32(b: seq<Byte>): (v: U32)
    requires |b| == 4
    ensures v / 0x100_0000 == b[0] && v % 0x100 == b[3]
    ensures (v / 0x1_0000) % 0x100 == b[1] && (v / 0x100) % 0x100 == b[2]
  {
    var hi := BigEndian16(b[0], b[1]);
    var mid := hi * 0x100 + b[2];
    var v := mid * 0x100 + b[3];
    DivModUnique(v, 0x100, mid, b[3]);
    DivModUnique(v, 0x1_0000, hi, (b[2] as int) * 0x100 + b[3]);
    DivModUnique(v, 0x100_0000, b[0], (b[1] as int) * 0x1_0000 + (b[2] as int) * 0x100 + b[3]);
    DivModUnique(mid, 0x100, hi, b[2]);
    v
  }

  /** `read_u16::<BigEndian>` at `pos`. */
  function ReadU16At(data: seq<Byte>, pos: nat): Result<Parsed<U16>>
  {
    var b :- ReadBytesAt(data, pos, 2);
    Ok(Parsed(BigEndian16(b.value[0], b.value[1]), b.next))
  }

  /** `read_u32::<BigEndian>` at `pos`. */
  function ReadU32At(data: seq<Byte>, pos: nat): Result<Parsed<U32>>
  {
    var b :- ReadBytesAt(data, pos, 4);
    Ok(Parsed(BigEndian32(b.value), b.next))
  }

  /** The bytes of `d1` from `p1` on are those of `d2` from `p2` on. */
  ghost predicate SameSuffix(d1: seq<Byte>, p1: nat, d2: seq<Byte>, p2: nat)
  {
    p1 <= |d1| && p2 <= |d2| && d1[p1..] == d2[p2..]
  }

  /** Equal suffixes stay equal when both are shortened by `k` bytes, and
      agree byte by byte. */
  lemma SameSuffixAdvance(d1: seq<Byte>, p1: nat, d2: seq<Byte>, p2: nat, k: nat)
    requires SameSuffix(d1, p1, d2, p2)
    requires p1 + k <= |d1|
    ensures SameSuffix(d1, p1 + k, d2, p2 + k)
    ensures p1 + k < |d1| ==> d1[p1 + k] == d2[p2 + k]
  {
    assert d1[p1 + k..] == d1[p1..][k..];
    assert d2[p2 + k..] == d2[p2..][k..];
    if p1 + k < |d1| {
      assert d1[p1 + k] == d1[p1..][k];
      assert d2[p2 + k] == d2[p2..][k];
    }
  }

  /** Reading fixed-size fields depends only on the bytes from the read
      position on. */
  lemma ReadBytesFrame(d1: seq<Byte>, p1: nat, d2: seq<Byte>, p2: nat, n: nat)
    requires SameSuffix(d1, p1, d2, p2)
    ensures SameOutcome(ReadBytesAt(d1, p1, n), p1, ReadBytesAt(d2, p2, n), p2)
  {
    if p1 + n <= |d1| {
      assert d1[p1..p1 + n] == d1[p1..][..n];
      assert d2[p2..p2 + n] == d2[p2..][..n];
    }
  }

  /** The position of the cursor over a file's bytes, as `std::fs::File`
      keeps it. */
  class ByteCursor {
    const data: seq<Byte>
    var pos: nat

    constructor (bytes: seq<Byte>)
      ensures data == bytes && pos == 0
    {
      data := bytes;
      pos := 0;
    }

    /** `read_u8`. */
    method ReadU8() returns (r: Result<Byte>)
      modifies this
      ensures Follows(ReadByteAt(data, old(pos)), r, pos)
    {
      if pos < |data| {
        r := Ok(data[pos]);
        pos := pos + 1;
      } else {
        r := Err(Io);
      }
    }

    /** `read_exact` into a buffer of `n` bytes. */
    method ReadExact(n: nat) returns (r: Result<seq<Byte>>)
      modifies this
      ensures Follows(ReadBytesAt(data, old(pos), n), r, pos)
    {
      if pos + n <= |data| {
        r := Ok(data[pos..pos + n]);
        pos := pos + n;
      } else {
        r := Err(Io);
      }
    }

    /** `read_u16::<BigEndian>`. */
    method ReadU16() returns (r: Result<U16>)
      modifies this
      ensures Follows(ReadU16At(data, old(pos)), r, pos)
    {
      var b :- ReadExact(2);
      r := Ok(BigEndian16(b[0], b[1]));
    }

    /** `read_u32::<BigEndian>`. */
    method ReadU32() returns (r: Result<U32>)
      modifies this
      ensures Follows(ReadU32At(data, old(pos)), r, pos)
    {
      var b :- ReadExact(4);
      r := Ok(BigEndian32(b));
    }

    /** `seek(SeekFrom::Start(p))`. */
    method Seek(p: nat)
      modifies this
      ensures pos == p
    {
      pos := p;
    }
  }
}
