/** Variable-length quantities: big-endian groups of 7 bits, where a byte
    with its high bit set says that more bytes follow. */
module VariableLength {
  import opened MidiTypes
  import opened ByteSource
  import opened BitArithmetic

  const TwoTo32: nat := 0x1_0000_0000

  /** `(value << 7) | (byte & 0x7F)` on a `u32`: the shift drops the top
      7 bits, and the low 7 bits it clears take the byte's payload bits. */
  function ShiftIn(acc: U32, b: Byte): (r: U32)
    ensures r == (acc * 128 + b % 128) % TwoTo32
  {
    var kept := acc % 0x200_0000;
    assert acc * 128 == (acc / 0x200_0000) * TwoTo32 + kept * 128;
    ModOfMultipleAdded(kept * 128 + b % 128, acc / 0x200_0000);
    kept * 128 + b % 128
  }

  /** `ShiftIn` is the bitwise expression itself: the `u32` shift keeps
      `acc * 128` modulo 2^32, and the OR with the masked byte fills the
      seven bits the shift cleared. */
  lemma ShiftInBits(acc: U32, b: Byte)
    ensures ShiftIn(acc, b) == BitOr((acc * 128) % TwoTo32, BitAnd(b, 0x7F))
  {
    var kept := acc % 0x200_0000;
    assert (acc * 128) % TwoTo32 == kept * 128 by {
      assert acc * 128 == (acc / 0x200_0000) * TwoTo32 + kept * 128;
      ModOfMultipleAdded(kept * 128, acc / 0x200_0000);
    }
    LowBitsMask(b);
    BitOrShift7(kept, b % 128);
    assert BitOr(kept, 0) == kept;
  }

  /** Adding a multiple of 2^32 does not change the remainder. */
  lemma ModOfMultipleAdded(a: nat, k: nat)
    requires a < TwoTo32
    ensures (a + k * TwoTo32) % TwoTo32 == a
  {
    var n := a + k * TwoTo32;
    assert n == k * TwoTo32 + a;
    assert n / TwoTo32 == k;
  }

  /** The bytes at `pos`..`k-1` all have their high bit set. */
  ghost predicate Continuations(data: seq<Byte>, pos: nat, k: nat)
  {
    forall j :: pos <= j < k && j < |data| ==> data[j] >= 0x80
  }

  /** `k` is the first byte at or after `pos` with its high bit clear. */
  ghost predicate TerminalAt(data: seq<Byte>, pos: nat, k: nat)
  {
    pos <= k < |data| && data[k] < 0x80 && Continuations(data, pos, k)
  }

  /** The loop of `read_variable_length` from `pos` on, with `acc`
      accumulated so far: it succeeds exactly when a terminal byte follows,
      and then stops just after the first one. */
  function DecodeVlqFrom(data: seq<Byte>, pos: nat, acc: U32): (r: Result<Parsed<U32>>)
    decreases |data| - pos
    ensures r.Ok? ==> r.value.next > pos && TerminalAt(data, pos, r.value.next - 1)
    ensures r.Err? ==> r.error == Io && Continuations(data, pos, |data|)
  {
    if pos >= |data| then Err(Io)
    else
      var acc' := ShiftIn(acc, data[pos]);
      if data[pos] < 0x80 then Ok(Parsed(acc', pos + 1))
      else DecodeVlqFrom(data, pos + 1, acc')
  }

  /** `read_variable_length` at `pos`. */
  function DecodeVlq(data: seq<Byte>, pos: nat): Result<Parsed<U32>>
  {
    DecodeVlqFrom(data, pos, 0)
  }

  /** `read_variable_length`. */
  method ReadVariableLength(c: ByteCursor) returns (r: Result<U32>)
    modifies c
    ensures Follows(DecodeVlq(c.data, old(c.pos)), r, c.pos)
  {
    var value: U32 := 0;
    while true
      invariant DecodeVlq(c.data, old(c.pos)) == DecodeVlqFrom(c.data, c.pos, value)
      decreases |c.data| - c.pos
    {
      var b :- c.ReadU8();
      value := ShiftIn(value, b);
      if b < 0x80 {
        break;
      }
    }
    return Ok(value);
  }

  /** The unbounded value of a sequence of groups: the low 7 bits of each
      byte, most significant group first. */
  function GroupsValue(groups: seq<Byte>): nat
  {
    if groups == [] then 0
    else GroupsValue(groups[..|groups| - 1]) * 128 + groups[|groups| - 1] % 128
  }

  function Pow128(n: nat): nat
  {
    if n == 0 then 1 else 128 * Pow128(n - 1)
  }

  /** `n` groups hold a value below 128^n. */
  lemma {:induction false} GroupsValueBound(groups: seq<Byte>)
    ensures GroupsValue(groups) < Pow128(|groups|)
  {
    if groups != [] {
      GroupsValueBound(groups[..|groups| - 1]);
    }
  }

  /** Reducing the accumulator modulo 2^32 before a step does not change
      the step's result. */
  lemma ShiftInReduced(v: nat, b: Byte)
    ensures ShiftIn(v % TwoTo32, b) == (v * 128 + b % 128) % TwoTo32
  {
    var q := v / TwoTo32;
    var r := v % TwoTo32;
    assert v * 128 + b % 128 == (r * 128 + b % 128) + (q * 128) * TwoTo32;
    var a := (r * 128 + b % 128) % TwoTo32;
    var m := (r * 128 + b % 128) / TwoTo32;
    assert r * 128 + b % 128 == m * TwoTo32 + a;
    ModOfMultipleAdded(a, m + q * 128);
  }

  lemma {:induction false} DecodeVlqFromValue(data: seq<Byte>, start: nat, pos: nat, k: nat)
    requires start <= pos && TerminalAt(data, pos, k)
    ensures DecodeVlqFrom(data, pos, GroupsValue(data[start..pos]) % TwoTo32)
         == Ok(Parsed(GroupsValue(data[start..k + 1]) % TwoTo32, k + 1))
    decreases k - pos
  {
    var acc := GroupsValue(data[start..pos]) % TwoTo32;
    assert data[start..pos + 1][..pos - start] == data[start..pos];
    ShiftInReduced(GroupsValue(data[start..pos]), data[pos]);
    assert ShiftIn(acc, data[pos]) == GroupsValue(data[start..pos + 1]) % TwoTo32;
    if pos < k {
      DecodeVlqFromValue(data, start, pos + 1, k);
    }
  }

  /** A variable-length quantity decodes to the groups up to and including
      its terminal byte, reduced modulo 2^32 as a `u32` accumulator does. */
  lemma DecodeVlqValue(data: seq<Byte>, pos: nat, k: nat)
    requires TerminalAt(data, pos, k)
    ensures DecodeVlq(data, pos) == Ok(Parsed(GroupsValue(data[pos..k + 1]) % TwoTo32, k + 1))
  {
    assert data[pos..pos] == [];
    DecodeVlqFromValue(data, pos, pos, k);
  }

  /** With at most four groups nothing is lost: the result is the exact
      value, below 2^28. */
  lemma DecodeVlqShort(data: seq<Byte>, pos: nat, k: nat)
    requires TerminalAt(data, pos, k) && k - pos < 4
    ensures DecodeVlq(data, pos) == Ok(Parsed(GroupsValue(data[pos..k + 1]), k + 1))
    ensures GroupsValue(data[pos..k + 1]) < 0x1000_0000
  {
    DecodeVlqValue(data, pos, k);
    GroupsValueBound(data[pos..k + 1]);
    assert Pow128(4) == 0x1000_0000;
    assert Pow128(|data[pos..k + 1]|) <= Pow128(4) by {
      var n := |data[pos..k + 1]|;
      assert 1 <= n <= 4;
      assert Pow128(1) == 128 && Pow128(2) == 128 * 128 && Pow128(3) == 128 * 128 * 128;
    }
  }

  /** A single byte below 0x80 is a whole quantity: its own value. */
  lemma DecodeVlqOneByte(data: seq<Byte>, pos: nat)
    requires pos < |data| && data[pos] < 0x80
    ensures DecodeVlq(data, pos) == Ok(Parsed(data[pos], pos + 1))
  {
  }

  /** Reference value: 0x81 0x00 is 128. */
  lemma DecodeVlqExample128()
    ensures DecodeVlq([0x81, 0x00], 0) == Ok(Parsed(128, 2))
  {
    var b: seq<Byte> := [0x81, 0x00];
    assert TerminalAt(b, 0, 1);
    DecodeVlqShort(b, 0, 1);
    assert b[0..2] == b;
    assert b[..1] == [0x81];
    assert [0x81][..0] == [];
  }

  /** Reference value: 0xFF 0x7F is 16383, and the byte after it is not read. */
  lemma DecodeVlqExample16383()
    ensures DecodeVlq([0xFF, 0x7F, 0x42], 0) == Ok(Parsed(16383, 2))
  {
    var c: seq<Byte> := [0xFF, 0x7F, 0x42];
    assert TerminalAt(c, 0, 1);
    DecodeVlqShort(c, 0, 1);
    assert c[0..2] == [0xFF, 0x7F];
    assert [0xFF, 0x7F][..1] == [0xFF];
    assert [0xFF][..0] == [];
  }

  /** Decoding depends only on the bytes from `pos` on. */
  lemma {:induction false} DecodeVlqFrame(d1: seq<Byte>, p1: nat, d2: seq<Byte>, p2: nat, acc: U32)
    requires SameSuffix(d1, p1, d2, p2)
    ensures SameOutcome(DecodeVlqFrom(d1, p1, acc), p1, DecodeVlqFrom(d2, p2, acc), p2)
    decreases |d1| - p1
  {
    if p1 < |d1| {
      SameSuffixAdvance(d1, p1, d2, p2, 1);
      SameSuffixAdvance(d1, p1, d2, p2, 0);
      if d1[p1] >= 0x80 {
        DecodeVlqFrame(d1, p1 + 1, d2, p2 + 1, ShiftIn(acc, d1[p1]));
      }
    }
  }

  /** Decoding reads nothing past the terminal byte: any two byte sequences
      that agree up to it decode alike. */
  lemma {:induction false} DecodeVlqPrefix(d1: seq<Byte>, d2: seq<Byte>, pos: nat, acc: U32)
    requires DecodeVlqFrom(d1, pos, acc).Ok?
    requires DecodeVlqFrom(d1, pos, acc).value.next <= |d2|
    requires d1[pos..DecodeVlqFrom(d1, pos, acc).value.next] == d2[pos..DecodeVlqFrom(d1, pos, acc).value.next]
    ensures DecodeVlqFrom(d2, pos, acc) == DecodeVlqFrom(d1, pos, acc)
    decreases |d1| - pos
  {
    var e := DecodeVlqFrom(d1, pos, acc).value.next;
    assert d1[pos] == d1[pos..e][0] == d2[pos..e][0] == d2[pos];
    if d1[pos] >= 0x80 {
      assert d1[pos + 1..e] == d1[pos..e][1..];
      assert d2[pos + 1..e] == d2[pos..e][1..];
      DecodeVlqPrefix(d1, d2, pos + 1, ShiftIn(acc, d1[pos]));
    }
  }
}
