/** Unsigned LEB128 (section 7.6 of DWARF Version 5), which is also the
    protobuf base-128 varint: Go's `binary.PutUvarint` and
    `binary.ReadUvarint`, used as the length prefix of every stored event. */
module Uvarint {
  import opened Ints

  /** `binary.MaxVarintLen64`. */
  const MAX_LEN: nat := 10

  /** `PutUvarint`: seven bits at a time, least significant group first, the
      high bit set on every byte but the last. */
  function Encode(x: nat): (s: Bytes)
    ensures 1 <= |s|
    ensures forall i :: 0 <= i < |s| - 1 ==> s[i] >= 0x80
    ensures s[|s| - 1] < 0x80
  {
    if x < 0x80 then [x] else [x % 0x80 + 0x80] + Encode(x / 0x80)
  }

  /** What `ReadUvarint` returns: `io.EOF` when no byte at all could be read,
      `io.ErrUnexpectedEOF` when the input ends inside a number, an overflow
      error past 64 bits, or the number and the count of bytes consumed. */
  datatype ReadResult = Eof | UnexpectedEof | Overflow | Value(x: nat, n: nat)

  /** `ReadUvarint` on the bytes `s`, where `i` bytes of the number have
      already been consumed (the loop counter of the Go code). */
  function ReadAt(s: Bytes, i: nat): (r: ReadResult)
    requires i <= MAX_LEN
    ensures r == Eof <==> i == 0 && s == []
    ensures r.Value? ==> 1 <= r.n <= |s| && r.n <= MAX_LEN - i
    ensures r.Value? ==> forall k :: 0 <= k < r.n - 1 ==> s[k] >= 0x80
    decreases MAX_LEN - i
  {
    if i == MAX_LEN then Overflow
    else if s == [] then (if i == 0 then Eof else UnexpectedEof)
    else if s[0] < 0x80 then
      if i == MAX_LEN - 1 && s[0] > 1 then Overflow else Value(s[0], 1)
    else
      match ReadAt(s[1..], i + 1)
      case Value(v, n) => Value(s[0] - 0x80 + 0x80 * v, n + 1)
      case Eof => UnexpectedEof
      case other => other
  }

  function Read(s: Bytes): ReadResult {
    ReadAt(s, 0)
  }

  /** The largest value (exclusive) that still fits once `i` bytes are
      consumed: the tenth byte may only carry the 64th bit. */
  function Bound(i: nat): (b: nat)
    requires i < MAX_LEN
    ensures b >= 2
    decreases MAX_LEN - i
  {
    if i == MAX_LEN - 1 then 2 else 0x80 * Bound(i + 1)
  }

  lemma BoundIs64Bits()
    ensures Bound(0) == TWO_TO_THE_64
  {
    assert Bound(9) == 2;
    assert Bound(8) == 0x100;
    assert Bound(7) == 0x8000;
    assert Bound(6) == 0x40_0000;
    assert Bound(5) == 0x2000_0000;
    assert Bound(4) == 0x10_0000_0000;
    assert Bound(3) == 0x800_0000_0000;
    assert Bound(2) == 0x4_0000_0000_0000;
    assert Bound(1) == 0x200_0000_0000_0000;
  }

  lemma {:induction false} ReadEncodeAt(x: nat, i: nat, rest: Bytes)
    requires i < MAX_LEN && x < Bound(i)
    ensures |Encode(x)| <= MAX_LEN - i
    ensures ReadAt(Encode(x) + rest, i) == Value(x, |Encode(x)|)
  {
    var s := Encode(x) + rest;
    if x >= 0x80 {
      assert i < MAX_LEN - 1;
      assert s[1..] == Encode(x / 0x80) + rest;
      ReadEncodeAt(x / 0x80, i + 1, rest);
    }
  }

  /** Round trip: every uint64 is read back from its encoding, whatever
      follows it, and the encoding takes 1 to 10 bytes. */
  lemma ReadEncode(x: uint64, rest: Bytes)
    ensures 1 <= |Encode(x)| <= MAX_LEN
    ensures Read(Encode(x) + rest) == Value(x, |Encode(x)|)
  {
    BoundIs64Bits();
    ReadEncodeAt(x, 0, rest);
  }
}
