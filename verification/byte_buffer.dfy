/** spacelab_decoder/byte_buffer.py: eight bit slots filled from slot 7
    down to slot 0, then read out as one byte. */
module ByteBuffer {
  import opened Bits
  import opened BitStrings

  /** The endianness names the module compares against. */
  const MSB: string := "msb"
  const LSB: string := "lsb"

  /** The buffer: its endianness name, the eight slots, and the next slot
      to write (8 once all are written). */
  datatype ByteBuffer = ByteBuffer(endianness: string, buffer: seq<bool>, pos: int)
  {
    predicate Valid() { |buffer| == 8 && 0 <= pos <= 8 }
  }

  /** `clear`: every slot false, writing restarts at slot 7. */
  function Clear(b: ByteBuffer): (c: ByteBuffer)
    ensures c.Valid() && c.endianness == b.endianness && c.pos == 7
    ensures forall i | 0 <= i < 8 :: !c.buffer[i]
  {
    ByteBuffer(b.endianness, [false, false, false, false, false, false, false, false], 7)
  }

  /** The constructor: the endianness is stored as given, then cleared. */
  function Create(endi: string): (b: ByteBuffer)
    ensures b.Valid() && !IsFull(b)
    ensures b == ByteBuffer(endi, [false, false, false, false, false, false, false, false], 7)
  {
    Clear(ByteBuffer(endi, [], 0))
  }

  /** `is_full`. */
  predicate IsFull(b: ByteBuffer)
  {
    b.pos > 7
  }

  /** `push`: while not full, the bit goes to slot pos and pos moves down,
      wrapping from -1 to the full mark 8; a full buffer ignores the bit. */
  function Push(b: ByteBuffer, bit: bool): (c: ByteBuffer)
    requires b.Valid()
    ensures c.Valid() && c.endianness == b.endianness
    ensures IsFull(b) ==> c == b
    ensures !IsFull(b) ==>
      c.buffer[b.pos] == bit && c.pos == (if b.pos == 0 then 8 else b.pos - 1) &&
      forall i | 0 <= i < 8 && i != b.pos :: c.buffer[i] == b.buffer[i]
  {
    if b.pos < 8 then
      var pos := b.pos - 1;
      b.(buffer := b.buffer[b.pos := bit], pos := if pos < 0 then 8 else pos)
    else b
  }

  /** Pushes bits in order. */
  function PushAll(b: ByteBuffer, bits: seq<bool>): (c: ByteBuffer)
    requires b.Valid()
    ensures c.Valid() && c.endianness == b.endianness
    decreases |bits|
  {
    if bits == [] then b else Push(PushAll(b, bits[..|bits| - 1]), bits[|bits| - 1])
  }

  /** `to_byte`: in "lsb" mode the slots are first reversed in place (the
      returned buffer keeps that order); then they are shifted in from slot
      0 on. */
  function ToByte(b: ByteBuffer): (r: (ByteBuffer, nat))
    requires b.Valid()
    ensures r.0.Valid() && r.0.endianness == b.endianness && r.0.pos == b.pos
    ensures r.0.buffer == (if b.endianness == LSB then Reverse(b.buffer) else b.buffer)
    ensures r.1 == BigEndian(r.0.buffer) && r.1 < 256
  {
    var c := if b.endianness == LSB then b.(buffer := Reverse(b.buffer)) else b;
    ShiftInValue(0, c.buffer);
    BigEndianBound(c.buffer);
    SmallPowers();
    (c, ShiftIn(0, c.buffer))
  }

  /** After k <= 8 pushes following a clear, slot 7 - j holds the j-th bit
      pushed, the lower slots are still false, and the buffer is full
      exactly when k == 8. */
  lemma {:induction false} PushAllLayout(b: ByteBuffer, bits: seq<bool>)
    requires |bits| <= 8
    ensures var c := PushAll(Clear(b), bits);
      c.pos == (if |bits| == 8 then 8 else 7 - |bits|) &&
      (IsFull(c) <==> |bits| == 8) &&
      (forall j | 0 <= j < |bits| :: c.buffer[7 - j] == bits[j]) &&
      (forall i | 0 <= i < 8 - |bits| :: !c.buffer[i])
    decreases |bits|
  {
    if bits != [] {
      var init := bits[..|bits| - 1];
      PushAllLayout(b, init);
      var c0 := PushAll(Clear(b), init);
      assert PushAll(Clear(b), bits) == Push(c0, bits[|bits| - 1]);
      assert forall j | 0 <= j < |init| :: init[j] == bits[j];
    }
  }

  /** Pushing into a full buffer changes nothing. */
  lemma {:induction false} PushAllWhenFull(b: ByteBuffer, bits: seq<bool>)
    requires b.Valid() && IsFull(b)
    ensures PushAll(b, bits) == b
    decreases |bits|
  {
    if bits != [] {
      PushAllWhenFull(b, bits[..|bits| - 1]);
    }
  }

  /** Eight pushes after a clear leave the pushed bits in reverse order. */
  lemma EightPushes(b: ByteBuffer, bits: seq<bool>)
    requires |bits| == 8
    ensures PushAll(Clear(b), bits).buffer == Reverse(bits)
  {
    PushAllLayout(b, bits);
    SlotsReversed(PushAll(Clear(b), bits).buffer, bits);
  }

  /** Eight slots holding bit j at slot 7 - j are the bits reversed. */
  lemma SlotsReversed(buffer: seq<bool>, bits: seq<bool>)
    requires |buffer| == 8 && |bits| == 8
    requires forall j | 0 <= j < 8 :: buffer[7 - j] == bits[j]
    ensures buffer == Reverse(bits)
  {
    assert forall i | 0 <= i < 8 :: buffer[i] == bits[7 - i] by {
      forall i | 0 <= i < 8 ensures buffer[i] == bits[7 - i] {
        assert buffer[7 - (7 - i)] == bits[7 - i];
      }
    }
  }

  /** In "msb" mode the byte is the sum of bit_k * 2^k over the pushed bits
      b_0 .. b_7: the first bit pushed is the least significant. */
  lemma ToByteMsb(b: ByteBuffer, bits: seq<bool>)
    requires |bits| == 8 && b.endianness != LSB
    ensures ToByte(PushAll(Clear(b), bits)).1 == LittleEndian(bits)
  {
    var c := PushAll(Clear(b), bits);
    EightPushes(b, bits);
    ShiftInValue(0, c.buffer);
    BigEndianOfReverse(bits);
  }

  /** In "lsb" mode the byte is the sum of bit_k * 2^(7 - k): the first bit
      pushed is the most significant. */
  lemma ToByteLsb(b: ByteBuffer, bits: seq<bool>)
    requires |bits| == 8 && b.endianness == LSB
    ensures ToByte(PushAll(Clear(b), bits)).1 == BigEndian(bits)
  {
    var c := PushAll(Clear(b), bits);
    EightPushes(b, bits);
    ReverseReverse(bits);
    ShiftInValue(0, bits);
  }

  /** In "lsb" mode `to_byte` is not idempotent: the slots stay reversed, so
      a second call reads them in the opposite order. */
  lemma ToByteTwiceLsb(b: ByteBuffer)
    requires b.Valid() && b.endianness == LSB
    ensures ToByte(b).0.buffer == Reverse(b.buffer)
    ensures ToByte(ToByte(b).0).1 == BigEndian(b.buffer)
  {
    ReverseReverse(b.buffer);
    ShiftInValue(0, b.buffer);
  }
}
