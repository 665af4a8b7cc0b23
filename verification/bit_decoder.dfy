/** spacelab_decoder/bit_decoder.py: a bit-at-a-time packet detector. Every
    bit enters a sliding window as long as the sync word; once the window
    equals the sync word, the following bits are grouped eight at a time
    into bytes, at most 299 of them per detection. */
module BitDecoder {
  import opened Bits
  import opened BitStrings
  import opened Options
  import BB = BitBuffer
  import YB = ByteBuffer
  import SW = SyncWord
  import Text

  /** The byte count at which a detected packet is abandoned. */
  const MaxBytesToDecode: nat := 300

  /** The sync window (an "lsb" bit buffer, newest bit first), the sync
      word's bits in "lsb" order, the byte assembler, whether a packet is
      being read, and how many bytes of it have been completed. */
  datatype BitDecoder = BitDecoder(
    syncBuf: BB.BitBuffer,
    syncWord: seq<bool>,
    byteBuf: YB.ByteBuffer,
    pktDetected: bool,
    decodedBytes: int)

  /** What every reachable decoder satisfies: the window is an "lsb"
      buffer as long as the sync word at most, the byte assembler is an
      "lsb" buffer that is never left full, unwritten slots are false, and
      the byte count stays within the limit (strictly below it while a
      packet is being read). */
  predicate Valid(d: BitDecoder)
  {
    d.byteBuf.Valid() && d.byteBuf.endianness == YB.LSB && !YB.IsFull(d.byteBuf) &&
    (forall i | 0 <= i <= d.byteBuf.pos :: !d.byteBuf.buffer[i]) &&
    d.syncBuf.endianness == BB.Lsb && d.syncBuf.maxSize == |d.syncWord| &&
    |d.syncBuf.bits| <= d.syncBuf.maxSize &&
    0 <= d.decodedBytes <= MaxBytesToDecode &&
    (d.pktDetected ==> d.decodedBytes < MaxBytesToDecode)
  }

  /** The constructor for a list of sync bytes: a window of 8n bits in
      "lsb" order, the sync word expanded in "lsb" order, an "lsb" byte
      buffer, nothing detected. */
  function Create(sw: seq<byte>): (d: BitDecoder)
    ensures Valid(d) && !d.pktDetected && d.decodedBytes == 0
    ensures d.syncBuf.bits == [] && |d.syncWord| == 8 * |sw|
  {
    BitDecoder(BB.BitBuffer([], 8 * |sw|, BB.Lsb), SW.Expand(sw, SW.LSB), YB.Create(YB.LSB), false, 0)
  }

  /** The parts of Create are what the buffer and sync-word constructors
      return for these arguments (neither raises). */
  lemma CreateParts(sw: seq<byte>)
    ensures BB.Create(8 * |sw|, BB.LSB) == Ok(Create(sw).syncBuf)
    ensures SW.Create(SW.ByteList(sw), SW.LSB) == Ok(Create(sw).syncWord)
  {
    assert Text.Lower(BB.LSB) == BB.LSB;
  }

  /** `reset`: stop reading the packet and clear the byte assembler;
      nothing else changes. */
  function Reset(d: BitDecoder): (e: BitDecoder)
    ensures !e.pktDetected && e.byteBuf == YB.Clear(d.byteBuf)
    ensures e.syncBuf == d.syncBuf && e.syncWord == d.syncWord && e.decodedBytes == d.decodedBytes
  {
    d.(pktDetected := false, byteBuf := YB.Clear(d.byteBuf))
  }

  /** The sync comparison at the end of `decode_bit`: a window equal to
      the sync word starts a packet with a fresh byte count and assembler. */
  function SyncCheck(d: BitDecoder): (e: BitDecoder)
  {
    if d.syncBuf.bits == d.syncWord then
      d.(decodedBytes := 0, pktDetected := true, byteBuf := YB.Clear(d.byteBuf))
    else d
  }

  /** `decode_bit`: the bit (Python's `bool(bit)`) enters the window; while
      a packet is being read it also enters the byte assembler, and a full
      assembler yields its byte unless that byte would be the 300th, which
      abandons the packet instead. When no byte is returned, the window is
      compared with the sync word. The window's push raises only for an
      empty sync word (a zero-size window). */
  function DecodeBit(d: BitDecoder, bit: int): (r: Result<(BitDecoder, Option<byte>), BB.BitBufferError>)
    requires d.byteBuf.Valid()
    ensures r.Err? <==> d.syncBuf.maxSize == 0 && d.syncBuf.bits == []
    ensures r.Ok? ==> r.value.0.syncBuf == BB.Push(d.syncBuf, bit != 0).value && r.value.0.syncWord == d.syncWord
    ensures r.Ok? && r.value.1.Some? ==> d.pktDetected
  {
    var b := bit != 0;
    match BB.Push(d.syncBuf, b)
    case Err(e) => Err(e)
    case Ok(sb) =>
      var s := d.(syncBuf := sb);
      if s.pktDetected then
        var bb := YB.Push(s.byteBuf, b);
        if YB.IsFull(bb) then
          var n := s.decodedBytes + 1;
          if n < MaxBytesToDecode then
            var (bb2, v) := YB.ToByte(bb);
            Ok((s.(byteBuf := YB.Clear(bb2), decodedBytes := n), Some(v)))
          else
            Ok((SyncCheck(Reset(s.(byteBuf := bb, decodedBytes := n))), None))
        else
          Ok((SyncCheck(s.(byteBuf := bb)), None))
      else
        Ok((SyncCheck(s), None))
  }

  /** The bits received since the last byte boundary, oldest first: slots
      7 down to pos + 1 of the assembler. */
  function Pending(d: BitDecoder): (p: seq<bool>)
    requires Valid(d)
    ensures |p| == 7 - d.byteBuf.pos
  {
    seq(7 - d.byteBuf.pos, j requires 0 <= j < 7 - d.byteBuf.pos => d.byteBuf.buffer[7 - j])
  }

  /** Every step keeps a decoder valid. */
  lemma DecodeBitValid(d: BitDecoder, bit: int)
    requires Valid(d) && DecodeBit(d, bit).Ok?
    ensures Valid(DecodeBit(d, bit).value.0)
  {
    BB.PushBound(d.syncBuf, bit != 0);
  }

  /** A byte comes out exactly when a packet is being read, seven bits are
      pending and the byte is not the 300th. */
  lemma DecodeBitOutput(d: BitDecoder, bit: int)
    requires Valid(d) && DecodeBit(d, bit).Ok?
    ensures DecodeBit(d, bit).value.1.Some? <==>
      d.pktDetected && d.byteBuf.pos == 0 && d.decodedBytes + 1 < MaxBytesToDecode
  {
  }

  /** The byte returned is the pending bits followed by this one, the
      first received as the most significant. */
  lemma DecodeBitByte(d: BitDecoder, bit: int)
    requires Valid(d) && DecodeBit(d, bit).Ok? && DecodeBit(d, bit).value.1.Some?
    ensures DecodeBit(d, bit).value.1.value == BigEndian(Pending(d) + [bit != 0])
  {
    DecodeBitOutput(d, bit);
    var bb := YB.Push(d.byteBuf, bit != 0);
    assert DecodeBit(d, bit).value.1.value == YB.ToByte(bb).1;
    var bits := Pending(d) + [bit != 0];
    assert Reverse(bb.buffer) == bits by {
      forall j | 0 <= j < 8 ensures Reverse(bb.buffer)[j] == bits[j] {
        if j < 7 {
          assert bits[j] == Pending(d)[j];
        }
      }
    }
    ShiftInValue(0, bits);
  }

  /** While a packet is being read and no byte is due, the bit joins the
      pending bits, unless the window now equals the sync word, which
      restarts the packet with nothing pending. */
  lemma DecodeBitPending(d: BitDecoder, bit: int)
    requires Valid(d) && DecodeBit(d, bit).Ok? && d.pktDetected && d.byteBuf.pos > 0
    ensures var e := DecodeBit(d, bit).value.0;
      Valid(e) && e.pktDetected && DecodeBit(d, bit).value.1 == None &&
      if e.syncBuf.bits == d.syncWord then e.decodedBytes == 0 && Pending(e) == []
      else e.decodedBytes == d.decodedBytes && Pending(e) == Pending(d) + [bit != 0]
  {
    DecodeBitValid(d, bit);
    var e := DecodeBit(d, bit).value.0;
    if e.syncBuf.bits != d.syncWord {
      var p := Pending(d) + [bit != 0];
      assert Pending(e) == p by {
        forall j | 0 <= j < |p| ensures Pending(e)[j] == p[j] {
          if j < |p| - 1 {
            assert p[j] == Pending(d)[j];
          }
        }
      }
    }
  }

  /** Outside a packet no byte is returned, and the step starts a packet
      exactly when the window now equals the sync word. */
  lemma DecodeBitIdle(d: BitDecoder, bit: int)
    requires Valid(d) && DecodeBit(d, bit).Ok? && !d.pktDetected
    ensures var e := DecodeBit(d, bit).value.0;
      DecodeBit(d, bit).value.1 == None &&
      (e.pktDetected <==> e.syncBuf.bits == d.syncWord) &&
      (e.pktDetected ==> e.decodedBytes == 0 && Pending(e) == []) &&
      (!e.pktDetected ==> e.byteBuf == d.byteBuf && e.decodedBytes == d.decodedBytes)
  {
    DecodeBitValid(d, bit);
  }

  /** The byte that would be the 300th of a packet abandons it: nothing is
      returned and reading stops unless the window matches at that very
      bit. */
  lemma DecodeBitLimit(d: BitDecoder, bit: int)
    requires Valid(d) && DecodeBit(d, bit).Ok?
    requires d.pktDetected && d.byteBuf.pos == 0 && d.decodedBytes + 1 == MaxBytesToDecode
    ensures var e := DecodeBit(d, bit).value.0;
      DecodeBit(d, bit).value.1 == None &&
      (e.pktDetected <==> e.syncBuf.bits == d.syncWord) &&
      (!e.pktDetected ==> e.decodedBytes == MaxBytesToDecode)
  {
  }

  /** Feeds bits in order, collecting what each step returns; stops at the
      first error. */
  function Feed(d: BitDecoder, bits: seq<int>): (r: Result<(BitDecoder, seq<Option<byte>>), BB.BitBufferError>)
    requires Valid(d)
    ensures r.Ok? ==> Valid(r.value.0) && |r.value.1| == |bits| && r.value.0.syncWord == d.syncWord
    decreases |bits|
  {
    if bits == [] then Ok((d, []))
    else
      var prev := Feed(d, bits[..|bits| - 1]);
      if prev.Err? then Err(prev.error)
      else
        var c := prev.value.0;
        var step := DecodeBit(c, bits[|bits| - 1]);
        if step.Err? then Err(step.error)
        else
          DecodeBitValid(c, bits[|bits| - 1]);
          Ok((step.value.0, prev.value.1 + [step.value.1]))
  }

  /** The bits as Python's `bool` sees them. */
  function Truth(bits: seq<int>): (t: seq<bool>)
    ensures |t| == |bits| && forall i | 0 <= i < |bits| :: t[i] == (bits[i] != 0)
  {
    seq(|bits|, i requires 0 <= i < |bits| => bits[i] != 0)
  }

  /** The window evolves independently of the rest of the decoder: it is
      the bit buffer after pushing every bit fed. */
  lemma {:induction false} FeedWindow(d: BitDecoder, bits: seq<int>)
    requires Valid(d) && |d.syncWord| >= 1
    ensures Feed(d, bits).Ok? && BB.PushAll(d.syncBuf, Truth(bits)).Ok?
    ensures Feed(d, bits).value.0.syncBuf == BB.PushAll(d.syncBuf, Truth(bits)).value
    decreases |bits|
  {
    if bits != [] {
      var init := bits[..|bits| - 1];
      FeedWindow(d, init);
      assert Truth(bits)[..|bits| - 1] == Truth(init);
      var c := Feed(d, init).value.0;
      BB.PushBound(c.syncBuf, bits[|bits| - 1] != 0);
    }
  }

  /** The order in which a sync word's bits must arrive to be recognised:
      the last sync byte first, each byte most significant bit first. */
  function Arrival(sw: seq<byte>): (a: seq<bool>)
    ensures |a| == 8 * |sw|
  {
    if sw == [] then []
    else
      SW.ByteToBitfield(sw[|sw| - 1], SW.MSB) + Arrival(sw[..|sw| - 1])
  }

  /** The "lsb" sync word, read backwards, is the arrival order. */
  lemma {:induction false} ReverseExpand(sw: seq<byte>)
    ensures Reverse(SW.Expand(sw, SW.LSB)) == Arrival(sw)
  {
    if sw != [] {
      var init := sw[..|sw| - 1];
      var v := sw[|sw| - 1];
      ReverseExpand(init);
      ReverseAppend(SW.Expand(init, SW.LSB), SW.ByteToBitfield(v, SW.LSB));
      ReverseReverse(SW.ByteToBitfield(v, SW.MSB));
    }
  }

  /** A fresh decoder's window equals its sync word after a history of bits
      exactly when at least 8n bits have arrived and the last 8n of them
      are the sync word in arrival order. */
  lemma SyncWindow(sw: seq<byte>, bits: seq<int>)
    requires sw != []
    ensures Feed(Create(sw), bits).Ok?
    ensures Feed(Create(sw), bits).value.0.syncBuf.bits == Create(sw).syncWord <==>
      |bits| >= 8 * |sw| && Last(Truth(bits), 8 * |sw|) == Arrival(sw)
  {
    var d := Create(sw);
    FeedWindow(d, bits);
    BB.PushAllKeepsLastLsb(d.syncBuf, Truth(bits));
    var w := Last(Truth(bits), 8 * |sw|);
    ReverseExpand(sw);
    ReverseReverse(w);
    ReverseReverse(d.syncWord);
  }
}
