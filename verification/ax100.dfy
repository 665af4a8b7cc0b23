/** spacelab_decoder/ax100.py: the AX100 "mode 5" frame. After the preamble
    and sync word comes a 3-byte Golay(24,12) field carrying the length of
    the Reed-Solomon block, then the block itself (data and 32 parity bytes),
    scrambled with the CCSDS sequence. Frames are decoded either whole or one
    byte at a time. */
module Ax100 {
  import opened Bits
  import opened Options
  import G = Golay24
  import RS = ReedSolomon
  import GF256

  const DefaultPreamble: seq<byte> := [0xAA, 0xAA, 0xAA, 0xAA, 0xAA, 0xAA, 0xAA, 0xAA]
  const DefaultSyncWord: seq<byte> := [147, 11, 81, 222]

  /** `len(_AX100_CCSDS_POLY)`: the CCSDS scrambling sequence repeats
      after 255 bytes. */
  const PolyLength: int := 255

  /** `_AX100_CCSDS_POLY[i]`, looked up by binary search on i. */
  function Poly(i: int): byte
    requires 0 <= i < PolyLength
  {
    if i < 128 then
      if i < 64 then
        if i < 32 then
          if i < 16 then
            GF256.Pick16(i - 0, 0xFF, 0x48, 0x0E, 0xC0, 0x9A, 0x0D, 0x70, 0xBC, 0x8E, 0x2C, 0x93, 0xAD, 0xA7, 0xB7, 0x46, 0xCE)
          else
            GF256.Pick16(i - 16, 0x5A, 0x97, 0x7D, 0xCC, 0x32, 0xA2, 0xBF, 0x3E, 0x0A, 0x10, 0xF1, 0x88, 0x94, 0xCD, 0xEA, 0xB1)
        else
          if i < 48 then
            GF256.Pick16(i - 32, 0xFE, 0x90, 0x1D, 0x81, 0x34, 0x1A, 0xE1, 0x79, 0x1C, 0x59, 0x27, 0x5B, 0x4F, 0x6E, 0x8D, 0x9C)
          else
            GF256.Pick16(i - 48, 0xB5, 0x2E, 0xFB, 0x98, 0x65, 0x45, 0x7E, 0x7C, 0x14, 0x21, 0xE3, 0x11, 0x29, 0x9B, 0xD5, 0x63)
      else
        if i < 96 then
          if i < 80 then
            GF256.Pick16(i - 64, 0xFD, 0x20, 0x3B, 0x02, 0x68, 0x35, 0xC2, 0xF2, 0x38, 0xB2, 0x4E, 0xB6, 0x9E, 0xDD, 0x1B, 0x39)
          else
            GF256.Pick16(i - 80, 0x6A, 0x5D, 0xF7, 0x30, 0xCA, 0x8A, 0xFC, 0xF8, 0x28, 0x43, 0xC6, 0x22, 0x53, 0x37, 0xAA, 0xC7)
        else
          if i < 112 then
            GF256.Pick16(i - 96, 0xFA, 0x40, 0x76, 0x04, 0xD0, 0x6B, 0x85, 0xE4, 0x71, 0x64, 0x9D, 0x6D, 0x3D, 0xBA, 0x36, 0x72)
          else
            GF256.Pick16(i - 112, 0xD4, 0xBB, 0xEE, 0x61, 0x95, 0x15, 0xF9, 0xF0, 0x50, 0x87, 0x8C, 0x44, 0xA6, 0x6F, 0x55, 0x8F)
    else
      if i < 192 then
        if i < 160 then
          if i < 144 then
            GF256.Pick16(i - 128, 0xF4, 0x80, 0xEC, 0x09, 0xA0, 0xD7, 0x0B, 0xC8, 0xE2, 0xC9, 0x3A, 0xDA, 0x7B, 0x74, 0x6C, 0xE5)
          else
            GF256.Pick16(i - 144, 0xA9, 0x77, 0xDC, 0xC3, 0x2A, 0x2B, 0xF3, 0xE0, 0xA1, 0x0F, 0x18, 0x89, 0x4C, 0xDE, 0xAB, 0x1F)
        else
          if i < 176 then
            GF256.Pick16(i - 160, 0xE9, 0x01, 0xD8, 0x13, 0x41, 0xAE, 0x17, 0x91, 0xC5, 0x92, 0x75, 0xB4, 0xF6, 0xE8, 0xD9, 0xCB)
          else
            GF256.Pick16(i - 176, 0x52, 0xEF, 0xB9, 0x86, 0x54, 0x57, 0xE7, 0xC1, 0x42, 0x1E, 0x31, 0x12, 0x99, 0xBD, 0x56, 0x3F)
      else
        if i < 224 then
          if i < 208 then
            GF256.Pick16(i - 192, 0xD2, 0x03, 0xB0, 0x26, 0x83, 0x5C, 0x2F, 0x23, 0x8B, 0x24, 0xEB, 0x69, 0xED, 0xD1, 0xB3, 0x96)
          else
            GF256.Pick16(i - 208, 0xA5, 0xDF, 0x73, 0x0C, 0xA8, 0xAF, 0xCF, 0x82, 0x84, 0x3C, 0x62, 0x25, 0x33, 0x7A, 0xAC, 0x7F)
        else
          if i < 240 then
            GF256.Pick16(i - 224, 0xA4, 0x07, 0x60, 0x4D, 0x06, 0xB8, 0x5E, 0x47, 0x16, 0x49, 0xD6, 0xD3, 0xDB, 0xA3, 0x67, 0x2D)
          else
            GF256.Pick16(i - 240, 0x4B, 0xBE, 0xE6, 0x19, 0x51, 0x5F, 0x9F, 0x05, 0x08, 0x78, 0xC4, 0x4A, 0x66, 0xF5, 0x58, 0x00)
  }

  /** The exceptions the module raises or lets through: an IndexError
      (a list index out of range), a TypeError (unpacking an integer), the
      Golay RuntimeError and the Reed-Solomon RuntimeError. */
  datatype AxError = IndexError | TypeError | GolayError | Uncorrectable

  /** Python's `s[:n]`: a negative n counts from the end. */
  function Take<T>(s: seq<T>, n: int): (r: seq<T>)
    ensures |r| == if n >= 0 then RS.Min(n, |s|) else RS.Max(|s| + n, 0)
    ensures r == s[..|r|]
  {
    if n >= 0 then (if n <= |s| then s[..n] else s)
    else if |s| + n >= 0 then s[..|s| + n]
    else []
  }

  /** A prefix one element longer. */
  lemma TakeOneMore<T>(s: seq<T>, i: int)
    requires 0 <= i < |s|
    ensures s[..i + 1] == s[..i] + [s[i]]
  {
  }

  /** The first three elements, listed. */
  lemma FirstThree<T>(s: seq<T>)
    requires |s| >= 3
    ensures [s[0], s[1]] + [s[2]] == s[..3]
  {
  }

  /** A prefix of a prefix. */
  lemma TakeTake<T>(s: seq<T>, i: int, j: int)
    requires 0 <= i <= j <= |s|
    ensures s[..j][..i] == s[..i]
  {
  }

  /** Appending the next element of t to a prefix of t, after r. */
  lemma AppendNext<T>(r: seq<T>, t: seq<T>, i: int)
    requires 0 <= i < |t|
    ensures r + t[..i] + [t[i]] == r + t[..i + 1]
  {
    TakeOneMore(t, i);
  }

  // ---------------------------------------------------------------------
  // Scrambling

  /** `_scrambling`'s start position: one period is subtracted from a start
      past the end of the sequence. */
  function StartIndex(start: int): int
  {
    if start > PolyLength - 1 then start - PolyLength else start
  }

  /** `_AX100_CCSDS_POLY[i]` with Python's indexing: a negative index
      counts from the end. */
  function PolyAt(i: int): byte
    requires -PolyLength <= i < PolyLength
  {
    if i < 0 then Poly(i + PolyLength) else Poly(i)
  }

  /** Element k of a scrambling that starts at sequence index s. */
  function ScrambledAt(data: seq<byte>, s: int, k: int): byte
    requires 0 <= k < |data| && -PolyLength <= s + k < PolyLength
  {
    XorByte(data[k], PolyAt(s + k))
  }

  /** `_scrambling(data, start_pos)`: each byte is xor-ed with the sequence
      from the start position on. Indices outside [-255, 255) raise, which
      happens unless the data is empty or fits between the start and the
      end of the sequence. */
  function Scramble(data: seq<byte>, start: int): (r: Result<seq<byte>, AxError>)
    ensures r.Err? <==> |data| > 0 && (StartIndex(start) < -PolyLength || StartIndex(start) + |data| > PolyLength)
    ensures r.Ok? ==> |r.value| == |data|
    ensures r.Err? ==> r.error == IndexError
  {
    var s := StartIndex(start);
    if |data| > 0 && (s < -PolyLength || s + |data| > PolyLength) then Err(IndexError)
    else Ok(seq(|data|, k requires 0 <= k < |data| => ScrambledAt(data, s, k)))
  }

  /** Scrambling is its own inverse. */
  lemma ScrambleTwice(data: seq<byte>, start: int)
    requires Scramble(data, start).Ok?
    ensures Scramble(Scramble(data, start).value, start) == Ok(data)
  {
    var t := Scramble(data, start).value;
    var s := StartIndex(start);
    forall k | 0 <= k < |data| ensures Scramble(t, start).value[k] == data[k] {
      XorCancel(data[k], PolyAt(s + k));
    }
    assert Scramble(t, start).value == data;
  }

  /** Scrambling one byte at offset k of a block gives byte k of the
      block scrambled from 0: what the byte-wise decoder relies on. */
  lemma ScrambleOne(data: seq<byte>, k: int)
    requires 0 <= k < |data| <= PolyLength
    ensures Scramble(data, 0).Ok? && Scramble([data[k]], k) == Ok([Scramble(data, 0).value[k]])
  {
    assert StartIndex(k) == k && StartIndex(0) == 0;
    var one := Scramble([data[k]], k).value;
    assert one[0] == ScrambledAt([data[k]], k, 0) == ScrambledAt(data, 0, k);
    assert one == [one[0]];
  }

  // ---------------------------------------------------------------------
  // The Golay length field

  /** The length field as `decode` and `decode_byte` unpack it: `gol.decode`
      of a 3-byte list returns a list [high nibble, low byte], so the
      unpacked "length" is the high nibble alone; the -1 of a failed
      decoding (or the integer a 2-byte list gives) cannot be unpacked. */
  function GolayFieldAsWritten(field: seq<byte>): (r: Result<int, AxError>)
    ensures r.Err? <==> |field| != 3 || G.Decode(G.ByteList(field)) == G.Failed
    ensures r.Ok? ==> 0 <= r.value < 16
  {
    G.DecodeShape(G.ByteList(field));
    G.DecodeCloseToReceived(G.ByteList(field));
    UnpackAsWritten(G.Decode(G.ByteList(field)))
  }

  /** `pkt_len, golay_err = out` on an output of the Golay decoder. */
  function UnpackAsWritten(out: G.Output): (r: Result<int, AxError>)
    ensures r.Err? <==> !out.Pair?
  {
    match out
    case IndexError => Err(IndexError)
    case Failed => Err(TypeError)
    case Value(_) => Err(TypeError)
    case Pair(hi, _) => Ok(hi)
  }

  /** The length field as intended: the decoded 12-bit value, or None
      (the -1 of a failed decoding); a list shorter than two bytes
      raises. */
  function GolayLength(field: seq<byte>): (r: Result<Option<int>, AxError>)
  {
    Unpack(G.Decode(G.ByteList(field)))
  }

  /** The intended reading of an output of the Golay decoder. */
  function Unpack(out: G.Output): (r: Result<Option<int>, AxError>)
    ensures r.Err? <==> out.IndexError?
    ensures r == Ok(None) <==> out.Failed?
  {
    match out
    case IndexError => Err(IndexError)
    case Failed => Ok(None)
    case Value(v) => Ok(Some(v))
    case Pair(hi, lo) => Ok(Some(hi * 256 + lo))
  }

  /** The intended length is a 12-bit value within three bit errors of the
      low twelve bits of the received field; it is missing exactly when the
      Golay decoder gives up; short fields raise. */
  lemma GolayLengthSpec(field: seq<byte>)
    ensures GolayLength(field).Err? <==> |field| < 2
    ensures GolayLength(field) == Ok(None) <==> G.Decode(G.ByteList(field)) == G.Failed
    ensures GolayLength(field).Ok? && GolayLength(field).value.Some? ==>
      var v := GolayLength(field).value.value;
      0 <= v < 0x1000 && Ones(Xor(v, G.Received(G.ByteList(field)).value % 0x1000)) <= 3
  {
    G.DecodeShape(G.ByteList(field));
    G.DecodeCloseToReceived(G.ByteList(field));
  }

  /** On every output the Golay decoder can give for a 3-byte field (a
      failure, or a nibble and a byte: Golay24.ThreeByteShape), the
      unpacking as written keeps only v / 256 of the intended length v, so
      every length from 1 to 255 reads as 0, and turns a failed decoding
      into a TypeError where the code expects -1. */
  lemma GolayAsWrittenDiffers(out: G.Output)
    requires out == G.Failed || (out.Pair? && 0 <= out.lo < 256)
    ensures Unpack(out).Ok? && Unpack(out).value.Some? ==>
      UnpackAsWritten(out) == Ok(Unpack(out).value.value / 256)
    ensures Unpack(out) == Ok(None) ==> UnpackAsWritten(out) == Err(TypeError)
  {
    if out.Pair? {
      HighNibble(out.hi, out.lo);
    }
  }

  lemma HighNibble(hi: int, lo: int)
    requires 0 <= lo < 256
    ensures (hi * 256 + lo) / 256 == hi
  {
    LemmaFundamentalDivMod(hi * 256 + lo, 256, hi, lo);
  }

  // ---------------------------------------------------------------------
  // Configuration

  /** The byte-wise decoder's state: the position in the frame, the data
      length announced by the Golay field (without the 32 parity bytes),
      the Golay bytes so far and the descrambled Reed-Solomon bytes so far. */
  datatype Decoder = Decoder(pos: int, pktLen: int, golayBuf: seq<byte>, rsBuf: seq<byte>)

  /** The state `reset_decoder` leaves. */
  const Fresh: Decoder := Decoder(0, 0, [], [])

  /** An `AX100Mode5` object. */
  datatype Ax100 = Ax100(preamble: seq<byte>, syncWord: seq<byte>, ignoreGolayError: bool, dec: Decoder)

  /** The constructor: default preamble and sync word, Golay errors not
      ignored, a fresh byte-wise decoder. */
  function Create(): (a: Ax100)
    ensures a.preamble == DefaultPreamble && a.syncWord == DefaultSyncWord
    ensures !a.ignoreGolayError && a.dec == Fresh
  {
    Ax100(DefaultPreamble, DefaultSyncWord, false, Fresh)
  }

  function SetPreamble(a: Ax100, p: seq<byte>): Ax100 { a.(preamble := p) }
  function SetSyncWord(a: Ax100, sw: seq<byte>): Ax100 { a.(syncWord := sw) }
  function SetIgnoreGolayError(a: Ax100, enabled: bool): Ax100 { a.(ignoreGolayError := enabled) }

  /** Each setter is read back by its getter and touches nothing else. */
  lemma SettersIndependent(a: Ax100, p: seq<byte>, sw: seq<byte>, enabled: bool)
    ensures SetPreamble(a, p).preamble == p && SetPreamble(a, p) == a.(preamble := p)
    ensures SetSyncWord(a, sw).syncWord == sw && SetSyncWord(a, sw).preamble == a.preamble &&
      SetSyncWord(a, sw).ignoreGolayError == a.ignoreGolayError && SetSyncWord(a, sw).dec == a.dec
    ensures SetIgnoreGolayError(a, enabled).ignoreGolayError == enabled &&
      SetIgnoreGolayError(a, enabled).preamble == a.preamble &&
      SetIgnoreGolayError(a, enabled).syncWord == a.syncWord && SetIgnoreGolayError(a, enabled).dec == a.dec
  {
  }

  /** `reset_decoder`: only the byte-wise decoder's state changes. */
  function ResetDecoder(a: Ax100): (b: Ax100)
    ensures b.dec == Fresh && b.preamble == a.preamble && b.syncWord == a.syncWord
    ensures b.ignoreGolayError == a.ignoreGolayError
  {
    a.(dec := Fresh)
  }

  // ---------------------------------------------------------------------
  // Whole frames

  /** `rs.decode(block, pad)` as this module uses it: the corrected message
      part, the Reed-Solomon RuntimeError, or the IndexError of a block
      shorter than 255 - pad symbols (or empty). */
  function RsDecode(block: seq<byte>, pad: int): (r: Result<seq<byte>, AxError>)
    ensures r.Ok? ==> |block| > 0 && |r.value| == RS.Max(|block| - RS.NROOTS, 0)
    ensures r.Err? ==> r.error == IndexError || r.error == Uncorrectable
  {
    if |block| == 0 || |block| < GF256.NN - pad then Err(IndexError)
    else
      match RS.Decode(block, pad)
      case Err(_) => Err(Uncorrectable)
      case Ok(d) => Ok(d.data)
  }

  /** A block of the right size with all-zero syndromes decodes to its
      message part unchanged; otherwise it raises exactly when the
      Reed-Solomon decoder does. */
  lemma RsDecodeSpec(block: seq<byte>, pad: int)
    requires |block| >= 1 && |block| >= GF256.NN - pad
    ensures RsDecode(block, pad).Err? <==> RS.Decode(block, pad).Err?
    ensures RS.SynError(RS.Syndromes(block, pad)) == 0 ==> RsDecode(block, pad) == Ok(RS.DropParity(block))
  {
    RS.DecodeSpec(block, pad);
  }

  /** The length byte count of a whole frame (`pkt_len`, parity included):
      the Golay value; on a failed decoding the raw third byte when Golay
      errors are ignored, the Golay RuntimeError otherwise. */
  function FrameLength(a: Ax100, pkt: seq<byte>): (r: Result<int, AxError>)
    ensures r.Ok? ==> |pkt| >= 2
  {
    LengthField(a.ignoreGolayError, pkt)
  }

  /** FrameLength, which reads only the `ignore_golay_error` flag. */
  function LengthField(ignoreGolayError: bool, pkt: seq<byte>): (r: Result<int, AxError>)
    ensures r.Ok? ==> |pkt| >= 2
  {
    GolayLengthSpec(pkt[..RS.Min(3, |pkt|)]);
    match GolayLength(pkt[..RS.Min(3, |pkt|)])
    case Err(e) => Err(e)
    case Ok(Some(v)) => Ok(v)
    case Ok(None) =>
      if !ignoreGolayError then Err(GolayError)
      else if |pkt| < 3 then Err(IndexError)
      else Ok(pkt[2] as int)
  }

  /** `decode(pkt)` for a frame without preamble and sync word: the length
      field, descrambling of the rest, Reed-Solomon decoding shortened to
      the announced length, and the first `pkt_len - 32` message bytes
      (Python slice semantics for a negative count). */
  function Decode(a: Ax100, pkt: seq<byte>): (r: Result<seq<byte>, AxError>)
    ensures a.ignoreGolayError ==> r != Err(GolayError)
    ensures r.Ok? ==> |pkt| > 3 && |r.value| <= RS.Max(|pkt| - 3 - 32, 0)
  {
    DecodeFrame(a.ignoreGolayError, pkt)
  }

  /** Decode, which reads only the `ignore_golay_error` flag. */
  function DecodeFrame(ignoreGolayError: bool, pkt: seq<byte>): (r: Result<seq<byte>, AxError>)
    ensures ignoreGolayError ==> r != Err(GolayError)
    ensures r.Ok? ==> |pkt| > 3 && |r.value| <= RS.Max(|pkt| - 3 - 32, 0)
  {
    match LengthField(ignoreGolayError, pkt)
    case Err(e) => Err(e)
    case Ok(n) => DecodeBody(pkt, n)
  }

  /** Decode once the length field has been read as n. */
  function DecodeBody(pkt: seq<byte>, n: int): (r: Result<seq<byte>, AxError>)
    ensures r.Err? ==> r.error != GolayError
    ensures r.Ok? ==> |pkt| > 3 && |r.value| <= RS.Max(|pkt| - 3 - 32, 0)
  {
    match Scramble(if |pkt| >= 3 then pkt[3..] else [], 0)
    case Err(e) => Err(e)
    case Ok(block) =>
      match RsDecode(block, 255 - 32 - (n - 32))
      case Err(e) => Err(e)
      case Ok(data) => Ok(Take(data, n - 32))
  }

  /** `encode(data)`. The Golay encoder of the source is an unimplemented
      stub, so it is a parameter here: `golay(n)` is the field for length n.
      The frame is preamble, sync word, Golay field, data and the 32 parity
      bytes, with everything after the first three Golay bytes scrambled;
      that part must fit in one period of the scrambling sequence. */
  function Encode(a: Ax100, data: seq<byte>, golay: int -> seq<byte>): (r: Result<seq<byte>, AxError>)
    ensures r.Ok? ==> |r.value| == |a.preamble| + |a.syncWord| + |golay(|data| + 32)| + |data| + RS.NROOTS
    ensures r.Ok? ==> r.value[..|a.preamble| + |a.syncWord|] == a.preamble + a.syncWord
  {
    Assemble(a.preamble + a.syncWord, golay(|data| + 32), data + RS.Encode(data, 255 - 32 - |data|))
  }

  /** The frame `head + field + block`, scrambled from the fourth byte after
      the head on. */
  function Assemble(head: seq<byte>, field: seq<byte>, block: seq<byte>): (r: Result<seq<byte>, AxError>)
    ensures r.Ok? ==> |r.value| == |head| + |field| + |block|
    ensures r.Ok? ==> r.value[..|head|] == head
  {
    var pkt := head + field + block;
    var off := |head| + 3;
    if off >= |pkt| then Ok(pkt)
    else
      match Scramble(pkt[off..], 0)
      case Err(e) => Err(e)
      case Ok(t) => Ok(pkt[..off] + t)
  }

  /** A 3-byte field and a block of at most 255 bytes assemble into the
      head, the field and the scrambled block. */
  lemma AssembleLayout(head: seq<byte>, field: seq<byte>, block: seq<byte>)
    requires |field| == 3 && |block| <= PolyLength
    ensures Assemble(head, field, block).Ok?
    ensures var body := Assemble(head, field, block).value[|head|..];
      body[..3] == field && Scramble(body[3..], 0) == Ok(block)
  {
    var pkt := head + field + block;
    var off := |head| + 3;
    assert pkt[off..] == block;
    assert pkt[..off] == head + field;
    if block == [] {
      assert Assemble(head, field, block).value[|head|..] == field;
      assert Scramble([], 0).value == [];
    } else {
      ScrambleTwice(block, 0);
      var t := Scramble(block, 0).value;
      assert Assemble(head, field, block).value == head + (field + t);
    }
  }

  /** With a 3-byte Golay field and at most 223 data bytes, encoding
      succeeds and the frame after the sync word is the field followed by
      the scrambled data and parity. */
  lemma EncodeLayout(a: Ax100, data: seq<byte>, golay: int -> seq<byte>)
    requires |golay(|data| + 32)| == 3 && |data| <= 223
    ensures Encode(a, data, golay).Ok?
    ensures var body := Encode(a, data, golay).value[|a.preamble| + |a.syncWord|..];
      body[..3] == golay(|data| + 32) &&
      Scramble(body[3..], 0) == Ok(data + RS.Encode(data, 255 - 32 - |data|))
  {
    AssembleLayout(a.preamble + a.syncWord, golay(|data| + 32), data + RS.Encode(data, 255 - 32 - |data|));
  }

  /** `decode(pkt)` as written: the length is the unpacked nibble, which is
      never -1, so the `ignore_golay_error` branch cannot be reached and a
      failed Golay decoding raises TypeError whatever the flag says. */
  function DecodeAsWritten(pkt: seq<byte>): (r: Result<seq<byte>, AxError>)
  {
    match GolayFieldAsWritten(pkt[..RS.Min(3, |pkt|)])
    case Err(e) => Err(e)
    case Ok(n) => DecodeBody(pkt, n)
  }

  /** Against the intended reading: where the Golay field decodes to v, the
      code as written decodes the frame as one of length v / 256 (so every
      frame of up to 255 bytes as one of length 0); where the field cannot
      be corrected, it raises TypeError even when Golay errors are to be
      ignored. */
  lemma DecodeAsWrittenDiffers(a: Ax100, pkt: seq<byte>)
    requires |pkt| >= 3
    ensures GolayLength(pkt[..3]) == Ok(None) ==> DecodeAsWritten(pkt) == Err(TypeError)
    ensures GolayLength(pkt[..3]).Ok? && GolayLength(pkt[..3]).value.Some? ==>
      var v := GolayLength(pkt[..3]).value.value;
      FrameLength(a, pkt) == Ok(v) && DecodeAsWritten(pkt) == DecodeBody(pkt, v / 256)
  {
    var field := pkt[..3];
    assert pkt[..RS.Min(3, |pkt|)] == field;
    G.ThreeByteShape(G.ByteList(field));
    GolayAsWrittenDiffers(G.Decode(G.ByteList(field)));
  }

  /** A frame whose length field reads n and whose descrambled remainder
      decodes to m yields the first n - 32 bytes of m. */
  lemma DecodeOk(a: Ax100, pkt: seq<byte>, n: int, block: seq<byte>, m: seq<byte>)
    requires |pkt| >= 3 && FrameLength(a, pkt) == Ok(n) && Scramble(pkt[3..], 0) == Ok(block)
    requires RsDecode(block, 255 - 32 - (n - 32)) == Ok(m)
    ensures Decode(a, pkt) == Ok(Take(m, n - 32))
  {
    assert Decode(a, pkt) == DecodeBody(pkt, n);
  }

  /** Decoding inverts encoding: when the Golay field decodes to the length
      it encodes and the Reed-Solomon code word has all-zero syndromes, the
      frame after the sync word decodes to the data. */
  lemma EncodeDecode(a: Ax100, data: seq<byte>, golay: int -> seq<byte>)
    requires |golay(|data| + 32)| == 3 && GolayLength(golay(|data| + 32)) == Ok(Some(|data| + 32))
    requires |data| <= 223
    requires RS.SynError(RS.Syndromes(data + RS.Encode(data, 223 - |data|), 223 - |data|)) == 0
    ensures Encode(a, data, golay).Ok?
    ensures Decode(a, Encode(a, data, golay).value[|a.preamble| + |a.syncWord|..]) == Ok(data)
  {
    EncodeLayout(a, data, golay);
    var body := Encode(a, data, golay).value[|a.preamble| + |a.syncWord|..];
    var block := data + RS.Encode(data, 223 - |data|);
    assert FrameLength(a, body) == Ok(|data| + 32) by {
      assert body[..RS.Min(3, |body|)] == golay(|data| + 32);
    }
    assert Scramble(body[3..], 0) == Ok(block);
    RsDecodeSpec(block, 223 - |data|);
    assert RsDecode(block, 223 - |data|) == Ok(data) by {
      assert RS.DropParity(block) == data;
    }
    DecodeOk(a, body, |data| + 32, block, data);
    assert Take(data, |data|) == data;
  }

  // ---------------------------------------------------------------------
  // Byte by byte

  /** What `decode_byte` gives back: nothing yet, a decoded frame, or an
      exception. The decoder's state changes either way; the configuration
      never does, so the byte-wise functions return the new decoder state
      alone. */
  type Outcome = Result<Option<seq<byte>>, AxError>

  /** Between frames: at position 0 with both buffers empty. */
  predicate Idle(d: Decoder)
  {
    d.pos == 0 && d.golayBuf == [] && d.rsBuf == []
  }

  /** What a byte does before any Reed-Solomon decoding: nothing to report,
      an exception, or a completed block that is to be decoded. */
  datatype Step = Pending | Raised(err: AxError) | BlockReady(block: seq<byte>)

  /** A decoder state with what the byte did. */
  datatype Collected = Collected(dec: Decoder, step: Step)

  /** A decoder state with what `decode_byte` returned or raised. */
  datatype Advanced = Advanced(dec: Decoder, outcome: Outcome)

  /** The state after a run of bytes, with each byte's outcome. */
  datatype Run = Run(dec: Decoder, outcomes: seq<Outcome>)

  /** The state after a run of bytes, with each byte's step. */
  datatype Collection = Collection(dec: Decoder, steps: seq<Step>)

  /** The outcome of a step that needs no Reed-Solomon decoding. */
  function Report(st: Step): (o: Outcome)
    requires !st.BlockReady?
    ensures o.Ok? <==> st.Pending?
    ensures o.Ok? ==> o.value.None?
  {
    if st.Pending? then Ok(None) else Err(st.err)
  }

  /** The step for the third byte: the Golay field is decoded into the data
      length. A failed decoding takes the raw byte as the length when Golay
      errors are ignored, and otherwise resets the decoder and raises. */
  function ReadHeader(a: Ax100, b: byte): (r: Collected)
  {
    HeaderWith(a, b, GolayLength(a.dec.golayBuf + [b]))
  }

  /** ReadHeader once the length field has been read as `len`. */
  function HeaderWith(a: Ax100, b: byte, len: Result<Option<int>, AxError>): (r: Collected)
  {
    var e := a.dec.(golayBuf := a.dec.golayBuf + [b], pos := a.dec.pos + 1);
    match len
    case Err(err) => Collected(e, Raised(err))
    case Ok(None) =>
      if a.ignoreGolayError then Collected(e.(pktLen := b - 32, golayBuf := []), Pending)
      else Collected(Fresh, Raised(GolayError))
    case Ok(Some(v)) => Collected(e.(pktLen := v - 32, golayBuf := []), Pending)
  }

  /** A byte of the block: descrambled at its offset in the block and
      collected; the last one completes the block and returns the position
      to 0. A descrambling offset past the sequence raises before anything
      changes. */
  function BlockByte(d: Decoder, b: byte): (r: Collected)
  {
    match Scramble([b], d.pos - 3)
    case Err(err) => Collected(d, Raised(err))
    case Ok(s) =>
      if d.pos < 3 + d.pktLen + 32 - 1 then Collected(d.(rsBuf := d.rsBuf + s, pos := d.pos + 1), Pending)
      else Collected(d.(rsBuf := d.rsBuf + s, pos := 0), BlockReady(d.rsBuf + s))
  }

  /** `decode_byte(byte)` up to the Reed-Solomon call: two Golay bytes are
      collected, the third completes the length field; then each block byte
      is collected until the byte at position pktLen + 34 completes the
      block. A position past that resets the decoder. The source's first
      three block branches all collect the byte, so they are one case
      here. */
  function Collect(a: Ax100, b: byte): (r: Collected)
    ensures r.step.BlockReady? ==>
      r.dec == a.dec.(pos := 0, rsBuf := r.step.block) && a.dec.pos == 3 + a.dec.pktLen + 31 && a.dec.pos >= 3
    ensures a.dec.pos >= 3 && a.dec.pos > 3 + a.dec.pktLen + 31 ==> r == Collected(Fresh, Pending)
  {
    var d := a.dec;
    if d.pos < 2 then Collected(d.(golayBuf := d.golayBuf + [b], pos := d.pos + 1), Pending)
    else if d.pos == 3 - 1 then ReadHeader(a, b)
    else if d.pos <= 3 + d.pktLen + 32 - 1 then BlockByte(d, b)
    else Collected(Fresh, Pending)
  }

  /** The Reed-Solomon call that ends a frame, on the block collected in
      the state. On success the block buffer is cleared and the first
      pktLen bytes come back. On an exception the buffer is kept, as the
      source does (`resetOnError` false), or the decoder is reset
      (`resetOnError` true). */
  function FinishFrame(d: Decoder, resetOnError: bool): (r: Advanced)
  {
    match RsDecode(d.rsBuf, 255 - 32 - d.pktLen)
    case Err(err) => Advanced(if resetOnError then Fresh else d, Err(err))
    case Ok(data) => Advanced(d.(rsBuf := []), Ok(Some(Take(data, d.pktLen))))
  }

  /** `decode_byte(byte)`: the byte is collected, and a completed block is
      decoded. */
  function Advance(a: Ax100, b: byte, resetOnError: bool): (r: Advanced)
  {
    var c := Collect(a, b);
    if c.step.BlockReady? then FinishFrame(c.dec, resetOnError) else Advanced(c.dec, Report(c.step))
  }

  /** The third byte as written: the unpacked nibble becomes the length,
      and a failed decoding raises TypeError with the byte appended to the
      Golay buffer and nothing reset. */
  function ReadHeaderAsWritten(a: Ax100, b: byte): (r: Collected)
  {
    HeaderWith(a, b, AsLength(GolayFieldAsWritten(a.dec.golayBuf + [b])))
  }

  /** An unpacked value as written, in the form HeaderWith takes: never
      missing, since the nibble is never -1. */
  function AsLength(r: Result<int, AxError>): (len: Result<Option<int>, AxError>)
    ensures len != Ok(None)
  {
    match r
    case Err(e) => Err(e)
    case Ok(hi) => Ok(Some(hi))
  }

  /** ReadHeaderAsWritten and ReadHeader on one output of the Golay
      decoder for a 3-byte field. */
  lemma HeaderAsWrittenOf(a: Ax100, b: byte, out: G.Output)
    requires out == G.Failed || (out.Pair? && 0 <= out.lo < 256)
    ensures Unpack(out) == Ok(None) ==>
      HeaderWith(a, b, AsLength(UnpackAsWritten(out))) ==
        Collected(a.dec.(golayBuf := a.dec.golayBuf + [b], pos := a.dec.pos + 1), Raised(TypeError))
    ensures Unpack(out).Ok? && Unpack(out).value.Some? ==>
      var v := Unpack(out).value.value;
      HeaderWith(a, b, Unpack(out)).dec.pktLen == v - 32 &&
      HeaderWith(a, b, AsLength(UnpackAsWritten(out))) ==
        Collected(Decoder(a.dec.pos + 1, v / 256 - 32, [], a.dec.rsBuf), Pending)
  {
    GolayAsWrittenDiffers(out);
  }

  /** Against the intended reading of a 3-byte field: a length v is stored
      as v / 256 - 32 instead of v - 32, and an uncorrectable field raises
      TypeError, whatever the flag, leaving the decoder at position 3 with
      the field still buffered where the source meant to reset it. */
  lemma ReadHeaderAsWrittenDiffers(a: Ax100, b: byte)
    requires |a.dec.golayBuf| == 2
    ensures var field := a.dec.golayBuf + [b];
      GolayLength(field) == Ok(None) ==>
        ReadHeaderAsWritten(a, b) == Collected(a.dec.(golayBuf := field, pos := a.dec.pos + 1), Raised(TypeError))
    ensures var field := a.dec.golayBuf + [b];
      GolayLength(field).Ok? && GolayLength(field).value.Some? ==>
        var v := GolayLength(field).value.value;
        ReadHeader(a, b).dec.pktLen == v - 32 &&
        ReadHeaderAsWritten(a, b) == Collected(Decoder(a.dec.pos + 1, v / 256 - 32, [], a.dec.rsBuf), Pending)
  {
    var field := a.dec.golayBuf + [b];
    var out := G.Decode(G.ByteList(field));
    assert ReadHeader(a, b) == HeaderWith(a, b, Unpack(out));
    assert ReadHeaderAsWritten(a, b) == HeaderWith(a, b, AsLength(UnpackAsWritten(out)));
    G.ThreeByteShape(G.ByteList(field));
    HeaderAsWrittenOf(a, b, out);
  }

  /** `decode_byte(byte)` as written up to the Reed-Solomon call: only the
      third byte differs from Collect. */
  function CollectAsWritten(a: Ax100, b: byte): (r: Collected)
    ensures a.dec.pos != 3 - 1 ==> r == Collect(a, b)
  {
    if a.dec.pos == 3 - 1 then ReadHeaderAsWritten(a, b) else Collect(a, b)
  }

  /** `decode_byte(byte)` as written: the nibble length of the third byte,
      and an uncorrectable block that stays in the buffer. Apart from the
      third byte it is Advance without the reset on error, which is what
      the stale-block lemmas below are about. */
  function AdvanceAsWritten(a: Ax100, b: byte): (r: Advanced)
    ensures a.dec.pos != 3 - 1 ==> r == Advance(a, b, false)
  {
    var c := CollectAsWritten(a, b);
    if c.step.BlockReady? then FinishFrame(c.dec, false) else Advanced(c.dec, Report(c.step))
  }

  /** `decode_byte` as written, on the whole state. */
  function DecodeByteAsWritten(a: Ax100, b: byte): (r: Ax100)
    ensures r.preamble == a.preamble && r.syncWord == a.syncWord && r.ignoreGolayError == a.ignoreGolayError
    ensures AdvanceAsWritten(a, b).outcome == Err(Uncorrectable) ==> r.dec.pos == 0 && r.dec.rsBuf != []
  {
    a.(dec := AdvanceAsWritten(a, b).dec)
  }

  /** `decode_byte` with the decoder reset when the block raises, as it is
      when the Golay field does. */
  function DecodeByte(a: Ax100, b: byte): (r: Ax100)
    ensures r.preamble == a.preamble && r.syncWord == a.syncWord && r.ignoreGolayError == a.ignoreGolayError
    ensures var o := Advance(a, b, true).outcome;
      (o == Err(GolayError) || o == Err(Uncorrectable) ==> r.dec == Fresh) &&
      (o.Ok? && o.value.Some? ==> r.dec.pos == 0 && r.dec.rsBuf == [])
  {
    AdvanceOutcomes(a, b);
    a.(dec := Advance(a, b, true).dec)
  }

  /** The length field either sets up the block, raises an IndexError
      for a short field, or raises the Golay error after a reset. */
  lemma ReadHeaderOutcome(a: Ax100, b: byte)
    ensures var r := ReadHeader(a, b);
      r.step == Pending || r.step == Raised(IndexError) || (r.step == Raised(GolayError) && r.dec == Fresh)
  {
    assert ReadHeader(a, b) == HeaderWith(a, b, GolayLength(a.dec.golayBuf + [b]));
  }

  /** A length field read as n, or ignored and replaced by the raw byte n,
      moves on to the block with n - 32 data bytes. */
  lemma HeaderWithLength(a: Ax100, b: byte, len: Result<Option<int>, AxError>, n: int)
    requires len == Ok(Some(n)) || (len == Ok(None) && a.ignoreGolayError && n == b as int)
    ensures HeaderWith(a, b, len) == Collected(Decoder(a.dec.pos + 1, n - 32, [], a.dec.rsBuf), Pending)
  {
  }

  /** A length field that reads as v moves on to the block. */
  lemma ReadHeaderSets(a: Ax100, b: byte, v: int)
    requires GolayLength(a.dec.golayBuf + [b]) == Ok(Some(v))
    ensures ReadHeader(a, b) == Collected(Decoder(a.dec.pos + 1, v - 32, [], a.dec.rsBuf), Pending)
  {
    assert ReadHeader(a, b) == HeaderWith(a, b, GolayLength(a.dec.golayBuf + [b]));
    HeaderWithLength(a, b, GolayLength(a.dec.golayBuf + [b]), v);
  }

  /** An ignored failed decoding takes the raw byte as the length. */
  lemma ReadHeaderIgnores(a: Ax100, b: byte)
    requires GolayLength(a.dec.golayBuf + [b]) == Ok(None) && a.ignoreGolayError
    ensures ReadHeader(a, b) == Collected(Decoder(a.dec.pos + 1, b as int - 32, [], a.dec.rsBuf), Pending)
  {
    assert ReadHeader(a, b) == HeaderWith(a, b, GolayLength(a.dec.golayBuf + [b]));
  }

  /** The corrected end of a block: a frame and an empty block buffer, or
      an exception and a reset decoder. */
  lemma FinishFrameOutcome(d: Decoder)
    ensures var r := FinishFrame(d, true);
      (r.outcome.Ok? ==> r.outcome.value.Some? && r.dec == d.(rsBuf := [])) && (r.outcome.Err? ==> r.dec == Fresh)
  {
  }

  /** A frame comes back only at the end of a block, after which the
      position is 0 and the block buffer empty; in the corrected decoder an
      exception from the length field or the block resets the decoder. */
  lemma AdvanceOutcomes(a: Ax100, b: byte)
    ensures var r := Advance(a, b, true);
      r.outcome.Ok? && r.outcome.value.Some? ==>
        a.dec.pos >= 3 && a.dec.pos == 3 + a.dec.pktLen + 31 && r.dec == a.dec.(pos := 0, rsBuf := [])
    ensures var r := Advance(a, b, true);
      r.outcome == Err(GolayError) || r.outcome == Err(Uncorrectable) ==> r.dec == Fresh
  {
    var c := Collect(a, b);
    if c.step.BlockReady? {
      FinishFrameOutcome(c.dec);
    } else if a.dec.pos == 2 {
      ReadHeaderOutcome(a, b);
    }
  }

  /** As written, a block that raises stays in the buffer at position 0. */
  lemma AsWrittenKeepsBlock(a: Ax100, b: byte)
    requires Advance(a, b, false).outcome == Err(Uncorrectable)
    ensures var d := Advance(a, b, false).dec;
      d.pos == 0 && d.golayBuf == a.dec.golayBuf && |d.rsBuf| == |a.dec.rsBuf| + 1 &&
      d.rsBuf[..|a.dec.rsBuf|] == a.dec.rsBuf
  {
  }

  // ---------------------------------------------------------------------
  // Byte streams

  /** A reader of the length field: the byte at position 2 and the state
      before it give the state after it. The corrected reader is ReadHeader,
      the one as written ReadHeaderAsWritten. */
  type HeaderReader = (Ax100, byte) -> Collected

  /** One byte collected with the third byte read by `header`. */
  function CollectIn(a: Ax100, b: byte, header: HeaderReader): (r: Collected)
    ensures a.dec.pos != 3 - 1 ==> r == Collect(a, b)
  {
    if a.dec.pos == 3 - 1 then header(a, b) else Collect(a, b)
  }

  /** One `decode_byte` step with the third byte read by `header`: the step
      Advance, with or without the reset, where `header` reads as intended;
      with the reader as written and no reset, the step as written. */
  function AdvanceIn(a: Ax100, b: byte, resetOnError: bool, header: HeaderReader): (r: Advanced)
    ensures a.dec.pos != 3 - 1 || header(a, b) == ReadHeader(a, b) ==> r == Advance(a, b, resetOnError)
    ensures !resetOnError && (a.dec.pos != 3 - 1 || header(a, b) == ReadHeaderAsWritten(a, b)) ==>
      r == AdvanceAsWritten(a, b)
  {
    var c := CollectIn(a, b, header);
    if c.step.BlockReady? then FinishFrame(c.dec, resetOnError) else Advanced(c.dec, Report(c.step))
  }

  /** Bytes fed one at a time to `decode_byte`: the final decoder state and
      every outcome. */
  function Feed(a: Ax100, bytes: seq<byte>, resetOnError: bool, header: HeaderReader): (r: Run)
    ensures |r.outcomes| == |bytes|
    decreases |bytes|
  {
    if bytes == [] then Run(a.dec, [])
    else
      var prev := Feed(a, bytes[..|bytes| - 1], resetOnError, header);
      var next := AdvanceIn(a.(dec := prev.dec), bytes[|bytes| - 1], resetOnError, header);
      Run(next.dec, prev.outcomes + [next.outcome])
  }

  /** Feeding one more byte of the same list. */
  lemma FeedNext(a: Ax100, bytes: seq<byte>, k: nat, resetOnError: bool, header: HeaderReader)
    requires k < |bytes|
    ensures var prev := Feed(a, bytes[..k], resetOnError, header);
      var next := AdvanceIn(a.(dec := prev.dec), bytes[k], resetOnError, header);
      Feed(a, bytes[..k + 1], resetOnError, header) == Run(next.dec, prev.outcomes + [next.outcome])
  {
    TakeTake(bytes, k, k + 1);
    assert bytes[..k + 1][k] == bytes[k];
  }

  /** Fed as written, every byte is one DecodeByteAsWritten step on the
      whole state. */
  lemma FeedAsWritten(a: Ax100, bytes: seq<byte>, b: byte)
    ensures a.(dec := Feed(a, bytes + [b], false, ReadHeaderAsWritten).dec) ==
      DecodeByteAsWritten(a.(dec := Feed(a, bytes, false, ReadHeaderAsWritten).dec), b)
  {
    assert (bytes + [b])[..|bytes|] == bytes;
  }

  /** The same bytes collected without Reed-Solomon decoding. */
  function Steps(a: Ax100, bytes: seq<byte>, header: HeaderReader): (r: Collection)
    ensures |r.steps| == |bytes|
    decreases |bytes|
  {
    if bytes == [] then Collection(a.dec, [])
    else
      var prev := Steps(a, bytes[..|bytes| - 1], header);
      var next := CollectIn(a.(dec := prev.dec), bytes[|bytes| - 1], header);
      Collection(next.dec, prev.steps + [next.step])
  }

  /** Collecting one more byte, from a known state. */
  lemma StepsFrom(a: Ax100, bytes: seq<byte>, k: nat, d: Decoder, steps: seq<Step>, next: Decoder, st: Step,
                  header: HeaderReader)
    requires k < |bytes| && Steps(a, bytes[..k], header) == Collection(d, steps)
    requires CollectIn(a.(dec := d), bytes[k], header) == Collected(next, st)
    ensures Steps(a, bytes[..k + 1], header).dec == next
    ensures Steps(a, bytes[..k + 1], header).steps == steps + [st]
  {
    var s := bytes[..k + 1];
    assert s[..|s| - 1] == bytes[..k] by {
      TakeTake(bytes, k, k + 1);
    }
    assert s[|s| - 1] == bytes[k];
    var c := CollectIn(a.(dec := d), bytes[k], header);
    assert Steps(a, s, header) == Collection(c.dec, steps + [c.step]);
  }

  /** No step completes a block. */
  predicate NoBlock(steps: seq<Step>)
  {
    forall i :: 0 <= i < |steps| ==> !steps[i].BlockReady?
  }

  /** Each outcome is what its step reports. */
  predicate Reports(outcomes: seq<Outcome>, steps: seq<Step>)
  {
    |outcomes| == |steps| && forall i :: 0 <= i < |steps| ==> !steps[i].BlockReady? && outcomes[i] == Report(steps[i])
  }

  /** Every step but the third (the length field) is Pending, and the third
      is st. */
  predicate QuietBut(steps: seq<Step>, st: Step)
  {
    |steps| >= 3 && steps[2] == st && !st.BlockReady? &&
    forall i :: 0 <= i < |steps| && i != 2 ==> steps[i] == Pending
  }

  predicate AllNone(outcomes: seq<Outcome>)
  {
    forall i :: 0 <= i < |outcomes| ==> outcomes[i] == Ok(None)
  }

  /** Every outcome but the third is Ok(None), and the third is o. */
  predicate NoneBut(outcomes: seq<Outcome>, o: Outcome)
  {
    |outcomes| >= 3 && outcomes[2] == o && forall i :: 0 <= i < |outcomes| && i != 2 ==> outcomes[i] == Ok(None)
  }

  /** While no block completes, feeding bytes is collecting them: the same
      state, and each byte reports what its step reports. */
  lemma {:induction false} FeedQuiet(a: Ax100, bytes: seq<byte>, resetOnError: bool, header: HeaderReader)
    requires NoBlock(Steps(a, bytes, header).steps)
    ensures Feed(a, bytes, resetOnError, header).dec == Steps(a, bytes, header).dec
    ensures Reports(Feed(a, bytes, resetOnError, header).outcomes, Steps(a, bytes, header).steps)
    decreases |bytes|
  {
    if bytes != [] {
      var k := |bytes| - 1;
      assert bytes[..k + 1] == bytes;
      var prev := Steps(a, bytes[..k], header);
      var c := CollectIn(a.(dec := prev.dec), bytes[k], header);
      StepsFrom(a, bytes, k, prev.dec, prev.steps, c.dec, c.step, header);
      FeedNext(a, bytes, k, resetOnError, header);
      assert NoBlock(prev.steps) by {
        forall i | 0 <= i < |prev.steps| ensures !prev.steps[i].BlockReady? {
          assert Steps(a, bytes, header).steps[i] == prev.steps[i];
        }
      }
      FeedQuiet(a, bytes[..k], resetOnError, header);
      assert !Steps(a, bytes, header).steps[k].BlockReady?;
    }
  }

  lemma QuietNoBlock(steps: seq<Step>, st: Step)
    requires QuietBut(steps, st)
    ensures NoBlock(steps)
  {
  }

  /** Outcomes reported by steps quiet but for the third report nothing
      but for the third. */
  lemma QuietReports(outcomes: seq<Outcome>, steps: seq<Step>, st: Step)
    requires QuietBut(steps, st) && Reports(outcomes, steps)
    ensures NoneBut(outcomes, Report(st))
  {
  }

  // ---------------------------------------------------------------------
  // Whole frames fed byte by byte

  /** The length a whole frame is read with comes from the Golay field,
      or from the raw third byte when a failed decoding is ignored. */
  lemma FrameLengthCases(a: Ax100, pkt: seq<byte>, n: int)
    requires |pkt| >= 3 && FrameLength(a, pkt) == Ok(n)
    ensures GolayLength(pkt[..3]) == Ok(Some(n)) ||
      (GolayLength(pkt[..3]) == Ok(None) && a.ignoreGolayError && n == pkt[2] as int)
  {
    assert RS.Min(3, |pkt|) == 3;
  }

  /** The whole-frame length depends on the configuration alone, not on
      the byte-wise decoder's state. */
  lemma FrameLengthIgnoresState(a: Ax100, d: Decoder, pkt: seq<byte>)
    ensures FrameLength(a.(dec := d), pkt) == FrameLength(a, pkt)
  {
  }

  /** Nor does the whole-frame decoder. */
  lemma DecodeIgnoresState(a: Ax100, d: Decoder, pkt: seq<byte>)
    ensures FrameLength(a.(dec := d), pkt) == FrameLength(a, pkt)
    ensures Decode(a.(dec := d), pkt) == Decode(a, pkt)
  {
    FrameLengthIgnoresState(a, d, pkt);
  }

  /** A frame whose block is uncorrectable for the length n has a block
      the Reed-Solomon decoder rejects. */
  lemma BodyUncorrectable(pkt: seq<byte>, n: int)
    requires 1 <= n <= 255 && |pkt| == 3 + n && DecodeBody(pkt, n) == Err(Uncorrectable)
    ensures Scramble(pkt[3..], 0).Ok?
    ensures RsDecode(Scramble(pkt[3..], 0).value, 255 - n) == Err(Uncorrectable)
  {
    ScrambleOne(pkt[3..], 0);
    assert 255 - 32 - (n - 32) == 255 - n;
  }

  /** A frame the whole-frame decoder finds uncorrectable has a block the
      Reed-Solomon decoder rejects. */
  lemma DecodeUncorrectable(a: Ax100, pkt: seq<byte>, n: int)
    requires FrameLength(a, pkt) == Ok(n) && 1 <= n <= 255 && |pkt| == 3 + n
    requires Decode(a, pkt) == Err(Uncorrectable)
    ensures Scramble(pkt[3..], 0).Ok?
    ensures RsDecode(Scramble(pkt[3..], 0).value, 255 - n) == Err(Uncorrectable)
  {
    assert Decode(a, pkt) == DecodeBody(pkt, n);
    BodyUncorrectable(pkt, n);
  }

  /** Before position 2 a byte is collected into the Golay field. */
  lemma GolayByte(a: Ax100, b: byte)
    requires 0 <= a.dec.pos < 2
    ensures Collect(a, b) == Collected(a.dec.(golayBuf := a.dec.golayBuf + [b], pos := a.dec.pos + 1), Pending)
  {
  }

  /** The first two bytes of a frame, collected at position 0, are
      appended to the Golay buffer. */
  lemma StepsGolay(a: Ax100, pkt: seq<byte>, header: HeaderReader)
    requires a.dec.pos == 0 && |pkt| >= 2
    ensures Steps(a, pkt[..2], header) ==
      Collection(a.dec.(golayBuf := a.dec.golayBuf + [pkt[0], pkt[1]], pos := 2), [Pending, Pending])
  {
    assert Steps(a, pkt[..0], header) == Collection(a.dec, []);
    assert a.(dec := a.dec) == a;
    GolayByte(a, pkt[0]);
    var d1 := a.dec.(golayBuf := a.dec.golayBuf + [pkt[0]], pos := 1);
    StepsFrom(a, pkt, 0, a.dec, [], d1, Pending, header);
    assert [] + [Pending] == [Pending];
    GolayByte(a.(dec := d1), pkt[1]);
    assert d1.golayBuf + [pkt[1]] == a.dec.golayBuf + [pkt[0], pkt[1]];
    StepsFrom(a, pkt, 1, d1, [Pending], a.dec.(golayBuf := a.dec.golayBuf + [pkt[0], pkt[1]], pos := 2), Pending, header);
  }

  /** At position 2 the byte completes the length field. */
  lemma CollectAtHeader(a: Ax100, b: byte)
    requires a.dec.pos == 2
    ensures Collect(a, b) == ReadHeader(a, b)
  {
  }

  /** The third byte of a frame reads the length the whole-frame decoder
      reads. */
  lemma HeaderByte(a: Ax100, pkt: seq<byte>, n: int)
    requires |pkt| >= 3 && FrameLength(a, pkt) == Ok(n)
    ensures var d2 := a.dec.(golayBuf := [pkt[0], pkt[1]], pos := 2);
      ReadHeader(a.(dec := d2), pkt[2]) == Collected(Decoder(3, n - 32, [], a.dec.rsBuf), Pending)
  {
    FirstThree(pkt);
    var s2 := a.(dec := a.dec.(golayBuf := [pkt[0], pkt[1]], pos := 2));
    FrameLengthCases(a, pkt, n);
    HeaderWithLength(s2, pkt[2], GolayLength(pkt[..3]), n);
  }

  /** The third byte of a frame, read by `header` once its two Golay bytes
      are appended to the Golay buffer, moves to the first block byte with
      data length n - 32 and Golay buffer g3, keeps the block buffer, and
      reports st. */
  predicate HeaderSets(a: Ax100, pkt: seq<byte>, n: int, g3: seq<byte>, st: Step, header: HeaderReader)
    requires |pkt| >= 3
  {
    !st.BlockReady? &&
    CollectIn(a.(dec := a.dec.(golayBuf := a.dec.golayBuf + [pkt[0], pkt[1]], pos := 2)), pkt[2], header) ==
      Collected(Decoder(3, n - 32, g3, a.dec.rsBuf), st)
  }

  /** Read as intended after an empty Golay buffer, the third byte sets the
      length the whole-frame decoder reads. */
  lemma IntendedHeaderSets(a: Ax100, pkt: seq<byte>, n: int)
    requires a.dec.golayBuf == [] && |pkt| >= 3 && FrameLength(a, pkt) == Ok(n)
    ensures HeaderSets(a, pkt, n, [], Pending, ReadHeader)
  {
    HeaderByte(a, pkt, n);
    assert a.dec.golayBuf + [pkt[0], pkt[1]] == [pkt[0], pkt[1]];
    CollectAtHeader(a.(dec := a.dec.(golayBuf := [pkt[0], pkt[1]], pos := 2)), pkt[2]);
  }

  /** Read as written after an empty Golay buffer, a field that corrects
      with high nibble n sets n as the length. */
  lemma NibbleHeaderSets(a: Ax100, pkt: seq<byte>, n: int)
    requires a.dec.golayBuf == [] && |pkt| >= 3 && GolayFieldAsWritten(pkt[..3]) == Ok(n)
    ensures HeaderSets(a, pkt, n, [], Pending, ReadHeaderAsWritten)
  {
    FirstThree(pkt);
    assert a.dec.golayBuf + [pkt[0], pkt[1]] == [pkt[0], pkt[1]];
    var s2 := a.(dec := a.dec.(golayBuf := [pkt[0], pkt[1]], pos := 2));
    assert CollectIn(s2, pkt[2], ReadHeaderAsWritten) == ReadHeaderAsWritten(s2, pkt[2]);
    HeaderWithLength(s2, pkt[2], AsLength(GolayFieldAsWritten(pkt[..3])), n);
  }

  /** Read as written, a Golay buffer that is not a correctable 3-byte field
      raises TypeError when the pair is unpacked. The position has already
      moved on and nothing is reset: the length stays as it was, so the
      block that follows has pktLen + 32 bytes, and the field stays in the
      Golay buffer. */
  lemma HeaderRaises(a: Ax100, pkt: seq<byte>)
    requires |pkt| >= 3
    requires |a.dec.golayBuf + pkt[..3]| != 3 || G.Decode(G.ByteList(a.dec.golayBuf + pkt[..3])) == G.Failed
    ensures HeaderSets(a, pkt, a.dec.pktLen + 32, a.dec.golayBuf + pkt[..3], Raised(TypeError), ReadHeaderAsWritten)
  {
    var field := a.dec.golayBuf + pkt[..3];
    FirstThree(pkt);
    assert a.dec.golayBuf + [pkt[0], pkt[1]] + [pkt[2]] == field;
    G.DecodeShape(G.ByteList(field));
    assert GolayFieldAsWritten(field) == Err(TypeError);
  }

  /** The three Golay bytes of a frame, collected at position 0, leave the
      decoder at the first block byte as the header sets it, having
      reported nothing but the header's step. */
  lemma StepsHeader(a: Ax100, pkt: seq<byte>, n: int, g3: seq<byte>, st: Step, header: HeaderReader)
    requires a.dec.pos == 0 && |pkt| >= 3 && HeaderSets(a, pkt, n, g3, st, header)
    ensures Steps(a, pkt[..3], header).dec == Decoder(3, n - 32, g3, a.dec.rsBuf)
    ensures QuietBut(Steps(a, pkt[..3], header).steps, st)
  {
    StepsGolay(a, pkt, header);
    ThirdStep(a, pkt, a.dec.(golayBuf := a.dec.golayBuf + [pkt[0], pkt[1]], pos := 2),
              Decoder(3, n - 32, g3, a.dec.rsBuf), st, header);
  }

  /** Two bytes collected into d2, and a third that moves d2 to d3 and
      reports st. */
  lemma ThirdStep(a: Ax100, pkt: seq<byte>, d2: Decoder, d3: Decoder, st: Step, header: HeaderReader)
    requires |pkt| >= 3 && Steps(a, pkt[..2], header) == Collection(d2, [Pending, Pending])
    requires CollectIn(a.(dec := d2), pkt[2], header) == Collected(d3, st) && !st.BlockReady?
    ensures Steps(a, pkt[..3], header).dec == d3
    ensures QuietBut(Steps(a, pkt[..3], header).steps, st)
  {
    TakeTake(pkt, 2, 3);
    StepsFrom(a, pkt, 2, d2, [Pending, Pending], d3, st, header);
    ThreeQuiet(st);
  }

  lemma ThreeQuiet(st: Step)
    requires !st.BlockReady?
    ensures QuietBut([Pending, Pending] + [st], st)
  {
  }

  /** A block byte before the last is descrambled and collected. */
  lemma BlockCollects(a: Ax100, b: byte, x: byte)
    requires 3 <= a.dec.pos < 3 + a.dec.pktLen + 31 && Scramble([b], a.dec.pos - 3) == Ok([x])
    ensures Collect(a, b) == Collected(a.dec.(rsBuf := a.dec.rsBuf + [x], pos := a.dec.pos + 1), Pending)
  {
  }

  /** The last block byte completes the block. */
  lemma BlockCompletes(a: Ax100, b: byte, x: byte)
    requires 3 <= a.dec.pos == 3 + a.dec.pktLen + 31 && Scramble([b], a.dec.pos - 3) == Ok([x])
    ensures Collect(a, b) == Collected(a.dec.(rsBuf := a.dec.rsBuf + [x], pos := 0), BlockReady(a.dec.rsBuf + [x]))
  {
  }

  /** The frame's block bytes before position k are collected, descrambled
      exactly as the whole-frame decoder descrambles them. */
  lemma {:induction false} StepsBody(a: Ax100, pkt: seq<byte>, n: int, k: int, g3: seq<byte>, st: Step,
                                     header: HeaderReader)
    requires a.dec.pos == 0
    requires 1 <= n <= 255 && |pkt| == 3 + n && 3 <= k < |pkt| && HeaderSets(a, pkt, n, g3, st, header)
    ensures Scramble(pkt[3..], 0).Ok?
    ensures Steps(a, pkt[..k], header).dec == Decoder(k, n - 32, g3, a.dec.rsBuf + Scramble(pkt[3..], 0).value[..k - 3])
    ensures QuietBut(Steps(a, pkt[..k], header).steps, st)
    decreases k
  {
    if k == 3 {
      ScrambleOne(pkt[3..], 0);
      StepsHeader(a, pkt, n, g3, st, header);
      assert a.dec.rsBuf + Scramble(pkt[3..], 0).value[..0] == a.dec.rsBuf;
    } else {
      StepsBody(a, pkt, n, k - 1, g3, st, header);
      BodyStep(a, pkt, n, k, g3, st, header);
    }
  }

  /** One block byte of a frame: the state before position k - 1 and the
      descrambled byte give the state before position k. */
  lemma BodyStep(a: Ax100, pkt: seq<byte>, n: int, k: int, g3: seq<byte>, st: Step, header: HeaderReader)
    requires 1 <= n <= 255 && |pkt| == 3 + n && 3 < k < |pkt|
    requires Scramble(pkt[3..], 0).Ok?
    requires Steps(a, pkt[..k - 1], header).dec ==
      Decoder(k - 1, n - 32, g3, a.dec.rsBuf + Scramble(pkt[3..], 0).value[..k - 4])
    requires QuietBut(Steps(a, pkt[..k - 1], header).steps, st)
    ensures Steps(a, pkt[..k], header).dec == Decoder(k, n - 32, g3, a.dec.rsBuf + Scramble(pkt[3..], 0).value[..k - 3])
    ensures QuietBut(Steps(a, pkt[..k], header).steps, st)
  {
    TakeTake(pkt, k - 1, k);
    var blk := pkt[3..];
    var t := Scramble(blk, 0).value;
    var prev := Steps(a, pkt[..k - 1], header);
    ScrambleOne(blk, k - 4);
    assert blk[k - 4] == pkt[k - 1];
    BlockCollects(a.(dec := prev.dec), pkt[k - 1], t[k - 4]);
    var r := a.dec.rsBuf + t[..k - 4];
    AppendNext(a.dec.rsBuf, t, k - 4);
    var next := Decoder(k, n - 32, g3, a.dec.rsBuf + t[..k - 3]);
    CollectedByte(prev.dec, n - 32, g3, r, t[k - 4]);
    StepsFrom(a, pkt, k - 1, prev.dec, prev.steps, next, Pending, header);
    QuietSnoc(prev.steps, st);
  }

  /** Collecting one block byte moves the decoder one position on and adds
      the byte to its block buffer. */
  lemma CollectedByte(d: Decoder, m: int, g: seq<byte>, r: seq<byte>, x: byte)
    requires d == Decoder(d.pos, m, g, r)
    ensures d.(rsBuf := d.rsBuf + [x], pos := d.pos + 1) == Decoder(d.pos + 1, m, g, r + [x])
  {
  }

  lemma QuietSnoc(steps: seq<Step>, st: Step)
    requires QuietBut(steps, st)
    ensures QuietBut(steps + [Pending], st)
  {
  }

  /** A whole frame, collected at position 0, ends in the descrambled
      block, appended to whatever the block buffer held, with nothing
      reported before. */
  lemma StepsFrame(a: Ax100, pkt: seq<byte>, n: int, g3: seq<byte>, st: Step, header: HeaderReader)
    requires a.dec.pos == 0
    requires 1 <= n <= 255 && |pkt| == 3 + n && HeaderSets(a, pkt, n, g3, st, header)
    ensures Scramble(pkt[3..], 0).Ok?
    ensures var block := a.dec.rsBuf + Scramble(pkt[3..], 0).value;
      CollectIn(a.(dec := Steps(a, pkt[..|pkt| - 1], header).dec), pkt[|pkt| - 1], header) ==
        Collected(Decoder(0, n - 32, g3, block), BlockReady(block))
    ensures QuietBut(Steps(a, pkt[..|pkt| - 1], header).steps, st)
  {
    var k := |pkt| - 1;
    var blk := pkt[3..];
    StepsBody(a, pkt, n, k, g3, st, header);
    var t := Scramble(blk, 0).value;
    ScrambleOne(blk, k - 3);
    assert blk[k - 3] == pkt[k];
    LastBlockByte(a, Steps(a, pkt[..k], header).dec, pkt[k], t[k - 3], header);
    AppendNext(a.dec.rsBuf, t, k - 3);
    assert t[..k - 2] == t;
  }

  /** Under either reading, the last block byte completes the block. */
  lemma LastBlockByte(a: Ax100, d: Decoder, b: byte, x: byte, header: HeaderReader)
    requires 3 <= d.pos == 3 + d.pktLen + 31 && Scramble([b], d.pos - 3) == Ok([x])
    ensures CollectIn(a.(dec := d), b, header) ==
      Collected(Decoder(0, d.pktLen, d.golayBuf, d.rsBuf + [x]), BlockReady(d.rsBuf + [x]))
  {
    BlockCompletes(a.(dec := d), b, x);
  }

  /** A whole frame fed byte by byte at position 0: nothing comes back
      until the last byte except what the header reports, and the last
      byte hands the descrambled block, appended to whatever the block
      buffer held, to the Reed-Solomon decoder. */
  lemma FeedFrame(a: Ax100, pkt: seq<byte>, n: int, resetOnError: bool, g3: seq<byte>, st: Step, header: HeaderReader)
    requires a.dec.pos == 0
    requires 1 <= n <= 255 && |pkt| == 3 + n && HeaderSets(a, pkt, n, g3, st, header)
    ensures Scramble(pkt[3..], 0).Ok?
    ensures var e := Decoder(0, n - 32, g3, a.dec.rsBuf + Scramble(pkt[3..], 0).value);
      var r := Feed(a, pkt, resetOnError, header);
      NoneBut(r.outcomes[..|pkt| - 1], Report(st)) && r.dec == FinishFrame(e, resetOnError).dec &&
      r.outcomes[|pkt| - 1] == FinishFrame(e, resetOnError).outcome
  {
    var k := |pkt| - 1;
    StepsFrame(a, pkt, n, g3, st, header);
    var steps := Steps(a, pkt[..k], header).steps;
    QuietNoBlock(steps, st);
    FeedQuiet(a, pkt[..k], resetOnError, header);
    var prev := Feed(a, pkt[..k], resetOnError, header);
    QuietReports(prev.outcomes, steps, st);
    FeedNext(a, pkt, k, resetOnError, header);
    assert pkt[..k + 1] == pkt;
    assert Feed(a, pkt, resetOnError, header).outcomes[..k] == prev.outcomes;
  }

  /** Lifts a whole-frame result to a byte-wise outcome. */
  function AsOutcome(r: Result<seq<byte>, AxError>): (o: Outcome)
    ensures o.Ok? <==> r.Ok?
    ensures r.Ok? ==> o.value == Some(r.value)
    ensures r.Err? ==> o.error == r.error
  {
    match r
    case Ok(data) => Ok(Some(data))
    case Err(e) => Err(e)
  }

  /** The corrected byte-wise decoder agrees with the whole-frame decoder:
      from an idle state, a frame yields nothing until its last byte, which
      yields what `decode` returns or raises; afterwards the decoder is idle
      again (reset, when the frame raised). */
  lemma StreamMatchesBatch(a: Ax100, pkt: seq<byte>, n: int)
    requires Idle(a.dec) && FrameLength(a, pkt) == Ok(n) && 1 <= n <= 255 && |pkt| == 3 + n
    ensures var r := Feed(a, pkt, true, ReadHeader);
      AllNone(r.outcomes[..|pkt| - 1]) && r.outcomes[|pkt| - 1] == AsOutcome(Decode(a, pkt)) &&
      (Decode(a, pkt).Ok? ==> r.dec == Decoder(0, n - 32, [], [])) &&
      (Decode(a, pkt).Err? ==> r.dec == Fresh) && Idle(r.dec)
  {
    IntendedHeaderSets(a, pkt, n);
    FeedFrame(a, pkt, n, true, [], Pending, ReadHeader);
    var blk := Scramble(pkt[3..], 0).value;
    assert a.dec.rsBuf + blk == blk;
    FinishMatchesDecode(a, pkt, n);
  }

  /** The corrected end of a frame's block is what `decode` returns or
      raises for the frame. */
  lemma FinishMatchesDecode(a: Ax100, pkt: seq<byte>, n: int)
    requires FrameLength(a, pkt) == Ok(n) && 1 <= n <= 255 && |pkt| == 3 + n
    ensures Scramble(pkt[3..], 0).Ok?
    ensures var r := FinishFrame(Decoder(0, n - 32, [], Scramble(pkt[3..], 0).value), true);
      r.outcome == AsOutcome(Decode(a, pkt)) &&
      (Decode(a, pkt).Ok? ==> r.dec == Decoder(0, n - 32, [], [])) &&
      (Decode(a, pkt).Err? ==> r.dec == Fresh)
  {
    ScrambleOne(pkt[3..], 0);
    assert Decode(a, pkt) == DecodeBody(pkt, n);
  }

  /** Without the reset, a block that raised stays in the buffer, so the
      next frame of the same length raises too, whatever its bytes and
      whatever its header reported: its block is decoded with the stale one
      in front, and the Reed-Solomon verdict depends only on the first
      255 - pad bytes. The buffer keeps growing, and the verdict on it
      stays. */
  lemma StaleBlockRepeats(a: Ax100, pkt: seq<byte>, n: int, g3: seq<byte>, st: Step, header: HeaderReader)
    requires a.dec.pos == 0
    requires 1 <= n <= 255 && |pkt| == 3 + n && HeaderSets(a, pkt, n, g3, st, header)
    requires |a.dec.rsBuf| >= n && RsDecode(a.dec.rsBuf, 255 - n) == Err(Uncorrectable)
    ensures Scramble(pkt[3..], 0).Ok?
    ensures var r := Feed(a, pkt, false, header);
      NoneBut(r.outcomes[..|pkt| - 1], Report(st)) && r.outcomes[|pkt| - 1] == Err(Uncorrectable) &&
      r.dec == Decoder(0, n - 32, g3, a.dec.rsBuf + Scramble(pkt[3..], 0).value) &&
      RsDecode(r.dec.rsBuf, 255 - n) == Err(Uncorrectable)
  {
    FeedFrame(a, pkt, n, false, g3, st, header);
    var blk := Scramble(pkt[3..], 0).value;
    RS.DecodeVerdictPrefix(a.dec.rsBuf, blk, 255 - n);
    RejectedStays(Decoder(0, n - 32, g3, a.dec.rsBuf + blk), n);
  }

  /** Without the reset, a frame read from an empty block buffer whose
      block the Reed-Solomon decoder rejects leaves that block in the
      buffer, whatever its header reported. */
  lemma KeepsUncorrectable(a: Ax100, pkt: seq<byte>, n: int, g3: seq<byte>, st: Step, header: HeaderReader)
    requires a.dec.pos == 0 && a.dec.rsBuf == []
    requires 1 <= n <= 255 && |pkt| == 3 + n && HeaderSets(a, pkt, n, g3, st, header)
    requires DecodeBody(pkt, n) == Err(Uncorrectable)
    ensures Scramble(pkt[3..], 0).Ok?
    ensures var r := Feed(a, pkt, false, header);
      NoneBut(r.outcomes[..|pkt| - 1], Report(st)) && r.outcomes[|pkt| - 1] == Err(Uncorrectable) &&
      r.dec == Decoder(0, n - 32, g3, Scramble(pkt[3..], 0).value) &&
      RsDecode(r.dec.rsBuf, 255 - n) == Err(Uncorrectable)
  {
    FeedFrame(a, pkt, n, false, g3, st, header);
    BodyUncorrectable(pkt, n);
    var blk := Scramble(pkt[3..], 0).value;
    assert a.dec.rsBuf + blk == blk;
    RejectedStays(Decoder(0, n - 32, g3, blk), n);
  }

  /** Without the reset, a block of a frame of length n that the
      Reed-Solomon decoder rejects leaves the decoder as it was. */
  lemma RejectedStays(d: Decoder, n: int)
    requires d.pktLen == n - 32 && RsDecode(d.rsBuf, 255 - n) == Err(Uncorrectable)
    ensures FinishFrame(d, false) == Advanced(d, Err(Uncorrectable))
  {
    assert 255 - 32 - d.pktLen == 255 - n;
  }

  /** With the header read as intended but no reset, one uncorrectable
      frame makes every following frame of the same length raise, even one
      the whole-frame decoder decodes. */
  lemma UncorrectablePoisons(a: Ax100, pkt1: seq<byte>, pkt2: seq<byte>, n: int)
    requires Idle(a.dec) && 1 <= n <= 255
    requires FrameLength(a, pkt1) == Ok(n) && |pkt1| == 3 + n && Decode(a, pkt1) == Err(Uncorrectable)
    requires FrameLength(a, pkt2) == Ok(n) && |pkt2| == 3 + n
    ensures Feed(a.(dec := Feed(a, pkt1, false, ReadHeader).dec), pkt2, false, ReadHeader).outcomes[|pkt2| - 1]
      == Err(Uncorrectable)
  {
    var d := Feed(a, pkt1, false, ReadHeader).dec;
    IntendedHeaderSets(a, pkt1, n);
    assert Decode(a, pkt1) == DecodeBody(pkt1, n);
    KeepsUncorrectable(a, pkt1, n, [], Pending, ReadHeader);
    FrameLengthIgnoresState(a, d, pkt2);
    IntendedHeaderSets(a.(dec := d), pkt2, n);
    StaleBlockRepeats(a.(dec := d), pkt2, n, [], Pending, ReadHeader);
  }

  /** As written, from a fresh decoder: a frame whose Golay field the Golay
      decoder cannot correct raises TypeError at its third byte, before
      anything is reset, so its 32 block bytes are collected with the
      length 0 the decoder started with. When the Reed-Solomon decoder
      rejects them they stay, with the field, and the next 35 bytes,
      whatever they are, raise TypeError at the third (the Golay buffer
      holds six bytes) and Reed-Solomon failure at the last. Both buffers
      keep growing. */
  lemma UncorrectablePoisonsAsWritten(a: Ax100, pkt1: seq<byte>, pkt2: seq<byte>)
    requires a.dec == Fresh
    requires |pkt1| == 35 && G.Decode(G.ByteList(pkt1[..3])) == G.Failed
    requires Scramble(pkt1[3..], 0).Ok? && RsDecode(Scramble(pkt1[3..], 0).value, 223) == Err(Uncorrectable)
    requires |pkt2| == 35
    ensures var r1 := Feed(a, pkt1, false, ReadHeaderAsWritten);
      r1.outcomes[2] == Err(TypeError) && r1.outcomes[34] == Err(Uncorrectable) &&
      r1.dec == Decoder(0, 0, pkt1[..3], Scramble(pkt1[3..], 0).value)
    ensures Scramble(pkt2[3..], 0).Ok?
    ensures var r1 := Feed(a, pkt1, false, ReadHeaderAsWritten);
      var r2 := Feed(a.(dec := r1.dec), pkt2, false, ReadHeaderAsWritten);
      r2.outcomes[2] == Err(TypeError) && r2.outcomes[34] == Err(Uncorrectable) &&
      r2.dec == Decoder(0, 0, pkt1[..3] + pkt2[..3], r1.dec.rsBuf + Scramble(pkt2[3..], 0).value)
  {
    FirstStaleFrame(a, pkt1);
    var d := Decoder(0, 0, pkt1[..3], Scramble(pkt1[3..], 0).value);
    var a2 := a.(dec := d);
    HeaderRaises(a2, pkt2);
    StaleBlockRepeats(a2, pkt2, 32, pkt1[..3] + pkt2[..3], Raised(TypeError), ReadHeaderAsWritten);
    var r2 := Feed(a2, pkt2, false, ReadHeaderAsWritten);
    assert r2.outcomes[..34][2] == r2.outcomes[2];
  }

  /** The first frame of UncorrectablePoisonsAsWritten, and the state it
      leaves. */
  lemma FirstStaleFrame(a: Ax100, pkt1: seq<byte>)
    requires a.dec == Fresh
    requires |pkt1| == 35 && G.Decode(G.ByteList(pkt1[..3])) == G.Failed
    requires Scramble(pkt1[3..], 0).Ok? && RsDecode(Scramble(pkt1[3..], 0).value, 223) == Err(Uncorrectable)
    ensures var r1 := Feed(a, pkt1, false, ReadHeaderAsWritten);
      r1.outcomes[2] == Err(TypeError) && r1.outcomes[34] == Err(Uncorrectable) &&
      r1.dec == Decoder(0, 0, pkt1[..3], Scramble(pkt1[3..], 0).value)
  {
    var blk := Scramble(pkt1[3..], 0).value;
    assert a.dec.golayBuf + pkt1[..3] == pkt1[..3];
    HeaderRaises(a, pkt1);
    FeedFrame(a, pkt1, 32, false, pkt1[..3], Raised(TypeError), ReadHeaderAsWritten);
    assert a.dec.rsBuf + blk == blk;
    RejectedStays(Decoder(0, 0, pkt1[..3], blk), 32);
    var r1 := Feed(a, pkt1, false, ReadHeaderAsWritten);
    assert r1.outcomes[..34][2] == r1.outcomes[2];
  }

  /** The corrected decoder recovers: after any frame, the next frame
      decodes as the whole-frame decoder decodes it. */
  lemma StreamRecovers(a: Ax100, pkt1: seq<byte>, pkt2: seq<byte>, n1: int, n2: int)
    requires Idle(a.dec)
    requires FrameLength(a, pkt1) == Ok(n1) && 1 <= n1 <= 255 && |pkt1| == 3 + n1
    requires FrameLength(a, pkt2) == Ok(n2) && 1 <= n2 <= 255 && |pkt2| == 3 + n2
    ensures Feed(a.(dec := Feed(a, pkt1, true, ReadHeader).dec), pkt2, true, ReadHeader).outcomes[|pkt2| - 1]
      == AsOutcome(Decode(a, pkt2))
  {
    StreamMatchesBatch(a, pkt1, n1);
    var d := Feed(a, pkt1, true, ReadHeader).dec;
    DecodeIgnoresState(a, d, pkt2);
    StreamMatchesBatch(a.(dec := d), pkt2, n2);
  }
}
