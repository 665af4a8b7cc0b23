/** Syndrome decoding of the extended (24,12,8) Golay code with the fixed
    parity-check matrix H = [I | B] (spacelab_decoder/golay24.py). */
module Golay24 {
  import opened Bits
  import opened Options

  /** Row i of the parity-check matrix. */
  function H(i: nat): nat
    requires i < 12
  {
    match i
    case 0 => 0x8008ED
    case 1 => 0x4001DB
    case 2 => 0x2003B5
    case 3 => 0x100769
    case 4 => 0x80ED1
    case 5 => 0x40DA3
    case 6 => 0x20B47
    case 7 => 0x1068F
    case 8 => 0x8D1D
    case 9 => 0x4A3B
    case 10 => 0x2477
    case _ => 0x1FFE
  }

  /** Row i of B, which the constructor computes as `H[i] & 0xFFF`
      (see BIsLowBitsOfH). */
  function B(i: nat): nat
    requires i < 12
  {
    match i
    case 0 => 0x8ED
    case 1 => 0x1DB
    case 2 => 0x3B5
    case 3 => 0x769
    case 4 => 0xED1
    case 5 => 0xDA3
    case 6 => 0xB47
    case 7 => 0x68F
    case 8 => 0xD1D
    case 9 => 0xA3B
    case 10 => 0x477
    case _ => 0xFFE
  }

  /** The parity of x as `_parity` computes it: the exclusive or of all its
      bits, 1 for an odd number of ones. */
  function Parity(x: nat): (p: nat)
    ensures p < 2
  {
    if x == 0 then 0
    else
      XorBound(x % 2, Parity(x / 2), 1);
      Xor(x % 2, Parity(x / 2))
  }

  /** The first n bits of the step-1 syndrome loop, the first row in the most
      significant position. */
  function SyndromePrefix(r: nat, n: nat): nat
    requires n <= 12
  {
    if n == 0 then 0 else Or(SyndromePrefix(r, n - 1) * 2, Parity(And(H(n - 1), r)))
  }

  /** Step 1: s with bit 11-i the parity of `H[i] & r`. */
  function Syndrome(r: nat): nat
  {
    SyndromePrefix(r, 12)
  }

  /** The first n bits of the step-4 loop over the rows of B. */
  function QPrefix(s: nat, n: nat): nat
    requires n <= 12
  {
    if n == 0 then 0 else Or(QPrefix(s, n - 1) * 2, Parity(And(B(n - 1), s)))
  }

  /** Step 4: q with bit 11-i the parity of `B[i] & s`. */
  function Q(s: nat): nat
  {
    QPrefix(s, 12)
  }

  /** The loops of steps 3 and 6: the first index i >= from whose row B[i]
      lies within distance 2 of v, or 12 when there is none. */
  function FirstNear(v: nat, from: nat): (i: nat)
    requires from <= 12
    ensures from <= i <= 12
    ensures i < 12 ==> Ones(Xor(v, B(i))) <= 2
    ensures forall k | from <= k < i :: Ones(Xor(v, B(k))) > 2
    decreases 12 - from
  {
    if from == 12 then 12
    else if Ones(Xor(v, B(from))) <= 2 then from
    else FirstNear(v, from + 1)
  }

  /** The error pattern chosen by steps 1 to 6, or none (step 7). */
  datatype Correction = Corrected(e: nat) | Uncorrectable

  /** Step 3's pattern for row i: `((s ^ B[i]) << 12) | (1 << (12 - i - 1))`. */
  function Step3Pattern(s: nat, i: nat): nat
    requires i < 12
  {
    Or(Xor(s, B(i)) * 0x1000, Pow2(12 - i - 1))
  }

  /** Step 6's pattern for row j: `(1 << (2*12 - j - 1)) | (q ^ B[j])`. */
  function Step6Pattern(q: nat, j: nat): nat
    requires j < 12
  {
    Or(Pow2(2 * 12 - j - 1), Xor(q, B(j)))
  }

  /** Steps 1 to 6: the error pattern chosen for the received word r. */
  function ErrorPattern(r: nat): Correction
  {
    PatternFor(Syndrome(r))
  }

  /** Steps 2 to 6 on the syndrome s. */
  function PatternFor(s: nat): Correction
  {
    if Ones(s) <= 3 then
      Corrected(s * 0x1000)
    else
      var i := FirstNear(s, 0);
      if i < 12 then
        Corrected(Step3Pattern(s, i))
      else
        var q := Q(s);
        if Ones(q) <= 3 then
          Corrected(q)
        else
          var j := FirstNear(q, 0);
          if j < 12 then
            Corrected(Step6Pattern(q, j))
          else
            Uncorrectable
  }

  /** The argument of `decode`: a bare integer, or a list of bytes. */
  datatype Input = Word(value: int) | ByteList(bytes: seq<byte>)

  /** What `decode` returns or raises. */
  datatype Output =
    | Value(v: int)           // the corrected 12-bit value
    | Pair(hi: int, lo: int)  // `[(res >> 8) & 0x0F, res & 0xFF]` for a 3-byte list
    | Failed                  // the integer -1
    | IndexError              // a list with fewer than two bytes

  /** The received word r, reduced to its low 24 bits: H has no higher bit
      and every result is masked to 12 bits, so the higher bits of r (and the
      sign of a negative integer, in two's complement) never matter. */
  function Received(d: Input): Option<nat>
  {
    match d
    case Word(v) => Some(v % 0x100_0000)
    case ByteList(b) =>
      if |b| == 2 then Some(Or(b[0] as int * 0x1000, b[1]))
      else if |b| < 2 then None
      else Some(Or(Or(b[0] as int * 0x1_0000, b[1] as int * 0x100), b[2]))
  }

  /** `decode(data)`: a list of fewer than two bytes raises IndexError, a
      3-byte list gives the nibble and byte pair, any other input the
      12-bit value, and -1 when no error pattern is found. */
  function Decode(d: Input): (out: Output)
    ensures out == IndexError <==> d.ByteList? && |d.bytes| < 2
    ensures out.Pair? ==> d.ByteList? && |d.bytes| == 3
    ensures out.Value? ==> !(d.ByteList? && |d.bytes| == 3)
  {
    match Received(d)
    case None => IndexError
    case Some(r) => DecodeWord(r, d.ByteList? && |d.bytes| == 3)
  }

  /** Steps 1 to 7 on the received word r; `asPair` selects the list result
      of a 3-byte input. */
  function DecodeWord(r: nat, asPair: bool): Output
  {
    Correct(r, ErrorPattern(r), asPair)
  }

  /** Step 7: apply the chosen error pattern to r, or give up. */
  function Correct(r: nat, c: Correction, asPair: bool): Output
  {
    match c
    case Uncorrectable => Failed
    case Corrected(e) =>
      var res := Xor(r, e);
      if asPair then Pair(And(res / 0x100, 0x0F), And(res, 0xFF))
      else Value(And(res, 0xFFF))
  }

  // ---------------------------------------------------------------------
  // Properties

  /** `_parity` is the popcount modulo 2. */
  lemma {:induction false} ParityIsOnesMod2(x: nat)
    ensures Parity(x) == Ones(x) % 2
    decreases x
  {
    if x != 0 {
      ParityIsOnesMod2(x / 2);
      XorOfBits(x % 2, Parity(x / 2));
      AddMod2(x % 2, Ones(x / 2));
    }
  }

  /** B[i] is `H[i] & 0xFFF`, as the constructor builds it. */
  lemma BIsLowBitsOfH(i: nat)
    requires i < 12
    ensures B(i) == And(H(i), 0xFFF)
  {
    var h, b := H(i), B(i);
    HIsIdentityThenB(i);
    Pow2Add(11 - i, 12);
    var m := Pow2(12);
    assert m == 0x1000 by { SmallPowers(); }
    LemmaFundamentalDivMod(h, m, Pow2(11 - i), b);
    AndLowMask(h, 12);
  }

  /** H = [I | B]: row i is bit 23-i followed by B[i]. */
  lemma HIsIdentityThenB(i: nat)
    requires i < 12
    ensures B(i) < 0x1000
    ensures H(i) == Pow2(23 - i) + B(i)
  {
    HighPowers();
  }

  /** The powers of two from 2^12 to 2^23, the identity half of H. */
  lemma HighPowers()
    ensures Pow2(12) == 0x1000 && Pow2(13) == 0x2000 && Pow2(14) == 0x4000 && Pow2(15) == 0x8000
    ensures Pow2(16) == 0x1_0000 && Pow2(17) == 0x2_0000 && Pow2(18) == 0x4_0000 && Pow2(19) == 0x8_0000
    ensures Pow2(20) == 0x10_0000 && Pow2(21) == 0x20_0000 && Pow2(22) == 0x40_0000 && Pow2(23) == 0x80_0000
  {
    SmallPowers();
    assert Pow2(20) == 0x10_0000;
  }

  /** Shifting left by one and or-ing in a bit appends that bit. */
  lemma AppendBit(s: nat, p: nat)
    requires p < 2
    ensures Or(s * 2, p) == 2 * s + p
    ensures Bit(2 * s + p, 0) == p
  {
    SmallPowers();
    OrShifted(s, p, 1);
    Halve(s, p);
    BitZero(2 * s + p);
  }

  /** Appending a bit to an (n - 1)-bit value gives an n-bit value. */
  lemma AppendBound(s: nat, p: nat, n: nat)
    requires p < 2 && n > 0 && s < Pow2(n - 1)
    ensures 2 * s + p < Pow2(n)
  {
  }

  /** The bits above the appended one are those of s. */
  lemma AppendBitHigh(s: nat, p: nat, j: nat)
    requires p < 2 && j > 0
    ensures Bit(2 * s + p, j) == Bit(s, j - 1)
  {
    BitStep(2 * s + p, j);
    Halve(s, p);
  }

  lemma {:induction false} SyndromePrefixBound(r: nat, n: nat)
    requires n <= 12
    ensures SyndromePrefix(r, n) < Pow2(n)
  {
    if n > 0 {
      SyndromePrefixBound(r, n - 1);
      var s, p := SyndromePrefix(r, n - 1), Parity(And(H(n - 1), r));
      AppendBit(s, p);
      AppendBound(s, p, n);
    }
  }

  lemma {:induction false} SyndromePrefixBit(r: nat, n: nat, i: nat)
    requires i < n <= 12
    ensures Bit(SyndromePrefix(r, n), n - 1 - i) == Parity(And(H(i), r))
  {
    var s, p := SyndromePrefix(r, n - 1), Parity(And(H(n - 1), r));
    AppendBit(s, p);
    if i < n - 1 {
      AppendBitHigh(s, p, n - 1 - i);
      SyndromePrefixBit(r, n - 1, i);
    }
  }



  /** Step 1: syndrome bit 11-i is the parity of `H[i] & r`, and the
      syndrome has twelve bits. */
  lemma SyndromeBits(r: nat)
    ensures Syndrome(r) < 0x1000
    ensures forall i | 0 <= i < 12 :: Bit(Syndrome(r), 11 - i) == Parity(And(H(i), r))
  {
    SyndromePrefixBound(r, 12);
    SmallPowers();
    forall i | 0 <= i < 12
      ensures Bit(Syndrome(r), 11 - i) == Parity(And(H(i), r))
    {
      SyndromePrefixBit(r, 12, i);
    }
  }

  lemma {:induction false} QPrefixBound(s: nat, n: nat)
    requires n <= 12
    ensures QPrefix(s, n) < Pow2(n)
  {
    if n > 0 {
      QPrefixBound(s, n - 1);
      var t, p := QPrefix(s, n - 1), Parity(And(B(n - 1), s));
      AppendBit(t, p);
      AppendBound(t, p, n);
    }
  }

  lemma {:induction false} QPrefixBit(s: nat, n: nat, i: nat)
    requires i < n <= 12
    ensures Bit(QPrefix(s, n), n - 1 - i) == Parity(And(B(i), s))
  {
    var t, p := QPrefix(s, n - 1), Parity(And(B(n - 1), s));
    AppendBit(t, p);
    if i < n - 1 {
      AppendBitHigh(t, p, n - 1 - i);
      QPrefixBit(s, n - 1, i);
    }
  }



  /** Step 4: bit 11-i of q is the parity of `B[i] & s`, and q has twelve bits. */
  lemma QBits(s: nat)
    ensures Q(s) < 0x1000
    ensures forall i | 0 <= i < 12 :: Bit(Q(s), 11 - i) == Parity(And(B(i), s))
  {
    QPrefixBound(s, 12);
    SmallPowers();
    forall i | 0 <= i < 12
      ensures Bit(Q(s), 11 - i) == Parity(And(B(i), s))
    {
      QPrefixBit(s, 12, i);
    }
  }

  lemma Pow2Below12(k: nat)
    requires k < 12
    ensures Pow2(k) < Pow2(12)
    decreases 12 - k
  {
    if k < 11 {
      Pow2Below12(k + 1);
    }
  }

  /** Step 3 flips the bits of `s ^ B[i]` in the high half plus one bit. */
  lemma Step3Weight(s: nat, i: nat)
    requires i < 12 && Ones(Xor(s, B(i))) <= 2
    ensures Ones(Step3Pattern(s, i)) <= 3
  {
    Pow2Below12(12 - i - 1);
    SmallPowers();
    OnesOfOrShifted(Xor(s, B(i)), Pow2(12 - i - 1), 12);
    OnesPow2(12 - i - 1);
  }

  /** Step 6 flips one bit of the high half plus the bits of `q ^ B[j]`. */
  lemma Step6Weight(q: nat, j: nat)
    requires j < 12 && q < 0x1000 && Ones(Xor(q, B(j))) <= 2
    ensures Ones(Step6Pattern(q, j)) <= 3
  {
    var y := Xor(q, B(j));
    SmallPowers();
    HIsIdentityThenB(j);
    XorBound(q, B(j), 12);
    Pow2Add(12 - j - 1, 12);
    OnesOfOrShifted(Pow2(12 - j - 1), y, 12);
    OnesPow2(12 - j - 1);
  }

  /** Every error pattern the decoder applies flips at most three bits. */
  lemma ErrorWeightAtMost3(r: nat)
    ensures ErrorPattern(r).Corrected? ==> Ones(ErrorPattern(r).e) <= 3
  {
    PatternWeight(Syndrome(r));
  }

  /** Steps 2 to 6 choose patterns of weight at most three. */
  lemma PatternWeight(s: nat)
    ensures PatternFor(s).Corrected? ==> Ones(PatternFor(s).e) <= 3
  {
    if Ones(s) <= 3 {
      SmallPowers();
      OnesSplit(s, 0, 12);
    } else {
      var i := FirstNear(s, 0);
      if i < 12 {
        Step3Weight(s, i);
      } else if Ones(Q(s)) > 3 {
        var j := FirstNear(Q(s), 0);
        if j < 12 {
          QBits(s);
          Step6Weight(Q(s), j);
        }
      }
    }
  }

  /** A zero syndrome leaves the word unchanged: its low twelve bits come
      back as one value, or as a nibble and a byte for a 3-byte list. */
  lemma ZeroSyndromeUnchanged(d: Input)
    requires Received(d).Some? && Syndrome(Received(d).value) == 0
    ensures !(d.ByteList? && |d.bytes| == 3) ==> Decode(d) == Value(Received(d).value % 0x1000)
    ensures d.ByteList? && |d.bytes| == 3 ==>
      Decode(d) == Pair((Received(d).value % 0x1000) / 256, Received(d).value % 256)
  {
    var r := Received(d).value;
    assert Ones(0) == 0;
    assert ErrorPattern(r) == Corrected(0);
    XorZero(r);
    MaskedParts(r);
    SplitNibbleByte(r);
    AndLowMask(r, 8);
    SmallPowers();
    assert (r % 0x1000) / 256 == (r / 256) % 16 && (r % 0x1000) % 256 == r % 256 by {
      PartsOfLow12(r);
    }
  }

  /** The nibble and the byte of the low twelve bits of r. */
  lemma PartsOfLow12(r: nat)
    ensures (r % 0x1000) / 256 == (r / 256) % 16 && (r % 0x1000) % 256 == r % 256
  {
    var q := r / 4096;
    var m := r % 4096;
    LemmaFundamentalDivMod(r / 256, 16, q, m / 256);
    LemmaFundamentalDivMod(r, 256, q * 16 + m / 256, m % 256);
  }

  lemma SplitNibbleByte(x: nat)
    ensures (x / 256) % 16 * 256 + x % 256 == x % 4096
  {
    var q := x / 4096;
    var m := x % 4096;
    assert x == q * 4096 + m;
    assert x / 256 == q * 16 + m / 256 by {
      assert x == (q * 16 + m / 256) * 256 + m % 256;
      LemmaFundamentalDivMod(x, 256, q * 16 + m / 256, m % 256);
    }
    assert (x / 256) % 16 == m / 256 by {
      LemmaFundamentalDivMod(x / 256, 16, q, m / 256);
    }
    assert x % 256 == m % 256 by {
      LemmaFundamentalDivMod(x, 256, q * 16 + m / 256, m % 256);
    }
  }

  /** What a successful decoding of the received word r promises: twelve
      bits (as a nibble and a byte for the pair) that differ from the low
      twelve bits of r in at most three places. */
  predicate CloseTo(out: Output, r: nat)
  {
    (out.Value? ==> 0 <= out.v < 0x1000 && Ones(Xor(out.v, r % 0x1000)) <= 3) &&
    (out.Pair? ==>
       0 <= out.hi < 16 && 0 <= out.lo < 256 && Ones(Xor(out.hi * 256 + out.lo, r % 0x1000)) <= 3)
  }

  /** Applying a pattern whose low twelve bits flip at most three bits of
      r's gives a result that close to r. */
  lemma CorrectClose(r: nat, c: Correction, asPair: bool)
    requires c.Corrected? ==> Ones(Xor(Xor(r, c.e) % 0x1000, r % 0x1000)) <= 3
    ensures CloseTo(Correct(r, c, asPair), r)
  {
    if c.Corrected? {
      MaskedParts(Xor(r, c.e));
    }
  }

  /** `res & 0xFFF` and `[(res >> 8) & 0x0F, res & 0xFF]` both hold the low
      twelve bits of res. */
  lemma MaskedParts(res: nat)
    ensures And(res, 0xFFF) == res % 0x1000
    ensures And(res / 0x100, 0x0F) < 16 && And(res, 0xFF) < 256
    ensures And(res / 0x100, 0x0F) * 256 + And(res, 0xFF) == res % 0x1000
  {
    SmallPowers();
    AndLowMask(res, 12);
    AndLowMask(res, 8);
    AndLowMask(res / 256, 4);
    SplitNibbleByte(res);
  }

  /** The corrected word's low twelve bits are within three bit flips of
      the received word's. */
  lemma CorrectedClose(r: nat)
    ensures ErrorPattern(r).Corrected? ==> Ones(Xor(Xor(r, ErrorPattern(r).e) % 0x1000, r % 0x1000)) <= 3
  {
    if ErrorPattern(r).Corrected? {
      ErrorWeightAtMost3(r);
      LowBitsOfCorrection(r, ErrorPattern(r).e);
    }
  }

  /** The low twelve bits of `(r ^ e) ^ r` are those of e. */
  lemma LowBitsOfCorrection(r: nat, e: nat)
    ensures Ones(Xor(Xor(r, e) % 0x1000, r % 0x1000)) <= Ones(e)
  {
    SmallPowers();
    XorLow(Xor(r, e), r, 12);
    XorComm(r, e);
    XorCancel(e, r);
    OnesLow(e, 12);
  }

  /** A successful decode returns twelve bits that differ from the low
      twelve bits of the received word in at most three places; for a
      3-byte list they come back as a high nibble and a low byte. */
  lemma DecodeCloseToReceived(d: Input)
    ensures Received(d).Some? ==> CloseTo(Decode(d), Received(d).value)
  {
    if Received(d).Some? {
      var r := Received(d).value;
      var c, asPair := ErrorPattern(r), d.ByteList? && |d.bytes| == 3;
      CorrectedClose(r);
      CorrectClose(r, c, asPair);
      assert Decode(d) == Correct(r, c, asPair);
    }
  }

  /** The decoder gives up (returns -1) exactly when none of steps 2, 3, 5
      and 6 applies. */
  lemma DecodeFailsIff(d: Input)
    requires Received(d).Some?
    ensures Decode(d) == Failed <==>
      var s := Syndrome(Received(d).value);
      var q := Q(s);
      Ones(s) > 3 && (forall i | 0 <= i < 12 :: Ones(Xor(s, B(i))) > 2) &&
      Ones(q) > 3 && (forall i | 0 <= i < 12 :: Ones(Xor(q, B(i))) > 2)
  {
  }

  /** Short lists raise IndexError; everything else yields one of the other
      outcomes, with the pair shape exactly for a 3-byte list. */
  lemma DecodeShape(d: Input)
    ensures Decode(d) == IndexError <==> d.ByteList? && |d.bytes| < 2
    ensures Decode(d).Pair? <==>
      d.ByteList? && |d.bytes| == 3 && ErrorPattern(Received(d).value).Corrected?
  {
  }

  /** A 3-byte list decodes to a nibble and a byte, or fails. */
  lemma ThreeByteShape(d: Input)
    requires d.ByteList? && |d.bytes| == 3
    ensures Decode(d) == Failed || (Decode(d).Pair? && 0 <= Decode(d).hi < 16 && 0 <= Decode(d).lo < 256)
  {
    DecodeCloseToReceived(d);
  }

  /** A 2-byte list and a 3-byte list are read big-endian. */
  lemma ReceivedBigEndian(d: Input)
    requires d.ByteList? && |d.bytes| >= 2
    ensures var b0, b1: int := d.bytes[0], d.bytes[1];
      |d.bytes| == 2 ==> Received(d) == Some(b0 * 0x1000 + b1)
    ensures |d.bytes| > 2 ==>
      var b0, b1, b2: int := d.bytes[0], d.bytes[1], d.bytes[2];
      Received(d) == Some(b0 * 0x1_0000 + b1 * 0x100 + b2)
  {
    var b0: nat, b1: nat := d.bytes[0], d.bytes[1];
    if |d.bytes| == 2 {
      SmallPowers();
      OrShifted(b0, b1, 12);
    } else {
      var b2: nat := d.bytes[2];
      var hi: nat := b0 * 0x100 + b1;
      SmallPowers();
      OrShifted(b0, b1 * 0x100, 16);
      assert hi * 0x100 == b0 * 0x1_0000 + b1 * 0x100;
      OrShifted(hi, b2, 8);
    }
  }

}
