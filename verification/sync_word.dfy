/** spacelab_decoder/sync_word.py: a list of sync bytes expanded into a
    list of bits, eight per byte. */
module SyncWord {
  import opened Bits
  import opened BitStrings
  import opened Options

  const MSB: string := "msb"
  const LSB: string := "lsb"

  /** The constructor's argument: a list of byte values, or anything
      else. */
  datatype SyncSource = ByteList(bytes: seq<byte>) | NotAList

  /** The RuntimeError for a non-list argument. */
  datatype SyncWordError = NotAListError

  /** Python's `bin(v)[2:]`: binary digits without leading zeros ("0" for
      zero). */
  function BinDigits(v: nat): (d: string)
    ensures |d| >= 1
    decreases v
  {
    (if v < 2 then "" else BinDigits(v / 2)) + [if v % 2 == 1 then '1' else '0']
  }

  /** Python's `s.zfill(w)`: zeros in front up to width w. */
  function ZFill(s: string, w: nat): (r: string)
    ensures |r| == if |s| >= w then |s| else w
  {
    if |s| >= w then s else seq(w - |s|, _ => '0') + s
  }

  /** Digit j from the right of `bin(v)` is bit j of v. */
  lemma {:induction false} BinDigitAt(v: nat, j: nat)
    requires j < |BinDigits(v)|
    ensures BinDigits(v)[|BinDigits(v)| - 1 - j] == (if Bit(v, j) == 1 then '1' else '0')
    decreases v
  {
    var d := BinDigits(v);
    if j > 0 {
      var e := BinDigits(v / 2);
      assert d == e + [d[|d| - 1]];
      BinDigitAt(v / 2, j - 1);
      assert d[|d| - 1 - j] == e[|e| - 1 - (j - 1)];
    }
  }

  /** v has no bits at or above its digit count. */
  lemma {:induction false} BinDigitsBound(v: nat)
    ensures v < Pow2(|BinDigits(v)|)
    decreases v
  {
    if v >= 2 {
      BinDigitsBound(v / 2);
    }
  }

  /** A value below 2^k has at most k digits. */
  lemma {:induction false} BinDigitsLength(v: nat, k: nat)
    requires 1 <= k && v < Pow2(k)
    ensures |BinDigits(v)| <= k
    decreases v
  {
    if v >= 2 {
      assert k >= 2;
      BinDigitsLength(v / 2, k - 1);
    }
  }

  /** Bits at or above 2^k of a value below 2^k are zero. */
  lemma HighBitZero(v: nat, k: nat, j: nat)
    requires v < Pow2(k) && k <= j
    ensures Bit(v, j) == 0
  {
    PowMonotone(k, j);
    BitIsShiftedLowBit(v, j);
    LemmaFundamentalDivMod(v, Pow2(j), 0, v);
  }

  lemma {:induction false} PowMonotone(k: nat, j: nat)
    requires k <= j
    ensures Pow2(k) <= Pow2(j)
    decreases j
  {
    if k < j {
      PowMonotone(k, j - 1);
    }
  }

  /** `byte_to_bitfield`: the eight binary digits of v, most significant
      first, reversed in "lsb" mode. */
  function ByteToBitfield(v: byte, endi: string): (f: seq<bool>)
    ensures |f| == 8
    ensures endi != LSB ==> forall i | 0 <= i < 8 :: f[i] == (Bit(v, 7 - i) == 1)
    ensures endi == LSB ==> forall i | 0 <= i < 8 :: f[i] == (Bit(v, i) == 1)
  {
    DigitsAreBits(v);
    var digits := ZFill(BinDigits(v), 8);
    var buf := seq(|digits|, i requires 0 <= i < |digits| => digits[i] == '1');
    if endi == LSB then Reverse(buf) else buf
  }

  /** A byte has at most eight binary digits. */
  lemma ByteDigits(v: byte)
    ensures |BinDigits(v)| <= 8
  {
    SmallPowers();
    BinDigitsLength(v, 8);
  }

  /** The zeros `zfill` puts in front stand for bits the byte lacks. */
  lemma LeadingZero(v: byte, i: nat)
    requires |BinDigits(v)| <= 8 && i < 8 - |BinDigits(v)|
    ensures ZFill(BinDigits(v), 8)[i] == '0' && Bit(v, 7 - i) == 0
  {
    BinDigitsBound(v);
    HighBitZero(v, |BinDigits(v)|, 7 - i);
  }

  /** The digits after the zeros are those of `bin(v)`. */
  lemma PlacedDigit(v: byte, i: nat)
    requires |BinDigits(v)| <= 8 && 8 - |BinDigits(v)| <= i < 8
    ensures (ZFill(BinDigits(v), 8)[i] == '1') == (Bit(v, 7 - i) == 1)
  {
    var d := BinDigits(v);
    assert ZFill(d, 8)[i] == d[|d| - 1 - (7 - i)];
    BinDigitAt(v, 7 - i);
  }

  /** Digit i of `bin(v)[2:].zfill(8)` is bit 7 - i of the byte. */
  lemma DigitBit(v: byte, i: nat)
    requires i < 8
    ensures |ZFill(BinDigits(v), 8)| == 8
    ensures (ZFill(BinDigits(v), 8)[i] == '1') == (Bit(v, 7 - i) == 1)
  {
    ByteDigits(v);
    if i < 8 - |BinDigits(v)| {
      LeadingZero(v, i);
    } else {
      PlacedDigit(v, i);
    }
  }

  /** Every digit of `bin(v)[2:].zfill(8)` is the matching bit of the byte. */
  lemma DigitsAreBits(v: byte)
    ensures |ZFill(BinDigits(v), 8)| == 8
    ensures forall i | 0 <= i < 8 :: (ZFill(BinDigits(v), 8)[i] == '1') == (Bit(v, 7 - i) == 1)
  {
    DigitBit(v, 0);
    forall i | 0 <= i < 8
      ensures (ZFill(BinDigits(v), 8)[i] == '1') == (Bit(v, 7 - i) == 1)
    {
      DigitBit(v, i);
    }
  }

  /** The fields of bytes, concatenated in list order. */
  function Expand(bytes: seq<byte>, endi: string): (r: seq<bool>)
    ensures |r| == 8 * |bytes|
    ensures forall k | 0 <= k < |r| :: r[k] == ByteToBitfield(bytes[k / 8], endi)[k % 8]
  {
    if bytes == [] then []
    else
      var init := Expand(bytes[..|bytes| - 1], endi);
      AppendField(bytes, endi, init);
      init + ByteToBitfield(bytes[|bytes| - 1], endi)
  }

  /** Appending the last byte's field to the expansion of the others puts
      element k of the result in field k / 8, at k % 8. */
  lemma AppendField(bytes: seq<byte>, endi: string, init: seq<bool>)
    requires bytes != [] && |init| == 8 * (|bytes| - 1)
    requires forall k | 0 <= k < |init| :: init[k] == ByteToBitfield(bytes[..|bytes| - 1][k / 8], endi)[k % 8]
    ensures var r := init + ByteToBitfield(bytes[|bytes| - 1], endi);
      forall k | 0 <= k < |r| :: r[k] == ByteToBitfield(bytes[k / 8], endi)[k % 8]
  {
    var r := init + ByteToBitfield(bytes[|bytes| - 1], endi);
    forall k | 0 <= k < |r|
      ensures r[k] == ByteToBitfield(bytes[k / 8], endi)[k % 8]
    {
      if k < |init| {
        assert k / 8 < |bytes| - 1;
        assert bytes[..|bytes| - 1][k / 8] == bytes[k / 8];
      } else {
        DivMod8(|bytes| - 1, k - |init|);
      }
    }
  }

  /** Dividing 8q + i by 8, for i < 8, gives q with remainder i. */
  lemma DivMod8(q: nat, i: nat)
    requires i < 8
    ensures (8 * q + i) / 8 == q && (8 * q + i) % 8 == i
  {
  }

  /** The constructor: a list expands to its bits, anything else raises. */
  function Create(val: SyncSource, endi: string): (r: Result<seq<bool>, SyncWordError>)
    ensures r.Err? <==> val.NotAList?
    ensures val.ByteList? ==> r == Ok(Expand(val.bytes, endi)) && |r.value| == 8 * |val.bytes|
  {
    match val
    case NotAList => Err(NotAListError)
    case ByteList(bytes) => Ok(Expand(bytes, endi))
  }
}
