/** spacelab_decoder/bit_buffer.py: a list of bits with a maximum size that
    drops its oldest bit when a push finds it at that size. */
module BitBuffer {
  import opened Bits
  import opened BitStrings
  import opened Options
  import opened Text

  const MSB: string := "msb"
  const LSB: string := "lsb"

  /** "msb": new bits are appended at the end; "lsb": inserted at the
      front. */
  datatype Endianness = Msb | Lsb

  /** The list contents, the maximum size and the push order. */
  datatype BitBuffer = BitBuffer(bits: seq<bool>, maxSize: int, endianness: Endianness)

  /** The RuntimeError for an unknown endianness name, and the IndexError
      of popping from an empty list. */
  datatype BitBufferError = UnknownEndianness | PopFromEmpty

  /** The endianness named by endi, compared case-insensitively. */
  function ParseEndianness(endi: string): (e: Option<Endianness>)
    ensures e == Some(Msb) <==> Lower(endi) == MSB
    ensures e == Some(Lsb) <==> Lower(endi) == LSB
    ensures e == None <==> Lower(endi) != MSB && Lower(endi) != LSB
  {
    if Lower(endi) == MSB then Some(Msb)
    else if Lower(endi) == LSB then Some(Lsb)
    else None
  }

  /** `set_max_size`: only the maximum changes; the contents are never
      trimmed. */
  function SetMaxSize(b: BitBuffer, size: int): (c: BitBuffer)
    ensures c.maxSize == size && c.bits == b.bits && c.endianness == b.endianness
  {
    b.(maxSize := size)
  }

  /** `set_endianess`: an unknown name raises and leaves the buffer as it
      was. */
  function SetEndianness(b: BitBuffer, endi: string): (r: Result<BitBuffer, BitBufferError>)
    ensures r.Err? <==> ParseEndianness(endi).None?
    ensures r.Ok? ==> r.value == b.(endianness := ParseEndianness(endi).value)
  {
    match ParseEndianness(endi)
    case None => Err(UnknownEndianness)
    case Some(e) => Ok(b.(endianness := e))
  }

  /** The constructor `BitBuffer(size, endi)`: empty, with the given
      maximum, or the endianness error. */
  function Create(size: int, endi: string): (r: Result<BitBuffer, BitBufferError>)
    ensures r.Ok? ==> r.value.bits == [] && r.value.maxSize == size
    ensures r.Ok? ==> Some(r.value.endianness) == ParseEndianness(endi)
    ensures r.Err? <==> ParseEndianness(endi).None?
  {
    SetEndianness(SetMaxSize(BitBuffer([], 0, Msb), size), endi)
  }

  /** The default construction: capacity 8, "msb" order, empty. */
  lemma CreateDefault()
    ensures Create(8, MSB) == Ok(BitBuffer([], 8, Msb))
  {
    assert Lower(MSB) == MSB;
  }

  /** `push`: at the maximum size the oldest bit (the first in "msb" order,
      the last in "lsb" order) is popped first, which fails on an empty
      list; then the new bit is appended or inserted at the front. */
  function Push(b: BitBuffer, bit: bool): (r: Result<BitBuffer, BitBufferError>)
    ensures r.Err? <==> |b.bits| == b.maxSize && b.bits == []
    ensures r.Ok? ==> r.value.maxSize == b.maxSize && r.value.endianness == b.endianness
  {
    var full := |b.bits| == b.maxSize;
    if full && b.bits == [] then Err(PopFromEmpty)
    else if b.endianness == Msb then
      Ok(b.(bits := (if full then b.bits[1..] else b.bits) + [bit]))
    else
      Ok(b.(bits := [bit] + (if full then b.bits[..|b.bits| - 1] else b.bits)))
  }

  /** `push` of an int: Python's `bool(x)`. */
  function PushInt(b: BitBuffer, x: int): (r: Result<BitBuffer, BitBufferError>)
    ensures r == Push(b, x != 0)
  {
    Push(b, x != 0)
  }

  /** Within the maximum, a push succeeds and the length grows by one until
      it reaches the maximum, then stays there. */
  lemma PushBound(b: BitBuffer, bit: bool)
    requires 1 <= b.maxSize && |b.bits| <= b.maxSize
    ensures Push(b, bit).Ok?
    ensures |Push(b, bit).value.bits| == if |b.bits| < b.maxSize then |b.bits| + 1 else b.maxSize
  {
  }

  /** A maximum set below the current length is never enforced again:
      every push grows the list. */
  lemma ShrunkBufferGrows(b: BitBuffer, size: int, bit: bool)
    requires size < |b.bits|
    ensures Push(SetMaxSize(b, size), bit).Ok?
    ensures |Push(SetMaxSize(b, size), bit).value.bits| == |b.bits| + 1
  {
  }

  /** Pushes bits in order, stopping at the first error. */
  function PushAll(b: BitBuffer, bits: seq<bool>): Result<BitBuffer, BitBufferError>
    decreases |bits|
  {
    if bits == [] then Ok(b)
    else
      match PushAll(b, bits[..|bits| - 1])
      case Err(e) => Err(e)
      case Ok(c) => Push(c, bits[|bits| - 1])
  }

  /** After pushing xs into an empty "msb" buffer of capacity n >= 1, the
      buffer holds the last n bits of xs, oldest first. */
  lemma {:induction false} PushAllKeepsLastMsb(b: BitBuffer, xs: seq<bool>)
    requires b.bits == [] && b.maxSize >= 1 && b.endianness == Msb
    ensures PushAll(b, xs) == Ok(b.(bits := Last(xs, b.maxSize)))
    decreases |xs|
  {
    if xs != [] {
      var init := xs[..|xs| - 1];
      var x := xs[|xs| - 1];
      assert xs == init + [x];
      PushAllKeepsLastMsb(b, init);
      LastStep(init, x, b.maxSize);
    }
  }

  /** After pushing xs into an empty "lsb" buffer of capacity n >= 1, the
      buffer holds the last n bits of xs, newest first. */
  lemma {:induction false} PushAllKeepsLastLsb(b: BitBuffer, xs: seq<bool>)
    requires b.bits == [] && b.maxSize >= 1 && b.endianness == Lsb
    ensures PushAll(b, xs) == Ok(b.(bits := Reverse(Last(xs, b.maxSize))))
    decreases |xs|
  {
    if xs != [] {
      var init := xs[..|xs| - 1];
      var x := xs[|xs| - 1];
      assert xs == init + [x];
      PushAllKeepsLastLsb(b, init);
      PushLsbStep(b.(bits := Reverse(Last(init, b.maxSize))), init, x);
    }
  }

  /** One "lsb" push onto the reversed last n bits of xs gives the
      reversed last n bits of xs + [x]. */
  lemma PushLsbStep(c: BitBuffer, xs: seq<bool>, x: bool)
    requires c.maxSize >= 1 && c.endianness == Lsb && c.bits == Reverse(Last(xs, c.maxSize))
    ensures Push(c, x) == Ok(c.(bits := Reverse(Last(xs + [x], c.maxSize))))
  {
    var n := c.maxSize;
    var l := Last(xs, n);
    LastStep(xs, x, n);
    ReverseSnoc(if |xs| >= n then l[1..] else l, x);
    if |xs| >= n {
      ReverseTail(l);
    }
  }

  /** One iteration of `to_int`: or-ing bit i in at position pos extends
      the big-endian prefix by that bit. */
  lemma ToIntStep(bits: seq<bool>, i: nat, pos: nat)
    requires i < |bits| && pos == |bits| - 1 - i
    ensures Or(BigEndian(bits[..i]) * Pow2(pos + 1), BitValue(bits[i]) * Pow2(pos)) == BigEndian(bits[..i + 1]) * Pow2(pos)
  {
    var v := BitValue(bits[i]);
    var x := BigEndian(bits[..i]);
    OrBitBelow(x, v, pos);
    assert bits[..i + 1] == bits[..i] + [bits[i]];
    BigEndianAppend(bits[..i], [bits[i]]);
    assert BigEndian([bits[i]]) == v by {
      assert [bits[i]][..0] == [];
    }
    assert Pow2(pos + 1) == 2 * Pow2(pos);
    Double(x, Pow2(pos));
    MulAddRight(2 * x, v, Pow2(pos));
  }

  /** `to_int`: the bits read big-endian, element 0 the most significant. */
  method ToInt(b: BitBuffer) returns (result: nat)
    ensures result == BigEndian(b.bits)
    ensures result < Pow2(|b.bits|)
  {
    var bits := b.bits;
    var n := |bits|;
    result := 0;
    var pos := n - 1;
    var i := 0;
    while i < n
      invariant 0 <= i <= n && pos == n - 1 - i
      invariant result == BigEndian(bits[..i]) * Pow2(n - i)
    {
      ToIntStep(bits, i, pos);
      result := Or(result, BitValue(bits[i]) * Pow2(pos));
      pos := pos - 1;
      i := i + 1;
    }
    assert bits[..n] == bits;
    BigEndianBound(bits);
  }
}
