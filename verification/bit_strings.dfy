/** Sequences of booleans read as binary numbers, the shared vocabulary of
    the bit and byte buffers, the sync word and the bit decoder. */
module BitStrings {
  import opened Bits

  /** Python's `int(bit)`. */
  function BitValue(b: bool): nat { if b then 1 else 0 }

  /** The sequence in reverse order (Python's `list.reverse()`). */
  function Reverse<T>(s: seq<T>): (r: seq<T>)
    ensures |r| == |s| && forall i | 0 <= i < |s| :: r[i] == s[|s| - 1 - i]
  {
    if s == [] then [] else Reverse(s[1..]) + [s[0]]
  }

  /** The value of bits read with element 0 as the most significant bit. */
  function BigEndian(bits: seq<bool>): nat
  {
    if bits == [] then 0 else 2 * BigEndian(bits[..|bits| - 1]) + BitValue(bits[|bits| - 1])
  }

  /** The value of bits read with element 0 as the least significant bit:
      the sum of bits[k] * 2^k. */
  function LittleEndian(bits: seq<bool>): nat
  {
    if bits == [] then 0 else BitValue(bits[0]) + 2 * LittleEndian(bits[1..])
  }

  /** The last n elements of s (all of s when it is shorter). */
  function Last<T>(s: seq<T>, n: nat): (r: seq<T>)
    ensures |r| == if |s| < n then |s| else n
    ensures r == s[|s| - |r|..]
  {
    if |s| < n then s else s[|s| - n..]
  }

  /** The last n elements after one more element: drop the oldest when
      already n long. */
  lemma LastStep<T>(xs: seq<T>, x: T, n: nat)
    requires n >= 1
    ensures Last(xs + [x], n) == (if |xs| >= n then Last(xs, n)[1..] else Last(xs, n)) + [x]
  {
  }

  lemma ReverseSnoc<T>(m: seq<T>, x: T)
    ensures Reverse(m + [x]) == [x] + Reverse(m)
  {
    assert forall i | 0 <= i < |m| + 1 :: Reverse(m + [x])[i] == ([x] + Reverse(m))[i];
  }

  lemma ReverseAppend<T>(a: seq<T>, b: seq<T>)
    ensures Reverse(a + b) == Reverse(b) + Reverse(a)
  {
    assert forall i | 0 <= i < |a| + |b| :: Reverse(a + b)[i] == (Reverse(b) + Reverse(a))[i];
  }

  lemma ReverseTail<T>(l: seq<T>)
    requires l != []
    ensures Reverse(l)[..|l| - 1] == Reverse(l[1..])
  {
  }

  lemma ReverseReverse<T>(s: seq<T>)
    ensures Reverse(Reverse(s)) == s
  {
  }

  /** Reading the reversed bits big-endian is reading the bits
      little-endian. */
  lemma {:induction false} BigEndianOfReverse(bits: seq<bool>)
    ensures BigEndian(Reverse(bits)) == LittleEndian(bits)
  {
    if bits != [] {
      var r := Reverse(bits);
      assert r[..|r| - 1] == Reverse(bits[1..]);
      BigEndianOfReverse(bits[1..]);
    }
  }

  /** A big-endian value has at most |bits| binary digits. */
  lemma {:induction false} BigEndianBound(bits: seq<bool>)
    ensures BigEndian(bits) < Pow2(|bits|)
  {
    if bits != [] {
      BigEndianBound(bits[..|bits| - 1]);
    }
  }

  /** Appending bits at the low end shifts the prefix up. */
  lemma {:induction false} BigEndianAppend(a: seq<bool>, b: seq<bool>)
    ensures BigEndian(a + b) == BigEndian(a) * Pow2(|b|) + BigEndian(b)
    decreases |b|
  {
    if b != [] {
      var b0 := b[..|b| - 1];
      var last := BitValue(b[|b| - 1]);
      assert (a + b)[..|a + b| - 1] == a + b0;
      assert BigEndian(a + b) == 2 * BigEndian(a + b0) + last;
      BigEndianAppend(a, b0);
      Double(BigEndian(a), Pow2(|b0|));
      assert BigEndian(b) == 2 * BigEndian(b0) + last;
    } else {
      assert a + b == a;
    }
  }

  /** Python's `acc = (acc << 1) | int(bit)` over bits, in order. */
  function ShiftIn(acc: nat, bits: seq<bool>): nat
    decreases |bits|
  {
    if bits == [] then acc else ShiftIn(Or(2 * acc, BitValue(bits[0])), bits[1..])
  }

  /** Shifting bits into acc appends them below acc's binary digits. */
  lemma {:induction false} ShiftInValue(acc: nat, bits: seq<bool>)
    ensures ShiftIn(acc, bits) == acc * Pow2(|bits|) + BigEndian(bits)
    decreases |bits|
  {
    if bits != [] {
      var v := BitValue(bits[0]);
      var p := Pow2(|bits| - 1);
      OrShifted(acc, v, 1);
      var next := 2 * acc + v;
      ShiftInValue(next, bits[1..]);
      assert ShiftIn(acc, bits) == next * p + BigEndian(bits[1..]);
      BigEndianAppend([bits[0]], bits[1..]);
      assert [bits[0]] + bits[1..] == bits;
      assert BigEndian([bits[0]]) == v by {
        assert [bits[0]][..0] == [];
      }
      assert BigEndian(bits) == v * p + BigEndian(bits[1..]);
      Double(acc, p);
      assert acc * Pow2(|bits|) == 2 * (acc * p);
      MulAddRight(2 * acc, v, p);
    }
  }
}
