/** The CCSDS (255,223) Reed-Solomon code of spacelab_decoder/reed_solomon.py:
    LFSR encoding and syndrome / Berlekamp-Massey / Chien / Forney decoding
    over the tables of module GF256. `pad` is the number of leading symbols of
    a shortened block that are not transmitted. */
module ReedSolomon {
  import opened Bits
  import opened Options
  import opened GF256

  const NROOTS: int := 32
  const FCR: int := 112
  const PRIM: int := 11
  const IPRIM: int := 116

  function Max(a: int, b: int): int { if a >= b then a else b }
  function Min(a: int, b: int): int { if a <= b then a else b }

  /** n zero symbols. */
  function Zeros(n: nat): (z: seq<byte>)
    ensures |z| == n && forall k | 0 <= k < n :: z[k] == 0
  {
    seq(n, _ => 0)
  }

  /** Python's `data[:-32]`: everything but the last 32 symbols. */
  function DropParity<T>(data: seq<T>): (r: seq<T>)
    ensures |r| == Max(|data| - 32, 0)
    ensures r <= data
  {
    if |data| >= 32 then data[..|data| - 32] else []
  }

  // ---------------------------------------------------------------------
  // Encoding

  /** Register cell k after one `encode` iteration with feedback term
      `feedback` (index form): the next cell plus the generator tap, and a
      fresh tap in the last cell. */
  function Tap(parity: seq<byte>, feedback: byte, k: int): byte
    requires |parity| == NROOTS && 0 <= k < NROOTS
  {
    if k < NROOTS - 1 then XorByte(parity[k + 1], AlphaTo(Mod255(feedback + GenPoly[NROOTS - (k + 1)])))
    else AlphaTo(Mod255(feedback + GenPoly[0]))
  }

  /** One iteration of the `encode` loop with data symbol d: the feedback
      term is added into the register and the register shifts left. */
  function LfsrStep(parity: seq<byte>, d: byte): (next: seq<byte>)
    requires |parity| == NROOTS
    ensures |next| == NROOTS
  {
    var feedback := IndexOf(XorByte(d, parity[0]));
    if feedback != A0 then
      seq(NROOTS, k requires 0 <= k < NROOTS => Tap(parity, feedback, k))
    else
      parity[1..] + [0]
  }

  /** The register after feeding every symbol of data, in order. */
  function LfsrRun(parity: seq<byte>, data: seq<byte>): (p: seq<byte>)
    requires |parity| == NROOTS
    ensures |p| == NROOTS
    decreases |data|
  {
    if data == [] then parity else LfsrRun(LfsrStep(parity, data[0]), data[1..])
  }

  /** `encode(data, pad)`: the 32 parity symbols of the first 223 - pad
      data symbols. */
  function Encode(data: seq<byte>, pad: int): (parity: seq<byte>)
    requires |data| >= 255 - NROOTS - pad
    ensures |parity| == NROOTS
  {
    LfsrRun(Zeros(NROOTS), data[..Max(255 - NROOTS - pad, 0)])
  }

  /** The feedback term vanishes exactly when the input symbol equals the
      symbol leaving the register; then the register just shifts in a zero.
      Otherwise the new last symbol is non-zero. */
  lemma LfsrFeedback(parity: seq<byte>, d: byte)
    requires |parity| == NROOTS
    ensures d == parity[0] ==> LfsrStep(parity, d) == parity[1..] + [0]
    ensures d != parity[0] ==> LfsrStep(parity, d)[NROOTS - 1] != 0
  {
    XorZeroIff(d, parity[0]);
    ZeroIsA0(XorByte(d, parity[0]));
    var feedback := IndexOf(XorByte(d, parity[0]));
    if feedback != A0 {
      assert GenPoly[0] == 0;
      ZeroIsA0(Mod255(feedback + GenPoly[0]));
    }
  }

  /** Leading zero symbols leave a cleared register cleared. */
  lemma {:induction false} LfsrZeroPrefix(k: nat, data: seq<byte>)
    ensures LfsrRun(Zeros(NROOTS), Zeros(k) + data) == LfsrRun(Zeros(NROOTS), data)
  {
    if k > 0 {
      var z := Zeros(NROOTS);
      var padded := Zeros(k) + data;
      assert padded[0] == Zeros(k)[0] == 0 == z[0];
      LfsrFeedback(z, 0);
      assert z[1..] + [0] == z;
      assert padded[1..] == Zeros(k - 1) + data;
      assert LfsrRun(z, padded) == LfsrRun(LfsrStep(z, 0), Zeros(k - 1) + data);
      LfsrZeroPrefix(k - 1, data);
    } else {
      assert Zeros(k) + data == data;
    }
  }

  /** Shortening: `pad` stands for that many virtual leading zero symbols,
      so k explicit leading zeros with pad reduced by k give the same
      parity. */
  lemma EncodeShortened(k: nat, data: seq<byte>, pad: int)
    requires pad <= 255 - NROOTS && |data| >= 255 - NROOTS - pad
    ensures Encode(Zeros(k) + data, pad - k) == Encode(data, pad)
  {
    var n := 255 - NROOTS - pad;
    var padded := Zeros(k) + data;
    assert Encode(padded, pad - k) == LfsrRun(Zeros(NROOTS), Zeros(k) + data[..n]) by {
      assert Max(255 - NROOTS - (pad - k), 0) == n + k;
      assert padded[..n + k] == Zeros(k) + data[..n];
    }
    LfsrZeroPrefix(k, data[..n]);
  }

  /** An all-zero message has all-zero parity. */
  lemma EncodeZeros(n: nat, pad: int)
    requires n >= 255 - NROOTS - pad
    ensures Encode(Zeros(n), pad) == Zeros(NROOTS)
  {
    var m := Max(255 - NROOTS - pad, 0);
    assert Zeros(n)[..m] == Zeros(m) + [];
    LfsrZeroPrefix(m, []);
  }

  // ---------------------------------------------------------------------
  // Syndromes

  /** One Horner step of syndrome i: s := s * alpha^((FCR + i) * PRIM) + d. */
  function SyndromeStep(s: byte, d: byte, i: int): byte
  {
    if s == 0 then d else XorByte(d, AlphaTo(Mod255(IndexOf(s) + (FCR + i) * PRIM)))
  }

  function SyndromeRun(s: byte, data: seq<byte>, i: int): byte
    decreases |data|
  {
    if data == [] then s else SyndromeRun(SyndromeStep(s, data[0], i), data[1..], i)
  }

  /** The 32 syndromes, in polynomial form, of the first 255 - pad symbols. */
  function Syndromes(data: seq<byte>, pad: int): (s: seq<byte>)
    requires |data| >= 1 && |data| >= 255 - pad
    ensures |s| == NROOTS
  {
    seq(NROOTS, i requires 0 <= i < NROOTS => SyndromeRun(data[0], data[1..Max(255 - pad, 1)], i))
  }

  /** Starting the Horner loop at data[0] is starting it at zero. */
  lemma SyndromeFromZero(data: seq<byte>, i: int)
    requires |data| >= 1
    ensures SyndromeRun(0, data, i) == SyndromeRun(data[0], data[1..], i)
  {
  }

  lemma {:induction false} SyndromeZeroPrefix(k: nat, data: seq<byte>, i: int)
    ensures SyndromeRun(0, Zeros(k) + data, i) == SyndromeRun(0, data, i)
  {
    if k > 0 {
      var padded := Zeros(k) + data;
      assert padded[0] == Zeros(k)[0] == 0;
      assert padded[1..] == Zeros(k - 1) + data;
      assert SyndromeRun(0, padded, i) == SyndromeRun(SyndromeStep(0, 0, i), Zeros(k - 1) + data, i);
      SyndromeZeroPrefix(k - 1, data, i);
    } else {
      assert Zeros(k) + data == data;
    }
  }

  /** Shortening for decoding: k explicit leading zeros with pad reduced by
      k give the same syndromes. */
  lemma SyndromesShortened(k: nat, data: seq<byte>, pad: int)
    requires |data| >= 1 && |data| >= 255 - pad && pad < 255
    ensures Syndromes(Zeros(k) + data, pad - k) == Syndromes(data, pad)
  {
    var n := 255 - pad;
    var padded := Zeros(k) + data;
    forall i | 0 <= i < NROOTS
      ensures Syndromes(padded, pad - k)[i] == Syndromes(data, pad)[i]
    {
      SyndromeFromZero(padded[..n + k], i);
      SyndromeFromZero(data[..n], i);
      assert padded[..n + k] == Zeros(k) + data[..n];
      SyndromeZeroPrefix(k, data[..n], i);
      assert padded[..n + k][1..] == padded[1..n + k];
      assert data[..n][1..] == data[1..n];
    }
  }

  /** `syn_error`: the or of all syndromes. */
  function SynError(s: seq<byte>): nat
  {
    if s == [] then 0 else Or(SynError(s[..|s| - 1]), s[|s| - 1])
  }

  /** The or of the syndromes is zero exactly when every syndrome is. */
  lemma {:induction false} SynErrorZeroIff(s: seq<byte>)
    ensures SynError(s) == 0 <==> forall i | 0 <= i < |s| :: s[i] == 0
    decreases |s|
  {
    if s != [] {
      var init := s[..|s| - 1];
      SynErrorZeroIff(init);
      OrZeroIff(SynError(init), s[|s| - 1]);
      assert forall i | 0 <= i < |s| - 1 :: s[i] == init[i];
    }
  }

  /** An all-zero block has all-zero syndromes. */
  lemma SyndromesOfZeros(n: nat, pad: int)
    requires n >= 1 && n >= 255 - pad
    ensures forall i | 0 <= i < NROOTS :: Syndromes(Zeros(n), pad)[i] == 0
  {
    var m := Max(255 - pad, 1);
    forall i | 0 <= i < NROOTS
      ensures Syndromes(Zeros(n), pad)[i] == 0
    {
      SyndromeZeroPrefix(m - 1, [], i);
      assert Zeros(n)[1..m] == Zeros(m - 1) + [];
    }
  }

  /** The syndromes (or any polynomial) converted to index form. */
  function IndexForm(p: seq<byte>): (q: seq<byte>)
    ensures |q| == |p| && forall i | 0 <= i < |p| :: q[i] == IndexOf(p[i])
  {
    seq(|p|, i requires 0 <= i < |p| => IndexOf(p[i]))
  }

  /** The index form is the log table: zero becomes A0 and every other
      symbol the power alpha is raised to to give it back. */
  lemma IndexFormInverts(p: seq<byte>)
    ensures var q := IndexForm(p);
      forall i | 0 <= i < |p| :: (q[i] == A0 <==> p[i] == 0) && AlphaTo(q[i]) == p[i]
  {
    TablesInverse();
    assert AlphaTo(A0) == 0 && IndexOf(0) == A0;
  }

  // ---------------------------------------------------------------------
  // Berlekamp-Massey

  /** The Berlekamp-Massey registers: lambda in polynomial form, b in index
      form, and the current length el of the linear-feedback register. */
  datatype Bm = Bm(lambda: seq<byte>, b: seq<byte>, el: int)
  {
    predicate Valid() { |lambda| == NROOTS + 1 && |b| == NROOTS + 1 }
  }

  /** The discrepancy sum of step r over the first n terms (i < n), in
      polynomial form. */
  function Discrepancy(lambda: seq<byte>, s: seq<byte>, r: int, n: int): byte
    requires |lambda| == NROOTS + 1 && |s| == NROOTS && 0 <= n <= r <= NROOTS
  {
    if n == 0 then 0
    else
      var acc := Discrepancy(lambda, s, r, n - 1);
      var i := n - 1;
      if lambda[i] != 0 && s[r - i - 1] != A0 then XorByte(acc, AlphaTo(Mod255(IndexOf(lambda[i]) + s[r - i - 1])))
      else acc
  }

  /** B(x) <- x * B(x), in index form. */
  function ShiftB(b: seq<byte>): (c: seq<byte>)
    requires |b| == NROOTS + 1
    ensures |c| == NROOTS + 1 && c[0] == A0 && forall i | 1 <= i <= NROOTS :: c[i] == b[i - 1]
  {
    [A0] + b[..NROOTS]
  }

  /** Coefficient i of T(x) = lambda(x) - discr * x * B(x). */
  function TCoeff(lambda: seq<byte>, b: seq<byte>, discr: byte, i: int): byte
    requires |lambda| == NROOTS + 1 && |b| == NROOTS + 1 && 0 <= i <= NROOTS
  {
    if i == 0 then lambda[0]
    else if b[i - 1] != A0 then XorByte(lambda[i], AlphaTo(Mod255(discr + b[i - 1])))
    else lambda[i]
  }

  /** Coefficient i of B(x) = lambda(x) / discr, in index form. */
  function InvCoeff(lambda: seq<byte>, discr: byte, i: int): byte
    requires |lambda| == NROOTS + 1 && 0 <= i <= NROOTS
  {
    if lambda[i] == 0 then A0 else Mod255(IndexOf(lambda[i]) - discr + NN)
  }

  /** Step r of the Berlekamp-Massey loop (no erasures). */
  function BmStep(st: Bm, s: seq<byte>, r: int): (next: Bm)
    requires st.Valid() && |s| == NROOTS && 1 <= r <= NROOTS
    ensures next.Valid()
  {
    var discr := IndexOf(Discrepancy(st.lambda, s, r, r));
    if discr == A0 then st.(b := ShiftB(st.b))
    else
      var t := seq(NROOTS + 1, i requires 0 <= i <= NROOTS => TCoeff(st.lambda, st.b, discr, i));
      if 2 * st.el <= r - 1 then
        Bm(t, seq(NROOTS + 1, i requires 0 <= i <= NROOTS => InvCoeff(st.lambda, discr, i)), r - st.el)
      else
        Bm(t, ShiftB(st.b), st.el)
  }

  /** Steps r, r + 1, ..., NROOTS. */
  function BmRun(st: Bm, s: seq<byte>, r: int): (last: Bm)
    requires st.Valid() && |s| == NROOTS && 1 <= r
    ensures last.Valid()
    decreases NROOTS + 1 - r
  {
    if r > NROOTS then st else BmRun(BmStep(st, s, r), s, r + 1)
  }

  /** lambda(x) = 1, B(x) = lambda(x) in index form, el = 0. */
  function BmInit(): (st: Bm)
    ensures st.Valid()
  {
    var lambda := [1] + Zeros(NROOTS);
    Bm(lambda, IndexForm(lambda), 0)
  }

  /** The error locator polynomial, in index form, for syndromes s (index
      form). */
  function Locator(s: seq<byte>): (l: seq<byte>)
    requires |s| == NROOTS
    ensures |l| == NROOTS + 1
  {
    IndexForm(BmRun(BmInit(), s, 1).lambda)
  }

  /** The locator stays monic: no step touches its constant term. */
  lemma {:induction false} BmRunMonic(st: Bm, s: seq<byte>, r: int)
    requires st.Valid() && |s| == NROOTS && 1 <= r && st.lambda[0] == 1
    ensures BmRun(st, s, r).lambda[0] == 1
    decreases NROOTS + 1 - r
  {
    if r <= NROOTS {
      var next := BmStep(st, s, r);
      assert next.lambda[0] == 1;
      BmRunMonic(next, s, r + 1);
    }
  }

  /** Hence the locator's constant term is alpha^0, which is why the Chien
      search starts each sum at 1. */
  lemma LocatorConstant(s: seq<byte>)
    requires |s| == NROOTS
    ensures Locator(s)[0] == 0
  {
    BmRunMonic(BmInit(), s, 1);
    TablesInverse();
    assert AlphaTo(0) == 1;
  }

  /** deg(lambda): the highest index below n whose coefficient is not A0,
      or 0. */
  function Degree(l: seq<byte>, n: int): (d: int)
    requires 0 <= n <= |l|
    ensures 0 <= d && (n > 0 ==> d < n) && (n == 0 ==> d == 0)
    ensures d > 0 ==> l[d] != A0
    ensures forall i | d < i < n :: l[i] == A0
  {
    if n == 0 then 0
    else if l[n - 1] != A0 then n - 1
    else Degree(l, n - 1)
  }

  // ---------------------------------------------------------------------
  // Chien search

  /** The index-form register j of the Chien search after i steps. */
  function RegAt(l: seq<byte>, j: int, i: int): int
    requires 0 <= j < |l|
  {
    if l[j] == A0 then A0 else Mod255(l[j] + i * j)
  }

  /** The Chien sum at alpha^i of the terms j + 1 .. d, accumulated from the
      top down and started at 1. */
  function ChienSum(l: seq<byte>, i: int, j: int, d: int): byte
    requires |l| == NROOTS + 1 && 0 <= j <= d <= NROOTS
    decreases d - j
  {
    if j == d then 1
    else
      var acc := ChienSum(l, i, j + 1, d);
      if l[j + 1] != A0 then XorByte(acc, AlphaTo(Mod255(l[j + 1] + i * (j + 1)))) else acc
  }

  /** alpha^i is a root of the locator: lambda(alpha^i) == 0. */
  predicate IsRoot(l: seq<byte>, d: int, i: int)
    requires |l| == NROOTS + 1 && 0 <= d <= NROOTS
  {
    ChienSum(l, i, 0, d) == 0
  }

  /** The roots i in 1 .. n - 1, increasing. */
  function RootsBelow(l: seq<byte>, d: int, n: int): (rs: seq<int>)
    requires |l| == NROOTS + 1 && 0 <= d <= NROOTS
    ensures forall c | 0 <= c < |rs| :: 1 <= rs[c] < n && IsRoot(l, d, rs[c])
    ensures |rs| <= Max(n - 1, 0)
  {
    if n <= 1 then [] else RootsBelow(l, d, n - 1) + (if IsRoot(l, d, n - 1) then [n - 1] else [])
  }

  /** Every root i in 1 .. NN. */
  function AllRoots(l: seq<byte>, d: int): seq<int>
    requires |l| == NROOTS + 1 && 0 <= d <= NROOTS
  {
    RootsBelow(l, d, NN + 1)
  }

  /** The error location number of root i. */
  function Loc(i: int): int { Mod255(IPRIM * i - 1) }

  /** The location of root i undoes the PRIM-th power: alpha^(PRIM * (loc
      + 1)) is alpha^i, because IPRIM * PRIM is 1 modulo NN. */
  lemma LocInverse(i: int)
    ensures 0 <= Loc(i) < NN && (PRIM * (Loc(i) + 1) - i) % NN == 0
  {
    var r := Loc(i);
    var q := Multiple(IPRIM * i - 1 - r);
    assert PRIM * (r + 1) - i == 255 * (5 * i - 11 * q);
  }

  /** A searched range is a prefix of a larger one. */
  lemma {:induction false} RootsBelowPrefix(l: seq<byte>, d: int, m: int, n: int)
    requires |l| == NROOTS + 1 && 0 <= d <= NROOTS && m <= n
    ensures RootsBelow(l, d, m) <= RootsBelow(l, d, n)
    decreases n - m
  {
    if m < n {
      RootsBelowPrefix(l, d, m, n - 1);
      if n > 1 {
        assert RootsBelow(l, d, n - 1) <= RootsBelow(l, d, n);
      }
    }
  }

  /** The search lists exactly the roots in 1 .. n - 1. */
  lemma {:induction false} RootsBelowComplete(l: seq<byte>, d: int, n: int, i: int)
    requires |l| == NROOTS + 1 && 0 <= d <= NROOTS
    ensures i in RootsBelow(l, d, n) <==> 1 <= i < n && IsRoot(l, d, i)
  {
    if n > 1 {
      RootsBelowComplete(l, d, n - 1, i);
    }
  }

  /** The roots are listed in strictly increasing order. */
  lemma {:induction false} RootsBelowIncreasing(l: seq<byte>, d: int, n: int)
    requires |l| == NROOTS + 1 && 0 <= d <= NROOTS
    ensures forall a, c | 0 <= a < c < |RootsBelow(l, d, n)| :: RootsBelow(l, d, n)[a] < RootsBelow(l, d, n)[c]
  {
    if n > 1 {
      RootsBelowIncreasing(l, d, n - 1);
    }
  }

  lemma Multiple(x: int) returns (q: int)
    requires x % 255 == 0
    ensures x == 255 * q
  {
    q := x / 255;
  }

  /** Distinct roots have distinct error locations: IPRIM is the inverse of
      PRIM modulo NN, so i -> IPRIM * i - 1 is one-to-one on 1 .. NN. */
  lemma LocInjective(i: int, j: int)
    requires 1 <= i <= NN && 1 <= j <= NN && Loc(i) == Loc(j)
    ensures i == j
  {
    var r := Loc(i);
    var a := Multiple(IPRIM * i - 1 - r);
    var b := Multiple(IPRIM * j - 1 - r);
    var d := i - j;
    var e := a - b;
    assert 116 * d == 255 * e;
    var c := 11 * e - 5 * d;
    assert d == 255 * c;
  }

  /** The location number advances by IPRIM from one root candidate to the
      next. */
  lemma LocNext(i: int)
    ensures Mod255(Loc(i) + IPRIM) == Loc(i + 1)
  {
    ModStep(-1, i + 1, IPRIM);
    assert -1 + i * IPRIM == IPRIM * i - 1;
    assert -1 + (i + 1) * IPRIM == IPRIM * (i + 1) - 1;
  }

  /** Register j is A0 exactly when coefficient j is, and otherwise one
      step adds j to it. */
  lemma RegStep(l: seq<byte>, j: int, i: int)
    requires 0 <= j < |l|
    ensures RegAt(l, j, i - 1) == A0 <==> l[j] == A0
    ensures l[j] != A0 ==> Mod255(RegAt(l, j, i - 1) + j) == RegAt(l, j, i)
  {
    ModStep(l[j], i, j);
  }

  /** The Chien sum gains term j as the register holds it. */
  lemma ChienSumStep(l: seq<byte>, i: int, j: int, d: int)
    requires |l| == NROOTS + 1 && 1 <= j <= d <= NROOTS
    ensures ChienSum(l, i, j - 1, d) ==
      if l[j] != A0 then XorByte(ChienSum(l, i, j, d), AlphaTo(RegAt(l, j, i))) else ChienSum(l, i, j, d)
  {
  }

  /** One more Chien step advances a register by its own index. */
  lemma ModStep(a: int, i: int, j: int)
    ensures Mod255(Mod255(a + (i - 1) * j) + j) == Mod255(a + i * j)
  {
    var x := a + (i - 1) * j;
    assert x + j == a + i * j;
    var m := Mod255(x);
    var q := (x - m) / 255;
    assert x - m == 255 * q;
    assert (m + j) % 255 == (x + j - 255 * q) % 255;
  }

  /** What the Chien search finds: the first min(d, #roots) roots. */
  function ChienRoots(l: seq<byte>, d: int): (roots: seq<int>)
    requires |l| == NROOTS + 1 && 0 <= d <= NROOTS
  {
    AllRoots(l, d)[..Min(d, |AllRoots(l, d)|)]
  }

  /** Stopping once d roots are found below n yields the search result. */
  lemma ChienStopsEarly(l: seq<byte>, d: int, n: int)
    requires |l| == NROOTS + 1 && 0 <= d <= NROOTS && n <= NN + 1 && |RootsBelow(l, d, n)| == d
    ensures RootsBelow(l, d, n) == ChienRoots(l, d)
  {
    RootsBelowPrefix(l, d, n, NN + 1);
  }

  /** Searching all of 1 .. NN with fewer than d roots (or none at all when
      d == 0) yields the search result. */
  lemma ChienRunsOut(l: seq<byte>, d: int)
    requires |l| == NROOTS + 1 && 0 <= d <= NROOTS && |RootsBelow(l, d, NN + 1)| <= d
    ensures RootsBelow(l, d, NN + 1) == ChienRoots(l, d)
  {
  }

  /** One Chien step at alpha^i: every live register advances by its
      index and q sums them, starting at 1. */
  method ChienStep(l: seq<byte>, d: int, i: int, reg0: seq<int>) returns (q: byte, reg: seq<int>)
    requires |l| == NROOTS + 1 && 0 <= d <= NROOTS && |reg0| == NROOTS + 1
    requires forall j | 1 <= j <= d :: reg0[j] == RegAt(l, j, i - 1)
    ensures |reg| == NROOTS + 1
    ensures forall j | 1 <= j <= d :: reg[j] == RegAt(l, j, i)
    ensures q == ChienSum(l, i, 0, d)
  {
    reg := reg0;
    q := 1;
    var j := d;
    while j > 0
      invariant 0 <= j <= d
      invariant |reg| == NROOTS + 1
      invariant forall j' | 1 <= j' <= j :: reg[j'] == RegAt(l, j', i - 1)
      invariant forall j' | j < j' <= d :: reg[j'] == RegAt(l, j', i)
      invariant q == ChienSum(l, i, j, d)
    {
      RegStep(l, j, i);
      ChienSumStep(l, i, j, d);
      ghost var before := reg;
      if reg[j] != A0 {
        reg := reg[j := Mod255(reg[j] + j)];
        q := XorByte(q, AlphaTo(reg[j]));
      }
      assert reg[j] == RegAt(l, j, i);
      assert forall j' | 1 <= j' <= d && j' != j :: reg[j'] == before[j'];
      j := j - 1;
    }
  }

  /** The Chien search of the locator l of degree d: the roots in
      increasing order, stopping once d are found, with their error
      locations. The registers are stepped incrementally; the result agrees
      with evaluating the locator at every alpha^i directly. */
  method ChienSearch(l: seq<byte>, d: int) returns (roots: seq<int>, locs: seq<int>)
    requires |l| == NROOTS + 1 && 0 <= d <= NROOTS
    ensures roots == ChienRoots(l, d)
    ensures |locs| == |roots| && forall c | 0 <= c < |roots| :: locs[c] == Loc(roots[c])
  {
    var reg: seq<int> := [0] + l[1..];
    roots, locs := [], [];
    var i := 1;
    var k := IPRIM - 1;
    while i <= NN
      invariant 1 <= i <= NN + 1
      invariant |reg| == NROOTS + 1
      invariant forall j | 1 <= j <= d :: reg[j] == RegAt(l, j, i - 1)
      invariant k == Loc(i)
      invariant roots == RootsBelow(l, d, i)
      invariant |locs| == |roots| && forall c | 0 <= c < |roots| :: locs[c] == Loc(roots[c])
      invariant |roots| <= d && (d > 0 ==> |roots| < d)
      decreases NN + 1 - i
    {
      var q;
      q, reg := ChienStep(l, d, i, reg);
      LocNext(i);
      if q == 0 {
        roots := roots + [i];
        locs := locs + [k];
        if |roots| == d {
          ChienStopsEarly(l, d, i + 1);
          return;
        }
      }
      i := i + 1;
      k := Mod255(k + IPRIM);
    }
    ChienRunsOut(l, d);
  }

  // ---------------------------------------------------------------------
  // Forney

  /** Coefficient i of omega(x) = s(x) * lambda(x) mod x^NROOTS before the
      index-form conversion: the terms j = i down to lo. */
  function OmegaSum(s: seq<byte>, l: seq<byte>, i: int, lo: int): byte
    requires |s| == NROOTS && |l| == NROOTS + 1 && 0 <= lo && i < NROOTS
    decreases i + 1 - lo
  {
    if lo > i then 0
    else
      var acc := OmegaSum(s, l, i, lo + 1);
      if s[i - lo] != A0 && l[lo] != A0 then XorByte(acc, AlphaTo(Mod255(s[i - lo] as int + l[lo]))) else acc
  }

  /** The error evaluator omega(x), index form, coefficients 0 .. d - 1. */
  function Omega(s: seq<byte>, l: seq<byte>, d: int): (omega: seq<byte>)
    requires |s| == NROOTS && |l| == NROOTS + 1 && 0 <= d <= NROOTS
    ensures |omega| == d
  {
    seq(d, i requires 0 <= i < d => IndexOf(OmegaSum(s, l, i, 0)))
  }

  /** The polynomial form of an index-form polynomial. */
  function PolyForm(p: seq<byte>): (q: seq<byte>)
    ensures |q| == |p|
  {
    seq(|p|, i requires 0 <= i < |p| => AlphaTo(p[i]))
  }

  /** Coefficient i of the product a(x) * b(x) in polynomial form: the sum
      of a[i - j] * b[j] for j from lo up to i. */
  function ProductCoeff(a: seq<byte>, b: seq<byte>, i: int, lo: int): byte
    requires 0 <= lo && i < |a| && i < |b|
    decreases i + 1 - lo
  {
    if lo > i then 0 else XorByte(ProductCoeff(a, b, i, lo + 1), GfMul(a[i - lo], b[lo]))
  }

  /** Each partial evaluator sum is the matching partial product of the
      syndrome and locator polynomials. */
  lemma {:induction false} OmegaSumIsProduct(s: seq<byte>, l: seq<byte>, i: int, lo: int)
    requires |s| == NROOTS && |l| == NROOTS + 1 && 0 <= lo && i < NROOTS
    ensures OmegaSum(s, l, i, lo) == ProductCoeff(PolyForm(s), PolyForm(l), i, lo)
    decreases i + 1 - lo
  {
    if lo <= i {
      OmegaSumStep(s, l, i, lo);
      OmegaSumIsProduct(s, l, i, lo + 1);
    }
  }

  /** One step of the evaluator sum adds the polynomial-form product of the
      two coefficients it pairs, as one step of ProductCoeff does. */
  lemma OmegaSumStep(s: seq<byte>, l: seq<byte>, i: int, lo: int)
    requires |s| == NROOTS && |l| == NROOTS + 1 && 0 <= lo <= i < NROOTS
    ensures var m := GfMul(PolyForm(s)[i - lo], PolyForm(l)[lo]);
      OmegaSum(s, l, i, lo) == XorByte(OmegaSum(s, l, i, lo + 1), m) &&
      ProductCoeff(PolyForm(s), PolyForm(l), i, lo) == XorByte(ProductCoeff(PolyForm(s), PolyForm(l), i, lo + 1), m)
  {
    var sp, lp := PolyForm(s), PolyForm(l);
    OmegaSumTerm(s, l, i, lo, sp[i - lo], lp[lo]);
    ProductCoeffStep(sp, lp, i, lo);
  }

  /** One step of the evaluator sum, given the polynomial forms x and y of
      the two coefficients it pairs. */
  lemma OmegaSumTerm(s: seq<byte>, l: seq<byte>, i: int, lo: int, x: byte, y: byte)
    requires |s| == NROOTS && |l| == NROOTS + 1 && 0 <= lo <= i < NROOTS
    requires x == AlphaTo(s[i - lo]) && y == AlphaTo(l[lo])
    ensures OmegaSum(s, l, i, lo) == XorByte(OmegaSum(s, l, i, lo + 1), GfMul(x, y))
  {
    var a, b, acc := s[i - lo], l[lo], OmegaSum(s, l, i, lo + 1);
    assert OmegaSum(s, l, i, lo) ==
      if a != A0 && b != A0 then XorByte(acc, AlphaTo(Mod255(a as int + b))) else acc;
    OmegaTerm(acc, a, b);
  }

  /** One step of ProductCoeff, for any two polynomials. */
  lemma ProductCoeffStep(a: seq<byte>, b: seq<byte>, i: int, lo: int)
    requires 0 <= lo <= i && i < |a| && i < |b|
    ensures ProductCoeff(a, b, i, lo) == XorByte(ProductCoeff(a, b, i, lo + 1), GfMul(a[i - lo], b[lo]))
  {
  }

  /** One evaluator term: adding alpha^(a + b) unless a or b is A0 is
      adding the product of alpha^a and alpha^b. */
  lemma OmegaTerm(acc: byte, a: byte, b: byte)
    ensures (if a != A0 && b != A0 then XorByte(acc, AlphaTo(Mod255(a as int + b))) else acc) ==
      XorByte(acc, GfMul(AlphaTo(a), AlphaTo(b)))
  {
    GfMulOfPowers(a, b);
    XorZero(acc);
  }

  /** The product of alpha^a and alpha^b is alpha^(a + b), or zero when
      either is A0, the index form of zero. */
  lemma GfMulOfPowers(a: byte, b: byte)
    ensures GfMul(AlphaTo(a), AlphaTo(b)) ==
      if a != A0 && b != A0 then AlphaTo(Mod255(a as int + b)) else 0
  {
    TablesInverse();
    ZeroIsA0(a);
    ZeroIsA0(b);
  }

  /** omega(x) is s(x) * lambda(x) truncated to its first d coefficients,
      each converted to index form. */
  lemma OmegaIsProduct(s: seq<byte>, l: seq<byte>, d: int)
    requires |s| == NROOTS && |l| == NROOTS + 1 && 0 <= d <= NROOTS
    ensures |Omega(s, l, d)| == d
    ensures forall i | 0 <= i < d :: AlphaTo(Omega(s, l, d)[i]) == ProductCoeff(PolyForm(s), PolyForm(l), i, 0)
  {
    TablesInverse();
    forall i | 0 <= i < d
      ensures AlphaTo(Omega(s, l, d)[i]) == ProductCoeff(PolyForm(s), PolyForm(l), i, 0)
    {
      OmegaSumIsProduct(s, l, i, 0);
    }
  }

  /** omega(alpha^rt): the terms i = |omega| - 1 down to lo. */
  function Num1(omega: seq<byte>, rt: int, lo: int): byte
    requires 0 <= lo
    decreases |omega| - lo
  {
    if lo >= |omega| then 0
    else
      var acc := Num1(omega, rt, lo + 1);
      if omega[lo] != A0 then XorByte(acc, AlphaTo(Mod255(omega[lo] + lo * rt))) else acc
  }

  /** alpha^(rt * (FCR - 1)). */
  function Num2(rt: int): byte
  {
    AlphaTo(Mod255(rt * (FCR - 1) + NN))
  }

  /** The formal derivative term lambda'(alpha^rt): the odd coefficients
      lambda[i + 1] for even i from top down to lo. */
  function Den(l: seq<byte>, rt: int, top: int, lo: int): byte
    requires |l| == NROOTS + 1 && 0 <= lo && top < NROOTS
    decreases top + 2 - lo
  {
    if lo > top then 0
    else
      var acc := Den(l, rt, top, lo + 2);
      if l[lo + 1] != A0 then XorByte(acc, AlphaTo(Mod255(l[lo + 1] + lo * rt))) else acc
  }

  /** The highest even index of the derivative sum: `min(d, 31) & ~1`. */
  function DenTop(d: int): (top: int)
    requires 0 <= d
    ensures 0 <= top < NROOTS && top % 2 == 0 && top <= d && d <= top + 1 + Max(d - NROOTS + 1, 0)
  {
    var m := Min(d, NROOTS - 1);
    m - m % 2
  }

  /** The Forney error value for root rt, or None when the evaluator
      vanishes there (num1 == 0), in which case no correction is made. The
      value depends only on the polynomials and the root, not on the data. */
  function ErrorValue(omega: seq<byte>, l: seq<byte>, d: int, rt: int): Option<byte>
    requires |l| == NROOTS + 1 && 0 <= d <= NROOTS
  {
    var num1 := Num1(omega, rt, 0);
    var num2 := Num2(rt);
    var den := Den(l, rt, DenTop(d), 0);
    if num1 != 0 then Some(AlphaTo(Mod255(IndexOf(num1) + IndexOf(num2) + NN - IndexOf(den))))
    else None
  }

  /** Applies the error value at location loc when there is one and the
      location is transmitted (`loc >= pad`). */
  function CorrectOne(data: seq<byte>, pad: int, value: Option<byte>, loc: int): (fixed: seq<byte>)
    requires 0 <= loc < NN && |data| >= NN - pad
    ensures |fixed| == |data|
    ensures forall p | 0 <= p < |data| && p != loc - pad :: fixed[p] == data[p]
    ensures value.Some? && loc >= pad ==> fixed[loc - pad] == XorByte(data[loc - pad], value.value)
    ensures value.None? || loc < pad ==> forall p | 0 <= p < |data| :: fixed[p] == data[p]
  {
    if value.Some? && loc >= pad then
      data[loc - pad := XorByte(data[loc - pad], value.value)]
    else data
  }

  /** The corrections for roots n - 1 down to 0, with their error values
      and locations. */
  function Correct(data: seq<byte>, pad: int, values: seq<Option<byte>>, locs: seq<int>, n: nat): (fixed: seq<byte>)
    requires |data| >= NN - pad
    requires n <= |values| == |locs| && forall c | 0 <= c < |locs| :: 0 <= locs[c] < NN
    ensures |fixed| == |data|
    decreases n
  {
    if n == 0 then data
    else Correct(CorrectOne(data, pad, values[n - 1], locs[n - 1]), pad, values, locs, n - 1)
  }

  /** The corrections touch only the positions of the roots applied. */
  lemma {:induction false} CorrectFrame(data: seq<byte>, pad: int, values: seq<Option<byte>>, locs: seq<int>, n: nat, p: int)
    requires |data| >= NN - pad
    requires n <= |values| == |locs| && forall c | 0 <= c < |locs| :: 0 <= locs[c] < NN
    requires 0 <= p < |data| && forall c | 0 <= c < n :: p != locs[c] - pad
    ensures Correct(data, pad, values, locs, n)[p] == data[p]
    decreases n
  {
    if n > 0 {
      var once := CorrectOne(data, pad, values[n - 1], locs[n - 1]);
      CorrectFrame(once, pad, values, locs, n - 1, p);
    }
  }

  /** With distinct locations, every transmitted location whose error
      value exists receives exactly that value. */
  lemma {:induction false} CorrectApplies(data: seq<byte>, pad: int, values: seq<Option<byte>>, locs: seq<int>, n: nat, c: nat)
    requires |data| >= NN - pad
    requires n <= |values| == |locs| && forall k | 0 <= k < |locs| :: 0 <= locs[k] < NN
    requires forall a, b | 0 <= a < b < n :: locs[a] != locs[b]
    requires c < n && locs[c] >= pad && values[c].Some?
    ensures Correct(data, pad, values, locs, n)[locs[c] - pad] == XorByte(data[locs[c] - pad], values[c].value)
    decreases n
  {
    var once := CorrectOne(data, pad, values[n - 1], locs[n - 1]);
    var p := locs[c] - pad;
    if c == n - 1 {
      assert forall k | 0 <= k < n - 1 :: p != locs[k] - pad;
      CorrectFrame(once, pad, values, locs, n - 1, p);
    } else {
      assert once[p] == data[p];
      CorrectApplies(once, pad, values, locs, n - 1, c);
    }
  }

  // ---------------------------------------------------------------------
  // Decoding

  /** The decoded message, the error positions relative to the shortened
      block and their number. */
  datatype Decoded = Decoded(data: seq<byte>, positions: seq<int>, count: int)

  /** The `RuntimeError` raised when the locator has fewer roots than its
      degree. */
  datatype RsError = Uncorrectable

  /** The error values of the roots found, in root order. */
  function ErrorValues(omega: seq<byte>, l: seq<byte>, d: int, roots: seq<int>): (values: seq<Option<byte>>)
    requires |l| == NROOTS + 1 && 0 <= d <= NROOTS
    ensures |values| == |roots|
  {
    seq(|roots|, c requires 0 <= c < |roots| => ErrorValue(omega, l, d, roots[c]))
  }

  /** The error locations of the roots, relative to the full block. */
  function Locations(roots: seq<int>): (locs: seq<int>)
    ensures |locs| == |roots| && forall c | 0 <= c < |roots| :: locs[c] == Loc(roots[c])
  {
    seq(|roots|, c requires 0 <= c < |roots| => Loc(roots[c]))
  }

  /** The corrections with the given error values for the roots found:
      the message without parity, the positions relative to the shortened
      block and their count. */
  function Apply(data: seq<byte>, pad: int, values: seq<Option<byte>>, roots: seq<int>): (out: Decoded)
    requires |data| >= NN - pad && |values| == |roots|
    ensures |out.data| == |DropParity(data)| && |out.positions| == out.count == |roots|
  {
    var locs := Locations(roots);
    var fixed := Correct(data, pad, values, locs, |roots|);
    Decoded(DropParity(fixed), seq(|roots|, c requires 0 <= c < |roots| => locs[c] - pad), |roots|)
  }

  /** Error values and corrections for the d roots found. */
  function ApplyErrors(data: seq<byte>, pad: int, s: seq<byte>, l: seq<byte>, d: int, roots: seq<int>): (out: Decoded)
    requires |data| >= NN - pad && |s| == NROOTS && |l| == NROOTS + 1 && 0 <= d <= NROOTS
    requires |roots| == d
    ensures |out.data| == |DropParity(data)| && |out.positions| == out.count == d
  {
    Apply(data, pad, ErrorValues(Omega(s, l, d), l, d, roots), roots)
  }

  /** The part of `decode` after a non-zero syndrome (index form s):
      locator, Chien search, and the uncorrectable case. */
  function DecodeErrors(data: seq<byte>, pad: int, s: seq<byte>): (r: Result<Decoded, RsError>)
    requires |data| >= NN - pad && |s| == NROOTS
    ensures r.Ok? ==> |r.value.data| == |DropParity(data)| && |r.value.positions| == r.value.count
  {
    var l := Locator(s);
    var d := Degree(l, NROOTS + 1);
    var roots := ChienRoots(l, d);
    if d != |roots| then Err(Uncorrectable) else Ok(ApplyErrors(data, pad, s, l, d, roots))
  }

  /** `decode(data, pad)` without erasures: the message part of the block,
      the error positions and their number, or the uncorrectable error. */
  function Decode(data: seq<byte>, pad: int): (r: Result<Decoded, RsError>)
    requires |data| >= 1 && |data| >= NN - pad
    ensures r.Ok? ==> |r.value.data| == |DropParity(data)| && |r.value.positions| == r.value.count
  {
    var syn := Syndromes(data, pad);
    if SynError(syn) == 0 then Ok(Decoded(DropParity(data), [], 0))
    else DecodeErrors(data, pad, IndexForm(syn))
  }

  /** Facts every successful decoding satisfies: the message keeps its
      length, at most NROOTS positions are reported, each inside the block,
      and every other symbol is passed through unchanged. */
  predicate WellDecoded(data: seq<byte>, pad: int, out: Decoded)
  {
    |out.data| == |DropParity(data)| && 0 <= out.count <= NROOTS &&
    |out.positions| == out.count &&
    (forall c | 0 <= c < out.count :: -pad <= out.positions[c] < NN - pad) &&
    (forall p | 0 <= p < |out.data| && (forall c | 0 <= c < out.count :: p != out.positions[c]) ::
       out.data[p] == data[p])
  }

  /** The corrections with any error values keep the message length, report
      one position per root and change nothing outside those positions. */
  lemma ApplyWell(data: seq<byte>, pad: int, values: seq<Option<byte>>, roots: seq<int>)
    requires |data| >= NN - pad && |values| == |roots| <= NROOTS
    ensures WellDecoded(data, pad, Apply(data, pad, values, roots))
    ensures forall c | 0 <= c < |roots| :: Apply(data, pad, values, roots).positions[c] == Loc(roots[c]) - pad
  {
    var out := Apply(data, pad, values, roots);
    var locs := Locations(roots);
    forall p | 0 <= p < |out.data| && forall c | 0 <= c < |roots| :: p != out.positions[c]
      ensures out.data[p] == data[p]
    {
      assert forall c | 0 <= c < |roots| :: p != locs[c] - pad by {
        forall c | 0 <= c < |roots| ensures p != locs[c] - pad {
          assert out.positions[c] == locs[c] - pad;
        }
      }
      CorrectFrame(data, pad, values, locs, |roots|, p);
    }
  }

  /** The same for the Forney error values of the roots. */
  lemma ApplyErrorsWell(data: seq<byte>, pad: int, s: seq<byte>, l: seq<byte>, d: int, roots: seq<int>)
    requires |data| >= NN - pad && |s| == NROOTS && |l| == NROOTS + 1 && 0 <= d <= NROOTS
    requires |roots| == d
    ensures WellDecoded(data, pad, ApplyErrors(data, pad, s, l, d, roots))
    ensures forall c | 0 <= c < d :: ApplyErrors(data, pad, s, l, d, roots).positions[c] == Loc(roots[c]) - pad
  {
    ApplyWell(data, pad, ErrorValues(Omega(s, l, d), l, d, roots), roots);
  }

  /** Each located symbol of the message is corrected by its own error
      value: `data[loc - pad] ^= alpha_to[...]`, once, when the value is
      defined and the location is transmitted. */
  lemma ApplyFixes(data: seq<byte>, pad: int, values: seq<Option<byte>>, roots: seq<int>, c: nat)
    requires |data| >= NN - pad && |values| == |roots|
    requires forall a, b | 0 <= a < b < |roots| :: Loc(roots[a]) != Loc(roots[b])
    requires c < |roots| && pad <= Loc(roots[c]) && Loc(roots[c]) - pad < |DropParity(data)|
    ensures var p := Loc(roots[c]) - pad;
      values[c].Some? ==> Apply(data, pad, values, roots).data[p] == XorByte(data[p], values[c].value)
  {
    if values[c].Some? {
      CorrectApplies(data, pad, values, Locations(roots), |roots|, c);
    }
  }

  /** What `decode` promises. All-zero syndromes return the message part
      unchanged with no positions. Otherwise the block is uncorrectable
      exactly when the locator has fewer roots than its degree; on success
      there is one position per degree of the locator, each the location of
      the corresponding root, and no other symbol changes. */
  lemma DecodeSpec(data: seq<byte>, pad: int)
    requires |data| >= 1 && |data| >= NN - pad
    ensures SynError(Syndromes(data, pad)) == 0 ==> Decode(data, pad) == Ok(Decoded(DropParity(data), [], 0))
    ensures SynError(Syndromes(data, pad)) != 0 ==>
      var l := Locator(IndexForm(Syndromes(data, pad)));
      var d := Degree(l, NROOTS + 1);
      (Decode(data, pad).Err? <==> |AllRoots(l, d)| < d) &&
      (Decode(data, pad).Ok? ==>
         Decode(data, pad).value.count == d &&
         forall c | 0 <= c < d :: Decode(data, pad).value.positions[c] == Loc(AllRoots(l, d)[c]) - pad)
    ensures Decode(data, pad).Ok? ==> WellDecoded(data, pad, Decode(data, pad).value)
  {
    var syn := Syndromes(data, pad);
    if SynError(syn) != 0 {
      var s := IndexForm(syn);
      var l := Locator(s);
      var d := Degree(l, NROOTS + 1);
      var roots := ChienRoots(l, d);
      if d == |roots| {
        ApplyErrorsWell(data, pad, s, l, d, roots);
      }
    }
  }

  /** Distinct roots give distinct error positions. */
  lemma LocationsDistinct(l: seq<byte>, d: int)
    requires |l| == NROOTS + 1 && 0 <= d <= NROOTS
    ensures forall a, c | 0 <= a < c < |AllRoots(l, d)| :: Loc(AllRoots(l, d)[a]) != Loc(AllRoots(l, d)[c])
  {
    var rs := AllRoots(l, d);
    RootsBelowIncreasing(l, d, NN + 1);
    forall a, c | 0 <= a < c < |rs| ensures Loc(rs[a]) != Loc(rs[c]) {
      if Loc(rs[a]) == Loc(rs[c]) {
        LocInjective(rs[a], rs[c]);
      }
    }
  }

  /** An all-zero block takes the early return of `decode`. */
  lemma ZerosDecodeClean(n: nat, pad: int)
    requires n >= 1 && n >= NN - pad
    ensures SynError(Syndromes(Zeros(n), pad)) == 0
  {
    SyndromesOfZeros(n, pad);
    SynErrorZeroIff(Syndromes(Zeros(n), pad));
  }

  /** The syndromes read only the first 255 - pad symbols of the block. */
  lemma SyndromesPrefix(a: seq<byte>, b: seq<byte>, pad: int)
    requires |a| >= 1 && |a| >= NN - pad
    ensures Syndromes(a + b, pad) == Syndromes(a, pad)
  {
    var m := Max(255 - pad, 1);
    assert (a + b)[1..m] == a[1..m];
  }

  /** Whether `decode` raises depends only on the first 255 - pad symbols:
      symbols past them never rescue a block or spoil it. */
  lemma DecodeVerdictPrefix(a: seq<byte>, b: seq<byte>, pad: int)
    requires |a| >= 1 && |a| >= NN - pad
    ensures Decode(a + b, pad).Err? <==> Decode(a, pad).Err?
  {
    SyndromesPrefix(a, b, pad);
  }
}
