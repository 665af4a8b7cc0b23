/** spacelab_decoder/csp.py: the CubeSat Space Protocol header. `encode`
    checks its arguments, packs them into four header elements and appends
    the payload; `decode` rejects packets shorter than a header and unpacks
    the header's fields.

    Packets are lists of non-negative Python integers. Element 2 of an
    encoded header is `(dst_port << 6) | src_port` without a mask, so it is
    not always a byte (ElementBounds); the decoder masks it again. */
module Csp {
  import opened Bits
  import opened Options

  const PrioCritical: nat := 0
  const PrioHigh: nat := 1
  const PrioNorm: nat := 2
  const PrioLow: nat := 3

  const PortCmp: nat := 0
  const PortPing: nat := 1
  const PortPs: nat := 2
  const PortMemfree: nat := 3
  const PortReboot: nat := 4
  const PortBufFree: nat := 5
  const PortUptime: nat := 6
  const PortBeacon: nat := 10

  /** The ValueErrors `encode` and `decode` raise. */
  datatype CspError =
    | PriorityOutOfRange
    | SourceAddressOutOfRange
    | DestinationAddressOutOfRange
    | SourcePortOutOfRange
    | DestinationPortOutOfRange
    | HeaderTooShort

  /** The fields `_decode_header` returns; the flags are 0 or 1. */
  datatype Header = Header(priority: nat, srcAdr: nat, dstAdr: nat, srcPort: nat, dstPort: nat,
                           hmac: nat, xtea: nat, rdp: nat, crc: nat)

  /** Python's `int(b)` for a bool. */
  function Flag(b: bool): nat
  {
    if b then 1 else 0
  }

  /** The argument ranges `encode` accepts. */
  predicate InRange(prio: int, srcAdr: int, dstAdr: int, srcPort: int, dstPort: int)
  {
    0 <= prio <= 3 && 0 <= srcAdr <= 31 && 0 <= dstAdr <= 31 && 0 <= srcPort <= 63 && 0 <= dstPort <= 63
  }

  /** The first argument check of `encode` that fails, in the order the
      checks are made. */
  function Violation(prio: int, srcAdr: int, dstAdr: int, srcPort: int, dstPort: int): (v: Option<CspError>)
    ensures v.None? <==> InRange(prio, srcAdr, dstAdr, srcPort, dstPort)
    ensures v.Some? ==> v.value != HeaderTooShort
  {
    if !(0 <= prio <= 3) then Some(PriorityOutOfRange)
    else if !(0 <= srcAdr <= 31) then Some(SourceAddressOutOfRange)
    else if !(0 <= dstAdr <= 31) then Some(DestinationAddressOutOfRange)
    else if !(0 <= srcPort <= 63) then Some(SourcePortOutOfRange)
    else if !(0 <= dstPort <= 63) then Some(DestinationPortOutOfRange)
    else None
  }

  /** Header elements 0 to 2: priority, addresses and ports. */
  function AddressElements(prio: nat, srcAdr: nat, dstAdr: nat, srcPort: nat, dstPort: nat): seq<nat>
  {
    [Or(Or(prio * 64, srcAdr * 2), And(dstAdr / 16, 1)),
     Or(And(dstAdr, 15) * 16, And(dstPort, 60) / 4),
     Or(dstPort * 64, srcPort)]
  }

  /** Header element 3 as written: rdp is shifted to bit 2, onto xtea. */
  function FlagsAsWritten(hmac: bool, xtea: bool, rdp: bool, crc: bool): nat
  {
    Or(Or(Or(Flag(hmac) * 8, Flag(xtea) * 4), Flag(rdp) * 4), Flag(crc))
  }

  /** Header element 3 with rdp at bit 1, where `_decode_header` reads it. */
  function Flags(hmac: bool, xtea: bool, rdp: bool, crc: bool): nat
  {
    Or(Or(Or(Flag(hmac) * 8, Flag(xtea) * 4), Flag(rdp) * 2), Flag(crc))
  }

  /** `encode` once the flag element is chosen. */
  function EncodeWith(flags: nat, prio: int, srcAdr: int, dstAdr: int, srcPort: int, dstPort: int,
                      pl: seq<nat>): (r: Result<seq<nat>, CspError>)
    ensures r.Ok? <==> InRange(prio, srcAdr, dstAdr, srcPort, dstPort)
    ensures r.Ok? ==> |r.value| == 4 + |pl| && r.value[3] == flags && r.value[4..] == pl
    ensures r.Err? ==> r.error != HeaderTooShort
  {
    match Violation(prio, srcAdr, dstAdr, srcPort, dstPort)
    case Some(e) => Err(e)
    case None => Ok(AddressElements(prio, srcAdr, dstAdr, srcPort, dstPort) + [flags] + pl)
  }

  /** `CSP.encode` as written, with rdp on the xtea bit. */
  function EncodeAsWritten(prio: int, srcAdr: int, dstAdr: int, srcPort: int, dstPort: int,
                           hmac: bool, xtea: bool, rdp: bool, crc: bool, pl: seq<nat>): (r: Result<seq<nat>, CspError>)
    ensures r.Ok? <==> InRange(prio, srcAdr, dstAdr, srcPort, dstPort)
  {
    EncodeWith(FlagsAsWritten(hmac, xtea, rdp, crc), prio, srcAdr, dstAdr, srcPort, dstPort, pl)
  }

  /** `CSP.encode` with rdp at bit 1. An argument out of range raises the
      error of the first failing check; otherwise the packet is the four
      header elements followed by the payload unchanged. */
  function Encode(prio: int, srcAdr: int, dstAdr: int, srcPort: int, dstPort: int,
                  hmac: bool, xtea: bool, rdp: bool, crc: bool, pl: seq<nat>): (r: Result<seq<nat>, CspError>)
    ensures r.Ok? <==> InRange(prio, srcAdr, dstAdr, srcPort, dstPort)
    ensures !(0 <= prio <= 3) ==> r == Err(PriorityOutOfRange)
    ensures 0 <= prio <= 3 && !(0 <= srcAdr <= 31) ==> r == Err(SourceAddressOutOfRange)
    ensures 0 <= prio <= 3 && 0 <= srcAdr <= 31 && !(0 <= dstAdr <= 31) ==> r == Err(DestinationAddressOutOfRange)
    ensures 0 <= prio <= 3 && 0 <= srcAdr <= 31 && 0 <= dstAdr <= 31 && !(0 <= srcPort <= 63)
            ==> r == Err(SourcePortOutOfRange)
    ensures 0 <= prio <= 3 && 0 <= srcAdr <= 31 && 0 <= dstAdr <= 31 && 0 <= srcPort <= 63 && !(0 <= dstPort <= 63)
            ==> r == Err(DestinationPortOutOfRange)
    ensures r.Ok? ==> |r.value| == 4 + |pl| && r.value[4..] == pl
  {
    EncodeWith(Flags(hmac, xtea, rdp, crc), prio, srcAdr, dstAdr, srcPort, dstPort, pl)
  }

  /** `list(range(n))`, empty when n is not positive. */
  function Iota(n: int): (r: seq<nat>)
    ensures |r| == (if n > 0 then n else 0)
    ensures forall i | 0 <= i < |r| :: r[i] == i
    decreases if n > 0 then n else 0
  {
    if n <= 0 then [] else Iota(n - 1) + [n - 1]
  }

  /** `CSP.encode_ping`: a request to the ping port from the ping port, no
      flags, carrying the bytes 0, 1, ..., numBytes - 1. */
  function EncodePing(prio: int, srcAdr: int, dstAdr: int, numBytes: int): (r: Result<seq<nat>, CspError>)
    ensures r.Ok? <==> 0 <= prio <= 3 && 0 <= srcAdr <= 31 && 0 <= dstAdr <= 31
    ensures r.Ok? ==> |r.value| == 4 + (if numBytes > 0 then numBytes else 0)
    ensures r.Ok? ==> forall i | 4 <= i < |r.value| :: r.value[i] == i - 4
  {
    Encode(prio, srcAdr, dstAdr, PortPing, PortPing, false, false, false, false, Iota(numBytes))
  }

  /** `CSP._decode_header` on the four header elements. */
  function DecodeHeader(h: seq<nat>): (d: Header)
    requires |h| == 4
    ensures d.priority <= 3 && d.srcAdr <= 31 && d.dstAdr <= 31 && d.srcPort <= 63 && d.dstPort <= 63
    ensures d.hmac <= 1 && d.xtea <= 1 && d.rdp <= 1 && d.crc <= 1
  {
    HeaderBounds(h);
    Header(And(h[0] / 64, 3),
           And(h[0] / 2, 31),
           Or(And(h[0], 1) * 16, And(h[1] / 16, 15)),
           And(h[2], 63),
           Or(And(h[1], 15) * 4, And(h[2] / 64, 3)),
           And(h[3] / 8, 1),
           And(h[3] / 4, 1),
           And(h[3] / 2, 1),
           And(h[3], 1))
  }

  /** `CSP.decode`: a packet shorter than a header is rejected, otherwise
      its first four elements are decoded as the header. */
  function Decode(pkt: seq<nat>): (r: Result<Header, CspError>)
    ensures r.Err? <==> |pkt| < 4
    ensures r.Err? ==> r.error == HeaderTooShort
    ensures r.Ok? ==> r.value.priority <= 3 && r.value.srcAdr <= 31 && r.value.dstAdr <= 31
    ensures r.Ok? ==> r.value.srcPort <= 63 && r.value.dstPort <= 63
  {
    if |pkt| < 4 then Err(HeaderTooShort) else Ok(DecodeHeader(pkt[..4]))
  }

  // ---------------------------------------------------------------------
  // Proofs.

  lemma Powers()
    ensures Pow2(1) == 2 && Pow2(2) == 4 && Pow2(3) == 8 && Pow2(4) == 16 && Pow2(5) == 32 && Pow2(6) == 64
  {
    SmallPowers();
    assert Pow2(2) == 4;
    assert Pow2(3) == 8;
    assert Pow2(6) == 64;
  }

  /** `(x >> s) & (2^k - 1)` reads the k-bit field f of
      `x == ((hi << k) | f) << s | lo`, here with d == 2^s. */
  lemma Extract(x: nat, d: nat, k: nat, hi: nat, f: nat, lo: nat)
    requires d > 0 && lo < d && f < Pow2(k)
    requires x == (hi * Pow2(k) + f) * d + lo
    ensures And(x / d, Pow2(k) - 1) == f
  {
    LemmaFundamentalDivMod(x, d, hi * Pow2(k) + f, lo);
    AndLowMask(x / d, k);
    LemmaFundamentalDivMod(hi * Pow2(k) + f, Pow2(k), hi, f);
  }

  /** `x & (2^k - 1)` reads the low field f of `x == (hi << k) | f`. */
  lemma ExtractLow(x: nat, k: nat, hi: nat, f: nat)
    requires f < Pow2(k) && x == hi * Pow2(k) + f
    ensures And(x, Pow2(k) - 1) == f
  {
    AndLowMask(x, k);
    LemmaFundamentalDivMod(x, Pow2(k), hi, f);
  }

  /** A mask of k ones leaves a value below 2^k unchanged. */
  lemma SmallMask(x: nat, k: nat)
    requires x < Pow2(k)
    ensures And(x, Pow2(k) - 1) == x
  {
    AndLowMask(x, k);
    LemmaFundamentalDivMod(x, Pow2(k), 0, x);
  }

  lemma HeaderBounds(h: seq<nat>)
    requires |h| == 4
    ensures And(h[0] / 64, 3) <= 3 && And(h[0] / 2, 31) <= 31 && And(h[2], 63) <= 63
    ensures Or(And(h[0], 1) * 16, And(h[1] / 16, 15)) <= 31
    ensures Or(And(h[1], 15) * 4, And(h[2] / 64, 3)) <= 63
    ensures And(h[3] / 8, 1) <= 1 && And(h[3] / 4, 1) <= 1 && And(h[3] / 2, 1) <= 1 && And(h[3], 1) <= 1
  {
    Powers();
    AndBound(h[0] / 64, 3);
    AndBound(h[0] / 2, 31);
    AndBound(h[2], 63);
    AndBound(h[3] / 8, 1);
    AndBound(h[3] / 4, 1);
    AndBound(h[3] / 2, 1);
    AndBound(h[3], 1);
    AndBound(h[0], 1);
    AndBound(h[1] / 16, 15);
    OrShifted(And(h[0], 1), And(h[1] / 16, 15), 4);
    AndBound(h[1], 15);
    AndBound(h[2] / 64, 3);
    OrShifted(And(h[1], 15), And(h[2] / 64, 3), 2);
  }

  /** `x & (m << 2)` is `((x >> 2) & m) << 2`. */
  lemma AndShifted2(x: nat, m: nat)
    ensures And(x, m * 4) == And(x / 4, m) * 4
  {
    AndStep(x, m * 4);
    assert (m * 4) / 2 == m * 2 && (m * 4) % 2 == 0;
    AndStep(x / 2, m * 2);
    assert (m * 2) / 2 == m && (m * 2) % 2 == 0;
    assert x / 2 / 2 == x / 4;
  }

  /** `(a << 2) | (b << 2)` is `(a | b) << 2`. */
  lemma OrShifted2(a: nat, b: nat)
    ensures Or(a * 4, b * 4) == Or(a, b) * 4
  {
    OrStep(a * 4, b * 4);
    assert (a * 4) / 2 == a * 2 && (a * 4) % 2 == 0;
    assert (b * 4) / 2 == b * 2 && (b * 4) % 2 == 0;
    OrStep(a * 2, b * 2);
    assert (a * 2) / 2 == a && (a * 2) % 2 == 0;
    assert (b * 2) / 2 == b && (b * 2) % 2 == 0;
  }

  /** Element 0 is `prio*64 + src_adr*2 + (dst_adr >> 4)`. */
  lemma FirstElementSum(prio: nat, srcAdr: nat, dstAdr: nat)
    requires prio <= 3 && srcAdr <= 31 && dstAdr <= 31
    ensures Or(Or(prio * 64, srcAdr * 2), And(dstAdr / 16, 1)) == prio * 64 + srcAdr * 2 + dstAdr / 16
  {
    Powers();
    var d := dstAdr / 16;
    assert d < 2;
    OrShifted(prio, srcAdr * 2, 6);
    SmallMask(d, 1);
    var a := prio * 32 + srcAdr;
    assert a * 2 == prio * 64 + srcAdr * 2;
    OrShifted(a, d, 1);
  }

  /** Element 1 is `(dst_adr % 16)*16 + (dst_port >> 2)`. */
  lemma SecondElementSum(dstAdr: nat, dstPort: nat)
    requires dstAdr <= 31 && dstPort <= 63
    ensures Or(And(dstAdr, 15) * 16, And(dstPort, 60) / 4) == (dstAdr % 16) * 16 + dstPort / 4
  {
    Powers();
    AndLowMask(dstAdr, 4);
    var m := 15;
    AndShifted2(dstPort, m);
    assert m * 4 == 60;
    var q := dstPort / 4;
    SmallMask(q, 4);
    assert And(dstPort, 60) == q * 4;
    LemmaFundamentalDivMod(q * 4, 4, q, 0);
    var a := dstAdr % 16;
    OrShifted(a, q, 4);
    assert Or(a * 16, q) == a * 16 + q;
  }

  /** For in-range arguments the three address elements are plain sums:
      every `|` joins disjoint bits. */
  lemma AddressSums(prio: nat, srcAdr: nat, dstAdr: nat, srcPort: nat, dstPort: nat)
    requires InRange(prio, srcAdr, dstAdr, srcPort, dstPort)
    ensures var e := AddressElements(prio, srcAdr, dstAdr, srcPort, dstPort);
            e[0] == prio * 64 + srcAdr * 2 + dstAdr / 16 && e[1] == (dstAdr % 16) * 16 + dstPort / 4
            && e[2] == dstPort * 64 + srcPort
  {
    FirstElementSum(prio, srcAdr, dstAdr);
    SecondElementSum(dstAdr, dstPort);
    Powers();
    OrShifted(dstPort, srcPort, 6);
  }

  /** The corrected flag element is `hmac*8 + xtea*4 + rdp*2 + crc`. */
  lemma FlagsSum(hmac: bool, xtea: bool, rdp: bool, crc: bool)
    ensures Flags(hmac, xtea, rdp, crc) == Flag(hmac) * 8 + Flag(xtea) * 4 + Flag(rdp) * 2 + Flag(crc)
  {
    Powers();
    OrBitBelow(Flag(hmac), Flag(xtea), 2);
    var a := Flag(hmac) * 2 + Flag(xtea);
    assert a * 4 == Flag(hmac) * 8 + Flag(xtea) * 4;
    OrBitBelow(a, Flag(rdp), 1);
    var b := a * 2 + Flag(rdp);
    assert b * 2 == a * 4 + Flag(rdp) * 2;
    OrShifted(b, Flag(crc), 1);
  }

  /** The flag element as written is `hmac*8 + (xtea or rdp)*4 + crc`. */
  lemma FlagsAsWrittenSum(hmac: bool, xtea: bool, rdp: bool, crc: bool)
    ensures FlagsAsWritten(hmac, xtea, rdp, crc) == Flag(hmac) * 8 + Flag(xtea || rdp) * 4 + Flag(crc)
  {
    Powers();
    OrBitBelow(Flag(hmac), Flag(xtea), 2);
    var a := Flag(hmac) * 2 + Flag(xtea);
    assert a * 4 == Flag(hmac) * 8 + Flag(xtea) * 4;
    OrShifted2(a, Flag(rdp));
    OrStep(a, Flag(rdp));
    assert a / 2 == Flag(hmac) && a % 2 == Flag(xtea);
    OrZero(Flag(hmac));
    var b := Flag(hmac) * 2 + Flag(xtea || rdp);
    assert Or(a, Flag(rdp)) == b;
    OrShifted(b, Flag(crc), 2);
  }

  /** `_decode_header` reads priority and source address from element 0. */
  lemma DecodeFirst(h: seq<nat>, prio: nat, srcAdr: nat, d: nat)
    requires |h| == 4 && prio <= 3 && srcAdr <= 31 && d < 2
    requires h[0] == prio * 64 + srcAdr * 2 + d
    ensures DecodeHeader(h).priority == prio && DecodeHeader(h).srcAdr == srcAdr
  {
    Powers();
    Extract(h[0], 64, 2, 0, prio, srcAdr * 2 + d);
    Extract(h[0], 2, 5, prio, srcAdr, d);
  }

  /** `_decode_header` joins the destination address from bit 0 of element 0
      and the high nibble of element 1. */
  lemma DecodeDestination(h: seq<nat>, prio: nat, srcAdr: nat, dstAdr: nat, q: nat)
    requires |h| == 4 && dstAdr <= 31 && q < 16
    requires h[0] == prio * 64 + srcAdr * 2 + dstAdr / 16
    requires h[1] == (dstAdr % 16) * 16 + q
    ensures DecodeHeader(h).dstAdr == dstAdr
  {
    Powers();
    ExtractLow(h[0], 1, prio * 32 + srcAdr, dstAdr / 16);
    Extract(h[1], 16, 4, 0, dstAdr % 16, q);
    OrShifted(dstAdr / 16, dstAdr % 16, 4);
  }

  /** `_decode_header` reads both ports from elements 1 and 2. */
  lemma DecodePorts(h: seq<nat>, a: nat, srcPort: nat, dstPort: nat)
    requires |h| == 4 && srcPort <= 63 && dstPort <= 63
    requires h[1] == a * 16 + dstPort / 4
    requires h[2] == dstPort * 64 + srcPort
    ensures DecodeHeader(h).srcPort == srcPort && DecodeHeader(h).dstPort == dstPort
  {
    Powers();
    ExtractLow(h[2], 6, dstPort, srcPort);
    ExtractLow(h[1], 4, a, dstPort / 4);
    Extract(h[2], 64, 2, dstPort / 4, dstPort % 4, srcPort);
    OrShifted(dstPort / 4, dstPort % 4, 2);
  }

  /** `_decode_header` recovers priority, addresses and ports from the
      address elements of in-range arguments. */
  lemma DecodeAddresses(h: seq<nat>, prio: nat, srcAdr: nat, dstAdr: nat, srcPort: nat, dstPort: nat)
    requires InRange(prio, srcAdr, dstAdr, srcPort, dstPort) && |h| == 4
    requires h[..3] == AddressElements(prio, srcAdr, dstAdr, srcPort, dstPort)
    ensures DecodeHeader(h).priority == prio && DecodeHeader(h).srcAdr == srcAdr
    ensures DecodeHeader(h).dstAdr == dstAdr
    ensures DecodeHeader(h).srcPort == srcPort && DecodeHeader(h).dstPort == dstPort
  {
    AddressSums(prio, srcAdr, dstAdr, srcPort, dstPort);
    assert h[0] == h[..3][0] && h[1] == h[..3][1] && h[2] == h[..3][2];
    DecodeFirst(h, prio, srcAdr, dstAdr / 16);
    DecodeDestination(h, prio, srcAdr, dstAdr, dstPort / 4);
    DecodePorts(h, dstAdr % 16, srcPort, dstPort);
  }

  /** `_decode_header` reads the four flags of `hmac*8 + xtea*4 + rdp*2 + crc`. */
  lemma DecodeFlags(h: seq<nat>, hmac: nat, xtea: nat, rdp: nat, crc: nat)
    requires |h| == 4 && hmac < 2 && xtea < 2 && rdp < 2 && crc < 2
    requires h[3] == hmac * 8 + xtea * 4 + rdp * 2 + crc
    ensures DecodeHeader(h).hmac == hmac && DecodeHeader(h).xtea == xtea
    ensures DecodeHeader(h).rdp == rdp && DecodeHeader(h).crc == crc
  {
    Powers();
    Extract(h[3], 8, 1, 0, hmac, xtea * 4 + rdp * 2 + crc);
    Extract(h[3], 4, 1, hmac, xtea, rdp * 2 + crc);
    Extract(h[3], 2, 1, hmac * 2 + xtea, rdp, crc);
    ExtractLow(h[3], 1, hmac * 4 + xtea * 2 + rdp, crc);
  }

  /** Round trip: decoding what `encode` produces gives back every field
      and flag. */
  lemma DecodeEncode(prio: int, srcAdr: int, dstAdr: int, srcPort: int, dstPort: int,
                     hmac: bool, xtea: bool, rdp: bool, crc: bool, pl: seq<nat>)
    requires InRange(prio, srcAdr, dstAdr, srcPort, dstPort)
    ensures Decode(Encode(prio, srcAdr, dstAdr, srcPort, dstPort, hmac, xtea, rdp, crc, pl).value)
            == Ok(Header(prio, srcAdr, dstAdr, srcPort, dstPort, Flag(hmac), Flag(xtea), Flag(rdp), Flag(crc)))
  {
    var pkt := Encode(prio, srcAdr, dstAdr, srcPort, dstPort, hmac, xtea, rdp, crc, pl).value;
    var h := pkt[..4];
    assert h[..3] == AddressElements(prio, srcAdr, dstAdr, srcPort, dstPort);
    DecodeAddresses(h, prio, srcAdr, dstAdr, srcPort, dstPort);
    FlagsSum(hmac, xtea, rdp, crc);
    DecodeFlags(h, Flag(hmac), Flag(xtea), Flag(rdp), Flag(crc));
  }

  /** As written, the decoded rdp flag is always 0 and the decoded xtea
      flag is set when either xtea or rdp was; everything else survives. */
  lemma DecodeEncodeAsWritten(prio: int, srcAdr: int, dstAdr: int, srcPort: int, dstPort: int,
                              hmac: bool, xtea: bool, rdp: bool, crc: bool, pl: seq<nat>)
    requires InRange(prio, srcAdr, dstAdr, srcPort, dstPort)
    ensures Decode(EncodeAsWritten(prio, srcAdr, dstAdr, srcPort, dstPort, hmac, xtea, rdp, crc, pl).value)
            == Ok(Header(prio, srcAdr, dstAdr, srcPort, dstPort, Flag(hmac), Flag(xtea || rdp), 0, Flag(crc)))
  {
    var pkt := EncodeAsWritten(prio, srcAdr, dstAdr, srcPort, dstPort, hmac, xtea, rdp, crc, pl).value;
    var h := pkt[..4];
    assert h[..3] == AddressElements(prio, srcAdr, dstAdr, srcPort, dstPort);
    DecodeAddresses(h, prio, srcAdr, dstAdr, srcPort, dstPort);
    FlagsAsWrittenSum(hmac, xtea, rdp, crc);
    DecodeFlags(h, Flag(hmac), Flag(xtea || rdp), 0, Flag(crc));
  }

  /** A packet with only the rdp flag set comes back with xtea set and rdp
      clear. */
  lemma RdpReadsAsXtea()
    ensures Decode(EncodeAsWritten(0, 0, 0, 0, 0, false, false, true, false, []).value)
            == Ok(Header(0, 0, 0, 0, 0, 0, 1, 0, 0))
  {
    DecodeEncodeAsWritten(0, 0, 0, 0, 0, false, false, true, false, []);
  }

  /** Without rdp the two encoders agree, so every caller that never sets
      rdp (`encode_ping` among them) is unaffected. */
  lemma AsWrittenAgreesWithoutRdp(prio: int, srcAdr: int, dstAdr: int, srcPort: int, dstPort: int,
                                  hmac: bool, xtea: bool, crc: bool, pl: seq<nat>)
    ensures EncodeAsWritten(prio, srcAdr, dstAdr, srcPort, dstPort, hmac, xtea, false, crc, pl)
            == Encode(prio, srcAdr, dstAdr, srcPort, dstPort, hmac, xtea, false, crc, pl)
  {
    FlagsSum(hmac, xtea, false, crc);
    FlagsAsWrittenSum(hmac, xtea, false, crc);
  }

  /** Elements 0, 1 and 3 of an encoded header are bytes; element 2 is
      `dst_port * 64 + src_port`, above 255 exactly when dst_port >= 4. */
  lemma ElementBounds(prio: int, srcAdr: int, dstAdr: int, srcPort: int, dstPort: int,
                      hmac: bool, xtea: bool, rdp: bool, crc: bool, pl: seq<nat>)
    requires InRange(prio, srcAdr, dstAdr, srcPort, dstPort)
    ensures var pkt := Encode(prio, srcAdr, dstAdr, srcPort, dstPort, hmac, xtea, rdp, crc, pl).value;
            pkt[0] < 256 && pkt[1] < 256 && pkt[3] < 16 && pkt[2] == dstPort * 64 + srcPort
            && (pkt[2] < 256 <==> dstPort < 4)
  {
    AddressSums(prio, srcAdr, dstAdr, srcPort, dstPort);
    FlagsSum(hmac, xtea, rdp, crc);
  }

  /** A ping request decodes to the caller's priority and addresses, port 1
      at both ends and no flags. */
  lemma DecodePing(prio: int, srcAdr: int, dstAdr: int, numBytes: int)
    requires 0 <= prio <= 3 && 0 <= srcAdr <= 31 && 0 <= dstAdr <= 31
    ensures Decode(EncodePing(prio, srcAdr, dstAdr, numBytes).value)
            == Ok(Header(prio, srcAdr, dstAdr, PortPing, PortPing, 0, 0, 0, 0))
  {
    DecodeEncode(prio, srcAdr, dstAdr, PortPing, PortPing, false, false, false, false, Iota(numBytes));
  }
}
