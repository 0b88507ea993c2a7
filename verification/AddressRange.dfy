/** Address ranges inside a prefix, and conversion between ranges and CIDRs. */
module AddressRange {
  import opened Powers
  import opened Bytes
  import opened Addresses

  /** What parsing an address text yields. */
  datatype ParsedAddress = Malformed | IPv4(v4: nat) | IPv6(v6: Address)

  /** What parsing a prefix text yields. */
  datatype ParsedPrefix = NoPrefix | PrefixV4 | PrefixV6(prefix: ValidPrefix)

  datatype Error =
    | InvalidSuffix
    | SuffixNotIPv6
    | StartAboveEnd
    | OutsidePrefix
    | InvalidAddress
    | FamilyMismatch
    | NotIPv6

  datatype Result<+T> = Ok(value: T) | Err(error: Error)

  datatype Range = Range(start: Address, end: Address)

  // ---------------------------------------------------------------- offsets within a prefix

  /** Writes the network bytes of the base, splits the boundary byte with a mask, and copies the rest of the suffix. */
  method ParseOffsetSuffix(base: Prefix, suffix: ParsedAddress) returns (r: Result<Address>)
    requires base.Valid()
    ensures r == match suffix
                 case Malformed => Err(InvalidSuffix)
                 case IPv4(_) => Err(SuffixNotIPv6)
                 case IPv6(s) => Ok(Combine(base, s))
  {
    if suffix.Malformed? {
      return Err(InvalidSuffix);
    }
    if !suffix.IPv6? {
      return Err(SuffixNotIPv6);
    }
    var baseBytes, suffixBytes := As16(base.Base()), As16(suffix.v6);
    var result := new byte[16](_ => 0);
    var fullBytes, remainingBits := base.bits / 8, base.bits % 8;

    for i := 0 to fullBytes
      invariant forall j :: 0 <= j < i ==> result[j] == baseBytes[j]
    {
      result[i] := baseBytes[i];
    }
    var next := fullBytes;
    if remainingBits > 0 && fullBytes < 16 {
      var mask := ShiftLeft(255, 8 - remainingBits);
      MaskedGraft(baseBytes[next], suffixBytes[next], remainingBits);
      result[next] := Or(And(baseBytes[next], mask), And(suffixBytes[next], Complement(mask)));
      next := next + 1;
    }
    for i := next to 16
      invariant forall j :: 0 <= j < fullBytes ==> result[j] == baseBytes[j]
      invariant fullBytes < next ==> result[fullBytes] == GraftByte(baseBytes[fullBytes], suffixBytes[fullBytes], remainingBits)
      invariant forall j :: next <= j < i ==> result[j] == suffixBytes[j]
    {
      result[i] := suffixBytes[i];
    }
    GraftedInParts(result[..], baseBytes, suffixBytes, base.bits);
    GraftedBytes(base, suffix.v6, result[..]);
    return Ok(AddrFrom16(result[..]));
  }

  /** Prefix bytes, then at most one mixed byte, then suffix bytes are a graft. */
  lemma GraftedInParts(r: Octets, baseBytes: Octets, suffixBytes: Octets, bits: nat)
    requires bits <= 128
    requires forall i :: 0 <= i < bits / 8 ==> r[i] == baseBytes[i]
    requires bits % 8 > 0 ==> r[bits / 8] == GraftByte(baseBytes[bits / 8], suffixBytes[bits / 8], bits % 8)
    requires forall i :: (bits + 7) / 8 <= i < 16 ==> r[i] == suffixBytes[i]
    ensures Grafted(r, baseBytes, suffixBytes, bits)
  {
    forall i | 0 <= i < 16
      ensures r[i] == GraftByte(baseBytes[i], suffixBytes[i], BitsInByte(bits, i))
    {
      GraftByteEnds(baseBytes[i], suffixBytes[i]);
    }
  }

  /** Sixteen bytes grafted at the prefix length spell the grafted address, masked or not. */
  lemma GraftedBytes(p: Prefix, suffix: Address, r: Octets)
    requires p.Valid()
    requires Grafted(r, As16(p.Base()), As16(suffix), p.bits) || Grafted(r, As16(p.addr), As16(suffix), p.bits)
    ensures AddrFrom16(r) == Combine(p, suffix)
  {
    AddressBytes(p.Base(), r);
    AddressBytes(p.addr, r);
    AddressBytes(suffix, r);
    FloorAligned(p.addr, p.HostBits());
    if Grafted(r, As16(p.Base()), As16(suffix), p.bits) {
      GraftedValue(r, As16(p.Base()), As16(suffix), p.bits, p.HostBits());
    } else {
      GraftedValue(r, As16(p.addr), As16(suffix), p.bits, p.HostBits());
    }
  }

  /** The range a pair of offset suffixes denotes inside a prefix. */
  function RangeWithin(base: Prefix, start: ParsedAddress, end: ParsedAddress): (r: Result<Range>)
    requires base.Valid()
  {
    match (start, end)
    case (Malformed, _) => Err(InvalidSuffix)
    case (IPv4(_), _) => Err(SuffixNotIPv6)
    case (IPv6(_), Malformed) => Err(InvalidSuffix)
    case (IPv6(_), IPv4(_)) => Err(SuffixNotIPv6)
    case (IPv6(s), IPv6(e)) =>
      if Combine(base, s) > Combine(base, e) then Err(StartAboveEnd)
      else Ok(Range(Combine(base, s), Combine(base, e)))
  }

  /** A pair of suffixes and where in a prefix of this size they point: the suffixes modulo the size, in order. */
  predicate Fits(base: Prefix, start: ParsedAddress, end: ParsedAddress)
    requires base.Valid()
  {
    start.IPv6? && end.IPv6? && start.v6 % base.Size() <= end.v6 % base.Size()
  }

  /** A range is calculated exactly for two IPv6 suffixes whose host parts are in order. It then runs from the one host
      part to the other, counted from the start of the prefix. */
  lemma RangeMeaning(base: Prefix, start: ParsedAddress, end: ParsedAddress)
    requires base.Valid()
    ensures var r := RangeWithin(base, start, end);
            && (r.Ok? <==> Fits(base, start, end))
            && (r.Ok? ==> r.value.start == base.Base() + start.v6 % base.Size() && r.value.end == base.Base() + end.v6 % base.Size())
  {
    if start.IPv6? && end.IPv6? {
      CombineIsModulo(base, start.v6);
      CombineIsModulo(base, end.v6);
      BaseIsQuotient(base);
    }
  }

  /** The checks are the source's; neither containment check is ever the one that fails. */
  method CalculateAddressRange(base: Prefix, start: ParsedAddress, end: ParsedAddress) returns (r: Result<Range>)
    requires base.Valid()
    ensures r == RangeWithin(base, start, end)
    ensures r.Ok? <==> Fits(base, start, end)
    ensures r.Ok? ==> r.value.start == base.Base() + start.v6 % base.Size() && r.value.end == base.Base() + end.v6 % base.Size()
    ensures r == Err(StartAboveEnd) <==> start.IPv6? && end.IPv6? && start.v6 % base.Size() > end.v6 % base.Size()
    ensures r == Err(SuffixNotIPv6) <==> start.IPv4? || (start.IPv6? && end.IPv4?)
    ensures r == Err(InvalidSuffix) <==> start.Malformed? || (start.IPv6? && end.Malformed?)
    ensures r != Err(OutsidePrefix)
  {
    RangeMeaning(base, start, end);
    var startResult := ParseOffsetSuffix(base, start);
    if startResult.Err? {
      return Err(startResult.error);
    }
    var endResult := ParseOffsetSuffix(base, end);
    if endResult.Err? {
      return Err(endResult.error);
    }
    var startAddr, endAddr := startResult.value, endResult.value;
    if startAddr > endAddr {
      return Err(StartAboveEnd);
    }
    CombineInside(base, start.v6);
    CombineInside(base, end.v6);
    if !base.Contains(startAddr) {
      return Err(OutsidePrefix);
    }
    if !base.Contains(endAddr) {
      return Err(OutsidePrefix);
    }
    return Ok(Range(startAddr, endAddr));
  }

  /** A calculated range lies inside its prefix. */
  lemma RangeInside(base: Prefix, start: ParsedAddress, end: ParsedAddress, a: Address)
    requires base.Valid() && RangeWithin(base, start, end).Ok?
    ensures var r := RangeWithin(base, start, end).value;
            r.start <= r.end && (r.start <= a <= r.end ==> base.Contains(a))
  {
    CombineInside(base, start.v6);
    CombineInside(base, end.v6);
    ContainsIsInterval(base, Combine(base, start.v6));
    ContainsIsInterval(base, Combine(base, end.v6));
    ContainsIsInterval(base, a);
  }

  /** Ranges of one configuration in equally long prefixes are translates of each other, and exist together. */
  lemma RangeTranslates(p: Prefix, q: Prefix, start: ParsedAddress, end: ParsedAddress)
    requires p.Valid() && q.Valid() && p.bits == q.bits
    ensures RangeWithin(p, start, end).Ok? <==> RangeWithin(q, start, end).Ok?
    ensures RangeWithin(p, start, end).Ok? ==>
              var r, s := RangeWithin(p, start, end).value, RangeWithin(q, start, end).value;
              r.start - p.Base() == s.start - q.Base() && r.end - p.Base() == s.end - q.Base()
  {
  }

  // ---------------------------------------------------------------- ranges and CIDRs

  /** How many low bits have to go before two numbers agree. */
  function DifferingBits(a: nat, b: nat): nat
    decreases a + b
  {
    if a == b then 0 else 1 + DifferingBits(a / 2, b / 2)
  }

  lemma {:induction false} DifferingBitsMeaning(a: nat, b: nat, h: nat)
    ensures Floor(a, h) == Floor(b, h) <==> DifferingBits(a, b) <= h
    decreases h
  {
    if h > 0 && a != b {
      DifferingBitsMeaning(a / 2, b / 2, h - 1);
    }
  }

  lemma DifferingBitsBound(a: Address, b: Address)
    ensures DifferingBits(a, b) <= WIDTH
  {
    SpaceIsPow2();
    ZeroAndSmall(a, WIDTH);
    ZeroAndSmall(b, WIDTH);
    DifferingBitsMeaning(a, b, WIDTH);
  }

  /** The CIDR spanned by two addresses. */
  function SpanningCIDR(start: Address, end: Address): (p: Prefix)
    ensures p.Valid()
  {
    DifferingBitsBound(start, end);
    Prefix(start, WIDTH - DifferingBits(start, end)).Masked()
  }

  /** Counts the leading bits two addresses share, byte by byte and then bit by bit. */
  method RangeToCIDR(start: Address, end: Address) returns (cidr: Prefix)
    ensures cidr == SpanningCIDR(start, end)
  {
    var startBytes, endBytes := As16(start), As16(end);
    AddressBytes(start, startBytes);
    AddressBytes(end, endBytes);
    var commonBits := 0;
    var i := 0;
    while i < 16
      invariant 0 <= i <= 16 && commonBits == 8 * i
      invariant startBytes[..i] == endBytes[..i]
    {
      if startBytes[i] == endBytes[i] {
        commonBits := commonBits + 8;
      } else {
        var x, y := startBytes[i], endBytes[i];
        var diff := Xor(x, y);
        NoBitsAboveByte(x, y);
        var bit := 7;
        while bit >= 0
          invariant -1 <= bit <= 7 && commonBits == 8 * i + 7 - bit
          invariant Floor(x, bit + 1) == Floor(y, bit + 1)
        {
          BitTest(x, y, bit);
          if And(diff, Pow2(bit)) != 0 {
            break;
          }
          commonBits := commonBits + 1;
          bit := bit - 1;
        }
        CommonLength(startBytes, endBytes, i, bit);
        break;
      }
      i := i + 1;
    }
    if i == 16 {
      assert startBytes == startBytes[..16] == endBytes[..16] == endBytes;
    }
    return Prefix(start, commonBits).Masked();
  }

  /** Agreeing above bit `k` means agreeing above it and in it. */
  lemma {:induction false} OneMoreBit(x: nat, y: nat, k: nat)
    ensures Floor(x, k) == Floor(y, k) <==> Floor(x, k + 1) == Floor(y, k + 1) && Bit(x, k) == Bit(y, k)
  {
    if k > 0 {
      OneMoreBit(x / 2, y / 2, k - 1);
    }
  }

  /** The loop's test of one bit of the difference. */
  lemma BitTest(x: nat, y: nat, k: nat)
    requires Floor(x, k + 1) == Floor(y, k + 1)
    ensures And(Xor(x, y), Pow2(k)) != 0 <==> Floor(x, k) != Floor(y, k)
  {
    AndSingleBit(Xor(x, y), k);
    XorBit(x, y, k);
    OneMoreBit(x, y, k);
    assert Bit(Xor(x, y), k) == 0 || Bit(Xor(x, y), k) == 1;
  }

  lemma NoBitsAboveByte(x: byte, y: byte)
    ensures Floor(x, 8) == Floor(y, 8)
  {
    Pow2Of8();
    ZeroAndSmall(x, 8);
    ZeroAndSmall(y, 8);
  }

  /** Dropping whole bytes from the end leaves the same comparison. */
  lemma {:induction false} DropBytes(s: seq<byte>, e: seq<byte>, m: nat, g: nat, h: nat)
    requires |s| == |e| && m <= |s| && h == 8 * m + g
    ensures Floor(Value(s), h) == Floor(Value(e), h) <==> Floor(Value(s[..|s| - m]), g) == Floor(Value(e[..|e| - m]), g)
  {
    if m == 0 {
      assert s[..|s|] == s && e[..|e|] == e;
    } else {
      var n := |s| - 1;
      ValueOfLast(s);
      ValueOfLast(e);
      AppendByte(Value(s[..n]), s[n], h, Value(s));
      AppendByte(Value(e[..n]), e[n], h, Value(e));
      DropBytes(s[..n], e[..n], m - 1, g, h - 8);
      assert s[..n][..n - (m - 1)] == s[..|s| - m] && e[..n][..n - (m - 1)] == e[..|e| - m];
    }
  }

  /** The first differing bit, at byte `i` and bit `bit`, fixes the number of differing low bits. */
  lemma CommonLength(s: Octets, e: Octets, i: nat, bit: int)
    requires i < 16 && s[..i] == e[..i] && -1 <= bit <= 7
    requires Floor(s[i], bit + 1) == Floor(e[i], bit + 1)
    requires bit >= 0 ==> Floor(s[i], bit) != Floor(e[i], bit)
    requires s[i] != e[i]
    ensures DifferingBits(Value(s), Value(e)) == WIDTH - (8 * i + 7 - bit)
  {
    SplitAt(s, e, i, bit + 1);
    SplitAt(s, e, i, bit);
    DifferingBitsMeaning(Value(s), Value(e), 8 * (15 - i) + bit + 1);
    DifferingBitsMeaning(Value(s), Value(e), 8 * (15 - i) + bit);
  }

  lemma SplitAt(s: Octets, e: Octets, i: nat, g: nat)
    requires i < 16 && s[..i] == e[..i] && g <= 8
    ensures Floor(Value(s), 8 * (15 - i) + g) == Floor(Value(e), 8 * (15 - i) + g) <==> Floor(s[i], g) == Floor(e[i], g)
  {
    var x, y := s[..i + 1], e[..i + 1];
    DropBytes(s, e, 15 - i, g, 8 * (15 - i) + g);
    assert x[..i] == s[..i] == e[..i] == y[..i];
    ValueOfLast(x);
    ValueOfLast(y);
    LastByteBlock(Value(x[..i]), s[i], g, Value(x));
    LastByteBlock(Value(y[..i]), e[i], g, Value(y));
  }

  /** The spanning CIDR is the least CIDR holding both ends: every other one contains all of it. */
  lemma SpanningCIDRIsLeast(start: Address, end: Address, p: Prefix)
    requires p.Valid()
    ensures SpanningCIDR(start, end).Contains(start) && SpanningCIDR(start, end).Contains(end)
    ensures p.Contains(start) && p.Contains(end) <==> SubsetOf(SpanningCIDR(start, end), p)
  {
    var c := SpanningCIDR(start, end);
    DifferingBitsMeaning(start, end, c.HostBits());
    FloorAligned(start, c.HostBits());
    if p.Contains(start) && p.Contains(end) {
      DifferingBitsMeaning(start, end, p.HostBits());
      NestedOrDisjoint(c, p, start);
    }
  }

  /** The last address of a prefix: its base with every host bit set. */
  function LastAddr(p: Prefix): (a: Address)
    requires p.Valid()
  {
    LastAddrMeaning(p);
    Or(p.Base(), Pow2(p.HostBits()) - 1)
  }

  lemma LastAddrMeaning(p: Prefix)
    requires p.Valid()
    ensures Or(p.Base(), Pow2(p.HostBits()) - 1) == p.Base() + p.Size() - 1
    ensures p.Base() + p.Size() - 1 < SPACE
  {
    FloorAligned(p.addr, p.HostBits());
    OrDisjoint(p.Base(), Pow2(p.HostBits()) - 1, p.HostBits());
    ContainsIsInterval(p, p.addr);
  }

  /** A prefix denotes exactly the addresses from its base to its last address. */
  lemma PrefixIsItsRange(p: Prefix, a: Address)
    requires p.Valid()
    ensures p.Contains(a) <==> p.Base() <= a <= LastAddr(p)
    ensures p.Contains(LastAddr(p)) && p.Base() <= LastAddr(p)
  {
    LastAddrMeaning(p);
    ContainsIsInterval(p, a);
    ContainsIsInterval(p, LastAddr(p));
  }

  /** A CIDR together with whether it is the range and not merely around it. */
  datatype CIDRMatch = CIDRMatch(cidr: Prefix, exact: bool)

  function ExactCIDR(start: ParsedAddress, end: ParsedAddress): (r: Result<CIDRMatch>)
    ensures r.Ok? ==> r.value.cidr.Valid()
  {
    match (start, end)
    case (Malformed, _) => Err(InvalidAddress)
    case (_, Malformed) => Err(InvalidAddress)
    case (IPv4(_), IPv6(_)) => Err(FamilyMismatch)
    case (IPv6(_), IPv4(_)) => Err(FamilyMismatch)
    case (IPv4(s), IPv4(e)) => if s > e then Err(StartAboveEnd) else Err(NotIPv6)
    case (IPv6(s), IPv6(e)) =>
      if s > e then Err(StartAboveEnd)
      else var cidr := SpanningCIDR(s, e); Ok(CIDRMatch(cidr, cidr.Base() == s && LastAddr(cidr) == e))
  }

  method ExactCIDRForAddressRange(start: ParsedAddress, end: ParsedAddress) returns (r: Result<CIDRMatch>)
    ensures r == ExactCIDR(start, end)
    ensures r == Err(InvalidAddress) <==> start.Malformed? || end.Malformed?
    ensures r == Err(FamilyMismatch) <==> (start.IPv4? && end.IPv6?) || (start.IPv6? && end.IPv4?)
    ensures r == Err(StartAboveEnd) <==> (start.IPv4? && end.IPv4? && start.v4 > end.v4) || (start.IPv6? && end.IPv6? && start.v6 > end.v6)
    ensures r == Err(NotIPv6) <==> start.IPv4? && end.IPv4? && start.v4 <= end.v4
    ensures r.Ok? <==> start.IPv6? && end.IPv6? && start.v6 <= end.v6
    ensures r.Ok? ==> (r.value.exact <==> exists p: Prefix :: DenotesRange(p, start.v6, end.v6))
  {
    if start.IPv6? && end.IPv6? && start.v6 <= end.v6 {
      ExactMeansDenoted(start.v6, end.v6);
    }
    if start.Malformed? || end.Malformed? {
      return Err(InvalidAddress);
    }
    if start.IPv4? != end.IPv4? {
      return Err(FamilyMismatch);
    }
    if start.IPv4? {
      if start.v4 > end.v4 {
        return Err(StartAboveEnd);
      }
      return Err(NotIPv6);
    }
    if start.v6 > end.v6 {
      return Err(StartAboveEnd);
    }
    var cidr := RangeToCIDR(start.v6, end.v6);
    return Ok(CIDRMatch(cidr, cidr.Base() == start.v6 && LastAddr(cidr) == end.v6));
  }

  ghost predicate DenotesRange(p: Prefix, start: Address, end: Address) {
    p.Valid() && forall a: Address :: p.Contains(a) <==> start <= a <= end
  }

  /** Exactness is reported precisely when some CIDR denotes the range, and then that CIDR is the one returned. */
  lemma ExactMeansDenoted(start: Address, end: Address)
    requires start <= end
    ensures var r := ExactCIDR(IPv6(start), IPv6(end));
            && r.Ok?
            && (r.value.exact <==> exists p: Prefix :: DenotesRange(p, start, end))
            && (r.value.exact ==> DenotesRange(r.value.cidr, start, end))
  {
    var cidr := SpanningCIDR(start, end);
    if cidr.Base() == start && LastAddr(cidr) == end {
      ExactDenotes(cidr);
    }
    if p: Prefix :| DenotesRange(p, start, end) {
      DenotedRangeRoundTrip(p, start, end);
    }
  }

  lemma ExactDenotes(p: Prefix)
    requires p.Valid()
    ensures DenotesRange(p, p.Base(), LastAddr(p))
  {
    forall a: Address
      ensures p.Contains(a) <==> p.Base() <= a <= LastAddr(p)
    {
      PrefixIsItsRange(p, a);
    }
  }

  lemma DenotedRangeRoundTrip(p: Prefix, start: Address, end: Address)
    requires start <= end && DenotesRange(p, start, end)
    ensures start == p.Base() && end == LastAddr(p)
    ensures SpanningCIDR(start, end) == p.Masked()
  {
    PrefixIsItsRange(p, p.Base());
    PrefixIsItsRange(p, start);
    PrefixIsItsRange(p, end);
    PrefixIsItsRange(p, LastAddr(p));
    ContainsIsInterval(p, p.addr);
    RangeRoundTrip(p);
  }

  /** Rendering a CIDR as first-last and converting the pair back returns the CIDR, and reports it exact. */
  lemma RangeRoundTrip(p: Prefix)
    requires p.Valid()
    ensures ExactCIDR(IPv6(p.Base()), IPv6(LastAddr(p))) == Ok(CIDRMatch(p.Masked(), true))
    ensures SpanningCIDR(p.Base(), LastAddr(p)) == p.Masked()
  {
    SpanOfPrefix(p);
    LastAddrMeaning(p);
    LastAddrMeaning(p.Masked());
    FloorAligned(p.addr, p.HostBits());
  }

  /** The ends of a block differ in exactly its host bits. */
  lemma SpanOfPrefix(p: Prefix)
    requires p.Valid()
    ensures DifferingBits(p.Base(), LastAddr(p)) == p.HostBits()
  {
    var first, last, h := p.Base(), LastAddr(p), p.HostBits();
    LastAddrMeaning(p);
    FloorAligned(p.addr, h);
    FillLowBits(first, p.Size() - 1, h);
    DifferingBitsMeaning(first, last, h);
    if h > 0 {
      AlignedFiner(first, h - 1, h);
      ApartOneBitFewer(first, last, h);
    }
  }

  /** One bit fewer would leave a block too small to hold both ends. */
  lemma ApartOneBitFewer(first: Address, last: Address, h: nat)
    requires h > 0 && Aligned(first, h - 1) && last == first + Pow2(h) - 1
    ensures DifferingBits(first, last) > h - 1
  {
    DifferingBitsMeaning(first, last, h - 1);
    SameBlock(last, first, h - 1);
  }
}
