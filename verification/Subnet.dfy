/** Carving numbered subnets out of a delegated prefix. */
module Subnet {
  import opened Powers
  import opened Bytes
  import opened Addresses

  const MAX_INT64: int := 0x7fff_ffff_ffff_ffff

  /** Which subnet to carve: the N-th of a given length. The offset is a 64-bit signed integer. */
  type Offset = o: int | -MAX_INT64 - 1 <= o <= MAX_INT64
  datatype Config = Config(offset: Offset, prefixLength: int)

  datatype Error = ShorterThanBase | LongerThan128 | OffsetOutOfRange | OutsideBase
  datatype Result<+T> = Ok(value: T) | Err(error: Error)

  function SubnetValue(base: Prefix, cfg: Config): nat
    requires base.Valid() && cfg.offset >= 0 && cfg.prefixLength <= WIDTH
  {
    base.Base() + cfg.offset * Pow2(WIDTH - cfg.prefixLength)
  }

  function CalculateSubnet(base: Prefix, cfg: Config): (r: Result<Prefix>)
    requires base.Valid()
    ensures r.Ok? ==> r.value.Valid() && r.value.bits == cfg.prefixLength
  {
    if cfg.prefixLength < base.bits then Err(ShorterThanBase)
    else if cfg.prefixLength > WIDTH then Err(LongerThan128)
    else if cfg.offset < 0 || cfg.offset >= Pow2(cfg.prefixLength - base.bits) then Err(OffsetOutOfRange)
    else
      SubnetFits(base, cfg);
      Ok(Prefix(SubnetValue(base, cfg), cfg.prefixLength).Masked())
  }

  predicate InRange(base: Prefix, cfg: Config)
    requires base.Valid()
  {
    base.bits <= cfg.prefixLength <= WIDTH && 0 <= cfg.offset < Pow2(cfg.prefixLength - base.bits)
  }

  /** The computed value always fits sixteen bytes, and lies on a subnet boundary inside the base. */
  lemma SubnetFits(base: Prefix, cfg: Config)
    requires base.Valid() && InRange(base, cfg)
    ensures base.Base() <= SubnetValue(base, cfg)
    ensures SubnetValue(base, cfg) + Pow2(WIDTH - cfg.prefixLength) <= base.Base() + base.Size() <= SPACE
    ensures Aligned(SubnetValue(base, cfg), WIDTH - cfg.prefixLength)
  {
    var size := Pow2(WIDTH - cfg.prefixLength);
    var k := Pow2(cfg.prefixLength - base.bits);
    Pow2Add(cfg.prefixLength - base.bits, WIDTH - cfg.prefixLength);
    BlockBelow(cfg.offset, k, size);
    ContainsIsInterval(base, base.addr);
    MultipleAligned(cfg.offset, WIDTH - cfg.prefixLength);
    FloorAligned(base.addr, base.HostBits());
    AlignedFiner(base.Base(), WIDTH - cfg.prefixLength, base.HostBits());
    AddAligned(base.Base(), cfg.offset * size, WIDTH - cfg.prefixLength);
  }

  /** Masking the result changes nothing: the subnet starts where the arithmetic put it. */
  lemma SubnetIsBlock(base: Prefix, cfg: Config)
    requires base.Valid() && InRange(base, cfg)
    ensures var s := CalculateSubnet(base, cfg);
            s.Ok? && s.value.addr == s.value.Base() == SubnetValue(base, cfg) && SubsetOf(s.value, base)
  {
    SubnetFits(base, cfg);
    var s := CalculateSubnet(base, cfg).value;
    ContainsIsInterval(s, s.addr);
    ContainsIsInterval(base, s.addr);
    NestedOrDisjoint(s, base, s.addr);
  }

  /** An offset is in range exactly when its subnet would start inside the base. */
  lemma InRangeByAddress(base: Prefix, cfg: Config)
    requires base.Valid() && base.bits <= cfg.prefixLength <= WIDTH && 0 <= cfg.offset
    ensures InRange(base, cfg) <==> cfg.offset * Pow2(WIDTH - cfg.prefixLength) < base.Size()
  {
    var size, k := Pow2(WIDTH - cfg.prefixLength), Pow2(cfg.prefixLength - base.bits);
    Pow2Add(cfg.prefixLength - base.bits, WIDTH - cfg.prefixLength);
    BlockBelow(cfg.offset, k, size);
    assert base.Size() == k * size;
  }

  /** The index of the subnet of length `bits` that holds an address of the base. */
  function IndexOf(base: Prefix, bits: nat, a: Address): nat
    requires base.Valid() && bits <= WIDTH && base.Base() <= a
  {
    High(a - base.Base(), WIDTH - bits)
  }

  /** The valid offsets partition the base: each of its addresses lies in the subnet with its own index
      and in no other, and that index is in range. */
  lemma Partition(base: Prefix, cfg: Config, a: Address)
    requires base.Valid() && InRange(base, cfg) && base.Contains(a)
    ensures base.Base() <= a
    ensures IndexOf(base, cfg.prefixLength, a) < Pow2(cfg.prefixLength - base.bits)
    ensures CalculateSubnet(base, cfg).Ok?
    ensures CalculateSubnet(base, cfg).value.Contains(a) <==> cfg.offset == IndexOf(base, cfg.prefixLength, a)
  {
    SubnetMembers(base, cfg, a);
    ContainsIsInterval(base, a);
    var d := a - base.Base();
    BlockIndex(d, cfg.offset, WIDTH - cfg.prefixLength);
    Pow2Add(cfg.prefixLength - base.bits, WIDTH - cfg.prefixLength);
    HighBound(d, WIDTH - cfg.prefixLength, cfg.prefixLength - base.bits);
  }

  lemma SubnetMembers(base: Prefix, cfg: Config, a: Address)
    requires base.Valid() && InRange(base, cfg)
    ensures CalculateSubnet(base, cfg).Ok?
    ensures CalculateSubnet(base, cfg).value.Contains(a)
       <==> cfg.offset * Pow2(WIDTH - cfg.prefixLength) <= a - base.Base()
            < cfg.offset * Pow2(WIDTH - cfg.prefixLength) + Pow2(WIDTH - cfg.prefixLength)
  {
    SubnetIsBlock(base, cfg);
    ContainsIsInterval(CalculateSubnet(base, cfg).value, a);
  }

  /** Every address whose index fits the offset type is covered. */
  lemma Covered(base: Prefix, bits: nat, a: Address) returns (cfg: Config)
    requires base.Valid() && base.bits <= bits <= WIDTH && base.Contains(a)
    requires base.Base() <= a ==> IndexOf(base, bits, a) <= MAX_INT64
    ensures InRange(base, cfg) && cfg.prefixLength == bits && CalculateSubnet(base, cfg).value.Contains(a)
  {
    ContainsIsInterval(base, a);
    Partition(base, Config(0, bits), a);
    cfg := Config(IndexOf(base, bits, a), bits);
    Partition(base, cfg, a);
  }

  /** Subnets with different offsets share no address. */
  lemma SubnetsDisjoint(base: Prefix, c: Config, d: Config)
    requires base.Valid() && InRange(base, c) && InRange(base, d)
    requires c.prefixLength == d.prefixLength && c.offset != d.offset
    ensures CalculateSubnet(base, c).Ok? && CalculateSubnet(base, d).Ok?
    ensures Disjoint(CalculateSubnet(base, c).value, CalculateSubnet(base, d).value)
  {
    SubnetIsBlock(base, c);
    SubnetIsBlock(base, d);
    forall a: Address
      ensures !(CalculateSubnet(base, c).value.Contains(a) && CalculateSubnet(base, d).value.Contains(a))
    {
      if CalculateSubnet(base, c).value.Contains(a) {
        Partition(base, c, a);
        Partition(base, d, a);
      }
    }
  }

  /** A configuration calculates in every prefix of one length or in none, to translated blocks. */
  lemma SubnetTranslates(p: Prefix, q: Prefix, cfg: Config)
    requires p.Valid() && q.Valid() && p.bits == q.bits
    ensures CalculateSubnet(p, cfg).Ok? <==> CalculateSubnet(q, cfg).Ok?
    ensures CalculateSubnet(p, cfg).Ok? ==>
              CalculateSubnet(p, cfg).value.Base() - p.Base() == CalculateSubnet(q, cfg).value.Base() - q.Base()
  {
    if CalculateSubnet(p, cfg).Ok? {
      SubnetIsBlock(p, cfg);
      SubnetIsBlock(q, cfg);
    }
  }

  // ---------------------------------------------------------------- validation

  function ValidateSubnetFitsInPrefix(base: Prefix, cfg: Config): Result<()>
    requires base.Valid()
  {
    match CalculateSubnet(base, cfg)
    case Err(e) => Err(e)
    case Ok(s) => if base.Contains(s.addr) then Ok(()) else Err(OutsideBase)
  }

  /** Validation adds nothing: it fails exactly when the calculation does, with the same error. */
  lemma ValidationIsCalculation(base: Prefix, cfg: Config)
    requires base.Valid()
    ensures ValidateSubnetFitsInPrefix(base, cfg).Ok? <==> InRange(base, cfg)
    ensures forall e :: ValidateSubnetFitsInPrefix(base, cfg) == Err(e) <==> CalculateSubnet(base, cfg) == Err(e)
    ensures CalculateSubnet(base, cfg) == Err(ShorterThanBase) <==> cfg.prefixLength < base.bits
    ensures CalculateSubnet(base, cfg) == Err(LongerThan128) <==> cfg.prefixLength > 128
    ensures CalculateSubnet(base, cfg) == Err(OffsetOutOfRange) <==> base.bits <= cfg.prefixLength <= 128 && !InRange(base, cfg)
  {
    if InRange(base, cfg) {
      SubnetIsBlock(base, cfg);
      ContainsIsInterval(CalculateSubnet(base, cfg).value, CalculateSubnet(base, cfg).value.addr);
    }
  }

  /** All configurations are calculated in order, or the first failure is reported. */
  method CalculateSubnets(base: Prefix, configs: seq<Config>) returns (r: Result<seq<Prefix>>)
    requires base.Valid()
    ensures r.Ok? <==> forall i :: 0 <= i < |configs| ==> CalculateSubnet(base, configs[i]).Ok?
    ensures r.Ok? ==> |r.value| == |configs| && forall i :: 0 <= i < |configs| ==> CalculateSubnet(base, configs[i]) == Ok(r.value[i])
    ensures r.Err? ==> exists i :: 0 <= i < |configs| && CalculateSubnet(base, configs[i]) == Err(r.error)
                         && forall j :: 0 <= j < i ==> CalculateSubnet(base, configs[j]).Ok?
  {
    var subnets: seq<Prefix> := [];
    for i := 0 to |configs|
      invariant |subnets| == i
      invariant forall j :: 0 <= j < i ==> CalculateSubnet(base, configs[j]) == Ok(subnets[j])
    {
      var subnet := CalculateSubnet(base, configs[i]);
      if subnet.Err? {
        return Err(subnet.error);
      }
      subnets := subnets + [subnet.value];
    }
    return Ok(subnets);
  }
}
