/** IPv6 addresses and prefixes as numbers, and grafting a host part onto a prefix. */
module Addresses {
  import opened Powers
  import opened Bytes

  const WIDTH: nat := 128

  const SPACE: nat := 0x1_0000_0000_0000_0000_0000_0000_0000_0000

  type Address = v: nat | v < SPACE

  lemma SpaceIsPow2()
    ensures SPACE == Pow2(WIDTH)
  {
    Pow2Of8();
    Square(8, 0x100);
    Square(16, 0x1_0000);
    Square(32, 0x1_0000_0000);
    Square(64, 0x1_0000_0000_0000_0000);
  }

  lemma Square(n: nat, v: nat)
    requires Pow2(n) == v
    ensures Pow2(2 * n) == v * v
  {
    Pow2Add(n, n);
  }

  datatype Option<+T> = None | Some(value: T)

  /** An address and a prefix length. Host bits may be set, as after netip.PrefixFrom. */
  datatype Prefix = Prefix(addr: Address, bits: nat) {
    predicate Valid() {
      bits <= WIDTH
    }

    function HostBits(): nat
      requires Valid()
    {
      WIDTH - bits
    }

    /** The network address: netip's Masked().Addr(). */
    function Base(): (a: Address)
      requires Valid()
      ensures a <= addr
    {
      FloorBounds(addr, HostBits());
      Floor(addr, HostBits())
    }

    function Masked(): (p: Prefix)
      requires Valid()
      ensures p.Valid()
    {
      Prefix(Base(), bits)
    }

    function Size(): nat
      requires Valid()
    {
      Pow2(HostBits())
    }

    /** netip's Contains: equal network bits. */
    predicate Contains(a: Address)
      requires Valid()
    {
      Floor(a, HostBits()) == Floor(addr, HostBits())
    }
  }

  type ValidPrefix = p: Prefix | p.Valid() witness Prefix(0, 0)

  /** A prefix read from status: None where the text is missing or does not parse. */
  type StoredPrefix = p: Option<Prefix> | p.Some? ==> p.value.Valid() witness None

  /** The part of history a reader looks at: at most `limit` entries, from the front. */
  function UpTo<T>(history: seq<T>, limit: nat): seq<T> {
    if |history| <= limit then history else history[..limit]
  }

  /** Two prefixes share no address. */
  ghost predicate Disjoint(p: Prefix, q: Prefix)
    requires p.Valid() && q.Valid()
  {
    forall a: Address :: !(p.Contains(a) && q.Contains(a))
  }

  ghost predicate SubsetOf(p: Prefix, q: Prefix)
    requires p.Valid() && q.Valid()
  {
    forall a: Address :: p.Contains(a) ==> q.Contains(a)
  }

  // ---------------------------------------------------------------- bytes of an address

  function As16(a: Address): (s: Octets) {
    Encode(a, 16)
  }

  function AddrFrom16(s: Octets): (a: Address) {
    ValueBound(s);
    SpaceIsPow2();
    Value(s)
  }

  /** The two views of an address are inverse to each other. */
  lemma AddressBytes(a: Address, s: Octets)
    ensures AddrFrom16(As16(a)) == a
    ensures As16(AddrFrom16(s)) == s
  {
    SpaceIsPow2();
    ValueOfEncode(a, 16);
    EncodeOfValue(s);
  }

  // ---------------------------------------------------------------- the block a prefix denotes

  /** A prefix denotes the addresses from its base up to, not including, base + size. */
  lemma ContainsIsInterval(p: Prefix, a: Address)
    requires p.Valid()
    ensures p.Contains(a) <==> p.Base() <= a < p.Base() + p.Size()
    ensures p.Contains(p.addr) && p.Contains(p.Base())
    ensures p.Base() + p.Size() <= SPACE
  {
    SpaceIsPow2();
    var h := p.HostBits();
    SameBlock(a, p.addr, h);
    FloorAligned(p.addr, h);
    FloorNested(p.addr, h, WIDTH);
    ZeroAndSmall(p.addr, WIDTH);
  }

  /** Blocks are nested or apart: sharing one address with an equally long or shorter prefix means lying inside it. */
  lemma NestedOrDisjoint(p: Prefix, q: Prefix, a: Address)
    requires p.Valid() && q.Valid() && q.bits <= p.bits
    requires p.Contains(a) && q.Contains(a)
    ensures SubsetOf(p, q)
    ensures q.Base() <= p.Base() && p.Base() + p.Size() <= q.Base() + q.Size()
  {
    forall b: Address | p.Contains(b)
      ensures q.Contains(b)
    {
      FloorNested(a, p.HostBits(), q.HostBits());
      FloorNested(b, p.HostBits(), q.HostBits());
    }
    FloorNested(a, p.HostBits(), q.HostBits());
  }

  /** Distinct prefixes of one length share no address. */
  lemma EqualLengthDisjoint(p: Prefix, q: Prefix)
    requires p.Valid() && q.Valid() && p.bits == q.bits
    ensures Disjoint(p, q) <==> p.Masked() != q.Masked()
  {
    ContainsIsInterval(p, p.addr);
    if p.Masked() == q.Masked() {
      assert p.Contains(p.addr) && q.Contains(p.addr);
    }
  }

  // ---------------------------------------------------------------- grafting

  /** The network bits of `p` over the host bits of `suffix`. */
  function Combine(p: Prefix, suffix: Address): (a: Address)
    requires p.Valid()
  {
    CombineFits(p, suffix);
    p.Base() + Low(suffix, p.HostBits())
  }

  lemma CombineFits(p: Prefix, suffix: Address)
    requires p.Valid()
    ensures p.Base() + Low(suffix, p.HostBits()) < SPACE
  {
    FloorBounds(suffix, p.HostBits());
    ContainsIsInterval(p, p.addr);
  }

  lemma BaseIsQuotient(p: Prefix)
    requires p.Valid()
    ensures p.Base() == p.addr / p.Size() * p.Size()
  {
    HighAndLow(p.addr, p.HostBits());
  }

  /** In ordinary arithmetic: the prefix's address with its host part divided away, plus the suffix modulo the prefix's size. */
  lemma CombineIsModulo(p: Prefix, suffix: Address)
    requires p.Valid()
    ensures Combine(p, suffix) == p.addr / p.Size() * p.Size() + suffix % p.Size()
  {
    HighAndLow(p.addr, p.HostBits());
    HighAndLow(suffix, p.HostBits());
  }

  /** The grafted address lies in the prefix and keeps the suffix's host part. */
  lemma CombineInside(p: Prefix, suffix: Address)
    requires p.Valid()
    ensures p.Contains(Combine(p, suffix))
    ensures Low(Combine(p, suffix), p.HostBits()) == Low(suffix, p.HostBits())
    ensures Combine(p, suffix) == p.Base() + Low(suffix, p.HostBits())
  {
    var h := p.HostBits();
    FloorBounds(suffix, h);
    FloorAligned(p.addr, h);
    FillLowBits(p.Base(), Low(suffix, h), h);
  }

  /** Grafting an address already inside the prefix changes nothing. */
  lemma CombineFixpoint(p: Prefix, a: Address)
    requires p.Valid()
    ensures Combine(p, a) == a <==> p.Contains(a)
  {
    CombineInside(p, a);
    FloorBounds(a, p.HostBits());
  }

  /** Grafting forgets the network part it replaces: rotating twice is rotating once. */
  lemma CombineForgets(p: Prefix, q: Prefix, a: Address)
    requires p.Valid() && q.Valid() && p.bits == q.bits
    ensures Combine(q, Combine(p, a)) == Combine(q, a)
  {
    CombineInside(p, a);
  }

  /** For an address inside one prefix, grafting onto an equally long one moves it by the distance of their bases. */
  lemma CombineIsTranslation(from: Prefix, to: Prefix, a: Address)
    requires from.Valid() && to.Valid() && from.bits == to.bits && from.Contains(a)
    ensures Combine(to, a) == to.Base() + (a - from.Base())
  {
    FloorBounds(a, from.HostBits());
  }
}
