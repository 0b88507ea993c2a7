/** The list-shaped pool backends: how each identifies an entry, what it writes for a configuration, and
    what the geometric fallback claims when there is no record. */
module PoolBackends {
  import opened Addresses
  import opened AddressRange
  import opened Text
  import opened Ownership
  import opened OwnedList

  /** A Cilium pool block; fields are optional text. */
  datatype Block = Block(cidr: Option<string>, start: Option<string>, stop: Option<string>)

  /** An element of a list field: a block, a text, or something else a user put there. */
  datatype Item = BlockItem(block: Block) | TextItem(text: string) | OtherItem(id: nat)

  function OrEmpty(s: Option<string>): string {
    if s.Some? then s.value else ""
  }

  // ---------------------------------------------------------------- identity

  /** A pair of texts as a range is written. */
  function Dashed(a: string, b: string): string {
    a + "-" + b
  }

  /** One text per block, whichever of its shapes it has; "" for unrecognised shapes. */
  function BlockKey(canon: Canon, b: Block): string {
    if OrEmpty(b.cidr) != "" then "cidr=" + canon(b.cidr.value)
    else if OrEmpty(b.start) != "" then
      if OrEmpty(b.stop) != "" then "range=" + Dashed(canon(b.start.value), canon(b.stop.value))
      else "range=" + canon(b.start.value)
    else ""
  }

  /** strings.Cut at the first occurrence of `sep`. */
  function CutAt(s: string, sep: char): Option<(string, string)> {
    if s == "" then None
    else if s[0] == sep then Some(("", s[1..]))
    else match CutAt(s[1..], sep)
         case None => None
         case Some(cut) => Some(([s[0]] + cut.0, cut.1))
  }

  function CanonicalAddressEntry(canon: Canon, entry: string): string {
    match CutAt(Trim(entry), '-')
    case Some(cut) => Dashed(canon(Trim(cut.0)), canon(Trim(cut.1)))
    case None => canon(Trim(entry))
  }

  function BlockKeyOf(canon: Canon, item: Item): string {
    if item.BlockItem? then BlockKey(canon, item.block) else ""
  }

  function CidrKeyOf(canon: Canon, item: Item): string {
    canon(if item.TextItem? then item.text else "")
  }

  function AddressKeyOf(canon: Canon, item: Item): string {
    CanonicalAddressEntry(canon, if item.TextItem? then item.text else "")
  }

  function BlocksBackend(canon: Canon): Backend<Item> {
    Backend(canon, "dynamic-prefix.io/managed-blocks", item => BlockKeyOf(canon, item))
  }

  function CidrsBackend(canon: Canon): Backend<Item> {
    Backend(canon, "dynamic-prefix.io/managed-cidrs", item => CidrKeyOf(canon, item))
  }

  function AddressesBackend(canon: Canon): Backend<Item> {
    Backend(canon, "dynamic-prefix.io/managed-addresses", item => AddressKeyOf(canon, item))
  }

  /** What the keys need of normalisation beyond Normalises: it leaves alone texts that cannot be addresses. */
  ghost predicate LeavesKeysAlone(canon: Canon) {
    && (forall s :: canon("cidr=" + s) == "cidr=" + s)
    && (forall s :: canon("range=" + s) == "range=" + s)
    && (forall s, t {:trigger Dashed(canon(s), canon(t))} :: canon(Dashed(canon(s), canon(t))) == Dashed(canon(s), canon(t)))
  }

  /** All three backends identify entries by normalised keys. */
  lemma BackendsAreGood(canon: Canon)
    requires Normalises(canon) && LeavesKeysAlone(canon) && canon("") == ""
    ensures Good(BlocksBackend(canon)) && Good(CidrsBackend(canon)) && Good(AddressesBackend(canon))
  {
    forall item: Item
      ensures canon(BlockKeyOf(canon, item)) == BlockKeyOf(canon, item)
    {
      BlockKeyNormal(canon, item);
    }
  }

  lemma BlockKeyNormal(canon: Canon, item: Item)
    requires LeavesKeysAlone(canon) && canon("") == ""
    ensures canon(BlockKeyOf(canon, item)) == BlockKeyOf(canon, item)
  {
  }

  // ---------------------------------------------------------------- what is written

  /** A resolved configuration, as text. */
  datatype PoolConfiguration = PoolConfiguration(useAddressRange: bool, start: string, end: string, cidr: string)

  /** The texts of a configuration come from netip: blank, or normalised entries without a dash. */
  predicate Printed(canon: Canon, config: PoolConfiguration) {
    forall s :: s in [config.start, config.end, config.cidr] ==> s == "" || (Recordable(canon, s) && '-' !in s)
  }

  predicate IsRange(config: PoolConfiguration) {
    config.useAddressRange && config.start != "" && config.end != ""
  }

  function BlockFor(config: PoolConfiguration): Item {
    BlockItem(if IsRange(config) then Block(None, Some(config.start), Some(config.end)) else Block(Some(config.cidr), None, None))
  }

  /** MetalLB takes "start-end" or a CIDR. */
  function AddressFor(config: PoolConfiguration): Item {
    TextItem(if IsRange(config) then Dashed(config.start, config.end) else config.cidr)
  }

  function CidrFor(config: PoolConfiguration): Item {
    TextItem(config.cidr)
  }

  /** The wishes of a pass: one per configuration, keyed by the entry itself. */
  function Wishes(b: Backend<Item>, render: PoolConfiguration -> Item, configs: seq<PoolConfiguration>): seq<OwnedEntry<Item>> {
    seq(|configs|, i requires 0 <= i < |configs| => OwnedEntry(render(configs[i]), b.keyOf(render(configs[i]))))
  }

  lemma {:induction false} CutAtFirst(s: string, t: string, sep: char)
    requires sep !in s
    ensures CutAt(s + [sep] + t, sep) == Some((s, t))
    ensures CutAt(s, sep) == None
  {
    if s == "" {
      assert s + [sep] + t == [sep] + t;
    } else {
      CutAtFirst(s[1..], t, sep);
      assert (s + [sep] + t)[1..] == s[1..] + [sep] + t;
      assert [s[0]] + s[1..] == s;
    }
  }

  /** Cutting takes a text apart at its first separator, if it has one. */
  lemma {:induction false} CutParts(s: string, sep: char)
    ensures CutAt(s, sep).None? <==> sep !in s
    ensures CutAt(s, sep).Some? ==> var cut := CutAt(s, sep).value; s == cut.0 + [sep] + cut.1 && sep !in cut.0
  {
    if s != "" {
      assert s == [s[0]] + s[1..];
      if s[0] != sep {
        CutParts(s[1..], sep);
      }
    }
  }

  /** Every key a pass computes for a configuration can be recorded and read back. */
  lemma WishesWellKeyed(canon: Canon, configs: seq<PoolConfiguration>)
    requires Normalises(canon) && LeavesKeysAlone(canon) && canon("") == ""
    requires forall c :: c in configs ==> Printed(canon, c)
    ensures WellKeyed(BlocksBackend(canon), Wishes(BlocksBackend(canon), BlockFor, configs))
    ensures WellKeyed(CidrsBackend(canon), Wishes(CidrsBackend(canon), CidrFor, configs))
    ensures WellKeyed(AddressesBackend(canon), Wishes(AddressesBackend(canon), AddressFor, configs))
  {
    BackendsAreGood(canon);
    forall c | c in configs
      ensures var k := BlockKeyOf(canon, BlockFor(c)); k != "" ==> Clean(k)
      ensures var k := CidrKeyOf(canon, CidrFor(c)); k != "" ==> Clean(k)
      ensures var k := AddressKeyOf(canon, AddressFor(c)); k != "" ==> Clean(k)
    {
      PrintedKeys(canon, c);
    }
  }

  lemma PrintedKeys(canon: Canon, c: PoolConfiguration)
    requires Normalises(canon) && canon("") == "" && Printed(canon, c)
    ensures var k := BlockKeyOf(canon, BlockFor(c)); k != "" ==> Clean(k)
    ensures var k := CidrKeyOf(canon, CidrFor(c)); k != "" ==> Clean(k)
    ensures AddressKeyOf(canon, AddressFor(c)) == AddressFor(c).text
    ensures AddressFor(c).text != "" ==> Clean(AddressFor(c).text)
  {
    assert c.start in [c.start, c.end, c.cidr] && c.end in [c.start, c.end, c.cidr] && c.cidr in [c.start, c.end, c.cidr];
    if IsRange(c) {
      PrintedRange(canon, c.start, c.end);
    } else if c.cidr != "" {
      TrimMeaning(c.cidr);
      CutAtFirst(c.cidr, "", '-');
    }
  }

  lemma PrintedRange(canon: Canon, start: string, end: string)
    requires Recordable(canon, start) && Recordable(canon, end) && '-' !in start
    ensures CanonicalAddressEntry(canon, Dashed(start, end)) == Dashed(start, end)
    ensures Clean(Dashed(start, end)) && Clean("range=" + Dashed(start, end))
  {
    var text := Dashed(start, end);
    assert text[0] == start[0] && text[|text| - 1] == end[|end| - 1];
    TrimMeaning(text);
    TrimMeaning(start);
    TrimMeaning(end);
    CutAtFirst(start, end, '-');
    var key := "range=" + text;
    assert key[|key| - 1] == end[|end| - 1];
  }

  // ---------------------------------------------------------------- the geometric fallback

  /** Parsing of address and prefix texts. */
  datatype Netip = Netip(parseAddr: string -> ParsedAddress, parsePrefix: string -> ParsedPrefix)

  predicate IsPrefixSubsetOfManaged(p: ValidPrefix, managed: seq<ValidPrefix>) {
    exists m :: m in managed && p.bits >= m.bits && m.Contains(p.addr)
  }

  predicate AddressRangeWithinManaged(start: Address, end: Address, managed: seq<ValidPrefix>) {
    var (lo, hi) := if start > end then (end, start) else (start, end);
    exists m :: m in managed && m.Base() <= lo && hi <= LastAddr(m)
  }

  predicate AddrInManagedPrefixes(a: Address, managed: seq<ValidPrefix>) {
    exists m :: m in managed && m.Contains(a)
  }

  predicate IsManagedBlock(net: Netip, b: Block, managed: seq<ValidPrefix>) {
    var asPrefix := if b.cidr.Some? then net.parsePrefix(b.cidr.value) else NoPrefix;
    match asPrefix
    case PrefixV4 => false
    case PrefixV6(p) => IsPrefixSubsetOfManaged(p, managed)
    case NoPrefix =>
      if b.start.None? then false
      else
        match net.parseAddr(b.start.value)
        case Malformed => false
        case IPv4(_) => false
        case IPv6(a) =>
          if OrEmpty(b.stop) == "" then AddrInManagedPrefixes(a, managed)
          else
            match net.parseAddr(b.stop.value)
            case IPv6(end) => exists m :: m in managed && m.Contains(a) && m.Contains(end)
            case _ => false
  }

  predicate IsManagedAddressEntry(net: Netip, entry: string, managed: seq<ValidPrefix>) {
    var text := Trim(entry);
    if text == "" then false
    else
      match CutAt(text, '-')
      case Some(cut) =>
        var start, end := net.parseAddr(Trim(cut.0)), net.parseAddr(Trim(cut.1));
        start.IPv6? && end.IPv6? && AddressRangeWithinManaged(start.v6, end.v6, managed)
      case None =>
        match net.parsePrefix(text)
        case PrefixV4 => false
        case PrefixV6(p) => IsPrefixSubsetOfManaged(p, managed)
        case NoPrefix => var a := net.parseAddr(text); a.IPv6? && AddrInManagedPrefixes(a.v6, managed)
  }

  predicate IsManagedCIDR(net: Netip, cidr: string, managed: seq<ValidPrefix>) {
    var p := net.parsePrefix(cidr);
    p.PrefixV6? && IsPrefixSubsetOfManaged(p.prefix, managed)
  }

  /** What a pass without a record claims, per backend. */
  function BlockClaims(net: Netip, managed: seq<ValidPrefix>): Item -> bool {
    (item: Item) => item.BlockItem? && IsManagedBlock(net, item.block, managed)
  }

  function CidrClaims(net: Netip, managed: seq<ValidPrefix>): Item -> bool {
    (item: Item) => item.TextItem? && IsManagedCIDR(net, item.text, managed)
  }

  function AddressClaims(net: Netip, managed: seq<ValidPrefix>): Item -> bool {
    (item: Item) => item.TextItem? && IsManagedAddressEntry(net, item.text, managed)
  }

  /** The IPv6 addresses an entry denotes, first and last; None if it denotes none. */
  function Ordered(a: Address, b: Address): Range {
    if a <= b then Range(a, b) else Range(b, a)
  }

  function RangeOfPrefix(p: ValidPrefix): Range {
    Range(p.Base(), LastAddr(p))
  }

  function BlockDenotes(net: Netip, b: Block): Option<Range> {
    match if b.cidr.Some? then net.parsePrefix(b.cidr.value) else NoPrefix
    case PrefixV4 => None
    case PrefixV6(p) => Some(RangeOfPrefix(p))
    case NoPrefix =>
      match net.parseAddr(OrEmpty(b.start))
      case IPv6(a) =>
        if b.start.None? then None
        else if OrEmpty(b.stop) == "" then Some(Range(a, a))
        else (match net.parseAddr(b.stop.value)
              case IPv6(end) => Some(Ordered(a, end))
              case _ => None)
      case _ => None
  }

  function TextDenotes(net: Netip, entry: string): Option<Range> {
    var text := Trim(entry);
    if text == "" then None
    else
      match CutAt(text, '-')
      case Some(cut) =>
        var start, end := net.parseAddr(Trim(cut.0)), net.parseAddr(Trim(cut.1));
        if start.IPv6? && end.IPv6? then Some(Ordered(start.v6, end.v6)) else None
      case None =>
        match net.parsePrefix(text)
        case PrefixV4 => None
        case PrefixV6(p) => Some(RangeOfPrefix(p))
        case NoPrefix => var a := net.parseAddr(text); if a.IPv6? then Some(Range(a.v6, a.v6)) else None
  }

  function CidrDenotes(net: Netip, cidr: string): Option<Range> {
    match net.parsePrefix(cidr)
    case PrefixV6(p) => Some(RangeOfPrefix(p))
    case _ => None
  }

  /** All of a range lies inside one managed prefix. */
  ghost predicate InsideOneManaged(r: Option<Range>, managed: seq<ValidPrefix>) {
    r.Some? && exists m :: m in managed && Covers(m, r.value)
  }

  ghost predicate Covers(m: ValidPrefix, r: Range) {
    forall a: Address :: r.start <= a <= r.end ==> m.Contains(a)
  }

  lemma CoversByEnds(m: ValidPrefix, r: Range)
    requires r.start <= r.end
    ensures Covers(m, r) <==> m.Contains(r.start) && m.Contains(r.end)
    ensures Covers(m, r) <==> m.Base() <= r.start && r.end <= LastAddr(m)
  {
    PrefixIsItsRange(m, r.start);
    PrefixIsItsRange(m, r.end);
    forall a: Address | m.Base() <= r.start && r.end <= LastAddr(m) && r.start <= a <= r.end
      ensures m.Contains(a)
    {
      PrefixIsItsRange(m, a);
    }
  }

  /** The one-directional length-and-base test is containment of the whole prefix. */
  lemma CoversPrefix(m: ValidPrefix, p: ValidPrefix)
    ensures Covers(m, RangeOfPrefix(p)) <==> p.bits >= m.bits && m.Contains(p.addr)
  {
    var r := RangeOfPrefix(p);
    PrefixIsItsRange(p, p.addr);
    ContainsIsInterval(p, p.addr);
    CoversByEnds(m, r);
    if p.bits >= m.bits && m.Contains(p.addr) {
      NestedOrDisjoint(p, m, p.addr);
      PrefixIsItsRange(p, r.end);
    }
    if Covers(m, r) {
      SpanOfPrefix(p);
      DifferingBitsMeaning(r.start, r.end, m.HostBits());
    }
  }

  // ---------------------------------------------------------------- what entries denote

  /** Normalising a text is parsing and printing: it does not change what a text parses to, nor make up a dash. */
  ghost predicate Parses(canon: Canon, net: Netip) {
    && (forall s :: net.parseAddr(canon(s)) == net.parseAddr(s) && net.parsePrefix(canon(s)) == net.parsePrefix(s))
    && (forall s :: '-' !in s ==> '-' !in canon(s))
    && net.parseAddr("") == Malformed && net.parsePrefix("") == NoPrefix
  }

  lemma SameParse(canon: Canon, net: Netip, s: string, t: string)
    requires Parses(canon, net) && canon(s) == canon(t)
    ensures net.parseAddr(s) == net.parseAddr(t) && net.parsePrefix(s) == net.parsePrefix(t)
  {
    assert net.parseAddr(canon(s)) == net.parseAddr(s) && net.parsePrefix(canon(s)) == net.parsePrefix(s);
    assert net.parseAddr(canon(t)) == net.parseAddr(t) && net.parsePrefix(canon(t)) == net.parsePrefix(t);
  }

  lemma DashedTwice(a: string, b: string, c: string, d: string)
    requires '-' !in a && '-' !in c
    ensures Dashed(a, b) == Dashed(c, d) <==> a == c && b == d
  {
    CutAtFirst(a, b, '-');
    CutAtFirst(c, d, '-');
  }

  /** Two spellings are one address entry exactly when both are pairs or neither is, and their parts normalise alike. */
  lemma AddressIdentity(canon: Canon, net: Netip, e: string, f: string)
    requires Parses(canon, net)
    ensures CanonicalAddressEntry(canon, e) == CanonicalAddressEntry(canon, f) <==>
              (match (CutAt(Trim(e), '-'), CutAt(Trim(f), '-'))
               case (None, None) => canon(Trim(e)) == canon(Trim(f))
               case (Some(x), Some(y)) => canon(Trim(x.0)) == canon(Trim(y.0)) && canon(Trim(x.1)) == canon(Trim(y.1))
               case _ => false)
  {
    CutParts(Trim(e), '-');
    CutParts(Trim(f), '-');
    match (CutAt(Trim(e), '-'), CutAt(Trim(f), '-')) {
      case (None, None) =>
      case (Some(x), Some(y)) =>
        TrimmedHasNo('-', x.0);
        TrimmedHasNo('-', y.0);
        DashedTwice(canon(Trim(x.0)), canon(Trim(x.1)), canon(Trim(y.0)), canon(Trim(y.1)));
      case (Some(x), None) => assert '-' in CanonicalAddressEntry(canon, e);
      case (None, Some(y)) => assert '-' in CanonicalAddressEntry(canon, f);
    }
  }

  lemma TrimmedHasNo(c: char, s: string)
    requires c !in s
    ensures c !in Trim(s)
  {
    var pre, post := TrimSplits(s);
  }

  /** So one identity denotes one set of addresses. */
  lemma SameAddressEntry(canon: Canon, net: Netip, e: string, f: string)
    requires Parses(canon, net) && CanonicalAddressEntry(canon, e) == CanonicalAddressEntry(canon, f)
    ensures TextDenotes(net, e) == TextDenotes(net, f)
  {
    AddressIdentity(canon, net, e, f);
    match (CutAt(Trim(e), '-'), CutAt(Trim(f), '-')) {
      case (None, None) => SameParse(canon, net, Trim(e), Trim(f));
      case (Some(x), Some(y)) =>
        SameParse(canon, net, Trim(x.0), Trim(y.0));
        SameParse(canon, net, Trim(x.1), Trim(y.1));
    }
  }

  /** Blocks whose first bound normalises to something with a dash may be taken for another block. */
  predicate DashFree(canon: Canon, b: Block) {
    '-' !in canon(OrEmpty(b.start))
  }

  /** Otherwise a block identified as one with a readable CIDR, or with none, denotes the same addresses. */
  lemma SameBlock(canon: Canon, net: Netip, b: Block, c: Block)
    requires Parses(canon, net) && BlockKey(canon, b) == BlockKey(canon, c) != "" && DashFree(canon, b) && DashFree(canon, c)
    requires OrEmpty(b.cidr) == "" || net.parsePrefix(b.cidr.value) != NoPrefix
    ensures BlockDenotes(net, b) == BlockDenotes(net, c)
  {
    if OrEmpty(b.cidr) != "" {
      assert ("cidr=" + canon(b.cidr.value))[0] == 'c' && OrEmpty(c.cidr) != "";
      assert ("cidr=" + canon(b.cidr.value))[5..] == ("cidr=" + canon(c.cidr.value))[5..];
      SameParse(canon, net, b.cidr.value, c.cidr.value);
    } else {
      assert BlockKey(canon, b)[0] == 'r' && OrEmpty(c.cidr) == "";
      SameBounds(canon, net, b, c);
    }
  }

  lemma SameBounds(canon: Canon, net: Netip, b: Block, c: Block)
    requires Parses(canon, net) && BlockKey(canon, b) == BlockKey(canon, c) != "" && DashFree(canon, b) && DashFree(canon, c)
    requires OrEmpty(b.cidr) == "" && OrEmpty(c.cidr) == ""
    ensures BlockDenotes(net, b) == BlockDenotes(net, c)
  {
    var x, y := BlockKey(canon, b)[6..], BlockKey(canon, c)[6..];
    assert x == if OrEmpty(b.stop) != "" then Dashed(canon(b.start.value), canon(b.stop.value)) else canon(b.start.value);
    assert y == if OrEmpty(c.stop) != "" then Dashed(canon(c.start.value), canon(c.stop.value)) else canon(c.start.value);
    if OrEmpty(b.stop) != "" && OrEmpty(c.stop) != "" {
      DashedTwice(canon(b.start.value), canon(b.stop.value), canon(c.start.value), canon(c.stop.value));
      SameParse(canon, net, b.stop.value, c.stop.value);
    }
    assert OrEmpty(b.stop) != "" <==> '-' in x;
    assert OrEmpty(c.stop) != "" <==> '-' in y;
    SameParse(canon, net, b.start.value, c.start.value);
  }

  /** A block whose only bound is spelled like a pair is identified with that pair, though it denotes nothing. */
  lemma DashedStartPassesForARange(canon: Canon, a: string, b: string)
    requires canon(a) == a && canon(b) == b && a != "" && b != "" && canon(Dashed(a, b)) == Dashed(a, b)
    ensures BlockKey(canon, Block(None, Some(Dashed(a, b)), None)) == BlockKey(canon, Block(None, Some(a), Some(b))) != ""
  {
  }

  /** Without a record an entry is claimed exactly when everything it denotes lies inside one managed prefix.
      A user's supernet, a range that straddles a boundary, and anything that is not IPv6 are never claimed. */
  lemma BlockFallback(net: Netip, b: Block, managed: seq<ValidPrefix>)
    ensures BlockClaims(net, managed)(BlockItem(b)) <==> InsideOneManaged(BlockDenotes(net, b), managed)
  {
    forall m | m in managed && BlockDenotes(net, b).Some?
      ensures BlockDenotes(net, b).value.start <= BlockDenotes(net, b).value.end ==>
                (Covers(m, BlockDenotes(net, b).value)
                 <==> m.Contains(BlockDenotes(net, b).value.start) && m.Contains(BlockDenotes(net, b).value.end))
    {
      var r := BlockDenotes(net, b).value;
      if r.start <= r.end {
        CoversByEnds(m, r);
      }
    }
    PrefixCoverage(managed);
  }

  lemma PrefixCoverage(managed: seq<ValidPrefix>)
    ensures forall p: ValidPrefix :: IsPrefixSubsetOfManaged(p, managed) <==> InsideOneManaged(Some(RangeOfPrefix(p)), managed)
  {
    forall p: ValidPrefix
      ensures IsPrefixSubsetOfManaged(p, managed) <==> InsideOneManaged(Some(RangeOfPrefix(p)), managed)
    {
      forall m | m in managed
        ensures Covers(m, RangeOfPrefix(p)) <==> p.bits >= m.bits && m.Contains(p.addr)
      {
        CoversPrefix(m, p);
      }
    }
  }

  lemma AddressFallback(net: Netip, entry: string, managed: seq<ValidPrefix>)
    ensures AddressClaims(net, managed)(TextItem(entry)) <==> InsideOneManaged(TextDenotes(net, entry), managed)
  {
    PrefixCoverage(managed);
    var d := TextDenotes(net, entry);
    forall m | m in managed && d.Some? && d.value.start <= d.value.end
      ensures Covers(m, d.value) <==> m.Contains(d.value.start) && m.Contains(d.value.end)
      ensures Covers(m, d.value) <==> m.Base() <= d.value.start && d.value.end <= LastAddr(m)
    {
      CoversByEnds(m, d.value);
    }
  }

  lemma CidrFallback(net: Netip, cidr: string, managed: seq<ValidPrefix>)
    ensures CidrClaims(net, managed)(TextItem(cidr)) <==> InsideOneManaged(CidrDenotes(net, cidr), managed)
  {
    PrefixCoverage(managed);
  }

  /** Before there is a record, an address the user put inside a managed prefix is taken for the operator's: one pass
      that wants nothing removes it. */
  lemma UnrecordedEntryIsTaken(canon: Canon, net: Netip, entry: string, managed: seq<ValidPrefix>)
    requires InsideOneManaged(TextDenotes(net, entry), managed)
    ensures var b, s := AddressesBackend(canon), State([TextItem(entry)], None);
            s.View(b) == [TextItem(entry)] && Synced(b, s, [], AddressClaims(net, managed)).entries == []
  {
    var b, item := AddressesBackend(canon), TextItem(entry);
    AddressFallback(net, entry, managed);
    UserViewExtremes(b, Absent, [item]);
    assert [item][..0] == [];
    assert Kept(b, Absent, AddressClaims(net, managed), [item][..0]) == [];
    assert Chosen<Item>([], {}) == [];
  }
}
