/** The four ways a Service's addresses are derived from the current and the historical prefixes,
    and why they agree. */
module Derivation {
  import opened Powers
  import opened Bytes
  import opened Addresses
  import opened AddressRange
  import opened ServiceAddresses
  import Subnet

  /** The addresses a mode computes: the current one, and all of them with the current one first. */
  datatype Derived = Derived(current: Address, all: seq<Address>)

  /** How a Service names where its addresses come from. The inner option is None when the
      DynamicPrefix defines nothing under that name. */
  datatype Naming =
    | ByRange(range: Option<(ParsedAddress, ParsedAddress)>)
    | BySubnet(subnet: Option<Subnet.Config>)
    | Unnamed

  // ---------------------------------------------------------------- suffix and inferred-suffix mode

  /** The suffix grafted onto every readable prefix, in order. */
  function GraftAll(prefixes: seq<StoredPrefix>, suffix: Address): seq<Address> {
    if prefixes == [] then []
    else
      var rest := GraftAll(prefixes[..|prefixes| - 1], suffix);
      match prefixes[|prefixes| - 1]
      case None => rest
      case Some(p) => rest + [Combine(p, suffix)]
  }

  /** Every readable prefix gets its own address, in order; an unreadable one is skipped. */
  lemma {:induction false} GraftEach(before: seq<StoredPrefix>, p: StoredPrefix, after: seq<StoredPrefix>, suffix: Address)
    ensures GraftAll(before + [p] + after, suffix)
         == GraftAll(before, suffix)
            + (if p.Some? then [p.value.Base() + suffix % p.value.Size()] else [])
            + GraftAll(after, suffix)
  {
    var whole := before + [p] + after;
    if after == [] {
      assert whole[..|whole| - 1] == before;
      if p.Some? {
        CombineIsModulo(p.value, suffix);
        BaseIsQuotient(p.value);
      }
    } else {
      assert whole[..|whole| - 1] == before + [p] + after[..|after| - 1];
      GraftEach(before, p, after[..|after| - 1], suffix);
    }
  }

  method GraftHistory(history: seq<StoredPrefix>, maxHistory: nat, suffixBytes: Octets) returns (all: seq<Address>)
    ensures all == GraftAll(UpTo(history, maxHistory), AddrFrom16(suffixBytes))
  {
    all := [];
    var i := 0;
    while i < |history|
      invariant 0 <= i <= |history| && i <= maxHistory
      invariant all == GraftAll(history[..i], AddrFrom16(suffixBytes))
    {
      if i >= maxHistory {
        break;
      }
      assert history[..i + 1][..i] == history[..i];
      if history[i].Some? {
        var ip := CombinePrefixSuffix(history[i].value, suffixBytes);
        all := all + [ip];
      }
      i := i + 1;
    }
    assert history[..i] == UpTo(history, maxHistory);
  }

  /** Suffix mode: the annotated suffix on the current prefix, then on the historical ones. */
  method CalculateSuffixIPs(current: StoredPrefix, history: seq<StoredPrefix>, maxHistory: nat, suffix: ParsedAddress)
    returns (r: Option<Derived>)
    ensures r == if suffix.IPv6? && current.Some?
                 then Some(SuffixDerived(current.value, history, maxHistory, suffix.v6))
                 else None
  {
    if !suffix.IPv6? || current.None? {
      return None;
    }
    var suffixBytes := As16(suffix.v6);
    AddressBytes(suffix.v6, suffixBytes);
    var currentIP := CombinePrefixSuffix(current.value, suffixBytes);
    var rest := GraftHistory(history, maxHistory, suffixBytes);
    return Some(Derived(currentIP, [currentIP] + rest));
  }

  function SuffixDerived(current: Prefix, history: seq<StoredPrefix>, maxHistory: nat, suffix: Address): Derived
    requires current.Valid()
  {
    Derived(Combine(current, suffix), [Combine(current, suffix)] + GraftAll(UpTo(history, maxHistory), suffix))
  }

  /** Whether an address lies in the current prefix or in the window of history. */
  predicate InManaged(current: Prefix, history: seq<StoredPrefix>, maxHistory: nat, a: Address)
    requires current.Valid()
  {
    current.Contains(a) || exists i :: 0 <= i < |history| && i < maxHistory && history[i].Some? && history[i].value.Contains(a)
  }

  /** Inferred-suffix mode: the assigned address doubles as the suffix, if a managed prefix holds it. */
  method CalculateInferredSuffixIPs(current: StoredPrefix, history: seq<StoredPrefix>, maxHistory: nat, held: Address)
    returns (r: Option<Derived>)
    ensures r == if current.Some? && InManaged(current.value, history, maxHistory, held)
                 then Some(SuffixDerived(current.value, history, maxHistory, held))
                 else None
  {
    if current.None? {
      return None;
    }
    var inManaged := current.value.Contains(held);
    if !inManaged {
      var i := 0;
      while i < |history|
        invariant 0 <= i <= |history|
        invariant forall j :: 0 <= j < i && j < maxHistory && history[j].Some? ==> !history[j].value.Contains(held)
      {
        if i >= maxHistory {
          break;
        }
        if history[i].Some? && history[i].value.Contains(held) {
          inManaged := true;
          break;
        }
        i := i + 1;
      }
    }
    if !inManaged {
      return None;
    }
    var suffixBytes := As16(held);
    AddressBytes(held, suffixBytes);
    var currentIP := CombinePrefixSuffix(current.value, suffixBytes);
    var rest := GraftHistory(history, maxHistory, suffixBytes);
    return Some(Derived(currentIP, [currentIP] + rest));
  }

  // ---------------------------------------------------------------- address-range mode

  /** The address at the same distance into the range of each historical prefix, where that range exists and reaches it. */
  function ShiftIntoRanges(prefixes: seq<StoredPrefix>, start: ParsedAddress, end: ParsedAddress, distance: nat): seq<Address> {
    if prefixes == [] then []
    else
      var rest := ShiftIntoRanges(prefixes[..|prefixes| - 1], start, end, distance);
      match prefixes[|prefixes| - 1]
      case None => rest
      case Some(p) =>
        match RangeWithin(p, start, end)
        case Err(_) => rest
        case Ok(r) => if r.start + distance <= r.end then rest + [r.start + distance] else rest
  }

  /** Every readable prefix the range fits in, and reaches the distance in, gets the address that far from its start. */
  lemma {:induction false} ShiftEachRange(before: seq<StoredPrefix>, p: StoredPrefix, after: seq<StoredPrefix>,
                                          start: ParsedAddress, end: ParsedAddress, distance: nat)
    ensures ShiftIntoRanges(before + [p] + after, start, end, distance)
         == ShiftIntoRanges(before, start, end, distance)
            + (if p.Some? && Fits(p.value, start, end) && start.v6 % p.value.Size() + distance <= end.v6 % p.value.Size()
               then [p.value.Base() + start.v6 % p.value.Size() + distance] else [])
            + ShiftIntoRanges(after, start, end, distance)
  {
    if after == [] {
      assert before + [p] + after == before + [p];
      ShiftLastRange(before, p, start, end, distance);
    } else {
      var n := |after| - 1;
      assert before + [p] + after == (before + [p] + after[..n]) + [after[n]] && after == after[..n] + [after[n]];
      ShiftEachRange(before, p, after[..n], start, end, distance);
      ShiftLastRange(before + [p] + after[..n], after[n], start, end, distance);
      ShiftLastRange(after[..n], after[n], start, end, distance);
    }
  }

  lemma ShiftLastRange(before: seq<StoredPrefix>, p: StoredPrefix, start: ParsedAddress, end: ParsedAddress, distance: nat)
    ensures ShiftIntoRanges(before + [p], start, end, distance)
         == ShiftIntoRanges(before, start, end, distance)
            + (if p.Some? && Fits(p.value, start, end) && start.v6 % p.value.Size() + distance <= end.v6 % p.value.Size()
               then [p.value.Base() + start.v6 % p.value.Size() + distance] else [])
  {
    assert (before + [p])[..|before|] == before;
    if p.Some? {
      RangeMeaning(p.value, start, end);
    }
  }

  function RangeDerived(current: Prefix, history: seq<StoredPrefix>, maxHistory: nat,
                        start: ParsedAddress, end: ParsedAddress, held: Address): Option<Derived>
    requires current.Valid()
  {
    match RangeWithin(current, start, end)
    case Err(_) => None
    case Ok(r) =>
      if held < r.start then None
      else Some(Derived(held, [held] + ShiftIntoRanges(UpTo(history, maxHistory), start, end, held - r.start)))
  }

  method CalculateAddressRangeIPs(current: StoredPrefix, history: seq<StoredPrefix>, maxHistory: nat,
                                  spec: Option<(ParsedAddress, ParsedAddress)>, held: Address)
    returns (r: Option<Derived>)
    ensures r == if spec.Some? && current.Some?
                 then RangeDerived(current.value, history, maxHistory, spec.value.0, spec.value.1, held)
                 else None
  {
    if spec.None? || current.None? {
      return None;
    }
    var (start, end) := spec.value;
    var currentRange := CalculateAddressRange(current.value, start, end);
    if currentRange.Err? {
      return None;
    }
    var offset, ok := CalculateIPOffset(currentRange.value.start, held);
    if !ok {
      return None;
    }
    var all := [held];
    var i := 0;
    while i < |history|
      invariant 0 <= i <= |history| && i <= maxHistory
      invariant all == [held] + ShiftIntoRanges(history[..i], start, end, held - currentRange.value.start)
    {
      if i >= maxHistory {
        break;
      }
      assert history[..i + 1][..i] == history[..i];
      if history[i].Some? {
        var histRange := CalculateAddressRange(history[i].value, start, end);
        if histRange.Ok? {
          var histIP := OffsetAddressWithin(histRange.value.start, histRange.value.end, offset);
          if histIP.Some? {
            all := all + [histIP.value];
          }
        }
      }
      i := i + 1;
    }
    assert history[..i] == UpTo(history, maxHistory);
    return Some(Derived(held, all));
  }

  // ---------------------------------------------------------------- subnet mode

  function ShiftIntoSubnets(prefixes: seq<StoredPrefix>, cfg: Subnet.Config, distance: nat): seq<Address> {
    if prefixes == [] then []
    else
      var rest := ShiftIntoSubnets(prefixes[..|prefixes| - 1], cfg, distance);
      match prefixes[|prefixes| - 1]
      case None => rest
      case Some(p) =>
        match Subnet.CalculateSubnet(p, cfg)
        case Err(_) => rest
        case Ok(s) => if s.addr + distance <= LastAddr(s) then rest + [s.addr + distance] else rest
  }

  /** Every readable prefix the subnet is in range for, and holds the distance, gets the address that far from its start. */
  lemma {:induction false} ShiftEachSubnet(before: seq<StoredPrefix>, p: StoredPrefix, after: seq<StoredPrefix>, cfg: Subnet.Config, distance: nat)
    ensures ShiftIntoSubnets(before + [p] + after, cfg, distance)
         == ShiftIntoSubnets(before, cfg, distance)
            + (if p.Some? && Subnet.InRange(p.value, cfg) && distance < Pow2(WIDTH - cfg.prefixLength)
               then [p.value.Base() + cfg.offset * Pow2(WIDTH - cfg.prefixLength) + distance] else [])
            + ShiftIntoSubnets(after, cfg, distance)
  {
    if after == [] {
      assert before + [p] + after == before + [p];
      ShiftLastSubnet(before, p, cfg, distance);
    } else {
      var n := |after| - 1;
      assert before + [p] + after == (before + [p] + after[..n]) + [after[n]] && after == after[..n] + [after[n]];
      ShiftEachSubnet(before, p, after[..n], cfg, distance);
      ShiftLastSubnet(before + [p] + after[..n], after[n], cfg, distance);
      ShiftLastSubnet(after[..n], after[n], cfg, distance);
    }
  }

  lemma ShiftLastSubnet(before: seq<StoredPrefix>, p: StoredPrefix, cfg: Subnet.Config, distance: nat)
    ensures ShiftIntoSubnets(before + [p], cfg, distance)
         == ShiftIntoSubnets(before, cfg, distance)
            + (if p.Some? && Subnet.InRange(p.value, cfg) && distance < Pow2(WIDTH - cfg.prefixLength)
               then [p.value.Base() + cfg.offset * Pow2(WIDTH - cfg.prefixLength) + distance] else [])
  {
    assert (before + [p])[..|before|] == before;
    if p.Some? && Subnet.InRange(p.value, cfg) {
      Subnet.SubnetIsBlock(p.value, cfg);
      LastAddrMeaning(Subnet.CalculateSubnet(p.value, cfg).value);
    }
  }

  function SubnetDerived(current: Prefix, history: seq<StoredPrefix>, maxHistory: nat,
                         cfg: Subnet.Config, held: Address): Option<Derived>
    requires current.Valid()
  {
    match Subnet.CalculateSubnet(current, cfg)
    case Err(_) => None
    case Ok(s) =>
      if held < s.addr then None
      else Some(Derived(held, [held] + ShiftIntoSubnets(UpTo(history, maxHistory), cfg, held - s.addr)))
  }

  method CalculateSubnetIPs(current: StoredPrefix, history: seq<StoredPrefix>, maxHistory: nat,
                            spec: Option<Subnet.Config>, held: Address)
    returns (r: Option<Derived>)
    ensures r == if spec.Some? && current.Some?
                 then SubnetDerived(current.value, history, maxHistory, spec.value, held)
                 else None
  {
    if spec.None? || current.None? {
      return None;
    }
    var cfg := spec.value;
    var currentSubnet := Subnet.CalculateSubnet(current.value, cfg);
    if currentSubnet.Err? {
      return None;
    }
    var offset, ok := CalculateIPOffset(currentSubnet.value.addr, held);
    if !ok {
      return None;
    }
    var all := [held];
    var i := 0;
    while i < |history|
      invariant 0 <= i <= |history| && i <= maxHistory
      invariant all == [held] + ShiftIntoSubnets(history[..i], cfg, held - currentSubnet.value.addr)
    {
      if i >= maxHistory {
        break;
      }
      assert history[..i + 1][..i] == history[..i];
      if history[i].Some? {
        var histSubnet := Subnet.CalculateSubnet(history[i].value, cfg);
        if histSubnet.Ok? {
          var histIP := OffsetAddressWithin(histSubnet.value.addr, LastAddr(histSubnet.value), offset);
          if histIP.Some? {
            all := all + [histIP.value];
          }
        }
      }
      i := i + 1;
    }
    assert history[..i] == UpTo(history, maxHistory);
    return Some(Derived(held, all));
  }

  // ---------------------------------------------------------------- choosing a mode

  function ModeDerived(current: Prefix, history: seq<StoredPrefix>, maxHistory: nat, naming: Naming, held: Address)
    : (r: Option<Derived>)
    requires current.Valid()
  {
    match naming
    case ByRange(None) => None
    case ByRange(Some(spec)) => RangeDerived(current, history, maxHistory, spec.0, spec.1, held)
    case BySubnet(None) => None
    case BySubnet(Some(cfg)) => SubnetDerived(current, history, maxHistory, cfg, held)
    case Unnamed =>
      if InManaged(current, history, maxHistory, held)
      then Some(SuffixDerived(current, history, maxHistory, held)) else None
  }

  /** Where a mode counts its distance from in the current prefix: the start of the range or subnet; the base otherwise. */
  function Origin(current: Prefix, naming: Naming): nat
    requires current.Valid()
  {
    match naming
    case ByRange(Some((IPv6(s), _))) => current.Base() + s % current.Size()
    case BySubnet(Some(cfg)) =>
      if 0 <= cfg.offset && cfg.prefixLength <= WIDTH then current.Base() + cfg.offset * Pow2(WIDTH - cfg.prefixLength) else current.Base()
    case _ => current.Base()
  }

  /** A mode answers exactly when its range or subnet exists in the current prefix and starts no later than the assigned
      address, or, without either, when a managed prefix of the window holds that address. Range and subnet mode then keep
      it, and go on at its distance from their origin. */
  lemma AnswersExactly(current: Prefix, history: seq<StoredPrefix>, maxHistory: nat, naming: Naming, held: Address)
    requires current.Valid()
    ensures var r, window := ModeDerived(current, history, maxHistory, naming, held), UpTo(history, maxHistory);
            match naming
            case ByRange(spec) =>
              && (r.Some? <==> spec.Some? && Fits(current, spec.value.0, spec.value.1) && held >= Origin(current, naming))
              && (r.Some? ==> r.value == Derived(held, [held] + ShiftIntoRanges(window, spec.value.0, spec.value.1, held - Origin(current, naming))))
            case BySubnet(cfg) =>
              && (r.Some? <==> cfg.Some? && Subnet.InRange(current, cfg.value) && held >= Origin(current, naming))
              && (r.Some? ==> r.value == Derived(held, [held] + ShiftIntoSubnets(window, cfg.value, held - Origin(current, naming))))
            case Unnamed =>
              r.Some? <==> current.Contains(held) || exists i :: 0 <= i < |window| && window[i].Some? && window[i].value.Contains(held)
  {
    match naming {
      case ByRange(spec) => if spec.Some? { RangeMeaning(current, spec.value.0, spec.value.1); }
      case BySubnet(cfg) => if cfg.Some? && Subnet.InRange(current, cfg.value) { Subnet.SubnetIsBlock(current, cfg.value); }
      case Unnamed =>
        var window := UpTo(history, maxHistory);
        assert forall i :: 0 <= i < |window| ==> window[i] == history[i];
    }
  }

  /** A mode that cannot answer leaves the Service on exactly the address it has. */
  function ServiceDerived(current: StoredPrefix, history: seq<StoredPrefix>, maxHistory: nat, naming: Naming, held: Address): Derived {
    if current.Some? && ModeDerived(current.value, history, maxHistory, naming, held).Some?
    then ModeDerived(current.value, history, maxHistory, naming, held).value
    else Derived(held, [held])
  }

  method CalculateServiceIPs(current: StoredPrefix, history: seq<StoredPrefix>, maxHistory: nat, naming: Naming, held: Address)
    returns (r: Derived)
    ensures r == ServiceDerived(current, history, maxHistory, naming, held)
  {
    var derived: Option<Derived>;
    match naming {
      case ByRange(spec) => derived := CalculateAddressRangeIPs(current, history, maxHistory, spec, held);
      case BySubnet(spec) => derived := CalculateSubnetIPs(current, history, maxHistory, spec, held);
      case Unnamed => derived := CalculateInferredSuffixIPs(current, history, maxHistory, held);
    }
    if derived.None? {
      return Derived(held, [held]);
    }
    return derived.value;
  }

  // ---------------------------------------------------------------- the modes agree

  /** Every prefix is readable and as long as the current one. */
  ghost predicate EqualLength(prefixes: seq<StoredPrefix>, bits: nat) {
    forall i :: 0 <= i < |prefixes| ==> prefixes[i].Some? && prefixes[i].value.bits == bits
  }

  /** The assigned address moved by the distance between the bases of two prefixes. */
  function Translated(from: Prefix, prefixes: seq<StoredPrefix>, a: Address): seq<int>
    requires from.Valid() && EqualLength(prefixes, from.bits)
  {
    seq(|prefixes|, i requires 0 <= i < |prefixes| => prefixes[i].value.Base() + (a - from.Base()))
  }

  lemma TranslatedLast(from: Prefix, prefixes: seq<StoredPrefix>, a: Address)
    requires from.Valid() && EqualLength(prefixes, from.bits) && prefixes != []
    ensures var n := |prefixes| - 1;
            Translated(from, prefixes, a) == Translated(from, prefixes[..n], a) + [prefixes[n].value.Base() + (a - from.Base())]
  {
  }

  /** Grafting the address onto each prefix moves it by the distance between the bases. */
  lemma {:induction false} GraftIsTranslation(from: Prefix, prefixes: seq<StoredPrefix>, a: Address)
    requires from.Valid() && from.Contains(a) && EqualLength(prefixes, from.bits)
    ensures GraftAll(prefixes, a) == Translated(from, prefixes, a)
  {
    if prefixes != [] {
      var n := |prefixes| - 1;
      GraftIsTranslation(from, prefixes[..n], a);
      CombineIsTranslation(from, prefixes[n].value, a);
      TranslatedLast(from, prefixes, a);
    }
  }

  /** Suffix mode needs only the host part: any suffix ending like the address gives the same addresses. */
  lemma {:induction false} GraftReadsHostPart(prefixes: seq<StoredPrefix>, bits: nat, a: Address, suffix: Address)
    requires bits <= WIDTH && EqualLength(prefixes, bits) && Low(a, WIDTH - bits) == Low(suffix, WIDTH - bits)
    ensures GraftAll(prefixes, a) == GraftAll(prefixes, suffix)
  {
    if prefixes != [] {
      GraftReadsHostPart(prefixes[..|prefixes| - 1], bits, a, suffix);
    }
  }

  lemma {:induction false} RangeShiftIsTranslation(from: Prefix, prefixes: seq<StoredPrefix>, start: ParsedAddress, end: ParsedAddress, a: Address)
    requires from.Valid() && EqualLength(prefixes, from.bits)
    requires var r := RangeWithin(from, start, end); r.Ok? && r.value.start <= a <= r.value.end
    ensures ShiftIntoRanges(prefixes, start, end, a - RangeWithin(from, start, end).value.start) == Translated(from, prefixes, a)
  {
    if prefixes != [] {
      var n := |prefixes| - 1;
      RangeShiftIsTranslation(from, prefixes[..n], start, end, a);
      RangeTranslates(from, prefixes[n].value, start, end);
      TranslatedLast(from, prefixes, a);
    }
  }

  lemma SubnetTranslate(from: Prefix, to: Prefix, cfg: Subnet.Config, a: Address)
    requires from.Valid() && to.Valid() && from.bits == to.bits
    requires Subnet.CalculateSubnet(from, cfg).Ok? && Subnet.CalculateSubnet(from, cfg).value.Contains(a)
    ensures Subnet.CalculateSubnet(to, cfg).Ok?
    ensures var s, t := Subnet.CalculateSubnet(from, cfg).value, Subnet.CalculateSubnet(to, cfg).value;
            s.addr <= a && t.addr + (a - s.addr) <= LastAddr(t) && t.addr + (a - s.addr) == to.Base() + (a - from.Base())
  {
    Subnet.SubnetTranslates(from, to, cfg);
    Subnet.SubnetIsBlock(from, cfg);
    Subnet.SubnetIsBlock(to, cfg);
    PrefixIsItsRange(Subnet.CalculateSubnet(from, cfg).value, a);
    LastAddrMeaning(Subnet.CalculateSubnet(from, cfg).value);
    LastAddrMeaning(Subnet.CalculateSubnet(to, cfg).value);
  }

  lemma {:induction false} SubnetShiftIsTranslation(from: Prefix, prefixes: seq<StoredPrefix>, cfg: Subnet.Config, a: Address)
    requires from.Valid() && EqualLength(prefixes, from.bits)
    requires Subnet.CalculateSubnet(from, cfg).Ok? && Subnet.CalculateSubnet(from, cfg).value.Contains(a)
    ensures Subnet.CalculateSubnet(from, cfg).value.addr <= a
    ensures ShiftIntoSubnets(prefixes, cfg, a - Subnet.CalculateSubnet(from, cfg).value.addr) == Translated(from, prefixes, a)
  {
    SubnetTranslate(from, from, cfg, a);
    if prefixes != [] {
      var n := |prefixes| - 1;
      SubnetShiftIsTranslation(from, prefixes[..n], cfg, a);
      SubnetTranslate(from, prefixes[n].value, cfg, a);
      TranslatedLast(from, prefixes, a);
    }
  }

  /** Where the assigned address lies for a mode to be naming it: inside the named range or subnet, or
      just inside the current prefix. */
  ghost predicate NamesAddress(current: Prefix, naming: Naming, a: Address)
    requires current.Valid()
  {
    match naming
    case ByRange(spec) =>
      spec.Some? && var r := RangeWithin(current, spec.value.0, spec.value.1); r.Ok? && r.value.start <= a <= r.value.end
    case BySubnet(spec) =>
      spec.Some? && var s := Subnet.CalculateSubnet(current, spec.value); s.Ok? && s.value.Contains(a)
    case Unnamed => current.Contains(a)
  }

  lemma NamedInsidePrefix(current: Prefix, naming: Naming, a: Address)
    requires current.Valid() && NamesAddress(current, naming, a)
    ensures current.Contains(a)
  {
    match naming {
      case ByRange(spec) => RangeInside(current, spec.value.0, spec.value.1, a);
      case BySubnet(spec) => Subnet.SubnetIsBlock(current, spec.value);
      case Unnamed =>
    }
  }

  /** For prefixes of one length and an address inside what the mode names, every mode derives the same
      addresses: the assigned one, then its translate in each historical prefix. */
  lemma ModesAgree(current: Prefix, history: seq<StoredPrefix>, maxHistory: nat, naming: Naming, a: Address)
    requires current.Valid() && NamesAddress(current, naming, a)
    requires EqualLength(UpTo(history, maxHistory), current.bits)
    ensures var r := ModeDerived(current, history, maxHistory, naming, a);
            r.Some? && r.value.current == a && r.value.all == [a] + Translated(current, UpTo(history, maxHistory), a)
  {
    var window := UpTo(history, maxHistory);
    NamedInsidePrefix(current, naming, a);
    GraftIsTranslation(current, window, a);
    CombineFixpoint(current, a);
    match naming {
      case ByRange(spec) => RangeShiftIsTranslation(current, window, spec.value.0, spec.value.1, a);
      case BySubnet(spec) => SubnetShiftIsTranslation(current, window, spec.value, a);
      case Unnamed =>
    }
  }

  /** Suffix mode gives those addresses too, exactly when the suffix ends like the assigned address. */
  lemma SuffixModeAgrees(current: Prefix, history: seq<StoredPrefix>, maxHistory: nat, suffix: Address, a: Address)
    requires current.Valid() && current.Contains(a)
    requires EqualLength(UpTo(history, maxHistory), current.bits)
    ensures var r := SuffixDerived(current, history, maxHistory, suffix);
            (r.current == a && r.all == [a] + Translated(current, UpTo(history, maxHistory), a))
            <==> Low(suffix, current.HostBits()) == Low(a, current.HostBits())
  {
    var window := UpTo(history, maxHistory);
    GraftIsTranslation(current, window, a);
    CombineFixpoint(current, a);
    CombineInside(current, suffix);
    CombineInside(current, a);
    if Low(suffix, current.HostBits()) == Low(a, current.HostBits()) {
      GraftReadsHostPart(window, current.bits, a, suffix);
    }
  }
}
