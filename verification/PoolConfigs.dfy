/** The configurations a pool gets from a DynamicPrefix: one for the current prefix, one per draining prefix. */
module PoolConfigs {
  import opened Addresses
  import opened AddressRange
  import opened Rotation
  import opened Powers
  import Subnet

  /** A resolved configuration. */
  datatype PoolConfig = ByRange(range: Range) | ByCIDR(cidr: ValidPrefix)

  /** What a pool's annotations select, with the matching spec: None where spec has no entry of that name. */
  datatype Mode =
    | RangeMode(range: Option<(ParsedAddress, ParsedAddress)>)
    | SubnetMode(subnet: Option<Subnet.Config>)
    | RawMode

  /** The configuration a mode's spec gives in one prefix. */
  function Calculate(mode: Mode, p: ValidPrefix): Option<PoolConfig> {
    match mode
    case RawMode => Some(ByCIDR(p))
    case RangeMode(None) => None
    case SubnetMode(None) => None
    case RangeMode(Some(spec)) =>
      (match RangeWithin(p, spec.0, spec.1)
       case Ok(r) => Some(ByRange(r))
       case Err(_) => None)
    case SubnetMode(Some(cfg)) =>
      (match Subnet.CalculateSubnet(p, cfg)
       case Ok(s) => Some(ByCIDR(s))
       case Err(_) => None)
  }

  predicate HasSpec(mode: Mode) {
    mode.RawMode? || (mode.RangeMode? && mode.range.Some?) || (mode.SubnetMode? && mode.subnet.Some?)
  }

  function DrainingConfigs(mode: Mode, draining: seq<ValidPrefix>): seq<PoolConfig> {
    if draining == [] then []
    else
      var rest := DrainingConfigs(mode, draining[..|draining| - 1]);
      match Calculate(mode, draining[|draining| - 1])
      case None => rest
      case Some(c) => rest + [c]
  }

  /** Prefers what status already resolved for the current prefix, else calculates it; then one configuration per
      draining prefix in the window. An unusable draining prefix is skipped; an unusable current one is an error. */
  function Configs(mode: Mode, resolved: Option<PoolConfig>, current: ValidPrefix, draining: seq<ValidPrefix>, maxHistory: nat)
    : Option<seq<PoolConfig>>
  {
    var first := if mode.RawMode? then Some(ByCIDR(current)) else if resolved.Some? then resolved else Calculate(mode, current);
    if first.None? then None
    else if !HasSpec(mode) then Some([first.value])
    else Some([first.value] + DrainingConfigs(mode, UpTo(draining, maxHistory)))
  }

  method BuildPoolConfigurations(mode: Mode, resolved: Option<PoolConfig>, current: ValidPrefix, draining: seq<ValidPrefix>, maxHistory: nat)
    returns (configs: Option<seq<PoolConfig>>)
    ensures configs == Configs(mode, resolved, current, draining, maxHistory)
    ensures configs.None? <==> !mode.RawMode? && resolved.None? && !NamesAny(mode, current)
    ensures configs.Some? ==> configs.value != []
    ensures configs.Some? && !mode.RawMode? && resolved.Some? ==> configs.value[0] == resolved.value
    ensures configs.Some? && (mode.RawMode? || resolved.None?) ==> forall a: Address :: Denotes(configs.value[0], a) <==> Names(mode, current, a)
    ensures configs.Some? && (mode == RangeMode(None) || mode == SubnetMode(None)) ==> |configs.value| == 1
    ensures configs.Some? && mode != RangeMode(None) && mode != SubnetMode(None)
            ==> OneEach(mode, configs.value[1..], Nameable(mode, UpTo(draining, maxHistory)))
  {
    CalculateMeaning(mode, current);
    DrainingMeaning(mode, UpTo(draining, maxHistory));
    var first: PoolConfig;
    if mode.RawMode? {
      first := ByCIDR(current);
    } else if resolved.Some? {
      first := resolved.value;
    } else {
      if !HasSpec(mode) {
        return None;
      }
      var calculated := Calculate(mode, current);
      if calculated.None? {
        return None;
      }
      first := calculated.value;
    }
    var built := [first];
    if !HasSpec(mode) {
      return Some(built);
    }
    var i := 0;
    while i < |draining|
      invariant 0 <= i <= |draining| && i <= maxHistory
      invariant built == [first] + DrainingConfigs(mode, draining[..i])
    {
      if i >= maxHistory {
        break;
      }
      assert draining[..i + 1][..i] == draining[..i];
      var config := Calculate(mode, draining[i]);
      if config.Some? {
        built := built + [config.value];
      }
      i := i + 1;
    }
    assert draining[..i] == UpTo(draining, maxHistory);
    return Some(built);
  }

  /** What a pass works from after a trace; `resolved` is what status resolved for the current prefix, if it has. */
  function ConfigsAfter(mode: Mode, trace: seq<ValidPrefix>, k: nat, resolved: bool): Option<seq<PoolConfig>>
    requires trace != []
  {
    var w := Track(trace, k);
    if w.current.None? then None
    else Configs(mode, if resolved then Calculate(mode, w.current.value) else None, w.current.value, w.draining, k)
  }

  lemma {:induction false} DrainingBound(mode: Mode, draining: seq<ValidPrefix>)
    ensures |DrainingConfigs(mode, draining)| <= |draining|
  {
    if draining != [] {
      DrainingBound(mode, draining[..|draining| - 1]);
    }
  }

  /** However many prefixes have been accepted, a pass works from at most k + 1 configurations. */
  lemma ConfigsBound(mode: Mode, trace: seq<ValidPrefix>, k: nat, resolved: bool)
    requires trace != [] && ConfigsAfter(mode, trace, k, resolved).Some?
    ensures |ConfigsAfter(mode, trace, k, resolved).value| <= k + 1
  {
    DrainingBound(mode, UpTo(Track(trace, k).draining, k));
  }

  /** The addresses a configuration denotes. */
  ghost predicate Denotes(c: PoolConfig, a: Address) {
    match c
    case ByRange(r) => r.start <= a <= r.end
    case ByCIDR(p) => p.Contains(a)
  }

  /** The prefix holds precisely the addresses the configuration denotes. */
  ghost predicate DenotedBy(p: ValidPrefix, c: PoolConfig) {
    forall a: Address :: p.Contains(a) <==> Denotes(c, a)
  }

  /** Whether a mode names anything in a prefix: its spec is there, and its range is in order or its subnet in range. */
  ghost predicate NamesAny(mode: Mode, p: ValidPrefix) {
    match mode
    case RawMode => true
    case RangeMode(spec) => spec.Some? && Fits(p, spec.value.0, spec.value.1)
    case SubnetMode(cfg) =>
      && cfg.Some? && p.bits <= cfg.value.prefixLength <= WIDTH
      && 0 <= cfg.value.offset && cfg.value.offset * Pow2(WIDTH - cfg.value.prefixLength) < p.Size()
  }

  /** The addresses a mode names in a prefix, counted from its start: all of them, those between the two host parts, or
      those of the numbered subnet. */
  ghost predicate Names(mode: Mode, p: ValidPrefix, a: Address) {
    match mode
    case RawMode => p.Base() <= a < p.Base() + p.Size()
    case RangeMode(spec) =>
      && NamesAny(mode, p)
      && p.Base() + spec.value.0.v6 % p.Size() <= a <= p.Base() + spec.value.1.v6 % p.Size()
    case SubnetMode(cfg) =>
      && NamesAny(mode, p)
      && var size := Pow2(WIDTH - cfg.value.prefixLength);
         p.Base() + cfg.value.offset * size <= a < p.Base() + (cfg.value.offset + 1) * size
  }

  /** What is calculated in a prefix is exactly what the mode names there, and nothing is calculated exactly when it
      names nothing. */
  lemma CalculateMeaning(mode: Mode, p: ValidPrefix)
    ensures Calculate(mode, p).Some? <==> NamesAny(mode, p)
    ensures Calculate(mode, p).Some? ==> forall a: Address :: Denotes(Calculate(mode, p).value, a) <==> Names(mode, p, a)
  {
    match mode {
      case RawMode =>
        forall a: Address
          ensures p.Contains(a) <==> Names(mode, p, a)
        {
          ContainsIsInterval(p, a);
        }
      case RangeMode(spec) =>
        if spec.Some? {
          RangeMeaning(p, spec.value.0, spec.value.1);
        }
      case SubnetMode(cfg) =>
        if cfg.Some? {
          SubnetMeaning(p, cfg.value);
        }
    }
  }

  /** The prefixes a mode names anything in, in order. */
  ghost function Nameable(mode: Mode, ps: seq<ValidPrefix>): seq<ValidPrefix> {
    if ps == [] then []
    else
      var init, p := Nameable(mode, ps[..|ps| - 1]), ps[|ps| - 1];
      if NamesAny(mode, p) then init + [p] else init
  }

  /** Each configuration denotes what the mode names in the prefix of the same rank. */
  ghost predicate OneEach(mode: Mode, configs: seq<PoolConfig>, ps: seq<ValidPrefix>) {
    |configs| == |ps| && forall i :: 0 <= i < |ps| ==> forall a: Address :: Denotes(configs[i], a) <==> Names(mode, ps[i], a)
  }

  /** The draining prefixes get one configuration each, in order; one that names nothing costs no other its own. */
  lemma {:induction false} DrainingMeaning(mode: Mode, draining: seq<ValidPrefix>)
    ensures OneEach(mode, DrainingConfigs(mode, draining), Nameable(mode, draining))
  {
    if draining != [] {
      DrainingMeaning(mode, draining[..|draining| - 1]);
      CalculateMeaning(mode, draining[|draining| - 1]);
    }
  }

  lemma SubnetMeaning(p: ValidPrefix, cfg: Subnet.Config)
    ensures Subnet.CalculateSubnet(p, cfg).Ok? <==> NamesAny(SubnetMode(Some(cfg)), p)
    ensures Subnet.CalculateSubnet(p, cfg).Ok? ==>
              forall a: Address :: Subnet.CalculateSubnet(p, cfg).value.Contains(a) <==> Names(SubnetMode(Some(cfg)), p, a)
  {
    if p.bits <= cfg.prefixLength <= WIDTH && 0 <= cfg.offset {
      Subnet.InRangeByAddress(p, cfg);
      if Subnet.InRange(p, cfg) {
        forall a: Address
          ensures Subnet.CalculateSubnet(p, cfg).value.Contains(a) <==> Names(SubnetMode(Some(cfg)), p, a)
        {
          Subnet.SubnetMembers(p, cfg, a);
          NextBlock(cfg.offset, Pow2(WIDTH - cfg.prefixLength));
        }
      }
    }
  }

  lemma NextBlock(o: nat, size: nat)
    ensures (o + 1) * size == o * size + size
  {
  }

  /** A configuration never reaches outside the prefix it was calculated in. */
  lemma ConfigInsidePrefix(mode: Mode, p: ValidPrefix, a: Address)
    requires Calculate(mode, p).Some? && Denotes(Calculate(mode, p).value, a)
    ensures p.Contains(a)
  {
    match mode {
      case RawMode =>
      case RangeMode(spec) => RangeInside(p, spec.value.0, spec.value.1, a);
      case SubnetMode(cfg) => Subnet.SubnetIsBlock(p, cfg.value);
    }
  }

  function Readable(prefixes: seq<StoredPrefix>): seq<ValidPrefix> {
    if prefixes == [] then []
    else
      var rest, last := Readable(prefixes[..|prefixes| - 1]), prefixes[|prefixes| - 1];
      if last.Some? then rest + [last.value] else rest
  }

  lemma {:induction false} ReadableMembers(prefixes: seq<StoredPrefix>, p: ValidPrefix)
    ensures p in Readable(prefixes) <==> Some(p) in prefixes
  {
    if prefixes != [] {
      var n := |prefixes| - 1;
      ReadableMembers(prefixes[..n], p);
      assert prefixes == prefixes[..n] + [prefixes[n]];
    }
  }

  /** The prefixes the geometric fallback goes by: the current one and all of history, those that can be read. */
  method CollectManagedPrefixes(current: StoredPrefix, history: seq<StoredPrefix>) returns (prefixes: seq<ValidPrefix>)
    ensures prefixes == (if current.Some? then [current.value] else []) + Readable(history)
    ensures forall p :: p in prefixes <==> Some(p) == current || Some(p) in history
  {
    prefixes := if current.Some? then [current.value] else [];
    ghost var first := prefixes;
    for i := 0 to |history|
      invariant prefixes == first + Readable(history[..i])
    {
      assert history[..i + 1][..i] == history[..i];
      if history[i].Some? {
        prefixes := prefixes + [history[i].value];
      }
    }
    assert history[..|history|] == history;
    forall p: ValidPrefix
      ensures p in Readable(history) <==> Some(p) in history
    {
      ReadableMembers(history, p);
    }
  }

  ghost predicate InsideOne(c: PoolConfig, managed: seq<ValidPrefix>) {
    exists m :: m in managed && forall a: Address :: Denotes(c, a) ==> m.Contains(a)
  }

  /** Everything a pass writes lies inside one managed prefix: without a record the fallback recognises what the
      operator would write for the prefixes still in status. */
  lemma {:induction false} DrainingInsideManaged(mode: Mode, draining: seq<ValidPrefix>, managed: seq<ValidPrefix>)
    requires forall p :: p in draining ==> p in managed
    ensures forall c :: c in DrainingConfigs(mode, draining) ==> InsideOne(c, managed)
  {
    if draining != [] {
      var p := draining[|draining| - 1];
      DrainingInsideManaged(mode, draining[..|draining| - 1], managed);
      if Calculate(mode, p).Some? {
        forall a: Address | Denotes(Calculate(mode, p).value, a)
          ensures p.Contains(a)
        {
          ConfigInsidePrefix(mode, p, a);
        }
        assert p in managed;
      }
    }
  }

  lemma WrittenIsManaged(mode: Mode, current: ValidPrefix, draining: seq<ValidPrefix>, maxHistory: nat)
    ensures var configs := Configs(mode, None, current, draining, maxHistory);
            configs.Some? ==> forall c :: c in configs.value ==> InsideOne(c, [current] + draining)
  {
    var managed, used := [current] + draining, UpTo(draining, maxHistory);
    DrainingInsideManaged(mode, [current], managed);
    DrainingInsideManaged(mode, used, managed);
    assert [current][..0] == [];
    assert DrainingConfigs(mode, [current][..0]) == [];
    assert Calculate(mode, current).Some? ==> DrainingConfigs(mode, [current]) == [] + [Calculate(mode, current).value];
    assert Calculate(mode, current).Some? ==> Calculate(mode, current).value in DrainingConfigs(mode, [current]);
  }

  /** Equally long prefixes either all have a configuration or none has. */
  lemma CalculatesTogether(mode: Mode, p: ValidPrefix, q: ValidPrefix)
    requires p.bits == q.bits
    ensures Calculate(mode, p).Some? <==> Calculate(mode, q).Some?
  {
    match mode {
      case RawMode =>
      case RangeMode(spec) => if spec.Some? { RangeTranslates(p, q, spec.value.0, spec.value.1); }
      case SubnetMode(cfg) => if cfg.Some? { Subnet.SubnetTranslates(p, q, cfg.value); }
    }
  }

  /** When every draining prefix calculates, there is one configuration for each, in order. */
  lemma {:induction false} OneConfigEach(mode: Mode, draining: seq<ValidPrefix>)
    requires forall p :: p in draining ==> Calculate(mode, p).Some?
    ensures |DrainingConfigs(mode, draining)| == |draining|
    ensures forall i :: 0 <= i < |draining| ==> Calculate(mode, draining[i]) == Some(DrainingConfigs(mode, draining)[i])
  {
    if draining != [] {
      OneConfigEach(mode, draining[..|draining| - 1]);
    }
  }

  lemma OldestAreNotNewest(draining: seq<ValidPrefix>, limit: nat)
    requires limit > 0 && forall i, j :: 0 <= i < j < |draining| ==> draining[i] != draining[j]
    ensures UpTo(draining, limit) == LastOf(draining, limit) <==> |draining| <= limit
  {
    if |draining| > limit {
      assert UpTo(draining, limit)[0] == draining[0];
      assert LastOf(draining, limit)[0] == draining[|draining| - limit];
    }
  }

  /** The prefixes pools drain for when the limit is edited after a trace kept under `k`. Under a lower limit they are
      the newest ones exactly while history fits it, and the oldest otherwise; under a higher one, all that was kept. */
  lemma ReadersUseNewestWithinLimit(trace: seq<ValidPrefix>, k: nat, limit: nat)
    requires k > 0 && limit > 0 && trace != []
    ensures var history, newest := Track(trace, k).draining, Recent(Displaced(trace), {trace[|trace| - 1]}, limit);
            && (limit <= k ==> (UpTo(history, limit) == newest <==> |history| <= limit))
            && (limit > k ==> UpTo(history, limit) == history == LastOf(newest, k))
            && (|history| > limit ==> UpTo(history, limit) == history[..limit] && newest == history[|history| - limit..])
  {
    var current := trace[|trace| - 1];
    var history, newest := Track(trace, k).draining, Recent(Displaced(trace), {current}, limit);
    HistoryIsRecentWindow(trace, k);
    WindowInvariant(trace, k);
    OldestAreNotNewest(history, limit);
    if limit <= k {
      SmallerWindow(Displaced(trace), {current}, limit, k);
    } else {
      SmallerWindow(Displaced(trace), {current}, k, limit);
    }
  }

  /** The next rotation puts that right: readers then use the newest prefixes again, all that status keeps. */
  lemma RotationRestoresReaders(trace: seq<ValidPrefix>, p: ValidPrefix, k: nat, lowered: nat)
    requires trace != [] && p != trace[|trace| - 1] && 0 < lowered <= k
    ensures var history := Accept(Track(trace, k), p, lowered).draining;
            UpTo(history, lowered) == history == Recent(Displaced(trace + [p]), {p}, lowered)
  {
    RotationTrims(trace, p, k, lowered);
    HistoryIsRecentWindow(trace + [p], lowered);
    WindowInvariant(trace + [p], lowered);
  }

  /** Three prefixes and a limit lowered from two to one: the pools drain for the first, not for the second. */
  lemma LoweredLimitDrainsOldest(a: ValidPrefix, b: ValidPrefix, c: ValidPrefix)
    requires a != b && b != c && a != c
    ensures UpTo(Track([a, b, c], 2).draining, 1) == [a]
    ensures Recent(Displaced([a, b, c]), {c}, 1) == [b]
  {
    DisplacedByThree(a, b, c);
    RecentOfTwo(a, b, c);
    HistoryIsRecentWindow([a, b, c], 2);
  }

  lemma DisplacedByThree(a: ValidPrefix, b: ValidPrefix, c: ValidPrefix)
    requires a != b && b != c
    ensures Displaced([a, b, c]) == [a, b]
  {
    assert [a, b, c][..2] == [a, b];
    assert [a, b][..1] == [a];
    assert Displaced([a]) == [];
    assert Displaced([a, b]) == [] + [a];
  }

  lemma RecentOfTwo(a: ValidPrefix, b: ValidPrefix, c: ValidPrefix)
    requires a != b && b != c && a != c
    ensures Recent([a, b], {c}, 2) == [a, b] && Recent([a, b], {c}, 1) == [b]
  {
    assert [a, b][..1] == [a] && [a][..0] == [];
    RecentLast([a, b], {c}, 2);
    RecentLast([a, b], {c}, 1);
    RecentLast([a], {c} + {b}, 1);
    assert Recent([], {c} + {b} + {a}, 0) == [];
    assert Recent([a], {c} + {b}, 0) == [];
  }
}
