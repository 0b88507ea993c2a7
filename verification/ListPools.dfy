/** From prefix rotation to the list-shaped pools: what a pool shared with the user holds after any run of rotations,
    passes, edits, failures and releases. */
module ListPools {
  import opened Addresses
  import opened AddressRange
  import opened Text
  import opened Ownership
  import opened Rotation
  import opened PoolConfigs
  import opened OwnedList
  import opened PoolBackends

  /** How a pool is driven: its backend, how the backend writes a configuration, how configurations are spelled, and what
      the pool's annotations select. */
  datatype Driver = Driver(backend: Backend<Item>, render: PoolConfiguration -> Item, spell: PoolConfig -> PoolConfiguration, mode: Mode, limit: nat)

  function Spelled(spell: PoolConfig -> PoolConfiguration, configs: seq<PoolConfig>): seq<PoolConfiguration> {
    seq(|configs|, i requires 0 <= i < |configs| => spell(configs[i]))
  }

  /** The wishes of a pass after a trace of prefixes; None where the current prefix has no configuration. */
  function WindowWishes(d: Driver, trace: seq<ValidPrefix>, resolved: bool): Option<seq<OwnedEntry<Item>>>
    requires trace != []
  {
    match ConfigsAfter(d.mode, trace, d.limit, resolved)
    case None => None
    case Some(configs) => Some(Wishes(d.backend, d.render, Spelled(d.spell, configs)))
  }

  /** What happens to a pool: the prefix rotates, a pass runs, with status resolved or not, or anything else. */
  datatype PoolEvent =
    | Rotates(to: ValidPrefix)
    | Reconciled(resolved: bool, claims: Item -> bool)
    | Edited(step: Step<Item>)

  function Accepted(first: ValidPrefix, events: seq<PoolEvent>): (trace: seq<ValidPrefix>)
    ensures trace != []
  {
    if events == [] then [first]
    else
      var before, last := Accepted(first, events[..|events| - 1]), events[|events| - 1];
      if last.Rotates? then before + [last.to] else before
  }

  /** The list steps the events come to; a pass without a usable current configuration fails before it writes. */
  function StepsOf(d: Driver, first: ValidPrefix, events: seq<PoolEvent>): seq<Step<Item>> {
    if events == [] then []
    else
      var init, last := events[..|events| - 1], events[|events| - 1];
      var before := StepsOf(d, first, init);
      match last
      case Rotates(_) => before
      case Edited(step) => before + [step]
      case Reconciled(resolved, claims) =>
        (match WindowWishes(d, Accepted(first, init), resolved)
         case None => before + [CallFailed]
         case Some(desired) => before + [Pass(desired, claims)])
  }

  /** The events other than passes are not passes in disguise. */
  predicate EditsOnly(events: seq<PoolEvent>) {
    forall i :: 0 <= i < |events| && events[i].Edited? ==> !events[i].step.Pass?
  }

  lemma WishesBound(d: Driver, trace: seq<ValidPrefix>, resolved: bool)
    requires trace != [] && WindowWishes(d, trace, resolved).Some?
    ensures |WindowWishes(d, trace, resolved).value| <= d.limit + 1
  {
    ConfigsBound(d.mode, trace, d.limit, resolved);
  }

  lemma {:induction false} StepsBound(d: Driver, first: ValidPrefix, events: seq<PoolEvent>)
    requires EditsOnly(events)
    ensures forall i :: 0 <= i < |StepsOf(d, first, events)| && StepsOf(d, first, events)[i].Pass? ==> |StepsOf(d, first, events)[i].desired| <= d.limit + 1
  {
    if events != [] {
      var init, last := events[..|events| - 1], events[|events| - 1];
      StepsBound(d, first, init);
      if last.Reconciled? && WindowWishes(d, Accepted(first, init), last.resolved).Some? {
        WishesBound(d, Accepted(first, init), last.resolved);
      }
    }
  }

  /** End to end for list pools: after any run the pool holds the list the user's own edits would have made and, besides,
      at most one operator entry per prefix of the window and one for the current prefix, however many prefixes have come
      and gone. */
  lemma ListPoolBounded(d: Driver, first: ValidPrefix, s: State<Item>, events: seq<PoolEvent>)
    requires Good(d.backend) && EditsOnly(events) && FairRun(d.backend, s, StepsOf(d, first, events))
    requires OwnedCount(d.backend, s) <= d.limit + 1
    ensures var t := Run(d.backend, s, StepsOf(d, first, events));
            && t.View(d.backend) == ShadowRun(d.backend, s, s.View(d.backend), StepsOf(d, first, events))
            && |t.entries| <= |t.View(d.backend)| + d.limit + 1
  {
    StepsBound(d, first, events);
    RunMatchesShadow(d.backend, s, StepsOf(d, first, events));
    RunCount(d.backend, s, StepsOf(d, first, events), d.limit + 1);
  }

  /** And right after a pass nothing is left of prefixes that have aged out: each entry is the user's, or is wished for by
      the configurations of the current window. */
  lemma NoEntryOutlivesItsPrefix(d: Driver, first: ValidPrefix, s: State<Item>, events: seq<PoolEvent>, resolved: bool, claims: Item -> bool, e: Item)
    requires Good(d.backend) && FairRun(d.backend, s, StepsOf(d, first, events + [Reconciled(resolved, claims)]))
    requires WindowWishes(d, Accepted(first, events), resolved).Some?
    requires e in Run(d.backend, s, StepsOf(d, first, events + [Reconciled(resolved, claims)])).entries
    ensures || e in Run(d.backend, s, StepsOf(d, first, events + [Reconciled(resolved, claims)])).View(d.backend)
            || d.backend.keyOf(e) in DesiredKeys(WindowWishes(d, Accepted(first, events), resolved).value)
  {
    var all := events + [Reconciled(resolved, claims)];
    assert all[..|all| - 1] == events;
    var before, steps := StepsOf(d, first, events), StepsOf(d, first, all);
    var desired := WindowWishes(d, Accepted(first, events), resolved).value;
    assert steps == before + [Pass(desired, claims)] && steps[..|steps| - 1] == before;
    FairPrefix(d.backend, s, steps, |before|);
    NothingLeftBehind(d.backend, Run(d.backend, s, before), desired, claims, e);
  }

  // ---------------------------------------------------------------- the addresses in the list

  /** The texts of a configuration, as netip prints them: a range with its bounds and the CIDR it spans, or a CIDR. */
  ghost predicate Spells(canon: Canon, net: Netip, text: PoolConfiguration, c: PoolConfig) {
    && Printed(canon, text)
    && match c
       case ByRange(r) =>
         && IsRange(text) && net.parseAddr(text.start) == IPv6(r.start) && net.parseAddr(text.end) == IPv6(r.end)
         && net.parsePrefix(text.cidr) == PrefixV6(SpanningCIDR(r.start, r.end))
       case ByCIDR(p) => !text.useAddressRange && text.cidr != "" && net.parsePrefix(text.cidr) == PrefixV6(p)
  }

  /** The range holds precisely the addresses of the configuration. */
  ghost predicate Exactly(r: Option<Range>, c: PoolConfig) {
    r.Some? && forall a: Address :: r.value.start <= a <= r.value.end <==> Denotes(c, a)
  }

  predicate InOrder(c: PoolConfig) {
    c.ByRange? ==> c.range.start <= c.range.end
  }

  /** What is written for a configuration denotes exactly its addresses, as a block and as an address entry. */
  lemma WrittenDenotes(canon: Canon, net: Netip, text: PoolConfiguration, c: PoolConfig)
    requires Spells(canon, net, text, c) && InOrder(c)
    ensures Exactly(BlockDenotes(net, BlockFor(text).block), c)
    ensures Exactly(TextDenotes(net, AddressFor(text).text), c)
  {
    assert text.start in [text.start, text.end, text.cidr] && text.end in [text.start, text.end, text.cidr] && text.cidr in [text.start, text.end, text.cidr];
    match c {
      case ByRange(r) =>
        PrintedRange(canon, text.start, text.end);
        TrimMeaning(Dashed(text.start, text.end));
        TrimMeaning(text.start);
        TrimMeaning(text.end);
        CutAtFirst(text.start, text.end, '-');
      case ByCIDR(p) =>
        TrimMeaning(text.cidr);
        CutAtFirst(text.cidr, "", '-');
        forall a: Address
          ensures p.Base() <= a <= LastAddr(p) <==> p.Contains(a)
        {
          PrefixIsItsRange(p, a);
        }
    }
  }

  /** As an entry of a CIDR group it denotes the least prefix that holds them all, which is the same for a CIDR. */
  lemma WrittenCIDR(canon: Canon, net: Netip, text: PoolConfiguration, c: PoolConfig, q: ValidPrefix)
    requires Spells(canon, net, text, c) && InOrder(c)
    ensures CidrDenotes(net, CidrFor(text).text).Some?
    ensures Covers(q, CidrDenotes(net, CidrFor(text).text).value) <==> forall a: Address :: Denotes(c, a) ==> q.Contains(a)
    ensures c.ByCIDR? ==> Exactly(CidrDenotes(net, CidrFor(text).text), c)
  {
    match c {
      case ByRange(r) =>
        SpanningCIDRIsLeast(r.start, r.end, q);
        CoversByEnds(q, r);
        CoversBlock(q, SpanningCIDR(r.start, r.end));
      case ByCIDR(p) =>
        CoversBlock(q, p);
        forall a: Address
          ensures p.Base() <= a <= LastAddr(p) <==> p.Contains(a)
        {
          PrefixIsItsRange(p, a);
        }
    }
  }

  lemma CoversBlock(q: ValidPrefix, p: ValidPrefix)
    ensures Covers(q, RangeOfPrefix(p)) <==> SubsetOf(p, q)
  {
    forall a: Address
      ensures p.Base() <= a <= LastAddr(p) <==> p.Contains(a)
    {
      PrefixIsItsRange(p, a);
    }
  }

  // ---------------------------------------------------------------- from prefixes to the addresses in the list

  /** The current prefix and the most recently displaced ones. */
  function InUse(trace: seq<ValidPrefix>, k: nat): seq<ValidPrefix>
    requires trace != []
  {
    [trace[|trace| - 1]] + Recent(Displaced(trace), {trace[|trace| - 1]}, k)
  }

  lemma {:induction false} DrainingMembers(mode: Mode, draining: seq<ValidPrefix>, c: PoolConfig)
    ensures c in DrainingConfigs(mode, draining) <==> exists p :: p in draining && Calculate(mode, p) == Some(c)
  {
    if draining != [] {
      var n := |draining| - 1;
      DrainingMembers(mode, draining[..n], c);
      assert forall p :: p in draining <==> p in draining[..n] || p == draining[n] by {
        assert draining == draining[..n] + [draining[n]];
      }
    }
  }

  /** A pass works from what the mode calculates in the prefixes in use. */
  lemma ConfigsInUse(mode: Mode, trace: seq<ValidPrefix>, k: nat, resolved: bool, c: PoolConfig)
    requires k > 0 && trace != [] && ConfigsAfter(mode, trace, k, resolved).Some?
    ensures c in ConfigsAfter(mode, trace, k, resolved).value <==> exists p :: p in InUse(trace, k) && Calculate(mode, p) == Some(c)
  {
    var current := trace[|trace| - 1];
    HistoryIsRecentWindow(trace, k);
    WindowInvariant(trace, k);
    DrainingMembers(mode, Track(trace, k).draining, c);
    assert forall p :: p in InUse(trace, k) <==> p == current || p in Track(trace, k).draining;
    assert ConfigsAfter(mode, trace, k, resolved).value[0] == Calculate(mode, current).value;
  }

  /** Calculated configurations are in order. */
  lemma CalculatedInOrder(mode: Mode, p: ValidPrefix)
    requires Calculate(mode, p).Some?
    ensures InOrder(Calculate(mode, p).value)
  {
    if mode.RangeMode? {
      RangeMeaning(p, mode.range.value.0, mode.range.value.1);
    }
  }

  /** Whatever in the list is identified as a configuration denotes exactly its addresses. */
  ghost predicate Recognised(b: Backend<Item>, denotes: Item -> Option<Range>, written: Item, c: PoolConfig, entries: seq<Item>) {
    b.keyOf(written) != "" && forall e :: e in entries && b.keyOf(e) == b.keyOf(written) ==> Exactly(denotes(e), c)
  }

  /** Then after a pass every configuration is in the list, and besides the user's entries nothing else is. */
  lemma PassHolds(b: Backend<Item>, denotes: Item -> Option<Range>, s: State<Item>, written: seq<Item>, configs: seq<PoolConfig>,
                  desired: seq<OwnedEntry<Item>>, claims: Item -> bool)
    requires Good(b) && WellKeyed(b, desired) && |written| == |configs| == |desired|
    requires forall i :: 0 <= i < |desired| ==> desired[i] == OwnedEntry(written[i], b.keyOf(written[i]))
    requires forall i :: 0 <= i < |configs| ==> Recognised(b, denotes, written[i], configs[i], Synced(b, s, desired, claims).entries)
    ensures var t := Synced(b, s, desired, claims);
            && (forall c :: c in configs ==> exists e :: e in t.entries && Exactly(denotes(e), c))
            && (forall e :: e in t.entries && e !in t.View(b) ==> exists c :: c in configs && Exactly(denotes(e), c))
  {
    var t := Synced(b, s, desired, claims);
    forall c | c in configs
      ensures exists e :: e in t.entries && Exactly(denotes(e), c)
    {
      var i :| 0 <= i < |configs| && configs[i] == c;
      assert desired[i] in desired;
      Served(b, s, desired, claims, b.keyOf(written[i]));
      var e :| e in t.entries && b.keyOf(e) == b.keyOf(written[i]);
    }
    forall e | e in t.entries && e !in t.View(b)
      ensures exists c :: c in configs && Exactly(denotes(e), c)
    {
      NothingLeftBehind(b, s, desired, claims, e);
      var d :| d in desired && d.key == b.keyOf(e);
      var i :| 0 <= i < |desired| && desired[i] == d;
      assert configs[i] in configs;
    }
  }

  function ItemDenotes(net: Netip, item: Item): Option<Range> {
    match item
    case BlockItem(b) => BlockDenotes(net, b)
    case TextItem(text) => TextDenotes(net, text)
    case OtherItem(_) => None
  }

  ghost predicate Holds(net: Netip, item: Item, a: Address) {
    ItemDenotes(net, item).Some? && ItemDenotes(net, item).value.start <= a <= ItemDenotes(net, item).value.end
  }

  /** The list holds every address the mode names in a prefix in use; and each entry that is not the user's holds exactly
      what it names in one of them. */
  ghost predicate HoldsInUse(net: Netip, entries: seq<Item>, own: seq<Item>, mode: Mode, trace: seq<ValidPrefix>, k: nat)
    requires trace != []
  {
    && (forall p, a :: p in InUse(trace, k) && Names(mode, p, a) ==> exists e :: e in entries && Holds(net, e, a))
    && (forall e :: e in entries && e !in own ==> exists p :: p in InUse(trace, k) && forall a: Address :: Holds(net, e, a) <==> Names(mode, p, a))
  }

  /** The written form of a driver's configurations is recognised in a list. */
  ghost predicate AllRecognised(d: Driver, net: Netip, entries: seq<Item>) {
    forall c :: InOrder(c) ==> Recognised(d.backend, item => ItemDenotes(net, item), d.render(d.spell(c)), c, entries)
  }

  lemma ConfigsHold(net: Netip, entries: seq<Item>, own: seq<Item>, mode: Mode, trace: seq<ValidPrefix>, k: nat, resolved: bool)
    requires k > 0 && trace != [] && ConfigsAfter(mode, trace, k, resolved).Some?
    requires forall c :: c in ConfigsAfter(mode, trace, k, resolved).value ==> exists e :: e in entries && Exactly(ItemDenotes(net, e), c)
    requires forall e :: e in entries && e !in own ==> exists c :: c in ConfigsAfter(mode, trace, k, resolved).value && Exactly(ItemDenotes(net, e), c)
    ensures HoldsInUse(net, entries, own, mode, trace, k)
  {
    forall p, a | p in InUse(trace, k) && Names(mode, p, a)
      ensures exists e :: e in entries && Holds(net, e, a)
    {
      CalculateMeaning(mode, p);
      var c := Calculate(mode, p).value;
      ConfigsInUse(mode, trace, k, resolved, c);
      var e :| e in entries && Exactly(ItemDenotes(net, e), c);
      assert Holds(net, e, a);
    }
    forall e | e in entries && e !in own
      ensures exists p :: p in InUse(trace, k) && forall a: Address :: Holds(net, e, a) <==> Names(mode, p, a)
    {
      var c :| c in ConfigsAfter(mode, trace, k, resolved).value && Exactly(ItemDenotes(net, e), c);
      ConfigsInUse(mode, trace, k, resolved, c);
      var p :| p in InUse(trace, k) && Calculate(mode, p) == Some(c);
      CalculateMeaning(mode, p);
      assert forall a: Address :: Holds(net, e, a) <==> Names(mode, p, a);
    }
  }

  lemma PassOfRun(d: Driver, first: ValidPrefix, s: State<Item>, events: seq<PoolEvent>, resolved: bool, claims: Item -> bool)
    requires FairRun(d.backend, s, StepsOf(d, first, events + [Reconciled(resolved, claims)]))
    requires WindowWishes(d, Accepted(first, events), resolved).Some?
    ensures var desired := WindowWishes(d, Accepted(first, events), resolved).value;
            && WellKeyed(d.backend, desired)
            && Run(d.backend, s, StepsOf(d, first, events + [Reconciled(resolved, claims)]))
               == Synced(d.backend, Run(d.backend, s, StepsOf(d, first, events)), desired, claims)
  {
    var all := events + [Reconciled(resolved, claims)];
    assert all[..|all| - 1] == events;
    var before, steps := StepsOf(d, first, events), StepsOf(d, first, all);
    var desired := WindowWishes(d, Accepted(first, events), resolved).value;
    assert steps == before + [Pass(desired, claims)] && steps[..|steps| - 1] == before;
    assert Possible(d.backend, Run(d.backend, s, steps[..|before|]), steps[|before|]);
  }

  /** End to end: after any fair run of rotations, passes, edits, failures and releases, a pass leaves a list that holds
      exactly what the mode names in the prefixes in use, next to the user's entries. */
  lemma ListPoolHolds(d: Driver, net: Netip, first: ValidPrefix, s: State<Item>, events: seq<PoolEvent>, resolved: bool, claims: Item -> bool)
    requires Good(d.backend) && d.limit > 0 && FairRun(d.backend, s, StepsOf(d, first, events + [Reconciled(resolved, claims)]))
    requires WindowWishes(d, Accepted(first, events), resolved).Some?
    requires AllRecognised(d, net, Run(d.backend, s, StepsOf(d, first, events + [Reconciled(resolved, claims)])).entries)
    ensures var t := Run(d.backend, s, StepsOf(d, first, events + [Reconciled(resolved, claims)]));
            HoldsInUse(net, t.entries, t.View(d.backend), d.mode, Accepted(first, events), d.limit)
  {
    var trace, before := Accepted(first, events), Run(d.backend, s, StepsOf(d, first, events));
    var configs, desired := ConfigsAfter(d.mode, trace, d.limit, resolved).value, WindowWishes(d, trace, resolved).value;
    var written := seq(|configs|, i requires 0 <= i < |configs| => d.render(d.spell(configs[i])));
    PassOfRun(d, first, s, events, resolved, claims);
    var t := Synced(d.backend, before, desired, claims);
    forall i | 0 <= i < |configs|
      ensures Recognised(d.backend, item => ItemDenotes(net, item), written[i], configs[i], t.entries)
    {
      assert configs[i] in configs;
      ConfigsInUse(d.mode, trace, d.limit, resolved, configs[i]);
      var p :| p in InUse(trace, d.limit) && Calculate(d.mode, p) == Some(configs[i]);
      CalculatedInOrder(d.mode, p);
    }
    PassHolds(d.backend, item => ItemDenotes(net, item), before, written, configs, desired, claims);
    ConfigsHold(net, t.entries, t.View(d.backend), d.mode, trace, d.limit, resolved);
  }

  ghost predicate SpellsAll(canon: Canon, net: Netip, spell: PoolConfig -> PoolConfiguration) {
    forall c :: InOrder(c) ==> Spells(canon, net, spell(c), c)
  }

  /** MetalLB's list always recognises what is written into it. */
  lemma AddressesRecognised(d: Driver, canon: Canon, net: Netip, entries: seq<Item>)
    requires Normalises(canon) && LeavesKeysAlone(canon) && canon("") == "" && Parses(canon, net) && SpellsAll(canon, net, d.spell)
    requires d.backend == AddressesBackend(canon) && d.render == AddressFor
    ensures AllRecognised(d, net, entries)
  {
    forall c | InOrder(c)
      ensures Recognised(d.backend, item => ItemDenotes(net, item), AddressFor(d.spell(c)), c, entries)
    {
      var written := AddressFor(d.spell(c));
      PrintedKeys(canon, d.spell(c));
      WrittenDenotes(canon, net, d.spell(c), c);
      forall e | e in entries && AddressKeyOf(canon, e) == AddressKeyOf(canon, written)
        ensures Exactly(ItemDenotes(net, e), c)
      {
        assert CanonicalAddressEntry(canon, "") == "";
        SameAddressEntry(canon, net, e.text, written.text);
      }
    }
  }

  /** Cilium's does unless the user has a block whose bound hides a dash. */
  lemma BlocksRecognised(d: Driver, canon: Canon, net: Netip, entries: seq<Item>)
    requires Normalises(canon) && Parses(canon, net) && SpellsAll(canon, net, d.spell)
    requires d.backend == BlocksBackend(canon) && d.render == BlockFor
    requires forall e :: e in entries && e.BlockItem? ==> DashFree(canon, e.block)
    ensures AllRecognised(d, net, entries)
  {
    forall c | InOrder(c)
      ensures Recognised(d.backend, item => ItemDenotes(net, item), BlockFor(d.spell(c)), c, entries)
    {
      var text := d.spell(c);
      var written := BlockFor(text);
      assert text.start in [text.start, text.end, text.cidr];
      WrittenDenotes(canon, net, text, c);
      forall e | e in entries && BlockKeyOf(canon, e) == BlockKeyOf(canon, written)
        ensures Exactly(ItemDenotes(net, e), c)
      {
        SameBlock(canon, net, written.block, e.block);
      }
    }
  }
}
