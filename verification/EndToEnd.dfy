/** From the prefixes the ISP hands out to the IPPools in the cluster: what a successful pass leaves behind after
    any run of rotations. */
module EndToEnd {
  import opened Powers
  import opened Addresses
  import opened AddressRange
  import opened Rotation
  import opened PoolConfigs
  import opened Calico
  import Subnet

  // ---------------------------------------------------------------- one usable prefix, all usable

  /** The mode has a configuration in the prefix and it can be written as one CIDR. */
  predicate Usable(mode: Mode, p: ValidPrefix) {
    Calculate(mode, p).Some? && CalicoCIDR(Calculate(mode, p).value).Some?
  }

  function CIDROf(mode: Mode, p: ValidPrefix): ValidPrefix
    requires Usable(mode, p)
  {
    CalicoCIDR(Calculate(mode, p).value).value
  }

  /** Moving a block by a multiple of a larger block's size leaves a block. */
  lemma MovedBlock(p: Prefix, q: Prefix, r: Prefix, start: Address)
    requires p.Valid() && q.Valid() && r.Valid() && p.bits == q.bits <= r.bits
    requires p.Contains(r.Base()) && start - q.Base() == r.Base() - p.Base()
    ensures Prefix(start, r.bits).Base() == start
  {
    var h := r.HostBits();
    ContainsIsInterval(p, r.Base());
    FloorAligned(r.addr, h);
    FloorAligned(p.addr, p.HostBits());
    FloorAligned(q.addr, q.HostBits());
    AlignedFiner(p.Base(), h, p.HostBits());
    AlignedFiner(q.Base(), h, q.HostBits());
    AddAligned(p.Base(), r.Base() - p.Base(), h);
    AddAligned(q.Base(), r.Base() - p.Base(), h);
  }

  /** A block inside a block is no larger. */
  lemma InnerIsLonger(p: Prefix, r: Prefix)
    requires p.Valid() && r.Valid() && p.Contains(r.Base()) && p.Contains(LastAddr(r))
    ensures p.bits <= r.bits
  {
    SpanOfPrefix(r);
    DifferingBitsMeaning(r.Base(), LastAddr(r), p.HostBits());
  }

  /** A range can be written as a CIDR exactly when it runs from the base to the last address of the CIDR it spans. */
  lemma WritableRange(r: Range)
    ensures CalicoCIDR(ByRange(r)).Some? <==>
              r.start <= r.end && SpanningCIDR(r.start, r.end).Base() == r.start && LastAddr(SpanningCIDR(r.start, r.end)) == r.end
  {
  }

  lemma WritableBlock(s: Prefix)
    requires s.Valid()
    ensures CalicoCIDR(ByRange(Range(s.Base(), LastAddr(s)))).Some?
  {
    RangeRoundTrip(s);
  }

  lemma LastByDistance(r: Prefix, s: Prefix)
    requires r.Valid() && s.Valid() && r.bits == s.bits
    ensures LastAddr(s) - s.Base() == LastAddr(r) - r.Base()
  {
    LastAddrMeaning(r);
    LastAddrMeaning(s);
  }

  /** A range that is exactly a CIDR in one prefix is exactly a CIDR in every equally long one. */
  lemma ExactnessTranslates(p: Prefix, q: Prefix, a: Range, b: Range)
    requires p.Valid() && q.Valid() && p.bits == q.bits
    requires p.Contains(a.start) && p.Contains(a.end)
    requires b.start - q.Base() == a.start - p.Base() && b.end - q.Base() == a.end - p.Base()
    requires CalicoCIDR(ByRange(a)).Some?
    ensures CalicoCIDR(ByRange(b)).Some?
  {
    var r := SpanningCIDR(a.start, a.end);
    var s := Prefix(b.start, r.bits);
    assert r.Base() == a.start && LastAddr(r) == a.end by {
      WritableRange(a);
    }
    assert s.Base() == b.start by {
      InnerIsLonger(p, r);
      MovedBlock(p, q, r, b.start);
    }
    assert LastAddr(s) == b.end by {
      LastByDistance(r, s);
    }
    WritableBlock(s);
  }

  /** Usability depends only on the prefix length: if one prefix of a run is usable, all are. */
  lemma UsableTogether(mode: Mode, p: ValidPrefix, q: ValidPrefix)
    requires p.bits == q.bits && Usable(mode, p)
    ensures Usable(mode, q)
  {
    CalculatesTogether(mode, p, q);
    if mode.RangeMode? {
      var spec := mode.range.value;
      RangeTranslates(p, q, spec.0, spec.1);
      var r := RangeWithin(p, spec.0, spec.1).value;
      RangeInside(p, spec.0, spec.1, r.start);
      RangeInside(p, spec.0, spec.1, r.end);
      ExactnessTranslates(p, q, r, RangeWithin(q, spec.0, spec.1).value);
    }
  }

  /** The CIDR written for a prefix denotes what the configuration denotes, all of it inside the prefix. */
  lemma CIDRInside(mode: Mode, p: ValidPrefix)
    requires Usable(mode, p)
    ensures forall a: Address :: CIDROf(mode, p).Contains(a) <==> Denotes(Calculate(mode, p).value, a)
    ensures SubsetOf(CIDROf(mode, p), p)
  {
    var config := Calculate(mode, p).value;
    if config.ByRange? {
      RangeInside(p, mode.range.value.0, mode.range.value.1, 0);
      ExactMeansDenoted(config.range.start, config.range.end);
    }
    forall a: Address | CIDROf(mode, p).Contains(a)
      ensures p.Contains(a)
    {
      ConfigInsidePrefix(mode, p, a);
    }
  }

  /** The CIDR holds precisely the addresses the mode names in the prefix. */
  ghost predicate Holds(cidr: ValidPrefix, mode: Mode, p: ValidPrefix) {
    forall a: Address :: cidr.Contains(a) <==> Names(mode, p, a)
  }

  /** A prefix is usable exactly when some CIDR holds precisely what the mode names there, and it names something. */
  lemma UsableMeaning(mode: Mode, p: ValidPrefix)
    ensures Usable(mode, p) <==> NamesAny(mode, p) && exists q: ValidPrefix :: Holds(q, mode, p)
  {
    CalculateMeaning(mode, p);
    if Calculate(mode, p).Some? {
      var c := Calculate(mode, p).value;
      WritableMeansDenoted(c);
      assert forall q: ValidPrefix :: Holds(q, mode, p) <==> DenotedBy(q, c);
    }
  }

  lemma CIDRHolds(mode: Mode, p: ValidPrefix)
    requires Usable(mode, p)
    ensures Holds(CIDROf(mode, p), mode, p)
  {
    CIDRInside(mode, p);
    CalculateMeaning(mode, p);
  }

  /** Different prefixes of a run never share an address through their CIDRs. */
  lemma CIDRsApart(mode: Mode, p: ValidPrefix, q: ValidPrefix)
    requires p.bits == q.bits && p == p.Masked() && q == q.Masked() && p != q
    requires Usable(mode, p) && Usable(mode, q)
    ensures Disjoint(CIDROf(mode, p), CIDROf(mode, q))
    ensures CIDROf(mode, p) != CIDROf(mode, q)
  {
    CIDRInside(mode, p);
    CIDRInside(mode, q);
    EqualLengthDisjoint(p, q);
    ContainsIsInterval(CIDROf(mode, p), CIDROf(mode, p).addr);
  }

  // ---------------------------------------------------------------- the run

  ghost predicate AllUsable(mode: Mode, ps: seq<ValidPrefix>) {
    forall p :: p in ps ==> Usable(mode, p)
  }

  lemma AllUsableInRun(mode: Mode, trace: seq<ValidPrefix>)
    requires trace != [] && Usable(mode, trace[0]) && forall p :: p in trace ==> p.bits == trace[0].bits
    ensures AllUsable(mode, trace)
  {
    forall p | p in trace
      ensures Usable(mode, p)
    {
      UsableTogether(mode, trace[0], p);
    }
  }

  /** The accepted prefixes of a run: masked, as the receivers deliver them, equally long, and the first usable.
      Then all of them are. */
  ghost predicate Rotations(mode: Mode, trace: seq<ValidPrefix>): (ok: bool)
    ensures ok ==> AllUsable(mode, trace)
  {
    && trace != [] && Usable(mode, trace[0])
    && (forall p :: p in trace ==> p.bits == trace[0].bits && p == p.Masked())
    && (AllUsableInRun(mode, trace); true)
  }

  /** The names of the siblings a list of prefixes needs, in order. */
  function SiblingNames(mode: Mode, name: Naming, ps: seq<ValidPrefix>): seq<string>
    requires AllUsable(mode, ps)
  {
    seq(|ps|, i requires 0 <= i < |ps| => name(CIDROf(mode, ps[i])))
  }

  /** Sibling names tell the CIDRs of a run apart. */
  ghost predicate NamesTellApart(mode: Mode, name: Naming, ps: seq<ValidPrefix>)
    requires AllUsable(mode, ps)
  {
    forall p, q :: p in ps && q in ps && name(CIDROf(mode, p)) == name(CIDROf(mode, q)) ==> CIDROf(mode, p) == CIDROf(mode, q)
  }

  /** The cluster the operator may assume: the parent is nobody's sibling, and names of siblings it may come to
      need are distinct, are not the parent's, and are held only by its own siblings. */
  ghost predicate Clean(pools: Pools, parent: string, name: Naming, mode: Mode, trace: seq<ValidPrefix>)
    requires AllUsable(mode, trace)
  {
    NamesFree(pools, parent, set n | n in SiblingNames(mode, name, trace)) && NamesTellApart(mode, name, trace)
  }

  /** A pass works from one configuration per prefix in the window, the current one first. */
  lemma WindowConfigs(mode: Mode, trace: seq<ValidPrefix>, k: nat, resolved: bool)
    requires k > 0 && trace != [] && AllUsable(mode, trace)
    ensures Usable(mode, trace[|trace| - 1])
    ensures Track(trace, k).current == Some(trace[|trace| - 1])
    ensures var w := Track(trace, k);
            ConfigsAfter(mode, trace, k, resolved) == Some([Calculate(mode, trace[|trace| - 1]).value] + DrainingConfigs(mode, w.draining))
  {
    HistoryIsRecentWindow(trace, k);
    WindowInvariant(trace, k);
    assert Usable(mode, trace[|trace| - 1]);
  }

  function CIDRsOf(mode: Mode, ps: seq<ValidPrefix>): seq<ValidPrefix>
    requires AllUsable(mode, ps)
  {
    seq(|ps|, i requires 0 <= i < |ps| => CIDROf(mode, ps[i]))
  }

  /** The draining configurations are the CIDRs of the draining prefixes, in order. */
  lemma DrainingCIDRs(mode: Mode, draining: seq<ValidPrefix>)
    requires AllUsable(mode, draining)
    ensures var configs, cidrs := DrainingConfigs(mode, draining), CIDRsOf(mode, draining);
            |configs| == |cidrs| && forall i :: 0 <= i < |cidrs| ==> CalicoCIDR(configs[i]) == Some(cidrs[i])
  {
    OneConfigEach(mode, draining);
  }

  /** The siblings a pass expects are the CIDRs of the draining prefixes under their names. */
  lemma ExpectedFromWindow(mode: Mode, name: Naming, draining: seq<ValidPrefix>)
    requires AllUsable(mode, draining)
    requires NamesTellApart(mode, name, draining)
    ensures var expected := Expected(name, DrainingConfigs(mode, draining));
            && (forall n :: n in expected <==> n in SiblingNames(mode, name, draining))
            && (forall p :: p in draining ==> name(CIDROf(mode, p)) in expected && expected[name(CIDROf(mode, p))] == CIDROf(mode, p))
  {
    var configs, cidrs := DrainingConfigs(mode, draining), CIDRsOf(mode, draining);
    DrainingCIDRs(mode, draining);
    assert forall i, j :: 0 <= i < |cidrs| && 0 <= j < |cidrs| && name(cidrs[i]) == name(cidrs[j]) ==> cidrs[i] == cidrs[j] by {
      assert forall i :: 0 <= i < |cidrs| ==> draining[i] in draining && cidrs[i] == CIDROf(mode, draining[i]);
    }
    ExpectedCIDRs(name, configs, cidrs);
    NamesOfCIDRs(mode, name, draining, Expected(name, configs));
  }

  /** What is indexed by the CIDRs' positions, restated by prefix. */
  lemma NamesOfCIDRs(mode: Mode, name: Naming, ps: seq<ValidPrefix>, expected: map<string, ValidPrefix>)
    requires AllUsable(mode, ps)
    requires forall n :: n in expected <==> exists i :: 0 <= i < |ps| && name(CIDRsOf(mode, ps)[i]) == n
    requires forall i :: 0 <= i < |ps| ==> name(CIDRsOf(mode, ps)[i]) in expected && expected[name(CIDRsOf(mode, ps)[i])] == CIDRsOf(mode, ps)[i]
    ensures forall n :: n in expected <==> n in SiblingNames(mode, name, ps)
    ensures forall p :: p in ps ==> name(CIDROf(mode, p)) in expected && expected[name(CIDROf(mode, p))] == CIDROf(mode, p)
  {
    var cidrs, names := CIDRsOf(mode, ps), SiblingNames(mode, name, ps);
    assert forall i :: 0 <= i < |ps| ==> names[i] == name(cidrs[i]);
    forall n | n in expected
      ensures n in names
    {
      var i :| 0 <= i < |ps| && name(cidrs[i]) == n;
      assert names[i] == n;
    }
    forall n | n in names
      ensures n in expected
    {
      var i :| 0 <= i < |names| && names[i] == n;
      assert name(cidrs[i]) == n;
    }
    forall p | p in ps
      ensures name(CIDROf(mode, p)) in expected && expected[name(CIDROf(mode, p))] == CIDROf(mode, p)
    {
      var i :| 0 <= i < |ps| && ps[i] == p;
      assert cidrs[i] == CIDROf(mode, p);
    }
  }

  lemma {:induction false} DistinctCount(xs: seq<string>)
    requires forall i, j :: 0 <= i < j < |xs| ==> xs[i] != xs[j]
    ensures |set x | x in xs| == |xs|
  {
    if xs != [] {
      var n := |xs| - 1;
      DistinctCount(xs[..n]);
      assert xs == xs[..n] + [xs[n]];
      assert (set x | x in xs) == (set x | x in xs[..n]) + {xs[n]};
    }
  }

  /** The parent holds the current prefix's CIDR and says so; the labelled siblings are one per draining prefix,
      with its CIDR. */
  ghost predicate Mirrors(pools: Pools, mode: Mode, current: ValidPrefix, draining: seq<ValidPrefix>, parent: string, name: Naming)
    requires Usable(mode, current) && AllUsable(mode, draining)
  {
    && parent in pools && parent !in Siblings(pools, parent)
    && pools[parent].cidr == CIDROf(mode, current) && pools[parent].record == Some(CIDROf(mode, current))
    && Siblings(pools, parent) == (set n | n in SiblingNames(mode, name, draining))
    && (forall p :: p in draining ==> name(CIDROf(mode, p)) in pools && pools[name(CIDROf(mode, p))].cidr == CIDROf(mode, p))
  }

  ghost predicate PairwiseDisjoint(pools: Pools, names: set<string>)
    requires names <= pools.Keys
  {
    forall m, n :: m in names && n in names && m != n ==> Disjoint(pools[m].cidr, pools[n].cidr)
  }

  /** The names needed for some prefixes of a run are names needed for the run. */
  lemma NamesOfPart(mode: Mode, name: Naming, trace: seq<ValidPrefix>, part: seq<ValidPrefix>)
    requires AllUsable(mode, trace) && forall p :: p in part ==> p in trace
    ensures AllUsable(mode, part)
    ensures (set n | n in SiblingNames(mode, name, part)) <= (set n | n in SiblingNames(mode, name, trace))
  {
    forall i | 0 <= i < |part|
      ensures SiblingNames(mode, name, part)[i] in SiblingNames(mode, name, trace)
    {
      assert part[i] in part;
      var j :| 0 <= j < |trace| && trace[j] == part[i];
      assert SiblingNames(mode, name, trace)[j] == SiblingNames(mode, name, part)[i];
    }
  }

  /** What a pass expects to exist, in a cluster it may assume: its names are free. */
  lemma ExpectedIsFree(mode: Mode, trace: seq<ValidPrefix>, k: nat, resolved: bool, parent: string, name: Naming, pools: Pools)
    requires k > 0 && trace != [] && AllUsable(mode, trace) && Clean(pools, parent, name, mode, trace)
    ensures AllUsable(mode, Track(trace, k).draining)
    ensures ConfigsAfter(mode, trace, k, resolved).Some? && ConfigsAfter(mode, trace, k, resolved).value != []
    ensures CalicoCIDR(ConfigsAfter(mode, trace, k, resolved).value[0]) == Some(CIDROf(mode, trace[|trace| - 1]))
    ensures var expected, draining := Expected(name, ConfigsAfter(mode, trace, k, resolved).value[1..]), Track(trace, k).draining;
            && expected.Keys == (set n | n in SiblingNames(mode, name, draining))
            && (forall p :: p in draining ==> name(CIDROf(mode, p)) in expected && expected[name(CIDROf(mode, p))] == CIDROf(mode, p))
            && expected.Keys <= (set n | n in SiblingNames(mode, name, trace))
  {
    var draining := Track(trace, k).draining;
    WindowInvariant(trace, k);
    WindowConfigs(mode, trace, k, resolved);
    NamesOfPart(mode, name, trace, draining);
    ExpectedFromWindow(mode, name, draining);
    assert ConfigsAfter(mode, trace, k, resolved).value[1..] == DrainingConfigs(mode, draining);
  }

  lemma UpdateMirrors(mode: Mode, trace: seq<ValidPrefix>, k: nat, resolved: bool, parent: string, name: Naming, pools: Pools)
    requires k > 0 && trace != [] && AllUsable(mode, trace) && Clean(pools, parent, name, mode, trace)
    ensures AllUsable(mode, Track(trace, k).draining)
    ensures ConfigsAfter(mode, trace, k, resolved).Some?
    ensures var configs := ConfigsAfter(mode, trace, k, resolved).value;
            && configs != [] && CalicoCIDR(configs[0]).Some?
            && Mirrors(Updated(pools, parent, name, configs), mode, trace[|trace| - 1], Track(trace, k).draining, parent, name)
  {
    ExpectedIsFree(mode, trace, k, resolved, parent, name, pools);
    var configs := ConfigsAfter(mode, trace, k, resolved).value;
    var cidr := CalicoCIDR(configs[0]);
    SyncedSiblings(pools, parent, Expected(name, configs[1..]), pools[parent].(cidr := cidr.value, record := cidr));
  }

  /** Pools that mirror a window of distinct equally long prefixes are pairwise disjoint, one per prefix. */
  lemma MirrorsAreApart(pools: Pools, mode: Mode, current: ValidPrefix, draining: seq<ValidPrefix>, parent: string, name: Naming)
    requires Usable(mode, current) && AllUsable(mode, draining)
    requires Mirrors(pools, mode, current, draining, parent, name)
    requires forall p :: p in [current] + draining ==> p.bits == current.bits && p == p.Masked()
    requires forall i, j :: 0 <= i < j < |draining| ==> draining[i] != draining[j]
    requires current !in draining
    requires NamesTellApart(mode, name, draining)
    ensures |Siblings(pools, parent)| == |draining|
    ensures PairwiseDisjoint(pools, Siblings(pools, parent) + {parent})
  {
    var names := SiblingNames(mode, name, draining);
    forall i, j | 0 <= i < j < |draining|
      ensures names[i] != names[j]
    {
      assert draining[i] in draining && draining[j] in draining;
      CIDRsApart(mode, draining[i], draining[j]);
    }
    DistinctCount(names);
    forall m, n | m in Siblings(pools, parent) + {parent} && n in Siblings(pools, parent) + {parent} && m != n
      ensures Disjoint(pools[m].cidr, pools[n].cidr)
    {
      var p := Holder(pools, mode, current, draining, parent, name, m);
      var q := Holder(pools, mode, current, draining, parent, name, n);
      CIDRsApart(mode, p, q);
    }
  }

  /** The prefix a mirrored pool stands for. */
  lemma Holder(pools: Pools, mode: Mode, current: ValidPrefix, draining: seq<ValidPrefix>, parent: string, name: Naming, n: string)
    returns (p: ValidPrefix)
    requires Usable(mode, current) && AllUsable(mode, draining) && current !in draining
    requires Mirrors(pools, mode, current, draining, parent, name)
    requires n in Siblings(pools, parent) + {parent}
    ensures p in [current] + draining && Usable(mode, p) && pools[n].cidr == CIDROf(mode, p)
    ensures n == parent <==> p == current
    ensures n != parent ==> n == name(CIDROf(mode, p))
  {
    if n == parent {
      p := current;
    } else {
      var names := SiblingNames(mode, name, draining);
      var i :| 0 <= i < |draining| && names[i] == n;
      p := draining[i];
      assert p in draining;
    }
  }

  /** The parent's CIDR holds what the mode names in the current prefix, and the labelled siblings hold what it names in
      the draining ones: each of these is held by a sibling, and no sibling holds anything else. */
  ghost predicate HoldsWindow(pools: Pools, mode: Mode, current: ValidPrefix, draining: seq<ValidPrefix>, parent: string) {
    && parent in pools && Holds(pools[parent].cidr, mode, current)
    && (forall p :: p in draining ==> exists n :: n in Siblings(pools, parent) && Holds(pools[n].cidr, mode, p))
    && (forall n :: n in Siblings(pools, parent) ==> exists p :: p in draining && Holds(pools[n].cidr, mode, p))
  }

  lemma MirrorsHold(pools: Pools, mode: Mode, current: ValidPrefix, draining: seq<ValidPrefix>, parent: string, name: Naming)
    requires Usable(mode, current) && AllUsable(mode, draining) && current !in draining
    requires Mirrors(pools, mode, current, draining, parent, name)
    ensures HoldsWindow(pools, mode, current, draining, parent)
  {
    var names := SiblingNames(mode, name, draining);
    CIDRHolds(mode, current);
    forall p | p in draining
      ensures exists n :: n in Siblings(pools, parent) && Holds(pools[n].cidr, mode, p)
    {
      var i :| 0 <= i < |draining| && draining[i] == p;
      assert names[i] in Siblings(pools, parent);
      CIDRHolds(mode, p);
    }
    forall n | n in Siblings(pools, parent)
      ensures exists p :: p in draining && Holds(pools[n].cidr, mode, p)
    {
      var p := Holder(pools, mode, current, draining, parent, name, n);
      CIDRHolds(mode, p);
    }
  }

  /** The pools mirror the window, hold what the mode names there, one sibling per draining prefix, and never overlap. */
  ghost predicate WellPlaced(pools: Pools, mode: Mode, current: ValidPrefix, draining: seq<ValidPrefix>, parent: string, name: Naming)
    requires Usable(mode, current) && AllUsable(mode, draining)
  {
    && Mirrors(pools, mode, current, draining, parent, name)
    && |Siblings(pools, parent)| == |draining|
    && PairwiseDisjoint(pools, Siblings(pools, parent) + {parent})
    && HoldsWindow(pools, mode, current, draining, parent)
  }

  lemma MirrorsAreWellPlaced(pools: Pools, mode: Mode, current: ValidPrefix, draining: seq<ValidPrefix>, parent: string, name: Naming)
    requires Usable(mode, current) && AllUsable(mode, draining)
    requires Mirrors(pools, mode, current, draining, parent, name)
    requires forall p :: p in [current] + draining ==> p.bits == current.bits && p == p.Masked()
    requires forall i, j :: 0 <= i < j < |draining| ==> draining[i] != draining[j]
    requires current !in draining
    requires NamesTellApart(mode, name, draining)
    ensures WellPlaced(pools, mode, current, draining, parent, name)
  {
    MirrorsAreApart(pools, mode, current, draining, parent, name);
    MirrorsHold(pools, mode, current, draining, parent, name);
  }

  /** What a successful pass after the trace leaves behind: the parent on the current prefix's CIDR and recorded,
      exactly one labelled sibling per prefix of the window of the k most recently displaced ones, these CIDRs holding
      exactly what the mode names in their prefixes, and all of them pairwise disjoint. */
  ghost predicate Safe(mode: Mode, trace: seq<ValidPrefix>, k: nat, resolved: bool, parent: string, name: Naming, pools: Pools)
    requires trace != [] && parent in pools
  {
    var current, draining := trace[|trace| - 1], Recent(Displaced(trace), {trace[|trace| - 1]}, k);
    && Usable(mode, current) && AllUsable(mode, draining)
    && ConfigsAfter(mode, trace, k, resolved).Some?
    && var configs := ConfigsAfter(mode, trace, k, resolved).value;
    && configs != [] && CalicoCIDR(configs[0]).Some?
    && WellPlaced(Updated(pools, parent, name, configs), mode, current, draining, parent, name)
  }

  /** After any run of rotations, flapping included, a successful pass is safe. */
  lemma RotationSafety(mode: Mode, trace: seq<ValidPrefix>, k: nat, resolved: bool, parent: string, name: Naming, pools: Pools)
    requires k > 0 && Rotations(mode, trace) && Clean(pools, parent, name, mode, trace)
    ensures Safe(mode, trace, k, resolved, parent, name, pools)
  {
    HistoryIsRecentWindow(trace, k);
    WindowInvariant(trace, k);
    UpdateMirrors(mode, trace, k, resolved, parent, name, pools);
    var after := Updated(pools, parent, name, ConfigsAfter(mode, trace, k, resolved).value);
    MirrorsAreWellPlaced(after, mode, trace[|trace| - 1], Track(trace, k).draining, parent, name);
  }

  // ---------------------------------------------------------------- whole runs

  /** The ways a pass over the parent can end: done, or stopped by an API failure somewhere on the way. */
  ghost predicate PassOutcome(before: Pools, after: Pools, parent: string, name: Naming, configs: seq<PoolConfig>) {
    && configs != [] && parent in before
    && ((CalicoCIDR(configs[0]).Some? && after == Updated(before, parent, name, configs))
        || Interrupted(before, after, parent, Expected(name, configs[1..])))
  }

  /** A pass over the parent: the configurations of the window, then the backend. */
  method SyncPool(cluster: Cluster, mode: Mode, resolved: Option<PoolConfig>, current: ValidPrefix, draining: seq<ValidPrefix>, k: nat,
                  parent: string, name: Naming)
    returns (ok: bool)
    requires parent in cluster.pools && cluster.pools[parent].siblingOf != Some(parent) && forall p: ValidPrefix :: name(p) != parent
    modifies cluster
    ensures var configs := Configs(mode, resolved, current, draining, k);
            && (configs.None? ==> !ok && cluster.pools == old(cluster.pools))
            && (configs.Some? ==> PassOutcome(old(cluster.pools), cluster.pools, parent, name, configs.value))
            && (ok ==> configs.Some? && configs.value != [] && CalicoCIDR(configs.value[0]).Some?
                       && cluster.pools == Updated(old(cluster.pools), parent, name, configs.value))
  {
    var configs := BuildPoolConfigurations(mode, resolved, current, draining, k);
    if configs.None? {
      return false;
    }
    var changed;
    ok, changed := cluster.Update(parent, name, configs.value);
  }

  /** However a pass ends, the cluster stays one the next pass may assume, for the whole run it is part of. */
  lemma PassKeepsClean(mode: Mode, whole: seq<ValidPrefix>, trace: seq<ValidPrefix>, k: nat, resolved: bool, parent: string, name: Naming,
                       before: Pools, after: Pools)
    requires k > 0 && trace != [] && AllUsable(mode, whole) && Clean(before, parent, name, mode, whole)
    requires forall p :: p in trace ==> p in whole
    requires ConfigsAfter(mode, trace, k, resolved).Some?
    requires PassOutcome(before, after, parent, name, ConfigsAfter(mode, trace, k, resolved).value)
    ensures Clean(after, parent, name, mode, whole)
  {
    NamesOfPart(mode, name, whole, trace);
    ExpectedIsFree(mode, trace, k, resolved, parent, name, before);
    var configs := ConfigsAfter(mode, trace, k, resolved).value;
    var expected := Expected(name, configs[1..]);
    if Interrupted(before, after, parent, expected) {
      InterruptedKeepsNamesFree(before, after, parent, expected, set n | n in SiblingNames(mode, name, whole));
    } else {
      var cidr := CalicoCIDR(configs[0]);
      SyncedSiblings(before, parent, expected, before[parent].(cidr := cidr.value, record := cidr));
    }
  }

  /** What happens to a cluster: the ISP rotates the prefix, or a pass runs, with status resolved or not. */
  datatype Event = Rotate(to: ValidPrefix) | Pass(resolved: bool, after: Pools)

  function Rotated(trace: seq<ValidPrefix>, events: seq<Event>): seq<ValidPrefix> {
    if events == [] then trace
    else
      var before := Rotated(trace, events[..|events| - 1]);
      match events[|events| - 1]
      case Rotate(p) => before + [p]
      case Pass(_, _) => before
  }

  function Reached(pools: Pools, events: seq<Event>): Pools {
    if events == [] then pools
    else
      match events[|events| - 1]
      case Rotate(_) => Reached(pools, events[..|events| - 1])
      case Pass(_, after) => after
  }

  /** The events are a possible run: every pass starts from what is there and ends as a pass can. */
  ghost predicate Possible(mode: Mode, k: nat, parent: string, name: Naming, first: ValidPrefix, pools: Pools, events: seq<Event>) {
    events != [] ==>
      var init := events[..|events| - 1];
      && Possible(mode, k, parent, name, first, pools, init)
      && (match events[|events| - 1]
          case Rotate(_) => true
          case Pass(resolved, after) =>
            var trace := Rotated([first], init);
            trace != [] && ConfigsAfter(mode, trace, k, resolved).Some?
            && PassOutcome(Reached(pools, init), after, parent, name, ConfigsAfter(mode, trace, k, resolved).value))
  }

  lemma {:induction false} RunKeepsClean(mode: Mode, k: nat, parent: string, name: Naming, first: ValidPrefix, pools: Pools,
                                         events: seq<Event>, whole: seq<ValidPrefix>)
    requires k > 0 && Possible(mode, k, parent, name, first, pools, events)
    requires AllUsable(mode, whole) && Clean(pools, parent, name, mode, whole)
    requires forall p :: p in Rotated([first], events) ==> p in whole
    ensures Rotated([first], events) != []
    ensures Clean(Reached(pools, events), parent, name, mode, whole)
  {
    if events != [] {
      var init, last := events[..|events| - 1], events[|events| - 1];
      assert forall p :: p in Rotated([first], init) ==> p in Rotated([first], events);
      RunKeepsClean(mode, k, parent, name, first, pools, init, whole);
      if last.Pass? {
        PassKeepsClean(mode, whole, Rotated([first], init), k, last.resolved, parent, name, Reached(pools, init), last.after);
      }
    }
  }

  /** End to end: whatever rotations and passes came before, including passes that failed at any call, the next
      successful pass brings the pools to mirror the window of prefixes, pairwise disjoint. */
  lemma RunSafety(mode: Mode, k: nat, parent: string, name: Naming, first: ValidPrefix, pools: Pools, events: seq<Event>, resolved: bool)
    requires k > 0 && Possible(mode, k, parent, name, first, pools, events)
    requires Rotations(mode, Rotated([first], events))
    requires Clean(pools, parent, name, mode, Rotated([first], events))
    ensures parent in Reached(pools, events)
    ensures Safe(mode, Rotated([first], events), k, resolved, parent, name, Reached(pools, events))
  {
    RunKeepsClean(mode, k, parent, name, first, pools, events, Rotated([first], events));
    RotationSafety(mode, Rotated([first], events), k, resolved, parent, name, Reached(pools, events));
  }
}
