/** Calico IPPools hold one CIDR each, so the draining prefixes live in sibling pools the operator creates
    and deletes. From prefix rotation to the pools in the cluster. */
module Calico {
  import opened Addresses
  import opened AddressRange
  import opened Rotation
  import opened PoolConfigs

  /** An IPPool: its CIDR, the parent it drains for if it is labelled as a sibling, and the record of the
      CIDR the operator wrote. */
  datatype IPPool = IPPool(cidr: ValidPrefix, siblingOf: Option<string>, record: Option<ValidPrefix>)

  type Pools = map<string, IPPool>

  /** How siblings are named after the CIDR they hold. */
  type Naming = ValidPrefix -> string

  /** The single CIDR a configuration can be written as; a range only if it is exactly a CIDR. */
  function CalicoCIDR(c: PoolConfig): Option<ValidPrefix> {
    match c
    case ByCIDR(p) => Some(p)
    case ByRange(r) =>
      match ExactCIDR(IPv6(r.start), IPv6(r.end))
      case Ok(m) => if m.exact then Some(m.cidr) else None
      case Err(_) => None
  }

  /** A configuration is written exactly when some CIDR denotes its addresses, and then as that CIDR. */
  lemma WritableMeansDenoted(c: PoolConfig)
    ensures CalicoCIDR(c).Some? <==> exists p: ValidPrefix :: DenotedBy(p, c)
    ensures CalicoCIDR(c).Some? ==> DenotedBy(CalicoCIDR(c).value, c)
    ensures forall p: ValidPrefix :: DenotedBy(p, c) ==> CalicoCIDR(c).value.Masked() == p.Masked()
  {
    match c {
      case ByCIDR(q) =>
        assert DenotedBy(q, c);
        forall p: ValidPrefix | DenotedBy(p, c)
          ensures q.Masked() == p.Masked()
        {
          SameBlockSamePrefix(p, q);
        }
      case ByRange(r) =>
        forall p: ValidPrefix | DenotedBy(p, c)
          ensures r.start <= r.end && DenotesRange(p, r.start, r.end)
        {
          ContainsIsInterval(p, p.addr);
        }
        if r.start <= r.end {
          WritableRangeDenoted(r);
        }
    }
  }

  lemma WritableRangeDenoted(r: Range)
    requires r.start <= r.end
    ensures CalicoCIDR(ByRange(r)).Some? ==> DenotedBy(CalicoCIDR(ByRange(r)).value, ByRange(r))
    ensures forall p: ValidPrefix :: DenotedBy(p, ByRange(r)) ==> CalicoCIDR(ByRange(r)).Some? && CalicoCIDR(ByRange(r)).value.Masked() == p.Masked()
  {
    ExactMeansDenoted(r.start, r.end);
    forall p: ValidPrefix | DenotedBy(p, ByRange(r))
      ensures CalicoCIDR(ByRange(r)).Some? && CalicoCIDR(ByRange(r)).value.Masked() == p.Masked()
    {
      assert DenotesRange(p, r.start, r.end);
      SameBlockSamePrefix(CalicoCIDR(ByRange(r)).value, p);
    }
  }

  /** Prefixes that denote the same addresses are the same once masked. */
  lemma SameBlockSamePrefix(p: ValidPrefix, q: ValidPrefix)
    requires forall a: Address :: p.Contains(a) <==> q.Contains(a)
    ensures p.Masked() == q.Masked()
  {
    ExactDenotes(p);
    assert DenotesRange(q, p.Base(), LastAddr(p));
    PrefixIsItsRange(p, p.Base());
    DenotedRangeRoundTrip(p, p.Base(), LastAddr(p));
    DenotedRangeRoundTrip(q, p.Base(), LastAddr(p));
  }

  /** Succeeds exactly when some CIDR denotes the configuration; the result is that CIDR. */
  method CalicoCIDRForConfig(c: PoolConfig) returns (r: Option<ValidPrefix>)
    ensures r.Some? <==> exists p: ValidPrefix :: DenotedBy(p, c)
    ensures r.Some? ==> DenotedBy(r.value, c)
    ensures forall p: ValidPrefix :: DenotedBy(p, c) ==> r.value.Masked() == p.Masked()
    ensures r == CalicoCIDR(c)
  {
    WritableMeansDenoted(c);
    match c {
      case ByCIDR(p) => return Some(p);
      case ByRange(range) =>
        var m := ExactCIDRForAddressRange(IPv6(range.start), IPv6(range.end));
        if m.Ok? && m.value.exact {
          return Some(m.value.cidr);
        }
        return None;
    }
  }

  /** The siblings that should exist: one per draining configuration that is a CIDR. */
  function Expected(name: Naming, configs: seq<PoolConfig>): map<string, ValidPrefix> {
    if configs == [] then map[]
    else
      var rest := Expected(name, configs[..|configs| - 1]);
      match CalicoCIDR(configs[|configs| - 1])
      case None => rest
      case Some(p) => rest[name(p) := p]
  }

  /** What sibling `n` is once in place. */
  function InPlace(pools: Pools, parent: string, expected: map<string, ValidPrefix>, n: string): IPPool
    requires n in expected
  {
    if n in pools then pools[n].(cidr := expected[n]) else IPPool(expected[n], Some(parent), None)
  }

  predicate Obsolete(pools: Pools, parent: string, expected: map<string, ValidPrefix>, n: string) {
    n in pools && n !in expected && pools[n].siblingOf == Some(parent)
  }

  /** The cluster after a complete sibling sync: every expected sibling in place, no labelled one besides, all
      other pools as they were. */
  function SiblingsSynced(pools: Pools, parent: string, expected: map<string, ValidPrefix>): Pools {
    map n | n in pools.Keys + expected.Keys && !Obsolete(pools, parent, expected, n)
      :: if n in expected then InPlace(pools, parent, expected, n) else pools[n]
  }

  /** What an interrupted sync leaves: expected siblings are old or in place, other pools old or, if obsolete,
      possibly gone; and nothing is gone before every expected sibling is in place. */
  ghost predicate Interrupted(before: Pools, now: Pools, parent: string, expected: map<string, ValidPrefix>) {
    && (forall n :: n in now ==> n in before || n in expected)
    && (forall n :: n in now && n in expected ==> (n in before && now[n] == before[n]) || now[n] == InPlace(before, parent, expected, n))
    && (forall n :: n in now && n !in expected ==> now[n] == before[n])
    && (forall n :: n in before && n !in now ==>
          Obsolete(before, parent, expected, n)
          && forall m :: m in expected ==> m in now && now[m] == InPlace(before, parent, expected, m))
  }

  /** The cluster once the siblings in `done` are in place. */
  function Placed(pools: Pools, parent: string, expected: map<string, ValidPrefix>, done: set<string>): Pools
    requires done <= expected.Keys
  {
    map n | n in pools.Keys + done :: if n in done then InPlace(pools, parent, expected, n) else pools[n]
  }

  function ObsoleteNames(pools: Pools, parent: string, expected: map<string, ValidPrefix>): set<string> {
    set n | n in pools && Obsolete(pools, parent, expected, n)
  }

  lemma PlacedNext(pools: Pools, parent: string, expected: map<string, ValidPrefix>, done: set<string>, n: string, now: Pools)
    requires done <= expected.Keys && n in expected && n !in done && now == Placed(pools, parent, expected, done)
    ensures Placed(pools, parent, expected, done + {n}) == now[n := InPlace(now, parent, expected, n)]
  {
  }

  lemma PlacedChange(pools: Pools, parent: string, expected: map<string, ValidPrefix>, done: set<string>, n: string, now: Pools)
    requires done <= expected.Keys && n in expected && n !in done && now == Placed(pools, parent, expected, done)
    ensures now[n := InPlace(now, parent, expected, n)] == pools <==> now == pools && n in pools && pools[n].cidr == expected[n]
  {
    var next := now[n := InPlace(now, parent, expected, n)];
    forall m | m in done && next == pools
      ensures now[m] == pools[m]
    {
      assert m in next;
    }
  }

  /** Wherever placing and deleting stop, the cluster is a legitimate intermediate one. */
  lemma PlacedInterrupted(pools: Pools, parent: string, expected: map<string, ValidPrefix>, done: set<string>, gone: set<string>)
    requires done <= expected.Keys && (gone == {} || done == expected.Keys)
    requires gone <= ObsoleteNames(Placed(pools, parent, expected, done), parent, expected)
    ensures Interrupted(pools, Placed(pools, parent, expected, done) - gone, parent, expected)
  {
  }

  lemma RemoveOneMore(pools: Pools, gone: set<string>, n: string)
    ensures pools - gone - {n} == pools - (gone + {n})
  {
  }

  lemma SweptIsSynced(pools: Pools, parent: string, expected: map<string, ValidPrefix>)
    ensures var placed := Placed(pools, parent, expected, expected.Keys);
            placed - ObsoleteNames(placed, parent, expected) == SiblingsSynced(pools, parent, expected)
  {
  }

  class Cluster {
    var pools: Pools
    /** How many more calls the API server answers before it starts failing. */
    var callsLeft: nat

    constructor (pools: Pools, callsLeft: nat)
      ensures this.pools == pools && this.callsLeft == callsLeft
    {
      this.pools, this.callsLeft := pools, callsLeft;
    }

    /** One API call: it succeeds while any are left. */
    method Call() returns (ok: bool)
      modifies this`callsLeft
      ensures ok <==> old(callsLeft) > 0
    {
      ok := callsLeft > 0;
      if ok {
        callsLeft := callsLeft - 1;
      }
    }

    /** Creates or updates the expected siblings, in any order. */
    method PlaceSiblings(parent: string, expected: map<string, ValidPrefix>) returns (ok: bool, changed: bool, ghost done: set<string>)
      modifies this
      ensures done <= expected.Keys && pools == Placed(old(pools), parent, expected, done)
      ensures ok ==> done == expected.Keys
      ensures changed <==> pools != old(pools)
    {
      ghost var before := pools;
      changed, done := false, {};
      var todo := expected.Keys;
      while todo != {}
        invariant done <= expected.Keys && todo == expected.Keys - done
        invariant pools == Placed(before, parent, expected, done)
        invariant changed <==> pools != before
        decreases todo
      {
        var n :| n in todo;
        var cidr := expected[n];
        PlacedNext(before, parent, expected, done, n, pools);
        PlacedChange(before, parent, expected, done, n, pools);
        ghost var next := pools[n := InPlace(pools, parent, expected, n)];
        var got := Call();
        if !got {
          return false, changed, done;
        }
        if n in pools {
          if pools[n].cidr != cidr {
            var written := Call();
            if !written {
              return false, changed, done;
            }
            pools := pools[n := pools[n].(cidr := cidr)];
            changed := true;
          } else {
            assert pools[n := pools[n]] == pools;
          }
          assert pools == next;
        } else {
          var created := Call();
          if !created {
            return false, changed, done;
          }
          pools := pools[n := IPPool(cidr, Some(parent), None)];
          changed := true;
          assert pools == next;
        }
        todo, done := todo - {n}, done + {n};
      }
      return true, changed, done;
    }

    /** Deletes the labelled siblings that are not expected, in any order. */
    method DeleteObsolete(parent: string, expected: map<string, ValidPrefix>) returns (ok: bool, changed: bool, ghost gone: set<string>)
      modifies this
      ensures gone <= ObsoleteNames(old(pools), parent, expected) && pools == old(pools) - gone
      ensures ok ==> gone == ObsoleteNames(old(pools), parent, expected)
      ensures changed <==> gone != {}
    {
      changed, gone := false, {};
      var listed := Call();
      if !listed {
        return false, false, {};
      }
      var todo := ObsoleteNames(pools, parent, expected);
      ghost var all, before := todo, pools;
      while todo != {}
        invariant gone <= all && todo == all - gone
        invariant pools == before - gone
        invariant changed <==> gone != {}
        decreases todo
      {
        var n :| n in todo;
        var deleted := Call();
        if !deleted {
          return false, changed, gone;
        }
        RemoveOneMore(before, gone, n);
        pools := pools - {n};
        changed := true;
        todo, gone := todo - {n}, gone + {n};
      }
      return true, changed, gone;
    }

    /** The siblings of a pool: the expected ones are put in place first, the others deleted after. */
    method SyncDrainingSiblings(parent: string, name: Naming, draining: seq<PoolConfig>) returns (ok: bool, changed: bool)
      modifies this
      ensures ok ==> pools == SiblingsSynced(old(pools), parent, Expected(name, draining))
      ensures ok ==> (changed <==> pools != old(pools))
      ensures Interrupted(old(pools), pools, parent, Expected(name, draining))
    {
      var expected: map<string, ValidPrefix> := map[];
      for i := 0 to |draining|
        invariant unchanged(this)
        invariant expected == Expected(name, draining[..i])
      {
        assert draining[..i + 1][..i] == draining[..i];
        var cidr := CalicoCIDRForConfig(draining[i]);
        if cidr.Some? {
          expected := expected[name(cidr.value) := cidr.value];
        }
      }
      assert draining[..|draining|] == draining;
      ghost var before := pools;
      var placed, created, done := PlaceSiblings(parent, expected);
      if !placed {
        PlacedInterrupted(before, parent, expected, done, {});
        assert pools - {} == pools;
        return false, created;
      }
      ghost var middle := pools;
      var swept, deleted, gone := DeleteObsolete(parent, expected);
      PlacedInterrupted(before, parent, expected, done, gone);
      if !swept {
        return false, created || deleted;
      }
      SweptIsSynced(before, parent, expected);
      assert deleted ==> exists n :: n in gone;
      assert !deleted ==> pools == middle;
      return true, created || deleted;
    }

    /** A pass over the parent: its CIDR must be expressible, the siblings come first, and the parent is written
        only when its CIDR or its record is not already right. */
    method Update(parent: string, name: Naming, configs: seq<PoolConfig>) returns (ok: bool, changed: bool)
      requires parent in pools && pools[parent].siblingOf != Some(parent) && forall p: ValidPrefix :: name(p) != parent
      modifies this
      ensures ok && configs != [] ==> CalicoCIDR(configs[0]).Some? && pools == Updated(old(pools), parent, name, configs)
      ensures configs == [] ==> ok && pools == old(pools)
      ensures ok ==> (changed <==> pools != old(pools))
      ensures configs != [] && CalicoCIDR(configs[0]).None? ==> !ok && pools == old(pools)
      ensures !ok && configs != [] ==> Interrupted(old(pools), pools, parent, Expected(name, configs[1..]))
    {
      if |configs| == 0 {
        return true, false;
      }
      var cidr := CalicoCIDRForConfig(configs[0]);
      if cidr.None? {
        return false, false;
      }
      ExpectedNames(name, configs[1..]);
      ghost var before := pools;
      var synced, siblingsChanged := SyncDrainingSiblings(parent, name, configs[1..]);
      if !synced {
        return false, siblingsChanged;
      }
      var pool := pools[parent];
      assert pool == before[parent];
      if pool.cidr == cidr.value && pool.record == cidr {
        assert pools == pools[parent := pool];
        return true, siblingsChanged;
      }
      var written := Call();
      if !written {
        return false, siblingsChanged;
      }
      pools := pools[parent := pool.(cidr := cidr.value, record := cidr)];
      assert pools[parent] != before[parent];
      return true, true;
    }

    /** Hands the pool back: siblings go, the record goes, the CIDR stays. */
    method Release(parent: string, name: Naming) returns (ok: bool, changed: bool)
      requires parent in pools && pools[parent].siblingOf != Some(parent)
      modifies this
      ensures ok ==> pools == SiblingsSynced(old(pools), parent, map[])[parent := old(pools[parent]).(record := None)]
      ensures ok ==> forall n :: n in pools ==> pools[n].siblingOf != Some(parent)
      ensures ok ==> (changed <==> pools != old(pools))
    {
      ghost var before := pools;
      ok, changed := SyncDrainingSiblings(parent, name, []);
      if !ok {
        return;
      }
      assert pools[parent] == before[parent];
      if pools[parent].record.Some? {
        pools := pools[parent := pools[parent].(record := None)];
        changed := true;
        assert pools[parent] != before[parent];
      } else {
        assert pools == pools[parent := pools[parent].(record := None)];
      }
    }
  }

  function Updated(pools: Pools, parent: string, name: Naming, configs: seq<PoolConfig>): Pools
    requires configs != [] && CalicoCIDR(configs[0]).Some? && parent in pools
  {
    var cidr := CalicoCIDR(configs[0]);
    SiblingsSynced(pools, parent, Expected(name, configs[1..]))[parent := pools[parent].(cidr := cidr.value, record := cidr)]
  }

  /** The pools labelled as draining for a parent. */
  function Siblings(pools: Pools, parent: string): set<string> {
    set n | n in pools && pools[n].siblingOf == Some(parent)
  }

  /** No name a pass is about to use belongs to the parent or to somebody else's pool. */
  predicate NamesFree(pools: Pools, parent: string, names: set<string>) {
    parent in pools && pools[parent].siblingOf != Some(parent)
    && forall n :: n in names ==> n != parent && (n in pools ==> pools[n].siblingOf == Some(parent))
  }

  /** With its names free, a pass leaves exactly the expected siblings labelled, each with its CIDR. */
  lemma SyncedSiblings(pools: Pools, parent: string, expected: map<string, ValidPrefix>, pool: IPPool)
    requires NamesFree(pools, parent, expected.Keys) && pool.siblingOf == pools[parent].siblingOf
    ensures var after := SiblingsSynced(pools, parent, expected)[parent := pool];
            && Siblings(after, parent) == expected.Keys
            && (forall n :: n in expected ==> n in after && after[n].cidr == expected[n])
            && parent in after && after[parent] == pool
  {
    var after := SiblingsSynced(pools, parent, expected)[parent := pool];
    forall n | n in expected
      ensures n in after && after[n].cidr == expected[n] && after[n].siblingOf == Some(parent)
    {
      assert after[n] == InPlace(pools, parent, expected, n);
    }
    forall n | n in after && n !in expected && n != parent
      ensures after[n].siblingOf != Some(parent)
    {
      assert !Obsolete(pools, parent, expected, n);
    }
  }

  /** An interrupted pass takes no free name away. */
  lemma InterruptedKeepsNamesFree(before: Pools, now: Pools, parent: string, expected: map<string, ValidPrefix>, names: set<string>)
    requires NamesFree(before, parent, names) && expected.Keys <= names && Interrupted(before, now, parent, expected)
    ensures NamesFree(now, parent, names)
  {
    assert parent in now && now[parent] == before[parent];
  }

  lemma {:induction false} ExpectedNames(name: Naming, configs: seq<PoolConfig>)
    ensures forall n :: n in Expected(name, configs) ==> n == name(Expected(name, configs)[n])
    ensures forall n :: n in Expected(name, configs) ==> exists i :: 0 <= i < |configs| && CalicoCIDR(configs[i]) == Some(Expected(name, configs)[n])
    ensures forall i :: 0 <= i < |configs| && CalicoCIDR(configs[i]).Some? ==> name(CalicoCIDR(configs[i]).value) in Expected(name, configs)
  {
    if configs != [] {
      var k := |configs| - 1;
      ExpectedNames(name, configs[..k]);
      forall n | n in Expected(name, configs)
        ensures exists i :: 0 <= i < |configs| && CalicoCIDR(configs[i]) == Some(Expected(name, configs)[n])
      {
        var last := CalicoCIDR(configs[k]);
        if last.None? || n != name(last.value) {
          assert n in Expected(name, configs[..k]) && Expected(name, configs)[n] == Expected(name, configs[..k])[n];
          var i :| 0 <= i < k && CalicoCIDR(configs[..k][i]) == Some(Expected(name, configs[..k])[n]);
          assert configs[i] == configs[..k][i];
        }
      }
    }
  }

  /** When every configuration is a CIDR and names tell them apart, the expected siblings are exactly those CIDRs. */
  lemma ExpectedCIDRs(name: Naming, configs: seq<PoolConfig>, cidrs: seq<ValidPrefix>)
    requires |configs| == |cidrs| && forall i :: 0 <= i < |cidrs| ==> CalicoCIDR(configs[i]) == Some(cidrs[i])
    requires forall i, j :: 0 <= i < |cidrs| && 0 <= j < |cidrs| && name(cidrs[i]) == name(cidrs[j]) ==> cidrs[i] == cidrs[j]
    ensures forall n :: n in Expected(name, configs) <==> exists i :: 0 <= i < |cidrs| && name(cidrs[i]) == n
    ensures forall i :: 0 <= i < |cidrs| ==> name(cidrs[i]) in Expected(name, configs) && Expected(name, configs)[name(cidrs[i])] == cidrs[i]
  {
    var expected := Expected(name, configs);
    ExpectedNames(name, configs);
    forall n | n in expected
      ensures exists i :: 0 <= i < |cidrs| && name(cidrs[i]) == n && cidrs[i] == expected[n]
    {
      var i :| 0 <= i < |configs| && CalicoCIDR(configs[i]) == Some(expected[n]);
      assert cidrs[i] == expected[n];
    }
    forall i | 0 <= i < |cidrs|
      ensures name(cidrs[i]) in expected && expected[name(cidrs[i])] == cidrs[i]
    {
      assert CalicoCIDR(configs[i]).Some?;
    }
  }
}
