/** What a Service's addresses do over runs of rotations, with reconciles that may be missed: the inferred suffix follows
    the prefix as long as history remembers it; the range and subnet modes do not follow at all. */
module Inference {
  import opened Powers
  import opened Addresses
  import opened AddressRange
  import opened Derivation
  import Rotation
  import Subnet

  /** Prefixes as status holds them. */
  function Stored(ps: seq<ValidPrefix>): seq<StoredPrefix> {
    seq(|ps|, i requires 0 <= i < |ps| => Some(ps[i]))
  }

  /** The accepted prefixes of a run: masked and equally long. */
  ghost predicate Rotating(trace: seq<ValidPrefix>) {
    trace != [] && forall p :: p in trace ==> p.bits == trace[0].bits && p == p.Masked()
  }

  /** The prefixes a reader works from after a trace. */
  function Draining(trace: seq<ValidPrefix>, k: nat): seq<ValidPrefix>
    requires trace != []
  {
    Rotation.Recent(Rotation.Displaced(trace), {trace[|trace| - 1]}, k)
  }

  /** What a reconcile derives for a Service after a trace: status is what rotation leaves. */
  function After(trace: seq<ValidPrefix>, k: nat, naming: Naming, held: Address): Derived {
    var w := Rotation.Track(trace, k);
    ServiceDerived(w.current, Stored(w.draining), k, naming, held)
  }

  // ---------------------------------------------------------------- one reconcile

  lemma TrackIsWindow(trace: seq<ValidPrefix>, k: nat)
    requires k > 0 && trace != []
    ensures Rotation.Track(trace, k) == Rotation.Window(Some(trace[|trace| - 1]), Draining(trace, k))
    ensures |Draining(trace, k)| <= k
    ensures forall p :: p in Draining(trace, k) ==> p in trace && p != trace[|trace| - 1]
  {
    Rotation.HistoryIsRecentWindow(trace, k);
    Rotation.WindowInvariant(trace, k);
  }

  lemma StoredWindow(ps: seq<ValidPrefix>, k: nat)
    requires |ps| <= k
    ensures UpTo(Stored(ps), k) == Stored(ps)
  {
  }

  /** A managed prefix holds the address exactly when the one prefix of the run that holds it is current or draining. */
  lemma ManagedWhere(trace: seq<ValidPrefix>, k: nat, home: ValidPrefix, held: Address)
    requires k > 0 && Rotating(trace) && home in trace && home.Contains(held)
    ensures InManaged(trace[|trace| - 1], Stored(Draining(trace, k)), k, held) <==> home == trace[|trace| - 1] || home in Draining(trace, k)
  {
    var current, draining := trace[|trace| - 1], Draining(trace, k);
    TrackIsWindow(trace, k);
    forall p | p in trace
      ensures p.Contains(held) <==> p == home
    {
      EqualLengthDisjoint(p, home);
    }
    if home in draining {
      var i :| 0 <= i < |draining| && draining[i] == home;
      assert Stored(draining)[i] == Some(home);
    }
    if i :| 0 <= i < |Stored(draining)| && i < k && Stored(draining)[i].value.Contains(held) {
      assert draining[i] in draining;
    }
  }

  /** Inference moves a Service into the current prefix exactly when the prefix that holds its address is current or
      among the k most recently displaced ones. Otherwise the Service stays where it is, and asks for nothing else. */
  lemma InferenceMovesWithinWindow(trace: seq<ValidPrefix>, k: nat, home: ValidPrefix, held: Address)
    requires k > 0 && Rotating(trace) && home in trace && home.Contains(held)
    ensures var current, r := trace[|trace| - 1], After(trace, k, Unnamed, held);
            && (current.Contains(r.current) <==> home == current || home in Draining(trace, k))
            && r == (if home == current || home in Draining(trace, k)
                     then SuffixDerived(current, Stored(Draining(trace, k)), k, held)
                     else Derived(held, [held]))
  {
    var current := trace[|trace| - 1];
    TrackIsWindow(trace, k);
    ManagedWhere(trace, k, home, held);
    CombineInside(current, held);
    EqualLengthDisjoint(current, home);
  }

  // ---------------------------------------------------------------- whole runs

  /** The prefix a Service is on when it is reconciled after some of the rotations only: it catches up as long as
      history still holds the prefix it is on. */
  function Home(trace: seq<ValidPrefix>, k: nat, reconciled: seq<bool>): ValidPrefix
    requires trace != [] && |reconciled| == |trace|
    decreases |trace|
  {
    if |trace| == 1 then trace[0]
    else
      var n := |trace| - 1;
      var home := Home(trace[..n], k, reconciled[..n]);
      if reconciled[n] && (home == trace[n] || home in Draining(trace, k)) then trace[n] else home
  }

  /** The address it holds then, each derived current address having been assigned. */
  function Held(trace: seq<ValidPrefix>, k: nat, reconciled: seq<bool>, a: Address): Address
    requires trace != [] && |reconciled| == |trace|
    decreases |trace|
  {
    if |trace| == 1 then a
    else
      var n := |trace| - 1;
      var held := Held(trace[..n], k, reconciled[..n], a);
      if reconciled[n] then After(trace, k, Unnamed, held).current else held
  }

  lemma RotatingPrefix(trace: seq<ValidPrefix>, n: nat)
    requires Rotating(trace) && 0 < n <= |trace|
    ensures Rotating(trace[..n]) && trace[..n][0] == trace[0]
    ensures forall p :: p in trace[..n] ==> p in trace
  {
  }

  /** Inference does not drift: after any run of rotations and missed reconciles a Service holds the address its first
      one makes in the prefix it is on, computed without any of the steps between. */
  lemma {:induction false} HeldFollowsHome(trace: seq<ValidPrefix>, k: nat, reconciled: seq<bool>, a: Address)
    requires k > 0 && Rotating(trace) && |reconciled| == |trace| && trace[0].Contains(a)
    ensures Home(trace, k, reconciled) in trace
    ensures Held(trace, k, reconciled, a) == Combine(Home(trace, k, reconciled), a)
    decreases |trace|
  {
    if |trace| == 1 {
      CombineFixpoint(trace[0], a);
    } else {
      var n := |trace| - 1;
      RotatingPrefix(trace, n);
      HeldFollowsHome(trace[..n], k, reconciled[..n], a);
      var home, held := Home(trace[..n], k, reconciled[..n]), Held(trace[..n], k, reconciled[..n], a);
      CombineInside(home, a);
      InferenceMovesWithinWindow(trace, k, home, held);
      CombineForgets(home, trace[n], a);
    }
  }

  lemma JustDisplaced(trace: seq<ValidPrefix>, k: nat)
    requires k > 0 && |trace| > 1
    ensures var n := |trace| - 1; trace[n - 1] == trace[n] || trace[n - 1] in Draining(trace, k)
  {
    var n := |trace| - 1;
    var displaced := Rotation.Displaced(trace);
    if trace[n - 1] != trace[n] {
      assert displaced[|displaced| - 1] == trace[n - 1];
      Rotation.RecentLast(displaced, {trace[n]}, k);
      var recent := Draining(trace, k);
      assert recent[|recent| - 1] == trace[n - 1];
    }
  }

  /** Reconciled after each rotation, a Service is always on the current prefix. */
  lemma {:induction false} NoDrift(trace: seq<ValidPrefix>, k: nat, reconciled: seq<bool>, a: Address)
    requires k > 0 && Rotating(trace) && |reconciled| == |trace| && trace[0].Contains(a)
    requires forall i :: 0 <= i < |reconciled| ==> reconciled[i]
    ensures Home(trace, k, reconciled) == trace[|trace| - 1]
    ensures Held(trace, k, reconciled, a) == Combine(trace[|trace| - 1], a)
    decreases |trace|
  {
    if |trace| > 1 {
      var n := |trace| - 1;
      RotatingPrefix(trace, n);
      NoDrift(trace[..n], k, reconciled[..n], a);
      JustDisplaced(trace, k);
    }
    HeldFollowsHome(trace, k, reconciled, a);
  }

  /** Whenever a Service is back on its first prefix, whatever it rotated through and missed, it is back on its first
      address; and it is on no other prefix with it. */
  lemma ReturningRestores(trace: seq<ValidPrefix>, k: nat, reconciled: seq<bool>, a: Address)
    requires k > 0 && Rotating(trace) && |reconciled| == |trace| && trace[0].Contains(a)
    ensures Held(trace, k, reconciled, a) == a <==> Home(trace, k, reconciled) == trace[0]
  {
    var home := Home(trace, k, reconciled);
    HeldFollowsHome(trace, k, reconciled, a);
    CombineFixpoint(home, a);
    EqualLengthDisjoint(home, trace[0]);
  }

  // ---------------------------------------------------------------- the modes that do not follow

  /** None of the addresses lies in the prefix. */
  ghost predicate NoneInside(all: seq<Address>, p: ValidPrefix) {
    forall x :: x in all ==> !p.Contains(x)
  }

  /** The window is readable, equally long as the current prefix, and disjoint from it. */
  ghost predicate Apart(current: ValidPrefix, window: seq<StoredPrefix>) {
    EqualLength(window, current.bits) && forall i :: 0 <= i < |window| ==> window[i].value.Masked() != current.Masked()
  }

  lemma {:induction false} ShiftedRangesOutside(current: ValidPrefix, window: seq<StoredPrefix>, start: ParsedAddress, end: ParsedAddress, distance: nat)
    requires Apart(current, window)
    ensures NoneInside(ShiftIntoRanges(window, start, end, distance), current)
  {
    if window != [] {
      var n := |window| - 1;
      var p := window[n].value;
      ShiftedRangesOutside(current, window[..n], start, end, distance);
      var r := RangeWithin(p, start, end);
      if r.Ok? && r.value.start + distance <= r.value.end {
        RangeInside(p, start, end, r.value.start + distance);
        EqualLengthDisjoint(p, current);
      }
    }
  }

  lemma {:induction false} ShiftedSubnetsOutside(current: ValidPrefix, window: seq<StoredPrefix>, cfg: Subnet.Config, distance: nat)
    requires Apart(current, window)
    ensures NoneInside(ShiftIntoSubnets(window, cfg, distance), current)
  {
    if window != [] {
      var n := |window| - 1;
      var p := window[n].value;
      ShiftedSubnetsOutside(current, window[..n], cfg, distance);
      var s := Subnet.CalculateSubnet(p, cfg);
      if s.Ok? && s.value.addr + distance <= LastAddr(s.value) {
        Subnet.SubnetIsBlock(p, cfg);
        PrefixIsItsRange(s.value, s.value.addr + distance);
        EqualLengthDisjoint(p, current);
      }
    }
  }

  /** In range and subnet mode a Service asks for an address in the current prefix exactly when it holds one already: the
      calculation always keeps the address it has, and everything else it derives is historical. */
  lemma NamedModesNeverMove(current: ValidPrefix, history: seq<StoredPrefix>, maxHistory: nat, naming: Naming, held: Address)
    requires !naming.Unnamed? && Apart(current, UpTo(history, maxHistory))
    ensures var r := ServiceDerived(Some(current), history, maxHistory, naming, held);
            r.current == held && ((exists x :: x in r.all && current.Contains(x)) <==> current.Contains(held))
  {
    var r := ServiceDerived(Some(current), history, maxHistory, naming, held);
    var window := UpTo(history, maxHistory);
    assert r.all[0] == held;
    var rest := r.all[1..];
    assert r.all == [held] + rest;
    assert NoneInside(rest, current) by {
      if ModeDerived(current, history, maxHistory, naming, held).Some? {
        match naming {
          case ByRange(spec) =>
            ShiftedRangesOutside(current, window, spec.value.0, spec.value.1, held - RangeWithin(current, spec.value.0, spec.value.1).value.start);
          case BySubnet(spec) =>
            ShiftedSubnetsOutside(current, window, spec.value, held - Subnet.CalculateSubnet(current, spec.value).value.addr);
          case Unnamed =>
        }
      }
    }
  }

  /** So after any run of rotations, a Service of such a mode whose address is in an earlier prefix asks for nothing in
      the current one, at whatever point it is reconciled; inference, in its place, would while history remembers. */
  lemma NamedModesStayBehind(trace: seq<ValidPrefix>, k: nat, naming: Naming, home: ValidPrefix, held: Address)
    requires k > 0 && Rotating(trace) && home in trace && home.Contains(held) && !naming.Unnamed?
    ensures var current, r := trace[|trace| - 1], After(trace, k, naming, held);
            (exists x :: x in r.all && current.Contains(x)) <==> home == current
  {
    var current, draining := trace[|trace| - 1], Draining(trace, k);
    TrackIsWindow(trace, k);
    StoredWindow(draining, k);
    forall i | 0 <= i < |draining|
      ensures draining[i].bits == current.bits && draining[i].Masked() != current.Masked()
    {
      assert draining[i] in draining;
    }
    NamedModesNeverMove(current, Stored(draining), k, naming, held);
    EqualLengthDisjoint(home, current);
  }

  // ---------------------------------------------------------------- an input

  /** After one rotation a named mode derives nothing in the new prefix, and inference does. */
  lemma OneRotation(p: ValidPrefix, q: ValidPrefix, naming: Naming, held: Address)
    requires p != q && p.bits == q.bits && p == p.Masked() && q == q.Masked() && p.Contains(held) && !naming.Unnamed?
    ensures NoneInside(After([p, q], 2, naming, held).all, q) && q.Contains(After([p, q], 2, Unnamed, held).current)
  {
    var trace := [p, q];
    assert p in trace && q in trace;
    NamedModesStayBehind(trace, 2, naming, p, held);
    JustDisplaced(trace, 2);
    InferenceMovesWithinWindow(trace, 2, p, held);
  }

  /** The pair of suffixes of a small range. */
  const SMALL_RANGE: Naming := ByRange(Some((IPv6(0x10), IPv6(0x20))))

  /** One rotation between any two prefixes of this length, a range that exists in both, and a Service on its first
      address: it goes on asking for addresses outside the new prefix only. */
  lemma StaleAddressIsKept(p: ValidPrefix, q: ValidPrefix)
    requires p.bits == q.bits == 56 && p == p.Masked() && q == q.Masked() && p != q
    ensures p.addr + 0x10 < SPACE && q.addr + 0x10 < SPACE
    ensures NamesAddress(p, SMALL_RANGE, p.addr + 0x10) && NamesAddress(q, SMALL_RANGE, q.addr + 0x10)
    ensures NoneInside(After([p, q], 2, SMALL_RANGE, p.addr + 0x10).all, q)
    ensures q.Contains(After([p, q], 2, Unnamed, p.addr + 0x10).current)
  {
    NamesItsFirst(p);
    NamesItsFirst(q);
    OneRotation(p, q, SMALL_RANGE, p.addr + 0x10);
  }

  lemma NamesItsFirst(p: ValidPrefix)
    requires p.bits == 56 && p == p.Masked()
    ensures p.addr + 0x10 < SPACE && p.Contains(p.addr + 0x10)
    ensures NamesAddress(p, SMALL_RANGE, p.addr + 0x10)
  {
    SmallHost(p, 0x10);
    SmallHost(p, 0x20);
    CombineInside(p, 0x10);
  }

  lemma SmallHost(p: ValidPrefix, v: nat)
    requires p.bits == 56 && p == p.Masked() && v < 0x100
    ensures Combine(p, v) == p.addr + v
  {
    Pow2Of8();
    Pow2Monotone(8, 72);
    ZeroAndSmall(v, 72);
  }
}
