/** CrowdSec allow markers for the trusted prefixes: which prefixes, how many, and a sync in which any call may fail. */
module CrowdSec {
  import opened Addresses
  import opened Rotation

  // ---------------------------------------------------------------- which prefixes

  function Collected(acc: seq<ValidPrefix>, history: seq<HistoryEntry>): seq<ValidPrefix>
    decreases |history|
  {
    if history == [] then acc
    else
      var init, last := history[..|history| - 1], history[|history| - 1];
      Collected(if last.state.Expired? || last.prefix in acc then acc else acc + [last.prefix], init)
  }

  /** The current prefix and then the draining ones, newest first. */
  function Trusted(current: Option<ValidPrefix>, history: seq<HistoryEntry>): seq<ValidPrefix> {
    match current
    case None => []
    case Some(p) => Collected([p], history)
  }

  method CrowdsecTrustedPrefixes(current: Option<ValidPrefix>, history: seq<HistoryEntry>) returns (prefixes: seq<ValidPrefix>)
    ensures prefixes == Trusted(current, history)
    ensures prefixes == [] <==> current == None
  {
    if current.None? {
      return [];
    }
    TrustedMeaning(current.value, history);
    prefixes := [current.value];
    assert history[..|history|] == history;
    for i := |history| downto 0
      invariant Trusted(current, history) == Collected(prefixes, history[..i])
    {
      assert history[..i + 1][..i] == history[..i];
      if history[i].state.Expired? || history[i].prefix in prefixes {
        continue;
      }
      prefixes := prefixes + [history[i].prefix];
    }
  }

  predicate Distinct(ps: seq<ValidPrefix>) {
    forall i, j :: 0 <= i < j < |ps| ==> ps[i] != ps[j]
  }

  lemma {:induction false} CollectedMeaning(acc: seq<ValidPrefix>, history: seq<HistoryEntry>)
    requires Distinct(acc)
    ensures acc <= Collected(acc, history) && Distinct(Collected(acc, history))
    ensures forall p :: p in Collected(acc, history) <==> p in acc || exists e :: e in history && e.prefix == p && !e.state.Expired?
    decreases |history|
  {
    if history != [] {
      var init, last := history[..|history| - 1], history[|history| - 1];
      assert forall e :: e in history <==> e in init || e == last by {
        assert history == init + [last];
      }
      CollectedMeaning(if last.state.Expired? || last.prefix in acc then acc else acc + [last.prefix], init);
    }
  }

  /** Trusted are, without repeats, the current prefix first and every prefix history does not call expired. */
  lemma TrustedMeaning(current: ValidPrefix, history: seq<HistoryEntry>)
    ensures var t := Trusted(Some(current), history);
            && t != [] && t[0] == current && Distinct(t)
            && forall p :: p in t <==> p == current || exists e :: e in history && e.prefix == p && !e.state.Expired?
  {
    CollectedMeaning([current], history);
  }

  function Reversed(ps: seq<ValidPrefix>): seq<ValidPrefix> {
    if ps == [] then [] else [ps[|ps| - 1]] + Reversed(ps[..|ps| - 1])
  }

  lemma {:induction false} CollectedWindow(acc: seq<ValidPrefix>, history: seq<HistoryEntry>)
    requires forall e :: e in history ==> !e.state.Expired?
    requires Distinct(acc + PrefixesOf(history))
    ensures Collected(acc, history) == acc + Reversed(PrefixesOf(history))
    decreases |history|
  {
    if history != [] {
      var n := |history| - 1;
      var init, last := history[..n], history[n];
      PrefixesOfSplit(history, n);
      var all := acc + PrefixesOf(history);
      assert all[|acc| + n] == last.prefix;
      assert forall i :: 0 <= i < |acc| ==> all[i] == acc[i];
      assert last.prefix !in acc;
      var moved := acc + [last.prefix] + PrefixesOf(init);
      forall i, j | 0 <= i < j < |moved|
        ensures moved[i] != moved[j]
      {
        var i' := if i < |acc| then i else if i == |acc| then |acc| + n else i - 1;
        var j' := if j < |acc| then j else if j == |acc| then |acc| + n else j - 1;
        assert moved[i] == all[i'] && moved[j] == all[j'];
      }
      CollectedWindow(acc + [last.prefix], init);
      assert acc + [last.prefix] + Reversed(PrefixesOf(init)) == acc + ([last.prefix] + Reversed(PrefixesOf(init)));
    }
  }

  /** The markers a reconcile wants: at most `max` of the trusted prefixes. */
  function Wanted(current: Option<ValidPrefix>, history: seq<HistoryEntry>, max: nat): seq<ValidPrefix> {
    var t := Trusted(current, history);
    if |t| > max then t[..max] else t
  }

  lemma {:induction false} ReversedTake(ps: seq<ValidPrefix>, k: nat)
    ensures |Reversed(ps)| == |ps|
    ensures (if |ps| > k then Reversed(ps)[..k] else Reversed(ps)) == Reversed(LastOf(ps, k))
  {
    if ps != [] {
      var init, p := ps[..|ps| - 1], ps[|ps| - 1];
      if k == 0 {
        ReversedTake(init, 0);
        assert LastOf(ps, 0) == [];
      } else {
        ReversedTake(init, k - 1);
        assert ps == init + [p];
        LastOfAppend(init, p, k);
        ReversedAppend(LastOf(init, k - 1), p);
        ReversedAppend(init, p);
        if |ps| > k {
          assert ([p] + Reversed(init))[..k] == [p] + Reversed(init)[..k - 1];
        }
      }
    }
  }

  lemma ReversedAppend(ps: seq<ValidPrefix>, p: ValidPrefix)
    ensures Reversed(ps + [p]) == [p] + Reversed(ps)
  {
    assert (ps + [p])[..|ps + [p]| - 1] == ps;
  }

  /** For the history any run of rotations leaves, the cut always keeps the current prefix and the newest draining
      ones, newest first, and drops only the oldest. */
  lemma CapKeepsNewest(trace: seq<ValidPrefix>, k: nat, history: seq<HistoryEntry>, max: nat)
    requires k > 0 && max > 0 && trace != []
    requires PrefixesOf(history) == Track(trace, k).draining && forall e :: e in history ==> !e.state.Expired?
    ensures var current := trace[|trace| - 1];
            Wanted(Some(current), history, max) == [current] + Reversed(LastOf(Recent(Displaced(trace), {current}, k), max - 1))
  {
    var current := trace[|trace| - 1];
    HistoryIsRecentWindow(trace, k);
    WindowInvariant(trace, k);
    CutNewest(current, history, max);
  }

  lemma CutNewest(current: ValidPrefix, history: seq<HistoryEntry>, max: nat)
    requires max > 0 && current !in PrefixesOf(history) && Distinct(PrefixesOf(history))
    requires forall e :: e in history ==> !e.state.Expired?
    ensures Wanted(Some(current), history, max) == [current] + Reversed(LastOf(PrefixesOf(history), max - 1))
  {
    var draining := PrefixesOf(history);
    assert Trusted(Some(current), history) == [current] + Reversed(draining) by {
      DistinctWith(current, draining);
      CollectedWindow([current], history);
    }
    ReversedTake(draining, max - 1);
    assert ([current] + Reversed(draining))[..1] == [current];
    if |draining| + 1 > max {
      assert ([current] + Reversed(draining))[..max] == [current] + Reversed(draining)[..max - 1];
    }
  }

  lemma DistinctWith(p: ValidPrefix, ps: seq<ValidPrefix>)
    requires p !in ps && Distinct(ps)
    ensures Distinct([p] + ps)
  {
    forall i, j | 0 <= i < j < |[p] + ps|
      ensures ([p] + ps)[i] != ([p] + ps)[j]
    {
      assert ([p] + ps)[j] == ps[j - 1];
      if i > 0 {
        assert ([p] + ps)[i] == ps[i - 1];
      }
    }
  }

  // ---------------------------------------------------------------- the sync

  datatype Marker = Marker(value: ValidPrefix, owner: string)

  function ValuesOf(ms: seq<Marker>): set<ValidPrefix> {
    set m | m in ms :: m.value
  }

  function OwnedValues(ms: seq<Marker>, name: string): set<ValidPrefix> {
    set m | m in ms && m.owner == name :: m.value
  }

  /** Every one of these prefixes has an active marker. */
  predicate Covered(ms: seq<Marker>, ps: set<ValidPrefix>) {
    ps <= ValuesOf(ms)
  }

  function Expire(ms: seq<Marker>, p: ValidPrefix): seq<Marker> {
    if ms == [] then []
    else
      var rest, m := Expire(ms[..|ms| - 1], p), ms[|ms| - 1];
      if m.value == p then rest else rest + [m]
  }

  lemma {:induction false} ExpireMeaning(ms: seq<Marker>, p: ValidPrefix)
    ensures forall m :: m in Expire(ms, p) <==> m in ms && m.value != p
    ensures ValuesOf(Expire(ms, p)) == ValuesOf(ms) - {p}
  {
    if ms != [] {
      var n := |ms| - 1;
      ExpireMeaning(ms[..n], p);
      assert ms == ms[..n] + [ms[n]];
    }
  }

  /** What becomes of a call: it answers, or the answer is lost, whether or not the call took effect. */
  datatype Fate = Answered | Lost(applied: bool)

  class LAPI {
    var markers: seq<Marker>
    var fates: seq<Fate>
    /** Calls that may change markers, and the markers after each of them. */
    var writes: nat
    ghost var passed: seq<seq<Marker>>

    constructor (markers: seq<Marker>, fates: seq<Fate>)
      ensures this.markers == markers && this.fates == fates && writes == 0 && passed == []
    {
      this.markers, this.fates, writes, passed := markers, fates, 0, [];
    }

    method Draw() returns (fate: Fate)
      modifies this`fates
    {
      if fates == [] {
        return Answered;
      }
      fate := fates[0];
      fates := fates[1..];
    }

    method ListMarkers() returns (ok: bool, listed: seq<Marker>)
      modifies this`fates
      ensures ok ==> listed == markers
    {
      var fate := Draw();
      return fate.Answered?, markers;
    }

    method CreateMarker(owner: string, p: ValidPrefix) returns (ok: bool)
      modifies this
      ensures markers == old(markers) || markers == old(markers) + [Marker(p, owner)]
      ensures ok ==> markers == old(markers) + [Marker(p, owner)]
      ensures writes == old(writes) + 1 && passed == old(passed) + [markers]
    {
      var fate := Draw();
      if fate.Answered? || fate.applied {
        markers := markers + [Marker(p, owner)];
      }
      writes, passed := writes + 1, passed + [markers];
      return fate.Answered?;
    }

    method DeleteMarker(p: ValidPrefix) returns (ok: bool)
      modifies this
      ensures markers == old(markers) || markers == Expire(old(markers), p)
      ensures ok ==> markers == Expire(old(markers), p)
      ensures writes == old(writes) + 1 && passed == old(passed) + [markers]
    {
      var fate := Draw();
      if fate.Answered? || fate.applied {
        markers := Expire(markers, p);
      }
      writes, passed := writes + 1, passed + [markers];
      return fate.Answered?;
    }
  }

  /** Either everything this owner had marked still is, or everything wanted is. */
  predicate NeverBare(ms: seq<Marker>, had: set<ValidPrefix>, wanted: set<ValidPrefix>) {
    Covered(ms, had) || Covered(ms, wanted)
  }

  predicate InSync(ms: seq<Marker>, name: string, wanted: set<ValidPrefix>) {
    Covered(ms, wanted) && OwnedValues(ms, name) <= wanted
  }

  lemma ValuesAppend(ms: seq<Marker>, m: Marker)
    ensures ValuesOf(ms + [m]) == ValuesOf(ms) + {m.value}
    ensures forall name :: OwnedValues(ms + [m], name) == OwnedValues(ms, name) + (if m.owner == name then {m.value} else {})
  {
    assert forall x :: x in ms + [m] <==> x in ms || x == m;
  }

  function SetOf(ps: seq<ValidPrefix>): set<ValidPrefix> {
    set p | p in ps
  }

  lemma SetOfAppend(ps: seq<ValidPrefix>, p: ValidPrefix)
    ensures SetOf(ps + [p]) == SetOf(ps) + {p}
  {
  }

  /** The values a listing shows, and, without repeats, those of one owner. */
  method Survey(listed: seq<Marker>, name: string) returns (present: set<ValidPrefix>, owned: seq<ValidPrefix>)
    ensures present == ValuesOf(listed) && SetOf(owned) == OwnedValues(listed, name)
  {
    present, owned := {}, [];
    for i := 0 to |listed|
      invariant present == ValuesOf(listed[..i]) && SetOf(owned) == OwnedValues(listed[..i], name)
    {
      assert listed[..i + 1] == listed[..i] + [listed[i]];
      ValuesAppend(listed[..i], listed[i]);
      present := present + {listed[i].value};
      if listed[i].owner == name && listed[i].value !in owned {
        SetOfAppend(owned, listed[i].value);
        owned := owned + [listed[i].value];
      }
    }
    assert listed[..|listed|] == listed;
  }

  /** Creates a marker for each desired prefix not present, stopping at the first failure. */
  method CreateMissing(lapi: LAPI, name: string, desired: seq<ValidPrefix>, present: set<ValidPrefix>) returns (ok: bool)
    requires present == ValuesOf(lapi.markers)
    modifies lapi
    ensures |lapi.passed| >= |old(lapi.passed)| && lapi.passed[..|old(lapi.passed)|] == old(lapi.passed)
    ensures forall i :: |old(lapi.passed)| <= i < |lapi.passed| ==> Covered(lapi.passed[i], present)
    ensures Covered(lapi.markers, present)
    ensures ok ==> ValuesOf(lapi.markers) == present + SetOf(desired)
    ensures ok ==> OwnedValues(old(lapi.markers), name) <= OwnedValues(lapi.markers, name) <= OwnedValues(old(lapi.markers), name) + SetOf(desired)
    ensures ok ==> forall m :: m in lapi.markers <==> m in old(lapi.markers) || (m.owner == name && m.value in desired && m.value !in present)
    ensures SetOf(desired) <= present ==> ok && lapi.markers == old(lapi.markers) && lapi.writes == old(lapi.writes) && lapi.passed == old(lapi.passed)
  {
    ghost var before, done := lapi.markers, lapi.passed;
    for i := 0 to |desired|
      invariant |lapi.passed| >= |done| && lapi.passed[..|done|] == done
      invariant forall j :: |done| <= j < |lapi.passed| ==> Covered(lapi.passed[j], present)
      invariant ValuesOf(lapi.markers) == present + SetOf(desired[..i])
      invariant OwnedValues(before, name) <= OwnedValues(lapi.markers, name) <= OwnedValues(before, name) + SetOf(desired[..i])
      invariant forall m :: m in lapi.markers <==> m in before || (m.owner == name && m.value in desired[..i] && m.value !in present)
      invariant SetOf(desired) <= present ==> lapi.markers == before && lapi.writes == old(lapi.writes) && lapi.passed == done
    {
      assert desired[..i + 1] == desired[..i] + [desired[i]];
      SetOfAppend(desired[..i], desired[i]);
      if desired[i] in present {
        continue;
      }
      assert desired[i] in SetOf(desired);
      ValuesAppend(lapi.markers, Marker(desired[i], name));
      var created := lapi.CreateMarker(name, desired[i]);
      if !created {
        return false;
      }
    }
    assert desired[..|desired|] == desired;
    return true;
  }

  lemma ExpireOwned(ms: seq<Marker>, p: ValidPrefix, name: string)
    ensures OwnedValues(Expire(ms, p), name) == OwnedValues(ms, name) - {p}
  {
    ExpireMeaning(ms, p);
  }

  /** Expires each owned value that is not desired, stopping at the first failure. */
  method ExpireObsolete(lapi: LAPI, name: string, owned: seq<ValidPrefix>, desired: seq<ValidPrefix>) returns (ok: bool)
    requires Covered(lapi.markers, SetOf(desired))
    modifies lapi
    ensures |lapi.passed| >= |old(lapi.passed)| && lapi.passed[..|old(lapi.passed)|] == old(lapi.passed)
    ensures forall i :: |old(lapi.passed)| <= i < |lapi.passed| ==> Covered(lapi.passed[i], SetOf(desired))
    ensures Covered(lapi.markers, SetOf(desired))
    ensures ok ==> ValuesOf(lapi.markers) == ValuesOf(old(lapi.markers)) - (SetOf(owned) - SetOf(desired))
    ensures ok ==> OwnedValues(lapi.markers, name) == OwnedValues(old(lapi.markers), name) - (SetOf(owned) - SetOf(desired))
    ensures ok ==> forall m :: m in lapi.markers <==> m in old(lapi.markers) && (m.value in owned ==> m.value in desired)
    ensures SetOf(owned) <= SetOf(desired) ==> ok && lapi.markers == old(lapi.markers) && lapi.writes == old(lapi.writes) && lapi.passed == old(lapi.passed)
  {
    ghost var before, done := lapi.markers, lapi.passed;
    for i := 0 to |owned|
      invariant |lapi.passed| >= |done| && lapi.passed[..|done|] == done
      invariant forall j :: |done| <= j < |lapi.passed| ==> Covered(lapi.passed[j], SetOf(desired))
      invariant Covered(lapi.markers, SetOf(desired))
      invariant ValuesOf(lapi.markers) == ValuesOf(before) - (SetOf(owned[..i]) - SetOf(desired))
      invariant OwnedValues(lapi.markers, name) == OwnedValues(before, name) - (SetOf(owned[..i]) - SetOf(desired))
      invariant forall m :: m in lapi.markers <==> m in before && (m.value in owned[..i] ==> m.value in desired)
      invariant SetOf(owned) <= SetOf(desired) ==> lapi.markers == before && lapi.writes == old(lapi.writes) && lapi.passed == done
    {
      assert owned[..i + 1] == owned[..i] + [owned[i]];
      SetOfAppend(owned[..i], owned[i]);
      if owned[i] in desired {
        continue;
      }
      assert owned[i] in SetOf(owned);
      ExpireMeaning(lapi.markers, owned[i]);
      ExpireOwned(lapi.markers, owned[i], name);
      var deleted := lapi.DeleteMarker(owned[i]);
      if !deleted {
        return false;
      }
    }
    assert owned[..|owned|] == owned;
    return true;
  }

  /** The values a sync expires: marked for this owner and no longer wanted. */
  function ObsoleteValues(ms: seq<Marker>, name: string, desired: seq<ValidPrefix>): set<ValidPrefix> {
    OwnedValues(ms, name) - SetOf(desired)
  }

  /** The markers a successful sync leaves: what was there without the obsolete values, and this owner's new ones. */
  ghost predicate Synced(before: seq<Marker>, after: seq<Marker>, name: string, desired: seq<ValidPrefix>) {
    forall m :: m in after <==>
      || (m in before && m.value !in ObsoleteValues(before, name, desired))
      || (m.owner == name && m.value in desired && m.value !in ValuesOf(before))
  }

  /** Another owner's markers all survive exactly when none of them is for a value this owner has given up: expiring a
      value takes it from everyone. */
  lemma OthersSurvive(before: seq<Marker>, after: seq<Marker>, name: string, desired: seq<ValidPrefix>)
    requires Synced(before, after, name, desired)
    ensures (forall m :: m in before && m.owner != name ==> m in after)
       <==> (forall m :: m in before && m.owner != name ==> m.value !in ObsoleteValues(before, name, desired))
  {
    forall m | m in before && m.owner != name
      ensures m in after <==> m.value !in ObsoleteValues(before, name, desired)
    {
      assert m.value in ValuesOf(before);
    }
  }

  /** Creates what is missing, then expires what is obsolete; a call that fails stops the sync there. At every point
      either all this owner had marked or all it wants is marked. Success leaves everything wanted marked and nothing
      unwanted of this owner, and a sync that finds that already so writes nothing. */
  method Sync(lapi: LAPI, name: string, desired: seq<ValidPrefix>) returns (ok: bool)
    modifies lapi
    ensures |lapi.passed| >= |old(lapi.passed)| && lapi.passed[..|old(lapi.passed)|] == old(lapi.passed)
    ensures forall i :: |old(lapi.passed)| <= i < |lapi.passed| ==> NeverBare(lapi.passed[i], OwnedValues(old(lapi.markers), name), SetOf(desired))
    ensures NeverBare(lapi.markers, OwnedValues(old(lapi.markers), name), SetOf(desired))
    ensures ok ==> Synced(old(lapi.markers), lapi.markers, name, desired)
    ensures ok ==> InSync(lapi.markers, name, SetOf(desired))
    ensures ok ==> ValuesOf(lapi.markers) == ValuesOf(old(lapi.markers)) + SetOf(desired) - (OwnedValues(old(lapi.markers), name) - SetOf(desired))
    ensures InSync(old(lapi.markers), name, SetOf(desired)) ==> lapi.writes == old(lapi.writes) && lapi.markers == old(lapi.markers)
  {
    ghost var had := OwnedValues(lapi.markers, name);
    var listed, markers := lapi.ListMarkers();
    if !listed {
      return false;
    }
    ghost var before := lapi.markers;
    var present, owned := Survey(markers, name);
    assert forall p :: p in owned <==> p in OwnedValues(before, name) by {
      assert forall p :: p in owned <==> p in SetOf(owned);
    }
    var created := CreateMissing(lapi, name, desired, present);
    assert had <= present;
    if !created {
      return false;
    }
    ok := ExpireObsolete(lapi, name, owned, desired);
  }
}
