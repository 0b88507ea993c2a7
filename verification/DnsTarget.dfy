/** The external-dns target: the one annotation that follows the address instead of leading it. */
module DnsTarget {
  import opened Addresses
  import opened Text
  import opened Ownership
  import opened OwnedList
  import opened PoolBackends
  import opened Dedup
  import opened ServiceSync

  const KNOWN: seq<Key> := [TargetAlpha, TargetNew]

  /** The keys targets are published under: at least one, none of them the operator's other annotations. */
  predicate TargetKeys(keys: seq<Key>) {
    keys != [] && forall k :: k in keys ==> k.TargetAlpha? || k.TargetNew? || k.Other?
  }

  function Releasable(configured: seq<Key>): seq<Key> {
    (if TargetAlpha in configured then [] else [TargetAlpha]) + (if TargetNew in configured then [] else [TargetNew])
  }

  /** The value of the first key present. */
  function FirstValue(a: Annotations, keys: seq<Key>): string {
    if keys == [] then "" else if keys[0] in a then a[keys[0]] else FirstValue(a, keys[1..])
  }

  /** The i-th key is the first of them the Service carries. */
  predicate FirstPresent(a: Annotations, keys: seq<Key>, i: nat) {
    i < |keys| && keys[i] in a && forall j :: 0 <= j < i ==> keys[j] !in a
  }

  /** The value is that of the first key present, wherever it stands among them, and blank when none is. */
  lemma {:induction false} FirstValueMeaning(a: Annotations, keys: seq<Key>)
    ensures forall i: nat :: FirstPresent(a, keys, i) ==> FirstValue(a, keys) == a[keys[i]]
    ensures (exists i: nat :: FirstPresent(a, keys, i)) || ((forall k :: k in keys ==> k !in a) && FirstValue(a, keys) == "")
  {
    if keys != [] {
      FirstValueMeaning(a, keys[1..]);
      forall i: nat | FirstPresent(a, keys, i) && i > 0
        ensures FirstPresent(a, keys[1..], i - 1)
      {
        assert forall j :: 0 <= j < i - 1 ==> keys[1..][j] == keys[j + 1];
      }
      if keys[0] in a {
        assert FirstPresent(a, keys, 0);
      } else if i: nat :| FirstPresent(a, keys[1..], i) {
        assert forall j :: 0 < j < i + 1 ==> keys[j] == keys[1..][j - 1];
        assert FirstPresent(a, keys, i + 1);
      }
    }
  }

  predicate AllEqual(a: Annotations, keys: seq<Key>, want: string) {
    forall k :: k in keys ==> Get(a, k) == want
  }

  /** The map with one value under all the keys. */
  function WriteAll(a: Annotations, keys: seq<Key>, text: string): Annotations {
    if keys == [] then a else WriteAll(a, keys[..|keys| - 1], text)[keys[|keys| - 1] := text]
  }

  lemma {:induction false} WriteAllMeaning(a: Annotations, keys: seq<Key>, text: string)
    ensures forall k :: Lookup(WriteAll(a, keys, text), k) == if k in keys then Some(text) else Lookup(a, k)
  {
    if keys != [] {
      WriteAllMeaning(a, keys[..|keys| - 1], text);
      assert keys == keys[..|keys| - 1] + [keys[|keys| - 1]];
    }
  }

  /** How to tell what stays of an annotation once the operator's entries are out of it. */
  datatype Keep = Keep(canon: Canon, net: Netip, managed: seq<ValidPrefix>, rec: Record) {
    function Of(text: string): string {
      Join(Preserve(canon, net, managed, rec, text))
    }
  }

  /** Each of `keys` that the Service carries is replaced by what `keep` leaves of it, or removed. */
  function HandBackKeys(keep: Keep, a: Annotations, result: Annotations, keys: seq<Key>): Annotations {
    if keys == [] then result
    else
      var before, key := HandBackKeys(keep, a, result, keys[..|keys| - 1]), keys[|keys| - 1];
      if key in a then PutOrDelete(before, key, keep.Of(a[key])) else before
  }

  lemma PutOrDeleteMeaning(a: Annotations, key: Key, text: string)
    ensures Get(PutOrDelete(a, key, text), key) == text
    ensures forall k :: k != key ==> Lookup(PutOrDelete(a, key, text), k) == Lookup(a, k)
  {
  }

  lemma {:induction false} HandBackKeysMeaning(keep: Keep, a: Annotations, result: Annotations, keys: seq<Key>)
    ensures forall k :: k !in keys || k !in a ==> Lookup(HandBackKeys(keep, a, result, keys), k) == Lookup(result, k)
    ensures forall k :: k in keys && k in a ==> Get(HandBackKeys(keep, a, result, keys), k) == keep.Of(a[k])
  {
    if keys != [] {
      var n := |keys| - 1;
      HandBackKeysMeaning(keep, a, result, keys[..n]);
      assert forall k :: k in keys <==> k in keys[..n] || k == keys[n] by {
        assert keys == keys[..n] + [keys[n]];
      }
      PutOrDeleteMeaning(HandBackKeys(keep, a, result, keys[..n]), keys[n], if keys[n] in a then keep.Of(a[keys[n]]) else "");
    }
  }

  // ---------------------------------------------------------------- one pass

  /** The target may move: the current address is assigned, or nothing is. */
  predicate Ready(current: string, listed: seq<string>) {
    listed == [] || current in listed
  }

  /** What a target pass works from. */
  datatype Pass = Pass(current: string, listed: seq<string>, managed: seq<ValidPrefix>)

  function Preserved(canon: Canon, net: Netip, keys: seq<Key>, a: Annotations, p: Pass): seq<string> {
    Preserve(canon, net, p.managed, TargetRecord(canon, a), FirstValue(a, keys))
  }

  function FinalTarget(canon: Canon, preserved: seq<string>, current: string): string {
    Join(Deduped(canon, preserved + [current]))
  }

  /** Moves the target when it may move, and the record along with it. */
  function Moved(a: Annotations, released: Annotations, keys: seq<Key>, final: string, ready: bool, recorded: string): Annotations {
    var moved := if !AllEqual(a, keys, final) && ready then WriteAll(released, keys, final) else released;
    if AllEqual(moved, keys, final) && Get(a, ManagedTargets) != recorded then moved[ManagedTargets := recorded] else moved
  }

  /** The annotations after publishing; `result` is what the pass has written to other keys so far. */
  function Published(canon: Canon, net: Netip, keys: seq<Key>, a: Annotations, result: Annotations, p: Pass): Annotations {
    var preserved := Preserved(canon, net, keys, a, p);
    Moved(a, HandBackKeys(Keep(canon, net, p.managed, TargetRecord(canon, a)), a, result, Releasable(keys)), keys,
          FinalTarget(canon, preserved, p.current), Ready(p.current, p.listed),
          FormatOwnershipRecord(Claimed(canon, [p.current], preserved)))
  }

  predicate AnyPresent(a: Annotations, keys: seq<Key>) {
    exists k :: k in keys && k in a
  }

  lemma AnyPresentNext(a: Annotations, keys: seq<Key>, key: Key)
    ensures AnyPresent(a, keys + [key]) <==> AnyPresent(a, keys) || key in a
  {
    assert forall k :: k in keys + [key] <==> k in keys || k == key;
  }

  /** Whether moving the target changes anything: it moves, or stands where it should and the record says otherwise. */
  predicate MoveChanges(a: Annotations, released: Annotations, keys: seq<Key>, final: string, ready: bool, recorded: string) {
    (!AllEqual(a, keys, final) && ready) || (AllEqual(released, keys, final) && Get(a, ManagedTargets) != recorded)
  }

  /** Whether the target part of a pass reports a change: a deconfigured key was there, or the target or its record moved. */
  predicate TargetChanged(canon: Canon, net: Netip, keys: seq<Key>, a: Annotations, result: Annotations, p: Pass) {
    var preserved := Preserved(canon, net, keys, a, p);
    || AnyPresent(a, Releasable(keys))
    || MoveChanges(a, HandBackKeys(Keep(canon, net, p.managed, TargetRecord(canon, a)), a, result, Releasable(keys)), keys,
                   FinalTarget(canon, preserved, p.current), Ready(p.current, p.listed),
                   FormatOwnershipRecord(Claimed(canon, [p.current], preserved)))
  }

  function OptOutKeys(keep: Keep, a: Annotations, result: Annotations, keys: seq<Key>): Annotations {
    if keys == [] then result
    else
      var before, key := OptOutKeys(keep, a, result, keys[..|keys| - 1]), keys[|keys| - 1];
      if key in a && a[key] != keep.Of(a[key]) then PutOrDelete(before, key, keep.Of(a[key])) else before
  }

  lemma {:induction false} OptOutKeysMeaning(keep: Keep, a: Annotations, result: Annotations, keys: seq<Key>)
    ensures forall k :: k !in keys ==> Lookup(OptOutKeys(keep, a, result, keys), k) == Lookup(result, k)
    ensures forall k :: k in keys && k in a && a[k] != keep.Of(a[k]) ==> Get(OptOutKeys(keep, a, result, keys), k) == keep.Of(a[k])
    ensures forall k :: k in keys && (k !in a || a[k] == keep.Of(a[k])) ==> Lookup(OptOutKeys(keep, a, result, keys), k) == Lookup(result, k)
  {
    if keys != [] {
      var n := |keys| - 1;
      OptOutKeysMeaning(keep, a, result, keys[..n]);
      assert forall k :: k in keys <==> k in keys[..n] || k == keys[n] by {
        assert keys == keys[..n] + [keys[n]];
      }
      PutOrDeleteMeaning(OptOutKeys(keep, a, result, keys[..n]), keys[n], if keys[n] in a then keep.Of(a[keys[n]]) else "");
    }
  }

  /** The annotations after an opt-out: every known key is handed back, and the record goes. */
  function OptedOut(canon: Canon, net: Netip, managed: seq<ValidPrefix>, a: Annotations, result: Annotations): Annotations {
    if ManagedTargets !in a then result
    else OptOutKeys(Keep(canon, net, managed, TargetRecord(canon, a)), a, result, KNOWN) - {ManagedTargets}
  }

  method FirstAnnotationValue(a: Annotations, keys: seq<Key>) returns (value: string)
    ensures value == FirstValue(a, keys)
    ensures forall i: nat :: FirstPresent(a, keys, i) ==> value == a[keys[i]]
    ensures (forall k :: k in keys ==> k !in a) ==> value == ""
  {
    FirstValueMeaning(a, keys);
    for i := 0 to |keys|
      invariant FirstValue(a, keys) == FirstValue(a, keys[i..])
    {
      if keys[i] in a {
        return a[keys[i]];
      }
    }
    return "";
  }

  method AllAnnotationsEqual(a: Annotations, keys: seq<Key>, want: string) returns (all: bool)
    ensures all <==> AllEqual(a, keys, want)
  {
    for i := 0 to |keys|
      invariant AllEqual(a, keys[..i], want)
    {
      if Get(a, keys[i]) != want {
        return false;
      }
    }
    assert keys[..|keys|] == keys;
    return true;
  }

  method ReleaseDeconfigured(canon: Canon, net: Netip, managed: seq<ValidPrefix>, rec: Record, annotations: Annotations, newAnnotations: Annotations,
                             releasable: seq<Key>)
    returns (result: Annotations, updated: bool)
    ensures result == HandBackKeys(Keep(canon, net, managed, rec), annotations, newAnnotations, releasable)
    ensures updated <==> AnyPresent(annotations, releasable)
    ensures !updated ==> result == newAnnotations
  {
    result, updated := newAnnotations, false;
    for i := 0 to |releasable|
      invariant result == HandBackKeys(Keep(canon, net, managed, rec), annotations, newAnnotations, releasable[..i])
      invariant updated <==> AnyPresent(annotations, releasable[..i])
      invariant !updated ==> result == newAnnotations
    {
      assert releasable[..i + 1][..i] == releasable[..i];
      var key := releasable[i];
      AnyPresentNext(annotations, releasable[..i], key);
      assert releasable[..i + 1] == releasable[..i] + [key];
      if key in annotations {
        var kept := PreserveUnownedIPs(canon, net, managed, rec, annotations[key]);
        result, updated := PutOrDelete(result, key, Join(kept)), true;
      }
    }
    assert releasable[..|releasable|] == releasable;
  }

  method MoveTarget(annotations: Annotations, released: Annotations, keys: seq<Key>, final: string, ready: bool, recorded: string)
    returns (result: Annotations, deferred: bool, updated: bool)
    ensures result == Moved(annotations, released, keys, final, ready, recorded)
    ensures deferred <==> !ready && !AllEqual(annotations, keys, final)
    ensures updated <==> MoveChanges(annotations, released, keys, final, ready, recorded)
    ensures !updated ==> result == released
  {
    result, deferred, updated := released, false, false;
    var settled := AllAnnotationsEqual(annotations, keys, final);
    if settled {
    } else if ready {
      for i := 0 to |keys|
        invariant result == WriteAll(released, keys[..i], final)
      {
        assert keys[..i + 1][..i] == keys[..i];
        result := result[keys[i] := final];
      }
      assert keys[..|keys|] == keys;
      WriteAllMeaning(released, keys, final);
      updated := true;
    } else {
      deferred := true;
    }
    var published := AllAnnotationsEqual(result, keys, final);
    if published && Get(annotations, ManagedTargets) != recorded {
      result, updated := result[ManagedTargets := recorded], true;
    }
  }

  method OptOut(canon: Canon, net: Netip, managed: seq<ValidPrefix>, annotations: Annotations, newAnnotations: Annotations)
    returns (result: Annotations, updated: bool)
    ensures result == OptedOut(canon, net, managed, annotations, newAnnotations)
    ensures updated <==> ManagedTargets in annotations
  {
    if ManagedTargets !in annotations {
      return newAnnotations, false;
    }
    var rec := ParseOwnershipRecord(canon, Lookup(annotations, ManagedTargets));
    result := OptOutEach(canon, net, managed, rec, annotations, newAnnotations, KNOWN);
    return result - {ManagedTargets}, true;
  }

  method OptOutEach(canon: Canon, net: Netip, managed: seq<ValidPrefix>, rec: Record, annotations: Annotations,
                    newAnnotations: Annotations, keys: seq<Key>)
    returns (result: Annotations)
    ensures result == OptOutKeys(Keep(canon, net, managed, rec), annotations, newAnnotations, keys)
  {
    result := newAnnotations;
    for i := 0 to |keys|
      invariant result == OptOutKeys(Keep(canon, net, managed, rec), annotations, newAnnotations, keys[..i])
    {
      assert keys[..i + 1][..i] == keys[..i];
      if keys[i] in annotations {
        var released := PreserveUnownedIPs(canon, net, managed, rec, annotations[keys[i]]);
        if annotations[keys[i]] != Join(released) {
          result := PutOrDelete(result, keys[i], Join(released));
        }
      }
    }
    assert keys[..|keys|] == keys;
  }

  /** Decides the target annotation and its record, and whether the target was withheld. */
  method SyncExternalDNSTarget(canon: Canon, net: Netip, keys: seq<Key>, annotations: Annotations, newAnnotations: Annotations, p: Pass, skip: bool)
    returns (result: Annotations, deferred: bool, updated: bool)
    ensures !skip ==> result == Published(canon, net, keys, annotations, newAnnotations, p)
    ensures skip ==> result == OptedOut(canon, net, p.managed, annotations, newAnnotations)
    ensures deferred <==> !skip && !Ready(p.current, p.listed)
                          && !AllEqual(annotations, keys, FinalTarget(canon, Preserved(canon, net, keys, annotations, p), p.current))
    ensures updated <==> if skip then ManagedTargets in annotations else TargetChanged(canon, net, keys, annotations, newAnnotations, p)
    ensures !updated ==> result == newAnnotations
  {
    if skip {
      result, updated := OptOut(canon, net, p.managed, annotations, newAnnotations);
      deferred := false;
      return;
    }
    var rec := ParseOwnershipRecord(canon, Lookup(annotations, ManagedTargets));
    var released, dropped := ReleaseDeconfigured(canon, net, p.managed, rec, annotations, newAnnotations, Releasable(keys));
    var existing := FirstAnnotationValue(annotations, keys);
    var preserved := PreserveUnownedIPs(canon, net, p.managed, rec, existing);
    var finals := DedupePreservingOrder(canon, preserved + [p.current]);
    var claimed := ExcludePinned(canon, [p.current], preserved);
    var moved: bool;
    result, deferred, moved := MoveTarget(annotations, released, keys, Join(finals), |p.listed| == 0 || p.current in p.listed, FormatOwnershipRecord(claimed));
    updated := dropped || moved;
  }

  /** The rest of the pass leaves the target annotations alone. */
  predicate SameTargets(keys: seq<Key>, a: Annotations, b: Annotations) {
    forall k :: k in keys + KNOWN + [ManagedTargets] ==> Lookup(a, k) == Lookup(b, k)
  }

  lemma WroteElsewhere(a: Annotations, field: Key, text: string, abandoned: string, recorded: string, k: Key)
    requires IsField(field) && !IsField(k) && k != ManagedIPs
    ensures Lookup(Wrote(a, field, text, abandoned, recorded), k) == Lookup(a, k)
  {
  }

  /** Address fields and targets do not touch each other. */
  lemma AddressPassKeepsTargets(canon: Canon, net: Netip, managed: seq<ValidPrefix>, a: Annotations, all: seq<string>, field: Key, keys: seq<Key>)
    requires TargetKeys(keys) && IsField(field)
    ensures SameTargets(keys, a, AddressesPassed(canon, net, managed, a, all, field))
  {
    var preserved := Preserve(canon, net, managed, IPRecord(canon, a), Get(a, field));
    var text, recorded := Join(Deduped(canon, preserved + all)), FormatOwnershipRecord(Claimed(canon, all, preserved));
    var abandoned := Join(Preserve(canon, net, managed, IPRecord(canon, a), Get(a, OtherField(field))));
    OnlyTargets(keys);
    WroteKeepsTargets(keys, a, field, text, abandoned, recorded);
  }

  lemma OnlyTargets(keys: seq<Key>)
    requires TargetKeys(keys)
    ensures forall k :: k in keys + KNOWN + [ManagedTargets] ==> !IsField(k) && k != ManagedIPs
  {
  }

  lemma WroteKeepsTargets(keys: seq<Key>, a: Annotations, field: Key, text: string, abandoned: string, recorded: string)
    requires IsField(field) && forall k :: k in keys + KNOWN + [ManagedTargets] ==> !IsField(k) && k != ManagedIPs
    ensures SameTargets(keys, a, Wrote(a, field, text, abandoned, recorded))
  {
    forall k | k in keys + KNOWN + [ManagedTargets]
      ensures Lookup(a, k) == Lookup(Wrote(a, field, text, abandoned, recorded), k)
    {
      WroteElsewhere(a, field, text, abandoned, recorded, k);
    }
  }

  /** A configured key changes only to the final target and only when the target may move; the record says what the
      operator has published, moves in the same write, and stays where the target is withheld. */
  lemma MovedMeaning(a: Annotations, released: Annotations, keys: seq<Key>, final: string, ready: bool, recorded: string)
    requires TargetKeys(keys)
    requires forall k :: k in keys + [ManagedTargets] ==> Lookup(released, k) == Lookup(a, k)
    ensures var t := Moved(a, released, keys, final, ready, recorded);
            && (forall k :: k in keys ==> Lookup(t, k) == Lookup(a, k) || (ready && Get(t, k) == final))
            && (AllEqual(t, keys, final) <==> AllEqual(a, keys, final) || ready)
            && (AllEqual(t, keys, final) ==> Get(t, ManagedTargets) == recorded && (ManagedTargets in t <==> ManagedTargets in a || recorded != ""))
            && (!AllEqual(t, keys, final) ==> Lookup(t, ManagedTargets) == Lookup(a, ManagedTargets))
            && (AllEqual(a, keys, final) || !ready ==> forall k :: k in keys ==> Lookup(t, k) == Lookup(a, k))
  {
    WriteAllMeaning(released, keys, final);
  }

  lemma TargetFollowsAddress(canon: Canon, net: Netip, keys: seq<Key>, a: Annotations, result: Annotations, p: Pass)
    requires TargetKeys(keys) && SameTargets(keys, a, result)
    ensures var t, preserved := Published(canon, net, keys, a, result, p), Preserved(canon, net, keys, a, p);
            var final, recorded := FinalTarget(canon, preserved, p.current), Join(Claimed(canon, [p.current], preserved));
            && (forall k :: k in keys ==> Lookup(t, k) == Lookup(a, k) || (Ready(p.current, p.listed) && Get(t, k) == final))
            && (AllEqual(t, keys, final) <==> AllEqual(a, keys, final) || Ready(p.current, p.listed))
            && (AllEqual(t, keys, final) ==> Get(t, ManagedTargets) == recorded && (ManagedTargets in t <==> ManagedTargets in a || recorded != ""))
            && (!AllEqual(t, keys, final) ==> Lookup(t, ManagedTargets) == Lookup(a, ManagedTargets))
            && (AllEqual(a, keys, final) || !Ready(p.current, p.listed) ==> forall k :: k in keys ==> Lookup(t, k) == Lookup(a, k))
  {
    var preserved := Preserved(canon, net, keys, a, p);
    var keep := Keep(canon, net, p.managed, TargetRecord(canon, a));
    var released := HandBackKeys(keep, a, result, Releasable(keys));
    HandBackKeysMeaning(keep, a, result, Releasable(keys));
    forall k | k in keys + [ManagedTargets]
      ensures Lookup(released, k) == Lookup(a, k)
    {
      assert k !in Releasable(keys);
    }
    MovedMeaning(a, released, keys, FinalTarget(canon, preserved, p.current), Ready(p.current, p.listed), Join(Claimed(canon, [p.current], preserved)));
  }

  // ---------------------------------------------------------------- what is published

  /** With a record, or a fallback that claims nothing of what is there. */
  ghost predicate GroundedTarget(canon: Canon, net: Netip, keys: seq<Key>, a: Annotations, managed: seq<ValidPrefix>) {
    GroundedText(net, managed, TargetRecord(canon, a), FirstValue(a, keys))
  }

  /** The target the Service carries, under the first configured key it has, lists these entries. */
  ghost predicate Lists(a: Annotations, keys: seq<Key>, es: seq<string>) {
    || (exists i: nat :: FirstPresent(a, keys, i) && Entries(a[keys[i]]) == es)
    || ((forall k :: k in keys ==> k !in a) && es == [])
  }

  lemma ListsFirst(a: Annotations, keys: seq<Key>, es: seq<string>)
    ensures Lists(a, keys, es) <==> Entries(FirstValue(a, keys)) == es
  {
    FirstValueMeaning(a, keys);
    assert Entries("") == [];
    if forall k :: k in keys ==> k !in a {
      assert forall i: nat :: i < |keys| ==> keys[i] in keys;
      assert forall i: nat :: !FirstPresent(a, keys, i);
    }
  }

  /** The user's entries are `own` and the operator has published `address`, or nothing yet. */
  ghost predicate Shows(canon: Canon, keys: seq<Key>, own: seq<string>, address: Option<string>, a: Annotations) {
    match address
    case None => Lists(a, keys, own) && forall e :: e in own ==> !Recorded(Plain(canon), TargetRecord(canon, a), e)
    case Some(x) =>
      && Recordable(canon, x)
      && AllEqual(a, keys, FinalTarget(canon, own, x))
      && Get(a, ManagedTargets) == Join(Claimed(canon, [x], own))
      && (Claimed(canon, [x], own) != [] ==> ManagedTargets in a)
  }

  /** A Service nobody has given a target yet shows nothing, and a pass may start from it. */
  lemma FreshServiceShows(canon: Canon, net: Netip, keys: seq<Key>, a: Annotations, managed: seq<ValidPrefix>)
    requires forall k :: k in keys + [ManagedTargets] ==> k !in a
    ensures Shows(canon, keys, [], None, a) && GroundedTarget(canon, net, keys, a, managed)
  {
    assert forall k :: k in keys ==> k in keys + [ManagedTargets];
    NonePresent(a, keys);
    assert TargetRecord(canon, a) == Absent by {
      assert ManagedTargets in keys + [ManagedTargets];
    }
  }

  lemma NonePresent(a: Annotations, keys: seq<Key>)
    requires forall k :: k in keys ==> k !in a
    ensures Lists(a, keys, []) && Entries(FirstValue(a, keys)) == []
  {
    ListsFirst(a, keys, []);
  }

  lemma {:induction false} FirstOfEqual(a: Annotations, keys: seq<Key>, want: string)
    requires keys != [] && AllEqual(a, keys, want) && want != ""
    ensures FirstValue(a, keys) == want
  {
    assert keys[0] in keys;
  }

  lemma {:induction false} FirstUnchanged(a: Annotations, b: Annotations, keys: seq<Key>)
    requires SameValues(a, b, keys)
    ensures FirstValue(a, keys) == FirstValue(b, keys)
  {
    if keys != [] {
      assert keys[0] in keys;
      FirstUnchanged(a, b, keys[1..]);
    }
  }

  lemma ListsUnchanged(a: Annotations, b: Annotations, keys: seq<Key>, es: seq<string>)
    requires SameValues(a, b, keys)
    ensures Lists(a, keys, es) <==> Lists(b, keys, es)
  {
    ListsFirst(a, keys, es);
    ListsFirst(b, keys, es);
    FirstUnchanged(a, b, keys);
  }

  lemma FinalTargetReads(canon: Canon, own: seq<string>, x: string)
    requires AllClean(own) && Recordable(canon, x)
    ensures Entries(FinalTarget(canon, own, x)) == Deduped(canon, own + [x]) && FinalTarget(canon, own, x) != ""
  {
    var es := own + [x];
    assert AllClean(es);
    DedupedClean(canon, es);
    EntriesOfJoin(Deduped(canon, es));
    DedupedMeaning(canon, es);
    assert es[|own|] == x;
    assert canon(x) in KeySet(canon, es);
    JoinBlank(Deduped(canon, es));
  }

  /** One address is claimed unless the user has it. */
  lemma ClaimOfOne(canon: Canon, own: seq<string>, x: string)
    requires AllClean(own) && Recordable(canon, x)
    ensures Claimed(canon, [x], own) == if x in KeySet(canon, own) then [] else [x]
  {
    var pinned := CanonKeys(canon, own);
    CanonKeysOfClean(canon, own);
    TrimMeaning(x);
    assert [x][..0] == [];
    assert Unpinned(canon, [x][..0], pinned) == [];
    assert Unpinned(canon, [x], pinned) == if canon(Trim(x)) in pinned then [] else [] + [x];
  }

  /** The record of what has been published, read back. */
  lemma ShownRecord(canon: Canon, keys: seq<Key>, own: seq<string>, x: string, a: Annotations)
    requires AllClean(own) && Shows(canon, keys, own, Some(x), a)
    ensures var claimed := Claimed(canon, [x], own);
            TargetRecord(canon, a) == Present(set e | e in claimed) || (TargetRecord(canon, a).Absent? && claimed == [])
  {
    ClaimOfOne(canon, own, x);
    RecordRoundTrip(canon, Claimed(canon, [x], own));
  }

  /** What a pass preserves is the user's, up to repeats. */
  lemma PreservedIsOwn(canon: Canon, net: Netip, keys: seq<Key>, own: seq<string>, address: Option<string>, a: Annotations, p: Pass)
    requires TargetKeys(keys) && AllClean(own) && Shows(canon, keys, own, address, a) && GroundedTarget(canon, net, keys, a, p.managed)
    ensures Preserved(canon, net, keys, a, p) == if address.None? then own else Deduped(canon, own)
  {
    var rec, text := TargetRecord(canon, a), FirstValue(a, keys);
    PreserveIsView(canon, net, p.managed, rec, text);
    ListsFirst(a, keys, own);
    match address {
      case None => UserViewExtremes(Plain(canon), rec, own);
      case Some(x) =>
        FinalTargetReads(canon, own, x);
        FirstOfEqual(a, keys, FinalTarget(canon, own, x));
        ShownRecord(canon, keys, own, x, a);
        WrittenList(canon, own, [x], rec);
    }
  }

  /** So the pass aims at the user's entries and the current address, whatever was published before. */
  lemma PassAim(canon: Canon, net: Netip, keys: seq<Key>, own: seq<string>, address: Option<string>, a: Annotations, p: Pass)
    requires TargetKeys(keys) && AllClean(own) && Shows(canon, keys, own, address, a) && GroundedTarget(canon, net, keys, a, p.managed)
    ensures var preserved := Preserved(canon, net, keys, a, p);
            && FinalTarget(canon, preserved, p.current) == FinalTarget(canon, own, p.current)
            && Claimed(canon, [p.current], preserved) == Claimed(canon, [p.current], own)
  {
    PreservedIsOwn(canon, net, keys, own, address, a, p);
    DedupedTwice(canon, own, [p.current]);
    SameClaims(canon, [p.current], own);
  }

  /** Two addresses that make the same target are claimed alike. */
  lemma SameTargetSameClaim(canon: Canon, own: seq<string>, x: string, y: string)
    requires AllClean(own) && Recordable(canon, x) && Recordable(canon, y)
    requires FinalTarget(canon, own, x) == FinalTarget(canon, own, y)
    ensures Claimed(canon, [x], own) == Claimed(canon, [y], own)
  {
    FinalTargetReads(canon, own, x);
    FinalTargetReads(canon, own, y);
    assert (own + [x])[..|own|] == own && (own + [y])[..|own|] == own;
    ClaimOfOne(canon, own, x);
    ClaimOfOne(canon, own, y);
    assert (Deduped(canon, own) + [x])[|Deduped(canon, own)|] == x;
    assert (Deduped(canon, own) + [y])[|Deduped(canon, own)|] == y;
    assert |Deduped(canon, own) + [x]| != |Deduped(canon, own)|;
  }

  /** The target a pass leaves: the current address once it may move, and until then what was published before. */
  lemma PassShows(canon: Canon, net: Netip, keys: seq<Key>, own: seq<string>, address: Option<string>, a: Annotations, result: Annotations, p: Pass)
    requires TargetKeys(keys) && AllClean(own) && Recordable(canon, p.current) && SameTargets(keys, a, result)
    requires Shows(canon, keys, own, address, a) && GroundedTarget(canon, net, keys, a, p.managed)
    ensures Shows(canon, keys, own, if p.listed == [] || p.current in p.listed then Some(p.current) else address, Published(canon, net, keys, a, result, p))
  {
    PassAim(canon, net, keys, own, address, a, p);
    TargetFollowsAddress(canon, net, keys, a, result, p);
    MovedShows(canon, keys, own, address, a, Published(canon, net, keys, a, result, p), p.current, Ready(p.current, p.listed));
  }

  lemma MovedShows(canon: Canon, keys: seq<Key>, own: seq<string>, address: Option<string>, a: Annotations, t: Annotations, x: string, ready: bool)
    requires keys != [] && AllClean(own) && Recordable(canon, x) && Shows(canon, keys, own, address, a)
    requires var final, recorded := FinalTarget(canon, own, x), Join(Claimed(canon, [x], own));
             && (AllEqual(t, keys, final) <==> AllEqual(a, keys, final) || ready)
             && (AllEqual(t, keys, final) ==> Get(t, ManagedTargets) == recorded && (ManagedTargets in t <==> ManagedTargets in a || recorded != ""))
             && (!AllEqual(t, keys, final) ==> Lookup(t, ManagedTargets) == Lookup(a, ManagedTargets))
             && (AllEqual(a, keys, final) || !ready ==> SameValues(t, a, keys))
    ensures Shows(canon, keys, own, if ready then Some(x) else address, t)
  {
    ClaimOfOne(canon, own, x);
    assert Claimed(canon, [x], own) != [] ==> Join(Claimed(canon, [x], own)) == x;
    if !ready {
      if AllEqual(a, keys, FinalTarget(canon, own, x)) {
        InPlace(canon, keys, own, address, a, t, x);
      } else {
        Withheld(canon, keys, own, address, a, t);
      }
    }
  }

  ghost predicate SameValues(a: Annotations, b: Annotations, keys: seq<Key>) {
    forall k :: k in keys ==> Lookup(a, k) == Lookup(b, k)
  }

  lemma Withheld(canon: Canon, keys: seq<Key>, own: seq<string>, address: Option<string>, a: Annotations, t: Annotations)
    requires Shows(canon, keys, own, address, a) && SameValues(t, a, keys) && Lookup(t, ManagedTargets) == Lookup(a, ManagedTargets)
    ensures Shows(canon, keys, own, address, t)
  {
    ListsUnchanged(t, a, keys, own);
  }

  /** The target already was what the pass wants. */
  lemma InPlace(canon: Canon, keys: seq<Key>, own: seq<string>, address: Option<string>, a: Annotations, t: Annotations, x: string)
    requires keys != [] && AllClean(own) && Recordable(canon, x)
    requires Shows(canon, keys, own, address, a) && SameValues(t, a, keys)
    requires AllEqual(a, keys, FinalTarget(canon, own, x))
    requires Get(t, ManagedTargets) == Join(Claimed(canon, [x], own)) && (Claimed(canon, [x], own) != [] ==> ManagedTargets in t)
    ensures Shows(canon, keys, own, address, t)
  {
    ListsUnchanged(t, a, keys, own);
    if address.Some? {
      assert keys[0] in keys;
      SameTargetSameClaim(canon, own, address.value, x);
    } else {
      ListsFirst(a, keys, own);
      AlreadyThere(canon, keys, own, a, t, x);
    }
  }

  /** A pass that may move the target keeps the user's entries exactly when there is a record or the fallback claims
      none of them. */
  lemma TargetKeptIffGrounded(canon: Canon, net: Netip, keys: seq<Key>, own: seq<string>, address: Option<string>, a: Annotations, result: Annotations, p: Pass)
    requires Coherent(canon, net) && TargetKeys(keys) && AllClean(own) && Recordable(canon, p.current) && SameTargets(keys, a, result)
    requires Shows(canon, keys, own, address, a) && Ready(p.current, p.listed)
    ensures Shows(canon, keys, own, Some(p.current), Published(canon, net, keys, a, result, p)) <==> GroundedTarget(canon, net, keys, a, p.managed)
  {
    var t, kept := Published(canon, net, keys, a, result, p), Preserved(canon, net, keys, a, p);
    if GroundedTarget(canon, net, keys, a, p.managed) {
      PassShows(canon, net, keys, own, address, a, result, p);
    } else if Shows(canon, keys, own, Some(p.current), t) {
      TargetFollowsAddress(canon, net, keys, a, result, p);
      assert keys[0] in keys;
      PreserveClean(canon, net, p.managed, TargetRecord(canon, a), FirstValue(a, keys));
      SameTargetSameOwn(canon, kept, own, p.current);
      OwnIdentities(canon, keys, own, address, a);
      PreserveLosesIdentities(canon, net, p.managed, TargetRecord(canon, a), FirstValue(a, keys));
    }
  }

  /** The same target and the same claim for one address come from the same identities. */
  lemma SameTargetSameOwn(canon: Canon, xs: seq<string>, ys: seq<string>, x: string)
    requires AllClean(xs) && AllClean(ys) && Recordable(canon, x)
    requires FinalTarget(canon, xs, x) == FinalTarget(canon, ys, x) && Join(Claimed(canon, [x], xs)) == Join(Claimed(canon, [x], ys))
    ensures KeySet(canon, xs) == KeySet(canon, ys)
  {
    FinalTargetReads(canon, xs, x);
    FinalTargetReads(canon, ys, x);
    ClaimOfOne(canon, xs, x);
    ClaimOfOne(canon, ys, x);
    DedupedSameKeys(canon, xs + [x], ys + [x]);
    KeySetAppend(canon, xs, x);
    KeySetAppend(canon, ys, x);
  }

  lemma OwnIdentities(canon: Canon, keys: seq<Key>, own: seq<string>, address: Option<string>, a: Annotations)
    requires TargetKeys(keys) && AllClean(own) && Shows(canon, keys, own, address, a)
    ensures KeySet(canon, UserView(Plain(canon), TargetRecord(canon, a), Entries(FirstValue(a, keys)))) == KeySet(canon, own)
  {
    var rec := TargetRecord(canon, a);
    match address {
      case None =>
        ListsFirst(a, keys, own);
        UserViewExtremes(Plain(canon), rec, own);
      case Some(x) =>
        FinalTargetReads(canon, own, x);
        FirstOfEqual(a, keys, FinalTarget(canon, own, x));
        ShownRecord(canon, keys, own, x, a);
        WrittenList(canon, own, [x], rec);
        DedupedMeaning(canon, own);
    }
  }

  /** An identity standing under a configured key, whichever one, outlives a pass exactly when the pass does not move the
      target, or the first configured key preserves it, or it is the current address. What stands only under a later
      key is overwritten. */
  lemma EntrySurvivesPass(canon: Canon, net: Netip, keys: seq<Key>, a: Annotations, result: Annotations, p: Pass, key: Key, id: string)
    requires TargetKeys(keys) && key in keys && SameTargets(keys, a, result) && Recordable(canon, p.current)
    requires id in KeySet(canon, Entries(Get(a, key)))
    ensures var kept := Preserved(canon, net, keys, a, p);
            var moves := Ready(p.current, p.listed) && !AllEqual(a, keys, FinalTarget(canon, kept, p.current));
            id in KeySet(canon, Entries(Get(Published(canon, net, keys, a, result, p), key)))
            <==> !moves || id in KeySet(canon, kept) || id == p.current
  {
    var kept := Preserved(canon, net, keys, a, p);
    PreserveClean(canon, net, p.managed, TargetRecord(canon, a), FirstValue(a, keys));
    TargetFollowsAddress(canon, net, keys, a, result, p);
    FinalTargetReads(canon, kept, p.current);
    DedupedMeaning(canon, kept + [p.current]);
    KeySetAppend(canon, kept, p.current);
    assert Lookup(Published(canon, net, keys, a, result, p), key) == Lookup(a, key)
           || Get(Published(canon, net, keys, a, result, p), key) == FinalTarget(canon, kept, p.current);
  }

  /** An identity under one key that the first key does not hold is gone once the target moves, and stays gone. */
  lemma OverwrittenForGood(canon: Canon, net: Netip, keys: seq<Key>, a: Annotations, p: Pass, h: string)
    requires TargetKeys(keys) && TargetNew in keys && Recordable(canon, p.current) && Ready(p.current, p.listed)
    requires canon(h) in KeySet(canon, Entries(Get(a, TargetNew)))
    requires canon(h) !in KeySet(canon, Preserved(canon, net, keys, a, p)) && canon(h) != p.current
    ensures var t := Published(canon, net, keys, a, a, p);
            && canon(h) !in KeySet(canon, Entries(Get(t, TargetNew)))
            && canon(h) !in KeySet(canon, Entries(Get(ReleasedService(canon, t), TargetNew)))
  {
    var kept := Preserved(canon, net, keys, a, p);
    EntrySurvivesPass(canon, net, keys, a, a, p, TargetNew, canon(h));
    PreserveClean(canon, net, p.managed, TargetRecord(canon, a), FirstValue(a, keys));
    FinalTargetReads(canon, kept, p.current);
    DedupedMeaning(canon, kept + [p.current]);
    KeySetAppend(canon, kept, p.current);
    ReleasedKeys(canon, Published(canon, net, keys, a, a, p));
  }

  /** With no record yet and two different entries of the user's, the one under the newer key is lost to a publication. */
  lemma NewerKeyIsOverwritten(canon: Canon, net: Netip, keys: seq<Key>, a: Annotations, p: Pass, g: string, h: string)
    requires TargetKeys(keys) && TargetNew in keys && ManagedTargets !in a && p.managed == [] && Ready(p.current, p.listed)
    requires Recordable(canon, g) && Recordable(canon, h) && Recordable(canon, p.current) && g != h && h != p.current
    requires FirstValue(a, keys) == g && Get(a, TargetNew) == h
    ensures var t := Published(canon, net, keys, a, a, p);
            && h in KeySet(canon, Entries(Get(a, TargetNew))) && h !in KeySet(canon, Entries(Get(t, TargetNew)))
            && h !in KeySet(canon, Entries(Get(ReleasedService(canon, t), TargetNew)))
  {
    OneEntry(g);
    OneEntry(h);
    assert Preserved(canon, net, keys, a, p) == [g] by {
      PreserveIsView(canon, net, [], Absent, g);
      UserViewExtremes(Plain(canon), Absent, [g]);
    }
    OverwrittenForGood(canon, net, keys, a, p, h);
  }

  /** The default keys receive this: different entries of the user's under the two keys, and a first publication. The
      one under the later key is gone, and no hand-back returns it. */
  lemma LaterKeyIsOverwritten(canon: Canon, net: Netip, g: string, h: string, x: string)
    requires Recordable(canon, g) && Recordable(canon, h) && Recordable(canon, x) && g != h && h != x
    ensures var a: Annotations := map[TargetAlpha := g, TargetNew := h];
            var t := Published(canon, net, KNOWN, a, a, Pass.Pass(x, [], []));
            && h in KeySet(canon, Entries(Get(a, TargetNew))) && h !in KeySet(canon, Entries(Get(t, TargetNew)))
            && h !in KeySet(canon, Entries(Get(ReleasedService(canon, t), TargetNew)))
  {
    assert TargetNew in KNOWN;
    NewerKeyIsOverwritten(canon, net, KNOWN, map[TargetAlpha := g, TargetNew := h], Pass.Pass(x, [], []), g, h);
  }

  /** Before the first publication the target can only be in place already if the user has the address. */
  lemma AlreadyThere(canon: Canon, keys: seq<Key>, own: seq<string>, a: Annotations, t: Annotations, x: string)
    requires keys != [] && AllClean(own) && Recordable(canon, x)
    requires Entries(FirstValue(a, keys)) == own && AllEqual(a, keys, FinalTarget(canon, own, x))
    requires Get(t, ManagedTargets) == Join(Claimed(canon, [x], own))
    ensures Claimed(canon, [x], own) == []
    ensures forall e :: e in own ==> !Recorded(Plain(canon), TargetRecord(canon, t), e)
  {
    FinalTargetReads(canon, own, x);
    FirstOfEqual(a, keys, FinalTarget(canon, own, x));
    DedupedMeaning(canon, own + [x]);
    assert (own + [x])[|own|] == x;
    assert canon(x) in KeySet(canon, own + [x]);
    ClaimOfOne(canon, own, x);
    NothingOwned(canon, t, own);
  }

  lemma NothingOwned(canon: Canon, t: Annotations, own: seq<string>)
    requires Get(t, ManagedTargets) == ""
    ensures forall e :: e in own ==> !Recorded(Plain(canon), TargetRecord(canon, t), e)
  {
    assert Entries("") == [];
  }

  // ---------------------------------------------------------------- whole runs

  /** The address a run has published last: the current one of the last pass that was allowed to move the target. */
  function LastAllowed(before: Option<string>, passes: seq<Pass>): Option<string> {
    if passes == [] then before
    else
      var p := passes[|passes| - 1];
      if p.listed == [] || p.current in p.listed then Some(p.current) else LastAllowed(before, passes[..|passes| - 1])
  }

  /** One pass, with other annotations changed at will. */
  ghost predicate TargetStep(canon: Canon, net: Netip, keys: seq<Key>, a: Annotations, p: Pass, t: Annotations) {
    && Recordable(canon, p.current) && GroundedTarget(canon, net, keys, a, p.managed)
    && exists result :: SameTargets(keys, a, result) && SameTargets(keys, Published(canon, net, keys, a, result, p), t)
  }

  ghost predicate TargetRun(canon: Canon, net: Netip, keys: seq<Key>, states: seq<Annotations>, passes: seq<Pass>) {
    |states| == |passes| + 1 && forall i :: 0 <= i < |passes| ==> TargetStep(canon, net, keys, states[i], passes[i], states[i + 1])
  }

  /** DNS follows the address. Whatever rotations, missed reconciles and assignment changes a run holds, the target is
      the user's entries and the current address of the last pass at which status listed that address or listed none. */
  lemma {:induction false} DnsFollowsAddress(canon: Canon, net: Netip, keys: seq<Key>, own: seq<string>, address: Option<string>,
                                             states: seq<Annotations>, passes: seq<Pass>)
    requires TargetKeys(keys) && AllClean(own) && TargetRun(canon, net, keys, states, passes)
    requires Shows(canon, keys, own, address, states[0])
    ensures Shows(canon, keys, own, LastAllowed(address, passes), states[|passes|])
  {
    if passes != [] {
      var n := |passes| - 1;
      forall i | 0 <= i < n
        ensures TargetStep(canon, net, keys, states[..n + 1][i], passes[..n][i], states[..n + 1][i + 1])
      {
        assert TargetStep(canon, net, keys, states[i], passes[i], states[i + 1]);
      }
      DnsFollowsAddress(canon, net, keys, own, address, states[..n + 1], passes[..n]);
      StepShows(canon, net, keys, own, LastAllowed(address, passes[..n]), states[n], passes[n], states[n + 1]);
    }
  }

  lemma StepShows(canon: Canon, net: Netip, keys: seq<Key>, own: seq<string>, address: Option<string>, a: Annotations, p: Pass, t: Annotations)
    requires TargetKeys(keys) && AllClean(own) && TargetStep(canon, net, keys, a, p, t) && Shows(canon, keys, own, address, a)
    ensures Shows(canon, keys, own, if Ready(p.current, p.listed) then Some(p.current) else address, t)
  {
    var result :| SameTargets(keys, a, result) && SameTargets(keys, Published(canon, net, keys, a, result, p), t);
    PassShows(canon, net, keys, own, address, a, result, p);
    ShowsSame(canon, keys, own, if Ready(p.current, p.listed) then Some(p.current) else address, Published(canon, net, keys, a, result, p), t);
  }

  /** What is shown depends on the target annotations only. */
  lemma ShowsSame(canon: Canon, keys: seq<Key>, own: seq<string>, address: Option<string>, a: Annotations, t: Annotations)
    requires SameTargets(keys, a, t) && Shows(canon, keys, own, address, a)
    ensures Shows(canon, keys, own, address, t)
  {
    forall k | k in keys + [ManagedTargets]
      ensures Lookup(a, k) == Lookup(t, k)
    {
      assert k in keys + KNOWN + [ManagedTargets];
    }
    assert ManagedTargets in keys + [ManagedTargets];
    assert Lookup(a, ManagedTargets) == Lookup(t, ManagedTargets);
    ListsUnchanged(t, a, keys, own);
  }

  /** What is shown holds each of the user's entries and at most one operator address, the published one. */
  lemma AtMostOneOperatorAddress(canon: Canon, keys: seq<Key>, own: seq<string>, x: string, a: Annotations, key: Key)
    requires TargetKeys(keys) && key in keys && AllClean(own) && Shows(canon, keys, own, Some(x), a)
    ensures UserView(Plain(canon), TargetRecord(canon, a), Entries(Get(a, key))) == Deduped(canon, own)
    ensures forall e :: e in Entries(Get(a, key)) && Recorded(Plain(canon), TargetRecord(canon, a), e) ==> e == x
    ensures (exists e :: e in Entries(Get(a, key)) && Recorded(Plain(canon), TargetRecord(canon, a), e)) <==> x !in KeySet(canon, own)
  {
    OneClaimedInList(canon, own, x, TargetRecord(canon, a)) by {
      ShownRecord(canon, keys, own, x, a);
    }
    FinalTargetReads(canon, own, x);
    assert Get(a, key) == FinalTarget(canon, own, x);
  }

  lemma OneClaimedInList(canon: Canon, own: seq<string>, x: string, rec: Record)
    requires AllClean(own) && Recordable(canon, x)
    requires var claimed := Claimed(canon, [x], own); rec == Present(set e | e in claimed) || (rec.Absent? && claimed == [])
    ensures var es := Deduped(canon, own + [x]);
            && UserView(Plain(canon), rec, es) == Deduped(canon, own)
            && (forall e :: e in es && Recorded(Plain(canon), rec, e) ==> e == x)
            && ((exists e :: e in es && Recorded(Plain(canon), rec, e)) <==> x !in KeySet(canon, own))
  {
    var es, claimed := Deduped(canon, own + [x]), Claimed(canon, [x], own);
    ClaimOfOne(canon, own, x);
    assert UserView(Plain(canon), rec, es) == Deduped(canon, own) && (forall e :: e in claimed ==> e in es)
           && (forall e :: e in es ==> (Recorded(Plain(canon), rec, e) <==> e in claimed)) by {
      WrittenList(canon, own, [x], rec);
    }
    if x !in KeySet(canon, own) {
      assert x in claimed;
      assert x in es && Recorded(Plain(canon), rec, x);
    }
  }

  // ---------------------------------------------------------------- giving back

  /** Opting out leaves every known key exactly the user's entries, and no record. */
  lemma OptOutRestores(canon: Canon, net: Netip, managed: seq<ValidPrefix>, a: Annotations, result: Annotations, key: Key)
    requires ManagedTargets in a && (key == TargetAlpha || key == TargetNew) && Lookup(result, key) == Lookup(a, key)
    ensures Entries(Get(OptedOut(canon, net, managed, a, result), key)) == UserView(Plain(canon), TargetRecord(canon, a), Entries(Get(a, key)))
    ensures ManagedTargets !in OptedOut(canon, net, managed, a, result)
  {
    var rec := TargetRecord(canon, a);
    var keep := Keep(canon, net, managed, rec);
    OptOutKeysMeaning(keep, a, result, KNOWN);
    PreserveIsView(canon, net, managed, rec, Get(a, key));
    StrippedText(canon, rec, Get(a, key));
    assert Get(OptedOut(canon, net, managed, a, result), key) == Get(OptOutKeys(keep, a, result, KNOWN), key);
  }

  /** A key that is no longer configured keeps only the user's entries after the next pass. */
  lemma DeconfiguredKeyReleased(canon: Canon, net: Netip, keys: seq<Key>, a: Annotations, result: Annotations, p: Pass, key: Key)
    requires TargetKeys(keys) && SameTargets(keys, a, result) && (key == TargetAlpha || key == TargetNew) && key !in keys && TargetRecord(canon, a).Present?
    ensures Entries(Get(Published(canon, net, keys, a, result, p), key)) == UserView(Plain(canon), TargetRecord(canon, a), Entries(Get(a, key)))
  {
    var rec := TargetRecord(canon, a);
    var keep := Keep(canon, net, p.managed, rec);
    var released := HandBackKeys(keep, a, result, Releasable(keys));
    assert Get(Published(canon, net, keys, a, result, p), key) == Get(released, key) by {
      WriteAllMeaning(released, keys, FinalTarget(canon, Preserved(canon, net, keys, a, p), p.current));
    }
    assert key in Releasable(keys);
    assert key in a ==> Get(released, key) == keep.Of(a[key]) by {
      HandBackKeysMeaning(keep, a, result, Releasable(keys));
    }
    assert key !in a ==> Lookup(released, key) == None by {
      HandBackKeysMeaning(keep, a, result, Releasable(keys));
      assert key in keys + KNOWN + [ManagedTargets];
    }
    assert Entries("") == [];
    PreserveIsView(canon, net, p.managed, rec, Get(a, key));
    StrippedText(canon, rec, Get(a, key));
  }

  /** A release while the new-form key is configured leaves the published address standing there, unrecorded,
      unless the user had it anyway. */
  lemma ReleaseStrandsNewKey(canon: Canon, keys: seq<Key>, own: seq<string>, x: string, a: Annotations)
    requires TargetKeys(keys) && TargetNew in keys && AllClean(own) && Shows(canon, keys, own, Some(x), a)
    ensures var t := ReleasedService(canon, a);
            && ManagedTargets !in t
            && x in KeySet(canon, Entries(Get(t, TargetNew)))
            && (NoneRecorded(canon, TargetRecord(canon, a), Get(t, TargetNew)) <==> x in KeySet(canon, own))
  {
    ReleasedKeys(canon, a);
    FinalTargetReads(canon, own, x);
    DedupedMeaning(canon, own + [x]);
    assert (own + [x])[|own|] == x;
    assert canon(x) in KeySet(canon, own + [x]);
    AtMostOneOperatorAddress(canon, keys, own, x, a, TargetNew);
  }

  /** The annotations a reconcile aims at; `stamp` is the time it writes when it changes anything. */
  function Synced(canon: Canon, net: Netip, keys: seq<Key>, a: Annotations, all: seq<string>, field: Key, p: Pass, skip: bool): Annotations {
    var addressed := AddressesPassed(canon, net, p.managed, a, all, field);
    if skip then OptedOut(canon, net, p.managed, a, addressed) else Published(canon, net, keys, a, addressed, p)
  }

  /** Whether a reconcile writes: its address part or its target part reports a change. */
  predicate SyncChanges(canon: Canon, net: Netip, keys: seq<Key>, a: Annotations, all: seq<string>, field: Key, p: Pass, skip: bool) {
    || AddressesChanged(canon, net, p.managed, a, all, field)
    || (if skip then ManagedTargets in a
        else TargetChanged(canon, net, keys, a, AddressesPassed(canon, net, p.managed, a, all, field), p))
  }

  lemma AddressPassTouchesOnly(canon: Canon, net: Netip, managed: seq<ValidPrefix>, a: Annotations, all: seq<string>, field: Key, k: Key)
    requires IsField(field) && !IsField(k) && k != ManagedIPs
    ensures Lookup(AddressesPassed(canon, net, managed, a, all, field), k) == Lookup(a, k)
  {
    var preserved := Preserve(canon, net, managed, IPRecord(canon, a), Get(a, field));
    WroteElsewhere(a, field, Join(Deduped(canon, preserved + all)), Join(Preserve(canon, net, managed, IPRecord(canon, a), Get(a, OtherField(field)))),
                   FormatOwnershipRecord(Claimed(canon, all, preserved)), k);
  }

  lemma MovedTouchesOnly(a: Annotations, released: Annotations, keys: seq<Key>, final: string, ready: bool, recorded: string, k: Key)
    requires k !in keys && k != ManagedTargets
    ensures Lookup(Moved(a, released, keys, final, ready, recorded), k) == Lookup(released, k)
  {
    WriteAllMeaning(released, keys, final);
  }

  /** None of the keys the operator writes for a Service. */
  predicate Foreign(keys: seq<Key>, k: Key) {
    k !in keys && !IsField(k) && k != ManagedIPs && k != TargetAlpha && k != TargetNew && k != ManagedTargets
  }

  lemma PublishedTouchesOnly(canon: Canon, net: Netip, keys: seq<Key>, a: Annotations, result: Annotations, p: Pass, k: Key)
    requires Foreign(keys, k)
    ensures Lookup(Published(canon, net, keys, a, result, p), k) == Lookup(result, k)
  {
    var keep, preserved := Keep(canon, net, p.managed, TargetRecord(canon, a)), Preserved(canon, net, keys, a, p);
    HandBackKeysMeaning(keep, a, result, Releasable(keys));
    MovedTouchesOnly(a, HandBackKeys(keep, a, result, Releasable(keys)), keys, FinalTarget(canon, preserved, p.current),
                     Ready(p.current, p.listed), FormatOwnershipRecord(Claimed(canon, [p.current], preserved)), k);
  }

  lemma OptedOutTouchesOnly(canon: Canon, net: Netip, managed: seq<ValidPrefix>, a: Annotations, result: Annotations, k: Key)
    requires Foreign([], k)
    ensures Lookup(OptedOut(canon, net, managed, a, result), k) == Lookup(result, k)
  {
    var keep := Keep(canon, net, managed, TargetRecord(canon, a));
    var known := KNOWN;
    assert k !in known;
    OptOutKeysMeaning(keep, a, result, known);
  }

  /** A reconcile touches the address fields, the target keys, and their records, and nothing else. */
  lemma SyncTouchesOnly(canon: Canon, net: Netip, keys: seq<Key>, a: Annotations, all: seq<string>, field: Key, p: Pass, skip: bool, k: Key)
    requires IsField(field) && Foreign(keys, k)
    ensures Lookup(Synced(canon, net, keys, a, all, field, p, skip), k) == Lookup(a, k)
  {
    var addressed := AddressesPassed(canon, net, p.managed, a, all, field);
    AddressPassTouchesOnly(canon, net, p.managed, a, all, field, k);
    if skip {
      OptedOutTouchesOnly(canon, net, p.managed, a, addressed, k);
    } else {
      PublishedTouchesOnly(canon, net, keys, a, addressed, p, k);
    }
  }

  /** After a pass that could move the target there is a record, or the fallback claims nothing of it. */
  lemma GroundedTargetAfter(canon: Canon, net: Netip, keys: seq<Key>, own: seq<string>, address: Option<string>, a: Annotations, result: Annotations, p: Pass)
    requires TargetKeys(keys) && AllClean(own) && Recordable(canon, p.current) && SameTargets(keys, a, result) && Ready(p.current, p.listed)
    requires Shows(canon, keys, own, address, a) && GroundedTarget(canon, net, keys, a, p.managed)
    ensures GroundedTarget(canon, net, keys, Published(canon, net, keys, a, result, p), p.managed)
  {
    var t, x := Published(canon, net, keys, a, result, p), p.current;
    PassShows(canon, net, keys, own, address, a, result, p);
    if ManagedTargets !in t {
      TargetFollowsAddress(canon, net, keys, a, result, p);
      TargetReads(canon, keys, own, Some(x), t);
      TargetReads(canon, keys, own, address, a);
    }
  }

  /** While nothing is recorded the target lists the user's entries and no others. */
  lemma TargetReads(canon: Canon, keys: seq<Key>, own: seq<string>, address: Option<string>, a: Annotations)
    requires TargetKeys(keys) && AllClean(own) && Shows(canon, keys, own, address, a) && ManagedTargets !in a
    ensures forall e :: e in Entries(FirstValue(a, keys)) <==> e in if address.None? then own else Deduped(canon, own)
    ensures forall e :: e in Deduped(canon, own) ==> e in own
  {
    DedupedMeaning(canon, own);
    match address {
      case None => ListsFirst(a, keys, own);
      case Some(x) =>
        ClaimOfOne(canon, own, x);
        FinalTargetReads(canon, own, x);
        FirstOfEqual(a, keys, FinalTarget(canon, own, x));
        DedupedSeen(canon, own, x);
    }
  }

  /** Once the target may move, a second pass finds it as it should be, and reports a change only for a key no longer
      configured that the Service still carries. */
  lemma TargetSettles(canon: Canon, net: Netip, keys: seq<Key>, own: seq<string>, address: Option<string>, a: Annotations, result: Annotations, p: Pass)
    requires TargetKeys(keys) && AllClean(own) && Recordable(canon, p.current) && SameTargets(keys, a, result) && Ready(p.current, p.listed)
    requires Shows(canon, keys, own, address, a) && GroundedTarget(canon, net, keys, a, p.managed)
    ensures var t := Published(canon, net, keys, a, result, p);
            TargetChanged(canon, net, keys, t, t, p) <==> AnyPresent(t, Releasable(keys))
  {
    var t := Published(canon, net, keys, a, result, p);
    PassShows(canon, net, keys, own, address, a, result, p);
    GroundedTargetAfter(canon, net, keys, own, address, a, result, p);
    PassAim(canon, net, keys, own, Some(p.current), t, p);
  }

  /** A whole reconcile is one step of the target's run: the address part does not touch the target, nor does the stamp. */
  lemma ReconcileIsTargetStep(canon: Canon, net: Netip, keys: seq<Key>, a: Annotations, all: seq<string>, field: Key, p: Pass, stamp: string)
    requires TargetKeys(keys) && IsField(field) && Recordable(canon, p.current) && GroundedTarget(canon, net, keys, a, p.managed)
    ensures var t := Synced(canon, net, keys, a, all, field, p, false);
            TargetStep(canon, net, keys, a, p, t) && TargetStep(canon, net, keys, a, p, t[LastSync := stamp])
  {
    var addressed := AddressesPassed(canon, net, p.managed, a, all, field);
    var t := Published(canon, net, keys, a, addressed, p);
    AddressPassKeepsTargets(canon, net, p.managed, a, all, field, keys);
    assert SameTargets(keys, t, t);
    StampKeepsTargets(keys, t, stamp);
  }

  lemma StampKeepsTargets(keys: seq<Key>, t: Annotations, stamp: string)
    requires TargetKeys(keys)
    ensures SameTargets(keys, t, t[LastSync := stamp])
  {
    forall k | k in keys + KNOWN + [ManagedTargets]
      ensures Lookup(t, k) == Lookup(t[LastSync := stamp], k)
    {
      assert k != LastSync;
    }
  }

  /** A Service reconcile once the addresses are known: both parts in one write with its time, or none at all. An empty
      calculation and an unknown provider write nothing. Unless the target is opted out, it is a step of its run. */
  method SyncService(service: Service, canon: Canon, net: Netip, keys: seq<Key>, all: seq<string>, p: Pass, skip: bool, stamp: string)
    returns (ok: bool, deferred: bool, written: bool)
    modifies service
    ensures ok <==> all != [] && p.current != "" && FieldFor(old(service.annotations)).Some?
    ensures written ==> ok
    ensures ok ==> var goal := Synced(canon, net, keys, old(service.annotations), all, FieldFor(old(service.annotations)).value, p, skip);
                   service.annotations == if written then goal[LastSync := stamp] else goal
    ensures ok ==> (written <==> SyncChanges(canon, net, keys, old(service.annotations), all, FieldFor(old(service.annotations)).value, p, skip))
    ensures !written ==> unchanged(service)
    ensures written ==> service.updates == old(service.updates) + 1
    ensures deferred ==> ok && !skip && !Ready(p.current, p.listed)
    ensures ok && !skip && TargetKeys(keys) && Recordable(canon, p.current) && GroundedTarget(canon, net, keys, old(service.annotations), p.managed)
            ==> TargetStep(canon, net, keys, old(service.annotations), p, service.annotations)
  {
    if |all| == 0 || p.current == "" {
      return false, false, false;
    }
    var field := FieldFor(service.annotations);
    if field.None? {
      return false, false, false;
    }
    deferred, written := SyncSelected(service, canon, net, keys, all, field.value, p, skip, stamp);
    ok := true;
  }

  method SyncSelected(service: Service, canon: Canon, net: Netip, keys: seq<Key>, all: seq<string>, field: Key, p: Pass, skip: bool, stamp: string)
    returns (deferred: bool, written: bool)
    requires IsField(field)
    modifies service
    ensures written <==> SyncChanges(canon, net, keys, old(service.annotations), all, field, p, skip)
    ensures var goal := Synced(canon, net, keys, old(service.annotations), all, field, p, skip);
            service.annotations == if written then goal[LastSync := stamp] else goal
    ensures !written ==> unchanged(service)
    ensures written ==> service.updates == old(service.updates) + 1
    ensures deferred ==> !skip && !Ready(p.current, p.listed)
    ensures !skip && TargetKeys(keys) && Recordable(canon, p.current) && GroundedTarget(canon, net, keys, old(service.annotations), p.managed)
            ==> TargetStep(canon, net, keys, old(service.annotations), p, service.annotations)
  {
    var goal;
    goal, deferred, written := ComputeSync(canon, net, keys, service.annotations, all, field, p, skip);
    StepIfGrounded(canon, net, keys, service.annotations, all, field, p, stamp);
    if written {
      service.Write(goal[LastSync := stamp]);
    }
  }

  method ComputeSync(canon: Canon, net: Netip, keys: seq<Key>, annotations: Annotations, all: seq<string>, field: Key, p: Pass, skip: bool)
    returns (goal: Annotations, deferred: bool, changed: bool)
    ensures goal == Synced(canon, net, keys, annotations, all, field, p, skip)
    ensures changed <==> SyncChanges(canon, net, keys, annotations, all, field, p, skip)
    ensures !changed ==> goal == annotations
    ensures deferred ==> !skip && !Ready(p.current, p.listed)
  {
    var addressed, updated := SyncAddresses(canon, net, p.managed, annotations, all, field);
    assert !updated ==> addressed == annotations;
    var moved;
    goal, deferred, moved := SyncExternalDNSTarget(canon, net, keys, annotations, addressed, p, skip);
    changed := updated || moved;
  }

  lemma StepIfGrounded(canon: Canon, net: Netip, keys: seq<Key>, a: Annotations, all: seq<string>, field: Key, p: Pass, stamp: string)
    requires IsField(field)
    ensures TargetKeys(keys) && Recordable(canon, p.current) && GroundedTarget(canon, net, keys, a, p.managed) ==>
              var t := Synced(canon, net, keys, a, all, field, p, false);
              TargetStep(canon, net, keys, a, p, t) && TargetStep(canon, net, keys, a, p, t[LastSync := stamp])
  {
    if TargetKeys(keys) && Recordable(canon, p.current) && GroundedTarget(canon, net, keys, a, p.managed) {
      ReconcileIsTargetStep(canon, net, keys, a, all, field, p, stamp);
    }
  }
}
