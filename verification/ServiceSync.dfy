/** A Service's load-balancer address annotations: two provider fields, one record, and a provider that can be
    flipped at any time. */
module ServiceSync {
  import opened Addresses
  import opened AddressRange
  import opened Text
  import opened Dedup
  import opened Ownership
  import opened OwnedList
  import opened PoolBackends

  /** The annotations a Service carries, by what they are to the operator. */
  datatype Key =
    | CiliumIPs     // lbipam.cilium.io/ips
    | KubevipIPs    // kube-vip.io/loadbalancerIPs
    | ManagedIPs    // dynamic-prefix.io/managed-ips
    | LBProvider    // dynamic-prefix.io/lb-provider
    | TargetAlpha   // external-dns.alpha.kubernetes.io/target
    | TargetNew     // external-dns.kubernetes.io/target
    | ManagedTargets // dynamic-prefix.io/managed-targets
    | LastSync      // dynamic-prefix.io/last-sync
    | L2Nudge       // dynamic-prefix.io/l2-announce-nudge
    | Other(name: string)

  type Annotations = map<Key, string>

  /** Reading a key the object does not have gives the empty text. */
  function Get(a: Annotations, key: Key): string {
    if key in a then a[key] else ""
  }

  function Lookup(a: Annotations, key: Key): Option<string> {
    if key in a then Some(a[key]) else None
  }

  function PutOrDelete(a: Annotations, key: Key, value: string): Annotations {
    if value == "" then a - {key} else a[key := value]
  }

  // ---------------------------------------------------------------- whose entry is it

  /** Entries of these annotations are their own keys; the record compares them normalised. */
  function Plain(canon: Canon): Backend<string> {
    Backend(canon, "dynamic-prefix.io/managed-ips", e => e)
  }

  /** The prefix test used while there is no record: an IPv6 address inside a managed prefix. */
  predicate ManagedIP(net: Netip, managed: seq<ValidPrefix>, e: string) {
    var a := net.parseAddr(e);
    a.IPv6? && AddrInManagedPrefixes(a.v6, managed)
  }

  /** The test holds exactly for IPv6 addresses from the base of a managed prefix up to its size beyond. */
  lemma ManagedIPMeaning(net: Netip, managed: seq<ValidPrefix>, e: string)
    ensures ManagedIP(net, managed, e) <==>
              net.parseAddr(e).IPv6? && exists m :: m in managed && m.Base() <= net.parseAddr(e).v6 < m.Base() + m.Size()
  {
    if net.parseAddr(e).IPv6? {
      forall m | m in managed
        ensures m.Contains(net.parseAddr(e).v6) <==> m.Base() <= net.parseAddr(e).v6 < m.Base() + m.Size()
      {
        ContainsIsInterval(m, net.parseAddr(e).v6);
      }
    }
  }

  function InManaged(net: Netip, managed: seq<ValidPrefix>): string -> bool {
    e => ManagedIP(net, managed, e)
  }

  /** The entries of an annotation the operator must leave alone. */
  function Preserve(canon: Canon, net: Netip, managed: seq<ValidPrefix>, rec: Record, text: string): seq<string> {
    Kept(Plain(canon), rec, InManaged(net, managed), Entries(text))
  }

  lemma KeptPart(b: Backend<string>, rec: Record, claims: string -> bool, parts: seq<string>, i: nat)
    requires i < |parts|
    ensures var raw, before := Trim(parts[i]), Kept(b, rec, claims, NonBlank(parts[..i]));
            Kept(b, rec, claims, NonBlank(parts[..i + 1])) == if raw == "" || Mine(b, rec, claims, raw) then before else before + [raw]
  {
    assert parts[..i + 1][..i] == parts[..i];
    var es, raw := NonBlank(parts[..i]), Trim(parts[i]);
    if raw != "" {
      assert NonBlank(parts[..i + 1]) == es + [raw];
      assert (es + [raw])[..|es + [raw]| - 1] == es;
    }
  }

  /** The prefix test, for an annotation without a record. */
  method ExtractUnmanagedIPs(canon: Canon, net: Netip, managed: seq<ValidPrefix>, text: string) returns (preserved: seq<string>)
    ensures preserved == Preserve(canon, net, managed, Absent, text)
  {
    var parts := Split(text);
    preserved := [];
    for i := 0 to |parts|
      invariant preserved == Kept(Plain(canon), Absent, InManaged(net, managed), NonBlank(parts[..i]))
    {
      KeptPart(Plain(canon), Absent, InManaged(net, managed), parts, i);
      var raw := Trim(parts[i]);
      if raw == "" {
        continue;
      }
      var a := net.parseAddr(raw);
      if !a.IPv6? || !AddrInManagedPrefixes(a.v6, managed) {
        preserved := preserved + [raw];
      }
    }
    assert parts[..|parts|] == parts;
  }

  method PreserveUnownedIPs(canon: Canon, net: Netip, managed: seq<ValidPrefix>, rec: Record, text: string) returns (preserved: seq<string>)
    ensures preserved == Preserve(canon, net, managed, rec, text)
  {
    if rec.Absent? {
      preserved := ExtractUnmanagedIPs(canon, net, managed, text);
      return;
    }
    var parts := Split(text);
    preserved := [];
    for i := 0 to |parts|
      invariant preserved == Kept(Plain(canon), rec, InManaged(net, managed), NonBlank(parts[..i]))
    {
      KeptPart(Plain(canon), rec, InManaged(net, managed), parts, i);
      var raw := Trim(parts[i]);
      if raw != "" && !Owns(canon, rec, raw) {
        preserved := preserved + [raw];
      }
    }
    assert parts[..|parts|] == parts;
  }

  lemma PreserveClean(canon: Canon, net: Netip, managed: seq<ValidPrefix>, rec: Record, text: string)
    ensures AllClean(Preserve(canon, net, managed, rec, text))
    ensures forall e :: e in Preserve(canon, net, managed, rec, text) ==> e in Entries(text)
  {
    EntriesClean(text);
    KeptMembers(Plain(canon), rec, InManaged(net, managed), Entries(text));
  }

  /** There is a record, or the fallback claims no entry of the text. */
  ghost predicate GroundedText(net: Netip, managed: seq<ValidPrefix>, rec: Record, text: string) {
    rec.Present? || forall e :: e in Entries(text) ==> !ManagedIP(net, managed, e)
  }

  /** With a record, or a fallback that claims nothing, what is preserved is the user's. */
  lemma PreserveIsView(canon: Canon, net: Netip, managed: seq<ValidPrefix>, rec: Record, text: string)
    requires GroundedText(net, managed, rec, text)
    ensures Preserve(canon, net, managed, rec, text) == UserView(Plain(canon), rec, Entries(text))
  {
    var claims := InManaged(net, managed);
    if rec.Present? {
      KeptByRecord(Plain(canon), rec, claims, Entries(text));
    } else {
      KeptByClaims(Plain(canon), rec, claims, Entries(text));
      UserViewExtremes(Plain(canon), rec, Entries(text));
    }
  }

  // ---------------------------------------------------------------- a pass over the address fields

  /** The field of the provider the Service names; Cilium when it names none, None when it names an unknown one. */
  function FieldFor(a: Annotations): Option<Key> {
    var value := Trim(Get(a, LBProvider));
    if value == "" || value == "cilium" then Some(CiliumIPs)
    else if value == "kube-vip" then Some(KubevipIPs)
    else None
  }

  /** Whatever white space is around the provider's name, Cilium's field goes with no name and with its own, kube-vip's
      with its own, and none with any other. */
  lemma FieldMeaning(a: Annotations, pre: string, name: string, post: string)
    requires Get(a, LBProvider) == pre + name + post && AllSpace(pre) && AllSpace(post) && Tight(name)
    ensures FieldFor(a) == Some(CiliumIPs) <==> name == "" || name == "cilium"
    ensures FieldFor(a) == Some(KubevipIPs) <==> name == "kube-vip"
    ensures FieldFor(a) == None <==> name !in ["", "cilium", "kube-vip"]
  {
    TrimAround(pre, name, post);
  }

  function OtherField(field: Key): Key {
    if field == CiliumIPs then KubevipIPs else CiliumIPs
  }

  predicate IsField(field: Key) {
    field == CiliumIPs || field == KubevipIPs
  }

  function IPRecord(canon: Canon, a: Annotations): Record {
    RecordOf(canon, Lookup(a, ManagedIPs))
  }

  function View(canon: Canon, a: Annotations, field: Key): seq<string> {
    UserView(Plain(canon), IPRecord(canon, a), Entries(Get(a, field)))
  }

  /** What a pass claims: the calculated addresses the user has not pinned in the field. */
  function Claimed(canon: Canon, all: seq<string>, preserved: seq<string>): seq<string> {
    Unpinned(canon, all, CanonKeys(canon, preserved))
  }

  /** The two fields a pass writes; the abandoned one only if it holds something. */
  function WroteFields(a: Annotations, result: Annotations, field: Key, text: string, abandoned: string): Annotations {
    var written := if Get(a, field) != text then result[field := text] else result;
    if Get(a, OtherField(field)) == "" then written else PutOrDelete(written, OtherField(field), abandoned)
  }

  /** And the record. */
  function Wrote(a: Annotations, field: Key, text: string, abandoned: string, recorded: string): Annotations {
    var written := WroteFields(a, a, field, text, abandoned);
    if Get(a, ManagedIPs) != recorded then written[ManagedIPs := recorded] else written
  }

  lemma WroteTexts(a: Annotations, field: Key, text: string, abandoned: string, recorded: string)
    requires IsField(field)
    ensures var t := Wrote(a, field, text, abandoned, recorded);
            && Get(t, field) == text && Get(t, ManagedIPs) == recorded
            && Get(t, OtherField(field)) == (if Get(a, OtherField(field)) == "" then "" else abandoned)
            && (ManagedIPs in t <==> ManagedIPs in a || recorded != "")
  {
  }

  lemma WroteNothing(a: Annotations, field: Key, text: string, abandoned: string, recorded: string)
    requires IsField(field) && Get(a, field) == text && Get(a, ManagedIPs) == recorded
    requires Get(a, OtherField(field)) == "" || (Get(a, OtherField(field)) == abandoned)
    ensures Wrote(a, field, text, abandoned, recorded) == a
  {
  }

  function AddressesPassed(canon: Canon, net: Netip, managed: seq<ValidPrefix>, a: Annotations, all: seq<string>, field: Key): Annotations {
    var rec := IPRecord(canon, a);
    var preserved := Preserve(canon, net, managed, rec, Get(a, field));
    Wrote(a, field, Join(Deduped(canon, preserved + all)),
          Join(Preserve(canon, net, managed, rec, Get(a, OtherField(field)))),
          FormatOwnershipRecord(Claimed(canon, all, preserved)))
  }

  /** Whether the pass reports a change. */
  function AddressesChanged(canon: Canon, net: Netip, managed: seq<ValidPrefix>, a: Annotations, all: seq<string>, field: Key): bool {
    var preserved := Preserve(canon, net, managed, IPRecord(canon, a), Get(a, field));
    || Get(a, field) != Join(Deduped(canon, preserved + all))
    || Get(a, OtherField(field)) != ""
    || Get(a, ManagedIPs) != FormatOwnershipRecord(Claimed(canon, all, preserved))
  }

  /** Writes the selected provider's field and takes the operator's entries out of the other's. */
  method WriteLBAddresses(canon: Canon, net: Netip, managed: seq<ValidPrefix>, annotations: Annotations, newAnnotations: Annotations,
                          field: Key, addresses: string, rec: Record)
    returns (written: Annotations, updated: bool)
    ensures Get(annotations, OtherField(field)) == "" ==> written == WroteFields(annotations, newAnnotations, field, addresses, "")
    ensures Get(annotations, OtherField(field)) != "" ==>
              written == WroteFields(annotations, newAnnotations, field, addresses, Join(Preserve(canon, net, managed, rec, Get(annotations, OtherField(field)))))
    ensures updated <==> Get(annotations, field) != addresses || Get(annotations, OtherField(field)) != ""
  {
    updated := Get(annotations, field) != addresses;
    written := if updated then newAnnotations[field := addresses] else newAnnotations;
    var stripped: bool;
    written, stripped := StripAbandoned(canon, net, managed, Get(annotations, OtherField(field)), written, OtherField(field), rec);
    updated := updated || stripped;
  }

  method StripAbandoned(canon: Canon, net: Netip, managed: seq<ValidPrefix>, text: string, annotations: Annotations, abandoned: Key, rec: Record)
    returns (written: Annotations, stripped: bool)
    ensures stripped <==> text != ""
    ensures written == if stripped then PutOrDelete(annotations, abandoned, Join(Preserve(canon, net, managed, rec, text))) else annotations
  {
    if text == "" {
      return annotations, false;
    }
    var kept := PreserveUnownedIPs(canon, net, managed, rec, text);
    return PutOrDelete(annotations, abandoned, Join(kept)), true;
  }

  method SyncAddresses(canon: Canon, net: Netip, managed: seq<ValidPrefix>, annotations: Annotations, all: seq<string>, field: Key)
    returns (newAnnotations: Annotations, updated: bool)
    ensures newAnnotations == AddressesPassed(canon, net, managed, annotations, all, field)
    ensures updated <==> AddressesChanged(canon, net, managed, annotations, all, field)
  {
    var rec := ParseOwnershipRecord(canon, Lookup(annotations, ManagedIPs));
    var preserved := PreserveUnownedIPs(canon, net, managed, rec, Get(annotations, field));
    var claimed := ExcludePinned(canon, all, preserved);
    var final := DedupePreservingOrder(canon, preserved + all);
    newAnnotations, updated := WriteLBAddresses(canon, net, managed, annotations, annotations, field, Join(final), rec);
    var recordValue := FormatOwnershipRecord(claimed);
    if Get(annotations, ManagedIPs) != recordValue {
      newAnnotations, updated := newAnnotations[ManagedIPs := recordValue], true;
    }
  }

  // ---------------------------------------------------------------- facts about one pass

  /** Calculated addresses, as netip prints them. */
  ghost predicate Generated(canon: Canon, all: seq<string>) {
    forall e :: e in all ==> Recordable(canon, e)
  }

  /** What a pass preserves of one field. */
  function PreservedIn(canon: Canon, net: Netip, managed: seq<ValidPrefix>, a: Annotations, field: Key): seq<string> {
    Preserve(canon, net, managed, IPRecord(canon, a), Get(a, field))
  }

  ghost predicate Grounded(canon: Canon, net: Netip, managed: seq<ValidPrefix>, a: Annotations, field: Key) {
    GroundedText(net, managed, IPRecord(canon, a), Get(a, field))
  }

  /** Normalising a text does not change which address it is: both come from the same parser. */
  ghost predicate Coherent(canon: Canon, net: Netip) {
    forall e :: net.parseAddr(canon(e)) == net.parseAddr(e)
  }

  /** What a pass preserves is the user's exactly when the text is grounded; otherwise some of it is lost. */
  lemma PreserveLoses(canon: Canon, net: Netip, managed: seq<ValidPrefix>, rec: Record, text: string)
    ensures var kept, own := Preserve(canon, net, managed, rec, text), UserView(Plain(canon), rec, Entries(text));
            && (kept == own <==> GroundedText(net, managed, rec, text))
            && |kept| <= |own| && KeySet(canon, kept) <= KeySet(canon, own)
  {
    if rec.Present? {
      PreserveIsView(canon, net, managed, rec, text);
    } else {
      UserViewExtremes(Plain(canon), rec, Entries(text));
      KeptByClaims(Plain(canon), rec, InManaged(net, managed), Entries(text));
      KeptMembers(Plain(canon), rec, InManaged(net, managed), Entries(text));
    }
  }

  /** By identities as well: a claimed entry takes all its spellings along. */
  lemma PreserveLosesIdentities(canon: Canon, net: Netip, managed: seq<ValidPrefix>, rec: Record, text: string)
    requires Coherent(canon, net)
    ensures KeySet(canon, Preserve(canon, net, managed, rec, text)) == KeySet(canon, UserView(Plain(canon), rec, Entries(text)))
       <==> GroundedText(net, managed, rec, text)
  {
    var kept, own := Preserve(canon, net, managed, rec, text), UserView(Plain(canon), rec, Entries(text));
    PreserveLoses(canon, net, managed, rec, text);
    if !GroundedText(net, managed, rec, text) {
      UserViewExtremes(Plain(canon), rec, Entries(text));
      KeptMembers(Plain(canon), rec, InManaged(net, managed), Entries(text));
      var e :| e in Entries(text) && ManagedIP(net, managed, e);
      assert canon(e) in KeySet(canon, own);
      forall f | f in kept
        ensures canon(f) != canon(e)
      {
        assert net.parseAddr(canon(e)) == net.parseAddr(e) && net.parseAddr(canon(f)) == net.parseAddr(f);
        assert !ManagedIP(net, managed, f);
      }
    }
  }

  lemma PreservedIsView(canon: Canon, net: Netip, managed: seq<ValidPrefix>, a: Annotations, field: Key)
    ensures PreservedIn(canon, net, managed, a, field) == View(canon, a, field) <==> Grounded(canon, net, managed, a, field)
    ensures |PreservedIn(canon, net, managed, a, field)| <= |View(canon, a, field)|
    ensures KeySet(canon, PreservedIn(canon, net, managed, a, field)) <= KeySet(canon, View(canon, a, field))
  {
    PreserveLoses(canon, net, managed, IPRecord(canon, a), Get(a, field));
  }

  lemma LostIdentities(canon: Canon, net: Netip, managed: seq<ValidPrefix>, a: Annotations, field: Key)
    requires Coherent(canon, net)
    ensures KeySet(canon, PreservedIn(canon, net, managed, a, field)) == KeySet(canon, View(canon, a, field)) <==> Grounded(canon, net, managed, a, field)
  {
    PreserveLosesIdentities(canon, net, managed, IPRecord(canon, a), Get(a, field));
  }

  lemma ClaimedMeaning(canon: Canon, all: seq<string>, preserved: seq<string>)
    requires Generated(canon, all) && AllClean(preserved)
    ensures forall e :: e in Claimed(canon, all, preserved) <==> e in all && e !in KeySet(canon, preserved)
    ensures Generated(canon, Claimed(canon, all, preserved))
  {
    UnpinnedMeaning(canon, all, CanonKeys(canon, preserved));
    CanonKeysOfClean(canon, preserved);
    forall e | e in all
      ensures canon(Trim(e)) == e
    {
      TrimMeaning(e);
    }
  }

  /** What the fields and the record hold after a pass. */
  lemma PassedFields(canon: Canon, net: Netip, managed: seq<ValidPrefix>, a: Annotations, all: seq<string>, field: Key)
    requires Generated(canon, all) && IsField(field)
    ensures var t, preserved := AddressesPassed(canon, net, managed, a, all, field), Preserve(canon, net, managed, IPRecord(canon, a), Get(a, field));
            && Entries(Get(t, field)) == Deduped(canon, preserved + all)
            && Entries(Get(t, OtherField(field))) == Preserve(canon, net, managed, IPRecord(canon, a), Get(a, OtherField(field)))
            && Get(t, ManagedIPs) == Join(Claimed(canon, all, preserved))
            && (ManagedIPs in t <==> ManagedIPs in a || Claimed(canon, all, preserved) != [])
  {
    var rec := IPRecord(canon, a);
    var preserved, others := Preserve(canon, net, managed, rec, Get(a, field)), Preserve(canon, net, managed, rec, Get(a, OtherField(field)));
    PreserveClean(canon, net, managed, rec, Get(a, field));
    PreserveClean(canon, net, managed, rec, Get(a, OtherField(field)));
    ReadBack(canon, preserved, all, others);
    WroteTexts(a, field, Join(Deduped(canon, preserved + all)), Join(others), Join(Claimed(canon, all, preserved)));
    assert Entries("") == [];
  }

  lemma ReadBack(canon: Canon, preserved: seq<string>, all: seq<string>, others: seq<string>)
    requires Generated(canon, all) && AllClean(preserved) && AllClean(others)
    ensures Entries(Join(Deduped(canon, preserved + all))) == Deduped(canon, preserved + all)
    ensures Entries(Join(others)) == others && (Join(others) == "" <==> others == [])
    ensures Join(Claimed(canon, all, preserved)) == "" <==> Claimed(canon, all, preserved) == []
  {
    assert AllClean(preserved + all);
    DedupedClean(canon, preserved + all);
    EntriesOfJoin(Deduped(canon, preserved + all));
    EntriesOfJoin(others);
    JoinBlank(others);
    ClaimedMeaning(canon, all, preserved);
    JoinBlank(Claimed(canon, all, preserved));
  }

  /** The record a pass leaves: exactly what it claimed; none only if there was none and it claimed nothing. */
  lemma PassedIPRecord(canon: Canon, net: Netip, managed: seq<ValidPrefix>, a: Annotations, all: seq<string>, field: Key)
    requires Generated(canon, all) && IsField(field)
    ensures var t, claimed := AddressesPassed(canon, net, managed, a, all, field),
                              Claimed(canon, all, Preserve(canon, net, managed, IPRecord(canon, a), Get(a, field)));
            IPRecord(canon, t) == if ManagedIPs in a || claimed != [] then Present(set e | e in claimed) else Absent
  {
    var preserved := Preserve(canon, net, managed, IPRecord(canon, a), Get(a, field));
    PassedFields(canon, net, managed, a, all, field);
    PreserveClean(canon, net, managed, IPRecord(canon, a), Get(a, field));
    ClaimedMeaning(canon, all, preserved);
    RecordRoundTrip(canon, Claimed(canon, all, preserved));
  }

  /** The list a pass writes: the user's entries, and after them operator addresses that are exactly the claimed ones. */
  lemma WrittenList(canon: Canon, preserved: seq<string>, all: seq<string>, rec: Record)
    requires Generated(canon, all) && AllClean(preserved)
    requires var claimed := Claimed(canon, all, preserved); rec == Present(set e | e in claimed) || (rec.Absent? && claimed == [])
    ensures var final, claimed := Deduped(canon, preserved + all), Claimed(canon, all, preserved);
            && UserView(Plain(canon), rec, final) == Deduped(canon, preserved)
            && (forall e :: e in claimed ==> e in final)
            && (forall e :: e in final ==> (Recorded(Plain(canon), rec, e) <==> e in claimed))
  {
    var b, claimed := Plain(canon), Claimed(canon, all, preserved);
    var users, ours := Deduped(canon, preserved), Deduped(canon, Unseen(canon, preserved, all));
    DedupedAppend(canon, preserved, all);
    DedupedMeaning(canon, preserved);
    DedupedMeaning(canon, Unseen(canon, preserved, all));
    UnseenKeys(canon, preserved, all);
    ClaimedMeaning(canon, all, preserved);
    DedupedClean(canon, preserved);
    forall e | e in users
      ensures !Recorded(b, rec, e) && e !in claimed
    {
      assert canon(e) in KeySet(canon, users);
    }
    forall e | e in ours
      ensures Recorded(b, rec, e) && e in claimed
    {
      assert canon(e) in KeySet(canon, ours);
    }
    forall e | e in claimed
      ensures e in ours
    {
      assert canon(e) in KeySet(canon, ours);
      var f :| f in ours && canon(f) == canon(e);
      assert f in all;
    }
    UserViewConcat(b, rec, users, ours);
    UserViewExtremes(b, rec, users);
    UserViewExtremes(b, rec, ours);
  }

  /** An entry preserved in the other provider's field that the pass is about to record as its own. */
  ghost predicate Clash(canon: Canon, net: Netip, managed: seq<ValidPrefix>, a: Annotations, all: seq<string>, field: Key) {
    exists e :: e in PreservedIn(canon, net, managed, a, OtherField(field))
                && canon(e) in Claimed(canon, all, PreservedIn(canon, net, managed, a, field))
  }

  /** After a pass the selected field holds as the user's what was preserved, in order and without repeats, and all
      operator addresses in it are the recorded ones. */
  lemma SelectedField(canon: Canon, net: Netip, managed: seq<ValidPrefix>, a: Annotations, all: seq<string>, field: Key)
    requires Generated(canon, all) && IsField(field)
    ensures var t, kept := AddressesPassed(canon, net, managed, a, all, field), PreservedIn(canon, net, managed, a, field);
            var claimed := Claimed(canon, all, kept);
            && View(canon, t, field) == Deduped(canon, kept)
            && (forall e :: e in claimed ==> e in Entries(Get(t, field)))
            && (forall e :: e in Entries(Get(t, field)) ==> (Recorded(Plain(canon), IPRecord(canon, t), e) <==> e in claimed))
            && (IPRecord(canon, t).Present? ==> IPRecord(canon, t).keys == set e | e in claimed)
  {
    var t := AddressesPassed(canon, net, managed, a, all, field);
    PreserveClean(canon, net, managed, IPRecord(canon, a), Get(a, field));
    PassedFields(canon, net, managed, a, all, field);
    PassedIPRecord(canon, net, managed, a, all, field);
    WrittenList(canon, PreservedIn(canon, net, managed, a, field), all, IPRecord(canon, t));
  }

  /** So the user keeps the selected field, up to repeats, exactly when there is a record or no entry of it is claimed. */
  lemma SelectedFieldKept(canon: Canon, net: Netip, managed: seq<ValidPrefix>, a: Annotations, all: seq<string>, field: Key)
    requires Generated(canon, all) && IsField(field) && Coherent(canon, net)
    ensures var t := AddressesPassed(canon, net, managed, a, all, field);
            Deduped(canon, View(canon, t, field)) == Deduped(canon, View(canon, a, field)) <==> Grounded(canon, net, managed, a, field)
  {
    var t, kept, own := AddressesPassed(canon, net, managed, a, all, field), PreservedIn(canon, net, managed, a, field), View(canon, a, field);
    SelectedField(canon, net, managed, a, all, field);
    PreservedIsView(canon, net, managed, a, field);
    LostIdentities(canon, net, managed, a, field);
    DedupedTwice(canon, kept, []);
    if Deduped(canon, kept) == Deduped(canon, own) {
      DedupedSameKeys(canon, kept, own);
    }
  }

  /** The abandoned field holds what was preserved there, and none of the operator's exactly when nothing clashes. The
      user keeps it exactly when, besides, there is a record or no entry of it is claimed. */
  lemma AbandonedField(canon: Canon, net: Netip, managed: seq<ValidPrefix>, a: Annotations, all: seq<string>, field: Key)
    requires Generated(canon, all) && IsField(field)
    ensures var t, other := AddressesPassed(canon, net, managed, a, all, field), OtherField(field);
            var kept, clash := PreservedIn(canon, net, managed, a, other), Clash(canon, net, managed, a, all, field);
            && Entries(Get(t, other)) == kept
            && (View(canon, t, other) == kept <==> !clash)
            && (View(canon, t, other) == View(canon, a, other) <==> Grounded(canon, net, managed, a, other) && !clash)
            && KeySet(canon, View(canon, t, other)) <= KeySet(canon, kept)
            && (KeySet(canon, View(canon, t, other)) == KeySet(canon, kept) <==> !clash)
  {
    var t, other := AddressesPassed(canon, net, managed, a, all, field), OtherField(field);
    var kept, rec := PreservedIn(canon, net, managed, a, other), IPRecord(canon, t);
    assert Entries(Get(t, other)) == kept && AllClean(kept) by {
      PreserveClean(canon, net, managed, IPRecord(canon, a), Get(a, other));
      PassedFields(canon, net, managed, a, all, field);
    }
    ClashIsRecorded(canon, net, managed, a, all, field);
    ViewAfterRecording(canon, rec, kept);
    PreservedIsView(canon, net, managed, a, other);
  }

  /** A clash is an entry preserved in the other field that the pass records. */
  lemma ClashIsRecorded(canon: Canon, net: Netip, managed: seq<ValidPrefix>, a: Annotations, all: seq<string>, field: Key)
    requires Generated(canon, all) && IsField(field)
    ensures var rec := IPRecord(canon, AddressesPassed(canon, net, managed, a, all, field));
            Clash(canon, net, managed, a, all, field)
            <==> exists e :: e in PreservedIn(canon, net, managed, a, OtherField(field)) && Recorded(Plain(canon), rec, e)
  {
    var kept, rec := PreservedIn(canon, net, managed, a, OtherField(field)), IPRecord(canon, AddressesPassed(canon, net, managed, a, all, field));
    PreserveClean(canon, net, managed, IPRecord(canon, a), Get(a, OtherField(field)));
    PassedIPRecord(canon, net, managed, a, all, field);
    assert forall e :: e in kept ==> (Recorded(Plain(canon), rec, e) <==> canon(e) in Claimed(canon, all, PreservedIn(canon, net, managed, a, field)));
  }

  lemma AbandonedFieldKept(canon: Canon, net: Netip, managed: seq<ValidPrefix>, a: Annotations, all: seq<string>, field: Key)
    requires Generated(canon, all) && IsField(field) && Coherent(canon, net)
    ensures var t, other := AddressesPassed(canon, net, managed, a, all, field), OtherField(field);
            Deduped(canon, View(canon, t, other)) == Deduped(canon, View(canon, a, other))
            <==> Grounded(canon, net, managed, a, other) && !Clash(canon, net, managed, a, all, field)
  {
    var t, other := AddressesPassed(canon, net, managed, a, all, field), OtherField(field);
    AbandonedField(canon, net, managed, a, all, field);
    PreservedIsView(canon, net, managed, a, other);
    LostIdentities(canon, net, managed, a, other);
    if Deduped(canon, View(canon, t, other)) == Deduped(canon, View(canon, a, other)) {
      DedupedSameKeys(canon, View(canon, t, other), View(canon, a, other));
    }
  }

  /** Recording something that is in a list takes its identity from the list; recording nothing of it keeps the list. */
  lemma ViewAfterRecording(canon: Canon, rec: Record, own: seq<string>)
    requires AllClean(own)
    ensures UserView(Plain(canon), rec, own) == own <==> forall e :: e in own ==> !Recorded(Plain(canon), rec, e)
    ensures |UserView(Plain(canon), rec, own)| <= |own|
    ensures KeySet(canon, UserView(Plain(canon), rec, own)) <= KeySet(canon, own)
    ensures KeySet(canon, UserView(Plain(canon), rec, own)) == KeySet(canon, own) <==> forall e :: e in own ==> !Recorded(Plain(canon), rec, e)
  {
    UserViewExtremes(Plain(canon), rec, own);
    UserViewMembers(Plain(canon), rec, own);
    if e :| e in own && Recorded(Plain(canon), rec, e) {
      assert canon(e) in KeySet(canon, own);
      assert canon(e) !in KeySet(canon, UserView(Plain(canon), rec, own));
    }
  }

  /** After a pass both fields are grounded: there is a record, or nothing was claimed and what is there is what the
      fallback left. */
  lemma GroundedAfter(canon: Canon, net: Netip, managed: seq<ValidPrefix>, a: Annotations, all: seq<string>, field: Key)
    requires Generated(canon, all) && IsField(field)
    ensures var t := AddressesPassed(canon, net, managed, a, all, field);
            Grounded(canon, net, managed, t, field) && Grounded(canon, net, managed, t, OtherField(field))
  {
    var t, other := AddressesPassed(canon, net, managed, a, all, field), OtherField(field);
    var kept := PreservedIn(canon, net, managed, a, field);
    PassedIPRecord(canon, net, managed, a, all, field);
    if IPRecord(canon, t).Absent? {
      assert Entries(Get(t, field)) == Deduped(canon, kept) by {
        SelectedField(canon, net, managed, a, all, field);
        UserViewExtremes(Plain(canon), Absent, Entries(Get(t, field)));
      }
      assert Entries(Get(t, other)) == PreservedIn(canon, net, managed, a, other) by {
        AbandonedField(canon, net, managed, a, all, field);
      }
      PreservedUnclaimed(canon, net, managed, Get(a, field));
      PreservedUnclaimed(canon, net, managed, Get(a, other));
      DedupedMeaning(canon, kept);
    }
  }

  lemma PreservedUnclaimed(canon: Canon, net: Netip, managed: seq<ValidPrefix>, text: string)
    ensures forall e :: e in Preserve(canon, net, managed, Absent, text) ==> !ManagedIP(net, managed, e)
  {
    KeptMembers(Plain(canon), Absent, InManaged(net, managed), Entries(text));
  }

  /** A second pass writes the same annotations exactly when nothing clashed; it still reports a change exactly when the
      other provider's field holds anything. */
  lemma AddressesSettle(canon: Canon, net: Netip, managed: seq<ValidPrefix>, a: Annotations, all: seq<string>, field: Key)
    requires Generated(canon, all) && IsField(field)
    ensures var t, clash := AddressesPassed(canon, net, managed, a, all, field), Clash(canon, net, managed, a, all, field);
            && (AddressesPassed(canon, net, managed, t, all, field) == t <==> !clash)
            && (AddressesChanged(canon, net, managed, t, all, field) <==> PreservedIn(canon, net, managed, a, OtherField(field)) != [])
  {
    var t, other := AddressesPassed(canon, net, managed, a, all, field), OtherField(field);
    var kept, others := PreservedIn(canon, net, managed, a, field), PreservedIn(canon, net, managed, a, other);
    var again := PreservedIn(canon, net, managed, t, field);
    var text, recorded := Join(Deduped(canon, kept + all)), Join(Claimed(canon, all, kept));
    assert AllClean(kept) && AllClean(others) && AllClean(PreservedIn(canon, net, managed, t, other)) by {
      PreserveClean(canon, net, managed, IPRecord(canon, a), Get(a, field));
      PreserveClean(canon, net, managed, IPRecord(canon, a), Get(a, other));
      PreserveClean(canon, net, managed, IPRecord(canon, t), Get(t, other));
    }
    assert again == Deduped(canon, kept) && (PreservedIn(canon, net, managed, t, other) == others <==> !Clash(canon, net, managed, a, all, field)) by {
      GroundedAfter(canon, net, managed, a, all, field);
      PreservedIsView(canon, net, managed, t, field);
      PreservedIsView(canon, net, managed, t, other);
      SelectedField(canon, net, managed, a, all, field);
      AbandonedField(canon, net, managed, a, all, field);
    }
    assert Deduped(canon, again + all) == Deduped(canon, kept + all) && Claimed(canon, all, again) == Claimed(canon, all, kept) by {
      DedupedTwice(canon, kept, all);
      SameClaims(canon, all, kept);
    }
    assert Get(t, field) == text && Get(t, ManagedIPs) == recorded && Get(t, other) == (if others == [] then "" else Join(others)) by {
      WroteTexts(a, field, text, Join(others), recorded);
      JoinBlank(others);
      PreservedBlank(canon, net, managed, a, other);
    }
    NoEntriesNoClash(canon, net, managed, a, all, field);
    SecondPassTexts(canon, net, managed, t, all, field, others, text, recorded);
  }

  lemma PreservedBlank(canon: Canon, net: Netip, managed: seq<ValidPrefix>, a: Annotations, field: Key)
    ensures Get(a, field) == "" ==> PreservedIn(canon, net, managed, a, field) == []
  {
    assert Entries("") == [];
  }

  lemma NoEntriesNoClash(canon: Canon, net: Netip, managed: seq<ValidPrefix>, a: Annotations, all: seq<string>, field: Key)
    ensures PreservedIn(canon, net, managed, a, OtherField(field)) == [] ==> !Clash(canon, net, managed, a, all, field)
  {
  }

  /** The second pass, text by text. */
  lemma SecondPassTexts(canon: Canon, net: Netip, managed: seq<ValidPrefix>, t: Annotations, all: seq<string>, field: Key,
                        others: seq<string>, text: string, recorded: string)
    requires IsField(field) && AllClean(others)
    requires Get(t, field) == text && Get(t, ManagedIPs) == recorded
    requires Get(t, OtherField(field)) == (if others == [] then "" else Join(others))
    requires Join(Deduped(canon, PreservedIn(canon, net, managed, t, field) + all)) == text
    requires Join(Claimed(canon, all, PreservedIn(canon, net, managed, t, field))) == recorded
    requires AllClean(PreservedIn(canon, net, managed, t, OtherField(field)))
    ensures AddressesPassed(canon, net, managed, t, all, field) == t <==> PreservedIn(canon, net, managed, t, OtherField(field)) == others || others == []
    ensures AddressesChanged(canon, net, managed, t, all, field) <==> others != []
  {
    var again := PreservedIn(canon, net, managed, t, OtherField(field));
    JoinBlank(others);
    JoinBlank(again);
    EntriesOfJoin(others);
    EntriesOfJoin(again);
    if again == others || others == [] {
      WroteNothing(t, field, text, Join(again), recorded);
    } else {
      WroteTexts(t, field, text, Join(again), recorded);
    }
  }

  lemma SameClaims(canon: Canon, all: seq<string>, own: seq<string>)
    requires AllClean(own)
    ensures Claimed(canon, all, Deduped(canon, own)) == Claimed(canon, all, own)
  {
    DedupedMeaning(canon, own);
    DedupedClean(canon, own);
    CanonKeysOfClean(canon, own);
    CanonKeysOfClean(canon, Deduped(canon, own));
  }

  // ---------------------------------------------------------------- release

  function IPsHandedBack(a: Annotations, cilium: string, kubevip: string): Annotations {
    if ManagedIPs !in a then a else PutOrDelete(PutOrDelete(a, CiliumIPs, cilium) - {ManagedIPs}, KubevipIPs, kubevip) - {ManagedIPs}
  }

  function TargetHandedBack(a: Annotations, ips: Annotations, alpha: string): Annotations {
    if ManagedTargets !in a then ips else PutOrDelete(ips, TargetAlpha, alpha) - {ManagedTargets}
  }

  /** With the records go the time of the last sync and the fingerprint of the addresses. */
  function SyncForgotten(a: Annotations, t: Annotations): Annotations {
    if ManagedIPs in a || ManagedTargets in a then t - {LastSync, L2Nudge} else t
  }

  function HandedBack(a: Annotations, cilium: string, kubevip: string, alpha: string): Annotations {
    SyncForgotten(a, TargetHandedBack(a, IPsHandedBack(a, cilium, kubevip), alpha))
  }

  lemma IPsHandedBackKeys(a: Annotations, cilium: string, kubevip: string)
    ensures var t := IPsHandedBack(a, cilium, kubevip);
            && ManagedIPs !in t
            && Get(t, CiliumIPs) == (if ManagedIPs in a then cilium else Get(a, CiliumIPs))
            && Get(t, KubevipIPs) == (if ManagedIPs in a then kubevip else Get(a, KubevipIPs))
            && (forall k: Key :: !IsField(k) && k != ManagedIPs ==> Lookup(t, k) == Lookup(a, k))
  {
  }

  lemma HandedBackKeys(a: Annotations, cilium: string, kubevip: string, alpha: string)
    ensures var t := HandedBack(a, cilium, kubevip, alpha);
            && (ManagedIPs in a || ManagedTargets in a ==> LastSync !in t && L2Nudge !in t)
            && (forall k: Key :: k.Other? || k.LBProvider? ==> Lookup(t, k) == Lookup(a, k))
            && ManagedIPs !in t && ManagedTargets !in t
            && Get(t, CiliumIPs) == (if ManagedIPs in a then cilium else Get(a, CiliumIPs))
            && Get(t, KubevipIPs) == (if ManagedIPs in a then kubevip else Get(a, KubevipIPs))
            && Get(t, TargetAlpha) == (if ManagedTargets in a then alpha else Get(a, TargetAlpha))
            && Get(t, TargetNew) == Get(a, TargetNew)
  {
    IPsHandedBackKeys(a, cilium, kubevip);
    TargetHandedBackKeys(a, IPsHandedBack(a, cilium, kubevip), alpha);
  }

  lemma TargetHandedBackKeys(a: Annotations, ips: Annotations, alpha: string)
    requires forall k: Key :: !IsField(k) && k != ManagedIPs ==> Lookup(ips, k) == Lookup(a, k)
    ensures var t := SyncForgotten(a, TargetHandedBack(a, ips, alpha));
            && (ManagedIPs in a || ManagedTargets in a ==> LastSync !in t && L2Nudge !in t)
            && ManagedTargets !in t && Get(t, TargetAlpha) == (if ManagedTargets in a then alpha else Get(a, TargetAlpha))
            && (forall k: Key :: k != LastSync && k != L2Nudge && k != TargetAlpha && k != ManagedTargets ==> Lookup(t, k) == Lookup(ips, k))
  {
    assert Lookup(ips, TargetAlpha) == Lookup(a, TargetAlpha) && Lookup(ips, ManagedTargets) == Lookup(a, ManagedTargets);
  }

  function TargetRecord(canon: Canon, a: Annotations): Record {
    RecordOf(canon, Lookup(a, ManagedTargets))
  }

  /** The text of an annotation without the entries the record names. */
  function Without(canon: Canon, rec: Record, text: string): string {
    Join(UserView(Plain(canon), rec, Entries(text)))
  }

  /** Of the two external-dns keys only the alpha one is handed back. */
  function ReleasedService(canon: Canon, a: Annotations): Annotations {
    var rec := IPRecord(canon, a);
    HandedBack(a, Without(canon, rec, Get(a, CiliumIPs)), Without(canon, rec, Get(a, KubevipIPs)),
               Without(canon, TargetRecord(canon, a), Get(a, TargetAlpha)))
  }

  class Service {
    var annotations: Annotations
    var updates: nat

    constructor (annotations: Annotations)
      ensures this.annotations == annotations && updates == 0
    {
      this.annotations, updates := annotations, 0;
    }

    /** One update of the object. */
    method Write(newAnnotations: Annotations)
      modifies this
      ensures annotations == newAnnotations && updates == old(updates) + 1
    {
      annotations := newAnnotations;
      updates := updates + 1;
    }

    /** The release of one field and its record. */
    method ReleaseOne(canon: Canon, net: Netip, newAnnotations: Annotations, field: Key, recordKey: Key) returns (released: Annotations, changed: bool)
      ensures changed <==> recordKey in annotations
      ensures released == if recordKey !in annotations then newAnnotations
                          else PutOrDelete(newAnnotations, field, Without(canon, RecordOf(canon, Lookup(annotations, recordKey)), Get(annotations, field))) - {recordKey}
    {
      if recordKey !in annotations {
        return newAnnotations, false;
      }
      var rec := ParseOwnershipRecord(canon, Lookup(annotations, recordKey));
      var remaining := PreserveUnownedIPs(canon, net, [], rec, Get(annotations, field));
      var text := Join(remaining);
      assert text == Without(canon, rec, Get(annotations, field)) by {
        PreserveIsView(canon, net, [], rec, Get(annotations, field));
      }
      released := PutOrDelete(newAnnotations, field, text) - {recordKey};
      return released, true;
    }

    /** Hands a Service back: one write, or none when there is no record at all. */
    method ReleaseService(canon: Canon, net: Netip) returns (written: bool)
      modifies this
      ensures annotations == ReleasedService(canon, old(annotations))
      ensures written <==> ManagedIPs in old(annotations) || ManagedTargets in old(annotations)
      ensures updates == old(updates) + if written then 1 else 0
    {
      var result, cilium := ReleaseOne(canon, net, annotations, CiliumIPs, ManagedIPs);
      var kubevip, targets: bool;
      result, kubevip := ReleaseOne(canon, net, result, KubevipIPs, ManagedIPs);
      result, targets := ReleaseOne(canon, net, result, TargetAlpha, ManagedTargets);
      if !cilium && !kubevip && !targets {
        return false;
      }
      Write(result - {LastSync, L2Nudge});
      return true;
    }
  }

  lemma StrippedText(canon: Canon, rec: Record, text: string)
    ensures Entries(Join(UserView(Plain(canon), rec, Entries(text)))) == UserView(Plain(canon), rec, Entries(text))
  {
    EntriesClean(text);
    UserViewMembers(Plain(canon), rec, Entries(text));
    EntriesOfJoin(UserView(Plain(canon), rec, Entries(text)));
  }

  lemma ReleasedKeys(canon: Canon, a: Annotations)
    ensures var t, rec := ReleasedService(canon, a), IPRecord(canon, a);
            && ManagedIPs !in t && ManagedTargets !in t
            && (ManagedIPs in a || ManagedTargets in a ==> LastSync !in t && L2Nudge !in t)
            && Get(t, CiliumIPs) == (if ManagedIPs in a then Without(canon, rec, Get(a, CiliumIPs)) else Get(a, CiliumIPs))
            && Get(t, KubevipIPs) == (if ManagedIPs in a then Without(canon, rec, Get(a, KubevipIPs)) else Get(a, KubevipIPs))
            && Get(t, TargetAlpha) == (if ManagedTargets in a then Without(canon, TargetRecord(canon, a), Get(a, TargetAlpha)) else Get(a, TargetAlpha))
            && Get(t, TargetNew) == Get(a, TargetNew)
            && (forall k: Key :: k.Other? || k.LBProvider? ==> Lookup(t, k) == Lookup(a, k))
  {
    var rec := IPRecord(canon, a);
    HandedBackKeys(a, Without(canon, rec, Get(a, CiliumIPs)), Without(canon, rec, Get(a, KubevipIPs)),
                   Without(canon, TargetRecord(canon, a), Get(a, TargetAlpha)));
  }

  /** After a release both provider fields hold exactly the user's entries, and no record is left. */
  lemma ReleaseRestoresFields(canon: Canon, a: Annotations, field: Key)
    requires IsField(field)
    ensures Entries(Get(ReleasedService(canon, a), field)) == View(canon, a, field)
    ensures ManagedIPs !in ReleasedService(canon, a) && ManagedTargets !in ReleasedService(canon, a)
    ensures ManagedIPs in a || ManagedTargets in a ==> LastSync !in ReleasedService(canon, a) && L2Nudge !in ReleasedService(canon, a)
    ensures forall k: Key :: k.Other? || k.LBProvider? ==> Lookup(ReleasedService(canon, a), k) == Lookup(a, k)
  {
    ReleasedKeys(canon, a);
    StrippedText(canon, IPRecord(canon, a), Get(a, field));
    UserViewExtremes(Plain(canon), IPRecord(canon, a), Entries(Get(a, field)));
  }

  /** The annotation holds nothing the record names. */
  ghost predicate NoneRecorded(canon: Canon, rec: Record, text: string) {
    forall e :: e in Entries(text) ==> !Recorded(Plain(canon), rec, e)
  }

  /** A release hands back every external-dns key exactly when the new-form key holds nothing the operator recorded:
      only the alpha key is stripped, while the record that names the entries goes either way. */
  lemma ReleaseOfTargets(canon: Canon, a: Annotations)
    requires ManagedTargets in a
    ensures var rec, t := TargetRecord(canon, a), ReleasedService(canon, a);
            && Entries(Get(t, TargetAlpha)) == UserView(Plain(canon), rec, Entries(Get(a, TargetAlpha)))
            && Get(t, TargetNew) == Get(a, TargetNew)
            && (NoneRecorded(canon, rec, Get(t, TargetAlpha)) && NoneRecorded(canon, rec, Get(t, TargetNew))
                <==> NoneRecorded(canon, rec, Get(a, TargetNew)))
  {
    var rec := TargetRecord(canon, a);
    ReleasedKeys(canon, a);
    StrippedText(canon, rec, Get(a, TargetAlpha));
    UserViewMembers(Plain(canon), rec, Entries(Get(a, TargetAlpha)));
  }

  // ---------------------------------------------------------------- inputs

  lemma OneEntry(e: string)
    requires Clean(e)
    ensures Entries(e) == [e] && Entries("") == []
  {
    EntriesOfJoin([e]);
  }

  /** A Service the operator has recorded nothing for, whose user keeps one entry for the provider not selected. */
  function OneUserEntry(e: string): Annotations {
    map[KubevipIPs := e, ManagedIPs := ""]
  }

  lemma OneUserEntryView(canon: Canon, net: Netip, managed: seq<ValidPrefix>, e: string)
    requires Clean(e)
    ensures var a := OneUserEntry(e);
            && IPRecord(canon, a) == Present({}) && View(canon, a, KubevipIPs) == [e]
            && PreservedIn(canon, net, managed, a, KubevipIPs) == [e] && PreservedIn(canon, net, managed, a, CiliumIPs) == []
  {
    OneEntry(e);
    var a := OneUserEntry(e);
    UserViewExtremes(Plain(canon), Present({}), [e]);
    PreservedIsView(canon, net, managed, a, KubevipIPs);
    PreservedIsView(canon, net, managed, a, CiliumIPs);
    UserViewExtremes(Plain(canon), Present({}), []);
  }

  lemma ClaimOne(canon: Canon, g: string)
    requires Recordable(canon, g)
    ensures forall e :: e in Claimed(canon, [g], []) <==> e == g
  {
    ClaimedMeaning(canon, [g], []);
  }

  lemma RecordedThenStripped(canon: Canon, net: Netip, managed: seq<ValidPrefix>, a: Annotations, all: seq<string>, field: Key, e: string)
    requires Generated(canon, all) && IsField(field) && PreservedIn(canon, net, managed, a, OtherField(field)) == [e]
    requires canon(e) in Claimed(canon, all, PreservedIn(canon, net, managed, a, field))
    ensures var once, other := AddressesPassed(canon, net, managed, a, all, field), OtherField(field);
            && Entries(Get(once, other)) == [e]
            && Entries(Get(AddressesPassed(canon, net, managed, once, all, field), other)) == []
  {
    var once, other := AddressesPassed(canon, net, managed, a, all, field), OtherField(field);
    AbandonedField(canon, net, managed, a, all, field);
    PassedIPRecord(canon, net, managed, a, all, field);
    PreservedIsView(canon, net, managed, once, other);
    UserViewExtremes(Plain(canon), IPRecord(canon, once), [e]);
    AbandonedField(canon, net, managed, once, all, field);
  }

  /** When the address calculated for one provider is the user's entry for the other, the pass records it and the next
      pass strips the user's. */
  lemma CoincidingAddressIsStripped(canon: Canon, net: Netip, managed: seq<ValidPrefix>, e: string)
    requires Recordable(canon, e)
    ensures var a := OneUserEntry(e);
            var once := AddressesPassed(canon, net, managed, a, [e], CiliumIPs);
            && View(canon, a, KubevipIPs) == [e] && Entries(Get(once, KubevipIPs)) == [e]
            && Entries(Get(AddressesPassed(canon, net, managed, once, [e], CiliumIPs), KubevipIPs)) == []
  {
    OneUserEntryView(canon, net, managed, e);
    ClaimOne(canon, e);
    RecordedThenStripped(canon, net, managed, OneUserEntry(e), [e], CiliumIPs, e);
  }

  /** A user's entry for the provider not selected makes every pass report a change, though none makes one. */
  lemma ChangeReportedForever(canon: Canon, net: Netip, managed: seq<ValidPrefix>, e: string, g: string)
    requires Recordable(canon, e) && Recordable(canon, g) && e != g
    ensures var once := AddressesPassed(canon, net, managed, OneUserEntry(e), [g], CiliumIPs);
            AddressesPassed(canon, net, managed, once, [g], CiliumIPs) == once && AddressesChanged(canon, net, managed, once, [g], CiliumIPs)
  {
    OneUserEntryView(canon, net, managed, e);
    ClaimOne(canon, g);
    AddressesSettle(canon, net, managed, OneUserEntry(e), [g], CiliumIPs);
  }
}
