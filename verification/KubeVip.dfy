/** The kube-vip ConfigMap: many pool keys in one object, each holding a comma-separated list that the operator
    shares with the user. The key to manage is named by an annotation the user may re-point at any time. */
module KubeVip {
  import opened Addresses
  import opened AddressRange
  import opened Text
  import opened Ownership
  import opened OwnedList
  import opened PoolBackends
  import PoolConfigs
  import Calico

  // ---------------------------------------------------------------- keys

  predicate LowerAlnum(c: char) {
    'a' <= c <= 'z' || '0' <= c <= '9'
  }

  /** What may follow `cidr-` or `range-`. */
  predicate KeyTail(s: string) {
    s != "" && LowerAlnum(s[0]) && LowerAlnum(s[|s| - 1]) && forall c :: c in s ==> c == '-' || LowerAlnum(c)
  }

  predicate RangeKey(key: string) {
    "range-" <= key && KeyTail(key[6..])
  }

  predicate PoolKey(key: string) {
    RangeKey(key) || ("cidr-" <= key && KeyTail(key[5..]))
  }

  /** The key the annotation names; None if it names none. */
  function KeyFor(annotation: Option<string>): (key: Option<string>)
    ensures key.Some? ==> PoolKey(key.value)
  {
    var key := Trim(OrEmpty(annotation));
    if PoolKey(key) then Some(key) else None
  }

  /** A pool key is one of two words, a dash, and a tail. */
  lemma PoolKeyMeaning(word: string, tail: string)
    requires '-' !in word
    ensures PoolKey(word + "-" + tail) <==> (word == "cidr" || word == "range") && KeyTail(tail)
    ensures RangeKey(word + "-" + tail) <==> word == "range" && KeyTail(tail)
  {
    var key := word + "-" + tail;
    assert "range" + "-" == "range-" && "cidr" + "-" == "cidr-";
    SameWord("range", word, tail);
    SameWord("cidr", word, tail);
    assert key[|word| + 1..] == tail;
  }

  lemma SameWord(w: string, word: string, tail: string)
    requires '-' !in w && '-' !in word
    ensures w + "-" <= word + "-" + tail <==> w == word
  {
    var key := word + "-" + tail;
    assert key[|word|] == '-' && key[..|word|] == word;
    if w + "-" <= key {
      assert (w + "-")[|w|] == key[|w|] && w == key[..|w|];
    }
  }

  /** The annotation names its key whatever white space is around it. */
  lemma KeyForMeaning(pre: string, key: string, post: string)
    requires AllSpace(pre) && AllSpace(post) && Tight(key)
    ensures KeyFor(Some(pre + key + post)) == if PoolKey(key) then Some(key) else None
    ensures KeyFor(None) == None
  {
    TrimAround(pre, key, post);
    assert Trim("") == "";
  }

  // ---------------------------------------------------------------- rendering

  datatype Entry = RangeEntry(first: Address, last: Address) | CidrEntry(cidr: ValidPrefix)

  function EntryFor(wantRange: bool, c: PoolConfigs.PoolConfig): Option<Entry> {
    match c
    case ByRange(r) =>
      if wantRange then Some(RangeEntry(r.start, r.end))
      else (match Calico.CalicoCIDR(c) case Some(p) => Some(CidrEntry(p)) case None => None)
    case ByCIDR(p) => if wantRange then Some(RangeEntry(p.Base(), LastAddr(p))) else Some(CidrEntry(p))
  }

  ghost predicate EntryDenotes(e: Entry, a: Address) {
    match e
    case RangeEntry(first, last) => first <= a <= last
    case CidrEntry(p) => p.Contains(a)
  }

  /** Whatever form the key takes, an entry denotes exactly its configuration's addresses. */
  lemma EntryDenotesConfig(wantRange: bool, c: PoolConfigs.PoolConfig, a: Address)
    requires EntryFor(wantRange, c).Some?
    ensures EntryDenotes(EntryFor(wantRange, c).value, a) <==> PoolConfigs.Denotes(c, a)
  {
    match c {
      case ByRange(r) => if !wantRange { ExactMeansDenoted(r.start, r.end); }
      case ByCIDR(p) => PrefixIsItsRange(p, a);
    }
  }

  ghost predicate NoCIDR(c: PoolConfigs.PoolConfig) {
    !exists p: ValidPrefix :: PoolConfigs.DenotedBy(p, c)
  }

  /** Rendering fails exactly for a cidr key and a configuration no CIDR denotes. */
  lemma RenderingFails(wantRange: bool, c: PoolConfigs.PoolConfig)
    ensures EntryFor(wantRange, c).None?
       <==> !wantRange && NoCIDR(c)
  {
    Calico.WritableMeansDenoted(c);
    if c.ByCIDR? {
      assert PoolConfigs.DenotedBy(c.cidr, c);
    }
  }

  /** The entries of a pass, or none if any configuration cannot be rendered. */
  function EntriesFor(show: Entry -> string, key: string, configs: seq<PoolConfigs.PoolConfig>): Option<seq<string>> {
    if configs == [] then Some([])
    else
      match (EntriesFor(show, key, configs[..|configs| - 1]), EntryFor(RangeKey(key), configs[|configs| - 1]))
      case (Some(init), Some(last)) => Some(init + [show(last)])
      case _ => None
  }

  /** The text is an entry of the form the key takes, and denotes exactly the configuration's addresses. */
  ghost predicate Writes(show: Entry -> string, key: string, text: string, c: PoolConfigs.PoolConfig) {
    exists x: Entry :: text == show(x) && (x.RangeEntry? <==> RangeKey(key)) && forall a: Address :: EntryDenotes(x, a) <==> PoolConfigs.Denotes(c, a)
  }

  /** All configurations are written, each in its turn, unless the key wants CIDRs and none denotes one of them. */
  lemma {:induction false} EntriesForMeaning(show: Entry -> string, key: string, configs: seq<PoolConfigs.PoolConfig>)
    ensures var r := EntriesFor(show, key, configs);
            && (r.None? <==> !RangeKey(key) && exists c :: c in configs && NoCIDR(c))
            && (r.Some? ==> |r.value| == |configs| && forall i :: 0 <= i < |configs| ==> Writes(show, key, r.value[i], configs[i]))
  {
    if configs != [] {
      var n := |configs| - 1;
      var c, init := configs[n], configs[..n];
      EntriesForMeaning(show, key, init);
      assert forall x :: x in configs <==> x in init || x == c by {
        assert configs == init + [c];
      }
      RenderingFails(RangeKey(key), c);
      if EntryFor(RangeKey(key), c).Some? {
        WritesOne(show, key, c);
      }
    }
  }

  lemma WritesOne(show: Entry -> string, key: string, c: PoolConfigs.PoolConfig)
    requires EntryFor(RangeKey(key), c).Some?
    ensures Writes(show, key, show(EntryFor(RangeKey(key), c).value), c)
  {
    var x := EntryFor(RangeKey(key), c).value;
    forall a: Address
      ensures EntryDenotes(x, a) <==> PoolConfigs.Denotes(c, a)
    {
      EntryDenotesConfig(RangeKey(key), c, a);
    }
    assert x.RangeEntry? <==> RangeKey(key);
  }

  lemma {:induction false} EntriesForPrefix(show: Entry -> string, key: string, configs: seq<PoolConfigs.PoolConfig>, n: nat)
    requires n <= |configs| && EntriesFor(show, key, configs[..n]).None?
    ensures EntriesFor(show, key, configs).None?
  {
    if n < |configs| {
      assert configs[..|configs| - 1][..n] == configs[..n];
      EntriesForPrefix(show, key, configs[..|configs| - 1], n);
    } else {
      assert configs[..n] == configs;
    }
  }

  method KubevipEntriesFor(show: Entry -> string, key: string, configs: seq<PoolConfigs.PoolConfig>) returns (r: Option<seq<string>>)
    ensures r == EntriesFor(show, key, configs)
  {
    var entries: seq<string> := [];
    for i := 0 to |configs|
      invariant EntriesFor(show, key, configs[..i]) == Some(entries)
    {
      assert configs[..i + 1][..i] == configs[..i];
      var entry := EntryFor(RangeKey(key), configs[i]);
      if entry.None? {
        EntriesForPrefix(show, key, configs, i + 1);
        return None;
      }
      entries := entries + [show(entry.value)];
    }
    assert configs[..|configs|] == configs;
    return Some(entries);
  }

  // ---------------------------------------------------------------- one value

  function EntryBackend(canon: Canon): Backend<string> {
    Backend(canon, "dynamic-prefix.io/managed-kubevip-entries", e => CanonicalAddressEntry(canon, e))
  }

  /** The properties of normalisation the backend rests on. */
  ghost predicate Canonical(canon: Canon) {
    Normalises(canon) && LeavesKeysAlone(canon) && canon("") == ""
  }

  /** An entry the operator renders: its text is its identity. */
  predicate Rendered(canon: Canon, e: string) {
    Recordable(canon, e) && CanonicalAddressEntry(canon, e) == e
  }

  /** Every entry has an identity. */
  predicate Identified(canon: Canon, es: seq<string>) {
    forall e :: e in es ==> CanonicalAddressEntry(canon, e) != ""
  }

  /** The operator's entries go; reports whether there were any. */
  method StripOwnedEntries(canon: Canon, value: string, rec: Record) returns (kept: string, dropped: bool)
    requires Identified(canon, Entries(value))
    ensures kept == Join(UserView(EntryBackend(canon), rec, Entries(value)))
    ensures dropped <==> UserView(EntryBackend(canon), rec, Entries(value)) != Entries(value)
  {
    var entries := Entries(value);
    var remaining: seq<string> := [];
    dropped := false;
    for i := 0 to |entries|
      invariant remaining == UserView(EntryBackend(canon), rec, entries[..i])
      invariant dropped <==> remaining != entries[..i]
    {
      StripNext(canon, rec, entries, i);
      if Owns(canon, rec, CanonicalAddressEntry(canon, entries[i])) {
        dropped := true;
      } else {
        remaining := remaining + [entries[i]];
      }
    }
    assert entries[..|entries|] == entries;
    return Join(remaining), dropped;
  }

  lemma StripNext(canon: Canon, rec: Record, es: seq<string>, i: nat)
    requires i < |es| && CanonicalAddressEntry(canon, es[i]) != ""
    ensures UserView(EntryBackend(canon), rec, es[..i + 1])
         == UserView(EntryBackend(canon), rec, es[..i]) + (if Owns(canon, rec, CanonicalAddressEntry(canon, es[i])) then [] else [es[i]])
    ensures UserView(EntryBackend(canon), rec, es[..i + 1]) == es[..i + 1]
       <==> UserView(EntryBackend(canon), rec, es[..i]) == es[..i] && !Owns(canon, rec, CanonicalAddressEntry(canon, es[i]))
  {
    var front, e := es[..i], es[i];
    assert es[..i + 1] == front + [e];
    UserViewAppend(EntryBackend(canon), rec, front, e);
    assert |UserView(EntryBackend(canon), rec, front)| <= |front| by {
      UserViewExtremes(EntryBackend(canon), rec, front);
    }
    assert (UserView(EntryBackend(canon), rec, front) + [e])[..|UserView(EntryBackend(canon), rec, front)|] == UserView(EntryBackend(canon), rec, front);
    assert (front + [e])[..i] == front;
  }

  /** The identity of any entry read from a list can itself be recorded. */
  lemma IdentityIsRecordable(canon: Canon, e: string)
    requires Canonical(canon) && Clean(e)
    ensures Recordable(canon, CanonicalAddressEntry(canon, e)) && CanonicalAddressEntry(canon, e) != ""
  {
    TrimMeaning(e);
    match CutAt(e, '-') {
      case None =>
      case Some(cut) =>
        CutParts(e, '-');
        TrimMeaning(cut.0);
        TrimMeaning(cut.1);
        DashedIsClean(canon(Trim(cut.0)), canon(Trim(cut.1)));
    }
  }

  lemma AllIdentified(canon: Canon, es: seq<string>)
    requires Canonical(canon) && AllClean(es)
    ensures Identified(canon, es)
  {
    forall e | e in es
      ensures CanonicalAddressEntry(canon, e) != ""
    {
      IdentityIsRecordable(canon, e);
    }
  }

  lemma DashedIsClean(a: string, b: string)
    requires a == "" || Clean(a)
    requires b == "" || Clean(b)
    ensures Clean(Dashed(a, b))
  {
    var s := Dashed(a, b);
    assert s[0] == if a == "" then '-' else a[0];
    assert s[|s| - 1] == if b == "" then '-' else b[|b| - 1];
  }

  function Identities(canon: Canon, es: seq<string>): seq<string> {
    seq(|es|, i requires 0 <= i < |es| => CanonicalAddressEntry(canon, es[i]))
  }

  /** What the operator writes next to the entries it preserves. */
  function Managed(canon: Canon, desired: seq<string>, preserved: seq<string>): seq<string> {
    Unpinned(canon, Deduped(canon, desired), CanonKeys(canon, Identities(canon, preserved)))
  }

  /** It writes precisely the rendered entries whose identity the user does not have there. */
  lemma ManagedMeaning(canon: Canon, desired: seq<string>, preserved: seq<string>)
    requires Canonical(canon) && AllClean(preserved) && forall d :: d in desired ==> Rendered(canon, d)
    ensures forall e :: e in Managed(canon, desired, preserved) <==> e in desired && e !in Identities(canon, preserved)
    ensures forall e :: e in Managed(canon, desired, preserved) ==> Rendered(canon, e)
    ensures Identities(canon, Managed(canon, desired, preserved)) == Managed(canon, desired, preserved)
  {
    var ids := Identities(canon, preserved);
    var pinned := CanonKeys(canon, ids);
    UnpinnedMeaning(canon, Deduped(canon, desired), pinned);
    DedupedMeaning(canon, desired);
    forall i | 0 <= i < |ids|
      ensures canon(Trim(ids[i])) == ids[i]
    {
      assert preserved[i] in preserved;
      IdentityIsRecordable(canon, preserved[i]);
      TrimMeaning(ids[i]);
    }
    assert forall x :: x in pinned <==> x in ids;
    forall e | e in desired
      ensures canon(Trim(e)) == e && e in Deduped(canon, desired)
    {
      TrimMeaning(e);
      assert canon(e) in KeySet(canon, desired);
      var f :| f in Deduped(canon, desired) && canon(f) == canon(e);
      assert f in desired;
    }
  }

  /** And it writes none of them twice. */
  lemma ManagedOnce(canon: Canon, desired: seq<string>, preserved: seq<string>)
    ensures NoRepeats(Managed(canon, desired, preserved))
  {
    var once := Deduped(canon, desired);
    DedupedMeaning(canon, desired);
    forall i, j | 0 <= i < j < |once|
      ensures once[i] != once[j]
    {
      assert canon(once[i]) != canon(once[j]);
    }
    UnpinnedDistinct(canon, once, CanonKeys(canon, Identities(canon, preserved)));
  }

  // ---------------------------------------------------------------- the whole map

  type Data = map<string, string>

  function EntriesAt(data: Data, key: string): seq<string> {
    if key in data then Entries(data[key]) else []
  }

  /** A value once the operator's entries are out of it: untouched if there were none, gone if nothing is left. */
  function Stripped(canon: Canon, rec: Record, value: string): Option<string> {
    var kept := UserView(EntryBackend(canon), rec, Entries(value));
    if kept == Entries(value) then Some(value) else if Join(kept) == "" then None else Some(Join(kept))
  }

  /** The map with the values at `keys` replaced by what `f` makes of them, or removed. */
  function Rewritten(data: Data, keys: set<string>, f: string -> Option<string>): Data {
    map k | k in data && (k in keys ==> f(data[k]).Some?) :: if k in keys then f(data[k]).value else data[k]
  }

  /** The map with the values at `keys` stripped. */
  function Swept(canon: Canon, rec: Record, data: Data, keys: set<string>): Data {
    Rewritten(data, keys, value => Stripped(canon, rec, value))
  }

  function WithValue(data: Data, key: string, value: string): Data {
    if value == "" then data - {key} else data[key := value]
  }

  function PoolKeys(data: Data): set<string> {
    set k | k in data && PoolKey(k)
  }

  /** The ConfigMap as the protocol sees it. */
  datatype MapState = MapState(data: Data, annotation: Option<string>) {
    function Rec(canon: Canon): Record {
      RecordOf(canon, annotation)
    }

    /** The user's entries under one key. */
    function View(canon: Canon, key: string): seq<string> {
      UserView(EntryBackend(canon), Rec(canon), EntriesAt(data, key))
    }

    function Preserved(canon: Canon, key: string, claims: string -> bool): seq<string> {
      Kept(EntryBackend(canon), Rec(canon), claims, EntriesAt(data, key))
    }
  }

  /** The entries a pass writes itself under the named key. */
  function ManagedAt(canon: Canon, rec: Record, claims: string -> bool, data: Data, key: string, desired: seq<string>): seq<string> {
    Managed(canon, desired, Kept(EntryBackend(canon), rec, claims, EntriesAt(data, key)))
  }

  /** The map after a pass: other pool keys swept, the named one holding the preserved and then the managed entries. */
  function PassedData(canon: Canon, rec: Record, claims: string -> bool, data: Data, key: string, desired: seq<string>): Data {
    var swept := Swept(canon, rec, data, PoolKeys(data) - {key});
    var value := Join(Kept(EntryBackend(canon), rec, claims, EntriesAt(data, key)) + ManagedAt(canon, rec, claims, data, key, desired));
    if (if key in swept then swept[key] else "") == value then swept else WithValue(swept, key, value)
  }

  function Passed(canon: Canon, s: MapState, key: string, desired: seq<string>, claims: string -> bool): MapState {
    MapState(PassedData(canon, s.Rec(canon), claims, s.data, key, desired),
             Some(FormatOwnershipRecord(Identities(canon, ManagedAt(canon, s.Rec(canon), claims, s.data, key, desired)))))
  }

  function Cleared(canon: Canon, s: MapState): MapState {
    if s.annotation.None? then s else MapState(Swept(canon, s.Rec(canon), s.data, PoolKeys(s.data)), None)
  }

  /** One step of a sweep. */
  function SweptKey(canon: Canon, rec: Record, data: Data, k: string): Data
    requires k in data
  {
    var kept := UserView(EntryBackend(canon), rec, Entries(data[k]));
    if kept == Entries(data[k]) then data else WithValue(data, k, Join(kept))
  }

  method SweepKey(canon: Canon, rec: Record, data: Data, k: string) returns (swept: Data, any: bool)
    requires k in data && Canonical(canon)
    ensures swept == SweptKey(canon, rec, data, k)
    ensures any <==> swept != data
  {
    EntriesClean(data[k]);
    AllIdentified(canon, Entries(data[k]));
    var kept, dropped := StripOwnedEntries(canon, data[k], rec);
    StrippedEntries(canon, rec, data[k]);
    if !dropped {
      return data, false;
    }
    swept := SetOrDelete(data, k, kept);
    return swept, true;
  }

  /** Strips the values at some keys, in any order. */
  method Sweep(canon: Canon, rec: Record, data: Data, keys: set<string>) returns (swept: Data, dropped: bool)
    requires Canonical(canon) && keys <= data.Keys
    ensures swept == Swept(canon, rec, data, keys)
    ensures dropped <==> swept != data
  {
    swept, dropped := data, false;
    ghost var done: set<string> := {};
    var todo := keys;
    while todo != {}
      invariant done <= keys && todo == keys - done
      invariant swept == Swept(canon, rec, data, done)
      invariant dropped <==> swept != data
      decreases todo
    {
      var k :| k in todo;
      assert k in data && k !in done;
      SweepNext(canon, rec, data, done, k, swept);
      var any: bool;
      swept, any := SweepKey(canon, rec, swept, k);
      dropped := dropped || any;
      todo, done := todo - {k}, done + {k};
    }
    assert done == keys;
  }

  method SetOrDelete(data: Data, key: string, value: string) returns (r: Data)
    ensures r == WithValue(data, key, value)
  {
    if value == "" {
      return data - {key};
    }
    return data[key := value];
  }

  method PreserveEntries(canon: Canon, rec: Record, claims: string -> bool, entries: seq<string>)
    returns (preserved: seq<string>, pinned: seq<string>)
    requires Identified(canon, entries)
    ensures preserved == Kept(EntryBackend(canon), rec, claims, entries) && pinned == Identities(canon, preserved)
  {
    preserved, pinned := [], [];
    for i := 0 to |entries|
      invariant preserved == Kept(EntryBackend(canon), rec, claims, entries[..i]) && pinned == Identities(canon, preserved)
    {
      assert entries[..i + 1][..i] == entries[..i];
      var owned := if rec.Absent? then claims(entries[i]) else Owns(canon, rec, CanonicalAddressEntry(canon, entries[i]));
      if !owned {
        preserved := preserved + [entries[i]];
        pinned := pinned + [CanonicalAddressEntry(canon, entries[i])];
      }
    }
    assert entries[..|entries|] == entries;
  }

  /** The named key's managed entries. */
  method ManageEntries(canon: Canon, rec: Record, claims: string -> bool, data: Data, key: string, desired: seq<string>)
    returns (preserved: seq<string>, managed: seq<string>)
    requires Canonical(canon)
    ensures preserved == Kept(EntryBackend(canon), rec, claims, EntriesAt(data, key))
    ensures managed == ManagedAt(canon, rec, claims, data, key, desired)
  {
    var pinned;
    EntriesAtClean(data, key);
    AllIdentified(canon, EntriesAt(data, key));
    preserved, pinned := PreserveEntries(canon, rec, claims, EntriesAt(data, key));
    var deduped := DedupePreservingOrder(canon, desired);
    managed := ExcludePinned(canon, deduped, pinned);
  }

  /** The map a pass writes, what it manages there, and whether it changed the map. */
  method Rewrite(canon: Canon, rec: Record, claims: string -> bool, data: Data, key: string, desired: seq<string>)
    returns (rewritten: Data, managed: seq<string>, changed: bool)
    requires Canonical(canon)
    ensures rewritten == PassedData(canon, rec, claims, data, key, desired)
    ensures managed == ManagedAt(canon, rec, claims, data, key, desired)
    ensures changed <==> rewritten != data
  {
    var preserved;
    preserved, managed := ManageEntries(canon, rec, claims, data, key, desired);
    rewritten, changed := Sweep(canon, rec, data, PoolKeys(data) - {key});
    NamedKeyUnswept(canon, rec, data, key);
    var value := Join(preserved + managed);
    if (if key in rewritten then rewritten[key] else "") != value {
      rewritten := SetOrDelete(rewritten, key, value);
      changed := true;
    }
  }

  lemma NamedKeyUnswept(canon: Canon, rec: Record, data: Data, key: string)
    ensures var swept := Swept(canon, rec, data, PoolKeys(data) - {key}); (key in swept <==> key in data) && (key in data ==> swept[key] == data[key])
  {
  }

  class ConfigMap {
    var data: Data
    var annotations: map<string, string>
    var updates: nat

    constructor (data: Data, annotations: map<string, string>)
      ensures this.data == data && this.annotations == annotations && updates == 0
    {
      this.data, this.annotations, updates := data, annotations, 0;
    }

    ghost function Now(canon: Canon): MapState
      reads this
    {
      MapState(data, Annotation(EntryBackend(canon).recordKey))
    }

    function Annotation(key: string): Option<string>
      reads this
    {
      if key in annotations then Some(annotations[key]) else None
    }

    /** A pass: entries left under other pool keys are swept by the record, the named key gets the user's entries
        and then the managed ones, and the record names the managed ones. Nothing is written unless something
        changes, and nothing at all when the key or a rendering is unusable. */
    method Update(canon: Canon, annotation: Option<string>, show: Entry -> string, configs: seq<PoolConfigs.PoolConfig>, claims: string -> bool)
      returns (ok: bool, written: bool)
      requires Canonical(canon)
      modifies this
      ensures ok <==> KeyFor(annotation).Some? && EntriesFor(show, KeyFor(annotation).value, configs).Some?
      ensures ok ==> Now(canon) == Passed(canon, old(Now(canon)), KeyFor(annotation).value, EntriesFor(show, KeyFor(annotation).value, configs).value, claims)
      ensures ok ==> (written <==> Now(canon) != old(Now(canon)))
      ensures !ok ==> !written && unchanged(this)
      ensures updates == old(updates) + if written then 1 else 0
    {
      var named := KeyFor(annotation);
      if named.None? {
        return false, false;
      }
      var key := named.value;
      var rendered := KubevipEntriesFor(show, key, configs);
      if rendered.None? {
        return false, false;
      }
      var rec := ParseOwnershipRecord(canon, Annotation(EntryBackend(canon).recordKey));
      var rewritten, managed, changed := Rewrite(canon, rec, claims, data, key, rendered.value);
      var recordValue := FormatOwnershipRecord(Identities(canon, managed));
      if !changed && Annotation(EntryBackend(canon).recordKey) == Some(recordValue) {
        return true, false;
      }
      data := rewritten;
      annotations := annotations[EntryBackend(canon).recordKey := recordValue];
      updates := updates + 1;
      return true, true;
    }

    /** Sweeps every pool key, whatever the annotation names by now, and drops the record. */
    method Release(canon: Canon) returns (changed: bool)
      requires Canonical(canon)
      modifies this
      ensures Now(canon) == Cleared(canon, old(Now(canon)))
      ensures changed <==> Now(canon) != old(Now(canon))
    {
      var recordKey := EntryBackend(canon).recordKey;
      if recordKey !in annotations {
        return false;
      }
      var rec := ParseOwnershipRecord(canon, Annotation(recordKey));
      var swept, _ := Sweep(canon, rec, data, PoolKeys(data));
      data := swept;
      annotations := annotations - {recordKey};
      return true;
    }
  }

  lemma RewriteNext(data: Data, done: set<string>, f: string -> Option<string>, k: string, now: Data)
    requires now == Rewritten(data, done, f) && k in data && k !in done
    ensures k in now && now[k] == data[k]
    ensures f(data[k]) == Some(data[k]) ==> Rewritten(data, done + {k}, f) == now
    ensures f(data[k]).None? ==> Rewritten(data, done + {k}, f) == now - {k}
    ensures f(data[k]).Some? ==> Rewritten(data, done + {k}, f) == now[k := f(data[k]).value]
  {
  }

  lemma RewriteChange(data: Data, done: set<string>, f: string -> Option<string>, k: string, now: Data)
    requires now == Rewritten(data, done, f) && k in data && k !in done
    ensures Rewritten(data, done + {k}, f) == data <==> now == data && f(data[k]) == Some(data[k])
  {
    var next := Rewritten(data, done + {k}, f);
    RewriteNext(data, done, f, k, now);
    if next == data {
      assert k in next;
      forall m | m in data
        ensures m in now && now[m] == data[m]
      {
        assert m in next;
      }
    }
  }

  lemma SweepNext(canon: Canon, rec: Record, data: Data, done: set<string>, k: string, now: Data)
    requires now == Swept(canon, rec, data, done) && k in data && k !in done
    ensures k in now && now[k] == data[k]
    ensures Swept(canon, rec, data, done + {k}) == SweptKey(canon, rec, now, k)
    ensures SweptKey(canon, rec, now, k) == data <==> now == data && SweptKey(canon, rec, now, k) == now
  {
    var f := value => Stripped(canon, rec, value);
    RewriteNext(data, done, f, k, now);
    RewriteChange(data, done, f, k, now);
    StrippedEntries(canon, rec, data[k]);
  }

  /** Stripping leaves exactly the user's entries. */
  lemma StrippedEntries(canon: Canon, rec: Record, value: string)
    ensures (match Stripped(canon, rec, value) case None => [] case Some(v) => Entries(v)) == UserView(EntryBackend(canon), rec, Entries(value))
  {
    EntriesClean(value);
    UserViewMembers(EntryBackend(canon), rec, Entries(value));
    EntriesOfJoin(UserView(EntryBackend(canon), rec, Entries(value)));
    JoinBlank(UserView(EntryBackend(canon), rec, Entries(value)));
  }

  // ---------------------------------------------------------------- one pass

  ghost predicate AllRendered(canon: Canon, desired: seq<string>) {
    forall d :: d in desired ==> Rendered(canon, d)
  }

  lemma EntriesAtClean(data: Data, key: string)
    ensures AllClean(EntriesAt(data, key))
  {
    if key in data {
      EntriesClean(data[key]);
    }
  }

  lemma PreservedClean(canon: Canon, s: MapState, key: string, claims: string -> bool)
    ensures AllClean(s.Preserved(canon, key, claims))
  {
    EntriesAtClean(s.data, key);
    KeptMembers(EntryBackend(canon), s.Rec(canon), claims, EntriesAt(s.data, key));
  }

  lemma SweptEntries(canon: Canon, rec: Record, data: Data, keys: set<string>, k: string)
    ensures EntriesAt(Swept(canon, rec, data, keys), k)
         == if k in keys then UserView(EntryBackend(canon), rec, EntriesAt(data, k)) else EntriesAt(data, k)
  {
    if k in data {
      StrippedEntries(canon, rec, data[k]);
    }
  }

  function WithEntries(data: Data, key: string, es: seq<string>): Data {
    if (if key in data then data[key] else "") == Join(es) then data else WithValue(data, key, Join(es))
  }

  /** Writing clean entries under a key and reading them back. */
  lemma WrittenEntries(data: Data, key: string, es: seq<string>, k: string)
    requires AllClean(es)
    ensures EntriesAt(WithEntries(data, key, es), k) == if k == key then es else EntriesAt(data, k)
  {
    EntriesOfJoin(es);
    JoinBlank(es);
  }

  /** After a pass the named key holds the preserved entries and then the managed ones, every other pool key
      the user's entries, and the rest of the map what it held. */
  lemma PassedEntries(canon: Canon, s: MapState, key: string, desired: seq<string>, claims: string -> bool, k: string)
    requires Canonical(canon) && PoolKey(key) && AllRendered(canon, desired)
    ensures var t, preserved := Passed(canon, s, key, desired, claims), s.Preserved(canon, key, claims);
            EntriesAt(t.data, k) == if k == key then preserved + Managed(canon, desired, preserved)
                                    else if PoolKey(k) then s.View(canon, k)
                                    else EntriesAt(s.data, k)
  {
    var preserved := s.Preserved(canon, key, claims);
    var es := preserved + Managed(canon, desired, preserved);
    var swept := Swept(canon, s.Rec(canon), s.data, PoolKeys(s.data) - {key});
    assert AllClean(es) by {
      PreservedClean(canon, s, key, claims);
      ManagedMeaning(canon, desired, preserved);
    }
    assert Passed(canon, s, key, desired, claims).data == WithEntries(swept, key, es);
    WrittenEntries(swept, key, es, k);
    SweptEntries(canon, s.Rec(canon), s.data, PoolKeys(s.data) - {key}, k);
  }

  lemma PassedRecord(canon: Canon, s: MapState, key: string, desired: seq<string>, claims: string -> bool)
    requires Canonical(canon) && AllRendered(canon, desired)
    ensures var managed := Managed(canon, desired, s.Preserved(canon, key, claims));
            Passed(canon, s, key, desired, claims).Rec(canon) == Present(set e | e in managed)
  {
    PreservedClean(canon, s, key, claims);
    ManagedMeaning(canon, desired, s.Preserved(canon, key, claims));
    RecordRoundTrip(canon, Managed(canon, desired, s.Preserved(canon, key, claims)));
  }

  /** A user's entry under another pool key that the pass is about to record as its own. */
  ghost predicate Clash(canon: Canon, s: MapState, key: string, desired: seq<string>, claims: string -> bool) {
    exists k, e :: PoolKey(k) && k != key && e in s.View(canon, k)
                   && CanonicalAddressEntry(canon, e) in Managed(canon, desired, s.Preserved(canon, key, claims))
  }

  lemma RecordedIsManaged(canon: Canon, managed: seq<string>, e: string)
    requires Canonical(canon) && Clean(e)
    ensures Recorded(EntryBackend(canon), Present(set x | x in managed), e) <==> CanonicalAddressEntry(canon, e) in managed
  {
    IdentityIsRecordable(canon, e);
  }

  /** What the user has after a pass: under the named key exactly the preserved entries, elsewhere what the new
      record does not reach. */
  lemma PassedView(canon: Canon, s: MapState, key: string, desired: seq<string>, claims: string -> bool, k: string)
    requires Canonical(canon) && PoolKey(key) && PoolKey(k) && AllRendered(canon, desired)
    ensures var t, preserved := Passed(canon, s, key, desired, claims), s.Preserved(canon, key, claims);
            t.View(canon, k) == if k == key then preserved else UserView(EntryBackend(canon), t.Rec(canon), s.View(canon, k))
  {
    var t, b := Passed(canon, s, key, desired, claims), EntryBackend(canon);
    var preserved := s.Preserved(canon, key, claims);
    var managed := Managed(canon, desired, preserved);
    PassedEntries(canon, s, key, desired, claims, k);
    if k == key {
      PassedRecord(canon, s, key, desired, claims);
      PreservedClean(canon, s, key, claims);
      ManagedMeaning(canon, desired, preserved);
      forall e | e in managed
        ensures Recorded(b, t.Rec(canon), e)
      {
        RecordedIsManaged(canon, managed, e);
      }
      forall i | 0 <= i < |preserved|
        ensures !Recorded(b, t.Rec(canon), preserved[i])
      {
        assert preserved[i] in preserved;
        RecordedIsManaged(canon, managed, preserved[i]);
        assert Identities(canon, preserved)[i] in Identities(canon, preserved);
      }
      UserViewConcat(b, t.Rec(canon), preserved, managed);
      UserViewExtremes(b, t.Rec(canon), preserved);
      UserViewExtremes(b, t.Rec(canon), managed);
    }
  }

  /** The pass keeps what the user has under a pool key other than the named one exactly when it records none of it. */
  lemma OtherKeyKept(canon: Canon, s: MapState, key: string, desired: seq<string>, claims: string -> bool, k: string)
    requires Canonical(canon) && PoolKey(key) && PoolKey(k) && k != key && AllRendered(canon, desired)
    ensures Passed(canon, s, key, desired, claims).View(canon, k) == s.View(canon, k)
       <==> forall e :: e in s.View(canon, k) ==> CanonicalAddressEntry(canon, e) !in Managed(canon, desired, s.Preserved(canon, key, claims))
  {
    var t, b := Passed(canon, s, key, desired, claims), EntryBackend(canon);
    var managed := Managed(canon, desired, s.Preserved(canon, key, claims));
    PassedView(canon, s, key, desired, claims, k);
    PassedRecord(canon, s, key, desired, claims);
    UserViewExtremes(b, t.Rec(canon), s.View(canon, k));
    EntriesAtClean(s.data, k);
    UserViewMembers(b, s.Rec(canon), EntriesAt(s.data, k));
    forall e | e in s.View(canon, k)
      ensures Recorded(b, t.Rec(canon), e) <==> CanonicalAddressEntry(canon, e) in managed
    {
      RecordedIsManaged(canon, managed, e);
    }
  }

  lemma NamedKeyKept(canon: Canon, s: MapState, key: string, desired: seq<string>, claims: string -> bool)
    requires Canonical(canon) && PoolKey(key) && AllRendered(canon, desired)
    ensures Passed(canon, s, key, desired, claims).View(canon, key) == s.View(canon, key)
       <==> s.Rec(canon).Present? || forall e :: e in EntriesAt(s.data, key) ==> !claims(e)
  {
    var b, es := EntryBackend(canon), EntriesAt(s.data, key);
    PassedView(canon, s, key, desired, claims, key);
    UserViewExtremes(b, s.Rec(canon), es);
    if s.Rec(canon).Present? {
      KeptByRecord(b, s.Rec(canon), claims, es);
    } else {
      KeptByClaims(b, s.Rec(canon), claims, es);
    }
  }

  ghost predicate SameViews(canon: Canon, s: MapState, t: MapState) {
    forall k :: PoolKey(k) ==> t.View(canon, k) == s.View(canon, k)
  }

  /** A pass leaves the user's entries under every pool key alone, in order and with multiplicity, exactly when
      there is a record or the fallback claims nothing under the named key, and no user entry elsewhere coincides
      with one the pass writes. */
  lemma MapPassPreserves(canon: Canon, s: MapState, key: string, desired: seq<string>, claims: string -> bool)
    requires Canonical(canon) && PoolKey(key) && AllRendered(canon, desired)
    ensures SameViews(canon, s, Passed(canon, s, key, desired, claims))
       <==> (s.Rec(canon).Present? || forall e :: e in EntriesAt(s.data, key) ==> !claims(e)) && !Clash(canon, s, key, desired, claims)
  {
    NamedKeyKept(canon, s, key, desired, claims);
    forall k | PoolKey(k) && k != key
      ensures Passed(canon, s, key, desired, claims).View(canon, k) == s.View(canon, k)
         <==> forall e :: e in s.View(canon, k) ==> CanonicalAddressEntry(canon, e) !in Managed(canon, desired, s.Preserved(canon, key, claims))
    {
      OtherKeyKept(canon, s, key, desired, claims, k);
    }
  }

  ghost predicate NoneRecordedAt(canon: Canon, s: MapState, k: string) {
    forall e :: e in EntriesAt(s.data, k) ==> !Recorded(EntryBackend(canon), s.Rec(canon), e)
  }

  /** The operator's entries live only under the named key after a pass, exactly when nothing clashes. */
  lemma OperatorPlaced(canon: Canon, s: MapState, key: string, desired: seq<string>, claims: string -> bool)
    requires Canonical(canon) && PoolKey(key) && AllRendered(canon, desired)
    ensures var t := Passed(canon, s, key, desired, claims);
            (forall k :: PoolKey(k) && k != key ==> NoneRecordedAt(canon, t, k)) <==> !Clash(canon, s, key, desired, claims)
  {
    var t := Passed(canon, s, key, desired, claims);
    forall k | PoolKey(k) && k != key
      ensures NoneRecordedAt(canon, t, k)
         <==> forall e :: e in s.View(canon, k) ==> CanonicalAddressEntry(canon, e) !in Managed(canon, desired, s.Preserved(canon, key, claims))
    {
      PassedEntries(canon, s, key, desired, claims, k);
      UserViewExtremes(EntryBackend(canon), t.Rec(canon), EntriesAt(t.data, k));
      OtherKeyKept(canon, s, key, desired, claims, k);
    }
  }

  /** A pool key is left without entries only if it was, and was not written: an emptied key is deleted. */
  lemma NoKeyIsEmptied(canon: Canon, s: MapState, key: string, desired: seq<string>, claims: string -> bool, k: string)
    requires Canonical(canon) && PoolKey(key) && AllRendered(canon, desired)
    requires k in Passed(canon, s, key, desired, claims).data && EntriesAt(Passed(canon, s, key, desired, claims).data, k) == []
    ensures k in s.data && Passed(canon, s, key, desired, claims).data[k] == s.data[k]
  {
    var preserved := s.Preserved(canon, key, claims);
    var written := preserved + Managed(canon, desired, preserved);
    PassedEntries(canon, s, key, desired, claims, k);
    JoinBlank(written) by {
      PreservedClean(canon, s, key, claims);
      ManagedMeaning(canon, desired, preserved);
    }
    if k in s.data {
      StrippedEntries(canon, s.Rec(canon), s.data[k]);
      EntriesOfJoin(UserView(EntryBackend(canon), s.Rec(canon), Entries(s.data[k]))) by {
        EntriesClean(s.data[k]);
        UserViewMembers(EntryBackend(canon), s.Rec(canon), Entries(s.data[k]));
      }
    }
  }

  /** A second pass for the same key and wishes writes nothing, exactly when nothing clashes. */
  lemma MapSettles(canon: Canon, s: MapState, key: string, desired: seq<string>, claims: string -> bool, claims': string -> bool)
    requires Canonical(canon) && PoolKey(key) && AllRendered(canon, desired)
    ensures var t := Passed(canon, s, key, desired, claims);
            Passed(canon, t, key, desired, claims') == t <==> !Clash(canon, s, key, desired, claims)
  {
    var t := Passed(canon, s, key, desired, claims);
    var u := Passed(canon, t, key, desired, claims');
    PassedRecord(canon, s, key, desired, claims);
    PassedView(canon, s, key, desired, claims, key);
    KeptByRecord(EntryBackend(canon), t.Rec(canon), claims', EntriesAt(t.data, key));
    assert t.Preserved(canon, key, claims') == s.Preserved(canon, key, claims);
    OperatorPlaced(canon, s, key, desired, claims);
    if u == t {
      forall k | PoolKey(k) && k != key
        ensures NoneRecordedAt(canon, t, k)
      {
        PassedEntries(canon, t, key, desired, claims', k);
        UserViewExtremes(EntryBackend(canon), t.Rec(canon), EntriesAt(t.data, k));
      }
    }
    if !Clash(canon, s, key, desired, claims) {
      NothingToSweep(canon, t, key);
      NamedValueStands(canon, s, key, desired, claims);
    }
  }

  lemma NothingToSweep(canon: Canon, t: MapState, key: string)
    requires forall k :: PoolKey(k) && k != key ==> NoneRecordedAt(canon, t, k)
    ensures Swept(canon, t.Rec(canon), t.data, PoolKeys(t.data) - {key}) == t.data
  {
    forall k | k in PoolKeys(t.data) - {key}
      ensures Stripped(canon, t.Rec(canon), t.data[k]) == Some(t.data[k])
    {
      UserViewExtremes(EntryBackend(canon), t.Rec(canon), EntriesAt(t.data, k));
    }
  }

  lemma NamedValueStands(canon: Canon, s: MapState, key: string, desired: seq<string>, claims: string -> bool)
    ensures var t, preserved := Passed(canon, s, key, desired, claims), s.Preserved(canon, key, claims);
            (if key in t.data then t.data[key] else "") == Join(preserved + Managed(canon, desired, preserved))
  {
  }

  /** A release leaves every pool key exactly the user's entries, and no record. */
  lemma ClearedEntries(canon: Canon, s: MapState, k: string)
    ensures Cleared(canon, s).annotation == None
    ensures PoolKey(k) ==> EntriesAt(Cleared(canon, s).data, k) == s.View(canon, k)
    ensures !PoolKey(k) ==> (k in Cleared(canon, s).data <==> k in s.data) && (k in s.data ==> Cleared(canon, s).data[k] == s.data[k])
  {
    SweptEntries(canon, s.Rec(canon), s.data, PoolKeys(s.data), k);
    UserViewExtremes(EntryBackend(canon), Absent, EntriesAt(s.data, k));
  }

  // ---------------------------------------------------------------- whole runs

  datatype MapStep =
    | Reconcile(key: string, desired: seq<string>, claims: string -> bool)
    | InsertAt(key: string, at: nat, entry: string)
    | DeleteAt(key: string, at: nat)
    | HandBack
    | Failed

  function MapNext(canon: Canon, s: MapState, step: MapStep): MapState {
    match step
    case Reconcile(key, desired, claims) => Passed(canon, s, key, desired, claims)
    case InsertAt(key, at, e) =>
      var es := EntriesAt(s.data, key);
      if at <= |es| then s.(data := s.data[key := Join(es[..at] + [e] + es[at..])]) else s
    case DeleteAt(key, at) =>
      var es := EntriesAt(s.data, key);
      if at < |es| then s.(data := s.data[key := Join(es[..at] + es[at + 1..])]) else s
    case HandBack => Cleared(canon, s)
    case Failed => s
  }

  /** One key of the ConfigMap, as a list of its own. */
  function Listed(s: MapState, key: string): OwnedList.State<string> {
    OwnedList.State(EntriesAt(s.data, key), s.annotation)
  }

  /** The user's own list under pool key `k`, under the user's edits alone. */
  function MapShadow(canon: Canon, s: MapState, own: seq<string>, step: MapStep, k: string): seq<string> {
    var listed := Listed(s, k);
    match step
    case InsertAt(key, at, e) => if key == k then Shadow(EntryBackend(canon), listed, own, Insert(at, e)) else own
    case DeleteAt(key, at) => if key == k then Shadow(EntryBackend(canon), listed, own, Delete(at)) else own
    case _ => own
  }

  /** The step can be taken: it names a pool key and a position that exists, and entries are entries. */
  ghost predicate MapPossible(canon: Canon, s: MapState, step: MapStep) {
    match step
    case Reconcile(key, desired, _) => PoolKey(key) && AllRendered(canon, desired)
    case InsertAt(key, at, e) => PoolKey(key) && at <= |EntriesAt(s.data, key)| && Clean(e)
    case DeleteAt(key, at) => PoolKey(key) && at < |EntriesAt(s.data, key)|
    case _ => true
  }

  /** A pass without a record finds nothing to claim, no user entry coincides with one it writes, and the user does
      not insert what is recorded as the operator's. */
  ghost predicate MapFair(canon: Canon, s: MapState, step: MapStep) {
    match step
    case Reconcile(key, desired, claims) =>
      (s.Rec(canon).Present? || forall e :: e in EntriesAt(s.data, key) ==> !claims(e)) && !Clash(canon, s, key, desired, claims)
    case InsertAt(_, _, e) => !Recorded(EntryBackend(canon), s.Rec(canon), e)
    case _ => true
  }

  ghost predicate FollowsShadow(canon: Canon, s: MapState, step: MapStep) {
    forall k :: PoolKey(k) ==> MapNext(canon, s, step).View(canon, k) == MapShadow(canon, s, s.View(canon, k), step, k)
  }

  lemma EditedEntries(canon: Canon, s: MapState, step: MapStep, k: string)
    requires (step.InsertAt? || step.DeleteAt?) && MapPossible(canon, s, step)
    ensures var es := EntriesAt(s.data, k);
            EntriesAt(MapNext(canon, s, step).data, k)
            == if k != step.key then es else if step.InsertAt? then es[..step.at] + [step.entry] + es[step.at..] else es[..step.at] + es[step.at + 1..]
  {
    var es := EntriesAt(s.data, step.key);
    EntriesAtClean(s.data, step.key);
    if step.InsertAt? {
      EntriesOfJoin(es[..step.at] + [step.entry] + es[step.at..]);
    } else {
      EntriesOfJoin(es[..step.at] + es[step.at + 1..]);
    }
  }

  /** Entries of a value are identified by normalised keys, like those of the list fields. */
  lemma EntryBackendIsGood(canon: Canon)
    requires Canonical(canon)
    ensures Good(EntryBackend(canon))
  {
  }

  function ListEdit(step: MapStep): Step<string>
    requires step.InsertAt? || step.DeleteAt?
  {
    if step.InsertAt? then Insert(step.at, step.entry) else Delete(step.at)
  }

  /** An edit of a key is an edit of its list, and leaves the record and the other keys alone. */
  lemma EditIsListEdit(canon: Canon, s: MapState, step: MapStep, k: string)
    requires (step.InsertAt? || step.DeleteAt?) && MapPossible(canon, s, step)
    ensures Listed(MapNext(canon, s, step), k) == if k == step.key then Next(EntryBackend(canon), Listed(s, k), ListEdit(step)) else Listed(s, k)
  {
    EditedEntries(canon, s, step, k);
  }

  lemma EditMatchesShadow(canon: Canon, s: MapState, step: MapStep, k: string)
    requires Good(EntryBackend(canon)) && (step.InsertAt? || step.DeleteAt?) && MapPossible(canon, s, step)
    ensures MapNext(canon, s, step).View(canon, k) == MapShadow(canon, s, s.View(canon, k), step, k)
       <==> k != step.key || MapFair(canon, s, step)
  {
    EditIsListEdit(canon, s, step, k);
    if k == step.key {
      StepMatchesShadow(EntryBackend(canon), Listed(s, k), ListEdit(step));
    }
  }

  /** A step does to the user's entries under every pool key what the user did to them, precisely when it is fair. */
  lemma MapStepMatchesShadow(canon: Canon, s: MapState, step: MapStep)
    requires Canonical(canon) && MapPossible(canon, s, step)
    ensures FollowsShadow(canon, s, step) <==> MapFair(canon, s, step)
  {
    match step {
      case Reconcile(key, desired, claims) =>
        MapPassPreserves(canon, s, key, desired, claims);
        assert FollowsShadow(canon, s, step) <==> SameViews(canon, s, MapNext(canon, s, step));
      case HandBack =>
        forall k | PoolKey(k)
          ensures Cleared(canon, s).View(canon, k) == s.View(canon, k)
        {
          ClearedEntries(canon, s, k);
          UserViewExtremes(EntryBackend(canon), Absent, s.View(canon, k));
        }
      case Failed =>
      case _ =>
        EntryBackendIsGood(canon);
        forall k
          ensures MapNext(canon, s, step).View(canon, k) == MapShadow(canon, s, s.View(canon, k), step, k)
             <==> k != step.key || MapFair(canon, s, step)
        {
          EditMatchesShadow(canon, s, step, k);
        }
        assert PoolKey(step.key);
    }
  }

  function MapRun(canon: Canon, s: MapState, steps: seq<MapStep>): MapState {
    if steps == [] then s else MapNext(canon, MapRun(canon, s, steps[..|steps| - 1]), steps[|steps| - 1])
  }

  function MapShadowRun(canon: Canon, s: MapState, own: seq<string>, steps: seq<MapStep>, k: string): seq<string> {
    if steps == [] then own
    else
      var n := |steps| - 1;
      MapShadow(canon, MapRun(canon, s, steps[..n]), MapShadowRun(canon, s, own, steps[..n], k), steps[n], k)
  }

  ghost predicate MapFairRun(canon: Canon, s: MapState, steps: seq<MapStep>) {
    steps != [] ==>
      var n := |steps| - 1;
      var before := MapRun(canon, s, steps[..n]);
      MapFairRun(canon, s, steps[..n]) && MapPossible(canon, before, steps[n]) && MapFair(canon, before, steps[n])
  }

  lemma {:induction false} MapRunMatchesShadow(canon: Canon, s: MapState, steps: seq<MapStep>, k: string)
    requires Canonical(canon) && PoolKey(k) && MapFairRun(canon, s, steps)
    ensures MapRun(canon, s, steps).View(canon, k) == MapShadowRun(canon, s, s.View(canon, k), steps, k)
  {
    if steps != [] {
      var n := |steps| - 1;
      MapRunMatchesShadow(canon, s, steps[..n], k);
      MapStepMatchesShadow(canon, MapRun(canon, s, steps[..n]), steps[n]);
      assert FollowsShadow(canon, MapRun(canon, s, steps[..n]), steps[n]);
    }
  }

  /** Multi-key non-interference: whatever passes wanted, wherever the annotation pointed, and however the user
      edited in between, releasing the ConfigMap leaves every pool key precisely the list the user's edits alone
      would have made of it. */
  lemma MapNonInterference(canon: Canon, s: MapState, steps: seq<MapStep>, k: string)
    requires Canonical(canon) && PoolKey(k) && MapFairRun(canon, s, steps)
    ensures var t := MapNext(canon, MapRun(canon, s, steps), HandBack);
            t.annotation == None && EntriesAt(t.data, k) == MapShadowRun(canon, s, s.View(canon, k), steps, k)
  {
    MapRunMatchesShadow(canon, s, steps, k);
    ClearedEntries(canon, MapRun(canon, s, steps), k);
  }

  /** A pass that records an entry leaves the user's own copy of it, under another pool key, to be stripped. */
  lemma RecordedThenStripped(canon: Canon, s: MapState, key: string, other: string, e: string, claims: string -> bool)
    requires Canonical(canon) && PoolKey(key) && PoolKey(other) && key != other && Rendered(canon, e)
    requires s.View(canon, other) == [e] && s.Preserved(canon, key, claims) == []
    ensures var once := Passed(canon, s, key, [e], claims);
            EntriesAt(once.data, other) == [e] && once.View(canon, other) == []
  {
    var once := Passed(canon, s, key, [e], claims);
    assert EntriesAt(once.data, other) == [e] by {
      PassedEntries(canon, s, key, [e], claims, other);
    }
    assert e in Managed(canon, [e], []) by {
      ManagedMeaning(canon, [e], []);
    }
    assert Recorded(EntryBackend(canon), once.Rec(canon), e) by {
      PassedRecord(canon, s, key, [e], claims);
      RecordedIsManaged(canon, Managed(canon, [e], []), e);
    }
    UserViewExtremes(EntryBackend(canon), once.Rec(canon), [e]);
  }

  /** A ConfigMap the operator has recorded nothing in, whose user keeps one entry under one pool key. */
  function OneUserEntry(key: string, e: string): MapState {
    MapState(map[key := e], Some(""))
  }

  lemma OneUserEntryView(canon: Canon, key: string, e: string, other: string, claims: string -> bool)
    requires Clean(e) && key != other
    ensures OneUserEntry(key, e).View(canon, key) == [e] && OneUserEntry(key, e).Preserved(canon, other, claims) == []
  {
    var s := OneUserEntry(key, e);
    SingleEntry(e);
    assert s.Rec(canon) == Present({}) by {
      assert Entries("") == [];
      assert KeySet(canon, []) == {};
    }
    NothingRecordedView(canon, s.Rec(canon), [e]);
  }

  lemma NothingRecordedView(canon: Canon, rec: Record, es: seq<string>)
    requires rec == Present({})
    ensures UserView(EntryBackend(canon), rec, es) == es
  {
    UserViewExtremes(EntryBackend(canon), rec, es);
  }

  lemma SingleEntry(e: string)
    requires Clean(e)
    ensures Entries(e) == [e]
  {
    assert AllClean([e]);
    EntriesOfJoin([e]);
    assert Join([e]) == e;
  }

  /** The user keeps an entry under one pool key; a pass for another key comes to want the same entry, writes and records
      it; the pass after that strips the user's. */
  lemma CoincidingEntryIsStripped(canon: Canon, key: string, other: string, e: string, claims: string -> bool)
    requires Canonical(canon) && PoolKey(key) && PoolKey(other) && key != other && Rendered(canon, e)
    ensures var s := OneUserEntry(other, e);
            var once := Passed(canon, s, key, [e], claims);
            && s.View(canon, other) == [e] && EntriesAt(once.data, other) == [e]
            && EntriesAt(Passed(canon, once, key, [], claims).data, other) == []
  {
    var s := OneUserEntry(other, e);
    OneUserEntryView(canon, other, e, key, claims);
    RecordedThenStripped(canon, s, key, other, e, claims);
    PassedEntries(canon, Passed(canon, s, key, [e], claims), key, [], claims, other);
  }
}
