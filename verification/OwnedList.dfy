/** A list field the operator shares with the user: the reconcile pass, the release, and what the user
    is guaranteed across any run of both. */
module OwnedList {
  import opened Addresses
  import opened Text
  import opened Ownership

  /** One backend's view of its list field. `keyOf` yields "" for shapes it does not recognise. */
  datatype Backend<!E> = Backend(canon: Canon, recordKey: string, keyOf: E -> string)

  /** The three backends satisfy this: keys come out normalised. */
  ghost predicate Good<E(!new)>(b: Backend<E>) {
    Normalises(b.canon) && forall e: E :: b.canon(b.keyOf(e)) == b.keyOf(e)
  }

  /** An entry the operator wants to write, with the key it is recognised by afterwards. */
  datatype OwnedEntry<E> = OwnedEntry(value: E, key: string)

  /** Callers compute the key from the value, and a key they compute can be recorded. */
  predicate WellKeyed<E(==)>(b: Backend<E>, desired: seq<OwnedEntry<E>>) {
    forall d :: d in desired ==> d.key == b.keyOf(d.value) && (d.key != "" ==> Recordable(b.canon, d.key))
  }

  // ---------------------------------------------------------------- whose entry is it

  predicate Recorded<E>(b: Backend<E>, rec: Record, e: E) {
    b.keyOf(e) != "" && Owns(b.canon, rec, b.keyOf(e))
  }

  /** The operator's, as a pass decides it: by the record where there is one, else by the geometric claim. */
  predicate Mine<E>(b: Backend<E>, rec: Record, claims: E -> bool, e: E) {
    if rec.Absent? then claims(e) else Recorded(b, rec, e)
  }

  /** The entries a pass keeps as the user's, in order. */
  function Kept<E>(b: Backend<E>, rec: Record, claims: E -> bool, es: seq<E>): seq<E> {
    if es == [] then []
    else
      var rest, e := Kept(b, rec, claims, es[..|es| - 1]), es[|es| - 1];
      if Mine(b, rec, claims, e) then rest else rest + [e]
  }

  /** The entries the record does not name: what belongs to the user, in order. */
  function UserView<E>(b: Backend<E>, rec: Record, es: seq<E>): seq<E> {
    if es == [] then []
    else
      var rest, e := UserView(b, rec, es[..|es| - 1]), es[|es| - 1];
      if Recorded(b, rec, e) then rest else rest + [e]
  }

  function KeysOf<E(==)>(b: Backend<E>, es: seq<E>): set<string> {
    set e | e in es && b.keyOf(e) != "" :: b.keyOf(e)
  }

  function DesiredKeys<E(==)>(desired: seq<OwnedEntry<E>>): set<string> {
    set d | d in desired && d.key != "" :: d.key
  }

  /** The desired entries a pass writes: keyed, first of their key, not pinned by the user. */
  function Chosen<E(==)>(desired: seq<OwnedEntry<E>>, pinned: set<string>): seq<OwnedEntry<E>> {
    if desired == [] then []
    else
      var init, d := desired[..|desired| - 1], desired[|desired| - 1];
      if d.key == "" || d.key in DesiredKeys(init) || d.key in pinned then Chosen(init, pinned)
      else Chosen(init, pinned) + [d]
  }

  function Values<E>(ds: seq<OwnedEntry<E>>): seq<E> {
    seq(|ds|, i requires 0 <= i < |ds| => ds[i].value)
  }

  function Keys<E>(ds: seq<OwnedEntry<E>>): seq<string> {
    seq(|ds|, i requires 0 <= i < |ds| => ds[i].key)
  }

  // ---------------------------------------------------------------- the object and its passes

  /** A pool as far as the protocol sees it: the list and the record annotation. */
  datatype State<E> = State(entries: seq<E>, annotation: Option<string>) {
    function Rec(b: Backend<E>): Record {
      RecordOf(b.canon, annotation)
    }

    function View(b: Backend<E>): seq<E> {
      UserView(b, Rec(b), entries)
    }
  }

  function Synced<E(==)>(b: Backend<E>, s: State<E>, desired: seq<OwnedEntry<E>>, claims: E -> bool): State<E> {
    var kept := Kept(b, s.Rec(b), claims, s.entries);
    var chosen := Chosen(desired, KeysOf(b, kept));
    State(kept + Values(chosen), Some(FormatOwnershipRecord(Keys(chosen))))
  }

  function Released<E>(b: Backend<E>, s: State<E>): State<E> {
    if s.annotation.None? then s else State(s.View(b), None)
  }

  /** The first loop of a pass: what stays, and the keys the user has pinned. */
  method PreserveEntries<E(==)>(b: Backend<E>, rec: Record, claims: E -> bool, entries: seq<E>) returns (preserved: seq<E>, pinned: set<string>)
    ensures preserved == Kept(b, rec, claims, entries) && pinned == KeysOf(b, preserved)
  {
    preserved, pinned := [], {};
    for i := 0 to |entries|
      invariant preserved == Kept(b, rec, claims, entries[..i])
      invariant pinned == KeysOf(b, preserved)
    {
      assert entries[..i + 1][..i] == entries[..i];
      var item := entries[i];
      if !Mine(b, rec, claims, item) {
        KeysOfAppend(b, preserved, item);
        preserved := preserved + [item];
        if b.keyOf(item) != "" {
          pinned := pinned + {b.keyOf(item)};
        }
      }
    }
    assert entries[..|entries|] == entries;
  }

  /** The second loop: the desired entries that are keyed, first of their key and not pinned go after the preserved ones. */
  method ChooseEntries<E(==)>(preserved: seq<E>, desired: seq<OwnedEntry<E>>, pinned: set<string>) returns (result: seq<E>, managed: seq<string>)
    ensures result == preserved + Values(Chosen(desired, pinned)) && managed == Keys(Chosen(desired, pinned))
  {
    var seen: set<string> := {};
    result, managed := preserved, [];
    for i := 0 to |desired|
      invariant seen == DesiredKeys(desired[..i])
      invariant result == preserved + Values(Chosen(desired[..i], pinned))
      invariant managed == Keys(Chosen(desired[..i], pinned))
    {
      assert desired[..i + 1] == desired[..i] + [desired[i]];
      DesiredKeysAppend(desired[..i], desired[i]);
      var entry := desired[i];
      if entry.key == "" {
        continue;
      }
      if entry.key in seen {
        continue;
      }
      seen := seen + {entry.key};
      if entry.key in pinned {
        continue;
      }
      ChosenAppend(Chosen(desired[..i], pinned), entry);
      result, managed := result + [entry.value], managed + [entry.key];
    }
    assert desired[..|desired|] == desired;
  }

  class Pool<E(==)> {
    var entries: seq<E>
    var annotations: map<string, string>
    /** How many times the object was written to the cluster. */
    var updates: nat

    constructor (entries: seq<E>, annotations: map<string, string>)
      ensures this.entries == entries && this.annotations == annotations && updates == 0
    {
      this.entries, this.annotations, updates := entries, annotations, 0;
    }

    function Annotation(key: string): Option<string>
      reads this
    {
      if key in annotations then Some(annotations[key]) else None
    }

    ghost function Now(b: Backend<E>): State<E>
      reads this
    {
      State(entries, Annotation(b.recordKey))
    }

    /** One reconcile pass over the list. The record decides ownership when there is one; `claims` is the
        geometric fallback. The object is written exactly when the list or the record changes. */
    method SyncOwnedList(b: Backend<E>, desired: seq<OwnedEntry<E>>, claims: E -> bool) returns (written: bool)
      modifies this
      ensures Now(b) == Synced(b, old(Now(b)), desired, claims)
      ensures written <==> Now(b) != old(Now(b))
      ensures updates == old(updates) + if written then 1 else 0
      ensures b.recordKey in annotations && annotations == old(annotations)[b.recordKey := annotations[b.recordKey]]
    {
      var rec := ParseOwnershipRecord(b.canon, Annotation(b.recordKey));
      var preserved, pinned := PreserveEntries(b, rec, claims, entries);
      var result, managed := ChooseEntries(preserved, desired, pinned);
      var managedRecord := FormatOwnershipRecord(managed);
      var entriesChanged := entries != result;
      var recordChanged := Annotation(b.recordKey) != Some(managedRecord);
      if !entriesChanged && !recordChanged {
        return false;
      }
      if entriesChanged {
        entries := result;
      }
      annotations := annotations[b.recordKey := managedRecord];
      updates := updates + 1;
      return true;
    }

    /** Removes exactly the recorded entries and drops the record; without a record nothing is touched. */
    method ReleaseRecordedSlice(b: Backend<E>) returns (changed: bool)
      modifies this
      ensures Now(b) == Released(b, old(Now(b)))
      ensures changed <==> old(b.recordKey in annotations)
      ensures annotations == old(annotations) - {b.recordKey} && updates == old(updates)
    {
      if b.recordKey !in annotations {
        assert annotations == annotations - {b.recordKey};
        return false;
      }
      var rec := ParseOwnershipRecord(b.canon, Annotation(b.recordKey));
      var kept: seq<E> := [];
      for i := 0 to |entries|
        invariant unchanged(this)
        invariant kept == UserView(b, rec, entries[..i])
      {
        assert entries[..i + 1][..i] == entries[..i];
        var key := b.keyOf(entries[i]);
        if key != "" && Owns(b.canon, rec, key) {
          continue;
        }
        kept := kept + [entries[i]];
      }
      assert entries[..|entries|] == entries;
      entries := kept;
      annotations := annotations - {b.recordKey};
      return true;
    }
  }

  lemma KeysOfAppend<E>(b: Backend<E>, es: seq<E>, e: E)
    ensures KeysOf(b, es + [e]) == KeysOf(b, es) + (if b.keyOf(e) != "" then {b.keyOf(e)} else {})
  {
    assert forall x :: x in es + [e] <==> x in es || x == e;
  }

  lemma ChosenAppend<E>(ds: seq<OwnedEntry<E>>, d: OwnedEntry<E>)
    ensures Values(ds + [d]) == Values(ds) + [d.value]
    ensures Keys(ds + [d]) == Keys(ds) + [d.key]
  {
  }

  lemma DesiredKeysAppend<E>(ds: seq<OwnedEntry<E>>, d: OwnedEntry<E>)
    ensures DesiredKeys(ds + [d]) == DesiredKeys(ds) + (if d.key != "" then {d.key} else {})
  {
    assert forall x :: x in ds + [d] <==> x in ds || x == d;
  }

  // ---------------------------------------------------------------- facts about one pass

  lemma {:induction false} UserViewConcat<E>(b: Backend<E>, rec: Record, xs: seq<E>, ys: seq<E>)
    ensures UserView(b, rec, xs + ys) == UserView(b, rec, xs) + UserView(b, rec, ys)
  {
    if ys == [] {
      assert xs + ys == xs;
    } else {
      var n := |ys| - 1;
      UserViewConcat(b, rec, xs, ys[..n]);
      assert (xs + ys)[..|xs + ys| - 1] == xs + ys[..n];
    }
  }

  lemma UserViewAppend<E>(b: Backend<E>, rec: Record, es: seq<E>, e: E)
    ensures UserView(b, rec, es + [e]) == if Recorded(b, rec, e) then UserView(b, rec, es) else UserView(b, rec, es) + [e]
  {
    assert (es + [e])[..|es + [e]| - 1] == es;
  }

  lemma {:induction false} UserViewMembers<E>(b: Backend<E>, rec: Record, es: seq<E>)
    ensures forall e :: e in UserView(b, rec, es) <==> e in es && !Recorded(b, rec, e)
  {
    if es != [] {
      var n := |es| - 1;
      UserViewMembers(b, rec, es[..n]);
      assert es == es[..n] + [es[n]];
    }
  }

  /** Entries none of which is recorded are all the user's; entries all recorded leave the user nothing. */
  lemma {:induction false} UserViewExtremes<E>(b: Backend<E>, rec: Record, es: seq<E>)
    ensures (forall e :: e in es ==> !Recorded(b, rec, e)) <==> UserView(b, rec, es) == es
    ensures (forall e :: e in es ==> Recorded(b, rec, e)) <==> UserView(b, rec, es) == []
    ensures |UserView(b, rec, es)| <= |es|
  {
    if es != [] {
      var n := |es| - 1;
      UserViewExtremes(b, rec, es[..n]);
      assert es == es[..n] + [es[n]];
    }
  }

  lemma {:induction false} KeptMembers<E>(b: Backend<E>, rec: Record, claims: E -> bool, es: seq<E>)
    ensures forall e :: e in Kept(b, rec, claims, es) <==> e in es && !Mine(b, rec, claims, e)
  {
    if es != [] {
      var n := |es| - 1;
      KeptMembers(b, rec, claims, es[..n]);
      assert es == es[..n] + [es[n]];
    }
  }

  lemma {:induction false} KeptByRecord<E>(b: Backend<E>, rec: Record, claims: E -> bool, es: seq<E>)
    requires rec.Present?
    ensures Kept(b, rec, claims, es) == UserView(b, rec, es)
  {
    if es != [] {
      KeptByRecord(b, rec, claims, es[..|es| - 1]);
    }
  }

  lemma {:induction false} KeptByClaims<E>(b: Backend<E>, rec: Record, claims: E -> bool, es: seq<E>)
    requires rec.Absent?
    ensures |Kept(b, rec, claims, es)| <= |es|
    ensures Kept(b, rec, claims, es) == es <==> forall e :: e in es ==> !claims(e)
  {
    if es != [] {
      var n := |es| - 1;
      KeptByClaims(b, rec, claims, es[..n]);
      assert es == es[..n] + [es[n]];
    }
  }

  lemma {:induction false} ChosenMeaning<E>(desired: seq<OwnedEntry<E>>, pinned: set<string>)
    ensures forall d :: d in Chosen(desired, pinned) ==> d in desired && d.key != "" && d.key !in pinned
    ensures forall k :: k in Keys(Chosen(desired, pinned)) <==> k in DesiredKeys(desired) && k !in pinned
  {
    if desired != [] {
      var n := |desired| - 1;
      var init, d := desired[..n], desired[n];
      ChosenMeaning(init, pinned);
      assert desired == init + [d];
      DesiredKeysAppend(init, d);
      ChosenAppend(Chosen(init, pinned), d);
    }
  }

  /** The wish is written: it has an identity the user has not pinned, and is the first with it. */
  ghost predicate Wanted<E(!new)>(desired: seq<OwnedEntry<E>>, pinned: set<string>, i: nat) {
    i < |desired| && desired[i].key != "" && desired[i].key !in pinned && forall j :: 0 <= j < i ==> desired[j].key != desired[i].key
  }

  lemma WantedLast<E(!new)>(init: seq<OwnedEntry<E>>, pinned: set<string>, d: OwnedEntry<E>)
    ensures Wanted(init + [d], pinned, |init|) <==> d.key != "" && d.key !in pinned && d.key !in DesiredKeys(init)
    ensures forall i: nat :: i < |init| ==> (Wanted(init + [d], pinned, i) <==> Wanted(init, pinned, i))
  {
    var longer := init + [d];
    assert longer[|init|] == d && forall j :: 0 <= j < |init| ==> longer[j] == init[j] && init[j] in init;
    if d.key in DesiredKeys(init) {
      var e :| e in init && e.key == d.key;
      var j :| 0 <= j < |init| && init[j] == e;
      assert longer[j] == e;
    }
  }

  /** What is chosen stands in the order of the wishes, and is exactly the first wish of each unpinned identity. */
  lemma {:induction false} ChosenInOrder<E(!new)>(desired: seq<OwnedEntry<E>>, pinned: set<string>) returns (at: seq<nat>)
    ensures |at| == |Chosen(desired, pinned)|
    ensures forall i :: 0 <= i < |at| ==> at[i] < |desired| && Chosen(desired, pinned)[i] == desired[at[i]]
    ensures forall i, j :: 0 <= i < j < |at| ==> at[i] < at[j]
    ensures forall i: nat :: i in at <==> Wanted(desired, pinned, i)
  {
    at := [];
    if desired != [] {
      var n := |desired| - 1;
      at := ChosenInOrder(desired[..n], pinned);
      WantedLast(desired[..n], pinned, desired[n]);
      assert desired == desired[..n] + [desired[n]];
      if Wanted(desired, pinned, n) {
        at := at + [n];
      }
    }
  }

  lemma {:induction false} ChosenBound<E>(desired: seq<OwnedEntry<E>>, pinned: set<string>)
    ensures |Chosen(desired, pinned)| <= |DesiredKeys(desired)|
  {
    if desired != [] {
      var n := |desired| - 1;
      ChosenBound(desired[..n], pinned);
      assert desired == desired[..n] + [desired[n]];
      DesiredKeysAppend(desired[..n], desired[n]);
    }
  }

  /** The record a pass writes names exactly the keys of the entries it chose. */
  lemma SyncedRecord<E(!new)>(b: Backend<E>, s: State<E>, desired: seq<OwnedEntry<E>>, claims: E -> bool)
    requires Good(b) && WellKeyed(b, desired)
    ensures var kept := Kept(b, s.Rec(b), claims, s.entries);
            Synced(b, s, desired, claims).Rec(b) == Present(set k | k in DesiredKeys(desired) && k !in KeysOf(b, kept))
  {
    var kept := Kept(b, s.Rec(b), claims, s.entries);
    var chosen := Chosen(desired, KeysOf(b, kept));
    ChosenMeaning(desired, KeysOf(b, kept));
    forall k | k in Keys(chosen)
      ensures Recordable(b.canon, k)
    {
      var i :| 0 <= i < |chosen| && chosen[i].key == k;
      assert chosen[i] in chosen;
    }
    RecordRoundTrip(b.canon, Keys(chosen));
  }

  /** It covers each of these entries. */
  lemma ChosenRecorded<E(!new)>(b: Backend<E>, s: State<E>, desired: seq<OwnedEntry<E>>, claims: E -> bool)
    requires Good(b) && WellKeyed(b, desired)
    ensures var chosen := Chosen(desired, KeysOf(b, Kept(b, s.Rec(b), claims, s.entries)));
            forall e :: e in Values(chosen) ==> Recorded(b, Synced(b, s, desired, claims).Rec(b), e)
  {
    var pinned := KeysOf(b, Kept(b, s.Rec(b), claims, s.entries));
    var chosen := Chosen(desired, pinned);
    SyncedRecord(b, s, desired, claims);
    ChosenMeaning(desired, pinned);
    forall e | e in Values(chosen)
      ensures Recorded(b, Synced(b, s, desired, claims).Rec(b), e)
    {
      var i :| 0 <= i < |chosen| && chosen[i].value == e;
      assert chosen[i] in chosen;
      assert Keys(chosen)[i] == chosen[i].key;
    }
  }

  /** After a pass the user's entries are exactly the ones it kept. */
  lemma SyncedView<E(!new)>(b: Backend<E>, s: State<E>, desired: seq<OwnedEntry<E>>, claims: E -> bool)
    requires Good(b) && WellKeyed(b, desired)
    ensures Synced(b, s, desired, claims).View(b) == Kept(b, s.Rec(b), claims, s.entries)
  {
    var kept := Kept(b, s.Rec(b), claims, s.entries);
    var chosen := Chosen(desired, KeysOf(b, kept));
    var rec := Synced(b, s, desired, claims).Rec(b);
    SyncedRecord(b, s, desired, claims);
    ChosenRecorded(b, s, desired, claims);
    forall e | e in kept
      ensures !Recorded(b, rec, e)
    {
    }
    UserViewConcat(b, rec, kept, Values(chosen));
    UserViewExtremes(b, rec, kept);
    UserViewExtremes(b, rec, Values(chosen));
  }

  /** A pass leaves the user's entries first, then what it wrote and recorded. */
  lemma PassLayout<E(!new)>(b: Backend<E>, s: State<E>, desired: seq<OwnedEntry<E>>, claims: E -> bool)
    requires Good(b) && WellKeyed(b, desired)
    ensures var t := Synced(b, s, desired, claims);
            var n := |t.View(b)|;
            && t.View(b) <= t.entries && (forall i :: n <= i < |t.entries| ==> Recorded(b, t.Rec(b), t.entries[i]))
            && t.entries[n..] == Values(Chosen(desired, KeysOf(b, t.View(b))))
  {
    var t, kept := Synced(b, s, desired, claims), Kept(b, s.Rec(b), claims, s.entries);
    SyncedView(b, s, desired, claims);
    ChosenRecorded(b, s, desired, claims);
    forall i | |kept| <= i < |t.entries|
      ensures Recorded(b, t.Rec(b), t.entries[i])
    {
      assert t.entries[i] in t.entries[|kept|..];
    }
  }

  /** A pass leaves the user's entries alone, in order and with multiplicity, exactly when there is a record
      or the fallback claims nothing. */
  lemma PassPreservesUserView<E(!new)>(b: Backend<E>, s: State<E>, desired: seq<OwnedEntry<E>>, claims: E -> bool)
    requires Good(b) && WellKeyed(b, desired)
    ensures Synced(b, s, desired, claims).View(b) == s.View(b)
       <==> s.Rec(b).Present? || forall e :: e in s.entries ==> !claims(e)
  {
    SyncedView(b, s, desired, claims);
    if s.Rec(b).Present? {
      KeptByRecord(b, s.Rec(b), claims, s.entries);
    } else {
      KeptByClaims(b, s.Rec(b), claims, s.entries);
    }
    UserViewExtremes(b, s.Rec(b), s.entries);
  }

  /** A second pass with the same wishes writes nothing, whatever the first one started from and whatever
      the fallback would now claim. */
  lemma Settles<E(!new)>(b: Backend<E>, s: State<E>, desired: seq<OwnedEntry<E>>, claims: E -> bool, claims': E -> bool)
    requires Good(b) && WellKeyed(b, desired)
    ensures var t := Synced(b, s, desired, claims); Synced(b, t, desired, claims') == t
  {
    var t := Synced(b, s, desired, claims);
    SyncedRecord(b, s, desired, claims);
    SyncedView(b, s, desired, claims);
    KeptByRecord(b, t.Rec(b), claims', t.entries);
  }

  /** However many rotations have passed, the list holds the user's entries and at most one entry per distinct
      desired key. */
  lemma Bounded<E(!new)>(b: Backend<E>, s: State<E>, desired: seq<OwnedEntry<E>>, claims: E -> bool)
    requires Good(b) && WellKeyed(b, desired)
    ensures var t := Synced(b, s, desired, claims);
            t.View(b) <= t.entries && |t.entries| <= |t.View(b)| + |DesiredKeys(desired)|
  {
    SyncedView(b, s, desired, claims);
    ChosenBound(desired, KeysOf(b, Kept(b, s.Rec(b), claims, s.entries)));
  }

  /** Every wish is served: its key is in the list, from the operator or from the user's own pin. */
  lemma Served<E(!new)>(b: Backend<E>, s: State<E>, desired: seq<OwnedEntry<E>>, claims: E -> bool, key: string)
    requires Good(b) && WellKeyed(b, desired)
    ensures key in DesiredKeys(desired) ==> key in KeysOf(b, Synced(b, s, desired, claims).entries)
  {
    var kept := Kept(b, s.Rec(b), claims, s.entries);
    var chosen := Chosen(desired, KeysOf(b, kept));
    var t := Synced(b, s, desired, claims);
    ChosenMeaning(desired, KeysOf(b, kept));
    if key in DesiredKeys(desired) {
      if key in KeysOf(b, kept) {
        var e :| e in kept && b.keyOf(e) == key;
        assert e in t.entries;
      } else {
        assert key in Keys(chosen);
        var i :| 0 <= i < |chosen| && chosen[i].key == key;
        assert chosen[i] in chosen;
        assert t.entries[|kept| + i] == chosen[i].value;
      }
    }
  }

  // ---------------------------------------------------------------- whole runs

  /** What can happen to a shared list: a reconcile pass, the user inserting or deleting, a release, and a
      cluster call that fails and leaves the object as it was. */
  datatype Step<!E> =
    | Pass(desired: seq<OwnedEntry<E>>, claims: E -> bool)
    | Insert(at: nat, entry: E)
    | Delete(at: nat)
    | Release
    | CallFailed

  function Next<E(==)>(b: Backend<E>, s: State<E>, step: Step<E>): State<E> {
    match step
    case Pass(desired, claims) => Synced(b, s, desired, claims)
    case Insert(at, e) => if at <= |s.entries| then s.(entries := s.entries[..at] + [e] + s.entries[at..]) else s
    case Delete(at) => if at < |s.entries| then s.(entries := s.entries[..at] + s.entries[at + 1..]) else s
    case Release => Released(b, s)
    case CallFailed => s
  }

  /** The user's own list under the user's edits alone. A position in the shared list is the position among
      the user's entries before it; deleting an operator's entry is no edit of the user's. */
  function Shadow<E(==)>(b: Backend<E>, s: State<E>, own: seq<E>, step: Step<E>): seq<E> {
    match step
    case Insert(at, e) =>
      if at <= |s.entries| then
        var p := |UserView(b, s.Rec(b), s.entries[..at])|;
        if p <= |own| then own[..p] + [e] + own[p..] else own
      else own
    case Delete(at) =>
      if at < |s.entries| && !Recorded(b, s.Rec(b), s.entries[at]) then
        var p := |UserView(b, s.Rec(b), s.entries[..at])|;
        if p < |own| then own[..p] + own[p + 1..] else own
      else own
    case _ => own
  }

  /** The step can be taken at all: positions exist, and the desired entries carry their own keys. */
  ghost predicate Possible<E>(b: Backend<E>, s: State<E>, step: Step<E>) {
    match step
    case Pass(desired, _) => WellKeyed(b, desired)
    case Insert(at, _) => at <= |s.entries|
    case Delete(at) => at < |s.entries|
    case _ => true
  }

  /** A pass without a record finds nothing to claim, and the user does not insert what the operator has
      recorded as its own. */
  ghost predicate Fair<E>(b: Backend<E>, s: State<E>, step: Step<E>) {
    match step
    case Pass(_, claims) => s.Rec(b).Present? || forall e :: e in s.entries ==> !claims(e)
    case Insert(_, e) => !Recorded(b, s.Rec(b), e)
    case _ => true
  }

  function Run<E(==)>(b: Backend<E>, s: State<E>, steps: seq<Step<E>>): State<E> {
    if steps == [] then s else Next(b, Run(b, s, steps[..|steps| - 1]), steps[|steps| - 1])
  }

  function ShadowRun<E(==)>(b: Backend<E>, s: State<E>, own: seq<E>, steps: seq<Step<E>>): seq<E> {
    if steps == [] then own
    else
      var n := |steps| - 1;
      Shadow(b, Run(b, s, steps[..n]), ShadowRun(b, s, own, steps[..n]), steps[n])
  }

  ghost predicate FairRun<E>(b: Backend<E>, s: State<E>, steps: seq<Step<E>>) {
    forall i :: 0 <= i < |steps| ==> Possible(b, Run(b, s, steps[..i]), steps[i]) && Fair(b, Run(b, s, steps[..i]), steps[i])
  }

  /** The user's entries around one position. */
  lemma ViewAround<E>(b: Backend<E>, rec: Record, before: seq<E>, e: E, after: seq<E>)
    ensures UserView(b, rec, before + [e] + after)
         == UserView(b, rec, before) + (if Recorded(b, rec, e) then [] else [e]) + UserView(b, rec, after)
    ensures UserView(b, rec, before + after) == UserView(b, rec, before) + UserView(b, rec, after)
  {
    UserViewConcat(b, rec, before + [e], after);
    UserViewConcat(b, rec, before, [e]);
    UserViewConcat(b, rec, before, after);
    UserViewExtremes(b, rec, [e]);
  }

  lemma ViewWithout<E>(b: Backend<E>, rec: Record, before: seq<E>, e: E, after: seq<E>)
    ensures UserView(b, rec, before + [e] + after)
         == if Recorded(b, rec, e) then UserView(b, rec, before + after) else UserView(b, rec, before) + [e] + UserView(b, rec, after)
  {
    ViewAround(b, rec, before, e, after);
    assert UserView(b, rec, before) + [] == UserView(b, rec, before);
  }

  lemma InsertedView<E>(b: Backend<E>, rec: Record, es: seq<E>, at: nat, e: E)
    requires at <= |es|
    ensures var p := |UserView(b, rec, es[..at])|;
            var own := UserView(b, rec, es);
            p <= |own| && UserView(b, rec, es[..at] + [e] + es[at..]) == (if Recorded(b, rec, e) then own else own[..p] + [e] + own[p..])
  {
    ViewAround(b, rec, es[..at], e, es[at..]);
    assert es[..at] + es[at..] == es;
  }

  lemma DeletedView<E>(b: Backend<E>, rec: Record, es: seq<E>, at: nat)
    requires at < |es|
    ensures var p := |UserView(b, rec, es[..at])|;
            var own := UserView(b, rec, es);
            var rest := UserView(b, rec, es[..at] + es[at + 1..]);
            if Recorded(b, rec, es[at]) then rest == own else p < |own| && rest == own[..p] + own[p + 1..]
  {
    var before, e, after := es[..at], es[at], es[at + 1..];
    ViewAround(b, rec, before, e, after);
    assert before + [e] + after == es;
    var own, p := UserView(b, rec, es), |UserView(b, rec, before)|;
    if !Recorded(b, rec, e) {
      assert own[..p] == UserView(b, rec, before);
      assert own[p + 1..] == UserView(b, rec, after);
    }
  }

  /** A step does to the user's entries exactly what the user did, precisely when it is fair. */
  lemma StepMatchesShadow<E(!new)>(b: Backend<E>, s: State<E>, step: Step<E>)
    requires Good(b) && Possible(b, s, step)
    ensures Next(b, s, step).View(b) == Shadow(b, s, s.View(b), step) <==> Fair(b, s, step)
  {
    var rec, es := s.Rec(b), s.entries;
    match step {
      case Pass(desired, claims) =>
        PassPreservesUserView(b, s, desired, claims);
      case Insert(at, e) =>
        if at <= |es| {
          InsertedView(b, rec, es, at, e);
        }
      case Delete(at) =>
        if at < |es| {
          DeletedView(b, rec, es, at);
        }
      case Release =>
        UserViewExtremes(b, Absent, s.View(b));
      case CallFailed =>
    }
  }

  lemma FairPrefix<E>(b: Backend<E>, s: State<E>, steps: seq<Step<E>>, n: nat)
    requires FairRun(b, s, steps) && n <= |steps|
    ensures FairRun(b, s, steps[..n])
    ensures n < |steps| ==> Possible(b, Run(b, s, steps[..n]), steps[n]) && Fair(b, Run(b, s, steps[..n]), steps[n])
  {
    forall i | 0 <= i < n
      ensures Possible(b, Run(b, s, steps[..n][..i]), steps[..n][i]) && Fair(b, Run(b, s, steps[..n][..i]), steps[..n][i])
    {
      assert steps[..n][..i] == steps[..i];
    }
  }

  lemma {:induction false} RunMatchesShadow<E(!new)>(b: Backend<E>, s: State<E>, steps: seq<Step<E>>)
    requires Good(b) && FairRun(b, s, steps)
    ensures Run(b, s, steps).View(b) == ShadowRun(b, s, s.View(b), steps)
  {
    if steps != [] {
      var n := |steps| - 1;
      FairPrefix(b, s, steps, n);
      RunMatchesShadow(b, s, steps[..n]);
      StepMatchesShadow(b, Run(b, s, steps[..n]), steps[n]);
    }
  }

  /** Non-interference. Whatever the operator's passes wanted, however the user edited in between, and however
      often calls failed, releasing the object leaves precisely the list the user's edits alone would have made. */
  lemma NonInterference<E(!new)>(b: Backend<E>, s: State<E>, steps: seq<Step<E>>)
    requires Good(b) && FairRun(b, s, steps)
    ensures Next(b, Run(b, s, steps), Release).entries == ShadowRun(b, s, s.View(b), steps)
    ensures Next(b, Run(b, s, steps), Release).annotation == None
  {
    RunMatchesShadow(b, s, steps);
    var t := Run(b, s, steps);
    UserViewExtremes(b, Absent, t.entries);
  }

  // ---------------------------------------------------------------- how much the operator leaves in a list

  /** The entries that are not the user's. */
  function OwnedCount<E>(b: Backend<E>, s: State<E>): nat {
    UserViewExtremes(b, s.Rec(b), s.entries);
    |s.entries| - |s.View(b)|
  }

  lemma {:induction false} KeysAtMostWishes<E>(desired: seq<OwnedEntry<E>>)
    ensures |DesiredKeys(desired)| <= |desired|
  {
    if desired != [] {
      var n := |desired| - 1;
      KeysAtMostWishes(desired[..n]);
      assert desired == desired[..n] + [desired[n]];
      DesiredKeysAppend(desired[..n], desired[n]);
    } else {
      assert DesiredKeys(desired) == {};
    }
  }

  /** A fair step leaves at most as many operator entries as there were, or, for a pass, as it wishes for. */
  lemma StepCount<E(!new)>(b: Backend<E>, s: State<E>, step: Step<E>, n: nat)
    requires Good(b) && Possible(b, s, step) && Fair(b, s, step) && OwnedCount(b, s) <= n
    requires step.Pass? ==> |step.desired| <= n
    ensures OwnedCount(b, Next(b, s, step)) <= n
  {
    match step {
      case Pass(desired, claims) =>
        Bounded(b, s, desired, claims);
        KeysAtMostWishes(desired);
      case Insert(at, e) => InsertedView(b, s.Rec(b), s.entries, at, e);
      case Delete(at) => DeletedView(b, s.Rec(b), s.entries, at);
      case Release => UserViewExtremes(b, Absent, Released(b, s).entries);
      case CallFailed =>
    }
  }

  /** So over a run the operator's part of the list is bounded by the largest number of wishes, whatever they were. */
  lemma {:induction false} RunCount<E(!new)>(b: Backend<E>, s: State<E>, steps: seq<Step<E>>, n: nat)
    requires Good(b) && FairRun(b, s, steps) && OwnedCount(b, s) <= n
    requires forall i :: 0 <= i < |steps| && steps[i].Pass? ==> |steps[i].desired| <= n
    ensures OwnedCount(b, Run(b, s, steps)) <= n
  {
    if steps != [] {
      var last := |steps| - 1;
      FairPrefix(b, s, steps, last);
      RunCount(b, s, steps[..last], n);
      StepCount(b, Run(b, s, steps[..last]), steps[last], n);
    }
  }

  /** After a pass every entry is the user's or has a key this pass wished for: nothing of earlier passes stays. */
  lemma NothingLeftBehind<E(!new)>(b: Backend<E>, s: State<E>, desired: seq<OwnedEntry<E>>, claims: E -> bool, e: E)
    requires Good(b) && WellKeyed(b, desired) && e in Synced(b, s, desired, claims).entries
    ensures var t := Synced(b, s, desired, claims); e in t.View(b) || b.keyOf(e) in DesiredKeys(desired)
  {
    var t := Synced(b, s, desired, claims);
    SyncedRecord(b, s, desired, claims);
    UserViewMembers(b, t.Rec(b), t.entries);
  }
}
