/** Ownership records: what the operator wrote on its previous pass, kept in an annotation. */
module Ownership {
  import opened Addresses
  import opened Text

  /** How entry texts are normalised: netip's parse-and-print where the text is an address or a prefix,
      the text itself otherwise. */
  type Canon = string -> string

  /** What the protocol needs of normalisation: doing it twice is doing it once, and a text that fits in a
      list still fits. */
  ghost predicate Normalises(canon: Canon) {
    && (forall s :: canon(canon(s)) == canon(s))
    && (forall s :: Clean(s) ==> Clean(canon(s)))
  }

  /** Absent is "never recorded"; an empty set is a record, and says nothing is owned. */
  datatype Record = Absent | Present(keys: set<string>)

  function RecordOf(canon: Canon, annotation: Option<string>): Record {
    match annotation
    case None => Absent
    case Some(value) => Present(KeySet(canon, Entries(value)))
  }

  function KeySet(canon: Canon, es: seq<string>): set<string> {
    set e | e in es :: canon(e)
  }

  lemma KeySetAppend(canon: Canon, es: seq<string>, e: string)
    ensures KeySet(canon, es + [e]) == KeySet(canon, es) + {canon(e)}
  {
    assert forall x :: x in es + [e] <==> x in es || x == e;
  }

  method ParseOwnershipRecord(canon: Canon, annotation: Option<string>) returns (rec: Record)
    ensures rec == RecordOf(canon, annotation)
  {
    if annotation.None? {
      return Absent;
    }
    var parts := Split(annotation.value);
    var keys: set<string> := {};
    for i := 0 to |parts|
      invariant keys == KeySet(canon, NonBlank(parts[..i]))
    {
      assert parts[..i + 1][..i] == parts[..i];
      var item := Trim(parts[i]);
      if item != "" {
        KeySetAppend(canon, NonBlank(parts[..i]), item);
        keys := keys + {canon(item)};
      }
    }
    assert parts[..|parts|] == parts;
    return Present(keys);
  }

  predicate Owns(canon: Canon, rec: Record, entry: string) {
    rec.Present? && canon(entry) in rec.keys
  }

  function FormatOwnershipRecord(keys: seq<string>): string {
    Join(keys)
  }

  /** A key a record can hold: clean and already normalised. */
  predicate Recordable(canon: Canon, key: string) {
    Clean(key) && canon(key) == key
  }

  /** Reading back a formatted record gives exactly the keys written, the empty list included. */
  lemma RecordRoundTrip(canon: Canon, keys: seq<string>)
    requires forall k :: k in keys ==> Recordable(canon, k)
    ensures RecordOf(canon, Some(FormatOwnershipRecord(keys))) == Present(set k | k in keys)
    ensures forall e :: Owns(canon, RecordOf(canon, Some(FormatOwnershipRecord(keys))), e) <==> canon(e) in keys
  {
    EntriesOfJoin(keys);
    assert KeySet(canon, keys) == (set k | k in keys);
  }

  /** A record is read whatever white space is around its parts: it names their normal forms. */
  lemma RecordOfPadded(canon: Canon, ps: seq<Padded>)
    requires forall p :: p in ps ==> p.Valid()
    ensures RecordOf(canon, Some(Join(Texts(ps)))) == Present(set p | p in ps :: canon(p.entry))
    ensures RecordOf(canon, None) == Absent
  {
    EntriesOfPadded(ps);
    assert forall p :: p in ps ==> p.entry in Bare(ps) by {
      assert forall i :: 0 <= i < |ps| ==> Bare(ps)[i] == ps[i].entry;
    }
    assert KeySet(canon, Bare(ps)) == (set p | p in ps :: canon(p.entry));
  }

  // ---------------------------------------------------------------- pins and duplicates

  /** The identities of entries as annotations spell them. */
  function CanonKeys(canon: Canon, es: seq<string>): set<string> {
    set e | e in es :: canon(Trim(e))
  }

  lemma CanonKeysAppend(canon: Canon, es: seq<string>, e: string)
    ensures CanonKeys(canon, es + [e]) == CanonKeys(canon, es) + {canon(Trim(e))}
  {
    assert forall x :: x in es + [e] <==> x in es || x == e;
  }

  /** The candidates the user does not already have, by identity rather than spelling. */
  function Unpinned(canon: Canon, candidates: seq<string>, pinned: set<string>): seq<string> {
    if candidates == [] then []
    else
      var rest, c := Unpinned(canon, candidates[..|candidates| - 1], pinned), candidates[|candidates| - 1];
      if canon(Trim(c)) in pinned then rest else rest + [c]
  }

  method ExcludePinned(canon: Canon, candidates: seq<string>, pinned: seq<string>) returns (out: seq<string>)
    ensures out == Unpinned(canon, candidates, CanonKeys(canon, pinned))
  {
    if |pinned| == 0 {
      NothingPinned(canon, candidates);
      assert CanonKeys(canon, pinned) == {};
      return candidates;
    }
    var pinnedKeys: set<string> := {};
    for i := 0 to |pinned|
      invariant pinnedKeys == CanonKeys(canon, pinned[..i])
    {
      CanonKeysAppend(canon, pinned[..i], pinned[i]);
      assert pinned[..i + 1] == pinned[..i] + [pinned[i]];
      pinnedKeys := pinnedKeys + {canon(Trim(pinned[i]))};
    }
    assert pinned[..|pinned|] == pinned;
    out := [];
    for i := 0 to |candidates|
      invariant out == Unpinned(canon, candidates[..i], pinnedKeys)
    {
      assert candidates[..i + 1][..i] == candidates[..i];
      if canon(Trim(candidates[i])) !in pinnedKeys {
        out := out + [candidates[i]];
      }
    }
    assert candidates[..|candidates|] == candidates;
  }

  lemma {:induction false} NothingPinned(canon: Canon, candidates: seq<string>)
    ensures Unpinned(canon, candidates, {}) == candidates
  {
    if candidates != [] {
      var n := |candidates| - 1;
      NothingPinned(canon, candidates[..n]);
      assert candidates == candidates[..n] + [candidates[n]];
    }
  }

  /** What is claimed is wanted and not pinned, and nothing wanted and not pinned is missed. */
  lemma {:induction false} UnpinnedMeaning(canon: Canon, candidates: seq<string>, pinned: set<string>)
    ensures forall e :: e in Unpinned(canon, candidates, pinned) <==> e in candidates && canon(Trim(e)) !in pinned
  {
    if candidates != [] {
      UnpinnedMeaning(canon, candidates[..|candidates| - 1], pinned);
      assert candidates == candidates[..|candidates| - 1] + [candidates[|candidates| - 1]];
    }
  }

  /** Candidates are judged one by one, in order: a list is claimed part by part. */
  lemma {:induction false} UnpinnedInOrder(canon: Canon, xs: seq<string>, ys: seq<string>, pinned: set<string>)
    ensures Unpinned(canon, xs + ys, pinned) == Unpinned(canon, xs, pinned) + Unpinned(canon, ys, pinned)
  {
    if ys == [] {
      assert xs + ys == xs;
    } else {
      var n := |ys| - 1;
      assert (xs + ys)[..|xs + ys| - 1] == xs + ys[..n];
      UnpinnedInOrder(canon, xs, ys[..n], pinned);
    }
  }

  predicate NoRepeats(es: seq<string>) {
    forall i, j :: 0 <= i < j < |es| ==> es[i] != es[j]
  }

  lemma NoRepeatsSplit(init: seq<string>, last: string)
    ensures NoRepeats(init + [last]) <==> NoRepeats(init) && last !in init
  {
    var es := init + [last];
    assert forall i :: 0 <= i < |init| ==> es[i] == init[i];
    if NoRepeats(es) {
      forall i | 0 <= i < |init|
        ensures init[i] != last
      {
        assert es[i] != es[|init|];
      }
    }
  }

  lemma {:induction false} UnpinnedDistinct(canon: Canon, candidates: seq<string>, pinned: set<string>)
    requires NoRepeats(candidates)
    ensures NoRepeats(Unpinned(canon, candidates, pinned))
  {
    if candidates != [] {
      var n := |candidates| - 1;
      assert candidates == candidates[..n] + [candidates[n]];
      NoRepeatsSplit(candidates[..n], candidates[n]);
      UnpinnedDistinct(canon, candidates[..n], pinned);
      UnpinnedMeaning(canon, candidates[..n], pinned);
      NoRepeatsSplit(Unpinned(canon, candidates[..n], pinned), candidates[n]);
    }
  }

  /** First occurrences, by identity. */
  function Deduped(canon: Canon, items: seq<string>): seq<string> {
    if items == [] then []
    else
      var init, last := items[..|items| - 1], items[|items| - 1];
      if canon(last) in KeySet(canon, init) then Deduped(canon, init) else Deduped(canon, init) + [last]
  }

  method DedupePreservingOrder(canon: Canon, items: seq<string>) returns (out: seq<string>)
    ensures out == Deduped(canon, items)
  {
    var seen: set<string> := {};
    out := [];
    for i := 0 to |items|
      invariant seen == KeySet(canon, items[..i])
      invariant out == Deduped(canon, items[..i])
    {
      assert items[..i + 1][..i] == items[..i];
      KeySetAppend(canon, items[..i], items[i]);
      assert items[..i + 1] == items[..i] + [items[i]];
      if canon(items[i]) !in seen {
        seen := seen + {canon(items[i])};
        out := out + [items[i]];
      }
    }
    assert items[..|items|] == items;
  }

  /** Deduplication keeps the identities and repeats none. */
  lemma {:induction false} DedupedMeaning(canon: Canon, items: seq<string>)
    ensures KeySet(canon, Deduped(canon, items)) == KeySet(canon, items)
    ensures forall i, j :: 0 <= i < j < |Deduped(canon, items)| ==> canon(Deduped(canon, items)[i]) != canon(Deduped(canon, items)[j])
    ensures forall e :: e in Deduped(canon, items) ==> e in items
  {
    if items != [] {
      var init, last := items[..|items| - 1], items[|items| - 1];
      DedupedMeaning(canon, init);
      assert items == init + [last];
      KeySetAppend(canon, init, last);
      KeySetAppend(canon, Deduped(canon, init), last);
      forall e | e in Deduped(canon, init)
        ensures canon(e) in KeySet(canon, Deduped(canon, init))
      {
      }
    }
  }

  /** The i-th entry is the first of its identity. */
  ghost predicate Leads(canon: Canon, items: seq<string>, i: nat) {
    i < |items| && forall j :: 0 <= j < i ==> canon(items[j]) != canon(items[i])
  }

  lemma LeadsLast(canon: Canon, init: seq<string>, last: string)
    ensures Leads(canon, init + [last], |init|) <==> canon(last) !in KeySet(canon, init)
    ensures forall i: nat :: i < |init| ==> (Leads(canon, init + [last], i) <==> Leads(canon, init, i))
  {
    var longer := init + [last];
    assert longer[|init|] == last && forall j :: 0 <= j < |init| ==> longer[j] == init[j] && init[j] in init;
    if canon(last) in KeySet(canon, init) {
      var e :| e in init && canon(e) == canon(last);
      var j :| 0 <= j < |init| && init[j] == e;
      assert longer[j] == e;
    }
  }

  /** What is left stands in its old order, and is exactly the first entry of each identity. */
  lemma {:induction false} DedupedInOrder(canon: Canon, items: seq<string>) returns (at: seq<nat>)
    ensures |at| == |Deduped(canon, items)|
    ensures forall i :: 0 <= i < |at| ==> at[i] < |items| && Deduped(canon, items)[i] == items[at[i]]
    ensures forall i, j :: 0 <= i < j < |at| ==> at[i] < at[j]
    ensures forall i: nat :: i in at <==> Leads(canon, items, i)
  {
    at := [];
    if items != [] {
      var n := |items| - 1;
      at := DedupedInOrder(canon, items[..n]);
      LeadsLast(canon, items[..n], items[n]);
      assert items == items[..n] + [items[n]];
      if canon(items[n]) !in KeySet(canon, items[..n]) {
        at := at + [n];
      }
    }
  }

  /** A list without repeats is left alone. */
  lemma {:induction false} DedupedDistinct(canon: Canon, items: seq<string>)
    requires forall i, j :: 0 <= i < j < |items| ==> canon(items[i]) != canon(items[j])
    ensures Deduped(canon, items) == items
  {
    if items != [] {
      DedupedDistinct(canon, items[..|items| - 1]);
    }
  }
}
