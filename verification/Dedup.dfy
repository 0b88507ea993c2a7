/** How deduplication by identity behaves on lists put together from parts. */
module Dedup {
  import opened Text
  import opened Ownership

  lemma {:induction false} DedupedClean(canon: Canon, es: seq<string>)
    requires AllClean(es)
    ensures AllClean(Deduped(canon, es))
  {
    DedupedMeaning(canon, es);
  }

  lemma CanonKeysOfClean(canon: Canon, es: seq<string>)
    requires AllClean(es)
    ensures CanonKeys(canon, es) == KeySet(canon, es)
  {
    forall e | e in es
      ensures Trim(e) == e
    {
      TrimMeaning(e);
    }
  }

  lemma DedupedSeen(canon: Canon, xs: seq<string>, y: string)
    requires canon(y) in KeySet(canon, xs)
    ensures Deduped(canon, xs + [y]) == Deduped(canon, xs)
  {
    assert (xs + [y])[..|xs + [y]| - 1] == xs;
  }

  lemma DedupedNew(canon: Canon, xs: seq<string>, y: string)
    requires canon(y) !in KeySet(canon, xs)
    ensures Deduped(canon, xs + [y]) == Deduped(canon, xs) + [y]
  {
    assert (xs + [y])[..|xs + [y]| - 1] == xs;
  }

  lemma {:induction false} DedupedAppend(canon: Canon, xs: seq<string>, ys: seq<string>)
    ensures Deduped(canon, xs + ys) == Deduped(canon, xs) + Deduped(canon, Unseen(canon, xs, ys))
  {
    if ys == [] {
      assert xs + ys == xs;
    } else {
      var init, y := ys[..|ys| - 1], ys[|ys| - 1];
      DedupedAppend(canon, xs, init);
      assert xs + ys == (xs + init) + [y];
      DedupedAppendStep(canon, xs, init, y, Deduped(canon, xs), Unseen(canon, xs, init));
      assert Unseen(canon, xs, ys) == if canon(y) in KeySet(canon, xs) then Unseen(canon, xs, init) else Unseen(canon, xs, init) + [y];
    }
  }

  lemma DedupedAppendStep(canon: Canon, xs: seq<string>, init: seq<string>, y: string, front: seq<string>, unseen: seq<string>)
    requires unseen == Unseen(canon, xs, init) && Deduped(canon, xs + init) == front + Deduped(canon, unseen)
    ensures Deduped(canon, (xs + init) + [y]) == front + Deduped(canon, if canon(y) in KeySet(canon, xs) then unseen else unseen + [y])
  {
    SeenOrUnseen(canon, xs, init, canon(y));
    if canon(y) in KeySet(canon, xs) {
      DedupedSeen(canon, xs + init, y);
    } else if canon(y) in KeySet(canon, unseen) {
      DedupedSeen(canon, xs + init, y);
      DedupedSeen(canon, unseen, y);
    } else {
      DedupedNew(canon, xs + init, y);
      DedupedNew(canon, unseen, y);
      assert (front + Deduped(canon, unseen)) + [y] == front + (Deduped(canon, unseen) + [y]);
    }
  }

  lemma SeenOrUnseen(canon: Canon, xs: seq<string>, ys: seq<string>, k: string)
    ensures k in KeySet(canon, xs + ys) <==> k in KeySet(canon, xs) || k in KeySet(canon, Unseen(canon, xs, ys))
    ensures k in KeySet(canon, xs) ==> k !in KeySet(canon, Unseen(canon, xs, ys))
  {
    KeySetConcat(canon, xs, ys);
    UnseenKeys(canon, xs, ys);
  }

  /** The entries of `ys` whose identity is not in `xs`. */
  function Unseen(canon: Canon, xs: seq<string>, ys: seq<string>): seq<string> {
    if ys == [] then []
    else
      var rest, y := Unseen(canon, xs, ys[..|ys| - 1]), ys[|ys| - 1];
      if canon(y) in KeySet(canon, xs) then rest else rest + [y]
  }

  lemma KeySetConcat(canon: Canon, xs: seq<string>, ys: seq<string>)
    ensures KeySet(canon, xs + ys) == KeySet(canon, xs) + KeySet(canon, ys)
  {
    assert forall e :: e in xs + ys <==> e in xs || e in ys;
  }

  lemma {:induction false} UnseenKeys(canon: Canon, xs: seq<string>, ys: seq<string>)
    ensures KeySet(canon, Unseen(canon, xs, ys)) == KeySet(canon, ys) - KeySet(canon, xs)
    ensures forall e :: e in Unseen(canon, xs, ys) ==> e in ys
  {
    if ys != [] {
      var n := |ys| - 1;
      UnseenKeys(canon, xs, ys[..n]);
      assert ys == ys[..n] + [ys[n]];
      KeySetAppend(canon, ys[..n], ys[n]);
      KeySetAppend(canon, Unseen(canon, xs, ys[..n]), ys[n]);
    }
  }

  lemma {:induction false} UnseenByKeys(canon: Canon, xs: seq<string>, xs': seq<string>, ys: seq<string>)
    requires KeySet(canon, xs) == KeySet(canon, xs')
    ensures Unseen(canon, xs, ys) == Unseen(canon, xs', ys)
  {
    if ys != [] {
      UnseenByKeys(canon, xs, xs', ys[..|ys| - 1]);
    }
  }

  /** Deduplicating the front of a list first changes nothing. */
  lemma DedupedTwice(canon: Canon, xs: seq<string>, ys: seq<string>)
    ensures Deduped(canon, Deduped(canon, xs) + ys) == Deduped(canon, xs + ys)
    ensures Deduped(canon, Deduped(canon, xs)) == Deduped(canon, xs)
  {
    DedupedMeaning(canon, xs);
    DedupedDistinct(canon, Deduped(canon, xs));
    DedupedAppend(canon, xs, ys);
    DedupedAppend(canon, Deduped(canon, xs), ys);
    UnseenByKeys(canon, xs, Deduped(canon, xs), ys);
  }

  /** Dropping seen identities first and repeats after, or the other way round, is the same. */
  lemma {:induction false} UnseenOfDeduped(canon: Canon, xs: seq<string>, ys: seq<string>)
    ensures Unseen(canon, xs, Deduped(canon, ys)) == Deduped(canon, Unseen(canon, xs, ys))
  {
    if ys != [] {
      var init, y := ys[..|ys| - 1], ys[|ys| - 1];
      UnseenOfDeduped(canon, xs, init);
      assert ys == init + [y];
      UnseenKeys(canon, xs, init);
      if canon(y) in KeySet(canon, init) {
        if canon(y) !in KeySet(canon, xs) {
          DedupedSeen(canon, Unseen(canon, xs, init), y);
        }
      } else {
        UnseenAppend(canon, xs, Deduped(canon, init), y);
        if canon(y) !in KeySet(canon, xs) {
          DedupedNew(canon, Unseen(canon, xs, init), y);
        }
      }
    }
  }

  lemma UnseenAppend(canon: Canon, xs: seq<string>, ys: seq<string>, y: string)
    ensures Unseen(canon, xs, ys + [y]) == if canon(y) in KeySet(canon, xs) then Unseen(canon, xs, ys) else Unseen(canon, xs, ys) + [y]
  {
    assert (ys + [y])[..|ys + [y]| - 1] == ys;
  }

  /** What a longer list has not seen, a part of it has not seen either. */
  lemma {:induction false} UnseenTwice(canon: Canon, part: seq<string>, whole: seq<string>, ys: seq<string>)
    requires KeySet(canon, part) <= KeySet(canon, whole)
    ensures Unseen(canon, whole, Unseen(canon, part, ys)) == Unseen(canon, whole, ys)
  {
    if ys != [] {
      var init, y := ys[..|ys| - 1], ys[|ys| - 1];
      UnseenTwice(canon, part, whole, init);
      if canon(y) !in KeySet(canon, part) {
        UnseenAppend(canon, whole, Unseen(canon, part, init), y);
      }
    }
  }

  /** Inserting into a list and dropping repeats is inserting, at the corresponding place, into the list without
      repeats and dropping repeats. */
  lemma DedupedInsert(canon: Canon, before: seq<string>, e: string, after: seq<string>)
    ensures var own, p := Deduped(canon, before + after), |Deduped(canon, before)|;
            p <= |own| && Deduped(canon, before + [e] + after) == Deduped(canon, own[..p] + [e] + own[p..])
  {
    var front, back := Deduped(canon, before), Deduped(canon, Unseen(canon, before, after));
    var own, p := Deduped(canon, before + after), |front|;
    DedupedAppend(canon, before, after);
    assert own[..p] == front && own[p..] == back;
    var long, short := before + [e], front + [e];
    DedupedAppend(canon, long, after);
    DedupedAppend(canon, short, back);
    DedupedTwice(canon, before, [e]);
    DedupedMeaning(canon, before);
    KeySetConcat(canon, before, [e]);
    KeySetConcat(canon, front, [e]);
    UnseenByKeys(canon, short, long, back);
    UnseenOfDeduped(canon, long, Unseen(canon, before, after));
    UnseenTwice(canon, before, long, after);
    DedupedTwice(canon, Unseen(canon, long, after), []);
  }

  /** The entries other than the spellings of one identity. */
  function Excluding(canon: Canon, es: seq<string>, id: string): seq<string> {
    if es == [] then []
    else
      var rest, e := Excluding(canon, es[..|es| - 1], id), es[|es| - 1];
      if canon(e) == id then rest else rest + [e]
  }

  lemma {:induction false} ExcludingMembers(canon: Canon, es: seq<string>, id: string)
    ensures forall e :: e in Excluding(canon, es, id) <==> e in es && canon(e) != id
  {
    if es != [] {
      ExcludingMembers(canon, es[..|es| - 1], id);
      assert es == es[..|es| - 1] + [es[|es| - 1]];
    }
  }

  lemma ExcludingAppend(canon: Canon, es: seq<string>, e: string, id: string)
    ensures Excluding(canon, es + [e], id) == if canon(e) == id then Excluding(canon, es, id) else Excluding(canon, es, id) + [e]
  {
    assert (es + [e])[..|es + [e]| - 1] == es;
  }

  lemma ExcludingKeys(canon: Canon, es: seq<string>, id: string)
    ensures KeySet(canon, Excluding(canon, es, id)) == KeySet(canon, es) - {id}
  {
    ExcludingMembers(canon, es, id);
  }

  /** Removing an identity commutes with dropping repeats. */
  lemma {:induction false} DedupedExcluding(canon: Canon, es: seq<string>, id: string)
    ensures Deduped(canon, Excluding(canon, es, id)) == Excluding(canon, Deduped(canon, es), id)
  {
    if es != [] {
      var init, e := es[..|es| - 1], es[|es| - 1];
      DedupedExcluding(canon, init, id);
      ExcludingKeys(canon, init, id);
      if canon(e) in KeySet(canon, init) {
        if canon(e) != id {
          DedupedSeen(canon, Excluding(canon, init, id), e);
        }
      } else {
        ExcludingAppend(canon, Deduped(canon, init), e, id);
        if canon(e) != id {
          DedupedNew(canon, Excluding(canon, init, id), e);
        }
      }
    }
  }

  /** Lists without repeats that agree as lists agree as sets. */
  lemma DedupedSameKeys(canon: Canon, xs: seq<string>, ys: seq<string>)
    requires Deduped(canon, xs) == Deduped(canon, ys)
    ensures KeySet(canon, xs) == KeySet(canon, ys)
  {
    DedupedMeaning(canon, xs);
    DedupedMeaning(canon, ys);
  }
}
