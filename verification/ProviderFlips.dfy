/** A Service whose load-balancer provider is flipped at will: what the user keeps in each provider's annotation over
    whole runs, in order and up to repeats. */
module ProviderFlips {
  import opened Addresses
  import opened Dedup
  import opened Ownership
  import opened OwnedList
  import opened PoolBackends
  import opened ServiceSync
  import opened Text

  /** What can happen to a Service: a pass for whichever provider it names by then, the user inserting an entry or
      removing every spelling of one, a release, and a write that fails. */
  datatype LBStep =
    | LBPass(managed: seq<ValidPrefix>, all: seq<string>, field: Key)
    | Put(into: Key, at: nat, entry: string)
    | Drop(from: Key, id: string)
    | HandBack
    | Failed

  function Inserted(es: seq<string>, at: nat, e: string): seq<string>
    requires at <= |es|
  {
    es[..at] + [e] + es[at..]
  }

  function LBNext(canon: Canon, net: Netip, a: Annotations, step: LBStep): Annotations {
    match step
    case LBPass(managed, all, field) => AddressesPassed(canon, net, managed, a, all, field)
    case Put(f, at, e) =>
      var es := Entries(Get(a, f));
      if at <= |es| then a[f := Join(Inserted(es, at, e))] else a
    case Drop(f, id) => a[f := Join(Excluding(canon, Entries(Get(a, f)), id))]
    case HandBack => ReleasedService(canon, a)
    case Failed => a
  }

  /** The user's entries of a list, without repeats. */
  function OwnOf(canon: Canon, rec: Record, es: seq<string>): seq<string> {
    Deduped(canon, UserView(Plain(canon), rec, es))
  }

  function Own(canon: Canon, a: Annotations, f: Key): seq<string> {
    OwnOf(canon, IPRecord(canon, a), Entries(Get(a, f)))
  }

  /** The user's own entries of field `f` under the user's edits alone. A position in the shared field is the position
      among the user's different entries before it. */
  function LBShadow(canon: Canon, a: Annotations, own: seq<string>, step: LBStep, f: Key): seq<string> {
    match step
    case Put(into, at, e) =>
      var es := Entries(Get(a, f));
      if into == f && at <= |es| then
        var p := |OwnOf(canon, IPRecord(canon, a), es[..at])|;
        if p <= |own| then Deduped(canon, Inserted(own, p, e)) else own
      else own
    case Drop(from, id) => if from == f then Excluding(canon, own, id) else own
    case _ => own
  }

  ghost predicate LBPossible(canon: Canon, a: Annotations, step: LBStep) {
    match step
    case LBPass(_, all, field) => IsField(field) && Generated(canon, all)
    case Put(f, at, e) => IsField(f) && at <= |Entries(Get(a, f))| && Clean(e)
    case Drop(f, _) => IsField(f)
    case _ => true
  }

  /** A pass without a record finds nothing to claim in either field and records nothing the user has in the other one,
      and the user does not insert what is recorded as the operator's. */
  ghost predicate LBFair(canon: Canon, net: Netip, a: Annotations, step: LBStep) {
    match step
    case LBPass(managed, all, field) =>
      && Grounded(canon, net, managed, a, field) && Grounded(canon, net, managed, a, OtherField(field))
      && !Clash(canon, net, managed, a, all, field)
    case Put(_, _, e) => !Recorded(Plain(canon), IPRecord(canon, a), e)
    case _ => true
  }

  ghost predicate FollowsShadow(canon: Canon, net: Netip, a: Annotations, step: LBStep) {
    FollowsAt(canon, net, a, step, CiliumIPs) && FollowsAt(canon, net, a, step, KubevipIPs)
  }

  ghost predicate FollowsAt(canon: Canon, net: Netip, a: Annotations, step: LBStep, f: Key) {
    Own(canon, LBNext(canon, net, a, step), f) == LBShadow(canon, a, Own(canon, a, f), step, f)
  }

  /** There are two fields. */
  lemma FollowsByField(canon: Canon, net: Netip, a: Annotations, step: LBStep, field: Key)
    requires IsField(field)
    ensures FollowsShadow(canon, net, a, step) <==> FollowsAt(canon, net, a, step, field) && FollowsAt(canon, net, a, step, OtherField(field))
  {
  }

  // ---------------------------------------------------------------- one step

  lemma PassMatches(canon: Canon, net: Netip, a: Annotations, step: LBStep)
    requires Coherent(canon, net) && step.LBPass? && LBPossible(canon, a, step)
    ensures FollowsShadow(canon, net, a, step) <==> LBFair(canon, net, a, step)
  {
    SelectedFieldKept(canon, net, step.managed, a, step.all, step.field);
    AbandonedFieldKept(canon, net, step.managed, a, step.all, step.field);
    FollowsByField(canon, net, a, step, step.field);
  }

  /** The user's entries around one position. */
  lemma PutMatches(canon: Canon, rec: Record, es: seq<string>, at: nat, e: string)
    requires at <= |es| && AllClean(es) && Clean(e)
    ensures var own, p := OwnOf(canon, rec, es), |OwnOf(canon, rec, es[..at])|;
            p <= |own| && (OwnOf(canon, rec, Inserted(es, at, e)) == Deduped(canon, Inserted(own, p, e)) <==> !Recorded(Plain(canon), rec, e))
  {
    var b := Plain(canon);
    var before, after := UserView(b, rec, es[..at]), UserView(b, rec, es[at..]);
    ViewInserted(canon, rec, es, at, e);
    if Recorded(b, rec, e) {
      RecordedIsNotOwn(canon, rec, es, e);
    }
    PutAmong(canon, before, e, after, Recorded(b, rec, e));
  }

  lemma ViewInserted(canon: Canon, rec: Record, es: seq<string>, at: nat, e: string)
    requires at <= |es|
    ensures var b := Plain(canon);
            var before, after := UserView(b, rec, es[..at]), UserView(b, rec, es[at..]);
            && UserView(b, rec, es) == before + after
            && UserView(b, rec, Inserted(es, at, e)) == if Recorded(b, rec, e) then before + after else before + [e] + after
  {
    var b, front, back := Plain(canon), es[..at], es[at..];
    assert front + back == es;
    UserViewConcat(b, rec, front, back);
    ViewWithout(b, rec, front, e, back);
  }

  /** Inserting among the user's entries, or, for an entry that is not the user's, not inserting. */
  lemma PutAmong(canon: Canon, before: seq<string>, e: string, after: seq<string>, foreign: bool)
    requires foreign ==> canon(e) !in KeySet(canon, before + after)
    ensures var own, p := Deduped(canon, before + after), |Deduped(canon, before)|;
            && p <= |own|
            && (Deduped(canon, if foreign then before + after else before + [e] + after) == Deduped(canon, Inserted(own, p, e)) <==> !foreign)
  {
    DedupedInsert(canon, before, e, after);
    if foreign {
      ForeignInsert(canon, before + after, |Deduped(canon, before)|, e);
    }
  }

  /** A list without an identity is not the list with it. */
  lemma ForeignInsert(canon: Canon, xs: seq<string>, p: nat, e: string)
    requires p <= |Deduped(canon, xs)| && canon(e) !in KeySet(canon, xs)
    ensures Deduped(canon, xs) != Deduped(canon, Inserted(Deduped(canon, xs), p, e))
  {
    var longer := Inserted(Deduped(canon, xs), p, e);
    DedupedMeaning(canon, xs);
    DedupedMeaning(canon, longer);
    assert longer[p] == e;
    assert canon(e) in KeySet(canon, longer);
  }

  lemma RecordedIsNotOwn(canon: Canon, rec: Record, es: seq<string>, e: string)
    requires AllClean(es) && Clean(e) && Recorded(Plain(canon), rec, e)
    ensures canon(e) !in KeySet(canon, UserView(Plain(canon), rec, es))
  {
    UserViewMembers(Plain(canon), rec, es);
  }

  lemma {:induction false} ViewExcluding(canon: Canon, rec: Record, es: seq<string>, id: string)
    ensures UserView(Plain(canon), rec, Excluding(canon, es, id)) == Excluding(canon, UserView(Plain(canon), rec, es), id)
  {
    if es != [] {
      var init, e := es[..|es| - 1], es[|es| - 1];
      ViewExcluding(canon, rec, init, id);
      UserViewConcat(Plain(canon), rec, Excluding(canon, init, id), [e]);
      UserViewExtremes(Plain(canon), rec, [e]);
      ExcludingAppend(canon, UserView(Plain(canon), rec, init), e, id);
    }
  }

  lemma PutStepMatches(canon: Canon, net: Netip, a: Annotations, f: Key, at: nat, e: string)
    requires LBPossible(canon, a, Put(f, at, e))
    ensures Own(canon, LBNext(canon, net, a, Put(f, at, e)), f) == LBShadow(canon, a, Own(canon, a, f), Put(f, at, e), f)
       <==> !Recorded(Plain(canon), IPRecord(canon, a), e)
  {
    var es, rec := Entries(Get(a, f)), IPRecord(canon, a);
    var t := LBNext(canon, net, a, Put(f, at, e));
    assert AllClean(es) by {
      EntriesClean(Get(a, f));
    }
    assert Own(canon, t, f) == OwnOf(canon, rec, Inserted(es, at, e)) by {
      EntriesOfJoin(Inserted(es, at, e));
      assert IPRecord(canon, t) == rec;
    }
    PutMatches(canon, rec, es, at, e);
    assert Own(canon, a, f) == OwnOf(canon, rec, es);
  }

  lemma DropStepMatches(canon: Canon, net: Netip, a: Annotations, f: Key, id: string)
    requires IsField(f)
    ensures Own(canon, LBNext(canon, net, a, Drop(f, id)), f) == Excluding(canon, Own(canon, a, f), id)
  {
    var es, rec := Entries(Get(a, f)), IPRecord(canon, a);
    var t := LBNext(canon, net, a, Drop(f, id));
    assert Own(canon, t, f) == OwnOf(canon, rec, Excluding(canon, es, id)) by {
      ExcludingReads(canon, Get(a, f), id);
      assert Get(t, f) == Join(Excluding(canon, es, id)) && IPRecord(canon, t) == rec;
    }
    OwnExcluding(canon, rec, es, id);
  }

  lemma ExcludingReads(canon: Canon, text: string, id: string)
    ensures Entries(Join(Excluding(canon, Entries(text), id))) == Excluding(canon, Entries(text), id)
  {
    EntriesClean(text);
    ExcludingMembers(canon, Entries(text), id);
    EntriesOfJoin(Excluding(canon, Entries(text), id));
  }

  lemma OwnExcluding(canon: Canon, rec: Record, es: seq<string>, id: string)
    ensures OwnOf(canon, rec, Excluding(canon, es, id)) == Excluding(canon, OwnOf(canon, rec, es), id)
  {
    ViewExcluding(canon, rec, es, id);
    DedupedExcluding(canon, UserView(Plain(canon), rec, es), id);
  }

  /** An edit of one field leaves the other and the record alone. */
  lemma EditElsewhere(canon: Canon, a: Annotations, edited: Key, text: string, f: Key)
    requires IsField(edited) && f != edited
    ensures Own(canon, a[edited := text], f) == Own(canon, a, f)
  {
    var t := a[edited := text];
    assert Get(t, f) == Get(a, f) && Lookup(t, ManagedIPs) == Lookup(a, ManagedIPs);
  }

  lemma PutFollows(canon: Canon, net: Netip, a: Annotations, into: Key, at: nat, e: string)
    requires LBPossible(canon, a, Put(into, at, e))
    ensures FollowsShadow(canon, net, a, Put(into, at, e)) <==> LBFair(canon, net, a, Put(into, at, e))
  {
    PutStepMatches(canon, net, a, into, at, e);
    EditElsewhere(canon, a, into, Join(Inserted(Entries(Get(a, into)), at, e)), OtherField(into));
    FollowsByField(canon, net, a, Put(into, at, e), into);
  }

  lemma DropFollows(canon: Canon, net: Netip, a: Annotations, from: Key, id: string)
    requires IsField(from)
    ensures FollowsShadow(canon, net, a, Drop(from, id))
  {
    DropStepMatches(canon, net, a, from, id);
    EditElsewhere(canon, a, from, Join(Excluding(canon, Entries(Get(a, from)), id)), OtherField(from));
    FollowsByField(canon, net, a, Drop(from, id), from);
  }

  lemma ReleaseFollows(canon: Canon, net: Netip, a: Annotations)
    ensures FollowsShadow(canon, net, a, HandBack)
  {
    forall f | IsField(f)
      ensures Own(canon, ReleasedService(canon, a), f) == Own(canon, a, f)
    {
      ReleaseRestoresFields(canon, a, f);
      UserViewExtremes(Plain(canon), Absent, View(canon, a, f));
    }
  }

  /** A step leaves each field's user entries as the user's own edits do, in order and up to repeats, precisely when it
      is fair. */
  lemma LBStepMatchesShadow(canon: Canon, net: Netip, a: Annotations, step: LBStep)
    requires Coherent(canon, net) && LBPossible(canon, a, step)
    ensures FollowsShadow(canon, net, a, step) <==> LBFair(canon, net, a, step)
  {
    match step {
      case LBPass(_, _, _) => PassMatches(canon, net, a, step);
      case HandBack => ReleaseFollows(canon, net, a);
      case Failed =>
      case Put(into, at, e) => PutFollows(canon, net, a, into, at, e);
      case Drop(from, id) => DropFollows(canon, net, a, from, id);
    }
  }

  // ---------------------------------------------------------------- whole runs

  function LBRun(canon: Canon, net: Netip, a: Annotations, steps: seq<LBStep>): Annotations {
    if steps == [] then a else LBNext(canon, net, LBRun(canon, net, a, steps[..|steps| - 1]), steps[|steps| - 1])
  }

  function LBShadowRun(canon: Canon, net: Netip, a: Annotations, own: seq<string>, steps: seq<LBStep>, f: Key): seq<string> {
    if steps == [] then own
    else
      var n := |steps| - 1;
      LBShadow(canon, LBRun(canon, net, a, steps[..n]), LBShadowRun(canon, net, a, own, steps[..n], f), steps[n], f)
  }

  ghost predicate LBFairRun(canon: Canon, net: Netip, a: Annotations, steps: seq<LBStep>) {
    steps != [] ==>
      var n := |steps| - 1;
      var before := LBRun(canon, net, a, steps[..n]);
      LBFairRun(canon, net, a, steps[..n]) && LBPossible(canon, before, steps[n]) && LBFair(canon, net, before, steps[n])
  }

  /** Across any fair run of passes, provider flips, edits and releases, each provider's annotation keeps exactly the
      user's entries, in order and up to repeats. */
  lemma {:induction false} FlipsKeepUserEntries(canon: Canon, net: Netip, a: Annotations, steps: seq<LBStep>, f: Key)
    requires Coherent(canon, net) && IsField(f) && LBFairRun(canon, net, a, steps)
    ensures Own(canon, LBRun(canon, net, a, steps), f) == LBShadowRun(canon, net, a, Own(canon, a, f), steps, f)
  {
    if steps != [] {
      var n := |steps| - 1;
      FlipsKeepUserEntries(canon, net, a, steps[..n], f);
      LBStepMatchesShadow(canon, net, LBRun(canon, net, a, steps[..n]), steps[n]);
      assert FollowsAt(canon, net, LBRun(canon, net, a, steps[..n]), steps[n], f);
    }
  }
}
