/** Prefix rotation: which prefixes are kept in history, step by step, and the window they amount to. */
module Rotation {
  import opened Addresses

  datatype PrefixState = Active | Draining | Expired

  datatype HistoryEntry = HistoryEntry(prefix: ValidPrefix, acquiredAt: int, deprecatedAt: int, state: PrefixState)

  const DEFAULT_MAX_HISTORY: nat := 2

  /** The configured window size, or the default when none is configured. */
  function HistoryLimit(configured: Option<int>): (k: nat)
    ensures configured.Some? && configured.value > 0 ==> k == configured.value
    ensures configured.None? || configured.value <= 0 ==> k == 2
    ensures k > 0
  {
    if configured.Some? && configured.value > 0 then configured.value else DEFAULT_MAX_HISTORY
  }

  // ---------------------------------------------------------------- one step

  function PrefixesOf(history: seq<HistoryEntry>): seq<ValidPrefix> {
    seq(|history|, i requires 0 <= i < |history| => history[i].prefix)
  }

  lemma PrefixesOfAppend(h: seq<HistoryEntry>, e: HistoryEntry)
    ensures PrefixesOf(h + [e]) == PrefixesOf(h) + [e.prefix]
  {
  }

  lemma PrefixesOfSplit(h: seq<HistoryEntry>, n: nat)
    requires n <= |h|
    ensures PrefixesOf(h[..n]) == PrefixesOf(h)[..n] && PrefixesOf(h[n..]) == PrefixesOf(h)[n..]
    ensures PrefixesOf(h[..n]) + PrefixesOf(h[n..]) == PrefixesOf(h)
  {
  }

  /** The sequence without the members of `gone`. */
  function Without(ps: seq<ValidPrefix>, gone: set<ValidPrefix>): seq<ValidPrefix> {
    if ps == [] then []
    else
      var rest, p := Without(ps[..|ps| - 1], gone), ps[|ps| - 1];
      if p in gone then rest else rest + [p]
  }

  lemma WithoutNext(ps: seq<ValidPrefix>, i: nat, gone: set<ValidPrefix>)
    requires i < |ps|
    ensures Without(ps[..i + 1], gone) == if ps[i] in gone then Without(ps[..i], gone) else Without(ps[..i], gone) + [ps[i]]
  {
    assert ps[..i + 1][..i] == ps[..i];
  }

  function LastOf(ps: seq<ValidPrefix>, k: nat): seq<ValidPrefix> {
    if |ps| <= k then ps else ps[|ps| - k..]
  }

  /** The prefix in use and the prefixes draining, oldest first. */
  datatype Window = Window(current: Option<ValidPrefix>, draining: seq<ValidPrefix>)

  function Accept(w: Window, p: ValidPrefix, k: nat): Window {
    match w.current
    case None => Window(Some(p), w.draining)
    case Some(c) => if c == p then w else Window(Some(p), LastOf(Without(w.draining, {c, p}) + [c], k))
  }

  method OtherEntries(history: seq<HistoryEntry>, p: ValidPrefix, q: ValidPrefix) returns (kept: seq<HistoryEntry>)
    ensures PrefixesOf(kept) == Without(PrefixesOf(history), {p, q})
    ensures forall e :: e in kept ==> e in history
  {
    kept := [];
    for i := 0 to |history|
      invariant PrefixesOf(kept) == Without(PrefixesOf(history)[..i], {p, q})
      invariant forall e :: e in kept ==> e in history
    {
      WithoutNext(PrefixesOf(history), i, {p, q});
      if !(history[i].prefix == p || history[i].prefix == q) {
        PrefixesOfAppend(kept, history[i]);
        kept := kept + [history[i]];
      }
    }
    assert PrefixesOf(history)[..|history|] == PrefixesOf(history);
  }

  /** What is cut off the front, and the newest entries up to the limit. */
  method Trimmed(history: seq<HistoryEntry>, limit: nat) returns (dropped: seq<HistoryEntry>, kept: seq<HistoryEntry>)
    ensures dropped + kept == history
    ensures PrefixesOf(kept) == LastOf(PrefixesOf(history), limit) && PrefixesOf(dropped) + PrefixesOf(kept) == PrefixesOf(history)
    ensures limit > 0 && history != [] ==> kept != [] && kept[|kept| - 1] == history[|history| - 1]
  {
    if |history| <= limit {
      return [], history;
    }
    var n := |history| - limit;
    PrefixesOfSplit(history, n);
    return history[..n], history[n..];
  }

  /** The rotation part of a DynamicPrefix's status. */
  class DynamicPrefix {
    var currentPrefix: Option<ValidPrefix>
    var history: seq<HistoryEntry>
    /** The limit spec asks for; it may be edited between steps. */
    var maxHistory: nat

    constructor (configured: Option<int>)
      ensures currentPrefix == None && history == [] && maxHistory == HistoryLimit(configured)
    {
      currentPrefix, history, maxHistory := None, [], HistoryLimit(configured);
    }

    /** The spec is edited. */
    method Configure(configured: Option<int>)
      modifies this`maxHistory
      ensures maxHistory == HistoryLimit(configured)
    {
      maxHistory := HistoryLimit(configured);
    }

    ghost function Now(): Window
      reads this
    {
      Window(currentPrefix, PrefixesOf(history))
    }

    /** Files the outgoing prefix: earlier entries for it or for the incoming one go, it is appended as draining,
        and the oldest entries beyond the limit are dropped. Returns the dropped ones. */
    method HandlePrefixChange(newPrefix: ValidPrefix, acquiredAt: int, now: int) returns (completed: seq<HistoryEntry>)
      modifies this`history
      ensures currentPrefix.None? ==> history == old(history) && completed == []
      ensures currentPrefix.Some? ==>
                PrefixesOf(history) == LastOf(Without(old(PrefixesOf(history)), {currentPrefix.value, newPrefix}) + [currentPrefix.value], maxHistory)
      ensures currentPrefix.Some? && maxHistory > 0 ==>
                history != [] && history[|history| - 1] == HistoryEntry(currentPrefix.value, acquiredAt, now, Draining)
      ensures currentPrefix.Some? ==>
                PrefixesOf(completed) + PrefixesOf(history) == Without(old(PrefixesOf(history)), {currentPrefix.value, newPrefix}) + [currentPrefix.value]
      ensures currentPrefix.Some? ==>
                forall e :: e in completed + history ==> e in old(history) || e == HistoryEntry(currentPrefix.value, acquiredAt, now, Draining)
    {
      completed := [];
      if currentPrefix.Some? {
        var oldEntry := HistoryEntry(currentPrefix.value, acquiredAt, now, Draining);
        var kept := OtherEntries(history, oldEntry.prefix, newPrefix);
        PrefixesOfAppend(kept, oldEntry);
        var filed := kept + [oldEntry];
        assert forall e :: e in filed <==> e in kept || e == oldEntry;
        completed, history := Trimmed(filed, maxHistory);
      }
    }

    /** The rotation step of a reconcile: without a prefix, or with one the policy rejects, status keeps what it has. */
    method Reconcile(received: Option<ValidPrefix>, accepted: bool, acquiredAt: int, now: int)
      modifies this
      ensures maxHistory == old(maxHistory)
      ensures Now() == if received.Some? && accepted then Accept(old(Now()), received.value, maxHistory) else old(Now())
    {
      if received.None? {
        return;
      }
      if !accepted {
        return;
      }
      if currentPrefix != received {
        var _ := HandlePrefixChange(received.value, acquiredAt, now);
      }
      currentPrefix := received;
    }
  }

  // ---------------------------------------------------------------- whole runs

  /** The window after accepting a trace of prefixes, starting with none. */
  function Track(trace: seq<ValidPrefix>, k: nat): Window {
    if trace == [] then Window(None, []) else Accept(Track(trace[..|trace| - 1], k), trace[|trace| - 1], k)
  }

  /** The prefixes a trace displaced, in order: each one that was current when a different one was accepted. */
  function Displaced(trace: seq<ValidPrefix>): seq<ValidPrefix> {
    if |trace| <= 1 then []
    else
      var n := |trace| - 1;
      if trace[n] == trace[n - 1] then Displaced(trace[..n]) else Displaced(trace[..n]) + [trace[n - 1]]
  }

  /** The `k` most recent distinct members outside `skip`, oldest first. */
  function Recent(ps: seq<ValidPrefix>, skip: set<ValidPrefix>, k: nat): seq<ValidPrefix> {
    if ps == [] || k == 0 then []
    else
      var init, p := ps[..|ps| - 1], ps[|ps| - 1];
      if p in skip then Recent(init, skip, k) else Recent(init, skip + {p}, k - 1) + [p]
  }

  lemma {:induction false} RecentMembers(ps: seq<ValidPrefix>, skip: set<ValidPrefix>, k: nat)
    ensures |Recent(ps, skip, k)| <= k
    ensures forall p :: p in Recent(ps, skip, k) ==> p in ps && p !in skip
    ensures forall i, j :: 0 <= i < j < |Recent(ps, skip, k)| ==> Recent(ps, skip, k)[i] != Recent(ps, skip, k)[j]
    decreases |ps|
  {
    if ps != [] && k > 0 {
      var init, p := ps[..|ps| - 1], ps[|ps| - 1];
      RecentMembers(init, skip, k);
      RecentMembers(init, skip + {p}, k - 1);
    }
  }

  lemma LastOfAppend(ps: seq<ValidPrefix>, p: ValidPrefix, k: nat)
    requires k > 0
    ensures LastOf(ps + [p], k) == LastOf(ps, k - 1) + [p]
  {
  }

  /** A smaller window is the newer end of a larger one. */
  lemma {:induction false} SmallerWindow(ps: seq<ValidPrefix>, skip: set<ValidPrefix>, j: nat, k: nat)
    requires j <= k
    ensures Recent(ps, skip, j) == LastOf(Recent(ps, skip, k), j)
    decreases |ps|
  {
    if ps != [] && j > 0 {
      var init, p := ps[..|ps| - 1], ps[|ps| - 1];
      if p in skip {
        SmallerWindow(init, skip, j, k);
      } else {
        SmallerWindow(init, skip + {p}, j - 1, k - 1);
        LastOfAppend(Recent(init, skip + {p}, k - 1), p, j);
      }
    }
  }

  lemma {:induction false} WithoutAbsent(ps: seq<ValidPrefix>, gone: set<ValidPrefix>)
    requires forall p :: p in ps ==> p !in gone
    ensures Without(ps, gone) == ps
  {
    if ps != [] {
      WithoutAbsent(ps[..|ps| - 1], gone);
    }
  }

  lemma WithoutAppend(ps: seq<ValidPrefix>, p: ValidPrefix, gone: set<ValidPrefix>)
    ensures Without(ps + [p], gone) == if p in gone then Without(ps, gone) else Without(ps, gone) + [p]
  {
    assert (ps + [p])[..|ps|] == ps;
  }

  lemma {:induction false} WithoutIrrelevant(ps: seq<ValidPrefix>, c: ValidPrefix, q: ValidPrefix)
    requires c !in ps
    ensures Without(ps, {c, q}) == Without(ps, {q})
  {
    if ps != [] {
      WithoutIrrelevant(ps[..|ps| - 1], c, q);
    }
  }

  lemma RecentLast(ps: seq<ValidPrefix>, skip: set<ValidPrefix>, k: nat)
    requires ps != []
    ensures var init, p := ps[..|ps| - 1], ps[|ps| - 1];
            Recent(ps, skip, k) == (if k == 0 then [] else if p in skip then Recent(init, skip, k) else Recent(init, skip + {p}, k - 1) + [p])
  {
  }

  /** Taking a prefix that is in the window out of it makes room for nothing. */
  lemma {:induction false} SkipPresent(ps: seq<ValidPrefix>, skip: set<ValidPrefix>, q: ValidPrefix, k: nat)
    requires q in Recent(ps, skip, k)
    ensures k > 0 && Without(Recent(ps, skip, k), {q}) == Recent(ps, skip + {q}, k - 1)
    decreases |ps|
  {
    var init, p := ps[..|ps| - 1], ps[|ps| - 1];
    RecentLast(ps, skip, k);
    RecentLast(ps, skip + {q}, k - 1);
    if p in skip {
      SkipPresent(init, skip, q, k);
    } else if p == q {
      LastSkipped(init, skip + {q}, q, k - 1);
    } else {
      assert q in Recent(init, skip + {p}, k - 1);
      SkipPresent(init, skip + {p}, q, k - 1);
      WithoutAppend(Recent(init, skip + {p}, k - 1), p, {q});
      assert skip + {p} + {q} == skip + {q} + {p};
    }
  }

  /** The newest of a window, taken out, leaves the window before it. */
  lemma LastSkipped(init: seq<ValidPrefix>, skip: set<ValidPrefix>, q: ValidPrefix, k: nat)
    requires q in skip
    ensures Without(Recent(init, skip, k) + [q], {q}) == Recent(init, skip, k)
  {
    RecentMembers(init, skip, k);
    WithoutAbsent(Recent(init, skip, k), {q});
    WithoutAppend(Recent(init, skip, k), q, {q});
  }

  lemma {:induction false} SkipAbsent(ps: seq<ValidPrefix>, skip: set<ValidPrefix>, q: ValidPrefix, k: nat)
    requires q !in Recent(ps, skip, k)
    ensures Recent(ps, skip, k) == Recent(ps, skip + {q}, k)
    decreases |ps|
  {
    if ps != [] && k > 0 {
      var init, p := ps[..|ps| - 1], ps[|ps| - 1];
      if p in skip {
        SkipAbsent(init, skip, q, k);
      } else {
        assert p == (Recent(init, skip + {p}, k - 1) + [p])[|Recent(init, skip + {p}, k - 1)|];
        SkipAbsent(init, skip + {p}, q, k - 1);
        assert skip + {p} + {q} == skip + {q} + {p};
      }
    }
  }

  /** Filing one displaced prefix into the window is displacing it from the trace. */
  lemma FileDisplaced(ps: seq<ValidPrefix>, c: ValidPrefix, p: ValidPrefix, k: nat)
    requires k > 0 && p != c
    ensures LastOf(Without(Recent(ps, {c}, k), {c, p}) + [c], k) == Recent(ps + [c], {p}, k)
  {
    var w := Recent(ps, {c}, k);
    var rest := Without(w, {c, p});
    RecentMembers(ps, {c}, k);
    WithoutIrrelevant(w, c, p);
    if p in w {
      SkipPresent(ps, {c}, p, k);
    } else {
      SkipAbsent(ps, {c}, p, k);
      WithoutAbsent(w, {p});
    }
    SmallerWindow(ps, {c} + {p}, k - 1, k);
    RecentMembers(ps, {c} + {p}, k - 1);
    LastOfAppend(rest, c, k);
    assert LastOf(rest, k - 1) == Recent(ps, {c} + {p}, k - 1);
    assert (ps + [c])[..|ps|] == ps && {c} + {p} == {p} + {c};
  }

  /** Status refines a least-recently-used window: after any trace it holds the last accepted prefix, and its
      history is exactly the k most recently displaced distinct prefixes other than that one, oldest first. */
  lemma {:induction false} HistoryIsRecentWindow(trace: seq<ValidPrefix>, k: nat)
    requires k > 0
    ensures trace == [] ==> Track(trace, k) == Window(None, [])
    ensures trace != [] ==>
              var current := trace[|trace| - 1];
              Track(trace, k) == Window(Some(current), Recent(Displaced(trace), {current}, k))
  {
    if |trace| > 1 {
      var n := |trace| - 1;
      HistoryIsRecentWindow(trace[..n], k);
      if trace[n] != trace[n - 1] {
        FileDisplaced(Displaced(trace[..n]), trace[n - 1], trace[n], k);
      }
    } else if |trace| == 1 {
      assert trace[..0] == [];
    }
  }

  lemma {:induction false} DisplacedFromTrace(trace: seq<ValidPrefix>)
    ensures forall p :: p in Displaced(trace) ==> p in trace
  {
    if |trace| > 1 {
      DisplacedFromTrace(trace[..|trace| - 1]);
    }
  }

  /** So history repeats no prefix, never holds the current one, never grows past the limit, and only ever
      holds prefixes that were accepted. */
  lemma WindowInvariant(trace: seq<ValidPrefix>, k: nat)
    requires k > 0
    ensures var w := Track(trace, k);
            && (w.current.None? ==> w.draining == [])
            && |w.draining| <= k
            && (forall p :: p in w.draining ==> Some(p) != w.current && p in trace)
            && (w.current.Some? ==> w.current.value in trace)
            && (forall i, j :: 0 <= i < j < |w.draining| ==> w.draining[i] != w.draining[j])
  {
    HistoryIsRecentWindow(trace, k);
    DisplacedFromTrace(trace);
    if trace != [] {
      RecentMembers(Displaced(trace), {trace[|trace| - 1]}, k);
    }
  }

  // ---------------------------------------------------------------- an edited limit

  lemma LastOfLast(ps: seq<ValidPrefix>, j: nat, k: nat)
    requires j <= k
    ensures LastOf(LastOf(ps, k), j) == LastOf(ps, j)
  {
  }

  /** One rotation after the limit is lowered, status is what it would be had the lower limit always been in force. */
  lemma RotationTrims(trace: seq<ValidPrefix>, p: ValidPrefix, k: nat, lowered: nat)
    requires trace != [] && p != trace[|trace| - 1] && 0 < lowered <= k
    ensures Accept(Track(trace, k), p, lowered) == Track(trace + [p], lowered)
  {
    var c, longer := trace[|trace| - 1], trace + [p];
    assert longer[..|trace|] == trace && longer[|trace|] == p && longer[|trace| - 1] == c;
    HistoryIsRecentWindow(trace, k);
    HistoryIsRecentWindow(longer, lowered);
    FileDisplaced(Displaced(trace), c, p, k);
    SmallerWindow(Displaced(longer), {p}, lowered, k);
    LastOfLast(Without(Recent(Displaced(trace), {c}, k), {c, p}) + [c], lowered, k);
  }
}
