/** Router Advertisement receivers shared between subscriptions: entries on a heap, counted by their subscribers. */
module SharedReceiver {

  class Receiver {
    var running: bool

    constructor ()
      ensures !running
    {
      running := false;
    }

    /** Opening the socket may fail. */
    method Start(opens: bool) returns (ok: bool)
      modifies this
      ensures ok == opens && running == (opens || old(running))
    {
      if opens {
        running := true;
      }
      return opens;
    }

    method Stop()
      modifies this
      ensures !running
    {
      running := false;
    }
  }

  class Entry {
    const key: string
    const receiver: Receiver
    var subscribers: set<Subscription>
    var started: bool

    constructor (key: string)
      ensures this.key == key && subscribers == {} && !started
      ensures fresh(receiver) && !receiver.running
    {
      this.key, subscribers, started := key, {}, false;
      receiver := new Receiver();
    }

    /** The first subscriber starts the receiver; a failing start adds nobody. */
    method AddSubscriber(sub: Subscription, opens: bool) returns (ok: bool)
      modifies this, receiver
      ensures ok <==> sub in old(subscribers) || old(started) || opens
      ensures subscribers == if ok then old(subscribers) + {sub} else old(subscribers)
      ensures started <==> old(started) || (sub !in old(subscribers) && opens)
      ensures receiver.running <==> old(receiver.running) || (sub !in old(subscribers) && !old(started) && opens)
    {
      if sub in subscribers {
        return true;
      }
      if !started {
        var listening := receiver.Start(opens);
        if !listening {
          return false;
        }
        started := true;
      }
      subscribers := subscribers + {sub};
      return true;
    }

    method RemoveSubscriber(sub: Subscription) returns (shouldStop: bool)
      modifies this`subscribers
      ensures subscribers == old(subscribers) - {sub}
      ensures shouldStop <==> subscribers == {} && started
    {
      subscribers := subscribers - {sub};
      return |subscribers| == 0 && started;
    }

    method Stop()
      modifies this`started, receiver
      ensures !started
      ensures receiver.running <==> old(receiver.running) && !old(started)
    {
      if !started {
        return;
      }
      started := false;
      receiver.Stop();
    }
  }

  class Subscription {
    const pool: Pool
    const entry: Entry
    const key: string
    var started: bool

    constructor (pool: Pool, entry: Entry, key: string)
      ensures this.pool == pool && this.entry == entry && this.key == key && !started
    {
      this.pool, this.entry, this.key, started := pool, entry, key, false;
    }

    /** Starting is idempotent, and succeeds when the receiver runs already or can be listening. */
    method Start(opens: bool) returns (ok: bool)
      requires pool.Valid() && this in pool.subs
      modifies this, entry, entry.receiver
      ensures pool.Valid()
      ensures ok <==> old(started) || old(entry.receiver.running) || opens
      ensures started <==> ok
      ensures entry.subscribers == if ok then old(entry.subscribers) + {this} else old(entry.subscribers)
      ensures entry.receiver.running <==> ok || old(entry.receiver.running)
      ensures old(pool.RunningIsCurrent()) ==>
                (pool.RunningIsCurrent() <==> !ok || pool.IsCurrent(entry))
    {
      if started {
        return true;
      }
      started := true;
      ok := entry.AddSubscriber(this, opens);
      if !ok {
        started := false;
      }
    }

    /** Stopping is idempotent. The last one out stops the receiver and gives up the map slot, if it is its own. */
    method Stop()
      requires pool.Valid() && this in pool.subs
      modifies this, entry, entry.receiver, pool`entries
      ensures pool.Valid() && !started
      ensures entry.subscribers == old(entry.subscribers) - {this}
      ensures entry.receiver.running <==> old(entry.receiver.running) && old(entry.subscribers) != {this}
      ensures pool.entries == if old(entry.subscribers) == {this} && old(pool.IsCurrent(entry)) then old(pool.entries) - {key} else old(pool.entries)
      ensures forall k :: k in old(pool.entries) && k !in pool.entries ==> old(pool.entries[k]) == entry
      ensures old(pool.RunningIsCurrent()) ==> pool.RunningIsCurrent()
    {
      if !started {
        return;
      }
      started := false;
      pool.Unsubscribe(key, entry, this);
    }
  }

  class Pool {
    var entries: map<string, Entry>
    /** Every entry and subscription ever made here. */
    ghost var all: set<Entry>
    ghost var subs: set<Subscription>

    constructor ()
      ensures Valid() && entries == map[] && all == {} && subs == {}
    {
      entries, all, subs := map[], {}, {};
    }

    /** An entry runs its receiver iff it has subscribers, a subscription is started iff its entry lists it, an entry
        lists only its own subscriptions, and the map holds entries under their keys. */
    ghost predicate Valid()
      reads this, all, subs, set e | e in all :: e.receiver
    {
      && (forall e :: e in all ==> EntryOk(e))
      && (forall s :: s in subs ==> s.entry in all && SubscriptionOk(s))
      && (forall d, e :: d in all && e in all && d != e ==> d.receiver != e.receiver)
      && (forall k :: k in entries ==> entries[k] in all && entries[k].key == k)
    }

    ghost predicate EntryOk(e: Entry)
      requires e in all
      reads this, e, e.receiver
    {
      && (e.started <==> e.subscribers != {}) && (e.receiver.running <==> e.started)
      && (forall s :: s in e.subscribers ==> s in subs && s.entry == e)
    }

    ghost predicate SubscriptionOk(s: Subscription)
      requires s in subs && s.entry in all
      reads this, s, s.entry
    {
      s.pool == this && s.key == s.entry.key && (s.started <==> s in s.entry.subscribers)
    }

    predicate IsCurrent(e: Entry)
      reads this
    {
      e.key in entries && entries[e.key] == e
    }

    /** Only entries the map points at run a receiver; so at most one runs per key. */
    ghost predicate RunningIsCurrent()
      reads this, all, set e | e in all :: e.receiver
    {
      forall e :: e in all && e.receiver.running ==> IsCurrent(e)
    }

    /** A new subscription to the key's entry, made if there is none. Nothing starts yet. */
    method Subscribe(key: string) returns (s: Subscription)
      requires Valid()
      modifies this
      ensures Valid() && fresh(s) && s in subs && !s.started && s.key == key && IsCurrent(s.entry)
      ensures subs == old(subs) + {s}
      ensures key in old(entries) ==> s.entry == old(entries[key]) && entries == old(entries) && all == old(all)
      ensures key !in old(entries) ==> fresh(s.entry) && fresh(s.entry.receiver) && entries == old(entries)[key := s.entry] && all == old(all) + {s.entry}
      ensures old(RunningIsCurrent()) ==> RunningIsCurrent()
    {
      var entry := EntryFor(key);
      s := new Subscription(this, entry, key);
      subs := subs + {s};
      assert forall e :: e in all ==> EntryOk(e);
    }

    method EntryFor(key: string) returns (entry: Entry)
      requires Valid()
      modifies this`entries, this`all
      ensures Valid() && entry.key == key && IsCurrent(entry)
      ensures key in old(entries) ==> entry == old(entries[key]) && entries == old(entries) && all == old(all)
      ensures key !in old(entries) ==> fresh(entry) && fresh(entry.receiver) && entries == old(entries)[key := entry] && all == old(all) + {entry}
      ensures old(RunningIsCurrent()) ==> RunningIsCurrent()
    {
      if key in entries {
        return entries[key];
      }
      entry := new Entry(key);
      entries := entries[key := entry];
      all := all + {entry};
      assert forall e :: e in old(all) ==> EntryOk(e);
      assert forall s :: s in subs ==> SubscriptionOk(s);
    }

    method Unsubscribe(key: string, entry: Entry, sub: Subscription)
      requires sub in subs && entry in all && entry.key == key && sub.entry == entry && sub.key == key && sub.pool == this && sub in entry.subscribers && !sub.started
      requires forall e :: e in all ==> EntryOk(e)
      requires forall s :: s in subs ==> s.entry in all && (s != sub ==> SubscriptionOk(s))
      requires forall d, e :: d in all && e in all && d != e ==> d.receiver != e.receiver
      requires forall k :: k in entries ==> entries[k] in all && entries[k].key == k
      modifies entry, entry.receiver, this`entries
      ensures Valid()
      ensures entry.subscribers == old(entry.subscribers) - {sub}
      ensures entry.receiver.running <==> old(entry.receiver.running) && old(entry.subscribers) != {sub}
      ensures entries == if old(entry.subscribers) == {sub} && old(IsCurrent(entry)) then old(entries) - {key} else old(entries)
    {
      var current := key in entries && entries[key] == entry;
      var shouldStop := entry.RemoveSubscriber(sub);
      if shouldStop && current {
        entries := entries - {key};
      }
      if shouldStop {
        entry.Stop();
      }
    }

    /** Once every subscription is stopped, no receiver runs. */
    lemma AllStoppedNoneRuns()
      requires Valid() && forall s :: s in subs ==> !s.started
      ensures forall e :: e in all ==> !e.receiver.running
    {
      forall e | e in all
        ensures e.subscribers == {}
      {
        assert EntryOk(e);
        assert forall s :: s in subs ==> SubscriptionOk(s) && s !in s.entry.subscribers;
      }
    }
  }

  // ---------------------------------------------------------------- whole runs

  datatype Op = Subscribe(key: string) | Start(which: nat, opens: bool) | Stop(which: nat)

  /** A subscription as far as sharing is concerned: its entry, by number, and whether it is started. */
  datatype Sub = Sub(entry: nat, started: bool)

  /** The pool without the heap: the subscriptions and the keys of the entries in the order they were made, and which
      entry each key's map slot holds. */
  datatype Model = Model(subs: seq<Sub>, keys: seq<string>, slots: map<string, nat>)

  const EMPTY: Model := Model([], [], map[])

  predicate ModelOk(m: Model) {
    && (forall i :: 0 <= i < |m.subs| ==> m.subs[i].entry < |m.keys|)
    && (forall k :: k in m.slots ==> m.slots[k] < |m.keys| && m.keys[m.slots[k]] == k)
  }

  /** An entry runs while one of its subscriptions is started. */
  predicate Runs(m: Model, e: nat) {
    exists i :: 0 <= i < |m.subs| && m.subs[i].entry == e && m.subs[i].started
  }

  /** The map points at the entry. */
  predicate HasSlot(m: Model, e: nat)
    requires e < |m.keys|
  {
    m.keys[e] in m.slots && m.slots[m.keys[e]] == e
  }

  function Subscribed(m: Model, key: string): (r: Model)
    requires ModelOk(m)
    ensures ModelOk(r)
  {
    if key in m.slots then m.(subs := m.subs + [Sub(m.slots[key], false)])
    else Model(m.subs + [Sub(|m.keys|, false)], m.keys + [key], m.slots[key := |m.keys|])
  }

  predicate StartSucceeds(m: Model, i: nat, opens: bool)
    requires i < |m.subs|
  {
    m.subs[i].started || Runs(m, m.subs[i].entry) || opens
  }

  function Marked(m: Model, i: nat, started: bool): (r: Model)
    requires ModelOk(m) && i < |m.subs|
    ensures ModelOk(r)
  {
    m.(subs := m.subs[i := m.subs[i].(started := started)])
  }

  function Stopped(m: Model, i: nat): (r: Model)
    requires ModelOk(m) && i < |m.subs|
    ensures ModelOk(r)
  {
    var e, after := m.subs[i].entry, Marked(m, i, false);
    if m.subs[i].started && !Runs(after, e) && HasSlot(m, e) then after.(slots := m.slots - {m.keys[e]}) else after
  }

  /** What an operation makes of the model, and whether it succeeds. */
  function After(m: Model, op: Op): (r: (Model, bool))
    requires ModelOk(m)
    ensures ModelOk(r.0)
  {
    match op
    case Subscribe(key) => (Subscribed(m, key), true)
    case Start(i, opens) =>
      if i >= |m.subs| then (m, false)
      else if StartSucceeds(m, i, opens) then (Marked(m, i, true), true) else (m, false)
    case Stop(i) => if i >= |m.subs| then (m, false) else (Stopped(m, i), true)
  }

  function ModelRun(ops: seq<Op>): (m: Model)
    ensures ModelOk(m)
  {
    if ops == [] then EMPTY else After(ModelRun(ops[..|ops| - 1]), ops[|ops| - 1]).0
  }

  function Outcomes(ops: seq<Op>): seq<bool> {
    if ops == [] then [] else Outcomes(ops[..|ops| - 1]) + [After(ModelRun(ops[..|ops| - 1]), ops[|ops| - 1]).1]
  }

  /** The keys asked for, one per subscription, in order. */
  function KeysAsked(ops: seq<Op>): seq<string> {
    if ops == [] then []
    else
      var rest, last := KeysAsked(ops[..|ops| - 1]), ops[|ops| - 1];
      if last.Subscribe? then rest + [last.key] else rest
  }

  /** The subscriptions of a model are for the keys asked for. */
  predicate Answers(m: Model, asked: seq<string>)
    requires ModelOk(m)
  {
    |m.subs| == |asked| && forall i :: 0 <= i < |asked| ==> m.keys[m.subs[i].entry] == asked[i]
  }

  lemma AnswersNext(m: Model, asked: seq<string>, op: Op)
    requires ModelOk(m) && Answers(m, asked)
    ensures Answers(After(m, op).0, if op.Subscribe? then asked + [op.key] else asked)
  {
  }

  /** One subscription per request, for the key requested, and one outcome per operation. */
  lemma {:induction false} OneSubscriptionPerAsk(ops: seq<Op>)
    ensures Answers(ModelRun(ops), KeysAsked(ops)) && |Outcomes(ops)| == |ops|
  {
    if ops != [] {
      var n := |ops| - 1;
      OneSubscriptionPerAsk(ops[..n]);
      AnswersNext(ModelRun(ops[..n]), KeysAsked(ops[..n]), ops[n]);
    }
  }

  /** Which objects stand for the model's numbers: all of the pool's, each once, under the model's keys. */
  ghost predicate Table(subs: set<Subscription>, all: set<Entry>, made: seq<Subscription>, entries: seq<Entry>, m: Model)
    requires ModelOk(m)
  {
    && |made| == |m.subs| && |entries| == |m.keys|
    && subs == (set s | s in made) && all == (set e | e in entries)
    && (forall i, j :: 0 <= i < j < |made| ==> made[i] != made[j])
    && (forall i, j :: 0 <= i < j < |entries| ==> entries[i] != entries[j])
    && (forall j :: 0 <= j < |entries| ==> entries[j].key == m.keys[j])
    && (forall i :: 0 <= i < |made| ==> made[i].entry == entries[m.subs[i].entry])
  }

  ghost predicate Flags(made: seq<Subscription>, m: Model)
    requires |made| == |m.subs|
    reads made
  {
    forall i :: 0 <= i < |made| ==> made[i].started == m.subs[i].started
  }

  ghost predicate Slots(slots: map<string, Entry>, entries: seq<Entry>, m: Model)
    requires ModelOk(m) && |entries| == |m.keys|
  {
    slots.Keys == m.slots.Keys && forall k :: k in m.slots ==> slots[k] == entries[m.slots[k]]
  }

  /** The heap is an instance of the model. */
  ghost predicate Represents(pool: Pool, made: seq<Subscription>, entries: seq<Entry>, m: Model)
    requires ModelOk(m)
    reads pool, pool.all, pool.subs, made, set e | e in pool.all :: e.receiver
  {
    pool.Valid() && Table(pool.subs, pool.all, made, entries, m) && Flags(made, m) && Slots(pool.entries, entries, m)
  }

  /** In the heap an entry has subscribers, and runs its receiver, exactly when it runs in the model. */
  lemma RepresentedRuns(pool: Pool, made: seq<Subscription>, entries: seq<Entry>, m: Model, e: nat)
    requires ModelOk(m) && Represents(pool, made, entries, m) && e < |entries|
    ensures entries[e] in pool.all && (entries[e].receiver.running <==> Runs(m, e))
    ensures pool.IsCurrent(entries[e]) <==> HasSlot(m, e)
  {
    var entry := entries[e];
    assert pool.EntryOk(entry);
    if entry.subscribers != {} {
      var s :| s in entry.subscribers;
      var i :| 0 <= i < |made| && made[i] == s;
      assert pool.SubscriptionOk(s);
      assert m.subs[i].entry == e;
    }
    if i :| 0 <= i < |m.subs| && m.subs[i].entry == e && m.subs[i].started {
      assert pool.SubscriptionOk(made[i]);
    }
  }

  /** The entries once a subscription for the key is made. */
  ghost function Extended(entries: seq<Entry>, m: Model, key: string, entry: Entry): seq<Entry> {
    if key in m.slots then entries else entries + [entry]
  }

  lemma TableGrows(subs: set<Subscription>, all: set<Entry>, made: seq<Subscription>, entries: seq<Entry>, m: Model, key: string, s: Subscription)
    requires ModelOk(m) && Table(subs, all, made, entries, m) && s !in subs
    requires if key in m.slots then s.entry == entries[m.slots[key]] else s.entry !in all && s.entry.key == key
    ensures Table(subs + {s}, if key in m.slots then all else all + {s.entry}, made + [s], Extended(entries, m, key, s.entry), Subscribed(m, key))
  {
    assert subs + {s} == (set x | x in made + [s]);
    assert all + {s.entry} == (set e | e in entries + [s.entry]);
    assert s !in made && (key in m.slots || s.entry !in entries);
  }

  lemma SlotsGrow(slots: map<string, Entry>, entries: seq<Entry>, m: Model, key: string, entry: Entry)
    requires ModelOk(m) && |entries| == |m.keys| && Slots(slots, entries, m)
    ensures Slots(if key in m.slots then slots else slots[key := entry], Extended(entries, m, key, entry), Subscribed(m, key))
  {
  }

  lemma FlagsGrow(made: seq<Subscription>, m: Model, key: string, s: Subscription)
    requires ModelOk(m) && |made| == |m.subs| && Flags(made, m) && !s.started
    ensures Flags(made + [s], Subscribed(m, key))
  {
  }

  method PerformSubscribe(pool: Pool, made: seq<Subscription>, ghost entries: seq<Entry>, ghost m: Model, key: string)
    returns (made': seq<Subscription>, ghost entries': seq<Entry>)
    requires ModelOk(m) && Represents(pool, made, entries, m)
    modifies pool
    ensures Represents(pool, made', entries', Subscribed(m, key))
    ensures forall s :: s in pool.subs ==> s in old(pool.subs) || fresh(s)
    ensures forall e :: e in pool.all ==> e in old(pool.all) || (fresh(e) && fresh(e.receiver))
  {
    ghost var subs, all, slots := pool.subs, pool.all, pool.entries;
    var s := pool.Subscribe(key);
    made', entries' := made + [s], Extended(entries, m, key, s.entry);
    TableGrows(subs, all, made, entries, m, key, s);
    SlotsGrow(slots, entries, m, key, s.entry);
    FlagsGrow(made, m, key, s);
  }

  lemma StartMeans(pool: Pool, made: seq<Subscription>, entries: seq<Entry>, m: Model, i: nat)
    requires ModelOk(m) && Represents(pool, made, entries, m) && i < |made|
    ensures made[i] in pool.subs && made[i].pool == pool
    ensures made[i].started || made[i].entry.receiver.running <==> StartSucceeds(m, i, false)
    ensures Table(pool.subs, pool.all, made, entries, Marked(m, i, true)) && Slots(pool.entries, entries, Marked(m, i, true))
  {
    RepresentedRuns(pool, made, entries, m, m.subs[i].entry);
    assert pool.SubscriptionOk(made[i]);
  }

  lemma FlagsStart(made: seq<Subscription>, m: Model, i: nat)
    requires ModelOk(m) && |made| == |m.subs| && i < |made| && made[i].started
    requires forall j :: 0 <= j < |made| && j != i ==> made[j].started == m.subs[j].started
    ensures Flags(made, Marked(m, i, true))
  {
  }

  method PerformStart(pool: Pool, made: seq<Subscription>, ghost entries: seq<Entry>, ghost m: Model, i: nat, opens: bool) returns (ok: bool)
    requires ModelOk(m) && Represents(pool, made, entries, m) && i < |made|
    modifies made[i], made[i].entry, made[i].entry.receiver
    ensures ok == StartSucceeds(m, i, opens)
    ensures Represents(pool, made, entries, if ok then Marked(m, i, true) else m)
  {
    StartMeans(pool, made, entries, m, i);
    ok := made[i].Start(opens);
    if ok {
      FlagsStart(made, m, i);
    }
  }

  /** A subscription is its entry's only subscriber exactly when stopping it would stop the entry. */
  lemma LastOneOut(pool: Pool, made: seq<Subscription>, entries: seq<Entry>, m: Model, i: nat)
    requires ModelOk(m) && Represents(pool, made, entries, m) && i < |made|
    ensures made[i].entry.subscribers == {made[i]} <==> m.subs[i].started && !Runs(Marked(m, i, false), m.subs[i].entry)
  {
    var entry, e, after := made[i].entry, m.subs[i].entry, Marked(m, i, false);
    assert pool.EntryOk(entry) && pool.SubscriptionOk(made[i]);
    forall s | s in entry.subscribers && s != made[i]
      ensures Runs(after, e)
    {
      var j :| 0 <= j < |made| && made[j] == s;
      assert pool.SubscriptionOk(s);
      assert after.subs[j] == m.subs[j] && m.subs[j].entry == e;
    }
    if j :| 0 <= j < |after.subs| && after.subs[j].entry == e && after.subs[j].started {
      assert pool.SubscriptionOk(made[j]) && made[j] != made[i];
    }
  }

  /** Stopping takes the entry's slot from the map exactly when it does in the model. */
  lemma StopEvicts(pool: Pool, made: seq<Subscription>, entries: seq<Entry>, m: Model, i: nat)
    requires ModelOk(m) && Represents(pool, made, entries, m) && i < |made|
    ensures made[i] in pool.subs && made[i].pool == pool && made[i].key == m.keys[m.subs[i].entry]
    ensures made[i].entry.subscribers == {made[i]} && pool.IsCurrent(made[i].entry) <==> Stopped(m, i).slots != m.slots
  {
    var key := m.keys[m.subs[i].entry];
    RepresentedRuns(pool, made, entries, m, m.subs[i].entry);
    LastOneOut(pool, made, entries, m, i);
    assert pool.SubscriptionOk(made[i]);
    if HasSlot(m, m.subs[i].entry) {
      assert key in m.slots && key !in m.slots - {key};
    }
  }

  lemma SlotsShrink(slots: map<string, Entry>, entries: seq<Entry>, m: Model, i: nat)
    requires ModelOk(m) && |entries| == |m.keys| && Slots(slots, entries, m) && i < |m.subs|
    ensures Slots(if Stopped(m, i).slots == m.slots then slots else slots - {m.keys[m.subs[i].entry]}, entries, Stopped(m, i))
  {
  }

  lemma FlagsStop(made: seq<Subscription>, m: Model, i: nat)
    requires ModelOk(m) && |made| == |m.subs| && i < |made| && !made[i].started
    requires forall j :: 0 <= j < |made| && j != i ==> made[j].started == m.subs[j].started
    ensures Flags(made, Stopped(m, i))
  {
  }

  method PerformStop(pool: Pool, made: seq<Subscription>, ghost entries: seq<Entry>, ghost m: Model, i: nat)
    requires ModelOk(m) && Represents(pool, made, entries, m) && i < |made|
    modifies made[i], made[i].entry, made[i].entry.receiver, pool`entries
    ensures Represents(pool, made, entries, Stopped(m, i))
  {
    StopEvicts(pool, made, entries, m, i);
    ghost var slots := pool.entries;
    made[i].Stop();
    SlotsShrink(slots, entries, m, i);
    FlagsStop(made, m, i);
  }

  /** Any sequence of operations: subscriptions, starts whose receiver opens or not, restarts, and stops. The pool it
      leaves is valid and is what the model says, one subscription per request, and each operation comes out as the
      model says. */
  method AnyRun(ops: seq<Op>) returns (pool: Pool, made: seq<Subscription>, outcomes: seq<bool>, ghost entries: seq<Entry>)
    ensures pool.Valid() && Represents(pool, made, entries, ModelRun(ops))
    ensures outcomes == Outcomes(ops)
    ensures |made| == |KeysAsked(ops)| && forall i :: 0 <= i < |made| ==> made[i].entry.key == KeysAsked(ops)[i]
    ensures fresh(pool) && fresh(pool.subs) && forall e :: e in pool.all ==> fresh(e) && fresh(e.receiver)
  {
    pool := new Pool();
    made, outcomes, entries := [], [], [];
    for i := 0 to |ops|
      invariant fresh(pool) && fresh(pool.subs) && forall e :: e in pool.all ==> fresh(e) && fresh(e.receiver)
      invariant Represents(pool, made, entries, ModelRun(ops[..i])) && outcomes == Outcomes(ops[..i])
    {
      assert ops[..i + 1][..i] == ops[..i];
      ghost var m := ModelRun(ops[..i]);
      var ok: bool;
      made, ok, entries := Perform(pool, made, entries, m, ops[i]);
      outcomes := outcomes + [ok];
    }
    assert ops[..|ops|] == ops;
    OneSubscriptionPerAsk(ops);
  }

  method Perform(pool: Pool, made: seq<Subscription>, ghost entries: seq<Entry>, ghost m: Model, op: Op)
    returns (made': seq<Subscription>, ok: bool, ghost entries': seq<Entry>)
    requires ModelOk(m) && Represents(pool, made, entries, m)
    modifies pool, pool.subs, pool.all, set e | e in pool.all :: e.receiver
    ensures Represents(pool, made', entries', After(m, op).0) && ok == After(m, op).1
    ensures forall s :: s in pool.subs ==> s in old(pool.subs) || fresh(s)
    ensures forall e :: e in pool.all ==> e in old(pool.all) || (fresh(e) && fresh(e.receiver))
  {
    made', ok, entries' := made, false, entries;
    match op {
      case Subscribe(key) =>
        made', entries' := PerformSubscribe(pool, made, entries, m, key);
        ok := true;
      case Start(i, opens) =>
        if i < |made| {
          assert made[i] in pool.subs;
          ok := PerformStart(pool, made, entries, m, i, opens);
        }
      case Stop(i) =>
        if i < |made| {
          assert made[i] in pool.subs;
          PerformStop(pool, made, entries, m, i);
          ok := true;
        }
    }
  }

  /** Stopping everything leaves nothing running, from any valid pool. */
  method StopAll(pool: Pool, made: seq<Subscription>)
    requires pool.Valid() && pool.subs == (set s | s in made)
    modifies pool`entries, pool.subs, pool.all, set e | e in pool.all :: e.receiver
    ensures pool.Valid() && (forall s :: s in pool.subs ==> !s.started)
    ensures forall e :: e in pool.all ==> !e.receiver.running
  {
    for i := 0 to |made|
      invariant pool.Valid() && forall j :: 0 <= j < i ==> !made[j].started
    {
      assert made[i] in pool.subs;
      made[i].Stop();
    }
    pool.AllStoppedNoneRuns();
  }

  // ---------------------------------------------------------------- one receiver per key

  /** Only entries the map points at run. */
  predicate CurrentOnly(m: Model)
    requires ModelOk(m)
  {
    forall i :: 0 <= i < |m.subs| && m.subs[i].started ==> HasSlot(m, m.subs[i].entry)
  }

  /** The operation starts a receiver behind the map's back: a subscription that was not started, on an entry that has
      lost its slot. */
  predicate Rearms(m: Model, op: Op)
    requires ModelOk(m)
  {
    op.Start? && op.which < |m.subs| && op.opens && !m.subs[op.which].started && !HasSlot(m, m.subs[op.which].entry)
  }

  lemma CurrentMeansCurrent(pool: Pool, made: seq<Subscription>, entries: seq<Entry>, m: Model)
    requires ModelOk(m) && Represents(pool, made, entries, m)
    ensures pool.RunningIsCurrent() <==> CurrentOnly(m)
  {
    forall e: nat | e < |entries|
      ensures entries[e] in pool.all && (entries[e].receiver.running <==> Runs(m, e)) && (pool.IsCurrent(entries[e]) <==> HasSlot(m, e))
    {
      RepresentedRuns(pool, made, entries, m, e);
    }
    if pool.RunningIsCurrent() {
      forall i | 0 <= i < |m.subs| && m.subs[i].started
        ensures HasSlot(m, m.subs[i].entry)
      {
        assert Runs(m, m.subs[i].entry);
      }
    }
  }

  /** Such an operation is exactly what lets an entry run that the map does not point at. */
  lemma StepKeepsCurrent(m: Model, op: Op)
    requires ModelOk(m) && CurrentOnly(m)
    ensures CurrentOnly(After(m, op).0) <==> !Rearms(m, op)
  {
    var after := After(m, op).0;
    match op {
      case Subscribe(_) =>
      case Start(i, opens) =>
        if i < |m.subs| {
          if j :| 0 <= j < |m.subs| && m.subs[j].entry == m.subs[i].entry && m.subs[j].started {
            assert HasSlot(m, m.subs[j].entry);
          }
          if Rearms(m, op) {
            assert after.subs[i].started && !HasSlot(after, after.subs[i].entry);
          }
        }
      case Stop(i) =>
        if i < |m.subs| && after.slots != m.slots {
          forall j | 0 <= j < |after.subs| && after.subs[j].started
            ensures HasSlot(after, after.subs[j].entry)
          {
            assert m.subs[j].started && HasSlot(m, m.subs[j].entry);
            assert after.subs[j].entry != m.subs[i].entry;
          }
        }
    }
  }

  /** At every point of the run only entries the map points at run. */
  predicate AlwaysCurrent(ops: seq<Op>) {
    CurrentOnly(ModelRun(ops)) && (ops != [] ==> AlwaysCurrent(ops[..|ops| - 1]))
  }

  predicate NeverRearms(ops: seq<Op>) {
    ops != [] ==> NeverRearms(ops[..|ops| - 1]) && !Rearms(ModelRun(ops[..|ops| - 1]), ops[|ops| - 1])
  }

  /** So over a whole run the map's entries are the only ones ever running exactly when no operation restarts a
      subscription whose entry has lost its slot. */
  lemma {:induction false} CurrentUnlessRearmed(ops: seq<Op>)
    ensures AlwaysCurrent(ops) <==> NeverRearms(ops)
  {
    if ops != [] {
      var init := ops[..|ops| - 1];
      CurrentUnlessRearmed(init);
      if CurrentOnly(ModelRun(init)) {
        StepKeepsCurrent(ModelRun(init), ops[|ops| - 1]);
      }
    }
  }

  /** Then no two receivers run for one key. */
  lemma OneRunningEntryPerKey(m: Model, d: nat, e: nat)
    requires ModelOk(m) && CurrentOnly(m) && d < |m.keys| && e < |m.keys| && Runs(m, d) && Runs(m, e) && m.keys[d] == m.keys[e]
    ensures d == e
  {
  }

  /** A subscription that was started and stopped: its entry has left the map. */
  method Evicted(key: string) returns (pool: Pool, first: Subscription)
    ensures fresh(pool) && fresh(pool.subs) && (forall e :: e in pool.all ==> fresh(e) && fresh(e.receiver))
    ensures pool.Valid() && pool.entries == map[] && first in pool.subs && first.key == key && !first.started
    ensures pool.all == {first.entry} && pool.subs == {first}
  {
    pool := new Pool();
    first := pool.Subscribe(key);
    var started := first.Start(true);
    first.Stop();
  }

  /** A subscription restarted after its entry was evicted and replaced makes two receivers run for one key. */
  method RestartAfterEviction(key: string) returns (pool: Pool, first: Subscription, second: Subscription)
    ensures pool.Valid() && first in pool.subs && second in pool.subs && first.key == second.key == key
    ensures first.entry != second.entry && first.entry.receiver.running && second.entry.receiver.running
    ensures !pool.RunningIsCurrent()
  {
    pool, first := Evicted(key);
    second := pool.Subscribe(key);
    assert second.entry != first.entry;
    var started := second.Start(true);
    started := first.Start(true);
    assert !pool.IsCurrent(first.entry);
  }
}
