/** The DHCPv6 prefix delegation client: one loop that acquires, renews, rebinds and drops a lease, whatever the
    servers answer. Exchanges and the clock are parameters; durations are nanoseconds in 64 bits. */
module PrefixDelegation {
  import opened Powers
  import opened Addresses

  const SECOND: int := 1_000_000_000
  const INITIAL_BACKOFF: int := 10 * SECOND
  const MAX_BACKOFF: int := 300 * SECOND
  const RENEW_RETRY: int := 30 * SECOND
  const MINUTE: int := 60 * SECOND

  type Duration = d: int | -0x8000_0000_0000_0000 <= d < 0x8000_0000_0000_0000

  /** A lifetime or timer on the wire: 32 bits of seconds. */
  type Seconds = s: nat | s < 0x1_0000_0000

  // ---------------------------------------------------------------- pacing

  /** Doubles up to a ceiling without overflowing. */
  function NextBackoff(cur: Duration, ceiling: Duration): (r: Duration)
    requires 0 < cur && 0 < ceiling
    ensures cur <= ceiling ==> cur <= r <= ceiling
  {
    if cur >= ceiling || cur > ceiling / 2 then ceiling else cur * 2
  }

  /** Up to a fifth either way; `roll` is the random draw. */
  function Jittered(d: Duration, roll: nat): int {
    var spread := if d <= 0 then 0 else d / 5;
    if spread == 0 then d else d + roll % (2 * spread + 1) - spread
  }

  lemma JitterStaysPositive(d: Duration, roll: nat)
    requires d > 0
    ensures 0 < d - d / 5 <= Jittered(d, roll) <= d + d / 5
  {
  }

  /** Every delay within a fifth is drawn for some roll. */
  lemma JitterReaches(d: Duration, wait: int)
    requires d > 0 && d - d / 5 <= wait <= d + d / 5
    ensures Jittered(d, wait - (d - d / 5)) == wait
  {
    SmallRemainder(wait - (d - d / 5), 2 * (d / 5) + 1);
  }

  lemma SmallRemainder(a: nat, m: nat)
    requires a < m
    ensures a % m == a
  {
  }

  function AfterFailures(k: nat, min: Duration, max: Duration): (r: Duration)
    requires 0 < min <= max
    ensures min <= r <= max
  {
    if k == 0 then min else NextBackoff(AfterFailures(k - 1, min, max), max)
  }

  function Min(a: int, b: int): int {
    if a <= b then a else b
  }

  /** After k failures in a row the delay is the first one doubled k times, capped, and never overflows. */
  lemma {:induction false} BackoffIsCappedDoubling(k: nat, min: Duration, max: Duration)
    requires 0 < min <= max
    ensures AfterFailures(k, min, max) == Min(max, min * Pow2(k))
  {
    if k > 0 {
      BackoffIsCappedDoubling(k - 1, min, max);
      var before := min * Pow2(k - 1);
      Doubled(min, Pow2(k - 1));
      assert Pow2(k) == 2 * Pow2(k - 1);
    }
  }

  lemma Doubled(m: int, p: int)
    ensures m * (2 * p) == 2 * (m * p)
  {
  }

  /** With the default pace, ten seconds doubling up to five minutes, the ceiling is reached by the fifth failure. */
  lemma DefaultPace(k: nat)
    ensures AfterFailures(k, INITIAL_BACKOFF, MAX_BACKOFF) == MAX_BACKOFF <==> k >= 5
  {
    BackoffIsCappedDoubling(k, INITIAL_BACKOFF, MAX_BACKOFF);
    assert Pow2(4) == 16 && Pow2(5) == 32;
    if k >= 5 {
      Pow2Monotone(5, k);
    } else {
      Pow2Monotone(k, 4);
    }
  }

  // ---------------------------------------------------------------- what servers answer

  datatype Status = NoStatus | Success | NoBinding | Refusal(code: nat)

  /** A mask's size: so many ones out of so many bits; none out of none where the length byte made no mask. */
  datatype MaskSize = MaskSize(ones: nat, bits: nat)
  type Mask = m: MaskSize | m.ones <= m.bits witness MaskSize(0, 0)

  /** A prefix as decoded; the address may be malformed. */
  datatype WirePrefix = WirePrefix(ip: Option<Address>, mask: Mask)

  datatype IAPrefix = IAPrefix(preferred: Seconds, valid: Seconds, prefix: Option<WirePrefix>)

  datatype IAPD = IAPD(iaid: nat, status: Status, t1: Seconds, t2: Seconds, prefixes: seq<IAPrefix>)

  datatype Reply = Reply(status: Status, associations: seq<IAPD>, serverId: Option<nat>)

  type Policy = ValidPrefix -> bool

  datatype Lease = Lease(iaid: nat, prefix: ValidPrefix, t1: Duration, t2: Duration, valid: Duration, preferred: Duration, receivedAt: int, serverId: nat)

  datatype Delegated = Delegated(network: ValidPrefix, valid: Duration, preferred: Duration, receivedAt: int)

  datatype Refused = ServerHasNoBinding | Unusable

  datatype Outcome = Granted(lease: Lease) | Failed(why: Refused)

  predicate Refuses(s: Status) {
    s.NoBinding? || s.Refusal?
  }

  function RefusedBy(s: Status): Refused {
    if s.NoBinding? then ServerHasNoBinding else Unusable
  }

  /** The first association carrying the identifier. */
  function Matching(pds: seq<IAPD>, iaid: nat): Option<IAPD> {
    if pds == [] then None else if pds[0].iaid == iaid then Some(pds[0]) else Matching(pds[1..], iaid)
  }

  /** The first prefix that is still valid and is there at all. */
  function Best(ps: seq<IAPrefix>): (p: Option<IAPrefix>)
    ensures p.Some? ==> p.value.valid > 0 && p.value.prefix.Some?
  {
    if ps == [] then None else if ps[0].valid > 0 && ps[0].prefix.Some? then Some(ps[0]) else Best(ps[1..])
  }

  /** Multiplication as 64-bit signed arithmetic does it. */
  function Wrapped(v: int): (d: Duration)
    ensures -0x8000_0000_0000_0000 <= v < 0x8000_0000_0000_0000 ==> d == v
  {
    var low := v % 0x1_0000_0000_0000_0000;
    if low >= 0x8000_0000_0000_0000 then low - 0x1_0000_0000_0000_0000 else low
  }

  /** Division that truncates toward zero. */
  function Quotient(a: int, b: int): int
    requires b > 0
  {
    if a >= 0 then a / b else -(-a / b)
  }

  function RenewAt(pd: IAPD, valid: Seconds): Duration {
    if pd.t1 != 0 then pd.t1 * SECOND else valid * SECOND / 2
  }

  function RebindAt(pd: IAPD, valid: Seconds): Duration {
    if pd.t2 != 0 then pd.t2 * SECOND else Quotient(Wrapped(valid * SECOND * 4), 5)
  }

  /** The default rebind time is four fifths of the lifetime exactly while four times the lifetime fits 64 bits of
      nanoseconds. A longer lifetime, the infinite one included, gives a time that is already past. */
  lemma DefaultRebindTime(pd: IAPD, valid: Seconds)
    requires pd.t2 == 0 && valid > 0
    ensures RebindAt(pd, valid) == valid * SECOND * 4 / 5 <==> valid <= 2_305_843_009
    ensures RebindAt(pd, valid) < 0 <==> valid > 2_305_843_009
  {
  }

  /** With both timers left to the client, there is a window in which failed renewals are retried, exactly up to that
      lifetime; beyond it the first failure goes straight to a rebind. */
  lemma RetryWindow(pd: IAPD, valid: Seconds)
    requires pd.t1 == 0 && pd.t2 == 0 && valid > 0
    ensures RenewAt(pd, valid) < RebindAt(pd, valid) <==> valid <= 2_305_843_009
  {
    DefaultRebindTime(pd, valid);
  }

  /** The lease a reply grants. */
  function Process(reply: Reply, iaid: nat, serverId: nat, policy: Policy, now: int): Outcome {
    if Refuses(reply.status) then Failed(RefusedBy(reply.status))
    else
      match Matching(reply.associations, iaid)
      case None => Failed(Unusable)
      case Some(pd) =>
        if Refuses(pd.status) then Failed(RefusedBy(pd.status))
        else
          match Best(pd.prefixes)
          case None => Failed(Unusable)
          case Some(best) =>
            var wire := best.prefix.value;
            if wire.ip.None? then Failed(Unusable)
            else if wire.mask.bits != WIDTH || wire.mask.ones == 0 then Failed(Unusable)
            else
              var prefix := Prefix(wire.ip.value, wire.mask.ones).Masked();
              if !policy(prefix) then Failed(Unusable)
              else Granted(Lease(iaid, prefix, RenewAt(pd, best.valid), RebindAt(pd, best.valid), best.valid * SECOND, best.preferred * SECOND, now, serverId))
  }

  // ---------------------------------------------------------------- what a reply says

  /** The i-th association is the first one for the identifier. */
  predicate Asked(pds: seq<IAPD>, iaid: nat, i: nat) {
    i < |pds| && pds[i].iaid == iaid && forall j :: 0 <= j < i ==> pds[j].iaid != iaid
  }

  /** The i-th prefix is the first one that is there and still valid. */
  predicate FirstValid(ps: seq<IAPrefix>, i: nat) {
    && i < |ps| && ps[i].valid > 0 && ps[i].prefix.Some?
    && forall j :: 0 <= j < i ==> ps[j].valid == 0 || ps[j].prefix.None?
  }

  /** The server says it has no such binding: of the message, or, where the message is not refused, of the association. */
  ghost predicate Disowns(reply: Reply, iaid: nat) {
    || reply.status == NoBinding
    || (!reply.status.Refusal? && exists i: nat :: Asked(reply.associations, iaid, i) && reply.associations[i].status == NoBinding)
  }

  /** The lease states what this association and this prefix of it state: the server's timers where it sets them, else
      half and four fifths of the lifetime, the latter as 64-bit nanoseconds have it. */
  ghost predicate States(l: Lease, pd: IAPD, best: IAPrefix)
    requires best.prefix.Some?
  {
    var wire := best.prefix.value;
    && wire.ip.Some? && wire.mask == MaskSize(l.prefix.bits, WIDTH) && l.prefix.bits > 0
    && l.prefix == l.prefix.Masked() && l.prefix.Contains(wire.ip.value)
    && l.valid == best.valid * 1_000_000_000 && l.preferred == best.preferred * 1_000_000_000
    && l.t1 == (if pd.t1 != 0 then pd.t1 * 1_000_000_000 else best.valid * 500_000_000)
    && l.t2 == (if pd.t2 != 0 then pd.t2 * 1_000_000_000
                else if best.valid <= 2_305_843_009 then best.valid * 800_000_000
                else -((0x1_0000_0000_0000_0000 - best.valid * 4_000_000_000) / 5))
  }

  /** Neither the message nor the first association asked for is refused, and its first valid prefix is well formed and
      acceptable; the lease is for that prefix, from that server, as of now. */
  ghost predicate Grants(reply: Reply, iaid: nat, serverId: nat, policy: Policy, now: int, l: Lease) {
    && (reply.status == NoStatus || reply.status == Success)
    && l.iaid == iaid && l.serverId == serverId && l.receivedAt == now && policy(l.prefix)
    && exists i: nat, j: nat ::
         && Asked(reply.associations, iaid, i)
         && (reply.associations[i].status == NoStatus || reply.associations[i].status == Success)
         && FirstValid(reply.associations[i].prefixes, j)
         && States(l, reply.associations[i], reply.associations[i].prefixes[j])
  }

  lemma {:induction false} MatchingMeaning(pds: seq<IAPD>, iaid: nat)
    ensures forall i: nat :: Asked(pds, iaid, i) ==> Matching(pds, iaid) == Some(pds[i])
    ensures Matching(pds, iaid).Some? ==> exists i: nat :: Asked(pds, iaid, i)
  {
    if pds != [] {
      MatchingMeaning(pds[1..], iaid);
      forall i: nat | Asked(pds, iaid, i) && i > 0
        ensures Asked(pds[1..], iaid, i - 1)
      {
        assert forall j :: 0 <= j < i - 1 ==> pds[1..][j] == pds[j + 1];
      }
      if pds[0].iaid == iaid {
        assert Asked(pds, iaid, 0);
      } else if i: nat :| Asked(pds[1..], iaid, i) {
        assert forall j :: 0 < j < i + 1 ==> pds[j] == pds[1..][j - 1];
        assert Asked(pds, iaid, i + 1);
      }
    }
  }

  lemma {:induction false} BestMeaning(ps: seq<IAPrefix>)
    ensures forall i: nat :: FirstValid(ps, i) ==> Best(ps) == Some(ps[i])
    ensures Best(ps).Some? ==> exists i: nat :: FirstValid(ps, i)
  {
    if ps != [] {
      BestMeaning(ps[1..]);
      forall i: nat | FirstValid(ps, i) && i > 0
        ensures FirstValid(ps[1..], i - 1)
      {
        assert forall j :: 0 <= j < i - 1 ==> ps[1..][j] == ps[j + 1];
      }
      if ps[0].valid > 0 && ps[0].prefix.Some? {
        assert FirstValid(ps, 0);
      } else if i: nat :| FirstValid(ps[1..], i) {
        assert forall j :: 0 < j < i + 1 ==> ps[j] == ps[1..][j - 1];
        assert FirstValid(ps, i + 1);
      }
    }
  }

  lemma TimersMeaning(pd: IAPD, valid: Seconds)
    ensures RenewAt(pd, valid) == if pd.t1 != 0 then pd.t1 * 1_000_000_000 else valid * 500_000_000
    ensures RebindAt(pd, valid) == if pd.t2 != 0 then pd.t2 * 1_000_000_000
                                   else if valid <= 2_305_843_009 then valid * 800_000_000
                                   else -((0x1_0000_0000_0000_0000 - valid * 4_000_000_000) / 5)
  {
  }

  /** Masking is the one way to state a wire prefix. */
  lemma MaskedMeaning(ip: Address, ones: nat, p: ValidPrefix)
    requires ones <= WIDTH
    ensures p == Prefix(ip, ones).Masked() <==> p.bits == ones && p == p.Masked() && p.Contains(ip)
  {
    FloorAligned(ip, WIDTH - ones);
  }

  /** What is made of a reply is what the reply says: disowned exactly when the server has no binding, granted exactly
      the lease it grants. */
  lemma ReplyMeaning(reply: Reply, iaid: nat, serverId: nat, policy: Policy, now: int)
    ensures Process(reply, iaid, serverId, policy, now) == Failed(ServerHasNoBinding) <==> Disowns(reply, iaid)
    ensures forall l :: Process(reply, iaid, serverId, policy, now) == Granted(l) <==> Grants(reply, iaid, serverId, policy, now, l)
  {
    MatchingMeaning(reply.associations, iaid);
    forall l
      ensures Process(reply, iaid, serverId, policy, now) == Granted(l) <==> Grants(reply, iaid, serverId, policy, now, l)
    {
      GrantMeaning(reply, iaid, serverId, policy, now, l);
    }
  }

  lemma GrantMeaning(reply: Reply, iaid: nat, serverId: nat, policy: Policy, now: int, l: Lease)
    ensures Process(reply, iaid, serverId, policy, now) == Granted(l) <==> Grants(reply, iaid, serverId, policy, now, l)
  {
    MatchingMeaning(reply.associations, iaid);
    if Matching(reply.associations, iaid).Some? {
      var pd := Matching(reply.associations, iaid).value;
      BestMeaning(pd.prefixes);
      if Best(pd.prefixes).Some? {
        var best := Best(pd.prefixes).value;
        TimersMeaning(pd, best.valid);
        if best.prefix.value.ip.Some? && best.prefix.value.mask.bits == WIDTH {
          MaskedMeaning(best.prefix.value.ip.value, best.prefix.value.mask.ones, l.prefix);
        }
      }
    }
  }

  /** A granted lease is for a masked prefix the policy accepts, runs from now, and is not yet due for renewal. */
  lemma GrantedLease(reply: Reply, iaid: nat, serverId: nat, policy: Policy, now: int)
    requires Process(reply, iaid, serverId, policy, now).Granted?
    ensures var lease := Process(reply, iaid, serverId, policy, now).lease;
            && lease.prefix == lease.prefix.Masked() && lease.prefix.bits > 0 && policy(lease.prefix)
            && lease.t1 > 0 && lease.valid > 0 && lease.receivedAt == now
  {
    var pd := Matching(reply.associations, iaid).value;
    var wire := Best(pd.prefixes).value.prefix.value;
    FloorAligned(wire.ip.value, WIDTH - wire.mask.ones);
  }

  // ---------------------------------------------------------------- the receiver

  datatype Event =
    | Acquired(prefix: ValidPrefix)
    | Changed(prefix: ValidPrefix)
    | Renewed(prefix: ValidPrefix)
    | Expired
    | ErrorReported

  datatype State = State(lease: Option<Lease>, current: Option<Delegated>, backoff: Duration, events: seq<Event>) {
    function Sent(e: Event): State {
      this.(events := events + [e])
    }
  }

  function HeldFrom(l: Lease): Delegated {
    Delegated(l.prefix, l.valid, l.preferred, l.receivedAt)
  }

  function EventFor(current: Option<Delegated>, p: ValidPrefix): Event {
    if current.None? then Acquired(p) else if current.value.network != p then Changed(p) else Renewed(p)
  }

  function Taken(s: State, l: Lease): State {
    s.(lease := Some(l), current := Some(HeldFrom(l))).Sent(EventFor(s.current, l.prefix))
  }

  function Dropped(s: State): State {
    s.(lease := None, current := None).Sent(Expired)
  }

  /** What one turn of the loop meets: the clock, the draws, and what each exchange it may attempt comes to.
      An exchange without a usable answer is None. */
  datatype Turn = Turn(now: int, later: int, roll: nat, stops: bool,
                       solicit: Option<(Reply, nat, nat)>, renew: Option<Reply>, rebind: Option<Reply>)

  /** The settings a receiver is built with. */
  datatype Settings = Settings(min: Duration, max: Duration, policy: Policy)

  predicate Usable(c: Settings) {
    0 < c.min <= c.max
  }

  function AcquireOutcome(c: Settings, t: Turn): Outcome {
    match t.solicit
    case None => Failed(Unusable)
    case Some(answer) => Process(answer.0, answer.1, answer.2, c.policy, t.later)
  }

  function RenewOutcome(c: Settings, l: Lease, t: Turn): Outcome {
    match t.renew
    case None => Failed(Unusable)
    case Some(reply) => Process(reply, l.iaid, l.serverId, c.policy, t.later)
  }

  /** A rebind takes whichever server answers, as long as it names itself. */
  function RebindOutcome(c: Settings, l: Lease, t: Turn): Outcome {
    match t.rebind
    case None => Failed(Unusable)
    case Some(reply) => if reply.serverId.None? then Failed(Unusable) else Process(reply, l.iaid, reply.serverId.value, c.policy, t.later)
  }

  /** One turn: the state after it, how long it waited, and whether the loop ends. */
  datatype Result = Result(state: State, waited: int, stopped: bool)

  function AcquireTurn(c: Settings, s: State, t: Turn): Result
    requires Usable(c) && s.backoff > 0
  {
    var wait := Jittered(s.backoff, t.roll);
    if t.stops then Result(s, wait, true)
    else
      match AcquireOutcome(c, t)
      case Granted(l) => Result(Taken(s, l).(backoff := c.min), wait, false)
      case Failed(_) => Result(s.Sent(ErrorReported).(backoff := NextBackoff(s.backoff, c.max)), wait, false)
  }

  function RenewTurn(c: Settings, s: State, l: Lease, t: Turn): Result {
    match RenewOutcome(c, l, t)
    case Granted(l') => Result(Taken(s, l'), 0, false)
    case Failed(ServerHasNoBinding) => Result(Dropped(s.Sent(ErrorReported)), 0, false)
    case Failed(Unusable) =>
      var reported := s.Sent(ErrorReported);
      if t.now - l.receivedAt >= l.t2 then
        (match RebindOutcome(c, l, t)
         case Granted(l') => Result(Taken(reported, l'), 0, false)
         case Failed(_) => Result(Dropped(reported.Sent(ErrorReported)), 0, false))
      else Result(reported, RENEW_RETRY, t.stops)
  }

  function LoopTurn(c: Settings, s: State, t: Turn): Result
    requires Usable(c) && s.backoff > 0
  {
    match s.lease
    case None => AcquireTurn(c, s, t)
    case Some(l) =>
      var elapsed := t.now - l.receivedAt;
      if elapsed >= l.t1 then RenewTurn(c, s, l, t) else Result(s, Min(l.t1 - elapsed, MINUTE), t.stops)
  }

  class PDReceiver {
    const settings: Settings
    var lease: Option<Lease>
    var currentPrefix: Option<Delegated>
    /** The events handed to the channel; a full channel may still lose some. */
    var events: seq<Event>

    constructor (settings: Settings)
      ensures this.settings == settings && lease == None && currentPrefix == None && events == []
    {
      this.settings, lease, currentPrefix, events := settings, None, None, [];
    }

    ghost function Now(backoff: Duration): State
      reads this
    {
      State(lease, currentPrefix, backoff, events)
    }

    method SendEvent(e: Event)
      modifies this`events
      ensures events == old(events) + [e]
    {
      events := events + [e];
    }

    method DropLease(ghost backoff: Duration)
      modifies this
      ensures Now(backoff) == Dropped(old(Now(backoff)))
    {
      currentPrefix := None;
      lease := None;
      SendEvent(Expired);
    }

    /** Screens a reply and, if it grants anything, takes the lease and says how the prefix changed. */
    method ProcessIAPDReply(reply: Reply, expectedIAID: nat, serverId: nat, now: int, ghost backoff: Duration) returns (error: Option<Refused>)
      modifies this
      ensures match Process(reply, expectedIAID, serverId, settings.policy, now)
              case Granted(l) => error == None && Now(backoff) == Taken(old(Now(backoff)), l)
              case Failed(why) => error == Some(why) && unchanged(this)
      ensures error == Some(ServerHasNoBinding) <==> Disowns(reply, expectedIAID)
      ensures error == None ==> lease.Some? && Grants(reply, expectedIAID, serverId, settings.policy, now, lease.value)
      ensures error != None ==> forall l :: !Grants(reply, expectedIAID, serverId, settings.policy, now, l)
    {
      ReplyMeaning(reply, expectedIAID, serverId, settings.policy, now);
      if Refuses(reply.status) {
        return Some(RefusedBy(reply.status));
      }
      var matching: Option<IAPD> := None;
      var i := 0;
      while i < |reply.associations| && matching.None?
        invariant 0 <= i <= |reply.associations|
        invariant Matching(reply.associations, expectedIAID) == if matching.Some? then matching else Matching(reply.associations[i..], expectedIAID)
      {
        if reply.associations[i].iaid == expectedIAID {
          matching := Some(reply.associations[i]);
        }
        i := i + 1;
      }
      if matching.None? {
        return Some(Unusable);
      }
      var pd := matching.value;
      if Refuses(pd.status) {
        return Some(RefusedBy(pd.status));
      }
      var best: Option<IAPrefix> := None;
      i := 0;
      while i < |pd.prefixes| && best.None?
        invariant 0 <= i <= |pd.prefixes|
        invariant Best(pd.prefixes) == if best.Some? then best else Best(pd.prefixes[i..])
      {
        if pd.prefixes[i].valid > 0 && pd.prefixes[i].prefix.Some? {
          best := Some(pd.prefixes[i]);
        }
        i := i + 1;
      }
      if best.None? {
        return Some(Unusable);
      }
      var wire := best.value.prefix.value;
      if wire.ip.None? {
        return Some(Unusable);
      }
      if wire.mask.bits != WIDTH || wire.mask.ones == 0 {
        return Some(Unusable);
      }
      var prefix := Prefix(wire.ip.value, wire.mask.ones).Masked();
      if !settings.policy(prefix) {
        return Some(Unusable);
      }
      var t1: Duration := pd.t1 * SECOND;
      if t1 == 0 {
        t1 := best.value.valid * SECOND / 2;
      }
      var t2: Duration := pd.t2 * SECOND;
      if t2 == 0 {
        t2 := Quotient(Wrapped(best.value.valid * SECOND * 4), 5);
      }
      var newLease := Lease(expectedIAID, prefix, t1, t2, best.value.valid * SECOND, best.value.preferred * SECOND, now, serverId);
      var oldPrefix := currentPrefix;
      currentPrefix := Some(HeldFrom(newLease));
      lease := Some(newLease);
      if oldPrefix.None? {
        SendEvent(Acquired(prefix));
      } else if oldPrefix.value.network != prefix {
        SendEvent(Changed(prefix));
      } else {
        SendEvent(Renewed(prefix));
      }
      return None;
    }

    method AcquirePrefix(t: Turn, ghost backoff: Duration) returns (error: Option<Refused>)
      modifies this
      ensures match AcquireOutcome(settings, t)
              case Granted(l) => error == None && Now(backoff) == Taken(old(Now(backoff)), l)
              case Failed(why) => error == Some(why) && unchanged(this)
    {
      if t.solicit.None? {
        return Some(Unusable);
      }
      error := ProcessIAPDReply(t.solicit.value.0, t.solicit.value.1, t.solicit.value.2, t.later, backoff);
    }

    method RenewPrefix(t: Turn, ghost backoff: Duration) returns (error: Option<Refused>)
      requires lease.Some?
      modifies this
      ensures match RenewOutcome(settings, old(lease.value), t)
              case Granted(l) => error == None && Now(backoff) == Taken(old(Now(backoff)), l)
              case Failed(why) => error == Some(why) && unchanged(this)
    {
      if t.renew.None? {
        return Some(Unusable);
      }
      error := ProcessIAPDReply(t.renew.value, lease.value.iaid, lease.value.serverId, t.later, backoff);
    }

    method RebindPrefix(t: Turn, ghost backoff: Duration) returns (error: Option<Refused>)
      requires lease.Some?
      modifies this
      ensures match RebindOutcome(settings, old(lease.value), t)
              case Granted(l) => error == None && Now(backoff) == Taken(old(Now(backoff)), l)
              case Failed(why) => error == Some(why) && unchanged(this)
    {
      if t.rebind.None? || t.rebind.value.serverId.None? {
        return Some(Unusable);
      }
      error := ProcessIAPDReply(t.rebind.value, lease.value.iaid, t.rebind.value.serverId.value, t.later, backoff);
    }

    /** One turn of the loop. */
    method Iterate(t: Turn, cur: Duration) returns (backoff: Duration, waited: int, stopped: bool)
      requires Usable(settings) && cur > 0
      modifies this
      ensures Result(Now(backoff), waited, stopped) == LoopTurn(settings, old(Now(cur)), t)
    {
      backoff := cur;
      if lease.None? {
        waited := Jittered(cur, t.roll);
        if t.stops {
          return backoff, waited, true;
        }
        var error := AcquirePrefix(t, cur);
        if error.Some? {
          SendEvent(ErrorReported);
          backoff := NextBackoff(cur, settings.max);
        } else {
          backoff := settings.min;
        }
        return backoff, waited, false;
      }
      var held := lease.value;
      var elapsed := t.now - held.receivedAt;
      if elapsed >= held.t1 {
        var error := RenewPrefix(t, cur);
        if error.Some? {
          SendEvent(ErrorReported);
          if error.value.ServerHasNoBinding? {
            DropLease(cur);
            return backoff, 0, false;
          }
          if elapsed >= held.t2 {
            var again := RebindPrefix(t, cur);
            if again.Some? {
              SendEvent(ErrorReported);
              DropLease(cur);
            }
            return backoff, 0, false;
          }
          return backoff, RENEW_RETRY, t.stops;
        }
        return backoff, 0, false;
      }
      var sleep := held.t1 - elapsed;
      if sleep > MINUTE {
        sleep := MINUTE;
      }
      return backoff, sleep, t.stops;
    }

    /** A generation of the loop: one attempt at once, then turns until it is stopped. */
    method RunLoop(first: Turn, turns: seq<Turn>) returns (backoff: Duration)
      requires Usable(settings)
      modifies this
      ensures Now(backoff) == Loop(settings, Began(settings, old(Now(settings.min)), first), turns)
    {
      backoff := settings.min;
      var error := AcquirePrefix(first, backoff);
      if error.Some? {
        SendEvent(ErrorReported);
        backoff := NextBackoff(backoff, settings.max);
      }
      ghost var start := Now(backoff);
      assert turns[0..] == turns;
      for i := 0 to |turns|
        invariant backoff > 0
        invariant Loop(settings, start, turns) == Loop(settings, Now(backoff), turns[i..])
      {
        assert turns[i..][1..] == turns[i + 1..];
        var waited, stopped;
        backoff, waited, stopped := Iterate(turns[i], backoff);
        if stopped {
          return;
        }
      }
    }
  }

  function Began(c: Settings, s: State, t: Turn): (r: State)
    requires Usable(c) && s.backoff > 0
    ensures r.backoff > 0
  {
    match AcquireOutcome(c, t)
    case Granted(l) => Taken(s, l)
    case Failed(_) => s.Sent(ErrorReported).(backoff := NextBackoff(s.backoff, c.max))
  }

  function Loop(c: Settings, s: State, turns: seq<Turn>): State
    requires Usable(c) && s.backoff > 0
    decreases |turns|
  {
    if turns == [] then s
    else
      var r := LoopTurn(c, s, turns[0]);
      if r.stopped then r.state else Loop(c, r.state, turns[1..])
  }

  // ---------------------------------------------------------------- what every run keeps

  /** The prefix a reader of the events believes in. */
  function Replay(events: seq<Event>): Option<ValidPrefix> {
    if events == [] then None
    else
      match events[|events| - 1]
      case Acquired(p) => Some(p)
      case Changed(p) => Some(p)
      case Renewed(p) => Some(p)
      case Expired => None
      case ErrorReported => Replay(events[..|events| - 1])
  }

  /** Each event says what happened: acquired from nothing, changed to another, renewed the same, expired from one. */
  predicate Truthful(events: seq<Event>) {
    events != [] ==>
      var before := Replay(events[..|events| - 1]);
      && Truthful(events[..|events| - 1])
      && match events[|events| - 1]
         case Acquired(_) => before == None
         case Changed(p) => before.Some? && before.value != p
         case Renewed(p) => before == Some(p)
         case Expired => before.Some?
         case ErrorReported => true
  }

  /** A lease is held iff a prefix is, the two agree, the prefix is masked and accepted, the events tell the same
      story, and the pace stays between its bounds. */
  ghost predicate Inv(c: Settings, s: State) {
    && Usable(c) && c.min <= s.backoff <= c.max
    && (s.lease.Some? <==> s.current.Some?)
    && (s.lease.Some? ==> var l := s.lease.value;
                          s.current == Some(Delegated(l.prefix, l.valid, l.preferred, l.receivedAt)) && l.prefix == l.prefix.Masked() && c.policy(l.prefix) && l.t1 > 0)
    && Truthful(s.events)
    && Replay(s.events) == if s.current.Some? then Some(s.current.value.network) else None
  }

  lemma SentKeeps(s: State, e: Event)
    ensures s.Sent(e).events[..|s.events|] == s.events
    ensures Truthful(s.events) && e.ErrorReported? ==> Truthful(s.Sent(e).events) && Replay(s.Sent(e).events) == Replay(s.events)
  {
  }

  lemma ReportKeeps(c: Settings, s: State)
    requires Inv(c, s)
    ensures Inv(c, s.Sent(ErrorReported))
  {
    SentKeeps(s, ErrorReported);
  }

  lemma TakenKeeps(c: Settings, s: State, l: Lease)
    requires Inv(c, s) && l.prefix == l.prefix.Masked() && c.policy(l.prefix) && l.t1 > 0
    ensures Inv(c, Taken(s, l))
  {
    SentKeeps(s, EventFor(s.current, l.prefix));
  }

  lemma DroppedKeeps(c: Settings, s: State)
    requires Inv(c, s) && s.lease.Some?
    ensures Inv(c, Dropped(s))
  {
    SentKeeps(s, Expired);
  }

  /** Whatever an exchange grants may be taken. */
  lemma OutcomeKeeps(c: Settings, s: State, reply: Reply, iaid: nat, serverId: nat, now: int)
    requires Inv(c, s) && Process(reply, iaid, serverId, c.policy, now).Granted?
    ensures Inv(c, Taken(s, Process(reply, iaid, serverId, c.policy, now).lease))
  {
    GrantedLease(reply, iaid, serverId, c.policy, now);
    TakenKeeps(c, s, Process(reply, iaid, serverId, c.policy, now).lease);
  }

  lemma AcquireKeeps(c: Settings, s: State, t: Turn)
    requires Inv(c, s)
    ensures Inv(c, AcquireTurn(c, s, t).state)
  {
    ReportKeeps(c, s);
    if AcquireOutcome(c, t).Granted? {
      OutcomeKeeps(c, s, t.solicit.value.0, t.solicit.value.1, t.solicit.value.2, t.later);
    }
  }

  lemma RenewKeeps(c: Settings, s: State, t: Turn)
    requires Inv(c, s) && s.lease.Some?
    ensures Inv(c, RenewTurn(c, s, s.lease.value, t).state)
  {
    var l, reported := s.lease.value, s.Sent(ErrorReported);
    ReportKeeps(c, s);
    if RenewOutcome(c, l, t).Granted? {
      OutcomeKeeps(c, s, t.renew.value, l.iaid, l.serverId, t.later);
    } else if RebindOutcome(c, l, t).Granted? {
      OutcomeKeeps(c, reported, t.rebind.value, l.iaid, t.rebind.value.serverId.value, t.later);
      DroppedKeeps(c, reported);
    } else {
      ReportKeeps(c, reported);
      DroppedKeeps(c, reported);
      DroppedKeeps(c, reported.Sent(ErrorReported));
    }
  }

  lemma TurnKeeps(c: Settings, s: State, t: Turn)
    requires Inv(c, s)
    ensures Inv(c, LoopTurn(c, s, t).state)
  {
    if s.lease.None? {
      AcquireKeeps(c, s, t);
    } else {
      RenewKeeps(c, s, t);
    }
  }

  lemma {:induction false} LoopKeeps(c: Settings, s: State, turns: seq<Turn>)
    requires Inv(c, s)
    ensures Inv(c, Loop(c, s, turns))
    decreases |turns|
  {
    if turns != [] {
      TurnKeeps(c, s, turns[0]);
      if !LoopTurn(c, s, turns[0]).stopped {
        LoopKeeps(c, LoopTurn(c, s, turns[0]).state, turns[1..]);
      }
    }
  }

  function Fresh(c: Settings): State {
    State(None, None, c.min, [])
  }

  /** Whatever the servers answer and however often exchanges fail, a generation of the loop keeps the invariant. It may
      be the first, or one started after a stop with the lease still held: only the pace begins anew. */
  lemma EveryGenerationKeeps(c: Settings, s: State, first: Turn, turns: seq<Turn>)
    requires Inv(c, s)
    ensures Inv(c, Loop(c, Began(c, s.(backoff := c.min), first), turns))
  {
    var start := s.(backoff := c.min);
    ReportKeeps(c, start);
    if AcquireOutcome(c, first).Granted? {
      OutcomeKeeps(c, start, first.solicit.value.0, first.solicit.value.1, first.solicit.value.2, first.later);
    }
    LoopKeeps(c, Began(c, start, first), turns);
  }

  /** What happens between two stops: an attempt and then turns. */
  datatype Generation = Generation(first: Turn, turns: seq<Turn>)

  function Lifetime(c: Settings, generations: seq<Generation>): (s: State)
    requires Usable(c)
  {
    if generations == [] then Fresh(c)
    else
      var g, before := generations[|generations| - 1], Lifetime(c, generations[..|generations| - 1]);
      Loop(c, Began(c, before.(backoff := c.min), g.first), g.turns)
  }

  /** So every state a receiver reaches keeps it, over any number of starts and stops. */
  lemma {:induction false} EveryRunKeeps(c: Settings, generations: seq<Generation>)
    requires Usable(c)
    ensures Inv(c, Lifetime(c, generations))
  {
    if generations != [] {
      var n := |generations| - 1;
      EveryRunKeeps(c, generations[..n]);
      EveryGenerationKeeps(c, Lifetime(c, generations[..n]), generations[n].first, generations[n].turns);
    }
  }

  /** The answer to a renewal, if there is one, grants the lease. */
  ghost predicate Renews(c: Settings, l: Lease, t: Turn, next: Lease) {
    t.renew.Some? && Grants(t.renew.value, l.iaid, l.serverId, c.policy, t.later, next)
  }

  /** The answer to a rebind, if there is one and it names its server, grants the lease. */
  ghost predicate Rebinds(c: Settings, l: Lease, t: Turn, next: Lease) {
    t.rebind.Some? && t.rebind.value.serverId.Some? && Grants(t.rebind.value, l.iaid, t.rebind.value.serverId.value, c.policy, t.later, next)
  }

  lemma OutcomesMean(c: Settings, l: Lease, t: Turn)
    ensures RenewOutcome(c, l, t) == Failed(ServerHasNoBinding) <==> t.renew.Some? && Disowns(t.renew.value, l.iaid)
    ensures forall next :: RenewOutcome(c, l, t) == Granted(next) <==> Renews(c, l, t, next)
    ensures forall next :: RebindOutcome(c, l, t) == Granted(next) <==> Rebinds(c, l, t, next)
  {
    if t.renew.Some? {
      ReplyMeaning(t.renew.value, l.iaid, l.serverId, c.policy, t.later);
    }
    if t.rebind.Some? && t.rebind.value.serverId.Some? {
      ReplyMeaning(t.rebind.value, l.iaid, t.rebind.value.serverId.value, c.policy, t.later);
    }
  }

  /** A held lease is given up exactly when a due renewal is not granted and either the server disowns the delegation or
      the rebind time has passed and no server grants a rebind; it is replaced exactly by the lease a due exchange grants. */
  lemma LeaseLostExactly(c: Settings, s: State, t: Turn)
    requires Inv(c, s) && s.lease.Some? && t.now <= t.later
    ensures var l, after := s.lease.value, LoopTurn(c, s, t).state.lease;
            var due, late := t.now >= l.receivedAt + l.t1, t.now >= l.receivedAt + l.t2;
            var disowned := t.renew.Some? && Disowns(t.renew.value, l.iaid);
            var renewed, rebound := exists next :: Renews(c, l, t, next), exists next :: Rebinds(c, l, t, next);
            && (after == None <==> due && !renewed && (disowned || (late && !rebound)))
            && (forall next :: after == Some(next) && next != l <==> due && (Renews(c, l, t, next) || (!renewed && !disowned && late && Rebinds(c, l, t, next))))
  {
    var l := s.lease.value;
    OutcomesMean(c, l, t);
    assert forall next :: Renews(c, l, t, next) || Rebinds(c, l, t, next) ==> next.receivedAt == t.later;
  }

  /** The answer to an acquisition, if there is one, grants the lease. */
  ghost predicate Acquires(c: Settings, t: Turn, next: Lease) {
    t.solicit.Some? && Grants(t.solicit.value.0, t.solicit.value.1, t.solicit.value.2, c.policy, t.later, next)
  }

  lemma AcquisitionMeans(c: Settings, t: Turn)
    ensures forall next :: AcquireOutcome(c, t) == Granted(next) <==> Acquires(c, t, next)
    ensures AcquireOutcome(c, t).Granted? ==> exists next :: Acquires(c, t, next)
  {
    if t.solicit.Some? {
      ReplyMeaning(t.solicit.value.0, t.solicit.value.1, t.solicit.value.2, c.policy, t.later);
    }
    if AcquireOutcome(c, t).Granted? {
      assert Acquires(c, t, AcquireOutcome(c, t).lease);
    }
  }

  /** Without a lease a turn takes exactly the lease the answer grants, unless it is stopped first. The attempt a
      generation begins with takes it too, in place of any lease still held, and else leaves that. */
  lemma LeaseTakenExactly(c: Settings, s: State, t: Turn)
    requires Usable(c) && s.backoff > 0
    ensures s.lease.None? ==> forall next :: LoopTurn(c, s, t).state.lease == Some(next) <==> !t.stops && Acquires(c, t, next)
    ensures forall next :: Acquires(c, t, next) ==> Began(c, s, t).lease == Some(next)
    ensures (forall next :: !Acquires(c, t, next)) ==> Began(c, s, t).lease == s.lease
  {
    AcquisitionMeans(c, t);
  }

  /** How taking a lease over from another is told. */
  function Told(l: Lease, next: Lease): Event {
    if next.prefix == l.prefix then Renewed(next.prefix) else Changed(next.prefix)
  }

  /** The turn sends exactly these events. */
  predicate Tells(c: Settings, s: State, t: Turn, events: seq<Event>)
    requires Usable(c) && s.backoff > 0
  {
    LoopTurn(c, s, t).state.events == s.events + events
  }

  /** An acquisition is told as the prefix acquired or as an error, and only if it is made. */
  lemma AcquisitionTells(c: Settings, s: State, t: Turn)
    requires Inv(c, s) && s.lease.None?
    ensures t.stops ==> Tells(c, s, t, [])
    ensures !t.stops ==> forall next :: Acquires(c, t, next) ==> Tells(c, s, t, [Acquired(next.prefix)])
    ensures !t.stops && (forall next :: !Acquires(c, t, next)) ==> Tells(c, s, t, [ErrorReported])
  {
    AcquisitionMeans(c, t);
  }

  /** With a lease a turn tells nothing until renewal is due; then each exchange that came to nothing is one error, a lease
      taken says how the prefix changed, and a lease given up that it is gone. */
  lemma RenewalTells(c: Settings, s: State, t: Turn)
    requires Inv(c, s) && s.lease.Some?
    ensures var l := s.lease.value;
            var due, late := t.now >= l.receivedAt + l.t1, t.now >= l.receivedAt + l.t2;
            var disowned := t.renew.Some? && Disowns(t.renew.value, l.iaid);
            && (!due ==> Tells(c, s, t, []))
            && (due ==> forall next :: Renews(c, l, t, next) ==> Tells(c, s, t, [Told(l, next)]))
            && (due && !(exists next :: Renews(c, l, t, next)) ==>
                  && (disowned ==> Tells(c, s, t, [ErrorReported, Expired]))
                  && (!disowned && !late ==> Tells(c, s, t, [ErrorReported]))
                  && (!disowned && late ==> forall next :: Rebinds(c, l, t, next) ==> Tells(c, s, t, [ErrorReported, Told(l, next)]))
                  && (!disowned && late && !(exists next :: Rebinds(c, l, t, next)) ==> Tells(c, s, t, [ErrorReported, ErrorReported, Expired])))
  {
    OutcomesMean(c, s.lease.value, t);
  }

  /** No busy loop: with a lease, a turn waits a positive time exactly when it ends with that same lease: half a minute
      if a renewal is due, else until it is, a minute at most. Without a lease it always waits, at most the longest
      jittered pace. */
  lemma UnchangedLeaseWaits(c: Settings, s: State, t: Turn)
    requires Inv(c, s) && t.now <= t.later
    ensures var r := LoopTurn(c, s, t);
            && (s.lease.None? ==> 0 < r.waited <= c.max + c.max / 5)
            && (s.lease.Some? ==>
                  var dueAt := s.lease.value.receivedAt + s.lease.value.t1;
                  && (r.waited > 0 <==> r.state.lease == s.lease) && r.waited >= 0
                  && (t.now < dueAt ==> r.waited == if dueAt - t.now < 60_000_000_000 then dueAt - t.now else 60_000_000_000)
                  && (t.now >= dueAt && r.waited > 0 ==> r.waited == 30_000_000_000))
  {
    if s.lease.None? {
      JitterStaysPositive(s.backoff, t.roll);
    } else {
      var l := s.lease.value;
      OutcomesMean(c, l, t);
      assert forall next :: Renews(c, l, t, next) || Rebinds(c, l, t, next) ==> next.receivedAt == t.later;
    }
  }

  /** How many acquisitions in a row have failed after some turns, `k` having failed before. */
  function FailedInARow(c: Settings, s: State, turns: seq<Turn>, k: nat): nat
    requires Usable(c) && s.backoff > 0
    decreases |turns|
  {
    if turns == [] then k
    else
      var t := turns[0];
      var r := LoopTurn(c, s, t);
      var k' := if s.lease.Some? || t.stops then k else if AcquireOutcome(c, t).Granted? then 0 else k + 1;
      if r.stopped then k' else FailedInARow(c, r.state, turns[1..], k')
  }

  /** So the delay before the next attempt is min(max, min * 2^k) for k failures in a row, at any point of any run. */
  lemma {:induction false} PaceIsCappedDoubling(c: Settings, s: State, turns: seq<Turn>, k: nat)
    requires Usable(c) && s.backoff == AfterFailures(k, c.min, c.max)
    ensures Loop(c, s, turns).backoff == Min(c.max, c.min * Pow2(FailedInARow(c, s, turns, k)))
    decreases |turns|
  {
    BackoffIsCappedDoubling(FailedInARow(c, s, turns, k), c.min, c.max);
    if turns != [] {
      var t := turns[0];
      var r := LoopTurn(c, s, t);
      var k' := if s.lease.Some? || t.stops then k else if AcquireOutcome(c, t).Granted? then 0 else k + 1;
      assert r.state.backoff == AfterFailures(k', c.min, c.max);
      if !r.stopped {
        PaceIsCappedDoubling(c, r.state, turns[1..], k');
      }
    }
  }
}
