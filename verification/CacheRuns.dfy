/** Safety of the memory cache over whole runs: every interleaving of the atomic steps from
    the empty cache. */
module CacheRuns {
  import opened Prelude
  import opened Keys
  import opened Policy
  import opened Entries
  import opened Sets
  import opened CacheModel
  import opened CacheInvariants
  import S = Shelf
  import F = Fills

  datatype Run = Run(states: seq<Mem>, events: seq<Event>)

  ghost predicate IsRun(c: Config, owner: nat, run: Run) {
    && |run.states| == |run.events| + 1
    && run.states[0] == EMPTY
    && forall i :: 0 <= i < |run.events| ==> StepAt(c, owner, run, i)
  }

  ghost predicate StepAt(c: Config, owner: nat, run: Run, i: nat)
    requires i < |run.events| && |run.states| == |run.events| + 1
  {
    Step(c, owner, run.states[i], run.events[i], run.states[i + 1])
  }

  /** The invariant holds in every state of every run. */
  lemma {:induction false} InvThroughout(c: Config, owner: nat, run: Run, i: nat)
    requires Accountable(c) && IsRun(c, owner, run) && i <= |run.events|
    ensures Inv(c, run.states[i])
  {
    if i == 0 {
      InitInv(c);
    } else {
      InvThroughout(c, owner, run, i - 1);
      assert StepAt(c, owner, run, i - 1);
      StepKeepsInv(c, owner, run.states[i - 1], run.events[i - 1], run.states[i]);
    }
  }

  // ---------------------------------------------------------------- what a step does to channels

  /** Channels are never removed or reassigned, and a terminal outcome is final. */
  ghost predicate ChannelsKept<B(!new)>(f: F.Fills<B>, f': F.Fills<B>) {
    forall g :: g in f.channels ==>
      && g in f'.channels
      && f'.channels[g].base == f.channels[g].base
      && (f.channels[g].outcome != F.Filling ==> f'.channels[g] == f.channels[g])
  }

  /** Channels other than those of `bases` keep their value. */
  ghost predicate OthersUntouched<B(!new)>(f: F.Fills<B>, f': F.Fills<B>, bases: set<B>) {
    forall g :: g in f.channels && f.channels[g].base !in bases ==> g in f'.channels && f'.channels[g] == f.channels[g]
  }

  lemma SettleKeepsChannels<B(!new)>(f: F.Fills<B>, bases: set<B>, outcome: F.FillOutcome)
    ensures ChannelsKept(f, F.Settle(f, bases, outcome))
    ensures OthersUntouched(f, F.Settle(f, bases, outcome), bases)
  {
  }

  lemma LeadKeepsChannels<B(!new)>(f: F.Fills<B>, base: B)
    requires F.Numbered(f)
    ensures ChannelsKept(f, F.Lead(f, base))
  {
    assert |f.channels| !in f.channels;
  }

  lemma StepKeepsChannels(c: Config, owner: nat, s: Mem, event: Event, s': Mem)
    requires Inv(c, s) && Step(c, owner, s, event, s')
    ensures ChannelsKept(s.fills, s'.fills)
  {
    match event
    case LookupEvent(ask, matching, now, found, result) => LookupEffects(s, ask, matching, now, found, result, s');
    case ErrorEvent(key, now, response) =>
    case BeginEvent(base, join) => LeadKeepsChannels(s.fills, base);
    case PublishEvent(g, e, delta) => SettleKeepsChannels(s.fills, {g.base}, F.Kept);
    case CompleteEvent(g, done) => SettleKeepsChannels(s.fills, {g.base}, F.NotStored);
    case AbandonEvent(g) => SettleKeepsChannels(s.fills, {g.base}, F.Cancelled);
    case PurgeKeyEvent(key, result) => SettleKeepsChannels(s.fills, {key.base}, F.Purged);
    case PurgeBaseEvent(base, result) => SettleKeepsChannels(s.fills, {base}, F.Purged);
    case PurgeTagEvent(tag, result) => SettleKeepsChannels(s.fills, BasesOf(KeysWithTag(s.shelf.slots, tag)), F.Purged);
    case CancelAllEvent => SettleKeepsChannels(s.fills, s.fills.flights.Keys, F.Cancelled);
    case RemoveEvent(key, removed) =>
    case RestoreEvent(e, delta) =>
    case RejectEvent =>
  }

  /** The fills of a run, state by state. */
  ghost function FillTrace(run: Run): seq<F.Fills<BaseKey>> {
    seq(|run.states|, i requires 0 <= i < |run.states| => run.states[i].fills)
  }

  ghost predicate KeptTrace<B(!new)>(trace: seq<F.Fills<B>>) {
    forall i :: 0 <= i < |trace| - 1 ==> ChannelsKept(trace[i], trace[i + 1])
  }

  ghost predicate Consistent<B(!new)>(f: F.Fills<B>) {
    F.FlightsOpen(f) && F.OpenFlies(f)
  }

  ghost predicate ConsistentTrace<B(!new)>(trace: seq<F.Fills<B>>) {
    forall i :: 0 <= i < |trace| ==> Consistent(trace[i])
  }

  lemma InvConsistent(c: Config, s: Mem)
    requires Inv(c, s)
    ensures Consistent(s.fills)
  {
  }

  lemma RunTrace(c: Config, owner: nat, run: Run)
    requires Accountable(c) && IsRun(c, owner, run)
    ensures KeptTrace(FillTrace(run)) && ConsistentTrace(FillTrace(run))
  {
    hide Step, Inv, Consistent, ChannelsKept;
    forall i | 0 <= i < |FillTrace(run)|
      ensures Consistent(FillTrace(run)[i])
    {
      InvThroughout(c, owner, run, i);
      InvConsistent(c, run.states[i]);
    }
    forall i | 0 <= i < |FillTrace(run)| - 1
      ensures ChannelsKept(FillTrace(run)[i], FillTrace(run)[i + 1])
    {
      InvThroughout(c, owner, run, i);
      assert StepAt(c, owner, run, i);
      StepKeepsChannels(c, owner, run.states[i], run.events[i], run.states[i + 1]);
    }
  }

  /** Once a generation has its outcome it keeps it for the rest of the run. */
  lemma {:induction false} OutcomeIsFinal<B(!new)>(trace: seq<F.Fills<B>>, i: nat, j: nat, g: nat)
    requires KeptTrace(trace) && i <= j < |trace|
    requires g in trace[i].channels
    ensures g in trace[j].channels && trace[j].channels[g].base == trace[i].channels[g].base
    ensures trace[i].channels[g].outcome != F.Filling ==> trace[j].channels[g] == trace[i].channels[g]
    decreases j - i
  {
    if i < j {
      OutcomeIsFinal(trace, i, j - 1, g);
      assert ChannelsKept(trace[j - 1], trace[j - 1 + 1]);
    }
  }

  /** While a generation is current later on, it is current at every earlier moment since
      it started. */
  lemma CurrentSinceStart<B(!new)>(trace: seq<F.Fills<B>>, i: nat, k: nat, j: nat, base: B, g: nat)
    requires KeptTrace(trace) && ConsistentTrace(trace) && i <= k <= j < |trace|
    requires g in trace[i].channels && trace[i].channels[g].base == base
    requires F.IsCurrent(trace[j], base, g)
    ensures F.IsCurrent(trace[k], base, g)
  {
    OutcomeIsFinal(trace, i, k, g);
    OutcomeIsFinal(trace, k, j, g);
    assert Consistent(trace[j]) && Consistent(trace[k]);
  }

  // ---------------------------------------------------------------- generation safety

  /** The step is a purge or cancellation that reaches `base`, or the own end of the fill. */
  ghost predicate Hits(s: Mem, event: Event, base: BaseKey) {
    match event
    case PurgeKeyEvent(key, _) => key.base == base
    case PurgeBaseEvent(b, _) => b == base
    case PurgeTagEvent(tag, _) => base in BasesOf(KeysWithTag(s.shelf.slots, tag))
    case CancelAllEvent => true
    case CompleteEvent(g, done) => g.base == base && done
    case AbandonEvent(g) => g.base == base && IsCurrent(s, g)
    case PublishEvent(g, _, delta) => g.base == base && delta.Some?
    case _ => false
  }

  lemma SettleEndsFlight<B(!new)>(f: F.Fills<B>, base: B, bases: set<B>, outcome: F.FillOutcome)
    requires F.FlightsOpen(f) && base in f.flights && base in bases && outcome != F.Filling
    ensures f.flights[base].generation in F.Settle(f, bases, outcome).channels
    ensures F.Settle(f, bases, outcome).channels[f.flights[base].generation].outcome == outcome
  {
  }

  /** A hit ends the flight of its base in that very step. */
  lemma HitEndsFlight(c: Config, owner: nat, s: Mem, event: Event, s': Mem, base: BaseKey)
    requires Inv(c, s) && Step(c, owner, s, event, s') && Hits(s, event, base) && base in s.fills.flights
    ensures s.fills.flights[base].generation in s'.fills.channels
    ensures s'.fills.channels[s.fills.flights[base].generation].outcome != F.Filling
  {
    match event
    case PurgeKeyEvent(key, _) => SettleEndsFlight(s.fills, base, {key.base}, F.Purged);
    case PurgeBaseEvent(b, _) => SettleEndsFlight(s.fills, base, {b}, F.Purged);
    case PurgeTagEvent(tag, _) => SettleEndsFlight(s.fills, base, BasesOf(KeysWithTag(s.shelf.slots, tag)), F.Purged);
    case CancelAllEvent => SettleEndsFlight(s.fills, base, s.fills.flights.Keys, F.Cancelled);
    case CompleteEvent(g, done) => SettleEndsFlight(s.fills, base, {g.base}, F.NotStored);
    case AbandonEvent(g) => SettleEndsFlight(s.fills, base, {g.base}, F.Cancelled);
    case PublishEvent(g, _, _) => SettleEndsFlight(s.fills, base, {g.base}, F.Kept);
    case _ =>
  }

  lemma LeaderStarts(c: Config, owner: nat, run: Run, i: nat, g: Guard)
    requires IsRun(c, owner, run) && i < |run.events|
    requires run.events[i].BeginEvent? && run.events[i].join == Leader(g)
    ensures F.IsCurrent(FillTrace(run)[i + 1], g.base, g.generation)
    ensures g.generation in FillTrace(run)[i + 1].channels
            && FillTrace(run)[i + 1].channels[g.generation].base == g.base
  {
    assert StepAt(c, owner, run, i);
  }

  lemma PublisherCurrent(c: Config, owner: nat, run: Run, j: nat)
    requires IsRun(c, owner, run) && j < |run.events|
    requires run.events[j].PublishEvent? && run.events[j].delta.Some?
    ensures F.IsCurrent(FillTrace(run)[j], run.events[j].guard.base, run.events[j].guard.generation)
  {
    assert StepAt(c, owner, run, j);
  }

  lemma HitEnds(c: Config, owner: nat, run: Run, k: nat, base: BaseKey, g: nat)
    requires Accountable(c) && IsRun(c, owner, run) && k < |run.events|
    requires Hits(run.states[k], run.events[k], base) && F.IsCurrent(FillTrace(run)[k], base, g)
    ensures g in FillTrace(run)[k + 1].channels && FillTrace(run)[k + 1].channels[g].outcome != F.Filling
  {
    InvThroughout(c, owner, run, k);
    assert StepAt(c, owner, run, k);
    hide Step, Hits, Inv;
    HitEndsFlight(c, owner, run.states[k], run.events[k], run.states[k + 1], base);
  }

  /** A leader publishes only if nothing hit its base since it became leader: no purge of
      the key, the base or a resident tag of it, no cancellation and no earlier end. */
  lemma PublishedOnlyIfUnhit(c: Config, owner: nat, run: Run, i: nat, j: nat, k: nat, g: Guard)
    requires Accountable(c) && IsRun(c, owner, run)
    requires i < k < j < |run.events|
    requires run.events[i].BeginEvent? && run.events[i].join == Leader(g)
    requires run.events[j].PublishEvent? && run.events[j].guard == g && run.events[j].delta.Some?
    ensures !Hits(run.states[k], run.events[k], g.base)
  {
    var trace := FillTrace(run);
    RunTrace(c, owner, run);
    LeaderStarts(c, owner, run, i, g);
    PublisherCurrent(c, owner, run, j);
    CurrentSinceStart(trace, i + 1, k, j, g.base, g.generation);
    if Hits(run.states[k], run.events[k], g.base) {
      HitEnds(c, owner, run, k, g.base, g.generation);
      EndedNotCurrent(trace, k + 1, j, g.base, g.generation);
    }
  }

  lemma EndedNotCurrent<B(!new)>(trace: seq<F.Fills<B>>, i: nat, j: nat, base: B, g: nat)
    requires KeptTrace(trace) && ConsistentTrace(trace) && i <= j < |trace|
    requires g in trace[i].channels && trace[i].channels[g].outcome != F.Filling
    ensures !F.IsCurrent(trace[j], base, g)
  {
    OutcomeIsFinal(trace, i, j, g);
    assert Consistent(trace[j]);
  }

  // ---------------------------------------------------------------- superseded leaders

  /** The guard an event acts through, if any. */
  function ActingGuard(event: Event): Option<Guard> {
    match event
    case PublishEvent(g, _, _) => Some(g)
    case CompleteEvent(g, _) => Some(g)
    case AbandonEvent(g) => Some(g)
    case _ => None
  }

  lemma StaleGuardInert(c: Config, owner: nat, s: Mem, event: Event, s': Mem, g: Guard)
    requires Step(c, owner, s, event, s') && ActingGuard(event) == Some(g) && !IsCurrent(s, g)
    ensures s' == s
    ensures event.PublishEvent? ==> event.delta == None
    ensures event.CompleteEvent? ==> !event.done
  {
  }

  /** Once its generation has ended, a leader can neither store, finish nor cancel anything:
      whatever it does later changes nothing, its successor's fill included. */
  lemma SupersededLeaderInert(c: Config, owner: nat, run: Run, i: nat, j: nat, g: Guard)
    requires Accountable(c) && IsRun(c, owner, run)
    requires i <= j < |run.events|
    requires g.generation in run.states[i].fills.channels
    requires run.states[i].fills.channels[g.generation].outcome != F.Filling
    requires ActingGuard(run.events[j]) == Some(g)
    ensures run.states[j + 1] == run.states[j]
    ensures run.events[j].PublishEvent? ==> run.events[j].delta == None
    ensures run.events[j].CompleteEvent? ==> !run.events[j].done
  {
    RunTrace(c, owner, run);
    EndedNotCurrent(FillTrace(run), i, j, g.base, g.generation);
    assert StepAt(c, owner, run, j);
    StaleGuardInert(c, owner, run.states[j], run.events[j], run.states[j + 1], g);
  }

  /** A step through one guard leaves every other generation's channel and flight alone. */
  lemma GuardActsOnItself(c: Config, owner: nat, s: Mem, event: Event, s': Mem, g: Guard, base: BaseKey)
    requires Inv(c, s) && Step(c, owner, s, event, s') && ActingGuard(event) == Some(g)
    requires base in s.fills.flights && s.fills.flights[base].generation != g.generation
    ensures base in s'.fills.flights && s'.fills.flights[base] == s.fills.flights[base]
  {
  }

  // ---------------------------------------------------------------- outcomes

  /** A flight leaves the map in exactly the step that sends its terminal outcome. */
  lemma LeavesWithOutcome(c: Config, owner: nat, run: Run, i: nat, base: BaseKey, g: nat)
    requires Accountable(c) && IsRun(c, owner, run) && i < |run.events|
    requires F.IsCurrent(run.states[i].fills, base, g)
    ensures g in run.states[i + 1].fills.channels
    ensures F.IsCurrent(run.states[i + 1].fills, base, g) <==> run.states[i + 1].fills.channels[g].outcome == F.Filling
  {
    RunTrace(c, owner, run);
    var trace := FillTrace(run);
    assert ChannelsKept(trace[i], trace[i + 1]) && Consistent(trace[i]) && Consistent(trace[i + 1]);
  }

  lemma OnlyPublishKeeps<B(!new)>(f: F.Fills<B>, bases: set<B>, outcome: F.FillOutcome, g: nat)
    requires g in f.channels && f.channels[g].outcome == F.Filling && outcome != F.Kept
    ensures F.Settle(f, bases, outcome).channels[g].outcome != F.Kept
  {
  }

  lemma PublishedIsThere(c: Config, s: Mem, guard: Guard, e: Entry, delta: Option<Delta>, s': Mem)
    requires Accountable(c) && EntriesInv(c, s.shelf) && SizedEntry(c, e) && Published(c, s, guard, e, delta, s')
    ensures delta.Some? ==> e.key in s'.shelf.slots && s'.shelf.slots[e.key].value == e
  {
    if delta.Some? {
      InsertKeepsEntries(c, s.shelf, e, Elements(EvictedBy(delta.value)));
    }
  }

  /** Ending one flight as stored gives only its own generation that outcome. */
  lemma KeptByItsLeader<B(!new)>(f: F.Fills<B>, base: B, g: nat)
    requires F.OpenFlies(f) && g in f.channels && f.channels[g].outcome == F.Filling
    ensures g in F.Settle(f, {base}, F.Kept).channels
    ensures F.Settle(f, {base}, F.Kept).channels[g].outcome == F.Kept ==>
              base in f.flights && f.flights[base].generation == g
  {
  }

  /** `Stored` is sent only by the step that inserted the entry, and by its own leader. */
  lemma KeptOnlyByInsertion(c: Config, owner: nat, s: Mem, event: Event, s': Mem, g: nat)
    requires Accountable(c) && Inv(c, s) && Step(c, owner, s, event, s')
    requires g in s.fills.channels && s.fills.channels[g].outcome == F.Filling
    requires g in s'.fills.channels && s'.fills.channels[g].outcome == F.Kept
    ensures event.PublishEvent? && event.guard.generation == g && event.delta.Some?
    ensures event.entry.key in s'.shelf.slots && s'.shelf.slots[event.entry.key].value == event.entry
  {
    hide S.Valid, S.Drop, S.Touch, Insert, IsDelta, Looked, F.Settle, CountersInv, Labelled, OneSchema, KeysWithTag,
         BasesOf, KeysOfBase;
    match event
    case LookupEvent(ask, matching, now, found, result) => LookupEffects(s, ask, matching, now, found, result, s');
    case PublishEvent(guard, e, delta) =>
      PublishedIsThere(c, s, guard, e, delta, s');
      KeptByItsLeader(s.fills, guard.base, g);
    case CompleteEvent(guard, done) => OnlyPublishKeeps(s.fills, {guard.base}, F.NotStored, g);
    case AbandonEvent(guard) => OnlyPublishKeeps(s.fills, {guard.base}, F.Cancelled, g);
    case PurgeKeyEvent(key, result) => OnlyPublishKeeps(s.fills, {key.base}, F.Purged, g);
    case PurgeBaseEvent(base, result) => OnlyPublishKeeps(s.fills, {base}, F.Purged, g);
    case PurgeTagEvent(tag, result) => OnlyPublishKeeps(s.fills, BasesOf(KeysWithTag(s.shelf.slots, tag)), F.Purged, g);
    case CancelAllEvent => OnlyPublishKeeps(s.fills, s.fills.flights.Keys, F.Cancelled, g);
    case _ =>
  }

  /** Leaders started equal fills in flight plus stored, cancelled, purged and completed
      without store, as long as the leader counter has not saturated. */
  lemma FillsConserved(c: Config, owner: nat, run: Run, i: nat)
    requires Accountable(c) && IsRun(c, owner, run) && i <= |run.events|
    requires run.states[i].stats.fillLeaders < U64_MAX
    ensures var s := run.states[i];
            s.stats.fillLeaders == |s.fills.flights| + s.stats.stores + s.stats.fillCancelled
              + |F.Ended(s.fills, F.NotStored)|
  {
    InvThroughout(c, owner, run, i);
    F.Conserved(run.states[i].fills, c.maxInFlight, c.maxFollowersPerFill);
  }

  // ---------------------------------------------------------------- what is served

  function InsertedBy(event: Event): Option<Entry> {
    match event
    case PublishEvent(_, e, delta) => if delta.Some? then Some(e) else None
    case RestoreEvent(e, delta) => if delta.Some? then Some(e) else None
    case _ => None
  }

  lemma InsertProvenance(c: Config, s: Store, e: Entry, delta: Delta, k: CacheKey)
    requires Accountable(c) && EntriesInv(c, s) && SizedEntry(c, e) && IsDelta(c, s.slots, e, delta)
    requires k in Insert(s, e, Elements(EvictedBy(delta))).slots
    ensures var after := Insert(s, e, Elements(EvictedBy(delta))).slots;
            (k in s.slots && after[k].value == s.slots[k].value) || after[k].value == e
  {
    InsertKeepsEntries(c, s, e, Elements(EvictedBy(delta)));
  }

  lemma EffectProvenance(c: Config, s: Store, found: Option<CacheKey>, result: LookupResult, s': Store, k: CacheKey)
    requires Accountable(c) && EntriesInv(c, s) && LookupEffect(s, found, result, s') && k in s'.slots
    ensures k in s.slots && s'.slots[k].value == s.slots[k].value
  {
    if s' != s && !result.Miss? {
      S.TouchKeepsValid(s, found.value, LimitsOf(c));
    }
  }

  lemma TouchProvenance(c: Config, s: Store, key: CacheKey, k: CacheKey)
    requires Accountable(c) && EntriesInv(c, s) && key in s.slots
    ensures k in S.Touch(s, key).slots ==> k in s.slots && S.Touch(s, key).slots[k].value == s.slots[k].value
  {
    S.TouchKeepsValid(s, key, LimitsOf(c));
  }

  /** No step changes a resident entry or brings one in except by inserting it. */
  lemma StepProvenance(c: Config, owner: nat, s: Mem, event: Event, s': Mem, k: CacheKey)
    requires Accountable(c) && Inv(c, s) && Step(c, owner, s, event, s') && k in s'.shelf.slots
    ensures (k in s.shelf.slots && s'.shelf.slots[k].value == s.shelf.slots[k].value)
         || InsertedBy(event) == Some(s'.shelf.slots[k].value)
  {
    hide S.Valid, IsDelta, S.MovedToFront, Insert, LookupEffect, LookedUnder, F.Settle, S.Tick;
    match event
    case LookupEvent(ask, matching, now, found, result) =>
      LookupEffects(s, ask, matching, now, found, result, s');
      EffectProvenance(c, s.shelf, found, result, s'.shelf, k);
    case ErrorEvent(key, now, response) =>
      if response.Some? {
        TouchProvenance(c, s.shelf, key, k);
      }
    case PublishEvent(g, e, delta) =>
      if delta.Some? {
        InsertProvenance(c, s.shelf, e, delta.value, k);
      }
    case RestoreEvent(e, delta) => InsertProvenance(c, s.shelf, e, delta.value, k);
    case _ =>
  }

  ghost predicate WasInserted(run: Run, j: nat, e: Entry)
    requires j <= |run.events|
  {
    exists i :: 0 <= i < j && InsertedBy(run.events[i]) == Some(e)
  }

  /** Every resident entry is, unchanged, one that a current leader published or recovery
      restored earlier in the run. */
  lemma {:induction false} ResidentsWereInserted(c: Config, owner: nat, run: Run, j: nat, k: CacheKey)
    requires Accountable(c) && IsRun(c, owner, run) && j <= |run.events|
    requires k in run.states[j].shelf.slots
    ensures WasInserted(run, j, run.states[j].shelf.slots[k].value)
  {
    hide Step, Inv;
    if j > 0 {
      var s, s' := run.states[j - 1].shelf, run.states[j].shelf;
      InvThroughout(c, owner, run, j - 1);
      assert StepAt(c, owner, run, j - 1);
      StepProvenance(c, owner, run.states[j - 1], run.events[j - 1], run.states[j], k);
      if InsertedBy(run.events[j - 1]) != Some(s'.slots[k].value) {
        ResidentsWereInserted(c, owner, run, j - 1, k);
        var i :| 0 <= i < j - 1 && InsertedBy(run.events[i]) == Some(s.slots[k].value);
      }
    }
  }

  /** What may be answered from storage, in the terms of section 4.2 of RFC 9111 and
      sections 3 and 4 of RFC 5861. */
  predicate MayServe(q: RequestPolicy, p: ResponsePolicy, v: Verdict, age: Duration) {
    && q.mode == Lookup && YoungEnough(q, age) && !p.alwaysRevalidate && !v.MustRevalidate?
    && (v.Fresh? ==> age <= p.lifetime && FreshEnough(q, p, age))
    && (v.Stale? || v.StaleWhileRevalidate? ==> p.lifetime < age && q.minFresh == 0 && !p.mustRevalidateStale)
    && (v.Stale? ==> TakesStale(q, p, age))
    && (v.StaleWhileRevalidate? ==> age <= p.lifetime + p.staleWhileRevalidate)
    && (p.retention.Canonical? ==> age <= p.lifetime + p.retention.keep)
  }

  /** Over every run, an answer given without asking the origin repeats an inserted entry at its
      present age, and is fresh or stale within the allowed window. */
  lemma HitsAreSafe(c: Config, owner: nat, run: Run, i: nat)
    requires Accountable(c) && IsRun(c, owner, run) && i < |run.events|
    requires run.events[i].LookupEvent? && run.events[i].ask.AskFor?
    requires run.events[i].result.Hit?
    ensures var ev := run.events[i];
            var slots := run.states[i].shelf.slots;
            && ev.result.response.key in slots
            && var e := slots[ev.result.response.key].value;
            && WasInserted(run, i, e)
            && Repeats(ev.result.response, e, AgeAt(e, ev.now))
            && MayServe(ev.ask.policy, e.policy, ev.result.verdict, AgeAt(e, ev.now))
  {
    hide Repeats;
    var ev, s := run.events[i], run.states[i];
    InvThroughout(c, owner, run, i);
    assert StepAt(c, owner, run, i);
    LookupEffects(s, ev.ask, ev.matching, ev.now, ev.found, ev.result, run.states[i + 1]);
    ResidentsWereInserted(c, owner, run, i, ev.result.response.key);
    HitIsSafe(s, ev.ask.base, ev.ask.policy, ev.matching, ev.now, ev.found, ev.result, run.states[i + 1]);
  }

  lemma HitIsSafe(s: Mem, base: BaseKey, q: RequestPolicy, matching: set<CacheKey>, now: Duration,
                  found: Option<CacheKey>, result: LookupResult, s': Mem)
    requires LookedUnder(s, base, q, matching, now, found, result, s') && result.Hit? && q.mode != Bypass
    ensures found.Some? && found.value in s.shelf.slots
    ensures var e := s.shelf.slots[found.value].value;
            && Repeats(result.response, e, AgeAt(e, now))
            && MayServe(q, e.policy, result.verdict, AgeAt(e, now))
  {
    hide Repeats, Snapshot;
    var e := s.shelf.slots[found.value].value;
    JudgeIsSafe(q, e.policy, AgeAt(e, now));
    WindowsAreExact(e.policy, AgeAt(e, now));
    SnapshotRepeats(e, AgeAt(e, now));
  }

  /** An answer on an upstream error repeats an inserted entry that may be used stale, within
      its error window; under a canonical timeline never past the keep window. */
  lemma ErrorAnswersAreSafe(c: Config, owner: nat, run: Run, i: nat)
    requires Accountable(c) && IsRun(c, owner, run) && i < |run.events| && run.events[i].ErrorEvent?
             && run.events[i].response.Some?
    ensures var ev := run.events[i];
            && ev.key in run.states[i].shelf.slots
            && var e := run.states[i].shelf.slots[ev.key].value;
               var age := AgeAt(e, ev.now);
            && WasInserted(run, i, e) && Repeats(ev.response.value, e, age)
            && !e.policy.mustRevalidateStale && age <= e.policy.lifetime + e.policy.staleIfError
            && (e.policy.retention.Canonical? && CanonicalWindows(e.policy) ==>
                  age <= e.policy.lifetime + e.policy.retention.keep)
  {
    hide Repeats, Snapshot;
    assert StepAt(c, owner, run, i);
    var ev := run.events[i];
    ResidentsWereInserted(c, owner, run, i, ev.key);
    var e := run.states[i].shelf.slots[ev.key].value;
    SnapshotRepeats(e, AgeAt(e, ev.now));
    WindowsAreExact(e.policy, AgeAt(e, ev.now));
    if e.policy.retention.Canonical? && CanonicalWindows(e.policy) {
      CanonicalNeverPastKeep(e.policy, AgeAt(e, ev.now));
    }
  }
}
