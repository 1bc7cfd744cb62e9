/** The lives of entries across touches, restarts and crashes: where each came from, when its
    record was last written, and how old it therefore is. */
module Lifetimes {
  import opened Prelude
  import opened Keys
  import opened Policy
  import opened Entries
  import opened Prepare
  import opened Lru
  import opened Codec
  import opened Records
  import opened RecordFacts
  import opened Directory
  import opened DiskIndex
  import opened CacheModel
  import opened Lookups
  import opened Replies
  import opened DiskWorld
  import opened Restart
  import opened Staleness
  import D = DiskCache

  // ---------------------------------------------------------------- lives

  /** A restart: the moment, on both clocks, and the cache that came to be. */
  datatype Back = Back(at: Duration, wall: WallTime, owner: nat)

  /** The life of an entry: the exchange and the entry made from it, its stays on disk up to the
      last writing of its record, the moment of that writing, and the restart since, if any. */
  datatype Life = Life(exchange: Exchange, origin: Entry, stays: seq<Stay>, at: Duration, wall: WallTime,
                       back: Option<Back>)

  /** All stays, the last restart included. */
  function AllStays(l: Life): seq<Stay> {
    if l.back.None? then l.stays
    else l.stays + [Stay(l.at, l.wall, l.back.value.at, l.back.value.wall, l.back.value.owner)]
  }

  /** The entry the record was written from. */
  function Wrote(l: Life): Entry {
    AfterStays(l.origin, l.stays)
  }

  /** The entry as it is now. */
  function Present(l: Life): Entry {
    AfterStays(l.origin, AllStays(l))
  }

  type Lives = map<CacheKey, Life>

  /** What an operation does to the lives. */
  datatype Deed =
    | Nothing
    | Touch(key: CacheKey, now: Duration, wall: WallTime)
    | Write(exchange: Exchange, entry: Entry, now: Duration, wall: WallTime)
    | Return(owner: nat, now: Duration, wall: WallTime)

  function Touched(l: Life, now: Duration, wall: WallTime): Life {
    Life(l.exchange, l.origin, AllStays(l), now, wall, None)
  }

  function Returned(l: Life, owner: nat, now: Duration, wall: WallTime): Life {
    l.(back := Some(Back(now, wall, owner)))
  }

  function Advance(lives: Lives, deed: Deed): Lives {
    match deed
    case Nothing => lives
    case Touch(k, now, wall) => if k in lives then lives[k := Touched(lives[k], now, wall)] else lives
    case Write(x, e, now, wall) => lives[e.key := Life(x, e, [], now, wall, None)]
    case Return(owner, now, wall) => map k | k in lives :: Returned(lives[k], owner, now, wall)
  }

  /** The lives after a log of deeds. */
  function LivesAfter(log: seq<Deed>): Lives {
    if log == [] then map[] else Advance(LivesAfter(log[..|log| - 1]), log[|log| - 1])
  }

  // ---------------------------------------------------------------- ages

  /** The age at `now`: that of the response when it arrived, plus all time resident and all
      time on disk since, in exact integers and capped once. */
  function GrownAge(l: Life, now: Duration): Duration {
    Min(l.origin.policy.initialAge + TimeAway(l.origin.received, AllStays(l))
        + Minus(now, LastReceived(l.origin.received, AllStays(l))), DURATION_MAX)
  }

  lemma PresentAge(l: Life, now: Duration)
    ensures AgeAt(Present(l), now) == GrownAge(l, now)
  {
    hide AfterStays, TimeAway;
    AgeContinues(l.origin, AllStays(l), now);
  }

  /** The age is the age last written plus the time since: on the wall clock up to the restart
      and on the monotonic clock otherwise. So it never drops below the age last written. */
  lemma AgeSinceWriting(l: Life, now: Duration)
    ensures l.back.Some? ==>
              AgeAt(Present(l), now) == Plus(Plus(AgeAt(Wrote(l), l.at), WallSince(l.back.value.wall, l.wall)),
                                             Minus(now, l.back.value.at))
    ensures l.back.None? && l.at <= now && Wrote(l).received <= l.at ==>
              AgeAt(Present(l), now) == Plus(AgeAt(Wrote(l), l.at), now - l.at)
    ensures l.back.Some? || l.at <= now ==> AgeAt(Present(l), now) >= AgeAt(Wrote(l), l.at)
  {
    hide AfterStays;
    if l.back.Some? {
      OneMoreStay(l.origin, l.stays, AllStays(l)[|l.stays|]);
    }
  }

  lemma OneMoreStay(e: Entry, stays: seq<Stay>, stay: Stay)
    ensures AfterStays(e, stays + [stay]) == AfterStay(AfterStays(e, stays), stay)
  {
    assert (stays + [stay])[..|stays|] == stays;
  }

  /** Stays change nothing but the age, the moment of arrival and the owner. */
  lemma {:induction false} StaysKeep(e: Entry, stays: seq<Stay>)
    ensures SameRepresentation(AfterStays(e, stays), e)
  {
    if stays != [] {
      var front := stays[..|stays| - 1];
      StaysKeep(e, front);
      StayKeeps(AfterStays(e, front), stays[|stays| - 1]);
    }
  }

  lemma StayKeeps(e: Entry, stay: Stay)
    ensures SameRepresentation(AfterStay(e, stay), e)
  {
  }

  lemma StayIsMoved(e: Entry, stay: Stay)
    ensures AfterStay(e, stay) == Moved(e, stay.owner, stay.encodedAt, stay.encodedWall, stay.restartedAt,
                                        stay.restartedWall)
  {
  }

  // ---------------------------------------------------------------- lives and records

  /** The record was written at the last moment of this life, and the life began with an
      exchange. */
  ghost predicate Traced(c: DiskConfig, crc: Bytes -> U32, files: map<nat, File>, slot: Slot<RecordInfo<Bytes>>,
                         l: Life) {
    MadeFrom(c.memory, l.exchange, l.origin) && WrittenFrom(c, crc, files, slot, Writing(Wrote(l), l.at, l.wall))
  }

  ghost predicate TracedAll(c: DiskConfig, crc: Bytes -> U32, files: map<nat, File>, d: Table, lives: Lives) {
    forall k :: k in d ==> k in lives && Traced(c, crc, files, d[k], lives[k])
  }

  /** Every resident entry is the present one of its life. */
  ghost predicate PresentAll(m: Slots, lives: Lives) {
    forall k :: k in m ==> k in lives && m[k].value == Present(lives[k])
  }

  /** The lives are those of the cache's entries and records. */
  ghost predicate Chronicled(c: DiskConfig, crc: Bytes -> U32, files: map<nat, File>, m: Slots, d: Table,
                             lives: Lives) {
    m.Keys == d.Keys && TracedAll(c, crc, files, d, lives) && PresentAll(m, lives)
  }

  lemma TracedLater(c: DiskConfig, crc: Bytes -> U32, earlier: map<nat, File>, files: map<nat, File>, d: Table,
                    lives: Lives, k: CacheKey)
    requires TracedAll(c, crc, earlier, d, lives) && Sub(earlier, files) && k in d
    ensures k in lives && Traced(c, crc, files, d[k], lives[k])
  {
    hide MadeFrom, Wrote, Encode, Bounded;
    assert Traced(c, crc, earlier, d[k], lives[k]);
  }

  /** The lives after a touch of this key, if any. */
  function AfterTouch(lives: Lives, touched: Option<CacheKey>, now: Duration, wall: WallTime): Lives {
    Advance(lives, if touched.Some? then Touch(touched.value, now, wall) else Nothing)
  }

  lemma TouchKeepsLives(c: DiskConfig, crc: Bytes -> U32, earlier: map<nat, File>, files: map<nat, File>, now: Duration,
                        wall: WallTime,
                        touched: Option<CacheKey>, d: Table, m: Slots, d': Table, m': Slots, lives: Lives)
    requires Chronicled(c, crc, earlier, m, d, lives) && Sub(earlier, files) && m'.Keys == d'.Keys
    requires Renewed(c, crc, files, now, wall, touched, d, m, d', m')
    ensures Chronicled(c, crc, files, m', d', AfterTouch(lives, touched, now, wall))
  {
    hide RenewedAt, Traced, Present, Sub, AfterTouch;
    forall k | k in d'
      ensures var after := AfterTouch(lives, touched, now, wall);
              k in after && Traced(c, crc, files, d'[k], after[k]) && m'[k].value == Present(after[k])
    {
      assert RenewedAt(c, crc, files, now, wall, touched, d, m, d', m', k);
      RenewedThere(c, crc, files, now, wall, touched, d, m, d', m', k);
      TracedLater(c, crc, earlier, files, d, lives, k);
      TouchKeepsLife(c, crc, files, now, wall, touched, d, m, d', m', lives, k);
    }
  }

  lemma RenewedThere(c: DiskConfig, crc: Bytes -> U32, files: map<nat, File>, now: Duration, wall: WallTime,
                     touched: Option<CacheKey>, d: Table, m: Slots, d': Table, m': Slots, k: CacheKey)
    requires k in d' && k in m' && RenewedAt(c, crc, files, now, wall, touched, d, m, d', m', k)
    ensures k in d && k in m
  {
    hide WrittenFrom;
  }

  lemma TouchKeepsLife(c: DiskConfig, crc: Bytes -> U32, files: map<nat, File>, now: Duration, wall: WallTime,
                       touched: Option<CacheKey>, d: Table, m: Slots, d': Table, m': Slots, lives: Lives, k: CacheKey)
    requires k in d && k in m && k in d' && k in m' && RenewedAt(c, crc, files, now, wall, touched, d, m, d', m', k)
    requires k in lives && Traced(c, crc, files, d[k], lives[k]) && m[k].value == Present(lives[k])
    ensures var after := AfterTouch(lives, touched, now, wall);
            k in after && Traced(c, crc, files, d'[k], after[k]) && m'[k].value == Present(after[k])
  {
    hide MadeFrom, AfterStays, WrittenFrom;
  }

  lemma StoreKeepsLives(c: DiskConfig, crc: Bytes -> U32, earlier: map<nat, File>, files: map<nat, File>, now: Duration,
                        wall: WallTime,
                        x: Exchange, e: Entry, d: Table, middle: Table, d': Table, count: nat, m: Slots, m': Slots,
                        lives: Lives)
    requires Chronicled(c, crc, earlier, m, d, lives) && Sub(earlier, files) && m'.Keys == d'.Keys
    requires D.Replaced(c, d, middle, d', e.key, count) && SameOthers(m, m', e.key) && m'[e.key].value == e
    requires MadeFrom(c.memory, x, e) && WrittenFrom(c, crc, files, middle[e.key], Writing(e, now, wall))
    ensures Chronicled(c, crc, files, m', d', Advance(lives, Write(x, e, now, wall)))
  {
    hide MadeFrom, WrittenFrom, Traced, Present, Sub, D.Replaced, SameOthers, Advance;
    forall k | k in d'
      ensures var after := Advance(lives, Write(x, e, now, wall));
              k in after && Traced(c, crc, files, d'[k], after[k]) && m'[k].value == Present(after[k])
    {
      StoredOrOld(c, d, middle, d', e.key, count, m, m', k);
      if k == e.key {
        StoredLife(c, crc, files, now, wall, x, e, d'[k], lives);
      } else {
        TracedLater(c, crc, earlier, files, d, lives, k);
        OtherLife(lives, x, e, now, wall, k);
      }
    }
  }

  lemma StoredOrOld(c: DiskConfig, d: Table, middle: Table, d': Table, key: CacheKey, count: nat, m: Slots, m': Slots,
                    k: CacheKey)
    requires D.Replaced(c, d, middle, d', key, count) && SameOthers(m, m', key) && k in d' && k in m'
    ensures k == key ==> k in middle && d'[k] == middle[k]
    ensures k != key ==> k in d && k in m && d'[k] == d[k] && m'[k].value == m[k].value
  {
    hide Weight;
    assert k != key ==> k in middle - {key};
  }

  lemma StoredLife(c: DiskConfig, crc: Bytes -> U32, files: map<nat, File>, now: Duration, wall: WallTime, x: Exchange,
                   e: Entry,
                   slot: Slot<RecordInfo<Bytes>>, lives: Lives)
    requires MadeFrom(c.memory, x, e) && WrittenFrom(c, crc, files, slot, Writing(e, now, wall))
    ensures var after := Advance(lives, Write(x, e, now, wall));
            e.key in after && Traced(c, crc, files, slot, after[e.key]) && Present(after[e.key]) == e
  {
    hide MadeFrom, WrittenFrom;
    NoStays(e);
  }

  lemma OtherLife(lives: Lives, x: Exchange, e: Entry, now: Duration, wall: WallTime, k: CacheKey)
    requires k in lives && k != e.key
    ensures var after := Advance(lives, Write(x, e, now, wall)); k in after && after[k] == lives[k]
  {
  }

  lemma NoStays(e: Entry)
    ensures AfterStays(e, []) == e
  {
  }

  /** Whatever part of the recorded entries is found again, in whatever way the cache went down:
      their lives go on. */
  lemma ReturnKeepsLives(c: DiskConfig, crc: Bytes -> U32, files: map<nat, File>, d: Table, kept: Table, m': Slots,
                         owner: nat, now: Duration, wall: WallTime, lives: Lives)
    requires TracedAll(c, crc, files, d, lives) && Sub(kept, d) && m'.Keys == kept.Keys
    requires Continues(c, crc, files, kept, owner, now, wall, m')
    ensures Chronicled(c, crc, files, m', kept, Advance(lives, Return(owner, now, wall)))
  {
    hide MadeFrom, AfterStays, WrittenFrom, Moved;
    forall k | k in kept
      ensures var after := Advance(lives, Return(owner, now, wall));
              Traced(c, crc, files, kept[k], after[k]) && m'[k].value == Present(after[k])
    {
      var l := lives[k];
      var stay := Stay(l.at, l.wall, now, wall, owner);
      assert Traced(c, crc, files, d[k], l);
      StayIsMoved(Wrote(l), stay);
      OneMoreStay(l.origin, l.stays, stay);
    }
  }

  /** A removal changes no life. */
  lemma RemovalKeepsLives(c: DiskConfig, crc: Bytes -> U32, earlier: map<nat, File>, files: map<nat, File>,
                          d: Table, m: Slots, gone: set<CacheKey>, lives: Lives)
    requires Chronicled(c, crc, earlier, m, d, lives) && Sub(earlier, files)
    ensures Chronicled(c, crc, files, m - gone, d - gone, lives)
  {
    hide Traced, Present, Sub;
    forall k | k in d - gone
      ensures k in lives && Traced(c, crc, files, d[k], lives[k])
    {
      TracedLater(c, crc, earlier, files, d, lives, k);
    }
  }

  // ---------------------------------------------------------------- answers

  lemma LifeHolds(c: Config, l: Life)
    requires MadeFrom(c, l.exchange, l.origin)
    ensures Holds(c, l.exchange, Present(l))
  {
    hide MadeFrom, SameRepresentation, AfterStays, Holds;
    StaysKeep(l.origin, AllStays(l));
    ComesHolds(c, l.exchange, Present(l));
  }

  /** Something handed out from storage. */
  datatype Given =
    | FromLookup(request: Request, result: LookupResult, at: Duration)
    | OnError(response: Response, at: Duration)

  /** What is handed out is the response of this life's exchange, at its true age, and safe by what
      the exchange says; a request is answered only from an exchange that applies to it, and
      without the origin only as the request allows. */
  ghost predicate Justifies(c: Config, l: Life, g: Given) {
    && MadeFrom(c, l.exchange, l.origin) && Holds(c, l.exchange, Present(l))
    && l.exchange.response.control.Some? && l.exchange.response.dates.Some?
    && l.origin.policy.initialAge == AgeOf(l.exchange, l.origin.received)
    && var e, age := Present(l), GrownAge(l, g.at);
       match g
       case FromLookup(request, result, _) =>
         && Applies(l.exchange, request.input)
         && Evaluate(c, request).AskFor? && SafeAnswer(l.exchange, Evaluate(c, request).policy, e, result, age)
         && (result.Hit? ==> Obeys(request, e.policy, result.verdict, age))
       case OnError(response, _) => SafeOnError(l.exchange, e, response, age)
  }

  /** A lookup of a chronicled cache hands out only what the life of the found entry justifies. */
  lemma LookupIsJustified(c: Config, l: Life, s: Mem, request: Request, now: Duration, found: Option<CacheKey>,
                          result: LookupResult, s': Mem)
    requires Inv(c, s) && Answers(result) && Evaluate(c, request).AskFor?
    requires var ask := Evaluate(c, request);
             && ask.policy.mode != Bypass
             && LookedUnder(s, ask.base, ask.policy, Matching(c, s.shelf.slots, ask, request.input.headers), now, found,
                            result, s')
    requires found.Some? && found.value in s.shelf.slots && s.shelf.slots[found.value].value == Present(l)
    requires MadeFrom(c, l.exchange, l.origin)
    ensures Justifies(c, l, FromLookup(request, result, now))
  {
    hide MadeFrom, AfterStays, Holds, SafeAnswer, LookedUnder, TimeAway, Inv, Evaluate, Matching, Applies, Obeys;
    LifeHolds(c, l);
    var ask := Evaluate(c, request);
    var matching := Matching(c, s.shelf.slots, ask, request.input.headers);
    LookupHonours(c, l.exchange, s, ask.base, ask.policy, matching, now, found, result, s');
    AnswerApplies(c, l.exchange, s, LookupEvent(ask, matching, now, found, result), request, s');
    PresentAge(l, now);
    OriginAge(c, l);
  }

  lemma OriginAge(c: Config, l: Life)
    requires MadeFrom(c, l.exchange, l.origin)
    ensures l.exchange.response.control.Some? && l.exchange.response.dates.Some?
    ensures l.origin.policy.initialAge == AgeOf(l.exchange, l.origin.received)
  {
    hide MadeFrom, CurrentAge, Reflects, MayKeep, StatusKept;
    MadeHonours(c, l.exchange, l.origin);
    assert AgeAt(l.origin, l.origin.received) == AgeOf(l.exchange, l.origin.received);
  }

  lemma ErrorIsJustified(c: Config, l: Life, response: Response, now: Duration)
    requires MadeFrom(c, l.exchange, l.origin) && ServesOnError(Present(l).policy, AgeAt(Present(l), now))
    requires response == Snapshot(Present(l), AgeAt(Present(l), now))
    ensures Justifies(c, l, OnError(response, now))
  {
    hide MadeFrom, AfterStays, Holds, SafeOnError, ServesOnError, TimeAway, Snapshot;
    LifeHolds(c, l);
    PresentAge(l, now);
    OriginAge(c, l);
    ErrorHonours(c, l.exchange, Present(l), AgeAt(Present(l), now));
  }
}
