/** Freshness and staleness (`policy.rs`): ages, directives, response policies and the
    verdict a lookup reaches about one resident entry. */
module Policy {
  import opened Prelude
  import opened Http
  import Identity

  // ---------------------------------------------------------------- durations

  const NANOS: nat := 1_000_000_000
  const DURATION_MAX: nat := U64_MAX * NANOS + 999_999_999

  /** `std::time::Duration` in nanoseconds; monotonic instants are durations too. */
  type Duration = d: int | 0 <= d <= DURATION_MAX

  /** The last wall-clock instant `SystemTime` can express, with its 64-bit signed seconds. */
  const WALL_MAX: nat := 0x7FFF_FFFF_FFFF_FFFF * NANOS + 999_999_999

  /** Wall-clock instants since the Unix epoch. */
  type WallTime = d: Duration | d <= WALL_MAX

  /** Wall-clock instants, in nanoseconds relative to the Unix epoch. */
  type SystemTime = int

  /** `Duration::saturating_add`. */
  function Plus(a: Duration, b: Duration): Duration {
    Min(a + b, DURATION_MAX)
  }

  /** `Duration::saturating_sub` and `MonoTime::saturating_duration_since`. */
  function Minus(a: Duration, b: Duration): Duration {
    SatSub(a, b)
  }

  /** `SystemTime::duration_since(..).unwrap_or_default()`. */
  function WallSince(later: SystemTime, earlier: SystemTime): Duration {
    if later <= earlier then 0 else Min(later - earlier, DURATION_MAX)
  }

  // ---------------------------------------------------------------- age

  datatype Timing = Timing(requestStarted: Duration, responseReceived: Duration, receivedWall: SystemTime)

  /** `current_age`. */
  function CurrentAge(date: Option<SystemTime>, ageValue: Duration, timing: Timing, now: Duration): Duration {
    var apparent: Duration := if date.None? then 0 else WallSince(timing.receivedWall, date.value);
    var delay := Minus(timing.responseReceived, timing.requestStarted);
    var corrected := Plus(ageValue, delay);
    var initial: Duration := Max(apparent, corrected);
    Plus(initial, Minus(now, timing.responseReceived))
  }

  /** The age of section 4.2.3 of RFC 9111 in exact integers. */
  function RfcAge(date: Option<SystemTime>, ageValue: Duration, timing: Timing, now: Duration): nat
    requires timing.requestStarted <= timing.responseReceived <= now
  {
    var apparentAge: nat := if date.None? || timing.receivedWall <= date.value then 0
                            else timing.receivedWall - date.value;
    var responseDelay := timing.responseReceived - timing.requestStarted;
    var correctedAgeValue := ageValue + responseDelay;
    var correctedInitialAge := Max(apparentAge, correctedAgeValue);
    var residentTime := now - timing.responseReceived;
    correctedInitialAge + residentTime
  }

  /** Four saturating steps lose nothing but the excess over the largest duration. */
  lemma CurrentAgeIsRfcAge(date: Option<SystemTime>, ageValue: Duration, timing: Timing, now: Duration)
    requires timing.requestStarted <= timing.responseReceived <= now
    ensures CurrentAge(date, ageValue, timing, now) == Min(RfcAge(date, ageValue, timing, now), DURATION_MAX)
  {
  }

  /** The age a resident entry has at `now`, as `lookup` and `encode_record` compute it. */
  function ResidentAge(initialAge: Duration, received: Duration, now: Duration): Duration {
    Plus(initialAge, Minus(now, received))
  }

  /** Freezing the age at arrival and adding residence afterwards is the age recomputed
      from the original headers and timing. */
  lemma ResidentAgeIsCurrentAge(date: Option<SystemTime>, ageValue: Duration, timing: Timing, now: Duration)
    ensures ResidentAge(CurrentAge(date, ageValue, timing, timing.responseReceived), timing.responseReceived, now)
         == CurrentAge(date, ageValue, timing, now)
  {
  }

  // ---------------------------------------------------------------- directives

  datatype CacheControl = CacheControl(
    noStore: bool, private_: bool, noCache: bool, mustRevalidate: bool, proxyRevalidate: bool,
    public_: bool, onlyIfCached: bool, immutable: bool,
    maxAge: Option<Duration>, sharedMaxAge: Option<Duration>, minFresh: Option<Duration>,
    maxStale: Option<Option<Duration>>, staleWhileRevalidate: Option<Duration>, staleIfError: Option<Duration>)

  datatype RequestMode = Lookup | Revalidate | Bypass

  datatype RequestPolicy = RequestPolicy(
    mode: RequestMode, onlyIfCached: bool, maxAge: Option<Duration>, minFresh: Duration,
    maxStale: Option<Option<Duration>>)

  function OrZero(d: Option<Duration>): Duration {
    if d.Some? then d.value else 0
  }

  const CONDITIONS: seq<Bytes> := [
    Ascii("if-match"), Ascii("if-none-match"), Ascii("if-modified-since"),
    Ascii("if-unmodified-since"), Ascii("if-range")]

  /** `ascii_list_contains`. */
  predicate ListContains(value: Bytes, item: Bytes) {
    Identity.HasItem(Identity.SplitCommas(value), item)
  }

  predicate PragmaNoCache(headers: Headers) {
    !HasHeader(headers, Ascii("cache-control")) &&
    var lines := ValuesOf(headers, Ascii("pragma"));
    exists i :: 0 <= i < |lines| && ListContains(lines[i], Ascii("no-cache"))
  }

  predicate HasBody(headers: Headers) {
    || HasHeader(headers, Ascii("transfer-encoding"))
    || OtherThan(ValuesOf(headers, Ascii("content-length")), Ascii("0"))
  }

  predicate OtherThan(lines: seq<Bytes>, value: Bytes) {
    exists i :: 0 <= i < |lines| && lines[i] != value
  }

  predicate IsConditional(headers: Headers) {
    exists i :: 0 <= i < |CONDITIONS| && HasHeader(headers, CONDITIONS[i])
  }

  /** `RequestPolicy::evaluate`, given the parsed `Cache-Control` of the request. */
  function EvaluateRequest(verb: Bytes, headers: Headers, control: CacheControl): RequestPolicy {
    var bypass := (verb != GET && verb != HEAD) || HasHeader(headers, Ascii("range")) || HasBody(headers)
                  || IsConditional(headers) || control.noStore;
    var mode :=
      if bypass then Bypass
      else if control.noCache || control.maxAge == Some(0) || PragmaNoCache(headers) then Revalidate
      else Lookup;
    RequestPolicy(mode, control.onlyIfCached, control.maxAge, OrZero(control.minFresh), control.maxStale)
  }

  /** The request is of no concern to the cache: another method, a part, a body, a condition of
      its own, or a wish to leave no trace. */
  predicate GoesAround(verb: Bytes, headers: Headers, control: CacheControl) {
    || (verb != Ascii("GET") && verb != Ascii("HEAD"))
    || ValuesOf(headers, Ascii("range")) != []
    || ValuesOf(headers, Ascii("transfer-encoding")) != []
    || !AllAre(ValuesOf(headers, Ascii("content-length")), Ascii("0"))
    || ValuesOf(headers, Ascii("if-match")) != [] || ValuesOf(headers, Ascii("if-none-match")) != []
    || ValuesOf(headers, Ascii("if-modified-since")) != [] || ValuesOf(headers, Ascii("if-unmodified-since")) != []
    || ValuesOf(headers, Ascii("if-range")) != []
    || control.noStore
  }

  predicate AllAre(lines: seq<Bytes>, value: Bytes) {
    forall line :: line in lines ==> line == value
  }

  /** The request wants the origin asked: no-cache, max-age=0, or the older `Pragma: no-cache`
      where there is no `Cache-Control`. */
  ghost predicate AsksOrigin(headers: Headers, control: CacheControl) {
    || control.noCache
    || control.maxAge == Some(0)
    || (ValuesOf(headers, Ascii("cache-control")) == []
        && Identity.ListedIn(ValuesOf(headers, Ascii("pragma")), Ascii("no-cache")))
  }

  /** The policy of a request in terms of its method, fields and directives. */
  lemma RequestModes(verb: Bytes, headers: Headers, control: CacheControl)
    ensures var q := EvaluateRequest(verb, headers, control);
            && (q.mode == Bypass <==> GoesAround(verb, headers, control))
            && (q.mode == Revalidate <==> !GoesAround(verb, headers, control) && AsksOrigin(headers, control))
            && q.onlyIfCached == control.onlyIfCached && q.maxAge == control.maxAge && q.maxStale == control.maxStale
            && q.minFresh == if control.minFresh.Some? then control.minFresh.value else 0
  {
    PragmaIff(headers);
    HasHeaderIff(headers, Ascii("range"));
    ConditionalIff(headers);
    BodyIff(headers);
  }

  lemma ConditionalIff(headers: Headers)
    ensures IsConditional(headers) <==>
              || ValuesOf(headers, Ascii("if-match")) != [] || ValuesOf(headers, Ascii("if-none-match")) != []
              || ValuesOf(headers, Ascii("if-modified-since")) != []
              || ValuesOf(headers, Ascii("if-unmodified-since")) != []
              || ValuesOf(headers, Ascii("if-range")) != []
  {
    hide Ascii, ValuesOf, HasHeader;
    HasHeaderIff(headers, Ascii("if-match"));
    HasHeaderIff(headers, Ascii("if-none-match"));
    HasHeaderIff(headers, Ascii("if-modified-since"));
    HasHeaderIff(headers, Ascii("if-unmodified-since"));
    HasHeaderIff(headers, Ascii("if-range"));
    assert CONDITIONS[0] == Ascii("if-match") && CONDITIONS[1] == Ascii("if-none-match")
           && CONDITIONS[2] == Ascii("if-modified-since") && CONDITIONS[3] == Ascii("if-unmodified-since")
           && CONDITIONS[4] == Ascii("if-range");
  }

  lemma BodyIff(headers: Headers)
    ensures HasBody(headers) <==>
              || ValuesOf(headers, Ascii("transfer-encoding")) != []
              || !AllAre(ValuesOf(headers, Ascii("content-length")), Ascii("0"))
  {
    hide AllAre, OtherThan;
    HasHeaderIff(headers, Ascii("transfer-encoding"));
    AllAreIff(ValuesOf(headers, Ascii("content-length")), Ascii("0"));
  }

  lemma AllAreIff(lines: seq<Bytes>, value: Bytes)
    ensures OtherThan(lines, value) <==> !AllAre(lines, value)
  {
    if OtherThan(lines, value) {
      var i :| 0 <= i < |lines| && lines[i] != value;
      assert lines[i] in lines;
    }
  }

  lemma PragmaIff(headers: Headers)
    ensures PragmaNoCache(headers) <==>
              && ValuesOf(headers, Ascii("cache-control")) == []
              && Identity.ListedIn(ValuesOf(headers, Ascii("pragma")), Ascii("no-cache"))
  {
    hide ValuesOf, HasHeader, Identity.ListsItem, ListContains;
    HasHeaderIff(headers, Ascii("cache-control"));
    var lines := ValuesOf(headers, Ascii("pragma"));
    forall i | 0 <= i < |lines|
      ensures ListContains(lines[i], Ascii("no-cache")) <==> Identity.ListsItem(lines[i], Ascii("no-cache"))
    {
      ContainsIff(lines[i], Ascii("no-cache"));
    }
  }

  lemma ContainsIff(line: Bytes, item: Bytes)
    requires LowerAll(item) == item
    ensures ListContains(line, item) <==> Identity.ListsItem(line, item)
  {
    hide Identity.ListsItem, Identity.SplitCommas, Identity.HasItem;
    Identity.ListsItemIff(line, item);
  }

  // ---------------------------------------------------------------- delta-seconds

  /** The seconds a `delta-seconds` value denotes, when it is one and fits in 64 bits. */
  function DeltaSeconds(value: Bytes): Option<nat> {
    if value != [] && Identity.AllDigits(value) && Identity.DecimalValue(value) <= U64_MAX
    then Some(Identity.DecimalValue(value))
    else None
  }

  lemma {:induction false} DecimalValuePrefix(value: Bytes, i: nat)
    requires Identity.AllDigits(value) && i <= |value|
    ensures Identity.DecimalValue(value[..i]) <= Identity.DecimalValue(value)
    decreases |value|
  {
    if i < |value| {
      var front := value[..|value| - 1];
      DecimalValuePrefix(front, i);
      assert front[..i] == value[..i];
    } else {
      assert value[..i] == value;
    }
  }

  /** `delta_seconds`: the digit loop with checked arithmetic rejects exactly the values
      that do not fit. */
  method ParseDeltaSeconds(value: Bytes) returns (r: Option<nat>)
    ensures r == DeltaSeconds(value)
  {
    if value == [] || !Identity.AllDigits(value) {
      return None;
    }
    var seconds: nat := 0;
    for i := 0 to |value|
      invariant seconds == Identity.DecimalValue(value[..i]) <= U64_MAX
    {
      assert value[..i + 1][..i] == value[..i];
      DecimalValuePrefix(value, i + 1);
      if seconds * 10 > U64_MAX {
        return None;
      }
      seconds := seconds * 10;
      if seconds + (value[i] - 48) > U64_MAX {
        return None;
      }
      seconds := seconds + (value[i] - 48);
    }
    assert value[..|value|] == value;
    r := Some(seconds);
  }

  // ---------------------------------------------------------------- timelines

  datatype Timeline = Timeline(useOrigin: bool, defaultTtl: Duration, statusTtls: map<nat, Duration>, grace: Duration,
                               keep: Duration)

  datatype TimelineError = GraceExceedsKeep | DuplicateStatus | UnsupportedStatus

  datatype StatusTtl = StatusTtl(status: nat, ttl: Duration)

  predicate DistinctStatuses(ttls: seq<StatusTtl>) {
    forall i, j :: 0 <= i < j < |ttls| ==> ttls[i].status != ttls[j].status
  }

  predicate Targetable(status: nat) {
    !(100 <= status < 200) && status != 206 && status != 304
  }

  /** `CacheTimeline::new`. The table the source keeps sorted for binary search is a map here. */
  function NewTimeline(useOrigin: bool, defaultTtl: Duration, ttls: seq<StatusTtl>, grace: Duration,
                       keep: Duration): (r: Result<Timeline, TimelineError>)
    ensures r.Ok? <==>
              && grace <= keep && DistinctStatuses(ttls)
              && forall i :: 0 <= i < |ttls| ==>
                   var status := ttls[i].status; (status < 100 || 200 <= status) && status != 206 && status != 304
    ensures r.Ok? ==>
              && Accepted(Some(r.value))
              && (forall i :: 0 <= i < |ttls| ==> ttls[i].status in r.value.statusTtls
                                                  && r.value.statusTtls[ttls[i].status] == ttls[i].ttl)
              && (forall s :: s in r.value.statusTtls ==>
                    Targetable(s) && exists i :: 0 <= i < |ttls| && ttls[i].status == s)
  {
    if grace > keep then Err(GraceExceedsKeep)
    else if !DistinctStatuses(ttls) then Err(DuplicateStatus)
    else if exists i :: 0 <= i < |ttls| && !Targetable(ttls[i].status) then Err(UnsupportedStatus)
    else Ok(Timeline(useOrigin, defaultTtl, TtlTable(ttls), grace, keep))
  }

  /** A timeline as `CacheTimeline::new` hands it out (see `NewTimeline`), if there is one. */
  predicate Accepted(timeline: Option<Timeline>) {
    timeline.Some? ==> timeline.value.grace <= timeline.value.keep
  }

  function TtlTable(ttls: seq<StatusTtl>): (m: map<nat, Duration>)
    requires DistinctStatuses(ttls)
    ensures forall i :: 0 <= i < |ttls| ==> ttls[i].status in m && m[ttls[i].status] == ttls[i].ttl
    ensures forall s :: s in m ==> exists i :: 0 <= i < |ttls| && ttls[i].status == s
  {
    if ttls == [] then map[]
    else
      var last := ttls[|ttls| - 1];
      TtlTable(ttls[..|ttls| - 1])[last.status := last.ttl]
  }

  // ---------------------------------------------------------------- response policies

  datatype Retention = Rfc | Canonical(keep: Duration)

  datatype ResponsePolicy = ResponsePolicy(
    lifetime: Duration, initialAge: Duration, staleWhileRevalidate: Duration, staleIfError: Duration,
    retention: Retention, alwaysRevalidate: bool, mustRevalidateStale: bool, allowsAuthorizedReuse: bool)

  /** Parsed date and age fields of a response, and a tenth of its time since modification. */
  datatype ResponseDates = ResponseDates(date: Option<SystemTime>, expires: Option<SystemTime>,
                                         lastModifiedTenth: Duration, age: Duration)

  predicate DefaultCacheable(status: nat) {
    status in {200, 203, 204, 300, 301, 308, 404, 405, 410, 414, 501}
  }

  function ExplicitLifetime(control: CacheControl, dates: ResponseDates, timing: Timing): Option<Duration> {
    if control.sharedMaxAge.Some? then control.sharedMaxAge
    else if control.maxAge.Some? then control.maxAge
    else if dates.expires.Some? then
      Some(WallSince(dates.expires.value, if dates.date.Some? then dates.date.value else timing.receivedWall))
    else None
  }

  function StatusTtlOf(timeline: Option<Timeline>, status: nat): Option<Duration> {
    if timeline.Some? && status in timeline.value.statusTtls then Some(timeline.value.statusTtls[status]) else None
  }

  function Lifetime(status: nat, control: CacheControl, dates: ResponseDates, timing: Timing, maxHeuristic: Duration,
                    timeline: Option<Timeline>): Duration {
    var explicit := ExplicitLifetime(control, dates, timing);
    match timeline
    case None => if explicit.Some? then explicit.value else Min(dates.lastModifiedTenth, maxHeuristic)
    case Some(t) =>
      if StatusTtlOf(timeline, status).Some? then StatusTtlOf(timeline, status).value
      else if t.useOrigin && explicit.Some? then explicit.value
      else t.defaultTtl
  }

  /** `response_freshness` together with the flags of `ResponsePolicy::evaluate`; `None` is
      the status rejection. */
  function EvaluateFreshness(status: nat, control: CacheControl, dates: ResponseDates, timing: Timing,
                             maxHeuristic: Duration, timeline: Option<Timeline>): Option<ResponsePolicy> {
    if StatusTtlOf(timeline, status).None? && ExplicitLifetime(control, dates, timing).None?
       && !DefaultCacheable(status) && !control.public_ then None
    else
      Some(ResponsePolicy(
        Lifetime(status, control, dates, timing, maxHeuristic, timeline),
        CurrentAge(dates.date, dates.age, timing, timing.responseReceived),
        if timeline.None? then OrZero(control.staleWhileRevalidate) else 0,
        if timeline.None? then OrZero(control.staleIfError) else timeline.value.grace,
        if timeline.None? then Rfc else Canonical(timeline.value.keep),
        control.noCache,
        RefusesStale(control),
        control.public_ || control.sharedMaxAge.Some? || control.mustRevalidate))
  }

  /** The origin says how long the response lasts. */
  predicate Says(control: CacheControl, dates: ResponseDates) {
    control.sharedMaxAge.Some? || control.maxAge.Some? || dates.expires.Some?
  }

  /** And that is: s-maxage, else max-age, else from `Date`, or from arrival, up to `Expires`. */
  predicate SaysFor(control: CacheControl, dates: ResponseDates, timing: Timing, lifetime: Duration) {
    && (control.sharedMaxAge.Some? ==> lifetime == control.sharedMaxAge.value)
    && (control.sharedMaxAge.None? && control.maxAge.Some? ==> lifetime == control.maxAge.value)
    && (control.sharedMaxAge.None? && control.maxAge.None? && dates.expires.Some? ==>
          var from := if dates.date.Some? then dates.date.value else timing.receivedWall;
          if dates.expires.value <= from then lifetime == 0
          else lifetime == Min(dates.expires.value - from, DURATION_MAX))
  }

  /** How long the response is fresh. Without a timeline: what the origin says, or else the lesser
      of a tenth of the time since modification and the cap. With one: the time set for the status,
      or else what the origin says if it is heeded and says something, or else the default. */
  predicate LastsFor(status: nat, control: CacheControl, dates: ResponseDates, timing: Timing, maxHeuristic: Duration,
                     timeline: Option<Timeline>, lifetime: Duration) {
    match timeline
    case None =>
      && (Says(control, dates) ==> SaysFor(control, dates, timing, lifetime))
      && (!Says(control, dates) ==>
            && lifetime <= maxHeuristic && lifetime <= dates.lastModifiedTenth
            && (lifetime == maxHeuristic || lifetime == dates.lastModifiedTenth))
    case Some(t) =>
      && (status in t.statusTtls ==> lifetime == t.statusTtls[status])
      && (status !in t.statusTtls && t.useOrigin && Says(control, dates) ==>
            SaysFor(control, dates, timing, lifetime))
      && (status !in t.statusTtls && !(t.useOrigin && Says(control, dates)) ==> lifetime == t.defaultTtl)
  }

  /** The policy is what the directives, dates and timeline say. */
  predicate Reflects(status: nat, control: CacheControl, dates: ResponseDates, timing: Timing, maxHeuristic: Duration,
                     timeline: Option<Timeline>, p: ResponsePolicy) {
    && LastsFor(status, control, dates, timing, maxHeuristic, timeline, p.lifetime)
    && (p.alwaysRevalidate <==> control.noCache)
    && (p.mustRevalidateStale <==>
          control.noCache || control.mustRevalidate || control.proxyRevalidate || control.sharedMaxAge.Some?)
    && (p.allowsAuthorizedReuse <==> control.public_ || control.sharedMaxAge.Some? || control.mustRevalidate)
    && match timeline
       case None =>
         && p.retention == Rfc
         && p.staleWhileRevalidate == (if control.staleWhileRevalidate.Some? then control.staleWhileRevalidate.value
                                       else 0)
         && p.staleIfError == (if control.staleIfError.Some? then control.staleIfError.value else 0)
       case Some(t) => p.retention == Canonical(t.keep) && p.staleWhileRevalidate == 0 && p.staleIfError == t.grace
  }

  /** A status worth keeping: one with a time set, one the origin gave a time or called public,
      or one cacheable by default. */
  predicate StatusKept(status: nat, control: CacheControl, dates: ResponseDates, timeline: Option<Timeline>) {
    || (timeline.Some? && status in timeline.value.statusTtls)
    || Says(control, dates)
    || control.public_
    || status in {200, 203, 204, 300, 301, 308, 404, 405, 410, 414, 501}
  }

  /** Directives under which a shared cache may not answer stale (sections 5.2.2.2, 5.2.2.4,
      5.2.2.8 and 5.2.2.10 of RFC 9111). */
  predicate RefusesStale(control: CacheControl) {
    control.noCache || control.mustRevalidate || control.proxyRevalidate || control.sharedMaxAge.Some?
  }

  /** What every stored policy satisfies: under a canonical timeline there is no
      stale-while-revalidate and the error window lies inside the retention window. */
  predicate CanonicalWindows(p: ResponsePolicy) {
    p.retention.Canonical? ==> p.staleWhileRevalidate == 0 && p.staleIfError <= p.retention.keep
  }

  // ---------------------------------------------------------------- verdicts

  datatype Verdict = Fresh | Stale | StaleWhileRevalidate | MustRevalidate(staleIfError: bool)

  predicate IsFresh(q: RequestPolicy, p: ResponsePolicy, age: Duration) {
    Plus(age, q.minFresh) <= p.lifetime
  }

  predicate RequestFresh(q: RequestPolicy, age: Duration) {
    q.maxAge.None? || age <= q.maxAge.value
  }

  /** The decision of `Cache::lookup` after an entry was found and not expired. */
  function Judge(q: RequestPolicy, p: ResponsePolicy, age: Duration): Verdict {
    var requestFresh := RequestFresh(q, age);
    var isFresh := IsFresh(q, p, age);
    var forced := q.mode == Revalidate || !requestFresh || (q.minFresh != 0 && !isFresh)
                  || p.alwaysRevalidate || (p.mustRevalidateStale && !isFresh);
    var staleness := Minus(age, p.lifetime);
    if isFresh && requestFresh && !forced then Fresh
    else if p.retention.Rfc? && !forced && !p.mustRevalidateStale && q.maxStale.Some?
            && (q.maxStale.value.None? || staleness <= q.maxStale.value.value) then Stale
    else if !forced && staleness <= p.staleWhileRevalidate && p.staleWhileRevalidate != 0 then StaleWhileRevalidate
    else
      MustRevalidate(q.mode != Revalidate && !p.mustRevalidateStale
                     && staleness <= p.staleIfError && p.staleIfError != 0)
  }

  /** `remove_expired_entry`'s test. */
  predicate IsExpired(p: ResponsePolicy, age: Duration) {
    p.retention.Canonical? && age > Plus(p.lifetime, p.retention.keep)
  }

  /** `Cache::stale_if_error`'s test. */
  predicate ServesOnError(p: ResponsePolicy, age: Duration) {
    !p.mustRevalidateStale && p.staleIfError != 0 && Minus(age, p.lifetime) <= p.staleIfError
  }

  /** What the request asks of the age, in exact integers. A lifetime of the largest duration
      never ends. */
  predicate YoungEnough(q: RequestPolicy, age: Duration) {
    q.maxAge.Some? ==> age <= q.maxAge.value
  }

  predicate FreshEnough(q: RequestPolicy, p: ResponsePolicy, age: Duration) {
    age + q.minFresh <= p.lifetime || p.lifetime == DURATION_MAX
  }

  /** The request takes a response this stale. */
  predicate TakesStale(q: RequestPolicy, p: ResponsePolicy, age: Duration) {
    q.maxStale.Some? && (q.maxStale.value.Some? ==> age <= p.lifetime + q.maxStale.value.value)
  }

  /** The request does without the origin, and the response may be used stale. */
  predicate MayGoStale(q: RequestPolicy, p: ResponsePolicy, age: Duration) {
    && q.mode == Lookup && q.minFresh == 0 && YoungEnough(q, age)
    && !p.alwaysRevalidate && !p.mustRevalidateStale && p.lifetime < age
  }

  /** Each verdict is given exactly when the limits of both sides say so. */
  lemma JudgeIsSafe(q: RequestPolicy, p: ResponsePolicy, age: Duration)
    requires q.mode != Bypass
    ensures var v := Judge(q, p, age);
            && (v.Fresh? <==> q.mode == Lookup && !p.alwaysRevalidate && YoungEnough(q, age) && FreshEnough(q, p, age))
            && (v.Fresh? ==> age <= p.lifetime)
            && (v.Stale? <==> MayGoStale(q, p, age) && p.retention.Rfc? && TakesStale(q, p, age))
            && (v.StaleWhileRevalidate? <==>
                  && MayGoStale(q, p, age) && age <= p.lifetime + p.staleWhileRevalidate
                  && !(p.retention.Rfc? && TakesStale(q, p, age)))
            && (v.MustRevalidate? ==>
                  (v.staleIfError <==> q.mode == Lookup && ServesOnError(p, age)))
            && (p.mustRevalidateStale && age > p.lifetime ==> v == MustRevalidate(false))
  {
  }

  /** The two tests on the age alone, in exact integers. */
  lemma WindowsAreExact(p: ResponsePolicy, age: Duration)
    ensures IsExpired(p, age) <==> p.retention.Canonical? && age > p.lifetime + p.retention.keep
    ensures ServesOnError(p, age) <==>
              !p.mustRevalidateStale && 0 < p.staleIfError && age <= p.lifetime + p.staleIfError
  {
  }

  /** Under a canonical timeline nothing older than lifetime plus keep is ever returned,
      whether as a hit, for revalidation, or on error. */
  lemma CanonicalNeverPastKeep(p: ResponsePolicy, age: Duration)
    requires p.retention.Canonical? && CanonicalWindows(p)
    requires !IsExpired(p, age) || ServesOnError(p, age)
    ensures age <= p.lifetime + p.retention.keep
  {
  }

  /** A policy is built for exactly the statuses worth keeping, and says what the directives,
      dates and timeline say; its windows are in order under a timeline that
      `CacheTimeline::new` accepted. */
  lemma EvaluatedPolicy(status: nat, control: CacheControl, dates: ResponseDates, timing: Timing,
                        maxHeuristic: Duration, timeline: Option<Timeline>)
    ensures EvaluateFreshness(status, control, dates, timing, maxHeuristic, timeline).Some? <==>
              StatusKept(status, control, dates, timeline)
    ensures EvaluateFreshness(status, control, dates, timing, maxHeuristic, timeline).Some? ==>
              var p := EvaluateFreshness(status, control, dates, timing, maxHeuristic, timeline).value;
              && Reflects(status, control, dates, timing, maxHeuristic, timeline, p)
              && (Accepted(timeline) ==> CanonicalWindows(p))
              && forall now: Duration :: ResidentAge(p.initialAge, timing.responseReceived, now)
                                      == CurrentAge(dates.date, dates.age, timing, now)
  {
    forall now: Duration
      ensures ResidentAge(CurrentAge(dates.date, dates.age, timing, timing.responseReceived), timing.responseReceived,
                          now)
           == CurrentAge(dates.date, dates.age, timing, now)
    {
      ResidentAgeIsCurrentAge(dates.date, dates.age, timing, now);
    }
  }
}
