# Verification of the oxiroute cache, template expander and ACME state machines

This project models four parts of oxiroute in Dafny and proves what they promise.

**The memory cache** (`cache.rs`, `key.rs`, `policy.rs`). A byte- and count-bounded LRU keyed by
request and `Vary` values, with collapsed forwarding: one leader per base key, followers,
generations, and purges that cancel fills. Every public operation is one atomic step of a state
machine (`CacheModel.dfy`), and the class `MemoryCache` is proved to take exactly these steps.
Invariants hold in every state of every run, and statements about whole runs follow: generation
safety, conservation of fills, provenance of residents (`CacheRuns`), and staleness safety by the
directives of the exchange an entry was made from (`Staleness`). `Replies` says what comes of a
lookup in terms of the request alone, `CacheEffects` what purges and insertions remove and what the
counters count.

**The persistent cache** (`disk.rs`, `disk/codec.rs`). A record table with a tag index and a quota,
kept in step with the memory cache, over a directory whose names become durable only at `fsync`.
A crash keeps any subset, in order, of the operations issued since (`Directory.dfy`). A ghost trail
records the directory after every filesystem step, so contracts speak about every crash point. The
class `DiskCache` keeps one invariant: memory and disk hold the same keys in the same recency order,
the directory holds exactly the records, and every file is a complete record of its entry. `Recovery`
rebuilds this invariant from any directory a crash may leave, and `Restart` and
`Survival` prove that a clean restart is the identity and that a crash at any step of `store` shows the
old record, the new one, or none, within the quotas. `Lifetimes` follows an entry from the exchange it
was made from through every writing of its record and every restart, and `Service` runs the whole cache
through arbitrary calls and restarts: every answer is safe and at its true age.

**The template expander** (`templates.rs`). The memoising evaluator with its stack and depth limit is
proved to refine a plain evaluator that has none of the three, and that to compute what a document
means: a relation on documents and results that says which layer decides at each path (`TemplateMeaning`).

**Two ACME state machines** (`protocol.rs`, `challenge.rs`). The replay-nonce pool with its one-retry
loop, and the HTTP-01 challenge store with owner-stamped leases.

Heavy arguments are stated once for arbitrary key and value types (`Lru`, `Shelf`, `Fills`, `Ledger`,
`Crashes`, `RecordStore`, `Scan`, `Rebuild`) and then instantiated. `dfyconfig.toml` covers all files.

Some promises turned out to be false of the code. These are proved with their exact conditions: a stored
entry survives a restart if and only if its canonical authority is not empty: an authority that is
only a default port (`:80` over http) canonicalizes to the empty string, and such a record does not
decode (`Identity.EmptyHostIsLost`, `RecordFacts.EntryRoundTrip`). An ACME client can be cloned with its
pool, and the clone repeats a nonce unless the pool was empty (`Nonces.CloneIsSafeIffEmpty`). Two field
lines and the same lines joined by a comma give the same key value exactly when the first does not end
in padding (`Keys.TwoLinesAsOne`). The saturating test of the eviction loop is exact exactly for quotas
below the largest size (`Entries.SaturatedTestIsExact`). An admitted entry encodes exactly when none of
its strings and lists outgrows a 32-bit length (`RecordFacts.EncodesIff`). A record that an opening ended
with need not be there after a crash during that opening: a temporary name of its file may come back
(`Scan.TemporaryCostsRecord`), or a newer record that takes its room (`Survival.NewerComesBack`). It is
there, or a newer one of its key, exactly when one passes the scan and it and all newer ones found meet
the quotas and, where schemas do not conflict, fit into memory (`Recovery.OpenedDecides`).

Two are shown by a counterexample and bounded from one side only. Every admitted entry encodes if the
configured limits fit the 32-bit lengths (`RecordFacts.AcceptedEncodes`), and one need not under a larger
header limit (`RecordFacts.OversizedDoesNotEncode`). The memo of the expander lets a document through
whose plain expansion is too deep (`TemplateDepth.MemoReachesDeeper`); what plain expansion does within
the limit the expander does too (`TemplateFacts.PlainSucceeds`).

## Model

| member | source | states |
|---|---|---|
| `Keys.NormalizeFieldValue` | crates/oxiroute-cache/src/key.rs:315-328 | the in-place loop appends exactly the normalized form of the value to the output |
| `Keys.NormalizeIdempotent` | crates/oxiroute-cache/src/key.rs:315-328 | normalizing a joined field value again changes nothing, so keys are canonical |
| `Keys.NormalizeKeepsLetters` | crates/oxiroute-cache/src/key.rs:315-328 | normalizing changes whitespace only: all other bytes of the lines, joined by commas, come back in order |
| `Keys.TwoLinesAsOne` | crates/oxiroute-cache/src/key.rs:190-205 | sending two field lines as one comma-joined line gives the same key value if and only if the first line does not end in padding, which the joined form keeps as a space before the comma |
| `Keys.NewKey` | crates/oxiroute-cache/src/key.rs:182-211 | the key of a request under a `Vary` list: every listed field with presence and normalized value, or the size and `*` errors |
| `Keys.BuiltKeyMatches` | crates/oxiroute-cache/src/key.rs:182-240 | a key built from a request matches that request |
| `Keys.MatchesBothIff` | crates/oxiroute-cache/src/key.rs:229-240 | a key that matches one request matches another if and only if that has the same base and, for every listed field, both requests lack it or both have it with the same normalized value |
| `Keys.MatchUniqueInSchema` | crates/oxiroute-cache/src/key.rs:229-249 | two keys with the same schema that match the same request are equal |
| `Identity.ParseVary` | crates/oxiroute-cache/src/key.rs:32-62 | names come back if and only if the list is acceptable, and they are those listed, sorted, each once; `*` is reported if and only if it is reached before a defect; otherwise the error is that of the first item with a defect |
| `Identity.SortedUnique` | crates/oxiroute-cache/src/key.rs:58-60 | a set of names has one strictly sorted list, so the key does not depend on the order of the list |
| `Identity.PrintedAuthorityParses` | crates/oxiroute-cache/src/key.rs:286-304 | a printed host and port parse back to the same host and port, bracketed addresses included |
| `Identity.CanonicalAuthorityIdempotent` | crates/oxiroute-cache/src/key.rs:286-304 | canonicalizing twice gives the same authority if and only if the first result is not empty |
| `Identity.EmptyHostIsLost` | crates/oxiroute-cache/src/key.rs:286-304 | counterexample: an authority with only a default port canonicalizes to the empty string, which no longer parses |
| `Identity.BaseKeyIdempotent` | crates/oxiroute-cache/src/key.rs:89-129 | a base key is rebuilt unchanged from its own parts if and only if its authority is not empty |
| `Identity.BaseKeyParts` | crates/oxiroute-cache/src/key.rs:89-129 | when a request has a base key, by its path, query, scheme, authority text and length, and what the key holds of it: path and query as they are, scheme in lower case, HEAD as GET |
| `Identity.ParseIffSpells` | crates/oxiroute-cache/src/key.rs:286-304 | an authority is read as this host and port if and only if it is spelled as optional userinfo, the host, in brackets if it has colons, and an optional port in decimal |
| `Identity.SameBaseIff` | crates/oxiroute-cache/src/key.rs:89-129 | two requests that have base keys have the same one if and only if path and query are equal, schemes and hosts are equal up to case, the effective ports are equal, and the methods are equal with HEAD counted as GET |
| `Identity.NamesInIff` | crates/oxiroute-cache/src/key.rs:32-62 | the names that count as listed are exactly those that some line of the field has between commas, up to padding and case |
| `Policy.CurrentAgeIsRfcAge` | crates/oxiroute-cache/src/policy.rs:239-257 | the saturating age is the age of section 4.2.3 of RFC 9111, capped at the largest duration |
| `Policy.ResidentAgeIsCurrentAge` | crates/oxiroute-cache/src/cache.rs:588-592 | the age `lookup` adds up from the stored initial age is the current age recomputed from the original headers and timing |
| `Policy.ParseDeltaSeconds` | crates/oxiroute-cache/src/policy.rs:747-759 | the checked digit loop accepts exactly the decimal numbers that fit in 64 bits, with their value |
| `Policy.NewTimeline` | crates/oxiroute-cache/src/policy.rs:24-54 | accepted if and only if grace is within keep and the statuses are distinct and allowed; then every configured status, and no other, has its time |
| `Policy.JudgeIsSafe` | crates/oxiroute-cache/src/cache.rs:593-638 | each verdict if and only if the limits of both sides say so, in exact integers: fresh by max-age, min-fresh and lifetime; stale by max-stale; stale-while-revalidate inside its window when max-stale does not already allow; and the stale-if-error flag |
| `Policy.WindowsAreExact` | crates/oxiroute-cache/src/cache.rs:645-668 | expired and usable on error if and only if the age is past lifetime plus keep, or within lifetime plus the error window of a response that may be used stale; saturation loses nothing |
| `Policy.RequestModes` | crates/oxiroute-cache/src/policy.rs:189-228 | a request bypasses if and only if it has another method, a range, a body, a condition or no-store; otherwise it revalidates if and only if it has no-cache, max-age=0, or `Pragma: no-cache` without `Cache-Control`; its limits are its directives |
| `Policy.CanonicalNeverPastKeep` | crates/oxiroute-cache/src/cache.rs:984-1000 | under a canonical timeline nothing older than lifetime plus keep can be returned |
| `Policy.EvaluatedPolicy` | crates/oxiroute-cache/src/policy.rs:379-471 | a policy exists if and only if the status has a configured time, an explicit lifetime, public, or is cacheable by default; lifetime case by case (s-maxage, max-age, Expires minus Date or arrival, capped heuristic; with a timeline the status time, the heeded origin, the default), both stale windows, retention and all flags by directive; canonical windows under an accepted timeline; age as in RFC 9111 at every moment |
| `Prepare.PrepareInner` | crates/oxiroute-cache/src/cache.rs:403-464 | returns the one entry that meets every bound and stands for the exchange (key under the listed `Vary` names, policy, validators, tags, arrival); if there is none, the error is the first defect in the order of the checks |
| `Prepare.EvaluateResponse` | crates/oxiroute-cache/src/policy.rs:331-398 | succeeds if and only if the response is one a shared cache may keep; gives its policy, the sorted `Vary` names and the validators, or the first reason for refusal |
| `Prepare.RejectionIff` | crates/oxiroute-cache/src/policy.rs:345-365 | refused if and only if status 206 or 304, no-store, private, Set-Cookie, a field for one connection only, or an authorized request without public, s-maxage or must-revalidate; and the reason given holds |
| `Prepare.ValidatorsIff` | crates/oxiroute-cache/src/policy.rs:474-488 | the validators are exactly the single ETag and Last-Modified lines, the tag well formed |
| `Prepare.AdmitsKey` | crates/oxiroute-cache/src/cache.rs:437-444 | any entry that may be admitted has the key built from the sorted names |
| `Prepare.KeyIsBounded` | crates/oxiroute-cache/src/cache.rs:438-444 | the key of an admitted entry meets the bounds a record decoder imposes and matches its own request |
| `Prepare.ValidatorsBounded` | crates/oxiroute-cache/src/policy.rs:474-488 | validators are single header values and so within the header bound |
| `Prepare.MadeHonours` | crates/oxiroute-cache/src/policy.rs:379-471 | an entry made from an exchange shows what the exchange says: it may be kept at all, its lifetime, windows, retention and flags are those of directives, dates and timeline case by case; its age is the RFC 9111 age of the response at every moment |
| `Prepare.MadeHolds` | crates/oxiroute-cache/src/cache.rs:403-464 | it also holds status, headers, body, tags and validators of the response, under the key of the request with a value for every field any `Vary` line lists |
| `Entries.SaturatedTestIsExact` | crates/oxiroute-cache/src/cache.rs:1052-1054 | the saturating test of the eviction loop is exact for all sizes if and only if the quota is below the largest size |
| `Entries.ObjectCharge` | crates/oxiroute-cache/src/cache.rs:1178-1198 | the checked additions give the exact charge, or fail exactly when it does not fit |
| `Entries.ParseTags` | crates/oxiroute-cache/src/cache.rs:1151-1164 | each tag once in order of first appearance; rejected if and only if there are too many or one is invalid, and which of the two |
| `Lru.ShortestPrefixUnique` | crates/oxiroute-cache/src/cache.rs:1052-1075 | the shortest least-recently-used prefix that makes room is determined by the table and the limits |
| `Lru.SameOrderSameVictims` | crates/oxiroute-cache/src/cache.rs:963-982 | tables in the same recency order evict the same keys |
| `KeyOrder.VaryTotal` | crates/oxiroute-cache/src/key.rs:160-168 | the order of `Vary` values is total and strict |
| `KeyOrder.VaryTransitive` | crates/oxiroute-cache/src/key.rs:160-168 | and transitive |
| `KeyOrder.Sort` | crates/oxiroute-cache/src/cache.rs:1044-1044 | lists the conflicting keys in ascending order, each once |
| `KeyOrder.AscendingUnique` | crates/oxiroute-cache/src/cache.rs:1044-1044 | a set of keys has one ascending list, so the report does not depend on the order of the map |
| `Shelf.DropKeepsValid` | crates/oxiroute-cache/src/cache.rs:1034-1050 | removal gives back exactly what was charged; `bytes_used` stays the exact sum |
| `Shelf.RenumberKeepsOrder` | crates/oxiroute-cache/src/cache.rs:963-982 | renumbering at the 64-bit limit keeps the relative order of every pair and distinct stamps |
| `Shelf.TouchKeepsValid` | crates/oxiroute-cache/src/cache.rs:584-587 | a touched entry becomes the newest and all others keep their order |
| `Shelf.PutKeepsValid` | crates/oxiroute-cache/src/cache.rs:1031-1082 | after room was made, insertion keeps both limits, the exact byte count and the order of the survivors |
| `Recency.OldestIn` | crates/oxiroute-cache/src/cache.rs:1055-1062 | the search finds the unique least recently used key |
| `Recency.InOrder` | crates/oxiroute-cache/src/cache.rs:966-975 | the sorted list holds every key, oldest first |
| `LruStore.LruStore.Remove` | crates/oxiroute-cache/src/cache.rs:1034-1037 | takes one key out and gives its weight back |
| `LruStore.LruStore.RemoveAll` | crates/oxiroute-cache/src/cache.rs:730-752 | takes out every key of a set, each once, and totals their weight |
| `LruStore.LruStore.RemoveListed` | crates/oxiroute-cache/src/cache.rs:1045-1050 | takes out the keys of a list and gives their weight back |
| `LruStore.LruStore.NextSequence` | crates/oxiroute-cache/src/cache.rs:963-982 | hands out a number above every stamp, renumbering at the limit |
| `LruStore.LruStore.Renumber` | crates/oxiroute-cache/src/cache.rs:966-977 | the loop rewrites every stamp as its rank |
| `LruStore.LruStore.EvictFor` | crates/oxiroute-cache/src/cache.rs:1051-1075 | evicts the shortest least-recently-used prefix that makes room, in order; the branch for an empty cache is never taken |
| `LruStore.LruStore.Touch` | crates/oxiroute-cache/src/cache.rs:584-587 | makes a resident key the newest |
| `LruStore.LruStore.Put` | crates/oxiroute-cache/src/cache.rs:1076-1081 | adds a new newest key |
| `Fills.SettleKeepsInv` | crates/oxiroute-cache/src/cache.rs:1105-1113 | ending flights keeps the table consistent: every flight is open, every open channel flies |
| `Fills.Conserved` | crates/oxiroute-cache/src/cache.rs:675-710 | channels started equal flights plus channels ended, outcome by outcome |
| `FillBoard.FillBoard.Lead` | crates/oxiroute-cache/src/cache.rs:700-709 | a new generation starts with a fresh identity |
| `FillBoard.FillBoard.Follow` | crates/oxiroute-cache/src/cache.rs:683-692 | one more follower on the flight |
| `FillBoard.FillBoard.SettleOne` | crates/oxiroute-cache/src/cache.rs:1105-1113 | removes the flight and sends its outcome in the same step |
| `FillBoard.FillBoard.SettleAll` | crates/oxiroute-cache/src/cache.rs:830-837 | ends every flight of a set once and counts them |
| `CacheInvariants.InsertKeepsEntries` | crates/oxiroute-cache/src/cache.rs:1031-1082 | insertion keeps both limits, the exact byte count, distinct stamps and one `Vary` schema per base |
| `CacheInvariants.DeltaIsExact` | crates/oxiroute-cache/src/cache.rs:1031-1082 | the reported keys are the old keys that are gone plus a replaced key |
| `CacheInvariants.DeltaCounts` | crates/oxiroute-cache/src/cache.rs:1031-1082 | nothing is reported twice and `evicted` counts the evicted keys |
| `CacheInvariants.InsertionDetermined` | crates/oxiroute-cache/src/cache.rs:1051-1075 | the state after an insertion and the whole report, order included, are determined by the state before |
| `CacheInvariants.SettleCounters` | crates/oxiroute-cache/src/cache.rs:830-837 | a settled flight is counted under its outcome and nowhere else |
| `CacheInvariants.LookupKeepsInv` | crates/oxiroute-cache/src/cache.rs:548-638 | lookup keeps the invariant |
| `CacheInvariants.ErrorKeepsInv` | crates/oxiroute-cache/src/cache.rs:645-668 | stale-if-error keeps the invariant |
| `CacheInvariants.BeginKeepsInv` | crates/oxiroute-cache/src/cache.rs:675-710 | begin-fill keeps the invariant, the flight bound and the follower bound |
| `CacheInvariants.PublishKeepsInv` | crates/oxiroute-cache/src/cache.rs:873-891 | publication keeps the invariant |
| `CacheInvariants.CompleteKeepsInv` | crates/oxiroute-cache/src/cache.rs:895-914 | completion without store keeps the invariant |
| `CacheInvariants.AbandonKeepsInv` | crates/oxiroute-cache/src/cache.rs:923-938 | dropping a guard keeps the invariant |
| `CacheInvariants.PurgeKeepsInv` | crates/oxiroute-cache/src/cache.rs:714-783 | purges keep the invariant |
| `CacheInvariants.RestoreKeepsInv` | crates/oxiroute-cache/src/cache.rs:804-819 | restoring an entry keeps the invariant |
| `CacheInvariants.StepKeepsInv` | crates/oxiroute-cache/src/cache.rs:548-938 | every public operation keeps the invariant |
| `CacheRuns.InvThroughout` | crates/oxiroute-cache/src/cache.rs:548-938 | the invariant holds in every state of every run |
| `CacheRuns.OutcomeIsFinal` | crates/oxiroute-cache/src/cache.rs:1105-1113 | once a generation has its outcome it keeps it |
| `CacheRuns.HitEndsFlight` | crates/oxiroute-cache/src/cache.rs:714-783 | a purge or cancellation that reaches a base ends its flight in that step |
| `CacheRuns.PublishedOnlyIfUnhit` | crates/oxiroute-cache/src/cache.rs:840-891 | a leader publishes only if no purge, cancellation or earlier end hit its base since it became leader |
| `CacheRuns.SupersededLeaderInert` | crates/oxiroute-cache/src/cache.rs:873-938 | a leader whose generation has ended changes nothing, whatever it does |
| `CacheRuns.GuardActsOnItself` | crates/oxiroute-cache/src/cache.rs:1098-1103 | a guard leaves every other generation's flight alone |
| `CacheRuns.LeavesWithOutcome` | crates/oxiroute-cache/src/cache.rs:901-914 | a flight leaves the map in exactly the step that sends its terminal outcome |
| `CacheRuns.KeptOnlyByInsertion` | crates/oxiroute-cache/src/cache.rs:873-891 | `Stored` is sent only in the step that inserted the entry, by its own leader |
| `CacheRuns.FillsConserved` | crates/oxiroute-cache/src/cache.rs:675-938 | leaders started equal fills in flight plus stored, cancelled and completed without store, while the counter is unsaturated |
| `CacheRuns.StepProvenance` | crates/oxiroute-cache/src/cache.rs:1031-1082 | no step changes a resident entry or brings one in except by inserting it |
| `CacheRuns.ResidentsWereInserted` | crates/oxiroute-cache/src/cache.rs:853-891 | every resident entry is, unchanged, one inserted earlier in the run |
| `CacheRuns.HitsAreSafe` | crates/oxiroute-cache/src/cache.rs:579-638 | for arbitrary inserted entries: over every run a hit repeats an inserted entry (key, status, body, every field, and as only `Age` line its age in seconds), fresh under both limits or stale inside the allowed window, and within keep |
| `CacheRuns.ErrorAnswersAreSafe` | crates/oxiroute-cache/src/cache.rs:645-668 | for arbitrary inserted entries: over every run an answer on error repeats an inserted entry within its error window, never one that refuses stale use, and within keep if its windows are canonical |
| `Staleness.SourceOf` | crates/oxiroute-cache/src/cache.rs:403-464 | in every run whose inserted entries were prepared, every resident entry holds the response of an exchange and honours what it says; if it was published in this run, its age is the RFC 9111 age of that response |
| `Staleness.LookupHonours` | crates/oxiroute-cache/src/cache.rs:579-638 | what one lookup hands out, as a hit or for revalidation, has status, body and every field of the exchange, with its age and its validators, within keep; a hit is never stale if the response carried no-cache, must-revalidate, proxy-revalidate or s-maxage |
| `Staleness.LookupsAreSafe` | crates/oxiroute-cache/src/cache.rs:548-638 | over every run of prepared entries, for every hit and every conditional answer: it is the response of an exchange, at its age, with the same target, the same value of every field that response varies by, and leave for authorization; never past lifetime plus keep, never stale as a hit if the exchange refused stale use, never a hit under no-cache; a hit obeys max-age, min-fresh, max-stale and no-cache of its request |
| `Staleness.ErrorsAreSafe` | crates/oxiroute-cache/src/cache.rs:645-668 | over every run of prepared entries: an answer on error is the response of its exchange within the error window, never past keep, never for an exchange that refused stale use |
| `Lookups.MatchIsUnique` | crates/oxiroute-cache/src/cache.rs:1011-1029 | at most one resident key matches a request, so lookup does not depend on map order or the tie-break |
| `Lookups.StoredIsFound` | crates/oxiroute-cache/src/cache.rs:1011-1029 | a resident entry is found again by the request it was stored for |
| `CacheModel.SnapshotRepeats` | crates/oxiroute-cache/src/cache.rs:1084-1096 | the response handed out has key, status and body of the entry, exactly one `Age` line with the age in whole seconds, and every other field unchanged |
| `Replies.HeldApplies` | crates/oxiroute-cache/src/cache.rs:548-577 | whatever entry matches a request comes from an exchange with the same target, the same value of every field listed by `Vary`, and, for an authorized request, a permitting directive |
| `Replies.ServedObeys` | crates/oxiroute-cache/src/cache.rs:593-638 | an answer without the origin is within max-age, min-fresh and max-stale of the request, which has neither no-cache, max-age=0 nor Pragma no-cache |
| `Replies.LookupReplies` | crates/oxiroute-cache/src/cache.rs:548-638 | every lookup in every state: bypass if and only if the headers are too large or the request is of no concern; invalid if and only if the directives or the key are; a miss if and only if every entry that may answer is past its keep; otherwise the answer repeats the one entry that may answer and obeys the request |
| `Replies.ErrorReplies` | crates/oxiroute-cache/src/cache.rs:645-668 | an answer on error if and only if the resident entry may be used stale and is within its error window; it repeats the entry |
| `CacheEffects.PurgeIsExact` | crates/oxiroute-cache/src/cache.rs:714-783 | a purge removes exactly the residents with the key, base or tag, leaves the others as they are, ends exactly the fills of their bases, and reports the entries, bytes and fills that went |
| `CacheEffects.InsertIsExact` | crates/oxiroute-cache/src/cache.rs:1031-1082 | an insertion removes only variants of the same target that vary by other fields, and evicted entries older than all that stay; whatever stays is unchanged |
| `CacheEffects.BeginIsExact` | crates/oxiroute-cache/src/cache.rs:675-711 | leader, follower, at capacity or invalid: each if and only if the method, the key length, the flight of the base and the limits say so |
| `CacheEffects.CountersCount` | crates/oxiroute-cache/src/cache.rs:786-793 | in every state of every run each of eleven counters is the exact number of the lookups, answers, evictions, purged entries, rejections or followers it names, up to the 64-bit limit |
| `MemoryCache.MemoryCache.InsertEntry` | crates/oxiroute-cache/src/cache.rs:1031-1082 | the replaced, conflicting and evicted keys leave, the entry becomes the newest, and the report lists them in that order: replaced first, conflicting ascending, evicted oldest first |
| `MemoryCache.MemoryCache.RemoveDisplaced` | crates/oxiroute-cache/src/cache.rs:1034-1050 | the replaced key, then exactly the keys of the base with another schema, leave, and are listed in that order, the latter ascending |
| `MemoryCache.MemoryCache.MatchingKey` | crates/oxiroute-cache/src/cache.rs:1011-1029 | the most recently used of the resident keys that match |
| `MemoryCache.MemoryCache.Lookup` | crates/oxiroute-cache/src/cache.rs:548-638 | takes the lookup step, and its result is what `Replies.LookupReplies` says of the request and the residents: bypass, errors, miss, or an answer that repeats the entry that may answer and obeys the request |
| `MemoryCache.MemoryCache.AnswerFrom` | crates/oxiroute-cache/src/cache.rs:571-638 | under the lock: an expired match is removed, any other is touched and judged by its age; the answer repeats the entry, and a hit is within the limits of both sides; counters move with the answer |
| `MemoryCache.MemoryCache.StaleIfError` | crates/oxiroute-cache/src/cache.rs:645-668 | an answer if and only if the entry is resident, may be served stale and is inside its error window; it repeats the entry, which becomes the newest |
| `MemoryCache.MemoryCache.BeginFill` | crates/oxiroute-cache/src/cache.rs:675-710 | a leader if no fill of the base is in flight and there is room, a follower if one is and has room, refused otherwise |
| `MemoryCache.MemoryCache.CheckCurrent` | crates/oxiroute-cache/src/cache.rs:841-846 | says whether the guard's generation is the one in flight |
| `MemoryCache.MemoryCache.StoreClaimed` | crates/oxiroute-cache/src/cache.rs:873-891 | publishes only for a current generation, ending its flight in the same step |
| `MemoryCache.MemoryCache.Store` | crates/oxiroute-cache/src/cache.rs:853-871 | refused claims drop the guard; otherwise the claimed entry is published |
| `MemoryCache.MemoryCache.CompleteWithoutStore` | crates/oxiroute-cache/src/cache.rs:895-914 | ends the own flight only |
| `MemoryCache.MemoryCache.Abandon` | crates/oxiroute-cache/src/cache.rs:923-938 | cancels the own flight only |
| `MemoryCache.MemoryCache.CancelAllFills` | crates/oxiroute-cache/src/cache.rs:830-837 | ends every flight as cancelled and counts them |
| `MemoryCache.MemoryCache.PurgeExact` | crates/oxiroute-cache/src/cache.rs:714-726 | the key and the fill of its base go, exactly counted |
| `MemoryCache.MemoryCache.PurgeBase` | crates/oxiroute-cache/src/cache.rs:730-752 | every key of the base and its fill go, exactly counted |
| `MemoryCache.MemoryCache.PurgeTag` | crates/oxiroute-cache/src/cache.rs:756-783 | exactly the tagged keys and the fills of their bases go; invalid tags are refused |
| `MemoryCache.MemoryCache.RemoveWithoutCancellingFill` | crates/oxiroute-cache/src/cache.rs:821-828 | the key goes and its fill stays |
| `MemoryCache.MemoryCache.Restore` | crates/oxiroute-cache/src/cache.rs:804-819 | inserts a recovered entry as the newest, with the eviction of any insertion and no fill ended |
| `Codec.LeRoundTrip` | crates/oxiroute-cache/src/disk/codec.rs:9-19 | little-endian integers of a width read back |
| `Codec.LeDigit` | crates/oxiroute-cache/src/disk/codec.rs:9-19 | byte i of an encoded integer is its digit of weight 256 to the i: least significant first |
| `Codec.ReadDurationBack` | crates/oxiroute-cache/src/disk/codec.rs:25-28 | durations read back |
| `Codec.ReadOptBytesBack` | crates/oxiroute-cache/src/disk/codec.rs:54-60 | optional byte strings read back |
| `Codec.ReadListBack` | crates/oxiroute-cache/src/disk.rs:1264-1280 | counted lists read back when their items do |
| `RecordWriter.Encoder.PushDuration` | crates/oxiroute-cache/src/disk/codec.rs:25-28 | seconds and nanoseconds are appended |
| `RecordWriter.Encoder.PushOptDuration` | crates/oxiroute-cache/src/disk/codec.rs:30-35 | a flag and the duration are appended |
| `RecordWriter.Encoder.PushLength` | crates/oxiroute-cache/src/disk/codec.rs:37-40 | fails exactly for lengths over 32 bits |
| `RecordWriter.Encoder.PushBytes` | crates/oxiroute-cache/src/disk/codec.rs:42-46 | length and bytes are appended, or it fails exactly for lengths over 32 bits |
| `RecordWriter.Encoder.PushLongBytes` | crates/oxiroute-cache/src/disk/codec.rs:48-52 | length in 64 bits and bytes are appended |
| `RecordWriter.Encoder.PushOptBytes` | crates/oxiroute-cache/src/disk/codec.rs:54-60 | a flag and the bytes are appended |
| `RecordWriter.Encoder.PushKey` | crates/oxiroute-cache/src/disk.rs:1259-1269 | the key is appended, or it fails exactly if a part does not fit its prefix |
| `RecordWriter.Encoder.PushHeaders` | crates/oxiroute-cache/src/disk.rs:1271-1275 | the counted headers are appended |
| `RecordWriter.Encoder.PushTags` | crates/oxiroute-cache/src/disk.rs:1277-1280 | the counted tags are appended |
| `RecordWriter.Encoder.PushPolicy` | crates/oxiroute-cache/src/disk.rs:1281-1288 | windows, retention and flags are appended |
| `RecordWriter.EncodeRecord` | crates/oxiroute-cache/src/disk.rs:1242-1308 | the record is the specified encoding of the entry at that moment; fails exactly if some part does not fit its prefix |
| `RecordReader.Decoder.TakeBytes` | crates/oxiroute-cache/src/disk/codec.rs:72-79 | takes a prefix and leaves the rest, or fails if there are too few bytes |
| `RecordReader.Decoder.PullBool` | crates/oxiroute-cache/src/disk/codec.rs:99-105 | only 0 and 1 are booleans |
| `RecordReader.Decoder.PullDuration` | crates/oxiroute-cache/src/disk/codec.rs:107-114 | rejects a full second of nanoseconds |
| `RecordReader.Decoder.PullOptDuration` | crates/oxiroute-cache/src/disk/codec.rs:116-118 | a boolean, then a duration only if it was set; fails where either does |
| `RecordReader.Decoder.PullCount` | crates/oxiroute-cache/src/disk/codec.rs:120-126 | rejects counts over the maximum |
| `RecordReader.Decoder.PullBytes` | crates/oxiroute-cache/src/disk/codec.rs:128-134 | rejects lengths over the maximum |
| `RecordReader.Decoder.PullLongBytes` | crates/oxiroute-cache/src/disk/codec.rs:136-142 | rejects lengths over the maximum |
| `RecordReader.Decoder.PullOptBytes` | crates/oxiroute-cache/src/disk/codec.rs:150-159 | a boolean, then bytes within the maximum only if it was set; fails where either does |
| `RecordReader.Decoder.PullKey` | crates/oxiroute-cache/src/disk.rs:1340-1393 | accepts only a key that the constructor rebuilds exactly, with sorted `Vary` names within the bounds |
| `RecordReader.Decoder.PullHeaders` | crates/oxiroute-cache/src/disk.rs:1395-1411 | the running total rejects exactly the lists whose total is too large |
| `RecordReader.Decoder.PullTags` | crates/oxiroute-cache/src/disk.rs:1413-1422 | rejects exactly the lists with an invalid or repeated tag |
| `RecordReader.Decoder.PullPolicy` | crates/oxiroute-cache/src/disk.rs:1423-1445 | retention is read from version 2 on and must be consistent |
| `RecordReader.DecodeRecord` | crates/oxiroute-cache/src/disk.rs:1311-1484 | the record is read as specified, whatever the bytes; a wall-clock time out of range is refused |
| `Records.RoundTrip` | crates/oxiroute-cache/src/disk.rs:1242-1484 | bounded content whose base key rebuilds decodes to itself, whatever the checksum function |
| `Records.DecodedIsBounded` | crates/oxiroute-cache/src/disk.rs:1341-1468 | whatever bytes are on disk, a record that decodes meets every bound of admission |
| `RecordFacts.EntryRoundTrip` | crates/oxiroute-cache/src/disk.rs:1242-1484 | under limits that fit the length prefixes, every admitted entry encodes; it comes back with only its age moved if and only if its authority is not empty; otherwise the record does not decode |
| `RecordFacts.EncodesIff` | crates/oxiroute-cache/src/disk.rs:1242-1308 | an admitted entry encodes if and only if none of its strings and lists outgrows its 32-bit length |
| `RecordFacts.AcceptedEncodes` | crates/oxiroute-cache/src/disk.rs:1242-1308 | the bounds of admission imply those of every length prefix and of the payload length |
| `RecordFacts.ImageSize` | crates/oxiroute-cache/src/disk.rs:1242-1308 | a payload is at most the charge of its entry, two header limits and 16 bytes |
| `RecordFacts.OversizedDoesNotEncode` | crates/oxiroute-cache/src/disk/codec.rs:37-46 | counterexample: under a header limit over 32 bits `prepare` accepts a response whose entry does not encode |
| `RecordFacts.SameSize` | crates/oxiroute-cache/src/disk.rs:628-652 | encoding again at another time gives a record of the same size |
| `RecordFacts.AgeContinues` | crates/oxiroute-cache/src/disk.rs:1252-1258 | the arithmetic of stays: through any number of encodings and restarts the age is the original age plus all time that passed, added exactly and capped once |
| `RecordFacts.AgeNeverDrops` | crates/oxiroute-cache/src/disk.rs:1331-1338 | the age after one encoding and restart is never below the age encoded |
| `Directory.CrashBetween` | crates/oxiroute-cache/src/disk.rs:673-734 | whatever subset of the unsynced operations survives, the directory stays between the bounds |
| `Directory.QuietCrash` | crates/oxiroute-cache/src/disk.rs:764-766 | a synced directory survives every crash unchanged |
| `Root.Root.Publish` | crates/oxiroute-cache/src/disk.rs:673-734 | at every crash point of publish the directory holds the old records, or those and the complete new one; afterwards exactly the new name was added |
| `Root.UnlinkedPoint` | crates/oxiroute-cache/src/disk.rs:764-766 | after the sync exactly the unlinked names are gone, and every crash before it left a part of the old directory |
| `TagIndex.ExactUnique` | crates/oxiroute-cache/src/disk.rs:795-819 | there is only one exact tag index for a table |
| `DiskIndex.DiskIndex.NextSequence` | crates/oxiroute-cache/src/disk.rs:790-793 | the next number, saturating |
| `DiskIndex.DiskIndex.Insert` | crates/oxiroute-cache/src/disk.rs:795-804 | keeps the tag index exact |
| `DiskIndex.DiskIndex.Remove` | crates/oxiroute-cache/src/disk.rs:806-818 | gives the size back and keeps the tag index exact with no empty sets |
| `DiskIndex.DiskIndex.KeysTagged` | crates/oxiroute-cache/src/disk.rs:461-468 | exactly the records that carry the tag |
| `DiskIndex.DiskIndex.SizeOf` | crates/oxiroute-cache/src/disk.rs:839-841 | the exact total size of some records |
| `DiskIndex.DiskIndex.OldestOutside` | crates/oxiroute-cache/src/disk.rs:849-860 | the unique least recently accessed record outside a set |
| `DiskIndex.DiskIndex.AdmissionVictims` | crates/oxiroute-cache/src/disk.rs:821-865 | the mandatory records and the shortest least-recently-accessed prefix of the others that fits; fails if and only if the record exceeds the whole quota, so the quota error in the loop is unreachable |
| `DiskIndex.InsertExactIffAbsent` | crates/oxiroute-cache/src/disk.rs:795-804 | `State::insert` keeps the byte count exact if and only if the key was absent |
| `Ledger.AgreeTouch` | crates/oxiroute-cache/src/disk.rs:628-652 | touching on both sides keeps keys and order equal |
| `Ledger.AgreePut` | crates/oxiroute-cache/src/disk.rs:569-607 | storing on both sides keeps keys and order equal |
| `Crashes.SafeFromSurvives` | crates/oxiroute-cache/src/disk.rs:673-734 | names that survive a crash are those of a part of the table between floor and ceiling, with complete files |
| `Crashes.LeftWithinQuota` | crates/oxiroute-cache/src/disk.rs:536-611 | whatever a crash leaves respects the quotas |
| `RecordStore.RecordStore.Erase` | crates/oxiroute-cache/src/disk.rs:415-425 | exactly the given records leave table, tag index and directory; every crash point keeps all others |
| `RecordStore.RecordStore.Publish` | crates/oxiroute-cache/src/disk.rs:673-734 | exactly one record joins; every crash point keeps the others and shows the new one complete or not at all |
| `RecordStore.RecordStore.Refile` | crates/oxiroute-cache/src/disk.rs:628-652 | one record is replaced by a newer one of the same size; never both survive a crash |
| `RecordStore.RecordStore.EraseAfter` | crates/oxiroute-cache/src/disk.rs:1180-1197 | further removals after a publication stay under its ceiling |
| `RecordStore.Reenter` | crates/oxiroute-cache/src/disk.rs:1167-1172 | a recovered record joins as the newest and others leave; the byte count and tag index stay exact |
| `DiskWorld.NextEncoding` | crates/oxiroute-cache/src/disk.rs:628-645 | encoding a resident entry again cannot fail and keeps the size, so a touch changes no quota |
| `DiskWorld.RemovalRenews` | crates/oxiroute-cache/src/disk.rs:654-671 | a removal writes no record again and changes no entry |
| `DiskCache.DiskCache.Touch` | crates/oxiroute-cache/src/disk.rs:628-652 | memory and disk agree again, with the entry newest on both; the new record is the encoding of the entry at this very moment on both clocks; every crash point leaves the old or new record or none |
| `DiskCache.DiskCache.EraseRecords` | crates/oxiroute-cache/src/disk.rs:569-586 | records of entries that leave memory leave the disk |
| `DiskCache.DiskCache.ReconcileBase` | crates/oxiroute-cache/src/disk.rs:654-671 | exactly the records whose entries left memory go |
| `DiskCache.DiskCache.Lookup` | crates/oxiroute-cache/src/disk.rs:356-373 | the memory step, after which memory and disk hold the same keys in the same order; exactly the record of an entry handed out was written again, at the second reading of the clock; crash safe |
| `DiskCache.DiskCache.StaleIfError` | crates/oxiroute-cache/src/disk.rs:380-389 | the memory step, after which memory and disk agree; exactly the record of an entry handed out was written again, at the second reading of the clock; crash safe |
| `DiskCache.DiskCache.BeginFill` | crates/oxiroute-cache/src/disk.rs:396-408 | leads, follows or is refused as in memory; the agreement of memory and disk is untouched |
| `DiskCache.DiskCache.CompleteWithoutStore` | crates/oxiroute-cache/src/disk.rs:614-618 | ends the own flight as in memory; the agreement of memory and disk is untouched |
| `DiskCache.DiskCache.Shutdown` | crates/oxiroute-cache/src/disk.rs:502-509 | all fills end and the directory is unchanged |
| `DiskCache.DiskCache.PurgeExact` | crates/oxiroute-cache/src/disk.rs:415-425 | exactly the record and the entry of the key go, with the fill of its base; crash safe |
| `DiskCache.DiskCache.PurgeBase` | crates/oxiroute-cache/src/disk.rs:432-454 | exactly the records and entries of the base go, with its fill; crash safe |
| `DiskCache.DiskCache.PurgeTag` | crates/oxiroute-cache/src/disk.rs:461-479 | exactly the tagged records and entries go; the disk index and memory name the same keys |
| `DiskCache.DiskCache.MakeRoom` | crates/oxiroute-cache/src/disk.rs:567-582 | the replaced and conflicting records and the shortest prefix of the others leave disk and memory |
| `DiskCache.DiskCache.Admit` | crates/oxiroute-cache/src/disk.rs:584-607 | the record is published, other threads end other fills, the entry appears in memory, and what memory evicted leaves the disk |
| `DiskCache.DiskCache.LetOthersAct` | crates/oxiroute-cache/src/cache.rs:895-938 | other threads dropping or completing guards of other generations, in any number, neither end the current one nor touch an entry |
| `DiskCache.DiskCache.Store` | crates/oxiroute-cache/src/disk.rs:536-611 | the error cases exactly; a current generation is never lost; crash points keep every surviving record, old or new version of the key, within the quotas; the new record is the entry at this moment; what memory evicts are the oldest records; afterwards memory and disk agree; other threads may end other fills before the publication and between it and the appearance in memory |
| `Scan.AloneInTime` | crates/oxiroute-cache/src/disk.rs:1529-1534 | a readable record passes the link-count test at its turn if and only if all other names of its file come earlier in the enumeration |
| `Scan.TemporaryCostsRecord` | crates/oxiroute-cache/src/disk.rs:1529-1534 | counterexample: a temporary name met after the record of the same file makes the pass remove both; in the other order the record stays |
| `Scan.ScanKeepsNewest` | crates/oxiroute-cache/src/disk.rs:1071-1135 | for every enumeration order the pass keeps, for each key, the newest admissible record, and no other name |
| `Scan.FoundIffShown` | crates/oxiroute-cache/src/disk.rs:1071-1135 | a record of a key at least as new as a given one is found if and only if one of them passes |
| `Scan.ScanDetermined` | crates/oxiroute-cache/src/disk.rs:1071-1135 | the order of enumeration leaves the pass no choice |
| `Rebuild.Trim` | crates/oxiroute-cache/src/disk.rs:1145-1152 | the fewest oldest records whose removal meets the quotas |
| `Rebuild.TrimRoot` | crates/oxiroute-cache/src/disk.rs:1137-1155 | what goes is the shortest oldest prefix whose removal meets the quotas; the directory holds exactly the rest, listed oldest first |
| `Rebuild.NoEviction` | crates/oxiroute-cache/src/cache.rs:1051-1075 | where there is room nothing is evicted |
| `Recovery.ScanRoot` | crates/oxiroute-cache/src/disk.rs:1071-1135 | the loop over the directory keeps what the pass keeps and unlinks exactly the other names |
| `Recovery.FoundTable` | crates/oxiroute-cache/src/disk.rs:1103-1134 | the records found are filed, numbered apart and can be revived |
| `Recovery.ReadRoot` | crates/oxiroute-cache/src/disk.rs:1065-1155 | what is read and kept is filed, within the quotas, listed oldest first and can be revived; the directory holds exactly it |
| `Recovery.Discard` | crates/oxiroute-cache/src/disk.rs:1502-1527 | unlinks one name, with the crash point it adds |
| `Recovery.Refill` | crates/oxiroute-cache/src/disk.rs:1157-1178 | memory and table are rebuilt from the kept records, exactly as inserting them one by one leaves them; the directory only loses names |
| `Recovery.RestoreOne` | crates/oxiroute-cache/src/disk.rs:1166-1173 | memory and disk agree after each restored record; what memory gave up for it are the conflicting entries and the shortest least-recently-used prefix that makes room |
| `Recovery.RestoreAll` | crates/oxiroute-cache/src/disk.rs:1165-1176 | all records are restored oldest first; what is there after each is exactly what that many insertions into an empty memory cache leave |
| `Recovery.Open` | crates/oxiroute-cache/src/disk.rs:1059-1178 | from any directory of temporary names, unreadable files and written records, opening establishes the invariant of the running cache; it ends with the newest admissible records less the shortest oldest prefix beyond the quotas, and of these exactly what inserting them into memory one by one leaves; at every crash point of it the directory only lost names |
| `Recovery.OpenedOutcome` | crates/oxiroute-cache/src/disk.rs:1157-1178 | if no schemas conflict, the records opening ends with are those kept less the shortest oldest prefix beyond the limits of memory; all of them if all fit |
| `Recovery.OpenedDecides` | crates/oxiroute-cache/src/disk.rs:1059-1178 | for every key: a record at least as new as a given one is found if and only if one passes the scan; it is kept if and only if it and all newer ones found meet the quotas; it is there in the end if and only if its entry and all newer ones fit into memory |
| `Recovery.ShownIsThere` | crates/oxiroute-cache/src/disk.rs:1059-1178 | a record that passes the scan, or a newer one of its key, is there in the end if everything found meets the quotas and fits into memory |
| `Recovery.OpenedDetermined` | crates/oxiroute-cache/src/disk.rs:1059-1178 | directory and order of enumeration determine the scan, the records kept and the records opening ends with |
| `Replay.PrefixGrows` | crates/oxiroute-cache/src/cache.rs:1051-1075 | evicting at every insertion of a newest key comes to evicting once at the end |
| `Replay.ReplayOutcome` | crates/oxiroute-cache/src/disk.rs:1165-1176 | inserting a list oldest first into an empty cache leaves all but the shortest oldest prefix beyond the limits, if no schemas conflict |
| `Replay.ReplayDetermined` | crates/oxiroute-cache/src/disk.rs:1165-1176 | what the insertions leave is determined, conflicts included |
| `Replay.StaysIff` | crates/oxiroute-cache/src/cache.rs:1051-1075 | a key outlives the cut if and only if it and everything newer fit |
| `Replay.PartKeeps` | crates/oxiroute-cache/src/cache.rs:1051-1075 | what a whole table may keep, every part of it keeps |
| `Restart.RecordReads` | crates/oxiroute-cache/src/disk.rs:1199-1240 | a record written for an entry reads back as its image if and only if the authority is not empty |
| `Restart.ExactReads` | crates/oxiroute-cache/src/disk.rs:1311-1338 | a readable record gives back exactly what was encoded, age and wall-clock time included |
| `Restart.GoalContinues` | crates/oxiroute-cache/src/disk.rs:1059-1178 | every entry opening brings back is the one its record was written from, aged by the time between |
| `Restart.RunningTable` | crates/oxiroute-cache/src/disk.rs:1071-1135 | a scan of a running cache's directory finds exactly the entries with an authority |
| `Restart.Reopen` | crates/oxiroute-cache/src/disk.rs:224-254 | closing and reopening gives the same records, representations and recency order, evicts nothing, and ages every entry by the time between; only entries with an empty authority are missing |
| `Restart.CrashRecovers` | crates/oxiroute-cache/src/disk.rs:1059-1178 | a crash at a safe point leaves a directory that can be opened, and opening ends with the ceiling's complete records or nothing, and with every readable record of the floor that memory can hold, aged by the time between; with all of what is kept if memory can hold the ceiling |
| `Restart.StayRestored` | crates/oxiroute-cache/src/disk.rs:1165-1176 | of what is kept, memory gives up none of the entries it can hold together with all newer ones |
| `Restart.CrashContinues` | crates/oxiroute-cache/src/disk.rs:1059-1178 | what is found after a crash is aged by the time since its record was written |
| `Restart.StoreSurvivesCrash` | crates/oxiroute-cache/src/disk.rs:536-611 | a crash at any point of store: opening ends for each key with the old record, for the stored key with the old or new one, or with nothing; every readable record that survives the store is among the records opening ends with; ages continue |
| `Restart.ChangeSurvivesCrash` | crates/oxiroute-cache/src/disk.rs:628-671 | a crash at any point of a lookup, stale-if-error or purge: opening ends with a part of the old table or of the new one, never two versions, with every readable record both have, and memory gives none up; ages continue |
| `Survival.RestSurvivesCrash` | crates/oxiroute-cache/src/disk.rs:764-766 | a crash between operations loses nothing: opening finds exactly the records with the same representations and ages continued, so after a completed store the old version is impossible |
| `Survival.CrashWithinQuota` | crates/oxiroute-cache/src/disk.rs:536-611 | whatever a crash leaves at any point keeps both quotas |
| `Survival.MiddleHoldable` | crates/oxiroute-cache/src/disk.rs:1180-1197 | what memory evicts at the end of a store are the oldest records of the table in the middle, and memory can hold the others |
| `Survival.StoreThroughCrashes` | crates/oxiroute-cache/src/disk.rs:536-611 | runs store on any running cache; for every filesystem step of it and everything a crash may leave there, the directory keeps the quotas and can be opened, and opening ends with the old or the new version of the key or none, and with every readable record that survives the store, with ages continued |
| `Survival.LookupThroughCrashes` | crates/oxiroute-cache/src/disk.rs:356-373 | the same for a lookup, which touches or expires records: opening ends with part of the table before or of the table after, within the quotas, with every readable record both have, and ages continued |
| `Survival.PurgeTagThroughCrashes` | crates/oxiroute-cache/src/disk.rs:461-479 | the same for a purge by tag |
| `Survival.FewerNamesRecoverable` | crates/oxiroute-cache/src/disk.rs:1059-1178 | a directory that lost some names to a crash can still be opened |
| `Survival.OpenThroughCrashes` | crates/oxiroute-cache/src/disk.rs:224-254 | every crash point of opening leaves a directory that can be opened and still holds the names of all records the first opening ended with; opening it again, in whatever order, ends with such a record or a newer one of its key if and only if one passes the scan and it and all newer ones found meet the quotas and fit into memory; the record itself passes if and only if all other names of its file come earlier |
| `Survival.NewerComesBack` | crates/oxiroute-cache/src/disk.rs:1071-1176 | counterexample: the sole record of its file can be lost, because a crash brings back a newer record that the first opening dropped, and there is room for one |
| `Lifetimes.PresentAge` | crates/oxiroute-cache/src/cache.rs:588-592 | the age of an entry is that of the response on arrival plus all time resident and all time on disk, added exactly and capped once |
| `Lifetimes.AgeSinceWriting` | crates/oxiroute-cache/src/disk.rs:1331-1338 | the age is the age last written plus the time since, on the wall clock up to the restart and the monotonic clock after it, so it never drops below what was written |
| `Lifetimes.TouchKeepsLives` | crates/oxiroute-cache/src/disk.rs:628-652 | a lookup or error answer adds one writing, at its moment, to the life of the entry it hands out and changes no other |
| `Lifetimes.StoreKeepsLives` | crates/oxiroute-cache/src/disk.rs:536-611 | a store begins the life of the new entry at its moment and changes no other |
| `Lifetimes.ReturnKeepsLives` | crates/oxiroute-cache/src/disk.rs:1059-1178 | whatever part of the records opening finds again, however the cache went down: their lives go on |
| `Lifetimes.LookupIsJustified` | crates/oxiroute-cache/src/cache.rs:579-638 | what a lookup hands out is the response its life began with, at its true age, from an exchange that applies to the request, safe by what it says; a hit obeys the request |
| `Lifetimes.ErrorIsJustified` | crates/oxiroute-cache/src/cache.rs:645-668 | the same for an answer on error |
| `Service.ServeLookup` | crates/oxiroute-cache/src/disk.rs:356-373 | lookup on a cache with chronicled lives takes the step of the memory cache; what it hands out is justified by the life of the entry, which goes on with a writing at the second reading of the clock |
| `Service.ServeError` | crates/oxiroute-cache/src/disk.rs:380-389 | the same for stale-if-error |
| `Service.ServeStore` | crates/oxiroute-cache/src/disk.rs:277-313 | prepare and store: the entry is published if and only if prepare makes it of the exchange, the guard leads its fill and its record is not too large; then its life begins, otherwise no entry changes |
| `Service.ServePurge` | crates/oxiroute-cache/src/disk.rs:415-479 | takes the purge step of the memory cache, refuses exactly invalid tags, and changes no life |
| `Service.ServeReopen` | crates/oxiroute-cache/src/disk.rs:224-254 | closing and opening again: every life goes on |
| `Service.Perform` | crates/oxiroute-cache/src/disk.rs:224-671 | each operation does what the memory cache does, keeps the chronicle, and hands out exactly what the step of the memory cache answers, which the chronicle justifies |
| `Service.Serve` | crates/oxiroute-cache/src/disk.rs:224-671 | through every sequence of lookups, error answers, fills, stores, purges and restarts on a directory that was empty at first, each call takes the step of the memory cache and every answer of such a step, and no other, is handed out: a prepared response at its true age, downtime included, and safe by the directives of its exchange; all calls are served if stores use guards and exchanges of the cache they are called on and there are at most as many calls as numbers |
| `Expander.MergeObjects` | crates/oxiroute-config-source/src/templates.rs:167-177 | the loop computes the right-biased deep merge |
| `Expander.MergeAt` | crates/oxiroute-config-source/src/templates.rs:167-177 | what a merge holds at any path: the overlay where it has something, the target otherwise |
| `Expander.LastLayerAt` | crates/oxiroute-config-source/src/templates.rs:88-106 | what an object holds at any path: what the last of its layers that speaks of the path holds there |
| `Expander.MergeIsNotAssociative` | crates/oxiroute-config-source/src/templates.rs:88-97 | counterexample: the merge is not associative, so the fold runs from left to right |
| `Expander.Expander.ExpandValue` | crates/oxiroute-config-source/src/templates.rs:66-80 | arrays and objects are expanded in order; the memo and the restored stack are as specified |
| `Expander.Expander.ExpandObject` | crates/oxiroute-config-source/src/templates.rs:82-107 | templates left to right, then local fields over them |
| `Expander.Expander.ApplyUses` | crates/oxiroute-config-source/src/templates.rs:88-97 | each named template is resolved in order and merged over what came before, so the result is made of what they mean, later ones on top; the first error ends the fold |
| `Expander.Expander.ExpandLocal` | crates/oxiroute-config-source/src/templates.rs:99-104 | every field but the marker is expanded, in key order; the first error ends the loop |
| `Expander.Expander.ResolveTemplate` | crates/oxiroute-config-source/src/templates.rs:109-145 | depth limit, memo, active names and table, in that order |
| `Expander.ExpandTemplates` | crates/oxiroute-config-source/src/templates.rs:18-57 | a returned value is what the document means, read off the document itself: at every path of keys the topmost layer decides, local fields over templates and later listed templates over earlier ones; no `use` key is left; what a document means within 64 levels is returned if the limits allow; template errors have a cause in the document |
| `TemplateFacts.ExpansionIsPlain` | crates/oxiroute-config-source/src/templates.rs:65-146 | whenever expansion returns a value, it is the plain left-to-right expansion, which is exactly what the document means (`TemplateMeaning.PlainIffMeans`), and no object in it has a `use` key |
| `TemplateFacts.PlainSucceeds` | crates/oxiroute-config-source/src/templates.rs:65-146 | whatever the plain expansion can do within the depth limit, the expander does with the same result |
| `TemplateFacts.ErrorsAreJustified` | crates/oxiroute-config-source/src/templates.rs:109-137 | every error reports a defect the document has: a malformed marker, an unknown or non-object template, a use cycle or a chain longer than the limit, reachable from the root |
| `TemplateFacts.ReachableCycleFails` | crates/oxiroute-config-source/src/templates.rs:120-127 | a reachable use cycle always gives an error |
| `TemplateFacts.CleanDocumentExpands` | crates/oxiroute-config-source/src/templates.rs:82-145 | known names, well-formed markers and chains of at most 64 always expand |
| `TemplateFacts.CycleNeverOk` | crates/oxiroute-config-source/src/templates.rs:120-127 | a template on a cycle has no plain expansion |
| `TemplateMeaning.MergeSees` | crates/oxiroute-config-source/src/templates.rs:167-177 | what a merge shows at any path: what the overlay shows, or the target where the overlay is silent |
| `TemplateMeaning.MadeOfOnce` | crates/oxiroute-config-source/src/templates.rs:88-106 | the layers of an object determine it |
| `TemplateMeaning.MeansOnce` | crates/oxiroute-config-source/src/templates.rs:65-146 | a document means one value only, whatever the bound on levels |
| `TemplateMeaning.PlainIffMeans` | crates/oxiroute-config-source/src/templates.rs:82-107 | plain expansion returns a value if and only if the document means it |
| `TemplateMeaning.ExpansionIffMeaning` | crates/oxiroute-config-source/src/templates.rs:65-146 | the memoizing expander returns only what a document means, and returns it whenever 64 levels suffice |
| `TemplateMeaning.UsesStack` | crates/oxiroute-config-source/src/templates.rs:88-97 | the fold over the listed templates gives an object made of what each means, later ones on top |
| `TemplateMeaning.OwnFieldWins` | crates/oxiroute-config-source/src/templates.rs:98-106 | a scalar of the object itself stands in the result |
| `TemplateMeaning.LastListedWins` | crates/oxiroute-config-source/src/templates.rs:88-97 | for a key the object does not have, the last template of its `use` list that expands to something there decides |
| `TemplateDepth.MemoReachesDeeper` | crates/oxiroute-config-source/src/templates.rs:114-119 | counterexample: the memo lets a document through whose plain expansion exceeds the depth limit |
| `Nonces.NonceClient.TakeNonce` | crates/oxiroute-acme/src/protocol.rs:1317-1339 | the nonce handed out has never been sent; the pool is empty afterwards |
| `Nonces.NonceClient.RecordNonce` | crates/oxiroute-acme/src/protocol.rs:1341-1351 | pools a valid nonce; the overflow branch is dead |
| `Nonces.NonceClient.Request` | crates/oxiroute-acme/src/protocol.rs:1283-1315 | does what the specified request does: result, nonces sent, pool and numbering; over every run no nonce is sent twice and at most one is pooled |
| `Nonces.NonceClient.TryOnce` | crates/oxiroute-acme/src/protocol.rs:1283-1312 | one turn of the loop does what the specified attempt does |
| `Nonces.TryIsRight` | crates/oxiroute-acme/src/protocol.rs:1283-1312 | one attempt: at most one send, of the pooled nonce or a fetched one; an error of its own unless answered; the pool is left with just the nonce of the answer |
| `Nonces.RequestIsRight` | crates/oxiroute-acme/src/protocol.rs:1283-1315 | the outcome in every case; at most two sends; the retry uses the nonce that came with the refusal or a newly fetched one |
| `Nonces.NonceClient.Clone` | crates/oxiroute-acme/src/protocol.rs:708-715 | a clone starts with a copy of the pool |
| `Nonces.TakeTurns` | crates/oxiroute-acme/src/protocol.rs:708-715 | cloning a client and letting both make requests in any order, whatever the server answers, goes as specified |
| `Nonces.BothSendPooled` | crates/oxiroute-acme/src/protocol.rs:708-715 | counterexample: with a pooled nonce, one request by each sends it twice |
| `Nonces.CloneIsSafeIffEmpty` | crates/oxiroute-acme/src/protocol.rs:708-715 | a client and its clone never send the same nonce, through every sequence of requests by either, if and only if the pool was empty at the cloning |
| `Challenges.StepKeepsInv` | crates/oxiroute-acme/src/challenge.rs:124-266 | every step, those of other stores on the shared lease counter included, keeps the store within its capacity, records valid and lease identifiers distinct |
| `Challenges.LeaseNamesOneRecord` | crates/oxiroute-acme/src/challenge.rs:142-144 | a lease identifier names one record for the rest of the run |
| `Challenges.LeaseRemovesItsOwn` | crates/oxiroute-acme/src/challenge.rs:252-311 | dropping a lease removes the record it was issued for or nothing, in particular not a later record with the same token |
| `Challenges.ProvisionIsExact` | crates/oxiroute-acme/src/challenge.rs:124-151 | provisioning clears out exactly the expired records; refused if and only if the record is invalid, a live record has the token, or the live ones fill the store; otherwise the record is filed under a new lease |
| `Challenges.LookupIsLive` | crates/oxiroute-acme/src/challenge.rs:155-173 | what a lookup returns is the unexpired authorization of a record provisioned earlier |
| `ChallengeStore.ChallengeStore.Provision` | crates/oxiroute-acme/src/challenge.rs:124-151 | valid, unexpired, not duplicated and within capacity; the lease gets a new identifier |
| `ChallengeStore.ChallengeStore.Lookup` | crates/oxiroute-acme/src/challenge.rs:155-173 | never an expired authorization |
| `ChallengeStore.ChallengeStore.Cancel` | crates/oxiroute-acme/src/challenge.rs:203-209 | removes exactly the record of the token and says whether there was one |
| `ChallengeStore.ChallengeStore.CancelMatching` | crates/oxiroute-acme/src/challenge.rs:242-250 | removes and counts exactly the matching records |
| `ChallengeStore.ChallengeStore.CancelAuthorization` | crates/oxiroute-acme/src/challenge.rs:213-215 | exactly the records of the authorization go, counted; the others stay as they are |
| `ChallengeStore.ChallengeStore.CancelOrder` | crates/oxiroute-acme/src/challenge.rs:219-221 | exactly the records of the order go, counted; the others stay as they are |
| `ChallengeStore.ChallengeStore.ReapExpired` | crates/oxiroute-acme/src/challenge.rs:225-227 | exactly the expired records go, counted; the others stay as they are |
| `ChallengeStore.ChallengeStore.CancelOwned` | crates/oxiroute-acme/src/challenge.rs:252-266 | removes the record only if it carries the identifier |
| `ChallengeStore.ChallengeLease.Release` | crates/oxiroute-acme/src/challenge.rs:300-311 | acts once, on its own record |

## Left out

- Failing filesystem calls, the `closed` flag that follows them, root opening, ownership probes, modes and locks: operating-system behaviour. Every filesystem call in the model succeeds, so contracts speak about crashes, not about I/O errors.
- Unsynced file contents: a temporary file may hold anything after a crash; only synced files are complete. Directory operations survive in order, any subset of them.
- `DiskCache::validate`, `stats` and the prepare wrappers of `disk.rs`: plain forwarding.
- `Cache-Control` and HTTP date parsing, the `div_f32` heuristic: they arrive parsed, and a tenth of the time since modification is an input capped by the configured maximum.
- `prepare_not_modified` and `merge_not_modified_headers`: they reuse `prepare_inner` on merged headers.
- HTTP/1 authority syntax beyond host and port: `http::uri::Authority` is modelled as userinfo, host and optional port, and `http::HeaderMap` as a list of name and value pairs.
- Structural limits of `limits.rs` (depth, nodes, string and output sizes): parameters of `Expander.ExpandTemplates`.
- JWS, CSR, transport and polling of the ACME client: cryptography and I/O; the server's answers are inputs.
- `ChallengeStore::route`: path and method matching in front of `lookup`.
- MemoryCache.MemoryCache.InsertEntry: asks for a total quota below the largest size, without which the eviction test is not exact (`Entries.SaturatedTestIsExact`).
- CacheRuns.HitsAreSafe: speaks of arbitrary inserted entries, so it names no directive; `Staleness.LookupsAreSafe` does for prepared entries.
- CacheRuns.ErrorAnswersAreSafe: speaks of arbitrary inserted entries, so it names no directive and bounds the age by keep only for canonical windows; `Staleness.ErrorsAreSafe` has neither restriction for prepared entries.
- Identity.CanonicalAuthorityIdempotent: the condition is relative to the modelled grammar of authorities, which refuses a bracket inside a host; a host such as `a[b]`, if the library accepts it, would be printed without its last bracket.
- RecordReader.DecodeRecord: wall-clock times range over 64-bit signed seconds, as on Unix; other platforms have other ranges.
- DiskCache.DiskCache.Touch: asks for a disk sequence below the 64-bit limit, because the source saturates there and numbers stop being distinct; version 1 records, which grow when re-encoded, do not occur in a cache opened by this model.
- DiskCache.DiskCache.Lookup: asks for a disk sequence below the 64-bit limit, as `Touch`, and has no I/O errors.
- DiskCache.DiskCache.StaleIfError: asks for a disk sequence below the 64-bit limit, as `Touch`, and has no I/O errors.
- DiskCache.DiskCache.Store: asks for a disk sequence below the 64-bit limit, as `Touch`; checks before the disk lock is taken and those under it are one check here. Other threads act only through guards of other generations: every other operation takes the disk lock.
- Service.Serve: restarts in it are clean; `Lifetimes.ReturnKeepsLives` covers what a crash leaves. It stops at a call with a disk sequence at its limit or a store with a guard or an exchange of another cache.
- Recovery.OpenedDecides: says which entries fit into memory only where no two kept keys of one base have different schemas; otherwise `Replay.ReplayDetermined` says that the outcome is determined, without a closed form. Directories the cache itself leaves have no such keys.
- DiskIndex.DiskIndex.AdmissionVictims: asks for a quota below the largest 64-bit number, because the source adds sizes with saturation.
- Recovery.Open: asks that records which decode were written by the cache under their own access number, with a number and a file each; ties between equal access numbers, and records of version 1, do not occur then. The counters of removed temporaries and corrupt records are not modelled.
- Challenges.StepKeepsInv: lease identifiers are unbounded numbers; the source's 64-bit counter would wrap.
- Nonces.NonceClient.Request: the text of a server's answers is not interpreted beyond the nonce and the bad-nonce marker.
