/** The HTTP-01 challenge store (`challenge.rs`), section 8.3 of RFC 8555: a bounded map from
    tokens to records stamped with the identifier of the lease that may remove them. */
module Challenges {
  import opened Prelude
  import opened Sets

  const MAX_CHALLENGES: nat := 1024
  const MAX_TTL_SECONDS: nat := 3600
  const MAX_TOKEN_BYTES: nat := 256
  const MAX_KEY_AUTHORIZATION_BYTES: nat := 512

  datatype Record = Record(
    token: string, keyAuthorization: string, accountId: string, orderId: string, authorizationId: string,
    challengeId: string,
    created: nat, expires: nat)

  datatype Stored = Stored(record: Record, owner: nat)

  type Entries = map<string, Stored>

  datatype StoreError = InvalidRecord | DuplicateToken | CapacityExceeded

  // ---------------------------------------------------------------- validity

  predicate Alphanumeric(c: char) {
    'a' <= c <= 'z' || 'A' <= c <= 'Z' || '0' <= c <= '9'
  }

  predicate ValidToken(token: string) {
    && 0 < |token| <= MAX_TOKEN_BYTES
    && forall i :: 0 <= i < |token| ==> Alphanumeric(token[i]) || token[i] == '-' || token[i] == '_'
  }

  predicate ValidId(id: string) {
    0 < |id| <= 256 && forall i :: 0 <= i < |id| ==> Alphanumeric(id[i]) || id[i] == '-' || id[i] == '_' || id[i] == '.'
  }

  predicate ValidKeyAuthorization(text: string) {
    0 < |text| <= MAX_KEY_AUTHORIZATION_BYTES && forall i :: 0 <= i < |text| ==> ' ' < text[i] <= '\U{7F}'
  }

  /** `validate_record`. */
  predicate ValidRecord(r: Record) {
    && ValidToken(r.token) && ValidKeyAuthorization(r.keyAuthorization)
    && ValidId(r.accountId) && ValidId(r.orderId) && ValidId(r.authorizationId) && ValidId(r.challengeId)
    && r.created < r.expires <= r.created + MAX_TTL_SECONDS
  }

  // ---------------------------------------------------------------- steps

  /** The store and the next lease identifier. */
  datatype State = State(entries: Entries, nextLease: nat)

  /** `retain` with the opposite of a test. */
  function Dropping(entries: Entries, test: Record -> bool): Entries {
    map t | t in entries && !test(entries[t].record) :: entries[t]
  }

  function ExpiredBy(now: nat): Record -> bool {
    (r: Record) => r.expires <= now
  }

  datatype Event =
    | Provision(record: Record, lease: Result<nat, StoreError>)
    | Lookup(token: string, now: nat, found: Option<string>)
    | Cancel(token: string)
    | CancelMatching(test: Record -> bool)
    | DropLease(token: string, owner: nat)
    | OtherStore

  ghost predicate Provisioned(capacity: nat, s: State, r: Record, lease: Result<nat, StoreError>, s': State) {
    if !ValidRecord(r) then lease == Err(InvalidRecord) && s' == s
    else
      var live := Dropping(s.entries, ExpiredBy(r.created));
      if r.token in live then lease == Err(DuplicateToken) && s' == s.(entries := live)
      else if |live| >= capacity then lease == Err(CapacityExceeded) && s' == s.(entries := live)
      else lease == Ok(s.nextLease) && s' == State(live[r.token := Stored(r, s.nextLease)], s.nextLease + 1)
  }

  ghost predicate LookedUp(s: State, token: string, now: nat, found: Option<string>, s': State) {
    if !ValidToken(token) || token !in s.entries then found == None && s' == s
    else if s.entries[token].record.expires <= now then found == None && s' == s.(entries := s.entries - {token})
    else found == Some(s.entries[token].record.keyAuthorization) && s' == s
  }

  /** `cancel_owned`. */
  function Released(entries: Entries, token: string, owner: nat): Entries {
    if token in entries && entries[token].owner == owner then entries - {token} else entries
  }

  ghost predicate Step(capacity: nat, s: State, event: Event, s': State) {
    match event
    case Provision(r, lease) => Provisioned(capacity, s, r, lease, s')
    case Lookup(token, now, found) => LookedUp(s, token, now, found, s')
    case Cancel(token) => s' == s.(entries := s.entries - {token})
    case CancelMatching(test) => s' == s.(entries := Dropping(s.entries, test))
    case DropLease(token, owner) => s' == s.(entries := Released(s.entries, token, owner))
    case OtherStore => s'.entries == s.entries && s'.nextLease >= s.nextLease
  }

  // ---------------------------------------------------------------- invariant

  ghost predicate EntryInv(s: State, t: string)
    requires t in s.entries
  {
    s.entries[t].record.token == t && ValidRecord(s.entries[t].record) && s.entries[t].owner < s.nextLease
  }

  /** Within capacity; records are valid and filed under their token; no two share a lease. */
  ghost predicate Inv(capacity: nat, s: State) {
    && |s.entries| <= capacity
    && (forall t :: t in s.entries ==> EntryInv(s, t))
    && forall t, u :: t in s.entries && u in s.entries && t != u ==> s.entries[t].owner != s.entries[u].owner
  }

  ghost predicate Shrunk(a: Entries, b: Entries) {
    forall t :: t in b ==> t in a && b[t] == a[t]
  }

  lemma ShrunkKeepsInv(capacity: nat, s: State, s': State)
    requires Inv(capacity, s) && Shrunk(s.entries, s'.entries) && s'.nextLease >= s.nextLease
    ensures Inv(capacity, s') && |s'.entries| <= |s.entries|
  {
    hide ValidRecord;
    assert s'.entries.Keys <= s.entries.Keys;
    SubsetSize(s'.entries.Keys, s.entries.Keys);
    assert |s'.entries| == |s'.entries.Keys| && |s.entries| == |s.entries.Keys|;
    forall t | t in s'.entries
      ensures EntryInv(s', t)
    {
      assert EntryInv(s, t);
    }
  }

  lemma AddedKeepsInv(capacity: nat, s: State, r: Record)
    requires Inv(capacity, s) && |s.entries| < capacity && ValidRecord(r) && r.token !in s.entries
    ensures Inv(capacity, State(s.entries[r.token := Stored(r, s.nextLease)], s.nextLease + 1))
  {
    hide ValidRecord;
    var s' := State(s.entries[r.token := Stored(r, s.nextLease)], s.nextLease + 1);
    AddKeySize(s.entries, r.token, Stored(r, s.nextLease));
    forall t | t in s'.entries
      ensures EntryInv(s', t) && (t != r.token ==> s'.entries[t].owner < s.nextLease)
    {
      if t != r.token {
        assert EntryInv(s, t);
      }
    }
  }

  /** Every step keeps the invariant; in particular the store never exceeds its capacity. */
  lemma StepKeepsInv(capacity: nat, s: State, event: Event, s': State)
    requires Inv(capacity, s) && Step(capacity, s, event, s')
    ensures Inv(capacity, s')
  {
    hide ValidRecord, Inv, ValidToken;
    match event {
      case Provision(r, lease) =>
        var live := s.(entries := Dropping(s.entries, ExpiredBy(r.created)));
        ShrunkKeepsInv(capacity, s, live);
        if lease.Ok? {
          AddedKeepsInv(capacity, live, r);
        }
      case _ => ShrunkKeepsInv(capacity, s, s');
    }
  }

  // ---------------------------------------------------------------- runs

  datatype Run = Run(states: seq<State>, events: seq<Event>)

  ghost predicate StepAt(capacity: nat, run: Run, i: nat)
    requires i + 1 < |run.states| && i < |run.events|
  {
    Step(capacity, run.states[i], run.events[i], run.states[i + 1])
  }

  ghost predicate IsRun(capacity: nat, run: Run) {
    && |run.states| == |run.events| + 1 && run.states[0].entries == map[]
    && forall i :: 0 <= i < |run.events| ==> StepAt(capacity, run, i)
  }

  lemma {:induction false} InvThroughout(capacity: nat, run: Run, i: nat)
    requires IsRun(capacity, run) && i < |run.states|
    ensures Inv(capacity, run.states[i])
  {
    if i > 0 {
      InvThroughout(capacity, run, i - 1);
      assert StepAt(capacity, run, i - 1);
      StepKeepsInv(capacity, run.states[i - 1], run.events[i - 1], run.states[i]);
    }
  }

  /** Whatever is filed with this lease is this record. */
  ghost predicate Belongs(s: State, owner: nat, r: Record) {
    forall t :: t in s.entries && s.entries[t].owner == owner ==> t == r.token && s.entries[t].record == r
  }

  lemma StepKeepsBelonging(capacity: nat, s: State, event: Event, s': State, owner: nat, r: Record)
    requires Step(capacity, s, event, s') && Belongs(s, owner, r) && owner < s.nextLease
    ensures Belongs(s', owner, r) && s.nextLease <= s'.nextLease
  {
    hide ValidRecord, ValidToken;
  }

  /** Lease identifiers are never reused: through the rest of a run, whatever carries the
      identifier handed out at step `i` is the record provisioned then. */
  lemma {:induction false} LeaseNamesOneRecord(capacity: nat, run: Run, i: nat, j: nat)
    requires IsRun(capacity, run) && i < j < |run.states|
    requires run.events[i].Provision? && run.events[i].lease.Ok?
    ensures Belongs(run.states[j], run.events[i].lease.value, run.events[i].record)
    ensures run.events[i].lease.value < run.states[j].nextLease
  {
    var r, owner := run.events[i].record, run.events[i].lease.value;
    assert StepAt(capacity, run, j - 1);
    if j == i + 1 {
      InvThroughout(capacity, run, i);
      FreshBelongs(capacity, run.states[i], r, run.states[j]);
    } else {
      LeaseNamesOneRecord(capacity, run, i, j - 1);
      StepKeepsBelonging(capacity, run.states[j - 1], run.events[j - 1], run.states[j], owner, r);
    }
  }

  lemma FreshBelongs(capacity: nat, s: State, r: Record, s': State)
    requires Inv(capacity, s) && Provisioned(capacity, s, r, Ok(s.nextLease), s')
    ensures Belongs(s', s.nextLease, r)
  {
    hide ValidRecord;
    forall t | t in s'.entries && t != r.token
      ensures s'.entries[t].owner != s.nextLease
    {
      assert EntryInv(s, t);
    }
  }

  /** Dropping a lease removes the record it was issued for, or nothing at all; in particular
      not a later record with the same token. */
  lemma LeaseRemovesItsOwn(capacity: nat, run: Run, i: nat, j: nat)
    requires IsRun(capacity, run) && i < j < |run.events|
    requires run.events[i].Provision? && run.events[i].lease.Ok?
    requires run.events[j] == DropLease(run.events[i].record.token, run.events[i].lease.value)
    ensures var before, after := run.states[j].entries, run.states[j + 1].entries;
            && after.Keys <= before.Keys
            && forall t :: t in before && t !in after ==>
                 t == run.events[i].record.token && before[t] == Stored(run.events[i].record, run.events[i].lease.value)
  {
    LeaseNamesOneRecord(capacity, run, i, j);
    assert StepAt(capacity, run, j);
  }

  /** Provisioning clears out what has expired and nothing else; it is refused for a token that a
      live record has, or for want of room among the live ones, and otherwise files the record. */
  lemma ProvisionIsExact(capacity: nat, s: State, r: Record, lease: Result<nat, StoreError>, s': State)
    requires Step(capacity, s, Provision(r, lease), s')
    ensures lease == Err(InvalidRecord) <==> !ValidRecord(r)
    ensures lease == Err(InvalidRecord) ==> s' == s
    ensures ValidRecord(r) ==>
              && r.created < r.expires <= r.created + 3600
              && (forall t :: t != r.token ==>
                    (t in s'.entries <==> t in s.entries && r.created < s.entries[t].record.expires))
              && (forall t :: t in s'.entries && t != r.token ==> s'.entries[t] == s.entries[t])
              && (lease == Err(DuplicateToken) <==>
                    r.token in s.entries && r.created < s.entries[r.token].record.expires)
              && (lease == Err(CapacityExceeded) <==> r.token !in s'.entries && |s'.entries| >= capacity)
              && (lease.Ok? ==> s'.entries[r.token] == Stored(r, lease.value) && lease.value == s.nextLease)
  {
    hide ValidToken, ValidId, ValidKeyAuthorization;
  }

  /** What a lookup returns is the unexpired authorization of a record provisioned earlier
      in the run. */
  lemma LookupIsLive(capacity: nat, run: Run, j: nat)
    requires IsRun(capacity, run) && j < |run.events| && run.events[j].Lookup? && run.events[j].found.Some?
    ensures var e := run.events[j];
            exists i :: 0 <= i < j && Grants(run.events[i], e.token, e.now, e.found.value)
  {
    assert StepAt(capacity, run, j);
    var stored := run.states[j].entries[run.events[j].token];
    var i := Origin(capacity, run, j, run.events[j].token);
    assert Grants(run.events[i], run.events[j].token, run.events[j].now, run.events[j].found.value);
  }

  predicate Grants(e: Event, token: string, now: nat, text: string) {
    e.Provision? && e.lease.Ok? && e.record.token == token && now < e.record.expires
    && e.record.keyAuthorization == text
  }

  /** Every entry was provisioned at some step. */
  lemma {:induction false} Origin(capacity: nat, run: Run, j: nat, t: string) returns (i: nat)
    requires IsRun(capacity, run) && j < |run.states| && t in run.states[j].entries
    ensures i < j && run.events[i].Provision? && run.events[i].lease.Ok?
            && run.events[i].record == run.states[j].entries[t].record
    ensures run.events[i].record.token == t
  {
    assert StepAt(capacity, run, j - 1);
    var before, event := run.states[j - 1], run.events[j - 1];
    if event.Provision? && event.lease.Ok? && event.record.token == t {
      i := j - 1;
    } else {
      StillThere(capacity, before, event, run.states[j], t);
      i := Origin(capacity, run, j - 1, t);
    }
  }

  lemma StillThere(capacity: nat, s: State, event: Event, s': State, t: string)
    requires Step(capacity, s, event, s') && t in s'.entries
    requires !(event.Provision? && event.lease.Ok? && event.record.token == t)
    ensures t in s.entries && s'.entries[t] == s.entries[t]
  {
    hide ValidRecord, ValidToken;
  }
}
