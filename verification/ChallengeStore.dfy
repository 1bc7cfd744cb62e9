/** The challenge store as an object, with leases that remove their record when dropped. Each
    method runs under the store's lock and takes the step of its event. */
module ChallengeStore {
  import opened Prelude
  import opened Sets
  import opened Challenges

  /** The process-wide counter of lease identifiers. */
  class LeaseIds {
    var next: nat

    constructor ()
      ensures next == 1
    {
      next := 1;
    }

    method Take() returns (id: nat)
      modifies this
      ensures id == old(next) && next == old(next) + 1
    {
      id := next;
      next := next + 1;
    }
  }

  class ChallengeStore {
    const capacity: nat
    const ids: LeaseIds
    var entries: Entries

    ghost function State(): State
      reads this, ids
    {
      Challenges.State(entries, ids.next)
    }

    /** Never more records than the capacity, which is at most 1024. */
    ghost predicate Valid()
      reads this, ids
    {
      capacity <= MAX_CHALLENGES && Inv(capacity, State())
    }

    constructor (capacity: nat, ids: LeaseIds)
      ensures Valid() && entries == map[] && this.ids == ids && this.capacity == Min(capacity, MAX_CHALLENGES)
    {
      this.capacity := Min(capacity, MAX_CHALLENGES);
      this.ids := ids;
      entries := map[];
    }

    /** `provision`. */
    method Provision(record: Record) returns (r: Result<ChallengeLease, StoreError>)
      requires Valid()
      modifies this, ids
      ensures Valid()
      ensures r.Ok? ==> fresh(r.value) && r.value.store == this && r.value.token == Some(record.token)
      ensures Step(capacity, old(State()),
                   Challenges.Provision(record, if r.Ok? then Ok(r.value.owner) else Err(r.error)), State())
    {
      hide Inv;
      ghost var s := State();
      if !ValidRecord(record) {
        return Err(InvalidRecord);
      }
      entries := Dropping(entries, ExpiredBy(record.created));
      if record.token in entries {
        StepKeepsInv(capacity, s, Challenges.Provision(record, Err(DuplicateToken)), State());
        return Err(DuplicateToken);
      }
      if |entries| >= capacity {
        StepKeepsInv(capacity, s, Challenges.Provision(record, Err(CapacityExceeded)), State());
        return Err(CapacityExceeded);
      }
      var owner := ids.Take();
      entries := entries[record.token := Stored(record, owner)];
      StepKeepsInv(capacity, s, Challenges.Provision(record, Ok(owner)), State());
      var lease := new ChallengeLease(this, record.token, owner);
      r := Ok(lease);
    }

    /** `lookup`: never an expired authorization. */
    method Lookup(token: string, now: nat) returns (found: Option<string>)
      requires Valid()
      modifies this
      ensures Valid()
      ensures Step(capacity, old(State()), Challenges.Lookup(token, now, found), State())
      ensures found.Some? ==> token in entries && now < entries[token].record.expires
                              && found.value == entries[token].record.keyAuthorization
    {
      hide Inv;
      ghost var s := State();
      if !ValidToken(token) {
        return None;
      }
      if token in entries && entries[token].record.expires <= now {
        entries := entries - {token};
        StepKeepsInv(capacity, s, Challenges.Lookup(token, now, None), State());
        return None;
      }
      found := if token in entries then Some(entries[token].record.keyAuthorization) else None;
    }

    /** `cancel`. */
    method Cancel(token: string) returns (removed: bool)
      requires Valid()
      modifies this
      ensures Valid() && (removed <==> token in old(entries))
      ensures Step(capacity, old(State()), Challenges.Cancel(token), State())
    {
      hide Inv;
      ghost var s := State();
      removed := token in entries;
      entries := entries - {token};
      StepKeepsInv(capacity, s, Challenges.Cancel(token), State());
    }

    /** `cancel_matching`: exactly the matching records go, and the result counts them. */
    method CancelMatching(test: Record -> bool) returns (count: nat)
      requires Valid()
      modifies this
      ensures Valid() && entries == Dropping(old(entries), test)
      ensures count == |set t | t in old(entries) && test(old(entries)[t].record)| == |old(entries)| - |entries|
      ensures Step(capacity, old(State()), Challenges.CancelMatching(test), State())
    {
      hide Inv;
      ghost var s := State();
      var before := |entries|;
      CountDropped(entries, test);
      entries := Dropping(entries, test);
      count := before - |entries|;
      StepKeepsInv(capacity, s, Challenges.CancelMatching(test), State());
    }

    /** `cancel_authorization`. */
    method CancelAuthorization(id: string) returns (count: nat)
      requires Valid()
      modifies this
      ensures Valid() && forall t :: t in entries <==> t in old(entries) && old(entries)[t].record.authorizationId != id
      ensures Shrunk(old(entries), entries) && count == |old(entries)| - |entries|
    {
      count := CancelMatching((r: Record) => r.authorizationId == id);
    }

    /** `cancel_order`. */
    method CancelOrder(id: string) returns (count: nat)
      requires Valid()
      modifies this
      ensures Valid() && forall t :: t in entries <==> t in old(entries) && old(entries)[t].record.orderId != id
      ensures Shrunk(old(entries), entries) && count == |old(entries)| - |entries|
    {
      count := CancelMatching((r: Record) => r.orderId == id);
    }

    /** `reap_expired`. */
    method ReapExpired(now: nat) returns (count: nat)
      requires Valid()
      modifies this
      ensures Valid() && forall t :: t in entries <==> t in old(entries) && now < old(entries)[t].record.expires
      ensures Shrunk(old(entries), entries) && count == |old(entries)| - |entries|
    {
      count := CancelMatching(ExpiredBy(now));
    }

    /** `cancel_owned`: removes the record only if it carries the caller's identifier. */
    method CancelOwned(token: string, owner: nat) returns (removed: bool)
      requires Valid()
      modifies this
      ensures Valid() && (removed <==> token in old(entries) && old(entries)[token].owner == owner)
      ensures Step(capacity, old(State()), DropLease(token, owner), State())
    {
      hide Inv;
      ghost var s := State();
      removed := token in entries && entries[token].owner == owner;
      if removed {
        entries := entries - {token};
      }
      StepKeepsInv(capacity, s, DropLease(token, owner), State());
    }
  }

  class ChallengeLease {
    const store: ChallengeStore
    const owner: nat
    var token: Option<string>

    constructor (store: ChallengeStore, token: string, owner: nat)
      ensures this.store == store && this.token == Some(token) && this.owner == owner
    {
      this.store := store;
      this.owner := owner;
      this.token := Some(token);
    }

    /** `cancel_inner`, on completion, cancellation or drop: acts once. */
    method Release()
      requires store.Valid()
      modifies this, store
      ensures store.Valid() && token == None
      ensures old(token).None? ==> store.entries == old(store.entries)
      ensures old(token).Some? ==> store.entries == Released(old(store.entries), old(token).value, owner)
    {
      if token.Some? {
        var taken := token.value;
        token := None;
        var _ := store.CancelOwned(taken, owner);
      }
    }
  }

  lemma CountDropped(entries: Entries, test: Record -> bool)
    ensures |entries| - |Dropping(entries, test)| == |set t | t in entries && test(entries[t].record)|
  {
    var gone := set t | t in entries && test(entries[t].record);
    assert Dropping(entries, test) == entries - gone;
    RemoveKeysSize(entries, gone);
    assert gone * entries.Keys == gone;
  }
}
