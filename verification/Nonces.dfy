/** The replay-nonce pool of the ACME client (`protocol.rs`), section 6.5 of RFC 8555. The
    server's answers are inputs. Every nonce received gets a number, so that two answers with
    the same text count as two; a client and its clones share the numbering. */
module Nonces {
  import opened Prelude

  const MAX_NONCES: nat := 32

  datatype Receipt = Receipt(id: nat, text: string)

  /** The answer to a HEAD request for a nonce. */
  datatype Head = NoHead | HeadAnswer(urlMatches: bool, success: bool, nonce: Option<string>)

  /** What becomes of the signed body. */
  datatype Body = Built | NotBuilt | Oversized

  /** The answer to the signed request. */
  datatype Post = NoPost | PostAnswer(urlMatches: bool, nonce: Option<string>, badNonce: bool)

  datatype Attempt = Attempt(head: Head, body: Body, post: Post)

  datatype AcmeError =
    | Transport
    | UrlMismatch
    | UnexpectedStatus
    | MissingNonce
    | MalformedResponse
    | BodyError
    | RequestTooLarge
    | BadNonceRetryExhausted

  /** `validate_nonce`. */
  predicate ValidNonce(text: string) {
    0 < |text| <= 256 && forall i :: 0 <= i < |text| ==> ' ' < text[i] <= '\U{7F}'
  }

  /** The answer carries a nonce that may be used. */
  predicate GoodHead(head: Head) {
    head.HeadAnswer? && head.urlMatches && head.success && head.nonce.Some? && ValidNonce(head.nonce.value)
  }

  /** An attempt that is answered: there is a nonce, pooled or fetched, the body can be sent,
      and the answer is one the client accepts. */
  predicate Answered(pooled: bool, a: Attempt) {
    && (pooled || GoodHead(a.head)) && a.body == Built
    && a.post.PostAnswer? && a.post.urlMatches && (a.post.nonce.Some? ==> ValidNonce(a.post.nonce.value))
  }

  /** The nonce is the one that came with the refusal or, if none did, a newly fetched one. */
  predicate RetriedWith(attempts: nat -> Attempt, nonce: Receipt) {
    attempts(0).post.PostAnswer?
    && match attempts(0).post.nonce
       case Some(text) => nonce.text == text
       case None => attempts(1).head.HeadAnswer? && attempts(1).head.nonce == Some(nonce.text)
  }

  // ---------------------------------------------------------------- one request as a function

  /** A nonce taken, or the reason why not, with the pool and the numbering afterwards. */
  datatype Taken = Taken(nonce: Result<Receipt, AcmeError>, pool: seq<Receipt>, next: nat)

  /** `take_nonce`. */
  function Take(pool: seq<Receipt>, next: nat, head: Head): Taken {
    if pool != [] then Taken(Ok(pool[0]), pool[1..], next)
    else
      match head
      case NoHead => Taken(Err(Transport), pool, next)
      case HeadAnswer(urlMatches, success, nonce) =>
        if !urlMatches then Taken(Err(UrlMismatch), pool, next)
        else if !success then Taken(Err(UnexpectedStatus), pool, next)
        else if nonce.None? then Taken(Err(MissingNonce), pool, next)
        else if !ValidNonce(nonce.value) then Taken(Err(MalformedResponse), pool, next)
        else Taken(Ok(Receipt(next, nonce.value)), pool, next + 1)
  }

  /** `record_nonce` for a nonce that is absent or valid. */
  function Record(pool: seq<Receipt>, next: nat, nonce: Option<string>): seq<Receipt> {
    if nonce.None? then pool else (if |pool| == MAX_NONCES then pool[1..] else pool) + [Receipt(next, nonce.value)]
  }

  function NumberAfter(next: nat, nonce: Option<string>): nat {
    if nonce.None? then next else next + 1
  }

  /** What one attempt comes to: its result, none if the server refused the nonce, the nonces
      sent, and the pool and numbering left. */
  datatype Tried = Tried(result: Option<Result<Post, AcmeError>>, sends: seq<Receipt>, pool: seq<Receipt>, next: nat)

  /** One turn of the loop of `request_with_bad_nonce_retry`. */
  function Try(pool: seq<Receipt>, next: nat, attempt: Attempt): Tried {
    var t := Take(pool, next, attempt.head);
    if t.nonce.Err? then Tried(Some(Err(t.nonce.error)), [], t.pool, t.next)
    else if attempt.body == NotBuilt then Tried(Some(Err(BodyError)), [], t.pool, t.next)
    else if attempt.body == Oversized then Tried(Some(Err(RequestTooLarge)), [], t.pool, t.next)
    else if attempt.post.NoPost? then Tried(Some(Err(Transport)), [t.nonce.value], t.pool, t.next)
    else if !attempt.post.urlMatches then Tried(Some(Err(UrlMismatch)), [t.nonce.value], t.pool, t.next)
    else if attempt.post.nonce.Some? && !ValidNonce(attempt.post.nonce.value) then
      Tried(Some(Err(MalformedResponse)), [t.nonce.value], t.pool, t.next)
    else
      Tried(if attempt.post.badNonce then None else Some(Ok(attempt.post)), [t.nonce.value],
            Record(t.pool, t.next, attempt.post.nonce), NumberAfter(t.next, attempt.post.nonce))
  }

  /** The outcome of a request. */
  datatype Asked = Asked(result: Result<Post, AcmeError>, sends: seq<Receipt>, pool: seq<Receipt>, next: nat)

  /** `request_with_bad_nonce_retry`: a second attempt if the first was refused. */
  function Ask(pool: seq<Receipt>, next: nat, attempts: nat -> Attempt): Asked {
    var a := Try(pool, next, attempts(0));
    if a.result.Some? then Asked(a.result.value, a.sends, a.pool, a.next)
    else
      var b := Try(a.pool, a.next, attempts(1));
      Asked(if b.result.Some? then b.result.value else Err(BadNonceRetryExhausted), a.sends + b.sends, b.pool, b.next)
  }

  // ---------------------------------------------------------------- the client

  /** At most one nonce is pooled; it has not been sent, and none was sent twice. */
  ghost predicate Sane(pool: seq<Receipt>, sent: seq<Receipt>, next: nat) {
    && |pool| <= 1
    && (forall i, j :: 0 <= i < j < |sent| ==> sent[i].id != sent[j].id)
    && (forall i :: 0 <= i < |sent| ==> sent[i].id < next)
    && forall i :: 0 <= i < |pool| ==> pool[i].id < next && Unsent(sent, pool[i].id)
  }

  ghost predicate Unsent(sent: seq<Receipt>, id: nat) {
    forall i :: 0 <= i < |sent| ==> sent[i].id != id
  }

  /** The numbering of all nonces received by a client and its clones. */
  class Numbering {
    var next: nat

    constructor ()
      ensures next == 0
    {
      next := 0;
    }
  }

  class NonceClient {
    const numbering: Numbering
    var nonces: seq<Receipt>
    /** The nonces sent in signed requests, in order. */
    ghost var sent: seq<Receipt>

    constructor ()
      ensures Valid() && nonces == [] && sent == [] && fresh(numbering)
    {
      numbering := new Numbering();
      nonces := [];
      sent := [];
    }

    /** `AcmeClient::clone`: the pool is copied. */
    constructor Clone(client: NonceClient)
      ensures nonces == client.nonces && sent == [] && numbering == client.numbering
    {
      numbering := client.numbering;
      nonces := client.nonces;
      sent := [];
    }

    ghost predicate Valid()
      reads this, numbering
    {
      Sane(nonces, sent, numbering.next)
    }

    /** `take_nonce`: the pooled nonce, or a new one from the server. Either has never been
        sent. */
    method TakeNonce(head: Head) returns (r: Result<Receipt, AcmeError>)
      requires Valid()
      modifies this`nonces, numbering
      ensures Valid() && nonces == [] && numbering.next >= old(numbering.next)
      ensures Taken(r, nonces, numbering.next) == Take(old(nonces), old(numbering.next), head)
      ensures r.Ok? ==> Unsent(sent, r.value.id) && r.value.id < numbering.next
      ensures r.Ok? <==> old(nonces) != [] || GoodHead(head)
      ensures r.Err? ==> r.error != BadNonceRetryExhausted
      ensures old(nonces) != [] ==> r == Ok(old(nonces)[0])
      ensures old(nonces) == [] && r.Ok? ==> r.value.id >= old(numbering.next) && head.nonce == Some(r.value.text)
    {
      if |nonces| > 0 {
        r := Ok(nonces[0]);
        nonces := nonces[1..];
        return;
      }
      match head {
        case NoHead =>
          r := Err(Transport);
        case HeadAnswer(urlMatches, success, nonce) =>
          if !urlMatches {
            return Err(UrlMismatch);
          }
          if !success {
            return Err(UnexpectedStatus);
          }
          if nonce.None? {
            return Err(MissingNonce);
          }
          if !ValidNonce(nonce.value) {
            return Err(MalformedResponse);
          }
          r := Ok(Receipt(numbering.next, nonce.value));
          numbering.next := numbering.next + 1;
      }
    }

    /** `record_nonce`: pools the nonce of an answer. The branch that drops the oldest of a
        full pool is never taken, since the pool is empty here. */
    method RecordNonce(nonce: Option<string>) returns (r: Result<bool, AcmeError>)
      requires Valid() && nonces == []
      modifies this`nonces, numbering
      ensures Valid()
      ensures r.Ok? <==> nonce.None? || ValidNonce(nonce.value)
      ensures r.Ok? ==> nonces == Record([], old(numbering.next), nonce)
                        && numbering.next == NumberAfter(old(numbering.next), nonce)
      ensures r.Err? ==> r.error == MalformedResponse && nonces == [] && numbering.next == old(numbering.next)
    {
      if nonce.None? {
        return Ok(false);
      }
      if !ValidNonce(nonce.value) {
        return Err(MalformedResponse);
      }
      if |nonces| == MAX_NONCES {
        assert false;
      }
      nonces := nonces + [Receipt(numbering.next, nonce.value)];
      numbering.next := numbering.next + 1;
      r := Ok(true);
    }

    /** Marks a nonce as sent. */
    ghost method Send(nonce: Receipt)
      requires Valid() && Unsent(sent, nonce.id) && nonce.id < numbering.next && nonces == []
      modifies this`sent
      ensures Valid() && sent == old(sent) + [nonce]
    {
      sent := sent + [nonce];
    }

    /** One turn of the loop: `None` if the server refused the nonce. */
    method TryOnce(attempt: Attempt) returns (r: Option<Result<Post, AcmeError>>)
      requires Valid()
      modifies this, numbering
      ensures Valid() && numbering.next >= old(numbering.next)
      ensures var tried := Try(old(nonces), old(numbering.next), attempt);
              r == tried.result && sent == old(sent) + tried.sends && nonces == tried.pool
              && numbering.next == tried.next
    {
      hide ValidNonce;
      var taken := TakeNonce(attempt.head);
      if taken.Err? {
        return Some(Err(taken.error));
      }
      if attempt.body == NotBuilt {
        return Some(Err(BodyError));
      }
      if attempt.body == Oversized {
        return Some(Err(RequestTooLarge));
      }
      Send(taken.value);
      if attempt.post.NoPost? {
        return Some(Err(Transport));
      }
      if !attempt.post.urlMatches {
        return Some(Err(UrlMismatch));
      }
      var recorded := RecordNonce(attempt.post.nonce);
      if recorded.Err? {
        return Some(Err(recorded.error));
      }
      return if attempt.post.badNonce then None else Some(Ok(attempt.post));
    }

    /** `request_with_bad_nonce_retry`. Over every run, no nonce is sent twice. */
    method Request(attempts: nat -> Attempt) returns (r: Result<Post, AcmeError>)
      requires Valid()
      modifies this, numbering
      ensures Valid() && numbering.next >= old(numbering.next)
      ensures var asked := Ask(old(nonces), old(numbering.next), attempts);
              r == asked.result && sent == old(sent) + asked.sends && nonces == asked.pool
              && numbering.next == asked.next
    {
      hide Try, Sane;
      var retried := false;
      ghost var first := Try(nonces, numbering.next, attempts(0));
      while true
        invariant Valid() && numbering.next >= old(numbering.next)
        invariant !retried ==> nonces == old(nonces) && numbering.next == old(numbering.next) && sent == old(sent)
        invariant retried ==> first.result.None? && nonces == first.pool && numbering.next == first.next
                              && sent == old(sent) + first.sends
        decreases !retried
      {
        var tried := TryOnce(attempts(if retried then 1 else 0));
        if tried.None? {
          if retried {
            return Err(BadNonceRetryExhausted);
          }
          retried := true;
          continue;
        }
        return tried.value;
      }
    }
  }

  /** The nonce an attempt sends: the pooled one or a newly fetched one. */
  predicate SentBy(pool: seq<Receipt>, next: nat, attempt: Attempt, nonce: Receipt) {
    if pool != [] then nonce == pool[0]
    else nonce.id == next && attempt.head.HeadAnswer? && attempt.head.nonce == Some(nonce.text)
  }

  /** What an attempt does: at most one send; an error of its own unless it is answered; and if
      it is, the pool is left with just the nonce of the answer, numbered after the one sent. */
  lemma TryIsRight(pool: seq<Receipt>, next: nat, attempt: Attempt)
    requires |pool| <= 1 && forall i :: 0 <= i < |pool| ==> pool[i].id < next
    ensures var t := Try(pool, next, attempt);
            && |t.sends| <= 1 && |t.pool| <= 1 && (t.sends != [] ==> SentBy(pool, next, attempt, t.sends[0]))
            && if !Answered(pool != [], attempt) then
                 t.result.Some? && t.result.value.Err? && t.result.value.error != BadNonceRetryExhausted
               else
                 && |t.sends| == 1 && t.sends[0].id < t.next
                 && t.result == (if attempt.post.badNonce then None else Some(Ok(attempt.post)))
                 && match attempt.post.nonce
                    case None => t.pool == []
                    case Some(text) => |t.pool| == 1 && t.pool[0].text == text
                                       && t.sends[0].id < t.pool[0].id < t.next
  {
    hide ValidNonce;
    var t := Take(pool, next, attempt.head);
    assert t.nonce.Ok? <==> pool != [] || GoodHead(attempt.head);
    assert t.nonce.Ok? ==> t.pool == [] && t.nonce.value.id < t.next && SentBy(pool, next, attempt, t.nonce.value);
  }

  /** What a request does: at most two sends; the second uses the nonce that came with the
      refusal, or a newly fetched one, and has a later number; and the result in every case. */
  lemma RequestIsRight(pool: seq<Receipt>, next: nat, attempts: nat -> Attempt)
    requires |pool| <= 1 && forall i :: 0 <= i < |pool| ==> pool[i].id < next
    ensures var asked := Ask(pool, next, attempts);
            var again := attempts(0).post.PostAnswer? && attempts(0).post.nonce.Some?;
            var first, second := attempts(0), attempts(1);
            && |asked.sends| <= 2 && |asked.pool| <= 1
            && (|asked.sends| == 2 ==> RetriedWith(attempts, asked.sends[1]) && asked.sends[0].id < asked.sends[1].id)
            && if !Answered(pool != [], first) then
                 asked.result.Err? && asked.result.error != BadNonceRetryExhausted && |asked.sends| <= 1
               else if !first.post.badNonce then
                 asked.result == Ok(first.post) && |asked.sends| == 1
               else if !Answered(again, second) then
                 asked.result.Err? && asked.result.error != BadNonceRetryExhausted && |asked.sends| >= 1
               else
                 && |asked.sends| == 2
                 && asked.result == (if second.post.badNonce then Err(BadNonceRetryExhausted) else Ok(second.post))
  {
    hide Try, ValidNonce;
    var a := Try(pool, next, attempts(0));
    TryIsRight(pool, next, attempts(0));
    if a.result.None? {
      TryIsRight(a.pool, a.next, attempts(1));
    }
  }

  // ---------------------------------------------------------------- clones

  /** A client and a clone of it: the two pools, what each sent since the cloning, and the
      common numbering. */
  datatype Pair = Pair(pool: seq<Receipt>, clonePool: seq<Receipt>, sent: seq<Receipt>, cloneSent: seq<Receipt>,
                       next: nat)

  /** One request, by the clone or by the original. */
  datatype Turn = Turn(byClone: bool, attempts: nat -> Attempt)

  function AfterTurn(p: Pair, turn: Turn): Pair {
    if turn.byClone then
      var asked := Ask(p.clonePool, p.next, turn.attempts);
      p.(clonePool := asked.pool, cloneSent := p.cloneSent + asked.sends, next := asked.next)
    else
      var asked := Ask(p.pool, p.next, turn.attempts);
      p.(pool := asked.pool, sent := p.sent + asked.sends, next := asked.next)
  }

  function AfterTurns(p: Pair, turns: seq<Turn>): Pair {
    if turns == [] then p else AfterTurn(AfterTurns(p, turns[..|turns| - 1]), turns[|turns| - 1])
  }

  function Cloned(pool: seq<Receipt>, next: nat): Pair {
    Pair(pool, pool, [], [], next)
  }

  /** No nonce was sent by both. */
  ghost predicate SentApart(p: Pair) {
    forall i, j :: 0 <= i < |p.sent| && 0 <= j < |p.cloneSent| ==> p.sent[i].id != p.cloneSent[j].id
  }

  /** No nonce is in both lists. */
  ghost predicate NoShared(s: seq<Receipt>, t: seq<Receipt>) {
    forall x, y :: x in s && y in t ==> x.id != y.id
  }

  ghost predicate Below(s: seq<Receipt>, next: nat) {
    forall x :: x in s ==> x.id < next
  }

  /** Every one of these is pooled or new. */
  ghost predicate DrawnFrom(s: seq<Receipt>, pool: seq<Receipt>, next: nat) {
    forall x :: x in s ==> x in pool || x.id >= next
  }

  /** A request sends and keeps only what was pooled or is new. */
  lemma TryIsLocal(pool: seq<Receipt>, next: nat, attempt: Attempt)
    ensures var tried := Try(pool, next, attempt);
            && tried.next >= next && DrawnFrom(tried.sends, pool, next) && DrawnFrom(tried.pool, pool, next)
            && (Below(pool, next) ==> Below(tried.sends, tried.next) && Below(tried.pool, tried.next))
  {
    hide ValidNonce;
  }

  lemma AskIsLocal(pool: seq<Receipt>, next: nat, attempts: nat -> Attempt)
    ensures var asked := Ask(pool, next, attempts);
            && asked.next >= next && DrawnFrom(asked.sends, pool, next) && DrawnFrom(asked.pool, pool, next)
            && (Below(pool, next) ==> Below(asked.sends, asked.next) && Below(asked.pool, asked.next))
  {
    hide Try;
    TryIsLocal(pool, next, attempts(0));
    var a := Try(pool, next, attempts(0));
    TryIsLocal(a.pool, a.next, attempts(1));
  }

  /** What one holds or sent is nothing the other holds or sent. */
  ghost predicate AllApart(pool: seq<Receipt>, sent: seq<Receipt>, otherPool: seq<Receipt>, otherSent: seq<Receipt>,
                           next: nat) {
    && NoShared(pool, otherPool) && NoShared(pool, otherSent) && NoShared(sent, otherPool) && NoShared(sent, otherSent)
    && Below(pool, next) && Below(sent, next) && Below(otherPool, next) && Below(otherSent, next)
  }

  lemma AskStaysApart(pool: seq<Receipt>, sent: seq<Receipt>, otherPool: seq<Receipt>, otherSent: seq<Receipt>,
                      next: nat, attempts: nat -> Attempt)
    requires AllApart(pool, sent, otherPool, otherSent, next)
    ensures var asked := Ask(pool, next, attempts);
            AllApart(asked.pool, sent + asked.sends, otherPool, otherSent, asked.next)
  {
    hide Ask;
    AskIsLocal(pool, next, attempts);
  }

  lemma ApartBothWays(pool: seq<Receipt>, sent: seq<Receipt>, otherPool: seq<Receipt>, otherSent: seq<Receipt>,
                      next: nat)
    requires AllApart(pool, sent, otherPool, otherSent, next)
    ensures AllApart(otherPool, otherSent, pool, sent, next)
  {
  }

  lemma {:induction false} StayApart(p: Pair, turns: seq<Turn>)
    requires AllApart(p.pool, p.sent, p.clonePool, p.cloneSent, p.next)
    ensures var q := AfterTurns(p, turns); AllApart(q.pool, q.sent, q.clonePool, q.cloneSent, q.next)
  {
    hide AllApart, Ask;
    if turns != [] {
      var front, turn := turns[..|turns| - 1], turns[|turns| - 1];
      StayApart(p, front);
      var q := AfterTurns(p, front);
      if turn.byClone {
        ApartBothWays(q.pool, q.sent, q.clonePool, q.cloneSent, q.next);
        AskStaysApart(q.clonePool, q.cloneSent, q.pool, q.sent, q.next, turn.attempts);
        var r := AfterTurn(q, turn);
        ApartBothWays(r.clonePool, r.cloneSent, r.pool, r.sent, r.next);
      } else {
        AskStaysApart(q.pool, q.sent, q.clonePool, q.cloneSent, q.next, turn.attempts);
      }
    }
  }

  /** An attempt that sends whatever nonce is pooled. */
  const PLAIN: Attempt := Attempt(NoHead, Built, NoPost)

  const BOTH: seq<Turn> := [Turn(false, (_: nat) => PLAIN), Turn(true, (_: nat) => PLAIN)]

  lemma PooledIsSent(pool: seq<Receipt>, next: nat)
    requires pool != []
    ensures Ask(pool, next, (_: nat) => PLAIN).sends == [pool[0]] && Ask(pool, next, (_: nat) => PLAIN).next == next
  {
  }

  /** With a pooled nonce, one request by each sends it twice. */
  lemma BothSendPooled(pool: seq<Receipt>, next: nat)
    requires pool != []
    ensures AfterTurns(Cloned(pool, next), BOTH).sent == [pool[0]] == AfterTurns(Cloned(pool, next), BOTH).cloneSent
  {
    hide Ask;
    PooledIsSent(pool, next);
    assert BOTH[..1] == [BOTH[0]] && BOTH[..1][..0] == [];
    assert AfterTurns(Cloned(pool, next), []) == Cloned(pool, next);
    assert AfterTurns(Cloned(pool, next), BOTH[..1]) == AfterTurn(Cloned(pool, next), BOTH[0]);
  }

  /** A client and its clone never send the same nonce, through every sequence of requests by
      either and whatever the server answers, if and only if the pool was empty at the cloning. */
  lemma CloneIsSafeIffEmpty(pool: seq<Receipt>, next: nat)
    requires Below(pool, next)
    ensures (forall turns :: SentApart(AfterTurns(Cloned(pool, next), turns))) <==> pool == []
  {
    if pool == [] {
      forall turns
        ensures SentApart(AfterTurns(Cloned(pool, next), turns))
      {
        StayApart(Cloned(pool, next), turns);
      }
    } else {
      BothSendPooled(pool, next);
      var q := AfterTurns(Cloned(pool, next), BOTH);
      assert q.sent[0].id == q.cloneSent[0].id;
      assert !SentApart(AfterTurns(Cloned(pool, next), BOTH));
    }
  }

  ghost function PairOf(client: NonceClient, copy: NonceClient, from: nat): Pair
    requires from <= |client.sent|
    reads client, copy, client.numbering
  {
    Pair(client.nonces, copy.nonces, client.sent[from..], copy.sent, client.numbering.next)
  }

  /** Cloning a client and letting both make requests in turn goes exactly as `AfterTurns` says. */
  method TakeTurns(client: NonceClient, turns: seq<Turn>) returns (copy: NonceClient)
    requires client.Valid()
    modifies client, client.numbering
    ensures fresh(copy) && copy.numbering == client.numbering && client.Valid() && copy.Valid()
            && |client.sent| >= |old(client.sent)|
    ensures PairOf(client, copy, |old(client.sent)|) ==
              AfterTurns(Cloned(old(client.nonces), old(client.numbering.next)), turns)
  {
    hide Ask, Sane;
    ghost var from, start := |client.sent|, Cloned(client.nonces, client.numbering.next);
    copy := new NonceClient.Clone(client);
    CloneIsSane(client.nonces, client.sent, client.numbering.next);
    for i := 0 to |turns|
      invariant client.Valid() && copy.Valid() && |client.sent| >= from
      invariant PairOf(client, copy, from) == AfterTurns(start, turns[..i])
    {
      assert turns[..i + 1][..i] == turns[..i];
      ghost var sent, cloneSent, next := client.sent, copy.sent, client.numbering.next;
      if turns[i].byClone {
        var _ := copy.Request(turns[i].attempts);
        SaneLater(client.nonces, client.sent, next, client.numbering.next);
      } else {
        var _ := client.Request(turns[i].attempts);
        SaneLater(copy.nonces, copy.sent, next, client.numbering.next);
        TailGrows(sent, client.sent, from);
      }
    }
    assert turns[..|turns|] == turns;
  }

  lemma CloneIsSane(pool: seq<Receipt>, sent: seq<Receipt>, next: nat)
    requires Sane(pool, sent, next)
    ensures Sane(pool, [], next)
  {
  }

  lemma SaneLater(pool: seq<Receipt>, sent: seq<Receipt>, next: nat, later: nat)
    requires Sane(pool, sent, next) && next <= later
    ensures Sane(pool, sent, later)
  {
  }

  lemma TailGrows(sent: seq<Receipt>, more: seq<Receipt>, from: nat)
    requires sent <= more && from <= |sent|
    ensures more[from..] == sent[from..] + more[|sent|..]
  {
  }
}
