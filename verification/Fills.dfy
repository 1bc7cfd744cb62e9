/** Collapsed forwarding: at most one leader per base key, numbered generations and the
    watch channel of each generation, generic in the base key. A generation number stands
    for the pointer identity of the source's `Arc<FlightGeneration>`. */
module Fills {
  import opened Sets

  datatype Flight = Flight(generation: nat, followers: nat)

  datatype FillOutcome = Filling | Kept | NotStored | Cancelled | Purged

  datatype Channel<B> = Channel(base: B, outcome: FillOutcome)

  datatype Fills<B> = Fills(flights: map<B, Flight>, channels: map<nat, Channel<B>>)

  /** Every flight has an open channel and every open channel belongs to the flight of its
      base; generations are numbered without gaps. */
  ghost predicate Inv<B(!new)>(f: Fills<B>, maxInFlight: nat, maxFollowers: nat) {
    && |f.flights| <= maxInFlight
    && (forall b :: b in f.flights ==> f.flights[b].followers <= maxFollowers)
    && FlightsOpen(f) && OpenFlies(f) && Numbered(f)
  }

  ghost predicate FlightsOpen<B(!new)>(f: Fills<B>) {
    forall b :: b in f.flights ==>
      f.flights[b].generation in f.channels && f.channels[f.flights[b].generation] == Channel(b, Filling)
  }

  ghost predicate OpenFlies<B(!new)>(f: Fills<B>) {
    forall g :: g in f.channels && f.channels[g].outcome == Filling ==>
      f.channels[g].base in f.flights && f.flights[f.channels[g].base].generation == g
  }

  ghost predicate Numbered<B>(f: Fills<B>) {
    Counting(f.channels)
  }

  ghost predicate IsCurrent<B>(f: Fills<B>, base: B, generation: nat) {
    base in f.flights && f.flights[base].generation == generation
  }

  /** Generations whose channel carries `outcome`. */
  ghost function Ended<B>(f: Fills<B>, outcome: FillOutcome): set<nat> {
    set g | g in f.channels && f.channels[g].outcome == outcome
  }

  // ---------------------------------------------------------------- operations

  ghost function Resolve<B>(channel: Channel<B>, bases: set<B>, outcome: FillOutcome): Channel<B> {
    if channel.outcome == Filling && channel.base in bases then Channel(channel.base, outcome) else channel
  }

  /** Takes the flights of `bases` off the map and sends each its one terminal outcome. */
  ghost function Settle<B>(f: Fills<B>, bases: set<B>, outcome: FillOutcome): Fills<B> {
    Fills(f.flights - bases, map g | g in f.channels :: Resolve(f.channels[g], bases, outcome))
  }

  /** Starts a new generation for `base`. */
  ghost function Lead<B>(f: Fills<B>, base: B): Fills<B> {
    var g := |f.channels|;
    Fills(f.flights[base := Flight(g, 0)], f.channels[g := Channel(base, Filling)])
  }

  ghost function Follow<B>(f: Fills<B>, base: B): Fills<B>
    requires base in f.flights
  {
    f.(flights := f.flights[base := Flight(f.flights[base].generation, f.flights[base].followers + 1)])
  }

  // ---------------------------------------------------------------- preservation

  lemma SettleKeepsOpen<B(!new)>(f: Fills<B>, bases: set<B>, outcome: FillOutcome)
    requires FlightsOpen(f)
    ensures FlightsOpen(Settle(f, bases, outcome))
  {
  }

  lemma SettleKeepsFlying<B(!new)>(f: Fills<B>, bases: set<B>, outcome: FillOutcome)
    requires OpenFlies(f) && outcome != Filling
    ensures OpenFlies(Settle(f, bases, outcome))
  {
    var t := Settle(f, bases, outcome);
    forall g | g in t.channels && t.channels[g].outcome == Filling
      ensures t.channels[g].base in t.flights && t.flights[t.channels[g].base].generation == g
    {
      assert f.channels[g] == t.channels[g];
    }
  }

  lemma SettleCardinalities<B>(f: Fills<B>, bases: set<B>, outcome: FillOutcome)
    ensures |Settle(f, bases, outcome).channels| == |f.channels|
    ensures |Settle(f, bases, outcome).flights| <= |f.flights|
  {
    RemoveKeysSize(f.flights, bases);
    SameKeysSize(Settle(f, bases, outcome).channels, f.channels);
  }

  lemma SettleKeepsInv<B(!new)>(f: Fills<B>, bases: set<B>, outcome: FillOutcome, maxInFlight: nat, maxFollowers: nat)
    requires Inv(f, maxInFlight, maxFollowers) && outcome != Filling
    ensures Inv(Settle(f, bases, outcome), maxInFlight, maxFollowers)
    ensures |Settle(f, bases, outcome).channels| == |f.channels|
  {
    SettleKeepsOpen(f, bases, outcome);
    SettleKeepsFlying(f, bases, outcome);
    SettleCardinalities(f, bases, outcome);
  }

  lemma LeadCardinalities<B>(f: Fills<B>, base: B)
    requires Numbered(f) && base !in f.flights
    ensures |Lead(f, base).flights| == |f.flights| + 1
    ensures |Lead(f, base).channels| == |f.channels| + 1
    ensures Numbered(Lead(f, base))
  {
    CountingGrows(f.channels, Channel(base, Filling));
    AddKeySize(f.flights, base, Flight(|f.channels|, 0));
  }

  lemma LeadKeepsOpen<B(!new)>(f: Fills<B>, base: B)
    requires FlightsOpen(f) && OpenFlies(f) && base !in f.flights && |f.channels| !in f.channels
    ensures FlightsOpen(Lead(f, base)) && OpenFlies(Lead(f, base))
  {
    var t := Lead(f, base);
    forall g | g in t.channels && t.channels[g].outcome == Filling
      ensures t.channels[g].base in t.flights && t.flights[t.channels[g].base].generation == g
    {
      if g in f.channels {
        assert f.channels[g] == t.channels[g];
      }
    }
  }

  lemma LeadKeepsInv<B(!new)>(f: Fills<B>, base: B, maxInFlight: nat, maxFollowers: nat)
    requires Inv(f, maxInFlight, maxFollowers)
    requires base !in f.flights && |f.flights| < maxInFlight
    ensures Inv(Lead(f, base), maxInFlight, maxFollowers)
    ensures |Lead(f, base).channels| == |f.channels| + 1
  {
    LeadCardinalities(f, base);
    LeadKeepsOpen(f, base);
  }

  lemma FollowKeepsInv<B(!new)>(f: Fills<B>, base: B, maxInFlight: nat, maxFollowers: nat)
    requires Inv(f, maxInFlight, maxFollowers)
    requires base in f.flights && f.flights[base].followers < maxFollowers
    ensures Inv(Follow(f, base), maxInFlight, maxFollowers)
  {
    assert Follow(f, base).flights.Keys == f.flights.Keys;
    SameKeysSize(Follow(f, base).flights, f.flights);
  }

  // ---------------------------------------------------------------- counting

  ghost function GenerationsOf<B>(f: Fills<B>, bases: set<B>): set<nat>
    requires bases <= f.flights.Keys
  {
    set b | b in bases :: f.flights[b].generation
  }

  lemma {:induction false} GenerationsCount<B(!new)>(f: Fills<B>, bases: set<B>)
    requires FlightsOpen(f) && bases <= f.flights.Keys
    ensures |GenerationsOf(f, bases)| == |bases|
    decreases |bases|
  {
    if bases != {} {
      var b :| b in bases;
      GenerationsCount(f, bases - {b});
      assert GenerationsOf(f, bases) == GenerationsOf(f, bases - {b}) + {f.flights[b].generation};
      assert f.flights[b].generation !in GenerationsOf(f, bases - {b});
    }
  }

  lemma SettleEnds<B(!new)>(f: Fills<B>, bases: set<B>, outcome: FillOutcome)
    requires FlightsOpen(f) && OpenFlies(f) && outcome != Filling
    ensures Ended(Settle(f, bases, outcome), outcome) == Ended(f, outcome) + GenerationsOf(f, bases * f.flights.Keys)
    ensures Ended(f, outcome) !! GenerationsOf(f, bases * f.flights.Keys)
  {
    var hit := bases * f.flights.Keys;
    var t := Settle(f, bases, outcome);
    forall g | g in GenerationsOf(f, hit)
      ensures g in Ended(t, outcome) && g !in Ended(f, outcome)
    {
      var b :| b in hit && f.flights[b].generation == g;
      assert t.channels[g] == Channel(b, outcome);
    }
    forall g | g in Ended(t, outcome) && g !in Ended(f, outcome)
      ensures g in GenerationsOf(f, hit)
    {
      assert f.channels[g].base in hit && f.flights[f.channels[g].base].generation == g;
    }
    assert forall g :: g in Ended(f, outcome) ==> g in Ended(t, outcome);
  }

  /** One terminal outcome per flight taken off, and no other channel changes. */
  lemma SettleCounts<B(!new)>(f: Fills<B>, bases: set<B>, outcome: FillOutcome)
    requires FlightsOpen(f) && OpenFlies(f) && outcome != Filling
    ensures |Ended(Settle(f, bases, outcome), outcome)| == |Ended(f, outcome)| + |bases * f.flights.Keys|
    ensures forall o :: o != outcome && o != Filling ==> Ended(Settle(f, bases, outcome), o) == Ended(f, o)
  {
    SettleEnds(f, bases, outcome);
    GenerationsCount(f, bases * f.flights.Keys);
    SettleSparesOthers(f, bases, outcome);
    DisjointSize(Ended(f, outcome), GenerationsOf(f, bases * f.flights.Keys));
  }

  lemma SettleSparesOthers<B(!new)>(f: Fills<B>, bases: set<B>, outcome: FillOutcome)
    ensures forall o :: o != outcome && o != Filling ==> Ended(Settle(f, bases, outcome), o) == Ended(f, o)
  {
    var t := Settle(f, bases, outcome);
    forall o | o != outcome && o != Filling
      ensures Ended(t, o) == Ended(f, o)
    {
      forall g | g in f.channels
        ensures t.channels[g].outcome == o <==> f.channels[g].outcome == o
      {
      }
    }
  }

  lemma LeadCounts<B(!new)>(f: Fills<B>, base: B)
    requires Numbered(f)
    ensures forall o :: o != Filling ==> Ended(Lead(f, base), o) == Ended(f, o)
  {
    assert |f.channels| !in f.channels;
  }

  lemma FollowCounts<B(!new)>(f: Fills<B>, base: B)
    requires base in f.flights
    ensures forall o :: Ended(Follow(f, base), o) == Ended(f, o)
  {
  }

  lemma OpenAreFlights<B(!new)>(f: Fills<B>)
    requires FlightsOpen(f) && OpenFlies(f)
    ensures Ended(f, Filling) == GenerationsOf(f, f.flights.Keys)
  {
    forall g | g in Ended(f, Filling)
      ensures g in GenerationsOf(f, f.flights.Keys)
    {
      assert f.channels[g].base in f.flights.Keys;
    }
    forall g | g in GenerationsOf(f, f.flights.Keys)
      ensures g in Ended(f, Filling)
    {
      var b :| b in f.flights.Keys && f.flights[b].generation == g;
    }
  }

  lemma Partitioned<B(!new)>(f: Fills<B>)
    ensures |f.channels| == |Ended(f, Filling)| + |Ended(f, Kept)| + |Ended(f, NotStored)| + |Ended(f, Cancelled)|
              + |Ended(f, Purged)|
  {
    AllEnded(f);
    EndsApart(f, Filling, Kept);
    EndsApart(f, Filling, NotStored);
    EndsApart(f, Filling, Cancelled);
    EndsApart(f, Filling, Purged);
    EndsApart(f, Kept, NotStored);
    EndsApart(f, Kept, Cancelled);
    EndsApart(f, Kept, Purged);
    EndsApart(f, NotStored, Cancelled);
    EndsApart(f, NotStored, Purged);
    EndsApart(f, Cancelled, Purged);
    PartitionSize(f.channels.Keys, Ended(f, Filling), Ended(f, Kept), Ended(f, NotStored), Ended(f, Cancelled),
                  Ended(f, Purged));
    assert |f.channels| == |f.channels.Keys|;
  }

  lemma EndsApart<B>(f: Fills<B>, o: FillOutcome, p: FillOutcome)
    requires o != p
    ensures Ended(f, o) !! Ended(f, p)
  {
  }

  lemma AllEnded<B>(f: Fills<B>)
    ensures f.channels.Keys == Ended(f, Filling) + Ended(f, Kept) + Ended(f, NotStored) + Ended(f, Cancelled)
              + Ended(f, Purged)
  {
    forall g | g in f.channels.Keys
      ensures g in Ended(f, Filling) + Ended(f, Kept) + Ended(f, NotStored) + Ended(f, Cancelled) + Ended(f, Purged)
    {
      assert g in Ended(f, f.channels[g].outcome);
    }
  }

  /** Conservation: every generation ever started is in flight or has ended in exactly one
      of the four ways. */
  lemma Conserved<B(!new)>(f: Fills<B>, maxInFlight: nat, maxFollowers: nat)
    requires Inv(f, maxInFlight, maxFollowers)
    ensures |f.channels| == |f.flights| + |Ended(f, Kept)| + |Ended(f, NotStored)| + |Ended(f, Cancelled)|
              + |Ended(f, Purged)|
  {
    OpenAreFlights(f);
    GenerationsCount(f, f.flights.Keys);
    Partitioned(f);
    assert |f.flights| == |f.flights.Keys|;
  }
}
