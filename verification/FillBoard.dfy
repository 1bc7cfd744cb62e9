/** The flight map and watch channels of `cache.rs` as an object updated in place. */
module FillBoard {
  import opened Sets
  import F = Fills

  class FillBoard<B(==, !new)> {
    var flights: map<B, F.Flight>
    var channels: map<nat, F.Channel<B>>

    ghost function Fills(): F.Fills<B>
      reads this
    {
      F.Fills(flights, channels)
    }

    constructor ()
      ensures Fills() == F.Fills(map[], map[])
    {
      flights := map[];
      channels := map[];
    }

    /** Starts a generation for a base without a flight. */
    method Lead(base: B) returns (generation: nat)
      modifies this
      ensures Fills() == F.Lead(old(Fills()), base)
      ensures generation == |old(channels)|
    {
      generation := |channels|;
      flights := flights[base := F.Flight(generation, 0)];
      channels := channels[generation := F.Channel(base, F.Filling)];
    }

    method Follow(base: B)
      requires base in flights
      modifies this
      ensures Fills() == F.Follow(old(Fills()), base)
    {
      flights := flights[base := F.Flight(flights[base].generation, flights[base].followers + 1)];
    }

    /** Takes the flight of one base off, if there is one, and sends its outcome. */
    method SettleOne(base: B, outcome: F.FillOutcome) returns (hit: bool)
      requires F.FlightsOpen(Fills()) && F.OpenFlies(Fills()) && outcome != F.Filling
      modifies this
      ensures Fills() == F.Settle(old(Fills()), {base}, outcome)
      ensures hit <==> base in old(flights)
    {
      hit := base in flights;
      SettleOneIs(Fills(), base, outcome);
      if hit {
        var generation := flights[base].generation;
        flights := flights - {base};
        channels := channels[generation := F.Channel(base, outcome)];
      }
    }

    /** Settles every base of a set, one at a time. */
    method SettleAll(bases: set<B>, outcome: F.FillOutcome) returns (count: nat)
      requires F.FlightsOpen(Fills()) && F.OpenFlies(Fills()) && outcome != F.Filling
      modifies this
      ensures Fills() == F.Settle(old(Fills()), bases, outcome)
      ensures count == |bases * old(flights).Keys|
    {
      ghost var f, done := Fills(), {};
      count := 0;
      var rest := bases;
      SettleNone(f, outcome);
      hide F.Settle, F.FlightsOpen, F.OpenFlies;
      while rest != {}
        invariant done !! rest && done + rest == bases
        invariant Fills() == F.Settle(f, done, outcome)
        invariant F.FlightsOpen(Fills()) && F.OpenFlies(Fills())
        invariant count == |done * f.flights.Keys|
        decreases |rest|
      {
        var base :| base in rest;
        MoveOne(done, rest, base);
        SettleTwice(f, done, base, outcome);
        CountOneMore(done, base, f.flights.Keys);
        F.SettleKeepsOpen(Fills(), {base}, outcome);
        F.SettleKeepsFlying(Fills(), {base}, outcome);
        var hit := SettleOne(base, outcome);
        if hit {
          count := count + 1;
        }
        done, rest := done + {base}, rest - {base};
      }
      assert done == bases;
    }
  }

  lemma SettleOneIs<B(!new)>(f: F.Fills<B>, base: B, outcome: F.FillOutcome)
    requires F.FlightsOpen(f) && F.OpenFlies(f) && outcome != F.Filling
    ensures base !in f.flights ==> F.Settle(f, {base}, outcome) == f
    ensures base in f.flights ==>
              F.Settle(f, {base}, outcome) == F.Fills(f.flights - {base},
                                                      f.channels[f.flights[base].generation :=
                                                        F.Channel(base, outcome)])
  {
    var t := F.Settle(f, {base}, outcome);
    if base in f.flights {
      var g := f.flights[base].generation;
      assert t.channels == f.channels[g := F.Channel(base, outcome)];
    } else {
      assert t.flights == f.flights;
      assert t.channels == f.channels;
    }
  }

  lemma SettleNone<B(!new)>(f: F.Fills<B>, outcome: F.FillOutcome)
    ensures F.Settle(f, {}, outcome) == f
  {
    assert f.flights - {} == f.flights;
    assert F.Settle(f, {}, outcome).channels == f.channels;
  }

  lemma SettleTwice<B(!new)>(f: F.Fills<B>, bases: set<B>, base: B, outcome: F.FillOutcome)
    requires outcome != F.Filling && base !in bases
    ensures F.Settle(F.Settle(f, bases, outcome), {base}, outcome) == F.Settle(f, bases + {base}, outcome)
    ensures base in F.Settle(f, bases, outcome).flights <==> base in f.flights
  {
    var once, both := F.Settle(F.Settle(f, bases, outcome), {base}, outcome), F.Settle(f, bases + {base}, outcome);
    assert f.flights - bases - {base} == f.flights - (bases + {base});
    forall g | g in f.channels
      ensures once.channels[g] == both.channels[g]
    {
    }
    assert once.channels.Keys == both.channels.Keys;
    assert once.channels == both.channels;
  }

  lemma CountOneMore<B>(bases: set<B>, base: B, keys: set<B>)
    requires base !in bases
    ensures |(bases + {base}) * keys| == |bases * keys| + (if base in keys then 1 else 0)
  {
    if base in keys {
      assert (bases + {base}) * keys == bases * keys + {base};
    } else {
      assert (bases + {base}) * keys == bases * keys;
    }
  }
}
