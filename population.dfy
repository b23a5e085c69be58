/** The population as a sequence of agent values: per-state counts, the
    reap of dead agents and the initial seeding. */
module Population {
  import opened Settings
  import opened Agents

  /** Number of agents of `s` in state `st`. */
  function Count(s: seq<Agent>, st: PersonState): (n: nat)
    ensures n <= |s|
  {
    if s == [] then 0
    else (if s[0].epi.state == st then 1 else 0) + Count(s[1..], st)
  }

  /** The survivors of the reap: the list comprehension keeping every agent
      whose state is not DEAD, in the order of the population. */
  function Reap(s: seq<Agent>): (r: seq<Agent>)
    ensures |r| + Count(s, Dead) == |s|
    ensures forall k :: 0 <= k < |r| ==> r[k].epi.state != Dead
    ensures forall a :: a in r ==> a in s
  {
    if s == [] then []
    else (if s[0].epi.state == Dead then [] else [s[0]]) + Reap(s[1..])
  }

  lemma {:induction false} CountConcat(a: seq<Agent>, b: seq<Agent>, st: PersonState)
    ensures Count(a + b, st) == Count(a, st) + Count(b, st)
  {
    if a == [] {
      assert a + b == b;
    } else {
      assert (a + b)[1..] == a[1..] + b;
      CountConcat(a[1..], b, st);
    }
  }

  /** Every agent is in exactly one of the four states. */
  lemma {:induction false} CountPartition(s: seq<Agent>)
    ensures Count(s, Susceptible) + Count(s, Infected) + Count(s, Recovered) + Count(s, Dead) == |s|
  {
    if s != [] {
      CountPartition(s[1..]);
    }
  }

  /** The reap is a filter: it distributes over concatenation, so survivors
      keep their relative order. */
  lemma {:induction false} ReapConcat(a: seq<Agent>, b: seq<Agent>)
    ensures Reap(a + b) == Reap(a) + Reap(b)
  {
    if a == [] {
      assert a + b == b;
    } else {
      assert (a + b)[1..] == a[1..] + b;
      ReapConcat(a[1..], b);
    }
  }

  /** A population without dead agents is left as it is. */
  lemma {:induction false} ReapNoDead(s: seq<Agent>)
    requires Count(s, Dead) == 0
    ensures Reap(s) == s
  {
    if s != [] {
      ReapNoDead(s[1..]);
    }
  }

  /** Reaping twice in a row removes nothing the second time. */
  lemma ReapIdempotent(s: seq<Agent>)
    ensures Reap(Reap(s)) == Reap(s)
  {
    ReapCounts(s, Dead);
    ReapNoDead(Reap(s));
  }

  /** The reap removes every dead agent and keeps the counts of the live states. */
  lemma {:induction false} ReapCounts(s: seq<Agent>, st: PersonState)
    ensures Count(Reap(s), st) == if st == Dead then 0 else Count(s, st)
  {
    if s != [] {
      ReapCounts(s[1..], st);
      var head := if s[0].epi.state == Dead then [] else [s[0]];
      CountConcat(head, Reap(s[1..]), st);
    }
  }

  /** The tally after the reap accounts for every survivor. */
  lemma TallyCoversSurvivors(s: seq<Agent>)
    ensures Count(Reap(s), Susceptible) + Count(Reap(s), Infected) + Count(Reap(s), Recovered)
            == |Reap(s)|
  {
    CountPartition(Reap(s));
    ReapCounts(s, Dead);
  }

  // ---------------------------------------------------------------- seeding

  /** numpy's randint(0, hi) raises unless hi > 0; both axes are drawn. */
  predicate SpawnAreaOk(c: Config) {
    c.MaxX() > 0 && c.MaxY() > 0
  }

  /** A spot the two randint draws can return: 0 <= x < boundary[0] - person_size,
      likewise for y. */
  predicate InArea(c: Config, spot: Vec) {
    0.0 <= spot.x < c.MaxX() as real && 0.0 <= spot.y < c.MaxY() as real
  }

  predicate AllInArea(c: Config, spots: seq<Vec>) {
    forall k :: 0 <= k < |spots| ==> InArea(c, spots[k])
  }

  /** The person spawn_random_person creates at a drawn spot. */
  function Spawned(c: Config, st: PersonState, spot: Vec): Agent {
    Fresh(c, spot, st)
  }

  /** The agents one seeding loop appends, one per spot. */
  function Block(c: Config, st: PersonState, spots: seq<Vec>): (r: seq<Agent>)
    ensures |r| == |spots|
  {
    seq(|spots|, k requires 0 <= k < |spots| => Spawned(c, st, spots[k]))
  }

  lemma BlockSnoc(c: Config, st: PersonState, spots: seq<Vec>, i: nat)
    requires i < |spots|
    ensures Block(c, st, spots[..i + 1]) == Block(c, st, spots[..i]) + [Spawned(c, st, spots[i])]
  {
  }

  /** One drawn spot per iteration of each seeding loop; the recovered loop
      only runs in SIRS mode. */
  predicate SeedSizes(c: Config, susceptibleSpots: seq<Vec>, infectedSpots: seq<Vec>, recoveredSpots: seq<Vec>) {
    && |susceptibleSpots| == Times(c.nSusceptible)
    && |infectedSpots| == Times(c.nInfected)
    && |recoveredSpots| == (if c.recoveredEnabled then Times(c.nRecovered) else 0)
  }

  /** How many people the seeding spawns. */
  function SeedSize(c: Config): nat {
    Times(c.nSusceptible) + Times(c.nInfected) + (if c.recoveredEnabled then Times(c.nRecovered) else 0)
  }

  /** The blocks of the infected loop and, in SIRS mode, the recovered loop. */
  function Later(c: Config, infectedSpots: seq<Vec>, recoveredSpots: seq<Vec>): (r: seq<Agent>)
    ensures |r| == |infectedSpots| + (if c.recoveredEnabled then |recoveredSpots| else 0)
  {
    Block(c, Infected, infectedSpots) + (if c.recoveredEnabled then Block(c, Recovered, recoveredSpots) else [])
  }

  /** The initial population: the susceptible block, the infected block and,
      in SIRS mode, the recovered block, each at its loop's drawn spots. */
  function Seeded(c: Config, susceptibleSpots: seq<Vec>, infectedSpots: seq<Vec>, recoveredSpots: seq<Vec>): (r: seq<Agent>)
    ensures |r| == |susceptibleSpots| + |infectedSpots| + (if c.recoveredEnabled then |recoveredSpots| else 0)
  {
    Block(c, Susceptible, susceptibleSpots) + Later(c, infectedSpots, recoveredSpots)
  }

  lemma {:induction false} CountBlock(c: Config, st: PersonState, spots: seq<Vec>, st': PersonState)
    ensures Count(Block(c, st, spots), st') == if st == st' then |spots| else 0
  {
    if spots != [] {
      assert Block(c, st, spots)[1..] == Block(c, st, spots[1..]);
      CountBlock(c, st, spots[1..], st');
    }
  }

  lemma CountSeeded(c: Config, susceptibleSpots: seq<Vec>, infectedSpots: seq<Vec>, recoveredSpots: seq<Vec>,
                    st: PersonState)
    ensures Count(Seeded(c, susceptibleSpots, infectedSpots, recoveredSpots), st) ==
              (if st == Susceptible then |susceptibleSpots| else 0)
              + (if st == Infected then |infectedSpots| else 0)
              + (if st == Recovered && c.recoveredEnabled then |recoveredSpots| else 0)
  {
    var s1 := Block(c, Susceptible, susceptibleSpots);
    var s2 := Block(c, Infected, infectedSpots);
    var s3 := if c.recoveredEnabled then Block(c, Recovered, recoveredSpots) else [];
    CountConcat(s1, s2 + s3, st);
    CountConcat(s2, s3, st);
    CountBlock(c, Susceptible, susceptibleSpots, st);
    CountBlock(c, Infected, infectedSpots, st);
    if c.recoveredEnabled {
      CountBlock(c, Recovered, recoveredSpots, st);
    }
  }

  /** The initial tally: the configured counts (none for a non-positive
      count), no recovered person in SIS mode, nobody dead. */
  lemma SeededCounts(c: Config, susceptibleSpots: seq<Vec>, infectedSpots: seq<Vec>, recoveredSpots: seq<Vec>)
    requires SeedSizes(c, susceptibleSpots, infectedSpots, recoveredSpots)
    ensures var s := Seeded(c, susceptibleSpots, infectedSpots, recoveredSpots);
            && Count(s, Susceptible) == Times(c.nSusceptible)
            && Count(s, Infected) == Times(c.nInfected)
            && Count(s, Recovered) == (if c.recoveredEnabled then Times(c.nRecovered) else 0)
            && Count(s, Dead) == 0
  {
    CountSeeded(c, susceptibleSpots, infectedSpots, recoveredSpots, Susceptible);
    CountSeeded(c, susceptibleSpots, infectedSpots, recoveredSpots, Infected);
    CountSeeded(c, susceptibleSpots, infectedSpots, recoveredSpots, Recovered);
    CountSeeded(c, susceptibleSpots, infectedSpots, recoveredSpots, Dead);
  }

  /** A person as spawn_random_person creates it: at a spot the draws can
      return, at rest, with both timers at their full lengths. */
  predicate Newborn(c: Config, a: Agent) {
    && InArea(c, a.pos)
    && a.vel == Vec(0.0, 0.0)
    && a.epi.deathTimer == c.deathTime
    && a.epi.susceptibleAgainTimer == c.susceptibleAgainTime
  }

  /** The state of the k-th seeded person: the susceptible block comes
      first, then the infected block, then the recovered one. */
  function SeedState(nSusceptible: nat, nInfected: nat, k: nat): PersonState {
    if k < nSusceptible then Susceptible
    else if k < nSusceptible + nInfected then Infected
    else Recovered
  }

  /** Every seeded person is a newborn at its drawn spot, in the state of
      its block, so the timer invariant holds from the start when both
      lengths are positive. */
  lemma SeededWellFormed(c: Config, susceptibleSpots: seq<Vec>, infectedSpots: seq<Vec>, recoveredSpots: seq<Vec>)
    requires AllInArea(c, susceptibleSpots) && AllInArea(c, infectedSpots) && AllInArea(c, recoveredSpots)
    ensures var s := Seeded(c, susceptibleSpots, infectedSpots, recoveredSpots);
            forall k :: 0 <= k < |s| ==>
              && Newborn(c, s[k])
              && s[k].epi.state == SeedState(|susceptibleSpots|, |infectedSpots|, k)
              && (c.PositiveTimes() ==> TimersOk(c, s[k].epi))
  {
    var s := Seeded(c, susceptibleSpots, infectedSpots, recoveredSpots);
    var n1, n2 := |susceptibleSpots|, |infectedSpots|;
    var later := Later(c, infectedSpots, recoveredSpots);
    forall k | 0 <= k < |s|
      ensures Newborn(c, s[k]) && s[k].epi.state == SeedState(n1, n2, k)
    {
      if k < n1 {
        assert s[k] == Spawned(c, Susceptible, susceptibleSpots[k]);
      } else if k < n1 + n2 {
        assert s[k] == later[k - n1] == Spawned(c, Infected, infectedSpots[k - n1]);
      } else {
        assert s[k] == later[k - n1] == Spawned(c, Recovered, recoveredSpots[k - n1 - n2]);
      }
    }
  }
}
