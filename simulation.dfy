/** The simulation: the population of person objects, the seeding and the
    body of the main loop (update all, reap, tally, contact pass). */
module Simulations {
  import opened Settings
  import opened Agents
  import opened Persons
  import opened Population
  import opened Contact

  /** One row of the statistics file: frame, susceptible, infected,
      recovered, dead_this_frame, total_deaths. */
  datatype FrameRow = FrameRow(
    frame: int, susceptible: nat, infected: nat, recovered: nat, deadThisFrame: nat, totalDeaths: int)

  /** Every agent updated with its own input, in list order. */
  function StepAll(c: Config, s: seq<Agent>, inputs: seq<UpdateInput>): (r: seq<Agent>)
    requires |inputs| == |s|
    requires forall k :: 0 <= k < |s| ==> IsNorm(s[k].vel, inputs[k].norm)
    ensures |r| == |s|
  {
    seq(|s|, k requires 0 <= k < |s| => AgentStep(c, s[k], inputs[k]))
  }

  /** The person objects whose state is not DEAD, in list order. */
  function Living(ps: seq<Person>): (r: seq<Person>)
    reads ps
    ensures forall p :: p in r ==> p in ps
  {
    if ps == [] then []
    else (if ps[0].state == Dead then [] else [ps[0]]) + Living(ps[1..])
  }

  /** The reap on objects is the reap on their snapshots: the survivors are
      the non-dead persons in list order, and no person occurs twice. */
  lemma LivingIsReap(ps: seq<Person>)
    ensures Snapshots(Living(ps)) == Reap(Snapshots(ps))
    ensures Distinct(ps) ==> Distinct(Living(ps))
  {
    LivingSnapshots(ps);
    if Distinct(ps) {
      LivingDistinct(ps);
    }
  }

  lemma {:induction false} LivingSnapshots(ps: seq<Person>)
    ensures Snapshots(Living(ps)) == Reap(Snapshots(ps))
  {
    if ps != [] {
      LivingSnapshots(ps[1..]);
      SnapshotsCons(ps[0], ps[1..]);
      assert ps == [ps[0]] + ps[1..];
      if ps[0].state != Dead {
        SnapshotsCons(ps[0], Living(ps[1..]));
      }
    }
  }

  lemma {:induction false} LivingDistinct(ps: seq<Person>)
    requires Distinct(ps)
    ensures Distinct(Living(ps))
  {
    if ps != [] {
      var rest := Living(ps[1..]);
      LivingDistinct(ps[1..]);
      if ps[0].state != Dead {
        assert Living(ps) == [ps[0]] + rest && ([ps[0]] + rest)[1..] == rest;
      } else {
        assert Living(ps) == rest;
      }
    }
  }

  /** One frame on values: update all, reap, then the contact pass. */
  function Frame(c: Config, s: seq<Agent>, inputs: seq<UpdateInput>): (r: seq<Agent>)
    requires |inputs| == |s|
    requires forall k :: 0 <= k < |s| ==> IsNorm(s[k].vel, inputs[k].norm)
    ensures |r| + Count(StepAll(c, s, inputs), Dead) == |s|
    ensures forall k :: 0 <= k < |r| ==> r[k].epi.state != Dead
  {
    ContactsCounts(Reap(StepAll(c, s, inputs)), c.personSize);
    ReapCounts(StepAll(c, s, inputs), Dead);
    CountZero(Contacts(Reap(StepAll(c, s, inputs)), c.personSize), Dead);
    Contacts(Reap(StepAll(c, s, inputs)), c.personSize)
  }

  /** A state has no agents exactly when its count is zero. */
  lemma {:induction false} CountZero(s: seq<Agent>, st: PersonState)
    ensures Count(s, st) == 0 <==> forall k :: 0 <= k < |s| ==> s[k].epi.state != st
  {
    if s != [] {
      CountZero(s[1..], st);
      assert forall k :: 1 <= k < |s| ==> s[k] == s[1..][k - 1];
    }
  }

  predicate AllTimersOk(c: Config, s: seq<Agent>) {
    forall k :: 0 <= k < |s| ==> TimersOk(c, s[k].epi)
  }

  predicate AllInArena(c: Config, s: seq<Agent>) {
    forall k :: 0 <= k < |s| ==>
      0.0 <= s[k].pos.x <= c.MaxX() as real && 0.0 <= s[k].pos.y <= c.MaxY() as real
  }

  predicate NoneRecovered(s: seq<Agent>) {
    forall k :: 0 <= k < |s| ==> s[k].epi.state != Recovered
  }

  /** With positive timer lengths, a frame keeps every timer between 1 and
      its full length. */
  lemma FrameKeepsTimers(c: Config, s: seq<Agent>, inputs: seq<UpdateInput>)
    requires |inputs| == |s|
    requires forall k :: 0 <= k < |s| ==> IsNorm(s[k].vel, inputs[k].norm)
    requires c.PositiveTimes() && AllTimersOk(c, s)
    ensures AllTimersOk(c, Frame(c, s, inputs))
  {
    var stepped := StepAll(c, s, inputs);
    forall k | 0 <= k < |stepped|
      ensures TimersOk(c, stepped[k].epi)
    {
      ProgressKeepsTimers(c, s[k].epi, inputs[k].roll);
    }
    var survivors := Reap(stepped);
    assert forall k :: 0 <= k < |survivors| ==> survivors[k] in stepped;
    ContactsOnlyInfect(survivors, c.personSize);
  }

  /** On a non-empty arena, after a frame every agent stands inside it. */
  lemma FrameInArena(c: Config, s: seq<Agent>, inputs: seq<UpdateInput>)
    requires |inputs| == |s|
    requires forall k :: 0 <= k < |s| ==> IsNorm(s[k].vel, inputs[k].norm)
    requires 0 <= c.MaxX() && 0 <= c.MaxY()
    ensures AllInArena(c, Frame(c, s, inputs))
  {
    var stepped := StepAll(c, s, inputs);
    var survivors := Reap(stepped);
    assert forall k :: 0 <= k < |survivors| ==> survivors[k] in stepped;
    ContactsOnlyInfect(survivors, c.personSize);
  }

  /** In SIS mode (recovered_enabled false) a population without RECOVERED
      agents has none after a frame either. */
  lemma SisFrameNeverRecovered(c: Config, s: seq<Agent>, inputs: seq<UpdateInput>)
    requires |inputs| == |s|
    requires forall k :: 0 <= k < |s| ==> IsNorm(s[k].vel, inputs[k].norm)
    requires !c.recoveredEnabled && NoneRecovered(s)
    ensures NoneRecovered(Frame(c, s, inputs))
  {
    var stepped := StepAll(c, s, inputs);
    var survivors := Reap(stepped);
    assert forall k :: 0 <= k < |survivors| ==> survivors[k] in stepped;
    ContactsOnlyInfect(survivors, c.personSize);
  }

  /** The seeded population meets all three invariants (the recovered block is
      only spawned in SIRS mode). */
  lemma SeededInvariants(c: Config, susceptibleSpots: seq<Vec>, infectedSpots: seq<Vec>, recoveredSpots: seq<Vec>)
    requires AllInArea(c, susceptibleSpots) && AllInArea(c, infectedSpots) && AllInArea(c, recoveredSpots)
    ensures var s := Seeded(c, susceptibleSpots, infectedSpots, recoveredSpots);
            && (c.PositiveTimes() ==> AllTimersOk(c, s))
            && AllInArena(c, s)
            && (!c.recoveredEnabled ==> NoneRecovered(s))
  {
    var s := Seeded(c, susceptibleSpots, infectedSpots, recoveredSpots);
    SeededWellFormed(c, susceptibleSpots, infectedSpots, recoveredSpots);
    CountSeeded(c, susceptibleSpots, infectedSpots, recoveredSpots, Recovered);
    CountZero(s, Recovered);
  }

  /** Regrouping of appended blocks, kept out of the spawning methods so
      that their proofs stay small. */
  lemma AppendAssoc(a: seq<Agent>, b: seq<Agent>, c: seq<Agent>)
    ensures a + b + c == a + (b + c)
  {
  }

  lemma AppendEmpty(a: seq<Agent>)
    ensures a + [] == a
  {
  }

  class Simulation {
    const cfg: Config
    var people: seq<Person>
    /** The loop counters of start(): frame_count and total_deaths. */
    var frameCount: int
    var totalDeaths: int

    ghost predicate Valid()
      reads this
    {
      Distinct(people)
    }

    /** The population as values. */
    function View(): seq<Agent>
      reads this, people
    {
      Snapshots(people)
    }

    constructor (c: Config)
      ensures Valid() && cfg == c && people == [] && frameCount == 0 && totalDeaths == 0
    {
      cfg := c;
      people := [];
      frameCount := 0;
      totalDeaths := 0;
    }

    /** Appends a new person at the drawn spot; randint raises, and nothing
        is appended, when boundary - person_size is not positive on an axis. */
    method SpawnRandomPerson(state: PersonState, spot: Vec) returns (ok: bool)
      requires Valid()
      requires SpawnAreaOk(cfg) ==> InArea(cfg, spot)
      modifies this`people
      ensures Valid()
      ensures ok == SpawnAreaOk(cfg)
      ensures ok ==> View() == old(View()) + [Spawned(cfg, state, spot)]
      ensures ok ==> |people| == |old(people)| + 1 && people[..|old(people)|] == old(people)
      ensures ok ==> fresh(people[|old(people)|])
      ensures !ok ==> people == old(people)
    {
      if !SpawnAreaOk(cfg) {
        return false;
      }
      var p := new Person(cfg, spot, state);
      DistinctSnoc(people, p);
      people := people + [p];
      ok := true;
    }

    /** One seeding loop of start(): a person in `state` at each drawn spot,
        in order; the first failing spawn ends the loop. */
    method SpawnBlock(state: PersonState, spots: seq<Vec>) returns (ok: bool)
      requires Valid()
      requires SpawnAreaOk(cfg) ==> AllInArea(cfg, spots)
      modifies this`people
      ensures Valid()
      ensures ok == (|spots| == 0 || SpawnAreaOk(cfg))
      ensures ok ==> View() == old(View()) + Block(cfg, state, spots)
      ensures !ok || |spots| == 0 ==> people == old(people)
    {
      ghost var before := View();
      ok := true;
      for i := 0 to |spots|
        invariant Valid() && ok
        invariant !SpawnAreaOk(cfg) ==> i == 0
        invariant i == 0 ==> people == old(people)
        invariant View() == before + Block(cfg, state, spots[..i])
      {
        ok := SpawnRandomPerson(state, spots[i]);
        if !ok { return; }
        BlockSnoc(cfg, state, spots, i);
      }
      assert spots[..|spots|] == spots;
    }

    /** The three seeding loops of start(): the susceptible, the infected and,
        in SIRS mode, the recovered people, each at the spot drawn for it. The
        first failing spawn ends the seeding. */
    method Populate(susceptibleSpots: seq<Vec>, infectedSpots: seq<Vec>, recoveredSpots: seq<Vec>)
      returns (ok: bool)
      requires Valid()
      requires SeedSizes(cfg, susceptibleSpots, infectedSpots, recoveredSpots)
      requires SpawnAreaOk(cfg) ==>
                 AllInArea(cfg, susceptibleSpots) && AllInArea(cfg, infectedSpots) && AllInArea(cfg, recoveredSpots)
      modifies this`people
      ensures Valid()
      ensures ok == (SeedSize(cfg) == 0 || SpawnAreaOk(cfg))
      ensures ok ==> View() == old(View()) + Seeded(cfg, susceptibleSpots, infectedSpots, recoveredSpots)
      ensures !ok ==> people == old(people)
    {
      ghost var before := View();
      ok := SpawnBlock(Susceptible, susceptibleSpots);
      if ok {
        ok := SpawnLater(infectedSpots, recoveredSpots);
        if ok {
          AppendAssoc(before, Block(cfg, Susceptible, susceptibleSpots), Later(cfg, infectedSpots, recoveredSpots));
        }
      }
    }

    /** The infected and, in SIRS mode, the recovered seeding loops. */
    method SpawnLater(infectedSpots: seq<Vec>, recoveredSpots: seq<Vec>) returns (ok: bool)
      requires Valid()
      requires SpawnAreaOk(cfg) ==> AllInArea(cfg, infectedSpots) && AllInArea(cfg, recoveredSpots)
      modifies this`people
      ensures Valid()
      ensures ok == ((|infectedSpots| == 0 && (!cfg.recoveredEnabled || |recoveredSpots| == 0))
                     || SpawnAreaOk(cfg))
      ensures ok ==> View() == old(View()) + Later(cfg, infectedSpots, recoveredSpots)
      ensures !ok ==> people == old(people)
    {
      ghost var before := View();
      ghost var infected := Block(cfg, Infected, infectedSpots);
      ok := SpawnBlock(Infected, infectedSpots);
      if ok && cfg.recoveredEnabled {
        ok := SpawnBlock(Recovered, recoveredSpots);
        AppendAssoc(before, infected, Block(cfg, Recovered, recoveredSpots));
      } else if ok {
        assert Later(cfg, infectedSpots, recoveredSpots) == infected + [];
        AppendEmpty(infected);
      }
    }

    /** The first loop of the frame: every person's update, in list order. */
    method UpdateAll(inputs: seq<UpdateInput>)
      requires Valid()
      requires |inputs| == |people|
      requires forall k :: 0 <= k < |people| ==> IsNorm(people[k].vel, inputs[k].norm)
      modifies people
      ensures View() == StepAll(cfg, old(View()), inputs)
    {
      ghost var s := View();
      DistinctIndices(people);
      for i := 0 to |people|
        invariant forall k :: 0 <= k < i ==> people[k].Snapshot() == AgentStep(cfg, s[k], inputs[k])
        invariant forall k :: i <= k < |people| ==> people[k].Snapshot() == s[k]
      {
        people[i].Update(cfg, inputs[i]);
      }
    }

    /** The reap: keep the people who are not DEAD, count the removed ones
        as this frame's deaths and add them to the running total. */
    method ReapDead() returns (deadThisFrame: nat)
      requires Valid()
      modifies this`people, this`totalDeaths
      ensures Valid()
      ensures View() == Reap(old(View()))
      ensures people == old(Living(people))
      ensures forall k :: 0 <= k < |people| ==> people[k] in old(people)
      ensures deadThisFrame == Count(old(View()), Dead) == |old(people)| - |people|
      ensures totalDeaths == old(totalDeaths) + deadThisFrame
    {
      var prevCount := |people|;
      var living := Living(people);
      LivingIsReap(people);
      people := living;
      deadThisFrame := prevCount - |people|;
      totalDeaths := totalDeaths + deadThisFrame;
    }

    /** The tally loop: counts of the susceptible, infected and recovered people. */
    method Tally() returns (susceptible: nat, infected: nat, recovered: nat)
      ensures susceptible == Count(View(), Susceptible)
      ensures infected == Count(View(), Infected)
      ensures recovered == Count(View(), Recovered)
    {
      susceptible, infected, recovered := 0, 0, 0;
      ghost var s := View();
      for i := 0 to |people|
        invariant susceptible == Count(s[..i], Susceptible)
        invariant infected == Count(s[..i], Infected)
        invariant recovered == Count(s[..i], Recovered)
      {
        assert s[..i + 1] == s[..i] + [s[i]];
        CountConcat(s[..i], [s[i]], Susceptible);
        CountConcat(s[..i], [s[i]], Infected);
        CountConcat(s[..i], [s[i]], Recovered);
        var p := people[i];
        if p.state == Susceptible {
          susceptible := susceptible + 1;
        } else if p.state == Infected {
          infected := infected + 1;
        } else if p.state == Recovered {
          recovered := recovered + 1;
        }
      }
      assert s[..|people|] == s;
    }

    /** The collision loops: for every ordered pair of people whose rects
        collide, an infected first person infects a susceptible second one. */
    method ContactPass()
      requires Valid()
      modifies people
      ensures View() == Contacts(old(View()), cfg.personSize)
    {
      ghost var s := View();
      ghost var ps := people;
      for i := 0 to |people|
        invariant people == ps && |s| == |ps|
        invariant View() == Rows(s, i, cfg.personSize)
      {
        ContactRow(i);
        RowsStep(s, i, cfg.personSize);
      }
    }

    /** The inner collision loop for person1 = people[i]. */
    method ContactRow(i: nat)
      requires Valid() && i < |people|
      modifies people
      ensures View() == Row(old(View()), i, |people|, cfg.personSize)
    {
      ghost var t := View();
      for j := 0 to |people|
        invariant View() == Row(t, i, j, cfg.personSize)
      {
        ghost var v := View();
        var person1, person2 := people[i], people[j];
        assert v[i] == person1.Snapshot() && v[j] == person2.Snapshot();
        if Collide(person1, person2, cfg.personSize) {
          if person1.state == Infected && person2.state == Susceptible {
            InfectAt(j);
          }
        }
        assert View() == Touch(v, i, j, cfg.personSize);
      }
    }

    /** person2.state = INFECTED for the person at index j. */
    method InfectAt(j: nat)
      requires Valid() && j < |people|
      modifies people[j]
      ensures View() == old(View())[j := Infect(old(View())[j])]
    {
      DistinctIndices(people);
      people[j].state := Infected;
    }

    /** Update every person, then reap the dead. */
    method Advance(inputs: seq<UpdateInput>) returns (deadThisFrame: nat)
      requires Valid()
      requires |inputs| == |people|
      requires forall k :: 0 <= k < |people| ==> IsNorm(people[k].vel, inputs[k].norm)
      modifies this`people, this`totalDeaths, people
      ensures Valid()
      ensures View() == Reap(StepAll(cfg, old(View()), inputs))
      ensures deadThisFrame == Count(StepAll(cfg, old(View()), inputs), Dead)
      ensures deadThisFrame + |people| == |old(people)|
      ensures totalDeaths == old(totalDeaths) + deadThisFrame
      ensures forall k :: 0 <= k < |people| ==> people[k] in old(people)
    {
      UpdateAll(inputs);
      deadThisFrame := ReapDead();
    }

    /** The first half of a frame: update every person, reap the dead and
        tally the survivors into the frame's row. */
    method Census(inputs: seq<UpdateInput>) returns (row: FrameRow)
      requires Valid()
      requires |inputs| == |people|
      requires forall k :: 0 <= k < |people| ==> IsNorm(people[k].vel, inputs[k].norm)
      modifies this`people, this`frameCount, this`totalDeaths, people
      ensures Valid()
      ensures var stepped := StepAll(cfg, old(View()), inputs);
              var survivors := Reap(stepped);
              && View() == survivors
              && row == FrameRow(old(frameCount),
                                 Count(survivors, Susceptible), Count(survivors, Infected),
                                 Count(survivors, Recovered),
                                 Count(stepped, Dead), old(totalDeaths) + Count(stepped, Dead))
      ensures row.susceptible + row.infected + row.recovered == |people|
      ensures row.deadThisFrame + |people| == |old(people)|
      ensures totalDeaths == row.totalDeaths >= old(totalDeaths)
      ensures frameCount == old(frameCount) + 1
      ensures forall k :: 0 <= k < |people| ==> people[k] in old(people)
    {
      ghost var stepped := StepAll(cfg, View(), inputs);
      var deadThisFrame := Advance(inputs);
      var susceptible, infected, recovered := Tally();
      TallyCoversSurvivors(stepped);
      row := FrameRow(frameCount, susceptible, infected, recovered, deadThisFrame, totalDeaths);
      frameCount := frameCount + 1;
    }

    /** The body of the main loop, one frame: update every person, reap the
        dead, tally the survivors into the frame's row, then run the contact
        pass. The row is taken before contacts are resolved. */
    method Tick(inputs: seq<UpdateInput>) returns (row: FrameRow)
      requires Valid()
      requires |inputs| == |people|
      requires forall k :: 0 <= k < |people| ==> IsNorm(people[k].vel, inputs[k].norm)
      modifies this`people, this`frameCount, this`totalDeaths, people
      ensures Valid()
      ensures var stepped := StepAll(cfg, old(View()), inputs);
              var survivors := Reap(stepped);
              && View() == Frame(cfg, old(View()), inputs) == Contacts(survivors, cfg.personSize)
              && row == FrameRow(old(frameCount),
                                 Count(survivors, Susceptible), Count(survivors, Infected),
                                 Count(survivors, Recovered),
                                 Count(stepped, Dead), old(totalDeaths) + Count(stepped, Dead))
      ensures row.susceptible + row.infected + row.recovered == |people|
      ensures row.deadThisFrame + |people| == |old(people)|
      ensures totalDeaths == row.totalDeaths >= old(totalDeaths)
      ensures frameCount == old(frameCount) + 1
      ensures forall k :: 0 <= k < |people| ==> people[k] in old(people)
    {
      row := Census(inputs);
      ContactPass();
    }
  }

  /** pygame.sprite.collide_rect on two people's rects. */
  predicate Collide(p: Person, q: Person, size: int)
    reads p, q
  {
    Overlap(p.Snapshot(), q.Snapshot(), size)
  }
}
