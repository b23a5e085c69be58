/** The person sprite: an object whose update changes its own fields in place. */
module Persons {
  import opened Settings
  import opened Agents

  class Person {
    var pos: Vec
    var vel: Vec
    var rectX: int
    var rectY: int
    var state: PersonState
    var deathTimer: int
    var susceptibleAgainTimer: int

    /** The person's fields as a value. */
    function Snapshot(): Agent
      reads this
    {
      Agent(pos, vel, rectX, rectY, Epi(state, deathTimer, susceptibleAgainTimer))
    }

    /** A person at `pos` in `state`: zero velocity, the sprite rect at the
        origin, both timers at their full lengths. */
    constructor (c: Config, pos: Vec, state: PersonState)
      ensures Snapshot() == Fresh(c, pos, state)
    {
      this.pos := pos;
      this.state := state;
      vel := Vec(0.0, 0.0);
      rectX, rectY := 0, 0;
      deathTimer := c.deathTime;
      susceptibleAgainTimer := c.susceptibleAgainTime;
    }

    /** One tick of this person: advance by the velocity and clamp each
        coordinate into [0, boundary - person_size], move the rect, rescale
        and jitter the velocity, then run the timer state machine. */
    method Update(c: Config, input: UpdateInput)
      requires IsNorm(vel, input.norm)
      modifies this
      ensures pos == Moved(c, old(pos), old(vel))
      ensures rectX == Trunc(pos.x) && rectY == Trunc(pos.y)
      ensures vel == NextVelocity(old(vel), input.norm, input.jitter)
      ensures Snapshot().epi == Progress(c, old(Snapshot()).epi, input.roll)
      ensures Snapshot() == AgentStep(c, old(Snapshot()), input)
    {
      Move(c);
      Steer(input.norm, input.jitter);
      Age(c, input.roll);
    }

    /** The motion part of update: position += velocity, clamp each axis,
        set the rect; the velocity is left as it is. */
    method Move(c: Config)
      modifies this`pos, this`rectX, this`rectY
      ensures pos == Moved(c, old(pos), vel)
      ensures rectX == Trunc(pos.x) && rectY == Trunc(pos.y)
    {
      pos := Vec(pos.x + vel.x, pos.y + vel.y);

      if pos.x < 0.0 {
        pos := pos.(x := 0.0);
      } else if pos.x > c.MaxX() as real {
        pos := pos.(x := c.MaxX() as real);
      }

      if pos.y < 0.0 {
        pos := pos.(y := 0.0);
      } else if pos.y > c.MaxY() as real {
        pos := pos.(y := c.MaxY() as real);
      }

      rectX := Trunc(pos.x);
      rectY := Trunc(pos.y);
    }

    /** The velocity part of update: divide by the norm when it exceeds 3,
        then add the jitter. */
    method Steer(norm: real, jitter: Vec)
      requires IsNorm(vel, norm)
      modifies this`vel
      ensures vel == NextVelocity(old(vel), norm, jitter)
    {
      if norm > 3.0 {
        vel := Vec(vel.x / norm, vel.y / norm);
      }
      vel := Vec(vel.x + jitter.x, vel.y + jitter.y);
    }

    /** The state machine part of update: the infected countdown with the
        mortality check, then the recovered countdown. */
    method Age(c: Config, roll: real)
      modifies this`state, this`deathTimer, this`susceptibleAgainTimer
      ensures Snapshot().epi == Progress(c, old(Snapshot()).epi, roll)
    {
      ghost var e0 := Snapshot().epi;
      if state == Infected {
        deathTimer := deathTimer - 1;
        if deathTimer <= 0 {
          if c.mortalityRate > roll {
            state := Dead;
          } else {
            if c.recoveredEnabled {
              state := Recovered;
            } else {
              state := Susceptible;
            }
            deathTimer := c.deathTime;
          }
        }
      }
      ghost var e1 := Snapshot().epi;
      assert e1 == InfectedStage(c, e0, roll);

      if state == Recovered {
        susceptibleAgainTimer := susceptibleAgainTimer - 1;
        if susceptibleAgainTimer <= 0 {
          state := Susceptible;
          susceptibleAgainTimer := c.susceptibleAgainTime;
        }
      }
      assert e1.state == Recovered ==> Snapshot().epi == Wane(c, e1);
      assert e1.state != Recovered ==> Snapshot().epi == e1;
      ProgressInStages(c, e0, roll);
    }
  }

  /** The snapshots of a list of persons, in list order. */
  function Snapshots(ps: seq<Person>): (s: seq<Agent>)
    reads ps
    ensures |s| == |ps|
    ensures forall k :: 0 <= k < |ps| ==> s[k] == ps[k].Snapshot()
  {
    if ps == [] then [] else [ps[0].Snapshot()] + Snapshots(ps[1..])
  }

  lemma SnapshotsCons(p: Person, ps: seq<Person>)
    ensures Snapshots([p] + ps) == [p.Snapshot()] + Snapshots(ps)
  {
    assert ([p] + ps)[1..] == ps;
  }

  /** No person object occurs twice in the list. */
  predicate Distinct(ps: seq<Person>) {
    ps == [] || (ps[0] !in ps[1..] && Distinct(ps[1..]))
  }

  lemma {:induction false} DistinctIndices(ps: seq<Person>)
    requires Distinct(ps)
    ensures forall i, j :: 0 <= i < j < |ps| ==> ps[i] != ps[j]
  {
    if ps != [] {
      DistinctIndices(ps[1..]);
      forall i, j | 0 <= i < j < |ps|
        ensures ps[i] != ps[j]
      {
        if i == 0 {
          assert ps[j] == ps[1..][j - 1];
        } else {
          assert ps[i] == ps[1..][i - 1] && ps[j] == ps[1..][j - 1];
        }
      }
    }
  }

  lemma {:induction false} DistinctSnoc(ps: seq<Person>, p: Person)
    requires Distinct(ps) && p !in ps
    ensures Distinct(ps + [p])
  {
    if ps == [] {
      assert [] + [p] == [p];
    } else {
      assert (ps + [p])[1..] == ps[1..] + [p];
      DistinctSnoc(ps[1..], p);
    }
  }
}
