/** One agent as a value: its motion step, its velocity update and the
    timer-driven state machine of Person.update, stated as functions. */
module Agents {
  import opened Settings

  datatype Vec = Vec(x: real, y: real)

  /** The epidemiological part of a person: its state and both timers. */
  datatype Epi = Epi(state: PersonState, deathTimer: int, susceptibleAgainTimer: int)

  /** Every field of a person that the simulation core reads or writes:
      the position, the velocity, the top-left corner of its sprite rect
      (pygame keeps integer rect coordinates) and the epidemic part. */
  datatype Agent = Agent(pos: Vec, vel: Vec, rectX: int, rectY: int, epi: Epi)

  /** What one call of update consumes from outside the core: the norm of
      the current velocity (numpy's linalg.norm), the velocity jitter
      (rand(2) * 2 - 1) and the uniform draw of the mortality check. */
  datatype UpdateInput = UpdateInput(norm: real, jitter: Vec, roll: real)

  /** `norm` is the Euclidean length of `v`. */
  predicate IsNorm(v: Vec, norm: real) {
    0.0 <= norm && norm * norm == v.x * v.x + v.y * v.y
  }

  /** Each component of the jitter lies in [-1, 1). */
  predicate IsJitter(j: Vec) {
    -1.0 <= j.x < 1.0 && -1.0 <= j.y < 1.0
  }

  /** Clamping of one coordinate into [0, hi]: below 0 goes to 0, above hi goes to hi. */
  function ClampAxis(p: real, hi: int): (r: real)
    ensures 0 <= hi ==> 0.0 <= r <= hi as real
    ensures 0.0 <= p <= hi as real ==> r == p
    ensures r == p || r == 0.0 || r == hi as real
  {
    if p < 0.0 then 0.0 else if p > hi as real then hi as real else p
  }

  /** Python's int() of a float, which pygame applies when a rect coordinate
      is assigned: truncation toward zero. */
  function Trunc(p: real): (n: int)
    ensures 0.0 <= p ==> n as real <= p < n as real + 1.0
    ensures p < 0.0 ==> n as real - 1.0 < p <= n as real
  {
    if p >= 0.0 then p.Floor else -((-p).Floor)
  }

  /** The position after advancing by the velocity and clamping into the arena. */
  function Moved(c: Config, pos: Vec, vel: Vec): (r: Vec)
    ensures 0 <= c.MaxX() ==> 0.0 <= r.x <= c.MaxX() as real
    ensures 0 <= c.MaxY() ==> 0.0 <= r.y <= c.MaxY() as real
    ensures 0.0 <= pos.x + vel.x <= c.MaxX() as real ==> r.x == pos.x + vel.x
    ensures 0.0 <= pos.y + vel.y <= c.MaxY() as real ==> r.y == pos.y + vel.y
  {
    Vec(ClampAxis(pos.x + vel.x, c.MaxX()), ClampAxis(pos.y + vel.y, c.MaxY()))
  }

  /** The velocity after the norm check and the jitter: a velocity longer
      than 3 is divided by its norm, then the jitter is added component-wise. */
  function NextVelocity(v: Vec, norm: real, jitter: Vec): (r: Vec)
    requires IsNorm(v, norm)
    ensures norm > 3.0 ==> (r.x - jitter.x) * norm == v.x && (r.y - jitter.y) * norm == v.y
    ensures !(norm > 3.0) ==> r.x - jitter.x == v.x && r.y - jitter.y == v.y
  {
    var u := if norm > 3.0 then Vec(v.x / norm, v.y / norm) else v;
    Vec(u.x + jitter.x, u.y + jitter.y)
  }

  /** The countdown of a RECOVERED person: susceptible again once the timer
      falls to 0 or below, with the timer reset. */
  function Wane(c: Config, e: Epi): (r: Epi)
    requires e.state == Recovered
    ensures r.deathTimer == e.deathTimer
    ensures r.state == Susceptible <==> e.susceptibleAgainTimer <= 1
    ensures r.state != Susceptible ==> r.state == Recovered
  {
    if e.susceptibleAgainTimer - 1 > 0 then e.(susceptibleAgainTimer := e.susceptibleAgainTimer - 1)
    else Epi(Susceptible, e.deathTimer, c.susceptibleAgainTime)
  }

  /** The state machine of one update, as a transition table per state.
      `roll` is the uniform draw compared with the mortality rate; it only
      matters when an infected person's timer runs out. An infected person
      that recovers is handed straight to the recovered countdown of the
      same call. */
  function Progress(c: Config, e: Epi, roll: real): (r: Epi)
    ensures e.state == Susceptible || e.state == Dead ==> r == e
    ensures r.state == Dead <==>
              e.state == Dead || (e.state == Infected && e.deathTimer <= 1 && c.mortalityRate > roll)
    ensures r.state == Infected <==> e.state == Infected && e.deathTimer > 1
    ensures r.state == Infected ==>
              r.deathTimer == e.deathTimer - 1 && r.susceptibleAgainTimer == e.susceptibleAgainTimer
    ensures !c.recoveredEnabled && e.state != Recovered ==> r.state != Recovered
  {
    match e.state
    case Susceptible => e
    case Dead => e
    case Recovered => Wane(c, e)
    case Infected =>
      if e.deathTimer - 1 > 0 then e.(deathTimer := e.deathTimer - 1)
      else if c.mortalityRate > roll then e.(state := Dead, deathTimer := e.deathTimer - 1)
      else if c.recoveredEnabled then Wane(c, Epi(Recovered, c.deathTime, e.susceptibleAgainTimer))
      else Epi(Susceptible, c.deathTime, e.susceptibleAgainTimer)
  }

  /** The first of the two `if` blocks of the state machine, on its own:
      the infected countdown and what follows when it runs out. */
  function InfectedStage(c: Config, e: Epi, roll: real): Epi {
    if e.state != Infected then e
    else if e.deathTimer - 1 > 0 then e.(deathTimer := e.deathTimer - 1)
    else if c.mortalityRate > roll then e.(state := Dead, deathTimer := e.deathTimer - 1)
    else Epi(if c.recoveredEnabled then Recovered else Susceptible, c.deathTime, e.susceptibleAgainTimer)
  }

  /** The transition table is the two `if` blocks run one after the other:
      the recovered countdown sees the state the infected block left. */
  lemma ProgressInStages(c: Config, e: Epi, roll: real)
    ensures var e1 := InfectedStage(c, e, roll);
            Progress(c, e, roll) == if e1.state == Recovered then Wane(c, e1) else e1
  {
  }

  /** One whole update of an agent: move and clamp, set the rect, update the
      velocity, then run the state machine. */
  function AgentStep(c: Config, a: Agent, input: UpdateInput): (r: Agent)
    requires IsNorm(a.vel, input.norm)
    ensures 0 <= c.MaxX() && 0 <= c.MaxY() ==>
              0.0 <= r.pos.x <= c.MaxX() as real && 0.0 <= r.pos.y <= c.MaxY() as real
    ensures r.rectX == Trunc(r.pos.x) && r.rectY == Trunc(r.pos.y)
    ensures a.epi.state in {Susceptible, Dead} ==> r.epi == a.epi
  {
    var p := Moved(c, a.pos, a.vel);
    Agent(p, NextVelocity(a.vel, input.norm, input.jitter), Trunc(p.x), Trunc(p.y),
          Progress(c, a.epi, input.roll))
  }

  /** A person as constructed: zero velocity, the rect at the origin, both timers full. */
  function Fresh(c: Config, pos: Vec, state: PersonState): Agent {
    Agent(pos, Vec(0.0, 0.0), 0, 0, Epi(state, c.deathTime, c.susceptibleAgainTime))
  }

  /** The constructor's velocity [0, 0] has norm 0, so it is not rescaled:
      the first update makes the velocity exactly the jitter. */
  lemma FirstUpdateVelocity(c: Config, pos: Vec, st: PersonState, input: UpdateInput)
    requires IsNorm(Vec(0.0, 0.0), input.norm)
    ensures AgentStep(c, Fresh(c, pos, st), input).vel == input.jitter
  {
  }

  /** The timer invariant: a living person's timers lie between 1 and their full length. */
  predicate TimersOk(c: Config, e: Epi) {
    e.state != Dead ==>
      1 <= e.deathTimer <= c.deathTime && 1 <= e.susceptibleAgainTimer <= c.susceptibleAgainTime
  }

  // ---------------------------------------------------------------- motion

  /** For a true norm, "norm > 3" is "squared length > 9". */
  lemma NormAboveThree(v: Vec, norm: real)
    requires IsNorm(v, norm)
    ensures norm > 3.0 <==> v.x * v.x + v.y * v.y > 9.0
  {
    if norm > 3.0 {
      assert norm * norm > 3.0 * norm > 9.0;
    } else {
      assert norm * norm <= 3.0 * norm <= 9.0;
    }
  }

  /** A component is bounded by the length: x * x <= b * b with b >= 0 gives -b <= x <= b. */
  lemma SquareBound(x: real, b: real)
    requires 0.0 <= b && x * x <= b * b
    ensures -b <= x <= b
  {
    var ax := if x >= 0.0 then x else -x;
    assert ax * ax == x * x;
    SquareGrows(b, ax);
  }

  /** Squaring is strictly increasing on the non-negative reals. */
  lemma SquareGrows(a: real, b: real)
    ensures 0.0 <= a < b ==> a * a < b * b
  {
    if 0.0 <= a < b {
      var d := b - a;
      assert a * d >= 0.0;
      assert b * d > 0.0;
      assert b * b - a * a == a * d + b * d;
    }
  }

  /** A velocity faster than 3 is rescaled to length exactly 1 before the jitter. */
  lemma RescaledToUnit(v: Vec, norm: real, jitter: Vec)
    requires IsNorm(v, norm) && norm > 3.0
    ensures var r := NextVelocity(v, norm, jitter);
            (r.x - jitter.x) * (r.x - jitter.x) + (r.y - jitter.y) * (r.y - jitter.y) == 1.0
  {
    var ux, uy := v.x / norm, v.y / norm;
    assert ux * norm == v.x && uy * norm == v.y;
    assert (ux * ux + uy * uy) * (norm * norm) == v.x * v.x + v.y * v.y;
  }

  /** Each component of a vector at most b long lies in [-b, b]. */
  lemma ComponentsWithin(x: real, y: real, b: real)
    requires 0.0 <= b && x * x + y * y <= b * b
    ensures -b <= x <= b && -b <= y <= b
  {
    assert x * x >= 0.0 && y * y >= 0.0;
    SquareBound(x, b);
    SquareBound(y, b);
  }

  /** After an update every velocity component lies in [-4, 4): the part
      kept from the old velocity is at most 3 long, the jitter at most 1. */
  lemma NextVelocityBounded(v: Vec, norm: real, jitter: Vec)
    requires IsNorm(v, norm) && IsJitter(jitter)
    ensures var r := NextVelocity(v, norm, jitter);
            -4.0 <= r.x < 4.0 && -4.0 <= r.y < 4.0
  {
    if norm > 3.0 {
      RescaledToUnit(v, norm, jitter);
      var r := NextVelocity(v, norm, jitter);
      ComponentsWithin(r.x - jitter.x, r.y - jitter.y, 1.0);
    } else {
      assert norm * norm <= 3.0 * norm <= 9.0;
      ComponentsWithin(v.x, v.y, 3.0);
    }
  }

  // ---------------------------------------------------------- state machine

  /** An infected person whose timer stays positive remains infected, one tick closer. */
  lemma InfectedCountdown(c: Config, e: Epi, roll: real)
    requires e.state == Infected && e.deathTimer - 1 > 0
    ensures Progress(c, e, roll) == e.(deathTimer := e.deathTimer - 1)
  {
  }

  /** When an infected person's timer runs out it dies exactly when the
      mortality rate exceeds the draw; otherwise its death timer is reset and
      it becomes RECOVERED (SIRS) or SUSCEPTIBLE (SIS). A recovered person
      is counted down in the same call, so with a susceptible-again timer
      of 1 it is susceptible already. */
  lemma InfectedExpiry(c: Config, e: Epi, roll: real)
    requires e.state == Infected && e.deathTimer - 1 <= 0
    ensures var r := Progress(c, e, roll);
            && (r.state == Dead <==> c.mortalityRate > roll)
            && (r.state != Dead ==> r.deathTimer == c.deathTime)
            && (r.state != Dead && !c.recoveredEnabled ==>
                  r.state == Susceptible && r.susceptibleAgainTimer == e.susceptibleAgainTimer)
            && (r.state != Dead && c.recoveredEnabled ==>
                  r == Wane(c, Epi(Recovered, c.deathTime, e.susceptibleAgainTimer)))
  {
  }

  /** The same-call cascade: an infected person that recovers has its
      susceptible-again timer decremented in the same update. */
  lemma RecoveryCascade(c: Config, e: Epi, roll: real)
    requires e.state == Infected && e.deathTimer <= 1 && !(c.mortalityRate > roll)
    requires c.recoveredEnabled && e.susceptibleAgainTimer > 1
    ensures Progress(c, e, roll) == Epi(Recovered, c.deathTime, e.susceptibleAgainTimer - 1)
  {
  }

  /** A recovered person becomes susceptible exactly when its timer falls to
      0 or below, and the timer is then reset; otherwise it counts down. */
  lemma RecoveredWaning(c: Config, e: Epi, roll: real)
    requires e.state == Recovered
    ensures var r := Progress(c, e, roll);
            && (r.state == Susceptible <==> e.susceptibleAgainTimer - 1 <= 0)
            && r.deathTimer == e.deathTimer
            && r.susceptibleAgainTimer ==
                 (if e.susceptibleAgainTimer - 1 <= 0 then c.susceptibleAgainTime
                  else e.susceptibleAgainTimer - 1)
  {
  }

  /** The state machine keeps the timer invariant when both timer lengths are positive. */
  lemma ProgressKeepsTimers(c: Config, e: Epi, roll: real)
    requires c.PositiveTimes() && TimersOk(c, e)
    ensures TimersOk(c, Progress(c, e, roll))
  {
  }
}
