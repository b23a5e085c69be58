/** The run configuration and the closed set of epidemiological states. */
module Settings {

  /** The module-level globals of the simulator (boundary, mortality_rate,
      death_time, susceptible_again_time, the three initial counts,
      person_size and the SIS/SIRS switch), gathered into one immutable
      value. Integers are the command line's `int`s; the mortality rate is
      the command line's float. */
  datatype Config = Config(
    width: int,
    height: int,
    mortalityRate: real,
    deathTime: int,
    susceptibleAgainTime: int,
    nSusceptible: int,
    nInfected: int,
    nRecovered: int,
    personSize: int,
    recoveredEnabled: bool)
  {
    /** Largest x a person's top-left corner may take: boundary[0] - person_size. */
    function MaxX(): int { width - personSize }

    /** Largest y a person's top-left corner may take: boundary[1] - person_size. */
    function MaxY(): int { height - personSize }

    /** Both timer lengths are positive tick counts. */
    predicate PositiveTimes() { deathTime >= 1 && susceptibleAgainTime >= 1 }
  }

  datatype PersonState = Susceptible | Infected | Recovered | Dead

  /** Number of iterations of `for _ in range(n)`: none when n is not positive. */
  function Times(n: int): (k: nat)
    ensures n <= 0 ==> k == 0
    ensures n >= 0 ==> k == n
  {
    if n > 0 then n else 0
  }
}
