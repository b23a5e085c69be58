# Epidemic simulator core in Dafny

This project models the simulation core of `main.py`, a pygame agent-based
epidemic simulator. People wander a rectangular arena. Each person is
SUSCEPTIBLE, INFECTED, RECOVERED or DEAD, and moves between those states on
timers and on contact. One frame of the main loop has four steps:

1. update every person: move, clamp to the arena, steer, run the timer state machine;
2. reap the dead;
3. tally the survivors into the frame's statistics row;
4. run the all-pairs contact pass, in which an infected person infects every
   susceptible person whose sprite rect overlaps its own.

The model has two layers:

- **Values** (`Agents`, `Population`, `Contact`). An `Agent` holds every field
  of a person that the core touches. The transition function, the reap, the
  tally counts, the seeding and the contact pass are written as functions on
  agents and sequences of agents. The properties are lemmas about these functions.
- **Objects** (`Persons`, `Simulations`). `Person` and `Simulation` are classes
  whose methods update their fields in place, as the Python objects do. The
  update, tally and collision loops are methods with loop invariants. Each
  method is proved to produce the state the value layer describes:
  `Person.Update` produces `AgentStep`, and `Simulation.Tick` produces `Frame`.

Positions and velocities are mathematical reals. Rounding in floating point
is not modelled. Every value the program draws from numpy is an input to the
model:

- the spawn spot;
- the velocity norm. `IsNorm` ties it to the velocity by its square, since
  Dafny has no square root;
- the jitter in [-1, 1);
- the mortality roll.

Three facts about `main.py` shape the model:

- **Velocity rescaling.** main.py:71 divides a velocity longer than 3 by its
  norm, which leaves it with length 1 (`RescaledToUnit`).
- **The velocity's type.** `Person.__init__` stores the velocity as the list
  `[0, 0]`. The first in-place addition of the numpy jitter at main.py:72 adds
  element by element and rebinds the velocity to a 2-element array equal to
  the jitter (`FirstUpdateVelocity`). From then on it is a 2-vector, which is
  how the model holds it throughout.
- **States.** `main.py` has four states, SUSCEPTIBLE, INFECTED, RECOVERED and
  DEAD, and no quarantine.

## Model

| member | source | states |
|---|---|---|
| Settings.Times | main.py:121-129 | `range(n)` runs max(n, 0) times: zero for a non-positive count, n otherwise |
| Agents.ClampAxis | main.py:56-64 | a clamped coordinate lies in [0, hi] when hi >= 0, equals the input when it was already in range, and is the input, 0 or hi |
| Agents.Trunc | main.py:66-67 | the integer rect coordinate is the position truncated toward zero: floor bounds for non-negative positions, ceiling bounds for negative ones |
| Agents.NextVelocity | main.py:69-72 | a velocity longer than 3 is the new velocity minus the jitter, scaled by the norm (its direction is kept); a shorter one is kept as it is before the jitter is added |
| Agents.Moved | main.py:53-64 | after the move each coordinate lies in [0, boundary - person_size]; a coordinate whose pos + vel is already in range is exactly pos + vel |
| Agents.Wane | main.py:86-90 | a RECOVERED person becomes SUSCEPTIBLE exactly when its counter is at most 1, otherwise stays RECOVERED; the death timer is untouched |
| Agents.Progress | main.py:74-90 | the state machine: SUSCEPTIBLE and DEAD are fixed points; the result is DEAD iff the person was dead or its infection ran out with mortality_rate > roll; INFECTED iff it was infected with a timer above 1, one tick closer; in SIS mode nobody becomes RECOVERED |
| Agents.ProgressInStages | main.py:74-90 | the transition is the infected block followed by the recovered block, the second seeing the state the first left |
| Agents.NormAboveThree | main.py:69-70 | for a true norm, "norm > 3" is "squared length > 9" |
| Agents.RescaledToUnit | main.py:69-72 | a velocity longer than 3 is divided to length exactly 1 before the jitter is added |
| Agents.NextVelocityBounded | main.py:69-72 | after an update every velocity component lies in [-4, 4) |
| Agents.AgentStep | main.py:52-90 | one update leaves the person inside the arena (when the arena is not smaller than a person), with its rect at the truncated position, and leaves the state and timers of a SUSCEPTIBLE or DEAD person alone |
| Agents.FirstUpdateVelocity | main.py:45-72 | the constructor's zero velocity has norm 0 and is not rescaled, so the first update makes the velocity exactly the jitter |
| Agents.InfectedCountdown | main.py:74-76 | an infected person whose decremented timer stays positive stays infected, timer one lower |
| Agents.InfectedExpiry | main.py:76-84 | when the timer runs out: DEAD iff mortality_rate > roll; otherwise the death timer is reset and the person becomes SUSCEPTIBLE (SIS) or RECOVERED and immediately waned (SIRS) |
| Agents.RecoveryCascade | main.py:74-90 | a person that recovers has its susceptible-again timer decremented in the same update |
| Agents.RecoveredWaning | main.py:86-90 | RECOVERED to SUSCEPTIBLE exactly when the decremented timer is at most 0, with the timer reset to its full length; otherwise it counts down |
| Agents.ProgressKeepsTimers | main.py:74-90 | with positive timer lengths, both timers of a living person stay between 1 and their full lengths |
| Persons.Person.constructor | main.py:37-50 | a new person has the given position and state, zero velocity, the rect at the origin and both timers full |
| Persons.Person.Update | main.py:52-90 | one update changes the person's fields exactly as AgentStep says: moved and clamped position, truncated rect, rescaled and jittered velocity, Progress on the timers |
| Persons.Person.Move | main.py:53-67 | position += velocity, each axis clamped, rect set; the velocity is not changed |
| Persons.Person.Steer | main.py:69-72 | the velocity is divided by its norm when that exceeds 3, then the jitter is added |
| Persons.Person.Age | main.py:74-90 | the two `if` blocks change state and timers exactly as Progress says |
| Persons.Snapshots | main.py:159-188 | the people as values, index by index |
| Population.Count | main.py:167-177 | a state's count is at most the population size |
| Population.Reap | main.py:163 | the survivors plus the dead make up the whole list, and no survivor is DEAD |
| Population.CountPartition | main.py:167-177 | the four state counts sum to the population size |
| Population.ReapConcat | main.py:163 | the filter distributes over concatenation, so list order is kept |
| Population.ReapNoDead | main.py:163 | a list without DEAD people is left as it is |
| Population.ReapIdempotent | main.py:163 | reaping twice is reaping once |
| Population.ReapCounts | main.py:162-177 | the reap removes exactly the DEAD and keeps every other state's count |
| Population.TallyCoversSurvivors | main.py:162-177 | the three tallies of the survivors sum to the survivor count |
| Population.Block | main.py:121-122 | one seeding loop appends one person per drawn spot |
| Population.Later | main.py:124-129 | the infected loop and, in SIRS mode only, the recovered loop append one person per drawn spot |
| Population.Seeded | main.py:121-129 | the initial population has one person per spot drawn by each loop that runs: the recovered spots count in SIRS mode only |
| Population.CountBlock | main.py:121-122 | a block holds only its own state |
| Population.CountSeeded | main.py:121-129 | each state's initial count is the number of spots its loop drew; RECOVERED counts only in SIRS mode, and nobody starts DEAD |
| Population.SeededCounts | main.py:121-129 | the initial tally is the configured counts (none for a non-positive count, no RECOVERED in SIS mode), with no DEAD |
| Population.SeededWellFormed | main.py:109-129 | every seeded person starts at a spot randint can draw, with zero velocity and both timers full, in the state of its loop (the susceptible block first, then the infected, then the recovered); with positive timer lengths the timer invariant holds |
| Contact.Overlap | main.py:186 | `collide_rect` on two person_size-sided rects: positive-area overlap on both axes, possible only when person_size > 0 |
| Contact.Infect | main.py:188 | person2 becomes INFECTED and nothing else about it changes |
| Contact.OverlapFacts | main.py:186 | collide_rect on person_size rects is symmetric, true for a person and itself when person_size > 0, and never true when person_size <= 0 |
| Contact.Touch | main.py:186-188 | one pair keeps the population size |
| Contact.Row | main.py:185-188 | one row of the inner loop keeps the population size |
| Contact.Rows | main.py:184-188 | the outer loop keeps the population size |
| Contact.Contacts | main.py:184-188 | the pass keeps the population size |
| Contact.SelfPairInert | main.py:184-188 | the pair of a person with itself changes nothing |
| Contact.TouchEvolves | main.py:186-188 | one pair can only turn a SUSCEPTIBLE person INFECTED, changing nothing else |
| Contact.RowEvolves | main.py:185-188 | later prefixes of a row only add SUSCEPTIBLE-to-INFECTED changes |
| Contact.RowsEvolve | main.py:184-188 | later prefixes of the outer loop only add SUSCEPTIBLE-to-INFECTED changes |
| Contact.ContactsOnlyInfect | main.py:184-188 | the pass keeps the length, positions, velocities, rects, timers and every non-SUSCEPTIBLE state; its only transition is S to I |
| Contact.ContactsInfectNeighbours | main.py:184-188 | a SUSCEPTIBLE person whose rect overlaps that of a person infected at the start of the pass ends INFECTED |
| Contact.ContactPreserved | main.py:184-188 | an infected contact stays an infected contact as the pass goes on |
| Contact.TouchExplained | main.py:186-188 | one pair keeps every newly infected person next to an infected contact |
| Contact.RowExplained | main.py:185-188 | so does a row |
| Contact.RowsExplained | main.py:184-188 | so does the outer loop |
| Contact.ContactsExplained | main.py:184-188 | a person INFECTED after the pass was INFECTED before, or was SUSCEPTIBLE and overlaps another person INFECTED after it |
| Contact.PointwiseCounts | main.py:184-188 | S-to-I changes keep the RECOVERED and DEAD counts and S+I, and never lower I |
| Contact.ContactsCounts | main.py:184-188 | the pass keeps the RECOVERED and DEAD counts and S+I, and never lowers the INFECTED count |
| Contact.PassOrderMatters | main.py:184-188 | infection travels along a chain within one pass in list order only: A infects B, which infects C in the same pass, but not in the order C, B, A |
| Simulations.StepAll | main.py:159-160 | updating everyone keeps the population size |
| Simulations.Living | main.py:163 | the survivors are people of the old list |
| Simulations.LivingIsReap | main.py:162-165 | the surviving objects are exactly the reap of their values, and no object occurs twice |
| Simulations.Frame | main.py:158-188 | after a frame the people number the old count minus the frame's deaths, and none is DEAD |
| Simulations.CountZero | main.py:167-177 | a state has count zero exactly when nobody is in it |
| Simulations.FrameKeepsTimers | main.py:158-188 | with positive timer lengths, a frame keeps every living person's timers between 1 and their full lengths |
| Simulations.FrameInArena | main.py:158-188 | after a frame every person stands inside the arena |
| Simulations.SisFrameNeverRecovered | main.py:158-188 | in SIS mode a population without RECOVERED people has none after a frame |
| Simulations.SeededInvariants | main.py:121-129 | the initial population meets the timer, arena and SIS invariants, so they hold at every frame |
| Simulations.Simulation.constructor | main.py:108-109 | a simulation starts with no people and both counters at zero; `frame_count` and `total_deaths`, locals that `start()` sets to 0 at main.py:150-151, are fields here |
| Simulations.Simulation.SpawnRandomPerson | main.py:111-113 | appends one fresh person at the drawn spot; when randint's range is empty on an axis, nothing is appended and the call fails |
| Simulations.Simulation.SpawnBlock | main.py:121-122 | one seeding loop appends the block of fresh people, or fails before appending anything |
| Simulations.Simulation.SpawnLater | main.py:124-129 | the infected loop and, in SIRS mode, the recovered loop append exactly their blocks, or nothing when a spawn fails |
| Simulations.Simulation.Populate | main.py:121-129 | seeding appends exactly the initial population; it fails, appending nothing, exactly when some person is to be spawned and randint's range is empty |
| Simulations.Simulation.UpdateAll | main.py:159-160 | every person is updated once, in list order, each with its own input |
| Simulations.Simulation.ReapDead | main.py:162-165 | the list becomes the reap; dead_this_frame is the number of DEAD people and the difference in length; total_deaths grows by it |
| Simulations.Simulation.Tally | main.py:167-177 | the three counters are the SUSCEPTIBLE, INFECTED and RECOVERED counts of the people |
| Simulations.Simulation.ContactPass | main.py:184-188 | the nested loops leave the people in the state Contacts describes, each pair seeing the states left by earlier pairs |
| Simulations.Simulation.ContactRow | main.py:185-188 | the inner loop for one person1 leaves the people as one row of the pass, each pair seeing the states left by earlier pairs |
| Simulations.Simulation.InfectAt | main.py:188 | only the one person's state becomes INFECTED |
| Simulations.Simulation.Advance | main.py:158-165 | update then reap: the people become the reap of the updated population, dead_this_frame is the number of updated people who are DEAD and the drop in length, total_deaths grows by it, and no new person appears |
| Simulations.Simulation.Census | main.py:158-181 | update, reap and tally: the people become the survivors; the row holds the frame number, their tally, the deaths and the running total |
| Simulations.Simulation.Tick | main.py:158-188 | one frame leaves the people as Frame says; the row holds the tally taken before the contact pass, which sums to the survivor count; deaths plus survivors make up the old population; total_deaths never drops; frame_count grows by one; no new people appear |

## Left out

- Rendering: `Person.render`, the sprite image, the screen, `clock.tick` and `fast_mode` do not change the simulation's state.
- File output: the CSV statistics file and the parameters file. `Simulation.Tick` returns the CSV row as a `FrameRow` value instead of writing it.
- Argument parsing. This includes `--recovered_enabled` and `--fast_mode` being declared `type=bool`, so that any non-empty string, "False" included, parses as true. The model takes the configuration as a value.
- The event loop: `pygame.event.get`, `sys.exit` on QUIT, the endless `while True` and the `finally` cleanup. `Tick` is one iteration of the loop.
- Randomness: `np.random.randint`, `np.random.rand` and `np.linalg.norm` become inputs. Their distributions are not modelled. A spot drawn by randint is required to lie in its range.
- Spawn spots: each seeding loop's spots are one input sequence, a spot being a pair of reals in [0, boundary - person_size). That randint returns integers is not used by the model.
- Floating point: positions, velocities and norms are reals, so IEEE rounding is not modelled.
- Agents.Trunc: the rect coordinate truncates toward zero, like Python's `int()`. Some pygame releases round a float rect coordinate instead of truncating it; that is not modelled, and neither is overflow of pygame's 32-bit rect coordinates.
- Negative `person_size`: `pygame.Surface` rejects it when a person is created. Nothing in the model depends on the sign of `person_size`.
- Persons.Person.Update: requires the norm input to be the true norm of the current velocity. The speed bound `NextVelocityBounded` also relies on the jitter range.
- Velocity type: the velocity is a 2-vector from construction on. Before the first update `main.py` holds it as the list `[0, 0]`, which no update reads except through its components and its norm, both 0.

