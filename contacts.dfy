/** The all-pairs contact pass, as the fold the nested loops perform:
    row i is person1 = s[i], column j is person2 = s[j], and every pair sees
    the states as the pass has left them so far. */
module Contact {
  import opened Settings
  import opened Agents
  import opened Population

  /** pygame's collide_rect on two person_size-sided rects at the agents'
      rect corners: the rects overlap with positive area on both axes. */
  predicate Overlap(a: Agent, b: Agent, size: int)
    ensures Overlap(a, b, size) ==> size > 0
  {
    a.rectX < b.rectX + size && b.rectX < a.rectX + size &&
    a.rectY < b.rectY + size && b.rectY < a.rectY + size
  }

  /** Rects of positive size always collide with themselves and collide
      symmetrically; rects of no size never collide. */
  lemma OverlapFacts(a: Agent, b: Agent, size: int)
    ensures Overlap(a, b, size) <==> Overlap(b, a, size)
    ensures size > 0 ==> Overlap(a, a, size)
    ensures size <= 0 ==> !Overlap(a, b, size)
  {
  }

  /** person2.state = INFECTED: only the state changes. */
  function Infect(a: Agent): (r: Agent)
    ensures r.epi.state == Infected
    ensures r.(epi := a.epi) == a && r.epi.(state := a.epi.state) == a.epi
  {
    a.(epi := a.epi.(state := Infected))
  }

  /** One pair: if person1 is infected, person2 susceptible and their rects
      collide, person2 becomes infected. */
  function Touch(s: seq<Agent>, i: nat, j: nat, size: int): (r: seq<Agent>)
    requires i < |s| && j < |s|
    ensures |r| == |s|
  {
    if Overlap(s[i], s[j], size) && s[i].epi.state == Infected && s[j].epi.state == Susceptible
    then s[j := Infect(s[j])]
    else s
  }

  /** The first `j` iterations of the inner loop for person1 = s[i]. */
  function Row(s: seq<Agent>, i: nat, j: nat, size: int): (r: seq<Agent>)
    requires i < |s| && j <= |s|
    ensures |r| == |s|
    decreases j
  {
    if j == 0 then s else Touch(Row(s, i, j - 1, size), i, j - 1, size)
  }

  /** The first `n` iterations of the outer loop. */
  function Rows(s: seq<Agent>, n: nat, size: int): (r: seq<Agent>)
    requires n <= |s|
    ensures |r| == |s|
    decreases n
  {
    if n == 0 then s else Row(Rows(s, n - 1, size), n - 1, |s|, size)
  }

  lemma RowsStep(s: seq<Agent>, i: nat, size: int)
    requires i < |s|
    ensures Rows(s, i + 1, size) == Row(Rows(s, i, size), i, |s|, size)
  {
  }

  /** The whole contact pass. */
  function Contacts(s: seq<Agent>, size: int): (r: seq<Agent>)
    ensures |r| == |s|
  {
    Rows(s, |s|, size)
  }

  /** The only change the pass may make to an agent: SUSCEPTIBLE to INFECTED,
      everything else (position, velocity, rect, timers) unchanged. */
  predicate Evolves(a: Agent, b: Agent) {
    b == a || (a.epi.state == Susceptible && b == Infect(a))
  }

  predicate Pointwise(s: seq<Agent>, r: seq<Agent>) {
    |s| == |r| && forall k :: 0 <= k < |s| ==> Evolves(s[k], r[k])
  }

  lemma PointwiseTrans(s: seq<Agent>, t: seq<Agent>, u: seq<Agent>)
    requires Pointwise(s, t) && Pointwise(t, u)
    ensures Pointwise(s, u)
  {
  }

  /** The self-pair never changes anything: an agent is not both infected and susceptible. */
  lemma SelfPairInert(s: seq<Agent>, i: nat, size: int)
    requires i < |s|
    ensures Touch(s, i, i, size) == s
  {
  }

  lemma TouchEvolves(s: seq<Agent>, i: nat, j: nat, size: int)
    requires i < |s| && j < |s|
    ensures Pointwise(s, Touch(s, i, j, size))
  {
  }

  lemma {:induction false} RowEvolves(s: seq<Agent>, i: nat, j: nat, m: nat, size: int)
    requires i < |s| && j <= m <= |s|
    ensures Pointwise(Row(s, i, j, size), Row(s, i, m, size))
    decreases m
  {
    if m > j {
      RowEvolves(s, i, j, m - 1, size);
      TouchEvolves(Row(s, i, m - 1, size), i, m - 1, size);
      PointwiseTrans(Row(s, i, j, size), Row(s, i, m - 1, size), Row(s, i, m, size));
    }
  }

  lemma {:induction false} RowsEvolve(s: seq<Agent>, n: nat, m: nat, size: int)
    requires n <= m <= |s|
    ensures Pointwise(Rows(s, n, size), Rows(s, m, size))
    decreases m
  {
    if m > n {
      var t := Rows(s, m - 1, size);
      RowsEvolve(s, n, m - 1, size);
      RowEvolves(t, m - 1, 0, |s|, size);
      PointwiseTrans(Rows(s, n, size), t, Rows(s, m, size));
    }
  }

  /** The pass keeps the length and every position, velocity, rect and
      timer; the only transition is SUSCEPTIBLE to INFECTED. */
  lemma ContactsOnlyInfect(s: seq<Agent>, size: int)
    ensures Pointwise(s, Contacts(s, size))
  {
    RowsEvolve(s, 0, |s|, size);
  }

  /** Every susceptible agent whose rect overlaps that of an agent infected
      at the start of the pass ends the pass infected. */
  lemma ContactsInfectNeighbours(s: seq<Agent>, size: int, i: nat, j: nat)
    requires i < |s| && j < |s|
    requires s[i].epi.state == Infected && s[j].epi.state == Susceptible
    requires Overlap(s[i], s[j], size)
    ensures Contacts(s, size)[j].epi.state == Infected
  {
    var t := Rows(s, i, size);
    RowsEvolve(s, 0, i, size);
    var u := Row(t, i, j, size);
    RowEvolves(t, i, 0, j, size);
    assert Overlap(u[i], u[j], size);
    var v := Row(t, i, j + 1, size);
    assert v[j].epi.state == Infected;
    RowEvolves(t, i, j + 1, |s|, size);
    RowsEvolve(s, i + 1, |s|, size);
  }

  /** Some other agent of `t` is infected and overlaps agent k. */
  predicate HasInfectedContact(t: seq<Agent>, k: nat, size: int)
    requires k < |t|
  {
    exists m :: 0 <= m < |t| && m != k && t[m].epi.state == Infected && Overlap(t[m], t[k], size)
  }

  /** Every agent that is infected in `t` and was not in `s` has an infected contact in `t`. */
  predicate Explained(s: seq<Agent>, t: seq<Agent>, size: int)
    requires |s| == |t|
  {
    forall k :: 0 <= k < |t| && t[k].epi.state == Infected && s[k].epi.state != Infected ==>
      HasInfectedContact(t, k, size)
  }

  lemma ContactPreserved(t: seq<Agent>, u: seq<Agent>, k: nat, size: int)
    requires Pointwise(t, u) && k < |t|
    requires HasInfectedContact(t, k, size)
    ensures HasInfectedContact(u, k, size)
  {
    var m :| 0 <= m < |t| && m != k && t[m].epi.state == Infected && Overlap(t[m], t[k], size);
    assert u[m].epi.state == Infected && Overlap(u[m], u[k], size);
  }

  lemma TouchExplained(s: seq<Agent>, t: seq<Agent>, i: nat, j: nat, size: int)
    requires |s| == |t| && i < |t| && j < |t|
    requires Explained(s, t, size)
    ensures Explained(s, Touch(t, i, j, size), size)
  {
    var u := Touch(t, i, j, size);
    TouchEvolves(t, i, j, size);
    forall k | 0 <= k < |u| && u[k].epi.state == Infected && s[k].epi.state != Infected
      ensures HasInfectedContact(u, k, size)
    {
      if t[k].epi.state == Infected {
        ContactPreserved(t, u, k, size);
      } else {
        assert k == j && u[i].epi.state == Infected && Overlap(u[i], u[k], size);
      }
    }
  }

  lemma {:induction false} RowExplained(s: seq<Agent>, t: seq<Agent>, i: nat, j: nat, size: int)
    requires |s| == |t| && i < |t| && j <= |t|
    requires Explained(s, t, size)
    ensures Explained(s, Row(t, i, j, size), size)
    decreases j
  {
    if j > 0 {
      RowExplained(s, t, i, j - 1, size);
      TouchExplained(s, Row(t, i, j - 1, size), i, j - 1, size);
    }
  }

  lemma {:induction false} RowsExplained(s: seq<Agent>, n: nat, size: int)
    requires n <= |s|
    ensures Explained(s, Rows(s, n, size), size)
    decreases n
  {
    if n > 0 {
      RowsExplained(s, n - 1, size);
      RowExplained(s, Rows(s, n - 1, size), n - 1, |s|, size);
    }
  }

  /** Soundness of the pass: an agent that ends infected was infected at
      the start, or was susceptible and overlaps another agent that is
      infected at the end of the pass. */
  lemma ContactsExplained(s: seq<Agent>, size: int, k: nat)
    requires k < |s| && Contacts(s, size)[k].epi.state == Infected
    ensures s[k].epi.state == Infected ||
            (s[k].epi.state == Susceptible && HasInfectedContact(Contacts(s, size), k, size))
  {
    RowsExplained(s, |s|, size);
    ContactsOnlyInfect(s, size);
  }

  lemma {:induction false} PointwiseCounts(s: seq<Agent>, r: seq<Agent>)
    requires Pointwise(s, r)
    ensures Count(r, Recovered) == Count(s, Recovered)
    ensures Count(r, Dead) == Count(s, Dead)
    ensures Count(r, Susceptible) + Count(r, Infected) == Count(s, Susceptible) + Count(s, Infected)
    ensures Count(r, Infected) >= Count(s, Infected)
  {
    if s != [] {
      PointwiseCounts(s[1..], r[1..]);
    }
  }

  /** The pass moves agents from SUSCEPTIBLE to INFECTED only: the recovered
      and dead counts are unchanged and the infected count never drops. */
  lemma ContactsCounts(s: seq<Agent>, size: int)
    ensures var r := Contacts(s, size);
            && Count(r, Recovered) == Count(s, Recovered)
            && Count(r, Dead) == Count(s, Dead)
            && Count(r, Susceptible) + Count(r, Infected) == Count(s, Susceptible) + Count(s, Infected)
            && Count(r, Infected) >= Count(s, Infected)
  {
    ContactsOnlyInfect(s, size);
    PointwiseCounts(s, Contacts(s, size));
  }

  // ------------------------------------------------- enumeration order

  /** An agent standing at x on the line y = 0, rect corner at (x, 0). */
  function At(x: int, st: PersonState): Agent {
    Agent(Vec(x as real, 0.0), Vec(0.0, 0.0), x, 0, Epi(st, 1, 1))
  }

  /** Infection spreads along a chain within one pass when the chain runs in
      list order: C overlaps only B and B only A, yet with A infected and the
      order A, B, C, the pass ends with C infected; in the order C, B, A only B
      is infected and C stays susceptible. */
  lemma PassOrderMatters()
    ensures var a, b, c := At(0, Infected), At(10, Susceptible), At(25, Susceptible);
            && !Overlap(a, c, 20)
            && Contacts([a, b, c], 20)[2].epi.state == Infected
            && Contacts([c, b, a], 20)[0].epi.state == Susceptible
  {
    var a, b, c := At(0, Infected), At(10, Susceptible), At(25, Susceptible);
    var fwd := [a, b, c];
    assert Row(fwd, 0, 1, 20) == fwd;
    assert Row(fwd, 0, 2, 20) == [a, Infect(b), c];
    assert Rows(fwd, 1, 20) == [a, Infect(b), c];
    var r1 := [a, Infect(b), c];
    assert Row(r1, 1, 2, 20) == r1;
    assert Rows(fwd, 2, 20) == [a, Infect(b), Infect(c)];
    RowsEvolve(fwd, 2, 3, 20);
    var bwd := [c, b, a];
    assert Rows(bwd, 2, 20) == bwd;
    assert Rows(bwd, 3, 20) == [c, Infect(b), a];
  }
}
