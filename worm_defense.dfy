/**
 * The infection-and-defense simulation. One node starts infected and one
 * starts inoculated. In every period the infected nodes try to infect their
 * neighbours, then the inoculated nodes try to inoculate theirs; inoculation
 * cures and protects for good. The run goes on while some, but not every,
 * node is infected.
 */
module WormDefense {
  import opened Network

  /** The `isInfected` and `isInoculated` flags of every node, and how many draws have been made. */
  datatype State = State(infected: seq<bool>, inoculated: seq<bool>, cursor: nat)

  /** One entry of the time series: a period, the infected count and the inoculated count. */
  datatype Record = Record(period: nat, infected: nat, inoculated: nat)

  /**
   * What a run leaves behind. `converged` is false when the run was cut off
   * after `maxPeriods` periods with the loop condition still true.
   */
  datatype Outcome = Outcome(final: State, records: seq<Record>, timePeriods: nat, converged: bool)

  /** Both flag vectors cover the nodes 0 .. n-1. */
  predicate Sized(st: State, n: nat)
  {
    |st.infected| == n && |st.inoculated| == n
  }

  /** No node is both infected and inoculated. */
  predicate Exclusive(st: State)
    requires |st.infected| == |st.inoculated|
  {
    forall v :: 0 <= v < |st.infected| ==> !(st.infected[v] && st.inoculated[v])
  }

  /**
   * The infection loop meets neighbour `m`. The draw is taken only when `m`
   * is neither inoculated nor infected, as the short-circuit `and` decides;
   * a successful draw infects it.
   */
  function InfectionVisit(st: State, m: nat, draws: Draws): (r: State)
    requires Sized(st, |st.infected|) && m < |st.infected|
    ensures Sized(r, |st.infected|) && r.inoculated == st.inoculated
    ensures forall v :: 0 <= v < |st.infected| && v != m ==> r.infected[v] == st.infected[v]
    ensures r.cursor != st.cursor <==> !st.inoculated[m] && !st.infected[m]
    ensures r.infected[m] <==> st.infected[m] || (!st.inoculated[m] && draws(st.cursor))
  {
    if st.inoculated[m] || st.infected[m] then st
    else if draws(st.cursor) then State(st.infected[m := true], st.inoculated, st.cursor + 1)
    else State(st.infected, st.inoculated, st.cursor + 1)
  }

  /**
   * The inoculation loop meets neighbour `m`. The draw is taken only when `m`
   * is not inoculated; a successful draw inoculates it and clears its
   * infection.
   */
  function InoculationVisit(st: State, m: nat, draws: Draws): (r: State)
    requires Sized(st, |st.infected|) && m < |st.infected|
    ensures Sized(r, |st.infected|)
    ensures forall v :: 0 <= v < |st.infected| && v != m ==>
      r.infected[v] == st.infected[v] && r.inoculated[v] == st.inoculated[v]
    ensures r.cursor != st.cursor <==> !st.inoculated[m]
    ensures r.inoculated[m] <==> st.inoculated[m] || draws(st.cursor)
    ensures r.infected[m] <==> st.infected[m] && (st.inoculated[m] || !draws(st.cursor))
  {
    if st.inoculated[m] then st
    else if draws(st.cursor) then State(st.infected[m := false], st.inoculated[m := true], st.cursor + 1)
    else State(st.infected, st.inoculated, st.cursor + 1)
  }

  /**
   * The infection loop visiting `targets` in order. It never touches an
   * inoculated node, and only a visited node can become infected.
   */
  function Infect(st: State, targets: seq<nat>, draws: Draws): (r: State)
    requires Sized(st, |st.infected|) && AreNodes(|st.infected|, targets)
    ensures Sized(r, |st.infected|) && r.inoculated == st.inoculated
    ensures st.cursor <= r.cursor <= st.cursor + |targets|
    ensures Covers(st.infected, r.infected)
    ensures forall v: nat {:trigger r.infected[v]} :: v < |st.infected| && r.infected[v] && !st.infected[v] ==>
      v in targets && !st.inoculated[v]
    decreases |targets|
  {
    if targets == [] then st
    else
      var last := |targets| - 1;
      AreNodesPrefix(|st.infected|, targets, last);
      InfectionVisit(Infect(st, targets[..last], draws), targets[last], draws)
  }

  /**
   * The inoculation loop visiting `targets` in order. Inoculation is never
   * undone, only a visited node can become inoculated, and a node's infection
   * is cleared exactly when it becomes inoculated.
   */
  function Inoculate(st: State, targets: seq<nat>, draws: Draws): (r: State)
    requires Sized(st, |st.infected|) && AreNodes(|st.infected|, targets)
    ensures Sized(r, |st.infected|)
    ensures st.cursor <= r.cursor <= st.cursor + |targets|
    ensures Covers(st.inoculated, r.inoculated)
    ensures forall v: nat {:trigger r.inoculated[v]} :: v < |st.infected| && r.inoculated[v] && !st.inoculated[v] ==>
      v in targets
    ensures forall v: nat {:trigger r.infected[v]} :: v < |st.infected| ==>
      (r.infected[v] <==> st.infected[v] && !(r.inoculated[v] && !st.inoculated[v]))
    decreases |targets|
  {
    if targets == [] then st
    else
      var last := |targets| - 1;
      AreNodesPrefix(|st.infected|, targets, last);
      InoculationVisit(Inoculate(st, targets[..last], draws), targets[last], draws)
  }

  /** The inner infection loop visits neighbour `j` after neighbours `0 .. j-1`. */
  lemma InfectNext(st: State, done: seq<nat>, neighbours: seq<nat>, j: nat, draws: Draws)
    requires Sized(st, |st.infected|)
    requires j < |neighbours| && AreNodes(|st.infected|, done + neighbours[..j])
    requires neighbours[j] < |st.infected|
    ensures AreNodes(|st.infected|, done + neighbours[..j + 1])
    ensures Infect(st, done + neighbours[..j + 1], draws)
         == InfectionVisit(Infect(st, done + neighbours[..j], draws), neighbours[j], draws)
  {
    var visited := done + neighbours[..j + 1];
    assert visited == (done + neighbours[..j]) + [neighbours[j]];
    assert visited[..|visited| - 1] == done + neighbours[..j];
  }

  /** The inner inoculation loop visits neighbour `j` after neighbours `0 .. j-1`. */
  lemma InoculateNext(st: State, done: seq<nat>, neighbours: seq<nat>, j: nat, draws: Draws)
    requires Sized(st, |st.infected|)
    requires j < |neighbours| && AreNodes(|st.infected|, done + neighbours[..j])
    requires neighbours[j] < |st.infected|
    ensures AreNodes(|st.infected|, done + neighbours[..j + 1])
    ensures Inoculate(st, done + neighbours[..j + 1], draws)
         == InoculationVisit(Inoculate(st, done + neighbours[..j], draws), neighbours[j], draws)
  {
    var visited := done + neighbours[..j + 1];
    assert visited == (done + neighbours[..j]) + [neighbours[j]];
    assert visited[..|visited| - 1] == done + neighbours[..j];
  }

  /** When every draw from the cursor on fails, the infection loop changes no flag. */
  lemma {:induction false} InfectWithoutLuck(st: State, targets: seq<nat>, draws: Draws)
    requires Sized(st, |st.infected|) && AreNodes(|st.infected|, targets)
    requires FailsFrom(draws, st.cursor)
    ensures Infect(st, targets, draws).infected == st.infected
  {
    if targets != [] {
      var last := |targets| - 1;
      AreNodesPrefix(|st.infected|, targets, last);
      InfectWithoutLuck(st, targets[..last], draws);
    }
  }

  /** When every draw from the cursor on fails, the inoculation loop changes no flag. */
  lemma {:induction false} InoculateWithoutLuck(st: State, targets: seq<nat>, draws: Draws)
    requires Sized(st, |st.infected|) && AreNodes(|st.infected|, targets)
    requires FailsFrom(draws, st.cursor)
    ensures Inoculate(st, targets, draws).infected == st.infected
    ensures Inoculate(st, targets, draws).inoculated == st.inoculated
  {
    if targets != [] {
      var last := |targets| - 1;
      AreNodesPrefix(|st.infected|, targets, last);
      InoculateWithoutLuck(st, targets[..last], draws);
    }
  }

  /**
   * When every draw succeeds, the infection loop infects exactly the visited
   * nodes that are not inoculated.
   */
  lemma {:induction false} InfectWithLuck(st: State, targets: seq<nat>, draws: Draws, v: nat)
    requires Sized(st, |st.infected|) && AreNodes(|st.infected|, targets)
    requires AlwaysSucceeds(draws)
    requires v < |st.infected|
    ensures Infect(st, targets, draws).infected[v] <==>
      st.infected[v] || (v in targets && !st.inoculated[v])
  {
    if targets != [] {
      var last := |targets| - 1;
      AreNodesPrefix(|st.infected|, targets, last);
      InfectWithLuck(st, targets[..last], draws, v);
      assert targets == targets[..last] + [targets[last]];
    }
  }

  /** When every draw succeeds, the inoculation loop inoculates exactly the visited nodes. */
  lemma {:induction false} InoculateWithLuck(st: State, targets: seq<nat>, draws: Draws, v: nat)
    requires Sized(st, |st.infected|) && AreNodes(|st.infected|, targets)
    requires AlwaysSucceeds(draws)
    requires v < |st.infected|
    ensures Inoculate(st, targets, draws).inoculated[v] <==> st.inoculated[v] || v in targets
  {
    if targets != [] {
      var last := |targets| - 1;
      AreNodesPrefix(|st.infected|, targets, last);
      InoculateWithLuck(st, targets[..last], draws, v);
      assert targets == targets[..last] + [targets[last]];
    }
  }

  /**
   * An infection loop whose every visited node is already inoculated or
   * infected takes no draw and changes nothing.
   */
  lemma {:induction false} InfectNothingEligible(st: State, targets: seq<nat>, draws: Draws)
    requires Sized(st, |st.infected|) && AreNodes(|st.infected|, targets)
    requires forall i :: 0 <= i < |targets| ==> st.inoculated[targets[i]] || st.infected[targets[i]]
    ensures Infect(st, targets, draws) == st
  {
    if targets != [] {
      var last := |targets| - 1;
      AreNodesPrefix(|st.infected|, targets, last);
      InfectNothingEligible(st, targets[..last], draws);
    }
  }

  /**
   * An inoculation loop whose every visited node is already inoculated takes
   * no draw and changes nothing.
   */
  lemma {:induction false} InoculateNothingEligible(st: State, targets: seq<nat>, draws: Draws)
    requires Sized(st, |st.infected|) && AreNodes(|st.infected|, targets)
    requires forall i :: 0 <= i < |targets| ==> st.inoculated[targets[i]]
    ensures Inoculate(st, targets, draws) == st
  {
    if targets != [] {
      var last := |targets| - 1;
      AreNodesPrefix(|st.infected|, targets, last);
      InoculateNothingEligible(st, targets[..last], draws);
    }
  }

  /**
   * One period. Both lists are taken at the top of the loop: the infection
   * loop runs from the infected nodes listed then, and the inoculation loop
   * from the inoculated nodes listed then, while both read and write the live
   * flags.
   */
  function Period(adj: Adjacency, st: State, draws: Draws): (r: State)
    requires WellFormed(adj) && Sized(st, |adj|)
    ensures Sized(r, |adj|) && st.cursor <= r.cursor
  {
    var infectedNodes, inoculatedNodes := Flagged(st.infected), Flagged(st.inoculated);
    Inoculate(Infect(st, Visits(adj, infectedNodes), draws), Visits(adj, inoculatedNodes), draws)
  }

  /** Inoculation is absorbing, so the inoculated count never drops. */
  lemma PeriodKeepsInoculated(adj: Adjacency, st: State, draws: Draws)
    requires WellFormed(adj) && Sized(st, |adj|)
    ensures Covers(st.inoculated, Period(adj, st, draws).inoculated)
    ensures Count(st.inoculated) <= Count(Period(adj, st, draws).inoculated)
  {
    CountMonotone(st.inoculated, Period(adj, st, draws).inoculated);
  }

  /**
   * A node inoculated in a period neighbours a node that was inoculated when
   * the period began, and it ends the period uninfected.
   */
  lemma PeriodInoculatesFromSnapshot(adj: Adjacency, st: State, draws: Draws, v: nat)
    requires WellFormed(adj) && Sized(st, |adj|) && v < |adj|
    ensures var r := Period(adj, st, draws);
      r.inoculated[v] && !st.inoculated[v] ==> NeighbourOfFlagged(adj, st.inoculated, v) && !r.infected[v]
  {
    SnapshotNeighbours(adj, st.inoculated, v);
  }

  /**
   * A node infected in a period neighbours a node that was infected when the
   * period began, and it was not inoculated then and is not inoculated now.
   */
  lemma PeriodInfectsFromSnapshot(adj: Adjacency, st: State, draws: Draws, v: nat)
    requires WellFormed(adj) && Sized(st, |adj|) && v < |adj|
    ensures var r := Period(adj, st, draws);
      r.infected[v] && !st.infected[v] ==>
        NeighbourOfFlagged(adj, st.infected, v) && !st.inoculated[v] && !r.inoculated[v]
  {
    SnapshotNeighbours(adj, st.infected, v);
  }

  /**
   * A node with no infected and no inoculated neighbour at the top of the
   * loop keeps both its flags through the period.
   */
  lemma PeriodLeavesOthersAlone(adj: Adjacency, st: State, draws: Draws, v: nat)
    requires WellFormed(adj) && Sized(st, |adj|) && v < |adj|
    requires !NeighbourOfFlagged(adj, st.infected, v) && !NeighbourOfFlagged(adj, st.inoculated, v)
    ensures Period(adj, st, draws).infected[v] == st.infected[v]
    ensures Period(adj, st, draws).inoculated[v] == st.inoculated[v]
  {
    SnapshotNeighbours(adj, st.infected, v);
    SnapshotNeighbours(adj, st.inoculated, v);
  }

  /**
   * A period makes no node both infected and inoculated, and a node that is
   * both stays both: the inoculation loop skips it, so it is never cured.
   */
  lemma PeriodDoubleFlags(adj: Adjacency, st: State, draws: Draws, v: nat)
    requires WellFormed(adj) && Sized(st, |adj|) && v < |adj|
    ensures var r := Period(adj, st, draws);
      r.infected[v] && r.inoculated[v] <==> st.infected[v] && st.inoculated[v]
  {
  }

  /** A period keeps the two flags apart if they were apart when it began. */
  lemma PeriodKeepsExclusive(adj: Adjacency, st: State, draws: Draws)
    requires WellFormed(adj) && Sized(st, |adj|) && Exclusive(st)
    ensures Exclusive(Period(adj, st, draws))
  {
    forall v | 0 <= v < |adj|
      ensures !(Period(adj, st, draws).infected[v] && Period(adj, st, draws).inoculated[v])
    {
      PeriodDoubleFlags(adj, st, draws, v);
    }
  }

  /** When every draw from the cursor on fails, a period changes no flag. */
  lemma PeriodWithoutLuck(adj: Adjacency, st: State, draws: Draws)
    requires WellFormed(adj) && Sized(st, |adj|)
    requires FailsFrom(draws, st.cursor)
    ensures Period(adj, st, draws).infected == st.infected
    ensures Period(adj, st, draws).inoculated == st.inoculated
  {
    var infectedNodes, inoculatedNodes := Flagged(st.infected), Flagged(st.inoculated);
    var mid := Infect(st, Visits(adj, infectedNodes), draws);
    InfectWithoutLuck(st, Visits(adj, infectedNodes), draws);
    assert FailsFrom(draws, mid.cursor);
    InoculateWithoutLuck(mid, Visits(adj, inoculatedNodes), draws);
  }

  /**
   * When every draw succeeds, a period inoculates exactly the neighbours of
   * the nodes inoculated at its start; a node that was not inoculated ends
   * infected exactly when it was infected or neighboured an infected node and
   * was not reached by inoculation.
   */
  lemma PeriodWithLuck(adj: Adjacency, st: State, draws: Draws, v: nat)
    requires WellFormed(adj) && Sized(st, |adj|) && v < |adj|
    requires AlwaysSucceeds(draws)
    ensures Period(adj, st, draws).inoculated[v] <==>
      st.inoculated[v] || NeighbourOfFlagged(adj, st.inoculated, v)
    ensures !st.inoculated[v] ==>
      (Period(adj, st, draws).infected[v] <==>
         (st.infected[v] || NeighbourOfFlagged(adj, st.infected, v)) && !NeighbourOfFlagged(adj, st.inoculated, v))
  {
    var infectedNodes, inoculatedNodes := Flagged(st.infected), Flagged(st.inoculated);
    var mid := Infect(st, Visits(adj, infectedNodes), draws);
    SnapshotNeighbours(adj, st.infected, v);
    SnapshotNeighbours(adj, st.inoculated, v);
    InfectWithLuck(st, Visits(adj, infectedNodes), draws, v);
    InoculateWithLuck(mid, Visits(adj, inoculatedNodes), draws, v);
  }

  /** Every flag cleared, then one node infected and one inoculated; no draw made yet. */
  function Initial(n: nat, infectionStart: nat, inoculationStart: nat): State
    requires infectionStart < n && inoculationStart < n
  {
    State(seq(n, v => v == infectionStart), seq(n, v => v == inoculationStart), 0)
  }

  /**
   * After initialization the infected list is `[infectionStart]` and the
   * inoculated list is `[inoculationStart]`; when the two start nodes
   * coincide, that node carries both flags.
   */
  lemma InitialFlags(n: nat, infectionStart: nat, inoculationStart: nat)
    requires infectionStart < n && inoculationStart < n
    ensures var st := Initial(n, infectionStart, inoculationStart);
      && Flagged(st.infected) == [infectionStart]
      && Flagged(st.inoculated) == [inoculationStart]
      && (Exclusive(st) <==> infectionStart != inoculationStart)
  {
    var st := Initial(n, infectionStart, inoculationStart);
    FlaggedOnly(st.infected, infectionStart);
    FlaggedOnly(st.inoculated, inoculationStart);
    if infectionStart == inoculationStart {
      assert st.infected[infectionStart] && st.inoculated[infectionStart];
    }
  }

  /**
   * One infection attempt on `neighbour`, in place: the draw is taken only
   * when the node is neither inoculated nor infected, and a successful draw
   * infects it. Returns the position of the next draw.
   */
  method InfectionAttempt(infected: array<bool>, inoculated: array<bool>, neighbour: nat, draws: Draws, cursor: nat)
    returns (next: nat)
    requires infected != inoculated && infected.Length == inoculated.Length && neighbour < infected.Length
    modifies infected
    ensures State(infected[..], inoculated[..], next)
         == InfectionVisit(State(old(infected[..]), inoculated[..], cursor), neighbour, draws)
  {
    next := cursor;
    if !inoculated[neighbour] && !infected[neighbour] {
      var success := draws(next);
      next := next + 1;
      if success {
        infected[neighbour] := true;
      }
    }
  }

  /**
   * One inoculation attempt on `neighbour`, in place: the draw is taken only
   * when the node is not inoculated, and a successful draw inoculates it and
   * clears its infection. Returns the position of the next draw.
   */
  method InoculationAttempt(infected: array<bool>, inoculated: array<bool>, neighbour: nat, draws: Draws, cursor: nat)
    returns (next: nat)
    requires infected != inoculated && infected.Length == inoculated.Length && neighbour < infected.Length
    modifies infected, inoculated
    ensures State(infected[..], inoculated[..], next)
         == InoculationVisit(State(old(infected[..]), old(inoculated[..]), cursor), neighbour, draws)
  {
    next := cursor;
    if !inoculated[neighbour] {
      var success := draws(next);
      next := next + 1;
      if success {
        inoculated[neighbour] := true;
        infected[neighbour] := false;
      }
    }
  }

  /**
   * The infection loops of one period, in place: for each listed infected
   * node, for each of its neighbours, one infection attempt.
   */
  method InfectionPass(adj: Adjacency, infected: array<bool>, inoculated: array<bool>, sources: seq<nat>,
                       draws: Draws, cursor: nat)
    returns (next: nat)
    requires WellFormed(adj) && infected.Length == |adj| && inoculated.Length == |adj|
    requires infected != inoculated && AreNodes(|adj|, sources)
    modifies infected
    ensures State(infected[..], inoculated[..], next)
         == Infect(State(old(infected[..]), inoculated[..], cursor), Visits(adj, sources), draws)
  {
    ghost var start := State(infected[..], inoculated[..], cursor);
    next := cursor;
    for i := 0 to |sources|
      invariant AreNodes(|adj|, sources[..i])
      invariant State(infected[..], inoculated[..], next) == Infect(start, Visits(adj, sources[..i]), draws)
    {
      var neighbours := adj[sources[i]];
      ghost var done := Visits(adj, sources[..i]);
      assert done + neighbours[..0] == done;
      for j := 0 to |neighbours|
        invariant AreNodes(|adj|, done + neighbours[..j])
        invariant State(infected[..], inoculated[..], next) == Infect(start, done + neighbours[..j], draws)
      {
        next := InfectionAttempt(infected, inoculated, neighbours[j], draws, next);
        InfectNext(start, done, neighbours, j, draws);
      }
      assert sources[..i + 1][..i] == sources[..i];
      assert neighbours[..|neighbours|] == neighbours;
    }
    assert sources[..|sources|] == sources;
  }

  /**
   * The inoculation loops of one period, in place: for each listed
   * inoculated node, for each of its neighbours, one inoculation attempt.
   */
  method InoculationPass(adj: Adjacency, infected: array<bool>, inoculated: array<bool>, sources: seq<nat>,
                         draws: Draws, cursor: nat)
    returns (next: nat)
    requires WellFormed(adj) && infected.Length == |adj| && inoculated.Length == |adj|
    requires infected != inoculated && AreNodes(|adj|, sources)
    modifies infected, inoculated
    ensures State(infected[..], inoculated[..], next)
         == Inoculate(State(old(infected[..]), old(inoculated[..]), cursor), Visits(adj, sources), draws)
  {
    ghost var start := State(infected[..], inoculated[..], cursor);
    next := cursor;
    for i := 0 to |sources|
      invariant AreNodes(|adj|, sources[..i])
      invariant State(infected[..], inoculated[..], next) == Inoculate(start, Visits(adj, sources[..i]), draws)
    {
      var neighbours := adj[sources[i]];
      ghost var done := Visits(adj, sources[..i]);
      assert done + neighbours[..0] == done;
      for j := 0 to |neighbours|
        invariant AreNodes(|adj|, done + neighbours[..j])
        invariant State(infected[..], inoculated[..], next) == Inoculate(start, done + neighbours[..j], draws)
      {
        next := InoculationAttempt(infected, inoculated, neighbours[j], draws, next);
        InoculateNext(start, done, neighbours, j, draws);
      }
      assert sources[..i + 1][..i] == sources[..i];
      assert neighbours[..|neighbours|] == neighbours;
    }
    assert sources[..|sources|] == sources;
  }

  /** The loop condition: some node is infected, and not every node is. */
  predicate Spreading(adj: Adjacency, st: State)
    requires Sized(st, |adj|)
  {
    0 < Count(st.infected) < |adj|
  }

  /**
   * The run loop as a function, from period `t` on, given the records written
   * so far: while some but not every node is infected (and periods remain),
   * record the period with both counts, then run one period; on leaving the
   * loop, record the end state once more. A run cut off by `maxPeriods` gets no
   * final record.
   */
  function RunFrom(adj: Adjacency, st: State, draws: Draws, t: nat, records: seq<Record>, maxPeriods: nat): (o: Outcome)
    requires WellFormed(adj) && Sized(st, |adj|)
    ensures Sized(o.final, |adj|)
    decreases maxPeriods - t
  {
    var record := Record(t, Count(st.infected), Count(st.inoculated));
    if Spreading(adj, st) && t < maxPeriods then
      RunFrom(adj, Period(adj, st, draws), draws, t + 1, records + [record], maxPeriods)
    else if !Spreading(adj, st) then
      Outcome(st, records + [record], t, true)
    else
      Outcome(st, records, t, false)
  }

  /**
   * A whole run. The infection start node is looked up first, then the
   * inoculation start node; either one missing from the graph is an error.
   */
  function Run(adj: Adjacency, infectionStart: nat, inoculationStart: nat, draws: Draws, maxPeriods: nat): Result<Outcome>
    requires WellFormed(adj)
  {
    if infectionStart >= |adj| then Err(UnknownNode(infectionStart))
    else if inoculationStart >= |adj| then Err(UnknownNode(inoculationStart))
    else Ok(RunFrom(adj, Initial(|adj|, infectionStart, inoculationStart), draws, 0, [], maxPeriods))
  }

  /**
   * The records of a run so far: record k is for period k, the infected
   * count is at most `n`, the inoculated counts stay at most `bound` and
   * never decrease.
   */
  predicate Recorded(records: seq<Record>, n: nat, bound: nat)
  {
    && (forall k :: 0 <= k < |records| ==>
          records[k].period == k && records[k].infected <= n && records[k].inoculated <= bound)
    && (forall j, k :: 0 <= j <= k < |records| ==> records[j].inoculated <= records[k].inoculated)
  }

  /** Appending the record of period `t` keeps the records in order. */
  lemma RecordedSnoc(records: seq<Record>, t: nat, record: Record, n: nat, bound: nat)
    requires |records| == t && Recorded(records, n, record.inoculated)
    requires record.period == t && record.infected <= n && record.inoculated <= bound
    ensures Recorded(records + [record], n, bound)
  {
  }

  /**
   * `o` is a run that went on from period `t`, with `records` written so far
   * and `inoculated` the inoculated set at that point. The loop stopped
   * exactly when no node or every node was infected (or the periods ran out);
   * every record but a final one was written while some but not every node
   * was infected; a run that stopped ends with the record of its end state; and
   * every inoculated node stayed inoculated.
   */
  predicate Continues(adj: Adjacency, inoculated: seq<bool>, t: nat, records: seq<Record>, maxPeriods: nat, o: Outcome)
  {
    && Sized(o.final, |adj|)
    && t <= o.timePeriods <= maxPeriods
    && (o.converged <==> Count(o.final.infected) == 0 || Count(o.final.infected) == |adj|)
    && (!o.converged ==> o.timePeriods == maxPeriods)
    && |o.records| == o.timePeriods + (if o.converged then 1 else 0)
    && o.records[..t] == records
    && Recorded(o.records, |adj|, Count(o.final.inoculated))
    && (forall k :: 0 <= k < o.timePeriods ==> 0 < o.records[k].infected < |adj|)
    && (o.converged ==>
          o.records[o.timePeriods] == Record(o.timePeriods, Count(o.final.infected), Count(o.final.inoculated)))
    && Covers(inoculated, o.final.inoculated)
  }

  /** A run that continues from period `t + 1` after one more period continues from period `t`. */
  lemma ContinuesEarlier(adj: Adjacency, inoculated: seq<bool>, after: seq<bool>, t: nat,
                         records: seq<Record>, record: Record, maxPeriods: nat, o: Outcome)
    requires |records| == t && Covers(inoculated, after)
    requires Continues(adj, after, t + 1, records + [record], maxPeriods, o)
    ensures Continues(adj, inoculated, t, records, maxPeriods, o)
  {
    assert o.records[..t] == o.records[..t + 1][..t];
  }

  /** The rest of a run, from the records so far. */
  lemma {:induction false} RunFromKeepsRecords(adj: Adjacency, st: State, draws: Draws, t: nat,
                                               records: seq<Record>, maxPeriods: nat)
    requires WellFormed(adj) && Sized(st, |adj|)
    requires t <= maxPeriods && |records| == t
    requires Recorded(records, |adj|, Count(st.inoculated))
    requires forall k :: 0 <= k < t ==> 0 < records[k].infected < |adj|
    ensures Continues(adj, st.inoculated, t, records, maxPeriods, RunFrom(adj, st, draws, t, records, maxPeriods))
    decreases maxPeriods - t
  {
    var record := Record(t, Count(st.infected), Count(st.inoculated));
    assert Count(st.infected) <= |adj| && Count(st.inoculated) <= |adj|;
    if Spreading(adj, st) && t < maxPeriods {
      var after := Period(adj, st, draws);
      PeriodKeepsInoculated(adj, st, draws);
      RecordedSnoc(records, t, record, |adj|, Count(after.inoculated));
      RunFromKeepsRecords(adj, after, draws, t + 1, records + [record], maxPeriods);
      ContinuesEarlier(adj, st.inoculated, after.inoculated, t, records, record, maxPeriods,
                       RunFrom(adj, after, draws, t + 1, records + [record], maxPeriods));
    } else if !Spreading(adj, st) {
      RecordedSnoc(records, t, record, |adj|, Count(st.inoculated));
      assert (records + [record])[..t] == records;
    } else {
      assert records[..t] == records;
    }
  }

  /**
   * With the two flags apart at the start, they stay apart, and every record
   * counts at most `n` infected and inoculated nodes together.
   */
  lemma {:induction false} RunFromKeepsExclusive(adj: Adjacency, st: State, draws: Draws, t: nat,
                                                 records: seq<Record>, maxPeriods: nat)
    requires WellFormed(adj) && Sized(st, |adj|) && Exclusive(st)
    requires forall k :: 0 <= k < |records| ==> records[k].infected + records[k].inoculated <= |adj|
    ensures var o := RunFrom(adj, st, draws, t, records, maxPeriods);
      && Exclusive(o.final)
      && (forall k :: 0 <= k < |o.records| ==> o.records[k].infected + o.records[k].inoculated <= |adj|)
    decreases maxPeriods - t
  {
    var next := records + [Record(t, Count(st.infected), Count(st.inoculated))];
    CountDisjoint(st.infected, st.inoculated);
    assert forall k :: 0 <= k < |next| ==> next[k].infected + next[k].inoculated <= |adj|;
    if Spreading(adj, st) && t < maxPeriods {
      PeriodKeepsExclusive(adj, st, draws);
      RunFromKeepsExclusive(adj, Period(adj, st, draws), draws, t + 1, next, maxPeriods);
    }
  }

  /**
   * A node that is both infected and inoculated stays so for the rest of the
   * run, so the infected count never reaches zero again.
   */
  lemma {:induction false} RunFromKeepsDouble(adj: Adjacency, st: State, draws: Draws, t: nat,
                                              records: seq<Record>, maxPeriods: nat, v: nat)
    requires WellFormed(adj) && Sized(st, |adj|) && v < |adj|
    requires st.infected[v] && st.inoculated[v]
    ensures var o := RunFrom(adj, st, draws, t, records, maxPeriods);
      o.final.infected[v] && o.final.inoculated[v]
    decreases maxPeriods - t
  {
    if Spreading(adj, st) && t < maxPeriods {
      PeriodDoubleFlags(adj, st, draws, v);
      RunFromKeepsDouble(adj, Period(adj, st, draws), draws, t + 1,
                         records + [Record(t, Count(st.infected), Count(st.inoculated))], maxPeriods, v);
    }
  }

  /**
   * A run whose draws all fail from some point on stalls there: no flag
   * changes again and, unless the loop condition was already false, the run
   * never stops. `wormDefense` would loop for ever here.
   */
  lemma {:induction false} RunFromWithoutLuck(adj: Adjacency, st: State, draws: Draws, t: nat,
                                              records: seq<Record>, maxPeriods: nat)
    requires WellFormed(adj) && Sized(st, |adj|)
    requires FailsFrom(draws, st.cursor)
    requires Spreading(adj, st)
    ensures RunFrom(adj, st, draws, t, records, maxPeriods).final.infected == st.infected
    ensures RunFrom(adj, st, draws, t, records, maxPeriods).final.inoculated == st.inoculated
    ensures !RunFrom(adj, st, draws, t, records, maxPeriods).converged
    decreases maxPeriods - t
  {
    if t < maxPeriods {
      var after := Period(adj, st, draws);
      PeriodWithoutLuck(adj, st, draws);
      assert FailsFrom(draws, after.cursor);
      RunFromWithoutLuck(adj, after, draws, t + 1,
                         records + [Record(t, Count(st.infected), Count(st.inoculated))], maxPeriods);
    }
  }

  /**
   * A run fails exactly when a start node is not in the graph, and the node
   * it reports is the infection start node when that one is missing.
   */
  lemma RunFailsOnUnknownStart(adj: Adjacency, infectionStart: nat, inoculationStart: nat, draws: Draws, maxPeriods: nat)
    requires WellFormed(adj)
    ensures var r := Run(adj, infectionStart, inoculationStart, draws, maxPeriods);
      && (r.Err? <==> infectionStart >= |adj| || inoculationStart >= |adj|)
      && (r.Err? ==> r.error == UnknownNode(if infectionStart >= |adj| then infectionStart else inoculationStart))
  {
  }

  /**
   * A whole run from two known start nodes: record k is for period k; counts
   * are at most the number of nodes and the inoculated counts never decrease;
   * the loop exits exactly when no node or every node is infected, with a
   * final record of the end state, or when the periods run out; the
   * inoculation start node is still inoculated at the end.
   */
  lemma RunKeepsRecords(adj: Adjacency, infectionStart: nat, inoculationStart: nat, draws: Draws, maxPeriods: nat)
    requires WellFormed(adj) && infectionStart < |adj| && inoculationStart < |adj|
    ensures var o := Run(adj, infectionStart, inoculationStart, draws, maxPeriods).value;
      && o.timePeriods <= maxPeriods
      && (o.converged <==> Count(o.final.infected) == 0 || Count(o.final.infected) == |adj|)
      && (!o.converged ==> o.timePeriods == maxPeriods)
      && |o.records| == o.timePeriods + (if o.converged then 1 else 0)
      && Recorded(o.records, |adj|, |adj|)
      && (forall k :: 0 <= k < o.timePeriods ==> 0 < o.records[k].infected < |adj|)
      && (o.converged ==>
            o.records[o.timePeriods] == Record(o.timePeriods, Count(o.final.infected), Count(o.final.inoculated)))
      && o.final.inoculated[inoculationStart]
  {
    var init := Initial(|adj|, infectionStart, inoculationStart);
    RunFromKeepsRecords(adj, init, draws, 0, [], maxPeriods);
    var o := RunFrom(adj, init, draws, 0, [], maxPeriods);
    assert Count(o.final.inoculated) <= |adj|;
  }

  /**
   * Distinct start nodes: no node is ever both infected and inoculated, and
   * every record counts at most the number of nodes in the two together.
   */
  lemma RunWithDistinctStarts(adj: Adjacency, infectionStart: nat, inoculationStart: nat, draws: Draws, maxPeriods: nat)
    requires WellFormed(adj) && infectionStart < |adj| && inoculationStart < |adj|
    requires infectionStart != inoculationStart
    ensures var o := Run(adj, infectionStart, inoculationStart, draws, maxPeriods).value;
      && Exclusive(o.final)
      && (forall k :: 0 <= k < |o.records| ==> o.records[k].infected + o.records[k].inoculated <= |adj|)
  {
    InitialFlags(|adj|, infectionStart, inoculationStart);
    RunFromKeepsExclusive(adj, Initial(|adj|, infectionStart, inoculationStart), draws, 0, [], maxPeriods);
  }

  /**
   * Coinciding start nodes: that node is both infected and inoculated, the
   * inoculation loop never cures it, so it is infected at the end and the run
   * can stop only once every node is infected.
   */
  lemma RunWithCoincidingStarts(adj: Adjacency, start: nat, draws: Draws, maxPeriods: nat)
    requires WellFormed(adj) && start < |adj|
    ensures var o := Run(adj, start, start, draws, maxPeriods).value;
      && o.final.infected[start] && o.final.inoculated[start]
      && (o.converged ==> forall v :: 0 <= v < |adj| ==> o.final.infected[v])
  {
    var init := Initial(|adj|, start, start);
    RunFromKeepsDouble(adj, init, draws, 0, [], maxPeriods, start);
    RunFromKeepsRecords(adj, init, draws, 0, [], maxPeriods);
    var o := RunFrom(adj, init, draws, 0, [], maxPeriods);
    CountEmpty(o.final.infected);
    CountFull(o.final.infected);
  }

  /**
   * The whole run, on node flags updated in place: initialize, then while
   * some but not every node is infected, list the infected and the inoculated
   * nodes, record the period and both counts, run the infection loops and then
   * the inoculation loops, and advance the period; finally record the end
   * state. `wormDefense` loops without bound; here the run stops after
   * `maxPeriods` periods and reports that it did not converge.
   */
  method WormDefense(adj: Adjacency, infectionStart: nat, inoculationStart: nat, draws: Draws, maxPeriods: nat)
    returns (r: Result<Outcome>)
    requires WellFormed(adj)
    ensures r == Run(adj, infectionStart, inoculationStart, draws, maxPeriods)
  {
    var totalNodes := |adj|;
    var infected := new bool[totalNodes](_ => false);
    var inoculated := new bool[totalNodes](_ => false);
    if infectionStart >= totalNodes {
      return Err(UnknownNode(infectionStart));
    }
    infected[infectionStart] := true;
    if inoculationStart >= totalNodes {
      return Err(UnknownNode(inoculationStart));
    }
    inoculated[inoculationStart] := true;
    ghost var init := Initial(totalNodes, infectionStart, inoculationStart);
    assert infected[..] == init.infected && inoculated[..] == init.inoculated;
    var timePeriods := 0;
    var cursor := 0;
    var records: seq<Record> := [];
    while 0 < |Flagged(infected[..])| < totalNodes && timePeriods < maxPeriods
      invariant RunFrom(adj, State(infected[..], inoculated[..], cursor), draws, timePeriods, records, maxPeriods)
             == RunFrom(adj, init, draws, 0, [], maxPeriods)
      decreases maxPeriods - timePeriods
    {
      ghost var before := State(infected[..], inoculated[..], cursor);
      var infectedNodes := Flagged(infected[..]);
      var inoculatedNodes := Flagged(inoculated[..]);
      records := records + [Record(timePeriods, |infectedNodes|, |inoculatedNodes|)];
      cursor := InfectionPass(adj, infected, inoculated, infectedNodes, draws, cursor);
      cursor := InoculationPass(adj, infected, inoculated, inoculatedNodes, draws, cursor);
      timePeriods := timePeriods + 1;
      assert State(infected[..], inoculated[..], cursor) == Period(adj, before, draws);
    }
    var infectedNodes := Flagged(infected[..]);
    var inoculatedNodes := Flagged(inoculated[..]);
    var converged := !(0 < |infectedNodes| < totalNodes);
    if converged {
      records := records + [Record(timePeriods, |infectedNodes|, |inoculatedNodes|)];
    }
    r := Ok(Outcome(State(infected[..], inoculated[..], cursor), records, timePeriods, converged));
  }
}
