/**
 * The infection-only simulation: one node starts infected, and in every
 * period each infected node tries once to infect each uninfected neighbour.
 * Infection is never cured, and the run goes on until every node is infected.
 */
module WormPropagation {
  import opened Network

  /** The `isInfected` flag of every node, and how many draws have been made so far. */
  datatype State = State(infected: seq<bool>, cursor: nat)

  /** One entry of the time series: a period and the number of infected nodes. */
  datatype Record = Record(period: nat, infected: nat)

  /**
   * What a run leaves behind. `converged` is false when the run was cut off
   * after `maxPeriods` periods with uninfected nodes left.
   */
  datatype Outcome = Outcome(final: State, records: seq<Record>, timePeriods: nat, converged: bool)

  /**
   * The infection loop meets neighbour `m`. Only an uninfected node takes a
   * draw, as the short-circuit `and` in `propagateWorm` decides; a successful draw
   * infects it.
   */
  function Visit(st: State, m: nat, draws: Draws): (r: State)
    requires m < |st.infected|
    ensures |r.infected| == |st.infected|
    ensures forall v :: 0 <= v < |st.infected| && v != m ==> r.infected[v] == st.infected[v]
    ensures r.cursor != st.cursor <==> !st.infected[m]
    ensures r.infected[m] <==> st.infected[m] || draws(st.cursor)
  {
    if st.infected[m] then st
    else if draws(st.cursor) then State(st.infected[m := true], st.cursor + 1)
    else State(st.infected, st.cursor + 1)
  }

  /** The infection loop visiting `targets` in order, on flags it updates in place. */
  function Spread(st: State, targets: seq<nat>, draws: Draws): (r: State)
    requires AreNodes(|st.infected|, targets)
    ensures |r.infected| == |st.infected|
    ensures st.cursor <= r.cursor <= st.cursor + |targets|
    ensures Covers(st.infected, r.infected)
    ensures forall v: nat {:trigger r.infected[v]} :: v < |st.infected| && r.infected[v] && !st.infected[v] ==> v in targets
    decreases |targets|
  {
    if targets == [] then st
    else
      var last := |targets| - 1;
      AreNodesPrefix(|st.infected|, targets, last);
      Visit(Spread(st, targets[..last], draws), targets[last], draws)
  }

  /** Visiting one more node extends the pass by one `Visit`. */
  lemma SpreadSnoc(st: State, targets: seq<nat>, m: nat, draws: Draws)
    requires AreNodes(|st.infected|, targets) && m < |st.infected|
    ensures AreNodes(|st.infected|, targets + [m])
    ensures Spread(st, targets + [m], draws) == Visit(Spread(st, targets, draws), m, draws)
  {
    assert (targets + [m])[..|targets|] == targets;
  }

  /** The inner loop of a pass visits neighbour `j` after neighbours `0 .. j-1`. */
  lemma SpreadNext(st: State, done: seq<nat>, neighbours: seq<nat>, j: nat, draws: Draws)
    requires j < |neighbours| && AreNodes(|st.infected|, done + neighbours[..j])
    requires neighbours[j] < |st.infected|
    ensures AreNodes(|st.infected|, done + neighbours[..j + 1])
    ensures Spread(st, done + neighbours[..j + 1], draws)
         == Visit(Spread(st, done + neighbours[..j], draws), neighbours[j], draws)
  {
    assert done + neighbours[..j + 1] == (done + neighbours[..j]) + [neighbours[j]];
    SpreadSnoc(st, done + neighbours[..j], neighbours[j], draws);
  }

  /** When every draw fails, a pass infects nobody (draws are still consumed). */
  lemma {:induction false} SpreadWithoutLuck(st: State, targets: seq<nat>, draws: Draws)
    requires AreNodes(|st.infected|, targets)
    requires FailsFrom(draws, st.cursor)
    ensures Spread(st, targets, draws).infected == st.infected
  {
    if targets != [] {
      var last := |targets| - 1;
      AreNodesPrefix(|st.infected|, targets, last);
      SpreadWithoutLuck(st, targets[..last], draws);
    }
  }

  /** When every draw succeeds, a pass infects exactly the visited nodes. */
  lemma {:induction false} SpreadWithLuck(st: State, targets: seq<nat>, draws: Draws, v: nat)
    requires AreNodes(|st.infected|, targets)
    requires AlwaysSucceeds(draws)
    requires v < |st.infected|
    ensures Spread(st, targets, draws).infected[v] <==> st.infected[v] || v in targets
  {
    if targets != [] {
      var last := |targets| - 1;
      AreNodesPrefix(|st.infected|, targets, last);
      SpreadWithLuck(st, targets[..last], draws, v);
      assert targets == targets[..last] + [targets[last]];
    }
  }

  /**
   * A pass whose every visited node is already infected takes no draw and
   * changes nothing: draws are spent only on uninfected neighbours.
   */
  lemma {:induction false} SpreadNothingEligible(st: State, targets: seq<nat>, draws: Draws)
    requires AreNodes(|st.infected|, targets)
    requires forall i :: 0 <= i < |targets| ==> st.infected[targets[i]]
    ensures Spread(st, targets, draws) == st
  {
    if targets != [] {
      var last := |targets| - 1;
      AreNodesPrefix(|st.infected|, targets, last);
      SpreadNothingEligible(st, targets[..last], draws);
    }
  }

  /**
   * One period: the sources are the infected nodes listed at the top of the
   * loop, and the visits read and write the live flags.
   */
  function Period(adj: Adjacency, st: State, draws: Draws): (r: State)
    requires WellFormed(adj) && |st.infected| == |adj|
    ensures |r.infected| == |adj| && st.cursor <= r.cursor
  {
    Spread(st, Visits(adj, Flagged(st.infected)), draws)
  }

  /** A period never cures a node, so the infected count never drops. */
  lemma PeriodKeepsInfected(adj: Adjacency, st: State, draws: Draws)
    requires WellFormed(adj) && |st.infected| == |adj|
    ensures Covers(st.infected, Period(adj, st, draws).infected)
    ensures Count(st.infected) <= Count(Period(adj, st, draws).infected)
  {
    CountMonotone(st.infected, Period(adj, st, draws).infected);
  }

  /**
   * A node infected in a period neighbours a node that was infected when the
   * period began: nodes infected during the pass are not yet sources.
   */
  lemma PeriodSpreadsFromSnapshot(adj: Adjacency, st: State, draws: Draws, v: nat)
    requires WellFormed(adj) && |st.infected| == |adj| && v < |adj|
    ensures Period(adj, st, draws).infected[v] && !st.infected[v] ==>
      NeighbourOfFlagged(adj, st.infected, v)
  {
    SnapshotNeighbours(adj, st.infected, v);
  }

  /**
   * When every draw succeeds, a period infects exactly the neighbours of the
   * nodes infected at its start, and nothing farther away.
   */
  lemma PeriodWithLuck(adj: Adjacency, st: State, draws: Draws, v: nat)
    requires WellFormed(adj) && |st.infected| == |adj| && v < |adj|
    requires AlwaysSucceeds(draws)
    ensures Period(adj, st, draws).infected[v] <==>
      st.infected[v] || NeighbourOfFlagged(adj, st.infected, v)
  {
    SnapshotNeighbours(adj, st.infected, v);
    SpreadWithLuck(st, Visits(adj, Flagged(st.infected)), draws, v);
  }

  /** When every draw from the cursor on fails, a period infects nobody. */
  lemma PeriodWithoutLuck(adj: Adjacency, st: State, draws: Draws)
    requires WellFormed(adj) && |st.infected| == |adj|
    requires FailsFrom(draws, st.cursor)
    ensures Period(adj, st, draws).infected == st.infected
  {
    SnapshotNeighbours(adj, st.infected, 0);
    SpreadWithoutLuck(st, Visits(adj, Flagged(st.infected)), draws);
  }

  /** Every flag cleared, then `start` infected; no draw made yet. */
  function Initial(n: nat, start: nat): State
    requires start < n
  {
    State(seq(n, v => v == start), 0)
  }

  /** After initialization the infected list is exactly `[start]`. */
  lemma InitialInfectsStartOnly(n: nat, start: nat)
    requires start < n
    ensures Flagged(Initial(n, start).infected) == [start]
    ensures Count(Initial(n, start).infected) == 1
  {
    FlaggedOnly(Initial(n, start).infected, start);
  }

  /**
   * One attempt on `neighbour`, in place: only an uninfected node takes the
   * next draw, and a successful draw infects it. Returns the position of the
   * next draw.
   */
  method InfectionAttempt(infected: array<bool>, neighbour: nat, draws: Draws, cursor: nat)
    returns (next: nat)
    requires neighbour < infected.Length
    modifies infected
    ensures State(infected[..], next) == Visit(State(old(infected[..]), cursor), neighbour, draws)
  {
    next := cursor;
    if !infected[neighbour] {
      var success := draws(next);
      next := next + 1;
      if success {
        infected[neighbour] := true;
      }
    }
  }

  /**
   * The infection pass of one period, in place on `infected`: for each source,
   * for each of its neighbours, an uninfected neighbour takes the next draw and
   * becomes infected if it succeeds. Returns the position of the next draw.
   */
  method InfectionPass(adj: Adjacency, infected: array<bool>, sources: seq<nat>, draws: Draws, cursor: nat)
    returns (next: nat)
    requires WellFormed(adj) && infected.Length == |adj| && AreNodes(|adj|, sources)
    modifies infected
    ensures State(infected[..], next) == Spread(State(old(infected[..]), cursor), Visits(adj, sources), draws)
  {
    ghost var start := State(infected[..], cursor);
    next := cursor;
    for i := 0 to |sources|
      invariant AreNodes(|adj|, sources[..i])
      invariant State(infected[..], next) == Spread(start, Visits(adj, sources[..i]), draws)
    {
      var neighbours := adj[sources[i]];
      ghost var done := Visits(adj, sources[..i]);
      assert done + neighbours[..0] == done;
      for j := 0 to |neighbours|
        invariant AreNodes(|adj|, done + neighbours[..j])
        invariant State(infected[..], next) == Spread(start, done + neighbours[..j], draws)
      {
        next := InfectionAttempt(infected, neighbours[j], draws, next);
        SpreadNext(start, done, neighbours, j, draws);
      }
      assert sources[..i + 1][..i] == sources[..i];
      assert neighbours[..|neighbours|] == neighbours;
    }
    assert sources[..|sources|] == sources;
  }

  /**
   * The run loop as a function, from period `t` on, given the records written
   * so far: while some node is uninfected (and periods remain), record the
   * period and the infected count, then run one period; on leaving the loop at
   * saturation, record the end state once more. A run cut off by `maxPeriods`
   * gets no final record.
   */
  function RunFrom(adj: Adjacency, st: State, draws: Draws, t: nat, records: seq<Record>, maxPeriods: nat): (o: Outcome)
    requires WellFormed(adj) && |st.infected| == |adj|
    ensures |o.final.infected| == |adj|
    decreases maxPeriods - t
  {
    var infectedCount := Count(st.infected);
    if infectedCount < |adj| && t < maxPeriods then
      RunFrom(adj, Period(adj, st, draws), draws, t + 1, records + [Record(t, infectedCount)], maxPeriods)
    else if infectedCount == |adj| then
      Outcome(st, records + [Record(t, infectedCount)], t, true)
    else
      Outcome(st, records, t, false)
  }

  /** A whole run: a start node outside the graph fails before anything is changed. */
  function Run(adj: Adjacency, startNode: nat, draws: Draws, maxPeriods: nat): Result<Outcome>
    requires WellFormed(adj)
  {
    if startNode >= |adj| then Err(UnknownNode(startNode))
    else Ok(RunFrom(adj, Initial(|adj|, startNode), draws, 0, [], maxPeriods))
  }

  /**
   * The records of a run so far: record k is for period k, every count lies
   * between 1 and `bound`, and the counts never decrease.
   */
  predicate Recorded(records: seq<Record>, bound: nat)
  {
    && (forall k :: 0 <= k < |records| ==> records[k].period == k && 1 <= records[k].infected <= bound)
    && (forall j, k :: 0 <= j <= k < |records| ==> records[j].infected <= records[k].infected)
  }

  /** Appending the record of period `t` keeps the records in order. */
  lemma RecordedSnoc(records: seq<Record>, t: nat, count: nat, bound: nat)
    requires |records| == t && Recorded(records, count)
    requires 1 <= count <= bound
    ensures Recorded(records + [Record(t, count)], bound)
  {
  }

  /**
   * `o` is a run that went on from period `t`, with `records` written so far
   * and `infected` the infected set at that point. The loop stopped exactly when
   * every node was infected (or the periods ran out); all records but a final
   * one were written with some node still uninfected; a converged run ends with
   * the record (timePeriods, totalNodes); and nobody infected was cured.
   */
  predicate Continues(adj: Adjacency, infected: seq<bool>, t: nat, records: seq<Record>, maxPeriods: nat, o: Outcome)
  {
    && |o.final.infected| == |adj|
    && t <= o.timePeriods <= maxPeriods
    && (o.converged <==> Count(o.final.infected) == |adj|)
    && (!o.converged ==> o.timePeriods == maxPeriods)
    && |o.records| == o.timePeriods + (if o.converged then 1 else 0)
    && o.records[..t] == records
    && Recorded(o.records, Count(o.final.infected))
    && (forall k :: 0 <= k < o.timePeriods ==> o.records[k].infected < |adj|)
    && (o.converged ==> o.records[o.timePeriods] == Record(o.timePeriods, |adj|))
    && Covers(infected, o.final.infected)
  }

  /** A run that continues from period `t + 1` after one more period continues from period `t`. */
  lemma ContinuesEarlier(adj: Adjacency, infected: seq<bool>, after: seq<bool>, t: nat,
                         records: seq<Record>, record: Record, maxPeriods: nat, o: Outcome)
    requires |records| == t && Covers(infected, after)
    requires Continues(adj, after, t + 1, records + [record], maxPeriods, o)
    ensures Continues(adj, infected, t, records, maxPeriods, o)
  {
    assert o.records[..t] == o.records[..t + 1][..t];
  }

  /** The rest of a run, from a state with at least one infected node and the records so far. */
  lemma {:induction false} RunFromKeepsRecords(adj: Adjacency, st: State, draws: Draws, t: nat,
                                               records: seq<Record>, maxPeriods: nat)
    requires WellFormed(adj) && |st.infected| == |adj|
    requires t <= maxPeriods && |records| == t
    requires 1 <= Count(st.infected)
    requires Recorded(records, Count(st.infected))
    requires forall k :: 0 <= k < t ==> records[k].infected < |adj|
    ensures Continues(adj, st.infected, t, records, maxPeriods, RunFrom(adj, st, draws, t, records, maxPeriods))
    decreases maxPeriods - t
  {
    var infectedCount := Count(st.infected);
    var record := Record(t, infectedCount);
    if infectedCount < |adj| && t < maxPeriods {
      var after := Period(adj, st, draws);
      PeriodKeepsInfected(adj, st, draws);
      RecordedSnoc(records, t, infectedCount, Count(after.infected));
      RunFromKeepsRecords(adj, after, draws, t + 1, records + [record], maxPeriods);
      ContinuesEarlier(adj, st.infected, after.infected, t, records, record, maxPeriods,
                       RunFrom(adj, after, draws, t + 1, records + [record], maxPeriods));
    } else if infectedCount == |adj| {
      RecordedSnoc(records, t, infectedCount, infectedCount);
      assert (records + [record])[..t] == records;
    } else {
      assert records[..t] == records;
    }
  }

  /**
   * A run whose draws all fail from some point on stalls there: the infected
   * set never changes again and, unless it was already complete, the run never
   * converges. `propagateWorm` would loop for ever here.
   */
  lemma {:induction false} RunFromWithoutLuck(adj: Adjacency, st: State, draws: Draws, t: nat,
                                              records: seq<Record>, maxPeriods: nat)
    requires WellFormed(adj) && |st.infected| == |adj|
    requires FailsFrom(draws, st.cursor)
    requires Count(st.infected) < |adj|
    ensures RunFrom(adj, st, draws, t, records, maxPeriods).final.infected == st.infected
    ensures !RunFrom(adj, st, draws, t, records, maxPeriods).converged
    decreases maxPeriods - t
  {
    if t < maxPeriods {
      var after := Period(adj, st, draws);
      PeriodWithoutLuck(adj, st, draws);
      assert FailsFrom(draws, after.cursor);
      RunFromWithoutLuck(adj, after, draws, t + 1, records + [Record(t, Count(st.infected))], maxPeriods);
    }
  }

  /**
   * A whole run: an unknown start node is the only error; record k is for
   * period k; the counts lie between 1 and the number of nodes and never
   * decrease; the loop exits exactly when every node is infected, with the
   * final record (timePeriods, totalNodes), or when the periods run out.
   */
  lemma RunKeepsRecords(adj: Adjacency, startNode: nat, draws: Draws, maxPeriods: nat)
    requires WellFormed(adj)
    ensures Run(adj, startNode, draws, maxPeriods).Err? <==> startNode >= |adj|
    ensures Run(adj, startNode, draws, maxPeriods).Err? ==>
      Run(adj, startNode, draws, maxPeriods).error == UnknownNode(startNode)
    ensures Run(adj, startNode, draws, maxPeriods).Ok? ==>
      var o := Run(adj, startNode, draws, maxPeriods).value;
      && o.timePeriods <= maxPeriods
      && (o.converged <==> Count(o.final.infected) == |adj|)
      && (!o.converged ==> o.timePeriods == maxPeriods)
      && |o.records| == o.timePeriods + (if o.converged then 1 else 0)
      && Recorded(o.records, |adj|)
      && (forall k :: 0 <= k < o.timePeriods ==> o.records[k].infected < |adj|)
      && (o.converged ==> o.records[o.timePeriods] == Record(o.timePeriods, |adj|))
      && o.final.infected[startNode]
  {
    if startNode < |adj| {
      var init := Initial(|adj|, startNode);
      InitialInfectsStartOnly(|adj|, startNode);
      RunFromKeepsRecords(adj, init, draws, 0, [], maxPeriods);
      var o := RunFrom(adj, init, draws, 0, [], maxPeriods);
      assert Count(o.final.infected) <= |adj|;
    }
  }

  /**
   * The whole run, on node flags updated in place: initialize, then while some
   * node is uninfected record the period and the infected count, run the
   * infection pass from the snapshot of infected nodes and advance the period;
   * finally record the end state. `propagateWorm` loops without bound; here the run
   * stops after `maxPeriods` periods and reports that it did not converge.
   */
  method PropagateWorm(adj: Adjacency, startNode: nat, draws: Draws, maxPeriods: nat)
    returns (r: Result<Outcome>)
    requires WellFormed(adj)
    ensures r == Run(adj, startNode, draws, maxPeriods)
  {
    var totalNodes := |adj|;
    if startNode >= totalNodes {
      return Err(UnknownNode(startNode));
    }
    var infected := new bool[totalNodes](_ => false);
    infected[startNode] := true;
    ghost var init := Initial(totalNodes, startNode);
    assert infected[..] == init.infected;
    var timePeriods := 0;
    var cursor := 0;
    var records: seq<Record> := [];
    while |Flagged(infected[..])| < totalNodes && timePeriods < maxPeriods
      invariant infected.Length == totalNodes
      invariant RunFrom(adj, State(infected[..], cursor), draws, timePeriods, records, maxPeriods)
             == RunFrom(adj, init, draws, 0, [], maxPeriods)
      decreases maxPeriods - timePeriods
    {
      ghost var before := State(infected[..], cursor);
      var infectedNodes := Flagged(infected[..]);
      records := records + [Record(timePeriods, |infectedNodes|)];
      cursor := InfectionPass(adj, infected, infectedNodes, draws, cursor);
      timePeriods := timePeriods + 1;
      ghost var now := State(infected[..], cursor);
      assert now == Period(adj, before, draws);
    }
    var converged := |Flagged(infected[..])| == totalNodes;
    if converged {
      records := records + [Record(timePeriods, |Flagged(infected[..])|)];
    }
    r := Ok(Outcome(State(infected[..], cursor), records, timePeriods, converged));
  }
}
