# Worm propagation and worm defense on a network

This project models the two simulation engines of `network-worm-defense`.
Each runs in discrete periods over a fixed undirected graph.

- `propagateWorm` (infection only). One start node is infected. In every
  period, each node that was infected at the top of the loop tries once to
  infect each of its currently uninfected neighbours. A time series of
  `(period, infected count)` is recorded until every node is infected.
- `wormDefense` (infection and inoculation). One node is infected and one is
  inoculated. In every period the listed infected nodes try to infect each
  neighbour that is neither inoculated nor infected. Then the listed
  inoculated nodes try to inoculate each neighbour that is not yet
  inoculated. Inoculation also clears the infection. A time series of
  `(period, infected count, inoculated count)` is recorded while some, but
  not every, node is infected.

How the model is built:

- Nodes are the indices `0 .. n-1`, in the graph's node order.
- The graph is an adjacency list `seq<seq<nat>>`. Each node's neighbours are
  in the graph's neighbour order.
- The node attributes `isInfected` and `isInoculated` are `array<bool>`
  flags, updated in place by the same nested loops as in `propagateWorm` and `wormDefense`.
- Every `random.random() < p` comparison is one outcome of a draw oracle
  `draws: nat -> bool`, read at a cursor. The cursor advances only when
  Python actually evaluates the comparison, which is after the short-circuit
  `and` has passed its state checks.
- Each loop has a specification function:
  - a single attempt: `Visit`, `InfectionVisit`, `InoculationVisit`;
  - a whole pass: a left fold (`Spread`, `Infect`, `Inoculate`) over the
    neighbour-visit order `Visits(adj, sources)`;
  - one period: `Period`;
  - the run loop: `RunFrom`, a function that follows the `while` loop
    period by period.
- Every method's postcondition ties its new state or result to its
  specification function. Lemmas then prove the promised properties about
  those functions.

Modules:

- `Network` in `network.dfy`:
  - the graph and the draw oracle;
  - the node-list queries `getInfectedNodes`/`getInoculatedNodes` (`Flagged`)
    and their counts;
  - the visit order of the nested loops.
- `WormPropagation` in `worm_propagation.dfy` models `propagateWorm`.
- `WormDefense` in `worm_defense.dfy` models `wormDefense`.

## Model

| member | source | states |
|---|---|---|
| Network.Flagged | network-worm-defense/worm-defense.py:14-18 | the listed nodes are exactly the nodes whose flag is set, none outside the graph, and the list is no longer than the node count (order and distinctness: `FlaggedInOrder`) |
| Network.Count | network-worm-defense/worm-defense.py:93 | definition: the length of the node list, as `len(getInfectedNodes(..))` in the loop test and the records; `CountMonotone`, `CountFull`, `CountEmpty` and `CountDisjoint` are about it |
| Network.FlaggedInOrder | network-worm-defense/worm-propagation.py:14-15 | the list is strictly increasing in node order, so it names no node twice |
| Network.FlaggedOnly | network-worm-defense/worm-propagation.py:14-15 | with one flag set, the list is that single node |
| Network.Visits | network-worm-defense/worm-propagation.py:83-84 | the nested loops visit exactly the nodes that neighbour some source, and only nodes of the graph |
| Network.SnapshotNeighbours | network-worm-defense/worm-defense.py:95-97 | a node is visited from the snapshot list exactly when it neighbours a node flagged at the top of the loop |
| Network.CountMonotone | network-worm-defense/worm-propagation.py:14-15 | setting more flags never lowers the list's length |
| Network.CountFull | network-worm-defense/worm-defense.py:93 | the count equals the number of nodes exactly when every flag is set |
| Network.CountEmpty | network-worm-defense/worm-defense.py:93 | the count is zero exactly when no flag is set |
| Network.CountDisjoint | network-worm-defense/worm-defense.py:100 | two flag vectors that never hold at the same node count at most the number of nodes together |
| WormPropagation.Visit | network-worm-defense/worm-propagation.py:86-87 | one visit changes no other node; it takes a draw exactly when the node is uninfected; the node ends infected exactly when it was or the draw succeeded |
| WormPropagation.Spread | network-worm-defense/worm-propagation.py:83-87 | the infection loop never clears a flag, infects only visited nodes, and takes at most one draw per visit |
| WormPropagation.SpreadWithoutLuck | network-worm-defense/worm-propagation.py:86 | when every draw fails, the pass infects nobody |
| WormPropagation.SpreadWithLuck | network-worm-defense/worm-propagation.py:86-87 | when every draw succeeds, a node ends infected exactly when it was infected or was visited |
| WormPropagation.SpreadNothingEligible | network-worm-defense/worm-propagation.py:86 | a pass that visits only infected nodes takes no draw and changes nothing, so only uninfected neighbours consume draws |
| WormPropagation.Period | network-worm-defense/worm-propagation.py:78-87 | definition of one period: the infection loop over the visit order of the infected nodes listed at the top of the loop; the `Period…` lemmas below are about it |
| WormPropagation.PeriodKeepsInfected | network-worm-defense/worm-propagation.py:83-87 | a period keeps every infected node infected, and the infected count never drops |
| WormPropagation.PeriodSpreadsFromSnapshot | network-worm-defense/worm-propagation.py:78-87 | a node newly infected in a period neighbours a node infected at the top of the loop, so nodes infected during the pass are not sources yet |
| WormPropagation.PeriodWithLuck | network-worm-defense/worm-propagation.py:78-87 | when every draw succeeds, a node is infected after the period exactly when it was infected or neighboured an infected node |
| WormPropagation.PeriodWithoutLuck | network-worm-defense/worm-propagation.py:78-87 | when every draw fails, a period changes no flag |
| WormPropagation.Initial | network-worm-defense/worm-propagation.py:50-67 | definition of the state after initialization: every flag cleared, then the start node infected; `InitialInfectsStartOnly` is about it |
| WormPropagation.InitialInfectsStartOnly | network-worm-defense/worm-propagation.py:50-67 | after initialization the infected list is exactly the start node, and the count is 1 |
| WormPropagation.InfectionAttempt | network-worm-defense/worm-propagation.py:86-87 | one attempt, in place, is the single-visit step: a draw only for an uninfected node, and infection on success |
| WormPropagation.InfectionPass | network-worm-defense/worm-propagation.py:83-87 | the nested loops over the flag array end in the state the fold over the visit order describes, with the cursor after the last draw taken |
| WormPropagation.RunFrom | network-worm-defense/worm-propagation.py:76-95 | definition of the `while` loop from a given period on (record, one period, repeat; final record on exit); `RunFromKeepsRecords` and `RunFromWithoutLuck` are about it |
| WormPropagation.Run | network-worm-defense/worm-propagation.py:47-95 | definition of a whole run: the start-node lookup, initialization, then `RunFrom` from period 0; `RunKeepsRecords` is about it and `PropagateWorm` is proved equal to it |
| WormPropagation.RunFromKeepsRecords | network-worm-defense/worm-propagation.py:76-95 | record k is for period k; the counts lie between 1 and the number of nodes and never decrease; the loop exits exactly when every node is infected, and then the last record is (timePeriods, totalNodes) and there are timePeriods + 1 records; no infected node is ever cured |
| WormPropagation.RunFromWithoutLuck | network-worm-defense/worm-propagation.py:76-89 | a run whose draws all fail keeps its infected set and never reaches the exit condition |
| WormPropagation.RunKeepsRecords | network-worm-defense/worm-propagation.py:47-95 | a run fails only when the start node is missing; otherwise it has the record, count and exit properties above, and the start node ends infected |
| WormPropagation.PropagateWorm | network-worm-defense/worm-propagation.py:47-95 | the in-place run returns exactly the outcome of the run function: error, final flags, records, period counter and whether it converged |
| WormDefense.InfectionVisit | network-worm-defense/worm-defense.py:105-106 | one infection visit changes no other node and no inoculation; it takes a draw exactly when the node is neither inoculated nor infected; the node ends infected exactly when it was, or it was not inoculated and the draw succeeded |
| WormDefense.InoculationVisit | network-worm-defense/worm-defense.py:111-113 | one inoculation visit changes no other node; it takes a draw exactly when the node is not inoculated; the node ends inoculated exactly when it was or the draw succeeded, and infected exactly when it was and stayed without a new inoculation |
| WormDefense.Infect | network-worm-defense/worm-defense.py:102-106 | the infection loop never touches the inoculated flags and never clears an infection; a node becomes infected only if it was visited and was not inoculated |
| WormDefense.Inoculate | network-worm-defense/worm-defense.py:108-113 | the inoculation loop never clears an inoculation; a node becomes inoculated only if it was visited; a node's infection is cleared exactly when it becomes inoculated |
| WormDefense.InfectWithoutLuck | network-worm-defense/worm-defense.py:105 | when every draw fails, the infection loop infects nobody |
| WormDefense.InoculateWithoutLuck | network-worm-defense/worm-defense.py:111 | when every draw fails, the inoculation loop changes no flag |
| WormDefense.InfectWithLuck | network-worm-defense/worm-defense.py:105-106 | when every draw succeeds, a node ends infected exactly when it was infected, or it was visited and was not inoculated |
| WormDefense.InoculateWithLuck | network-worm-defense/worm-defense.py:111-113 | when every draw succeeds, a node ends inoculated exactly when it was inoculated or was visited |
| WormDefense.InfectNothingEligible | network-worm-defense/worm-defense.py:105 | an infection loop that meets only inoculated or infected nodes takes no draw and changes nothing |
| WormDefense.InoculateNothingEligible | network-worm-defense/worm-defense.py:111 | an inoculation loop that meets only inoculated nodes takes no draw and changes nothing |
| WormDefense.Period | network-worm-defense/worm-defense.py:95-113 | definition of one period: both node lists taken at the top of the loop, the infection loop, then the inoculation loop; the `Period…` lemmas below are about it |
| WormDefense.PeriodKeepsInoculated | network-worm-defense/worm-defense.py:102-113 | inoculation is absorbing: the inoculated set after a period contains the one before, and the count never drops |
| WormDefense.PeriodInoculatesFromSnapshot | network-worm-defense/worm-defense.py:97-113 | a node newly inoculated in a period neighbours a node inoculated at the top of the loop, and it ends the period uninfected |
| WormDefense.PeriodInfectsFromSnapshot | network-worm-defense/worm-defense.py:95-113 | a node newly infected in a period neighbours a node infected at the top of the loop, and it is not inoculated before or after |
| WormDefense.PeriodLeavesOthersAlone | network-worm-defense/worm-defense.py:102-113 | a node with no infected and no inoculated neighbour in the snapshots keeps both flags through the period |
| WormDefense.PeriodDoubleFlags | network-worm-defense/worm-defense.py:105-113 | a node is both infected and inoculated after a period exactly when it was both before |
| WormDefense.PeriodKeepsExclusive | network-worm-defense/worm-defense.py:102-113 | a period whose nodes start with the two flags apart keeps them apart |
| WormDefense.PeriodWithoutLuck | network-worm-defense/worm-defense.py:102-113 | when every draw fails, a period changes no flag |
| WormDefense.PeriodWithLuck | network-worm-defense/worm-defense.py:95-113 | when every draw succeeds, a node ends inoculated exactly when it was inoculated or neighboured an inoculated node; a node that was not inoculated ends infected exactly when it was or neighboured an infected node and did not neighbour an inoculated one |
| WormDefense.Initial | network-worm-defense/worm-defense.py:55-79 | definition of the state after initialization: both flags cleared everywhere, then the infection start node infected and the inoculation start node inoculated; `InitialFlags` is about it |
| WormDefense.InitialFlags | network-worm-defense/worm-defense.py:55-79 | after initialization the infected list is the infection start node and the inoculated list is the inoculation start node; the flags are apart exactly when the two start nodes differ |
| WormDefense.InfectionAttempt | network-worm-defense/worm-defense.py:105-106 | one attempt, in place, is the single infection visit: a draw only when both live checks pass, and infection on success |
| WormDefense.InoculationAttempt | network-worm-defense/worm-defense.py:111-113 | one attempt, in place, is the single inoculation visit: a draw only for a node not yet inoculated; on success it is inoculated and its infection is cleared |
| WormDefense.InfectionPass | network-worm-defense/worm-defense.py:102-106 | the nested infection loops over the flag arrays end in the state the fold over the visit order describes |
| WormDefense.InoculationPass | network-worm-defense/worm-defense.py:108-113 | the nested inoculation loops over the flag arrays end in the state the fold over the visit order describes |
| WormDefense.Spreading | network-worm-defense/worm-defense.py:93 | definition of the loop test: some node is infected and not every node is |
| WormDefense.RunFrom | network-worm-defense/worm-defense.py:93-121 | definition of the `while` loop from a given period on (record, infection and inoculation loops, repeat; final record on exit); the `RunFrom…` lemmas are about it |
| WormDefense.Run | network-worm-defense/worm-defense.py:50-121 | definition of a whole run: the two start-node lookups in order, initialization, then `RunFrom` from period 0; `RunFailsOnUnknownStart`, `RunKeepsRecords` and the start-node lemmas are about it, and `WormDefense` is proved equal to it |
| WormDefense.RunFromKeepsRecords | network-worm-defense/worm-defense.py:93-121 | record k is for period k; counts are at most the number of nodes; inoculated counts never decrease; the loop exits exactly when no node or every node is infected, and then the last record holds the final counts and there are timePeriods + 1 records |
| WormDefense.RunFromKeepsExclusive | network-worm-defense/worm-defense.py:93-121 | with the two flags apart, they stay apart for the whole run, and each record's two counts add up to at most the number of nodes |
| WormDefense.RunFromKeepsDouble | network-worm-defense/worm-defense.py:108-113 | a node that is both infected and inoculated stays so until the run ends |
| WormDefense.RunFromWithoutLuck | network-worm-defense/worm-defense.py:93-115 | a run whose draws all fail keeps both flag sets and never reaches the exit condition |
| WormDefense.RunFailsOnUnknownStart | network-worm-defense/worm-defense.py:76-79 | a run fails exactly when a start node is missing from the graph, and it reports the infection start node first |
| WormDefense.RunKeepsRecords | network-worm-defense/worm-defense.py:50-121 | a run from known start nodes has the record, count and exit properties above, and the inoculation start node ends inoculated |
| WormDefense.RunWithDistinctStarts | network-worm-defense/worm-defense.py:76-121 | with distinct start nodes no node is ever both infected and inoculated, and every record's counts add up to at most the number of nodes |
| WormDefense.RunWithCoincidingStarts | network-worm-defense/worm-defense.py:76-121 | with one node as both start nodes, that node keeps both flags until the end, so a run that stops has every node infected |
| WormDefense.WormDefense | network-worm-defense/worm-defense.py:50-121 | the in-place run returns exactly the outcome of the run function: error, final flags, records, period counter and whether it converged |

## Left out

- Reading the edge list from a CSV file with `nx.read_edgelist` is left out. That is file I/O through a foreign library. The graph is an input, its node order is the index order, and `totalNodes` is the number of entries.
- Printing, debug output and plotting (`nx.draw`, `plt.savefig`) are left out because they are output only. The printed time series, final counts and `timePeriods` are the fields of `Outcome`.
- The `argparse` command line is left out. It passes `None` for omitted arguments and passes start nodes as strings, which are not the node keys. The model takes start nodes as indices. A start node that is not a node of the graph raises `KeyError` in both scripts; the model returns `Err(UnknownNode(..))` for it, before any draw is made.
- The keyword defaults of both functions are left out (`probability = 0.5, startNode = 1` in `propagateWorm`; `infectionProbability = 0.5, infectionStartNode = 1, inoculationProbability = 0.5, inoculationStartNode = 1` in `wormDefense`). Probabilities are replaced by the draws, and the start nodes are always given. The integer default `1` never equals the string node labels that `nx.read_edgelist` produces, so a call that relies on it raises `KeyError`. That is the path the model returns as `Err(UnknownNode(..))`.
- Floating-point probabilities and `random.random()` are left out. Each comparison is one outcome of the `draws` oracle. The two probabilities of `wormDefense` are not told apart: what matters is which comparison is evaluated, and in which order.
- PropagateWorm: the `while` loop of `propagateWorm` has no bound and can run forever, for example when the draws keep failing or the graph is disconnected. The model stops after `maxPeriods` periods with `converged == false` and appends no final record in that case. A converged run behaves exactly as `propagateWorm` does.
- WormDefense: bounded by `maxPeriods` in the same way, for the same reason.
- The model does not require a symmetric adjacency or the absence of self-loops. The proofs only need every listed neighbour to be a node.
- `network-worm-defense/utils/networkCSVGenerator.py` is not part of this model. It generates random graphs with networkx and writes files, and it has no logic of its own to verify.
