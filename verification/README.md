# Conflict-serializability analyzer, modelled in Dafny

This project models the core of a small conflict-serializability checker for
database schedules. A schedule is a table with one column per transaction.
Each row is one time step, and a cell such as `R(x)` or `W(y)` is a read or a
write of a resource. The analyzer object `ConflictSerializable` keeps two
pieces of state:

- the precedence graph `G`, a set of nodes and a set of directed edges;
- `accessDict`, which maps each transaction to the accesses it has issued so far.

First every column becomes a node with an empty history. Then the events are
consumed in temporal order. For each event, `checkConflict` scans the other
transactions' histories. A read `R…` draws an edge `node -> process` when that
node's history holds the matching `W…`. A write `W…` draws the edge when the
history holds the matching `W…` or `R…`. Only after these checks is the access
appended to its own history. The schedule is "NOT Conflict Serializable"
exactly when the finished graph has a directed cycle.

Files:

- `access.dfy` (module `Accesses`): access strings and the conflict rule,
  stated on strings exactly as the analyzer compares them (first character
  for the kind, the rest for the resource). It also holds a
  kind-and-resource datatype `Op`, the parse/encode bridge to it, and the
  proof that the string rule is the textbook rule.
- `schedule.dfy` (module `Schedules`): schedules as event sequences. It
  defines `History`, the projection of a schedule onto one transaction. It
  defines `PrecedenceEdges`, the reference precedence graph: an edge
  `a -> b` for every pair of positions `i < j` where a different transaction
  `b` issues at `j` an access conflicting with the one `a` issued at `i`. It
  also holds the lemmas that the incremental construction builds exactly
  that graph.
- `graph.dfy` (module `Graphs`): walks, reachability and `HasCycle` defined
  by closed walks. It has a breadth-first reachability method and a cycle
  check proved against `HasCycle`, plus the lemma that a graph whose edges
  all climb a ranking (a serial order) is acyclic.
- `conflict_serializable.dfy` (module `ConflictSerializability`): the class
  `ConflictSerializable`. Its fields are `graphNodes`, `edges`, `accessDict`
  and `nodes`, plus a ghost log of the events consumed. Its object invariant
  `Valid()` states two things. Each history is the projection of the log.
  `edges` is exactly `PrecedenceEdges(log)`. The module also has the
  top-level `CheckConflictSerializability`.
- `scenarios.dfy` (module `Scenarios`): worked schedules over `T1` and `T2`
  with their edge sets and verdicts, and the single-transaction case.

Where the code and its design description disagree, the model follows the
code:

- The description says an event of an unregistered transaction should be
  rejected. The code never checks. Its only caller passes registered column
  names, and an unregistered name would raise a `KeyError` at the final
  append. The model therefore requires that the transaction is registered.
- The description speaks of operations that are only reads and writes. The
  code accepts any non-empty cell. A cell whose first character is neither
  `R` nor `W` draws no edge but is still appended to the history, and so is
  the model's.

## Model

| member | source | states |
|---|---|---|
| `ConflictSerializability.ConflictSerializable.constructor` | conflictSerializable.py:10-13 | a fresh analyzer has an empty graph, an empty access dictionary and no nodes, and satisfies the object invariant |
| `ConflictSerializability.ConflictSerializable.AddNodeToGraph` | conflictSerializable.py:21-22 | adds the node to G and changes nothing else |
| `ConflictSerializability.ConflictSerializable.AddEdgeToGraph` | conflictSerializable.py:24-25 | inserts the edge and its endpoints into G; re-adding an existing edge leaves the edge set unchanged; the histories are untouched |
| `ConflictSerializability.ConflictSerializable.RegisterNodes` | conflictSerializable.py:34-37 | every column becomes a node of G and a key of the access dictionary with an empty history; the edge set is unchanged and the invariant holds |
| `ConflictSerializability.ConflictSerializable.CheckConflict` | conflictSerializable.py:47-60 | the edge set grows by exactly `ConflictEdges` of the histories as they were before the event, so no edge comes from the event itself; the acting transaction's history gets the access appended; every other history, the key set and the node set are unchanged |
| `ConflictSerializability.ConflictSerializable.ParseInput` | conflictSerializable.py:33-45 | after registering the columns and consuming the events in order, the invariant holds and G's edges are exactly `PrecedenceEdges(events)` |
| `ConflictSerializability.ConflictSerializable.Output` | conflictSerializable.py:71-74 | the verdict is NotSerializable exactly when G, which is the precedence graph of the consumed events, has a directed cycle |
| `ConflictSerializability.CheckConflictSerializability` | conflictSerializable.py:15-19 | on a fresh analyzer the edges are exactly the precedence graph of the schedule; no edge is a self-loop and both ends are columns; the verdict is NotSerializable exactly when there is a cycle |
| `Accesses.ConflictsWithHistoryIff` | conflictSerializable.py:51-57 | the membership tests find a conflict exactly when some access in the history conflicts with the new one |
| `Accesses.Parse` | conflictSerializable.py:51-56 | an access has a kind exactly when its first character is `R` or `W`; the resource is the rest of the string |
| `Accesses.ParseEncode` | conflictSerializable.py:51-56 | parsing an encoded operation gives it back |
| `Accesses.EncodeParse` | conflictSerializable.py:51-56 | encoding a parsed access gives back the same string |
| `Accesses.AccessEquality` | conflictSerializable.py:51-56 | two accesses are equal exactly when their kinds and their resource suffixes are equal |
| `Accesses.ConflictRule` | conflictSerializable.py:51-57 | the suffix comparison is the textbook rule: two operations conflict exactly when they touch the same resource and at least one writes; read-read never conflicts |
| `Accesses.UnknownKindNeverConflicts` | conflictSerializable.py:51-57 | an access whose kind is neither `R` nor `W` conflicts with nothing, as the earlier or as the later access |
| `Schedules.HistoryContains` | conflictSerializable.py:37-60 | an access is in a transaction's history exactly when the schedule holds that transaction issuing it |
| `Schedules.HistorySnoc` | conflictSerializable.py:59-60 | an appended event extends only its own transaction's history, by exactly that access |
| `Schedules.PrecedenceEdgesShape` | conflictSerializable.py:48-57 | the precedence graph has no self-loop, and both ends of every edge act in the schedule |
| `Schedules.ConflictEdgesShape` | conflictSerializable.py:48-57 | every edge one event draws ends at the acting transaction, starts at another registered transaction, and is not a self-loop |
| `Schedules.ReadEdgeIff` | conflictSerializable.py:51-52 | a read of `r` draws `n -> p` exactly when `n` is another registered transaction that has written `r` |
| `Schedules.WriteEdgeIff` | conflictSerializable.py:55-57 | a write of `r` draws `n -> p` exactly when `n` is another registered transaction that has read or written `r` |
| `Schedules.ScanOne` | conflictSerializable.py:48-57 | scanning one more transaction adds the edge from it exactly when its history conflicts, and adds nothing else |
| `Schedules.ScanAll` | conflictSerializable.py:48-57 | once every registered transaction is scanned, all conflict edges of the event are drawn |
| `Schedules.ConflictEdgesIff` | conflictSerializable.py:48-57 | against histories that record the schedule, the event draws `n -> p` exactly when an earlier event of another transaction `n` conflicts with it |
| `Schedules.PrecedenceEdgesSnocSub` | conflictSerializable.py:47-60 | every edge of the extended schedule is an old edge or one the new event draws |
| `Schedules.PrecedenceEdgesSnocSuper` | conflictSerializable.py:47-60 | old edges survive an appended event, and the event's conflict edges join them |
| `Schedules.PrecedenceEdgesSnoc` | conflictSerializable.py:47-60 | consuming an event extends the precedence graph by exactly the edges the checks draw from the recorded histories |
| `Schedules.RecordEvent` | conflictSerializable.py:47-60 | after one event, the histories still record the schedule (only the acting transaction's history grows) and the graph is still its precedence graph |
| `Schedules.PrecedenceEdgesMonotone` | conflictSerializable.py:24-25 | edges are never removed: a prefix of a schedule has a subset of its edges |
| `Schedules.ReadsOnlyHaveNoEdges` | conflictSerializable.py:51-52 | a schedule made only of reads has no edge |
| `Schedules.IdleTransactionIsIsolated` | conflictSerializable.py:35-37 | a transaction with no accesses lies on no edge |
| `Graphs.ReachesStep` | conflictSerializable.py:71 | a walk to `u` followed by an edge `u -> w` is a walk to `w` |
| `Graphs.PathStaysInClosedSet` | conflictSerializable.py:71 | a walk from `v` never leaves a successor-closed set that holds v's successors |
| `Graphs.ReachableFrom` | conflictSerializable.py:71 | returns exactly the nodes reachable from `v` along at least one edge |
| `Graphs.IsCyclic` | conflictSerializable.py:71-74 | answers true exactly when the graph has a closed walk, that is, a directed cycle |
| `Graphs.RankedGraphIsAcyclic` | conflictSerializable.py:71-74 | a graph whose every edge climbs a ranking of the transactions, that is, follows a serial order, has no cycle |
| `Graphs.PathClimbs` | conflictSerializable.py:71-74 | along a walk in such a graph the rank strictly increases |
| `Graphs.OppositeEdgesCycle` | conflictSerializable.py:71-74 | two opposite edges form a cycle |
| `Scenarios.TwoTransactionEdges` | conflictSerializable.py:48-57 | with only two transactions acting, the only possible edges run between them |
| `Scenarios.ReadThenWriteEdges` | conflictSerializable.py:47-60 | `T1:R(x), T2:W(x)` has exactly the edge `T1 -> T2` |
| `Scenarios.ReadThenWriteIsSerializable` | conflictSerializable.py:71-74 | that schedule is acyclic, so serializable |
| `Scenarios.LostUpdateEdges` | conflictSerializable.py:47-60 | `T1:R(x), T2:W(x), T1:W(x)` has exactly the edges `T1 -> T2` and `T2 -> T1` |
| `Scenarios.LostUpdateIsNotSerializable` | conflictSerializable.py:71-74 | that schedule has a cycle, so it is not serializable |
| `Scenarios.CrossedReadsEdges` | conflictSerializable.py:47-60 | `T1:W(x), T2:R(x), T2:W(y), T1:R(y)` has exactly the edges `T1 -> T2` and `T2 -> T1` |
| `Scenarios.CrossedReadsAreNotSerializable` | conflictSerializable.py:71-74 | that schedule has a cycle |
| `Scenarios.NoBackEdge` | conflictSerializable.py:48-57 | when every event of `a` comes before every event of `b`, no edge runs from `b` to `a` |
| `Scenarios.SerialOrderEdges` | conflictSerializable.py:47-60 | `T1:W(x), T1:R(y), T2:W(y), T2:R(x)` has exactly the edge `T1 -> T2` |
| `Scenarios.SerialOrderIsSerializable` | conflictSerializable.py:71-74 | that schedule is acyclic |
| `Scenarios.SingleTransactionIsSerializable` | conflictSerializable.py:48-49 | a schedule in which one transaction acts has no edge and no cycle |

## Left out

- Reading the schedule from a spreadsheet file, filling empty cells and printing the schedule (conflictSerializable.py:28-31, 40-41). This is file I/O through a dataframe library. The model takes the column names and the already flattened sequence of non-empty cells, in temporal order, as inputs.
- The row-by-row extraction of events (conflictSerializable.py:42-45). It looks up the column of a cell with `item.index(value)`, which picks the first column in the row that holds an equal string. This is a loader detail that depends on the dataframe. `ParseInput` receives each event already paired with its transaction.
- Drawing and saving the graph image (conflictSerializable.py:64-68). This is rendering only and does not affect the verdict.
- Enumerating all simple cycles with the graph library (conflictSerializable.py:71). Only its observable meaning, whether some cycle exists, is modelled, by `HasCycle` and the proved check `IsCyclic`.
- The interactive prompt for the input file name and the fixed output image name (conflictSerializable.py:77-81).
- Console messages (conflictSerializable.py:16, 18, 72, 74). The verdict is returned as a `Verdict` value instead.
- Cells that are not strings, such as numbers read from the spreadsheet. An access is modelled as a non-empty string.
- The order in which the dictionary is scanned. `CheckConflict` scans the registered transactions in an arbitrary order, and its contract shows that the result does not depend on that order.
- ConflictSerializability.ConflictSerializable.CheckConflict: requires the transaction to be registered and every registered transaction to be a node of G. The only caller always does this. The model does not cover the `KeyError` (or the stray node the graph library would add) for an unregistered name.
- ConflictSerializability.ConflictSerializable.RegisterNodes: requires that no event has been consumed yet. Registration happens once, before any event.
