/**
 * The analyzer object. It keeps the precedence graph G (its node set and
 * its edge set) and the access dictionary: for every registered
 * transaction, the accesses it has issued so far. Events are consumed in
 * temporal order; each one first draws its conflict edges from the other
 * transactions' histories and is only then appended to its own history.
 */
module ConflictSerializability {
  import opened Accesses
  import opened Schedules
  import opened Graphs

  datatype Verdict = Serializable | NotSerializable

  class ConflictSerializable {
    /** The nodes of G. */
    var graphNodes: set<Tx>
    /** The edges of G; adding an edge that is already there changes nothing. */
    var edges: Edges
    /** Each registered transaction's accesses so far, in order. */
    var accessDict: map<Tx, seq<Access>>
    /** The transaction names, in column order. */
    var nodes: seq<Tx>
    /** The events consumed so far, in order. */
    ghost var log: seq<Event>

    /**
     * The object invariant: every history is the projection of the events
     * consumed so far, every event belongs to a registered transaction,
     * every registered transaction is a node of G, and G's edges are
     * exactly the precedence graph of the events consumed so far.
     */
    ghost predicate Valid()
      reads this
    {
      && accessDict.Keys <= graphNodes
      && Tracks(log, accessDict)
      && edges == PrecedenceEdges(log)
    }

    constructor ()
      ensures Valid()
      ensures graphNodes == {} && edges == {} && accessDict == map[] && nodes == [] && log == []
    {
      graphNodes, edges, accessDict, nodes := {}, {}, map[], [];
      log := [];
    }

    method AddNodeToGraph(node: Tx)
      modifies this
      ensures graphNodes == old(graphNodes) + {node}
      ensures edges == old(edges) && accessDict == old(accessDict) && nodes == old(nodes) && log == old(log)
    {
      graphNodes := graphNodes + {node};
    }

    /** Inserts an edge (and its endpoints) into G; re-adding an edge leaves G as it was. */
    method AddEdgeToGraph(fromNode: Tx, toNode: Tx)
      modifies this
      ensures edges == old(edges) + {(fromNode, toNode)}
      ensures graphNodes == old(graphNodes) + {fromNode, toNode}
      ensures (fromNode, toNode) in old(edges) ==> edges == old(edges)
      ensures accessDict == old(accessDict) && nodes == old(nodes) && log == old(log)
    {
      edges := edges + {(fromNode, toNode)};
      graphNodes := graphNodes + {fromNode, toNode};
    }

    /**
     * Registers every column as a node of G with an empty history. This
     * happens before any event is consumed.
     */
    method RegisterNodes(columns: seq<Tx>)
      requires Valid() && log == []
      modifies this
      ensures Valid()
      ensures nodes == columns
      ensures graphNodes == old(graphNodes) + set c | c in columns
      ensures accessDict.Keys == old(accessDict).Keys + set c | c in columns
      ensures forall t | t in accessDict :: accessDict[t] == []
      ensures edges == old(edges) && log == old(log)
    {
      assert forall t | t in accessDict :: accessDict[t] == History([], t);
      nodes := columns;
      for k := 0 to |columns|
        invariant log == [] && nodes == columns && edges == old(edges)
        invariant accessDict.Keys <= graphNodes
        invariant forall t | t in accessDict :: accessDict[t] == []
        invariant graphNodes == old(graphNodes) + set c | c in columns[..k]
        invariant accessDict.Keys == old(accessDict).Keys + set c | c in columns[..k]
      {
        assert columns[..k + 1] == columns[..k] + [columns[k]];
        AddNodeToGraph(columns[k]);
        accessDict := accessDict[columns[k] := []];
      }
      assert columns[..|columns|] == columns;
    }

    /**
     * Consumes one event: `access` issued by `process`. Every other
     * registered transaction whose history holds a conflicting access gets
     * an edge to `process`; then `access` joins `process`'s history.
     */
    method CheckConflict(process: Tx, access: Access)
      requires process in accessDict && accessDict.Keys <= graphNodes
      modifies this
      ensures log == old(log) + [Event(process, access)]
      ensures accessDict == old(accessDict)[process := old(accessDict)[process] + [access]]
      ensures edges == old(edges) + ConflictEdges(old(accessDict), process, access)
      ensures graphNodes == old(graphNodes) && nodes == old(nodes)
    {
      var remaining := accessDict.Keys;
      while remaining != {}
        invariant remaining <= accessDict.Keys
        invariant accessDict == old(accessDict) && log == old(log)
        invariant graphNodes == old(graphNodes) && nodes == old(nodes)
        invariant edges == old(edges) + ScannedConflictEdges(accessDict, accessDict.Keys - remaining, process, access)
        decreases remaining
      {
        var node :| node in remaining;
        ghost var scanned := accessDict.Keys - remaining;
        ScanOne(accessDict, scanned, node, process, access);
        if process != node {
          if access[0] == 'R' && WithKind('W', access) in accessDict[node] {
            AddEdgeToGraph(node, process);
          } else if access[0] == 'W' {
            if WithKind('W', access) in accessDict[node] || WithKind('R', access) in accessDict[node] {
              AddEdgeToGraph(node, process);
            }
          }
        }
        remaining := remaining - {node};
        assert accessDict.Keys - remaining == scanned + {node};
      }
      assert accessDict.Keys - remaining == accessDict.Keys;
      ScanAll(accessDict, process, access);
      accessDict := accessDict[process := accessDict[process] + [access]];
      log := log + [Event(process, access)];
    }

    /**
     * Registers the columns, then consumes the schedule's events in
     * temporal order. Every event belongs to one of the columns.
     */
    method ParseInput(columns: seq<Tx>, events: seq<Event>)
      requires Valid() && log == []
      requires forall i | 0 <= i < |events| :: events[i].tx in columns
      modifies this
      ensures Valid()
      ensures log == events && nodes == columns
      ensures accessDict.Keys == old(accessDict).Keys + set c | c in columns
      ensures edges == PrecedenceEdges(events)
    {
      RegisterNodes(columns);
      for k := 0 to |events|
        invariant Valid() && log == events[..k] && nodes == columns
        invariant accessDict.Keys == old(accessDict).Keys + set c | c in columns
      {
        RecordEvent(log, accessDict, events[k]);
        CheckConflict(events[k].tx, events[k].access);
        assert events[..k + 1] == events[..k] + [events[k]];
      }
      assert events[..|events|] == events;
    }

    /** The verdict on the finished graph: not serializable exactly when G has a cycle. */
    method Output() returns (v: Verdict)
      requires Valid()
      ensures v == NotSerializable <==> HasCycle(edges)
      ensures v == NotSerializable <==> HasCycle(PrecedenceEdges(log))
    {
      var cyclic := IsCyclic(edges);
      v := if cyclic then NotSerializable else Serializable;
    }
  }

  /**
   * Analyzes one schedule on a fresh analyzer: the columns name the
   * transactions, the events are the schedule's non-empty cells in
   * temporal order. Returns the verdict and the precedence graph's edges.
   */
  method CheckConflictSerializability(columns: seq<Tx>, events: seq<Event>) returns (v: Verdict, edges: Edges)
    requires forall i | 0 <= i < |events| :: events[i].tx in columns
    ensures edges == PrecedenceEdges(events)
    ensures forall e | e in edges :: e.0 != e.1 && e.0 in columns && e.1 in columns
    ensures v == NotSerializable <==> HasCycle(edges)
  {
    var analyzer := new ConflictSerializable();
    analyzer.ParseInput(columns, events);
    PrecedenceEdgesShape(events);
    v := analyzer.Output();
    edges := analyzer.edges;
  }
}
