/**
 * Worked schedules over transactions T1 and T2, with their precedence
 * graphs and verdicts, and the single-transaction case in general.
 */
module Scenarios {
  import opened Accesses
  import opened Schedules
  import opened Graphs

  /** T1: R(x), T2: W(x). */
  function ReadThenWrite(): seq<Event> {
    [Event("T1", "R(x)"), Event("T2", "W(x)")]
  }

  /** T1: R(x), T2: W(x), T1: W(x). */
  function LostUpdate(): seq<Event> {
    [Event("T1", "R(x)"), Event("T2", "W(x)"), Event("T1", "W(x)")]
  }

  /** T1: W(x), T2: R(x), T2: W(y), T1: R(y). */
  function CrossedReads(): seq<Event> {
    [Event("T1", "W(x)"), Event("T2", "R(x)"), Event("T2", "W(y)"), Event("T1", "R(y)")]
  }

  /** T1: W(x), T1: R(y), T2: W(y), T2: R(x). */
  function SerialOrder(): seq<Event> {
    [Event("T1", "W(x)"), Event("T1", "R(y)"), Event("T2", "W(y)"), Event("T2", "R(x)")]
  }

  lemma KindSwaps()
    ensures WithKind('W', "R(x)") == "W(x)" && WithKind('R', "W(x)") == "R(x)" && WithKind('W', "W(x)") == "W(x)"
    ensures WithKind('W', "R(y)") == "W(y)" && WithKind('R', "W(y)") == "R(y)" && WithKind('W', "W(y)") == "W(y)"
    ensures WithKind('W', "R(x)") != "R(x)" && WithKind('W', "R(x)") != "W(y)" && WithKind('W', "R(x)") != "R(y)"
    ensures WithKind('W', "R(y)") != "R(y)" && WithKind('W', "R(y)") != "W(x)" && WithKind('W', "R(y)") != "R(x)"
    ensures WithKind('R', "W(y)") != "W(x)" && WithKind('W', "W(y)") != "W(x)"
  {
    assert "R(x)"[1..] == "(x)" && "R(y)"[1..] == "(y)" && "W(x)"[1..] == "(x)" && "W(y)"[1..] == "(y)";
  }

  /** With only transactions `a` and `b` acting, the only possible edges are a -> b and b -> a. */
  lemma TwoTransactionEdges(log: seq<Event>, a: Tx, b: Tx)
    requires forall i | 0 <= i < |log| :: log[i].tx == a || log[i].tx == b
    ensures PrecedenceEdges(log) <= {(a, b), (b, a)}
  {
    PrecedenceEdgesShape(log);
    assert Participants(log) <= {a, b};
  }

  /** Reading before another transaction writes orders the reader first. */
  lemma ReadThenWriteEdges()
    ensures PrecedenceEdges(ReadThenWrite()) == {("T1", "T2")}
  {
    var log := ReadThenWrite();
    KindSwaps();
    assert ConflictingPair(log, 0, 1);
    forall edge | edge in PrecedenceEdges(log)
      ensures edge == ("T1", "T2")
    {
      var i, j :| 0 <= i < j < |log| && ConflictingPair(log, i, j) && edge == (log[i].tx, log[j].tx);
    }
  }

  lemma ReadThenWriteIsSerializable()
    ensures !HasCycle(PrecedenceEdges(ReadThenWrite()))
  {
    ReadThenWriteEdges();
    RankedGraphIsAcyclic(PrecedenceEdges(ReadThenWrite()), map["T1" := 1, "T2" := 2]);
  }

  /** T1 reads x, T2 writes x, T1 writes x: edges both ways. */
  lemma LostUpdateEdges()
    ensures PrecedenceEdges(LostUpdate()) == {("T1", "T2"), ("T2", "T1")}
  {
    var log := LostUpdate();
    KindSwaps();
    assert ConflictingPair(log, 0, 1) && ConflictingPair(log, 1, 2);
    TwoTransactionEdges(log, "T1", "T2");
  }

  lemma LostUpdateIsNotSerializable()
    ensures HasCycle(PrecedenceEdges(LostUpdate()))
  {
    LostUpdateEdges();
    OppositeEdgesCycle(PrecedenceEdges(LostUpdate()), "T1", "T2");
  }

  /** A write-read conflict on x one way and on y the other way: edges both ways. */
  lemma CrossedReadsEdges()
    ensures PrecedenceEdges(CrossedReads()) == {("T1", "T2"), ("T2", "T1")}
  {
    var log := CrossedReads();
    KindSwaps();
    assert ConflictingPair(log, 0, 1) && ConflictingPair(log, 2, 3);
    TwoTransactionEdges(log, "T1", "T2");
  }

  lemma CrossedReadsAreNotSerializable()
    ensures HasCycle(PrecedenceEdges(CrossedReads()))
  {
    CrossedReadsEdges();
    OppositeEdgesCycle(PrecedenceEdges(CrossedReads()), "T1", "T2");
  }

  /** When every event of `a` comes before every event of `b`, no edge runs from `b` back to `a`. */
  lemma NoBackEdge(log: seq<Event>, a: Tx, b: Tx, k: nat)
    requires k <= |log|
    requires forall i | 0 <= i < k :: log[i].tx != b
    requires forall i | k <= i < |log| :: log[i].tx != a
    ensures (b, a) !in PrecedenceEdges(log)
  {
  }

  /** Every conflict runs from T1 to T2. */
  lemma SerialOrderEdges()
    ensures PrecedenceEdges(SerialOrder()) == {("T1", "T2")}
  {
    var log := SerialOrder();
    KindSwaps();
    assert ConflictingPair(log, 1, 2);
    TwoTransactionEdges(log, "T1", "T2");
    NoBackEdge(log, "T1", "T2", 2);
  }

  /** The schedule is equivalent to running T1 and then T2. */
  lemma SerialOrderIsSerializable()
    ensures !HasCycle(PrecedenceEdges(SerialOrder()))
  {
    SerialOrderEdges();
    RankedGraphIsAcyclic(PrecedenceEdges(SerialOrder()), map["T1" := 1, "T2" := 2]);
  }

  /** A schedule in which only one transaction acts has no edge and is serializable. */
  lemma SingleTransactionIsSerializable(log: seq<Event>, t: Tx)
    requires forall i | 0 <= i < |log| :: log[i].tx == t
    ensures PrecedenceEdges(log) == {}
    ensures !HasCycle(PrecedenceEdges(log))
  {
    PrecedenceEdgesShape(log);
    assert Participants(log) <= {t};
    RankedGraphIsAcyclic(PrecedenceEdges(log), map[]);
  }
}
