/**
 * Schedules as ordered event sequences and the precedence graph they
 * determine. `PrecedenceEdges` is the reference definition: an edge
 * a -> b for every pair of positions i < j where a different transaction
 * `b` issues at j an access that conflicts with the access `a` issued at i.
 */
module Schedules {
  import opened Accesses

  /** A transaction is named by its column header. */
  type Tx = string

  /** One non-empty cell of the schedule, in temporal order. */
  datatype Event = Event(tx: Tx, access: Access)

  /** The accesses `t` has issued in `log`, in order. */
  function History(log: seq<Event>, t: Tx): (h: seq<Access>)
    ensures |h| <= |log|
  {
    if log == [] then []
    else
      var last := log[|log| - 1];
      History(log[..|log| - 1], t) + (if last.tx == t then [last.access] else [])
  }

  /** Appending an event extends its own transaction's history and no other. */
  lemma HistorySnoc(log: seq<Event>, e: Event, t: Tx)
    ensures History(log + [e], t) == History(log, t) + (if e.tx == t then [e.access] else [])
  {
    assert (log + [e])[..|log|] == log;
  }

  /** The transactions that issue at least one access in `log`. */
  function Participants(log: seq<Event>): set<Tx> {
    set i | 0 <= i < |log| :: log[i].tx
  }

  /** The precedence graph of a schedule, as a set of directed edges. */
  function PrecedenceEdges(log: seq<Event>): set<(Tx, Tx)> {
    set i, j | 0 <= i < j < |log| && ConflictingPair(log, i, j) :: (log[i].tx, log[j].tx)
  }

  /**
   * The precedence graph has no self-loop, and both ends of every edge are
   * transactions that issue some access in the schedule.
   */
  lemma PrecedenceEdgesShape(log: seq<Event>)
    ensures forall e | e in PrecedenceEdges(log) :: e.0 != e.1
    ensures forall e | e in PrecedenceEdges(log) :: e.0 in Participants(log) && e.1 in Participants(log)
  {
    forall e | e in PrecedenceEdges(log)
      ensures e.0 != e.1 && e.0 in Participants(log) && e.1 in Participants(log)
    {
      var i, j :| 0 <= i < j < |log| && ConflictingPair(log, i, j) && e == (log[i].tx, log[j].tx);
    }
  }

  /**
   * The edges one new access `a` of `p` adds, given the recorded history
   * `h` of every registered transaction: one edge n -> p from every other
   * transaction whose history holds an access that `a` conflicts with.
   */
  function ConflictEdges(h: map<Tx, seq<Access>>, p: Tx, a: Access): set<(Tx, Tx)> {
    set n | n in h && n != p && ConflictsWithHistory(a, h[n]) :: (n, p)
  }

  /** The conflict edges drawn from the transactions in `scanned` only. */
  function ScannedConflictEdges(h: map<Tx, seq<Access>>, scanned: set<Tx>, p: Tx, a: Access): set<(Tx, Tx)> {
    set n | n in h && n in scanned && n != p && ConflictsWithHistory(a, h[n]) :: (n, p)
  }

  /** Scanning one more transaction `n` adds at most the edge n -> p, and adds it exactly on a conflict. */
  lemma ScanOne(h: map<Tx, seq<Access>>, scanned: set<Tx>, n: Tx, p: Tx, a: Access)
    requires n in h
    ensures ScannedConflictEdges(h, scanned + {n}, p, a)
         == ScannedConflictEdges(h, scanned, p, a)
            + (if n != p && ConflictsWithHistory(a, h[n]) then {(n, p)} else {})
  {
  }

  /** Once every registered transaction is scanned, all conflict edges are drawn. */
  lemma ScanAll(h: map<Tx, seq<Access>>, p: Tx, a: Access)
    ensures ScannedConflictEdges(h, h.Keys, p, a) == ConflictEdges(h, p, a)
  {
  }

  /**
   * A read of `r` by `p` draws n -> p exactly when `n` is another
   * registered transaction that has written `r`; an earlier read of `r`
   * draws nothing.
   */
  lemma ReadEdgeIff(h: map<Tx, seq<Access>>, p: Tx, r: string, n: Tx)
    ensures (n, p) in ConflictEdges(h, p, Encode(Read(r)))
        <==> n in h && n != p && Encode(Write(r)) in h[n]
  {
    assert WithKind('W', Encode(Read(r))) == Encode(Write(r));
  }

  /**
   * A write of `r` by `p` draws n -> p exactly when `n` is another
   * registered transaction that has read or written `r`.
   */
  lemma WriteEdgeIff(h: map<Tx, seq<Access>>, p: Tx, r: string, n: Tx)
    ensures (n, p) in ConflictEdges(h, p, Encode(Write(r)))
        <==> n in h && n != p && (Encode(Write(r)) in h[n] || Encode(Read(r)) in h[n])
  {
    assert WithKind('W', Encode(Write(r))) == Encode(Write(r));
    assert WithKind('R', Encode(Write(r))) == Encode(Read(r));
  }

  /** The new edges all end at the acting transaction and none is a self-loop. */
  lemma ConflictEdgesShape(h: map<Tx, seq<Access>>, p: Tx, a: Access)
    ensures forall e | e in ConflictEdges(h, p, a) :: e.1 == p && e.0 != p && e.0 in h
  {
  }

  /** `x` is in `t`'s history exactly when some event of `log` is `t` issuing `x`. */
  lemma {:induction false} HistoryContains(log: seq<Event>, t: Tx, x: Access)
    ensures x in History(log, t) <==> exists i :: 0 <= i < |log| && log[i] == Event(t, x)
  {
    if log != [] {
      var init := log[..|log| - 1];
      HistoryContains(init, t, x);
      if x in History(log, t) && x !in History(init, t) {
        assert log[|log| - 1] == Event(t, x);
      }
      if i :| 0 <= i < |log| && log[i] == Event(t, x) {
        if i < |log| - 1 {
          assert init[i] == Event(t, x);
        }
      }
    }
  }

  /**
   * `h` records `log`: every event belongs to a key of `h`, and every
   * key's history is its projection of `log`.
   */
  ghost predicate Tracks(log: seq<Event>, h: map<Tx, seq<Access>>) {
    && (forall i | 0 <= i < |log| :: log[i].tx in h)
    && (forall t {:trigger History(log, t)} | t in h :: h[t] == History(log, t))
  }

  /** Positions i < j of `log` hold conflicting accesses of two different transactions. */
  predicate ConflictingPair(log: seq<Event>, i: nat, j: nat)
    requires i < j < |log|
  {
    log[i].tx != log[j].tx && Conflicts(log[i].access, log[j].access)
  }

  /**
   * Against the recorded histories, the new access `a` of `p` draws the
   * edge n -> p exactly when some earlier event of `n` conflicts with it.
   */
  lemma ConflictEdgesIff(log: seq<Event>, h: map<Tx, seq<Access>>, p: Tx, a: Access, n: Tx)
    requires Tracks(log, h)
    ensures (n, p) in ConflictEdges(h, p, a)
        <==> n != p && exists i :: 0 <= i < |log| && log[i].tx == n && Conflicts(log[i].access, a)
  {
    if (n, p) in ConflictEdges(h, p, a) {
      ConflictsWithHistoryIff(a, h[n]);
      var k :| 0 <= k < |h[n]| && Conflicts(h[n][k], a);
      HistoryContains(log, n, h[n][k]);
    }
    if i :| 0 <= i < |log| && log[i].tx == n && Conflicts(log[i].access, a) {
      if n != p {
        HistoryContains(log, n, log[i].access);
        ConflictsWithHistoryIff(a, h[n]);
        var k :| 0 <= k < |h[n]| && h[n][k] == log[i].access;
      }
    }
  }

  /** Every edge of the extended schedule is an old edge or one the new access draws. */
  lemma PrecedenceEdgesSnocSub(log: seq<Event>, e: Event, h: map<Tx, seq<Access>>)
    requires Tracks(log, h)
    ensures PrecedenceEdges(log + [e]) <= PrecedenceEdges(log) + ConflictEdges(h, e.tx, e.access)
  {
    var log' := log + [e];
    forall edge | edge in PrecedenceEdges(log')
      ensures edge in PrecedenceEdges(log) + ConflictEdges(h, e.tx, e.access)
    {
      var i, j :| 0 <= i < j < |log'| && ConflictingPair(log', i, j) && edge == (log'[i].tx, log'[j].tx);
      assert log'[i] == log[i];
      if j < |log| {
        assert log'[j] == log[j] && ConflictingPair(log, i, j);
      } else {
        assert log'[j] == e;
        ConflictEdgesIff(log, h, e.tx, e.access, log[i].tx);
      }
    }
  }

  /** Old edges survive an appended event, and the new access adds its conflict edges. */
  lemma PrecedenceEdgesSnocSuper(log: seq<Event>, e: Event, h: map<Tx, seq<Access>>)
    requires Tracks(log, h)
    ensures PrecedenceEdges(log) + ConflictEdges(h, e.tx, e.access) <= PrecedenceEdges(log + [e])
  {
    var log' := log + [e];
    PrecedenceEdgesMonotone(log', |log|);
    assert log'[..|log|] == log;
    forall edge | edge in ConflictEdges(h, e.tx, e.access)
      ensures edge in PrecedenceEdges(log')
    {
      ConflictEdgesIff(log, h, e.tx, e.access, edge.0);
      var i :| 0 <= i < |log| && log[i].tx == edge.0 && Conflicts(log[i].access, e.access);
      assert log'[i] == log[i] && log'[|log|] == e && ConflictingPair(log', i, |log|);
    }
  }

  /**
   * Appending one event extends the precedence graph by exactly the edges
   * the new access draws from the histories recorded so far.
   */
  lemma PrecedenceEdgesSnoc(log: seq<Event>, e: Event, h: map<Tx, seq<Access>>)
    requires Tracks(log, h)
    ensures PrecedenceEdges(log + [e]) == PrecedenceEdges(log) + ConflictEdges(h, e.tx, e.access)
  {
    PrecedenceEdgesSnocSub(log, e, h);
    PrecedenceEdgesSnocSuper(log, e, h);
  }

  /**
   * Recording one event of a registered transaction: the histories stay
   * the projections of the extended schedule (only the event's own
   * transaction's history grows) and the graph grows by the new access's
   * conflict edges.
   */
  lemma RecordEvent(log: seq<Event>, h: map<Tx, seq<Access>>, e: Event)
    requires Tracks(log, h) && e.tx in h
    ensures Tracks(log + [e], h[e.tx := h[e.tx] + [e.access]])
    ensures PrecedenceEdges(log + [e]) == PrecedenceEdges(log) + ConflictEdges(h, e.tx, e.access)
  {
    PrecedenceEdgesSnoc(log, e, h);
    forall t | t in h
      ensures h[e.tx := h[e.tx] + [e.access]][t] == History(log + [e], t)
    {
      HistorySnoc(log, e, t);
    }
  }

  /** Edges are never removed: a prefix of a schedule has a subset of its edges. */
  lemma PrecedenceEdgesMonotone(log: seq<Event>, k: nat)
    requires k <= |log|
    ensures PrecedenceEdges(log[..k]) <= PrecedenceEdges(log)
  {
    forall edge | edge in PrecedenceEdges(log[..k])
      ensures edge in PrecedenceEdges(log)
    {
      var p := log[..k];
      var i, j :| 0 <= i < j < |p| && ConflictingPair(p, i, j) && edge == (p[i].tx, p[j].tx);
      assert p[i] == log[i] && p[j] == log[j] && ConflictingPair(log, i, j);
    }
  }

  /** A schedule made only of reads has no edge: read-read pairs never conflict. */
  lemma ReadsOnlyHaveNoEdges(log: seq<Event>)
    requires forall i | 0 <= i < |log| :: Parse(log[i].access).Some? && Parse(log[i].access).value.Read?
    ensures PrecedenceEdges(log) == {}
  {
    forall i, j | 0 <= i < j < |log|
      ensures !ConflictingPair(log, i, j)
    {
      var oi, oj := Parse(log[i].access).value, Parse(log[j].access).value;
      EncodeParse(log[i].access);
      EncodeParse(log[j].access);
      ConflictRule(oi, oj);
    }
  }

  /** A transaction that issues no access lies on no edge. */
  lemma IdleTransactionIsIsolated(log: seq<Event>, t: Tx)
    requires History(log, t) == []
    ensures forall e | e in PrecedenceEdges(log) :: e.0 != t && e.1 != t
  {
    forall e | e in PrecedenceEdges(log)
      ensures e.0 != t && e.1 != t
    {
      var i, j :| 0 <= i < j < |log| && ConflictingPair(log, i, j) && e == (log[i].tx, log[j].tx);
      HistoryContains(log, t, log[i].access);
      HistoryContains(log, t, log[j].access);
    }
  }
}
