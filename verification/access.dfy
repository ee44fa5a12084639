/**
 * Accesses as the schedule records them: a non-empty cell string such as
 * "R(x)" or "W(y)". The first character is the kind of access and the rest
 * of the string (everything after the first character) names the resource.
 * The conflict rule compares whole strings, exactly as the analyzer does:
 * a read "R" + r conflicts with an earlier "W" + r, and a write "W" + r with
 * an earlier "W" + r or "R" + r.
 */
module Accesses {

  /** A cell of the schedule; empty cells never reach the analyzer. */
  type Access = s: string | |s| > 0 witness "R"

  datatype Option<T> = None | Some(value: T)

  /** The kind-and-resource view of a well-formed access. */
  datatype Op = Read(resource: string) | Write(resource: string)

  /** The resource part of an access: the access without its kind character. */
  function Resource(a: Access): string {
    a[1..]
  }

  /** The access string of the given kind on the resource of `a`. */
  function WithKind(kind: char, a: Access): (r: Access)
    ensures r[0] == kind && Resource(r) == Resource(a)
  {
    [kind] + a[1..]
  }

  /**
   * `later` conflicts with an `earlier` access of another transaction:
   * a read with an earlier write of the same resource, a write with an
   * earlier read or write of it. A kind other than 'R' or 'W' conflicts
   * with nothing.
   */
  predicate Conflicts(earlier: Access, later: Access) {
    if later[0] == 'R' then
      earlier == WithKind('W', later)
    else if later[0] == 'W' then
      earlier == WithKind('W', later) || earlier == WithKind('R', later)
    else
      false
  }

  /**
   * The membership tests the analyzer performs against one transaction's
   * recorded history when `later` arrives.
   */
  predicate ConflictsWithHistory(later: Access, history: seq<Access>) {
    (later[0] == 'R' && WithKind('W', later) in history)
    || (later[0] == 'W' && (WithKind('W', later) in history || WithKind('R', later) in history))
  }

  /** The membership tests find a conflict exactly when some recorded access conflicts. */
  lemma ConflictsWithHistoryIff(later: Access, history: seq<Access>)
    ensures ConflictsWithHistory(later, history)
        <==> exists i :: 0 <= i < |history| && Conflicts(history[i], later)
  {
    if ConflictsWithHistory(later, history) {
      var i :| 0 <= i < |history| && history[i] in {WithKind('W', later), WithKind('R', later)}
                                  && (later[0] == 'R' ==> history[i] == WithKind('W', later));
      assert Conflicts(history[i], later);
    }
  }

  function Encode(op: Op): (a: Access)
    ensures a[0] == (if op.Read? then 'R' else 'W')
    ensures Resource(a) == op.resource
  {
    match op
    case Read(r) => "R" + r
    case Write(r) => "W" + r
  }

  /** The kind-and-resource view, or None when the kind is neither 'R' nor 'W'. */
  function Parse(a: Access): (r: Option<Op>)
    ensures r.Some? <==> a[0] == 'R' || a[0] == 'W'
    ensures r.Some? ==> r.value.resource == Resource(a) && (r.value.Write? <==> a[0] == 'W')
  {
    if a[0] == 'R' then Some(Read(a[1..]))
    else if a[0] == 'W' then Some(Write(a[1..]))
    else None
  }

  lemma ParseEncode(op: Op)
    ensures Parse(Encode(op)) == Some(op)
  {
  }

  lemma EncodeParse(a: Access)
    requires Parse(a).Some?
    ensures Encode(Parse(a).value) == a
  {
    assert a == [a[0]] + a[1..];
  }

  /** Two access strings are equal when their kinds and resources are. */
  lemma AccessEquality(a: Access, b: Access)
    ensures a == b <==> a[0] == b[0] && Resource(a) == Resource(b)
  {
    if a[0] == b[0] && Resource(a) == Resource(b) {
      assert a == [a[0]] + a[1..] && b == [b[0]] + b[1..];
    }
  }

  /**
   * The suffix comparison is the textbook conflict rule: two operations
   * conflict exactly when they touch the same resource and at least one of
   * them writes. In particular two reads never conflict.
   */
  lemma ConflictRule(earlier: Op, later: Op)
    ensures Conflicts(Encode(earlier), Encode(later))
        <==> earlier.resource == later.resource && (earlier.Write? || later.Write?)
  {
    var e, l := Encode(earlier), Encode(later);
    AccessEquality(e, WithKind('W', l));
    AccessEquality(e, WithKind('R', l));
  }

  /** An access whose kind is neither 'R' nor 'W' conflicts with nothing, in either role. */
  lemma UnknownKindNeverConflicts(a: Access, other: Access)
    requires Parse(a).None?
    ensures !Conflicts(other, a) && !Conflicts(a, other)
  {
  }
}
