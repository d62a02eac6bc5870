/**
 * The approximate closed list of one search episode: (x, y, elapsed-time) triples of
 * accepted nodes, matched against queries with fixed tolerances.
 */
module VisitedSet {

  const XDiff: real := 0.1
  const YDiff: real := 0.1
  const TimeDiff: real := 0.1

  /** One closed-list entry, AStarSimulator's float[3] { x, y, t }. */
  datatype Entry = Entry(x: real, y: real, t: real)

  function Abs(r: real): real
  {
    if r < 0.0 then -r else r
  }

  /** The (int) cast of the C# code: truncation toward zero. */
  function Trunc(r: real): (n: int)
    ensures 0.0 <= r ==> 0 <= n && n as real <= r < n as real + 1.0
    ensures r < 0.0 ==> n <= 0 && n as real - 1.0 < r <= n as real
  {
    if r >= 0.0 then r.Floor else -((-r).Floor)
  }

  /** Entry v lies within the tolerances of (x, y, t) and was recorded no later than t. */
  predicate Near(v: Entry, x: real, y: real, t: int)
  {
    Abs(v.x - x) < XDiff && Abs(v.y - y) < YDiff && Abs(v.t - t as real) < TimeDiff && t as real >= v.t
  }

  predicate InVisited(visited: seq<Entry>, x: real, y: real, t: int)
  {
    exists j :: 0 <= j < |visited| && Near(visited[j], x, y, t)
  }

  /** isInVisited: a scan of the list that stops at the first matching entry. */
  method IsInVisited(visited: seq<Entry>, x: real, y: real, t: int) returns (r: bool)
    ensures r <==> InVisited(visited, x, y, t)
  {
    var j := 0;
    while j < |visited|
      invariant 0 <= j <= |visited|
      invariant forall k :: 0 <= k < j ==> !Near(visited[k], x, y, t)
    {
      if Near(visited[j], x, y, t) {
        return true;
      }
      j := j + 1;
    }
    return false;
  }

  /** The entry an accepted node is recorded with: x and y truncated to int. */
  function RecordOf(x: real, y: real, t: int): Entry
  {
    Entry(Trunc(x) as real, Trunc(y) as real, t as real)
  }

  /** Against an entry recorded by the planner, the time test is an exact match. */
  lemma RecordedTimeMatchesExactly(x': real, y': real, t': int, x: real, y: real, t: int)
    requires Near(RecordOf(x', y', t'), x, y, t)
    ensures t == t'
  {
  }

  /**
   * A node's own position matches the entry it was recorded with only when both
   * coordinates are within the tolerance of their truncation: entries are
   * truncated, queries are not.
   */
  lemma OwnRecordMatch(x: real, y: real, t: int)
    ensures Near(RecordOf(x, y, t), x, y, t) <==> Abs(x - Trunc(x) as real) < XDiff && Abs(y - Trunc(y) as real) < YDiff
  {
  }

  /** Appending entries never makes a visited point unvisited. */
  lemma InVisitedAppend(visited: seq<Entry>, more: seq<Entry>, x: real, y: real, t: int)
    requires InVisited(visited, x, y, t)
    ensures InVisited(visited + more, x, y, t)
  {
    var j :| 0 <= j < |visited| && Near(visited[j], x, y, t);
    assert (visited + more)[j] == visited[j];
  }
}
