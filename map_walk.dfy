/**
 * Walking the keys of a Go map. Go leaves the iteration order of a map
 * unspecified, so a walk is modelled by the order it happened to take: a
 * sequence holding every key exactly once.
 */
module MapWalk {

  /** The names of a set in some order, each once. */
  ghost function Enumerate(s: set<string>): (r: seq<string>)
    ensures |r| == |s|
    ensures forall k :: k in r <==> k in s
    ensures forall i, j :: 0 <= i < j < |r| ==> r[i] != r[j]
  {
    if s == {} then []
    else
      var k :| k in s;
      var rest := Enumerate(s - {k});
      assert forall j :: 0 <= j < |rest| ==> rest[j] != k;
      [k] + rest
  }

  /** Distinct names drawn from a set, as many as it holds, are all of it. */
  lemma {:induction false} Covers(order: seq<string>, keys: set<string>)
    requires forall i :: 0 <= i < |order| ==> order[i] in keys
    requires forall i, j :: 0 <= i < j < |order| ==> order[i] != order[j]
    requires |order| == |keys|
    ensures forall k :: k in keys ==> k in order
  {
    if |order| > 0 {
      var x := order[0];
      assert forall i :: 0 <= i < |order| - 1 ==> order[1..][i] == order[i + 1];
      Covers(order[1..], keys - {x});
      forall k | k in keys
        ensures k in order
      {
        if k != x {
          assert k in order[1..];
        }
      }
    }
  }

  /**
   * The names written so far followed by the ones not yet written, in some
   * order, are every name once.
   */
  lemma {:induction false} CompleteOrder(keys: set<string>, done: seq<string>, rest: set<string>) returns (order: seq<string>)
    requires Walk(keys, done, rest)
    ensures |order| == |keys| && order[..|done|] == done
    ensures forall i :: 0 <= i < |order| ==> order[i] in keys
    ensures forall i, j :: 0 <= i < j < |order| ==> order[i] != order[j]
  {
    var tail := Enumerate(rest);
    order := done + tail;
    assert forall i :: |done| <= i < |order| ==> order[i] == tail[i - |done|];
  }

  /**
   * Part way through walking a map's names: `done` lists the names visited so
   * far, each once, and `remaining` holds the others.
   */
  predicate Walk(keys: set<string>, done: seq<string>, remaining: set<string>) {
    && remaining <= keys
    && (forall i :: 0 <= i < |done| ==> done[i] in keys && done[i] !in remaining)
    && (forall i, j :: 0 <= i < j < |done| ==> done[i] != done[j])
    && |done| + |remaining| == |keys|
  }

  /** Visiting one more name keeps the walk. */
  lemma {:induction false} WalkStep(keys: set<string>, done: seq<string>, remaining: set<string>, k: string)
    requires Walk(keys, done, remaining) && k in remaining
    ensures Walk(keys, done + [k], remaining - {k})
  {
    var next := done + [k];
    assert forall i :: 0 <= i < |done| ==> next[i] == done[i];
  }
}
