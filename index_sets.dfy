/**
 * The lattice shared by LivenessInfo and ReachingInfo: a set of instruction
 * indices ordered by inclusion. The two classes carry the same `equals` and
 * `join` code, so the value-level operations are defined once here.
 */
module IndexSets {
  import opened Ir

  /** A subset of `b` with as many elements as `b` is `b` itself. */
  lemma SubsetOfSameSize(a: set<nat>, b: set<nat>)
    ensures a <= b && |a| == |b| ==> a == b
  {
    if a <= b && |a| == |b| {
      assert b == a + (b - a);
      assert |b - a| == 0;
    }
  }

  /** `equals`: the comparison of `std::set`, which checks the sizes and then
    * the elements one by one. It holds exactly when the two sets are equal. */
  function Equals(info1: set<nat>, info2: set<nat>): (r: bool)
    ensures r <==> info1 == info2
  {
    SubsetOfSameSize(info1, info2);
    |info1| == |info2| && info1 <= info2
  }

  /** `join`: a fresh set holding every element of both inputs, and nothing else. */
  function Join(info1: set<nat>, info2: set<nat>): (r: set<nat>)
    ensures info1 <= r && info2 <= r
    ensures forall i :: i in r ==> i in info1 || i in info2
  {
    info1 + info2
  }

  /** `join` is the least upper bound of the inclusion order, and so it is
    * commutative, associative and idempotent. */
  lemma JoinLaws(a: set<nat>, b: set<nat>, c: set<nat>)
    ensures Join(a, b) == Join(b, a)
    ensures Join(Join(a, b), c) == Join(a, Join(b, c))
    ensures Join(a, a) == a
    ensures a <= c && b <= c ==> Join(a, b) <= c
  {
  }

  /** The fact `combineInfo` holds after the loop over the incoming edges of
    * instruction `idx`: the empty set joined with each edge's fact in turn. */
  function JoinedIncoming(edgeToInfo: map<Edge, set<nat>>, incoming: seq<nat>, idx: nat): (r: set<nat>)
    requires EdgesPresent(edgeToInfo, incoming, idx)
    ensures forall k :: 0 <= k < |incoming| ==> edgeToInfo[(incoming[k], idx)] <= r
    decreases |incoming|
  {
    if |incoming| == 0 then {}
    else
      var n := |incoming| - 1;
      Join(JoinedIncoming(edgeToInfo, incoming[..n], idx), edgeToInfo[(incoming[n], idx)])
  }

  /** An index is in the joined incoming fact exactly when it is in the fact
    * of some incoming edge. */
  lemma {:induction false} JoinedIncomingMembers(edgeToInfo: map<Edge, set<nat>>, incoming: seq<nat>, idx: nat, x: nat)
    requires EdgesPresent(edgeToInfo, incoming, idx)
    ensures x in JoinedIncoming(edgeToInfo, incoming, idx)
        <==> exists k :: 0 <= k < |incoming| && x in edgeToInfo[(incoming[k], idx)]
  {
    if |incoming| > 0 {
      var n := |incoming| - 1;
      var prefix := incoming[..n];
      JoinedIncomingMembers(edgeToInfo, prefix, idx, x);
      if x in JoinedIncoming(edgeToInfo, incoming, idx) {
        if x !in edgeToInfo[(incoming[n], idx)] {
          var k :| 0 <= k < |prefix| && x in edgeToInfo[(prefix[k], idx)];
          assert incoming[k] == prefix[k];
        }
      } else {
        forall k | 0 <= k < |incoming|
          ensures x !in edgeToInfo[(incoming[k], idx)]
        {
          if k < n {
            assert incoming[k] == prefix[k];
          }
        }
      }
    }
  }
}
