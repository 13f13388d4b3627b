/**
 * Liveness analysis (Passes/DFA/LivenessAnalysis.cpp): a backward analysis
 * whose fact is the set of indices of the instructions whose values may still
 * be used. The engine hands the transfer function its edges already reversed,
 * so "incoming" edges come from the successors and "outgoing" edges lead to
 * the predecessors.
 */
module Liveness {
  import opened Ir
  import opened IndexSets

  /** A LivenessInfo object: the set the analysis updates in place. */
  class LivenessInfo {
    var indices: set<nat>

    constructor ()
      ensures indices == {}
    {
      indices := {};
    }

    /** The one-index fact `LivenessInfo(index)`. */
    constructor Singleton(index: nat)
      ensures indices == {index}
    {
      indices := {index};
    }

    method SetInfo(newIndices: set<nat>)
      modifies this
      ensures indices == newIndices
    {
      indices := newIndices;
    }

    /** `insert(idx)`: `idx` becomes a member; no other index changes. */
    method Insert(idx: nat)
      modifies this
      ensures idx in indices
      ensures forall i :: i != idx ==> (i in indices <==> i in old(indices))
      ensures indices == old(indices) + {idx}
    {
      indices := indices + {idx};
    }

    /** `remove(idx)`: `idx` stops being a member; no other index changes. */
    method Remove(idx: nat)
      modifies this
      ensures idx !in indices
      ensures forall i :: i != idx ==> (i in indices <==> i in old(indices))
      ensures indices == old(indices) - {idx}
    {
      indices := indices - {idx};
    }
  }

  /** The tracked incoming values among `pairs` that come from the block whose
    * terminator has index `t`. */
  function EdgeGen(pairs: seq<PhiIncoming>, t: nat): (r: set<nat>)
    ensures forall v :: v in r <==> PhiIncoming(Tracked(v), t) in pairs
    decreases |pairs|
  {
    if |pairs| == 0 then {}
    else
      var n := |pairs| - 1;
      assert pairs == pairs[..n] + [pairs[n]];
      EdgeGen(pairs[..n], t) + (if pairs[n].value.Tracked? && pairs[n].predTerminator == t then {pairs[n].value.idx} else {})
  }

  /** What a run of phis adds to the outgoing edge that leads to the
    * terminator with index `t`. */
  function PhiGen(phis: seq<Instr>, t: nat): (r: set<nat>)
    ensures forall v :: v in r <==> exists p :: 0 <= p < |phis| && PhiIncoming(Tracked(v), t) in phis[p].incoming
    decreases |phis|
  {
    if |phis| == 0 then {}
    else
      var n := |phis| - 1;
      assert forall p :: 0 <= p < n ==> phis[..n][p] == phis[p];
      PhiGen(phis[..n], t) + EdgeGen(phis[n].incoming, t)
  }

  /** The phis of the run that starts at `run[0]`. */
  function PhiRun(run: seq<Instr>): seq<Instr>
  {
    run[..PhiRunLength(run)]
  }

  /** The fact the transfer function puts on the outgoing edge that leads to
    * instruction `target`, given the joined incoming fact `joined`:
    * a value-defining instruction kills its own index and generates its
    * tracked operands; a run of phis kills all its indices and generates, on
    * each edge, the incoming values that come from that edge's block; any
    * other instruction only generates its tracked operands. */
  function LiveOut(joined: set<nat>, run: seq<Instr>, target: nat): (r: set<nat>)
    requires |run| > 0
    ensures joined - {run[0].index} - Indices(PhiRun(run)) <= r
    ensures run[0].op != Phi ==> r <= joined + TrackedIndices(run[0].operands)
  {
    var instr := run[0];
    if DefinesValue(instr.op) then (joined - {instr.index}) + TrackedIndices(instr.operands)
    else if instr.op == Phi then (joined - Indices(PhiRun(run))) + PhiGen(PhiRun(run), target)
    else joined + TrackedIndices(instr.operands)
  }

  /** The loop that joins the singleton fact of each tracked operand into
    * `combineInfo`. */
  method JoinOperands(combineInfo: LivenessInfo, ops: seq<Operand>)
    modifies combineInfo
    ensures combineInfo.indices == old(combineInfo.indices) + TrackedIndices(ops)
  {
    for k := 0 to |ops|
      invariant combineInfo.indices == old(combineInfo.indices) + TrackedIndices(ops[..k])
    {
      assert ops[..k + 1] == ops[..k] + [ops[k]];
      if ops[k].Tracked? {
        var operand := new LivenessInfo.Singleton(ops[k].idx);
        combineInfo.SetInfo(Join(combineInfo.indices, operand.indices));
      }
    }
    assert ops[..|ops|] == ops;
  }

  /** The `while (isa<PHINode>(I_))` loop that removes the index of every
    * phi of the run from `combineInfo`. */
  method RemovePhiRun(combineInfo: LivenessInfo, run: seq<Instr>)
    modifies combineInfo
    ensures combineInfo.indices == old(combineInfo.indices) - Indices(PhiRun(run))
  {
    var p := 0;
    while p < |run| && run[p].op == Phi
      invariant p <= PhiRunLength(run)
      invariant combineInfo.indices == old(combineInfo.indices) - Indices(run[..p])
    {
      IndicesStep(run, p);
      combineInfo.Remove(run[p].index);
      p := p + 1;
    }
  }

  /** The loop over one phi's incoming pairs: a tracked value is inserted into
    * `Infos[j]` for every outgoing edge `j` that leads to the terminator of
    * the value's incoming block; an untracked value is skipped. */
  method AddIncoming(infos: seq<set<nat>>, pairs: seq<PhiIncoming>, outgoing: seq<nat>)
    returns (patched: seq<set<nat>>)
    requires |infos| == |outgoing|
    ensures |patched| == |outgoing|
    ensures forall j :: 0 <= j < |outgoing| ==> patched[j] == infos[j] + EdgeGen(pairs, outgoing[j])
  {
    patched := infos;
    for i := 0 to |pairs|
      invariant |patched| == |outgoing|
      invariant forall j :: 0 <= j < |outgoing| ==> patched[j] == infos[j] + EdgeGen(pairs[..i], outgoing[j])
    {
      var pair := pairs[i];
      assert pairs[..i + 1][..i] == pairs[..i];
      if pair.value.Tracked? {
        for j := 0 to |outgoing|
          invariant |patched| == |outgoing|
          invariant forall j' :: 0 <= j' < |outgoing| ==>
                      patched[j'] == infos[j'] + EdgeGen(pairs[..if j' < j then i + 1 else i], outgoing[j'])
        {
          if outgoing[j] == pair.predTerminator {
            patched := patched[j := patched[j] + {pair.value.idx}];
          }
        }
      }
    }
    assert pairs[..|pairs|] == pairs;
  }

  /** The second walk over the phi run, which patches the facts already
    * pushed onto `Infos` edge by edge. */
  method AddPhiIncoming(infos: seq<set<nat>>, run: seq<Instr>, outgoing: seq<nat>)
    returns (patched: seq<set<nat>>)
    requires |infos| == |outgoing|
    ensures |patched| == |outgoing|
    ensures forall j :: 0 <= j < |outgoing| ==> patched[j] == infos[j] + PhiGen(PhiRun(run), outgoing[j])
  {
    patched := infos;
    var p := 0;
    while p < |run| && run[p].op == Phi
      invariant p <= PhiRunLength(run)
      invariant |patched| == |outgoing|
      invariant forall j :: 0 <= j < |outgoing| ==> patched[j] == infos[j] + PhiGen(run[..p], outgoing[j])
    {
      assert run[..p + 1][..p] == run[..p];
      patched := AddIncoming(patched, run[p].incoming, outgoing);
      p := p + 1;
    }
  }

  /** `flowfunction`: joins the facts of the incoming edges of `run[0]` and
    * returns one fact per outgoing edge, in the order of `outgoing`. */
  method FlowFunction(run: seq<Instr>, incoming: seq<nat>, outgoing: seq<nat>, edgeToInfo: map<Edge, set<nat>>)
    returns (infos: seq<set<nat>>)
    requires |run| > 0
    requires EdgesPresent(edgeToInfo, incoming, run[0].index)
    ensures |infos| == |outgoing|
    ensures forall j :: 0 <= j < |outgoing| ==>
              infos[j] == LiveOut(JoinedIncoming(edgeToInfo, incoming, run[0].index), run, outgoing[j])
  {
    var instr := run[0];
    var idx := instr.index;
    var combineInfo := new LivenessInfo();
    for k := 0 to |incoming|
      invariant combineInfo.indices == JoinedIncoming(edgeToInfo, incoming[..k], idx)
    {
      assert incoming[..k + 1][..k] == incoming[..k];
      combineInfo.SetInfo(Join(combineInfo.indices, edgeToInfo[(incoming[k], idx)]));
    }
    assert incoming[..|incoming|] == incoming;
    ghost var joined := combineInfo.indices;

    if DefinesValue(instr.op) {
      combineInfo.Remove(idx);
      assert combineInfo.indices == joined - {idx};
      JoinOperands(combineInfo, instr.operands);
      infos := Copies(combineInfo.indices, |outgoing|);
    } else if instr.op == Phi {
      RemovePhiRun(combineInfo, run);
      infos := Copies(combineInfo.indices, |outgoing|);
      infos := AddPhiIncoming(infos, run, outgoing);
    } else {
      JoinOperands(combineInfo, instr.operands);
      infos := Copies(combineInfo.indices, |outgoing|);
    }
  }

  /** Outside a phi run every outgoing edge gets the same fact. */
  lemma BroadcastOutsidePhi(joined: set<nat>, run: seq<Instr>, t1: nat, t2: nat)
    requires |run| > 0 && run[0].op != Phi
    ensures LiveOut(joined, run, t1) == LiveOut(joined, run, t2)
  {
  }

  /** A value-defining instruction is dead above itself unless it uses its
    * own result; every other joined index survives, and every tracked
    * operand becomes live. */
  lemma DefKillGen(joined: set<nat>, run: seq<Instr>, t: nat)
    requires |run| > 0 && DefinesValue(run[0].op)
    ensures forall x :: x in LiveOut(joined, run, t) <==>
              (x in joined && x != run[0].index) || Tracked(x) in run[0].operands
  {
  }

  /** An instruction that neither defines a value nor is a phi kills nothing. */
  lemma OtherOnlyGens(joined: set<nat>, run: seq<Instr>, t: nat)
    requires |run| > 0 && !DefinesValue(run[0].op) && run[0].op != Phi
    ensures joined <= LiveOut(joined, run, t)
    ensures forall x :: x in LiveOut(joined, run, t) <==> x in joined || Tracked(x) in run[0].operands
  {
  }

  /** In a phi run, every outgoing edge keeps the base fact: the joined fact
    * without the indices of the run's phis. */
  lemma PhiBaseKept(joined: set<nat>, run: seq<Instr>, t: nat)
    requires |run| > 0 && run[0].op == Phi
    ensures forall x :: x in joined && (forall p :: 0 <= p < PhiRunLength(run) ==> run[p].index != x)
                        ==> x in LiveOut(joined, run, t)
  {
  }

  /** Edge splitting at a phi run: beyond the base fact, the edge leading to
    * terminator `t` receives exactly the tracked incoming values whose
    * incoming block ends in `t`. */
  lemma PhiEdgeSplit(joined: set<nat>, run: seq<Instr>, t: nat, x: nat)
    requires |run| > 0 && run[0].op == Phi
    requires x !in joined - Indices(PhiRun(run))
    ensures x in LiveOut(joined, run, t) <==>
              exists p :: 0 <= p < PhiRunLength(run) && PhiIncoming(Tracked(x), t) in run[p].incoming
  {
    assert forall p :: 0 <= p < PhiRunLength(run) ==> PhiRun(run)[p] == run[p];
  }

  /** An outgoing edge whose target is the terminator of no phi's incoming
    * block keeps exactly the base fact. */
  lemma PhiUnmatchedEdge(joined: set<nat>, run: seq<Instr>, t: nat)
    requires |run| > 0 && run[0].op == Phi
    requires forall p, i :: 0 <= p < PhiRunLength(run) && 0 <= i < |run[p].incoming| ==>
               run[p].incoming[i].predTerminator != t
    ensures LiveOut(joined, run, t) == joined - Indices(PhiRun(run))
  {
    var phis := PhiRun(run);
    assert forall p :: 0 <= p < |phis| ==> phis[p] == run[p];
    assert forall p, v :: 0 <= p < |phis| ==> PhiIncoming(Tracked(v), t) !in phis[p].incoming;
    assert PhiGen(phis, t) == {};
  }

  /** Untracked operands never enter a fact: every index on an outgoing edge
    * was in the joined fact or names a tracked operand or incoming value. */
  lemma OnlyTrackedEnter(joined: set<nat>, run: seq<Instr>, t: nat, x: nat)
    requires |run| > 0
    requires x in LiveOut(joined, run, t)
    ensures x in joined
            || Tracked(x) in run[0].operands
            || exists p :: 0 <= p < PhiRunLength(run) && PhiIncoming(Tracked(x), t) in run[p].incoming
  {
    if run[0].op == Phi && !DefinesValue(run[0].op) && x !in joined {
      assert forall p :: 0 <= p < PhiRunLength(run) ==> PhiRun(run)[p] == run[p];
    }
  }

  /** The transfer function is monotone: a larger joined fact gives a larger
    * fact on every outgoing edge. */
  lemma LiveOutMonotone(joined1: set<nat>, joined2: set<nat>, run: seq<Instr>, t: nat)
    requires |run| > 0 && joined1 <= joined2
    ensures LiveOut(joined1, run, t) <= LiveOut(joined2, run, t)
  {
  }

  /** `%1 = add ...; %2 = add %1, %1; ret`, run backward from an empty fact
    * after `ret`: `%1` is live just before `%2`, and nothing is live just
    * before `%1`. */
  lemma StraightLineExample()
    ensures var ret := Instr(3, Ret, [], []);
            var second := Instr(2, Add, [Tracked(1), Tracked(1)], []);
            var first := Instr(1, Add, [External, External], []);
            var beforeRet := LiveOut({}, [ret], 2);
            var beforeSecond := LiveOut(beforeRet, [second, ret], 1);
            beforeRet == {} && beforeSecond == {1} && LiveOut(beforeSecond, [first, second, ret], 0) == {}
  {
    assert TrackedIndices([Tracked(1), Tracked(1)]) == {1};
    assert TrackedIndices([External, External]) == {};
  }

  /** `%m = phi [%a, predA], [%b, predB]` at the head of a merge block: the edge
    * back to predA's terminator carries `%a` and not `%b`, and the edge back
    * to predB's terminator carries `%b` and not `%a`. */
  lemma PhiSplitExample(joined: set<nat>, m: nat, a: nat, b: nat, termA: nat, termB: nat, br: Instr)
    requires a != b && termA != termB && a !in joined && b !in joined
    requires br.op == Br
    ensures var phi := Instr(m, Phi, [], [PhiIncoming(Tracked(a), termA), PhiIncoming(Tracked(b), termB)]);
            var run := [phi, br];
            a in LiveOut(joined, run, termA) && b !in LiveOut(joined, run, termA) &&
            b in LiveOut(joined, run, termB) && a !in LiveOut(joined, run, termB)
  {
    var phi := Instr(m, Phi, [], [PhiIncoming(Tracked(a), termA), PhiIncoming(Tracked(b), termB)]);
    var run := [phi, br];
    assert PhiRunLength(run) == 1;
    assert PhiRun(run) == [phi];
  }
}
