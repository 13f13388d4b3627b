/**
 * Reaching-definitions analysis (Passes/DFA/ReachingDefinitionAnalysis.cpp):
 * a forward analysis whose fact is the set of indices of the defining
 * instructions that may reach a program point. Nothing is ever killed.
 */
module Reaching {
  import opened Ir
  import opened IndexSets

  /** The fact the transfer function puts on every outgoing edge of `run[0]`:
    * a value-defining instruction adds its own index, a run of phis adds the
    * index of each of its phis, and any other instruction passes the joined
    * fact through. */
  function RdOut(joined: set<nat>, run: seq<Instr>): (r: set<nat>)
    requires |run| > 0
    ensures joined <= r
    ensures r - joined <= {run[0].index} + Indices(run[..PhiRunLength(run)])
  {
    var instr := run[0];
    if DefinesValue(instr.op) then joined + {instr.index}
    else if instr.op == Phi then joined + Indices(run[..PhiRunLength(run)])
    else joined
  }

  /** The loop that joins the fact of every incoming edge into `combineInfo`,
    * starting from the empty fact. */
  method JoinIncoming(incoming: seq<nat>, edgeToInfo: map<Edge, set<nat>>, idx: nat)
    returns (combineInfo: set<nat>)
    requires EdgesPresent(edgeToInfo, incoming, idx)
    ensures combineInfo == JoinedIncoming(edgeToInfo, incoming, idx)
  {
    combineInfo := {};
    for k := 0 to |incoming|
      invariant combineInfo == JoinedIncoming(edgeToInfo, incoming[..k], idx)
    {
      assert incoming[..k + 1][..k] == incoming[..k];
      combineInfo := Join(combineInfo, edgeToInfo[(incoming[k], idx)]);
    }
    assert incoming[..|incoming|] == incoming;
  }

  /** The `while (isa<PHINode>(I))` walk that joins the index of every phi of
    * the run into `combineInfo`. */
  method JoinPhiRun(joined: set<nat>, run: seq<Instr>) returns (combineInfo: set<nat>)
    ensures combineInfo == joined + Indices(run[..PhiRunLength(run)])
  {
    combineInfo := joined;
    var p := 0;
    while p < |run| && run[p].op == Phi
      invariant p <= PhiRunLength(run)
      invariant combineInfo == joined + Indices(run[..p])
    {
      IndicesStep(run, p);
      combineInfo := Join(combineInfo, {run[p].index});
      p := p + 1;
    }
  }

  /** `flowfunction`: joins the facts of the incoming edges of `run[0]` and
    * returns `|outgoing|` copies of the result. */
  method FlowFunction(run: seq<Instr>, incoming: seq<nat>, outgoing: seq<nat>, edgeToInfo: map<Edge, set<nat>>)
    returns (infos: seq<set<nat>>)
    requires |run| > 0
    requires EdgesPresent(edgeToInfo, incoming, run[0].index)
    ensures |infos| == |outgoing|
    ensures forall j :: 0 <= j < |outgoing| ==>
              infos[j] == RdOut(JoinedIncoming(edgeToInfo, incoming, run[0].index), run)
  {
    var instr := run[0];
    var idx := instr.index;
    var combineInfo := JoinIncoming(incoming, edgeToInfo, idx);
    if DefinesValue(instr.op) {
      combineInfo := Join(combineInfo, {idx});
    } else if instr.op == Phi {
      combineInfo := JoinPhiRun(combineInfo, run);
    }
    infos := Copies(combineInfo, |outgoing|);
  }

  /** The transfer only grows the fact, and whatever it adds is the index of
    * `run[0]` or of a phi of its run. */
  lemma OnlyGrows(joined: set<nat>, run: seq<Instr>)
    requires |run| > 0
    ensures joined <= RdOut(joined, run)
    ensures forall x :: x in RdOut(joined, run) && x !in joined ==>
              x == run[0].index || exists p :: 0 <= p < PhiRunLength(run) && run[p].index == x
  {
    assert forall p :: 0 <= p < PhiRunLength(run) ==> run[..PhiRunLength(run)][p] == run[p];
  }

  /** A value-defining instruction generates exactly its own index. */
  lemma DefGen(joined: set<nat>, run: seq<Instr>)
    requires |run| > 0 && DefinesValue(run[0].op)
    ensures forall x :: x in RdOut(joined, run) <==> x in joined || x == run[0].index
  {
  }

  /** A run of phis generates exactly the indices of its phis. */
  lemma PhiRunGen(joined: set<nat>, run: seq<Instr>)
    requires |run| > 0 && run[0].op == Phi
    ensures forall x :: x in RdOut(joined, run) <==>
              x in joined || exists p :: 0 <= p < PhiRunLength(run) && run[p].index == x
  {
    assert forall p :: 0 <= p < PhiRunLength(run) ==> run[..PhiRunLength(run)][p] == run[p];
  }

  /** Any other instruction passes the joined fact through unchanged. */
  lemma OtherPassesThrough(joined: set<nat>, run: seq<Instr>)
    requires |run| > 0 && !DefinesValue(run[0].op) && run[0].op != Phi
    ensures RdOut(joined, run) == joined
  {
  }

  /** The transfer function is monotone in the joined fact. */
  lemma RdOutMonotone(joined1: set<nat>, joined2: set<nat>, run: seq<Instr>)
    requires |run| > 0 && joined1 <= joined2
    ensures RdOut(joined1, run) <= RdOut(joined2, run)
  {
  }

  /** `%1 = add ...; %2 = add %1, %1` from an empty fact: `{%1}` reaches `%2`,
    * and `{%1, %2}` holds after it. */
  lemma StraightLineExample()
    ensures var first := Instr(1, Add, [External, External], []);
            var second := Instr(2, Add, [Tracked(1), Tracked(1)], []);
            var atSecond := RdOut({}, [first, second]);
            atSecond == {1} && RdOut(atSecond, [second]) == {1, 2}
  {
  }
}
