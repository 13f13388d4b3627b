/**
 * The part of the LLVM IR and of the dataflow engine that the three transfer
 * functions of Passes/DFA read.
 *
 * Every instruction of the analysed function carries the index that the
 * engine's numbering gave it. An operand is either the result of such an
 * instruction (`Tracked`) or a value the analyses do not number at all: an
 * argument, a constant, a global (`External`). This replaces the
 * `InstrToIndex.find(v) != InstrToIndex.end()` tests of the passes.
 */
module Ir {

  /** The opcodes the transfer functions tell apart; every other one is `Other`. */
  datatype Opcode =
    | Add | FAdd | Sub | FSub | Mul | FMul | UDiv | SDiv | FDiv | URem | SRem | FRem
    | Shl | LShr | AShr | And | Or | Xor
    | Alloca | Load | GetElementPtr | ICmp | FCmp | Select
    | Phi | BitCast | Store | Br | Ret | Call | Other

  datatype Operand = Tracked(idx: nat) | External

  /** One incoming pair of a phi: the value, and the index of the terminator
    * of the block it comes from. */
  datatype PhiIncoming = PhiIncoming(value: Operand, predTerminator: nat)

  /** An instruction: its index, its opcode, its operands in LLVM order and,
    * for a phi, its incoming pairs. */
  datatype Instr = Instr(index: nat, op: Opcode, operands: seq<Operand>, incoming: seq<PhiIncoming>)

  /** A control-flow edge (from, to) between two instruction indices: the key
    * under which the engine stores a fact. */
  type Edge = (nat, nat)

  /** The opcodes Liveness kills and Reaching generates at: the value-defining
    * list the two passes spell out string by string. It leaves out phi,
    * which both passes treat as a run of their own, and bitcast and store,
    * which fall to the pass-through branch. */
  function DefinesValue(op: Opcode): (r: bool)
    ensures r ==> op != Phi && op != BitCast && op != Store
    ensures op in {Alloca, Load, GetElementPtr, Select} ==> r
  {
    match op
    case Add | FAdd | Sub | FSub | Mul | FMul | UDiv | SDiv | FDiv | URem | SRem | FRem => true
    case Shl | LShr | AShr | And | Or | Xor => true
    case Alloca | Load | GetElementPtr | ICmp | FCmp | Select => true
    case _ => false
  }

  /** The operands the may-point-to rules read exist: LLVM guarantees them for
    * every instruction of these kinds. */
  predicate WellFormed(instr: Instr)
  {
    match instr.op
    case BitCast | GetElementPtr | Load => |instr.operands| >= 1
    case Store => |instr.operands| >= 2
    case Select => |instr.operands| >= 3
    case _ => true
  }

  /** Every fact the transfer function reads is in the engine's edge map. */
  predicate EdgesPresent<T>(edgeToInfo: map<Edge, T>, incoming: seq<nat>, idx: nat)
  {
    forall e :: e in incoming ==> (e, idx) in edgeToInfo
  }

  /** The indices of the operands that are instructions of the function. */
  function TrackedIndices(ops: seq<Operand>): (r: set<nat>)
    ensures forall v :: v in r <==> Tracked(v) in ops
    decreases |ops|
  {
    if |ops| == 0 then {}
    else
      var last := ops[|ops| - 1];
      assert ops == ops[..|ops| - 1] + [last];
      TrackedIndices(ops[..|ops| - 1]) + (if last.Tracked? then {last.idx} else {})
  }

  /** The length of the run of phis that starts at `run[0]`: the `getNextNode`
    * walk that stops at the first instruction that is not a phi. `run` is an
    * instruction followed by the rest of its basic block. */
  function PhiRunLength(run: seq<Instr>): (n: nat)
    ensures n <= |run|
    ensures forall k :: 0 <= k < n ==> run[k].op == Phi
    ensures n < |run| ==> run[n].op != Phi
    decreases |run|
  {
    if |run| == 0 || run[0].op != Phi then 0 else 1 + PhiRunLength(run[1..])
  }

  /** The indices of the instructions in `phis`. */
  function Indices(phis: seq<Instr>): (r: set<nat>)
    ensures forall v :: v in r <==> exists p :: 0 <= p < |phis| && phis[p].index == v
    decreases |phis|
  {
    if |phis| == 0 then {}
    else
      var n := |phis| - 1;
      assert forall p :: 0 <= p < n ==> phis[..n][p] == phis[p];
      Indices(phis[..n]) + {phis[n].index}
  }

  /** One more step of a phi walk adds the index of the phi it reaches. */
  lemma IndicesStep(run: seq<Instr>, p: nat)
    requires p < |run|
    ensures Indices(run[..p + 1]) == Indices(run[..p]) + {run[p].index}
  {
    assert run[..p + 1][..p] == run[..p];
  }

  /** `count` copies of `fact`: the loop that pushes one copy per outgoing
    * edge onto `Infos`, shared by the three transfer functions. */
  method Copies<T>(fact: T, count: nat) returns (infos: seq<T>)
    ensures |infos| == count
    ensures forall j :: 0 <= j < count ==> infos[j] == fact
  {
    infos := [];
    for i := 0 to count
      invariant |infos| == i
      invariant forall j :: 0 <= j < i ==> infos[j] == fact
    {
      infos := infos + [fact];
    }
  }
}
