/**
 * May-point-to analysis (Passes/DFA/MayPointToAnalysis.cpp): a forward
 * analysis whose fact is a pair of maps. `pointerMap` sends the index of a
 * pointer-valued instruction to the memory locations it may point to, and
 * `memPointerMap` sends a location to the locations that may have been stored
 * into it. A location is named by the index of the `alloca` that created it.
 */
module MayPointTo {
  import opened Ir
  import IndexSets

  type PointsToMap = map<nat, set<nat>>

  /** The value of a MayPointToInfo object. */
  datatype PointsTo = PointsTo(pointerMap: PointsToMap, memPointerMap: PointsToMap)

  /** The set stored under `k`, or the empty set when `k` is not a key. */
  function Lookup(m: PointsToMap, k: nat): set<nat>
  {
    if k in m then m[k] else {}
  }

  /** No key is mapped to the empty set: the printer relies on it. */
  predicate NoEmptyPointee(m: PointsToMap)
  {
    forall k :: k in m ==> m[k] != {}
  }

  predicate Consistent(info: PointsTo)
  {
    NoEmptyPointee(info.pointerMap) && NoEmptyPointee(info.memPointerMap)
  }

  /** Pointwise inclusion: every key of `m1` is a key of `m2`, with a superset. */
  predicate Below(m1: PointsToMap, m2: PointsToMap)
  {
    forall k :: k in m1 ==> k in m2 && m1[k] <= m2[k]
  }

  predicate InfoBelow(a: PointsTo, b: PointsTo)
  {
    Below(a.pointerMap, b.pointerMap) && Below(a.memPointerMap, b.memPointerMap)
  }

  /** Comparison of two `std::map`s: the same size, then the same pairs. It
    * holds exactly when the maps are equal. */
  function MapEquals(m1: PointsToMap, m2: PointsToMap): (r: bool)
    ensures r <==> m1 == m2
  {
    if |m1| == |m2| && forall k :: k in m1 ==> k in m2 && m1[k] == m2[k] then
      assert |m1.Keys| == |m1| && |m2.Keys| == |m2|;
      IndexSets.SubsetOfSameSize(m1.Keys, m2.Keys);
      assert m1 == m2;
      true
    else
      false
  }

  /** `equals`: both maps are structurally equal. */
  function Equals(info1: PointsTo, info2: PointsTo): (r: bool)
    ensures r <==> info1 == info2
  {
    MapEquals(info1.pointerMap, info2.pointerMap) && MapEquals(info1.memPointerMap, info2.memPointerMap)
  }

  /** The union of two maps: a key of only one map keeps its set, a key of
    * both gets the union of its two sets. */
  function MapJoin(m1: PointsToMap, m2: PointsToMap): (r: PointsToMap)
    ensures r.Keys == m1.Keys + m2.Keys
  {
    map k | k in m1.Keys + m2.Keys :: if k !in m2 then m1[k] else if k !in m1 then m2[k] else m1[k] + m2[k]
  }

  /** `join`: pointwise union on both maps; both inputs lie below the result. */
  function Join(info1: PointsTo, info2: PointsTo): (r: PointsTo)
    ensures InfoBelow(info1, r) && InfoBelow(info2, r)
  {
    PointsTo(MapJoin(info1.pointerMap, info2.pointerMap), MapJoin(info1.memPointerMap, info2.memPointerMap))
  }

  /** `join` is the least upper bound of pointwise inclusion. */
  lemma JoinLeast(a: PointsTo, b: PointsTo, c: PointsTo)
    requires InfoBelow(a, c) && InfoBelow(b, c)
    ensures InfoBelow(Join(a, b), c)
  {
  }

  /** Two maps with the same keys and the same set under every key are equal. */
  lemma MapsEqual(m1: PointsToMap, m2: PointsToMap)
    requires m1.Keys == m2.Keys
    requires forall k :: k in m1 ==> m1[k] == m2[k]
    ensures m1 == m2
  {
  }

  lemma MapJoinAt(m1: PointsToMap, m2: PointsToMap, k: nat)
    ensures Lookup(MapJoin(m1, m2), k) == Lookup(m1, k) + Lookup(m2, k)
  {
  }

  lemma MapJoinCommutes(m1: PointsToMap, m2: PointsToMap)
    ensures MapJoin(m1, m2) == MapJoin(m2, m1)
  {
    MapsEqual(MapJoin(m1, m2), MapJoin(m2, m1));
  }

  lemma MapJoinAssociatesAt(m1: PointsToMap, m2: PointsToMap, m3: PointsToMap, k: nat)
    ensures Lookup(MapJoin(MapJoin(m1, m2), m3), k) == Lookup(MapJoin(m1, MapJoin(m2, m3)), k)
  {
    MapJoinAt(m1, m2, k);
    MapJoinAt(m2, m3, k);
    MapJoinAt(MapJoin(m1, m2), m3, k);
    MapJoinAt(m1, MapJoin(m2, m3), k);
  }

  lemma MapJoinAssociates(m1: PointsToMap, m2: PointsToMap, m3: PointsToMap)
    ensures MapJoin(MapJoin(m1, m2), m3) == MapJoin(m1, MapJoin(m2, m3))
  {
    var left, right := MapJoin(MapJoin(m1, m2), m3), MapJoin(m1, MapJoin(m2, m3));
    assert left.Keys == right.Keys;
    forall k | k in left
      ensures left[k] == right[k]
    {
      MapJoinAssociatesAt(m1, m2, m3, k);
    }
    MapsEqual(left, right);
  }

  lemma MapJoinIdempotent(m: PointsToMap)
    ensures MapJoin(m, m) == m
  {
    MapsEqual(MapJoin(m, m), m);
  }

  /** `join` is commutative, associative and idempotent. */
  lemma JoinLaws(a: PointsTo, b: PointsTo, c: PointsTo)
    ensures Join(a, b) == Join(b, a)
    ensures Join(Join(a, b), c) == Join(a, Join(b, c))
    ensures Join(a, a) == a
  {
    MapJoinCommutes(a.pointerMap, b.pointerMap);
    MapJoinCommutes(a.memPointerMap, b.memPointerMap);
    assert Join(a, b) == Join(b, a);
    MapJoinAssociates(a.pointerMap, b.pointerMap, c.pointerMap);
    MapJoinAssociates(a.memPointerMap, b.memPointerMap, c.memPointerMap);
    assert Join(Join(a, b), c) == Join(a, Join(b, c));
    MapJoinIdempotent(a.pointerMap);
    MapJoinIdempotent(a.memPointerMap);
  }

  /** `join` never creates a key with an empty set. */
  lemma JoinKeepsConsistent(a: PointsTo, b: PointsTo)
    requires Consistent(a) && Consistent(b)
    ensures Consistent(Join(a, b))
  {
  }

  /** A MayPointToInfo object: the two maps the transfer function updates in place. */
  class MayPointToInfo {
    var pointerMap: PointsToMap
    var memPointerMap: PointsToMap

    predicate Valid()
      reads this
    {
      NoEmptyPointee(pointerMap) && NoEmptyPointee(memPointerMap)
    }

    function Value(): PointsTo
      reads this
    {
      PointsTo(pointerMap, memPointerMap)
    }

    constructor ()
      ensures pointerMap == map[] && memPointerMap == map[]
      ensures Valid()
    {
      pointerMap, memPointerMap := map[], map[];
    }

    /** `MayPointToInfo(pointer, pointee)`: the single fact `pointer -> {pointee}`. */
    constructor Points(pointer: nat, pointee: nat)
      ensures pointerMap == map[pointer := {pointee}] && memPointerMap == map[]
      ensures Valid()
    {
      pointerMap, memPointerMap := map[pointer := {pointee}], map[];
    }

    method SetInfo(newPointerMap: PointsToMap)
      modifies this
      ensures pointerMap == newPointerMap && memPointerMap == old(memPointerMap)
    {
      pointerMap := newPointerMap;
    }

    method SetMemInfo(newMemPointerMap: PointsToMap)
      modifies this
      ensures memPointerMap == newMemPointerMap && pointerMap == old(pointerMap)
    {
      memPointerMap := newMemPointerMap;
    }

    /** `insert(pointer, pointee)`: `pointee` joins the set of `pointer`, which
      * is created as a singleton when `pointer` is not yet a key; no other
      * key, and not the memory map, changes. */
    method Insert(pointer: nat, pointee: nat)
      modifies this
      ensures pointerMap == old(pointerMap)[pointer := Lookup(old(pointerMap), pointer) + {pointee}]
      ensures memPointerMap == old(memPointerMap)
      ensures old(Valid()) ==> Valid()
    {
      if pointer !in pointerMap {
        assert Lookup(pointerMap, pointer) + {pointee} == {pointee};
        pointerMap := pointerMap[pointer := {pointee}];
      } else {
        pointerMap := pointerMap[pointer := pointerMap[pointer] + {pointee}];
      }
    }

    /** `insertStore(memPointer, memPointee)`: the same on the memory map only. */
    method InsertStore(memPointer: nat, memPointee: nat)
      modifies this
      ensures memPointerMap == old(memPointerMap)[memPointer := Lookup(old(memPointerMap), memPointer) + {memPointee}]
      ensures pointerMap == old(pointerMap)
      ensures old(Valid()) ==> Valid()
    {
      if memPointer !in memPointerMap {
        assert Lookup(memPointerMap, memPointer) + {memPointee} == {memPointee};
        memPointerMap := memPointerMap[memPointer := {memPointee}];
      } else {
        memPointerMap := memPointerMap[memPointer := memPointerMap[memPointer] + {memPointee}];
      }
    }
  }

  // ---------------------------------------------------------------------
  // The rules, stated on values
  // ---------------------------------------------------------------------

  /** `m` after `insert(k, x)` for every `x` of `s`, in any order: an empty `s`
    * creates no key. */
  function AddPointees(m: PointsToMap, k: nat, s: set<nat>): PointsToMap
  {
    if s == {} then m else m[k := Lookup(m, k) + s]
  }

  /** The points-to set of operand `o`, when `o` is tracked and is a key;
    * otherwise nothing. */
  function Src(m: PointsToMap, o: Operand): set<nat>
  {
    if o.Tracked? && o.idx in m then m[o.idx] else {}
  }

  /** Everything stored at any location of `locations`. */
  function StoredAt(mem: PointsToMap, locations: set<nat>): set<nat>
  {
    set x, y | x in locations && x in mem && y in mem[x] :: y
  }

  /** What a load through `address` may produce: the two-hop lookup. */
  function Loaded(info: PointsTo, address: Operand): set<nat>
  {
    StoredAt(info.memPointerMap, Src(info.pointerMap, address))
  }

  /** `mem` after `insertStore(y, x)` for every `x` of `values` and every `y`
    * of `targets`. */
  function StoreAll(mem: PointsToMap, targets: set<nat>, values: set<nat>): PointsToMap
  {
    if values == {} then mem
    else map k | k in mem.Keys + targets :: Lookup(mem, k) + (if k in targets then values else {})
  }

  /** The union of the points-to sets of the incoming values of `pairs`. */
  function IncomingSources(m: PointsToMap, pairs: seq<PhiIncoming>): (r: set<nat>)
    ensures forall x :: x in r <==> exists i :: 0 <= i < |pairs| && x in Src(m, pairs[i].value)
    decreases |pairs|
  {
    if |pairs| == 0 then {}
    else
      var n := |pairs| - 1;
      assert forall i :: 0 <= i < n ==> pairs[..n][i] == pairs[i];
      IncomingSources(m, pairs[..n]) + Src(m, pairs[n].value)
  }

  /** The union of the points-to sets of the incoming values of every phi of
    * `phis`. */
  function PhiSources(m: PointsToMap, phis: seq<Instr>): (r: set<nat>)
    ensures forall x :: x in r <==>
              exists p, i :: 0 <= p < |phis| && 0 <= i < |phis[p].incoming| && x in Src(m, phis[p].incoming[i].value)
    decreases |phis|
  {
    if |phis| == 0 then {}
    else
      var n := |phis| - 1;
      assert forall p :: 0 <= p < n ==> phis[..n][p] == phis[p];
      PhiSources(m, phis[..n]) + IncomingSources(m, phis[n].incoming)
  }

  /** The fact the transfer function puts on every outgoing edge of `run[0]`,
    * given the joined incoming fact. */
  function Transfer(info: PointsTo, run: seq<Instr>): (r: PointsTo)
    requires |run| > 0 && WellFormed(run[0])
    ensures run[0].op != Store ==> r.memPointerMap == info.memPointerMap
    ensures run[0].op == Store ==> r.pointerMap == info.pointerMap
    ensures forall k :: k != run[0].index ==> Lookup(r.pointerMap, k) == Lookup(info.pointerMap, k)
  {
    var instr := run[0];
    var idx := instr.index;
    var pts := info.pointerMap;
    match instr.op
    case Alloca => info.(pointerMap := AddPointees(pts, idx, {idx}))
    case BitCast => info.(pointerMap := AddPointees(pts, idx, Src(pts, instr.operands[0])))
    case GetElementPtr => info.(pointerMap := AddPointees(pts, idx, Src(pts, instr.operands[0])))
    case Load => info.(pointerMap := AddPointees(pts, idx, Loaded(info, instr.operands[0])))
    case Store =>
      info.(memPointerMap := StoreAll(info.memPointerMap, Src(pts, instr.operands[1]), Src(pts, instr.operands[0])))
    case Select => info.(pointerMap := AddPointees(pts, idx, Src(pts, instr.operands[1]) + Src(pts, instr.operands[2])))
    case Phi => info.(pointerMap := AddPointees(pts, idx, PhiSources(pts, run[..PhiRunLength(run)])))
    case _ => info
  }

  /** The load rule as the code is written: the lookup goes through `garbage`,
    * the uninitialised local `Rv`, instead of the pointer operand. Every other
    * opcode is as in `Transfer`. */
  function TransferAsWritten(info: PointsTo, run: seq<Instr>, garbage: Operand): (r: PointsTo)
    requires |run| > 0 && WellFormed(run[0])
    ensures r.memPointerMap == Transfer(info, run).memPointerMap
    ensures forall k :: k != run[0].index ==> Lookup(r.pointerMap, k) == Lookup(Transfer(info, run).pointerMap, k)
  {
    if run[0].op == Load then info.(pointerMap := AddPointees(info.pointerMap, run[0].index, Loaded(info, garbage)))
    else Transfer(info, run)
  }

  // ---------------------------------------------------------------------
  // Lemmas that connect the loops of the code to the rules
  // ---------------------------------------------------------------------

  lemma AddPointeesCompose(m: PointsToMap, k: nat, a: set<nat>, b: set<nat>)
    ensures AddPointees(AddPointees(m, k, a), k, b) == AddPointees(m, k, a + b)
  {
    if a == {} {
      assert a + b == b;
    } else if b == {} {
      assert a + b == a;
    } else {
      var cur := AddPointees(m, k, a);
      assert Lookup(cur, k) + b == Lookup(m, k) + (a + b);
      MapsEqual(cur[k := Lookup(cur, k) + b], m[k := Lookup(m, k) + (a + b)]);
    }
  }

  lemma InsertIsAddPointees(m: PointsToMap, k: nat, x: nat)
    ensures m[k := Lookup(m, k) + {x}] == AddPointees(m, k, {x})
  {
  }

  /** Adding the set stored under `k` to `k` again changes nothing. */
  lemma AddOwnPointees(m: PointsToMap, k: nat)
    requires k in m
    ensures AddPointees(m, k, m[k]) == m
  {
    if m[k] != {} {
      assert Lookup(m, k) + m[k] == m[k];
      MapsEqual(m[k := m[k]], m);
    }
  }

  /** Adding the current points-to set of `o` after `a` has been added is the
    * same as adding `a` and the original set of `o`: only `k` changed, and
    * adding `k`'s own set to `k` is a no-op. */
  lemma AddFromStep(m: PointsToMap, k: nat, a: set<nat>, o: Operand)
    ensures var cur := AddPointees(m, k, a);
            AddPointees(cur, k, Src(cur, o)) == AddPointees(m, k, a + Src(m, o))
  {
    var cur := AddPointees(m, k, a);
    if o.Tracked? && o.idx == k {
      if k in cur {
        AddOwnPointees(cur, k);
      } else {
        assert Src(cur, o) == {};
      }
      if k in m {
        if a == {} {
          assert a + m[k] == m[k];
          AddOwnPointees(m, k);
        } else {
          assert Lookup(m, k) + (a + m[k]) == Lookup(m, k) + a;
        }
      } else {
        assert a + Src(m, o) == a;
      }
    } else {
      assert Src(cur, o) == Src(m, o);
      AddPointeesCompose(m, k, a, Src(m, o));
    }
  }

  lemma StoredAtStep(mem: PointsToMap, locations: set<nat>, x: nat)
    ensures StoredAt(mem, locations + {x}) == StoredAt(mem, locations) + Lookup(mem, x)
  {
    forall y | y in StoredAt(mem, locations + {x})
      ensures y in StoredAt(mem, locations) + Lookup(mem, x)
    {
      var x' :| x' in locations + {x} && x' in mem && y in mem[x'];
      if x' != x {
        assert y in StoredAt(mem, locations);
      }
    }
  }

  lemma StoreAllEmptyTargets(mem: PointsToMap, values: set<nat>)
    ensures StoreAll(mem, {}, values) == mem
  {
    if values != {} {
      MapsEqual(StoreAll(mem, {}, values), mem);
    }
  }

  lemma StoreAllOne(mem: PointsToMap, done: set<nat>, y: nat, x: nat)
    ensures var cur := StoreAll(mem, done, {x});
            cur[y := Lookup(cur, y) + {x}] == StoreAll(mem, done + {y}, {x})
  {
    var cur := StoreAll(mem, done, {x});
    var next := StoreAll(mem, done + {y}, {x});
    MapsEqual(cur[y := Lookup(cur, y) + {x}], next);
  }

  lemma StoreAllCompose(mem: PointsToMap, targets: set<nat>, values: set<nat>, x: nat)
    ensures StoreAll(StoreAll(mem, targets, values), targets, {x}) == StoreAll(mem, targets, values + {x})
  {
    var left := StoreAll(StoreAll(mem, targets, values), targets, {x});
    var right := StoreAll(mem, targets, values + {x});
    if values == {} {
      assert values + {x} == {x};
    } else {
      MapsEqual(left, right);
    }
  }

  // ---------------------------------------------------------------------
  // The loops of flowfunction
  // ---------------------------------------------------------------------

  /** `for (auto pointee : pointees) info->insert(pointer, pointee)`. */
  method InsertAll(info: MayPointToInfo, pointer: nat, pointees: set<nat>)
    modifies info
    ensures info.pointerMap == AddPointees(old(info.pointerMap), pointer, pointees)
    ensures info.memPointerMap == old(info.memPointerMap)
  {
    ghost var start := info.pointerMap;
    var rest := pointees;
    while rest != {}
      invariant rest <= pointees
      invariant info.pointerMap == AddPointees(start, pointer, pointees - rest)
      invariant info.memPointerMap == old(info.memPointerMap)
      decreases rest
    {
      var pointee :| pointee in rest;
      InsertIsAddPointees(info.pointerMap, pointer, pointee);
      AddPointeesCompose(start, pointer, pointees - rest, {pointee});
      info.Insert(pointer, pointee);
      assert (pointees - rest) + {pointee} == pointees - (rest - {pointee});
      rest := rest - {pointee};
    }
    assert pointees - rest == pointees;
  }

  /** The block shared by bitcast, getelementptr, select and phi: when `source`
    * is tracked and has a points-to set, copy that set into `pointer`'s. */
  method AddFrom(info: MayPointToInfo, pointer: nat, source: Operand)
    modifies info
    ensures info.pointerMap == AddPointees(old(info.pointerMap), pointer, Src(old(info.pointerMap), source))
    ensures info.memPointerMap == old(info.memPointerMap)
  {
    if source.Tracked? && source.idx in info.pointerMap {
      var pointeeSet := info.pointerMap[source.idx];
      InsertAll(info, pointer, pointeeSet);
    }
  }

  /** The load rule with the pointer operand as its address: everything
    * stored at a location `address` may point to joins `pointer`'s set. */
  method LoadThrough(info: MayPointToInfo, pointer: nat, address: Operand)
    modifies info
    ensures info.pointerMap == AddPointees(old(info.pointerMap), pointer, Loaded(old(info.Value()), address))
    ensures info.memPointerMap == old(info.memPointerMap)
  {
    ghost var start := info.Value();
    if address.Tracked? && address.idx in info.pointerMap {
      var pointeeSet1 := info.pointerMap[address.idx];
      var rest := pointeeSet1;
      while rest != {}
        invariant rest <= pointeeSet1
        invariant info.pointerMap == AddPointees(start.pointerMap, pointer, StoredAt(start.memPointerMap, pointeeSet1 - rest))
        invariant info.memPointerMap == start.memPointerMap
        decreases rest
      {
        var x :| x in rest;
        StoredAtStep(start.memPointerMap, pointeeSet1 - rest, x);
        AddPointeesCompose(start.pointerMap, pointer, StoredAt(start.memPointerMap, pointeeSet1 - rest), Lookup(start.memPointerMap, x));
        if x in info.memPointerMap {
          var pointeeSet2 := info.memPointerMap[x];
          InsertAll(info, pointer, pointeeSet2);
        }
        assert (pointeeSet1 - rest) + {x} == pointeeSet1 - (rest - {x});
        rest := rest - {x};
      }
      assert pointeeSet1 - rest == pointeeSet1;
    }
  }

  /** The store rule: every location `value` may point to may be stored at
    * every location `address` may point to. */
  method StoreThrough(info: MayPointToInfo, value: Operand, address: Operand)
    modifies info
    ensures info.memPointerMap == StoreAll(old(info.memPointerMap), Src(old(info.pointerMap), address), Src(old(info.pointerMap), value))
    ensures info.pointerMap == old(info.pointerMap)
  {
    ghost var start := info.memPointerMap;
    if value.Tracked? && address.Tracked? && value.idx in info.pointerMap && address.idx in info.pointerMap {
      var pointeeSet1 := info.pointerMap[value.idx];
      var pointeeSet2 := info.pointerMap[address.idx];
      var restX := pointeeSet1;
      while restX != {}
        invariant restX <= pointeeSet1
        invariant info.memPointerMap == StoreAll(start, pointeeSet2, pointeeSet1 - restX)
        invariant info.pointerMap == old(info.pointerMap)
        decreases restX
      {
        var x :| x in restX;
        ghost var before := info.memPointerMap;
        var restY := pointeeSet2;
        StoreAllEmptyTargets(before, {x});
        while restY != {}
          invariant restY <= pointeeSet2
          invariant info.memPointerMap == StoreAll(before, pointeeSet2 - restY, {x})
          invariant info.pointerMap == old(info.pointerMap)
          decreases restY
        {
          var y :| y in restY;
          StoreAllOne(before, pointeeSet2 - restY, y, x);
          info.InsertStore(y, x);
          assert (pointeeSet2 - restY) + {y} == pointeeSet2 - (restY - {y});
          restY := restY - {y};
        }
        assert pointeeSet2 - restY == pointeeSet2;
        StoreAllCompose(start, pointeeSet2, pointeeSet1 - restX, x);
        assert (pointeeSet1 - restX) + {x} == pointeeSet1 - (restX - {x});
        restX := restX - {x};
      }
      assert pointeeSet1 - restX == pointeeSet1;
    } else {
      assert Src(old(info.pointerMap), address) == {} || Src(old(info.pointerMap), value) == {};
      StoreAllEmptyTargets(start, Src(old(info.pointerMap), value));
    }
  }

  /** The loop over one phi's incoming values, each copied into the set of
    * `pointer`; `done` is what the earlier phis of the run added. */
  method AddIncomingSources(info: MayPointToInfo, pointer: nat, pairs: seq<PhiIncoming>,
                            ghost start: PointsToMap, ghost done: set<nat>)
    requires info.pointerMap == AddPointees(start, pointer, done)
    modifies info
    ensures info.pointerMap == AddPointees(start, pointer, done + IncomingSources(start, pairs))
    ensures info.memPointerMap == old(info.memPointerMap)
  {
    assert done + IncomingSources(start, pairs[..0]) == done;
    for i := 0 to |pairs|
      invariant info.pointerMap == AddPointees(start, pointer, done + IncomingSources(start, pairs[..i]))
      invariant info.memPointerMap == old(info.memPointerMap)
    {
      var rv := pairs[i].value;
      assert pairs[..i + 1][..i] == pairs[..i];
      AddFromStep(start, pointer, done + IncomingSources(start, pairs[..i]), rv);
      AddFrom(info, pointer, rv);
      assert done + IncomingSources(start, pairs[..i + 1]) == done + IncomingSources(start, pairs[..i]) + Src(start, rv);
    }
    assert pairs[..|pairs|] == pairs;
  }

  /** The `while (isa<PHINode>(I))` walk: every incoming value of every phi of
    * the run is copied into the set of `pointer`, the first phi's index. */
  method AddPhiSources(info: MayPointToInfo, pointer: nat, run: seq<Instr>)
    modifies info
    ensures info.pointerMap == AddPointees(old(info.pointerMap), pointer, PhiSources(old(info.pointerMap), run[..PhiRunLength(run)]))
    ensures info.memPointerMap == old(info.memPointerMap)
  {
    ghost var start := info.pointerMap;
    var p := 0;
    while p < |run| && run[p].op == Phi
      invariant p <= PhiRunLength(run)
      invariant info.pointerMap == AddPointees(start, pointer, PhiSources(start, run[..p]))
      invariant info.memPointerMap == old(info.memPointerMap)
    {
      assert run[..p + 1][..p] == run[..p];
      AddIncomingSources(info, pointer, run[p].incoming, start, PhiSources(start, run[..p]));
      p := p + 1;
    }
  }

  /** The fact `combineInfo` holds after the loop over the incoming edges of
    * instruction `idx`: the same fold as `IndexSets.JoinedIncoming`, over
    * pairs of maps instead of index sets. */
  function JoinedIncoming(edgeToInfo: map<Edge, PointsTo>, incoming: seq<nat>, idx: nat): (r: PointsTo)
    requires EdgesPresent(edgeToInfo, incoming, idx)
    ensures forall k :: 0 <= k < |incoming| ==>
              edgeToInfo[(incoming[k], idx)].pointerMap.Keys <= r.pointerMap.Keys
              && edgeToInfo[(incoming[k], idx)].memPointerMap.Keys <= r.memPointerMap.Keys
    decreases |incoming|
  {
    if |incoming| == 0 then PointsTo(map[], map[])
    else
      var n := |incoming| - 1;
      Join(JoinedIncoming(edgeToInfo, incoming[..n], idx), edgeToInfo[(incoming[n], idx)])
  }

  /** `flowfunction`: joins the facts of the incoming edges of `run[0]`,
    * applies the rule of its opcode, and returns `|outgoing|` copies. */
  method FlowFunction(run: seq<Instr>, incoming: seq<nat>, outgoing: seq<nat>, edgeToInfo: map<Edge, PointsTo>)
    returns (infos: seq<PointsTo>)
    requires |run| > 0 && WellFormed(run[0])
    requires EdgesPresent(edgeToInfo, incoming, run[0].index)
    ensures |infos| == |outgoing|
    ensures forall j :: 0 <= j < |outgoing| ==>
              infos[j] == Transfer(JoinedIncoming(edgeToInfo, incoming, run[0].index), run)
    ensures (forall k :: 0 <= k < |incoming| ==> Consistent(edgeToInfo[(incoming[k], run[0].index)]))
            ==> forall j :: 0 <= j < |outgoing| ==> Consistent(infos[j])
  {
    var instr := run[0];
    var idx := instr.index;
    var combineInfo := new MayPointToInfo();
    for k := 0 to |incoming|
      invariant combineInfo.Value() == JoinedIncoming(edgeToInfo, incoming[..k], idx)
    {
      assert incoming[..k + 1][..k] == incoming[..k];
      var joined := Join(combineInfo.Value(), edgeToInfo[(incoming[k], idx)]);
      combineInfo.SetInfo(joined.pointerMap);
      combineInfo.SetMemInfo(joined.memPointerMap);
    }
    assert incoming[..|incoming|] == incoming;
    ghost var joined := combineInfo.Value();

    match instr.op {
      case Alloca =>
        combineInfo.Insert(idx, idx);
      case BitCast =>
        AddFrom(combineInfo, idx, instr.operands[0]);
      case GetElementPtr =>
        AddFrom(combineInfo, idx, instr.operands[0]);
      case Load =>
        LoadThrough(combineInfo, idx, instr.operands[0]);
      case Store =>
        StoreThrough(combineInfo, instr.operands[0], instr.operands[1]);
      case Select =>
        AddFrom(combineInfo, idx, instr.operands[1]);
        AddFromStep(joined.pointerMap, idx, {}, instr.operands[1]);
        AddFromStep(joined.pointerMap, idx, Src(joined.pointerMap, instr.operands[1]), instr.operands[2]);
        AddFrom(combineInfo, idx, instr.operands[2]);
      case Phi =>
        AddPhiSources(combineInfo, idx, run);
      case _ =>
    }
    assert combineInfo.Value() == Transfer(joined, run);

    infos := Copies(combineInfo.Value(), |outgoing|);
    JoinedIncomingConsistentIf(edgeToInfo, incoming, idx);
    if Consistent(joined) {
      TransferKeepsConsistent(joined, run);
    }
  }

  // ---------------------------------------------------------------------
  // Properties of join and of the transfer function
  // ---------------------------------------------------------------------

  /** `join` is pointwise set union on both maps, over the union of the keys. */
  lemma JoinIsPointwiseUnion(a: PointsTo, b: PointsTo)
    ensures Join(a, b).pointerMap.Keys == a.pointerMap.Keys + b.pointerMap.Keys
    ensures Join(a, b).memPointerMap.Keys == a.memPointerMap.Keys + b.memPointerMap.Keys
    ensures forall k :: Lookup(Join(a, b).pointerMap, k) == Lookup(a.pointerMap, k) + Lookup(b.pointerMap, k)
    ensures forall k :: Lookup(Join(a, b).memPointerMap, k) == Lookup(a.memPointerMap, k) + Lookup(b.memPointerMap, k)
  {
    forall k
      ensures Lookup(Join(a, b).pointerMap, k) == Lookup(a.pointerMap, k) + Lookup(b.pointerMap, k)
      ensures Lookup(Join(a, b).memPointerMap, k) == Lookup(a.memPointerMap, k) + Lookup(b.memPointerMap, k)
    {
      MapJoinAt(a.pointerMap, b.pointerMap, k);
      MapJoinAt(a.memPointerMap, b.memPointerMap, k);
    }
  }

  /** The joined incoming fact lies above the fact of every incoming edge. */
  lemma {:induction false} JoinedIncomingAbove(edgeToInfo: map<Edge, PointsTo>, incoming: seq<nat>, idx: nat)
    requires EdgesPresent(edgeToInfo, incoming, idx)
    ensures forall k :: 0 <= k < |incoming| ==> InfoBelow(edgeToInfo[(incoming[k], idx)], JoinedIncoming(edgeToInfo, incoming, idx))
  {
    if |incoming| > 0 {
      var n := |incoming| - 1;
      var prefix := incoming[..n];
      JoinedIncomingAbove(edgeToInfo, prefix, idx);
      var before := JoinedIncoming(edgeToInfo, prefix, idx);
      var joined := JoinedIncoming(edgeToInfo, incoming, idx);
      assert InfoBelow(before, joined);
      forall k | 0 <= k < n
        ensures InfoBelow(edgeToInfo[(incoming[k], idx)], joined)
      {
        assert incoming[k] == prefix[k];
        InfoBelowTransitive(edgeToInfo[(incoming[k], idx)], before, joined);
      }
    }
  }

  /** The joined incoming fact lies below every fact that lies above all the
    * incoming facts: the fold adds no key and no pointee of its own. */
  lemma {:induction false} JoinedIncomingLeast(edgeToInfo: map<Edge, PointsTo>, incoming: seq<nat>, idx: nat, c: PointsTo)
    requires EdgesPresent(edgeToInfo, incoming, idx)
    requires forall k :: 0 <= k < |incoming| ==> InfoBelow(edgeToInfo[(incoming[k], idx)], c)
    ensures InfoBelow(JoinedIncoming(edgeToInfo, incoming, idx), c)
  {
    if |incoming| > 0 {
      var n := |incoming| - 1;
      var prefix := incoming[..n];
      assert forall k :: 0 <= k < n ==> prefix[k] == incoming[k];
      JoinedIncomingLeast(edgeToInfo, prefix, idx, c);
      JoinLeast(JoinedIncoming(edgeToInfo, prefix, idx), edgeToInfo[(incoming[n], idx)], c);
    }
  }

  lemma InfoBelowTransitive(a: PointsTo, b: PointsTo, c: PointsTo)
    requires InfoBelow(a, b) && InfoBelow(b, c)
    ensures InfoBelow(a, c)
  {
  }

  /** The joined incoming fact has no empty set when no incoming fact has one. */
  lemma {:induction false} JoinedIncomingConsistent(edgeToInfo: map<Edge, PointsTo>, incoming: seq<nat>, idx: nat)
    requires EdgesPresent(edgeToInfo, incoming, idx)
    requires forall k :: 0 <= k < |incoming| ==> Consistent(edgeToInfo[(incoming[k], idx)])
    ensures Consistent(JoinedIncoming(edgeToInfo, incoming, idx))
  {
    if |incoming| > 0 {
      var n := |incoming| - 1;
      var prefix := incoming[..n];
      assert forall k :: 0 <= k < n ==> incoming[k] == prefix[k];
      JoinedIncomingConsistent(edgeToInfo, prefix, idx);
      JoinKeepsConsistent(JoinedIncoming(edgeToInfo, prefix, idx), edgeToInfo[(incoming[n], idx)]);
    }
  }

  lemma JoinedIncomingConsistentIf(edgeToInfo: map<Edge, PointsTo>, incoming: seq<nat>, idx: nat)
    requires EdgesPresent(edgeToInfo, incoming, idx)
    ensures (forall k :: 0 <= k < |incoming| ==> Consistent(edgeToInfo[(incoming[k], idx)]))
            ==> Consistent(JoinedIncoming(edgeToInfo, incoming, idx))
  {
    if forall k :: 0 <= k < |incoming| ==> Consistent(edgeToInfo[(incoming[k], idx)]) {
      JoinedIncomingConsistent(edgeToInfo, incoming, idx);
    }
  }

  /** Adding `s` under `k` changes the set of `k` alone, by exactly `s`. */
  lemma AddPointeesAt(m: PointsToMap, k: nat, s: set<nat>)
    ensures Lookup(AddPointees(m, k, s), k) == Lookup(m, k) + s
    ensures forall k' :: k' != k ==> Lookup(AddPointees(m, k, s), k') == Lookup(m, k')
    ensures s == {} ==> AddPointees(m, k, s) == m
  {
  }

  lemma AddPointeesGrows(m: PointsToMap, k: nat, s: set<nat>)
    ensures Below(m, AddPointees(m, k, s))
    ensures s <= Lookup(AddPointees(m, k, s), k)
  {
  }

  lemma StoreAllGrows(mem: PointsToMap, targets: set<nat>, values: set<nat>)
    ensures Below(mem, StoreAll(mem, targets, values))
    ensures forall y :: y in targets ==> values <= Lookup(StoreAll(mem, targets, values), y)
  {
  }

  /** The transfer only adds: the result lies pointwise above the joined
    * input on both maps. */
  lemma TransferOnlyAdds(info: PointsTo, run: seq<Instr>)
    requires |run| > 0 && WellFormed(run[0])
    ensures InfoBelow(info, Transfer(info, run))
  {
    var pts, mem := info.pointerMap, info.memPointerMap;
    var instr := run[0];
    match instr.op
    case Store =>
      StoreAllGrows(mem, Src(pts, instr.operands[1]), Src(pts, instr.operands[0]));
    case _ =>
  }

  /** No rule creates a key with an empty set. */
  lemma TransferKeepsConsistent(info: PointsTo, run: seq<Instr>)
    requires |run| > 0 && WellFormed(run[0])
    requires Consistent(info)
    ensures Consistent(Transfer(info, run))
  {
  }

  lemma AddPointeesMonotone(m1: PointsToMap, m2: PointsToMap, k: nat, s1: set<nat>, s2: set<nat>)
    requires Below(m1, m2) && s1 <= s2
    ensures Below(AddPointees(m1, k, s1), AddPointees(m2, k, s2))
  {
  }

  lemma StoreAllMonotone(mem1: PointsToMap, mem2: PointsToMap, t1: set<nat>, t2: set<nat>, v1: set<nat>, v2: set<nat>)
    requires Below(mem1, mem2) && t1 <= t2 && v1 <= v2
    ensures Below(StoreAll(mem1, t1, v1), StoreAll(mem2, t2, v2))
  {
  }

  lemma SrcMonotone(m1: PointsToMap, m2: PointsToMap, o: Operand)
    requires Below(m1, m2)
    ensures Src(m1, o) <= Src(m2, o)
  {
  }

  lemma PhiSourcesMonotone(m1: PointsToMap, m2: PointsToMap, phis: seq<Instr>)
    requires Below(m1, m2)
    ensures PhiSources(m1, phis) <= PhiSources(m2, phis)
  {
    forall x | x in PhiSources(m1, phis)
      ensures x in PhiSources(m2, phis)
    {
      var p, i :| 0 <= p < |phis| && 0 <= i < |phis[p].incoming| && x in Src(m1, phis[p].incoming[i].value);
      SrcMonotone(m1, m2, phis[p].incoming[i].value);
    }
  }

  /** The transfer function is monotone: a larger joined fact gives a larger
    * result. The engine's fixed point relies on it. */
  lemma TransferMonotone(a: PointsTo, b: PointsTo, run: seq<Instr>)
    requires |run| > 0 && WellFormed(run[0])
    requires InfoBelow(a, b)
    ensures InfoBelow(Transfer(a, run), Transfer(b, run))
  {
    var instr := run[0];
    var idx := instr.index;
    var pa, pb := a.pointerMap, b.pointerMap;
    match instr.op
    case Alloca =>
      AddPointeesMonotone(pa, pb, idx, {idx}, {idx});
    case BitCast =>
      SrcMonotone(pa, pb, instr.operands[0]);
      AddPointeesMonotone(pa, pb, idx, Src(pa, instr.operands[0]), Src(pb, instr.operands[0]));
    case GetElementPtr =>
      SrcMonotone(pa, pb, instr.operands[0]);
      AddPointeesMonotone(pa, pb, idx, Src(pa, instr.operands[0]), Src(pb, instr.operands[0]));
    case Load =>
      SrcMonotone(pa, pb, instr.operands[0]);
      assert Loaded(a, instr.operands[0]) <= Loaded(b, instr.operands[0]);
      AddPointeesMonotone(pa, pb, idx, Loaded(a, instr.operands[0]), Loaded(b, instr.operands[0]));
    case Store =>
      SrcMonotone(pa, pb, instr.operands[0]);
      SrcMonotone(pa, pb, instr.operands[1]);
      StoreAllMonotone(a.memPointerMap, b.memPointerMap, Src(pa, instr.operands[1]), Src(pb, instr.operands[1]),
                       Src(pa, instr.operands[0]), Src(pb, instr.operands[0]));
    case Select =>
      SrcMonotone(pa, pb, instr.operands[1]);
      SrcMonotone(pa, pb, instr.operands[2]);
      AddPointeesMonotone(pa, pb, idx, Src(pa, instr.operands[1]) + Src(pa, instr.operands[2]),
                          Src(pb, instr.operands[1]) + Src(pb, instr.operands[2]));
    case Phi =>
      var phis := run[..PhiRunLength(run)];
      PhiSourcesMonotone(pa, pb, phis);
      AddPointeesMonotone(pa, pb, idx, PhiSources(pa, phis), PhiSources(pb, phis));
    case _ =>
  }

  /** alloca: the new register points to the location it created. */
  lemma AllocaRule(info: PointsTo, run: seq<Instr>)
    requires |run| > 0 && run[0].op == Alloca
    ensures var idx := run[0].index;
            idx in Transfer(info, run).pointerMap && idx in Transfer(info, run).pointerMap[idx]
    ensures Lookup(Transfer(info, run).pointerMap, run[0].index) == Lookup(info.pointerMap, run[0].index) + {run[0].index}
    ensures forall k :: k != run[0].index ==> Lookup(Transfer(info, run).pointerMap, k) == Lookup(info.pointerMap, k)
    ensures Transfer(info, run).memPointerMap == info.memPointerMap
  {
    assert Transfer(info, run) == info.(pointerMap := AddPointees(info.pointerMap, run[0].index, {run[0].index}));
    AddPointeesAt(info.pointerMap, run[0].index, {run[0].index});
  }

  /** bitcast and getelementptr: the source's set is copied into the result's
    * when the source is tracked and has one; otherwise nothing changes. */
  lemma CopyRule(info: PointsTo, run: seq<Instr>)
    requires |run| > 0 && WellFormed(run[0]) && (run[0].op == BitCast || run[0].op == GetElementPtr)
    ensures var source := run[0].operands[0];
            (source.Tracked? && source.idx in info.pointerMap)
              ==> info.pointerMap[source.idx] <= Lookup(Transfer(info, run).pointerMap, run[0].index)
    ensures var source := run[0].operands[0];
            !(source.Tracked? && source.idx in info.pointerMap) ==> Transfer(info, run) == info
    ensures Lookup(Transfer(info, run).pointerMap, run[0].index)
            == Lookup(info.pointerMap, run[0].index) + Src(info.pointerMap, run[0].operands[0])
    ensures forall k :: k != run[0].index ==> Lookup(Transfer(info, run).pointerMap, k) == Lookup(info.pointerMap, k)
    ensures Transfer(info, run).memPointerMap == info.memPointerMap
  {
    var sources := Src(info.pointerMap, run[0].operands[0]);
    assert Transfer(info, run) == info.(pointerMap := AddPointees(info.pointerMap, run[0].index, sources));
    AddPointeesAt(info.pointerMap, run[0].index, sources);
  }

  /** select: both candidates' sets are added to the result's set, which is
    * all that changes; when neither candidate is tracked and present the
    * fact is unchanged. */
  lemma SelectRule(info: PointsTo, run: seq<Instr>)
    requires |run| > 0 && WellFormed(run[0]) && run[0].op == Select
    ensures var sources := Src(info.pointerMap, run[0].operands[1]) + Src(info.pointerMap, run[0].operands[2]);
            Lookup(Transfer(info, run).pointerMap, run[0].index) == Lookup(info.pointerMap, run[0].index) + sources
    ensures forall k :: k != run[0].index ==> Lookup(Transfer(info, run).pointerMap, k) == Lookup(info.pointerMap, k)
    ensures Transfer(info, run).memPointerMap == info.memPointerMap
    ensures Src(info.pointerMap, run[0].operands[1]) + Src(info.pointerMap, run[0].operands[2]) == {}
            ==> Transfer(info, run) == info
  {
    var sources := Src(info.pointerMap, run[0].operands[1]) + Src(info.pointerMap, run[0].operands[2]);
    assert Transfer(info, run) == info.(pointerMap := AddPointees(info.pointerMap, run[0].index, sources));
    AddPointeesAt(info.pointerMap, run[0].index, sources);
  }

  /** phi: the sets of all incoming values of all phis of the run are added
    * to the set of the run's FIRST phi, which is all that changes; when no
    * incoming value is tracked and present the fact is unchanged. */
  lemma PhiRule(info: PointsTo, run: seq<Instr>)
    requires |run| > 0 && run[0].op == Phi
    ensures var sources := PhiSources(info.pointerMap, run[..PhiRunLength(run)]);
            Lookup(Transfer(info, run).pointerMap, run[0].index) == Lookup(info.pointerMap, run[0].index) + sources
    ensures forall k :: k != run[0].index ==> Lookup(Transfer(info, run).pointerMap, k) == Lookup(info.pointerMap, k)
    ensures Transfer(info, run).memPointerMap == info.memPointerMap
    ensures PhiSources(info.pointerMap, run[..PhiRunLength(run)]) == {} ==> Transfer(info, run) == info
  {
    var sources := PhiSources(info.pointerMap, run[..PhiRunLength(run)]);
    assert Transfer(info, run) == info.(pointerMap := AddPointees(info.pointerMap, run[0].index, sources));
    AddPointeesAt(info.pointerMap, run[0].index, sources);
  }

  /** phi, value by value: the set of each incoming value of each phi of the
    * run ends up in the set of the run's first phi. */
  lemma PhiIncomingRule(info: PointsTo, run: seq<Instr>, p: nat, i: nat)
    requires |run| > 0 && run[0].op == Phi
    requires p < PhiRunLength(run) && i < |run[p].incoming|
    ensures Src(info.pointerMap, run[p].incoming[i].value) <= Lookup(Transfer(info, run).pointerMap, run[0].index)
  {
    var phis := run[..PhiRunLength(run)];
    assert phis[p] == run[p];
    AddPointeesGrows(info.pointerMap, run[0].index, PhiSources(info.pointerMap, phis));
  }

  /** store: every location the value may point to may now be stored at every
    * location the address may point to; the register map is untouched, and
    * an untracked or unknown operand makes the store a no-op. */
  lemma StoreRule(info: PointsTo, run: seq<Instr>)
    requires |run| > 0 && WellFormed(run[0]) && run[0].op == Store
    ensures var out := Transfer(info, run);
            forall x, y :: x in Src(info.pointerMap, run[0].operands[0]) && y in Src(info.pointerMap, run[0].operands[1])
              ==> y in out.memPointerMap && x in out.memPointerMap[y]
    ensures forall y ::
              Lookup(Transfer(info, run).memPointerMap, y)
              == Lookup(info.memPointerMap, y)
                 + (if y in Src(info.pointerMap, run[0].operands[1]) then Src(info.pointerMap, run[0].operands[0]) else {})
    ensures Transfer(info, run).pointerMap == info.pointerMap
    ensures Src(info.pointerMap, run[0].operands[0]) == {} || Src(info.pointerMap, run[0].operands[1]) == {}
            ==> Transfer(info, run) == info
  {
    var pts := info.pointerMap;
    StoreAllGrows(info.memPointerMap, Src(pts, run[0].operands[1]), Src(pts, run[0].operands[0]));
    StoreAllEmptyTargets(info.memPointerMap, Src(pts, run[0].operands[0]));
  }

  /** load, with the pointer operand as address: whatever may be stored at a
    * location the address may point to joins the result's set, which is all
    * that changes. */
  lemma LoadRule(info: PointsTo, run: seq<Instr>)
    requires |run| > 0 && WellFormed(run[0]) && run[0].op == Load
    ensures forall x :: x in Src(info.pointerMap, run[0].operands[0]) && x in info.memPointerMap
              ==> info.memPointerMap[x] <= Lookup(Transfer(info, run).pointerMap, run[0].index)
    ensures Lookup(Transfer(info, run).pointerMap, run[0].index)
            == Lookup(info.pointerMap, run[0].index) + Loaded(info, run[0].operands[0])
    ensures forall k :: k != run[0].index ==> Lookup(Transfer(info, run).pointerMap, k) == Lookup(info.pointerMap, k)
    ensures Transfer(info, run).memPointerMap == info.memPointerMap
  {
    var loaded := Loaded(info, run[0].operands[0]);
    assert Transfer(info, run) == info.(pointerMap := AddPointees(info.pointerMap, run[0].index, loaded));
    AddPointeesAt(info.pointerMap, run[0].index, loaded);
    forall x | x in Src(info.pointerMap, run[0].operands[0]) && x in info.memPointerMap
      ensures info.memPointerMap[x] <= loaded
    {
      assert forall y :: y in info.memPointerMap[x] ==> y in StoredAt(info.memPointerMap, Src(info.pointerMap, run[0].operands[0]));
    }
  }

  /** The rules cover seven opcodes; every other instruction (call, icmp,
    * ret, an arithmetic operation, ...) passes the joined fact through. */
  lemma OtherPassesThrough(info: PointsTo, run: seq<Instr>)
    requires |run| > 0 && WellFormed(run[0])
    requires run[0].op !in {Alloca, BitCast, GetElementPtr, Load, Store, Select, Phi}
    ensures Transfer(info, run) == info
  {
  }

  /** `%p = alloca; store %v, %p; %r = load %p`: whatever `%v` may point to,
    * `%r` may point to as well. */
  lemma StoreLoadRoundTrip(info: PointsTo, p: nat, s: nat, r: nat, v: nat)
    requires v in info.pointerMap && info.pointerMap[v] != {} && v != p
    ensures var afterAlloca := Transfer(info, [Instr(p, Alloca, [], [])]);
            var afterStore := Transfer(afterAlloca, [Instr(s, Store, [Tracked(v), Tracked(p)], [])]);
            var afterLoad := Transfer(afterStore, [Instr(r, Load, [Tracked(p)], [])]);
            r in afterLoad.pointerMap && info.pointerMap[v] <= afterLoad.pointerMap[r]
  {
    var allocaRun := [Instr(p, Alloca, [], [])];
    var afterAlloca := Transfer(info, allocaRun);
    AllocaRule(info, allocaRun);
    assert afterAlloca.pointerMap[v] == info.pointerMap[v];
    var storeRun := [Instr(s, Store, [Tracked(v), Tracked(p)], [])];
    var afterStore := Transfer(afterAlloca, storeRun);
    StoreRule(afterAlloca, storeRun);
    assert info.pointerMap[v] <= afterStore.memPointerMap[p] by {
      forall x | x in info.pointerMap[v]
        ensures x in afterStore.memPointerMap[p]
      {
        assert x in Src(afterAlloca.pointerMap, Tracked(v)) && p in Src(afterAlloca.pointerMap, Tracked(p));
      }
    }
    var loadRun := [Instr(r, Load, [Tracked(p)], [])];
    LoadRule(afterStore, loadRun);
  }

  /** As written, a load looks its address up through `garbage`; when that is
    * not a tracked register with a set (an uninitialised pointer), the load
    * leaves the fact unchanged. */
  lemma LoadAsWrittenIsNoOp(info: PointsTo, run: seq<Instr>, garbage: Operand)
    requires |run| > 0 && WellFormed(run[0]) && run[0].op == Load
    requires Src(info.pointerMap, garbage) == {}
    ensures TransferAsWritten(info, run, garbage) == info
  {
  }

  /** The round trip fails as written: after `%1 = alloca` (already in the
    * fact), `%2 = alloca; store %1, %2; %4 = load %2` leaves `%4` with no
    * set at all, where the intended rule gives it `{1}`. */
  lemma LoadAsWrittenLosesStore()
    ensures var info := PointsTo(map[1 := {1}], map[]);
            var afterAlloca := Transfer(info, [Instr(2, Alloca, [], [])]);
            var afterStore := Transfer(afterAlloca, [Instr(3, Store, [Tracked(1), Tracked(2)], [])]);
            var load := [Instr(4, Load, [Tracked(2)], [])];
            4 !in TransferAsWritten(afterStore, load, External).pointerMap
            && 4 in Transfer(afterStore, load).pointerMap && 1 in Transfer(afterStore, load).pointerMap[4]
  {
    var info := PointsTo(map[1 := {1}], map[]);
    var afterAlloca := Transfer(info, [Instr(2, Alloca, [], [])]);
    var afterStore := Transfer(afterAlloca, [Instr(3, Store, [Tracked(1), Tracked(2)], [])]);
    var load := [Instr(4, Load, [Tracked(2)], [])];
    assert 4 !in afterAlloca.pointerMap;
    assert afterStore.pointerMap == afterAlloca.pointerMap;
    assert 4 !in afterStore.pointerMap;
    LoadAsWrittenIsNoOp(afterStore, load, External);
    StoreLoadRoundTrip(info, 2, 3, 4, 1);
  }
}
