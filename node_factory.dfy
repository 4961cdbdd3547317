/**
 * The node table of the kernel structure analyzer's Andersen-style points-to
 * analysis (NodeFactory.h, NodeFactory.cc).
 *
 * Nodes live in one vector and are named by their index; every node records
 * its own index, the node it has been merged into, the LLVM value it stands
 * for and, for the fields of an object, its field offset. The factory keeps
 * maps from values and functions to node indices, and a memo of the nodes
 * created for constant GEP expressions.
 *
 * LLVM values (and functions, which are values) are opaque handles here, and
 * the null pointer is `None`. What LLVM computes for the factory (a GEP's
 * field number, the kind of a constant) is a parameter.
 */
module NodeFactory {
  import opened Common

  /** An llvm::Value*, as an opaque handle. */
  type Value = nat

  /** The largest unsigned int, reserved for "no node". */
  const InvalidIndex: nat := 0xffff_ffff

  /** The special nodes every factory starts with. */
  const UniversalPtrIndex: nat := 0
  const UniversalObjIndex: nat := 1
  const NullPtrIndex: nat := 2
  const NullObjectIndex: nat := 3
  const ConstantIntIndex: nat := 4

  datatype NodeKind = ValueNode | ObjNode

  /** AndersNode. */
  datatype AndersNode = AndersNode(
    kind: NodeKind,
    idx: nat,
    mergeTarget: nat,
    value: Option<Value>,
    offset: nat,
    isUnion: bool,
    isHeap: bool,
    storeFlag: int)

  /** The AndersNode constructor: a fresh node is its own merge target. */
  function NewNode(t: NodeKind, i: nat, v: Option<Value>, off: nat, uo: bool, heap: bool): (n: AndersNode)
    ensures n.idx == i && n.mergeTarget == n.idx
    ensures n.kind == t && n.value == v && n.offset == off && n.storeFlag == 0
  {
    AndersNode(t, i, i, v, off, uo, heap, 0)
  }

  /** A node that is its own merge target: the representative of its class. */
  predicate IsRoot(ns: seq<AndersNode>, n: nat)
    requires n < |ns|
  {
    ns[n].mergeTarget == n
  }

  /** Every merge target names a node of the table. */
  predicate TargetsInRange(ns: seq<AndersNode>)
  {
    forall i :: 0 <= i < |ns| ==> ns[i].mergeTarget < |ns|
  }

  /**
   * The representative reached from `n` by following merge targets, when one
   * is reached within `fuel` steps.
   */
  function Root(ns: seq<AndersNode>, n: nat, fuel: nat): (r: Option<nat>)
    requires TargetsInRange(ns) && n < |ns|
    decreases fuel
    ensures r.Some? ==> r.value < |ns| && IsRoot(ns, r.value)
    ensures IsRoot(ns, n) ==> r == Some(n)
  {
    if IsRoot(ns, n) then Some(n)
    else if fuel == 0 then None
    else Root(ns, ns[n].mergeTarget, fuel - 1)
  }

  /** The nodes followed from `n` before its representative, in order. */
  function ChainPath(ns: seq<AndersNode>, n: nat, fuel: nat): (path: seq<nat>)
    requires TargetsInRange(ns) && n < |ns|
    decreases fuel
    ensures forall k :: 0 <= k < |path| ==> path[k] < |ns| && !IsRoot(ns, path[k])
  {
    if IsRoot(ns, n) || fuel == 0 then [] else [n] + ChainPath(ns, ns[n].mergeTarget, fuel - 1)
  }

  /** More fuel does not change a representative already found. */
  lemma {:induction false} RootFuel(ns: seq<AndersNode>, n: nat, fuel: nat, more: nat)
    requires TargetsInRange(ns) && n < |ns| && fuel <= more
    requires Root(ns, n, fuel).Some?
    ensures Root(ns, n, more) == Root(ns, n, fuel)
    decreases fuel
  {
    if !IsRoot(ns, n) {
      RootFuel(ns, ns[n].mergeTarget, fuel - 1, more - 1);
    }
  }

  /** Every node passed on the way from `n` has the same representative as `n`. */
  lemma {:induction false} ChainPathRoot(ns: seq<AndersNode>, n: nat, fuel: nat, m: nat)
    requires TargetsInRange(ns) && n < |ns|
    requires Root(ns, n, fuel).Some?
    requires m in ChainPath(ns, n, fuel)
    ensures m < |ns| && Root(ns, m, fuel) == Root(ns, n, fuel)
    decreases fuel
  {
    if m != n {
      var t := ns[n].mergeTarget;
      ChainPathRoot(ns, t, fuel - 1, m);
      RootFuel(ns, m, fuel - 1, fuel);
    }
  }

  /** The table after path compression from `n` to its representative `ret`. */
  predicate Compressed(old_ns: seq<AndersNode>, ns: seq<AndersNode>, n: nat, ret: nat)
    requires TargetsInRange(old_ns) && n < |old_ns|
  {
    && |ns| == |old_ns|
    && forall j :: 0 <= j < |ns| ==>
      ns[j] == if j in ChainPath(old_ns, n, |old_ns|) then old_ns[j].(mergeTarget := ret) else old_ns[j]
  }

  /**
   * Path compression changes no node's representative: whatever a node
   * reached within some number of steps before, it reaches within as many
   * steps afterwards.
   */
  lemma {:induction false} CompressionKeepsRoot(old_ns: seq<AndersNode>, ns: seq<AndersNode>, n: nat, ret: nat, m: nat, f: nat)
    requires TargetsInRange(old_ns) && TargetsInRange(ns) && n < |old_ns|
    requires Root(old_ns, n, |old_ns|) == Some(ret)
    requires Compressed(old_ns, ns, n, ret)
    requires m < |old_ns| && Root(old_ns, m, f).Some?
    ensures Root(ns, m, f) == Root(old_ns, m, f)
    decreases f
  {
    var path := ChainPath(old_ns, n, |old_ns|);
    assert ret !in path;
    if m in path {
      ChainPathRoot(old_ns, n, |old_ns|, m);
      if f <= |old_ns| {
        RootFuel(old_ns, m, f, |old_ns|);
      } else {
        RootFuel(old_ns, m, |old_ns|, f);
      }
    } else if !IsRoot(old_ns, m) {
      CompressionKeepsRoot(old_ns, ns, n, ret, old_ns[m].mergeTarget, f - 1);
    }
  }

  /**
   * The run of object nodes that starts at `i`: the following nodes are
   * object nodes whose offsets go up by one. The size is one more than the
   * offset of the run's last node; so the run ends `size - offset(i)` nodes
   * after `i`, inside the table, and the node after it (if any) does not
   * continue it.
   */
  function ObjectSize(ns: seq<AndersNode>, i: nat): (size: nat)
    requires i < |ns|
    decreases |ns| - i
    ensures size > ns[i].offset
    ensures i + (size - ns[i].offset) <= |ns|
    ensures forall j :: i < j < i + (size - ns[i].offset) ==>
      ns[j].kind == ObjNode && ns[j].offset == ns[i].offset + (j - i)
    ensures var e := i + (size - ns[i].offset);
      e == |ns| || ns[e].kind != ObjNode || ns[e].offset != size
  {
    if i + 1 < |ns| && ns[i + 1].kind == ObjNode && ns[i + 1].offset == ns[i].offset + 1
    then ObjectSize(ns, i + 1)
    else ns[i].offset + 1
  }

  /** AndersNodeFactory. */
  class NodeFactory {
    var nodes: seq<AndersNode>
    var taintedNodes: set<nat>
    var valueNodeMap: map<Value, nat>
    var objNodeMap: map<Value, nat>
    var returnMap: map<Value, nat>
    var varargMap: map<Value, nat>
    /** (base node, field number) to the node of the GEP expression. */
    var gepMap: map<(nat, nat), nat>
    /** The inverse of gepMap. */
    var gepNodeMap: map<nat, (nat, nat)>

    /**
     * The table invariant: the five special nodes exist, every node sits at
     * its own index, no field offset reaches before the table, merge targets
     * are nodes, and every memoised GEP node maps back to its key.
     */
    predicate Valid()
      reads this
    {
      && |nodes| >= 5
      && (forall i :: 0 <= i < |nodes| ==> nodes[i].idx == i && nodes[i].offset <= i)
      && TargetsInRange(nodes)
      && (forall k :: k in gepMap ==> gepMap[k] < |nodes| && gepMap[k] in gepNodeMap && gepNodeMap[gepMap[k]] == k)
    }

    /**
     * The constructor: exactly the five special nodes, typed value, object,
     * value, object, object, each its own merge target.
     */
    constructor ()
      ensures Valid()
      ensures |nodes| == 5
      ensures nodes[UniversalPtrIndex] == NewNode(ValueNode, UniversalPtrIndex, None, 0, false, false)
      ensures nodes[UniversalObjIndex] == NewNode(ObjNode, UniversalObjIndex, None, 0, false, false)
      ensures nodes[NullPtrIndex] == NewNode(ValueNode, NullPtrIndex, None, 0, false, false)
      ensures nodes[NullObjectIndex] == NewNode(ObjNode, NullObjectIndex, None, 0, false, false)
      ensures nodes[ConstantIntIndex] == NewNode(ObjNode, ConstantIntIndex, None, 0, false, false)
      ensures taintedNodes == {} && valueNodeMap == map[] && objNodeMap == map[]
      ensures returnMap == map[] && varargMap == map[] && gepMap == map[] && gepNodeMap == map[]
    {
      nodes := [
        NewNode(ValueNode, 0, None, 0, false, false),
        NewNode(ObjNode, 1, None, 0, false, false),
        NewNode(ValueNode, 2, None, 0, false, false),
        NewNode(ObjNode, 3, None, 0, false, false),
        NewNode(ObjNode, 4, None, 0, false, false)];
      taintedNodes := {};
      valueNodeMap, objNodeMap, returnMap, varargMap := map[], map[], map[], map[];
      gepMap, gepNodeMap := map[], map[];
    }

    /**
     * createValueNode: appends a value node at the next index and, for a
     * non-null value, records value to index; a value may be recorded once.
     */
    method CreateValueNode(val: Option<Value>) returns (r: nat)
      requires Valid()
      requires val.Some? ==> val.value !in valueNodeMap
      modifies this
      ensures Valid()
      ensures r == old(|nodes|)
      ensures nodes == old(nodes) + [NewNode(ValueNode, r, val, 0, false, false)]
      ensures valueNodeMap == if val.Some? then old(valueNodeMap)[val.value := r] else old(valueNodeMap)
      ensures objNodeMap == old(objNodeMap) && returnMap == old(returnMap) && varargMap == old(varargMap)
      ensures gepMap == old(gepMap) && gepNodeMap == old(gepNodeMap) && taintedNodes == old(taintedNodes)
    {
      r := |nodes|;
      nodes := nodes + [NewNode(ValueNode, r, val, 0, false, false)];
      if val.Some? {
        valueNodeMap := valueNodeMap[val.value := r];
      }
    }

    /**
     * createObjectNode(val): appends an object node at the next index. A
     * non-null value already recorded keeps its old node, which is returned
     * although the new node stays in the table; otherwise value to new index
     * is recorded.
     */
    method CreateObjectNode(val: Option<Value>, uo: bool, heap: bool) returns (r: nat)
      requires Valid()
      modifies this
      ensures Valid()
      ensures nodes == old(nodes) + [NewNode(ObjNode, old(|nodes|), val, 0, uo, heap)]
      ensures val.Some? && val.value in old(objNodeMap) ==>
        r == old(objNodeMap)[val.value] && objNodeMap == old(objNodeMap)
      ensures val.Some? && val.value !in old(objNodeMap) ==>
        r == old(|nodes|) && objNodeMap == old(objNodeMap)[val.value := r]
      ensures val.None? ==> r == old(|nodes|) && objNodeMap == old(objNodeMap)
      ensures valueNodeMap == old(valueNodeMap) && returnMap == old(returnMap) && varargMap == old(varargMap)
      ensures gepMap == old(gepMap) && gepNodeMap == old(gepNodeMap) && taintedNodes == old(taintedNodes)
    {
      var nextIdx := |nodes|;
      nodes := nodes + [NewNode(ObjNode, nextIdx, val, 0, uo, heap)];
      if val.Some? {
        if val.value in objNodeMap {
          return objNodeMap[val.value];
        }
        objNodeMap := objNodeMap[val.value := nextIdx];
      }
      return nextIdx;
    }

    /**
     * createObjectNode(base, offset): appends field `offset` of the object at
     * `base`, which must land exactly at the next index; the field has no
     * value of its own, so its value is found through the object's node.
     */
    method CreateFieldObjectNode(base: nat, offset: nat, uo: bool, heap: bool) returns (r: nat)
      requires Valid()
      requires offset != 0
      requires |nodes| == base + offset
      modifies this
      ensures Valid()
      ensures r == old(|nodes|) && r == base + offset
      ensures nodes == old(nodes) + [NewNode(ObjNode, r, None, offset, uo, heap)]
      ensures GetValueForNode(r) == nodes[base].value
      ensures valueNodeMap == old(valueNodeMap) && objNodeMap == old(objNodeMap)
      ensures returnMap == old(returnMap) && varargMap == old(varargMap)
      ensures gepMap == old(gepMap) && gepNodeMap == old(gepNodeMap) && taintedNodes == old(taintedNodes)
    {
      var nextIdx := |nodes|;
      var _ := GetValueForNode(base);
      nodes := nodes + [NewNode(ObjNode, nextIdx, None, offset, uo, heap)];
      return nextIdx;
    }

    /** createReturnNode: a value node standing for `f`'s return value; once per function. */
    method CreateReturnNode(f: Value) returns (r: nat)
      requires Valid()
      requires f !in returnMap
      modifies this
      ensures Valid()
      ensures r == old(|nodes|)
      ensures nodes == old(nodes) + [NewNode(ValueNode, r, Some(f), 0, false, false)]
      ensures returnMap == old(returnMap)[f := r] && GetReturnNodeFor(f) == r
      ensures valueNodeMap == old(valueNodeMap) && objNodeMap == old(objNodeMap) && varargMap == old(varargMap)
      ensures gepMap == old(gepMap) && gepNodeMap == old(gepNodeMap) && taintedNodes == old(taintedNodes)
    {
      r := |nodes|;
      nodes := nodes + [NewNode(ValueNode, r, Some(f), 0, false, false)];
      returnMap := returnMap[f := r];
    }

    /** createVarargNode: an object node standing for `f`'s varargs; once per function. */
    method CreateVarargNode(f: Value) returns (r: nat)
      requires Valid()
      requires f !in varargMap
      modifies this
      ensures Valid()
      ensures r == old(|nodes|)
      ensures nodes == old(nodes) + [NewNode(ObjNode, r, Some(f), 0, false, false)]
      ensures varargMap == old(varargMap)[f := r] && GetVarargNodeFor(f) == r
      ensures valueNodeMap == old(valueNodeMap) && objNodeMap == old(objNodeMap) && returnMap == old(returnMap)
      ensures gepMap == old(gepMap) && gepNodeMap == old(gepNodeMap) && taintedNodes == old(taintedNodes)
    {
      r := |nodes|;
      nodes := nodes + [NewNode(ObjNode, r, Some(f), 0, false, false)];
      varargMap := varargMap[f := r];
    }

    /** The map lookup that ends getValueNodeFor: the recorded node or InvalidIndex. */
    function GetValueNodeFor(val: Value): (r: nat)
      reads this
      ensures val in valueNodeMap ==> r == valueNodeMap[val]
      ensures val !in valueNodeMap ==> r == InvalidIndex
    {
      if val in valueNodeMap then valueNodeMap[val] else InvalidIndex
    }

    /** The map lookup that ends getObjectNodeFor: the recorded node or InvalidIndex. */
    function GetObjectNodeFor(val: Value): (r: nat)
      reads this
      ensures val in objNodeMap ==> r == objNodeMap[val]
      ensures val !in objNodeMap ==> r == InvalidIndex
    {
      if val in objNodeMap then objNodeMap[val] else InvalidIndex
    }

    /** getReturnNodeFor: the recorded node or InvalidIndex. */
    function GetReturnNodeFor(f: Value): (r: nat)
      reads this
      ensures f in returnMap ==> r == returnMap[f]
      ensures f !in returnMap ==> r == InvalidIndex
    {
      if f in returnMap then returnMap[f] else InvalidIndex
    }

    /** getVarargNodeFor: the recorded node or InvalidIndex. */
    function GetVarargNodeFor(f: Value): (r: nat)
      reads this
      ensures f in varargMap ==> r == varargMap[f]
      ensures f !in varargMap ==> r == InvalidIndex
    {
      if f in varargMap then varargMap[f] else InvalidIndex
    }

    /** removeNodeForValue. */
    method RemoveNodeForValue(val: Value)
      modifies this`valueNodeMap
      ensures valueNodeMap == old(valueNodeMap) - {val}
      ensures GetValueNodeFor(val) == InvalidIndex
    {
      valueNodeMap := valueNodeMap - {val};
    }

    /** removeNodeForObject. */
    method RemoveNodeForObject(val: Value)
      modifies this`objNodeMap
      ensures objNodeMap == old(objNodeMap) - {val}
      ensures GetObjectNodeFor(val) == InvalidIndex
    {
      objNodeMap := objNodeMap - {val};
    }

    /** updateNodeForObject: points a value at an object node. */
    method UpdateNodeForObject(val: Value, idx: nat)
      requires idx < |nodes| && nodes[idx].kind == ObjNode
      modifies this`objNodeMap
      ensures objNodeMap == old(objNodeMap)[val := idx]
      ensures GetObjectNodeFor(val) == idx
    {
      objNodeMap := objNodeMap[val := idx];
    }

    /** isObjectNode. */
    predicate IsObjectNode(i: nat)
      reads this
      requires i < |nodes|
    {
      nodes[i].kind == ObjNode
    }

    /**
     * getOffsetObjectNode: a union object stands for all its fields, so it is
     * returned itself; otherwise field `offset` further on, which must be an
     * object node whose offset is `offset` more.
     */
    function GetOffsetObjectNode(n: nat, offset: int): (r: nat)
      reads this
      requires n < |nodes|
      requires !nodes[n].isUnion ==>
        && 0 <= n + offset < |nodes|
        && nodes[n + offset].kind == ObjNode
        && nodes[n].offset + offset == nodes[n + offset].offset
      ensures r < |nodes|
      ensures nodes[n].isUnion ==> r == n
      ensures !nodes[n].isUnion ==> r == n + offset && IsObjectNode(r) && nodes[r].offset == nodes[n].offset + offset
    {
      if nodes[n].isUnion then n else n + offset
    }

    /** getObjectOffset. */
    function GetObjectOffset(i: nat): (off: nat)
      reads this
      requires Valid() && i < |nodes| && IsObjectNode(i)
      ensures off <= i && off == nodes[i].offset
    {
      nodes[i].offset
    }

    /** getObjectSize: walks the run of fields after `i`. */
    method GetObjectSize(i: nat) returns (size: nat)
      requires i < |nodes| && IsObjectNode(i)
      ensures size == ObjectSize(nodes, i)
    {
      var j := i;
      var offset := nodes[i].offset;
      while j + 1 < |nodes| && nodes[j + 1].kind == ObjNode && nodes[j + 1].offset == offset + 1
        invariant i <= j < |nodes|
        invariant offset == nodes[j].offset
        invariant ObjectSize(nodes, j) == ObjectSize(nodes, i)
        decreases |nodes| - j
      {
        j := j + 1;
        offset := offset + 1;
      }
      return offset + 1;
    }

    /**
     * getObjectBound: one past the last field of the run `i` belongs to. The
     * nodes from `i` up to the bound are object nodes with consecutive
     * offsets, and the node at the bound (if any) does not continue them.
     */
    method GetObjectBound(i: nat) returns (bound: nat)
      requires Valid() && i < |nodes| && IsObjectNode(i)
      ensures bound == i - nodes[i].offset + ObjectSize(nodes, i)
      ensures i < bound <= |nodes|
      ensures forall j :: i <= j < bound ==> nodes[j].kind == ObjNode && nodes[j].offset == nodes[i].offset + (j - i)
      ensures bound == |nodes| || nodes[bound].kind != ObjNode || nodes[bound].offset != nodes[bound - 1].offset + 1
    {
      var offset := GetObjectOffset(i);
      var objSize := GetObjectSize(i);
      return i - offset + objSize;
    }

    /**
     * getValueForNode: the node's own value, or else the value of the node
     * `offset` places back (the object a field belongs to).
     */
    function GetValueForNode(i: nat): (v: Option<Value>)
      reads this
      requires Valid() && i < |nodes|
      ensures nodes[i].value.Some? ==> v == nodes[i].value
      ensures nodes[i].value.None? ==> v == nodes[i - nodes[i].offset].value
    {
      var n := nodes[i];
      if n.value.Some? then n.value else nodes[i - n.offset].value
    }

    /** getObjNodeForGEPExpr: base plus field for a memoised GEP node, else InvalidIndex. */
    function GetObjNodeForGEPExpr(i: nat): (r: nat)
      reads this
      ensures i in gepNodeMap ==> r == gepNodeMap[i].0 + gepNodeMap[i].1
      ensures i !in gepNodeMap ==> r == InvalidIndex
    {
      if i in gepNodeMap then gepNodeMap[i].0 + gepNodeMap[i].1 else InvalidIndex
    }

    /**
     * The GetElementPtr case of getValueNodeForConstant, given the constant
     * expression `ce`, its base node and its field number. A null or
     * universal object base gives the null or universal pointer, field 0 the
     * base itself; otherwise the first request for (base, field) creates one
     * value node for `ce` and records it both ways, and later requests return
     * that node.
     */
    method GepValueNode(ce: Value, baseNode: nat, fieldNum: nat) returns (r: nat)
      requires Valid()
      requires baseNode != InvalidIndex
      requires (&& baseNode != NullObjectIndex && baseNode != UniversalObjIndex && fieldNum != 0
                && (baseNode, fieldNum) !in gepMap) ==> ce !in valueNodeMap
      modifies this
      ensures Valid()
      ensures baseNode == NullObjectIndex ==> r == NullPtrIndex && unchanged(this)
      ensures baseNode == UniversalObjIndex ==> r == UniversalPtrIndex && unchanged(this)
      ensures baseNode != NullObjectIndex && baseNode != UniversalObjIndex && fieldNum == 0 ==>
        r == baseNode && unchanged(this)
      ensures baseNode != NullObjectIndex && baseNode != UniversalObjIndex && fieldNum != 0 ==>
        && gepMap == old(gepMap)[(baseNode, fieldNum) := r]
        && gepMap[(baseNode, fieldNum)] == r
        && GetObjNodeForGEPExpr(r) == baseNode + fieldNum
      ensures (&& (baseNode, fieldNum) in old(gepMap) && baseNode != NullObjectIndex
               && baseNode != UniversalObjIndex && fieldNum != 0) ==>
        r == old(gepMap)[(baseNode, fieldNum)] && unchanged(this)
      ensures (&& (baseNode, fieldNum) !in old(gepMap) && baseNode != NullObjectIndex
               && baseNode != UniversalObjIndex && fieldNum != 0) ==>
        && r == old(|nodes|)
        && nodes == old(nodes) + [NewNode(ValueNode, r, Some(ce), 0, false, false)]
        && valueNodeMap == old(valueNodeMap)[ce := r]
        && gepNodeMap == old(gepNodeMap)[r := (baseNode, fieldNum)]
        && objNodeMap == old(objNodeMap) && returnMap == old(returnMap)
        && varargMap == old(varargMap) && taintedNodes == old(taintedNodes)
    {
      if baseNode == NullObjectIndex {
        return NullPtrIndex;
      }
      if baseNode == UniversalObjIndex {
        return UniversalPtrIndex;
      }
      if fieldNum == 0 {
        return baseNode;
      }
      var mapKey := (baseNode, fieldNum);
      if mapKey !in gepMap {
        var gepIndex := CreateValueNode(Some(ce));
        gepMap := gepMap[mapKey := gepIndex];
        gepNodeMap := gepNodeMap[gepIndex := mapKey];
        return gepIndex;
      } else {
        return gepMap[mapKey];
      }
    }

    /** mergeNode(n0, n1): only n1's merge target changes, to n0. */
    method MergeNode(n0: nat, n1: nat)
      requires Valid()
      requires n0 < |nodes| && n1 < |nodes|
      modifies this`nodes
      ensures Valid()
      ensures nodes == old(nodes)[n1 := old(nodes)[n1].(mergeTarget := n0)]
    {
      nodes := nodes[n1 := nodes[n1].(mergeTarget := n0)];
    }

    /**
     * The const getMergeTarget: follows merge targets from `n` to its
     * representative. The loop only ends on an acyclic chain, so the
     * representative must be reachable.
     */
    method FindMergeTarget(n: nat) returns (ret: nat)
      requires Valid() && n < |nodes|
      requires Root(nodes, n, |nodes|).Some?
      ensures ret == Root(nodes, n, |nodes|).value
      ensures ret < |nodes| && IsRoot(nodes, ret)
    {
      ghost var fuel: nat := |nodes|;
      ret := nodes[n].mergeTarget;
      if ret != n {
        fuel := fuel - 1;
      }
      while ret != nodes[ret].mergeTarget
        invariant ret < |nodes|
        invariant Root(nodes, ret, fuel) == Root(nodes, n, |nodes|)
        decreases fuel
      {
        ret := nodes[ret].mergeTarget;
        fuel := fuel - 1;
      }
    }

    /**
     * The walk of the mutating getMergeTarget from a node that is not its own
     * target: the representative, and the nodes passed on the way to it.
     */
    method FollowChain(n: nat) returns (ret: nat, path: seq<nat>)
      requires Valid() && n < |nodes| && !IsRoot(nodes, n)
      requires Root(nodes, n, |nodes|).Some?
      ensures ret == Root(nodes, n, |nodes|).value
      ensures path == ChainPath(nodes, n, |nodes|)
    {
      ghost var fuel: nat := |nodes| - 1;
      ret := nodes[n].mergeTarget;
      path := [n];
      while ret != nodes[ret].mergeTarget
        invariant ret < |nodes|
        invariant Root(nodes, ret, fuel) == Root(nodes, n, |nodes|)
        invariant path + ChainPath(nodes, ret, fuel) == ChainPath(nodes, n, |nodes|)
        decreases fuel
      {
        path := path + [ret];
        ret := nodes[ret].mergeTarget;
        fuel := fuel - 1;
      }
    }

    /** The compression loop: every node of `path` now targets `ret` directly. */
    method PointPathAt(path: seq<nat>, ret: nat)
      requires Valid() && ret < |nodes|
      requires forall k :: 0 <= k < |path| ==> path[k] < |nodes|
      modifies this`nodes
      ensures Valid()
      ensures |nodes| == |old(nodes)|
      ensures forall j :: 0 <= j < |nodes| ==>
        nodes[j] == if j in path then old(nodes)[j].(mergeTarget := ret) else old(nodes)[j]
    {
      for k := 0 to |path|
        invariant Valid()
        invariant |nodes| == |old(nodes)|
        invariant forall j :: 0 <= j < |nodes| ==>
          nodes[j] == if j in path[..k] then old(nodes)[j].(mergeTarget := ret) else old(nodes)[j]
      {
        assert path[..k + 1] == path[..k] + [path[k]];
        nodes := nodes[path[k] := nodes[path[k]].(mergeTarget := ret)];
      }
      assert path[..|path|] == path;
    }

    /**
     * The mutating getMergeTarget: the same representative as the const
     * version; afterwards every node on the path followed from `n` points
     * straight at it, and every other node is as it was.
     */
    method GetMergeTarget(n: nat) returns (ret: nat)
      requires Valid() && n < |nodes|
      requires Root(nodes, n, |nodes|).Some?
      modifies this`nodes
      ensures Valid()
      ensures ret == Root(old(nodes), n, |old(nodes)|).value
      ensures ret < |nodes| && IsRoot(nodes, ret)
      ensures |nodes| == |old(nodes)|
      ensures Compressed(old(nodes), nodes, n, ret)
      ensures forall m :: 0 <= m < |nodes| && Root(old(nodes), m, |nodes|).Some? ==>
        Root(nodes, m, |nodes|) == Root(old(nodes), m, |nodes|)
    {
      ret := nodes[n].mergeTarget;
      if ret != n {
        var path;
        ret, path := FollowChain(n);
        PointPathAt(path, ret);
      }
      forall m | 0 <= m < |nodes| && Root(old(nodes), m, |nodes|).Some?
        ensures Root(nodes, m, |nodes|) == Root(old(nodes), m, |nodes|)
      {
        CompressionKeepsRoot(old(nodes), nodes, n, ret, m, |nodes|);
      }
    }

    /** setNodeAsTainted: only object nodes may be tainted. */
    method SetNodeAsTainted(i: nat)
      requires i < |nodes| && IsObjectNode(i)
      modifies this`taintedNodes
      ensures taintedNodes == old(taintedNodes) + {i}
    {
      taintedNodes := taintedNodes + {i};
    }
  }
}
