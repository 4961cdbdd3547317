/**
 * The per-struct bookkeeping of the kernel structure analyzer
 * (StructAnalyzer.h): a StructInfo holds, for the flattened fields of one
 * struct type, four vectors kept in lockstep (field size and the array,
 * pointer and union flags), the field offsets and real sizes, the element
 * types of each field and the containers the struct is embedded in.
 *
 * LLVM types are opaque handles; whether the struct type is sized and the
 * size the data layout gives it are parameters of `Finalize`.
 */
module StructAnalyzer {
  import opened Common

  /** An llvm::Type* or llvm::StructType*, as an opaque handle. */
  type TypeRef = nat

  /** The non-zero offsets of `offs`, each shifted by `base`, in order. */
  function ShiftedNonZero(offs: seq<nat>, base: nat): (r: seq<nat>)
    ensures |r| <= |offs|
    ensures forall k :: 0 <= k < |r| ==> r[k] > base
  {
    if |offs| == 0 then []
    else
      var last := offs[|offs| - 1];
      ShiftedNonZero(offs[..|offs| - 1], base) + (if last == 0 then [] else [last + base])
  }

  predicate Ascending(s: seq<nat>)
  {
    forall i, j :: 0 <= i < j < |s| ==> s[i] < s[j]
  }

  /**
   * Shifting ascending offsets keeps them ascending, and every shifted
   * offset comes from a non-zero one.
   */
  lemma {:induction false} ShiftedAscending(offs: seq<nat>, base: nat)
    requires Ascending(offs)
    ensures Ascending(ShiftedNonZero(offs, base))
    ensures forall k :: 0 <= k < |ShiftedNonZero(offs, base)| ==>
      exists j :: 0 <= j < |offs| && offs[j] != 0 && ShiftedNonZero(offs, base)[k] == offs[j] + base
  {
    if |offs| > 0 {
      var init := offs[..|offs| - 1];
      ShiftedAscending(init, base);
      var r0 := ShiftedNonZero(init, base);
      forall k | 0 <= k < |r0| ensures r0[k] < offs[|offs| - 1] + base {
        var j :| 0 <= j < |init| && init[j] != 0 && r0[k] == init[j] + base;
        assert offs[j] < offs[|offs| - 1];
      }
    }
  }

  /** The element types of `field` in a field-to-types map; none for an unknown field. */
  function TypesOf(et: map<nat, set<TypeRef>>, field: nat): (r: set<TypeRef>)
    ensures field !in et ==> r == {}
  {
    if field in et then et[field] else {}
  }

  /** StructInfo. */
  class StructInfo {
    var arrayFlags: seq<bool>
    var pointerFlags: seq<bool>
    var unionFlags: seq<bool>
    var fieldSize: seq<nat>
    var offsetMap: seq<nat>
    var fieldOffset: seq<nat>
    var fieldRealSize: seq<nat>
    var elementType: map<nat, set<TypeRef>>
    var containers: set<(TypeRef, nat)>
    var allocSize: nat
    var finalized: bool

    /** The four per-field vectors have one entry per field. */
    predicate Lockstep()
      reads this
    {
      |fieldSize| == |arrayFlags| && |pointerFlags| == |arrayFlags| && |unionFlags| == |arrayFlags|
    }

    /**
     * The shape `finalize` leaves: the flags in lockstep, the field count in
     * fieldSize[0], and a single zero entry when there is no field.
     */
    predicate FinalShape()
      reads this
    {
      && finalized
      && |pointerFlags| == |arrayFlags| && |unionFlags| == |arrayFlags|
      && |fieldSize| == (if |arrayFlags| == 0 then 1 else |arrayFlags|)
      && fieldSize[0] == |arrayFlags|
    }

    /** A StructInfo before any field is analysed. */
    constructor ()
      ensures Lockstep() && |arrayFlags| == 0 && !finalized
      ensures offsetMap == [] && fieldOffset == [] && fieldRealSize == []
      ensures elementType == map[] && containers == {} && allocSize == 0
    {
      arrayFlags, pointerFlags, unionFlags := [], [], [];
      fieldSize, offsetMap, fieldOffset, fieldRealSize := [], [], [], [];
      elementType := map[];
      containers := {};
      allocSize := 0;
      finalized := false;
    }

    /** addContainer. */
    method AddContainer(st: TypeRef, offset: nat)
      modifies this`containers
      ensures containers == old(containers) + {(st, offset)}
      ensures GetContainer(st, offset) == Some(st)
    {
      containers := containers + {(st, offset)};
    }

    /** addOffsetMap. */
    method AddOffsetMap(newOffsetMap: nat)
      modifies this`offsetMap
      ensures offsetMap == old(offsetMap) + [newOffsetMap]
      ensures GetSize() == old(GetSize()) + 1 && GetOffset(|offsetMap| - 1) == newOffsetMap
    {
      offsetMap := offsetMap + [newOffsetMap];
    }

    /**
     * addField: one entry on each of the four per-field vectors, so they stay
     * in lockstep, and the getters read the new field's flags back.
     */
    method AddField(newFieldSize: nat, isArray: bool, isPointer: bool, isUnion: bool)
      modifies this
      ensures fieldSize == old(fieldSize) + [newFieldSize]
      ensures arrayFlags == old(arrayFlags) + [isArray]
      ensures pointerFlags == old(pointerFlags) + [isPointer]
      ensures unionFlags == old(unionFlags) + [isUnion]
      ensures old(Lockstep()) ==> Lockstep()
      ensures IsFieldArray(|arrayFlags| - 1) == isArray
      ensures IsFieldPointer(|pointerFlags| - 1) == isPointer
      ensures IsFieldUnion(|unionFlags| - 1) == isUnion
      ensures offsetMap == old(offsetMap) && fieldOffset == old(fieldOffset) && fieldRealSize == old(fieldRealSize)
      ensures elementType == old(elementType) && containers == old(containers)
      ensures allocSize == old(allocSize) && finalized == old(finalized)
    {
      fieldSize := fieldSize + [newFieldSize];
      arrayFlags := arrayFlags + [isArray];
      pointerFlags := pointerFlags + [isPointer];
      unionFlags := unionFlags + [isUnion];
    }

    /** addFieldOffset. */
    method AddFieldOffset(newOffset: nat)
      modifies this`fieldOffset
      ensures fieldOffset == old(fieldOffset) + [newOffset]
      ensures GetFieldOffset(|fieldOffset| - 1) == newOffset
    {
      fieldOffset := fieldOffset + [newOffset];
    }

    /** addRealSize. */
    method AddRealSize(size: nat)
      modifies this`fieldRealSize
      ensures fieldRealSize == old(fieldRealSize) + [size]
      ensures GetFieldRealSize(|fieldRealSize| - 1) == size
    {
      fieldRealSize := fieldRealSize + [size];
    }

    /**
     * appendFields: the flag and real-size vectors of `other` always follow
     * this struct's; its field sizes only when it is not empty. For a
     * finalized `other` that keeps the four vectors in lockstep.
     */
    method AppendFields(other: StructInfo)
      requires other != this
      requires |other.fieldSize| > 0
      modifies this
      ensures fieldSize == old(fieldSize) + (if other.fieldSize[0] != 0 then other.fieldSize else [])
      ensures arrayFlags == old(arrayFlags) + other.arrayFlags
      ensures pointerFlags == old(pointerFlags) + other.pointerFlags
      ensures unionFlags == old(unionFlags) + other.unionFlags
      ensures fieldRealSize == old(fieldRealSize) + other.fieldRealSize
      ensures old(Lockstep()) && other.FinalShape() ==> Lockstep()
      ensures offsetMap == old(offsetMap) && fieldOffset == old(fieldOffset)
      ensures elementType == old(elementType) && containers == old(containers)
      ensures allocSize == old(allocSize) && finalized == old(finalized)
    {
      if !other.IsEmpty() {
        fieldSize := fieldSize + other.fieldSize;
      }
      arrayFlags := arrayFlags + other.arrayFlags;
      pointerFlags := pointerFlags + other.pointerFlags;
      unionFlags := unionFlags + other.unionFlags;
      fieldRealSize := fieldRealSize + other.fieldRealSize;
    }

    /**
     * appendFieldOffset: the non-zero offsets of `other`, shifted by this
     * struct's last offset, are pushed in order; zeros are skipped. The last
     * offset must exist.
     */
    method AppendFieldOffset(other: StructInfo)
      requires other != this
      requires |fieldOffset| > 0
      modifies this`fieldOffset
      ensures fieldOffset == old(fieldOffset) + ShiftedNonZero(other.fieldOffset, old(fieldOffset)[|old(fieldOffset)| - 1])
      ensures Ascending(old(fieldOffset)) && Ascending(other.fieldOffset) ==> Ascending(fieldOffset)
    {
      var base := fieldOffset[|fieldOffset| - 1];
      ghost var before := fieldOffset;
      var offs := other.fieldOffset;
      for k := 0 to |offs|
        invariant fieldOffset == before + ShiftedNonZero(offs[..k], base)
      {
        assert offs[..k + 1][..k] == offs[..k];
        if offs[k] == 0 {
          continue;
        }
        fieldOffset := fieldOffset + [offs[k] + base];
      }
      assert offs[..|offs|] == offs;
      if Ascending(before) && Ascending(offs) {
        ShiftedAscending(offs, base);
        var added := ShiftedNonZero(offs, base);
        forall i, j | 0 <= i < j < |fieldOffset| ensures fieldOffset[i] < fieldOffset[j] {
          if j >= |before| && i < |before| {
            assert fieldOffset[j] == added[j - |before|];
            assert before[i] <= base by {
              if i < |before| - 1 {
                assert before[i] < before[|before| - 1];
              }
            }
          }
        }
      }
    }

    /** addElementType. */
    method AddElementType(field: nat, t: TypeRef)
      modifies this`elementType
      ensures elementType.Keys == old(elementType).Keys + {field}
      ensures GetElementType(field) == old(GetElementType(field)) + {t}
      ensures forall f :: f != field ==> GetElementType(f) == old(GetElementType(f))
    {
      elementType := elementType[field := TypesOf(elementType, field) + {t}];
    }

    /**
     * appendElementType: each field `k` of `other` becomes field
     * `k + |fieldSize|` here, its types joined to those already recorded.
     */
    method AppendElementType(other: StructInfo)
      requires other != this
      modifies this`elementType
      ensures var base := |fieldSize|;
        elementType.Keys == old(elementType).Keys + set k | k in other.elementType :: k + base
      ensures var base := |fieldSize|;
        forall f: nat :: GetElementType(f) ==
          old(GetElementType(f)) + (if f >= base then TypesOf(other.elementType, f - base) else {})
    {
      var base := |fieldSize|;
      var src := other.elementType;
      var todo := src.Keys;
      ghost var before := elementType;
      while todo != {}
        invariant todo <= src.Keys
        invariant elementType.Keys == before.Keys + set k | k in src.Keys - todo :: k + base
        invariant forall f: nat :: (TypesOf(elementType, f) ==
          TypesOf(before, f) + (if f >= base && f - base in src.Keys - todo then src[f - base] else {}))
        decreases todo
      {
        var k :| k in todo;
        ghost var done := src.Keys - todo;
        elementType := elementType[k + base := TypesOf(elementType, k + base) + src[k]];
        todo := todo - {k};
        assert src.Keys - todo == done + {k};
        assert (set j | j in done + {k} :: j + base) == (set j | j in done :: j + base) + {k + base};
      }
      assert src.Keys - todo == src.Keys;
    }

    /**
     * finalize: the four vectors must be in lockstep. The field count goes
     * into fieldSize[0] (after growing fieldSize to one entry if there was no
     * field), so the struct is empty exactly when no field was added; the
     * allocation size is the layout's size for a sized type, else 0.
     */
    method Finalize(isSized: bool, layoutSize: nat)
      requires Lockstep()
      modifies this`fieldSize, this`allocSize, this`finalized
      ensures |old(fieldSize)| == 0 ==> fieldSize == [0]
      ensures |old(fieldSize)| > 0 ==> fieldSize == old(fieldSize)[0 := |old(fieldSize)|]
      ensures IsEmpty() <==> |old(fieldSize)| == 0
      ensures FinalShape()
      ensures allocSize == if isSized then layoutSize else 0
    {
      var numField := |fieldSize|;
      if numField == 0 {
        fieldSize := [0];
      }
      fieldSize := fieldSize[0 := numField];
      allocSize := if isSized then layoutSize else 0;
      finalized := true;
    }

    /** getSize: the number of fields of the struct as declared. */
    function GetSize(): nat
      reads this
    {
      |offsetMap|
    }

    /** getExpandedSize: the number of flattened fields. */
    function GetExpandedSize(): (n: nat)
      reads this
      ensures FinalShape() && n > 0 ==> fieldSize[0] == n
    {
      |arrayFlags|
    }

    /** isEmpty: no field was recorded before `finalize`. */
    predicate IsEmpty()
      reads this
      requires |fieldSize| > 0
    {
      fieldSize[0] == 0
    }

    /** isFieldArray. */
    predicate IsFieldArray(field: nat)
      reads this
      requires field < |arrayFlags|
    {
      arrayFlags[field]
    }

    /** isFieldPointer. */
    predicate IsFieldPointer(field: nat)
      reads this
      requires field < |pointerFlags|
    {
      pointerFlags[field]
    }

    /** isFieldUnion. */
    predicate IsFieldUnion(field: nat)
      reads this
      requires field < |unionFlags|
    {
      unionFlags[field]
    }

    /** getOffset: where declared field `off` sits among the flattened fields. */
    function GetOffset(off: nat): nat
      reads this
      requires off < |offsetMap|
    {
      offsetMap[off]
    }

    /** getFieldRealSize. */
    function GetFieldRealSize(field: nat): nat
      reads this
      requires field < |fieldRealSize|
    {
      fieldRealSize[field]
    }

    /** getFieldOffset. */
    function GetFieldOffset(field: nat): nat
      reads this
      requires field < |fieldOffset|
    {
      fieldOffset[field]
    }

    /** getElementType: the recorded types of a field, the empty set for an unknown one. */
    function GetElementType(field: nat): (r: set<TypeRef>)
      reads this
      ensures field in elementType ==> r == elementType[field]
      ensures field !in elementType ==> r == {}
    {
      TypesOf(elementType, field)
    }

    /** getContainer: `st` exactly when (st, offset) was added as a container, else null. */
    function GetContainer(st: TypeRef, offset: nat): (r: Option<TypeRef>)
      reads this
      ensures r == Some(st) <==> (st, offset) in containers
      ensures r.Some? ==> r.value == st
    {
      if (st, offset) in containers then Some(st) else None
    }
  }

  /** The static largest-struct record of StructInfo. */
  class MaxStruct {
    var maxStruct: Option<TypeRef>
    var maxStructSize: nat

    /** No struct seen yet. */
    constructor ()
      ensures maxStruct == None && maxStructSize == 0
    {
      maxStruct := None;
      maxStructSize := 0;
    }

    /**
     * updateMaxStruct: a strictly larger size replaces both the struct and
     * the size; anything else changes nothing. The size never decreases.
     */
    method UpdateMaxStruct(st: TypeRef, structSize: nat)
      modifies this
      ensures maxStructSize >= old(maxStructSize) && maxStructSize >= structSize
      ensures structSize > old(maxStructSize) ==> maxStruct == Some(st) && maxStructSize == structSize
      ensures structSize <= old(maxStructSize) ==> unchanged(this)
    {
      if structSize > maxStructSize {
        maxStruct := Some(st);
        maxStructSize := structSize;
      }
    }

    /** getMaxStructSize. */
    function GetMaxStructSize(): nat
      reads this
    {
      maxStructSize
    }
  }
}
