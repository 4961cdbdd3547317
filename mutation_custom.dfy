/**
 * PoC-anchored mutation operators of prog/mutation_custom.go.
 *
 * The package-level anchor (NOfCalls, PocProg, ExecutePoCOnly) is the value
 * `Anchor`. Each operator first asks the gate `ContainPoC` whether the
 * serialized program still starts with the PoC; if not it hands the request
 * to its baseline counterpart (`Outcome.Baseline`, the program is left to
 * that external operator), otherwise it edits the calls at or after index
 * NOfCalls only and keeps the program within `ncalls` calls.
 *
 * Random draws (Intn, biasedRand, oneOf, randomChoice) are nondeterministic
 * picks in the range the code draws from; the chosen index is reported in a
 * ghost out-parameter. Collaborators whose code is not part of this model
 * (generateCall, mutateArg, mutateData, allocAddr, squashPtr, Serialize)
 * are parameters.
 */
module MutationCustom {
  import opened Common
  import opened ProgArgs

  /** The anchor globals: protected call count, PoC serialization, PoC-only switch. */
  datatype Anchor = Anchor(nOfCalls: nat, pocProg: seq<byte>, executePoCOnly: bool)

  /**
   * containPoC: the PoC-only switch is on, the program is at least as long as
   * the PoC, and the PoC equals the program's leading bytes.
   */
  function ContainPoC(a: Anchor, prog: seq<byte>): (r: bool)
    ensures r <==> a.executePoCOnly && a.pocProg <= prog
    ensures !a.executePoCOnly || |prog| < |a.pocProg| ==> !r
    ensures a.executePoCOnly && a.pocProg == [] ==> r
  {
    if !a.executePoCOnly then false
    else if |prog| < |a.pocProg| then false
    else a.pocProg == prog[..|a.pocProg|]
  }

  /** What an operator did: defer to the baseline operator, or answer `ok` itself. */
  datatype Outcome = Baseline | Returned(ok: bool)

  function Min(a: nat, b: nat): nat { if a <= b then a else b }

  // ---------------------------------------------------------------------
  // Call-sequence specifications of the operators
  // ---------------------------------------------------------------------

  /** The donor spliced in before position `at`, then the tail cut back to `ncalls` calls. */
  function Spliced(calls: seq<Call>, donor: seq<Call>, at: nat, ncalls: nat): (r: seq<Call>)
    requires at <= |calls|
    ensures |r| == Min(|calls| + |donor|, ncalls)
    ensures at <= ncalls ==> r[..at] == calls[..at]
    ensures r <= calls[..at] + donor + calls[at..]
  {
    var whole := calls[..at] + donor + calls[at..];
    if |whole| <= ncalls then whole else whole[..ncalls]
  }

  /** Calls removed at the insertion point so that an insertion into `n` calls fits `ncalls`. */
  function Overflow(n: nat, g: nat, ncalls: nat): nat
  {
    if n + g > ncalls then n + g - ncalls else 0
  }

  /**
   * The generated calls inserted before position `at`, after removing at `at`
   * until the program fits: the leading generated calls are the ones dropped.
   */
  function InsertedAt(calls: seq<Call>, gen: seq<Call>, at: nat, ncalls: nat): (r: seq<Call>)
    requires at <= |calls| < ncalls
    ensures |r| == Min(|calls| + |gen|, ncalls)
    ensures r[..at] == calls[..at]
    ensures r[|r| - (|calls| - at)..] == calls[at..]
  {
    calls[..at] + gen[Overflow(|calls|, |gen|, ncalls)..] + calls[at..]
  }

  /** No call at index `start` or later has arguments (also when `start` is past the end). */
  predicate NoArgsFrom(calls: seq<Call>, start: nat)
  {
    forall j :: start <= j < |calls| ==> |calls[j].args| == 0
  }

  // ---------------------------------------------------------------------
  // complexPtrsCus: the argument walk that collects complex pointers
  // ---------------------------------------------------------------------

  predicate IsComplexPtr(o: Option<Arg>)
  {
    o.Some? && o.value.PointerArg? && o.value.complex
  }

  /** `rel` leads from `a` to a complex pointer and passes no complex pointer on the way. */
  ghost predicate FoundComplex(a: Arg, rel: seq<nat>)
  {
    IsComplexPtr(ArgAt(a, rel)) && forall k :: 0 <= k < |rel| ==> !IsComplexPtr(ArgAt(a, rel[..k]))
  }

  /**
   * The walk of ForeachSubArg with the complexPtrsCus callback, started at `a`
   * found at `path`: a complex pointer is collected and the walk does not
   * descend into it.
   */
  function ComplexIn(a: Arg, path: seq<nat>): seq<seq<nat>>
  {
    match a
    case PointerArg(_, complex, _, _, res) =>
      if complex then [path]
      else if res.Some? then ComplexIn(res.value, path + [0])
      else []
    case GroupArg(_, inner) => ComplexInFields(inner, path, 0)
    case _ => []
  }

  /** The same walk over `fields`, the fields of the node at `path` from index `from` on. */
  function ComplexInFields(fields: seq<Arg>, path: seq<nat>, from: nat): seq<seq<nat>>
  {
    if fields == [] then []
    else ComplexIn(fields[0], path + [from]) + ComplexInFields(fields[1..], path, from + 1)
  }

  lemma FoundComplexStep(a: Arg, i: nat, rel: seq<nat>)
    requires ArgAt(a, [i]).Some?
    requires !IsComplexPtr(Some(a))
    requires FoundComplex(ArgAt(a, [i]).value, rel)
    ensures FoundComplex(a, [i] + rel)
  {
    ArgAtAppend(a, [i], rel);
    forall k | 0 <= k < |[i] + rel|
      ensures !IsComplexPtr(ArgAt(a, ([i] + rel)[..k]))
    {
      if k > 0 {
        assert ([i] + rel)[..k] == [i] + rel[..k - 1];
        ArgAtAppend(a, [i], rel[..k - 1]);
      } else {
        assert ([i] + rel)[..k] == [];
      }
    }
  }

  /** Every path the walk yields addresses a complex pointer reached without crossing another one. */
  lemma {:induction false} ComplexInSound(a: Arg, path: seq<nat>)
    ensures forall q :: q in ComplexIn(a, path) ==>
      |path| <= |q| && q[..|path|] == path && FoundComplex(a, q[|path|..])
    decreases a, 1
  {
    match a
    case PointerArg(_, complex, _, _, res) =>
      if complex {
        assert ComplexIn(a, path) == [path];
        assert path[|path|..] == [];
      } else if res.Some? {
        ComplexInSound(res.value, path + [0]);
        forall q | q in ComplexIn(a, path)
          ensures |path| <= |q| && q[..|path|] == path && FoundComplex(a, q[|path|..])
        {
          var rel := q[|path| + 1..];
          SliceAfterStep(q, path, 0);
          FoundComplexStep(a, 0, rel);
        }
      }
    case GroupArg(_, inner) =>
      ComplexInFieldsSound(inner, path, 0);
      forall q | q in ComplexIn(a, path)
        ensures |path| <= |q| && q[..|path|] == path && FoundComplex(a, q[|path|..])
      {
        assert q in ComplexInFields(inner, path, 0);
        assert FoundInField(inner, path, 0, q);
        var j := q[|path|];
        var rel := q[|path| + 1..];
        assert q[|path|..] == [j] + rel;
        FoundComplexStep(a, j, rel);
      }
    case ConstArg(_, _) =>
    case DataArg(_, _) =>
  }

  lemma {:induction false} ComplexInFieldsSound(fields: seq<Arg>, path: seq<nat>, from: nat)
    ensures forall q :: q in ComplexInFields(fields, path, from) ==> FoundInField(fields, path, from, q)
    decreases fields, 0
  {
    if fields != [] {
      ComplexInSound(fields[0], path + [from]);
      ComplexInFieldsSound(fields[1..], path, from + 1);
      forall q | q in ComplexInFields(fields, path, from)
        ensures FoundInField(fields, path, from, q)
      {
        if q in ComplexIn(fields[0], path + [from]) {
          FoundInFirstField(fields, path, from, q);
        } else {
          assert q in ComplexInFields(fields[1..], path, from + 1);
          FoundInLaterField(fields, path, from, q);
        }
      }
    }
  }

  /**
   * `q` extends `path` by the index of one of `fields` (numbered from
   * `from`) and then by a path to a complex pointer inside that field.
   */
  ghost predicate FoundInField(fields: seq<Arg>, path: seq<nat>, from: nat, q: seq<nat>)
  {
    |path| < |q| && q[..|path|] == path && from <= q[|path|] < from + |fields| &&
    FoundComplex(fields[q[|path|] - from], q[|path| + 1..])
  }

  lemma FoundInFirstField(fields: seq<Arg>, path: seq<nat>, from: nat, q: seq<nat>)
    requires fields != []
    requires |path + [from]| <= |q| && q[..|path + [from]|] == path + [from]
    requires FoundComplex(fields[0], q[|path + [from]|..])
    ensures FoundInField(fields, path, from, q)
  {
    assert q[..|path| + 1] == path + [from];
    assert q[..|path|] == path;
    assert q[|path|] == from;
  }

  lemma FoundInLaterField(fields: seq<Arg>, path: seq<nat>, from: nat, q: seq<nat>)
    requires fields != [] && FoundInField(fields[1..], path, from + 1, q)
    ensures FoundInField(fields, path, from, q)
  {
    assert fields[1..][q[|path|] - (from + 1)] == fields[q[|path|] - from];
  }

  /** A complex pointer found in call `c`: its first step picks a top-level argument. */
  ghost predicate FoundInCall(c: Call, q: seq<nat>)
  {
    |q| > 0 && q[0] < |c.args| && FoundComplex(c.args[q[0]], q[1..])
  }

  /** A complex pointer found by complexPtrsCus: the index of its call and its path in the call. */
  datatype ArgRef = ArgRef(call: nat, path: seq<nat>)

  /**
   * complexPtrsCus: the complex pointers of the calls at index NOfCalls or
   * later, none of them inside another one found; every such pointer is
   * reported.
   */
  method ComplexPtrsCus(calls: seq<Call>, nOfCalls: nat) returns (res: seq<ArgRef>)
    ensures forall k :: 0 <= k < |res| ==>
      nOfCalls <= res[k].call < |calls| && FoundInCall(calls[res[k].call], res[k].path)
    ensures forall j, q :: nOfCalls <= j < |calls| && FoundInCall(calls[j], q) ==> ArgRef(j, q) in res
    ensures res == [] <==> NoComplexPtrs(calls, nOfCalls)
  {
    res := [];
    for i := 0 to |calls|
      invariant forall k :: 0 <= k < |res| ==>
        nOfCalls <= res[k].call < i && FoundInCall(calls[res[k].call], res[k].path)
      invariant forall j, q :: nOfCalls <= j < i && FoundInCall(calls[j], q) ==> ArgRef(j, q) in res
    {
      if i < nOfCalls {
        continue;
      }
      var refs := FoundRefs(calls, i);
      res := res + refs;
    }
    if res != [] {
      assert FoundInCall(calls[res[0].call], res[0].path);
    }
  }

  /** The complex pointers the walk finds in call `i`, tagged with the call index: all of them. */
  function FoundRefs(calls: seq<Call>, i: nat): (refs: seq<ArgRef>)
    requires i < |calls|
    ensures forall k :: 0 <= k < |refs| ==> refs[k].call == i && FoundInCall(calls[i], refs[k].path)
    ensures forall q :: FoundInCall(calls[i], q) ==> ArgRef(i, q) in refs
  {
    var found := ComplexInFields(calls[i].args, [], 0);
    ComplexInFieldsSound(calls[i].args, [], 0);
    assert forall k :: 0 <= k < |found| ==> FoundInField(calls[i].args, [], 0, found[k]);
    var refs := seq(|found|, k requires 0 <= k < |found| => ArgRef(i, found[k]));
    assert forall q :: FoundInCall(calls[i], q) ==> ArgRef(i, q) in refs by {
      forall q | FoundInCall(calls[i], q) ensures ArgRef(i, q) in refs {
        WalkComplete(calls[i], q);
        var k :| 0 <= k < |found| && found[k] == q;
        assert refs[k] == ArgRef(i, q);
      }
    }
    refs
  }

  /** No call at index `start` or later holds a complex pointer that is not inside another one. */
  ghost predicate NoComplexPtrs(calls: seq<Call>, start: nat)
  {
    forall j, q :: start <= j < |calls| ==> !FoundInCall(calls[j], q)
  }

  /** The walk over a call's arguments yields every complex pointer found in the call. */
  lemma WalkComplete(c: Call, q: seq<nat>)
    requires FoundInCall(c, q)
    ensures q in ComplexInFields(c.args, [], 0)
  {
    ComplexInFieldsComplete(c.args, [], 0, q[0], q[1..]);
    assert [] + [q[0]] + q[1..] == q;
  }

  /** A complex pointer found below `a` lies below the first step's child, and `a` itself is not one. */
  lemma FoundComplexDown(a: Arg, i: nat, rest: seq<nat>)
    requires FoundComplex(a, [i] + rest)
    ensures !IsComplexPtr(Some(a)) && ArgAt(a, [i]).Some? && FoundComplex(ArgAt(a, [i]).value, rest)
  {
    var rel := [i] + rest;
    assert rel[..0] == [];
    assert rel[0] == i && rel[1..] == rest;
    assert ArgAt(a, [i]).Some?;
    var child := ArgAt(a, [i]).value;
    ArgAtAppend(a, [i], rest);
    forall k | 0 <= k < |rest| ensures !IsComplexPtr(ArgAt(child, rest[..k])) {
      assert rel[..k + 1] == [i] + rest[..k];
      ArgAtAppend(a, [i], rest[..k]);
    }
  }

  /** Every complex pointer reached from `a` without crossing another one is on the walk. */
  lemma {:induction false} ComplexInComplete(a: Arg, path: seq<nat>, rel: seq<nat>)
    requires FoundComplex(a, rel)
    ensures path + rel in ComplexIn(a, path)
    decreases a, 1
  {
    if rel == [] {
      assert path + rel == path;
      assert ArgAt(a, rel) == Some(a);
    } else {
      var i := rel[0];
      var rest := rel[1..];
      assert rel == [i] + rest;
      FoundComplexDown(a, i, rest);
      if a.PointerArg? {
        ComplexInComplete(a.res.value, path + [0], rest);
        assert path + [0] + rest == path + rel;
      } else {
        assert a.GroupArg?;
        ComplexInFieldsComplete(a.inner, path, 0, i, rest);
        assert path + [i] + rest == path + rel;
      }
    }
  }

  /** The same completeness over `fields`, numbered from `from`. */
  lemma {:induction false} ComplexInFieldsComplete(fields: seq<Arg>, path: seq<nat>, from: nat, j: nat, rest: seq<nat>)
    requires from <= j < from + |fields| && FoundComplex(fields[j - from], rest)
    ensures path + [j] + rest in ComplexInFields(fields, path, from)
    decreases fields, 0
  {
    if j == from {
      ComplexInComplete(fields[0], path + [from], rest);
    } else {
      assert fields[1..][j - (from + 1)] == fields[j - from];
      ComplexInFieldsComplete(fields[1..], path, from + 1, j, rest);
    }
  }

  // ---------------------------------------------------------------------
  // squashAnyCus: blobs under the chosen pointer and the base-pointer update
  // ---------------------------------------------------------------------

  predicate IsMutableBlob(o: Option<Arg>)
  {
    o.Some? && o.value.DataArg? && o.value.dir != DirOut
  }

  /** A mutable blob reached from `a` by `rel` through group fields only. */
  ghost predicate DirectBlob(a: Arg, rel: seq<nat>)
  {
    GroupPath(a, rel) && IsMutableBlob(ArgAt(a, rel))
  }

  /**
   * The mutable blob at `q` has the pointer at `b` as its base: `q` goes from
   * that pointer into its pointee and then through group fields only.
   */
  ghost predicate BlobWithBase(a: Arg, q: seq<nat>, b: seq<nat>)
  {
    var base := ArgAt(a, b);
    && base.Some? && base.value.PointerArg? && base.value.res.Some?
    && |b| < |q| && q[..|b|] == b && q[|b|] == 0
    && DirectBlob(base.value.res.value, q[|b| + 1..])
    && IsMutableBlob(ArgAt(a, q))
  }

  /** A blob found by the squashAnyCus walk and the path of its base pointer. */
  datatype BlobRef = BlobRef(path: seq<nat>, base: seq<nat>)

  /**
   * ForeachSubArg with the squashAnyCus callback, from `a` at `path` under the
   * base pointer at `base`: every blob whose direction is not DirOut, with the
   * nearest enclosing pointer as its base.
   */
  function BlobsIn(a: Arg, path: seq<nat>, base: seq<nat>): seq<BlobRef>
  {
    match a
    case DataArg(dir, _) => if dir != DirOut then [BlobRef(path, base)] else []
    case PointerArg(_, _, _, _, res) => if res.Some? then BlobsIn(res.value, path + [0], path) else []
    case GroupArg(_, inner) => BlobsInFields(inner, path, 0, base)
    case ConstArg(_, _) => []
  }

  function BlobsInFields(fields: seq<Arg>, path: seq<nat>, from: nat, base: seq<nat>): seq<BlobRef>
  {
    if fields == [] then []
    else BlobsIn(fields[0], path + [from], base) + BlobsInFields(fields[1..], path, from + 1, base)
  }

  lemma BlobWithBaseStep(a: Arg, i: nat, q: seq<nat>, b: seq<nat>)
    requires ArgAt(a, [i]).Some?
    requires BlobWithBase(ArgAt(a, [i]).value, q, b)
    ensures BlobWithBase(a, [i] + q, [i] + b)
  {
    ArgAtAppend(a, [i], b);
    ArgAtAppend(a, [i], q);
    assert ([i] + q)[..|[i] + b|] == [i] + b;
    assert ([i] + q)[|[i] + b| + 1..] == q[|b| + 1..];
  }

  /** What a walk entry of BlobsIn(a, path, base) is, relative to `a`. */
  ghost predicate BlobEntry(a: Arg, path: seq<nat>, base: seq<nat>, r: BlobRef)
  {
    && |path| <= |r.path| && r.path[..|path|] == path
    && (|| (r.base == base && DirectBlob(a, r.path[|path|..]))
        || (|path| <= |r.base| && r.base[..|path|] == path && BlobWithBase(a, r.path[|path|..], r.base[|path|..])))
  }

  lemma {:induction false} BlobsInSound(a: Arg, path: seq<nat>, base: seq<nat>)
    ensures forall r :: r in BlobsIn(a, path, base) ==> BlobEntry(a, path, base, r)
    decreases a, 1
  {
    match a
    case DataArg(dir, _) =>
      if dir != DirOut {
        assert path[|path|..] == [];
      }
    case PointerArg(_, _, _, _, res) =>
      if res.Some? {
        var x := res.value;
        var p0 := path + [0];
        BlobsInSound(x, p0, path);
        forall r | r in BlobsIn(a, path, base) ensures BlobEntry(a, path, base, r) {
          BlobEntryPointerStep(a, path, base, r);
        }
      }
    case GroupArg(_, inner) =>
      BlobsInFieldsSound(inner, path, 0, base);
      forall r | r in BlobsIn(a, path, base) ensures BlobEntry(a, path, base, r) {
        BlobEntryStep(a, r.path[|path|], path, base, r);
      }
    case ConstArg(_, _) =>
  }

  /** An entry found in the pointee of a pointer is an entry of the pointer, with the pointer as its base. */
  lemma BlobEntryPointerStep(a: Arg, path: seq<nat>, base: seq<nat>, r: BlobRef)
    requires a.PointerArg? && a.res.Some?
    requires BlobEntry(a.res.value, path + [0], path, r)
    ensures BlobEntry(a, path, base, r)
  {
    var x := a.res.value;
    SliceAfterStep(r.path, path, 0);
    var rel := r.path[|path| + 1..];
    if r.base == path && DirectBlob(x, rel) {
      PointeeBlobHasBase(a, rel);
      assert r.base[..|path|] == path && r.base[|path|..] == [];
    } else {
      SliceAfterStep(r.base, path, 0);
      BlobWithBaseStep(a, 0, rel, r.base[|path| + 1..]);
    }
  }

  /** A blob reached from the pointee of `a` through group fields has `a` itself as its base. */
  lemma PointeeBlobHasBase(a: Arg, rel: seq<nat>)
    requires a.PointerArg? && a.res.Some? && DirectBlob(a.res.value, rel)
    ensures BlobWithBase(a, [0] + rel, [])
  {
    assert ArgAt(a, []) == Some(a);
    assert ArgAt(a, [0]) == Some(a.res.value);
    ArgAtAppend(a, [0], rel);
    assert ([0] + rel)[1..] == rel;
  }

  /** A path that starts with `path + [i]` is `path`, then `i`, then the rest. */
  lemma SliceAfterStep(q: seq<nat>, path: seq<nat>, i: nat)
    requires |path| + 1 <= |q| && q[..|path| + 1] == path + [i]
    ensures q[..|path|] == path && q[|path|..] == [i] + q[|path| + 1..]
  {
    assert q[..|path|] == q[..|path| + 1][..|path|];
    assert q[|path|] == q[..|path| + 1][|path|];
  }

  /** An entry found in field `j` of a group is an entry of the group. */
  lemma BlobEntryStep(a: Arg, j: nat, path: seq<nat>, base: seq<nat>, r: BlobRef)
    requires a.GroupArg? && j < |a.inner|
    requires BlobEntry(a.inner[j], path + [j], base, r)
    ensures BlobEntry(a, path, base, r)
  {
    var p1 := path + [j];
    assert ArgAt(a, [j]) == Some(a.inner[j]);
    assert r.path[..|path|] == path by { assert r.path[..|p1|][..|path|] == path; }
    var rel := r.path[|p1|..];
    assert r.path[|path|..] == [j] + rel;
    if r.base == base && DirectBlob(a.inner[j], rel) {
      ArgAtAppend(a, [j], rel);
      assert ([j] + rel)[1..] == rel;
    } else {
      assert r.base[..|path|] == path by { assert r.base[..|p1|][..|path|] == path; }
      assert r.base[|path|..] == [j] + r.base[|p1|..];
      BlobWithBaseStep(a, j, rel, r.base[|p1|..]);
    }
  }

  lemma {:induction false} BlobsInFieldsSound(fields: seq<Arg>, path: seq<nat>, from: nat, base: seq<nat>)
    ensures forall r :: r in BlobsInFields(fields, path, from, base) ==>
      |path| < |r.path| && r.path[..|path|] == path && from <= r.path[|path|] < from + |fields| &&
      BlobEntry(fields[r.path[|path|] - from], path + [r.path[|path|]], base, r)
    decreases fields, 0
  {
    if fields != [] {
      var p1 := path + [from];
      BlobsInSound(fields[0], p1, base);
      BlobsInFieldsSound(fields[1..], path, from + 1, base);
      forall r | r in BlobsInFields(fields, path, from, base)
        ensures |path| < |r.path| && r.path[..|path|] == path && from <= r.path[|path|] < from + |fields| &&
          BlobEntry(fields[r.path[|path|] - from], path + [r.path[|path|]], base, r)
      {
        if r in BlobsIn(fields[0], p1, base) {
          assert r.path[..|path| + 1] == p1;
          assert r.path[..|path|] == path;
          assert r.path[|path|] == from;
        } else {
          assert r in BlobsInFields(fields[1..], path, from + 1, base);
          assert fields[1..][r.path[|path|] - (from + 1)] == fields[r.path[|path|] - from];
        }
      }
    }
  }

  /** The walk started at a pointer finds only blobs that have a base pointer. */
  lemma BlobsUnderPointer(ptr: Arg)
    requires ptr.PointerArg?
    ensures forall r :: r in BlobsIn(ptr, [], []) ==> BlobWithBase(ptr, r.path, r.base)
  {
    BlobsInSound(ptr, [], []);
    forall r | r in BlobsIn(ptr, [], []) ensures BlobWithBase(ptr, r.path, r.base) {
      assert BlobEntry(ptr, [], [], r);
      assert r.path[0..] == r.path && r.base[0..] == r.base;
      if DirectBlob(ptr, r.path) {
        assert false;
      }
    }
  }

  /** squashPtr applied when the pointer is not already an ANY pointer; `squashedRes` is its new pointee. */
  function SquashIfNeeded(ptr: Arg, squashedRes: Arg): (r: Arg)
    requires ptr.PointerArg?
    ensures r.PointerArg? && r.anyPtr && r.address == ptr.address
    ensures ptr.anyPtr <==> r == ptr
  {
    if ptr.anyPtr then ptr else ptr.(anyPtr := true, res := Some(squashedRes))
  }

  /**
   * The pointer `ptr` after squashAnyCus gave the blob at `q` the data
   * `newData` (the result of mutateData) and, when the pointee of the base
   * pointer at `b` grew, replaced that base by a pointer allocated at
   * `newAddress` (the result of allocAddr) to the same pointee.
   */
  function MutateBlob(ptr: Arg, q: seq<nat>, b: seq<nat>, newData: seq<byte>, newAddress: nat): Arg
    requires BlobWithBase(ptr, q, b)
  {
    var blob := ArgAt(ptr, q).value;
    var base := ArgAt(ptr, b).value;
    var mutated := DataArg(blob.dir, newData);
    var res1 := ReplaceAt(base.res.value, q[|b| + 1..], mutated);
    var ptr1 := ReplaceAt(ptr, q, mutated);
    if Size(base.res.value) < Size(res1) then ReplaceAt(ptr1, b, base.(address := newAddress, res := Some(res1)))
    else ptr1
  }

  /**
   * The blob gets the new data and keeps its direction; the base pointer's
   * pointee size changes by the change in blob length; the base pointer is
   * re-allocated exactly when the blob grew.
   */
  lemma MutateBlobEffect(ptr: Arg, q: seq<nat>, b: seq<nat>, newData: seq<byte>, newAddress: nat)
    requires BlobWithBase(ptr, q, b)
    ensures var r := MutateBlob(ptr, q, b, newData, newAddress);
      var blob := ArgAt(ptr, q).value;
      var base := ArgAt(ptr, b).value;
      && blob.DataArg? && blob.dir != DirOut
      && ArgAt(r, q) == Some(DataArg(blob.dir, newData))
      && ArgAt(r, b).Some? && ArgAt(r, b).value.PointerArg? && ArgAt(r, b).value.res.Some?
      && Size(ArgAt(r, b).value.res.value) + |blob.data| == Size(base.res.value) + |newData|
      && ArgAt(r, b).value.address == (if |blob.data| < |newData| then newAddress else base.address)
  {
    var blob := ArgAt(ptr, q).value;
    var base := ArgAt(ptr, b).value;
    var x := base.res.value;
    var rest := q[|b| + 1..];
    var c := [0] + rest;
    assert q == b + c;
    assert c[1..] == rest;
    var mutated := DataArg(blob.dir, newData);
    ArgAtAppend(ptr, b, c);
    assert ArgAt(x, rest) == Some(blob);
    ReplaceSize(x, rest, mutated);
    var res1 := ReplaceAt(x, rest, mutated);
    var ptr1 := ReplaceAt(ptr, q, mutated);
    ReplaceThenRead(ptr, q, mutated);
    ReplaceBelow(ptr, b, c, mutated);
    assert ArgAt(ptr1, b) == Some(base.(res := Some(res1)));
    ReplaceThenRead(x, rest, mutated);
    if Size(x) < Size(res1) {
      var base2 := base.(address := newAddress, res := Some(res1));
      ReplaceThenRead(ptr1, b, base2);
      ReplaceThenReadBelow(ptr1, b, c, base2);
    }
  }

  // ---------------------------------------------------------------------
  // chooseCallCus
  // ---------------------------------------------------------------------

  /** randomChoice over the weights: some index of the weight list. */
  method RandomChoice(weights: seq<nat>) returns (i: nat)
    requires |weights| > 0
    ensures i < |weights|
  {
    i :| i < |weights|;
  }

  /**
   * chooseCallCus: -1 when no call at index `start` or later has arguments,
   * otherwise `start` plus a position in the weight list of those calls.
   * `callPrio` is the summed mutation priority of a call's arguments.
   */
  method ChooseCallCus(calls: seq<Call>, start: nat, callPrio: Call -> nat) returns (r: int)
    ensures r == -1 <==> NoArgsFrom(calls, start)
    ensures r != -1 ==> start <= r < |calls|
  {
    var callPriorities: seq<nat> := [];
    var noArgs := true;
    for i := 0 to |calls|
      invariant |callPriorities| == if i <= start then 0 else i - start
      invariant noArgs <==> NoArgsFrom(calls[..i], start)
    {
      assert NoArgsFrom(calls[..i + 1], start) <==>
        NoArgsFrom(calls[..i], start) && (i < start || |calls[i].args| == 0)
      by {
        assert calls[..i + 1][i] == calls[i];
        forall j | start <= j < i ensures calls[..i + 1][j] == calls[..i][j] {}
      }
      if i < start {
        continue;
      }
      callPriorities := callPriorities + [callPrio(calls[i])];
      if |calls[i].args| > 0 {
        noArgs := false;
      }
    }
    assert calls[..|calls|] == calls;
    if noArgs {
      return -1;
    }
    var k := RandomChoice(callPriorities);
    return start + k;
  }

  // ---------------------------------------------------------------------
  // The program under mutation and the mutator
  // ---------------------------------------------------------------------

  /** A program: its calls, edited in place by removeCall and insertBefore. */
  class Prog {
    var calls: seq<Call>

    constructor (calls: seq<Call>)
      ensures this.calls == calls
    {
      this.calls := calls;
    }

    /** removeCall: the call at `i` is gone, the others keep their order. */
    method RemoveCall(i: nat)
      requires i < |calls|
      modifies this
      ensures calls == old(calls[..i] + calls[i + 1..])
    {
      calls := calls[..i] + calls[i + 1..];
    }

    /** insertBefore: `cs` inserted before position `at` (`at == |calls|` appends). */
    method InsertBefore(at: nat, cs: seq<Call>)
      requires at <= |calls|
      modifies this
      ensures calls == old(calls[..at]) + cs + old(calls[at..])
    {
      calls := calls[..at] + cs + calls[at..];
    }

    /**
     * The trimming loop of insertCallAtEnd and insertCallCus: while the
     * program is over `ncalls` calls, remove the call at the insertion point.
     */
    method TrimAt(at: nat, ncalls: nat, ghost before: seq<Call>, ghost gen: seq<Call>)
      requires at <= |before| < ncalls
      requires calls == before[..at] + gen + before[at..]
      modifies this
      ensures calls == InsertedAt(before, gen, at, ncalls)
    {
      ghost var j := 0;
      while |calls| > ncalls
        invariant 0 <= j <= |gen|
        invariant calls == before[..at] + gen[j..] + before[at..]
        invariant j > 0 ==> |calls| >= ncalls
        decreases |calls|
      {
        assert gen[j..] == [gen[j]] + gen[j + 1..];
        RemoveCall(at);
        assert calls == before[..at] + gen[j + 1..] + before[at..];
        j := j + 1;
      }
      assert j == Overflow(|before|, |gen|, ncalls);
    }
  }

  /** Replacing the element at `i` leaves the prefix before it and starts the suffix from it with the new element. */
  lemma UpdateSplit(s: seq<Call>, i: nat, x: Call)
    requires i < |s|
    ensures s[i := x][..i] == s[..i] && s[i := x][i..] == [x] + s[i + 1..]
  {
  }

  /** The calls of a finished round, regrouped around the tracked call. */
  lemma RoundCalls(pre: seq<Call>, gen: seq<Call>, x: Call, rest: seq<Call>)
    ensures pre + gen + ([x] + rest) == pre + gen + [x] + rest
    ensures (pre + gen + ([x] + rest))[|pre| + |gen|] == x
  {
  }

  /** Removing the call just before `post` drops the last of the `k` generated calls kept. */
  lemma DropLastGenerated(pre: seq<Call>, gen: seq<Call>, post: seq<Call>, k: nat)
    requires 0 < k <= |gen|
    ensures var s := pre + gen[..k] + post;
      s[..|pre| + k - 1] + s[|pre| + k..] == pre + gen[..k - 1] + post
  {
    var s := pre + gen[..k] + post;
    assert s[..|pre| + k - 1] == pre + gen[..k - 1];
    assert s[|pre| + k..] == post;
  }

  /** The outcome a collaborator reports for one round of mutateArgCus. */
  datatype Round = Round(
    mutated: Call,          // the chosen call after mutateArg (and assignSizesCall) changed it
    ok: bool,               // mutateArg succeeded
    generated: seq<Call>,   // the calls mutateArg asked to insert before it
    coin: bool)             // r.oneOf(3)

  /**
   * The mutator context: the program, the call ceiling, the corpus, the anchor
   * globals and the serializer the gate looks at.
   */
  class Mutator {
    const p: Prog
    const ncalls: nat
    const corpus: seq<seq<Call>>
    const anchor: Anchor
    const serialize: seq<Call> -> seq<byte>

    constructor (p: Prog, ncalls: nat, corpus: seq<seq<Call>>, anchor: Anchor, serialize: seq<Call> -> seq<byte>)
      ensures this.p == p && this.ncalls == ncalls && this.corpus == corpus
      ensures this.anchor == anchor && this.serialize == serialize
    {
      this.p := p;
      this.ncalls := ncalls;
      this.corpus := corpus;
      this.anchor := anchor;
      this.serialize := serialize;
    }

    /** The gate every operator asks first: containPoC(p.Serialize()). */
    function OnPoC(): bool
      reads p
    {
      ContainPoC(anchor, serialize(p.calls))
    }

    /**
     * spliceCus: on the PoC path, splices a corpus program in before an index
     * in [NOfCalls, len) and cuts the tail back to `ncalls`; fails without
     * change on an empty corpus, a program with no call past the PoC, or a
     * full program.
     */
    method SpliceCus() returns (out: Outcome, ghost donor: nat, ghost at: nat)
      modifies p
      ensures !old(OnPoC()) ==> out == Baseline && p.calls == old(p.calls)
      ensures old(OnPoC()) ==>
        out == Returned(|corpus| > 0 && anchor.nOfCalls < old(|p.calls|) < ncalls)
      ensures out == Returned(false) ==> p.calls == old(p.calls)
      ensures out == Returned(true) ==>
        && donor < |corpus| && anchor.nOfCalls <= at < old(|p.calls|)
        && p.calls == Spliced(old(p.calls), corpus[donor], at, ncalls)
        && |p.calls| == Min(old(|p.calls|) + |corpus[donor]|, ncalls)
        && p.calls[..anchor.nOfCalls] == old(p.calls)[..anchor.nOfCalls]
    {
      donor, at := 0, 0;
      if !OnPoC() {
        return Baseline, donor, at;
      }
      if |corpus| == 0 || |p.calls| - anchor.nOfCalls <= 0 || |p.calls| >= ncalls {
        return Returned(false), donor, at;
      }
      var d: nat :| d < |corpus|;
      var idx :| anchor.nOfCalls <= idx < |p.calls|;
      donor, at := d, idx;
      ghost var before := p.calls;
      p.calls := p.calls[..idx] + corpus[d] + p.calls[idx..];
      ghost var whole := p.calls;
      var i := |p.calls| - 1;
      while i >= ncalls
        invariant -1 <= i < |whole|
        invariant p.calls == whole[..i + 1]
        invariant i + 1 == |whole| || i + 1 >= ncalls
      {
        p.RemoveCall(i);
        i := i - 1;
      }
      assert p.calls == Spliced(before, corpus[donor], at, ncalls);
      assert p.calls[..anchor.nOfCalls] == p.calls[..at][..anchor.nOfCalls];
      return Returned(true), donor, at;
    }

    /**
     * squashAnyCus: on the PoC path, picks a complex pointer of a call at
     * NOfCalls or later, squashes it into an ANY pointer unless it is one
     * already, then gives one of its non-DirOut blobs the data `newData`;
     * `squashedRes`, `newData` and `newAddress` are what squashPtr,
     * mutateData and allocAddr produce.
     */
    method SquashAnyCus(squashedRes: Arg, newData: seq<byte>, newAddress: nat)
      returns (out: Outcome, ghost ref: ArgRef, ghost squashed: Arg, ghost blob: BlobRef)
      modifies p
      ensures !old(OnPoC()) ==> out == Baseline && p.calls == old(p.calls)
      ensures old(OnPoC()) && NoComplexPtrs(old(p.calls), anchor.nOfCalls) ==>
        out == Returned(false) && p.calls == old(p.calls)
      ensures old(OnPoC()) && !NoComplexPtrs(old(p.calls), anchor.nOfCalls) ==>
        && out.Returned?
        && anchor.nOfCalls <= ref.call < old(|p.calls|)
        && FoundInCall(old(p.calls)[ref.call], ref.path)
        && squashed == SquashIfNeeded(ArgInCall(old(p.calls)[ref.call], ref.path).value, squashedRes)
        && (out.ok <==> BlobsIn(squashed, [], []) != [])
        && (!out.ok ==> p.calls == old(p.calls)[ref.call := ReplaceInCall(old(p.calls)[ref.call], ref.path, squashed)])
        && (out.ok ==>
              && blob in BlobsIn(squashed, [], [])
              && BlobWithBase(squashed, blob.path, blob.base)
              && p.calls == old(p.calls)[ref.call := ReplaceInCall(old(p.calls)[ref.call], ref.path,
                   MutateBlob(squashed, blob.path, blob.base, newData, newAddress))])
    {
      ref, squashed, blob := ArgRef(0, []), squashedRes, BlobRef([], []);
      if !OnPoC() {
        return Baseline, ref, squashed, blob;
      }
      var complexPtrs := ComplexPtrsCus(p.calls, anchor.nOfCalls);
      if |complexPtrs| == 0 {
        return Returned(false), ref, squashed, blob;
      }
      var k :| 0 <= k < |complexPtrs|;
      var r := complexPtrs[k];
      ref := r;
      ghost var calls0 := p.calls;
      var call := p.calls[r.call];
      var ptr := ArgInCall(call, r.path).value;
      var sq := SquashIfNeeded(ptr, squashedRes);
      squashed := sq;
      if !ptr.anyPtr {
        ptr := sq;
        p.calls := p.calls[r.call := ReplaceInCall(call, r.path, ptr)];
      }
      ReplaceInCallTwice(call, ref.path, squashed, squashed);
      if ptr == ArgInCall(call, r.path).value {
        ReplaceSame(call.args[r.path[0]], r.path[1..]);
        assert call.args[r.path[0] := call.args[r.path[0]]] == call.args;
      }
      assert p.calls == calls0[ref.call := ReplaceInCall(call, ref.path, squashed)];
      var blobs := BlobsIn(ptr, [], []);
      if |blobs| == 0 {
        return Returned(false), ref, squashed, blob;
      }
      var j :| 0 <= j < |blobs|;
      var b := blobs[j];
      blob := b;
      BlobsUnderPointer(ptr);
      var mutatedPtr := MutateBlob(ptr, b.path, b.base, newData, newAddress);
      ReplaceInCallTwice(call, r.path, squashed, mutatedPtr);
      p.calls := p.calls[r.call := ReplaceInCall(p.calls[r.call], r.path, mutatedPtr)];
      return Returned(true), ref, squashed, blob;
    }

    /**
     * insertCallAtEnd: off the PoC path it reports success and changes
     * nothing; on it, it fails at the ceiling and otherwise appends the
     * generated calls, dropping the leading ones that do not fit.
     */
    method InsertCallAtEnd(generated: seq<Call>) returns (out: Outcome)
      modifies p
      ensures !old(OnPoC()) ==> out == Returned(true) && p.calls == old(p.calls)
      ensures old(OnPoC()) ==> out == Returned(old(|p.calls|) < ncalls)
      ensures out == Returned(false) ==> p.calls == old(p.calls)
      ensures old(OnPoC()) && out == Returned(true) ==>
        p.calls == InsertedAt(old(p.calls), generated, old(|p.calls|), ncalls)
    {
      if !OnPoC() {
        return Returned(true);
      }
      if |p.calls| >= ncalls {
        return Returned(false);
      }
      var idx := |p.calls|;
      ghost var before := p.calls;
      p.InsertBefore(idx, generated);
      p.TrimAt(idx, ncalls, before, generated);
      return Returned(true);
    }

    /**
     * insertCallCus: on the PoC path, fails at the ceiling; otherwise inserts
     * the generated calls before an index in [NOfCalls, len] (exactly len when
     * the program holds only the PoC) and removes the overflow at that index.
     */
    method InsertCallCus(generated: seq<Call>) returns (out: Outcome, ghost at: nat)
      requires OnPoC() && |p.calls| < ncalls ==> anchor.nOfCalls <= |p.calls|
      modifies p
      ensures !old(OnPoC()) ==> out == Baseline && p.calls == old(p.calls)
      ensures old(OnPoC()) ==> out == Returned(old(|p.calls|) < ncalls)
      ensures out == Returned(false) ==> p.calls == old(p.calls)
      ensures out == Returned(true) ==>
        && anchor.nOfCalls <= at <= old(|p.calls|)
        && (anchor.nOfCalls == old(|p.calls|) ==> at == old(|p.calls|))
        && p.calls == InsertedAt(old(p.calls), generated, at, ncalls)
    {
      at := 0;
      if !OnPoC() {
        return Baseline, at;
      }
      if |p.calls| >= ncalls {
        return Returned(false), at;
      }
      var idx: nat :| anchor.nOfCalls <= idx <= |p.calls|;
      if anchor.nOfCalls == |p.calls| {
        idx := |p.calls|;
      }
      at := idx;
      ghost var before := p.calls;
      p.InsertBefore(idx, generated);
      p.TrimAt(idx, ncalls, before, generated);
      return Returned(true), at;
    }

    /**
     * removeCallCus: on the PoC path, fails on an empty program and otherwise
     * removes one call at an index in [NOfCalls, len).
     */
    method RemoveCallCus() returns (out: Outcome, ghost at: nat)
      requires OnPoC() && |p.calls| > 0 ==> anchor.nOfCalls < |p.calls|
      modifies p
      ensures !old(OnPoC()) ==> out == Baseline && p.calls == old(p.calls)
      ensures old(OnPoC()) ==> out == Returned(old(|p.calls|) > 0)
      ensures out == Returned(false) ==> p.calls == old(p.calls)
      ensures out == Returned(true) ==>
        && anchor.nOfCalls <= at < old(|p.calls|)
        && p.calls == old(p.calls)[..at] + old(p.calls)[at + 1..]
    {
      at := 0;
      if !OnPoC() {
        return Baseline, at;
      }
      if |p.calls| == 0 {
        return Returned(false), at;
      }
      var idx :| anchor.nOfCalls <= idx < |p.calls|;
      at := idx;
      p.RemoveCall(idx);
      return Returned(true), at;
    }

    /**
     * The body of a successful mutateArgCus round: the tracked call at `idx`
     * has become `mutated` in place; `gen` goes in before it and `idx`
     * advances past them; then, while the program is over `ncalls`, `idx`
     * steps back and the call there is removed, so the trailing generated
     * calls are dropped and the tracked call stays at the returned index.
     */
    method ApplyRound(idx: nat, mutated: Call, gen: seq<Call>) returns (newIdx: nat, ghost kept: nat)
      requires idx < |p.calls| <= ncalls
      modifies p
      ensures kept <= |gen| && newIdx == idx + kept
      ensures |old(p.calls)| + kept == Min(|old(p.calls)| + |gen|, ncalls)
      ensures p.calls == old(p.calls)[..idx] + gen[..kept] + [mutated] + old(p.calls)[idx + 1..]
      ensures newIdx < |p.calls| && p.calls[newIdx] == mutated
    {
      ghost var pre := p.calls[..idx];
      ghost var rest := p.calls[idx + 1..];
      ghost var post := [mutated] + rest;
      UpdateSplit(p.calls, idx, mutated);
      p.calls := p.calls[idx := mutated];
      p.InsertBefore(idx, gen);
      newIdx := idx + |gen|;
      kept := |gen|;
      assert gen[..kept] == gen;
      while |p.calls| > ncalls
        invariant kept <= |gen|
        invariant newIdx == idx + kept
        invariant p.calls == pre + gen[..kept] + post
        invariant |p.calls| == idx + kept + |post|
        invariant kept < |gen| ==> |p.calls| >= ncalls
        decreases |p.calls|
      {
        newIdx := newIdx - 1;
        DropLastGenerated(pre, gen, post, kept);
        p.RemoveCall(newIdx);
        kept := kept - 1;
      }
      RoundCalls(pre, gen[..kept], mutated, rest);
    }

    /**
     * The round loop of mutateArgCus on the call `c` at `idx`: it fails as
     * soon as the call has no argument to mutate; a failed mutateArg round
     * is retried; a successful one ends the loop when the coin says so.
     * The script running out ends the loop as well.
     */
    method MutateRounds(idx0: nat, argCount: Call -> nat, rounds: seq<Round>)
      returns (ok: bool, ghost inserted: seq<Call>)
      requires idx0 < |p.calls| <= ncalls
      requires |rounds| > 0
      modifies p
      ensures |p.calls| == old(|p.calls|) + |inserted| <= ncalls
      ensures p.calls == old(p.calls)[..idx0] + inserted + [p.calls[idx0 + |inserted|]] + old(p.calls)[idx0 + 1..]
      ensures argCount(old(p.calls)[idx0]) == 0 ==> !ok && p.calls == old(p.calls)
    {
      inserted := [];
      ghost var calls0 := p.calls;
      ghost var pre := p.calls[..idx0];
      ghost var post := p.calls[idx0 + 1..];
      var idx := idx0;
      var c := p.calls[idx];
      assert p.calls == pre + [c] + post;
      var stop := false;
      var i := 0;
      while !stop && i < |rounds|
        invariant 0 <= i <= |rounds|
        invariant idx == idx0 + |inserted|
        invariant |p.calls| <= ncalls
        invariant p.calls == pre + inserted + [c] + post
        invariant i == 0 ==> inserted == [] && c == calls0[idx0] && p.calls == calls0 && !stop
        invariant argCount(calls0[idx0]) == 0 ==> i == 0
        decreases |rounds| - i
      {
        ok := true;
        if argCount(c) == 0 {
          return false, inserted;
        }
        var round := rounds[i];
        i := i + 1;
        if !round.ok {
          ok := false;
        } else {
          c := round.mutated;
          ghost var kept;
          idx, kept := ApplyRound(idx, c, round.generated);
          // The source panics here if the tracked call is not at `idx`.
          assert 0 <= idx < |p.calls| && p.calls[idx] == c;
          assert p.calls == pre + (inserted + round.generated[..kept]) + [c] + post;
          inserted := inserted + round.generated[..kept];
        }
        stop := ok && round.coin;
      }
      return true, inserted;
    }

    /**
     * mutateArgCus: on the PoC path, picks a call at NOfCalls or later with
     * chooseCallCus and mutates it round after round; each round's generated
     * calls go in just before it and the overflow is removed just before it,
     * so the call is found again at the tracked index. `rounds` is what the
     * collaborators report, round by round; `argCount` counts the arguments
     * ForeachArg collects for mutation.
     */
    method MutateArgCus(callPrio: Call -> nat, argCount: Call -> nat, rounds: seq<Round>)
      returns (out: Outcome, ghost chosen: int, ghost inserted: seq<Call>)
      requires |p.calls| <= ncalls
      requires |rounds| > 0
      modifies p
      ensures !old(OnPoC()) ==> out == Baseline && p.calls == old(p.calls)
      ensures old(OnPoC()) ==> out.Returned?
      ensures old(OnPoC()) && (old(|p.calls|) == 0 || NoArgsFrom(old(p.calls), anchor.nOfCalls)) ==>
        out == Returned(false) && p.calls == old(p.calls)
      ensures chosen == -1 ==> p.calls == old(p.calls)
      ensures chosen != -1 ==>
        && old(OnPoC())
        && anchor.nOfCalls <= chosen < old(|p.calls|)
        && (argCount(old(p.calls)[chosen]) == 0 ==> out == Returned(false) && p.calls == old(p.calls))
        && |p.calls| == old(|p.calls|) + |inserted| <= ncalls
        && p.calls == old(p.calls)[..chosen] + inserted + [p.calls[chosen + |inserted|]] + old(p.calls)[chosen + 1..]
    {
      chosen, inserted := -1, [];
      var start := anchor.nOfCalls;
      if !OnPoC() {
        return Baseline, chosen, inserted;
      }
      if |p.calls| == 0 {
        return Returned(false), chosen, inserted;
      }
      var idx := ChooseCallCus(p.calls, start, callPrio);
      if idx < 0 {
        return Returned(false), chosen, inserted;
      }
      chosen := idx;
      var ok;
      ok, inserted := MutateRounds(idx, argCount, rounds);
      return Returned(ok), chosen, inserted;
    }
  }
}
