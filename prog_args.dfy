/**
 * The program representation the mutation operators work on: a call is an
 * identity plus a tree of argument nodes. Argument contents matter only to
 * the squash operator (sizes, directions, nesting of pointers), so the tree
 * keeps exactly those facts.
 */
module ProgArgs {
  import opened Common

  /** Direction of an argument's type. */
  datatype Dir = DirIn | DirOut | DirInOut

  /**
   * An argument node. A pointer records whether its type is a complex pointer
   * (the squash candidates), whether its type is already the ANY pointer, the
   * address it was allocated at, and its pointee. A group holds its fields.
   */
  datatype Arg =
    | ConstArg(dir: Dir, size: nat)
    | DataArg(dir: Dir, data: seq<byte>)
    | PointerArg(dir: Dir, complex: bool, anyPtr: bool, address: nat, res: Option<Arg>)
    | GroupArg(dir: Dir, inner: seq<Arg>)

  /** A call: `id` stands for the identity of the call object, `args` for its top-level arguments. */
  datatype Call = Call(id: nat, args: seq<Arg>)

  /** Width of a pointer argument on the 64-bit targets. */
  const PtrSize: nat := 8

  /** Serialized size of an argument: a blob counts its bytes, a group the sum of its fields. */
  function Size(a: Arg): nat
  {
    match a
    case ConstArg(_, n) => n
    case DataArg(_, d) => |d|
    case PointerArg(_, _, _, _, _) => PtrSize
    case GroupArg(_, inner) => SumSizes(inner)
  }

  function SumSizes(s: seq<Arg>): nat
  {
    if s == [] then 0 else Size(s[0]) + SumSizes(s[1..])
  }

  /** The node reached from `a` by `path`: 0 steps into a pointee, i steps into field i of a group. */
  function ArgAt(a: Arg, path: seq<nat>): Option<Arg>
    decreases |path|
  {
    if path == [] then Some(a)
    else match a
      case PointerArg(_, _, _, _, res) =>
        if path[0] == 0 && res.Some? then ArgAt(res.value, path[1..]) else None
      case GroupArg(_, inner) =>
        if path[0] < |inner| then ArgAt(inner[path[0]], path[1..]) else None
      case _ => None
  }

  /** `a` with the node at `path` replaced by `b` (unchanged when `path` leads nowhere). */
  function ReplaceAt(a: Arg, path: seq<nat>, b: Arg): Arg
    decreases |path|
  {
    if path == [] then b
    else match a
      case PointerArg(d, c, y, addr, res) =>
        if path[0] == 0 && res.Some? then PointerArg(d, c, y, addr, Some(ReplaceAt(res.value, path[1..], b))) else a
      case GroupArg(d, inner) =>
        if path[0] < |inner| then GroupArg(d, inner[path[0] := ReplaceAt(inner[path[0]], path[1..], b)]) else a
      case _ => a
  }

  /** A path whose every step goes into a group field (so it never crosses a pointer). */
  predicate GroupPath(a: Arg, path: seq<nat>)
    decreases |path|
  {
    path == [] || (a.GroupArg? && path[0] < |a.inner| && GroupPath(a.inner[path[0]], path[1..]))
  }

  /** The node of call `c` at `path`, whose first step picks a top-level argument. */
  function ArgInCall(c: Call, path: seq<nat>): Option<Arg>
  {
    if path == [] || path[0] >= |c.args| then None else ArgAt(c.args[path[0]], path[1..])
  }

  function ReplaceInCall(c: Call, path: seq<nat>, b: Arg): Call
  {
    if path == [] || path[0] >= |c.args| then c
    else c.(args := c.args[path[0] := ReplaceAt(c.args[path[0]], path[1..], b)])
  }

  lemma {:induction false} SumSizesUpdate(s: seq<Arg>, i: nat, x: Arg)
    requires i < |s|
    ensures SumSizes(s[i := x]) + Size(s[i]) == SumSizes(s) + Size(x)
  {
    if i == 0 {
      assert s[i := x][1..] == s[1..];
    } else {
      assert s[i := x][1..] == s[1..][i - 1 := x];
      SumSizesUpdate(s[1..], i - 1, x);
    }
  }

  /**
   * Replacing a node reached through group fields only changes the size of the
   * enclosing tree by exactly the change in the node's own size.
   */
  lemma {:induction false} ReplaceSize(a: Arg, path: seq<nat>, b: Arg)
    requires GroupPath(a, path)
    ensures ArgAt(a, path).Some?
    ensures Size(ReplaceAt(a, path, b)) + Size(ArgAt(a, path).value) == Size(a) + Size(b)
    decreases |path|
  {
    if path != [] {
      var i := path[0];
      ReplaceSize(a.inner[i], path[1..], b);
      SumSizesUpdate(a.inner, i, ReplaceAt(a.inner[i], path[1..], b));
    }
  }

  /** Reading back a replaced node yields the new node. */
  lemma {:induction false} ReplaceThenRead(a: Arg, path: seq<nat>, b: Arg)
    requires ArgAt(a, path).Some?
    ensures ArgAt(ReplaceAt(a, path, b), path) == Some(b)
    decreases |path|
  {
    if path != [] {
      match a
      case PointerArg(_, _, _, _, res) => ReplaceThenRead(res.value, path[1..], b);
      case GroupArg(_, inner) => ReplaceThenRead(inner[path[0]], path[1..], b);
    }
  }

  /** Following `b` and then `c` is following `b + c`. */
  lemma {:induction false} ArgAtAppend(a: Arg, b: seq<nat>, c: seq<nat>)
    requires ArgAt(a, b).Some?
    ensures ArgAt(a, b + c) == ArgAt(ArgAt(a, b).value, c)
    decreases |b|
  {
    if b != [] {
      assert (b + c)[1..] == b[1..] + c;
      match a
      case PointerArg(_, _, _, _, res) => ArgAtAppend(res.value, b[1..], c);
      case GroupArg(_, inner) => ArgAtAppend(inner[b[0]], b[1..], c);
    } else {
      assert b + c == c;
    }
  }

  /** After a replacement at `b + c`, the node at `b` is the old node with the replacement made at `c`. */
  lemma {:induction false} ReplaceBelow(a: Arg, b: seq<nat>, c: seq<nat>, y: Arg)
    requires ArgAt(a, b).Some?
    ensures ArgAt(ReplaceAt(a, b + c, y), b) == Some(ReplaceAt(ArgAt(a, b).value, c, y))
    decreases |b|
  {
    if b != [] {
      assert (b + c)[1..] == b[1..] + c;
      match a
      case PointerArg(_, _, _, _, res) => ReplaceBelow(res.value, b[1..], c, y);
      case GroupArg(_, inner) => ReplaceBelow(inner[b[0]], b[1..], c, y);
    } else {
      assert b + c == c;
    }
  }

  /** A node below a replaced node is read from the replacement. */
  lemma ReplaceThenReadBelow(a: Arg, b: seq<nat>, c: seq<nat>, y: Arg)
    requires ArgAt(a, b).Some?
    ensures ArgAt(ReplaceAt(a, b, y), b + c) == ArgAt(y, c)
  {
    ReplaceThenRead(a, b, y);
    ArgAtAppend(ReplaceAt(a, b, y), b, c);
  }

  /** Two replacements at the same node: the second one wins. */
  lemma {:induction false} ReplaceTwice(a: Arg, path: seq<nat>, x: Arg, y: Arg)
    requires ArgAt(a, path).Some?
    ensures ReplaceAt(ReplaceAt(a, path, x), path, y) == ReplaceAt(a, path, y)
    decreases |path|
  {
    if path != [] {
      match a
      case PointerArg(_, _, _, _, res) => ReplaceTwice(res.value, path[1..], x, y);
      case GroupArg(_, inner) => ReplaceTwice(inner[path[0]], path[1..], x, y);
    }
  }

  lemma ReplaceInCallTwice(c: Call, path: seq<nat>, x: Arg, y: Arg)
    requires ArgInCall(c, path).Some?
    ensures ReplaceInCall(ReplaceInCall(c, path, x), path, y) == ReplaceInCall(c, path, y)
    ensures ArgInCall(ReplaceInCall(c, path, x), path) == Some(x)
  {
    ReplaceTwice(c.args[path[0]], path[1..], x, y);
    ReplaceThenRead(c.args[path[0]], path[1..], x);
  }

  /** Putting back the node found at a path gives the same tree. */
  lemma {:induction false} ReplaceSame(a: Arg, path: seq<nat>)
    requires ArgAt(a, path).Some?
    ensures ReplaceAt(a, path, ArgAt(a, path).value) == a
    decreases |path|
  {
    if path != [] {
      match a
      case PointerArg(_, _, _, _, res) => ReplaceSame(res.value, path[1..]);
      case GroupArg(_, inner) =>
        ReplaceSame(inner[path[0]], path[1..]);
        assert inner[path[0] := inner[path[0]]] == inner;
    }
  }
}
