/**
 * The courier package (courier/queue.go, courier/utilities.go): the four
 * package-level work queues shared by the manager and the fuzzer, and the
 * helpers that feed them.
 *
 * The package-level slices are the fields of one `Courier` object; appending
 * reassigns a field to the longer slice, popping re-slices it from index 1.
 * Go strings in CommandsQueue hold the raw bytes, so they are `seq<byte>`
 * here and the string conversions are the identity.
 */
module Courier {
  import opened Common

  /** Queue selectors accepted by RetrieveFirstArg. */
  const Mutating: int := 0
  const Commands: int := 1
  const S2E: int := 2
  const Critical: int := 3

  /** rpctype.ProgQueue: a program, its protected call count and its anchor. */
  datatype ProgQueue = ProgQueue(prog: seq<byte>, nOfCalls: int, pocProg: seq<byte>)

  /** S2EArgs: a program and a pointer description. */
  datatype S2EArgs = S2EArgs(prog: seq<byte>, pointer: seq<byte>)

  /** What RetrieveFirstArg hands back: nil, or the head of the selected queue. */
  datatype Retrieved = Nil | ProgItem(item: ProgQueue) | CommandBytes(bytes: seq<byte>) | S2EItem(args: S2EArgs)

  /** The package state: MutateArgsQueue, CriticalPoCQueue, CommandsQueue, S2EArgsQueue. */
  class Courier {
    var mutateArgsQueue: seq<ProgQueue>
    var criticalPoCQueue: seq<ProgQueue>
    var commandsQueue: seq<seq<byte>>
    var s2eArgsQueue: seq<S2EArgs>

    /** The package initialisation: four empty queues. */
    constructor ()
      ensures mutateArgsQueue == [] && criticalPoCQueue == [] && commandsQueue == [] && s2eArgsQueue == []
    {
      mutateArgsQueue, criticalPoCQueue, commandsQueue, s2eArgsQueue := [], [], [], [];
    }

    /** AppendMutatingQueue: one item, stored as given, at the tail of MutateArgsQueue. */
    method AppendMutatingQueue(p: seq<byte>, pocProg: seq<byte>, nOfCalls: int)
      modifies this
      ensures mutateArgsQueue == old(mutateArgsQueue) + [ProgQueue(p, nOfCalls, pocProg)]
      ensures criticalPoCQueue == old(criticalPoCQueue) && commandsQueue == old(commandsQueue)
      ensures s2eArgsQueue == old(s2eArgsQueue)
    {
      var a := ProgQueue(p, nOfCalls, pocProg);
      mutateArgsQueue := mutateArgsQueue + [a];
    }

    /** AppendCriticalPoCQueue: the program anchored to itself with no protected call. */
    method AppendCriticalPoCQueue(p: seq<byte>)
      modifies this
      ensures criticalPoCQueue == old(criticalPoCQueue) + [ProgQueue(p, 0, p)]
      ensures mutateArgsQueue == old(mutateArgsQueue) && commandsQueue == old(commandsQueue)
      ensures s2eArgsQueue == old(s2eArgsQueue)
    {
      var a := ProgQueue(p, 0, p);
      criticalPoCQueue := criticalPoCQueue + [a];
    }

    /** AppendCommandsQueue: the bytes at the tail of CommandsQueue. */
    method AppendCommandsQueue(p: seq<byte>)
      modifies this
      ensures commandsQueue == old(commandsQueue) + [p]
      ensures mutateArgsQueue == old(mutateArgsQueue) && criticalPoCQueue == old(criticalPoCQueue)
      ensures s2eArgsQueue == old(s2eArgsQueue)
    {
      commandsQueue := commandsQueue + [p];
    }

    /** AppendS2EQueue: the arguments at the tail of S2EArgsQueue. */
    method AppendS2EQueue(p: S2EArgs)
      modifies this
      ensures s2eArgsQueue == old(s2eArgsQueue) + [p]
      ensures mutateArgsQueue == old(mutateArgsQueue) && criticalPoCQueue == old(criticalPoCQueue)
      ensures commandsQueue == old(commandsQueue)
    {
      s2eArgsQueue := s2eArgsQueue + [p];
    }

    /**
     * RetrieveFirstArg: for Mutating, Commands and S2E, the head of that queue,
     * which is removed; nil on an empty queue. The switch has no case for
     * Critical, so that flag (like any other) yields nil and pops nothing.
     */
    method RetrieveFirstArg(flag: int) returns (r: Retrieved)
      modifies this
      ensures criticalPoCQueue == old(criticalPoCQueue)
      ensures flag == Mutating && old(mutateArgsQueue) != [] ==>
        r == ProgItem(old(mutateArgsQueue)[0]) && mutateArgsQueue == old(mutateArgsQueue)[1..]
      ensures flag == Commands && old(commandsQueue) != [] ==>
        r == CommandBytes(old(commandsQueue)[0]) && commandsQueue == old(commandsQueue)[1..]
      ensures flag == S2E && old(s2eArgsQueue) != [] ==>
        r == S2EItem(old(s2eArgsQueue)[0]) && s2eArgsQueue == old(s2eArgsQueue)[1..]
      ensures flag != Mutating ==> mutateArgsQueue == old(mutateArgsQueue)
      ensures flag != Commands ==> commandsQueue == old(commandsQueue)
      ensures flag != S2E ==> s2eArgsQueue == old(s2eArgsQueue)
      ensures r == Nil <==>
        || (flag == Mutating && old(mutateArgsQueue) == [])
        || (flag == Commands && old(commandsQueue) == [])
        || (flag == S2E && old(s2eArgsQueue) == [])
        || (flag != Mutating && flag != Commands && flag != S2E)
      ensures r == Nil ==> unchanged(this)
    {
      if flag == Mutating {
        if |mutateArgsQueue| != 0 {
          var p := mutateArgsQueue[0];
          mutateArgsQueue := mutateArgsQueue[1..];
          return ProgItem(p);
        }
      } else if flag == Commands {
        if |commandsQueue| != 0 {
          var p := commandsQueue[0];
          commandsQueue := commandsQueue[1..];
          return CommandBytes(p);
        }
      } else if flag == S2E {
        if |s2eArgsQueue| != 0 {
          var p := s2eArgsQueue[0];
          s2eArgsQueue := s2eArgsQueue[1..];
          return S2EItem(p);
        }
      }
      return Nil;
    }

    /** The Critical queue is never drained: RetrieveFirstArg(Critical) is always nil. */
    method RetrieveCritical() returns (r: Retrieved)
      modifies this
      ensures r == Nil && unchanged(this)
    {
      r := RetrieveFirstArg(Critical);
    }

    /**
     * FIFO order and the command round trip: two items appended to an empty
     * queue come back in the order they went in, with the bytes as given.
     */
    method FifoOrder(a: ProgQueue, b: ProgQueue, x: seq<byte>, y: seq<byte>)
      returns (r1: Retrieved, r2: Retrieved, c1: Retrieved, c2: Retrieved)
      requires mutateArgsQueue == [] && commandsQueue == []
      modifies this
      ensures r1 == ProgItem(a) && r2 == ProgItem(b) && mutateArgsQueue == []
      ensures c1 == CommandBytes(x) && c2 == CommandBytes(y) && commandsQueue == []
    {
      AppendMutatingQueue(a.prog, a.pocProg, a.nOfCalls);
      AppendMutatingQueue(b.prog, b.pocProg, b.nOfCalls);
      AppendCommandsQueue(x);
      AppendCommandsQueue(y);
      r1 := RetrieveFirstArg(Mutating);
      r2 := RetrieveFirstArg(Mutating);
      c1 := RetrieveFirstArg(Commands);
      c2 := RetrieveFirstArg(Commands);
    }

    /** AppendTestcase: exactly AppendMutatingQueue. */
    method AppendTestcase(testcase: seq<byte>, pocProg: seq<byte>, nOfCalls: int)
      modifies this
      ensures mutateArgsQueue == old(mutateArgsQueue) + [ProgQueue(testcase, nOfCalls, pocProg)]
      ensures criticalPoCQueue == old(criticalPoCQueue) && commandsQueue == old(commandsQueue)
      ensures s2eArgsQueue == old(s2eArgsQueue)
    {
      AppendMutatingQueue(testcase, pocProg, nOfCalls);
    }
  }

  // ---------------------------------------------------------------------
  // RemoveComments
  // ---------------------------------------------------------------------

  const NewLine: byte := 10
  const Hash: byte := 35

  /** The bytes of `lines` one after the other. */
  function Concat(lines: seq<seq<byte>>): seq<byte>
  {
    if lines == [] then [] else lines[0] + Concat(lines[1..])
  }

  lemma {:induction false} ConcatAppend(a: seq<seq<byte>>, b: seq<seq<byte>>)
    ensures Concat(a + b) == Concat(a) + Concat(b)
  {
    if a == [] {
      assert a + b == b;
    } else {
      assert (a + b)[1..] == a[1..] + b;
      ConcatAppend(a[1..], b);
    }
  }

  lemma ConcatSingle(line: seq<byte>)
    ensures Concat([line]) == line
  {
    assert [line][1..] == [];
  }

  /** The index of the first newline of `text`. */
  function FirstNewline(text: seq<byte>): (i: nat)
    requires NewLine in text
    ensures i < |text| && text[i] == NewLine && NewLine !in text[..i]
  {
    if text[0] == NewLine then 0
    else
      var i := FirstNewline(text[1..]);
      assert text[..i + 1] == [text[0]] + text[1..][..i];
      i + 1
  }

  /** Copying one more line appends its bytes. */
  lemma ConcatStep(lines: seq<seq<byte>>, a: nat, k: nat)
    requires a <= k < |lines|
    ensures Concat(lines[a..k + 1]) == Concat(lines[a..k]) + lines[k]
  {
    ConcatAppend(lines[a..k], [lines[k]]);
    assert lines[a..k + 1] == lines[a..k] + [lines[k]];
    ConcatSingle(lines[k]);
  }

  /**
   * bytes.SplitAfter(text, "\n"): the pieces of `text`, each but the last
   * ending with its newline; the last is what follows the last newline
   * (empty when `text` ends with one, and the only piece of an empty text).
   */
  function SplitAfterNewline(text: seq<byte>): (lines: seq<seq<byte>>)
    ensures |lines| > 0 && Concat(lines) == text
    decreases |text|
  {
    if NewLine !in text then [text]
    else
      var i := FirstNewline(text);
      assert text == text[..i + 1] + text[i + 1..];
      [text[..i + 1]] + SplitAfterNewline(text[i + 1..])
  }

  /** Every piece but the last is a whole line ending in a newline; the last has none. */
  lemma {:induction false} SplitAfterNewlinePieces(text: seq<byte>)
    ensures LinesShape(SplitAfterNewline(text))
    decreases |text|
  {
    if NewLine in text {
      var i := FirstNewline(text);
      SplitAfterNewlinePieces(text[i + 1..]);
      var head := text[..i + 1];
      assert head[|head| - 1] == text[i];
      LinesShapeCons(head, SplitAfterNewline(text[i + 1..]));
    }
  }

  /** Every line but the last ends in a newline, and the last line has none. */
  predicate LinesShape(lines: seq<seq<byte>>)
  {
    && |lines| > 0
    && (forall k :: 0 <= k < |lines| - 1 ==> |lines[k]| > 0 && lines[k][|lines[k]| - 1] == NewLine)
    && NewLine !in lines[|lines| - 1]
  }

  lemma LinesShapeCons(head: seq<byte>, rest: seq<seq<byte>>)
    requires |head| > 0 && head[|head| - 1] == NewLine && LinesShape(rest)
    ensures LinesShape([head] + rest)
  {
    var lines := [head] + rest;
    forall k | 0 <= k < |lines| - 1
      ensures |lines[k]| > 0 && lines[k][|lines[k]| - 1] == NewLine
    {
      if k == 0 {
        assert lines[k] == head;
      } else {
        assert lines[k] == rest[k - 1];
      }
    }
    assert lines[|lines| - 1] == rest[|rest| - 1];
  }

  predicate IsComment(line: seq<byte>)
  {
    |line| > 0 && line[0] == Hash
  }

  /**
   * The scan of RemoveComments reads `line[0]` of every piece up to the first
   * non-comment one: none of those pieces may be empty.
   */
  predicate ScanSafe(lines: seq<seq<byte>>)
  {
    lines == [] || (|lines[0]| > 0 && (lines[0][0] == Hash ==> ScanSafe(lines[1..])))
  }

  /** The index of the first line that is not a comment, |lines| when there is none. */
  function FirstCode(lines: seq<seq<byte>>): (i: nat)
    ensures i <= |lines|
  {
    if lines == [] || !IsComment(lines[0]) then 0 else 1 + FirstCode(lines[1..])
  }

  /** Where RemoveComments starts copying: the first non-comment line, or 0 when there is none. */
  function CodeStart(lines: seq<seq<byte>>): nat
  {
    var i := FirstCode(lines);
    if i < |lines| then i else 0
  }

  lemma {:induction false} FirstCodeIsFirst(lines: seq<seq<byte>>)
    ensures forall j :: 0 <= j < FirstCode(lines) ==> IsComment(lines[j])
    ensures FirstCode(lines) < |lines| ==> !IsComment(lines[FirstCode(lines)])
  {
    if lines != [] && IsComment(lines[0]) {
      FirstCodeIsFirst(lines[1..]);
    }
  }

  /**
   * What RemoveComments keeps: the text is the stripped comment block
   * followed by the result; the block is made of comment lines and ends at a
   * line that is not one; nothing is stripped exactly when the first line is
   * not a comment or every line is.
   */
  lemma StrippedText(text: seq<byte>)
    ensures var lines := SplitAfterNewline(text);
      var s := CodeStart(lines);
      && s < |lines|
      && StripComments(text) == Concat(lines[s..])
      && text == Concat(lines[..s]) + StripComments(text)
      && (forall j :: 0 <= j < s ==> IsComment(lines[j]))
      && (s > 0 ==> !IsComment(lines[s]))
      && (s == 0 <==> !IsComment(lines[0]) || forall j :: 0 <= j < |lines| ==> IsComment(lines[j]))
      && (s == 0 ==> StripComments(text) == text)
  {
    var lines := SplitAfterNewline(text);
    var s := CodeStart(lines);
    FirstCodeIsFirst(lines);
    ConcatAppend(lines[..s], lines[s..]);
    assert lines[..s] + lines[s..] == lines;
    assert lines[0..] == lines;
  }

  /**
   * The scan of RemoveComments: the index of the first piece that does not
   * start with '#', or 0 when the scan runs off the end.
   */
  method ScanCommentBlock(lines: seq<seq<byte>>) returns (start: nat)
    requires ScanSafe(lines)
    ensures start == CodeStart(lines)
  {
    start := 0;
    var i := 0;
    while i < |lines|
      invariant 0 <= i <= |lines|
      invariant ScanSafe(lines[i..])
      invariant FirstCode(lines) == i + FirstCode(lines[i..])
    {
      assert lines[i..][0] == lines[i];
      if lines[i][0] != Hash {
        start := i;
        break;
      }
      assert lines[i..][1..] == lines[i + 1..];
      i := i + 1;
    }
  }

  /** The text RemoveComments returns: its lines from CodeStart on. */
  function StripComments(text: seq<byte>): seq<byte>
  {
    var lines := SplitAfterNewline(text);
    Concat(lines[CodeStart(lines)..])
  }

  /** RemoveComments: copies the lines from the end of the leading comment block on. */
  method RemoveComments(text: seq<byte>) returns (res: seq<byte>)
    requires ScanSafe(SplitAfterNewline(text))
    ensures res == StripComments(text)
  {
    var lines := SplitAfterNewline(text);
    var start := ScanCommentBlock(lines);
    res := [];
    for k := start to |lines|
      invariant res == Concat(lines[start..k])
    {
      ConcatStep(lines, start, k);
      res := res + lines[k];
    }
    assert lines[start..|lines|] == lines[start..];
  }
}
