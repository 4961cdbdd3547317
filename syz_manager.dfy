/**
 * The testcase seeding of syz-manager/utilities.go: the manager reads the
 * PoC testcase once, anchors the mutation globals to it and fills the
 * courier's mutating queue with the testcase and its mutants.
 *
 * The file system, the parser (Deserialize), the mutator (Mutate followed by
 * Serialize) and the channel are outside the model: the file is the
 * `TestcaseFile` value, the parser is `parseCalls` (the number of calls of
 * the parsed program, or None on a parse error), the i-th mutant's bytes are
 * `mutant(i)`, and the value sent on the channel is the `Reply`.
 */
module SyzManager {
  import opened Common
  import opened Courier

  /** What the testcase path holds: no file, a directory, a file whose os.Open or ioutil.ReadFile fails, or its bytes. */
  datatype TestcaseFile = Missing | Directory | Unreadable | Contents(raw: seq<byte>)

  /** What the routine sends on its channel; `Streams` is the endless streaming loop. */
  datatype Reply = Silent | Sent(code: int) | Streams

  /** The number of items one seeding round appends. */
  const SeedCount: nat := 500

  /**
   * The seeding batch: the testcase anchored to itself, then the mutants
   * 1..499 anchored to the PoC, all protecting `n` calls.
   */
  function SeedBatch(testcase: seq<byte>, n: int, mutant: nat -> seq<byte>): seq<ProgQueue>
  {
    [ProgQueue(testcase, n, testcase)] + MutantBatch(testcase, n, mutant, 1, SeedCount)
  }

  /** Exactly 500 items: first the raw testcase anchored to itself, then the mutants anchored to it. */
  lemma SeedBatchContents(testcase: seq<byte>, n: int, mutant: nat -> seq<byte>)
    ensures var r := SeedBatch(testcase, n, mutant);
      && |r| == SeedCount
      && r[0] == ProgQueue(testcase, n, testcase)
      && forall k :: 1 <= k < SeedCount ==> r[k] == ProgQueue(mutant(k), n, testcase)
  {
    var r := SeedBatch(testcase, n, mutant);
    var m := MutantBatch(testcase, n, mutant, 1, SeedCount);
    forall k | 1 <= k < SeedCount ensures r[k] == ProgQueue(mutant(k), n, testcase) {
      assert r[k] == m[k - 1];
    }
  }

  /** The mutants `from`..`to`-1, each anchored to `anchor` with `n` protected calls. */
  function MutantBatch(anchor: seq<byte>, n: int, mutant: nat -> seq<byte>, from: nat, to: nat): (r: seq<ProgQueue>)
    requires from <= to
    ensures |r| == to - from
    ensures forall k :: 0 <= k < to - from ==> r[k] == ProgQueue(mutant(from + k), n, anchor)
  {
    seq(to - from, k requires 0 <= k < to - from => ProgQueue(mutant(from + k), n, anchor))
  }

  /**
   * createTemplatePatch's content: "syscall:" and the missing syscall when
   * there is one, then "arg:" and the last group argument when there is one,
   * with no separator.
   */
  function TemplatePatch(missingSyscall: string, lastGroupArg: string): (r: string)
    ensures |r| == (if missingSyscall != "" then 8 + |missingSyscall| else 0)
                 + (if lastGroupArg != "" then 4 + |lastGroupArg| else 0)
    ensures missingSyscall != "" ==> r[..8 + |missingSyscall|] == "syscall:" + missingSyscall
    ensures lastGroupArg != "" ==> r[|r| - 4 - |lastGroupArg|..] == "arg:" + lastGroupArg
    ensures missingSyscall == "" && lastGroupArg == "" ==> r == ""
  {
    (if missingSyscall != "" then "syscall:" + missingSyscall else "")
      + (if lastGroupArg != "" then "arg:" + lastGroupArg else "")
  }

  /** The manager's share of the globals and the courier it feeds. */
  class Manager {
    var flagParseTestcase: bool
    var flagExtraMutating: bool
    var nOfCalls: int             // prog.NOfCalls
    var pocProg: seq<byte>        // prog.PocProg
    var correctTemplate: Option<string>   // the CorrectTemplate file, once written
    const executePoCOnly: bool    // prog.ExecutePoCOnly
    const courier: Courier

    constructor (courier: Courier, executePoCOnly: bool)
      ensures this.courier == courier && this.executePoCOnly == executePoCOnly
      ensures !flagParseTestcase && !flagExtraMutating
      ensures nOfCalls == 0 && pocProg == [] && correctTemplate == None
    {
      this.courier := courier;
      this.executePoCOnly := executePoCOnly;
      flagParseTestcase, flagExtraMutating := false, false;
      nOfCalls, pocProg := 0, [];
      correctTemplate := None;
    }

    /**
     * createTemplatePatch: writes the patch text when the file could be
     * created (`created`); a failed os.Create leaves nothing written.
     */
    method CreateTemplatePatch(created: bool, missingSyscall: string, lastGroupArg: string)
      modifies this`correctTemplate
      ensures correctTemplate == if created then Some(TemplatePatch(missingSyscall, lastGroupArg)) else old(correctTemplate)
    {
      if created {
        correctTemplate := Some(TemplatePatch(missingSyscall, lastGroupArg));
      }
    }

    /**
     * parseCustomizedTestcase up to the streaming loop: one-shot; a missing
     * file or a directory sends nothing; an unreadable file sends 1; a parse
     * failure writes the template patch and sends -1; a parsed testcase fixes
     * NOfCalls and PocProg and seeds 500 items, then sends 0 (PoC-only) or
     * goes on streaming.
     */
    method ParseCustomizedTestcase(file: TestcaseFile, parseCalls: seq<byte> -> Option<nat>,
                                   mutant: nat -> seq<byte>, created: bool,
                                   missingSyscall: string, lastGroupArg: string)
      returns (reply: Reply)
      requires !flagParseTestcase && file.Contents? ==> ScanSafe(SplitAfterNewline(file.raw))
      modifies this, courier
      ensures old(flagParseTestcase) ==> reply == Sent(0) && unchanged(this) && unchanged(courier)
      ensures flagParseTestcase && flagExtraMutating == old(flagExtraMutating)
      ensures courier.criticalPoCQueue == old(courier.criticalPoCQueue)
      ensures courier.commandsQueue == old(courier.commandsQueue)
      ensures courier.s2eArgsQueue == old(courier.s2eArgsQueue)
      ensures !old(flagParseTestcase) && !file.Contents? ==>
        && reply == (if file.Unreadable? then Sent(1) else Silent)
        && courier.mutateArgsQueue == old(courier.mutateArgsQueue)
        && nOfCalls == old(nOfCalls) && pocProg == old(pocProg) && correctTemplate == old(correctTemplate)
      ensures !old(flagParseTestcase) && file.Contents? && parseCalls(StripComments(file.raw)).None? ==>
        && reply == Sent(-1)
        && courier.mutateArgsQueue == old(courier.mutateArgsQueue)
        && nOfCalls == old(nOfCalls) && pocProg == old(pocProg)
        && correctTemplate == if created then Some(TemplatePatch(missingSyscall, lastGroupArg)) else old(correctTemplate)
      ensures !old(flagParseTestcase) && file.Contents? && parseCalls(StripComments(file.raw)).Some? ==>
        && nOfCalls == parseCalls(StripComments(file.raw)).value
        && pocProg == StripComments(file.raw)
        && courier.mutateArgsQueue == old(courier.mutateArgsQueue) + SeedBatch(pocProg, nOfCalls, mutant)
        && correctTemplate == old(correctTemplate)
        && reply == (if executePoCOnly then Sent(0) else Streams)
    {
      if flagParseTestcase {
        return Sent(0);
      }
      flagParseTestcase := true;
      if file.Missing? || file.Directory? {
        return Silent;
      }
      if file.Unreadable? {
        return Sent(1);
      }
      var testcase := RemoveComments(file.raw);
      var parsed := parseCalls(testcase);
      if parsed.None? {
        CreateTemplatePatch(created, missingSyscall, lastGroupArg);
        return Sent(-1);
      }
      nOfCalls := parsed.value;
      pocProg := testcase;
      Seed(mutant);
      if !executePoCOnly {
        return Streams;
      }
      return Sent(0);
    }

    /**
     * The seeding step: the testcase anchored to itself, then 499 mutants
     * anchored to the PoC, all protecting NOfCalls calls.
     */
    method Seed(mutant: nat -> seq<byte>)
      modifies courier
      ensures courier.mutateArgsQueue == old(courier.mutateArgsQueue) + SeedBatch(pocProg, nOfCalls, mutant)
      ensures courier.criticalPoCQueue == old(courier.criticalPoCQueue)
      ensures courier.commandsQueue == old(courier.commandsQueue)
      ensures courier.s2eArgsQueue == old(courier.s2eArgsQueue)
    {
      var poc, n := pocProg, nOfCalls;
      ghost var q0 := courier.mutateArgsQueue;
      ghost var seed := [ProgQueue(poc, n, poc)];
      courier.AppendTestcase(poc, poc, n);
      for i := 1 to SeedCount
        invariant courier.mutateArgsQueue == q0 + seed + MutantBatch(poc, n, mutant, 1, i)
        invariant courier.criticalPoCQueue == old(courier.criticalPoCQueue)
        invariant courier.commandsQueue == old(courier.commandsQueue)
        invariant courier.s2eArgsQueue == old(courier.s2eArgsQueue)
      {
        courier.AppendTestcase(mutant(i), poc, n);
        assert MutantBatch(poc, n, mutant, 1, i + 1) == MutantBatch(poc, n, mutant, 1, i) + [ProgQueue(mutant(i), n, poc)];
      }
      assert SeedBatch(poc, n, mutant) == seed + MutantBatch(poc, n, mutant, 1, SeedCount);
    }

    /**
     * One iteration of the streaming loop: one more mutant anchored to the
     * PoC; when extra mutation was requested, doExtraMutate runs and the
     * request is cleared.
     */
    method StreamIteration(m: seq<byte>)
      requires !executePoCOnly
      modifies this`flagExtraMutating, courier
      ensures courier.mutateArgsQueue == old(courier.mutateArgsQueue) + [ProgQueue(m, nOfCalls, pocProg)]
      ensures courier.criticalPoCQueue == old(courier.criticalPoCQueue)
      ensures courier.commandsQueue == old(courier.commandsQueue)
      ensures courier.s2eArgsQueue == old(courier.s2eArgsQueue)
      ensures !flagExtraMutating
    {
      courier.AppendTestcase(m, pocProg, nOfCalls);
      if flagExtraMutating {
        DoExtraMutate();
        flagExtraMutating := false;
      }
    }

    /**
     * doExtraMutate: pops the Critical queue, which RetrieveFirstArg never
     * serves, so the pop is nil and nothing is appended: the reseeding from a
     * critical PoC cannot happen.
     */
    method DoExtraMutate()
      modifies courier
      ensures unchanged(courier)
    {
      var pq := courier.RetrieveFirstArg(Critical);
      if pq != Nil {
        assert false;
      }
    }

    /**
     * The body doExtraMutate would run on a popped item: when the item's
     * program parses, 499 mutants anchored to the item's bytes, protecting
     * as many calls as the parsed program has; otherwise nothing.
     */
    method ExtraMutate(pq: ProgQueue, parseCalls: seq<byte> -> Option<nat>, mutant: nat -> seq<byte>)
      modifies courier
      ensures courier.mutateArgsQueue == old(courier.mutateArgsQueue) +
        (if parseCalls(pq.prog).Some? then MutantBatch(pq.prog, parseCalls(pq.prog).value, mutant, 1, SeedCount) else [])
      ensures courier.criticalPoCQueue == old(courier.criticalPoCQueue)
      ensures courier.commandsQueue == old(courier.commandsQueue)
      ensures courier.s2eArgsQueue == old(courier.s2eArgsQueue)
    {
      var testcase := pq.prog;
      var oriP := parseCalls(testcase);
      if oriP.None? {
        return;
      }
      ghost var q0 := courier.mutateArgsQueue;
      for i := 1 to SeedCount
        invariant courier.mutateArgsQueue == q0 + MutantBatch(testcase, oriP.value, mutant, 1, i)
        invariant courier.criticalPoCQueue == old(courier.criticalPoCQueue)
        invariant courier.commandsQueue == old(courier.commandsQueue)
        invariant courier.s2eArgsQueue == old(courier.s2eArgsQueue)
      {
        courier.AppendTestcase(mutant(i), testcase, oriP.value);
        assert MutantBatch(testcase, oriP.value, mutant, 1, i + 1)
          == MutantBatch(testcase, oriP.value, mutant, 1, i) + [ProgQueue(mutant(i), oriP.value, testcase)];
      }
    }
  }
}
