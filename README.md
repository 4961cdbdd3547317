# Verified model of a PoC-anchored syzkaller fork

This fork of the syzkaller kernel fuzzer is built around one proof-of-concept
program (the "PoC", or testcase). The manager reads the testcase once. It
records how many calls it has (`NOfCalls`) and its serialized bytes
(`PocProg`). It then seeds the work queues with the testcase and 499 mutants.
The mutation operators keep the first `NOfCalls` calls of every program that
still starts with the PoC bytes, and edit only the calls after them.

Around this core there are two tools, and both are modelled too.
`syz-branch2addr` turns an objdump listing into covered PCs and
conditional-branch pairs, and maps kernel paths and trace lines. The kernel
structure analyzer is an LLVM pass suite. Its bookkeeping is modelled: the
Andersen node table with merge chains and GEP memoisation, the per-struct
field vectors, and the pass-data registry.

The Dafny project has one module per source unit:

| file | module | source |
|---|---|---|
| common.dfy | Common | shared `Option` and `byte` |
| prog_args.dfy | ProgArgs | argument trees addressed by paths, as the operators walk and replace them |
| mutation_custom.dfy | MutationCustom | prog/mutation_custom.go |
| courier.dfy | Courier | courier/queue.go, courier/utilities.go |
| syz_manager.dfy | SyzManager | syz-manager/utilities.go |
| branch2addr.dfy | Branch2Addr | tools/syz-branch2addr/syz-branch2addr.go |
| node_factory.dfy | NodeFactory | NodeFactory.h, NodeFactory.cc |
| struct_analyzer.dfy | StructAnalyzer | StructAnalyzer.h |
| global_context.dfy | GlobalContext | Global.h |

State the source changes in place becomes a `class` with `modifies` clauses:
- the mutated program (`MutationCustom.Prog`) and the mutator around it;
- the four courier queues;
- the manager's flags and anchors;
- the `prefix` and `branch` globals of syz-branch2addr;
- the node factory, each `StructInfo`, the max-struct statics and the pass-data map.

Each loop of the source is a `while` or `for` loop in a method. That method is
proved against a specification function, for example `Scan` for the objdump
scan or `StripComments` for the comment stripper. Lemmas then prove the
promised properties about that function.

Collaborators outside the model are parameters or nondeterministic choices:
- randomness (`Intn`, `biasedRand`, `oneOf`, `randomChoice`);
- `generateCall`, `mutateArg`, `mutateData` and `allocAddr`;
- `Serialize` and `Deserialize`;
- the data-layout size;
- the program mutator used while seeding.

## Model

| member | source | states |
|---|---|---|
| MutationCustom.ContainPoC | prog/mutation_custom.go:230-243 | False when PoC-only mode is off or the program is shorter than the PoC. Otherwise true exactly when the PoC bytes are a prefix of the program, so an empty PoC accepts every program. |
| MutationCustom.Spliced | prog/mutation_custom.go:23-29 | The spliced-and-trimmed call list has length min(old + donor, ncalls). It keeps every call before the splice point and is a prefix of old-prefix + donor + old-suffix. |
| MutationCustom.Mutator.SpliceCus | prog/mutation_custom.go:15-31 | Off the PoC it defers to the baseline. On the PoC it fails without change exactly when the corpus is empty, len <= NOfCalls or len >= ncalls. Otherwise it inserts a whole donor at an index in [NOfCalls, len), truncates to ncalls and leaves the first NOfCalls calls unchanged. |
| MutationCustom.InsertedAt | prog/mutation_custom.go:118-121 | After inserting generated calls at `at` and removing the overflow at `at`, the length is min(old + generated, ncalls). The calls before `at` and all old calls from `at` on survive, so only generated calls are dropped. |
| MutationCustom.Prog.TrimAt | prog/mutation_custom.go:119-121 | The removal loop at the insertion index turns the untrimmed list into exactly `InsertedAt`. |
| MutationCustom.Prog.InsertBefore | prog/mutation_custom.go:92 | The calls are inserted before the given position, and the rest is kept in order. |
| MutationCustom.Prog.RemoveCall | prog/mutation_custom.go:135 | Exactly the call at index i is removed. |
| MutationCustom.Mutator.InsertCallAtEnd | prog/mutation_custom.go:77-97 | Off the PoC it returns true and leaves the program unchanged, with no baseline fallback. On the PoC it fails without change at the ceiling. Otherwise it appends the generated calls at the end, trimmed to ncalls. |
| MutationCustom.Mutator.InsertCallCus | prog/mutation_custom.go:99-123 | Off the PoC it defers to the baseline. On the PoC it fails without change exactly when len >= ncalls. Otherwise the index lies in [NOfCalls, len], is forced to len when NOfCalls == len, and the result is `InsertedAt` at that index. |
| MutationCustom.Mutator.RemoveCallCus | prog/mutation_custom.go:126-137 | Off the PoC it defers to the baseline. On the PoC it fails without change only on an empty program. Otherwise it removes exactly one call at an index in [NOfCalls, len). |
| MutationCustom.ChooseCallCus | prog/mutation_custom.go:188-213 | Returns -1 exactly when no call at index >= start has arguments, including when start >= len. Otherwise the result lies in [start, len). |
| MutationCustom.RandomChoice | prog/mutation_custom.go:212 | A weighted pick returns a position inside the weight list. |
| MutationCustom.Mutator.ApplyRound | prog/mutation_custom.go:170-179 | One successful round inserts generated calls before the tracked call. It drops overflow just before that call, so the length stays <= ncalls. The index advances by the number of calls kept, and the tracked call is found again at the new index. |
| MutationCustom.Mutator.MutateRounds | prog/mutation_custom.go:155-183 | Over all rounds, the program is the old calls before the tracked index, then the inserted calls, then the tracked call, then the old calls after it. The length stays <= ncalls. A call with no arguments fails and changes nothing. |
| MutationCustom.Mutator.MutateArgCus | prog/mutation_custom.go:140-185 | Off the PoC it defers to the baseline. On the PoC, an empty program or no chosen call fails without change. Otherwise the chosen call lies in [NOfCalls, len), only calls before it are inserted, and the length stays <= ncalls. |
| MutationCustom.ComplexInSound | prog/mutation_custom.go:215-228 | Every path the complex-pointer walk yields leads to a complex pointer, and no complex pointer lies above it on the path, so the walk does not descend into a found pointer. |
| MutationCustom.ComplexInFieldsSound | prog/mutation_custom.go:215-228 | The walk over a group's fields yields only paths into those fields, each satisfying the same soundness property. |
| MutationCustom.ComplexPtrsCus | prog/mutation_custom.go:215-228 | Every reported pointer comes from a call at index >= NOfCalls and is a complex pointer not nested inside another. Every such pointer in those calls is reported. The result is empty exactly when no such pointer exists. |
| MutationCustom.ComplexInComplete | prog/mutation_custom.go:215-228 | Every complex pointer in an argument tree that has no complex pointer above it is yielded by the walk. |
| MutationCustom.ComplexInFieldsComplete | prog/mutation_custom.go:215-228 | The walk over a group's fields yields every such pointer inside those fields. |
| MutationCustom.WalkComplete | prog/mutation_custom.go:215-228 | The walk over one call's arguments yields every complex pointer in the call that is not nested inside another. |
| MutationCustom.BlobsInSound | prog/mutation_custom.go:50-55 | Every blob the sub-argument walk collects is a data argument that is not output-only. Its recorded base is the nearest pointer above it. |
| MutationCustom.BlobsInFieldsSound | prog/mutation_custom.go:50-55 | The same soundness property for the walk over a group's fields. |
| MutationCustom.BlobsUnderPointer | prog/mutation_custom.go:50-55 | For a walk started at a pointer, each collected blob has a base pointer on its path. |
| MutationCustom.SquashIfNeeded | prog/mutation_custom.go:45-47 | The result is always an ANY pointer at the same address. An ANY pointer is left as it is. |
| MutationCustom.MutateBlobEffect | prog/mutation_custom.go:63-73 | Only a non-output blob is mutated, and it is replaced by the new data. The base pointer's referent changes size by exactly the blob's size change. The base gets the new address only when that size grew. |
| MutationCustom.Mutator.SquashAnyCus | prog/mutation_custom.go:35-75 | Off the PoC it defers to the baseline. With no complex pointer at or after NOfCalls it fails without change. Otherwise it squashes one such pointer. It then succeeds exactly when the squashed pointer holds a blob, and in that case it mutates one blob under it as `MutateBlobEffect` states. |
| ProgArgs.ReplaceSize | prog/mutation_custom.go:66-69 | Replacing a sub-argument changes the tree's size by exactly the replacement's size minus the replaced one's. This is the size change that the base-pointer update compares. |
| ProgArgs.ReplaceThenRead | prog/mutation_custom.go:67 | A sub-argument written in place reads back as the new value. |
| Courier.Courier.AppendMutatingQueue | courier/queue.go:29-36 | Exactly one item (Prog, NOfCalls, PocProg), as given, is added at the tail of the mutating queue. The other three queues are unchanged. |
| Courier.Courier.AppendCriticalPoCQueue | courier/queue.go:38-45 | Exactly one item with NOfCalls = 0 and PocProg = Prog is added at the tail of the critical queue. The others are unchanged. |
| Courier.Courier.AppendCommandsQueue | courier/queue.go:47-49 | The command bytes are added at the tail of the commands queue. The others are unchanged. |
| Courier.Courier.AppendS2EQueue | courier/queue.go:51-53 | The item is added at the tail of the S2E queue. The others are unchanged. |
| Courier.Courier.RetrieveFirstArg | courier/queue.go:55-80 | For Mutating, Commands and S2E, a non-empty queue yields its head, and exactly that element is removed. An empty queue, Critical or an unknown flag yields nil and changes nothing. |
| Courier.Courier.RetrieveCritical | courier/queue.go:55-80 | Retrieving with the Critical flag always yields nil and never removes an item, because the switch has no Critical case. |
| Courier.Courier.FifoOrder | courier/queue.go:35 | Appending A then B and popping twice yields A then B. This holds for program items and for command bytes, which come back as appended. |
| Courier.Courier.AppendTestcase | courier/utilities.go:16-18 | Has exactly the effect of AppendMutatingQueue. |
| Courier.SplitAfterNewline | courier/utilities.go:23 | Splitting after each newline yields at least one piece, and the pieces concatenate back to the text. |
| Courier.SplitAfterNewlinePieces | courier/utilities.go:23 | Every piece but the last ends with its newline, and the last piece has none. |
| Courier.FirstCodeIsFirst | courier/utilities.go:24-29 | Every piece before the first non-`#` piece is a comment, and that piece itself is not. |
| Courier.StrippedText | courier/utilities.go:20-34 | The result is the input's suffix of whole lines, starting at the first non-comment line. `#` lines after it are kept. An input whose first line is code, or whose lines are all comments, comes back unchanged. |
| Courier.ScanCommentBlock | courier/utilities.go:24-29 | The scan loop stops at the first non-comment line, or leaves start at 0 when there is none. |
| Courier.RemoveComments | courier/utilities.go:20-34 | The copy loop returns exactly the stripped text. |
| SyzManager.SeedBatchContents | syz-manager/utilities.go:63-68 | Seeding produces exactly 500 items. The first is the raw testcase anchored to itself. The other 499 are mutants anchored to the testcase, all carrying NOfCalls. |
| SyzManager.MutantBatch | syz-manager/utilities.go:99-103 | A batch of mutants has one item per index, each anchored to the given bytes and call count. |
| SyzManager.Manager.Seed | syz-manager/utilities.go:63-68 | The seed batch is added to the mutating queue, and the other queues are unchanged. |
| SyzManager.Manager.ParseCustomizedTestcase | syz-manager/utilities.go:21-88 | The call is one-shot: once parsed, a later call sends 0 and appends nothing. An unreadable file sends 1. A parse failure writes the template patch, sends -1 and leaves the anchors and queues alone. Success sets NOfCalls and PocProg to the stripped testcase, appends the seed batch, and then sends 0 in PoC-only mode or starts streaming. |
| SyzManager.Manager.StreamIteration | syz-manager/utilities.go:70-80 | Streaming is only possible outside PoC-only mode. Each iteration appends one mutant anchored to PocProg with NOfCalls, and the extra-mutation flag ends cleared. |
| SyzManager.Manager.ExtraMutate | syz-manager/utilities.go:94-104 | An item that parses yields 499 mutants anchored to its bytes with its call count. Otherwise nothing is appended. |
| SyzManager.Manager.DoExtraMutate | syz-manager/utilities.go:90-106 | With the queue code as written the Critical pop is always nil, so reseeding never fires and the queues are unchanged. |
| SyzManager.TemplatePatch | syz-manager/utilities.go:114-119 | The patch holds "syscall:"+MissingSyscall only when that string is non-empty, followed by "arg:"+LastGroupArg only when that string is non-empty, with no separator. |
| SyzManager.Manager.CreateTemplatePatch | syz-manager/utilities.go:108-120 | When the file can be created, its content is `TemplatePatch`. |
| Branch2Addr.FindFromSound | tools/syz-branch2addr/syz-branch2addr.go:163 | The position found holds an occurrence of the separator and no earlier position from the start does; when nothing is found, the separator occurs nowhere at or after the start. |
| Branch2Addr.SplitJoin | tools/syz-branch2addr/syz-branch2addr.go:163-170 | Joining the split pieces with the separator gives back the original string. |
| Branch2Addr.SplitPiecesFree | tools/syz-branch2addr/syz-branch2addr.go:163-167 | No split piece contains the separator. |
| Branch2Addr.LastComponent | tools/syz-branch2addr/syz-branch2addr.go:168-173 | The backward search finds the last component equal to "linux", or reports that there is none. |
| Branch2Addr.Branch2Addr.StripPrefix | tools/syz-branch2addr/syz-branch2addr.go:160-175 | A cached non-empty prefix that splits the path into exactly two parts returns the second part. Otherwise the last "linux" component sets the prefix to the components up to it plus "/" and returns the rest. With neither, the path is returned and the prefix is untouched. |
| Branch2Addr.StrippedPathRebuilds | tools/syz-branch2addr/syz-branch2addr.go:168-172 | When "linux" is not the final component, the new prefix plus the result is the path. When it is final, the result is empty. |
| Branch2Addr.CachedPrefixSplit | tools/syz-branch2addr/syz-branch2addr.go:162-166 | On a cached hit, the path is the first part, the prefix and the returned part, and neither part contains the prefix. |
| Branch2Addr.Atoi | tools/syz-branch2addr/syz-branch2addr.go:206 | The result lies in the int64 range. After one optional sign, when the leading run of digits already overflows 64 bits, the result is MaxInt64, or MinInt64 for '-', whatever follows. Otherwise, an empty text or a non-digit after the run gives 0. A text that is all digits gives its value with the sign, clamped to int64. |
| Branch2Addr.AtoiRangeBeforeJunk | tools/syz-branch2addr/syz-branch2addr.go:206 | Digits whose value exceeds 64 bits, followed by any non-digit tail, saturate to MaxInt64, and to MinInt64 with a '-' sign. |
| Branch2Addr.ParseDecimalRun | tools/syz-branch2addr/syz-branch2addr.go:206 | The unsigned digit scan reports a range error exactly when the leading run of digits exceeds 64 bits. Otherwise it reports a syntax error for an empty text or a non-digit after the run, and the run's value when the whole text is digits. |
| Branch2Addr.ScanDecimalRun | tools/syz-branch2addr/syz-branch2addr.go:206 | Resumed at any point inside the leading run of digits with the value read so far, the scan gives a range error when the run exceeds 64 bits. Otherwise it gives a syntax error when a non-digit follows the run, and the run's value when the text ends there. |
| Branch2Addr.LeadingDigits | tools/syz-branch2addr/syz-branch2addr.go:206 | The longest prefix of digits: everything before it is a digit, and the character after it is not. |
| Branch2Addr.DecStringValue | tools/syz-branch2addr/syz-branch2addr.go:206 | The decimal digits of n read back as n. |
| Branch2Addr.AtoiItoa | tools/syz-branch2addr/syz-branch2addr.go:206 | Any int64 printed in decimal parses back to itself. |
| Branch2Addr.ParseHex | tools/syz-branch2addr/syz-branch2addr.go:259 | Succeeds exactly on a non-empty hex string whose value fits in 64 bits. |
| Branch2Addr.HexStringValue | tools/syz-branch2addr/syz-branch2addr.go:259 | n hex digits of a value below 16^n read back as that value. |
| Branch2Addr.ParseHexString | tools/syz-branch2addr/syz-branch2addr.go:259 | Every 64-bit value printed as 16 hex digits parses back to itself. |
| Branch2Addr.ParseTrace | tools/syz-branch2addr/syz-branch2addr.go:204-208 | The file is the text before the first ':', and the line is the decimal after it, or 0 if that is not a number. |
| Branch2Addr.ParseTraceRoundTrip | tools/syz-branch2addr/syz-branch2addr.go:204-208 | "file:n" parses back to (file, n) for a colon-free file and an int64 n. |
| Branch2Addr.GetFrameByPc | tools/syz-branch2addr/syz-branch2addr.go:210-217 | Returns the file and line of the first frame at index >= base whose PC matches, and ("", -1) when there is none. |
| Branch2Addr.TargetField | tools/syz-branch2addr/syz-branch2addr.go:255-258 | The branch-target field, when present, is the 16 characters after the first 'f' of the disassembly column. |
| Branch2Addr.Branch2Addr.CoveredPcs | tools/syz-branch2addr/syz-branch2addr.go:233-267 | The line-scan loop yields exactly the PCs and branch map of the specification fold `Scan`. |
| Branch2Addr.ScanCollects | tools/syz-branch2addr/syz-branch2addr.go:254-266 | A line's address is collected, in input order, only if column 18 is 'j', the line has no "jmp" and any 16-hex target parsed. |
| Branch2Addr.SkippedLines | tools/syz-branch2addr/syz-branch2addr.go:243-247 | Lines without a parsable address leave the scan state unchanged. |
| Branch2Addr.PendingJumpPaired | tools/syz-branch2addr/syz-branch2addr.go:249-253 | A pending jump (addr, jumpTo) is recorded with followBy set to the address of the next line that has one. The pending pair is then cleared, unless that line is itself a conditional jump. |
| Branch2Addr.Groups | tools/syz-branch2addr/syz-branch2addr.go:74-75 | The range list starts with one unfound entry and never becomes empty. |
| Branch2Addr.GroupRanges | tools/syz-branch2addr/syz-branch2addr.go:100-116 | The grouping loop yields the range list with its last entry dropped. |
| Branch2Addr.GroupsShape | tools/syz-branch2addr/syz-branch2addr.go:100-116 | Every entry before the last is a found range of a matching function. The last entry is found exactly when it is not the initial unfound entry. |
| Branch2Addr.OpenRangeDropped | tools/syz-branch2addr/syz-branch2addr.go:152 | When the last frame matches, the dropped entry is the found range that ends at it, so an open range is not reported. |
| NodeFactory.NewNode | tools/kernel-structure-analyzer/src/lib/NodeFactory.h:46-49 | A fresh node has mergeTarget == idx, so it is its own merge root, and it stores the given kind, value and offset. |
| NodeFactory.NodeFactory.constructor | tools/kernel-structure-analyzer/src/lib/NodeFactory.cc:31-46 | Exactly 5 nodes exist, typed value, obj, value, obj, obj, at the fixed special indices 0..4. |
| NodeFactory.NodeFactory.CreateValueNode | tools/kernel-structure-analyzer/src/lib/NodeFactory.cc:48-57 | Appends one node whose index is the previous count. It records an unmapped key against it, keeps `nodes[i].idx == i`, and leaves the other maps alone. |
| NodeFactory.NodeFactory.CreateObjectNode | tools/kernel-structure-analyzer/src/lib/NodeFactory.cc:59-69 | Always appends one object node. An already-mapped value returns its old index; otherwise the value is mapped to the new node. |
| NodeFactory.NodeFactory.CreateFieldObjectNode | tools/kernel-structure-analyzer/src/lib/NodeFactory.cc:71-80 | Requires offset != 0 and base + offset == the node count. The new node has that offset and a null value, and its value resolves to the base node's value. |
| NodeFactory.NodeFactory.CreateReturnNode | tools/kernel-structure-analyzer/src/lib/NodeFactory.cc:82-90 | Requires an unmapped function. Appends one value node, and the getter returns it afterwards. |
| NodeFactory.NodeFactory.CreateVarargNode | tools/kernel-structure-analyzer/src/lib/NodeFactory.cc:92-100 | Requires an unmapped function. Appends one object node, and the getter returns it afterwards. |
| NodeFactory.NodeFactory.GetValueNodeFor | tools/kernel-structure-analyzer/src/lib/NodeFactory.cc:117-122 | Returns the mapped node, or InvalidIndex. |
| NodeFactory.NodeFactory.GetObjectNodeFor | tools/kernel-structure-analyzer/src/lib/NodeFactory.cc:216-220 | Returns the mapped node, or InvalidIndex. |
| NodeFactory.NodeFactory.GetReturnNodeFor | tools/kernel-structure-analyzer/src/lib/NodeFactory.cc:264-270 | Returns the mapped node, or InvalidIndex. |
| NodeFactory.NodeFactory.GetVarargNodeFor | tools/kernel-structure-analyzer/src/lib/NodeFactory.cc:272-278 | Returns the mapped node, or InvalidIndex. |
| NodeFactory.NodeFactory.RemoveNodeForValue | tools/kernel-structure-analyzer/src/lib/NodeFactory.h:216-219 | The value's entry is gone, so the lookup returns InvalidIndex. |
| NodeFactory.NodeFactory.RemoveNodeForObject | tools/kernel-structure-analyzer/src/lib/NodeFactory.h:220-223 | The object's entry is gone, so the lookup returns InvalidIndex. |
| NodeFactory.NodeFactory.UpdateNodeForObject | tools/kernel-structure-analyzer/src/lib/NodeFactory.h:224-227 | Requires an object node. Afterwards the lookup returns it. |
| NodeFactory.NodeFactory.GetOffsetObjectNode | tools/kernel-structure-analyzer/src/lib/NodeFactory.h:167-179 | Returns n for union objects. Otherwise it returns n+k, which is an object node with offset offset(n)+k. |
| NodeFactory.NodeFactory.GetObjectOffset | tools/kernel-structure-analyzer/src/lib/NodeFactory.h:194-197 | The object's offset, never above its own index. |
| NodeFactory.ObjectSize | tools/kernel-structure-analyzer/src/lib/NodeFactory.h:181-192 | The size is 1 + the offset of the last node in the maximal run of following object nodes whose offsets increase by 1. It always exceeds the node's own offset. |
| NodeFactory.NodeFactory.GetObjectSize | tools/kernel-structure-analyzer/src/lib/NodeFactory.h:181-192 | The counting loop returns `ObjectSize`. |
| NodeFactory.NodeFactory.GetObjectBound | tools/kernel-structure-analyzer/src/lib/NodeFactory.h:247-251 | Equals i - offset(i) + size, lies in (i, count], and is one past the object's last field in the run. |
| NodeFactory.NodeFactory.GetValueForNode | tools/kernel-structure-analyzer/src/lib/NodeFactory.h:207-213 | The node's own value, or else the value of node i - offset(i). |
| NodeFactory.NodeFactory.GetObjNodeForGEPExpr | tools/kernel-structure-analyzer/src/lib/NodeFactory.h:237-245 | base + field for a recorded GEP node, and InvalidIndex otherwise. |
| NodeFactory.NodeFactory.GepValueNode | tools/kernel-structure-analyzer/src/lib/NodeFactory.cc:135-162 | A null or universal base maps to the matching special pointer, and field 0 maps to the base. The first request for (base, field) creates one node and records it in both GEP maps. Later requests return that node unchanged. |
| NodeFactory.NodeFactory.MergeNode | tools/kernel-structure-analyzer/src/lib/NodeFactory.cc:287-290 | Changes only nodes[n1].mergeTarget, setting it to n0. |
| NodeFactory.Root | tools/kernel-structure-analyzer/src/lib/NodeFactory.cc:310-316 | Following merge targets ends, when it ends, at a node that is its own target. A root is its own root. |
| NodeFactory.ChainPathRoot | tools/kernel-structure-analyzer/src/lib/NodeFactory.cc:294-299 | Every node on the followed chain has the same root as the start node. |
| NodeFactory.CompressionKeepsRoot | tools/kernel-structure-analyzer/src/lib/NodeFactory.cc:300-306 | Pointing every chain node straight at the root leaves every node's root unchanged. |
| NodeFactory.NodeFactory.FindMergeTarget | tools/kernel-structure-analyzer/src/lib/NodeFactory.cc:310-316 | The const version returns the root of n. |
| NodeFactory.NodeFactory.FollowChain | tools/kernel-structure-analyzer/src/lib/NodeFactory.cc:294-299 | The first loop returns the root and the non-root nodes it passed. |
| NodeFactory.NodeFactory.PointPathAt | tools/kernel-structure-analyzer/src/lib/NodeFactory.cc:300-306 | The second loop redirects exactly the passed nodes to the root. |
| NodeFactory.NodeFactory.GetMergeTarget | tools/kernel-structure-analyzer/src/lib/NodeFactory.cc:292-308 | Returns the same root as the const version, and that root points to itself. Afterwards every node on the path points directly at it, every other node is unchanged, and no node's root changes. |
| NodeFactory.NodeFactory.SetNodeAsTainted | tools/kernel-structure-analyzer/src/lib/NodeFactory.cc:318-321 | Adds the object node to the tainted set. |
| StructAnalyzer.StructInfo.constructor | tools/kernel-structure-analyzer/src/lib/StructAnalyzer.h:20-29 | The vectors, map and container set start empty and in lockstep. |
| StructAnalyzer.StructInfo.AddField | tools/kernel-structure-analyzer/src/lib/StructAnalyzer.h:57-63 | Appends to fieldSize and the three flag vectors in lockstep, and the getters read the new flags back. |
| StructAnalyzer.StructInfo.AddOffsetMap | tools/kernel-structure-analyzer/src/lib/StructAnalyzer.h:56 | Appends one offset entry, so the size grows by one. |
| StructAnalyzer.StructInfo.AddFieldOffset | tools/kernel-structure-analyzer/src/lib/StructAnalyzer.h:64 | Appends one field offset, which reads back. |
| StructAnalyzer.StructInfo.AddRealSize | tools/kernel-structure-analyzer/src/lib/StructAnalyzer.h:65 | Appends one real size, which reads back. |
| StructAnalyzer.StructInfo.AppendFields | tools/kernel-structure-analyzer/src/lib/StructAnalyzer.h:66-75 | Always appends other's flag and real-size vectors. It appends fieldSize only when other is non-empty, which keeps the four vectors in lockstep when other is finalized. |
| StructAnalyzer.ShiftedAscending | tools/kernel-structure-analyzer/src/lib/StructAnalyzer.h:76-83 | The shifted non-zero offsets are ascending when the source offsets are, and each is above the base. |
| StructAnalyzer.StructInfo.AppendFieldOffset | tools/kernel-structure-analyzer/src/lib/StructAnalyzer.h:76-83 | Requires a non-empty fieldOffset. Pushes other's non-zero offsets shifted by the last offset and skips zeros, which keeps the offsets ascending. |
| StructAnalyzer.StructInfo.AddElementType | tools/kernel-structure-analyzer/src/lib/StructAnalyzer.h:84 | Adds the type to that field's set and leaves every other field alone. |
| StructAnalyzer.StructInfo.AppendElementType | tools/kernel-structure-analyzer/src/lib/StructAnalyzer.h:85-90 | Each of other's keys k moves to k + fieldSize.size(), and the type sets are unioned. |
| StructAnalyzer.StructInfo.Finalize | tools/kernel-structure-analyzer/src/lib/StructAnalyzer.h:93-107 | Requires the vectors in lockstep. fieldSize[0] becomes the number of fields, or 0 after resizing to 1 when there were none, so `isEmpty` holds exactly when no field was added. allocSize is the layout size when sized, else 0. |
| StructAnalyzer.StructInfo.GetExpandedSize | tools/kernel-structure-analyzer/src/lib/StructAnalyzer.h:127 | The expanded size counts the array flags. After finalize, a non-zero expanded size equals the field count stored in fieldSize[0]. |
| StructAnalyzer.StructInfo.GetElementType | tools/kernel-structure-analyzer/src/lib/StructAnalyzer.h:140-147 | The field's type set, or the empty set for an unknown field. |
| StructAnalyzer.StructInfo.AddContainer | tools/kernel-structure-analyzer/src/lib/StructAnalyzer.h:45-48 | Records the pair, so `getContainer` returns st for it. |
| StructAnalyzer.StructInfo.GetContainer | tools/kernel-structure-analyzer/src/lib/StructAnalyzer.h:148-155 | Returns st exactly when (st, offset) was added, and null otherwise. |
| StructAnalyzer.MaxStruct.UpdateMaxStruct | tools/kernel-structure-analyzer/src/lib/StructAnalyzer.h:109-115 | The maximum size never decreases, and the struct is replaced only on a strictly larger size. |
| GlobalContext.GlobalContext.Add | tools/kernel-structure-analyzer/src/lib/Global.h:45-51 | An absent name stores the data and returns true. A present name returns false and keeps the existing entry. |
| GlobalContext.GlobalContext.Get | tools/kernel-structure-analyzer/src/lib/Global.h:53-61 | The stored pointer, or null when the name is absent. |
| GlobalContext.IterativeModulePass.DoInitialization | tools/kernel-structure-analyzer/src/lib/Global.h:105-107 | The default hook reports success. |
| GlobalContext.IterativeModulePass.DoFinalization | tools/kernel-structure-analyzer/src/lib/Global.h:109-111 | The default hook reports success. |
| GlobalContext.IterativeModulePass.DoModulePass | tools/kernel-structure-analyzer/src/lib/Global.h:113-114 | The default hook reports no change. |

## Left out

- The baseline operators are not modelled: `splice`, `insertCall`, `removeCall`, `mutateArg` and `squashAny`. Off the PoC, each operator returns `Baseline`, and the program is modelled as unchanged by the custom code.
- `generateCall`, `mutateArg`, `mutateData`, `allocAddr`, `squashPtr`, `analyze`, `Serialize` and `Deserialize` are parameters. The model only knows what the cited code relies on.
- Randomness (`Intn`, `biasedRand`, `oneOf`, `randomChoice` over `float64` priorities) is a nondeterministic pick in the range the code uses. Priorities are natural-number weights.
- `removeCall`'s cleanup of resource links is not modelled. A call is simply removed from the list.
- `assignSizesCall` is folded into the mutated call each round returns.
- MutationCustom.Mutator.MutateArgCus: the round loop runs over a finite script of per-round collaborator outcomes. The `oneOf(3)` stop is therefore bounded by the script, which must be non-empty. The method requires len <= ncalls on entry, which every caller in the fuzzer maintains.
- MutationCustom.Mutator.RemoveCallCus requires len > NOfCalls on the PoC path with a non-empty program, because `Intn` of a non-positive bound panics there.
- MutationCustom.Mutator.InsertCallCus requires NOfCalls <= len on the PoC path below the ceiling. A program that still carries the PoC bytes keeps its first NOfCalls calls, so it has at least that many. The model does not cover a shorter program that carries the PoC bytes. There, `len+1-NOfCalls` is not positive and is passed to `biasedRand` as its bound.
- Courier.RemoveComments requires that the scan reach no empty piece. The source indexes `line[0]`, which panics on an empty input and on a newline-terminated all-comment text.
- `courier.Mutex` is declared but never locked, so no concurrency is modelled. `checkDuplication` and `SaveToFile` do file I/O and are not part of this model.
- `parseCustomizedTestcase` is modelled without its channel, the endless streaming loop and `time.Sleep`. One streaming iteration is `StreamIteration`. File reading is reduced to a result: contents, absent, or unreadable. `Unreadable` stands for a failed `os.Open` or `ioutil.ReadFile` (utilities.go:31-43). An `os.Stat` error other than "does not exist" leaves `info` nil, so the source panics at `info.IsDir()` (utilities.go:28-30). The model has no case for it.
- SyzManager.Manager.CreateTemplatePatch: a failed `os.Create` is a parameter. The model does not capture writes through the nil file, which Go turns into errors and ignores.
- syz-branch2addr: `buildTrace` file reading, the cache files and md5 naming, the objdump subprocess, the scanner error, the symbolizer, and the printing part of `main` (lines 117-141 and 153-155) are not modelled. `coveredPcs` takes objdump's output as a sequence of lines.
- The `jumpTo + 5` instruction-length heuristic at syz-branch2addr.go:125 is part of the printing path and is not modelled.
- Branch2Addr.ParseHex: Go's `ParseUint` rejects a value above 64 bits, and the model reports that as `None`. A 16-digit target cannot overflow, so the scan never reaches this case.
- Branch2Addr.Branch2Addr.CoveredPcs requires every line that parses an address to be longer than column 18, which objdump's instruction lines always are. A shorter line would panic in the source at `line[18]`.
- Branch2Addr.Branch2Addr.CoveredPcs and Branch2Addr.TargetField index a line by character, while Go's `line[18]`, `line[:16]` and `strings.Index` count bytes. The two agree on ASCII lines, and objdump's address, opcode and mnemonic columns are ASCII. A line with a multi-byte character before column 18 is not modelled byte for byte.
- StructAnalyzer.StructInfo.AppendFieldOffset: offsets are unbounded naturals. The C++ `unsigned` sum `i + base` wraps at 2^32, and that wrap is not modelled.
- ProgArgs.Arg has no union node. A union argument is not represented separately from its chosen option, which `ForeachArg` descends into. A union can be written as a group with one field, but fixed-size union padding is not modelled.
- NodeFactory: node indices are unbounded naturals. The unsigned 32-bit wrap-around of `NodeIndex` and offsets is not modelled, and `InvalidIndex` is the constant 0xffffffff.
- NodeFactory: LLVM values, functions and types are opaque keys. The LLVM `Constant` dispatch in `getValueNodeFor`, `getObjectNodeFor` and `getObjectNodeForConstant` is not modelled. Only the final map lookups and the GEP memo are, and `constGEPtoFieldNum` is a parameter (the field number). The `dumpNode*` logging is left out.
- NodeFactory.NodeFactory.GetMergeTarget requires the merge chain from n to reach a root within the node count. The source loops forever on a cyclic chain.
- NodeFactory: `isUnionObject`, `isHeapNode` and `getStored` are plain field reads without a contract of their own.
- StructAnalyzer.StructInfo.constructor initialises `finalized` and `allocSize`, which the C++ class leaves indeterminate until `finalize`.
- StructAnalyzer.MaxStruct.constructor starts from no struct and size 0. The static members are defined in a file that is not part of this model.
- StructAnalyzer.StructInfo.GetContainer: the assertion that the container is not opaque (`assert(!st->isOpaque())`, StructAnalyzer.h:150) is not modelled, and type opacity is not modelled.
- GlobalContext: `IterativeModulePass::run` and the pass driver in `KAMain.cc` are not part of this model.
- LinuxSS.cc, SafeStack.cc, PointTo.cc, CRange.h, PtsSet.h and Range.h work on LLVM IR, `ConstantRange` or `SparseBitVector`, and are not part of this model. So is syz-logparser.go.
