# Verified models of small stateful cores

Dafny models of the self-contained algorithms with state in this repository, with proofs of what they
promise. `dafny verify dfyconfig.toml` checks all of it.

| files | what they model |
|---|---|
| `Chains` | parent chains in a graph where every node has at most one parent: iterated parents, cycles, pigeonhole |
| `Branches`, `Stacks`, `TopoSort`, `Names` | the branch walks of `python/tools/git_utils.py` |
| `Repository`, `PruneMarks`, `Prune` | `tools/git_prune_all.py`: which branches are pruned, and what pruning does to the repository and its worktrees |
| `Merges` | the merge loops of `tools/git_update_all.py` and `tools/git_update_stack.py` |
| `GetoptParser`, `GetoptMachine` | `src/base/getopt_compat.cc`: a pure parser of a whole command line, the printer it undoes, and the calls with static state that refine it |
| `GnTargets` | `GnParser.get_target` of `tools/gn_utils.py`: memoised recursion against a definition by paths |
| `CrashKeys` | `src/base/crash_keys.cc` as a state machine over interleaved atomic steps |
| `Base64`, `Bits` | `src/base/base64.cc`, and the bit operators it uses |
| `SqlText`, `SqlMacros`, `SqlCuts`, `SqlMacroTrip` | the macro placeholders of `python/tools/format_sql.py`, over tokens and over characters |
| `SqlComments`, `SqlBlocks`, `SqlLines`, `SqlRoundTrip` | its comment placeholders, line by line and over characters |
| `Strings`, `Texts` | Python's `str.strip` and `str.replace`, decimal numbers |
| `IntrusiveList` | `src/base/intrusive_list.cc` |
| `ScanRoots` | `tools/find_scan_roots.py` |
| `FileIo` | the read, write and copy loops of `src/base/file_utils.cc` |

## How the outside world appears

- **git.** A repository is the list of local branches, the text of each `branch.<name>.parent` setting, the tree
  each ref resolves to, and what is checked out in each worktree (`Repository.Repo`); for merges it is the set of
  commits reachable from each ref, and the worktrees (`Merges.History`). The program runs in the main worktree or in
  a linked one, and git keeps a branch checked out in at most one. Every command that changes something may fail at
  any call and then changes nothing, and so may the listing of worktrees; ghost fields count the failures, and the
  results say exactly how the outcome depends on them. Commands that read refs, settings, trees and HEAD are taken to
  succeed. `git branch -D` also forgets the settings of the branch.
- **Orders that Python leaves open** (of sets, and of Kahn's initial queue) are arbitrary choices, so the results
  hold for all of them.
- **C strings** are sequences without NUL; `nextchar` is a pointer that may stand on the terminator.
- **Threads.** One step per atomic operation, any number of threads and keys; `g_num_keys` is a 32-bit counter
  that wraps around, and the results are for fewer than 2^32 registered keys.
- **The operating system** moves any number of bytes per call, and may fail at any call.
- **Bits.** The Base64 loops use the bit operators of the code on 8-bit vectors; the specification says the same with
  quotients, remainders and sums, and `Bits` proves that they agree.

## Where the code does something its reader may not expect

- `--=value` is looked up under the empty name, which every short option carries, so it is read as the first short
  option of the table (`GetoptParser.EmptyLongNameIsFirstShort`).
- With a malformed `shortopts` every call returns `'?'` without moving on, as long as an argument is left, so a
  calling loop never ends (`GetoptMachine.Getopt.GetoptLong`); `GetoptParser.ShortOptsWellFormed` says exactly which texts are
  malformed.
- `Node.Find` returns the first missing directory it creates, whatever components are left, so a label ends up on
  the right node exactly when the node or its parent was there before (`ScanRoots.Tree.AddLine`).
- `SerializeCrashKeys` bounds its loop by the raw counter, so with more than `kMaxKeys` registered keys it can read
  past the end of `g_keys`, and only then (`CrashKeys.LeavesArrayIffManyKeys`, `CrashKeys.RunOutOfBounds`).
- A call of `CrashKey::Register` that loses the exchange may return before the key is visible
  (`CrashKeys.LosingCallPromisesNothing`). One that wins and returns has stored the key, unless the slots have run
  out (`CrashKeys.StoredIffFinished`, `CrashKeys.LosesKeyIffManyKeys`).
- Run in a linked worktree, `git_prune_all.py` asks git to delete a marked branch that is checked out in the main
  worktree, because `get_worktree_branches` leaves that one out; git refuses. As long as the worktrees can be listed,
  that is the only deletion it asks for in vain (`Prune.PruneAll`, `Prune.AsksOnlyForFreeBranches`).
  And if its own branch is marked, it removes the worktree it runs in (`Prune.Pruned`).
- Run in a linked worktree, `git_update_all.py` and `git_update_stack.py` may merge into the wrong branch. The listing
  of worktrees is read once; when another branch has been checked out here before the turn of the branch that was
  checked out at the start, `git -C <here> merge` changes that other branch. Every merge goes into its own branch
  exactly when that does not happen, in particular in the main worktree (`Merges.MergesIntoItself`,
  `Merges.StaleOnlyInLinked`), and whenever it happens there are histories that are updated wrongly
  (`Merges.RightIffFresh`); `Merges.StaleRun` is a small configuration.
- The macro placeholders of `format_sql.py` can overlap with each other and with the SQL, even if none of their names
  occurs in it (`SqlMacroTrip.OverlapBreaks`), and a macro call can begin with what a placeholder ends in
  (`SqlMacroTrip.UnsafeMatchBreaks`). If the SQL contains no `macro_` followed by a digit, it comes back exactly if no
  macro is taken out from within a placeholder (`SqlMacroTrip.MacroRoundTrip`, `SqlCuts.ComesBackIffClean`). None is if
  no match that can be cut behind a `__` stands, without that front, behind a closing parenthesis; in particular if no
  word follows a parenthesis directly (`SqlMacroTrip.SpacedIsSafe`).
- `restore_comment_blocks` replaces a placeholder wherever it occurs, so a block also goes into code that spells its
  placeholder (`SqlRoundTrip.PlaceholderInSql`). The lines come back exactly if every such line ends in the placeholder
  and the block is nothing but that placeholder, up to white space (`SqlRoundTrip.CommentRoundTrip`); in particular if
  no line spells one.
- A failing `git config` raises `SystemExit`, which `except Exception` does not catch: `git_prune_all.py` stops there
  instead of counting an error (outcome `Aborted`).

## Model

| member | source | states |
|---|---|---|
| Chains.EndlessReachesCycle | python/tools/git_utils.py:335-338 | a parent chain that never ends runs into a cycle: pigeonhole on the finite graph |
| Chains.AcyclicIffChainsEnd | python/tools/git_utils.py:296-301 | there is no cycle exactly when every parent chain ends |
| Branches.ParentIsName | python/tools/git_utils.py:74-82 | a parent exists exactly for a named branch whose setting is not all white space; it is what lies between the white space at both ends |
| Branches.ParentIsStripped | python/tools/git_utils.py:80-81 | a parent written back to a setting is read back unchanged |
| Strings.StripIsTight | python/tools/git_utils.py:81 | stripping takes white space off both ends, all of it and nothing else |
| Branches.BranchChildren | python/tools/git_utils.py:92-99 | the children are the local branches whose parent this is, in listing order |
| Branches.Ancestors | python/tools/git_utils.py:127-157 | returns the whole chain of local, non-mainline parents, nearest first, without repetition; raises exactly when that chain never ends, and names a branch on a cycle |
| Branches.StackBase | python/tools/git_utils.py:218-227 | returns the branch where the walk ends; raises exactly when it never ends |
| Branches.PathRevisitIsCycle | python/tools/git_utils.py:186-190 | a child met again on its own path puts the start branch on a cycle, because parents are unique |
| Branches.SearchComplete | python/tools/git_utils.py:178-196 | a search that has seen all children of what it searched has found every descendant, and the start is on no cycle |
| Branches.Descendants | python/tools/git_utils.py:160-196 | raises exactly when the start branch is on a parent cycle; otherwise returns each local branch whose chain reaches the start, once, never a farther one before a nearer one |
| Stacks.ListFrom | python/tools/git_utils.py:248-261 | lists the base and exactly its local descendants, once each, every one after its parent |
| Stacks.StackHoldsLocalStart | python/tools/git_utils.py:263-267 | a start branch is in the stack under the top of its walk exactly when it is local |
| Stacks.StackBranchesOrdered | python/tools/git_utils.py:230-269 | the stack under the top of the walk; raises exactly when the walk never ends; the warning is never given |
| Names.SortNames | python/tools/git_utils.py:330 | an ascending permutation of the names, by code point order |
| TopoSort.BuildGraph | python/tools/git_utils.py:302-314 | records every local node with its parent, and the nodes are exactly the ends of parent links |
| TopoSort.BuildCounts | python/tools/git_utils.py:316-321 | lists of children and parent counts agree with the parent links |
| TopoSort.ReleaseChildren | python/tools/git_utils.py:329-333 | takes away the edges from one output branch and queues exactly the branches set free |
| TopoSort.OutputChainsEnd | python/tools/git_utils.py:326-333 | the chain of a branch that was output ends within as many steps as branches came out before it |
| TopoSort.LeftoversHangFromCycles | python/tools/git_utils.py:335-338 | when the queue is empty, the branches not output are those with a positive count, and exactly those whose chain never ends |
| TopoSort.Drain | python/tools/git_utils.py:323-333 | the loop empties the queue and keeps counts, queue and output in step, parents before children |
| TopoSort.SortNodes | python/tools/git_utils.py:316-340 | Kahn's algorithm on the recorded graph, for any order of the initial queue |
| TopoSort.TopologicalSort | python/tools/git_utils.py:296-340 | succeeds exactly when there is no cycle, then lists every node once after its parent; on failure the reported nodes are exactly those whose chain never ends, and one of them is on a cycle |
| PruneMarks.PruneSetUnique | tools/git_prune_all.py:59-84 | the rule "same tree as the nearest ancestor that stays" fixes the pruned set, whatever order branches are examined in |
| PruneMarks.Mark | tools/git_prune_all.py:54-84 | marks exactly that set; remap gives each marked branch its nearest ancestor that stays, which has the same tree and is itself never marked |
| PruneMarks.MarkingStep | tools/git_prune_all.py:59-84 | examining one more branch after its parent keeps the effective parents found before |
| PruneMarks.ContractionKeepsAncestry | tools/git_prune_all.py:120-140 | among the branches that stay, who descends from whom does not change |
| PruneMarks.ContractionAcyclic | tools/git_prune_all.py:120-140 | moving children up makes no cycle |
| PruneMarks.NothingLeftToPrune | tools/git_prune_all.py:59-84 | pruning is idempotent: in the contracted forest the rule prunes nothing |
| Prune.MoveChildren | tools/git_prune_all.py:120-140 | each branch that stays under a pruned one gets the remap target as parent, by one write each, and nothing else is written; it stops early exactly if a write fails |
| Prune.MovedContracts | tools/git_prune_all.py:120-140 | the new parent settings are the contraction of the old forest |
| Prune.NoneNamesPruned | tools/git_prune_all.py:120-140 | no branch that stays names a pruned one |
| Prune.DeleteOne | tools/git_prune_all.py:145-181 | one turn: switches away when the branch is checked out here, frees its listed worktree and deletes it, and fails exactly if one of these commands does; git refuses the branch just if it is checked out elsewhere and not listed |
| Prune.BeforeTurn | tools/git_prune_all.py:144-160 | until its turn a branch is checked out where it was at the start, and the program knows whether that is here |
| Prune.TurningStep | tools/git_prune_all.py:145-181 | one turn keeps what is known of HEAD and of the worktrees |
| Prune.DeleteMarked | tools/git_prune_all.py:142-181 | deletes only marked branches, and all of them exactly if no command fails; one switch if HEAD stood on a marked branch, to its remap target, and none otherwise; nothing deleted is checked out |
| Prune.Analyze | tools/git_prune_all.py:42-88 | the first phase: fails exactly on a cycle, otherwise marks the pruned set with resolved targets |
| Prune.PruneAll | tools/git_prune_all.py:27-194 | finishes without errors exactly when there is no cycle, something is marked and no command fails, and then the forest is contracted; stops early exactly if a setting fails; and under any failures, which branches go, which settings change, trees, worktrees, HEAD, and which deletions git refuses |
| Prune.AsksOnlyForFreeBranches | tools/git_prune_all.py:159-174 | when the worktrees were listed: in the main worktree no deletion is refused, in a linked one exactly that of the main worktree's branch, if it is marked; when they were not: none exactly if no marked branch is checked out elsewhere |
| Repository.ReadWorktrees | python/tools/git_utils.py:272-293 | finds every branch of a linked worktree with its path, and nothing else |
| Repository.Repo.ListWorktrees | python/tools/git_utils.py:272-293 | the same if git lists the worktrees; if it fails, the listing is empty and the failure is counted |
| Repository.HiddenIsUnlisted | python/tools/git_utils.py:272-293 | what is checked out elsewhere and not listed: the branch of the main worktree, or everything when git fails |
| Repository.Repo.Checkout | tools/git_prune_all.py:151-158 | a checkout moves HEAD to a local branch, or detaches it, or fails and leaves it; it fails for a branch checked out elsewhere |
| Repository.Repo.DeleteBranch | tools/git_prune_all.py:171-181 | deletion forgets ref, settings and tree; it fails for a branch checked out in any worktree |
| Merges.History.Merge | tools/git_update_all.py:71-73 | a merge changes the branch checked out at its place: it then holds both histories and at most one new commit; or it fails and changes nothing |
| Merges.MergesIntoItself | tools/git_update_all.py:48-73 | the merge of a turn goes into the branch of that turn exactly when the listing is not stale for it |
| Merges.StaleOnlyInLinked | tools/git_update_all.py:45-55 | when that happens: in a linked worktree, once a branch before the one checked out at the start has been checked out there |
| Merges.StaleBranchMissesOut | tools/git_update_all.py:51-55 | the branch for which the listing is stale gets nothing, so the update is right only if there was nothing to merge |
| Merges.StaleHistory | tools/git_update_all.py:48-73 | whenever the listing goes stale, for any worktrees, branches and order, there are histories from which no finished update is right |
| Merges.RightIffFresh | tools/git_update_all.py:48-73 | all histories are updated rightly exactly when the listing does not go stale |
| Merges.StaleRun | tools/git_update_all.py:48-73 | a small configuration in which it goes wrong, whatever the commands do |
| Merges.InheritedStep | tools/git_update_all.py:48-55 | what a branch inherits is its own history and what its parent inherits |
| Merges.MergedStep | tools/git_update_all.py:48-73 | one successful merge after the parent's brings a branch to exactly its inheritance, up to merge commits |
| Merges.MergeParent | tools/git_update_all.py:51-92 | one turn: where the merge goes, and what is restored after a failure here but not after one in another worktree |
| Merges.MergeInOrder | tools/git_update_all.py:45-97 | after any number of turns the branches merged so far hold exactly what they inherit, the others are unchanged, unless the listing went stale; it stops exactly at the first command that fails; HEAD is restored at the end, if that checkout works |
| Merges.ChainIsInherited | tools/git_update_all.py:48-73 | an inheritance includes the old history of every branch above, up to the top of a stack and the parent of that |
| Merges.StackIsInherited | tools/git_update_stack.py:69-98 | every branch of a stack inherits from its base and from the parent of the base |
| Merges.UpdateAll | tools/git_update_all.py:23-98 | succeeds exactly when there is no cycle and no checked command fails; then, unless the listing went stale, every node holds exactly the old histories of its whole chain, up to merge commits |
| Merges.UpdateStack | tools/git_update_stack.py:27-119 | succeeds exactly when the target is local, its walk ends and no checked command fails; then the same for its stack, whose base also gets the old history of its parent |
| GetoptParser.ShortOptsWellFormed | src/base/getopt_compat.cc:69-91 | shortopts is accepted exactly when it is letters and digits, each followed by at most one colon |
| GetoptParser.FindLongFirst | src/base/getopt_compat.cc:40-48 | the first option with that exact name, or none has it |
| GetoptParser.FindShortFirst | src/base/getopt_compat.cc:50-56 | the first nameless option with that letter, or none has it |
| GetoptParser.FlagsParse | src/base/getopt_compat.cc:166-191 | a cluster of flags is reported letter by letter before the rest of the cluster |
| GetoptParser.UseReadsBack | src/base/getopt_compat.cc:116-216 | each way of writing options, in front of any arguments, is read back as what it means |
| GetoptParser.ParseUndoesPrint | src/base/getopt_compat.cc:96-226 | a printed list of options, then `--` or an argument that is no option, parses to the same options, arguments and positionals |
| GetoptParser.CommandLineRoundTrip | src/base/getopt_compat.cc:96-226 | events and index that a complete parse reports are those of the printed command line |
| GetoptParser.EmptyLongNameIsFirstShort | src/base/getopt_compat.cc:119-133 | `--=v` is read as the first short option of the table |
| GetoptMachine.ParseOpts | src/base/getopt_compat.cc:58-92 | builds the long options followed by the short ones, and fails exactly on a malformed shortopts |
| GetoptMachine.Getopt.CallLong | src/base/getopt_compat.cc:119-158 | reports the first event left to parse and leaves the others; the CHECK at its end is unreachable |
| GetoptMachine.Getopt.CallShort | src/base/getopt_compat.cc:166-218 | the same for one letter of a cluster; the letter is never NUL and the CHECK at the end is unreachable |
| GetoptMachine.Getopt.GetoptLong | src/base/getopt_compat.cc:96-226 | a call reports the first of the events left and leaves the rest, or returns -1 in front of the positionals when none is left; it keeps optind in range and nextchar inside the current argument; with a malformed shortopts it does not move |
| GetoptMachine.ParseCommandLine | src/websocket_bridge/websocket_bridge.cc:107-111 | calling until -1 ends, with exactly the events and positionals of the pure parser |
| GnTargets.AnswerHoldsAllPaths | tools/gn_utils.py:643-697 | the sets of the result hold exactly what the paths of each kind reach |
| GnTargets.ReachesUnfold | tools/gn_utils.py:643-695 | a target is reached by a path exactly when it is reached by one kept edge and what lies behind it |
| GnTargets.ListingOrderIsIrrelevant | tools/gn_utils.py:643-695 | the result does not depend on order or repetition of dependencies |
| GnTargets.FlagsMore | tools/gn_utils.py:510-513 | one more dependency adds exactly the flags that bubble up through it |
| GnTargets.PartialNext | tools/gn_utils.py:644-695 | after one more turn of the loop the target holds what the dependencies so far contribute |
| GnTargets.GnParser.Absorb | tools/gn_utils.py:647-695 | the branches of the loop body add exactly what paths through this dependency reach |
| GnTargets.GnParser.AbsorbAll | tools/gn_utils.py:643-697 | the loop finishes the target and leaves the other remembered targets alone |
| GnTargets.GnParser.GetTarget | tools/gn_utils.py:523-697 | on a well-formed acyclic description returns the answer defined by paths, None exactly for an unknown label, whatever was asked before; remembered targets never change |
| CrashKeys.NextKeeps | src/base/crash_keys.cc:37-51 | every step of every thread keeps the registration and serializer invariants |
| CrashKeys.SlotsHoldRegisteredKeysOnce | src/base/crash_keys.cc:37-51 | in every reachable state a slot is empty or holds a registered key, and a key fills at most one slot |
| CrashKeys.ClaimsAreExclusive | src/base/crash_keys.cc:45-50 | no two threads are about to fill the same slot, nor one that is filled |
| CrashKeys.NoneLostStep | src/base/crash_keys.cc:37-51 | as long as the counter is at most kMaxKeys, every step leaves each registered key stored or held by a thread |
| CrashKeys.StoredIffFinished | src/base/crash_keys.cc:37-51 | with at most kMaxKeys registered keys a key is stored exactly when the call that won it has returned |
| CrashKeys.SerializerEmitsStoredKeysOnce | src/base/crash_keys.cc:80-94 | a serializer with a buffer calls ToString for every key stored before it loaded the counter exactly once, only for registered keys, and leaves room for the terminator |
| CrashKeys.FinishedKeysAreEmittedOnce | src/base/crash_keys.cc:37-94 | if at most kMaxKeys keys are registered when it loads the counter, it does so for every key whose winning call had returned by then |
| CrashKeys.SerializerStaysInside | src/base/crash_keys.cc:82-86 | a serializer with a buffer that has finished stayed inside the array exactly when the counter it loaded was at most kMaxKeys |
| CrashKeys.FewKeysStayInside | src/base/crash_keys.cc:31-34 | with at most kMaxKeys registered keys it never leaves the array |
| CrashKeys.RunOutOfBounds | src/base/crash_keys.cc:82-86 | a run with one key more in which it does |
| CrashKeys.LeavesArrayIffManyKeys | src/base/crash_keys.cc:31-86 | some run leaves the array exactly when more than kMaxKeys keys may be registered |
| CrashKeys.KeyWithoutSlot | src/base/crash_keys.cc:45-49 | a run in which a call wins and returns, and its key is not stored |
| CrashKeys.LosesKeyIffManyKeys | src/base/crash_keys.cc:31-51 | some run loses a key that way exactly when more than kMaxKeys keys may be registered |
| CrashKeys.LosingCallPromisesNothing | src/base/crash_keys.cc:41-43 | a run where a call that lost the exchange returns and a later serializer misses the key |
| Base64.DecodeCharMeaning | src/base/base64.cc:32-51 | the table gives the digit of each character of both alphabets, zero for padding, and rejects all others |
| Base64.TableIsAlphabet | src/base/base64.cc:26-28 | the encoding table lists the 64 characters of the standard alphabet by digit |
| Base64.EncodedIsEncoding | src/base/base64.cc:63-94 | what the code computes is the encoding of section 4 of RFC 4648, stated by 24-bit groups |
| Base64.EncodedSize | include/perfetto/ext/base/base64.h:31-33 | its length is four characters for each started group of three bytes |
| Base64.EncodeInto | src/base/base64.cc:63-95 | the loop writes exactly that text and nothing behind it |
| Base64.Encode | src/base/base64.cc:55-96 | fails exactly when there is too little room, changing nothing; otherwise writes the RFC 4648 encoding and returns its length |
| Bits.SecondDigit | src/base/base64.cc:71-74 | the low bits of one byte joined with the high bits of the next, as a number; likewise Bits.ThirdDigit for the digit after it |
| Bits.FirstByte | src/base/base64.cc:128 | two digits shifted and joined, as a number; likewise for the other two bytes |
| Base64.GroupBytesSpell | src/base/base64.cc:128-130 | three decoded bytes spell the same 24-bit number as the four digits |
| Base64.ReadGroup | src/base/base64.cc:120-127 | reads four characters, padding in the last two only, and fails exactly at one that is not accepted |
| Base64.DecodeWith | src/base/base64.cc:106-137 | the loop computes the decoded text, or fails; it writes nothing behind the bound and the returned length is in range |
| Base64.Decode | src/base/base64.cc:106-137 | the same with the decoding table |
| Base64.AcceptedTextsWith | src/base/base64.cc:117-127 | the exact set of texts that decode, for any table with the meaning of the alphabets |
| Base64.DecodeUndoesEncodeWith | src/base/base64.cc:55-137 | the round trip for any pair of tables that agree on the digits |
| Base64.AcceptedTexts | src/base/base64.cc:117-127 | with room, decoding succeeds exactly when every character is accepted and the length is not 1 modulo 4 |
| Base64.DecodeUndoesEncode | src/base/base64.cc:55-137 | decoding undoes encoding, with any characters in the URL-safe alphabet and any part of the padding left off |
| SqlText.ScanCall | python/tools/format_sql.py:443-451 | finds the parenthesis that closes the call, or shows that none does |
| SqlText.ReplaceKeepsExpansion | python/tools/format_sql.py:453-457 | replacing all occurrences of a macro by a fresh placeholder does not change what the text expands to, nested and repeated macros included |
| SqlText.TakenExpands | python/tools/format_sql.py:453-457 | over tokens, the text without its macros expands to the SQL |
| SqlText.RestoreStep | python/tools/format_sql.py:473-474 | over tokens, restoring one more macro expands one more placeholder |
| SqlText.TokenRoundTrip | python/tools/format_sql.py:430-475 | over tokens, taking any texts out and putting them back is the identity on every SQL text, nested and repeated ones included |
| Texts.NumbersDiffer | python/tools/format_sql.py:455 | no placeholder begins like another, whatever follows it |
| SqlMacros.RestoreShown | python/tools/format_sql.py:473-474 | restoring a macro in the characters is restoring it in the tokens, if no text between placeholders spells the middle of a name |
| SqlMacros.TakeShown | python/tools/format_sql.py:457 | taking a call out of the characters is taking it out of the tokens, if it is nowhere in the text from within a placeholder on |
| SqlMacros.SafeNeverCrosses | python/tools/format_sql.py:457 | nowhere is it, if it cannot be cut so that its front is what a placeholder can end in and the rest stands behind a parenthesis in the SQL |
| SqlCuts.CrossingCuts | python/tools/format_sql.py:457 | taking out a macro from within a placeholder leaves a stump of that, in front of the placeholder of a macro that begins with the rest |
| SqlCuts.CutStays | python/tools/format_sql.py:457 | whatever macros are taken out then, some such stump stays |
| SqlCuts.StuckStep | python/tools/format_sql.py:473-474 | whatever is put back, the middle of a name stays in the text: it loses the bars that would let it be replaced, or it is completed when its turn is over |
| SqlCuts.ComesBackIffClean | python/tools/format_sql.py:430-475 | a text without the middle of a name comes back exactly if no macro is taken out from within a placeholder |
| SqlMacroTrip.CallsAreSafe | python/tools/format_sql.py:442-457 | if no match can be cut so, neither can the calls that the matches open |
| SqlMacroTrip.SpacedIsSafe | python/tools/format_sql.py:442 | however macro names begin, none can be if no word stands right behind a parenthesis |
| SqlMacroTrip.PlainIsSafe | python/tools/format_sql.py:442 | nor can a name that neither begins with an underscore nor has two in a row |
| SqlMacroTrip.Preprocess | python/tools/format_sql.py:430-459 | the extracted texts are exactly the calls that close, each up to its matching parenthesis, taken out one after the other; a text without the middle of a name can be put together again exactly if no macro is taken out from within a placeholder |
| SqlMacroTrip.Postprocess | python/tools/format_sql.py:462-475 | whatever the formatter did: if the text shows placeholders for the macros of a full text without the middle of a name, that text comes back |
| SqlMacroTrip.MacroRoundTrip | python/tools/format_sql.py:565-580 | taking macros out and putting them back is the identity for a text without the middle of a name exactly if no macro is taken out from within a placeholder, so with safe matches; nested and repeated macros included |
| SqlMacroTrip.OverlapBreaks | python/tools/format_sql.py:455-474 | a text that does not come back although it contains no placeholder |
| SqlMacroTrip.UnsafeMatchBreaks | python/tools/format_sql.py:455-474 | a text without the middle of a name that does not come back, since a match in it is not safe |
| SqlComments.ChunksKeepLines | python/tools/format_sql.py:492-502 | chunks are runs of lines that are not blank and lose nothing else |
| SqlComments.LaidKeeps | python/tools/format_sql.py:505-518 | with a block for each placeholder, the lines of the result are those of the chunks that are not blank |
| SqlComments.TrimKeeps | python/tools/format_sql.py:520 | trimming those lines at both ends keeps the stripped lines |
| SqlBlocks.StripText | python/tools/format_sql.py:520 | stripping the joined text is trimming its lines |
| SqlBlocks.ReplacedText | python/tools/format_sql.py:533-535 | replacing a placeholder in the text is replacing it in each line, and leaves all other placeholders |
| SqlBlocks.RestoredKeeps | python/tools/format_sql.py:523-536 | putting blocks back one after the other keeps the lines if no line and no earlier block contains a placeholder still to be replaced |
| SqlLines.PutGrows | python/tools/format_sql.py:523-536 | putting blocks back makes no fewer lines that are not blank |
| SqlLines.PrefixPut | python/tools/format_sql.py:523-536 | if one line is left of some text followed by a comment, the text contains no placeholder and stays in front of what becomes of the comment |
| SqlLines.BackIsHarmless | python/tools/format_sql.py:523-536 | a line comes back only if every placeholder in it is harmless: at its end, and that of a block which is nothing but itself |
| SqlLines.HarmlessIsBack | python/tools/format_sql.py:523-536 | and then it does |
| SqlRoundTrip.AllBackIffSafe | python/tools/format_sql.py:478-536 | the lines come back exactly if every placeholder in them is harmless where it is when it is replaced |
| SqlRoundTrip.NoPlaceholderIsSafe | python/tools/format_sql.py:478-536 | in particular if no line contains the placeholder of an extracted block |
| SqlRoundTrip.PlaceholderInSql | python/tools/format_sql.py:533-535 | a text for which that fails |
| SqlRoundTrip.Extract | python/tools/format_sql.py:478-520 | extracts exactly the chunks that are all comment; with a block for each placeholder, the text keeps the stripped lines that are not blank |
| SqlRoundTrip.Restore | python/tools/format_sql.py:523-536 | whatever the formatter did: if the text shows lines with placeholders of blocks that are nowhere else, it keeps those lines with the blocks in the places of their placeholders |
| SqlRoundTrip.CommentRoundTrip | python/tools/format_sql.py:562-581 | restoring after extracting keeps the sequence of stripped lines that are not blank exactly if every placeholder in them is harmless |
| IntrusiveList.ListOps.PushFront | src/base/intrusive_list.cc:23-33 | prepends a node that is out, whatever stale links it has |
| IntrusiveList.ListOps.PopFront | src/base/intrusive_list.cc:35-45 | removes the first node; links, size and sequence stay consistent |
| IntrusiveList.ListOps.Erase | src/base/intrusive_list.cc:47-65 | removes any member; links, size and sequence stay consistent |
| IntrusiveList.ListOps.Iterate | include/perfetto/ext/base/intrusive_list.h:100-104 | following next meets every element once, in order, and ends |
| IntrusiveList.Perform | src/base/intrusive_list.cc:23-65 | any sequence of allowed operations follows the pure sequence |
| ScanRoots.Tree.Find | tools/find_scan_roots.py:33-43 | returns the node if it exists, otherwise creates and returns the first missing one |
| ScanRoots.Tree.AddLine | tools/find_scan_roots.py:79-80 | the label goes to the listed node exactly when it or its parent was there before |
| ScanRoots.BuildTree | tools/find_scan_roots.py:65-81 | from a listing with parents first, the tree has just the listed nodes with their last labels |
| ScanRoots.Tree.Preorder | tools/find_scan_roots.py:45-49 | everything below a node, once, each after its parent |
| ScanRoots.Tree.Mark | tools/find_scan_roots.py:51-62 | marks exactly what hangs from the node through wanted, unmarked nodes; true exactly when the node itself was such |
| ScanRoots.ScanStep | tools/find_scan_roots.py:90-92 | in preorder a wanted node is unmarked exactly when its parent is not wanted |
| ScanRoots.OneTop | tools/find_scan_roots.py:84-92 | a wanted node hangs from at most one printed node |
| ScanRoots.TopExists | tools/find_scan_roots.py:84-92 | a wanted node hangs from some printed node |
| ScanRoots.Tree.Scan | tools/find_scan_roots.py:84-92 | prints exactly the wanted nodes whose parent is the root or not wanted, each once, and marks exactly the wanted nodes |
| FileIo.ReadFileDescriptor | src/base/file_utils.cc:115-138 | appends exactly what was read behind what was there, with room for every read; true exactly if no read failed, and then up to the end of the file |
| FileIo.WriteAll | src/base/file_utils.cc:181-198 | writes a prefix of the buffer, whose length it returns unless a write failed; all of it exactly if no write failed or wrote nothing |
| FileIo.CopyFileContents | src/base/file_utils.cc:200-241 | succeeds exactly if no seek, read or write fails and no write stalls; then the whole source is copied, otherwise a prefix; the offset is put back |

## Left out

- Prune.PruneAll: does not model the dry run, argument parsing and messages, which change nothing in the repository.
- Merges.UpdateAll: does not model exit codes and messages, nor the conflicted working tree a failed merge leaves behind.
- Merges.MergeInOrder: when a merge has gone into the wrong branch, says of the others only that they keep what they had; whether a history is updated wrongly by one stale listing depends on it, so the if-and-only-if is over all histories.
- GnTargets.GnParser.GetTarget: does not model how protobuf targets are recognised, the registries by kind, or the fields that are copied from one description only; `instruments` and the assertions on Android actions are left out too.
- GetoptMachine.ParseOpts: does not model its CHECKs on `flag` and `has_arg` as crashes; `has_arg` in {0, 1} is a precondition.
- CrashKeys.SerializerEmitsStoredKeysOnce: does not model the text of a key, only that ToString leaves room for the terminator; nor UnregisterAllCrashKeysForTesting.
- SqlMacroTrip.Preprocess: does not model the regular expression, whose matches are any list of spans that end in a parenthesis.
- SqlMacroTrip.MacroRoundTrip: says nothing of an SQL text that contains `macro_` followed by a digit itself; the formatter that runs between the two passes is not modelled, but what the second pass does with its result is in SqlMacroTrip.Postprocess.
- Strings.StripIsTight: does not model white space beyond ASCII.
- SqlRoundTrip.Extract: splits lines at '\n' only, where splitlines also splits at other line ends and keeps no empty last line; white space is ASCII.
- ScanRoots.BuildTree: does not model the splitting of an input line into label and path.
- ScanRoots.Tree.Mark: models nodes as the paths that lead to them, in one map, instead of linked objects; every node is held by one dictionary, so nothing is aliased.
- FileIo.CopyFileContents: takes the final lseek not to fail; the code crashes if it does.
- get_connected_branches, the small git helpers, and the worktree listing of `python/tools/git_utils.py`: thin wrappers around the walks and git.
- Basename, Dirname and the other helpers of `src/base/file_utils.cc`: easy string functions and foreign calls.
- pack_bundle of `tools/gen_amalgamated_sql.py`: a straight concatenation, whose decoder is elsewhere.
- ODRChecker of `tools/gn_utils.py`, the sqlglot dialect of `python/tools/format_sql.py`, and everything that is a thin layer over a foreign interface.
