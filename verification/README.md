# Verified model of the Arrow GLib bindings and tools

A Dafny model of the parts of this repository that carry their own loops, state and
arithmetic, with proofs about all inputs and all runs. `dafny verify dfyconfig.toml` checks
the whole project.

- **Builder ownership** (`BuilderOwnership.dfy`, `BuilderRuntime.dfy`). The wrappers around
  nested list, large-list, struct and map builders: reference counts, raw pointers, the
  ownership flag, lazy child getters, dispose and finalize. The first file has the object heap
  as a value with the invariant and the theorems over every run; the second has the code that
  updates the heap in place, proved equal to it step by step.
- **Bulk append** (`BulkAppend.dfy`). The four chunking `append_values` overloads and the
  boolean one, over every failure pattern of the Arrow builder, against the one-by-one form.
- **Changed topics** (`PathParts.dfy`, `DetectChanges.dfy`, `ShippedTables.dfy`). Path
  splitting and the recursive, memoised walk over the dependency table.
- **Merge tool** (`MergeDirectives.dfy`, `MergeAuthors.dfy`, `FixVersions.dfy`). Stripping of
  CI directives, author credit, and fix versions.
- **Buffer slices** (`BufferSlices.dfy`), **field caches** (`StructFields.dfy`) and **the
  Plasma benchmark** (`PlasmaBench.dfy`). `Common.dfy` has the few notions that several models use.

Where the code and what is written about it disagree, the model follows the code:

- The comment at arrow/ci/detect-changes.py:194 says the walk ends on circular dependencies.
  A topic is remembered only after its recursive call, so the walk returns exactly when no
  cycle is reachable (`DetectChanges.GetAffectedTopics`, `DetectChanges.FiniteIffAcyclic`).
- A `gboolean` flag is documented as TRUE or not. Three of the overloads store it in a byte, so
  a flag such as 256 means null there (`BulkAppend.NarrowingKeepsPromise`); the pointer form of
  fixed-size values does not narrow it (`BulkAppend.PackedIsPointerForm`). Boolean values are
  narrowed in the same way (`BulkAppend.BulkBooleansAreOneByOne`).
- The single append of a fixed-size value rejects a value of the wrong size; the bulk form cuts
  a longer one (`BulkAppend.BulkIsOneByOne`).
- The comment at arrow/dev/merge_arrow_pr.py:173 promises another suggestion if there is a
  non-patch release; with only patch releases the code takes the last of an empty list
  (`FixVersions.OnlyPatchReleasesFail`, `FixVersions.SuggestFor`).
- The comment at arrow/dev/merge_arrow_pr.py:123 expects versions from newest to oldest; they are
  sorted by name, which takes 10.0.0 for older than 9.0.0 (`FixVersions.NameOrderIsReleaseOrder`).

## Model

| member | source | states |
|---|---|---|
| `BuilderOwnership.EveryRunDeletesOnce` | arrow/c_glib/arrow-glib/array-builder.cpp:448-565 | on every run of client calls from an empty heap: no freed wrapper is ever touched, each raw builder is deleted at most once, and it has been deleted exactly when the first wrapper of its tree is gone; once clients hold no reference, no wrapper is left and every raw builder has been deleted exactly once |
| `BuilderOwnership.StepDeletesWithRoot` | arrow/c_glib/arrow-glib/array-builder.cpp:467-477 | a client call deletes a tree if and only if that call finalizes the wrapper the tree was first handed to; earlier deletions stay as they are |
| `BuilderOwnership.GivingBackFreesAll` | arrow/c_glib/arrow-glib/array-builder.cpp:467-477 | after any run, giving back all held references, in every order, leaves no wrapper and has deleted each raw builder once |
| `BuilderOwnership.StepKeeps` | arrow/c_glib/arrow-glib/array-builder.cpp:4983-5800 | every legal client call keeps the invariant: counts equal claims, slots are distinct and live, an owning wrapper with a raw pointer is a root or is listed by a live struct wrapper |
| `BuilderOwnership.StepHeld` | arrow/c_glib/arrow-glib/array-builder.cpp:511-516 | what a call does to the references clients hold: a new builder and a ref add one, an unref takes one away, every other call leaves them |
| `BuilderOwnership.HoldAddsOne` | arrow/c_glib/arrow-glib/array-builder.cpp:467-477 | a client's ref adds one to the count of that wrapper and touches nothing else |
| `BuilderOwnership.HoldThenGiveBack` | arrow/c_glib/arrow-glib/array-builder.cpp:467-477 | a ref followed by an unref leaves the whole heap as it was |
| `BuilderOwnership.GiveBackOneOfSeveral` | arrow/c_glib/arrow-glib/array-builder.cpp:467-477 | an unref of one of several held references frees and deletes nothing |
| `BuilderOwnership.GiveBackLast` | arrow/c_glib/arrow-glib/array-builder.cpp:467-477 | an unref of the last reference to a wrapper that is in no slot frees it |
| `BuilderOwnership.DiscardEmpties` | arrow/c_glib/arrow-glib/array-builder.cpp:5355-5372 | a dispose by a client empties the slots of the wrapper, which otherwise stays as it is |
| `BuilderOwnership.ClientMay` | arrow/c_glib/arrow-glib/array-builder.cpp:5187-5199 | a client may make every call its builder has while the first wrapper of the tree lives |
| `BuilderOwnership.UsableWhileRootLives` | arrow/c_glib/arrow-glib/array-builder.cpp:467-477 | a raw pointer may be followed exactly while the first wrapper of its tree lives |
| `BuilderOwnership.UnrefKeeps` | arrow/c_glib/arrow-glib/array-builder.cpp:467-477 | dropping one reference keeps the invariant, through the whole recursive chain of dispose and finalize it may start |
| `BuilderOwnership.DisposeKeeps` | arrow/c_glib/arrow-glib/array-builder.cpp:5355-5372 | dispose of any wrapper, also a repeated one, keeps the invariant; its slots' references move to the call in progress and are all given back |
| `BuilderOwnership.UnrefAllKeeps` | arrow/c_glib/arrow-glib/array-builder.cpp:5360-5367 | releasing a list of distinct children keeps the invariant; for struct children the raw pointer is nulled before the reference is dropped, so none of them deletes a node of the tree |
| `BuilderOwnership.FinalizeKeeps` | arrow/c_glib/arrow-glib/array-builder.cpp:467-477 | finalizing a wrapper whose last reference is gone and whose slots are empty keeps the invariant |
| `BuilderOwnership.FinalizeDeletesRoot` | arrow/c_glib/arrow-glib/array-builder.cpp:467-477 | the only raw pointer that finalize deletes is the root of a tree not deleted before |
| `BuilderOwnership.NewKeeps` | arrow/c_glib/arrow-glib/array-builder.cpp:511-516 | a new builder with its own raw tree keeps the invariant |
| `BuilderOwnership.GetValueKeeps` | arrow/c_glib/arrow-glib/array-builder.cpp:5187-5199 | the lazy value getter of list, large list and map keeps the invariant, called any number of times |
| `BuilderOwnership.GetKeyKeeps` | arrow/c_glib/arrow-glib/array-builder.cpp:5738-5751 | the lazy key getter of map keeps the invariant |
| `BuilderOwnership.GetItemKeeps` | arrow/c_glib/arrow-glib/array-builder.cpp:5761-5774 | the lazy item getter of map keeps the invariant |
| `BuilderOwnership.GetFieldsKeeps` | arrow/c_glib/arrow-glib/array-builder.cpp:5519-5538 | the lazy field getter of struct, whose children stay marked as owning, keeps the invariant |
| `BuilderOwnership.RunDisposeKeeps` | arrow/c_glib/arrow-glib/array-builder.cpp:4996-5007 | g_object_run_dispose by a client keeps the invariant |
| `BuilderOwnership.NoneHeldNoneLive` | arrow/c_glib/arrow-glib/array-builder.cpp:4983-5577 | wrappers cannot keep each other alive: without client references there is none |
| `BuilderOwnership.DeletionsOfDistinctRoots` | arrow/c_glib/arrow-glib/array-builder.cpp:472-474 | a raw builder has been freed once if the root of its tree is in the log of delete calls, and otherwise not at all |
| `BuilderOwnership.MapKeyAndItemAliased` | arrow/c_glib/arrow-glib/array-builder.cpp:5738-5800 | after a client has asked a map for its key, item and value builders and the value builder for its fields, the key builder and field 0 are two different wrappers of one raw node, and so are the item builder and field 1; only the fields are marked as owning |
| `BuilderOwnership.AskValueWraps` | arrow/c_glib/arrow-glib/array-builder.cpp:5187-5199 | the value getter of list, large list and map wraps the raw builder of the values, of its own type, without owning it |
| `BuilderOwnership.AskFieldsWrap` | arrow/c_glib/arrow-glib/array-builder.cpp:5519-5538 | the field getter of struct lists one owning wrapper for each field, in order, each of the field's raw builder and type |
| `BuilderOwnership.KeyAndItemWrap` | arrow/c_glib/arrow-glib/array-builder.cpp:5738-5774 | the key and item getters of map wrap the two fields of its entries |
| `BuilderRuntime.Runtime.UnrefObject` | arrow/c_glib/arrow-glib/array-builder.cpp:467-477 | the in-place unref computes Unref of the object heap |
| `BuilderRuntime.Runtime.DisposeObject` | arrow/c_glib/arrow-glib/array-builder.cpp:5556-5577 | the in-place dispose of all builder kinds, in the source's own order (each slot released and then cleared, fields released one by one and then the list cleared), computes Dispose |
| `BuilderRuntime.Runtime.ReleaseFields` | arrow/c_glib/arrow-glib/array-builder.cpp:5355-5372 | releasing the fields and then clearing the list leads to the same heap as releasing them after the list was cleared |
| `BuilderRuntime.PutUnref` | arrow/c_glib/arrow-glib/array-builder.cpp:4996-5007 | whatever an unref sets off reads and writes only that wrapper and younger ones, so it cannot see a slot of its parent that is not cleared yet |
| `BuilderRuntime.Runtime.DisposeFields` | arrow/c_glib/arrow-glib/array-builder.cpp:5355-5372 | the loop of the struct dispose nulls each child's raw pointer and then releases it, in list order |
| `BuilderRuntime.Runtime.FinalizeObject` | arrow/c_glib/arrow-glib/array-builder.cpp:467-477 | removes the wrapper, and logs a delete exactly when it owns a non-null raw pointer |
| `BuilderRuntime.Runtime.ReleaseOwnership` | arrow/c_glib/arrow-glib/array-builder.cpp:560-565 | clears the ownership flag of one wrapper and changes nothing else |
| `BuilderRuntime.Runtime.CreateBuilder` | arrow/c_glib/arrow-glib/array-builder.cpp:511-516 | hands the client the only reference to an owning wrapper of a fresh tree |
| `BuilderRuntime.Runtime.GetValueBuilder` | arrow/c_glib/arrow-glib/array-builder.cpp:5187-5199 | fills the slot on first use with a wrapper that does not own its raw builder, and returns what is in the slot |
| `BuilderRuntime.Runtime.GetKeyBuilder` | arrow/c_glib/arrow-glib/array-builder.cpp:5738-5751 | the same for the key of a map |
| `BuilderRuntime.Runtime.GetItemBuilder` | arrow/c_glib/arrow-glib/array-builder.cpp:5761-5774 | the same for the item of a map |
| `BuilderRuntime.Runtime.GetFieldBuilders` | arrow/c_glib/arrow-glib/array-builder.cpp:5519-5538 | fills the field list on first use, and returns it |
| `BuilderRuntime.Runtime.NewFieldWrappers` | arrow/c_glib/arrow-glib/array-builder.cpp:5528-5534 | prepending and reversing gives one owning wrapper per field, in field order |
| `BuilderRuntime.Runtime.Perform` | arrow/c_glib/arrow-glib/array-builder.cpp:448-565 | a legal client call keeps the invariant and has the effect of Step |
| `BuilderRuntime.Runtime.PerformAll` | arrow/c_glib/arrow-glib/array-builder.cpp:448-565 | a whole client program keeps the invariant and ends in the heap of Run |
| `BulkAppend.ChunksCover` | arrow/c_glib/arrow-glib/array-builder.cpp:63-80 | each chunk has 1 to 4096 elements and starts where the one before ends; together they are the whole input |
| `BulkAppend.ChunksOf4096` | arrow/c_glib/arrow-glib/array-builder.cpp:63-79 | n elements take as many calls as there are full or partial chunks of 4096, and k chunks hold 4096*k elements or all of them |
| `BulkAppend.AppendValues` | arrow/c_glib/arrow-glib/array-builder.cpp:39-95 | a length mismatch appends nothing; otherwise the chunks before the first one refused are appended with their flags, and the status tells whether there was one |
| `BulkAppend.AppendStrings` | arrow/c_glib/arrow-glib/array-builder.cpp:123-186 | the same for arrays of GBytes, with or without flags |
| `BulkAppend.CollectStrings` | arrow/c_glib/arrow-glib/array-builder.cpp:149-179 | the inner loop yields the strings of the chunk and, if there are flags, exactly one narrowed validity byte for each |
| `BulkAppend.AppendFixed` | arrow/c_glib/arrow-glib/array-builder.cpp:188-268 | the same for pointers to fixed-size values: an element is null if its pointer is NULL or its flag is unset, and otherwise its first byte_width bytes; after success the builder holds what one append per element would have left, if and only if every present value has exactly byte_width bytes |
| `BulkAppend.FillOne` | arrow/c_glib/arrow-glib/array-builder.cpp:238-261 | each turn of the inner loop keeps: no validity buffer is in use and all elements so far are present, or it is and each of its bytes tells the truth; and the data buffer holds the present values at their places |
| `BulkAppend.NoteValidity` | arrow/c_glib/arrow-glib/array-builder.cpp:251-260 | the first null brings the validity buffer into use and sets all bytes before it |
| `BulkAppend.FillChunk` | arrow/c_glib/arrow-glib/array-builder.cpp:224-261 | after the inner loop the validity buffer and the data buffer hold the chunk, without overrunning either |
| `BulkAppend.PrepareChunk` | arrow/c_glib/arrow-glib/array-builder.cpp:217-262 | what is handed to the Arrow builder reads as exactly this chunk of the array |
| `BulkAppend.AppendPacked` | arrow/c_glib/arrow-glib/array-builder.cpp:270-334 | the packed form appends the whole values in the bytes; a trailing partial value is ignored; failure as in the other forms; after success the builder holds what one append per value would have left, if and only if no flag is a non-zero multiple of 256 |
| `BulkAppend.PackedPart` | arrow/c_glib/arrow-glib/array-builder.cpp:326-328 | the bytes from value_size * offset on hold values offset, offset + 1 and so on of the input |
| `BulkAppend.OutcomeOfChunks` | arrow/c_glib/arrow-glib/array-builder.cpp:86-90 | success means that the whole array was appended in one piece and no chunk was refused; failure means that exactly the first 4096*k elements were, k being the first chunk refused |
| `BulkAppend.NarrowingKeepsPromise` | arrow/c_glib/arrow-glib/array-builder.cpp:80-82 | storing flags in bytes keeps the documented meaning of TRUE if and only if no flag is a non-zero multiple of 256 |
| `BulkAppend.NarrowingLosesTrue` | arrow/c_glib/arrow-glib/array-builder.cpp:80-82 | the flag 256 is TRUE and its element becomes null |
| `BulkAppend.BulkIsOneByOne` | arrow/c_glib/arrow-glib/array-builder.cpp:3532-3561 | the bulk form of fixed-size values adds what one append per element adds, if and only if every present value has exactly byte_width bytes |
| `BulkAppend.AppendSingle` | arrow/c_glib/arrow-glib/array-builder.cpp:3532-3561 | the single append rejects a value of another size and changes nothing, and otherwise appends the value or, for NULL, a null, if the Arrow builder accepts it |
| `BulkAppend.AppendEach` | arrow/c_glib/arrow-glib/array-builder.cpp:3532-3561 | single appends of each element in order, NULL for an unset flag, leave exactly the array that the bulk forms are compared with |
| `BulkAppend.BulkCutsLongerValue` | arrow/c_glib/arrow-glib/array-builder.cpp:3636-3640 | a value of two bytes in a builder of one-byte values is cut by the bulk form and rejected by the single one |
| `BulkAppend.PackedIsOneByOne` | arrow/c_glib/arrow-glib/array-builder.cpp:3666-3679 | the packed form adds what one append per value adds, if and only if no flag is a non-zero multiple of 256 |
| `BulkAppend.PackedLosesValue` | arrow/c_glib/arrow-glib/array-builder.cpp:323-325 | with the flag 256 the packed form adds a null where the pointer form adds the value |
| `BulkAppend.UnpackedOfFlatten` | arrow/c_glib/arrow-glib/array-builder.cpp:280-284 | values of byte_width bytes, concatenated and followed by a partial value, are read back as those values |
| `BulkAppend.PackedIsPointerForm` | arrow/c_glib/arrow-glib/array-builder.cpp:3619-3679 | packed and pointer forms add the same array for the same values and flags, if and only if no flag is a non-zero multiple of 256 |
| `BulkAppend.PackedIsPointerFormWithoutFlags` | arrow/c_glib/arrow-glib/array-builder.cpp:3619-3679 | without flags packed and pointer forms add the same array |
| `BulkAppend.AppendBooleans` | arrow/c_glib/arrow-glib/array-builder.cpp:998-1016 | the values are narrowed to bytes and then appended like any others, with the same outcomes on a mismatch, on a refusal with or without flags, and on success; after success the builder reads as after one append per element, if and only if flags and values survive the narrowing |
| `BulkAppend.BulkBooleansAreOneByOne` | arrow/c_glib/arrow-glib/array-builder.cpp:965-1016 | the bulk form of booleans adds what one append per element adds, if and only if no flag, and no value whose flag is set, is a non-zero multiple of 256 |
| `BulkAppend.NarrowingTurnsTrueFalse` | arrow/c_glib/arrow-glib/array-builder.cpp:1006-1009 | the boolean value 256 is TRUE and the bulk form adds FALSE for it |
| `DetectChanges.Walk.AffectDependencies` | arrow/ci/detect-changes.py:192-199 | if the recursion returns, exactly the topics reachable from the component are switched on in addition and the memo holds only finished topics; also if it fails on the way, nothing is lost and only reachable topics are new or on; it returns only if chains from the component are bounded, and always if they are shorter than the stack |
| `DetectChanges.GetAffectedTopics` | arrow/ci/detect-changes.py:167-203 | a topic is on exactly when some changed file that is no README has it as its first component (one of COMPONENTS) or reaches it; the function returns only when no such file reaches a cycle, and then always if the stack is deeper than the table |
| `DetectChanges.AffectPath` | arrow/ci/detect-changes.py:174-201 | one path adds exactly the topics it touches to the dictionary |
| `DetectChanges.FiniteIffAcyclic` | arrow/ci/detect-changes.py:192-199 | chains of dependencies from a component are bounded if and only if it reaches no cycle, and then by the size of the table |
| `DetectChanges.ReachesIsChain` | arrow/ci/detect-changes.py:192-199 | one topic reaches another if and only if there is a sequence of topics from the one to the other in which the table lists each under the one before |
| `DetectChanges.OneLink` | arrow/ci/detect-changes.py:196-196 | a topic is reached in one step if and only if the table lists it, anywhere in the list |
| `DetectChanges.TouchesByTable` | arrow/ci/detect-changes.py:181-201 | what a path touches, read off the path and the table alone: its part before the first slash, its name after the last, and chains in the table |
| `DetectChanges.AnswersConcat` | arrow/ci/detect-changes.py:172-203 | the answer for two lists of files together is, as a dictionary, the pointwise or of the answers for each |
| `DetectChanges.AnswersSameFiles` | arrow/ci/detect-changes.py:172-203 | lists with the same files, in any order and with any repetition, have the same answer |
| `DetectChanges.AnswersGrow` | arrow/ci/detect-changes.py:172-203 | more files never switch a topic off and never lose a key |
| `DetectChanges.AskInParts` | arrow/ci/detect-changes.py:172-203 | of three calls, with a deep enough stack the one on all files succeeds if and only if those on the two parts do, and then its result is the pointwise or of theirs |
| `ShippedTables.ShippedIsAcyclic` | arrow/ci/detect-changes.py:147-163 | the shipped table has no cycle and no chain of more than three links |
| `ShippedTables.ReachedAreTopics` | arrow/ci/detect-changes.py:142-163 | everything reachable in the shipped table is one of ALL_TOPICS |
| `ShippedTables.ShippedReaches` | arrow/ci/detect-changes.py:147-160 | for every component, exactly which topics the shipped table switches on |
| `ShippedTables.ShippedComponents` | arrow/ci/detect-changes.py:162-163 | exactly which components are topics themselves |
| `ShippedTables.AskShipped` | arrow/ci/detect-changes.py:167-203 | for every file in a directory that is no README, the whole dictionary that the shipped tables give |
| `ShippedTables.AskCpp` | arrow/ci/detect-changes.py:290-304 | for every file under cpp that is no README, exactly cpp, python, c_glib, r, ruby and integration are on |
| `ShippedTables.KeysStayTopics` | arrow/ci/detect-changes.py:167-203 | with the shipped tables the keys of the answer are exactly ALL_TOPICS |
| `ShippedTables.KeysStayTopicsThroughout` | arrow/ci/detect-changes.py:192-199 | no call of the walk, finished or not, adds or loses a key |
| `ShippedTables.WalkSelfLoop` | arrow/ci/detect-changes.py:193-199 | on a table with a cycle the walk fails, however deep the stack, although the comment there says it ends |
| `PathParts.SplitPath` | arrow/ci/detect-changes.py:175-180 | for every path that is not absolute the loop ends with the parts between slashes, first to last |
| `PathParts.SplitTakesLast` | arrow/ci/detect-changes.py:177-179 | os.path.split takes the last part off and leaves a shorter path that is not absolute |
| `PathParts.LastComponent` | arrow/ci/detect-changes.py:177-180 | taking parts off at the back agrees with reading them from the front, whatever runs of slashes are between |
| `PathParts.AbsoluteNeverEnds` | arrow/ci/detect-changes.py:177-179 | on an absolute path the loop does not end: after any number of turns an absolute path is left |
| `PathParts.RelativeEnds` | arrow/ci/detect-changes.py:177-179 | on every other path the loop ends after exactly as many turns as there are parts |
| `PathParts.JoinComponents` | arrow/ci/detect-changes.py:175-180 | without empty components the parts joined by slashes give the path back |
| `PathParts.EndComponents` | arrow/ci/detect-changes.py:182-183 | the first and the last part are what is before the first and after the last slash |
| `PathParts.PartsHaveNoSlash` | arrow/ci/detect-changes.py:175-180 | no part has a slash in it |
| `MergeDirectives.StripSelects` | arrow/dev/merge_arrow_pr.py:113-119 | what is left is exactly the characters that are not in or at brackets that get closed, in their order |
| `MergeDirectives.StripCleans` | arrow/dev/merge_arrow_pr.py:113-119 | no opening bracket is left with a closing one after it |
| `MergeDirectives.StripTwice` | arrow/dev/merge_arrow_pr.py:113-119 | stripping again changes nothing |
| `MergeDirectives.StripConcat` | arrow/dev/merge_arrow_pr.py:113-119 | stripping two texts together equals stripping each, if and only if the first leaves no opening bracket or the second has no closing one |
| `MergeAuthors.GetPrimaryAuthor` | arrow/dev/merge_arrow_pr.py:458-478 | the first accepted answer decides: an empty one keeps the list and its head as primary author, a typed author becomes primary author and head of the list; without an accepted answer there is no result |
| `MergeAuthors.PrimaryLeads` | arrow/dev/merge_arrow_pr.py:473-478 | the credited list is led by the author typed at the prompt, followed by the others, or is the ranking if the answer was empty |
| `MergeAuthors.AuthorShape` | arrow/dev/merge_arrow_pr.py:459-459 | an answer is taken for an author if and only if it begins with a name, a space and an email in angle brackets, on one line |
| `MergeAuthors.OthersCloseGap` | arrow/dev/merge_arrow_pr.py:475-476 | taking the primary author out of the list leaves what was before and after |
| `MergeAuthors.WithoutPrimary` | arrow/dev/merge_arrow_pr.py:475-476 | removes the primary author and keeps the order of the others |
| `MergeAuthors.CreditLines` | arrow/dev/merge_arrow_pr.py:378-408 | the message names the credited authors in order, and the commit's author is the author typed at the prompt or else the first of the ranking |
| `MergeAuthors.CreditIsFair` | arrow/dev/merge_arrow_pr.py:378-408 | nobody is credited twice, the credited are the commit authors and the primary author, who comes first; the others follow by falling number of commits |
| `MergeAuthors.TypedCreditIsFair` | arrow/dev/merge_arrow_pr.py:469-478 | the same for an author typed at the prompt, whether or not among the commit authors |
| `MergeAuthors.TagTellsCommits` | arrow/dev/merge_arrow_pr.py:403-408 | the message says Authored-by if and only if all commits are by one author, whom it then names alone; otherwise it names the primary author as lead and all others as co-authors |
| `FixVersions.FilterMainline` | arrow/dev/merge_arrow_pr.py:182-188 | keeps exactly the mainline versions, in order and as often as they occur |
| `FixVersions.NonPatch` | arrow/dev/merge_arrow_pr.py:166-170 | keeps exactly the versions with patch "0", in order and as often as they occur; fails if and only if a name has not three fields |
| `FixVersions.FilterCounts` | arrow/dev/merge_arrow_pr.py:182-188 | filtering keeps every occurrence of a version that passes and none of one that does not |
| `FixVersions.FilterDescending` | arrow/dev/merge_arrow_pr.py:182-188 | filtering a list in descending order gives one in descending order |
| `FixVersions.FromBranch` | arrow/dev/merge_arrow_pr.py:122-129 | the least name among the versions of the branch; fails if and only if there is none |
| `FixVersions.SuggestFor` | arrow/dev/merge_arrow_pr.py:155-180 | the least name among the unreleased mainline versions with patch "0" on the branch; an IndexError if and only if there is none, a ValueError if and only if a mainline name has not three fields; never a version of three numbers whose third is not zero |
| `FixVersions.OnlyPatchReleasesFail` | arrow/dev/merge_arrow_pr.py:172-178 | whenever all unreleased mainline versions are patch releases the code fails with an IndexError, on every branch |
| `FixVersions.NameOrderIsReleaseOrder` | arrow/dev/merge_arrow_pr.py:123-124 | for two versions of three numbers, the order of names used by the code agrees with the order of releases that the comment expects, if and only if, in the first fields that differ, the numbers have the same length or the shorter one comes first as a string |
| `FixVersions.TenBeforeNine` | arrow/dev/merge_arrow_pr.py:161-162 | by name 10.0.0 counts as older than 9.0.0 |
| `FixVersions.FieldsOfRelease` | arrow/dev/merge_arrow_pr.py:168-168 | splitting the name of a version of three numbers gives the three numbers |
| `FixVersions.FieldsJoin` | arrow/dev/merge_arrow_pr.py:168-168 | splitting a name at its dots and joining again gives it back, and no field has a dot |
| `FixVersions.NameInThree` | arrow/dev/merge_arrow_pr.py:168-169 | a name can be taken apart if and only if it is three texts without dots between two dots, and it is a patch release if and only if the third is not "0" |
| `FixVersions.PatchOfRelease` | arrow/dev/merge_arrow_pr.py:168-169 | a version of three numbers is a patch release if and only if the third number is not zero |
| `FixVersions.CandidateRelease` | arrow/dev/merge_arrow_pr.py:155-175 | a version of three numbers is a candidate if and only if it is unreleased, the project is not PARQUET, and its third number is zero |
| `FixVersions.MainlineShape` | arrow/dev/merge_arrow_pr.py:182-188 | mainline names are those that begin with a digit or, for PARQUET, with cpp- and a digit |
| `FixVersions.NoMarker` | arrow/dev/merge_arrow_pr.py:128-128 | a branch name without the marker branch- stays as it is |
| `FixVersions.FirstMarker` | arrow/dev/merge_arrow_pr.py:128-128 | the first marker in a branch name is taken out, and the rest is treated in the same way |
| `FixVersions.LexicographicOrder` | arrow/dev/merge_arrow_pr.py:161-162 | names are ordered by the first place where they differ, and a name comes before those it begins |
| `FixVersions.NoPatchSuggested` | arrow/dev/merge_arrow_pr.py:155-180 | 0.11.1 is not suggested while 0.12.0 is there, although its name is less |
| `FixVersions.SuggestsPlain` | arrow/dev/merge_arrow_pr.py:155-180 | of one patch release and one other unreleased mainline version the other is suggested for master, whichever name is less |
| `FixVersions.PatchReleaseWitness` | arrow/dev/merge_arrow_pr.py:172-178 | the single unreleased version 1.0.1 is such a case |
| `FixVersions.MergeFixVersions` | arrow/dev/merge_arrow_pr.py:205-212 | appends, in order, the current point releases that were not requested; fails if and only if a current name has not three fields |
| `FixVersions.CarriedNames` | arrow/dev/merge_arrow_pr.py:209-212 | the appended names are exactly those of current point releases that were not requested, without repetition if the current names have none |
| `FixVersions.ResolvedVersions` | arrow/dev/merge_arrow_pr.py:205-216 | the issue ends up with exactly the requested versions and all current point releases, each once if no name came twice |
| `FixVersions.ResolvedReleases` | arrow/dev/merge_arrow_pr.py:205-216 | a current version of three numbers that was not requested stays if and only if its third number is not zero |
| `BufferSlices.Buffer.Slice` | arrow/c_glib/arrow-glib/buffer.cpp:649-658 | a slice is a view of the same memory inside its parent |
| `BufferSlices.Buffer.SetData` | arrow/c_glib/arrow-glib/buffer.cpp:520-544 | an accepted write changes exactly its byte range of the root memory, a rejected one nothing; it is accepted if and only if it ends inside the buffer, also for a negative offset |
| `BufferSlices.AcceptedStaysInside` | arrow/c_glib/arrow-glib/buffer.cpp:529-529 | an accepted write stays inside the buffer if and only if its offset is not negative or it is empty |
| `BufferSlices.SliceAll` | arrow/c_glib/arrow-glib/buffer.cpp:491-503 | any chain of slices equals one slice at the sum of the offsets |
| `BufferSlices.WriteSeenBy` | arrow/c_glib/arrow-glib/buffer.cpp:491-544 | for any two chains of slices from one root, a write through the end of the first is seen through the end of the second exactly on the overlap, byte for byte, a rejected one not at all, and the memory outside the root buffer is unchanged |
| `BufferSlices.WriteIntoParent` | arrow/c_glib/arrow-glib/buffer.cpp:520-544 | a write through a slice shows in the contents of its parent at the shifted place and in its own; the memory around the slice is unchanged |
| `BufferSlices.WriteInBothOrders` | arrow/c_glib/arrow-glib/buffer.cpp:491-544 | the same two writes through chains of slices, made in one order on one memory and in the other on an equal one, leave equal memories if and only if one was rejected or they agree on their overlap |
| `StructFields.FieldIndexIsRight` | arrow/c_glib/arrow-glib/composite-array.cpp:729-744 | for lengths below 2^31 every gint index, computed with unsigned wrap-around and conversion back, selects field i, field i + length, or NULL, as it should |
| `StructFields.IndexedMeans` | arrow/c_glib/arrow-glib/composite-array.cpp:729-744 | an index means field j if and only if it is j or j minus the number of fields |
| `StructFields.FieldIndexBound` | arrow/c_glib/arrow-glib/composite-array.cpp:729-744 | the bound is exact: all indices are right if and only if the length is below 2^31, and from there on every index gives NULL |
| `StructFields.CompositeArray.New` | arrow/c_glib/arrow-glib/composite-array.cpp:692-698 | the constructors' cache holds the given fields in order, each with one more reference |
| `StructFields.CompositeArray.FillCache` | arrow/c_glib/arrow-glib/composite-array.cpp:702-718 | a missing cache is filled with new wrappers in field order; an existing one is left alone; counts equal references held plus cached |
| `StructFields.CompositeArray.WrapEach` | arrow/c_glib/arrow-glib/composite-array.cpp:710-715 | wraps the fields of the underlying array in order, with one reference each |
| `StructFields.CompositeArray.GetField` | arrow/c_glib/arrow-glib/composite-array.cpp:727-744 | returns the cached field that the index means, with a new reference for the caller, or NULL and no new reference |
| `StructFields.CompositeArray.GetFields` | arrow/c_glib/arrow-glib/composite-array.cpp:753-764 | returns the cached fields in order, with one new reference to each |
| `StructFields.CompositeArray.RefAndReverse` | arrow/c_glib/arrow-glib/composite-array.cpp:758-763 | prepending and reversing keeps the order, and takes one reference for each occurrence |
| `StructFields.CompositeArray.Dispose` | arrow/c_glib/arrow-glib/composite-array.cpp:623-634 | gives back exactly the references of the cache, frees what nobody else holds, and may be repeated |
| `StructFields.CompositeArray.GiveBack` | arrow/c_glib/arrow-glib/composite-array.cpp:741-743 | a caller's unref keeps the counts and frees the wrapper with the last reference |
| `PlasmaBench.BitsDenote` | bench_local.cc:94-98 | an identifier read as a binary number gives its index modulo 2^width |
| `PlasmaBench.DenotedBits` | bench_local.cc:94-98 | every string of binary digits is the identifier of the number it denotes |
| `PlasmaBench.SameId` | bench_local.cc:94-98 | two indices share an identifier if and only if they agree modulo 2^width |
| `PlasmaBench.IdsDistinct` | bench_local.cc:94-98 | the identifiers of n objects are distinct if and only if n is at most 2^20 |
| `PlasmaBench.MakeIds` | bench_local.cc:94-98 | the loop fills the array with the identifiers in order |
| `PlasmaBench.Store.CreateAll` | bench_local.cc:26-29 | the Create loop ends if and only if the identifiers are distinct and new, and otherwise stops before any write |
| `PlasmaBench.Store.CreateObjects` | bench_local.cc:15-49 | afterwards each object is sealed, released and holds its slice of the random bytes; other objects are unchanged; the calls are the four phases in order |
| `PlasmaBench.Store.GetObjects` | bench_local.cc:51-81 | the result buffer, cut into objects, is the stored objects in order; every reference taken is released |
| `PlasmaBench.FillRandom` | bench_local.cc:17-22 | the nested loops write every cell i*size+j, in the order of the buffer |
| `PlasmaBench.Gather` | bench_local.cc:62-69 | copying object i to i*size fills the buffer with the objects, none overwriting another |
| `PlasmaBench.BlocksDetermine` | bench_local.cc:17-22 | cells i*size+j cover the buffer: two buffers are equal if and only if their objects are |
| `PlasmaBench.LifeOf` | bench_local.cc:15-81 | the phases, seen by one object, are Create, Write, Seal, Release, Get, Release |
| `PlasmaBench.EveryObjectLives` | bench_local.cc:94-101 | in a complete run this is the life of every identifier used, and no other identifier occurs |
| `PlasmaBench.Run` | bench_local.cc:94-101 | the run completes if and only if n is at most 2^20 and no identifier existed before, and then the result equals the random bytes; a run that does not complete has only made Create calls |

## Left out

- Arrow and Plasma internals: builders, buffers and the store are small contracts. An Arrow builder appends a whole call or nothing and may refuse any call; a store refuses Create only for an identifier that exists.
- The layout of a map builder (a struct of key and item below its list) is taken from arrow/cpp/src/arrow/array/builder_nested.cc:36-67; failure of MakeBuilder is not modelled.
- Calls of garrow_array_builder_release_ownership by clients: a client that calls it takes over the duty to delete.
- BulkAppend.AppendFixed: takes pointer and length of the flags to agree on whether there are any, and every present value to have at least byte_width bytes, since the source reads that many without a check; byte_width is an int32_t.
- BulkAppend.AppendFixed: decimal values are taken as their byte_width bytes; the conversion ToBytes is not modelled.
- BulkAppend.AppendBooleans: the values array lies on the C stack; its overflow for long inputs is not modelled.
- Null bulk appends, map append_values and dictionary append_indices: what they add to chunking depends on Arrow itself.
- PathParts.SplitPath: relative paths only; `PathParts.AbsoluteNeverEnds` says why.
- DetectChanges.GetAffectedTopics: Python's stack is a number of frames; the failure when it runs out is an outcome of the model.
- Shell and environment output of detect-changes.py, and the CI variables it reads.
- MergeAuthors.CreditLines: the order that sorted() gives equal counts is left open, as any ranking; the prompt is a list of answers.
- FixVersions.SuggestFor: the sorted list is any list with the contract of sorted(); \d is taken as an ASCII digit.
- Git, GitHub and JIRA calls of the merge tool, title and body handling, and its configuration.
- BufferSlices.Buffer.Slice: slices in range, with offsets and sizes that are not negative; Arrow does not check them either.
- BufferSlices.Buffer.SetData: the sum of offset and size does not overflow, and a write does not begin before the memory of the root, which C leaves undefined.
- Resizable buffers, which only delegate.
- Type checks of the union constructors; only their cache of fields is modelled.
- PlasmaBench.Run: its counters are unbounded, so the overflow of the source's int counters for n of 2^31 or more is not modelled; Evict, timing and printing are left out, as are bench_setup.cc and bench_remote.cc, which have the same loops.
- Allocation failure, threads, CUDA, datasets, codecs, data types and the other thin bindings.
