# Verified models of dfx-mgr

A Dafny 4.11 model of five parts of dfx-mgr, the daemon that loads accelerators into the programmable logic and
firmware into the RPUs of AMD adaptive SoCs, with proofs about them. `dafny verify dfyconfig.toml` checks everything.

The parts that change state step by step are classes and loops here as well, each proved against a function on values;
the theorems are lemmas about those functions.

**JSON tokenizer** (`include/jsmn.h`, not strict, with and without parent links). `JsmnSpec` has one turn of the loop
and the run; `JsmnTokenizer` is the tokenizer as it is written, over a token array. `JsmnBrackets` compares the two
ways to find the bracket that is closed, on any input: the backward scan accepts exactly the balanced texts that fit,
and the builds agree on every text in which no closing bracket is stray, the parent-link build accepting more only
where one is. `JsmnCapacity` has the exact dry run and restarts after NOMEM, `JsmnSpans` the nesting of spans and the
child counts, `JsmnTexts` what the text under every token is, and what every failure is due to. `JsonText` is the
grammar of RFC 8259 (sections 2 to 7) as a printer; `JsmnRoundTrip` and `JsmnReadBack` show that tokenizing what was
printed gives exactly the preorder of the value, and that the value can be read back from the tokens.

**Slots, handles and bases of the daemon** (`src/daemon_helper.c`, `src/rpu.c`). `DaemonSpec` has every load and
unload as a function on the table of bases, the two current bases, the handle table and the list IDs; `Daemon` has the
same operations as methods of a `Platform` that update its fields. `DaemonInvariant` and `DaemonRuns` prove one
invariant over every run, and `DaemonTheorems` and `DaemonListing` what follows from it; `DaemonAnswers` and
`DaemonUsers` say of each operation exactly what it answers and what it leaves current; `DaemonWitness` builds a run
in which a count goes wrong, and `DaemonLoss` runs in which a loaded slot is lost. Every hardware call is a parameter
that may go either way.

**rpmsg device list** (`src/rpu.c`, `src/rpu_helper.c`, `src/helper.h`). `RpmsgList` is the circular doubly-linked
list on the heap, with marking, appending and deletion during traversal. `RpmsgSpec` says what an update comes to on
sequences. Devices are matched by prefix, which is not always right: `RpmsgExact` proves that no list that updates
come to has a channel twice, and that an update of such a list leaves what it ought to exactly if every directory
entry is taken for what it is, and `RpmsgTheorems` that entries none of whose names is a proper prefix of another are,
with an entry that is not. `RpmsgFilter` says which entries are passed over, and that they play no part.

**DMA** (`src/dma.c`, `src/device.c`, `src/sys/linux/dma-mcdma-vfio.c`, `src/sys/linux/acapd-vfio-common.c`).
`DmaRing` has the cutting of a transfer, the descriptor words, and the engine that follows the ring; `DmaSpec` and
`Dma` the shared device with its mapping list; `DmaTheorems` the device's lifetime over every run, when device
addresses overlap, and that a transfer stays inside the memory it was let through for.

**PDI metaheader** (`src/pdi_parse.c`). `Pdi` has the decoder over a byte buffer, an encoder that it inverts on every
prefix of every encoding, the choice of the file and of the booted image.

Where the code and what is wanted of it differ, the code was followed, and the exact condition or the failing input is
a lemma:

- The two builds of the tokenizer: `JsmnBrackets.BuildsAgree`, `JsmnBrackets.BuildsDiffer`.
- RPU loads that are not counted: `DaemonTheorems.CountsExactlyWhen`, `DaemonWitness.UncountedIsReached`.
- Slots that are lost with their base: `DaemonTheorems.RpuLosesExactlyWhen`, `DaemonTheorems.LossNeedsUncounted`,
  `DaemonLoss.LossIsReached`, `DaemonListing.CancelExactlyWhen`, `DaemonLoss.CancelFails`.
- Devices whose names are prefixes: `RpmsgExact.UpdateExactlyWhen`, `RpmsgTheorems.PrefixIsMistaken`.
- Device addresses that overlap: `DmaTheorems.NoOverlapExactlyWhen`, `DmaTheorems.RisingSizesOverlap`. The second is about what
  is asked of the kernel, which may refuse the mapping; the model supposes that it takes it.
- Lengths of more than 26 bits, sizes of more than 32, and a descriptor loop that does not end:
  `DmaTheorems.TransferMeetsExactlyWhen`, `DmaTheorems.HugeIsNotMet`, `DmaRing.LoopEndsExactlyWhen`.

## Model

| member | source | states |
|---|---|---|
| `JsmnTokenizer.Tokenizer.constructor` | include/jsmn.h:459-463 | the cursor starts at 0, with no token and none superior |
| `JsmnTokenizer.Tokenizer.AllocToken` | include/jsmn.h:106-119 | takes the next token of the array, emptied but for its kind, or changes nothing when the array is full |
| `JsmnTokenizer.Tokenizer.AddLeaf` | include/jsmn.h:170-187 | a filled leaf is appended under the superior token exactly if there is room |
| `JsmnTokenizer.Tokenizer.ParsePrimitive` | include/jsmn.h:135-188 | an error code and an unmoved cursor, or one primitive token over exactly the characters up to the delimiter; no token at all in a dry run |
| `JsmnTokenizer.Tokenizer.ParseString` | include/jsmn.h:193-263 | an error code and an unmoved cursor, or one string token between the quotes, escapes checked |
| `JsmnTokenizer.Tokenizer.CloseLinked` | include/jsmn.h:314-335 | the parent walk closes the token where the chain meets an open one, or fails |
| `JsmnTokenizer.Tokenizer.CloseScanned` | include/jsmn.h:337-358 | the backward scan closes the highest open token and makes the next open one superior, or fails |
| `JsmnTokenizer.Tokenizer.CommaSuper` | include/jsmn.h:379-395 | a comma makes the enclosing container superior again, found by link or by scan |
| `JsmnTokenizer.Tokenizer.OpenToken` | include/jsmn.h:281-307 | an opening bracket appends an open container under the superior token, which counts it |
| `JsmnTokenizer.Tokenizer.AnyOpen` | include/jsmn.h:443-450 | whether any token is still open |
| `JsmnTokenizer.Tokenizer.Turn` | include/jsmn.h:275-440 | one character: the cursor, the array and the code are those of the step function |
| `JsmnTokenizer.Tokenizer.Parse` | include/jsmn.h:268-453 | the whole call: cursor, array and returned code are those of the run function, from any state an earlier call left |
| `JsmnTokenizer.Tokenizer.Count` | include/jsmn.h:268-453 | the call without an array returns what the dry run counts |
| `JsmnCapacity.ResumeRun` | include/jsmn.h:106-119 | a run that stopped for want of room, continued in a larger array, ends as the larger array would have from the start; any other run is the same in every larger array |
| `JsmnCapacity.RestartsAreOneRun` | include/jsmn.h:268-290 | any number of restarts in ever larger arrays is one run with the largest |
| `JsmnCapacity.RunNeeds` | include/jsmn.h:173-180 | an accepting run returns the number of its tokens, needs exactly that many, and gives NOMEM with fewer |
| `JsmnCapacity.DryRunIsExact` | include/jsmn.h:283-290 | the dry run returns n; every array of n tokens gives the same tokens; every smaller one NOMEM |
| `JsmnBrackets.WalkFindsLastOpen` | include/jsmn.h:318-335 | the walk along the parents stops at the highest open token |
| `JsmnBrackets.LinkedStep` | include/jsmn.h:291-303 | every turn keeps all open tokens on the chain of the last token |
| `JsmnBrackets.LinksRefineScan` | include/jsmn.h:308-359 | what the scanning build accepts, the linking build accepts with the same count, kinds and spans |
| `JsmnBrackets.ScanAcceptsBalanced` | include/jsmn.h:337-358 | the scanning build accepts exactly the texts whose brackets a stack would match and whose tokens fit |
| `JsmnBrackets.BuildsAgree` | include/jsmn.h:314-359 | no stray closing bracket: same code and spans in both builds; the scanning build accepts exactly what the linking build accepts without one |
| `JsmnBrackets.BuildsDiffer` | include/jsmn.h:328-333 | the text {}:} is accepted by the linking build and refused by the other |
| `JsmnSpans.RunIsLaminar` | include/jsmn.h:304-306 | every run keeps spans ordered, inside the text and nested or disjoint, with the open ones enclosing what follows |
| `JsmnSpans.AcceptedSpans` | include/jsmn.h:443-452 | of every accepted text: starts rise strictly, spans lie in the text, two spans are nested or disjoint, parents come first |
| `JsmnSpans.AcceptedIsClosed` | include/jsmn.h:443-450 | no token of an accepted text is left open |
| `JsmnSpans.RunCounts` | include/jsmn.h:291-303 | with parent links the size of a token is the number of tokens that have it as their parent, over every run on any text |
| `JsmnTexts.StringExactlyWhen` | include/jsmn.h:193-263 | a string ends at a quote exactly if before it every backslash begins one of eight short escapes or \u and four hex digits and no other quote stands; INVAL exactly if the first thing to stop at is no escape, PART exactly if it is the end of the text |
| `JsmnTexts.WordExactlyWhen` | include/jsmn.h:140-172 | a word ends at the first delimiter or with the text exactly if all before is printable; INVAL exactly if a character that is not comes first |
| `JsmnTexts.RunStands` | include/jsmn.h:268-453 | over every run, in both builds: strings stand between quotes with such text, words are plain and whole, containers begin and end with their brackets, and every character read is white space, punctuation or part of a string or a word |
| `JsmnTexts.AcceptedTexts` | include/jsmn.h:443-452 | so for every accepted text, read to its end |
| `JsmnTexts.RunEnds` | include/jsmn.h:254-263 | a run that fails before the end stops in front of the character to blame, and its code says what is wrong there |
| `JsmnRoundTrip.BuildsGiveSameTokens` | include/jsmn.h:300-303 | the tokens of a value in the two builds differ in their parents only |
| `JsmnRoundTrip.LiteralIsPlain` | include/jsmn.h:140-172 | every number and name of the JSON grammar is made of characters that the primitive scan passes |
| `JsmnRoundTrip.BodyStands` | include/jsmn.h:201-258 | every well-formed string body is scanned up to its closing quote |
| `JsmnRoundTrip.ValueRuns` | include/jsmn.h:268-453 | a value, wherever it stands, is turned into its preorder under the token that was superior |
| `JsmnRoundTrip.RoundTrip` | include/jsmn.h:268-453 | every JSON text with any white space gives exactly the preorder of its value: kinds, spans, child counts, parents; NOMEM exactly if they do not fit |
| `JsmnReadBack.RenderTokenizeRead` | include/jsmn.h:268-453 | the value can be read back from the text and its tokens, and the reading uses them all |
| `JsmnReadBack.SameTextSameValue` | include/jsmn.h:268-453 | no text is the rendering of two values |
| `Daemon.Platform.constructor` | src/daemon_helper.c:2220 | the table as it is made, filled with a catalogue of which nothing is loaded; no base current and every handle free, as in the zeroed platform record |
| `Daemon.Platform.GetFreeSlotHandle` | src/daemon_helper.c:164-175 | the lowest free handle is taken, or -1 and nothing changes |
| `Daemon.Platform.AllocBaseSlots` | src/daemon_helper.c:238-244 | a slot array of full size where there was none, nothing otherwise |
| `Daemon.Platform.IsBaseExternallyManaged` | src/daemon_helper.c:248-257 | true exactly if no base is current and a user Partial is entered |
| `Daemon.Platform.AssignSlot` | src/daemon_helper.c:217-230 | the slot is filled and gets the handle that is returned |
| `Daemon.Platform.FindSlotFromHandle` | src/daemon_helper.c:140-153 | the lowest slot with the handle, or -1 |
| `Daemon.Platform.FindAccel` | src/daemon_helper.c:340-351 | the last entry of that name, or -1 |
| `Daemon.Platform.LoadFlatDesign` | src/daemon_helper.c:291-339 | new state and result of a flat load, both failures included |
| `Daemon.Platform.PreparePlBase` | src/daemon_helper.c:360-414 | replaces an empty PL base, refuses an occupied one, loads and sets the wanted one |
| `Daemon.Platform.PrepareRpuBase` | src/daemon_helper.c:415-439 | the same for the RPU base, which is not loaded |
| `Daemon.Platform.ValidateRpuSlot` | src/rpu.c:388-401 | 0 exactly for an empty slot in range |
| `Daemon.Platform.AssignRpuSlot` | src/rpu.c:422-472 | the slot is filled; the count rises only if a handle was found |
| `Daemon.Platform.LoadFirstSlot` | src/daemon_helper.c:474-555 | the lowest empty slot with a directory is tried, and only that one |
| `Daemon.Platform.LoadFixedSlot` | src/daemon_helper.c:447-472 | the slot the firmware names, or an error |
| `Daemon.Platform.LoadAcceleratorCore` | src/daemon_helper.c:259-564 | new state and result of a load, for every base type and outcome |
| `Daemon.Platform.FindBaseDesign` | src/daemon_helper.c:85-105 | the first base of that name or with such an accelerator |
| `Daemon.Platform.LoadAccelerator` | src/daemon_helper.c:566-580 | load by name |
| `Daemon.Platform.UnloadAccelBase` | src/daemon_helper.c:582-611 | only an empty PL_DFX base goes, and only if it could be removed |
| `Daemon.Platform.UserUnloadByHandle` | src/daemon_helper.c:2110-2153 | the user design with the handle goes, its stamp too, unless it is a Full with Partials on it; no design with the handle, an error |
| `Daemon.Platform.UnloadAccelerator` | src/daemon_helper.c:623-713 | new state and result of an unload by handle: user designs first, then RPU, then PL |
| `Daemon.Platform.UserLoadDesign` | src/daemon_helper.c:1928-2048 | new state and result of a user load, in the order of its checks |
| `Daemon.Platform.AssignListIds` | src/daemon_helper.c:1056-1073 | every entry is stamped as the stamping function says, unused ones keep theirs |
| `Daemon.Platform.FindAccelByListId` | src/daemon_helper.c:746-781 | the first entry with the ID |
| `Daemon.Platform.LoadAcceleratorById` | src/daemon_helper.c:794-810 | load by ID |
| `Daemon.Platform.UnloadAcceleratorById` | src/daemon_helper.c:821-838 | unload by ID, 0 standing for the base |
| `Daemon.Platform.FindSlotHandleByName` | src/daemon_helper.c:715-737 | the handle of the first loaded thing of that name: RPU, user designs, PL |
| `Daemon.Platform.UnloadAcceleratorByName` | src/daemon_helper.c:849-858 | unload by name |
| `DaemonRuns.LoadCoreKeeps` | src/daemon_helper.c:259-564 | a load of anything, with any outcome, keeps the invariant |
| `DaemonRuns.UnloadKeeps` | src/daemon_helper.c:623-713 | so does an unload of any handle |
| `DaemonRuns.UserLoadKeeps` | src/daemon_helper.c:1928-2048 | so does a user load |
| `DaemonRuns.RunKeeps` | src/daemon_helper.c:259-2153 | the invariant holds in every state of every run from start-up, whatever the hardware answers |
| `DaemonTheorems.UserExclusion` | src/daemon_helper.c:360-373 | over every run: while a Partial is entered no package is current on the PL, and a current user Full counts exactly the Partials |
| `DaemonTheorems.StaysUnmanaged` | src/daemon_helper.c:283-288 | while Partials stand on a base set up outside, no operation makes anything current on the PL |
| `DaemonTheorems.NullStays` | src/daemon_helper.c:248-257 | over every run: a PL without a current base keeps none until the last Partial is unloaded |
| `DaemonTheorems.CountIsOccupancy` | src/daemon_helper.c:332-334 | a package row counts its occupied slots always on the PL, on an RPU exactly if every loaded slot has a handle; a row not current counts nothing and has nothing |
| `DaemonTheorems.LoadCountsExactlyWhen` | src/daemon_helper.c:467-470 | a load keeps all counts right exactly if it is no RPU load that is admitted while no handle is free; on an RPU that is, if a handle is free or no slot is taken |
| `DaemonTheorems.CountsExactlyWhen` | src/daemon_helper.c:467-470 | over every run: all counts are right up to a point exactly if no such load was made before it |
| `DaemonTheorems.UncountedLoad` | src/rpu.c:463-471 | such a load returns -1, takes a slot and leaves a count that is wrong |
| `DaemonWitness.UncountedIsReached` | src/rpu.c:463-471 | from every catalogue with an RPU accelerator and thirty blank rows, thirty forced Partials and one RPU load are a run that ends with a wrong count, all having been right before |
| `DaemonWitness.SampleIsRoomy` | src/daemon_helper.c:2220 | there is such a catalogue |
| `DaemonTheorems.CountsInRoomyRuns` | src/daemon_helper.c:290-339 | over every run that finds a handle free at each load, every package row counts exactly its occupied slots and everything loaded has a handle |
| `DaemonTheorems.LoadEffect` | src/daemon_helper.c:446-555 | a load either leaves all slots and handles alone or fills exactly one empty slot, the right one, with exactly the handle returned, once an RPU base with a loaded slot that it may drop has lost its slots; for a registered accelerator exactly such a drop is the exception |
| `DaemonTheorems.RpuLosesExactlyWhen` | src/daemon_helper.c:422-434 | making way for an RPU base loses loaded slots exactly if the current one counts nothing, has another path and is occupied; what is lost has no handle |
| `DaemonTheorems.LossNeedsUncounted` | src/daemon_helper.c:422-434 | no run comes to a load that drops loaded slots without an uncounted load before |
| `DaemonLoss.LossIsReached` | src/daemon_helper.c:422-434 | from every catalogue with two RPU bases and thirty blank rows, thirty forced Partials and one RPU load come to a state in which the next load of the other base's firmware, whatever the hardware answers, loses a loaded slot |
| `DaemonLoss.SampleHasTwoRpus` | src/daemon_helper.c:2220 | there is such a catalogue, and its second accelerator is admitted and listed |
| `DaemonTheorems.RpuAdmission` | src/daemon_helper.c:447-472 | an RPU accelerator takes a slot exactly if the current RPU base gives way or is its own, its slot or one with a directory is empty, and the firmware starts; whatever happens, nothing else is touched but a base that is dropped |
| `DaemonTheorems.PlAdmission` | src/daemon_helper.c:360-414 | a PL_DFX load succeeds exactly if the base is admitted, the slot can be loaded and a handle is free, in every reachable state |
| `DaemonAnswers.FlatAdmission` | src/daemon_helper.c:283-339 | a flat load is refused while forced Partials stand, returns NO_EMPTY_SLOT exactly if the PL counts something, and otherwise fills the first slot and makes the row current exactly if the hardware takes it; with a handle exactly if one is free |
| `DaemonAnswers.PlAnswers` | src/daemon_helper.c:360-555 | which code a PL_DFX load returns, when it fills a slot, and what is current then |
| `DaemonAnswers.RpuAnswers` | src/daemon_helper.c:415-472 | the same for an RPU load |
| `DaemonAnswers.UnknownIsRefused` | src/daemon_helper.c:340-358 | a name that the base does not have, or a base of another type, is refused and nothing changes |
| `DaemonAnswers.LoadByName` | src/daemon_helper.c:566-580 | a load goes to the first base that the name means; NO_PACKAGE_FOUND exactly if there is none |
| `DaemonTheorems.UnloadEffect` | src/daemon_helper.c:623-713 | unloading a handle releases its holder and that handle and nothing else, or changes nothing and fails |
| `DaemonAnswers.UnloadAnswers` | src/daemon_helper.c:623-713 | the code is 0 for a user design and that of the removal for a slot; the PL is without a base exactly if its user Full or its flat design was what went, and the RPU base stays |
| `DaemonAnswers.UnloadBaseAnswers` | src/daemon_helper.c:582-611 | the base goes, and no slot with it, exactly if it is an empty PL_DFX base that can be removed; otherwise nothing changes |
| `DaemonAnswers.UnloadByNameAnswers` | src/daemon_helper.c:715-737 | the first thing of that name, among RPU slots, user designs and PL slots in this order, is released, unless it found no handle or has Partials on it; if there is none the unload fails |
| `DaemonUsers.UserAdmission` | src/daemon_helper.c:1928-2048 | a user design is entered exactly if the platform, the PL, the arguments, the bitstream and a blank row allow it, with the code for each refusal; then the first blank row is that design, a Full is current, and a Partial is counted by the Full it is on |
| `DaemonUsers.FullThenPartial` | src/daemon_helper.c:1970-1976 | a Full on a bare PL and then a Partial without force both load |
| `DaemonUsers.FlatStaysLoaded` | src/daemon_helper.c:704-708 | over every run a flat design is current only while it is loaded |
| `DaemonTheorems.HandleConservation` | src/daemon_helper.c:164-175 | over every run a handle is marked used exactly if something holds it, and no two things hold the same |
| `DaemonListing.ListIdsBijection` | src/daemon_helper.c:746-781 | after assignment, looking up 1 to n gives the entries in listing order and any other number nothing, whatever stale IDs there were |
| `DaemonListing.StampsArePlaces` | src/daemon_helper.c:1056-1073 | every listed entry is stamped with its place |
| `DaemonListing.ListedExactlyWhen` | src/daemon_helper.c:1056-1073 | an accelerator has an ID exactly if it has a directory and its package has slots on the PL |
| `DaemonListing.ByIdAnswers` | src/daemon_helper.c:794-838 | an ID of an accelerator loads it; one of a user design is refused for a load and unloads that design; any other number is no package |
| `DaemonListing.LoadsAndUnloadsCancel` | src/daemon_helper.c:794-838 | k loads by an ID and k unloads by it give back every slot, count and handle, always for a PL accelerator, and for an RPU one whose load drops no base with a loaded slot |
| `DaemonListing.CancelExactlyWhen` | src/daemon_helper.c:794-838 | they give back every slot exactly if the first load drops no RPU base with a loaded slot |
| `DaemonLoss.CancelFails` | src/daemon_helper.c:794-838 | with one Partial unloaded then, a load by ID of the other firmware succeeds, and the unload by that ID does not give back every slot |
| `RpmsgNames.GetVirtioNumber` | src/rpu.c:193-213 | the last number of the part before the first dot |
| `RpmsgNames.NameRoundTrip` | src/rpu.c:193-213 | from virtio<n>.<channel> the number and the channel come back |
| `RpmsgList.List.constructor` | src/helper.h:32-35 | an empty circle |
| `RpmsgList.List.AddTail` | src/helper.h:37-61 | the node is last in a well-formed circle |
| `RpmsgList.List.Delete` | src/helper.h:68-73 | the circle without the node, which is linked to itself |
| `RpmsgList.IsRelevant` | src/rpu.c:340-348 | which entries the scan passes over |
| `RpmsgFilter.NumberIsExactly` | src/rpu.c:193-213 | the number found is what the last digits of the part before the first dot say, clamped to a long and cut to an int; 0 without digits |
| `RpmsgFilter.RelevantExactlyWhen` | src/rpu.c:340-348 | an entry is looked at exactly if it is neither . nor .., rpmsg_ns and rpmsg_ctrl stand nowhere in its name, and its number is that of the RPU |
| `RpmsgFilter.PassedOverIsIgnored` | src/rpu.c:340-348 | an entry that is passed over makes no difference to an update, wherever it is listed |
| `RpmsgFilter.PassedOverEmpties` | src/rpu.c:340-375 | a directory of such entries alone empties the list |
| `RpmsgFilter.OthersAreTaken` | src/rpu.c:363-370 | any other entry that can be set up becomes a device of an empty list |
| `RpmsgList.List.ResetActive` | src/rpu_helper.c:322-336 | no node is marked, nothing else changes |
| `RpmsgList.List.CheckActive` | src/rpu_helper.c:352-380 | the first device that the name is a prefix of is marked, and only it |
| `RpmsgList.List.Traverse` | src/helper.h:79-84 | the safe traversal comes to every original node once, in order, and never to a deleted one |
| `RpmsgList.List.DeleteInactive` | src/rpu_helper.c:393-410 | exactly the marked nodes stay, in order |
| `RpmsgList.List.AppendDevice` | src/rpu_helper.c:269-310 | a marked node for the channel at the end of the circle |
| `RpmsgList.List.ScanDirectory` | src/rpu.c:344-371 | the records go through the lists of the scan function, entry by entry; new nodes are behind the old |
| `RpmsgList.List.Update` | src/rpu.c:318-378 | nodes and records after an update: those marked of the old and the added ones; nothing if the directory cannot be opened |
| `RpmsgList.List.DeleteAll` | src/rpu.c:284-298 | every node is visited once and the circle is empty |
| `RpmsgSpec.ScanShape` | src/rpu.c:344-371 | for any list and directory, a scan marks the recorded devices that entries are taken for and appends one node for each entry that is taken for none and can be set up |
| `RpmsgSpec.UpdateIs` | src/rpu.c:318-378 | if every entry is taken for what it is, what is left is the recorded devices still there, in order with their endpoints, then the new ones that could be set up |
| `RpmsgSpec.PlainIsRight` | src/rpu_helper.c:372-377 | every entry is, if no name is a proper prefix of another |
| `RpmsgExact.DueIsRight` | src/rpu_helper.c:372-377 | an update that left what it ought to took every entry for what it is |
| `RpmsgExact.UpdateExactlyWhen` | src/rpu_helper.c:372-377 | for any list without a channel recorded twice and any directory of different names, this RPU's being virtio<n>.<channel>, whatever can be set up, an update leaves what it ought to exactly if every entry is taken for what it is |
| `RpmsgSpec.UpdatesDiffer` | src/rpu.c:340-371 | no sequence of updates of a list that was empty records a channel twice, whatever entries are taken for |
| `RpmsgExact.ReachedExactlyWhen` | src/rpu_helper.c:372-377 | so after any such sequence the next update leaves what it ought to exactly if every entry is taken for what it is |
| `RpmsgSpec.UpdatedIsCurrent` | src/rpu.c:318-378 | after an update an entry is recorded exactly if it was or could be set up, and every record is marked and of an entry |
| `RpmsgSpec.StaysRight` | src/rpu_helper.c:372-377 | entries taken for what they are in one update are so in the next |
| `RpmsgSpec.UpdateTwice` | src/rpu.c:340-375 | a second update of an unchanged directory whose entries are taken for what they are changes nothing |
| `RpmsgTheorems.CanonicalIsPlain` | src/rpu_helper.c:363-379 | names printed as virtio<n>.<channel> are rebuilt from what the nodes store |
| `RpmsgTheorems.UpdateOfDirectory` | src/rpu.c:318-378 | the result of an update on a directory of such names |
| `RpmsgTheorems.SecondUpdate` | src/rpu.c:340-375 | a second update leaves every node where it is |
| `RpmsgTheorems.PrefixIsMistaken` | src/rpu_helper.c:372-377 | an entry virtio<n>.<channel> that passes the tests of the scan and whose name is a proper prefix of a recorded one gets no node, and the old node stays |
| `DmaRing.SplitCovers` | src/sys/linux/dma-mcdma-vfio.c:122-153 | the pieces follow each other without a gap, add up to the size, are not empty, at most max long and ceil(size/max) in number |
| `DmaRing.LoopEndsExactlyWhen` | src/sys/linux/dma-mcdma-vfio.c:122-130 | the loop is through after so many turns exactly if there is nothing to describe or ceil(size/max) is no more; with a maximum of 0 it never is |
| `DmaRing.WriteDescriptor` | src/sys/linux/dma-mcdma-vfio.c:132-147 | exactly six words of a descriptor are written (five on a reading channel), the rest of the page stays |
| `DmaRing.Program` | src/sys/linux/dma-mcdma-vfio.c:117-153 | the page holds the ring of the pieces and otherwise what it held; the tail is the last descriptor |
| `DmaRing.DescriptorReadsBack` | src/sys/linux/dma-mcdma-vfio.c:133-142 | a written descriptor reads back as meant exactly if its pointer is aligned, its addresses have 64 bits and its length 26 |
| `DmaRing.RestIsKept` | src/sys/linux/dma-mcdma-vfio.c:144-147 | the transfer id stands in the top byte of its word on a writing channel; what the descriptors do not use is as it was |
| `DmaRing.EngineSeesPieces` | src/sys/linux/dma-mcdma-vfio.c:132-142 | following the next pointers from the first descriptor to the last meets the pieces in order, with the low 26 bits of their lengths, and ends at a descriptor that points to itself |
| `DmaRing.EngineSeesBuffer` | src/sys/linux/dma-mcdma-vfio.c:141-142 | so it meets all the pieces of the buffer, and with their own lengths exactly if a piece fits 26 bits |
| `Dma.VfioDevice.Open` | src/sys/linux/acapd-vfio-common.c:48-158 | a closed device opens with nothing mapped, or stays closed with -ENOMEM or -EINVAL; an open one is left alone |
| `Dma.VfioDevice.Close` | src/sys/linux/acapd-vfio-common.c:160-196 | every mapping is handed back once, in order, and none is left |
| `Dma.VfioDevice.Get` | src/device.c:107-122 | a reference is taken, the first of which opens the device |
| `Dma.VfioDevice.Put` | src/device.c:124-142 | a reference is given back, the last of which closes it |
| `Dma.VfioDevice.Attach` | src/sys/linux/acapd-vfio-common.c:198-258 | a page-wise mapping at the address one pass over the list chooses is appended, or nothing changes |
| `Dma.VfioDevice.Detach` | src/sys/linux/acapd-vfio-common.c:260-299 | the first mapping at the address goes, whatever the kernel answers |
| `Dma.VfioDevice.Translate` | src/sys/linux/acapd-vfio-common.c:301-328 | the address in the first mapping that covers it; -1 if there is none; another number on a closed device |
| `Dma.Channel.Open` | src/dma.c:148-171 | a channel opens once, taking one reference, or stays closed |
| `Dma.Channel.Close` | src/dma.c:173-187 | an open channel gives its reference back once |
| `Dma.Channel.Transfer` | src/sys/linux/dma-mcdma-vfio.c:59-217 | refused with nothing written, or ring, registers and returned size; the descriptor page stays mapped |
| `DmaTheorems.PerformKeeps` | src/device.c:107-142 | every operation on a shared device keeps its invariant; opening a closed channel fails, changing nothing, exactly if it is the first and the device does not open |
| `DmaTheorems.RunKeeps` | src/dma.c:148-187 | over any interleaving: refs is the number of open channels, the device is open exactly if there are any, a closed one maps nothing, and mappings are on page boundaries |
| `DmaTheorems.CloseEndsLifetime` | src/device.c:124-142 | closing the last open channel closes the device with nothing mapped; closing another leaves the mappings |
| `DmaTheorems.NoOverlapExactlyWhen` | src/sys/linux/acapd-vfio-common.c:226-239 | memories attached one after the other, none empty and none refused, overlap nowhere exactly if the ones before each of them group evenly by its size |
| `DmaTheorems.FallingSizesAreDisjoint` | src/sys/linux/acapd-vfio-common.c:226-239 | memories attached in order of falling size never overlap |
| `DmaTheorems.RisingSizesOverlap` | src/sys/linux/acapd-vfio-common.c:226-239 | one page and then two are asked to be mapped at the same device address |
| `DmaTheorems.AttachTranslates` | src/sys/linux/acapd-vfio-common.c:198-258 | mapping a memory that overlaps none makes its addresses known, from a page boundary on, and leaves the translation of all others |
| `DmaTheorems.DetachTakesOne` | src/sys/linux/acapd-vfio-common.c:260-299 | exactly the first mapping at the address goes and the others stay in order, whatever the kernel answers; with none, -EINVAL |
| `DmaTheorems.DetachTranslates` | src/sys/linux/acapd-vfio-common.c:301-328 | after that exactly its addresses are unknown |
| `DmaTheorems.AttachThenDetach` | src/sys/linux/acapd-vfio-common.c:198-299 | mapping a memory and unmapping it gives the device back |
| `DmaTheorems.TransferIsPlaced` | src/dma.c:69-78 | what an accepted transfer gives the engine starts as far into the memory's own mapping as the buffer is into the memory and ends in it; the ring is aligned |
| `DmaTheorems.RegistersPoint` | src/sys/linux/dma-mcdma-vfio.c:171-186 | CURDESC and TAILDESC hold the addresses of the first and of the last descriptor |
| `DmaTheorems.TransferStaysInWindow` | src/sys/linux/dma-mcdma-vfio.c:84-153 | sent from CURDESC to TAILDESC, the engine meets pieces that together are the low 32 bits of the size from the start of the buffer on, each with the low 26 bits of its length, none of it outside the memory's own mapping |
| `DmaTheorems.TransferMeetsExactlyWhen` | src/sys/linux/dma-mcdma-vfio.c:81-142 | it meets the buffer that was asked for exactly if that is not empty, shorter than 2^32 bytes, and its first piece shorter than 2^26 |
| `DmaTheorems.WholeIsAccepted` | src/dma.c:69-78 | with a channel opened and one memory attached, a transfer of all of it is accepted, whatever its size, where device addresses suffice |
| `DmaTheorems.HugeIsNotMet` | src/sys/linux/dma-mcdma-vfio.c:81-82 | so one of 2^32 bytes or more is accepted, and the engine does not meet it |
| `Pdi.ReadU32` | src/pdi_parse.c:26-29 | the little-endian word |
| `Pdi.WordRoundTrip` | src/pdi_parse.c:26-29 | reading what was written gives the word |
| `Pdi.ReadHeaders` | src/pdi_parse.c:54-69 | as many images as are claimed or as have a complete header, no byte beyond the length looked at |
| `Pdi.FindPl` | src/pdi_parse.c:78-85 | the first programmable-logic image, or image 0 |
| `Pdi.ParseMetaBuffer` | src/pdi_parse.c:31-90 | 0 exactly if the bytes decode, and then the decoded metaheader; it depends on the first len bytes alone |
| `Pdi.DecodeFailsExactlyWhen` | src/pdi_parse.c:35-72 | decoding fails exactly on a buffer too short for one image, a negative count or none; otherwise the smallest of the three bounds is the number of images |
| `Pdi.DecodeInvertsEncode` | src/pdi_parse.c:31-90 | every prefix of every encoding decodes to the images whose headers are whole, at most 32, with the ids of the first image of class 0x187, or of image 0 if there is none |
| `Pdi.DecodedBytes` | src/pdi_parse.c:54-69 | the ids of image i are the little-endian words at 0x20, 0x24 and 0x28 of header i, and there are no more images than are claimed |
| `Pdi.PickFile` | src/pdi_parse.c:137-144 | the smallest PDI name of a directory, if there is one |
| `Pdi.PickIsStable` | src/pdi_parse.c:136-144 | the order of the directory makes no difference |
| `Pdi.IsPdiExactlyWhen` | src/pdi_parse.c:92-102 | the files that are looked at are named something.pdi or something.PDI |
| `Pdi.AtMostExactlyWhen` | src/pdi_parse.c:136-144 | the order of the names is that of strcmp: by the first letter that differs, a beginning first |
| `Pdi.FilterBootUid` | src/pdi_parse.c:158-182 | the id of the first root programmable-logic entry, 0 if there is none |
| `Pdi.BootUidIs` | src/pdi_parse.c:172-182 | it is the id of the first entry of class 0x187 with an id and no parent; 0 if there is none |
| `Pdi.ChildrenAreIgnored` | src/pdi_parse.c:172-179 | entries with a parent change nothing, wherever they are listed |

## Left out

General:

- Hardware and system calls (libdfx, remoteproc, sysfs, configfs, `ioctl`, `mmap`, the directory walks): only their outcomes, as parameters that may go either way.
- Sockets, the `select` loop, argument parsing, printing, EEPROM reading and the field extraction from JSON tokens: plumbing around the parts modelled.
- The bare-metal and generic device variants, the AXI DMA driver and the examples: near duplicates.
- Running out of memory, except where the source checks for it.

JSON tokenizer:

- The strict build; characters are taken for bytes, and positions and sizes are not limited to the width of an `int`, so texts are shorter than 2^31 bytes.
- The call with a null token array is the separate method `Count`.

Daemon:

- The catalogue is fixed: package directories that come and go, rescans and the inotify thread are not modelled, and base types are one of the four known strings or another.
- AIE slots, which no load can reach, and the region names and files of user designs.
- List IDs are kept in a table beside the bases.
- Daemon.Platform.UserUnloadByHandle: not for -1 when a user design found no handle, which would clear a flag outside the handle table; its only caller takes -1 for the base and never passes it on.
- `use_user_load_path` appears as the outcome of the calls it replaces; the result of removing a base before another is loaded is not looked at, as in the source.
- DaemonListing.LoadsAndUnloadsCancel: every one of the loads has to succeed; `DaemonTheorems.PlAdmission` and `DaemonTheorems.RpuAdmission` say when one does.

rpmsg list:

- Setting up endpoints is an outcome; channel names are not cut to the size of their buffer.
- RpmsgList.List.Update: an entry that gets a node has to have a dot in its name, since the source reads behind it without looking.
- RpmsgExact.UpdateExactlyWhen: entries of this RPU are named virtio<n>.<channel>, as the kernel names them, since what an update ought to leave is said by name; the same goes for `RpmsgSpec.UpdateIs` and what follows from it.
- RpmsgSpec.UpdateTwice: for a second update in which setting up an endpoint comes to what it came to in the first.

DMA:

- `shm->refs` and `refcount`, and the list node of a device that is shared by them: a memory is attached through the mapping list only.
- The registers of the engine other than the current and the tail descriptor, the poll and the reset; every channel has its own two.
- Null pointers and channels without operations.
- Sums of addresses are not wrapped around: in C a pointer sum past the end of its object is undefined, and the kernel maps no range that ends past the 64-bit space.
- What the kernel refuses to map, but for a range that ends past the 64-bit space: mapping is an outcome, also for a range that overlaps another.
- Dma.Channel.Transfer: the loop has to end within the descriptor page, which the source leaves to its caller; `DmaRing.LoopEndsExactlyWhen` says when it does.
- DmaTheorems.TransferStaysInWindow: and `DmaTheorems.TransferMeetsExactlyWhen`, for mapped memories that do not overlap in virtual addresses, the descriptor page being one of them.

PDI:

- Reading the metaheader from the firmware and joining the path of the file.
