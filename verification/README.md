# A model of the fwupd-efi update protocol

`fwupdate.efi` runs before the operating system. It finds the firmware updates that were scheduled in UEFI
variables, loads their capsules from disk, marks the variables as attempted, hands the capsules to firmware with
`UpdateCapsule` and resets the machine. This project models that program in Dafny and proves what one boot does,
and what every sequence of boots keeps.

`dafny verify dfyconfig.toml` checks the whole project.

## How the model is laid out

| file | what it models |
|---|---|
| Efi.dfy | statuses and their numbers, bytes, little-endian words, the bitwise or of two words |
| DevicePath.dfy | device paths: the grammar of nodes (sections 10.3.1 and 10.3.5.4 of the UEFI Specification 2.10) and `fwup_dp_size` |
| FileSearch.dfy | `fwup_search_file` and `fwup_open_file` |
| PageMemory.dfy | the page allocator of boot services, `fwup_malloc_raw` and `fwup_free_raw` |
| FileReader.dfy | `fwup_read_file` over a file that is read as section 13.5 prescribes |
| Capsule.dfy | the UX payload patch and `fwup_add_update_capsule` |
| Descriptors.dfy | block descriptors as the words of a block of memory (section 8.5.3) |
| CapsuleList.dfy | the block descriptor list and firmware's walk over it |
| Runtime.dfy | runtime services over the variable store (section 8), and `fwup_get_variable` |
| DebugLog.dfy | the re-entrant debug log and `fwup_delete_variable` |
| UpdateInfo.dfy | parsing and marking one update variable |
| Layout.dfy | the packed structures written down field by field, and what the rest of the model reads from them |
| UpdateTable.dfy | the enumeration loop `fwup_populate_update_table` |
| Boot.dfy | the write-back, `fwup_apply_capsules` and `efi_main` |
| Runs.dfy | one run: what it keeps, its trace of firmware calls, cutting it off, which capsules it builds |
| History.dfy | sequences of runs, cut off anywhere, and changes from outside |
| Backlog.dfy | how boots work off a backlog of pending updates, and that each of them is delivered once |
| Examples.dfy | concrete inputs on which a naive claim fails |

The C functions are methods that change arrays, fields of `UpdateEntry` and the state of firmware. Each one is
proved against a specification on values. `Boot.EfiMain` is proved to be a step of the relation `Boot.RunOf`, which
relates the store before, how the run ended, the store after and the firmware calls that were made. Runs.dfy,
History.dfy and Backlog.dfy prove their results about that relation, so they hold of the method. The predicates that
these results use are written out once more in numbers, bytes and names, apart from the code that computes them:
which variables count (`UpdateTable.VariableCases`), which parse (`Layout.WellFormedIff`), which names are opened
(`FileSearch.OpenCases`), which files make capsules (`Capsule.FinishedCases`), where bytes lie (`Efi.LittleEndian64`,
Layout.dfy), and which status comes back (`Boot.EfiMain`, `Boot.ErrorReturned`). A machine that
loses power is a run of which only the first calls were made; the store it leaves is the replay of those calls. A
machine that is reset inside `UpdateCapsule` is a run without a status and without a call of `ResetSystem`.

Firmware is not trusted to answer in any particular way. Its answers (refused allocations, refused writes, device
errors, the clock, the disk, the path match, the reset type, the result of `UpdateCapsule`) are arbitrary functions.
The model assumes that firmware conforms to the specification in these points: keys are unique, no stored variable
is empty, stored attributes grant access and have no APPEND_WRITE bit, a Read is short only at the end of the file,
`LocateDevicePath` stops at a node of the path it was given, device paths owned by firmware are valid, pages handed
out are unused, lie inside the address space and do not begin at address 0; `Runtime.ValidStoreGrows` and
`PageMemory.Pages.AnswersIff` say that nothing more is assumed of a store and of pages. A name is a string of UTF-16 units. A
variable that `SetVariable` replaces keeps its place in the enumeration, and a write is made as a whole or not at all;
the draining result lets firmware reorder the store between boots.

## Main results

- An update is handed to `UpdateCapsule` at most as often as something outside the program armed it, over every
  history of boots, each of them cut off after any of its firmware calls, and outside changes
  (`History.AtMostOncePerArming`, and in terms of sets of steps `History.HandedAtMostAsArmed`).
- When nothing fails, how a boot ends is decided by the store and the platform (`Runs.QuietVerdict`), and so are the
  capsules it hands over (`Runs.SamePayload`). Whether a capsule can be built for an update can be told from the
  update as it is stored (`Runs.BuildsIff`), because marking it makes no difference (`UpdateInfo.MarkedKeepsOutcome`).
- Wherever a run is cut off, it has marked exactly the selected updates it had stored by then. If no allocation failed
  it has handed over exactly those that can be built if it got as far as `UpdateCapsule`, and else none
  (`History.MarkedAndSent`). In a boot in which nothing fails, a selected update is handed over exactly if it can be
  built (`History.QuietSent`).
- A boot leaves pending exactly the updates after the first 128, in order, if it selects one that can be built, and
  else it changes nothing (`Backlog.QuietDrains`). If something can be built each time, boots work off any backlog
  (`Backlog.Drains`, `Backlog.BacklogClears`), and each update in it is selected by exactly one boot and handed over
  exactly once if it can be built there (`Backlog.EachDelivered`).
- `UpdateCapsule` comes at most once in a run, with 1 to 128 capsules, when every selected update is stored as
  attempted, and `ResetSystem` comes exactly when it came back (`Runs.TraceSafety`, `Runs.HandsOverOnce`).
- What firmware reads by walking the descriptor list in memory is exactly the sequence of accepted capsules, in table
  order, and header pointer k points at capsule k (`Boot.ApplyCapsules`, `Boot.EfiMain`).
- The device-path check accepts exactly the sentences of the node grammar, and its verdict makes every later walk
  stay in bounds (`DevicePath.ValidIffSentence`, `DevicePath.DpSize`, `FileSearch.OpenFile`).
- The doubling reader returns exactly the file, copies less than twice its length, and pairs every free with its
  allocation (`FileReader.ReadFile`).
- After the log lines of a run the log variable is their concatenation and nothing older (`DebugLog.LogLines`).

## Where the code differs from what one might expect

The model follows the code.

- SECURITY.md says that any error while building the capsules aborts (line 42). The code skips the failing capsule
  (efi/fwupdate.c:628-633).
- SECURITY.md says that the checksum of a UX capsule is verified (lines 40-41). The code overwrites it.
- SECURITY.md says that an error of `UpdateCapsule` aborts (line 53). The code resets all the same.
- The call that should delete a malformed variable never deletes one that has data, so such a variable stops every
  boot until something outside removes it (`History.MalformedBlocks`, `Examples.MalformedIsKept`). A boot without
  device or memory fault is stopped so exactly when a malformed variable precedes the 128th pending one
  (`Boot.EfiMain`, `Runs.QuietVerdict`).
- The enumeration asks for the same name again when the name does not fit the buffer. Without faults it ends exactly
  when no such name comes before the first malformed variable that stops it (`UpdateTable.HaltsIff`,
  `Examples.LongNameTraps`); on any other store only a fault ends it. `Boot.EfiMain` requires one of the two, spelled out in
  `UpdateTable.EndsIff`.
- "Marked attempted" does not mean "handed over". An update whose capsule could not be built is marked together with
  the others (`Examples.MarkedButNotSent`), and an update that can be built is marked and not handed over when a later
  write is refused (`Examples.MarkedThenInterrupted`) or power is lost. `History.MarkedAndSent` has the exact
  condition. An update can be built exactly when its device path opens a file that reads without error, holds a
  capsule header with a sane image size, and, for a UX capsule, has a header that can be patched (`Runs.BuildsIff`).
- When the buffer of the reader cannot be regrown, the old one stays allocated (`Examples.RegrowLeaks`). That takes a
  file of at least 4 MiB (`FileReader.ReadFile`).
- The debug log collects lines only if the log variable is absent or has the log's own attributes; otherwise nothing
  is stored (`DebugLog.Logger.Log`). If the first write of a run is refused, what was in the log stays in front; a line
  that cannot be formatted for want of memory is dropped (`DebugLog.LogLines`).

## Model

| member | source | states |
|---|---|---|
| DevicePath.ValidIffSentence | efi/fwupdate.c:49-67 | a byte range is a valid path if and only if it is the encoding of a list of correctly sized nodes of which exactly the last is an end node |
| DevicePath.DecodeEncodes | efi/efi-mock.h:144-150 | decoding a valid path into nodes and encoding them again gives back its bytes |
| DevicePath.EncodeDecodes | efi/efi-mock.h:144-150 | the encoding of every sentence is a valid path wherever it stands, and decodes to that sentence |
| DevicePath.PathUnique | efi/fwupdate.c:49-67 | no valid path is a proper prefix of another |
| DevicePath.PathLocal | efi/fwupdate.c:49-67 | validity depends on the bytes of the path alone |
| DevicePath.PathSizeStable | efi/fwupdate.c:49-67 | the size is the same under every limit that admits the path, and -1 under every smaller one |
| DevicePath.PathSizeLocal | efi/fwupdate.c:53-58 | bytes at or beyond the limit do not change the result |
| DevicePath.WalkFindsPath | efi/fwupdate.c:53-66 | walking node by node finds the valid path within the limit if there is one, else -1 |
| DevicePath.DpSize | efi/fwupdate.c:49-67 | the loop returns the size of the only valid path within the limit, or -1 if there is none, reading only below the limit |
| DevicePath.NodeInPath | efi/fwupdate.c:216-226 | each node of a validated path lies inside it, exactly the last one is an end node, and stepping over one reaches the next |
| DevicePath.SuffixValid | efi/fwupdate.c:275-289 | every suffix of a valid path that begins at a node is a valid path |
| DevicePath.TruncatedIsValid | efi/fwupdate.c:228 | overwriting a node of a valid path with an end node leaves a valid path |
| DevicePath.NodeNumbers | efi/efi-mock.h:134-150 | which type, subtype and length bytes make an end node and a file node; the top bit of the type byte is ignored |
| DevicePath.EndPath | efi/efi-mock.h:144-150 | four bytes that end a path do so with type byte 0x7f or 0xff and with no other |
| FileSearch.PreparedIsValid | efi/fwupdate.c:210-228 | the truncated copy is a valid path, four bytes longer than the offset of the cut |
| FileSearch.FirstFile | efi/fwupdate.c:216-226 | the index found is that of the first file node, and none is found exactly when there is no file node |
| FileSearch.DuplicatePath | efi/fwupdate.c:210-212 | the copy is a new buffer with exactly the bytes of the path, or there is none if the allocation fails |
| FileSearch.FindFileNode | efi/fwupdate.c:214-226 | the walk ends at the first file node and counts the nodes before it, or reports that there is none |
| FileSearch.PreparePath | efi/fwupdate.c:210-228 | yields the path up to its first file node closed by an end node, with the original untouched; nothing if the copy fails |
| FileSearch.MatchHandle | efi/fwupdate.c:241-257 | true exactly when some node suffix of the handle's path, its end excepted, matches |
| FileSearch.FindHandle | efi/fwupdate.c:231-258 | the first handle that has a path and matches, or none if there is none, for any match predicate |
| FileSearch.AdvanceNodes | efi/fwupdate.c:248-249 | stepping count times reaches node number count of the original path |
| FileSearch.SearchFile | efi/fwupdate.c:189-262 | the device of the first matching handle and the first file node, or the error of the step that failed, a failed copy among them |
| FileSearch.SearchUnique | efi/fwupdate.c:189-262 | the specification of the search admits one result |
| FileSearch.SearchFails | efi/fwupdate.c:199-219 | the search returns the error of the handle lookup, or an invalid parameter if and only if no node of the path names a file |
| FileSearch.SearchCases | efi/fwupdate.c:189-262 | with a first file node the search returns that node on the first handle that matches the path cut there and closed by an end node, else unsupported |
| FileSearch.HandleMatchesIff | efi/fwupdate.c:234-257 | a handle matches if and only if it has a device path of which some node but the end begins a matching suffix |
| FileSearch.LocateCases | efi/fwupdate.c:275-283 | the node at which firmware stopped is used if there is one, else the search decides |
| FileSearch.NameFits | efi/fwupdate.c:291-303 | an accepted name lies inside the path, has 4 to 1024 units before its NUL, and no node shorter than its header passes the wrapping subtraction |
| FileSearch.NameSizeIff | efi/fwupdate.c:291-300 | a node length is accepted, at both word sizes, if and only if it is that of a name of 4 to 1024 units |
| FileSearch.OpenCases | efi/fwupdate.c:285-328 | what opening each node of a path returns, with its checks, statuses and the name passed to Open written out |
| FileSearch.OpenNode | efi/fwupdate.c:285-328 | an accepted node opens its NUL-terminated name on the device, and each failing check returns its own error; OpenCases writes the checks out |
| FileSearch.OpenFile | efi/fwupdate.c:264-329 | the node is the one firmware located, else the one found by the search, and the result is that of opening it |
| FileSearch.OpenUnique | efi/fwupdate.c:264-329 | the disk and the path determine the outcome of opening |
| FileSearch.OpenLocal | efi/fwupdate.c:264-329 | nothing but the bytes of the path decides what comes of opening it |
| PageMemory.PagesFor | efi/fwup-common.c:25 | the least number of 4096-byte pages that hold the size |
| PageMemory.Pages.AnswersIff | efi/fwup-common.c:22-48 | a request is met if and only if the answer is a free run of just enough whole pages below the address limit |
| PageMemory.Pages.MallocRaw | efi/fwup-common.c:22-48 | a new block of enough pages below the address limit and nothing else changed, or no block and nothing changed |
| PageMemory.Pages.FreeRaw | efi/fwup-common.c:53-59 | removes the block whose address and page count are named, and changes nothing if they do not match an allocation |
| FileReader.DoublingWraps | efi/fwup-common.c:96 | the doubled size wraps a 32-bit or 64-bit UINTN only to zero |
| FileReader.ReadBlocks | efi/fwup-common.c:108-124 | reads whole blocks until a Read fails, comes back short or the buffer is full, the buffer holding exactly the part of the file read |
| FileReader.Regrow | efi/fwup-common.c:95-106 | a buffer of twice the size with the old bytes at its start, and the old buffer freed, or nothing changed |
| FileReader.ReadFile | efi/fwup-common.c:86-127 | the exact file and its length in one new block of at most max(4 MiB, twice the length), copying less than twice the length; nothing left allocated after a failed Read; after a failed regrow the last buffer left allocated, of at least 4 MiB, and none if the first allocation fails |
| FileReader.FaultFree | efi/fwup-common.c:112-117 | a file reads without error exactly when every block position up to its end reads without error |
| FileReader.FaultFirst | efi/fwup-common.c:112-117 | the error of a file that does not read is that of the first failing block |
| Efi.ErrorBit | efi/efi-mock.h:46-55 | a status is an error if and only if its number has the high bit of a UINTN set |
| Efi.LittleEndian32 | efi/efi-mock.h:90-95 | the four bytes of a word are its base-256 digits, the least significant one first |
| Efi.LittleEndian64 | efi/efi-mock.h:97-103 | the same for the eight bytes of a 64-bit word |
| Efi.ReadsLittleEndian | efi/efi-mock.h:90-95 | the bytes that a word is read from are its digits |
| Efi.DigitValue | efi/efi-mock.h:97-103 | digit i of a number is the number divided by 2 to the 8 i, modulo 256 |
| Efi.BitOrBits | efi/fwupdate.c:466-470 | a bit of the combined flags is set exactly when it is set in one of the operands |
| Capsule.UpdateUxChecksum | efi/fwupdate.c:368-378 | only the checksum byte changes, to the sum of the other fifteen header bytes modulo 256 |
| Capsule.ChecksumIdempotent | efi/fwupdate.c:368-378 | updating the checksum a second time changes nothing |
| Capsule.UxPayloadInside | efi/fwupdate.c:388-396 | the four header checks imply that the end of the payload header does not wrap at 32 or 64 bits and lies inside the image and the file |
| Capsule.UxHeaderIff | efi/fwupdate.c:388-396 | the four header checks pass, at both word sizes, if and only if the header has 28 bytes or more and 16 more lie inside the image and the file |
| Capsule.CheckGop | efi/fwupdate.c:380-404 | the exact status for each input, and on success only the mode and the checksum are written; UxHeaderIff writes the checks out in numbers |
| Capsule.FinishedFrame | efi/fwupdate.c:446-479 | a finished capsule has the length and sizes of the file and differs from it only in a zero Flags word, or for a UX capsule in mode and checksum |
| Capsule.FinishedCases | efi/fwupdate.c:446-479 | for which files and updates a capsule is accepted, and the error in every other case, in numbers |
| Capsule.FinishCapsule | efi/fwupdate.c:446-485 | the in-place edits of the buffer give the finished capsule, or the error of the failing check |
| Capsule.LoadFile | efi/fwupdate.c:436-444 | the file that the device path names, read completely into a new block, or the error |
| Capsule.BuildCapsule | efi/fwupdate.c:436-479 | the finished capsule in a new block, every older block unchanged |
| Capsule.AddUpdateCapsule | efi/fwupdate.c:422-486 | on success slot j of both arrays describes the finished capsule, bytes 16 j to 16 j + 15 of the list are its length and address with the least significant byte first, and no other slot changes; on any error both arrays are untouched, and which error is exact also when memory is short |
| Capsule.OutcomeUnique | efi/fwupdate.c:422-486 | the environment and the stored update determine the outcome |
| Capsule.OutcomeLocal | efi/fwupdate.c:436-479 | of the stored update only the GUID, the flags and the device path decide the outcome |
| Capsule.AcceptedLength | efi/fwupdate.c:406-413 | an accepted capsule holds a header, and its image size lies between the header size and its length |
| Descriptors.LengthPatched | efi/fwupdate.c:481-482 | writing the Length word of one descriptor in memory changes that descriptor alone |
| Descriptors.PointerPatched | efi/fwupdate.c:481-482 | the same for its address word |
| Descriptors.EntryBytes | efi/efi-mock.h:97-103 | the sixteen bytes in memory of each entry of the list |
| CapsuleList.SetTerminator | efi/fwupdate.c:415-420 | one entry becomes the terminator, sixteen zero bytes, and no other changes |
| CapsuleList.WalkTo | efi/fwupdate.c:481-482 | a list terminated at j whose earlier entries have a length is walked to exactly its first j entries |
| CapsuleList.WalkStops | efi/fwupdate.c:415-420 | a walk that ends has stopped at the first terminator |
| CapsuleList.WalkDescribed | efi/fwupdate.c:481-482 | a list that describes capsules and is terminated behind them is walked to exactly their descriptors |
| Runtime.FetchVariable | efi/fwup-efi.c:41-72 | the whole data, size and attributes of the stored variable or an error, never a part; absent faults it fails exactly if the variable is absent or empty |
| DebugLog.LogLines | efi/fwup-debug.c:28-80 | after the log calls of a run the log is the concatenation of their lines, whatever it held before; with lost and refused lines it is that of the stored ones if the first that could be formatted was stored, and if that was refused what was there before stays in front |
| DebugLog.SetLog | efi/fwup-debug.c:36-41 | a write to a usable log replaces it or extends it, and changes no other variable |
| DebugLog.ConcatJoin | efi/fwup-debug.c:36-42 | the text of some lines followed by others is the text of the first followed by that of the others |
| DebugLog.StoredLinesJoin | efi/fwup-debug.c:36-42 | the stored lines of a run are those of a first part followed by those of the rest |
| DebugLog.FirstFateIs | efi/fwup-debug.c:36-42 | the fate that decides what a run does to the log is that of the first line that could be formatted |
| DebugLog.Logger.Log | efi/fwup-debug.c:45-80 | a line that cannot be formatted is dropped; with debugging off nothing is stored; with it on the first line of a run replaces the log and later ones extend it, nested lines included; a refused line is lost, and leaves at most a nested line behind if it was the first; a log with other attributes never changes |
| DebugLog.Logger.Append | efi/fwup-debug.c:28-43 | the same with debugging on, with the recursion bounded by the flag that is cleared first |
| DebugLog.Logger.DeleteVariable | efi/fwup-efi.c:15-33 | a variable with data is reported as too big for the buffer and stays in the store, an absent one is a success |
| UpdateInfo.PopulateUpdateInfo | efi/fwupdate.c:69-122 | absent faults it succeeds exactly if the variable is stored, is larger than 60 bytes and its device path fills the tail from byte 52, and then the entry is an exact copy |
| UpdateInfo.MarkAttempted | efi/fwupdate.c:178-180 | the time becomes that of the clock, the status becomes ATTEMPTED, and no other byte changes |
| UpdateInfo.MarkedStaysWellFormed | efi/fwupdate.c:94-118 | a marked update parses again, keeps GUID, flags and device path, and is not selected again |
| UpdateInfo.MarkedKeepsVerdict | efi/fwupdate.c:94-110 | marking changes the verdict of the parser in neither direction |
| UpdateInfo.MarkedKeepsOutcome | efi/fwupdate.c:178-180 | marking an update changes neither the capsule that is built from it nor the error of building it |
| Layout.GuidBytes | efi/fwup-efi.h:16-19 | the two GUIDs byte by byte |
| Layout.ParsedInfo | efi/fwup-efi.h:32-50 | every stored update of at least 52 bytes is the encoding of the fields read from it |
| Layout.InfoFields | efi/fwup-efi.h:32-50 | the GUID, flags, attempt bit and path that the model reads are those fields of the structure |
| Layout.WellFormedIff | efi/fwupdate.c:84-110 | an update is well formed if and only if more than 8 bytes follow its fixed part and they encode a sentence of the node grammar |
| Layout.MarkedIff | efi/fwupdate.c:178-180 | marking is setting the status to 2 and the time, and changing no other field |
| Layout.CapsuleFields | efi/efi-mock.h:90-95 | the header size, flags and image size that the model reads are those fields of the capsule header |
| Layout.UxPatchedFields | efi/fwupdate.c:398-402 | the patch of a UX capsule sets the mode of its UX header, and the checksum to the byte sum of that header modulo 256 with the checksum taken as zero |
| Layout.LogVariable | efi/fwup-debug.c:28-42 | the name, vendor and attributes of a log variable that is usable, and of one that is not |
| UpdateTable.VariableCases | efi/fwupdate.c:155-182 | variables of other vendors, FWUPDATE_VERBOSE and FWUPDATE_DEBUG_LOG are neither pending nor malformed; of every other one the data decide |
| UpdateTable.ForeignIgnored | efi/fwupdate.c:155-161 | such a variable changes neither the pending updates, nor the selection, nor whether the boot stops, wherever in the store it is inserted |
| UpdateTable.OthersNoticed | efi/fwupdate.c:168-182 | every other variable does: it is pending, is passed over, or stops the boot, as its data and its place decide |
| UpdateTable.SelectionCases | efi/fwupdate.c:163-177 | the selection is the first 128 pending updates; malformed variables are harmless if and only if 128 pending ones stand before them |
| UpdateTable.HugeIff | efi/fwupdate.c:136-148 | a name is too long for the buffer if and only if it has more than 511 units |
| UpdateTable.AllocationsStep | efi/fwupdate.c:155-182 | three allocations for each variable that is parsed, and none for any other |
| UpdateTable.HaltsIff | efi/fwupdate.c:138-148 | the enumeration returns exactly when every huge name comes after an offending variable |
| UpdateTable.ScanVerdict | efi/fwupdate.c:138-186 | when it returns, it returns success exactly on the stores without an offending variable |
| UpdateTable.ScanPrefix | efi/fwupdate.c:138-183 | up to the first obstacle the loop advances one variable a turn and has counted the selection so far |
| UpdateTable.Consider | efi/fwupdate.c:168-182 | a candidate that parses yields a marked copy exactly if its attempt bit is set |
| UpdateTable.TakeCandidate | efi/fwupdate.c:163-182 | one candidate extends the marked selection, leaves it alone, or stops the loop |
| UpdateTable.Turn | efi/fwupdate.c:138-183 | one turn of the loop is one step of the enumeration machine |
| UpdateTable.Advance | efi/fwupdate.c:138-183 | a turn passes one variable or ends the loop, unless it meets a huge name; then a read that fails is still to come |
| UpdateTable.PopulateUpdateTable | efi/fwupdate.c:124-187 | on success the slots hold the marked copies of the first 128 pending variables in enumeration order and the rest are null; absent faults it fails exactly if a variable that has to be parsed is malformed; an error is that of a fault or an invalid parameter; the store is untouched |
| Boot.SelectUpdates | efi/fwupdate.c:603-617 | step 1 ends the program with the error of a fault, or an invalid parameter for a malformed variable or for nothing pending, or else fills the table with the marked selection |
| Boot.WriteBackStep | efi/fwupdate.c:528-530 | one accepted SetVariable replaces one variable of the store in place |
| Boot.SetUpdateStatuses | efi/fwupdate.c:521-538 | the updates are written in table order up to the first refusal, and nothing else is written |
| Boot.BuildOne | efi/fwupdate.c:626-634 | an accepted capsule takes the next slot, a failed one leaves the slots as they are |
| Boot.BuildCapsules | efi/fwupdate.c:621-635 | the filled slots describe exactly the accepted capsules in table order, without gaps |
| Boot.ApplyCapsules | efi/fwupdate.c:488-519 | firmware's walk over the descriptors in memory reads exactly the accepted capsules; the reset type is the queried one, or warm if the query did not succeed; an error of UpdateCapsule comes back as it is and any other answer as a success; no status if the call resets the machine |
| Boot.BuildList | efi/fwupdate.c:617-644 | the block of the descriptor list decodes to the accepted capsules in table order, with the terminator behind them; the status is that of the last update |
| Boot.WriteAndApply | efi/fwupdate.c:646-663 | capsules are applied only after every status is written, and the machine is reset if that comes back; header pointer k points at capsule k |
| Boot.BuildAndApply | efi/fwupdate.c:617-665 | steps 2 to 5 end with nothing built and nothing written, with an interrupted write-back, or with capsules applied |
| Boot.ErrorReturned | efi/fwupdate.c:603-651 | every run that does not reach UpdateCapsule ends with an error, and which one |
| Boot.EfiMain | efi/fwupdate.c:579-666 | every boot is a step of the run relation; its status is an invalid parameter if nothing is pending or a variable is malformed, the error of the last capsule if none was built, the error of the refused write or of the fault, and after UpdateCapsule its error or a success; it faults only on a fault and is interrupted only by a refused write; absent faults a malformed variable stops it exactly when it has to be parsed; header pointer k handed over points at capsule k |
| Runs.RunKeepsStore | efi/fwupdate.c:521-538 | a run keeps order, keys, attributes and sizes of all variables, every byte of those not pending, and of the pending ones all but time and status |
| Runs.MarkedFields | efi/fwupdate.c:178-181 | what marking leaves of a stored variable: key, attributes, size, bytes 0 to 31 and those from 52 on; bytes 48 to 51 become 2 in little-endian order |
| Runs.RunNeverArms | efi/fwupdate.c:178-181 | what is pending after a run was pending before it, byte for byte |
| Runs.AppliedStores | efi/fwupdate.c:646-654 | after a run that reached UpdateCapsule each selected update is stored well formed with status ATTEMPTED |
| Runs.RunReplays | efi/fwupdate.c:521-538 | replaying the SetVariable calls of the trace gives the store after the run |
| Runs.CutKeepsStore | efi/fwupdate.c:521-538 | a run that is cut off after any of its calls keeps the store as a whole run does |
| Runs.TraceSafety | efi/fwupdate.c:603-665 | UpdateCapsule at most once, with 1 to 128 capsules, when the store already has every selected update as ATTEMPTED; ResetSystem right after it if it comes back, and only then |
| Runs.HandsOverOnce | efi/fwupdate.c:603-665 | a run calls UpdateCapsule once if it gets that far, and ResetSystem once if that comes back; on every early return neither |
| Runs.BuildsIff | efi/fwupdate.c:436-479 | a capsule can be built from a stored update exactly when its device path opens a file that reads without error, holds a header and a sane image size, and for a UX capsule passes the header checks where there is a GOP mode |
| Runs.QuietVerdict | efi/fwupdate.c:603-641 | when nothing fails, the boot stops on a malformed variable, finds nothing pending, builds nothing or applies capsules, each exactly under its condition on the store and the platform |
| Runs.SamePayload | efi/fwupdate.c:617-644 | when nothing fails, the store and the platform determine the capsules handed over |
| History.RunIsStep | efi/fwupdate.c:579-666 | every run that efi_main can make from the last store of a history is a next step of it, whole or cut off after any of its calls |
| History.CutIncludes | efi/fwupdate.c:646-655 | a run includes an update at most once, only if it was armed, and leaves it disarmed, wherever it is cut off |
| History.AtMostOncePerArming | efi/fwupdate.c:178-182 | over every history of boots, cut off anywhere, an update is included at most as often as it was armed from outside |
| History.HandedAtMostAsArmed | efi/fwupdate.c:178-182 | the same by counting: over every history the boots that hand over an update are no more than the steps that armed it, and one if it was armed at the start |
| Backlog.AppliedDrains | efi/fwupdate.c:163-182 | a run that applies capsules leaves pending exactly the updates beyond the first 128, in order |
| Backlog.QuietDrains | efi/fwupdate.c:611-641 | when nothing fails, a boot works off the first 128 pending updates if one of them can be built, and changes nothing if none can |
| Backlog.PendingCountOrderFree | efi/fwupdate.c:138-142 | the number of pending updates does not depend on the enumeration order |
| Backlog.Drains | efi/fwupdate.c:163-182 | if nothing fails and something can be built each time, k boots leave max(0, P - 128 k) of P pending updates |
| Backlog.BacklogClears | efi/fwupdate.c:611-615 | once P is at most 128 k, boot k finds nothing pending |
| Backlog.EachDelivered | efi/fwupdate.c:138-182 | of P updates, after k boots with P at most 128 k each was selected, as first stored, by exactly one boot, and handed over once if it can be built there and else never |
| History.MalformedBlocks | efi/fwupdate.c:173-177 | after that no number of boots changes the store or applies a capsule |
| History.DisarmedIff | efi/fwupdate.c:521-538 | wherever a run is cut off, it has disarmed exactly the selected updates whose writes it had made |
| History.MarkedAndSent | efi/fwupdate.c:521-536 | for every run and every cut: marked exactly the updates stored by then; handed over only what can be built as stored, and if no allocation failed exactly that when UpdateCapsule was reached, else nothing |
| History.QuietSent | efi/fwupdate.c:617-655 | in a boot in which nothing fails a selected update is marked exactly if some selected one can be built, and handed over exactly if it can be built itself |
| Examples.MalformedIsKept | efi/fwup-efi.c:23-31 | the call that should delete a malformed variable reports it as too big and leaves it in the store |
| Examples.MalformedStopsBoot | efi/fwupdate.c:172-177 | no boot from a store with that variable gets any further |
| Examples.LongNameTraps | efi/fwupdate.c:146-148 | a store on which the enumeration never returns |
| Examples.MarkedButNotSent | efi/fwupdate.c:628-633 | a run that marks an update attempted without handing it over, because no capsule can be built from it |
| Examples.MarkedThenInterrupted | efi/fwupdate.c:528-535 | a run that marks an update which can be built and returns without handing it over, because a later write is refused |
| Examples.RegrowLeaks | efi/fwup-common.c:98-100 | a file of 4 MiB whose buffer stays allocated when the second allocation fails |

## Left out

- Console output, the text of log lines and sleeps: a log line is an opaque non-empty byte string, which cannot always be formatted.
- Log calls outside the log itself: the update protocol is modelled with debugging off, where `Logger.Log` stores nothing.
- `fwup_debug_hook` and debugger attachment: it only decides whether debugging is on.
- `fwup_get_gop_mode`: the mode is an optional value, the one of the first handle that opens.
- `LocateDevicePath`, `LibMatchDevicePaths`, volume and file opening: arbitrary functions of their arguments.
- Pool memory that is not given back on early returns, and the results of two allocations that the code does not check (efi/fwupdate.c:302 and 619).
- The file handle that stays open when a read fails, and the Close call.
- The contents of the capsule header array passed to QueryCapsuleCapabilities: only its count is recorded.
- Architecture differences: one parameter holds the default capsule flags, another the width of UINTN.
- The version, hardware instance and checksum fields that no code path reads.
- Capsule.AddUpdateCapsule: does not say that the buffer of a rejected capsule is freed, because the code keeps it allocated.
- UpdateTable.PopulateUpdateTable: requires that the loop ends, by the store or by a fault, because otherwise the code does not return.
