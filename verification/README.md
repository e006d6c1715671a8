# Qine: a verified model of its core

Qine runs QNX4 programs on Linux. This project models the stateful pieces under its system calls in
Dafny and proves what they promise over all inputs and all runs:

- **Emulated signals** (`Sigsets`, `GuestContexts`, `Signals`, `SignalRuns`, `Emulators`): pending and mask sets in
  software, frames built on the guest stack by `signal_tail` and taken down by sigreturn.
- **Messages** (`Messages`, `MessageAccess`): scatter/gather tables of (selector, offset, length) parts,
  read, written, turned into an iovec and streamed; all of it described by one flat string of locations.
- **Start-up and spawn** (`StartLists`, `Startup`, `Spawn`): the lists a program is started with, the bump
  allocator, the spawn block it lays out, and the parser of spawn messages, which undoes that layout.
- **Terminal input** (`TerminalFilters`, `MouseReports`, `Timespecs`): the streaming rewriter of xterm mouse reports.
- **Process ids** (`PidMaps`): 32-bit host pids in 15 bits, with probing and a reverse index, and fork.
- **Paths** (`Paths`, `PathMappers`): the in-place normaliser and the prefix mapper.
- **Segments** (`Segments`, `IdMaps`, `Descriptors`, `FlatLoaders`): growable segments, selectors, LDT
  entries that may go stale, and the layout of flat executables.

Objects whose methods update fields in the original are classes here; each method is specified by a
function of the old state, and the laws are proved about those functions and about runs of them.

Conventions. Guest memory is one linear sequence of bytes; a segment occupies a range of it. What the
host answers (whether `mmap` succeeded, and where) is a parameter, and so is the clock. A C++ exception
is a result: `None`, `false`, or a status. `uint32_t` sums wrap explicitly in the stack pointer, in part
offsets, in the loader and in the pid hash. The set of pending signals starts empty; the original leaves it
uninitialised. FS is never saved in a signal frame, so no law speaks of it.

Where code and intention part, the model follows the code; each point has a lemma at a concrete input and
one that says for all inputs exactly when it happens:

- After a wrap, the pid search can hand out pid 10 although it is taken: `OverwriteHappens`, `FoundPidFresh`.
- Freeing a pid that is not a child leaves the reverse index dangling: `FreeDangles`, `FreeKeepsInverse`.
- A mouse report cut inside its payload is passed on raw, so pieces of input matter exactly at such cuts:
  `CutMatters`, `SplitExact`, `PiecesDoNotMatter`, `SessionIsTranslation`.
- `pop_path` asks for the last character of a string before it asks whether there is one, and does so on an
  empty string exactly when `..` takes the only component of a relative path away: `OverrunHappens`, `NormalizePath`.
- Path prefixes are matched by characters, not components, so the way there and back gives the same path
  exactly at a component boundary: `RoundTripFails`, `ChangePrefixRoundTrip`.
- The LDT entry of an empty segment reaches 2^20 bytes: `EmptyEntryReaches`, `UpdateFits`.
- The sizes of the loader segments are summed in 32 bits. A flat program whose sum wraps is laid out, and then
  an assertion fails when its segments are protected; it fails for no other program: `WrappedLoadHappens`, `Load`.

Four smaller points are followed as they are: `map_path_to_qnx` ends with the unmappable flag set on mapped
paths as well; the reply to a change of segment flags carries the flags in the field for the selector;
`IdMap::free` lets go of a descriptor without destroying it, so its LDT entry and its segment stay; the
prefix and the working directory come last in the environment, where the comment says first.

## Model

| member | source | states |
|---|---|---|
| `SignalRuns.SigreturnRestoresDelivery` | src/emu.cpp:219-306 | in every run of arrivals, mask changes, guest code, nested deliveries and sigreturns, a sigreturn gives back the mask, the stack pointer and every other register but FS of its own delivery |
| `SignalRuns.DrainDeliversInOrder` | src/emu.cpp:219-306 | from every state with guest code interrupted, room for one frame and a handler for each pending unmasked signal, there is a drain that delivers exactly those signals, each once, ascending, in as many rounds; mask and registers come back, masked signals stay pending, nothing is left to deliver |
| `SignalRuns.DrainInOrder` | src/emu.cpp:219-254 | every drain, however far it got, has delivered the lowest of those signals in order and nothing else, and is at its end exactly after as many rounds as there were bits |
| `SignalRuns.RoundExists` | src/emu.cpp:219-306 | while some pending signal is unmasked, another round of delivery and return is possible |
| `SignalRuns.RunKeepsInv` | src/emu.cpp:70-139 | at every moment of every run all live frames are intact, chained below one another, and the stack pointer is below them |
| `SignalRuns.RunFramesDescend` | src/emu.cpp:252-263 | of two live frames the newer, with the 128 bytes above it, lies below the older one on the same stack segment |
| `SignalRuns.NextKeepsInv` | src/emu.cpp:219-306 | every kind of step keeps the frame invariant |
| `SignalRuns.DeliveryEffect` | src/emu.cpp:250-284 | a delivery writes one block that ends 128 bytes below the interrupted stack pointer, holds the saved context and mask, and has the stub's arguments at the new stack pointer; no other memory changes |
| `SignalRuns.DeliveryCallsHandler` | src/emu.cpp:233-291 | control is at the registered stub with signal and handler on the stack, other registers unchanged, the signal no longer pending, it and its action's mask blocked |
| `SignalRuns.StubSees` | src/emu.cpp:262-284 | the stub finds, from the stack pointer up, handler, signal number and a zero, or the number alone in a 16-bit program, and then the interrupted mask |
| `SignalRuns.DeliveredIff` | src/emu.cpp:219-293 | a signal is delivered exactly when guest code was interrupted, some pending signal is unmasked, the least one has a registered handler, and its frame fits on the stack |
| `SignalRuns.FrameFitsIff` | src/guest_context.cpp:70-78 | all pushes of a frame succeed exactly when its bytes are accessible below the red zone |
| `SignalRuns.SigreturnEffect` | src/emu.cpp:295-306 | a prepared sigreturn succeeds and restores the newest frame's mask and registers |
| `SignalRuns.TailPicksLeast` | src/emu.cpp:237-239 | the delivered signal is the least pending unmasked one, and only its pending bit is cleared |
| `SignalRuns.TailIdleIff` | src/emu.cpp:223-235 | in guest code nothing is delivered or rejected exactly when every pending signal is masked |
| `SignalRuns.RoundEffect` | src/emu.cpp:219-306 | one delivery with its return removes exactly one pending bit and changes neither mask nor pushed registers |
| `Emulators.Emu.SignalRaise` | src/emu.cpp:607-611 | adds one signal to the pending set, also on arrival of a host signal |
| `Emulators.Emu.SignalMask` | src/emu.cpp:613-616 | the mask takes the new bits inside the change mask and keeps its own outside |
| `Emulators.Emu.ShouldPreempt` | src/emu.cpp:203-213 | true exactly when some pending signal is not masked |
| `Emulators.Emu.PushFrame` | src/emu.cpp:252-284 | the pushes, in the code's order, the handler read from guest memory between them, build the frame the laws speak of, or fault |
| `Emulators.TableAtStub` | src/emu.cpp:267-280 | a table that the frame misses reads the same after all pushes, when the stub's address is taken from it |
| `Emulators.CrashEffect` | src/emu.cpp:237-258 | after an exception the least active signal is no longer pending; without a usable handler nothing else changed, or else the mask is the handler's |
| `Emulators.SigreturnOnlyReads` | src/emu.cpp:295-306 | a sigreturn, faulting or not, writes no memory and makes nothing pending |
| `Signals.SigtabReadsBack` | src/qnx/procenv.h:15-25 | for every stub and all handlers, mask words and flags, the 324 bytes of the table read back as exactly that table |
| `Signals.InGuestExact` | src/emu.cpp:226-229 | selectors made for the LDT are the guest's, those without the table bit the host's |
| `Signals.SpecialHandlers` | src/emu.cpp:195-201 | the four reserved handler values and no others |
| `Emulators.Emu.SignalTail` | src/emu.cpp:219-293 | does what the tail of the run laws does, reading the signal table in guest memory, with the same ways out and the same state after each, crashes included |
| `Emulators.Emu.SyscallSigreturn` | src/emu.cpp:591-605 | does what the sigreturn of the run laws does, for 32-bit and 16-bit guests, faults included |
| `Emulators.Emu.DispatchSigreturn` | src/emu.cpp:312-346 | a fault on the way ends with EFAULT in EAX and the carry flag set |
| `GuestContexts.PushAllEffect` | src/guest_context.cpp:70-73 | a row of pushes succeeds exactly when there is room for all of them, never wraps, and changes one block just below the stack pointer |
| `GuestContexts.RestoreEffect` | src/guest_context.cpp:211-229 | popping a saved context gives back every pushed register; the saved stack pointer is discarded and FS untouched |
| `GuestContexts.ContextLayout` | src/guest_context.cpp:189-209 | the saved words in memory order, register by register |
| `GuestContexts.ErrorReported` | src/guest_context.h:126-131 | a failed call has the error in EAX and the carry flag set, and changes nothing else |
| `GuestContexts.GuestContext.PushStack` | src/guest_context.cpp:70-73 | moves the stack pointer down 4 and stores the word there, or faults |
| `GuestContexts.GuestContext.PushStack16` | src/guest_context.cpp:75-78 | moves the stack pointer down 2 and stores the half word there, or faults |
| `GuestContexts.GuestContext.PopStack` | src/guest_context.cpp:80-84 | returns the word at the stack pointer and moves it up 4; a fault leaves it |
| `GuestContexts.GuestContext.PopStack16` | src/guest_context.cpp:86-90 | returns the half word at the stack pointer and moves it up 2; a fault leaves it |
| `GuestContexts.GuestContext.SaveContext` | src/guest_context.cpp:189-209 | memory below the stack pointer holds all registers but FS in pop order; no register but ESP changes |
| `GuestContexts.GuestContext.RestoreContext` | src/guest_context.cpp:211-229 | fifteen pops in the code's order, each into its register, stopping at the first fault |
| `Sigsets.MembersOfOperations` | src/qnx_sigset.h:37-50 | set, clear, modify and or are the set operations on the members |
| `Sigsets.HasIsMember` | src/qnx_sigset.h:44-46 | the bit test is membership |
| `Sigsets.FindFirst` | src/qnx_sigset.h:52-58 | the least member, or -1 exactly for the empty set |
| `Sigsets.WordBits` | src/qnx_sigset.h:32-46 | signal s is a member exactly when bit s - 1 of the number is set |
| `Sigsets.WordRoundTrip` | src/emu.cpp:295-297 | the number stored in a frame determines the set |
| `Messages.RangeOk` | src/process.cpp:218-230 | a range of a segment translates exactly when each of its bytes does, offsets that wrap included |
| `Messages.TableUnchanged` | src/msg.cpp:19-26 | a table used in place reads the same as long as the memory under it is not written |
| `Messages.TableReadsBack` | src/qnx/types.h:23-28 | memory that holds the entries of a list of parts, whatever is in the unused words, reads as that list |
| `Messages.Table16ReadsBack` | src/qnx/types.h:30-35 | the same for the copy of a 16-bit table |
| `Messages.OpenTable` | src/msg.cpp:14-58 | 32-bit tables stay in guest memory, 16-bit ones are copied; either way the parts are those the program wrote; fails exactly when the table is not accessible |
| `Messages.Iterator.Normalize` | src/msg.cpp:129-137 | skips finished and empty parts without moving the position |
| `Messages.Iterator.Next` | src/msg.cpp:111-127 | the slice is the next locations of the flat string, at most the size asked for, and empty only for size 0 or at the end |
| `Messages.Iterator.SkipTo` | src/msg.cpp:148-154 | ends at the given position or at the end of the message |
| `MessageAccess.Msg.Read` | src/msg.cpp:156-174 | the slice of the flat string, padded with 0xCC to the size; a fault exactly when a byte of it is not accessible |
| `MessageAccess.Msg.ReadWritten` | src/msg.cpp:176-192 | the same of the reply |
| `MessageAccess.Msg.WriteData` | src/msg.cpp:194-212 | writes the locations of the window one by one, returns how many, keeps the part table; a fault exactly when a byte is not accessible, after exactly the bytes in front of the first slice that does not translate |
| `MessageAccess.StopIsUnique` | src/msg.cpp:201-209 | the number of bytes written before a fault is determined by the message |
| `MessageAccess.WriteExact` | src/msg.cpp:194-212 | overlapping parts included: each address of the window holds the last byte that went to it, and no other byte changed |
| `MessageAccess.Msg.CommonIovec` | src/msg.cpp:221-245 | entries cover exactly the addresses of the window and then garbage up to the size; none is empty |
| `MessageAccess.WriteIsSplice` | src/msg.cpp:194-212 | with disjoint parts a write changes exactly bytes [offset, offset+k) of the message, k being the room or the size, whether or not the rest of the message is accessible |
| `MessageAccess.ViewIsHeld` | src/msg.cpp:176-192 | where the reply is accessible, what those laws see is what read_written reads |
| `MessageAccess.WritesAreSplices` | src/msg.cpp:194-212 | the same over any sequence of writes |
| `MessageAccess.WrittenReadsBack` | src/msg.cpp:176-212 | reading back what was written gives the data, as far as there was room |
| `MessageAccess.IovAgreesWithRead` | src/msg.cpp:221-253 | gathering the iovec delivers exactly the bytes that reading does, and as many bytes as asked for |
| `MessageAccess.MsgStreamReader.GetMore` | src/msg.cpp:255-262 | makes the rest of the current part ready without moving the position; faults exactly when that is not accessible, and nothing is ready exactly at the end |
| `MessageAccess.MsgStreamReader.Get` | src/msg.h:125-138 | the byte at the position, one further each time, and the fallback for ever after the end; faults exactly where the accessible parts end |
| `Startup.ChunkInBounds` | src/segment.cpp:197-205 | whatever was carved out is accepted by check_bounds |
| `Startup.StartupSbrk.Alloc` | src/segment.cpp:197-205 | the next chunk lies behind all earlier ones, which keep place and contents, and is in bounds unless the offset wrapped |
| `Startup.StartupSbrk.Align` | src/segment.cpp:207-213 | moves to the next multiple of 16 and covers it unless that wraps |
| `Startup.StartupSbrk.PushString` | src/segment.cpp:215-220 | appends the string and its terminator to the contents |
| `StartLists.ChooseArgs` | src/process.cpp:477-504 | the arguments, with interpreter, its arguments and the script in place of argv[0] for scripts |
| `StartLists.ChooseEnv` | src/process.cpp:507-538 | plain strings in their order, then one prefix and one working directory, given or made up |
| `StartLists.EnvExact` | src/process.cpp:507-538 | exactly the plain strings, in order and first, then exactly one prefix and then exactly one working directory |
| `StartLists.LastWithExact` | src/process.cpp:513-518 | of several values for a key the last one given is kept, or the default if there is none |
| `StartLists.EnvStable` | src/process.cpp:507-538 | preparing the environment again for a program started from this one changes nothing, wherever that is |
| `Startup.BuildSpawn` | src/process.cpp:463-546 | the block holds type, counts and all strings in order, and the recorded offsets are where each string starts |
| `Startup.PointersMark` | src/process.cpp:472-505 | every recorded offset points to its own string and its terminator in the finished block |
| `Startup.BlockStays` | src/process.cpp:541-544 | later growth leaves the block as it is |
| `Spawn.ParseUndoesLayout` | src/main_handler.cpp:889-933 | parsing the strings of the block gives back name, arguments and environment, empty strings included, whatever follows |
| `Spawn.SpawnRoundTrip` | src/main_handler.cpp:889-933 | a message with the block as contents, counts below 65536, means exactly the lists it was laid out from |
| `Spawn.BuildThenParse` | src/process.cpp:463-546 | the block built at start-up, sent in any cut into parts, empty ones included, is parsed to exactly the lists it was built from |
| `Spawn.SpawnSent` | src/main_handler.cpp:889-933 | the same for a block that lies in any segment of memory |
| `Spawn.ParseMessage` | src/main_handler.cpp:889-933 | the strings found in the readable part of the message, or a fault exactly when the header is not accessible or a string is asked for that does not end before the first inaccessible part |
| `Spawn.AccessibleOutcome` | src/main_handler.cpp:889-933 | an accessible message never faults, and only its flat contents matter |
| `Spawn.ReadString` | src/main_handler.cpp:899-906 | appends the string up to its NUL or the end of the message, and a NUL, and moves behind it, or faults |
| `Timespecs.MakeNormalises` | src/timespec.h:15-26 | the constructor keeps the total, and the result is normal exactly when that is not negative |
| `Timespecs.MsTotal` | src/timespec.h:30-32 | so many milliseconds are a million times as many nanoseconds |
| `Timespecs.Arithmetic` | src/timespec.h:34-48 | on normal times the operators are those on nanoseconds |
| `TerminalFilters.TerminalFilter.Process` | src/fd_filter.cpp:177-223 | terminates, appends exactly what the one-pass translator gives, and ends with an empty buffer and no wait or with ESC or ESC [ and the wait set; the wait starts when the sequence does |
| `TerminalFilters.TerminalFilter.ParseEsc` | src/fd_filter.cpp:239-286 | incomplete exactly for ESC and ESC [, recognised exactly for a whole report, which is replaced by its translation |
| `TerminalFilters.TerminalFilter.Append` | src/fd_filter.cpp:164-173 | data read from the host goes to the end of the buffer |
| `TerminalFilters.TerminalFilter.Transfer` | src/fd_filter.cpp:288-291 | moves a prefix of the buffer to the end of the ready bytes |
| `TerminalFilters.TerminalFilter.Drop` | src/fd_filter.cpp:293-295 | removes a prefix of the buffer |
| `TerminalFilters.TerminalFilter.Take` | src/fd_filter.cpp:60-69 | hands out a prefix of the ready bytes and keeps the rest |
| `TerminalFilters.FeedNoReports` | src/fd_filter.cpp:180-203 | input without reports goes out unchanged, other escape sequences included; only a sequence just begun at the end is held back |
| `TerminalFilters.FeedReplacesReport` | src/fd_filter.cpp:239-286 | the first report is replaced, what is in front of it goes out unchanged, and the rest is translated with the new buttons |
| `TerminalFilters.SessionUnchanged` | src/fd_filter.cpp:51-223 | in a session without reports the bytes read, ready and held back are the whole input, timeouts included |
| `TerminalFilters.ExpiredExact` | src/fd_filter.cpp:92-206 | the wait is over exactly when 200 milliseconds have passed |
| `TerminalFilters.SplitExact` | src/fd_filter.cpp:251-253 | two pieces give the same as the whole exactly when the cut is not inside a report's payload |
| `TerminalFilters.PiecesDoNotMatter` | src/fd_filter.cpp:177-286 | any number of pieces gives the same bytes, buttons and held-back input as the whole exactly when no cut is inside a payload |
| `TerminalFilters.SessionIsTranslation` | src/fd_filter.cpp:51-69 | bytes read so far and bytes still ready are together the translation of the input, burst by burst between escape timeouts, whatever was read when, exactly when no cut is inside a payload |
| `TerminalFilters.ProcessIsOps` | src/fd_filter.cpp:200-216 | each call of process is an input step of those sessions, followed by a timeout step if the wait ran out |
| `TerminalFilters.CutMatters` | src/fd_filter.cpp:252-253 | a report cut behind its first payload byte comes out differently |
| `MouseReports.EventTranslated` | src/fd_filter.cpp:255-282 | the report of a mouse event becomes the QNX report of the same event, modifiers ignored |
| `MouseReports.EventsTranslated` | src/fd_filter.cpp:239-286 | a sequence of events becomes their QNX reports in order; the button word is the set of buttons down |
| `MouseReports.ReportReadsBack` | src/fd_filter.cpp:263-279 | a report starts with ESC [, ends with t, and its fields read back |
| `MouseReports.DecimalReadsBack` | src/fd_filter.cpp:263-279 | the numbers in reports read back, negative ones included |
| `PidMaps.RunKeepsInverse` | src/qnx_pid.cpp:13-129 | over every run that releases only children and never wraps onto a taken pid 10, both maps stay inverse and each new pid was free and in 10..32767 |
| `PidMaps.FoundPidFresh` | src/qnx_pid.cpp:49-84 | a found pid is in range, and it was free exactly when the search did not wrap onto a taken pid 10 |
| `PidMaps.OverwriteHappens` | src/qnx_pid.cpp:62-65 | a map in which a taken pid is handed out |
| `PidMaps.FoundIsFirst` | src/qnx_pid.cpp:49-84 | the compressed pid if free, or else the first free one from the randomized one on, or else what the wrap finds |
| `PidMaps.CompressCongruent` | src/qnx_pid.cpp:131-147 | compression keeps the host pid modulo the range; the hash multiplies by 3779 |
| `PidMaps.ChildEntered` | src/qnx_pid.cpp:87-100 | a child's entry is in both maps, all else as before |
| `PidMaps.RelatedEntered` | src/qnx_pid.cpp:29-47 | a known host pid leads to its own entry, an unknown one to a new entry of the type asked for; all else as before |
| `PidMaps.FreeEffect` | src/qnx_pid.cpp:124-129 | a freed pid is gone, a child's host pid too; all other entries stay |
| `PidMaps.ReleaseUndoes` | src/qnx_pid.cpp:87-129 | allocating a child and releasing it gives back the state before, exactly when the host pid is not 0 |
| `PidMaps.FullIsFull` | src/qnx_pid.cpp:71-74 | the search gives up only when all pids are taken |
| `PidMaps.CompressInRange` | src/qnx_pid.cpp:131-147 | both hashes stay in 10..32767 and small pids keep their value |
| `PidMaps.EnterKeepsInverse` | src/qnx_pid.cpp:77-100 | a new entry keeps the maps inverse exactly when no host pid points at its key |
| `PidMaps.FreeKeepsInverse` | src/qnx_pid.cpp:124-129 | a release keeps them inverse exactly for children and for entries the index does not point at |
| `PidMaps.FreeDangles` | src/qnx_pid.cpp:124-129 | releasing the process's own entry leaves its host pid pointing at nothing |
| `PidMaps.InitialInverse` | src/process.cpp:88-93 | holds after start-up's permanent pids |
| `PidMaps.ForkAgrees` | src/main_handler.cpp:838-859 | the son pid told to the parent is the child's own pid, and the child's parent pid is the parent's, probing included |
| `PidMaps.PidMap.Search` | src/qnx_pid.cpp:49-84 | counter and map iterator stay in step and find what the laws speak of |
| `PidMaps.PidMap.AllocPermanentPid` | src/qnx_pid.cpp:13-27 | enters the pid, in the reverse index too if it has a host pid |
| `PidMaps.PidMap.AllocRelatedPid` | src/qnx_pid.cpp:29-47 | an existing entry for the host pid, or a new one in both maps |
| `PidMaps.PidMap.AllocChildPid` | src/qnx_pid.cpp:87-100 | a new child entry in both maps |
| `PidMaps.PidMap.FreePid` | src/qnx_pid.cpp:124-129 | removes the entry, and a child's host pid from the index |
| `Paths.NormalizePath` | src/path_mapper.cpp:20-61 | the edited string is the joined stack of components: empty and . dropped, .. popping unless nothing is left; the last character of an empty string is read exactly when .. takes the only component of a relative path away |
| `Paths.OverrunHappens` | src/path_mapper.cpp:9-12 | `a/..` does that |
| `Paths.PopPath` | src/path_mapper.cpp:9-18 | takes exactly the last component away; reads in front of the string exactly when that was the only one of a relative path |
| `Paths.NormalProperties` | src/path_mapper.cpp:20-61 | idempotent, keeps absoluteness, no trailing slash except the root |
| `Paths.NormalComponent` | src/path_mapper.cpp:42-52 | a component behind a path goes behind its normal form |
| `Paths.NormalParent` | src/path_mapper.cpp:37-41 | a component and .. behind a path cancel out |
| `Paths.NormalTop` | src/path_mapper.cpp:37-41 | .. behind a path with nothing left to pop changes nothing |
| `Paths.NormalDot` | src/path_mapper.cpp:35-36 | a slash, or a slash and ., behind a path changes nothing |
| `Paths.NormalForm` | src/path_mapper.cpp:20-61 | a path is left unchanged exactly when its components are clean and it is their join |
| `Paths.PartBranches` | src/path_mapper.cpp:35-41 | the comparisons of a part by prefix length single out exactly empty, . and .. |
| `PathMappers.ChangePrefixOf` | src/fsutil.cpp:73-94 | the rest of the path, without leading separators, behind the new prefix |
| `PathMappers.ChangePrefixRoundTrip` | src/fsutil.cpp:73-94 | changing a prefix and changing it back gives the path exactly when the prefix ended at a component boundary |
| `PathMappers.RoundTripFails` | src/fsutil.h:15-18 | /ab through /a to /b and back is /a/b |
| `PathMappers.ChangePrefixCanonical` | src/fsutil.cpp:73-94 | at a boundary the result is normalised again |
| `PathMappers.ChangePrefixParts` | src/fsutil.cpp:73-94 | at a boundary the components of the prefix are replaced and those behind it kept |
| `PathMappers.MapRoundTrip` | src/path_mapper.cpp:146-223 | host to QNX and back through the same mapping gives the path exactly at a boundary, and both paths are normalised |
| `PathMappers.PickHostMatches` | src/path_mapper.cpp:209-216 | the picked QNX prefix matches and is the longest |
| `PathMappers.PickQnxMatches` | src/path_mapper.cpp:153-159 | the picked host prefix matches and has the shortest QNX path; none exactly if none matches |
| `PathMappers.QnxPrefixExact` | src/path_mapper.cpp:151-162 | the root mapping whenever its host path matches, or else a matching one with the shortest QNX path, or none |
| `PathMappers.CanonicalUsable` | src/fsutil.cpp:75-76 | with absolute mappings the assertions on prefixes hold for every absolute path |
| `PathMappers.AddMapCanonical` | src/path_mapper.cpp:112-131 | options with absolute paths keep every mapping normalised |
| `PathMappers.AddAllExact` | src/path_mapper.cpp:99-144 | options are accepted exactly when well formed with distinct QNX prefixes, and then all take effect |
| `PathMappers.OrderDoesNotMatter` | src/path_mapper.cpp:99-144 | with at most one root mapping, every order of options is rejected alike or maps every QNX path alike |
| `PathMappers.PathMapper.HasQnxPrefix` | src/path_mapper.cpp:134-144 | true exactly for the root and for mapped prefixes |
| `PathMappers.PathMapper.Add` | src/path_mapper.cpp:99-133 | accepted exactly with a known exec argument and a new QNX path; adds the mapping from the normalised QNX path to the normalised host path, or makes it the root, or changes nothing; overruns exactly when one of its paths does |
| `PathMappers.PathMapper.MapPathToQnx` | src/path_mapper.cpp:146-191 | fills in the QNX path through the picked mapping or as unmapped |
| `PathMappers.PathMapper.MapPathToHost` | src/path_mapper.cpp:200-223 | fills in the host path through the longest match and remembers it |
| `IdMaps.IdMap.Search` | src/idmap.h:103-115 | the lowest used or free id from a start on; nothing exactly when there is none |
| `IdMaps.IdMap.AllocStartingAt` | src/idmap.h:78-87 | the lowest free id at or after the start, or the failure exactly when all are taken |
| `IdMaps.IdMap.AllocAny` | src/idmap.h:52-58 | the lowest free id |
| `IdMaps.IdMap.AllocExactlyAt` | src/idmap.h:59-66 | that id, unless it is beyond the maximum or taken |
| `IdMaps.IdMap.Lookup` | src/idmap.h:89-94 | what the id holds, if anything |
| `IdMaps.IdMap.Free` | src/idmap.h:96-101 | the id becomes free, all others stay |
| `IdMaps.IdMap.Walk` | src/process.cpp:232-241 | repeated search visits each live id once, ascending |
| `Segments.AlignPageUp` | src/mem_ops.h:13-26 | the least multiple of the page size that is not below the value |
| `Segments.CheckBoundsExact` | src/segment.cpp:149-165 | a non-empty range is accepted exactly when each byte lies in a mapped page |
| `Segments.CheckBoundsEmpty` | src/segment.cpp:149-165 | which empty ranges are accepted, exactly |
| `Segments.RunGrowthSound` | src/segment.cpp:77-139 | over every sequence of growth calls, failed ones included, sizes, bitmap and reservation stay consistent, and an accepted range stays accepted at its address |
| `Segments.ApplyExtends` | src/segment.cpp:77-139 | each growth call keeps the pages and limit there were |
| `Segments.GrowBytesExact` | src/segment.cpp:83-96 | succeeds exactly when the reservation suffices and the host maps the pages if any are needed; the limit rises by the size, new pages are mapped and just cover it |
| `Segments.GrowPagedExact` | src/segment.cpp:77-124 | succeeds exactly for at least one page within the reservation that the host maps |
| `Segments.SkipExact` | src/segment.cpp:126-139 | succeeds exactly within the reservation, maps nothing and leaves the limit |
| `Segments.CappedGrowthExact` | src/segment.cpp:98-103 | the limit rises by the size but not beyond 64 KiB, and never falls |
| `Segments.ExtendsKeepsBounds` | src/segment.cpp:149-171 | growth keeps every accepted range accepted |
| `Segments.Segment.Reserve` | src/segment.cpp:21-35 | an empty segment over the rounded reservation |
| `Segments.Segment.GrowPagedInternal` | src/segment.cpp:105-124 | adds at least one zeroed mapped page within the reservation, or fails unchanged |
| `Segments.Segment.SkipPaged` | src/segment.cpp:126-139 | adds unmapped pages, or fails unchanged |
| `Segments.Segment.GrowPages` | src/segment.cpp:77-81 | adds pages and moves the limit to their end |
| `Segments.Segment.Grow` | src/segment.cpp:83-96 | raises the limit by exactly the size, adding pages only when needed |
| `Segments.Segment.Grow64Capped` | src/segment.cpp:98-103 | raises the limit by the size, but not beyond 64 KiB; fails exactly when the growth that is left fails |
| `Segments.Segment.CheckRange` | src/segment.cpp:149-165 | the loop over pages decides check_bounds |
| `Segments.TranslateInside` | src/process.cpp:218-230 | every non-empty part of a range that translates, translates to the matching address |
| `Segments.TranslateJoin` | src/process.cpp:218-230 | adjacent ranges that translate, translate as one |
| `Segments.MakeSelector` | src/segment_descriptor.h:45-51 | a selector carries its id and the LDT bit |
| `Descriptors.RunKeepsInv` | src/main_handler.cpp:538-632 | in every run of alloc, realloc, flags, free and sharing on non-empty segments, each LDT entry, stale ones too, stays within its segment's pages |
| `Descriptors.PerformKeepsInv` | src/main_handler.cpp:538-632 | each such request keeps it, failed ones included |
| `Descriptors.UpdateFits` | src/segment_descriptor.cpp:18-49 | an update gives an entry that covers the whole limit within the pages exactly when the segment is not empty, and that allows what the access says |
| `Descriptors.EmptyEntryReaches` | src/segment_descriptor.cpp:26-29 | the entry of a segment of no bytes |
| `Descriptors.AllocEffect` | src/main_handler.cpp:538-562 | when an allocation succeeds, exactly, and what the new segment, descriptor and LDT entry are; nothing else changes |
| `Descriptors.AllocBytesExact` | src/main_handler.cpp:544-547 | 16-bit programs pass sizes of 17 bits |
| `Descriptors.ReallocStatus` | src/main_handler.cpp:564-594 | which answer a reallocation gets, exactly |
| `Descriptors.FreeEffect` | src/main_handler.cpp:596-611 | fails exactly for an unused selector, or else that descriptor is gone and all else stays |
| `Descriptors.FlagsEffect` | src/main_handler.cpp:613-632 | the entry allows what the two lowest flag bits say, in the bitness it had; all other entries stay |
| `Descriptors.ReallocCovers` | src/main_handler.cpp:564-594 | a reallocation that grows covers the new size through its own selector and leaves every other entry as it was |
| `Descriptors.SegmentTable.ProcSegmentAlloc` | src/main_handler.cpp:538-562 | a new segment of the size asked for under a selector that was free, with its size and address in the reply, or nothing changes |
| `Descriptors.SegmentTable.ProcSegmentRealloc` | src/main_handler.cpp:564-594 | EINVAL, EBUSY for shared segments, or the grown segment with its entry updated and its size and address in the reply |
| `Descriptors.SegmentTable.ProcSegmentFree` | src/main_handler.cpp:596-611 | the descriptor goes, entry and segment stay |
| `Descriptors.SegmentTable.ProcSegmentFlags` | src/main_handler.cpp:613-632 | changes the access and updates the entry; the reply carries the flags twice |
| `Descriptors.SegmentTable.CreateDescriptor` | src/process.cpp:249-252 | the lowest free id, installed in the LDT |
| `FlatLoaders.FlatLoader.Load` | src/loader.cpp:300-314 | succeeds exactly when LoadSucceeds says so; without wrap-around it tiles the segment as guard, stack, loader segments in order, heap; after every success the assertions of finalize_loading all hold exactly when no sum wrapped |
| `FlatLoaders.LoadSucceedsIff` | src/loader.cpp:97-117 | without wrap-around: the stack leaves room for a guard page, stack, image and heap are not empty, and all fits the reservation |
| `FlatLoaders.WrappedLoadHappens` | src/loader.cpp:86-93 | sixteen segments of 256 MiB and one page wrap around and load |
| `FlatLoaders.WordSplits` | src/loader.cpp:305-310 | a segment word is 4 bits of access and 28 bits of size |
| `FlatLoaders.FlatLoader.PrepareSegments` | src/loader.cpp:80-84 | positions start at the rounded image base |
| `FlatLoaders.FlatLoader.AllocSegment` | src/loader.cpp:86-95 | the segment takes the current position, which moves by whole pages and wraps |
| `FlatLoaders.FlatLoader.FinalizeSegments` | src/loader.cpp:97-125 | the built segment and the exact conditions for the panic and for running out of memory, wrap-around included |
| `FlatLoaders.GuardedBounds` | src/loader.cpp:109-116 | check_bounds accepts exactly the non-empty ranges between guard and end |
| `FlatLoaders.FlatLoader.FinalizeLoading` | src/loader.cpp:127-133 | goes through exactly when check_bounds accepts every loader segment |
| `FlatLoaders.InOrderProtected` | src/loader.cpp:127-133 | segments in order between guard and heap are all accepted, empty ones too |

## Left out

- Startup.BuildSpawn: does not push the stack environment; fields of the header other than type and counts are not stated.
- Startup.StartupSbrk.PushString: requires that offsets stay below 2^32; beyond that the copy would leave the segment.
- MessageAccess.Msg.WriteData: requires that the reply parts do not lie in the part table they are read from, since 32-bit tables are used in place.
- MessageAccess.WriteIsSplice: requires that no two parts of the reply share memory; `WriteExact` says what happens when they do.
- Emulators.Emu.SignalTail: requires that the frame does not overlap the guest's own signal table, from which handler and stub are read after the pushes.
- Emulators.Emu.SignalTail: synchronising the host's signal mask, the time selector and logging are left out.
- SignalRuns.RunKeepsInv: the segment table is fixed during one step of the emulator; guest code may change it while live frames stay in place.
- Segments.Segment.Reserve: relies on MAP_32BIT, which grants at most 2^31 bytes; `reserve_at` and `map_prot` are left out.
- Descriptors.RunKeepsInv: segments are named by index, so sharing is two descriptors with one index; reference counts are not modelled, and modify_ldt is taken to succeed.
- Descriptors.RunKeepsInv: holds for non-empty segments only, and `UpdateFits` says what happens for empty ones.
- FlatLoaders.FlatLoader.Load: reading the file, relocation, the entry point and the loader for segmented programs are left out; the heap size must be page aligned, as the code asserts.
- PathMappers.PathMapper.MapPathToQnx: requires that the picked mapping has absolute paths, as the code asserts.
- PathMappers.PathMapper.MapPathToHost: requires the same, and a path at least as long as the picked prefix, which only the empty path is not.
- PathMappers.PathMapper.Add: takes the option already split into its fields; command-line parsing is left out.
- PidMaps.PidMap.Search: takes host pids from -32748 on, which covers all that exist; `qnx_valid_host` on an unknown pid is left out.
- PidMaps.ForkAgrees: requires that the new process's host pid is not known yet, as the code asserts in the parent; the pid fields of the magic segment are left out.
- TerminalFilters.TerminalFilter.Process: the polling loop of `common_read` around it is left out.
- Timespecs.Arithmetic: fields are unbounded; negative times keep their total but not the normal form.
- IdMaps.IdMap.AllocAny: `alloc_or_get_at` is left out.
- Handlers that forward one message to one host call, translation of error numbers and flags, semaphores, timers and terminal settings: each is a table or a single call without state of its own.
- `FdMap`: its collision branch passes a file descriptor where an index is meant and reads a value after moving it.
- `Deadline::operator|=`: compares truth values, not times, so it does not keep the nearer deadline.
- CPU state, thread-local storage, real LDT system calls, disassembly dumps and host signal registration: hardware or foreign effects.
