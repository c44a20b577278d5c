# Scoped symbol table, alarm, synchronized console, source cursor and AST equality

A Dafny model of five small components of two teaching code bases:

- **Triangle's identification table** (`ContextualAnalyzer`): a block-structured symbol
  table. Its chain of `(name, attr, level, previous)` entries is a sequence, latest first.
  `OpenScope`, `CloseScope`, `Enter` and `Retrieve` are methods of the class
  `IdentificationTable`. They are proved against pure functions of the abstract state
  `Table(level, entries)`. The invariant `Nested` is kept by every operation: levels never
  increase along the chain and never exceed the current level.
- **The NachOS alarm** (`Threads`): a wake table from thread handles to wake ticks. The
  current tick and the calling thread are parameters, and a ghost log records the threads
  the timer interrupt readies.
- **The NachOS synchronized console** (`UserProg`): the semaphores are counters and the
  availability flag is a boolean. The serial device is a queue of received bytes plus a log
  of sent bytes. The inner `File` class is `ConsoleFile`.
  - A read whose `P` finds no signal pending waits. The byte whose receive interrupt ends
    that wait is a parameter of the call.
  - `writeByte`'s send-complete interrupt is delivered while the writer waits in `P`.
  - The trace function `Run` is proved to conserve bytes over any interleaving of byte arrivals and
    single-byte reads.
  - A blocking read that waits leaves the availability flag set with nothing pending, so the
    next non-blocking read waits too (see "## Findings").
- **Triangle's source cursor** (`SyntacticAnalyzer`): the buffered stream is a byte
  sequence read at a position. `EOT` marks the end of input, and the line number is kept
  equal to 1 + the number of `EOL` bytes consumed.
- **Triangle's structural equality** (`AbstractSyntaxTrees`): `equals` of record field lists,
  function parameters and procedure parameters. The equalities of type denoters,
  single-field lists and parameter sequences are defined elsewhere in that code base. Here
  they are function-valued parameters (`Equalities`). Reflexivity and symmetry are proved
  under the assumption that those component equalities have them.

Two modelling choices follow the alarm's code:

- The timer interrupt walks a `HashMap`, whose iteration order is unspecified, so
  `TimerInterrupt` picks the expired entries in any order. No order among threads with
  equal wake times is promised.
- Wake times are the code's signed `long` ticks, modelled as `int`.

## Model

| member | source | states |
|---|---|---|
| `ContextualAnalyzer.IdentificationTable.constructor` | plpj/Triangle/src/main/java/Triangle/ContextualAnalyzer/IdentificationTable.java:27-30 | a new table is at level 0 with an empty chain, and satisfies the invariant |
| `ContextualAnalyzer.Empty` | plpj/Triangle/src/main/java/Triangle/ContextualAnalyzer/IdentificationTable.java:27-30 | the initial state is nested, at level 0, with no entries |
| `ContextualAnalyzer.Opened` | plpj/Triangle/src/main/java/Triangle/ContextualAnalyzer/IdentificationTable.java:36-38 | opening a scope raises the level by exactly one, leaves the chain unchanged and keeps the invariant |
| `ContextualAnalyzer.IdentificationTable.OpenScope` | plpj/Triangle/src/main/java/Triangle/ContextualAnalyzer/IdentificationTable.java:36-38 | the new state is `Opened` of the old one and the invariant holds |
| `ContextualAnalyzer.Closed` | plpj/Triangle/src/main/java/Triangle/ContextualAnalyzer/IdentificationTable.java:44-58 | closing needs an entry below the current level (the chain walk has no null check); it lowers the level by one and leaves exactly the lower-level entries in chain order, still nested |
| `ContextualAnalyzer.DropLevelIsBelow` | plpj/Triangle/src/main/java/Triangle/ContextualAnalyzer/IdentificationTable.java:50-58 | walking past the entries at the current level leaves exactly the entries of lower levels, and that chain is nested one level down |
| `ContextualAnalyzer.SkipLevel` | plpj/Triangle/src/main/java/Triangle/ContextualAnalyzer/IdentificationTable.java:50-55 | the walk from `latest` stops at the first entry whose level differs, having passed only entries at the current level; what remains is `DropLevel` of the chain |
| `ContextualAnalyzer.IdentificationTable.CloseScope` | plpj/Triangle/src/main/java/Triangle/ContextualAnalyzer/IdentificationTable.java:44-58 | lowers the level and keeps the chain from where the walk stops; the new state is `Closed` of the old one |
| `ContextualAnalyzer.WithEntry` | plpj/Triangle/src/main/java/Triangle/ContextualAnalyzer/IdentificationTable.java:92-94 | entering always prepends one entry at the current level, duplicate or not; the older chain is untouched and the invariant is kept |
| `ContextualAnalyzer.IdentificationTable.Enter` | plpj/Triangle/src/main/java/Triangle/ContextualAnalyzer/IdentificationTable.java:67-95 | `attr.duplicated` is set iff an entry with that name exists at the current level, found by a search that stops at the first lower-level entry; the new state is `WithEntry` of the old |
| `ContextualAnalyzer.EnterAllNested` | plpj/Triangle/src/main/java/Triangle/ContextualAnalyzer/IdentificationTable.java:67-95 | any series of entries keeps the invariant |
| `ContextualAnalyzer.Lookup` | plpj/Triangle/src/main/java/Triangle/ContextualAnalyzer/IdentificationTable.java:97-128 | the result is null iff no entry has the name; otherwise it is the attribute of the first (most recent) entry with that name |
| `ContextualAnalyzer.IdentificationTable.Retrieve` | plpj/Triangle/src/main/java/Triangle/ContextualAnalyzer/IdentificationTable.java:104-128 | the searching loop returns `Lookup` of the chain |
| `ContextualAnalyzer.LookupIsInnermost` | plpj/Triangle/src/main/java/Triangle/ContextualAnalyzer/IdentificationTable.java:97-102 | in a nested table the entry found has the highest level among the entries for that name |
| `ContextualAnalyzer.EnterThenLookup` | plpj/Triangle/src/main/java/Triangle/ContextualAnalyzer/IdentificationTable.java:92-125 | a new entry shadows older ones with the same name and leaves every other name's binding unchanged |
| `ContextualAnalyzer.OpenEnterClose` | plpj/Triangle/src/main/java/Triangle/ContextualAnalyzer/IdentificationTable.java:36-94 | opening a scope, entering any declarations and closing again restores the table exactly, if the chain was non-empty |
| `ContextualAnalyzer.OpenCloseInverse` | plpj/Triangle/src/main/java/Triangle/ContextualAnalyzer/IdentificationTable.java:36-58 | with nothing entered in between, closeScope undoes openScope |
| `Threads.Alarm.constructor` | ospa/NachOS/threads/Alarm.java:20-21 | the wake table starts empty |
| `Threads.Register` | ospa/NachOS/threads/Alarm.java:81-86 | for x <= 0 the table is unchanged; for x > 0 the thread maps to now + x, replacing an earlier deadline, and other entries keep theirs |
| `Threads.Alarm.WaitUntil` | ospa/NachOS/threads/Alarm.java:74-93 | the table becomes `Register` of the old one at the caller's tick; nothing is readied |
| `Threads.ReRegisterReplaces` | ospa/NachOS/threads/Alarm.java:86 | a second registration of the same thread overrides the first (`HashMap.put`) |
| `Threads.Expired` | ospa/NachOS/threads/Alarm.java:45-48 | the threads readied at tick now are exactly the entries whose deadline is <= now |
| `Threads.Pending` | ospa/NachOS/threads/Alarm.java:40-50 | after the scan exactly the other entries remain, each with its deadline unchanged and > now |
| `Threads.Alarm.TimerInterrupt` | ospa/NachOS/threads/Alarm.java:35-60 | the scan (in any order) leaves `Pending` of the old table and readies each thread of `Expired` exactly once, appending it to the log |
| `Threads.InterruptIdempotent` | ospa/NachOS/threads/Alarm.java:47-48 | a second interrupt at the same tick readies nothing and leaves the table as it is |
| `Threads.FirstLateEnoughInterrupt` | ospa/NachOS/threads/Alarm.java:40-50 | an entry survives, with its exact deadline, every interrupt whose tick is before that deadline |
| `Threads.NotWokenEarly` | ospa/NachOS/threads/Alarm.java:62-68 | a thread registered with waitUntil(x) at tick now is readied only by an interrupt at tick >= now + x, whatever interrupts came between the registration and that one |
| `UserProg.Initial` | ospa/NachOS/src/main/java/nachos/userprog/SynchConsole.java:15-20 | the console starts with no byte flagged, both semaphores at 0 and an idle device, satisfying the invariant |
| `UserProg.SynchConsole.constructor` | ospa/NachOS/src/main/java/nachos/userprog/SynchConsole.java:15-43 | a new console is in the `Initial` state |
| `UserProg.Receive` | ospa/NachOS/src/main/java/nachos/userprog/SynchConsole.java:83-86 | an arriving byte is queued, sets the flag and raises the read semaphore by exactly one; the invariant is kept |
| `UserProg.SynchConsole.ReceiveInterrupt` | ospa/NachOS/src/main/java/nachos/userprog/SynchConsole.java:83-86 | the new state is `Receive` of the old one |
| `UserProg.Read` | ospa/NachOS/src/main/java/nachos/userprog/SynchConsole.java:54-72 | with block or the flag set and a signal pending: clears the flag, takes one semaphore unit and returns the next queued byte (0..255); with block or the flag set and no signal pending: waits, and returns the byte whose arrival wakes it, leaving the flag set and the queue as it was; otherwise returns -1 and changes nothing |
| `UserProg.SynchConsole.ReadByte` | ospa/NachOS/src/main/java/nachos/userprog/SynchConsole.java:54-72 | the result and the new state are those of `Read`, the wait running the receive interrupt for the waking byte |
| `UserProg.Write` | ospa/NachOS/src/main/java/nachos/userprog/SynchConsole.java:93-98 | the value is handed to the device exactly once; the write semaphore ends where it started and the read side is untouched |
| `UserProg.SynchConsole.WriteByte` | ospa/NachOS/src/main/java/nachos/userprog/SynchConsole.java:93-98 | the new state is `Write` of the old one |
| `UserProg.SendDone` | ospa/NachOS/src/main/java/nachos/userprog/SynchConsole.java:109-111 | the send-complete handler raises the write semaphore by one and changes nothing else |
| `UserProg.SynchConsole.SendInterrupt` | ospa/NachOS/src/main/java/nachos/userprog/SynchConsole.java:109-111 | the new state is `SendDone` of the old one |
| `UserProg.Run` | ospa/NachOS/src/main/java/nachos/userprog/SynchConsole.java:54-86 | for any interleaving of arrivals and reads, the bytes queued before plus those the device received (including those that woke a waiting read) equal the bytes the reads returned followed by those still queued |
| `UserProg.NoWaitReceivesArrivals` | ospa/NachOS/src/main/java/nachos/userprog/SynchConsole.java:83-86 | a run of arrivals alone receives exactly its arriving bytes, in order, and queues them all |
| `UserProg.NonBlockingMissIsInvisible` | ospa/NachOS/src/main/java/nachos/userprog/SynchConsole.java:59-67 | a non-blocking read that finds no byte flagged returns -1, and a blocking read after it behaves as if it had not happened |
| `UserProg.HintMissesQueuedByte` | ospa/NachOS/src/main/java/nachos/userprog/SynchConsole.java:45-67 | the flag is only a hint: after two arrivals and one read, a non-blocking read returns -1 while a byte is queued, and a blocking read then returns it |
| `UserProg.StaleHintAfterWokenRead` | ospa/NachOS/src/main/java/nachos/userprog/SynchConsole.java:59-61 | from the initial state, a blocking read woken by byte b returns b but leaves the flag set with no signal pending, so the following `readByte(false)` waits and returns a later byte instead of -1 |
| `UserProg.ReadCorrected` | ospa/NachOS/src/main/java/nachos/userprog/SynchConsole.java:45-72 | readByte with the flag cleared after `P`: agrees with `Read` whenever the call does not wait, returns the waking byte with the flag clear when it does, and keeps the flag sound (set only while a signal is pending) |
| `UserProg.CorrectedWokenReadThenMiss` | ospa/NachOS/src/main/java/nachos/userprog/SynchConsole.java:45-52 | with the corrected read, the same woken read is followed by a non-blocking read that returns -1 without waiting |
| `UserProg.CorrectedHintStaysSound` | ospa/NachOS/src/main/java/nachos/userprog/SynchConsole.java:45-52 | with a sound flag a non-blocking read never waits; the initial state, arrivals, writes, send completions and corrected reads all keep the flag sound |
| `UserProg.SynchConsole.OpenForReading` | ospa/NachOS/src/main/java/nachos/userprog/SynchConsole.java:79-81 | returns a fresh read-only endpoint on this console |
| `UserProg.SynchConsole.OpenForWriting` | ospa/NachOS/src/main/java/nachos/userprog/SynchConsole.java:105-107 | returns a fresh write-only endpoint on this console |
| `UserProg.ConsoleFile.constructor` | ospa/NachOS/src/main/java/nachos/userprog/SynchConsole.java:116-121 | the endpoint records its console and its two permissions |
| `UserProg.ConsoleFile.Close` | ospa/NachOS/src/main/java/nachos/userprog/SynchConsole.java:123-125 | after close the endpoint can neither read nor write, so both later return 0 |
| `UserProg.ConsoleFile.Read` | ospa/NachOS/src/main/java/nachos/userprog/SynchConsole.java:127-139 | returns 0 without touching anything when not readable. Otherwise: with a byte flagged and a signal pending it copies that one queued byte and clears the flag; with the flag set and nothing pending every read waits, so it copies `length` waking bytes in order and leaves the console as it was; with no byte flagged it copies nothing. The count is exact, the rest of buf is unchanged, and the write side is untouched |
| `UserProg.ConsoleFile.Write` | ospa/NachOS/src/main/java/nachos/userprog/SynchConsole.java:141-147 | returns 0 and sends nothing when not writable; otherwise sends buf[offset..offset+length) in order and returns length |
| `SyntacticAnalyzer.SourceFile.constructor` | plpj/Triangle/src/main/java/Triangle/SyntacticAnalyzer/SourceFile.java:31-45 | a successful open starts at the first byte, line 1; a failed open leaves no stream and line 0 |
| `SyntacticAnalyzer.SourceFile.FromSnippet` | plpj/Triangle/src/main/java/Triangle/SyntacticAnalyzer/SourceFile.java:47-61 | reading a snippet starts at its first byte, line 1; a null snippet, whose encoding throws and is caught, leaves no stream and line 0 |
| `SyntacticAnalyzer.NextChar` | plpj/Triangle/src/main/java/Triangle/SyntacticAnalyzer/SourceFile.java:72-75 | the next character is the byte at the position, or EOT at the end of input |
| `SyntacticAnalyzer.LinesSnoc` | plpj/Triangle/src/main/java/Triangle/SyntacticAnalyzer/SourceFile.java:77-79 | consuming one more byte adds one to the line count exactly when it is EOL |
| `SyntacticAnalyzer.SourceFile.GetSource` | plpj/Triangle/src/main/java/Triangle/SyntacticAnalyzer/SourceFile.java:69-90 | returns `NextChar`; advances by exactly one except at the end, where it keeps returning EOT; the line grows by one exactly on EOL, so it stays 1 + the EOLs consumed |
| `SyntacticAnalyzer.SourceFile.GetProbe` | plpj/Triangle/src/main/java/Triangle/SyntacticAnalyzer/SourceFile.java:95-112 | returns the character the next `GetSource` returns, moving nothing |
| `SyntacticAnalyzer.SourceFile.GetCurrentLineNumber` | plpj/Triangle/src/main/java/Triangle/SyntacticAnalyzer/SourceFile.java:114-116 | returns the current line without side effects: 1 + the EOLs consumed, or 0 if the open failed |
| `AbstractSyntaxTrees.FieldEquals` | plpj/Triangle/src/main/java/Triangle/AbstractSyntaxTrees/MultipleFieldTypeDenoter.java:43-56 | a multiple-field list equals only a multiple-field list with the same first spelling and an equal first type |
| `AbstractSyntaxTrees.MultipleFieldRejectsOthers` | plpj/Triangle/src/main/java/Triangle/AbstractSyntaxTrees/MultipleFieldTypeDenoter.java:46-55 | equals is false for null and for every object that is not a multiple-field list |
| `AbstractSyntaxTrees.FieldEqualsIff` | plpj/Triangle/src/main/java/Triangle/AbstractSyntaxTrees/MultipleFieldTypeDenoter.java:49-51 | against a multiple-field list, equality holds exactly when the first spellings agree, the first types are equal and the rests are equal, in both directions |
| `AbstractSyntaxTrees.EveryComponentMatters` | plpj/Triangle/src/main/java/Triangle/AbstractSyntaxTrees/MultipleFieldTypeDenoter.java:21-51 | a difference in the first name, the first type or the rest's equality makes two lists unequal |
| `AbstractSyntaxTrees.FieldOrderMatters` | plpj/Triangle/src/main/java/Triangle/AbstractSyntaxTrees/MultipleFieldTypeDenoter.java:49-51 | two fields with different names swapped give an unequal record type |
| `AbstractSyntaxTrees.FieldEqualsReflexive` | plpj/Triangle/src/main/java/Triangle/AbstractSyntaxTrees/MultipleFieldTypeDenoter.java:49-51 | every field list equals itself when type and single-field equality are reflexive |
| `AbstractSyntaxTrees.FieldEqualsSymmetric` | plpj/Triangle/src/main/java/Triangle/AbstractSyntaxTrees/MultipleFieldTypeDenoter.java:49-51 | field-list equality is symmetric when type and single-field equality are symmetric and a single field equals only single fields |
| `AbstractSyntaxTrees.FuncParamEquals` | plpj/Triangle/src/main/java/Triangle/AbstractSyntaxTrees/FuncFormalParameter.java:46-57 | a function parameter equals only function parameters |
| `AbstractSyntaxTrees.FuncAndProcDiffer` | plpj/Triangle/src/main/java/Triangle/AbstractSyntaxTrees/FuncFormalParameter.java:49-56 | a function parameter and a procedure parameter are unequal, whichever is the receiver |
| `AbstractSyntaxTrees.FuncParamEqualsIff` | plpj/Triangle/src/main/java/Triangle/AbstractSyntaxTrees/FuncFormalParameter.java:52 | two function parameters are equal iff their parameter sequences and result types are equal |
| `AbstractSyntaxTrees.FuncNameIgnored` | plpj/Triangle/src/main/java/Triangle/AbstractSyntaxTrees/FuncFormalParameter.java:52 | changing the name of either function parameter does not change the result |
| `AbstractSyntaxTrees.FuncResultTypeMatters` | plpj/Triangle/src/main/java/Triangle/AbstractSyntaxTrees/FuncFormalParameter.java:52 | an unequal result type alone makes two function parameters unequal |
| `AbstractSyntaxTrees.FuncParamEqualsReflexiveSymmetric` | plpj/Triangle/src/main/java/Triangle/AbstractSyntaxTrees/FuncFormalParameter.java:52 | reflexive and symmetric whenever sequence and type equality are |
| `AbstractSyntaxTrees.ProcParamEquals` | plpj/Triangle/src/main/java/Triangle/AbstractSyntaxTrees/ProcFormalParameter.java:39-49 | a procedure parameter equals only procedure parameters |
| `AbstractSyntaxTrees.ProcParamEqualsIff` | plpj/Triangle/src/main/java/Triangle/AbstractSyntaxTrees/ProcFormalParameter.java:44 | two procedure parameters are equal iff their parameter sequences are equal |
| `AbstractSyntaxTrees.ProcNameIgnored` | plpj/Triangle/src/main/java/Triangle/AbstractSyntaxTrees/ProcFormalParameter.java:44 | changing the name of either procedure parameter does not change the result |
| `AbstractSyntaxTrees.ProcParamEqualsReflexiveSymmetric` | plpj/Triangle/src/main/java/Triangle/AbstractSyntaxTrees/ProcFormalParameter.java:44 | reflexive and symmetric whenever sequence equality is |

## Left out

- Interrupt disabling and restoring, `Lock.acquire`/`release`, and `KThread.sleep`/`ready`/`yield`: these are scheduling and concurrency. Their code is not part of this model. Readied threads are recorded in a ghost log instead.
- Real blocking in `Semaphore.P`: a read's `P` that waits is ended by exactly one receive interrupt, for the byte given as the call's `arrival`. Several bytes arriving during one wait are not modelled. For `writeByte`, the completion interrupt that ends the wait is delivered inside the call.
- Registering the timer and console interrupt handlers in the `Alarm` and `SynchConsole` constructors: this is callback plumbing. The handlers are ordinary methods here.
- `Alarm.alarmTest1`, `alarmTest2` and `selfTest`: they only print timer readings.
- `IdentificationTable.display` and the `debug` printing in `SourceFile`: console output.
- The clock: `Machine.timer().getTime()` is the `now` parameter, and the current thread is the `current` parameter.
- Threads.Register: does not model 64-bit overflow of `getTime() + x`, which the source computes in `long` arithmetic.
- Java `int` overflow of the identification table's `level` (incremented by `openScope`) and of `SourceFile.currentLine` (incremented on each EOL): both are unbounded `nat`/`int` here, so a wrap-around after 2^31 - 1 scopes or lines is not modelled.
- File and stream I/O in `SourceFile`: `FileInputStream`, `mark`/`reset` and the `IOException` paths that return `EOT` are left out. The input is a byte sequence plus an "open" flag. The snippet constructor takes the snippet's UTF-8 bytes, so the encoding itself is not modelled.
- SyntacticAnalyzer.SourceFile.GetSource: requires an open source. The source dereferences a null stream there and throws; the model has no such error path. The same holds for `GetProbe`.
- Java `byte`/`char` casts: all bytes are 0..255. The `(byte) value` store in `File.read` and the sign extension of `buf[i]` passed to `writeByte` are not modelled, and neither are the "upper 24 bits" that `writeByte` ignores.
- UserProg.ConsoleFile.Read: requires enough waking bytes in `arrivals` when every read waits; the source then blocks until that many bytes arrive. It also requires the whole range `buf[offset..offset+length)` to be in bounds. The source only faults when a byte actually lands outside the array.
- UserProg.ConsoleFile.Write: requires the whole range `buf[offset..offset+length)` to be in bounds.
- UserProg.ConsoleFile.Read: does not model bytes that arrive between its iterations without waking a waiting read. With such arrivals the source could copy more than one queued byte; here a call that does not wait copies at most one, because the first successful non-blocking read clears the availability flag. `Run` covers arrivals interleaved with single reads.
- The `equals` of `TypeDenoter`, `SingleFieldTypeDenoter`, `FormalParameterSequence` and the other AST classes: their code is not part of this model. They are the abstract `Equalities` parameter.
- `visit` methods, the AST constructors, `VarDeclaration`, `SingleRecordAggregate`, the elevator controller interface, `VMKernel` and the interrupt handler interface: these hold no logic.

## Findings

| source | as written | input that shows it | evidently intended | confidence | as-written member | corrected member |
|---|---|---|---|---|---|---|
| ospa/NachOS/src/main/java/nachos/userprog/SynchConsole.java:59-61 | `readByte` clears `charAvailable` before `readWait.P()`. When that `P` waits, the receive interrupt that wakes it sets the flag again, and nothing clears it. | from a fresh console, `readByte(true)` woken by one byte, then `readByte(false)` with nothing received: the second call waits in `P` | `readByte(false)` returns -1 at once when no byte is available (lines 45-52), so the flag should be cleared once the signal has been taken | not executed | `UserProg.StaleHintAfterWokenRead` | `UserProg.ReadCorrected` |

`SynchConsole.ReadByte` and `ConsoleFile.Read` model the code as written. Their contracts describe the stale flag, including a `File.read` that waits for `length` bytes. `ReadCorrected`, `CorrectedWokenReadThenMiss` and `CorrectedHintStaysSound` state what the corrected read guarantees.
