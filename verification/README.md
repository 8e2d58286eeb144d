# agentx-subagent: verified model

A Dafny 4.11 model of the SNMP AgentX subagent's storage, table, Set, IPC,
startup and alarm logic, with proofs of what its parts promise together. Check
it with `dafny verify dfyconfig.toml`.

The subagent keeps SNMP scalars and conceptual tables in two key/value
environments, `config` (persistent) and `cache` (volatile). A cell's key is
`<column>.<instance>`; a table has no schema, its rows are whatever instances
the key space holds.

| module | models |
| --- | --- |
| `Types`, `Lex` | machine widths and return codes; lexicographic order, which is both LMDB's key order and SNMP's instance order (section 4.2.2 of RFC 3416) |
| `Instances`, `TableKeys`, `RustTableKeys` | row instances and cell keys: the specification, the C functions over buffers, the Rust functions |
| `Storage`, `RowSets`, `Utf8`, `RustTable` | prefix iteration, the growable row set and its load, the Rust row discovery and the text its keys must be |
| `Codec` | the C accessors and the Rust value codec over the same bytes |
| `Objects` | the writable objects: names, environment, syntax |
| `SetPhases`, `SetHandler`, `SetAtomicity` | the Set phases, request by request and over request lists, and their all-or-nothing rule |
| `Bootstrap`, `Provisioning` | startup seeding and what it does to objects and rows |
| `ConfigIpc`, `WritePaths` | the IPC config allowlist and its two requests, against the SNMP path |
| `Alarm` | the hysteresis alarm |
| `Agent`, `AgentTypes`, `AgentRows`, `AgentSets`, `AgentAlarm`, `AgentRestart` | the whole agent as a state machine over any event sequence, and its whole-run properties |
| `Framing`, `IpcServer`, `IpcProtocol`, `IpcSession`, `RequestIds` | the length-prefix grammar, the client buffer, the eight-slot server, request/response pairing, what a read answers after a write, request ids |
| `Telemetry` | row-wise writes by the Rust application and loads concurrent with them |

## Assumptions

- Single-writer rule (README.md:28-41): in the model's `Agent` the telemetry
  application writes any key of `cache` except those of the volatile writable
  objects, and no key of `config`.
- LMDB hands out keys in memcmp-then-length order; a transaction is an atomic
  update of a map that may fail; a get of a key yields its value or not-found.
- `qsort` and Rust's `sort` yield an ordered permutation; `RowSets.SortIsAnySort` shows there is only one.
- net-snmp accepts as an index of portConfigTable exactly the instances of one
  sub-identifier (its INDEX is one Unsigned32), and drives the phases as
  section 7.2.4 of RFC 2741 does: an error in a reserve phase leads to FREE, an
  error in ACTION to UNDO, and another handler's error can lead there too.
- A wire envelope is an abstract `encode`/`decode` pair. Where a result needs
  it, it is assumed that a client's own requests decode to themselves and fit a
  frame, and that response envelopes, whose values are at most 256 bytes long,
  decode to themselves and fit the server's 1024-byte send buffer (nanopb bounds
  every envelope by 433 bytes). Sends succeed.
- A client connection ends with a frame the server closes on; whether it closes
  is decided by the frame alone, because under the bound above no response
  overflows the send buffer (`IpcProtocol.HandleFrame`).

## Results that differ from what a reader might expect

- `table_rows.h` says the 128 sub-identifier cap "bites first" for long string
  indexes. It never does inside a 255-byte key: `Instances.KeyFitsCaps` bounds
  those instances by 127. Beyond 255 bytes the C and Rust row lists can differ.
- `table_rows` promises to skip a malformed key "exactly as the subagent skips"
  it. It does not when the key is not UTF-8: Rust's key type makes the whole call
  an error, where C counts the key as skipped (`RustTable.ForeignKeyHidesRows`).
  C alone refuses an empty column list, an empty column and one longer than 254
  bytes (`RustTable.RefusedColumns`). `RustTable.RowsAgreeIff` and
  `RustTable.RowsAgreeWithinLimit` say exactly when both return the same rows.
- UNDO of a scalar whose key was absent writes 0 or an empty string instead of
  removing it; `SetAtomicity.UndoRestoresReports` is an equivalence with that
  as its only exception. `AgentSets.UndoneRunRestores` shows that the exception
  never arises in the running agent.
- The C getters accept reserved bytes and trailing payload that Rust rejects, so
  UNDO restores what every accessor reports, and the raw bytes exactly when they
  were canonical (`SetAtomicity.UndoRestoresBytesIff`, `Codec.LenientIff`).
- What others write or delete between RESERVE2 and UNDO under an object of the Set
  is lost, before ACTION or after it, exactly unless UNDO happens to restore the
  same (`SetAtomicity.InterleavedWriteIsLost`).
- UNDO does not take back the alarm checks that ACTION makes at the thresholds it
  writes. `AgentAlarm.AlarmOutlivesUndo` says exactly when the alarm is
  nevertheless unchanged; `AgentAlarm.AlarmNotUndone` runs a new device to a
  refused Set that raises the alarm and to one that clears it.
- `write_frame` sends an empty payload as a zero length, on which the server
  hangs up: `Framing.StreamDeliveredIff`.
- SNMP GET (64-byte buffer) and IPC read (256-byte buffer) would disagree on a
  stored deviceName of 65 to 256 bytes (`ConfigIpc.GetAndReadAgreeIff`); no
  writer produces one (`AgentTypes.RunReadsAgree`).

## Model

| member | source | states |
|---|---|---|
| Instances.ParseOfDotted | src/table_rows.c:26-104 | parsing the printed form of an instance gives the instance back |
| Instances.DottedOfParse | src/table_rows.c:26-104 | whatever parses prints back to the same text, so only one spelling of an instance is accepted |
| Instances.CellTextInjective | src/table_rows.c:106-132 | across dot-free columns and all instances, distinct cells have distinct keys |
| Instances.KeyFitsCaps | include/table_rows.h:40-46 | an instance inside a 255-byte key has at most 127 sub-identifiers, so the cap of 128 cannot fire |
| Instances.InstanceUnderIff | rust-app/src/storage/table.rs:78-98 | a key carries an instance under a column exactly when it is that cell's key |
| Instances.SpelledAsDocumented | include/table_rows.h:69-73 | the spelling itself: "3", "2.7", "portDescr.10" |
| TableKeys.InstanceFormat | src/table_rows.c:26-49 | in-place formatting: INVAL, TOOBIG or OK exactly when, for every buffer size, with 128 as the cap; the text NUL-terminated inside the buffer, bytes before the offset untouched |
| TableKeys.FormatBufferSufficient | src/table_rows.c:26-49 | 1408 bytes hold every representable instance |
| TableKeys.ScanDigits | src/table_rows.c:69-75 | the digit loop stops at the 32-bit bound, so its 64-bit accumulator cannot overflow |
| TableKeys.InstanceParse | src/table_rows.c:51-104 | the one-pass parser equals split, decode each part, at most 128 parts |
| TableKeys.ParseExact | include/table_rows.h:77-89 | the C parser returns an instance exactly when the text is its printed form and it has 1 to 128 sub-identifiers |
| TableKeys.TableCellKey | src/table_rows.c:106-132 | INVAL, TOOBIG or OK exactly when, for every column, instance and buffer size, with 255 as the key limit; the key bytes on success |
| TableKeys.BuiltKeysValid | src/storage_lmdb.c:96-110 | key validation takes every key so built and turns away only empty keys and those over 255 bytes |
| TableKeys.InstanceCompare | src/table_rows.c:134-148 | negative or positive as the first difference, or a proper prefix, decides; 0 exactly on equality |
| RustTableKeys.CellKey | rust-app/src/storage/table.rs:48-71 | which of the four errors, or the key, for every input |
| RustTableKeys.ParseInstance | rust-app/src/storage/table.rs:83-98 | the Rust parser is the same parse without the cap |
| RustTableKeys.CellKeysAgree | rust-app/src/storage/table.rs:20-26 | with a 256-byte buffer C and Rust build a key for the same inputs on dot-free columns, with the same bytes; exactly on dotted columns may C alone succeed |
| RustTableKeys.ParsersAgree | rust-app/src/storage/table.rs:73-77 | the two parsers agree on every text that fits in a 255-byte key behind a column and its dot |
| RustTableKeys.ParsersDiffer | rust-app/src/storage/table.rs:83-98 | and differ on the printed form of every instance beyond 128 components, which only Rust accepts |
| Lex.PrefixConvex | src/storage_lmdb.c:1024-1031 | every key between a prefix and a carrier of it carries it: the reason a prefix range is contiguous |
| Lex.AscendingUnique | src/table_rows.c:247-257 | an ascending sequence is determined by its elements |
| Lex.LessIff | src/table_rows.c:134-148 | the order is first difference, a proper prefix first |
| Storage.CarriersEnd | src/storage_lmdb.c:1024-1031 | after the first key at or past the prefix that does not carry it, no key carries it |
| Storage.Iter.Next | src/storage_lmdb.c:982-1036 | each call yields the next prefixed key in order, then NOTFOUND for ever; an LMDB error is returned as itself and not latched, and wherever the cursor resumes after one only prefixed keys come out |
| Storage.Drain | src/storage_lmdb.c:945-1036 | draining an iterator is filtering the keys by prefix |
| Storage.CarriersExact | include/storage_lmdb.h:148-160 | what it yields is exactly the present keys that start with the prefix, each before the next by first difference |
| RowSets.RowSet.Push | src/table_rows.c:159-173 | appends one row, through array growth |
| RowSets.RowSet.LoadColumn | src/table_rows.c:175-224 | pushes the parsed rows of one column and counts every other scanned key as skipped, or reports the argument or LMDB error |
| RowSets.RowSet.Dedup | src/table_rows.c:250-256 | in-place compaction leaves a strictly ascending sequence with the same elements |
| RowSets.SortIsAnySort | src/table_rows.c:247-248 | the sorted sequence is the only ordered permutation, so the load does not depend on which sort is used |
| RowSets.Load | src/table_rows.c:226-261 | a successful load is exactly the present rows, each before the next by first difference, with pushed plus skipped equal to scanned, whatever LMDB did; without LMDB errors only bad arguments fail |
| RowSets.RowSequenceUnique | src/table_rows.c:226-261 | the row sequence depends only on which rows are present |
| RowSets.RowReachable | include/table_rows.h:81-87 | in a store with keys of at most 255 bytes a row is enumerated exactly when the key rebuilt for it is present under some column |
| RustTable.KeysWithPrefix | rust-app/src/storage/mod.rs:123-131 | the prefixed keys in order, or an error exactly when one of them is not UTF-8 |
| RustTable.TableRows | rust-app/src/storage/table.rs:142-154 | an error exactly when some key under a column is not UTF-8; otherwise exactly the present rows, each before the next by first difference |
| Utf8.IsTextIff | rust-app/src/storage/mod.rs:55 | what counts as text is exactly what encoding Unicode scalar values yields |
| RustTable.InstanceOfAgrees | rust-app/src/storage/table.rs:78-81 | stripping column and dot and parsing is the specification of the row a key names |
| RustTable.RowsAgreeIff | rust-app/src/storage/table.rs:135-154 | LMDB errors aside, C and Rust both succeed with the same sequence exactly when there is a column, each has 1 to 254 bytes, every key under a column is UTF-8 and no present row has more than 128 sub-identifiers |
| RustTable.RowsAgreeWithinLimit | rust-app/src/storage/table.rs:20-26 | with keys of at most 255 bytes, exactly when those columns are given and every key under them is UTF-8 |
| RustTable.RefusedColumns | src/table_rows.c:175-193 | column lists C refuses and Rust does not: none, an empty column, one that fills a key by itself |
| RustTable.SkippedKeysDecide | rust-app/src/storage/table.rs:139-141 | and of those only the keys C skips can fail to be |
| RustTable.ForeignKeyHidesRows | rust-app/src/storage/mod.rs:126-129 | one key "portDescr.\xFF" makes Rust fail where C still enumerates row 1 |
| RustTable.KeyLimitSuffices | rust-app/src/storage/table.rs:20-26 | the 255-byte key limit bounds every present row by 128 sub-identifiers |
| Codec.PutU64le | src/storage_lmdb.c:48-54 | the shifting loop writes the little-endian bytes |
| Codec.GetU64le | src/storage_lmdb.c:56-63 | the shifting loop reads them back without losing a bit |
| Codec.SetOidBuffer | src/storage_lmdb.c:508-527 | the C OID setter writes the bytes Rust encode writes |
| Codec.SetIntBuffer | src/storage_lmdb.c:345-352 | the C int32 setter writes the bytes Rust encode writes |
| Codec.SetU64Buffer | src/storage_lmdb.c:411-418 | the C uint64 setter writes the bytes Rust encode writes |
| Codec.SetBytesBuffer | src/storage_lmdb.c:451-470 | the C byte-string setter writes the bytes Rust encode writes |
| Codec.DecodeOfEncode | rust-app/src/storage/codec.rs:81-170 | decode(encode(v)) = v for every value |
| Codec.EncodeOfDecode | rust-app/src/storage/codec.rs:111-170 | encode(decode(b)) = b whenever decode succeeds |
| Codec.DecodeVerdict | rust-app/src/storage/codec.rs:111-170 | which buffers decode, and which error each other one gets |
| Codec.LayoutInt | include/storage_lmdb.h:12-22 | the documented bytes of an integer: tag 1, three zero bytes, two's complement little-endian |
| Codec.LayoutUint | include/storage_lmdb.h:12-22 | of an unsigned integer: tag 2 and its little-endian word |
| Codec.LayoutOctets | include/storage_lmdb.h:12-22 | of a byte string: tag 4 and the bytes |
| Codec.LayoutU64 | src/storage_lmdb.c:48-54 | of a 64-bit value: tag 3 and its bytes from the lowest up |
| Codec.LayoutOid | src/storage_lmdb.c:508-527 | of an OID: tag 5 and one little-endian word per sub-identifier |
| Codec.GettersAgree | src/storage_lmdb.c:254-506 | on every buffer Rust decodes, the C getter of that type returns the same value and every other one a type error |
| Codec.LenientIff | src/storage_lmdb.c:254-269 | of the integers C can read, Rust decodes exactly those with zero reserved bytes and no trailing payload |
| Codec.LenientReads | src/storage_lmdb.c:254-277 | reserved bytes and bytes after a fixed-size payload change nothing in what the C accessors return |
| Codec.GetterVerdict | src/storage_lmdb.c:254-506 | the error of each C accessor on every other buffer: too short, another type, or no room |
| Objects.KeyOfInjective | include/storage_mode.h:19-39 | scalars and cells never share a key |
| Objects.PublishedScalars | include/storage_mode.h:19-23 | the scalars' key names and environments |
| Objects.PublishedCells | include/storage_mode.h:25-39 | the columns' key names and environments |
| Objects.WriteBackInvisible | src/generated/demo_config_table.c:773-794 | writing back what was read is invisible to every typed accessor |
| Objects.WriteBackExactIff | src/storage_lmdb.c:254-277 | and leaves the bytes alone exactly when they were canonical |
| Objects.PortRowIsRow | src/generated/demo_config_table.c:133-142 | the rows of portConfigTable are those with a cell under one of its three (environment, column) pairs |
| Objects.PublishedRows | src/generated/demo_config_table.c:133-142 | the three keys any of which makes port r a row |
| SetPhases.CheckVarbindIff | src/generated/demo_config_table.c:459-542 | RESERVE1 accepts exactly the varbinds that carry an in-range value of the declared type |
| SetPhases.Reserve1CellIff | src/generated/demo_config_table.c:439-544 | a cell is accepted exactly when its row exists, its column is writable and its value is in range; a missing row is noCreation |
| SetPhases.Reserve1Verdict | src/generated/demo_config_table.c:439-544 | what RESERVE1 answers every request: noCreation, then notWritable, then wrongType, wrongLength or wrongValue |
| SetPhases.Reserve2Stashes | src/generated/demo_config_table.c:546-667 | a request RESERVE2 accepts carries what the store held for its object, absence included |
| SetPhases.Reserve2Verdict | src/generated/demo_config_table.c:546-667 | what RESERVE2 answers: genErr without a row, resourceUnavailable without a stash or a readable value, and a stash exactly otherwise |
| SetPhases.NewValueInRange | src/generated/demo_config.c:332-342 | ACTION's narrowing cast loses nothing and the value it writes is in range |
| SetPhases.LocatedKeysValid | src/storage_lmdb.c:96-110 | the key of every object ACTION or UNDO finds fits the buffer and passes key validation |
| SetHandler.RowWalk.Next | src/generated/demo_config_table.c:201-242 | the walk yields the table's rows in order, skipping instances that are not its indexes |
| SetHandler.FindContext | src/generated/demo_config_table.c:144-242 | a request's row is marked existing exactly when it is present and an index of the table, unless the enumeration failed |
| SetHandler.SetTransaction.Reserve2One | src/generated/demo_config_table.c:546-667 | one RESERVE2 request, key built in place |
| SetHandler.SetTransaction.ActionOne | src/generated/demo_config_table.c:678-755 | one ACTION request: genErr without a row, nothing for an unknown column, otherwise the key built in place and the write or commitFailed |
| SetHandler.SetTransaction.ModeAction | src/generated/demo_config_table.c:678-756 | the loop attempts every request, after failed writes and refused requests too; a failed write reports commitFailed, a missing row genErr, nothing else changes in a request |
| SetHandler.SetTransaction.ModeUndo | src/generated/demo_config_table.c:767-849 | the loop restores or deletes for every stash and drops it; a failed restore reports undoFailed |
| SetAtomicity.ActionLookup | src/generated/demo_config_table.c:678-756 | after ACTION each key holds its last successful varbind, or what it held |
| SetAtomicity.UndoRestoresReports | src/generated/demo_config_table.c:767-849 | for any varbinds, ACTION failures and other writers, an undone object reports what it did at RESERVE2, except exactly an absent scalar |
| SetAtomicity.AbsentScalarUndone | src/generated/demo_config.c:303-316 | in that exception UNDO leaves 0 or an empty string |
| SetAtomicity.FaultyUndoLookup | src/generated/demo_config_table.c:767-849 | when UNDO's own writes fail, an object one of them reached is back and every other one is as it was found |
| SetAtomicity.UndoRestoresBytesIff | src/generated/demo_config.c:207-223 | its raw bytes come back exactly when they were canonical, or a cell was absent |
| SetAtomicity.UndoSparesOthers | src/generated/demo_config_table.c:767-849 | every other key ends where the other writers alone would have left it |
| SetAtomicity.UndoIsIdentity | src/generated/demo_config_table.c:767-849 | with canonical values and no other writer, an undone Set gives the whole store back |
| SetAtomicity.CommitIsLastVarbind | src/generated/demo_config_table.c:678-765 | a committed Set leaves each object at its last varbind |
| SetAtomicity.ActionSparesOthers | src/generated/demo_config_table.c:678-756 | and changes no other key |
| SetAtomicity.InterleavedWriteIsLost | src/generated/demo_config.c:356-370 | whatever others write or delete between RESERVE2 and UNDO, an object ends as they left it exactly when the Set has no varbind for it or UNDO restores the same |
| Bootstrap.Environment.ConfigBootstrap | src/generated/storage_bootstrap.c:304-498 | config seeding in one transaction: all of it, or nothing and the error |
| Bootstrap.Environment.CacheBootstrap | src/generated/storage_bootstrap.c:21-302 | cache seeding in one transaction: all of it, or nothing and the error |
| Bootstrap.ProbeNotFoundIff | src/generated/storage_bootstrap.c:320-331 | the typed probe reads NOTFOUND only for absent keys, so a value of another type is not overwritten |
| Bootstrap.PlantLookup | include/storage_bootstrap.h:14-20 | seeding never changes an existing key and gives each absent seeded key its seed |
| Bootstrap.PlantOverwrites | include/storage_bootstrap.h:31-37 | overwriting, every seeded key gets its seed and every other key is left alone |
| Provisioning.SeedMoreAbsorbs | include/table_provision.h:13-18 | seeding n rows and later m >= n rows equals seeding m; with n = m, idempotence |
| Provisioning.ExistingKept | include/storage_bootstrap.h:14-20 | every existing value survives startup |
| Provisioning.AbsentObjectSeeded | src/generated/storage_bootstrap.c:21-498 | an absent object appears exactly when it is provisioned, at its DEFVAL |
| Provisioning.RowsSeeded | src/generated/storage_bootstrap.c:412-466 | startup adds rows 1..n to portConfigTable and no other |
| Provisioning.ForeignTablesUntouched | include/table_provision.h:20-23 | no cell of any other table is seeded |
| Provisioning.SensorTableUntouched | include/table_provision.h:20-23 | so startup leaves every cell of sensorTable alone |
| Provisioning.RebootRestoresDefaults | include/storage_bootstrap.h:7-20 | after a cache wipe and restart persistent objects are kept and volatile provisioned ones are at their DEFVAL |
| Provisioning.FreshReads | src/generated/storage_bootstrap.c:21-498 | on a new device every seeded object reads back its DEFVAL |
| Provisioning.FactorySettings | src/generated/storage_bootstrap.c:304-498 | the settings of a new device, value by value |
| Provisioning.TelemetryPlaceholders | src/generated/storage_bootstrap.c:124-204 | the four telemetry placeholders, kept if already written |
| ConfigIpc.FindConfigObject | src/ipc_server.c:126-134 | the loop finds the entry of that name, if any |
| ConfigIpc.AllowlistMatchesMib | src/ipc_server.c:114-123 | the allowlist agrees with the handlers on name, environment, type and bounds of every scalar |
| ConfigIpc.WriteOkIff | src/ipc_server.c:161-238 | an IPC write is answered OK exactly when it carries an in-range value of the declared type for a writable scalar and storage succeeds |
| ConfigIpc.WriteConfigEffect | src/ipc_server.c:161-238 | it then puts that value under that scalar, and otherwise changes nothing |
| ConfigIpc.WriteVerdict | src/ipc_server.c:136-238 | which status every other write gets, each storage error included |
| ConfigIpc.ReadVerdict | src/ipc_server.c:240-287 | which status a read gets: not found, another stored type, or undecodable |
| ConfigIpc.PublishedObjects | src/ipc_server.c:114-123 | names, types and ranges, as the writes that are accepted |
| ConfigIpc.ConfigService.HandleWriteConfig | src/ipc_server.c:161-238 | status and store for every request |
| ConfigIpc.GetAndReadAgreeIff | src/ipc_server.c:240-287 | GET and IPC read report the same except exactly for byte strings between the two buffer sizes |
| WritePaths.SameDomain | src/ipc_server.c:187-231 | SNMP Set and IPC write accept the same values of every scalar |
| WritePaths.SameEffect | src/generated/demo_config.c:188-200 | and store the same bytes under the same key |
| WritePaths.OnlyScalars | src/ipc_server.c:114-134 | no other key can be written or read over IPC: both are answered STATUS_INVALID |
| Alarm.TempAlarm.Check | src/demo_trap.c:119-164 | new state and return code for every pair of read results, with the hysteresis of 500 |
| Alarm.ObserveIff | src/demo_trap.c:146-163 | from either state and after any samples: raised exactly when it was and none cleared it, or some sample exceeded and no later one cleared |
| Alarm.RaisedIff | src/demo_trap.c:32-46 | the alarm is raised exactly when some sample exceeded its threshold and every later one stayed above its own minus 500 |
| Alarm.HarmlessIff | src/demo_trap.c:146-163 | checks at one temperature leave the alarm as it was exactly under a condition on the temperature and the thresholds |
| Alarm.AttemptsSeparated | src/demo_trap.c:32-40 | between two trap attempts there is a clearing sample |
| AgentTypes.EmptyStoreTyped | src/main.c:70-114 | a device that has never run satisfies the invariant of the next row |
| AgentTypes.RunKeepsTypes | src/ipc_server.c:161-238 | after any events whatever every writable object is typed and in range, scalars are present while running, and no threshold overflowed the hysteresis subtraction |
| AgentTypes.RunReadsAgree | src/ipc_server.c:240-287 | hence GET and IPC read of a scalar always return the same in-range value |
| AgentTypes.RunAlarmIff | src/demo_trap.c:119-164 | in any run the alarm is the function of the sample history |
| AgentTypes.WrittenIsRead | src/ipc_server.c:161-287 | in any run, an accepted IPC write is what SNMP GET and IPC read report next |
| AgentTypes.TelemetryWrites | README.md:28-41 | a telemetry write stores what it says and changes nothing else |
| AgentTypes.QuietPhases | src/generated/demo_config_table.c:439-676 | the reserve phases, FREE and COMMIT change neither store nor alarm; a failed row enumeration refuses every cell |
| AgentRestart.RestartAfterRun | include/storage_bootstrap.h:31-37 | after any run, a restart without a reboot keeps every key of both environments, volatile values included; the rows are the old ones and 1..n; the alarm starts over |
| AgentRestart.FailedStart | src/main.c:70-114 | a failed start changes no existing key, and the next successful one is as if it had not been attempted |
| AgentRestart.RebootAfterRun | src/main.c:70-114 | after any run, a reboot and start keep persistent objects and reset volatile ones |
| AgentRows.RunKeepsRows | src/generated/demo_config_table.c:448-457 | through any phases, failures, partial ACTIONs, UNDO deletes and other writers the rows stay the same until the process stops |
| AgentRows.RunKeepsRowSequence | src/generated/demo_config_table.c:133-142 | so the row enumeration returns the same sequence before and after |
| AgentSets.UndoneRun | src/generated/demo_config_table.c:767-849 | any run through ACTION and UNDO with quiet events between ends in the store the atomicity results describe |
| AgentSets.UndoneRunRestores | src/generated/demo_config.c:303-370 | in every run of the agent, from RESERVE2 to UNDO with any ACTION failures and quiet events between, an undone object reports what it did at RESERVE2, without exception |
| AgentSets.ActionVerdict | src/generated/demo_config_table.c:705-710 | after ACTION, COMMIT can happen exactly when no write failed, and commitFailed is reported exactly by the requests whose write failed |
| AgentSets.CommittedRun | src/generated/demo_config_table.c:758-765 | whatever ACTION meets, a run comes to rest through COMMIT exactly when no write failed, and then applies its varbinds and nothing else of its own |
| AgentSets.CommittedRunReads | src/generated/demo_config.c:332-354 | in every run in which COMMIT happens, whatever ACTION met, each object reads back the value of its last varbind unless somebody else wrote it after ACTION |
| AgentSets.FreedRun | src/generated/demo_config_table.c:669-676 | a freed run leaves only what other writers wrote |
| AgentAlarm.ActionSamplesExact | src/generated/demo_config.c:332-348 | ACTION takes one sample per threshold it succeeds in writing, at the stored temperature |
| AgentAlarm.UndoneAlarm | src/generated/demo_config.c:332-370 | after an undone Set with any varbinds, failures and other writers the alarm is that of every check made on the way, ACTION's included |
| AgentAlarm.AlarmOutlivesUndo | src/generated/demo_config.c:332-370 | the alarm is what it was before ACTION exactly when no temperature could be read or the thresholds written were harmless at it |
| AgentAlarm.OneThresholdHarmless | src/demo_trap.c:146-163 | for one threshold v at temperature c: exactly when c <= v if the alarm was clear, c > v - 500 if it was raised |
| AgentAlarm.AskedUndone | src/generated/demo_config.c:303-370 | from every state that has accepted a Set of the threshold, ACTION and UNDO give the store back, and the alarm exactly under that condition |
| AgentAlarm.AlarmNotUndone | src/generated/demo_config.c:343-348 | runs of a new device in which a refused Set leaves the alarm raised, and cleared |
| Framing.ParseChunks | src/ipc_server.c:450-482 | the meaning of a byte stream does not depend on its chunking |
| Framing.RestIsShort | src/ipc_server.c:49-53 | what is left after a drain is shorter than one maximal frame |
| Framing.NothingAfterClosing | src/ipc_server.c:475-477 | no frame is handled after one that closes the connection |
| Framing.PrefixesOrdered | rust-app/src/ipc/mod.rs:79-88 | length prefixes are big-endian: their byte order is the numeric order |
| Framing.WriteFrame | rust-app/src/ipc/mod.rs:79-88 | length prefix and payload, or FrameTooLarge exactly over 65536 bytes |
| Framing.StreamDeliveredIff | rust-app/src/ipc/mod.rs:79-88 | a payload list is delivered as that list exactly when no payload is empty |
| Framing.DeliveredPrefix | src/ipc_server.c:450-482 | at any moment an initial part of what was sent has been handled |
| Framing.Client.DrainFrames | src/ipc_server.c:448-482 | the in-place drain handles exactly the grammar's frames and keeps its remainder |
| Framing.Client.ServiceClient | src/ipc_server.c:647-679 | the read loop equals its specification for any chunks; the buffer-full branch is dead |
| Framing.ServiceIsParse | src/ipc_server.c:647-679 | one service call handles what the buffered and all arriving bytes mean together, and the connection is gone exactly when that closes it or the socket ends |
| IpcServer.ClientsIsolated | src/ipc_server.c:609-697 | in any run the frames handled for a connection are those its own byte stream means |
| IpcServer.BufferNeverFills | src/ipc_server.c:647-656 | in every reachable state each open slot has room to read |
| IpcServer.PayloadsDelivered | src/ipc_server.c:450-482 | a client's payloads are handled in order and completely, whatever the others do |
| IpcServer.ServiceIsSteps | src/ipc_server.c:647-679 | one service call is a sequence of the machine's steps on its slot and no other |
| IpcServer.SlotTable.AcceptOne | src/ipc_server.c:599-644 | a connection takes the lowest free slot or none |
| IpcServer.AcceptTakesLowest | src/ipc_server.c:599-644 | in every run there are eight slots; an accept takes the lowest free one or turns the connection away |
| IpcServer.DisconnectFrees | src/ipc_server.c:313-323 | a disconnect frees its slot and does nothing else |
| IpcProtocol.ReplyAccepted | src/ipc_server.c:369-446 | a response echoes its request's id, and the client accepts its body exactly for request-shaped bodies |
| IpcProtocol.ReplyVerdict | src/ipc_server.c:289-442 | a ping gets its nonce back, a trap request STATUS_OK exactly when it names the trap and it went out, a response-shaped body STATUS_INVALID |
| IpcProtocol.JudgeVerdict | rust-app/src/ipc/mod.rs:107-171 | the client takes a response exactly when id and body variant are its request's |
| IpcProtocol.HandleFrame | src/ipc_server.c:347-446 | closes exactly on undecodable, empty and PingResponse bodies and on a response over 1024 bytes, and otherwise sends one frame that reads back as the encoded response |
| IpcProtocol.AnswerFrames | src/ipc_server.c:448-482 | the output for any frames, up to the first that closes |
| IpcProtocol.OneResponsePerFrame | src/ipc_server.c:369-446 | in any run and for any connection, the bytes sent are the stream of exactly one response per handled frame that does not close, in frame order |
| IpcProtocol.ReadVerdict | rust-app/src/ipc/mod.rs:90-105 | when a client read waits, refuses a length, or returns a frame |
| IpcProtocol.ReadInOrder | rust-app/src/ipc/mod.rs:90-105 | a completed client read returns the frame written at that position |
| IpcProtocol.ReadAll | rust-app/src/ipc/mod.rs:90-105 | once the whole stream has arrived every frame of it can be read |
| IpcProtocol.SynchronousClient | rust-app/src/ipc/mod.rs:107-171 | in every run, reading what the server sent for the frames it handled: no completed call ends in RequestIdMismatch or UnexpectedBody, and once everything has arrived every call completes |
| IpcProtocol.CompletedCalls | rust-app/src/ipc/mod.rs:107-171 | in every run a completed ping gets its own nonce and a completed trap request STATUS_OK exactly when the trap went out |
| IpcSession.ReadsLastWrite | src/ipc_server.c:161-287 | a read handled after a write of the same scalar answered OK, with nobody writing it in between, is answered with the value written |
| IpcSession.ClientReadsLastWrite | rust-app/src/ipc/mod.rs:107-171 | in any run, with any clients and any chunking, that value is what the reading client gets, under its own request id |
| RequestIds.IpcClient.FreshRequestId | rust-app/src/ipc/mod.rs:68-77 | call number k returns (k mod (2^32-1)) + 1 across the counter's wraparound |
| RequestIds.IdsDistinct | rust-app/src/ipc/mod.rs:68-77 | ids are never 0 and any 2^32-1 consecutive ones are distinct |
| RequestIds.IdsRepeat | rust-app/src/ipc/mod.rs:68-77 | and the period is exact: the next id after them is the first again |
| Telemetry.CacheStore.PutRow | rust-app/src/storage/table.rs:113-120 | all keys are built before one transaction stores every cell's own value, the last one for a column winning, and no other key; or nothing is written |
| Telemetry.CacheStore.DeleteRow | rust-app/src/storage/table.rs:127-133 | one transaction removes the row's listed cells, and every other key keeps its value |
| Telemetry.LastOperationReads | rust-app/src/storage/table.rs:101-133 | after any run each cell of a row holds the value put last, or is absent when the row was deleted last |
| Telemetry.SnapshotsWhole | rust-app/src/storage/table.rs:101-108 | after any run of full-row operations every row is complete or absent |
| Telemetry.ConcurrentLoad | include/table_rows.h:116-122 | a load reading each column at its own snapshot reports a row exactly when it was present at one of those snapshots |

## Left out

- RustTable.TableRows: LMDB errors other than a key that is not text, which would fail it too.
- Sockets, `select`, retry timing of sends, signals, daemonising, command line: I/O around the modelled logic. A failing send, which closes the connection early, is not modelled.
- LMDB internals, map size, fsync and power loss: an unseen library behind the transaction assumption.
- nanopb/prost encoding, field size limits and message strings: behind the abstract envelope codec.
- net-snmp's iterator, registration and OID codec: behind the context and phase assumptions. Null arguments and a missing table-info block are not represented.
- Allocation failure, other than that of a RESERVE2 stash.
- The read-only handlers `demo_status.c` and `demo_status_table.c`: they repeat the modelled GET paths.
- Telemetry sampling, load generator, storage CLI, mib2c templates, scripts.
- SetHandler.SetTransaction.ModeUndo: a request's stash is one value rather than up to three named list entries, since a request has one column.
- Bootstrap.Environment.SeedTransaction: walks a list of seeds where the source repeats the same probe-then-set block per object.
- IpcServer.SlotTable.AcceptOne: the slot array holds connection and buffered bytes as values; the in-place receive buffer is `Framing.Client`, tied to it by `IpcServer.ServiceIsSteps`.
