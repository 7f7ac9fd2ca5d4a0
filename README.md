# usbip-win2 core, modelled in Dafny

This project models four pieces of the usbip-win2 USB/IP client for Windows
and proves properties of them.

- **Protocol constants** (`consts.dfy`, `include/usbip/consts.h`):
  - the device status codes `op_status_t`;
  - the user-space error codes `err_t`;
  - the fixed sizes;
  - `make_error`, which packs either kind of code into one 32-bit `int`
    shifted left by 16.
- **Virtual hub port numbering** (`vhub.dfy`, `driver/vhci/vhub.h`):
  `is_valid_port` accepts exactly the ports 1 .. NUM_PORTS.
- **The MDL wrapper** (`mdl.dfy`, `driver/lib/mdl_cpp.h`):
  - the `Mdl` class and its null-safe accessors;
  - the variadic `prepare`, which prepares buffers left to right and stops
    at the first failure without undoing earlier ones;
  - the variadic `unprepare`, which unprepares every argument.
- **Replay of persisted attachments** (`persistent.dfy`,
  `drivers/ude/persistent.cpp`):
  - each record `host,service,busid` is parsed and converted to UTF-8;
  - an attach request is sent to the driver itself;
  - a record is dropped unless the attach failed with a retryable network
    error;
  - rounds repeat with a backoff delay, slept in 5-second slices that
    notice a stop request;
  - every round is replayed exactly: the records it handled are replaced
    by those plugin_hardware kept;
  - the number of waits, records handled and flag reads of each round is
    fixed by the moment the stop flag is set, so no wait starts and no
    record is handled after a read found the flag set;
  - every round but the last sleeps its full backoff and handles
    min(count, capacity) records, and only a stop request cuts the last
    one short;
  - the records left are always the original ones with some removed, in
    their original order, and a record that every attach would fail
    retryably keeps all its occurrences.

`kernel.dfy` holds the shared vocabulary:
- `Option` and `Result`;
- a symbolic `NtStatus`;
- the 32-bit `ULONG` range;
- `FirstFailure`, the "first failing step" index. `prepare` and `copy`
  both stop at that step.

Environment inputs:
- **UTF-16 to UTF-8 conversion:** a function parameter (`Utf8Oracle`).
- **The attach IOCTL:** a function of the round index, the number of
  records the round handled before this call, and the request
  (`IoctlCalls`). No two calls share both round index and position, so
  two identical records may get different answers, in one round or in
  two rounds whose 32-bit attempt numbers coincide. `Decisions` is the same
  per-call view of plugin_hardware's answer; `Decider` builds it from the
  conversion and the IOCTL.
- **The memory manager's answer to a prepare:** an argument of
  `Mdl.Prepare`.
- **The `stop_thread` flag written by another thread:** the other thread
  sets it once and never clears it, so the moment it does so is given as
  `VhciCtx.stopFrom`, the number of the first read that sees it set (a
  flag that is never set has a `stopFrom` beyond every read). Each read
  goes through `VhciCtx.PollStop`, which counts reads in `polls`.
- **ARRAYSIZE(ctx.devices):** the positive constructor argument
  `devicesCapacity` of `VhciCtx`.

How the model reads three details of the code:
- **`get_delay`:** the product `UNIT*attempt` is a `ULONG`, so the model
  wraps it modulo 2^32. Below attempt 429496730 it never wraps, and the
  delay is `min(10*attempt/cnt, 1800)` seconds.
- **`sleep`:** `seconds/RESOLUTION + bool(seconds % RESOLUTION)` uses C++
  truncating division and remainder, and the model writes both out.
- **Batch `prepare`:** when a later buffer fails, the buffers already
  prepared stay prepared; nothing is undone.

## Model

| member | source | states |
|---|---|---|
| Kernel.FirstFailure | driver/lib/mdl_cpp.h:66-74 | the index returned is the first failing step: every earlier step succeeded, and the step at the index (if any) failed |
| Kernel.FirstFailureCharacterized | driver/lib/mdl_cpp.h:69-73 | no step fails exactly when the first failure is past the end; any failing step is at or after the first failure |
| Kernel.OnlySuccessSucceeds | drivers/ude/persistent.cpp:242-246 | the test `if (auto err = ...)` passes exactly for STATUS_SUCCESS; STATUS_INVALID_PARAMETER, the three ERROR_USBIP_* codes and every other non-zero code fail it |
| Consts.StatusValue | include/usbip/consts.h:5-13 | status codes take the values 0 .. 5 and only ST_OK is 0 |
| Consts.StatusOf | include/usbip/consts.h:5-13 | every value 0 .. 5 names a status code whose value it is |
| Consts.StatusValueRoundTrip | include/usbip/consts.h:5-13 | distinct status codes have distinct values (StatusOf inverts StatusValue); ST_DEV_ERR is 3 and ST_ERROR is 5 |
| Consts.ErrValue | include/usbip/consts.h:16-28 | error codes take the consecutive values -9 .. 0 and only ERR_NONE is 0 |
| Consts.ErrOf | include/usbip/consts.h:16-28 | every value -9 .. 0 names an error code whose value it is |
| Consts.ErrValueRoundTrip | include/usbip/consts.h:16-30 | distinct error codes have distinct values (ErrOf inverts ErrValue) |
| Consts.Int32 | include/usbip/consts.h:44-45 | the conversion to a 32-bit `int` lands in range, is congruent modulo 2^32 and keeps in-range values |
| Consts.ShiftLeft16 | include/usbip/consts.h:45 | for any 16-bit signed value, `<< 16` multiplies by 65536 without wrapping |
| Consts.MakeError | include/usbip/consts.h:42-46 | a non-OK status is encoded as status*65536 and the error is ignored; under ST_OK the error is encoded as err*65536 |
| Consts.MakeErrorNoneIsZero | include/usbip/consts.h:48 | make_error(ERR_NONE) is 0 |
| Consts.MakeErrorSign | include/usbip/consts.h:39-46 | the result is negative iff the status is OK and the error is real; positive iff the status is not OK; zero iff both are "none" |
| Consts.MakeErrorRanges | include/usbip/consts.h:39-46 | statuses land in 65536 .. 5*65536 and errors in -9*65536 .. -65536, so the two ranges never overlap |
| Consts.MakeErrorDecodes | include/usbip/consts.h:42-46 | dividing the result by 65536 gives back the status (when not OK) or the error (when OK) |
| Consts.MakeErrorIgnoresErr | include/usbip/consts.h:45 | under a non-OK status, any two error arguments give the same result |
| Vhub.IsValidPort | driver/vhci/vhub.h:29-32 | true exactly for the port numbers in the set 1 .. NUM_PORTS |
| Vhub.ValidPortsAreExactlyOneToNumPorts | driver/vhci/vhub.h:29-32 | port 0 and negative ports are invalid, 1 .. NUM_PORTS are valid, larger ports are invalid: exactly NUM_PORTS valid ports |
| MdlCpp.Mdl.Held | driver/lib/mdl_cpp.h:23 | operator bool is true exactly when a descriptor is held |
| MdlCpp.Mdl.IsNull | driver/lib/mdl_cpp.h:24 | operator! is the negation of operator bool |
| MdlCpp.Mdl.Get | driver/lib/mdl_cpp.h:26 | get() is null exactly when operator! holds |
| MdlCpp.Mdl.Addr | driver/lib/mdl_cpp.h:28 | the descriptor's virtual address, or null without a descriptor |
| MdlCpp.Mdl.Offset | driver/lib/mdl_cpp.h:29 | the descriptor's byte offset, or 0 without a descriptor |
| MdlCpp.Mdl.Size | driver/lib/mdl_cpp.h:30 | the descriptor's byte count, or 0 without a descriptor |
| MdlCpp.Mdl.Next | driver/lib/mdl_cpp.h:32 | the chained descriptor, or null without a descriptor |
| MdlCpp.Mdl.SysAddr | driver/lib/mdl_cpp.h:41-44 | the memory manager's mapping of the descriptor at the given priority (NormalPagePriority by default), or null without a descriptor |
| MdlCpp.EmptyMdlReadsZero | driver/lib/mdl_cpp.h:23-44 | a wrapper without a descriptor reads as null or 0 through every accessor |
| MdlCpp.Mdl.Prepare | driver/lib/mdl_cpp.h:38 | with IoReadAccess and DEF_ACCESS_MODE as default arguments: returns the memory manager's status and records the call; success leaves the buffer prepared, and failure leaves its lock state unchanged |
| MdlCpp.Mdl.Unprepare | driver/lib/mdl_cpp.h:39 | the call is recorded and the buffer is no longer prepared |
| MdlCpp.Mdl.UnprepareNonpaged | driver/lib/mdl_cpp.h:54 | nothing changes |
| MdlCpp.PrepareAll | driver/lib/mdl_cpp.h:60-74 | returns the first failing status (success if none fails); prepare is called on every buffer up to and including the failing one and on none after it; buffers before the failure stay prepared and nothing is undone |
| MdlCpp.UnprepareAll | driver/lib/mdl_cpp.h:76-81 | every argument is unprepared once per occurrence, whatever its state, and none is left prepared |
| Persistent.GetDelay | drivers/ude/persistent.cpp:172-177 | the delay is at most 1800 s and is 0 for the first two attempts; below the 32-bit wrap it is min(10*attempt/cnt, 1800) |
| Persistent.GetDelayGrowsWithAttempt | drivers/ude/persistent.cpp:176 | below the wrap, a later attempt never waits less |
| Persistent.GetDelayShrinksWithCount | drivers/ude/persistent.cpp:176 | more pending records never make the delay longer |
| Persistent.GetDelayCap | drivers/ude/persistent.cpp:175-176 | from 10*attempt >= 1800*cnt up to the wrap, the delay is exactly 30 minutes |
| Persistent.GetDelayWrapsAround | drivers/ude/persistent.cpp:176 | attempt 429496729 waits 1800 s; attempt 429496730 wraps the product and waits 4 s |
| Persistent.TruncDiv | drivers/ude/persistent.cpp:193 | C++ `/` on `int` truncates toward zero: what is left over, a - q*b, is smaller in size than the divisor and has the sign of the dividend |
| Persistent.TruncRem | drivers/ude/persistent.cpp:193 | C++ `%` on `int` satisfies a == (a/b)*b + a%b and takes the sign of the dividend |
| Persistent.SliceCount | drivers/ude/persistent.cpp:192-193 | for a non-negative delay, the delay divided by 5 and rounded up; a negative delay gives at most one slice, and none from -5 down |
| Persistent.SliceCountCovers | drivers/ude/persistent.cpp:192-193 | for a non-negative delay, the 5-second slices cover it with less than one slice to spare; 0 seconds gives no slice |
| Persistent.SliceCountOfMaxDelay | drivers/ude/persistent.cpp:175-193 | the 1800-second cap is slept as 360 slices |
| Persistent.VhciCtx.Sleep | drivers/ude/persistent.cpp:179-201 | the waits started are exactly GatedSteps(SliceCount(seconds)) from the current read count: every slice when no read before them sees the flag set, otherwise one wait per clear read before the first set one; the reads made are those, plus the final read that found the flag set when the loop ended early |
| Persistent.VhciCtx.PollStop | drivers/ude/persistent.cpp:288-300 | one read of the stop flag: it finds the flag set exactly when at least stopFrom reads came before it, and the read count goes up by one |
| Persistent.GatedSteps | drivers/ude/persistent.cpp:195-200 | the steps a loop guarded by the flag runs out of n: none for n <= 0, at most n, each one after a read that found the flag clear, and fewer than n only when the next read finds it set |
| Persistent.GatedStepsUnique | drivers/ude/persistent.cpp:195-200 | those four properties fix the number of steps: any count that has them is GatedSteps |
| Persistent.CanRetry | drivers/ude/persistent.cpp:207-217 | true exactly for ERROR_USBIP_ADDRINFO, ERROR_USBIP_CONNECT and ERROR_USBIP_NETWORK |
| Persistent.Empty | drivers/ude/persistent.cpp:110-113 | true exactly when the record holds no text before its first NUL (or its end) |
| Persistent.Split | drivers/ude/persistent.cpp:127-132 | the head has no separator; with a separator, head + sep + tail is the input; without one, the head is the whole input and the tail is empty |
| Persistent.SplitAtFirst | drivers/ude/persistent.cpp:127-132 | splitting head + sep + tail, where head has no separator, gives back head and tail |
| Persistent.SplitRecord | drivers/ude/persistent.cpp:121-135 | every rejection is STATUS_INVALID_PARAMETER |
| Persistent.SplitRecordSound | drivers/ude/persistent.cpp:121-135 | an accepted record is three non-empty fields joined by its first two commas |
| Persistent.SplitRecordComplete | drivers/ude/persistent.cpp:121-135 | three non-empty fields, with no comma in host or service, joined by commas split back exactly |
| Persistent.SplitRecordRejectsEmptyField | drivers/ude/persistent.cpp:128-134 | an empty host, service or bus-id (no text, or NUL first) is rejected |
| Persistent.SplitRecordRejectsTwoFields | drivers/ude/persistent.cpp:132-134 | a record with a single comma has no bus-id and is rejected |
| Persistent.SplitRecordExample | drivers/ude/persistent.cpp:121-135 | `h,s,b` gives host h, service s, bus-id b |
| Persistent.SplitRecordExampleCommaInBusId | drivers/ude/persistent.cpp:132 | only the first two commas split: `h,s,b,x` has bus-id `b,x` |
| Persistent.SplitRecordExampleNoService | drivers/ude/persistent.cpp:133-134 | `h,,b` is rejected |
| Persistent.SplitRecordExampleNoHost | drivers/ude/persistent.cpp:128-129 | `,s,b` is rejected |
| Persistent.SplitRecordExampleNoBusId | drivers/ude/persistent.cpp:133-134 | `h,s,` is rejected |
| Persistent.ConvertEach | drivers/ude/persistent.cpp:381-388 | succeeds iff no conversion fails, returning every converted text in order; otherwise returns the status of the first failing conversion |
| Persistent.ConvertEachStopsAtFirstFailure | drivers/ude/persistent.cpp:381-386 | once a conversion fails, later jobs have no effect on the result |
| Persistent.Copy | drivers/ude/persistent.cpp:362-389 | converts host, then service, then bus-id: succeeds iff all three succeed, with the three converted texts; otherwise returns the first failure in that order |
| Persistent.ParseString | drivers/ude/persistent.cpp:115-140 | a malformed record gives STATUS_INVALID_PARAMETER without converting; otherwise the result of copy on its three fields |
| Persistent.RequestFor | drivers/ude/persistent.cpp:239-240 | the request carries the converted fields and port 0 |
| Persistent.PluginHardware | drivers/ude/persistent.cpp:219-251 | keeps a record (answers false) iff it parses and the IOCTL fails with a retryable error; a malformed record is always removed |
| Persistent.Decider | drivers/ude/persistent.cpp:300-303 | the answer for the record handled j-th in round r is plugin_hardware's answer for it with the IOCTL answer of that very call, the one at round r and position j |
| Persistent.RoundDecision | drivers/ude/persistent.cpp:288-303 | the answers of one round are those of its round index, by position and record |
| Persistent.Survivors | drivers/ude/persistent.cpp:300-309 | a round never keeps more records than it handled; SurvivorsIsSubsequence, SurvivorsNeverAdd, SurvivorsKeepAll and SurvivorsDropAll state which ones it keeps |
| Persistent.SurvivorsAppend | drivers/ude/persistent.cpp:300-309 | the survivors of two consecutive stretches of records are the survivors of each, positions counted on from the first |
| Persistent.SurvivorsIsSubsequence | drivers/ude/persistent.cpp:300-309 | a round keeps records in their original relative order |
| Persistent.SurvivorsNeverAdd | drivers/ude/persistent.cpp:300-309 | a round never adds occurrences of a record |
| Persistent.SurvivorsKeepAll | drivers/ude/persistent.cpp:300-309 | a record answered "keep" at every position where it occurs keeps all its occurrences |
| Persistent.SurvivorsDropAll | drivers/ude/persistent.cpp:300-309 | a record answered "remove" at every position where it occurs loses all its occurrences |
| Persistent.Collection.Remove | drivers/ude/persistent.cpp:304 | removes exactly the item at the index, and the others keep their order |
| Persistent.PluginRound | drivers/ude/persistent.cpp:300-309 | the records handled are exactly GatedSteps(cnt) from the current read count: all cnt unless a read finds the flag set, and none after it; the reads are counted likewise; the records handled are replaced by their survivors in order and the rest are untouched |
| Persistent.RoundKeepsOrder | drivers/ude/persistent.cpp:300-310 | what a round leaves is a subsequence of what it started with |
| Persistent.RoundKeepsAlwaysKept | drivers/ude/persistent.cpp:300-309 | a record that no call would remove keeps all its occurrences through a round |
| Persistent.Backoff | drivers/ude/persistent.cpp:172-193 | the number of 5-second slices slept for a round's delay: none exactly when get_delay is 0, and the slices cover the delay with less than one slice to spare |
| Persistent.RoundRun | drivers/ude/persistent.cpp:290-309 | one round after a clear read: at most Backoff waits and at most cnt records handled, all of both exactly when every read of the round finds the flag clear; a sleep cut short leaves no record handled, since the inner loop's first read sees the flag too |
| Persistent.RoundRunExampleClear | drivers/ude/persistent.cpp:290-309 | attempt 2 with one record and the flag clear: 4 waits, 1 record handled, 5 reads |
| Persistent.RoundRunExampleStopDuringSleep | drivers/ude/persistent.cpp:290-309 | the same round with the flag set from read 2 on: 2 waits, no record handled, 4 reads |
| Persistent.NextAttempt | drivers/ude/persistent.cpp:288 | `++attempt` on a ULONG adds one below 2^32 - 1 and wraps from 2^32 - 1 to 0 |
| Persistent.AttemptOfIsRoundModulo | drivers/ude/persistent.cpp:288 | round r runs with attempt number r modulo 2^32 |
| Persistent.DelayedRound | drivers/ude/persistent.cpp:290-309 | the waits, the records handled and the reads of the round are exactly RoundRun's for its attempt number, its count and the read count at its start; the collection becomes exactly what that round's answers leave |
| Persistent.ReplaysExtend | drivers/ude/persistent.cpp:288-310 | a round opened by a clear read with records pending, run as RoundRun says with min(count, capacity) records, extends a replay by one round |
| Persistent.ReplaysKeepOrder | drivers/ude/persistent.cpp:288-310 | after any number of replayed rounds, the records left are a subsequence of the original ones |
| Persistent.ReplaysKeepAlwaysKept | drivers/ude/persistent.cpp:288-310 | a record that no call would remove keeps all its occurrences through any number of replayed rounds |
| Persistent.ReplaysEarlyRoundsFull | drivers/ude/persistent.cpp:288-310 | every replayed round but the last slept its full Backoff and handled min(count, capacity) records; a last round short in either respect ended after the flag was set |
| Persistent.RetryRounds | drivers/ude/persistent.cpp:288-310 | for any answers: the rounds run replay one by one, each opened by a read that found the flag clear with records pending, with min(count, capacity) records offered and waits, records handled and reads exactly as RoundRun fixes them from the read count; the loop ends before `rounds` only when no record is left or a read found the flag set, and the final read count is stated; an empty collection is not read |
| Persistent.PluginPersistentDevices | drivers/ude/persistent.cpp:253-311 | RetryRounds with plugin_hardware's answers, one IOCTL call per record handled; every round but the last slept its full backoff and handled min(count, capacity) records; the records left are the original ones with some removed, in order; a record for which every call would fail retryably keeps all its occurrences; a flag already set changes nothing |

## Left out

- Reading the registry (`get_persistent_devices`), opening the IO target to the driver itself (`make_target`), and the failure paths of both are I/O. The model starts from the collection of records.
- Starting and finishing the worker thread (`run`, `usbip::plugin_persistent_devices`) is thread and object management with no state the model uses.
- Tracing and `NT_ASSERT`/`NT_VERIFY` are left out. So are the `BytesReturned == outlen` check and the descriptors of the request buffer.
- The UTF-16 to UTF-8 conversion `libdrv::unicode_to_utf8` is not part of this model. It is a function parameter, so the size limits of the destination buffers live inside it.
- `libdrv::split` and `libdrv::empty` are not part of this model. `Split` and `Empty` follow their use at persistent.cpp lines 110-135: the first separator splits, and without one the tail is empty.
- Persistent.PluginPersistentDevices: the source loop has no bound and runs until the collection is empty or a stop is requested. The model runs at most `rounds` rounds, and its contract says that stopping before `rounds` happens only for those reasons.
- Persistent.PluginPersistentDevices: the source reuses one request buffer across records. The model builds each request afresh from the converted fields. A request is sent only after all three conversions succeeded and `port` was reset, so bytes an earlier record left in the buffer are not modelled.
- Persistent.VhciCtx.Sleep: the 5-second wait itself (`KeDelayExecutionThread`) and its status are not modelled; only the slice count and the stop checks are.
- The concurrency of `stop_thread` is modelled only by the moment it is set: reads numbered `stopFrom` and later see it set, earlier ones see it clear. Memory ordering and the `volatile` qualifier are not modelled.
- Persistent.VhciCtx.PollStop: `polls` counts reads of the flag and only PollStop advances it in the model; a method whose frame names the field `polls` could also write it, so that is a convention of the model, not a proved fact.
- NUM_PORTS is declared in `dev.h`, which is not part of this model; any positive value is allowed. The other declarations of `vhub.h` have no bodies there.
- ARRAYSIZE(ctx.devices) comes from the driver context, which is not part of this model. It is the constructor argument `capacity`, a positive ULONG value, since a C++ array is never empty; the other constructor argument is `stopFrom`.
- The numeric NTSTATUS and ERROR_USBIP_* values live in headers that are not part of this model. The model only tells the named codes apart; `OtherStatus` carries a non-zero code that stands for a value distinct from every named one.
- The bodies of the `Mdl` constructor and destructor, `prepare`, `prepare_paged`, `prepare_nonpaged`, `unprepare`, `lock`, `unlock`, `next(Mdl&)` and `list_size` are not in `mdl_cpp.h`. Their effect on the lock state is modelled abstractly by a `prepared` flag.
- The memory pool kind (`memory`, its alias `memory::stack` = `Stack`, and `m_paged`) is declared but no modelled operation reads it.
- MdlCpp.PrepareAll: requires its arguments to be distinct objects. The C++ template also accepts one object twice, which calls prepare on it twice; that case is not covered. UnprepareAll does cover repeated arguments.
- MdlCpp.UnprepareAll: states how many times each argument is unprepared, not the order of the calls.
