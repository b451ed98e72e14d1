# sysfs GPIO output driver, modelled in Dafny

This project models `gpio/sysfsio.c`, a small module that drives one GPIO
output line of a Linux board through the kernel's legacy sysfs interface
under `/sys/class/gpio`. It writes a line number to `export` to create the
line's `gpio<N>` directory. It then waits until the line's `direction`
file exists and is readable and writable, which happens once udev has fixed
its permissions. Last, it writes the token `high` or `low` to `direction`.
This driver takes that token as the output level.

The model has four modules:

- `Timing` (timing.dfy): `struct timespec` values and the two helpers.
  `ts_diff` subtracts two samples and borrows a second when it must.
  `ts_to_ms` turns a sample into milliseconds. C's truncating division
  and the conversion to `uint32_t` (modulo 2^32) are written out.
- `Poller` (poller.dfy): `poll_file_rw` as a method with a `while` loop,
  run in an environment `Env`. The environment gives the state of the file
  at each tick (absent, present without read/write access, or ready). It
  also gives the first clock read and the read that ends each tick; a read
  is a sample or a failure. `Tick` says how tick `k` ends: `Found`,
  `Retry` (the branch that sleeps 5 ms), `TimedOut` or `ClockLost`.
  `PollResult` is the specification of the result: the first tick that
  does not retry finds the file ready.
- `DecimalFormat` (decimal.dfy): the `%u` payload of the export and
  unexport writes, and the decimal reading of it, with both round trips.
- `SysfsGpio` (sysfs.dfy): a class `Sysfs` that holds the sysfs state the
  operations change. `nodes` is what a `stat` of `gpio<N>` finds.
  `direction` is the last token written to each line's `direction` file.
  `trace` lists every side effect in order: probe, open, write, close,
  poll, sleep. An `IoOutcome` passed by the caller decides whether each
  `fopen`, `fprintf` and `fclose` succeeds. `fprintf` only fills the
  stream's buffer, so the kernel acts on a payload only when the `fclose`
  that hands it over succeeds (`Delivered`). The class invariant `Valid`
  says three things. Only `high` or `low` is ever written to a `direction`
  file. Only a decimal line number is ever written to a control file.
  Every opened file handle has been closed.

With the largest timeout, `UINT32_MAX`, the loop of `poll_file_rw` can
never time out. The elapsed milliseconds are a `uint32_t` and so can never
exceed it (`Poller.MaxTimeoutNeverTimesOut`). The only caller passes 1000.

## Model

| member | source | states |
|---|---|---|
| `Timing.Diff` | gpio/sysfsio.c:33-44 | the difference is exactly the elapsed nanoseconds (for every ordered pair), its seconds are never negative, and it is normalised when both samples are |
| `Timing.DiffSelf` | gpio/sysfsio.c:33-44 | `ts_diff(t, t)` is `(0, 0)` |
| `Timing.DiffBorrow` | gpio/sysfsio.c:36-42 | the borrow branch is taken exactly when `ts1.nsec < ts2.nsec` |
| `Timing.NotEarlierIsInstantOrder` | gpio/sysfsio.c:35 | for normalised samples the asserted field-wise ordering is the ordering of the instants |
| `Timing.NormalisedUnique` | gpio/sysfsio.c:33-44 | two normalised timestamps denoting the same instant are equal |
| `Timing.DiffIsInstantDifference` | gpio/sysfsio.c:33-44 | `ts_diff` equals the normalised timestamp of the instant difference (an independent reference definition) |
| `Timing.CDiv` | gpio/sysfsio.c:47 | C division truncates toward zero: floor division for a non-negative dividend, the negated quotient otherwise |
| `Timing.ToMs` | gpio/sysfsio.c:46-48 | for a normalised sample the result is the floor of its nanoseconds over 10^6, modulo 2^32 |
| `Timing.ToMsMonotone` | gpio/sysfsio.c:46-48 | below the 32-bit wrap-around, `ts_to_ms` is monotone in the instant |
| `Timing.Examples` | gpio/sysfsio.c:33-48 | `(10,100) - (9,999999999) = (0,101)`, `ts_to_ms((1,0)) = 1000`, `ts_to_ms((0,500000000)) = 500`, and the wrap-around and negative cases |
| `Poller.ElapsedMsExact` | gpio/sysfsio.c:78 | below the wrap-around the elapsed milliseconds the loop compares are the floor of the elapsed nanoseconds |
| `Poller.RetryProgress` | gpio/sysfsio.c:74-84 | a tick that sleeps read the clock, moved it forward, and is still within the timeout |
| `Poller.Tick` | gpio/sysfsio.c:61-84 | the file checks come first: a tick finds the file exactly when it is ready, whatever the clock; it loses the clock exactly when the file is not ready and the read fails; it retries only after a successful read within the timeout |
| `Poller.LogTimeAsWritten` | gpio/sysfsio.c:67 | the sample the success log line passes to `ts_diff`: at the first tick, whatever `time_now` happened to hold |
| `Poller.UninitialisedLogTimeUnordered` | gpio/sysfsio.c:51-67 | a monotonic clock, a file ready at the first tick, and a `time_now` earlier than `time_start`: the log line's `ts_diff` precondition, the assert at line 35, fails |
| `Poller.LogTime` | gpio/sysfsio.c:67 | the same sample with `time_now` initialised to `time_start`; at the first tick it is the first read |
| `Poller.LogTimeOrdered` | gpio/sysfsio.c:33-67 | with `time_now` initialised, at every tick the loop reaches the log line's sample is not earlier than the first read |
| `Poller.PollFileRw` | gpio/sysfsio.c:50-87 | a failed first clock read gives false with no file checked; otherwise at least one check happens whatever the timeout, every tick before the last retried, the result is true exactly when the last tick found the file ready, and the result equals `PollResult`; with `time_now` initialised, the `ts_diff` of the success log line meets its assert |
| `Poller.FirstDecisionUnique` | gpio/sysfsio.c:59-85 | only one tick is the first that does not retry |
| `Poller.RetriesStayWithinTimeout` | gpio/sysfsio.c:74-85 | after ticks that all retried, the last clock read succeeded and is within the timeout in nanoseconds |
| `Poller.DecisionReached` | gpio/sysfsio.c:59-85 | with a clock that advances, some tick ends the loop: the loop terminates |
| `Poller.DecisionReachedFrom` | gpio/sysfsio.c:59-85 | the induction step of that termination argument, from any tick reached by retries |
| `Poller.ReadyAtOnce` | gpio/sysfsio.c:59-68 | a file ready at the first tick makes the poll succeed, for every timeout including 0 |
| `Poller.SuccessMeansReady` | gpio/sysfsio.c:61-68 | success means the file was found with read and write access at some tick; each earlier tick did not find it so and read the clock within the timeout |
| `Poller.NeverReadyFails` | gpio/sysfsio.c:61-86 | a file that never becomes ready makes the poll fail |
| `Poller.FailureMeansStopped` | gpio/sysfsio.c:74-86 | with a clock that advances, a failed poll ended at a tick that did not find the file ready and either lost the clock or was strictly past the timeout |
| `Poller.TimeoutSoonAfterDeadline` | gpio/sysfsio.c:74-80 | a timeout is reported at the first read past `timeout_ms`, at most one clock step after the deadline: the read before it was still within the timeout, and the compared milliseconds are the exact elapsed time, not wrapped around |
| `Poller.MaxTimeoutNeverTimesOut` | gpio/sysfsio.c:78 | with `timeout_ms = UINT32_MAX` no tick times out |
| `DecimalFormat.Decimal` | gpio/sysfsio.c:98 | `%u` output: at least one digit, no leading zero, a single digit exactly for numbers below ten |
| `DecimalFormat.ParseOfDecimal` | gpio/sysfsio.c:98 | reading the printed line number back gives the number |
| `DecimalFormat.DecimalOfParse` | gpio/sysfsio.c:98 | printing what a decimal string denotes gives the string back |
| `DecimalFormat.DecimalInjective` | gpio/sysfsio.c:98 | distinct line numbers are written as distinct payloads |
| `DecimalFormat.Examples` | gpio/sysfsio.c:98 | lines 0, 60 and 127 are written as `0`, `60` and `127` |
| `SysfsGpio.LevelToken` | gpio/sysfsio.c:144 | the token is `high` or `low`, and `high` exactly when the value is non-zero |
| `SysfsGpio.WriteSteps` | gpio/sysfsio.c:92-107 | nothing happens when the open fails; otherwise the effects start with the open and end with the close, and contain the write exactly when it succeeded |
| `SysfsGpio.WriteStepsRelease` | gpio/sysfsio.c:137-154 | one open-write-close leaves no handle open, on the open-failure, write-failure and success paths |
| `SysfsGpio.CloseOutcomeIgnored` | gpio/sysfsio.c:104-107 | the close outcome does not change whether a write succeeds |
| `SysfsGpio.SettleSteps` | gpio/sysfsio.c:170-176 | the post-export effects are the poll and, exactly when the poll succeeded, the 1 ms settle sleep |
| `SysfsGpio.Sysfs.WriteFile` | gpio/sysfsio.c:89-107 | the shared open-write-close: succeeds exactly when open and write do, and records its effects |
| `SysfsGpio.Sysfs.IsGpioExported` | gpio/sysfsio.c:13-31 | true exactly when the path exists and is a directory, false when it is missing or not a directory |
| `SysfsGpio.Sysfs.Export` | gpio/sysfsio.c:89-108 | writes the decimal line number to `export`; false on open or write failure, true even on close failure; the line's directory exists afterwards only when the close, which hands the payload to the kernel, also succeeded |
| `SysfsGpio.Sysfs.ExportChecked` | gpio/sysfsio.c:104-107 | the export with the close checked: true exactly when open, write and close all succeed, and then the line is exported |
| `SysfsGpio.Sysfs.Unexport` | gpio/sysfsio.c:110-129 | the same against `unexport`; the line's directory is gone afterwards only when the close also succeeded |
| `SysfsGpio.Sysfs.OutputValue` | gpio/sysfsio.c:131-155 | writes exactly `high` for a non-zero value and `low` for zero to the line's `direction`; false on open or write failure, true even on close failure; the token takes effect only when the close also succeeded |
| `SysfsGpio.Sysfs.Set` | gpio/sysfsio.c:157-183 | an exported line gets only the value write, with no export and no poll, and the result is the value write's; a failed export gives false with nothing written to `direction`; after an export that reports success the poll happens, a timed-out poll does not stop the value write, the settle sleep follows only a successful poll, and the result is the value write's; the line is exported and the token takes effect only when the kernel accepted them |
| `SysfsGpio.ExportUnexportRoundTrip` | gpio/sysfsio.c:89-129 | export then unexport, both accepted by the kernel, leaves the line unexported and the other lines as they were |
| `SysfsGpio.SetTwiceScenario` | gpio/sysfsio.c:157-183 | line 60, not exported, set to 1 then 0: the first call exports, polls and writes `high`, the second writes `low` alone |
| `SysfsGpio.ExportCloseFailureScenario` | gpio/sysfsio.c:98-107 | an export of line 200 refused at the close returns true and leaves line 200 unexported |
| `SysfsGpio.ExportCheckedCloseFailureScenario` | gpio/sysfsio.c:104-107 | the same export with the close checked returns false |

## Left out

- The system calls (`stat`, `access`, `fopen`, `fprintf`, `fclose`, `clock_gettime`, `usleep`) are not executed: their outcomes are parameters (`IoOutcome`, `Env`, the `nodes` map).
- Sleeping is not modelled as time passing. The 5 ms sleep is the `Retry` branch of a tick, and the 1 ms settle sleep is a `Slept` action.
- Diagnostic output (`printf`, `perror`, `strerror_r`) is left out. It is logging only. This is why the probe's "not a directory" and "not found" cases differ only in their log line.
- Path formatting with `snprintf` and the buffer sizes are left out. Files are abstract keys: the two control files, and the `direction` file of a line.
- `time_t` and `long` are unbounded integers. The 64-bit overflow of `tv_sec * 1000` is not modelled.
- A violated `assert` in `ts_diff` aborts the C program. Here it is the precondition `NotEarlier`, which the clock hypothesis `Monotonic` supplies.
- Poller.PollFileRw: requires `Advancing`, a hypothesis the source does not check. Every clock sample is normalised. Each sample is more than 0 ns and at most `2^32 - 1 - timeout_ms` ms after the previous one, so that a read within the timeout is followed by one the 32-bit count measures without wrapping. Without this hypothesis the C loop need not terminate, and a Dafny method must terminate. With `timeout_ms = UINT32_MAX` it admits no step, as the loop then never times out.
- SysfsGpio.Sysfs.Set: requires the same `Advancing` hypothesis for its poll, with the 1000 ms timeout.
- The kernel and udev are not modelled. An export write that the kernel accepts at the close makes the line's directory appear at once. The file's appearance and permission fix-up during the poll are only the environment's per-tick file state. A successful unexport removes the directory and leaves the last token in `direction`.
- Concurrent exports of the same line are left out. The code does not coordinate them, and the module is single-threaded.
- `MAX_GPIO_NUM` (127) is defined as a constant. No operation checks against it, as in the source.
- A write fails only when `fprintf` returns a negative value; a short write is not detected. The model has one write outcome.

## Findings

| source | as written | input that shows it | evidently intended | confidence | as-written member | corrected member |
|---|---|---|---|---|---|---|
| gpio/sysfsio.c:51-67 | the success log line passes `time_now` to `ts_diff`, but at the first tick no clock read has set `time_now` | the file is ready at the first tick, `time_start` is (100 s, 0 ns) and the stack slot of `time_now` holds (0, 0): the assert at line 35 fails and the program aborts | `time_now` starts out as `time_start`, so that the first tick's log line reports 0 ms plus the delay | high that `time_now` is read uninitialised, low that it aborts on a given board; not executed | `Poller.LogTimeAsWritten`, `Poller.UninitialisedLogTimeUnordered` | `Poller.LogTime`, `Poller.LogTimeOrdered` |
| gpio/sysfsio.c:98-107 | a failed `fclose` is reported and the function still returns true; only a negative `fprintf` counts as a failed write, although `fprintf` only fills the stream's buffer and the kernel's answer comes at `fclose` | `sysfs_gpio_export(200)` where the kernel refuses line 200: `fprintf` succeeds, `fclose` fails, the result is true and there is no `gpio200` | a failed `fclose` makes the write fail | medium; not executed | `SysfsGpio.Sysfs.Export`, `SysfsGpio.ExportCloseFailureScenario` | `SysfsGpio.Sysfs.ExportChecked`, `SysfsGpio.ExportCheckedCloseFailureScenario` |

`Poller.PollFileRw` follows the corrected loop: it starts `time_now` at the first read and proves that the success log line's `ts_diff` meets its assert. The returned result is the same as the code's. `SysfsGpio.Sysfs.Set` keeps the code's results for export and value write, because those are what callers of the module receive. The state the kernel keeps follows the corrected reading in every operation: it changes only when the close succeeds (`SysfsGpio.Delivered`). The same pattern at lines 125-128 (unexport) and 151-153 (value write) is modelled in the same way.
