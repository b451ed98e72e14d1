/** The sysfs GPIO operations: probe whether a line is exported, export and
    unexport it through the control files, write its output level, and the
    orchestrator that exports a line when needed before writing its level.

    The sysfs tree is an object whose fields the operations update: what a
    `stat` of `gpio<N>` finds, the last token written to each line's
    `direction` file, and the trace of every side effect in order. Whether
    an open, a write or a close succeeds is decided by an outcome the
    caller passes in, and the poll runs in a clock and file environment. */
module SysfsGpio {
  import opened Timing
  import opened Poller
  import opened DecimalFormat

  /** Timeout of the post-export poll, in milliseconds (sysfsio.h). */
  const SYSFS_EXPORT_POLL_TIMEOUT_MS: uint32 := 1000
  /** Settle delay after a successful poll, in milliseconds (sysfsio.h). */
  const SYSFS_EXPORT_POST_WAIT_MS := 1
  /** Highest line on the board, 4 chips of 32 lines (sysfsio.h); no
      operation checks against it. */
  const MAX_GPIO_NUM := 4 * 32 - 1

  type uint8 = x: int | 0 <= x < 256

  /** The files the module writes: the two control files, and the
      `direction` attribute of one line. */
  datatype SysfsFile = ExportFile | UnexportFile | DirectionFile(line: uint32)

  /** What a `stat` of `gpio<N>` finds when the path exists. */
  datatype Node = Directory | NotDirectory

  /** The outcomes of `fopen`, `fprintf` and `fclose` for one write. */
  datatype IoOutcome = IoOutcome(opens: bool, writes: bool, closes: bool)

  /** A side effect, in the order it happens. */
  datatype Action =
    | Probed(line: uint32)
    | Opened(file: SysfsFile)
    | Wrote(file: SysfsFile, payload: string)
    | Closed(file: SysfsFile)
    | Polled(file: SysfsFile, timeoutMs: uint32, ready: bool)
    | Slept(ms: nat)

  /** The token written to `direction` for an output value. */
  function LevelToken(value: uint8): (token: string)
    ensures token == "high" || token == "low"
    ensures token == "high" <==> value != 0
  {
    if value != 0 then "high" else "low"
  }

  /** The effects of one open-write-close: nothing when the open fails;
      otherwise the open, the write when it succeeds, and the close, which
      happens on both paths. */
  function WriteSteps(file: SysfsFile, payload: string, io: IoOutcome): (steps: seq<Action>)
    ensures steps == [] <==> !io.opens
    ensures io.opens ==> steps[0] == Opened(file) && steps[|steps| - 1] == Closed(file)
    ensures Wrote(file, payload) in steps <==> io.opens && io.writes
  {
    if !io.opens then []
    else [Opened(file)] + (if io.writes then [Wrote(file, payload)] else []) + [Closed(file)]
  }

  /** A write succeeds when the open and the write do; the close outcome
      does not enter into it. */
  predicate WriteSucceeds(io: IoOutcome) {
    io.opens && io.writes
  }

  /** The payload reached the kernel, which accepted it. `fprintf` only
      fills the stream's buffer; the buffer is handed to the kernel by
      `fclose`, and an attribute that refuses the payload makes that
      `fclose` fail. */
  predicate Delivered(io: IoOutcome) {
    io.opens && io.writes && io.closes
  }

  /** The only payloads: a level token to a `direction` file, a decimal
      line number to a control file. */
  predicate PayloadFits(a: Action) {
    a.Wrote? ==>
      if a.file.DirectionFile? then a.payload == "high" || a.payload == "low"
      else IsDecimal(a.payload)
  }

  /** Open handles left by a trace: opens minus closes. */
  function OpenHandles(trace: seq<Action>): (handles: int) {
    if trace == [] then 0
    else OpenHandles(trace[..|trace| - 1]) + HandleDelta(trace[|trace| - 1])
  }

  function HandleDelta(a: Action): (delta: int) {
    if a.Opened? then 1 else if a.Closed? then -1 else 0
  }

  lemma {:induction false} OpenHandlesAppend(s: seq<Action>, t: seq<Action>)
    ensures OpenHandles(s + t) == OpenHandles(s) + OpenHandles(t)
    decreases |t|
  {
    if t != [] {
      assert (s + t)[..|s + t| - 1] == s + t[..|t| - 1];
      assert (s + t)[|s + t| - 1] == t[|t| - 1];
      OpenHandlesAppend(s, t[..|t| - 1]);
    } else {
      assert s + t == s;
    }
  }

  /** Every handle one write opens, it closes, on every path. */
  lemma WriteStepsRelease(file: SysfsFile, payload: string, io: IoOutcome)
    ensures OpenHandles(WriteSteps(file, payload, io)) == 0
  {
    if io.opens {
      var middle := if io.writes then [Wrote(file, payload)] else [];
      OpenHandlesAppend([Opened(file)] + middle, [Closed(file)]);
      OpenHandlesAppend([Opened(file)], middle);
      OneHandle(Opened(file));
      OneHandle(Closed(file));
      if io.writes {
        OneHandle(Wrote(file, payload));
      }
    }
  }

  lemma OneHandle(a: Action)
    ensures OpenHandles([a]) == HandleDelta(a)
  {
  }

  /** What the payloads of one write are, for the payload that is passed. */
  lemma WriteStepsPayloads(file: SysfsFile, payload: string, io: IoOutcome)
    requires PayloadFits(Wrote(file, payload))
    ensures forall a :: a in WriteSteps(file, payload, io) ==> PayloadFits(a)
  {
  }

  class Sysfs {
    /** What `stat` of `gpio<N>` finds; a line absent from the map has no path. */
    var nodes: map<uint32, Node>
    /** The last token written to `gpio<N>/direction`. */
    var direction: map<uint32, string>
    /** Every side effect so far, oldest first. */
    var trace: seq<Action>

    /** Only level tokens and decimal line numbers are ever written, and no
        file handle is left open. */
    ghost predicate Valid()
      reads this
    {
      && (forall i :: 0 <= i < |trace| ==> PayloadFits(trace[i]))
      && OpenHandles(trace) == 0
      && (forall n :: n in direction ==> direction[n] == "high" || direction[n] == "low")
    }

    /** The line is exported: its path exists and is a directory. */
    predicate Exported(n: uint32)
      reads this
    {
      n in nodes && nodes[n] == Directory
    }

    constructor (initial: map<uint32, Node>)
      ensures Valid()
      ensures nodes == initial && direction == map[] && trace == []
    {
      nodes := initial;
      direction := map[];
      trace := [];
    }

    /** Appends the effects of one write and keeps Valid. */
    method Record(steps: seq<Action>)
      requires Valid()
      requires OpenHandles(steps) == 0
      requires forall a :: a in steps ==> PayloadFits(a)
      modifies this`trace
      ensures Valid()
      ensures trace == old(trace) + steps
    {
      OpenHandlesAppend(trace, steps);
      trace := trace + steps;
    }

    /** The open, write and close that export, unexport and the value
        write share. */
    method WriteFile(file: SysfsFile, payload: string, io: IoOutcome) returns (ok: bool)
      requires Valid() && PayloadFits(Wrote(file, payload))
      modifies this`trace
      ensures Valid()
      ensures ok == WriteSucceeds(io)
      ensures trace == old(trace) + WriteSteps(file, payload, io)
    {
      WriteStepsRelease(file, payload, io);
      WriteStepsPayloads(file, payload, io);
      Record(WriteSteps(file, payload, io));
      if !io.opens {
        return false;
      }
      if !io.writes {
        return false;
      }
      // a failed close is reported and ignored
      return true;
    }

    /** sysfs_is_gpio_exported: true only when the path exists and is a
        directory; a missing path and a path that is not a directory both
        give false. */
    method IsGpioExported(n: uint32) returns (exported: bool)
      requires Valid()
      modifies this`trace
      ensures Valid()
      ensures exported <==> Exported(n)
      ensures trace == old(trace) + [Probed(n)]
    {
      AppendNeutralSeq([Probed(n)]);
      trace := trace + [Probed(n)];
      if n in nodes {
        if nodes[n] == Directory {
          return true;
        } else {
          return false;
        }
      } else {
        return false;
      }
    }

    /** sysfs_gpio_export: write the decimal line number to `export`. The
        result ignores the close; the line's directory appears only when the
        kernel accepted the payload at the close. */
    method Export(n: uint32, io: IoOutcome) returns (ok: bool)
      requires Valid()
      modifies this
      ensures Valid()
      ensures ok == WriteSucceeds(io)
      ensures trace == old(trace) + WriteSteps(ExportFile, Decimal(n), io)
      ensures nodes == if Delivered(io) then old(nodes)[n := Directory] else old(nodes)
      ensures direction == old(direction)
    {
      ok := WriteFile(ExportFile, Decimal(n), io);
      if ok && io.closes {
        nodes := nodes[n := Directory];
      }
    }

    /** Export with the close checked: the result is true exactly when the
        kernel accepted the line number, and then the line is exported. */
    method ExportChecked(n: uint32, io: IoOutcome) returns (ok: bool)
      requires Valid()
      modifies this
      ensures Valid()
      ensures ok == Delivered(io)
      ensures ok ==> Exported(n)
      ensures trace == old(trace) + WriteSteps(ExportFile, Decimal(n), io)
      ensures nodes == if ok then old(nodes)[n := Directory] else old(nodes)
      ensures direction == old(direction)
    {
      ok := WriteFile(ExportFile, Decimal(n), io);
      if ok && !io.closes {
        // a failed close is the kernel refusing the payload
        ok := false;
      }
      if ok {
        nodes := nodes[n := Directory];
      }
    }

    /** sysfs_gpio_unexport: write the decimal line number to `unexport`.
        The result ignores the close; the line's directory is removed only
        when the kernel accepted the payload at the close. */
    method Unexport(n: uint32, io: IoOutcome) returns (ok: bool)
      requires Valid()
      modifies this
      ensures Valid()
      ensures ok == WriteSucceeds(io)
      ensures trace == old(trace) + WriteSteps(UnexportFile, Decimal(n), io)
      ensures nodes == if Delivered(io) then old(nodes) - {n} else old(nodes)
      ensures direction == old(direction)
    {
      ok := WriteFile(UnexportFile, Decimal(n), io);
      if ok && io.closes {
        nodes := nodes - {n};
      }
    }

    /** sysfs_gpio_output_value: write "high" for a non-zero value and
        "low" for zero to the line's `direction` file. The result ignores
        the close; the token takes effect only when the kernel accepted it
        at the close. */
    method OutputValue(n: uint32, value: uint8, io: IoOutcome) returns (ok: bool)
      requires Valid()
      modifies this
      ensures Valid()
      ensures ok == WriteSucceeds(io)
      ensures trace == old(trace) + WriteSteps(DirectionFile(n), LevelToken(value), io)
      ensures direction == if Delivered(io) then old(direction)[n := LevelToken(value)] else old(direction)
      ensures nodes == old(nodes)
    {
      ok := WriteFile(DirectionFile(n), LevelToken(value), io);
      if ok && io.closes {
        direction := direction[n := LevelToken(value)];
      }
    }

    /** sysfs_gpio_set. An exported line gets only the value write. Any
        other line is exported first; when that fails nothing more
        happens. After a successful export the `direction` file is polled
        with SYSFS_EXPORT_POLL_TIMEOUT_MS; a timed-out poll does not stop
        the value write, and only a successful one is followed by the
        settle sleep. The result is that of the value write. */
    method Set(n: uint32, value: uint8, exportIo: IoOutcome, pollEnv: Env, outputIo: IoOutcome)
      returns (ok: bool)
      requires Valid()
      requires Monotonic(pollEnv) && Advancing(pollEnv, SYSFS_EXPORT_POLL_TIMEOUT_MS)
      modifies this
      ensures Valid()
      ensures old(Exported(n)) ==>
        && ok == WriteSucceeds(outputIo)
        && trace == old(trace) + [Probed(n)] + WriteSteps(DirectionFile(n), LevelToken(value), outputIo)
        && nodes == old(nodes)
      ensures !old(Exported(n)) && !WriteSucceeds(exportIo) ==>
        && !ok
        && trace == old(trace) + [Probed(n)] + WriteSteps(ExportFile, Decimal(n), exportIo)
        && nodes == old(nodes)
      ensures !old(Exported(n)) && WriteSucceeds(exportIo) ==>
        && ok == WriteSucceeds(outputIo)
        && trace == old(trace) + [Probed(n)] + WriteSteps(ExportFile, Decimal(n), exportIo)
                    + SettleSteps(n, PollResult(pollEnv, SYSFS_EXPORT_POLL_TIMEOUT_MS))
                    + WriteSteps(DirectionFile(n), LevelToken(value), outputIo)
        && nodes == if Delivered(exportIo) then old(nodes)[n := Directory] else old(nodes)
      ensures direction ==
        if ok && Delivered(outputIo) then old(direction)[n := LevelToken(value)] else old(direction)
    {
      var exported := IsGpioExported(n);
      if !exported {
        var exportOk := Export(n, exportIo);
        if !exportOk {
          return false;
        }
        var ready, _ := PollFileRw(pollEnv, SYSFS_EXPORT_POLL_TIMEOUT_MS);
        var settle := SettleSteps(n, ready);
        AppendNeutralSeq(settle);
        trace := trace + settle;
      }
      ok := OutputValue(n, value, outputIo);
    }

    /** Actions without writes, opens or closes keep Valid. */
    lemma AppendNeutralSeq(steps: seq<Action>)
      requires Valid()
      requires forall a :: a in steps ==> !a.Wrote? && !a.Opened? && !a.Closed?
      ensures OpenHandles(trace + steps) == 0
      ensures forall i :: 0 <= i < |trace + steps| ==> PayloadFits((trace + steps)[i])
    {
      OpenHandlesAppend(trace, steps);
      NeutralHandles(steps);
    }
  }

  /** The poll of the line's `direction` file after an export, and the
      settle sleep that follows only a successful poll. */
  function SettleSteps(n: uint32, ready: bool): (steps: seq<Action>)
    ensures forall a :: a in steps ==> !a.Wrote? && !a.Opened? && !a.Closed?
    ensures Slept(SYSFS_EXPORT_POST_WAIT_MS) in steps <==> ready
  {
    [Polled(DirectionFile(n), SYSFS_EXPORT_POLL_TIMEOUT_MS, ready)]
      + (if ready then [Slept(SYSFS_EXPORT_POST_WAIT_MS)] else [])
  }

  lemma {:induction false} NeutralHandles(steps: seq<Action>)
    requires forall a :: a in steps ==> !a.Opened? && !a.Closed?
    ensures OpenHandles(steps) == 0
    decreases |steps|
  {
    if steps != [] {
      assert steps[|steps| - 1] in steps;
      NeutralHandles(steps[..|steps| - 1]);
    }
  }

  /** A close failure does not turn a successful write into a failure. */
  lemma CloseOutcomeIgnored(io: IoOutcome)
    ensures WriteSucceeds(io) == WriteSucceeds(io.(closes := !io.closes))
  {
  }

  /** Export then unexport: when the kernel accepts both writes the line
      ends unexported and every other line is as before; when it accepts
      only the export the line ends exported; when neither, as it was. */
  method ExportUnexportRoundTrip(s: Sysfs, n: uint32, exportIo: IoOutcome, unexportIo: IoOutcome)
    returns (exported: bool)
    requires s.Valid()
    modifies s
    ensures s.Valid()
    ensures exported <==>
      if Delivered(unexportIo) then false
      else if Delivered(exportIo) then true
      else old(s.Exported(n))
    ensures Delivered(exportIo) && Delivered(unexportIo) ==> s.nodes == old(s.nodes) - {n}
    ensures s.direction == old(s.direction)
  {
    var _ := s.Export(n, exportIo);
    var _ := s.Unexport(n, unexportIo);
    exported := s.IsGpioExported(n);
  }

  /** Line 60, not exported, is set to 1 and then to 0 with every write
      accepted: the first call exports, polls and writes "high"; the
      second finds the line exported and writes "low" alone. */
  method SetTwiceScenario(pollEnv: Env, io: IoOutcome) returns (s: Sysfs, first: bool, second: bool)
    requires Monotonic(pollEnv) && Advancing(pollEnv, SYSFS_EXPORT_POLL_TIMEOUT_MS)
    requires Delivered(io)
    ensures first && second
    ensures s.Valid() && s.Exported(60) && s.direction == map[60 := "low"]
    ensures s.trace ==
      [Probed(60)] + WriteSteps(ExportFile, "60", io)
      + SettleSteps(60, PollResult(pollEnv, SYSFS_EXPORT_POLL_TIMEOUT_MS))
      + WriteSteps(DirectionFile(60), "high", io)
      + [Probed(60)] + WriteSteps(DirectionFile(60), "low", io)
  {
    s := new Sysfs(map[]);
    assert Decimal(60) == "60";
    assert WriteSucceeds(io) && LevelToken(1) == "high" && LevelToken(0) == "low";
    first := s.Set(60, 1, io, pollEnv, io);
    assert s.nodes == map[60 := Directory] && s.direction == map[60 := "high"];
    ghost var firstTrace := s.trace;
    assert firstTrace ==
      [Probed(60)] + WriteSteps(ExportFile, "60", io)
      + SettleSteps(60, PollResult(pollEnv, SYSFS_EXPORT_POLL_TIMEOUT_MS))
      + WriteSteps(DirectionFile(60), "high", io);
    second := s.Set(60, 0, io, pollEnv, io);
    assert s.trace == firstTrace + [Probed(60)] + WriteSteps(DirectionFile(60), "low", io);
  }

  /** The export of line 200 is refused when the stream is flushed at the
      close: `sysfs_gpio_export` still returns true, and the line is not
      exported. */
  method ExportCloseFailureScenario() returns (s: Sysfs, ok: bool)
    ensures s.Valid()
    ensures ok && !s.Exported(200)
    ensures s.trace == [Opened(ExportFile), Wrote(ExportFile, "200"), Closed(ExportFile)]
  {
    s := new Sysfs(map[]);
    assert Decimal(200) == "200";
    ok := s.Export(200, IoOutcome(true, true, false));
  }

  /** The same export with the close checked reports the refusal. */
  method ExportCheckedCloseFailureScenario() returns (s: Sysfs, ok: bool)
    ensures s.Valid()
    ensures !ok && !s.Exported(200)
  {
    s := new Sysfs(map[]);
    ok := s.ExportChecked(200, IoOutcome(true, true, false));
  }
}
