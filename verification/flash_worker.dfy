/** The flashing worker (`ESPWorker` in tasmotizer.py): it turns the port,
    the image path, the backup/erase/verify check boxes and the current
    time into esptool argument lists, runs a backup stage and then a write
    stage, each gated by the worker's continue flag, and reports what
    happened through signals.

    esptool itself is not modelled: each call is an input function from the
    argument list to its outcome (it returns, raises FatalError /
    SerialException with a message, or raises something `execute` does not
    catch, which ends the run). Signals become events in a trace, and
    the esptool calls appear in that trace in the order they are issued. */
module FlashWorker {
  import opened Strings

  datatype Flags = Flags(backup: bool, erase: bool, verify: bool)

  datatype Worker = Worker(port: string, binFile: string, flags: Flags, continueFlag: bool)

  /** `datetime.now()` to the second. */
  datatype Instant = Instant(year: nat, month: nat, day: nat, hour: nat, minute: nat, second: nat)

  predicate ValidInstant(t: Instant) {
    && 1 <= t.year <= 9999 && 1 <= t.month <= 12 && 1 <= t.day <= 31
    && t.hour < 24 && t.minute < 60 && t.second < 60
  }

  /** What one `esptool.main(command)` call did: it returned, raised a
      `FatalError` or `SerialException` (which `execute` catches), or raised
      anything else (which `execute` does not catch). */
  datatype EspOutcome = Returned | Raised(message: string) | Escaped

  /** The worker's observable effects: its signals and its esptool calls. */
  datatype Event =
    | BackupStart
    | Esptool(args: seq<string>)
    | PortError(message: string)
    | Finished

  /** A freshly constructed worker is willing to run. */
  function NewWorker(port: string, binFile: string, flags: Flags): (w: Worker)
    ensures w.continueFlag
    ensures w.port == port && w.binFile == binFile && w.flags == flags
  {
    Worker(port, binFile, flags, true)
  }

  /** `stop()`: clears the continue flag; nothing else about the worker changes. */
  function Stop(w: Worker): (w': Worker)
    ensures !w'.continueFlag
    ensures w'.port == w.port && w'.binFile == w.binFile && w'.flags == w.flags
  {
    w.(continueFlag := false)
  }

  function BaseCommand(port: string): seq<string> {
    ["--chip", "esp8266", "--port", port, "--baud", "115200"]
  }

  /** `%Y%m%d` of the instant. */
  function DatePart(t: Instant): string
    requires ValidInstant(t)
  {
    ZeroPad(t.year, 4) + ZeroPad(t.month, 2) + ZeroPad(t.day, 2)
  }

  /** `%H%M%S` of the instant. */
  function TimePart(t: Instant): string
    requires ValidInstant(t)
  {
    ZeroPad(t.hour, 2) + ZeroPad(t.minute, 2) + ZeroPad(t.second, 2)
  }

  /** `backup_%Y%m%d_%H%M%S.bin` for the given instant. */
  function BackupFileName(t: Instant): string
    requires ValidInstant(t)
  {
    "backup_" + DatePart(t) + "_" + TimePart(t) + ".bin"
  }

  const BackupArgs: seq<string> := ["--after", "no_reset", "read_flash", "0x00000", "0x100000"]

  const WriteArgs: seq<string> := ["--after", "soft_reset", "write_flash", "--flash_mode", "dout", "--flash_size", "1MB", "0x00000"]

  /** The backup command: read the whole 1 MiB flash into a timestamped file. */
  function BackupCommand(port: string, t: Instant): (cmd: seq<string>)
    requires ValidInstant(t)
    ensures |cmd| == 12 && cmd[..6] == BaseCommand(port)
    ensures cmd[6..11] == BackupArgs && cmd[11] == BackupFileName(t)
  {
    BaseCommand(port) + BackupArgs + [BackupFileName(t)]
  }

  /** The write command, then `--erase-all` if erasing, then `verify` if verifying. */
  function WriteCommand(port: string, binFile: string, flags: Flags): (cmd: seq<string>)
    ensures |cmd| == 15 + (if flags.erase then 1 else 0) + (if flags.verify then 1 else 0)
    ensures cmd[..6] == BaseCommand(port) && cmd[6..14] == WriteArgs && cmd[14] == binFile
  {
    var command := BaseCommand(port) + WriteArgs + [binFile];
    var command := if flags.erase then command + ["--erase-all"] else command;
    if flags.verify then command + ["verify"] else command
  }

  /** One esptool call inside the `try` of either stage: a caught error becomes one
      `port_error` carrying its message; a normal return emits `onReturn`; an
      exception that is not caught leaves `execute` right after the call. */
  function Attempt(cmd: seq<string>, esptool: seq<string> -> EspOutcome, onReturn: seq<Event>): seq<Event> {
    match esptool(cmd)
    case Returned => [Esptool(cmd)] + onReturn
    case Raised(m) => [Esptool(cmd), PortError(m)]
    case Escaped => [Esptool(cmd)]
  }

  function BackupStage(w: Worker, now: Instant, esptool: seq<string> -> EspOutcome): seq<Event>
    requires ValidInstant(now)
  {
    if w.flags.backup && w.continueFlag then
      [BackupStart] + Attempt(BackupCommand(w.port, now), esptool, [])
    else []
  }

  /** The backup call ran and an uncaught exception left `execute` with it. */
  predicate BackupEscapes(w: Worker, now: Instant, esptool: seq<string> -> EspOutcome)
    requires ValidInstant(now)
  {
    w.flags.backup && w.continueFlag && esptool(BackupCommand(w.port, now)) == Escaped
  }

  function WriteStage(w: Worker, esptool: seq<string> -> EspOutcome): seq<Event> {
    if w.continueFlag then Attempt(WriteCommand(w.port, w.binFile, w.flags), esptool, [Finished])
    else []
  }

  /** The esptool argument lists issued, in order. */
  function Calls(trace: seq<Event>): seq<seq<string>> {
    if |trace| == 0 then []
    else (if trace[0].Esptool? then [trace[0].args] else []) + Calls(trace[1..])
  }

  /** The messages of the `port_error` signals, in order. */
  function Errors(trace: seq<Event>): seq<string> {
    if |trace| == 0 then []
    else (if trace[0].PortError? then [trace[0].message] else []) + Errors(trace[1..])
  }

  /** The messages of those calls that raised a caught error, in call order. */
  function RaisedMessages(calls: seq<seq<string>>, esptool: seq<string> -> EspOutcome): seq<string> {
    if |calls| == 0 then []
    else (match esptool(calls[0]) case Raised(m) => [m] case _ => []) + RaisedMessages(calls[1..], esptool)
  }

  /** Every `port_error` comes right after the call that raised it. */
  predicate ErrorsFollowRaises(t: seq<Event>, esptool: seq<string> -> EspOutcome) {
    forall k :: 0 <= k < |t| && t[k].PortError? ==>
      0 < k && t[k - 1].Esptool? && esptool(t[k - 1].args) == Raised(t[k].message)
  }

  /** `finished` can only be the last event, right after the call `cmd`. */
  predicate FinishedEnds(t: seq<Event>, cmd: seq<string>) {
    forall k :: 0 <= k < |t| && t[k] == Finished ==> 0 < k == |t| - 1 && t[k - 1] == Esptool(cmd)
  }

  /** A call whose exception is not caught is the last event. */
  predicate EscapeEnds(t: seq<Event>, esptool: seq<string> -> EspOutcome) {
    forall k :: 0 <= k < |t| && t[k].Esptool? && esptool(t[k].args) == Escaped ==> k == |t| - 1
  }

  /** `execute()`. `stopBetween` says that `stop()` arrived after the backup
      gate was evaluated and before the write gate was. */
  function Execute(w: Worker, now: Instant, esptool: seq<string> -> EspOutcome, stopBetween: bool): (trace: seq<Event>)
    requires ValidInstant(now)
    ensures
      var backupRuns := w.flags.backup && w.continueFlag;
      var writeRuns := w.continueFlag && !stopBetween && !BackupEscapes(w, now, esptool);
      && Calls(trace) == (if backupRuns then [BackupCommand(w.port, now)] else [])
                         + (if writeRuns then [WriteCommand(w.port, w.binFile, w.flags)] else [])
      && Errors(trace) == RaisedMessages(Calls(trace), esptool)
  {
    var wAtWrite := if stopBetween then Stop(w) else w;
    var b := BackupStage(w, now, esptool);
    var wr := if BackupEscapes(w, now, esptool) then [] else WriteStage(wAtWrite, esptool);
    BackupStageFacts(w, now, esptool);
    WriteStageFacts(wAtWrite, esptool);
    CallsAppend(b, wr);
    RaisedAppend(Calls(b), Calls(wr), esptool);
    b + wr
  }

  /** The signals of a run: `finished` only when the write ran and returned;
      `backup_start` only when the backup ran, and then right before its call. */
  lemma ExecuteSignals(w: Worker, now: Instant, esptool: seq<string> -> EspOutcome, stopBetween: bool)
    requires ValidInstant(now)
    ensures
      var trace := Execute(w, now, esptool, stopBetween);
      var backupRuns := w.flags.backup && w.continueFlag;
      var writeRuns := w.continueFlag && !stopBetween && !BackupEscapes(w, now, esptool);
      && (Finished in trace <==> writeRuns && esptool(WriteCommand(w.port, w.binFile, w.flags)) == Returned)
      && (BackupStart in trace <==> backupRuns)
      && (forall k :: 0 <= k < |trace| && trace[k] == BackupStart ==>
            k + 1 < |trace| && trace[k + 1] == Esptool(BackupCommand(w.port, now)))
  {
    var wAtWrite := if stopBetween then Stop(w) else w;
    var b := BackupStage(w, now, esptool);
    var wr := if BackupEscapes(w, now, esptool) then [] else WriteStage(wAtWrite, esptool);
    assert Execute(w, now, esptool, stopBetween) == b + wr;
    BackupStageFacts(w, now, esptool);
    var writeRuns := w.continueFlag && !stopBetween && !BackupEscapes(w, now, esptool);
    assert BackupStart !in wr && (Finished in wr <==> writeRuns && esptool(WriteCommand(w.port, w.binFile, w.flags)) == Returned) by {
      if !BackupEscapes(w, now, esptool) {
        WriteStageFacts(wAtWrite, esptool);
      }
    }
    FollowedIn(b, wr, Esptool(BackupCommand(w.port, now)));
  }

  /** Where the signals sit: `finished` is the last event, right after the
      write call; each `port_error` comes right after the call that raised it;
      an exception `execute` does not catch ends the run at its call. */
  lemma ExecuteOrdering(w: Worker, now: Instant, esptool: seq<string> -> EspOutcome, stopBetween: bool)
    requires ValidInstant(now)
    ensures
      var trace := Execute(w, now, esptool, stopBetween);
      && FinishedEnds(trace, WriteCommand(w.port, w.binFile, w.flags))
      && ErrorsFollowRaises(trace, esptool)
      && EscapeEnds(trace, esptool)
  {
    var wAtWrite := if stopBetween then Stop(w) else w;
    var b := BackupStage(w, now, esptool);
    var wr := if BackupEscapes(w, now, esptool) then [] else WriteStage(wAtWrite, esptool);
    assert Execute(w, now, esptool, stopBetween) == b + wr;
    BackupStageFacts(w, now, esptool);
    BackupStageOrder(w, now, esptool);
    WriteStageOrder(wAtWrite, esptool);
    OrderingAppend(b, wr, esptool, WriteCommand(w.port, w.binFile, w.flags));
  }

  /** Appending events without `backup_start` keeps every `backup_start`
      followed by the event that followed it. */
  lemma FollowedIn(b: seq<Event>, wr: seq<Event>, e: Event)
    requires BackupStart !in wr
    requires forall k :: 0 <= k < |b| && b[k] == BackupStart ==> k + 1 < |b| && b[k + 1] == e
    ensures forall k :: 0 <= k < |b + wr| && (b + wr)[k] == BackupStart ==> k + 1 < |b + wr| && (b + wr)[k + 1] == e
  {
    var t := b + wr;
    forall k | 0 <= k < |t| && t[k] == BackupStart
      ensures k + 1 < |t| && t[k + 1] == e
    {
    }
  }

  /** The orderings survive appending a second stage: its errors follow its own
      calls, `finished` can only come from it, and it is empty when the first
      stage escaped. */
  lemma OrderingAppend(b: seq<Event>, wr: seq<Event>, esptool: seq<string> -> EspOutcome, cmd: seq<string>)
    requires ErrorsFollowRaises(b, esptool) && ErrorsFollowRaises(wr, esptool)
    requires Finished !in b && FinishedEnds(wr, cmd)
    requires EscapeEnds(b, esptool) && EscapeEnds(wr, esptool)
    requires |wr| > 0 ==> forall k :: 0 <= k < |b| && b[k].Esptool? ==> esptool(b[k].args) != Escaped
    ensures ErrorsFollowRaises(b + wr, esptool)
    ensures FinishedEnds(b + wr, cmd)
    ensures EscapeEnds(b + wr, esptool)
  {
    var t := b + wr;
    forall k | 0 <= k < |t| && t[k].PortError?
      ensures 0 < k && t[k - 1].Esptool? && esptool(t[k - 1].args) == Raised(t[k].message)
    {
      if k >= |b| {
        assert t[k] == wr[k - |b|];
        assert t[k - 1] == wr[k - |b| - 1];
      }
    }
    forall k | 0 <= k < |t| && t[k] == Finished
      ensures 0 < k == |t| - 1 && t[k - 1] == Esptool(cmd)
    {
      if k >= |b| {
        assert t[k] == wr[k - |b|];
        assert t[k - 1] == wr[k - |b| - 1];
      }
    }
  }

  /** The backup stage issues the backup command exactly when the backup box is
      ticked and the worker may continue, announcing it right before. */
  lemma BackupStageFacts(w: Worker, now: Instant, esptool: seq<string> -> EspOutcome)
    requires ValidInstant(now)
    ensures
      var b := BackupStage(w, now, esptool);
      var runs := w.flags.backup && w.continueFlag;
      && Calls(b) == (if runs then [BackupCommand(w.port, now)] else [])
      && Errors(b) == RaisedMessages(Calls(b), esptool)
      && Finished !in b
      && (BackupStart in b <==> runs)
      && (forall k :: 0 <= k < |b| && b[k] == BackupStart ==>
            k + 1 < |b| && b[k + 1] == Esptool(BackupCommand(w.port, now)))
  {
    var cmd := BackupCommand(w.port, now);
    var a := Attempt(cmd, esptool, []);
    AttemptFacts(cmd, esptool, []);
    if w.flags.backup && w.continueFlag {
      var b := [BackupStart] + a;
      assert b[1..] == a;
      assert a[0] == Esptool(cmd);
      forall k | 0 <= k < |b| && b[k] == BackupStart
        ensures k == 0
      {
      }
    }
  }

  /** The backup stage's error follows its call, and a call that escapes is
      its last event; without an escape no call of it escapes. */
  lemma BackupStageOrder(w: Worker, now: Instant, esptool: seq<string> -> EspOutcome)
    requires ValidInstant(now)
    ensures
      var b := BackupStage(w, now, esptool);
      && ErrorsFollowRaises(b, esptool)
      && EscapeEnds(b, esptool)
      && (!BackupEscapes(w, now, esptool) ==> forall k :: 0 <= k < |b| && b[k].Esptool? ==> esptool(b[k].args) != Escaped)
  {
    var cmd := BackupCommand(w.port, now);
    var a := Attempt(cmd, esptool, []);
    AttemptOrder(cmd, esptool, []);
    if w.flags.backup && w.continueFlag {
      var b := [BackupStart] + a;
      forall k | 0 <= k < |b| && b[k].PortError?
        ensures 0 < k && b[k - 1].Esptool? && esptool(b[k - 1].args) == Raised(b[k].message)
      {
        assert b[k] == a[k - 1];
        if k >= 2 {
          assert b[k - 1] == a[k - 2];
        }
      }
      forall k | 0 <= k < |b| && b[k].Esptool? && esptool(b[k].args) == Escaped
        ensures k == |b| - 1
      {
        assert b[k] == a[k - 1];
      }
    }
  }

  /** The write stage issues the write command exactly when the worker may
      continue, and signals `finished` exactly when that call returns. */
  lemma WriteStageFacts(w: Worker, esptool: seq<string> -> EspOutcome)
    ensures
      var wr := WriteStage(w, esptool);
      var cmd := WriteCommand(w.port, w.binFile, w.flags);
      && Calls(wr) == (if w.continueFlag then [cmd] else [])
      && Errors(wr) == RaisedMessages(Calls(wr), esptool)
      && BackupStart !in wr
      && (Finished in wr <==> w.continueFlag && esptool(cmd) == Returned)
  {
    AttemptFacts(WriteCommand(w.port, w.binFile, w.flags), esptool, [Finished]);
  }

  /** In the write stage `finished` is the last event, right after the call;
      an error follows the call, and an escaping call ends the stage. */
  lemma WriteStageOrder(w: Worker, esptool: seq<string> -> EspOutcome)
    ensures
      var wr := WriteStage(w, esptool);
      && FinishedEnds(wr, WriteCommand(w.port, w.binFile, w.flags))
      && ErrorsFollowRaises(wr, esptool)
      && EscapeEnds(wr, esptool)
  {
    AttemptOrder(WriteCommand(w.port, w.binFile, w.flags), esptool, [Finished]);
  }

  lemma {:induction false} CallsAppend(a: seq<Event>, b: seq<Event>)
    ensures Calls(a + b) == Calls(a) + Calls(b)
    ensures Errors(a + b) == Errors(a) + Errors(b)
  {
    if |a| > 0 {
      assert (a + b)[1..] == a[1..] + b;
      CallsAppend(a[1..], b);
    } else {
      assert a + b == b;
    }
  }

  lemma {:induction false} RaisedAppend(a: seq<seq<string>>, b: seq<seq<string>>, esptool: seq<string> -> EspOutcome)
    ensures RaisedMessages(a + b, esptool) == RaisedMessages(a, esptool) + RaisedMessages(b, esptool)
  {
    if |a| > 0 {
      assert (a + b)[0] == a[0] && (a + b)[1..] == a[1..] + b;
      RaisedAppend(a[1..], b, esptool);
    } else {
      assert a + b == b;
    }
  }

  lemma AttemptFacts(cmd: seq<string>, esptool: seq<string> -> EspOutcome, onReturn: seq<Event>)
    requires onReturn == [] || onReturn == [Finished]
    ensures Calls(Attempt(cmd, esptool, onReturn)) == [cmd]
    ensures Errors(Attempt(cmd, esptool, onReturn)) == RaisedMessages([cmd], esptool)
    ensures Finished in Attempt(cmd, esptool, onReturn) <==> onReturn == [Finished] && esptool(cmd) == Returned
    ensures BackupStart !in Attempt(cmd, esptool, onReturn)
  {
    var t := Attempt(cmd, esptool, onReturn);
    assert [cmd][1..] == [];
    match esptool(cmd)
    case Returned =>
      assert RaisedMessages([cmd], esptool) == [];
      if onReturn == [] {
        assert t[1..] == [];
      } else {
        assert t[1..] == [Finished] && t[1..][1..] == [];
        assert Calls(t[1..]) == [] && Errors(t[1..]) == [];
      }
    case Raised(m) =>
      assert RaisedMessages([cmd], esptool) == [m];
      var u := t[1..];
      assert u == [PortError(m)] && u[1..] == [];
      assert !u[0].Esptool? && Calls(u) == Calls(u[1..]) == [];
      assert Errors(u) == [m];
    case Escaped =>
      assert RaisedMessages([cmd], esptool) == [];
      assert t[1..] == [];
  }

  /** Within one attempt the call comes first, a caught error right after it,
      `finished` last and right after it, and an escaping call ends it. */
  lemma AttemptOrder(cmd: seq<string>, esptool: seq<string> -> EspOutcome, onReturn: seq<Event>)
    requires onReturn == [] || onReturn == [Finished]
    ensures Attempt(cmd, esptool, onReturn)[0] == Esptool(cmd)
    ensures FinishedEnds(Attempt(cmd, esptool, onReturn), cmd)
    ensures ErrorsFollowRaises(Attempt(cmd, esptool, onReturn), esptool)
    ensures EscapeEnds(Attempt(cmd, esptool, onReturn), esptool)
  {
  }

  /** After `stop()` no stage begins: no signal, no esptool call. */
  lemma StoppedWorkerDoesNothing(w: Worker, now: Instant, esptool: seq<string> -> EspOutcome, stopBetween: bool)
    requires ValidInstant(now)
    ensures Execute(Stop(w), now, esptool, stopBetween) == []
  {
  }

  /** A backup that raises a caught error is reported but does not clear the
      continue flag: the write command is still issued afterwards. */
  lemma BackupErrorDoesNotBlockWrite(w: Worker, now: Instant, esptool: seq<string> -> EspOutcome, message: string)
    requires ValidInstant(now) && w.continueFlag && w.flags.backup
    requires esptool(BackupCommand(w.port, now)) == Raised(message)
    ensures
      var trace := Execute(w, now, esptool, false);
      && Calls(trace) == [BackupCommand(w.port, now), WriteCommand(w.port, w.binFile, w.flags)]
      && Errors(trace)[0] == message
  {
  }

  /** An exception the worker does not catch during the backup ends the run:
      the trace stops at the backup call and nothing is written. */
  lemma EscapedBackupEndsRun(w: Worker, now: Instant, esptool: seq<string> -> EspOutcome, stopBetween: bool)
    requires ValidInstant(now) && w.continueFlag && w.flags.backup
    requires esptool(BackupCommand(w.port, now)) == Escaped
    ensures Execute(w, now, esptool, stopBetween) == [BackupStart, Esptool(BackupCommand(w.port, now))]
  {
  }

  /** The unique decomposition of a write command back into its inputs. */
  function DecodeWrite(cmd: seq<string>): Option<(string, string, bool, bool)> {
    if |cmd| < 15 || cmd[..6] != BaseCommand(cmd[3]) || cmd[6..14] != WriteArgs then None
    else
      var tail := cmd[15..];
      if tail == [] then Some((cmd[3], cmd[14], false, false))
      else if tail == ["--erase-all"] then Some((cmd[3], cmd[14], true, false))
      else if tail == ["verify"] then Some((cmd[3], cmd[14], false, true))
      else if tail == ["--erase-all", "verify"] then Some((cmd[3], cmd[14], true, true))
      else None
  }

  /** The write command carries port, image, erase and verify without loss:
      `--erase-all` precedes `verify`, each present exactly when its flag is set. */
  lemma WriteCommandDecodes(port: string, binFile: string, flags: Flags)
    ensures DecodeWrite(WriteCommand(port, binFile, flags)) == Some((port, binFile, flags.erase, flags.verify))
  {
    var cmd := WriteCommand(port, binFile, flags);
    var tail := cmd[15..];
    if flags.erase && flags.verify {
      assert tail == ["--erase-all", "verify"];
    } else if flags.erase {
      assert tail == ["--erase-all"];
    } else if flags.verify {
      assert tail == ["verify"];
    } else {
      assert tail == [];
    }
  }

  /** Reads three numbers from `w` digits followed by two and two digits. */
  function ParseTriple(s: string, w: nat): (nat, nat, nat)
    requires |s| == w + 4 && AllDigits(s)
  {
    DigitsWithin(s, 0, |s|, 0, w);
    DigitsWithin(s, 0, |s|, w, w + 2);
    DigitsWithin(s, 0, |s|, w + 2, w + 4);
    (ParseDigits(s[..w]), ParseDigits(s[w..w + 2]), ParseDigits(s[w + 2..]))
  }

  lemma DigitsWithin(s: string, a: nat, b: nat, c: nat, d: nat)
    requires a <= c <= d <= b <= |s| && AllDigits(s[a..b])
    ensures AllDigits(s[c..d])
  {
    forall j | 0 <= j < d - c
      ensures IsDigit(s[c..d][j])
    {
      assert s[c..d][j] == s[a..b][j + c - a];
    }
  }

  lemma TripleRoundTrip(x: string, y: string, z: string)
    requires AllDigits(x) && AllDigits(y) && AllDigits(z) && |y| == 2 && |z| == 2
    ensures AllDigits(x + y + z)
    ensures ParseTriple(x + y + z, |x|) == (ParseDigits(x), ParseDigits(y), ParseDigits(z))
  {
    var s := x + y + z;
    assert s[..|x|] == x && s[|x|..|x| + 2] == y && s[|x| + 2..] == z;
  }

  /** Reads an instant back from a name of the form `backup_YYYYMMDD_HHMMSS.bin`. */
  function ParseBackupName(s: string): Option<Instant> {
    if |s| == 26 && s[..7] == "backup_" && s[15] == '_' && s[22..] == ".bin"
       && AllDigits(s[7..15]) && AllDigits(s[16..22])
    then
      var (year, month, day) := ParseTriple(s[7..15], 4);
      var (hour, minute, second) := ParseTriple(s[16..22], 2);
      Some(Instant(year, month, day, hour, minute, second))
    else None
  }

  /** The backup file name has the fixed pattern and the instant can be read
      back from it: two different seconds never share a backup file. */
  lemma BackupNameRoundTrip(t: Instant)
    requires ValidInstant(t)
    ensures ParseBackupName(BackupFileName(t)) == Some(t)
  {
    assert t.year < Pow10(4) && t.month < Pow10(2) && t.day < Pow10(2);
    assert t.hour < Pow10(2) && t.minute < Pow10(2) && t.second < Pow10(2);
    TripleRoundTrip(ZeroPad(t.year, 4), ZeroPad(t.month, 2), ZeroPad(t.day, 2));
    TripleRoundTrip(ZeroPad(t.hour, 2), ZeroPad(t.minute, 2), ZeroPad(t.second, 2));
    NameSlices(DatePart(t), TimePart(t));
  }

  lemma NameSlices(date: string, time: string)
    requires |date| == 8 && |time| == 6
    ensures
      var s := "backup_" + date + "_" + time + ".bin";
      && |s| == 26 && s[..7] == "backup_" && s[7..15] == date
      && s[15] == '_' && s[16..22] == time && s[22..] == ".bin"
  {
  }

  /** The backup command ends in the timestamped name of the given instant. */
  lemma BackupCommandNamesInstant(port: string, t: Instant)
    requires ValidInstant(t)
    ensures ParseBackupName(BackupCommand(port, t)[11]) == Some(t)
  {
    BackupNameRoundTrip(t);
  }
}
