/**
 * `Tsd.execTsdCommand`: the child process's events (a spawn error, stdout
 * chunks, close) arrive as a sequence; what the handlers pass to the `out`
 * callback is a sequence of lines. Items go through `out` as they are
 * scraped; two in-band sentinel lines mark the end of the run.
 */
module CommandRunner {
  import TsdCommand
  import StdoutScraper

  /** Sent on close unless the tool was missing. */
  const Finish: string := "--finish--"
  /** Sent when spawning failed because `tsd` was not found. */
  const MissingTsd: string := "--missing-tsd--"

  predicate IsSentinel(line: string) {
    line == Finish || line == MissingTsd
  }

  /** The fields of a Node spawn error that the handler inspects. */
  datatype SpawnError = SpawnError(code: string, syscall: string, path: string)

  /** What the host delivers: `cmd.on('error')`, `cmd.stdout.on('data')`, `cmd.on('close')`. */
  datatype HostEvent = Error(err: SpawnError) | Data(chunk: string) | Close(exitCode: int)

  /** The one error that `execTsdCommand`'s error handler recovers from; it rethrows all others. */
  predicate IsToolMissing(err: SpawnError) {
    err.code == "ENOENT" && err.syscall == "spawn tsd" && err.path == "tsd"
  }

  /** The closure state: the `tsdMissing` flag, the lines sent to `out`, the errors rethrown. */
  datatype RunState = RunState(missing: bool, emitted: seq<string>, rethrown: seq<SpawnError>)

  const Initial: RunState := RunState(false, [], [])

  /** One handler invocation. */
  function Step(st: RunState, ev: HostEvent): RunState {
    match ev
    case Error(err) =>
      if IsToolMissing(err) then st.(missing := true, emitted := st.emitted + [MissingTsd])
      else st.(rethrown := st.rethrown + [err])
    case Data(chunk) => st.(emitted := st.emitted + StdoutScraper.Items(chunk))
    case Close(_) => if st.missing then st else st.(emitted := st.emitted + [Finish])
  }

  /** The state after the handlers have seen evs, in order. */
  function Run(evs: seq<HostEvent>): RunState {
    if evs == [] then Initial else Step(Run(evs[..|evs| - 1]), evs[|evs| - 1])
  }

  /**
   * The error Node reports when the executable chosen for the platform is not
   * found: recognised as the missing tool where that executable is `tsd`, but
   * rethrown where it is `tsd.cmd`, since the test compares with `tsd` literally.
   */
  lemma ToolNotFoundByPlatform(platform: string)
    ensures var exe := TsdCommand.Executable(platform);
      var err := SpawnError("ENOENT", "spawn " + exe, exe);
      (TsdCommand.IsWin(platform) ==>
         !IsToolMissing(err) && Step(Initial, Error(err)) == RunState(false, [], [err])) &&
      (!TsdCommand.IsWin(platform) ==>
         IsToolMissing(err) && Step(Initial, Error(err)) == RunState(true, [MissingTsd], []))
  {
  }

  /** The items of all stdout chunks in evs, chunk after chunk. */
  function ChunkItems(evs: seq<HostEvent>): seq<string> {
    if evs == [] then []
    else ChunkItems(evs[..|evs| - 1]) + (match evs[|evs| - 1] case Data(c) => StdoutScraper.Items(c) case _ => [])
  }

  /** The lines that are not sentinels, in order. */
  function NonSentinels(lines: seq<string>): seq<string> {
    if lines == [] then []
    else NonSentinels(lines[..|lines| - 1]) + (if IsSentinel(lines[|lines| - 1]) then [] else [lines[|lines| - 1]])
  }

  /** How many lines equal the given one. */
  function Count(lines: seq<string>, line: string): nat {
    if lines == [] then 0
    else Count(lines[..|lines| - 1], line) + (if lines[|lines| - 1] == line then 1 else 0)
  }

  /** How many events are spawn errors. */
  function CountErrors(evs: seq<HostEvent>): nat {
    if evs == [] then 0 else CountErrors(evs[..|evs| - 1]) + (if evs[|evs| - 1].Error? then 1 else 0)
  }

  /** How many events are the missing-tool error. */
  function CountMissing(evs: seq<HostEvent>): nat {
    if evs == [] then 0
    else CountMissing(evs[..|evs| - 1]) + (if evs[|evs| - 1].Error? && IsToolMissing(evs[|evs| - 1].err) then 1 else 0)
  }

  ghost predicate NoClose(evs: seq<HostEvent>) {
    forall j :: 0 <= j < |evs| ==> !evs[j].Close?
  }

  /** Some event in evs is the missing-tool error. */
  ghost predicate ToolMissingIn(evs: seq<HostEvent>) {
    exists j :: 0 <= j < |evs| && evs[j].Error? && IsToolMissing(evs[j].err)
  }

  /**
   * No scraped item can be mistaken for a sentinel: every item contains a `/`
   * and ends in `.d.ts`, neither sentinel does.
   */
  lemma ItemsAreNotSentinels(chunk: string)
    ensures forall j :: 0 <= j < |StdoutScraper.Items(chunk)| ==> !IsSentinel(StdoutScraper.Items(chunk)[j])
  {
    StdoutScraper.ItemsAreShaped(chunk);
    forall j | 0 <= j < |StdoutScraper.Items(chunk)|
      ensures !IsSentinel(StdoutScraper.Items(chunk)[j])
    {
      var c := StdoutScraper.Items(chunk)[j];
      assert StdoutScraper.DtsEndsAt(c, |c|);
      assert Finish[|Finish| - 1] == '-' && MissingTsd[|MissingTsd| - 1] == '-';
    }
  }

  lemma {:induction false} NonSentinelsAppend(a: seq<string>, b: seq<string>)
    ensures NonSentinels(a + b) == NonSentinels(a) + NonSentinels(b)
    decreases |b|
  {
    if b == [] {
      assert a + b == a;
    } else {
      assert (a + b)[..|a + b| - 1] == a + b[..|b| - 1];
      NonSentinelsAppend(a, b[..|b| - 1]);
    }
  }

  lemma NonSentinelsOfItems(chunk: string)
    ensures NonSentinels(StdoutScraper.Items(chunk)) == StdoutScraper.Items(chunk)
  {
    var items := StdoutScraper.Items(chunk);
    ItemsAreNotSentinels(chunk);
    NoSentinelsKept(items);
  }

  lemma {:induction false} NoSentinelsKept(lines: seq<string>)
    requires forall j :: 0 <= j < |lines| ==> !IsSentinel(lines[j])
    ensures NonSentinels(lines) == lines
    decreases |lines|
  {
    if lines != [] {
      NoSentinelsKept(lines[..|lines| - 1]);
    }
  }

  /** Items reach `out` in arrival order, chunk after chunk, and nothing else that is not a sentinel does. */
  lemma {:induction false} RunForwardsItemsInOrder(evs: seq<HostEvent>)
    ensures NonSentinels(Run(evs).emitted) == ChunkItems(evs)
    decreases |evs|
  {
    if evs != [] {
      var pre, ev := evs[..|evs| - 1], evs[|evs| - 1];
      RunForwardsItemsInOrder(pre);
      var before := Run(pre).emitted;
      match ev
      case Error(err) =>
        if IsToolMissing(err) { NonSentinelsAppend(before, [MissingTsd]); }
      case Data(c) =>
        NonSentinelsAppend(before, StdoutScraper.Items(c));
        NonSentinelsOfItems(c);
      case Close(_) =>
        if !Run(pre).missing { NonSentinelsAppend(before, [Finish]); }
    }
  }

  /**
   * The missing flag is set, and `--missing-tsd--` is sent, exactly when the
   * missing-tool error occurred; any other error is rethrown, never sent.
   */
  lemma MissingOnlyOnToolNotFound(evs: seq<HostEvent>)
    ensures Run(evs).missing <==> ToolMissingIn(evs)
    ensures ToolMissingIn(evs) <==> CountMissing(evs) > 0
    ensures Count(Run(evs).emitted, MissingTsd) == CountMissing(evs)
    ensures forall e :: e in Run(evs).rethrown <==> (exists j :: 0 <= j < |evs| && evs[j] == Error(e) && !IsToolMissing(e))
  {
    MissingFlagAndCount(evs);
    RethrownAreOtherErrors(evs);
  }

  /** The missing flag and the number of `--missing-tsd--` lines follow the missing-tool errors. */
  lemma {:induction false} MissingFlagAndCount(evs: seq<HostEvent>)
    ensures Run(evs).missing <==> ToolMissingIn(evs)
    ensures ToolMissingIn(evs) <==> CountMissing(evs) > 0
    ensures Count(Run(evs).emitted, MissingTsd) == CountMissing(evs)
    decreases |evs|
  {
    if evs != [] {
      var pre, ev := evs[..|evs| - 1], evs[|evs| - 1];
      MissingFlagAndCount(pre);
      var before := Run(pre).emitted;
      match ev {
        case Error(err) =>
          if IsToolMissing(err) { CountAppend(before, [MissingTsd], MissingTsd); }
        case Data(c) =>
          CountAppend(before, StdoutScraper.Items(c), MissingTsd);
          ItemsAreNotSentinels(c);
          CountAbsent(StdoutScraper.Items(c), MissingTsd);
        case Close(_) =>
          if !Run(pre).missing { CountAppend(before, [Finish], MissingTsd); }
      }
      ToolMissingInSplit(evs);
    }
  }

  /** Exactly the spawn errors other than the missing tool are rethrown. */
  lemma {:induction false} RethrownAreOtherErrors(evs: seq<HostEvent>)
    ensures forall e :: e in Run(evs).rethrown <==> (exists j :: 0 <= j < |evs| && evs[j] == Error(e) && !IsToolMissing(e))
    decreases |evs|
  {
    if evs != [] {
      var pre := evs[..|evs| - 1];
      RethrownAreOtherErrors(pre);
      forall e ensures e in Run(evs).rethrown <==> (exists j :: 0 <= j < |evs| && evs[j] == Error(e) && !IsToolMissing(e)) {
        if exists j :: 0 <= j < |evs| && evs[j] == Error(e) && !IsToolMissing(e) {
          var j :| 0 <= j < |evs| && evs[j] == Error(e) && !IsToolMissing(e);
          if j < |pre| { assert pre[j] == evs[j]; }
        }
        if e in Run(evs).rethrown && e in Run(pre).rethrown {
          var j :| 0 <= j < |pre| && pre[j] == Error(e) && !IsToolMissing(e);
          assert evs[j] == pre[j];
        }
      }
    }
  }

  lemma ToolMissingInSplit(evs: seq<HostEvent>)
    requires evs != []
    ensures ToolMissingIn(evs) <==>
      ToolMissingIn(evs[..|evs| - 1]) || (evs[|evs| - 1].Error? && IsToolMissing(evs[|evs| - 1].err))
  {
    var pre := evs[..|evs| - 1];
    if ToolMissingIn(pre) {
      var j :| 0 <= j < |pre| && pre[j].Error? && IsToolMissing(pre[j].err);
      assert evs[j] == pre[j];
    }
    if ToolMissingIn(evs) {
      var j :| 0 <= j < |evs| && evs[j].Error? && IsToolMissing(evs[j].err);
      if j < |pre| { assert pre[j] == evs[j]; }
    }
  }

  lemma {:induction false} CountAppend(a: seq<string>, b: seq<string>, line: string)
    ensures Count(a + b, line) == Count(a, line) + Count(b, line)
    decreases |b|
  {
    if b == [] {
      assert a + b == a;
    } else {
      assert (a + b)[..|a + b| - 1] == a + b[..|b| - 1];
      CountAppend(a, b[..|b| - 1], line);
    }
  }

  lemma {:induction false} CountAbsent(lines: seq<string>, line: string)
    requires forall j :: 0 <= j < |lines| ==> !IsSentinel(lines[j])
    requires IsSentinel(line)
    ensures Count(lines, line) == 0
    decreases |lines|
  {
    if lines != [] {
      CountAbsent(lines[..|lines| - 1], line);
    }
  }

  lemma {:induction false} CountZeroAbsent(lines: seq<string>, line: string)
    ensures Count(lines, line) == 0 <==> line !in lines
    decreases |lines|
  {
    if lines != [] {
      var pre := lines[..|lines| - 1];
      CountZeroAbsent(pre, line);
      assert lines == pre + [lines[|lines| - 1]];
    }
  }

  lemma CountPositivePresent(lines: seq<string>, line: string)
    requires Count(lines, line) > 0
    ensures exists j :: 0 <= j < |lines| && lines[j] == line
  {
    CountZeroAbsent(lines, line);
  }

  lemma {:induction false} CountMissingAtMostErrors(evs: seq<HostEvent>)
    ensures CountMissing(evs) <= CountErrors(evs)
    decreases |evs|
  {
    if evs != [] {
      CountMissingAtMostErrors(evs[..|evs| - 1]);
    }
  }

  /** Before the close event nothing sends `--finish--`. */
  lemma {:induction false} NoFinishBeforeClose(evs: seq<HostEvent>)
    requires NoClose(evs)
    ensures Count(Run(evs).emitted, Finish) == 0
    decreases |evs|
  {
    if evs != [] {
      var pre := evs[..|evs| - 1];
      NoFinishBeforeClose(pre);
      var before := Run(pre).emitted;
      match evs[|evs| - 1] {
        case Error(err) =>
          if IsToolMissing(err) { CountAppend(before, [MissingTsd], Finish); }
        case Data(c) =>
          CountAppend(before, StdoutScraper.Items(c), Finish);
          ItemsAreNotSentinels(c);
          CountAbsent(StdoutScraper.Items(c), Finish);
      }
    }
  }

  /** Without a close and without the missing-tool error, `out` has received exactly the items. */
  lemma {:induction false} OnlyItemsBeforeClose(evs: seq<HostEvent>)
    requires NoClose(evs) && !ToolMissingIn(evs)
    ensures Run(evs).emitted == ChunkItems(evs)
    decreases |evs|
  {
    if evs != [] {
      ToolMissingInSplit(evs);
      OnlyItemsBeforeClose(evs[..|evs| - 1]);
    }
  }

  /**
   * One run: at most one spawn error, then a single close as the last event.
   * Exactly one sentinel reaches `out`. Without the missing-tool error it is
   * `--finish--`, sent last, after every item, whatever the exit code; with
   * it, it is `--missing-tsd--` and no `--finish--` follows.
   */
  lemma ExactlyOneTerminal(pre: seq<HostEvent>, code: int)
    requires NoClose(pre) && CountErrors(pre) <= 1
    ensures var out := Run(pre + [Close(code)]).emitted;
      Count(out, Finish) + Count(out, MissingTsd) == 1 &&
      (ToolMissingIn(pre) ==> Count(out, MissingTsd) == 1 && Count(out, Finish) == 0) &&
      (!ToolMissingIn(pre) ==> out == ChunkItems(pre) + [Finish])
  {
    var evs := pre + [Close(code)];
    assert evs[..|evs| - 1] == pre;
    var before := Run(pre).emitted;
    MissingOnlyOnToolNotFound(pre);
    CountMissingAtMostErrors(pre);
    NoFinishBeforeClose(pre);
    if ToolMissingIn(pre) {
      assert Run(evs).emitted == before;
    } else {
      OnlyItemsBeforeClose(pre);
      CountAppend(before, [Finish], Finish);
      CountAppend(before, [Finish], MissingTsd);
    }
  }

  /** The handlers of one `execTsdCommand` call and the closure state they share. */
  class CommandRun {
    const exe: string
    const cwd: string
    const args: seq<string>
    var missing: bool
    var emitted: seq<string>
    var rethrown: seq<SpawnError>

    function State(): RunState
      reads this
    {
      RunState(missing, emitted, rethrown)
    }

    /** Spawning: the executable chosen for the platform, the working directory, the vector. */
    constructor (platform: string, cwd: string, args: seq<string>)
      ensures exe == TsdCommand.Executable(platform) && this.cwd == cwd && this.args == args
      ensures State() == Initial
    {
      exe := TsdCommand.Executable(platform);
      this.cwd := cwd;
      this.args := args;
      missing := false;
      emitted := [];
      rethrown := [];
    }

    /** `cmd.on('error', ...)` */
    method OnError(err: SpawnError)
      modifies this
      ensures State() == Step(old(State()), Error(err))
    {
      if IsToolMissing(err) {
        missing := true;
        emitted := emitted + [MissingTsd];
      } else {
        rethrown := rethrown + [err];
      }
    }

    /** `cmd.stdout.on('data', ...)` */
    method OnData(chunk: string)
      modifies this
      ensures State() == Step(old(State()), Data(chunk))
    {
      var items := StdoutScraper.ScrapeChunk(chunk);
      emitted := emitted + items;
    }

    /** `cmd.on('close', ...)`: the exit code is only logged. */
    method OnClose(code: int)
      modifies this
      ensures State() == Step(old(State()), Close(code))
    {
      if !missing {
        emitted := emitted + [Finish];
      }
    }
  }

  /** `execTsdCommand` with the host delivering evs to the handlers in order. */
  method Execute(platform: string, cwd: string, args: seq<string>, evs: seq<HostEvent>)
    returns (exe: string, spawnedCwd: string, spawnedArgs: seq<string>,
             emitted: seq<string>, rethrown: seq<SpawnError>)
    ensures exe == TsdCommand.Executable(platform) && spawnedCwd == cwd && spawnedArgs == args
    ensures emitted == Run(evs).emitted && rethrown == Run(evs).rethrown
  {
    var run := new CommandRun(platform, cwd, args);
    exe, spawnedCwd, spawnedArgs := run.exe, run.cwd, run.args;
    var i := 0;
    while i < |evs|
      invariant 0 <= i <= |evs|
      invariant run.State() == Run(evs[..i])
    {
      assert evs[..i + 1][..i] == evs[..i];
      match evs[i] {
        case Error(err) => run.OnError(err);
        case Data(chunk) => run.OnData(chunk);
        case Close(code) => run.OnClose(code);
      }
      i := i + 1;
    }
    assert evs[..|evs|] == evs;
    emitted, rethrown := run.emitted, run.rethrown;
  }
}
