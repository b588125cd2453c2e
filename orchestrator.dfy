/**
 * The `install`, `reinstall` and `update` commands of `AtomTsd`: after the
 * user confirms, a fresh output view is shown, a status ticker is started,
 * and every line the runner sends to `out` is classified as finish, missing
 * or output. The output view is the record View; the host's dialogs and
 * panels are not modelled.
 */
module Orchestrator {
  import opened Wrappers
  import TsdCommand
  import CommandRunner
  import StatusCycler

  datatype Operation = Install(query: string) | Reinstall | Update

  /** The vector each command issues. `reinstall()` calls `Tsd.update`, not `Tsd.reinstall`. */
  function CommandArgs(op: Operation): seq<string> {
    match op
    case Install(q) => TsdCommand.InstallArgs(q)
    case Reinstall => TsdCommand.UpdateArgs()
    case Update => TsdCommand.UpdateArgs()
  }

  /** The base text handed to `cycleMessage`. */
  function WaitMessage(op: Operation): string {
    match op
    case Install(_) => "installing"
    case Reinstall => "reinstalling"
    case Update => "updating"
  }

  /** The status set on `--finish--`. */
  function CompletionStatus(op: Operation): string {
    match op
    case Install(_) => "All types have been installed!"
    case Reinstall => "All types have been reinstalled!"
    case Update => "All types have been updated!"
  }

  /**
   * What the callbacks change: the lines added to the output view, its
   * status, whether the ticker was cancelled, whether the view was closed,
   * whether the close button is shown, and how often the missing-tool
   * dialog was raised.
   */
  datatype View = View(output: seq<string>, status: string, tickerCancelled: bool,
                       closed: bool, closeButton: bool, missingNotices: nat)

  /** A new `CommandOutputView` after `clean()` and `show()`, with its ticker running. */
  const FreshView: View := View([], "", false, false, false, 0)

  /** The `out` callback that `install()`, `reinstall()` and `update()` each pass to `Tsd`. */
  function Dispatch(op: Operation, v: View, line: string): View {
    if line != CommandRunner.Finish then
      if line == CommandRunner.MissingTsd then
        v.(tickerCancelled := true, closed := true, missingNotices := v.missingNotices + 1)
      else
        v.(output := v.output + [line])
    else
      v.(tickerCancelled := true, status := CompletionStatus(op), closeButton := true)
  }

  /** The callback applied to every line, in order. */
  function DispatchAll(op: Operation, v: View, lines: seq<string>): View {
    if lines == [] then v else Dispatch(op, DispatchAll(op, v, lines[..|lines| - 1]), lines[|lines| - 1])
  }

  /**
   * Over any sequence of lines: every non-sentinel line is appended to the
   * output in arrival order; either sentinel cancels the ticker;
   * `--missing-tsd--` closes the view and raises the dialog once per
   * occurrence; `--finish--` sets the completion status and shows the close
   * button.
   */
  lemma DispatchAllEffect(op: Operation, v: View, lines: seq<string>)
    ensures var w := DispatchAll(op, v, lines);
      w.output == v.output + CommandRunner.NonSentinels(lines) &&
      w.tickerCancelled == (v.tickerCancelled || CommandRunner.Finish in lines || CommandRunner.MissingTsd in lines) &&
      w.closed == (v.closed || CommandRunner.MissingTsd in lines) &&
      w.closeButton == (v.closeButton || CommandRunner.Finish in lines) &&
      w.missingNotices == v.missingNotices + CommandRunner.Count(lines, CommandRunner.MissingTsd) &&
      w.status == (if CommandRunner.Finish in lines then CompletionStatus(op) else v.status)
  {
    DispatchAllCounts(op, v, lines);
    DispatchAllFlags(op, v, lines);
  }

  /** The output and the dialog count, over any sequence of lines. */
  lemma {:induction false} DispatchAllCounts(op: Operation, v: View, lines: seq<string>)
    ensures var w := DispatchAll(op, v, lines);
      w.output == v.output + CommandRunner.NonSentinels(lines) &&
      w.missingNotices == v.missingNotices + CommandRunner.Count(lines, CommandRunner.MissingTsd)
    decreases |lines|
  {
    if lines != [] {
      DispatchAllCounts(op, v, lines[..|lines| - 1]);
    }
  }

  /** The flags and the status, over any sequence of lines. */
  lemma {:induction false} DispatchAllFlags(op: Operation, v: View, lines: seq<string>)
    ensures var w := DispatchAll(op, v, lines);
      w.tickerCancelled == (v.tickerCancelled || CommandRunner.Finish in lines || CommandRunner.MissingTsd in lines) &&
      w.closed == (v.closed || CommandRunner.MissingTsd in lines) &&
      w.closeButton == (v.closeButton || CommandRunner.Finish in lines) &&
      w.status == (if CommandRunner.Finish in lines then CompletionStatus(op) else v.status)
    decreases |lines|
  {
    if lines != [] {
      var pre, last := lines[..|lines| - 1], lines[|lines| - 1];
      DispatchAllFlags(op, v, pre);
      assert lines == pre + [last];
    }
  }

  /**
   * A run that spawned: its items fill the output in order, the ticker is
   * cancelled, the completion status and the close button are shown, and the
   * view stays open.
   */
  lemma FinishedRunView(op: Operation, pre: seq<CommandRunner.HostEvent>, code: int)
    requires CommandRunner.NoClose(pre) && CommandRunner.CountErrors(pre) <= 1
    requires !CommandRunner.ToolMissingIn(pre)
    ensures DispatchAll(op, FreshView, CommandRunner.Run(pre + [CommandRunner.Close(code)]).emitted)
         == View(CommandRunner.ChunkItems(pre), CompletionStatus(op), true, false, true, 0)
  {
    var out := CommandRunner.Run(pre + [CommandRunner.Close(code)]).emitted;
    CommandRunner.ExactlyOneTerminal(pre, code);
    CommandRunner.RunForwardsItemsInOrder(pre + [CommandRunner.Close(code)]);
    assert (pre + [CommandRunner.Close(code)])[..|pre|] == pre;
    DispatchAllEffect(op, FreshView, out);
    CommandRunner.CountZeroAbsent(out, CommandRunner.MissingTsd);
    assert out[|out| - 1] == CommandRunner.Finish;
  }

  /**
   * A run whose spawn failed because the tool is missing: the ticker is
   * cancelled, the view is closed, the dialog is raised once, and no
   * completion status or close button appears.
   */
  lemma MissingRunView(op: Operation, pre: seq<CommandRunner.HostEvent>, code: int)
    requires CommandRunner.NoClose(pre) && CommandRunner.CountErrors(pre) <= 1
    requires CommandRunner.ToolMissingIn(pre)
    ensures var w := DispatchAll(op, FreshView, CommandRunner.Run(pre + [CommandRunner.Close(code)]).emitted);
      w.tickerCancelled && w.closed && w.missingNotices == 1 && !w.closeButton && w.status == "" &&
      w.output == CommandRunner.ChunkItems(pre)
  {
    var evs := pre + [CommandRunner.Close(code)];
    var out := CommandRunner.Run(evs).emitted;
    CommandRunner.ExactlyOneTerminal(pre, code);
    CommandRunner.RunForwardsItemsInOrder(evs);
    assert evs[..|pre|] == pre;
    DispatchAllEffect(op, FreshView, out);
    CommandRunner.CountZeroAbsent(out, CommandRunner.Finish);
    CommandRunner.CountPositivePresent(out, CommandRunner.MissingTsd);
  }

  /** One command's output view, with the ticker that writes its status. */
  class Session {
    const op: Operation
    const ticker: StatusCycler.Ticker
    var output: seq<string>
    var status: string
    var closed: bool
    var closeButton: bool
    var missingNotices: nat

    ghost predicate Valid()
      reads this, ticker
    {
      ticker.Valid() && ticker.msg == WaitMessage(op)
    }

    function ViewOf(): View
      reads this, ticker
    {
      View(output, status, ticker.cancelled, closed, closeButton, missingNotices)
    }

    /** A fresh, cleaned and shown view; the ticker is started before any command runs. */
    constructor (op: Operation)
      ensures Valid() && fresh(ticker) && this.op == op
      ensures ViewOf() == FreshView && ticker.published == []
    {
      this.op := op;
      ticker := new StatusCycler.Ticker(WaitMessage(op));
      output, status, closed, closeButton, missingNotices := [], "", false, false, 0;
    }

    /** A firing of the ticker; its text goes to `setStatus`. */
    method Tick()
      requires Valid()
      modifies this, ticker
      ensures Valid()
      ensures old(ticker.cancelled) ==> ViewOf() == old(ViewOf())
      ensures !old(ticker.cancelled) ==>
        ViewOf() == old(ViewOf()).(status := StatusCycler.Status(WaitMessage(op), |old(ticker.published)| + 1))
      ensures ticker.published == old(ticker.published) + (if old(ticker.cancelled) then [] else [status])
      ensures ticker.cancelled == old(ticker.cancelled)
    {
      var text := ticker.Tick();
      if !ticker.cancelled {
        status := text;
      }
    }

    /** The `out` callback. */
    method OnLine(line: string)
      requires Valid()
      modifies this, ticker
      ensures Valid() && ViewOf() == Dispatch(op, old(ViewOf()), line)
      ensures ticker.published == old(ticker.published)
    {
      if line != CommandRunner.Finish {
        if line == CommandRunner.MissingTsd {
          ticker.Cancel();
          closed := true;
          missingNotices := missingNotices + 1;
        } else {
          output := output + [line];
        }
      } else {
        ticker.Cancel();
        status := CompletionStatus(op);
        closeButton := true;
      }
    }
  }

  /** What one confirmed command did: the executable it spawned, the vector it issued, where, and the final view. */
  datatype Outcome = Outcome(exe: string, args: seq<string>, cwd: string, view: View)

  /**
   * One command from the confirmation dialog on: nothing happens unless the
   * user confirms; otherwise the ticker starts, the runner executes the
   * operation's vector in cwd, and each line it sends is dispatched.
   */
  method RunCommand(op: Operation, confirmed: bool, platform: string, cwd: string,
                    evs: seq<CommandRunner.HostEvent>) returns (r: Option<Outcome>)
    ensures r.None? <==> !confirmed
    ensures r.Some? ==>
      r.value.exe == TsdCommand.Executable(platform) &&
      r.value.args == CommandArgs(op) && r.value.cwd == cwd &&
      r.value.view == DispatchAll(op, FreshView, CommandRunner.Run(evs).emitted)
  {
    if !confirmed {
      return None;
    }
    var session := new Session(op);
    var args := CommandArgs(op);
    var exe, spawnedCwd, spawnedArgs, lines, _ := CommandRunner.Execute(platform, cwd, args, evs);
    var i := 0;
    while i < |lines|
      invariant 0 <= i <= |lines|
      invariant session.Valid()
      invariant session.ViewOf() == DispatchAll(op, FreshView, lines[..i])
    {
      assert lines[..i + 1][..i] == lines[..i];
      session.OnLine(lines[i]);
      i := i + 1;
    }
    assert lines[..|lines|] == lines;
    r := Some(Outcome(exe, spawnedArgs, spawnedCwd, session.ViewOf()));
  }
}
