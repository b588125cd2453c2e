/**
 * The three fixed argument vectors of `Tsd.install`, `Tsd.reinstall` and
 * `Tsd.update`, and the choice of executable made in `execTsdCommand`.
 */
module TsdCommand {

  /** `tsd query <q> --action install --save --resolve` */
  function InstallArgs(query: string): seq<string> {
    ["query", query, "--action", "install", "--save", "--resolve"]
  }

  /** `tsd reinstall --save --overwrite` */
  function ReinstallArgs(): seq<string> {
    ["reinstall", "--save", "--overwrite"]
  }

  /** `tsd update --save --overwrite` */
  function UpdateArgs(): seq<string> {
    ["update", "--save", "--overwrite"]
  }

  /** `/^win/.test(platform)`: the platform name begins with `win` (case-sensitive, no flags). */
  predicate IsWin(platform: string) {
    |platform| >= 3 && platform[..3] == "win"
  }

  /** The command name handed to `child_process.spawn`. */
  function Executable(platform: string): string {
    if IsWin(platform) then "tsd.cmd" else "tsd"
  }

  /**
   * The query is the only caller-controlled part of the install vector: it
   * sits at index 1 and every other position is fixed.
   */
  lemma InstallArgsFixedButQuery(q1: string, q2: string)
    ensures |InstallArgs(q1)| == 6 && InstallArgs(q1)[1] == q1
    ensures forall j :: 0 <= j < 6 && j != 1 ==> InstallArgs(q1)[j] == InstallArgs(q2)[j]
    ensures InstallArgs(q1) == InstallArgs(q2) <==> q1 == q2
  {
    if InstallArgs(q1) == InstallArgs(q2) {
      assert InstallArgs(q1)[1] == InstallArgs(q2)[1];
    }
  }

  /** The three subcommands are told apart by their first argument, whatever the query. */
  lemma VectorsDistinct(q: string)
    ensures InstallArgs(q)[0] == "query" && ReinstallArgs()[0] == "reinstall" && UpdateArgs()[0] == "update"
    ensures InstallArgs(q) != ReinstallArgs() && InstallArgs(q) != UpdateArgs() && ReinstallArgs() != UpdateArgs()
  {
    assert ReinstallArgs()[0] != UpdateArgs()[0];
    assert |InstallArgs(q)| != |UpdateArgs()|;
  }

  /** `tsd.cmd` exactly on platforms whose name starts with `win`, `tsd` on all others. */
  lemma ExecutableChoice(platform: string)
    ensures Executable(platform) == "tsd.cmd" <==> (|platform| >= 3 && platform[0] == 'w' && platform[1] == 'i' && platform[2] == 'n')
    ensures Executable(platform) == "tsd" <==> !IsWin(platform)
  {
    assert "tsd" != "tsd.cmd";
    if |platform| >= 3 && platform[0] == 'w' && platform[1] == 'i' && platform[2] == 'n' {
      assert platform[..3] == "win";
    }
  }
}
