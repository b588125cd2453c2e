/**
 * `homeDirectory` and `workingDirectory`: chains of JavaScript `||` over host
 * values (environment variables, the active editor's path, the project
 * roots). The host values are inputs; `path.dirname` and
 * `atom.project.relativizePath` are represented by their results.
 */
module Workspace {
  import opened Wrappers

  /** JavaScript truthiness of a string that may be `null`/`undefined`. */
  predicate Truthy(v: Option<string>) {
    v.Some? && v.value != ""
  }

  /** `a || b` where b is a string. */
  function Or(a: Option<string>, b: string): string {
    if Truthy(a) then a.value else b
  }

  /** `process.env[key]`. */
  function Lookup(env: map<string, string>, key: string): Option<string> {
    if key in env then Some(env[key]) else None
  }

  /** `ref[0]` of `atom.project.getPaths()`: undefined when there is no project root. */
  function FirstPath(paths: seq<string>): Option<string> {
    if |paths| == 0 then None else Some(paths[0])
  }

  /** `process.env['HOME'] || process.env['USERPROFILE'] || '/'` */
  function HomeDirectory(env: map<string, string>): string {
    Or(Lookup(env, "HOME"), Or(Lookup(env, "USERPROFILE"), "/"))
  }

  /**
   * activePath: `editor.getPath()` or undefined; activeRoot: `relative[0]`,
   * the project root containing it; activeDir: `path.dirname(activePath)`.
   */
  function WorkingDirectory(activePath: Option<string>, activeRoot: Option<string>, activeDir: string,
                            projectPaths: seq<string>, env: map<string, string>): string {
    if activePath.Some? then Or(activeRoot, activeDir)
    else Or(FirstPath(projectPaths), HomeDirectory(env))
  }

  /** The reference reading of an `||` chain: the first truthy candidate, else the last operand. */
  function FirstTruthy(candidates: seq<Option<string>>, last: string): (r: string)
    ensures r == last || exists j :: 0 <= j < |candidates| && Truthy(candidates[j]) && r == candidates[j].value
  {
    if |candidates| == 0 then last
    else if Truthy(candidates[0]) then candidates[0].value
    else FirstTruthy(candidates[1..], last)
  }

  /** FirstTruthy picks the earliest truthy candidate. */
  lemma {:induction false} FirstTruthyIsEarliest(candidates: seq<Option<string>>, last: string, j: nat)
    requires j < |candidates| && Truthy(candidates[j])
    requires forall m :: 0 <= m < j ==> !Truthy(candidates[m])
    ensures FirstTruthy(candidates, last) == candidates[j].value
    decreases j
  {
    if j > 0 {
      FirstTruthyIsEarliest(candidates[1..], last, j - 1);
    }
  }

  /** The home directory is HOME, else USERPROFILE, else `/`, skipping unset and empty variables; it is never empty. */
  lemma HomeDirectoryFallback(env: map<string, string>)
    ensures HomeDirectory(env) == FirstTruthy([Lookup(env, "HOME"), Lookup(env, "USERPROFILE")], "/")
    ensures HomeDirectory(env) != ""
  {
    var cands := [Lookup(env, "HOME"), Lookup(env, "USERPROFILE")];
    assert cands[1..][1..] == [];
  }

  /**
   * With an active path the working directory is its project root, else its
   * directory; without one it is the first project root, else the home
   * directory, and then it is never empty.
   */
  lemma WorkingDirectoryFallback(activePath: Option<string>, activeRoot: Option<string>, activeDir: string,
                                 projectPaths: seq<string>, env: map<string, string>)
    ensures activePath.Some? ==>
      WorkingDirectory(activePath, activeRoot, activeDir, projectPaths, env) == FirstTruthy([activeRoot], activeDir)
    ensures activePath.None? ==>
      WorkingDirectory(activePath, activeRoot, activeDir, projectPaths, env)
        == FirstTruthy([FirstPath(projectPaths), Lookup(env, "HOME"), Lookup(env, "USERPROFILE")], "/")
    ensures activePath.None? ==> WorkingDirectory(activePath, activeRoot, activeDir, projectPaths, env) != ""
  {
    HomeDirectoryFallback(env);
    var home := [Lookup(env, "HOME"), Lookup(env, "USERPROFILE")];
    var cands := [FirstPath(projectPaths)] + home;
    assert cands[1..] == home;
    assert [activeRoot][1..] == [];
  }
}
