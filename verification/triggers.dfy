/** Deciding whether a reaction fires. Running a probe command is an
    exit-code oracle and glob matching is an uninterpreted predicate, both
    supplied by the caller. */
module Triggers {
  import opened Descriptors

  /** The exit code of running a command. */
  type ExitOracle = string -> int

  /** `matches(path, pattern)`: the changed `path` matches the glob `pattern`. */
  type Matcher = (string, string) -> bool

  /** The changed paths that match `pattern`. */
  function Filter(paths: seq<string>, pattern: string, matches: Matcher): (r: seq<string>)
    ensures forall k :: 0 <= k < |r| ==> r[k] in paths && matches(r[k], pattern)
    ensures forall j :: 0 <= j < |paths| && matches(paths[j], pattern) ==> paths[j] in r
    ensures |r| > 0 <==> exists j :: 0 <= j < |paths| && matches(paths[j], pattern)
  {
    if paths == [] then []
    else if matches(paths[0], pattern) then [paths[0]] + Filter(paths[1..], pattern, matches)
    else Filter(paths[1..], pattern, matches)
  }

  /** Whether some changed path matches some pattern; patterns are tried in
      order and the first one with a match settles it. */
  function CheckFiles(patterns: seq<string>, paths: seq<string>, matches: Matcher): (r: bool)
    ensures r <==> exists i, j :: 0 <= i < |patterns| && 0 <= j < |paths| && matches(paths[j], patterns[i])
  {
    if patterns == [] then false
    else if |Filter(paths, patterns[0], matches)| > 0 then true
    else CheckFiles(patterns[1..], paths, matches)
  }

  /** No patterns, or no changed paths, never fire. */
  lemma CheckFilesEmpty(patterns: seq<string>, paths: seq<string>, matches: Matcher)
    requires patterns == [] || paths == []
    ensures !CheckFiles(patterns, paths, matches)
  {
  }

  /** The condition a `when` block stands for. */
  datatype Trigger =
    | Always
    | Probe(command: string, exitcode: int)
    | Files(patterns: seq<string>)
    | ProbeWithoutExitCode(command: string)
    | Neither

  /** Reads a `when` block: `command` is looked at before `files`. */
  function TriggerOf(when: Option<When>): Trigger {
    match when
    case None => Always
    case Some(w) =>
      if w.command.Some? then
        (if w.exitcode.Some? then Probe(w.command.value, w.exitcode.value) else ProbeWithoutExitCode(w.command.value))
      else if w.files.Some? then Files(w.files.value)
      else Neither
  }

  /** With both `command` and `files` present, the file list is ignored. */
  lemma CommandWins(command: string, exitcode: int, files: seq<string>)
    ensures TriggerOf(Some(When(Some(command), Some(exitcode), Some(files)))) == Probe(command, exitcode)
  {
  }

  datatype Decision = Fire | Pass | Abort(error: Outcome)

  /** Whether a reaction with this `when` block fires, or the pass must stop. */
  function Decide(when: Option<When>, changed: seq<string>, exit: ExitOracle, matches: Matcher): (d: Decision)
    ensures d.Abort? <==> when.Some? && (when.value.command.Some? ==> when.value.exitcode.None?)
                                     && (when.value.command.None? ==> when.value.files.None?)
    ensures d.Abort? && when.value.command.Some? ==> d.error == MissingExitCode(when.value.command.value)
    ensures d.Abort? && when.value.command.None? ==> d.error == BadWhen
    ensures d == Fire <==>
              || when.None?
              || (when.value.command.Some? && when.value.exitcode.Some?
                  && exit(when.value.command.value) == when.value.exitcode.value)
              || (when.value.command.None? && when.value.files.Some?
                  && exists i, j :: 0 <= i < |when.value.files.value| && 0 <= j < |changed|
                                    && matches(changed[j], when.value.files.value[i]))
  {
    match TriggerOf(when)
    case Always => Fire
    case Probe(command, exitcode) => if exit(command) == exitcode then Fire else Pass
    case Files(patterns) => if CheckFiles(patterns, changed, matches) then Fire else Pass
    case ProbeWithoutExitCode(command) => Abort(MissingExitCode(command))
    case Neither => Abort(BadWhen)
  }
}
