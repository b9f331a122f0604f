/** The parsed action and reaction documents of a service, the outcome of a
    react pass, and the structural checks the documents' schemas impose. */
module Descriptors {

  datatype Option<+T> = None | Some(value: T)

  /** One entry of the action catalog: the command to run and the actions
      after which it must not run (absent and empty behave alike). */
  datatype Action = Action(command: string, notAfter: Option<seq<string>>)

  /** The `when` block of a reaction, with its three optional fields. */
  datatype When = When(command: Option<string>, exitcode: Option<int>, files: Option<seq<string>>)

  /** A reaction: the actions to execute, in order, if `when` fires. */
  datatype Reaction = Reaction(execute: seq<string>, when: Option<When>)

  /** How a react pass ends. */
  datatype Outcome =
    | Ok
      /** a reaction referenced an action missing from the catalog */
    | UnknownAction(action: string, reaction: Reaction)
      /** an action's command exited with a non-zero code */
    | ActionFailed(command: string, code: int)
      /** a `when` block with neither `command` nor `files` */
    | BadWhen
      /** a `when` block with `command` but no `exitcode` */
    | MissingExitCode(command: string)

  predicate NoDup<T(==)>(s: seq<T>) {
    forall i, j :: 0 <= i < j < |s| ==> s[i] != s[j]
  }

  function Elems<T>(s: seq<T>): set<T> {
    set x | x in s
  }

  /** The action schema beyond what the types already enforce:
      `not_after`, when present, has unique items. */
  predicate ActionConforms(a: Action) {
    a.notAfter.Some? ==> NoDup(a.notAfter.value)
  }

  /** The reaction schema beyond what the types already enforce:
      `execute` is non-empty and has unique items. */
  predicate ReactionConforms(r: Reaction) {
    |r.execute| >= 1 && NoDup(r.execute)
  }

  /** The actions whose earlier execution keeps `a` from running. */
  function Exclusions(a: Action): set<string> {
    if a.notAfter.None? then {} else Elems(a.notAfter.value)
  }
}
