/** The react pass: reactions are considered in order, each firing reaction
    runs its actions in order, every action runs at most once, an action is
    skipped once one of its `not_after` actions has run, and the first
    failure ends the pass. */
module Engine {
  import opened Descriptors
  import opened Triggers

  type Catalog = map<string, Action>

  /** What a pass (or part of one) did: the actions it ran successfully, in
      order, the resulting `done` set, and how it ended. */
  datatype Run = Run(trace: seq<string>, done: set<string>, outcome: Outcome)

  /** `second` carried out after `first`, which must have ended well. */
  function Then(first: Run, second: Run): Run {
    Run(first.trace + second.trace, second.done, second.outcome)
  }

  /** Action `a` may run given the actions in `done`, and its command succeeds. */
  predicate Runs(catalog: Catalog, done: set<string>, a: string, exit: ExitOracle) {
    && a in catalog
    && a !in done
    && Exclusions(catalog[a]) !! done
    && exit(catalog[a].command) == 0
  }

  /** Every action of `trace` was allowed to run, and ran, given `done` and
      the actions before it in the trace. */
  predicate RanSoundly(catalog: Catalog, done: set<string>, trace: seq<string>, exit: ExitOracle) {
    forall i :: 0 <= i < |trace| ==> Runs(catalog, done + Elems(trace[..i]), trace[i], exit)
  }

  /** A failed command is reported with its exit code: it belonged to an
      action that was allowed to run and was not recorded as done. */
  predicate FailureReported(catalog: Catalog, run: Run, exit: ExitOracle) {
    run.outcome.ActionFailed? ==>
      && run.outcome.code != 0
      && exit(run.outcome.command) == run.outcome.code
      && exists a :: a in catalog && catalog[a].command == run.outcome.command
                     && a !in run.done && Exclusions(catalog[a]) !! run.done
  }

  /** A failed command is blamed on an action of `todo`: one in the catalog,
      with that command, that was allowed to run and is not recorded as done. */
  predicate BlamesListed(catalog: Catalog, todo: seq<string>, run: Run) {
    run.outcome.ActionFailed? ==>
      exists a :: a in todo && a in catalog && catalog[a].command == run.outcome.command
                  && a !in run.done && Exclusions(catalog[a]) !! run.done
  }

  /** `run`, started from `done`, only recorded actions that were allowed to
      run and succeeded, and reported any failure faithfully. */
  predicate SoundRun(catalog: Catalog, done: set<string>, run: Run, exit: ExitOracle) {
    && run.done == done + Elems(run.trace)
    && RanSoundly(catalog, done, run.trace, exit)
    && FailureReported(catalog, run, exit)
  }

  /** Runs the actions `todo` of `reaction` in order, starting from `done`. */
  function Execute(catalog: Catalog, reaction: Reaction, todo: seq<string>, done: set<string>, exit: ExitOracle): (r: Run)
    ensures done <= r.done
    decreases |todo|
  {
    if todo == [] then Run([], done, Ok)
    else
      var a := todo[0];
      if a !in catalog then Run([], done, UnknownAction(a, reaction))
      else if a in done || !(Exclusions(catalog[a]) !! done) then
        Execute(catalog, reaction, todo[1..], done, exit)
      else
        var code := exit(catalog[a].command);
        if code != 0 then Run([], done, ActionFailed(catalog[a].command, code))
        else Then(Run([a], done + {a}, Ok), Execute(catalog, reaction, todo[1..], done + {a}, exit))
  }

  /** Considers the reactions `rs` in order, starting from `done`. */
  function ReactFrom(catalog: Catalog, rs: seq<Reaction>, changed: seq<string>, done: set<string>,
                     exit: ExitOracle, matches: Matcher): (r: Run)
    ensures done <= r.done
    decreases |rs|
  {
    if rs == [] then Run([], done, Ok)
    else
      match Decide(rs[0].when, changed, exit, matches)
      case Abort(e) => Run([], done, e)
      case Pass => ReactFrom(catalog, rs[1..], changed, done, exit, matches)
      case Fire =>
        var first := Execute(catalog, rs[0], rs[0].execute, done, exit);
        if !first.outcome.Ok? then first
        else Then(first, ReactFrom(catalog, rs[1..], changed, first.done, exit, matches))
  }

  /** A complete react pass, from an empty `done` set. */
  function React(catalog: Catalog, reactions: seq<Reaction>, changed: seq<string>,
                 exit: ExitOracle, matches: Matcher): (r: Run)
    ensures r.done == Elems(r.trace)
    ensures NoDup(r.trace)
    ensures RanSoundly(catalog, {}, r.trace, exit)
    ensures FailureReported(catalog, r, exit)
  {
    ReactFromSound(catalog, reactions, changed, {}, exit, matches);
    var r := ReactFrom(catalog, reactions, changed, {}, exit, matches);
    SoundTraceHasNoDuplicates(catalog, {}, r.trace, exit);
    r
  }

  // ---------------------------------------------------------------------
  // Soundness: what ran was allowed to run, and `done` is what ran.

  lemma ElemsAppend<T>(s: seq<T>, t: seq<T>)
    ensures Elems(s + t) == Elems(s) + Elems(t)
  {
    forall x | x in Elems(s + t) ensures x in Elems(s) + Elems(t) {
      var i :| 0 <= i < |s + t| && (s + t)[i] == x;
      if i >= |s| { assert t[i - |s|] == x; }
    }
  }

  lemma {:induction false} RanSoundlyAppend(catalog: Catalog, done: set<string>, s: seq<string>, t: seq<string>, exit: ExitOracle)
    requires RanSoundly(catalog, done, s, exit)
    requires RanSoundly(catalog, done + Elems(s), t, exit)
    ensures RanSoundly(catalog, done, s + t, exit)
  {
    var st := s + t;
    forall i | 0 <= i < |st| ensures Runs(catalog, done + Elems(st[..i]), st[i], exit) {
      if i < |s| {
        assert st[..i] == s[..i];
        assert st[i] == s[i];
      } else {
        assert st[..i] == s + t[..i - |s|];
        ElemsAppend(s, t[..i - |s|]);
        assert st[i] == t[i - |s|];
        assert done + Elems(st[..i]) == (done + Elems(s)) + Elems(t[..i - |s|]);
      }
    }
  }

  lemma {:induction false} SoundTraceHasNoDuplicates(catalog: Catalog, done: set<string>, trace: seq<string>, exit: ExitOracle)
    requires RanSoundly(catalog, done, trace, exit)
    ensures NoDup(trace)
    ensures Elems(trace) !! done
  {
    forall i, j | 0 <= i < j < |trace| ensures trace[i] != trace[j] {
      assert Runs(catalog, done + Elems(trace[..j]), trace[j], exit);
      assert trace[i] == trace[..j][i];
      assert trace[i] in Elems(trace[..j]);
    }
    forall x | x in Elems(trace) ensures x !in done {
      var i :| 0 <= i < |trace| && trace[i] == x;
      assert Runs(catalog, done + Elems(trace[..i]), trace[i], exit);
    }
  }

  lemma {:induction false} ExecuteSound(catalog: Catalog, reaction: Reaction, todo: seq<string>, done: set<string>, exit: ExitOracle)
    ensures var r := Execute(catalog, reaction, todo, done, exit);
      && r.done == done + Elems(r.trace)
      && RanSoundly(catalog, done, r.trace, exit)
      && FailureReported(catalog, r, exit)
      && BlamesListed(catalog, todo, r)
      && Elems(r.trace) <= Elems(todo)
      && (r.outcome.UnknownAction? ==> r.outcome.action !in catalog && r.outcome.action in todo
                                       && r.outcome.reaction == reaction)
      && (r.outcome.Ok? || r.outcome.UnknownAction? || r.outcome.ActionFailed?)
    decreases |todo|
  {
    var r := Execute(catalog, reaction, todo, done, exit);
    if todo == [] {
      assert r.trace == [];
    } else {
      var a := todo[0];
      if a !in catalog {
      } else if a in done || !(Exclusions(catalog[a]) !! done) {
        ExecuteSound(catalog, reaction, todo[1..], done, exit);
        assert Elems(todo[1..]) <= Elems(todo);
      } else if exit(catalog[a].command) != 0 {
        assert r.done == done;
        assert catalog[a].command == r.outcome.command;
      } else {
        var rest := Execute(catalog, reaction, todo[1..], done + {a}, exit);
        ExecuteSound(catalog, reaction, todo[1..], done + {a}, exit);
        assert r.trace == [a] + rest.trace;
        ElemsAppend([a], rest.trace);
        assert Elems([a]) == {a};
        assert [a][..0] == [];
        assert RanSoundly(catalog, done, [a], exit);
        RanSoundlyAppend(catalog, done, [a], rest.trace, exit);
        assert Elems(todo[1..]) <= Elems(todo);
      }
    }
  }

  lemma {:induction false} ReactFromSound(catalog: Catalog, rs: seq<Reaction>, changed: seq<string>, done: set<string>,
                                          exit: ExitOracle, matches: Matcher)
    ensures SoundRun(catalog, done, ReactFrom(catalog, rs, changed, done, exit, matches), exit)
    decreases |rs|
  {
    var r := ReactFrom(catalog, rs, changed, done, exit, matches);
    if rs != [] {
      match Decide(rs[0].when, changed, exit, matches)
      case Abort(e) =>
      case Pass =>
        ReactFromSound(catalog, rs[1..], changed, done, exit, matches);
      case Fire =>
        var first := Execute(catalog, rs[0], rs[0].execute, done, exit);
        ExecuteSound(catalog, rs[0], rs[0].execute, done, exit);
        if first.outcome.Ok? {
          var rest := ReactFrom(catalog, rs[1..], changed, first.done, exit, matches);
          ReactFromSound(catalog, rs[1..], changed, first.done, exit, matches);
          ElemsAppend(first.trace, rest.trace);
          RanSoundlyAppend(catalog, done, first.trace, rest.trace, exit);
        }
    }
  }
}
