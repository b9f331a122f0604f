/** Properties of the react pass that relate several runs: splitting the
    reaction (or action) list, fail-fast, completeness, provenance and the
    dependence of the outcome on the order of reactions. */
module EngineProperties {
  import opened Descriptors
  import opened Triggers
  import opened Engine

  // ---------------------------------------------------------------------
  // Sequential composition and fail-fast.

  /** Running `xs + ys` is running `xs` and then, if that ended well, `ys`
      from where `xs` left off. */
  lemma {:induction false} ExecuteAppend(catalog: Catalog, reaction: Reaction, xs: seq<string>, ys: seq<string>,
                                         done: set<string>, exit: ExitOracle)
    ensures var first := Execute(catalog, reaction, xs, done, exit);
      Execute(catalog, reaction, xs + ys, done, exit)
      == if first.outcome.Ok? then Then(first, Execute(catalog, reaction, ys, first.done, exit)) else first
    decreases |xs|
  {
    if xs == [] {
      assert xs + ys == ys;
    } else {
      var a := xs[0];
      assert (xs + ys)[0] == a;
      assert (xs + ys)[1..] == xs[1..] + ys;
      if a !in catalog {
      } else if a in done || !(Exclusions(catalog[a]) !! done) {
        ExecuteAppend(catalog, reaction, xs[1..], ys, done, exit);
      } else if exit(catalog[a].command) != 0 {
      } else {
        ExecuteAppend(catalog, reaction, xs[1..], ys, done + {a}, exit);
        var rest := Execute(catalog, reaction, xs[1..], done + {a}, exit);
        if rest.outcome.Ok? {
          var tail := Execute(catalog, reaction, ys, rest.done, exit);
          assert [a] + (rest.trace + tail.trace) == ([a] + rest.trace) + tail.trace;
        }
      }
    }
  }

  /** Considering `rs1 + rs2` is considering `rs1` and then, if that ended
      well, `rs2` from where `rs1` left off. */
  lemma {:induction false} ReactFromAppend(catalog: Catalog, rs1: seq<Reaction>, rs2: seq<Reaction>, changed: seq<string>,
                                           done: set<string>, exit: ExitOracle, matches: Matcher)
    ensures var first := ReactFrom(catalog, rs1, changed, done, exit, matches);
      ReactFrom(catalog, rs1 + rs2, changed, done, exit, matches)
      == if first.outcome.Ok? then Then(first, ReactFrom(catalog, rs2, changed, first.done, exit, matches)) else first
    decreases |rs1|
  {
    if rs1 == [] {
      assert rs1 + rs2 == rs2;
    } else {
      assert (rs1 + rs2)[0] == rs1[0];
      assert (rs1 + rs2)[1..] == rs1[1..] + rs2;
      match Decide(rs1[0].when, changed, exit, matches)
      case Abort(e) =>
      case Pass =>
        ReactFromAppend(catalog, rs1[1..], rs2, changed, done, exit, matches);
      case Fire =>
        var head := Execute(catalog, rs1[0], rs1[0].execute, done, exit);
        if head.outcome.Ok? {
          ReactFromAppend(catalog, rs1[1..], rs2, changed, head.done, exit, matches);
          var rest := ReactFrom(catalog, rs1[1..], changed, head.done, exit, matches);
          if rest.outcome.Ok? {
            var tail := ReactFrom(catalog, rs2, changed, rest.done, exit, matches);
            assert head.trace + (rest.trace + tail.trace) == (head.trace + rest.trace) + tail.trace;
          }
        }
    }
  }

  /** Once an action fails or is unknown, no later action of the same
      reaction is looked at. */
  lemma ExecuteFailFast(catalog: Catalog, reaction: Reaction, xs: seq<string>, ys: seq<string>,
                        done: set<string>, exit: ExitOracle)
    requires !Execute(catalog, reaction, xs, done, exit).outcome.Ok?
    ensures Execute(catalog, reaction, xs + ys, done, exit) == Execute(catalog, reaction, xs, done, exit)
  {
    ExecuteAppend(catalog, reaction, xs, ys, done, exit);
  }

  /** Once the pass over `rs1` has failed, the reactions after it change
      nothing: none of their probes or actions run. */
  lemma ReactFailFast(catalog: Catalog, rs1: seq<Reaction>, rs2: seq<Reaction>, changed: seq<string>,
                      exit: ExitOracle, matches: Matcher)
    requires !React(catalog, rs1, changed, exit, matches).outcome.Ok?
    ensures React(catalog, rs1 + rs2, changed, exit, matches) == React(catalog, rs1, changed, exit, matches)
  {
    ReactFromAppend(catalog, rs1, rs2, changed, {}, exit, matches);
  }

  /** A reaction that does not fire contributes nothing, wherever it stands. */
  lemma PassingReactionIgnored(catalog: Catalog, rs1: seq<Reaction>, reaction: Reaction, rs2: seq<Reaction>,
                               changed: seq<string>, exit: ExitOracle, matches: Matcher)
    requires Decide(reaction.when, changed, exit, matches) == Pass
    ensures React(catalog, rs1 + [reaction] + rs2, changed, exit, matches)
            == React(catalog, rs1 + rs2, changed, exit, matches)
  {
    assert rs1 + [reaction] + rs2 == rs1 + ([reaction] + rs2);
    ReactFromAppend(catalog, rs1, [reaction] + rs2, changed, {}, exit, matches);
    ReactFromAppend(catalog, rs1, rs2, changed, {}, exit, matches);
    var first := ReactFrom(catalog, rs1, changed, {}, exit, matches);
    assert ([reaction] + rs2)[1..] == rs2;
    assert ReactFrom(catalog, [reaction] + rs2, changed, first.done, exit, matches)
           == ReactFrom(catalog, rs2, changed, first.done, exit, matches);
  }

  // ---------------------------------------------------------------------
  // Completeness and provenance.

  /** Action `a` is in the catalog and has either run or been excluded by
      something that ran. */
  predicate Settled(catalog: Catalog, done: set<string>, a: string) {
    a in catalog && (a in done || !(Exclusions(catalog[a]) !! done))
  }

  lemma SettledGrows(catalog: Catalog, done: set<string>, more: set<string>, a: string)
    requires Settled(catalog, done, a) && done <= more
    ensures Settled(catalog, more, a)
  {
    if a !in done {
      var x :| x in Exclusions(catalog[a]) && x in done;
      assert x in more;
    }
  }

  /** When a reaction's actions all go through, each of them ran or was
      excluded by an action that ran. */
  lemma {:induction false} ExecuteComplete(catalog: Catalog, reaction: Reaction, todo: seq<string>,
                                           done: set<string>, exit: ExitOracle)
    ensures var r := Execute(catalog, reaction, todo, done, exit);
      r.outcome.Ok? ==> forall a :: a in todo ==> Settled(catalog, r.done, a)
    decreases |todo|
  {
    var r := Execute(catalog, reaction, todo, done, exit);
    if todo != [] && r.outcome.Ok? {
      var a := todo[0];
      assert a in catalog;
      if a in done || !(Exclusions(catalog[a]) !! done) {
        ExecuteComplete(catalog, reaction, todo[1..], done, exit);
        SettledGrows(catalog, done, r.done, a);
      } else {
        ExecuteComplete(catalog, reaction, todo[1..], done + {a}, exit);
        SettledGrows(catalog, done + {a}, r.done, a);
      }
      forall b | b in todo ensures Settled(catalog, r.done, b) {
        if b != a { assert b in todo[1..]; }
      }
    }
  }

  /** A pass that ends well met no malformed `when` block, and every action
      of every firing reaction ran or was excluded by an action that ran. */
  lemma {:induction false} ReactFromComplete(catalog: Catalog, rs: seq<Reaction>, changed: seq<string>,
                                             done: set<string>, exit: ExitOracle, matches: Matcher)
    ensures var r := ReactFrom(catalog, rs, changed, done, exit, matches);
      r.outcome.Ok? ==> forall i :: 0 <= i < |rs| ==>
        && !Decide(rs[i].when, changed, exit, matches).Abort?
        && (Decide(rs[i].when, changed, exit, matches) == Fire ==>
              forall a :: a in rs[i].execute ==> Settled(catalog, r.done, a))
    decreases |rs|
  {
    var r := ReactFrom(catalog, rs, changed, done, exit, matches);
    if rs != [] && r.outcome.Ok? {
      var d := Decide(rs[0].when, changed, exit, matches);
      if d == Pass {
        ReactFromComplete(catalog, rs[1..], changed, done, exit, matches);
      } else {
        assert d == Fire;
        var first := Execute(catalog, rs[0], rs[0].execute, done, exit);
        ExecuteComplete(catalog, rs[0], rs[0].execute, done, exit);
        ReactFromComplete(catalog, rs[1..], changed, first.done, exit, matches);
        forall a | a in rs[0].execute ensures Settled(catalog, r.done, a) {
          SettledGrows(catalog, first.done, r.done, a);
        }
      }
      forall i | 1 <= i < |rs|
        ensures Decide(rs[i].when, changed, exit, matches) == Fire ==>
                  forall a :: a in rs[i].execute ==> Settled(catalog, r.done, a)
      {
        assert rs[i] == rs[1..][i - 1];
      }
    }
  }

  /** Every action that ran was listed by a reaction that fired; an unknown
      action is reported with the firing reaction that named it; a failed
      command belongs to an action listed by a firing reaction; and a
      malformed `when` block is reported as that block's own error. */
  lemma {:induction false} ReactFromProvenance(catalog: Catalog, rs: seq<Reaction>, changed: seq<string>,
                                               done: set<string>, exit: ExitOracle, matches: Matcher)
    ensures var r := ReactFrom(catalog, rs, changed, done, exit, matches);
      && (forall a :: a in r.trace ==>
            exists i :: 0 <= i < |rs| && Decide(rs[i].when, changed, exit, matches) == Fire && a in rs[i].execute)
      && (r.outcome.UnknownAction? ==>
            && r.outcome.action !in catalog
            && r.outcome.reaction in rs
            && r.outcome.action in r.outcome.reaction.execute
            && Decide(r.outcome.reaction.when, changed, exit, matches) == Fire)
      && (r.outcome.ActionFailed? ==>
            exists i :: 0 <= i < |rs| && Decide(rs[i].when, changed, exit, matches) == Fire
                        && BlamesListed(catalog, rs[i].execute, r))
      && (r.outcome.BadWhen? || r.outcome.MissingExitCode? ==>
            exists i :: 0 <= i < |rs| && Decide(rs[i].when, changed, exit, matches) == Abort(r.outcome))
    decreases |rs|
  {
    var r := ReactFrom(catalog, rs, changed, done, exit, matches);
    if rs != [] {
      match Decide(rs[0].when, changed, exit, matches)
      case Abort(e) =>
        assert Decide(rs[0].when, changed, exit, matches) == Abort(r.outcome);
      case Pass =>
        var rest := ReactFrom(catalog, rs[1..], changed, done, exit, matches);
        ReactFromProvenance(catalog, rs[1..], changed, done, exit, matches);
        LiftProvenance(catalog, rs, changed, exit, matches, rest, r);
      case Fire =>
        var first := Execute(catalog, rs[0], rs[0].execute, done, exit);
        ExecuteSound(catalog, rs[0], rs[0].execute, done, exit);
        if first.outcome.Ok? {
          var rest := ReactFrom(catalog, rs[1..], changed, first.done, exit, matches);
          ReactFromProvenance(catalog, rs[1..], changed, first.done, exit, matches);
          LiftProvenance(catalog, rs, changed, exit, matches, rest, r);
          forall a | a in r.trace
            ensures exists i :: 0 <= i < |rs| && Decide(rs[i].when, changed, exit, matches) == Fire && a in rs[i].execute
          {
            if a in first.trace {
              assert a in Elems(first.trace);
            } else {
              assert a in rest.trace;
            }
          }
        } else {
          forall a | a in r.trace
            ensures exists i :: 0 <= i < |rs| && Decide(rs[i].when, changed, exit, matches) == Fire && a in rs[i].execute
          {
            assert a in Elems(first.trace);
          }
          if r.outcome.ActionFailed? {
            assert BlamesListed(catalog, rs[0].execute, r);
          }
        }
    }
  }

  /** What the pass over `rs[1..]` says about its reactions, said about `rs`,
      for a run `r` that ends like `rest` and extends its trace. */
  lemma LiftProvenance(catalog: Catalog, rs: seq<Reaction>, changed: seq<string>, exit: ExitOracle, matches: Matcher,
                       rest: Run, r: Run)
    requires |rs| > 0
    requires r.outcome == rest.outcome && r.done == rest.done
    requires forall a :: a in rest.trace ==>
               exists i :: 0 <= i < |rs[1..]| && Decide(rs[1..][i].when, changed, exit, matches) == Fire && a in rs[1..][i].execute
    requires rest.outcome.UnknownAction? ==> rest.outcome.reaction in rs[1..]
    requires rest.outcome.ActionFailed? ==>
               exists i :: 0 <= i < |rs[1..]| && Decide(rs[1..][i].when, changed, exit, matches) == Fire
                           && BlamesListed(catalog, rs[1..][i].execute, rest)
    requires rest.outcome.BadWhen? || rest.outcome.MissingExitCode? ==>
               exists i :: 0 <= i < |rs[1..]| && Decide(rs[1..][i].when, changed, exit, matches) == Abort(rest.outcome)
    ensures forall a :: a in rest.trace ==>
              exists i :: 0 <= i < |rs| && Decide(rs[i].when, changed, exit, matches) == Fire && a in rs[i].execute
    ensures r.outcome.UnknownAction? ==> r.outcome.reaction in rs
    ensures r.outcome.ActionFailed? ==>
              exists i :: 0 <= i < |rs| && Decide(rs[i].when, changed, exit, matches) == Fire
                          && BlamesListed(catalog, rs[i].execute, r)
    ensures r.outcome.BadWhen? || r.outcome.MissingExitCode? ==>
              exists i :: 0 <= i < |rs| && Decide(rs[i].when, changed, exit, matches) == Abort(r.outcome)
  {
    // each witness index i into rs[1..] is the index i + 1 into rs
  }

  /** Exclusion soundness: no action ran after an action in its `not_after` set. */
  lemma ExclusionRespected(catalog: Catalog, reactions: seq<Reaction>, changed: seq<string>,
                           exit: ExitOracle, matches: Matcher)
    ensures var r := React(catalog, reactions, changed, exit, matches);
      forall i, j :: 0 <= i < j < |r.trace| ==> r.trace[i] !in Exclusions(catalog[r.trace[j]])
  {
    // follows from React's RanSoundly postcondition
  }

  // ---------------------------------------------------------------------
  // Order sensitivity.

  /** With `b` excluded after `a` but not the other way round, running the
      reaction for `a` first keeps `b` from running, while running the
      reaction for `b` first lets both run. */
  lemma OrderSensitivity(catalog: Catalog, a: string, b: string, changed: seq<string>,
                         exit: ExitOracle, matches: Matcher)
    requires a in catalog && b in catalog && a != b
    requires a in Exclusions(catalog[b]) && b !in Exclusions(catalog[a])
    requires exit(catalog[a].command) == 0 && exit(catalog[b].command) == 0
    ensures React(catalog, [Reaction([a], None), Reaction([b], None)], changed, exit, matches) == Run([a], {a}, Ok)
    ensures React(catalog, [Reaction([b], None), Reaction([a], None)], changed, exit, matches) == Run([b, a], {b, a}, Ok)
  {
    var ra, rb := Reaction([a], None), Reaction([b], None);
    assert Execute(catalog, ra, [a], {}, exit) == Run([a], {a}, Ok);
    assert Execute(catalog, rb, [b], {a}, exit) == Run([], {a}, Ok);
    assert ReactFrom(catalog, [rb], changed, {a}, exit, matches) == Run([], {a}, Ok);
    assert [ra, rb][1..] == [rb];
    assert Execute(catalog, rb, [b], {}, exit) == Run([b], {b}, Ok);
    assert Execute(catalog, ra, [a], {b}, exit) == Run([a], {b, a}, Ok);
    assert ReactFrom(catalog, [ra], changed, {b}, exit, matches) == Run([a], {b, a}, Ok);
    assert [rb, ra][1..] == [ra];
  }
}
