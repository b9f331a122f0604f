/** Worked examples: a service `svc` with a build, a deploy that must not
    follow a rollback, and a rollback triggered by configuration changes. */
module Scenarios {
  import opened Names
  import opened Descriptors
  import opened Loading
  import opened Triggers
  import opened Engine

  const Build := Action("make", None)
  const Deploy := Action("make deploy", Some(["rollback"]))
  const Rollback := Action("make rollback", None)

  const SvcCatalog: map<string, Action> :=
    map["svc.build" := Build, "svc.deploy" := Action("make deploy", Some(["svc.rollback"])), "svc.rollback" := Rollback]

  const RollbackOnConf := Reaction(["svc.rollback"], Some(When(None, None, Some(["*.conf"]))))
  const BuildAndDeploy := Reaction(["svc.build", "svc.deploy"], None)

  /** The catalog above is what the service's action document loads to. */
  lemma CatalogLoads()
    ensures GetServiceActions("svc", [("build", Build), ("deploy", Deploy), ("rollback", Rollback)]) == Success(SvcCatalog)
  {
    var desc := [("build", Build), ("deploy", Deploy), ("rollback", Rollback)];
    assert !HasDot("build") && !HasDot("deploy") && !HasDot("rollback") && !HasDot("make rollback");
    assert Prefixed("svc", "build") == "svc.build";
    assert Prefixed("svc", "deploy") == "svc.deploy";
    assert Prefixed("svc", "rollback") == "svc.rollback";
    assert ["rollback"][1..] == [];
    assert QualifyAll("svc", ["rollback"]) == ["svc.rollback"];
    assert QualifyAction("svc", Deploy) == Action("make deploy", Some(["svc.rollback"]));
    assert desc[..0] == [];
    assert desc[..1] == [("build", Build)];
    assert desc[..2] == [("build", Build), ("deploy", Deploy)];
    assert GetServiceActions("svc", desc[..1]) == Success(map["svc.build" := Build]);
    assert GetServiceActions("svc", desc[..2]) == Success(map["svc.build" := Build, "svc.deploy" := QualifyAction("svc", Deploy)]);
  }

  /** A local key with a dot is refused. */
  lemma DottedKeyRejected()
    ensures GetServiceActions("svc", [("build", Build), ("a.b", Build)]) == Failure(NamingError("a.b"))
  {
    // the first entry passes and the second stops the build at its key check
  }

  /** A changed configuration file triggers the rollback, which then keeps
      the deploy of the second reaction from running. */
  lemma ConfChangedRollsBack(exit: ExitOracle, matches: Matcher)
    requires exit("make") == 0 && exit("make rollback") == 0
    requires matches("app.conf", "*.conf")
    ensures React(SvcCatalog, [RollbackOnConf, BuildAndDeploy], ["app.conf"], exit, matches)
            == Run(["svc.rollback", "svc.build"], {"svc.rollback", "svc.build"}, Ok)
  {
    assert Decide(RollbackOnConf.when, ["app.conf"], exit, matches) == Fire;
    var first := Execute(SvcCatalog, RollbackOnConf, ["svc.rollback"], {}, exit);
    assert first == Run(["svc.rollback"], {"svc.rollback"}, Ok);
    assert Exclusions(SvcCatalog["svc.deploy"]) == {"svc.rollback"};
    var second := Execute(SvcCatalog, BuildAndDeploy, ["svc.build", "svc.deploy"], {"svc.rollback"}, exit);
    assert ["svc.build", "svc.deploy"][1..] == ["svc.deploy"];
    assert Execute(SvcCatalog, BuildAndDeploy, ["svc.deploy"], {"svc.rollback", "svc.build"}, exit)
           == Run([], {"svc.rollback", "svc.build"}, Ok);
    assert second == Run(["svc.build"], {"svc.rollback", "svc.build"}, Ok);
    assert [BuildAndDeploy][1..] == [];
    assert ReactFrom(SvcCatalog, [BuildAndDeploy], ["app.conf"], {"svc.rollback"}, exit, matches) == second;
    assert [RollbackOnConf, BuildAndDeploy][1..] == [BuildAndDeploy];
    assert ReactFrom(SvcCatalog, [RollbackOnConf, BuildAndDeploy], ["app.conf"], {}, exit, matches) == Then(first, second);
  }

  /** Without a matching change the rollback reaction is passed over and
      both build and deploy run. */
  lemma NoConfChangeDeploys(exit: ExitOracle, matches: Matcher)
    requires exit("make") == 0 && exit("make deploy") == 0
    requires !matches("readme.md", "*.conf")
    ensures React(SvcCatalog, [RollbackOnConf, BuildAndDeploy], ["readme.md"], exit, matches)
            == Run(["svc.build", "svc.deploy"], {"svc.build", "svc.deploy"}, Ok)
  {
    assert Decide(RollbackOnConf.when, ["readme.md"], exit, matches) == Pass;
    assert Exclusions(SvcCatalog["svc.deploy"]) == {"svc.rollback"};
    assert ["svc.build", "svc.deploy"][1..] == ["svc.deploy"];
    assert Execute(SvcCatalog, BuildAndDeploy, ["svc.deploy"], {"svc.build"}, exit)
           == Run(["svc.deploy"], {"svc.build", "svc.deploy"}, Ok);
    assert Execute(SvcCatalog, BuildAndDeploy, ["svc.build", "svc.deploy"], {}, exit)
           == Run(["svc.build", "svc.deploy"], {"svc.build", "svc.deploy"}, Ok);
    assert [BuildAndDeploy][1..] == [];
    assert ReactFrom(SvcCatalog, [BuildAndDeploy], ["readme.md"], {}, exit, matches)
           == Run(["svc.build", "svc.deploy"], {"svc.build", "svc.deploy"}, Ok);
    assert [RollbackOnConf, BuildAndDeploy][1..] == [BuildAndDeploy];
  }

  /** A reference to a missing action stops the pass before any command runs. */
  lemma MissingActionStops(changed: seq<string>, exit: ExitOracle, matches: Matcher)
    ensures React(SvcCatalog, [Reaction(["svc.missing", "svc.build"], None), BuildAndDeploy], changed, exit, matches)
            == Run([], {}, UnknownAction("svc.missing", Reaction(["svc.missing", "svc.build"], None)))
  {
  }

  /** Qualification can turn a duplicate-free `execute` list into one that
      names the same action twice. */
  lemma QualificationMergesReferences()
    ensures GetReactions("svc", [Reaction(["build", "svc.build"], None)])
            == Success([Reaction(["svc.build", "svc.build"], None)])
  {
    assert "build" != "svc.build";
    assert ReactionConforms(Reaction(["build", "svc.build"], None));
    assert !HasDot("build") && HasDot("svc.build");
    assert Prefixed("svc", "build") == "svc.build";
    assert QualifyAll("svc", ["build", "svc.build"]) == ["svc.build", "svc.build"];
    var desc := [Reaction(["build", "svc.build"], None)];
    assert desc[1..] == [];
    assert QualifyReactions("svc", desc) == [Reaction(["svc.build", "svc.build"], None)];
  }

  /** An action named twice in a firing reaction still runs once. */
  lemma RepeatedReferenceRunsOnce(changed: seq<string>, exit: ExitOracle, matches: Matcher)
    requires exit("make") == 0
    ensures React(SvcCatalog, [Reaction(["svc.build", "svc.build"], None)], changed, exit, matches)
            == Run(["svc.build"], {"svc.build"}, Ok)
  {
    // the first reference runs the action; the second finds it already done
  }
}
