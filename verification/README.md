# Squadron action/reaction engine, in Dafny

This project models the deployment action/reaction engine of squadron
(`squadron/service.py`). It has three parts.

- **Catalog and reaction construction.** `get_service_actions` and `get_reactions`
  namespace a service's actions. Every catalog key `k` becomes `service.k`. A
  local key containing `.` is refused. Every `not_after` and `execute` reference
  without a dot is qualified with the service name.
- **The file trigger.** `_checkfiles` asks whether some glob pattern matches
  some changed path.
- **The react pass.** `react` goes through the reactions in order and decides
  whether each one fires. It runs the actions of each firing reaction in order.
  It keeps a `done` set so that no action runs twice. It skips an action once
  something in its `not_after` set has run. It stops at the first unknown
  action or failing command.

Modules:

- `Names` (names.dfy): the dot separator, `Qualify`, `QualifyAll`, and the
  injectivity of catalog keys.
- `Descriptors` (descriptors.dfy): the parsed documents as datatypes (`Action`,
  `When`, `Reaction`), the pass `Outcome`, and the two schemas. A schema is
  stated as the structural conditions the types cannot express: unique
  `not_after` items, and a non-empty, unique `execute` list.
- `Loading` (loading.dfy): `GetServiceActions` and `GetReactions`. They return a
  `Result` that carries `NamingError(key)` or `SchemaError`.
- `Triggers` (triggers.dfy): `Filter` (fnmatch.filter), `CheckFiles`, the
  classification of a `when` block into a `Trigger`, and `Decide`.
- `Engine` (engine.dfy): `Execute` (one reaction's action list),
  `ReactFrom`/`React` (the pass), and the soundness lemmas.
- `EngineProperties` (engine_properties.dfy): lemmas for sequential composition,
  fail-fast, completeness, provenance, exclusion and order sensitivity.
- `Scenarios` (scenarios.dfy): worked examples with a build/deploy/rollback
  service.

Running a command is an oracle `exit: string -> int` that gives the command's
exit code. Glob matching is a caller-supplied predicate `matches(path, pattern)`.
A pass returns a `Run`, which holds three things:

- the trace of actions that ran successfully, in order;
- the final `done` set;
- an `Outcome`: `Ok`, `UnknownAction(action, reaction)`,
  `ActionFailed(command, code)`, `BadWhen` or `MissingExitCode(command)`.

Some behaviours of the code are easy to miss; the model follows the code:

- A `when` block with neither `command` nor `files` is an error raised when the
  reaction is evaluated (`BadWhen`, squadron/service.py:165). It is not rejected
  when the reaction list is built. Reactions before it still run.
- If both `command` and `files` are present, `command` wins and `files` is
  ignored (squadron/service.py:155-161).
- If `command` is present but `exitcode` is not, the Python raises a `KeyError`
  before running the probe (squadron/service.py:157). This is modelled as the
  outcome `MissingExitCode`.
- The `uniqueItems` check on `execute` runs before qualification. So `["build",
  "svc.build"]` passes validation and becomes `["svc.build", "svc.build"]`
  (`Scenarios.QualificationMergesReferences`). The `done` set still runs that
  action only once (`Scenarios.RepeatedReferenceRunsOnce`).
- A catalog built from several services cannot have two services' keys collide,
  because local keys carry no dot (`Names.PrefixedInjective`). Merging per-service
  catalogs happens outside `service.py`.

The action document is a Python dict, and its iteration order is not the
document order. The model takes the document as a sequence of (key, action)
entries in the order the loop visits them. The first faulty entry in that order
decides the error. The key check comes before schema validation, as on lines
77-80. If a key repeats, the last entry wins.

## Model

| member | source | states |
|---|---|---|
| Names.Qualify | squadron/service.py:86-89 | the qualified reference always contains a dot; a reference that already has a dot comes back unchanged; a reference without a dot becomes service + "." + name; the original reference is a suffix of the result |
| Names.QualifyAll | squadron/service.py:84-91 | qualifying a list keeps its length and order, and entry i of the result is the qualification of input entry i |
| Names.QualifyIdempotent | squadron/service.py:114-117 | qualifying twice with the same service equals qualifying once |
| Names.QualifyAllIdempotent | squadron/service.py:111-119 | qualifying a whole execute list twice equals qualifying it once, and every entry of the result contains a dot |
| Names.PrefixedInjective | squadron/service.py:77-94 | two catalog keys built from dot-free local names are equal only if both the service names and the local names are equal, so services never share a key |
| Names.PrefixedInjectiveKey | squadron/service.py:94 | within one service, distinct local keys give distinct catalog keys |
| Loading.QualifyAction | squadron/service.py:82-91 | a stored action keeps its command; it has a not_after list exactly when the input has one, of the same length, with entry i qualified |
| Loading.GetServiceActions | squadron/service.py:75-96 | building succeeds iff no local key contains a dot and every entry conforms to the action schema; on failure the error is that of the first faulty entry in visiting order (NamingError with its key when the key has a dot, else SchemaError); on success the keys are exactly service.k for the input keys k, and the last entry with each key is stored with qualified not_after |
| Loading.QualifyReactions | squadron/service.py:111-121 | same number of reactions in the same order; each when block is untouched; each execute list is the element-wise qualification |
| Loading.GetReactions | squadron/service.py:107-121 | fails with SchemaError iff some reaction has an empty or repeating execute list; otherwise the list keeps its length and order, each when is untouched, and execute entry j of reaction i is the qualification of input entry j |
| Triggers.Filter | squadron/service.py:136 | the result holds only changed paths that match the pattern and every matching changed path; it is non-empty iff some changed path matches |
| Triggers.CheckFiles | squadron/service.py:124-139 | true iff there is a pattern and a changed path with matches(path, pattern) |
| Triggers.CheckFilesEmpty | squadron/service.py:135-139 | an empty pattern list or an empty changed-path list never fires |
| Triggers.CommandWins | squadron/service.py:155-161 | a when block with command, exitcode and files is a probe; the files are ignored |
| Triggers.Decide | squadron/service.py:153-165 | the pass aborts iff a when block has command without exitcode (MissingExitCode) or has neither command nor files (BadWhen); a reaction fires iff it has no when block, or its probe's exit code equals exitcode, or (no command and) some changed path matches some pattern |
| Engine.Execute | squadron/service.py:168-190 | running an action list only adds to the done set |
| Engine.ReactFrom | squadron/service.py:152-190 | considering a reaction list only adds to the done set |
| Engine.React | squadron/service.py:141-190 | after a pass, done is exactly the set of actions in the trace; no action appears twice in the trace; each action in the trace, when it ran, was in the catalog, was not done, had a not_after set disjoint from done, and exited 0; a reported failure carries a non-zero code that is its command's exit code, and belongs to an action in the catalog that is not in done; which firing reaction's action failed is stated by EngineProperties.ReactFromProvenance |
| Engine.ExecuteSound | squadron/service.py:168-190 | within one reaction: the final done is the starting done plus the trace; every traced action was allowed to run and succeeded; only listed actions run; an unknown action is reported with its name (missing from the catalog, listed in the reaction) and the reaction; a failed command belongs to a listed action that is in the catalog, was allowed to run and is not done; only Ok, UnknownAction or ActionFailed can result |
| Engine.ReactFromSound | squadron/service.py:151-190 | for a pass from any starting done: final done is the start plus the trace, every traced action was allowed to run and succeeded, and failures are reported with a non-zero code |
| EngineProperties.ExecuteAppend | squadron/service.py:168-190 | running xs + ys equals running xs and, only if that ended Ok, running ys from the resulting done |
| EngineProperties.ReactFromAppend | squadron/service.py:152-190 | considering rs1 + rs2 equals considering rs1 and, only if that ended Ok, rs2 from the resulting done: later reactions see the state the earlier ones left |
| EngineProperties.ExecuteFailFast | squadron/service.py:181-190 | once an action of a reaction fails or is unknown, the actions after it in the list change nothing |
| EngineProperties.ReactFailFast | squadron/service.py:184-190 | once a pass over rs1 fails, appending more reactions changes neither the trace, nor done, nor the outcome |
| EngineProperties.PassingReactionIgnored | squadron/service.py:153-163 | a reaction whose trigger does not fire can be removed from any position without changing the pass |
| EngineProperties.ExecuteComplete | squadron/service.py:168-180 | if a reaction's action list ends Ok, every listed action is in the catalog and either ran (is done) or is excluded by a done action |
| EngineProperties.ReactFromComplete | squadron/service.py:152-183 | if a pass ends Ok, no reaction aborted, and every action of every firing reaction is in the catalog and either done or excluded by a done action |
| EngineProperties.ReactFromProvenance | squadron/service.py:153-190 | every traced action is listed by some firing reaction; an UnknownAction outcome names an action missing from the catalog and a firing reaction of the list that names it; an ActionFailed outcome carries the command of an action listed by a firing reaction, allowed to run and not done; a BadWhen or MissingExitCode outcome is exactly what Decide returns for the when block of some reaction of the list |
| EngineProperties.ExclusionRespected | squadron/service.py:172-177 | no action in the trace ran after an action in its not_after set |
| EngineProperties.OrderSensitivity | squadron/service.py:151-183 | with a in b's not_after (and not the other way round), reactions [a] then [b] run only a, while [b] then [a] run b and then a |
| Scenarios.CatalogLoads | squadron/service.py:75-96 | the build/deploy/rollback document loads to the catalog with svc.-prefixed keys and deploy's not_after qualified to svc.rollback |
| Scenarios.DottedKeyRejected | squadron/service.py:77-79 | a local key a.b makes loading fail with NamingError("a.b") |
| Scenarios.ConfChangedRollsBack | squadron/service.py:151-190 | with app.conf changed, rollback runs, then build, and deploy is skipped |
| Scenarios.NoConfChangeDeploys | squadron/service.py:151-190 | with only readme.md changed, the rollback reaction does not fire, and build and deploy both run |
| Scenarios.MissingActionStops | squadron/service.py:187-190 | a reference to svc.missing ends the pass with UnknownAction before any command runs |
| Scenarios.QualificationMergesReferences | squadron/service.py:109-119 | an execute list that passes the uniqueness check can name one action twice after qualification |
| Scenarios.RepeatedReferenceRunsOnce | squadron/service.py:170 | an action named twice in a firing reaction runs once |

## Left out

- Reading the descriptors from disk (`get_service_json`, squadron/service.py:73 and 107). This is file I/O. The parsed documents are inputs, and the service version appears only in error messages, so it is dropped.
- `jsonschema.validate` (squadron/service.py:80 and 109). This is a foreign library. Types enforce field presence and field types. `ActionConforms` and `ReactionConforms` state the item-count and uniqueness constraints. Extra, unknown fields of a document are not modelled.
- `subprocess.call` and `subprocess.check_call` (squadron/service.py:158 and 182). These spawn processes. Both are replaced by the one deterministic exit-code oracle. The model does not cover failure to launch a command, the difference between the unsplit probe command and the `command.split()` argument list, or probe side effects (probes are not recorded in the trace).
- The exact `fnmatch` semantics (normcase, `*`, `[seq]`). This is a library, so `matches` is left uninterpreted.
- The `print` of a failing command (squadron/service.py:185). The failing command and its code are carried in `ActionFailed`. The reaction in `UnknownAction` stands in for the formatted message on line 189.
- In-place mutation of the input dicts (squadron/service.py:91, 119). Construction is modelled as pure functions that return new values.
- Absent versus empty `not_after`: the two are kept apart (`Option`), and `Exclusions` treats both as the empty set, as on lines 172-175.
