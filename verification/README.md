# Models of the yunka.io framework, proved in Dafny

This project models the parts of the framework in which a mistake would be hardest to see, and
proves properties of the models over every input, every run or every reachable state. Nothing in it
was executed; the Dafny verifier is the only judge. `dafny verify dfyconfig.toml` checks all of it.

## What is modelled

**Executing operations.** One call of the executor is a program of effects on a store, a unit of
work and the application (`WorkerProgram`), whose finished runs are told one by one (`CallHistory`). The executor, its coordinator, the root scope, the
request scope and the GORM unit are classes whose methods are proved to follow it (`Executor`,
`ExecutionScope`, `RequestScope`). Any number of such workers then interleave, effect by effect,
over a memory store (`MemoryRuns`) or over a durable store with leases, takeover, row locks and
transactions that the database may abort (`DurableRuns`). Workers may stop for good at any step.

**The route tree.** A compressed trie on the heap, with nodes that are split, merged and cut, stands
for a plain map under every history (`RadixShape`, `RadixNode`, `RadixLinks`, `RadixWalk`,
`RadixTree`, `RadixHistory`).

**The plan compiler.** Cycle searches, transitive closure, build order, permission closure, the
composition linter, the grant authorizer and the assembly compiler (`Graphs`, `CycleSearch`,
`Closure`, `AssemblyOrder`, `Permissions`, `Composition`,
`CompositionLaws`, `PlanSets`, `OperationPlans`, `Authorization`, `AssemblyPlan`,
`AssemblyValidation`, `AssemblyChecks`, `AssemblyCompile`, `AssemblyLaws`,
`AssemblyContents`, `AssemblyInputs`, `AssemblyInvariance`).
`ChildAuthority` joins the linter, the compiled plans, the authorizer and the runtime's joining of
children into one guarantee, and `ChildExample` shows where it ends.

**HTTP templates and dispatch.** The language of path templates, its two implementations, and
custom verbs that share one pattern (`PathTemplate`, `RouteGroup`, `Dispatch`, `DispatchHazards`,
`Registration`).

**Three further machines.** The platform provider under concurrent calls and the application that
owns it (`ProviderMachine`, `PlatformProvider`, `ApplicationLifecycle`); the bounded search for the
impact of a change (`Distance`, `Impact`); and the comparison of two contracts (`Compatibility`,
`Diff`, `Survival`, `UntypedPolicies`, `JoinedKeys`, `CompatibilityLaws`).

`Options`, `Keys`, `Text`, `Sorting`, `Strings` and `PlanFacts` hold what these share.

## Hypotheses

- Over the memory store, a unit whose Commit reports an error was not committed, and Close does not
  fail after a successful Commit. `MemoryRuns.OneCommitExactly` shows both to be needed, and
  `RequestScope.DriveGorm` proves the second of the GORM unit.
- Over the durable store, attempt ids are fresh. `DurableRuns.OneCommitExactly` shows this to be
  needed. A staged marker locks its row until its transaction ends.
- The application does not end the unit of work by itself. It can reach the unit, and
  `RequestScope.CommitAfterApplication` and `RequestScope.RollbackHidesEffect` show this to be needed: after a
  rollback of its own the root's commit is reported as done.
- Only the application callback and the construction of repositories panic.
- Names and paths are taken as already trimmed, except where the code trims them to check them (policy
  keys, boundary intents), looks something up by the trimmed name (the impact report), or rejects a
  path for not being trimmed.
- The graph that the impact search walks has passed its own validation.

## Where the code does not keep a promise on all inputs

Each of these is proved: that it happens, and the exact condition under which it does.

- After DeletePrefix a node without a value can be left behind, and Minimum or Maximum then report
  no key although the tree is not empty (`RadixTree.RouterHandleTree.Minimum`,
  `RadixTree.RouterHandleTree.Maximum`, `RadixHistory.BareNodeHidesMinimum`,
  `RadixHistory.BareNodeHidesMaximum`).
- A path variable named like one of the dispatcher's own stand-ins (`__yunka_http_1`) overwrites what
  a later variable, or a later route of the same pattern, reads
  (`DispatchHazards.OrderFreeExactly`, `Registration.CaptureExample`).
- Compatibility of contracts is not transitive: a compatible step can be followed by every other one
  exactly when no untyped policy is dropped, changes its operation behind an unchanged key, or moves to
  a key that another operation shares (`CompatibilityLaws.NotTransitive`,
  `CompatibilityLaws.TransitiveExactly`, `UntypedPolicies.AmbiguousExactly`).
- A changed HTTP binding can pass unnoticed exactly when some part of the old one, be it verb, path, body
  or response body, holds a bar (`JoinedKeys.SurvivesExactly`). A changed list of permissions can exactly
  when it had two names or more, or one that falls apart at a comma (`JoinedKeys.NamesKeyExactly`);
  between lists that pass the linter it cannot (`JoinedKeys.LintedKeyDecides`).
- A factory that answers nil, or an error, together with a shutdown leaves that resource open
  (`ProviderMachine.FailedPreparationExactly`, `ProviderMachine.NilWithShutdownIsLeftOpen`).
- An impact report asked for by an id with white space around it finds its target and lists nothing
  (`Impact.TrimmedExactly`, `Impact.BlankHidesNeighbour`).
- An impact report lists a node more than once exactly where several edges lead to it from where it was
  reached (`Impact.TwiceExactly`); no report of a graph does if and only if no two edges lead the same way
  between two names (`Impact.OnceWithoutParallel`, `Impact.TwiceWithParallel`).
- A wildcard node of the route tree answers without its prefix being compared, so that `Get` is a map
  lookup exactly where none is met (`RadixTree.RouterHandleTree.Get`,
  `RadixHistory.WildcardAnswersForOthers`).
- A path variable whose name is used again in the same path is lost: handlers read all their texts
  exactly when no route uses a name twice (`DispatchHazards.RepeatedNameMisreads`,
  `DispatchHazards.ReadsAllExactly`).
- A child operation runs without a permission of its own exactly where the plan of its root demands any
  of several (`ChildAuthority.DescendantGrantedExactly`, `ChildExample.AnyModeLeadsFurther`), and without
  the tenant or the authentication it demands exactly where its root's plan does not cover them
  (`Authorization.CoversExactly`): neither the linter nor the joining of a child compares these.
- With a memory store and a unit that reports a commit as failed although it happened, one key can be
  committed twice (`MemoryRuns.OneCommitExactly`).

## Model

| member | source | states |
|---|---|---|
| Idempotency.MemoryStore.Claim | framework/execution/idempotency.go:214-236 | grants exactly when the key is free or its record failed, and then the record is the attempt's, running; answers in progress or completed otherwise; no other key moves |
| Idempotency.MemoryStore.Mark | framework/execution/idempotency.go:238-257 | moves the record only for the attempt that holds it while it runs; any other attempt is refused and changes nothing |
| Idempotency.SucceededIsFinal | framework/execution/idempotency.go:214-257 | no claim and no mark changes a succeeded record, and no claim on it is granted |
| Idempotency.StaleAttemptIsFenced | framework/execution/idempotency.go:238-257 | a mark by an attempt that has lost the record is refused and leaves it alone |
| Idempotency.MarkDecides | framework/execution/idempotency.go:214-257 | a claim that was marked failed can be claimed again by any attempt, one marked succeeded by none, and a running one by none |
| WorkerProgram.LogShape | framework/operation/executor.go:147-253 | over every sequence of answers the outside can give: at most one successful commit, at most one begin, at most one mark, and an acquired unit is closed once and held until then |
| WorkerProgram.NoRollbackAfterCommit | framework/operation/executor.go:218-253 | no rollback is asked after a successful commit |
| WorkerProgram.FinishedCallClosesOnce | framework/operation/executor.go:147-253 | a call that has ended closed the unit it opened exactly once, and reports success only after a commit |
| CallHistory.StoryExactly | framework/operation/executor.go:147-253 | the finished runs of the program are exactly seven stories, told as lists of effects for every plan, with or without a transaction; each ends as its story says |
| CallHistory.FinishedIsLawful | framework/operation/executor.go:178-253 | of every finished call, whatever the outside answered: there is no error if and only if every answer was good; commit, staged marker and mark of success stand behind an application that returned well; the application runs once; a failed one is followed at once by rollback and close; a granted claim ends in one success without an error, and in a failed mark, or a mark of success that did not go through, with one |
| CallHistory.FinishedFollowsPlan | framework/operation/executor.go:147-253 | a claim comes first exactly under idempotency, nothing of a unit occurs without a transaction; a refused claim is all there is, and after a refused begin no application runs; without an error the log is the one its plan asks for, effect by effect |
| MemoryRuns.AtMostOneCommit | framework/operation/executor.go:147-253 | in every interleaving of any number of workers over one memory store, with workers stopping at any step, two workers never both commit on one key |
| MemoryRuns.NoClaimAfterCommit | framework/execution/idempotency.go:214-236 | once some worker has committed, no claim on its key is granted in any reachable state |
| MemoryRuns.CommitsLast | framework/operation/executor.go:147-253 | commits are never taken back as a run goes on, so the previous row holds for the rest of the run |
| MemoryRuns.OneCommitExactly | framework/requestscope/gorm.go:67-112 | exactly when the memory store keeps one commit per key: a failed Commit means not committed and Close does not fail after a commit, or no two workers share a key; otherwise a run with two commits is built |
| DurableRuns.EffectIffMarker | framework/operation/executor.go:218-276 | with a staged marker, in every run with lease expiry, takeover, lost answers, aborted transactions and stopped workers: a unit is committed on a key if and only if its row says succeeded |
| DurableRuns.AtMostOneCommit | framework/execution/idempotencygorm/store.go:71-128 | at most one worker commits per key in every such run |
| DurableRuns.NothingAfterCommit | framework/execution/idempotencygorm/store.go:71-160 | after a commit no step of any worker moves the row or grants a claim on it |
| DurableRuns.OneCommitExactly | framework/execution/idempotencygorm/store.go:71-160 | exactly when the durable store keeps one commit per key: no two workers share both key and attempt id |
| ExecutionScope.Root.Commit | framework/execution/scope.go:190-209 | ends the unit once: commit and close, or failed commit, rollback and close; a second call asks nothing |
| ExecutionScope.Root.Rollback | framework/execution/scope.go:211-225 | rolls back and closes once; a second call asks nothing |
| ExecutionScope.Drive | framework/execution/scope.go:190-225 | under every sequence of Commit and Rollback calls the unit is ended exactly once, in one of the ways above |
| ExecutionScope.JoinExactly | framework/execution/scope.go:160-188 | a child joins if and only if it is declared by its parent and its mode is valid and no stronger than the root mode, spelled out for the texts of the modes; each refusal has its cause; it shares the root, is one deeper and may join what it requires |
| Executor.Coordinator.Begin | framework/execution/idempotency.go:107-133 | without a key or an attempt id the store is not asked, and the two are told apart; otherwise one claim decides |
| Executor.Coordinator.CompleteInTransaction | framework/execution/idempotency.go:151-164 | stages the marker of the claim in the business transaction; fails without asking the store unless there is a transactional store and a handle |
| Executor.Executor.BeginRoot | framework/operation/executor.go:166-176 | opens a unit exactly for plans with a transaction, or fails with nothing opened |
| Executor.Executor.StageAtomicIdempotency | framework/operation/executor.go:256-276 | stages the marker only for atomic plans, and reports failure otherwise |
| Executor.Executor.AfterPanic | framework/operation/executor.go:178-190 | a panic of the application rolls back, marks the claim failed, reports one failed outcome and unwinds |
| Executor.Executor.AfterError | framework/operation/executor.go:193-215 | an application error rolls back, marks the claim failed, reports one failed outcome and is among the errors returned |
| Executor.Executor.AfterSuccess | framework/operation/executor.go:218-253 | staging, commit and completion with every failure exit; ends as the result says |
| Executor.Executor.Execute | framework/operation/executor.go:100-254 | for every plan and every answer of the outside: one outcome event, last, that is of the result; no error if and only if something was asked and every answer was good, and then the application returned well and the effects are those the texts of the plan ask for; an error of the application is returned and a panic passed on; nothing is kept without a well returned application, a failed one is followed by rollback and close, a unit is closed once, a granted claim is ended as the result says, also without a transaction; nothing is asked before security passed |
| Executor.Executor.ExecuteChild | framework/operation/executor.go:340-370 | joins the root of its parent or refuses; succeeds exactly when it joined and the application did |
| RequestScope.GormUnitOfWork.Commit | framework/requestscope/gorm.go:67-82 | commits the transaction at most once; an error leaves the unit unfinished |
| RequestScope.GormUnitOfWork.Close | framework/requestscope/gorm.go:99-112 | rolls back an unfinished unit; reports no error after a commit |
| RequestScope.DriveGorm | framework/requestscope/gorm.go:67-112 | under every sequence of calls: at most one successful commit, nothing asked after it, and every later call, Close among them, reports no error, which discharges the Close hypothesis above |
| RequestScope.CommitAfterApplication | framework/requestscope/gorm.go:67-112 | when the application has called the unit before, the commit of the root is reported as done exactly when the transaction was committed or was rolled back without an error; with commits only it is reported exactly when done |
| RequestScope.RollbackHidesEffect | framework/requestscope/gorm.go:83-96 | one rollback by the application, and the later commit is reported as done although nothing was committed |
| RequestScope.ScopeLogShape | framework/requestscope/scope.go:212-285 | whatever state a scope is in, its unit saw at most one good commit, no rollback after it, and one close at most, last |
| RequestScope.Scope.Commit | framework/requestscope/scope.go:212-236 | commits once; repeats its first answer; refused after a rollback; reports success exactly when a commit succeeded |
| RequestScope.Scope.Rollback | framework/requestscope/scope.go:238-262 | rolls back once; refused after a commit; reports success exactly when a rollback succeeded |
| RequestScope.Scope.Close | framework/requestscope/scope.go:264-285 | rolls back what is unfinished and closes once; reports success exactly when these calls succeeded; repeats its first answer |
| RequestScope.NewScope | framework/requestscope/scope.go:72-160 | a scope is handed out only when its repositories were built; otherwise the unit is rolled back and closed |
| RequestScope.Execute | framework/requestscope/execute.go:11-65 | whatever the callback did with the scope, also on a panic, the unit ends closed exactly once; the call ends well if and only if repositories and callback did and commit and close succeeded |
| RadixNode.Node.Search | framework/core/radix_handler.go:62-66 | the place of a label among sorted edges |
| RadixNode.Node.GetEdge | framework/core/radix_handler.go:74-83 | the child behind a label, if there is one |
| RadixNode.Node.AddEdge | framework/core/radix_handler.go:57-60 | inserts an edge so that the edges stay sorted |
| RadixNode.Node.UpdateEdge | framework/core/radix_handler.go:62-72 | replaces the child behind a label that is there; the panic for a missing label is unreachable from the tree operations |
| RadixNode.Node.DelEdge | framework/core/radix_handler.go:85-95 | removes the edge of a label and no other |
| RadixTree.LongestCommonPrefix | framework/core/radix_handler.go:149-163 | the longest common prefix of two keys, by its defining property |
| RadixTree.RouterHandleTree.Insert | framework/core/radix_handler.go:165-266 | the tree stands for the old map with the key set; old value and flag are those of the map; a compressed tree stays compressed; a key hung where no edge leads towards it gets a node of its own, a wildcard node exactly when it holds a mark, and otherwise none arises; it knows the place of the mark and hands out the text behind it as the name of the parameter |
| RadixTree.RouterHandleTree.Delete | framework/core/radix_handler.go:270-325 | the tree stands for the old map without the key; value and flag are those of the map; a compressed tree stays compressed |
| RadixTree.RouterHandleTree.DeletePrefix | framework/core/radix_handler.go:330-374 | removes exactly the keys under the prefix and counts them; the tree stays compressed exactly when nothing was removed or everything was asked for |
| RadixTree.RouterHandleTree.Get | framework/core/radix_handler.go:386-422 | the answer of a map lookup if and only if no wildcard node is met on the way; otherwise the value of the first one met, with the rest of the key from its mark on, or a failing access |
| RadixTree.RouterHandleTree.LongestPrefix | framework/core/radix_handler.go:425-457 | the longest stored key that the argument starts with, or none when there is none |
| RadixTree.RouterHandleTree.Minimum | framework/core/radix_handler.go:460-473 | the least stored key; missed if and only if a bare node comes before every stored key, and never on a compressed tree |
| RadixTree.RouterHandleTree.Maximum | framework/core/radix_handler.go:476-489 | the greatest stored key; missed if and only if a bare node comes after every stored key, and never on a compressed tree |
| RadixTree.RouterHandleTree.RecursiveWalk | framework/core/radix_handler.go:563-576 | visits exactly the keys under a node, in strictly increasing byte order, stopping exactly when the callback says so |
| RadixTree.RouterHandleTree.Walk | framework/core/radix_handler.go:492-494 | visits all stored keys in strictly increasing byte order, up to where the callback stops it |
| RadixTree.RouterHandleTree.WalkPrefix | framework/core/radix_handler.go:497-528 | visits exactly the keys under a prefix |
| RadixTree.RouterHandleTree.WalkPath | framework/core/radix_handler.go:532-560 | visits exactly the stored prefixes of a path, shortest first |
| RadixTree.RouterHandleTree.ToMap | framework/core/radix_handler.go:579-586 | the map the tree stands for |
| RadixTree.RouterHandleTree.Len | framework/core/radix_handler.go:141-143 | the number of stored keys |
| RadixWalk.WalkDetermined | framework/core/radix_handler.go:563-576 | two walks over the same keys with one callback show the same entries and end alike, whether stopped or not |
| RadixWalk.FinishedDetermined | framework/core/radix_handler.go:563-576 | walks over the same keys that were not stopped show the same entries, whatever their callbacks |
| RadixHistory.Replay | framework/core/radix_handler.go:165-374 | for every history of Insert, Delete and DeletePrefix: contents, size, every returned value, flag and count are those of a plain map under the same history |
| RadixHistory.NewFromMap | framework/core/radix_handler.go:132-138 | building from a map in any order gives that map |
| RadixHistory.BareNodeHidesMinimum | framework/core/radix_handler.go:337-374 | a concrete history after which Minimum reports no key although one is stored |
| RadixHistory.BareNodeHidesMaximum | framework/core/radix_handler.go:476-489 | a history of three operations after which Maximum finds nothing in a tree that is not empty |
| RadixHistory.WildcardAnswersForOthers | framework/core/radix_handler.go:386-422 | a single key with a mark answers for every key that begins as it does and reaches to the mark, stored or not; the parameter is the rest of that key, under the name behind the mark |
| CycleSearch.Search.Visit | pkg/assemblyplan/plan.go:654-680 | the coloured visit: finishes a name and all it reaches in dependency-first order, or returns a closed edge path |
| CycleSearch.FirstCycle | pkg/assemblyplan/plan.go:643-687 | reports nothing if and only if the graph is acyclic; what it reports is a closed edge path |
| CycleSearch.Search.VisitAll | pkg/contract/lint.go:489-513 | the visit that goes on after a cycle; every noted cycle is a closed edge path, noted once |
| CycleSearch.DependencyCycles | pkg/contract/lint.go:483-527 | reports nothing if and only if the graph is acyclic; every reported cycle is a closed edge path, none twice |
| Graphs.NoCycleInOrder | pkg/assemblyplan/plan.go:643-687 | a dependency-first order holds no name of a cycle |
| Graphs.CycleByPigeonhole | pkg/contract/assembly_codegen.go:154-160 | where every name of a finite set needs another of them, there is a cycle |
| Closure.Explorer.Visit | pkg/assemblyplan/plan.go:613-624 | visits only what the start reaches, and expands all it visits |
| Closure.Reached | pkg/assemblyplan/plan.go:612-624 | exactly the names reached from the start along one or more edges |
| Closure.DependencyClosure | pkg/assemblyplan/plan.go:599-641 | lists, once each and sorted, exactly the pairs of different names of which the first reaches the second, with derived evidence |
| Closure.ClosureCanonical | pkg/assemblyplan/plan.go:599-641 | two such lists, sorted, are the same list |
| Closure.ClosureIsCurrent | pkg/assemblyplan/plan.go:343-346 | accepts a stored closure if and only if it is the true transitive closure |
| AssemblyOrder.InsertAssemblyString | pkg/contract/assembly_codegen.go:163-169 | growing and shifting insert where a binary search ends: the sorted insertion |
| AssemblyOrder.PendingDrops | pkg/contract/assembly_codegen.go:147-153 | taking a name releases each dependent once per edge |
| AssemblyOrder.Take | pkg/contract/assembly_codegen.go:144-153 | one turn keeps the counters, the sorted ready list and the least-ready order |
| AssemblyOrder.AssemblyApplicationOrder | pkg/contract/assembly_codegen.go:125-161 | succeeds if and only if the graph is acyclic; then it is a permutation, dependency-first, taking the least ready name at each step |
| AssemblyOrder.GreedyUnique | pkg/contract/assembly_codegen.go:144-153 | there is only one such order |
| AssemblyOrder.ValidatedOrder | pkg/assemblyplan/plan.go:643-687 | the ordering fails exactly when the validator finds a cycle on the same edges, and that cycle is a closed path of them |
| AssemblyOrder.BuildApplications | pkg/contract/assembly_codegen.go:283-302 | the generated statements are those of the specification, application by application |
| AssemblyOrder.ReadsOnlyBuilt | pkg/contract/assembly_codegen.go:283-302 | in generated code an application variable is read only after it has been set |
| AssemblyOrder.BuiltOnce | pkg/contract/assembly_codegen.go:283-302 | in generated code no application variable is set twice |
| AssemblyOrder.RenderApplications | pkg/contract/assembly_codegen.go:46-53 | there is code exactly when the dependencies have no cycle; it builds every application once and nothing else, each from its sorted dependencies, read after they were built |
| Permissions.AvoidFirst | pkg/contract/lint.go:529-550 | what is reached while avoiding the active operations is a requirement, or is reached from one while avoiding the start too: undoing the active set loses nothing |
| Permissions.Collector.Collect | pkg/contract/operation_plan.go:161-182 | adds exactly the permissions of known operations reached while avoiding the active set, restores the active set, and terminates on every graph |
| Permissions.CollectRequiredPermissions | pkg/contract/lint.go:529-550 | from scratch, exactly the permissions of the known operations reached along one or more edges, cyclic graphs included |
| Composition.IndexServices | pkg/contract/lint.go:371-399 | the index of applications and operations; nothing is reported exactly when all keys differ and all operations can be read |
| Composition.IndexedOperations | pkg/contract/lint.go:371-399 | the index knows exactly the named operations of typed services, each with a service that declares it |
| CompositionLaws.IndexedApplications | pkg/contract/lint.go:371-399 | an application is known under a text if and only if a typed service has that text for domain, slash and application name; what is found there is such a service |
| CompositionLaws.IndexableExactly | pkg/contract/lint.go:371-399 | the index is built without a diagnostic if and only if all typed services can be read and no two of different names have the same domain, slash and application name |
| CompositionLaws.LastApplication | pkg/contract/lint.go:371-399 | of the services that declare an application the last one counts |
| CompositionLaws.IndexedOwner | pkg/contract/lint.go:386-397 | an operation is known if and only if a typed, readable service declares it; its application is the text of one that does |
| CompositionLaws.LastOperation | pkg/contract/lint.go:386-397 | of the declarations of an operation the last one counts, under the text of its service |
| Composition.LintOperation | pkg/contract/lint.go:425-448 | nothing is reported exactly when composition, requirements and declared applications are proper |
| Composition.LintApplication | pkg/contract/lint.go:402-449 | nothing is reported exactly when all dependencies are well-formed, known and not the application itself, and its operations are proper |
| CompositionLaws.WellformedExactly | pkg/contract/lint.go:478-481 | a dependency is well-formed if and only if, white space aside, it reads as two plain names around one slash |
| CompositionLaws.DependencyPasses | pkg/contract/lint.go:405-423 | a plain domain, slash and name, other than the own key, passes if and only if some service has that domain and that application |
| CompositionLaws.CleanRequirement | pkg/contract/lint.go:425-448 | in a contract that passes, what an operation requires is another operation of a service, of the same application or of one that is declared |
| CompositionLaws.ApplicationEdges | pkg/contract/lint.go:402-423 | the application graph has for edges exactly the declared dependencies that pass |
| CompositionLaws.OperationEdges | pkg/contract/lint.go:450-456 | the graph of operations has for edges exactly what known operations require |
| Composition.LintPermissions | pkg/contract/lint.go:461-475 | reports exactly the operations whose closure exceeds what they declare, with exactly the missing permissions |
| Composition.LintComposition | pkg/contract/lint.go:371-476 | no diagnostic if and only if the composition is clean: unique keys, proper applications, both graphs acyclic, closures declared |
| OperationPlans.DeclareApplications | pkg/contract/operation_plan.go:22-35 | accepts exactly services that are well placed and whose application keys differ |
| OperationPlans.PlacedExactly | pkg/contract/operation_plan.go:22-35 | no refusal if and only if services without an application have no operations, the others have domain, name and readable operations, and no two of different names share domain, slash and name |
| OperationPlans.DeclaredExactly | pkg/contract/operation_plan.go:22-35 | an application is declared under a text if and only if a service has it for domain, slash and name |
| OperationPlans.CheckNeeds | pkg/contract/operation_plan.go:36-50 | accepts exactly when every dependency is well-formed, known and not the application itself |
| OperationPlans.NeedExactly | pkg/contract/operation_plan.go:36-50 | a dependency passes if and only if it is well-formed, not the own key, and the domain, slash and name of a service |
| OperationPlans.NeedEdges | pkg/contract/operation_plan.go:36-53 | the graph searched for cycles has for edges exactly the dependencies that applications declare |
| OperationPlans.CollectOwners | pkg/contract/operation_plan.go:55-117 | accepts exactly when all operation ids are given and differ, and indexes the operations by id |
| OperationPlans.CheckRequirements | pkg/contract/operation_plan.go:119-134 | accepts exactly when every requirement is known and belongs to the same or a declared application |
| OperationPlans.RequirementExactly | pkg/contract/operation_plan.go:119-134 | a requirement passes if and only if a service has that operation, and its domain, slash and application name are those of the requiring operation or are declared by its application |
| OperationPlans.PlanAll | pkg/contract/operation_plan.go:136-153 | one plan per operation, by id, each with exactly the permissions of what it reaches, sorted, each once |
| OperationPlans.PlansOfServices | pkg/contract/operation_plan.go:55-153 | there is a plan for every operation of every service with an application, with domain, application and declared dependencies of that service, and for nothing else |
| OperationPlans.ValidateBoundaryIntent | pkg/contract/boundary_intent.go:10-30 | accepts exactly a valid context with either a valid aggregate or a reason that is text, white space around them left aside |
| PlanSets.CheckClosure | pkg/operationplan/plan.go:185-207 | a plan passes exactly when it declares its whole closure and carries the closure that is found again |
| PlanSets.ExecutionExactly | pkg/operationplan/plan.go:80-164 | without idempotency every known transaction passes, with it only a local one, absent ones counting as none |
| PlanSets.ValidateSet | pkg/operationplan/plan.go:125-209 | a set of plans passes exactly when all fields are proper, ids differ, requirements are known and not circular, and each plan declares and carries its closure; a reported cycle is one |
| OperationPlans.PlannedClosureCurrent | pkg/contract/operation_plan.go:141-151 | a compiled closure is never stale |
| OperationPlans.FinishedExactly | pkg/contract/operation_plan.go:154-157 | the finished plans pass the validation exactly when fields are proper, no operations require each other in a circle, and every closure is declared |
| OperationPlans.CompileOperationPlans | pkg/contract/operation_plan.go:16-159 | there are plans if and only if the boundary intents are in order, the contract is plannable, and the finished set is valid; one plan per operation, by id, each with its exact closure |
| OperationPlans.LintedFinishes | pkg/contract/lint.go:457-475 | a plannable contract that passes the linter compiles if the fields of its operations are proper |
| OperationPlans.SameOperations | pkg/contract/operation_plan.go:55-117 | in a contract with plans, the index of the linter and the plans hold the same operations |
| Authorization.Deduplicate | gateway/authz/types.go:128-146 | drops blanks and repetitions and sorts |
| Authorization.PolicyFromOperationPlan | gateway/authz/execution_phase.go:39-57 | each permission of the plan once; any mode but "any", in whatever case, demands all |
| Authorization.SaysAnyExactly | gateway/authz/execution_phase.go:46-48 | the mode is "any" exactly when its lower case is |
| Authorization.Weigh | gateway/authz/operation_runtime.go:153-183 | counting present permissions decides as the mode demands, because no permission is counted twice; the grants kept are those asked for, sorted |
| Authorization.GrantsExactly | gateway/authz/operation_runtime.go:153-183 | an allowed decision carries exactly the resolved grants for permissions of its policy, by permission, role and scope |
| Authorization.Authorize | gateway/authz/operation_runtime.go:106-190 | allowed, reason and grants for every principal, policy and resolver answer, in the order of the checks |
| Authorization.AllowedMeansGranted | gateway/authz/operation_runtime.go:153-183 | under mode "all" an allowed decision carries a grant for every permission of the plan |
| Authorization.GrantedExactly | gateway/authz/operation_runtime.go:153-183 | being allowed always carries a permission of the plan if and only if the plan demands all or names no other |
| Authorization.CoversExactly | gateway/authz/operation_runtime.go:106-150 | whoever is allowed under one plan meets the tenant and authentication demands of another if and only if the first demands a tenant where the second does, and the methods of the first are among those of the second |
| ChildAuthority.ChainIsWalk | framework/execution/scope.go:160-188 | a chain of joins follows declared requirements, shares one root, and depth counts the joins |
| ChildAuthority.EveryDescendantIsGranted | pkg/contract/lint.go:457-475 | if the linter reports nothing and an authorized root demands all, every permission of every operation joined at any depth is among the grants of the root |
| ChildAuthority.DescendantGrantedExactly | pkg/contract/lint.go:457-475 | a permission of a joined operation is always among the grants of an allowed root if and only if the root demands all or names no other |
| ChildExample.AnyModeLeadsFurther | gateway/authz/operation_runtime.go:153-183 | a contract that passes the linter, a root in mode any, and a child that needs a permission the root was not granted |
| ChildAuthority.EveryPlannedDescendantIsGranted | pkg/operationplan/plan.go:185-201 | the same of compiled plans, without the linter: a root allowed under its plan holds every permission of the plan of each operation that joins lead to |
| ChildAuthority.ClosureIsGranted | pkg/operationplan/plan.go:185-201 | a root allowed under its plan holds every permission of the closure its plan carries |
| ChildAuthority.ChildNeverStronger | framework/execution/scope.go:160-188 | no joined child at any depth has a mode stronger than the root |
| ChildAuthority.DepthIsBounded | framework/execution/scope.go:160-188 | on acyclic plans depth stays below the number of operations |
| ChildAuthority.PlannedDepthIsBounded | pkg/operationplan/plan.go:182-184 | compiled plans are acyclic, so that children never nest deeper than there are operations |
| Distance.DistanceBack | pkg/applicationgraph/query.go:76-125 | a shortest distance is the same seen from either end over opposite graphs |
| Impact.NearVisited | pkg/applicationgraph/query.go:86-117 | when the queue holds nothing nearer than k, everything up to distance k was visited |
| Impact.FirstMet | pkg/applicationgraph/query.go:93-107 | a name first met while expanding distance k is at distance k + 1 |
| Impact.Candidates | pkg/applicationgraph/query.go:93-109 | exactly the unvisited neighbours, one state per edge, by name |
| Impact.Walk | pkg/applicationgraph/query.go:76-125 | terminates; reports, sorted, exactly the nodes at shortest distance 1 to the bound, each over a real edge from a node one step nearer |
| Impact.Impact | pkg/applicationgraph/query.go:61-74 | the target by the trimmed id and both searches from the id as given, with bound 3 for a bound of zero or less; not found otherwise |
| Impact.ListedExactly | pkg/applicationgraph/query.go:76-125 | a node is listed at a depth if and only if that is its shortest distance within the bound |
| Impact.BoundExactly | pkg/applicationgraph/query.go:61-74 | a bound of zero or less lists exactly the distances one to three, and any other bound is used as it is |
| Impact.NeighboursExactly | pkg/applicationgraph/query.go:61-117 | at depth one stand exactly the names an edge leads to from the target, and those an edge leads from to the target |
| Impact.ReportOrder | pkg/applicationgraph/query.go:118-123 | nearer nodes come first, and nodes at one distance by id |
| Impact.TwiceExactly | pkg/applicationgraph/query.go:95-117 | a node is listed more than once exactly when several edges lead to it from where it was reached |
| Impact.OnceWithoutParallel | pkg/applicationgraph/query.go:61-125 | in a graph without two edges that lead the same way between two names, no report lists a node twice |
| Impact.TwiceWithParallel | pkg/applicationgraph/query.go:61-125 | in every other graph the report for the name two such edges lead from lists the other one twice |
| Impact.DependenciesMirrorDependents | pkg/applicationgraph/query.go:61-125 | x is a dependency of y at depth d exactly when y is a dependent of x at depth d |
| Impact.TrimmedExactly | pkg/applicationgraph/query.go:24-74 | a found target is reported rightly if and only if the id was trimmed or the target has no neighbours; otherwise both lists are empty |
| Impact.BlankHidesNeighbour | pkg/applicationgraph/query.go:24-74 | a graph, and an id with one blank, for which the target is found and its dependency is not listed |
| PathTemplate.SplitCustomVerb | gateway/httpbinding/register.go:238-276 | the one way to cut a verb off a path whose other colons are all in matched braces, or that there is none; the contract compiler runs the same scan |
| PathTemplate.SplitsUnique | pkg/contract/http_binding_validation.go:43-81 | a path can be cut in one way at most |
| PathTemplate.SegmentParity | pkg/contract/http_binding_validation.go:24-39 | the two checks of a segment accept the same segments |
| PathTemplate.SegmentRoundTrip | gateway/httpbinding/register.go:220-234 | a printed segment reads back as itself |
| PathTemplate.ReadBack | gateway/httpbinding/register.go:201-236 | a printed template splits where it was joined, and each part reads as its segment |
| PathTemplate.PrintInjective | gateway/httpbinding/register.go:201-236 | a path is printed by one template at most |
| PathTemplate.ParseTemplate | gateway/httpbinding/register.go:201-236 | accepts exactly the paths that some template prints as, and returns that template |
| PathTemplate.SimplePathFields | pkg/contract/application_codegen.go:565-585 | the loop that takes the braced names off a path computes the specification |
| PathTemplate.FieldsAreVariables | pkg/contract/application_codegen.go:565-585 | on a printed template it finds the variables of the template, in order |
| PathTemplate.ValidateBindingPath | pkg/contract/http_binding_validation.go:8-41 | accepts exactly the paths that some template prints as |
| PathTemplate.BothAgree | pkg/contract/http_binding_validation.go:8-81 | both implementations give one verdict on every path, and the fields are the variables in order |
| RouteGroup.SyntheticInjective | gateway/httpbinding/register.go:173-179 | different places get different stand-in names |
| RouteGroup.BindingsOfVariables | gateway/httpbinding/register.go:168-190 | one binding per variable, in order; the verb is stripped from the last one exactly when it ends the path |
| RouteGroup.RenamedAt | gateway/httpbinding/register.go:168-199 | in the shape of a template a variable gets the number of the variables in front of it as its name, and every other segment stays |
| RouteGroup.SameShape | gateway/httpbinding/register.go:168-199 | templates behind one pattern have as many variables, end alike, and share the verb unless a variable ends the path |
| RouteGroup.ServeMuxPattern | gateway/httpbinding/register.go:168-199 | pattern text, bindings and whether the pattern is shared, for every template |
| Dispatch.Request.Apply | gateway/httpbinding/register.go:150-166 | binds variables in turn on the request, each reading it as the ones before left it; stops at a verb that does not fit |
| Dispatch.AtMostOneVerb | gateway/httpbinding/register.go:150-166 | no text fits two routes with different verbs |
| Dispatch.WinnerUnique | gateway/httpbinding/register.go:137-148 | at most one route of a group is the right one for a text |
| Dispatch.ServesFaithfully | gateway/httpbinding/register.go:137-166 | without captured stand-ins the right route serves, with the texts of its own places, whatever the order of registration |
| DispatchHazards.CapturedIsWrong | gateway/httpbinding/register.go:150-166 | a route with a variable named like a later stand-in never binds its own texts |
| DispatchHazards.OrderFreeExactly | gateway/httpbinding/register.go:122-199 | every request is served rightly in every order of registration if and only if no variable is named like the stand-in of another: of a later one, or, in a group with other routes and for a route with a verb, of any |
| DispatchHazards.HandlerReadsOwn | gateway/httpbinding/register.go:137-166 | without captured stand-ins the right handler reads, under each variable name, the text in the place of the last variable of that name |
| DispatchHazards.RepeatedNameMisreads | gateway/httpbinding/register.go:150-166 | for every route that uses a name twice there is a request that it serves and whose earlier text its handler does not read |
| DispatchHazards.ReadsAllExactly | gateway/httpbinding/register.go:137-166 | without captured stand-ins every handler reads all its texts on every request if and only if no route uses a name twice |
| DispatchHazards.AllReadRightlyExactly | gateway/httpbinding/register.go:122-199 | in every order of registration every request reaches the right handler, which reads all its texts, if and only if no name is a captured stand-in and no route uses a name twice |
| DispatchHazards.OrderDoesNotMatter | gateway/httpbinding/register.go:122-199 | then two orders of registration give each request the same handler, the same bound texts, and the same values under its variable names |
| Registration.Group.Add | gateway/httpbinding/register.go:122-135 | refuses a verb the group has; otherwise adds the route and sorts verbs first |
| Registration.Group.ServeHTTP | gateway/httpbinding/register.go:137-148 | tries the routes in turn on the request and serves with the first that applies |
| Registration.GroupUniform | gateway/httpbinding/register.go:55-135 | every group that registration builds has routes of one shape with different verbs |
| Registration.RegisteredOrderFree | gateway/httpbinding/register.go:55-199 | so both exact conditions hold for every registered group |
| Registration.CaptureExample | gateway/httpbinding/register.go:150-166 | a concrete path whose second variable is given the text of the first |
| Registration.Registry.Register | gateway/httpbinding/register.go:55-111 | rejects exactly ungrammatical paths, then exactly bad methods, then exactly a verb its pattern has already, then exactly a new pattern the multiplexer refuses; an accepted shared pattern gains its route and no other pattern changes; a refused binding changes nothing |
| ProviderMachine.StepKeeps | framework/platform/provider.go:159-420 | every critical section and every call of a resource, by any thread, keeps the invariant |
| ProviderMachine.EachAtMostOnce | framework/platform/provider.go:159-420 | in every interleaving of Prepare, Start and Shutdown calls, each resource is started at most once, shut down at most once, and never started afterwards |
| ProviderMachine.NothingLeftOpen | framework/platform/provider.go:159-420 | once the provider has stopped, and at once after a failed Prepare, everything taken over that can be shut down was shut down exactly once |
| ProviderMachine.GivenBackExactly | framework/platform/provider.go:181-259 | everything the factories handed out that can be shut down was shut down once if and only if no refused answer (nil, or beside an error) carried a shutdown |
| ProviderMachine.FailedPreparationExactly | framework/platform/provider.go:181-259 | the same of one failed Prepare: it gives everything back exactly unless it ended at a factory that answered nil, or an error, together with a shutdown |
| ProviderMachine.NilWithShutdownIsLeftOpen | framework/platform/provider.go:192-199 | one such answer, and the resource is still open after the provider has stopped |
| PlatformProvider.Provider.Prepare | framework/platform/provider.go:159-259 | prepares once, exactly when everything is configured and every factory and the delegates answer well, and holds one resource per requirement, sorted by name; the same requirements again are accepted and others refused; a failure leaves the provider as new |
| PlatformProvider.Provider.Settle | framework/platform/provider.go:181-259 | the calls of a Prepare: openings in order, the refused answer if any, and on failure shutdowns from the last resource to the first |
| PlatformProvider.Provider.Start | framework/platform/provider.go:285-331 | started exactly when every resource with a start answered well, and then each was called once, from the first to the last; otherwise it ends at the first that did not, closes all from the last to the first, and the provider has stopped |
| PlatformProvider.Provider.Shutdown | framework/platform/provider.go:360-389 | stops once, closing from the last resource to the first, without an error exactly when all of them answered well; afterwards the answer is repeated and nothing is called |
| PlatformProvider.Provider.CloseAll | framework/platform/provider.go:408-420 | shuts down every resource that can be, from the last to the first and once each, whatever fails; reported as good exactly when every call answered well |
| PlatformProvider.Provider.Guarantees | framework/platform/provider.go:159-420 | the guarantees of the interleavings hold of the provider after any calls |
| ApplicationLifecycle.App.ShutdownComposition | framework/core/application_lifecycle.go:85-101 | modules last to first, then the provider, then the event bus, whatever fails; no error exactly when all of them answered well |
| ApplicationLifecycle.App.Start | framework/core/application_lifecycle.go:15-63 | provider, modules, components in order; it succeeds if and only if all of them start; otherwise it ends at the first that does not, with the exact calls that undo what came before, and the provider has stopped |
| ApplicationLifecycle.App.Shutdown | framework/core/application_lifecycle.go:65-83 | the exact calls of a shutdown, without an error exactly when all of them answered well; a stopped provider is not called into again |
| ApplicationLifecycle.FailThenShutdown | framework/core/application_lifecycle.go:15-101 | a failed start and a later shutdown together shut each opened resource down exactly once |
| Diff.CompareFile | pkg/contract/diff.go:108-142 | a breaking change exactly when a typed domain is lost or renamed |
| Diff.CompareMessage | pkg/contract/diff.go:144-208 | a breaking change exactly when the classification changes, an old field is not kept in every respect, or a new field is required |
| Diff.CompareEnum | pkg/contract/diff.go:210-235 | a breaking change exactly when an old value is missing or renumbered |
| Diff.CompareOperation | pkg/contract/diff.go:334-376 | a breaking change exactly when a typed operation is lost or its policy key differs |
| Diff.CompareHTTPBindings | pkg/contract/diff.go:378-399 | a breaking change exactly when the key of an old binding is missing |
| Diff.CompareMethod | pkg/contract/diff.go:252-287 | a breaking change exactly when signature, operation, legacy operation id or bindings do not survive |
| Diff.CompareApplication | pkg/contract/diff.go:296-332 | a breaking change exactly when a typed application is lost, renamed, or an operation of it does not survive |
| Diff.CompareService | pkg/contract/diff.go:237-294 | a breaking change exactly when domain, application or a method does not survive |
| Diff.Compare | pkg/contract/diff.go:37-106 | a breaking change if and only if the contracts are incompatible; breaking changes come before warnings and warnings before news, and by path within each |
| CompatibilityLaws.Reflexive | pkg/contract/diff.go:37-399 | a contract is compatible with itself if and only if its fields of one number and its enum values of one name agree |
| CompatibilityLaws.Transitive | pkg/contract/diff.go:37-399 | two compatible steps are one, if the first is safe for untyped policies and the last contract does not contradict itself |
| CompatibilityLaws.TransitiveExactly | pkg/contract/diff.go:37-399 | a compatible step to a contract that does not contradict itself can be followed by every compatible step to such a contract if and only if it is safe |
| CompatibilityLaws.NotTransitive | pkg/contract/diff.go:37-399 | three contracts that do not contradict themselves, two compatible steps, and no compatible step from the first to the last |
| CompatibilityLaws.PlainTransitiveExactly | pkg/contract/diff.go:276-282 | where no untyped policy holds a bar, those steps are exactly the ones that drop no policy |
| UntypedPolicies.StepExactly | pkg/contract/diff.go:276-282 | of one method: every harmless next step keeps the first promise exactly when the untyped policy is not dropped, keeps its operation, and keeps its key or goes to a key that names one operation |
| UntypedPolicies.AmbiguousExactly | pkg/contract/diff.go:462-472 | a policy for another operation has the same key exactly when a text true or false stands among the bars of the key with at least three segments before it, and what is behind it falls at a bar into two trimmed texts; names are normalized before the key is taken |
| UntypedPolicies.BarSharesKey | pkg/contract/diff.go:462-472 | two policies for different operations with one key, by moving a bar |
| CompatibilityLaws.OrderlyPreorder | pkg/contract/diff.go:37-399 | between contracts whose field numbers and enum names are unique and whose policies are all typed, having no breaking change is reflexive and transitive |
| Survival.FieldSurvives | pkg/contract/diff.go:144-208 | every old field is in the new message, unchanged in every respect |
| Survival.EnumValueSurvives | pkg/contract/diff.go:210-235 | every old enum value is in the new enum with its number |
| Survival.EveryMethodSurvives | pkg/contract/diff.go:237-294 | every old method is in the service of its name, which keeps its domain, with the same request, response and streaming, its typed operation equal in everything but the listing of permissions and authentication, and a binding of the same joined verb, path, body and response body for each of its bindings |
| Survival.CompatibleExactly | pkg/contract/diff.go:37-399 | between contracts that name nothing twice, there is no breaking change if and only if every domain, message, enum and service survives, said of their fields |
| Survival.MessageExactly | pkg/contract/diff.go:144-208 | a message survives if and only if its classification stays, every field is in the new one as it was, and no field of a new number is required |
| Survival.ApplicationExactly | pkg/contract/diff.go:296-332 | an application survives if and only if its name stays and each internal operation is there, equal in everything but the listing of permissions and authentication |
| Survival.ServiceExactly | pkg/contract/diff.go:237-294 | a service survives if and only if a given domain stays, its application survives, and each method does |
| JoinedKeys.NamesKeyExactly | pkg/contract/diff.go:352-357 | the key of a list of names tells it from every list with other names if and only if it has one name at most, and that name does not fall apart at a comma into two names in order |
| JoinedKeys.CommaHidesChange | pkg/contract/diff.go:352-357 | two or more names keep their key when joined into one name with commas |
| JoinedKeys.LintedKeyDecides | pkg/contract/lint.go:345-363 | of permissions that pass the linter, the key says whether they are the same |
| JoinedKeys.BindingKeyExactly | pkg/contract/diff.go:401-403 | the key tells a binding from every other exactly when none of its four parts holds a bar |
| JoinedKeys.BindingSurvives | pkg/contract/diff.go:378-403 | method, path, body and response body of an old binding without bars survive, whatever the other bindings hold |
| JoinedKeys.SurvivesExactly | pkg/contract/diff.go:378-403 | and no other binding is sure to: with a bar in a part some change loses it and none is reported |
| Sorting.SortForgetsOrder | pkg/assemblyplan/plan.go:236-238 | where no two elements are tied, sorting does not depend on how they were listed |
| Strings.StableCanonical | pkg/assemblyplan/plan.go:818-834 | stable names depend on the set of non-blank names only |
| AssemblyChecks.ValidateCapabilities | pkg/assemblyplan/capability.go:45-69 | passes exactly when all capabilities are well-formed and their names differ |
| AssemblyChecks.ValidateApplications | pkg/assemblyplan/plan.go:318-336 | passes exactly when all applications are well-formed and their ids differ |
| AssemblyChecks.ValidateDependencies | pkg/assemblyplan/plan.go:571-597 | passes exactly when all ends are known and different, no pair repeats, and evidence is complete |
| AssemblyChecks.ValidateOperations | pkg/assemblyplan/plan.go:348-387 | passes exactly when all operations and bindings are well-formed and neither ids nor slots repeat |
| AssemblyChecks.ValidateModules | pkg/assemblyplan/plan.go:395-407 | passes exactly when all modules are named differently, with evidence |
| AssemblyChecks.CycleAmong | pkg/assemblyplan/plan.go:340-342 | for dependencies that passed, a cycle is reported if and only if there is one |
| AssemblyChecks.Validate | pkg/assemblyplan/plan.go:309-438 | no error if and only if the normalized plan passes every check; an error about a cycle shows one, an error about a stale part means it is stale and what it derives from is valid |
| AssemblyCompile.CompileModules | pkg/assemblyplan/plan.go:192-217 | modules, dependencies and requirements of a list of module inputs |
| AssemblyCompile.MakeDraft | pkg/assemblyplan/plan.go:145-217 | the parts of the plan of a normalized input, with the sorted closure of its application dependencies |
| AssemblyCompile.Compile | pkg/assemblyplan/plan.go:145-224 | the plan made from the normalized input; its applications, operations and modules are those of the input, one by one; there is no error if and only if the input says of itself what CompilesExactly lists |
| AssemblyLaws.MadeOnce | pkg/assemblyplan/plan.go:145-224 | an input makes one plan at most |
| AssemblyLaws.CompiledClosureCurrent | pkg/assemblyplan/plan.go:343-346 | the closure of a compiled plan is never stale |
| AssemblyLaws.CompiledRequirementsCurrent | pkg/assemblyplan/plan.go:415-422 | the requirements of a compiled plan with valid modules are never stale |
| AssemblyLaws.CompiledTargetCurrent | pkg/assemblyplan/plan.go:430-437 | the single target of a compiled plan is never stale |
| AssemblyLaws.NeverStale | pkg/assemblyplan/plan.go:145-224 | whatever else fails, validating a compiled plan never ends in one of the three stale errors |
| AssemblyContents.PlanDependencies | pkg/assemblyplan/plan.go:152-168 | a dependency is in the plan if and only if an application of its input needs that name, which is not blank, and its evidence is that of the application, reused, with the name behind |
| AssemblyContents.PlanOperationDependencies | pkg/assemblyplan/plan.go:171-195 | the same of the operations a plan holds dependencies of |
| AssemblyContents.PlanModuleDependencies | pkg/assemblyplan/plan.go:198-214 | the same of its modules |
| AssemblyContents.HeldApplications | pkg/assemblyplan/plan.go:145-168 | as many applications as in the input, each of them with its id, domain, name and evidence and its capabilities up to order, and no other |
| AssemblyContents.HeldOperations | pkg/assemblyplan/plan.go:171-195 | as many operations, each with its id, application and evidence, and its bindings up to order with transport in lower case, index and evidence, and no other |
| AssemblyContents.HeldModules | pkg/assemblyplan/plan.go:198-214 | as many modules, each with its name, version, evidence and requirements, and no other |
| AssemblyContents.PlanRequirements | pkg/assemblyplan/plan.go:198-217 | a requirement is in the plan if and only if a module of its input asks for it, with the evidence of the module, reused, and the place behind |
| AssemblyContents.PlanTarget | pkg/assemblyplan/plan.go:430-437 | one target, the root, which names exactly the applications and modules of the input, and its operations as external exactly when they have a binding |
| AssemblyContents.PlanTargetSorted | pkg/assemblyplan/plan.go:757-784 | its four lists are sorted, name nothing twice and nothing blank |
| AssemblyContents.PlanSorted | pkg/assemblyplan/plan.go:145-307 | the lists of a plan are sorted by their keys; an input without an identity makes a plan for the root |
| AssemblyContents.PlanPartsSorted | pkg/assemblyplan/plan.go:242-294 | dependencies are sorted by who needs and by what is needed, requirements by module, kind and name |
| AssemblyInputs.CompilesExactly | pkg/assemblyplan/plan.go:145-437 | an input compiles if and only if its applications, operations and modules are in order one by one, their ids differ, operations belong to an application, everything needed is there, and nothing needs itself, not even around a circle |
| AssemblyInputs.CapabilitySpelled | pkg/assemblyplan/capability.go:11-12 | name and type of a capability are checked against exactly these two patterns |
| AssemblyInputs.EvidenceExactly | pkg/assemblyplan/plan.go:543-553 | evidence passes exactly with one of the four owners, a source and a place in it |
| AssemblyContents.RequirementsCurrentExactly | pkg/assemblyplan/plan.go:413-422 | the requirements of any plan with different module names are current if and only if they are those its modules ask for, each as often |
| AssemblyContents.TargetCurrentExactly | pkg/assemblyplan/plan.go:433-437 | the target of any plan is current if and only if it is the root, has that evidence, and names what the plan holds, up to order and repetition |
| AssemblyContents.PlanClosure | pkg/assemblyplan/plan.go:169-169 | the closure a plan carries holds a pair exactly when the names differ and one reaches the other over what the input declares |
| AssemblyContents.RequirementsExactly | pkg/assemblyplan/plan.go:689-719 | a requirement is listed exactly for what the module asks for: no kind, name or evidence is missed or invented |
| AssemblyContents.TargetExactly | pkg/assemblyplan/plan.go:757-784 | an operation is external in the target exactly when it has a binding, internal otherwise |
| AssemblyInvariance.CompileForgetsOrder | pkg/assemblyplan/plan.go:145-224 | rearranging the input lists, and the lists inside their items, gives the identical plan whenever it compiles |
| AssemblyInvariance.AssemblyModuleInputs | pkg/contract/assembly_codegen.go:85-101 | the module inputs read off a plan |
| AssemblyInvariance.Recompiles | pkg/contract/assembly_codegen.go:61-83 | compiling the same applications and operations with the modules read off the plan gives the identical plan |

## Left out

- Nil receivers, nil contexts and nil interfaces, except where absence decides an outcome.
- The text of errors and diagnostics: errors are constructors, and joined errors are lists of them.
- Runtime metadata in contexts, and observers beyond the events they are sent.
- The locks of the route tree, the route groups and the request scope: their methods are modelled as running one at a time. The memory store, the durable store and the provider are modelled under interleaving.
- Finding the registry of a multiplexer by its address, and the multiplexer itself: whether it accepts a new pattern, and that it puts the texts of a path in the places of a pattern, is taken from outside.
- Upper and lower case beyond ASCII.
- The fields of a plan that the compiler only copies: its RPC name, its HTTP bindings and whether it is public.
- Normalization of contracts and plans before they are compared or validated, beyond that of names in keys: texts are taken as trimmed, type names without a leading dot, lists as sorted.
- Reading operations out of a service: the linter is given the readable operations of a service, or that they cannot be read.
- The tenant-bound grant resolver and the guards that run after authorization: the answer of a resolver is an input.
- The version number of the plan schema, the JSON of plans and their digest: stale parts are compared as values.
- Provider health checks and the restricted views that modules get of the provider.
- Retries and timeouts of the provider's contexts: a call ends well or badly, and when does not matter.
- Modules and components without a start or a shutdown of their own: they count as ones whose calls end well.
- At most one shutdown for modules and runtime components: a shutdown after a failed start runs theirs again, and `ApplicationLifecycle.App.Shutdown` says so; only the provider's resources are closed once.
- How entries of one depth and one node are ordered in an impact report: parallel edges repeat them.
- The messages of contract changes, and warnings about directives beyond whether there is one.
- CompatibilityLaws.TransitiveExactly: speaks of next contracts that do not contradict themselves; a message with two fields of one number can break a further step in any case.
- Reading boundary intents from their wire form, and where in a contract they stand: the compiler is given those of all operations.
- Impact.Walk: does not say in which order equal entries stand.
- Protobuf scanning, Go parsing and formatting, emitted source text beyond the order of its statements, listeners, gRPC, SQL, logging, configuration, command line and release tooling: input and output, or easy members.
