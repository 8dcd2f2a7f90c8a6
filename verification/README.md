# vinego linters — a Dafny model

vinego is a set of Go static-analysis passes. This project models the logic of those passes as pure Dafny functions over an abstract syntax tree, and proves properties of them.

**The `varinit` uninitialised-variable analysis** (the main part):
- Each function is evaluated over its control-flow graph.
- A variable declared without a value is *tracked*. Each tracked variable carries a blame: the branches on which it may still be unassigned.
- An assignment clears the variable's blame.
- At a join, the blames of the predecessor blocks are merged.
- A read of a variable whose blame is non-empty is reported, at most once per variable.
- Named results are checked at every exit that ends in a bare `return`.
- The blocks are evaluated in an order where each block comes after all its non-loop predecessors. A dependency cycle is fatal.

**The smaller passes and shared code:**
- `utils`: the slice and map helpers, and `NamedReturns`.
- `scanTypeTags`: `check:<name>` doc-comment tags become per-type facts.
- `allfields`: composite literals of tagged structs must name every required field.
- `explicitcast`: untyped basic literals passed, assigned or returned where another type is expected are reported.
- `loopvariableref`: a `range` variable must not escape an iteration through `&` or a closure capture.
- `capturedErr`: an `error` variable of an enclosing function must not be assigned from inside a closure.

**How the model is built:**
- Go's mutable maps, slices and closures become values threaded through pure functions: a `Ctx`, a `FlowState` or a walk `State`.
- The results of the Go type checker are inputs to the model:
  - the `Uses` and `Defs` maps (`Ast.Info`);
  - literal and parameter types, given as their printed strings;
  - struct field tags.
- The CFG is an input too (`Ast.Block`).
- Panics in the source are modelled in one of two ways:
  - as `Failure` results (`VarInit.Fault`, `ExplicitCast.CastFault`);
  - or ruled out by the shape of the datatypes.

**Modules:**
- `Wrappers` and `Ast` hold the shared data.
- `Utils`, `BlockOrder`, `Scopes`, `VarInit` and `Scenarios` model `src/utils/utils.go` and `src/varinit/varinit.go`.
- `ScanTypeTags`, `AllFields`, `ExplicitCast`, `LoopVariableRef` and `CapturedErr` model one pass each.

## Model

| member | source | states |
|---|---|---|
| Utils.Append | src/utils/utils.go:11-13 | the result is the old slice followed by the new elements, element by element |
| Utils.Remove | src/utils/utils.go:15-17 | the result keeps the prefix before `start` and shifts the tail after the removed run down by `count` |
| Utils.PopMap | src/utils/utils.go:19-23 | returns the stored value, or the zero value when the key is missing, and the map without that key, all other entries unchanged |
| Utils.UpdateMap | src/utils/utils.go:25-32 | the key gets `updater(old, true)` when present, `updater(zero, false)` otherwise; every other entry is kept |
| Utils.MergeMap | src/utils/utils.go:34-41 | keys are the union; source entries win over destination entries |
| Utils.Last | src/utils/utils.go:43-45 | all but the last element, followed by the result, is the input |
| Utils.ArrAntiSuffix | src/utils/utils.go:47-50 | the result is a prefix of the input, `count` elements shorter |
| Utils.FieldNames | src/utils/utils.go:118-126 | an identifier is listed exactly when it names a field of the list; a single field gives exactly its names |
| Utils.NamedReturns | src/utils/utils.go:118-126 | an identifier is listed exactly when it names a result; no result list gives no names; otherwise the first result's names come first, followed by the rest's in order |
| Utils.FieldNamesConcat | src/utils/utils.go:118-126 | collecting names distributes over concatenation of field lists |
| Utils.FieldNamesCons | src/utils/utils.go:120-124 | the names of a non-empty list are the first field's names followed by the rest's |
| Utils.AppendThenRemove | src/utils/utils.go:11-17 | removing what was appended restores the slice |
| Utils.AppendThenAntiSuffix | src/utils/utils.go:11-13 | dropping as many elements as were appended restores the slice |
| Utils.RemoveKeepsOthers | src/utils/utils.go:15-17 | the removed run plus what remains is a permutation of the input |
| Utils.RemoveExample | src/utils/utils_test.go:8-15 | removing one element at index 1 from `a b c` gives `a c` |
| Utils.UpdateThenPop | src/utils/utils.go:19-32 | popping a key just updated yields the updater's value and the map without that key |
| Utils.MergeMapIdempotent | src/utils/utils.go:34-41 | merging the same source twice equals merging it once |
| BlockOrder.CutLoopEdges | src/varinit/varinit.go:338-347 | a successor is kept exactly when it is not the loop body of a `for` loop head |
| BlockOrder.Succs | src/varinit/varinit.go:338-347 | successors after cutting the loop edges; blocks other than loop heads keep theirs unchanged |
| BlockOrder.DepsUpTo | src/varinit/varinit.go:352-361 | a block is a dependency exactly when it has a kept edge to the target |
| BlockOrder.Deps | src/varinit/varinit.go:352-361 | the dependencies of a block are exactly its predecessors over kept edges |
| BlockOrder.LiveBlocks | src/varinit/varinit.go:333 | exactly the live blocks, without repeats |
| BlockOrder.Without | src/varinit/varinit.go:380-381 | removing a placed block from the pending list, keeping the others and no repeats |
| BlockOrder.Pass | src/varinit/varinit.go:367-385 | one pass keeps every block placed or pending, places a block only after its dependencies, and a pass that places nothing leaves no key ready |
| BlockOrder.OrderLoop | src/varinit/varinit.go:364-386 | success gives an order of every live block after all its dependencies; failure gives a non-empty set of blocks each waiting on another in the set |
| BlockOrder.OrderBlocks | src/varinit/varinit.go:333-386 | the same for the whole CFG, starting from the live blocks |
| BlockOrder.NoProgressIsStuck | src/varinit/varinit.go:383-385 | when no pending block is ready, the pending set is stuck |
| BlockOrder.StuckBlocksNeverPlaced | src/varinit/varinit.go:382-385 | no block of a stuck set can appear in a dependency-respecting sequence |
| BlockOrder.StuckMeansNoOrder | src/varinit/varinit.go:382-385 | a stuck set rules out every dependency-respecting order |
| BlockOrder.OrderFailsOnlyWithoutOrder | src/varinit/varinit.go:364-386 | ordering fails only when no valid order exists |
| Scopes.NewDecl | src/varinit/varinit.go:59-70 | the declared variable becomes tracked, unassigned, blamed on exactly the current branch; others unchanged; unresolved names ignored |
| Scopes.MarkInitialized | src/varinit/varinit.go:72-83 | a tracked variable becomes assigned with empty blame, keeping its name; untracked or unresolved names change nothing |
| Scopes.TrackedIn | src/varinit/varinit.go:256-272 | a variable is tracked by the join exactly when some input tracks it |
| Scopes.ChangedIn | src/varinit/varinit.go:256-272 | the first pass finds exactly whether some input assigned the variable |
| Scopes.Blame | src/varinit/varinit.go:273-297 | a branch is blamed exactly when some input contributes it, and its label comes from a contributing input |
| Scopes.FirstName | src/varinit/varinit.go:256-272 | the recorded name is the name some input gave the variable |
| Scopes.MergeScopes | src/varinit/varinit.go:255-312 | tracked = union of inputs; assigned iff some input assigned it; blame = union of contributions; location is the block's, or none for exits |
| Scopes.MergeBlameCases | src/varinit/varinit.go:273-297 | once some path assigned a variable, an input that did not is blamed itself and one that did passes on its blame; otherwise every blame passes on |
| Scopes.MergeAt | src/varinit/varinit.go:255-312 | the merged record of a tracked variable is its per-variable merge |
| Scopes.BlameClearsIff | src/varinit/varinit.go:273-297 | after some path assigned the variable, the blame is empty iff every input assigned it with no blame left |
| Scopes.BlameUnion | src/varinit/varinit.go:273-297 | when no input assigned the variable, the blame is the union of the inputs' blames |
| Scopes.MergeClearsBlameIff | src/varinit/varinit.go:255-312 | the join clears a variable exactly when every input tracking it cleared it |
| Scopes.MergeKeepsProvenance | src/varinit/varinit.go:255-312 | when no input assigned the variable, the join keeps exactly the original declaring branches |
| Scopes.MergeSingleton | src/varinit/varinit.go:255-312 | joining a single scope keeps its variables unchanged |
| Scopes.SingleDecl | src/varinit/varinit.go:255-312 | a single input's record of a variable is the merged record |
| Scopes.MergeOrderIndependent | src/varinit/varinit.go:255-312 | permuting the inputs gives the same variables, the same assigned flags and the same blamed branches |
| Scopes.MergeSameMembers | src/varinit/varinit.go:255-312 | inputs with the same members give the same merged assigned flag and blamed branches |
| VarInit.CheckUseByDecl | src/varinit/varinit.go:132-146 | a variable with non-empty blame is reported with its name and blamed branches and marked reported; otherwise nothing happens; the log stays consistent |
| VarInit.CheckUse | src/varinit/varinit.go:148-154 | a read adds one report exactly when the variable was not reported before and is unassigned on some branch |
| VarInit.CheckUses | src/varinit/varinit.go:148-154 | reading identifiers in order newly reports a variable exactly when one of them refers to it, it is unassigned on some branch and it was not reported before; each new report is a use report against the unchanged scope with the variable's name and blamed branches |
| VarInit.CheckUsesStep | src/varinit/varinit.go:148-154 | the reporting rule of a list follows from one read and the rule for the rest of the list |
| VarInit.CheckUsesAppend | src/varinit/varinit.go:148-154 | reading two lists of identifiers in turn is reading their concatenation |
| VarInit.NewDecls | src/varinit/varinit.go:104-116 | each resolved declared name becomes tracked, unassigned and blamed on exactly the current branch with its label; every other variable keeps its record and nothing else is added |
| VarInit.NewDeclsAppend | src/varinit/varinit.go:104-116 | declaring two lists of names in turn is declaring their concatenation |
| VarInit.MarkTargets | src/varinit/varinit.go:212-218 | each tracked variable named by an identifier target becomes assigned with no blame; every other variable keeps its record; the tracked set is unchanged |
| VarInit.EvalExpr | src/varinit/varinit.go:156-195 | every evaluation stays at the same program point and only extends the log; an expression holding no function literal and no `&x` succeeds and does exactly what reading its identifiers in syntax order does, the callee of a call not being read |
| VarInit.EvalCall | src/varinit/varinit.go:158-175 | a side-effect-free call reads its arguments in order and not its callee |
| VarInit.RecurseExpr | src/varinit/varinit.go:86-102 | visiting the children of a side-effect-free expression reads exactly their identifiers in syntax order, a selector's field name included |
| VarInit.RecurseSelector | src/varinit/varinit.go:86-102 | `x.f` visited as a subtree reads `x`'s identifiers, then `f` |
| VarInit.RecurseCall | src/varinit/varinit.go:86-102 | a call visited as a subtree reads its callee, then its arguments |
| VarInit.RecurseKeyValue | src/varinit/varinit.go:86-102 | a key-value pair reads its key, then its value |
| VarInit.RecurseLit | src/varinit/varinit.go:86-102 | a function literal visited as a subtree reads its parameters' names and types, then its results', then its body's statements |
| VarInit.EvalExprs | src/varinit/varinit.go:156-195 | a list of side-effect-free expressions reads exactly their identifiers, expression by expression |
| VarInit.EvalCallArgs | src/varinit/varinit.go:158-170 | side-effect-free arguments read exactly their identifiers, left to right |
| VarInit.EvalCallArg | src/varinit/varinit.go:158-170 | a function-literal argument runs as a function from the current scope: the call fails exactly when it does, and its exit variables and log replace the current ones; any other argument is evaluated exactly as an expression |
| VarInit.RecurseFields | src/varinit/varinit.go:86-102 | a parameter or result list with side-effect-free types reads each field's names and then its type, field by field |
| VarInit.EvalClosure | src/varinit/varinit.go:171-175 | a called literal runs as a function from the current scope; it fails exactly when that run fails, and its exit variables and log replace the current ones |
| VarInit.EvalStmt | src/varinit/varinit.go:197-253 | every statement only extends the log; an expression statement or a `return` with side-effect-free operands does exactly what reading their identifiers in order does |
| VarInit.EvalDetached | src/varinit/varinit.go:220-247 | with side-effect-free arguments, `go`/`defer` of a literal reads the arguments, runs the literal from no scope and keeps only its log, the caller's scope unchanged; of any other callee it reads the arguments twice |
| VarInit.EvalTargets | src/varinit/varinit.go:202-219 | side-effect-free non-identifier targets read exactly their identifiers in order; a bare identifier target reads nothing |
| VarInit.EvalRangeVars | src/varinit/varinit.go:197-253 | an assigning `range` with side-effect-free key and value reads them in order; a defining one visits its key and value identifiers |
| VarInit.EvalStmts | src/varinit/varinit.go:197-253 | a list of side-effect-free expression statements and `return`s reads exactly their identifiers, statement by statement |
| VarInit.RecurseParts | src/varinit/varinit.go:86-102 | the side-effect-free children of an unmodelled statement read exactly their identifiers in order, a value spec its names and then its values |
| VarInit.RecursePart | src/varinit/varinit.go:86-102 | the same for one child |
| VarInit.RecurseValueSpec | src/varinit/varinit.go:86-102 | a value spec visited as a subtree with side-effect-free values reads its names, then its values |
| VarInit.EvalVarDecl | src/varinit/varinit.go:104-116 | a spec without values declares its names bare; with values, only the values' children are visited |
| VarInit.RecurseValues | src/varinit/varinit.go:110-114 | side-effect-free values read exactly their children's identifiers in order, never the value itself |
| VarInit.EvalVarDeclBlock | src/varinit/varinit.go:118-130 | a `const` block changes nothing; a `var` block of bare specs declares all their names in order, as one run of declarations |
| VarInit.RecurseSpecs | src/varinit/varinit.go:86-102 | side-effect-free specs visited as subtrees read exactly their identifiers in order: a value spec its names and values, a type spec its name and type |
| VarInit.RecurseSpec | src/varinit/varinit.go:86-102 | the same for one spec |
| VarInit.EvalNodes | src/varinit/varinit.go:426-437 | a block of side-effect-free nodes reads exactly their identifiers, node by node |
| VarInit.EvalNode | src/varinit/varinit.go:426-437 | the same for one node |
| VarInit.DepScopes | src/varinit/varinit.go:396-409 | exactly the recorded scopes of the dependencies, one per dependency when all are recorded |
| VarInit.Record | src/varinit/varinit.go:439-451 | the block's scope is stored under its index, the handled blocks grow by that block, and the named-result flag is set by the first block alone |
| VarInit.PrefixSet | src/varinit/varinit.go:394-452 | the set of blocks handled grows by exactly the current block |
| VarInit.RunBlocks | src/varinit/varinit.go:394-452 | after all ordered blocks every block has a stored scope; the outputs and bare-return outputs are exactly the exit blocks' scopes in block order; and each stored scope is what its block's nodes produce from the join of the scopes stored before it |
| VarInit.RunStep | src/varinit/varinit.go:396-451 | the step fails exactly when the block's evaluation fails; otherwise it records exactly the scope and log that evaluation left, and the dataflow equations extend to that block |
| VarInit.RecordKeepsDataflow | src/varinit/varinit.go:439-451 | recording the scope a block's evaluation left extends the dataflow equations by that block |
| VarInit.DataflowSettles | src/varinit/varinit.go:396-418 | once every block comes after its dependencies, each stored scope is what its block produces from the final stored scopes: the stored scopes solve the dataflow equations |
| VarInit.DepScopesAgree | src/varinit/varinit.go:398-410 | a block's join inputs depend only on the scopes stored for its dependencies |
| VarInit.RecordCollectsExits | src/varinit/varinit.go:439-451 | recording a block appends its scope to the outputs exactly when it has no successor, and to the bare-return outputs exactly when it also ends in `return` without results |
| VarInit.ExitScopesMembers | src/varinit/varinit.go:439-451 | a scope is collected exactly when it is the recorded scope of a collected block among the ordered ones |
| VarInit.ExitScopesFrame | src/varinit/varinit.go:439-451 | storing the scope of a block not yet handled does not change what was collected from the handled ones |
| VarInit.JoinInputs | src/varinit/varinit.go:398-410 | a block without dependencies starts from the function's inputs; otherwise exactly from the recorded scopes of its predecessors over kept edges |
| VarInit.StartScope | src/varinit/varinit.go:398-418 | the join of the block's inputs, located at the block; on the first block each named result is added as tracked, unassigned and blamed on that block alone, every other variable keeping its joined record |
| VarInit.BlockRunsFromStartScope | src/varinit/varinit.go:396-437 | a block's nodes are evaluated from its start scope with the log the earlier blocks left, and the result extends that context |
| VarInit.RunBlock | src/varinit/varinit.go:396-437 | the block's evaluation stays located at the block and only grows the log |
| VarInit.CheckNamedReturns | src/varinit/varinit.go:456-467 | every new report is a named result unassigned on some bare-return path, and every such result is reported |
| VarInit.FinishFunc | src/varinit/varinit.go:454-467 | the function's result is the join of the exit scopes, belonging to no block; named results are checked only when declared, against the join of the bare-return exits: every new report is a named result that join leaves unassigned, and every such result is reported |
| VarInit.EvalFunc | src/varinit/varinit.go:320-470 | a dependency cycle is the fatal fault; otherwise the log only grows and the result belongs to no block |
| VarInit.FunctionJoinsExits | src/varinit/varinit.go:320-470 | with the blocks ordered, the function fails exactly when its blocks fail; its result is exactly the join of the exit blocks' stored scopes; each block's stored scope is what its nodes produce from its dependencies' stored scopes; every new report is a named result unassigned in the join of the bare-return exits, and, when there are blocks, every such result is reported |
| VarInit.FinishJoinsExits | src/varinit/varinit.go:454 | the joined result tracks exactly the variables tracked at some exit block |
| VarInit.OutputsTrackExits | src/varinit/varinit.go:439-454 | a variable is tracked by some output exactly when some exit block tracks it |
| VarInit.OutputIsExit | src/varinit/varinit.go:439-454 | every collected output is the scope recorded for some exit block |
| VarInit.ExitIsOutput | src/varinit/varinit.go:439-454 | the scope recorded for every exit block is among the collected outputs |
| VarInit.SelfAssignReadsFirst | src/varinit/varinit.go:202-219 | `x = x` reports the unassigned `x` once, then clears it |
| VarInit.AddressOfAssigns | src/varinit/varinit.go:176-189 | `&x` marks `x` assigned without reporting anything |
| VarInit.AddressOfFieldReads | src/varinit/varinit.go:176-189 | `&x.f` reads an unassigned `x`, reports it, and leaves it unassigned |
| VarInit.InitializedVarIsInvisible | src/varinit/varinit.go:104-116 | `var y = x` neither tracks `y` nor reads `x` |
| VarInit.BareVarIsTracked | src/varinit/varinit.go:104-116 | `var x T` tracks `x` as unassigned, blamed on the current branch |
| VarInit.DetachedLiteralScopeDropped | src/varinit/varinit.go:220-247 | after `go`/`defer` of a literal the scope is what the arguments left; the literal's assignments do not flow back |
| VarInit.CalledLiteralReplacesScope | src/varinit/varinit.go:158-175 | calling a literal runs it from the scope the arguments left; its exit variables replace the caller's, at the caller's location |
| VarInit.CallArgsSnoc | src/varinit/varinit.go:158-170 | the arguments are evaluated left to right: one more argument is evaluated from the context the others left |
| VarInit.LiteralArgumentReplacesScope | src/varinit/varinit.go:158-170 | a call whose last argument is a literal ends with the literal's exit variables and log, run from the scope the other arguments left, at the caller's location |
| VarInit.AssignmentMarksTargets | src/varinit/varinit.go:202-219 | an assignment succeeds exactly when its non-identifier targets and its values do; from the scope they leave, each identifier target's variable becomes assigned with no blame and every other record is kept; with side-effect-free operands this holds from the scope before the statement |
| VarInit.ReportOncePerRun | src/varinit/varinit.go:132-154 | starting from an empty log, no variable is reported twice at use sites |
| Scenarios.DeclaredPending | src/varinit/varinit.go:59-70 | a bare declaration leaves the variable unassigned and blamed on its own branch |
| Scenarios.AssignedCleared | src/varinit/varinit.go:72-83 | a branch block that assigns the variable clears it |
| Scenarios.SkippedKept | src/varinit/varinit.go:255-312 | a branch block that skips the variable passes its blame on unchanged |
| Scenarios.JoinCleared | src/varinit/varinit.go:255-312 | a join of inputs that all cleared the variable clears it |
| Scenarios.JoinChanged | src/varinit/varinit.go:256-272 | one clearing input makes the join count the variable as assigned |
| Scenarios.JoinBlamesSkipper | src/varinit/varinit.go:273-297 | when one input skipped and the rest cleared, the join blames exactly the skipper's branch |
| Scenarios.BlameSkipper | src/varinit/varinit.go:273-297 | the same at the level of the blame fold |
| Scenarios.JoinKeepsBlame | src/varinit/varinit.go:273-297 | an input that assigned only on some paths passes its blame through the join |
| Scenarios.JoinTwoCleared | src/varinit/varinit.go:255-312 | joining two clearing branches clears the variable |
| Scenarios.JoinTwoBlamesFirst | src/varinit/varinit.go:273-297 | joining a skipper with a clearing branch blames the skipper |
| Scenarios.JoinTwoBlamesSecond | src/varinit/varinit.go:273-297 | the same with the skipper second |
| Scenarios.JoinThreeBlamesLast | src/varinit/varinit.go:273-297 | two clearing branches and a last skipper: the skipper alone is blamed |
| Scenarios.JoinThreeKeepsMiddle | src/varinit/varinit.go:273-297 | a partly assigning middle input passes its blame through a three-way join |
| Scenarios.ThreeWayReadReported | src/varinit/varinit.go:132-154 | after a three-way join where only the middle input leaves the variable blamed on one branch, that branch is the whole blame and the first read is reported |
| Scenarios.IfElseAssignsEverywhere | src/varinit/testdata/branchinlambdaargok/branchInLambdaArgOk.go:15-23 | assigned in both `if` and `else`, the variable is clear after the join and its read is not reported |
| Scenarios.IfWithoutElseBlamesEntry | src/varinit/testdata/branchinlambdaargbad/branchInLambdaArgBad.go:15-21 | assigned only in the `if` body, the variable is blamed on the declaring branch and its read is reported once |
| Scenarios.IfOrder | src/varinit/varinit.go:333-386 | the three blocks of `var x int; if produce() > 0 { x = 7 }; consume(x)` are ordered entry, body, join |
| Scenarios.IfOrderUnique | src/varinit/varinit.go:333-386 | that is the only dependency-respecting order of those blocks |
| Scenarios.IfEntryBlock | src/varinit/varinit.go:396-437 | the entry block leaves `x` unassigned, blamed on the entry block alone |
| Scenarios.IfThenBlock | src/varinit/varinit.go:396-437 | the body block starts from the entry's scope and clears `x` |
| Scenarios.IfDoneBlock | src/varinit/varinit.go:396-437 | the join block meets the skipping entry and the assigning body, blames the entry, and reports the read of `x` |
| Scenarios.IfFirstStep | src/varinit/varinit.go:439-451 | the first step of the run records the entry's scope |
| Scenarios.IfSecondStep | src/varinit/varinit.go:439-451 | the second step records the body's scope |
| Scenarios.IfThirdStep | src/varinit/varinit.go:439-451 | the third step records the join's scope and its report |
| Scenarios.IfRun | src/varinit/varinit.go:394-452 | running the ordered blocks adds exactly the one report, and no named-result check is due |
| Scenarios.IfWithoutElseThroughFunction | src/varinit/testdata/branchinlambdaargbad/branchInLambdaArgBad.go:15-21 | the whole function, evaluated from its CFG, reports `x` exactly once at `consume(x)`, blamed on the declaring block |
| Scenarios.SwitchWithoutDefaultBlamesLastCase | src/varinit/testdata/switchnodefault/switchNoDefault.go:7-14 | with no `default`, the join meets the two assigning case bodies and the last case's next-case block, which falls through; the `case 4:` clause is blamed and the read is reported |
| Scenarios.NestedSwitchWithoutDefaultBlamesInnerCase | src/varinit/testdata/switchnesteddefaultbad/switchNestedDefaultBad.go:7-20 | the nested `switch` without `default` joins its assigning `case 5:` body with that clause's next-case block, which is blamed; the outer join keeps that blame and the read is reported |
| ScanTypeTags.LowerRun | src/utils/scanTypeTags.go:16 | the longest run of lower-case letters from a position |
| ScanTypeTags.FindFrom | src/utils/scanTypeTags.go:16 | no match iff no position matches `check:[a-z]`; otherwise the capture of the leftmost match |
| ScanTypeTags.FindCheck | src/utils/scanTypeTags.go:28-34 | the first `check:<lower-case name>` of a line, its name non-empty and lower-case, or none |
| ScanTypeTags.SplitLines | src/utils/scanTypeTags.go:28 | at least one line, none containing a newline |
| ScanTypeTags.Matches | src/utils/scanTypeTags.go:28-34 | the per-line match, for every line |
| ScanTypeTags.Collect | src/utils/scanTypeTags.go:28-34 | a name is collected exactly when some line matched it |
| ScanTypeTags.LineChecks | src/utils/scanTypeTags.go:28-34 | a check is enabled exactly when some doc line names it |
| ScanTypeTags.DeclaredTypes | src/utils/scanTypeTags.go:38-45 | exactly the objects of the type specs of the declaration |
| ScanTypeTags.ScanDecl | src/utils/scanTypeTags.go:18-49 | no doc or no tag exports nothing; otherwise every declared type gets exactly the doc's checks |
| ScanTypeTags.Export | src/utils/scanTypeTags.go:38-45 | every given object, each with the same check set |
| ScanTypeTags.ScanFile | src/utils/scanTypeTags.go:18-49 | the incoming facts overlaid with each declaration's exports in file order; facts only accumulate and every new fact is non-empty |
| ScanTypeTags.Overlay | src/utils/scanTypeTags.go:18-49 | an object is present exactly when it was or some export map has it; the last map that has it gives its value; an object no map has keeps its value |
| ScanTypeTags.Exported | src/utils/scanTypeTags.go:18-49 | one export map per declaration, in order, each the declaration's own scan |
| ScanTypeTags.ScanFileExports | src/utils/scanTypeTags.go:18-49 | every object a declaration exports has a fact afterwards, and nothing else is added; the last declaration exporting on an object gives its checks; an object no declaration exports keeps its fact |
| ScanTypeTags.GetTypeTags | src/utils/scanTypeTags.go:51-55 | the stored checks of a type, or none when it has no fact |
| ScanTypeTags.JoinSplitLines | src/utils/scanTypeTags.go:28 | splitting on newlines and joining back gives the text |
| ScanTypeTags.SplitJoinLines | src/utils/scanTypeTags.go:28 | joining newline-free lines and splitting gives the lines |
| ScanTypeTags.LowerRunToEnd | src/utils/scanTypeTags.go:16 | an all-lower-case tail is captured whole |
| ScanTypeTags.TagLine | src/utils/scanTypeTags.go:16 | `check:` followed by a lower-case name captures that name |
| ScanTypeTags.OneLineDoc | src/utils/scanTypeTags.go:28-37 | a one-line doc enables exactly the check its match names |
| AllFields.Required | src/allfields/allfields.go:51-57 | exactly the fields whose `optional` tag is not `"1"` |
| AllFields.Remaining | src/allfields/allfields.go:59-71 | exactly the required names no key-value element names |
| AllFields.CheckLiteral | src/allfields/allfields.go:27-83 | not-a-struct iff tagged and not a struct; missing fields iff tagged struct, no positional element, some required name unnamed, reporting exactly those |
| AllFields.NamingEveryRequiredFieldSuffices | src/allfields/allfields.go:59-83 | naming every required field by key avoids the missing-field report |
| AllFields.PositionalElementSuppresses | src/allfields/allfields.go:59-73 | one positional element silences the missing-field report |
| AllFields.OtherTagsIgnored | src/allfields/allfields.go:35-41 | a type without the `allfields` tag is never reported |
| AllFields.AllfieldsDoc | src/utils/scanTypeTags.go:18-49 | the doc `check:allfields` enables exactly the `allfields` check |
| AllFields.TaggedEmptyLiteral | src/allfields/allfields.go:51-83 | the empty literal of a tagged one-field struct misses that field |
| AllFields.EmptyLiteralOfTaggedStruct | src/allfields/testdata/namelessbad/namelessBad.go:3-12 | a struct tagged by its doc comment and written `{}` is reported as missing `X` |
| ExplicitCast.SliceClosure | src/explicitcast/explicitcast.go:15-24 | each name and its `[]` slice form, nothing else |
| ExplicitCast.WantSet | src/explicitcast/explicitcast.go:15-24 | the names plus `interface{}` and `any`, each also with `[]`, and nothing else |
| ExplicitCast.KindNames | src/explicitcast/explicitcast.go:27-45 | the accepted set of each literal kind is the want set of its type names |
| ExplicitCast.CheckLit | src/explicitcast/explicitcast.go:50-75 | reported iff a basic literal whose kind does not accept the type, with the literal's position, kind and the type |
| ExplicitCast.CheckAll | src/explicitcast/explicitcast.go:50-75 | exactly the reports of the individual pairs |
| ExplicitCast.ParamIndex | src/explicitcast/explicitcast.go:101-107 | a variadic tail uses the last parameter; otherwise the same index, absent when out of range |
| ExplicitCast.ArgPairs | src/explicitcast/explicitcast.go:101-109 | succeeds iff every argument has a parameter, pairing each argument with its parameter type |
| ExplicitCast.CallReports | src/explicitcast/explicitcast.go:89-112 | non-values and non-functions are skipped, as is multi-result forwarding; otherwise exactly the argument literals' reports |
| ExplicitCast.AssignPairs | src/explicitcast/explicitcast.go:118-124 | succeeds iff each target has a source, pairing typed targets with their sources |
| ExplicitCast.AssignReports | src/explicitcast/explicitcast.go:113-124 | multi-result assignment is skipped; otherwise exactly the reports of the typed targets' sources, failing when a source is missing |
| ExplicitCast.ResultPairs | src/explicitcast/explicitcast.go:153-156 | succeeds iff each result has an expression, pairing them in order |
| ExplicitCast.ReturnReports | src/explicitcast/explicitcast.go:125-156 | a bare return is skipped; no enclosing function is a fault; forwarding is skipped; otherwise exactly the result literals' reports |
| ExplicitCast.InnermostFunc | src/explicitcast/explicitcast.go:129-141 | none iff no ancestor is a function; otherwise the signature of the nearest one |
| ExplicitCast.Visit | src/explicitcast/explicitcast.go:87-159 | a call is checked argument by argument, an assignment target by target, a `return` against the nearest enclosing function's results, and any other node reports nothing; every report names a type its literal kind does not accept |
| ExplicitCast.WalkTree | src/explicitcast/explicitcast.go:87-159 | the same for a whole tree, which includes the root's reports |
| ExplicitCast.WalkTrees | src/explicitcast/explicitcast.go:87-159 | the same for a list of trees |
| ExplicitCast.FileReports | src/explicitcast/explicitcast.go:77-87 | files under `/usr` or `/opt` give nothing; otherwise the visits of every node in walk order, each with its ancestors, concatenated and stopping at the first fault |
| ExplicitCast.FileReportsVisitEveryNode | src/explicitcast/explicitcast.go:77-159 | outside `/usr` and `/opt`, a file succeeds exactly when every node's visit does, and then reports exactly what those visits report |
| ExplicitCast.VisitsOf | src/utils/utils.go:80-90 | one visit per listed node, in order, each with that node's ancestors |
| ExplicitCast.Concat | src/explicitcast/explicitcast.go:87-159 | succeeds exactly when every visit does, and then holds exactly their reports |
| ExplicitCast.ConcatAppend | src/explicitcast/explicitcast.go:87-159 | concatenating two runs of visits in turn is concatenating them together |
| ExplicitCast.VisitsOfAppend | src/utils/utils.go:80-90 | visiting two node lists in turn is visiting their concatenation |
| ExplicitCast.WalkTreeVisitsPreorder | src/utils/utils.go:80-90 | the walk of a tree is the visit of each of its nodes in preorder, each with its ancestors, stopping at the first fault |
| ExplicitCast.WalkTreesVisitsPreorder | src/utils/utils.go:80-90 | the same for a list of trees |
| ExplicitCast.AnyTypesWanted | src/explicitcast/explicitcast.go:16 | `interface{}`, `any` and their slices are in every want set |
| ExplicitCast.EmptyInterfaceAcceptsEverything | src/explicitcast/explicitcast.go:16-21 | nothing is ever reported against `interface{}` or `any` |
| ExplicitCast.NotInWantSet | src/explicitcast/explicitcast.go:15-24 | a non-slice type outside the names is not wanted |
| ExplicitCast.ForeignTypeReported | src/explicitcast/explicitcast.go:50-75 | a literal is reported against a non-slice type foreign to its kind |
| ExplicitCast.IntegerLiteralForFloat | src/explicitcast/explicitcast.go:61-74 | an integer literal for `float64` is reported |
| ExplicitCast.FloatLiteralForFloat | src/explicitcast/explicitcast.go:41-69 | a float literal for `float64` is not reported |
| ExplicitCast.OnlyLiteralsReported | src/explicitcast/explicitcast.go:51-54 | a non-literal is never reported |
| ExplicitCast.VariadicTail | src/explicitcast/explicitcast.go:101-109 | an argument in the variadic tail is checked against the last parameter |
| ExplicitCast.PrefixNotDirectory | src/explicitcast/explicitcast.go:79-85 | `/optimal/main.go` is skipped, because matching is by text prefix |
| LoopVariableRef.Scan | src/loopvariableref/loopVariableRef.go:37-59 | finds a verdict exactly when some layer declares the variable |
| LoopVariableRef.ScanRisk | src/loopvariableref/loopVariableRef.go:37-59 | the verdict is the nearest-crossing rule at the highest declaring layer |
| LoopVariableRef.Check | src/loopvariableref/loopVariableRef.go:31-60 | unresolved names change nothing; a declared variable's use is remembered, and reported exactly when risky |
| LoopVariableRef.StepTrans | src/loopvariableref/loopVariableRef.go:62-131 | walk steps compose |
| LoopVariableRef.StepKeepsDeclared | src/loopvariableref/loopVariableRef.go:62-131 | a walk step forgets no declared variable |
| LoopVariableRef.JudgedTrans | src/loopvariableref/loopVariableRef.go:62-131 | judging two identifier sets in turn judges their union |
| LoopVariableRef.JudgedAfter | src/loopvariableref/loopVariableRef.go:62-131 | a step touching only identifiers of a set, followed by a walk judging the set, judges the set |
| LoopVariableRef.JudgedPush | src/loopvariableref/loopVariableRef.go:97-111 | a walk under one more layer, once that layer is popped, judges the same identifiers from the enclosing stack |
| LoopVariableRef.FuncLitJudged | src/loopvariableref/loopVariableRef.go:97-104 | walking a literal's parameters, results and body under a fresh function layer judges the literal's identifiers from the enclosing stack |
| LoopVariableRef.Push | src/loopvariableref/loopVariableRef.go:97-111 | one more layer on top of the unchanged stack |
| LoopVariableRef.Pop | src/loopvariableref/loopVariableRef.go:126-130 | the top layer is removed |
| LoopVariableRef.Watch | src/loopvariableref/loopVariableRef.go:72-80 | the position is watched in the top layer |
| LoopVariableRef.VisitIdent | src/loopvariableref/loopVariableRef.go:112-123 | a judged or unresolved identifier is skipped; otherwise it is checked as a capture; it only judges itself |
| LoopVariableRef.VisitIdents | src/loopvariableref/loopVariableRef.go:112-123 | the layer stack is unchanged; every identifier of the list resolving to a declared variable is judged, and nothing else is |
| LoopVariableRef.Reference | src/loopvariableref/loopVariableRef.go:82-96 | `&x` judges `x` as a risky reference to it, `&x.f` judges `x` as a risky reference to a child, and any other operand is not judged; the layer stack is unchanged |
| LoopVariableRef.WalkExpr | src/loopvariableref/loopVariableRef.go:62-131 | the layer stack is left exactly as found; an identifier is visited as a capture; every identifier of the expression resolving to a declared variable is judged, and only the expression's identifiers are remembered or reported |
| LoopVariableRef.WalkFuncLit | src/loopvariableref/loopVariableRef.go:97-104 | the literal's signature and body are walked with one fresh function layer on top of the enclosing stack; afterwards the stack is the enclosing one, the body walk's seen identifiers and reports carry over, and every identifier of the literal resolving to a declared variable is judged |
| LoopVariableRef.WalkExprs | src/loopvariableref/loopVariableRef.go:62-131 | the layer stack is unchanged; every identifier of the list resolving to a declared variable is judged, and only those identifiers are remembered or reported |
| LoopVariableRef.WalkField | src/loopvariableref/loopVariableRef.go:62-131 | the same for a field's names and type |
| LoopVariableRef.WalkFields | src/loopvariableref/loopVariableRef.go:62-131 | the same for a field list |
| LoopVariableRef.WalkSpec | src/loopvariableref/loopVariableRef.go:62-131 | every identifier of the spec resolving to a declared variable is judged, and only those are remembered or reported |
| LoopVariableRef.WalkSpecs | src/loopvariableref/loopVariableRef.go:62-131 | the same for a spec list |
| LoopVariableRef.WatchRangeVars | src/loopvariableref/loopVariableRef.go:67-81 | a defining `range` watches its key and value in the top layer; other forms change nothing |
| LoopVariableRef.WalkRangeVars | src/loopvariableref/loopVariableRef.go:67-81 | the same for the key and value of a `range` |
| LoopVariableRef.WalkStmt | src/loopvariableref/loopVariableRef.go:62-131 | a `return` restores the stack; a defining `range` leaves its key watched and judges its body's uses of it; every identifier of the statement resolving to a declared variable is judged, and only those are remembered or reported |
| LoopVariableRef.WalkAssign | src/loopvariableref/loopVariableRef.go:62-131 | the same for an assignment |
| LoopVariableRef.WalkCall | src/loopvariableref/loopVariableRef.go:62-131 | the same for `go`/`defer` |
| LoopVariableRef.WalkReturn | src/loopvariableref/loopVariableRef.go:105-111 | the results are walked with one fresh `return` layer on top of the enclosing stack; afterwards the stack is the enclosing one, and the results' seen identifiers and reports carry over |
| LoopVariableRef.WalkRange | src/loopvariableref/loopVariableRef.go:67-81 | the key stays watched after the loop; the body is judged with the key and value already declared |
| LoopVariableRef.WalkStmts | src/loopvariableref/loopVariableRef.go:62-131 | the same for a statement list |
| LoopVariableRef.WalkNode | src/loopvariableref/loopVariableRef.go:62-131 | the same for a node |
| LoopVariableRef.WalkNodes | src/loopvariableref/loopVariableRef.go:62-131 | the same for nodes |
| LoopVariableRef.WalkDecl | src/loopvariableref/loopVariableRef.go:62-131 | the same for a top-level declaration, including a function without a body |
| LoopVariableRef.WalkDecls | src/loopvariableref/loopVariableRef.go:62-131 | the same for declarations |
| LoopVariableRef.FileReports | src/loopvariableref/loopVariableRef.go:62-131 | every report is at an identifier of the file |
| LoopVariableRef.RangeVariableUsesJudged | src/loopvariableref/loopVariableRef.go:67-123 | inside a `for k, v := range` loop every resolved use of `k` or `v` in the body, nested literals included, is judged |
| LoopVariableRef.CaptureInClosureReported | src/loopvariableref/loopVariableRef.go:97-123 | a loop variable used inside a closure is reported as a capture |
| LoopVariableRef.UseInLoopBodyAllowed | src/loopvariableref/loopVariableRef.go:112-123 | a use in the loop body is remembered but not reported |
| LoopVariableRef.ReturnedClosureAllowed | src/loopvariableref/loopVariableRef.go:53-58 | a closure under `return` does not make the capture risky |
| LoopVariableRef.ReturnInsideClosureStillReported | src/loopvariableref/loopVariableRef.go:53-58 | a `return` inside the closure does not excuse the capture |
| LoopVariableRef.AddressOfLoopVariable | src/loopvariableref/loopVariableRef.go:82-96 | `&x` of a loop variable is reported |
| CapturedErr.Check | src/capturederr/capturedErr.go:32-50 | reported exactly when an `error` variable is not declared in the current function's layer, with its name |
| CapturedErr.Positions | src/capturederr/capturedErr.go:52-68 | the positions of the identifiers, in order |
| CapturedErr.Declare | src/capturederr/capturedErr.go:77-91 | the names are appended to the top layer; lower layers and reports unchanged |
| CapturedErr.AddFuncVarDecls | src/capturederr/capturedErr.go:52-68 | parameters then named results are appended to the top layer |
| CapturedErr.StepTrans | src/capturederr/capturedErr.go:72-121 | walk steps compose |
| CapturedErr.WalkedTrans | src/capturederr/capturedErr.go:72-121 | walks in sequence compose: their nested targets, direct targets and declarations add up, and a report justified against the first walk's starting layer stays justified |
| CapturedErr.SpecNames | src/capturederr/capturedErr.go:79-90 | exactly the names of the value specs |
| CapturedErr.TargetReport | src/capturederr/capturedErr.go:93-99 | at most one report, exactly for a captured non-`_` identifier target |
| CapturedErr.CapturedTargets | src/capturederr/capturedErr.go:93-106 | exactly the reports of the captured targets |
| CapturedErr.AssignTarget | src/capturederr/capturedErr.go:92-106 | `=` checks the target; `:=` declares it in the top layer |
| CapturedErr.AssignTargets | src/capturederr/capturedErr.go:92-106 | `=` reports exactly the captured targets; `:=` declares every named target |
| CapturedErr.EnterAssignWalked | src/capturederr/capturedErr.go:92-106 | an assignment's own targets: `=` reports exactly the captured `error` ones, `:=` declares exactly the named ones |
| CapturedErr.EnterStmt | src/capturederr/capturedErr.go:74-114 | a declaration statement declares its value names in the top layer; an assignment checks or declares its targets; anything else is untouched; an `=` statement reports exactly its captured `error` targets |
| CapturedErr.WalkExpr | src/capturederr/capturedErr.go:72-121 | the stack is unchanged; every new report is at an `=` target inside the expression's function literals, naming an `error` variable |
| CapturedErr.WalkFuncLit | src/capturederr/capturedErr.go:107-120 | the literal's body is walked with one fresh layer holding exactly its parameters and named results on top of the enclosing stack; afterwards the stack is the enclosing one, the body's reports carry over, and every report is at an `error` target inside the literal |
| CapturedErr.FuncLitWalked | src/capturederr/capturedErr.go:107-120 | the walk of a literal's signature and body reports only `error` targets inside the literal |
| CapturedErr.WalkExprs | src/capturederr/capturedErr.go:72-121 | the same for expressions |
| CapturedErr.WalkFields | src/capturederr/capturedErr.go:72-121 | the same for fields |
| CapturedErr.SignatureLayer | src/capturederr/capturedErr.go:52-68 | a position is in a function's signature layer exactly when it is a parameter's or a named result's |
| CapturedErr.WalkSpec | src/capturederr/capturedErr.go:72-121 | the same for a spec |
| CapturedErr.WalkSpecs | src/capturederr/capturedErr.go:72-121 | the same for specs |
| CapturedErr.WalkStmt | src/capturederr/capturedErr.go:72-121 | the statement itself is entered before its children are walked; the top layer gains exactly its own declarations; every report names an `error` variable and is at an `=` target inside a nested literal, or at one outside them whose variable the top layer did not declare when the statement was entered; and each of its `=` targets outside nested literals naming an `error` variable that the final top layer does not declare is reported |
| CapturedErr.WalkChildren | src/capturederr/capturedErr.go:72-121 | the same for a statement's children |
| CapturedErr.WalkAssign | src/capturederr/capturedErr.go:92-106 | the operands of an assignment declare nothing and report only `error` targets inside their literals |
| CapturedErr.WalkRangeVars | src/capturederr/capturedErr.go:72-121 | the key and value of a `range` leave the stack unchanged and report only `error` targets inside their literals |
| CapturedErr.WalkCall | src/capturederr/capturedErr.go:72-121 | the same for `go`/`defer` |
| CapturedErr.WalkRange | src/capturederr/capturedErr.go:72-121 | the same as a statement's children, for `range` |
| CapturedErr.WalkStmts | src/capturederr/capturedErr.go:72-121 | the same as a statement, for statements in sequence |
| CapturedErr.WalkNode | src/capturederr/capturedErr.go:72-121 | the same for a node |
| CapturedErr.WalkNodes | src/capturederr/capturedErr.go:72-121 | the same for nodes |
| CapturedErr.FuncReports | src/capturederr/capturedErr.go:23-73 | a declaration group reports nothing; a function without a body fails with `MissingBody`, as the walk of its missing block panics; otherwise the body is walked from a fresh stack whose only layer is exactly the function's signature |
| CapturedErr.FuncReportsJudgeTargets | src/capturederr/capturedErr.go:23-121 | every report of a function names an `error` variable and is at an `=` target inside a nested literal, or at one outside them whose variable is neither a parameter nor a named result; and every `=` outside nested literals to an `error` variable that the function neither takes as parameter or named result nor declares in its body is reported |
| CapturedErr.SignatureAssignNotReported | src/capturederr/capturedErr.go:40-49 | an `=` outside nested literals to a parameter or named result is never reported, whatever the body |
| CapturedErr.FileReports | src/capturederr/capturedErr.go:23-123 | an empty file reports nothing; a file fails exactly when one of its functions has no body |
| CapturedErr.FileReportsSplit | src/capturederr/capturedErr.go:23-123 | the analysis of two halves of a file is the first half's reports followed by the second's, the first fault stopping the whole |
| CapturedErr.SignatureProtects | src/capturederr/capturedErr.go:52-70 | assigning a parameter of the current function is not reported |
| CapturedErr.LowerLayersIgnored | src/capturederr/capturedErr.go:40-49 | a declaration in an outer function's layer does not protect |
| CapturedErr.CapturedAssignReported | src/capturederr/capturedErr.go:92-99 | `err = f()` inside a closure, with `err` from outside, is reported |
| CapturedErr.RedeclaredErrAllowed | src/capturederr/capturedErr.go:100-105 | after `err := ...` in the closure, later uses of that `err` are not reported |

## Left out

- Analyzer registration, `New()` constructors, flag handling and the command-line entry point (`src/vinego.go`): these wire the passes into the Go analysis framework and hold no logic.
- The global-variable loop of the varinit `New()` (src/varinit/varinit.go:472-517): driving `EvalFunc` over a package's files and resolving globals needs the type checker and the CFG builder, which are inputs here.
- The `BlockComment` regex (src/varinit/varinit.go:314-318): a block's label is given as a string in `Ast.Block`.
- Diagnostic message text and `Fset` position rendering: a report keeps the position, the variable and the blamed branches, not the formatted string.
- `Doc.Text()` comment stripping and `reflect.StructTag` parsing: the doc text and the value of the `optional` key are inputs.
- The type checker (`TypesInfo.Uses`, `Defs`, `Types`, `TypeOf`) and the CFG builder: both are inputs.
- Utils.Walk and Utils.WalkWithCrumbs (src/utils/utils.go:57-92): modelled by the structural recursion of each pass's walk, not as separate higher-order functions.
- Utils.Remove: Go panics when `start + count` exceeds the length. The model makes the in-range bounds a precondition instead of modelling the panic.
- Utils.Last: requires a non-empty slice, where Go would panic on index -1.
- BlockOrder.OrderBlocks: enumerates the pending blocks in ascending order, whereas Go ranges over a map in random order. BlockOrder.Pass is proved for every enumeration order, but the driver fixes one.
- VarInit.EvalFunc: a dependency cycle, which panics in Go (src/varinit/varinit.go:384), is the `OrderingCycle` failure. Its own contract states the cycle fault, log growth and the result's location; what the result holds, and that every stored block scope solves the dataflow equations, is stated by VarInit.FunctionJoinsExits.
- VarInit.FunctionJoinsExits: each block's stored scope is what its nodes produce from its start scope with some log of earlier reports; which log is left open, since the earlier blocks' reports are stated by the log-growth clauses only.
- VarInit.EvalStmt: several behaviours follow the code as written:
  - a closure under `go` or `defer` is evaluated with no input scope, and its result is dropped;
  - a `go`/`defer` of a non-literal function evaluates the arguments twice;
  - `x := 1` tracks nothing;
  - `x += 1` marks `x` assigned without reading it;
  - a declaration statement whose specs are not all value specs visits the whole declaration once per spec.
- VarInit.EvalCallArgs: its own contract states log growth and the reads of side-effect-free arguments. A literal argument replacing the scope, and any other argument evaluated as an expression, are stated by VarInit.EvalCallArg, and the left-to-right order by VarInit.CallArgsSnoc.
- VarInit.RunBlock: its own contract states the block's location and log growth only. That it evaluates the block's nodes from the start scope is stated by VarInit.BlockRunsFromStartScope, and what that scope holds by VarInit.StartScope.
- VarInit.EvalExpr: the called function is evaluated only when it is a literal, so `f(x)` does not read `f`. The read rule is stated for operands holding no function literal and no `&x`; `&x` is covered by VarInit.AddressOfAssigns and VarInit.AddressOfFieldReads, and a literal by VarInit.EvalClosure and VarInit.EvalCallArg.
- VarInit.EvalStmts: the read rule is stated for expression statements and `return`s; an assignment is covered by VarInit.AssignmentMarksTargets and a declaration by VarInit.EvalVarDeclBlock. For `range` and the unmodelled statements the list's own contract states log growth only.
- VarInit.EvalVarDecl: `var y = x` visits only the children of `x`, so it reads nothing and does not track `y`.
- VarInit.CheckNamedReturns: a named result is checked through `CheckUseByDecl` with its own position as the variable. This bypasses the `reported` table, so a named result can be reported both at a use site and at the exit. The log's once-per-variable rule is therefore stated for use sites only.
- VarInit.FinishFunc: a closure with no exit block returns an empty scope, which then replaces the caller's tracked variables.
- Scopes.Blame: when two inputs blame the same branch, the label of the later input wins, as in the Go map overwrite. The contract says only that the label comes from some contributing input.
- ExplicitCast.FileReports: `/usr` and `/opt` are matched as text prefixes, so a file under `/optimal` is skipped too. The panics on a missing parameter or result index and on a `return` outside any function are the `CastFault` failures. The default-kind panic is ruled out by `LitKind`.
- ExplicitCast.CheckLit: types are compared by their printed names. There is no `types.Type` structure.
- LoopVariableRef.FileReports: its own contract says every report is at an identifier of the file. That a use is remembered is stated per tree by the walk members, for variables already declared when the walk of that tree starts; a loop variable declared inside the tree is covered by LoopVariableRef.WalkRange and LoopVariableRef.RangeVariableUsesJudged. Whether a remembered use is reported is stated per identifier by `Check`, not per tree.
- CapturedErr.WalkStmt: the completeness clause exempts a target whose variable the final top layer declares, not the layer at the time of the assignment. The two agree in Go, where a variable is declared before any use of it.
- CapturedErr.FuncReportsJudgeTargets: the soundness clause says that a report outside nested literals never names a parameter or named result. It does not say that an `=` after a `:=` of the same variable in the body goes unreported, because the target sets carry no order. RedeclaredErrAllowed shows that case for one assignment.
- Ast.ValueSpec: the optional type expression of a value spec (`var a [n]T = ...`) is not part of the syntax tree. Go's inspector visits it between the names and the values. So VarInit.RecurseValueSpec, the LoopVariableRef walks and the CapturedErr walks skip its identifiers. This matters only for a type that mentions a local variable or a function literal.
- LoopVariableRef.VisitIdent: every identifier reached by the walk is looked up in `Uses`, as in the source, including selector fields, composite-literal keys and defining occurrences. Selector fields and literal keys do resolve in `Uses`, to struct fields or methods. No layer declares those, so they neither mark nor report. Defining occurrences are in `Defs`, not in `Uses`, so they are skipped.
- CapturedErr.AddFuncVarDecls: like the source, it does not add a method's receiver, so assigning a receiver of type `error` inside the method body is checked like any other variable.
- ScanTypeTags.ScanFile: the declarations are given as the sequence of `GenDecl`s the AST search finds. Each type spec's name must be resolved in `Defs`.
- The test harness (`src/testutils/testUtils.go`, `analysistest`): test files are modelled as lemmas about concrete inputs, not executed.
