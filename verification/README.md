# A verified model of CppADCodeGen's graph algorithms

This project models the algorithms with which CppADCodeGen manipulates operation graphs and equation
systems, and proves what they promise. Check everything with `dafny verify dfyconfig.toml`.

**Structural index reduction.** `Matching` holds the theory of one augmenting-path search: the invariants of
the search tree, and the certificate that a failed search leaves behind. `BipartiteGraph` is the mutable graph,
its nodes named by their index and every field of `Enode` and `Vnode` a list over these indices.
`AugmentPathDepthLookahead`, `AugmentPathDepthLookaheadA` and `Pantelides` are the recursive searches and the
driver. `Coverage` is the theory of when differentiating comes to an end, and `ReductionRuns` describes the rounds
of the driver without matchings and paths; `ReductionExamples` are three models. The main results: a search finds a
path exactly when the matched equations and the new one can be covered together, and otherwise colours the smallest
set of equations that has fewer variables than equations; every failed search costs exactly one degree of freedom; a
run that ends normally has matched every equation without a derivative to a variable of its own, and shows that every
equation of the model contains a variable that counts as its own, where a variable and its derivatives count as one.
Such a cover bounds the number of failed searches. How a run ends is determined by the structure of the model and the
order of its equations: a run with enough searches ends normally exactly if there is a cover and no equation of the
model is *stranded* when the first search for it starts, that is, all its variables have derivatives and no equation
has one of these that has no derivative yet.

**Sparse Jacobians and Hessians.** `SparseForJacHessian` is the greedy colouring and the sweeps. The main
result: every requested entry comes out as the matrix entry, for all patterns, requests, and matrices supported
on the patterns; the colouring is the greedy one, and the conflicts it respects are exactly those that would lose a
requested entry of some matrices with these patterns.

**Source generation.** `OperationGraph` defines expression graphs with aliases, what they denote, and the
explicit-stack traversal; `LiveNodes` says what uses a node, through aliases or directly. `UsageCount`,
`VariableIds`, `EvaluationQueue`, `DepthFirst`, `EvaluationOrder`, `LastUsage` and `TemporaryReuse` are the theory
of the passes of `CodeHandler`; `Execution` gives the generated statements a meaning. The main result: running the
statements in the chosen order with the reused ids gives every dependent the value that the graph denotes, whatever
the operations mean, the inputs are, and the variables held before, exactly if every alias among the dependents
comes before all dependents that depend on it; the statements are in the order of the recursive depth-first visit
that the explicit stack stands for; the ids of independents and dependents are their positions, and the number of
reused ids is the peak number of temporaries that are needed at the same time. `ArraySpaces` and `ArrayIdCompresser`
place one temporary array in the array that all of them share, and `ArrayReuse` runs them over all statements:
arrays in use share no cell, nothing is overwritten while it is copied, and there are new cells only when no gap is
large enough.

**Symbolic solver.** `Arithmetic` has the folding operators, `PathGraph` and `SingleBifurcation` find the ways from
an expression to a variable, `PathInversion` and `Solver` undo the operations on a way, and `CloneSetting`,
`EvaluatorSolve`, `Coefficients`, `CollectVariableAddSub` and `CollectVariable` join two occurrences of the variable.
`CloneReach` and `PathCount` show that this leaves fewer bifurcations. Worlds (`OperationGraph.World`) fix the
operations, the independent variables, and the values of chosen nodes, so that substituting a value for the
variable is evaluating in another world. The main results: the solver terminates, because every round leaves fewer
bifurcations, and whenever it fails there is one of five reasons; the value found is the only solution wherever the
operations on the way are defined; joining occurrences changes the value by an exactly known amount.

**Other algebra.** `Evaluator` is the memoising evaluation, `Ranges` the sets of loop iterations, and
`SparsityPatterns` the products of Boolean matrices.

## Where the code differs from what it promises

- `collectVariableAddSub` (`include/cppad/cg/collect_variable.hpp:167`) looks at the argument index of the node
  *above* a subtraction, although a path stores with each node the index of the argument that leads on. The model
  keeps the code. `CollectedIsSame` says by how much the result differs and exactly when it does not differ;
  `WrongSignExample` is `x + (x - y)`, from which `2 x` disappears.
- `solveFor` returns the variable itself when the expression *is* the variable
  (`include/cppad/cg/solver.hpp:31-32`), although the solution of `x = 0` is zero. `ReturnedMakesZero` joins both
  cases: what is returned makes the expression zero exactly if the expression is not the variable, or the variable
  happened to be zero.
- An alias that is a dependent gets an id from the start (`include/cppad/cg/code_handler_impl.hpp:326-331`), but is
  queued only when its own turn comes (lines 1519-1520), so that a dependent before it reads its variable before it
  is assigned. The model keeps the code. `GenerateCode` has the exact condition, `AliasesFirst`, on the graph and the
  order of the dependents; `EarlyReadSpoils` shows that some dependent is wrong whenever the condition fails, and
  `AliasReadTooEarly` is the run for dependents `D = A + x` and `A`, an alias of `x * x`.
- The check on new equations is said to avoid infinite recursion, and its error says that the model appears to be
  over-defined (`include/cppad/cg/dae_index_reduction/pantelides.hpp:157-170`). It does neither: it fails exactly if the
  current equation is stranded (`SearchOrDifferentiate`), which can only happen at the first search for an equation of
  the model (`FindPath`, `StrandedAtFirstSearch`), before any recursion. So it is `MeetsStranded` that decides on the
  error, whether the model is covered or not, and a cover that decides between a normal end and differentiating for
  ever when there is no error (`DetectSubset2Dif`, `OutcomeIsDecided`). `CrowdedRun` is a model of four equations for
  four unknown variables, three of them over the same two, that has no cover and is differentiated for ever. `LateRun`
  is `y' = v`, `z' = w`, `v' = a`, `w' = b`, `y + z = 1`, `y - z = 0`, which is covered and is rejected as over-defined;
  `EarlyRun` shows that the same equations are accepted when the two constraints come first.

## Model

| member | source | states |
|---|---|---|
| Matching.CertificateCount | include/cppad/cg/dae_index_reduction/augment_path_depth_lookahead.hpp:37-79 | after a failed search there is exactly one coloured equation more than coloured variables |
| Matching.CertificateRefutes | include/cppad/cg/dae_index_reduction/augment_path_depth_lookahead.hpp:37-79 | no matching covers the coloured equations, or any larger set (Hall's condition fails) |
| Matching.RootFailure | include/cppad/cg/dae_index_reduction/augment_path_depth_lookahead.hpp:37-79 | a search that fails from an uncoloured graph leaves that certificate, so the matched equations and the new one cannot be covered together |
| Matching.FailureIsLeast | include/cppad/cg/dae_index_reduction/augment_path_depth_lookahead.hpp:37-79 | the equations that it colours are contained in every set of the matched equations and the new one that has fewer variables than equations, and are such a set themselves; the coloured variables are exactly theirs |
| Matching.DeficientIsClosed | include/cppad/cg/dae_index_reduction/augment_path_depth_lookahead.hpp:37-79 | a set of these equations with fewer variables than equations contains the new one, and the equation that any of its variables is matched with |
| Matching.RootSuccess | include/cppad/cg/dae_index_reduction/augment_path_depth_lookahead.hpp:37-79 | a search that succeeds leaves a matching of the old equations and the new one, and nothing else |
| Matching.TakeFree | include/cppad/cg/dae_index_reduction/augment_path_depth_lookahead.hpp:42-62 | assigning a free variable matches the equation in addition, with all other links intact |
| Matching.TakeOver | include/cppad/cg/dae_index_reduction/augment_path_depth_lookahead.hpp:65-74 | taking over a variable whose equation found another one matches the equation in addition; links stay mutually inverse |
| Matching.Resume | include/cppad/cg/dae_index_reduction/augment_path_depth_lookahead.hpp:65-74 | after a failed attempt below, the search tree is intact and everything newly reached is closed |
| BipartiteGraphs.BipartiteGraph.constructor | include/cppad/cg/dae_index_reduction/bipartite_graph.hpp:204-233 | the graph built from a sparsity pattern: every equation lists its variables in the given order, each once; edge lists agree in both directions, nothing is assigned, coloured or deleted |
| BipartiteGraphs.BipartiteGraph.IsWellDetermined | include/cppad/cg/dae_index_reduction/bipartite_graph.hpp:234-250 | accepts exactly if there are as many equations as variables that are no parameters and are derivatives or have none |
| BipartiteGraphs.BipartiteGraph.SetAssignmentEquation | include/cppad/cg/dae_index_reduction/bipartite_nodes.hpp:372-380 | both directions of the assignment are set, nothing else changes |
| BipartiteGraphs.BipartiteGraph.DeleteNode | include/cppad/cg/dae_index_reduction/bipartite_nodes.hpp:356-366 | the variable and all its edges disappear from both edge lists, its original occurrences stay |
| BipartiteGraphs.EraseAt | include/cppad/cg/dae_index_reduction/bipartite_nodes.hpp:356-366 | deleting an edge takes the first entry for its other end out of a list and keeps the order of the others |
| BipartiteGraphs.BipartiteGraph.AddVariable | include/cppad/cg/dae_index_reduction/bipartite_nodes.hpp:143-151 | an occurrence is recorded once, and an edge only if the variable is not deleted |
| BipartiteGraphs.BipartiteGraph.CreateVariableDerivative | include/cppad/cg/dae_index_reduction/bipartite_graph.hpp:384-399 | a derivative is created only if there is none, and is linked in both directions |
| BipartiteGraphs.BipartiteGraph.DirtyDifferentiateEq | include/cppad/cg/dae_index_reduction/bipartite_graph.hpp:498-512 | the new equation lists the variables of the old one in their order, each followed by its derivative, and nothing twice; its edges are the live ones among them, in this order; no variable is created if all have derivatives |
| BipartiteGraphs.BipartiteGraph.CreateEquationDerivative | include/cppad/cg/dae_index_reduction/bipartite_graph.hpp:401-416 | an equation is differentiated once; the new one is linked, unassigned and uncoloured, and lists its variables in the order of the old one |
| BipartiteGraphs.FirstFreeIsFirst | include/cppad/cg/dae_index_reduction/augment_path_depth_lookahead.hpp:42-62 | the variable that is taken is free, of the kind asked for, and every variable before it is assigned or of the other kind |
| BipartiteGraphs.PreferredIsFirst | include/cppad/cg/dae_index_reduction/augment_path_depth_lookahead.hpp:42-62 | a free derivative is preferred and is the first one; a free algebraic variable is taken only if no derivative is free, and is the first one |
| AugmentPathDepthLookahead.AugmentPath | include/cppad/cg/dae_index_reduction/augment_path_depth_lookahead.hpp:37-79 | terminates; on failure nothing is reassigned and what was reached is closed; on success exactly the equation is matched in addition; from an uncoloured graph the answer decides coverability; the first free derivative is taken at once, or else the first free algebraic variable (`PreferredIsFirst`), and otherwise the first variable of the row is taken over through which there is a path |
| AugmentPathDepthLookaheadA.AugmentPath | include/cppad/cg/dae_index_reduction/augment_path_depth_lookahead_a.hpp:39-75 | the same for the search restricted to highest-order derivatives, whose variables are not coloured: it takes the first free one, or else takes over the first one through which there is a path |
| AugmentPathDepthLookaheadA.FirstFreeHighestIsFirst | include/cppad/cg/dae_index_reduction/augment_path_depth_lookahead_a.hpp:40-54 | the variable that is taken is a free derivative without a derivative, and every variable before it is not |
| Pantelides.DeleteDifferentiated | include/cppad/cg/dae_index_reduction/pantelides.hpp:124-132 | exactly the variables with derivatives are deleted |
| Pantelides.UncolorAll | include/cppad/cg/dae_index_reduction/bipartite_graph.hpp:374-382 | no node is coloured |
| Pantelides.DifferentiateVariables | include/cppad/cg/dae_index_reduction/pantelides.hpp:138-146 | every coloured variable without a derivative gets one, in the order of the variables, and no other variable is created |
| Pantelides.DifferentiateEquations | include/cppad/cg/dae_index_reduction/pantelides.hpp:148-155 | every coloured equation without a derivative gets one, in the order of the equations, and differentiating creates no further variables |
| Pantelides.CheckNewEquations | include/cppad/cg/dae_index_reduction/pantelides.hpp:157-170 | accepts exactly when every new equation shares a variable with another equation |
| Pantelides.OthersAreConnected | include/cppad/cg/dae_index_reduction/pantelides.hpp:157-170 | the derivative of a coloured equation other than the current one shares with it the variable that it is matched with, so only the current equation can fail the check |
| Pantelides.CheckFindsStranded | include/cppad/cg/dae_index_reduction/pantelides.hpp:157-170 | the new equations pass the check exactly if the current equation is not stranded |
| Pantelides.Rematch | include/cppad/cg/dae_index_reduction/pantelides.hpp:172-177 | the derivative of each coloured variable is assigned to the derivative of its equation, nothing else changes |
| Pantelides.FailedStep.FailureKeepsInvariant | include/cppad/cg/dae_index_reduction/pantelides.hpp:137-180 | after differentiating and rematching, the variables without derivatives again match exactly the equations without derivatives except the current one |
| Pantelides.FailedStep.RematchedIsMatching | include/cppad/cg/dae_index_reduction/pantelides.hpp:172-177 | the rematched variables form a matching along real edges |
| Pantelides.DeletionKeepsInvariant | include/cppad/cg/dae_index_reduction/pantelides.hpp:124-132 | deleting variables with derivatives does not disturb the matching |
| Pantelides.SearchOrDifferentiate | include/cppad/cg/dae_index_reduction/pantelides.hpp:118-189 | a path is found exactly if the equations at hand can be covered by their live variables; otherwise the smallest set of them with too few variables is differentiated; the check fails exactly if the current equation was stranded, that is, all its variables have derivatives and no equation has one of these live |
| Pantelides.DetectSubset2Dif | include/cppad/cg/dae_index_reduction/pantelides.hpp:110-196 | the rounds are a run in the sense of `ReductionRuns`; degrees of freedom drop by one per failed search and not otherwise; a normal end leaves every equation without a derivative with a variable of its own that occurs in it, is not deleted and has no derivative, and shows that the model is covered by distinct derivative chains; every cover bounds the number of failed searches; the error comes exactly if an equation of the model is stranded when it is met; without a cover, a run that does not meet one is never finished, and with a cover and enough searches it ends normally |
| ReductionRuns.GoingOnIsNotStranded | include/cppad/cg/dae_index_reduction/pantelides.hpp:157-180 | after a round that passed the check, the derivative of the equation has a live variable, or is differentiated alone and keeps the live derivative that it shares |
| ReductionRuns.StrandedAtFirstSearch | include/cppad/cg/dae_index_reduction/pantelides.hpp:157-170 | whenever the current equation is stranded, it is an equation of the model and searched for the first time |
| ReductionRuns.ErrorIffStranded | include/cppad/cg/dae_index_reduction/pantelides.hpp:157-170 | a run ends with the error exactly if one of its searches is the first one for an equation of the model that is stranded then |
| ReductionRuns.CoverBoundsFailures | include/cppad/cg/dae_index_reduction/pantelides.hpp:110-196 | no run has more failed searches than a cover of the model has derivatives to spare, so none with that many searches and one for every equation is cut short |
| ReductionRuns.ReducedIsCovered | include/cppad/cg/dae_index_reduction/pantelides.hpp:110-196 | a run that deals with all equations shows that the model is covered |
| ReductionRuns.OutcomeIsDecided | include/cppad/cg/dae_index_reduction/pantelides.hpp:110-196 | how every run ends, in terms of the existence of a cover and of stranded equations, in both directions |
| ReductionRuns.OutcomeIsUnique | include/cppad/cg/dae_index_reduction/pantelides.hpp:110-196 | two runs for the same structure, with variables listed in any order within an equation, take the same number of rounds and end alike: the paths that the searches find do not matter |
| ReductionExamples.CrowdedNeverEnds | include/cppad/cg/dae_index_reduction/pantelides.hpp:157-170 | for the rows {0,1}, {0,1}, {0,1}, {2,3} over four algebraic variables there is no cover, no equation is ever stranded, and no run ends, however many searches are allowed |
| ReductionExamples.LateIsRejected | include/cppad/cg/dae_index_reduction/pantelides.hpp:157-170 | two points with velocities and accelerations and two constraints, listed last: there is a cover, no run ends normally, and every run of ten searches ends with the error |
| ReductionExamples.EarlyIsReduced | include/cppad/cg/dae_index_reduction/pantelides.hpp:157-170 | the same equations with the constraints listed first: no run ends with the error, and every run of ten searches ends normally |
| ReductionExamples.CrowdedRun | include/cppad/cg/dae_index_reduction/pantelides.hpp:110-196 | the algorithm on the first model: it passes the check of the constructor and is cut short for every number of searches |
| ReductionExamples.LateRun | include/cppad/cg/dae_index_reduction/pantelides.hpp:110-196 | the algorithm on the second model: it passes the check of the constructor, and ends with the error if it may search ten times |
| ReductionExamples.EarlyRun | include/cppad/cg/dae_index_reduction/pantelides.hpp:110-196 | the algorithm on the third model: it ends normally if it may search ten times |
| Pantelides.FindPath | include/cppad/cg/dae_index_reduction/pantelides.hpp:117-189 | the inner loop: it goes on to derivatives until one is matched; it ends with the error exactly if the equation of the model is stranded at the start, and then after its first search |
| Coverage.StepTakesSlack | include/cppad/cg/dae_index_reduction/pantelides.hpp:137-155 | differentiating after a failed search turns a cover into a cover whose chains have fewer derivatives to spare |
| Coverage.MovedCovers | include/cppad/cg/dae_index_reduction/pantelides.hpp:137-155 | the derivative of a variable that covers an equation covers the derivative of the equation |
| Coverage.CoverColoredCount | include/cppad/cg/dae_index_reduction/pantelides.hpp:137-146 | no more chains of a cover are differentiated than variables are coloured |
| Coverage.YoungestColoredCount | include/cppad/cg/dae_index_reduction/pantelides.hpp:148-155 | every coloured equation is the youngest derivative of a different equation of the model |
| Coverage.MatchedWasCovered | include/cppad/cg/dae_index_reduction/pantelides.hpp:110-196 | a matching of the youngest derivatives comes from a cover of the model |
| SparseForJacHessian.ComputeNotUsed | include/cppad/cg/extra/sparse_forjac_hessian.hpp:214-234 | row j lists exactly the nonzero entries of column j that were not asked for |
| SparseForJacHessian.ForbiddenColors | include/cppad/cg/extra/sparse_forjac_hessian.hpp:351-423 | the four loops meet every earlier index that would spoil a result or have one spoilt |
| SparseForJacHessian.PickColor | include/cppad/cg/extra/sparse_forjac_hessian.hpp:343-432 | the search for a free colour stops at a colour not above the index, and no index met has that colour |
| SparseForJacHessian.ColorForwardJacobianHessian | include/cppad/cg/extra/sparse_forjac_hessian.hpp:236-434 | no two indices of one colour spoil each other's requested results; every index gets the smallest colour that no earlier index it conflicts with has, hence at most its own number |
| SparseForJacHessian.ForwardRecovers | include/cppad/cg/extra/sparse_forjac_hessian.hpp:625-650 | a requested Jacobian entry is a component of the forward product for its colour |
| SparseForJacHessian.ReverseRecovers | include/cppad/cg/extra/sparse_forjac_hessian.hpp:652-675 | a requested Hessian entry is an odd component of the reverse product for its colour |
| SparseForJacHessian.GoodIfRecovers | include/cppad/cg/extra/sparse_forjac_hessian.hpp:236-434 | a colouring keeps results apart exactly if its sweeps recover every requested entry of every Jacobian and Hessian with these patterns, so the conflicts between indices are exactly the necessary ones |
| SparseForJacHessian.SparseForjacHessianWork.PrepareJac | include/cppad/cg/extra/sparse_forjac_hessian.hpp:44-70 | the requests sorted by column, closed by sentinels, and reused if already there |
| SparseForJacHessian.SparseForjacHessianWork.PrepareHes | include/cppad/cg/extra/sparse_forjac_hessian.hpp:120-143 | the requests sorted by row with their original positions |
| SparseForJacHessian.FirstOfColor | include/cppad/cg/extra/sparse_forjac_hessian.hpp:599-623 | finds the first sorted request of a colour, or that there is none |
| SparseForJacHessian.Extract | include/cppad/cg/extra/sparse_forjac_hessian.hpp:638-674 | the cursor loop copies the results of the colour to its requests and to no others |
| SparseForJacHessian.SparseForJacHessian | include/cppad/cg/extra/sparse_forjac_hessian.hpp:566-681 | jac[k] and hes[h][k] are the requested entries for all k and h; the colouring is the greedy one, or the one of an earlier call; there are as many sweeps as colours with a request and colours with a Hessian request |
| OperationGraph.PushNodeArguments | include/cppad/cg/operation_stack.hpp:128-139 | the operation arguments of a node are pushed, last one first |
| OperationGraph.PushedInReverse | include/cppad/cg/operation_stack.hpp:128-139 | the elements pushed for the arguments of a node are in decreasing order of their positions |
| OperationGraph.TraversalEnter | include/cppad/cg/operation_stack.hpp:195-205 | entering a node keeps the traversal complete: what is not visited waits on the stack; the remaining work decreases |
| OperationGraph.TraversalPop | include/cppad/cg/operation_stack.hpp:207-214 | leaving a node keeps the traversal complete, also if the node is an alias that is never marked, and the remaining work decreases |
| OperationGraph.TraversalEnd | include/cppad/cg/operation_stack.hpp:193-217 | when the stack is empty all arguments of the root are visited, or are aliases that lead to visited nodes |
| DepthFirst.FinishPushed | include/cppad/cg/operation_stack.hpp:128-139 | taking the pushed elements off the stack amounts to visiting the arguments recursively, first to last |
| DepthFirst.FinishEnter | include/cppad/cg/operation_stack.hpp:195-205 | replacing an element by its node and the arguments of that node leaves the order in which everything is finished as it was |
| CodeHandlers.CodeHandler.SharedNodesCreate | include/cppad/cg/code_handler_impl.hpp:738-828 | if nodes with a use count above one get variables, a node without a variable has a single use, directly or through aliases, and is no dependent |
| UsageCount.CountNode | include/cppad/cg/code_handler_impl.hpp:740-828 | counting a use keeps the counts exact: every counted use is one argument of a counted node or one dependent, passed on by aliases, and none is counted twice |
| CodeHandlers.CodeHandler.CountUses | include/cppad/cg/code_handler_impl.hpp:335-343 | after all dependents the count of every node is the number of its uses by live nodes and as a dependent, through aliases too, and the target language is asked with that number |
| UsageCount.CountIsExact | include/cppad/cg/code_handler_impl.hpp:738-828 | the count of a node, alias or not, is the size of the set of its live uses |
| LiveNodes.CarriedOnce | include/cppad/cg/code_handler_impl.hpp:751-759 | following aliases brings a use to a node by one argument only |
| CodeHandlers.CodeHandler.InitialIds | include/cppad/cg/code_handler_impl.hpp:317-333 | the k-th independent gets the id k; the dependents that are operations get the next ids in the order in which they occur first; the first temporary id follows |
| VariableIds.EveryIdIsUsed | include/cppad/cg/lang/c/lang_c_default_var_name_gen.hpp:101-110 | so the ids below the first temporary one are used without gaps, and the id of an independent is one more than its position in the generated source |
| EvaluationQueue.AppendNode | include/cppad/cg/code_handler_impl.hpp:1612-1633 | a node whose arguments are visited may be queued: every queued node comes after all queued nodes below it |
| CodeHandlers.CodeHandler.CompleteAnalysis | include/cppad/cg/code_handler_impl.hpp:1458-1601 | a node seen for the first time is queued exactly if it needs a statement, with a new id if it has none, and an alias never; order, ids and completeness are kept |
| CodeHandlers.CodeHandler.NavigateTop | include/cppad/cg/operation_stack.hpp:193-217 | no step changes the list of nodes that is obtained by finishing everything on the stack |
| EvaluationQueue.FrameDecides | include/cppad/cg/code_handler_impl.hpp:1565-1569 | looking at one use is enough to know whether any live use requires a variable, because a node without one has a single use |
| CodeHandlers.CodeHandler.CheckVariableCreation | include/cppad/cg/code_handler_impl.hpp:1444-1609 | terminates with everything below the root visited and queued in order: the nodes are finished as if the arguments were visited recursively, first to last |
| CodeHandlers.CodeHandler.DetermineVariableOrder | include/cppad/cg/code_handler_impl.hpp:317-374 | the queue has exactly the live nodes that need a statement, in the order of the recursive depth-first visit of the dependents; it is a schedule: each node once, after the queued nodes other than aliases that it reads directly or through inlined nodes; it is also in order for aliases exactly if every alias among the dependents comes before all dependents that depend on it; temporaries have consecutive ids in its order |
| EvaluationQueue.QueueIsSchedule | include/cppad/cg/code_handler_impl.hpp:350-370 | when all dependents are visited the queue holds exactly the live operations that are dependents, or are no aliases and get a variable or are read where a variable is required |
| EvaluationQueue.InOrderIfAliasesFirst | include/cppad/cg/code_handler_impl.hpp:1519-1520 | no statement reads a variable that is computed later exactly if every alias among the dependents comes before what depends on it |
| CodeHandlers.CodeHandler.DependentAdded2EvaluationQueue | include/cppad/cg/code_handler_impl.hpp:1970-1986 | everything a statement needs has an evaluation order, not above that of its user |
| CodeHandlers.CodeHandler.SetEvaluationOrders | include/cppad/cg/code_handler_impl.hpp:393-397 | queued nodes are numbered by position, inlined nodes with a statement they belong to |
| EvaluationOrder.ComputedBefore | include/cppad/cg/code_handler_impl.hpp:1970-1986 | a queued node that is no alias is computed strictly before every statement that reads it, directly or through aliases |
| EvaluationOrder.InlinedOnce | include/cppad/cg/code_handler_impl.hpp:1970-1986 | an inlined node is evaluated in the statement of the only node that takes it |
| EvaluationOrder.UsedLater | include/cppad/cg/code_handler_impl.hpp:1656-1664 | a temporary is used for the last time after its own statement, so its release position exists |
| CodeHandlers.CodeHandler.DetermineLastTempVarUsage | include/cppad/cg/code_handler_impl.hpp:1873-1967 | terminates; visited nodes have told their arguments, and what these are aliases of, when they use them |
| LastUsage.UsageEnd | include/cppad/cg/code_handler_impl.hpp:1640-1654 | after all dependents the last use of every node is known exactly |
| CodeHandlers.CodeHandler.CollectReleases | include/cppad/cg/code_handler_impl.hpp:1656-1665 | a statement releases exactly the single temporaries it reads for the last time, each once |
| TemporaryReuse.AssignId | include/cppad/cg/code_handler_impl.hpp:1689-1698 | the id a temporary takes belongs to no temporary that is still needed |
| TemporaryReuse.PeakNext | include/cppad/cg/code_handler_impl.hpp:1689-1698 | the number of ids stays the largest number of temporaries needed after one statement |
| TemporaryReuse.StackAssign | include/cppad/cg/code_handler_impl.hpp:1689-1698 | the free ids are on a stack in the order of their releases; a temporary takes the one that was released last |
| CodeHandlers.CodeHandler.ReassignIds | include/cppad/cg/code_handler_impl.hpp:1667-1708 | single temporaries share an id only if the first is not read after the second is written; the id count is the peak of live temporaries; every temporary takes the free id that was released last, and a new one only if none is free; other ids are unchanged |
| CodeHandlers.CodeHandler.GenerateCode | include/cppad/cg/code_handler_impl.hpp:317-404 | the order and the ids form a valid program, with and without reuse; exactly the nodes that need a statement have one, in the order of the recursive visit; independents and dependents keep the ids that their positions give them, and without reuse the temporaries have consecutive ids in the order of the queue; with reuse the ids follow from the last uses as `ReassignIds` says; the program gives every dependent its value exactly if every alias among the dependents comes before all dependents that depend on it |
| Execution.WriteIsSafe | include/cppad/cg/code_handler_impl.hpp:1667-1708 | a statement overwrites no input, no result, and no temporary that is read later |
| Execution.OperandHolds | include/cppad/cg/code_handler_impl.hpp:1970-1986 | what a statement reads, from a variable, inlined, or by way of aliases, is what the graph denotes there |
| Execution.EarlyReadSpoils | include/cppad/cg/code_handler_impl.hpp:1519-1520 | whenever a statement reads a variable that is computed later, some dependent is wrong for some operations and initial values |
| Execution.AliasReadTooEarly | include/cppad/cg/code_handler_impl.hpp:1519-1520 | for the dependents D = A + x and A, an alias of x * x, D is computed from what the variable of A held before |
| CodeHandlers.AliasExampleRun | include/cppad/cg/code_handler_impl.hpp:317-404 | source generation for these dependents decides on a program that is not correct |
| Execution.GeneratedCodeComputes | include/cppad/cg/code_handler_impl.hpp:266-404 | running the statements gives every dependent the value that the graph denotes, for all operations, inputs and initial values, exactly if no statement reads a variable that is computed later |
| ArraySpaces.UseSpace | include/cppad/cg/array_id_compresser.hpp:161-178 | taking the start of a free space keeps free spaces and live arrays a partition of the cells, the two maps inverse, and free spaces apart |
| ArraySpaces.GrowLast | include/cppad/cg/array_id_compresser.hpp:186-201 | the same for extending the last free space |
| ArraySpaces.ReleaseSpace | include/cppad/cg/array_id_compresser.hpp:66-96 | the same for releasing an array, which joins the free spaces on both sides |
| ArraySpaces.GapIsSpace | include/cppad/cg/array_id_compresser.hpp:66-96 | a stretch of cells between live arrays is one free space: released cells are joined and none are lost |
| ArrayIdCompressers.CommonValuesCount | include/cppad/cg/array_id_compresser.hpp:129-139 | the values that are counted for a space are exactly the positions whose cell holds the element that is to be stored there |
| ArrayIdCompressers.BlackListHas | include/cppad/cg/array_id_compresser.hpp:103-114 | the cells that must not be overwritten are exactly those that the elements of the new array are copied from |
| ArrayIdCompressers.SearchFinds | include/cppad/cg/array_id_compresser.hpp:117-159 | the search finds a space exactly if one is large enough and holds no cell that is still read |
| ArrayIdCompressers.SearchFindsSmallest | include/cppad/cg/array_id_compresser.hpp:117-159 | when no values can be kept, the smallest usable space is chosen, the last one of equals |
| ArrayIdCompressers.SearchImproves | include/cppad/cg/array_id_compresser.hpp:117-159 | a space that is chosen, other than the first one that was visited, is smaller than the best one before it or keeps more values |
| ArrayIdCompressers.SearchIsFinal | include/cppad/cg/array_id_compresser.hpp:117-159 | a usable space visited after the chosen one is no smaller and keeps no more values, unless the chosen one keeps all |
| ArrayIdCompressers.SearchKeepsAll | include/cppad/cg/array_id_compresser.hpp:142-155 | if a usable space, other than the first one that is visited, holds the whole new array, such a space is chosen |
| ArrayIdCompressers.ArrayIdCompresser.FindBestFit | include/cppad/cg/array_id_compresser.hpp:117-159 | the reverse scan with its early stop computes that search |
| ArrayIdCompressers.ArrayIdCompresser.AddFreeArraySpace | include/cppad/cg/array_id_compresser.hpp:66-96 | the array leaves the live ones, all invariants are kept |
| ArrayIdCompressers.ArrayIdCompresser.ReserveArraySpace | include/cppad/cg/array_id_compresser.hpp:98-217 | the new array overlaps no live array and covers no cell that its elements read; it is placed in the best usable free space; new space is taken only if every free space is too small or has a cell that is read, and then no more than needed; cells never outnumber the total size reserved, so the value buffer is indexed in bounds as long as it has that size (ReduceArrays shows that it has) |
| ArrayReuse.IssueIds | include/cppad/cg/code_handler_impl.hpp:1580-1589 | the first ids of the temporary arrays take one cell for every element, which is the size of the buffer |
| ArrayReuse.CreateArray | include/cppad/cg/array_id_compresser.hpp:98-217 | a new array is placed apart from every array in use, and these keep their elements |
| ArrayReuse.CopiesSpared | include/cppad/cg/array_id_compresser.hpp:103-114 | an element that is copied to a new array is intact until the array is complete, even if its own array is released by the same statement |
| ArrayReuse.NoRoom | include/cppad/cg/array_id_compresser.hpp:157-217 | if no free space is usable, every gap between the arrays in use is too small for the new array or has a cell that it reads |
| ArrayReuse.CollectArrayReleases | include/cppad/cg/code_handler_impl.hpp:1656-1665 | every temporary array is released once, by the statement that reads it for the last time |
| ArrayReuse.CollectedIsWellUsed | include/cppad/cg/code_handler_impl.hpp:1656-1665 | so no array is released before it was created, twice, or before a statement that still copies from it |
| ArrayReuse.ReadsOfGraph | include/cppad/cg/code_handler_impl.hpp:1640-1665 | the last usages of a graph, as `UsageEnd` has them, come after the creation of its arrays and not before any statement that evaluates one of their elements |
| ArrayReuse.ReduceArrays | include/cppad/cg/code_handler_impl.hpp:1656-1712 | over all statements: an array that is read after another one is created shares no cell with it; no element is overwritten while it is copied; there are new cells only when no gap between the arrays in use has room; the buffer is large enough for every array, and there are no more cells than elements |
| Arithmetic.NodeManager.Plus | include/cppad/cg/arithmetic.hpp:42-66 | the folded result has the value of the sum in every world; a node is made only if neither operand is zero and not both are constants |
| Arithmetic.NodeManager.Minus | include/cppad/cg/arithmetic.hpp:68-88 | the folded result has the value of the difference; a node is made only if nothing folds |
| Arithmetic.NodeManager.Times | include/cppad/cg/arithmetic.hpp:90-118 | the folded result has the value of the product; a node is made only if no operand is zero or one and not both are constants |
| Arithmetic.NodeManager.Over | include/cppad/cg/arithmetic.hpp:120-146 | the folded result has the value of the quotient wherever the divisor is not zero |
| Arithmetic.NodeManager.DivideBy | include/cppad/cg/arithmetic_assign.hpp:135-170 | the same for the in-place quotient, which folds less |
| Arithmetic.NodeManager.Negate | include/cppad/cg/unary.hpp:26-39 | the folded result has the negated value |
| Arithmetic.ValueKept | include/cppad/cg/code_handler.hpp:451-466 | new nodes do not change the values of old ones |
| PathGraph.BidirGraph.Connect | include/cppad/cg/bidir_graph.hpp:53-64 | an edge is recorded at both of its ends |
| PathGraph.FindPathGraph | include/cppad/cg/operation_path.hpp:35-86 | within the budget, the answer is whether the target is reached, and every searched node has exactly the arguments that reach it; the bifurcation count grows by the additional arguments recorded |
| PathGraph.MakePathGraph | include/cppad/cg/operation_path.hpp:96-113 | the bifurcation count reaches the limit exactly if there are that many bifurcations; below it the graph holds exactly the nodes on ways from root to target, and the count is exact: the sum over these nodes of their arguments but one |
| PathCount.BifurcationsCount | include/cppad/cg/operation_path.hpp:35-86 | the bifurcations are as many as there are more steps than nodes on the ways from the expression to the variable |
| SingleBifurcation.FindPathUpTo | include/cppad/cg/bidir_graph.hpp:166-211 | one real path without splits, or two that part at one node by its first two arguments and do not split again |
| SingleBifurcation.FindSingleBifurcation | include/cppad/cg/bidir_graph.hpp:99-159 | no path exactly if the target is not reached; the only path if there is one; else two that agree before the split and are single after it |
| PathInversion.InverseUndoes | include/cppad/cg/solver.hpp:93-140 | the inverse is the only operand, among those the operation is defined for, that gives the required value |
| PathInversion.CanInvertUndoable | include/cppad/cg/solver.hpp:93-187 | an operation can be inverted exactly if, for some other operand and some result, the operand on the path is determined whatever the operations mean |
| PathInversion.HasInverseIfDetermined | include/cppad/cg/solver.hpp:93-140 | the inverse exists for exactly those operands and results for which there is one and only one operand that gives the result, whatever exponentials and the remaining operations mean |
| PathInversion.SolutionIsUnique | include/cppad/cg/solver.hpp:83-189 | if the variable occurs only along the path, undoing the path gives exactly the value that solves the equation |
| Solver.InvertNode | include/cppad/cg/solver.hpp:93-140 | the folding operators compute the undone value in every world where it exists |
| Solver.SolveForPath | include/cppad/cg/solver.hpp:83-189 | fails exactly if some operation on the path determines no operand for any result, and otherwise computes the undone value of the whole path |
| Solver.ResidualIsZero | include/cppad/cg/solver.hpp:83-189 | substituting the result makes the expression zero, and no other value for which the path is defined does |
| Solver.SolveFor | include/cppad/cg/solver.hpp:25-80 | terminates; a success solves, along a path with a single occurrence, an expression that has the value of the original one; a failure has one of five reasons: the variable is absent, there are at least 50000 bifurcations, an operation on the only path cannot be undone, two occurrences cannot be joined, or the variable vanishes |
| Solver.CollectAtSplit | include/cppad/cg/solver.hpp:64-76 | joining two occurrences leaves strictly fewer bifurcations, as the code asserts at the next round |
| Solver.ReturnedMakesZero | include/cppad/cg/solver.hpp:31-32 | what is returned makes the expression zero exactly if the expression is not the variable, or the variable was zero |
| Solver.SolverIsCorrect | include/cppad/cg/solver.hpp:25-80 | the result of the whole solver is the only solution in every world where the steps are defined |
| PathCount.FewerBifurcations | include/cppad/cg/solver.hpp:46 | an expression in which a node with bifurcations is replaced, by nodes that bring in no more than were passed over, has strictly fewer of them |
| CloneReach.CloneSplits | include/cppad/cg/evaluator/evaluator_solve.hpp:140-188 | a clone has no more arguments that lead to the variable than its original |
| CloneReach.ReplacedExpression | include/cppad/cg/collect_variable.hpp:73-83 | the expression with the split replaced has strictly fewer bifurcations |
| CloneSetting.Setting.TailIsZero | include/cppad/cg/collect_variable.hpp:196-208 | what is replaced by zero is zero when the variable is |
| CloneSetting.Setting.BinaryIsRight | include/cppad/cg/evaluator/evaluator_solve.hpp:140-187 | cloning an operation on right operands gives a right result |
| CloneSetting.Setting.TrackedOperand | include/cppad/cg/evaluator/evaluator_solve.hpp:192-209 | the comparison with the paths recognises every operand that contains the variable |
| EvaluatorSolve.ReplacedOnPath | include/cppad/cg/evaluator/evaluator_solve.hpp:143-158 | a replacement on a path has the value of the node without the variable |
| EvaluatorSolve.OffPaths | include/cppad/cg/evaluator/evaluator_solve.hpp:187 | a node off the paths may be used as it is |
| EvaluatorSolve.EvaluatorCloneSolve.EvalOperations | include/cppad/cg/evaluator/evaluator.hpp:242-265 | the memoised result has the value of the node with the replacements made; saved results are kept, path and depth restored; every node is evaluated once, and only if its result is saved |
| EvaluatorSolve.EvaluatorCloneSolve.EvalOperation | include/cppad/cg/evaluator/evaluator_solve.hpp:140-188 | the replacement, the clone or the original, whichever is chosen, is right |
| Coefficients.PathChange | include/cppad/cg/collect_variable.hpp:154-192 | the expression changes with the variable by the product of the factors on the path |
| Coefficients.CollectedSign | include/cppad/cg/collect_variable.hpp:166-170 | the collected coefficient is the true one up to a sign, which is right exactly if the number of misjudged subtractions is even |
| Coefficients.CollectableIfAffine | include/cppad/cg/collect_variable.hpp:146-192 | the operations that are accepted are exactly those that are affine in the operand on the path, whatever exponentials and the remaining operations mean |
| Coefficients.CollectablePathIfAffine | include/cppad/cg/collect_variable.hpp:146-192 | the same for a whole path below the split |
| CollectVariableAddSubs.CollectCoefficient | include/cppad/cg/collect_variable.hpp:146-192 | the loop computes the collected coefficient through the folding operators |
| CollectVariableAddSubs.ReplaceTail | include/cppad/cg/collect_variable.hpp:196-208 | exactly the variable and the unbroken run of products, quotients, negations and aliases above it become zero |
| CollectVariableAddSubs.SplitChange | include/cppad/cg/collect_variable.hpp:100-237 | a sum or difference with two occurrences is affine in the variable, with the sum of both coefficients |
| CollectVariableAddSubs.CollectVariableAddSub | include/cppad/cg/collect_variable.hpp:100-237 | succeeds exactly for sums and differences of expressions that are affine in the variable along their paths; the result is the collected coefficients times the variable plus the expression without it |
| CollectVariableAddSubs.CollectedIsSame | include/cppad/cg/collect_variable.hpp:100-237 | the result differs from the expression by twice the coefficients with a wrong sign times the variable; it is the same exactly if that is zero, and whenever all signs are right |
| CollectVariableAddSubs.WrongSignExample | include/cppad/cg/collect_variable.hpp:166-170 | for x + (x - y) the result is 2 x too small |
| CollectVariables.CollectVariable | include/cppad/cg/collect_variable.hpp:25-97 | the whole expression keeps its value in every world where the collected part does and no divisor above it is zero; it has strictly fewer bifurcations; it fails exactly if the occurrences cannot be joined or the way to the split has too many bifurcations |
| Evaluator.EvaluatorOperations.EvalOperations | include/cppad/cg/evaluator/evaluator.hpp:242-265 | the recursive value of the node; every node evaluated at most once; path and depth restored |
| Evaluator.EvaluatorOperations.Evaluate | include/cppad/cg/evaluator/evaluator.hpp:137-186 | every dependent gets its value for the new independents; wrong sizes and simultaneous use are refused |
| Ranges.CombineOverlapingIterationRanges | include/cppad/cg/range.hpp:63-111 | the union of two normalised lists, normalised, up to the largest index |
| Ranges.InvertIterationRanges | include/cppad/cg/range.hpp:122-150 | the complement up to the largest index, normalised |
| Ranges.NormalIsUnique | include/cppad/cg/range.hpp:122-150 | normalised lists with the same iterations are equal |
| Ranges.InvertTwice | include/cppad/cg/range.hpp:122-150 | inverting twice gives the list back |
| SparsityPatterns.TransposePattern | include/cppad/cg/util.hpp:56-70 | the transpose |
| SparsityPatterns.AddTransMatrixSparsity | include/cppad/cg/util.hpp:81-92 | adds the transpose to the result |
| SparsityPatterns.AddMatrixSparsity | include/cppad/cg/util.hpp:116-130 | adds the first rows to the result |
| SparsityPatterns.MultMatrixMatrixSparsity | include/cppad/cg/util.hpp:178-212 | adds exactly the Boolean product, on the identity path and the general path |
| SparsityPatterns.MultMatrixTransMatrixSparsity | include/cppad/cg/util.hpp:228-282 | adds exactly the product of the transpose of A and B on all four paths |
| SparsityPatterns.MultMatrixMatrixSparsityTrans | include/cppad/cg/util.hpp:297-337 | adds exactly the transposed product on all three paths |
| SparsityPatterns.TransposedProduct | include/cppad/cg/util.hpp:297-337 | the transposed form is the other one with its factors swapped |
| SparsityPatterns.TransProductIsProduct | include/cppad/cg/util.hpp:228-282 | the transposed product is the product with the transposed matrix |

## Left out

- DetectSubset2Dif: a model without a cover may be differentiated for ever, so a number of searches is given and a run that is cut short reports it. That the run ends for a model with a cover is stated for models without parameters, which nothing in the repository makes.
- SolveFor: an expression that reaches the limit of 50000 bifurcations is reported as a failure, where the code would go on with an incomplete graph.
- GenerateCode: one scope without loops, conditions, arrays and atomic functions; on such graphs reordering operations changes nothing. An alias has one argument that is a node: the code takes that for granted (`include/cppad/cg/code_handler_impl.hpp:756-757` and `include/cppad/cg/operation_stack.hpp:53`), and an alias of a constant would be an invalid pointer. Independent variables that were turned into aliases but stay in the list of independents are not part of the model. Names, dependencies for the target language and its text are not modelled; its answers about new variables are functions of the node and its use count.
- ReassignIds and CollectReleases: single temporaries only. The branches for arrays are `ReduceArrays`, over a list of statements with their arrays and the last usages of these. Sparse arrays are the same with a second compresser.
- ReadsOfGraph: every element of an array that is copied is evaluated in the statement that copies it; an element operation that several statements share has the evaluation order of one of them only.
- Over and DivideBy: a quotient of two constants with divisor zero is an arbitrary number about which nothing is claimed, where floating-point arithmetic has infinities; all values are exact reals, and the numeric values attached to variables are not tracked.
- SolveForPath: powers, square roots and hyperbolic functions are among the operations that cannot be undone; exponential and logarithm are any pair of inverse functions.
- CollectVariable: the default limit on bifurcations is the largest 64-bit number, at which the model reports a failure.
- EvalOperation: the modes with a set of nodes to clone and with replaced arguments, which the solver does not use.
- SparseForJacHessian: the zero-order values that are returned beside the derivatives.
- DirtyDifferentiateEq and CreateEquationDerivative: the variant that does not add the variables of the old equation, which this driver does not use.
- IsSolvable: the attempt to solve an expression with several occurrences just to see whether it succeeds.
- Nodes are named by their index and fields of node classes are lists over these indices, so pointers that are shared or dangling cannot be expressed.
- The bipartite graph has no names, tape indices or log output. That variables are sorted by the order of their derivatives is left to the caller of the constructor, and so is the exception of a system that is not well determined.
- CppAD tapes: forward and reverse products, and the sort by index, stand for what CppAD promises about them. New tapes and models are not built.
- The Soares-Secchi driver, removal of equations, dummy derivative selection and model reordering.
- Sorting uses a plain insertion sort in place of CppAD's; sets are visited in any order.
- Bounds of iteration ranges are pairs instead of a flat vector; combining non-overlapping ranges and the ranges of conditional branches are left out.
- An assertion that the added matrix has no more rows than are used is not made in the sparsity products, because the identity path may be entered with more.
