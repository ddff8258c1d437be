# Declaration collector

A Dafny model of the declaration collector of the z3 expression library
(`decl_collector`). Starting from root expressions, the collector walks a
shared and possibly cyclic graph of applications, quantifiers, sorts,
function declarations and variables. It uses an explicit stack (the worklist),
a set of visited marks and a trail of marked nodes. It collects three result
sequences:

- the uninterpreted and datatype sorts;
- the user-declared functions (null family id);
- the recursively defined functions.

`push` and `pop(n)` undo this work scope by scope. `order_deps(n)` reorders the
sorts collected from index `n` onward by their direct dependencies, which
`collect_deps` computes.

The model has four modules:

- `Ast` (`ast.dfy`): the graph as a value. It maps node ids to nodes of a
  closed set of kinds. It also holds the answers of the manager ("is this sort
  uninterpreted") and of the datatype and recursive-function utilities
  (constructors, accessors, datatype parameter sorts, definition right-hand
  sides). `WellFormed` says every child a node names exists and every query
  the collector makes has an answer.
- `Traversal` (`traversal.dfy`): the worklist loop as a function of the
  collector's state. `Next` is one loop iteration, `Drain` runs the loop until
  the worklist is empty, and `VisitSpec` is a visit. The lemmas prove:
  - termination on cyclic graphs, by the measure (unmarked nodes, worklist
    length) compared lexicographically;
  - the classification and expansion rules by kind and family id;
  - that each result sequence gains exactly the newly marked nodes that belong
    in it, each once;
  - what the trail records;
  - that the marks end up closed under the graph's edges, so everything
    reachable is marked;
  - that a visit marks, and so collects, only nodes reachable from its root;
  - that a visit is idempotent.
- `Dependencies` (`dependencies.dfy`): the dependency set of a sort, and its
  equivalence with a declarative "direct dependency" predicate.
- `DeclCollector` (`decl_collector.dfy`): the collector as a class whose fields
  are the visited set, the trail and its saved lengths, the three result
  sequences with one stack of saved lengths each, and the worklist.
  - Each method is proved against the functions above.
  - The class invariant (`Inv`) says the marks are the nodes on the trail, the
    marks are closed, and no node sits on both sides of a saved trail length.
    Because of that invariant, `pop(n)` unmarks exactly the nodes marked
    since the n-th most recent `push`, and truncates the trail and the result
    sequences to their lengths at that `push`. This is an exact rollback
    when nothing rewrote the part of the sort list saved by that `push`.
    This is proved for `push; visit; pop` sequences. `order_deps(n)` with `n`
    below a saved sort length rewrites that part, and `pop` then keeps the
    reordered prefix (see "Left out").

## Model

| member | source | states |
|---|---|---|
| Traversal.CtorTodo | src/ast/decl_collector.cpp:31-38 | the nodes a datatype sort schedules are graph nodes, and every constructor is among them |
| Traversal.CtorTodoIff | src/ast/decl_collector.cpp:31-38 | a datatype sort schedules a node iff it is one of its constructors or an accessor of one of them, so every accessor of every constructor is scheduled and nothing else |
| Traversal.ParamTodo | src/ast/decl_collector.cpp:40-43 | a node is scheduled for a sort's parameters iff some parameter wraps it (the definition takes the parameters last first) |
| Traversal.Pushed | src/ast/decl_collector.cpp:84-121 | the nodes a node schedules when it is expanded are all nodes of the graph |
| Traversal.ClassifySort | src/ast/decl_collector.cpp:24-44 | reference definition of `visit_sort`: an uninterpreted sort, else a datatype-family sort, is appended to the sorts; a datatype also schedules `CtorTodo`; every sort schedules `ParamTodo` (its properties are stated by `ClassifySortFacts`) |
| Traversal.Mark | src/ast/decl_collector.cpp:60-61 | reference definition of marking a node and appending it to the trail |
| Traversal.ClassifyFunc | src/ast/decl_collector.cpp:50-63 | reference definition of `visit_func` (its properties are stated by `ClassifyFuncFacts`) |
| Traversal.Expand | src/ast/decl_collector.cpp:84-121 | reference definition of the switch on the node kind |
| Traversal.Step | src/ast/decl_collector.cpp:83-123 | reference definition of the work done on an unmarked node: expand, then mark and trail (its properties are stated by `StepFacts`) |
| Traversal.Next | src/ast/decl_collector.cpp:81-124 | reference definition of one loop iteration (its properties are stated by `NextEffect` and `NextPre`) |
| Traversal.Drain | src/ast/decl_collector.cpp:80-125 | reference definition of the loop run until the worklist is empty; it terminates by `NextPre` |
| Traversal.VisitSpec | src/ast/decl_collector.cpp:75-126 | reference definition of `visit`: nothing for a marked root, otherwise the loop on the worklist with the root pushed |
| Traversal.ParamTodoIn | src/ast/decl_collector.cpp:40-43 | every parameter of a sort that is scheduled is a node of the graph |
| Traversal.StepFacts | src/ast/decl_collector.cpp:83-123 | an iteration on an unmarked node marks it, appends it to the trail (twice for a function declaration), schedules its children by kind, and appends it to exactly the result sequence its kind and family id select |
| Traversal.ClassifySortFacts | src/ast/decl_collector.cpp:24-44 | a sort is collected exactly when it is uninterpreted or of the datatype family; constructors with their accessors and the node-valued parameters are scheduled; marks, trail and declaration lists are unchanged |
| Traversal.ClassifyFuncFacts | src/ast/decl_collector.cpp:50-63 | an unmarked function declaration is marked and put on the trail; a null-family one goes to the declarations, a recursive one to the recursive declarations with its definition's right-hand side scheduled; any other family changes no list |
| Traversal.CardDecreases | src/ast/decl_collector.cpp:122 | marking an unmarked node shrinks the set of unmarked nodes |
| Traversal.NextEffect | src/ast/decl_collector.cpp:80-124 | an iteration pops the last worklist entry; a marked entry changes nothing else, and an unmarked one is expanded, classified and marked |
| Traversal.NextPre | src/ast/decl_collector.cpp:80-83 | an iteration keeps the worklist within the graph and either marks a new node or shortens the worklist, so the loop terminates on cyclic graphs |
| Traversal.DrainExtends | src/ast/decl_collector.cpp:80-125 | the loop empties the worklist, only adds marks, and only extends the trail and the three result sequences |
| Traversal.DrainMarksWorklist | src/ast/decl_collector.cpp:80-125 | every node on the worklist when the loop starts is marked when it ends |
| Traversal.TrailGrowsTrans | src/ast/decl_collector.cpp:122-123 | growth of the trail by unmarked nodes composes over successive iterations |
| Traversal.NextTrail | src/ast/decl_collector.cpp:60-61 | one iteration appends only the popped node, and only when it was unmarked |
| Traversal.DrainTrail | src/ast/decl_collector.cpp:60-61 | the loop appends to the trail only nodes that were unmarked, and the marks it adds are exactly those trail entries |
| Traversal.AppendsExactlyTrans | src/ast/decl_collector.cpp:80-125 | appending exactly the newly marked nodes that belong in a result sequence composes over successive iterations |
| Traversal.NextAppends | src/ast/decl_collector.cpp:81-124 | one iteration appends to each result sequence exactly the newly marked node when it belongs there |
| Traversal.DrainAppends | src/ast/decl_collector.cpp:80-125 | for each result sequence, the loop appends exactly the newly marked nodes that belong in it, each once, which keeps shared nodes from being collected twice |
| Traversal.NextClosedUpTo | src/ast/decl_collector.cpp:85-123 | after an iteration, every child of a marked node is marked or still waiting on the worklist |
| Traversal.ClosedUpToNothing | src/ast/decl_collector.cpp:80 | with an empty worklist, the marks are closed under the graph's edges |
| Traversal.DrainCloses | src/ast/decl_collector.cpp:80-125 | when the loop ends, the marks are closed under the graph's edges |
| Traversal.ClosedContainsPaths | src/ast/decl_collector.cpp:80-125 | a closed set of marks holds the end of every path that starts inside it |
| Traversal.PathSnoc | src/ast/decl_collector.cpp:85-123 | a path extends by any node its last node schedules |
| Traversal.ReachableStep | src/ast/decl_collector.cpp:85-123 | a node scheduled by a node reachable from the root is reachable from the root |
| Traversal.NextFromRoot | src/ast/decl_collector.cpp:81-124 | an iteration keeps every worklist entry and every newly marked node reachable from the root |
| Traversal.DrainFromRoot | src/ast/decl_collector.cpp:80-125 | when the worklist starts with nodes reachable from the root, the loop marks only such nodes |
| Traversal.VisitCollectsReachable | src/ast/decl_collector.cpp:75-126 | a visit from closed marks marks the root and every node reachable from it, and the marks stay closed |
| Traversal.VisitOnlyReachable | src/ast/decl_collector.cpp:75-126 | conversely, a visit marks only nodes reachable from the root, and every entry it appends to the sorts, declarations or recursive declarations is reachable from the root |
| Traversal.VisitAppends | src/ast/decl_collector.cpp:75-126 | a visit only adds marks, and appends to each result sequence exactly the nodes it newly marks that belong there, each once |
| Traversal.TwoVisitsAppendOnce | src/ast/decl_collector.cpp:75-126 | two successive visits of roots `a` and `b` together append to each result sequence exactly the newly marked nodes that belong there, each once, so a node shared by both roots is collected once |
| Traversal.VisitIdempotent | src/ast/decl_collector.cpp:75-77 | visiting the same root twice gives the same state as visiting it once |
| Dependencies.CtorDepsIff | src/ast/decl_collector.cpp:155-161 | a node is among the constructors' dependencies iff it is the range or a domain sort of one of the constructors |
| Dependencies.CtorDeps | src/ast/decl_collector.cpp:155-161 | reference definition of the constructors' range and domain sorts (characterised by `CtorDepsIff`) |
| Dependencies.ParamSorts | src/ast/decl_collector.cpp:164-168 | reference definition of the sort-valued parameters (characterised by `ParamSortsIff`) |
| Dependencies.DepsOf | src/ast/decl_collector.cpp:148-169 | reference definition of what `collect_deps` gathers besides the sort itself (characterised by `DepsOfIsDirectDeps`) |
| Dependencies.ParamSortsIff | src/ast/decl_collector.cpp:164-168 | a node is among the parameter dependencies iff it is a sort wrapped by one of the parameters |
| Dependencies.DepsOfIsDirectDeps | src/ast/decl_collector.cpp:148-169 | the collected set is exactly the direct dependencies: datatype parameter sorts, constructor ranges and domains, and sort-valued parameters, without following them further |
| Dependencies.DepEntriesShape | src/ast/decl_collector.cpp:128-133 | the entries handed to the ordering primitive are one per sort, in order; each holds exactly the sort's direct dependencies, and never the sort itself |
| Dependencies.DepEntries | src/ast/decl_collector.cpp:130-133 | reference definition of the entries inserted into the ordering primitive (characterised by `DepEntriesShape`) |
| DeclCollector.ElemsPrefixSuffix | src/ast/decl_collector.cpp:181-183 | the marks of a trail are those of its part before a cut plus those of its part after it |
| DeclCollector.VisitKeepsInv | src/ast/decl_collector.cpp:75-126 | a visit keeps the collector's invariant and only extends the trail and the result sequences |
| DeclCollector.ScopedTrailGrows | src/ast/decl_collector.cpp:122-123 | appending unmarked nodes to the trail keeps every saved trail length a clean split |
| DeclCollector.PushKeepsInv | src/ast/decl_collector.cpp:171-176 | opening a scope keeps the invariant |
| DeclCollector.PopKeepsInv | src/ast/decl_collector.cpp:178-188 | closing the n innermost scopes leaves exactly the marks of the trail up to the saved length, and the truncated state satisfies the invariant |
| DeclCollector.PopMarks | src/ast/decl_collector.cpp:181-183 | unmarking the trail entries at or beyond a saved length leaves exactly the marks of the entries before it |
| DeclCollector.ScopedTrailPrefix | src/ast/decl_collector.cpp:183-184 | the outer scopes still split the truncated trail, and its marks are closed |
| DeclCollector.StackPrefix | src/ast/decl_collector.cpp:184-187 | dropping the innermost saved lengths leaves a stack within the length being restored |
| DeclCollector.DepEntriesSnoc | src/ast/decl_collector.cpp:130-133 | inserting one more sort adds one entry with that sort's dependency set, itself removed |
| DeclCollector.OrderKeepsInv | src/ast/decl_collector.cpp:135-138 | replacing the sorts from index n onward by as many sorts keeps the invariant |
| DeclCollector.Collector.constructor | src/ast/decl_collector.cpp:65-73 | a new collector has no marks, an empty trail, no open scope and empty result sequences |
| DeclCollector.Collector.PushAll | src/ast/decl_collector.cpp:87-89 | pushes the given nodes onto the worklist in order |
| DeclCollector.Collector.VisitSort | src/ast/decl_collector.cpp:24-44 | the new state is the sort classification `ClassifySort` of the old one |
| DeclCollector.Collector.PushCtors | src/ast/decl_collector.cpp:31-38 | the worklist gains each constructor followed by its accessors |
| DeclCollector.Collector.PushParams | src/ast/decl_collector.cpp:40-43 | the worklist gains the node-valued parameters, last parameter first |
| DeclCollector.Collector.VisitFunc | src/ast/decl_collector.cpp:50-63 | the new state is the declaration classification `ClassifyFunc` of the old one |
| DeclCollector.Collector.VisitNode | src/ast/decl_collector.cpp:83-124 | the new state is one step `Step` on the unmarked node |
| DeclCollector.Collector.Iterate | src/ast/decl_collector.cpp:81-124 | the new state is one loop iteration `Next` of the old one |
| DeclCollector.Collector.RunWorklist | src/ast/decl_collector.cpp:80-125 | the new state is the loop run to completion, `Drain`, of the old one |
| DeclCollector.Collector.Visit | src/ast/decl_collector.cpp:75-126 | keeps the invariant; the new state is `VisitSpec`; an already marked root changes nothing; the trail and result sequences are only extended |
| DeclCollector.Collector.Push | src/ast/decl_collector.cpp:171-176 | keeps the invariant and saves the current length of the trail and of each result sequence |
| DeclCollector.Collector.Pop | src/ast/decl_collector.cpp:178-188 | with 0 < n and at most as many open scopes: keeps the invariant; unmarks exactly the trail entries at or beyond the length saved by the n-th most recent push; truncates the trail and each result sequence to their saved lengths; drops n saved lengths from each stack |
| DeclCollector.Collector.Unmark | src/ast/decl_collector.cpp:181-182 | removes from the marks exactly the trail entries from the given length on |
| DeclCollector.Collector.Shrink | src/ast/decl_collector.cpp:183-187 | truncates the trail and each result sequence to the lengths saved by the given scope, and drops that scope and the inner ones |
| DeclCollector.Collector.CollectDepsInto | src/ast/decl_collector.cpp:148-169 | a sort already in the set leaves it unchanged; otherwise the set gains the sort and its direct dependencies |
| DeclCollector.Collector.InsertAll | src/ast/decl_collector.cpp:152-154 | the set gains exactly the given sorts |
| DeclCollector.Collector.InsertCtorDeps | src/ast/decl_collector.cpp:155-161 | the set gains exactly the constructors' ranges and domain sorts |
| DeclCollector.Collector.InsertParamSorts | src/ast/decl_collector.cpp:164-168 | the set gains exactly the sort-valued parameters |
| DeclCollector.Collector.CollectDeps | src/ast/decl_collector.cpp:141-146 | the result is the sort's direct dependencies without the sort itself |
| DeclCollector.Collector.EntriesFrom | src/ast/decl_collector.cpp:130-133 | the entries built are those of the sorts from index n onward, each with its dependency set |
| DeclCollector.Collector.OrderDeps | src/ast/decl_collector.cpp:128-139 | keeps the invariant; the sorts before index n are unchanged; the rest are replaced by the ordering primitive's output on the entries of the sorts from n onward |
| DeclCollector.Collector.ReplaceSuffix | src/ast/decl_collector.cpp:135-138 | the sort list becomes its first n entries followed by the given sequence |
| DeclCollector.VisitInScope | src/ast/decl_collector.cpp:171-188 | `push(); visit(x); pop(1)` restores the marks, the trail, the result sequences and all four stacks of saved lengths |
| DeclCollector.VisitInNewScope | src/ast/decl_collector.cpp:171-176 | `push(); visit(x)` saves the current lengths and only extends the trail and the result sequences |
| DeclCollector.NestedScopes | src/ast/decl_collector.cpp:178-188 | two nested `push(); visit(..)` undone by one `pop(2)` restore the marks, the trail and the result sequences |

## Left out

- `src/math/dd/pdd_interval.h` is not part of this model. It is interval arithmetic that delegates its numerics to libraries whose code is not available.
- `is_bool` (src/ast/decl_collector.cpp:46-48) is not modelled. It only forwards to the manager.
- The manager's memory handling is not modelled. This covers hash-consing, reference counting, the trail holding references that keep nodes alive, and the allocation of the dependency set.
- The datatype and recursive-function utilities and the manager's "is uninterpreted" query are modelled as data in the graph. Their own code is not part of this model.
- The `UNREACHABLE()` default (src/ast/decl_collector.cpp:119-120) cannot occur, because node kinds are a closed datatype. The `SASSERT`s become preconditions.
- DeclCollector.Collector.OrderDeps: the topological-sort primitive is a function parameter. Its code is not available. The only assumptions made about its output are that it holds sorts and has one entry per sort it was given. That it is a permutation respecting the dependencies is not modelled. Nor is its behaviour on mutually recursive datatypes.
- A function declaration is marked and put on the trail in `visit_func` (src/ast/decl_collector.cpp:60-61), and again after the switch (src/ast/decl_collector.cpp:122-123), so it appears twice on the trail. The model does the same, and its invariant relates the marks to the set of trail entries, not to a trail without repeats.
- `order_deps(n)` with `n` below the sort length saved by an open scope reorders sorts that scope's `pop` keeps (src/ast/decl_collector.cpp:135-138 and 185). The model does the same, so `pop` is an exact rollback of the sort list only when no such call intervened. A sort collected inside the scope but moved below the saved length stays in the sort list after `pop` unmarks it.
- Node ids are unbounded naturals. The collector's `unsigned` counters are not bounded in the model, because the source never relies on their wrap-around.
