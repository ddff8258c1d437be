/** The worklist traversal of the declaration collector as a function of its
    state: one call of `Drain` pops one node off the worklist, and expands and
    classifies it when it is not yet marked. The collector's `Visit` method is
    proved equal to `VisitSpec`; the lemmas here say what that computation
    does to the visited set, the trail and the three result sequences. */
module Traversal {
  import opened Ast

  /** The part of the collector's state that a visit reads and writes. */
  datatype State = State(
    visited: set<NodeId>,
    trail: seq<NodeId>,
    sorts: seq<NodeId>,
    decls: seq<NodeId>,
    recDecls: seq<NodeId>,
    todo: seq<NodeId>)

  /** What a visit needs of a state: a well-formed graph, marks on graph
      nodes only, and only graph nodes on the worklist. */
  predicate Pre(g: Graph, st: State) {
    WellFormed(g) && st.visited <= g.nodes.Keys && AllIn(g, st.todo)
  }

  /** Sorts that are appended to the sort list: uninterpreted and datatype sorts. */
  predicate SortCollected(g: Graph, n: NodeId) {
    IsSort(g, n) && (n in g.uninterp || g.nodes[n].family == DatatypeFamily)
  }

  /** User-declared functions: the null family id. */
  predicate DeclCollected(g: Graph, n: NodeId) {
    IsFuncDecl(g, n) && g.nodes[n].family == NullFamily
  }

  /** Recursively defined functions: the recursive-function family id. */
  predicate RecDeclCollected(g: Graph, n: NodeId) {
    IsFuncDecl(g, n) && g.nodes[n].family == RecFunFamily
  }

  /** The worklist entries a datatype sort pushes: each constructor followed
      by that constructor's accessors. */
  function CtorTodo(g: Graph, cs: seq<NodeId>): (r: seq<NodeId>)
    requires CtorsWellFormed(g, cs)
    ensures AllIn(g, r)
    ensures forall i :: 0 <= i < |cs| ==> cs[i] in r
  {
    if cs == [] then []
    else
      var c := cs[|cs| - 1];
      CtorTodo(g, cs[..|cs| - 1]) + [c] + g.accessors[c]
  }

  /** A datatype sort schedules exactly its constructors and their accessors. */
  lemma {:induction false} CtorTodoIff(g: Graph, cs: seq<NodeId>, x: NodeId)
    requires CtorsWellFormed(g, cs)
    ensures x in CtorTodo(g, cs) <==>
      exists i :: 0 <= i < |cs| && (x == cs[i] || x in g.accessors[cs[i]])
  {
    if cs != [] {
      var k := |cs| - 1;
      var init := cs[..k];
      assert CtorsWellFormed(g, init) by {
        forall i | 0 <= i < |init|
          ensures IsFuncDecl(g, init[i]) && init[i] in g.accessors && AllIn(g, g.accessors[init[i]])
        {
          assert init[i] == cs[i];
        }
      }
      CtorTodoIff(g, init, x);
      assert CtorTodo(g, cs) == CtorTodo(g, init) + [cs[k]] + g.accessors[cs[k]];
      if x in CtorTodo(g, cs) {
        if x in CtorTodo(g, init) {
          var i :| 0 <= i < |init| && (x == init[i] || x in g.accessors[init[i]]);
          assert cs[i] == init[i];
        } else {
          assert x == cs[k] || x in g.accessors[cs[k]];
        }
      } else {
        forall i | 0 <= i < |cs|
          ensures x != cs[i] && x !in g.accessors[cs[i]]
        {
          if i < k {
            assert cs[i] == init[i];
          }
        }
      }
    }
  }

  /** The parameters of a sort that wrap a node, last parameter first. */
  function ParamTodo(ps: seq<Parameter>): (r: seq<NodeId>)
    ensures forall x :: x in r <==> AstParam(x) in ps
  {
    if ps == [] then []
    else ParamTodo(ps[1..]) + (if ps[0].AstParam? then [ps[0].ast] else [])
  }

  lemma {:induction false} ParamTodoIn(g: Graph, ps: seq<Parameter>)
    requires ParamsIn(g, ps)
    ensures AllIn(g, ParamTodo(ps))
  {
    if ps != [] {
      assert ParamsIn(g, ps[1..]) by {
        forall i | 0 <= i < |ps[1..]| ensures ps[1..][i].AstParam? ==> ps[1..][i].ast in g.nodes {
          assert ps[1..][i] == ps[i + 1];
        }
      }
      ParamTodoIn(g, ps[1..]);
    }
  }

  /** The edges of the graph as the collector follows them: the nodes pushed
      onto the worklist when `n` is expanded, in push order. */
  function Pushed(g: Graph, n: NodeId): (r: seq<NodeId>)
    requires WellFormed(g) && n in g.nodes
    ensures AllIn(g, r)
  {
    assert NodeWellFormed(g, n);
    match g.nodes[n]
    case App(args, d) => args + [d]
    case Quantifier(bs, b, ps) => bs + [b] + ps
    case Sort(fam, _, ps) =>
      ParamTodoIn(g, ps);
      (if n !in g.uninterp && fam == DatatypeFamily then CtorTodo(g, g.constructors[n]) else [])
      + ParamTodo(ps)
    case FuncDecl(fam, dom, r) => dom + [r] + (if fam == RecFunFamily then [g.recRhs[n]] else [])
    case Var => []
  }

  /** Classification of an unmarked sort. */
  function ClassifySort(g: Graph, st: State, n: NodeId): State
    requires WellFormed(g) && IsSort(g, n)
  {
    assert NodeWellFormed(g, n);
    var s := g.nodes[n];
    if n in g.uninterp then
      st.(sorts := st.sorts + [n], todo := st.todo + ParamTodo(s.params))
    else if s.family == DatatypeFamily then
      st.(sorts := st.sorts + [n],
          todo := st.todo + CtorTodo(g, g.constructors[n]) + ParamTodo(s.params))
    else
      st.(todo := st.todo + ParamTodo(s.params))
  }

  /** Marks `n` and appends it to the trail. */
  function Mark(st: State, n: NodeId): State {
    st.(visited := st.visited + {n}, trail := st.trail + [n])
  }

  /** Classification of a function declaration, which marks it itself. */
  function ClassifyFunc(g: Graph, st: State, n: NodeId): State
    requires WellFormed(g) && IsFuncDecl(g, n)
  {
    assert NodeWellFormed(g, n);
    if n in st.visited then st
    else
      var fam := g.nodes[n].family;
      var st1 :=
        if fam == NullFamily then st.(decls := st.decls + [n])
        else if fam == RecFunFamily then
          st.(recDecls := st.recDecls + [n], todo := st.todo + [g.recRhs[n]])
        else st;
      Mark(st1, n)
  }

  /** Expansion of an unmarked node by kind. */
  function Expand(g: Graph, st: State, n: NodeId): State
    requires WellFormed(g) && n in g.nodes
  {
    match g.nodes[n]
    case App(args, d) => st.(todo := st.todo + args + [d])
    case Quantifier(bs, b, ps) => st.(todo := st.todo + bs + [b] + ps)
    case Sort(_, _, _) => ClassifySort(g, st, n)
    case FuncDecl(_, dom, r) => ClassifyFunc(g, st.(todo := st.todo + dom + [r]), n)
    case Var => st
  }

  /** One loop iteration on a node just popped and found unmarked. */
  function Step(g: Graph, st: State, n: NodeId): State
    requires WellFormed(g) && n in g.nodes && n !in st.visited
  {
    Mark(Expand(g, st, n), n)
  }

  /** The effect of one step, stated per component: the classification and
      expansion rules by node kind and family id. */
  lemma StepFacts(g: Graph, st: State, n: NodeId)
    requires WellFormed(g) && n in g.nodes && n !in st.visited
    ensures var r := Step(g, st, n);
      && r.visited == st.visited + {n}
      && r.todo == st.todo + Pushed(g, n)
      && r.trail == st.trail + (if IsFuncDecl(g, n) then [n, n] else [n])
      && r.sorts == st.sorts + (if SortCollected(g, n) then [n] else [])
      && r.decls == st.decls + (if DeclCollected(g, n) then [n] else [])
      && r.recDecls == st.recDecls + (if RecDeclCollected(g, n) then [n] else [])
  {
    assert NodeWellFormed(g, n);
    match g.nodes[n]
    case App(_, _) =>
    case Quantifier(_, _, _) =>
    case Sort(_, _, _) =>
      ClassifySortFacts(g, st, n);
    case FuncDecl(_, dom, r) =>
      var st1 := st.(todo := st.todo + dom + [r]);
      ClassifyFuncFacts(g, st1, n);
      assert st1.todo + (if RecDeclCollected(g, n) then [g.recRhs[n]] else [])
          == st.todo + Pushed(g, n);
    case Var =>
  }

  lemma ClassifySortFacts(g: Graph, st: State, n: NodeId)
    requires WellFormed(g) && IsSort(g, n)
    ensures var r := ClassifySort(g, st, n);
      && r.visited == st.visited && r.trail == st.trail
      && r.todo == st.todo + Pushed(g, n)
      && r.sorts == st.sorts + (if SortCollected(g, n) then [n] else [])
      && r.decls == st.decls && r.recDecls == st.recDecls
  {
    assert NodeWellFormed(g, n);
  }

  lemma ClassifyFuncFacts(g: Graph, st: State, n: NodeId)
    requires WellFormed(g) && IsFuncDecl(g, n) && n !in st.visited
    ensures var r := ClassifyFunc(g, st, n);
      && r.visited == st.visited + {n} && r.trail == st.trail + [n]
      && r.todo == st.todo + (if RecDeclCollected(g, n) then [g.recRhs[n]] else [])
      && r.sorts == st.sorts
      && r.decls == st.decls + (if DeclCollected(g, n) then [n] else [])
      && r.recDecls == st.recDecls + (if RecDeclCollected(g, n) then [n] else [])
  {
    assert NodeWellFormed(g, n);
  }

  lemma CardDecreases(keys: set<NodeId>, v: set<NodeId>, n: NodeId)
    requires n in keys && n !in v
    ensures |keys - (v + {n})| < |keys - v|
  {
    assert keys - v == (keys - (v + {n})) + {n};
  }

  /** One iteration of the worklist loop: pop the last entry, and expand and
      mark it when it is unmarked. */
  function Next(g: Graph, st: State): State
    requires Pre(g, st) && st.todo != []
  {
    var n := st.todo[|st.todo| - 1];
    var rest := st.(todo := st.todo[..|st.todo| - 1]);
    if n in st.visited then rest else Step(g, rest, n)
  }

  /** The effect of one iteration on each component of the state. */
  lemma NextEffect(g: Graph, st: State)
    requires Pre(g, st) && st.todo != []
    ensures var n := st.todo[|st.todo| - 1];
      var r := Next(g, st);
      && st.todo == st.todo[..|st.todo| - 1] + [n]
      && (n in st.visited ==> r == st.(todo := st.todo[..|st.todo| - 1]))
      && (n !in st.visited ==>
            && r.visited == st.visited + {n}
            && r.todo == st.todo[..|st.todo| - 1] + Pushed(g, n)
            && r.trail == st.trail + (if IsFuncDecl(g, n) then [n, n] else [n])
            && r.sorts == st.sorts + (if SortCollected(g, n) then [n] else [])
            && r.decls == st.decls + (if DeclCollected(g, n) then [n] else [])
            && r.recDecls == st.recDecls + (if RecDeclCollected(g, n) then [n] else []))
  {
    var n := st.todo[|st.todo| - 1];
    var rest := st.(todo := st.todo[..|st.todo| - 1]);
    if n !in st.visited {
      StepFacts(g, rest, n);
    }
  }

  /** An iteration keeps the precondition and either marks a new node or
      shortens the worklist. */
  lemma NextPre(g: Graph, st: State)
    requires Pre(g, st) && st.todo != []
    ensures var r := Next(g, st);
      && Pre(g, r)
      && (|g.nodes.Keys - r.visited| < |g.nodes.Keys - st.visited|
          || (r.visited == st.visited && |r.todo| < |st.todo|))
  {
    var n := st.todo[|st.todo| - 1];
    var rest := st.(todo := st.todo[..|st.todo| - 1]);
    assert AllIn(g, rest.todo);
    NextEffect(g, st);
    if n !in st.visited {
      CardDecreases(g.nodes.Keys, st.visited, n);
      AllInAppend(g, rest.todo, Pushed(g, n));
    }
  }

  /** Concatenating two worklists of graph nodes gives one. */
  lemma AllInAppend(g: Graph, a: seq<NodeId>, b: seq<NodeId>)
    requires AllIn(g, a) && AllIn(g, b)
    ensures AllIn(g, a + b)
  {
  }

  /** Runs the worklist loop until the worklist is empty. Terminates on
      cyclic graphs: each iteration either marks a new node or shortens the
      worklist. */
  function Drain(g: Graph, st: State): State
    requires Pre(g, st)
    decreases |g.nodes.Keys - st.visited|, |st.todo|
  {
    if st.todo == [] then st
    else
      NextPre(g, st);
      Drain(g, Next(g, st))
  }

  /** A visit of `root`: nothing when it is already marked, otherwise the
      loop run on the worklist with `root` pushed. */
  function VisitSpec(g: Graph, st: State, root: NodeId): State
    requires Pre(g, st) && root in g.nodes
  {
    if root in st.visited then st
    else Drain(g, st.(todo := st.todo + [root]))
  }

  /** The loop only grows the visited set and extends the trail and result
      sequences, and it empties the worklist. */
  lemma {:induction false} DrainExtends(g: Graph, st: State)
    requires Pre(g, st)
    decreases |g.nodes.Keys - st.visited|, |st.todo|
    ensures var r := Drain(g, st);
      && Pre(g, r) && r.todo == []
      && st.visited <= r.visited
      && st.trail <= r.trail && st.sorts <= r.sorts
      && st.decls <= r.decls && st.recDecls <= r.recDecls
  {
    if st.todo != [] {
      NextPre(g, st);
      NextEffect(g, st);
      var st2 := Next(g, st);
      DrainExtends(g, st2);
      assert Drain(g, st) == Drain(g, st2);
    }
  }

  /** Every node that was waiting on the worklist is marked when the loop ends. */
  lemma {:induction false} DrainMarksWorklist(g: Graph, st: State)
    requires Pre(g, st)
    decreases |g.nodes.Keys - st.visited|, |st.todo|
    ensures forall i :: 0 <= i < |st.todo| ==> st.todo[i] in Drain(g, st).visited
  {
    if st.todo != [] {
      NextPre(g, st);
      NextEffect(g, st);
      var st2 := Next(g, st);
      DrainMarksWorklist(g, st2);
      DrainExtends(g, st2);
      var r := Drain(g, st2);
      assert Drain(g, st) == r;
      forall i | 0 <= i < |st.todo|
        ensures st.todo[i] in r.visited
      {
        if i < |st.todo| - 1 {
          assert st.todo[i] == st2.todo[i];
        } else {
          assert st.todo[i] in st2.visited;
        }
      }
    }
  }

  /** `t` extends `t0` by nodes outside `v0`, and the marks `v` are `v0`
      plus exactly those nodes. */
  ghost predicate TrailGrows(v0: set<NodeId>, t0: seq<NodeId>, v: set<NodeId>, t: seq<NodeId>) {
    && t0 <= t
    && v == v0 + Elems(t[|t0|..])
    && (forall i :: |t0| <= i < |t| ==> t[i] !in v0)
  }

  lemma TrailGrowsTrans(v0: set<NodeId>, t0: seq<NodeId>, v1: set<NodeId>, t1: seq<NodeId>,
                        v2: set<NodeId>, t2: seq<NodeId>)
    requires TrailGrows(v0, t0, v1, t1) && TrailGrows(v1, t1, v2, t2)
    ensures TrailGrows(v0, t0, v2, t2)
  {
    var added, later := t1[|t0|..], t2[|t1|..];
    assert t2[|t0|..] == added + later;
    ElemsAppend(added, later);
    forall i | |t0| <= i < |t2|
      ensures t2[i] !in v0
    {
      if i < |t1| {
        assert t2[i] == t1[i];
      } else {
        assert t2[i] == later[i - |t1|];
      }
    }
  }

  lemma ElemsAppend(a: seq<NodeId>, b: seq<NodeId>)
    ensures Elems(a + b) == Elems(a) + Elems(b)
  {
  }

  lemma NextTrail(g: Graph, st: State)
    requires Pre(g, st) && st.todo != []
    ensures var r := Next(g, st); TrailGrows(st.visited, st.trail, r.visited, r.trail)
  {
    NextEffect(g, st);
    var r := Next(g, st);
    var n := st.todo[|st.todo| - 1];
    if n in st.visited {
      assert r.trail[|st.trail|..] == [];
    } else {
      assert Elems(r.trail[|st.trail|..]) == {n};
    }
  }

  /** Every trail entry the loop appends is a node that was unmarked before
      and is marked after; the marks it adds are exactly those entries. */
  lemma {:induction false} DrainTrail(g: Graph, st: State)
    requires Pre(g, st)
    decreases |g.nodes.Keys - st.visited|, |st.todo|
    ensures var r := Drain(g, st); TrailGrows(st.visited, st.trail, r.visited, r.trail)
  {
    if st.todo == [] {
      assert st.trail[|st.trail|..] == [];
    } else {
      NextPre(g, st);
      var st2 := Next(g, st);
      NextTrail(g, st);
      DrainTrail(g, st2);
      var r := Drain(g, st2);
      TrailGrowsTrans(st.visited, st.trail, st2.visited, st2.trail, r.visited, r.trail);
    }
  }

  /** The three result sequences. */
  datatype Output = SortsOut | DeclsOut | RecDeclsOut

  function OutputOf(st: State, o: Output): seq<NodeId> {
    match o
    case SortsOut => st.sorts
    case DeclsOut => st.decls
    case RecDeclsOut => st.recDecls
  }

  /** Which nodes belong in which result sequence. */
  predicate Belongs(g: Graph, o: Output, x: NodeId) {
    match o
    case SortsOut => SortCollected(g, x)
    case DeclsOut => DeclCollected(g, x)
    case RecDeclsOut => RecDeclCollected(g, x)
  }

  /** `l` extends `l0` by exactly the nodes marked in `v` but not in `v0`
      that belong in output `o`, each once. */
  ghost predicate AppendsExactly(g: Graph, o: Output, v0: set<NodeId>, l0: seq<NodeId>,
                                 v: set<NodeId>, l: seq<NodeId>) {
    && l0 <= l
    && (forall i :: |l0| <= i < |l| ==> Belongs(g, o, l[i]) && l[i] in v && l[i] !in v0)
    && (forall i, j :: |l0| <= i < j < |l| ==> l[i] != l[j])
    && (forall x :: x in v && x !in v0 && Belongs(g, o, x) ==> x in l[|l0|..])
  }

  lemma AppendsExactlyTrans(g: Graph, o: Output, v0: set<NodeId>, l0: seq<NodeId>,
                            v1: set<NodeId>, l1: seq<NodeId>, v2: set<NodeId>, l2: seq<NodeId>)
    requires v0 <= v1 <= v2
    requires AppendsExactly(g, o, v0, l0, v1, l1) && AppendsExactly(g, o, v1, l1, v2, l2)
    ensures AppendsExactly(g, o, v0, l0, v2, l2)
  {
    assert l2[|l0|..] == l1[|l0|..] + l2[|l1|..];
    forall i, j | |l0| <= i < j < |l2|
      ensures l2[i] != l2[j]
    {
      if i < |l1| && |l1| <= j {
        assert l2[i] == l1[i];
      }
    }
  }

  lemma NextAppends(g: Graph, st: State, o: Output)
    requires Pre(g, st) && st.todo != []
    ensures var r := Next(g, st);
      AppendsExactly(g, o, st.visited, OutputOf(st, o), r.visited, OutputOf(r, o))
  {
    NextEffect(g, st);
    var r := Next(g, st);
    var n := st.todo[|st.todo| - 1];
    if n in st.visited {
      assert OutputOf(r, o)[|OutputOf(st, o)|..] == [];
    } else {
      assert OutputOf(r, o) == OutputOf(st, o) + (if Belongs(g, o, n) then [n] else []);
    }
  }

  /** Sharing safety and filtering: for each result sequence the loop
      appends exactly the newly marked nodes that belong in it (uninterpreted
      and datatype sorts; null-family declarations; recursive-function
      declarations), each once. */
  lemma {:induction false} DrainAppends(g: Graph, st: State, o: Output)
    requires Pre(g, st)
    decreases |g.nodes.Keys - st.visited|, |st.todo|
    ensures var r := Drain(g, st);
      AppendsExactly(g, o, st.visited, OutputOf(st, o), r.visited, OutputOf(r, o))
  {
    if st.todo != [] {
      NextPre(g, st);
      var st2 := Next(g, st);
      NextAppends(g, st, o);
      DrainAppends(g, st2, o);
      DrainExtends(g, st2);
      var r := Drain(g, st2);
      assert st.visited <= st2.visited by {
        NextEffect(g, st);
      }
      AppendsExactlyTrans(g, o, st.visited, OutputOf(st, o), st2.visited, OutputOf(st2, o),
                          r.visited, OutputOf(r, o));
      assert Drain(g, st) == r;
    }
  }

  /** A set of nodes closed under the collector's edges. */
  ghost predicate Closed(g: Graph, v: set<NodeId>)
    requires WellFormed(g)
  {
    forall x, c :: x in v && x in g.nodes && c in Pushed(g, x) ==> c in v
  }

  /** Closed, except for edges whose target is still waiting on the worklist. */
  ghost predicate ClosedUpTo(g: Graph, v: set<NodeId>, todo: seq<NodeId>)
    requires WellFormed(g)
  {
    forall x, c :: x in v && x in g.nodes && c in Pushed(g, x) ==> c in v || c in todo
  }

  lemma NextClosedUpTo(g: Graph, st: State)
    requires Pre(g, st) && st.todo != [] && ClosedUpTo(g, st.visited, st.todo)
    ensures var r := Next(g, st); ClosedUpTo(g, r.visited, r.todo)
  {
    NextEffect(g, st);
    var r := Next(g, st);
    var n := st.todo[|st.todo| - 1];
    var rest := st.todo[..|st.todo| - 1];
    assert st.visited <= r.visited && n in r.visited && rest <= r.todo;
    forall x, c | x in r.visited && x in g.nodes && c in Pushed(g, x)
      ensures c in r.visited || c in r.todo
    {
      if x in st.visited {
        assert c in st.visited || c in rest + [n];
      } else {
        assert x == n && r.todo == rest + Pushed(g, n);
      }
    }
  }

  /** With nothing left on the worklist, closure up to it is closure. */
  lemma ClosedUpToNothing(g: Graph, v: set<NodeId>, todo: seq<NodeId>)
    requires WellFormed(g) && ClosedUpTo(g, v, todo) && todo == []
    ensures Closed(g, v)
  {
    forall x, c | x in v && x in g.nodes && c in Pushed(g, x)
      ensures c in v
    {
      assert c in v || c in todo;
    }
  }

  /** When the loop ends, everything reachable from a marked node is marked. */
  lemma {:induction false} DrainCloses(g: Graph, st: State)
    requires Pre(g, st) && ClosedUpTo(g, st.visited, st.todo)
    decreases |g.nodes.Keys - st.visited|, |st.todo|
    ensures Closed(g, Drain(g, st).visited)
  {
    if st.todo == [] {
      ClosedUpToNothing(g, st.visited, st.todo);
    } else {
      NextPre(g, st);
      NextClosedUpTo(g, st);
      DrainCloses(g, Next(g, st));
      assert Drain(g, st) == Drain(g, Next(g, st));
    }
  }

  /** A path along the collector's edges. */
  ghost predicate Path(g: Graph, p: seq<NodeId>)
    requires WellFormed(g)
  {
    |p| > 0 && (|p| == 1 || (p[0] in g.nodes && p[1] in Pushed(g, p[0]) && Path(g, p[1..])))
  }

  lemma {:induction false} ClosedContainsPaths(g: Graph, v: set<NodeId>, p: seq<NodeId>)
    requires WellFormed(g) && Closed(g, v) && Path(g, p) && p[0] in v
    ensures p[|p| - 1] in v
  {
    if |p| > 1 {
      ClosedContainsPaths(g, v, p[1..]);
    }
  }

  /** `x` can be reached from `root` along the collector's edges. */
  ghost predicate Reachable(g: Graph, root: NodeId, x: NodeId)
    requires WellFormed(g)
  {
    exists p :: Path(g, p) && p[0] == root && p[|p| - 1] == x
  }

  /** A path extends by any node its last node schedules. */
  lemma {:induction false} PathSnoc(g: Graph, p: seq<NodeId>, c: NodeId)
    requires WellFormed(g) && Path(g, p) && p[|p| - 1] in g.nodes && c in Pushed(g, p[|p| - 1])
    ensures Path(g, p + [c])
  {
    var q := p + [c];
    assert q[0] == p[0];
    if |p| == 1 {
      assert q[1..] == [c] && Path(g, [c]);
    } else {
      assert p[1..][|p| - 2] == p[|p| - 1];
      PathSnoc(g, p[1..], c);
      assert q[1..] == p[1..] + [c];
    }
  }

  /** Reachability extends along one edge. */
  lemma ReachableStep(g: Graph, root: NodeId, x: NodeId, c: NodeId)
    requires WellFormed(g) && Reachable(g, root, x) && x in g.nodes && c in Pushed(g, x)
    ensures Reachable(g, root, c)
  {
    var p :| Path(g, p) && p[0] == root && p[|p| - 1] == x;
    PathSnoc(g, p, c);
    var q := p + [c];
    assert q[0] == root && q[|q| - 1] == c;
  }

  /** Everything on the worklist, and every node marked since the marks
      `v0`, is reachable from `root`. */
  ghost predicate FromRoot(g: Graph, root: NodeId, v0: set<NodeId>, st: State)
    requires WellFormed(g)
  {
    && (forall i :: 0 <= i < |st.todo| ==> Reachable(g, root, st.todo[i]))
    && (forall x :: x in st.visited && x !in v0 ==> Reachable(g, root, x))
  }

  /** One iteration keeps the worklist and the new marks reachable. */
  lemma NextFromRoot(g: Graph, st: State, v0: set<NodeId>, root: NodeId)
    requires Pre(g, st) && st.todo != [] && FromRoot(g, root, v0, st)
    ensures FromRoot(g, root, v0, Next(g, st))
  {
    NextEffect(g, st);
    var r := Next(g, st);
    var k := |st.todo| - 1;
    var n := st.todo[k];
    assert Reachable(g, root, n);
    if n in st.visited {
      forall i | 0 <= i < |r.todo|
        ensures Reachable(g, root, r.todo[i])
      {
        assert r.todo[i] == st.todo[i];
      }
    } else {
      forall i | 0 <= i < |r.todo|
        ensures Reachable(g, root, r.todo[i])
      {
        if i < k {
          assert r.todo[i] == st.todo[i];
        } else {
          assert r.todo[i] in Pushed(g, n);
          ReachableStep(g, root, n, r.todo[i]);
        }
      }
    }
  }

  /** The loop marks only nodes reachable from `root` while everything it
      starts with on its worklist is. */
  lemma {:induction false} DrainFromRoot(g: Graph, st: State, v0: set<NodeId>, root: NodeId)
    requires Pre(g, st) && FromRoot(g, root, v0, st)
    decreases |g.nodes.Keys - st.visited|, |st.todo|
    ensures forall x :: x in Drain(g, st).visited && x !in v0 ==> Reachable(g, root, x)
  {
    if st.todo != [] {
      NextPre(g, st);
      NextFromRoot(g, st, v0, root);
      DrainFromRoot(g, Next(g, st), v0, root);
      assert Drain(g, st) == Drain(g, Next(g, st));
    }
  }

  /** A visit started with an empty worklist marks only nodes reachable
      from the root, so each result sequence gains only such nodes. */
  lemma VisitOnlyReachable(g: Graph, st: State, root: NodeId)
    requires Pre(g, st) && st.todo == [] && root in g.nodes
    ensures var r := VisitSpec(g, st, root);
      && (forall x :: x in r.visited && x !in st.visited ==> Reachable(g, root, x))
      && (forall o: Output, i :: |OutputOf(st, o)| <= i < |OutputOf(r, o)| ==>
            Reachable(g, root, OutputOf(r, o)[i]))
  {
    var r := VisitSpec(g, st, root);
    if root !in st.visited {
      var st1 := st.(todo := st.todo + [root]);
      var p := [root];
      assert Path(g, p) && p[0] == root && p[|p| - 1] == root;
      assert st1.todo == [root];
      DrainFromRoot(g, st1, st.visited, root);
      forall o: Output, i | |OutputOf(st, o)| <= i < |OutputOf(r, o)|
        ensures Reachable(g, root, OutputOf(r, o)[i])
      {
        DrainAppends(g, st1, o);
        assert OutputOf(st1, o) == OutputOf(st, o);
      }
    }
  }

  /** Starting from a state whose marks are closed, a visit marks the root
      and everything reachable from it, and its marks stay closed. */
  lemma VisitCollectsReachable(g: Graph, st: State, root: NodeId)
    requires Pre(g, st) && st.todo == [] && Closed(g, st.visited) && root in g.nodes
    ensures var r := VisitSpec(g, st, root);
      && root in r.visited && Closed(g, r.visited)
      && (forall p :: Path(g, p) && p[0] == root ==> p[|p| - 1] in r.visited)
  {
    var r := VisitSpec(g, st, root);
    if root !in st.visited {
      var st1 := st.(todo := st.todo + [root]);
      DrainExtends(g, st1);
      DrainMarksWorklist(g, st1);
      DrainCloses(g, st1);
    }
    forall p | Path(g, p) && p[0] == root
      ensures p[|p| - 1] in r.visited
    {
      ClosedContainsPaths(g, r.visited, p);
    }
  }

  /** For each result sequence, a visit appends exactly the nodes it newly
      marks that belong there, each once, and only adds marks. */
  lemma VisitAppends(g: Graph, st: State, root: NodeId, o: Output)
    requires Pre(g, st) && root in g.nodes
    ensures var r := VisitSpec(g, st, root);
      && Pre(g, r) && st.visited <= r.visited
      && AppendsExactly(g, o, st.visited, OutputOf(st, o), r.visited, OutputOf(r, o))
  {
    if root !in st.visited {
      var st1 := st.(todo := st.todo + [root]);
      DrainExtends(g, st1);
      DrainAppends(g, st1, o);
      assert OutputOf(st1, o) == OutputOf(st, o);
    } else {
      assert OutputOf(st, o)[|OutputOf(st, o)|..] == [];
    }
  }

  /** Sharing safety over two roots: the two visits together append to
      each result sequence exactly the nodes they newly mark that belong
      there, each once, so a node both roots reach is collected once. */
  lemma TwoVisitsAppendOnce(g: Graph, st: State, a: NodeId, b: NodeId, o: Output)
    requires Pre(g, st) && a in g.nodes && b in g.nodes
    ensures Pre(g, VisitSpec(g, st, a))
    ensures var r1 := VisitSpec(g, st, a);
      var r2 := VisitSpec(g, r1, b);
      AppendsExactly(g, o, st.visited, OutputOf(st, o), r2.visited, OutputOf(r2, o))
  {
    var r1 := VisitSpec(g, st, a);
    VisitAppends(g, st, a, o);
    var r2 := VisitSpec(g, r1, b);
    VisitAppends(g, r1, b, o);
    AppendsExactlyTrans(g, o, st.visited, OutputOf(st, o), r1.visited, OutputOf(r1, o),
                        r2.visited, OutputOf(r2, o));
  }

  /** Visiting the same root twice is the same as visiting it once. */
  lemma VisitIdempotent(g: Graph, st: State, root: NodeId)
    requires Pre(g, st) && root in g.nodes
    ensures Pre(g, VisitSpec(g, st, root))
    ensures VisitSpec(g, VisitSpec(g, st, root), root) == VisitSpec(g, st, root)
  {
    if root !in st.visited {
      DrainExtends(g, st.(todo := st.todo + [root]));
      DrainMarksWorklist(g, st.(todo := st.todo + [root]));
    }
  }
}
