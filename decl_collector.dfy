/** The declaration collector: walks the expression graph from the roots it
    is given, collects the user-visible sorts, the uninterpreted function
    declarations and the recursively defined functions it meets, and undoes
    that work scope by scope. */
module DeclCollector {
  import opened Ast
  import opened Traversal
  import opened Dependencies

  /** A stack of saved lengths: non-decreasing and within the current length. */
  ghost predicate Stack(lim: seq<nat>, len: nat) {
    && (forall i, j :: 0 <= i <= j < |lim| ==> lim[i] <= lim[j])
    && (forall i :: 0 <= i < |lim| ==> lim[i] <= len)
  }

  /** Each saved trail length splits the trail into two parts with no node
      in common, and the marks of the first part are closed under the
      collector's edges. */
  ghost predicate ScopedTrail(g: Graph, t: seq<NodeId>, lim: seq<nat>)
    requires WellFormed(g) && Stack(lim, |t|)
  {
    && (forall k, i, j :: 0 <= k < |lim| && 0 <= i < lim[k] <= j < |t| ==> t[i] != t[j])
    && (forall k :: 0 <= k < |lim| ==> Closed(g, Elems(t[..lim[k]])))
  }

  /** The collector's invariant between calls. The marks are exactly the
      nodes on the trail (function declarations appear there twice), they
      are closed under the collector's edges, the sort list holds sorts, and
      there is one saved length per open scope for the trail and each result
      sequence. */
  ghost predicate Inv(g: Graph, st: State, trailLim: seq<nat>, sortsLim: seq<nat>,
                      declsLim: seq<nat>, recDeclsLim: seq<nat>)
  {
    && Pre(g, st) && st.todo == []
    && st.visited == Elems(st.trail)
    && Closed(g, st.visited)
    && (forall i :: 0 <= i < |st.sorts| ==> IsSort(g, st.sorts[i]))
    && |sortsLim| == |trailLim| && |declsLim| == |trailLim| && |recDeclsLim| == |trailLim|
    && Stack(trailLim, |st.trail|) && Stack(sortsLim, |st.sorts|)
    && Stack(declsLim, |st.decls|) && Stack(recDeclsLim, |st.recDecls|)
    && ScopedTrail(g, st.trail, trailLim)
  }

  lemma ElemsPrefixSuffix(t: seq<NodeId>, k: nat)
    requires k <= |t|
    ensures Elems(t) == Elems(t[..k]) + Elems(t[k..])
  {
    assert t == t[..k] + t[k..];
    ElemsAppend(t[..k], t[k..]);
  }

  /** A visit keeps the invariant and only extends the trail and the result sequences. */
  lemma VisitKeepsInv(g: Graph, st: State, tl: seq<nat>, sl: seq<nat>, dl: seq<nat>, rl: seq<nat>,
                      root: NodeId)
    requires Inv(g, st, tl, sl, dl, rl) && root in g.nodes
    ensures var r := VisitSpec(g, st, root);
      && Inv(g, r, tl, sl, dl, rl)
      && st.trail <= r.trail && st.sorts <= r.sorts
      && st.decls <= r.decls && st.recDecls <= r.recDecls
  {
    if root !in st.visited {
      var st1 := st.(todo := [root]);
      var r := Drain(g, st1);
      DrainExtends(g, st1);
      DrainTrail(g, st1);
      DrainAppends(g, st1, SortsOut);
      DrainCloses(g, st1);
      ElemsPrefixSuffix(r.trail, |st.trail|);
      assert r.trail[..|st.trail|] == st.trail;
      forall i | 0 <= i < |r.sorts|
        ensures IsSort(g, r.sorts[i])
      {
        if i >= |st.sorts| {
          assert Belongs(g, SortsOut, r.sorts[i]);
        }
      }
      ScopedTrailGrows(g, st.trail, r.trail, tl);
    }
  }

  /** Appending nodes that are not yet on the trail keeps every scope split. */
  lemma ScopedTrailGrows(g: Graph, t: seq<NodeId>, r: seq<NodeId>, tl: seq<nat>)
    requires WellFormed(g) && Stack(tl, |t|) && ScopedTrail(g, t, tl) && t <= r
    requires forall i :: |t| <= i < |r| ==> r[i] !in Elems(t)
    ensures Stack(tl, |r|) && ScopedTrail(g, r, tl)
  {
    forall k, i, j | 0 <= k < |tl| && 0 <= i < tl[k] <= j < |r|
      ensures r[i] != r[j]
    {
      assert r[i] == t[i];
      assert t[i] in Elems(t);
    }
    forall k | 0 <= k < |tl|
      ensures Closed(g, Elems(r[..tl[k]]))
    {
      assert r[..tl[k]] == t[..tl[k]];
    }
  }

  /** Opening a scope keeps the invariant. */
  lemma PushKeepsInv(g: Graph, st: State, tl: seq<nat>, sl: seq<nat>, dl: seq<nat>, rl: seq<nat>)
    requires Inv(g, st, tl, sl, dl, rl)
    ensures Inv(g, st, tl + [|st.trail|], sl + [|st.sorts|], dl + [|st.decls|], rl + [|st.recDecls|])
  {
    assert st.trail[..|st.trail|] == st.trail;
  }

  /** Closing the `n` innermost scopes keeps the invariant, and the marks it
      keeps are exactly those of the trail up to the saved length. */
  lemma PopKeepsInv(g: Graph, st: State, tl: seq<nat>, sl: seq<nat>, dl: seq<nat>, rl: seq<nat>,
                    n: nat)
    requires Inv(g, st, tl, sl, dl, rl) && 0 < n <= |tl|
    ensures var m := |tl| - n;
      var sz := tl[m];
      && st.visited - Elems(st.trail[sz..]) == Elems(st.trail[..sz])
      && Inv(g, State(Elems(st.trail[..sz]), st.trail[..sz], st.sorts[..sl[m]],
                      st.decls[..dl[m]], st.recDecls[..rl[m]], []),
             tl[..m], sl[..m], dl[..m], rl[..m])
  {
    var m := |tl| - n;
    var sz := tl[m];
    PopMarks(st.trail, sz, tl, m);
    ScopedTrailPrefix(g, st.trail, tl, m);
    StackPrefix(sl, |st.sorts|, m);
    StackPrefix(dl, |st.decls|, m);
    StackPrefix(rl, |st.recDecls|, m);
    var r := State(Elems(st.trail[..sz]), st.trail[..sz], st.sorts[..sl[m]],
                   st.decls[..dl[m]], st.recDecls[..rl[m]], []);
    assert r.visited <= st.visited;
    assert Pre(g, r);
    assert forall i :: 0 <= i < |r.sorts| ==> IsSort(g, r.sorts[i]) by {
      forall i | 0 <= i < |r.sorts|
        ensures IsSort(g, r.sorts[i])
      {
        assert r.sorts[i] == st.sorts[i];
      }
    }
    assert st.visited - Elems(st.trail[sz..]) == Elems(st.trail[..sz]);
  }

  /** The entries for a slice grow by one entry per sort added at its end. */
  lemma DepEntriesSnoc(g: Graph, ss: seq<NodeId>, n: nat, i: nat)
    requires WellFormed(g) && n <= i < |ss|
    requires forall k :: 0 <= k < |ss| ==> IsSort(g, ss[k])
    ensures DepEntries(g, ss[n..i + 1])
         == DepEntries(g, ss[n..i]) + [DepEntry(ss[i], DepsOf(g, ss[i]) - {ss[i]})]
  {
    assert ss[n..i + 1][..i - n] == ss[n..i];
  }

  /** Restates the invariant for values just shown equal to the ones it
      holds of; it keeps the frame reasoning in `Pop` small. */
  lemma InvTransfer(g: Graph, st: State, tl: seq<nat>, sl: seq<nat>, dl: seq<nat>, rl: seq<nat>,
                    st': State, tl': seq<nat>, sl': seq<nat>, dl': seq<nat>, rl': seq<nat>)
    requires Inv(g, st, tl, sl, dl, rl)
    requires st' == st && tl' == tl && sl' == sl && dl' == dl && rl' == rl
    ensures Inv(g, st', tl', sl', dl', rl')
  {
  }

  /** Cutting a stack of saved lengths at `m` leaves a stack within the length saved at `m`. */
  lemma StackPrefix(lim: seq<nat>, len: nat, m: nat)
    requires Stack(lim, len) && m < |lim|
    ensures Stack(lim[..m], lim[m]) && lim[m] <= len
  {
  }

  /** No node sits on both sides of a saved trail length, so unmarking the
      entries after it leaves exactly the marks of the entries before it. */
  lemma PopMarks(t: seq<NodeId>, sz: nat, tl: seq<nat>, m: nat)
    requires Stack(tl, |t|) && m < |tl| && tl[m] == sz
    requires forall k, i, j :: 0 <= k < |tl| && 0 <= i < tl[k] <= j < |t| ==> t[i] != t[j]
    ensures Elems(t) - Elems(t[sz..]) == Elems(t[..sz])
  {
    ElemsPrefixSuffix(t, sz);
    forall x | x in Elems(t[..sz])
      ensures x !in Elems(t[sz..])
    {
      var i :| 0 <= i < sz && t[i] == x;
      forall j | sz <= j < |t|
        ensures t[j] != x
      {
        assert 0 <= m < |tl| && 0 <= i < tl[m] <= j < |t|;
      }
    }
  }

  /** The scopes outside the `m`-th still split the trail cut at the `m`-th. */
  lemma ScopedTrailPrefix(g: Graph, t: seq<NodeId>, tl: seq<nat>, m: nat)
    requires WellFormed(g) && Stack(tl, |t|) && ScopedTrail(g, t, tl) && m < |tl|
    ensures Stack(tl[..m], tl[m]) && tl[m] <= |t|
    ensures ScopedTrail(g, t[..tl[m]], tl[..m])
    ensures Closed(g, Elems(t[..tl[m]]))
  {
    var u := t[..tl[m]];
    forall k | 0 <= k < m
      ensures Closed(g, Elems(u[..tl[k]]))
    {
      assert u[..tl[k]] == t[..tl[k]];
    }
  }

  /** Replacing the suffix of the sort list by as many sorts keeps the invariant. */
  lemma OrderKeepsInv(g: Graph, st: State, tl: seq<nat>, sl: seq<nat>, dl: seq<nat>, rl: seq<nat>,
                      n: nat, out: seq<NodeId>)
    requires Inv(g, st, tl, sl, dl, rl)
    requires n <= |st.sorts| && |out| == |st.sorts| - n
    requires forall x :: x in out ==> IsSort(g, x)
    ensures Inv(g, st.(sorts := st.sorts[..n] + out), tl, sl, dl, rl)
  {
    var s := st.sorts[..n] + out;
    forall i | 0 <= i < |s|
      ensures IsSort(g, s[i])
    {
      if i >= n {
        assert s[i] == out[i - n];
      }
    }
  }

  class Collector {
    /** The graph, with the manager's and the utilities' answers. */
    const g: Graph
    var visited: set<NodeId>
    var trail: seq<NodeId>
    var trailLim: seq<nat>
    var sorts: seq<NodeId>
    var decls: seq<NodeId>
    var recDecls: seq<NodeId>
    /** Saved lengths of the three result sequences, one per open scope. */
    var sortsLim: seq<nat>
    var declsLim: seq<nat>
    var recDeclsLim: seq<nat>
    var todo: seq<NodeId>

    ghost function Snapshot(): State
      reads this
    {
      State(visited, trail, sorts, decls, recDecls, todo)
    }

    ghost predicate Valid()
      reads this
    {
      Inv(g, Snapshot(), trailLim, sortsLim, declsLim, recDeclsLim)
    }

    constructor (graph: Graph)
      requires WellFormed(graph)
      ensures Valid() && g == graph
      ensures visited == {} && trail == [] && trailLim == []
      ensures sorts == [] && decls == [] && recDecls == []
    {
      g := graph;
      visited, trail, trailLim := {}, [], [];
      sorts, decls, recDecls := [], [], [];
      sortsLim, declsLim, recDeclsLim := [], [], [];
      todo := [];
    }

    /** Pushes `xs` onto the worklist in order. */
    method PushAll(xs: seq<NodeId>)
      modifies this`todo
      ensures todo == old(todo) + xs
    {
      for i := 0 to |xs|
        invariant todo == old(todo) + xs[..i]
      {
        todo := todo + [xs[i]];
      }
    }

    /** Classifies an unmarked sort: uninterpreted and datatype sorts are
        collected, a datatype's constructors and accessors are scheduled, and
        every parameter that wraps a node is scheduled. */
    method VisitSort(n: NodeId)
      requires WellFormed(g) && IsSort(g, n) && n !in visited
      modifies this`sorts, this`todo
      ensures Snapshot() == ClassifySort(g, old(Snapshot()), n)
    {
      assert NodeWellFormed(g, n);
      var s := g.nodes[n];
      if n in g.uninterp {
        sorts := sorts + [n];
      } else if s.family == DatatypeFamily {
        sorts := sorts + [n];
        PushCtors(g.constructors[n]);
      }
      PushParams(s.params);
    }

    /** Pushes each constructor followed by its accessors. */
    method PushCtors(cs: seq<NodeId>)
      requires CtorsWellFormed(g, cs)
      modifies this`todo
      ensures todo == old(todo) + CtorTodo(g, cs)
    {
      for i := 0 to |cs|
        invariant todo == old(todo) + CtorTodo(g, cs[..i])
      {
        assert cs[..i + 1][..i] == cs[..i];
        todo := todo + [cs[i]];
        PushAll(g.accessors[cs[i]]);
      }
      assert cs[..|cs|] == cs;
    }

    /** Pushes the parameters that wrap a node, last parameter first. */
    method PushParams(ps: seq<Parameter>)
      modifies this`todo
      ensures todo == old(todo) + ParamTodo(ps)
    {
      for i := |ps| downto 0
        invariant todo == old(todo) + ParamTodo(ps[i..])
      {
        assert ps[i..][1..] == ps[i + 1..];
        if ps[i].AstParam? {
          todo := todo + [ps[i].ast];
        }
      }
      assert ps[0..] == ps;
    }

    /** Classifies a function declaration not yet marked: null-family
        declarations are collected, recursive functions are collected and
        their definition's right-hand side scheduled; the declaration is
        then marked and put on the trail. */
    method VisitFunc(n: NodeId)
      requires WellFormed(g) && IsFuncDecl(g, n)
      modifies this`decls, this`recDecls, this`todo, this`visited, this`trail
      ensures Snapshot() == ClassifyFunc(g, old(Snapshot()), n)
    {
      assert NodeWellFormed(g, n);
      if n !in visited {
        var fam := g.nodes[n].family;
        if fam == NullFamily {
          decls := decls + [n];
        } else if fam == RecFunFamily {
          recDecls := recDecls + [n];
          todo := todo + [g.recRhs[n]];
        }
        visited := visited + {n};
        trail := trail + [n];
      }
    }

    /** One iteration on an unmarked node: schedules the node's children
        (classifying sorts and function declarations on the way), then marks
        the node and puts it on the trail. */
    method VisitNode(n: NodeId)
      requires WellFormed(g) && n in g.nodes && n !in visited
      modifies this`visited, this`trail, this`sorts, this`decls, this`recDecls, this`todo
      ensures Snapshot() == Step(g, old(Snapshot()), n)
    {
      assert NodeWellFormed(g, n);
      match g.nodes[n] {
        case App(args, d) =>
          PushAll(args);
          todo := todo + [d];
        case Quantifier(bs, body, pats) =>
          PushAll(bs);
          todo := todo + [body];
          PushAll(pats);
        case Sort(_, _, _) =>
          VisitSort(n);
        case FuncDecl(_, dom, r) =>
          PushAll(dom);
          todo := todo + [r];
          VisitFunc(n);
        case Var =>
      }
      visited := visited + {n};
      trail := trail + [n];
    }

    /** Collects everything reachable from `root`, unless `root` is already
        marked. */
    method Visit(root: NodeId)
      requires Valid() && root in g.nodes
      modifies this`visited, this`trail, this`sorts, this`decls, this`recDecls, this`todo
      ensures Valid()
      ensures Snapshot() == VisitSpec(g, old(Snapshot()), root)
      ensures root in old(visited) ==> Snapshot() == old(Snapshot())
      ensures old(trail) <= trail && old(sorts) <= sorts
      ensures old(decls) <= decls && old(recDecls) <= recDecls
    {
      VisitKeepsInv(g, Snapshot(), trailLim, sortsLim, declsLim, recDeclsLim, root);
      if root in visited {
        return;
      }
      todo := todo + [root];
      RunWorklist();
    }

    /** The worklist loop: runs until the worklist is empty. */
    method RunWorklist()
      requires Pre(g, Snapshot())
      modifies this`visited, this`trail, this`sorts, this`decls, this`recDecls, this`todo
      ensures Snapshot() == Drain(g, old(Snapshot()))
    {
      ghost var start := Snapshot();
      while todo != []
        invariant Pre(g, Snapshot())
        invariant Drain(g, Snapshot()) == Drain(g, start)
        decreases |g.nodes.Keys - visited|, |todo|
      {
        NextPre(g, Snapshot());
        Iterate();
      }
    }

    /** One iteration: pops the last worklist entry and, when it is unmarked,
        expands, classifies and marks it. */
    method Iterate()
      requires Pre(g, Snapshot()) && todo != []
      modifies this`visited, this`trail, this`sorts, this`decls, this`recDecls, this`todo
      ensures Snapshot() == Next(g, old(Snapshot()))
    {
      var n := todo[|todo| - 1];
      todo := todo[..|todo| - 1];
      if n !in visited {
        VisitNode(n);
      }
    }

    /** Opens a scope: saves the trail length and the length of each result sequence. */
    method Push()
      requires Valid()
      modifies this`trailLim, this`sortsLim, this`declsLim, this`recDeclsLim
      ensures Valid()
      ensures trailLim == old(trailLim) + [|trail|]
      ensures sortsLim == old(sortsLim) + [|sorts|]
      ensures declsLim == old(declsLim) + [|decls|]
      ensures recDeclsLim == old(recDeclsLim) + [|recDecls|]
    {
      PushKeepsInv(g, Snapshot(), trailLim, sortsLim, declsLim, recDeclsLim);
      trailLim := trailLim + [|trail|];
      sortsLim := sortsLim + [|sorts|];
      declsLim := declsLim + [|decls|];
      recDeclsLim := recDeclsLim + [|recDecls|];
    }

    /** Closes the `n` innermost scopes: unmarks every node put on the trail
        since the oldest of them was opened, and truncates the trail and the
        result sequences to the lengths saved when it was opened. */
    method Pop(n: nat)
      requires Valid() && 0 < n <= |trailLim|
      modifies this`visited, this`trail, this`trailLim, this`sorts, this`sortsLim
      modifies this`decls, this`declsLim, this`recDecls, this`recDeclsLim
      ensures Valid()
      ensures var m := |old(trailLim)| - n;
        var sz := old(trailLim)[m];
        Snapshot() == State(old(visited) - Elems(old(trail)[sz..]), old(trail)[..sz],
                            old(sorts)[..old(sortsLim)[m]], old(decls)[..old(declsLim)[m]],
                            old(recDecls)[..old(recDeclsLim)[m]], [])
      ensures var m := |old(trailLim)| - n;
        (trailLim, sortsLim, declsLim, recDeclsLim)
        == (old(trailLim)[..m], old(sortsLim)[..m], old(declsLim)[..m], old(recDeclsLim)[..m])
    {
      PopKeepsInv(g, Snapshot(), trailLim, sortsLim, declsLim, recDeclsLim, n);
      var m := |trailLim| - n;
      var sz := trailLim[m];
      ghost var target := State(Elems(trail[..sz]), trail[..sz], sorts[..sortsLim[m]],
                                decls[..declsLim[m]], recDecls[..recDeclsLim[m]], []);
      ghost var lims := (trailLim[..m], sortsLim[..m], declsLim[..m], recDeclsLim[..m]);
      Unmark(sz);
      Shrink(m);
      InvTransfer(g, target, lims.0, lims.1, lims.2, lims.3,
                  Snapshot(), trailLim, sortsLim, declsLim, recDeclsLim);
    }

    /** Truncates the trail and each result sequence to the length saved in
        scope `m`, and drops the saved lengths from scope `m` on. */
    method Shrink(m: nat)
      requires m < |trailLim| && trailLim[m] <= |trail|
      requires m < |sortsLim| && sortsLim[m] <= |sorts|
      requires m < |declsLim| && declsLim[m] <= |decls|
      requires m < |recDeclsLim| && recDeclsLim[m] <= |recDecls|
      modifies this`trail, this`trailLim, this`sorts, this`sortsLim
      modifies this`decls, this`declsLim, this`recDecls, this`recDeclsLim
      ensures trail == old(trail)[..old(trailLim)[m]] && trailLim == old(trailLim)[..m]
      ensures sorts == old(sorts)[..old(sortsLim)[m]] && sortsLim == old(sortsLim)[..m]
      ensures decls == old(decls)[..old(declsLim)[m]] && declsLim == old(declsLim)[..m]
      ensures recDecls == old(recDecls)[..old(recDeclsLim)[m]] && recDeclsLim == old(recDeclsLim)[..m]
    {
      trail := trail[..trailLim[m]];
      trailLim := trailLim[..m];
      sorts := sorts[..sortsLim[m]];
      sortsLim := sortsLim[..m];
      decls := decls[..declsLim[m]];
      declsLim := declsLim[..m];
      recDecls := recDecls[..recDeclsLim[m]];
      recDeclsLim := recDeclsLim[..m];
    }

    /** Unmarks the trail entries from index `sz` on, last entry first. */
    method Unmark(sz: nat)
      requires sz <= |trail|
      modifies this`visited
      ensures visited == old(visited) - Elems(trail[sz..])
    {
      for i := |trail| downto sz
        invariant visited == old(visited) - Elems(trail[i..])
      {
        assert trail[i..] == [trail[i]] + trail[i + 1..];
        ElemsAppend([trail[i]], trail[i + 1..]);
        visited := visited - {trail[i]};
      }
    }

    /** Adds `s` and its direct dependencies to `acc`, unless `s` is already there. */
    method CollectDepsInto(s: NodeId, acc: set<NodeId>) returns (r: set<NodeId>)
      requires WellFormed(g) && IsSort(g, s)
      ensures r == if s in acc then acc else acc + {s} + DepsOf(g, s)
    {
      if s in acc {
        return acc;
      }
      assert NodeWellFormed(g, s);
      r := acc + {s};
      if IsDatatypeSort(g, s) {
        r := InsertAll(g.paramSorts[s], r);
        r := InsertCtorDeps(g.constructors[s], r);
      }
      r := InsertParamSorts(g.nodes[s].params, r);
    }

    /** Adds the elements of `xs` to `acc`. */
    method InsertAll(xs: seq<NodeId>, acc: set<NodeId>) returns (r: set<NodeId>)
      ensures r == acc + Elems(xs)
    {
      r := acc;
      for i := 0 to |xs|
        invariant r == acc + Elems(xs[..i])
      {
        assert xs[..i + 1] == xs[..i] + [xs[i]];
        ElemsAppend(xs[..i], [xs[i]]);
        r := r + {xs[i]};
      }
      assert xs[..|xs|] == xs;
    }

    /** Adds each constructor's range and domain sorts to `acc`. */
    method InsertCtorDeps(cs: seq<NodeId>, acc: set<NodeId>) returns (r: set<NodeId>)
      requires CtorsWellFormed(g, cs)
      ensures r == acc + CtorDeps(g, cs)
    {
      r := acc;
      for i := 0 to |cs|
        invariant r == acc + CtorDeps(g, cs[..i])
      {
        assert cs[..i + 1][..i] == cs[..i];
        var c := cs[i];
        r := r + {g.nodes[c].range};
        r := InsertAll(g.nodes[c].domain, r);
      }
      assert cs[..|cs|] == cs;
    }

    /** Adds the parameters that wrap a sort to `acc`, last parameter first. */
    method InsertParamSorts(ps: seq<Parameter>, acc: set<NodeId>) returns (r: set<NodeId>)
      ensures r == acc + ParamSorts(g, ps)
    {
      r := acc;
      for i := |ps| downto 0
        invariant r == acc + ParamSorts(g, ps[i..])
      {
        assert ps[i..][1..] == ps[i + 1..];
        if ps[i].AstParam? && IsSort(g, ps[i].ast) {
          r := r + {ps[i].ast};
        }
      }
      assert ps[0..] == ps;
    }

    /** The dependency set of `s`: its direct dependencies, never `s` itself. */
    method CollectDeps(s: NodeId) returns (r: set<NodeId>)
      requires WellFormed(g) && IsSort(g, s)
      ensures r == DepsOf(g, s) - {s}
      ensures s !in r
    {
      r := CollectDepsInto(s, {});
      r := r - {s};
    }

    /** The entries handed to the ordering primitive for the sorts from index
        `n` on: each sort with its dependency set, in collection order. */
    method EntriesFrom(n: nat) returns (entries: seq<DepEntry>)
      requires WellFormed(g) && n <= |sorts|
      requires forall i :: 0 <= i < |sorts| ==> IsSort(g, sorts[i])
      ensures entries == DepEntries(g, sorts[n..])
    {
      var ss := sorts;
      entries := [];
      for i := n to |ss|
        invariant entries == DepEntries(g, ss[n..i])
      {
        DepEntriesSnoc(g, ss, n, i);
        var s := ss[i];
        var deps := CollectDeps(s);
        entries := entries + [DepEntry(s, deps)];
      }
      assert ss[n..|ss|] == ss[n..];
    }

    /** Reorders the sorts from index `n` on: each is handed to the ordering
        primitive `topSort` with its dependency set, and the suffix is
        replaced by the primitive's output. The first `n` sorts stay put.
        Of the primitive, only this is assumed: on these entries it returns
        sorts, as many as it was given. */
    method OrderDeps(n: nat, topSort: seq<DepEntry> -> seq<NodeId>)
      requires Valid()
      requires n <= |sorts|
      requires |topSort(DepEntries(g, sorts[n..]))| == |sorts| - n
      requires forall x :: x in topSort(DepEntries(g, sorts[n..])) ==> IsSort(g, x)
      modifies this`sorts
      ensures Valid()
      ensures sorts == old(sorts)[..n] + topSort(DepEntries(g, old(sorts)[n..]))
      ensures sorts[..n] == old(sorts)[..n]
    {
      OrderKeepsInv(g, Snapshot(), trailLim, sortsLim, declsLim, recDeclsLim, n,
                    topSort(DepEntries(g, sorts[n..])));
      var entries := EntriesFrom(n);
      var sorted := topSort(entries);
      ReplaceSuffix(n, sorted);
    }

    /** Shrinks the sort list to its first `n` entries and appends `out`. */
    method ReplaceSuffix(n: nat, out: seq<NodeId>)
      requires n <= |sorts|
      modifies this`sorts
      ensures sorts == old(sorts)[..n] + out
    {
      sorts := sorts[..n];
      for i := 0 to |out|
        invariant sorts == old(sorts)[..n] + out[..i]
      {
        sorts := sorts + [out[i]];
      }
      assert out[..|out|] == out;
    }
  }

  /** A scope opened, used for one visit and closed again leaves no trace. */
  method VisitInScope(c: Collector, x: NodeId)
    requires c.Valid() && x in c.g.nodes
    modifies c
    ensures c.Valid()
    ensures c.visited == old(c.visited) && c.trail == old(c.trail)
    ensures c.sorts == old(c.sorts) && c.decls == old(c.decls) && c.recDecls == old(c.recDecls)
    ensures c.trailLim == old(c.trailLim) && c.sortsLim == old(c.sortsLim)
    ensures c.declsLim == old(c.declsLim) && c.recDeclsLim == old(c.recDeclsLim)
  {
    ghost var lim := c.trailLim;
    VisitInNewScope(c, x);
    assert c.trailLim[|lim|] == |old(c.trail)|;
    c.Pop(1);
  }

  /** Opens a scope and visits `x` in it. */
  method VisitInNewScope(c: Collector, x: NodeId)
    requires c.Valid() && x in c.g.nodes
    modifies c
    ensures c.Valid()
    ensures c.trailLim == old(c.trailLim) + [|old(c.trail)|]
    ensures c.sortsLim == old(c.sortsLim) + [|old(c.sorts)|]
    ensures c.declsLim == old(c.declsLim) + [|old(c.decls)|]
    ensures c.recDeclsLim == old(c.recDeclsLim) + [|old(c.recDecls)|]
    ensures old(c.trail) <= c.trail && old(c.sorts) <= c.sorts
    ensures old(c.decls) <= c.decls && old(c.recDecls) <= c.recDecls
  {
    c.Push();
    c.Visit(x);
  }

  /** Closing two nested scopes at once undoes both visits. */
  method NestedScopes(c: Collector, a: NodeId, b: NodeId)
    requires c.Valid() && a in c.g.nodes && b in c.g.nodes
    modifies c
    ensures c.Valid()
    ensures c.visited == old(c.visited) && c.trail == old(c.trail)
    ensures c.sorts == old(c.sorts) && c.decls == old(c.decls) && c.recDecls == old(c.recDecls)
  {
    ghost var lim := c.trailLim;
    VisitInNewScope(c, a);
    VisitInNewScope(c, b);
    assert c.trailLim[|lim|] == |old(c.trail)|;
    c.Pop(2);
  }
}
