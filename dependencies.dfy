/** The direct dependencies of a sort, used to order the sorts collected in
    the current batch: a datatype's parameter sorts and its constructors'
    range and domain sorts, and any sort found among the sort's parameters.
    Dependencies are not followed further. */
module Dependencies {
  import opened Ast

  /** Range and domain sorts of a sequence of constructors. */
  function CtorDeps(g: Graph, cs: seq<NodeId>): set<NodeId>
    requires CtorsWellFormed(g, cs)
  {
    if cs == [] then {}
    else
      var c := cs[|cs| - 1];
      CtorDeps(g, cs[..|cs| - 1]) + {g.nodes[c].range} + Elems(g.nodes[c].domain)
  }

  /** The parameters that wrap a sort. */
  function ParamSorts(g: Graph, ps: seq<Parameter>): set<NodeId> {
    if ps == [] then {}
    else
      (if ps[0].AstParam? && IsSort(g, ps[0].ast) then {ps[0].ast} else {})
      + ParamSorts(g, ps[1..])
  }

  /** What the collector gathers for sort `s`, `s` itself aside. */
  function DepsOf(g: Graph, s: NodeId): set<NodeId>
    requires WellFormed(g) && IsSort(g, s)
  {
    assert NodeWellFormed(g, s);
    (if IsDatatypeSort(g, s)
     then Elems(g.paramSorts[s]) + CtorDeps(g, g.constructors[s])
     else {})
    + ParamSorts(g, g.nodes[s].params)
  }

  /** The same, stated declaratively: `x` is a direct dependency of `s`. */
  ghost predicate DirectDep(g: Graph, s: NodeId, x: NodeId)
    requires WellFormed(g) && IsSort(g, s)
  {
    assert NodeWellFormed(g, s);
    || (IsDatatypeSort(g, s) &&
        (|| x in g.paramSorts[s]
         || exists i :: 0 <= i < |g.constructors[s]| &&
              var c := g.constructors[s][i];
              (x == g.nodes[c].range || x in g.nodes[c].domain)))
    || (AstParam(x) in g.nodes[s].params && IsSort(g, x))
  }

  lemma {:induction false} CtorDepsIff(g: Graph, cs: seq<NodeId>, x: NodeId)
    requires CtorsWellFormed(g, cs)
    ensures x in CtorDeps(g, cs) <==>
      exists i :: 0 <= i < |cs| && (x == g.nodes[cs[i]].range || x in g.nodes[cs[i]].domain)
  {
    if cs != [] {
      var k := |cs| - 1;
      var init := cs[..k];
      CtorDepsIff(g, init, x);
      if x in CtorDeps(g, cs) {
        if x in CtorDeps(g, init) {
          var i :| 0 <= i < |init| && (x == g.nodes[init[i]].range || x in g.nodes[init[i]].domain);
          assert cs[i] == init[i];
        } else {
          assert x == g.nodes[cs[k]].range || x in g.nodes[cs[k]].domain;
        }
      } else {
        forall i | 0 <= i < |cs|
          ensures x != g.nodes[cs[i]].range && x !in g.nodes[cs[i]].domain
        {
          if i < k {
            assert cs[i] == init[i];
          }
        }
      }
    }
  }

  lemma {:induction false} ParamSortsIff(g: Graph, ps: seq<Parameter>, x: NodeId)
    ensures x in ParamSorts(g, ps) <==> AstParam(x) in ps && IsSort(g, x)
  {
    if ps != [] {
      ParamSortsIff(g, ps[1..], x);
      assert ps == [ps[0]] + ps[1..];
    }
  }

  /** The collector gathers exactly the direct dependencies. */
  lemma DepsOfIsDirectDeps(g: Graph, s: NodeId, x: NodeId)
    requires WellFormed(g) && IsSort(g, s)
    ensures x in DepsOf(g, s) <==> DirectDep(g, s, x)
  {
    assert NodeWellFormed(g, s);
    ParamSortsIff(g, g.nodes[s].params, x);
    if IsDatatypeSort(g, s) {
      CtorDepsIff(g, g.constructors[s], x);
    }
  }

  /** A sort inserted into the ordering primitive together with its dependencies. */
  datatype DepEntry = DepEntry(sort: NodeId, deps: set<NodeId>)

  /** The entries inserted for the sorts `ss`, in order. */
  function DepEntries(g: Graph, ss: seq<NodeId>): seq<DepEntry>
    requires WellFormed(g) && forall i :: 0 <= i < |ss| ==> IsSort(g, ss[i])
  {
    if ss == [] then []
    else
      var s := ss[|ss| - 1];
      DepEntries(g, ss[..|ss| - 1]) + [DepEntry(s, DepsOf(g, s) - {s})]
  }

  /** Entry i is for sort i, its dependency set holds exactly the direct
      dependencies, and no sort is recorded as its own dependency. */
  lemma {:induction false} DepEntriesShape(g: Graph, ss: seq<NodeId>)
    requires WellFormed(g) && forall i :: 0 <= i < |ss| ==> IsSort(g, ss[i])
    ensures |DepEntries(g, ss)| == |ss|
    ensures forall i :: 0 <= i < |ss| ==>
      && DepEntries(g, ss)[i].sort == ss[i]
      && ss[i] !in DepEntries(g, ss)[i].deps
      && (forall x :: x in DepEntries(g, ss)[i].deps <==> x != ss[i] && DirectDep(g, ss[i], x))
  {
    if ss != [] {
      var k := |ss| - 1;
      DepEntriesShape(g, ss[..k]);
      forall x {
        DepsOfIsDirectDeps(g, ss[k], x);
      }
      forall i | 0 <= i < k
        ensures DepEntries(g, ss)[i] == DepEntries(g, ss[..k])[i]
      {
      }
    }
  }
}
