/** The expression graph that the declaration collector walks, seen only
    through the queries the collector makes of it: the kind and children of
    a node, family ids, parameters, and the answers of the datatype and
    recursive-function utilities. Nodes are named by ids into a map owned by
    the graph; the collector only ever holds ids. */
module Ast {

  type NodeId = nat

  /** Family ids of sorts and function declarations: the null family (user
      declared), the basic theory, datatypes, recursive functions and any
      other theory. */
  datatype Family = NullFamily | BasicFamily | DatatypeFamily | RecFunFamily | OtherFamily(id: nat)

  /** The declaration kind that marks a datatype sort inside the datatype family. */
  const DatatypeSortKind: nat := 0

  /** A sort parameter either wraps a nested node or is a plain value. */
  datatype Parameter = AstParam(ast: NodeId) | ValueParam

  /** The closed set of node kinds, with their kind-specific children. */
  datatype Node =
    | App(args: seq<NodeId>, decl: NodeId)
    | Quantifier(boundSorts: seq<NodeId>, body: NodeId, patterns: seq<NodeId>)
    | Sort(family: Family, declKind: nat, params: seq<Parameter>)
    | FuncDecl(family: Family, domain: seq<NodeId>, range: NodeId)
    | Var

  /** The graph and the external queries the collector relies on:
      `uninterp` answers the manager's "is this sort uninterpreted",
      `constructors`, `accessors` and `paramSorts` answer the datatype
      utility, `recRhs` gives the right-hand side of a recursive function's
      definition. */
  datatype Graph = Graph(
    nodes: map<NodeId, Node>,
    uninterp: set<NodeId>,
    constructors: map<NodeId, seq<NodeId>>,
    accessors: map<NodeId, seq<NodeId>>,
    paramSorts: map<NodeId, seq<NodeId>>,
    recRhs: map<NodeId, NodeId>)

  /** The elements of a sequence of ids, as a set. */
  function Elems(s: seq<NodeId>): set<NodeId> {
    set x | x in s
  }

  predicate AllIn(g: Graph, xs: seq<NodeId>) {
    forall i :: 0 <= i < |xs| ==> xs[i] in g.nodes
  }

  predicate IsSort(g: Graph, x: NodeId) {
    x in g.nodes && g.nodes[x].Sort?
  }

  predicate IsFuncDecl(g: Graph, x: NodeId) {
    x in g.nodes && g.nodes[x].FuncDecl?
  }

  /** A sort of the datatype family whose declaration kind is the datatype sort. */
  predicate IsDatatypeSort(g: Graph, x: NodeId) {
    IsSort(g, x) && g.nodes[x].family == DatatypeFamily && g.nodes[x].declKind == DatatypeSortKind
  }

  /** Every constructor is a function declaration whose accessors are known nodes. */
  predicate CtorsWellFormed(g: Graph, cs: seq<NodeId>) {
    forall i :: 0 <= i < |cs| ==>
      IsFuncDecl(g, cs[i]) && cs[i] in g.accessors && AllIn(g, g.accessors[cs[i]])
  }

  predicate ParamsIn(g: Graph, ps: seq<Parameter>) {
    forall i :: 0 <= i < |ps| ==> ps[i].AstParam? ==> ps[i].ast in g.nodes
  }

  /** Every child a node names is a node of the graph, and the utilities
      answer every query the collector can ask about it. */
  predicate NodeWellFormed(g: Graph, n: NodeId)
    requires n in g.nodes
  {
    match g.nodes[n]
    case App(args, d) => AllIn(g, args) && d in g.nodes
    case Quantifier(bs, b, ps) => AllIn(g, bs) && b in g.nodes && AllIn(g, ps)
    case Sort(fam, kind, params) =>
      && ParamsIn(g, params)
      && (fam == DatatypeFamily ==> n in g.constructors && CtorsWellFormed(g, g.constructors[n]))
      && (fam == DatatypeFamily && kind == DatatypeSortKind ==>
            n in g.paramSorts && AllIn(g, g.paramSorts[n]))
    case FuncDecl(fam, dom, r) =>
      && AllIn(g, dom) && r in g.nodes
      && (fam == RecFunFamily ==> n in g.recRhs && g.recRhs[n] in g.nodes)
    case Var => true
  }

  predicate WellFormed(g: Graph) {
    forall n :: n in g.nodes ==> NodeWellFormed(g, n)
  }
}
