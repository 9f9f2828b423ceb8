/**
 The import graph the independence contract is checked against, as the contract sees it:
 a set of module names and a set of direct imports, each annotated with the line numbers at
 which the import occurs. The graph library's own queries (descendants, shortest chain) are
 foreign code; they appear here as oracles whose behaviour is stated by predicates.
 */
module Graph {

  /** A dotted module name such as "mypackage.foo.bar". */
  type Module = string

  /** A direct import: `importer` imports `imported`. */
  datatype Edge = Edge(importer: Module, imported: Module)

  /** An edge is present exactly when it is a key of `imports`; its value is the sequence of
      line numbers at which the import occurs (empty when the graph holds no details). */
  datatype ImportGraph = ImportGraph(modules: set<Module>, imports: map<Edge, seq<nat>>)

  /** Every import connects two modules of the graph. */
  predicate Valid(g: ImportGraph) {
    forall e :: e in g.imports ==> e.importer in g.modules && e.imported in g.modules
  }

  /** The line numbers of get_import_details for one edge: nothing for an absent edge. */
  function LineNumbers(g: ImportGraph, importer: Module, imported: Module): seq<nat> {
    if Edge(importer, imported) in g.imports then g.imports[Edge(importer, imported)] else []
  }

  /** `chain` is a chain of imports of `g` from `importer` to `imported`: it starts and ends there
      and every consecutive pair of modules is a direct import. A single module is a chain from
      itself to itself. */
  ghost predicate IsChain(g: ImportGraph, chain: seq<Module>, importer: Module, imported: Module) {
    && |chain| >= 1
    && chain[0] == importer
    && chain[|chain| - 1] == imported
    && forall i :: 0 <= i < |chain| - 1 ==> Edge(chain[i], chain[i + 1]) in g.imports
  }

  ghost predicate Reaches(g: ImportGraph, importer: Module, imported: Module) {
    exists chain :: IsChain(g, chain, importer, imported)
  }

  /** Some module of `from` reaches some module of `to`. */
  ghost predicate ClosureReaches(g: ImportGraph, from: set<Module>, to: set<Module>) {
    exists a, b :: a in from && b in to && Reaches(g, a, b)
  }

  /** The graph library's queries. Each is asked about the graph as it is at the moment of the call. */
  datatype Oracles = Oracles(
    findDescendants: (ImportGraph, Module) -> set<Module>,
    findShortestChain: (ImportGraph, Module, Module) -> seq<Module>)

  /** find_shortest_chain answers nothing (the empty sequence stands for None) or a chain of the
      graph it was asked about, from the importer to the imported module. */
  ghost predicate ChainsAreSound(o: Oracles) {
    forall g, a, b :: o.findShortestChain(g, a, b) == [] || IsChain(g, o.findShortestChain(g, a, b), a, b)
  }

  /** find_shortest_chain finds a chain whenever one exists. */
  ghost predicate ChainsAreComplete(o: Oracles) {
    forall g, a, b :: Reaches(g, a, b) ==> o.findShortestChain(g, a, b) != []
  }

  /** No chain between the same endpoints is shorter than the one find_shortest_chain answers. */
  ghost predicate ChainsAreShortest(o: Oracles) {
    forall g, a, b, chain :: IsChain(g, chain, a, b) ==> |o.findShortestChain(g, a, b)| <= |chain|
  }
}
