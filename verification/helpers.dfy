/**
 The remove/restore bracket the independence contract puts around its search: the ignored
 imports are popped from the graph, recording what was actually there, and added back
 afterwards.
 */
module Helpers {
  import opened Graph

  /** What popping one import records: the edge and the line numbers it carried. */
  datatype RemovedImport = RemovedImport(edge: Edge, lineNumbers: seq<nat>)

  /** The graph with the given edges removed and nothing else changed. */
  function Without(g: ImportGraph, ignored: set<Edge>): ImportGraph {
    ImportGraph(g.modules, g.imports - ignored)
  }

  function RemovedEdges(removed: seq<RemovedImport>): set<Edge> {
    set r | r in removed :: r.edge
  }

  function Endpoints(removed: seq<RemovedImport>): set<Module> {
    (set r | r in removed :: r.edge.importer) + (set r | r in removed :: r.edge.imported)
  }

  lemma SetOfCons(xs: seq<Edge>)
    requires xs != []
    ensures (set e | e in xs) == {xs[0]} + (set e | e in xs[1..])
  {
    assert xs == [xs[0]] + xs[1..];
  }

  lemma RemovedCons(x: RemovedImport, rest: seq<RemovedImport>)
    ensures RemovedEdges([x] + rest) == {x.edge} + RemovedEdges(rest)
    ensures Endpoints([x] + rest) == {x.edge.importer, x.edge.imported} + Endpoints(rest)
  {
  }

  /** No edge is recorded twice. */
  predicate DistinctEdges(removed: seq<RemovedImport>) {
    forall k, l :: 0 <= k < l < |removed| ==> removed[k].edge != removed[l].edge
  }

  /** Removes the listed imports one after the other. An import that is not in the graph (never
      was, or was listed twice) is skipped and not recorded, so that adding back what was
      recorded restores the graph exactly. */
  function PopImports(g: ImportGraph, ignored: seq<Edge>): (r: (ImportGraph, seq<RemovedImport>))
    ensures r.0 == Without(g, set e | e in ignored)
    ensures RemovedEdges(r.1) == g.imports.Keys * (set e | e in ignored)
    ensures forall x :: x in r.1 ==> x.edge in g.imports && x.lineNumbers == g.imports[x.edge]
    ensures DistinctEdges(r.1)
    decreases |ignored|
  {
    if ignored == [] then
      (g, [])
    else
      var e := ignored[0];
      var later := set f | f in ignored[1..];
      SetOfCons(ignored);
      if e in g.imports then
        var popped := ImportGraph(g.modules, g.imports - {e});
        var rest := PopImports(popped, ignored[1..]);
        var x := RemovedImport(e, g.imports[e]);
        MinusOneThenRest(g.imports, e, later);
        PopStepEdges(g.imports, e, later, rest.1);
        PopStepLines(g.imports, e, rest.1);
        PopStepDistinct(g.imports, e, rest.1);
        (rest.0, [x] + rest.1)
      else
        MinusAbsent(g.imports, e, later);
        PopImports(g, ignored[1..])
  }

  lemma MinusOneThenRest(m: map<Edge, seq<nat>>, e: Edge, later: set<Edge>)
    ensures m - ({e} + later) == (m - {e}) - later
  {
  }

  lemma MinusAbsent(m: map<Edge, seq<nat>>, e: Edge, later: set<Edge>)
    requires e !in m
    ensures m - ({e} + later) == m - later
  {
  }

  /** Popping a present edge and then the later ones records exactly the present ones. */
  lemma PopStepEdges(m: map<Edge, seq<nat>>, e: Edge, later: set<Edge>, rest: seq<RemovedImport>)
    requires e in m
    requires RemovedEdges(rest) == (m - {e}).Keys * later
    ensures RemovedEdges([RemovedImport(e, m[e])] + rest) == m.Keys * ({e} + later)
  {
    RemovedCons(RemovedImport(e, m[e]), rest);
    assert (m - {e}).Keys == m.Keys - {e};
  }

  lemma PopStepLines(m: map<Edge, seq<nat>>, e: Edge, rest: seq<RemovedImport>)
    requires e in m
    requires forall y :: y in rest ==> y.edge in (m - {e}) && y.lineNumbers == (m - {e})[y.edge]
    ensures forall y :: y in [RemovedImport(e, m[e])] + rest ==> y.edge in m && y.lineNumbers == m[y.edge]
  {
  }

  lemma PopStepDistinct(m: map<Edge, seq<nat>>, e: Edge, rest: seq<RemovedImport>)
    requires e in m
    requires forall y :: y in rest ==> y.edge in (m - {e})
    requires DistinctEdges(rest)
    ensures DistinctEdges([RemovedImport(e, m[e])] + rest)
  {
    var removed := [RemovedImport(e, m[e])] + rest;
    forall k, l | 0 <= k < l < |removed|
      ensures removed[k].edge != removed[l].edge
    {
      assert removed[l] == rest[l - 1];
      if k > 0 {
        assert removed[k] == rest[k - 1];
      } else {
        assert rest[l - 1] in rest;
      }
    }
  }

  /** add_import: the edge is present afterwards, its line numbers are appended to any it already
      had, and both of its modules belong to the graph. */
  function AddImport(g: ImportGraph, x: RemovedImport): (r: ImportGraph)
    ensures r.modules == g.modules + {x.edge.importer, x.edge.imported}
    ensures r.imports.Keys == g.imports.Keys + {x.edge}
    ensures r.imports[x.edge] == LineNumbers(g, x.edge.importer, x.edge.imported) + x.lineNumbers
    ensures forall e :: e in g.imports && e != x.edge ==> r.imports[e] == g.imports[e]
  {
    ImportGraph(g.modules + {x.edge.importer, x.edge.imported},
                g.imports[x.edge := LineNumbers(g, x.edge.importer, x.edge.imported) + x.lineNumbers])
  }

  /** Adds the recorded imports back, in the order they were recorded. */
  function AddImports(g: ImportGraph, removed: seq<RemovedImport>): (r: ImportGraph)
    ensures r.imports.Keys == g.imports.Keys + RemovedEdges(removed)
    ensures r.modules == g.modules + Endpoints(removed)
    ensures forall e :: e in g.imports && e !in RemovedEdges(removed) ==> r.imports[e] == g.imports[e]
    decreases |removed|
  {
    if removed == [] then
      g
    else
      RemovedCons(removed[0], removed[1..]);
      assert removed == [removed[0]] + removed[1..];
      AddImports(AddImport(g, removed[0]), removed[1..])
  }

  /** Re-adding records of distinct edges the graph lacks leaves each edge with exactly its
      recorded line numbers. */
  lemma {:induction false} AddImportsRecorded(g: ImportGraph, removed: seq<RemovedImport>)
    requires DistinctEdges(removed) && RemovedEdges(removed) !! g.imports.Keys
    ensures forall x :: x in removed ==> AddImports(g, removed).imports[x.edge] == x.lineNumbers
    decreases |removed|
  {
    if removed != [] {
      var x0, rest := removed[0], removed[1..];
      assert removed == [x0] + rest;
      RemovedCons(x0, rest);
      var next := AddImport(g, x0);
      assert next.imports[x0.edge] == x0.lineNumbers;
      assert x0.edge !in RemovedEdges(rest);
      assert DistinctEdges(rest) by {
        forall k, l | 0 <= k < l < |rest|
          ensures rest[k].edge != rest[l].edge
        {
          assert rest[k] == removed[k + 1] && rest[l] == removed[l + 1];
        }
      }
      AddImportsRecorded(next, rest);
    }
  }

  /** Adding back what popping recorded gives back every import of the graph with its line
      numbers, and no other import. */
  lemma RestoreImportsAfterPop(g: ImportGraph, ignored: seq<Edge>)
    ensures AddImports(PopImports(g, ignored).0, PopImports(g, ignored).1).imports == g.imports
  {
    var p := PopImports(g, ignored);
    var r := AddImports(p.0, p.1);
    AddImportsRecorded(p.0, p.1);
    RestoredImports(g.imports, p.0.imports, p.1, r.imports);
  }

  /** Adding back what popping recorded gives back the original graph. */
  lemma RestoreAfterPop(g: ImportGraph, ignored: seq<Edge>)
    requires Valid(g)
    ensures AddImports(PopImports(g, ignored).0, PopImports(g, ignored).1) == g
  {
    var p := PopImports(g, ignored);
    var r := AddImports(p.0, p.1);
    RestoreImportsAfterPop(g, ignored);
    RestoredModules(g, p.0.modules, p.1, r.modules);
    assert r == ImportGraph(r.modules, r.imports);
  }

  /** The modules re-adding brings are endpoints of imports of a valid graph, so already there. */
  lemma RestoredModules(g: ImportGraph, popped: set<Module>, removed: seq<RemovedImport>, restored: set<Module>)
    requires Valid(g)
    requires popped == g.modules && restored == popped + Endpoints(removed)
    requires forall x :: x in removed ==> x.edge in g.imports
    ensures restored == g.modules
  {
    forall m | m in Endpoints(removed)
      ensures m in g.modules
    {
      var x :| x in removed && (m == x.edge.importer || m == x.edge.imported);
    }
  }

  /** Every import comes back with its line numbers, and no other import appears. */
  lemma RestoredImports(original: map<Edge, seq<nat>>, popped: map<Edge, seq<nat>>, removed: seq<RemovedImport>,
                        restored: map<Edge, seq<nat>>)
    requires forall e :: e in popped <==> e in original && e !in RemovedEdges(removed)
    requires forall e :: e in popped ==> popped[e] == original[e]
    requires forall x :: x in removed ==> x.edge in original && x.lineNumbers == original[x.edge]
    requires restored.Keys == popped.Keys + RemovedEdges(removed)
    requires forall e :: e in popped ==> restored[e] == popped[e]
    requires forall x :: x in removed ==> restored[x.edge] == x.lineNumbers
    ensures restored == original
  {
    forall e | e in original
      ensures e in restored && restored[e] == original[e]
    {
      if e in RemovedEdges(removed) {
        var x :| x in removed && x.edge == e;
      }
    }
    forall e | e in restored
      ensures e in original
    {
      if e in RemovedEdges(removed) {
        var x :| x in removed && x.edge == e;
      }
    }
  }
}
