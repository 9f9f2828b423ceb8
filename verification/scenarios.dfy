/**
 A worked case: two declared modules that import each other, and a third module, outside the
 contract, that imports one of them.
 */
module Scenarios {
  import opened Graph
  import Permutations
  import opened Independence

  /** api imports db (line 3), db imports api (lines 5 and 9), util imports api (line 1). */
  function ApiDbGraph(): ImportGraph {
    ImportGraph({"api", "db", "util"},
                map[Edge("api", "db") := [3], Edge("db", "api") := [5, 9], Edge("util", "api") := [1]])
  }

  function ApiDbContract(): IndependenceContract {
    IndependenceContract(["api", "db"], None)
  }

  lemma TwoPairs()
    ensures Permutations.Pairs(["api", "db"]) == [("api", "db"), ("db", "api")]
  {
    var ip := Permutations.IndexPairs(2);
    assert (0, 1) in ip && (1, 0) in ip;
    assert Permutations.Before(ip[0], ip[1]);
    assert ip == [(0, 1), (1, 0)];
  }

  lemma SingletonEnumeration(m: Module)
    ensures Enumerate({m}) == [m]
  {
    var xs := Enumerate({m});
    EnumerateMembers({m});
    assert |xs| == 1 && xs[0] in {m};
  }

  /** With a sound, complete and shortest graph, the only chain from a module to another that it
      imports directly is that one import. */
  lemma DirectImportIsTheChain(o: Oracles, g: ImportGraph, a: Module, b: Module)
    requires ChainsAreSound(o) && ChainsAreComplete(o) && ChainsAreShortest(o)
    requires a != b && Edge(a, b) in g.imports
    ensures o.findShortestChain(g, a, b) == [a, b]
  {
    assert IsChain(g, [a, b], a, b);
    var found := o.findShortestChain(g, a, b);
    assert IsChain(g, found, a, b);
    assert |found| == 2;
  }

  /** Between two single candidates joined by a one-import chain, the search collects that one
      link. */
  lemma SingleLinkCollected(o: Oracles, g: ImportGraph, a: Module, b: Module)
    requires o.findShortestChain(g, a, b) == [a, b]
    ensures ChainsBetween(g, o, [a], [b]) == [[DirectImport(a, b, LineNumbers(g, a, b))]]
  {
    assert [a, b][1..] == [b];
    assert ChainToImports(g, [a, b]) == [DirectImport(a, b, LineNumbers(g, a, b))];
    assert [b][1..] == [];
    assert ChainsFrom(g, o, a, [b]) == [ChainToImports(g, [a, b])];
    assert [a][1..] == [];
  }

  /** The group of two modules without descendants, the first importing the second directly. */
  lemma SingleLinkGroup(g: ImportGraph, o: Oracles, closures: map<Module, set<Module>>, a: Module, b: Module)
    requires a in closures && b in closures && closures[a] == {a} && closures[b] == {b}
    requires o.findShortestChain(g, a, b) == [a, b]
    ensures GroupFor(g, o, closures, (a, b)) == ViolationGroup(b, a, [[DirectImport(a, b, LineNumbers(g, a, b))]])
  {
    SingletonEnumeration(a);
    SingletonEnumeration(b);
    SingleLinkCollected(o, g, a, b);
  }

  /** One searched pair whose group holds chains gives exactly that group. */
  lemma OnePairReported(g: ImportGraph, o: Oracles, closures: map<Module, set<Module>>, pair: (Module, Module))
    requires pair.0 in closures && pair.1 in closures
    requires GroupFor(g, o, closures, pair).chains != []
    ensures Covered(closures, [pair])
    ensures NonEmptyGroups(g, o, closures, [pair]) == [GroupFor(g, o, closures, pair)]
  {
    assert [pair][1..] == [];
  }

  /** Two searched pairs whose groups both hold chains give both groups, in order. */
  lemma BothPairsReported(g: ImportGraph, o: Oracles, closures: map<Module, set<Module>>, first: (Module, Module), second: (Module, Module))
    requires first.0 in closures && first.1 in closures && second.0 in closures && second.1 in closures
    requires GroupFor(g, o, closures, first).chains != [] && GroupFor(g, o, closures, second).chains != []
    ensures Covered(closures, [first, second])
    ensures NonEmptyGroups(g, o, closures, [first, second]) == [GroupFor(g, o, closures, first), GroupFor(g, o, closures, second)]
  {
    var pairs := [first, second];
    assert pairs[1..] == [second];
    OnePairReported(g, o, closures, second);
    assert NonEmptyGroups(g, o, closures, pairs) == [GroupFor(g, o, closures, first)] + NonEmptyGroups(g, o, closures, [second]);
  }

  lemma NothingIgnored()
    ensures Stripped(ApiDbGraph(), ApiDbContract()) == ApiDbGraph()
  {
    var g, c := ApiDbGraph(), ApiDbContract();
    assert (set e | e in IgnoredImports(c)) == {};
    assert g.imports - {} == g.imports;
  }

  /** Two modules without descendants that import each other directly give one single-link
      group per direction, in pair order. */
  lemma MutualImportGroups(g: ImportGraph, o: Oracles, closures: map<Module, set<Module>>, a: Module, b: Module)
    requires a in closures && b in closures && closures[a] == {a} && closures[b] == {b}
    requires o.findShortestChain(g, a, b) == [a, b] && o.findShortestChain(g, b, a) == [b, a]
    ensures Covered(closures, [(a, b), (b, a)])
    ensures NonEmptyGroups(g, o, closures, [(a, b), (b, a)]) ==
              [ViolationGroup(b, a, [[DirectImport(a, b, LineNumbers(g, a, b))]]),
               ViolationGroup(a, b, [[DirectImport(b, a, LineNumbers(g, b, a))]])]
  {
    SingleLinkGroup(g, o, closures, a, b);
    SingleLinkGroup(g, o, closures, b, a);
    BothPairsReported(g, o, closures, (a, b), (b, a));
  }

  lemma ApiDbLineNumbers()
    ensures LineNumbers(ApiDbGraph(), "api", "db") == [3]
    ensures LineNumbers(ApiDbGraph(), "db", "api") == [5, 9]
  {
  }

  lemma ApiDbClosures(o: Oracles)
    requires o.findDescendants(ApiDbGraph(), "api") == {} && o.findDescendants(ApiDbGraph(), "db") == {}
    ensures "api" in Closures(ApiDbGraph(), o, ["api", "db"]) && "db" in Closures(ApiDbGraph(), o, ["api", "db"])
    ensures Closures(ApiDbGraph(), o, ["api", "db"])["api"] == {"api"}
    ensures Closures(ApiDbGraph(), o, ["api", "db"])["db"] == {"db"}
  {
  }

  /** The two groups the search forms, given the graph's answers. */
  lemma ApiDbGroups(o: Oracles)
    requires o.findDescendants(ApiDbGraph(), "api") == {} && o.findDescendants(ApiDbGraph(), "db") == {}
    requires o.findShortestChain(ApiDbGraph(), "api", "db") == ["api", "db"]
    requires o.findShortestChain(ApiDbGraph(), "db", "api") == ["db", "api"]
    ensures Covered(Closures(ApiDbGraph(), o, ["api", "db"]), Permutations.Pairs(["api", "db"]))
    ensures NonEmptyGroups(ApiDbGraph(), o, Closures(ApiDbGraph(), o, ["api", "db"]), Permutations.Pairs(["api", "db"])) ==
              [ViolationGroup("db", "api", [[DirectImport("api", "db", [3])]]),
               ViolationGroup("api", "db", [[DirectImport("db", "api", [5, 9])]])]
  {
    ApiDbClosures(o);
    TwoPairs();
    ApiDbLineNumbers();
    MutualImportGroups(ApiDbGraph(), o, Closures(ApiDbGraph(), o, ["api", "db"]), "api", "db");
  }

  /** The contract is broken in both directions, with one single-link chain each, in the order
      permutations gives; util is not mentioned. */
  lemma ApiAndDbImportEachOther(o: Oracles)
    requires ChainsAreSound(o) && ChainsAreComplete(o) && ChainsAreShortest(o)
    requires o.findDescendants(ApiDbGraph(), "api") == {} && o.findDescendants(ApiDbGraph(), "db") == {}
    ensures Check(ApiDbGraph(), ApiDbContract(), o).0 ==
              ContractCheck(false, [
                ViolationGroup("db", "api", [[DirectImport("api", "db", [3])]]),
                ViolationGroup("api", "db", [[DirectImport("db", "api", [5, 9])]])])
  {
    var g := ApiDbGraph();
    NothingIgnored();
    DirectImportIsTheChain(o, g, "api", "db");
    DirectImportIsTheChain(o, g, "db", "api");
    ApiDbGroups(o);
    assert Check(g, ApiDbContract(), o).0.invalidChains == ExpectedGroups(g, ApiDbContract(), o);
  }
}
