/**
 The independence contract: a list of modules none of which may import another, directly or
 through a chain of imports, in either direction. A module stands for itself and all of its
 descendants. Listed direct imports may be ignored; they are taken out of the graph for the
 duration of the check and put back afterwards.
 */
module Independence {
  import opened Graph
  import Helpers
  import Permutations

  datatype Option<T> = None | Some(value: T)

  /** The contract's configuration: the modules declared independent, in the order given, and the
      optional list of direct imports to ignore. */
  datatype IndependenceContract = IndependenceContract(modules: seq<Module>, ignoreImports: Option<seq<Edge>>)

  /** One link of a reported chain: a direct import and the line numbers at which it occurs. */
  datatype DirectImport = DirectImport(importer: Module, imported: Module, lineNumbers: seq<nat>)

  /** A reported chain, link by link. */
  type ImportChain = seq<DirectImport>

  /** All chains found from the closure of `downstream` into the closure of `upstream`. */
  datatype ViolationGroup = ViolationGroup(upstream: Module, downstream: Module, chains: seq<ImportChain>)

  /** The verdict and, when broken, the evidence. */
  datatype ContractCheck = ContractCheck(kept: bool, invalidChains: seq<ViolationGroup>)

  /** An absent ignore list ignores nothing. */
  function IgnoredImports(c: IndependenceContract): seq<Edge> {
    match c.ignoreImports
    case Some(imports) => imports
    case None => []
  }

  /** The graph the search runs on: the ignored imports are gone, nothing else changes. */
  function Stripped(g: ImportGraph, c: IndependenceContract): ImportGraph {
    Helpers.Without(g, set e | e in IgnoredImports(c))
  }

  /** A module together with every descendant the graph reports for it. */
  function Closure(g: ImportGraph, o: Oracles, m: Module): set<Module> {
    {m} + o.findDescendants(g, m)
  }

  /** The closure of every declared module, keyed by module. */
  function Closures(g: ImportGraph, o: Oracles, modules: seq<Module>): (closures: map<Module, set<Module>>)
    ensures closures.Keys == set m | m in modules
    ensures forall m :: m in closures ==> closures[m] == Closure(g, o, m)
    decreases |modules|
  {
    if modules == [] then
      map[]
    else
      var last := modules[|modules| - 1];
      assert modules == modules[..|modules| - 1] + [last];
      Closures(g, o, modules[..|modules| - 1])[last := Closure(g, o, last)]
  }

  /** The order in which Python iterates a set: unspecified, so some fixed enumeration without
      repetition. */
  ghost function Enumerate(s: set<Module>): (xs: seq<Module>)
    decreases s
  {
    if s == {} then
      []
    else
      var x :| x in s;
      [x] + Enumerate(s - {x})
  }

  /** The enumeration visits every element of the set and nothing else, each exactly once. */
  lemma {:induction false} EnumerateMembers(s: set<Module>)
    ensures forall x :: x in Enumerate(s) <==> x in s
    ensures |Enumerate(s)| == |s|
    decreases s
  {
    if s != {} {
      var xs := Enumerate(s);
      var x := xs[0];
      assert x in s && xs == [x] + Enumerate(s - {x});
      EnumerateMembers(s - {x});
    }
  }

  /** A chain of modules turned into its links: link i joins module i to module i + 1 and carries
      the line numbers of that import. */
  function ChainToImports(g: ImportGraph, chain: seq<Module>): (links: ImportChain)
    ensures |links| == if chain == [] then 0 else |chain| - 1
    ensures forall i :: 0 <= i < |links| ==>
              links[i].importer == chain[i] && links[i].imported == chain[i + 1] &&
              links[i].lineNumbers == LineNumbers(g, chain[i], chain[i + 1])
    decreases |chain|
  {
    if |chain| < 2 then []
    else [DirectImport(chain[0], chain[1], LineNumbers(g, chain[0], chain[1]))] + ChainToImports(g, chain[1..])
  }

  /** The modules a chain of links passes through. */
  function ImportsToChain(links: ImportChain): seq<Module> {
    if links == [] then [] else [links[0].importer] + seq(|links|, i requires 0 <= i < |links| => links[i].imported)
  }

  /** The links of a chain of at least one import give back the chain. */
  lemma ChainRoundTrip(g: ImportGraph, chain: seq<Module>)
    requires |chain| >= 2
    ensures ImportsToChain(ChainToImports(g, chain)) == chain
  {
    var links := ChainToImports(g, chain);
    var back := ImportsToChain(links);
    assert |back| == |chain|;
    forall i | 0 <= i < |chain|
      ensures back[i] == chain[i]
    {
      if i > 0 {
        assert back[i] == links[i - 1].imported;
      }
    }
  }

  /** The chains found from one importer to each candidate in turn; a candidate with no chain
      contributes nothing. */
  function ChainsFrom(g: ImportGraph, o: Oracles, importer: Module, importeds: seq<Module>): seq<ImportChain>
    decreases |importeds|
  {
    if importeds == [] then
      []
    else
      var chain := o.findShortestChain(g, importer, importeds[0]);
      (if chain != [] then [ChainToImports(g, chain)] else []) + ChainsFrom(g, o, importer, importeds[1..])
  }

  /** Nothing is collected from an importer exactly when no candidate has a chain from it. */
  lemma {:induction false} NoChainsFromIff(g: ImportGraph, o: Oracles, importer: Module, importeds: seq<Module>)
    ensures ChainsFrom(g, o, importer, importeds) == [] <==>
              forall b :: b in importeds ==> o.findShortestChain(g, importer, b) == []
    decreases |importeds|
  {
    if importeds != [] {
      assert importeds == [importeds[0]] + importeds[1..];
      NoChainsFromIff(g, o, importer, importeds[1..]);
    }
  }

  /** The chains found from every importer candidate to every imported candidate, importer by
      importer. */
  function ChainsBetween(g: ImportGraph, o: Oracles, importers: seq<Module>, importeds: seq<Module>): seq<ImportChain>
    decreases |importers|
  {
    if importers == [] then
      []
    else
      ChainsFrom(g, o, importers[0], importeds) + ChainsBetween(g, o, importers[1..], importeds)
  }

  /** Nothing is collected for a pair exactly when no combination of candidates has a chain. */
  lemma {:induction false} NoChainsBetweenIff(g: ImportGraph, o: Oracles, importers: seq<Module>, importeds: seq<Module>)
    ensures ChainsBetween(g, o, importers, importeds) == [] <==>
              forall a, b :: a in importers && b in importeds ==> o.findShortestChain(g, a, b) == []
    decreases |importers|
  {
    if importers != [] {
      assert importers == [importers[0]] + importers[1..];
      NoChainsFromIff(g, o, importers[0], importeds);
      NoChainsBetweenIff(g, o, importers[1..], importeds);
    }
  }

  /** The state of the inner loops: whether the contract still looks kept, and the chains
      collected for the current pair. */
  datatype Scan = Scan(kept: bool, chains: seq<ImportChain>)

  /** The innermost loop, over imported candidates. */
  function ScanImported(g: ImportGraph, o: Oracles, importer: Module, importeds: seq<Module>, s: Scan): (r: Scan)
    ensures r.chains == s.chains + ChainsFrom(g, o, importer, importeds)
    ensures r.kept == (s.kept && ChainsFrom(g, o, importer, importeds) == [])
    decreases |importeds|
  {
    if importeds == [] then
      s
    else
      var chain := o.findShortestChain(g, importer, importeds[0]);
      var found := if chain != [] then [ChainToImports(g, chain)] else [];
      var rest := ChainsFrom(g, o, importer, importeds[1..]);
      assert ChainsFrom(g, o, importer, importeds) == found + rest;
      assert s.chains + found + rest == s.chains + (found + rest);
      assert found + rest == [] <==> found == [] && rest == [];
      var next := if chain != [] then Scan(false, s.chains + [ChainToImports(g, chain)]) else s;
      ScanImported(g, o, importer, importeds[1..], next)
  }

  /** The loop over importer candidates. */
  function ScanImporters(g: ImportGraph, o: Oracles, importers: seq<Module>, importeds: seq<Module>, s: Scan): (r: Scan)
    ensures r.chains == s.chains + ChainsBetween(g, o, importers, importeds)
    ensures r.kept == (s.kept && ChainsBetween(g, o, importers, importeds) == [])
    decreases |importers|
  {
    if importers == [] then
      s
    else
      var first := ChainsFrom(g, o, importers[0], importeds);
      var rest := ChainsBetween(g, o, importers[1..], importeds);
      assert ChainsBetween(g, o, importers, importeds) == first + rest;
      assert s.chains + first + rest == s.chains + (first + rest);
      assert first + rest == [] <==> first == [] && rest == [];
      ScanImporters(g, o, importers[1..], importeds, ScanImported(g, o, importers[0], importeds, s))
  }

  /** Every pair's modules have a closure. */
  ghost predicate Covered(closures: map<Module, set<Module>>, pairs: seq<(Module, Module)>) {
    forall k :: 0 <= k < |pairs| ==> pairs[k].0 in closures && pairs[k].1 in closures
  }

  /** The group of one ordered pair (downstream, upstream), holding whatever chains were found. */
  ghost function GroupFor(g: ImportGraph, o: Oracles, closures: map<Module, set<Module>>, pair: (Module, Module)): ViolationGroup
    requires pair.0 in closures && pair.1 in closures
  {
    ViolationGroup(pair.1, pair.0, ChainsBetween(g, o, Enumerate(closures[pair.0]), Enumerate(closures[pair.1])))
  }

  /** Reference definition of the report: the groups of the pairs, in pair order, keeping only
      those that hold at least one chain. */
  ghost function NonEmptyGroups(g: ImportGraph, o: Oracles, closures: map<Module, set<Module>>, pairs: seq<(Module, Module)>): seq<ViolationGroup>
    requires Covered(closures, pairs)
    decreases |pairs|
  {
    if pairs == [] then
      []
    else
      var group := GroupFor(g, o, closures, pairs[0]);
      (if group.chains != [] then [group] else []) + NonEmptyGroups(g, o, closures, pairs[1..])
  }

  lemma ConcatAssoc<T>(a: seq<T>, b: seq<T>, c: seq<T>)
    ensures (a + b) + c == a + (b + c)
  {
  }

  /** The state of the loop over pairs. */
  datatype SearchState = SearchState(kept: bool, invalidChains: seq<ViolationGroup>)

  /** The loop over pairs, as the contract runs it: the kept flag drops as soon as a chain is
      found, and a pair's group is appended only when it holds chains. */
  ghost function ScanPairs(g: ImportGraph, o: Oracles, closures: map<Module, set<Module>>, pairs: seq<(Module, Module)>, st: SearchState): (r: SearchState)
    requires Covered(closures, pairs)
    ensures r.invalidChains == st.invalidChains + NonEmptyGroups(g, o, closures, pairs)
    ensures r.kept == (st.kept && NonEmptyGroups(g, o, closures, pairs) == [])
    decreases |pairs|
  {
    if pairs == [] then
      st
    else
      var downstream, upstream := pairs[0].0, pairs[0].1;
      var scan := ScanImporters(g, o, Enumerate(closures[downstream]), Enumerate(closures[upstream]), Scan(st.kept, []));
      var group := GroupFor(g, o, closures, pairs[0]);
      var found := if group.chains != [] then [group] else [];
      var rest := NonEmptyGroups(g, o, closures, pairs[1..]);
      assert scan.chains == group.chains;
      assert NonEmptyGroups(g, o, closures, pairs) == found + rest;
      var next := SearchState(scan.kept,
        if scan.chains != [] then st.invalidChains + [ViolationGroup(upstream, downstream, scan.chains)]
        else st.invalidChains);
      assert next.invalidChains == st.invalidChains + found;
      assert next.kept == (st.kept && found == []);
      var r := ScanPairs(g, o, closures, pairs[1..], next);
      ConcatAssoc(st.invalidChains, found, rest);
      assert found + rest == [] <==> found == [] && rest == [];
      r
  }

  /** The pairs of `permutations(modules, r=2)` all have closures. */
  lemma PairsCovered(closures: map<Module, set<Module>>, modules: seq<Module>)
    requires closures.Keys == set m | m in modules
    ensures Covered(closures, Permutations.Pairs(modules))
  {
    var ip, ps := Permutations.IndexPairs(|modules|), Permutations.Pairs(modules);
    forall k | 0 <= k < |ps|
      ensures ps[k].0 in closures && ps[k].1 in closures
    {
      assert modules[ip[k].0] in modules && modules[ip[k].1] in modules;
    }
  }

  /** The report the contract must produce: the non-empty groups of the ordered pairs of declared
      modules, searched in the graph without the ignored imports. */
  ghost function ExpectedGroups(g: ImportGraph, c: IndependenceContract, o: Oracles): seq<ViolationGroup> {
    var s := Stripped(g, c);
    var closures := Closures(s, o, c.modules);
    PairsCovered(closures, c.modules);
    NonEmptyGroups(s, o, closures, Permutations.Pairs(c.modules))
  }

  /** Every group the reference report holds has at least one chain. */
  lemma GroupsNonEmpty(g: ImportGraph, o: Oracles, closures: map<Module, set<Module>>, pairs: seq<(Module, Module)>)
    requires Covered(closures, pairs)
    ensures forall group :: group in NonEmptyGroups(g, o, closures, pairs) ==> group.chains != []
    decreases |pairs|
  {
    if pairs != [] {
      GroupsNonEmpty(g, o, closures, pairs[1..]);
    }
  }

  /** IndependenceContract.check: strip the ignored imports, compute the closures, search every
      ordered pair of declared modules, put the ignored imports back. Answers the verdict and the
      graph as it is afterwards. */
  ghost function Check(g: ImportGraph, c: IndependenceContract, o: Oracles): (r: (ContractCheck, ImportGraph))
    ensures r.0.invalidChains == ExpectedGroups(g, c, o)
    ensures r.0.kept <==> r.0.invalidChains == []
    ensures forall group :: group in r.0.invalidChains ==> group.chains != []
    ensures |c.modules| <= 1 ==> r.0 == ContractCheck(true, [])
    ensures r.1.imports == g.imports
    ensures Valid(g) ==> r.1 == g
  {
    var popped := Helpers.PopImports(g, IgnoredImports(c));
    var stripped, removed := popped.0, popped.1;
    var closures := Closures(stripped, o, c.modules);
    var pairs := Permutations.Pairs(c.modules);
    PairsCovered(closures, c.modules);
    var st := ScanPairs(stripped, o, closures, pairs, SearchState(true, []));
    var restored := Helpers.AddImports(stripped, removed);
    var expected := NonEmptyGroups(stripped, o, closures, pairs);
    assert stripped == Stripped(g, c);
    assert expected == ExpectedGroups(g, c, o);
    assert st.invalidChains == expected by {
      assert [] + expected == expected;
    }
    assert st.kept == (expected == []);
    GroupsNonEmpty(stripped, o, closures, pairs);
    assert |c.modules| <= 1 ==> pairs == [] by {
      if |c.modules| <= 1 { Permutations.NoPairsBelowTwo(c.modules); }
    }
    Helpers.RestoreImportsAfterPop(g, IgnoredImports(c));
    assert Valid(g) ==> restored == g by {
      if Valid(g) { Helpers.RestoreAfterPop(g, IgnoredImports(c)); }
    }
    (ContractCheck(st.kept, st.invalidChains), restored)
  }
}
