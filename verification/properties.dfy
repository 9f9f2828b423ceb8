/**
 What the independence contract's report means: the verdict against reachability between the
 declared modules' closures, the direction of each group, the order of the groups, and what
 every reported chain is evidence of.
 */
module IndependenceProperties {
  import opened Graph
  import Helpers
  import Permutations
  import opened Independence

  /** A reported chain is a path of direct imports of `g` leading from a module of `from` to a
      module of `to`: consecutive links meet, each link is an import of `g` and carries exactly
      the line numbers `g` records for it. A chain without links joins a module to itself, which
      then lies in both sets. */
  ghost predicate IsEvidence(g: ImportGraph, chain: ImportChain, from: set<Module>, to: set<Module>) {
    && (forall i :: 0 <= i < |chain| ==>
          Edge(chain[i].importer, chain[i].imported) in g.imports &&
          chain[i].lineNumbers == g.imports[Edge(chain[i].importer, chain[i].imported)])
    && (forall i :: 0 <= i < |chain| - 1 ==> chain[i].imported == chain[i + 1].importer)
    && (chain != [] ==> chain[0].importer in from && chain[|chain| - 1].imported in to)
    && (chain == [] ==> from * to != {})
  }

  /** No link of the chain is one of the given imports. */
  ghost predicate AvoidsImports(chain: ImportChain, imports: seq<Edge>) {
    forall i :: 0 <= i < |chain| ==> Edge(chain[i].importer, chain[i].imported) !in imports
  }

  /** `chain` is what the search records for a chain the graph answered between some module of
      `from` and some module of `to`. */
  ghost predicate Found(g: ImportGraph, o: Oracles, chain: ImportChain, from: set<Module>, to: set<Module>) {
    exists a, b :: a in from && b in to && o.findShortestChain(g, a, b) != [] &&
                   chain == ChainToImports(g, o.findShortestChain(g, a, b))
  }

  /** The links of a chain of the graph are evidence of that chain. */
  lemma {:induction false} ChainToImportsIsEvidence(g: ImportGraph, nodes: seq<Module>, a: Module, b: Module, from: set<Module>, to: set<Module>)
    requires IsChain(g, nodes, a, b) && a in from && b in to
    ensures IsEvidence(g, ChainToImports(g, nodes), from, to)
  {
    var chain := ChainToImports(g, nodes);
    forall i | 0 <= i < |chain|
      ensures Edge(chain[i].importer, chain[i].imported) in g.imports
      ensures chain[i].lineNumbers == g.imports[Edge(chain[i].importer, chain[i].imported)]
    {
      assert Edge(nodes[i], nodes[i + 1]) in g.imports;
    }
    if chain == [] {
      assert |nodes| == 1;
      assert a in from * to;
    }
  }

  /** Evidence in the graph without some imports is evidence in the whole graph and uses none of
      the removed imports. */
  lemma EvidenceSurvivesRestore(g: ImportGraph, ignored: seq<Edge>, chain: ImportChain, from: set<Module>, to: set<Module>)
    requires IsEvidence(Helpers.Without(g, set e | e in ignored), chain, from, to)
    ensures IsEvidence(g, chain, from, to)
    ensures AvoidsImports(chain, ignored)
  {
    var s := Helpers.Without(g, set e | e in ignored);
    forall i | 0 <= i < |chain|
      ensures Edge(chain[i].importer, chain[i].imported) in g.imports
      ensures chain[i].lineNumbers == g.imports[Edge(chain[i].importer, chain[i].imported)]
      ensures Edge(chain[i].importer, chain[i].imported) !in ignored
    {
      assert Edge(chain[i].importer, chain[i].imported) in s.imports;
    }
  }

  lemma {:induction false} ChainsFromFound(g: ImportGraph, o: Oracles, a: Module, importeds: seq<Module>, from: set<Module>, to: set<Module>)
    requires a in from && forall b :: b in importeds ==> b in to
    ensures forall chain :: chain in ChainsFrom(g, o, a, importeds) ==> Found(g, o, chain, from, to)
    decreases |importeds|
  {
    if importeds != [] {
      ChainsFromFound(g, o, a, importeds[1..], from, to);
      var b := importeds[0];
      if o.findShortestChain(g, a, b) != [] {
        assert Found(g, o, ChainToImports(g, o.findShortestChain(g, a, b)), from, to);
      }
    }
  }

  /** Every chain the search collects for two candidate lists is one the graph answered for a
      candidate pair. */
  lemma {:induction false} ChainsBetweenFound(g: ImportGraph, o: Oracles, importers: seq<Module>, importeds: seq<Module>, from: set<Module>, to: set<Module>)
    requires forall a :: a in importers ==> a in from
    requires forall b :: b in importeds ==> b in to
    ensures forall chain :: chain in ChainsBetween(g, o, importers, importeds) ==> Found(g, o, chain, from, to)
    decreases |importers|
  {
    if importers != [] {
      ChainsFromFound(g, o, importers[0], importeds, from, to);
      ChainsBetweenFound(g, o, importers[1..], importeds, from, to);
    }
  }

  /** With a sound graph, chains are found between two sets exactly when one reaches the other. */
  lemma FoundIffReaches(g: ImportGraph, o: Oracles, from: set<Module>, to: set<Module>)
    requires ChainsAreSound(o) && ChainsAreComplete(o)
    ensures (exists a, b :: a in from && b in to && o.findShortestChain(g, a, b) != []) <==>
              ClosureReaches(g, from, to)
  {
    if exists a, b :: a in from && b in to && o.findShortestChain(g, a, b) != [] {
      var a, b :| a in from && b in to && o.findShortestChain(g, a, b) != [];
      assert IsChain(g, o.findShortestChain(g, a, b), a, b);
    }
    if ClosureReaches(g, from, to) {
      var a, b :| a in from && b in to && Reaches(g, a, b);
      assert o.findShortestChain(g, a, b) != [];
    }
  }

  /** A pair's group holds chains exactly when the graph answers a chain for some module of the
      first closure and some module of the second. */
  lemma GroupChainsIffFound(g: ImportGraph, o: Oracles, closures: map<Module, set<Module>>, pair: (Module, Module))
    requires pair.0 in closures && pair.1 in closures
    ensures GroupFor(g, o, closures, pair).chains != [] <==>
              exists a, b :: a in closures[pair.0] && b in closures[pair.1] && o.findShortestChain(g, a, b) != []
  {
    EnumerateMembers(closures[pair.0]);
    EnumerateMembers(closures[pair.1]);
    NoChainsBetweenIff(g, o, Enumerate(closures[pair.0]), Enumerate(closures[pair.1]));
  }

  /** Every group of the reference report is the group of one of the pairs. */
  lemma {:induction false} GroupsComeFromPairs(g: ImportGraph, o: Oracles, closures: map<Module, set<Module>>, pairs: seq<(Module, Module)>)
    requires Covered(closures, pairs)
    ensures forall group :: group in NonEmptyGroups(g, o, closures, pairs) ==>
              exists k :: 0 <= k < |pairs| && group == GroupFor(g, o, closures, pairs[k])
    decreases |pairs|
  {
    if pairs != [] {
      var rest := pairs[1..];
      var first := GroupFor(g, o, closures, pairs[0]);
      assert Covered(closures, rest);
      GroupsComeFromPairs(g, o, closures, rest);
      assert NonEmptyGroups(g, o, closures, pairs) ==
             (if first.chains != [] then [first] else []) + NonEmptyGroups(g, o, closures, rest);
      forall group | group in NonEmptyGroups(g, o, closures, pairs)
        ensures exists k :: 0 <= k < |pairs| && group == GroupFor(g, o, closures, pairs[k])
      {
        if group != first {
          assert group in NonEmptyGroups(g, o, closures, rest);
          var k :| 0 <= k < |rest| && group == GroupFor(g, o, closures, rest[k]);
          assert rest[k] == pairs[k + 1];
        }
      }
    }
  }

  /** The reference report is empty exactly when no pair's group holds a chain. */
  lemma {:induction false} NoGroupsIff(g: ImportGraph, o: Oracles, closures: map<Module, set<Module>>, pairs: seq<(Module, Module)>)
    requires Covered(closures, pairs)
    ensures NonEmptyGroups(g, o, closures, pairs) == [] <==>
              forall k :: 0 <= k < |pairs| ==> GroupFor(g, o, closures, pairs[k]).chains == []
    decreases |pairs|
  {
    if pairs != [] {
      var rest := pairs[1..];
      var first := GroupFor(g, o, closures, pairs[0]);
      assert Covered(closures, rest);
      NoGroupsIff(g, o, closures, rest);
      assert NonEmptyGroups(g, o, closures, pairs) ==
             (if first.chains != [] then [first] else []) + NonEmptyGroups(g, o, closures, rest);
      if forall k :: 0 <= k < |rest| ==> GroupFor(g, o, closures, rest[k]).chains == [] {
        forall k | 0 <= k < |pairs| && k != 0
          ensures GroupFor(g, o, closures, pairs[k]).chains == []
        {
          assert pairs[k] == rest[k - 1];
        }
      } else {
        var k :| 0 <= k < |rest| && GroupFor(g, o, closures, rest[k]).chains != [];
        assert pairs[k + 1] == rest[k];
      }
    }
  }

  /** A group for (downstream, upstream) is reported exactly when that pair is searched and its
      group holds a chain. */
  lemma {:induction false} GroupPresentIff(g: ImportGraph, o: Oracles, closures: map<Module, set<Module>>, pairs: seq<(Module, Module)>, downstream: Module, upstream: Module)
    requires Covered(closures, pairs)
    ensures (exists group :: group in NonEmptyGroups(g, o, closures, pairs) &&
               group.downstream == downstream && group.upstream == upstream) <==>
            (exists k :: 0 <= k < |pairs| && pairs[k] == (downstream, upstream) &&
               GroupFor(g, o, closures, pairs[k]).chains != [])
    decreases |pairs|
  {
    if pairs != [] {
      GroupPresentIff(g, o, closures, pairs[1..], downstream, upstream);
      var rest := pairs[1..];
      if exists k :: 0 <= k < |rest| && rest[k] == (downstream, upstream) && GroupFor(g, o, closures, rest[k]).chains != [] {
        var k :| 0 <= k < |rest| && rest[k] == (downstream, upstream) && GroupFor(g, o, closures, rest[k]).chains != [];
        assert pairs[k + 1] == rest[k];
      }
      if exists k :: 0 <= k < |pairs| && pairs[k] == (downstream, upstream) && GroupFor(g, o, closures, pairs[k]).chains != [] {
        var k :| 0 <= k < |pairs| && pairs[k] == (downstream, upstream) && GroupFor(g, o, closures, pairs[k]).chains != [];
        if k > 0 {
          assert rest[k - 1] == pairs[k];
        }
      }
    }
  }

  /** No module's closure reaches the closure of the module at another position, in `s`. */
  ghost predicate IndependentIn(s: ImportGraph, o: Oracles, ms: seq<Module>) {
    forall i, j :: 0 <= i < |ms| && 0 <= j < |ms| && i != j ==>
      !ClosureReaches(s, Closure(s, o, ms[i]), Closure(s, o, ms[j]))
  }

  /** The declared modules are independent in the graph without the ignored imports. */
  ghost predicate Independent(g: ImportGraph, c: IndependenceContract, o: Oracles) {
    IndependentIn(Stripped(g, c), o, c.modules)
  }

  /** The closures the contract computes are the declared modules' closures. */
  lemma ClosuresAreClosures(s: ImportGraph, o: Oracles, modules: seq<Module>, m: Module)
    requires m in modules
    ensures m in Closures(s, o, modules) && Closures(s, o, modules)[m] == Closure(s, o, m)
  {
  }

  /** The group of the k-th searched pair holds chains exactly when the closure of the module at
      the pair's first position reaches the closure of the module at its second. */
  lemma PairHasChainsIffReaches(s: ImportGraph, o: Oracles, ms: seq<Module>, k: nat)
    requires ChainsAreSound(o) && ChainsAreComplete(o)
    requires k < |Permutations.Pairs(ms)|
    ensures Permutations.Pairs(ms)[k].0 in Closures(s, o, ms) && Permutations.Pairs(ms)[k].1 in Closures(s, o, ms)
    ensures GroupFor(s, o, Closures(s, o, ms), Permutations.Pairs(ms)[k]).chains != [] <==>
              ClosureReaches(s, Closure(s, o, ms[Permutations.IndexPairs(|ms|)[k].0]),
                                Closure(s, o, ms[Permutations.IndexPairs(|ms|)[k].1]))
  {
    var ip := Permutations.IndexPairs(|ms|);
    var a, b := ms[ip[k].0], ms[ip[k].1];
    assert Permutations.Pairs(ms)[k] == (a, b);
    ClosuresAreClosures(s, o, ms, a);
    ClosuresAreClosures(s, o, ms, b);
    GroupChainsIffFound(s, o, Closures(s, o, ms), (a, b));
    FoundIffReaches(s, o, Closure(s, o, a), Closure(s, o, b));
  }

  /** When no searched pair has chains, the modules are independent. */
  lemma NoChainsThenIndependent(s: ImportGraph, o: Oracles, ms: seq<Module>)
    requires ChainsAreSound(o) && ChainsAreComplete(o)
    requires Covered(Closures(s, o, ms), Permutations.Pairs(ms))
    requires forall k :: 0 <= k < |Permutations.Pairs(ms)| ==>
               GroupFor(s, o, Closures(s, o, ms), Permutations.Pairs(ms)[k]).chains == []
    ensures IndependentIn(s, o, ms)
  {
    forall i: nat, j: nat | i < |ms| && j < |ms| && i != j
      ensures !ClosureReaches(s, Closure(s, o, ms[i]), Closure(s, o, ms[j]))
    {
      var k := Permutations.PairIndex(|ms|, i, j);
      PairHasChainsIffReaches(s, o, ms, k);
    }
  }

  /** When some searched pair has chains, the modules are not independent. */
  lemma ChainsThenDependent(s: ImportGraph, o: Oracles, ms: seq<Module>, k: nat)
    requires ChainsAreSound(o) && ChainsAreComplete(o)
    requires k < |Permutations.Pairs(ms)|
    requires Covered(Closures(s, o, ms), Permutations.Pairs(ms))
    requires GroupFor(s, o, Closures(s, o, ms), Permutations.Pairs(ms)[k]).chains != []
    ensures !IndependentIn(s, o, ms)
  {
    var ip := Permutations.IndexPairs(|ms|);
    PairHasChainsIffReaches(s, o, ms, k);
    var i, j := ip[k].0, ip[k].1;
    assert 0 <= i < |ms| && 0 <= j < |ms| && i != j;
  }

  /** The reference report is empty exactly when the modules are independent in `s`. */
  lemma ReportEmptyIffIndependent(s: ImportGraph, o: Oracles, ms: seq<Module>)
    requires ChainsAreSound(o) && ChainsAreComplete(o)
    ensures Covered(Closures(s, o, ms), Permutations.Pairs(ms))
    ensures NonEmptyGroups(s, o, Closures(s, o, ms), Permutations.Pairs(ms)) == [] <==> IndependentIn(s, o, ms)
  {
    var closures := Closures(s, o, ms);
    var pairs := Permutations.Pairs(ms);
    PairsCovered(closures, ms);
    NoGroupsIff(s, o, closures, pairs);
    if forall k :: 0 <= k < |pairs| ==> GroupFor(s, o, closures, pairs[k]).chains == [] {
      NoChainsThenIndependent(s, o, ms);
    } else {
      var k: nat :| k < |pairs| && GroupFor(s, o, closures, pairs[k]).chains != [];
      ChainsThenDependent(s, o, ms, k);
    }
  }

  /** The contract is kept exactly when no declared module's closure reaches another's once the
      ignored imports are gone. */
  lemma KeptIffIndependent(g: ImportGraph, c: IndependenceContract, o: Oracles)
    requires ChainsAreSound(o) && ChainsAreComplete(o)
    ensures Check(g, c, o).0.kept <==> Independent(g, c, o)
  {
    CheckGroups(g, c, o);
    ReportEmptyIffIndependent(Stripped(g, c), o, c.modules);
  }

  /** Two modules are declared at different positions of `ms`. */
  ghost predicate DeclaredApart(ms: seq<Module>, a: Module, b: Module) {
    exists i, j :: 0 <= i < |ms| && 0 <= j < |ms| && i != j && ms[i] == a && ms[j] == b
  }

  /** In the reference report, a group for (downstream, upstream) is present exactly when the two
      are declared apart and downstream's closure reaches upstream's in `s`. */
  lemma ReportGroupIffReaches(s: ImportGraph, o: Oracles, ms: seq<Module>, downstream: Module, upstream: Module)
    requires ChainsAreSound(o) && ChainsAreComplete(o)
    ensures Covered(Closures(s, o, ms), Permutations.Pairs(ms))
    ensures (exists group :: group in NonEmptyGroups(s, o, Closures(s, o, ms), Permutations.Pairs(ms)) &&
               group.downstream == downstream && group.upstream == upstream) <==>
            (DeclaredApart(ms, downstream, upstream) &&
             ClosureReaches(s, Closure(s, o, downstream), Closure(s, o, upstream)))
  {
    var closures := Closures(s, o, ms);
    var pairs := Permutations.Pairs(ms);
    PairsCovered(closures, ms);
    GroupPresentIff(s, o, closures, pairs, downstream, upstream);
    Permutations.PairsMembership(ms, downstream, upstream);
    if (downstream, upstream) in pairs {
      ClosuresAreClosures(s, o, ms, downstream);
      ClosuresAreClosures(s, o, ms, upstream);
      GroupChainsIffFound(s, o, closures, (downstream, upstream));
      FoundIffReaches(s, o, Closure(s, o, downstream), Closure(s, o, upstream));
    }
  }

  /** A group for (downstream, upstream) is reported exactly when the two modules are declared at
      different positions and the closure of downstream reaches the closure of upstream; the
      opposite direction is a separate question with its own group. */
  lemma GroupIffReaches(g: ImportGraph, c: IndependenceContract, o: Oracles, downstream: Module, upstream: Module)
    requires ChainsAreSound(o) && ChainsAreComplete(o)
    ensures (exists group :: group in Check(g, c, o).0.invalidChains &&
               group.downstream == downstream && group.upstream == upstream) <==>
            (DeclaredApart(c.modules, downstream, upstream) &&
             ClosureReaches(Stripped(g, c), Closure(Stripped(g, c), o, downstream), Closure(Stripped(g, c), o, upstream)))
  {
    CheckGroups(g, c, o);
    ReportGroupIffReaches(Stripped(g, c), o, c.modules, downstream, upstream);
  }

  /** Where a reported chain comes from: the graph's answer for a module `a` of the downstream
      closure and a module `b` of the upstream closure, the two modules being declared at
      different positions. */
  lemma ReportedChainOrigin(g: ImportGraph, c: IndependenceContract, o: Oracles, group: ViolationGroup, chain: ImportChain)
    returns (a: Module, b: Module)
    requires group in Check(g, c, o).0.invalidChains && chain in group.chains
    ensures a in Closure(Stripped(g, c), o, group.downstream)
    ensures b in Closure(Stripped(g, c), o, group.upstream)
    ensures o.findShortestChain(Stripped(g, c), a, b) != []
    ensures chain == ChainToImports(Stripped(g, c), o.findShortestChain(Stripped(g, c), a, b))
    ensures DeclaredApart(c.modules, group.downstream, group.upstream)
  {
    var s := Stripped(g, c);
    var ms := c.modules;
    var closures := Closures(s, o, ms);
    var pairs := Permutations.Pairs(ms);
    CheckGroups(g, c, o);
    GroupsComeFromPairs(s, o, closures, pairs);
    var k: nat :| k < |pairs| && group == GroupFor(s, o, closures, pairs[k]);
    var i, j := Permutations.PairPositions(ms, k);
    var down, up := pairs[k].0, pairs[k].1;
    ClosuresAreClosures(s, o, ms, down);
    ClosuresAreClosures(s, o, ms, up);
    var from, to := closures[down], closures[up];
    EnumerateMembers(from);
    EnumerateMembers(to);
    ChainsBetweenFound(s, o, Enumerate(from), Enumerate(to), from, to);
    assert Found(s, o, chain, from, to);
    a, b :| a in from && b in to && o.findShortestChain(s, a, b) != [] &&
            chain == ChainToImports(s, o.findShortestChain(s, a, b));
  }

  /** Every reported chain is evidence against its group: a path of direct imports of the original
      graph from the downstream closure into the upstream closure, every link carrying the line
      numbers recorded for it, none of them an ignored import. The group's two modules are
      declared at different positions. */
  lemma ReportedChainsAreEvidence(g: ImportGraph, c: IndependenceContract, o: Oracles, group: ViolationGroup, chain: ImportChain)
    requires ChainsAreSound(o)
    requires group in Check(g, c, o).0.invalidChains && chain in group.chains
    ensures IsEvidence(g, chain, Closure(Stripped(g, c), o, group.downstream), Closure(Stripped(g, c), o, group.upstream))
    ensures AvoidsImports(chain, IgnoredImports(c))
    ensures DeclaredApart(c.modules, group.downstream, group.upstream)
  {
    var s := Stripped(g, c);
    var a, b := ReportedChainOrigin(g, c, o, group, chain);
    var from, to := Closure(s, o, group.downstream), Closure(s, o, group.upstream);
    ChainToImportsIsEvidence(s, o.findShortestChain(s, a, b), a, b, from, to);
    EvidenceSurvivesRestore(g, IgnoredImports(c), chain, from, to);
  }

  /** Every reported chain is a shortest one: no chain of the searched graph between the same two
      modules passes through fewer imports. */
  lemma ReportedChainsAreShortest(g: ImportGraph, c: IndependenceContract, o: Oracles, group: ViolationGroup, chain: ImportChain)
    requires ChainsAreSound(o) && ChainsAreShortest(o)
    requires group in Check(g, c, o).0.invalidChains && chain in group.chains && chain != []
    ensures forall nodes :: IsChain(Stripped(g, c), nodes, chain[0].importer, chain[|chain| - 1].imported) ==>
              |chain| <= |nodes| - 1
  {
    var s := Stripped(g, c);
    var a, b := ReportedChainOrigin(g, c, o, group, chain);
    var found := o.findShortestChain(s, a, b);
    assert IsChain(s, found, a, b);
    assert chain[0].importer == a && chain[|chain| - 1].imported == b;
  }

  /** Evidence that uses none of the graph's imports has no links, so its two ends overlap. */
  lemma EvidenceWithoutImportsOverlaps(g: ImportGraph, chain: ImportChain, ignored: seq<Edge>, from: set<Module>, to: set<Module>)
    requires forall e :: e in g.imports ==> e in ignored
    requires IsEvidence(g, chain, from, to) && AvoidsImports(chain, ignored)
    ensures from * to != {}
  {
  }

  /** Ignoring every import of the graph keeps the contract, provided the declared modules'
      closures do not overlap. */
  lemma IgnoringEveryImportKeeps(g: ImportGraph, c: IndependenceContract, o: Oracles)
    requires ChainsAreSound(o)
    requires forall e :: e in g.imports ==> e in IgnoredImports(c)
    requires forall i, j :: 0 <= i < |c.modules| && 0 <= j < |c.modules| && i != j ==>
               Closure(Stripped(g, c), o, c.modules[i]) !! Closure(Stripped(g, c), o, c.modules[j])
    ensures Check(g, c, o).0 == ContractCheck(true, [])
  {
    var s := Stripped(g, c);
    var groups := Check(g, c, o).0.invalidChains;
    if groups != [] {
      var group := groups[0];
      assert group in groups;
      var chain := group.chains[0];
      ReportedChainsAreEvidence(g, c, o, group, chain);
      EvidenceWithoutImportsOverlaps(g, chain, IgnoredImports(c),
        Closure(Stripped(g, c), o, group.downstream), Closure(Stripped(g, c), o, group.upstream));
      assert false;
    }
  }

  /** `xs` is `ys` with some elements left out, the rest kept in order. */
  ghost predicate IsSubsequence<T>(xs: seq<T>, ys: seq<T>)
    decreases |ys|
  {
    if ys == [] then xs == []
    else IsSubsequence(xs, ys[1..]) || (xs != [] && xs[0] == ys[0] && IsSubsequence(xs[1..], ys[1..]))
  }

  /** The (downstream, upstream) pair each group reports. */
  function GroupKeys(groups: seq<ViolationGroup>): seq<(Module, Module)> {
    seq(|groups|, k requires 0 <= k < |groups| => (groups[k].downstream, groups[k].upstream))
  }

  lemma {:induction false} GroupsFollowPairs(g: ImportGraph, o: Oracles, closures: map<Module, set<Module>>, pairs: seq<(Module, Module)>)
    requires Covered(closures, pairs)
    ensures IsSubsequence(GroupKeys(NonEmptyGroups(g, o, closures, pairs)), pairs)
    decreases |pairs|
  {
    if pairs != [] {
      var rest := pairs[1..];
      var first := GroupFor(g, o, closures, pairs[0]);
      var groups := NonEmptyGroups(g, o, closures, pairs);
      assert Covered(closures, rest);
      GroupsFollowPairs(g, o, closures, rest);
      var restGroups := NonEmptyGroups(g, o, closures, rest);
      if first.chains != [] {
        assert groups == [first] + restGroups;
        GroupKeysCons(first, restGroups);
        SubsequenceKeep(GroupKeys(restGroups), pairs);
      } else {
        assert groups == restGroups;
        SubsequenceSkip(GroupKeys(restGroups), pairs);
      }
    }
  }

  lemma GroupKeysCons(first: ViolationGroup, rest: seq<ViolationGroup>)
    ensures GroupKeys([first] + rest) == [(first.downstream, first.upstream)] + GroupKeys(rest)
  {
  }

  lemma SubsequenceKeep<T>(xs: seq<T>, ys: seq<T>)
    requires ys != [] && IsSubsequence(xs, ys[1..])
    ensures IsSubsequence([ys[0]] + xs, ys)
  {
    assert ([ys[0]] + xs)[1..] == xs;
  }

  lemma SubsequenceSkip<T>(xs: seq<T>, ys: seq<T>)
    requires ys != [] && IsSubsequence(xs, ys[1..])
    ensures IsSubsequence(xs, ys)
  {
  }

  lemma {:induction false} SubsequenceElements<T>(xs: seq<T>, ys: seq<T>)
    requires IsSubsequence(xs, ys)
    ensures forall x :: x in xs ==> x in ys
    decreases |ys|
  {
    if ys != [] {
      if IsSubsequence(xs, ys[1..]) {
        SubsequenceElements(xs, ys[1..]);
      } else {
        SubsequenceElements(xs[1..], ys[1..]);
        assert xs == [xs[0]] + xs[1..];
      }
    }
  }

  lemma {:induction false} SubsequenceOfDistinct<T>(xs: seq<T>, ys: seq<T>)
    requires IsSubsequence(xs, ys)
    requires forall k, l :: 0 <= k < l < |ys| ==> ys[k] != ys[l]
    ensures forall k, l :: 0 <= k < l < |xs| ==> xs[k] != xs[l]
    decreases |ys|
  {
    if ys != [] {
      if IsSubsequence(xs, ys[1..]) {
        SubsequenceOfDistinct(xs, ys[1..]);
      } else {
        SubsequenceOfDistinct(xs[1..], ys[1..]);
        SubsequenceElements(xs[1..], ys[1..]);
        forall k, l | 0 <= k < l < |xs|
          ensures xs[k] != xs[l]
        {
          if k == 0 {
            assert xs[l] == xs[1..][l - 1];
            assert xs[l] in ys[1..];
          } else {
            assert xs[k] == xs[1..][k - 1] && xs[l] == xs[1..][l - 1];
          }
        }
      }
    }
  }

  /** The report, in terms of the reference definition. */
  lemma CheckGroups(g: ImportGraph, c: IndependenceContract, o: Oracles)
    ensures Covered(Closures(Stripped(g, c), o, c.modules), Permutations.Pairs(c.modules))
    ensures Check(g, c, o).0.invalidChains ==
              NonEmptyGroups(Stripped(g, c), o, Closures(Stripped(g, c), o, c.modules), Permutations.Pairs(c.modules))
  {
    PairsCovered(Closures(Stripped(g, c), o, c.modules), c.modules);
  }

  /** The groups appear in the order permutations yields the pairs, at most one per searched
      pair. */
  lemma GroupsInPermutationOrder(g: ImportGraph, c: IndependenceContract, o: Oracles)
    ensures IsSubsequence(GroupKeys(Check(g, c, o).0.invalidChains), Permutations.Pairs(c.modules))
  {
    CheckGroups(g, c, o);
    GroupsFollowPairs(Stripped(g, c), o, Closures(Stripped(g, c), o, c.modules), Permutations.Pairs(c.modules));
  }

  /** When the declared modules are distinct, no two groups report the same direction between the
      same two modules. */
  lemma AtMostOneGroupPerDirection(g: ImportGraph, c: IndependenceContract, o: Oracles)
    requires forall i, j :: 0 <= i < j < |c.modules| ==> c.modules[i] != c.modules[j]
    ensures forall k, l :: 0 <= k < l < |Check(g, c, o).0.invalidChains| ==>
              (Check(g, c, o).0.invalidChains[k].downstream, Check(g, c, o).0.invalidChains[k].upstream) !=
              (Check(g, c, o).0.invalidChains[l].downstream, Check(g, c, o).0.invalidChains[l].upstream)
  {
    var groups := Check(g, c, o).0.invalidChains;
    GroupsInPermutationOrder(g, c, o);
    Permutations.PairsDistinct(c.modules);
    SubsequenceOfDistinct(GroupKeys(groups), Permutations.Pairs(c.modules));
    DistinctKeys(groups);
  }

  /** Groups whose keys are pairwise different report pairwise different directions. */
  lemma DistinctKeys(groups: seq<ViolationGroup>)
    requires forall k, l :: 0 <= k < l < |GroupKeys(groups)| ==> GroupKeys(groups)[k] != GroupKeys(groups)[l]
    ensures forall k, l :: 0 <= k < l < |groups| ==>
              (groups[k].downstream, groups[k].upstream) != (groups[l].downstream, groups[l].upstream)
  {
    var keys := GroupKeys(groups);
    forall k, l | 0 <= k < l < |groups|
      ensures (groups[k].downstream, groups[k].upstream) != (groups[l].downstream, groups[l].upstream)
    {
      assert keys[k] != keys[l];
    }
  }
}
