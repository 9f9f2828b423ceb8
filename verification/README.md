# Independence contract of import-linter, in Dafny

This project models the check of an **independence contract** in import-linter. The contract
lists modules that must not import one another, directly or through a chain of imports, in
either direction. A module stands for itself and all of its descendants (its subpackage
closure). Listed direct imports may be ignored.

`IndependenceContract.check` runs in five steps:

1. It pops the ignored imports from the graph.
2. It computes each declared module's closure.
3. It asks the graph for a shortest chain from every module of one closure to every module of
   the other, for every ordered pair that `itertools.permutations(modules, 2)` yields.
4. It turns every chain it finds into per-import records carrying line numbers. It keeps a pair
   as a violation group only when that pair has chains.
5. It adds the popped imports back.

The model is functional. The graph is a value: its module set plus a map from each direct
import to its line numbers. `Independence.Check` returns the verdict together with the graph as
it is afterwards. The graph library's two queries, `find_descendants` and `find_shortest_chain`,
are foreign code. They appear as function-valued oracles (`Graph.Oracles`). What the proofs
assume of them is stated by three predicates:

- `ChainsAreSound`: an answer is empty or a real chain of the graph asked.
- `ChainsAreComplete`: a chain is answered whenever one exists.
- `ChainsAreShortest`: no chain is shorter than the one answered.

Files:

- `graph.dfy`: the graph, chains, reachability and the oracle predicates.
- `helpers.dfy`: popping and re-adding imports, and the exact restore.
- `permutations.dfy`: `permutations(xs, r=2)` over positions.
- `independence.dfy`: the check, the operational loops and the reference report.
- `properties.dfy`: what the report means.
- `scenarios.dfy`: a worked two-module case.
- `render.dfy`: the printed report.

Two behaviours of the code are worth knowing:

- The popped imports are restored only on the normal path (independence.py:79); there is no
  `finally`. In the model the oracles are total, so there is no failure path at all.
- `permutations` pairs positions, not values (independence.py:45), so a module listed twice is
  paired with itself. The model does the same; `AtMostOneGroupPerDirection` therefore assumes
  distinct modules.

## Model

| member | source | states |
|---|---|---|
| Helpers.PopImports | src/importlinter/contracts/independence.py:34-37 | the searched graph is the graph minus every ignored import, with modules untouched; what is recorded is exactly the ignored imports that were present, each once, with its line numbers |
| Helpers.AddImport | tests/unit/domain/test_helpers.py:22-24 | after adding an import, the modules are exactly the old ones plus its two endpoints, the edges exactly the old ones plus it, its line numbers are the old ones followed by the added ones, and every other import is unchanged |
| Helpers.AddImports | src/importlinter/contracts/independence.py:79 | re-adding records makes their edges present and their endpoints modules of the graph; every other import keeps its line numbers |
| Helpers.AddImportsRecorded | src/importlinter/contracts/independence.py:79 | re-adding records of distinct edges the graph lacks leaves each edge with exactly its recorded line numbers |
| Helpers.RestoreImportsAfterPop | src/importlinter/contracts/independence.py:79 | re-adding what was popped gives back exactly the original imports with their line numbers, for any graph |
| Helpers.RestoreAfterPop | src/importlinter/contracts/independence.py:79 | re-adding what was popped gives back the original graph exactly (edges, line numbers and modules) |
| Permutations.IndexPairs | src/importlinter/contracts/independence.py:45 | the position pairs are all pairs (i, j) with i != j, each once, in strictly increasing lexicographic order, n*(n-1) of them |
| Permutations.Pairs | src/importlinter/contracts/independence.py:45 | n*(n-1) pairs; the elements at any two different positions form a pair, and every pair is the elements at two different positions |
| Permutations.NoPairsBelowTwo | src/importlinter/contracts/independence.py:45 | with zero or one declared module there is no pair to search |
| Permutations.PairsMembership | src/importlinter/contracts/independence.py:45 | (a, b) is searched exactly when a and b sit at two different positions of the list |
| Permutations.PairsDistinct | src/importlinter/contracts/independence.py:45 | distinct declared modules give no repeated pair |
| Independence.Closures | src/importlinter/contracts/independence.py:39-43 | the closures are keyed by exactly the declared modules; each is that module's closure: the module and every descendant the graph reports, nothing else |
| Independence.EnumerateMembers | src/importlinter/contracts/independence.py:53-54 | iterating a closure visits each of its modules exactly once |
| Independence.ChainToImports | src/importlinter/contracts/independence.py:61-74 | a chain of n modules gives n-1 records; record i goes from module i to module i+1 and carries that import's line numbers in order |
| Independence.ChainRoundTrip | src/importlinter/contracts/independence.py:61-74 | the records of a chain of two or more modules give back the chain |
| Independence.NoChainsFromIff | src/importlinter/contracts/independence.py:54-58 | nothing is collected for an importer exactly when the graph answers no chain to any imported candidate |
| Independence.NoChainsBetweenIff | src/importlinter/contracts/independence.py:53-58 | nothing is collected for a pair exactly when the graph answers no chain for any candidate combination |
| Independence.ScanImported | src/importlinter/contracts/independence.py:54-75 | the inner loop appends exactly the found chains and clears the kept flag exactly when it finds one |
| Independence.ScanImporters | src/importlinter/contracts/independence.py:53-75 | the loop over importers appends exactly the found chains and clears the kept flag exactly when it finds one |
| Independence.ScanPairs | src/importlinter/contracts/independence.py:45-77 | the loop over pairs appends exactly the reference report's groups, and the flag stays set exactly when that report is empty |
| Independence.GroupsNonEmpty | src/importlinter/contracts/independence.py:76-77 | every reported group holds at least one chain |
| Independence.Check | src/importlinter/contracts/independence.py:30-81 | the groups are the reference report; kept holds exactly when there is no group; no group is empty; zero or one module is kept with no groups; the imports afterwards are exactly those before, and a valid graph is unchanged altogether, so a second check gives the same result |
| IndependenceProperties.KeptIffIndependent | src/importlinter/contracts/independence.py:59-60 | with a sound and complete graph, the contract is kept exactly when no declared module's closure reaches the closure of a module at another position, once the ignored imports are gone |
| IndependenceProperties.ReportEmptyIffIndependent | src/importlinter/contracts/independence.py:76-77 | with a sound and complete graph, the reference report is empty exactly when no declared module's closure reaches the closure of a module at another position |
| IndependenceProperties.ReportGroupIffReaches | src/importlinter/contracts/independence.py:45-58 | in the reference report, a group (downstream, upstream) is present exactly when both are declared at different positions and downstream's closure reaches upstream's |
| IndependenceProperties.GroupChainsIffFound | src/importlinter/contracts/independence.py:53-58 | a pair's group holds chains exactly when the graph answers a chain for some module of one closure and some module of the other |
| IndependenceProperties.GroupIffReaches | src/importlinter/contracts/independence.py:45-58 | a group (downstream, upstream) exists exactly when both are declared at different positions and downstream's closure reaches upstream's; each direction is decided on its own |
| IndependenceProperties.ReportedChainOrigin | src/importlinter/contracts/independence.py:53-75 | every reported chain is the records of the graph's answer for a module of the downstream closure and one of the upstream closure |
| IndependenceProperties.ReportedChainsAreEvidence | src/importlinter/contracts/independence.py:59-75 | every reported chain is a connected path of direct imports of the original graph, from the downstream closure into the upstream closure; its line numbers are those recorded; it uses no ignored import |
| IndependenceProperties.ReportedChainsAreShortest | src/importlinter/contracts/independence.py:55-58 | no chain of the searched graph between the same two modules has fewer imports than a reported one |
| IndependenceProperties.IgnoringEveryImportKeeps | src/importlinter/contracts/independence.py:21-23 | when every import is ignored and the closures do not overlap, the contract is kept |
| IndependenceProperties.GroupsInPermutationOrder | src/importlinter/contracts/independence.py:45-77 | the groups' (downstream, upstream) pairs are a subsequence of the permutation order |
| IndependenceProperties.AtMostOneGroupPerDirection | src/importlinter/contracts/independence.py:45-51 | with distinct declared modules, no two groups share downstream and upstream |
| IndependenceProperties.EvidenceWithoutImportsOverlaps | src/importlinter/contracts/independence.py:21-23 | evidence that uses none of the graph's imports can only be a chain without links, joining two overlapping closures |
| IndependenceProperties.ChainToImportsIsEvidence | src/importlinter/contracts/independence.py:61-74 | the records of a chain of the graph are a connected path of its imports with their line numbers |
| IndependenceProperties.EvidenceSurvivesRestore | src/importlinter/contracts/independence.py:34-37 | evidence found without the ignored imports is evidence in the original graph and avoids them |
| IndependenceProperties.FoundIffReaches | src/importlinter/contracts/independence.py:55-60 | with a sound and complete graph, some candidate combination gets a chain exactly when one closure reaches the other |
| IndependenceProperties.GroupsComeFromPairs | src/importlinter/contracts/independence.py:45-51 | every group is the group of one searched pair |
| IndependenceProperties.NoGroupsIff | src/importlinter/contracts/independence.py:76-77 | the report is empty exactly when no searched pair has chains |
| IndependenceProperties.GroupPresentIff | src/importlinter/contracts/independence.py:45-77 | a group for a direction is present exactly when that pair is searched and has chains |
| IndependenceProperties.GroupsFollowPairs | src/importlinter/contracts/independence.py:76-77 | groups are appended in the order their pairs are searched |
| Scenarios.MutualImportGroups | src/importlinter/contracts/independence.py:45-77 | two modules without descendants that import each other directly give one single-link group per direction, in pair order |
| Scenarios.ApiAndDbImportEachOther | src/importlinter/contracts/independence.py:30-81 | api and db importing each other give two groups, (api, db) then (db, api), each with one single-import chain and its line numbers; util, which imports api, is not mentioned |
| Render.LineNumbersRoundTrip | src/importlinter/contracts/independence.py:94 | the printed "l.N, l.M" text reads back as the link's line numbers, in order |
| Render.DecimalRoundTrip | src/importlinter/contracts/independence.py:94 | a printed line number reads back as itself |
| Render.RenderGroups | src/importlinter/contracts/independence.py:83-104 | the report prints three lines per group, one per chain and one per link |
| Render.ImportTextReadsBack | src/importlinter/contracts/independence.py:92-94 | the printed "importer -> imported (l.N, l.M)" text of a link reads back as that link, when module names hold no space |
| Render.ChainLinesReadBack | src/importlinter/contracts/independence.py:90-101 | a chain prints one line per link, in order, each reading back as its link; only the first is bulleted, the rest indented; a blank line closes it |
| Render.RenderShowsEveryLink | src/importlinter/contracts/independence.py:90-101 | every link of every chain is printed on its own line, the first with a bullet and the rest indented |

## Left out

- Exceptions from the graph library, and the missing `finally` around the restore: the oracles are total functions, so the model has no failure path.
- The graph library's shortest-path search and descendant computation: they are foreign code. They appear as oracles whose behaviour the predicates in `graph.dfy` state.
- `helpers.py` is not part of this model. `pop_imports` and `add_imports` are modelled at the level of edges. An ignored import that is absent when popped is skipped and not recorded.
- Configuration fields (`ListField`, `ModuleField`, `DirectImportField`) and their validation: the contract takes a typed module list and an optional list of edges.
- `tests/adapters/building.py`: a test graph builder with no contract logic.
- Concurrent use of the mutable graph: the model is single-threaded and pure.
- Python's set iteration order: the order of chains within a group follows one fixed but unspecified enumeration of each closure (`Independence.Enumerate`).
- Module names containing a space: reading a printed link back splits at spaces, so `Render.ImportTextReadsBack` assumes dotted Python names.
- The `count` accumulated in `render_broken_contract` is never used, so it is not modelled. The width of `output.indent_cursor` is outside the model; a line only records whether it was indented.
- Independence.Check: restores the module set exactly only when every import joins two modules of the graph, which the graph library always maintains; the imports are restored exactly for every graph.
