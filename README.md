# Analytic eigenvalue graphs: a verified model of the search core

`find_analytic_graphs.py` searches for simple graphs on `n` vertices whose
skew-symmetric adjacency matrix has eigenvalues with closed forms. The
search works in stages:

1. It enumerates every edge set over the pairs `i < j`, in the order of
   `itertools.combinations`.
2. It drops every graph whose structural key (sorted degree sequence,
   sorted end-point degree pairs, edge count) has already been seen.
3. It builds the skew-symmetric matrix of each remaining graph.
4. It groups the graphs by the printed characteristic polynomial.
5. It solves each polynomial once, and checks every root with the
   textual tests of `is_nice_closed_form`.
6. For each polynomial whose roots all pass, it records one result for
   the first graph of its group, named by `identify_graph_family`.
7. It sorts the results by edge count, then by polynomial.

This project models those stages. Each module follows one part of the
program:

| module | file | models |
|---|---|---|
| `Wrappers` | `wrappers.dfy` | `None` or a value |
| `Sorting` | `sorting.dfy` | Python's stable `sorted` / `list.sort` with a key order, as a stable insertion sort |
| `Graphs` | `graphs.dfy` | edges, the `adj` sets, degrees, the loop that builds `adj` |
| `Enumeration` | `enumeration.dfy` | `generate_all_edge_sets` and `itertools.combinations` |
| `Canonical` | `canonical.dfy` | `canonical_form` |
| `Unique` | `unique.dfy` | `enumerate_unique_graphs` with its `seen` set |
| `SkewMatrix` | `matrix.dfy` | `make_skew_symmetric_matrix`, building an `array2` in place |
| `Family` | `family.dfy` | `identify_graph_family`: degree counts, the stack search, the test cascade, the names |
| `FamilyFacts` | `family_facts.dfy` | what the cascade answers, in general and on concrete graphs |
| `Text` | `text.dfy` | `str()` of integers, `edges_to_string`, and a parser that reads its output back |
| `Eigen` | `eigen.dfy` | the string tests of `is_nice_closed_form`, and `analyze_eigenvalues` |
| `Grouping` | `grouping.dfy` | the `defaultdict(list)`, as an ordered map |
| `Aggregate` | `aggregate.dfy` | the main loop of `find_analytic_graphs` and its sort |

The computer algebra is not modelled. It enters as two function
parameters of `Aggregate.FindAnalyticGraphs`:

- `charPoly` maps a matrix, given as its list of rows, to the printed
  characteristic polynomial.
- `solve` maps a printed polynomial to its roots with multiplicities, or
  to `None` when solving fails. Nothing ties its answer to the degree of
  the polynomial: `roots()` may return fewer roots than the degree, or
  none, without failing. On a reading of `analyze_eigenvalues`, such an
  answer is passed through unchanged, and an empty one counts as
  analytic, since `all()` of nothing holds. The model keeps that
  behaviour (`Eigen.NoRootsAnalytic`).

Each root arrives as an `Eigen.Root`. It carries:

- its printed form;
- its simplified form;
- its category;
- the two facts is_nice_closed_form asks of the expression object: is it
  a `Float`, and does it contain one.

`FindAnalyticGraphs` is proved equal to a specification value,
`Expected`. The lemmas about `Expected` state what the program promises:

- the results are sorted by (edge count, polynomial);
- no polynomial appears twice;
- each result is the first unique graph with its polynomial;
- that graph's roots all pass the closed-form tests;
- `isomorphism_class_size` is the number of unique graphs sharing the
  polynomial, and these sizes add up to the number of unique graphs;
- every analytic polynomial has a result.

Two facts about the program were proved rather than assumed:

- The `n == 2` branch of the path test
  (`find_analytic_graphs.py:318-319`) can never return. Every graph on
  two vertices with one edge is caught earlier by the complete-graph
  test, so it is named "Complete graph K_2".
  `FamilyFacts.ClassifyPath` and `FamilyFacts.PathFacts` show that
  `PathGraph(2)` is never the answer.
- The key of `canonical_form` is not invariant under relabelling, because
  the pair `(deg i, deg j)` keeps the orientation of the edge. The two
  labellings of the path on three vertices, `0-1, 1-2` and `0-1, 0-2`, get
  different keys (`Canonical.KeyMissesRelabelling`), so both survive the
  filter. The code's own comment says the key "catches most isomorphisms
  but not all". The model keeps the key exactly as written.

## Model

| member | source | states |
|---|---|---|
| Enumeration.PossibleEdgesFacts | find_analytic_graphs.py:48 | the candidate pairs are exactly `0 <= i < j < n`, strictly increasing, without repeats, and there are n(n-1)/2 of them |
| Enumeration.CombinationsSound | find_analytic_graphs.py:52 | every r-combination is a subsequence of the pairs, with r elements |
| Enumeration.CombinationsComplete | find_analytic_graphs.py:52 | every subsequence of the pairs is among the combinations of its size |
| Enumeration.CombinationsDistinct | find_analytic_graphs.py:52 | combinations of distinct elements are pairwise different |
| Enumeration.CombinationsCount | find_analytic_graphs.py:52 | there are C(m, r) combinations of size r |
| Enumeration.SubsetsUpToSizes | find_analytic_graphs.py:51-53 | the subsets come out in order of size, smallest first |
| Enumeration.SumBinomPow2 | find_analytic_graphs.py:50 | the sizes 0..m together give 2^m subsets |
| Enumeration.AllEdgeSetsFacts | find_analytic_graphs.py:41-53 | the edge sets are exactly the subsets of the pairs, each strictly increasing and in range, none twice, ordered by size, and there are 2^(n(n-1)/2) of them |
| Enumeration.AllEdgeSetsInRange | find_analytic_graphs.py:41-53 | every generated edge set has its end points among the n vertices |
| Enumeration.IncreasingSimple | find_analytic_graphs.py:48-53 | a strictly increasing list of pairs i < j has no self-loop and no edge twice in either orientation |
| Enumeration.AllEdgeSetsSimple | find_analytic_graphs.py:41-53 | every generated edge set is a simple graph |
| Enumeration.AllEdgeSetsDegreeSum | find_analytic_graphs.py:41-53 | on every generated graph the degrees add up to twice the number of edges |
| Enumeration.GenerateAllEdgeSets | find_analytic_graphs.py:41-53 | the nested loops over r and over the combinations yield exactly the specified sequence of edge sets |
| Graphs.Degrees | find_analytic_graphs.py:74 | there are n degrees, and entry v is the size of v's neighbour set |
| Graphs.NeighborsIff | find_analytic_graphs.py:68-71 | u is added to adj[v] exactly when (v, u) or (u, v) is an edge |
| Graphs.NeighborsInRange | find_analytic_graphs.py:68-71 | with end points in range, every neighbour is a vertex |
| Graphs.BuildAdjacency | find_analytic_graphs.py:68-71 | the loop over the edges builds the neighbour table of the graph |
| Graphs.DegreeStep | find_analytic_graphs.py:69-71 | a new edge between two distinct vertices raises the degree of just its two end points, by one each |
| Graphs.DegreeSum | find_analytic_graphs.py:68-74 | in a simple graph the degrees add up to twice the number of edges |
| Graphs.ZeroDegrees | find_analytic_graphs.py:64-65 | the graph without edges has degree sum 0 |
| Sorting.SortBy | find_analytic_graphs.py:74 | sorting returns a permutation of its input |
| Sorting.SortBySorted | find_analytic_graphs.py:74 | with a total, transitive order the output is sorted |
| Sorting.SumSortBy | find_analytic_graphs.py:74 | sorting keeps the sum of a sequence of integers |
| Canonical.DegreeGeOrder | find_analytic_graphs.py:74 | the descending order on degrees is total and transitive |
| Canonical.PairLeOrder | find_analytic_graphs.py:78 | Python's order on integer pairs is total and transitive |
| Canonical.EdgeDegreePairs | find_analytic_graphs.py:78 | one degree pair per edge |
| Canonical.CanonicalForm | find_analytic_graphs.py:56-80 | the method (early return when there are no edges, the adjacency loop, the two sorts) computes the key of the graph |
| Canonical.EmptyKeyShape | find_analytic_graphs.py:64-65 | the short key appears exactly for the graph with no edges, and it holds n zeros, the degrees of that graph |
| Canonical.StructKeyShape | find_analytic_graphs.py:73-80 | any other key holds the degrees sorted descending, a permutation of the degree list, the end-point degree pairs sorted ascending, a permutation of those pairs, and the edge count |
| Canonical.StructKeyDegreeSum | find_analytic_graphs.py:74-80 | the degrees in the key of a simple graph add up to twice its edge count |
| Canonical.EqualKeys | find_analytic_graphs.py:56-80 | graphs with the same key have the same edge count and the same multiset of degrees |
| Canonical.KeyMissesRelabelling | find_analytic_graphs.py:78 | two labellings of the path on three vertices get different keys |
| Canonical.PathMiddleDegrees | find_analytic_graphs.py:78 | the degree pairs of 0-1, 1-2 are (1,2), (2,1) |
| Canonical.PathEndDegrees | find_analytic_graphs.py:78 | the degree pairs of 0-1, 0-2 are (2,1), (2,1) |
| Unique.UniqueCovers | find_analytic_graphs.py:98-105 | every scanned graph's key is among the yielded keys |
| Unique.UniqueDistinct | find_analytic_graphs.py:98-105 | no key is yielded twice |
| Unique.UniqueFirst | find_analytic_graphs.py:98-105 | each yielded pair is a scanned graph with its key, and no earlier graph had that key |
| Unique.UniqueKeySet | find_analytic_graphs.py:98-105 | at the end the `seen` set is exactly the set of keys of all scanned graphs |
| Unique.UniqueInOrder | find_analytic_graphs.py:100-105 | the yielded graphs come out in scan order |
| Unique.FilterUnseen | find_analytic_graphs.py:98-105 | the `seen`-set loop yields exactly the specified first-key-wins selection, each graph tagged with its key |
| Unique.EnumerateUniqueGraphs | find_analytic_graphs.py:83-105 | with the filter off, every edge set is yielded paired with None; with it on, the filtered selection is yielded |
| SkewMatrix.MakeSkewSymmetricMatrix | find_analytic_graphs.py:112-126 | the n x n array is filled with +1 above and -1 below the diagonal for each edge, in either orientation, and -1 on the diagonal for a self-loop |
| SkewMatrix.SkewSymmetric | find_analytic_graphs.py:112-126 | off the diagonal, A[j][i] = -A[i][j] |
| SkewMatrix.ZeroDiagonal | find_analytic_graphs.py:112-126 | without self-loops the diagonal is zero |
| SkewMatrix.EntryValues | find_analytic_graphs.py:112-126 | every entry is -1, 0 or 1, and an entry above the diagonal is 1 exactly when the pair is an edge |
| SkewMatrix.FlipSameMatrix | find_analytic_graphs.py:119-125 | writing an edge as (j, i) instead of (i, j) gives the same matrix |
| Text.NatStr | find_analytic_graphs.py:353 | str() of a natural number is a non-empty string of digits |
| Text.NatStrValue | find_analytic_graphs.py:353 | the digits of str(k) denote k |
| Text.NatStrInjective | find_analytic_graphs.py:353 | different numbers print differently |
| Text.IntStrSign | find_analytic_graphs.py:337 | str(i) starts with '-' exactly when i is negative |
| Text.IntStrInjective | find_analytic_graphs.py:337 | different integers print differently |
| Text.ParseEdgeOf | find_analytic_graphs.py:353 | reading "i-j" back gives the edge (i, j) and the rest |
| Text.ParseJoin | find_analytic_graphs.py:353 | the parser reads the ", "-joined edges back |
| Text.JoinStartsWithDigit | find_analytic_graphs.py:351-353 | a non-empty rendering starts with a digit, so it is never the no-edges text |
| Text.SortKeepsNonNegative | find_analytic_graphs.py:353 | sorting keeps the end points non-negative |
| Text.EdgesToStringRoundTrip | find_analytic_graphs.py:349-353 | edges_to_string is invertible: reading it back gives the sorted edge list, and the empty list for "∅ (no edges)" |
| Text.SortedListUnchanged | find_analytic_graphs.py:353 | an already sorted edge list is rendered in its own order |
| Family.Range | find_analytic_graphs.py:331 | the set of vertices 0..n-1 has n elements |
| Family.SubsetOfRange | find_analytic_graphs.py:331 | a set of vertices has at most n elements, and has n only when it is all of them |
| Family.ReachStep | find_analytic_graphs.py:325-330 | a neighbour of a reachable vertex is reachable |
| Family.ClosedHoldsReachable | find_analytic_graphs.py:325-331 | a set that holds 0 and is closed under neighbours holds every reachable vertex |
| Family.SetToSeq | find_analytic_graphs.py:330 | `adj[node] - visited` is turned into a list with the same elements |
| Family.VisitFromZero | find_analytic_graphs.py:324-330 | the stack search from vertex 0 marks exactly the vertices reachable from 0 |
| Family.VisitedAllIff | find_analytic_graphs.py:331 | all n vertices are marked exactly when the graph is connected |
| Family.Count | find_analytic_graphs.py:313-316 | a count is at most the length, and positive exactly when the value occurs |
| Family.CountTwo | find_analytic_graphs.py:316 | the counts of two different values add up to at most the length |
| Family.Max | find_analytic_graphs.py:336 | max() is an element and bounds every element |
| Family.CountDegrees | find_analytic_graphs.py:313-315 | the degree_count loop counts each degree, with missing keys reading as 0 |
| Family.RunTests | find_analytic_graphs.py:303-346 | the cascade, with the stack search in the cycle test, returns the family the specified order of tests selects |
| Family.ClassifyGraph | find_analytic_graphs.py:289-346 | building adj, the degrees and the cascade gives the family of the graph |
| Family.IdentifyGraphFamily | find_analytic_graphs.py:289-346 | the returned name is the name of the graph's family, or None |
| Family.RegularLabelInjective | find_analytic_graphs.py:344 | the regular-graph name determines the degree and the vertex count |
| Family.LabelHead | find_analytic_graphs.py:305-344 | the first two characters of a name tell its family kind |
| Family.LabelInjective | find_analytic_graphs.py:305-344 | different families get different names |
| FamilyFacts.PairCountAbovePath | find_analytic_graphs.py:308-312 | from three vertices on, a complete graph has more than n-1 edges |
| FamilyFacts.PairCountIsOrder | find_analytic_graphs.py:308-322 | n(n-1)/2 = n only for n = 0 and n = 3 |
| FamilyFacts.SingleValue | find_analytic_graphs.py:343 | one distinct degree means all degrees equal the first |
| FamilyFacts.ClassifyPath | find_analytic_graphs.py:312-319 | the cascade never answers P_2, and answers P_n exactly for n > 2 with n-1 edges, two vertices of degree 1 and n-2 of degree 2 |
| FamilyFacts.ClassifyCycle | find_analytic_graphs.py:322-332 | the cascade answers C_n exactly for n > 0, n ≠ 3, n edges, all degrees 2 and connected |
| FamilyFacts.ClassifyStar | find_analytic_graphs.py:335-337 | the cascade answers the star exactly for n ≥ 4, n-1 edges, maximum degree n-1 and n-1 leaves |
| FamilyFacts.ClassifyRegular | find_analytic_graphs.py:343-344 | a regular answer has a positive degree shared by every vertex |
| FamilyFacts.ClassifyRegularWhen | find_analytic_graphs.py:303-344 | when the earlier tests fail and all degrees are one positive value, the answer is that regular graph |
| FamilyFacts.EmptyAndCompleteFacts | find_analytic_graphs.py:304-309 | E_n exactly for no edges; K_n exactly for a non-empty graph with n(n-1)/2 edges |
| FamilyFacts.PathFacts | find_analytic_graphs.py:312-319 | on graphs, the P_n answer and its conditions coincide, and P_2 never comes back |
| FamilyFacts.CycleFacts | find_analytic_graphs.py:322-332 | on graphs, C_n exactly for n ≠ 3, n edges, all degrees 2 and connected |
| FamilyFacts.CycleAtLeastFour | find_analytic_graphs.py:322-332 | a simple graph named a cycle has at least four vertices |
| FamilyFacts.StarFacts | find_analytic_graphs.py:335-337 | on graphs, the star exactly for n ≥ 4 with n-1 edges, a vertex of degree n-1 and n-1 leaves |
| FamilyFacts.RegularFacts | find_analytic_graphs.py:343-344 | a graph named d-regular has degree d > 0 at every vertex |
| FamilyFacts.CompleteGraphNamed | find_analytic_graphs.py:308-309 | all pairs on n ≥ 2 vertices are named "Complete graph K_n" |
| FamilyFacts.TriangleConnected | find_analytic_graphs.py:324-331 | the triangle is connected |
| FamilyFacts.CycleFourConnected | find_analytic_graphs.py:324-331 | the 4-cycle is connected |
| FamilyFacts.TwoTrianglesDisconnected | find_analytic_graphs.py:324-331 | two disjoint triangles are not connected |
| FamilyFacts.TriangleNamedComplete | find_analytic_graphs.py:308-309 | the triangle has degrees 2, 2, 2 and is connected, yet is named "Complete graph K_3" |
| FamilyFacts.PathFourNamed | find_analytic_graphs.py:312-317 | 0-1, 1-2, 2-3 is named "Path graph P_4" |
| FamilyFacts.CycleFourNamed | find_analytic_graphs.py:322-332 | 0-1, 1-2, 2-3, 0-3 is named "Cycle graph C_4" |
| FamilyFacts.StarFourNamed | find_analytic_graphs.py:335-337 | 0-1, 0-2, 0-3 is named "Star graph K_{1,3}" |
| FamilyFacts.TwoTrianglesNamedRegular | find_analytic_graphs.py:322-344 | two disjoint triangles fail the connectivity test and are named "2-regular graph on 6 vertices" |
| Eigen.Contains | find_analytic_graphs.py:183 | `t in s` holds exactly when t occurs at some position of s |
| Eigen.RemoveEllipses | find_analytic_graphs.py:189 | `s.replace('...', '')` is no longer than s and keeps only characters of s |
| Eigen.NoEllipsisLeft | find_analytic_graphs.py:189 | no "..." is left after the replacement |
| Eigen.RemoveEllipsesNoDots | find_analytic_graphs.py:189 | a string without '.' is unchanged by the replacement |
| Eigen.CRootOfHasRootOf | find_analytic_graphs.py:183 | a string containing "CRootOf" contains "RootOf" |
| Eigen.IsNiceClosedForm | find_analytic_graphs.py:162-201 | a nice root is present, mentions no RootOf or CRootOf, is no Float, has no Float hint together with a Float inside, and prints in at most 200 characters |
| Eigen.NiceWithoutFloatHint | find_analytic_graphs.py:177-201 | when the text raises no Float hint (no "Float", and no '.' outside "..." runs), a root is nice exactly when it has no RootOf, is no Float and prints in at most 200 characters |
| Eigen.NoDotsNoFloatHint | find_analytic_graphs.py:189 | text with neither "Float" nor '.' raises no Float hint |
| Eigen.NiceWithFloatHint | find_analytic_graphs.py:189-193 | with the Float hint raised and the other tests passed, a root is nice exactly when it contains no Float |
| Eigen.EllipsisIsNotADecimal | find_analytic_graphs.py:189 | "x...y" loses its ellipsis and raises no Float hint |
| Eigen.Analyzed | find_analytic_graphs.py:255-270 | all_nice holds exactly when every root is nice, and there is one record per root, in order |
| Eigen.AnalysisFacts | find_analytic_graphs.py:238-282 | unsolvable means not analytic with no records; otherwise analytic exactly when every root is nice, with one record per root carrying its simplified value, multiplicity and niceness; the summary says which case holds |
| Eigen.NoRootsAnalytic | find_analytic_graphs.py:256-273 | with no roots at all the polynomial counts as analytic |
| Eigen.AnalyzeEigenvalues | find_analytic_graphs.py:238-282 | the loop returns the specified analysis |
| Grouping.FirstOccurrences | find_analytic_graphs.py:383-401 | the dictionary's keys are distinct, and they are exactly the scanned keys |
| Grouping.FirstOccurrencesKeys | find_analytic_graphs.py:383-401 | a key is in the dictionary exactly when it was scanned |
| Grouping.GroupMapStep | find_analytic_graphs.py:398-401 | appending an item adds it to the end of its key's list, creating the list when the key is new |
| Grouping.MembersEmpty | find_analytic_graphs.py:398-401 | a key never scanned has an empty list |
| Grouping.MembersSound | find_analytic_graphs.py:398-401 | every item in a key's list was scanned with that key |
| Grouping.MembersComplete | find_analytic_graphs.py:398-401 | every item scanned with a key is in that key's list |
| Grouping.MembersHead | find_analytic_graphs.py:398-401 | the head of a key's list is the first item scanned with that key |
| Grouping.Partition | find_analytic_graphs.py:383-403 | the list sizes add up to the number of scanned items |
| Aggregate.StrLeTotal | find_analytic_graphs.py:441 | Python's order on strings is total |
| Aggregate.StrLeTransitive | find_analytic_graphs.py:441 | Python's order on strings is transitive |
| Aggregate.StrLeAntisymmetric | find_analytic_graphs.py:441 | two strings that compare both ways are equal |
| Aggregate.ResultLeOrder | find_analytic_graphs.py:441 | the (edge count, polynomial) order is total and transitive, and ties only on equal keys |
| Aggregate.GroupByPolynomial | find_analytic_graphs.py:383-401 | the loop builds the specified dictionary from polynomial to graphs, and its keys in insertion order |
| Aggregate.AnalyzeGroups | find_analytic_graphs.py:411-440 | the analysis loop collects, in key order, the result of every analytic polynomial for the first graph of its group |
| Aggregate.FindAnalyticGraphs | find_analytic_graphs.py:360-446 | the whole search returns the specified, sorted list of results |
| Aggregate.CollectedFacts | find_analytic_graphs.py:414-440 | the collected results are exactly the results of the analytic polynomials |
| Aggregate.CollectedDistinct | find_analytic_graphs.py:414-440 | no two collected results share a polynomial |
| Aggregate.ExpectedSorted | find_analytic_graphs.py:441 | the returned list is sorted by (edge count, polynomial), is a permutation of the collected results, and has no polynomial twice |
| Aggregate.OutcomeMeaning | find_analytic_graphs.py:414-440 | a result for a group describes the group's first graph: its edges, string, edge count, polynomial, records, family and the group's size |
| Aggregate.ResultMeaning | find_analytic_graphs.py:360-446 | each returned result is for the first unique graph with its polynomial, whose roots are all nice, with its records, its edge string and count, its family and its class size |
| Aggregate.ResultsComplete | find_analytic_graphs.py:414-440 | every unique graph whose polynomial is analytic has a result with that polynomial |
| Aggregate.ClassSizesAddUp | find_analytic_graphs.py:383-403 | the class sizes of all polynomials add up to the number of unique graphs |

## Left out

- The computer algebra is left out: the characteristic polynomial, `sympify`, `solve`/`roots`, `simplify`, `isinstance(expr, Float)`, `expr.has(Float)` and the category that `classify_eigenvalue` answers with. They are parameters (`charPoly`, `solve`) or fields of `Eigen.Root`.
- `classify_eigenvalue` is not modelled beyond its category: its second result (`nice_str`) is never used by `analyze_eigenvalues`.
- The `try/except` around `expr.has(Float)` is not modelled: `hasFloat` is taken as the algebra system's answer.
- Printing, the `verbose` flag, timing and the counters `total_graphs`, `unique_graphs`, `unique_polynomials` and `analytic_count` are left out. They do not affect the returned list.
- The `'matrix'` entry stored beside each graph in `poly_groups` is left out, because nothing reads it back.
- `print_results`, `save_results`, `interactive_mode` and `main` are I/O and are not part of this model. Neither are `verify_universe_positions.py` and `server.py`.
- Generators are modelled as the full sequences they yield, so laziness is not modelled.
- Dictionaries that are iterated are modelled as a key list in insertion order beside a map. That is the order Python 3.7+ guarantees.
- Family.SetToSeq: the order in which `stack.extend` pushes the elements of a set is left open. The contract states only the elements, and the result of the search does not depend on the order.
- Family.IdentifyGraphFamily: requires every end point to be a vertex 0..n-1, as every caller guarantees (`Enumeration.AllEdgeSetsInRange`). In Python an end point of n or more, or below -n, raises IndexError, and a negative end point i in -n..-1 wraps to vertex n+i. Neither path is modelled.
- Canonical.CanonicalForm and SkewMatrix.MakeSkewSymmetricMatrix: require every end point to be a vertex 0..n-1, for the same reason. In Python an end point of n or more, or below -n, raises IndexError, and a negative one wraps to vertex n+i. Neither path is modelled.
- Eigen.IsNiceClosedForm: its `ensures` states the consequences of a nice answer. The converse is stated by two lemmas that together cover every root: `NiceWithoutFloatHint` when the text raises no Float hint, and `NiceWithFloatHint` when it does and the other tests pass (when they fail, the `ensures` already gives "not nice").
- Isomorphism is not modelled: the key is the program's own, and no lemma claims that the filter keeps one graph per isomorphism class. `Canonical.KeyMissesRelabelling` shows it does not.
- Aggregate.FindAnalyticGraphs: `results.sort(...)` sorts a list in place; the model sorts the sequence of results as a value, with the same stable order (`Sorting.SortBy` with `ResultLe`).
