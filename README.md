# SPDX relationship graph and license-list validation, in Dafny

This project models two parts of a Rust toolkit for SPDX documents.

- **The relationship-graph engine** (`graph.dfy`, module `Graph`, from `src/graph.rs`):
  - `CreateGraph` folds the relationship records of a document into a directed graph map. The nodes are the element identifiers. The edges carry one relationship type per ordered pair, and a later record for the same pair overwrites an earlier one.
  - `FindPath` finds a minimum-hop path between two elements. The source uses A* with unit cost and zero heuristic; the model writes it as a breadth-first search, proved against a shortest-walk contract.
  - `PathWithRelationships` turns a node path into the alternating sequence node, relationship type, node, … . It fails with `Graph("no edge found")` when a hop is not an edge.
  - The graph map is a class `DiGraphMap` with a node set and a map from ordered pairs to labels. `AddNode` and `AddEdge` model the two graph-map operations the engine calls. The search and the annotation take the graph without a `modifies` clause, so they leave it unchanged.
- **The license-identifier validator** (`license_list.dfy`, module `LicenseList`, from `src/license_list.rs`):
  - A license list is two sequences: the listed licenses and the listed exceptions. Only their ids are modelled.
  - `IncludesLicense` and `IncludesException` are membership tests over the ids (`Iterator::any`, modelled by `Any`).
  - `IsValidLicense` accepts an expression in any of these cases:
    - it is `NOASSERTION` or `NONE`;
    - it starts with `LicenseRef-` or `DocumentRef-`;
    - with every `+` deleted, it is a listed license id (`RemoveAll` models `replace('+', "")`);
    - it is a listed exception id, exactly as written.

When `start == end`, `find_path` returns `Some((0, [start]))` even if `start` is not a node, and even on the empty graph, because petgraph's A* tests the goal on the start node before it expands anything. `FindPath`'s contract states this case. When `start != end` and either identifier is not a node, the result is `None`: in a well-formed graph map such an identifier has no walk to or from it (`AbsentIdReachesNothing`).

The `nodes` hash map of `create_graph` (src/graph.rs:15) is kept as a local identity map, filled by `NodeFor` in the way `entry(..).or_insert_with(..)` fills it. Since adding a node is idempotent, the rest of the model does not rely on it.

## Model

| member | source | states |
|---|---|---|
| Graph.DiGraphMap.constructor | src/graph.rs:14 | a new graph map has no nodes and no edges |
| Graph.DiGraphMap.AddNode | src/graph.rs:19 | adds the node, returns it, and leaves the edges unchanged; adding a node already present changes nothing |
| Graph.DiGraphMap.AddEdge | src/graph.rs:23 | adds both ends as nodes, sets the label of the pair, overwriting an existing one, and returns the label the pair had before, if any |
| Graph.CreateGraph | src/graph.rs:13-26 | the built graph is well formed; its node set and edge map are those of the records inserted in list order, with later records overwriting |
| Graph.NodeFor | src/graph.rs:17-22 | the entry lookup returns the identifier itself, records it as mapped to itself, adds it as a node on first encounter, and leaves the edges unchanged |
| Graph.InsertRecord | src/graph.rs:16-23 | inserting one more record adds its two identifiers as nodes and sets the label of its pair to its type |
| Graph.NodesOfExactly | src/graph.rs:16-22 | an identifier is a node exactly when some record names it as source or target |
| Graph.EdgesOfExactly | src/graph.rs:16-23 | every record's pair is an edge, and every edge is the pair of some record |
| Graph.LastRecordWins | src/graph.rs:23 | the label of a pair is the type of the last record with that pair |
| Graph.EmptyRelationshipsEmptyGraph | src/graph.rs:14-25 | an empty relationship list gives no nodes and no edges |
| Graph.FindPath | src/graph.rs:28-34 | `None` exactly when `end` is not reachable from `start`; otherwise the path is a walk from `start` to `end` with no more nodes than any other, and its cost is its number of hops; `start == end` gives `Some((0, [start]))` |
| Graph.AbsentIdReachesNothing | src/graph.rs:28-34 | in a well-formed graph map, when `start != end` and either is not a node, `end` is not reachable from `start`, so the search returns `None` |
| Graph.CutCycle | src/graph.rs:33 | cutting out the stretch between two visits of the same node leaves a strictly shorter walk with the same ends |
| Graph.ShortestWalkIsSimple | src/graph.rs:33 | a minimum-hop path visits no node twice |
| Graph.ShortestWalkToSelf | src/graph.rs:33 | the minimum-hop path from a node to itself is that node alone |
| Graph.DeadEndReachesNothing | src/graph.rs:33 | from a node that no edge leaves, no other node is reachable |
| Graph.ClosedSetHoldsWalks | src/graph.rs:33 | a node set closed under the edges holds the end of every walk that starts in it |
| Graph.PathWithRelationships | src/graph.rs:39-61 | fails with `Graph("no edge found")` exactly when some hop is not an edge; on success the result has length 0 for the empty path and 2k-1 for k nodes, the nodes sit at even positions in order, and the label of hop i sits at position 2i+1 |
| Graph.FindPathWithRelationships | src/graph.rs:113-134 | annotating a path the search returns never fails; the result has odd length and runs from `start` to `end`; no result exactly when `end` is unreachable |
| LicenseList.Any | src/license_list.rs:45-55 | true exactly when some element satisfies the predicate |
| LicenseList.RemoveAll | src/license_list.rs:65 | the result has no occurrence of the character, keeps every other character present in the input, is no longer than the input, is the input itself when the character does not occur, and on a one-character input is empty or the input according to that character; with `RemoveAllConcat` this fixes the result as the input filtered in order |
| LicenseList.RemoveAllCounts | src/license_list.rs:65 | deleting a character leaves every other character with its number of occurrences and none of the deleted one |
| LicenseList.RemoveAllConcat | src/license_list.rs:65 | deleting a character from a concatenation is concatenating the deletions |
| LicenseList.RemoveAllIdempotent | src/license_list.rs:65 | deleting a character twice is deleting it once |
| LicenseList.NotSpecialForm | src/license_list.rs:61-64 | an expression that starts with none of N, L or D is not one of the four special forms |
| LicenseList.LicenseList.IncludesLicense | src/license_list.rs:45-49 | true exactly when some listed license has the id; false on an empty list |
| LicenseList.LicenseList.IncludesException | src/license_list.rs:51-55 | true exactly when some listed exception has the id; false on an empty list |
| LicenseList.SpecialForm | src/license_list.rs:61-64 | true exactly when the expression is `NOASSERTION` or `NONE`, or its first 11 characters are `LicenseRef-`, or its first 12 are `DocumentRef-` |
| LicenseList.LicenseList.IsValidLicense | src/license_list.rs:60-67 | true exactly when the expression is a special form, or some listed license id equals the expression with every `+` deleted, or some listed exception id equals the expression as written |
| LicenseList.SpecialFormsAreValid | src/license_list.rs:61-64 | `NOASSERTION`, `NONE` and every `LicenseRef-` and `DocumentRef-` expression are valid against any list |
| LicenseList.InsertedPlusDeleted | src/license_list.rs:65 | deleting `+` ignores a `+` inserted anywhere in the expression |
| LicenseList.PlusAnywhereIsValid | src/license_list.rs:65 | a `+` inserted anywhere into an expression whose `+`-free form is a listed license keeps it valid |
| LicenseList.RemoveTrailingPlus | src/license_list.rs:65 | deleting `+` from an id without `+` followed by `+` gives back the id |
| LicenseList.OrLaterSuffixIsValid | src/license_list.rs:65 | `GPL-2.0+` is valid whenever `GPL-2.0` is listed |
| LicenseList.ExceptionsMatchVerbatim | src/license_list.rs:66 | a listed exception id is valid, but when no license is listed and the id followed by `+` is not a special form, that expression is not valid: exceptions are matched without deleting `+` |
| LicenseList.ClasspathExceptionWithPlus | src/license_list.rs:66 | `Classpath-exception-2.0+` is not valid against a list holding only that exception |
| LicenseList.ListedIdWithPlusNotMatched | src/license_list.rs:65 | a list holding only a license id made of a `+`-free id followed by `+`, and not a special form, includes that id but does not accept it, because the `+` is deleted before the lookup |
| LicenseList.EmptyListAcceptsOnlySpecialForms | src/license_list.rs:60-67 | with no licenses and no exceptions, an expression is valid exactly when it is one of the four special forms |
| LicenseList.ValidityIsMonotonic | src/license_list.rs:45-67 | appending licenses or exceptions never makes a valid expression invalid |

## Left out

- `LicenseList::from_github`: it fetches the lists over HTTP and parses JSON, which is network I/O and foreign code.
- The serde derives and every field of `LicenseList`, `License` and `Exception` other than the two ids: validation reads only the ids.
- The license-list tests: the four at src/license_list.rs:119-155 download live data, so their outcomes depend on the network; the other two (src/license_list.rs:103-117) only deserialize local JSON, which is left out with serde.
- The internals of petgraph's A* (its binary heap and the order in which it expands nodes). The model specifies only a minimum-hop path, and its choice among paths of equal length is its own.
- Graph.FindPath: the cost is an unbounded integer, not the source's `i32`; a path longer than 2^31 - 1 hops is not modelled.
- The order in which petgraph's graph map lists a node's outgoing edges. With at most one edge per ordered pair, the first edge to the next node is the only one, so it is modelled as a map lookup.
- `src/error.rs` beyond the `Graph` variant: the other variants wrap serde and HTTP errors.
- `src/lib.rs`: it only declares the modules and lint settings.
- The `Dot` rendering and the file reading in the graph tests.
- The SPDX document model of the `spdx_rs` crate. Relationships are an in-memory sequence of records, and a relationship type is an opaque label with equality and a string form.
