# Street network and shortest routes to dwellings

A model of the routing core of a waste-collection study. It is written in
Dafny and its properties are proved. The core has four parts:

- intersections (`Sommet`);
- streets (`Arete`): weighted and one- or two-way, with a lane count;
- a network (`Graphe`) that enforces one of three street policies on every insertion:
  - HO1: every street is two-way with a single lane;
  - HO2: every street is one-way;
  - HO3: mixed;
- the Dijkstra engine (`Dijkstra`), which answers three kinds of query from one source:
  - distances and reachability;
  - rebuilt routes and the streets along them;
  - the way to a dwelling (`Habitation`), a named point part-way along a street.

Module layout, one module per source class plus supporting modules:

| module | models |
|---|---|
| `JavaHash` | Java's 32-bit `String.hashCode` and `Objects.hash`, with explicit wrap-around |
| `Vertices` | `Sommet` |
| `Edges` | `Arete` |
| `Distances` | finite-or-infinite distances, standing in for `double` with `POSITIVE_INFINITY` |
| `Graphs` | `Graphe`, with an explicit validity invariant: each adjacency list is exactly the incident streets in insertion order, and every street complies with the policy |
| `Paths` | routes, their cost and the streets `getArete` finds along them |
| `Search` | the priority-queue entry `SommetDistance`, `initialiser`, `relaxer` |
| `SearchInvariants` | the loop invariant of `executer` and one lemma per step |
| `Dijkstra` | `executer` as a method with a nondeterministic least-entry `poll`, and the queries on the finished tables |
| `Dwellings` | `Habitation` |
| `Access` | `getCheminVersHabitation` and `ResultatChemin` |
| `Scenarios` | small concrete networks that pin the behaviour down |

Exceptions in constructors become `Result` values with one error constructor per `throw`.
A rejected street becomes `Rejected(graph, error)`, where `graph` is the network as
the code leaves it.

In three places the code does something other than one might expect. The model follows the code each time.

- **A refused street still registers its endpoints.** One might expect a street refused by the policy to leave the network untouched. The code registers unknown endpoints before it validates the street (Graphe.java:56-59). `AddEdge` and `Scenarios.RejectedStillRegisters` show the vertex set growing on a refusal.
- **Lane counts are not checked.** One might expect a street to have at least one lane. Neither the constructor nor `setNbVoies` checks this (Arete.java:13-31, 55), so `lanes` is any integer.
- **`getArete` ignores direction.** It returns the first street in `s1`'s adjacency list that contains `s2`, whichever way that street runs (Graphe.java:107-115). `relaxer` charges that street's weight. When two streets join the same pair, a run can therefore charge a street that cannot be travelled in that direction. `Scenarios.OppositeOneWaysConfused` shows this: a run from B puts A at 1, the weight of the street from A to B, although the only street from B to A weighs 5. The remaining properties are stated through `getArete`. They hold for the streets actually travelled only when each pair of intersections is joined by at most one street (`Simple`).

## Model

| member | source | states |
|---|---|---|
| `Vertices.NewVertex` | Sommet.java:22-24 | the one-argument constructor keeps the id and names the vertex after it |
| `Vertices.SetName` | Sommet.java:38-40 | renaming changes only the name: the renamed vertex is the same intersection |
| `Vertices.SameVertexIsIdentityById` | Sommet.java:44-60 | `equals` compares ids alone and is an equivalence; equal vertices hash alike, and renaming changes neither identity nor hash |
| `Vertices.HashCode` | Sommet.java:57-60 | the hash is a 32-bit int |
| `Vertices.HashCodeOfOne` | Sommet.java:57-60 | Java's value on one id: a vertex with id 1 hashes to 80 (31 plus the code of '1'), whatever its name |
| `Edges.NewEdge` | Arete.java:13-31 | accepted exactly when both endpoints are present, distinct by id, and the weight is non-negative; otherwise the first failing check's error, in source order; a missing name becomes "" |
| `Edges.NewDefaultEdge` | Arete.java:33-35 | the three-argument constructor joins `s1` to `s2` with a two-way single-lane street (`SinglePass`, the `ramassageCompletEnUnPassage` of Arete.java:45-47) with an empty name, and fails exactly as the full one does |
| `Edges.TravelRules` | Arete.java:58-66 | of `CanTravel` (`peutAllerDe`): a street is always travelled from its first to its second endpoint, back only when two-way, and between no other pair; travelling it leads to its other end |
| `Edges.OtherEnd` | Arete.java:68-76 | defined exactly for an id that `Contains` (`contient`) accepts as an endpoint, and then the other endpoint, by id; otherwise the error case (`None`) |
| `Edges.OtherEndInvolution` | Arete.java:68-72 | crossing a street twice returns to the starting endpoint |
| `Edges.SettersKeepEndpoints` | Arete.java:50-55 | each setter changes its own field alone; endpoints, membership and the other-end answer are unchanged |
| `Distances.Plus` | Dijkstra.java:75 | the sum is finite exactly when both terms are, and is then their sum |
| `Distances.Min` | Dijkstra.java:207-211 | the lesser of two distances is one of them and at most both |
| `Distances.OrderFacts` | Dijkstra.java:78 | the order on distances is a strict total order with infinity on top |
| `Graphs.Validate` | Graphe.java:66-83 | no complaint exactly when the street complies with the policy; HO1 refuses what is not two-way single-lane (`SinglePass`), HO2 refuses two-way streets, HO3 refuses nothing |
| `Graphs.IncidentMembers` | Graphe.java:17 | the incident list of an id holds exactly the streets that have it as an endpoint |
| `Graphs.NewGraph` | Graphe.java:19-24 | a new network is valid, empty and keeps its policy |
| `Graphs.AddVertex` | Graphe.java:35-45 | false, and nothing changes, for a known id; otherwise true, the vertex filed under its id with an empty adjacency list, one more vertex, validity kept |
| `Graphs.AddEdge` | Graphe.java:48-64 | validity and policy kept; accepted exactly when the street complies, with the policy's complaint otherwise; the street appended only when accepted; both endpoints registered either way |
| `Graphs.AddEdgeAdjacency` | Graphe.java:56-63 | afterwards both endpoints have adjacency lists; each list is the old one, or empty, with the street appended exactly when accepted and incident |
| `Graphs.RegisterBoth` | Graphe.java:56-57 | both endpoint ids end up registered; known ids keep their vertex and new ones get the street's endpoint |
| `Graphs.Attach` | Graphe.java:61-63 | appending the street to the list and to both endpoints' lists keeps each adjacency list equal to the incident streets |
| `Graphs.SuccessorsAlongAppend` | Graphe.java:94-99 | the successors along two lists of streets are those along the first followed by those along the second, in order and with repetitions |
| `Graphs.SuccessorsAlongOne` | Graphe.java:94-99 | a single street yields its far end when it may be travelled there from the vertex, and nothing otherwise |
| `Graphs.SuccessorsAlongIff` | Graphe.java:94-99 | the loop over an adjacency list yields `w` exactly when some listed street may be travelled to `w` |
| `Graphs.SuccessorIff` | Graphe.java:90-101 | `w` is a successor of `v` exactly when some street of the network may be travelled from `v` to `w` |
| `Graphs.Successors` | Graphe.java:90-101 | an unknown vertex has no successors; a known one has at most its degree |
| `Graphs.Degree` | Graphe.java:103-105 | the degree is the number of incident streets, direction ignored, and 0 for an unknown vertex |
| `Graphs.IncidentEdges` | Graphe.java:86-88 | the copy of the adjacency list is the incident streets in insertion order, as many as the degree |
| `Graphs.FirstContainingIsFirst` | Graphe.java:109-114 | the loop finds nothing exactly when no listed street contains the id; otherwise it finds the first that does |
| `Graphs.EdgeBetweenFound` | Graphe.java:107-115 | `getArete` is null exactly when no street joins the two ids, and otherwise it is the first such street in `s1`'s list |
| `Graphs.EdgeBetween` | Graphe.java:107-115 | what `getArete` finds is a street of the network with both ids as endpoints |
| `Graphs.EdgeOfSuccessor` | Graphe.java:107-115 | for every successor `getArete` finds a street, so `relaxer` never returns early for one |
| `Graphs.EdgeBetweenSelf` | Graphe.java:107-115 | `getArete(v, v)` answers with the first street incident to `v` |
| `Graphs.EdgeBetweenIsTravelled` | Graphe.java:107-115 | with at most one street per pair, `getArete` finds the very street travelled between a vertex and its successor |
| `Paths.PathExtend` | Dijkstra.java:75-80 | a route extended by a legal step is a route, costing one step's weight more |
| `Paths.EdgesAlongLinked` | Dijkstra.java:115-129 | when every step has a street, the list has one street per step, each the one `getArete` finds, and weighs the route's cost |
| `Paths.EdgesAlongPath` | Dijkstra.java:115-129 | along any route every step has a street, so the above holds |
| `Paths.CostNonNegative` | Arete.java:21-23 | with non-negative weights no route costs less than zero |
| `Paths.WalksAreRoutes` | Dijkstra.java:115-129 | with one street per pair, a walk over streets is a route of equal cost whose street list is what `getAretesChemins` returns |
| `Paths.RoutesAreWalks` | Dijkstra.java:115-129 | with one street per pair, a route with its listed streets is a walk of the same cost |
| `Search.CompareIsOrder` | Dijkstra.java:240-243 | `Compare` (`compareTo`) orders entries by distance alone, as a total preorder; equal distances tie whatever the intersection |
| `Search.MinimumExists` | Dijkstra.java:35 | a non-empty queue always has a least entry to poll |
| `Search.Initial` | Dijkstra.java:56-69 | every vertex and the source are tabled; all are at infinity except the source at 0; no predecessors; nothing visited; only the source queued |
| `Search.Relax` | Dijkstra.java:71-83 | nothing changes when `getArete` finds no street; only the target's entries can change, and its distance never rises; after the call it is at most the route through `u`; a change records exactly that distance, makes `u` the predecessor and queues the target; otherwise nothing changes |
| `Dijkstra.Execute` | Dijkstra.java:26-53 | the run ends with every vertex and the source tabled and the source at 0; an entry is finite exactly when visited; predecessors are visited and never the source; the tables satisfy the invariant |
| `Dijkstra.RelaxSuccessors` | Dijkstra.java:47-51 | relaxing the unvisited successors of the vertex just visited restores the loop invariant and visits nothing more |
| `Dijkstra.Finished` | Dijkstra.java:34 | once the queue is empty, the tables are those of a completed run and exactly the visited entries are finite |
| `Dijkstra.AccessibleIffFinite` | Dijkstra.java:86-94 | `Accessible` (`estAccessible`) holds exactly when `Distance` (`getDistance`) is finite; an id the run never tabled is at infinity |
| `Dijkstra.WalkRealizesDistance` | Dijkstra.java:97-112 | following predecessors back from an accessible vertex gives a route from the source whose cost is its distance |
| `Dijkstra.ReachableIsAccessible` | Dijkstra.java:26-53 | every vertex some route reaches from the source is accessible, whatever the weights |
| `Dijkstra.NoShorterPath` | Dijkstra.java:26-53 | with non-negative weights, no route from the source is shorter than the tabled distance of its end |
| `Dijkstra.ShortestDistance` | Dijkstra.java:86-112 | accessible exactly when some route reaches the vertex; `getChemin` is then such a route, costing `getDistance`, and with non-negative weights the shortest; otherwise it is empty and the distance infinite |
| `Dijkstra.SourceRoute` | Dijkstra.java:67-68 | the source is at 0, has no predecessor and its route is itself alone |
| `Dijkstra.WalkFollowsPred` | Dijkstra.java:105-109 | the list `Walk` rebuilds ends at the destination, starts at a vertex with no predecessor, and links each element to the next by a recorded predecessor |
| `Dijkstra.PathToFollowsPred` | Dijkstra.java:97-112 | `PathTo` (`getChemin`) is empty exactly for an inaccessible destination; otherwise it runs from the source to the destination along predecessor links |
| `Dijkstra.PathEdgesMatch` | Dijkstra.java:115-129 | `PathEdges` (`getAretesChemins`) lists one street per step of `getChemin`, weighing `getDistance`; with one street per pair they are the streets travelled; empty for an inaccessible destination |
| `Dijkstra.NoShorterWalk` | Dijkstra.java:26-129 | with non-negative weights and at most one street per pair, no walk from the source over the streets actually travelled weighs less than the tabled distance of its end |
| `Dijkstra.RunsAgree` | Dijkstra.java:26-53 | with non-negative weights, however the queue breaks ties, two runs from one source table the same ids at the same distances |
| `Dwellings.NewDwelling` | Habitation.java:14-35 | accepted exactly when the name is not blank after `trim`, street and reference are present, the reference is an endpoint and the offset lies in [0, weight]; otherwise the first failing check's error, in source order, down to the out-of-range offset |
| `Dwellings.OtherEndpoint` | Habitation.java:55-57 | the street's endpoint that is not the reference |
| `Dwellings.DistanceIdentities` | Habitation.java:60-70 | of `DistanceFrom` (`getDistanceDepuisSommet`): the offset from the reference, the rest of the street from the other end, the two summing to the weight and within it for a well-placed dwelling, and infinity exactly off the street; decided by id, a vertex with the reference's id gets the offset and any other endpoint the rest of the street |
| `Dwellings.EndsAreReferenceAndOther` | Habitation.java:73-75 | the extremities `Ends` (`getExtremites`) returns are the street's endpoints in order: the reference and the other endpoint, all on the street |
| `Dwellings.DwellingHash` | Habitation.java:91-94 | the hash is a 32-bit int |
| `Dwellings.SameDwellingIsByName` | Habitation.java:83-94 | `equals` compares names alone: an equivalence with agreeing hashes under which two different places can be the same dwelling |
| `Dwellings.RangeCanEscape` | Habitation.java:27-34 | the range is checked only at construction: lowering the shared street's weight afterwards leaves the offset out of range and makes the other end's distance negative |
| `Access.RouteToDwelling` | Dijkstra.java:183-212 | no entry intersection exactly when neither endpoint is accessible; otherwise the entry is one of the street's endpoints |
| `Access.ThroughEndpoint` | Dijkstra.java:198-204 | an endpoint's total `Through` (`dist1`, `dist2`) is finite exactly when the endpoint is accessible, and is then its distance plus the stretch along the street |
| `Access.RouteChoice` | Dijkstra.java:192-211 | unreachable means the empty route at infinity; reachable means a finite total, the lesser endpoint total with the first endpoint on a tie, and the route to the endpoint chosen |
| `Access.RouteRealized` | Dijkstra.java:158-212 | after a run the route leads from the source to the entry intersection, and its cost plus the stretch is the total |
| `Access.RouteUnreachable` | Dijkstra.java:189-195 | after a run the dwelling is unreachable exactly when no route reaches either endpoint |
| `Access.RouteOptimal` | Dijkstra.java:197-211 | with non-negative weights, no route to either endpoint plus the stretch from it beats the reported total |
| `Access.EnterByNearerEnd` | Dijkstra.java:197-211 | a worked example: with A at 30 and B at 200 and the dwelling 50 along a 100 street from A, entry is by A at 80 rather than B at 250 |
| `Scenarios.ExampleBuilt` | Graphe.java:48-64 | under HO3 the streets A-B and B-C are both accepted, in that order |
| `Scenarios.ExampleSuccessors` | Graphe.java:90-101 | over those streets A and B lead to each other, B leads to C and C leads nowhere |
| `Scenarios.ExampleRoute` | Dijkstra.java:115-129 | the streets listed along A, B, C are A-B and B-C |
| `Scenarios.RunFromA` | Dijkstra.java:26-129 | any run from A puts B at 10 and C at 15, along A, B, C over A-B and B-C |
| `Scenarios.RunFromC` | Dijkstra.java:26-112 | any run from C leaves A and B inaccessible at infinity with empty routes, as the one-way street cannot be travelled back |
| `Scenarios.RejectedStillRegisters` | Graphe.java:56-59 | HO1 refuses a two-lane street after registering both its endpoints, so the refused insertion still grows the vertex set |
| `Scenarios.LoopBuilt` | Graphe.java:48-83 | HO2 admits two opposite one-way streets |
| `Scenarios.LoopLookup` | Graphe.java:107-115 | `getArete(B, A)` returns the street from A to B, which cannot be travelled from B, rather than the one from B to A |
| `Scenarios.OppositeOneWaysConfused` | Dijkstra.java:71-83 | so a run from B charges A the weight of the wrong street |

## Left out

- Floating point: weights, offsets and distances are mathematical reals, and infinity is a separate value. Rounding, NaN and IEEE `-0.0` are not modelled. `Double.compare` is taken as the order on reals.
- `Distances.Plus` is not IEEE addition. Adding a negative weight to infinity (which `setPoids` allows) is not modelled beyond the rule that any sum with infinity is infinite.
- Vertex ids are integers rather than strings. The source compares ids for equality, hashes them, and uses them as default names (`this(id, id)`). `IdText` is the decimal numeral of an id. A network whose ids are strings such as "A" is represented by numbering its intersections.
- Vertices.NewVertex: the default name matches Java's `new Sommet(id)` only for ids whose text is a canonical decimal numeral. For a string id such as "A" the model's default name is the numeral standing for it, not "A".
- Vertices.HashCode: the hash matches Java's `Objects.hash(id)` only for ids whose text is a canonical decimal numeral, as in `HashCodeOfOne`. For a string id such as "A" (whose Java hash is 96) the model hashes the numeral standing for it.
- `JavaHash.StringHash` works on Dafny characters, which are Unicode scalar values, rather than Java's UTF-16 code units. It agrees with Java only on text in the Basic Multilingual Plane.
- Vertices.HashCode: the contract states only the 32-bit range, not which value `Objects.hash` gives for every id. `HashCodeOfOne` pins the value on one id, and agreement on equal ids is stated in `SameVertexIsIdentityById`.
- Dwellings.DwellingHash: the contract states only the 32-bit range, not which value `String.hashCode` gives. Agreement on equal names is stated in `SameDwellingIsByName`.
- Null arguments to `ajouterSommet`, `ajouterArete`, `peutAllerDe`, `getAutreSommet`, `contient` and the queries are excluded by the types. The constructors that check for null model them as `Option` arguments with the matching error.
- Aliasing is not modelled: streets and dwellings are values. A setter called on a street after it was inserted does not reach the network's copy. `RangeCanEscape` shows that effect on a dwelling's own copy only.
- Dwellings.DistanceFrom and Access.RouteToDwelling require the reference vertex to be on the street. The constructor guarantees this, and nothing assigns the fields afterwards (there are no setters). A reference that is not an endpoint would make `getAutreSommet` throw, and that case is not modelled.
- The order in which `PriorityQueue` breaks ties is not modelled. `poll` takes any least entry.
- Dijkstra.RunsAgree: two runs are shown to agree on distances only, not on predecessor tables. These can differ when routes tie.
- `Dijkstra.Execute` also returns `settled`, the visit order. The source does not keep it; it serves only to prove that following predecessors terminates.
- `initialiser` files each vertex with a null predecessor. The model leaves such vertices out of the predecessor map, which `get` cannot distinguish.
- Queries on an engine before the first `executer` are not modelled.
- Output and presentation are not modelled: `toString`, `afficherResultats`, `afficherCheminVersHabitation` and `ResultatChemin.toString`.
- Loading and the command line are not modelled: `LecteurGraphe` and `Main` are not part of this model.
- Trivial getters are not modelled as separate members: `getNom`, `getPoids`, `getNbSommets`, `getSommet` and the like are field reads in the model. `getSommets` and `getAretes` copies are the maps and sequences themselves.
- `Graphe.getNbSommets` and `getNbAretes` are given by the sizes that `NewGraph`, `AddVertex` and `AddEdge` state.
