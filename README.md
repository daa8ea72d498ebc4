# Metro route planner: loader and shortest-path engine

The program plans trips on a metro network. `MetroDataHandler` reads a CSV
dataset in which each line names a station, its line (colour) and a
`;`-separated list of `station:minutes` connections. From it the handler builds
a registry of stations (a list plus a name-to-index map), a map from each line
to its stations, and a symmetric adjacency matrix of travel times with 0 on the
diagonal (unless a line connects a station to itself) and `Integer.MAX_VALUE`
(INF) where there is no direct connection.
`PathfindingAlgorithm` runs Dijkstra's algorithm over that matrix. It returns
either the total time alone, or the time together with the list of station
names on the route.

The Dafny project has six modules:

- `JavaText` (`java_text.dfy`) gives the `java.lang` string and integer
  operations the loader relies on: `startsWith`, `split` with a one-character
  separator, `trim`, `Integer.parseInt` (which reads the decimal digits of
  every script in the Basic Multilingual Plane, as `Character.digit` does) and
  `String.valueOf(int)`. It also gives `java.util.Collections.reverse`, which
  the route rebuild uses.
- `StationGraph` (`station_graph.dfy`) holds the travel-time matrix as a value,
  walks over direct connections, their total time, and what a shortest time
  is.
- `MetroLoading` (`loading_spec.dfy`) describes, as functions, what
  `loadFromCSV` computes: how one line is read, how the tables grow line by
  line, which error stops the load, and what each matrix entry ends up holding.
- `MetroData` (`metro_data_handler.dfy`) is the class `MetroDataHandler`, with
  its fields, the imperative loader and the getters. Each of these is proved
  against `MetroLoading`.
- `DijkstraState` (`dijkstra_state.dfy`) is the search state between two polls,
  taken as a value. It holds the invariant the search loop keeps and the proof
  that the distances are shortest once the queue is empty.
- `Pathfinding` (`pathfinding.dfy`) is the class `PathfindingAlgorithm`: the
  search loop over arrays, the route rebuild, and the two public methods.

Runtime failures of the loader are modelled as values of `LoadError`:

- `MalformedConnection(token)` is a non-blank token that `split(":")` cuts into
  fewer than two pieces: nothing but `:` follows its first `:`, or it has none.
  Java throws `ArrayIndexOutOfBoundsException` at line 98 (no piece, as for
  `:`) or at line 99 (one piece, as for `A` or `A:`).
- `UnknownStation(name)` is a connection to a station that no line defines.
  Java throws `NullPointerException` when it unboxes the missing index at
  line 128.

A token whose minutes do not parse is skipped, as the Java `catch` does.

The search's priority queue is a sequence with lazy deletion: a station is
queued again each time its distance drops, and a polled station that has
already been visited is dropped. A poll returns the first queue entry of least
current distance. The whole search is therefore one function of the matrix and
the start (`SearchFrom`), and both public methods return its distance at the end
station.

Route and tree facts are proved for every matrix. That the returned time is the
shortest one is proved for matrices without negative travel times, and for the
search that polls an entry of least distance. Java's `PriorityQueue` does not
always do that: its comparator reads distances that are lowered in place while
their stations sit in the heap (see Findings).

## Model

| member | source | states |
|---|---|---|
| JavaText.Trim | src/main/java/MetroDataHandler.java:79-80 | the trimmed string is a slice of the input that neither starts nor ends with a character up to U+0020, and everything cut from either end is such a character |
| JavaText.TrimIdempotent | src/main/java/MetroDataHandler.java:79-80 | trimming an already trimmed name changes nothing, so the names read at lines 79-80 and 98 are trimmed |
| JavaText.SplitPieces | src/main/java/MetroDataHandler.java:76 | `split` gives the whole string when the separator is absent; otherwise it gives the separator-free pieces in order, and exactly the trailing empty pieces are dropped |
| JavaText.JoinPieces | src/main/java/MetroDataHandler.java:91 | gluing the pieces back with the separator gives the original string, and no piece contains the separator |
| JavaText.SplitFewerThanTwo | src/main/java/MetroDataHandler.java:76-77 | `split` gives fewer than two pieces exactly when nothing but the separator follows its first occurrence, which is when line 77 skips a line and when line 98 or 99 throws |
| JavaText.PiecesJoin | src/main/java/MetroDataHandler.java:97 | cutting separator-free parts glued by the separator gives the parts back |
| JavaText.DigitValue | src/main/java/MetroDataHandler.java:99 | the digit a character stands for is below 10, and '0' .. '9' stand for their usual values; other scripts' digits are read too |
| JavaText.ParseInt | src/main/java/MetroDataHandler.java:99 | a parsed value lies in the 32-bit range, and a negative one comes from a leading minus sign. Only an optional sign followed by at least one decimal digit of any script parses |
| JavaText.NonAsciiDigits | src/main/java/MetroDataHandler.java:99 | Arabic-Indic, fullwidth and Devanagari digits parse to their values, as `Character.digit` reads them |
| JavaText.ParseIntValueOf | src/main/java/MetroDataHandler.java:101 | for every 32-bit value, `Integer.parseInt(String.valueOf(time))` is `time`, so the re-parse at line 125 gives back the minutes collected at line 101 |
| JavaText.Reversed | src/main/java/PathfindingAlgorithm.java:90 | the reversed list has the same length and holds at each position the element at the mirrored position of the input |
| StationGraph.ShortestCostUnique | src/main/java/PathfindingAlgorithm.java:61-77 | at most one number is the shortest time between two stations, so the result cannot depend on how the queue breaks ties |
| StationGraph.ShortestCostSymmetric | src/main/java/MetroDataHandler.java:130-131 | on the two-way matrix, the shortest time from s to e is the shortest time from e to s |
| StationGraph.PathReversed | src/main/java/MetroDataHandler.java:130-131 | on the two-way matrix, a walk taken backwards is a walk with the same total time |
| StationGraph.ShortestCostToSelf | src/main/java/MetroDataHandler.java:117-119 | with no negative times, the shortest time from a station to itself is 0 |
| StationGraph.ShortestCostNonNegative | src/main/java/PathfindingAlgorithm.java:143 | with no negative times, no shortest time, and so no returned time, is negative |
| StationGraph.ShortestSubpaths | src/main/java/PathfindingAlgorithm.java:68-75 | with no negative times, every station on a shortest walk splits it into two shortest walks whose times add up |
| MetroLoading.ParseToken | src/main/java/MetroDataHandler.java:93-104 | a token is blank exactly when nothing is left after trimming, and lacks its minutes (line 98 or 99 throws) exactly when it is not blank and nothing but `:` follows its first `:`. A collected destination is trimmed and holds no `:`, and its minutes are a 32-bit value |
| MetroLoading.FullwidthMinutes | src/main/java/MetroDataHandler.java:97-101 | a token whose minutes are written in fullwidth digits is collected with those minutes |
| MetroLoading.ParseRecord | src/main/java/MetroDataHandler.java:74-80 | a line is skipped exactly when it starts with `name` or nothing but `,` follows its first `,`. An accepted line's station name and line identifier are trimmed and hold no `,` |
| MetroLoading.StepRecord | src/main/java/MetroDataHandler.java:74-105 | reading one line fails exactly when it is accepted and one of its tokens lacks its minutes. Otherwise the station list and the connection list only grow at their ends, and an accepted line's station is registered |
| MetroLoading.SkippedLineChangesNothing | src/main/java/MetroDataHandler.java:74-77 | a header line, or a line with fewer than two fields, leaves the registry, the line map and the connection list unchanged |
| MetroLoading.AcceptedRecord | src/main/java/MetroDataHandler.java:79-88 | an accepted line appends its station to its own line's list only. A new name gets the next index; a known name keeps the registry unchanged |
| MetroLoading.StepKeepsValid | src/main/java/MetroDataHandler.java:82-101 | reading one line keeps the registry a bijection, keeps every line member and connection source registered, and never changes an existing index |
| MetroLoading.CollectLinksFrom | src/main/java/MetroDataHandler.java:101 | every connection collected for a line starts at that line's station |
| MetroLoading.CollectLinksSkips | src/main/java/MetroDataHandler.java:92-105 | a line's tokens fail on their first token without minutes; otherwise they yield the connections of the tokens that parse, in order, skipping blank tokens and bad minutes |
| MetroLoading.CollectLinksPrefixFailure | src/main/java/MetroDataHandler.java:96-99 | once a token fails, the tokens after it do not matter |
| MetroLoading.ScanValid | src/main/java/MetroDataHandler.java:73-107 | the reading pass keeps its invariant, and the registry holds exactly the names of the accepted lines |
| MetroLoading.ScanLineStations | src/main/java/MetroDataHandler.java:82-83 | each line's list is the names of the accepted lines on that line, in order and with repeats. A line is a key exactly when some accepted line names it |
| MetroLoading.ScanPrefixFailure | src/main/java/MetroDataHandler.java:73-99 | a failure while reading the first i lines is the failure of the whole pass |
| MetroLoading.ScanIndexStable | src/main/java/MetroDataHandler.java:85-88 | a name registered after i lines keeps its index to the end of the pass |
| MetroLoading.DistinctCardinality | src/main/java/MetroDataHandler.java:85-88 | the station list has no repeated name |
| MetroLoading.NewNameIndex | src/main/java/MetroDataHandler.java:85-87 | a name first read on line i gets, as its index, the number of distinct names read before it |
| MetroLoading.FirstUnknown | src/main/java/MetroDataHandler.java:122-128 | a reported unknown name is the destination of one of the collected connections |
| MetroLoading.FirstUnknownNone | src/main/java/MetroDataHandler.java:127-128 | no unknown destination is reported exactly when every destination is registered; a reported name is unregistered |
| MetroLoading.FirstUnknownAt | src/main/java/MetroDataHandler.java:122-128 | the reported destination is that of the first connection that does not resolve |
| MetroLoading.ForwardReferences | src/main/java/MetroDataHandler.java:122-128 | connections are resolved after the whole pass. A connection may name a station defined on a later line, and once every line has been read without error, the load fails exactly when a destination is defined on no line |
| MetroLoading.EntrySymmetric | src/main/java/MetroDataHandler.java:130-131 | each matrix entry equals its mirror entry |
| MetroLoading.EntryNeverNamed | src/main/java/MetroDataHandler.java:112-119 | a pair that no connection names keeps 0 on the diagonal and INF elsewhere |
| MetroLoading.LastConnectionWins | src/main/java/MetroDataHandler.java:122-131 | a pair's entry is the minutes of the last connection that names the pair, in either direction |
| MetroData.ReadConnections | src/main/java/MetroDataHandler.java:90-106 | the token loop returns the connections the reference `CollectLinks` gives for the third field split on `;`, or its failure |
| MetroData.BuildMatrix | src/main/java/MetroDataHandler.java:111-132 | reports the first unresolved destination. Otherwise it gives a size x size matrix whose every entry is the reference `EntryAfter` value |
| MetroData.MetroDataHandler.constructor | src/main/java/MetroDataHandler.java:18-21 | the handler starts with an empty registry and an empty line map, and is valid |
| MetroData.MetroDataHandler.AddStation | src/main/java/MetroDataHandler.java:82-88 | the tables become the reference `Register` of the old ones; the matrix is untouched |
| MetroData.MetroDataHandler.ReadLine | src/main/java/MetroDataHandler.java:74-105 | one pass of the read loop fails exactly as the reference `StepRecord` does on the line's record, and otherwise leaves the fields and the connection list that `StepRecord` gives |
| MetroData.MetroDataHandler.ReadLines | src/main/java/MetroDataHandler.java:71-107 | the read loop fails exactly as the reference pass `Scan` does, and otherwise leaves the fields and the connection list that `Scan` gives |
| MetroData.MetroDataHandler.LoadFromCsv | src/main/java/MetroDataHandler.java:64-133 | fails exactly when the reference `Load` fails, with the same error. Otherwise the registry and the line map are those of `Load`, the matrix is square over the stations, with the `EntryAfter` entries and symmetric, and the handler is valid |
| MetroData.MetroDataHandler.GetStationNameByIndex | src/main/java/MetroDataHandler.java:31-37 | gives a name exactly for the indices 0 .. size-1, and nothing (Java: null) for any other index |
| MetroData.MetroDataHandler.GetLineStations | src/main/java/MetroDataHandler.java:54-56 | gives the live line map, whose members are all registered stations |
| MetroData.MetroDataHandler.GetAdjacencyMatrix | src/main/java/MetroDataHandler.java:140-142 | gives the live matrix, which is square over the stations and symmetric |
| MetroData.MetroDataHandler.GetStationIndexMap | src/main/java/MetroDataHandler.java:149-151 | gives the live registry; every index is in range and names its station |
| MetroData.MetroDataHandler.StationNameRoundTrip | src/main/java/MetroDataHandler.java:31-37 | the name at a station's index is that station, and a name found at an index has that index in the map |
| DijkstraState.Start | src/main/java/PathfindingAlgorithm.java:52-58 | the state with distance 0 at the start, INF elsewhere and only the start queued satisfies the search invariant |
| DijkstraState.FirstLeast | src/main/java/PathfindingAlgorithm.java:62 | the chosen queue position holds a station whose distance is at most that of every queued station, and every earlier position holds a strictly larger distance |
| DijkstraState.Remove | src/main/java/PathfindingAlgorithm.java:62 | taking one entry off the queue removes exactly one copy of that station, keeps every other queued station and adds none |
| DijkstraState.AddedMembers | src/main/java/PathfindingAlgorithm.java:67-76 | the neighbour loop queues only, and every one of, the stations whose distance it lowers |
| DijkstraState.RelaxUpToAt | src/main/java/PathfindingAlgorithm.java:67-76 | part way through the neighbour loop, exactly the improved stations below the loop index have a new distance and predecessor |
| DijkstraState.Skip | src/main/java/PathfindingAlgorithm.java:62-63 | polling a station already visited drops exactly that one queue entry, keeps every other queued station and changes nothing else |
| DijkstraState.Visit | src/main/java/PathfindingAlgorithm.java:62-76 | visiting the polled station marks it visited and only lowers distances. A changed distance belongs to an unvisited station other than the polled one, is the polled station's distance plus the connection's time, records the polled station as predecessor, and queues the station |
| DijkstraState.VisitShape | src/main/java/PathfindingAlgorithm.java:67-75 | a visit keeps the start fixed, every distance at most INF and every visited station's distance final, and never raises a distance |
| DijkstraState.SkipKeeps | src/main/java/PathfindingAlgorithm.java:63 | dropping a polled station that was already visited keeps the invariant |
| DijkstraState.VisitKeeps | src/main/java/PathfindingAlgorithm.java:62-76 | visiting the queued station of least distance and relaxing its connections keeps the invariant. Reached stations come from visited ones over tree edges, every reached station is queued, and without negative times no visited station is farther than an unvisited one |
| DijkstraState.PollStepKeeps | src/main/java/PathfindingAlgorithm.java:61-76 | one pass of the search loop on an entry of least distance keeps the invariant, only lowers distances, leaves every visited station visited with its distance, and leaves fewer unvisited stations or else a shorter queue |
| DijkstraState.RunEnds | src/main/java/PathfindingAlgorithm.java:61-77 | the whole search, pass after pass on the first entry of least distance, keeps the invariant and ends with an empty queue |
| DijkstraState.RunPoll | src/main/java/PathfindingAlgorithm.java:61-76 | one pass on the first entry of least distance keeps the invariant and leaves a state from which the search ends where it would have ended before the pass |
| DijkstraState.UnvisitedMark | src/main/java/PathfindingAlgorithm.java:64 | marking a station visited leaves one fewer unvisited station, so the loop ends |
| DijkstraState.TreeRouteWalk | src/main/java/PathfindingAlgorithm.java:86-88 | the predecessor chain of a reached station is a walk from the start to it whose total time is its distance |
| DijkstraState.TreeRouteBack | src/main/java/PathfindingAlgorithm.java:86 | following one predecessor steps back along the walk, and the chain ends at the start, whose predecessor is -1 |
| DijkstraState.Finished | src/main/java/PathfindingAlgorithm.java:61-77 | with an empty queue, a station is visited exactly when its distance is finite, and the predecessors form a tree rooted at the start |
| DijkstraState.LowerBound | src/main/java/PathfindingAlgorithm.java:61-77 | with no negative times, once the queue is empty no walk from the start is shorter than the distance of its last station |
| DijkstraState.Shortest | src/main/java/PathfindingAlgorithm.java:61-77 | with an empty queue every distance is at most INF, a finite one is the time of some walk, and without negative times it is the shortest time |
| DijkstraState.SearchDone | src/main/java/PathfindingAlgorithm.java:61-77 | what the search guarantees at its end: a predecessor tree, and shortest distances when no time is negative |
| DijkstraState.SearchFromEnds | src/main/java/PathfindingAlgorithm.java:46-77 | the state the search from a start ends in has a predecessor tree over the matrix and, without negative times, the shortest time to every station |
| DijkstraState.SearchNonNegative | src/main/java/PathfindingAlgorithm.java:69-71 | with exact sums and no negative times, every distance the search ends with lies between 0 and INF |
| StationGraph.ShortestCostsNonNegative | src/main/java/PathfindingAlgorithm.java:143 | without negative times, a list of shortest times to every station holds no negative time |
| DijkstraState.Add32 | src/main/java/PathfindingAlgorithm.java:69 | Java's `int` sum lies in the 32-bit range, differs from the exact sum by a multiple of 2^32, and is the exact sum whenever that fits |
| DijkstraState.RelaxDistAsWritten | src/main/java/PathfindingAlgorithm.java:68-71 | with the wrapped sum, a visit changes a distance only for an unvisited neighbour over a real connection, only downwards, and to a value congruent to the exact sum modulo 2^32 |
| DijkstraState.FirstVisitOfRow3 | src/main/java/PathfindingAlgorithm.java:52-76 | on the three-station example, the first poll visits the start, reaches the middle station at 2147483646 minutes and queues only it |
| DijkstraState.WrappedDistanceGoesNegative | src/main/java/PathfindingAlgorithm.java:69-71 | on the same example, the second visit with the wrapped sum gives the far station a negative distance; with exact sums it stays at INF |
| DijkstraState.FirstVisitOfDiamond4 | src/main/java/PathfindingAlgorithm.java:52-76 | on the four-station example, the first poll visits A and queues B, C and D at 1, 8 and 9 minutes |
| DijkstraState.RelaxFromBOfDiamond4 | src/main/java/PathfindingAlgorithm.java:67-76 | on the same example, visiting B lowers C to 7 and D to 2 and queues C and then D |
| DijkstraState.SecondVisitOfDiamond4 | src/main/java/PathfindingAlgorithm.java:61-76 | after the second poll the queue is C, D, C, D, with C at 7 and D at 2 minutes and only A and B visited |
| DijkstraState.StaleRootReached | src/main/java/PathfindingAlgorithm.java:57-76 | the search from A on the example reaches that state after its first two polls |
| DijkstraState.LeastBehindRoot | src/main/java/PathfindingAlgorithm.java:57-62 | in that queue the first entry of least distance is entry 1 (D), whose distance is below that of the root, entry 0 (C) |
| DijkstraState.Diamond4ShorterWalk | src/main/java/PathfindingAlgorithm.java:143 | the example has no negative time, and the walk A, B, D, C takes 6 minutes, so 7 is not the shortest time from A to C |
| DijkstraState.StaleRootSettledTooLong | src/main/java/PathfindingAlgorithm.java:57-64 | polling the root of that queue, as Java's heap does, settles C at 7 minutes, which is not the shortest time; the model's poll takes entry 1 instead |
| Pathfinding.Poll | src/main/java/PathfindingAlgorithm.java:62 | returns the first queue position holding a station of least current distance |
| Pathfinding.RelaxEdge | src/main/java/PathfindingAlgorithm.java:68-75 | when the connection lowers an unvisited neighbour's distance, it sets the new distance and predecessor and queues the neighbour; otherwise it changes nothing |
| Pathfinding.RelaxNeighbors | src/main/java/PathfindingAlgorithm.java:67-76 | the arrays become the relaxed distances and predecessors, and exactly the improved stations are queued, in index order |
| Pathfinding.VisitPolled | src/main/java/PathfindingAlgorithm.java:63-76 | marking the polled station visited and relaxing its connections leaves the arrays and the queue holding the state `Visit` gives |
| Pathfinding.PollOnce | src/main/java/PathfindingAlgorithm.java:61-76 | one pass of the search loop polls the first entry of least distance and leaves the state `Skip` or `Visit` gives for it. It keeps the invariant, only lowers distances, never changes a visited station's distance, and shrinks the number of unvisited stations, or the queue when nothing is visited |
| Pathfinding.Initial | src/main/java/PathfindingAlgorithm.java:46-58 | fresh arrays and a queue that hold the search's start state |
| Pathfinding.Dijkstra | src/main/java/PathfindingAlgorithm.java:46-77 | the loop ends with the distances, predecessors and visit ranks of `SearchFrom`, the whole search on the matrix; `SearchFromEnds` proves those a predecessor tree and, without negative times, shortest |
| Pathfinding.PathfindingAlgorithm.constructor | src/main/java/PathfindingAlgorithm.java:24-26 | keeps the given data handler |
| Pathfinding.PathfindingAlgorithm.Search | src/main/java/PathfindingAlgorithm.java:45-77 | the search on the handler's matrix yields a predecessor tree, and the distances of `SearchFrom` for that matrix and start |
| Pathfinding.PathfindingAlgorithm.SearchAt | src/main/java/PathfindingAlgorithm.java:45-77 | the search's distance at the end station is `SearchCost` of the two names, at most INF, 0 from a station to itself, and the shortest time when no time is negative |
| Pathfinding.PathfindingAlgorithm.RouteTo | src/main/java/PathfindingAlgorithm.java:80-90 | walking the predecessors back from the end and reversing gives the names of the predecessor walk from the start to the end |
| Pathfinding.PathfindingAlgorithm.FoundRoute | src/main/java/PathfindingAlgorithm.java:85-92 | the rebuilt route names registered stations and is a walk from the start to the end taking the returned time; from a station to itself it is that station alone |
| Pathfinding.PathfindingAlgorithm.CalculateShortestPathWithDetails | src/main/java/PathfindingAlgorithm.java:35-93 | an unknown name, or an end that cannot be reached, gives an empty route and INF. Otherwise it gives a walk from start to end in names and its time; the time is the shortest when no time is negative, and is 0 with route [start] when start and end agree. The time is always `SearchCost` of the two names |
| Pathfinding.PathfindingAlgorithm.CalculateShortestPath | src/main/java/PathfindingAlgorithm.java:102-144 | an unknown name gives INF. A finite result is the time of some walk between the stations, it is the shortest time when no time is negative, and it is 0 from a station to itself. The time is always `SearchCost` of the two names |
| Pathfinding.PathfindingAlgorithm.CostsAgree | src/main/java/PathfindingAlgorithm.java:35-144 | for any two names and any matrix, including one with negative times, the two public methods return the same time |

## Left out

- Reading the resource: the stream, the `BufferedReader` and the `IOException` for a missing resource are not modelled. The loader takes the dataset's lines as a sequence of strings.
- The constructor `MetroDataHandler(String)` becomes `constructor()` followed by `LoadFromCsv(lines)`. A failed load reports its error as a value instead of throwing.
- The warning printed to `System.err` for a connection whose minutes do not parse is left out. Only the skip is modelled.
- Map iteration order (`HashMap`) is not modelled; maps are Dafny `map`s. The line lists and the station list keep their order.
- Metro.java, the user interface, is not part of this model.
- The comment at MetroDataHandler.java:118 says self-connections cost 0, but a line that lists a connection to its own station writes that time on the diagonal (lines 122-131). The model follows the code: `EntryAfter` applies such a connection like any other.
- JavaText.DigitValue: the digit blocks are those of Unicode 7.0 and later. A Java 8 runtime, which follows Unicode 6.2, does not read the Sinhala Lith (from U+0DE6) and Myanmar Tai Laing (from U+A9F0) digits.
- Pathfinding.Poll: `java.util.PriorityQueue` is not modelled. Its comparator reads `distances`, which are lowered while stations sit in the heap, so the heap order breaks and Java's poll can return an entry that is no longer the least. Java can then settle a station at a time that is too long, even without negative travel times: on the Diamond4 example of Findings both Java methods return 7 minutes where the shortest time is 6. The model polls the first queue entry of least current distance, as the algorithm intends, and its shortest-time results hold for that search only. Which of several equally near entries Java takes first is not modelled.
- Pathfinding.RelaxEdge: the sum `distances[current] + graph[current][neighbor]` is exact, not 32-bit. Java's `int` addition wraps round when travel times come close to `Integer.MAX_VALUE`; see Findings. The model agrees with Java whenever no sum overflows.
- Pathfinding.PathfindingAlgorithm.CalculateShortestPath: it shares the search with `CalculateShortestPathWithDetails`. That search also fills `predecessors`, which the Java cost-only loop (lines 126-141) does not keep. Both methods return `SearchCost`, so `CostsAgree` holds for every matrix.
- Pathfinding.PathfindingAlgorithm.CalculateShortestPathWithDetails: the result is proved to be the shortest time only for matrices without negative travel times. `Integer.parseInt` accepts negative minutes, and Dijkstra's algorithm makes no promise for them; route and time are still proved to match for every matrix.
- The getters return the live objects, as Java does. Aliasing through the returned maps is not modelled: Dafny maps are values, and the matrix is the same `array2`.

## Findings

| source | as written | input that shows it | evidently intended | confidence | as-written member | corrected member |
|---|---|---|---|---|---|---|
| src/main/java/PathfindingAlgorithm.java:69-71 | `newDist` is the 32-bit `int` sum of the current distance and the travel time, so a large total wraps round to a negative number. That number is below every real distance, so it is stored. `calculateShortestPath` computes the same sum at line 134 | the lines `A,l,B:2147483646`, `B,l,C:5` and `C,l`, from A to C: the distance of C becomes -2147483645, and that is the time returned | no time is ever negative when no travel time is; a total that does not fit in an `int` is treated as unreachable (INF) | not executed | DijkstraState.WrappedDistanceGoesNegative | DijkstraState.SearchNonNegative |
| src/main/java/PathfindingAlgorithm.java:57-64 | the heap's comparator reads `distances`, which lines 70-73 lower in place while a station sits in the heap; the heap is not re-sifted, so its order breaks and `poll` can return a station that is not the nearest, which line 64 then settles at too long a time. `calculateShortestPath` does the same at lines 122-129 | the lines `A,l,B:1;C:8;D:9`, `B,l,C:6;D:1`, `C,l,D:4` and `D,l`, from A to C: after B is visited the heap array is C(7), D(2), C(7), D(2), `poll` returns C at 7, and 7 is returned, though A, B, D, C takes 6 | the shortest time, as the comment at line 143 says; a poll that takes a station of least current distance | not executed | DijkstraState.StaleRootSettledTooLong | DijkstraState.SearchFromEnds |
