/** MetroDataHandler: the station registry, the grouping of stations by line and
    the adjacency matrix of travel times, filled in place from the dataset's
    lines. */
module MetroData {
  import opened JavaText
  import opened StationGraph
  import opened MetroLoading

  /** The entries of a two-dimensional array, row by row. */
  ghost function Entries(m: array2<int>): (w: Matrix)
    reads m
    ensures |w| == m.Length0
    ensures forall i :: 0 <= i < m.Length0 ==> |w[i]| == m.Length1
    ensures forall i, j :: 0 <= i < m.Length0 && 0 <= j < m.Length1 ==> w[i][j] == m[i, j]
  {
    seq(m.Length0, i requires 0 <= i < m.Length0 reads m =>
      seq(m.Length1, j requires 0 <= j < m.Length1 reads m => m[i, j]))
  }

  /** The loop over one record's `;`-separated tokens: blank tokens are skipped,
      a token without minutes ends the load, a token whose minutes do not parse
      is reported and skipped, and every other token adds a connection from the
      record's station. */
  method ReadConnections(stationName: string, field: string) returns (r: Result<seq<Connection>>)
    ensures r == CollectLinks(stationName, ParseTokens(Split(field, ';')))
  {
    var tokens := Split(field, ';');
    ghost var outcomes := ParseTokens(tokens);
    var found: seq<Connection> := [];
    var k := 0;
    while k < |tokens|
      invariant 0 <= k <= |tokens|
      invariant CollectLinks(stationName, outcomes[..k]) == Success(found)
    {
      CollectLinksNext(stationName, outcomes, k, found);
      TokenStep(tokens[k]);
      var connection := Trim(tokens[k]);
      if connection == [] {
        k := k + 1;
        continue;
      }
      var data := Split(connection, ':');
      if |data| < 2 {
        // fewer than two pieces: reading the first or second one is out of bounds
        CollectLinksPrefixFailure(stationName, outcomes, k + 1);
        return Failure(MalformedConnection(connection));
      }
      var time := ParseInt(Trim(data[1]));
      if time.None? {
        // NumberFormatException: reported on the error stream, token skipped
        k := k + 1;
        continue;
      }
      found := found + [Connection(stationName, Trim(data[0]), time.value)];
      k := k + 1;
    }
    assert outcomes[..k] == outcomes;
    return Success(found);
  }

  /** Builds the |stations| x |stations| matrix: INF everywhere, 0 on the
      diagonal, then both (from, to) and (to, from) set to each connection's
      minutes in order; a destination with no index ends the build. */
  method BuildMatrix(size: nat, index: map<string, int>, connections: seq<Connection>)
    returns (m: array2<int>, unknown: Option<string>)
    requires forall x :: x in index ==> 0 <= index[x] < size
    requires forall k :: 0 <= k < |connections| ==> connections[k].from in index
    ensures unknown == FirstUnknown(index, connections)
    ensures unknown.None? ==> Resolved(index, connections)
    ensures unknown.None? ==> m.Length0 == size && m.Length1 == size
    ensures unknown.None? ==> forall i, j :: 0 <= i < size && 0 <= j < size ==>
      m[i, j] == EntryAfter(index, connections, i, j)
  {
    m := new int[size, size];
    var row := 0;
    while row < size
      invariant 0 <= row <= size
      invariant forall i, j :: 0 <= i < row && 0 <= j < size ==> m[i, j] == INF
    {
      // every entry of this row starts as INF
      var col := 0;
      while col < size
        invariant 0 <= col <= size
        invariant forall i, j :: 0 <= i < row && 0 <= j < size ==> m[i, j] == INF
        invariant forall j :: 0 <= j < col ==> m[row, j] == INF
      {
        m[row, col] := INF;
        col := col + 1;
      }
      row := row + 1;
    }
    var d := 0;
    while d < size
      invariant 0 <= d <= size
      invariant forall i, j :: 0 <= i < size && 0 <= j < size ==>
        m[i, j] == if i == j && i < d then 0 else INF
    {
      m[d, d] := 0;
      d := d + 1;
    }
    var k := 0;
    while k < |connections|
      invariant 0 <= k <= |connections|
      invariant Resolved(index, connections[..k])
      invariant forall i, j :: 0 <= i < size && 0 <= j < size ==>
        m[i, j] == EntryAfter(index, connections[..k], i, j)
    {
      var connection := connections[k];
      assert connections[..k + 1][..k] == connections[..k];
      if connection.to !in index {
        // the destination has no index: unboxing the missing index throws
        FirstUnknownAt(index, connections, k);
        return m, Some(connection.to);
      }
      var fromIndex := index[connection.from];
      var toIndex := index[connection.to];
      m[fromIndex, toIndex] := connection.minutes;
      m[toIndex, fromIndex] := connection.minutes;
      k := k + 1;
    }
    assert connections[..k] == connections;
    FirstUnknownNone(index, connections);
    unknown := None;
  }

  class MetroDataHandler {
    var stations: seq<string>
    var stationIndexMap: map<string, int>
    var lineStationsMap: map<string, seq<string>>
    var adjacencyMatrix: array2<int>

    /** The registry is a bijection, every line lists registered stations only, and
        the matrix is |stations| x |stations| and symmetric. */
    ghost predicate Valid()
      reads this, adjacencyMatrix
    {
      RegistryValid(stations, stationIndexMap) &&
      (forall c, x :: c in lineStationsMap && x in lineStationsMap[c] ==> x in stationIndexMap) &&
      adjacencyMatrix.Length0 == |stations| && adjacencyMatrix.Length1 == |stations| &&
      (forall i, j :: 0 <= i < |stations| && 0 <= j < |stations| ==>
        adjacencyMatrix[i, j] == adjacencyMatrix[j, i])
    }

    /** The travel times as the engine reads them. */
    ghost function Graph(): (w: Matrix)
      reads this, adjacencyMatrix
      ensures Valid() ==> |w| == |stations| && Square(w) && Symmetric(w)
    {
      Entries(adjacencyMatrix)
    }

    /** The empty handler the constructor starts from, before the dataset is read. */
    constructor()
      ensures stations == [] && stationIndexMap == map[] && lineStationsMap == map[]
      ensures Valid()
    {
      stations := [];
      stationIndexMap := map[];
      lineStationsMap := map[];
      adjacencyMatrix := new int[0, 0];
    }

    /** An accepted line's station joins its line's list (created when absent) and,
        when its name is new, the registry under the next index. */
    method AddStation(stationName: string, lineColor: string)
      modifies this
      ensures Tables(stations, stationIndexMap, lineStationsMap, []) ==
        Register(Tables(old(stations), old(stationIndexMap), old(lineStationsMap), []), stationName, lineColor)
      ensures adjacencyMatrix == old(adjacencyMatrix)
    {
      ghost var before := Tables(stations, stationIndexMap, lineStationsMap, []);
      // a line seen for the first time gets an empty list, then the station joins its line
      if lineColor !in lineStationsMap {
        lineStationsMap := lineStationsMap[lineColor := []];
      }
      assert lineStationsMap[lineColor] == LineOf(before.lineStations, lineColor);
      lineStationsMap := lineStationsMap[lineColor := lineStationsMap[lineColor] + [stationName]];
      assert lineStationsMap == before.lineStations[lineColor := LineOf(before.lineStations, lineColor) + [stationName]];
      if stationName !in stationIndexMap {
        stations := stations + [stationName];
        stationIndexMap := stationIndexMap[stationName := |stations| - 1];
      }
    }

    /** One line of the reading pass: a header or a line with fewer than two fields
        is skipped; any other line registers its station and reads its
        connections, and a token without minutes is the error that ends the pass. */
    method ReadLine(line: string, connections: seq<Connection>) returns (next: seq<Connection>, err: Option<LoadError>)
      modifies this
      ensures adjacencyMatrix == old(adjacencyMatrix)
      ensures var step := StepRecord(Tables(old(stations), old(stationIndexMap), old(lineStationsMap), connections),
        ParseRecord(line));
        (err.Some? ==> step == Failure(err.value)) &&
        (err.None? ==> step == Success(Tables(stations, stationIndexMap, lineStationsMap, next)))
    {
      RecordStep(line);
      if StartsWith(line, "name") {
        return connections, None;
      }
      var parts := Split(line, ',');
      if |parts| < 2 {
        return connections, None;
      }
      var stationName := Trim(parts[0]);
      var lineColor := Trim(parts[1]);
      AddStation(stationName, lineColor);
      var found := Success([]);
      if |parts| > 2 {
        found := ReadConnections(stationName, parts[2]);
      }
      assert found == CollectLinks(stationName, ParseTokens(RawTokens(parts)));
      if found.Failure? {
        return connections, Some(found.error);
      }
      next := connections + found.value;
      err := None;
    }

    /** The reading pass of loadFromCSV, line by line, until a line fails. */
    method ReadLines(lines: seq<string>) returns (connections: seq<Connection>, err: Option<LoadError>)
      requires stations == [] && stationIndexMap == map[] && lineStationsMap == map[]
      modifies this
      ensures adjacencyMatrix == old(adjacencyMatrix)
      ensures err.Some? ==> Scan(ParseLines(lines)) == Failure(err.value)
      ensures err.None? ==> Scan(ParseLines(lines)) == Success(Tables(stations, stationIndexMap, lineStationsMap, connections))
    {
      ghost var records := ParseLines(lines);
      connections := [];
      var i := 0;
      while i < |lines|
        invariant 0 <= i <= |lines|
        invariant adjacencyMatrix == old(adjacencyMatrix)
        invariant Scan(records[..i]) == Success(Tables(stations, stationIndexMap, lineStationsMap, connections))
      {
        ScanNext(records, i, Tables(stations, stationIndexMap, lineStationsMap, connections));
        var next, failed := ReadLine(lines[i], connections);
        if failed.Some? {
          ScanPrefixFailure(records, i + 1);
          return connections, failed;
        }
        connections := next;
        i := i + 1;
      }
      assert records[..i] == records;
      err := None;
    }

    /** loadFromCSV over the dataset's lines, on a fresh handler. A `Some` result is
        the exception that leaves the Java constructor; the handler is then never
        used, so its fields are left unspecified. */
    method LoadFromCsv(lines: seq<string>) returns (err: Option<LoadError>)
      requires stations == [] && stationIndexMap == map[] && lineStationsMap == map[]
      modifies this
      ensures err.Some? <==> Load(lines).Failure?
      ensures err.Some? ==> err.value == Load(lines).error
      ensures err.None? ==>
        var t := Load(lines).value;
        stations == t.stations && stationIndexMap == t.index && lineStationsMap == t.lineStations &&
        Resolved(t.index, t.connections) &&
        adjacencyMatrix.Length0 == |stations| && adjacencyMatrix.Length1 == |stations| &&
        (forall i, j :: 0 <= i < |stations| && 0 <= j < |stations| ==>
          adjacencyMatrix[i, j] == EntryAfter(t.index, t.connections, i, j))
      ensures err.None? ==> Valid()
    {
      var connections, failure := ReadLines(lines);
      if failure.Some? {
        return failure;
      }
      ScanValid(ParseLines(lines));
      var m, unknown := BuildMatrix(|stations|, stationIndexMap, connections);
      if unknown.Some? {
        return Some(UnknownStation(unknown.value));
      }
      adjacencyMatrix := m;
      forall a, b | 0 <= a < |stations| && 0 <= b < |stations|
        ensures adjacencyMatrix[a, b] == adjacencyMatrix[b, a]
      {
        EntrySymmetric(stationIndexMap, connections, a, b);
      }
      err := None;
    }

    /** The name registered at `index`, or nothing (Java: null) for an index out of range. */
    function GetStationNameByIndex(index: int): (name: Option<string>)
      reads this
      ensures name.Some? <==> 0 <= index < |stations|
    {
      if 0 <= index < |stations| then Some(stations[index]) else None
    }

    /** The line grouping itself (the Java getter hands out the live map). */
    function GetLineStations(): (m: map<string, seq<string>>)
      reads this, adjacencyMatrix
      ensures m == lineStationsMap
      ensures Valid() ==> forall c, x :: c in m && x in m[c] ==> x in stationIndexMap
    {
      lineStationsMap
    }

    /** The matrix itself, not a copy. */
    function GetAdjacencyMatrix(): (m: array2<int>)
      reads this, adjacencyMatrix
      ensures m == adjacencyMatrix
      ensures Valid() ==> m.Length0 == |stations| && m.Length1 == |stations| && Symmetric(Entries(m))
    {
      adjacencyMatrix
    }

    /** The registry itself. */
    function GetStationIndexMap(): (m: map<string, int>)
      reads this, adjacencyMatrix
      ensures m == stationIndexMap
      ensures Valid() ==> forall x :: x in m ==> 0 <= m[x] < |stations| && GetStationNameByIndex(m[x]) == Some(x)
    {
      stationIndexMap
    }

    /** Looking a name up by its index gives the name back, and a name found at an
        index is registered under that index. */
    lemma StationNameRoundTrip(x: string, index: int)
      requires Valid()
      ensures x in stationIndexMap ==> GetStationNameByIndex(stationIndexMap[x]) == Some(x)
      ensures GetStationNameByIndex(index) == Some(x) ==> x in stationIndexMap && stationIndexMap[x] == index
    {
    }
  }
}
