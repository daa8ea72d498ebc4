/** What MetroDataHandler.loadFromCSV computes, as functions of the dataset's
    lines: how one line is read, how the registry, the line grouping and the
    connection list grow with each line, and what the adjacency matrix holds
    once the collected connections are applied. */
module MetroLoading {
  import opened JavaText
  import StationGraph

  /** A collected connection: the station of its line, the destination and the
      minutes, kept as the int they were parsed to (see ParseIntValueOf). */
  datatype Connection = Connection(from: string, to: string, minutes: int)

  /** The two ways a load fails once the lines are read. */
  datatype LoadError =
    | MalformedConnection(token: string)  // a token without minutes: index out of bounds
    | UnknownStation(name: string)        // a destination never registered: null unboxed

  datatype Result<+T> = Success(value: T) | Failure(error: LoadError)

  /** What one `;`-separated connection token says. */
  datatype TokenOutcome =
    | Blank                           // empty after trimming: skipped
    | MissingMinutes(token: string)   // fewer than two `:` pieces: fatal (index out of bounds)
    | BadMinutes                      // minutes not an int: warned about and skipped
    | Link(to: string, minutes: int)  // a connection to collect

  /** A token is blank when nothing is left after trimming. It lacks its minutes
      when nothing but `:` follows its first `:` (or it has none), for then
      `split(":")` gives fewer than two pieces. Otherwise it names a trimmed
      destination without `:` and the minutes are whatever parses. */
  function ParseToken(token: string): (r: TokenOutcome)
    ensures r.Blank? <==> Trim(token) == []
    ensures r.MissingMinutes? <==> Trim(token) != [] && OnlySepAfterFirst(Trim(token), ':')
    ensures r.MissingMinutes? ==> r.token == Trim(token)
    ensures r.Link? ==> Trim(r.to) == r.to && ':' !in r.to && IntMin <= r.minutes <= IntMax
  {
    var t := Trim(token);
    SplitFewerThanTwo(t, ':');
    if t == [] then Blank
    else
      var data := Split(t, ':');
      if |data| < 2 then MissingMinutes(t)
      else
        SplitPieces(t, ':');
        TrimIdempotent(data[0]);
        TrimKeepsOut(data[0], ':');
        match ParseInt(Trim(data[1]))
        case None => BadMinutes
        case Some(m) => Link(Trim(data[0]), m)
  }

  /** Minutes written in another script's digits are read like ASCII ones. */
  lemma FullwidthMinutes()
    ensures ParseToken("B:\U{FF15}") == Link("B", 5)
  {
    var t := "B:\U{FF15}";
    var five := t[2..];
    SplitFullwidth(t);
    assert Trim(t) == t;
    assert Trim(five) == five && ParseInt(five) == Some(5);
    assert Trim("B") == "B";
  }

  lemma SplitFullwidth(t: string)
    requires t == "B:\U{FF15}"
    ensures Split(t, ':') == ["B", t[2..]]
  {
    var five := t[2..];
    assert five == [five[0]] && five[1..] == [] && five[0] != ':';
    assert Pieces(five[1..], ':') == [""];
    assert Pieces(five, ':') == [[five[0]] + ""] + [""][1..];
    assert [five[0]] + "" == five;
    assert t[1..][1..] == five;
    assert Pieces(t[1..], ':') == ["", five];
    assert t[0] != ':' && t[1..][0] == ':';
    assert Pieces(t, ':') == [[t[0]] + ""] + [five];
    assert [t[0]] + "" == [t[0]] == "B";
    assert t[1] == ':';
  }

  /** A line is a header, a line with fewer than two fields, or a station record
      with its trimmed name, trimmed line identifier and connection tokens. */
  datatype Record =
    | Skipped
    | Entry(name: string, color: string, tokens: seq<TokenOutcome>)

  function ParseTokens(tokens: seq<string>): (r: seq<TokenOutcome>)
    ensures |r| == |tokens|
  {
    seq(|tokens|, k requires 0 <= k < |tokens| => ParseToken(tokens[k]))
  }

  /** The raw tokens of the third field, when there is one. */
  function RawTokens(parts: seq<string>): seq<string> {
    if |parts| > 2 then Split(parts[2], ';') else []
  }

  /** A line is skipped when it is a header, or when nothing but `,` follows its
      first `,`; otherwise its station name and line identifier are trimmed and
      hold no `,`. */
  function ParseRecord(line: string): (r: Record)
    ensures r.Skipped? <==> StartsWith(line, "name") || OnlySepAfterFirst(line, ',')
    ensures r.Entry? ==> Trim(r.name) == r.name && ',' !in r.name
    ensures r.Entry? ==> Trim(r.color) == r.color && ',' !in r.color
  {
    SplitFewerThanTwo(line, ',');
    if StartsWith(line, "name") then Skipped
    else
      var parts := Split(line, ',');
      if |parts| < 2 then Skipped
      else
        SplitPieces(line, ',');
        TrimIdempotent(parts[0]);
        TrimIdempotent(parts[1]);
        TrimKeepsOut(parts[0], ',');
        TrimKeepsOut(parts[1], ',');
        Entry(Trim(parts[0]), Trim(parts[1]), ParseTokens(RawTokens(parts)))
  }

  function ParseLines(lines: seq<string>): (r: seq<Record>)
    ensures |r| == |lines|
  {
    seq(|lines|, k requires 0 <= k < |lines| => ParseRecord(lines[k]))
  }

  /** The loader's state: `stations`, `stationIndexMap`, `lineStationsMap` and the
      local `connections` list. */
  datatype Tables = Tables(
    stations: seq<string>,
    index: map<string, int>,
    lineStations: map<string, seq<string>>,
    connections: seq<Connection>)

  const Initial: Tables := Tables([], map[], map[], [])

  function LineOf(lineStations: map<string, seq<string>>, color: string): seq<string> {
    if color in lineStations then lineStations[color] else []
  }

  /** An accepted record joins its line's list and, when its name is new, the registry. */
  function Register(t: Tables, name: string, color: string): Tables {
    var lines := t.lineStations[color := LineOf(t.lineStations, color) + [name]];
    if name in t.index then t.(lineStations := lines)
    else t.(stations := t.stations + [name], index := t.index[name := |t.stations|], lineStations := lines)
  }

  /** The connections of one record's tokens, in order, or the first fatal token. */
  function CollectLinks(name: string, tokens: seq<TokenOutcome>): Result<seq<Connection>> {
    if tokens == [] then Success([])
    else
      match CollectLinks(name, tokens[..|tokens| - 1])
      case Failure(e) => Failure(e)
      case Success(cs) =>
        match tokens[|tokens| - 1]
        case MissingMinutes(token) => Failure(MalformedConnection(token))
        case Link(to, m) => Success(cs + [Connection(name, to, m)])
        case _ => Success(cs)
  }

  /** One iteration of the reading loop: it fails exactly on a record with a
      fatal token, and otherwise only appends to the station list and the
      connection list, and registers the record's station. */
  function StepRecord(t: Tables, r: Record): (u: Result<Tables>)
    ensures u.Failure? <==> r.Entry? && CollectLinks(r.name, r.tokens).Failure?
    ensures u.Success? ==> t.stations <= u.value.stations && t.connections <= u.value.connections
    ensures u.Success? && r.Entry? ==> r.name in u.value.index
  {
    match r
    case Skipped => Success(t)
    case Entry(name, color, tokens) =>
      match CollectLinks(name, tokens)
      case Failure(e) => Failure(e)
      case Success(cs) =>
        var u := Register(t, name, color);
        Success(u.(connections := u.connections + cs))
  }

  /** The reading loop over all records. */
  function Scan(records: seq<Record>): Result<Tables> {
    if records == [] then Success(Initial)
    else
      match Scan(records[..|records| - 1])
      case Failure(e) => Failure(e)
      case Success(t) => StepRecord(t, records[|records| - 1])
  }

  /** The destination of the first collected connection that is not registered. */
  function FirstUnknown(index: map<string, int>, cs: seq<Connection>): (r: Option<string>)
    ensures r.Some? ==> exists k :: 0 <= k < |cs| && cs[k].to == r.value
  {
    if cs == [] then None
    else
      match FirstUnknown(index, cs[..|cs| - 1])
      case Some(x) => Some(x)
      case None => if cs[|cs| - 1].to in index then None else Some(cs[|cs| - 1].to)
  }

  /** The whole load: the reading pass, then the connections resolved by name. */
  function Load(lines: seq<string>): Result<Tables> {
    match Scan(ParseLines(lines))
    case Failure(e) => Failure(e)
    case Success(t) =>
      match FirstUnknown(t.index, t.connections)
      case Some(x) => Failure(UnknownStation(x))
      case None => Success(t)
  }

  predicate Resolved(index: map<string, int>, cs: seq<Connection>) {
    forall k :: 0 <= k < |cs| ==> cs[k].from in index && cs[k].to in index
  }

  /** Entry (i, j) of the adjacency matrix after the connections `cs` have been
      applied, in order, to the matrix with 0 on the diagonal and INF elsewhere. */
  function EntryAfter(index: map<string, int>, cs: seq<Connection>, i: int, j: int): int
    requires Resolved(index, cs)
  {
    if cs == [] then (if i == j then 0 else StationGraph.INF)
    else
      var c := cs[|cs| - 1];
      var f, t := index[c.from], index[c.to];
      if (f == i && t == j) || (f == j && t == i) then c.minutes
      else EntryAfter(index, cs[..|cs| - 1], i, j)
  }

  // ---------------------------------------------------------------- reference views

  /** Names of the accepted records, in order. */
  function Names(records: seq<Record>): seq<string> {
    if records == [] then []
    else
      match records[0]
      case Skipped => Names(records[1..])
      case Entry(name, _, _) => [name] + Names(records[1..])
  }

  /** Names of the accepted records whose line identifier is `color`, in order. */
  function Members(records: seq<Record>, color: string): seq<string> {
    if records == [] then []
    else
      match records[0]
      case Entry(name, c, _) => (if c == color then [name] else []) + Members(records[1..], color)
      case Skipped => Members(records[1..], color)
  }

  /** The connections that the tokens name, skipping blank tokens and bad minutes. */
  function LinksOf(name: string, tokens: seq<TokenOutcome>): seq<Connection> {
    if tokens == [] then []
    else
      match tokens[0]
      case Link(to, m) => [Connection(name, to, m)] + LinksOf(name, tokens[1..])
      case _ => LinksOf(name, tokens[1..])
  }

  /** The first token that has no minutes. */
  function FirstMalformed(tokens: seq<TokenOutcome>): Option<string> {
    if tokens == [] then None
    else if tokens[0].MissingMinutes? then Some(tokens[0].token)
    else FirstMalformed(tokens[1..])
  }

  /** The registry is a bijection between names and 0 .. |stations| - 1. */
  predicate RegistryValid(stations: seq<string>, index: map<string, int>) {
    (forall x :: x in index ==> 0 <= index[x] < |stations| && stations[index[x]] == x) &&
    (forall i :: 0 <= i < |stations| ==> stations[i] in index && index[stations[i]] == i)
  }

  /** Everything the reading pass keeps true. */
  predicate TablesValid(t: Tables) {
    RegistryValid(t.stations, t.index) &&
    (forall c, x :: c in t.lineStations && x in t.lineStations[c] ==> x in t.index) &&
    (forall k :: 0 <= k < |t.connections| ==> t.connections[k].from in t.index)
  }

  // ---------------------------------------------------------------- lemmas: one line

  /** Headers and lines with fewer than two fields change nothing: not the
      registry, not the line grouping, not the connection list. */
  lemma SkippedLineChangesNothing(t: Tables, line: string)
    requires StartsWith(line, "name") || |Split(line, ',')| < 2
    ensures StepRecord(t, ParseRecord(line)) == Success(t)
  {
  }

  /** An accepted record appends its name to its own line's list, even when the
      name is already there, and leaves every other line's list alone; a new name
      gets the next index and a known one keeps its index. */
  lemma AcceptedRecord(t: Tables, r: Record, u: Tables)
    requires r.Entry? && StepRecord(t, r) == Success(u)
    ensures LineOf(u.lineStations, r.color) == LineOf(t.lineStations, r.color) + [r.name]
    ensures forall c :: c != r.color ==> LineOf(u.lineStations, c) == LineOf(t.lineStations, c)
    ensures r.name in t.index ==> u.stations == t.stations && u.index == t.index
    ensures r.name !in t.index ==> u.stations == t.stations + [r.name] && u.index == t.index[r.name := |t.stations|]
  {
  }

  /** Every connection a record collects starts at that record's station. */
  lemma {:induction false} CollectLinksFrom(name: string, tokens: seq<TokenOutcome>)
    requires CollectLinks(name, tokens).Success?
    ensures forall k :: 0 <= k < |CollectLinks(name, tokens).value| ==> CollectLinks(name, tokens).value[k].from == name
  {
    if tokens != [] {
      CollectLinksFrom(name, tokens[..|tokens| - 1]);
    }
  }

  lemma StepKeepsValid(t: Tables, r: Record)
    requires TablesValid(t) && StepRecord(t, r).Success?
    ensures TablesValid(StepRecord(t, r).value)
    ensures forall x :: x in t.index ==> x in StepRecord(t, r).value.index && StepRecord(t, r).value.index[x] == t.index[x]
  {
    if r.Entry? {
      CollectLinksFrom(r.name, r.tokens);
    }
  }

  // ---------------------------------------------------------------- lemmas: tokens

  lemma {:induction false} LinksOfAppend(name: string, a: seq<TokenOutcome>, b: seq<TokenOutcome>)
    ensures LinksOf(name, a + b) == LinksOf(name, a) + LinksOf(name, b)
  {
    if a != [] {
      assert (a + b)[0] == a[0];
      assert (a + b)[1..] == a[1..] + b;
      LinksOfAppend(name, a[1..], b);
    } else {
      assert a + b == b;
    }
  }

  lemma {:induction false} FirstMalformedAppend(a: seq<TokenOutcome>, b: seq<TokenOutcome>)
    ensures FirstMalformed(a + b) == if FirstMalformed(a).Some? then FirstMalformed(a) else FirstMalformed(b)
  {
    if a != [] {
      assert (a + b)[0] == a[0];
      assert (a + b)[1..] == a[1..] + b;
      FirstMalformedAppend(a[1..], b);
    } else {
      assert a + b == b;
    }
  }

  /** A record's tokens yield exactly the connections its well-formed tokens name,
      in order: blank tokens and tokens with unparsable minutes are skipped and the
      rest still collected; the record fails only on a token without minutes, and
      then with the first such token. */
  lemma {:induction false} CollectLinksSkips(name: string, tokens: seq<TokenOutcome>)
    ensures CollectLinks(name, tokens) ==
      match FirstMalformed(tokens)
      case Some(x) => Failure(MalformedConnection(x))
      case None => Success(LinksOf(name, tokens))
  {
    if tokens != [] {
      var init, last := tokens[..|tokens| - 1], tokens[|tokens| - 1];
      assert tokens == init + [last];
      CollectLinksSkips(name, init);
      LinksOfAppend(name, init, [last]);
      FirstMalformedAppend(init, [last]);
      assert [last][1..] == [];
      assert LinksOf(name, [last]) == if last.Link? then [Connection(name, last.to, last.minutes)] else [];
      assert FirstMalformed([last]) == if last.MissingMinutes? then Some(last.token) else None;
      assert tokens[..|tokens| - 1] == init;
      match FirstMalformed(init)
      case Some(x) =>
        assert CollectLinks(name, tokens) == Failure(MalformedConnection(x));
      case None =>
        assert CollectLinks(name, init) == Success(LinksOf(name, init));
        match last
        case MissingMinutes(x) =>
          assert CollectLinks(name, tokens) == Failure(MalformedConnection(x));
        case Link(to, m) =>
          assert CollectLinks(name, tokens) == Success(LinksOf(name, init) + [Connection(name, to, m)]);
        case _ =>
          assert LinksOf(name, init) + [] == LinksOf(name, init);
    }
  }

  /** What reading one token does: a blank token, and one whose minutes do not parse,
      leave the connections as they are; a token without minutes is fatal; any
      other adds its connection. */
  lemma TokenStep(token: string)
    ensures var t := Trim(token);
      t == [] ==> ParseToken(token) == Blank
    ensures var t := Trim(token);
      t != [] && |Split(t, ':')| < 2 ==> ParseToken(token) == MissingMinutes(t)
    ensures var t := Trim(token);
      t != [] && |Split(t, ':')| >= 2 ==>
        ParseToken(token) == match ParseInt(Trim(Split(t, ':')[1]))
          case None => BadMinutes
          case Some(m) => Link(Trim(Split(t, ':')[0]), m)
  {
  }

  lemma CollectLinksNext(name: string, tokens: seq<TokenOutcome>, k: nat, found: seq<Connection>)
    requires k < |tokens| && CollectLinks(name, tokens[..k]) == Success(found)
    ensures tokens[k].MissingMinutes? ==> CollectLinks(name, tokens[..k + 1]) == Failure(MalformedConnection(tokens[k].token))
    ensures tokens[k].Link? ==> CollectLinks(name, tokens[..k + 1]) == Success(found + [Connection(name, tokens[k].to, tokens[k].minutes)])
    ensures tokens[k].Blank? || tokens[k].BadMinutes? ==> CollectLinks(name, tokens[..k + 1]) == Success(found)
  {
    assert tokens[..k + 1][..k] == tokens[..k];
  }

  /** A record's token loop stops at its first fatal token: a failure on a prefix
      of the tokens is the failure of all of them. */
  lemma {:induction false} CollectLinksPrefixFailure(name: string, tokens: seq<TokenOutcome>, k: nat)
    requires k <= |tokens| && CollectLinks(name, tokens[..k]).Failure?
    ensures CollectLinks(name, tokens) == CollectLinks(name, tokens[..k])
    decreases |tokens| - k
  {
    if k < |tokens| {
      assert tokens[..k + 1][..k] == tokens[..k];
      CollectLinksPrefixFailure(name, tokens, k + 1);
    } else {
      assert tokens[..k] == tokens;
    }
  }

  // ---------------------------------------------------------------- lemmas: whole pass

  lemma {:induction false} NamesAppend(records: seq<Record>, r: Record)
    ensures Names(records + [r]) == Names(records) + Names([r])
  {
    if records != [] {
      assert (records + [r])[0] == records[0];
      assert (records + [r])[1..] == records[1..] + [r];
      NamesAppend(records[1..], r);
    }
  }

  lemma {:induction false} MembersAppend(records: seq<Record>, r: Record, color: string)
    ensures Members(records + [r], color) == Members(records, color) + Members([r], color)
  {
    if records != [] {
      assert (records + [r])[0] == records[0];
      assert (records + [r])[1..] == records[1..] + [r];
      MembersAppend(records[1..], r, color);
    }
  }

  /** The pass keeps its invariant, and the registry holds exactly the names of the
      accepted records read so far. */
  lemma {:induction false} ScanValid(records: seq<Record>)
    requires Scan(records).Success?
    ensures TablesValid(Scan(records).value)
    ensures forall x :: x in Scan(records).value.index <==> x in Names(records)
  {
    if records != [] {
      var init, last := records[..|records| - 1], records[|records| - 1];
      ScanValid(init);
      StepKeepsValid(Scan(init).value, last);
      assert records == init + [last];
      NamesAppend(init, last);
      assert [last][1..] == [];
    }
  }

  /** Each line's list is exactly the names of the accepted records on that line,
      in the order they were read, repeats included; a line appears in the map
      exactly when some record names it. */
  lemma {:induction false} ScanLineStations(records: seq<Record>, color: string)
    requires Scan(records).Success?
    ensures LineOf(Scan(records).value.lineStations, color) == Members(records, color)
    ensures color in Scan(records).value.lineStations <==> Members(records, color) != []
  {
    if records != [] {
      var init, last := records[..|records| - 1], records[|records| - 1];
      ScanLineStations(init, color);
      assert records == init + [last];
      MembersAppend(init, last, color);
      assert [last][1..] == [];
      var t := Scan(init).value;
      assert Scan(records) == StepRecord(t, last);
      if last.Entry? {
        AcceptedRecord(t, last, Scan(records).value);
      }
    }
  }

  /** How one line is read: headers and lines with fewer than two fields are
      skipped; any other line is a record of its trimmed first two fields and the
      tokens of its third field, if any. */
  lemma RecordStep(line: string)
    ensures StartsWith(line, "name") ==> ParseRecord(line) == Skipped
    ensures !StartsWith(line, "name") && |Split(line, ',')| < 2 ==> ParseRecord(line) == Skipped
    ensures var parts := Split(line, ',');
      !StartsWith(line, "name") && |parts| >= 2 ==>
        ParseRecord(line) == Entry(Trim(parts[0]), Trim(parts[1]), ParseTokens(RawTokens(parts)))
  {
  }

  lemma ScanNext(records: seq<Record>, i: nat, t: Tables)
    requires i < |records| && Scan(records[..i]) == Success(t)
    ensures Scan(records[..i + 1]) == StepRecord(t, records[i])
  {
    assert records[..i + 1][..i] == records[..i];
  }

  /** A failure while reading a prefix is the failure of the whole pass. */
  lemma {:induction false} ScanPrefixFailure(records: seq<Record>, i: nat)
    requires i <= |records| && Scan(records[..i]).Failure?
    ensures Scan(records) == Scan(records[..i])
    decreases |records| - i
  {
    if i < |records| {
      assert records[..i + 1][..i] == records[..i];
      ScanPrefixFailure(records, i + 1);
    } else {
      assert records[..i] == records;
    }
  }

  /** A registered name keeps its index for the rest of the pass. */
  lemma {:induction false} ScanIndexStable(records: seq<Record>, i: nat, x: string)
    requires i <= |records| && Scan(records).Success?
    ensures Scan(records[..i]).Success?
    ensures x in Scan(records[..i]).value.index ==>
      x in Scan(records).value.index && Scan(records).value.index[x] == Scan(records[..i]).value.index[x]
    decreases |records| - i
  {
    if i < |records| {
      ScanIndexStable(records, i + 1, x);
      var pre := records[..i + 1];
      assert pre[..i] == records[..i];
      if Scan(records[..i]).Failure? {
        ScanPrefixFailure(pre, i);
      } else {
        ScanValid(records[..i]);
        StepKeepsValid(Scan(records[..i]).value, records[i]);
      }
    } else {
      assert records[..i] == records;
    }
  }

  /** A registry's station list has no repeated name. */
  lemma {:induction false} DistinctCardinality(s: seq<string>, index: map<string, int>)
    requires RegistryValid(s, index)
    ensures |set x | x in s| == |s|
  {
    if s != [] {
      var init := s[..|s| - 1];
      var last := s[|s| - 1];
      var index' := map x | x in index && index[x] < |s| - 1 :: index[x];
      assert RegistryValid(init, index');
      DistinctCardinality(init, index');
      assert (set x | x in s) == (set x | x in init) + {last};
      assert last !in init by {
        forall k | 0 <= k < |init| ensures init[k] != last {
          assert index[s[k]] == k;
        }
      }
    }
  }

  /** A name read for the first time in record i gets as its index the number of
      distinct names read before it, and keeps it to the end of the pass. */
  lemma NewNameIndex(records: seq<Record>, i: nat)
    requires i < |records| && Scan(records).Success?
    requires records[i].Entry? && records[i].name !in Names(records[..i])
    ensures records[i].name in Scan(records).value.index
    ensures Scan(records).value.index[records[i].name] == |set x | x in Names(records[..i])|
  {
    var name := records[i].name;
    ScanIndexStable(records, i + 1, name);
    ScanIndexStable(records, i, name);
    var pre := records[..i + 1];
    assert pre[..i] == records[..i];
    var t := Scan(records[..i]).value;
    ScanValid(records[..i]);
    DistinctCardinality(t.stations, t.index);
    assert (set x | x in t.stations) == (set x | x in Names(records[..i])) by {
      forall x ensures x in t.stations <==> x in Names(records[..i]) {
        if x in t.index {
          assert t.stations[t.index[x]] == x;
        }
      }
    }
  }

  // ---------------------------------------------------------------- lemmas: resolution

  lemma {:induction false} FirstUnknownNone(index: map<string, int>, cs: seq<Connection>)
    ensures FirstUnknown(index, cs).None? <==> forall k :: 0 <= k < |cs| ==> cs[k].to in index
    ensures FirstUnknown(index, cs).Some? ==> FirstUnknown(index, cs).value !in index
  {
    if cs != [] {
      FirstUnknownNone(index, cs[..|cs| - 1]);
      assert forall k :: 0 <= k < |cs| - 1 ==> cs[..|cs| - 1][k] == cs[k];
    }
  }

  /** The load reports the destination of the first connection that does not
      resolve, when all the ones before it resolve. */
  lemma {:induction false} FirstUnknownAt(index: map<string, int>, cs: seq<Connection>, k: nat)
    requires k < |cs| && cs[k].to !in index
    requires forall l :: 0 <= l < k ==> cs[l].to in index
    ensures FirstUnknown(index, cs) == Some(cs[k].to)
  {
    if k < |cs| - 1 {
      FirstUnknownAt(index, cs[..|cs| - 1], k);
    } else {
      FirstUnknownNone(index, cs[..k]);
      assert cs[..|cs| - 1] == cs[..k];
    }
  }

  /** Connections are applied only after every line is read, so a destination
      resolves when ANY accepted record, earlier or later, defines it; the load
      fails on an unknown destination exactly when some connection names a
      station that no record defines, and then it names such a station. */
  lemma ForwardReferences(lines: seq<string>)
    requires Scan(ParseLines(lines)).Success?
    ensures var cs := Scan(ParseLines(lines)).value.connections;
      Load(lines).Success? <==> forall k :: 0 <= k < |cs| ==> cs[k].to in Names(ParseLines(lines))
    ensures Load(lines).Failure? ==>
      Load(lines).error.UnknownStation? && Load(lines).error.name !in Names(ParseLines(lines))
    ensures Load(lines).Success? ==>
      Load(lines).value == Scan(ParseLines(lines)).value && TablesValid(Load(lines).value) &&
      Resolved(Load(lines).value.index, Load(lines).value.connections)
  {
    var t := Scan(ParseLines(lines)).value;
    ScanValid(ParseLines(lines));
    FirstUnknownNone(t.index, t.connections);
  }

  // ---------------------------------------------------------------- lemmas: matrix

  /** Every applied connection writes both (from, to) and (to, from): the matrix
      stays symmetric. */
  lemma {:induction false} EntrySymmetric(index: map<string, int>, cs: seq<Connection>, i: int, j: int)
    requires Resolved(index, cs)
    ensures EntryAfter(index, cs, i, j) == EntryAfter(index, cs, j, i)
  {
    if cs != [] {
      EntrySymmetric(index, cs[..|cs| - 1], i, j);
    }
  }

  /** A pair that no connection names keeps its initial value: 0 on the diagonal,
      INF elsewhere. */
  lemma {:induction false} EntryNeverNamed(index: map<string, int>, cs: seq<Connection>, i: int, j: int)
    requires Resolved(index, cs)
    requires forall k :: 0 <= k < |cs| ==>
      !((index[cs[k].from] == i && index[cs[k].to] == j) || (index[cs[k].from] == j && index[cs[k].to] == i))
    ensures EntryAfter(index, cs, i, j) == if i == j then 0 else StationGraph.INF
  {
    if cs != [] {
      EntryNeverNamed(index, cs[..|cs| - 1], i, j);
    }
  }

  /** The last connection that names a pair decides its entry: a later connection
      for the same pair overwrites an earlier one. */
  lemma {:induction false} LastConnectionWins(index: map<string, int>, cs: seq<Connection>, k: nat, i: int, j: int)
    requires Resolved(index, cs) && k < |cs|
    requires (index[cs[k].from] == i && index[cs[k].to] == j) || (index[cs[k].from] == j && index[cs[k].to] == i)
    requires forall l :: k < l < |cs| ==>
      !((index[cs[l].from] == i && index[cs[l].to] == j) || (index[cs[l].from] == j && index[cs[l].to] == i))
    ensures EntryAfter(index, cs, i, j) == cs[k].minutes
  {
    if k < |cs| - 1 {
      LastConnectionWins(index, cs[..|cs| - 1], k, i, j);
    }
  }
}
