/** Loading the navaid and airport catalogues from CSV text
    (`loadNavaids`, `loadAirports`): skip the header line, tokenize each row,
    clean every field, keep the rows of the wanted types, and `set` each kept
    record into an insertion-ordered `Map` under its identifier. */
module Catalogue {
  import opened Wrappers
  import opened OrderedMaps
  import opened JsStrings
  import opened Geodesy

  /** The JavaScript built-ins used during loading whose behaviour the model
      takes as given: the CSV token regex (`row.match(...)`, `null` when
      nothing matches), `parseInt`, `parseFloat` and `toFixed(3)`.
      `None` stands for `undefined`. */
  datatype Runtime = Runtime(
    tokenize: string -> Option<seq<string>>,
    parseInt: Option<string> -> Num,
    parseFloat: Option<string> -> Num,
    toFixed3: Num -> string)

  /** The navaid types kept in the catalogue. */
  const NavaidTypes: set<string> := {"VOR", "DME", "NDB", "VORDME", "VOR-DME"}

  /** The airport types kept in the catalogue. */
  const AirportTypes: set<string> := {"large_airport", "medium_airport"}

  /** A stored navaid. Fields read past the end of the token list are `undefined` (`None`). */
  datatype Navaid = Navaid(
    id: string, ident: string, name: string, navType: string,
    frequency: string, lat: Num, lon: Num, elevation: Num,
    country: Option<string>, dmeChannel: Option<string>,
    magneticVariation: Option<string>, airport: Option<string>, usage: Option<string>)

  /** A stored airport; `icao` is the row's `ident`. */
  datatype Airport = Airport(
    icao: string, iata: Option<string>, name: Option<string>, city: Option<string>,
    country: Option<string>, lat: Num, lon: Num, elevation: Num, airportType: string)

  function NavaidPosition(n: Navaid): Coord {
    Coord(n.lat, n.lon)
  }

  function NavaidKey(n: Navaid): string {
    n.ident
  }

  function AirportKey(a: Airport): string {
    a.icao
  }

  /** `values.map(val => val.replace(/"/g, '').trim())`. */
  function CleanAll(tokens: seq<string>): (vs: seq<string>)
    ensures |vs| == |tokens| && forall i :: 0 <= i < |vs| ==> vs[i] == CleanField(tokens[i])
  {
    seq(|tokens|, i requires 0 <= i < |tokens| => CleanField(tokens[i]))
  }

  /** The `i`-th destructured value: `undefined` past the end. */
  function Field(vs: seq<string>, i: nat): Option<string> {
    if i < |vs| then Some(vs[i]) else None
  }

  predicate CleanOpt(f: Option<string>) {
    f.Some? ==> IsClean(f.value)
  }

  lemma FieldsClean(vs: seq<string>)
    requires forall i :: 0 <= i < |vs| ==> IsClean(vs[i])
    ensures forall i: nat :: CleanOpt(Field(vs, i))
  {
  }

  /** Every string field of a stored navaid is cleaned and its type is a kept one. */
  predicate NavaidOk(n: Navaid) {
    && n.navType in NavaidTypes
    && IsClean(n.id) && IsClean(n.ident) && IsClean(n.name) && IsClean(n.navType)
    && CleanOpt(n.country) && CleanOpt(n.dmeChannel) && CleanOpt(n.magneticVariation)
    && CleanOpt(n.airport) && CleanOpt(n.usage)
    && n.dmeChannel != Some("")
  }

  /** Every string field of a stored airport is cleaned and its type is a kept one. */
  predicate AirportOk(a: Airport) {
    && a.airportType in AirportTypes
    && IsClean(a.icao) && CleanOpt(a.iata) && CleanOpt(a.name) && CleanOpt(a.city)
    && CleanOpt(a.country)
  }

  /** One row of the navaid file: the record it stores, if any. */
  function ParseNavaidRow(row: string, rt: Runtime): (r: Option<Navaid>)
    ensures r.Some? <==>
      && Trim(row) != []
      && rt.tokenize(row).Some?
      && |rt.tokenize(row).value| > 4
      && CleanField(rt.tokenize(row).value[4]) in NavaidTypes
    ensures r.Some? ==> NavaidOk(r.value) && r.value.ident == CleanField(rt.tokenize(row).value[2])
  {
    if Trim(row) == [] then None
    else match rt.tokenize(row)
      case None => None
      case Some(tokens) =>
        var vs := CleanAll(tokens);
        if |vs| > 4 && vs[4] in NavaidTypes then Some(NavaidOf(vs, rt)) else None
  }

  /** The navaid built from a row's cleaned values by the destructuring. */
  function NavaidOf(vs: seq<string>, rt: Runtime): (n: Navaid)
    requires |vs| > 4 && vs[4] in NavaidTypes
    requires forall i :: 0 <= i < |vs| ==> IsClean(vs[i])
    ensures NavaidOk(n) && n.ident == vs[2]
  {
    FieldsClean(vs);
    var dme := Field(vs, 11);
    Navaid(
      id := vs[0], ident := vs[2], name := vs[3], navType := vs[4],
      frequency := rt.toFixed3(DivBy(rt.parseInt(Field(vs, 5)), 1000.0)),
      lat := rt.parseFloat(Field(vs, 6)), lon := rt.parseFloat(Field(vs, 7)),
      elevation := rt.parseInt(Field(vs, 8)),
      country := Field(vs, 9),
      dmeChannel := if dme == Some("") then None else dme,
      magneticVariation := Field(vs, 16),
      airport := Field(vs, 19),
      usage := Field(vs, 17))
  }

  /** One row of the airport file: the record it stores, if any. */
  function ParseAirportRow(row: string, rt: Runtime): (r: Option<Airport>)
    ensures r.Some? <==>
      && rt.tokenize(row).Some?
      && |rt.tokenize(row).value| > 2
      && CleanField(rt.tokenize(row).value[2]) in AirportTypes
    ensures r.Some? ==> AirportOk(r.value) && r.value.icao == CleanField(rt.tokenize(row).value[1])
  {
    match rt.tokenize(row)
    case None => None
    case Some(tokens) =>
      var vs := CleanAll(tokens);
      if |vs| > 2 && vs[2] in AirportTypes then Some(AirportOf(vs, rt))
      else None
  }

  /** The airport built from a row's cleaned values by the destructuring. */
  function AirportOf(vs: seq<string>, rt: Runtime): (a: Airport)
    requires |vs| > 2 && vs[2] in AirportTypes
    requires forall i :: 0 <= i < |vs| ==> IsClean(vs[i])
    ensures AirportOk(a) && a.icao == vs[1]
  {
    FieldsClean(vs);
    Airport(
      icao := vs[1], iata := Field(vs, 13), name := Field(vs, 3),
      city := Field(vs, 10), country := Field(vs, 8),
      lat := rt.parseFloat(Field(vs, 4)), lon := rt.parseFloat(Field(vs, 5)),
      elevation := rt.parseInt(Field(vs, 6)), airportType := vs[2])
  }

  function NavaidParser(rt: Runtime): string -> Option<Navaid> {
    row => ParseNavaidRow(row, rt)
  }

  function AirportParser(rt: Runtime): string -> Option<Airport> {
    row => ParseAirportRow(row, rt)
  }

  /** `csvText.split('\n').slice(1)`: every line but the first. */
  function DataRows(text: string): seq<string> {
    SplitLines(text)[1..]
  }

  /** The body of the `forEach` for one row: `map.set(key, record)` when the row yields a record. */
  function AddRow<R>(m: Entries<R>, row: string, parse: string -> Option<R>, key: R -> string): Entries<R> {
    match parse(row)
    case None => m
    case Some(r) => Put(m, key(r), r)
  }

  /** The whole `forEach` over `rows`, starting from the map `m`. */
  function Ingest<R>(m: Entries<R>, rows: seq<string>, parse: string -> Option<R>, key: R -> string): Entries<R>
    decreases |rows|
  {
    if rows == [] then m
    else AddRow(Ingest(m, rows[..|rows| - 1], parse, key), rows[|rows| - 1], parse, key)
  }

  /** The keys of the records the rows yield, in row order, repeats included. */
  function ParsedKeys<R>(rows: seq<string>, parse: string -> Option<R>, key: R -> string): seq<string>
    decreases |rows|
  {
    if rows == [] then []
    else
      var last := parse(rows[|rows| - 1]);
      ParsedKeys(rows[..|rows| - 1], parse, key) + (if last.Some? then [key(last.value)] else [])
  }

  /** `ks` followed by each element of `xs` not seen before, in first-occurrence order. */
  function AppendNew(ks: seq<string>, xs: seq<string>): seq<string>
    decreases |xs|
  {
    if xs == [] then ks
    else
      var prev := AppendNew(ks, xs[..|xs| - 1]);
      if xs[|xs| - 1] in prev then prev else prev + [xs[|xs| - 1]]
  }

  /** The record yielded by the last row whose key is `k`. */
  function LastParsed<R>(rows: seq<string>, parse: string -> Option<R>, key: R -> string, k: string): Option<R>
    decreases |rows|
  {
    if rows == [] then None
    else
      var last := parse(rows[|rows| - 1]);
      if last.Some? && key(last.value) == k then last
      else LastParsed(rows[..|rows| - 1], parse, key, k)
  }

  /** Every entry is stored under its own record's key, and no key twice. */
  ghost predicate Keyed<R>(m: Entries<R>, key: R -> string) {
    UniqueKeys(m) && forall i :: 0 <= i < |m| ==> m[i].0 == key(m[i].1)
  }

  /** The catalogue keeps its keys in first-insertion order: an existing key
      never moves and a new key goes to the end, however often it is set again. */
  lemma {:induction false} IngestKeys<R>(m: Entries<R>, rows: seq<string>, parse: string -> Option<R>, key: R -> string)
    ensures Keys(Ingest(m, rows, parse, key)) == AppendNew(Keys(m), ParsedKeys(rows, parse, key))
    decreases |rows|
  {
    if rows != [] {
      var init := rows[..|rows| - 1];
      IngestKeys(m, init, parse, key);
      var prev := Ingest(m, init, parse, key);
      var last := parse(rows[|rows| - 1]);
      var ks := ParsedKeys(init, parse, key);
      if last.Some? {
        PutKeys(prev, key(last.value), last.value);
        assert ParsedKeys(rows, parse, key) == ks + [key(last.value)];
        assert (ks + [key(last.value)])[..|ks|] == ks;
      } else {
        assert ParsedKeys(rows, parse, key) == ks;
      }
    }
  }

  /** Last write wins: a key is bound to the record of the last row that
      yields it; a key no row yields keeps its earlier binding. */
  lemma {:induction false} IngestGet<R>(m: Entries<R>, rows: seq<string>, parse: string -> Option<R>, key: R -> string, k: string)
    ensures Get(Ingest(m, rows, parse, key), k) ==
      if LastParsed(rows, parse, key, k).Some? then LastParsed(rows, parse, key, k) else Get(m, k)
    decreases |rows|
  {
    if rows != [] {
      var init := rows[..|rows| - 1];
      IngestGet(m, init, parse, key, k);
      var last := parse(rows[|rows| - 1]);
      if last.Some? {
        PutGet(Ingest(m, init, parse, key), key(last.value), last.value, k);
      }
    }
  }

  /** Loading keeps the store well keyed, and every record in it satisfies
      whatever every parsed row satisfies. */
  lemma {:induction false} IngestKeeps<R>(m: Entries<R>, rows: seq<string>, parse: string -> Option<R>, key: R -> string, ok: R -> bool)
    requires Keyed(m, key) && forall i :: 0 <= i < |m| ==> ok(m[i].1)
    requires forall row :: parse(row).Some? ==> ok(parse(row).value)
    ensures var r := Ingest(m, rows, parse, key);
      Keyed(r, key) && forall i :: 0 <= i < |r| ==> ok(r[i].1)
    decreases |rows|
  {
    if rows != [] {
      var init := rows[..|rows| - 1];
      IngestKeeps(m, init, parse, key, ok);
      AddRowKeeps(Ingest(m, init, parse, key), rows[|rows| - 1], parse, key, ok);
    }
  }

  /** One row through the callback keeps the store well keyed, and keeps
      `ok` for every record when the row's record, if any, satisfies it. */
  lemma AddRowKeeps<R>(m: Entries<R>, row: string, parse: string -> Option<R>, key: R -> string, ok: R -> bool)
    requires Keyed(m, key) && forall i :: 0 <= i < |m| ==> ok(m[i].1)
    requires parse(row).Some? ==> ok(parse(row).value)
    ensures var r := AddRow(m, row, parse, key);
      Keyed(r, key) && forall i :: 0 <= i < |r| ==> ok(r[i].1)
  {
    if parse(row).Some? {
      var x := parse(row).value;
      PutUnique(m, key(x), x);
      var r := Put(m, key(x), x);
      if key(x) in Keys(m) {
        var j := IndexOf(m, key(x));
        forall i | 0 <= i < |r|
          ensures r[i].0 == key(r[i].1) && ok(r[i].1)
        {
          if i != j { assert r[i] == m[i]; }
        }
      } else {
        assert r == m + [(key(x), x)];
      }
    }
  }

  /** Loading rows one batch after another is loading them all at once. */
  lemma {:induction false} IngestConcat<R>(m: Entries<R>, a: seq<string>, b: seq<string>, parse: string -> Option<R>, key: R -> string)
    ensures Ingest(m, a + b, parse, key) == Ingest(Ingest(m, a, parse, key), b, parse, key)
    decreases |b|
  {
    if b == [] {
      assert a + b == a;
    } else {
      var binit := b[..|b| - 1];
      assert (a + b)[..|a + b| - 1] == a + binit;
      assert (a + b)[|a + b| - 1] == b[|b| - 1];
      IngestConcat(m, a, binit, parse, key);
    }
  }

  /** A row that yields no record (blank, untokenizable or of another type)
      changes nothing, wherever it stands. */
  lemma IngestSkips<R>(m: Entries<R>, a: seq<string>, row: string, b: seq<string>, parse: string -> Option<R>, key: R -> string)
    requires parse(row).None?
    ensures Ingest(m, a + [row] + b, parse, key) == Ingest(m, a + b, parse, key)
  {
    IngestConcat(m, a + [row], b, parse, key);
    assert (a + [row])[..|a|] == a;
    IngestConcat(m, a, b, parse, key);
  }

  /** What the token regex of both loaders guarantees for a blank row: every
      match holds a quote or a character that is neither white space nor a
      comma, so a row of white space alone has no match (`null`). */
  ghost predicate TokenizerOk(rt: Runtime) {
    forall row :: Trim(row) == [] ==> rt.tokenize(row).None?
  }

  /** The navaid loader skips a blank row itself: it adds nothing, wherever it stands. */
  lemma BlankNavaidRowSkipped(m: Entries<Navaid>, a: seq<string>, row: string, b: seq<string>, rt: Runtime)
    requires Trim(row) == []
    ensures Ingest(m, a + [row] + b, NavaidParser(rt), NavaidKey) == Ingest(m, a + b, NavaidParser(rt), NavaidKey)
  {
    assert NavaidParser(rt)(row) == ParseNavaidRow(row, rt);
    IngestSkips(m, a, row, b, NavaidParser(rt), NavaidKey);
  }

  /** The airport loader has no blank-row test; a blank row still adds
      nothing, because the token regex finds no match in it. */
  lemma BlankAirportRowSkipped(m: Entries<Airport>, a: seq<string>, row: string, b: seq<string>, rt: Runtime)
    requires TokenizerOk(rt) && Trim(row) == []
    ensures Ingest(m, a + [row] + b, AirportParser(rt), AirportKey) == Ingest(m, a + b, AirportParser(rt), AirportKey)
  {
    assert rt.tokenize(row).None?;
    assert AirportParser(rt)(row) == ParseAirportRow(row, rt);
    IngestSkips(m, a, row, b, AirportParser(rt), AirportKey);
  }

  /** The first line of the file is never ingested: the data rows of
      `head + "\n" + rest` are the lines of `rest`, and a file of one line has none. */
  lemma HeaderSkipped(head: string, rest: string)
    requires '\n' !in head
    ensures DataRows(head + "\n" + rest) == SplitLines(rest)
    ensures DataRows(head) == []
  {
    SplitAfterFirstLine(head, rest);
    SplitJoin([head]);
  }

  /** The navaid store: keyed by `ident`, only kept types, every field cleaned. */
  ghost predicate NavaidStore(m: Entries<Navaid>) {
    Keyed(m, NavaidKey) && forall i :: 0 <= i < |m| ==> NavaidOk(m[i].1)
  }

  /** The airport store: keyed by ICAO code, only large and medium airports, every field cleaned. */
  ghost predicate AirportStore(m: Entries<Airport>) {
    Keyed(m, AirportKey) && forall i :: 0 <= i < |m| ==> AirportOk(m[i].1)
  }

  lemma NavaidIngestKeepsStore(m: Entries<Navaid>, rows: seq<string>, rt: Runtime)
    requires NavaidStore(m)
    ensures NavaidStore(Ingest(m, rows, NavaidParser(rt), NavaidKey))
  {
    IngestKeeps(m, rows, NavaidParser(rt), NavaidKey, NavaidOk);
  }

  lemma AirportIngestKeepsStore(m: Entries<Airport>, rows: seq<string>, rt: Runtime)
    requires AirportStore(m)
    ensures AirportStore(Ingest(m, rows, AirportParser(rt), AirportKey))
  {
    IngestKeeps(m, rows, AirportParser(rt), AirportKey, AirportOk);
  }

  /** One row through the navaid callback keeps the navaid store. */
  lemma NavaidRowKeepsStore(m: Entries<Navaid>, row: string, rt: Runtime)
    requires NavaidStore(m)
    ensures NavaidStore(AddRow(m, row, NavaidParser(rt), NavaidKey))
  {
    assert NavaidParser(rt)(row) == ParseNavaidRow(row, rt);
    AddRowKeeps(m, row, NavaidParser(rt), NavaidKey, NavaidOk);
  }

  /** One row through the airport callback keeps the airport store. */
  lemma AirportRowKeepsStore(m: Entries<Airport>, row: string, rt: Runtime)
    requires AirportStore(m)
    ensures AirportStore(AddRow(m, row, AirportParser(rt), AirportKey))
  {
    assert AirportParser(rt)(row) == ParseAirportRow(row, rt);
    AddRowKeeps(m, row, AirportParser(rt), AirportKey, AirportOk);
  }
}
