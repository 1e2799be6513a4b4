/** The Binance-to-BigQuery ingestion of main.py: fetch recent one-minute
    klines from the exchange, turn each into a table row, insert the rows with
    one streaming-insert call, and map every outcome to a (message, status)
    pair for the HTTP entry point.

    The exchange and BigQuery are not part of this model: the HTTP exchange is
    a function from the request to the reply, the client's `insert_rows_json`
    a function from the insert request to its reply, and Python's `float()` a
    function that parses a JSON scalar or yields the text of the exception it
    raises. Exceptions become `Err` values carrying the text `str(e)` gives. */
module Ingest {
  import opened Wrappers
  import opened Decimal
  import opened Timestamp

  // ----- Configuration (the module-level constants) -----------------------

  datatype Config = Config(
    projectId: string, datasetId: string, tableId: string,
    symbol: string, interval: string, limit: int)

  const DefaultProject := "bitcoin-480204"

  /** The constants main.py defines; `gcpProject` is the value of the
      GCP_PROJECT environment variable, if it is set. */
  function Settings(gcpProject: Option<string>): Config {
    Config(if gcpProject.Some? then gcpProject.value else DefaultProject,
           "crypto", "btc_ohlc_1m", "BTCUSDT", "1m", 120)
  }

  /** `f"{PROJECT_ID}.{DATASET_ID}.{TABLE_ID}"` */
  function TableRef(cfg: Config): string {
    cfg.projectId + "." + cfg.datasetId + "." + cfg.tableId
  }

  // ----- The exchange -----------------------------------------------------

  const KlinesUrl := "https://api.binance.com/api/v3/klines"
  const FetchTimeout := 10

  /** The GET that `fetch_binance_klines` sends: endpoint, query parameters
      and timeout in seconds. */
  datatype KlinesRequest = KlinesRequest(url: string, symbol: string, interval: string, limit: int, timeout: int)

  /** A scalar inside one kline entry of the decoded JSON body. */
  datatype Scalar = Int(i: int) | Str(s: string) | Null

  /** The decoded body: a list of kline entries, or the text of the exception
      raised when the body is not such a list. */
  datatype Payload = Entries(entries: seq<seq<Scalar>>) | Undecodable(message: string)

  /** What `requests.get` yields: an exception (connection failure, timeout)
      or a response. */
  datatype HttpReply =
    | Unreachable(message: string)
    | Response(status: int, reason: string, url: string, payload: Payload)

  type Network = KlinesRequest -> HttpReply

  /** Python's `float(x)`: the value, or the text of the exception it raises. */
  type FloatParse = Scalar -> Result<real, string>

  /** One row of the destination table. */
  datatype Row = Row(ts: string, symbol: string, open: real, high: real, low: real, close: real, volume: real)

  /** Which step raised: the fetch (transport or HTTP status), the decoding
      of the body, or the write. */
  datatype Stage = FetchError | ParseError | WriteError

  /** A raised exception and its `str(e)`. */
  datatype Error = Error(stage: Stage, message: string)

  function RequestFor(symbol: string, interval: string, limit: int): KlinesRequest {
    KlinesRequest(KlinesUrl, symbol, interval, limit, FetchTimeout)
  }

  /** `raise_for_status` raises for the 4xx and 5xx statuses only. */
  predicate RaisesForStatus(status: int) {
    400 <= status < 600
  }

  /** The text of the HTTPError that `raise_for_status` raises. */
  function HttpErrorText(status: nat, reason: string, url: string): string {
    DecimalString(status) + (if status < 500 then " Client Error: " else " Server Error: ")
      + reason + " for url: " + url
  }

  const IndexErrorText := "list index out of range"
  const YearRangeText := "year is out of range"

  /** The TypeError of `k[0] / 1000.0` when `k[0]` is not a number. */
  function DivisionTypeErrorText(x: Scalar): string {
    "unsupported operand type(s) for /: '" + (if x.Null? then "NoneType" else "str") + "' and 'float'"
  }

  /** `float(k[j])`, including the IndexError of a short entry. */
  function NumberAt(k: seq<Scalar>, j: nat, parse: FloatParse): Result<real, Error> {
    if j >= |k| then Err(Error(ParseError, IndexErrorText))
    else match parse(k[j])
      case Ok(v) => Ok(v)
      case Err(m) => Err(Error(ParseError, m))
  }

  /** `float(k[j])`, `float(k[j + 1])`, .. for `n` fields, left to right,
      stopping at the first that raises. */
  function NumbersFrom(k: seq<Scalar>, j: nat, n: nat, parse: FloatParse): (r: Result<seq<real>, Error>)
    ensures r.Ok? ==> |r.value| == n
    decreases n
  {
    if n == 0 then Ok([])
    else match NumberAt(k, j, parse)
      case Err(e) => Err(e)
      case Ok(v) =>
        match NumbersFrom(k, j + 1, n - 1, parse)
        case Err(e) => Err(e)
        case Ok(vs) => Ok([v] + vs)
  }

  /** `open_time_ms / 1000.0` and `utcfromtimestamp(...).isoformat()` on
      field 0 of an entry. */
  function TimeText(x: Scalar): Result<string, Error> {
    if !x.Int? then Err(Error(ParseError, DivisionTypeErrorText(x)))
    else
      var instant := UtcFromMillis(x.i);
      if instant.None? then Err(Error(ParseError, YearRangeText))
      else
        MillisRoundTrip(x.i);
        Ok(FormatIso(instant.value))
  }

  /** The body of the `for k in raw` loop: one kline entry to one row. The
      steps run, and can fail, in the order Python evaluates them: `k[0]`, the
      division and the datetime conversion, then `float(k[1])` .. `float(k[5])`. */
  function KlineRow(k: seq<Scalar>, symbol: string, parse: FloatParse): Result<Row, Error> {
    if |k| == 0 then Err(Error(ParseError, IndexErrorText))
    else match TimeText(k[0])
      case Err(e) => Err(e)
      case Ok(ts) =>
        match NumbersFrom(k, 1, 5, parse)
        case Err(e) => Err(e)
        case Ok(v) => Ok(Row(ts, symbol, v[0], v[1], v[2], v[3], v[4]))
  }

  /** `f` applied to every element in order, or the error of the first
      element on which it fails: a loop that appends to a list and lets the
      first exception escape. */
  function ConvertAll<A, B>(xs: seq<A>, f: A -> Result<B, Error>): Result<seq<B>, Error> {
    if xs == [] then Ok([])
    else match ConvertAll(xs[..|xs| - 1], f)
      case Err(e) => Err(e)
      case Ok(ys) =>
        match f(xs[|xs| - 1])
        case Err(e) => Err(e)
        case Ok(y) => Ok(ys + [y])
  }

  /** The rows of all entries in order, or the error of the first entry that
      fails: the specification of the loop in `FetchBinanceKlines`. */
  function Normalize(raw: seq<seq<Scalar>>, symbol: string, parse: FloatParse): Result<seq<Row>, Error> {
    ConvertAll(raw, k => KlineRow(k, symbol, parse))
  }

  /** What `fetch_binance_klines(symbol, interval, limit)` returns or raises. */
  function Klines(symbol: string, interval: string, limit: int, network: Network, parse: FloatParse): Result<seq<Row>, Error> {
    match network(RequestFor(symbol, interval, limit))
    case Unreachable(m) => Err(Error(FetchError, m))
    case Response(status, reason, url, payload) =>
      if RaisesForStatus(status) then Err(Error(FetchError, HttpErrorText(status, reason, url)))
      else match payload
        case Undecodable(m) => Err(Error(ParseError, m))
        case Entries(raw) => Normalize(raw, symbol, parse)
  }

  /** `fetch_binance_klines`: one GET, the status check, then a loop that
      appends one row per entry and stops at the first entry that raises. */
  method FetchBinanceKlines(symbol: string, interval: string, limit: int, network: Network, parse: FloatParse)
    returns (res: Result<seq<Row>, Error>)
    ensures res == Klines(symbol, interval, limit, network, parse)
  {
    var resp := network(RequestFor(symbol, interval, limit));
    if resp.Unreachable? {
      return Err(Error(FetchError, resp.message));
    }
    if RaisesForStatus(resp.status) {
      return Err(Error(FetchError, HttpErrorText(resp.status, resp.reason, resp.url)));
    }
    if resp.payload.Undecodable? {
      return Err(Error(ParseError, resp.payload.message));
    }
    var raw := resp.payload.entries;
    var rows: seq<Row> := [];
    var i := 0;
    while i < |raw|
      invariant 0 <= i <= |raw|
      invariant Normalize(raw[..i], symbol, parse) == Ok(rows)
    {
      var row := KlineRow(raw[i], symbol, parse);
      ConvertAllSnoc(raw, i, k => KlineRow(k, symbol, parse));
      if row.Err? {
        ConvertAllErrPersists(raw[..i + 1], raw[i + 1..], k => KlineRow(k, symbol, parse));
        assert raw[..i + 1] + raw[i + 1..] == raw;
        return Err(row.error);
      }
      rows := rows + [row.value];
      i := i + 1;
    }
    assert raw[..i] == raw;
    res := Ok(rows);
  }

  // ----- The table writer ---------------------------------------------------

  /** The arguments of one `client.insert_rows_json(table_ref, rows)` call. */
  datatype InsertRequest = InsertRequest(table: string, rows: seq<Row>)

  /** What `insert_rows_json` does: return its (possibly empty) list of
      per-row errors, each given as its Python repr, or raise. */
  datatype InsertReply = Returned(errors: seq<string>) | Raised(message: string)

  /** The BigQuery side: whether `bigquery.Client(...)` raises (and with what
      text), and how an insert call is answered. */
  datatype Warehouse = Warehouse(clientFailure: Option<string>, insert: InsertRequest -> InsertReply)

  /** A (message, status) pair as the HTTP function returns it. */
  datatype Reply = Reply(message: string, status: int)

  /** The outcome of `insert_rows_bigquery`: the pair it returns or the
      exception it raises, and the insert calls it made. */
  datatype WriteRun = WriteRun(result: Result<Reply, Error>, calls: seq<InsertRequest>)

  /** `a` is found in `b` starting at position `i`. */
  predicate OccursAt(a: string, b: string, i: int) {
    0 <= i <= |b| - |a| && b[i..i + |a|] == a
  }

  /** Python's `a in b` for strings. */
  ghost predicate Occurs(a: string, b: string) {
    exists i :: OccursAt(a, b, i)
  }

  function Join(items: seq<string>, sep: string): string {
    if items == [] then ""
    else if |items| == 1 then items[0]
    else Join(items[..|items| - 1], sep) + sep + items[|items| - 1]
  }

  /** Python's `str(list)` for a list whose elements have the given reprs. */
  function ListText(reprs: seq<string>): string {
    "[" + Join(reprs, ", ") + "]"
  }

  function InsertedText(count: nat, table: string): string {
    "Inserted " + DecimalString(count) + " rows into " + table
  }

  const InsertErrorsPrefix := "BigQuery insert errors: "

  /** `insert_rows_bigquery(rows)`. The client is constructed before the
      empty check, so a client that cannot be built fails even for no rows. */
  function InsertRowsBigQuery(cfg: Config, rows: seq<Row>, wh: Warehouse): (w: WriteRun)
    ensures w.calls == if wh.clientFailure.None? && rows != [] then [InsertRequest(TableRef(cfg), rows)] else []
    ensures wh.clientFailure.None? && rows == [] ==> w.result == Ok(Reply("No rows", 200))
    ensures w.result.Ok? ==> w.result.value.status == 200 || w.result.value.status == 500
    ensures w.result.Ok? && w.result.value.status == 200 <==>
      wh.clientFailure.None? && (rows == [] || wh.insert(InsertRequest(TableRef(cfg), rows)) == Returned([]))
    ensures w.result.Err? ==> w.result.error.stage == WriteError
    ensures wh.clientFailure.Some? ==> w.result == Err(Error(WriteError, wh.clientFailure.value))
    ensures wh.clientFailure.None? && rows != [] && wh.insert(InsertRequest(TableRef(cfg), rows)).Raised? ==>
      w.result == Err(Error(WriteError, wh.insert(InsertRequest(TableRef(cfg), rows)).message))
  {
    if wh.clientFailure.Some? then WriteRun(Err(Error(WriteError, wh.clientFailure.value)), [])
    else if rows == [] then WriteRun(Ok(Reply("No rows", 200)), [])
    else
      var request := InsertRequest(TableRef(cfg), rows);
      match wh.insert(request)
      case Raised(m) => WriteRun(Err(Error(WriteError, m)), [request])
      case Returned(errors) =>
        if errors != [] then WriteRun(Ok(Reply(InsertErrorsPrefix + ListText(errors), 500)), [request])
        else WriteRun(Ok(Reply(InsertedText(|rows|, TableRef(cfg)), 200)), [request])
  }

  // ----- The entry point ------------------------------------------------------

  /** What the HTTP function returns, and the insert calls made on the way. */
  datatype Exchange = Exchange(reply: Reply, inserts: seq<InsertRequest>)

  /** `ingest_binance_to_bq(request)`: fetch with the configured symbol,
      interval and limit, then write; any exception becomes `(str(e), 500)`.
      The incoming request is ignored, so it is not a parameter. */
  function IngestBinanceToBq(gcpProject: Option<string>, network: Network, parse: FloatParse, wh: Warehouse): (x: Exchange)
    ensures x.reply.status == 200 || x.reply.status == 500
    ensures var fetched := Klines(Settings(gcpProject).symbol, Settings(gcpProject).interval, Settings(gcpProject).limit, network, parse);
      fetched.Err? ==> x == Exchange(Reply(fetched.error.message, 500), [])
  {
    var cfg := Settings(gcpProject);
    match Klines(cfg.symbol, cfg.interval, cfg.limit, network, parse)
    case Err(e) => Exchange(Reply(e.message, 500), [])
    case Ok(rows) =>
      var w := InsertRowsBigQuery(cfg, rows, wh);
      match w.result
      case Err(e) => Exchange(Reply(e.message, 500), w.calls)
      case Ok(r) => Exchange(r, w.calls)
  }

  // ----- Lemmas: normalisation ------------------------------------------------

  /** Converting one more element: its result is appended, or its error
      ends the conversion. */
  lemma ConvertAllSnoc<A, B>(xs: seq<A>, i: nat, f: A -> Result<B, Error>)
    requires i < |xs| && ConvertAll(xs[..i], f).Ok?
    ensures ConvertAll(xs[..i + 1], f) ==
      if f(xs[i]).Ok? then Ok(ConvertAll(xs[..i], f).value + [f(xs[i]).value]) else Err(f(xs[i]).error)
  {
    assert xs[..i + 1][..i] == xs[..i];
  }

  /** Once an element has failed, more elements do not change the outcome. */
  lemma {:induction false} ConvertAllErrPersists<A, B>(p: seq<A>, q: seq<A>, f: A -> Result<B, Error>)
    requires ConvertAll(p, f).Err?
    ensures ConvertAll(p + q, f) == ConvertAll(p, f)
    decreases |q|
  {
    if q != [] {
      var q' := q[..|q| - 1];
      ConvertAllErrPersists(p, q', f);
      assert (p + q)[..|p + q| - 1] == p + q';
    } else {
      assert p + q == p;
    }
  }

  /** The conversion succeeds exactly when `f` succeeds on every element, and
      then gives one result per element, in order. */
  lemma {:induction false} ConvertAllCountAndOrder<A, B>(xs: seq<A>, f: A -> Result<B, Error>)
    ensures ConvertAll(xs, f).Ok? <==> forall i :: 0 <= i < |xs| ==> f(xs[i]).Ok?
    ensures ConvertAll(xs, f).Ok? ==>
      var ys := ConvertAll(xs, f).value;
      |ys| == |xs| && forall i :: 0 <= i < |xs| ==> f(xs[i]) == Ok(ys[i])
  {
    if xs != [] {
      var p := xs[..|xs| - 1];
      ConvertAllCountAndOrder(p, f);
      assert forall i :: 0 <= i < |p| ==> xs[i] == p[i];
      if ConvertAll(p, f).Err? {
        var j :| 0 <= j < |p| && !f(p[j]).Ok?;
        assert !f(xs[j]).Ok?;
      }
    }
  }

  /** Element `j` is the first on which `f` fails. */
  predicate FirstFailure<A, B>(xs: seq<A>, f: A -> Result<B, Error>, j: int)
    requires 0 <= j < |xs|
  {
    f(xs[j]).Err? && forall i :: 0 <= i < j ==> f(xs[i]).Ok?
  }

  /** A failed conversion reports the error of the first element that fails. */
  lemma {:induction false} ConvertAllFirstFailure<A, B>(xs: seq<A>, f: A -> Result<B, Error>)
    requires ConvertAll(xs, f).Err?
    ensures exists j :: 0 <= j < |xs| && FirstFailure(xs, f, j) && f(xs[j]) == Err(ConvertAll(xs, f).error)
  {
    var p := xs[..|xs| - 1];
    if ConvertAll(p, f).Err? {
      ConvertAllFirstFailure(p, f);
      var j :| 0 <= j < |p| && FirstFailure(p, f, j) && f(p[j]) == Err(ConvertAll(p, f).error);
      assert forall i :: 0 <= i <= j ==> xs[i] == p[i];
      assert FirstFailure(xs, f, j);
    } else {
      ConvertAllCountAndOrder(p, f);
      var j := |xs| - 1;
      assert forall i :: 0 <= i < j ==> xs[i] == p[i];
      assert FirstFailure(xs, f, j);
    }
  }

  /** Normalisation succeeds exactly when every entry converts, and then gives
      one row per entry, in the order of the entries. */
  lemma NormalizeCountAndOrder(raw: seq<seq<Scalar>>, symbol: string, parse: FloatParse)
    ensures Normalize(raw, symbol, parse).Ok? <==> forall i :: 0 <= i < |raw| ==> KlineRow(raw[i], symbol, parse).Ok?
    ensures Normalize(raw, symbol, parse).Ok? ==>
      var rows := Normalize(raw, symbol, parse).value;
      |rows| == |raw| && forall i :: 0 <= i < |raw| ==> KlineRow(raw[i], symbol, parse) == Ok(rows[i])
  {
    ConvertAllCountAndOrder(raw, k => KlineRow(k, symbol, parse));
  }

  /** A failed normalisation reports the error of the first entry that fails;
      no rows are returned. */
  lemma NormalizeFirstFailure(raw: seq<seq<Scalar>>, symbol: string, parse: FloatParse)
    requires Normalize(raw, symbol, parse).Err?
    ensures exists j :: 0 <= j < |raw| && FirstFailure(raw, k => KlineRow(k, symbol, parse), j)
                     && KlineRow(raw[j], symbol, parse) == Err(Normalize(raw, symbol, parse).error)
  {
    ConvertAllFirstFailure(raw, k => KlineRow(k, symbol, parse));
  }

  /** Every row carries the configured symbol. */
  lemma RowsCarrySymbol(raw: seq<seq<Scalar>>, symbol: string, parse: FloatParse)
    requires Normalize(raw, symbol, parse).Ok?
    ensures forall r :: r in Normalize(raw, symbol, parse).value ==> r.symbol == symbol
  {
    NormalizeCountAndOrder(raw, symbol, parse);
    var rows := Normalize(raw, symbol, parse).value;
    forall r | r in rows ensures r.symbol == symbol {
      var i :| 0 <= i < |rows| && rows[i] == r;
      KlineRowFields(raw[i], symbol, parse);
    }
  }

  /** Field `i` exists and `float()` accepts it. */
  predicate FieldParses(k: seq<Scalar>, i: int, parse: FloatParse) {
    0 <= i < |k| && parse(k[i]).Ok?
  }

  /** The numbers are read from fields `j` .. `j + n - 1` in order; reading
      succeeds exactly when all those fields exist and `float()` accepts them. */
  lemma {:induction false} NumbersFromFields(k: seq<Scalar>, j: nat, n: nat, parse: FloatParse)
    ensures NumbersFrom(k, j, n, parse).Ok? <==>
      forall i :: j <= i < j + n ==> FieldParses(k, i, parse)
    ensures NumbersFrom(k, j, n, parse).Ok? ==>
      forall i :: 0 <= i < n ==> FieldParses(k, j + i, parse) && NumbersFrom(k, j, n, parse).value[i] == parse(k[j + i]).value
    decreases n
  {
    if n > 0 {
      NumbersFromFields(k, j + 1, n - 1, parse);
      var rest := NumbersFrom(k, j + 1, n - 1, parse);
      assert NumbersFrom(k, j, n, parse).Ok? <==> FieldParses(k, j, parse) && rest.Ok?;
      if FieldParses(k, j, parse) && rest.Ok? {
        var vs := NumbersFrom(k, j, n, parse).value;
        assert vs == [parse(k[j]).value] + rest.value;
        forall i | 0 <= i < n
          ensures FieldParses(k, j + i, parse) && vs[i] == parse(k[j + i]).value
        {
          if i > 0 {
            assert vs[i] == rest.value[i - 1];
            assert j + 1 + (i - 1) == j + i;
          }
        }
      }
    }
  }

  /** Field 0 gives a timestamp exactly when it is a whole number a datetime
      can hold, and the text then denotes exactly that many milliseconds. */
  lemma TimeTextDenotes(x: Scalar)
    ensures TimeText(x).Ok? <==> x.Int? && UtcFromMillis(x.i).Some?
    ensures TimeText(x).Ok? ==>
      && ParseIso(TimeText(x).value) == UtcFromMillis(x.i)
      && ToMillis(ParseIso(TimeText(x).value).value) == x.i
  {
    if x.Int? && UtcFromMillis(x.i).Some? {
      MillisRoundTrip(x.i);
      ParseFormatIso(UtcFromMillis(x.i).value);
    }
  }

  /** An entry converts exactly when it has six fields, a whole-number time
      that a datetime can hold, and five fields `float()` accepts. The row
      takes its prices and volume from fields 1 to 5 in order, its symbol from
      the configuration, and its `ts` text denotes exactly the instant of
      field 0 in milliseconds. */
  lemma KlineRowFields(k: seq<Scalar>, symbol: string, parse: FloatParse)
    ensures KlineRow(k, symbol, parse).Ok? <==>
      && |k| >= 6 && k[0].Int? && UtcFromMillis(k[0].i).Some?
      && forall j :: 1 <= j <= 5 ==> FieldParses(k, j, parse)
    ensures KlineRow(k, symbol, parse).Ok? ==>
      var r := KlineRow(k, symbol, parse).value;
      && r.symbol == symbol
      && r.open == parse(k[1]).value && r.high == parse(k[2]).value && r.low == parse(k[3]).value
      && r.close == parse(k[4]).value && r.volume == parse(k[5]).value
      && ParseIso(r.ts) == UtcFromMillis(k[0].i)
      && ToMillis(ParseIso(r.ts).value) == k[0].i
  {
    NumbersFromFields(k, 1, 5, parse);
    if |k| > 0 {
      TimeTextDenotes(k[0]);
      var v := NumbersFrom(k, 1, 5, parse);
      if TimeText(k[0]).Ok? && v.Ok? {
        assert FieldParses(k, 5, parse);
        assert KlineRow(k, symbol, parse).value
          == Row(TimeText(k[0]).value, symbol, v.value[0], v.value[1], v.value[2], v.value[3], v.value[4]);
      }
    }
  }

  /** Fields after the sixth are never read. */
  lemma KlineRowIgnoresExtraFields(k: seq<Scalar>, extra: seq<Scalar>, symbol: string, parse: FloatParse)
    requires |k| == 6
    ensures KlineRow(k + extra, symbol, parse) == KlineRow(k, symbol, parse)
  {
    var k' := k + extra;
    assert forall j :: 0 <= j < 6 ==> k'[j] == k[j];
    NumbersFromFields(k, 1, 5, parse);
    NumbersFromFields(k', 1, 5, parse);
    if NumbersFrom(k, 1, 5, parse).Ok? {
      assert NumbersFrom(k', 1, 5, parse).value == NumbersFrom(k, 1, 5, parse).value;
    }
  }

  /** A Binance kline opened at 1700000000000 ms becomes a row stamped
      2023-11-14T22:13:20+00:00 with fields 1 to 5 as open, high, low, close
      and volume. */
  lemma KlineExample(symbol: string, parse: FloatParse, rest: seq<Scalar>)
    requires parse(Str("105.0")).Ok? && parse(Str("110.0")).Ok? && parse(Str("100.0")).Ok?
    requires parse(Str("108.0")).Ok? && parse(Str("50.0")).Ok?
    ensures var k := [Int(1700000000000), Str("105.0"), Str("110.0"), Str("100.0"), Str("108.0"), Str("50.0")] + rest;
      KlineRow(k, symbol, parse) == Ok(Row("2023-11-14T22:13:20+00:00", symbol,
        parse(Str("105.0")).value, parse(Str("110.0")).value, parse(Str("100.0")).value,
        parse(Str("108.0")).value, parse(Str("50.0")).value))
  {
    var head := [Int(1700000000000), Str("105.0"), Str("110.0"), Str("100.0"), Str("108.0"), Str("50.0")];
    KlineRowIgnoresExtraFields(head, rest, symbol, parse);
    ExampleInstant();
    ExampleText();
  }

  // ----- Lemmas: fetch ------------------------------------------------------

  /** The fetch succeeds exactly when the exchange answers with a status
      `raise_for_status` lets through, a list of entries, and every entry
      converts; it then yields one row per entry, in order, whatever the
      configured limit (nothing is truncated or reordered). */
  lemma KlinesOutcome(symbol: string, interval: string, limit: int, network: Network, parse: FloatParse)
    ensures var reply := network(RequestFor(symbol, interval, limit));
      Klines(symbol, interval, limit, network, parse).Ok? <==>
        && reply.Response? && !RaisesForStatus(reply.status) && reply.payload.Entries?
        && forall i :: 0 <= i < |reply.payload.entries| ==> KlineRow(reply.payload.entries[i], symbol, parse).Ok?
    ensures var reply := network(RequestFor(symbol, interval, limit));
      Klines(symbol, interval, limit, network, parse).Ok? ==>
        var rows := Klines(symbol, interval, limit, network, parse).value;
        |rows| == |reply.payload.entries|
        && forall i :: 0 <= i < |rows| ==> KlineRow(reply.payload.entries[i], symbol, parse) == Ok(rows[i])
  {
    var reply := network(RequestFor(symbol, interval, limit));
    if reply.Response? && reply.payload.Entries? {
      NormalizeCountAndOrder(reply.payload.entries, symbol, parse);
    }
  }

  /** A transport failure or an error status fails the fetch before any entry
      is looked at. */
  lemma KlinesFetchFailure(symbol: string, interval: string, limit: int, network: Network, parse: FloatParse)
    requires var reply := network(RequestFor(symbol, interval, limit));
      reply.Unreachable? || RaisesForStatus(reply.status)
    ensures Klines(symbol, interval, limit, network, parse).Err?
    ensures Klines(symbol, interval, limit, network, parse).error.stage == FetchError
  {
  }

  // ----- Lemmas: writer -------------------------------------------------------

  lemma {:induction false} JoinContains(items: seq<string>, sep: string, k: nat)
    requires k < |items|
    ensures Occurs(items[k], Join(items, sep))
  {
    var s := Join(items, sep);
    if |items| == 1 {
      assert OccursAt(items[k], s, 0);
    } else {
      var p := items[..|items| - 1];
      var sp := Join(p, sep);
      assert s == sp + sep + items[|items| - 1];
      if k == |items| - 1 {
        var i := |sp| + |sep|;
        assert s[i..i + |items[k]|] == items[k];
        assert OccursAt(items[k], s, i);
      } else {
        JoinContains(p, sep, k);
        var i :| OccursAt(p[k], sp, i);
        assert s[i..i + |items[k]|] == sp[i..i + |p[k]|];
        assert OccursAt(items[k], s, i);
      }
    }
  }

  /** Rejected rows give status 500 and a message that names every error. */
  lemma InsertErrorsReported(cfg: Config, rows: seq<Row>, wh: Warehouse)
    requires wh.clientFailure.None? && rows != []
    requires wh.insert(InsertRequest(TableRef(cfg), rows)).Returned?
    requires wh.insert(InsertRequest(TableRef(cfg), rows)).errors != []
    ensures var errors := wh.insert(InsertRequest(TableRef(cfg), rows)).errors;
      var reply := InsertRowsBigQuery(cfg, rows, wh).result;
      && reply.Ok? && reply.value.status == 500
      && reply.value.message[..|InsertErrorsPrefix|] == InsertErrorsPrefix
      && forall k :: 0 <= k < |errors| ==> Occurs(errors[k], reply.value.message)
  {
    var errors := wh.insert(InsertRequest(TableRef(cfg), rows)).errors;
    var m := InsertRowsBigQuery(cfg, rows, wh).result.value.message;
    var joined := Join(errors, ", ");
    var off := |InsertErrorsPrefix| + 1;
    assert m == InsertErrorsPrefix + "[" + joined + "]";
    forall k | 0 <= k < |errors|
      ensures Occurs(errors[k], m)
    {
      JoinContains(errors, ", ", k);
      var i :| OccursAt(errors[k], joined, i);
      assert m[off + i..off + i + |errors[k]|] == joined[i..i + |errors[k]|];
      assert OccursAt(errors[k], m, off + i);
    }
  }

  /** An accepted insert gives status 200 and a message naming the number of
      rows and the `project.dataset.table` they went into. */
  lemma InsertedReported(cfg: Config, rows: seq<Row>, wh: Warehouse)
    requires wh.clientFailure.None? && rows != []
    requires wh.insert(InsertRequest(TableRef(cfg), rows)) == Returned([])
    ensures var reply := InsertRowsBigQuery(cfg, rows, wh).result;
      reply.Ok? && reply.value.status == 200
      && exists count: string ::
        && reply.value.message == "Inserted " + count + " rows into " + cfg.projectId + "." + cfg.datasetId + "." + cfg.tableId
        && AllDigits(count) && DigitsValue(count) == |rows|
        && (|count| > 1 ==> count[0] != '0')
  {
    DecimalStringValue(|rows|);
    var count := DecimalString(|rows|);
    assert InsertRowsBigQuery(cfg, rows, wh).result.value.message
      == "Inserted " + count + " rows into " + cfg.projectId + "." + cfg.datasetId + "." + cfg.tableId;
  }

  /** Without GCP_PROJECT the rows go to bitcoin-480204.crypto.btc_ohlc_1m. */
  lemma DefaultTable()
    ensures TableRef(Settings(None)) == "bitcoin-480204.crypto.btc_ohlc_1m"
  {
  }

  // ----- Lemmas: entry point --------------------------------------------------

  /** When the fetch succeeds, the writer's outcome is what the entry point
      reports: its pair unchanged, or `(str(e), 500)` for its exception. */
  lemma IngestPassesWriterOutcome(gcpProject: Option<string>, network: Network, parse: FloatParse, wh: Warehouse)
    requires var cfg := Settings(gcpProject);
      Klines(cfg.symbol, cfg.interval, cfg.limit, network, parse).Ok?
    ensures var cfg := Settings(gcpProject);
      var rows := Klines(cfg.symbol, cfg.interval, cfg.limit, network, parse).value;
      var w := InsertRowsBigQuery(cfg, rows, wh);
      var x := IngestBinanceToBq(gcpProject, network, parse, wh);
      && x.inserts == w.calls
      && (w.result.Ok? ==> x.reply == w.result.value)
      && (w.result.Err? ==> x.reply == Reply(w.result.error.message, 500))
  {
  }

  /** The entry point answers 200 exactly when the fetch succeeds and the
      write either had no rows or had every row accepted. */
  lemma IngestSucceeds(gcpProject: Option<string>, network: Network, parse: FloatParse, wh: Warehouse)
    ensures var cfg := Settings(gcpProject);
      var fetched := Klines(cfg.symbol, cfg.interval, cfg.limit, network, parse);
      IngestBinanceToBq(gcpProject, network, parse, wh).reply.status == 200 <==>
        && fetched.Ok? && wh.clientFailure.None?
        && (fetched.value == [] || wh.insert(InsertRequest(TableRef(cfg), fetched.value)) == Returned([]))
  {
  }
}
