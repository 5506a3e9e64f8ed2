/** The HTTP query server (Task5/src/server.cpp). It reads one request, takes
    `GET …/data?…` with parameters table, start, end and last, and answers with the
    newest row of a table or the rows between two stamps. Any other request gets
    404. Replies are plain text framed as HTTP/1.1. Sockets, threads and the
    database mutex are not modelled: a request is the text recv delivered, and the
    database is a map from lower-case table names to their rows. */
module QueryServer {
  import opened Strings
  import opened Timestamps
  import opened StampOrder
  import opened TableAggregator
  import opened FormEncoding

  /** The receive buffer. recv fills at most one byte fewer, which leaves room for
      the terminating NUL. */
  const BufferSize: nat := 1024

  /** The tables the server can read, by name folded to lower case: SQLite matches a
      table name ignoring the case of ASCII letters, quoted or not. */
  type Database = map<string, Rows>

  /** An ASCII letter in lower case; every other character as it is. */
  function Lower(c: char): (r: char)
    ensures 'a' <= r <= 'z' <==> 'a' <= c <= 'z' || 'A' <= c <= 'Z'
    ensures !('A' <= c <= 'Z') ==> r == c
  {
    if 'A' <= c <= 'Z' then (c as int + 32) as char else c
  }

  /** A name as SQLite compares it. */
  function Fold(name: string): (r: string)
    ensures |r| == |name| && forall k | 0 <= k < |name| :: r[k] == Lower(name[k])
  {
    seq(|name|, k requires 0 <= k < |name| => Lower(name[k]))
  }

  /** The rows of the table a name denotes. */
  function TableRows(db: Database, table: string): Rows
    requires Fold(table) in db
  {
    db[Fold(table)]
  }

  // ---- The request line ----

  /** `requestStream >> method >> path >> protocol`. */
  function RequestLine(request: string): (r: (string, string, string))
    ensures forall k | 0 <= k < |r.0| :: !IsSpace(r.0[k])
    ensures forall k | 0 <= k < |r.1| :: !IsSpace(r.1[k])
  {
    var (verb, rest) := ReadWord(request);
    var (path, rest') := ReadWord(rest);
    var (protocol, _) := ReadWord(rest');
    (verb, path, protocol)
  }

  /** The request line a client writes. */
  function RequestText(verb: string, path: string, protocol: string): string {
    verb + " " + path + " " + protocol
  }

  predicate IsWord(w: string) {
    w != [] && forall k | 0 <= k < |w| :: !IsSpace(w[k])
  }

  /** The request line reads back as the three words it was written from, whatever
      white space follows it. */
  lemma RequestLineRoundTrip(verb: string, path: string, protocol: string, rest: string)
    requires IsWord(verb) && IsWord(path) && IsWord(protocol)
    requires rest == [] || IsSpace(rest[0])
    ensures RequestLine(RequestText(verb, path, protocol) + rest) == (verb, path, protocol)
  {
    var r3 := " " + protocol + rest;
    var r2 := " " + path + r3;
    assert RequestText(verb, path, protocol) + rest == [] + verb + r2;
    ReadWordOf([], verb, r2);
    assert r2 == " " + path + r3;
    ReadWordOf(" ", path, r3);
    assert r3 == " " + protocol + rest;
    ReadWordOf(" ", protocol, rest);
  }

  // ---- Routing and the query string ----

  /** The one endpoint: a GET whose path holds "/data?" anywhere. */
  predicate IsDataRequest(verb: string, path: string) {
    verb == "GET" && Contains(path, "/data?")
  }

  /** `path.substr(path.find('?') + 1)`: the text after the first '?'. Without one,
      npos + 1 wraps to 0 and the whole path is taken. */
  function QueryOf(path: string): (r: string)
    ensures '?' in path ==> |r| < |path| && r == path[|path| - |r|..] && path[|path| - |r| - 1] == '?'
    ensures '?' in path ==> '?' !in path[..|path| - |r| - 1]
    ensures '?' !in path ==> r == path
  {
    match Find(path, '?')
      case None => path
      case Some(i) => path[i + 1..]
  }

  /** The four parameters the server looks for; an absent one is empty. */
  datatype Params = Params(table: string, start: string, end: string, last: string)

  const NoParams: Params := Params("", "", "", "")

  /** A `key=value` piece split at its first '='; None when it has no '='. */
  function KeyValue(param: string): (r: Option<(string, string)>)
    ensures r.None? <==> '=' !in param
    ensures r.Some? ==> param == r.value.0 + "=" + r.value.1 && '=' !in r.value.0
  {
    match Find(param, '=')
      case None => None
      case Some(i) =>
        assert param == param[..i] + "=" + param[i + 1..];
        Some((param[..i], param[i + 1..]))
  }

  /** One piece applied to the parameters read so far; a later piece overwrites. */
  function Assign(p: Params, param: string): Params {
    match KeyValue(param)
      case None => p
      case Some((key, value)) =>
        if key == "table" then p.(table := value)
        else if key == "start" then p.(start := value)
        else if key == "end" then p.(end := value)
        else if key == "last" then p.(last := value)
        else p
  }

  /** The pieces applied in order. */
  function AssignAll(p: Params, params: seq<string>): Params
    decreases |params|
  {
    if params == [] then p else AssignAll(Assign(p, params[0]), params[1..])
  }

  /** The parameters of a query string. */
  function ParamsOf(query: string): Params {
    AssignAll(NoParams, GetlinePieces(query, '&'))
  }

  /** The getline loop over the '&'-separated pieces. */
  method ParseQuery(query: string) returns (p: Params)
    ensures p == ParamsOf(query)
  {
    var pieces := GetlinePieces(query, '&');
    p := NoParams;
    var i := 0;
    while i < |pieces|
      invariant 0 <= i <= |pieces|
      invariant AssignAll(p, pieces[i..]) == ParamsOf(query)
    {
      var param := pieces[i];
      assert pieces[i..] == [param] + pieces[i + 1..];
      var equalsPos := Find(param, '=');
      if equalsPos.Some? {
        var key := param[..equalsPos.value];
        var value := param[equalsPos.value + 1..];
        if key == "table" {
          p := p.(table := value);
        } else if key == "start" {
          p := p.(start := value);
        } else if key == "end" {
          p := p.(end := value);
        } else if key == "last" {
          p := p.(last := value);
        }
      }
      i := i + 1;
    }
    assert pieces[i..] == [];
  }

  /** Reference reading of a parameter: the value of the last piece naming `key`, or
      `absent` when no piece does. */
  function LastValue(params: seq<string>, key: string, absent: string): string
    decreases |params|
  {
    if params == [] then absent
    else
      var kv := KeyValue(params[|params| - 1]);
      if kv.Some? && kv.value.0 == key then kv.value.1
      else LastValue(params[..|params| - 1], key, absent)
  }

  lemma {:induction false} AssignAllSnoc(p: Params, params: seq<string>, param: string)
    ensures AssignAll(p, params + [param]) == Assign(AssignAll(p, params), param)
    decreases |params|
  {
    if params == [] {
      assert [] + [param] == [param];
    } else {
      assert (params + [param])[1..] == params[1..] + [param];
      AssignAllSnoc(Assign(p, params[0]), params[1..], param);
    }
  }

  /** Each parameter is the value of the last piece that names it: later pieces win,
      and pieces without '=' or with other keys are ignored. */
  lemma {:induction false} AssignAllIsLast(p: Params, params: seq<string>)
    ensures AssignAll(p, params) == Params(LastValue(params, "table", p.table), LastValue(params, "start", p.start),
                                           LastValue(params, "end", p.end), LastValue(params, "last", p.last))
    decreases |params|
  {
    if params != [] {
      var init := params[..|params| - 1];
      var param := params[|params| - 1];
      assert params == init + [param];
      AssignAllSnoc(p, init, param);
      AssignAllIsLast(p, init);
    }
  }

  /** The query's parameters as the reference reading gives them. */
  lemma ParamsAreLastValues(query: string)
    ensures var pieces := GetlinePieces(query, '&');
      ParamsOf(query) == Params(LastValue(pieces, "table", ""), LastValue(pieces, "start", ""),
                                LastValue(pieces, "end", ""), LastValue(pieces, "last", ""))
  {
    AssignAllIsLast(NoParams, GetlinePieces(query, '&'));
  }

  // ---- Dispatch ----

  /** What a data request asks for. */
  datatype Action =
    | MissingTable
    | LastRecord(table: string)
    | RangeRecords(table: string, start: string, end: string)
    | InvalidParameters

  function Dispatch(p: Params): (a: Action)
    ensures a == MissingTable <==> p.table == []
    ensures a.LastRecord? <==> p.table != [] && p.last == "true"
    ensures a.RangeRecords? <==> p.table != [] && p.last != "true" && p.start != [] && p.end != []
    ensures a.LastRecord? ==> a.table == p.table
    ensures a.RangeRecords? ==> a == RangeRecords(p.table, p.start, p.end)
  {
    if p.table == [] then MissingTable
    else if p.last != [] && p.last == "true" then LastRecord(p.table)
    else if p.start != [] && p.end != [] then RangeRecords(p.table, p.start, p.end)
    else InvalidParameters
  }

  /** How the server treats one received chunk. */
  datatype Route = Silent | NotFound | Data(action: Action)

  function RouteOf(chunk: string): Route {
    if chunk == [] then Silent
    else
      var (verb, path, _) := RequestLine(CString(chunk));
      if IsDataRequest(verb, path) then Data(Dispatch(ParamsOf(QueryOf(path)))) else NotFound
  }

  /** Each value form-decoded, as a server that undoes its clients' encoding reads it. */
  function DecodedParams(p: Params): Params {
    Params(Decode(p.table), Decode(p.start), Decode(p.end), Decode(p.last))
  }

  /** RouteOf with every parameter value form-decoded before dispatch. */
  function RouteOfDecoded(chunk: string): Route {
    if chunk == [] then Silent
    else
      var (verb, path, _) := RequestLine(CString(chunk));
      if IsDataRequest(verb, path) then Data(Dispatch(DecodedParams(ParamsOf(QueryOf(path))))) else NotFound
  }

  // ---- Reply bodies ----

  /** Whether a statement naming the table compiles: the table exists, and its name,
      quoted in double quotes, stays one identifier. */
  predicate Prepares(db: Database, table: string) {
    Fold(table) in db && '"' !in table
  }

  const SqlError: string := "Error executing request"

  /** One row of a reply; `toText` is std::to_string on a double. */
  function RecordLine(date: string, temperature: real, toText: real -> string): string {
    "Date: " + date + ", Temperature: " + toText(temperature) + "\n"
  }

  /** handleLastRecordRequest: the newest row, if any, after a heading. */
  function LastRecordBody(db: Database, table: string, toText: real -> string): string {
    if !Prepares(db, table) then SqlError
    else
      "Latest record:\n" +
      match MaxKey(TableRows(db, table))
        case None => ""
        case Some(k) => RecordLine(k, TableRows(db, table)[k], toText)
  }

  /** The rows as sqlite3_step hands them over. */
  type Records = seq<(string, real)>

  function Dates(records: Records): (r: seq<string>)
    ensures |r| == |records| && forall i | 0 <= i < |records| :: r[i] == records[i].0
  {
    seq(|records|, i requires 0 <= i < |records| => records[i].0)
  }

  /** The records are exactly the rows under `keys`, each once, in some order: the
      query has no ORDER BY. */
  predicate Lists(records: Records, rows: Rows, keys: set<string>) {
    && multiset(Dates(records)) == multiset(keys)
    && forall i | 0 <= i < |records| :: records[i].0 in rows && rows[records[i].0] == records[i].1
  }

  function RecordLines(records: Records, toText: real -> string): string
    decreases |records|
  {
    if records == [] then ""
    else
      var last := records[|records| - 1];
      RecordLines(records[..|records| - 1], toText) + RecordLine(last.0, last.1, toText)
  }

  /** handleRangeRequest's body for the rows it stepped through. */
  function RangeText(records: Records, toText: real -> string): string {
    "Temperature data:\n" + RecordLines(records, toText)
  }

  /** handleRangeRequest: the rows whose stamps lie between `start` and `end`, in the
      order the engine yields them. */
  method HandleRange(db: Database, table: string, start: string, end: string, toText: real -> string)
    returns (body: string, records: Records)
    ensures !Prepares(db, table) ==> body == SqlError
    ensures Prepares(db, table) ==> Lists(records, TableRows(db, table), Window(TableRows(db, table), start, end))
    ensures Prepares(db, table) ==> body == RangeText(records, toText)
  {
    records := [];
    if !Prepares(db, table) {
      return SqlError, records;
    }
    var rows := TableRows(db, table);
    var window := Window(rows, start, end);
    var pending := window;
    body := "Temperature data:\n";
    while pending != {}
      invariant pending <= window
      invariant Listing(records, pending, rows, window)
      invariant body == RangeText(records, toText)
      decreases |pending|
    {
      var date :| date in pending;
      var temperature := rows[date];
      body := body + RecordLine(date, temperature, toText);
      RecordStep(records, pending, rows, window, date, toText);
      records := records + [(date, temperature)];
      pending := pending - {date};
    }
    ListingDone(records, rows, window);
  }

  /** The range loop's invariant: the rows listed so far and the rows still pending
      together make up the window, and every listed row is a row of the table. */
  predicate Listing(records: Records, pending: set<string>, rows: Rows, window: set<string>) {
    && multiset(Dates(records)) + multiset(pending) == multiset(window)
    && forall i | 0 <= i < |records| :: records[i].0 in rows && rows[records[i].0] == records[i].1
  }

  /** One step of the range loop keeps its invariant. */
  lemma RecordStep(records: Records, pending: set<string>, rows: Rows, window: set<string>, date: string,
                   toText: real -> string)
    requires Listing(records, pending, rows, window) && date in pending && date in rows
    ensures Listing(records + [(date, rows[date])], pending - {date}, rows, window)
    ensures RangeText(records + [(date, rows[date])], toText) == RangeText(records, toText) + RecordLine(date, rows[date], toText)
    ensures |pending - {date}| < |pending|
  {
    var next := records + [(date, rows[date])];
    assert Dates(next) == Dates(records) + [date];
    assert pending == (pending - {date}) + {date};
    assert next[..|records|] == records;
    assert forall i | 0 <= i < |next| :: next[i] == if i < |records| then records[i] else (date, rows[date]);
  }

  /** With nothing pending, the listed rows are the window. */
  lemma ListingDone(records: Records, rows: Rows, window: set<string>)
    requires Listing(records, {}, rows, window)
    ensures Lists(records, rows, window)
  {
    var none: set<string> := {};
    assert multiset(none) == multiset{};
  }

  // ---- Replies ----

  /** Status line, body, and whether the socket is closed afterwards. The two 400
      replies return before closesocket. */
  datatype Reply = Reply(status: string, body: string, closesSocket: bool)

  function Ok(body: string): Reply { Reply("200 OK", body, true) }
  function BadRequest(message: string): Reply { Reply("400 Bad Request", message, false) }
  const NotFoundReply: Reply := Reply("404 Not Found", "Endpoint not found.", true)

  /** The reply to a route; `records` are the rows a range query stepped through. */
  function Respond(route: Route, db: Database, records: Records, toText: real -> string): Option<Reply> {
    match route
      case Silent => None
      case NotFound => Some(NotFoundReply)
      case Data(MissingTable) => Some(BadRequest("Missing table name."))
      case Data(InvalidParameters) => Some(BadRequest("Invalid or missing parameters."))
      case Data(LastRecord(table)) => Some(Ok(LastRecordBody(db, table, toText)))
      case Data(RangeRecords(table, start, end)) =>
        Some(Ok(if Prepares(db, table) then RangeText(records, toText) else SqlError))
  }

  /** The rows a range reply lists are the rows of its window. */
  predicate RangeListed(route: Route, db: Database, records: Records) {
    route.Data? && route.action.RangeRecords? && Prepares(db, route.action.table) ==>
      Lists(records, TableRows(db, route.action.table), Window(TableRows(db, route.action.table), route.action.start, route.action.end))
  }

  /** handleClient on the bytes one recv delivered: nothing when recv failed or the
      peer closed, otherwise one reply. */
  method HandleClient(chunk: string, db: Database, toText: real -> string)
    returns (reply: Option<Reply>, records: Records)
    requires |chunk| <= BufferSize - 1
    ensures reply == Respond(RouteOf(chunk), db, records, toText)
    ensures RangeListed(RouteOf(chunk), db, records)
  {
    records := [];
    if chunk == [] {
      return None, records;
    }
    var isData, p := ReadRequest(chunk);
    reply, records := Answer(isData, p, db, toText);
  }

  /** The part of handleClient that reads the request line and the query. */
  method ReadRequest(chunk: string) returns (isData: bool, p: Params)
    requires chunk != []
    ensures RouteOf(chunk) == if isData then Data(Dispatch(p)) else NotFound
  {
    var buffer := CString(chunk);
    var (verb, path, protocol) := RequestLine(buffer);
    if verb == "GET" && Contains(path, "/data?") {
      var query := QueryOf(path);
      p := ParseQuery(query);
      isData := true;
    } else {
      p := NoParams;
      isData := false;
    }
  }

  /** The part of handleClient that answers: 404 unless it is a data request. */
  method Answer(isData: bool, p: Params, db: Database, toText: real -> string)
    returns (reply: Option<Reply>, records: Records)
    ensures reply == Respond(if isData then Data(Dispatch(p)) else NotFound, db, records, toText)
    ensures RangeListed(if isData then Data(Dispatch(p)) else NotFound, db, records)
  {
    records := [];
    if !isData {
      return Some(NotFoundReply), records;
    }
    if p.table == [] {
      return Some(BadRequest("Missing table name.")), records;
    }
    if p.last != [] && p.last == "true" {
      reply := Some(Ok(LastRecordBody(db, p.table, toText)));
    } else if p.start != [] && p.end != [] {
      var body;
      body, records := HandleRange(db, p.table, p.start, p.end, toText);
      reply := Some(Ok(body));
    } else {
      return Some(BadRequest("Invalid or missing parameters.")), records;
    }
  }

  // ---- Framing (sendResponse) ----

  const StatusPrefix: string := "HTTP/1.1 "
  const CRLF: string := "\r\n"
  const Headers: string := "Content-Type: text/plain\r\nConnection: close\r\n\r\n"

  /** The bytes sendResponse writes. */
  function Frame(status: string, body: string): string {
    StatusPrefix + status + CRLF + Headers + body
  }

  /** A client's reading of a response: the status up to the first CR, and the body
      after the fixed headers. */
  function Unframe(response: string): Option<(string, string)> {
    Split(response, StatusPrefix, CRLF + Headers)
  }

  /** Text framed as `prefix + middle + tail + rest`, with `tail` starting at the
      first CR after the prefix: None when it does not have that shape. */
  function Split(response: string, prefix: string, tail: string): Option<(string, string)> {
    if !IsPrefix(prefix, response) then None
    else
      var r := response[|prefix|..];
      match Find(r, '\r')
        case None => None
        case Some(i) =>
          if IsPrefix(tail, r[i..]) then Some((r[..i], r[i + |tail|..])) else None
  }

  lemma SplitRoundTrip(prefix: string, middle: string, tail: string, rest: string)
    requires tail != [] && tail[0] == '\r' && '\r' !in middle
    ensures Split(prefix + middle + tail + rest, prefix, tail) == Some((middle, rest))
  {
    var response := prefix + middle + tail + rest;
    assert response[..|prefix|] == prefix;
    var r := response[|prefix|..];
    assert r == middle + tail + rest;
    assert r[..|middle|] == middle;
    FindIs(r, '\r', |middle|);
    assert r[|middle|..] == tail + rest;
    assert r[|middle|..][..|tail|] == tail;
    assert r[|middle| + |tail|..] == rest;
  }

  /** A framed response gives back its status and body, whatever the body holds. */
  lemma FrameRoundTrip(status: string, body: string)
    requires '\r' !in status
    ensures Unframe(Frame(status, body)) == Some((status, body))
  {
    var tail := CRLF + Headers;
    assert (CRLF + Headers)[0] == '\r';
    assert Frame(status, body) == StatusPrefix + status + tail + body;
    SplitRoundTrip(StatusPrefix, status, tail, body);
  }

  /** Every reply the server sends can be read back. */
  lemma RepliesUnframe(route: Route, db: Database, records: Records, toText: real -> string)
    requires Respond(route, db, records, toText).Some?
    ensures var reply := Respond(route, db, records, toText).value;
      Unframe(Frame(reply.status, reply.body)) == Some((reply.status, reply.body))
  {
    var reply := Respond(route, db, records, toText).value;
    assert reply.status in {"200 OK", "400 Bad Request", "404 Not Found"};
    FrameRoundTrip(reply.status, reply.body);
  }

  // ---- Properties ----

  /** A NUL ends the request: what follows it is never read. */
  lemma NulEndsRequest(chunk: string, tail: string)
    requires '\0' !in chunk && chunk != []
    ensures RouteOf(chunk + ['\0'] + tail) == RouteOf(chunk)
  {
    var c := chunk + ['\0'] + tail;
    assert c[..|chunk|] == chunk;
    FindIs(c, '\0', |chunk|);
    assert CString(c) == chunk;
    SplitWithoutNul(chunk);
  }

  lemma SplitWithoutNul(chunk: string)
    requires '\0' !in chunk
    ensures CString(chunk) == chunk
  {
  }

  /** The path "/data?" + query routes to the data endpoint with that query. */
  lemma DataPath(query: string)
    ensures IsDataRequest("GET", "/data?" + query)
    ensures QueryOf("/data?" + query) == query
  {
    var path := "/data?" + query;
    assert path[..6] == "/data?";
    assert path[5] == '?' && '?' !in path[..5];
    FindIs(path, '?', 5);
  }

  /** A GET of "/data?" + query is answered from the query's parameters. */
  lemma DataQueryRoute(query: string, rest: string)
    requires '\0' !in query && forall j | 0 <= j < |query| :: !IsSpace(query[j])
    requires (rest == [] || IsSpace(rest[0])) && '\0' !in rest
    ensures RouteOf(RequestText("GET", "/data?" + query, "HTTP/1.1") + rest) == Data(Dispatch(ParamsOf(query)))
    ensures RouteOfDecoded(RequestText("GET", "/data?" + query, "HTTP/1.1") + rest)
         == Data(Dispatch(DecodedParams(ParamsOf(query))))
  {
    var path := "/data?" + query;
    PathWord(query);
    var request := RequestText("GET", path, "HTTP/1.1") + rest;
    RequestAvoidsNul(path, rest);
    SplitWithoutNul(request);
    RequestLineRoundTrip("GET", path, "HTTP/1.1", rest);
    DataPath(query);
  }

  /** A data request written by a client: its query is the '&'-joined pieces, and
      the server answers what the last piece for each key asks for. */
  lemma DataRequestRoute(pieces: seq<string>, rest: string)
    requires |pieces| >= 1 && pieces[|pieces| - 1] != []
    requires forall k | 0 <= k < |pieces| :: '&' !in pieces[k] && '\0' !in pieces[k]
    requires forall k | 0 <= k < |pieces| :: forall j | 0 <= j < |pieces[k]| :: !IsSpace(pieces[k][j])
    requires (rest == [] || IsSpace(rest[0])) && '\0' !in rest
    ensures var query := JoinWith(pieces, '&');
      RouteOf(RequestText("GET", "/data?" + query, "HTTP/1.1") + rest)
        == Data(Dispatch(Params(LastValue(pieces, "table", ""), LastValue(pieces, "start", ""),
                                LastValue(pieces, "end", ""), LastValue(pieces, "last", ""))))
    ensures var query := JoinWith(pieces, '&');
      RouteOfDecoded(RequestText("GET", "/data?" + query, "HTTP/1.1") + rest)
        == Data(Dispatch(DecodedParams(Params(LastValue(pieces, "table", ""), LastValue(pieces, "start", ""),
                                              LastValue(pieces, "end", ""), LastValue(pieces, "last", "")))))
  {
    var query := JoinWith(pieces, '&');
    JoinedWord(pieces);
    JoinedAvoids(pieces, '\0');
    DataQueryRoute(query, rest);
    GetlineJoin(pieces, '&');
    ParamsAreLastValues(query);
  }

  lemma PathWord(query: string)
    requires '\0' !in query && forall j | 0 <= j < |query| :: !IsSpace(query[j])
    ensures IsWord("/data?" + query) && '\0' !in "/data?" + query
  {
    var path := "/data?" + query;
    assert forall j | 6 <= j < |path| :: path[j] == query[j - 6];
  }

  lemma RequestAvoidsNul(path: string, rest: string)
    requires '\0' !in path && '\0' !in rest
    ensures '\0' !in RequestText("GET", path, "HTTP/1.1") + rest
  {
  }

  /** Joined pieces hold no character no piece holds, other than the separator. */
  lemma {:induction false} JoinedAvoids(pieces: seq<string>, c: char)
    requires |pieces| >= 1 && c != '&' && forall k | 0 <= k < |pieces| :: c !in pieces[k]
    ensures c !in JoinWith(pieces, '&')
    decreases |pieces|
  {
    if |pieces| > 1 {
      JoinedAvoids(pieces[1..], c);
    }
  }

  /** Pieces without white space join into one word. */
  lemma {:induction false} JoinedWord(pieces: seq<string>)
    requires |pieces| >= 1
    requires forall k | 0 <= k < |pieces| :: forall j | 0 <= j < |pieces[k]| :: !IsSpace(pieces[k][j])
    ensures forall j | 0 <= j < |JoinWith(pieces, '&')| :: !IsSpace(JoinWith(pieces, '&')[j])
    decreases |pieces|
  {
    if |pieces| > 1 {
      JoinedWord(pieces[1..]);
      var first := pieces[0];
      var tail := JoinWith(pieces[1..], '&');
      var s := first + ['&'] + tail;
      assert forall j | 0 <= j < |s| :: s[j] == (if j < |first| then first[j] else if j == |first| then '&' else tail[j - |first| - 1]);
    }
  }

  /** Over stamp keys, the last-record reply shows the row with the latest time. */
  lemma LatestRecordIsLatest(db: Database, table: string, toText: real -> string, t0: int)
    requires Prepares(db, table) && forall k | k in TableRows(db, table) :: IsStamp(k)
    requires InRange(t0) && TimeText(t0) in TableRows(db, table)
    requires forall t | InRange(t) && TimeText(t) in TableRows(db, table) :: t <= t0
    ensures LastRecordBody(db, table, toText)
         == "Latest record:\n" + RecordLine(TimeText(t0), TableRows(db, table)[TimeText(t0)], toText)
  {
    var rows := TableRows(db, table);
    var g := Greatest(rows.Keys);
    var tg :| InRange(tg) && tg != -1 && g == TimeText(tg);
    TimeTextOrder(t0, tg);
    TimeTextOrder(tg, t0);
  }

  /** A table without rows still answers with the heading alone. */
  lemma EmptyTableLastRecord(db: Database, table: string, toText: real -> string)
    requires Prepares(db, table) && TableRows(db, table) == map[]
    ensures LastRecordBody(db, table, toText) == "Latest record:\n"
  {
    assert MaxKey(TableRows(db, table)) == None;
  }

  /** Names that differ only in the case of their letters denote the same table, and
      both requests get the same answer. */
  lemma {:induction false} CaseBlindNames(db: Database, a: string, b: string, toText: real -> string)
    requires Fold(a) == Fold(b)
    ensures Prepares(db, a) <==> Prepares(db, b)
    ensures Prepares(db, a) ==> TableRows(db, a) == TableRows(db, b)
    ensures LastRecordBody(db, a, toText) == LastRecordBody(db, b, toText)
  {
    QuoteSurvivesFold(a);
    QuoteSurvivesFold(b);
  }

  /** Folding keeps the double quotes where they are. */
  lemma QuoteSurvivesFold(name: string)
    ensures '"' in name <==> '"' in Fold(name)
  {
    if '"' in name {
      var k :| 0 <= k < |name| && name[k] == '"';
      assert Fold(name)[k] == '"';
    }
    if '"' in Fold(name) {
      var k :| 0 <= k < |name| && Fold(name)[k] == '"';
      assert name[k] == '"';
    }
  }

  /** `table=DATA_CURRENT` reads the table created as data_current. */
  lemma UpperCaseNameFindsTable(db: Database)
    requires "data_current" in db
    ensures Prepares(db, "DATA_CURRENT") && TableRows(db, "DATA_CURRENT") == db["data_current"]
  {
    assert Fold("DATA_CURRENT") == "data_current";
  }

  /** A range reply over printed stamps lists each row of the closed time window
      exactly once, and nothing else. */
  lemma RangeIsTimeWindow(rows: Rows, records: Records, lo: int, hi: int, t: int)
    requires InRange(lo) && InRange(hi) && InRange(t)
    requires Lists(records, rows, Window(rows, TimeText(lo), TimeText(hi)))
    ensures TimeText(t) in Dates(records) <==> TimeText(t) in rows && lo <= t <= hi
    ensures TimeText(t) in rows && lo <= t <= hi ==> multiset(Dates(records))[TimeText(t)] == 1
    ensures |records| == |Window(rows, TimeText(lo), TimeText(hi))|
  {
    var w := Window(rows, TimeText(lo), TimeText(hi));
    WindowIsTimeWindow(rows, lo, hi, t);
    assert TimeText(t) in Dates(records) <==> TimeText(t) in multiset(Dates(records));
    assert |multiset(Dates(records))| == |records|;
    assert |multiset(w)| == |w|;
  }
  // ---- Range bounds as clients send them ----

  /** Text without white space. */
  predicate NoSpace(s: string) {
    forall j | 0 <= j < |s| :: !IsSpace(s[j])
  }

  /** The bounds of a range request are cut from one word of the request line and are
      not decoded: they hold no white space, so neither is ever a printed stamp, whose
      date and clock are separated by a space. */
  lemma RangeBoundsAreNotStamps(chunk: string, t: int)
    requires RouteOf(chunk).Data? && RouteOf(chunk).action.RangeRecords? && InRange(t)
    ensures NoSpace(RouteOf(chunk).action.start) && NoSpace(RouteOf(chunk).action.end)
    ensures RouteOf(chunk).action.start != TimeText(t) && RouteOf(chunk).action.end != TimeText(t)
  {
    var path := RouteQuery(chunk);
    QueryHasNoSpace(path);
    ParamsHaveNoSpace(QueryOf(path));
    StampHasSpace(t);
  }

  /** A data route comes from the path of the request line, a word. */
  lemma RouteQuery(chunk: string) returns (path: string)
    requires RouteOf(chunk).Data?
    ensures NoSpace(path) && RouteOf(chunk) == Data(Dispatch(ParamsOf(QueryOf(path))))
  {
    path := RequestLine(CString(chunk)).1;
  }

  /** The query is part of the path. */
  lemma QueryHasNoSpace(path: string)
    requires NoSpace(path)
    ensures NoSpace(QueryOf(path))
  {
    var query := QueryOf(path);
    assert forall j | 0 <= j < |query| :: query[j] == path[|path| - |query| + j];
  }

  /** The parameters of a query without white space have none either. */
  lemma ParamsHaveNoSpace(query: string)
    requires NoSpace(query)
    ensures NoSpace(ParamsOf(query).start) && NoSpace(ParamsOf(query).end)
  {
    PiecesHaveNoSpace(query, '&');
    AssignAllHasNoSpace(NoParams, GetlinePieces(query, '&'));
  }

  /** A printed stamp holds a space, after its date. */
  lemma StampHasSpace(t: int)
    requires InRange(t)
    ensures TimeText(t)[10] == ' ' && !NoSpace(TimeText(t))
    ensures forall k | 0 <= k < 10 :: Unreserved(TimeText(t)[k])
    ensures IsAscii(TimeText(t))
  {
    TimeTextFields(t);
    FormatLayout(LocalTime(t));
  }

  /** The pieces of text without white space have none either. */
  lemma PiecesHaveNoSpace(s: string, sep: char)
    requires NoSpace(s)
    ensures forall k | 0 <= k < |GetlinePieces(s, sep)| :: NoSpace(GetlinePieces(s, sep)[k])
  {
    SplitHasNoSpace(s, sep);
  }

  lemma {:induction false} SplitHasNoSpace(s: string, sep: char)
    requires NoSpace(s)
    ensures forall k | 0 <= k < |SplitOn(s, sep)| :: NoSpace(SplitOn(s, sep)[k])
    decreases |s|
  {
    match Find(s, sep)
      case None =>
      case Some(i) =>
        var tail := s[i + 1..];
        assert forall j | 0 <= j < |tail| :: tail[j] == s[i + 1 + j];
        SplitHasNoSpace(tail, sep);
        assert forall j | 0 <= j < i :: s[..i][j] == s[j];
  }

  /** Values cut from pieces without white space have none either. */
  lemma {:induction false} AssignAllHasNoSpace(p: Params, params: seq<string>)
    requires NoSpace(p.start) && NoSpace(p.end)
    requires forall k | 0 <= k < |params| :: NoSpace(params[k])
    ensures NoSpace(AssignAll(p, params).start) && NoSpace(AssignAll(p, params).end)
    decreases |params|
  {
    if params != [] {
      AssignHasNoSpace(p, params[0]);
      AssignAllHasNoSpace(Assign(p, params[0]), params[1..]);
    }
  }

  /** A value cut from a piece without white space has none either. */
  lemma AssignHasNoSpace(p: Params, param: string)
    requires NoSpace(p.start) && NoSpace(p.end) && NoSpace(param)
    ensures NoSpace(Assign(p, param).start) && NoSpace(Assign(p, param).end)
  {
    if KeyValue(param).Some? {
      var (key, value) := KeyValue(param).value;
      assert forall j | 0 <= j < |value| :: value[j] == param[|key| + 1 + j];
    }
  }

  /** A bound that agrees with a stamp up to its date and then has a character above the
      space sorts after that stamp. */
  lemma BoundPastSpace(u: int, bound: string)
    requires InRange(u) && |bound| > 10 && bound[..10] == TimeText(u)[..10] && bound[10] > ' '
    ensures LexLess(TimeText(u), bound) && !LexLe(bound, TimeText(u))
  {
    StampHasSpace(u);
    LexLessAt(TimeText(u), bound, 10);
    LexLessAsymmetric(TimeText(u), bound);
  }

  /** quote_plus keeps a stamp's date and turns the space after it into '+'. */
  lemma EncodedStamp(t: int)
    requires InRange(t)
    ensures IsAscii(TimeText(t)) && |Encode(TimeText(t))| > 10
    ensures Encode(TimeText(t))[..10] == TimeText(t)[..10] && Encode(TimeText(t))[10] == '+'
  {
    var s := TimeText(t);
    StampHasSpace(t);
    var date, clock := s[..10], s[10..];
    assert s == date + clock;
    EncodeUnreserved(date);
    assert IsAscii(clock) by {
      assert forall k | 0 <= k < |clock| :: clock[k] == s[10 + k];
    }
    EncodeAppend(date, clock);
    assert Encode(clock) == EncodeChar(' ') + Encode(clock[1..]);
  }

  /** A form-encoded range, as the server reads it as written: every row of the first
      day, the first second included, is left out, because '+' sorts after the space of
      each stamp of that day; and every row of the last day on or after the start is
      listed, for the same reason. */
  lemma EncodedRangeShiftsDays(rows: Rows, lo: int, hi: int, u: int)
    requires InRange(lo) && InRange(hi) && InRange(u) && TimeText(u) in rows
    ensures IsAscii(TimeText(lo)) && IsAscii(TimeText(hi))
    ensures TimeText(u)[..10] == TimeText(lo)[..10]
        ==> TimeText(u) !in Window(rows, Encode(TimeText(lo)), Encode(TimeText(hi)))
    ensures TimeText(u)[..10] == TimeText(hi)[..10] && LexLe(Encode(TimeText(lo)), TimeText(u))
        ==> TimeText(u) in Window(rows, Encode(TimeText(lo)), Encode(TimeText(hi)))
  {
    EncodedStamp(lo);
    EncodedStamp(hi);
    if TimeText(u)[..10] == TimeText(lo)[..10] {
      BoundPastSpace(u, Encode(TimeText(lo)));
    }
    if TimeText(u)[..10] == TimeText(hi)[..10] {
      BoundPastSpace(u, Encode(TimeText(hi)));
    }
  }

  /** The pieces of the query the site's client writes for a range of a table:
      `requests.get(url, params={"start": …, "end": …, "table": …})`. */
  function ClientRangePieces(table: string, start: string, end: string): seq<string>
    requires IsAscii(table) && IsAscii(start) && IsAscii(end)
  {
    [Piece("start", start), Piece("end", end), Piece("table", table)]
  }

  /** `key=value` with the value quoted. */
  function Piece(key: string, value: string): string
    requires IsAscii(value)
  {
    key + "=" + Encode(value)
  }

  /** The request line the client writes for those pieces; `rest` is the rest of the
      request after the protocol. */
  function ClientRangeRequest(table: string, start: string, end: string, rest: string): string
    requires IsAscii(table) && IsAscii(start) && IsAscii(end)
  {
    RequestText("GET", "/data?" + JoinWith(ClientRangePieces(table, start, end), '&'), "HTTP/1.1") + rest
  }

  /** A character a `key=value` piece of an encoded query holds. */
  predicate QueryChar(c: char) {
    Unreserved(c) || c == '+' || c == '%' || c == '='
  }

  /** An encoded `key=value` piece is one word without '&' or NUL, read back as the
      key and the encoded value. */
  lemma EncodedPiece(key: string, value: string)
    requires IsAscii(value) && forall k | 0 <= k < |key| :: 'a' <= key[k] <= 'z'
    ensures var piece := Piece(key, value);
      && '&' !in piece && '\0' !in piece && NoSpace(piece)
      && KeyValue(piece) == Some((key, Encode(value)))
  {
    var e := Encode(value);
    var piece := key + "=" + e;
    EncodeIsEncoded(value);
    forall j | 0 <= j < |piece| ensures QueryChar(piece[j]) {
      if j < |key| {
        assert piece[j] == key[j];
      } else if j > |key| {
        assert piece[j] == e[j - |key| - 1];
      }
    }
    QueryCharsAvoid(piece);
    KeyValueOf(key, e);
  }

  /** Query characters are neither '&', NUL nor white space. */
  lemma QueryCharsAvoid(piece: string)
    requires forall j | 0 <= j < |piece| :: QueryChar(piece[j])
    ensures '&' !in piece && '\0' !in piece && NoSpace(piece)
  {
  }

  /** A piece written as key, '=' and value reads back as that key and value when the
      key holds no '='. */
  lemma KeyValueOf(key: string, value: string)
    requires '=' !in key
    ensures KeyValue(key + "=" + value) == Some((key, value))
  {
    var piece := key + "=" + value;
    assert piece[..|key|] == key && piece[|key|] == '=';
    FindIs(piece, '=', |key|);
    assert piece[|key| + 1..] == value;
  }

  /** How the server routes the client's range request, as written and decoded. */
  lemma ClientRangeRoute(table: string, start: string, end: string, rest: string)
    requires IsAscii(table) && IsAscii(start) && IsAscii(end)
    requires table != [] && start != [] && end != []
    requires (rest == [] || IsSpace(rest[0])) && '\0' !in rest
    ensures RouteOf(ClientRangeRequest(table, start, end, rest))
         == Data(RangeRecords(Encode(table), Encode(start), Encode(end)))
    ensures RouteOfDecoded(ClientRangeRequest(table, start, end, rest))
         == Data(RangeRecords(table, start, end))
  {
    var pieces := ClientRangePieces(table, start, end);
    ClientRangeValues(table, start, end);
    DataRequestRoute(pieces, rest);
    EncodeEmpty(table);
    EncodeEmpty(start);
    EncodeEmpty(end);
    DecodeEncode(table);
    DecodeEncode(start);
    DecodeEncode(end);
    var p := Params(Encode(table), Encode(start), Encode(end), "");
    assert DecodedParams(p) == Params(table, start, end, "");
  }

  /** The client's pieces are words the server reads back as the encoded values, with
      no `last`. */
  lemma ClientRangeValues(table: string, start: string, end: string)
    requires IsAscii(table) && IsAscii(start) && IsAscii(end)
    ensures var pieces := ClientRangePieces(table, start, end);
      && pieces[|pieces| - 1] != []
      && (forall k | 0 <= k < |pieces| :: '&' !in pieces[k] && '\0' !in pieces[k])
      && (forall k | 0 <= k < |pieces| :: forall j | 0 <= j < |pieces[k]| :: !IsSpace(pieces[k][j]))
      && LastValue(pieces, "table", "") == Encode(table)
      && LastValue(pieces, "start", "") == Encode(start)
      && LastValue(pieces, "end", "") == Encode(end)
      && LastValue(pieces, "last", "") == ""
  {
    ThreePieces("start", "end", "table", start, end, table);
    ThreeLastValues(Piece("start", start), Piece("end", end), Piece("table", table),
                    Encode(start), Encode(end), Encode(table));
  }

  /** Three encoded pieces: words the server reads back as their keys and values. */
  lemma ThreePieces(k1: string, k2: string, k3: string, v1: string, v2: string, v3: string)
    requires IsAscii(v1) && IsAscii(v2) && IsAscii(v3)
    requires forall k | 0 <= k < |k1| :: 'a' <= k1[k] <= 'z'
    requires forall k | 0 <= k < |k2| :: 'a' <= k2[k] <= 'z'
    requires forall k | 0 <= k < |k3| :: 'a' <= k3[k] <= 'z'
    ensures var pieces := [Piece(k1, v1), Piece(k2, v2), Piece(k3, v3)];
      && (forall k | 0 <= k < 3 :: '&' !in pieces[k] && '\0' !in pieces[k])
      && (forall k | 0 <= k < 3 :: forall j | 0 <= j < |pieces[k]| :: !IsSpace(pieces[k][j]))
    ensures KeyValue(Piece(k1, v1)) == Some((k1, Encode(v1)))
    ensures KeyValue(Piece(k2, v2)) == Some((k2, Encode(v2)))
    ensures KeyValue(Piece(k3, v3)) == Some((k3, Encode(v3)))
  {
    EncodedPiece(k1, v1);
    EncodedPiece(k2, v2);
    EncodedPiece(k3, v3);
    ThreeWords(Piece(k1, v1), Piece(k2, v2), Piece(k3, v3));
  }

  /** Three pieces each without '&', NUL or white space, as a sequence. */
  lemma ThreeWords(s: string, e: string, t: string)
    requires '&' !in s && '\0' !in s && NoSpace(s)
    requires '&' !in e && '\0' !in e && NoSpace(e)
    requires '&' !in t && '\0' !in t && NoSpace(t)
    ensures forall k | 0 <= k < 3 :: '&' !in [s, e, t][k] && '\0' !in [s, e, t][k]
    ensures forall k | 0 <= k < 3 :: forall j | 0 <= j < |[s, e, t][k]| :: !IsSpace([s, e, t][k][j])
  {
    forall k | 0 <= k < 3 ensures NoSpace([s, e, t][k]) {
      if k == 0 { assert [s, e, t][k] == s; } else if k == 1 { assert [s, e, t][k] == e; } else { assert [s, e, t][k] == t; }
    }
  }

  /** The last values of a start piece, an end piece and a table piece. */
  lemma ThreeLastValues(s: string, e: string, t: string, start: string, end: string, table: string)
    requires KeyValue(s) == Some(("start", start)) && KeyValue(e) == Some(("end", end))
    requires KeyValue(t) == Some(("table", table))
    ensures LastValue([s, e, t], "table", "") == table
    ensures LastValue([s, e, t], "start", "") == start
    ensures LastValue([s, e, t], "end", "") == end
    ensures LastValue([s, e, t], "last", "") == ""
  {
    assert "table"[0] != "start"[0] && "table"[0] != "end"[0] && "table"[0] != "last"[0];
    assert "start"[0] != "end"[0] && "start"[0] != "last"[0] && "end"[0] != "last"[0];
    assert [s, e, t][..2] == [s, e] && [s, e][..1] == [s] && [s][..0] == [];
    assert LastValue([s], "start", "") == start;
    assert LastValue([s], "last", "") == "" && LastValue([s, e], "last", "") == "";
    assert LastValue([s, e], "start", "") == start && LastValue([s, e], "end", "") == end;
  }

  /** The server as written, on the site's range request for [lo, hi]: the bounds reach
      BETWEEN form-encoded, and the first second of the range, though it has a row, is
      not listed. */
  lemma ClientRangeMissesItsStart(rows: Rows, table: string, lo: int, hi: int, rest: string)
    requires InRange(lo) && InRange(hi) && lo <= hi && TimeText(lo) in rows
    requires IsAscii(table) && table != []
    requires (rest == [] || IsSpace(rest[0])) && '\0' !in rest
    ensures IsAscii(TimeText(lo)) && IsAscii(TimeText(hi))
    ensures RouteOf(ClientRangeRequest(table, TimeText(lo), TimeText(hi), rest))
         == Data(RangeRecords(Encode(table), Encode(TimeText(lo)), Encode(TimeText(hi))))
    ensures TimeText(lo) in Window(rows, TimeText(lo), TimeText(hi))
    ensures TimeText(lo) !in Window(rows, Encode(TimeText(lo)), Encode(TimeText(hi)))
  {
    StampHasSpace(lo);
    StampHasSpace(hi);
    ClientRangeRoute(table, TimeText(lo), TimeText(hi), rest);
    WindowIsTimeWindow(rows, lo, hi, lo);
    EncodedRangeShiftsDays(rows, lo, hi, lo);
  }

  /** With the values decoded, the site's range request for [lo, hi] reaches BETWEEN
      with the printed stamps, and selects exactly the rows of that time window. */
  lemma ClientRangeDecodedIsTimeWindow(rows: Rows, table: string, lo: int, hi: int, rest: string, t: int)
    requires InRange(lo) && InRange(hi) && InRange(t)
    requires IsAscii(table) && table != []
    requires (rest == [] || IsSpace(rest[0])) && '\0' !in rest
    ensures IsAscii(TimeText(lo)) && IsAscii(TimeText(hi))
    ensures RouteOfDecoded(ClientRangeRequest(table, TimeText(lo), TimeText(hi), rest))
         == Data(RangeRecords(table, TimeText(lo), TimeText(hi)))
    ensures TimeText(t) in Window(rows, TimeText(lo), TimeText(hi)) <==> TimeText(t) in rows && lo <= t <= hi
  {
    StampHasSpace(lo);
    StampHasSpace(hi);
    ClientRangeRoute(table, TimeText(lo), TimeText(hi), rest);
    WindowIsTimeWindow(rows, lo, hi, t);
  }
}
