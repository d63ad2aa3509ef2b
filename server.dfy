/**
 * The request dispatcher of the server (server/src/main.rs:23-85): one
 * connection's loop receives a request frame, checks the credentials, routes
 * the action to the storage engine and sends exactly one response frame.
 * Each request runs alone against the one `Storage`, as the mutex around it
 * ensures; the accept loop and the tasks are not modelled.  Credential
 * checking is the opaque `verify`, JSON (de)serialisation the opaque `parse`
 * and `serialize`.
 */
module Server {
  import opened Wrappers
  import opened Ids
  import opened Text
  import opened Json
  import opened Protocol
  import opened Store

  /** What a request asks for, once its credentials and parameters are read. */
  datatype Command =
    | Denied
    | CreateTable(table: string, columns: seq<string>)
    | Insert(table: string, values: seq<string>)
    | Select(table: string)
    | Unknown

  /** How handling one request ends. */
  datatype Outcome =
    | Sent(response: Json)
    | Panicked  // the task panics: no response, the connection closes
    | Diverged  // the handler never returns, holding the storage lock

  /** How a connection's loop ends. */
  datatype ConnectionEnd = Closed | TaskPanicked | Hung

  /**
   * The parameter lists of `create_table` and `insert`: the strings of an
   * array, with "" for each element that is not a string, and no strings at
   * all when the value is not an array.
   */
  function StringsOrEmpty(v: Json): (r: seq<string>)
    ensures !v.JArray? ==> r == []
    ensures v.JArray? ==> |r| == |v.items|
    ensures v.JArray? ==> forall j :: 0 <= j < |r| ==> (v.items[j].JString? ==> r[j] == v.items[j].s)
    ensures v.JArray? ==> forall j :: 0 <= j < |r| ==> (!v.items[j].JString? ==> r[j] == "")
  {
    if v.JArray? then seq(|v.items|, j requires 0 <= j < |v.items| => StrOrEmpty(v.items[j])) else []
  }

  /** A field of a request, or the empty object when it is missing. */
  function FieldOrEmpty(req: Json, key: string): Json {
    match Get(req, key)
    case Some(v) => v
    case None => JObject(map[])
  }

  /** A string field of an object, or "" when it is missing or not a string. */
  function StrField(v: Json, key: string): string {
    match Get(v, key)
    case Some(s) => StrOrEmpty(s)
    case None => ""
  }

  /** The credential check: `auth` must be an object whose user and password `verify` accepts. */
  predicate Authorized(req: Json, verify: (string, string) -> bool) {
    var auth := FieldOrEmpty(req, "auth");
    auth.JObject? && verify(StrField(auth, "user"), StrField(auth, "password"))
  }

  /** The auth gate, the action match and the parameter defaulting of one request. */
  function Route(req: Json, verify: (string, string) -> bool): Command {
    if !Authorized(req, verify) then Denied
    else
      var params := FieldOrEmpty(req, "params");
      var table := StrOrEmpty(Index(params, "table"));
      var action := StrField(req, "action");
      if action == "create_table" then CreateTable(table, StringsOrEmpty(Index(params, "columns")))
      else if action == "insert" then Insert(table, StringsOrEmpty(Index(params, "values")))
      else if action == "select" then Select(table)
      else Unknown
  }

  /** An `auth` field that is present but not an object is refused, whatever `verify` says. */
  lemma NonObjectAuthDenied(fields: map<string, Json>, verify: (string, string) -> bool)
    requires "auth" in fields && !fields["auth"].JObject?
    ensures Route(JObject(fields), verify) == Denied
  {
  }

  /**
   * A request without an `auth` field, or one that is not an object at all, is
   * checked with empty credentials.
   */
  lemma MissingAuthUsesEmptyCredentials(req: Json, verify: (string, string) -> bool)
    requires !req.JObject? || "auth" !in req.fields
    ensures Route(req, verify).Denied? <==> !verify("", "")
  {
  }

  /**
   * Credentials are passed through when they are strings and replaced by ""
   * when missing or of another kind; the request passes the gate exactly when
   * `verify` accepts them.
   */
  lemma CredentialsDefaulting(req: Json, auth: map<string, Json>, verify: (string, string) -> bool)
    requires req.JObject? && "auth" in req.fields && req.fields["auth"] == JObject(auth)
    ensures var user := if "user" in auth && auth["user"].JString? then auth["user"].s else "";
            var password := if "password" in auth && auth["password"].JString? then auth["password"].s else "";
            Route(req, verify).Denied? <==> !verify(user, password)
  {
  }

  /**
   * Past the gate, the three action names route to the storage engine and
   * anything else (a missing action, one that is not a string, another name)
   * is unknown.
   */
  lemma ActionRouting(req: Json, verify: (string, string) -> bool)
    requires Authorized(req, verify)
    ensures var action := Get(req, "action");
      && (Route(req, verify).CreateTable? <==> action == Some(JString("create_table")))
      && (Route(req, verify).Insert? <==> action == Some(JString("insert")))
      && (Route(req, verify).Select? <==> action == Some(JString("select")))
      && (Route(req, verify).Unknown? <==>
            !(action in {Some(JString("create_table")), Some(JString("insert")), Some(JString("select"))}))
  {
  }

  /**
   * The table name defaults to "" when `params` or its `table` is missing or
   * not a string, and a missing `columns` or `values` array means an empty list.
   */
  lemma ParameterDefaulting(req: Json, verify: (string, string) -> bool)
    requires Authorized(req, verify)
    requires Get(req, "params").None? || !Get(req, "params").value.JObject?
    ensures Route(req, verify) in {Unknown, CreateTable("", []), Insert("", []), Select("")}
  {
  }

  function Status(ok: bool): Json {
    JString(if ok then "ok" else "error")
  }

  /** `{"status":"error","message":message}`. */
  function ErrorReply(message: string): Json {
    JObject(map["status" := JString("error"), "message" := JString(message)])
  }

  function CreateTableReply(ok: bool, message: string): Json {
    JObject(map["status" := Status(ok), "message" := JString(message)])
  }

  function InsertReply(ok: bool, result: Option<string>): Json {
    JObject(map["status" := Status(ok), "result" := if result.Some? then JString(result.value) else JNull])
  }

  function RowJson(row: Row): Json {
    JObject(map k | k in row :: JString(row[k]))
  }

  function SelectReply(ok: bool, rows: seq<Row>): Json {
    JObject(map["status" := Status(ok), "rows" := JArray(seq(|rows|, i requires 0 <= i < |rows| => RowJson(rows[i])))])
  }

  /**
   * What handling a command does, from state `s`: the outcome and the state
   * left behind (main.rs:36-83 with storage.rs:52-121).  A refused or unknown
   * request leaves everything alone.  `create_table` always reports success.
   * An `insert` the engine refuses changes nothing; an accepted empty row
   * saves the dictionary and then panics at `ids_to_write[0]`; a row needing
   * more fresh identifiers than remain makes `generate_id` retry forever, with
   * no file written; otherwise the row is stored.  A `select` changes nothing,
   * and on a table without columns panics at `buf[0..5]`.
   */
  ghost predicate Handled(s: State, cmd: Command, out: Outcome, s': State) {
    match cmd
    case Denied => out == Sent(ErrorReply("auth_failed")) && s' == s
    case Unknown => out == Sent(ErrorReply("unknown_action")) && s' == s
    case CreateTable(t, cols) =>
      out == Sent(CreateTableReply(true, CreateMessage(t, t in s.rowFiles))) && s' == AfterCreateTable(s, t, cols)
    case Insert(t, vs) =>
      if !Accepts(s, t, vs) then out == Sent(InsertReply(false, None)) && s' == s
      else if vs == [] then out == Panicked && s' == s.(indexFile := Some(s.dictionary))
      else if |s.dictionary| + |FreshValues(vs, s.dictionary)| > IdSpace then
        && out == Diverged
        && s'.tables == s.tables && s'.rowFiles == s.rowFiles && s'.colsFiles == s.colsFiles
        && s'.indexFile == s.indexFile && Extends(s.dictionary, s'.dictionary)
      else
        exists ids :: InsertedState(s, t, vs, ids, s') && out == Sent(InsertReply(true, Some(ids[0])))
    case Select(t) =>
      && s' == s
      && (t in s.tables && t in s.rowFiles && s.tables[t] == [] ==> out == Panicked)
      && (t in s.tables && t in s.rowFiles && s.tables[t] != [] ==>
            out == Sent(SelectReply(true, DecodeRows(s.rowFiles[t], s.tables[t], s.dictionary))))
      && (t !in s.tables || t !in s.rowFiles ==> out == Sent(SelectReply(false, [])))
  }

  /** The `create_table` arm (main.rs:44-56). */
  method ExecuteCreate(storage: Storage, t: string, cols: seq<string>) returns (out: Outcome)
    requires storage.Valid()
    modifies storage
    ensures storage.Valid()
    ensures Handled(old(storage.Snapshot()), CreateTable(t, cols), out, storage.Snapshot())
  {
    var ok, message := storage.CreateTable(t, cols);
    out := Sent(CreateTableReply(ok, message));
  }

  /** The `insert` arm (main.rs:57-69). */
  method ExecuteInsert(storage: Storage, t: string, vs: seq<string>) returns (out: Outcome)
    requires storage.Valid()
    modifies storage
    ensures storage.Valid()
    ensures Handled(old(storage.Snapshot()), Insert(t, vs), out, storage.Snapshot())
  {
    if storage.Insertable(t, vs) && vs == [] {
      // the row is empty: the dictionary is saved, then `ids_to_write[0]` panics
      storage.SaveIndex();
      out := Panicked;
    } else if storage.Insertable(t, vs) && |storage.dictionary| + |FreshValues(vs, storage.dictionary)| > IdSpace {
      // `generate_id` finds every identifier taken and retries forever
      out := Diverged;
    } else {
      var ok, first, ids := storage.Insert(t, vs);
      out := Sent(InsertReply(ok, first));
    }
  }

  /** The `select` arm (main.rs:70-77). */
  method ExecuteSelect(storage: Storage, t: string) returns (out: Outcome)
    requires storage.Valid()
    ensures Handled(storage.Snapshot(), Select(t), out, storage.Snapshot())
  {
    if t in storage.tables && t in storage.rowFiles && storage.tables[t] == [] {
      // an empty buffer: `read_exact` succeeds, then `buf[0..5]` panics
      out := Panicked;
    } else {
      var ok, rows := storage.Select(t);
      out := Sent(SelectReply(ok, rows));
    }
  }

  /** The handling of one routed request (main.rs:29-84). */
  method Execute(storage: Storage, cmd: Command) returns (out: Outcome)
    requires storage.Valid()
    modifies storage
    ensures storage.Valid()
    ensures Handled(old(storage.Snapshot()), cmd, out, storage.Snapshot())
  {
    match cmd
    case Denied =>
      out := Sent(ErrorReply("auth_failed"));
    case Unknown =>
      out := Sent(ErrorReply("unknown_action"));
    case CreateTable(t, cols) =>
      out := ExecuteCreate(storage, t, cols);
    case Insert(t, vs) =>
      out := ExecuteInsert(storage, t, vs);
    case Select(t) =>
      out := ExecuteSelect(storage, t);
  }

  /**
   * Create, insert, select through the handler: on a table with no row file
   * yet, distinct column names other than "id" and a row of matching arity
   * that is answered, the select answers with exactly one row, holding the
   * inserted values.
   */
  lemma CreateInsertSelect(s0: State, s1: State, s2: State, s3: State, t: string, cols: seq<string>,
                           vs: seq<string>, out1: Outcome, out2: Outcome, out3: Outcome)
    requires t !in s0.rowFiles
    requires |cols| > 0 && |vs| == |cols| && Distinct(cols) && "id" !in cols
    requires Handled(s0, CreateTable(t, cols), out1, s1)
    requires Handled(s1, Insert(t, vs), out2, s2) && out2.Sent?
    requires Handled(s2, Select(t), out3, s3)
    ensures t in s2.rowFiles && t in s2.tables && s2.tables[t] == cols
    ensures var rows := DecodeRows(s2.rowFiles[t], cols, s2.dictionary);
      && out3 == Sent(SelectReply(true, rows))
      && |rows| == 1
      && rows[0].Keys == (set i | 0 <= i < |cols| :: cols[i]) + {"id"}
      && (forall j :: 0 <= j < |cols| ==> rows[0][cols[j]] == vs[j])
  {
    assert s1.tables[t] == cols && s1.rowFiles[t] == "";
    assert Accepts(s1, t, vs);
    var ids :| InsertedState(s1, t, vs, ids, s2) && out2 == Sent(InsertReply(true, Some(ids[0])));
    assert s2.rowFiles[t] == "" + Concat(ids);
    InsertedRowReadsBack("", cols, s2.dictionary, ids, vs);
  }

  /**
   * One connection's loop (main.rs:23-85): receive a request, handle it, send
   * its response; a failed receive ends the loop without a response.  The
   * output is the frames of the replies.  `states` are the storage states
   * between requests: the i-th received request, handled from `states[i]`,
   * produced the i-th reply and `states[i + 1]`.  When the input ends or a
   * receive fails, every received request has been answered; otherwise the
   * next request panicked or never returned, and it produced the final state.
   */
  method Serve(storage: Storage, input: seq<byte>, parse: seq<byte> -> Option<Json>,
               serialize: Json -> seq<byte>, verify: (string, string) -> bool)
    returns (output: seq<byte>, end: ConnectionEnd, ghost replies: seq<Json>, ghost states: seq<State>)
    requires storage.Valid()
    modifies storage
    ensures storage.Valid()
    ensures output == FrameAll(replies, serialize)
    ensures |replies| <= |Requests(input, parse)|
    ensures |states| == |replies| + 1 && states[0] == old(storage.Snapshot())
    ensures forall i :: 0 <= i < |replies| ==>
      Handled(states[i], Route(Requests(input, parse)[i], verify), Sent(replies[i]), states[i + 1])
    ensures end == Closed ==> |replies| == |Requests(input, parse)| && storage.Snapshot() == states[|replies|]
    ensures end == TaskPanicked ==>
      && |replies| < |Requests(input, parse)|
      && Handled(states[|replies|], Route(Requests(input, parse)[|replies|], verify), Panicked, storage.Snapshot())
    ensures end == Hung ==>
      && |replies| < |Requests(input, parse)|
      && Handled(states[|replies|], Route(Requests(input, parse)[|replies|], verify), Diverged, storage.Snapshot())
  {
    output, replies := [], [];
    states := [storage.Snapshot()];
    ghost var handled: seq<Json> := [];
    var rest := input;
    while true
      invariant storage.Valid()
      invariant output == FrameAll(replies, serialize)
      invariant |handled| == |replies| && |states| == |replies| + 1
      invariant states[0] == old(storage.Snapshot()) && states[|replies|] == storage.Snapshot()
      invariant Requests(input, parse) == handled + Requests(rest, parse)
      invariant forall i :: 0 <= i < |replies| ==> Handled(states[i], Route(handled[i], verify), Sent(replies[i]), states[i + 1])
      decreases |rest|
    {
      var received := RecvMsg(rest, parse);
      RequestsStep(rest, parse);
      if received.Failed? {
        assert handled + [] == handled;
        return output, Closed, replies, states;
      }
      var req := received.value;
      var out := Execute(storage, Route(req, verify));
      assert Requests(input, parse)[|replies|] == req;
      if !out.Sent? {
        end := if out.Panicked? then TaskPanicked else Hung;
        return output, end, replies, states;
      }
      ServeStep(input, rest, received.rest, parse, verify, handled, replies, states, req, out.response, storage.Snapshot());
      FrameAllSnoc(replies, out.response, serialize);
      output := output + EncodeFrame(serialize(out.response));
      replies := replies + [out.response];
      states := states + [storage.Snapshot()];
      handled := handled + [req];
      rest := received.rest;
    }
  }

  /** The bookkeeping of one answered request in the connection loop. */
  lemma ServeStep(input: seq<byte>, rest: seq<byte>, rest': seq<byte>, parse: seq<byte> -> Option<Json>,
                  verify: (string, string) -> bool, handled: seq<Json>, replies: seq<Json>, states: seq<State>,
                  req: Json, response: Json, s': State)
    requires |handled| == |replies| && |states| == |replies| + 1
    requires Requests(input, parse) == handled + Requests(rest, parse)
    requires Requests(rest, parse) == [req] + Requests(rest', parse)
    requires forall i :: 0 <= i < |replies| ==> Handled(states[i], Route(handled[i], verify), Sent(replies[i]), states[i + 1])
    requires Handled(states[|replies|], Route(req, verify), Sent(response), s')
    ensures Requests(input, parse) == (handled + [req]) + Requests(rest', parse)
    ensures forall i :: 0 <= i < |replies| + 1 ==>
      Handled((states + [s'])[i], Route((handled + [req])[i], verify), Sent((replies + [response])[i]), (states + [s'])[i + 1])
  {
  }
}
