# maxdb in Dafny

A model of the core of maxdb, a small networked key/value table store. The
server keeps:

- a global **value dictionary** that interns every cell value under a
  five-character identifier over a 62-symbol alphabet;
- an in-memory **catalog** from table name to its ordered column names;
- one append-only **row file** per table, holding fixed-stride rows of
  identifiers.

Clients talk to it over TCP. Each message is a JSON document framed by a
4-byte big-endian length. Each request is authenticated and then routed to
`create_table`, `insert` or `select`.

The project has seven modules:

| module | file | what it holds |
|---|---|---|
| `Wrappers` | `wrappers.dfy` | `Option` |
| `Ids` | `ids.dfy` | the identifier alphabet; the base-62 numbering of identifiers; the counting argument that a fresh identifier exists while fewer than 62^5 are taken |
| `Text` | `text.dfy` | Rust's `join(",")` and `split(',')`, and the concatenation of a row's identifiers |
| `Store` | `store.dfy` | the class `Storage` (server/src/storage.rs) and the decoding of a row file (`DecodeRows`) |
| `Protocol` | `protocol.dfy` | the frame codec (client/src/protocol.rs) over a byte sequence |
| `Json` | `json.dfy` | a JSON value and the `serde_json` accessors the server uses |
| `Server` | `server.dfy` | the per-request handler and the per-connection loop (server/src/main.rs) |

`Storage` keeps the source's two maps, `tables` and `dictionary`. It also
holds the data folder as fields:

- `rowFiles`: the contents of each `<name>.bin`;
- `colsFiles`: the contents of each `<name>.cols`;
- `indexFile`: the dictionary last written to `dictionary.index`.

`Valid()` states the invariants the engine keeps:

- every key is a well-formed identifier;
- no two identifiers share a value;
- every registered table has a row file.

`WholeStrides(t)` states that a row file holds a whole number of
`5 × ncols` strides. `insert` preserves it for every table, and `create_table`
establishes it for a table it creates. Re-registering a table whose row file
already exists does not preserve it: the reloaded schema can have a different
column count from the one the file was written with. A column name with a
comma or a missing sidecar each cause this, and `Store.RecreateCanMisalign`
shows the first. An empty schema reloads as the one column "" but cannot
misalign anything: no row is ever written for a table without columns, so its
row file stays empty. The rows of such a file then
read back misaligned or not at all.

`generate_id` draws random identifiers until one is unused. The model makes a
choice among the unused identifiers instead. `Ids.FreeIdExists` proves such an
identifier exists whenever fewer than 62^5 identifiers are taken.

The routing of a request is the pure function `Server.Route`. It covers the
auth gate, the action match and the parameter defaulting. What handling a
routed command does is the relation `Server.Handled`. It relates a state of
the engine (a `Store.State` value), the command, the outcome and the state
left behind. The handler is split into one method per action, and `Execute`
dispatches on the command. Each is proved to satisfy `Handled`.

Some requests make the source panic or retry forever. The handler reports
these as the outcomes `Panicked` and `Diverged` rather than excluding them:

- an accepted insert of an empty row panics at `ids_to_write[0]`;
- a `select` on a table without columns panics at `buf[0..5]`, because
  `read_exact` into an empty buffer succeeds;
- an insert that needs more fresh identifiers than remain makes
  `generate_id` retry forever.

## Model

| member | source | states |
|---|---|---|
| Ids.Symbol | server/src/storage.rs:41 | the d-th symbol of the 62-symbol alphabet is an upper-case letter, a lower-case letter or a digit |
| Ids.SymbolIndex | server/src/storage.rs:41 | every alphabet symbol sits at a position below 62, and the symbol there is the same character |
| Ids.IdOf | server/src/storage.rs:43-45 | the identifier numbered k is five alphabet symbols |
| Ids.RankOfIdOf | server/src/storage.rs:43-45 | the numbering of identifiers is injective: reading the number back from `IdOf(k)` gives k |
| Ids.RanksBound | server/src/storage.rs:46 | a set of taken identifiers uses at most as many numbers as it has members |
| Ids.FreeIdExists | server/src/storage.rs:42-49 | with fewer than 62^5 identifiers taken, some identifier is free, so the retry loop of `generate_id` can return |
| Text.Split | server/src/storage.rs:59 | splitting a sidecar yields at least one piece, and no piece contains the separator |
| Text.JoinSplit | server/src/storage.rs:59 | joining the pieces of a split gives the text back |
| Text.SplitJoin | server/src/storage.rs:59-67 | a non-empty schema with no comma in any name is reloaded from its sidecar exactly |
| Text.EmptyPartsSplitToOne | server/src/storage.rs:59-67 | an empty schema is reloaded from its sidecar as one column named "" |
| Text.ConcatLength | server/src/storage.rs:92-94 | the written row is 5 characters per identifier long |
| Text.ConcatCell | server/src/storage.rs:92-94 | the j-th 5-character cell of the written row is the j-th identifier |
| Store.DecodeRowsCount | server/src/storage.rs:110-111 | `select` emits one row per complete stride of the file; a trailing partial stride yields none |
| Store.DecodeRowsAppend | server/src/storage.rs:111-119 | rows come in file order: a file of whole strides followed by more bytes reads as its own rows, then those of the rest |
| Store.RowCellsLast | server/src/storage.rs:113-116 | when a column name occurs more than once, the last occurrence's value wins |
| Store.RowCellsKeys | server/src/storage.rs:113-116 | the fields filled by the column loop are exactly the column names |
| Store.DecodeRowFields | server/src/storage.rs:112-117 | a decoded row's fields are the column names plus "id"; each column holds the value of its identifier, or "" when the identifier is unknown; "id" holds the first identifier, even when a column is named "id" |
| Store.InsertedRowReadsBack | server/src/storage.rs:91-119 | insert then select: decoded with one dictionary, the file with the row appended reads as the file's own rows followed by exactly one more, whose columns are the inserted values |
| Store.RecreateCanMisalign | server/src/storage.rs:56-63 | re-registering a table whose sidecar holds a comma reloads a schema of another width, so a row file of whole strides no longer is one and its row no longer reads back |
| Store.Storage.constructor | server/src/storage.rs:18-32 | a fresh engine has no table registered and the dictionary loaded from `dictionary.index`, or an empty one |
| Store.Storage.SaveIndex | server/src/storage.rs:34-38 | the persisted dictionary becomes the in-memory one |
| Store.Storage.GenerateId | server/src/storage.rs:40-50 | the result is five alphabet symbols and not yet a key of the dictionary |
| Store.Storage.FindKey | server/src/storage.rs:83 | the scan finds a key holding the value exactly when the value is in the dictionary |
| Store.Storage.Intern | server/src/storage.rs:83-87 | a known value keeps its identifier; an unknown value gets a fresh identifier; existing entries never change, and the map stays injective |
| Store.Storage.InternRow | server/src/storage.rs:80-89 | every value of the row gets an identifier holding it; the dictionary only grows, and only by values of the row |
| Store.InternStep | server/src/storage.rs:82-89 | one pass of the value loop keeps the loop invariant `RowProgress`, so at most one identifier is added per fresh value |
| Store.FreshStep | server/src/storage.rs:84-85 | a value not yet interned is new to the row as well, so the identifiers drawn stay within the number available |
| Store.InternedIds | server/src/storage.rs:82-89 | repeated values in a row share one identifier and distinct values get distinct identifiers; a value already stored reuses its identifier |
| Store.Storage.AppendRow | server/src/storage.rs:91-94 | the table's row file gains exactly the concatenated identifiers; no other file changes |
| Store.StridesAfterAppend | server/src/storage.rs:91-94 | appending one row of `ncols` identifiers keeps every row file a whole number of strides |
| Store.Storage.CreateTable | server/src/storage.rs:52-70 | always succeeds, and the new state is `AfterCreateTable` of the old. With no row file, it registers exactly the given columns, creates an empty row file and a comma-joined sidecar, and says "Table <name> created.". With a row file, it reloads the columns from the sidecar or else adopts the given ones, leaves every file alone, and says "Table <name> already exists." |
| Store.Storage.Insert | server/src/storage.rs:72-98 | fails and changes nothing exactly when the table is unknown or the arity differs. Otherwise each value maps to an identifier holding it, the dictionary only grows, the row file gains exactly the row, the dictionary is persisted, strides stay whole, and the first identifier is returned; the new state satisfies `InsertedState` (repeated values share an identifier, and a stored value keeps its identifier) |
| Store.Storage.Select | server/src/storage.rs:100-121 | fails with no rows when the table is unknown or its row file is missing; otherwise returns the file decoded stride by stride (`DecodeRows`) |
| Protocol.ToBeBytes | client/src/protocol.rs:7 | the length prefix is four bytes |
| Protocol.FromBeBytes | client/src/protocol.rs:21 | the decoded length fits in a `u32` |
| Protocol.BeRoundTrip | client/src/protocol.rs:7-21 | decoding the big-endian bytes of a `u32` gives it back |
| Protocol.BeBytesRoundTrip | client/src/protocol.rs:7-21 | every four bytes are the encoding of the length they decode to |
| Protocol.EncodeFrame | client/src/protocol.rs:5-11 | a frame is a prefix holding the payload length modulo 2^32, then the payload |
| Protocol.RecvExact | client/src/protocol.rs:13-17 | succeeds exactly when n bytes remain, returns the first n and leaves the rest; otherwise fails with an unexpected end of stream |
| Protocol.RecvMsg | client/src/protocol.rs:19-25 | fails on fewer than 4 bytes or a short payload, fails with `InvalidData` on a payload that does not parse, and otherwise returns the parsed value and the bytes after the frame |
| Protocol.RecvMsgConsumes | client/src/protocol.rs:20-22 | a successful receive consumes at least the 4 prefix bytes |
| Protocol.FrameRoundTrip | client/src/protocol.rs:5-25 | receiving from a frame followed by more bytes gives back the value and leaves exactly those bytes, for a payload under 2^32 bytes that parses |
| Protocol.OversizedFrameDesyncs | client/src/protocol.rs:7 | a payload of 2^32 bytes or more is cut short on receipt, so the stream loses its framing |
| Protocol.FrameAllCons | client/src/protocol.rs:5-11 | the frames of a sequence of messages are the first message's frame followed by the frames of the rest |
| Protocol.StreamRoundTrip | client/src/protocol.rs:5-25 | the frames of several messages are read back as exactly those messages |
| Server.StringsOrEmpty | server/src/main.rs:46-50 | a `columns`/`values` array gives one string per element, with "" for each non-string element; a missing or non-array value gives no strings |
| Server.NonObjectAuthDenied | server/src/main.rs:31-32 | an `auth` that is not an object is refused whatever `verify` says |
| Server.MissingAuthUsesEmptyCredentials | server/src/main.rs:30-35 | a request without `auth`, or one that is not an object, is checked with an empty user and password |
| Server.CredentialsDefaulting | server/src/main.rs:32-35 | string credentials are passed through, others become ""; the request passes the gate exactly when `verify` accepts them |
| Server.ActionRouting | server/src/main.rs:43-83 | past the gate, "create_table", "insert" and "select" route to the engine; any other action is unknown, including a missing or non-string one (both directions) |
| Server.ParameterDefaulting | server/src/main.rs:40-45 | with `params` missing or not an object, the table is "" and the column and value lists are empty |
| Server.ExecuteCreate | server/src/main.rs:44-56 | replies `{"status":"ok","message":…}` with the "created" or "already exists" message; the new state is exactly `AfterCreateTable` of the old: the catalog entry, the empty row file and the comma-joined sidecar for a new table, only the reloaded catalog entry for an existing one |
| Server.ExecuteInsert | server/src/main.rs:57-69 | a refused insert replies "error" with a null result and changes nothing. An accepted empty row saves the dictionary and panics, with nothing else changed. A row needing more fresh identifiers than remain never returns, and no file is written. Otherwise the reply is "ok" with the first identifier, and the new state satisfies `InsertedState`: dedup, growth only by row values, exactly one row appended, the dictionary persisted, catalog and sidecars unchanged |
| Server.ExecuteSelect | server/src/main.rs:70-77 | nothing changes. An unknown table or a missing row file gives "error" and no rows; a table without columns whose row file exists panics; otherwise the reply is "ok" with the file's decoded rows |
| Server.Execute | server/src/main.rs:29-84 | the outcome and the new state of every command are as `Handled` gives them: `auth_failed` and `unknown_action` replies that touch nothing, and the reply and state of each action above |
| Server.CreateInsertSelect | server/src/main.rs:44-77 | through the handler, create then insert then select on a new table with distinct column names answers "ok" with exactly one row, whose columns are the inserted values |
| Server.Serve | server/src/main.rs:23-85 | the output is the frames of the replies. The i-th received request, handled from the i-th intermediate state, gives the i-th reply and the next state. When the input ends or a receive fails, every request has been answered and the storage is the last state. Otherwise the next request panicked or never returned, and it produced the final state |

## Left out

- The accept loop, tokio tasks, `Arc<Mutex<_>>` and the TCP sockets (server/src/main.rs:10-22, 86-88): each request is one atomic step against the single `Storage`, as the mutex makes it.
- The bytes of a connection are a finite sequence `input`. The bytes sent back are the sequence `output`. `send_msg` failures (`.unwrap()` panics) are not modelled.
- JSON parsing and serialisation are the parameters `parse` and `serialize`. JSON numbers are integers, since the server never reads one.
- bincode for `dictionary.index` is not modelled: the persisted dictionary is the map itself.
- Store.Storage.constructor: a `dictionary.index` that exists but does not decode, which the source silently replaces by an empty dictionary, is passed as `None`. The constructor also requires the loaded dictionary to satisfy the engine's invariants, because a hand-edited file with duplicate values or malformed keys is not modelled.
- The real file system (`fs`, `File`, `OpenOptions`, `create_dir_all`, path formatting). The data folder is three map fields, and I/O errors, which the source turns into panics, are not modelled.
- Store.Storage.GenerateId: the random draw is a choice among unused identifiers; the distribution and the number of retries are not modelled.
- Store.Storage.Insert: requires a non-empty row and at least as many free identifiers as the row has new values. `Server.ExecuteInsert` models the two other cases: the panic at `ids_to_write[0]` and the endless retry of `generate_id`.
- Store.Storage.Select: requires a registered table with a row file to have at least one column. `Server.ExecuteSelect` models the panic at `buf[0..5]` on an empty buffer.
- Server.ExecuteInsert: when `generate_id` retries forever, the values of the row interned before the full identifier space was reached are already in the in-memory dictionary. The model keeps the dictionary as it was and promises only that the catalog and every file are unchanged and that the dictionary only grew. This is unobservable, because the storage lock is never released.
- Store.Storage.Insert: a row file deleted behind the server's back makes `insert` panic on `open(...).unwrap()`. `Valid()` rules this out, since every registered table keeps its row file in the model.
- Store.Storage.Select: the `from_utf8(...).unwrap()` panic on non-UTF-8 row bytes is not modelled. Row files are strings, and the engine only ever writes ASCII identifiers.
- Server.Serve: models one connection with sole use of the storage. In the source, requests on other connections take the same lock between two requests of this one (server/src/main.rs:41) and can change the storage, so `states[i+1]` is then not the state that request i+1 sees.
- `client/src/auth.rs` (PBKDF2-HMAC-SHA256 through openssl, hex decoding) is not part of this model. `verify` is an opaque predicate on user and password.
- `client/src/main.rs` (the command-line client) is not part of this model.

Three facts about the source:

- The dictionary is saved once per `insert`, after the row is written (server/src/storage.rs:96), not after each new identifier.
- A payload that is not JSON ends the connection without a reply (server/src/main.rs:24-27).
- A registered table whose row file has gone missing makes `insert` panic at server/src/storage.rs:91.
