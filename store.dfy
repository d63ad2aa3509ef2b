/**
 * The storage engine of the server (server/src/storage.rs): a global value
 * dictionary that interns every cell value under a five-character identifier,
 * an in-memory catalog of table schemas, and one append-only row file per
 * table holding fixed-stride rows of identifiers.
 *
 * The data folder is part of the state: `rowFiles` holds the contents of each
 * `<name>.bin`, `colsFiles` each `<name>.cols` sidecar, and `indexFile` the
 * dictionary last written to `dictionary.index`.
 */
module Store {
  import opened Wrappers
  import opened Ids
  import opened Text

  /** A row as `select` returns it: column name to value, plus the field "id". */
  type Row = map<string, string>

  /** No two identifiers share a value, so each value is interned at most once. */
  ghost predicate Injective(d: map<string, string>) {
    forall k1, k2 :: k1 in d && k2 in d && d[k1] == d[k2] ==> k1 == k2
  }

  /** What holds of every dictionary the engine builds. */
  ghost predicate IndexInvariant(d: map<string, string>) {
    (forall k :: k in d ==> IsId(k)) && Injective(d)
  }

  /** `d2` keeps every entry of `d1`, unchanged. */
  ghost predicate Extends(d1: map<string, string>, d2: map<string, string>) {
    forall k :: k in d1 ==> k in d2 && d2[k] == d1[k]
  }

  /** The values of a row that are not yet interned; each costs one fresh identifier. */
  function FreshValues(values: seq<string>, d: map<string, string>): set<string> {
    set v | v in values && v !in d.Values
  }

  ghost predicate Distinct(names: seq<string>) {
    forall i, j :: 0 <= i < j < |names| ==> names[i] != names[j]
  }

  /** The value of an identifier, or "" when the dictionary does not know it. */
  function Resolve(d: map<string, string>, id: string): string {
    if id in d then d[id] else ""
  }

  /** The length in characters of one row of a table with these columns. */
  function Stride(columns: seq<string>): nat {
    IdLength * |columns|
  }

  /** The identifier stored for column i in a row buffer. */
  function Cell(buf: string, i: nat): string
    requires IdLength * i + IdLength <= |buf|
  {
    buf[IdLength * i..IdLength * i + IdLength]
  }

  /**
   * The row map once the first n columns are in; a later column of the same
   * name overwrites an earlier one, as `HashMap::insert` does.
   */
  function RowCells(buf: string, columns: seq<string>, d: map<string, string>, n: nat): Row
    requires n <= |columns| && |buf| == Stride(columns)
  {
    if n == 0 then map[]
    else RowCells(buf, columns, d, n - 1)[columns[n - 1] := Resolve(d, Cell(buf, n - 1))]
  }

  /** One stride of a row file, decoded; the field "id" is the first identifier. */
  function DecodeRow(buf: string, columns: seq<string>, d: map<string, string>): Row
    requires |columns| > 0 && |buf| == Stride(columns)
  {
    RowCells(buf, columns, d, |columns|)["id" := buf[..IdLength]]
  }

  /** A row file, decoded stride by stride from the start; a trailing partial stride is ignored. */
  function DecodeRows(file: string, columns: seq<string>, d: map<string, string>): seq<Row>
    requires |columns| > 0
    decreases |file|
  {
    if |file| < Stride(columns) then []
    else [DecodeRow(file[..Stride(columns)], columns, d)] + DecodeRows(file[Stride(columns)..], columns, d)
  }

  /** `select` emits one row per complete stride of the file. */
  lemma {:induction false} DecodeRowsCount(file: string, columns: seq<string>, d: map<string, string>)
    requires |columns| > 0
    ensures |DecodeRows(file, columns, d)| == |file| / Stride(columns)
    decreases |file|
  {
    var s := Stride(columns);
    if |file| >= s {
      DecodeRowsCount(file[s..], columns, d);
      DivStep(|file|, s);
    }
  }

  lemma MulBound(k: int, s: int)
    requires s > 0
    ensures k >= 1 ==> k * s >= s
    ensures k <= -1 ==> k * s <= -s
  {
  }

  lemma DivUnique(a: int, s: int, q: int, r: int)
    requires s > 0 && a == q * s + r && 0 <= r < s
    ensures a / s == q && a % s == r
  {
    var q', r' := a / s, a % s;
    assert a == q' * s + r';
    assert (q' - q) * s == r - r';
    MulBound(q' - q, s);
  }

  lemma DivStep(x: nat, s: nat)
    requires 0 < s <= x
    ensures (x - s) / s == x / s - 1
    ensures x % s == 0 ==> (x - s) % s == 0
  {
    var q, r := x / s, x % s;
    assert x == q * s + r;
    assert x - s == (q - 1) * s + r;
    DivUnique(x - s, s, q - 1, r);
  }

  lemma AddStride(x: nat, s: nat)
    requires 0 < s
    ensures (x + s) % s == x % s
  {
    var q, r := x / s, x % s;
    assert x + s == (q + 1) * s + r;
    DivUnique(x + s, s, q + 1, r);
  }

  /** Rows are read in file order: a file of whole strides followed by more text reads as its rows, then the rows of the rest. */
  lemma {:induction false} DecodeRowsAppend(f: string, g: string, columns: seq<string>, d: map<string, string>)
    requires |columns| > 0 && |f| % Stride(columns) == 0
    ensures DecodeRows(f + g, columns, d) == DecodeRows(f, columns, d) + DecodeRows(g, columns, d)
    decreases |f|
  {
    var s := Stride(columns);
    if f == [] {
      assert f + g == g;
    } else {
      DivStep(|f|, s);
      assert (f + g)[..s] == f[..s];
      assert (f + g)[s..] == f[s..] + g;
      DecodeRowsAppend(f[s..], g, columns, d);
    }
  }

  /** A column's cell is the one of its last occurrence among the first n columns. */
  lemma {:induction false} RowCellsLast(buf: string, columns: seq<string>, d: map<string, string>, n: nat, j: nat)
    requires n <= |columns| && |buf| == Stride(columns) && j < n
    requires forall k :: j < k < n ==> columns[k] != columns[j]
    ensures columns[j] in RowCells(buf, columns, d, n)
    ensures RowCells(buf, columns, d, n)[columns[j]] == Resolve(d, Cell(buf, j))
  {
    if j < n - 1 {
      RowCellsLast(buf, columns, d, n - 1, j);
    }
  }

  lemma {:induction false} RowCellsKeys(buf: string, columns: seq<string>, d: map<string, string>, n: nat)
    requires n <= |columns| && |buf| == Stride(columns)
    ensures RowCells(buf, columns, d, n).Keys == set i | 0 <= i < n :: columns[i]
  {
    if n > 0 {
      RowCellsKeys(buf, columns, d, n - 1);
    }
  }

  /**
   * A decoded row has exactly the column names and "id" as fields.  A column
   * holds the value of the identifier of its last occurrence in the schema (""
   * when unknown), and "id" always holds the first identifier of the stride,
   * even when a column is named "id".
   */
  lemma DecodeRowFields(buf: string, columns: seq<string>, d: map<string, string>)
    requires |columns| > 0 && |buf| == Stride(columns)
    ensures DecodeRow(buf, columns, d).Keys == (set i | 0 <= i < |columns| :: columns[i]) + {"id"}
    ensures forall j :: 0 <= j < |columns| && columns[j] != "id" && (forall k :: j < k < |columns| ==> columns[k] != columns[j]) ==>
      DecodeRow(buf, columns, d)[columns[j]] == Resolve(d, Cell(buf, j))
    ensures DecodeRow(buf, columns, d)["id"] == Cell(buf, 0)
  {
    RowCellsKeys(buf, columns, d, |columns|);
    forall j | 0 <= j < |columns| && columns[j] != "id" && (forall k :: j < k < |columns| ==> columns[k] != columns[j])
      ensures DecodeRow(buf, columns, d)[columns[j]] == Resolve(d, Cell(buf, j))
    {
      RowCellsLast(buf, columns, d, |columns|, j);
    }
  }

  /**
   * Insert followed by select gives the values back: appending the identifiers
   * of one row to a file of whole strides adds exactly one row at the end,
   * whose columns resolve to the inserted values.
   */
  lemma InsertedRowReadsBack(file: string, columns: seq<string>, d: map<string, string>,
                             ids: seq<string>, values: seq<string>)
    requires |columns| > 0 && |file| % Stride(columns) == 0
    requires |ids| == |columns| && |values| == |columns|
    requires forall j :: 0 <= j < |ids| ==> |ids[j]| == IdLength && ids[j] in d && d[ids[j]] == values[j]
    requires Distinct(columns) && "id" !in columns
    ensures var rows := DecodeRows(file + Concat(ids), columns, d);
      && |rows| == |DecodeRows(file, columns, d)| + 1
      && rows[..|rows| - 1] == DecodeRows(file, columns, d)
      && rows[|rows| - 1].Keys == (set i | 0 <= i < |columns| :: columns[i]) + {"id"}
      && (forall j :: 0 <= j < |columns| ==> rows[|rows| - 1][columns[j]] == values[j])
      && rows[|rows| - 1]["id"] == ids[0]
  {
    var row := Concat(ids);
    ConcatLength(ids, IdLength);
    DecodeRowsAppend(file, row, columns, d);
    assert row[..Stride(columns)] == row;
    assert DecodeRows(row[Stride(columns)..], columns, d) == [];
    assert DecodeRows(row, columns, d) == [DecodeRow(row, columns, d)];
    DecodeRowFields(row, columns, d);
    forall j | 0 <= j < |columns|
      ensures Cell(row, j) == ids[j]
      ensures forall k :: j < k < |columns| ==> columns[k] != columns[j]
    {
      ConcatCell(ids, IdLength, j);
    }
  }

  /** The engine's state as a value: the catalog, the dictionary and the data folder. */
  datatype State = State(
    tables: map<string, seq<string>>,
    dictionary: map<string, string>,
    rowFiles: map<string, string>,
    colsFiles: map<string, string>,
    indexFile: Option<map<string, string>>)

  /** The message `create_table` returns for a table name. */
  function CreateMessage(name: string, existed: bool): string {
    if existed then "Table " + name + " already exists." else "Table " + name + " created."
  }

  /**
   * The state `create_table` leaves.  With a row file the table is
   * re-registered, from the sidecar when there is one; otherwise both files
   * are written and the columns registered.
   */
  function AfterCreateTable(s: State, name: string, columns: seq<string>): State {
    if name in s.rowFiles then
      s.(tables := s.tables[name := if name in s.colsFiles then Split(s.colsFiles[name], ',') else columns])
    else
      s.(tables := s.tables[name := columns],
         rowFiles := s.rowFiles[name := ""],
         colsFiles := s.colsFiles[name := Join(columns, ',')])
  }

  /**
   * Re-registering a table can break its row file.  A table created with the
   * one column "a,b" holds a row of one identifier; `create_table` on it again
   * reloads the sidecar as the two columns "a" and "b", so the file is no
   * longer a whole number of strides and its row no longer reads back.
   */
  lemma RecreateCanMisalign()
    ensures var s := State(map["t" := ["a,b"]], map["AAAAA" := "v"], map["t" := "AAAAA"], map["t" := Join(["a,b"], ',')], None);
      var s' := AfterCreateTable(s, "t", ["a,b"]);
      && |s.rowFiles["t"]| % Stride(s.tables["t"]) == 0
      && |DecodeRows(s.rowFiles["t"], s.tables["t"], s.dictionary)| == 1
      && s'.tables["t"] == ["a", "b"] && s'.rowFiles == s.rowFiles
      && |s'.rowFiles["t"]| % Stride(s'.tables["t"]) != 0
      && DecodeRows(s'.rowFiles["t"], s'.tables["t"], s'.dictionary) == []
  {
    var file := "AAAAA";
    assert Join(["a,b"], ',') == "a,b";
    assert Split("a,b", ',') == ["a", "b"] by {
      assert "b"[1..] == "" && "b"[0] == 'b';
      assert Split("", ',') == [""];
      assert ['b'] + "" == "b";
      assert Split("b", ',') == ["b"];
      assert ",b"[1..] == "b";
      assert Split(",b", ',') == ["", "b"];
      assert "a,b"[1..] == ",b" && "a,b"[0] == 'a';
      assert ['a'] + "" == "a";
    }
    assert file[5..] == "";
    assert DecodeRows(file, ["a,b"], map["AAAAA" := "v"]) == [DecodeRow(file[..5], ["a,b"], map["AAAAA" := "v"])];
  }

  /** Whether `insert` accepts a row: the table is registered and the arity matches. */
  predicate Accepts(s: State, table: string, values: seq<string>) {
    table in s.tables && |s.tables[table]| == |values|
  }

  /**
   * What a successful `insert` of `values` as the identifiers `ids` makes of
   * state `s`: each identifier holds its value, a value already stored keeps
   * its identifier, equal values share one, the dictionary only grows and only
   * by values of the row, the row file gains exactly the row, the dictionary is
   * persisted, and nothing else changes.
   */
  ghost predicate InsertedState(s: State, table: string, values: seq<string>, ids: seq<string>, s': State) {
    && |ids| == |values|
    && (forall j :: 0 <= j < |ids| ==> IsId(ids[j]) && ids[j] in s'.dictionary && s'.dictionary[ids[j]] == values[j])
    && (forall j, k :: 0 <= j < |ids| && k in s.dictionary && s.dictionary[k] == values[j] ==> ids[j] == k)
    && (forall a, b :: 0 <= a < |ids| && 0 <= b < |ids| ==> (ids[a] == ids[b] <==> values[a] == values[b]))
    && IndexInvariant(s'.dictionary)
    && Extends(s.dictionary, s'.dictionary)
    && (forall k :: k in s'.dictionary && k !in s.dictionary ==> s'.dictionary[k] in values)
    && table in s.rowFiles
    && s'.rowFiles == s.rowFiles[table := s.rowFiles[table] + Concat(ids)]
    && s'.indexFile == Some(s'.dictionary)
    && s'.tables == s.tables && s'.colsFiles == s.colsFiles
  }

  class Storage {
    /** Table name to ordered column names; in memory only. */
    var tables: map<string, seq<string>>
    /** Identifier to value, shared by all tables and columns. */
    var dictionary: map<string, string>
    /** The contents of each table's `<name>.bin` row file. */
    var rowFiles: map<string, string>
    /** The contents of each table's `<name>.cols` schema sidecar. */
    var colsFiles: map<string, string>
    /** The dictionary as last written to `dictionary.index`; None while the file is absent. */
    var indexFile: Option<map<string, string>>

    /** The current state as a value. */
    function Snapshot(): State
      reads this
    {
      State(tables, dictionary, rowFiles, colsFiles, indexFile)
    }

    /** Identifiers are well formed and unique per value; every registered table has a row file. */
    ghost predicate Valid()
      reads this
    {
      IndexInvariant(dictionary) && (forall t :: t in tables ==> t in rowFiles)
    }

    /** Whether `insert` accepts the call: the table is registered and the arity matches. */
    predicate Insertable(table: string, values: seq<string>)
      reads this
    {
      Accepts(Snapshot(), table, values)
    }

    /** The row file of a registered table holds a whole number of strides. */
    ghost predicate WholeStrides(t: string)
      reads this
    {
      t in tables && t in rowFiles && |tables[t]| > 0 && |rowFiles[t]| % Stride(tables[t]) == 0
    }

    /**
     * `Storage::new`: no table is registered; the dictionary is the one decoded
     * from `dictionary.index` (`index`, None when the file is absent or does not
     * decode), or empty.
     */
    constructor (bin: map<string, string>, cols: map<string, string>, index: Option<map<string, string>>)
      requires index.Some? ==> IndexInvariant(index.value)
      ensures Valid()
      ensures tables == map[] && rowFiles == bin && colsFiles == cols && indexFile == index
      ensures dictionary == if index.Some? then index.value else map[]
    {
      tables := map[];
      dictionary := if index.Some? then index.value else map[];
      rowFiles := bin;
      colsFiles := cols;
      indexFile := index;
    }

    /** `save_index`: the whole dictionary overwrites `dictionary.index`. */
    method SaveIndex()
      modifies this`indexFile
      ensures indexFile == Some(dictionary)
    {
      indexFile := Some(dictionary);
    }

    /**
     * `generate_id`: a fresh identifier.  The random draw-until-unused loop is
     * modelled as a choice among the identifiers not yet taken, which exist
     * whenever fewer than 62^5 are.
     */
    method GenerateId() returns (id: string)
      requires |dictionary| < IdSpace
      ensures IsId(id) && id !in dictionary
    {
      FreeIdExists(dictionary.Keys);
      var k :| 0 <= k < IdSpace && IdOf(k) !in dictionary;
      id := IdOf(k);
    }

    /** The linear scan `dictionary_index.iter().find(|(_, v)| v == val)`, in no particular order. */
    method FindKey(val: string) returns (found: Option<string>)
      ensures found.Some? ==> found.value in dictionary && dictionary[found.value] == val
      ensures found.None? ==> val !in dictionary.Values
    {
      var keys := dictionary.Keys;
      while keys != {}
        invariant keys <= dictionary.Keys
        invariant forall k :: k in dictionary && k !in keys ==> dictionary[k] != val
        decreases keys
      {
        var k :| k in keys;
        if dictionary[k] == val {
          return Some(k);
        }
        keys := keys - {k};
      }
      return None;
    }

    /**
     * The dictionary lookup of one value inside `insert`: the identifier that
     * already holds the value, or else a fresh identifier now holding it.
     * Existing entries are never changed or removed.
     */
    method Intern(val: string) returns (id: string)
      requires IndexInvariant(dictionary)
      requires val !in dictionary.Values ==> |dictionary| < IdSpace
      modifies this`dictionary
      ensures IndexInvariant(dictionary)
      ensures Extends(old(dictionary), dictionary)
      ensures id in dictionary && dictionary[id] == val
      ensures val in old(dictionary).Values ==> dictionary == old(dictionary)
      ensures val !in old(dictionary).Values ==> id !in old(dictionary) && dictionary == old(dictionary)[id := val]
      ensures forall k :: k in dictionary && k !in old(dictionary) ==> k == id
    {
      var found := FindKey(val);
      if found.Some? {
        id := found.value;
      } else {
        id := GenerateId();
        dictionary := dictionary[id := val];
      }
    }

    /**
     * The loop of `insert` over the values of a row: each value is interned in
     * column order and its identifier collected.
     */
    method InternRow(values: seq<string>) returns (written: seq<string>)
      requires IndexInvariant(dictionary)
      requires |dictionary| + |FreshValues(values, dictionary)| <= IdSpace
      modifies this`dictionary
      ensures IndexInvariant(dictionary) && Extends(old(dictionary), dictionary)
      ensures |written| == |values|
      ensures forall j :: 0 <= j < |values| ==> written[j] in dictionary && dictionary[written[j]] == values[j]
      ensures forall k :: k in dictionary && k !in old(dictionary) ==> dictionary[k] in values
    {
      written := [];
      var i := 0;
      assert values[..0] == [];
      while i < |values|
        invariant 0 <= i <= |values|
        invariant RowProgress(old(dictionary), dictionary, values, written, i)
      {
        ghost var d := dictionary;
        if values[i] !in dictionary.Values {
          FreshStep(values, i, written, old(dictionary), dictionary);
        }
        var id := Intern(values[i]);
        InternStep(old(dictionary), d, dictionary, values, i, written, id);
        written := written + [id];
        i := i + 1;
      }
      assert values[..i] == values;
    }

    /** The writes of `insert`: the identifiers of one row appended to the table's row file, one after another. */
    method AppendRow(table: string, ids: seq<string>)
      requires table in rowFiles
      modifies this`rowFiles
      ensures rowFiles == old(rowFiles)[table := old(rowFiles)[table] + Concat(ids)]
    {
      var file := rowFiles[table];
      var j := 0;
      while j < |ids|
        invariant 0 <= j <= |ids|
        invariant file == old(rowFiles)[table] + Concat(ids[..j])
      {
        assert ids[..j + 1][..j] == ids[..j];
        file := file + ids[j];
        j := j + 1;
      }
      assert ids[..j] == ids;
      rowFiles := rowFiles[table := file];
    }

    /**
     * `create_table`.  If the row file exists the table is re-registered, with
     * the columns of the sidecar when there is one and the supplied columns
     * otherwise, and no file changes.  Otherwise an empty row file and a
     * comma-joined sidecar are written and the supplied columns registered.
     * Either way the call succeeds.
     */
    method CreateTable(name: string, columns: seq<string>) returns (ok: bool, message: string)
      requires Valid()
      modifies this
      ensures Valid()
      ensures ok
      ensures dictionary == old(dictionary) && indexFile == old(indexFile)
      ensures name in old(rowFiles) ==>
        && message == "Table " + name + " already exists."
        && rowFiles == old(rowFiles) && colsFiles == old(colsFiles)
        && tables == old(tables)[name := if name in old(colsFiles) then Split(old(colsFiles)[name], ',') else columns]
      ensures name !in old(rowFiles) ==>
        && message == "Table " + name + " created."
        && rowFiles == old(rowFiles)[name := ""]
        && colsFiles == old(colsFiles)[name := Join(columns, ',')]
        && tables == old(tables)[name := columns]
      ensures Snapshot() == AfterCreateTable(old(Snapshot()), name, columns)
      ensures message == CreateMessage(name, name in old(rowFiles))
      ensures name !in old(rowFiles) && |columns| > 0 ==> WholeStrides(name)
      ensures forall t :: t != name && old(WholeStrides(t)) ==> WholeStrides(t)
    {
      if name in rowFiles {
        if name in colsFiles {
          tables := tables[name := Split(colsFiles[name], ',')];
        } else {
          tables := tables[name := columns];
        }
        return true, "Table " + name + " already exists.";
      }
      rowFiles := rowFiles[name := ""];
      colsFiles := colsFiles[name := Join(columns, ',')];
      tables := tables[name := columns];
      return true, "Table " + name + " created.";
    }

    /**
     * `insert`.  Fails, changing nothing, when the table is not registered or
     * the number of values differs from its column count.  Otherwise each value
     * is mapped to the identifier that already holds it, or to a fresh
     * identifier added to the dictionary; the identifiers are appended to the
     * row file as one row, the dictionary is saved, and the identifier of the
     * first value is returned.  `ids` names the identifiers of the row.
     */
    method Insert(table: string, values: seq<string>) returns (ok: bool, first: Option<string>, ghost ids: seq<string>)
      requires Valid()
      // with no columns, `ids_to_write[0]` panics
      requires Insertable(table, values) ==> values != []
      // with every identifier taken, `generate_id` retries forever
      requires Insertable(table, values) ==> |dictionary| + |FreshValues(values, dictionary)| <= IdSpace
      modifies this
      ensures Valid()
      ensures ok == old(Insertable(table, values))
      ensures tables == old(tables) && colsFiles == old(colsFiles)
      ensures !ok ==> first == None && unchanged(this)
      ensures ok ==> |ids| == |values| && first == Some(ids[0])
      ensures ok ==> forall j :: 0 <= j < |ids| ==> IsId(ids[j]) && ids[j] in dictionary && dictionary[ids[j]] == values[j]
      ensures ok ==> Extends(old(dictionary), dictionary)
      ensures ok ==> forall k :: k in dictionary && k !in old(dictionary) ==> dictionary[k] in values
      ensures ok ==> forall j, k :: 0 <= j < |ids| && k in old(dictionary) && old(dictionary)[k] == values[j] ==> ids[j] == k
      ensures ok ==> forall a, b :: 0 <= a < |ids| && 0 <= b < |ids| ==> (ids[a] == ids[b] <==> values[a] == values[b])
      ensures ok ==> rowFiles == old(rowFiles)[table := old(rowFiles)[table] + Concat(ids)]
      ensures ok ==> indexFile == Some(dictionary)
      ensures forall t :: old(WholeStrides(t)) ==> WholeStrides(t)
      ensures !ok ==> Snapshot() == old(Snapshot())
      ensures ok ==> InsertedState(old(Snapshot()), table, values, ids, Snapshot())
    {
      if table !in tables {
        return false, None, [];
      }
      var columns := tables[table];
      if |columns| != |values| {
        return false, None, [];
      }
      var written := InternRow(values);
      InternedIds(old(dictionary), dictionary, values, written);
      AppendRow(table, written);
      SaveIndex();
      StridesAfterAppend(old(rowFiles), rowFiles, tables, table, written);
      ok, first, ids := true, Some(written[0]), written;
    }

    /**
     * `select`.  Fails with no rows when the table is not registered or its row
     * file is missing.  Otherwise the file is read stride by stride and every
     * complete stride becomes one decoded row, in file order.
     */
    method Select(table: string) returns (ok: bool, rows: seq<Row>)
      requires Valid()
      // with no columns the buffer is empty, `read_exact` succeeds and `buf[0..5]` panics
      requires table in tables && table in rowFiles ==> tables[table] != []
      ensures ok == (table in tables && table in rowFiles)
      ensures ok ==> rows == DecodeRows(rowFiles[table], tables[table], dictionary)
      ensures !ok ==> rows == []
    {
      if table !in tables {
        return false, [];
      }
      var columns := tables[table];
      if table !in rowFiles {
        return false, [];
      }
      var file := rowFiles[table];
      var stride := IdLength * |columns|;
      rows := [];
      var pos := 0;
      while pos + stride <= |file|
        invariant 0 <= pos <= |file|
        invariant rows + DecodeRows(file[pos..], columns, dictionary) == DecodeRows(file, columns, dictionary)
        decreases |file| - pos
      {
        var buf := file[pos..pos + stride];
        var row: Row := map[];
        var i := 0;
        while i < |columns|
          invariant 0 <= i <= |columns|
          invariant row == RowCells(buf, columns, dictionary, i)
        {
          var id := buf[IdLength * i..IdLength * i + IdLength];
          row := row[columns[i] := if id in dictionary then dictionary[id] else ""];
          i := i + 1;
        }
        row := row["id" := buf[..IdLength]];
        assert file[pos..][..stride] == buf;
        assert file[pos..][stride..] == file[pos + stride..];
        rows := rows + [row];
        pos := pos + stride;
      }
      ok := true;
    }
  }

  /**
   * In a dictionary without duplicate values, the identifiers of a row agree
   * exactly where the values agree, and a value that was already interned keeps
   * its old identifier.
   */
  lemma InternedIds(d0: map<string, string>, d: map<string, string>, values: seq<string>, ids: seq<string>)
    requires Injective(d) && Extends(d0, d) && |ids| == |values|
    requires forall j :: 0 <= j < |values| ==> ids[j] in d && d[ids[j]] == values[j]
    ensures forall j, k :: 0 <= j < |ids| && k in d0 && d0[k] == values[j] ==> ids[j] == k
    ensures forall a, b :: 0 <= a < |ids| && 0 <= b < |ids| ==> (ids[a] == ids[b] <==> values[a] == values[b])
  {
  }

  /**
   * What the loop of `insert` has established after i values: every collected
   * identifier holds its value, the dictionary only grew, by values of the row,
   * and by at most one identifier per value not interned before the loop.
   */
  ghost predicate RowProgress(d0: map<string, string>, d: map<string, string>,
                              values: seq<string>, written: seq<string>, i: nat)
  {
    && i <= |values| && |written| == i
    && IndexInvariant(d)
    && Extends(d0, d)
    && (forall j :: 0 <= j < i ==> written[j] in d && d[written[j]] == values[j])
    && (forall k :: k in d && k !in d0 ==> d[k] in values[..i])
    && |d| <= |d0| + |FreshValues(values[..i], d0)|
  }

  /** One step of the loop of `insert` keeps `RowProgress`. */
  lemma InternStep(d0: map<string, string>, d: map<string, string>, d': map<string, string>,
                   values: seq<string>, i: nat, written: seq<string>, id: string)
    requires i < |values| && RowProgress(d0, d, values, written, i)
    requires IndexInvariant(d') && Extends(d, d') && id in d' && d'[id] == values[i]
    requires forall k :: k in d' && k !in d ==> k == id
    requires values[i] in d.Values ==> d' == d
    requires values[i] !in d.Values ==> id !in d && d' == d[id := values[i]]
    ensures RowProgress(d0, d', values, written + [id], i + 1)
  {
    assert values[..i + 1] == values[..i] + [values[i]];
    var before := FreshValues(values[..i], d0);
    var after := FreshValues(values[..i + 1], d0);
    assert before <= after;
    SubsetCard(before, after);
    if values[i] !in d.Values {
      FreshStep(values, i, written, d0, d);
      assert |d'| == |d| + 1;
    }
    forall k | k in d' && k !in d0
      ensures d'[k] in values[..i + 1]
    {
      if k in d {
        assert d'[k] == d[k];
      }
    }
  }

  /** Appending one row of identifiers keeps every row file a whole number of strides. */
  lemma StridesAfterAppend(files: map<string, string>, files': map<string, string>,
                           tables: map<string, seq<string>>, table: string, ids: seq<string>)
    requires table in files && table in tables && |ids| == |tables[table]|
    requires forall j :: 0 <= j < |ids| ==> |ids[j]| == IdLength
    requires files' == files[table := files[table] + Concat(ids)]
    ensures forall t :: t in tables && t in files && |tables[t]| > 0 && |files[t]| % Stride(tables[t]) == 0 ==>
      t in files' && |files'[t]| % Stride(tables[t]) == 0
  {
    ConcatLength(ids, IdLength);
    if |ids| > 0 {
      AddStride(|files[table]|, Stride(tables[table]));
    }
  }

  /**
   * A value that is not yet interned is new to the row as well, so the fresh
   * identifier drawn for it stays within the row's count of fresh values.
   */
  lemma FreshStep(values: seq<string>, i: nat, written: seq<string>, d0: map<string, string>, d: map<string, string>)
    requires i < |values| && |written| == i
    requires Extends(d0, d)
    requires forall j :: 0 <= j < i ==> written[j] in d && d[written[j]] == values[j]
    requires values[i] !in d.Values
    requires |d| <= |d0| + |FreshValues(values[..i], d0)|
    ensures |d| + 1 <= |d0| + |FreshValues(values, d0)|
    ensures values[i] !in FreshValues(values[..i], d0)
    ensures FreshValues(values[..i + 1], d0) == FreshValues(values[..i], d0) + {values[i]}
  {
    var before := FreshValues(values[..i], d0);
    var v := values[i];
    forall k | k in d0 ensures d0[k] != v {
      assert d[k] == d0[k];
    }
    assert v !in d0.Values;
    forall j | 0 <= j < i ensures values[j] != v {
      assert d[written[j]] == values[j];
    }
    assert v !in before;
    assert values[..i + 1] == values[..i] + [v];
    assert FreshValues(values[..i + 1], d0) == before + {v};
    assert before + {v} <= FreshValues(values, d0);
    SubsetCard(before + {v}, FreshValues(values, d0));
  }
}
