/** SqliteKVS: the native helper behind the SQLite store. One table, `KeyValueStore`, whose `key`
    column is the primary key; writes are upserts that replace the value on conflict, reads run a
    select that yields one row or none. The select and upsert statements are prepared on first use
    and reset and rebound on every later use.

    The database is seen through what the store can observe of it: whether the connection is open,
    whether the table exists, the rows the connection sees (`table`), the rows on disk
    (`committed`), and whether an explicit transaction is open. A failing `sqlite3_step` is a
    parameter (`fault`). How SQLite converts a column of one kind when it is read as another is a
    parameter of the connection (`Coercion`). `begin`, `commit`, `delete_key`, `delete_all` and
    `run_sql` are imported by the C# store but not defined in this C file; they are given their
    SQL meaning directly. */
module SqliteNative {
  import opened Wrappers
  import opened Values

  const SQLITE_OK := 0
  const SQLITE_ERROR := 1
  const SQLITE_BUSY := 5
  const SQLITE_MISUSE := 21
  const SQLITE_ROW := 100
  const SQLITE_DONE := 101

  /** A result code a failing `sqlite3_step` can report: none of OK, ROW and DONE. */
  type StepError = c: int | 0 < c && c != 100 && c != 101 witness 1

  /** A stored value: what `bind_int64`, `bind_text16` and `bind_blob64` store; a null text or
      blob argument stores NULL. */
  datatype Cell = IntCell(i: int64) | TextCell(t: string) | BlobCell(b: seq<byte>) | NullCell

  /** SQLite's answers for a column read as a kind other than the one written. */
  datatype Coercion = Coercion(int64Of: Cell -> int64, bytesOf: Cell -> seq<byte>, textOf: Cell -> Option<string>)

  /** `sqlite3_column_int64`. */
  function ColumnInt64(co: Coercion, c: Cell): (r: int64)
    ensures c.IntCell? ==> r == c.i
  {
    if c.IntCell? then c.i else co.int64Of(c)
  }

  /** `sqlite3_column_blob` answers a NULL address for a value with no bytes: NULL, a zero-length
      blob or an empty text. An integer is read as its decimal text, which is never empty. */
  predicate NullAddress(c: Cell)
  {
    c.NullCell? || c == BlobCell([]) || c == TextCell([])
  }

  /** The bytes behind `sqlite3_column_blob` / `sqlite3_column_bytes`. */
  function ColumnBytes(co: Coercion, c: Cell): (r: seq<byte>)
    ensures c.BlobCell? ==> r == c.b
    ensures NullAddress(c) ==> r == []
  {
    if c.BlobCell? then c.b else if NullAddress(c) then [] else co.bytesOf(c)
  }

  /** The column's bytes read back as UTF-16 text. */
  function ColumnText(co: Coercion, c: Cell): (r: Option<string>)
    ensures c.TextCell? ==> r == Some(c.t)
  {
    if c.TextCell? then Some(c.t) else co.textOf(c)
  }

  /** The `try_get_*` return code for a select step (a positive result code): 0 for no row, 1 for
      a row, the negated step code otherwise. */
  function TryGetCode(step: int): (r: int)
    requires step > 0
    ensures r == 1 <==> step == SQLITE_ROW
    ensures r == 0 <==> step == SQLITE_DONE
    ensures r < 0 <==> step != SQLITE_ROW && step != SQLITE_DONE
    ensures r < 0 ==> r == -step
  {
    if step == SQLITE_DONE then 0
    else if step == SQLITE_ROW then 1
    else -step
  }

  class Kvs {
    const sqlite: Coercion
    /** `db != NULL` and the connection is open. */
    var dbOpen: bool
    var tableExists: bool
    var table: map<string, Cell>
    var committed: map<string, Cell>
    var inTransaction: bool
    /** `stmt_select != NULL`, `stmt_upsert != NULL`. */
    var selectPrepared: bool
    var upsertPrepared: bool
    /** The select has stepped to a row and has not been reset. */
    var selectActive: bool
    var selectKey: string
    var upsertKey: string
    var commits: nat
    /** BEGINs issued inside an open transaction (each fails in SQLite). */
    var nestedBegins: nat
    /** Connections whose handle was dropped while still open. */
    var leakedConnections: nat
    /** The SQL text of the last `run_sql`. */
    var lastSql: string

    /** The zero-initialised struct. */
    constructor(sqlite: Coercion)
      ensures this.sqlite == sqlite && !dbOpen && !tableExists && !inTransaction
      ensures !selectPrepared && !upsertPrepared && !selectActive
      ensures table == map[] && committed == map[]
      ensures commits == 0 && nestedBegins == 0 && leakedConnections == 0
    {
      this.sqlite := sqlite;
      dbOpen, tableExists, inTransaction := false, false, false;
      selectPrepared, upsertPrepared, selectActive := false, false, false;
      selectKey, upsertKey, lastSql := "", "", "";
      table, committed := map[], map[];
      commits, nestedBegins, leakedConnections := 0, 0, 0;
    }

    /** `SqliteKVS_open`: the `sqlite3_open16` error is returned as is and no table is created;
        otherwise the result of the CREATE TABLE IF NOT EXISTS step, which is DONE, not OK, when
        it succeeds. `onDisk` is the table already in the file, if any. */
    method Open(openCode: int, onDisk: Option<map<string, Cell>>, createFault: Option<StepError>) returns (rc: int)
      requires !dbOpen
      modifies this
      ensures openCode != SQLITE_OK ==> rc == openCode && !dbOpen && !tableExists
      ensures (openCode == SQLITE_OK <==> dbOpen) && !inTransaction
      ensures openCode == SQLITE_OK && createFault.Some? ==>
        rc == createFault.value && (tableExists <==> onDisk.Some?)
      ensures openCode == SQLITE_OK && createFault.None? ==> rc == SQLITE_DONE && tableExists
      ensures tableExists ==> table == committed == (if onDisk.Some? then onDisk.value else map[])
      ensures !selectPrepared && !upsertPrepared && !selectActive
      ensures commits == old(commits) && nestedBegins == old(nestedBegins)
      ensures leakedConnections == old(leakedConnections)
    {
      selectPrepared, upsertPrepared, selectActive, inTransaction := false, false, false, false;
      tableExists := false;
      if openCode != SQLITE_OK {
        return openCode;
      }
      dbOpen := true;
      table := if onDisk.Some? then onDisk.value else map[];
      committed := table;
      if createFault.Some? {
        tableExists := onDisk.Some?;
        return createFault.value;
      }
      tableExists := true;
      rc := SQLITE_DONE;
    }

    /** `SqliteKVS_prepare_select`: prepare on first use (it fails, leaving the handle NULL, when
        there is no table), otherwise reset; then bind the key. */
    method PrepareSelect(key: string)
      modifies this`selectPrepared, this`selectActive, this`selectKey
      ensures old(selectPrepared) ==> selectPrepared
      ensures !old(selectPrepared) ==> (selectPrepared <==> dbOpen && tableExists)
      ensures !selectActive && selectKey == key
    {
      if !selectPrepared {
        selectPrepared := dbOpen && tableExists;
      }
      selectActive := false;
      selectKey := key;
    }

    /** `sqlite3_step` on the select: MISUSE on a NULL statement, the fault if any, else ROW when
        the key has a row and DONE when it has none. */
    method StepSelect(fault: Option<StepError>) returns (step: int, row: Option<Cell>)
      modifies this`selectActive
      ensures !selectPrepared ==> step == SQLITE_MISUSE && row == None && !selectActive
      ensures selectPrepared && fault.Some? ==> step == fault.value && row == None && !selectActive
      ensures selectPrepared && fault.None? && selectKey in table ==>
        step == SQLITE_ROW && row == Some(table[selectKey]) && selectActive
      ensures selectPrepared && fault.None? && selectKey !in table ==>
        step == SQLITE_DONE && row == None && !selectActive
    {
      if !selectPrepared {
        selectActive := false;
        return SQLITE_MISUSE, None;
      }
      if fault.Some? {
        selectActive := false;
        return fault.value, None;
      }
      if selectKey in table {
        selectActive := true;
        return SQLITE_ROW, Some(table[selectKey]);
      }
      selectActive := false;
      step, row := SQLITE_DONE, None;
    }

    /** `SqliteKVS_try_get_int`: the out value is written only when a row is found. */
    method TryGetInt(key: string, fault: Option<StepError>) returns (rc: int, value: Option<int64>)
      modifies this`selectPrepared, this`selectActive, this`selectKey
      ensures selectKey == key && (old(selectPrepared) ==> selectPrepared)
      ensures !old(selectPrepared) ==> (selectPrepared <==> dbOpen && tableExists)
      ensures rc == 1 <==> selectPrepared && fault.None? && key in table
      ensures rc == 1 ==> value == Some(ColumnInt64(sqlite, table[key])) && selectActive
      ensures rc != 1 ==> value == None && !selectActive
      ensures rc == 0 <==> selectPrepared && fault.None? && key !in table
      ensures !selectPrepared ==> rc == -SQLITE_MISUSE
      ensures selectPrepared && fault.Some? ==> rc + fault.value == 0
    {
      PrepareSelect(key);
      var step, row := StepSelect(fault);
      rc := TryGetCode(step);
      value := if row.Some? then Some(ColumnInt64(sqlite, row.value)) else None;
    }

    /** `SqliteKVS_try_get_bytes`: the column address and length, here the row's cell. */
    method TryGetBytes(key: string, fault: Option<StepError>) returns (rc: int, column: Option<Cell>)
      modifies this`selectPrepared, this`selectActive, this`selectKey
      ensures selectKey == key && (old(selectPrepared) ==> selectPrepared)
      ensures !old(selectPrepared) ==> (selectPrepared <==> dbOpen && tableExists)
      ensures rc == 1 <==> selectPrepared && fault.None? && key in table
      ensures rc == 1 ==> column == Some(table[key]) && selectActive
      ensures rc != 1 ==> column == None && !selectActive
      ensures rc == 0 <==> selectPrepared && fault.None? && key !in table
      ensures !selectPrepared ==> rc == -SQLITE_MISUSE
      ensures selectPrepared && fault.Some? ==> rc + fault.value == 0
    {
      PrepareSelect(key);
      var step;
      step, column := StepSelect(fault);
      rc := TryGetCode(step);
    }

    /** `SqliteKVS_has_key`: 1 exactly when the step yields a row; errors count as no row. */
    method HasKey(key: string, fault: Option<StepError>) returns (rc: int)
      modifies this`selectPrepared, this`selectActive, this`selectKey
      ensures selectKey == key && (old(selectPrepared) ==> selectPrepared)
      ensures !old(selectPrepared) ==> (selectPrepared <==> dbOpen && tableExists)
      ensures rc == 1 <==> selectPrepared && fault.None? && key in table
      ensures rc == 0 <==> !(selectPrepared && fault.None? && key in table)
      ensures selectActive <==> rc == 1
    {
      PrepareSelect(key);
      var step, row := StepSelect(fault);
      rc := if step == SQLITE_ROW then 1 else 0;
    }

    /** `SqliteKVS_reset_select`. */
    method ResetSelect()
      modifies this`selectActive
      ensures !selectActive
    {
      selectActive := false;
    }

    /** `SqliteKVS_prepare_upsert`. */
    method PrepareUpsert(key: string)
      modifies this`upsertPrepared, this`upsertKey
      ensures old(upsertPrepared) ==> upsertPrepared
      ensures !old(upsertPrepared) ==> (upsertPrepared <==> dbOpen && tableExists)
      ensures upsertKey == key
    {
      if !upsertPrepared {
        upsertPrepared := dbOpen && tableExists;
      }
      upsertKey := key;
    }

    /** A write outside an explicit transaction is committed by itself. */
    method Store(rows: map<string, Cell>)
      modifies this`table, this`committed
      ensures table == rows
      ensures committed == if inTransaction then old(committed) else rows
    {
      table := rows;
      if !inTransaction {
        committed := rows;
      }
    }

    /** The shared body of `SqliteKVS_set_*`: prepare or reset the upsert, bind, step. */
    method Upsert(key: string, value: Cell, fault: Option<StepError>) returns (rc: int)
      modifies this`upsertPrepared, this`upsertKey, this`table, this`committed
      ensures upsertKey == key && (old(upsertPrepared) ==> upsertPrepared)
      ensures !old(upsertPrepared) ==> (upsertPrepared <==> dbOpen && tableExists)
      ensures rc == SQLITE_DONE <==> upsertPrepared && fault.None?
      ensures rc == SQLITE_DONE ==> table == old(table)[key := value]
      ensures rc == SQLITE_DONE ==> committed == if inTransaction then old(committed) else table
      ensures rc != SQLITE_DONE ==> table == old(table) && committed == old(committed)
      ensures !upsertPrepared ==> rc == SQLITE_MISUSE
      ensures upsertPrepared && fault.Some? ==> rc == fault.value
    {
      PrepareUpsert(key);
      if !upsertPrepared {
        return SQLITE_MISUSE;
      }
      if fault.Some? {
        return fault.value;
      }
      Store(table[key := value]);
      rc := SQLITE_DONE;
    }

    method SetInt(key: string, value: int64, fault: Option<StepError>) returns (rc: int)
      modifies this`upsertPrepared, this`upsertKey, this`table, this`committed
      ensures upsertKey == key && (old(upsertPrepared) ==> upsertPrepared)
      ensures !old(upsertPrepared) ==> (upsertPrepared <==> dbOpen && tableExists)
      ensures rc == SQLITE_DONE <==> upsertPrepared && fault.None?
      ensures rc == SQLITE_DONE ==> table == old(table)[key := IntCell(value)]
      ensures rc == SQLITE_DONE ==> committed == if inTransaction then old(committed) else table
      ensures rc != SQLITE_DONE ==> table == old(table) && committed == old(committed)
    {
      rc := Upsert(key, IntCell(value), fault);
    }

    /** A null text argument binds NULL. */
    method SetText(key: string, value: Option<string>, fault: Option<StepError>) returns (rc: int)
      modifies this`upsertPrepared, this`upsertKey, this`table, this`committed
      ensures upsertKey == key && (old(upsertPrepared) ==> upsertPrepared)
      ensures !old(upsertPrepared) ==> (upsertPrepared <==> dbOpen && tableExists)
      ensures rc == SQLITE_DONE <==> upsertPrepared && fault.None?
      ensures rc == SQLITE_DONE ==>
        table == old(table)[key := if value.Some? then TextCell(value.value) else NullCell]
      ensures rc == SQLITE_DONE ==> committed == if inTransaction then old(committed) else table
      ensures rc != SQLITE_DONE ==> table == old(table) && committed == old(committed)
    {
      rc := Upsert(key, if value.Some? then TextCell(value.value) else NullCell, fault);
    }

    /** A null blob argument binds NULL; an empty array binds a zero-length blob. */
    method SetBytes(key: string, value: Option<seq<byte>>, fault: Option<StepError>) returns (rc: int)
      modifies this`upsertPrepared, this`upsertKey, this`table, this`committed
      ensures upsertKey == key && (old(upsertPrepared) ==> upsertPrepared)
      ensures !old(upsertPrepared) ==> (upsertPrepared <==> dbOpen && tableExists)
      ensures rc == SQLITE_DONE <==> upsertPrepared && fault.None?
      ensures rc == SQLITE_DONE ==>
        table == old(table)[key := if value.Some? then BlobCell(value.value) else NullCell]
      ensures rc == SQLITE_DONE ==> committed == if inTransaction then old(committed) else table
      ensures rc != SQLITE_DONE ==> table == old(table) && committed == old(committed)
    {
      rc := Upsert(key, if value.Some? then BlobCell(value.value) else NullCell, fault);
    }

    /** `DELETE FROM KeyValueStore WHERE key = ?`. */
    method DeleteKey(key: string) returns (rc: int)
      modifies this`table, this`committed
      ensures rc == SQLITE_DONE <==> dbOpen && tableExists
      ensures rc == SQLITE_DONE ==> table == old(table) - {key}
      ensures rc == SQLITE_DONE ==> committed == if inTransaction then old(committed) else table
      ensures rc != SQLITE_DONE ==> table == old(table) && committed == old(committed)
    {
      if !(dbOpen && tableExists) {
        return if dbOpen then SQLITE_ERROR else SQLITE_MISUSE;
      }
      Store(table - {key});
      rc := SQLITE_DONE;
    }

    /** `DELETE FROM KeyValueStore`. */
    method DeleteAll() returns (rc: int)
      modifies this`table, this`committed
      ensures rc == SQLITE_DONE <==> dbOpen && tableExists
      ensures rc == SQLITE_DONE ==> table == map[]
      ensures rc == SQLITE_DONE ==> committed == if inTransaction then old(committed) else table
      ensures rc != SQLITE_DONE ==> table == old(table) && committed == old(committed)
    {
      if !(dbOpen && tableExists) {
        return if dbOpen then SQLITE_ERROR else SQLITE_MISUSE;
      }
      Store(map[]);
      rc := SQLITE_DONE;
    }

    /** `BEGIN`: fails inside an open transaction, which is counted. */
    method Begin() returns (rc: int)
      modifies this`inTransaction, this`nestedBegins
      ensures !dbOpen ==> rc == SQLITE_MISUSE && inTransaction == old(inTransaction)
      ensures dbOpen ==> inTransaction
      ensures dbOpen && old(inTransaction) ==> rc == SQLITE_ERROR && nestedBegins == old(nestedBegins) + 1
      ensures !(dbOpen && old(inTransaction)) ==> nestedBegins == old(nestedBegins)
      ensures dbOpen && !old(inTransaction) ==> rc == SQLITE_DONE
    {
      if !dbOpen {
        return SQLITE_MISUSE;
      }
      if inTransaction {
        nestedBegins := nestedBegins + 1;
        return SQLITE_ERROR;
      }
      inTransaction := true;
      rc := SQLITE_DONE;
    }

    /** `COMMIT`: the connection's rows become the rows on disk. */
    method Commit() returns (rc: int)
      modifies this`inTransaction, this`committed, this`commits
      ensures !inTransaction || !dbOpen
      ensures dbOpen && old(inTransaction) ==>
        rc == SQLITE_DONE && committed == table && commits == old(commits) + 1
      ensures !(dbOpen && old(inTransaction)) ==>
        rc != SQLITE_DONE && committed == old(committed) && commits == old(commits) &&
        inTransaction == old(inTransaction)
    {
      if !dbOpen {
        return SQLITE_MISUSE;
      }
      if !inTransaction {
        return SQLITE_ERROR;
      }
      inTransaction := false;
      committed := table;
      commits := commits + 1;
      rc := SQLITE_DONE;
    }

    /** `run_sql`: runs the text; its effect on the rows is not modelled, only the message the
        error callback was called with, if any (`reported`). */
    method RunSql(sql: string, reported: Option<string>) returns (error: Option<string>)
      modifies this`lastSql
      ensures lastSql == sql && error == reported
    {
      lastSql := sql;
      error := reported;
    }

    /** `sqlite3_close` on the handle, then zeroing the struct (the statement handles are NULL at
        the call): an open transaction is rolled back. */
    method CloseConnection()
      requires !selectPrepared && !upsertPrepared
      modifies this
      ensures !dbOpen && !tableExists && !inTransaction && !selectActive
      ensures table == committed == old(committed)
      ensures commits == old(commits) && nestedBegins == old(nestedBegins)
      ensures leakedConnections == old(leakedConnections) && !selectPrepared && !upsertPrepared
    {
      dbOpen, tableExists, inTransaction, selectActive := false, false, false, false;
      table := committed;
    }

    /** `SqliteKVS_close` as shipped: `sqlite3_close` comes first, and while either statement is
        still prepared it answers SQLITE_BUSY and leaves the connection open; the statements are
        then finalized and the struct zeroed, so that connection can no longer be reached. */
    method CloseAsWritten() returns (closeCode: int)
      modifies this
      ensures !dbOpen && !tableExists && !inTransaction && !selectPrepared && !upsertPrepared
      ensures table == committed
      ensures old(dbOpen) && (old(selectPrepared) || old(upsertPrepared)) ==>
        closeCode == SQLITE_BUSY && leakedConnections == old(leakedConnections) + 1
      ensures !(old(dbOpen) && (old(selectPrepared) || old(upsertPrepared))) ==>
        closeCode == SQLITE_OK && leakedConnections == old(leakedConnections)
      ensures committed == old(committed) && commits == old(commits)
      ensures nestedBegins == old(nestedBegins)
    {
      closeCode := SQLITE_OK;
      if dbOpen && (selectPrepared || upsertPrepared) {
        closeCode := SQLITE_BUSY;
        leakedConnections := leakedConnections + 1;
      }
      selectPrepared, upsertPrepared := false, false;
      CloseConnection();
    }

    /** `SqliteKVS_close` with the statements finalized before `sqlite3_close`, which then always
        closes the connection. */
    method Close() returns (closeCode: int)
      modifies this
      ensures !dbOpen && !tableExists && !inTransaction && !selectPrepared && !upsertPrepared
      ensures !selectActive && closeCode == SQLITE_OK && table == committed
      ensures leakedConnections == old(leakedConnections)
      ensures committed == old(committed) && commits == old(commits)
      ensures nestedBegins == old(nestedBegins)
    {
      selectPrepared, upsertPrepared := false, false;
      CloseConnection();
      closeCode := SQLITE_OK;
    }
  }

  /** The shipped close leaks the connection of any store that was read or written: one read
      prepares the select, and the close then finds it unfinalized. */
  method CloseAsWrittenLeaksAfterARead(co: Coercion, key: string) returns (closeCode: int)
    ensures closeCode == SQLITE_BUSY
  {
    var kvs := new Kvs(co);
    var rc := kvs.Open(SQLITE_OK, None, None);
    var got, value := kvs.TryGetInt(key, None);
    kvs.ResetSelect();
    closeCode := kvs.CloseAsWritten();
    assert kvs.leakedConnections == 1;
  }

  /** With the statements finalized first, the same sequence closes the connection. */
  method CloseReleasesAfterARead(co: Coercion, key: string) returns (closeCode: int)
    ensures closeCode == SQLITE_OK
  {
    var kvs := new Kvs(co);
    var rc := kvs.Open(SQLITE_OK, None, None);
    var got, value := kvs.TryGetInt(key, None);
    kvs.ResetSelect();
    closeCode := kvs.Close();
    assert kvs.leakedConnections == 0;
  }

  /** Upsert semantics: a value set and read back with the same kind comes back as set, and a
      second write of a key replaces the first. */
  method UpsertReplaces(co: Coercion, key: string, first: int64, second: int64) returns (rc: int, value: Option<int64>)
    ensures rc == 1 && value == Some(second)
  {
    var kvs := new Kvs(co);
    var openResult := kvs.Open(SQLITE_OK, None, None);
    var w1 := kvs.SetInt(key, first, None);
    var w2 := kvs.SetInt(key, second, None);
    rc, value := kvs.TryGetInt(key, None);
  }

  /** A select or upsert is prepared once: a second use finds the handle and only resets it. */
  method PreparedOnce(kvs: Kvs, k1: string, k2: string)
    requires kvs.dbOpen && kvs.tableExists
    modifies kvs
    ensures kvs.selectPrepared && kvs.upsertPrepared && kvs.selectKey == k2 && kvs.upsertKey == k2
  {
    kvs.PrepareSelect(k1);
    kvs.PrepareSelect(k2);
    kvs.PrepareUpsert(k1);
    kvs.PrepareUpsert(k2);
  }
}
