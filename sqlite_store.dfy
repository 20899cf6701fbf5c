/** SqliteKeyValueStore: the C# side of the SQLite backend. Every operation first makes sure a
    transaction is open (`EnsureTransaction` issues BEGIN only when `isInTransaction` is down);
    every write then asks for a commit on the next frame. That request is single-flight: while
    `isPendingCommit` is up further requests do nothing, and the continuation after
    `await Task.Yield()` commits and clears the flag in a `finally`. So a burst of writes in one
    frame costs one COMMIT, and reads keep the transaction they opened.

    The `await` is a queued continuation (`commitQueued`) that the next frame, `Tick`, runs. A
    failing native step is the `fault` parameter of each call. */
module SqliteStore {
  import opened Wrappers
  import opened Values
  import opened SqliteNative

  /** `char.IsWhiteSpace` on the ASCII range. */
  predicate IsWhiteSpace(c: char)
  {
    c == ' ' || c == '\t' || c == '\n' || c == '\r' || c as int == 11 || c as int == 12
  }

  /** `string.TrimStart()`: drops the leading white space and nothing else. */
  function TrimStart(s: string): (r: string)
    ensures |r| <= |s| && r == s[|s| - |r|..]
    ensures forall i :: 0 <= i < |s| - |r| ==> IsWhiteSpace(s[i])
    ensures r == [] || !IsWhiteSpace(r[0])
  {
    if s != [] && IsWhiteSpace(s[0]) then TrimStart(s[1..]) else s
  }

  predicate StartsWithIgnoreCase(s: string, prefix: string)
  {
    |prefix| <= |s| && EqualsIgnoreCase(s[..|prefix|], prefix)
  }

  /** The SQL text Pragma runs: the argument itself when, once leading white space is trimmed, it
      already starts with "pragma " in any case; otherwise the argument after "PRAGMA ". */
  function PragmaText(pragma: string): string
  {
    if StartsWithIgnoreCase(TrimStart(pragma), "pragma ") then pragma else "PRAGMA " + pragma
  }

  /** Whatever the argument, the text run is a PRAGMA statement, and the argument is kept whole
      at its end. */
  lemma PragmaTextIsPragma(pragma: string)
    ensures StartsWithIgnoreCase(TrimStart(PragmaText(pragma)), "pragma ")
    ensures PragmaText(pragma) == pragma || PragmaText(pragma) == "PRAGMA " + pragma
  {
    if !StartsWithIgnoreCase(TrimStart(pragma), "pragma ") {
      PrefixedIsPragma(pragma);
    }
  }

  /** The keyword the prefix adds matches "pragma " ignoring case. */
  lemma PragmaKeyword()
    ensures EqualsIgnoreCase("PRAGMA ", "pragma ")
  {
    forall i | 0 <= i < 7
      ensures Lower("PRAGMA "[i]) == Lower("pragma "[i])
    {
    }
  }

  /** The prefixed text starts with a non-blank character, so trimming keeps it whole. */
  lemma PrefixedIsPragma(pragma: string)
    ensures StartsWithIgnoreCase(TrimStart("PRAGMA " + pragma), "pragma ")
  {
    var t := "PRAGMA " + pragma;
    assert t[0] == 'P';
    assert TrimStart(t) == t;
    assert t[..7] == "PRAGMA ";
    PragmaKeyword();
  }

  /** Prefixing is idempotent: a text Pragma produced is run unchanged the second time. */
  lemma PragmaTextIdempotent(pragma: string)
    ensures PragmaText(PragmaText(pragma)) == PragmaText(pragma)
  {
    PragmaTextIsPragma(pragma);
  }

  /** A text that already names a pragma, in any case and after any leading white space, is run
      as given. */
  lemma PragmaTextKeepsPragmas(pragma: string)
    requires StartsWithIgnoreCase(TrimStart(pragma), "pragma ")
    ensures PragmaText(pragma) == pragma
  {
  }

  /** The text of `Vacuum`. */
  const VacuumSql := "VACUUM"

  class SqliteKeyValueStore {
    const native: Kvs
    var isInTransaction: bool
    var isPendingCommit: bool
    var commitQueued: bool

    /** The C# flag mirrors the connection's transaction; no BEGIN was ever issued inside a
        transaction; statements exist only on an open connection with its table. The select may
        be left stepped, which only a read that raises does. */
    ghost predicate Linked()
      reads this, native
    {
      (native.dbOpen ==> native.inTransaction == isInTransaction) &&
      (!native.dbOpen ==> !native.inTransaction) &&
      native.nestedBegins == 0 &&
      (native.selectPrepared ==> native.dbOpen && native.tableExists) &&
      (native.upsertPrepared ==> native.dbOpen && native.tableExists)
    }

    /** Between frames, the commit continuation is queued exactly while the flag is up. */
    ghost predicate Valid()
      reads this, native
    {
      Linked() && commitQueued == isPendingCommit
    }

    /** The connection is open and its table exists. */
    ghost predicate Ready()
      reads native
    {
      native.dbOpen && native.tableExists
    }

    /** The constructor opens the database; the result code is not looked at. */
    constructor(sqlite: Coercion, openCode: int, onDisk: Option<map<string, Cell>>, createFault: Option<StepError>)
      ensures Valid() && fresh(native) && native.sqlite == sqlite
      ensures !isInTransaction && !isPendingCommit
      ensures native.dbOpen <==> openCode == SQLITE_OK
      ensures Ready() <==> openCode == SQLITE_OK && (createFault.None? || onDisk.Some?)
      ensures Ready() ==> native.table == native.committed == (if onDisk.Some? then onDisk.value else map[])
      ensures native.commits == 0 && native.leakedConnections == 0
    {
      native := new Kvs(sqlite);
      isInTransaction, isPendingCommit, commitQueued := false, false, false;
      new;
      var rc := native.Open(openCode, onDisk, createFault);
    }

    /** BEGIN only when no transaction is open. */
    method EnsureTransaction()
      requires Linked()
      modifies this`isInTransaction, native`inTransaction, native`nestedBegins
      ensures Linked() && isInTransaction
      ensures native.dbOpen ==> native.inTransaction
      ensures old(isInTransaction) ==> native.inTransaction == old(native.inTransaction)
    {
      if !isInTransaction {
        isInTransaction := true;
        var rc := native.Begin();
      }
    }

    /** COMMIT only when a transaction is open; the flag goes down first. */
    method Commit()
      requires Linked()
      modifies this`isInTransaction, native`inTransaction, native`committed, native`commits
      ensures Linked() && !isInTransaction
      ensures old(isInTransaction) && native.dbOpen ==>
        native.commits == old(native.commits) + 1 && native.committed == native.table
      ensures !(old(isInTransaction) && native.dbOpen) ==>
        native.commits == old(native.commits) && native.committed == old(native.committed)
    {
      if isInTransaction {
        isInTransaction := false;
        var rc := native.Commit();
      }
    }

    /** ScheduleCommit up to its `await`: a no-op while a commit is pending. */
    method ScheduleCommit()
      requires Valid()
      modifies this`isPendingCommit, this`commitQueued
      ensures Valid() && isPendingCommit
      ensures old(isPendingCommit) ==> commitQueued == old(commitQueued)
    {
      if isPendingCommit {
        return;
      }
      isPendingCommit := true;
      commitQueued := true;
    }

    /** The next frame: the queued continuation, if any, commits and clears the flag. */
    method Tick()
      requires Valid()
      modifies this`isPendingCommit, this`commitQueued, this`isInTransaction
      modifies native`inTransaction, native`committed, native`commits
      ensures Valid() && !isPendingCommit
      ensures old(isPendingCommit) ==> !isInTransaction
      ensures old(isPendingCommit) && old(isInTransaction) && native.dbOpen ==>
        native.commits == old(native.commits) + 1 && native.committed == native.table
      ensures !(old(isPendingCommit) && old(isInTransaction) && native.dbOpen) ==>
        native.commits == old(native.commits) && native.committed == old(native.committed)
      ensures !old(isPendingCommit) ==> isInTransaction == old(isInTransaction)
    {
      if !commitQueued {
        return;
      }
      commitQueued := false;
      Commit();
      isPendingCommit := false;
    }

    method TryGetLong(key: string, fault: Option<StepError>) returns (ok: bool, value: int64)
      requires Valid()
      modifies this`isInTransaction, native`inTransaction, native`nestedBegins
      modifies native`selectPrepared, native`selectActive, native`selectKey
      ensures Valid() && isInTransaction
      ensures ok <==> Ready() && fault.None? && key in native.table
      ensures ok ==> value == ColumnInt64(native.sqlite, native.table[key])
      ensures !ok ==> value == 0
      ensures !native.selectActive
    {
      EnsureTransaction();
      var rc, got := native.TryGetInt(key, fault);
      native.ResetSelect();
      ok := rc == 1;
      value := if got.Some? then got.value else 0;
    }

    /** The unchecked `(int)` cast of the long read. */
    method TryGetInt(key: string, fault: Option<StepError>) returns (ok: bool, value: int32)
      requires Valid()
      modifies this`isInTransaction, native`inTransaction, native`nestedBegins
      modifies native`selectPrepared, native`selectActive, native`selectKey
      ensures Valid() && isInTransaction
      ensures ok <==> Ready() && fault.None? && key in native.table
      ensures ok ==> value == NarrowToInt32(ColumnInt64(native.sqlite, native.table[key]))
      ensures !ok ==> value == 0
      ensures !native.selectActive
    {
      var longValue;
      ok, longValue := TryGetLong(key, fault);
      value := if ok then NarrowToInt32(longValue) else 0;
    }

    method TryGetBool(key: string, fault: Option<StepError>) returns (ok: bool, value: bool)
      requires Valid()
      modifies this`isInTransaction, native`inTransaction, native`nestedBegins
      modifies native`selectPrepared, native`selectActive, native`selectKey
      ensures Valid() && isInTransaction
      ensures ok <==> Ready() && fault.None? && key in native.table
      ensures ok ==> value == (ColumnInt64(native.sqlite, native.table[key]) != 0)
      ensures !ok ==> !value
      ensures !native.selectActive
    {
      var longValue;
      ok, longValue := TryGetLong(key, fault);
      value := ok && longValue != 0;
    }

    /** A found row is copied into a new array with `Marshal.Copy`, which raises
        ArgumentNullException on the NULL address of a value with no bytes; `reset_select` is then
        not reached and the select stays stepped. A miss gives null. */
    method TryGetBytes(key: string, fault: Option<StepError>)
      returns (ok: bool, value: Option<seq<byte>>, thrown: Option<Exception>)
      requires Valid()
      modifies this`isInTransaction, native`inTransaction, native`nestedBegins
      modifies native`selectPrepared, native`selectActive, native`selectKey
      ensures Valid() && isInTransaction
      ensures thrown.Some? <==> Ready() && fault.None? && key in native.table && NullAddress(native.table[key])
      ensures thrown.Some? ==> thrown == Some(ArgumentNullException("source")) && native.selectActive
      ensures thrown.None? ==> !native.selectActive
      ensures ok <==> Ready() && fault.None? && key in native.table && !NullAddress(native.table[key])
      ensures ok ==> value == Some(ColumnBytes(native.sqlite, native.table[key]))
      ensures !ok ==> value == None
    {
      EnsureTransaction();
      var rc, column := native.TryGetBytes(key, fault);
      if rc == 1 && column.Some? && NullAddress(column.value) {
        return false, None, Some(ArgumentNullException("source"));
      }
      value := if rc == 1 && column.Some? then Some(ColumnBytes(native.sqlite, column.value)) else None;
      native.ResetSelect();
      ok, thrown := rc == 1, None;
    }

    /** Reads the column's bytes, as TryGetBytes does, as UTF-16 text with the two-argument
        `Marshal.PtrToStringUni`, which raises ArgumentNullException on a NULL address; the select
        then stays stepped. A miss gives null. */
    method TryGetString(key: string, fault: Option<StepError>)
      returns (ok: bool, value: Option<string>, thrown: Option<Exception>)
      requires Valid()
      modifies this`isInTransaction, native`inTransaction, native`nestedBegins
      modifies native`selectPrepared, native`selectActive, native`selectKey
      ensures Valid() && isInTransaction
      ensures thrown.Some? <==> Ready() && fault.None? && key in native.table && NullAddress(native.table[key])
      ensures thrown.Some? ==> thrown == Some(ArgumentNullException("ptr")) && native.selectActive
      ensures thrown.None? ==> !native.selectActive
      ensures ok <==> Ready() && fault.None? && key in native.table && !NullAddress(native.table[key])
      ensures ok ==> value == ColumnText(native.sqlite, native.table[key])
      ensures !ok ==> value == None
    {
      EnsureTransaction();
      var rc, column := native.TryGetBytes(key, fault);
      if rc == 1 && column.Some? && NullAddress(column.value) {
        return false, None, Some(ArgumentNullException("ptr"));
      }
      value := if rc == 1 && column.Some? then ColumnText(native.sqlite, column.value) else None;
      native.ResetSelect();
      ok, thrown := rc == 1, None;
    }

    method HasKey(key: string, fault: Option<StepError>) returns (b: bool)
      requires Valid()
      modifies this`isInTransaction, native`inTransaction, native`nestedBegins
      modifies native`selectPrepared, native`selectActive, native`selectKey
      ensures Valid() && isInTransaction
      ensures b <==> Ready() && fault.None? && key in native.table
      ensures !native.selectActive
    {
      EnsureTransaction();
      var result := native.HasKey(key, fault);
      native.ResetSelect();
      b := result == 1;
    }

    method SetLong(key: string, value: int64, fault: Option<StepError>)
      requires Valid()
      modifies this`isInTransaction, this`isPendingCommit, this`commitQueued
      modifies native`inTransaction, native`nestedBegins, native`upsertPrepared, native`upsertKey
      modifies native`table, native`committed
      ensures Valid() && isInTransaction && isPendingCommit
      ensures Ready() && fault.None? ==> native.table == old(native.table)[key := IntCell(value)]
      ensures !(Ready() && fault.None?) ==> native.table == old(native.table)
      ensures native.committed == old(native.committed)
    {
      EnsureTransaction();
      var rc := native.SetInt(key, value, fault);
      ScheduleCommit();
    }

    /** Through SetLong: true is 1, false is 0. */
    method SetBool(key: string, value: bool, fault: Option<StepError>)
      requires Valid()
      modifies this`isInTransaction, this`isPendingCommit, this`commitQueued
      modifies native`inTransaction, native`nestedBegins, native`upsertPrepared, native`upsertKey
      modifies native`table, native`committed
      ensures Valid() && isInTransaction && isPendingCommit
      ensures Ready() && fault.None? ==> native.table == old(native.table)[key := IntCell(if value then 1 else 0)]
      ensures !(Ready() && fault.None?) ==> native.table == old(native.table)
      ensures native.committed == old(native.committed)
    {
      SetLong(key, if value then 1 else 0, fault);
    }

    /** Through SetLong, widened. */
    method SetInt(key: string, value: int32, fault: Option<StepError>)
      requires Valid()
      modifies this`isInTransaction, this`isPendingCommit, this`commitQueued
      modifies native`inTransaction, native`nestedBegins, native`upsertPrepared, native`upsertKey
      modifies native`table, native`committed
      ensures Valid() && isInTransaction && isPendingCommit
      ensures Ready() && fault.None? ==> native.table == old(native.table)[key := IntCell(value)]
      ensures !(Ready() && fault.None?) ==> native.table == old(native.table)
      ensures native.committed == old(native.committed)
    {
      SetLong(key, value, fault);
    }

    /** A null string stores NULL. */
    method SetString(key: string, value: Option<string>, fault: Option<StepError>)
      requires Valid()
      modifies this`isInTransaction, this`isPendingCommit, this`commitQueued
      modifies native`inTransaction, native`nestedBegins, native`upsertPrepared, native`upsertKey
      modifies native`table, native`committed
      ensures Valid() && isInTransaction && isPendingCommit
      ensures Ready() && fault.None? ==>
        native.table == old(native.table)[key := if value.Some? then TextCell(value.value) else NullCell]
      ensures !(Ready() && fault.None?) ==> native.table == old(native.table)
      ensures native.committed == old(native.committed)
    {
      EnsureTransaction();
      var rc := native.SetText(key, value, fault);
      ScheduleCommit();
    }

    /** A null array stores NULL; unlike the dictionary store nothing throws. */
    method SetBytes(key: string, value: Option<seq<byte>>, fault: Option<StepError>)
      requires Valid()
      modifies this`isInTransaction, this`isPendingCommit, this`commitQueued
      modifies native`inTransaction, native`nestedBegins, native`upsertPrepared, native`upsertKey
      modifies native`table, native`committed
      ensures Valid() && isInTransaction && isPendingCommit
      ensures Ready() && fault.None? ==>
        native.table == old(native.table)[key := if value.Some? then BlobCell(value.value) else NullCell]
      ensures !(Ready() && fault.None?) ==> native.table == old(native.table)
      ensures native.committed == old(native.committed)
    {
      EnsureTransaction();
      var rc := native.SetBytes(key, value, fault);
      ScheduleCommit();
    }

    method DeleteKey(key: string)
      requires Valid()
      modifies this`isInTransaction, this`isPendingCommit, this`commitQueued
      modifies native`inTransaction, native`nestedBegins, native`table, native`committed
      ensures Valid() && isInTransaction && isPendingCommit
      ensures Ready() ==> native.table == old(native.table) - {key}
      ensures !Ready() ==> native.table == old(native.table)
      ensures native.committed == old(native.committed)
    {
      EnsureTransaction();
      var rc := native.DeleteKey(key);
      ScheduleCommit();
    }

    method DeleteAll()
      requires Valid()
      modifies this`isInTransaction, this`isPendingCommit, this`commitQueued
      modifies native`inTransaction, native`nestedBegins, native`table, native`committed
      ensures Valid() && isInTransaction && isPendingCommit
      ensures Ready() ==> native.table == map[]
      ensures !Ready() ==> native.table == old(native.table)
      ensures native.committed == old(native.committed)
    {
      EnsureTransaction();
      var rc := native.DeleteAll();
      ScheduleCommit();
    }

    /** Commit, then close. A pending continuation stays queued: when it runs it finds no
        transaction and commits nothing. */
    method Dispose()
      requires Valid()
      modifies this`isInTransaction, native
      ensures Valid() && !isInTransaction && !native.dbOpen && !Ready()
      ensures old(isInTransaction) && old(native.dbOpen) ==>
        native.commits == old(native.commits) + 1 && native.committed == old(native.table)
      ensures !(old(isInTransaction) && old(native.dbOpen)) ==>
        native.commits == old(native.commits) && native.committed == old(native.committed)
      ensures native.leakedConnections == old(native.leakedConnections)
      ensures native.table == native.committed
    {
      Commit();
      var rc := native.Close();
    }

    /** `RunSql`: throws exactly when the error callback was called. */
    method RunSql(sql: string, reported: Option<string>) returns (thrown: Option<Exception>)
      requires Valid()
      modifies native`lastSql
      ensures Valid() && native.lastSql == sql
      ensures reported.None? ==> thrown == None
      ensures reported.Some? ==> thrown == Some(InvalidOperationException(reported.value))
    {
      var error := native.RunSql(sql, reported);
      thrown := if error.Some? then Some(InvalidOperationException(error.value)) else None;
    }

    /** `Pragma`: the prefixed text is run; with an output list the rows the statement returned
        are appended to it. */
    method Pragma(pragma: string, outValues: Option<seq<string>>, rows: seq<string>, reported: Option<string>)
      returns (values: Option<seq<string>>, thrown: Option<Exception>)
      requires Valid()
      modifies native`lastSql
      ensures Valid() && native.lastSql == PragmaText(pragma)
      ensures thrown.Some? <==> reported.Some?
      ensures thrown.None? && outValues.Some? ==> values == Some(outValues.value + rows)
      ensures thrown.Some? || outValues.None? ==> values == outValues
    {
      thrown := RunSql(PragmaText(pragma), reported);
      values := outValues;
      if thrown.None? && outValues.Some? {
        values := Some(outValues.value + rows);
      }
    }

    /** `Vacuum`: commits first, so VACUUM never runs inside the store's transaction. */
    method Vacuum(reported: Option<string>) returns (thrown: Option<Exception>)
      requires Valid()
      modifies this`isInTransaction, native`inTransaction, native`committed, native`commits, native`lastSql
      ensures Valid() && !isInTransaction && !native.inTransaction && native.lastSql == VacuumSql
      ensures old(isInTransaction) && native.dbOpen ==> native.commits == old(native.commits) + 1
      ensures thrown.Some? <==> reported.Some?
    {
      Commit();
      assert native.dbOpen ==> !native.inTransaction;
      thrown := RunSql(VacuumSql, reported);
    }
  }

  /** Any number of writes in one frame give exactly one COMMIT, which makes the last write
      durable. */
  method WriteBurst(s: SqliteKeyValueStore, keys: seq<string>, values: seq<int64>)
    requires s.Valid() && s.Ready() && !s.isPendingCommit
    requires |keys| == |values| && |keys| > 0
    modifies s, s.native
    ensures s.Valid() && !s.isPendingCommit && !s.isInTransaction
    ensures s.native.commits == old(s.native.commits) + 1
    ensures s.native.committed == s.native.table
    ensures keys[|keys| - 1] in s.native.committed
    ensures s.native.committed[keys[|keys| - 1]] == IntCell(values[|values| - 1])
  {
    var i := 0;
    while i < |keys|
      invariant 0 <= i <= |keys|
      invariant s.Valid() && s.Ready()
      invariant s.isPendingCommit == (i > 0) && (i > 0 ==> s.isInTransaction)
      invariant s.native.commits == old(s.native.commits)
      invariant i > 0 ==> keys[i - 1] in s.native.table && s.native.table[keys[i - 1]] == IntCell(values[i - 1])
    {
      s.SetLong(keys[i], values[i], None);
      i := i + 1;
    }
    s.Tick();
  }

  /** A read opens a transaction but asks for no commit: after the frame it is still open and
      nothing was committed. */
  method ReadKeepsTransactionOpen(s: SqliteKeyValueStore, key: string) returns (ok: bool, value: int64)
    requires s.Valid() && s.Ready() && !s.isInTransaction && !s.isPendingCommit
    modifies s, s.native
    ensures s.isInTransaction && s.native.inTransaction && !s.isPendingCommit
    ensures s.native.commits == old(s.native.commits)
  {
    ok, value := s.TryGetLong(key, None);
    s.Tick();
  }

  /** `SetBool(k, true)` then `TryGetInt(k)` answers 1, through the 64-bit slot. */
  method BoolReadsAsIntOne(s: SqliteKeyValueStore, key: string) returns (ok: bool, value: int32)
    requires s.Valid() && s.Ready()
    modifies s, s.native
    ensures ok && value == 1
  {
    s.SetBool(key, true, None);
    ok, value := s.TryGetInt(key, None);
  }

  /** A string comes back as written when read as a string, except that null and the empty
      string have no address, so reading them back raises ArgumentNullException. */
  method StringRoundTrips(s: SqliteKeyValueStore, key: string, text: Option<string>)
    returns (back: Option<string>, thrown: Option<Exception>)
    requires s.Valid() && s.Ready()
    modifies s, s.native
    ensures thrown.Some? <==> text.None? || text == Some([])
    ensures thrown.None? ==> back == text
  {
    s.SetString(key, text, None);
    var ok;
    ok, back, thrown := s.TryGetString(key, None);
  }

  /** A byte array comes back as written when read as bytes, except that null and the empty array
      have no address, so reading them back raises ArgumentNullException. */
  method BytesRoundTrips(s: SqliteKeyValueStore, key: string, bytes: Option<seq<byte>>)
    returns (back: Option<seq<byte>>, thrown: Option<Exception>)
    requires s.Valid() && s.Ready()
    modifies s, s.native
    ensures thrown.Some? <==> bytes.None? || bytes == Some([])
    ensures thrown.None? ==> back == bytes
  {
    s.SetBytes(key, bytes, None);
    var ok;
    ok, back, thrown := s.TryGetBytes(key, None);
  }

  /** A second Dispose (as from the finalizer) and the late commit continuation do nothing more:
      one COMMIT in all, and the connection is released. */
  method DisposeIsIdempotent(s: SqliteKeyValueStore, key: string, value: int64)
    requires s.Valid() && s.Ready() && !s.isPendingCommit
    modifies s, s.native
    ensures s.native.commits == old(s.native.commits) + 1
    ensures key in s.native.committed && s.native.committed[key] == IntCell(value)
    ensures !s.native.dbOpen && s.native.leakedConnections == old(s.native.leakedConnections)
  {
    s.SetLong(key, value, None);
    s.Dispose();
    s.Dispose();
    s.Tick();
  }
}
