/** AutoSaveKeyValueStore: DeleteKey and every Set* run on the wrapped store and then call the
    public Save, which is itself deferred and single-flight: it raises `isSaveScheduled` before
    its `await Task.Yield()`, and the continuation saves the wrapped store and clears the flag in
    a `finally`. DeleteAll is not overridden: it reaches the wrapped store without any save.

    As in the wrapper variant, the `await` is a queued continuation run by `Tick`. */
module AutoSaveStore {
  import opened Wrappers
  import opened Values
  import opened DictionaryStore

  class AutoSaveKeyValueStore {
    const wrapped: DictionaryKeyValueStore
    var isSaveScheduled: bool
    var saveQueued: bool

    ghost predicate Valid()
      reads this
    {
      saveQueued == isSaveScheduled
    }

    constructor(kvs: DictionaryKeyValueStore)
      ensures Valid() && wrapped == kvs && !isSaveScheduled
    {
      wrapped := kvs;
      isSaveScheduled := false;
      saveQueued := false;
    }

    /** The public Save up to its `await`: returns at once while a save is scheduled; nothing is
        written before the next frame. */
    method Save()
      requires Valid()
      modifies this`isSaveScheduled, this`saveQueued
      ensures Valid() && isSaveScheduled
      ensures old(isSaveScheduled) ==> saveQueued == old(saveQueued)
    {
      if isSaveScheduled {
        return;
      }
      isSaveScheduled := true;
      saveQueued := true;
    }

    /** The next frame: the continuation after the `await` saves the wrapped store, then the
        `finally` clears the flag, also when the save raised. */
    method Tick(ioFails: bool) returns (raised: bool)
      requires Valid()
      modifies this`isSaveScheduled, this`saveQueued, wrapped`file, wrapped`saveCount
      ensures Valid() && !isSaveScheduled
      ensures old(isSaveScheduled) ==> wrapped.saveCount == old(wrapped.saveCount) + 1
      ensures old(isSaveScheduled) ==> (raised <==> wrapped.filePath != "" && ioFails)
      ensures old(isSaveScheduled) && wrapped.filePath != "" ==>
        wrapped.file == (if ioFails then Unreadable else Holds(wrapped.dictionary))
      ensures !old(isSaveScheduled) ==> !raised && wrapped.saveCount == old(wrapped.saveCount)
      ensures !old(isSaveScheduled) || wrapped.filePath == "" ==> wrapped.file == old(wrapped.file)
    {
      raised := false;
      if !saveQueued {
        return;
      }
      saveQueued := false;
      raised := wrapped.Save(ioFails);
      isSaveScheduled := false;
    }

    method DeleteKey(key: string)
      requires Valid()
      modifies this`isSaveScheduled, this`saveQueued, wrapped`dictionary
      ensures Valid() && isSaveScheduled
      ensures wrapped.dictionary == old(wrapped.dictionary) - {key}
    {
      wrapped.DeleteKey(key);
      Save();
    }

    /** Inherited from the forwarding wrapper: no save is asked for. */
    method DeleteAll()
      requires Valid()
      modifies wrapped`dictionary
      ensures Valid()
      ensures wrapped.dictionary == map[]
    {
      wrapped.DeleteAll();
    }

    method SetBool(key: string, value: bool)
      requires Valid()
      modifies this`isSaveScheduled, this`saveQueued, wrapped`dictionary
      ensures Valid() && isSaveScheduled
      ensures wrapped.dictionary == old(wrapped.dictionary)[key := BoolBox(value)]
    {
      wrapped.SetBool(key, value);
      Save();
    }

    method SetInt(key: string, value: int32)
      requires Valid()
      modifies this`isSaveScheduled, this`saveQueued, wrapped`dictionary
      ensures Valid() && isSaveScheduled
      ensures wrapped.dictionary == old(wrapped.dictionary)[key := IntBox(value)]
    {
      wrapped.SetInt(key, value);
      Save();
    }

    method SetLong(key: string, value: int64)
      requires Valid()
      modifies this`isSaveScheduled, this`saveQueued, wrapped`dictionary
      ensures Valid() && isSaveScheduled
      ensures wrapped.dictionary == old(wrapped.dictionary)[key := LongBox(value)]
    {
      wrapped.SetLong(key, value);
      Save();
    }

    method SetString(key: string, value: Option<string>)
      requires Valid()
      modifies this`isSaveScheduled, this`saveQueued, wrapped`dictionary
      ensures Valid() && isSaveScheduled
      ensures wrapped.dictionary == old(wrapped.dictionary)[key := if value.Some? then StringBox(value.value) else NullBox]
    {
      wrapped.SetString(key, value);
      Save();
    }

    method SetBytes(key: string, value: Option<seq<byte>>) returns (thrown: Option<Exception>)
      requires Valid()
      modifies this`isSaveScheduled, this`saveQueued, wrapped`dictionary
      ensures Valid()
      ensures value.None? ==> thrown.Some? && wrapped.dictionary == old(wrapped.dictionary)
      ensures value.None? ==> isSaveScheduled == old(isSaveScheduled)
      ensures value.Some? ==> thrown == None && isSaveScheduled
      ensures value.Some? ==> wrapped.dictionary == old(wrapped.dictionary)[key := StringBox(Base64.Encode(value.value))]
    {
      thrown := wrapped.SetBytes(key, value);
      if thrown.Some? {
        return;
      }
      Save();
    }

    method Load() returns (raised: bool)
      requires Valid()
      modifies wrapped`dictionary
      ensures Valid()
      ensures raised <==> wrapped.filePath != "" && wrapped.file.Unreadable?
      ensures wrapped.filePath != "" && wrapped.file.Holds? ==> wrapped.dictionary == wrapped.file.contents
      ensures !(wrapped.filePath != "" && wrapped.file.Holds?) ==> wrapped.dictionary == old(wrapped.dictionary)
    {
      raised := wrapped.Load();
    }
  }

  /** One step of a client's frame: a write, or a direct call of the public Save. */
  datatype Call = WriteInt(key: string, value: int32) | CallSave

  /** Any mix of writes and Save calls before the frame ends gives exactly one inner Save. */
  method CallBurst(s: AutoSaveKeyValueStore, calls: seq<Call>) returns (raised: bool)
    requires s.Valid() && !s.isSaveScheduled && |calls| > 0
    modifies s, s.wrapped
    ensures s.Valid() && !s.isSaveScheduled && !raised
    ensures s.wrapped.saveCount == old(s.wrapped.saveCount) + 1
    ensures s.wrapped.filePath != "" ==> s.wrapped.file == Holds(s.wrapped.dictionary)
  {
    var i := 0;
    while i < |calls|
      invariant 0 <= i <= |calls|
      invariant s.Valid() && s.isSaveScheduled == (i > 0)
      invariant s.wrapped.saveCount == old(s.wrapped.saveCount)
      invariant s.wrapped.filePath == old(s.wrapped.filePath)
    {
      match calls[i] {
        case WriteInt(key, value) => s.SetInt(key, value);
        case CallSave => s.Save();
      }
      i := i + 1;
    }
    raised := s.Tick(false);
  }

  /** Unlike the wrapper variant, DeleteAll alone saves nothing: after the frame the file still
      holds what it held before. */
  method DeleteAllDoesNotSave(s: AutoSaveKeyValueStore) returns (raised: bool)
    requires s.Valid() && !s.isSaveScheduled
    modifies s, s.wrapped
    ensures !raised && s.wrapped.file == old(s.wrapped.file)
    ensures s.wrapped.saveCount == old(s.wrapped.saveCount) && s.wrapped.dictionary == map[]
  {
    s.DeleteAll();
    raised := s.Tick(false);
  }
}
