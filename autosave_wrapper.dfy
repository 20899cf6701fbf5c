/** AutoSaveKeyValueStoreWrapper: every mutation (DeleteKey, DeleteAll, Set*) runs on the wrapped
    store and then asks for a save on the next frame. The request is single-flight: while one is
    scheduled, further requests do nothing, so a burst of mutations gives one save.

    `await Task.Yield()` is modelled as a queued continuation (`saveQueued`) that the next frame,
    `Tick`, runs: the inner Save, then the `finally` that clears `isSaveScheduled`. */
module AutoSaveWrapper {
  import opened Wrappers
  import opened Values
  import opened DictionaryStore

  class AutoSaveKeyValueStoreWrapper {
    const wrapped: DictionaryKeyValueStore
    var isSaveScheduled: bool
    var saveQueued: bool

    /** The flag is up exactly while the continuation waits for its frame. */
    ghost predicate Valid()
      reads this
    {
      saveQueued == isSaveScheduled
    }

    constructor(kvs: DictionaryKeyValueStore)
      ensures Valid() && wrapped == kvs && !isSaveScheduled
    {
      wrapped := kvs;
      isSaveScheduled := false;
      saveQueued := false;
    }

    /** SaveNextFrame up to its `await`: a no-op while a save is scheduled. */
    method SaveNextFrame()
      requires Valid()
      modifies this`isSaveScheduled, this`saveQueued
      ensures Valid() && isSaveScheduled
      ensures old(isSaveScheduled) ==> saveQueued == old(saveQueued)
    {
      if isSaveScheduled {
        return;
      }
      isSaveScheduled := true;
      saveQueued := true;
    }

    /** The next frame: the queued continuation, if any, saves the wrapped store and clears the
        flag whether or not that save raised. */
    method Tick(ioFails: bool) returns (raised: bool)
      requires Valid()
      modifies this`isSaveScheduled, this`saveQueued, wrapped`file, wrapped`saveCount
      ensures Valid() && !isSaveScheduled
      ensures old(isSaveScheduled) ==> wrapped.saveCount == old(wrapped.saveCount) + 1
      ensures old(isSaveScheduled) ==> (raised <==> wrapped.filePath != "" && ioFails)
      ensures old(isSaveScheduled) && wrapped.filePath != "" ==>
        wrapped.file == (if ioFails then Unreadable else Holds(wrapped.dictionary))
      ensures !old(isSaveScheduled) ==> !raised && wrapped.saveCount == old(wrapped.saveCount)
      ensures !old(isSaveScheduled) || wrapped.filePath == "" ==> wrapped.file == old(wrapped.file)
    {
      raised := false;
      if !saveQueued {
        return;
      }
      saveQueued := false;
      raised := wrapped.Save(ioFails);
      isSaveScheduled := false;
    }

    method DeleteKey(key: string)
      requires Valid()
      modifies this`isSaveScheduled, this`saveQueued, wrapped`dictionary
      ensures Valid() && isSaveScheduled
      ensures wrapped.dictionary == old(wrapped.dictionary) - {key}
    {
      wrapped.DeleteKey(key);
      SaveNextFrame();
    }

    method DeleteAll()
      requires Valid()
      modifies this`isSaveScheduled, this`saveQueued, wrapped`dictionary
      ensures Valid() && isSaveScheduled
      ensures wrapped.dictionary == map[]
    {
      wrapped.DeleteAll();
      SaveNextFrame();
    }

    method SetBool(key: string, value: bool)
      requires Valid()
      modifies this`isSaveScheduled, this`saveQueued, wrapped`dictionary
      ensures Valid() && isSaveScheduled
      ensures wrapped.dictionary == old(wrapped.dictionary)[key := BoolBox(value)]
    {
      wrapped.SetBool(key, value);
      SaveNextFrame();
    }

    method SetInt(key: string, value: int32)
      requires Valid()
      modifies this`isSaveScheduled, this`saveQueued, wrapped`dictionary
      ensures Valid() && isSaveScheduled
      ensures wrapped.dictionary == old(wrapped.dictionary)[key := IntBox(value)]
    {
      wrapped.SetInt(key, value);
      SaveNextFrame();
    }

    method SetLong(key: string, value: int64)
      requires Valid()
      modifies this`isSaveScheduled, this`saveQueued, wrapped`dictionary
      ensures Valid() && isSaveScheduled
      ensures wrapped.dictionary == old(wrapped.dictionary)[key := LongBox(value)]
    {
      wrapped.SetLong(key, value);
      SaveNextFrame();
    }

    method SetString(key: string, value: Option<string>)
      requires Valid()
      modifies this`isSaveScheduled, this`saveQueued, wrapped`dictionary
      ensures Valid() && isSaveScheduled
      ensures wrapped.dictionary == old(wrapped.dictionary)[key := if value.Some? then StringBox(value.value) else NullBox]
    {
      wrapped.SetString(key, value);
      SaveNextFrame();
    }

    /** A throwing inner SetBytes ends the call before the save is asked for. */
    method SetBytes(key: string, value: Option<seq<byte>>) returns (thrown: Option<Exception>)
      requires Valid()
      modifies this`isSaveScheduled, this`saveQueued, wrapped`dictionary
      ensures Valid()
      ensures value.None? ==> thrown.Some? && wrapped.dictionary == old(wrapped.dictionary)
      ensures value.None? ==> isSaveScheduled == old(isSaveScheduled)
      ensures value.Some? ==> thrown == None && isSaveScheduled
      ensures value.Some? ==> wrapped.dictionary == old(wrapped.dictionary)[key := StringBox(Base64.Encode(value.value))]
    {
      thrown := wrapped.SetBytes(key, value);
      if thrown.Some? {
        return;
      }
      SaveNextFrame();
    }

    /** Load and the public Save forward at once and leave the flag alone. */
    method Load() returns (raised: bool)
      requires Valid()
      modifies wrapped`dictionary
      ensures Valid()
      ensures raised <==> wrapped.filePath != "" && wrapped.file.Unreadable?
      ensures wrapped.filePath != "" && wrapped.file.Holds? ==> wrapped.dictionary == wrapped.file.contents
      ensures !(wrapped.filePath != "" && wrapped.file.Holds?) ==> wrapped.dictionary == old(wrapped.dictionary)
    {
      raised := wrapped.Load();
    }

    method Save(ioFails: bool) returns (raised: bool)
      requires Valid()
      modifies wrapped`file, wrapped`saveCount
      ensures Valid()
      ensures wrapped.saveCount == old(wrapped.saveCount) + 1
      ensures raised <==> wrapped.filePath != "" && ioFails
      ensures wrapped.filePath != "" ==> wrapped.file == (if ioFails then Unreadable else Holds(wrapped.dictionary))
    {
      raised := wrapped.Save(ioFails);
    }
  }

  /** Any number of writes before the frame ends give exactly one inner Save, which writes the
      final contents. */
  method WriteBurst(w: AutoSaveKeyValueStoreWrapper, keys: seq<string>, values: seq<int32>) returns (raised: bool)
    requires w.Valid() && !w.isSaveScheduled
    requires |keys| == |values| && |keys| > 0
    modifies w, w.wrapped
    ensures w.Valid() && !w.isSaveScheduled && !raised
    ensures w.wrapped.saveCount == old(w.wrapped.saveCount) + 1
    ensures w.wrapped.filePath != "" ==> w.wrapped.file == Holds(w.wrapped.dictionary)
    ensures forall i :: 0 <= i < |keys| ==> keys[i] in w.wrapped.dictionary
  {
    var i := 0;
    while i < |keys|
      invariant 0 <= i <= |keys|
      invariant w.Valid() && w.isSaveScheduled == (i > 0)
      invariant w.wrapped.saveCount == old(w.wrapped.saveCount)
      invariant w.wrapped.filePath == old(w.wrapped.filePath)
      invariant forall j :: 0 <= j < i ==> keys[j] in w.wrapped.dictionary
    {
      w.SetInt(keys[i], values[i]);
      i := i + 1;
    }
    raised := w.Tick(false);
  }

  /** DeleteAll asks for a save: after the frame the file holds the empty dictionary. */
  method DeleteAllSaves(w: AutoSaveKeyValueStoreWrapper) returns (raised: bool)
    requires w.Valid() && w.wrapped.filePath != ""
    modifies w, w.wrapped
    ensures w.wrapped.file == Holds(map[]) && !raised
  {
    w.DeleteAll();
    raised := w.Tick(false);
  }

  /** A failing save still clears the flag, so the next write schedules a new save. */
  method FailedSaveReschedules(w: AutoSaveKeyValueStoreWrapper, key: string, value: bool) returns (raised: bool)
    requires w.Valid() && w.wrapped.filePath != ""
    modifies w, w.wrapped
    ensures raised && w.isSaveScheduled && w.saveQueued
  {
    w.SetBool(key, value);
    raised := w.Tick(true);
    w.SetBool(key, !value);
  }
}
