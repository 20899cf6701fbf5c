/** AKeyValueStoreWrapper: a store that forwards every operation, with the same arguments, to the
    store it wraps, and keeps no keys or values of its own. The wrapped store here is a
    DictionaryKeyValueStore. */
module StoreWrapper {
  import opened Wrappers
  import opened Values
  import opened DictionaryStore

  class KeyValueStoreWrapper {
    /** `WrappedKeyValueStore`: set once, by the constructor. */
    const wrapped: DictionaryKeyValueStore

    constructor(kvs: DictionaryKeyValueStore)
      ensures wrapped == kvs
    {
      wrapped := kvs;
    }

    /** The constructor's null check: a null store throws, anything else is wrapped. */
    static method Create(kvs: DictionaryKeyValueStore?) returns (w: KeyValueStoreWrapper?, thrown: Option<Exception>)
      ensures kvs == null ==> w == null && thrown == Some(ArgumentNullException("WrappedKeyValueStore"))
      ensures kvs != null ==> w != null && fresh(w) && w.wrapped == kvs && thrown == None
    {
      if kvs == null {
        return null, Some(ArgumentNullException("WrappedKeyValueStore"));
      }
      w := new KeyValueStoreWrapper(kvs);
      thrown := None;
    }

    /** The wrapper's contents are the wrapped store's. */
    function Contents(): Dictionary
      reads wrapped
    {
      wrapped.dictionary
    }

    function HasKey(key: string): (r: bool)
      reads wrapped
      ensures r <==> key in Contents()
    {
      DictionaryStore.HasKey(wrapped.dictionary, key)
    }

    function TryGetBool(key: string): (r: Got<bool>)
      reads wrapped
      ensures r == DictionaryStore.TryGetBool(Contents(), key)
    {
      DictionaryStore.TryGetBool(wrapped.dictionary, key)
    }

    function TryGetInt(key: string): (r: Got<int32>)
      reads wrapped
      ensures r == DictionaryStore.TryGetInt(Contents(), key)
    {
      DictionaryStore.TryGetInt(wrapped.dictionary, key)
    }

    function TryGetLong(key: string): (r: Got<int64>)
      reads wrapped
      ensures r == DictionaryStore.TryGetLong(Contents(), key)
    {
      DictionaryStore.TryGetLong(wrapped.dictionary, key)
    }

    function TryGetString(key: string): (r: Got<Option<string>>)
      reads wrapped
      ensures r == DictionaryStore.TryGetString(Contents(), key)
    {
      DictionaryStore.TryGetString(wrapped.dictionary, key)
    }

    function TryGetBytes(key: string): (r: Got<Option<seq<byte>>>)
      reads wrapped
      ensures r == DictionaryStore.TryGetBytes(Contents(), key)
    {
      DictionaryStore.TryGetBytes(wrapped.dictionary, key)
    }

    method DeleteKey(key: string)
      modifies wrapped`dictionary
      ensures Contents() == old(Contents()) - {key}
    {
      wrapped.DeleteKey(key);
    }

    method DeleteAll()
      modifies wrapped`dictionary
      ensures Contents() == map[]
    {
      wrapped.DeleteAll();
    }

    method SetBool(key: string, value: bool)
      modifies wrapped`dictionary
      ensures Contents() == old(Contents())[key := BoolBox(value)]
    {
      wrapped.SetBool(key, value);
    }

    method SetInt(key: string, value: int32)
      modifies wrapped`dictionary
      ensures Contents() == old(Contents())[key := IntBox(value)]
    {
      wrapped.SetInt(key, value);
    }

    method SetLong(key: string, value: int64)
      modifies wrapped`dictionary
      ensures Contents() == old(Contents())[key := LongBox(value)]
    {
      wrapped.SetLong(key, value);
    }

    method SetString(key: string, value: Option<string>)
      modifies wrapped`dictionary
      ensures Contents() == old(Contents())[key := if value.Some? then StringBox(value.value) else NullBox]
    {
      wrapped.SetString(key, value);
    }

    method SetBytes(key: string, value: Option<seq<byte>>) returns (thrown: Option<Exception>)
      modifies wrapped`dictionary
      ensures value.None? ==> thrown == Some(ArgumentNullException("inArray")) && Contents() == old(Contents())
      ensures value.Some? ==> thrown == None && Contents() == old(Contents())[key := StringBox(Base64.Encode(value.value))]
    {
      thrown := wrapped.SetBytes(key, value);
    }
  }

  /** Writing through the wrapper and reading back through the wrapped store, or the other way
      round, agree: bytes written through the wrapper are read back by the inner store. */
  method WriteThroughReadInside(w: KeyValueStoreWrapper, key: string, bytes: seq<byte>) returns (got: Got<Option<seq<byte>>>)
    modifies w.wrapped`dictionary
    ensures got == Got(true, Some(bytes))
  {
    var thrown := w.SetBytes(key, Some(bytes));
    got := DictionaryStore.TryGetBytes(w.wrapped.dictionary, key);
    BytesRoundTrip(old(w.wrapped.dictionary), key, bytes);
  }
}
