/** The typed key-value facade (IKeyValueStore) and its `Get*` default-value extensions.

    A store is seen through a `StoreView<S>`: for a store whose state is `S`, the answer each
    read gives and the state each write leaves. A read only reads; the `Get*` extensions are
    functions of the state, so they cannot change it. The floating-point members are not part
    of this model. Strings and byte arrays are C# references: `None` stands for null. */
module KeyValueStore {
  import opened Wrappers
  import opened Values

  datatype StoreView<!S> = StoreView(
    hasKey: (S, string) -> bool,
    deleteKey: (S, string) -> S,
    deleteAll: S -> S,
    tryGetBool: (S, string) -> Got<bool>,
    tryGetInt: (S, string) -> Got<int32>,
    tryGetLong: (S, string) -> Got<int64>,
    tryGetString: (S, string) -> Got<Option<string>>,
    tryGetBytes: (S, string) -> Got<Option<seq<byte>>>,
    setBool: (S, string, bool) -> S,
    setInt: (S, string, int32) -> S,
    setLong: (S, string, int64) -> S,
    setString: (S, string, string) -> S,
    setBytes: (S, string, seq<byte>) -> S)

  /** A string written under a key is read back unchanged from that key. */
  ghost predicate StringSlotRoundTrips<S(!new)>(kvs: StoreView<S>)
  {
    forall s: S, key: string, text: string ::
      kvs.tryGetString(kvs.setString(s, key, text), key) == Got(true, Some(text))
  }

  /** A byte sequence written under a key is read back unchanged from that key. */
  ghost predicate BytesSlotRoundTrips<S(!new)>(kvs: StoreView<S>)
  {
    forall s: S, key: string, bytes: seq<byte> ::
      kvs.tryGetBytes(kvs.setBytes(s, key, bytes), key) == Got(true, Some(bytes))
  }

  function GetBool<S>(kvs: StoreView<S>, s: S, key: string, defaultValue: bool := false): (r: bool)
    ensures kvs.tryGetBool(s, key).ok ==> r == kvs.tryGetBool(s, key).value
    ensures !kvs.tryGetBool(s, key).ok ==> r == defaultValue
  {
    var got := kvs.tryGetBool(s, key);
    if got.ok then got.value else defaultValue
  }

  function GetInt<S>(kvs: StoreView<S>, s: S, key: string, defaultValue: int32 := 0): (r: int32)
    ensures kvs.tryGetInt(s, key).ok ==> r == kvs.tryGetInt(s, key).value
    ensures !kvs.tryGetInt(s, key).ok ==> r == defaultValue
  {
    var got := kvs.tryGetInt(s, key);
    if got.ok then got.value else defaultValue
  }

  function GetLong<S>(kvs: StoreView<S>, s: S, key: string, defaultValue: int64 := 0): (r: int64)
    ensures kvs.tryGetLong(s, key).ok ==> r == kvs.tryGetLong(s, key).value
    ensures !kvs.tryGetLong(s, key).ok ==> r == defaultValue
  {
    var got := kvs.tryGetLong(s, key);
    if got.ok then got.value else defaultValue
  }

  function GetString<S>(kvs: StoreView<S>, s: S, key: string, defaultValue: Option<string> := None)
    : (r: Option<string>)
    ensures kvs.tryGetString(s, key).ok ==> r == kvs.tryGetString(s, key).value
    ensures !kvs.tryGetString(s, key).ok ==> r == defaultValue
  {
    var got := kvs.tryGetString(s, key);
    if got.ok then got.value else defaultValue
  }

  function GetBytes<S>(kvs: StoreView<S>, s: S, key: string, defaultValue: Option<seq<byte>> := None)
    : (r: Option<seq<byte>>)
    ensures kvs.tryGetBytes(s, key).ok ==> r == kvs.tryGetBytes(s, key).value
    ensures !kvs.tryGetBytes(s, key).ok ==> r == defaultValue
  {
    var got := kvs.tryGetBytes(s, key);
    if got.ok then got.value else defaultValue
  }
}
