# unity-key-value-store, modelled in Dafny

This project models the core of the Unity key-value store library: a typed key-value facade
(`IKeyValueStore`) and its backends and decorators.

- **Facade.** `Get*` falls back to a default when `TryGet*` fails. A typed-object layer
  (`TryGetObject` / `SetObject` / `GetObject`) picks a serializer from an `ObjectSerializerMap`.
  It then dispatches over the serializer's four capabilities in a fixed order.
- **In-memory store.** `DictionaryKeyValueStore` keeps boxed values and converts them softly on
  read. It stores byte arrays as base64 text. It also saves to and loads from a file.
- **Wrappers.** The forwarding wrapper `AKeyValueStoreWrapper`, and two auto-save decorators.
  Each decorator has a single-flight "save on the next frame" flag.
- **SQLite store.** `SqliteKeyValueStore` is a two-flag state machine over a native helper
  (`SqliteKVS.c`). It opens a transaction lazily and coalesces commits to the next frame.
- **Serializers.** The integer paths of `UnityMathTextSerializer` (a comma-joined list of ints),
  built on `StringExtensions.SplitEnumerate` / `EnumerateInts`. Also `StructBinarySerializer`, a
  fixed-width byte copy.

## How the model is built

Each module follows one source file.

- **Pure code.** What the source computes from values becomes functions with lemmas:
  - `KeyValueStore`: the `Get*` extensions;
  - `ObjectAccess`: the typed-object extensions;
  - `DictionaryStore`: the `TryGet*` conversions;
  - `StringExtensions`;
  - the text side of `UnityMath`.
- **State.** What the source updates in place becomes classes with `modifies` clauses:
  - the dictionary store;
  - `ObjectSerializerMap`;
  - the three wrappers;
  - both SQLite classes.
- **Loops.** They stay loops with invariants:
  - `SplitEnumerate`, `EnumerateInts`, `SerializeInts`, `TryDeserializeInts`;
  - the burst scenarios.
- **Byte copies.** `StructBinarySerializer`'s copies work on `array<byte>`.

Support modules:

- `Wrappers` holds `Option` and `Result`.
- `Values` holds the C# integer widths and `Got<T>`. `Got<T>` is a `Try*` call's boolean
  together with what it wrote to its `out` parameter. `Values` also holds the exceptions thrown.
- `Decimal` is invariant-culture integer text.
- `Base64` is RFC 4648, section 4.

Modelling choices:

- **Null.** A C# null string or array is `None`.
- **Store as a value.** A store seen by the facade is a `StoreView<S>`: a record of the answers
  and successor states of its operations. `DictionaryStore.View()` is the dictionary store in
  that form.
- **Serializers.** A serializer object is seen through the capability interfaces it implements
  (`ObjectSerializers.Serializer`). What it writes and reads for one value type is a
  codec (`ObjectAccess.TextCodec` / `BinaryCodec`). A codec is a pair of functions given as a
  parameter. The round-trip theorems assume that the codec round-trips.
- **Next frame.** `await Task.Yield()` is a queued continuation that an explicit `Tick` method
  runs. This is how "a burst of writes in one frame gives exactly one save or commit" and
  "the flag is cleared even when the save throws" can be stated and proved.
- **Files and faults.** The file behind the dictionary store is its contents, as a
  `FileState`. An I/O failure is an `ioFails` parameter. Likewise, a failing native
  `sqlite3_step`, the callback's error message and the rows returned are parameters.
- **Mirrored state.** `SqliteNative.Kvs` keeps what the C# side can observe of the database:
  - whether it is open;
  - whether the table exists;
  - the rows the connection sees;
  - the rows on disk (`committed`);
  - the transaction;
  - which statements are prepared.

  The `Linked` invariant of `SqliteStore.SqliteKeyValueStore` says that the C# flag mirrors
  the connection's transaction, and that no BEGIN is ever issued inside an open transaction.

## Model

| member | source | states |
|---|---|---|
| KeyValueStore.GetBool | Runtime/IKeyValueStore.cs:28-31 | the value TryGetBool produced when it succeeds, otherwise `defaultValue` (false when omitted); a function of the state, so it cannot mutate the store |
| KeyValueStore.GetInt | Runtime/IKeyValueStore.cs:32-35 | the value TryGetInt produced when it succeeds, otherwise `defaultValue` (0 when omitted) |
| KeyValueStore.GetLong | Runtime/IKeyValueStore.cs:36-39 | the value TryGetLong produced when it succeeds, otherwise `defaultValue` (0 when omitted) |
| KeyValueStore.GetString | Runtime/IKeyValueStore.cs:48-51 | the value TryGetString produced when it succeeds, otherwise `defaultValue` (null when omitted) |
| KeyValueStore.GetBytes | Runtime/IKeyValueStore.cs:52-55 | the value TryGetBytes produced when it succeeds, otherwise `defaultValue` (null when omitted) |
| DictionaryStore.ToBoolean | Runtime/DictionaryKeyValueStore.cs:25-45 | `Convert.ToBoolean`: a boxed bool reads as itself; a string converts exactly when it is "True" or "False" in any case |
| DictionaryStore.ToInt32 | Runtime/DictionaryKeyValueStore.cs:47-67 | `Convert.ToInt32`: an int reads as itself; a long converts exactly when it is in the int range, to the same number |
| DictionaryStore.ToInt64 | Runtime/DictionaryKeyValueStore.cs:69-89 | `Convert.ToInt64`: ints and longs read as themselves, and whatever converts to an int converts to the same long |
| DictionaryStore.ToText | Runtime/DictionaryKeyValueStore.cs:135-155 | `ToString()` fails exactly on the null reference; a string reads as itself |
| DictionaryStore.Lookup | Runtime/DictionaryKeyValueStore.cs:25-45 | the shared TryGet shape: true exactly when the key is present and its value converts, with the converted value; otherwise false with the default |
| DictionaryStore.TryGetBool | Runtime/DictionaryKeyValueStore.cs:25-45 | a missing key gives (false, false); true only for a present key |
| DictionaryStore.TryGetInt | Runtime/DictionaryKeyValueStore.cs:47-67 | a missing key or failed conversion gives (false, 0); true only for a present key |
| DictionaryStore.TryGetLong | Runtime/DictionaryKeyValueStore.cs:69-89 | a missing key gives (false, 0); whenever TryGetInt succeeds TryGetLong succeeds with the same number |
| DictionaryStore.TryGetString | Runtime/DictionaryKeyValueStore.cs:135-155 | true exactly when the key is present and not null; a missing key gives (false, null) |
| DictionaryStore.TryGetBytes | Runtime/DictionaryKeyValueStore.cs:157-177 | true only when TryGetString succeeds and its text base64-decodes, to those bytes; otherwise (false, null) |
| DictionaryStore.DictionaryKeyValueStore.DeleteKey | Runtime/DictionaryKeyValueStore.cs:15-18 | the dictionary loses that key and nothing else |
| DictionaryStore.DictionaryKeyValueStore.DeleteAll | Runtime/DictionaryKeyValueStore.cs:20-23 | the dictionary is empty |
| DictionaryStore.DictionaryKeyValueStore.SetBool | Runtime/DictionaryKeyValueStore.cs:179-182 | the key now holds the boxed bool; every other entry unchanged |
| DictionaryStore.DictionaryKeyValueStore.SetInt | Runtime/DictionaryKeyValueStore.cs:184-187 | the key now holds the boxed int; every other entry unchanged |
| DictionaryStore.DictionaryKeyValueStore.SetLong | Runtime/DictionaryKeyValueStore.cs:189-192 | the key now holds the boxed long; every other entry unchanged |
| DictionaryStore.DictionaryKeyValueStore.SetString | Runtime/DictionaryKeyValueStore.cs:204-207 | the key now holds the string, or the null reference for null |
| DictionaryStore.DictionaryKeyValueStore.SetBytes | Runtime/DictionaryKeyValueStore.cs:209-212 | the key now holds the base64 text of the bytes; a null array throws ArgumentNullException before the dictionary is touched |
| DictionaryStore.DictionaryKeyValueStore.Load | Runtime/Utils/AStreamSavableFile.cs:11-32 | no path or no file: nothing happens; an unreadable file raises and leaves the dictionary; otherwise the dictionary becomes the file's |
| DictionaryStore.DictionaryKeyValueStore.Save | Runtime/Utils/AStreamSavableFile.cs:34-55 | no path: nothing is written; otherwise the file is recreated with the dictionary, or raises and is left unreadable on an I/O failure |
| DictionaryStore.MissingKeyReadsDefault | Runtime/DictionaryKeyValueStore.cs:25-177 | for a key HasKey denies, every TryGet answers false with the type default |
| DictionaryStore.WriteTouchesOnlyItsKey | Runtime/DictionaryKeyValueStore.cs:179-212 | after a write to one key, every read of every other key answers as before, and the written key is present |
| DictionaryStore.DeleteKeyRemovesOnlyItsKey | Runtime/DictionaryKeyValueStore.cs:15-18 | after DeleteKey the key is absent, every other key's presence is unchanged, and deleting an absent key changes nothing |
| DictionaryStore.DeleteAllEmpties | Runtime/DictionaryKeyValueStore.cs:20-23 | after DeleteAll HasKey is false everywhere, and DeleteAll is idempotent |
| DictionaryStore.OutOfRangeLongFailsAsInt | Runtime/DictionaryKeyValueStore.cs:47-67 | a long outside the int range reads as (false, 0) through TryGetInt, without throwing, and as itself through TryGetLong |
| DictionaryStore.WidenedReads | Runtime/DictionaryKeyValueStore.cs:47-89 | SetInt(k,n) then TryGetLong(k) gives n; SetBool(k,true) then TryGetInt(k) gives 1, and false gives 0 |
| DictionaryStore.IntReadsAsDecimalText | Runtime/DictionaryKeyValueStore.cs:135-155 | an int reads as its decimal text, and that text reads back as the int |
| DictionaryStore.BytesRoundTrip | Runtime/DictionaryKeyValueStore.cs:157-212 | bytes written with SetBytes are read back unchanged by TryGetBytes |
| DictionaryStore.NonBase64StringFailsAsBytes | Runtime/DictionaryKeyValueStore.cs:157-177 | a stored string that is not base64 reads as itself through TryGetString and as (false, null) through TryGetBytes |
| DictionaryStore.ShortTextIsNotBase64 | Runtime/DictionaryKeyValueStore.cs:163 | "abc" is not base64, so such strings exist |
| DictionaryStore.NullStringIsPresentButUnreadable | Runtime/DictionaryKeyValueStore.cs:135-155 | a null string is a present key that fails as a string and reads as 0 through Convert.ToInt32 |
| DictionaryStore.ViewRoundTrips | Runtime/DictionaryKeyValueStore.cs:135-212 | the dictionary store satisfies the string-slot and bytes-slot round-trip laws of the facade |
| DictionaryStore.SaveThenLoad | Runtime/DictionaryKeyValueStore.JsonFileSupport.cs:11-25 | with a path, Save then DeleteAll then Load gives back the saved dictionary, the file being taken to hold the dictionary itself |
| Values.NarrowToInt32 | Runtime/SqliteKeyValueStore.cs:246 | the unchecked `(int)` cast: identity on the int range, and equal to its argument modulo 2^32 |
| Decimal.ParseInt32 | Runtime/Utils/StringExtensions.cs:52 | succeeds exactly on integer syntax whose value fits in 32 bits, with that value |
| Decimal.FormatInt | Runtime/ObjectSerializers/UnityMathTextSerializer.cs:171 | invariant decimal text: non-empty and free of the ',' separator |
| Decimal.FormatParsesInt32 | Runtime/ObjectSerializers/UnityMathTextSerializer.cs:171-175 | an int's invariant text parses back to the int |
| Decimal.FormatParsesInt64 | Runtime/DictionaryKeyValueStore.cs:69-89 | a long's invariant text parses back to the long |
| Base64.Encode | Runtime/DictionaryKeyValueStore.cs:211 | the padded encoding: four characters for every started group of three bytes |
| Base64.Decode | Runtime/DictionaryKeyValueStore.cs:163 | a text whose length is not a multiple of four is refused |
| Base64.DecodeEncode | Runtime/DictionaryKeyValueStore.cs:157-212 | decoding the encoding of any byte sequence gives it back |
| ObjectSerializers.Dispatch | Runtime/IKeyValueStore.Generics.cs:14-26 | each route is taken exactly when the earlier ones are unavailable and its own capability is present: specialized text, specialized binary, generic text, generic binary |
| ObjectSerializers.DispatchFailsOnlyWithoutCapability | Runtime/IKeyValueStore.Generics.cs:24-25 | the dispatch fails exactly for a serializer with none of the four capabilities |
| ObjectSerializers.ShippedSerializerRoutes | Runtime/ObjectSerializers/UnityMathTextSerializer.cs:11-20 | JSON takes the generic text route for every type, raw struct bytes the generic binary route, and the math serializer the specialized text route exactly for its fourteen types |
| ObjectSerializers.Resolve | Runtime/ObjectSerializers/ObjectSerializerMap.cs:26-31 | the registered serializer for a registered type, the default otherwise |
| ObjectSerializers.RegistrationOverridesOnlyItsType | Runtime/ObjectSerializers/ObjectSerializerMap.cs:37-44 | after registering s for t, t resolves to s (replacing any earlier registration) and every other type resolves as before |
| ObjectSerializers.ObjectSerializerMap.constructor | Runtime/ObjectSerializers/ObjectSerializerMap.cs:10-24 | a fresh map has no registrations and the JSON serializer as default |
| ObjectSerializers.ObjectSerializerMap.SetObjectSerializer | Runtime/ObjectSerializers/ObjectSerializerMap.cs:37-44 | a null serializer throws ArgumentNullException and leaves the map; otherwise the map gains or replaces exactly that entry |
| ObjectSerializers.ObjectSerializerMap.SetDefaultSerializer | Runtime/ObjectSerializers/ObjectSerializerMap.cs:11-21 | a null default throws ArgumentNullException and the default stays; otherwise it becomes the value; registered lookups never change |
| ObjectSerializers.FreshMapUsesJson | Runtime/ObjectSerializers/ObjectSerializerMap.cs:24 | a fresh map sends every type to the generic text route |
| ObjectAccess.TryGetObjectText | Runtime/IKeyValueStore.Generics.cs:28-39 | when TryGetString fails the answer is false with the type default and the deserializer is not consulted; otherwise the deserializer's answer on the string |
| ObjectAccess.TryGetObjectBinary | Runtime/IKeyValueStore.Generics.cs:40-51 | the same through TryGetBytes |
| ObjectAccess.SetObjectText | Runtime/IKeyValueStore.Generics.cs:99-106 | on a store whose string slot round-trips, the key then reads back as the serialized text |
| ObjectAccess.SetObjectBinary | Runtime/IKeyValueStore.Generics.cs:107-114 | on a store whose bytes slot round-trips, the key then reads back as the serialized bytes |
| ObjectAccess.TextObjectRoundTrip | Runtime/IKeyValueStore.Generics.cs:28-39 | writing then reading through the same text serializer gives the value back, given both round-trip laws |
| ObjectAccess.BinaryObjectRoundTrip | Runtime/IKeyValueStore.Generics.cs:40-51 | the same for binary serializers |
| ObjectAccess.TryGetObject | Runtime/IKeyValueStore.Generics.cs:12-27 | throws InvalidCastException exactly when the resolved serializer has no capability; otherwise the answer of the route Dispatch picks, text routes through the string slot and binary routes through the bytes slot |
| ObjectAccess.SetObject | Runtime/IKeyValueStore.Generics.cs:79-98 | the same dispatch; text routes write only through SetString, binary routes only through SetBytes; no capability gives the exception and no new state |
| ObjectAccess.GetObject | Runtime/IKeyValueStore.Generics.cs:53-56 | TryGetObject's value when it succeeds, `defaultValue` when it answers false, its exception when it throws |
| ObjectAccess.ObjectRoundTrip | Runtime/IKeyValueStore.Generics.cs:12-98 | SetObject then TryGetObject through one map gives the value back on every route, given that the dispatched codec and the store slot of its route round-trip |
| ObjectAccess.GetObjectHidesFailure | Runtime/IKeyValueStore.Generics.cs:53-72 | a missing key and a malformed value both make GetObject answer `defaultValue` |
| ObjectAccess.NoCapabilityThrows | Runtime/IKeyValueStore.Generics.cs:95-96 | with no capability, TryGetObject, SetObject and GetObject all throw the InvalidCastException |
| ObjectAccess.DictionaryObjectRoundTrip | Runtime/IKeyValueStore.Generics.cs:79-114 | on the dictionary store any object round-trips, whichever route is taken |
| StoreWrapper.KeyValueStoreWrapper.Create | Runtime/Utils/AKeyValueStoreWrapper.cs:10-17 | a null store throws ArgumentNullException; otherwise a new wrapper holding exactly that store |
| StoreWrapper.KeyValueStoreWrapper.HasKey | Runtime/Utils/AKeyValueStoreWrapper.cs:19-22 | true exactly for the keys of the wrapped store |
| StoreWrapper.KeyValueStoreWrapper.TryGetBool | Runtime/Utils/AKeyValueStoreWrapper.cs:34-37 | the wrapped store's answer and out value |
| StoreWrapper.KeyValueStoreWrapper.TryGetBytes | Runtime/Utils/AKeyValueStoreWrapper.cs:39-42 | the wrapped store's answer and out value |
| StoreWrapper.KeyValueStoreWrapper.TryGetInt | Runtime/Utils/AKeyValueStoreWrapper.cs:54-57 | the wrapped store's answer and out value |
| StoreWrapper.KeyValueStoreWrapper.TryGetLong | Runtime/Utils/AKeyValueStoreWrapper.cs:59-62 | the wrapped store's answer and out value |
| StoreWrapper.KeyValueStoreWrapper.TryGetString | Runtime/Utils/AKeyValueStoreWrapper.cs:64-67 | the wrapped store's answer and out value |
| StoreWrapper.KeyValueStoreWrapper.DeleteKey | Runtime/Utils/AKeyValueStoreWrapper.cs:24-27 | the wrapped contents lose the key |
| StoreWrapper.KeyValueStoreWrapper.DeleteAll | Runtime/Utils/AKeyValueStoreWrapper.cs:29-32 | the wrapped contents are empty |
| StoreWrapper.KeyValueStoreWrapper.SetBool | Runtime/Utils/AKeyValueStoreWrapper.cs:69-72 | the wrapped contents change as the wrapped SetBool changes them |
| StoreWrapper.KeyValueStoreWrapper.SetInt | Runtime/Utils/AKeyValueStoreWrapper.cs:74-77 | the wrapped contents change as the wrapped SetInt changes them |
| StoreWrapper.KeyValueStoreWrapper.SetLong | Runtime/Utils/AKeyValueStoreWrapper.cs:79-82 | the wrapped contents change as the wrapped SetLong changes them |
| StoreWrapper.KeyValueStoreWrapper.SetString | Runtime/Utils/AKeyValueStoreWrapper.cs:94-97 | the wrapped contents change as the wrapped SetString changes them |
| StoreWrapper.KeyValueStoreWrapper.SetBytes | Runtime/Utils/AKeyValueStoreWrapper.cs:99-102 | the wrapped store's SetBytes, including its exception on null |
| StoreWrapper.WriteThroughReadInside | Runtime/Utils/AKeyValueStoreWrapper.cs:99-102 | bytes written through the wrapper are read back unchanged from the wrapped store |
| AutoSaveWrapper.AutoSaveKeyValueStoreWrapper.SaveNextFrame | Runtime/AutoSaveKeyValueStoreWrapper.cs:78-95 | raises the flag and queues the save; a no-op while a save is scheduled |
| AutoSaveWrapper.AutoSaveKeyValueStoreWrapper.Tick | Runtime/AutoSaveKeyValueStoreWrapper.cs:85-94 | a scheduled save runs exactly one inner Save and clears the flag also when that Save raises; with nothing scheduled, nothing is saved |
| AutoSaveWrapper.AutoSaveKeyValueStoreWrapper.DeleteKey | Runtime/AutoSaveKeyValueStoreWrapper.cs:14-18 | the inner DeleteKey, then a save is scheduled |
| AutoSaveWrapper.AutoSaveKeyValueStoreWrapper.DeleteAll | Runtime/AutoSaveKeyValueStoreWrapper.cs:20-24 | the inner DeleteAll, then a save is scheduled |
| AutoSaveWrapper.AutoSaveKeyValueStoreWrapper.SetBool | Runtime/AutoSaveKeyValueStoreWrapper.cs:26-30 | the inner SetBool, then a save is scheduled |
| AutoSaveWrapper.AutoSaveKeyValueStoreWrapper.SetInt | Runtime/AutoSaveKeyValueStoreWrapper.cs:32-36 | the inner SetInt, then a save is scheduled |
| AutoSaveWrapper.AutoSaveKeyValueStoreWrapper.SetLong | Runtime/AutoSaveKeyValueStoreWrapper.cs:38-42 | the inner SetLong, then a save is scheduled |
| AutoSaveWrapper.AutoSaveKeyValueStoreWrapper.SetString | Runtime/AutoSaveKeyValueStoreWrapper.cs:56-60 | the inner SetString, then a save is scheduled |
| AutoSaveWrapper.AutoSaveKeyValueStoreWrapper.SetBytes | Runtime/AutoSaveKeyValueStoreWrapper.cs:62-66 | the inner SetBytes; when it throws, no save is asked for |
| AutoSaveWrapper.AutoSaveKeyValueStoreWrapper.Load | Runtime/AutoSaveKeyValueStoreWrapper.cs:68-71 | the inner Load at once; the flag is untouched |
| AutoSaveWrapper.AutoSaveKeyValueStoreWrapper.Save | Runtime/AutoSaveKeyValueStoreWrapper.cs:73-76 | exactly one inner Save at once; the flag is untouched |
| AutoSaveWrapper.WriteBurst | Runtime/AutoSaveKeyValueStoreWrapper.cs:78-95 | any number of writes before the frame end give exactly one inner Save, which writes the final contents |
| AutoSaveWrapper.DeleteAllSaves | Runtime/AutoSaveKeyValueStoreWrapper.cs:20-24 | DeleteAll schedules a save: after the frame the file holds the empty dictionary |
| AutoSaveWrapper.FailedSaveReschedules | Runtime/AutoSaveKeyValueStoreWrapper.cs:91-94 | after a failing save the flag is down, so the next write schedules a new save |
| AutoSaveStore.AutoSaveKeyValueStore.Save | Runtime/AutoSaveKeyValueStore.cs:66-74 | raises the flag before the yield and queues the inner save; returns at once while a save is scheduled |
| AutoSaveStore.AutoSaveKeyValueStore.Tick | Runtime/AutoSaveKeyValueStore.cs:75-82 | the continuation runs exactly one inner Save, then the `finally` clears the flag also when it raised |
| AutoSaveStore.AutoSaveKeyValueStore.DeleteKey | Runtime/AutoSaveKeyValueStore.cs:13-17 | the inner DeleteKey, then Save |
| AutoSaveStore.AutoSaveKeyValueStore.DeleteAll | Runtime/Utils/AKeyValueStoreWrapper.cs:29-32 | not overridden: the inner DeleteAll and no save asked for |
| AutoSaveStore.AutoSaveKeyValueStore.SetBool | Runtime/AutoSaveKeyValueStore.cs:19-23 | the inner SetBool, then Save |
| AutoSaveStore.AutoSaveKeyValueStore.SetInt | Runtime/AutoSaveKeyValueStore.cs:25-29 | the inner SetInt, then Save |
| AutoSaveStore.AutoSaveKeyValueStore.SetLong | Runtime/AutoSaveKeyValueStore.cs:31-35 | the inner SetLong, then Save |
| AutoSaveStore.AutoSaveKeyValueStore.SetString | Runtime/AutoSaveKeyValueStore.cs:49-53 | the inner SetString, then Save |
| AutoSaveStore.AutoSaveKeyValueStore.SetBytes | Runtime/AutoSaveKeyValueStore.cs:55-59 | the inner SetBytes; when it throws, Save is not reached |
| AutoSaveStore.AutoSaveKeyValueStore.Load | Runtime/AutoSaveKeyValueStore.cs:61-64 | the inner Load at once |
| AutoSaveStore.CallBurst | Runtime/AutoSaveKeyValueStore.cs:66-83 | any mix of writes and Save calls before the frame end gives exactly one inner Save, which writes the final contents |
| AutoSaveStore.DeleteAllDoesNotSave | Runtime/Utils/AKeyValueStoreWrapper.cs:29-32 | DeleteAll alone saves nothing: after the frame the file and the save count are as before |
| StringExtensions.IndexOf | Runtime/Utils/StringExtensions.cs:30 | `IndexOf(separator, startIndex)`: the first index at or after the start holding the separator, or -1 when there is none |
| StringExtensions.SplitEnumerate | Runtime/Utils/StringExtensions.cs:26-40 | the loop yields exactly `Segments(text, separator)` |
| StringExtensions.SegmentsHaveNoSeparator | Runtime/Utils/StringExtensions.cs:30-39 | no yielded segment contains the separator |
| StringExtensions.OnlyLastSegmentEmpty | Runtime/Utils/StringExtensions.cs:30-38 | every segment before the last is non-empty |
| StringExtensions.SegmentsConcat | Runtime/Utils/StringExtensions.cs:26-40 | the segments joined together are the text with every separator removed |
| StringExtensions.SegmentLaws | Runtime/Utils/StringExtensions.cs:26-40 | the three laws above for a whole text |
| StringExtensions.SplitExamples | Runtime/Utils/StringExtensions.cs:39 | "" gives [""], "a," gives ["a",""], "1,,2" gives ["1","2"], ",a" gives ["a"] |
| StringExtensions.ParsedPrefix | Runtime/Utils/StringExtensions.cs:43-61 | the ints of the leading segments that parse, in order, stopping at the first that does not; never more ints than segments |
| StringExtensions.EnumerateInts | Runtime/Utils/StringExtensions.cs:43-61 | the loop yields exactly the parsed prefix of the segments, and no more values than segments |
| UnityMath.IntCount | Runtime/ObjectSerializers/UnityMathTextSerializer.cs:185 | `SizeOf<T>() / SizeOf<int>()` for the four int structs: between two and four ints |
| UnityMath.FromComponents | Runtime/ObjectSerializers/UnityMathTextSerializer.cs:183-194 | the struct of the given int type whose memory holds exactly the given ints |
| UnityMath.Zeros | Runtime/ObjectSerializers/UnityMathTextSerializer.cs:183 | `default`: n zero ints |
| UnityMath.SerializeInts | Runtime/ObjectSerializers/UnityMathTextSerializer.cs:165-179 | the components' invariant text joined by ',', with no separator first or last |
| UnityMath.DeserializedInts | Runtime/ObjectSerializers/UnityMathTextSerializer.cs:181-197 | succeeds exactly when at least `count` ints can be enumerated; always `count` ints long |
| UnityMath.TryDeserializeInts | Runtime/ObjectSerializers/UnityMathTextSerializer.cs:181-197 | the loop's answer and out value are `DeserializedInts`: the first `count` ints, or on a shortfall false with the ints written so far and zeros after |
| UnityMath.SerializeObject | Runtime/ObjectSerializers/UnityMathTextSerializer.cs:63-66 | the int structs are written through SerializeInts of their components |
| UnityMath.TryDeserializeObject | Runtime/ObjectSerializers/UnityMathTextSerializer.cs:59-62 | a struct of the requested type whose components are the out value of TryDeserializeInts, with its answer |
| UnityMath.SegmentsOfJoin | Runtime/ObjectSerializers/UnityMathTextSerializer.cs:165-197 | enumerating the ints of a joined text gives back exactly the components |
| UnityMath.IntStructRoundTrip | Runtime/ObjectSerializers/UnityMathTextSerializer.cs:165-197 | for every int struct, deserializing its serialized text succeeds with the same struct |
| UnityMath.DoubledSeparatorReads | Runtime/ObjectSerializers/UnityMathTextSerializer.cs:187-195 | "1,,2" reads as the two ints 1 and 2 |
| UnityMath.BadSegmentFails | Runtime/ObjectSerializers/UnityMathTextSerializer.cs:187-195 | "1,x" fails for two ints, leaving 1 and 0 |
| UnityMath.ExtraIntsIgnored | Runtime/ObjectSerializers/UnityMathTextSerializer.cs:188 | "1,2,3" reads as two ints 1 and 2 |
| UnityMath.UnityMathRegistrations | Runtime/ObjectSerializers/UnityMathTextSerializer.cs:24-40 | the fourteen registrations map every Unity math type to the math serializer and leave every other type's entry as it was |
| UnityMath.RegisterInSerializerMap | Runtime/ObjectSerializers/UnityMathTextSerializer.cs:24-40 | afterwards GetObjectSerializer answers the math serializer for each of the fourteen types, every other lookup and the default are unchanged |
| SqliteNative.ColumnInt64 | Plugins/Sqlite/SqliteKVS.c:80 | an integer cell reads as itself |
| SqliteNative.ColumnBytes | Plugins/Sqlite/SqliteKVS.c:129-130 | a blob cell reads as its bytes; NULL, a zero-length blob and an empty text have no bytes, and `sqlite3_column_blob` gives no address for them (`NullAddress`) |
| SqliteNative.ColumnText | Runtime/SqliteKeyValueStore.cs:267-270 | a text cell reads as its text |
| SqliteNative.TryGetCode | Plugins/Sqlite/SqliteKVS.c:75-85 | 1 exactly for ROW, 0 exactly for DONE, otherwise the negated step code |
| SqliteNative.Kvs.Open | Plugins/Sqlite/SqliteKVS.c:55-62 | an open error is returned as is and no table is created; otherwise the create-table step result, DONE on success, with the table as on disk |
| SqliteNative.Kvs.PrepareSelect | Plugins/Sqlite/SqliteKVS.c:34-42 | prepared on first use (only on an open connection with its table), afterwards kept and reset; the key is rebound |
| SqliteNative.Kvs.StepSelect | Plugins/Sqlite/SqliteKVS.c:74 | MISUSE on a NULL statement, the fault if any, ROW with the key's cell when it has a row, else DONE |
| SqliteNative.Kvs.TryGetInt | Plugins/Sqlite/SqliteKVS.c:72-86 | 1 with the column written exactly when the key has a row, 0 with nothing written when it has none, the negated step code otherwise |
| SqliteNative.Kvs.TryGetBytes | Plugins/Sqlite/SqliteKVS.c:121-136 | the same return codes, with the row's cell as the column |
| SqliteNative.Kvs.HasKey | Plugins/Sqlite/SqliteKVS.c:138-141 | 1 exactly when the select step yields a row, else 0 |
| SqliteNative.Kvs.ResetSelect | Plugins/Sqlite/SqliteKVS.c:169-171 | the select is no longer stepped |
| SqliteNative.Kvs.PrepareUpsert | Plugins/Sqlite/SqliteKVS.c:44-52 | prepared on first use, afterwards kept and reset; the key is rebound |
| SqliteNative.Kvs.Upsert | Plugins/Sqlite/SqliteKVS.c:7 | DONE exactly when the statement exists and the step does not fail; the key then holds the new cell (replacing any old one), committed at once outside a transaction; otherwise no row changes |
| SqliteNative.Kvs.SetInt | Plugins/Sqlite/SqliteKVS.c:144-148 | the upsert of an integer cell |
| SqliteNative.Kvs.SetText | Plugins/Sqlite/SqliteKVS.c:156-160 | the upsert of a text cell, NULL for a null string |
| SqliteNative.Kvs.SetBytes | Plugins/Sqlite/SqliteKVS.c:162-166 | the upsert of a blob cell, NULL for a null array |
| SqliteNative.Kvs.DeleteKey | Runtime/SqliteKeyValueStore.cs:55-56 | `SqliteKVS_delete_key`, imported here and defined in the newer `src~/SqliteKVS.c` (lines 252-257): on an open table the key's row is removed and nothing else; otherwise an error code and no change |
| SqliteNative.Kvs.DeleteAll | Runtime/SqliteKeyValueStore.cs:58-59 | `SqliteKVS_delete_all` (newer C copy, lines 259-264): on an open table every row is removed |
| SqliteNative.Kvs.Begin | Runtime/SqliteKeyValueStore.cs:61-62 | `SqliteKVS_begin` (newer C copy, lines 272-277): opens a transaction; inside one it fails and the nested BEGIN is counted |
| SqliteNative.Kvs.Commit | Runtime/SqliteKeyValueStore.cs:64-65 | `SqliteKVS_commit` (newer C copy, lines 279-284): inside a transaction, the rows become durable and the commit is counted; otherwise an error and no change |
| SqliteNative.Kvs.RunSql | Runtime/SqliteKeyValueStore.cs:70-71 | `SqliteKVS_run_sql` (newer C copy, lines 287-297): the text is run and the error callback's message, if any, is returned |
| SqliteNative.Kvs.CloseAsWritten | Plugins/Sqlite/SqliteKVS.c:64-69 | as written: with a statement still prepared the close answers BUSY and the connection is lost, since the struct is zeroed afterwards |
| SqliteNative.Kvs.Close | Plugins/Sqlite/SqliteKVS.c:64-69 | the corrected close, as in the newer C copy (lines 135-144): statements finalized first: the close answers OK, nothing leaks, and an open transaction is rolled back |
| SqliteNative.CloseAsWrittenLeaksAfterARead | Plugins/Sqlite/SqliteKVS.c:64-69 | open, read one key, close as written: the close answers BUSY |
| SqliteNative.CloseReleasesAfterARead | Runtime/SqliteKeyValueStore.cs:280-284 | the same sequence with the corrected close answers OK |
| SqliteNative.UpsertReplaces | Plugins/Sqlite/SqliteKVS.c:5-7 | two writes of one key, then a read, give the second value: one value per key |
| SqliteNative.PreparedOnce | Plugins/Sqlite/SqliteKVS.c:34-52 | after two uses both statements are prepared and bound to the latest key |
| SqliteStore.TrimStart | Runtime/SqliteKeyValueStore.cs:289 | the longest suffix not starting with white space, all dropped characters being white space |
| SqliteStore.PragmaTextIsPragma | Runtime/SqliteKeyValueStore.cs:288-292 | the text run always starts, after white space and in any case, with "pragma ", and is the argument or "PRAGMA " plus the argument |
| SqliteStore.PragmaTextIdempotent | Runtime/SqliteKeyValueStore.cs:289-292 | prefixing twice is prefixing once |
| SqliteStore.PragmaTextKeepsPragmas | Runtime/SqliteKeyValueStore.cs:289-292 | a text that already starts with "pragma " is run unchanged |
| SqliteStore.SqliteKeyValueStore.constructor | Runtime/SqliteKeyValueStore.cs:102-105 | opens the database, no transaction or commit pending |
| SqliteStore.SqliteKeyValueStore.EnsureTransaction | Runtime/SqliteKeyValueStore.cs:311-318 | BEGIN only when no transaction is open, so never twice without a commit |
| SqliteStore.SqliteKeyValueStore.Commit | Runtime/SqliteKeyValueStore.cs:320-327 | a no-op without a transaction; otherwise the flag goes down and exactly one COMMIT makes the rows durable |
| SqliteStore.SqliteKeyValueStore.ScheduleCommit | Runtime/SqliteKeyValueStore.cs:329-339 | raises the flag and queues a commit; a no-op while one is pending |
| SqliteStore.SqliteKeyValueStore.Tick | Runtime/SqliteKeyValueStore.cs:339-345 | the queued continuation commits once and clears the flag; with nothing queued nothing is committed |
| SqliteStore.SqliteKeyValueStore.TryGetLong | Runtime/SqliteKeyValueStore.cs:256-262 | true exactly when the table has the key and the step does not fail, with the column's 64-bit value, else (false, 0); a transaction is left open and no commit is asked for |
| SqliteStore.SqliteKeyValueStore.TryGetInt | Runtime/SqliteKeyValueStore.cs:242-254 | the long read narrowed by the unchecked cast |
| SqliteStore.SqliteKeyValueStore.TryGetBool | Runtime/SqliteKeyValueStore.cs:189-201 | the long read compared with 0 |
| SqliteStore.SqliteKeyValueStore.TryGetBytes | Runtime/SqliteKeyValueStore.cs:203-218 | ArgumentNullException from `Marshal.Copy` exactly when the found value has no address (NULL or zero-length), with the select left stepped; otherwise the column's bytes when found, null on a miss, and the select reset |
| SqliteStore.SqliteKeyValueStore.TryGetString | Runtime/SqliteKeyValueStore.cs:264-278 | ArgumentNullException from `PtrToStringUni` exactly when the found value has no address (NULL or empty), with the select left stepped; otherwise the column read as text when found, null on a miss, and the select reset |
| SqliteStore.SqliteKeyValueStore.HasKey | Runtime/SqliteKeyValueStore.cs:138-144 | true exactly when the table has the key and the step does not fail |
| SqliteStore.SqliteKeyValueStore.SetLong | Runtime/SqliteKeyValueStore.cs:175-180 | in the open transaction the key holds the integer; nothing is durable yet and a commit is pending |
| SqliteStore.SqliteKeyValueStore.SetBool | Runtime/SqliteKeyValueStore.cs:146-149 | through SetLong: 1 for true, 0 for false |
| SqliteStore.SqliteKeyValueStore.SetInt | Runtime/SqliteKeyValueStore.cs:170-173 | through SetLong, widened |
| SqliteStore.SqliteKeyValueStore.SetString | Runtime/SqliteKeyValueStore.cs:182-187 | the key holds the text, NULL for null; a commit is pending |
| SqliteStore.SqliteKeyValueStore.SetBytes | Runtime/SqliteKeyValueStore.cs:151-156 | the key holds the blob, NULL for null; a commit is pending |
| SqliteStore.SqliteKeyValueStore.DeleteKey | Runtime/SqliteKeyValueStore.cs:131-136 | the key's row is gone in the transaction; a commit is pending |
| SqliteStore.SqliteKeyValueStore.DeleteAll | Runtime/SqliteKeyValueStore.cs:124-129 | every row is gone in the transaction; a commit is pending |
| SqliteStore.SqliteKeyValueStore.Dispose | Runtime/SqliteKeyValueStore.cs:280-284 | an open transaction is committed exactly once before the close; the connection is closed without leaking |
| SqliteStore.SqliteKeyValueStore.RunSql | Runtime/SqliteKeyValueStore.cs:348-356 | throws InvalidOperationException with the reported message exactly when the error callback was called |
| SqliteStore.SqliteKeyValueStore.Pragma | Runtime/SqliteKeyValueStore.cs:286-303 | runs the prefixed text; with an output list the returned rows are appended unless it threw |
| SqliteStore.SqliteKeyValueStore.Vacuum | Runtime/SqliteKeyValueStore.cs:305-309 | commits first, so VACUUM never runs inside the store's transaction |
| SqliteStore.WriteBurst | Runtime/SqliteKeyValueStore.cs:329-346 | any number of writes in one frame give exactly one COMMIT, after which the last write is durable |
| SqliteStore.ReadKeepsTransactionOpen | Runtime/SqliteKeyValueStore.cs:256-262 | a read opens a transaction but asks for no commit: after the frame it is still open |
| SqliteStore.BoolReadsAsIntOne | Runtime/SqliteKeyValueStore.cs:146-254 | SetBool(k, true) then TryGetInt(k) answers 1 |
| SqliteStore.StringRoundTrips | Runtime/SqliteKeyValueStore.cs:264-278 | a non-empty string comes back as written through TryGetString; a null or empty one makes the read raise ArgumentNullException |
| SqliteStore.BytesRoundTrips | Runtime/SqliteKeyValueStore.cs:203-218 | a non-empty byte array comes back as written through TryGetBytes; a null or empty one makes the read raise ArgumentNullException |
| SqliteStore.DisposeIsIdempotent | Runtime/SqliteKeyValueStore.cs:107-110 | a second Dispose (as from the finalizer) and the late commit continuation commit nothing more |
| StructBinary.MemCpy | Runtime/ObjectSerializers/StructBinarySerializer.cs:16 | the first n bytes are copied and the rest of the destination is unchanged |
| StructBinary.SerializeObject | Runtime/ObjectSerializers/StructBinarySerializer.cs:9-19 | a new buffer of exactly SizeOf(T) bytes holding the value's memory |
| StructBinary.Deserialized | Runtime/ObjectSerializers/StructBinarySerializer.cs:21-36 | succeeds exactly when the input has at least SizeOf(T) bytes |
| StructBinary.TryDeserializeObject | Runtime/ObjectSerializers/StructBinarySerializer.cs:21-36 | a short input gives false with `default(T)`; otherwise true with the value of the first SizeOf(T) bytes |
| StructBinary.TrailingBytesIgnored | Runtime/ObjectSerializers/StructBinarySerializer.cs:31-35 | bytes after the first SizeOf(T) do not change the answer |
| StructBinary.StructRoundTrip | Runtime/ObjectSerializers/StructBinarySerializer.cs:9-36 | a value's own bytes, with anything appended, deserialize to the value |
| StructBinary.ShortInputGivesDefault | Runtime/ObjectSerializers/StructBinarySerializer.cs:24-29 | a short input yields the all-zero value |
| StructBinary.CodecRoundTrips | Runtime/ObjectSerializers/StructBinarySerializer.cs:9-36 | as a generic binary codec for the typed-object layer, the serializer round-trips every unmanaged value |
| StructBinary.SerializeThenDeserialize | Runtime/ObjectSerializers/StructBinarySerializer.cs:9-36 | the two methods in sequence give the value back |

## Findings

| source | as written | input that shows it | evidently intended | confidence | as-written member | corrected member |
|---|---|---|---|---|---|---|
| Plugins/Sqlite/SqliteKVS.c:64-69 | `sqlite3_close` is called before the select and upsert statements are finalized. While a statement is unfinalized, SQLite's `sqlite3_close` answers SQLITE_BUSY and keeps the connection open. The struct is then zeroed, so that open connection can no longer be reached. | at the level of the C file: open, read one key with `SqliteKVS_try_get_int` (this prepares the select), then `SqliteKVS_close`. The C# store cannot reach it with this C file, because it imports `SqliteKVS_begin`, which this file does not define. | finalize the statements first, then close, as the newer copy at Plugins/Sqlite/src~/SqliteKVS.c (lines 135-144) does | not executed | SqliteNative.CloseAsWrittenLeaksAfterARead (with SqliteNative.Kvs.CloseAsWritten) | SqliteNative.Kvs.Close (with SqliteNative.CloseReleasesAfterARead); SqliteStore.SqliteKeyValueStore.Dispose uses it |

## Left out

- Floating-point values are not modelled because they are out of scope. This covers
  `SetFloat`/`SetDouble`/`TryGetFloat`/`TryGetDouble`, `Convert.ToSingle`/`ToDouble`, the
  native `*_double` functions, `EnumerateFloats` and the ten float-based types of
  `UnityMathTextSerializer`. Those types are still registered and dispatched by type.
- The `PlayerPrefs` and `EditorPrefs` stores are left out. They are thin adapters over Unity
  APIs whose behaviour is not visible.
- File I/O is left out: streams, `GZipStream`, directory creation and Newtonsoft JSON. The
  file behind the dictionary store is its contents (`FileState`). An I/O failure is a
  parameter.
- The JSON and XML serializers wrap foreign libraries. They are modelled only as codecs
  passed as parameters, and the round-trip theorems assume that those codecs round-trip.
  `ITextSerializer` and `IBinarySerializer` declare `DeserializeObject`, but their callers use
  `TryDeserializeObject`. The model follows the callers.
- The overloads without a map pass `ObjectSerializerMap.DefaultSerializerMap`. The model's map
  parameter covers them: pass the default map.
- `GetObjectSerializer<T>` and `SetObjectSerializer<T>` are the overloads taking `typeof(T)`.
  The model has only the `TypeId` form.
- The auto-save decorators' reads are the inherited forwarding reads of `StoreWrapper`. They
  are functions of the wrapped contents, so they cannot touch the save flag. They are not
  repeated in the decorator classes.
- The decorators' null check is the forwarding wrapper's (`StoreWrapper.KeyValueStoreWrapper.Create`).
  The decorator constructors take a non-null store.
- The wrappers are modelled over a `DictionaryKeyValueStore` as the wrapped store, not over an
  arbitrary `IKeyValueStore`.
- `async void`, `Task.Yield` and threads are not modelled. The next frame is an explicit
  `Tick` on a single thread. An exception thrown by the deferred save or commit ends up in the
  synchronization context; here it is the `raised` result of `Tick`.
- SqliteNative.ColumnInt64, SqliteNative.ColumnBytes and SqliteNative.ColumnText fix only
  same-kind reads. SQLite's conversion of a column written as another kind is a parameter of
  the connection (`Coercion`).
- SqliteNative.ColumnText reads a text cell back as its text. This holds because a database
  created by `sqlite3_open16` stores text as UTF-16 in native byte order, and the C# side
  reads the blob bytes as UTF-16. A database file created with another encoding is not
  modelled.
- UTF-16 marshalling is not modelled, and neither are byte lengths. Of `Marshal.Copy` and
  `Marshal.PtrToStringUni` only the refusal of a NULL address is modelled. Neither
  is the C# struct layout (seven native handles and two flags), which differs from the C `KVS`
  struct.
- SqliteNative.Kvs.DeleteKey, SqliteNative.Kvs.DeleteAll, SqliteNative.Kvs.Begin,
  SqliteNative.Kvs.Commit and SqliteNative.Kvs.RunSql are imported by the C# store but not
  defined in Plugins/Sqlite/SqliteKVS.c. They are given the SQL meaning of the statements the
  newer copy in Plugins/Sqlite/src~/SqliteKVS.c runs. Their statement handles are not
  tracked.
- SqliteNative.Kvs.Commit: a COMMIT that fails with BUSY, because another connection holds a
  lock, is not modelled. The store's flag would then drift from the connection.
- SqliteNative.Kvs.RunSql: the effect of arbitrary SQL on the rows is not modelled, only its
  text and the error it reports. The rows a PRAGMA returns are a parameter of
  SqliteStore.SqliteKeyValueStore.Pragma.
- SqliteStore.SqliteKeyValueStore.Pragma: the static `_sqlReturn`/`_sqlError` buffers are not
  modelled. When `RunSql` throws after rows were collected, those rows stay in the static
  buffer, and the model does not capture that.
- SqliteStore.SqliteKeyValueStore.Pragma: the `Debug.Assert` that the text holds no ';' is
  not modelled, because it is a debug-build check.
- SqliteStore.TrimStart and SqliteStore.StartsWithIgnoreCase are ASCII-only. They cover
  ASCII white space and ASCII letters, not all of Unicode.
- The GC finalizer's timing is not modelled. Only its effect, a second `Dispose`, is covered,
  by `SqliteStore.DisposeIsIdempotent`.
- The `SqliteKeyValueStore` constructor does not look at the open result; neither does the
  model. A commit that the native layer refuses still lowers the C# flag.
- Decimal.ParseInt32 parses strictly. It rejects the leading and trailing white space that
  `int.TryParse` and `Convert.ToInt32(string)` accept, and it rejects culture-specific signs.
- Base64.Decode is strict RFC 4648, section 4. It rejects the white space
  `Convert.FromBase64String` skips.
- DictionaryStore.ToBoolean rejects surrounding white space, which `bool.Parse` trims.
- StructBinary.Codec answers a null array with false and the default value. In C#, a null
  array makes `TryDeserializeObject` throw NullReferenceException. No modelled store answers
  true with a null array, so the object layer never passes one.
- StructBinary: the value's memory is a parameter (`Layout`), because unmanaged memory is not
  visible here. The `Debug.Assert` that the type is unmanaged becomes the `Unmanaged`
  precondition of the round-trip lemmas.
- SqliteStore.SqliteKeyValueStore.TryGetString: the two-argument `PtrToStringUni` is taken to
  raise ArgumentNullException on a NULL address, as documented. A runtime that answers null
  there instead is not modelled.
- SqliteStore.SqliteKeyValueStore.TryGetLong: on a miss the native `try_get_int` does not write
  `out_value`. The model answers 0, which is the C# `out long` default the P/Invoke passes; the
  marshalling of that argument is not modelled.
- DictionaryStore.SaveThenLoad holds of the abstract file (`FileState`), which stores the
  dictionary itself. Newtonsoft's JSON round trip is not the identity on boxed values: an int
  comes back as a long, and a date-like string comes back as a `DateTime`. Those conversions
  are not modelled.
- DictionaryStore.DictionaryKeyValueStore.Load and Save: Runtime/DictionaryKeyValueStore.JsonFileSupport.cs
  (lines 15 and 23) names `dictionary`, but the field is `_dictionary`. The model gives the
  two methods their evident meaning on the field.
- UnityMath: only the four int-based types are modelled as values. The fourteen registrations
  are modelled for all types.
