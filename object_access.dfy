/** The typed-object extensions of the facade (TryGetObject / GetObject / SetObject).

    A serializer's behaviour on one value type `T` is given by codecs: what it writes for a value,
    and what its `TryDeserializeObject` answers (the boolean and the `out` value) for a text or a
    byte array, `None` standing for null. The map-based overloads resolve the serializer for `T`,
    pick the route by `ObjectSerializers.Dispatch`, and go through the string slot for text
    serializers and the bytes slot for binary serializers. */
module ObjectAccess {
  import opened Wrappers
  import opened Values
  import opened KeyValueStore
  import opened ObjectSerializers
  import DictionaryStore

  datatype TextCodec<!T> = TextCodec(serialize: T -> string, tryDeserialize: Option<string> -> Got<T>)

  datatype BinaryCodec<!T> = BinaryCodec(serialize: T -> seq<byte>, tryDeserialize: Option<seq<byte>> -> Got<T>)

  /** How one serializer object behaves on values of `T`, per capability interface. */
  datatype Behaviour<!T> = Behaviour(
    specializedText: TextCodec<T>,
    specializedBinary: BinaryCodec<T>,
    genericText: TextCodec<T>,
    genericBinary: BinaryCodec<T>)

  /** A value type: its `typeof(T)`, its `default(T)`, and how each serializer treats it. */
  datatype ValueType<!T> = ValueType(id: TypeId, typeDefault: T, behaviourOf: Serializer -> Behaviour<T>)

  const NoCapabilityMessage := "Expected default object serializer to be either ITextSerializer or IBinarySerializer type."

  ghost predicate TextRoundTrips<T(!new)>(codec: TextCodec<T>)
  {
    forall v: T :: codec.tryDeserialize(Some(codec.serialize(v))) == Got(true, v)
  }

  ghost predicate BinaryRoundTrips<T(!new)>(codec: BinaryCodec<T>)
  {
    forall v: T :: codec.tryDeserialize(Some(codec.serialize(v))) == Got(true, v)
  }

  /** Reading through a text serializer: the deserializer is consulted only when TryGetString
      succeeds; otherwise the answer is false with the type default. */
  function TryGetObjectText<S, T>(kvs: StoreView<S>, st: S, codec: TextCodec<T>, key: string, typeDefault: T)
    : (r: Got<T>)
    ensures !kvs.tryGetString(st, key).ok ==> r == Got(false, typeDefault)
    ensures kvs.tryGetString(st, key).ok ==> r == codec.tryDeserialize(kvs.tryGetString(st, key).value)
  {
    var text := kvs.tryGetString(st, key);
    if text.ok then codec.tryDeserialize(text.value) else Got(false, typeDefault)
  }

  /** Reading through a binary serializer, with the bytes slot in place of the string slot. */
  function TryGetObjectBinary<S, T>(kvs: StoreView<S>, st: S, codec: BinaryCodec<T>, key: string, typeDefault: T)
    : (r: Got<T>)
    ensures !kvs.tryGetBytes(st, key).ok ==> r == Got(false, typeDefault)
    ensures kvs.tryGetBytes(st, key).ok ==> r == codec.tryDeserialize(kvs.tryGetBytes(st, key).value)
  {
    var bytes := kvs.tryGetBytes(st, key);
    if bytes.ok then codec.tryDeserialize(bytes.value) else Got(false, typeDefault)
  }

  function SetObjectText<S(!new), T>(kvs: StoreView<S>, st: S, codec: TextCodec<T>, key: string, value: T): (r: S)
    ensures StringSlotRoundTrips(kvs) ==> kvs.tryGetString(r, key) == Got(true, Some(codec.serialize(value)))
  {
    kvs.setString(st, key, codec.serialize(value))
  }

  function SetObjectBinary<S(!new), T>(kvs: StoreView<S>, st: S, codec: BinaryCodec<T>, key: string, value: T): (r: S)
    ensures BytesSlotRoundTrips(kvs) ==> kvs.tryGetBytes(r, key) == Got(true, Some(codec.serialize(value)))
  {
    kvs.setBytes(st, key, codec.serialize(value))
  }

  /** A value written through a serializer is read back through the same serializer, when the
      serializer and the store's slot both round-trip. */
  lemma TextObjectRoundTrip<S(!new), T(!new)>(kvs: StoreView<S>, st: S, codec: TextCodec<T>, key: string, value: T, typeDefault: T)
    requires StringSlotRoundTrips(kvs) && TextRoundTrips(codec)
    ensures TryGetObjectText(kvs, SetObjectText(kvs, st, codec, key, value), codec, key, typeDefault) == Got(true, value)
  {
  }

  lemma BinaryObjectRoundTrip<S(!new), T(!new)>(kvs: StoreView<S>, st: S, codec: BinaryCodec<T>, key: string, value: T, typeDefault: T)
    requires BytesSlotRoundTrips(kvs) && BinaryRoundTrips(codec)
    ensures TryGetObjectBinary(kvs, SetObjectBinary(kvs, st, codec, key, value), codec, key, typeDefault) == Got(true, value)
  {
  }

  /** The map-based TryGetObject: the route of the serializer the map resolves for `T`, or the
      InvalidCastException when it has none. */
  function TryGetObject<S, T>(kvs: StoreView<S>, st: S, serializerMap: ObjectSerializerMap, vt: ValueType<T>, key: string)
    : (r: Result<Got<T>, Exception>)
    reads serializerMap
    ensures var s := serializerMap.GetObjectSerializer(vt.id);
      (r.Failure? <==> Dispatch(s, vt.id).None?) &&
      (r.Failure? ==> r.error == InvalidCastException(NoCapabilityMessage))
    ensures var s := serializerMap.GetObjectSerializer(vt.id);
      Dispatch(s, vt.id) == Some(SpecializedText) ==>
        r == Success(TryGetObjectText(kvs, st, vt.behaviourOf(s).specializedText, key, vt.typeDefault))
    ensures var s := serializerMap.GetObjectSerializer(vt.id);
      Dispatch(s, vt.id) == Some(SpecializedBinary) ==>
        r == Success(TryGetObjectBinary(kvs, st, vt.behaviourOf(s).specializedBinary, key, vt.typeDefault))
    ensures var s := serializerMap.GetObjectSerializer(vt.id);
      Dispatch(s, vt.id) == Some(GenericText) ==>
        r == Success(TryGetObjectText(kvs, st, vt.behaviourOf(s).genericText, key, vt.typeDefault))
    ensures var s := serializerMap.GetObjectSerializer(vt.id);
      Dispatch(s, vt.id) == Some(GenericBinary) ==>
        r == Success(TryGetObjectBinary(kvs, st, vt.behaviourOf(s).genericBinary, key, vt.typeDefault))
  {
    var s := serializerMap.GetObjectSerializer(vt.id);
    var behaviour := vt.behaviourOf(s);
    match Dispatch(s, vt.id)
    case Some(SpecializedText) => Success(TryGetObjectText(kvs, st, behaviour.specializedText, key, vt.typeDefault))
    case Some(SpecializedBinary) => Success(TryGetObjectBinary(kvs, st, behaviour.specializedBinary, key, vt.typeDefault))
    case Some(GenericText) => Success(TryGetObjectText(kvs, st, behaviour.genericText, key, vt.typeDefault))
    case Some(GenericBinary) => Success(TryGetObjectBinary(kvs, st, behaviour.genericBinary, key, vt.typeDefault))
    case None => Failure(InvalidCastException(NoCapabilityMessage))
  }

  /** The map-based SetObject: the new store state, or the InvalidCastException with no state
      change. Text routes write the string slot only, binary routes the bytes slot only. */
  function SetObject<S(!new), T>(kvs: StoreView<S>, st: S, serializerMap: ObjectSerializerMap, vt: ValueType<T>, key: string, value: T)
    : (r: Result<S, Exception>)
    reads serializerMap
    ensures var s := serializerMap.GetObjectSerializer(vt.id);
      (r.Failure? <==> Dispatch(s, vt.id).None?) &&
      (r.Failure? ==> r.error == InvalidCastException(NoCapabilityMessage))
    ensures var s := serializerMap.GetObjectSerializer(vt.id);
      Dispatch(s, vt.id) == Some(SpecializedText) ==>
        r == Success(kvs.setString(st, key, vt.behaviourOf(s).specializedText.serialize(value)))
    ensures var s := serializerMap.GetObjectSerializer(vt.id);
      Dispatch(s, vt.id) == Some(GenericText) ==>
        r == Success(kvs.setString(st, key, vt.behaviourOf(s).genericText.serialize(value)))
    ensures var s := serializerMap.GetObjectSerializer(vt.id);
      Dispatch(s, vt.id) == Some(SpecializedBinary) ==>
        r == Success(kvs.setBytes(st, key, vt.behaviourOf(s).specializedBinary.serialize(value)))
    ensures var s := serializerMap.GetObjectSerializer(vt.id);
      Dispatch(s, vt.id) == Some(GenericBinary) ==>
        r == Success(kvs.setBytes(st, key, vt.behaviourOf(s).genericBinary.serialize(value)))
  {
    var s := serializerMap.GetObjectSerializer(vt.id);
    var behaviour := vt.behaviourOf(s);
    match Dispatch(s, vt.id)
    case Some(SpecializedText) => Success(SetObjectText(kvs, st, behaviour.specializedText, key, value))
    case Some(SpecializedBinary) => Success(SetObjectBinary(kvs, st, behaviour.specializedBinary, key, value))
    case Some(GenericText) => Success(SetObjectText(kvs, st, behaviour.genericText, key, value))
    case Some(GenericBinary) => Success(SetObjectBinary(kvs, st, behaviour.genericBinary, key, value))
    case None => Failure(InvalidCastException(NoCapabilityMessage))
  }

  /** GetObject: the value TryGetObject produced when it succeeds, `defaultValue` whenever it
      answers false, and its exception when it throws. */
  function GetObject<S, T>(kvs: StoreView<S>, st: S, serializerMap: ObjectSerializerMap, vt: ValueType<T>, key: string, defaultValue: T)
    : (r: Result<T, Exception>)
    reads serializerMap
    ensures TryGetObject(kvs, st, serializerMap, vt, key).Failure? ==>
      r == Failure(TryGetObject(kvs, st, serializerMap, vt, key).error)
    ensures TryGetObject(kvs, st, serializerMap, vt, key).Success? ==>
      var got := TryGetObject(kvs, st, serializerMap, vt, key).value;
      r == Success(if got.ok then got.value else defaultValue)
  {
    var got :- TryGetObject(kvs, st, serializerMap, vt, key);
    Success(if got.ok then got.value else defaultValue)
  }

  /** The codec that the map's serializer for `T` is dispatched to round-trips on `T`. A map with
      no capability for `T` dispatches to no codec. */
  ghost predicate DispatchedCodecRoundTrips<T(!new)>(serializerMap: ObjectSerializerMap, vt: ValueType<T>)
    reads serializerMap
  {
    var s := serializerMap.GetObjectSerializer(vt.id);
    var b := vt.behaviourOf(s);
    match Dispatch(s, vt.id)
    case Some(SpecializedText) => TextRoundTrips(b.specializedText)
    case Some(SpecializedBinary) => BinaryRoundTrips(b.specializedBinary)
    case Some(GenericText) => TextRoundTrips(b.genericText)
    case Some(GenericBinary) => BinaryRoundTrips(b.genericBinary)
    case None => true
  }

  /** The store slot that route goes through round-trips: the string slot for a text route, the
      bytes slot for a binary route. */
  ghost predicate DispatchedSlotRoundTrips<S(!new), T>(kvs: StoreView<S>, serializerMap: ObjectSerializerMap, vt: ValueType<T>)
    reads serializerMap
  {
    match Dispatch(serializerMap.GetObjectSerializer(vt.id), vt.id)
    case Some(SpecializedText) => StringSlotRoundTrips(kvs)
    case Some(GenericText) => StringSlotRoundTrips(kvs)
    case Some(SpecializedBinary) => BytesSlotRoundTrips(kvs)
    case Some(GenericBinary) => BytesSlotRoundTrips(kvs)
    case None => true
  }

  /** SetObject then TryGetObject through the same map gives the value back, whichever route the
      map's serializer takes, when that route's codec and store slot round-trip. */
  lemma ObjectRoundTrip<S(!new), T(!new)>(kvs: StoreView<S>, st: S, serializerMap: ObjectSerializerMap, vt: ValueType<T>, key: string, value: T)
    requires DispatchedCodecRoundTrips(serializerMap, vt) && DispatchedSlotRoundTrips(kvs, serializerMap, vt)
    requires SetObject(kvs, st, serializerMap, vt, key, value).Success?
    ensures TryGetObject(kvs, SetObject(kvs, st, serializerMap, vt, key, value).value, serializerMap, vt, key)
      == Success(Got(true, value))
  {
    var s := serializerMap.GetObjectSerializer(vt.id);
    var b := vt.behaviourOf(s);
    match Dispatch(s, vt.id)
    case Some(SpecializedText) =>
      TextObjectRoundTrip(kvs, st, b.specializedText, key, value, vt.typeDefault);
    case Some(SpecializedBinary) =>
      BinaryObjectRoundTrip(kvs, st, b.specializedBinary, key, value, vt.typeDefault);
    case Some(GenericText) =>
      TextObjectRoundTrip(kvs, st, b.genericText, key, value, vt.typeDefault);
    case Some(GenericBinary) =>
      BinaryObjectRoundTrip(kvs, st, b.genericBinary, key, value, vt.typeDefault);
  }

  /** A missing key and a malformed value look the same to GetObject on a text route: both give
      `defaultValue`. */
  lemma GetObjectHidesFailure<S, T>(kvs: StoreView<S>, st: S, serializerMap: ObjectSerializerMap, vt: ValueType<T>, key: string, defaultValue: T)
    requires Dispatch(serializerMap.GetObjectSerializer(vt.id), vt.id) == Some(GenericText)
    requires var codec := vt.behaviourOf(serializerMap.GetObjectSerializer(vt.id)).genericText;
      !kvs.tryGetString(st, key).ok || !codec.tryDeserialize(kvs.tryGetString(st, key).value).ok
    ensures GetObject(kvs, st, serializerMap, vt, key, defaultValue) == Success(defaultValue)
  {
  }

  /** With a serializer that has no capability for `T`, reads and writes both throw. */
  lemma NoCapabilityThrows<S(!new), T>(kvs: StoreView<S>, st: S, serializerMap: ObjectSerializerMap, vt: ValueType<T>, key: string, value: T)
    requires Dispatch(serializerMap.GetObjectSerializer(vt.id), vt.id).None?
    ensures TryGetObject(kvs, st, serializerMap, vt, key) == Failure(InvalidCastException(NoCapabilityMessage))
    ensures SetObject(kvs, st, serializerMap, vt, key, value) == Failure(InvalidCastException(NoCapabilityMessage))
    ensures GetObject(kvs, st, serializerMap, vt, key, vt.typeDefault) == Failure(InvalidCastException(NoCapabilityMessage))
  {
  }

  /** The dictionary store meets both slot laws, so any object whose dispatched codec round-trips
      comes back through it. */
  lemma DictionaryObjectRoundTrip<T(!new)>(d: DictionaryStore.Dictionary, serializerMap: ObjectSerializerMap, vt: ValueType<T>, key: string, value: T)
    requires DispatchedCodecRoundTrips(serializerMap, vt)
    requires Dispatch(serializerMap.GetObjectSerializer(vt.id), vt.id).Some?
    ensures TryGetObject(DictionaryStore.View(), SetObject(DictionaryStore.View(), d, serializerMap, vt, key, value).value, serializerMap, vt, key)
      == Success(Got(true, value))
  {
    DictionaryStore.ViewRoundTrips();
    ObjectRoundTrip(DictionaryStore.View(), d, serializerMap, vt, key, value);
  }
}
