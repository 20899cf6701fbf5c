/** ObjectSerializerMap: a per-type registry of object serializers with a non-null default.

    A C# `Type` is a `TypeId`; a serializer object is seen through the capability interfaces it
    implements: `ITextSerializer<T>` for the types in `textFor`, `IBinarySerializer<T>` for the types
    in `binaryFor`, and the non-generic `ITextSerializer` / `IBinarySerializer`. */
module ObjectSerializers {
  import opened Wrappers
  import opened Values

  /** A C# `Type`: the fourteen Unity math structs by name, any other type by its full name. */
  datatype TypeId =
    | Color | Quaternion | Matrix4x4 | Plane | Ray | Ray2D | RangeInt | Rect | RectInt
    | Vector2 | Vector2Int | Vector3 | Vector3Int | Vector4
    | OtherType(fullName: string)

  datatype Serializer = Serializer(
    name: string,
    textFor: set<TypeId>,
    binaryFor: set<TypeId>,
    genericText: bool,
    genericBinary: bool)

  /** In the order RegisterInSerializerMap registers them. */
  const UnityMathTypes: seq<TypeId> :=
    [Color, Quaternion, Matrix4x4, Plane, Ray, Ray2D, RangeInt, Rect, RectInt,
     Vector2, Vector2Int, Vector3, Vector3Int, Vector4]

  const UnityMathTypeSet: set<TypeId> :=
    {Color, Quaternion, Matrix4x4, Plane, Ray, Ray2D, RangeInt, Rect, RectInt,
     Vector2, Vector2Int, Vector3, Vector3Int, Vector4}

  const JsonUtilityTextSerializer := Serializer("JsonUtilityTextSerializer", {}, {}, true, false)
  const UnityMathTextSerializer :=
    Serializer("UnityMathTextSerializer", UnityMathTypeSet, {}, false, false)
  const StructBinarySerializer := Serializer("StructBinarySerializer", {}, {}, false, true)

  /** The four ways an object can be read or written, in the order the dispatch tries them. */
  datatype Route = SpecializedText | SpecializedBinary | GenericText | GenericBinary

  /** The `switch` of the map-based TryGetObject/SetObject: specialized text, specialized binary,
      generic text, generic binary, in that order; None when the serializer has none of them. */
  function Dispatch(s: Serializer, t: TypeId): (r: Option<Route>)
    ensures r == Some(SpecializedText) <==> t in s.textFor
    ensures r == Some(SpecializedBinary) <==> t !in s.textFor && t in s.binaryFor
    ensures r == Some(GenericText) <==> t !in s.textFor && t !in s.binaryFor && s.genericText
    ensures r == Some(GenericBinary) <==>
      t !in s.textFor && t !in s.binaryFor && !s.genericText && s.genericBinary
  {
    if t in s.textFor then Some(SpecializedText)
    else if t in s.binaryFor then Some(SpecializedBinary)
    else if s.genericText then Some(GenericText)
    else if s.genericBinary then Some(GenericBinary)
    else None
  }

  /** The dispatch fails exactly for a serializer with no capability for the type. */
  lemma DispatchFailsOnlyWithoutCapability(s: Serializer, t: TypeId)
    ensures Dispatch(s, t).None? <==>
      t !in s.textFor && t !in s.binaryFor && !s.genericText && !s.genericBinary
  {
  }

  /** The three shipped serializers each take one route: generic text for JSON, specialized text
      for the Unity math types, generic binary for raw struct bytes. */
  lemma ShippedSerializerRoutes(t: TypeId)
    ensures Dispatch(JsonUtilityTextSerializer, t) == Some(GenericText)
    ensures Dispatch(StructBinarySerializer, t) == Some(GenericBinary)
    ensures Dispatch(UnityMathTextSerializer, t).Some? <==> t in UnityMathTypes
    ensures t in UnityMathTypes ==> Dispatch(UnityMathTextSerializer, t) == Some(SpecializedText)
  {
    if t in UnityMathTypes {
      var i :| 0 <= i < |UnityMathTypes| && UnityMathTypes[i] == t;
      assert t in UnityMathTextSerializer.textFor;
    }
  }

  /** The lookup of ObjectSerializerMap.Get: the registered serializer, otherwise the default. */
  function Resolve(registered: map<TypeId, Serializer>, defaultSerializer: Serializer, t: TypeId): (s: Serializer)
    ensures t in registered ==> s == registered[t]
    ensures t !in registered ==> s == defaultSerializer
  {
    if t in registered then registered[t] else defaultSerializer
  }

  /** A registration answers for its own type and leaves every other lookup as it was. */
  lemma RegistrationOverridesOnlyItsType(
    registered: map<TypeId, Serializer>, defaultSerializer: Serializer, t: TypeId, s: Serializer, u: TypeId)
    ensures Resolve(registered[t := s], defaultSerializer, u) ==
      if u == t then s else Resolve(registered, defaultSerializer, u)
  {
  }

  class ObjectSerializerMap {
    var typeToSerializer: map<TypeId, Serializer>
    var defaultSerializer: Serializer

    constructor()
      ensures typeToSerializer == map[] && defaultSerializer == JsonUtilityTextSerializer
    {
      typeToSerializer := map[];
      defaultSerializer := JsonUtilityTextSerializer;
    }

    /** The serializer registered for `t`, otherwise the default. */
    function GetObjectSerializer(t: TypeId): (s: Serializer)
      reads this
    {
      Resolve(typeToSerializer, defaultSerializer, t)
    }

    /** Registers `serializer` for `t`, replacing any earlier registration; a null serializer
        throws and changes nothing. */
    method SetObjectSerializer(t: TypeId, serializer: Option<Serializer>) returns (thrown: Option<Exception>)
      modifies this`typeToSerializer
      ensures serializer.None? ==> thrown == Some(ArgumentNullException("serializer"))
      ensures serializer.None? ==> typeToSerializer == old(typeToSerializer)
      ensures serializer.Some? ==> thrown == None && typeToSerializer == old(typeToSerializer)[t := serializer.value]
    {
      if serializer.None? {
        return Some(ArgumentNullException("serializer"));
      }
      typeToSerializer := typeToSerializer[t := serializer.value];
      thrown := None;
    }

    /** The `DefaultSerializer` setter: a null value throws and the default stays as it was, so the
        default is never null. */
    method SetDefaultSerializer(value: Option<Serializer>) returns (thrown: Option<Exception>)
      modifies this`defaultSerializer
      ensures value.None? ==> thrown == Some(ArgumentNullException("DefaultSerializer"))
      ensures value.None? ==> defaultSerializer == old(defaultSerializer)
      ensures value.Some? ==> thrown == None && defaultSerializer == value.value
      ensures forall u :: u in typeToSerializer ==> GetObjectSerializer(u) == old(GetObjectSerializer(u))
    {
      if value.None? {
        return Some(ArgumentNullException("DefaultSerializer"));
      }
      defaultSerializer := value.value;
      thrown := None;
    }
  }

  /** A fresh map answers the JSON serializer for every type, and the JSON serializer dispatches
      every type to its generic text route. */
  method FreshMapUsesJson(t: TypeId) returns (route: Option<Route>)
    ensures route == Some(GenericText)
  {
    var serializerMap := new ObjectSerializerMap();
    route := Dispatch(serializerMap.GetObjectSerializer(t), t);
    ShippedSerializerRoutes(t);
  }
}
