/** The integer paths of UnityMathTextSerializer: a struct of `n` ints is written as its
    components in invariant-culture decimal joined by ',', and read back by enumerating the ints
    of the text and writing the first `n` of them into a zeroed struct.

    The four int-based Unity types are values of `IntStruct`; their components are listed in
    memory-layout order. */
module UnityMath {
  import opened Wrappers
  import opened Values
  import Decimal
  import opened StringExtensions
  import opened ObjectSerializers

  const NumberSeparator: char := ','

  datatype IntStruct =
    | Vector2IntValue(x: int32, y: int32)
    | Vector3IntValue(x: int32, y: int32, z: int32)
    | RangeIntValue(start: int32, length: int32)
    | RectIntValue(xMin: int32, yMin: int32, width: int32, height: int32)

  const IntTypes: set<TypeId> := {Vector2Int, Vector3Int, RangeInt, RectInt}

  /** `SizeOf<T>() / SizeOf<int>()` for the int types. */
  function IntCount(t: TypeId): (n: nat)
    requires t in IntTypes
    ensures 2 <= n <= 4
  {
    if t == Vector2Int then 2 else if t == Vector3Int then 3 else if t == RangeInt then 2 else 4
  }

  function TypeOf(v: IntStruct): (t: TypeId)
    ensures t in IntTypes
  {
    match v
    case Vector2IntValue(_, _) => Vector2Int
    case Vector3IntValue(_, _, _) => Vector3Int
    case RangeIntValue(_, _) => RangeInt
    case RectIntValue(_, _, _, _) => RectInt
  }

  function Components(v: IntStruct): (c: seq<int32>)
    ensures |c| == IntCount(TypeOf(v))
  {
    match v
    case Vector2IntValue(x, y) => [x, y]
    case Vector3IntValue(x, y, z) => [x, y, z]
    case RangeIntValue(start, length) => [start, length]
    case RectIntValue(xMin, yMin, width, height) => [xMin, yMin, width, height]
  }

  /** The struct of type `t` whose memory holds `c`. */
  function FromComponents(t: TypeId, c: seq<int32>): (v: IntStruct)
    requires t in IntTypes && |c| == IntCount(t)
    ensures TypeOf(v) == t && Components(v) == c
  {
    if t == Vector2Int then Vector2IntValue(c[0], c[1])
    else if t == Vector3Int then Vector3IntValue(c[0], c[1], c[2])
    else if t == RangeInt then RangeIntValue(c[0], c[1])
    else RectIntValue(c[0], c[1], c[2], c[3])
  }

  lemma FromComponentsOfComponents(v: IntStruct)
    ensures FromComponents(TypeOf(v), Components(v)) == v
  {
  }

  /** The components in decimal, joined by the separator, with none before or after. */
  function Join(c: seq<int32>): (s: string)
    requires |c| > 0
  {
    if |c| == 1 then Decimal.FormatInt(c[0])
    else Decimal.FormatInt(c[0]) + [NumberSeparator] + Join(c[1..])
  }

  function Zeros(n: nat): (z: seq<int32>)
    ensures |z| == n && forall i :: 0 <= i < n ==> z[i] == 0
  {
    if n == 0 then [] else [0] + Zeros(n - 1)
  }

  /** SerializeInts: the first component, then separator and component for each of the rest. */
  method SerializeInts(c: seq<int32>) returns (text: string)
    requires |c| > 0
    ensures text == Join(c)
    ensures text[0] != NumberSeparator && text[|text| - 1] != NumberSeparator
  {
    text := Decimal.FormatInt(c[0]);
    var i := 1;
    while i < |c|
      invariant 1 <= i <= |c|
      invariant text + (if i < |c| then [NumberSeparator] + Join(c[i..]) else "") == Join(c)
      invariant |text| > 0 && text[0] != NumberSeparator && text[|text| - 1] != NumberSeparator
    {
      JoinStep(text, c, i);
      text := text + [NumberSeparator] + Decimal.FormatInt(c[i]);
      i := i + 1;
    }
  }

  /** One more component moves from the remaining join onto the text written so far. */
  lemma JoinStep(text: string, c: seq<int32>, i: nat)
    requires 1 <= i < |c| && text + ([NumberSeparator] + Join(c[i..])) == Join(c)
    ensures var next := text + [NumberSeparator] + Decimal.FormatInt(c[i]);
      next + (if i + 1 < |c| then [NumberSeparator] + Join(c[i + 1..]) else "") == Join(c)
  {
    JoinAt(c, i);
    Regroup4(text, [NumberSeparator], Decimal.FormatInt(c[i]),
      if i + 1 < |c| then [NumberSeparator] + Join(c[i + 1..]) else "");
  }

  /** The join from component `i` on, as its first component and the join after it. */
  lemma JoinAt(c: seq<int32>, i: nat)
    requires i < |c|
    ensures Join(c[i..]) == Decimal.FormatInt(c[i]) + (if i + 1 < |c| then [NumberSeparator] + Join(c[i + 1..]) else "")
  {
    JoinUnfold(c[i..]);
    if i + 1 < |c| {
      assert c[i..][1..] == c[i + 1..];
    } else {
      EmptyRight(Decimal.FormatInt(c[i]));
    }
  }

  lemma EmptyRight<T>(a: seq<T>)
    ensures a + [] == a
  {
  }

  /** Concatenation of four parts, grouped from the right and from the left. */
  lemma Regroup4<T>(a: seq<T>, b: seq<T>, c: seq<T>, d: seq<T>)
    ensures a + (b + (c + d)) == a + b + c + d
  {
  }

  lemma JoinUnfold(c: seq<int32>)
    requires |c| > 0
    ensures |c| == 1 ==> Join(c) == Decimal.FormatInt(c[0])
    ensures |c| > 1 ==> Join(c) == Decimal.FormatInt(c[0]) + [NumberSeparator] + Join(c[1..])
  {
  }

  /** The ints enumerated from the text, written into a zeroed struct of `count` ints. */
  function DeserializedInts(text: string, count: nat): (r: Got<seq<int32>>)
    ensures |r.value| == count
    ensures r.ok <==> |ParsedPrefix(Segments(text, NumberSeparator))| >= count
  {
    var ints := ParsedPrefix(Segments(text, NumberSeparator));
    if |ints| >= count then Got(true, ints[..count])
    else Got(false, ints + Zeros(count - |ints|))
  }

  /** TryDeserializeInts: false as soon as the enumeration runs out before `count` ints; the out
      value keeps what was written before that and zeros after. Extra ints are ignored. */
  method TryDeserializeInts(text: string, count: nat) returns (ok: bool, value: seq<int32>)
    ensures Got(ok, value) == DeserializedInts(text, count)
  {
    value := Zeros(count);
    var ints := EnumerateInts(text, NumberSeparator);
    var i := 0;
    while i < count
      invariant 0 <= i <= count && i <= |ints| && |value| == count
      invariant forall j :: 0 <= j < i ==> value[j] == ints[j]
      invariant forall j :: i <= j < count ==> value[j] == 0
    {
      if i >= |ints| {
        assert value == ints + Zeros(count - |ints|);
        return false, value;
      }
      value := value[i := ints[i]];
      i := i + 1;
    }
    assert value == ints[..count];
    ok := true;
  }

  /** SerializeObject for an int struct. */
  method SerializeObject(v: IntStruct) returns (text: string)
    ensures text == Join(Components(v))
  {
    text := SerializeInts(Components(v));
  }

  /** TryDeserializeObject for the int struct type `t`. */
  method TryDeserializeObject(t: TypeId, text: string) returns (ok: bool, value: IntStruct)
    requires t in IntTypes
    ensures TypeOf(value) == t
    ensures ok == DeserializedInts(text, IntCount(t)).ok
    ensures Components(value) == DeserializedInts(text, IntCount(t)).value
  {
    var ints;
    ok, ints := TryDeserializeInts(text, IntCount(t));
    value := FromComponents(t, ints);
  }

  /** IndexOf within the second part of a concatenation. */
  lemma {:induction false} IndexOfShift(p: string, q: string, separator: char, j: nat)
    requires j <= |q|
    ensures IndexOf(p + q, separator, |p| + j) ==
      (if IndexOf(q, separator, j) == -1 then -1 else |p| + IndexOf(q, separator, j))
    decreases |q| - j
  {
    if j < |q| {
      assert (p + q)[|p| + j] == q[j];
      if q[j] != separator {
        IndexOfShift(p, q, separator, j + 1);
      }
    }
  }

  /** The segments of the second part of a concatenation. */
  lemma {:induction false} SegmentsShift(p: string, q: string, separator: char, j: nat)
    requires j <= |q|
    ensures SegmentsFrom(p + q, separator, |p| + j) == SegmentsFrom(q, separator, j)
    decreases |q| - j
  {
    IndexOfShift(p, q, separator, j);
    var k := IndexOf(q, separator, j);
    if k == -1 {
      assert (p + q)[|p| + j..] == q[j..];
    } else {
      SegmentsShift(p, q, separator, k + 1);
      assert (p + q)[|p| + j..|p| + k] == q[j..k];
    }
  }

  /** A separator-free, non-empty head followed by a separator is one segment. */
  lemma SegmentsCons(a: string, rest: string, separator: char)
    requires |a| > 0 && separator !in a
    ensures Segments(a + [separator] + rest, separator) == [a] + Segments(rest, separator)
  {
    var text := a + [separator] + rest;
    var p := a + [separator];
    assert text == p + rest;
    IndexOfShift(a, [separator] + rest, separator, 0);
    IndexOfNone(a, [separator] + rest, separator, 0);
    assert text == a + ([separator] + rest);
    assert IndexOf(text, separator, 0) == |a|;
    assert text[0..|a|] == a;
    SegmentsShift(p, rest, separator, 0);
    assert |p| + 0 == |a| + 1;
  }

  /** IndexOf passes over a separator-free head. */
  lemma {:induction false} IndexOfNone(a: string, q: string, separator: char, j: nat)
    requires separator !in a && j <= |a|
    ensures IndexOf(a + q, separator, j) == IndexOf(a + q, separator, |a|)
    decreases |a| - j
  {
    if j < |a| {
      assert (a + q)[j] == a[j];
      IndexOfNone(a, q, separator, j + 1);
    }
  }

  lemma DigitsHaveNoSeparator(n: int)
    ensures NumberSeparator !in Decimal.FormatInt(n)
  {
  }

  /** Splitting the joined text gives the decimal text of each component. */
  lemma {:induction false} SegmentsOfJoin(c: seq<int32>)
    requires |c| > 0
    ensures ParsedPrefix(Segments(Join(c), NumberSeparator)) == c
    decreases |c|
  {
    var head := Decimal.FormatInt(c[0]);
    DigitsHaveNoSeparator(c[0]);
    Decimal.FormatParsesInt32(c[0]);
    if |c| == 1 {
      IndexOfNone(head, "", NumberSeparator, 0);
      assert head + "" == head;
      assert Segments(head, NumberSeparator) == [head];
      ParsedPrefixCons(head, [], c[0]);
      assert c == [c[0]];
    } else {
      var rest := Segments(Join(c[1..]), NumberSeparator);
      SegmentsCons(head, Join(c[1..]), NumberSeparator);
      SegmentsOfJoin(c[1..]);
      ParsedPrefixCons(head, rest, c[0]);
      assert [c[0]] + c[1..] == c;
    }
  }

  /** A leading segment that parses contributes its int in front of the rest. */
  lemma ParsedPrefixCons(head: string, rest: seq<string>, n: int32)
    requires Decimal.ParseInt32(head) == Some(n)
    ensures ParsedPrefix([head] + rest) == [n] + ParsedPrefix(rest)
  {
    assert ([head] + rest)[1..] == rest;
  }

  /** For the int types, reading back what was written gives the same struct. */
  lemma IntStructRoundTrip(v: IntStruct)
    ensures DeserializedInts(Join(Components(v)), IntCount(TypeOf(v))) == Got(true, Components(v))
    ensures FromComponents(TypeOf(v), DeserializedInts(Join(Components(v)), IntCount(TypeOf(v))).value) == v
  {
    SegmentsOfJoin(Components(v));
    var c := Components(v);
    assert c[..|c|] == c;
  }

  lemma ParseSmallDigits()
    ensures Decimal.ParseInt32("1") == Some(1) && Decimal.ParseInt32("2") == Some(2)
    ensures Decimal.ParseInt32("3") == Some(3) && Decimal.ParseInt32("x") == None
  {
    assert Decimal.DigitsValue("1") == 1 by { assert "1"[..0] == ""; }
    assert Decimal.DigitsValue("2") == 2 by { assert "2"[..0] == ""; }
    assert Decimal.DigitsValue("3") == 3 by { assert "3"[..0] == ""; }
  }

  /** Empty segments are skipped, so "1,,2" reads as a Vector2Int. */
  lemma DoubledSeparatorReads()
    ensures DeserializedInts("1,,2", 2) == Got(true, [1, 2])
  {
    SplitExamples();
    assert Segments("1,,2", NumberSeparator) == ["1", "2"];
    ParseSmallDigits();
    assert ParsedPrefix(["1", "2"]) == [1, 2] by {
      assert ["1", "2"][1..] == ["2"];
      assert ParsedPrefix(["2"]) == [2] by { assert ["2"][1..] == []; }
    }
    assert [1, 2][..2] == [1, 2];
  }

  /** A segment that is not an int before the second component makes the read fail, with the
      first component written and the second left zero. */
  lemma BadSegmentFails()
    ensures DeserializedInts("1,x", 2) == Got(false, [1, 0])
  {
    ParseSmallDigits();
    assert Segments("1,x", ',') == ["1", "x"] by {
      assert IndexOf("1,x", ',', 0) == 1 && IndexOf("1,x", ',', 2) == -1;
      assert "1,x"[0..1] == "1" && "1,x"[2..] == "x";
    }
    assert ParsedPrefix(["1", "x"]) == [1] by { assert ["1", "x"][1..] == ["x"]; }
    assert Zeros(1) == [0];
    assert [1] + Zeros(1) == [1, 0];
  }

  /** More ints than needed are ignored. */
  lemma ExtraIntsIgnored()
    ensures DeserializedInts("1,2,3", 2) == Got(true, [1, 2])
  {
    ParseSmallDigits();
    assert Segments("1,2,3", ',') == ["1", "2", "3"] by {
      assert IndexOf("1,2,3", ',', 0) == 1 && IndexOf("1,2,3", ',', 2) == 3 && IndexOf("1,2,3", ',', 4) == -1;
      assert "1,2,3"[0..1] == "1" && "1,2,3"[2..3] == "2" && "1,2,3"[4..] == "3";
    }
    assert ParsedPrefix(["1", "2", "3"]) == [1, 2, 3] by {
      assert ["1", "2", "3"][1..] == ["2", "3"];
      assert ["2", "3"][1..] == ["3"];
      assert ["3"][1..] == [];
    }
    assert [1, 2, 3][..2] == [1, 2];
  }

  /** The registrations after RegisterInSerializerMap, in its order. */
  function WithUnityMathRegistrations(m: map<TypeId, Serializer>): map<TypeId, Serializer>
  {
    var u := UnityMathTextSerializer;
    m[Color := u][Quaternion := u][Matrix4x4 := u][Plane := u][Ray := u][Ray2D := u]
      [RangeInt := u][Rect := u][RectInt := u][Vector2 := u][Vector2Int := u][Vector3 := u]
      [Vector3Int := u][Vector4 := u]
  }

  /** Each Unity math type ends up with this serializer; every other registration is kept. */
  lemma UnityMathRegistrations(m: map<TypeId, Serializer>)
    ensures forall t: TypeId :: !t.OtherType? ==>
      t in WithUnityMathRegistrations(m) && WithUnityMathRegistrations(m)[t] == UnityMathTextSerializer
    ensures forall t: TypeId :: t.OtherType? ==>
      (t in WithUnityMathRegistrations(m) <==> t in m) &&
      (t in m ==> WithUnityMathRegistrations(m)[t] == m[t])
  {
    var r := WithUnityMathRegistrations(m);
    forall t: TypeId | !t.OtherType?
      ensures t in r && r[t] == UnityMathTextSerializer
    {
      match t {
        case Color =>
        case Quaternion =>
        case Matrix4x4 =>
        case Plane =>
        case Ray =>
        case Ray2D =>
        case RangeInt =>
        case Rect =>
        case RectInt =>
        case Vector2 =>
        case Vector2Int =>
        case Vector3 =>
        case Vector3Int =>
        case Vector4 =>
      }
    }
  }

  /** RegisterInSerializerMap: this serializer for each of the 14 Unity math types, the other
      registrations and the default unchanged. */
  method RegisterInSerializerMap(serializerMap: ObjectSerializerMap)
    modifies serializerMap
    ensures serializerMap.typeToSerializer == WithUnityMathRegistrations(old(serializerMap.typeToSerializer))
    ensures forall t: TypeId :: !t.OtherType? ==> serializerMap.GetObjectSerializer(t) == UnityMathTextSerializer
    ensures forall t: TypeId :: t.OtherType? ==> serializerMap.GetObjectSerializer(t) == old(serializerMap.GetObjectSerializer(t))
    ensures serializerMap.defaultSerializer == old(serializerMap.defaultSerializer)
  {
    ghost var m0 := serializerMap.typeToSerializer;
    var s := Some(UnityMathTextSerializer);
    var thrown;
    thrown := serializerMap.SetObjectSerializer(Color, s);
    thrown := serializerMap.SetObjectSerializer(Quaternion, s);
    thrown := serializerMap.SetObjectSerializer(Matrix4x4, s);
    thrown := serializerMap.SetObjectSerializer(Plane, s);
    thrown := serializerMap.SetObjectSerializer(Ray, s);
    thrown := serializerMap.SetObjectSerializer(Ray2D, s);
    thrown := serializerMap.SetObjectSerializer(RangeInt, s);
    thrown := serializerMap.SetObjectSerializer(Rect, s);
    thrown := serializerMap.SetObjectSerializer(RectInt, s);
    thrown := serializerMap.SetObjectSerializer(Vector2, s);
    thrown := serializerMap.SetObjectSerializer(Vector2Int, s);
    thrown := serializerMap.SetObjectSerializer(Vector3, s);
    thrown := serializerMap.SetObjectSerializer(Vector3Int, s);
    thrown := serializerMap.SetObjectSerializer(Vector4, s);
    UnityMathRegistrations(m0);
  }
}
