/** The in-memory store DictionaryKeyValueStore: a `Dictionary<string, object>` whose values keep
    the C# type they were written with, read back through `Convert.To*` and `ToString()`, with
    every conversion failure turned into a `false` answer. Byte arrays are kept as base64 text.

    The file support (Load/Save through a JSON file) is seen at the level of the file's contents:
    the file is missing, holds a dictionary, or holds something that cannot be read back. */
module DictionaryStore {
  import opened Wrappers
  import opened Values
  import Decimal
  import Base64
  import opened KeyValueStore

  /** A boxed dictionary value. `NullBox` is what `SetString(key, null)` stores. */
  datatype Boxed =
    | BoolBox(b: bool)
    | IntBox(i: int32)
    | LongBox(l: int64)
    | StringBox(s: string)
    | NullBox

  type Dictionary = map<string, Boxed>

  /** `bool.ToString()`. */
  function BoolText(b: bool): string { if b then "True" else "False" }

  /** `Convert.ToBoolean(object)`: None where it throws. */
  function ToBoolean(o: Boxed): (r: Option<bool>)
    ensures o.BoolBox? ==> r == Some(o.b)
    ensures o.StringBox? ==> (r.Some? <==> EqualsIgnoreCase(o.s, "True") || EqualsIgnoreCase(o.s, "False"))
  {
    match o
    case BoolBox(b) => Some(b)
    case IntBox(i) => Some(i != 0)
    case LongBox(l) => Some(l != 0)
    case StringBox(s) =>
      if EqualsIgnoreCase(s, "True") then Some(true)
      else if EqualsIgnoreCase(s, "False") then Some(false)
      else None
    case NullBox => Some(false)
  }

  /** `Convert.ToInt32(object)`: None where it throws (overflow, bad format). */
  function ToInt32(o: Boxed): (r: Option<int32>)
    ensures o.IntBox? ==> r == Some(o.i)
    ensures o.LongBox? ==> (r.Some? <==> InInt32Range(o.l)) && (r.Some? ==> r.value == o.l)
  {
    match o
    case BoolBox(b) => Some(if b then 1 else 0)
    case IntBox(i) => Some(i)
    case LongBox(l) => if InInt32Range(l) then Some(l as int32) else None
    case StringBox(s) => Decimal.ParseInt32(s)
    case NullBox => Some(0)
  }

  /** `Convert.ToInt64(object)`: None where it throws. */
  function ToInt64(o: Boxed): (r: Option<int64>)
    ensures o.IntBox? ==> r == Some(o.i as int64)
    ensures o.LongBox? ==> r == Some(o.l)
    ensures ToInt32(o).Some? ==> r == Some(ToInt32(o).value as int64)
  {
    match o
    case BoolBox(b) => Some(if b then 1 else 0)
    case IntBox(i) => Some(i as int64)
    case LongBox(l) => Some(l)
    case StringBox(s) => Decimal.ParseInt64(s)
    case NullBox => Some(0)
  }

  /** `obj.ToString()`: None for the null reference, on which it throws. */
  function ToText(o: Boxed): (r: Option<string>)
    ensures r.None? <==> o.NullBox?
    ensures o.StringBox? ==> r == Some(o.s)
  {
    match o
    case BoolBox(b) => Some(BoolText(b))
    case IntBox(i) => Some(Decimal.FormatInt(i))
    case LongBox(l) => Some(Decimal.FormatInt(l))
    case StringBox(s) => Some(s)
    case NullBox => None
  }

  /** The shape shared by every `TryGet*`: a stored key whose value converts answers true with the
      converted value; a missing key or a failed conversion answers false with `defaultValue`. */
  function Lookup<T>(d: Dictionary, key: string, convert: Boxed -> Option<T>, defaultValue: T): (r: Got<T>)
    ensures r.ok <==> key in d && convert(d[key]).Some?
    ensures r.ok ==> r.value == convert(d[key]).value
    ensures !r.ok ==> r.value == defaultValue
  {
    if key in d then
      match convert(d[key])
      case Some(v) => Got(true, v)
      case None => Got(false, defaultValue)
    else Got(false, defaultValue)
  }

  function HasKey(d: Dictionary, key: string): bool { key in d }

  function TryGetBool(d: Dictionary, key: string): (r: Got<bool>)
    ensures key !in d ==> r == Got(false, false)
    ensures r.ok ==> key in d
  {
    Lookup(d, key, ToBoolean, false)
  }

  function TryGetInt(d: Dictionary, key: string): (r: Got<int32>)
    ensures key !in d ==> r == Got(false, 0)
    ensures !r.ok ==> r.value == 0
    ensures r.ok ==> key in d
  {
    Lookup(d, key, ToInt32, 0)
  }

  function TryGetLong(d: Dictionary, key: string): (r: Got<int64>)
    ensures key !in d ==> r == Got(false, 0)
    ensures !r.ok ==> r.value == 0
    ensures TryGetInt(d, key).ok ==> r == Got(true, TryGetInt(d, key).value as int64)
  {
    Lookup(d, key, ToInt64, 0)
  }

  function TryGetString(d: Dictionary, key: string): (r: Got<Option<string>>)
    ensures key !in d ==> r == Got(false, None)
    ensures r.ok <==> key in d && !d[key].NullBox?
    ensures r.ok ==> r.value.Some?
  {
    Lookup(d, key, (o: Boxed) => match ToText(o) case Some(s) => Some(Some(s)) case None => None, None)
  }

  /** The stored text, decoded as base64; false when there is no text or it is not base64. */
  function TryGetBytes(d: Dictionary, key: string): (r: Got<Option<seq<byte>>>)
    ensures key !in d ==> r == Got(false, None)
    ensures r.ok ==> TryGetString(d, key).ok
    ensures r.ok ==> r.value.Some? && Base64.Decode(TryGetString(d, key).value.value) == r.value
    ensures !r.ok ==> r.value == None
  {
    var text := TryGetString(d, key);
    if text.ok then
      match Base64.Decode(text.value.value)
      case Some(bytes) => Got(true, Some(bytes))
      case None => Got(false, None)
    else Got(false, None)
  }

  /** The store's answers and writes, as an instance of the key-value facade. */
  function View(): StoreView<Dictionary>
  {
    StoreView(
      HasKey,
      (d: Dictionary, key: string) => d - {key},
      (d: Dictionary) => map[],
      TryGetBool, TryGetInt, TryGetLong, TryGetString, TryGetBytes,
      (d: Dictionary, key: string, v: bool) => d[key := BoolBox(v)],
      (d: Dictionary, key: string, v: int32) => d[key := IntBox(v)],
      (d: Dictionary, key: string, v: int64) => d[key := LongBox(v)],
      (d: Dictionary, key: string, v: string) => d[key := StringBox(v)],
      (d: Dictionary, key: string, v: seq<byte>) => d[key := StringBox(Base64.Encode(v))])
  }

  /** What the store's file holds. */
  datatype FileState = Missing | Holds(contents: Dictionary) | Unreadable

  class DictionaryKeyValueStore {
    var dictionary: Dictionary
    /** `FilePath`; the empty string stands for a null or empty path. */
    var filePath: string
    var file: FileState
    /** How many times Save has been called, for stating how often a decorator saves. */
    ghost var saveCount: nat

    constructor(filePath: string, file: FileState)
      ensures this.dictionary == map[] && this.filePath == filePath && this.file == file
      ensures saveCount == 0
    {
      dictionary := map[];
      this.filePath := filePath;
      this.file := file;
      saveCount := 0;
    }

    method DeleteKey(key: string)
      modifies this`dictionary
      ensures dictionary == old(dictionary) - {key}
    {
      dictionary := dictionary - {key};
    }

    method DeleteAll()
      modifies this`dictionary
      ensures dictionary == map[]
    {
      dictionary := map[];
    }

    method SetBool(key: string, value: bool)
      modifies this`dictionary
      ensures dictionary == old(dictionary)[key := BoolBox(value)]
    {
      dictionary := dictionary[key := BoolBox(value)];
    }

    method SetInt(key: string, value: int32)
      modifies this`dictionary
      ensures dictionary == old(dictionary)[key := IntBox(value)]
    {
      dictionary := dictionary[key := IntBox(value)];
    }

    method SetLong(key: string, value: int64)
      modifies this`dictionary
      ensures dictionary == old(dictionary)[key := LongBox(value)]
    {
      dictionary := dictionary[key := LongBox(value)];
    }

    /** A null string is stored as the null reference. */
    method SetString(key: string, value: Option<string>)
      modifies this`dictionary
      ensures dictionary == old(dictionary)[key := if value.Some? then StringBox(value.value) else NullBox]
    {
      dictionary := dictionary[key := if value.Some? then StringBox(value.value) else NullBox];
    }

    /** `Convert.ToBase64String` throws on a null array, before the dictionary is touched. */
    method SetBytes(key: string, value: Option<seq<byte>>) returns (thrown: Option<Exception>)
      modifies this`dictionary
      ensures value.None? ==> thrown == Some(ArgumentNullException("inArray")) && dictionary == old(dictionary)
      ensures value.Some? ==> thrown == None && dictionary == old(dictionary)[key := StringBox(Base64.Encode(value.value))]
    {
      if value.None? {
        return Some(ArgumentNullException("inArray"));
      }
      dictionary := dictionary[key := StringBox(Base64.Encode(value.value))];
      thrown := None;
    }

    /** Load: nothing happens without a path or a file; an unreadable file raises and leaves the
        dictionary as it was. */
    method Load() returns (raised: bool)
      modifies this`dictionary
      ensures raised <==> filePath != "" && file.Unreadable?
      ensures filePath != "" && file.Holds? ==> dictionary == file.contents
      ensures !(filePath != "" && file.Holds?) ==> dictionary == old(dictionary)
    {
      raised := false;
      if filePath == "" || file.Missing? {
        return;
      }
      if file.Unreadable? {
        raised := true;
        return;
      }
      dictionary := file.contents;
    }

    /** Save: nothing happens without a path; otherwise the file is created over, and an I/O
        failure (`ioFails`) raises and leaves it unreadable. */
    method Save(ioFails: bool) returns (raised: bool)
      modifies this`file, this`saveCount
      ensures saveCount == old(saveCount) + 1
      ensures raised <==> filePath != "" && ioFails
      ensures filePath == "" ==> file == old(file)
      ensures filePath != "" ==> file == (if ioFails then Unreadable else Holds(dictionary))
    {
      saveCount := saveCount + 1;
      raised := false;
      if filePath == "" {
        return;
      }
      if ioFails {
        raised := true;
        file := Unreadable;
        return;
      }
      file := Holds(dictionary);
    }
  }

  /** HasKey holds exactly for the stored keys, and a missing key makes every read fail with the
      default value. */
  lemma MissingKeyReadsDefault(d: Dictionary, key: string)
    requires !HasKey(d, key)
    ensures TryGetBool(d, key) == Got(false, false) && TryGetInt(d, key) == Got(false, 0)
    ensures TryGetLong(d, key) == Got(false, 0) && TryGetString(d, key) == Got(false, None)
    ensures TryGetBytes(d, key) == Got(false, None)
  {
  }

  /** A write touches its own key only. */
  lemma WriteTouchesOnlyItsKey(d: Dictionary, key: string, v: Boxed, other: string)
    requires other != key
    ensures TryGetBool(d[key := v], other) == TryGetBool(d, other)
    ensures TryGetInt(d[key := v], other) == TryGetInt(d, other)
    ensures TryGetLong(d[key := v], other) == TryGetLong(d, other)
    ensures TryGetString(d[key := v], other) == TryGetString(d, other)
    ensures TryGetBytes(d[key := v], other) == TryGetBytes(d, other)
    ensures HasKey(d[key := v], key) && HasKey(d[key := v], other) == HasKey(d, other)
  {
    assert other in d ==> d[key := v][other] == d[other];
  }

  /** Deleting removes the key and nothing else; deleting a missing key changes nothing. */
  lemma DeleteKeyRemovesOnlyItsKey(d: Dictionary, key: string)
    ensures !HasKey(d - {key}, key)
    ensures forall k :: k != key ==> HasKey(d - {key}, k) == HasKey(d, k)
    ensures key !in d ==> d - {key} == d
  {
  }

  /** After DeleteAll no key is present, and a second DeleteAll changes nothing. */
  lemma DeleteAllEmpties()
    ensures forall d: Dictionary, k :: !HasKey(View().deleteAll(d), k)
    ensures forall d: Dictionary :: View().deleteAll(View().deleteAll(d)) == View().deleteAll(d)
  {
  }

  /** A long outside the int range reads as a failure through TryGetInt, and as the long itself
      through TryGetLong. */
  lemma OutOfRangeLongFailsAsInt(d: Dictionary, key: string, l: int64)
    requires !InInt32Range(l)
    ensures TryGetInt(d[key := LongBox(l)], key) == Got(false, 0)
    ensures TryGetLong(d[key := LongBox(l)], key) == Got(true, l)
  {
  }

  /** An int reads back as the same long, and `true` reads back as the int 1. */
  lemma WidenedReads(d: Dictionary, key: string, n: int32)
    ensures TryGetLong(d[key := IntBox(n)], key) == Got(true, n as int64)
    ensures TryGetInt(d[key := BoolBox(true)], key) == Got(true, 1)
    ensures TryGetInt(d[key := BoolBox(false)], key) == Got(true, 0)
  {
  }

  /** An int written and then read as a string gives its decimal text, which parses back. */
  lemma IntReadsAsDecimalText(d: Dictionary, key: string, n: int32)
    ensures TryGetString(d[key := IntBox(n)], key) == Got(true, Some(Decimal.FormatInt(n)))
    ensures TryGetInt(d[key := StringBox(Decimal.FormatInt(n))], key) == Got(true, n)
  {
    Decimal.FormatParsesInt32(n);
  }

  /** Bytes written with SetBytes read back unchanged. */
  lemma {:induction false} BytesRoundTrip(d: Dictionary, key: string, bytes: seq<byte>)
    ensures TryGetBytes(d[key := StringBox(Base64.Encode(bytes))], key) == Got(true, Some(bytes))
  {
    Base64.DecodeEncode(bytes);
  }

  /** A stored string that is not base64 makes TryGetBytes fail, although TryGetString succeeds. */
  lemma NonBase64StringFailsAsBytes(d: Dictionary, key: string, text: string)
    requires Base64.Decode(text).None?
    ensures TryGetString(d[key := StringBox(text)], key) == Got(true, Some(text))
    ensures TryGetBytes(d[key := StringBox(text)], key) == Got(false, None)
  {
  }

  /** "abc" is such a string: its length is not a multiple of four. */
  lemma ShortTextIsNotBase64()
    ensures Base64.Decode("abc").None?
  {
  }

  /** A null string is present as a key but reads as a failed string. */
  lemma NullStringIsPresentButUnreadable(d: Dictionary, key: string)
    ensures HasKey(d[key := NullBox], key)
    ensures TryGetString(d[key := NullBox], key) == Got(false, None)
    ensures TryGetInt(d[key := NullBox], key) == Got(true, 0)
  {
  }

  /** The store satisfies the string and bytes round-trip laws of the facade. */
  lemma ViewRoundTrips()
    ensures StringSlotRoundTrips(View())
    ensures BytesSlotRoundTrips(View())
  {
    forall d: Dictionary, key: string, bytes: seq<byte>
      ensures View().tryGetBytes(View().setBytes(d, key, bytes), key) == Got(true, Some(bytes))
    {
      BytesRoundTrip(d, key, bytes);
    }
  }

  /** Saving and then loading gives back the dictionary that was saved. */
  method SaveThenLoad(store: DictionaryKeyValueStore) returns (raised: bool)
    requires store.filePath != ""
    modifies store
    ensures !raised && store.dictionary == old(store.dictionary) && store.file == Holds(old(store.dictionary))
  {
    var saveRaised := store.Save(false);
    store.DeleteAll();
    raised := store.Load();
  }
}
