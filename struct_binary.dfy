/** StructBinarySerializer: an unmanaged value is written as its raw memory, exactly
    `SizeOf(T)` bytes, and read back by copying the first `SizeOf(T)` bytes of the input over a
    zeroed value; an input shorter than that is refused.

    A type's memory is its `Layout`: the size, the bytes a value occupies, and the value a block of
    bytes denotes. */
module StructBinary {
  import opened Wrappers
  import opened Values
  import ObjectAccess

  datatype Layout<!T> = Layout(sizeOf: nat, bytesOf: T -> seq<byte>, fromBytes: seq<byte> -> T, zero: T)

  /** What an unmanaged type guarantees: every value occupies `sizeOf` bytes, those bytes denote
      the value again, and `default(T)` is all zero bytes. */
  ghost predicate Unmanaged<T(!new)>(l: Layout<T>)
  {
    (forall v: T :: |l.bytesOf(v)| == l.sizeOf && l.fromBytes(l.bytesOf(v)) == v) &&
    l.zero == l.fromBytes(ZeroBytes(l.sizeOf))
  }

  function ZeroBytes(n: nat): (z: seq<byte>)
    ensures |z| == n && forall i :: 0 <= i < n ==> z[i] == 0
  {
    seq(n, i => 0 as byte)
  }

  /** `UnsafeUtility.MemCpy(dst, src, n)` into a byte array. */
  method MemCpy(dst: array<byte>, src: seq<byte>, n: nat)
    requires n <= dst.Length && n <= |src|
    modifies dst
    ensures dst[..n] == src[..n] && dst[n..] == old(dst[n..])
  {
    forall i | 0 <= i < n {
      dst[i] := src[i];
    }
  }

  /** SerializeObject: a buffer of `SizeOf(T)` bytes holding the value's memory. */
  method SerializeObject<T>(l: Layout<T>, obj: T) returns (buffer: array<byte>)
    requires |l.bytesOf(obj)| == l.sizeOf
    ensures fresh(buffer) && buffer.Length == l.sizeOf
    ensures buffer[..] == l.bytesOf(obj)
  {
    buffer := new byte[l.sizeOf](i => 0);
    MemCpy(buffer, l.bytesOf(obj), l.sizeOf);
    assert buffer[..] == buffer[..l.sizeOf];
  }

  /** What TryDeserializeObject answers for a (non-null) input. */
  function Deserialized<T>(l: Layout<T>, bytes: seq<byte>): (r: Got<T>)
    ensures r.ok <==> |bytes| >= l.sizeOf
  {
    if |bytes| < l.sizeOf then Got(false, l.zero) else Got(true, l.fromBytes(bytes[..l.sizeOf]))
  }

  /** TryDeserializeObject: the out value starts as `default`, and when the input is long enough
      its first `SizeOf(T)` bytes are copied over it. */
  method TryDeserializeObject<T>(l: Layout<T>, bytes: array<byte>) returns (ok: bool, value: T)
    ensures Got(ok, value) == Deserialized(l, bytes[..])
    ensures !ok ==> value == l.zero
  {
    value := l.zero;
    if bytes.Length < l.sizeOf {
      return false, value;
    }
    var memory := new byte[l.sizeOf](i => 0);
    MemCpy(memory, bytes[..], l.sizeOf);
    assert memory[..] == bytes[..][..l.sizeOf];
    value := l.fromBytes(memory[..]);
    ok := true;
  }

  /** Bytes after the first `SizeOf(T)` do not change the answer. */
  lemma TrailingBytesIgnored<T>(l: Layout<T>, bytes: seq<byte>, extra: seq<byte>)
    requires |bytes| >= l.sizeOf
    ensures Deserialized(l, bytes + extra) == Deserialized(l, bytes)
  {
    assert (bytes + extra)[..l.sizeOf] == bytes[..l.sizeOf];
  }

  /** A value's own bytes deserialize to the value, also with anything appended. */
  lemma {:induction false} StructRoundTrip<T(!new)>(l: Layout<T>, v: T, extra: seq<byte>)
    requires Unmanaged(l)
    ensures Deserialized(l, l.bytesOf(v) + extra) == Got(true, v)
  {
    TrailingBytesIgnored(l, l.bytesOf(v), extra);
    assert l.bytesOf(v)[..l.sizeOf] == l.bytesOf(v);
  }

  /** A refused input yields `default(T)`, the value of all zero bytes. */
  lemma ShortInputGivesDefault<T(!new)>(l: Layout<T>, bytes: seq<byte>)
    requires Unmanaged(l) && |bytes| < l.sizeOf
    ensures Deserialized(l, bytes) == Got(false, l.fromBytes(ZeroBytes(l.sizeOf)))
  {
  }

  /** The serializer as the typed-object layer sees it: a generic binary codec. A null array,
      which no modelled store hands over with a true result, answers false with the default. */
  function Codec<T>(l: Layout<T>): ObjectAccess.BinaryCodec<T>
  {
    ObjectAccess.BinaryCodec(
      l.bytesOf,
      (bytes: Option<seq<byte>>) => if bytes.Some? then Deserialized(l, bytes.value) else Got(false, l.zero))
  }

  lemma CodecRoundTrips<T(!new)>(l: Layout<T>)
    requires Unmanaged(l)
    ensures ObjectAccess.BinaryRoundTrips(Codec(l))
  {
    forall v: T
      ensures Codec(l).tryDeserialize(Some(Codec(l).serialize(v))) == Got(true, v)
    {
      StructRoundTrip(l, v, []);
      assert l.bytesOf(v) + [] == l.bytesOf(v);
    }
  }

  /** The two methods in sequence give the value back. */
  method SerializeThenDeserialize<T(!new)>(l: Layout<T>, v: T) returns (ok: bool, back: T)
    requires Unmanaged(l)
    ensures ok && back == v
  {
    var buffer := SerializeObject(l, v);
    ok, back := TryDeserializeObject(l, buffer);
    StructRoundTrip(l, v, []);
    assert l.bytesOf(v) + [] == l.bytesOf(v);
  }
}
