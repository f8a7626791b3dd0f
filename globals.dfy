/**
 * The VM's 32-bit globals: `vm_global_load_i32` and `vm_global_store_i32`
 * read and write an `int32_t` at a byte offset inside the module's global
 * byte buffer.
 *
 * The buffer is an `array<uint8>`. An `int32_t` occupies four consecutive
 * bytes holding its two's-complement pattern, least significant byte first;
 * the model assumes a little-endian host, which C leaves open. The C code
 * does no bounds check; the model's precondition is that the four bytes lie
 * inside the buffer.
 */
module VmGlobals {
  import opened Ints

  //===------------------------------------------------------------------===//
  // Byte encoding of an int32_t
  //===------------------------------------------------------------------===//

  /** The four bytes of the two's-complement pattern of `x`, least significant first. */
  function EncodeI32(x: int32): (bytes: seq<uint8>)
    ensures |bytes| == 4
  {
    var u := ToU32(x);
    var q1 := u / 0x100;
    var q2 := q1 / 0x100;
    [u % 0x100, q1 % 0x100, q2 % 0x100, q2 / 0x100]
  }

  /** The unsigned number whose base-256 digits are `bytes`, least significant first. */
  function LittleEndian32(bytes: seq<uint8>): (u: int)
    requires |bytes| == 4
    ensures 0 <= u < TWO32
  {
    bytes[0] as int + 0x100 * (bytes[1] as int + 0x100 * (bytes[2] as int + 0x100 * bytes[3] as int))
  }

  /** The `int32_t` whose pattern is the four bytes `bytes`, least significant first. */
  function DecodeI32(bytes: seq<uint8>): (x: int32)
    requires |bytes| == 4
  {
    ToI32(LittleEndian32(bytes))
  }

  /** Decoding the encoding of a value gives the value back. */
  lemma DecodeEncodeI32(x: int32)
    ensures DecodeI32(EncodeI32(x)) == x
  {
    var u := ToU32(x);
    var q1 := u / 0x100;
    var q2 := q1 / 0x100;
    assert u == u % 0x100 + 0x100 * q1;
    assert q1 == q1 % 0x100 + 0x100 * q2;
    assert q2 == q2 % 0x100 + 0x100 * (q2 / 0x100);
    assert LittleEndian32(EncodeI32(x)) == u;
    SignedUnsignedRoundTrip32(x, 0);
  }

  /** Encoding the decoding of four bytes gives the bytes back. */
  lemma EncodeDecodeI32(bytes: seq<uint8>)
    requires |bytes| == 4
    ensures EncodeI32(DecodeI32(bytes)) == bytes
  {
    var b0, b1, b2, b3: int := bytes[0], bytes[1], bytes[2], bytes[3];
    var u := LittleEndian32(bytes);
    SignedUnsignedRoundTrip32(0, u);
    assert ToU32(DecodeI32(bytes)) == u;
    var q2 := b2 + 0x100 * b3;
    var q1 := b1 + 0x100 * q2;
    ModUnique(u, 0x100, q1, b0);
    ModUnique(q1, 0x100, q2, b1);
    ModUnique(q2, 0x100, b3, b2);
    assert EncodeI32(DecodeI32(bytes)) == [b0, b1, b2, b3];
  }

  //===------------------------------------------------------------------===//
  // Loads and stores on the contents of the buffer
  //===------------------------------------------------------------------===//

  /** The `int32_t` held by the four bytes of `s` at `offset`. */
  function LoadFrom(s: seq<uint8>, offset: nat): (x: int32)
    requires offset + 4 <= |s|
    ensures EncodeI32(x) == s[offset..offset + 4]
  {
    EncodeDecodeI32(s[offset..offset + 4]);
    DecodeI32(s[offset..offset + 4])
  }

  /** `s` with the four bytes at `offset` replaced by the encoding of `value`. */
  function StoreInto(s: seq<uint8>, offset: nat, value: int32): (t: seq<uint8>)
    requires offset + 4 <= |s|
    ensures |t| == |s|
    ensures t[offset..offset + 4] == EncodeI32(value)
    ensures forall i | 0 <= i < |s| && !(offset <= i < offset + 4) :: t[i] == s[i]
  {
    s[..offset] + EncodeI32(value) + s[offset + 4..]
  }

  /** A load from where a value was just stored gives that value. */
  lemma LoadStoreSame(s: seq<uint8>, offset: nat, value: int32)
    requires offset + 4 <= |s|
    ensures LoadFrom(StoreInto(s, offset, value), offset) == value
  {
    DecodeEncodeI32(value);
  }

  /** A store leaves a load from four bytes it does not overlap unchanged. */
  lemma LoadStoreDisjoint(s: seq<uint8>, offset: nat, value: int32, other: nat)
    requires offset + 4 <= |s| && other + 4 <= |s|
    requires other + 4 <= offset || offset + 4 <= other
    ensures LoadFrom(StoreInto(s, offset, value), other) == LoadFrom(s, other)
  {
    var t := StoreInto(s, offset, value);
    forall k | other <= k < other + 4
      ensures t[k] == s[k]
    {
    }
    assert t[other..other + 4] == s[other..other + 4];
  }

  /** Storing the value a load just read leaves the buffer as it was. */
  lemma StoreLoad(s: seq<uint8>, offset: nat)
    requires offset + 4 <= |s|
    ensures StoreInto(s, offset, LoadFrom(s, offset)) == s
  {
    var t := StoreInto(s, offset, LoadFrom(s, offset));
    forall i | 0 <= i < |s|
      ensures t[i] == s[i]
    {
      if offset <= i < offset + 4 {
        assert t[i] == t[offset..offset + 4][i - offset];
        assert s[i] == s[offset..offset + 4][i - offset];
      }
    }
  }

  /** A second store to the same place overwrites the first. */
  lemma StoreStore(s: seq<uint8>, offset: nat, first: int32, second: int32)
    requires offset + 4 <= |s|
    ensures StoreInto(StoreInto(s, offset, first), offset, second) == StoreInto(s, offset, second)
  {
    var t, u := StoreInto(StoreInto(s, offset, first), offset, second), StoreInto(s, offset, second);
    forall i | 0 <= i < |s|
      ensures t[i] == u[i]
    {
      if offset <= i < offset + 4 {
        assert t[i] == t[offset..offset + 4][i - offset];
        assert u[i] == u[offset..offset + 4][i - offset];
      }
    }
  }

  //===------------------------------------------------------------------===//
  // The operations on the global buffer
  //===------------------------------------------------------------------===//

  /** `vm_global_load_i32`: the `int32_t` at `byteOffset`, whose encoding is the four bytes there. */
  function GlobalLoadI32(base: array<uint8>, byteOffset: uint32): (r: int32)
    reads base
    requires byteOffset as int + 4 <= base.Length
    ensures EncodeI32(r) == base[byteOffset..byteOffset as int + 4]
  {
    LoadFrom(base[..], byteOffset)
  }

  /**
   * `vm_global_store_i32`: the four bytes at `byteOffset` become the encoding
   * of `value`, and no other byte of the buffer changes.
   */
  method GlobalStoreI32(base: array<uint8>, byteOffset: uint32, value: int32)
    requires byteOffset as int + 4 <= base.Length
    modifies base
    ensures base[..] == StoreInto(old(base[..]), byteOffset, value)
    ensures GlobalLoadI32(base, byteOffset) == value
    ensures forall i | 0 <= i < base.Length && !(byteOffset <= i < byteOffset as int + 4) :: base[i] == old(base[i])
  {
    var bytes := EncodeI32(value);
    for k := 0 to 4
      invariant forall i | 0 <= i < base.Length ::
        base[i] == if byteOffset <= i < byteOffset as int + k then bytes[i - byteOffset] else old(base[i])
    {
      base[byteOffset as int + k] := bytes[k];
    }
    ghost var expected := StoreInto(old(base[..]), byteOffset, value);
    forall i | 0 <= i < base.Length
      ensures base[..][i] == expected[i]
    {
      if byteOffset <= i < byteOffset as int + 4 {
        assert expected[i] == expected[byteOffset..byteOffset as int + 4][i - byteOffset];
      }
    }
    assert base[..] == expected;
    LoadStoreSame(old(base[..]), byteOffset, value);
  }
}
