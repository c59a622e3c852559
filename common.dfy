/** Result type, error kinds and the little-endian checksum field shared by the
    unlocker's components. */
module Common {

  /** Why the unlocker refuses an archive. */
  datatype Error =
    | NothingRead      // the read returned no bytes
    | NotRar           // the buffer starts with neither the RAR 2-4 nor the RAR 5 signature
    | EncryptedHeader  // a RAR 5 main header whose type is 4 (encrypted headers)
    | Truncated        // a byte the header layout needs lies past the 256-byte buffer
    | HeaderCorrupt    // the stored header checksum disagrees with the computed one

  datatype Result<+T> = Ok(value: T) | Err(error: Error) {
    predicate IsFailure() { Err? }
    function PropagateFailure<U>(): Result<U> requires Err? { Err(error) }
    function Extract(): T requires Ok? { value }
  }

  /** The checksum field is 2 bytes wide in RAR 2-4 and 4 bytes wide in RAR 5. */
  predicate ValidWidth(width: nat) { width == 2 || width == 4 }

  /** The `width` bytes of `s` at `pos`, read as an unsigned little-endian number
      (the source reads them through a `uint16_t*` or `uint32_t*` cast). */
  function LoadLE(s: seq<bv8>, pos: nat, width: nat): bv32
    requires ValidWidth(width) && pos + width <= |s|
  {
    if width == 2 then Pack(s[pos], s[pos + 1], 0, 0)
    else Pack(s[pos], s[pos + 1], s[pos + 2], s[pos + 3])
  }

  /** The 32-bit number whose little-endian bytes are `b0` .. `b3`. */
  function Pack(b0: bv8, b1: bv8, b2: bv8, b3: bv8): bv32
  {
    (b0 as bv32) | ((b1 as bv32) << 8) | ((b2 as bv32) << 16) | ((b3 as bv32) << 24)
  }

  /** Byte `k` (0 = least significant) of `x`. */
  function ByteOf(x: bv32, k: nat): bv8
    requires k < 4
  {
    var shifted := if k == 0 then x else if k == 1 then x >> 8 else if k == 2 then x >> 16 else x >> 24;
    (shifted & 0xFF) as bv8
  }

  /** `x` cut to a field of `width` bytes (the `(uint16_t)` cast for RAR 2-4). */
  function Truncate(x: bv32, width: nat): bv32
    requires ValidWidth(width)
  {
    if width == 2 then x & 0xFFFF else x
  }

  /** The `width` little-endian bytes of `x`, least significant first. */
  function LEBytes(x: bv32, width: nat): (r: seq<bv8>)
    requires ValidWidth(width)
    ensures |r| == width
  {
    if width == 2 then [ByteOf(x, 0), ByteOf(x, 1)]
    else [ByteOf(x, 0), ByteOf(x, 1), ByteOf(x, 2), ByteOf(x, 3)]
  }

  /** `s` with the field of `width` bytes at `pos` overwritten by `x`. */
  function StoreLE(s: seq<bv8>, pos: nat, width: nat, x: bv32): (r: seq<bv8>)
    requires ValidWidth(width) && pos + width <= |s|
    ensures |r| == |s|
    ensures forall i :: 0 <= i < |s| && !(pos <= i < pos + width) ==> r[i] == s[i]
  {
    s[..pos] + LEBytes(x, width) + s[pos + width..]
  }

  /** Reading back a stored field gives the stored value, cut to the field's width. */
  lemma {:induction false} LoadStoreLE(s: seq<bv8>, pos: nat, width: nat, x: bv32)
    requires ValidWidth(width) && pos + width <= |s|
    ensures LoadLE(StoreLE(s, pos, width, x), pos, width) == Truncate(x, width)
  {
    var r := StoreLE(s, pos, width, x);
    assert r[pos..pos + width] == LEBytes(x, width);
    if width == 4 {
      PackBytes(x);
    } else {
      PackLowBytes(x);
    }
  }

  lemma {:induction false} PackBytes(x: bv32)
    ensures Pack(ByteOf(x, 0), ByteOf(x, 1), ByteOf(x, 2), ByteOf(x, 3)) == x
  {}

  lemma {:induction false} PackLowBytes(x: bv32)
    ensures Pack(ByteOf(x, 0), ByteOf(x, 1), 0, 0) == x & 0xFFFF
  {}

  /** Storing back the value just read leaves the bytes as they were. */
  lemma {:induction false} StoreLoadLE(s: seq<bv8>, pos: nat, width: nat)
    requires ValidWidth(width) && pos + width <= |s|
    ensures StoreLE(s, pos, width, LoadLE(s, pos, width)) == s
  {
    var x := LoadLE(s, pos, width);
    if width == 4 {
      BytesOfPack(s[pos], s[pos + 1], s[pos + 2], s[pos + 3]);
    } else {
      BytesOfPack(s[pos], s[pos + 1], 0, 0);
    }
    assert LEBytes(x, width) == s[pos..pos + width];
    assert s == s[..pos] + s[pos..pos + width] + s[pos + width..];
  }

  lemma {:induction false} BytesOfPack(b0: bv8, b1: bv8, b2: bv8, b3: bv8)
    ensures ByteOf(Pack(b0, b1, b2, b3), 0) == b0 && ByteOf(Pack(b0, b1, b2, b3), 1) == b1
    ensures ByteOf(Pack(b0, b1, b2, b3), 2) == b2 && ByteOf(Pack(b0, b1, b2, b3), 3) == b3
  {}

  /** Storing `x` over a field whose bytes already read as `x` (cut to the
      field's width) into a buffer that differs from `s` only inside that field
      gives back `s`. */
  lemma {:induction false} StoreRestores(s: seq<bv8>, t: seq<bv8>, pos: nat, width: nat, x: bv32)
    requires ValidWidth(width) && pos + width <= |s| && |t| == |s|
    requires forall i :: 0 <= i < |s| && !(pos <= i < pos + width) ==> t[i] == s[i]
    requires LoadLE(s, pos, width) == Truncate(x, width)
    ensures StoreLE(t, pos, width, x) == s
  {
    StoreLoadLE(s, pos, width);
    var u := StoreLE(s, pos, width, LoadLE(s, pos, width));
    var r := StoreLE(t, pos, width, x);
    if width == 2 {
      TruncatedBytes(x);
    }
    assert LEBytes(x, width) == LEBytes(LoadLE(s, pos, width), width);
    forall i | 0 <= i < |s|
      ensures r[i] == u[i]
    {
      if pos <= i < pos + width {
        assert r[i] == LEBytes(x, width)[i - pos];
        assert u[i] == LEBytes(LoadLE(s, pos, width), width)[i - pos];
      }
    }
  }

  lemma {:induction false} TruncatedBytes(x: bv32)
    ensures ByteOf(x & 0xFFFF, 0) == ByteOf(x, 0) && ByteOf(x & 0xFFFF, 1) == ByteOf(x, 1)
  {}

  /** Writes the field of `width` bytes at `pos` of `buf` in place, least
      significant byte first (the source's store through a `uint16_t*` or
      `uint32_t*` cast on a little-endian host). */
  method StoreField(buf: array<bv8>, pos: nat, width: nat, x: bv32)
    requires ValidWidth(width) && pos + width <= buf.Length
    modifies buf
    ensures buf[..] == StoreLE(old(buf[..]), pos, width, x)
  {
    buf[pos] := ByteOf(x, 0);
    buf[pos + 1] := ByteOf(x, 1);
    if width == 4 {
      buf[pos + 2] := ByteOf(x, 2);
      buf[pos + 3] := ByteOf(x, 3);
    }
    assert buf[..] == old(buf[..])[..pos] + LEBytes(x, width) + old(buf[..])[pos + width..];
  }
}
