/** Recognising the archive format and finding, in the first bytes of the file,
    where the main archive header's checksum, checksummed data and lock flag lie. */
module Header {
  import opened Common
  import Vint

  /** The read buffer holds the first 256 bytes of the file. */
  const BufferSize: nat := 256

  const Rar4Signature: seq<bv8> := [0x52, 0x61, 0x72, 0x21, 0x1A, 0x07, 0x00]
  const Rar5Signature: seq<bv8> := [0x52, 0x61, 0x72, 0x21, 0x1A, 0x07, 0x01, 0x00]

  // RAR 2-4: a fixed layout.
  const CrcStart4: nat := 7
  const CrcLength4: nat := 2
  const HeaderStart4: nat := CrcStart4 + CrcLength4
  const HeaderLength4: nat := 0xB
  const HeaderTypeLength4: nat := 1
  const LockedFlagMask4: bv8 := 0x04

  // RAR 5: the checksum is followed by vints whose lengths place the flag.
  const CrcStart5: nat := 8
  const CrcLength5: nat := 4
  const HeaderStart5: nat := CrcStart5 + CrcLength5
  const LockedFlagMask5: bv8 := 0x10
  const EncryptedHeaderType5: nat := 4

  const FlagLength: nat := 1

  datatype Format = Rar4 | Rar5

  /** `s` starts with `sig`. */
  predicate HasPrefix(s: seq<bv8>, sig: seq<bv8>)
  {
    |sig| <= |s| && s[..|sig|] == sig
  }

  /** No buffer starts with both signatures: they differ in their seventh byte. */
  lemma {:induction false} SignaturesExclusive(s: seq<bv8>)
    ensures !(HasPrefix(s, Rar4Signature) && HasPrefix(s, Rar5Signature))
  {
    if HasPrefix(s, Rar4Signature) {
      assert s[6] == s[..7][6] == 0x00;
    }
  }

  /** The format check: the RAR 5 signature is tried first, then the RAR 2-4 one. */
  function Detect(s: seq<bv8>): (r: Result<Format>)
    ensures r == Ok(Rar5) <==> HasPrefix(s, Rar5Signature)
    ensures r == Ok(Rar4) <==> HasPrefix(s, Rar4Signature)
    ensures r == Err(NotRar) <==> !HasPrefix(s, Rar4Signature) && !HasPrefix(s, Rar5Signature)
  {
    SignaturesExclusive(s);
    if HasPrefix(s, Rar5Signature) then Ok(Rar5)
    else if HasPrefix(s, Rar4Signature) then Ok(Rar4)
    else Err(NotRar)
  }

  /** Where things lie in the buffer, as offsets from its start: the checksum
      field, the checksummed span, the flag byte with its lock bit, and the range
      written back to the file. */
  datatype Layout = Layout(
    format: Format,
    crcStart: nat, crcWidth: nat,
    dataStart: nat, dataLen: nat,
    flagPos: nat, mask: bv8,
    writeStart: nat, writeCount: nat)

  /** A layout that fits a buffer of `bufferLen` bytes, the 256-byte buffer: the
      checksummed span follows the checksum field, the flag byte lies after the
      field and within the buffer, and the written range runs from the checksum
      field through the flag byte. */
  predicate WellFormed(l: Layout, bufferLen: nat)
  {
    ValidWidth(l.crcWidth)
    && l.crcStart + l.crcWidth == l.dataStart
    && l.dataStart + l.dataLen <= bufferLen
    && l.dataStart <= l.flagPos < bufferLen
    && (l.mask == 0x04 || l.mask == 0x10)
    && l.writeStart == l.crcStart
    && l.writeStart + l.writeCount == l.flagPos + 1
  }

  /** The fixed RAR 2-4 layout: checksum at 7 (2 bytes), 11 bytes checksummed
      from 9, flag byte at 10 with lock bit 0x04, 4 bytes written from 7. */
  const Rar4Layout: Layout := Layout(
    Rar4, CrcStart4, CrcLength4, HeaderStart4, HeaderLength4,
    HeaderStart4 + HeaderTypeLength4, LockedFlagMask4,
    CrcStart4, CrcLength4 + HeaderTypeLength4 + FlagLength)

  /** The leading fields of a RAR 5 main header: header size, header type and
      header flags, three consecutive vints from the end of the checksum field. */
  datatype Head = Head(size: Vint.Field, kind: Vint.Field, flags: Vint.Field)
  {
    /** The bytes the three fields occupy. */
    function Len(): nat { size.len + kind.len + flags.len }
  }

  /** The three leading fields of the RAR 5 main header in `s`. */
  function DecodeHead(s: seq<bv8>): (r: Result<Head>)
    ensures r.Ok? ==> HeaderStart5 + r.value.Len() <= |s| && r.value.kind.value < Vint.Modulus
    ensures r.Ok? ==> 1 <= r.value.size.len && 1 <= r.value.kind.len && 1 <= r.value.flags.len
    ensures r.Err? ==> r.error == Truncated
  {
    var size :- Vint.Decode(s, HeaderStart5);
    var kind :- Vint.Decode(s, HeaderStart5 + size.len);
    var flags :- Vint.Decode(s, HeaderStart5 + size.len + kind.len);
    Ok(Head(size, kind, flags))
  }

  /** The number of bytes the RAR 5 main header's fields occupy before its archive
      flags: the three leading fields, plus the extra-area size when bit 0 of the
      header flags says it is present. */
  function FlagOffset(s: seq<bv8>, h: Head): (r: Result<nat>)
    ensures r.Ok? && h.flags.value % 2 == 0 ==> r.value == h.Len()
    ensures r.Ok? && h.flags.value % 2 == 1 ==> h.Len() < r.value && HeaderStart5 + r.value <= |s|
    ensures r.Err? ==> h.flags.value % 2 == 1 && r.error == Truncated
  {
    if h.flags.value % 2 == 1 then
      var extra :- Vint.Decode(s, HeaderStart5 + h.Len());
      Ok(h.Len() + extra.len)
    else Ok(h.Len())
  }

  /** The layout of the main archive header of format `format`, found in `s`,
      the 256-byte buffer the start of the file was read into. RAR 5 headers
      with encrypted headers are refused; a layout that needs a byte past the
      end of the buffer is Err(Truncated). */
  function Resolve(s: seq<bv8>, format: Format): (r: Result<Layout>)
    ensures r.Ok? ==> WellFormed(r.value, |s|) && r.value.format == format
    ensures r.Ok? && format == Rar4 ==> r.value == Rar4Layout
    ensures r.Err? && format == Rar4 ==> r.error == Truncated
    ensures format == Rar4 ==> (r.Ok? <==> HeaderStart4 + HeaderLength4 <= |s|)
  {
    match format
    case Rar4 =>
      if HeaderStart4 + HeaderLength4 > |s| then Err(Truncated) else Ok(Rar4Layout)
    case Rar5 =>
      var h :- DecodeHead(s);
      if h.kind.value == EncryptedHeaderType5 then Err(EncryptedHeader)
      else
        var flagOffset :- FlagOffset(s, h);
        Rar5Layout(|s|, (h.size.len + h.size.value) % Vint.Modulus, flagOffset)
  }

  /** `s` holds, from the end of the checksum field on, the three leading fields
      of a RAR 5 main header as a writer lays them out, one right after the other. */
  predicate HeadAt(s: seq<bv8>, size: nat, kind: nat, flags: nat)
  {
    var p := HeaderStart5;
    Vint.EncodedAt(s, p, size)
    && Vint.EncodedAt(s, p + |Vint.Encode(size)|, kind)
    && Vint.EncodedAt(s, p + |Vint.Encode(size)| + |Vint.Encode(kind)|, flags)
  }

  /** The leading fields a writer lays out for header size `size`, header type
      `kind` and header flags `flags`: each value with the length of its encoding. */
  function EncodedHead(size: nat, kind: nat, flags: nat): (h: Head)
    ensures h.Len() == |Vint.Encode(size)| + |Vint.Encode(kind)| + |Vint.Encode(flags)|
  {
    Head(
      Vint.Field(|Vint.Encode(size)|, size),
      Vint.Field(|Vint.Encode(kind)|, kind),
      Vint.Field(|Vint.Encode(flags)|, flags))
  }

  /** Decoding leading fields a writer laid out gives back their values and lengths. */
  lemma {:induction false} HeadRoundTrip(s: seq<bv8>, size: nat, kind: nat, flags: nat)
    requires size < Vint.Modulus && kind < Vint.Modulus && flags < Vint.Modulus
    requires HeadAt(s, size, kind, flags)
    ensures DecodeHead(s) == Ok(EncodedHead(size, kind, flags))
  {
    var a, b, c := Vint.Encode(size), Vint.Encode(kind), Vint.Encode(flags);
    var p := HeaderStart5;
    Vint.EncodeDecode(s, p, size);
    Vint.EncodeDecode(s, p + |a|, kind);
    Vint.EncodeDecode(s, p + |a| + |b|, flags);
    Vint.Unwrapped(size);
    Vint.Unwrapped(kind);
    Vint.Unwrapped(flags);
    DecodeHeadOk(s, Vint.Field(|a|, size), Vint.Field(|b|, kind), Vint.Field(|c|, flags));
  }

  /** The leading fields are the three vints found one after the other. */
  lemma {:induction false} DecodeHeadOk(s: seq<bv8>, size: Vint.Field, kind: Vint.Field, flags: Vint.Field)
    requires Vint.Decode(s, HeaderStart5) == Ok(size)
    requires Vint.Decode(s, HeaderStart5 + size.len) == Ok(kind)
    requires Vint.Decode(s, HeaderStart5 + size.len + kind.len) == Ok(flags)
    ensures DecodeHead(s) == Ok(Head(size, kind, flags))
  {}

  /** The RAR 5 layout once the checksummed length and the flag offset are known:
      checksum at 8 (4 bytes), data from 12, flag byte at 12 + `offset` with lock
      bit 0x10, written from 8 through the flag byte; Err(Truncated) unless the
      span and the flag byte lie within the `bufferLen` bytes of the 256-byte buffer. */
  function Rar5Layout(bufferLen: nat, dataLen: nat, offset: nat): (r: Result<Layout>)
    ensures r.Ok? <==> HeaderStart5 + dataLen <= bufferLen && HeaderStart5 + offset < bufferLen
  {
    if HeaderStart5 + dataLen > bufferLen || HeaderStart5 + offset >= bufferLen then Err(Truncated)
    else Ok(Layout(
      Rar5, CrcStart5, CrcLength5, HeaderStart5, dataLen,
      HeaderStart5 + offset, LockedFlagMask5,
      CrcStart5, CrcLength5 + offset + FlagLength))
  }

  /** The flag offset of leading fields followed, when bit 0 of the flags is set,
      by an extra-area size a writer laid out. */
  lemma {:induction false} FlagOffsetEncoded(s: seq<bv8>, h: Head, extra: nat)
    requires h.flags.value % 2 == 1 ==> Vint.EncodedAt(s, HeaderStart5 + h.Len(), extra)
    ensures FlagOffset(s, h) == Ok(h.Len() + if h.flags.value % 2 == 1 then |Vint.Encode(extra)| else 0)
  {
    if h.flags.value % 2 == 1 {
      Vint.EncodeDecode(s, HeaderStart5 + h.Len(), extra);
      FlagOffsetExtra(s, h, Vint.Field(|Vint.Encode(extra)|, extra % Vint.Modulus));
    }
  }

  /** With bit 0 of the header flags set, the extra-area size vint adds its length. */
  lemma {:induction false} FlagOffsetExtra(s: seq<bv8>, h: Head, extra: Vint.Field)
    requires h.flags.value % 2 == 1 && Vint.Decode(s, HeaderStart5 + h.Len()) == Ok(extra)
    ensures FlagOffset(s, h) == Ok(h.Len() + extra.len)
  {}

  /** Once the leading fields are decoded, a RAR 5 header of type 4 (encrypted
      headers) is refused; any other is placed by its flag offset, with the
      header-size vint plus the size it states (modulo 2^32) checksummed. */
  lemma {:induction false} ResolveRar5(s: seq<bv8>, h: Head)
    requires DecodeHead(s) == Ok(h)
    ensures h.kind.value == EncryptedHeaderType5 ==> Resolve(s, Rar5) == Err(EncryptedHeader)
    ensures h.kind.value != EncryptedHeaderType5 && FlagOffset(s, h).Err? ==> Resolve(s, Rar5) == Err(Truncated)
    ensures h.kind.value != EncryptedHeaderType5 && FlagOffset(s, h).Ok? ==>
      Resolve(s, Rar5) == Rar5Layout(|s|, (h.size.len + h.size.value) % Vint.Modulus, FlagOffset(s, h).value)
  {}

  /** The layout of a RAR 5 main header a writer laid out: header size, a type
      other than 4, header flags and, when bit 0 of the flags is set, the
      extra-area size, as consecutive vints from offset 12. The header is placed
      exactly when its checksummed span and its flag byte fit in the buffer; the
      checksum is then the 4 bytes at 8, the span runs from 12 over the
      header-size vint and the size it states (modulo 2^32), the flag byte
      follows the vints with lock bit 0x10, and the bytes from 8 through the flag
      byte are written back. */
  lemma {:induction false} ResolveEncoded(s: seq<bv8>, size: nat, kind: nat, flags: nat, extra: nat)
    requires size < Vint.Modulus && kind < Vint.Modulus && flags < Vint.Modulus
    requires HeadAt(s, size, kind, flags) && kind != 4
    requires flags % 2 == 1 ==>
      Vint.EncodedAt(s, 12 + |Vint.Encode(size)| + |Vint.Encode(kind)| + |Vint.Encode(flags)|, extra)
    ensures
      var off := |Vint.Encode(size)| + |Vint.Encode(kind)| + |Vint.Encode(flags)|
        + (if flags % 2 == 1 then |Vint.Encode(extra)| else 0);
      var len := (|Vint.Encode(size)| + size) % 0x1_0000_0000;
      && (Resolve(s, Rar5).Ok? <==> 12 + len <= |s| && 12 + off < |s|)
      && (Resolve(s, Rar5).Ok? ==>
            Resolve(s, Rar5).value == Layout(Rar5, 8, 4, 12, len, 12 + off, 0x10, 8, 5 + off))
  {
    HeadRoundTrip(s, size, kind, flags);
    ResolveDecoded(s, size, kind, flags, extra);
  }

  /** `ResolveEncoded` once the leading fields are known to decode. The steps
      are kept in separate lemmas so that each proof sees few unfoldings of
      `Resolve`. */
  lemma {:induction false} ResolveDecoded(s: seq<bv8>, size: nat, kind: nat, flags: nat, extra: nat)
    requires kind != 4
    requires DecodeHead(s) == Ok(EncodedHead(size, kind, flags))
    requires flags % 2 == 1 ==>
      Vint.EncodedAt(s, 12 + |Vint.Encode(size)| + |Vint.Encode(kind)| + |Vint.Encode(flags)|, extra)
    ensures
      var off := |Vint.Encode(size)| + |Vint.Encode(kind)| + |Vint.Encode(flags)|
        + (if flags % 2 == 1 then |Vint.Encode(extra)| else 0);
      var len := (|Vint.Encode(size)| + size) % 0x1_0000_0000;
      && (Resolve(s, Rar5).Ok? <==> 12 + len <= |s| && 12 + off < |s|)
      && (Resolve(s, Rar5).Ok? ==>
            Resolve(s, Rar5).value == Layout(Rar5, 8, 4, 12, len, 12 + off, 0x10, 8, 5 + off))
  {
    FlagOffsetWritten(s, size, kind, flags, extra);
    ResolveWritten(s, size, kind, flags, |Vint.Encode(size)| + |Vint.Encode(kind)| + |Vint.Encode(flags)|
        + (if flags % 2 == 1 then |Vint.Encode(extra)| else 0));
  }

  /** `FlagOffsetEncoded` for leading fields a writer laid out. */
  lemma {:induction false} FlagOffsetWritten(s: seq<bv8>, size: nat, kind: nat, flags: nat, extra: nat)
    requires flags % 2 == 1 ==>
      Vint.EncodedAt(s, 12 + |Vint.Encode(size)| + |Vint.Encode(kind)| + |Vint.Encode(flags)|, extra)
    ensures FlagOffset(s, EncodedHead(size, kind, flags)) == Ok(|Vint.Encode(size)| + |Vint.Encode(kind)| + |Vint.Encode(flags)|
        + (if flags % 2 == 1 then |Vint.Encode(extra)| else 0))
  {
    var h := EncodedHead(size, kind, flags);
    FlagOffsetEncoded(s, h, extra);
  }

  /** `ResolveParts` for leading fields a writer laid out. */
  lemma {:induction false} ResolveWritten(s: seq<bv8>, size: nat, kind: nat, flags: nat, offset: nat)
    requires kind != 4
    requires DecodeHead(s) == Ok(EncodedHead(size, kind, flags))
    requires FlagOffset(s, EncodedHead(size, kind, flags)) == Ok(offset)
    ensures
      var len := (|Vint.Encode(size)| + size) % 0x1_0000_0000;
      && (Resolve(s, Rar5).Ok? <==> 12 + len <= |s| && 12 + offset < |s|)
      && (Resolve(s, Rar5).Ok? ==>
            Resolve(s, Rar5).value == Layout(Rar5, 8, 4, 12, len, 12 + offset, 0x10, 8, 5 + offset))
  {
    ResolveParts(s, EncodedHead(size, kind, flags), offset);
  }

  /** The RAR 5 layout of leading fields `h` other than type 4 followed by
      archive flags `offset` bytes from the data start, with its fields written out. */
  lemma {:induction false} ResolveParts(s: seq<bv8>, h: Head, offset: nat)
    requires DecodeHead(s) == Ok(h) && h.kind.value != 4 && FlagOffset(s, h) == Ok(offset)
    ensures
      var len := (h.size.len + h.size.value) % 0x1_0000_0000;
      && (Resolve(s, Rar5).Ok? <==> 12 + len <= |s| && 12 + offset < |s|)
      && (Resolve(s, Rar5).Ok? ==>
            Resolve(s, Rar5).value == Layout(Rar5, 8, 4, 12, len, 12 + offset, 0x10, 8, 5 + offset))
  {
    ResolveRar5(s, h);
  }

  /** The three `vint` calls of rarUnlocker.c that read the RAR 5 main header's
      leading fields from `buf`, each starting where the previous one stopped. */
  method ReadHead(buf: array<bv8>, limit: nat) returns (r: Result<Head>)
    requires limit <= buf.Length
    ensures r == DecodeHead(buf[..limit])
  {
    var size :- Vint.Read(buf, HeaderStart5, limit);
    var kind :- Vint.Read(buf, HeaderStart5 + size.len, limit);
    var flags :- Vint.Read(buf, HeaderStart5 + size.len + kind.len, limit);
    r := Ok(Head(size, kind, flags));
  }

  /** The layout resolution of rarUnlocker.c, reading the vints from `buf` in
      place, within its first `limit` bytes. */
  method ResolveLayout(buf: array<bv8>, limit: nat, format: Format) returns (r: Result<Layout>)
    requires limit <= buf.Length
    ensures r == Resolve(buf[..limit], format)
  {
    if format == Rar4 {
      if HeaderStart4 + HeaderLength4 > limit {
        return Err(Truncated);
      }
      return Ok(Rar4Layout);
    }
    var h :- ReadHead(buf, limit);
    if h.kind.value == EncryptedHeaderType5 {
      return Err(EncryptedHeader);
    }
    var flagOffset := h.Len();
    if h.flags.value % 2 == 1 {
      var extra :- Vint.Read(buf, HeaderStart5 + flagOffset, limit);
      flagOffset := flagOffset + extra.len;
    }
    r := Rar5Layout(limit, (h.size.len + h.size.value) % Vint.Modulus, flagOffset);
  }

  /** The leading fields depend only on the bytes they occupy. */
  lemma {:induction false} DecodeHeadFrame(s: seq<bv8>, t: seq<bv8>)
    requires DecodeHead(s).Ok? && |t| == |s|
    requires forall i :: HeaderStart5 <= i < HeaderStart5 + DecodeHead(s).value.Len() ==> t[i] == s[i]
    ensures DecodeHead(t) == DecodeHead(s)
  {
    var h := DecodeHead(s).value;
    var p := HeaderStart5;
    Vint.DecodeFrame(s, t, p);
    Vint.DecodeFrame(s, t, p + h.size.len);
    Vint.DecodeFrame(s, t, p + h.size.len + h.kind.len);
    DecodeHeadOk(t, h.size, h.kind, h.flags);
  }

  /** The flag offset depends only on the extra-area size vint, when there is one. */
  lemma {:induction false} FlagOffsetFrame(s: seq<bv8>, t: seq<bv8>, h: Head)
    requires FlagOffset(s, h).Ok? && |t| == |s|
    requires forall i :: HeaderStart5 + h.Len() <= i < HeaderStart5 + FlagOffset(s, h).value ==> t[i] == s[i]
    ensures FlagOffset(t, h) == FlagOffset(s, h)
  {
    if h.flags.value % 2 == 1 {
      Vint.DecodeFrame(s, t, HeaderStart5 + h.Len());
    }
  }

  /** The layout depends only on the bytes before the flag byte from the checksummed
      span's start on: the checksum field and the flag byte can change without moving it. */
  lemma {:induction false} ResolveFrame(s: seq<bv8>, t: seq<bv8>, format: Format)
    requires Resolve(s, format).Ok? && |t| == |s|
    requires forall i :: Resolve(s, format).value.dataStart <= i < Resolve(s, format).value.flagPos ==> t[i] == s[i]
    ensures Resolve(t, format) == Resolve(s, format)
  {
    if format == Rar5 {
      var h := DecodeHead(s).value;
      var offset := FlagOffset(s, h).value;
      DecodeHeadFrame(s, t);
      FlagOffsetFrame(s, t, h);
      ResolveRar5(s, h);
      ResolveRar5(t, h);
    }
  }
}
