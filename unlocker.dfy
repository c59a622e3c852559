/** Checking the main archive header's checksum and setting or clearing its
    lock flag in the buffer read from the start of the archive. */
module Unlocker {
  import opened Common
  import opened Header
  import Crc32

  /** What a successful run did: nothing, because the archive already was in the
      requested state, or a rewrite of `count` buffer bytes from `start`, which are
      then written back to the file at the same offset. */
  datatype Outcome = AlreadyInState | Written(start: nat, count: nat)

  /** The layout of the main archive header in `s`, the whole read buffer, of
      which the first `readBytes` bytes came from the file and the rest are the
      zeros of the fresh allocation. An empty read is refused; otherwise the
      signatures and the header fields are read from the buffer itself. */
  function Locate(s: seq<bv8>, readBytes: nat): (r: Result<Layout>)
    ensures r.Ok? ==> WellFormed(r.value, |s|) && Detect(s) == Ok(r.value.format)
    ensures readBytes == 0 <==> r == Err(NothingRead)
    ensures r == Err(NotRar) <==> 0 < readBytes && Detect(s) == Err(NotRar)
  {
    if readBytes == 0 then Err(NothingRead)
    else
      var format :- Detect(s);
      Resolve(s, format)
  }

  /** The checksummed part of the header. */
  function Span(s: seq<bv8>, l: Layout): seq<bv8>
    requires l.dataStart + l.dataLen <= |s|
  {
    s[l.dataStart..l.dataStart + l.dataLen]
  }

  /** The stored checksum equals the CRC-32 of the checksummed span, cut to the
      field's width: all 32 bits in RAR 5, the low 16 bits in RAR 2-4. */
  predicate ChecksumValid(s: seq<bv8>, l: Layout)
    requires WellFormed(l, |s|)
  {
    LoadLE(s, l.crcStart, l.crcWidth) == Truncate(Crc32.Crc(Span(s, l)), l.crcWidth)
  }

  /** The lock bit of the flag byte is set. */
  predicate IsLocked(s: seq<bv8>, l: Layout)
    requires WellFormed(l, |s|)
  {
    s[l.flagPos] & l.mask != 0
  }

  /** The flag byte `b` with the lock bit `mask` set (locking) or cleared (unlocking). */
  function SetFlag(b: bv8, mask: bv8, doLock: bool): (r: bv8)
    ensures r & !mask == b & !mask
    ensures mask != 0 ==> (r & mask != 0 <==> doLock)
  {
    if doLock then b | mask else b & !mask
  }

  /** The header with the lock bit changed. */
  function Flipped(s: seq<bv8>, l: Layout, doLock: bool): (r: seq<bv8>)
    requires WellFormed(l, |s|)
    ensures |r| == |s|
  {
    s[l.flagPos := SetFlag(s[l.flagPos], l.mask, doLock)]
  }

  /** The header with the CRC-32 of its checksummed span stored in the checksum field. */
  function Stamped(s: seq<bv8>, l: Layout): (r: seq<bv8>)
    requires WellFormed(l, |s|)
    ensures |r| == |s|
  {
    StoreLE(s, l.crcStart, l.crcWidth, Crc32.Crc(Span(s, l)))
  }

  /** The header after the rewrite: lock bit changed, then the checksum of the
      changed span stored over the old one. */
  function Rewrite(s: seq<bv8>, l: Layout, doLock: bool): seq<bv8>
    requires WellFormed(l, |s|)
  {
    Stamped(Flipped(s, l, doLock), l)
  }

  /** The decision the unlocker takes once the layout `l` is known: refuse a
      header whose checksum does not match, leave a header already in the
      requested state, or rewrite from the checksum field through the flag byte. */
  function Decide(s: seq<bv8>, l: Layout, doLock: bool): (r: Result<Outcome>)
    requires WellFormed(l, |s|)
    ensures r.Err? <==> !ChecksumValid(s, l)
    ensures r.Err? ==> r.error == HeaderCorrupt
    ensures r == Ok(AlreadyInState) <==> ChecksumValid(s, l) && IsLocked(s, l) == doLock
    ensures r.Ok? && r.value.Written? ==> r.value.start == l.crcStart && r.value.start + r.value.count == l.flagPos + 1
  {
    if !ChecksumValid(s, l) then Err(HeaderCorrupt)
    else if IsLocked(s, l) == doLock then Ok(AlreadyInState)
    else Ok(Written(l.writeStart, l.writeCount))
  }

  /** The decision the unlocker takes on the buffer `s`. */
  function Plan(s: seq<bv8>, readBytes: nat, doLock: bool): (r: Result<Outcome>)
  {
    var l :- Locate(s, readBytes);
    Decide(s, l, doLock)
  }

  /** The header after the decision on layout `l`: rewritten when a write is
      planned, otherwise untouched. */
  function Applied(s: seq<bv8>, l: Layout, doLock: bool): seq<bv8>
    requires WellFormed(l, |s|)
  {
    if Decide(s, l, doLock).Ok? && Decide(s, l, doLock).value.Written? then Rewrite(s, l, doLock) else s
  }

  /** The buffer after the unlocker has run. */
  function After(s: seq<bv8>, readBytes: nat, doLock: bool): seq<bv8>
  {
    match Locate(s, readBytes)
    case Ok(l) => Applied(s, l, doLock)
    case Err(_) => s
  }

  /** Lines 77-136 of rarUnlocker.c: refuse an empty read, detect the format by
      its signature, resolve the header layout. */
  method Find(buf: array<bv8>, readBytes: nat) returns (r: Result<Layout>)
    ensures r == Locate(buf[..], readBytes)
  {
    if readBytes == 0 {
      return Err(NothingRead);
    }
    var format :- Detect(buf[..]);
    assert buf[..buf.Length] == buf[..];
    r := ResolveLayout(buf, buf.Length, format);
  }

  /** Lines 141-147 of rarUnlocker.c: the stored checksum against the CRC-32 of
      the checksummed span. */
  method CheckHeader(buf: array<bv8>, l: Layout) returns (valid: bool)
    requires WellFormed(l, buf.Length)
    ensures valid == ChecksumValid(buf[..], l)
  {
    var oldCrc := Crc32.Compute(buf, l.dataStart, l.dataLen);
    assert buf[l.dataStart..l.dataStart + l.dataLen] == Span(buf[..], l);
    valid := LoadLE(buf[..], l.crcStart, l.crcWidth) == Truncate(oldCrc, l.crcWidth);
  }

  /** Lines 161-164 of rarUnlocker.c: set or clear the lock bit in place. */
  method Flip(buf: array<bv8>, l: Layout, doLock: bool)
    requires WellFormed(l, buf.Length)
    modifies buf
    ensures buf[..] == Flipped(old(buf[..]), l, doLock)
  {
    if doLock {
      buf[l.flagPos] := buf[l.flagPos] | l.mask;
    } else {
      buf[l.flagPos] := buf[l.flagPos] & !l.mask;
    }
  }

  /** Lines 168-174 of rarUnlocker.c: store the CRC-32 of the checksummed span,
      cut to the field's width, in the checksum field. */
  method Stamp(buf: array<bv8>, l: Layout)
    requires WellFormed(l, buf.Length)
    modifies buf
    ensures buf[..] == Stamped(old(buf[..]), l)
  {
    var newCrc := Crc32.Compute(buf, l.dataStart, l.dataLen);
    assert buf[l.dataStart..l.dataStart + l.dataLen] == Span(buf[..], l);
    StoreField(buf, l.crcStart, l.crcWidth, newCrc);
  }

  /** Lines 141-174 of rarUnlocker.c: check the header checksum, and set or clear
      the lock flag with the checksum recomputed. */
  method Apply(buf: array<bv8>, l: Layout, doLock: bool) returns (r: Result<Outcome>)
    requires WellFormed(l, buf.Length)
    modifies buf
    ensures r == Decide(old(buf[..]), l, doLock)
    ensures buf[..] == Applied(old(buf[..]), l, doLock)
  {
    var isHeaderCrcValid := CheckHeader(buf, l);
    if !isHeaderCrcValid {
      return Err(HeaderCorrupt);
    }
    var lockedFlag := buf[l.flagPos] & l.mask != 0;
    if lockedFlag == doLock {
      return Ok(AlreadyInState);
    }
    Flip(buf, l, doLock);
    Stamp(buf, l);
    r := Ok(Written(l.writeStart, l.writeCount));
  }

  /** Lines 77-174 of rarUnlocker.c on the buffer `buf`, of which the first
      `readBytes` bytes were read from the archive. */
  method SetLock(buf: array<bv8>, readBytes: nat, doLock: bool) returns (r: Result<Outcome>)
    requires buf.Length == BufferSize && readBytes <= buf.Length
    modifies buf
    ensures r == Plan(old(buf[..]), readBytes, doLock)
    ensures buf[..] == After(old(buf[..]), readBytes, doLock)
  {
    var l :- Find(buf, readBytes);
    r := Apply(buf, l, doLock);
  }

  /** The rewrite changes only the checksum field and the lock bit of the flag
      byte, leaves the lock bit as requested and the checksum matching. */
  lemma {:induction false} RewriteEffect(s: seq<bv8>, l: Layout, doLock: bool)
    requires WellFormed(l, |s|)
    ensures |Rewrite(s, l, doLock)| == |s|
    ensures forall i :: 0 <= i < |s| && i != l.flagPos && !(l.crcStart <= i < l.dataStart) ==> Rewrite(s, l, doLock)[i] == s[i]
    ensures Rewrite(s, l, doLock)[l.flagPos] & !l.mask == s[l.flagPos] & !l.mask
    ensures IsLocked(Rewrite(s, l, doLock), l) == doLock
    ensures ChecksumValid(Rewrite(s, l, doLock), l)
  {
    var t := Flipped(s, l, doLock);
    var r := Stamped(t, l);
    LoadStoreLE(t, l.crcStart, l.crcWidth, Crc32.Crc(Span(t, l)));
    assert Span(r, l) == Span(t, l);
  }

  /** The signature check only reads the signature bytes: 8 of them when RAR 5
      is detected, and otherwise 7 settle the answer, since the seventh byte of
      the RAR 2-4 signature rules out RAR 5. */
  lemma {:induction false} DetectFrame(s: seq<bv8>, t: seq<bv8>)
    requires Detect(s).Ok? && |t| == |s|
    requires forall i :: 0 <= i < |Rar4Signature| ==> t[i] == s[i]
    requires Detect(s) == Ok(Rar5) ==> t[|Rar4Signature|] == s[|Rar4Signature|]
    ensures Detect(t) == Detect(s)
  {
    if Detect(s) == Ok(Rar5) {
      assert t[..8] == s[..8];
    } else {
      assert t[..7] == s[..7];
      assert s[6] == s[..7][6] == 0x00;
    }
  }

  /** The layout does not move when the checksum field and the flag byte change. */
  lemma {:induction false} LocateFrame(s: seq<bv8>, t: seq<bv8>, readBytes: nat)
    requires |t| == |s| && Locate(s, readBytes).Ok?
    requires forall i :: (0 <= i < |s| && i != Locate(s, readBytes).value.flagPos
      && !(Locate(s, readBytes).value.crcStart <= i < Locate(s, readBytes).value.dataStart)) ==> t[i] == s[i]
    ensures Locate(t, readBytes) == Locate(s, readBytes)
  {
    var l := Locate(s, readBytes).value;
    DetectFrame(s, t);
    ResolveFrame(s, t, l.format);
  }

  /** Lock bits 0x04 and 0x10 are single bits: changing one and changing it back
      restores the flag byte. */
  lemma {:induction false} FlagRestored(b: bv8, mask: bv8, doLock: bool)
    requires mask == 0x04 || mask == 0x10
    requires (b & mask != 0) == !doLock
    ensures SetFlag(SetFlag(b, mask, doLock), mask, !doLock) == b
  {}

  /** A run that writes changes the buffer only within the range it writes back,
      which lies within the 256-byte buffer, and only in the checksum field and the
      lock bit; afterwards the header is found at the same place, its checksum
      matches and its lock bit is as requested. */
  lemma {:induction false} SetLockEffect(s: seq<bv8>, readBytes: nat, doLock: bool)
    requires Plan(s, readBytes, doLock).Ok? && Plan(s, readBytes, doLock).value.Written?
    ensures
      var l := Locate(s, readBytes).value;
      var w := Plan(s, readBytes, doLock).value;
      var t := After(s, readBytes, doLock);
      && |t| == |s|
      && w.start + w.count <= |s|
      && (forall i :: 0 <= i < |s| && !(w.start <= i < w.start + w.count) ==> t[i] == s[i])
      && (forall i :: l.dataStart <= i < l.flagPos ==> t[i] == s[i])
      && t[l.flagPos] & !l.mask == s[l.flagPos] & !l.mask
      && Locate(t, readBytes) == Ok(l)
      && ChecksumValid(t, l)
      && IsLocked(t, l) == doLock
  {
    var l := Locate(s, readBytes).value;
    var t := After(s, readBytes, doLock);
    assert t == Rewrite(s, l, doLock);
    RewriteEffect(s, l, doLock);
    LocateFrame(s, t, readBytes);
  }

  /** Running a second time with the same request changes nothing. */
  lemma {:induction false} Idempotent(s: seq<bv8>, readBytes: nat, doLock: bool)
    requires Plan(s, readBytes, doLock).Ok?
    ensures Plan(After(s, readBytes, doLock), readBytes, doLock) == Ok(AlreadyInState)
    ensures After(After(s, readBytes, doLock), readBytes, doLock) == After(s, readBytes, doLock)
  {
    if Plan(s, readBytes, doLock).value.Written? {
      SetLockEffect(s, readBytes, doLock);
    }
  }

  /** Changing the lock bit back after a rewrite restores every byte outside the
      checksum field. */
  lemma {:induction false} FlagUndone(s: seq<bv8>, l: Layout, doLock: bool)
    requires WellFormed(l, |s|) && IsLocked(s, l) != doLock
    ensures |Flipped(Rewrite(s, l, doLock), l, !doLock)| == |s|
    ensures forall i :: 0 <= i < |s| && !(l.crcStart <= i < l.dataStart) ==> Flipped(Rewrite(s, l, doLock), l, !doLock)[i] == s[i]
  {
    RewriteEffect(s, l, doLock);
    FlagRestored(s[l.flagPos], l.mask, doLock);
  }

  /** Rewriting a header with a matching checksum to the other lock state and
      back gives back the header. */
  lemma {:induction false} RewriteUndone(s: seq<bv8>, l: Layout, doLock: bool)
    requires WellFormed(l, |s|) && ChecksumValid(s, l) && IsLocked(s, l) != doLock
    ensures Rewrite(Rewrite(s, l, doLock), l, !doLock) == s
  {
    var u := Flipped(Rewrite(s, l, doLock), l, !doLock);
    FlagUndone(s, l, doLock);
    assert Span(u, l) == Span(s, l);
    StoreRestores(s, u, l.crcStart, l.crcWidth, Crc32.Crc(Span(s, l)));
  }

  /** Locking an unlocked archive and then unlocking it (or the reverse) gives
      back the bytes the archive started with. */
  lemma {:induction false} LockUnlock(s: seq<bv8>, readBytes: nat, doLock: bool)
    requires Plan(s, readBytes, doLock).Ok? && Plan(s, readBytes, doLock).value.Written?
    ensures Plan(After(s, readBytes, doLock), readBytes, !doLock) == Plan(s, readBytes, doLock)
    ensures After(After(s, readBytes, doLock), readBytes, !doLock) == s
  {
    var l := Locate(s, readBytes).value;
    var t := After(s, readBytes, doLock);
    assert t == Rewrite(s, l, doLock) && Locate(t, readBytes) == Ok(l) && ChecksumValid(t, l) && IsLocked(t, l) == doLock by {
      SetLockEffect(s, readBytes, doLock);
    }
    RewriteUndone(s, l, doLock);
  }

  /** A RAR 5 archive whose main header has type 4 is refused once its leading
      fields are read, whatever its checksum, and the buffer is left untouched. */
  lemma {:induction false} EncryptedRefused(s: seq<bv8>, readBytes: nat, doLock: bool)
    requires 0 < readBytes && HasPrefix(s, Rar5Signature)
    requires DecodeHead(s).Ok? && DecodeHead(s).value.kind.value == EncryptedHeaderType5
    ensures Plan(s, readBytes, doLock) == Err(EncryptedHeader)
    ensures After(s, readBytes, doLock) == s
  {
    ResolveRar5(s, DecodeHead(s).value);
  }

  /** A header whose checksum does not match is refused and left untouched. */
  lemma {:induction false} CorruptRefused(s: seq<bv8>, readBytes: nat, doLock: bool)
    requires Locate(s, readBytes).Ok? && !ChecksumValid(s, Locate(s, readBytes).value)
    ensures Plan(s, readBytes, doLock) == Err(HeaderCorrupt)
    ensures After(s, readBytes, doLock) == s
  {}
}
