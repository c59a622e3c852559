# rarUnlocker, modelled in Dafny

rarUnlocker sets or clears the "locked" flag of a RAR archive. A locked archive
refuses changes. The tool reads the first 256 bytes of the file into a
zero-filled buffer. It recognises a RAR 2-4 or a RAR 5 signature and finds the
main archive header. It checks the header's stored CRC-32 against the bytes
the CRC covers. If the lock bit is not yet as requested, it flips the bit,
recomputes the CRC, stores it, and writes the bytes from the checksum field
through the flag byte back to the file.

This project models that core and proves properties of the model:

- `common.dfy` (module `Common`): the error kinds, a `Result` type, and the
  little-endian checksum field with its load and store.
- `vint.dfy` (module `Vint`): the `vint` decoder. It is a loop over an array,
  proved against a recursive specification. A reference encoder is added to
  state the round trip.
- `crc32.dfy` (module `Crc32`): `crc32_for_byte` and `crc32` as loops over
  `bv32`, proved against a byte-by-byte specification.
- `header.dfy` (module `Header`): signature detection and the header layout.
  RAR 2-4 has fixed offsets. RAR 5 has offsets placed by the lengths of the
  header's leading vints.
- `unlocker.dfy` (module `Unlocker`): the checksum check and the lock toggle.
  These are methods that change the buffer in place, each specified by a
  function of the old buffer. The lemmas cover what a run changes,
  idempotence, and lock-then-unlock.

The buffer is an `array<bv8>` of 256 bytes. Its first `readBytes` bytes came
from the file. The source reads the signatures and the header fields from the
buffer itself, including the zeros past `readBytes`, and so does the model.

## Model

| member | source | states |
|---|---|---|
| `Common.StoreLE` | rarUnlocker.c:170-174 | storing the checksum field keeps the buffer's length and every byte outside the field |
| `Common.LoadStoreLE` | rarUnlocker.c:171-174 | reading back a stored field gives the stored CRC cut to the field's width (the `(uint16_t)` cast for RAR 2-4) |
| `Common.StoreLoadLE` | rarUnlocker.c:144-147 | storing back the value just read from a field leaves the buffer unchanged |
| `Common.StoreRestores` | rarUnlocker.c:168-174 | storing a value whose truncation the original field already holds, into a buffer that differs only inside that field, gives back the original buffer |
| `Common.StoreField` | rarUnlocker.c:171-174 | the in-place store through the `uint16_t*`/`uint32_t*` cast is the little-endian `StoreLE` of the old buffer |
| `Vint.Read` | rarUnlocker.c:186-197 | the do-while loop returns exactly `Decode` of the buffer at the start position |
| `Vint.Decode` | rarUnlocker.c:186-197 | a decoded vint occupies at least one byte, lies within the buffer and has a value below 2^32; the only failure is running off the buffer |
| `Vint.DecodeOk` | rarUnlocker.c:189-193 | a decoded vint ends at the first byte whose high bit is clear, and its value is the accumulator over its bytes |
| `Vint.DecodeEnds` | rarUnlocker.c:189-193 | conversely, wherever the first byte with the high bit clear lies, decoding ends there with that accumulator |
| `Vint.DecodeTruncated` | rarUnlocker.c:189-193 | decoding fails exactly when every byte from the start position to the end of the buffer has its high bit set |
| `Vint.AccumulateIsDigits` | rarUnlocker.c:188-191 | the value is the 7-bit payloads read as base-128 digits, first byte most significant, modulo 2^32 |
| `Vint.ShortDigitsFit` | rarUnlocker.c:188-191 | a vint of at most four bytes never wraps around |
| `Vint.EncodeDecode` | rarUnlocker.c:186-197 | decoding the reference encoding of `n` consumes exactly its bytes, whatever follows, and yields `n` modulo 2^32 |
| `Vint.DecodeFrame` | rarUnlocker.c:186-197 | a vint decodes the same in any buffer that agrees on the bytes it occupies |
| `Crc32.CrcForByte` | rarUnlocker.c:203-207 | the eight-pass loop yields the register after eight polynomial rounds, folded with 0xFF000000 |
| `Crc32.Compute` | rarUnlocker.c:208-213 | the loop over the span yields `Crc` of exactly those bytes |
| `Crc32.CrcAppend` | rarUnlocker.c:210-211 | appending a byte performs exactly one more step of the loop |
| `Crc32.CrcConcat` | rarUnlocker.c:208-213 | the CRC streams: the CRC of `s + t` is the steps over `t` started from the CRC of `s` |
| `Crc32.CheckValue` | rarUnlocker.c:203-213 | this is the standard CRC-32: the CRC of "123456789" is 0xCBF43926 |
| `Header.SignaturesExclusive` | rarUnlocker.c:46-47 | no buffer starts with both signatures |
| `Header.Detect` | rarUnlocker.c:83-92 | RAR 5 exactly when the buffer starts with the 8-byte RAR 5 signature, RAR 2-4 exactly when it starts with the 7-byte RAR 2-4 signature, NotRar exactly when it starts with neither |
| `Header.DecodeHead` | rarUnlocker.c:104-111 | the size, type and flags vints are read one after the other from offset 12; each takes at least one byte, all lie within the buffer, and the only failure is running off the buffer |
| `Header.FlagOffset` | rarUnlocker.c:118-121 | with flags bit 0 clear the offset is the three vints' total length; with it set it is longer by the extra-area vint, which must fit in the buffer |
| `Header.Resolve` | rarUnlocker.c:103-136 | with the offsets and masks of lines 26-45, every layout found is well formed: the checksum field sits right before the data, the data and the flag byte lie within the buffer, the mask is 0x04 or 0x10, and the written range runs from the checksum field through the flag byte; RAR 2-4 gets the fixed layout exactly when its 11 checksummed bytes from offset 9 lie within the buffer (always so for the 256-byte buffer), and is otherwise refused as truncated |
| `Header.Rar5Layout` | rarUnlocker.c:123-127 | the RAR 5 layout is returned exactly when the checksummed span and the flag byte fit in the buffer |
| `Header.HeadRoundTrip` | rarUnlocker.c:106-111 | leading fields laid out by the reference encoder decode to their values and encoded lengths |
| `Header.FlagOffsetEncoded` | rarUnlocker.c:118-121 | after such fields, the flag offset adds the encoded length of the extra-area size exactly when flags bit 0 is set |
| `Header.ResolveEncoded` | rarUnlocker.c:103-127 | for a RAR 5 header whose size, type (not 4), flags and, when flags bit 0 is set, extra-area size are laid out as consecutive vints from offset 12, a layout is found exactly when the span and the flag byte fit in the buffer, and it is: checksum the 4 bytes at 8, data from 12 for the encoded size length plus the size (modulo 2^32), flag byte at 12 plus the length of those vints, lock bit 0x10, and the bytes from 8 through the flag byte written back |
| `Header.ReadHead` | rarUnlocker.c:104-111 | the three `vint` calls on the buffer return exactly `DecodeHead` |
| `Header.ResolveLayout` | rarUnlocker.c:103-136 | the layout code of `main` on the buffer returns exactly `Resolve` |
| `Header.DecodeHeadFrame` | rarUnlocker.c:104-111 | the leading fields depend only on the bytes they occupy |
| `Header.FlagOffsetFrame` | rarUnlocker.c:118-121 | the flag offset depends only on the extra-area vint's bytes |
| `Header.ResolveFrame` | rarUnlocker.c:103-136 | the layout is the same in any buffer of the same length that agrees on the bytes from the data start up to the flag byte, so the checksum field and the flag byte can change without moving it |
| `Unlocker.Locate` | rarUnlocker.c:77-136 | an empty read is refused; NotRar exactly when neither signature matches; a layout found is well formed and matches the detected format |
| `Unlocker.SetFlag` | rarUnlocker.c:161-164 | only the lock bit changes, and it ends up set exactly when locking |
| `Unlocker.Decide` | rarUnlocker.c:141-159 | refuses with HeaderCorrupt exactly when the stored checksum (32 bits for RAR 5, the low 16 for RAR 2-4) differs from the CRC of the span; does nothing exactly when the lock bit already is as requested; otherwise writes from the checksum field through the flag byte |
| `Unlocker.Find` | rarUnlocker.c:77-136 | the read check, detection and layout code return exactly `Locate` |
| `Unlocker.CheckHeader` | rarUnlocker.c:141-147 | the checksum comparison answers exactly `ChecksumValid` |
| `Unlocker.Flip` | rarUnlocker.c:161-164 | setting or clearing the lock bit in place leaves the buffer as `Flipped` of the old one |
| `Unlocker.Stamp` | rarUnlocker.c:168-174 | storing the recomputed CRC leaves the buffer as `Stamped` of the old one |
| `Unlocker.Apply` | rarUnlocker.c:141-174 | returns `Decide` of the old buffer and leaves the buffer as `Applied` |
| `Unlocker.SetLock` | rarUnlocker.c:77-174 | returns `Plan` of the old buffer and leaves the buffer as `After`, which is the old buffer on every refusal and no-op |
| `Unlocker.RewriteEffect` | rarUnlocker.c:161-174 | the rewrite changes only the checksum field and the lock bit, sets the lock bit as requested, and leaves a matching checksum |
| `Unlocker.DetectFrame` | rarUnlocker.c:83-92 | detection depends only on the first 7 bytes for RAR 2-4 and the first 8 for RAR 5 |
| `Unlocker.LocateFrame` | rarUnlocker.c:83-136 | the layout is the same in a buffer that differs only in the checksum field and the flag byte |
| `Unlocker.FlagRestored` | rarUnlocker.c:161-164 | setting and then clearing a lock bit (or the reverse) restores the flag byte |
| `Unlocker.SetLockEffect` | rarUnlocker.c:161-177 | a run that writes changes only bytes inside its write range; inside it only the checksum field and the lock bit change; afterwards the layout is unchanged, the checksum matches and the lock bit is as requested |
| `Unlocker.Idempotent` | rarUnlocker.c:154-159 | a second run with the same request finds the archive already in that state and changes nothing |
| `Unlocker.FlagUndone` | rarUnlocker.c:161-164 | flipping the lock bit back after a rewrite restores every byte outside the checksum field |
| `Unlocker.RewriteUndone` | rarUnlocker.c:141-174 | rewriting a header with a valid checksum to the other state and back gives back the header |
| `Unlocker.LockUnlock` | rarUnlocker.c:141-177 | locking then unlocking (or the reverse) plans the same write range both times and restores the buffer exactly |
| `Unlocker.EncryptedRefused` | rarUnlocker.c:113-116 | a RAR 5 header of type 4 is refused whatever its checksum, and the buffer is untouched |
| `Unlocker.CorruptRefused` | rarUnlocker.c:149-152 | a header whose stored checksum does not match is refused and the buffer is untouched |

## Left out

- Argument parsing and usage text (rarUnlocker.c:14-18, 50-67): `doLock` is a parameter.
- File I/O (`fopen`, `fread`, `fseek`, `fwrite`, `perror`) and the status messages. `readBytes` is a parameter. The write is returned as `Written(start, count)`. The `fwrite` failure path is not modelled.
- The `calloc` allocation: the buffer is a 256-byte array passed in. The model reads whatever it holds past `readBytes`. In the source that is zeros.
- Vint.Decode: the source's `vint` reads on without a bound. The model returns Err(Truncated) where the continuation chain would run off the 256-byte buffer. This is a deliberate strengthening.
- Header.Resolve: the source computes the CRC and reaches the flag byte without checking that they lie in the buffer. The model returns Err(Truncated) when the span or the flag byte would leave the 256-byte buffer. This is a deliberate strengthening too. Within the buffer, bytes past `readBytes` are used as the source uses them.
- Header.Resolve: the flag byte is not required to lie inside the checksummed span, since the source does not check this. The toggle and round-trip lemmas hold without it, because the flag byte never overlaps the checksum field.
- Host endianness: the source's `uint16_t*`/`uint32_t*` casts are modelled as explicit little-endian loads and stores, the byte order of the hosts the tool runs on.
- Vint.AccumulateIsDigits: the decoder is modelled as written, first byte most significant. The RAR 5 format stores vints least significant group first. The two agree on one-byte vints and on vints whose payload digits read the same both ways, and differ in general (`[0x81, 0x02]` is 130 as written and 257 in the format).
- Crc32.Compute: the CRC's error-detecting strength is not modelled. A header whose bytes change while its checksum still matches is treated as valid, as in the source.
