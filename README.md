# MRG archive decoder (fc01/mrg), modelled in Dafny

This project models `src/fmt/fc01/mrg_archive_decoder.cc` from arc_unpacker.
That file is the decoder for the MRG archives of FC01 engine games.

An MRG archive is laid out as follows:
- the magic `"MRG\0"`;
- four bytes the decoder skips;
- a u32 from which the length of the table is derived;
- the u32 entry count;
- the file table. It is stored scrambled: each byte is rotated and XORed
  with a running 8-bit key. The key is stored nowhere.

The decoder recovers the key from one known fact: the last four bytes of the
plain table are the archive's size, as a little-endian u32. It then
descrambles the table in place and parses it in two passes:
- pass 1 reads the 32-byte records: a 14-byte name, `size_orig`, `filter`,
  nine unused bytes and `offset`;
- pass 2 sets each entry's `size_comp` to the next record's offset minus its
  own, as a u32.

Each entry's stored bytes are then optionally decrypted and optionally
decompressed. The results are handed to the file saver, in table order.

Details of the format as the code fixes them, which the model follows:
- Filter 2 decrypts and then decompresses; filters 3 and above only decrypt (lines 92-101).
- Records are 32 bytes apart (lines 69-73 read 14 + 4 + 1 + 9 + 4 bytes).
- The header has four skipped bytes, the table length field at offset 8 and the count at offset 12 (lines 52-54).
- Files saved before a failing entry stay saved (lines 134-135).

The model is imperative where the decoder is:
- the stream is a class with a cursor;
- `guess_key`'s walk and rewind, the in-place descrambling loop and both
  table passes are loops over arrays, with invariants;
- every method is proved against a specification function (`RecoverKey`,
  `Descrambled`, `ParseTable`, `TableAt`, `ExtractEntry`, `ExtractAll`).

The properties of those functions are proved as lemmas. The central ones:
- **Agreement** (`KeyRecoverySound`): after descrambling with the recovered
  key, the table ends with the archive size.
- **Completeness and uniqueness** (`KeyRecoveryComplete`, `KeyIsUnique`):
  every key that makes the table end with the size is the key found.
- **Round trip** (`ArchivedTableRecovers`, built on `ScrambledTableRecovers`
  and `ParseEncodedTable`): a table written and scrambled by an archiver is
  read back exactly.

Files:
- `bytes.dfy`: bytes, u32, rotation, XOR, little-endian fields and
  zero-terminated names (modules `Bytes` and `Outcomes`);
- `stream.dfy`: the cursor over the archive bytes (`Io`);
- `key_recovery.dfy`: the key schedule, `guess_key` and descrambling
  (`KeyRecovery`);
- `table.dfy`: `read_table` (`MrgTable`);
- `decoder.dfy`: recognition, `read_file` and `unpack_internal` (`MrgDecoder`).

## Model

| member | source | states |
|---|---|---|
| Bytes.Rol1IsRotation | src/fmt/fc01/mrg_archive_decoder.cc:33 | rol8(x, 1), which Rol1 computes by cases, shifts the byte left by one bit within eight bits, and the bit shifted out enters at the bottom |
| Bytes.RotationsInvert | src/fmt/fc01/mrg_archive_decoder.cc:33 | rol8 by one bit is a bijection on bytes: the right rotation undoes it, in both orders |
| Bytes.XorCancel | src/fmt/fc01/mrg_archive_decoder.cc:60 | XORing a byte with the same key byte twice gives the byte back |
| Bytes.XorSolve | src/fmt/fc01/mrg_archive_decoder.cc:34-36 | the key byte is determined by the rotated table byte and the byte it has to turn into, so line 36 yields the top byte of the file size |
| Bytes.LE32 | src/fmt/fc01/mrg_archive_decoder.cc:70 | a little-endian u32 field: its low byte is the field's first byte and its top byte the fourth |
| Bytes.U32Bytes | src/fmt/fc01/mrg_archive_decoder.cc:73 | the writing side of a u32 field: four bytes that read back as the value |
| Bytes.TrimAtZero | src/fmt/fc01/mrg_archive_decoder.cc:69 | the name read from a 14-byte field is a prefix of the field with no zero byte, and it ends at a zero byte when shorter than the field |
| Bytes.TrimAtZeroOfPadded | src/fmt/fc01/mrg_archive_decoder.cc:69 | a name without zero bytes, padded with zeros, reads back unchanged |
| Io.Stream.constructor | src/fmt/fc01/mrg_archive_decoder.cc:64 | a stream over the descrambled table starts at position 0 |
| Io.Stream.Seek | src/fmt/fc01/mrg_archive_decoder.cc:90 | succeeds exactly when the target lies within the stream; the cursor moves only on success |
| Io.Stream.Skip | src/fmt/fc01/mrg_archive_decoder.cc:52 | a seek relative to the cursor, with the same failure rule |
| Io.Stream.Read | src/fmt/fc01/mrg_archive_decoder.cc:56 | returns the n bytes at the cursor and advances past them, or fails, leaving the cursor, when fewer remain |
| Io.Stream.ReadU8 | src/fmt/fc01/mrg_archive_decoder.cc:71 | the byte at the cursor, or a failure at the end of the stream |
| Io.Stream.ReadU32Le | src/fmt/fc01/mrg_archive_decoder.cc:54 | the little-endian u32 at the cursor, or a failure when fewer than four bytes remain |
| Io.Stream.ReadToZero | src/fmt/fc01/mrg_archive_decoder.cc:69 | consumes the whole n-byte field and returns its bytes before the first zero |
| KeyRecovery.KeyAt | src/fmt/fc01/mrg_archive_decoder.cc:58-62 | the u8 key the loop holds at byte j of an n-byte table: starting from k0 it grows by n - i after byte i, so it is k0 + (n-j+1) + ... + n mod 256 |
| KeyRecovery.Descrambled | src/fmt/fc01/mrg_archive_decoder.cc:58-62 | descrambling keeps the table's length |
| KeyRecovery.DescrambleScrambled | src/fmt/fc01/mrg_archive_decoder.cc:58-62 | descrambling with key k undoes an archiver's scrambling with k |
| KeyRecovery.ScrambleDescrambled | src/fmt/fc01/mrg_archive_decoder.cc:58-62 | descrambling loses nothing: scrambling its output again gives back the raw table |
| KeyRecovery.Probed | src/fmt/fc01/mrg_archive_decoder.cc:37-42 | after s steps last_offset fits in s + 1 bytes and its low byte is the byte just recovered |
| KeyRecovery.ShiftFits | src/fmt/fc01/mrg_archive_decoder.cc:41 | shifting last_offset left by 8 bits during the walk never loses a bit |
| KeyRecovery.ProbeStep | src/fmt/fc01/mrg_archive_decoder.cc:39-41 | one step of the walk takes the key and last_offset from step s to step s + 1 |
| KeyRecovery.ProbedUnfolds | src/fmt/fc01/mrg_archive_decoder.cc:37-42 | after four steps, last_offset is the little-endian u32 of the four recovered bytes in table order |
| KeyRecovery.WalkStart | src/fmt/fc01/mrg_archive_decoder.cc:33-36 | the starting key is the key of the last table byte, and last_offset starts as the top byte of the file size |
| KeyRecovery.WalkStep | src/fmt/fc01/mrg_archive_decoder.cc:39-41 | one walk step lowers the key by pos and shifts in the next byte recovered from the end |
| KeyRecovery.Rewind | src/fmt/fc01/mrg_archive_decoder.cc:45-46 | lowering the key by pos + 1, ..., size gives the key of table byte 0 |
| KeyRecovery.CheckAndRewind | src/fmt/fc01/mrg_archive_decoder.cc:43-47 | a mismatch with the file size fails with KeyNotFound, with no second candidate; otherwise the result is the rewound key |
| KeyRecovery.RecoverKey | src/fmt/fc01/mrg_archive_decoder.cc:31-48 | guess_key's outcome: the rewound key when the table has at least four bytes and the value rebuilt from its last four bytes equals the file size, otherwise KeyNotFound, the only error |
| KeyRecovery.GuessKey | src/fmt/fc01/mrg_archive_decoder.cc:31-48 | returns a key exactly when the table has at least four bytes and the value rebuilt from its last four bytes equals the file size; that key is the rewound one |
| KeyRecovery.GuessKeyAsWritten | src/fmt/fc01/mrg_archive_decoder.cc:31-48 | the loop as written reads outside the table for tables of 0, 1 and 4 bytes, skips the walk for 2 and 3 bytes, and agrees with GuessKey from 5 bytes up |
| KeyRecovery.TopByteOnlyForZero | src/fmt/fc01/mrg_archive_decoder.cc:43 | when the walk is skipped, the size check passes only for an empty archive |
| KeyRecovery.Descramble | src/fmt/fc01/mrg_archive_decoder.cc:58-62 | the in-place loop leaves rol8(raw[i]) ^ k_i in byte i, where k_{i+1} = k_i + (size - i) mod 256 |
| KeyRecovery.RewindMatchesProbe | src/fmt/fc01/mrg_archive_decoder.cc:45-47 | descrambling from the rewound key uses, for each byte the walk read, exactly the key the walk used |
| KeyRecovery.ProbedIsDescrambledTail | src/fmt/fc01/mrg_archive_decoder.cc:37-42 | the value the walk rebuilds is the last four descrambled table bytes read as a little-endian u32 |
| KeyRecovery.KeyRecoverySound | src/fmt/fc01/mrg_archive_decoder.cc:31-62 | when a key is recovered, the descrambled table ends with the archive size as a little-endian u32 |
| KeyRecovery.KeyRecoveryComplete | src/fmt/fc01/mrg_archive_decoder.cc:31-48 | any key under which the descrambled table ends with the archive size is recovered |
| KeyRecovery.RewoundKeyIsKey | src/fmt/fc01/mrg_archive_decoder.cc:45-46 | for such a key, rewinding the last byte's key lands on it |
| KeyRecovery.RewindUndoesSchedule | src/fmt/fc01/mrg_archive_decoder.cc:45-46 | lowering the last byte's key by 2 + ... + n gives back the starting key |
| KeyRecovery.KeyIsUnique | src/fmt/fc01/mrg_archive_decoder.cc:43-44 | at most one key makes the table end with the archive size |
| KeyRecovery.KeyRecoveryReadsLastFour | src/fmt/fc01/mrg_archive_decoder.cc:33-42 | the outcome depends only on the table's length and its last four bytes |
| KeyRecovery.DescrambledRecovers | src/fmt/fc01/mrg_archive_decoder.cc:31-62 | a table that descrambles under some key to a table ending with the archive size yields exactly that key |
| KeyRecovery.ScrambledTableRecovers | src/fmt/fc01/mrg_archive_decoder.cc:56-62 | a table scrambled with any key, whose plain form ends with the archive size, yields that key and descrambles to the plain table |
| MrgTable.TableSize | src/fmt/fc01/mrg_archive_decoder.cc:53 | the header field minus 16, wrapping in u32 below 12 and in size_t from 12 to 15 |
| MrgTable.Record | src/fmt/fc01/mrg_archive_decoder.cc:66-75 | what pass 1 reads from record i at offset 32i: as name the field's bytes before its first zero (all 14 when it has none), size_orig from bytes 14-17, filter from byte 18, and the record's offset field; size_comp not yet set |
| MrgTable.Entry | src/fmt/fc01/mrg_archive_decoder.cc:77-82 | entry i after pass 2: record i with only size_comp changed, so that offset + size_comp is the next record's offset field, in u32 |
| MrgTable.ParseTable | src/fmt/fc01/mrg_archive_decoder.cc:64-84 | succeeds exactly when the table holds count + 1 records, with exactly count entries in record order; entry i keeps every pass-1 field of record i, and its size_comp is the u32 gap to the next record's offset field |
| MrgTable.SizesAreOffsetGaps | src/fmt/fc01/mrg_archive_decoder.cc:77-82 | size_comp[i] = offset[i+1] - offset[i] mod 2^32 |
| MrgTable.LastEntryEndsAtTableEnd | src/fmt/fc01/mrg_archive_decoder.cc:77-82 | for a table of exactly count + 1 records, count >= 1, that ends with the archive size, the last entry's data ends at the archive's end |
| MrgTable.GapReachesEnd | src/fmt/fc01/mrg_archive_decoder.cc:81 | an offset plus its u32 gap to the next offset is the next offset, in u32 |
| MrgTable.EncodeRecord | src/fmt/fc01/mrg_archive_decoder.cc:66-75 | an archiver's record takes exactly one 32-byte slot |
| MrgTable.EncodeTable | src/fmt/fc01/mrg_archive_decoder.cc:64-84 | an archiver's table of n entries has n + 1 records |
| MrgTable.RecordOfEncoded | src/fmt/fc01/mrg_archive_decoder.cc:69-73 | pass 1 reads back every field an archiver writes into a record |
| MrgTable.RecordIsLocal | src/fmt/fc01/mrg_archive_decoder.cc:66-75 | record i is read from bytes 32i to 32i + 32 only |
| MrgTable.RecordOfEncodedTable | src/fmt/fc01/mrg_archive_decoder.cc:66-82 | in an archiver's table, record i is entry i, and the record after the last holds the closing offset |
| MrgTable.ParseEncodedTable | src/fmt/fc01/mrg_archive_decoder.cc:64-84 | parsing an archiver's table gives back its entries, each size_comp being the gap to the next offset |
| MrgTable.ArchivedTableRecovers | src/fmt/fc01/mrg_archive_decoder.cc:50-84 | an archiver's table closed by the archive size and scrambled with any key is unscrambled into the archiver's entries with their sizes |
| MrgTable.ParseEntries | src/fmt/fc01/mrg_archive_decoder.cc:64-84 | both passes over a stream and an entry array compute ParseTable |
| MrgTable.ReadRecords | src/fmt/fc01/mrg_archive_decoder.cc:66-75 | pass 1 fills slot i with record i, read from offset 32i, and fails when a record runs past the table |
| MrgTable.ReadRecord | src/fmt/fc01/mrg_archive_decoder.cc:68-74 | name, size_orig, filter, 9 skipped bytes and offset of record i, leaving the cursor at the next record |
| MrgTable.FillSizes | src/fmt/fc01/mrg_archive_decoder.cc:77-82 | pass 2 succeeds exactly when the record after the last entry exists, and then changes each entry's size_comp and nothing else |
| MrgTable.ReadNextOffset | src/fmt/fc01/mrg_archive_decoder.cc:80-81 | each pass-2 read is the offset field of the next record |
| MrgTable.Unscrambled | src/fmt/fc01/mrg_archive_decoder.cc:57-84 | key recovery, descrambling and both passes on the raw table: fails with KeyNotFound exactly when key recovery fails, and otherwise gives count entries from a table of at least count + 1 records |
| MrgTable.TableAt | src/fmt/fc01/mrg_archive_decoder.cc:50-85 | read_table's outcome on the archive bytes: on success the header and the whole scrambled table lie within the archive, and it has as many entries as the count field says |
| MrgTable.ReadTable | src/fmt/fc01/mrg_archive_decoder.cc:50-85 | read_table's outcome is TableAt, and on success the cursor rests just past the scrambled table |
| MrgTable.ReadHeader | src/fmt/fc01/mrg_archive_decoder.cc:52-54 | skips four bytes, then reads the table length field and the entry count, failing on a short stream |
| MrgTable.ReadScrambled | src/fmt/fc01/mrg_archive_decoder.cc:56-62 | reads the scrambled table, failing when the archive is shorter than the derived length |
| MrgTable.UnscrambleTable | src/fmt/fc01/mrg_archive_decoder.cc:57-84 | recovers the key from the archive size, descrambles in place and parses |
| MrgDecoder.IsRecognized | src/fmt/fc01/mrg_archive_decoder.cc:125-128 | recognised exactly when the four bytes at the cursor are "MRG\0"; a shorter stream is a failed read; the cursor moves 4 bytes on after a read and stays put after a failed one |
| MrgDecoder.Filtered | src/fmt/fc01/mrg_archive_decoder.cc:92-101 | filter 0 keeps the stored bytes, 1 decompresses, 2 decrypts then decompresses, 3 and above only decrypt; decompression yields at most size_orig bytes |
| MrgDecoder.ExtractEntry | src/fmt/fc01/mrg_archive_decoder.cc:87-105 | an entry extracts exactly when its stored bytes lie within the archive; the file keeps the entry's name, and with filter 0 it is exactly the size_comp bytes at offset |
| MrgDecoder.ReadFile | src/fmt/fc01/mrg_archive_decoder.cc:87-105 | seek, read and filter compute ExtractEntry, and on success leave the cursor at offset + size_comp |
| MrgDecoder.Saver.Save | src/fmt/fc01/mrg_archive_decoder.cc:135 | the saver appends the file it is given |
| MrgDecoder.ExtractAll | src/fmt/fc01/mrg_archive_decoder.cc:134-135 | the files saved are the extractions of a prefix of the table, in order, and the run fails exactly at the first entry that fails, with its error |
| MrgDecoder.ExtractAllStopsAtFirstFailure | src/fmt/fc01/mrg_archive_decoder.cc:134-135 | that prefix and that error determine the outcome completely |
| MrgDecoder.SaveAll | src/fmt/fc01/mrg_archive_decoder.cc:134-135 | the loop saves each entry's file before it reads the next, so the files before a failing entry stay saved |
| MrgDecoder.Unpacking | src/fmt/fc01/mrg_archive_decoder.cc:130-136 | unpack_internal's outcome: nothing is saved when the table cannot be read, and the run fails with the table's error; otherwise it is the extraction of the table's entries in order |
| MrgDecoder.Unpack | src/fmt/fc01/mrg_archive_decoder.cc:130-136 | skips the magic, reads the table, and saves the entries' files in table order, up to the first failure |

## Left out

- `MrgDecryptor` and `custom_lzss_decompress` (lines 96-100) are not part of this model. They are the two function fields of `Filters`, and decompression errors are not modelled.
- MrgDecoder.Filtered: the bound of size_orig bytes on decompressed output holds only under the hypothesis `DecompressesWithin`, because the decompressor is not part of this model.
- The nested decoders and their registration through `add_decoder` (lines 107-119), and `fmt::Registry::add` (line 138), are plumbing and not part of this model.
- On-disk output is not modelled. The saver keeps the files it is given as a sequence.
- Every bounds error of the stream is the single error `UnexpectedEof`. The stream's own implementation is not part of this model.
- Pass 1 leaves `size_comp` uninitialised. The model gives it 0 until pass 2 fills it in.
- Allocating `file_count` entries (line 65) cannot fail in the model. The source can run out of memory for a hostile count.
- KeyRecovery.GuessKeyAsWritten: requires tables shorter than 2^32 bytes. `pos` is a u32, and the rewind's wrap-around for longer tables is not modelled.
- The `|` at line 41 is modelled as `+`: the low byte of a value shifted left by 8 is zero.
- The file size is an unbounded natural number rather than a size_t. Archives of 2^64 bytes or more cannot exist.
- The guard of the guess_key walk is corrected in `GuessKey`, which every other member uses (see Findings).

## Findings

| source | as written | input that shows it | evidently intended | confidence | as-written member | corrected member |
|---|---|---|---|---|---|---|
| src/fmt/fc01/mrg_archive_decoder.cc:37 | the walk index is a size_t running from size-2 while `i >= size - 4` | A 4-byte table: `size - 4` is 0, so the guard never fails and the index wraps to 2^64 - 1, reading outside the table. Tables of 0 or 1 byte read outside it at line 33 or 40. Tables of 2 or 3 bytes skip the walk and compare a single byte with the size. | visit exactly the last four bytes; a table of fewer than four bytes cannot hold the size, so the guess fails | not executed | KeyRecovery.GuessKeyAsWritten | KeyRecovery.GuessKey |
