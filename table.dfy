/** The MRG archive table: how `read_table` finds, unscrambles and parses
    it.

    The archive starts with the magic, four bytes the decoder skips, a u32
    from which the table length is derived and the u32 entry count. The
    scrambled table follows. Once descrambled, it holds one 32-byte record
    per entry (14-byte zero-padded name, u32 size_orig, u8 filter, 9 unused
    bytes, u32 offset) and one more record whose offset field marks where
    the last entry's data ends.

    Line numbers in this module refer to src/fmt/fc01/mrg_archive_decoder.cc. */
module MrgTable {
  import opened Bytes
  import opened Outcomes
  import opened Io
  import opened KeyRecovery

  /** Width of the zero-padded name field. */
  const NameWidth: nat := 0x0E

  /** One table entry, field for field as the decoder keeps it. */
  datatype TableEntry = TableEntry(
    name: seq<Byte>,
    offset: U32,
    sizeOrig: U32,
    sizeComp: U32,
    filter: Byte)

  // ---------------------------------------------------------------------
  // The layout of a descrambled table
  // ---------------------------------------------------------------------

  /** What pass 1 reads from record i. Pass 1 does not set size_comp; the
      model sets it to 0 until pass 2 fills it in. */
  function Record(t: seq<Byte>, i: nat): (r: TableEntry)
    requires 0x20 * i + 0x20 <= |t|
    ensures r.name <= t[0x20 * i..0x20 * i + NameWidth] && 0 !in r.name
    ensures |r.name| < NameWidth ==> t[0x20 * i + |r.name|] == 0
    ensures r.sizeOrig == LE32(t, 0x20 * i + 14) && r.filter == t[0x20 * i + 18]
    ensures r.offset == OffsetField(t, i) && r.sizeComp == 0
  {
    var at := 0x20 * i;
    TableEntry(TrimAtZero(t[at..at + NameWidth]), LE32(t, at + 28), LE32(t, at + 14), 0, t[at + 18])
  }

  /** The offset field of record i. */
  function OffsetField(t: seq<Byte>, i: nat): U32
    requires 0x20 * i + 0x20 <= |t|
  {
    LE32(t, 0x20 * i + 28)
  }

  /** Entry i after both passes: the pass-1 fields of record i, and as
      size_comp the offset field of record i + 1 minus its own, as a u32. */
  function Entry(t: seq<Byte>, i: nat): (e: TableEntry)
    requires 0x20 * (i + 1) + 0x20 <= |t|
    ensures e.(sizeComp := 0) == Record(t, i)
    ensures (e.offset + e.sizeComp) % U32Modulus == OffsetField(t, i + 1)
  {
    GapReachesEnd(OffsetField(t, i), OffsetField(t, i + 1));
    Record(t, i).(sizeComp := (OffsetField(t, i + 1) - OffsetField(t, i)) % U32Modulus)
  }

  /** The table both passes of read_table build from a descrambled table of
      `count` entries; any read past the end of the table fails it. */
  function ParseTable(t: seq<Byte>, count: nat): (r: Result<seq<TableEntry>>)
    ensures r.Success? <==> 0x20 * (count + 1) <= |t|
    ensures r.Failure? ==> r.error == UnexpectedEof
    ensures r.Success? ==> |r.value| == count
    ensures r.Success? ==> forall i :: 0 <= i < count ==>
      r.value[i].sizeComp == (OffsetField(t, i + 1) - r.value[i].offset) % U32Modulus
    ensures r.Success? ==> forall i :: 0 <= i < count ==> r.value[i].(sizeComp := 0) == Record(t, i)
  {
    if |t| < 0x20 * (count + 1) then Failure(UnexpectedEof)
    else Success(seq(count, i requires 0 <= i < count => Entry(t, i)))
  }

  /** Two adjacent entries: each entry's size_comp is the distance, modulo
      2^32, to the next entry's offset. */
  lemma SizesAreOffsetGaps(t: seq<Byte>, count: nat, i: nat)
    requires ParseTable(t, count).Success?
    requires i + 1 < count
    ensures var es := ParseTable(t, count).value;
      es[i].sizeComp == (es[i + 1].offset - es[i].offset) % U32Modulus
  {
  }

  /** The last entry's data runs to the offset field of the record after
      the last entry; when that record ends the table, this is the value
      the key was recovered from, the archive size. */
  lemma LastEntryEndsAtTableEnd(t: seq<Byte>, count: nat, fileSize: nat)
    requires count >= 1
    requires |t| == 0x20 * (count + 1)
    requires LE32(t, |t| - 4) == fileSize
    ensures var es := ParseTable(t, count).value;
      (es[count - 1].offset + es[count - 1].sizeComp) % U32Modulus == fileSize
  {
    var es := ParseTable(t, count).value;
    var o := es[count - 1].offset;
    assert 0x20 * count + 28 == |t| - 4;
    assert OffsetField(t, count) == fileSize;
    assert es[count - 1].sizeComp == (fileSize - o) % U32Modulus;
    GapReachesEnd(o, fileSize);
  }

  /** Adding to a u32 its u32 distance to `end` lands on `end`. */
  lemma GapReachesEnd(o: U32, end: U32)
    ensures (o + (end - o) % U32Modulus) % U32Modulus == end
  {
    var q := (end - o) / U32Modulus;
    assert end - o == U32Modulus * q + (end - o) % U32Modulus;
    assert o + (end - o) % U32Modulus == end - U32Modulus * q;
    assert q == 0 || q == -1;
  }

  // ---------------------------------------------------------------------
  // Writing a table: the inverse of both passes
  // ---------------------------------------------------------------------

  function Zeros(n: nat): (z: seq<Byte>)
    ensures |z| == n && forall j :: 0 <= j < n ==> z[j] == 0
  {
    seq(n, _ => 0)
  }

  /** An entry a table can hold: a name that fits its field and has no
      zero byte. */
  predicate Storable(e: TableEntry)
  {
    |e.name| <= NameWidth && 0 !in e.name
  }

  predicate AllStorable(es: seq<TableEntry>)
  {
    forall i :: 0 <= i < |es| ==> Storable(es[i])
  }

  /** The 32 bytes of one record. */
  function EncodeRecord(name: seq<Byte>, sizeOrig: U32, filter: Byte, offset: U32): (rec: seq<Byte>)
    requires |name| <= NameWidth
    ensures |rec| == 0x20
  {
    name + Zeros(NameWidth - |name|) + U32Bytes(sizeOrig) + [filter] + Zeros(9) + U32Bytes(offset)
  }

  /** A descrambled table for `es`, closed by a record whose offset field
      is `end`. */
  function EncodeTable(es: seq<TableEntry>, end: U32): (t: seq<Byte>)
    requires AllStorable(es)
    ensures |t| == 0x20 * (|es| + 1)
  {
    if es == [] then EncodeRecord([], 0, 0, end)
    else
      var e := es[0];
      EncodeRecord(e.name, e.sizeOrig, e.filter, e.offset) + EncodeTable(es[1..], end)
  }

  /** `es` with every size_comp set from the next offset (and `end` after
      the last entry): what a table writer means by the entries' sizes. */
  function WithSizes(es: seq<TableEntry>, end: U32): (r: seq<TableEntry>)
    ensures |r| == |es|
  {
    seq(|es|, i requires 0 <= i < |es| =>
      es[i].(sizeComp := ((if i + 1 < |es| then es[i + 1].offset else end) - es[i].offset) % U32Modulus))
  }

  /** Pass 1 reads back what EncodeRecord writes. */
  lemma RecordOfEncoded(name: seq<Byte>, sizeOrig: U32, filter: Byte, offset: U32)
    requires |name| <= NameWidth && 0 !in name
    ensures var rec := EncodeRecord(name, sizeOrig, filter, offset);
      Record(rec, 0) == TableEntry(name, offset, sizeOrig, 0, filter)
  {
    var rec := EncodeRecord(name, sizeOrig, filter, offset);
    var pad := Zeros(NameWidth - |name|);
    assert rec[..NameWidth] == name + pad;
    TrimAtZeroOfPadded(name, pad);
    assert rec[14..18] == U32Bytes(sizeOrig);
    assert rec[28..32] == U32Bytes(offset);
    LE32Slice(rec, 14);
    LE32Slice(rec, 28);
  }

  /** A record is read from its own 32 bytes only. */
  lemma RecordIsLocal(t: seq<Byte>, i: nat)
    requires 0x20 * i + 0x20 <= |t|
    ensures Record(t, i) == Record(t[0x20 * i..0x20 * i + 0x20], 0)
  {
    var at := 0x20 * i;
    var rec := t[at..at + 0x20];
    assert rec[..NameWidth] == t[at..at + NameWidth];
    LE32Slice(t, at + 14);
    LE32Slice(rec, 14);
    assert rec[14..18] == t[at + 14..at + 18];
    LE32Slice(t, at + 28);
    LE32Slice(rec, 28);
    assert rec[28..32] == t[at + 28..at + 32];
  }

  /** Record i of an encoded table is the encoding of entry i, and the
      record after the last one is the closing record. */
  lemma {:induction false} EncodedRecordAt(es: seq<TableEntry>, end: U32, i: nat)
    requires AllStorable(es)
    requires i <= |es|
    ensures EncodeTable(es, end)[0x20 * i..0x20 * i + 0x20] == SlotBytes(es, end, i)
  {
    if es != [] {
      if i == 0 {
        FirstSlot(es, end);
      } else {
        EncodedRecordAt(es[1..], end, i - 1);
        LaterSlot(es, end, i);
      }
    }
  }

  lemma FirstSlot(es: seq<TableEntry>, end: U32)
    requires AllStorable(es) && es != []
    ensures EncodeTable(es, end)[0..0x20] == SlotBytes(es, end, 0)
  {
    var e := es[0];
    var head := EncodeRecord(e.name, e.sizeOrig, e.filter, e.offset);
    var tail := EncodeTable(es[1..], end);
    assert EncodeTable(es, end) == head + tail;
    assert (head + tail)[..0x20] == head;
  }

  lemma LaterSlot(es: seq<TableEntry>, end: U32, i: nat)
    requires AllStorable(es) && 1 <= i <= |es|
    requires EncodeTable(es[1..], end)[0x20 * (i - 1)..0x20 * (i - 1) + 0x20] == SlotBytes(es[1..], end, i - 1)
    ensures EncodeTable(es, end)[0x20 * i..0x20 * i + 0x20] == SlotBytes(es, end, i)
  {
    var e := es[0];
    var head := EncodeRecord(e.name, e.sizeOrig, e.filter, e.offset);
    var tail := EncodeTable(es[1..], end);
    assert EncodeTable(es, end) == head + tail;
    var at := 0x20 * (i - 1);
    assert 0x20 * i == at + 0x20;
    SliceAfterHead(head, tail, at);
    assert SlotBytes(es[1..], end, i - 1) == SlotBytes(es, end, i);
  }

  /** The 32 bytes a table writer puts in slot i: entry i, or the closing
      record in the slot after the last entry. */
  function SlotBytes(es: seq<TableEntry>, end: U32, i: nat): seq<Byte>
    requires AllStorable(es) && i <= |es|
  {
    if i < |es| then EncodeRecord(es[i].name, es[i].sizeOrig, es[i].filter, es[i].offset)
    else EncodeRecord([], 0, 0, end)
  }

  /** A 32-byte window past a 32-byte head lies in the tail. */
  lemma SliceAfterHead(head: seq<Byte>, tail: seq<Byte>, at: nat)
    requires |head| == 0x20 && at + 0x20 <= |tail|
    ensures (head + tail)[at + 0x20..at + 0x40] == tail[at..at + 0x20]
  {
  }

  /** Pass 1 on an encoded table gives back entry i, or the closing record. */
  lemma RecordOfEncodedTable(es: seq<TableEntry>, end: U32, i: nat)
    requires AllStorable(es)
    requires i <= |es|
    ensures var t := EncodeTable(es, end);
      var r := Record(t, i);
      (i < |es| ==> r == es[i].(sizeComp := 0)) && OffsetField(t, i) == if i < |es| then es[i].offset else end
  {
    var t := EncodeTable(es, end);
    EncodedRecordAt(es, end, i);
    RecordIsLocal(t, i);
    if i < |es| {
      RecordOfEncoded(es[i].name, es[i].sizeOrig, es[i].filter, es[i].offset);
    } else {
      RecordOfEncoded([], 0, 0, end);
    }
  }

  /** Round trip: parsing an encoded table gives back its entries, each
      with size_comp set to the gap to the next offset (or to `end`). */
  lemma ParseEncodedTable(es: seq<TableEntry>, end: U32)
    requires AllStorable(es)
    ensures ParseTable(EncodeTable(es, end), |es|) == Success(WithSizes(es, end))
  {
    var t := EncodeTable(es, end);
    var parsed := ParseTable(t, |es|).value;
    var want := WithSizes(es, end);
    forall i | 0 <= i < |es|
      ensures parsed[i] == want[i]
    {
      EntryOfEncodedTable(es, end, i);
    }
    assert parsed == want;
  }

  /** Round trip through scrambling: an archiver's table, closed by the
      archive size and scrambled with any key, is unscrambled by read_table
      into the archiver's entries with their sizes. */
  lemma ArchivedTableRecovers(es: seq<TableEntry>, fileSize: U32, key: Byte)
    requires AllStorable(es)
    ensures Unscrambled(Scrambled(EncodeTable(es, fileSize), key), fileSize, |es|) == Success(WithSizes(es, fileSize))
  {
    var t := EncodeTable(es, fileSize);
    RecordOfEncodedTable(es, fileSize, |es|);
    assert LE32(t, |t| - 4) == fileSize by {
      assert 0x20 * |es| + 28 == |t| - 4;
    }
    ScrambledTableRecovers(t, fileSize, key);
    ParseEncodedTable(es, fileSize);
  }

  lemma EntryOfEncodedTable(es: seq<TableEntry>, end: U32, i: nat)
    requires AllStorable(es)
    requires i < |es|
    ensures Entry(EncodeTable(es, end), i) == WithSizes(es, end)[i]
  {
    RecordOfEncodedTable(es, end, i);
    RecordOfEncodedTable(es, end, i + 1);
    EntryOfRecords(EncodeTable(es, end), es, end, i);
  }

  /** Entry i is record i completed with the gap to the next offset field. */
  lemma EntryOfRecords(t: seq<Byte>, es: seq<TableEntry>, end: U32, i: nat)
    requires i < |es| && 0x20 * (|es| + 1) == |t|
    requires Record(t, i) == es[i].(sizeComp := 0)
    requires OffsetField(t, i + 1) == if i + 1 < |es| then es[i + 1].offset else end
    ensures Entry(t, i) == WithSizes(es, end)[i]
  {
  }

  // ---------------------------------------------------------------------
  // read_table
  // ---------------------------------------------------------------------

  /** The table length read_table derives from the header field:
      `read_u32_le() - 12` is computed in u32, and subtracting the magic's
      length then in size_t. */
  function TableSize(field: U32): (n: nat)
    ensures field >= 16 ==> n == field - 16
    ensures 12 <= field < 16 ==> n == field - 16 + SizeModulus
    ensures field < 12 ==> n == field - 16 + U32Modulus
  {
    ((field - 12) % U32Modulus - 4) % SizeModulus
  }

  /** The table a scrambled table `raw` holds, for an archive of
      `fileSize` bytes: recover the key, descramble, parse. */
  function Unscrambled(raw: seq<Byte>, fileSize: nat, count: nat): (r: Result<seq<TableEntry>>)
    ensures r.Failure? ==> (r.error == KeyNotFound <==> RecoverKey(raw, fileSize).Failure?)
    ensures r.Success? ==> RecoverKey(raw, fileSize).Success? && |r.value| == count && 0x20 * (count + 1) <= |raw|
  {
    var key :- RecoverKey(raw, fileSize);
    ParseTable(Descrambled(raw, key), count)
  }

  /** The outcome of read_table on archive bytes `file` with the cursor at
      `at` (just past the magic). */
  function TableAt(file: seq<Byte>, at: nat): (r: Result<seq<TableEntry>>)
    ensures r.Success? ==> at + 12 <= |file| && TableEnd(file, at) <= |file|
    ensures r.Success? ==> |r.value| == LE32(file, at + 8)
    ensures r.Success? ==> 0x20 * (|r.value| + 1) <= TableSize(LE32(file, at + 4))
  {
    if |file| < at + 12 then Failure(UnexpectedEof)
    else ScrambledAt(file, at + 12, TableSize(LE32(file, at + 4)), LE32(file, at + 8))
  }

  /** The table held by the `size` scrambled bytes at `start`, if the file
      has them. */
  function ScrambledAt(file: seq<Byte>, start: nat, size: nat, count: nat): Result<seq<TableEntry>>
  {
    if |file| < start + size then Failure(UnexpectedEof)
    else Unscrambled(file[start..start + size], |file|, count)
  }

  /** Where read_table leaves the cursor when it succeeds: past the
      scrambled table. */
  function TableEnd(file: seq<Byte>, at: nat): nat
    requires at + 12 <= |file|
  {
    at + 12 + TableSize(LE32(file, at + 4))
  }

  /** Both passes of read_table over the descrambled table (lines 64-84),
      on a stream over the table and an entry array of `count` slots. */
  method ParseEntries(plain: seq<Byte>, count: U32) returns (r: Result<seq<TableEntry>>)
    ensures r == ParseTable(plain, count)
  {
    var tableIo := new Stream(plain);
    var table := new TableEntry[count](_ => TableEntry([], 0, 0, 0, 0));
    var pass1 :- ReadRecords(tableIo, table);
    var pass2 :- FillSizes(tableIo, table);
    r := Success(table[..]);
  }

  /** Pass 1 (lines 66-75): record i fills slot i, reading name, size_orig,
      filter, nine skipped bytes and offset in turn. */
  method ReadRecords(tableIo: Stream, table: array<TableEntry>) returns (r: Result<()>)
    requires tableIo.Valid() && tableIo.pos == 0
    modifies tableIo, table
    ensures tableIo.Valid()
    ensures r.Success? <==> 0x20 * table.Length <= |tableIo.data|
    ensures r.Failure? ==> r.error == UnexpectedEof
    ensures r.Success? ==> forall j :: 0 <= j < table.Length ==> table[j] == Record(tableIo.data, j)
  {
    for i := 0 to table.Length
      invariant tableIo.Valid()
      invariant tableIo.pos == 0x20 * i
      invariant forall j :: 0 <= j < i ==> table[j] == Record(tableIo.data, j)
    {
      var entry :- ReadRecord(tableIo, i);
      table[i] := entry;
    }
    r := Success(());
  }

  /** One iteration of pass 1 (lines 66-74): the fields of record i, read
      in file order. */
  method ReadRecord(tableIo: Stream, i: nat) returns (r: Result<TableEntry>)
    requires tableIo.Valid() && tableIo.pos == 0x20 * i
    modifies tableIo
    ensures tableIo.Valid()
    ensures r.Success? <==> 0x20 * i + 0x20 <= |tableIo.data|
    ensures r.Failure? ==> r.error == UnexpectedEof
    ensures r.Success? ==> r.value == Record(tableIo.data, i) && tableIo.pos == 0x20 * i + 0x20
  {
    var name :- tableIo.ReadToZero(NameWidth);
    var sizeOrig :- tableIo.ReadU32Le();
    var filter :- tableIo.ReadU8();
    var skipped :- tableIo.Skip(9);
    var offset :- tableIo.ReadU32Le();
    RecordRead(tableIo.data, i, name, sizeOrig, filter, offset);
    r := Success(TableEntry(name, offset, sizeOrig, 0, filter));
  }

  /** Pass 2 (lines 77-82): from the second record on, each record's offset
      field gives the previous slot its size_comp; nothing else changes. */
  method FillSizes(tableIo: Stream, table: array<TableEntry>) returns (r: Result<()>)
    requires tableIo.Valid()
    requires 0x20 * table.Length <= |tableIo.data|
    requires forall j :: 0 <= j < table.Length ==> table[j] == Record(tableIo.data, j)
    modifies tableIo, table
    ensures tableIo.Valid()
    ensures r == (if 0x20 * (table.Length + 1) <= |tableIo.data| then Success(()) else Failure(UnexpectedEof))
    ensures r.Success? ==> table[..] == ParseTable(tableIo.data, table.Length).value
  {
    var sought :- tableIo.Seek(0x20);
    for i := 0 to table.Length
      invariant tableIo.Valid()
      invariant tableIo.pos == 0x20 * (i + 1)
      invariant forall j :: 0 <= j < table.Length ==>
        table[j] == if j < i then Entry(tableIo.data, j) else Record(tableIo.data, j)
    {
      var next :- ReadNextOffset(tableIo, i);
      EntryRead(tableIo.data, i, table[i], next);
      table[i] := table[i].(sizeComp := (next - table[i].offset) % U32Modulus);
    }
    assert table[..] == ParseTable(tableIo.data, table.Length).value;
    r := Success(());
  }

  /** One iteration of pass 2 (lines 79-80): the offset field of record
      i + 1. */
  method ReadNextOffset(tableIo: Stream, i: nat) returns (r: Result<U32>)
    requires tableIo.Valid() && tableIo.pos == 0x20 * (i + 1)
    modifies tableIo
    ensures tableIo.Valid()
    ensures r.Success? <==> 0x20 * (i + 1) + 0x20 <= |tableIo.data|
    ensures r.Failure? ==> r.error == UnexpectedEof
    ensures r.Success? ==> r.value == OffsetField(tableIo.data, i + 1) && tableIo.pos == 0x20 * (i + 2)
  {
    var skipped :- tableIo.Skip(28);
    r := tableIo.ReadU32Le();
  }

  /** The fields pass 1 reads at record i make up Record(t, i). */
  lemma RecordRead(t: seq<Byte>, i: nat, name: seq<Byte>, sizeOrig: U32, filter: Byte, offset: U32)
    requires 0x20 * i + 0x20 <= |t|
    requires name == TrimAtZero(t[0x20 * i..0x20 * i + NameWidth])
    requires sizeOrig == LE32(t, 0x20 * i + 14)
    requires filter == t[0x20 * i + 18]
    requires offset == LE32(t, 0x20 * i + 28)
    ensures Record(t, i) == TableEntry(name, offset, sizeOrig, 0, filter)
  {
  }

  /** Pass 2 turns Record(t, i) into Entry(t, i) with the next offset field. */
  lemma EntryRead(t: seq<Byte>, i: nat, rec: TableEntry, next: U32)
    requires 0x20 * (i + 1) + 0x20 <= |t|
    requires rec == Record(t, i)
    requires next == LE32(t, 0x20 * (i + 1) + 28)
    ensures rec.(sizeComp := (next - rec.offset) % U32Modulus) == Entry(t, i)
  {
  }

  /** read_table (lines 50-85): skip four bytes, read the length field and
      the entry count, read the scrambled table, recover the key, descramble
      the table in place and parse it. */
  method ReadTable(arc: Stream) returns (r: Result<seq<TableEntry>>)
    requires arc.Valid()
    modifies arc
    ensures arc.Valid()
    ensures r == TableAt(arc.data, old(arc.pos))
    ensures r.Success? ==> arc.pos == TableEnd(arc.data, old(arc.pos))
  {
    ghost var at := arc.pos;
    var header := ReadHeader(arc);
    if header.Failure? {
      return Failure(header.error);
    }
    var (tableSize, count) := header.value;
    assert TableAt(arc.data, at) == ScrambledAt(arc.data, at + 12, tableSize, count);
    r := ReadScrambled(arc, tableSize, count);
  }

  /** Lines 52-53: skip four bytes, then read the table length (already
      reduced by TableSize) and the entry count. */
  method ReadHeader(arc: Stream) returns (r: Result<(nat, U32)>)
    requires arc.Valid()
    modifies arc
    ensures arc.Valid()
    ensures r.Success? <==> old(arc.pos) + 12 <= |arc.data|
    ensures r.Failure? ==> r.error == UnexpectedEof
    ensures r.Success? ==> arc.pos == old(arc.pos) + 12
    ensures r.Success? ==> r.value == (TableSize(LE32(arc.data, old(arc.pos) + 4)), LE32(arc.data, old(arc.pos) + 8))
  {
    var skipped :- arc.Skip(4);
    var field :- arc.ReadU32Le();
    var count :- arc.ReadU32Le();
    r := Success((TableSize(field), count));
  }

  /** Lines 54-84 after the header: read the scrambled table of `tableSize`
      bytes at the cursor, recover the key, descramble and parse. */
  method ReadScrambled(arc: Stream, tableSize: nat, count: U32) returns (r: Result<seq<TableEntry>>)
    requires arc.Valid()
    modifies arc
    ensures arc.Valid()
    ensures r == ScrambledAt(arc.data, old(arc.pos), tableSize, count)
    ensures r.Success? ==> arc.pos == old(arc.pos) + tableSize
  {
    var raw := arc.Read(tableSize);
    if raw.Failure? {
      return Failure(raw.error);
    }
    var tableData := new Byte[|raw.value|](j requires 0 <= j < |raw.value| => raw.value[j]);
    assert tableData[..] == raw.value;
    r := UnscrambleTable(tableData, arc.Size(), count);
  }

  /** Lines 56-84 on the table bytes: recover the key, descramble the
      table in place and parse it. */
  method UnscrambleTable(tableData: array<Byte>, fileSize: nat, count: U32) returns (r: Result<seq<TableEntry>>)
    modifies tableData
    ensures r == Unscrambled(old(tableData[..]), fileSize, count)
  {
    var key := GuessKey(tableData, fileSize);
    if key.Failure? {
      return Failure(key.error);
    }
    Descramble(tableData, key.value);
    r := ParseEntries(tableData[..], count);
  }
}
