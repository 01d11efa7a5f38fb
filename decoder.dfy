/** The MRG archive decoder proper: recognising an archive by its magic,
    extracting one entry through its filter pipeline, and unpacking every
    entry of the table, in table order, into a file saver.

    Line numbers in this module refer to src/fmt/fc01/mrg_archive_decoder.cc. */
module MrgDecoder {
  import opened Bytes
  import opened Outcomes
  import opened Io
  import opened MrgTable

  /** "MRG\0" */
  const Magic: seq<Byte> := [0x4D, 0x52, 0x47, 0x00]

  /** A file handed to the saver: a name and its bytes. */
  datatype OutFile = OutFile(name: seq<Byte>, content: seq<Byte>)

  /** The per-file codecs the decoder calls but that are not part of this
      model: `decrypt` is MrgDecryptor's decrypt with seed 0, and
      `decompress(data, n)` is custom_lzss_decompress aiming at n bytes. */
  datatype Filters = Filters(
    decrypt: seq<Byte> -> seq<Byte>,
    decompress: (seq<Byte>, U32) -> seq<Byte>)

  /** A decompressor that never produces more than the bytes asked for. */
  ghost predicate DecompressesWithin(f: Filters)
  {
    forall data, n :: |f.decompress(data, n)| <= n
  }

  /** is_recognized_internal (lines 125-128): the next four bytes are the
      magic. Fewer than four bytes is a failed read, not a "no". */
  method IsRecognized(arc: Stream) returns (r: Result<bool>)
    requires arc.Valid()
    modifies arc
    ensures arc.Valid()
    ensures r.Success? <==> old(arc.pos) + 4 <= |arc.data|
    ensures r.Failure? ==> r.error == UnexpectedEof
    ensures r.Success? ==> (r.value <==> arc.data[old(arc.pos)..old(arc.pos) + 4] == Magic)
    ensures arc.pos == if r.Success? then old(arc.pos) + 4 else old(arc.pos)
  {
    var head :- arc.Read(|Magic|);
    r := Success(head == Magic);
  }

  // ---------------------------------------------------------------------
  // One entry
  // ---------------------------------------------------------------------

  /** The filter pipeline of read_file (lines 92-101): filter 2 and above
      decrypt, then filters 1 and 2 decompress to size_orig bytes. */
  function Filtered(f: Filters, filter: Byte, sizeOrig: U32, stored: seq<Byte>): (out: seq<Byte>)
    ensures filter == 0 ==> out == stored
    ensures filter == 1 ==> out == f.decompress(stored, sizeOrig)
    ensures filter == 2 ==> out == f.decompress(f.decrypt(stored), sizeOrig)
    ensures filter >= 3 ==> out == f.decrypt(stored)
    ensures DecompressesWithin(f) && 1 <= filter <= 2 ==> |out| <= sizeOrig
  {
    var decrypted := if filter >= 2 then f.decrypt(stored) else stored;
    if filter != 0 && filter < 3 then f.decompress(decrypted, sizeOrig) else decrypted
  }

  /** The file read_file makes of entry `e` of archive bytes `file`: the
      size_comp bytes at offset, filtered, under the entry's name. */
  function ExtractEntry(file: seq<Byte>, e: TableEntry, f: Filters): (r: Result<OutFile>)
    ensures r.Success? <==> e.offset + e.sizeComp <= |file|
    ensures r.Failure? ==> r.error == UnexpectedEof
    ensures r.Success? ==> r.value.name == e.name
    ensures r.Success? && e.filter == 0 ==> r.value.content == file[e.offset..e.offset + e.sizeComp]
  {
    if |file| < e.offset + e.sizeComp then Failure(UnexpectedEof)
    else Success(OutFile(e.name, Filtered(f, e.filter, e.sizeOrig, file[e.offset..e.offset + e.sizeComp])))
  }

  /** read_file (lines 87-105). */
  method ReadFile(arc: Stream, entry: TableEntry, f: Filters) returns (r: Result<OutFile>)
    requires arc.Valid()
    modifies arc
    ensures arc.Valid()
    ensures r == ExtractEntry(arc.data, entry, f)
    ensures r.Success? ==> arc.pos == entry.offset + entry.sizeComp
  {
    var sought :- arc.Seek(entry.offset);
    var data :- arc.Read(entry.sizeComp);
    if entry.filter != 0 {
      if entry.filter >= 2 {
        data := f.decrypt(data);
      }
      if entry.filter < 3 {
        data := f.decompress(data, entry.sizeOrig);
      }
    }
    r := Success(OutFile(entry.name, data));
  }

  // ---------------------------------------------------------------------
  // The whole archive
  // ---------------------------------------------------------------------

  /** The file saver: it keeps every file it is given, in order. */
  class Saver {
    var saved: seq<OutFile>

    constructor ()
      ensures saved == []
    {
      saved := [];
    }

    method Save(file: OutFile)
      modifies this
      ensures saved == old(saved) + [file]
    {
      saved := saved + [file];
    }
  }

  /** What unpacking leaves behind: the files saved, and how it ended. */
  datatype Outcome = Outcome(saved: seq<OutFile>, result: Result<()>)

  /** Extracting the entries `es` one after another until one fails. The
      contract characterises the outcome completely: the files saved are
      the extractions of a prefix of the table, in table order, and the
      run fails exactly when an entry fails, with that entry's error. */
  function ExtractAll(file: seq<Byte>, es: seq<TableEntry>, f: Filters): (o: Outcome)
    ensures |o.saved| <= |es|
    ensures forall i :: 0 <= i < |o.saved| ==> ExtractEntry(file, es[i], f) == Success(o.saved[i])
    ensures o.result.Success? ==> |o.saved| == |es|
    ensures o.result.Failure? ==> |o.saved| < |es| && ExtractEntry(file, es[|o.saved|], f) == Failure(o.result.error)
  {
    if es == [] then Outcome([], Success(()))
    else
      match ExtractEntry(file, es[0], f)
      case Failure(e) => Outcome([], Failure(e))
      case Success(out) =>
        var rest := ExtractAll(file, es[1..], f);
        Outcome([out] + rest.saved, rest.result)
  }

  /** The outcome of extracting `es` is fixed by which entries extract:
      the files of the entries before the first failing one are saved and
      nothing after it, and the run ends with that entry's error, or in
      success when no entry fails. */
  lemma ExtractAllStopsAtFirstFailure(file: seq<Byte>, es: seq<TableEntry>, f: Filters,
                                      outs: seq<OutFile>, last: Result<()>)
    requires |outs| <= |es|
    requires forall i :: 0 <= i < |outs| ==> ExtractEntry(file, es[i], f) == Success(outs[i])
    requires |outs| < |es| ==> ExtractEntry(file, es[|outs|], f).Failure?
                               && last == Failure(ExtractEntry(file, es[|outs|], f).error)
    requires |outs| == |es| ==> last == Success(())
    ensures ExtractAll(file, es, f) == Outcome(outs, last)
  {
    var o := ExtractAll(file, es, f);
    assert |o.saved| == |outs|;
    forall i | 0 <= i < |outs|
      ensures o.saved[i] == outs[i]
    {
      assert ExtractEntry(file, es[i], f) == Success(outs[i]);
    }
    assert o.saved == outs;
    if |outs| == |es| {
      assert o.result.Success?;
      var u: () := o.result.value;
      assert u == ();
    }
  }

  /** unpack_internal's outcome on archive bytes `file` with the cursor at
      `at`: skip the magic, read the table, extract the entries. */
  function Unpacking(file: seq<Byte>, at: nat, f: Filters): (o: Outcome)
    ensures TableAt(file, at + 4).Failure? ==> o == Outcome([], Failure(TableAt(file, at + 4).error))
    ensures TableAt(file, at + 4).Success? ==> o == ExtractAll(file, TableAt(file, at + 4).value, f)
  {
    if |file| < at + 4 then Outcome([], Failure(UnexpectedEof))
    else
      match TableAt(file, at + 4)
      case Failure(e) => Outcome([], Failure(e))
      case Success(es) => ExtractAll(file, es, f)
  }

  /** unpack_internal (lines 130-136): skip the magic, read the table,
      then extract and save the entries in table order. */
  method Unpack(arc: Stream, saver: Saver, f: Filters) returns (r: Result<()>)
    requires arc.Valid()
    modifies arc, saver
    ensures arc.Valid()
    ensures saver.saved == old(saver.saved) + Unpacking(arc.data, old(arc.pos), f).saved
    ensures r == Unpacking(arc.data, old(arc.pos), f).result
  {
    ghost var at := arc.pos;
    var skipped := arc.Skip(|Magic|);
    if skipped.Failure? {
      return Failure(skipped.error);
    }
    assert arc.pos == at + 4;
    var table := ReadTable(arc);
    if table.Failure? {
      return Failure(table.error);
    }
    r := SaveAll(arc, saver, table.value, f);
  }

  /** The loop of unpack_internal (lines 134-135): every file read is saved
      before the next entry is read, so the files before a failing entry
      stay saved. */
  method SaveAll(arc: Stream, saver: Saver, es: seq<TableEntry>, f: Filters) returns (r: Result<()>)
    requires arc.Valid()
    modifies arc, saver
    ensures arc.Valid()
    ensures saver.saved == old(saver.saved) + ExtractAll(arc.data, es, f).saved
    ensures r == ExtractAll(arc.data, es, f).result
  {
    ghost var outs: seq<OutFile> := [];
    for i := 0 to |es|
      invariant arc.Valid()
      invariant saver.saved == old(saver.saved) + outs
      invariant |outs| == i
      invariant forall j :: 0 <= j < i ==> ExtractEntry(arc.data, es[j], f) == Success(outs[j])
    {
      var file := ReadFile(arc, es[i], f);
      if file.Failure? {
        ExtractAllStopsAtFirstFailure(arc.data, es, f, outs, Failure(file.error));
        return Failure(file.error);
      }
      saver.Save(file.value);
      outs := outs + [file.value];
    }
    ExtractAllStopsAtFirstFailure(arc.data, es, f, outs, Success(()));
    r := Success(());
  }
}
