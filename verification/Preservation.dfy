/** What a patched firmware is: the same records, with the data that the patched memory
    has at their addresses; and when the patch succeeds. */
module Preservation {
  import opened Bytes
  import opened HexFormat
  import opened Memory
  import opened Loading
  import opened Layout
  import opened Firmware
  import Patching

  // ---------- The intended result ----------

  /** The memory with all replacements put in. */
  function PatchedMemory(ds: seq<Chunk>): (mem: seq<Chunk>)
    requires PatchesInside(ds)
    ensures |mem| == |ds|
  {
    seq(|ds|, i requires 0 <= i < |ds| => Chunk(ds[i].offset, PatchedBuf(ds[i]), None))
  }

  function ByteOrZero(mem: seq<Chunk>, a: int): Byte {
    match ByteAt(mem, a)
    case Some(b) => b
    case None => 0
  }

  function BytesFrom(mem: seq<Chunk>, off: int, n: nat): (s: seq<Byte>)
    ensures |s| == n
  {
    seq<Byte>(n, k => ByteOrZero(mem, off + k))
  }

  /** A record with the data that a memory has for it. Only end-of-file records lose
      what they carried: they are written with zeros. */
  function Rewrite(mem: seq<Chunk>, readOffset: int, r: Raw): (r': Raw)
    ensures r'.offset == r.offset && r'.recType == r.recType && |r'.data| == |r.data|
  {
    if r.recType == DATA then r.(data := BytesFrom(mem, readOffset, |r.data|))
    else if r.recType == END_OF_FILE then r.(data := Fill(0, |r.data|))
    else r
  }

  function Rewritten(mem: seq<Chunk>, rs: seq<Raw>): (rs': seq<Raw>)
    requires AllSupported(rs)
    ensures |rs'| == |rs| && AllSupported(rs')
  {
    seq(|rs|, i requires 0 <= i < |rs| => Rewrite(mem, Spot(true, rs, i), rs[i]))
  }

  /** The first `n` data records have the 8-bit sums that they had. */
  ghost predicate SumsKept(rs: seq<Raw>, rs': seq<Raw>, n: nat)
    requires n <= |rs| == |rs'|
  {
    forall i :: 0 <= i < n && rs[i].recType == DATA ==> Same8(rs[i].data, rs'[i].data)
  }

  // ---------- Reading back record by record ----------

  /** Memories with the buffers of the loaded one, whatever their patches. */
  ghost predicate SameBuffers(cs: seq<Chunk>, ds: seq<Chunk>) {
    |ds| == |cs| && forall k :: 0 <= k < |ds| ==> ds[k].offset == cs[k].offset && ds[k].buf == cs[k].buf
  }

  /** `ds` is the loaded memory, with patches. */
  ghost predicate PatchesOf(rs: seq<Raw>, ds: seq<Chunk>)
    requires AllSupported(rs)
  {
    var cs := LoadAll(true, rs).chunks;
    PatchesInside(ds) && SameBuffers(cs, ds)
  }

  /** Of every buffer, exactly the part that `bs` has of it has been read. */
  ghost predicate Progressed(ds: seq<Chunk>, now: seq<Chunk>, bs: seq<Chunk>) {
    |now| == |ds| && forall k :: 0 <= k < |ds| ==> now[k] == Advance(ds[k], |BufAt(bs, ds[k].offset)|)
  }

  lemma PickIs(cs: seq<Chunk>, off: int, k: nat)
    requires Tidy(cs) && k < |cs| && cs[k].Contains(off)
    ensures Pick(cs, off) == k
  {
    PickFinds(cs, off);
    BytesOfChunk(cs, k, off);
  }

  lemma {:induction false} LoadedIsLast(rs: seq<Raw>)
    requires AllSupported(rs)
    ensures Before(true, rs, |rs|) == LoadAll(true, rs).chunks
  {
    assert rs[..|rs|] == rs;
  }

  /** Where a data record is in the loaded memory: in some buffer, right after what the
      records before it put there. */
  lemma {:induction false} FindRecord(rs: seq<Raw>, i: nat) returns (k: nat)
    requires WellPlaced(true, rs) && i < |rs| && rs[i].recType == DATA
    ensures var cs, bs, bs' := LoadAll(true, rs).chunks, Before(true, rs, i), Before(true, rs, i + 1);
      && Tidy(cs) && k < |cs|
      && var o, data := cs[k].offset, rs[i].data;
      && Spot(true, rs, i) == o + |BufAt(bs, o)|
      && BufAt(bs', o) == BufAt(bs, o) + data
      && BufAt(bs', o) <= cs[k].buf
      && forall o' :: o' != o ==> BufAt(bs', o') == BufAt(bs, o')
  {
    hide LoadAll, Write, BufAt, Tidy, ByteAt, Free, Target;
    var bs, off, data := Before(true, rs, i), Spot(true, rs, i), rs[i].data;
    var o := Target(bs, off);
    StaysTidy(true, rs, i);
    StaysTidy(true, rs, |rs|);
    FreeForNext(true, rs, i);
    WriteAppends(bs, off, data);
    LoadStep(true, rs, i);
    LoadedIsLast(rs);
    BuffersGrow(true, rs, i + 1, |rs|, o);
    k := BufAtFound(LoadAll(true, rs).chunks, o);
  }

  lemma PatchedBytes(ds: seq<Chunk>, k: nat, pos: nat, n: nat)
    requires Tidy(ds) && PatchesInside(ds) && k < |ds| && pos + n <= |ds[k].buf|
    ensures BytesFrom(PatchedMemory(ds), ds[k].offset + pos, n) == PatchedBuf(ds[k])[pos..pos + n]
  {
    hide PatchedBuf, Tidy, ByteAt;
    var mem := PatchedMemory(ds);
    PatchedIsTidy(ds);
    var s, t := BytesFrom(mem, ds[k].offset + pos, n), PatchedBuf(ds[k])[pos..pos + n];
    forall x | 0 <= x < n ensures s[x] == t[x] {
      BytesOfChunk(mem, k, ds[k].offset + pos + x);
      assert s[x] == ByteOrZero(mem, ds[k].offset + pos + x);
    }
  }

  lemma PatchedIsTidy(ds: seq<Chunk>)
    requires Tidy(ds) && PatchesInside(ds)
    ensures Tidy(PatchedMemory(ds))
  {
    hide PatchedBuf;
    var mem := PatchedMemory(ds);
    assert forall j :: 0 <= j < |mem| ==> mem[j].End() == ds[j].End();
  }

  lemma AdvanceKeeps(d: Chunk, front: nat)
    ensures Advance(d, front).offset == d.offset && Advance(d, front).buf == d.buf
    ensures d.PatchInside() ==> Advance(d, front).PatchInside()
  {}

  lemma ProgressedInside(ds: seq<Chunk>, now: seq<Chunk>, bs: seq<Chunk>)
    requires PatchesInside(ds) && Progressed(ds, now, bs)
    ensures PatchesInside(now)
  {
    hide Advance;
    forall k | 0 <= k < |now| ensures now[k].PatchInside() {
      AdvanceKeeps(ds[k], |BufAt(bs, ds[k].offset)|);
    }
  }

  /** A read of one record while the reads follow the records: it returns the patched
      bytes, and fails exactly when they change the record's 8-bit sum. */
  lemma {:induction false} ReadsRecord(rs: seq<Raw>, ds: seq<Chunk>, now: seq<Chunk>, i: nat)
    requires WellPlaced(true, rs) && i < |rs| && rs[i].recType == DATA
    requires PatchesOf(rs, ds) && PatchesInside(now) && Progressed(ds, now, Before(true, rs, i))
    ensures var body := BytesFrom(PatchedMemory(ds), Spot(true, rs, i), |rs[i].data|);
      var (next, r) := Read(now, Spot(true, rs, i), |rs[i].data|);
      && r == (if Same8(rs[i].data, body) then Some(body) else None)
      && Progressed(ds, next, Before(true, rs, i + 1))
  {
    hide LoadAll, Write, BufAt, ByteAt, Read, Emit, Advance, Pick, PatchedBuf, Same8, Occupies, BytesFrom;
    var off, data := Spot(true, rs, i), rs[i].data;
    assert data != [] by { DataNonempty(rs, i); }
    var k := FindRecord(rs, i);
    var pos := off - ds[k].offset;
    forall j | 0 <= j < |ds| ensures now[j].offset == ds[j].offset && now[j].buf == ds[j].buf {
      AdvanceKeeps(ds[j], |BufAt(Before(true, rs, i), ds[j].offset)|);
    }
    PickIs(now, off, k);
    ReadStep(now, off, |data|);
    EmitInOrder(ds[k], pos, |data|);
    PatchedBytes(ds, k, pos, |data|);
    assert ds[k].buf[pos..pos + |data|] == data;
  }

  lemma {:induction false} DataNonempty(rs: seq<Raw>, i: nat)
    requires WellPlaced(true, rs) && i < |rs| && rs[i].recType == DATA
    ensures rs[i].data != []
  {}

  // ---------- Encoding as a whole ----------

  lemma NothingRead(ds: seq<Chunk>)
    ensures Progressed(ds, ds, [])
  {
    forall k | 0 <= k < |ds| ensures ds[k] == Advance(ds[k], 0) {
      if ds[k].patch.Some? {
        assert ds[k].patch.value.rest[0..] == ds[k].patch.value.rest;
      }
    }
  }

  /** A record that was loaded, as it is written with a new body of the same length. */
  lemma {:induction false} WrittenAgain(rs: seq<Raw>, i: nat, data: seq<Byte>)
    requires AllSupported(rs) && i < |rs| && |data| == |rs[i].data|
    ensures var record := LoadAll(true, rs).records[i];
      && record.offset == rs[i].offset && record.recType == rs[i].recType && record.length == |rs[i].data|
      && record.body == (if rs[i].recType == EXTENDED_ADDRESS || rs[i].recType == START_ADDRESS then rs[i].data else [])
      && Encodable(record) && RecordText(record, data) == RecordBytes(rs[i].(data := data))
  {
    RecordsStable(true, rs, i + 1);
    LoadStep(true, rs, i);
    assert LoadAll(true, rs).records[i] == LoadAll(true, rs[..i + 1]).records[i];
  }

  lemma {:induction false} RewrittenStep(mem: seq<Chunk>, rs: seq<Raw>, i: nat)
    requires AllSupported(rs) && i < |rs|
    ensures var rs' := Rewritten(mem, rs);
      && rs'[i] == Rewrite(mem, Spot(true, rs, i), rs[i])
      && FileBytes(rs'[..i + 1]) == FileBytes(rs'[..i]) + RecordBytes(Rewrite(mem, Spot(true, rs, i), rs[i]))
  {
    var rs' := Rewritten(mem, rs);
    assert rs'[..i + 1][..i] == rs'[..i];
  }

  /** One more record encoded. */
  lemma {:induction false} EncodesOneMore(rs: seq<Raw>, ds: seq<Chunk>, now: seq<Chunk>, i: nat)
    requires WellPlaced(true, rs) && i < |rs|
    requires PatchesOf(rs, ds) && Progressed(ds, now, Before(true, rs, i))
    ensures var r' := Rewrite(PatchedMemory(ds), Spot(true, rs, i), rs[i]);
      var (next, body) := BodyOf(now, LoadAll(true, rs).records[i]);
      && body == (if rs[i].recType == DATA && !Same8(rs[i].data, r'.data) then None else Some(r'.data))
      && Progressed(ds, next, Before(true, rs, i + 1))
  {
    hide LoadAll, Write, BytesFrom, PatchedMemory, Progressed, Read, ReadInto, Same8, Occupies, RecordText, RecordBytes;
    WrittenAgain(rs, i, rs[i].data);
    LoadStep(true, rs, i);
    if rs[i].recType == DATA {
      ProgressedInside(ds, now, Before(true, rs, i));
      ReadIntoInside(now, Spot(true, rs, i), Fill(0, |rs[i].data|));
      ReadsRecord(rs, ds, now, i);
    }
  }

  /** Encoding the loaded records from the patched memory yields the rewritten records,
      as long as no data record's 8-bit sum changes, and fails otherwise. */
  lemma {:induction false} EncodesRewritten(rs: seq<Raw>, ds: seq<Chunk>, n: nat)
    requires WellPlaced(true, rs) && PatchesOf(rs, ds) && n <= |rs|
    requires forall i :: 0 <= i < |rs| ==> Encodable(LoadAll(true, rs).records[i])
    ensures var rs' := Rewritten(PatchedMemory(ds), rs);
      var (now, text) := EncodeTo(ds, LoadAll(true, rs).records, n);
      && text == (if SumsKept(rs, rs', n) then Some(FileBytes(rs'[..n])) else None)
      && (text.Some? ==> Progressed(ds, now, Before(true, rs, n)))
  {
    hide LoadAll, Before, BytesFrom, PatchedMemory, Rewritten, Progressed, Occupies;
    hide SumsKept, RecordText, FileBytes, BodyOf, Same8;
    var records, rs' := LoadAll(true, rs).records, Rewritten(PatchedMemory(ds), rs);
    NothingKept(rs, rs');
    if n == 0 {
      NothingRead(ds);
      NothingLoaded(true, rs);
      NoRecordsNoBytes();
    } else {
      EncodesRewritten(rs, ds, n - 1);
      OneMoreKept(rs, rs', n - 1);
      var (now, text) := EncodeTo(ds, records, n - 1);
      if text.Some? {
        RewrittenStep(PatchedMemory(ds), rs, n - 1);
        EncodesOneMore(rs, ds, now, n - 1);
        WrittenAgain(rs, n - 1, rs'[n - 1].data);
      }
    }
  }

  lemma {:induction false} NothingKept(rs: seq<Raw>, rs': seq<Raw>)
    requires |rs| == |rs'|
    ensures SumsKept(rs, rs', 0)
  {}

  lemma {:induction false} OneMoreKept(rs: seq<Raw>, rs': seq<Raw>, n: nat)
    requires n < |rs| == |rs'|
    ensures SumsKept(rs, rs', n + 1) <==>
      SumsKept(rs, rs', n) && (rs[n].recType == DATA ==> Same8(rs[n].data, rs'[n].data))
  {
    hide Same8;
  }

  /** A record's body is the same with the patches cut off, as no record reaches over the end of its
      buffer. */
  lemma {:induction false} BodyClipped(rs: seq<Raw>, now: seq<Chunk>, i: nat)
    requires WellPlaced(true, rs) && i < |rs| && SameBuffers(LoadAll(true, rs).chunks, now)
    ensures var record := LoadAll(true, rs).records[i];
      var (next, body) := BodyOf(now, record);
      BodyOf(Clipped(now), record) == (Clipped(next), body) && SameBuffers(LoadAll(true, rs).chunks, next)
  {
    hide LoadAll, Before, BufAt, ByteAt, Occupies, ReadInto, Clipped, Pick, RecordText, RecordBytes;
    WrittenAgain(rs, i, rs[i].data);
    LoadStep(true, rs, i);
    if rs[i].recType == DATA {
      var k := FindRecord(rs, i);
      assert rs[i].data != [] by { DataNonempty(rs, i); }
      var off := Spot(true, rs, i);
      PickIs(now, off, k);
      ReadClipped(now, off, Fill(0, |rs[i].data|));
    }
  }

  lemma {:induction false} EncodesClipped(rs: seq<Raw>, ds: seq<Chunk>, n: nat)
    requires WellPlaced(true, rs) && n <= |rs| && SameBuffers(LoadAll(true, rs).chunks, ds)
    requires forall i :: 0 <= i < |rs| ==> Encodable(LoadAll(true, rs).records[i])
    ensures var records := LoadAll(true, rs).records;
      var (now, text) := EncodeTo(ds, records, n);
      EncodeTo(Clipped(ds), records, n) == (Clipped(now), text) && SameBuffers(LoadAll(true, rs).chunks, now)
  {
    hide LoadAll, BodyOf, Clipped, SameBuffers, Occupies, RecordText;
    if n > 0 {
      EncodesClipped(rs, ds, n - 1);
      var (now, text) := EncodeTo(ds, LoadAll(true, rs).records, n - 1);
      BodyClipped(rs, now, n - 1);
    }
  }

  lemma UpdateKeepsBuffers(cfg: Patching.Config, cs: seq<Chunk>, records: seq<Record>, ds: seq<Chunk>)
    requires NoPatches(cs) && Patching.Update(cs, records, cfg) == Some(ds)
    ensures SameBuffers(cs, ds) && SameBuffers(cs, Clipped(ds)) && PatchesInside(Clipped(ds))
  {
    Patching.UpdateEach(cs, records, cfg, |cs|);
    hide Clip, Patching.FindPatch, Patching.UpdateTo;
  }

  /** The exact outcome of patching a firmware. It succeeds if and only if no data record's
      8-bit sum changes, and then the output is the same records, each with the bytes of the
      patched memory at its addresses. A region that would reach over the end of its buffer
      ends there. */
  lemma {:induction false} MutateExactly(cfg: Patching.Config, rs: seq<Raw>, rest: seq<Byte>, ds: seq<Chunk>)
    requires IsFile(rs) && WellPlaced(true, rs)
    requires Patching.Update(LoadAll(true, rs).chunks, LoadAll(true, rs).records, cfg) == Some(ds)
    ensures PatchesInside(Clipped(ds))
    ensures var rs' := Rewritten(PatchedMemory(Clipped(ds)), rs);
      Mutate(cfg, FileBytes(rs) + rest) == if SumsKept(rs, rs', |rs|) then Done(FileBytes(rs')) else Failed
  {
    hide LoadAll, FileBytes, ParseFile, EncodeTo, SumsKept, Occupies, Clipped, PatchedMemory, Patching.Update;
    var l := LoadAll(true, rs);
    FilesAreParsed(rs, rest);
    LoadedRecords(true, rs);
    UpdateKeepsBuffers(cfg, l.chunks, l.records, ds);
    EncodesClipped(rs, ds, |rs|);
    EncodesRewritten(rs, Clipped(ds), |rs|);
    var rs' := Rewritten(PatchedMemory(Clipped(ds)), rs);
    assert rs'[..|rs|] == rs';
  }

  // ---------- Every input ----------

  ghost predicate StartsWithFile(input: seq<Byte>) {
    exists rs, rest :: IsFile(rs) && input == FileBytes(rs) + rest
  }

  /** The same records but for what is in them. */
  ghost predicate SameHeaders(rs: seq<Raw>, rs': seq<Raw>) {
    |rs'| == |rs| && forall i :: 0 <= i < |rs| ==>
      && rs'[i].offset == rs[i].offset && rs'[i].recType == rs[i].recType && |rs'[i].data| == |rs[i].data|
      && (rs[i].recType == EXTENDED_ADDRESS || rs[i].recType == START_ADDRESS ==> rs'[i].data == rs[i].data)
  }

  /** What is not a file is refused. A file makes the program halt exactly when the update does for one
      of its buffers; and whatever comes out is a file again, with the same headers. */
  lemma {:induction false} MutateOutcome(cfg: Patching.Config, input: seq<Byte>, rs: seq<Raw>, rest: seq<Byte>)
    ensures !StartsWithFile(input) ==> Mutate(cfg, input) == Failed
    ensures IsFile(rs) && input == FileBytes(rs) + rest ==>
      var l := LoadAll(true, rs);
      && (Mutate(cfg, input) == Halted <==>
            exists k :: 0 <= k < |l.chunks| &&
              Patching.FindPatch(l.chunks[k].offset, l.chunks[k].buf, l.records, cfg).Halt?)
      && (Mutate(cfg, input).Done? ==>
            exists rs' :: IsFile(rs') && SameHeaders(rs, rs') && Mutate(cfg, input).text == FileBytes(rs'))
  {
    hide LoadAll, FileBytes, ParseFile, EncodeTo, Patching.FindPatch, Patching.UpdateTo;
    if ParseFile(input).Some? {
      var (found, end) := ParseFile(input).value;
      ParsesExactlyFiles(input, found, end);
    }
    if IsFile(rs) && input == FileBytes(rs) + rest {
      FilesAreParsed(rs, rest);
      LoadedRecords(true, rs);
      var l := LoadAll(true, rs);
      Patching.UpdateEach(l.chunks, l.records, cfg, |l.chunks|);
      var found := Patching.Update(l.chunks, l.records, cfg);
      if found.Some? && EncodeTo(found.value, l.records, |l.records|).1.Some? {
        var rs' := EncodesFile(rs, found.value, |rs|);
        assert rs[..|rs|] == rs;
      }
    }
  }

  /** What is encoded are records with the same headers. */
  lemma {:induction false} EncodesFile(rs: seq<Raw>, cs: seq<Chunk>, n: nat) returns (rs': seq<Raw>)
    requires AllSupported(rs) && n <= |rs|
    requires forall i :: 0 <= i < |rs| ==> Encodable(LoadAll(true, rs).records[i])
    requires EncodeTo(cs, LoadAll(true, rs).records, n).1.Some?
    ensures SameHeaders(rs[..n], rs') && AllSupported(rs')
    ensures EncodeTo(cs, LoadAll(true, rs).records, n).1 == Some(FileBytes(rs'))
  {
    hide LoadAll, FileBytes, RecordText, BodyOf;
    if n == 0 {
      rs' := [];
      NoRecordsNoBytes();
    } else {
      var records := LoadAll(true, rs).records;
      var before := EncodesFile(rs, cs, n - 1);
      var cs' := EncodeTo(cs, records, n - 1).0;
      var body := BodyOf(cs', records[n - 1]).1.value;
      BodyFits(rs, cs', n - 1);
      WrittenAgain(rs, n - 1, body);
      rs' := before + [rs[n - 1].(data := body)];
      OneMoreRecord(before, rs[n - 1].(data := body));
      assert rs[..n] == rs[..n - 1] + [rs[n - 1]];
    }
  }

  lemma {:induction false} BodyFits(rs: seq<Raw>, cs: seq<Chunk>, i: nat)
    requires AllSupported(rs) && i < |rs|
    requires BodyOf(cs, LoadAll(true, rs).records[i]).1.Some?
    ensures var body := BodyOf(cs, LoadAll(true, rs).records[i]).1.value;
      && |body| == |rs[i].data|
      && (rs[i].recType == EXTENDED_ADDRESS || rs[i].recType == START_ADDRESS ==> body == rs[i].data)
  {
    hide LoadAll, RecordText, RecordBytes, ReadInto;
    WrittenAgain(rs, i, rs[i].data);
  }

  lemma ClippedInside(ds: seq<Chunk>)
    requires PatchesInside(ds)
    ensures Clipped(ds) == ds
  {
    hide Clip;
  }
}
