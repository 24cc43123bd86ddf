/** From the certificate search to the firmware: what comes out, given only the store, the file and
    the original certificate. */
module PatchedFirmware {
  import opened Bytes
  import opened SliceGrid
  import opened CertSearch
  import opened Mangling
  import opened HexFormat
  import opened Memory
  import opened Loading
  import opened Layout
  import opened Firmware
  import opened Preservation
  import opened PatchEffect
  import Certs
  import Patching

  /** A buffer has no start marker, or what that and the end marker enclose is the original blob, in
      full records of which the first one that starts in it does so before its 128th byte. */
  ghost predicate CarriesIn(cfg: Patching.Config, rs: seq<Raw>, c: Chunk, blob: seq<Byte>)
    requires AllSupported(rs)
  {
    var begin := Patching.Index(c.buf, cfg.searchBegin);
    begin == -1 || (
      var length := Patching.RegionLength(c.buf, begin, cfg.searchEnd);
      && begin + length <= |c.buf| && c.buf[begin..begin + length] == blob
      && 0 <= Patching.FirstSliceLen(LoadAll(true, rs).records, c.offset + begin) < SLICE_LEN
      && Regular(rs, c.offset + begin, |blob|))
  }

  ghost predicate Carries(cfg: Patching.Config, rs: seq<Raw>, blob: seq<Byte>)
    requires AllSupported(rs)
  {
    var cs := LoadAll(true, rs).chunks;
    forall k :: 0 <= k < |cs| ==> CarriesIn(cfg, rs, cs[k], blob)
  }

  /** The byte at an address that a buffer covers: the replacement's, between the markers. */
  function NewByte(cfg: Patching.Config, rs: seq<Raw>, c: Chunk, a: int, was: Byte): Byte
    requires AllSupported(rs)
  {
    var begin := Patching.Index(c.buf, cfg.searchBegin);
    if begin == -1 then was else
    var x, fsl := a - c.offset - begin, Patching.FirstSliceLen(LoadAll(true, rs).records, c.offset + begin);
    if 0 <= x < Patching.RegionLength(c.buf, begin, cfg.searchEnd)
      && fsl in cfg.foundCerts && x < |cfg.foundCerts[fsl].mangled| then cfg.foundCerts[fsl].mangled[x]
    else was
  }

  ghost predicate IsNewByte(cfg: Patching.Config, rs: seq<Raw>, a: int, was: Byte, now: Byte)
    requires AllSupported(rs)
  {
    var cs := LoadAll(true, rs).chunks;
    exists k :: 0 <= k < |cs| && cs[k].Contains(a) && now == NewByte(cfg, rs, cs[k], a, was)
  }

  /** Nothing but the data between the markers has changed. */
  ghost predicate OnlyRegionsReplaced(cfg: Patching.Config, rs: seq<Raw>, rs': seq<Raw>)
    requires AllSupported(rs) && |rs'| == |rs|
  {
    forall i :: 0 <= i < |rs| ==>
      && (rs[i].recType != DATA ==> rs'[i] == rs[i])
      && |rs'[i].data| == |rs[i].data|
      && (rs[i].recType == DATA ==>
            forall x :: 0 <= x < |rs[i].data| ==>
              IsNewByte(cfg, rs, Spot(true, rs, i) + x, rs[i].data[x], rs'[i].data[x]))
  }

  lemma {:induction false} CarriedIsFound(cfg: Patching.Config, rs: seq<Raw>, c: Chunk, d: Chunk, blob: seq<Byte>)
    requires AllSupported(rs) && blob != [] && CarriesIn(cfg, rs, c, blob) && c.patch == None
    requires var f := Patching.FindPatch(c.offset, c.buf, LoadAll(true, rs).records, cfg);
      d == if f.Found? then c.(patch := Some(f.patch)) else c
    ensures FoundRegular(rs, d, blob)
  {
    hide LoadAll, Regular;
  }

  lemma {:induction false} NewByteOfChunk(cfg: Patching.Config, rs: seq<Raw>, c: Chunk, d: Chunk, a: int, was: Byte)
    requires AllSupported(rs) && c.patch == None && c.Contains(a)
    requires var f := Patching.FindPatch(c.offset, c.buf, LoadAll(true, rs).records, cfg);
      !f.Halt? && d == if f.Found? then c.(patch := Some(f.patch)) else c
    ensures NewByte(cfg, rs, c, a, was) == match d.patch
      case None => was
      case Some(Patch(begin, length, str)) =>
        var at := a - c.offset;
        if begin <= at < begin + Min(length, |str|) then str[at - begin] else was
  {
    hide LoadAll;
  }

  lemma {:induction false} ReplacesOnlyRegions(cfg: Patching.Config, rs: seq<Raw>, ds: seq<Chunk>)
    requires WellPlaced(true, rs) && PlainEnd(rs) && PatchesOf(rs, ds)
    requires Patching.Update(LoadAll(true, rs).chunks, LoadAll(true, rs).records, cfg) == Some(ds)
    ensures OnlyRegionsReplaced(cfg, rs, Rewritten(PatchedMemory(ds), rs))
  {
    hide LoadAll, PatchedMemory, Occupies, Spot, NewByte, Patching.FindPatch, BytesFrom;
    var l, rs' := LoadAll(true, rs), Rewritten(PatchedMemory(ds), rs);
    LoadedRecords(true, rs);
    Patching.UpdateEach(l.chunks, l.records, cfg, |l.chunks|);
    forall i, x | 0 <= i < |rs| && rs[i].recType == DATA && 0 <= x < |rs[i].data|
      ensures IsNewByte(cfg, rs, Spot(true, rs, i) + x, rs[i].data[x], rs'[i].data[x])
    {
      var k, at := DiffersOnlyInRegions(rs, ds, i, x);
      NewByteOfChunk(cfg, rs, l.chunks[k], ds[k], Spot(true, rs, i) + x, rs[i].data[x]);
    }
  }

  /** End to end: with a replacement stored for every alignment that passes the final check there, a
      firmware that carries the original certificate in full records always comes out patched, with
      all its checksums, and nothing but the certificate replaced. */
  lemma {:induction false} PatchedFirmwareIsValid(cfg: Patching.Config, rs: seq<Raw>, rest: seq<Byte>, blob: seq<Byte>)
      returns (rs': seq<Raw>)
    requires IsFile(rs) && WellPlaced(true, rs) && PlainEnd(rs)
    requires blob != [] && StoredFor(cfg, blob) && forall a: int :: 0 <= a < SLICE_LEN ==> a in cfg.foundCerts
    requires Carries(cfg, rs, blob)
    ensures AllSupported(rs') && |rs'| == |rs|
    ensures Mutate(cfg, FileBytes(rs) + rest) == Done(FileBytes(rs'))
    ensures KeepsChecksums(rs, rs') && OnlyRegionsReplaced(cfg, rs, rs')
  {
    hide LoadAll, CarriesIn, FoundRegular, Occupies, Mutate, FileBytes, KeepsChecksums, PatchedMemory, StoredFor,
      Patching.FindPatch, Patching.Update, OnlyRegionsReplaced;
    var l := LoadAll(true, rs);
    LoadedRecords(true, rs);
    CarriedUpdates(cfg, rs, blob);
    var ds := Patching.Update(l.chunks, l.records, cfg).value;
    UpdatedFirmwareIsValid(cfg, rs, rest, ds, blob);
    ReplacesOnlyRegions(cfg, rs, ds);
    rs' := Rewritten(PatchedMemory(ds), rs);
  }

  /** Such a firmware does not halt the update, which finds the original blob in it. */
  lemma {:induction false} CarriedUpdates(cfg: Patching.Config, rs: seq<Raw>, blob: seq<Byte>)
    requires AllSupported(rs) && blob != [] && StoredFor(cfg, blob) && Carries(cfg, rs, blob)
    requires forall a: int :: 0 <= a < SLICE_LEN ==> a in cfg.foundCerts
    ensures var ds := Patching.Update(LoadAll(true, rs).chunks, LoadAll(true, rs).records, cfg);
      ds.Some? && forall k :: 0 <= k < |ds.value| ==> FoundRegular(rs, ds.value[k], blob)
  {
    hide LoadAll, FoundRegular, StoredFor, Patching.FindPatch, CarriesIn;
    var l := LoadAll(true, rs);
    LoadedRecords(true, rs);
    Patching.UpdateEach(l.chunks, l.records, cfg, |l.chunks|);
    forall k | 0 <= k < |l.chunks|
      ensures !Patching.FindPatch(l.chunks[k].offset, l.chunks[k].buf, l.records, cfg).Halt?
    {
      assert CarriesIn(cfg, rs, l.chunks[k], blob);
      CarriedDoesNotHalt(cfg, rs, l.chunks[k], blob);
    }
    var ds := Patching.Update(l.chunks, l.records, cfg).value;
    forall k | 0 <= k < |ds| ensures FoundRegular(rs, ds[k], blob) {
      CarriedIsFound(cfg, rs, l.chunks[k], ds[k], blob);
    }
  }

  lemma {:induction false} CarriedDoesNotHalt(cfg: Patching.Config, rs: seq<Raw>, c: Chunk, blob: seq<Byte>)
    requires AllSupported(rs) && blob != [] && StoredFor(cfg, blob) && CarriesIn(cfg, rs, c, blob)
    requires forall a: int :: 0 <= a < SLICE_LEN ==> a in cfg.foundCerts
    ensures !Patching.FindPatch(c.offset, c.buf, LoadAll(true, rs).records, cfg).Halt?
  {
    hide LoadAll, Regular, StoredFor;
    FullCoverageHalts(cfg, c.offset, c.buf, LoadAll(true, rs).records, blob);
  }

  /** The replacement for each region holds one of two certificates. */
  ghost predicate RegionsHold(cfg: Patching.Config, rs: seq<Raw>, blob: seq<Byte>, pem: seq<Byte>, other: seq<Byte>)
    requires AllSupported(rs)
  {
    var l := LoadAll(true, rs);
    forall k :: 0 <= k < |l.chunks| && Patching.Index(l.chunks[k].buf, cfg.searchBegin) != -1 ==>
      var begin := Patching.Index(l.chunks[k].buf, cfg.searchBegin);
      var fsl := Patching.FirstSliceLen(l.records, l.chunks[k].offset + begin);
      && 0 <= fsl < SLICE_LEN && fsl in cfg.foundCerts
      && (Holds(fsl, blob, pem, cfg.foundCerts[fsl].mangled) || Holds(fsl, blob, other, cfg.foundCerts[fsl].mangled))
  }

  // ---------- With the certificates of a pair ----------

  /** From the search to the thermostat: after the search has found a pair, a firmware that carries the
      original certificate in full records always comes out valid, and what stands in the place of
      the certificate is, behind its padding, one of the two new ones. */
  lemma {:induction false} PairGivesValidFirmware(cfg: Patching.Config, rs: seq<Raw>, rest: seq<Byte>, blob: seq<Byte>,
                               certs: CertMap, pem: seq<Byte>, other: seq<Byte>)
      returns (rs': seq<Raw>)
    requires IsFile(rs) && WellPlaced(true, rs) && PlainEnd(rs) && Carries(cfg, rs, blob)
    requires AllMangled(blob, certs) && FromPair(certs, pem, other) && certs.Keys == Alignments()
    requires SameStore(cfg.foundCerts, certs)
    ensures AllSupported(rs') && |rs'| == |rs|
    ensures Mutate(cfg, FileBytes(rs) + rest) == Done(FileBytes(rs'))
    ensures KeepsChecksums(rs, rs') && OnlyRegionsReplaced(cfg, rs, rs') && RegionsHold(cfg, rs, blob, pem, other)
  {
    hide LoadAll, CarriesIn, Occupies, Mutate, FileBytes, KeepsChecksums, StoredFor, OnlyRegionsReplaced, AllPass,
      IsMangled, Alignments, SameStore, RegionsHold;
    MangledPass(blob, certs);
    SearchStores(cfg, certs, blob);
    NotEmpty(blob, certs);
    rs' := PatchedFirmwareIsValid(cfg, rs, rest, blob);
    PairHolds(cfg, rs, blob, certs, pem, other);
  }

  lemma NotEmpty(blob: seq<Byte>, certs: CertMap)
    requires AllMangled(blob, certs) && certs.Keys == Alignments()
    ensures blob != []
  {
    hide Mangle, Alignments;
    EveryAlignment(0);
    assert 0 in certs.Keys;
  }

  lemma {:induction false} PairHolds(cfg: Patching.Config, rs: seq<Raw>, blob: seq<Byte>, certs: CertMap,
                                     pem: seq<Byte>, other: seq<Byte>)
    requires AllSupported(rs) && Carries(cfg, rs, blob) && AllMangled(blob, certs) && FromPair(certs, pem, other)
    requires certs.Keys == Alignments() && SameStore(cfg.foundCerts, certs)
    ensures RegionsHold(cfg, rs, blob, pem, other)
  {
    hide LoadAll, Regular, Alignments, IsMangled, Holds, Patching.Index, Patching.FirstSliceLen;
    var l := LoadAll(true, rs);
    forall k | 0 <= k < |l.chunks| && Patching.Index(l.chunks[k].buf, cfg.searchBegin) != -1
      ensures var begin := Patching.Index(l.chunks[k].buf, cfg.searchBegin);
        var fsl := Patching.FirstSliceLen(l.records, l.chunks[k].offset + begin);
        && 0 <= fsl < SLICE_LEN && fsl in cfg.foundCerts
        && (Holds(fsl, blob, pem, cfg.foundCerts[fsl].mangled) || Holds(fsl, blob, other, cfg.foundCerts[fsl].mangled))
    {
      assert CarriesIn(cfg, rs, l.chunks[k], blob);
      var fsl: Alignment :=
        Patching.FirstSliceLen(l.records, l.chunks[k].offset + Patching.Index(l.chunks[k].buf, cfg.searchBegin));
      EveryAlignment(fsl);
      assert fsl in certs.Keys;
      StoredHolds(fsl, blob, certs[fsl]);
    }
  }

  lemma StoredHolds(fsl: Alignment, blob: seq<Byte>, cert: Certs.Cert)
    requires IsMangled(fsl, blob, cert)
    ensures Holds(fsl, blob, cert.pub, cert.mangled)
  {
    hide Mangle, Holds;
    MangledHolds(fsl, blob, cert.pub);
  }
}
