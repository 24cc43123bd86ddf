/** What the firmware patch promises: with replacements that pass the mangler's final
    check at the right alignment, every checksum of the file is kept. */
module PatchEffect {
  import opened Bytes
  import opened SliceGrid
  import opened CertSearch
  import opened FileChecksum
  import opened HexFormat
  import opened Memory
  import opened Loading
  import opened Layout
  import opened Firmware
  import opened Preservation
  import Certs
  import Patching

  // ---------- Without a certificate: a byte-exact round trip ----------

  /** The data of a loaded record, found in its buffer. */
  lemma {:induction false} RecordInBuffer(rs: seq<Raw>, ds: seq<Chunk>, i: nat) returns (k: nat, pos: nat)
    requires WellPlaced(true, rs) && PatchesOf(rs, ds) && i < |rs| && rs[i].recType == DATA
    ensures k < |ds| && pos == |BufAt(Before(true, rs, i), ds[k].offset)| && pos + |rs[i].data| <= |ds[k].buf|
    ensures |BufAt(Before(true, rs, i + 1), ds[k].offset)| == pos + |rs[i].data|
    ensures forall o' :: o' != ds[k].offset ==> BufAt(Before(true, rs, i + 1), o') == BufAt(Before(true, rs, i), o')
    ensures Tidy(ds) && Spot(true, rs, i) == ds[k].offset + pos
    ensures ds[k].buf[pos..pos + |rs[i].data|] == rs[i].data
    ensures Rewritten(PatchedMemory(ds), rs)[i].data == PatchedBuf(ds[k])[pos..pos + |rs[i].data|]
  {
    hide LoadAll, Write, BufAt, ByteAt, PatchedBuf, Occupies, BytesFrom;
    k := FindRecord(rs, i);
    pos := |BufAt(Before(true, rs, i), ds[k].offset)|;
    PatchedBytes(ds, k, pos, |rs[i].data|);
  }

  /** A file in which no buffer contains the start marker comes out as it went in, except
      that its end-of-file record is filled with zeros: byte for byte the same if and only
      if that record carried nothing but zeros. */
  lemma {:induction false} UnpatchedRoundTrip(cfg: Patching.Config, rs: seq<Raw>, rest: seq<Byte>)
    requires IsFile(rs) && WellPlaced(true, rs)
    requires forall k :: 0 <= k < |LoadAll(true, rs).chunks| ==>
      Patching.Index(LoadAll(true, rs).chunks[k].buf, cfg.searchBegin) == -1
    ensures var last := rs[|rs| - 1];
      && Mutate(cfg, FileBytes(rs) + rest) == Done(FileBytes(rs[..|rs| - 1] + [last.(data := Fill(0, |last.data|))]))
      && (Mutate(cfg, FileBytes(rs) + rest) == Done(FileBytes(rs)) <==> last.data == Fill(0, |last.data|))
  {
    hide LoadAll, FileBytes, Mutate, Occupies, ByteAt, ParseFile;
    var l := LoadAll(true, rs);
    Patching.UpdateEach(l.chunks, l.records, cfg, |l.chunks|);
    var ds := Patching.Update(l.chunks, l.records, cfg).value;
    assert ds == l.chunks;
    LoadedRecords(true, rs);
    MutateExactly(cfg, rs, rest, ds);
    ClippedInside(ds);
    var rs' := Rewritten(PatchedMemory(ds), rs);
    forall i | 0 <= i < |rs| && rs[i].recType == DATA ensures rs'[i] == rs[i] {
      var k, pos := RecordInBuffer(rs, ds, i);
    }
    var last := rs[|rs| - 1];
    assert rs' == rs[..|rs| - 1] + [last.(data := Fill(0, |last.data|))];
    if last.data == Fill(0, |last.data|) {
      assert rs' == rs;
    }
    if FileBytes(rs') == FileBytes(rs) {
      FilesAreParsed(rs, []);
      FilesAreParsed(rs', []);
      assert rs'[|rs| - 1] == last;
    }
  }

  // ---------- Record sums ----------

  /** The bytes that a patch replaces. */
  function Region(d: Chunk): seq<Byte>
    requires d.PatchInside() && d.patch.Some?
  {
    d.buf[d.patch.value.begin..d.patch.value.begin + d.patch.value.length]
  }

  /** The stretch [pos, pos + n) of a buffer covers nothing of the region, or one slice of it. */
  ghost predicate OnGrid(fsl: Alignment, p: Patch, pos: nat, n: nat) {
    || pos + n <= p.begin || p.begin + p.length <= pos
    || exists j: nat :: CoversSlice(fsl, p, pos, n, j)
  }

  predicate CoversSlice(fsl: Alignment, p: Patch, pos: nat, n: nat, j: nat) {
    && Max(pos, p.begin) == p.begin + Bound(fsl, p.length, j)
    && Min(pos + n, p.begin + p.length) == p.begin + Bound(fsl, p.length, j + 1)
  }

  /** A replacement of the region's length that passes the final check. */
  ghost predicate GoodPatch(fsl: Alignment, d: Chunk)
    requires d.PatchInside() && d.patch.Some?
  {
    |d.patch.value.rest| == d.patch.value.length && Acceptable(fsl, Region(d), d.patch.value.rest)
  }

  /** A patched stretch on the grid keeps its 8-bit sum. */
  lemma StretchKeepsSum(fsl: Alignment, d: Chunk, pos: nat, n: nat)
    requires d.PatchInside() && d.patch.Some? && pos + n <= |d.buf|
    requires GoodPatch(fsl, d) && OnGrid(fsl, d.patch.value, pos, n)
    ensures Same8(d.buf[pos..pos + n], PatchedBuf(d)[pos..pos + n])
  {
    hide Sum;
    var p := d.patch.value;
    if pos + n <= p.begin || p.begin + p.length <= pos {
      OffPatch(d, pos, n);
    } else {
      var j: nat :| CoversSlice(fsl, p, pos, n, j);
      SliceOfStretch(fsl, d, pos, n, j);
    }
  }

  lemma SliceOfStretch(fsl: Alignment, d: Chunk, pos: nat, n: nat, j: nat)
    requires d.PatchInside() && d.patch.Some? && pos + n <= |d.buf| && GoodPatch(fsl, d)
    requires var p := d.patch.value;
      CoversSlice(fsl, p, pos, n, j) && p.begin < pos + n && pos < p.begin + p.length
    ensures Same8(d.buf[pos..pos + n], PatchedBuf(d)[pos..pos + n])
  {
    hide Sum, Bound;
    var p := d.patch.value;
    var from, to := Bound(fsl, p.length, j), Bound(fsl, p.length, j + 1);
    BoundMonotone(fsl, p.length, j);
    assert SliceAgrees(fsl, Region(d), p.rest, j);
    StretchWithSlice(d, pos, n, from, to);
  }

  lemma StretchWithSlice(d: Chunk, pos: nat, n: nat, from: nat, to: nat)
    requires d.PatchInside() && d.patch.Some? && pos + n <= |d.buf| && |d.patch.value.rest| == d.patch.value.length
    requires var p := d.patch.value;
      && from <= to <= p.length
      && Max(pos, p.begin) == p.begin + from && Min(pos + n, p.begin + p.length) == p.begin + to
      && p.begin < pos + n && pos < p.begin + p.length && Same8(Region(d)[from..to], p.rest[from..to])
    ensures Same8(d.buf[pos..pos + n], PatchedBuf(d)[pos..pos + n])
  {
    hide Same8;
    var p := d.patch.value;
    var left := p.begin + from;
    PatchedStretch(d.buf, p.begin, p.length, p.rest, pos, n, from, to);
    PartOfPart(d.buf, p.begin, p.length, from, to);
    ThreeParts(d.buf, pos, left, p.begin + to, pos + n);
    SwapMiddle(d.buf[pos..left], Region(d)[from..to], p.rest[from..to], d.buf[p.begin + to..pos + n]);
  }

  lemma PartOfPart(s: seq<Byte>, begin: nat, length: nat, from: nat, to: nat)
    requires begin + length <= |s| && from <= to <= length
    ensures s[begin..begin + length][from..to] == s[begin + from..begin + to]
  {
    var a, b := s[begin..begin + length][from..to], s[begin + from..begin + to];
    forall k | 0 <= k < to - from ensures a[k] == b[k] {}
  }

  lemma ThreeParts(s: seq<Byte>, a: nat, b: nat, c: nat, d: nat)
    requires a <= b <= c <= d <= |s|
    ensures s[a..d] == s[a..b] + s[b..c] + s[c..d]
  {}

  lemma SwapMiddle(a: seq<Byte>, b: seq<Byte>, b': seq<Byte>, c: seq<Byte>)
    requires Same8(b, b')
    ensures Same8(a + b + c, a + b' + c)
  {
    hide SumTo;
    SumConcat(a, b);
    SumConcat(a, b');
    SumConcat(a + b, c);
    SumConcat(a + b', c);
    Add8(Sum(b), Sum(a) + Sum(c), Sum(b'), Sum(a) + Sum(c));
  }

  /** A patched buffer whose replacement is good at the alignment that the update looks
      it up for, and whose records lie on the grid of that alignment. */
  ghost predicate AlignedBuffer(rs: seq<Raw>, d: Chunk)
    requires AllSupported(rs) && d.PatchInside()
  {
    d.patch.Some? ==>
      var p := d.patch.value;
      var fsl := Patching.FirstSliceLen(LoadAll(true, rs).records, d.offset + p.begin);
      && 0 <= fsl < SLICE_LEN && GoodPatch(fsl, d)
      && forall i :: 0 <= i < |rs| && rs[i].recType == DATA && d.Contains(Spot(true, rs, i)) ==>
           OnGrid(fsl, p, Spot(true, rs, i) - d.offset, |rs[i].data|)
  }

  ghost predicate Aligned(rs: seq<Raw>, ds: seq<Chunk>)
    requires AllSupported(rs) && PatchesOf(rs, ds)
  {
    forall k :: 0 <= k < |ds| ==> AlignedBuffer(rs, ds[k])
  }

  lemma {:induction false} AlignedSumsKept(rs: seq<Raw>, ds: seq<Chunk>)
    requires WellPlaced(true, rs) && PatchesOf(rs, ds) && Aligned(rs, ds)
    ensures SumsKept(rs, Rewritten(PatchedMemory(ds), rs), |rs|)
  {
    hide LoadAll, Occupies, Same8, OnGrid, Rewritten, Tidy, PatchedMemory, GoodPatch;
    forall i | 0 <= i < |rs| && rs[i].recType == DATA
      ensures Same8(rs[i].data, Rewritten(PatchedMemory(ds), rs)[i].data)
    {
      var k, pos := RecordInBuffer(rs, ds, i);
      assert AlignedBuffer(rs, ds[k]) && rs[i].data != [] && ds[k].Contains(Spot(true, rs, i));
      if ds[k].patch.Some? {
        var fsl := Patching.FirstSliceLen(LoadAll(true, rs).records, ds[k].offset + ds[k].patch.value.begin);
        StretchKeepsSum(fsl, ds[k], pos, |rs[i].data|);
      } else {
        SameItself(rs[i].data);
      }
    }
  }

  // ---------- The file sum ----------

  /** Replacing a record's data by data with the same 8-bit sum keeps its header and its
      checksum byte, so the record's sum changes by what the data's sum changes by. */
  lemma RecordSum(r: Raw, r': Raw)
    requires Supported(r) && r'.offset == r.offset && r'.recType == r.recType
    requires |r'.data| == |r.data| && Same8(r.data, r'.data)
    ensures Supported(r') && Header(r') == Header(r) && Checksum(r') == Checksum(r)
    ensures Sum(RecordBytes(r')) - Sum(RecordBytes(r)) == Sum(r'.data) - Sum(r.data)
  {
    hide SumTo;
    SumConcat(Header(r), r.data);
    SumConcat(Header(r), r'.data);
    Add8(Sum(Header(r)), Sum(r.data), Sum(Header(r)), Sum(r'.data));
    SumConcat([MARK] + Header(r), r.data);
    SumConcat([MARK] + Header(r), r'.data);
    SumConcat([MARK] + Header(r) + r.data, [Checksum(r)]);
    SumConcat([MARK] + Header(r) + r'.data, [Checksum(r)]);
  }

  ghost predicate FrontsInside(ds: seq<Chunk>, bs: seq<Chunk>) {
    forall k :: 0 <= k < |ds| ==> |BufAt(bs, ds[k].offset)| <= |ds[k].buf|
  }

  /** By how much the patch changes the sum of the parts that `bs` has of the first `n` buffers. */
  ghost function GainTo(ds: seq<Chunk>, bs: seq<Chunk>, n: nat): int
    requires PatchesInside(ds) && n <= |ds| && FrontsInside(ds, bs)
  {
    if n == 0 then 0 else
    var front := |BufAt(bs, ds[n - 1].offset)|;
    GainTo(ds, bs, n - 1) + (Sum(PatchedBuf(ds[n - 1])[..front]) - Sum(ds[n - 1].buf[..front]))
  }

  lemma {:induction false} FrontsStayInside(rs: seq<Raw>, ds: seq<Chunk>, i: nat)
    requires WellPlaced(true, rs) && PatchesOf(rs, ds) && i <= |rs|
    ensures FrontsInside(ds, Before(true, rs, i))
  {
    hide LoadAll, BufAt, Occupies, Tidy;
    StaysTidy(true, rs, |rs|);
    LoadedIsLast(rs);
    forall k | 0 <= k < |ds| ensures |BufAt(Before(true, rs, i), ds[k].offset)| <= |ds[k].buf| {
      BuffersGrow(true, rs, i, |rs|, ds[k].offset);
      BufAtIndex(LoadAll(true, rs).chunks, k);
    }
  }

  lemma PrefixSums(s: seq<Byte>, pos: nat, n: nat)
    requires pos + n <= |s|
    ensures Sum(s[..pos + n]) == Sum(s[..pos]) + Sum(s[pos..pos + n])
  {
    SumSplit(s[..pos + n], pos);
    assert s[..pos + n][..pos] == s[..pos] && s[..pos + n][pos..] == s[pos..pos + n];
  }

  /** Reading on in one buffer. */
  lemma {:induction false} GainStep(ds: seq<Chunk>, bs: seq<Chunk>, bs': seq<Chunk>, k: nat, pos: nat, n: nat, m: nat)
    requires PatchesInside(ds) && Tidy(ds) && k < |ds| && m <= |ds| && pos + n <= |ds[k].buf|
    requires FrontsInside(ds, bs) && FrontsInside(ds, bs')
    requires |BufAt(bs, ds[k].offset)| == pos && |BufAt(bs', ds[k].offset)| == pos + n
    requires forall o :: o != ds[k].offset ==> BufAt(bs', o) == BufAt(bs, o)
    ensures GainTo(ds, bs', m) == GainTo(ds, bs, m)
      + if k < m then Sum(PatchedBuf(ds[k])[pos..pos + n]) - Sum(ds[k].buf[pos..pos + n]) else 0
  {
    hide BufAt, PatchedBuf, Sum;
    if m > 0 {
      GainStep(ds, bs, bs', k, pos, n, m - 1);
      if m - 1 == k {
        PrefixSums(PatchedBuf(ds[k]), pos, n);
        PrefixSums(ds[k].buf, pos, n);
      }
    }
  }

  lemma {:induction false} NoGainYet(ds: seq<Chunk>, n: nat)
    requires PatchesInside(ds) && n <= |ds| && FrontsInside(ds, [])
    ensures GainTo(ds, [], n) == 0
  {
    if n > 0 {
      NoGainYet(ds, n - 1);
      assert PatchedBuf(ds[n - 1])[..0] == ds[n - 1].buf[..0];
    }
  }

  /** The end-of-file record, where there is one, carries nothing but zeros. */
  ghost predicate PlainEnd(rs: seq<Raw>) {
    forall i :: 0 <= i < |rs| && rs[i].recType == END_OF_FILE ==> rs[i].data == Fill(0, |rs[i].data|)
  }

  lemma {:induction false} SameShape(mem: seq<Chunk>, rs: seq<Raw>, i: nat)
    requires AllSupported(rs) && i < |rs|
    ensures var r' := Rewritten(mem, rs)[i];
      r'.offset == rs[i].offset && r'.recType == rs[i].recType && |r'.data| == |rs[i].data|
  {}

  lemma {:induction false} DataRecordGain(rs: seq<Raw>, ds: seq<Chunk>, i: nat)
    requires AllSupported(rs) && PatchesInside(ds)
    requires WellPlaced(true, rs) && PatchesOf(rs, ds) && i < |rs| && rs[i].recType == DATA
    requires SumsKept(rs, Rewritten(PatchedMemory(ds), rs), |rs|)
    requires FrontsInside(ds, Before(true, rs, i)) && FrontsInside(ds, Before(true, rs, i + 1))
    ensures GainTo(ds, Before(true, rs, i + 1), |ds|) - GainTo(ds, Before(true, rs, i), |ds|)
      == Sum(RecordBytes(Rewritten(PatchedMemory(ds), rs)[i])) - Sum(RecordBytes(rs[i]))
  {
    hide *;
    var r' := Rewritten(PatchedMemory(ds), rs)[i];
    KeptData(rs, ds, i);
    var k, pos := RecordInBuffer(rs, ds, i);
    RecordSum(rs[i], r');
    GainStep(ds, Before(true, rs, i), Before(true, rs, i + 1), k, pos, |rs[i].data|, |ds|);
  }

  lemma {:induction false} KeptData(rs: seq<Raw>, ds: seq<Chunk>, i: nat)
    requires AllSupported(rs) && PatchesOf(rs, ds) && i < |rs| && rs[i].recType == DATA
    requires SumsKept(rs, Rewritten(PatchedMemory(ds), rs), |rs|)
    ensures PatchesInside(ds) && Supported(rs[i])
    ensures var r' := Rewritten(PatchedMemory(ds), rs)[i];
      && r'.offset == rs[i].offset && r'.recType == rs[i].recType && |r'.data| == |rs[i].data|
      && Same8(rs[i].data, r'.data)
  {
    hide LoadAll, PatchedMemory, BytesFrom, Same8, Spot;
    SameShape(PatchedMemory(ds), rs, i);
  }

  /** Record by record, the file's sum changes by what the buffers' sums change by. */
  lemma {:induction false} FileGain(rs: seq<Raw>, ds: seq<Chunk>, n: nat)
    requires WellPlaced(true, rs) && PatchesOf(rs, ds) && PlainEnd(rs) && n <= |rs|
    requires SumsKept(rs, Rewritten(PatchedMemory(ds), rs), |rs|) && FrontsInside(ds, Before(true, rs, n))
    ensures Sum(FileBytes(Rewritten(PatchedMemory(ds), rs)[..n])) - Sum(FileBytes(rs[..n]))
      == GainTo(ds, Before(true, rs, n), |ds|)
  {
    hide LoadAll, Before, Occupies, PatchedMemory, Sum, RecordBytes, Same8, Spot, BytesFrom;
    hide GainTo, FrontsInside, SumsKept;
    var rs' := Rewritten(PatchedMemory(ds), rs);
    if n == 0 {
      NothingLoaded(true, rs);
      NoGainYet(ds, |ds|);
    } else {
      FrontsStayInside(rs, ds, n - 1);
      FileGain(rs, ds, n - 1);
      NextSum(rs, n - 1);
      NextSum(rs', n - 1);
      LoadStep(true, rs, n - 1);
      if rs[n - 1].recType == DATA {
        DataRecordGain(rs, ds, n - 1);
      } else {
        assert rs'[n - 1] == rs[n - 1];
      }
    }
  }

  /** A good replacement changes a buffer's sum by a multiple of 2^16. */
  lemma BufferGain(fsl: Alignment, d: Chunk)
    requires d.PatchInside() && d.patch.Some? && GoodPatch(fsl, d)
    ensures (Sum(PatchedBuf(d)) - Sum(d.buf)) % 0x1_0000 == 0
  {
    hide SumTo, SlicesAgree;
    var Patch(begin, length, str) := d.patch.value;
    var a, c := d.buf[..begin], d.buf[begin + length..];
    assert d.buf == a + Region(d) + c && PatchedBuf(d) == a + str + c by { assert str[..length] == str; }
    SumConcat(a, Region(d));
    SumConcat(a + Region(d), c);
    SumConcat(a, str);
    SumConcat(a + str, c);
    Add16(Sum(Region(d)), 0 - Sum(Region(d)), Sum(str), 0 - Sum(Region(d)));
  }

  lemma {:induction false} WholeGain(rs: seq<Raw>, ds: seq<Chunk>, n: nat)
    requires WellPlaced(true, rs) && PatchesOf(rs, ds) && Aligned(rs, ds)
    requires n <= |ds| && FrontsInside(ds, Before(true, rs, |rs|))
    ensures GainTo(ds, Before(true, rs, |rs|), n) % 0x1_0000 == 0
  {
    hide BufAt, LoadAll, Occupies, Tidy, GoodPatch, PatchedBuf, OnGrid, Sum;
    if n > 0 {
      WholeGain(rs, ds, n - 1);
      var d := ds[n - 1];
      StaysTidy(true, rs, |rs|);
      LoadedIsLast(rs);
      BufAtIndex(LoadAll(true, rs).chunks, n - 1);
      assert PatchedBuf(d)[..|d.buf|] == PatchedBuf(d) && d.buf[..|d.buf|] == d.buf;
      assert AlignedBuffer(rs, d);
      var gain := Sum(PatchedBuf(d)) - Sum(d.buf);
      if d.patch.Some? {
        BufferGain(Patching.FirstSliceLen(LoadAll(true, rs).records, d.offset + d.patch.value.begin), d);
      } else {
        NoPatchNoGain(d);
      }
      Add16(GainTo(ds, Before(true, rs, |rs|), n - 1), gain, 0, 0);
    }
  }

  lemma NoPatchNoGain(d: Chunk)
    requires d.patch == None
    ensures PatchedBuf(d) == d.buf
  {}

  // ---------- Files with full records ----------

  /** Data records come in ascending order, and those that start in the region
      [at, at + length) have 128 bytes. */
  ghost predicate Regular(rs: seq<Raw>, at: int, length: nat)
    requires AllSupported(rs)
  {
    && (forall i :: 0 <= i < |rs| && rs[i].recType == DATA ==> Spot(true, rs, i) >= 0)
    && (forall i, j :: 0 <= i < j < |rs| && rs[i].recType == rs[j].recType == DATA ==>
          Spot(true, rs, i) < Spot(true, rs, j))
    && forall i :: 0 <= i < |rs| && rs[i].recType == DATA && at <= Spot(true, rs, i) < at + length ==>
         |rs[i].data| == SLICE_LEN
  }

  lemma {:induction false} FirstListed(records: seq<Record>, at: int) returns (f: nat)
    requires Patching.FirstSliceLen(records, at) >= 0
    ensures f < |records| && records[f].readOffset == at + Patching.FirstSliceLen(records, at)
    ensures forall j :: 0 <= j < f ==> records[j].readOffset < at
  {
    if records[0].readOffset >= at {
      f := 0;
    } else {
      f := FirstListed(records[1..], at);
      assert forall j :: 1 <= j < f + 1 ==> records[j] == records[1..][j - 1];
      f := f + 1;
    }
  }

  lemma {:induction false} OtherRecordsAtZero(rs: seq<Raw>, i: nat)
    requires AllSupported(rs) && i < |rs| && rs[i].recType != DATA
    ensures Spot(true, rs, i) == 0
  {
    RecordsStable(true, rs, i + 1);
    LoadStep(true, rs, i);
    assert LoadAll(true, rs).records[i] == LoadAll(true, rs[..i + 1]).records[i];
  }

  /** In an ascending file the first boundary after the start of the region is where the
      update finds it, for any address that is covered. */
  lemma {:induction false} FirstBoundary(rs: seq<Raw>, at: int, length: nat) returns (f: nat)
    requires WellPlaced(true, rs) && Regular(rs, at, length) && Written(true, rs, |rs|, at)
    requires Patching.FirstSliceLen(LoadAll(true, rs).records, at) >= 0
    ensures var fsl := Patching.FirstSliceLen(LoadAll(true, rs).records, at);
      && f < |rs| && rs[f].recType == DATA && Spot(true, rs, f) == at + fsl
      && forall i :: 0 <= i < |rs| && rs[i].recType == DATA && Spot(true, rs, i) >= at ==> Spot(true, rs, i) >= at + fsl
  {
    hide LoadAll;
    var records := LoadAll(true, rs).records;
    f := FirstListed(records, at);
    forall i | 0 <= i < f && rs[i].recType == DATA ensures Spot(true, rs, i) < at {}
    if rs[f].recType != DATA {
      OtherRecordsAtZero(rs, f);
      var m :| 0 <= m < |rs| && Occupies(true, rs, m, at);
      assert Spot(true, rs, m) == 0;
      f := m;
    }
  }

  /** Two data records that both reach an address are the same one. */
  lemma {:induction false} SameRecord(rs: seq<Raw>, i: nat, j: nat, a: int)
    requires WellPlaced(true, rs) && i < |rs| && j < |rs| && Occupies(true, rs, i, a) && Occupies(true, rs, j, a)
    ensures i == j
  {
    hide Spot;
  }

  /** In a regular file every record boundary in the region is on the grid. */
  lemma {:induction false} BoundariesOnGrid(rs: seq<Raw>, at: int, length: nat, f: nat, i: nat)
    requires WellPlaced(true, rs) && Regular(rs, at, length) && f < |rs| && i < |rs|
    requires rs[f].recType == rs[i].recType == DATA && at <= Spot(true, rs, f) <= Spot(true, rs, i) < at + length
    requires forall a :: at <= a < at + length ==> Written(true, rs, |rs|, a)
    ensures (Spot(true, rs, i) - Spot(true, rs, f)) % SLICE_LEN == 0
    decreases Spot(true, rs, i) - at
  {
    hide LoadAll, Spot;
    var s := Spot(true, rs, i);
    if Spot(true, rs, f) < s {
      assert Written(true, rs, |rs|, s - 1);
      var m :| 0 <= m < |rs| && Occupies(true, rs, m, s - 1);
      assert Occupies(true, rs, i, s) && Occupies(true, rs, f, Spot(true, rs, f));
      if Spot(true, rs, m) < Spot(true, rs, f) {
        SameRecord(rs, m, f, Spot(true, rs, f));
      }
      if s < Spot(true, rs, m) + |rs[m].data| {
        SameRecord(rs, m, i, s);
      }
      BoundariesOnGrid(rs, at, length, f, m);
    }
  }

  lemma {:induction false} AllWritten(rs: seq<Raw>, d: Chunk, k: nat)
    requires WellPlaced(true, rs) && k < |LoadAll(true, rs).chunks|
    requires d.offset == LoadAll(true, rs).chunks[k].offset && d.buf == LoadAll(true, rs).chunks[k].buf
    ensures forall a :: d.Contains(a) ==> Written(true, rs, |rs|, a)
  {
    hide LoadAll, ByteAt, Occupies;
    StaysTidy(true, rs, |rs|);
    LoadedIsLast(rs);
    forall a | d.Contains(a) ensures Written(true, rs, |rs|, a) {
      BytesOfChunk(LoadAll(true, rs).chunks, k, a);
    }
  }

  /** Regular files meet the grid condition. */
  lemma {:induction false} RegularOnGrid(rs: seq<Raw>, ds: seq<Chunk>, k: nat, i: nat)
    requires WellPlaced(true, rs) && PatchesOf(rs, ds) && k < |ds| && ds[k].patch.Some?
    requires i < |rs| && rs[i].recType == DATA && ds[k].Contains(Spot(true, rs, i))
    requires var p := ds[k].patch.value;
      && p.length > 0 && Regular(rs, ds[k].offset + p.begin, p.length)
      && 0 <= Patching.FirstSliceLen(LoadAll(true, rs).records, ds[k].offset + p.begin) < SLICE_LEN
    ensures var p := ds[k].patch.value;
      OnGrid(Patching.FirstSliceLen(LoadAll(true, rs).records, ds[k].offset + p.begin), p,
             Spot(true, rs, i) - ds[k].offset, |rs[i].data|)
  {
    hide LoadAll, Spot;
    var d, p, s, n := ds[k], ds[k].patch.value, Spot(true, rs, i), |rs[i].data|;
    var at := d.offset + p.begin;
    var fsl := Patching.FirstSliceLen(LoadAll(true, rs).records, at);
    AllWritten(rs, d, k);
    assert forall a :: at <= a < at + p.length ==> d.Contains(a);
    var f := FirstBoundary(rs, at, p.length);
    if at <= s < at + p.length {
      BoundariesOnGrid(rs, at, p.length, f, i);
      GridSlice(fsl, p, s - d.offset);
    } else if s < at < s + n {
      assert Occupies(true, rs, f, at + fsl);
      if at + fsl < s + n {
        SameRecord(rs, i, f, at + fsl);
      }
      if s + n < at + p.length {
        assert Written(true, rs, |rs|, s + n);
        var m :| 0 <= m < |rs| && Occupies(true, rs, m, s + n);
        assert Occupies(true, rs, i, s + n - 1);
        if Spot(true, rs, m) < s + n {
          StartsLater(rs, i, m);
        }
      }
      assert CoversSlice(fsl, p, s - d.offset, n, 0);
    }
  }

  lemma {:induction false} StartsLater(rs: seq<Raw>, i: nat, m: nat)
    requires WellPlaced(true, rs) && i < |rs| && m < |rs| && rs[i].recType == rs[m].recType == DATA
    requires Spot(true, rs, m) + |rs[m].data| > Spot(true, rs, i) + |rs[i].data|
    ensures Spot(true, rs, m) >= Spot(true, rs, i) + |rs[i].data|
  {
    hide Spot;
    var si, sm := Spot(true, rs, i), Spot(true, rs, m);
    if sm < si + |rs[i].data| {
      var a := Max(si, sm);
      assert Occupies(true, rs, i, a) && Occupies(true, rs, m, a);
      SameRecord(rs, i, m, a);
    }
  }

  lemma GridSlice(fsl: Alignment, p: Patch, pos: nat)
    requires p.begin + fsl <= pos < p.begin + p.length && (pos - p.begin - fsl) % SLICE_LEN == 0
    ensures OnGrid(fsl, p, pos, SLICE_LEN)
  {
    var j := (pos - p.begin - fsl) / SLICE_LEN + 1;
    assert CoversSlice(fsl, p, pos, SLICE_LEN, j);
  }

  // ---------- The patch as a whole ----------

  /** The stored replacements, as the certificate search leaves them: each one passes the
      final check for the original blob at its alignment. */
  ghost predicate StoredFor(cfg: Patching.Config, blob: seq<Byte>) {
    forall fsl :: fsl in cfg.foundCerts ==>
      && 0 <= fsl < SLICE_LEN && |cfg.foundCerts[fsl].mangled| == |blob|
      && Acceptable(fsl, blob, cfg.foundCerts[fsl].mangled)
  }

  /** What the update finds is the original blob, in full records. */
  ghost predicate FoundRegular(rs: seq<Raw>, d: Chunk, blob: seq<Byte>)
    requires AllSupported(rs)
  {
    d.patch.Some? ==>
      d.PatchInside() && Region(d) == blob && blob != [] && Regular(rs, d.offset + d.patch.value.begin, |blob|)
  }

  /** The update is given what the search found. */
  ghost predicate SameStore(found: map<int, Certs.Cert>, certs: CertMap) {
    forall a: int :: (a in found <==> 0 <= a < SLICE_LEN && a in certs) && (a in found ==> found[a] == certs[a])
  }

  /** What the search for certificates leaves behind is a store of such replacements. */
  lemma SearchStores(cfg: Patching.Config, certs: CertMap, blob: seq<Byte>)
    requires AllPass(blob, certs) && SameStore(cfg.foundCerts, certs)
    ensures StoredFor(cfg, blob)
    ensures certs.Keys == Alignments() ==> forall a: int :: 0 <= a < SLICE_LEN ==> a in cfg.foundCerts
  {
    hide Acceptable, Alignments;
    forall a: int | 0 <= a < SLICE_LEN && certs.Keys == Alignments() ensures a in cfg.foundCerts {
      EveryAlignment(a);
      assert a in certs.Keys;
    }
  }

  lemma EveryAlignment(a: Alignment)
    ensures a in Alignments()
  {}

  /** Updating the loaded memory gives that memory with patches. */
  lemma {:induction false} UpdateGivesPatches(cfg: Patching.Config, rs: seq<Raw>, ds: seq<Chunk>)
    requires AllSupported(rs) && PatchesInside(ds)
    requires Patching.Update(LoadAll(true, rs).chunks, LoadAll(true, rs).records, cfg) == Some(ds)
    ensures PatchesOf(rs, ds)
  {
    hide LoadAll, Patching.FindPatch;
    var l := LoadAll(true, rs);
    LoadedRecords(true, rs);
    Patching.UpdateEach(l.chunks, l.records, cfg, |l.chunks|);
  }

  lemma {:induction false} FoundIsAligned(cfg: Patching.Config, rs: seq<Raw>, ds: seq<Chunk>, blob: seq<Byte>)
    requires WellPlaced(true, rs) && StoredFor(cfg, blob)
    requires Patching.Update(LoadAll(true, rs).chunks, LoadAll(true, rs).records, cfg) == Some(ds) && PatchesOf(rs, ds)
    requires forall k :: 0 <= k < |ds| ==> FoundRegular(rs, ds[k], blob)
    ensures Aligned(rs, ds)
  {
    hide LoadAll, Spot, Acceptable, Occupies, OnGrid, Regular;
    hide Patching.Index, Patching.RegionLength, Patching.FirstSliceLen, Patching.UpdateTo;
    var l := LoadAll(true, rs);
    LoadedRecords(true, rs);
    Patching.UpdateEach(l.chunks, l.records, cfg, |l.chunks|);
    forall k | 0 <= k < |ds| ensures AlignedBuffer(rs, ds[k]) {
      assert FoundRegular(rs, ds[k], blob);
      if ds[k].patch.Some? {
        forall i | 0 <= i < |rs| && rs[i].recType == DATA && ds[k].Contains(Spot(true, rs, i))
          ensures OnGrid(Patching.FirstSliceLen(l.records, ds[k].offset + ds[k].patch.value.begin), ds[k].patch.value,
                         Spot(true, rs, i) - ds[k].offset, |rs[i].data|)
        {
          RegularOnGrid(rs, ds, k, i);
        }
      }
    }
  }

  lemma {:induction false} SameLength(rs: seq<Raw>, rs': seq<Raw>, n: nat)
    requires AllSupported(rs) && AllSupported(rs') && |rs| == |rs'| && n <= |rs|
    requires forall i :: 0 <= i < |rs| ==> |rs'[i].data| == |rs[i].data|
    ensures |FileBytes(rs'[..n])| == |FileBytes(rs[..n])|
  {
    hide RecordBytes;
    if n > 0 {
      SameLength(rs, rs', n - 1);
      assert rs[..n][..n - 1] == rs[..n - 1] && rs'[..n][..n - 1] == rs'[..n - 1];
    }
  }

  lemma {:induction false} FileSumKept(rs: seq<Raw>, ds: seq<Chunk>)
    requires WellPlaced(true, rs) && PlainEnd(rs) && PatchesOf(rs, ds) && Aligned(rs, ds)
    ensures FileSum(Rewritten(PatchedMemory(ds), rs)) == FileSum(rs)
  {
    hide LoadAll, Occupies, FileBytes, PatchedMemory, BytesFrom, Spot, Aligned, Sum;
    var rs' := Rewritten(PatchedMemory(ds), rs);
    AlignedSumsKept(rs, ds);
    FrontsStayInside(rs, ds, |rs|);
    FileGain(rs, ds, |rs|);
    WholeGain(rs, ds, |ds|);
    assert rs[..|rs|] == rs && rs'[..|rs|] == rs';
    var sum, gain := Sum(FileBytes(rs)) - MARK * |rs|, GainTo(ds, Before(true, rs, |rs|), |ds|);
    Add16(sum, gain, sum, 0);
  }

  lemma {:induction false} HeadersKept(rs: seq<Raw>, ds: seq<Chunk>, i: nat)
    requires WellPlaced(true, rs) && PlainEnd(rs) && PatchesOf(rs, ds) && Aligned(rs, ds) && i < |rs|
    ensures var rs' := Rewritten(PatchedMemory(ds), rs);
      Header(rs'[i]) == Header(rs[i]) && Checksum(rs'[i]) == Checksum(rs[i])
  {
    hide LoadAll, Occupies, FileBytes, PatchedMemory, BytesFrom, Spot, Aligned, Sum, RecordBytes, Header, Checksum;
    var rs' := Rewritten(PatchedMemory(ds), rs);
    AlignedSumsKept(rs, ds);
    if rs[i].recType == DATA {
      RecordSum(rs[i], rs'[i]);
    } else {
      assert rs'[i] == rs[i];
    }
  }

  /** The output keeps everything that the firmware is checked by: the length, every
      header, every record's checksum byte, and the file sum. */
  ghost predicate KeepsChecksums(rs: seq<Raw>, rs': seq<Raw>)
    requires AllSupported(rs) && AllSupported(rs') && |rs| == |rs'|
  {
    && |FileBytes(rs')| == |FileBytes(rs)|
    && FileSum(rs') == FileSum(rs)
    && forall i :: 0 <= i < |rs| ==> Header(rs'[i]) == Header(rs[i]) && Checksum(rs'[i]) == Checksum(rs[i])
  }

  /** With aligned replacements the patch succeeds, and keeps all checksums. */
  lemma {:induction false} PatchKeepsChecksums(cfg: Patching.Config, rs: seq<Raw>, rest: seq<Byte>, ds: seq<Chunk>)
    requires IsFile(rs) && WellPlaced(true, rs) && PlainEnd(rs)
    requires Patching.Update(LoadAll(true, rs).chunks, LoadAll(true, rs).records, cfg) == Some(ds)
    requires PatchesOf(rs, ds) && Aligned(rs, ds)
    ensures var rs' := Rewritten(PatchedMemory(ds), rs);
      Mutate(cfg, FileBytes(rs) + rest) == Done(FileBytes(rs')) && KeepsChecksums(rs, rs')
  {
    hide LoadAll, Occupies, FileBytes, PatchedMemory, Mutate, BytesFrom, Spot, Aligned, Header, Checksum, FileSum;
    var rs' := Rewritten(PatchedMemory(ds), rs);
    MutateExactly(cfg, rs, rest, ds);
    ClippedInside(ds);
    AlignedSumsKept(rs, ds);
    FileSumKept(rs, ds);
    SameLength(rs, rs', |rs|);
    assert rs[..|rs|] == rs && rs'[..|rs|] == rs';
    forall i | 0 <= i < |rs| ensures Header(rs'[i]) == Header(rs[i]) && Checksum(rs'[i]) == Checksum(rs[i]) {
      HeadersKept(rs, ds, i);
    }
  }

  /** The patched memory has the replacement's bytes in the region, and is the loaded one
      everywhere else. */
  lemma PatchedMemoryDiffers(ds: seq<Chunk>, k: nat, a: int)
    requires Tidy(ds) && PatchesInside(ds) && k < |ds| && ds[k].Contains(a)
    ensures var x := a - ds[k].offset;
      ByteAt(PatchedMemory(ds), a) == Some(match ds[k].patch
        case None => ds[k].buf[x]
        case Some(Patch(begin, length, str)) =>
          if begin <= x < begin + Min(length, |str|) then str[x - begin] else ds[k].buf[x])
  {
    hide PatchedBuf, Tidy, ByteAt;
    PatchedIsTidy(ds);
    BytesOfChunk(PatchedMemory(ds), k, a);
    PatchedByte(ds[k], a - ds[k].offset);
  }

  lemma PatchedByte(d: Chunk, x: nat)
    requires d.PatchInside() && x < |d.buf|
    ensures PatchedBuf(d)[x] == match d.patch
      case None => d.buf[x]
      case Some(Patch(begin, length, str)) =>
        if begin <= x < begin + Min(length, |str|) then str[x - begin] else d.buf[x]
  {}

  /** When the update goes through and what it found is the original blob in full records, the
      patch succeeds and keeps all checksums. */
  lemma {:induction false} UpdatedFirmwareIsValid(cfg: Patching.Config, rs: seq<Raw>, rest: seq<Byte>,
                                                  ds: seq<Chunk>, blob: seq<Byte>)
    requires IsFile(rs) && WellPlaced(true, rs) && PlainEnd(rs) && StoredFor(cfg, blob)
    requires Patching.Update(LoadAll(true, rs).chunks, LoadAll(true, rs).records, cfg) == Some(ds)
    requires forall k :: 0 <= k < |ds| ==> FoundRegular(rs, ds[k], blob)
    ensures PatchesOf(rs, ds)
    ensures var rs' := Rewritten(PatchedMemory(ds), rs);
      Mutate(cfg, FileBytes(rs) + rest) == Done(FileBytes(rs')) && KeepsChecksums(rs, rs')
  {
    FoundIsInside(rs, ds, blob);
    hide LoadAll, FoundRegular, Occupies, Mutate, FileBytes, KeepsChecksums, PatchedMemory;
    UpdateGivesPatches(cfg, rs, ds);
    FoundIsAligned(cfg, rs, ds, blob);
    PatchKeepsChecksums(cfg, rs, rest, ds);
  }

  lemma {:induction false} FoundIsInside(rs: seq<Raw>, ds: seq<Chunk>, blob: seq<Byte>)
    requires AllSupported(rs) && forall k :: 0 <= k < |ds| ==> FoundRegular(rs, ds[k], blob)
    ensures PatchesInside(ds)
  {
    hide Regular;
    forall k | 0 <= k < |ds| ensures ds[k].PatchInside() {
      assert FoundRegular(rs, ds[k], blob);
    }
  }

  /** A patched firmware differs from the given one only in the regions, which become the
      replacements: byte `x` of data record `i` is the replacement's byte at its address, or the
      byte that was there. */
  lemma {:induction false} DiffersOnlyInRegions(rs: seq<Raw>, ds: seq<Chunk>, i: nat, x: nat) returns (k: nat, at: int)
    requires WellPlaced(true, rs) && PatchesOf(rs, ds)
    requires i < |rs| && rs[i].recType == DATA && x < |rs[i].data|
    ensures k < |ds| && ds[k].Contains(Spot(true, rs, i) + x) && at == Spot(true, rs, i) + x - ds[k].offset
    ensures Rewritten(PatchedMemory(ds), rs)[i].data[x] == match ds[k].patch
      case None => rs[i].data[x]
      case Some(Patch(begin, length, str)) =>
        if begin <= at < begin + Min(length, |str|) then str[at - begin] else rs[i].data[x]
  {
    hide LoadAll, BytesFrom, Occupies, BufAt, Rewritten, PatchedMemory, Tidy, ByteAt;
    var pos;
    k, pos := RecordInBuffer(rs, ds, i);
    at := pos + x;
    PatchedByte(ds[k], at);
    assert ds[k].buf[pos..pos + |rs[i].data|][x] == ds[k].buf[at];
    assert PatchedBuf(ds[k])[pos..pos + |rs[i].data|][x] == PatchedBuf(ds[k])[at];
  }

  /** With a replacement stored for every alignment, a buffer halts the update only where
      the first record boundary is missing, or more than a record away. */
  lemma FullCoverageHalts(cfg: Patching.Config, offset: int, buf: seq<Byte>, records: seq<Record>, blob: seq<Byte>)
    requires StoredFor(cfg, blob) && blob != []
    requires forall a: int :: 0 <= a < SLICE_LEN ==> a in cfg.foundCerts
    ensures var begin := Patching.Index(buf, cfg.searchBegin);
      Patching.FindPatch(offset, buf, records, cfg).Halt? <==>
        begin != -1 && !(0 <= Patching.FirstSliceLen(records, offset + begin) < SLICE_LEN)
  {
    hide Acceptable;
  }

  lemma FullCoverageUpdates(cfg: Patching.Config, cs: seq<Chunk>, records: seq<Record>, blob: seq<Byte>)
    requires StoredFor(cfg, blob) && blob != []
    requires forall a: int :: 0 <= a < SLICE_LEN ==> a in cfg.foundCerts
    ensures Patching.Update(cs, records, cfg).Some? <==>
      forall k :: 0 <= k < |cs| ==>
        var begin := Patching.Index(cs[k].buf, cfg.searchBegin);
        begin == -1 || 0 <= Patching.FirstSliceLen(records, cs[k].offset + begin) < SLICE_LEN
  {
    hide StoredFor, Patching.FindPatch;
    Patching.UpdateEach(cs, records, cfg, |cs|);
    forall k | 0 <= k < |cs|
      ensures Patching.FindPatch(cs[k].offset, cs[k].buf, records, cfg).Halt? <==>
        var begin := Patching.Index(cs[k].buf, cfg.searchBegin);
        begin != -1 && !(0 <= Patching.FirstSliceLen(records, cs[k].offset + begin) < SLICE_LEN)
    {
      FullCoverageHalts(cfg, cs[k].offset, cs[k].buf, records, blob);
    }
  }
}
