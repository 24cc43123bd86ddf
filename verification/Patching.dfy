/** Finding the certificates in the memory, and choosing their replacements. */
module Patching {
  import opened Bytes
  import opened Certs
  import opened HexFormat
  import opened Memory

  /** How a certificate is recognised, and the stored replacements by alignment. */
  datatype Config = Config(searchBegin: seq<Byte>, searchEnd: seq<Byte>, foundCerts: map<int, Cert>)

  predicate OccursAt(s: seq<Byte>, sep: seq<Byte>, k: nat) {
    k + |sep| <= |s| && s[k..k + |sep|] == sep
  }

  function IndexFrom(s: seq<Byte>, sep: seq<Byte>, k: nat): (r: int)
    requires k <= |s|
    ensures -1 <= r <= |s|
    ensures r >= 0 ==> OccursAt(s, sep, r)
    ensures forall i :: k <= i < (if r < 0 then |s| + 1 else r) ==> !OccursAt(s, sep, i)
    decreases |s| - k
  {
    if OccursAt(s, sep, k) then k else if k == |s| then -1 else IndexFrom(s, sep, k + 1)
  }

  /** The first occurrence, or -1. */
  function Index(s: seq<Byte>, sep: seq<Byte>): (r: int)
    ensures -1 <= r <= |s|
    ensures r >= 0 ==> OccursAt(s, sep, r)
    ensures forall i :: 0 <= i < (if r < 0 then |s| + 1 else r) ==> !OccursAt(s, sep, i)
  {
    IndexFrom(s, sep, 0)
  }

  /** How far after `at` the first listed record with a read offset from `at` on starts; -1 if none does. */
  function FirstSliceLen(records: seq<Record>, at: int): (fsl: int)
    ensures -1 <= fsl
  {
    if records == [] then -1
    else if records[0].readOffset >= at then records[0].readOffset - at
    else FirstSliceLen(records[1..], at)
  }

  /** Where a certificate is in a buffer. A missing end marker counts as -1. */
  function RegionLength(buf: seq<Byte>, begin: nat, searchEnd: seq<Byte>): (length: nat)
    requires begin <= |buf|
  {
    Index(buf[begin..], searchEnd) + |searchEnd|
  }

  datatype Finding = NotFound | Halt | Found(patch: Patch)

  /** What the update does with one buffer. It halts the program when no record starts
      late enough, or no replacement is stored for the alignment. */
  function FindPatch(offset: int, buf: seq<Byte>, records: seq<Record>, cfg: Config): (f: Finding)
    ensures f.Found? ==> f.patch.rest != [] && f.patch.begin <= |buf|
  {
    var begin := Index(buf, cfg.searchBegin);
    if begin == -1 then NotFound else
    var length := RegionLength(buf, begin, cfg.searchEnd);
    var fsl := FirstSliceLen(records, offset + begin);
    if fsl < 0 || fsl !in cfg.foundCerts || cfg.foundCerts[fsl].mangled == [] then Halt
    else Found(Patch(begin, length, cfg.foundCerts[fsl].mangled))
  }

  /** A region lies in its buffer exactly when an end marker follows the start marker there, or the
      marker that is looked for is too short to matter. */
  lemma RegionInside(buf: seq<Byte>, cfg: Config)
    requires Index(buf, cfg.searchBegin) != -1
    ensures var begin := Index(buf, cfg.searchBegin);
      begin + RegionLength(buf, begin, cfg.searchEnd) <= |buf| <==>
        Index(buf[begin..], cfg.searchEnd) != -1 || |cfg.searchEnd| <= |buf| - begin + 1
  {}

  lemma OccursInTail(s: seq<Byte>, sep: seq<Byte>, k: nat, i: nat)
    requires k <= |s|
    ensures OccursAt(s[k..], sep, i) <==> OccursAt(s, sep, k + i)
  {
    if k + i + |sep| <= |s| {
      assert s[k..][i..i + |sep|] == s[k + i..k + i + |sep|];
    }
  }

  ghost predicate FirstOccursAt(s: seq<Byte>, sep: seq<Byte>, from: nat, e: nat) {
    from <= e && OccursAt(s, sep, e) && forall i :: from <= i < e ==> !OccursAt(s, sep, i)
  }

  /** The region ends with the first end marker in it. Without one, it is one byte shorter than that. */
  lemma RegionEnds(buf: seq<Byte>, begin: nat, searchEnd: seq<Byte>)
    requires begin <= |buf|
    ensures forall e: nat :: FirstOccursAt(buf, searchEnd, begin, e) ==>
      var length := RegionLength(buf, begin, searchEnd);
      begin + length <= |buf| && begin + length == e + |searchEnd| && searchEnd <= buf[e..begin + length]
    ensures (forall i: nat :: begin <= i ==> !OccursAt(buf, searchEnd, i)) ==>
      RegionLength(buf, begin, searchEnd) == |searchEnd| - 1
  {
    var r := Index(buf[begin..], searchEnd);
    if r >= 0 {
      OccursInTail(buf, searchEnd, begin, r);
    }
    forall e: nat | FirstOccursAt(buf, searchEnd, begin, e) ensures r == e - begin {
      OccursInTail(buf, searchEnd, begin, e - begin);
      if 0 <= r {
        assert !(begin + r < e);
      }
    }
  }

  /** The first record, in the order of the file, that is read from `at` on starts `d` bytes after it. */
  ghost predicate FirstStartsAfter(records: seq<Record>, at: int, d: nat) {
    exists n :: 0 <= n < |records| && records[n].readOffset == at + d &&
      forall i :: 0 <= i < n ==> records[i].readOffset < at
  }

  lemma {:induction false} FirstSliceLenIs(records: seq<Record>, at: int)
    ensures forall d: nat :: FirstStartsAfter(records, at, d) <==> FirstSliceLen(records, at) == d
  {
    if records != [] {
      FirstSliceLenIs(records[1..], at);
      forall d: nat ensures FirstStartsAfter(records, at, d) <==>
        if records[0].readOffset >= at then records[0].readOffset == at + d
        else FirstStartsAfter(records[1..], at, d)
      {
        FirstStartsLater(records, at, d);
      }
    }
  }

  lemma FirstStartsLater(records: seq<Record>, at: int, d: nat)
    requires records != []
    ensures FirstStartsAfter(records, at, d) <==>
      if records[0].readOffset >= at then records[0].readOffset == at + d
      else FirstStartsAfter(records[1..], at, d)
  {
    if records[0].readOffset < at && FirstStartsAfter(records[1..], at, d) {
      var n :| 0 <= n < |records[1..]| && records[1..][n].readOffset == at + d &&
        forall i :: 0 <= i < n ==> records[1..][i].readOffset < at;
      assert records[n + 1].readOffset == at + d;
      assert forall i :: 0 <= i < n + 1 ==> i == 0 || records[i] == records[1..][i - 1];
    }
    if FirstStartsAfter(records, at, d) {
      var n :| 0 <= n < |records| && records[n].readOffset == at + d &&
        forall i :: 0 <= i < n ==> records[i].readOffset < at;
      if n > 0 {
        assert records[0].readOffset < at && records[1..][n - 1] == records[n];
        assert forall i :: 0 <= i < n - 1 ==> records[1..][i] == records[i + 1];
      }
    }
  }

  /** What is found in a buffer: nothing without a start marker; otherwise the region from the first one
      on, with the replacement that is stored for the distance to the first record that is read from
      there on. The program halts when there is no such record, or nothing is stored for it. */
  lemma FindingOutcome(offset: int, buf: seq<Byte>, records: seq<Record>, cfg: Config, begin: nat)
    ensures FindPatch(offset, buf, records, cfg).NotFound? <==> forall k: nat :: !OccursAt(buf, cfg.searchBegin, k)
    ensures FirstOccursAt(buf, cfg.searchBegin, 0, begin) ==>
      && begin <= |buf|
      && (FindPatch(offset, buf, records, cfg).Halt? <==>
            forall d: nat :: FirstStartsAfter(records, offset + begin, d) ==>
              d !in cfg.foundCerts || cfg.foundCerts[d].mangled == [])
      && forall d: nat ::
           FirstStartsAfter(records, offset + begin, d) && d in cfg.foundCerts && cfg.foundCerts[d].mangled != [] ==>
           FindPatch(offset, buf, records, cfg) ==
             Found(Patch(begin, RegionLength(buf, begin, cfg.searchEnd), cfg.foundCerts[d].mangled))
  {
    hide RegionLength, FirstSliceLen, FirstStartsAfter;
    assert Index(buf, cfg.searchBegin) == -1 ==> forall k: nat :: !OccursAt(buf, cfg.searchBegin, k);
    if FirstOccursAt(buf, cfg.searchBegin, 0, begin) {
      assert Index(buf, cfg.searchBegin) == begin;
      FirstSliceLenIs(records, offset + begin);
      var fsl := FirstSliceLen(records, offset + begin);
      if fsl >= 0 {
        var d: nat := fsl;
        assert FirstStartsAfter(records, offset + begin, d);
      }
    }
  }

  /** The update of all buffers, in order; None when the program halts. */
  function UpdateTo(cs: seq<Chunk>, records: seq<Record>, cfg: Config, n: nat): (r: Option<seq<Chunk>>)
    requires n <= |cs|
    ensures (r.Some? ==> |r.value| == |cs|) && (n == 0 ==> r == Some(cs))
  {
    if n == 0 then Some(cs) else
    match UpdateTo(cs, records, cfg, n - 1)
    case None => None
    case Some(done) =>
      match FindPatch(cs[n - 1].offset, cs[n - 1].buf, records, cfg)
      case NotFound => Some(done)
      case Halt => None
      case Found(patch) => Some(done[n - 1 := cs[n - 1].(patch := Some(patch))])
  }

  lemma UpdateToStep(cs: seq<Chunk>, records: seq<Record>, cfg: Config, n: nat, done: seq<Chunk>)
    requires n < |cs| && UpdateTo(cs, records, cfg, n) == Some(done)
    ensures UpdateTo(cs, records, cfg, n + 1) ==
      match FindPatch(cs[n].offset, cs[n].buf, records, cfg)
      case NotFound => Some(done)
      case Halt => None
      case Found(patch) => Some(done[n := cs[n].(patch := Some(patch))])
  {}

  function Update(cs: seq<Chunk>, records: seq<Record>, cfg: Config): Option<seq<Chunk>> {
    UpdateTo(cs, records, cfg, |cs|)
  }

  /** The update, buffer by buffer. */
  lemma {:induction false} UpdateEach(cs: seq<Chunk>, records: seq<Record>, cfg: Config, n: nat)
    requires n <= |cs|
    ensures UpdateTo(cs, records, cfg, n).None? <==>
      exists i :: 0 <= i < n && FindPatch(cs[i].offset, cs[i].buf, records, cfg).Halt?
    ensures UpdateTo(cs, records, cfg, n).Some? ==> forall i :: 0 <= i < |cs| ==>
      var f := FindPatch(cs[i].offset, cs[i].buf, records, cfg);
      UpdateTo(cs, records, cfg, n).value[i] == if i < n && f.Found? then cs[i].(patch := Some(f.patch)) else cs[i]
  {
    hide FindPatch;
    if n > 0 {
      UpdateEach(cs, records, cfg, n - 1);
    }
  }
}
