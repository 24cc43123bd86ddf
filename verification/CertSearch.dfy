/** The search for certificates: every alignment is tried for every new certificate, the
    accepted ones are stored, and a pair of certificates that covers all alignments ends it. */
module CertSearch {
  import opened Bytes
  import opened Certs
  import opened SliceGrid
  import opened Stuffing
  import opened Padding
  import opened Mangling

  type CertMap = map<Alignment, Cert>

  /** Every stored blob passes the final check at the alignment it is stored for. */
  ghost predicate AllPass(blob: seq<Byte>, certs: CertMap) {
    forall fsl :: fsl in certs ==> |certs[fsl].mangled| == |blob| && Acceptable(fsl, blob, certs[fsl].mangled)
  }

  /** A stored certificate is what an accepted attempt at its alignment made of its PEM. */
  ghost predicate IsMangled(fsl: Alignment, blob: seq<Byte>, cert: Cert) {
    && 5 <= |blob| && |cert.pub| <= |blob|
    && Mangle(fsl, blob, cert.pub).Accepted? && cert.mangled == Mangle(fsl, blob, cert.pub).blob
  }

  ghost predicate AllMangled(blob: seq<Byte>, certs: CertMap) {
    forall fsl :: fsl in certs ==> IsMangled(fsl, blob, certs[fsl])
  }

  lemma MangledPass(blob: seq<Byte>, certs: CertMap)
    requires AllMangled(blob, certs)
    ensures AllPass(blob, certs)
  {
    hide Mangle, Acceptable;
  }

  /** All certificates are made from one of two PEMs. */
  ghost predicate FromPair(certs: CertMap, pem: seq<Byte>, other: seq<Byte>) {
    forall fsl :: fsl in certs ==> certs[fsl].pub == pem || certs[fsl].pub == other
  }

  /** What one certificate contributes: an entry for exactly the accepted alignments below `n`. */
  ghost predicate IsCoverage(blob: seq<Byte>, pem: seq<Byte>, priv: seq<Byte>, n: nat, certs: CertMap)
    requires |pem| <= |blob| && |blob| >= 5
  {
    && (forall fsl: Alignment :: fsl in certs <==> fsl < n && Mangle(fsl, blob, pem).Accepted?)
    && (forall fsl: Alignment :: fsl in certs ==> certs[fsl] == Cert(pem, Mangle(fsl, blob, pem).blob, priv))
  }

  /** The coverage of some certificate. */
  ghost predicate IsSomeCoverage(blob: seq<Byte>, certs: CertMap) {
    |blob| >= 5 && exists pem, priv :: |pem| <= |blob| && IsCoverage(blob, pem, priv, SLICE_LEN, certs)
  }

  lemma SomeCoverage(blob: seq<Byte>, pem: seq<Byte>, priv: seq<Byte>, certs: CertMap)
    requires |pem| <= |blob| && |blob| >= 5 && IsCoverage(blob, pem, priv, SLICE_LEN, certs)
    ensures IsSomeCoverage(blob, certs)
  {}

  lemma CoverageIsMangled(blob: seq<Byte>, pem: seq<Byte>, priv: seq<Byte>, n: nat, certs: CertMap)
    requires |pem| <= |blob| && |blob| >= 5 && IsCoverage(blob, pem, priv, n, certs)
    ensures AllMangled(blob, certs) && forall fsl :: fsl in certs ==> certs[fsl].pub == pem
  {
    hide Mangle;
  }

  function UpTo(n: nat): (s: set<Alignment>)
    requires n <= SLICE_LEN
    ensures |s| == n && forall a: nat :: a in s <==> a < n
  {
    if n == 0 then {} else UpTo(n - 1) + {n - 1}
  }

  /** All 128 alignments. */
  function Alignments(): set<Alignment> {
    UpTo(SLICE_LEN)
  }

  /** The count that the search compares: it reaches 128 exactly for full coverage. */
  lemma FullCount(s: set<Alignment>)
    ensures |s| <= SLICE_LEN
    ensures |s| >= SLICE_LEN <==> s == Alignments()
  {
    hide UpTo;
    var all := Alignments();
    assert all == s + (all - s);
    assert |all| == |s| + |all - s|;
  }

  lemma NoCoverage(blob: seq<Byte>, pem: seq<Byte>, priv: seq<Byte>)
    requires |pem| <= |blob| && |blob| >= 5
    ensures IsCoverage(blob, pem, priv, 0, map[])
  {
    hide Mangle;
  }

  lemma OneMoreCovered(blob: seq<Byte>, pem: seq<Byte>, priv: seq<Byte>, fsl: Alignment, certs: CertMap)
    requires |pem| <= |blob| && |blob| >= 5 && IsCoverage(blob, pem, priv, fsl, certs)
    ensures fsl !in certs
    ensures var a := Mangle(fsl, blob, pem);
      IsCoverage(blob, pem, priv, fsl + 1, if a.Accepted? then certs[fsl := Cert(pem, a.blob, priv)] else certs)
  {
    hide Mangle;
  }

  /** An accepted attempt at every alignment is full coverage. */
  lemma AllAccepted(blob: seq<Byte>, pem: seq<Byte>, priv: seq<Byte>, certs: CertMap)
    requires |pem| <= |blob| && |blob| >= 5 && IsCoverage(blob, pem, priv, SLICE_LEN, certs)
    ensures certs.Keys == Alignments() <==> forall a: Alignment :: Mangle(a, blob, pem).Accepted?
  {
    hide Mangle, UpTo;
    assert forall a: Alignment :: a in Alignments();
    assert forall a: Alignment :: Mangle(a, blob, pem).Accepted? <==> a in certs.Keys;
  }

  /** Certificates of two coverages come from two PEMs. */
  lemma TwoCoverages(blob: seq<Byte>, pem: seq<Byte>, priv: seq<Byte>, certs: CertMap, earlier: CertMap)
      returns (other: seq<Byte>)
    requires |pem| <= |blob| && |blob| >= 5 && IsCoverage(blob, pem, priv, SLICE_LEN, certs)
    requires IsSomeCoverage(blob, earlier)
    ensures FromPair(certs + earlier, pem, other)
  {
    hide Mangle, IsCoverage;
    var pem', priv' :| |pem'| <= |blob| && IsCoverage(blob, pem', priv', SLICE_LEN, earlier);
    CoverageIsMangled(blob, pem, priv, SLICE_LEN, certs);
    CoverageIsMangled(blob, pem', priv', SLICE_LEN, earlier);
    other := pem';
  }

  lemma SomeCoverageIsMangled(blob: seq<Byte>, certs: CertMap)
    requires IsSomeCoverage(blob, certs)
    ensures AllMangled(blob, certs)
  {
    hide Mangle, IsCoverage;
    var pem, priv :| |pem| <= |blob| && IsCoverage(blob, pem, priv, SLICE_LEN, certs);
    CoverageIsMangled(blob, pem, priv, SLICE_LEN, certs);
  }

  lemma MergeMangled(blob: seq<Byte>, a: CertMap, b: CertMap)
    requires AllMangled(blob, a) && AllMangled(blob, b)
    ensures AllMangled(blob, a + b)
  {
    hide IsMangled;
  }

  datatype Progress = Skipped | Recorded | PairFound(other: nat) | Panicked

  class Result {
    var foundCerts: CertMap
    var fslSets: seq<set<Alignment>>
    var fslCerts: seq<CertMap>

    constructor ()
      ensures foundCerts == map[] && fslSets == [] && fslCerts == []
    {
      foundCerts, fslSets, fslCerts := map[], [], [];
    }

    /** Everything stored is the outcome of an accepted attempt, and what is kept of each round is the
        coverage of one certificate. */
    ghost predicate Valid(blob: seq<Byte>)
      reads this
    {
      && AllMangled(blob, foundCerts)
      && |fslSets| == |fslCerts|
      && forall i :: 0 <= i < |fslCerts| ==> IsSomeCoverage(blob, fslCerts[i]) && fslSets[i] == fslCerts[i].Keys
    }

    /** An existing entry is never overwritten. */
    method AddCertLocked(fsl: Alignment, cert: Cert)
      modifies this`foundCerts
      ensures foundCerts == if fsl in old(foundCerts) then old(foundCerts) else old(foundCerts)[fsl := cert]
    {
      if fsl in foundCerts {
        return;
      }
      foundCerts := foundCerts[fsl := cert];
    }

    /** Adding one map of certificates after another, in any order of its keys. */
    method AddAll(certs: CertMap)
      modifies this`foundCerts
      ensures foundCerts == certs + old(foundCerts)
    {
      var todo := certs.Keys;
      while todo != {}
        invariant todo <= certs.Keys
        invariant foundCerts.Keys == (certs.Keys - todo) + old(foundCerts.Keys)
        invariant forall a :: a in foundCerts ==> foundCerts[a] == (certs + old(foundCerts))[a]
        decreases |todo|
      {
        var fsl :| fsl in todo;
        AddCertLocked(fsl, certs[fsl]);
        todo := todo - {fsl};
      }
    }

    /** The first earlier certificate that completes the coverage of the last one. */
    method FindPartner() returns (i: nat)
      requires |fslSets| > 0
      ensures i < |fslSets|
      ensures forall k :: 0 <= k < i ==> fslSets[k] + fslSets[|fslSets| - 1] != Alignments()
      ensures i < |fslSets| - 1 ==> fslSets[i] + fslSets[|fslSets| - 1] == Alignments()
    {
      hide Alignments;
      var j := |fslSets| - 1;
      i := 0;
      while i < j
        invariant i <= j
        invariant forall k :: 0 <= k < i ==> fslSets[k] + fslSets[j] != Alignments()
      {
        FullCount(fslSets[i] + fslSets[j]);
        if |fslSets[i] + fslSets[j]| >= SLICE_LEN {
          return;
        }
        i := i + 1;
      }
    }

    /** The locked end of one round: count the coverage of the new certificate, remember it, and
        compare it with each earlier one. There is a counter for each coverage below 128, so that
        counting full coverage is an index out of range. */
    method RecordCoverage(blob: seq<Byte>, certs: CertMap) returns (progress: Progress)
      requires Valid(blob) && IsSomeCoverage(blob, certs)
      modifies this
      ensures Valid(blob)
      ensures progress.Recorded? || progress.PairFound? || progress.Panicked?
      ensures progress.Panicked? <==> certs.Keys == Alignments()
      ensures progress.Panicked? ==> unchanged(this)
      ensures !progress.Panicked? ==> fslCerts == old(fslCerts) + [certs] && fslSets == old(fslSets) + [certs.Keys]
      ensures progress.Recorded? <==>
        (certs.Keys != Alignments()
         && forall i :: 0 <= i < |old(fslSets)| ==> old(fslSets)[i] + certs.Keys != Alignments())
      ensures progress.Recorded? ==> foundCerts == old(foundCerts)
      ensures progress.PairFound? ==>
        && progress.other < |old(fslCerts)|
        && foundCerts == certs + old(fslCerts)[progress.other]
        && foundCerts.Keys == Alignments()
    {
      hide Alignments, AllMangled, IsSomeCoverage;
      FullCount(certs.Keys);
      if |certs.Keys| >= SLICE_LEN {
        return Panicked;
      }
      Remember(blob, certs);
      var j := |fslSets| - 1;
      var i := FindPartner();
      if i == j {
        assert forall k :: 0 <= k < j ==> fslSets[k] == old(fslSets)[k];
        return Recorded;
      }
      assert fslSets[i] == old(fslSets)[i] && fslCerts[i] == old(fslCerts)[i];
      Rebuild(i, j);
      SomeCoverageIsMangled(blob, certs);
      SomeCoverageIsMangled(blob, fslCerts[i]);
      MergeMangled(blob, certs, fslCerts[i]);
      return PairFound(i);
    }

    method Remember(blob: seq<Byte>, certs: CertMap)
      requires Valid(blob) && IsSomeCoverage(blob, certs)
      modifies this`fslSets, this`fslCerts
      ensures Valid(blob) && fslCerts == old(fslCerts) + [certs] && fslSets == old(fslSets) + [certs.Keys]
    {
      hide AllMangled, IsSomeCoverage;
      fslSets := fslSets + [certs.Keys];
      fslCerts := fslCerts + [certs];
    }

    /** The store anew, from the certificates of two rounds. */
    method Rebuild(i: nat, j: nat)
      requires i < |fslCerts| && j < |fslCerts|
      modifies this`foundCerts
      ensures foundCerts == fslCerts[j] + fslCerts[i]
    {
      foundCerts := map[];
      AddAll(fslCerts[i]);
      assert foundCerts == fslCerts[i];
      AddAll(fslCerts[j]);
    }

    /** One attempt at one alignment, on a fresh copy of the original blob. */
    method TryAlignment(fsl: Alignment, blob: seq<Byte>, pem: seq<Byte>) returns (attempt: Attempt)
      requires 5 <= |blob| && |pem| <= |blob|
      ensures attempt == Mangle(fsl, blob, pem)
    {
      hide StuffFrom, FixUp, Acceptable, LastStart, Raised, Lowered;
      var toStuff := |blob| - |pem|;
      var overlay := Overlay(blob, pem);
      var newBlob := new Byte[|blob|](i requires 0 <= i < |overlay| => overlay[i]);
      assert newBlob[..] == overlay;
      if fsl > 2 {
        newBlob[0] := Raised(newBlob[0]);
        newBlob[1] := Lowered(newBlob[1]);
      } else {
        newBlob[3] := Raised(newBlob[3]);
        newBlob[4] := Lowered(newBlob[4]);
      }
      assert newBlob[..] == Prepared(fsl, blob, pem);
      var verdict := VerifyFixedBlobs(fsl, blob, newBlob, toStuff);
      match verdict
      case Crashed => return Crashes;
      case NotMatched => return Rejected;
      case Matched(stuffed) =>
        var ok := FixupStuffBytes(fsl, blob, newBlob, toStuff - stuffed);
        if !ok {
          return Rejected;
        }
        var first := FirstNonMatchingSlice(fsl, blob, newBlob[..]);
        if first != -1 {
          return Rejected;
        }
        return Accepted(newBlob[..], toStuff - stuffed);
    }

    /** The loop over the alignments: accepted blobs are stored at once. */
    method TryAll(blob: seq<Byte>, pem: seq<Byte>, priv: seq<Byte>) returns (certs: CertMap, ok: bool)
      requires Valid(blob) && |pem| <= |blob| && |blob| >= 5
      modifies this`foundCerts
      ensures Valid(blob) && foundCerts == certs + old(foundCerts)
      ensures ok <==> forall a: Alignment :: !Mangle(a, blob, pem).Crashes?
      ensures ok ==> IsCoverage(blob, pem, priv, SLICE_LEN, certs)
    {
      hide Mangle, IsSomeCoverage, IsCoverage, AllMangled;
      certs := map[];
      NoCoverage(blob, pem, priv);
      for fsl := 0 to SLICE_LEN
        invariant foundCerts == certs + old(foundCerts)
        invariant IsCoverage(blob, pem, priv, fsl, certs)
        invariant forall a: Alignment :: a < fsl ==> !Mangle(a, blob, pem).Crashes?
      {
        var attempt := TryAlignment(fsl, blob, pem);
        CoverageIsMangled(blob, pem, priv, fsl, certs);
        MergeMangled(blob, certs, old(foundCerts));
        if attempt.Crashes? {
          return certs, false;
        }
        OneMoreCovered(blob, pem, priv, fsl, certs);
        if attempt.Accepted? {
          var cert := Cert(pem, attempt.blob, priv);
          certs := certs[fsl := cert];
          AddCertLocked(fsl, cert);
        }
      }
      CoverageIsMangled(blob, pem, priv, SLICE_LEN, certs);
      MergeMangled(blob, certs, old(foundCerts));
      return certs, true;
    }

    /** One round of the search, for one new certificate. */
    method CertSetup(blob: seq<Byte>, pem: seq<Byte>, priv: seq<Byte>) returns (progress: Progress)
      requires Valid(blob) && |blob| >= 5
      modifies this
      ensures Valid(blob)
      ensures progress.Skipped? <==> |pem| > |blob| || forall a: Alignment :: Mangle(a, blob, pem).Rejected?
      ensures progress.Panicked? <==>
        (|pem| <= |blob|
         && ((exists a: Alignment :: Mangle(a, blob, pem).Crashes?)
             || forall a: Alignment :: Mangle(a, blob, pem).Accepted?))
      ensures progress.Panicked? ==> fslCerts == old(fslCerts) && fslSets == old(fslSets)
      ensures |pem| <= |blob| && (forall a: Alignment :: Mangle(a, blob, pem).Accepted?) ==>
        && foundCerts.Keys == Alignments()
        && forall a :: a in foundCerts ==>
             foundCerts[a] ==
               if a in old(foundCerts) then old(foundCerts)[a] else Cert(pem, Mangle(a, blob, pem).blob, priv)
      ensures progress.Skipped? ==> unchanged(this)
      ensures progress.Recorded? || progress.PairFound? ==>
        && |pem| <= |blob| && |fslCerts| == |old(fslCerts)| + 1 && old(fslCerts) <= fslCerts
        && IsCoverage(blob, pem, priv, SLICE_LEN, fslCerts[|old(fslCerts)|])
      ensures progress.Recorded? ==> foundCerts == fslCerts[|old(fslCerts)|] + old(foundCerts)
      ensures progress.PairFound? ==>
        && progress.other < |old(fslCerts)|
        && foundCerts == fslCerts[|old(fslCerts)|] + old(fslCerts)[progress.other]
        && foundCerts.Keys == Alignments()
        && exists other :: FromPair(foundCerts, pem, other)
    {
      hide Mangle, Alignments, IsSomeCoverage, AllMangled, FromPair;
      if |pem| > |blob| {
        return Skipped;
      }
      var certs, ok := TryAll(blob, pem, priv);
      if !ok {
        return Panicked;
      }
      if certs == map[] {
        assert map[] + old(foundCerts) == old(foundCerts);
        var zero: Alignment := 0;
        assert !Mangle(zero, blob, pem).Accepted?;
        return Skipped;
      }
      var fsl :| fsl in certs;
      assert Mangle(fsl, blob, pem).Accepted?;
      AllAccepted(blob, pem, priv, certs);
      SomeCoverage(blob, pem, priv, certs);
      progress := RecordCoverage(blob, certs);
      if progress.PairFound? {
        var other := TwoCoverages(blob, pem, priv, certs, old(fslCerts)[progress.other]);
      }
    }
  }
}
