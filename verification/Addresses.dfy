/** The addresses of data records in the file, and where they end up in the memory. */
module Addresses {
  import opened HexFormat
  import opened Loading
  import opened Layout

  /** The upper half that the last extended linear address record before record `i` gives, if there is
      one: a 16-bit number, big-endian. */
  function UpperHalf(rs: seq<Raw>, i: nat): nat
    requires AllSupported(rs) && i <= |rs|
  {
    if i == 0 then 0
    else if rs[i - 1].recType == 4 then 256 * (rs[i - 1].data[0] as int) + rs[i - 1].data[1]
    else UpperHalf(rs, i - 1)
  }

  /** The address that the file gives to record `i`, read off the file alone. */
  function Address(rs: seq<Raw>, i: nat): int
    requires AllSupported(rs) && i < |rs|
  {
    65536 * UpperHalf(rs, i) + rs[i].offset
  }

  /** The loader's base is what the file says. */
  lemma {:induction false} BaseIsRead(compact: bool, rs: seq<Raw>, n: nat)
    requires AllSupported(rs) && n <= |rs|
    ensures LoadAll(compact, rs[..n]).cursor.base == 65536 * UpperHalf(rs, n)
    ensures !compact ==> LoadAll(compact, rs[..n]).cursor.outputOffset == 0
  {
    if n > 0 {
      BaseIsRead(compact, rs, n - 1);
      LoadStep(compact, rs, n - 1);
    }
  }

  /** Without the compact switch, data is where the file says. */
  lemma {:induction false} PlainSpotIsAddress(rs: seq<Raw>, i: nat)
    requires AllSupported(rs) && i < |rs| && rs[i].recType == DATA
    ensures Spot(false, rs, i) == Address(rs, i)
  {
    BaseIsRead(false, rs, i);
    RecordsStable(false, rs, i + 1);
    LoadStep(false, rs, i);
    assert LoadAll(false, rs).records[i] == LoadAll(false, rs[..i + 1]).records[i];
  }

  /** The first nonzero data address among the first `n` records; 0 if there is none. */
  function Anchor(rs: seq<Raw>, n: nat): int
    requires AllSupported(rs) && n <= |rs|
  {
    if n == 0 then 0
    else if Anchor(rs, n - 1) != 0 then Anchor(rs, n - 1)
    else if rs[n - 1].recType == DATA then Address(rs, n - 1)
    else 0
  }

  lemma {:induction false} OffsetIsAnchor(rs: seq<Raw>, n: nat)
    requires AllSupported(rs) && n <= |rs|
    ensures LoadAll(true, rs[..n]).cursor.outputOffset == -Anchor(rs, n)
  {
    if n > 0 {
      OffsetIsAnchor(rs, n - 1);
      BaseIsRead(true, rs, n - 1);
      LoadStep(true, rs, n - 1);
    }
  }

  /** Each data record is moved down by the first nonzero data address up to it. */
  lemma {:induction false} SpotIsTranslated(rs: seq<Raw>, i: nat)
    requires AllSupported(rs) && i < |rs| && rs[i].recType == DATA
    ensures Spot(true, rs, i) == Address(rs, i) - Anchor(rs, i + 1)
  {
    OffsetIsAnchor(rs, i);
    BaseIsRead(true, rs, i);
    RecordsStable(true, rs, i + 1);
    LoadStep(true, rs, i);
    assert LoadAll(true, rs).records[i] == LoadAll(true, rs[..i + 1]).records[i];
  }

  /** Data records `i` and `j` are moved by the same amount. */
  ghost predicate MovedAlike(rs: seq<Raw>, i: nat, j: nat)
    requires AllSupported(rs) && i < |rs| && j < |rs|
  {
    Spot(true, rs, i) - Address(rs, i) == Spot(true, rs, j) - Address(rs, j)
  }

  ghost predicate OneTranslation(rs: seq<Raw>)
    requires AllSupported(rs)
  {
    forall i, j :: 0 <= i < |rs| && 0 <= j < |rs| && rs[i].recType == rs[j].recType == DATA ==> MovedAlike(rs, i, j)
  }

  lemma {:induction false} AnchorStays(rs: seq<Raw>, f: nat, n: nat)
    requires AllSupported(rs) && f <= n <= |rs| && Anchor(rs, f) != 0
    ensures Anchor(rs, n) == Anchor(rs, f)
  {
    if f < n {
      AnchorStays(rs, f, n - 1);
    }
  }

  lemma {:induction false} NoAnchorBefore(rs: seq<Raw>, n: nat)
    requires AllSupported(rs) && n <= |rs|
    requires forall j :: 0 <= j < n ==> rs[j].recType != DATA || Address(rs, j) == 0
    ensures Anchor(rs, n) == 0
  {
    if n > 0 {
      NoAnchorBefore(rs, n - 1);
    }
  }

  /** Whether all data is moved by one constant: exactly when the first data record's
      address is not 0, or every data address is. Offset 0 doubles as "not set yet". */
  lemma {:induction false} OneTranslationIff(rs: seq<Raw>, f: nat)
    requires AllSupported(rs) && f < |rs| && rs[f].recType == DATA && forall j :: 0 <= j < f ==> rs[j].recType != DATA
    ensures OneTranslation(rs) <==>
      Address(rs, f) != 0 || forall i :: 0 <= i < |rs| && rs[i].recType == DATA ==> Address(rs, i) == 0
  {
    hide LoadAll;
    NoAnchorBefore(rs, f);
    SpotIsTranslated(rs, f);
    if Address(rs, f) != 0 {
      forall i | 0 <= i < |rs| && rs[i].recType == DATA ensures MovedAlike(rs, i, f) {
        SpotIsTranslated(rs, i);
        AnchorStays(rs, f + 1, i + 1);
      }
      assert OneTranslation(rs);
    } else if forall i :: 0 <= i < |rs| && rs[i].recType == DATA ==> Address(rs, i) == 0 {
      forall i | 0 <= i < |rs| && rs[i].recType == DATA ensures MovedAlike(rs, i, f) {
        SpotIsTranslated(rs, i);
        NoAnchorBefore(rs, i + 1);
      }
      assert OneTranslation(rs);
    } else {
      var i :| 0 <= i < |rs| && rs[i].recType == DATA && Address(rs, i) != 0;
      SpotIsTranslated(rs, i);
      assert Anchor(rs, i + 1) != 0;
      assert !MovedAlike(rs, i, f);
    }
  }

  /** Two records at different addresses that are written to the same place. */
  lemma ZeroFirstCollides()
    ensures var rs := [Raw(0, DATA, [1]), Raw(256, DATA, [2])];
      && AllSupported(rs)
      && Address(rs, 0) == 0 && Address(rs, 1) == 256
      && Spot(true, rs, 0) == Spot(true, rs, 1) == 0
  {
    var rs := [Raw(0, DATA, [1]), Raw(256, DATA, [2])];
    assert rs[..0] == [] && rs[..1] == [rs[0]] && [rs[0]][..0] == [];
    assert LoadAll(true, rs[..1]) == LoadNext(LoadAll(true, []), true, rs[0]);
    SpotIsTranslated(rs, 0);
    SpotIsTranslated(rs, 1);
    assert Anchor(rs, 0) == 0 && Anchor(rs, 1) == 0;
  }

  /** Data records are nonempty, and their address ranges are disjoint. */
  ghost predicate DisjointAddresses(rs: seq<Raw>) {
    && AllSupported(rs)
    && (forall i :: 0 <= i < |rs| && rs[i].recType == DATA ==> rs[i].data != [])
    && forall i, j :: 0 <= i < j < |rs| && rs[i].recType == rs[j].recType == DATA ==>
         Address(rs, i) + |rs[i].data| <= Address(rs, j) || Address(rs, j) + |rs[j].data| <= Address(rs, i)
  }

  /** Under one translation, disjoint addresses give disjoint places. */
  lemma {:induction false} DisjointIsWellPlaced(rs: seq<Raw>, f: nat)
    requires DisjointAddresses(rs) && f < |rs| && rs[f].recType == DATA && Address(rs, f) != 0
    requires forall j :: 0 <= j < f ==> rs[j].recType != DATA
    ensures WellPlaced(true, rs)
  {
    hide LoadAll, Spot, Address;
    OneTranslationIff(rs, f);
    forall i, j, a | 0 <= i < j < |rs| && Occupies(true, rs, i, a) ensures !Occupies(true, rs, j, a) {
      if rs[j].recType == DATA {
        assert MovedAlike(rs, i, j);
      }
    }
  }
}
