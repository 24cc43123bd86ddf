/** Why a patched firmware comes out right: buffers only grow at their ends, so the records
    of one buffer are met in the order of their addresses when they are encoded again. */
module Layout {
  import opened Bytes
  import opened HexFormat
  import opened Memory
  import opened Loading

  // ---------- Where the data records go ----------

  /** The memory before record `i` is loaded. */
  function Before(compact: bool, rs: seq<Raw>, i: nat): seq<Chunk>
    requires AllSupported(rs) && i <= |rs|
  {
    LoadAll(compact, rs[..i]).chunks
  }

  /** Where record `i` is written. */
  function Spot(compact: bool, rs: seq<Raw>, i: nat): int
    requires AllSupported(rs) && i < |rs|
  {
    LoadAll(compact, rs).records[i].readOffset
  }

  ghost predicate Occupies(compact: bool, rs: seq<Raw>, i: nat, a: int)
    requires AllSupported(rs) && i < |rs|
  {
    rs[i].recType == DATA && Spot(compact, rs, i) <= a < Spot(compact, rs, i) + |rs[i].data|
  }

  /** Data records are nonempty, and no two of them are written to the same address. */
  ghost predicate WellPlaced(compact: bool, rs: seq<Raw>) {
    && AllSupported(rs)
    && (forall i :: 0 <= i < |rs| && rs[i].recType == DATA ==> rs[i].data != [])
    && forall i, j, a :: 0 <= i < j < |rs| && Occupies(compact, rs, i, a) ==> !Occupies(compact, rs, j, a)
  }

  lemma {:induction false} RecordsStable(compact: bool, rs: seq<Raw>, i: nat)
    requires AllSupported(rs) && i <= |rs|
    ensures LoadAll(compact, rs[..i]).records == LoadAll(compact, rs).records[..i]
  {
    if i < |rs| {
      var init := rs[..|rs| - 1];
      RecordsStable(compact, init, i);
      assert init[..i] == rs[..i];
      assert LoadAll(compact, rs).records[..i] == LoadAll(compact, init).records[..i];
    } else {
      assert rs[..i] == rs;
    }
  }

  /** One step of loading. */
  lemma {:induction false} LoadStep(compact: bool, rs: seq<Raw>, i: nat)
    requires AllSupported(rs) && i < |rs|
    ensures LoadAll(compact, rs[..i + 1]) == LoadNext(LoadAll(compact, rs[..i]), compact, rs[i])
    ensures Before(compact, rs, i + 1) ==
      if rs[i].recType == DATA then Write(Before(compact, rs, i), Spot(compact, rs, i), rs[i].data)
      else Before(compact, rs, i)
  {
    hide LoadRecord, Write;
    assert rs[..i + 1][..i] == rs[..i];
    RecordsStable(compact, rs, i + 1);
  }

  ghost predicate Written(compact: bool, rs: seq<Raw>, i: nat, a: int)
    requires AllSupported(rs) && i <= |rs|
  {
    exists k :: 0 <= k < i && Occupies(compact, rs, k, a)
  }

  /** The buffers stay tidy, and only hold what data records put there. */
  lemma {:induction false} StaysTidy(compact: bool, rs: seq<Raw>, i: nat)
    requires WellPlaced(compact, rs) && i <= |rs|
    ensures Tidy(Before(compact, rs, i))
    ensures forall a :: ByteAt(Before(compact, rs, i), a).Some? ==> Written(compact, rs, i, a)
  {
    hide LoadAll, Write, Spot;
    if i == 0 {
      NothingLoaded(compact, rs);
    } else {
      StaysTidy(compact, rs, i - 1);
      LoadStep(compact, rs, i - 1);
      if rs[i - 1].recType == DATA {
        FreeForNext(compact, rs, i - 1);
        WriteRefinesMap(Before(compact, rs, i - 1), Spot(compact, rs, i - 1), rs[i - 1].data);
      }
      forall a | ByteAt(Before(compact, rs, i), a).Some? ensures Written(compact, rs, i, a) {
        if ByteAt(Before(compact, rs, i - 1), a).Some? {
          assert Written(compact, rs, i - 1, a);
        } else {
          assert Occupies(compact, rs, i - 1, a);
        }
      }
    }
  }

  lemma {:induction false} NothingLoaded(compact: bool, rs: seq<Raw>)
    requires AllSupported(rs)
    ensures Before(compact, rs, 0) == []
  {}

  lemma {:induction false} FreeForNext(compact: bool, rs: seq<Raw>, i: nat)
    requires WellPlaced(compact, rs) && i < |rs| && rs[i].recType == DATA
    requires forall a :: ByteAt(Before(compact, rs, i), a).Some? ==> Written(compact, rs, i, a)
    ensures Free(Before(compact, rs, i), Spot(compact, rs, i), |rs[i].data|)
  {
    hide LoadAll, ByteAt;
    forall a | Spot(compact, rs, i) <= a < Spot(compact, rs, i) + |rs[i].data|
      ensures ByteAt(Before(compact, rs, i), a) == None
    {
      assert Occupies(compact, rs, i, a);
    }
  }

  // ---------- The buffer at an offset ----------

  /** The contents of the buffer that starts at an offset; empty if there is none. */
  function BufAt(cs: seq<Chunk>, o: int): seq<Byte> {
    if cs == [] then [] else if cs[0].offset == o then cs[0].buf else BufAt(cs[1..], o)
  }

  lemma {:induction false} BufAtIndex(cs: seq<Chunk>, k: nat)
    requires Tidy(cs) && k < |cs|
    ensures BufAt(cs, cs[k].offset) == cs[k].buf
  {
    TidyTail(cs);
    if k > 0 {
      assert cs[1..][k - 1] == cs[k];
      BufAtIndex(cs[1..], k - 1);
    }
  }

  lemma {:induction false} BufAtFound(cs: seq<Chunk>, o: int) returns (k: nat)
    requires BufAt(cs, o) != []
    ensures k < |cs| && cs[k].offset == o && cs[k].buf == BufAt(cs, o)
  {
    if cs[0].offset == o {
      k := 0;
    } else {
      k := BufAtFound(cs[1..], o);
      k := k + 1;
    }
  }

  lemma {:induction false} BufAtNone(cs: seq<Chunk>, o: int)
    requires forall k :: 0 <= k < |cs| ==> cs[k].offset != o
    ensures BufAt(cs, o) == []
  {
    if cs != [] {
      BufAtNone(cs[1..], o);
    }
  }

  /** The offset of the buffer that a write goes to. */
  function Target(cs: seq<Chunk>, off: int): int {
    var i := WriteIndex(cs, off);
    if i < |cs| then cs[i].offset else off
  }

  lemma {:induction false} BufAtInsert(cs: seq<Chunk>, c: Chunk, o: int)
    requires forall k :: 0 <= k < |cs| ==> cs[k].offset != c.offset
    ensures BufAt(Insert(cs, c), o) == if o == c.offset then c.buf else BufAt(cs, o)
  {
    if cs == [] || c.offset < cs[0].offset {
      assert ([c] + cs)[1..] == cs;
    } else {
      BufAtInsert(cs[1..], c, o);
      assert Insert(cs, c)[1..] == Insert(cs[1..], c);
    }
  }

  lemma {:induction false} BufAtUpdate(cs: seq<Chunk>, i: nat, p: seq<Byte>, o: int)
    requires Tidy(cs) && i < |cs|
    ensures BufAt(cs[i := cs[i].(buf := cs[i].buf + p)], o) == if o == cs[i].offset then cs[i].buf + p else BufAt(cs, o)
  {
    var c := cs[i].(buf := cs[i].buf + p);
    TidyTail(cs);
    if i == 0 {
      assert cs[0 := c][1..] == cs[1..];
    } else {
      assert cs[1..][i - 1] == cs[i] && cs[i := c][1..] == cs[1..][i - 1 := c];
      BufAtUpdate(cs[1..], i - 1, p, o);
    }
  }

  /** A write appends to one buffer, at its end, and leaves the others alone. */
  lemma WriteAppends(cs: seq<Chunk>, off: int, p: seq<Byte>)
    requires Tidy(cs) && p != [] && Free(cs, off, |p|)
    ensures var o := Target(cs, off);
      && off == o + |BufAt(cs, o)|
      && forall o' :: BufAt(Write(cs, off, p), o') == if o' == o then BufAt(cs, o) + p else BufAt(cs, o')
  {
    hide Tidy, ByteAt, BufAt;
    var i := WriteIndex(cs, off);
    if i < |cs| {
      BufAtIndex(cs, i);
      forall o' ensures BufAt(Write(cs, off, p), o') == if o' == cs[i].offset then cs[i].buf + p else BufAt(cs, o') {
        BufAtUpdate(cs, i, p, o');
      }
    } else {
      NoneStartsAt(cs, off, |p|);
      BufAtNone(cs, off);
      forall o' ensures BufAt(Write(cs, off, p), o') == if o' == off then p else BufAt(cs, o') {
        BufAtInsert(cs, Chunk(off, p, None), o');
      }
    }
  }

  lemma NoneStartsAt(cs: seq<Chunk>, off: int, n: nat)
    requires Tidy(cs) && n > 0 && Free(cs, off, n)
    ensures forall k :: 0 <= k < |cs| ==> cs[k].offset != off
  {
    FreeIsApart(cs, off, n);
    assert forall k :: 0 <= k < |cs| ==> Apart(cs[k], off, n);
  }

  /** What is loaded stays where it is: buffers only grow. */
  lemma {:induction false} BuffersGrow(compact: bool, rs: seq<Raw>, i: nat, j: nat, o: int)
    requires WellPlaced(compact, rs) && i <= j <= |rs|
    ensures BufAt(Before(compact, rs, i), o) <= BufAt(Before(compact, rs, j), o)
    decreases j
  {
    hide LoadAll, Write, BufAt, Tidy, ByteAt, Free;
    if i < j {
      BuffersGrow(compact, rs, i, j - 1, o);
      LoadStep(compact, rs, j - 1);
      if rs[j - 1].recType == DATA {
        StaysTidy(compact, rs, j - 1);
        FreeForNext(compact, rs, j - 1);
        WriteAppends(Before(compact, rs, j - 1), Spot(compact, rs, j - 1), rs[j - 1].data);
      }
    }
  }

  // ---------- Reading in order ----------

  /** A buffer with its replacement put in: what a patched memory holds. */
  function PatchedBuf(d: Chunk): (s: seq<Byte>)
    requires d.PatchInside()
    ensures |s| == |d.buf|
  {
    match d.patch
    case None => d.buf
    case Some(Patch(begin, length, str)) =>
      var t := Min(length, |str|);
      d.buf[..begin] + str[..t] + d.buf[begin + t..]
  }

  /** How many bytes of the replacement lie below position `front` of the buffer. */
  function Taken(p: Patch, front: nat): nat {
    Max(0, Min(front - p.begin, Min(p.length, |p.rest|)))
  }

  /** The buffer when exactly its first `front` bytes have been read. */
  function Advance(d: Chunk, front: nat): Chunk {
    match d.patch
    case None => d
    case Some(p) => d.(patch := Some(p.(rest := p.rest[Taken(p, front)..])))
  }

  /** While a buffer is read from its start, each read returns the patched bytes. */
  lemma EmitInOrder(d: Chunk, pos: nat, n: nat)
    requires d.PatchInside() && pos + n <= |d.buf|
    ensures Emit(Advance(d, pos), pos, n) == (PatchedBuf(d)[pos..pos + n], Advance(d, pos + n))
  {
    if d.patch.Some? {
      var p := d.patch.value;
      var left, right := Max(pos, p.begin), Min(pos + n, p.begin + p.length);
      if left >= right {
        OffPatch(d, pos, n);
      } else {
        UnderPatch(d, pos, n);
      }
    }
  }

  lemma OffPatch(d: Chunk, pos: nat, n: nat)
    requires d.PatchInside() && pos + n <= |d.buf| && d.patch.Some?
    requires var p := d.patch.value; pos + n <= p.begin || p.begin + p.length <= pos || n == 0 || p.length == 0
    ensures PatchedBuf(d)[pos..pos + n] == d.buf[pos..pos + n]
    ensures Taken(d.patch.value, pos) == Taken(d.patch.value, pos + n)
  {
    var Patch(begin, length, str) := d.patch.value;
    var t := Min(length, |str|);
    if pos + n <= begin {
      assert PatchedBuf(d)[pos..pos + n] == d.buf[..begin][pos..pos + n];
    } else {
      assert begin + t <= pos || n == 0 || t == 0;
      forall x | pos <= x < pos + n ensures PatchedBuf(d)[x] == d.buf[x] {}
    }
  }

  lemma UnderPatch(d: Chunk, pos: nat, n: nat)
    requires d.PatchInside() && pos + n <= |d.buf| && d.patch.Some?
    requires Max(pos, d.patch.value.begin) < Min(pos + n, d.patch.value.begin + d.patch.value.length)
    ensures Emit(Advance(d, pos), pos, n) == (PatchedBuf(d)[pos..pos + n], Advance(d, pos + n))
  {
    hide Taken, Emit;
    var p := d.patch.value;
    TakenUnderPatch(p, pos, n);
    EmitTakes(d, pos, n, Taken(p, pos), Taken(p, pos + n));
    PatchedStretch(d.buf, p.begin, Min(p.length, |p.rest|), p.rest, pos, n, Taken(p, pos), Taken(p, pos + n));
  }

  lemma EmitTakes(d: Chunk, pos: nat, n: nat, from: nat, to: nat)
    requires d.PatchInside() && pos + n <= |d.buf| && d.patch.Some? && from <= to <= |d.patch.value.rest|
    requires Max(pos, d.patch.value.begin) < Min(pos + n, d.patch.value.begin + d.patch.value.length)
    requires var p := d.patch.value;
      Min(Min(pos + n, p.begin + p.length) - Max(pos, p.begin), |p.rest| - from) == to - from
    ensures var Patch(begin, length, str) := d.patch.value;
      var left := Max(pos, begin);
      left + (to - from) <= pos + n &&
      Emit(d.(patch := Some(Patch(begin, length, str[from..]))), pos, n)
      == (d.buf[pos..left] + str[from..to] + d.buf[left + (to - from)..pos + n],
          d.(patch := Some(Patch(begin, length, str[to..]))))
  {
    var str := d.patch.value.rest;
    assert str[from..][..to - from] == str[from..to] && str[from..][to - from..] == str[to..];
  }

  /** How much of the replacement one read takes. */
  lemma TakenUnderPatch(p: Patch, pos: nat, n: nat)
    requires Max(pos, p.begin) < Min(pos + n, p.begin + p.length)
    ensures var from, to, t := Taken(p, pos), Taken(p, pos + n), Min(p.length, |p.rest|);
      && from <= to <= |p.rest|
      && Min(Min(pos + n, p.begin + p.length) - Max(pos, p.begin), |p.rest| - from) == to - from
      && from == Max(0, Min(pos - p.begin, t)) && to == Max(0, Min(pos + n - p.begin, t))
  {}

  /** A stretch of a patched buffer, cut where the replacement starts and ends. */
  lemma PatchedStretch(buf: seq<Byte>, begin: nat, t: nat, str: seq<Byte>, pos: nat, n: nat, from: nat, to: nat)
    requires pos + n <= |buf| && begin + t <= |buf| && t <= |str|
    requires begin < pos + n && from == Max(0, Min(pos - begin, t)) && to == Max(0, Min(pos + n - begin, t))
    ensures var left := Max(pos, begin);
      left + (to - from) <= pos + n &&
      (buf[..begin] + str[..t] + buf[begin + t..])[pos..pos + n]
      == buf[pos..left] + str[from..to] + buf[left + (to - from)..pos + n]
  {
    var left := Max(pos, begin);
    var all := buf[..begin] + str[..t] + buf[begin + t..];
    var parts := buf[pos..left] + str[from..to] + buf[left + (to - from)..pos + n];
    assert |parts| == n;
    forall x | 0 <= x < n ensures all[pos + x] == parts[x] {}
    assert all[pos..pos + n] == parts;
  }
}
