/** The sparse memory that firmware is loaded into, on values: what its buffers hold, and
    what a write or a read does to them. */
module Memory {
  import opened Bytes

  /** A replacement for `length` bytes of a buffer from `begin` on. `rest` is what has
      not been handed out yet. */
  datatype Patch = Patch(begin: nat, length: nat, rest: seq<Byte>)

  datatype Chunk = Chunk(offset: int, buf: seq<Byte>, patch: Option<Patch>) {
    function End(): int { offset + |buf| }
    predicate Contains(a: int) { offset <= a < End() }
    predicate PatchInside() { patch.Some? ==> patch.value.begin + patch.value.length <= |buf| }
  }

  // ---------- Writing ----------

  /** The first buffer that ends where the write starts, or the number of buffers. */
  function WriteIndex(cs: seq<Chunk>, off: int): (i: nat)
    ensures i <= |cs| && (i < |cs| ==> cs[i].End() == off)
    ensures forall j :: 0 <= j < i ==> cs[j].End() != off
  {
    if cs == [] || cs[0].End() == off then 0 else 1 + WriteIndex(cs[1..], off)
  }

  /** The place of a new buffer in the order of offsets. */
  function Insert(cs: seq<Chunk>, c: Chunk): (r: seq<Chunk>)
    ensures |r| == |cs| + 1
  {
    if cs == [] || c.offset < cs[0].offset then [c] + cs else [cs[0]] + Insert(cs[1..], c)
  }

  lemma {:induction false} InsertSplits(cs: seq<Chunk>, c: Chunk, i: nat)
    requires i <= |cs| && forall j :: 0 <= j < i ==> cs[j].offset <= c.offset
    requires i < |cs| ==> c.offset < cs[i].offset
    ensures Insert(cs, c) == cs[..i] + [c] + cs[i..]
  {
    if i > 0 {
      InsertSplits(cs[1..], c, i - 1);
      assert cs[..i] == [cs[0]] + cs[1..][..i - 1] && cs[i..] == cs[1..][i - 1..];
    }
  }

  function Write(cs: seq<Chunk>, off: int, p: seq<Byte>): seq<Chunk> {
    var i := WriteIndex(cs, off);
    if i < |cs| then cs[i := cs[i].(buf := cs[i].buf + p)]
    else Insert(cs, Chunk(off, p, None))
  }

  /** Every write, also of bytes that are there already. It appends to the first buffer that ends where
      it starts; without one, it adds a buffer before the first that starts later. */
  lemma WriteOutcome(cs: seq<Chunk>, off: int, p: seq<Byte>, i: nat)
    requires i <= |cs|
    ensures i < |cs| && cs[i].End() == off && (forall j :: 0 <= j < i ==> cs[j].End() != off) ==>
      Write(cs, off, p) == cs[i := cs[i].(buf := cs[i].buf + p)]
    ensures
      ((forall j :: 0 <= j < |cs| ==> cs[j].End() != off)
       && (forall j :: 0 <= j < i ==> cs[j].offset <= off) && (i < |cs| ==> off < cs[i].offset)) ==>
        Write(cs, off, p) == cs[..i] + [Chunk(off, p, None)] + cs[i..]
  {
    var w := WriteIndex(cs, off);
    if (forall j :: 0 <= j < i ==> cs[j].offset <= off) && (i < |cs| ==> off < cs[i].offset) {
      InsertSplits(cs, Chunk(off, p, None), i);
    }
  }

  // ---------- Reading ----------

  /** The last buffer that contains the address, looking no further than the first one
      that starts above it; -1 if there is none. */
  function Pick(cs: seq<Chunk>, off: int): (i: int)
    ensures -1 <= i < |cs| && (i >= 0 ==> cs[i].Contains(off))
  {
    if cs == [] || off < cs[0].offset then -1 else
    var later := Pick(cs[1..], off);
    if later >= 0 then later + 1 else if off < cs[0].End() then 0 else -1
  }

  /** Bytes [pos, pos + n) of a buffer, with the bytes under its patch taken from what is
      left of the replacement, in the order in which they are asked for. */
  function Emit(c: Chunk, pos: nat, n: nat): (r: (seq<Byte>, Chunk))
    requires pos + n <= |c.buf| && c.PatchInside()
    ensures |r.0| == n && r.1.offset == c.offset && r.1.buf == c.buf && r.1.PatchInside()
    ensures c.patch == None ==> r == (c.buf[pos..pos + n], c)
  {
    match c.patch
    case None => (c.buf[pos..pos + n], c)
    case Some(Patch(begin, length, rest)) =>
      var left, right := Max(pos, begin), Min(pos + n, begin + length);
      if left >= right then (c.buf[pos..pos + n], c) else
      var t := Min(right - left, |rest|);
      (c.buf[pos..left] + rest[..t] + c.buf[left + t..pos + n], c.(patch := Some(Patch(begin, length, rest[t..]))))
  }

  ghost predicate PatchesInside(cs: seq<Chunk>) {
    forall i :: 0 <= i < |cs| ==> cs[i].PatchInside()
  }

  /** A read, which goes on in the next buffer where one ends. It fails when an address
      is missing, or when a patch changes the 8-bit sum of what is read. */
  function Read(cs: seq<Chunk>, off: int, n: nat): (r: (seq<Chunk>, Option<seq<Byte>>))
    requires PatchesInside(cs)
    ensures PatchesInside(r.0) && |r.0| == |cs|
    ensures forall i :: 0 <= i < |cs| ==> r.0[i].offset == cs[i].offset && r.0[i].buf == cs[i].buf
    ensures r.1.Some? ==> |r.1.value| == n
    decreases n
  {
    var i := Pick(cs, off);
    if i < 0 then (cs, None) else
    var pos := off - cs[i].offset;
    var m := Min(n, |cs[i].buf| - pos);
    var (bytes, c) := Emit(cs[i], pos, m);
    var cs' := cs[i := c];
    if !Same8(cs[i].buf[pos..pos + m], bytes) then (cs', None)
    else if m == n then (cs', Some(bytes))
    else
      match Read(cs', off + m, n - m)
      case (cs'', None) => (cs'', None)
      case (cs'', Some(more)) => (cs'', Some(bytes + more))
  }

  /** One level of a read. */
  lemma ReadStep(cs: seq<Chunk>, off: int, n: nat)
    requires PatchesInside(cs)
    ensures Read(cs, off, n) ==
      var i := Pick(cs, off);
      if i < 0 then (cs, None) else
      var pos := off - cs[i].offset;
      var m := Min(n, |cs[i].buf| - pos);
      var (bytes, c) := Emit(cs[i], pos, m);
      if !Same8(cs[i].buf[pos..pos + m], bytes) then (cs[i := c], None)
      else if m == n then (cs[i := c], Some(bytes))
      else
        var (cs', more) := Read(cs[i := c], off + m, n - m);
        (cs', if more.Some? then Some(bytes + more.value) else None)
  {
    hide Emit, Same8, Pick;
  }

  /** Which buffer a read takes, in whatever state: of those before the first that starts above the
      address, the last that contains it. */
  lemma {:induction false} PickOutcome(cs: seq<Chunk>, off: int, k: nat)
    requires k <= |cs| && (forall j :: 0 <= j < k ==> cs[j].offset <= off) && (k < |cs| ==> off < cs[k].offset)
    ensures Pick(cs, off) < k
    ensures forall j :: 0 <= j < k && cs[j].Contains(off) ==> j <= Pick(cs, off)
  {
    if k > 0 {
      PickOutcome(cs[1..], off, k - 1);
      forall j | 0 <= j < k && cs[j].Contains(off) ensures j <= Pick(cs, off) {
        assert j > 0 ==> cs[1..][j - 1] == cs[j];
      }
    }
  }

  // ---------- Reading into a part of an array ----------

  /** What is in `p` after the bytes that a buffer has from `pos` on are copied to its front. */
  function Copied(buf: seq<Byte>, pos: nat, p: seq<Byte>): (r: seq<Byte>)
    requires pos <= |buf|
    ensures |r| == |p|
  {
    var m := Min(|p|, |buf| - pos);
    buf[pos..pos + m] + p[m..]
  }

  /** One buffer's part of a read into `p`. A patch that reaches over the end of its buffer also
      covers what is behind the copied bytes in `p`. */
  function EmitInto(c: Chunk, pos: nat, p: seq<Byte>): (r: (seq<Byte>, Chunk))
    requires pos <= |c.buf|
    ensures |r.0| == |p| && r.1.offset == c.offset && r.1.buf == c.buf
  {
    var plain := Copied(c.buf, pos, p);
    match c.patch
    case None => (plain, c)
    case Some(Patch(begin, length, rest)) =>
      var left, right := Max(pos, begin), Min(pos + |p|, begin + length);
      if left >= right then (plain, c) else
      var at, t := left - pos, Min(right - left, |rest|);
      (plain[..at] + rest[..t] + plain[at + t..], c.(patch := Some(Patch(begin, length, rest[t..]))))
  }

  /** What one part of a read gives, byte by byte, wherever it starts: the next bytes of the replacement
      from the region's start or the read's on, whichever is later, as long as there are any and the
      region lasts; the buffer's bytes elsewhere; and what was in `p` behind those. What has been
      handed out is not handed out again. */
  lemma EmitBytes(c: Chunk, pos: nat, p: seq<Byte>)
    requires pos <= |c.buf|
    ensures c.patch == None ==> EmitInto(c, pos, p).1 == c
    ensures c.patch.Some? ==>
      var Patch(begin, length, rest) := c.patch.value;
      var left, right := Max(pos, begin), Min(pos + |p|, begin + length);
      var n := Min(Max(0, right - left), |rest|);
      EmitInto(c, pos, p).1 == c.(patch := Some(Patch(begin, length, rest[n..])))
    ensures forall x :: 0 <= x < |p| ==>
      (EmitInto(c, pos, p).0[x] ==
       if c.patch.Some? && c.patch.value.begin <= pos + x < c.patch.value.begin + c.patch.value.length
          && pos + x - Max(pos, c.patch.value.begin) < |c.patch.value.rest|
       then c.patch.value.rest[pos + x - Max(pos, c.patch.value.begin)]
       else if pos + x < |c.buf| then c.buf[pos + x] else p[x])
  {
    hide Copied;
    forall x | 0 <= x < |p|
      ensures EmitInto(c, pos, p).0[x] ==
        if c.patch.Some? && c.patch.value.begin <= pos + x < c.patch.value.begin + c.patch.value.length
           && pos + x - Max(pos, c.patch.value.begin) < |c.patch.value.rest|
        then c.patch.value.rest[pos + x - Max(pos, c.patch.value.begin)]
        else if pos + x < |c.buf| then c.buf[pos + x] else p[x]
    {
      EmittedAt(c, pos, p, x);
    }
  }

  lemma EmittedAt(c: Chunk, pos: nat, p: seq<Byte>, x: nat)
    requires pos <= |c.buf| && x < |p|
    ensures EmitInto(c, pos, p).0[x] ==
      if c.patch.Some? && c.patch.value.begin <= pos + x < c.patch.value.begin + c.patch.value.length
         && pos + x - Max(pos, c.patch.value.begin) < |c.patch.value.rest|
      then c.patch.value.rest[pos + x - Max(pos, c.patch.value.begin)]
      else if pos + x < |c.buf| then c.buf[pos + x] else p[x]
  {
    hide Copied;
    CopiedAt(c.buf, pos, p, x);
    if c.patch.Some? {
      var Patch(begin, length, rest) := c.patch.value;
      var left, right := Max(pos, begin), Min(pos + |p|, begin + length);
      if left < right {
        Spliced(Copied(c.buf, pos, p), rest[..Min(right - left, |rest|)], left - pos, x);
      }
    }
  }

  lemma Spliced(a: seq<Byte>, b: seq<Byte>, at: nat, x: nat)
    requires at + |b| <= |a| && x < |a|
    ensures (a[..at] + b + a[at + |b|..])[x] == if at <= x < at + |b| then b[x - at] else a[x]
  {}

  lemma CopiedAt(buf: seq<Byte>, pos: nat, p: seq<Byte>, x: nat)
    requires pos <= |buf| && x < |p|
    ensures Copied(buf, pos, p)[x] == if pos + x < |buf| then buf[pos + x] else p[x]
  {}

  /** A read into `p`, for patches that may reach over the ends of their buffers. */
  function ReadInto(cs: seq<Chunk>, off: int, p: seq<Byte>): (r: (seq<Chunk>, Option<seq<Byte>>))
    ensures |r.0| == |cs| && (r.1.Some? ==> |r.1.value| == |p|)
    ensures forall i :: 0 <= i < |cs| ==> r.0[i].offset == cs[i].offset && r.0[i].buf == cs[i].buf
    decreases |p|
  {
    var i := Pick(cs, off);
    if i < 0 then (cs, None) else
    var pos := off - cs[i].offset;
    var m := Min(|p|, |cs[i].buf| - pos);
    var (bytes, c) := EmitInto(cs[i], pos, p);
    var cs' := cs[i := c];
    if !Same8(Copied(cs[i].buf, pos, p), bytes) then (cs', None)
    else if m == |p| then (cs', Some(bytes))
    else
      match ReadInto(cs', off + m, bytes[m..])
      case (cs'', None) => (cs'', None)
      case (cs'', Some(more)) => (cs'', Some(bytes[..m] + more))
  }

  /** One level of such a read. */
  lemma ReadIntoStep(cs: seq<Chunk>, off: int, p: seq<Byte>)
    ensures ReadInto(cs, off, p) ==
      var i := Pick(cs, off);
      if i < 0 then (cs, None) else
      var pos := off - cs[i].offset;
      var m := Min(|p|, |cs[i].buf| - pos);
      var (bytes, c) := EmitInto(cs[i], pos, p);
      if !Same8(Copied(cs[i].buf, pos, p), bytes) then (cs[i := c], None)
      else if m == |p| then (cs[i := c], Some(bytes))
      else
        var (cs', more) := ReadInto(cs[i := c], off + m, bytes[m..]);
        (cs', if more.Some? then Some(bytes[..m] + more.value) else None)
  {
    hide EmitInto, Same8, Pick, Copied;
  }

  lemma CopiedAround(buf: seq<Byte>, pos: nat, p: seq<Byte>, x: nat, y: nat)
    requires pos <= |buf| && x <= y <= Min(|p|, |buf| - pos)
    ensures var m := Min(|p|, |buf| - pos);
      Copied(buf, pos, p)[..x] == buf[pos..pos + x] && Copied(buf, pos, p)[y..] == buf[pos + y..pos + m] + p[m..]
  {
    var m := Min(|p|, |buf| - pos);
    assert buf[pos..pos + m][y..] == buf[pos + y..pos + m];
  }

  /** A patch inside its buffer only covers the copied bytes. */
  lemma EmitIntoInside(c: Chunk, pos: nat, p: seq<Byte>)
    requires c.PatchInside() && pos <= |c.buf|
    ensures var m := Min(|p|, |c.buf| - pos);
      var (bytes, c') := Emit(c, pos, m);
      EmitInto(c, pos, p) == (bytes + p[m..], c')
  {
    hide Copied;
    var m, plain := Min(|p|, |c.buf| - pos), Copied(c.buf, pos, p);
    CopiedAround(c.buf, pos, p, 0, 0);
    if c.patch.Some? {
      var Patch(begin, length, rest) := c.patch.value;
      var left, right := Max(pos, begin), Min(pos + m, begin + length);
      if left < right {
        var at, t := left - pos, Min(right - left, |rest|);
        CopiedAround(c.buf, pos, p, at, at + t);
        AppendThree(c.buf[pos..left] + rest[..t], c.buf[left + t..pos + m], p[m..]);
      }
    }
  }

  lemma AppendThree(a: seq<Byte>, b: seq<Byte>, c: seq<Byte>)
    ensures a + (b + c) == a + b + c
  {}

  lemma SameWithTail(a: seq<Byte>, b: seq<Byte>, tail: seq<Byte>)
    ensures Same8(a + tail, b + tail) <==> Same8(a, b)
  {
    hide SumTo;
    var x, y, z := Sum(a), Sum(b), Sum(tail);
    SumConcat(a, tail);
    SumConcat(b, tail);
    if x % 256 == y % 256 {
      Add8(x, z, y, z);
    } else if (x + z) % 256 == (y + z) % 256 {
      Cancel8(x, y, z);
    }
  }

  /** With all patches inside their buffers, what was in `p` does not matter. */
  lemma {:induction false} ReadIntoInside(cs: seq<Chunk>, off: int, p: seq<Byte>)
    requires PatchesInside(cs)
    ensures ReadInto(cs, off, p) == Read(cs, off, |p|)
    decreases |p|
  {
    hide Emit, EmitInto, Same8, Pick, Read, ReadInto;
    var i := Pick(cs, off);
    ReadStep(cs, off, |p|);
    ReadIntoStep(cs, off, p);
    if i >= 0 {
      var pos := off - cs[i].offset;
      var m := Min(|p|, |cs[i].buf| - pos);
      var (bytes, c) := Emit(cs[i], pos, m);
      EmitIntoInside(cs[i], pos, p);
      SameWithTail(cs[i].buf[pos..pos + m], bytes, p[m..]);
      assert (bytes + p[m..])[..m] == bytes && (bytes + p[m..])[m..] == p[m..];
      if m < |p| {
        ReadIntoInside(cs[i := c], off + m, p[m..]);
      } else {
        assert bytes + p[m..] == bytes;
      }
    }
  }

  // ---------- Patches that reach over the end ----------

  /** A patch cut off at the end of its buffer. */
  function Clip(c: Chunk): (r: Chunk)
    ensures r.offset == c.offset && r.buf == c.buf
    ensures c.patch.Some? && c.patch.value.begin <= |c.buf| ==> r.PatchInside()
    ensures c.PatchInside() ==> r == c
  {
    match c.patch
    case None => c
    case Some(Patch(begin, length, rest)) =>
      c.(patch := Some(Patch(begin, Max(0, Min(length, |c.buf| - begin)), rest)))
  }

  function Clipped(cs: seq<Chunk>): (r: seq<Chunk>)
    ensures |r| == |cs|
  {
    seq(|cs|, i requires 0 <= i < |cs| => Clip(cs[i]))
  }

  /** Inside the buffer, cutting off changes nothing. */
  lemma EmitClipped(c: Chunk, pos: nat, p: seq<Byte>)
    requires pos + |p| <= |c.buf|
    ensures var (bytes, c') := EmitInto(c, pos, p);
      EmitInto(Clip(c), pos, p) == (bytes, Clip(c'))
  {
    hide Copied;
  }

  lemma {:induction false} PickClipped(cs: seq<Chunk>, off: int)
    ensures Pick(Clipped(cs), off) == Pick(cs, off)
  {
    hide Clip;
    if cs != [] {
      assert Clipped(cs)[1..] == Clipped(cs[1..]);
      PickClipped(cs[1..], off);
    }
  }

  lemma ClippedUpdate(cs: seq<Chunk>, i: nat, c: Chunk)
    requires i < |cs|
    ensures Clipped(cs)[i] == Clip(cs[i]) && Clipped(cs[i := c]) == Clipped(cs)[i := Clip(c)]
  {
    hide Clip;
  }

  lemma ReadsOneBuffer(cs: seq<Chunk>, off: int, p: seq<Byte>)
    requires Pick(cs, off) >= 0 && off + |p| <= cs[Pick(cs, off)].End()
    ensures ReadInto(cs, off, p) ==
      var i := Pick(cs, off);
      var (bytes, c) := EmitInto(cs[i], off - cs[i].offset, p);
      (cs[i := c], if Same8(Copied(cs[i].buf, off - cs[i].offset, p), bytes) then Some(bytes) else None)
  {
    hide Pick, EmitInto, Same8, Copied, ReadInto;
    ReadIntoStep(cs, off, p);
  }

  /** A read that stays in one buffer is the same with the patches cut off. */
  lemma ReadClipped(cs: seq<Chunk>, off: int, p: seq<Byte>)
    requires Pick(cs, off) >= 0 && off + |p| <= cs[Pick(cs, off)].End()
    ensures var (cs', bytes) := ReadInto(cs, off, p);
      ReadInto(Clipped(cs), off, p) == (Clipped(cs'), bytes)
  {
    hide Pick, EmitInto, Same8, Copied, ReadInto, Clip, Clipped;
    var i := Pick(cs, off);
    PickClipped(cs, off);
    ClippedUpdate(cs, i, EmitInto(cs[i], off - cs[i].offset, p).1);
    ReadsOneBuffer(cs, off, p);
    ReadsOneBuffer(Clipped(cs), off, p);
    EmitClipped(cs[i], off - cs[i].offset, p);
  }

  // ---------- The address map ----------

  /** Sorted, disjoint, nonempty buffers. */
  ghost predicate Tidy(cs: seq<Chunk>) {
    && (forall i :: 0 <= i < |cs| ==> cs[i].buf != [])
    && forall i, j :: 0 <= i < j < |cs| ==> cs[i].End() <= cs[j].offset
  }

  /** The byte at an address, if there is one. */
  function ByteAt(cs: seq<Chunk>, a: int): Option<Byte> {
    if cs == [] then None
    else if cs[0].Contains(a) then Some(cs[0].buf[a - cs[0].offset])
    else ByteAt(cs[1..], a)
  }

  ghost predicate Free(cs: seq<Chunk>, off: int, n: nat) {
    forall a :: off <= a < off + n ==> ByteAt(cs, a) == None
  }

  lemma TidyTail(cs: seq<Chunk>)
    requires Tidy(cs) && cs != []
    ensures Tidy(cs[1..])
    ensures forall i :: 0 <= i < |cs[1..]| ==> cs[0].End() <= cs[1..][i].offset
  {}

  lemma {:induction false} NothingBelow(cs: seq<Chunk>, a: int)
    requires forall i :: 0 <= i < |cs| ==> a < cs[i].offset
    ensures ByteAt(cs, a) == None
  {
    if cs != [] {
      assert !cs[0].Contains(a);
      NothingBelow(cs[1..], a);
    }
  }

  /** What the search for a buffer finds. */
  lemma {:induction false} PickFinds(cs: seq<Chunk>, off: int)
    requires Tidy(cs)
    ensures var i := Pick(cs, off);
      ByteAt(cs, off) == if i < 0 then None else Some(cs[i].buf[off - cs[i].offset])
  {
    if cs != [] {
      TidyTail(cs);
      if off < cs[0].End() {
        NothingBelow(cs[1..], off);
      }
      if cs[0].offset <= off {
        PickFinds(cs[1..], off);
      }
    }
  }

  ghost predicate Apart(c: Chunk, off: int, n: nat) {
    off + n <= c.offset || c.End() <= off
  }

  /** Free addresses are apart from every buffer. */
  lemma {:induction false} FreeIsApart(cs: seq<Chunk>, off: int, n: nat)
    requires Tidy(cs) && n > 0 && Free(cs, off, n)
    ensures forall i :: 0 <= i < |cs| ==> Apart(cs[i], off, n)
  {
    if cs != [] {
      TidyTail(cs);
      assert Apart(cs[0], off, n) by {
        assert ByteAt(cs, Max(off, cs[0].offset)).Some? <== !Apart(cs[0], off, n);
      }
      forall a | off <= a < off + n ensures ByteAt(cs[1..], a) == None {
        assert ByteAt(cs, a) == None;
      }
      FreeIsApart(cs[1..], off, n);
      assert forall i :: 1 <= i < |cs| ==> cs[i] == cs[1..][i - 1];
    }
  }

  lemma {:induction false} InsertStaysAbove(cs: seq<Chunk>, c: Chunk, lo: int)
    requires lo <= c.offset && forall i :: 0 <= i < |cs| ==> lo <= cs[i].offset
    ensures forall i :: 0 <= i < |Insert(cs, c)| ==> lo <= Insert(cs, c)[i].offset
  {
    if cs != [] && cs[0].offset <= c.offset {
      InsertStaysAbove(cs[1..], c, lo);
    }
  }

  lemma {:induction false} InsertKeepsTidy(cs: seq<Chunk>, c: Chunk)
    requires Tidy(cs) && c.buf != [] && forall i :: 0 <= i < |cs| ==> Apart(cs[i], c.offset, |c.buf|)
    ensures Tidy(Insert(cs, c))
  {
    if cs != [] {
      assert Apart(cs[0], c.offset, |c.buf|);
      TidyTail(cs);
      if cs[0].offset <= c.offset {
        InsertKeepsTidy(cs[1..], c);
        InsertStaysAbove(cs[1..], c, cs[0].End());
      }
    }
  }

  lemma {:induction false} InsertAddsBytes(cs: seq<Chunk>, c: Chunk, a: int)
    requires Tidy(cs) && forall i :: 0 <= i < |cs| ==> Apart(cs[i], c.offset, |c.buf|)
    ensures ByteAt(Insert(cs, c), a) == if c.Contains(a) then Some(c.buf[a - c.offset]) else ByteAt(cs, a)
  {
    if cs == [] || c.offset < cs[0].offset {
      assert ([c] + cs)[1..] == cs;
    } else {
      TidyTail(cs);
      assert Apart(cs[0], c.offset, |c.buf|);
      InsertAddsBytes(cs[1..], c, a);
      assert Insert(cs, c)[1..] == Insert(cs[1..], c);
    }
  }

  lemma {:induction false} AppendAddsBytes(cs: seq<Chunk>, i: nat, p: seq<Byte>, a: int)
    requires Tidy(cs) && i < |cs| && forall j :: 0 <= j < |cs| ==> Apart(cs[j], cs[i].End(), |p|)
    ensures ByteAt(cs[i := cs[i].(buf := cs[i].buf + p)], a)
      == if cs[i].End() <= a < cs[i].End() + |p| then Some(p[a - cs[i].End()]) else ByteAt(cs, a)
  {
    var c := cs[i].(buf := cs[i].buf + p);
    assert Apart(cs[0], cs[i].End(), |p|);
    if i == 0 {
      assert cs[0 := c][1..] == cs[1..];
    } else {
      TidyTail(cs);
      assert cs[i := c][1..] == cs[1..][i - 1 := c] && cs[1..][i - 1] == cs[i];
      AppendAddsBytes(cs[1..], i - 1, p, a);
    }
  }

  lemma AppendKeepsTidy(cs: seq<Chunk>, i: nat, p: seq<Byte>)
    requires Tidy(cs) && i < |cs| && forall j :: 0 <= j < |cs| ==> Apart(cs[j], cs[i].End(), |p|)
    ensures Tidy(cs[i := cs[i].(buf := cs[i].buf + p)])
  {
    forall j | i < j < |cs| ensures cs[i].End() + |p| <= cs[j].offset {
      assert Apart(cs[j], cs[i].End(), |p|);
    }
  }

  /** A write of new, nonempty data keeps the buffers tidy and adds exactly its bytes. */
  lemma WriteRefinesMap(cs: seq<Chunk>, off: int, p: seq<Byte>)
    requires Tidy(cs) && p != [] && Free(cs, off, |p|)
    ensures Tidy(Write(cs, off, p))
    ensures forall a :: ByteAt(Write(cs, off, p), a) == if off <= a < off + |p| then Some(p[a - off]) else ByteAt(cs, a)
  {
    hide ByteAt, Tidy;
    FreeIsApart(cs, off, |p|);
    var i := WriteIndex(cs, off);
    if i < |cs| {
      AppendKeepsTidy(cs, i, p);
    } else {
      InsertKeepsTidy(cs, Chunk(off, p, None));
    }
    forall a ensures ByteAt(Write(cs, off, p), a) == if off <= a < off + |p| then Some(p[a - off]) else ByteAt(cs, a) {
      if i < |cs| {
        AppendAddsBytes(cs, i, p, a);
      } else {
        InsertAddsBytes(cs, Chunk(off, p, None), a);
      }
    }
  }

  ghost predicate NoPatches(cs: seq<Chunk>) {
    forall i :: 0 <= i < |cs| ==> cs[i].patch == None
  }

  /** The bytes of one buffer, seen through the map. */
  lemma {:induction false} BytesOfChunk(cs: seq<Chunk>, i: nat, a: int)
    requires Tidy(cs) && i < |cs| && cs[i].Contains(a)
    ensures ByteAt(cs, a) == Some(cs[i].buf[a - cs[i].offset])
  {
    if i > 0 {
      TidyTail(cs);
      assert cs[1..][i - 1] == cs[i];
      BytesOfChunk(cs[1..], i - 1, a);
    }
  }

  /** The bytes `s` are what the memory holds from `off` on. */
  ghost predicate HeldAt(cs: seq<Chunk>, off: int, s: seq<Byte>) {
    forall a :: off <= a < off + |s| ==> ByteAt(cs, a) == Some(s[a - off])
  }

  ghost predicate Missing(cs: seq<Chunk>, off: int, n: nat) {
    exists a :: off <= a < off + n && ByteAt(cs, a) == None
  }

  lemma PickedBytes(cs: seq<Chunk>, i: nat, pos: nat, m: nat)
    requires Tidy(cs) && i < |cs| && pos + m <= |cs[i].buf|
    ensures HeldAt(cs, cs[i].offset + pos, cs[i].buf[pos..pos + m])
  {
    forall a | cs[i].offset + pos <= a < cs[i].offset + pos + m
      ensures ByteAt(cs, a) == Some(cs[i].buf[a - cs[i].offset])
    {
      BytesOfChunk(cs, i, a);
    }
  }

  lemma SameItself(s: seq<Byte>)
    ensures Same8(s, s)
  {}

  /** One level of a read without patches. */
  lemma ReadUnpatched(cs: seq<Chunk>, off: int, n: nat)
    requires NoPatches(cs) && Pick(cs, off) >= 0
    ensures var i := Pick(cs, off);
      var pos := off - cs[i].offset;
      var m := Min(n, |cs[i].buf| - pos);
      var bytes := cs[i].buf[pos..pos + m];
      Read(cs, off, n) ==
        if m == n then (cs, Some(bytes)) else
        var (cs', more) := Read(cs, off + m, n - m);
        (cs', if more.Some? then Some(bytes + more.value) else None)
  {
    hide Emit, Same8, Pick, Read;
    var i := Pick(cs, off);
    var pos := off - cs[i].offset;
    ReadStep(cs, off, n);
    SameItself(cs[i].buf[pos..pos + Min(n, |cs[i].buf| - pos)]);
    assert cs[i := cs[i]] == cs;
  }

  /** Without patches, a read of at least one byte changes nothing and returns the bytes
      at its addresses, or fails when one of them is missing. */
  lemma {:induction false} ReadRefinesMap(cs: seq<Chunk>, off: int, n: nat)
    requires Tidy(cs) && NoPatches(cs) && n > 0
    ensures Read(cs, off, n).0 == cs
    ensures match Read(cs, off, n).1
      case Some(s) => HeldAt(cs, off, s)
      case None => Missing(cs, off, n)
    decreases n
  {
    PickFinds(cs, off);
    if Pick(cs, off) >= 0 {
      ReadGoesOn(cs, off, n);
    }
  }

  lemma {:induction false} ReadGoesOn(cs: seq<Chunk>, off: int, n: nat)
    requires Tidy(cs) && NoPatches(cs) && n > 0 && Pick(cs, off) >= 0
    ensures Read(cs, off, n).0 == cs
    ensures match Read(cs, off, n).1
      case Some(s) => HeldAt(cs, off, s)
      case None => Missing(cs, off, n)
    decreases n, 0
  {
    hide ByteAt, Tidy, Read, Pick, NoPatches;
    var i := Pick(cs, off);
    var pos := off - cs[i].offset;
    var m := Min(n, |cs[i].buf| - pos);
    ReadUnpatched(cs, off, n);
    PickedBytes(cs, i, pos, m);
    if m < n {
      ReadRefinesMap(cs, off + m, n - m);
    }
  }
}
