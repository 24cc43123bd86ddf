/** The sparse memory as the program keeps it: buffers that grow in place, and
    replacements that are handed out byte by byte. */
module MemBuffer {
  import opened Bytes
  import opened HexFormat
  import opened Memory
  import Patching

  class ReplaceConfig {
    const str: seq<Byte>
    var nextByte: nat

    constructor (str: seq<Byte>)
      ensures this.str == str && nextByte == 0
    {
      this.str, nextByte := str, 0;
    }

    predicate IsComplete()
      reads this
    {
      |str| <= nextByte
    }

    method Emit() returns (b: Byte)
      requires !IsComplete()
      modifies this
      ensures b == str[old(nextByte)] && nextByte == old(nextByte) + 1
    {
      b := str[nextByte];
      nextByte := nextByte + 1;
    }
  }

  class SequentialReplacement {
    const replacements: seq<ReplaceConfig>
    var currentIndex: nat
    ghost const Parts: set<object>

    /** Replacements before the current one are used up, later ones are untouched. */
    ghost predicate Valid()
      reads this, Parts
    {
      && this in Parts && (forall i :: 0 <= i < |replacements| ==> replacements[i] in Parts)
      && currentIndex < |replacements|
      && (forall i, j :: 0 <= i < j < |replacements| ==> replacements[i] != replacements[j])
      && (forall i :: 0 <= i < |replacements| ==>
            replacements[i].str != [] && replacements[i].nextByte <= |replacements[i].str|)
      && (forall i :: currentIndex < i < |replacements| ==> replacements[i].nextByte == 0)
    }

    static ghost function Strings(rs: seq<ReplaceConfig>): seq<Byte> {
      if rs == [] then [] else rs[0].str + Strings(rs[1..])
    }

    /** The bytes still to be handed out. */
    ghost function Rest(): seq<Byte>
      requires Valid()
      reads this, Parts
    {
      var r := replacements[currentIndex];
      r.str[r.nextByte..] + Strings(replacements[currentIndex + 1..])
    }

    constructor (rs: seq<ReplaceConfig>)
      requires rs != [] && forall i, j :: 0 <= i < j < |rs| ==> rs[i] != rs[j]
      requires forall i :: 0 <= i < |rs| ==> rs[i].str != [] && rs[i].nextByte == 0
      ensures Valid() && Rest() == Strings(rs)
      ensures Parts == {this} + (set r: ReplaceConfig | r in rs :: r as object)
    {
      replacements, currentIndex := rs, 0;
      Parts := {this} + set r: ReplaceConfig | r in rs :: r as object;
      assert forall i :: 0 <= i < |rs| ==> rs[i] in rs;
    }

    /** A used-up replacement and the one after it, if any. */
    lemma NextStarts()
      requires Valid() && replacements[currentIndex].IsComplete()
      ensures Rest() ==
        if currentIndex + 1 == |replacements| then [] else
        var next := replacements[currentIndex + 1];
        next.str[next.nextByte..] + Strings(replacements[currentIndex + 2..])
    {
      if currentIndex + 1 < |replacements| {
        assert replacements[currentIndex + 1..][0] == replacements[currentIndex + 1];
        assert replacements[currentIndex + 1..][1..] == replacements[currentIndex + 2..];
      }
    }

    method Emit() returns (b: Byte)
      requires Valid() && Rest() != []
      modifies Parts
      ensures Valid() && b == old(Rest())[0] && Rest() == old(Rest())[1..]
    {
      hide Strings;
      if replacements[currentIndex].IsComplete() {
        NextStarts();
        currentIndex := currentIndex + 1;
      }
      ghost var r := replacements[currentIndex];
      FirstOfRest(r.str, r.nextByte, Strings(replacements[currentIndex + 1..]));
      b := replacements[currentIndex].Emit();
    }

    method IsComplete() returns (done: bool)
      requires Valid()
      modifies Parts
      ensures Valid() && Rest() == old(Rest()) && (done <==> Rest() == [])
    {
      hide Strings;
      if currentIndex >= |replacements| {
        return true;
      }
      if replacements[currentIndex].IsComplete() {
        NextStarts();
        currentIndex := currentIndex + 1;
      }
      if currentIndex >= |replacements| {
        currentIndex := currentIndex - 1;
        return true;
      }
      done := replacements[currentIndex].IsComplete();
    }
  }

  lemma FirstOfRest(str: seq<Byte>, i: nat, later: seq<Byte>)
    requires i < |str|
    ensures var rest := str[i..] + later; rest != [] && rest[0] == str[i] && rest[1..] == str[i + 1..] + later
  {}

  datatype Update = Update(begin: nat, length: nat, sRepl: SequentialReplacement)

  datatype OffsetBuffer = OffsetBuffer(offset: int, buf: seq<Byte>, update: Option<Update>)

  method Checksum(s: seq<Byte>) returns (c: Byte)
    ensures c == Complement(Sum(s))
  {
    var sum: nat := 0;
    for i := 0 to |s|
      invariant sum == Sum(s[0..i]) % 256
    {
      Step8(s, 0, i);
      sum := (sum + s[i]) % 256;
    }
    assert s[0..|s|] == s;
    c := Complement(sum);
  }

  lemma SameChecksum(x: nat, y: nat)
    ensures Complement(x) == Complement(y) <==> x % 256 == y % 256
  {}

  /** The loop that fills the window [lo, hi) from what is left of a replacement. */
  method Permute(p: array<Byte>, lo: nat, hi: nat, sRepl: SequentialReplacement)
    requires lo <= hi <= p.Length && sRepl.Valid() && p !in sRepl.Parts
    modifies p, sRepl.Parts
    ensures sRepl.Valid()
    ensures var rest := old(sRepl.Rest());
      var t := Min(hi - lo, |rest|);
      sRepl.Rest() == rest[t..] && p[..] == old(p[..])[..lo] + rest[..t] + old(p[..])[lo + t..]
  {
    hide SequentialReplacement.Valid, SequentialReplacement.Rest;
    ghost var rest := sRepl.Rest();
    var i := 0;
    var done := sRepl.IsComplete();
    while !done && i < hi - lo
      invariant 0 <= i <= hi - lo && i <= |rest| && sRepl.Valid()
      invariant sRepl.Rest() == rest[i..] && done == (sRepl.Rest() == [])
      invariant forall k :: 0 <= k < i ==> p[lo + k] == rest[k]
      invariant forall k :: 0 <= k < p.Length && !(lo <= k < lo + i) ==> p[k] == old(p[k])
    {
      p[lo + i] := sRepl.Emit();
      i := i + 1;
      done := sRepl.IsComplete();
    }
    FilledAround(old(p[..]), p[..], lo, rest[..i]);
  }

  lemma FilledAround(was: seq<Byte>, now: seq<Byte>, lo: nat, fill: seq<Byte>)
    requires |now| == |was| && lo + |fill| <= |was|
    requires forall k :: 0 <= k < |fill| ==> now[lo + k] == fill[k]
    requires forall k :: 0 <= k < |was| && !(lo <= k < lo + |fill|) ==> now[k] == was[k]
    ensures now == was[..lo] + fill + was[lo + |fill|..]
  {}

  /** Filling the window, and comparing the checksum of the buffer's part from `from` on
      with the given one. */
  method UpdateWithPermutations(p: array<Byte>, from: nat, lo: nat, hi: nat, targetChecksum: Byte,
                                sRepl: SequentialReplacement)
      returns (ok: bool)
    requires from <= lo <= hi <= p.Length && sRepl.Valid() && p !in sRepl.Parts
    modifies p, sRepl.Parts
    ensures sRepl.Valid()
    ensures var rest := old(sRepl.Rest());
      var t := Min(hi - lo, |rest|);
      sRepl.Rest() == rest[t..] && p[..] == old(p[..])[..lo] + rest[..t] + old(p[..])[lo + t..]
    ensures ok == (Complement(Sum(p[..][from..])) == targetChecksum)
  {
    Permute(p, lo, hi, sRepl);
    assert p[from..] == p[..][from..];
    var sum := Checksum(p[from..]);
    ok := sum == targetChecksum;
  }

  /** The objects behind a buffer's patch. */
  ghost function Objects(b: OffsetBuffer): set<object> {
    match b.update
    case None => {}
    case Some(u) => {u.sRepl} + u.sRepl.Parts
  }

  ghost predicate ValidBuffer(b: OffsetBuffer)
    reads Objects(b)
  {
    match b.update
    case None => true
    case Some(u) => u.sRepl.Valid()
  }

  ghost function ChunkOf(b: OffsetBuffer): (c: Chunk)
    requires ValidBuffer(b)
    reads Objects(b)
    ensures c.offset == b.offset && c.buf == b.buf
    ensures b.update == None ==> c.patch == None
  {
    Chunk(b.offset, b.buf, match b.update
      case None => None
      case Some(u) => Some(Patch(u.begin, u.length, u.sRepl.Rest())))
  }

  lemma NoPatchChunk(b: OffsetBuffer)
    requires b.update == None
    ensures Objects(b) == {} && ValidBuffer(b) && ChunkOf(b) == Chunk(b.offset, b.buf, None)
  {}

  lemma ChunkGrows(b: OffsetBuffer, p: seq<Byte>)
    requires ValidBuffer(b)
    ensures var b' := b.(buf := b.buf + p);
      ValidBuffer(b') && ChunkOf(b') == ChunkOf(b).(buf := b.buf + p)
  {}

  class MemBuffer {
    var buffers: seq<OffsetBuffer>
    ghost var Repr: set<object>

    /** No two patches share their progress. */
    ghost predicate Valid()
      reads this, Repr
    {
      && this !in Repr
      && (forall i :: 0 <= i < |buffers| ==> Objects(buffers[i]) <= Repr && ValidBuffer(buffers[i]))
      && forall i, j :: 0 <= i < j < |buffers| ==> Objects(buffers[i]) !! Objects(buffers[j])
    }

    ghost function ChunkAt(i: nat): Chunk
      requires Valid() && i < |buffers|
      reads this, Repr
    {
      ChunkOf(buffers[i])
    }

    /** The memory as a value. */
    ghost function View(): (cs: seq<Chunk>)
      requires Valid()
      reads this, Repr
      ensures |cs| == |buffers|
      ensures forall i :: 0 <= i < |buffers| ==> cs[i] == ChunkOf(buffers[i])
    {
      seq(|buffers|, i requires 0 <= i < |buffers| && Valid() reads this, Repr => ChunkAt(i))
    }

    constructor ()
      ensures Valid() && View() == [] && Repr == {}
    {
      buffers, Repr := [], {};
    }

    method FindWriteBuffer(off: int) returns (i: nat)
      requires Valid()
      ensures i == WriteIndex(View(), off)
    {
      i := 0;
      while i < |buffers|
        invariant i <= |buffers|
        invariant WriteIndex(View(), off) == i + WriteIndex(View()[i..], off)
      {
        assert View()[i..][0] == ChunkOf(buffers[i]);
        if buffers[i].offset + |buffers[i].buf| == off {
          return;
        }
        assert View()[i..][1..] == View()[i + 1..];
        i := i + 1;
      }
    }

    /** A new buffer, put in its place in the order of offsets. */
    method AddBuffer(b: OffsetBuffer)
      requires Valid() && b.update == None
      modifies this`buffers
      ensures Valid() && View() == Insert(old(View()), Chunk(b.offset, b.buf, None))
    {
      hide ValidBuffer, ChunkOf, Insert, Objects;
      NoPatchChunk(b);
      var i := 0;
      while i < |buffers| && buffers[i].offset <= b.offset
        invariant i <= |buffers| && forall j :: 0 <= j < i ==> buffers[j].offset <= b.offset
      {
        i := i + 1;
      }
      ghost var cs := View();
      ghost var c := Chunk(b.offset, b.buf, None);
      InsertSplits(cs, c, i);
      ghost var was := buffers;
      buffers := buffers[..i] + [b] + buffers[i..];
      forall k, l | 0 <= k < l < |buffers| ensures Objects(buffers[k]) !! Objects(buffers[l]) {
        assert k != i ==> buffers[k] == was[if k < i then k else k - 1];
        assert l != i ==> buffers[l] == was[if l < i then l else l - 1];
      }
      assert View() == cs[..i] + [c] + cs[i..];
    }

    method WriteAt(p: seq<Byte>, off: int)
      requires Valid()
      modifies this`buffers
      ensures Valid() && View() == Write(old(View()), off, p)
    {
      hide ValidBuffer, ChunkOf, Insert;
      var i := FindWriteBuffer(off);
      if i == |buffers| {
        AddBuffer(OffsetBuffer(off, p, None));
      } else {
        ghost var cs := View();
        ChunkGrows(buffers[i], p);
        buffers := buffers[i := buffers[i].(buf := buffers[i].buf + p)];
        assert View() == cs[i := cs[i].(buf := cs[i].buf + p)];
      }
    }

    /** The loop that looks for the buffer to read from. */
    method PickBuffer(off: int) returns (pick: int)
      requires Valid()
      ensures pick == Pick(View(), off)
    {
      pick := -1;
      var i := 0;
      ghost var cs := View();
      while i < |buffers|
        invariant i <= |buffers| && -1 <= pick < i
        invariant Pick(cs, off) == var later := Pick(cs[i..], off); if later >= 0 then later + i else pick
      {
        assert cs[i..][0] == ChunkOf(buffers[i]) && cs[i..][1..] == cs[i + 1..];
        if off >= buffers[i].offset {
          if off < buffers[i].offset + |buffers[i].buf| {
            pick := i;
          }
        } else {
          break;
        }
        i := i + 1;
      }
    }

    /** One buffer's part of a read, seen from the whole memory. */
    method ReadFrom(p: array<Byte>, lo: nat, i: nat, pos: nat) returns (ok: bool)
      requires Valid() && p !in Repr && lo <= p.Length && i < |buffers| && pos <= |buffers[i].buf|
      modifies p, Repr
      ensures Valid()
      ensures var given := old(p[..]);
        var (bytes, c) := EmitInto(old(View())[i], pos, given[lo..]);
        && View() == old(View())[i := c]
        && p[..] == given[..lo] + bytes
        && ok == Same8(Copied(buffers[i].buf, pos, given[lo..]), bytes)
    {
      hide EmitInto, Same8, ChunkOf, ValidBuffer, Copied;
      ok := ReadPart(buffers[i], p, lo, pos);
      assert forall j :: 0 <= j < |buffers| && j != i ==> Objects(buffers[j]) !! Objects(buffers[i]);
    }

    /** A read into p[lo..], which goes on in the next buffer where one ends. */
    method ReadAt(p: array<Byte>, lo: nat, off: int) returns (n: nat, ok: bool)
      requires Valid() && lo <= p.Length && p !in Repr
      modifies p, Repr
      ensures Valid() && p[..][..lo] == old(p[..])[..lo]
      ensures var (cs, r) := ReadInto(old(View()), off, old(p[..])[lo..]);
        View() == cs && ok == r.Some? && (ok ==> n == p.Length - lo && p[..][lo..] == r.value)
      decreases p.Length - lo
    {
      hide EmitInto, Same8, ChunkOf, ValidBuffer, Pick, ReadInto, Copied;
      ghost var cs, given := View(), p[..];
      var i := PickBuffer(off);
      ReadIntoStep(cs, off, given[lo..]);
      if i == -1 {
        return 0, false;
      }
      var pos := off - buffers[i].offset;
      var maxLen := p.Length - lo;
      if maxLen > |buffers[i].buf| - pos {
        maxLen := |buffers[i].buf| - pos;
      }
      ok := ReadFrom(p, lo, i, pos);
      ghost var part := p[..];
      assert part[..lo] == given[..lo] && part[lo..] == EmitInto(cs[i], pos, given[lo..]).0;
      if !ok {
        return 0, false;
      }
      if maxLen < p.Length - lo {
        assert part[lo..][maxLen..] == part[lo + maxLen..] && part[lo..][..maxLen] == part[lo..lo + maxLen];
        n, ok := ReadAt(p, lo + maxLen, off + maxLen);
        SplitRead(part, p[..], lo, lo + maxLen);
        n := n + maxLen;
      } else {
        n := maxLen;
      }
    }

    /** What the update finds in one buffer. */
    static method FindUpdate(b: OffsetBuffer, records: seq<Record>, cfg: Patching.Config) returns (f: Patching.Finding)
      ensures f == Patching.FindPatch(b.offset, b.buf, records, cfg)
    {
      var begin := Patching.Index(b.buf, cfg.searchBegin);
      if begin == -1 {
        return Patching.NotFound;
      }
      var length := Patching.Index(b.buf[begin..], cfg.searchEnd) + |cfg.searchEnd|;
      var fsl := FindFirstSliceLen(records, b.offset + begin);
      if fsl < 0 {
        return Patching.Halt;
      }
      var str := if fsl in cfg.foundCerts then cfg.foundCerts[fsl].mangled else [];
      if |str| == 0 {
        return Patching.Halt;
      }
      return Patching.Found(Patch(begin, length, str));
    }

    static method MakeReplacement(str: seq<Byte>) returns (sRepl: SequentialReplacement)
      requires str != []
      ensures fresh(sRepl.Parts) && sRepl.Valid() && sRepl.Rest() == str
    {
      var replacement := new ReplaceConfig(str);
      sRepl := new SequentialReplacement([replacement]);
      assert SequentialReplacement.Strings([replacement][1..]) == [];
    }

    /** One buffer's part of the update: a fresh replacement, if its start marker occurs. */
    method UpdateBuffer(i: nat, records: seq<Record>, cfg: Patching.Config) returns (ok: bool)
      requires Valid() && i < |buffers|
      modifies this
      ensures Valid() && fresh(Repr - old(Repr))
      ensures var b := old(buffers)[i];
        match Patching.FindPatch(b.offset, b.buf, records, cfg)
        case NotFound => ok && View() == old(View())
        case Halt => !ok
        case Found(patch) => ok && View() == old(View())[i := old(View())[i].(patch := Some(patch))]
    {
      hide Patching.FindPatch, ChunkOf, ValidBuffer, SequentialReplacement.Valid, SequentialReplacement.Rest;
      var f := FindUpdate(buffers[i], records, cfg);
      match f
      case NotFound => return true;
      case Halt => return false;
      case Found(patch) =>
        var sRepl := MakeReplacement(patch.rest);
        SetUpdate(i, Update(patch.begin, patch.length, sRepl));
        return true;
    }

    method SetUpdate(i: nat, u: Update)
      requires Valid() && i < |buffers| && u.sRepl.Valid()
      requires this !in u.sRepl.Parts && Repr !! u.sRepl.Parts
      modifies this
      ensures Valid() && Repr == old(Repr) + u.sRepl.Parts
      ensures View() == old(View())[i := old(View())[i].(patch := Some(Patch(u.begin, u.length, u.sRepl.Rest())))]
    {
      buffers := buffers[i := buffers[i].(update := Some(u))];
      Repr := Repr + u.sRepl.Parts;
    }

    /** The loop over the records. */
    static method FindFirstSliceLen(records: seq<Record>, at: int) returns (fsl: int)
      ensures fsl == Patching.FirstSliceLen(records, at)
    {
      for i := 0 to |records|
        invariant Patching.FirstSliceLen(records, at) == Patching.FirstSliceLen(records[i..], at)
      {
        if records[i].readOffset >= at {
          return records[i].readOffset - at;
        }
        assert records[i..][1..] == records[i + 1..];
      }
      return -1;
    }

    /** The update of every buffer. The program halts, by a panic or a fatal log entry, when `ok` is false. */
    method UpdateAll(cfg: Patching.Config, records: seq<Record>) returns (ok: bool)
      requires Valid()
      modifies this
      ensures Valid() && fresh(Repr - old(Repr))
      ensures ok == Patching.Update(old(View()), records, cfg).Some?
      ensures ok ==> View() == Patching.Update(old(View()), records, cfg).value
    {
      hide Patching.FindPatch, Patching.UpdateTo, ChunkOf, ValidBuffer;
      ghost var cs := View();
      for i := 0 to |buffers|
        invariant |buffers| == |cs| && Valid() && fresh(Repr - old(Repr))
        invariant Patching.UpdateTo(cs, records, cfg, i) == Some(View())
        invariant forall j :: i <= j < |cs| ==> View()[j] == cs[j]
      {
        Patching.UpdateToStep(cs, records, cfg, i, View());
        ok := UpdateBuffer(i, records, cfg);
        if !ok {
          UpdateStopped(cs, records, cfg, i);
          return false;
        }
      }
      return true;
    }
  }

  lemma {:induction false} UpdateStopped(cs: seq<Chunk>, records: seq<Record>, cfg: Patching.Config, i: nat)
    requires i < |cs| && Patching.FindPatch(cs[i].offset, cs[i].buf, records, cfg).Halt?
    ensures Patching.Update(cs, records, cfg) == None
  {
    Patching.UpdateEach(cs, records, cfg, |cs|);
  }

  lemma SplitRead(part: seq<Byte>, p: seq<Byte>, lo: nat, mid: nat)
    requires lo <= mid <= |p| == |part| && p[..mid] == part[..mid]
    ensures p[..lo] == part[..lo] && p[lo..] == part[lo..mid] + p[mid..]
  {
    assert p[..lo] == p[..mid][..lo] && part[..lo] == part[..mid][..lo];
    assert p[lo..mid] == p[..mid][lo..] && part[lo..mid] == part[..mid][lo..];
  }

  /** Copying what one buffer has to the front of p[lo..], and patching that. */
  method ReadPart(b: OffsetBuffer, p: array<Byte>, lo: nat, pos: nat) returns (ok: bool)
    requires ValidBuffer(b) && p !in Objects(b) && lo <= p.Length && pos <= |b.buf|
    modifies p, Objects(b)
    ensures ValidBuffer(b)
    ensures var given := old(p[..])[lo..];
      var (bytes, c) := EmitInto(old(ChunkOf(b)), pos, given);
      ChunkOf(b) == c && p[..] == old(p[..])[..lo] + bytes && ok == Same8(Copied(b.buf, pos, given), bytes)
  {
    hide SequentialReplacement.Valid, SequentialReplacement.Rest, Same8, EmitInto, Copied;
    ghost var c, was, given := ChunkOf(b), p[..], p[..][lo..];
    ghost var plain := Copied(b.buf, pos, given);
    var m := Min(p.Length - lo, |b.buf| - pos);
    CopyIn(p, lo, b.buf[pos..pos + m]);
    CopiedInto(was, lo, b.buf, pos, p[..]);
    SameItself(plain);
    if b.update == None {
      EmitIntoPlain(c, pos, given);
      return true;
    }
    var u := b.update.value;
    var left, right := Max(pos, u.begin), Min(pos + (p.Length - lo), u.begin + u.length);
    if left >= right {
      EmitIntoPlain(c, pos, given);
      return true;
    }
    EmitIntoPatch(c, pos, given);
    ghost var now := p[..];
    assert now[..lo] == was[..lo] && now[lo..] == plain;
    ok := PatchWindow(p, lo, left - pos, right - pos, u.sRepl);
  }

  lemma EmitIntoPlain(c: Chunk, pos: nat, p: seq<Byte>)
    requires pos <= |c.buf|
    requires c.patch.Some? ==>
      Max(pos, c.patch.value.begin) >= Min(pos + |p|, c.patch.value.begin + c.patch.value.length)
    ensures EmitInto(c, pos, p) == (Copied(c.buf, pos, p), c)
  {}

  lemma EmitIntoPatch(c: Chunk, pos: nat, p: seq<Byte>)
    requires pos <= |c.buf| && c.patch.Some?
    requires Max(pos, c.patch.value.begin) < Min(pos + |p|, c.patch.value.begin + c.patch.value.length)
    ensures var Patch(begin, length, rest) := c.patch.value;
      var at, hi, plain := Max(pos, begin) - pos, Min(pos + |p|, begin + length) - pos, Copied(c.buf, pos, p);
      var t := Min(hi - at, |rest|);
      EmitInto(c, pos, p) ==
        (plain[..at] + rest[..t] + plain[at + t..], c.(patch := Some(Patch(begin, length, rest[t..]))))
  {}

  method CopyIn(p: array<Byte>, lo: nat, s: seq<Byte>)
    requires lo + |s| <= p.Length
    modifies p
    ensures p[..] == old(p[..])[..lo] + s + old(p[..])[lo + |s|..] && p[lo..lo + |s|] == s
  {
    forall k | 0 <= k < |s| {
      p[lo + k] := s[k];
    }
    ghost var now := p[..];
    assert now == old(p[..])[..lo] + s + old(p[..])[lo + |s|..];
  }

  lemma CopiedInto(given: seq<Byte>, lo: nat, buf: seq<Byte>, pos: nat, now: seq<Byte>)
    requires lo <= |given| && pos <= |buf|
    requires var m := Min(|given| - lo, |buf| - pos); now == given[..lo] + buf[pos..pos + m] + given[lo + m..]
    ensures now[..lo] == given[..lo] && now[lo..] == Copied(buf, pos, given[lo..])
    ensures now == given[..lo] + Copied(buf, pos, given[lo..])
  {
    var m := Min(|given| - lo, |buf| - pos);
    assert given[lo..][m..] == given[lo + m..];
  }

  /** Patching the window [at, hi) of p[lo..], and comparing the checksums of p[lo..]. */
  method PatchWindow(p: array<Byte>, lo: nat, at: nat, hi: nat, sRepl: SequentialReplacement) returns (ok: bool)
    requires sRepl.Valid() && p !in sRepl.Parts && at <= hi && lo + hi <= p.Length
    modifies p, sRepl.Parts
    ensures sRepl.Valid()
    ensures var rest, plain := old(sRepl.Rest()), old(p[..])[lo..];
      var t := Min(hi - at, |rest|);
      var bytes := plain[..at] + rest[..t] + plain[at + t..];
      && sRepl.Rest() == rest[t..]
      && p[..] == old(p[..])[..lo] + bytes
      && ok == Same8(plain, bytes)
  {
    hide SequentialReplacement.Valid, SequentialReplacement.Rest, Complement, SumTo;
    ghost var was, rest := p[..], sRepl.Rest();
    ghost var fill := rest[..Min(hi - at, |rest|)];
    PatchedAround(was, lo, at, fill);
    assert p[lo..] == was[lo..];
    var origChecksum := Checksum(p[lo..]);
    ok := UpdateWithPermutations(p, lo, lo + at, lo + hi, origChecksum, sRepl);
    SameChecksum(Sum(p[..][lo..]), Sum(was[lo..]));
  }

  lemma PatchedAround(was: seq<Byte>, lo: nat, at: nat, fill: seq<Byte>)
    requires lo + at + |fill| <= |was|
    ensures var plain := was[lo..];
      var now := was[..lo + at] + fill + was[lo + at + |fill|..];
      && now == was[..lo] + (plain[..at] + fill + plain[at + |fill|..])
      && now[lo..] == plain[..at] + fill + plain[at + |fill|..]
  {
    var plain := was[lo..];
    assert was[..lo + at] == was[..lo] + plain[..at];
    assert was[lo + at + |fill|..] == plain[at + |fill|..];
  }
}
