/** The parser and the encoder as the program runs them: over a reader, a memory and an
    output buffer that they change step by step. */
module HexCodec {
  import opened Bytes
  import opened HexFormat
  import opened Memory
  import opened Loading
  import MemBuffer

  /** A byte reader. Reading at the end fails, even for no bytes at all; a read that
      only gets part of what it asks for leaves zeros in the rest, and does not fail. */
  class Reader {
    const data: seq<Byte>
    var pos: nat

    constructor (data: seq<Byte>)
      ensures this.data == data && pos == 0
    {
      this.data, pos := data, 0;
    }

    ghost predicate Valid()
      reads this
    {
      pos <= |data|
    }

    ghost function Rest(): seq<Byte>
      requires Valid()
      reads this
    {
      data[pos..]
    }

    method Read(n: nat) returns (buf: seq<Byte>, ok: bool)
      requires Valid()
      modifies this
      ensures Valid() && |buf| == n && (ok <==> old(Rest()) != [])
      ensures !ok ==> pos == old(pos)
      ensures var got := Min(n, |old(Rest())|);
        ok ==> Rest() == old(Rest())[got..] && buf == old(Rest())[..got] + Fill(0, n - got)
    {
      if pos >= |data| {
        return Fill(0, n), false;
      }
      var got := Min(n, |data| - pos);
      buf := data[pos..pos + got] + Fill(0, n - got);
      pos := pos + got;
      ok := true;
    }
  }

  class Parser {
    const r: Reader
    const w: MemBuffer.MemBuffer
    const disableCompactOutput: bool
    var outputOffset: int
    var baseAddress: nat
    var records: seq<Record>
    var eof: bool

    ghost predicate Valid()
      reads this, r, w, w.Repr
    {
      && r.Valid() && w.Valid()
      && this !in w.Repr && r !in w.Repr
    }

    /** Everything that was loaded so far, as a value. */
    ghost function State(): Loaded
      requires Valid()
      reads this, r, w, w.Repr
    {
      Loaded(Cursor(baseAddress, outputOffset), records, w.View())
    }

    constructor (r: Reader, w: MemBuffer.MemBuffer, disableCompactOutput: bool)
      requires r.Valid() && w.Valid() && r !in w.Repr
      ensures this.r == r && this.w == w && this.disableCompactOutput == disableCompactOutput
      ensures Valid() && !eof && State() == Loaded(START, [], w.View())
    {
      this.r, this.w, this.disableCompactOutput := r, w, disableCompactOutput;
      outputOffset, baseAddress, records, eof := 0, 0, [], false;
    }

    predicate HasNext()
      reads this
    {
      !eof
    }

    /** The case split on the record type, before the checksum is looked at. */
    method Dispatch(recType: Byte, offset: nat, body: seq<Byte>) returns (readOffset: int, copyBody: bool, ok: bool)
      requires Valid() && offset < 0x1_0000 && |body| < 256
      modifies this, w`buffers
      ensures Valid() && records == old(records)
      ensures var raw := Raw(offset, recType, body);
        if Supported(raw) then
          var next := LoadNext(old(State()), !disableCompactOutput, raw);
          && ok && State() == next.(records := records)
          && next.records == records + [Record(|body|, offset, recType, readOffset, if copyBody then body else [])]
          && eof == (old(eof) || recType == END_OF_FILE)
        else !ok
    {
      hide Write, MemBuffer.MemBuffer.View, MemBuffer.MemBuffer.Valid;
      readOffset, copyBody, ok := 0, false, true;
      if recType == DATA {
        readOffset := baseAddress + offset;
        if outputOffset == 0 && !disableCompactOutput {
          outputOffset := -readOffset;
        }
        readOffset := readOffset + outputOffset;
        w.WriteAt(body, readOffset);
      } else if recType == END_OF_FILE {
        eof := true;
      } else if recType == EXTENDED_ADDRESS {
        copyBody := true;
        if |body| < 2 {
          return readOffset, copyBody, false;
        }
        baseAddress := ExtendedBase(body);
      } else if recType == START_ADDRESS {
        copyBody := true;
      } else {
        ok := false;
      }
    }

    /** A read, with the case that matters: a short one leaves nothing for the next. */
    method ReadInto(n: nat) returns (buf: seq<Byte>, ok: bool)
      requires r.Valid()
      modifies r
      ensures r.Valid() && |buf| == n && (ok <==> old(r.Rest()) != [])
      ensures ok && |old(r.Rest())| < n ==> r.Rest() == [] && buf[0] == old(r.Rest())[0]
      ensures ok && |old(r.Rest())| >= n ==> buf == old(r.Rest())[..n] && r.Rest() == old(r.Rest())[n..]
    {
      buf, ok := r.Read(n);
      assert Fill(0, 0) == [];
    }

    /** One record. It is accepted exactly when the rest of the input starts with the
        encoding of a supported record, which is then loaded. */
    method ReadRecord() returns (ok: bool)
      requires Valid()
      modifies this, r, w`buffers
      ensures Valid()
      ensures match ParseOne(old(r.Rest()))
        case Some((raw, rest)) =>
          && ok && r.Rest() == rest
          && State() == LoadNext(old(State()), !disableCompactOutput, raw)
          && eof == (old(eof) || raw.recType == END_OF_FILE)
        case None => !ok && records == old(records)
    {
      hide ParseOne, Supported, LoadRecord, LoadNext, Write, Sum, Complement;
      hide MemBuffer.MemBuffer.View, MemBuffer.MemBuffer.Valid;
      ghost var input := r.Rest();
      ParseInSteps(input);
      var header, more := ReadInto(5);
      if !more || header[0] != MARK {
        return false;
      }
      var length, offset, recType := header[1], header[2] as int * 256 + header[3], header[4];
      var body;
      body, more := ReadInto(length);
      if !more {
        return false;
      }
      var readOffset, copyBody;
      readOffset, copyBody, more := Dispatch(recType, offset, body);
      if !more {
        return false;
      }
      var checksum;
      checksum, more := ReadInto(1);
      if !more {
        return false;
      }
      var computed := MemBuffer.Checksum(header[1..] + body);
      if checksum[0] != computed {
        return false;
      }
      records := records + [Record(length, offset, recType, readOffset, if copyBody then body else [])];
      return true;
    }
  }

  class Encoder {
    const r: MemBuffer.MemBuffer
    const records: seq<Record>
    var w: seq<Byte>

    constructor (r: MemBuffer.MemBuffer, records: seq<Record>)
      ensures this.r == r && this.records == records && w == []
    {
      this.r, this.records, w := r, records, [];
    }

    /** The case split on the record type. */
    method MakeBody(record: Record) returns (body: seq<Byte>, ok: bool)
      requires r.Valid() && this !in r.Repr && Encodable(record)
      modifies r.Repr
      ensures r.Valid()
      ensures var (cs, made) := BodyOf(old(r.View()), record);
        r.View() == cs && ok == made.Some? && (ok ==> body == made.value)
    {
      hide MemBuffer.MemBuffer.View, ReadInto;
      if record.recType == DATA {
        var buf := new Byte[record.length](_ => 0);
        assert buf[..][0..] == Fill(0, record.length);
        var n;
        n, ok := r.ReadAt(buf, 0, record.readOffset);
        assert buf[..][0..] == buf[..];
        return buf[..], ok;
      } else if record.recType == EXTENDED_ADDRESS || record.recType == START_ADDRESS {
        return record.body, true;
      }
      return Fill(0, record.length), true;
    }

    method EncodeRecord(record: Record) returns (ok: bool)
      requires r.Valid() && this !in r.Repr && Encodable(record)
      modifies this, r.Repr
      ensures r.Valid()
      ensures var (cs, body) := BodyOf(old(r.View()), record);
        && r.View() == cs && ok == body.Some?
        && w == old(w) + if ok then RecordText(record, body.value) else []
    {
      hide MemBuffer.MemBuffer.View, Sum, Complement, BodyOf;
      var header, body := RecordHeader(record), [];
      body, ok := MakeBody(record);
      if !ok {
        return false;
      }
      w := w + [MARK];
      w := w + header;
      w := w + body;
      var computedChecksum := MemBuffer.Checksum(header + body);
      w := w + [computedChecksum];
      InOnePiece(old(w), [MARK], header, body, [computedChecksum]);
      return true;
    }

    method EncodeRecords() returns (ok: bool)
      requires r.Valid() && this !in r.Repr && forall i :: 0 <= i < |records| ==> Encodable(records[i])
      modifies this, r.Repr
      ensures r.Valid()
      ensures var (cs, text) := EncodeTo(old(r.View()), records, |records|);
        r.View() == cs && ok == text.Some? && (ok ==> w == old(w) + text.value)
    {
      hide MemBuffer.MemBuffer.View, RecordText, BodyOf;
      ghost var cs := r.View();
      for i := 0 to |records|
        invariant r.Valid()
        invariant var (now, text) := EncodeTo(cs, records, i); r.View() == now && text.Some? && w == old(w) + text.value
      {
        ok := EncodeRecord(records[i]);
        if !ok {
          EncodeStopped(cs, records, i);
          return false;
        }
      }
      return true;
    }
  }

  lemma InOnePiece(w: seq<Byte>, a: seq<Byte>, b: seq<Byte>, c: seq<Byte>, d: seq<Byte>)
    ensures w + a + b + c + d == w + (a + b + c + d)
  {}

  lemma {:induction false} EncodeStopped(cs: seq<Chunk>, records: seq<Record>, i: nat)
    requires i < |records| && forall j :: 0 <= j < |records| ==> Encodable(records[j])
    requires EncodeTo(cs, records, i + 1).1 == None
    ensures EncodeTo(cs, records, |records|) == EncodeTo(cs, records, i + 1)
    decreases |records| - i
  {
    if i + 1 < |records| {
      EncodeStopped(cs, records, i + 1);
    }
  }
}
