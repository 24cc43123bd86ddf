/** The 16-bit sum of a whole file. */
module FileChecksum {
  import opened Bytes
  import opened HexFormat
  import opened HexCodec
  import opened Loading
  import MemBuffer

  /** The sum of all bytes of the file, in which the marks of the records do not count. */
  function FileSum(rs: seq<Raw>): nat
    requires AllSupported(rs)
  {
    (Sum(FileBytes(rs)) - MARK * |rs|) % 0x1_0000
  }

  lemma {:induction false} NextSum(rs: seq<Raw>, i: nat)
    requires AllSupported(rs) && i < |rs|
    ensures Sum(FileBytes(rs[..i + 1])) == Sum(FileBytes(rs[..i])) + Sum(RecordBytes(rs[i]))
  {
    hide RecordBytes;
    assert rs[..i + 1][..i] == rs[..i];
    SumConcat(FileBytes(rs[..i]), RecordBytes(rs[i]));
  }

  /** The marks are left out of the sum, record by record: a file weighs what its
      headers, its data and its checksum bytes weigh. */
  lemma {:induction false} FileSumIsContents(rs: seq<Raw>)
    requires AllSupported(rs)
    ensures FileSum(rs) == ContentsSum(rs) % 0x1_0000
  {
    FileBytesSum(rs);
  }

  function ContentsSum(rs: seq<Raw>): nat
    requires AllSupported(rs)
  {
    if rs == [] then 0 else
    var r := rs[|rs| - 1];
    ContentsSum(rs[..|rs| - 1]) + Sum(Header(r)) + Sum(r.data) + Checksum(r)
  }

  lemma {:induction false} FileBytesSum(rs: seq<Raw>)
    requires AllSupported(rs)
    ensures Sum(FileBytes(rs)) == ContentsSum(rs) + MARK * |rs|
  {
    hide SumTo, Header, Checksum;
    if rs != [] {
      var init, r := rs[..|rs| - 1], rs[|rs| - 1];
      FileBytesSum(init);
      SumConcat(FileBytes(init), RecordBytes(r));
      SumConcat([MARK] + Header(r) + r.data, [Checksum(r)]);
      SumConcat([MARK] + Header(r), r.data);
      SumConcat([MARK], Header(r));
      SumOne(MARK);
      SumOne(Checksum(r));
    } else {
      NoRecordsNoBytes();
      NothingWeighs();
    }
  }

  lemma NothingWeighs()
    ensures Sum([]) == 0
  {}

  /** An unsigned 16-bit number. */
  type Word = w: nat | w < 0x1_0000

  class FullChecksumWriter {
    var checksum: Word

    constructor ()
      ensures checksum == 0
    {
      checksum := 0;
    }

    method Write(s: seq<Byte>)
      modifies this
      ensures checksum == (old(checksum) + Sum(s)) % 0x1_0000
    {
      for i := 0 to |s|
        invariant checksum == (old(checksum) + Sum(s[0..i])) % 0x1_0000
      {
        SumStep(s, 0, i);
        Wrap16(old(checksum) + Sum(s[0..i]), s[i]);
        checksum := (checksum + s[i]) % 0x1_0000;
      }
      assert s[0..|s|] == s;
    }
  }

  /** One record read, and the bytes that were read for it. */
  method ReadThrough(parser: Parser) returns (ok: bool, taken: seq<Byte>)
    requires parser.Valid()
    modifies parser, parser.r, parser.w`buffers
    ensures parser.Valid()
    ensures match ParseOne(old(parser.r.Rest()))
      case Some((raw, rest)) =>
        && ok && parser.r.Rest() == rest && taken == RecordBytes(raw)
        && parser.eof == (old(parser.eof) || raw.recType == END_OF_FILE)
      case None => !ok
  {
    hide ParseOne, LoadNext, MemBuffer.MemBuffer.View, MemBuffer.MemBuffer.Valid, RecordBytes;
    ghost var rest := parser.r.Rest();
    var from := parser.r.pos;
    ok := parser.ReadRecord();
    taken := [];
    if ok {
      ParsedAreRecords(rest);
      Consumed(parser.r.data, from, parser.r.pos, RecordBytes(ParseOne(rest).value.0));
      taken := parser.r.data[from..parser.r.pos];
    }
  }

  /** One record read, summed up, and one mark taken off again. */
  method SumRecord(parser: Parser, fCh: FullChecksumWriter) returns (ok: bool)
    requires parser.Valid() && fCh !in parser.w.Repr
    modifies parser, parser.r, parser.w`buffers, fCh
    ensures parser.Valid()
    ensures match ParseOne(old(parser.r.Rest()))
      case Some((raw, rest)) =>
        && ok && parser.r.Rest() == rest
        && parser.eof == (old(parser.eof) || raw.recType == END_OF_FILE)
        && fCh.checksum == ((old(fCh.checksum) + Sum(RecordBytes(raw))) % 0x1_0000 - MARK) % 0x1_0000
      case None => !ok
  {
    hide ParseOne, Supported, MemBuffer.MemBuffer.View, MemBuffer.MemBuffer.Valid, RecordBytes, Sum;
    var taken;
    ok, taken := ReadThrough(parser);
    if ok {
      fCh.Write(taken);
      fCh.checksum := (fCh.checksum - MARK) % 0x1_0000;
    }
  }

  /** The program that prints a file's sum: everything that the parser reads is summed up,
      and one mark is taken off after each record. It gives up where parsing fails. */
  method HexChecksum(input: seq<Byte>) returns (sum: Option<nat>)
    ensures match ParseFile(input)
      case None => sum == None
      case Some((rs, _)) => AllSupported(rs) && sum == Some(FileSum(rs))
  {
    hide ParseFile, ParseOne, Prepend, AllSupported, Supported, RecordBytes, FileSum, Sum;
    hide MemBuffer.MemBuffer.View, MemBuffer.MemBuffer.Valid;
    var w := new MemBuffer.MemBuffer();
    var reader := new Reader(input);
    var parser := new Parser(reader, w, false);
    var fCh := new FullChecksumWriter();
    ghost var rs: seq<Raw> := [];
    assert input[0..] == input;
    PrependNothing(ParseFile(input));
    EmptySum();
    while parser.HasNext()
      invariant parser.Valid() && AllSupported(rs) && fresh(w.Repr) && fCh !in w.Repr
      invariant fCh.checksum == FileSum(rs)
      invariant if parser.eof then ParseFile(input) == Some((rs, reader.Rest()))
        else ParseFile(input) == Prepend(rs, ParseFile(reader.Rest()))
      decreases |reader.Rest()|, !parser.eof
    {
      ghost var parsed := ParseOne(reader.Rest());
      ParseGoesOn(rs, reader.Rest());
      var ok := SumRecord(parser, fCh);
      if !ok {
        return None;
      }
      FileSumStep(rs, parsed.value.0);
      rs := rs + [parsed.value.0];
    }
    return Some(fCh.checksum);
  }

  lemma EmptySum()
    ensures AllSupported([]) && FileSum([]) == 0
  {
    NoRecordsNoBytes();
    NothingWeighs();
  }

  lemma Consumed(input: seq<Byte>, from: nat, to: nat, s: seq<Byte>)
    requires from <= |input| && to <= |input| && input[from..] == s + input[to..]
    ensures from <= to && input[from..to] == s
  {
    assert |input| - from == |s| + |input| - to;
    assert input[from..to] == input[from..][..|s|];
  }

  lemma {:induction false} FileSumStep(rs: seq<Raw>, r: Raw)
    requires AllSupported(rs) && Supported(r)
    ensures AllSupported(rs + [r])
    ensures FileSum(rs + [r]) == ((FileSum(rs) + Sum(RecordBytes(r))) % 0x1_0000 - MARK) % 0x1_0000
  {
    hide RecordBytes, SumTo;
    OneMoreRecord(rs, r);
    SumConcat(FileBytes(rs), RecordBytes(r));
    var x, y := Sum(FileBytes(rs)) - MARK * |rs|, Sum(RecordBytes(r));
    Wrap16(x, y);
    Wrap16(x + y, 0 as int - MARK);
  }
}
