/** The firmware patch as a whole, and the 16-bit file sum that it has to keep. */
module Firmware {
  import opened Bytes
  import opened HexFormat
  import opened Memory
  import opened Loading
  import opened HexCodec
  import MemBuffer
  import Patching

  datatype Outcome = Done(text: seq<Byte>) | Failed | Halted

  lemma {:induction false} LoadedRecords(compact: bool, rs: seq<Raw>)
    requires AllSupported(rs)
    ensures NoPatches(LoadAll(compact, rs).chunks)
    ensures forall i :: 0 <= i < |rs| ==> Encodable(LoadAll(compact, rs).records[i])
  {
    if rs != [] {
      var before := LoadAll(compact, rs[..|rs| - 1]);
      var r := rs[|rs| - 1];
      LoadedRecords(compact, rs[..|rs| - 1]);
      WriteUnpatched(before.chunks, LoadRecord(before.cursor, compact, r).1.readOffset, r.data);
    }
  }

  lemma {:induction false} InsertUnpatched(cs: seq<Chunk>, c: Chunk)
    requires NoPatches(cs) && c.patch == None
    ensures NoPatches(Insert(cs, c))
  {
    if cs != [] {
      InsertUnpatched(cs[1..], c);
    }
  }

  lemma WriteUnpatched(cs: seq<Chunk>, off: int, p: seq<Byte>)
    requires NoPatches(cs)
    ensures NoPatches(Write(cs, off, p))
  {
    InsertUnpatched(cs, Chunk(off, p, None));
  }

  /** Parse, update, encode. */
  function Mutate(cfg: Patching.Config, input: seq<Byte>): Outcome {
    match ParseFile(input)
    case None => Failed
    case Some((rs, _)) =>
      ParsedAreFiles(input);
      var l := LoadAll(true, rs);
      LoadedRecords(true, rs);
      match Patching.Update(l.chunks, l.records, cfg)
      case None => Halted
      case Some(cs) =>
        match EncodeTo(cs, l.records, |l.records|).1
        case None => Failed
        case Some(text) => Done(text)
  }

  lemma NothingLoads()
    ensures AllSupported([]) && LoadAll(true, []) == Loaded(START, [], [])
  {}

  lemma {:induction false} OneMoreLoads(rs: seq<Raw>, r: Raw)
    requires AllSupported(rs) && Supported(r)
    ensures AllSupported(rs + [r]) && LoadAll(true, rs + [r]) == LoadNext(LoadAll(true, rs), true, r)
  {
    assert (rs + [r])[..|rs|] == rs;
  }

  method MutateFirmware(cfg: Patching.Config, input: seq<Byte>) returns (outcome: Outcome)
    ensures outcome == Mutate(cfg, input)
  {
    hide ParseFile, ParseOne, Prepend, AllSupported, Supported, LoadAll, LoadNext, EncodeTo;
    hide Patching.Update, MemBuffer.MemBuffer.View, MemBuffer.MemBuffer.Valid;
    var memBuf := new MemBuffer.MemBuffer();
    var reader := new Reader(input);
    var parser := new Parser(reader, memBuf, false);
    ghost var rs: seq<Raw> := [];
    NothingLoads();
    assert input[0..] == input;
    PrependNothing(ParseFile(input));
    while parser.HasNext()
      invariant parser.Valid() && AllSupported(rs) && parser.State() == LoadAll(true, rs)
      invariant fresh(memBuf.Repr)
      invariant if parser.eof then ParseFile(input) == Some((rs, reader.Rest()))
        else ParseFile(input) == Prepend(rs, ParseFile(reader.Rest()))
      decreases |reader.Rest()|, !parser.eof
    {
      ParseGoesOn(rs, reader.Rest());
      ghost var parsed := ParseOne(reader.Rest());
      var ok := parser.ReadRecord();
      if !ok {
        return Failed;
      }
      ghost var r := parsed.value.0;
      OneMoreLoads(rs, r);
      rs := rs + [r];
    }
    var ok := memBuf.UpdateAll(cfg, parser.records);
    if !ok {
      return Halted;
    }
    LoadedRecords(true, rs);
    var encoder := new Encoder(memBuf, parser.records);
    ok := encoder.EncodeRecords();
    if !ok {
      return Failed;
    }
    return Done(encoder.w);
  }
}
