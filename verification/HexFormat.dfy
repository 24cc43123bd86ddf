/** The raw-byte variant of the Intel HEX record format (sections "General Record Format"
    and "Extended Linear Address Record" of the Intel Hexadecimal Object File Format
    Specification, Revision A), and a parser for it. */
module HexFormat {
  import opened Bytes

  const MARK: Byte := 0x3A

  const DATA: Byte := 0
  const END_OF_FILE: Byte := 1
  const EXTENDED_ADDRESS: Byte := 4
  const START_ADDRESS: Byte := 5

  datatype Raw = Raw(offset: nat, recType: Byte, data: seq<Byte>)

  /** The records that the program reads. */
  predicate Supported(r: Raw) {
    && r.offset < 0x1_0000 && |r.data| < 256
    && r.recType in {DATA, END_OF_FILE, EXTENDED_ADDRESS, START_ADDRESS}
    && (r.recType == EXTENDED_ADDRESS ==> |r.data| >= 2)
  }

  function Header(r: Raw): (h: seq<Byte>)
    requires Supported(r)
    ensures |h| == 4
  {
    [|r.data|, r.offset / 256, r.offset % 256, r.recType]
  }

  function Checksum(r: Raw): Byte
    requires Supported(r)
  {
    Complement(Sum(Header(r) + r.data))
  }

  function RecordBytes(r: Raw): (s: seq<Byte>)
    requires Supported(r)
    ensures |s| == |r.data| + 6
  {
    [MARK] + Header(r) + r.data + [Checksum(r)]
  }

  ghost predicate AllSupported(rs: seq<Raw>) {
    forall i :: 0 <= i < |rs| ==> Supported(rs[i])
  }

  function FileBytes(rs: seq<Raw>): seq<Byte>
    requires AllSupported(rs)
  {
    if rs == [] then [] else FileBytes(rs[..|rs| - 1]) + RecordBytes(rs[|rs| - 1])
  }

  /** A file ends with its first end-of-file record. */
  ghost predicate IsFile(rs: seq<Raw>) {
    && AllSupported(rs) && rs != []
    && forall i :: 0 <= i < |rs| ==> (rs[i].recType == END_OF_FILE <==> i == |rs| - 1)
  }

  /** A record as the program keeps it. Data is in the memory, at `readOffset`. */
  datatype Record = Record(length: Byte, offset: nat, recType: Byte, readOffset: int, body: seq<Byte>)

  // ---------- Parsing ----------

  /** The record at the start of the input, and what follows it. */
  function ParseOne(input: seq<Byte>): (p: Option<(Raw, seq<Byte>)>)
    ensures p.Some? ==> Supported(p.value.0) && |p.value.1| < |input|
  {
    if |input| < 6 || input[0] != MARK then None else
    var n: nat := input[1];
    if |input| < 6 + n then None else
    var r := Raw(input[2] as int * 256 + input[3], input[4], input[5..5 + n]);
    if !Supported(r) || input[5 + n] != Complement(Sum(input[1..5 + n])) then None
    else Some((r, input[6 + n..]))
  }

  /** Parsing, as a reader meets the input: a header, then a body, then a checksum. */
  lemma ParseInSteps(input: seq<Byte>)
    ensures |input| < 6 || input[0] != MARK ==> ParseOne(input) == None
    ensures |input| >= 6 && |input| < 6 + input[1] as int ==> ParseOne(input) == None
    ensures |input| >= 6 && input[0] == MARK && |input| >= 6 + input[1] as int ==>
      var n: nat := input[1];
      var body := input[5..][..n];
      var r := Raw(input[2] as int * 256 + input[3], input[4], body);
      ParseOne(input) ==
        if Supported(r) && input[5..][n..][0] == Complement(Sum(input[..5][1..] + body))
        then Some((r, input[5..][n..][1..]))
        else None
  {
    hide Sum, Supported;
    if |input| >= 6 && |input| >= 6 + input[1] as int {
      var n: nat := input[1];
      assert input[5..][..n] == input[5..5 + n] && input[5..][n..][1..] == input[6 + n..];
      assert input[1..5 + n] == input[..5][1..] + input[5..5 + n];
    }
  }

  /** Which bytes are accepted, and what they mean, byte by byte: a colon, a length, a 16-bit offset, a
      type of 0, 1, 4 or 5, as many bytes as the length says, and a last one that makes all bytes
      after the colon add up to a multiple of 256. */
  lemma AcceptedBytes(input: seq<Byte>)
    ensures ParseOne(input).Some? <==>
      && |input| >= 6 && input[0] == 58 && |input| >= 6 + input[1] as int
      && (input[4] == 0 || input[4] == 1 || (input[4] == 4 && input[1] >= 2) || input[4] == 5)
      && Sum(input[1..6 + input[1] as int]) % 256 == 0
    ensures ParseOne(input).Some? ==>
      var (r, rest) := ParseOne(input).value;
      && r.offset == 256 * (input[2] as int) + input[3] && r.recType == input[4]
      && r.data == input[5..5 + input[1] as int] && rest == input[6 + input[1] as int..]
  {
    if |input| >= 6 && |input| >= 6 + input[1] as int {
      var n: nat := input[1];
      SumStep(input, 1, 5 + n);
      Wrap8(Sum(input[1..5 + n]), input[5 + n]);
    }
  }

  lemma RecordsAreParsed(r: Raw, rest: seq<Byte>)
    requires Supported(r)
    ensures ParseOne(RecordBytes(r) + rest) == Some((r, rest))
  {
    hide Sum;
    var input, n := RecordBytes(r) + rest, |r.data|;
    assert input[5..5 + n] == r.data;
    assert input[6 + n..] == rest;
    assert input[1..5 + n] == Header(r) + r.data;
  }

  lemma ParsedAreRecords(input: seq<Byte>)
    requires ParseOne(input).Some?
    ensures var (r, rest) := ParseOne(input).value;
      Supported(r) && input == RecordBytes(r) + rest
  {
    hide Sum;
    var (r, rest) := ParseOne(input).value;
    var n: nat := input[1];
    assert input[1..5] == Header(r);
    assert input[1..5 + n] == input[1..5] + input[5..5 + n];
    assert input == [input[0]] + input[1..5] + input[5..5 + n] + [input[5 + n]] + input[6 + n..];
  }

  /** The parser accepts exactly the encodings of supported records, and decodes them. */
  lemma ParsesExactlyRecords(input: seq<Byte>, r: Raw, rest: seq<Byte>)
    ensures ParseOne(input) == Some((r, rest)) <==> Supported(r) && input == RecordBytes(r) + rest
  {
    hide ParseOne, RecordBytes, Supported;
    if ParseOne(input).Some? {
      ParsedAreRecords(input);
    }
    if Supported(r) {
      RecordsAreParsed(r, rest);
    }
  }

  /** All records up to the first end-of-file record, and what follows it. */
  function ParseFile(input: seq<Byte>): Option<(seq<Raw>, seq<Byte>)>
    decreases |input|
  {
    match ParseOne(input)
    case None => None
    case Some((r, rest)) =>
      if r.recType == END_OF_FILE then Some(([r], rest)) else
      match ParseFile(rest)
      case None => None
      case Some((rs, end)) => Some(([r] + rs, end))
  }

  lemma {:induction false} FileBytesFirst(r: Raw, rs: seq<Raw>)
    requires Supported(r) && AllSupported(rs)
    ensures AllSupported([r] + rs) && FileBytes([r] + rs) == RecordBytes(r) + FileBytes(rs)
  {
    hide RecordBytes, Supported;
    if rs == [] {
      assert FileBytes([]) == [] && ([r] + rs)[..0] == [];
    } else {
      FileBytesFirst(r, rs[..|rs| - 1]);
      assert ([r] + rs)[..|rs|] == [r] + rs[..|rs| - 1];
    }
  }

  lemma {:induction false} FilesAreParsed(rs: seq<Raw>, rest: seq<Byte>)
    requires IsFile(rs)
    ensures ParseFile(FileBytes(rs) + rest) == Some((rs, rest))
  {
    hide RecordBytes, Supported, ParseOne, FileBytes;
    var r, tail := rs[0], rs[1..];
    assert rs == [r] + tail;
    FileBytesFirst(r, tail);
    var middle := FileBytes(tail) + rest;
    assert FileBytes(rs) + rest == RecordBytes(r) + middle;
    ParsesExactlyRecords(FileBytes(rs) + rest, r, middle);
    if |rs| > 1 {
      FilesAreParsed(tail, rest);
    } else {
      NoRecordsNoBytes();
      assert middle == rest && rs == [r];
    }
  }

  lemma NoRecordsNoBytes()
    ensures FileBytes([]) == []
  {}

  lemma {:induction false} ParsedAreFiles(input: seq<Byte>)
    requires ParseFile(input).Some?
    ensures var (rs, rest) := ParseFile(input).value;
      IsFile(rs) && input == FileBytes(rs) + rest
    decreases |input|
  {
    hide RecordBytes, Supported, ParseOne, FileBytes;
    var (rs, rest) := ParseFile(input).value;
    var Some((r, middle)) := ParseOne(input);
    ParsesExactlyRecords(input, r, middle);
    if r.recType == END_OF_FILE {
      FileBytesFirst(r, []);
      NoRecordsNoBytes();
      assert [r] + [] == rs && RecordBytes(r) + [] == RecordBytes(r);
    } else {
      var (tail, end) := ParseFile(middle).value;
      ParsedAreFiles(middle);
      FileBytesFirst(r, tail);
      assert input == FileBytes(rs) + rest;
    }
  }

  /** Round trip and completeness: a file is parsed back from its bytes, and nothing but
      files is accepted. */
  lemma {:induction false} ParsesExactlyFiles(input: seq<Byte>, rs: seq<Raw>, rest: seq<Byte>)
    ensures ParseFile(input) == Some((rs, rest)) <==> IsFile(rs) && input == FileBytes(rs) + rest
  {
    hide FileBytes, ParseFile;
    if ParseFile(input).Some? {
      ParsedAreFiles(input);
    }
    if IsFile(rs) {
      FilesAreParsed(rs, rest);
    }
  }

  // ---------- Parsing in a loop ----------

  function Prepend(rs: seq<Raw>, p: Option<(seq<Raw>, seq<Byte>)>): Option<(seq<Raw>, seq<Byte>)> {
    match p
    case None => None
    case Some((more, rest)) => Some((rs + more, rest))
  }

  /** How the loop over records relates to parsing the file as a whole. */
  lemma {:induction false} ParseGoesOn(rs: seq<Raw>, input: seq<Byte>)
    ensures Prepend(rs, ParseFile(input)) == match ParseOne(input)
      case None => None
      case Some((r, rest)) =>
        if r.recType == END_OF_FILE then Some((rs + [r], rest)) else Prepend(rs + [r], ParseFile(rest))
  {
    hide ParseOne;
    if ParseOne(input).Some? {
      var (r, rest) := ParseOne(input).value;
      if r.recType != END_OF_FILE && ParseFile(rest).Some? {
        var (more, _) := ParseFile(rest).value;
        assert rs + ([r] + more) == rs + [r] + more;
      }
    }
  }

  lemma PrependNothing(p: Option<(seq<Raw>, seq<Byte>)>)
    ensures Prepend([], p) == p
  {
    if p.Some? {
      assert [] + p.value.0 == p.value.0;
    }
  }

  lemma {:induction false} OneMoreRecord(rs: seq<Raw>, r: Raw)
    requires AllSupported(rs) && Supported(r)
    ensures AllSupported(rs + [r]) && FileBytes(rs + [r]) == FileBytes(rs) + RecordBytes(r)
  {
    hide RecordBytes, Supported;
    assert (rs + [r])[..|rs|] == rs;
  }
}
