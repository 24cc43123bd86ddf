/** What parsing does with each record, and what encoding makes of it again, on values. */
module Loading {
  import opened Bytes
  import opened HexFormat
  import opened Memory

  /** The parser's addressing state. An output offset of 0 means that none is set yet. */
  datatype Cursor = Cursor(base: nat, outputOffset: int)

  const START := Cursor(0, 0)

  function ExtendedBase(data: seq<Byte>): nat
    requires |data| >= 2
  {
    (data[0] as int * 256 + data[1]) * 0x1_0000
  }

  /** Where a data record goes: its address, moved by an offset that is fixed, in compact
      mode, to bring the first data record to 0. */
  function LoadRecord(c: Cursor, compact: bool, r: Raw): (Cursor, Record)
    requires Supported(r)
  {
    if r.recType == DATA then
      var address := c.base + r.offset;
      var outputOffset := if c.outputOffset == 0 && compact then -address else c.outputOffset;
      (c.(outputOffset := outputOffset), Record(|r.data|, r.offset, r.recType, address + outputOffset, []))
    else if r.recType == END_OF_FILE then
      (c, Record(|r.data|, r.offset, r.recType, 0, []))
    else
      (if r.recType == EXTENDED_ADDRESS then c.(base := ExtendedBase(r.data)) else c,
       Record(|r.data|, r.offset, r.recType, 0, r.data))
  }

  datatype Loaded = Loaded(cursor: Cursor, records: seq<Record>, chunks: seq<Chunk>)

  /** One record more: only data records are written to the memory. */
  function LoadNext(l: Loaded, compact: bool, r: Raw): Loaded
    requires Supported(r)
  {
    var (cursor, record) := LoadRecord(l.cursor, compact, r);
    Loaded(cursor, l.records + [record],
           if r.recType == DATA then Write(l.chunks, record.readOffset, r.data) else l.chunks)
  }

  function LoadAll(compact: bool, rs: seq<Raw>): (l: Loaded)
    requires AllSupported(rs)
    ensures |l.records| == |rs|
  {
    if rs == [] then Loaded(START, [], []) else
    LoadNext(LoadAll(compact, rs[..|rs| - 1]), compact, rs[|rs| - 1])
  }

  // ---------- Encoding ----------

  predicate Encodable(record: Record) {
    record.offset < 0x1_0000
  }

  function RecordHeader(record: Record): seq<Byte>
    requires Encodable(record)
  {
    [record.length, record.offset / 256, record.offset % 256, record.recType]
  }

  /** The bytes written for a record with this body; the checksum is computed afresh. */
  function RecordText(record: Record, body: seq<Byte>): seq<Byte>
    requires Encodable(record)
  {
    [MARK] + RecordHeader(record) + body + [Complement(Sum(RecordHeader(record) + body))]
  }

  /** The body comes from the memory, from the record, or is empty space. */
  function BodyOf(cs: seq<Chunk>, record: Record): (seq<Chunk>, Option<seq<Byte>>) {
    if record.recType == DATA then ReadInto(cs, record.readOffset, Fill(0, record.length))
    else if record.recType == EXTENDED_ADDRESS || record.recType == START_ADDRESS then (cs, Some(record.body))
    else (cs, Some(Fill(0, record.length)))
  }

  /** The text of the first `n` records, or None when a read fails. */
  function EncodeTo(cs: seq<Chunk>, records: seq<Record>, n: nat): (r: (seq<Chunk>, Option<seq<Byte>>))
    requires n <= |records| && forall i :: 0 <= i < |records| ==> Encodable(records[i])
  {
    if n == 0 then (cs, Some([])) else
    match EncodeTo(cs, records, n - 1)
    case (cs', None) => (cs', None)
    case (cs', Some(text)) =>
      match BodyOf(cs', records[n - 1])
      case (cs'', None) => (cs'', None)
      case (cs'', Some(body)) => (cs'', Some(text + RecordText(records[n - 1], body)))
  }
}
