/**
 * The `prefetch_parser` object: a buffer established once at construction,
 * fixed-offset header fields read from it, and the file-name table decoded
 * from the range two of those fields describe.
 *
 * The parser reads fields with an unchecked copy; here every read checks its
 * range and answers `NotParsed` on an empty buffer and `OutOfRange` past its
 * end, so that an out-of-bounds read is an error value instead of undefined
 * behaviour.
 */
module Prefetch {
  import opened Wrappers
  import opened Bytes
  import opened Container
  import opened StringTable

  /** The parser's only state: its buffer, empty when construction failed. */
  datatype Parser = Parser(data: seq<byte>)

  /** `success()`: the buffer is non-empty. */
  predicate Success(p: Parser) {
    |p.data| > 0
  }

  /** Construction from the file's bytes: the buffer `Open` produces, or an
      empty one. */
  function Construct(content: seq<byte>, svc: Service): (p: Parser)
    ensures |content| < MinSize ==> !Success(p)
    ensures |content| >= MinSize && !IsCompressed(content) ==> p.data == content && Success(p)
    ensures Open(content, svc).Err? ==> !Success(p)
    ensures Success(p) ==> Open(content, svc) == Ok(p.data)
  {
    match Open(content, svc)
    case Ok(buffer) => Parser(buffer)
    case Err(_) => Parser([])
  }

  /** The 32-bit `int` header fields. */
  datatype Field =
    | Version
    | Signature
    | FileSize
    | FileNameStringsOffset
    | FileNameStringsSize
    | VolumeInformationOffset
    | VolumesCount
    | VolumesInformationSize
    | RunCount

  /** The byte offset of each `int` field. */
  function Offset(f: Field): nat {
    match f
    case Version => 0x00
    case Signature => 0x04
    case FileSize => 0x0C
    case FileNameStringsOffset => 0x64
    case FileNameStringsSize => 0x68
    case VolumeInformationOffset => 0x6C
    case VolumesCount => 0x70
    case VolumesInformationSize => 0x74
    case RunCount => 0xD0
  }

  const IntWidth: nat := 4
  /** `executed_timestamp` is a `uintptr_t`: 8 bytes on a 64-bit build. */
  const TimestampOffset: nat := 0x80
  const TimestampWidth: nat := 8

  /** Why a read failed. */
  datatype AccessError =
    | NotParsed                          // the buffer is empty
    | OutOfRange(start: int, width: int) // the range leaves the buffer
    | OddTableSize                       // the table is not a whole number of code units

  /** The bytes `[offset, offset + width)` of the buffer, if they exist. */
  function Slice(p: Parser, offset: nat, width: nat): (r: Result<seq<byte>, AccessError>)
    ensures r.Ok? <==> Success(p) && offset + width <= |p.data|
    ensures r.Ok? ==> (|r.value| == width
      && forall k :: 0 <= k < width ==> r.value[k] == p.data[offset + k])
  {
    if !Success(p) then Err(NotParsed)
    else if offset + width > |p.data| then Err(OutOfRange(offset, width))
    else Ok(p.data[offset..offset + width])
  }

  /** An `int` field: its four bytes read little-endian as two's complement. */
  function ReadInt(p: Parser, f: Field): (r: Result<int, AccessError>)
    ensures r.Ok? <==> Offset(f) + IntWidth <= |p.data|
    ensures !Success(p) ==> r == Err(NotParsed)
    ensures r.Ok? ==> (-TwoTo31 <= r.value < TwoTo31
      && LeEncode(FromInt32(r.value), IntWidth) == p.data[Offset(f)..Offset(f) + IntWidth])
  {
    var bs :- Slice(p, Offset(f), IntWidth);
    var u := LeDecode(bs);
    EncodeDecode(bs);
    Ok(ToInt32(u))
  }

  /** `executed_timestamp`: the unsigned 64-bit value at 0x80. */
  function ExecutedTimestamp(p: Parser): (r: Result<nat, AccessError>)
    ensures r.Ok? <==> TimestampOffset + TimestampWidth <= |p.data|
    ensures !Success(p) ==> r == Err(NotParsed)
    ensures r.Ok? ==> (r.value < Pow256(TimestampWidth)
      && LeEncode(r.value, TimestampWidth) == p.data[TimestampOffset..TimestampOffset + TimestampWidth])
  {
    var bs :- Slice(p, TimestampOffset, TimestampWidth);
    EncodeDecode(bs);
    Ok(LeDecode(bs))
  }

  /** `get_filenames_strings()`: the table range named by the offset and size
      fields, decoded into its zero-terminated strings. */
  function Filenames(p: Parser): (r: Result<seq<seq<Unit>>, AccessError>)
    ensures r.Ok? <==>
      && ReadInt(p, FileNameStringsOffset).Ok?
      && ReadInt(p, FileNameStringsSize).Ok?
      && 0 <= ReadInt(p, FileNameStringsOffset).value
      && 0 <= ReadInt(p, FileNameStringsSize).value
      && ReadInt(p, FileNameStringsOffset).value + ReadInt(p, FileNameStringsSize).value <= |p.data|
      && ReadInt(p, FileNameStringsSize).value % 2 == 0
    ensures r.Ok? ==> forall i :: 0 <= i < |r.value| ==> NoZero(r.value[i])
  {
    var offset :- ReadInt(p, FileNameStringsOffset);
    var size :- ReadInt(p, FileNameStringsSize);
    DecodeTable(p.data, offset, size)
  }

  /** The strings of the table occupying `[offset, offset + size)`. */
  function DecodeTable(data: seq<byte>, offset: int, size: int): (r: Result<seq<seq<Unit>>, AccessError>)
    ensures r.Ok? <==> 0 <= offset && 0 <= size && offset + size <= |data| && size % 2 == 0
    ensures r.Ok? ==> forall i :: 0 <= i < |r.value| ==> NoZero(r.value[i])
  {
    if offset < 0 || size < 0 || offset + size > |data| then Err(OutOfRange(offset, size))
    else if size % 2 != 0 then Err(OddTableSize)
    else Ok(Split(Units(data[offset..offset + size])))
  }

  /** A short input leaves the parser unparsed, and then no field, timestamp
      or table can be read. */
  lemma ShortInputUnreadable(content: seq<byte>, svc: Service, f: Field)
    requires |content| < MinSize
    ensures !Success(Construct(content, svc))
    ensures ReadInt(Construct(content, svc), f) == Err(NotParsed)
    ensures ExecutedTimestamp(Construct(content, svc)) == Err(NotParsed)
    ensures Filenames(Construct(content, svc)) == Err(NotParsed)
  {
  }

  /** Every fixed-offset read ends by 0xD4 (`run_count`, 0xD0 + 4), so any
      buffer of at least 0x100 bytes, in particular every pass-through one,
      can serve all of them. */
  lemma AccessorsInBounds(p: Parser)
    requires |p.data| >= MinSize
    ensures forall f :: Offset(f) + IntWidth <= Offset(RunCount) + IntWidth == 0xD4
    ensures TimestampOffset + TimestampWidth <= 0xD4
    ensures forall f :: ReadInt(p, f).Ok?
    ensures ExecutedTimestamp(p).Ok?
  {
  }

  /** On the pass-through path each field is read from the input itself. */
  lemma PassThroughFields(content: seq<byte>, svc: Service, f: Field)
    requires |content| >= MinSize && !IsCompressed(content)
    ensures Success(Construct(content, svc))
    ensures ReadInt(Construct(content, svc), f)
         == Ok(ToInt32(LeDecode(content[Offset(f)..Offset(f) + IntWidth])))
    ensures ExecutedTimestamp(Construct(content, svc))
         == Ok(LeDecode(content[TimestampOffset..TimestampOffset + TimestampWidth]))
  {
  }

  /** A field's value depends on its own bytes and on nothing else in the
      buffer. */
  lemma ReadIsLocal(p: Parser, q: Parser, f: Field)
    requires Offset(f) + IntWidth <= |p.data| && Offset(f) + IntWidth <= |q.data|
    ensures ReadInt(p, f) == ReadInt(q, f)
        <==> p.data[Offset(f)..Offset(f) + IntWidth] == q.data[Offset(f)..Offset(f) + IntWidth]
  {
    var a := p.data[Offset(f)..Offset(f) + IntWidth];
    var b := q.data[Offset(f)..Offset(f) + IntWidth];
    DecodeInjective(a, b);
  }

  /** A compressed container parses exactly when the service produced a
      buffer and the declared size is not zero: a zero declared size yields an
      empty buffer, which `success()` reports as a failure. */
  lemma CompressedSuccess(content: seq<byte>, svc: Service)
    requires |content| >= MinSize && IsCompressed(content)
    ensures Success(Construct(content, svc))
        <==> Open(content, svc).Ok? && DeclaredSize(content) > 0
  {
  }

  /** The decoded table: one string per zero code unit of the range, none
      holding a zero, and together with their terminators they are the range
      up to and including its last zero unit. */
  lemma FilenamesTable(p: Parser, offset: int, size: int)
    requires ReadInt(p, FileNameStringsOffset) == Ok(offset)
    requires ReadInt(p, FileNameStringsSize) == Ok(size)
    requires 0 <= offset && 0 <= size && offset + size <= |p.data| && size % 2 == 0
    ensures Filenames(p).Ok?
    ensures var units := Units(p.data[offset..offset + size]);
      var names := Filenames(p).value;
      && |names| == CountZeros(units)
      && (forall i :: 0 <= i < |names| ==> NoZero(names[i]))
      && JoinedPrefix(units, Join(names))
  {
    var units := Units(p.data[offset..offset + size]);
    FilenamesValue(p, offset, size);
    SplitCount(units);
    SplitJoin(units);
  }

  /** The decoded table is the one split of its range. */
  lemma FilenamesValue(p: Parser, offset: int, size: int)
    requires ReadInt(p, FileNameStringsOffset) == Ok(offset)
    requires ReadInt(p, FileNameStringsSize) == Ok(size)
    requires 0 <= offset && 0 <= size && offset + size <= |p.data| && size % 2 == 0
    ensures Filenames(p) == Ok(Split(Units(p.data[offset..offset + size])))
  {
    assert Filenames(p) == DecodeTable(p.data, offset, size);
  }

  /** The table is fixed by its range: any list of zero-free strings whose
      terminated join, followed by a zero-free tail, is the range's code units
      is exactly what the parser returns. */
  lemma FilenamesUnique(p: Parser, offset: int, size: int, names: seq<seq<Unit>>, tail: seq<Unit>)
    requires ReadInt(p, FileNameStringsOffset) == Ok(offset)
    requires ReadInt(p, FileNameStringsSize) == Ok(size)
    requires 0 <= offset && 0 <= size && offset + size <= |p.data| && size % 2 == 0
    requires Decomposes(Units(p.data[offset..offset + size]), names, tail)
    ensures Filenames(p) == Ok(names)
  {
    assert DecodeTable(p.data, offset, size) == Ok(names) by {
      DecodeTableUnique(p.data, offset, size, names, tail);
    }
    assert Filenames(p) == DecodeTable(p.data, offset, size);
  }

  /** A valid range decodes to its one decomposition into terminated strings. */
  lemma DecodeTableUnique(data: seq<byte>, offset: int, size: int, names: seq<seq<Unit>>, tail: seq<Unit>)
    requires 0 <= offset && 0 <= size && offset + size <= |data| && size % 2 == 0
    requires Decomposes(Units(data[offset..offset + size]), names, tail)
    ensures DecodeTable(data, offset, size) == Ok(names)
  {
    SplitUnique(Units(data[offset..offset + size]), names, tail);
  }
}
