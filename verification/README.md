# Windows Prefetch parser — Dafny model

A model of `prefetch_parser.hh`, a header-only parser for Windows Prefetch
files, with proofs of what its construction and its readers promise.

- **Construction** (`Container.Open`, `Prefetch.Construct`). Inputs under
  0x100 bytes are rejected. An input starting with `'M','A','M'` is a
  compressed container. Its 8-byte header holds a little-endian signature
  word and a declared decompressed size. The low 24 signature bits are tested
  against `0x004d414d`. A non-zero top nibble is rejected. Bits 24–27 give
  the compression format. The rest of the input goes to the decompressor,
  which fills a zero-initialised buffer of the declared size. Any other input
  becomes the buffer unchanged.
- **The decompression entry points** (`Container.Service`) are a parameter:
  a workspace-size query, an allocator that may fail, and a decompressor.
  They are modelled only by their success or failure and their output.
- **Parser state** (`Prefetch.Parser`): the buffer alone. `success()` means
  the buffer is non-empty.
- **Header fields** (`Prefetch.ReadInt`, `Prefetch.ExecutedTimestamp`): 32-bit
  little-endian two's-complement `int`s at fixed offsets, and an unsigned
  64-bit `executed_timestamp` at 0x80 (a 64-bit build's `uintptr_t`).
- **File-name table** (`Prefetch.Filenames`, `StringTable.ScanTable`). The
  byte range named by two header fields is read as 2-byte little-endian code
  units and cut into strings at each zero unit. A trailing unterminated string
  is dropped.

Where the header's behaviour is undefined or ends in an exception, the model
returns an error value instead. This covers reading past the buffer, reading
an empty buffer, and a negative, out-of-range or odd-sized table.

Modules: `Wrappers` (Option/Result), `Bytes` (little-endian and two's
complement), `StringTable`, `Container`, `Prefetch`.

## Model

| member | source | states |
|---|---|---|
| Container.Open | prefetch_parser.hh:60-130 | Under 0x100 bytes gives TooSmall. A non-"MAM" input of at least 0x100 bytes becomes the buffer unchanged. The unrecognised-signature error never occurs. A compressed success has exactly the declared size, which is below 2^32 |
| Container.SignatureFields | prefetch_parser.hh:86-98 | The low 24 signature bits are bytes 0–2. The top nibble is byte 3 / 16. The format id is byte 3 % 16. Signature and declared size fit in 32 bits |
| Container.SignatureCheckPasses | prefetch_parser.hh:65-89 | Whenever the first three bytes are 'M','A','M', the low-24-bit check against 0x004d414d passes |
| Container.EngineNibbleRejects | prefetch_parser.hh:93-96 | A non-zero top nibble gives UnsupportedEngine for every service, so no workspace query, allocation or decompression affects it |
| Container.HandOffArguments | prefetch_parser.hh:91-117 | The format id is below 16. The payload is the input minus its first 8 bytes, of length len-8. Services that agree on the query at that format, on allocating the one size that query returned, and on decompression of exactly (format, payload, declared size) give the same outcome |
| Container.DecompressionOutcome | prefetch_parser.hh:100-127 | A buffer results iff query, allocation and decompression all succeed; each failure has its own error. The buffer has the declared size, not the reported one. It starts with the decompressor's output and equals it when that output has the declared length |
| Container.Fit | prefetch_parser.hh:104-127 | The buffer has the declared length. It holds the decompressor's bytes where both exist and zeros after the decompressor's output |
| Prefetch.Construct | prefetch_parser.hh:60-130 | Short inputs are unparsed. Non-"MAM" inputs of at least 0x100 bytes are parsed with the buffer equal to the input. Any construction failure leaves the parser unparsed. A parsed buffer is what detection produced |
| Prefetch.Slice | prefetch_parser.hh:54 | A range read succeeds iff the buffer is non-empty and the range fits. It returns exactly those bytes |
| Prefetch.ReadInt | prefetch_parser.hh:132-140 | An `int` field is readable iff offset+4 fits the buffer. An empty buffer gives NotParsed. The value is a 32-bit signed int whose 4-byte little-endian two's-complement encoding is exactly the bytes at the field's offset |
| Prefetch.ExecutedTimestamp | prefetch_parser.hh:141 | Readable iff 0x88 fits the buffer. The value is below 2^64 and its 8-byte little-endian encoding is the bytes at 0x80..0x88 |
| Prefetch.Filenames | prefetch_parser.hh:147-168 | Succeeds iff both table fields read, are non-negative, offset+size fits the buffer and size is even. No returned string contains a zero unit |
| Prefetch.DecodeTable | prefetch_parser.hh:148-168 | Decoding succeeds iff the range is non-negative, inside the buffer and of even size. No returned string contains a zero unit |
| Prefetch.FilenamesUnique | prefetch_parser.hh:147-168 | When both table fields read and the range is valid, the table is the only list of zero-free strings whose terminated join, followed by a zero-free tail, is the range's code units |
| Prefetch.DecodeTableUnique | prefetch_parser.hh:148-168 | For a valid range, any zero-free strings whose terminated join, followed by a zero-free tail, is the range's code units are exactly what decoding returns |
| Prefetch.ShortInputUnreadable | prefetch_parser.hh:62-63 | An input under 0x100 bytes leaves success() false. Every field, the timestamp and the table then give NotParsed |
| Prefetch.AccessorsInBounds | prefetch_parser.hh:132-141 | Every fixed read ends by 0xD4 (run_count's end). Any buffer of at least 0x100 bytes serves all fields and the timestamp |
| Prefetch.PassThroughFields | prefetch_parser.hh:128-141 | On the pass-through path the parser succeeds. Each field is the signed little-endian decode of the input's own bytes at its offset, and the timestamp is the unsigned decode at 0x80 |
| Prefetch.ReadIsLocal | prefetch_parser.hh:54 | Two buffers give the same field value iff they hold the same four bytes at that field's offset |
| Prefetch.CompressedSuccess | prefetch_parser.hh:143-145 | A compressed container parses iff decompression produced a buffer and the declared size is non-zero |
| Prefetch.FilenamesTable | prefetch_parser.hh:147-168 | For an in-bounds, even-sized range there is one string per zero unit and none contains a zero. The strings with their terminators are the range up to and including its last zero unit |
| StringTable.Units | prefetch_parser.hh:156-157 | An even-length range has half as many code units. Unit k is the little-endian decode of bytes 2k and 2k+1, that is b[2k] + 256 b[2k+1] |
| StringTable.FirstZero | prefetch_parser.hh:158-162 | The position found holds a zero unit and no earlier unit is zero |
| StringTable.Split | prefetch_parser.hh:154-167 | No output string contains a zero unit |
| StringTable.SplitJoin | prefetch_parser.hh:154-167 | Joining the strings with terminators gives a prefix of the input. The part left over contains no zero |
| StringTable.SplitUnique | prefetch_parser.hh:154-167 | Any zero-free strings that, joined with terminators and followed by a zero-free tail, give the input are exactly Split's output. Order and duplicates are therefore fixed |
| StringTable.SplitCount | prefetch_parser.hh:158-161 | The number of strings equals the number of zero units |
| StringTable.ScanTable | prefetch_parser.hh:154-167 | The accumulate-and-flush loop over 2-byte units returns exactly Split of the range's units, one string per zero unit |
| StringTable.SplitExample | prefetch_parser.hh:156-165 | "abc\0de\0\0" decodes to "abc", "de", "". With a trailing unterminated "f" the result is the same |
| Bytes.LeDecode | prefetch_parser.hh:54 | A w-byte little-endian value is below 256^w |
| Bytes.LeEncode | prefetch_parser.hh:54 | The encoding of a value below 256^w has exactly w bytes |
| Bytes.DecodeEncode | prefetch_parser.hh:54 | Decoding the w-byte encoding of n gives n |
| Bytes.EncodeDecode | prefetch_parser.hh:54 | Re-encoding a decoded field at its width gives its bytes back |
| Bytes.DecodeInjective | prefetch_parser.hh:54 | Same-width byte strings decode equally iff they are equal |
| Bytes.ToInt32 | prefetch_parser.hh:132 | A 32-bit pattern is read as the unique int in [-2^31, 2^31) congruent to it mod 2^32. It is non-negative iff the pattern is below 2^31 |
| Bytes.FromInt32 | prefetch_parser.hh:132 | Every int value in range has a 32-bit pattern congruent to it mod 2^32 |
| Bytes.Int32RoundTrip | prefetch_parser.hh:132 | Pattern and int value convert back and forth without loss |
| Bytes.LeDecodeFour | prefetch_parser.hh:86-87 | A 4-byte little-endian word is b0 + 2^8 b1 + 2^16 b2 + 2^24 b3 |
| Bytes.LeDecodeTwo | prefetch_parser.hh:157 | A 2-byte code unit is b0 + 2^8 b1 |

## Left out

- `read_file` (prefetch_parser.hh:10-28): file I/O. The file's contents are the input byte sequence, and a missing file behaves like an empty one (TooSmall).
- `convert_timestamp` and `executed_time` (prefetch_parser.hh:30-52, 170-172): they depend on the host time zone through Windows calls. Only the raw 8-byte `executed_timestamp` read is modelled. There is no Unix-seconds conversion in the source, so none is modelled.
- The `GetProcAddress`/`ntdll.dll` lookup and the decompression algorithm: foreign OS calls. They are the abstract `Service`. A lookup that returns a null pointer is not modelled.
- Container.Open: the zero-filled output vector of the declared size (prefetch_parser.hh:104) is built before the workspace is allocated, and for a large declared size (up to 0xFFFFFFFF) that can throw `std::bad_alloc`, which leaves the constructor with no parser object at all. The model has no such outcome: `Open` always returns a buffer or an error.
- `malloc`/`free` of the workspace: only whether allocation succeeds is modelled (`Service.allocate`). Release on every path has no observable effect.
- The `data_span.size() < 8` test (prefetch_parser.hh:83-84): the span always has 8 elements, so the branch cannot be taken and has no counterpart.
- The compressed length is passed to the decompressor as a 32-bit `ULONG`. The model passes the payload itself, so inputs of 4 GiB and more are not truncated.
- Container.SignatureFields: the masks `& 0x00FFFFFF`, `& 0xF0000000 >> 28` and `& 0x0F000000 >> 24` are written as the equivalent arithmetic on a value below 2^32 (`% 2^24`, `/ 2^28`, `/ 2^24 % 16`), without a bit-vector proof of that equivalence.
- Prefetch.ReadInt, Prefetch.ExecutedTimestamp, Prefetch.Filenames: the source copies memory with no checks. Reads past the buffer, reads of an empty buffer, and a negative, out-of-range or odd-sized table are undefined behaviour or exceptions there (a negative size reaches `reserve` as a huge `size_t` and throws `std::length_error`). The model returns `NotParsed`, `OutOfRange` or `OddTableSize` instead.
- No marker at bytes 4–7 is checked for uncompressed input, and none is modelled. Any non-"MAM" input of 0x100 bytes or more is accepted as is.
- Volume-information records and the remaining file sections: the source never interprets them. Only their scalar header fields are read.
