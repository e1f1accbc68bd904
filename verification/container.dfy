/**
 * Container detection and the decompression hand-off, done once when the
 * parser is built.
 *
 * An input of at least 0x100 bytes that begins with 'M','A','M' is a
 * compressed container. Its 8-byte header is a little-endian 32-bit signature
 * followed by a little-endian 32-bit declared decompressed size. Every other
 * input of at least 0x100 bytes is taken as the layout itself, unchanged.
 *
 * The operating system's decompression entry points are a `Service`
 * parameter: a workspace-size query, an allocator that may fail, and the
 * decompressor itself. They are consulted as the parser consults them, and
 * nothing about their algorithms is assumed.
 */
module Container {
  import opened Wrappers
  import opened Bytes

  /** Inputs shorter than this are rejected outright. */
  const MinSize: nat := 0x100
  /** The compressed-container header: signature word and declared size. */
  const HeaderSize: nat := 8
  /** Low 24 bits of the container signature: "MAM" little-endian. */
  const MamMagic: nat := 0x004d414d

  /** Why building the buffer failed. */
  datatype Failure =
    | TooSmall               // fewer than 0x100 bytes
    | UnrecognizedSignature  // low 24 signature bits are not "MAM"
    | UnsupportedEngine      // top nibble of the signature is set
    | WorkspaceQueryFailed   // the workspace-size query reported an error
    | AllocationFailed       // the workspace could not be allocated
    | DecompressionFailed    // the decompressor reported an error

  /** The decompression entry points the parser calls. A format id, the
      compressed payload and the declared output size go in; the decompressed
      bytes (of the service's own final length) come out, or nothing. */
  datatype Service = Service(
    workspaceSize: nat -> Option<nat>,
    allocate: nat -> bool,
    decompress: (nat, seq<byte>, nat) -> Option<seq<byte>>)

  /** The first three bytes are 'M','A','M'. */
  predicate IsCompressed(c: seq<byte>) {
    |c| >= 3 && c[0] == 'M' as int && c[1] == 'A' as int && c[2] == 'M' as int
  }

  /** The container signature word, bytes 0..4. */
  function SignatureWord(c: seq<byte>): nat
    requires |c| >= HeaderSize
  {
    LeDecode(c[0..4])
  }

  /** The declared decompressed size, bytes 4..8. */
  function DeclaredSize(c: seq<byte>): nat
    requires |c| >= HeaderSize
  {
    LeDecode(c[4..8])
  }

  // The masks and shifts the parser applies to the 32-bit signature word,
  // written as the equivalent arithmetic on its value (below 2^32).

  /** `sig & 0x00FFFFFF` */
  function Low24(sig: nat): nat { sig % 0x100_0000 }

  /** `(sig & 0xF0000000) >> 28` */
  function EngineNibble(sig: nat): nat { sig / 0x1000_0000 }

  /** `(sig & 0x0F000000) >> 24` */
  function FormatNibble(sig: nat): nat { (sig / 0x100_0000) % 0x10 }

  /** What the three signature tests look at, byte by byte: the low 24 bits
      are bytes 0..2, and both nibbles come from byte 3. */
  lemma SignatureFields(c: seq<byte>)
    requires |c| >= HeaderSize
    ensures Low24(SignatureWord(c)) == c[0] as int + 0x100 * (c[1] as int) + 0x1_0000 * (c[2] as int)
    ensures EngineNibble(SignatureWord(c)) == c[3] as int / 0x10
    ensures FormatNibble(SignatureWord(c)) == c[3] as int % 0x10
    ensures SignatureWord(c) < TwoTo32 && DeclaredSize(c) < TwoTo32
  {
    LeDecodeFour(c[0..4]);
    LeDecodeFour(c[4..8]);
  }

  /** `n` zero bytes. */
  function Zeros(n: nat): (z: seq<byte>)
    ensures |z| == n && forall i :: 0 <= i < n ==> z[i] == 0
  {
    seq(n, _ => 0)
  }

  /** The decompressor writes into a zero-filled buffer of the declared size
      and never past its end; the reported final size is not used. */
  function Fit(out: seq<byte>, declared: nat): (buf: seq<byte>)
    ensures |buf| == declared
    ensures forall i :: 0 <= i < declared && i < |out| ==> buf[i] == out[i]
    ensures forall i :: |out| <= i < declared ==> buf[i] == 0
  {
    if |out| >= declared then out[..declared] else out + Zeros(declared - |out|)
  }

  /** The buffer the parser keeps, or why it keeps none. */
  function Open(c: seq<byte>, svc: Service): (r: Result<seq<byte>, Failure>)
    ensures |c| < MinSize ==> r == Err(TooSmall)
    ensures |c| >= MinSize && !IsCompressed(c) ==> r == Ok(c)
    ensures r != Err(UnrecognizedSignature)
    ensures r.Ok? && IsCompressed(c) ==> |r.value| == DeclaredSize(c) < TwoTo32
  {
    if |c| < MinSize then Err(TooSmall)
    else if !IsCompressed(c) then Ok(c)
    else
      var sig := SignatureWord(c);
      var declared := DeclaredSize(c);
      SignatureFields(c);
      if Low24(sig) != MamMagic then
        assert false;
        Err(UnrecognizedSignature)
      else if EngineNibble(sig) != 0 then Err(UnsupportedEngine)
      else
        var format := FormatNibble(sig);
        var payload := c[HeaderSize..];
        match svc.workspaceSize(format)
        case None => Err(WorkspaceQueryFailed)
        case Some(workspace) =>
          if !svc.allocate(workspace) then Err(AllocationFailed)
          else
            match svc.decompress(format, payload, declared)
            case None => Err(DecompressionFailed)
            case Some(out) => Ok(Fit(out, declared))
  }

  /** With 'M','A','M' in front, the low-24-bit signature test always passes,
      so its rejection branch is dead. */
  lemma SignatureCheckPasses(c: seq<byte>)
    requires |c| >= HeaderSize && IsCompressed(c)
    ensures Low24(SignatureWord(c)) == MamMagic
  {
    SignatureFields(c);
  }

  /** A set top nibble rejects the container whatever the service: the
      workspace query, the allocator and the decompressor are never used. */
  lemma EngineNibbleRejects(c: seq<byte>, svc: Service)
    requires |c| >= MinSize && IsCompressed(c)
    requires c[3] >= 0x10
    ensures EngineNibble(SignatureWord(c)) != 0
    ensures Open(c, svc) == Err(UnsupportedEngine)
  {
    SignatureFields(c);
  }

  /** The service is consulted only at the format id `c[3] % 16`, on the
      payload `c[8..]` and the declared size from bytes 4..8: two services
      that agree there, and whose allocators agree on the one size the query
      returned, give the same outcome. */
  lemma HandOffArguments(c: seq<byte>, s1: Service, s2: Service)
    requires |c| >= MinSize && IsCompressed(c) && c[3] < 0x10
    requires s1.workspaceSize(c[3]) == s2.workspaceSize(c[3])
    requires s1.workspaceSize(c[3]).Some? ==>
      s1.allocate(s1.workspaceSize(c[3]).value) == s2.allocate(s1.workspaceSize(c[3]).value)
    requires s1.decompress(c[3], c[HeaderSize..], DeclaredSize(c))
          == s2.decompress(c[3], c[HeaderSize..], DeclaredSize(c))
    ensures FormatNibble(SignatureWord(c)) == c[3] < 0x10
    ensures |c[HeaderSize..]| == |c| - HeaderSize
    ensures Open(c, s1) == Open(c, s2)
  {
    SignatureFields(c);
  }

  /** On the compressed path with a clear top nibble, the outcome is a buffer
      exactly when the workspace query, the allocation and the decompression
      all succeed; that buffer has the declared size and starts with the
      decompressor's output, and it IS that output when the decompressor
      produced exactly the declared number of bytes. */
  lemma DecompressionOutcome(c: seq<byte>, svc: Service)
    requires |c| >= MinSize && IsCompressed(c) && c[3] < 0x10
    ensures var r := Open(c, svc);
      var d := svc.decompress(c[3], c[HeaderSize..], DeclaredSize(c));
      && (r.Ok? <==> (&& svc.workspaceSize(c[3]).Some?
                      && svc.allocate(svc.workspaceSize(c[3]).value)
                      && d.Some?))
      && (svc.workspaceSize(c[3]).None? ==> r == Err(WorkspaceQueryFailed))
      && (svc.workspaceSize(c[3]).Some? && !svc.allocate(svc.workspaceSize(c[3]).value)
          ==> r == Err(AllocationFailed))
      && (svc.workspaceSize(c[3]).Some? && svc.allocate(svc.workspaceSize(c[3]).value) && d.None?
          ==> r == Err(DecompressionFailed))
      && (r.Ok? ==> |r.value| == DeclaredSize(c))
      && (r.Ok? ==> forall i :: 0 <= i < |r.value| && i < |d.value| ==> r.value[i] == d.value[i])
      && (r.Ok? && |d.value| == DeclaredSize(c) ==> r.value == d.value)
  {
    SignatureFields(c);
  }
}
