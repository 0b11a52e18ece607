// The field and header codecs as loops and stores over byte buffers, proved
// against the canonical forms.

module Codec {
  import opened Words
  import opened Schema
  import opened Image
  import opened Payload
  import opened Record
  import opened Eeprom

  // ----- texts

  method ValidateStringBytes(f: bytes) returns (r: Status, length: nat)
    ensures r == if |f| >= 2 && TextLen(f) < |f| then Ok else ErrInvalid
    ensures r == Ok ==> length == TextLen(f)
  {
    length := 0;
    if |f| < 2 {
      return ErrInvalid, length;
    }
    for index := 0 to |f|
      invariant forall k :: 0 <= k < index ==> f[k] != 0
    {
      if f[index] == 0 {
        TextLenUnique(f, index);
        return Ok, index;
      }
    }
    TextLenUnique(f, |f|);
    return ErrInvalid, length;
  }

  // ----- machine words

  /** The value a two-byte field has on this machine. */
  function NativeU16(p: Platform, f: bytes): u16
    requires |f| == 2
  {
    if p.littleEndian then f[0] as int + 256 * (f[1] as int) else f[1] as int + 256 * (f[0] as int)
  }

  function NativeU32(p: Platform, f: bytes): u32
    requires |f| == 4
  {
    if p.littleEndian
    then f[0] as int + 256 * (f[1] as int + 256 * (f[2] as int + 256 * (f[3] as int)))
    else f[3] as int + 256 * (f[2] as int + 256 * (f[1] as int + 256 * (f[0] as int)))
  }

  function NativeU16Bytes(p: Platform, v: u16): (f: bytes)
    ensures |f| == 2
  {
    if p.littleEndian then U16Bytes(v) else [U16Bytes(v)[1], U16Bytes(v)[0]]
  }

  /** Reads two bytes, low one first. */
  function ReadU16(s: bytes, i: nat): (r: u16)
    requires i + 2 <= |s|
    ensures r == U16At(s, i)
  {
    TwoDigits(s, i);
    s[i] as int + 256 * (s[i + 1] as int)
  }

  /** Reads four bytes, low one first. */
  function ReadU32(s: bytes, i: nat): (r: u32)
    requires i + 4 <= |s|
    ensures r == U32At(s, i)
  {
    FourDigits(s, i);
    s[i] as int + 256 * (s[i + 1] as int + 256 * (s[i + 2] as int + 256 * (s[i + 3] as int)))
  }

  function NativeU32Bytes(p: Platform, v: u32): (f: bytes)
    ensures |f| == 4
  {
    var w := U32Bytes(v);
    if p.littleEndian then w else [w[3], w[2], w[1], w[0]]
  }

  /** Going through the machine's value gives the canonical byte order, and back. */
  lemma NativeIsWire(p: Platform, f: bytes)
    ensures |f| == 2 ==> U16Bytes(NativeU16(p, f)) == Wire(p, f) == NativeU16Bytes(p, U16At(f, 0))
    ensures |f| == 4 ==> U32Bytes(NativeU32(p, f)) == Wire(p, f) == NativeU32Bytes(p, U32At(f, 0))
  {
    if |f| == 2 {
      NativeIsWire16(p, f);
    } else if |f| == 4 {
      NativeIsWire32(p, f);
    }
  }

  lemma NativeIsWire16(p: Platform, f: bytes)
    requires |f| == 2
    ensures U16Bytes(NativeU16(p, f)) == Wire(p, f) == NativeU16Bytes(p, U16At(f, 0))
  {
    hide U16At, U16Bytes;
    var turned := [f[1], f[0]];
    WordBytes16(f);
    WordBytes16(turned);
    assert Wire(p, f) == if p.littleEndian then f else turned;
    assert NativeU16(p, f) == ReadU16(Wire(p, f), 0);
    assert NativeU16Bytes(p, U16At(f, 0)) == Wire(p, f);
  }

  lemma NativeIsWire32(p: Platform, f: bytes)
    requires |f| == 4
    ensures U32Bytes(NativeU32(p, f)) == Wire(p, f) == NativeU32Bytes(p, U32At(f, 0))
  {
    hide U32At, U32Bytes;
    var turned := [f[3], f[2], f[1], f[0]];
    WordBytes32(f);
    WordBytes32(turned);
    assert Wire(p, f) == if p.littleEndian then f else turned;
    assert NativeU32(p, f) == ReadU32(Wire(p, f), 0);
    assert NativeU32Bytes(p, U32At(f, 0)) == Wire(p, f);
  }

  lemma WordBytes16(f: bytes)
    requires |f| == 2
    ensures U16Bytes(U16At(f, 0)) == f
  {
    TwoDigits(f, 0);
  }

  lemma WordBytes32(f: bytes)
    requires |f| == 4
    ensures U32Bytes(U32At(f, 0)) == f
  {
    FourDigits(f, 0);
    var v3 := f[3] as int;
    var v2 := f[2] as int + 256 * v3;
    var v1 := f[1] as int + 256 * v2;
    assert U32At(f, 0) == f[0] as int + 256 * v1;
    assert U32At(f, 0) / 256 == v1 && v1 / 256 == v2 && v2 / 256 == v3;
  }

  // ----- fields

  method EncodeFieldBytes(p: Platform, e: Entry, field: bytes) returns (r: Status, encoded: bytes)
    requires |field| == e.size && (ExpectedSize(e.Kind()) != 0 ==> e.size == ExpectedSize(e.Kind()))
    ensures r ==
      match e.Kind()
      case Text => ErrType
      case Unknown => ErrType
      case Float32 => if p.FloatSupported() then Ok else ErrUnsupported
      case _ => Ok
    ensures r == Ok ==> encoded == EncodeField(p, e, field)
  {
    NativeIsWire(p, field);
    match e.Kind()
    case Bool =>
      return Ok, [field[0]];
    case Word(width) =>
      if width == 1 {
        return Ok, [field[0]];
      } else if width == 2 {
        return Ok, U16Bytes(NativeU16(p, field));
      } else {
        return Ok, U32Bytes(NativeU32(p, field));
      }
    case Float32 =>
      if !p.FloatSupported() {
        return ErrUnsupported, [];
      }
      return Ok, U32Bytes(NativeU32(p, field));
    case Blob =>
      return Ok, field;
    case _ =>
      return ErrType, [];
  }

  /** Whether a field can be decoded from n bytes. */
  function DecodeStatus(p: Platform, e: Entry, n: nat): Status {
    match e.Kind()
    case Text => ErrType
    case Unknown => ErrType
    case Float32 => if n != 4 then ErrSize else if p.FloatSupported() then Ok else ErrUnsupported
    case _ => if n != e.size then ErrSize else Ok
  }

  lemma ScalarDecodes(p: Platform, e: Entry, mem: bytes, img: bytes, pos: nat)
    requires e.offset + e.size <= |img|
    requires ExpectedSize(e.Kind()) != 0 ==> e.size == ExpectedSize(e.Kind())
    requires e.Kind() != Text && e.Kind() != Blob
    ensures
      var width := ExpectedSize(e.Kind());
      var status := DecodeStatus(p, e, width);
      ReadScalar(p, e, mem, img, pos)
      == if pos + width > |mem| then Parse(ErrIo, img, pos)
         else if status != Ok then Parse(status, img, pos)
         else Parse(Ok, Splice(img, e.offset, Wire(p, mem[pos..pos + width])), pos + width)
    ensures DecodeStatus(p, e, ExpectedSize(e.Kind())) == Ok ==> ExpectedSize(e.Kind()) == e.size
    ensures ExpectedSize(e.Kind()) <= 4
  {
    hide Splice, Wire;
  }

  method DecodeFieldBytes(p: Platform, e: Entry, encoded: bytes) returns (r: Status, field: bytes)
    requires ExpectedSize(e.Kind()) != 0 ==> e.size == ExpectedSize(e.Kind())
    ensures r == DecodeStatus(p, e, |encoded|)
    ensures r == Ok ==> field == if e.Kind() == Blob then encoded else Wire(p, encoded)
  {
    NativeIsWire(p, encoded);
    match e.Kind()
    case Bool =>
      if |encoded| != 1 {
        return ErrSize, [];
      }
      return Ok, [encoded[0]];
    case Word(width) =>
      if |encoded| != width {
        return ErrSize, [];
      }
      if width == 1 {
        return Ok, [encoded[0]];
      } else if width == 2 {
        return Ok, NativeU16Bytes(p, ReadU16(encoded, 0));
      } else {
        return Ok, NativeU32Bytes(p, ReadU32(encoded, 0));
      }
    case Float32 =>
      if |encoded| != 4 {
        return ErrSize, [];
      }
      if !p.FloatSupported() {
        return ErrUnsupported, [];
      }
      return Ok, NativeU32Bytes(p, ReadU32(encoded, 0));
    case Blob =>
      if |encoded| != e.size {
        return ErrSize, [];
      }
      return Ok, encoded;
    case _ =>
      return ErrType, [];
  }

  // ----- headers

  method WriteU16(dst: array<u8>, at: nat, v: u16)
    requires at + 2 <= dst.Length
    modifies dst
    ensures dst[..] == Splice(old(dst[..]), at, U16Bytes(v))
  {
    dst[at] := v % 256;
    dst[at + 1] := v / 256;
  }

  method WriteU32(dst: array<u8>, at: nat, v: u32)
    requires at + 4 <= dst.Length
    modifies dst
    ensures dst[..] == Splice(old(dst[..]), at, U32Bytes(v))
  {
    var w := U32Bytes(v);
    dst[at], dst[at + 1], dst[at + 2], dst[at + 3] := w[0], w[1], w[2], w[3];
  }

  /** What the stores below leave in a cleared header buffer. */
  lemma HeaderStores(i: Info)
    ensures
      var h0 := Splice(Fill(HEADER_SIZE, 0), 0, MAGIC);
      var h1 := Splice(h0, 4, U16Bytes(i.formatVersion));
      var h2 := Splice(h1, 6, U16Bytes(HEADER_SIZE));
      var h3 := Splice(h2, 8, U32Bytes(i.schemaVersion));
      var h4 := Splice(h3, 12, U32Bytes(i.fingerprint));
      var h5 := Splice(h4, 16, U16Bytes(i.entryCount));
      var h6 := Splice(h5, 18, [i.state, 0]);
      var h7 := Splice(h6, 20, U32Bytes(i.payloadLength));
      var h8 := Splice(h7, 24, U32Bytes(i.generation));
      Splice(h8, 28, U32Bytes(i.payloadCrc)) == HeaderBytes(i)
  {
    hide U16Bytes, U32Bytes, Splice, Fill;
    var zero := Fill(HEADER_SIZE, 0);
    SpliceJoin(zero, 0, MAGIC, U16Bytes(i.formatVersion));
    var p1 := MAGIC + U16Bytes(i.formatVersion);
    SpliceJoin(zero, 0, p1, U16Bytes(HEADER_SIZE));
    var p2 := p1 + U16Bytes(HEADER_SIZE);
    SpliceJoin(zero, 0, p2, U32Bytes(i.schemaVersion));
    var p3 := p2 + U32Bytes(i.schemaVersion);
    SpliceJoin(zero, 0, p3, U32Bytes(i.fingerprint));
    var p4 := p3 + U32Bytes(i.fingerprint);
    SpliceJoin(zero, 0, p4, U16Bytes(i.entryCount));
    var p5 := p4 + U16Bytes(i.entryCount);
    SpliceJoin(zero, 0, p5, [i.state, 0]);
    var p6 := p5 + [i.state, 0];
    SpliceJoin(zero, 0, p6, U32Bytes(i.payloadLength));
    var p7 := p6 + U32Bytes(i.payloadLength);
    SpliceJoin(zero, 0, p7, U32Bytes(i.generation));
    var p8 := p7 + U32Bytes(i.generation);
    SpliceJoin(zero, 0, p8, U32Bytes(i.payloadCrc));
    WholeSplice(zero, HeaderBytes(i));
  }

  lemma WholeSplice(s: bytes, part: bytes)
    requires |part| == |s|
    ensures Splice(s, 0, part) == part
  {
  }

  method EncodeHeader(header: array<u8>, c: Setup, generation: u32, payloadLength: u32, payloadCrc: u32, state: u8)
    returns (r: Status)
    requires header.Length == HEADER_SIZE
    requires c.Valid()
    modifies header
    ensures r == Ok
    ensures header[..] == HeaderBytes(HeaderOf(c, state, payloadLength, generation, payloadCrc))
  {
    hide Splice, Fill, HeaderBytes, U16Bytes, U32Bytes;
    ghost var i := HeaderOf(c, state, payloadLength, generation, payloadCrc);
    HeaderStores(i);
    FillInto(header, 0, HEADER_SIZE, 0);
    WholeSplice(old(header[..]), Fill(HEADER_SIZE, 0));
    CopyInto(header, 0, MAGIC);
    WriteU16(header, 4, FORMAT_VERSION);
    WriteU16(header, 6, HEADER_SIZE);
    WriteU32(header, 8, c.schema.version);
    WriteU32(header, 12, c.fingerprint);
    if |c.schema.entries| > 0xFFFF {
      return ErrSize;
    }
    WriteU16(header, 16, |c.schema.entries|);
    CopyInto(header, STATE_OFFSET, [state, 0]);
    WriteU32(header, 20, payloadLength);
    WriteU32(header, 24, generation);
    WriteU32(header, 28, payloadCrc);
    return Ok;
  }

  method ParseHeader(header: array<u8>) returns (r: Status, info: Info)
    requires header.Length == HEADER_SIZE
    ensures DecodeHeader(header[..]) == if r == Ok then Found(info) else Missing(r)
  {
    info := Info(0, 0, 0, 0, 0, 0, 0, 0);
    if header[0] != MAGIC[0] || header[1] != MAGIC[1] || header[2] != MAGIC[2] || header[3] != MAGIC[3] {
      return ErrMagic, info;
    }
    assert header[..][..4] == MAGIC;
    var h := header[..];
    if ReadU16(h, 6) != HEADER_SIZE {
      return ErrInvalid, info;
    }
    info := Info(ReadU16(h, 4), ReadU32(h, 8), ReadU32(h, 12), ReadU16(h, 16), h[STATE_OFFSET],
                 ReadU32(h, 20), ReadU32(h, 24), ReadU32(h, 28));
    return Ok, info;
  }
}
