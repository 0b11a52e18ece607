// The context object: the caller's data buffer bound to a schema, with the
// operations of the library proved against the specifications of the other
// modules.

module Context {
  import opened Words
  import opened Crc
  import opened Schema
  import opened Image
  import opened Payload
  import opened Misread
  import opened Record
  import opened Save
  import opened Atomicity
  import opened Store
  import opened Eeprom
  import opened Codec
  import opened LoopSteps
  import opened SaveSteps
  import opened Unheard

  class Config {
    const setup: Setup
    const data: array<u8>

    ghost predicate Valid() {
      && setup.Valid()
      && data.Length == setup.schema.dataSize
    }

    ghost function Data(): (img: bytes)
      requires Valid()
      reads data
      ensures setup.Holds(img)
    {
      data[..]
    }

    constructor (setup: Setup, data: array<u8>)
      ensures this.setup == setup && this.data == data
    {
      this.setup, this.data := setup, data;
    }

    /** Binds a buffer to a schema; succeeds exactly for well-formed schemas of
        the buffer's size, and never touches the buffer. */
    static method Init(platform: Platform, schema: Schema, data: array<u8>) returns (r: Status, ctx: Config?)
      requires data.Length <= MAX_OBJECT && |schema.entries| <= SIZE_MAX
      ensures r ==
        if data.Length != schema.dataSize then ErrSize
        else if WellFormed(platform, schema) then Ok
        else ErrInvalid
      ensures r == Ok <==> ctx != null
      ensures r == Ok ==> ctx.Valid() && ctx.setup == Setup(platform, schema, Fingerprint(schema)) && ctx.data == data
    {
      if data.Length != schema.dataSize {
        return ErrSize, null;
      }
      var fingerprint: u32;
      r, fingerprint := SchemaValidate(platform, schema);
      if r != Ok {
        return r, null;
      }
      ctx := new Config(Setup(platform, schema, fingerprint), data);
    }

    // ----- validity and defaults

    method ValidateData(img: bytes) returns (r: Status)
      requires Valid() && setup.Holds(img)
      ensures r == DataStatus(setup, img)
      ensures r == Ok <==> FieldsValid(setup, img)
    {
      hide WellFormed;
      ValidMeansOk(setup, img);
      for index := 0 to |setup.schema.entries|
        invariant DataStatusUpTo(setup, img, index) == Ok
      {
        var e := setup.At(index);
        var f := Field(img, e);
        var complaint := Ok;
        match e.Kind() {
        case Bool =>
          if f[0] != 0 && f[0] != 1 {
            complaint := ErrInvalid;
          }
        case Text =>
          var length;
          complaint, length := ValidateStringBytes(f);
        case Float32 =>
          if !setup.platform.FloatSupported() {
            complaint := ErrUnsupported;
          }
        case _ =>
        }
        assert complaint == DataStatusUpTo(setup, img, index + 1);
        if complaint != Ok {
          ComplaintSticks(setup, img, index + 1, setup.Count());
          return complaint;
        }
      }
      return Ok;
    }

    method ApplyDefault(index: nat)
      requires Valid() && index < setup.Count()
      modifies data
      ensures Data() == ResetField(setup, old(Data()), index)
    {
      hide WellFormed, Splice, Fill;
      var e := setup.At(index);
      ghost var before := data[..];
      if e.preset.Absent? {
        FillInto(data, e.offset, e.size, 0);
        return;
      }
      var value := e.preset.value;
      if e.Kind() == Text {
        FillInto(data, e.offset, e.size, 0);
        CopyInto(data, e.offset, value);
        PadJoins(before, e.offset, e.size, value);
        SpliceZero(before, e.offset, e.size, value);
        data[e.offset + |value|] := 0;
        return;
      }
      CopyInto(data, e.offset, value);
      assert value + Fill(e.size - |value|, 0) == value;
    }

    method ResetToDefault(index: nat) returns (r: Status)
      requires Valid()
      modifies data
      ensures r == if index < setup.Count() then Ok else ErrNotFound
      ensures Data() == if r == Ok then ResetField(setup, old(Data()), index) else old(Data())
    {
      if index >= |setup.schema.entries| {
        return ErrNotFound;
      }
      ApplyDefault(index);
      return Ok;
    }

    method RestoreDefaults()
      requires Valid()
      modifies data
      ensures Data() == Defaults(setup)
    {
      hide WellFormed, Splice, Fill, DefaultField, DefaultParts;
      FillInto(data, 0, data.Length, 0);
      WholeSplice(old(data[..]), Fill(data.Length, 0));
      for index := 0 to |setup.schema.entries|
        invariant Data() == Paint(setup, DefaultParts(setup), index)
      {
        ApplyDefault(index);
      }
    }

    // ----- the field store

    method Find(key: seq<Letter>) returns (r: Status, index: nat)
      requires Valid()
      ensures r == Ok || r == ErrNotFound
      ensures r == Ok ==>
        && index < setup.Count() && setup.At(index).key == Named(key)
        && forall j :: 0 <= j < setup.Count() && j != index ==> setup.At(j).key != Named(key)
      ensures r == ErrNotFound ==> forall j :: 0 <= j < setup.Count() ==> setup.At(j).key != Named(key)
    {
      index := 0;
      while index < |setup.schema.entries|
        invariant index <= setup.Count()
        invariant forall j :: 0 <= j < index ==> setup.At(j).key != Named(key)
      {
        var k := setup.schema.entries[index].key;
        if k.Named? && k.chars == key {
          KeysDiffer(setup, index);
          return Ok, index;
        }
        index := index + 1;
      }
      return ErrNotFound, index;
    }

    method Get(index: nat, out: array<u8>) returns (r: Status)
      requires Valid() && out != data
      modifies out
      ensures r ==
        if index >= setup.Count() then ErrNotFound
        else if out.Length != setup.At(index).size then ErrSize
        else Ok
      ensures out[..] == if r == Ok then Field(Data(), setup.At(index)) else old(out[..])
    {
      if index >= |setup.schema.entries| {
        return ErrNotFound;
      }
      var e := setup.At(index);
      r := CopyFieldOut(e, out);
    }

    method CopyFieldOut(e: Entry, out: array<u8>) returns (r: Status)
      requires Valid() && out != data && e.offset + e.size <= data.Length
      modifies out
      ensures r == if out.Length != e.size then ErrSize else Ok
      ensures out[..] == if r == Ok then Field(Data(), e) else old(out[..])
    {
      if out.Length != e.size {
        return ErrSize;
      }
      CopyInto(out, 0, data[e.offset..e.offset + e.size]);
      WholeSplice(old(out[..]), Field(data[..], e));
      return Ok;
    }

    method GetScalar(index: nat, code: u8, out: array<u8>) returns (r: Status)
      requires Valid() && out != data
      modifies out
      ensures r ==
        if index >= setup.Count() then ErrNotFound
        else if setup.At(index).code != code then ErrType
        else if code == TYPE_FLOAT32 && !setup.platform.FloatSupported() then ErrUnsupported
        else if out.Length != setup.At(index).size then ErrSize
        else Ok
      ensures out[..] == if r == Ok then Field(Data(), setup.At(index)) else old(out[..])
    {
      if index >= |setup.schema.entries| {
        return ErrNotFound;
      }
      var e := setup.At(index);
      if e.code != code {
        return ErrType;
      }
      if code == TYPE_FLOAT32 && !setup.platform.FloatSupported() {
        return ErrUnsupported;
      }
      r := CopyFieldOut(e, out);
    }

    /** A bool is handed out only if its byte is 0 or 1. */
    method GetBool(index: nat) returns (r: Status, value: bool)
      requires Valid()
      ensures r ==
        if index >= setup.Count() then ErrNotFound
        else if setup.At(index).code != TYPE_BOOL then ErrType
        else FieldStatus(setup.platform, setup.At(index), Field(Data(), setup.At(index)))
      ensures r == Ok ==> Field(Data(), setup.At(index)) == [if value then 1 else 0]
    {
      value := false;
      var raw := new u8[1](_ => 0);
      r := GetScalar(index, TYPE_BOOL, raw);
      if r != Ok {
        return;
      }
      assert raw[..][0] == raw[0];
      if raw[0] != 0 && raw[0] != 1 {
        return ErrInvalid, false;
      }
      return Ok, raw[0] != 0;
    }

    /** The text and its NUL, if the buffer has room; the room needed in any case. */
    method GetString(index: nat, out: array<u8>) returns (r: Status, required: nat)
      requires Valid() && out != data
      modifies out
      ensures r ==
        if index >= setup.Count() then ErrNotFound
        else if setup.At(index).Kind() != Text then ErrType
        else if TextLen(Field(Data(), setup.At(index))) == setup.At(index).size then ErrInvalid
        else if out.Length < TextLen(Field(Data(), setup.At(index))) + 1 then ErrSize
        else Ok
      ensures r == Ok || r == ErrSize ==> required == TextLen(Field(Data(), setup.At(index))) + 1
      ensures r == Ok ==>
        out[..required] == Field(Data(), setup.At(index))[..required] && out[required - 1] == 0 && out[required..] == old(out[required..])
      ensures r != Ok ==> out[..] == old(out[..])
    {
      hide TextLen, KindOf, WellFormed, Splice;
      required := 0;
      if index >= |setup.schema.entries| {
        return ErrNotFound, required;
      }
      var e := setup.At(index);
      if e.Kind() != Text {
        return ErrType, required;
      }
      var f := Field(data[..], e);
      var length;
      r, length := ValidateStringBytes(f);
      if r != Ok {
        return r, required;
      }
      required := length + 1;
      if out.Length < required {
        return ErrSize, required;
      }
      ghost var before := out[..];
      CopyInto(out, 0, f[..required]);
      SpliceFront(before, f[..required]);
      assert out[..required] == out[..][..required] && out[required..] == out[..][required..];
      return Ok, required;
    }

    method StoreBytes(index: nat, value: bytes)
      requires Valid() && index < setup.Count() && |value| == setup.At(index).size
      modifies data
      ensures Data() == PutIf(setup, old(Data()), Ok, index, value)
    {
      hide Splice;
      CopyInto(data, setup.At(index).offset, value);
      assert value + Fill(0, 0) == value;
    }

    method SetString(index: nat, value: bytes) returns (r: Status, required: nat)
      requires Valid() && |value| <= MAX_OBJECT
      modifies data
      ensures r == SetTextStatus(setup, index, value)
      ensures r != ErrNotFound && r != ErrType ==> required == |value| + 1
      ensures Data() == PutIf(setup, old(Data()), r, index, value)
    {
      hide Splice, WellFormed, Fingerprint;
      required := 0;
      if index >= |setup.schema.entries| {
        return ErrNotFound, required;
      }
      var e := setup.At(index);
      if e.Kind() != Text {
        return ErrType, required;
      }
      required := |value| + 1;
      if required > e.size {
        return ErrSize, required;
      }
      for k := 0 to |value|
        invariant 0 !in value[..k]
      {
        if value[k] == 0 {
          return ErrInvalid, required;
        }
      }
      assert value[..|value|] == value;
      ghost var before := data[..];
      FillInto(data, e.offset, e.size, 0);
      CopyInto(data, e.offset, value);
      TextLands(before, e.offset, e.size, value);
      data[e.offset + |value|] := 0;
      return Ok, required;
    }

    method Set(index: nat, value: bytes) returns (r: Status)
      requires Valid() && |value| <= MAX_OBJECT
      modifies data
      ensures r == SetStatus(setup, index, value)
      ensures Data() == PutIf(setup, old(Data()), r, index, value)
    {
      hide WellFormed;
      if index >= |setup.schema.entries| {
        return ErrNotFound;
      }
      var e := setup.At(index);
      if e.Kind() == Text {
        var required;
        r, required := SetString(index, value);
        return;
      }
      if |value| == 0 || |value| != e.size {
        return ErrSize;
      }
      if e.Kind() == Bool && value[0] != 0 && value[0] != 1 {
        return ErrInvalid;
      }
      StoreBytes(index, value);
      return Ok;
    }

    method SetScalar(index: nat, code: u8, value: bytes) returns (r: Status)
      requires Valid()
      modifies data
      ensures r == SetScalarStatus(setup, index, code, value)
      ensures Data() == PutIf(setup, old(Data()), r, index, value)
    {
      hide WellFormed;
      if index >= |setup.schema.entries| {
        return ErrNotFound;
      }
      var e := setup.At(index);
      if e.code != code {
        return ErrType;
      }
      if |value| != e.size {
        return ErrSize;
      }
      if code == TYPE_FLOAT32 && !setup.platform.FloatSupported() {
        return ErrUnsupported;
      }
      if code == TYPE_BOOL && value[0] != 0 && value[0] != 1 {
        return ErrInvalid;
      }
      StoreBytes(index, value);
      return Ok;
    }

    method SetBlob(index: nat, value: bytes) returns (r: Status)
      requires Valid()
      modifies data
      ensures r == SetBlobStatus(setup, index, value)
      ensures Data() == PutIf(setup, old(Data()), r, index, value)
    {
      hide WellFormed;
      if index >= |setup.schema.entries| {
        return ErrNotFound;
      }
      var e := setup.At(index);
      if e.Kind() != Blob {
        return ErrType;
      }
      if |value| == 0 || |value| != e.size {
        return ErrSize;
      }
      StoreBytes(index, value);
      return Ok;
    }

    // ----- measuring and writing the payload

    method ComputePayloadLayout() returns (r: Status, length: nat, crc: u32)
      requires Valid()
      ensures r == LayoutStatus(setup, Data())
      ensures r == Ok ==> length == |Encode(setup, Data())| && crc == Crc32(Encode(setup, Data()))
    {
      hide WellFormed, LayoutStatus, DataStatus, FieldsValid, Measured, Encode, EncodeField, Fold, Crc32, KindOf;
      length := 0;
      crc := SEED;
      r := ValidateData(data[..]);
      LayoutStart(setup, data[..]);
      if r != Ok {
        return;
      }
      for index := 0 to |setup.schema.entries|
        invariant Measured(setup, Data(), index, length, crc)
      {
        var step: Status, size: nat, code: bytes;
        step, size, code := MeasureField(index);
        MeasuredMore(setup, Data(), index, length, crc, size, code);
        if length > SIZE_MAX - size {
          return ErrSize, length, crc;
        }
        if step != Ok {
          return step, length, crc;
        }
        length := length + size;
        crc := Update(crc, code);
      }
      MeasuredAll(setup, Data(), length, crc);
      crc := Finalize(crc);
    }

    /** The size and the bytes one field adds to the payload. */
    method MeasureField(index: nat) returns (r: Status, size: nat, code: bytes)
      requires Valid() && index < setup.Count() && FieldsValid(setup, Data())
      ensures r == if setup.At(index).Kind() == Unknown then ErrType else Ok
      ensures r == Ok ==> code == EncodeField(setup.platform, setup.At(index), Field(Data(), setup.At(index))) && size == |code|
      ensures size <= MAX_OBJECT + 2
    {
      hide WellFormed;
      var e := setup.At(index);
      var f := Field(data[..], e);
      assert FieldStatus(setup.platform, e, f) == Ok;
      if e.Kind() == Text {
        var length;
        r, length := ValidateStringBytes(f);
        return r, 2 + length, U16Bytes(length % 0x1_0000) + f[..length];
      }
      r, code := EncodeFieldBytes(setup.platform, e, f);
      return r, e.size, code;
    }

    /** A text goes out as its length, then its characters if it has any. */
    method EmitText(io: Backend, f: bytes, offset: nat) returns (r: Status)
      requires Valid() && io.Valid()
      requires 2 <= |f| && TextLen(f) < |f|
      requires offset + 2 + TextLen(f) <= io.geometry.storageSize
      modifies io.dev`budget, io.dev.cells
      ensures r == Ok || r == ErrIo
      ensures Wrote(io.dev.faithful, old(io.dev.State()), io.dev.State(), io.base + offset,
                    U16Bytes(TextLen(f) % 0x1_0000) + f[..TextLen(f)], r == Ok)
    {
      hide WellFormed, Wrote, TextLen;
      ghost var start, faithful := io.dev.State(), io.dev.faithful;
      var valid, length := ValidateStringBytes(f);
      var lengthBytes := U16Bytes(length % 0x1_0000);
      var ok := io.Write(offset, lengthBytes);
      if !ok {
        WroteShort(faithful, start, io.dev.State(), io.base + offset, lengthBytes, f[..length]);
        return ErrIo;
      }
      if length != 0 {
        ghost var mid := io.dev.State();
        ok := io.Write(offset + 2, f[..length]);
        WroteBoth(faithful, start, mid, io.dev.State(), io.base + offset, lengthBytes, f[..length], ok);
        if !ok {
          return ErrIo;
        }
      } else {
        assert lengthBytes + f[..length] == lengthBytes;
      }
      return Ok;
    }

    method EmitField(io: Backend, index: nat, offset: nat) returns (r: Status, next: nat)
      requires Valid() && io.Valid() && data != io.dev.cells
      requires index < setup.Count() && LayoutStatus(setup, Data()) == Ok
      requires offset + |FieldCode(setup, Data(), index)| <= io.geometry.storageSize
      modifies io.dev`budget, io.dev.cells
      ensures r == Ok || r == ErrIo
      ensures Wrote(io.dev.faithful, old(io.dev.State()), io.dev.State(),
                    io.base + offset, FieldCode(setup, Data(), index), r == Ok)
      ensures r == Ok ==> next == offset + |FieldCode(setup, Data(), index)|
    {
      LayoutMeans(setup, data[..], index);
      hide WellFormed, LayoutStatus, Wrote, TextLen, Wire;
      var e := setup.At(index);
      var f := Field(data[..], e);
      if e.Kind() == Text {
        var valid, length := ValidateStringBytes(f);
        r := EmitText(io, f, offset);
        return r, offset + 2 + length;
      }
      var encoded: bytes;
      r, encoded := EncodeFieldBytes(setup.platform, e, f);
      var ok := io.Write(offset, encoded);
      return if ok then Ok else ErrIo, offset + |encoded|;
    }

    /** Writes the whole payload as one contiguous range, upwards. */
    method SerializePayload(io: Backend, offset: nat) returns (r: Status)
      requires Valid() && io.Valid() && data != io.dev.cells
      requires LayoutStatus(setup, Data()) == Ok
      requires offset + |Encode(setup, Data())| <= io.geometry.storageSize
      modifies io.dev`budget, io.dev.cells
      ensures r == Ok || r == ErrIo
      ensures Wrote(io.dev.faithful, old(io.dev.State()), io.dev.State(),
                    io.base + offset, Encode(setup, Data()), r == Ok)
    {
      hide WellFormed, LayoutStatus, Wrote, FieldCode, EncodeUpTo, Encode;
      var next := offset;
      EncodeEnds(setup, data[..]);
      ghost var start, faithful, img := io.dev.State(), io.dev.faithful, Data();
      WroteNothing(faithful, start, io.base + offset);
      for index := 0 to |setup.schema.entries|
        invariant Data() == img
        invariant next == offset + |EncodeUpTo(setup, img, index)|
        invariant Wrote(faithful, start, io.dev.State(), io.base + offset, EncodeUpTo(setup, img, index), true)
      {
        ghost var mid, code := io.dev.State(), FieldCode(setup, img, index);
        ghost var rest := EncodeRest(setup, img, index + 1);
        EncodeOneMore(setup, img, index);
        r, next := EmitField(io, index, next);
        WroteBoth(faithful, start, mid, io.dev.State(), io.base + offset, EncodeUpTo(setup, img, index), code, r == Ok);
        if r != Ok {
          WroteShort(faithful, start, io.dev.State(), io.base + offset, EncodeUpTo(setup, img, index + 1), rest);
          return;
        }
      }
      return Ok;
    }

    // ----- probing and reading

    method ProbeSlotHeader(io: Backend, slot: Slot, requireCommitted: bool) returns (r: Status, info: Info)
      requires Valid() && io.Valid() && data != io.dev.cells
      modifies io.dev`steadyReads
      ensures io.dev.steadyReads + 1 >= old(io.dev.steadyReads)
      ensures io.dev.reliable || old(io.dev.steadyReads) > 0 || r == Ok ==>
        Probe(setup, io.geometry, io.Mem(), slot, requireCommitted) == if r == Ok then Found(info) else Missing(r)
      ensures Heard(if r == Ok then Found(info) else Missing(r), Probe(setup, io.geometry, io.Mem(), slot, requireCommitted))
    {
      hide WellFormed, DecodeHeader, Splice;
      info := Info(0, 0, 0, 0, 0, 0, 0, 0);
      var g := io.geometry;
      if (if slot == 0 then g.slotSize else 2 * g.slotSize) > g.storageSize {
        return ErrSize, info;
      }
      var base := if slot == 0 then 0 else g.slotSize;
      var header := new u8[HEADER_SIZE];
      ghost var before := header[..];
      var ok := io.Read(base, header, 0, HEADER_SIZE);
      if !ok {
        return ErrIo, info;
      }
      WholeSplice(before, io.Mem()[base..base + HEADER_SIZE]);
      r, info := ParseHeader(header);
      if r != Ok {
        return;
      }
      if (requireCommitted && info.state != COMMITTED)
         || (!requireCommitted && info.state != COMMITTED && info.state != UNCOMMITTED) {
        return ErrInvalid, info;
      }
      if info.formatVersion != FORMAT_VERSION {
        return ErrInvalid, info;
      }
      if info.schemaVersion != setup.schema.version || info.fingerprint != setup.fingerprint {
        return ErrVersion, info;
      }
      if info.entryCount != |setup.schema.entries| {
        return ErrInvalid, info;
      }
      if HEADER_SIZE + info.payloadLength > g.slotSize {
        return ErrSize, info;
      }
      return Ok, info;
    }

    method ReadTextBody(io: Backend, e: Entry, from: nat, length: nat, crc: u32) returns (r: Status, crc': u32)
      requires Valid() && io.Valid() && data != io.dev.cells
      requires e.offset + e.size <= data.Length && length < e.size && from <= |io.Mem()|
      modifies data, io.dev`steadyReads
      ensures r == Ok || r == ErrIo
      ensures r == Ok ==>
        && from + length <= |io.Mem()|
        && Data() == Splice(old(Data()), e.offset, io.Mem()[from..from + length] + Fill(e.size - length, 0))
        && crc' == Fold(crc, io.Mem()[from..from + length])
      ensures r != Ok ==> Data() == Splice(old(Data()), e.offset, Fill(e.size, 0))
      ensures r != Ok && io.dev.reliable ==> from + length > |io.Mem()|
    {
      hide WellFormed, Splice, Fill;
      ghost var before, mem := data[..], io.Mem();
      crc' := crc;
      FillInto(data, e.offset, e.size, 0);
      if length != 0 {
        ghost var cleared := data[..];
        var ok := io.Read(from, data, e.offset, length);
        if !ok {
          return ErrIo, crc;
        }
        SpliceInside(cleared, e.offset, mem[from..from + length]);
        crc' := Update(crc, data[e.offset..e.offset + length]);
      }
      TextLands(before, e.offset, e.size, mem[from..from + length]);
      data[e.offset + length] := 0;
      return Ok, crc';
    }

    method ReadTextInto(io: Backend, index: nat, pos: nat, crc: u32) returns (r: Status, next: nat, crc': u32)
      requires Valid() && io.Valid() && data != io.dev.cells && index < setup.Count() && pos <= |io.Mem()|
      modifies data, io.dev`steadyReads
      ensures io.dev.reliable || r == Ok ==>
        ReadText(setup.At(index), io.Mem(), old(Data()), pos) == Parse(r, Data(), next)
      ensures r != Ok ==> Data() == old(Data()) || Data() == Cleared(setup, old(Data()), index)
      ensures r == Ok ==> pos <= next <= |io.Mem()| && crc' == Fold(crc, io.Mem()[pos..next])
    {
      hide WellFormed, Splice, Fill, Fold, U16At, KindOf;
      var e := setup.At(index);
      ghost var mem := io.Mem();
      var lengthBytes := new u8[2];
      ghost var blank := lengthBytes[..];
      var ok := io.Read(pos, lengthBytes, 0, 2);
      if !ok {
        return ErrIo, pos, crc;
      }
      WholeSplice(blank, mem[pos..pos + 2]);
      crc' := Update(crc, lengthBytes[..]);
      U16Window(mem, pos);
      var length: nat := ReadU16(lengthBytes[..], 0);
      if length + 1 > e.size {
        return ErrInvalid, pos, crc';
      }
      r, crc' := ReadTextBody(io, e, pos + 2, length, crc');
      if r != Ok {
        return r, pos, crc';
      }
      ReadOn(crc, mem, pos, pos + 2, pos + 2 + length);
      return Ok, pos + 2 + length, crc';
    }

    method ReadBlobInto(io: Backend, index: nat, pos: nat, crc: u32) returns (r: Status, next: nat, crc': u32)
      requires Valid() && io.Valid() && data != io.dev.cells && index < setup.Count() && pos <= |io.Mem()|
      modifies data, io.dev`steadyReads
      ensures r != Ok ==> Data() == old(Data())
      ensures io.dev.reliable || r == Ok ==>
        ReadBlob(setup.At(index), io.Mem(), old(Data()), pos) == Parse(r, Data(), next)
      ensures r == Ok ==> pos <= next <= |io.Mem()| && crc' == Fold(crc, io.Mem()[pos..next])
    {
      hide WellFormed, Splice, Fold;
      var e := setup.At(index);
      ghost var before := data[..];
      var ok := io.Read(pos, data, e.offset, e.size);
      if !ok {
        return ErrIo, pos, crc;
      }
      SpliceInside(before, e.offset, io.Mem()[pos..pos + e.size]);
      crc' := Update(crc, data[e.offset..e.offset + e.size]);
      return Ok, pos + e.size, crc';
    }

    /** Reads the bytes of a scalar into a buffer of four. */
    method ReadScalarBytes(io: Backend, pos: nat, width: nat) returns (ok: bool, encoded: bytes)
      requires Valid() && io.Valid() && pos <= |io.Mem()| && width <= 4
      modifies io.dev`steadyReads
      ensures ok ==> pos + width <= |io.Mem()| && encoded == io.Mem()[pos..pos + width]
      ensures !ok && io.dev.reliable ==> pos + width > |io.Mem()|
    {
      hide WellFormed, Splice;
      var buffer := new u8[4];
      ghost var blank := buffer[..];
      ok := io.Read(pos, buffer, 0, width);
      encoded := buffer[..width];
      if ok {
        SpliceInside(blank, 0, io.Mem()[pos..pos + width]);
      }
    }

    method ReadScalarInto(io: Backend, index: nat, pos: nat, crc: u32) returns (r: Status, next: nat, crc': u32)
      requires Valid() && io.Valid() && data != io.dev.cells && index < setup.Count() && pos <= |io.Mem()|
      requires setup.At(index).Kind() != Text && setup.At(index).Kind() != Blob
      modifies data, io.dev`steadyReads
      ensures r != Ok ==> Data() == old(Data())
      ensures io.dev.reliable || r == Ok ==>
        ReadScalar(setup.platform, setup.At(index), io.Mem(), old(Data()), pos) == Parse(r, Data(), next)
      ensures r == Ok ==> pos <= next <= |io.Mem()| && crc' == Fold(crc, io.Mem()[pos..next])
    {
      hide WellFormed, Splice, Fold, KindOf, ExpectedSize, DecodeStatus, ReadScalar, Wire;
      ScalarDecodes(setup.platform, setup.At(index), io.Mem(), data[..], pos);
      var e := setup.At(index);
      var width := ExpectedSize(e.Kind());
      var ok, encoded := ReadScalarBytes(io, pos, width);
      if !ok {
        return ErrIo, pos, crc;
      }
      crc' := Update(crc, encoded);
      r := StoreScalar(index, encoded);
      return r, if r == Ok then pos + width else pos, crc';
    }

    /** Decodes the bytes of a scalar into its field. */
    method StoreScalar(index: nat, encoded: bytes) returns (r: Status)
      requires Valid() && index < setup.Count()
      requires setup.At(index).Kind() != Text && setup.At(index).Kind() != Blob
      requires |encoded| == ExpectedSize(setup.At(index).Kind())
      modifies data
      ensures r == DecodeStatus(setup.platform, setup.At(index), |encoded|)
      ensures Data() == if r == Ok then Splice(old(Data()), setup.At(index).offset, Wire(setup.platform, encoded)) else old(Data())
    {
      hide WellFormed, Splice, Wire;
      var e := setup.At(index);
      var field: bytes;
      r, field := DecodeFieldBytes(setup.platform, e, encoded);
      if r == Ok {
        CopyInto(data, e.offset, field);
      }
    }

    method ReadEntryInto(io: Backend, index: nat, pos: nat, crc: u32) returns (r: Status, next: nat, crc': u32)
      requires Valid() && io.Valid() && data != io.dev.cells && index < setup.Count() && pos <= |io.Mem()|
      modifies data, io.dev`steadyReads
      ensures io.dev.reliable || r == Ok ==>
        ReadEntry(setup, index, io.Mem(), old(Data()), pos) == Parse(r, Data(), next)
      ensures r != Ok ==>
        Data() == old(Data()) || (setup.At(index).Kind() == Text && Data() == Cleared(setup, old(Data()), index))
      ensures r == Ok ==> pos <= next <= |io.Mem()| && crc' == Fold(crc, io.Mem()[pos..next])
    {
      hide WellFormed, ReadText, ReadBlob, ReadScalar, Fold;
      match setup.At(index).Kind() {
        case Text =>
          r, next, crc' := ReadTextInto(io, index, pos, crc);
        case Blob =>
          r, next, crc' := ReadBlobInto(io, index, pos, crc);
        case _ =>
          r, next, crc' := ReadScalarInto(io, index, pos, crc);
      }
    }

    /** Clears the data and reads all fields into it, feeding the checksum. */
    method ReadFields(io: Backend, start: nat) returns (r: Status, pos: nat, crc: u32)
      requires Valid() && io.Valid() && data != io.dev.cells && start <= |io.Mem()|
      modifies data, io.dev`steadyReads
      ensures io.dev.reliable || r == Ok ==> Read(setup, io.Mem(), start) == Parse(r, Data(), pos)
      ensures r == Ok ==> start <= pos <= |io.Mem()| && crc == Fold(SEED, io.Mem()[start..pos])
      ensures PartlyRead(setup, io.Mem(), start, Data())
    {
      hide WellFormed, ReadEntry, Fold, Splice, Cleared, PartlyRead, ReadUpTo;
      ghost var mem := io.Mem();
      pos, crc := start, SEED;
      FoldStart(mem, start);
      FillInto(data, 0, data.Length, 0);
      WholeSplice(old(data[..]), Fill(data.Length, 0));
      ReadsNone(setup, mem, start);
      for index := 0 to |setup.schema.entries|
        invariant io.Mem() == mem
        invariant ReadUpTo(setup, mem, start, index) == Parse(Ok, Data(), pos)
        invariant start <= pos <= |mem| && crc == Fold(SEED, mem[start..pos])
      {
        ghost var before := Data();
        var next, crc';
        r, next, crc' := ReadEntryInto(io, index, pos, crc);
        ReadsMore(setup, mem, start, index, before, pos, Data());
        if r != Ok {
          if io.dev.reliable {
            FailureSticks(setup, mem, start, index + 1, setup.Count());
          }
          return r, next, crc;
        }
        ReadOn(SEED, mem, start, pos, next);
        pos, crc := next, crc';
      }
      ReadsAll(setup, mem, start);
      r := Ok;
    }

    /** Decodes a slot into the data buffer. If every read succeeded, status and
        buffer are what the specification says; success is always genuine, and
        after a failure the buffer is as before or partly read. */
    method LoadSlotIntoBuffer(io: Backend, slot: Slot, requireCommitted: bool) returns (r: Status)
      requires Valid() && io.Valid() && data != io.dev.cells
      modifies data, io.dev`steadyReads
      ensures io.dev.reliable || r == Ok ==>
        Loaded(r, Data()) == LoadSlot(setup, io.geometry, io.Mem(), slot, requireCommitted, old(Data()))
      ensures Data() == old(Data()) || PartlyRead(setup, io.Mem(), io.geometry.Base(slot) + HEADER_SIZE, Data())
    {
      hide WellFormed, Probe, Read, Fold, DataStatus, FieldsValid, PartlyRead, Heard;
      var info: Info;
      r, info := ProbeSlotHeader(io, slot, requireCommitted);
      if r != Ok {
        return;
      }
      var start := (if slot == 0 then 0 else io.geometry.slotSize) + HEADER_SIZE;
      var pos: nat, crc: u32;
      r, pos, crc := ReadFields(io, start);
      if r != Ok {
        return;
      }
      if pos - start != info.payloadLength {
        return ErrSize;
      }
      if Finalize(crc) != info.payloadCrc {
        return ErrCrc;
      }
      var valid := ValidateData(data[..]);
      if valid != Ok {
        return ErrInvalid;
      }
      return Ok;
    }

    // ----- load and save

    /** Tries both slots, one after the other. */
    method LoadEither(io: Backend, first: Slot) returns (r: Status)
      requires Valid() && io.Valid() && data != io.dev.cells
      modifies data, io.dev`steadyReads
      ensures r == Ok ==> exists slot: Slot :: Loaded(Ok, Data()) == LoadSlot(setup, io.geometry, io.Mem(), slot, true, [])
      ensures io.dev.reliable ==>
        var one := LoadSlot(setup, io.geometry, io.Mem(), first, true, old(Data()));
        if one.status == Ok then Loaded(r, Data()) == one
        else Loaded(r, Data()) == LoadSlot(setup, io.geometry, io.Mem(), Other(first), true, one.image)
    {
      hide WellFormed, LoadSlot;
      ghost var before := Data();
      r := LoadSlotIntoBuffer(io, first, true);
      if r == Ok {
        BufferIrrelevant(setup, io.geometry, io.Mem(), first, true, before, []);
        return;
      }
      before := Data();
      r := LoadSlotIntoBuffer(io, Other(first), true);
      BufferIrrelevant(setup, io.geometry, io.Mem(), Other(first), true, before, []);
    }

    /** On a device that reads reliably the outcome is the specified one; on any
        device success is genuine and failure leaves the defaults. */
    method LoadFromStorage(io: Backend) returns (r: Status)
      requires Valid() && io.Valid() && data != io.dev.cells
      modifies data, io.dev`steadyReads
      ensures io.dev.reliable ==> Loaded(r, Data()) == Load(setup, io.geometry, io.Mem(), old(Data()))
      ensures !io.geometry.Usable() ==> r == ErrSize && Data() == old(Data())
      ensures io.geometry.Usable() && r == Ok ==>
        exists slot: Slot :: Loaded(Ok, Data()) == LoadSlot(setup, io.geometry, io.Mem(), slot, true, [])
      ensures io.geometry.Usable() && r != Ok ==> Data() == Defaults(setup)
    {
      hide WellFormed, LoadSlot, Probe, Defaults;
      var g := io.geometry;
      if g.slotSize < HEADER_SIZE || g.storageSize < 2 * g.slotSize {
        return ErrSize;
      }
      ghost var mem, before := io.Mem(), Data();
      var r0, info0 := ProbeSlotHeader(io, 0, true);
      var r1, info1 := ProbeSlotHeader(io, 1, true);
      MissingNotLoaded(setup, g, mem);
      r := ErrInvalid;
      if r0 == Ok && r1 == Ok {
        if Newer(info1.generation, info0.generation) {
          r := LoadEither(io, 1);
        } else {
          r := LoadEither(io, 0);
        }
      } else if r0 == Ok {
        r := LoadSlotIntoBuffer(io, 0, true);
        BufferIrrelevant(setup, g, mem, 0, true, before, []);
      } else if r1 == Ok {
        r := LoadSlotIntoBuffer(io, 1, true);
        BufferIrrelevant(setup, g, mem, 1, true, before, []);
      }
      if r == Ok {
        return;
      }
      RestoreDefaults();
      if r0 == ErrCrc || r1 == ErrCrc {
        return ErrCrc;
      }
      if r0 == ErrVersion || r1 == ErrVersion {
        return ErrVersion;
      }
      if r0 == ErrMagic || r1 == ErrMagic {
        return ErrMagic;
      }
      return ErrInvalid;
    }

    /** Which slot to overwrite, and the generation to give the record, as they
        follow from what the probes said. */
    method ChooseTarget(io: Backend) returns (target: Slot, generation: u32, ghost p0: Probed, ghost p1: Probed)
      requires Valid() && io.Valid() && data != io.dev.cells
      modifies io.dev`steadyReads
      ensures BothHeard(setup, io.geometry, io.Mem(), p0, p1)
      ensures target == TargetFor(p0, p1) && generation == GenerationFor(p0, p1)
      ensures old(io.dev.SteadyFor(2)) ==> target == Target(setup, io.geometry, io.Mem())
      ensures old(io.dev.SteadyFor(2)) ==> generation == NextGeneration(setup, io.geometry, io.Mem())
    {
      hide WellFormed, Probe;
      target, generation := 0, 1;
      var r0, info0 := ProbeSlotHeader(io, 0, true);
      var r1, info1 := ProbeSlotHeader(io, 1, true);
      p0, p1 := if r0 == Ok then Found(info0) else Missing(r0), if r1 == Ok then Found(info1) else Missing(r1);
      if r0 == Ok && r1 == Ok {
        if Newer(info1.generation, info0.generation) {
          target, generation := 0, (info1.generation + 1) % 0x1_0000_0000;
        } else {
          target, generation := 1, (info0.generation + 1) % 0x1_0000_0000;
        }
      } else if r0 == Ok {
        target, generation := 1, (info0.generation + 1) % 0x1_0000_0000;
      } else if r1 == Ok {
        target, generation := 0, (info1.generation + 1) % 0x1_0000_0000;
      }
      if generation == 0 {
        generation := 1;
      }
    }

    /** Erases the slot and programs header and payload. */
    method ProgramRecord(io: Backend, target: Slot, header: array<u8>, ghost record: bytes) returns (r: Status)
      requires Valid() && io.Valid() && data != io.dev.cells && header != io.dev.cells
      requires io.geometry.Usable() && LayoutStatus(setup, Data()) == Ok
      requires header.Length == HEADER_SIZE && record == header[..] + Encode(setup, Data())
      requires |record| <= io.geometry.slotSize
      modifies io.dev`budget, io.dev.cells
      ensures r == Ok || r == ErrIo
      ensures Programmed(io.dev.faithful, old(io.dev.State()), io.dev.State(), io.base, io.geometry.storageSize,
                         io.geometry.Base(target), io.geometry.slotSize, record, r == Ok)
    {
      hide WellFormed, LayoutStatus, Encode, Wrote, Programmed, Fill;
      var slotSize := io.geometry.slotSize;
      var base := if target == 0 then 0 else slotSize;
      ghost var a, faithful, size, code := io.dev.State(), io.dev.faithful, io.geometry.storageSize, Encode(setup, Data());
      var ok := io.Erase(base, slotSize);
      ghost var b := io.dev.State();
      if !ok {
        ErasePhase(faithful, a, b, io.base, size, base, slotSize, record);
        return ErrIo;
      }
      ok := io.Write(base, header[..]);
      ghost var c := io.dev.State();
      if !ok {
        WroteShort(faithful, b, c, io.base + base, header[..], code);
        ProgramPhase(faithful, a, b, c, io.base, size, base, slotSize, record, false);
        return ErrIo;
      }
      r := SerializePayload(io, base + HEADER_SIZE);
      WroteBoth(faithful, b, c, io.dev.State(), io.base + base, header[..], code, r == Ok);
      ProgramPhase(faithful, a, b, io.dev.State(), io.base, size, base, slotSize, record, r == Ok);
    }

    /** Reads everything back, into the live data, which is left alone unless the
        header is the one written. */
    method VerifyRecord(io: Backend, target: Slot, header: array<u8>) returns (r: Status)
      requires Valid() && io.Valid() && data != io.dev.cells && io.geometry.Usable()
      requires header.Length == HEADER_SIZE && header != data
      modifies data, io.dev`steadyReads
      ensures r == Ok ==> Lies(io.Mem(), io.geometry.Base(target), header[..])
      ensures r == Ok || (io.dev.reliable && Lies(io.Mem(), io.geometry.Base(target), header[..])) ==>
        Loaded(r, Data()) == LoadSlot(setup, io.geometry, io.Mem(), target, false, old(Data()))
      ensures !Lies(io.Mem(), io.geometry.Base(target), header[..]) ==> Data() == old(Data())
      ensures Data() == old(Data()) || PartlyRead(setup, io.Mem(), io.geometry.Base(target) + HEADER_SIZE, Data())
    {
      hide WellFormed, LoadSlot, Splice, PartlyRead;
      var base := if target == 0 then 0 else io.geometry.slotSize;
      var verify := new u8[HEADER_SIZE];
      ghost var blank := verify[..];
      var ok := io.Read(base, verify, 0, HEADER_SIZE);
      if !ok {
        return ErrIo;
      }
      WholeSplice(blank, io.Mem()[base..base + HEADER_SIZE]);
      if verify[..] != header[..] {
        return ErrIo;
      }
      r := LoadSlotIntoBuffer(io, target, false);
    }

    /** Saves the data buffer. A refused save changes nothing. Any other save
        performs a prefix of the byte writes that put the record into the slot
        that follows from what the probes said, touches no other slot, and leaves
        the data untouched until all but the commit is written; on a faithful
        device data without a bool after a text too long stays valid. If the two
        probes read reliably, that slot is the one that is not preferred, and the
        save succeeds exactly when it performed all writes; with reliable reads
        throughout the whole outcome is the specified one. Even on a device that
        stores wrong bytes, success together with the commit byte in place means
        that load returns exactly what the data buffer holds, unless neither
        header was heard and the record in slot 1 hides the new one. */
    method SaveToStorage(io: Backend) returns (r: Status)
      requires Valid() && io.Valid() && data != io.dev.cells
      modifies data, io.dev`budget, io.dev`steadyReads, io.dev.cells
      ensures PlanSave(setup, io.geometry, old(io.Mem()), old(Data())).Refuse? ==>
        && r == PlanSave(setup, io.geometry, old(io.Mem()), old(Data())).why
        && Data() == old(Data()) && io.dev.State() == old(io.dev.State())
      ensures exists p0, p1 ::
        && BothHeard(setup, io.geometry, old(io.Mem()), p0, p1)
        && SavedUnder(setup, io.geometry, io.dev.faithful, io.base, old(io.dev.State()), old(Data()), r, io.dev.State(), Data(), p0, p1)
      ensures old(io.dev.budget) - io.dev.budget < io.geometry.slotSize + HEADER_SIZE + |Encode(setup, old(Data()))| ==>
        Data() == old(Data())
      ensures io.dev.faithful && FieldsValid(setup, old(Data())) && BoolsFirst(setup, old(Data())) ==>
        FieldsValid(setup, Data())
      ensures PlanSave(setup, io.geometry, old(io.Mem()), old(Data())).Go? && old(io.dev.SteadyFor(2)) ==>
        SaveKept(setup, io.geometry, io.dev.faithful, io.base, old(io.dev.State()), old(Data()), r, io.dev.State(), Data())
      ensures io.dev.faithful && io.dev.reliable ==>
        Saved(r, io.Mem(), Data()) == SaveResult(setup, io.geometry, old(io.Mem()), old(Data()), old(io.dev.budget))
    {
      hide WellFormed, LayoutStatus, Encode, SaveKept, Target, NextGeneration, HeaderBytes, Crc32, SaveResult, Probe,
        FieldsValid, BoolsFirst, Traced, OneSlotChanged, TargetFor, GenerationFor, Answers;
      var g := io.geometry;
      ghost var steady := io.dev.SteadyFor(2);
      ghost var m0, d0, start := io.Mem(), Data(), io.dev.State();
      SaveRefused(setup, g, m0, d0, io.dev.budget);
      if g.slotSize < HEADER_SIZE || g.storageSize < 2 * g.slotSize {
        RefusedUnder(setup, g, io.dev.faithful, io.base, start, d0, ErrSize);
        return ErrSize;
      }
      var length: nat, crc: u32;
      r, length, crc := ComputePayloadLayout();
      if r != Ok {
        RefusedUnder(setup, g, io.dev.faithful, io.base, start, d0, r);
        return;
      }
      if HEADER_SIZE + length > g.slotSize {
        RefusedUnder(setup, g, io.dev.faithful, io.base, start, d0, ErrSize);
        return ErrSize;
      }
      var target, generation, p0, p1 := ChooseTarget(io);
      var header := new u8[HEADER_SIZE];
      r := EncodeHeader(header, setup, generation, length % 0x1_0000_0000, crc, UNCOMMITTED);
      r := CarryOut(io, target, header, steady, p0, p1);
      assert SavedUnder(setup, g, io.dev.faithful, io.base, start, d0, r, io.dev.State(), Data(), p0, p1);
    }

    /** The writing half of a save; steady says that the slot and the header are
        the ones the protocol calls for. */
    method CarryOut(io: Backend, target: Slot, header: array<u8>, ghost steady: bool, ghost p0: Probed, ghost p1: Probed)
      returns (r: Status)
      requires Valid() && io.Valid() && data != io.dev.cells
      requires PlanSave(setup, io.geometry, io.Mem(), Data()).Go?
      requires header.Length == HEADER_SIZE && header != data && header != io.dev.cells
      requires steady ==> target == Target(setup, io.geometry, io.Mem())
      requires steady ==> header[..] == NewHeader(setup, io.geometry, io.Mem(), Data())
      requires BothHeard(setup, io.geometry, io.Mem(), p0, p1) && target == TargetFor(p0, p1)
      requires header[..] == HeaderBytes(RecordInfo(setup, Encode(setup, Data()), GenerationFor(p0, p1)))
      modifies data, io.dev`budget, io.dev`steadyReads, io.dev.cells
      ensures OneSlotChanged(io.geometry, io.base, old(io.dev.cells[..]), io.dev.cells[..], target)
      ensures HEADER_SIZE + |Encode(setup, old(Data()))| <= io.geometry.slotSize
      ensures Traced(io.dev.faithful, old(io.dev.State()), io.dev.State(), io.base, io.geometry.storageSize,
                     io.geometry.Base(target), io.geometry.slotSize, header[..] + Encode(setup, old(Data())))
      ensures r == Ok ==> Answers(setup, io.geometry, io.base, old(io.dev.State()), io.dev.State(), Data(), p0, p1)
      ensures r == Ok <==>
        old(io.dev.budget) - io.dev.budget == io.geometry.slotSize + HEADER_SIZE + |Encode(setup, old(Data()))| + 1
      ensures old(io.dev.budget) - io.dev.budget < io.geometry.slotSize + HEADER_SIZE + |Encode(setup, old(Data()))| ==>
        Data() == old(Data())
      ensures io.dev.faithful && BoolsFirst(setup, old(Data())) ==> FieldsValid(setup, Data())
      ensures steady ==>
        SaveKept(setup, io.geometry, io.dev.faithful, io.base, old(io.dev.State()), old(Data()), r, io.dev.State(), Data())
      ensures steady && io.dev.faithful && io.dev.reliable ==>
        Saved(r, io.Mem(), Data()) == SaveResult(setup, io.geometry, old(io.Mem()), old(Data()), old(io.dev.budget))
    {
      hide WellFormed, LayoutStatus, Encode, Programmed, ReadyToCommit, SaveKept, LoadSlot,
        Target, NextGeneration, HeaderBytes, Crc32, Preferred, SaveResult, RecordInfo, OneSlotChanged, Traced,
        FieldsValid, BoolsFirst, DataStatus, Answers, BothHeard, TargetFor, GenerationFor;
      var g := io.geometry;
      ghost var m0, d0, start := io.Mem(), Data(), io.dev.State();
      PlanMeaning(setup, g, m0, d0);
      LayoutData(setup, d0);
      ghost var record := header[..] + Encode(setup, d0);
      r := ProgramRecord(io, target, header, record);
      ProgrammedTraced(io.dev.faithful, start, io.dev.State(), io.base, g.storageSize, g.Base(target), g.slotSize, record, r == Ok);
      ProgrammedOneSlot(g, io.dev.faithful, start, io.dev.State(), io.base, target, record, r == Ok);
      if r != Ok {
        if steady {
          SaveStopsEarly(setup, g, io.dev.faithful, io.base, start, d0, io.dev.State());
        }
        return;
      }
      if steady {
        SaveProgrammed(setup, g, io.dev.faithful, io.base, start, d0, io.dev.State());
      }
      r := VerifyAndCommit(io, target, header, record, steady, start, p0, p1);
    }

    /** Reads the record back and, if it is the one meant, commits it. */
    method VerifyAndCommit(io: Backend, target: Slot, header: array<u8>, ghost record: bytes, ghost steady: bool, ghost start: Shot,
                           ghost p0: Probed, ghost p1: Probed)
      returns (r: Status)
      requires Valid() && io.Valid() && data != io.dev.cells && io.geometry.Usable()
      requires io.base + io.geometry.storageSize <= |start.cells| == io.dev.cells.Length
      requires PlanSave(setup, io.geometry, Region(start, io.base, io.geometry.storageSize), Data()).Go?
      requires header.Length == HEADER_SIZE && header != data && header != io.dev.cells
      requires OneSlotChanged(io.geometry, io.base, start.cells, io.dev.cells[..], target)
      requires record == header[..] + Encode(setup, Data()) && |record| <= io.geometry.slotSize
      requires BothHeard(setup, io.geometry, Region(start, io.base, io.geometry.storageSize), p0, p1) && target == TargetFor(p0, p1)
      requires header[..] == HeaderBytes(RecordInfo(setup, Encode(setup, Data()), GenerationFor(p0, p1)))
      requires Programmed(io.dev.faithful, start, io.dev.State(), io.base, io.geometry.storageSize,
                          io.geometry.Base(target), io.geometry.slotSize, record, true)
      requires steady ==>
        && target == Target(setup, io.geometry, Region(start, io.base, io.geometry.storageSize))
        && header[..] == NewHeader(setup, io.geometry, Region(start, io.base, io.geometry.storageSize), Data())
        && ReadyToCommit(setup, io.geometry, io.dev.faithful, io.base, start, Data(), io.dev.State())
      modifies data, io.dev`budget, io.dev`steadyReads, io.dev.cells
      ensures OneSlotChanged(io.geometry, io.base, start.cells, io.dev.cells[..], target)
      ensures Traced(io.dev.faithful, start, io.dev.State(), io.base, io.geometry.storageSize,
                     io.geometry.Base(target), io.geometry.slotSize, record)
      ensures r == Ok ==> Answers(setup, io.geometry, io.base, start, io.dev.State(), Data(), p0, p1)
      ensures start.budget - io.dev.budget == io.geometry.slotSize + |record| + if r == Ok then 1 else 0
      ensures io.dev.faithful && BoolsFirst(setup, old(Data())) ==> FieldsValid(setup, Data())
      ensures steady ==>
        SaveKept(setup, io.geometry, io.dev.faithful, io.base, start, old(Data()), r, io.dev.State(), Data())
      ensures steady && io.dev.faithful && io.dev.reliable ==>
        Saved(r, io.Mem(), Data())
        == SaveResult(setup, io.geometry, Region(start, io.base, io.geometry.storageSize), old(Data()), start.budget)
    {
      hide WellFormed, LayoutStatus, ReadyToCommit, SaveKept, LoadSlot, Lies,
        Target, NewHeader, Cut, Writes, Wrote, SaveResult, OneSlotChanged, Traced, Programmed, FieldsValid,
        BoolsFirst, PartlyRead, Encode, AllKnown, DataStatus, PlanSave, HeaderBytes, RecordInfo, HeaderOf, Crc32, NextGeneration,
        Answers, BothHeard, TargetFor, GenerationFor;
      var g := io.geometry;
      ghost var d0, programmed, faithful := Data(), io.dev.State(), io.dev.faithful;
      PlanMeaning(setup, g, Region(start, io.base, g.storageSize), d0);
      LayoutData(setup, d0);
      ProgrammedTraced(faithful, start, programmed, io.base, g.storageSize, g.Base(target), g.slotSize, record, true);
      if faithful {
        PayloadInPlace(start, programmed, io.base, g.storageSize, g.Base(target), g.slotSize, header[..], Encode(setup, d0));
      }
      if steady {
        HeaderReady(setup, g, faithful, io.base, start, d0, programmed);
        SaveAtCommit(setup, g, faithful, io.base, start, d0, programmed);
      }
      r := VerifyRecord(io, target, header);
      if faithful && BoolsFirst(setup, d0) && Data() != d0 {
        PartlyReadValid(setup, d0, io.Mem(), g.Base(target) + HEADER_SIZE, Data());
      }
      if r != Ok {
        if steady {
          SaveUncommitted(setup, g, faithful, io.base, start, d0, r, programmed, Data());
        }
        return;
      }
      BufferIrrelevant(setup, g, io.Mem(), target, false, d0, []);
      InfoShape(setup, Encode(setup, d0), GenerationFor(p0, p1));
      r := CommitRecord(io, target, record, steady, start, d0, RecordInfo(setup, Encode(setup, d0), GenerationFor(p0, p1)), p0, p1);
    }

    /** Sets the state byte of a record that read back. */
    method CommitRecord(io: Backend, target: Slot, ghost record: bytes, ghost steady: bool, ghost start: Shot, ghost img: bytes,
                        ghost i: Info, ghost p0: Probed, ghost p1: Probed)
      returns (r: Status)
      requires Valid() && io.Valid() && data != io.dev.cells && setup.Holds(img) && io.geometry.Usable()
      requires io.base + io.geometry.storageSize <= |start.cells| == io.dev.cells.Length
      requires PlanSave(setup, io.geometry, Region(start, io.base, io.geometry.storageSize), img).Go?
      requires OneSlotChanged(io.geometry, io.base, start.cells, io.dev.cells[..], target)
      requires LoadSlot(setup, io.geometry, io.Mem(), target, false, []) == Loaded(Ok, Data())
      requires HEADER_SIZE <= |record| <= io.geometry.slotSize
      requires BothHeard(setup, io.geometry, Region(start, io.base, io.geometry.storageSize), p0, p1) && target == TargetFor(p0, p1)
      requires i == HeaderOf(setup, UNCOMMITTED, i.payloadLength, GenerationFor(p0, p1), i.payloadCrc)
      requires Lies(io.Mem(), io.geometry.Base(target), HeaderBytes(i))
      requires Programmed(io.dev.faithful, start, io.dev.State(), io.base, io.geometry.storageSize,
                          io.geometry.Base(target), io.geometry.slotSize, record, true)
      requires steady ==>
        && target == Target(setup, io.geometry, Region(start, io.base, io.geometry.storageSize))
        && ReadyToCommit(setup, io.geometry, io.dev.faithful, io.base, start, img, io.dev.State())
        && Lies(io.Mem(), io.geometry.Base(target), NewHeader(setup, io.geometry, Region(start, io.base, io.geometry.storageSize), img))
      modifies io.dev`budget, io.dev.cells
      ensures OneSlotChanged(io.geometry, io.base, start.cells, io.dev.cells[..], target)
      ensures Traced(io.dev.faithful, start, io.dev.State(), io.base, io.geometry.storageSize,
                     io.geometry.Base(target), io.geometry.slotSize, record)
      ensures r == Ok ==> Answers(setup, io.geometry, io.base, start, io.dev.State(), Data(), p0, p1)
      ensures io.dev.budget == if r == Ok then old(io.dev.budget) - 1 else old(io.dev.budget)
      ensures r == if old(io.dev.budget) == 0 then ErrIo else Ok
      ensures r != Ok ==> io.Mem() == old(io.Mem())
      ensures steady ==> SaveKept(setup, io.geometry, io.dev.faithful, io.base, start, img, r, io.dev.State(), Data())
      ensures steady && r == Ok && io.dev.faithful ==>
        var m0 := Region(start, io.base, io.geometry.storageSize);
        io.Mem() == Cut(setup, io.geometry, m0, img, Writes(setup, io.geometry, m0, img))
    {
      hide WellFormed, ReadyToCommit, SaveKept, LoadSlot, Lies, Target, NewHeader, Cut, Writes, PlanSave,
        Wrote, OneSlotChanged, Traced, Programmed, Answers, BothHeard, TargetFor, GenerationFor, HeaderBytes, HeaderOf;
      var g := io.geometry;
      ghost var programmed, faithful := io.dev.State(), io.dev.faithful;
      ProgrammedTraced(faithful, start, programmed, io.base, g.storageSize, g.Base(target), g.slotSize, record, true);
      var ok := io.Write(g.Base(target) + STATE_OFFSET, [COMMITTED]);
      CommitPhase(faithful, programmed, io.dev.State(), io.base, g.storageSize, g.Base(target), ok);
      if !ok {
        if steady {
          SaveUncommitted(setup, g, faithful, io.base, start, img, ErrIo, programmed, Data());
        }
        return ErrIo;
      }
      assert io.dev.budget == programmed.budget - 1;
      hide CommitDone;
      CommitTraced(faithful, start, programmed, io.dev.State(), io.base, g.storageSize, g.Base(target), g.slotSize, record);
      CommitAnswered(setup, g, faithful, io.base, start, programmed, io.dev.State(), i, Data(), p0, p1);
      CommitOneSlot(g, faithful, io.base, start.cells, programmed, io.dev.State(), target);
      if steady {
        SaveCommitted(setup, g, faithful, io.base, start, img, programmed, io.dev.State(), Data());
      }
      return Ok;
    }
  }
}
