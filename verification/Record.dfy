// Slots in storage: headers, probing, decoding a slot, which slot counts as
// newest, and what a save leaves behind after any number of byte writes.

module Record {
  import opened Wrappers
  import opened Words
  import opened Crc
  import opened Schema
  import opened Image
  import opened Payload

  const HEADER_SIZE: nat := 32
  const STATE_OFFSET: nat := 18
  const FORMAT_VERSION: u16 := 1
  const UNCOMMITTED: u8 := 0x3C
  const COMMITTED: u8 := 0xA5
  const ERASED: u8 := 0xFF
  const MAGIC: bytes := [77, 67, 70, 71]  // "MCFG"

  type Slot = x: int | 0 <= x < 2

  /** Twice a slot size does not wrap. */
  type SlotSize = x: int | 0 <= x <= 0x7FFF_FFFF_FFFF_FFFF

  /** The storage as the core sees it: two slots from address 0 on. */
  datatype Geometry = Geometry(storageSize: nat, slotSize: SlotSize) {
    predicate Usable() {
      HEADER_SIZE <= slotSize && 2 * slotSize <= storageSize
    }

    function Base(slot: Slot): nat {
      if slot == 0 then 0 else slotSize
    }
  }

  function Other(slot: Slot): Slot {
    1 - slot
  }

  // ----- headers

  datatype Info = Info(
    formatVersion: u16, schemaVersion: u32, fingerprint: u32, entryCount: u16,
    state: u8, payloadLength: u32, generation: u32, payloadCrc: u32)

  function HeaderOf(c: Setup, state: u8, payloadLength: u32, generation: u32, payloadCrc: u32): Info
    requires c.Valid()
  {
    Info(FORMAT_VERSION, c.schema.version, c.fingerprint, c.Count(), state, payloadLength, generation, payloadCrc)
  }

  function HeaderBytes(i: Info): (h: bytes)
    ensures |h| == HEADER_SIZE
  {
    MAGIC + U16Bytes(i.formatVersion) + U16Bytes(HEADER_SIZE)
    + U32Bytes(i.schemaVersion) + U32Bytes(i.fingerprint) + U16Bytes(i.entryCount) + [i.state, 0]
    + U32Bytes(i.payloadLength) + U32Bytes(i.generation) + U32Bytes(i.payloadCrc)
  }

  datatype Probed = Found(info: Info) | Missing(why: Status)

  function DecodeHeader(h: bytes): Probed
    requires |h| == HEADER_SIZE
  {
    if h[..4] != MAGIC then Missing(ErrMagic)
    else if U16At(h, 6) != HEADER_SIZE then Missing(ErrInvalid)
    else Found(Info(U16At(h, 4), U32At(h, 8), U32At(h, 12), U16At(h, 16), h[STATE_OFFSET],
                    U32At(h, 20), U32At(h, 24), U32At(h, 28)))
  }

  /** Decoding inverts encoding. */
  lemma HeaderRoundTrip(i: Info)
    ensures DecodeHeader(HeaderBytes(i)) == Found(i)
  {
    var h := HeaderBytes(i);
    assert Lies(h, 0, h);
    HeaderParts(h, 0, i);
    assert h[0..4] == MAGIC;
  }

  lemma U32Lies(mem: bytes, at: nat, v: u32)
    requires Lies(mem, at, U32Bytes(v))
    ensures U32At(mem, at) == v
  {
    U32RoundTrip(v);
    assert U32Bytes(v)[0..4] == mem[at..at + 4];
  }

  lemma HeaderParts(mem: bytes, at: nat, i: Info)
    requires Lies(mem, at, HeaderBytes(i))
    ensures Lies(mem, at, MAGIC)
    ensures U16At(mem, at + 4) == i.formatVersion && U16At(mem, at + 6) == HEADER_SIZE
    ensures U32At(mem, at + 8) == i.schemaVersion && U32At(mem, at + 12) == i.fingerprint
    ensures U16At(mem, at + 16) == i.entryCount && mem[at + 18] == i.state
    ensures U32At(mem, at + 20) == i.payloadLength && U32At(mem, at + 24) == i.generation
    ensures U32At(mem, at + 28) == i.payloadCrc
  {
    hide U16Bytes, U32Bytes, U16At, U32At, Lies;
    var h0 := MAGIC;
    var h1 := h0 + U16Bytes(i.formatVersion);
    var h2 := h1 + U16Bytes(HEADER_SIZE);
    var h3 := h2 + U32Bytes(i.schemaVersion);
    var h4 := h3 + U32Bytes(i.fingerprint);
    var h5 := h4 + U16Bytes(i.entryCount);
    var h6 := h5 + [i.state, 0];
    var h7 := h6 + U32Bytes(i.payloadLength);
    var h8 := h7 + U32Bytes(i.generation);
    LiesApart(mem, at, h8, U32Bytes(i.payloadCrc));
    LiesApart(mem, at, h7, U32Bytes(i.generation));
    LiesApart(mem, at, h6, U32Bytes(i.payloadLength));
    LiesApart(mem, at, h5, [i.state, 0]);
    LiesApart(mem, at, h4, U16Bytes(i.entryCount));
    LiesApart(mem, at, h3, U32Bytes(i.fingerprint));
    LiesApart(mem, at, h2, U32Bytes(i.schemaVersion));
    LiesApart(mem, at, h1, U16Bytes(HEADER_SIZE));
    LiesApart(mem, at, h0, U16Bytes(i.formatVersion));
    U16Lies(mem, at + 4, i.formatVersion);
    U16Lies(mem, at + 6, HEADER_SIZE);
    U32Lies(mem, at + 8, i.schemaVersion);
    U32Lies(mem, at + 12, i.fingerprint);
    U16Lies(mem, at + 16, i.entryCount);
    LiesAt(mem, at + 18, [i.state, 0], 0);
    U32Lies(mem, at + 20, i.payloadLength);
    U32Lies(mem, at + 24, i.generation);
    U32Lies(mem, at + 28, i.payloadCrc);
  }

  // ----- probing

  function CheckInfo(c: Setup, g: Geometry, i: Info, requireCommitted: bool): Status
    requires c.Valid()
  {
    if requireCommitted && i.state != COMMITTED then ErrInvalid
    else if !requireCommitted && i.state != COMMITTED && i.state != UNCOMMITTED then ErrInvalid
    else if i.formatVersion != FORMAT_VERSION then ErrInvalid
    else if i.schemaVersion != c.schema.version || i.fingerprint != c.fingerprint then ErrVersion
    else if i.entryCount != c.Count() then ErrInvalid
    else if HEADER_SIZE + i.payloadLength > g.slotSize then ErrSize
    else Ok
  }

  /** What the header of a slot says, or why it says nothing. */
  function Probe(c: Setup, g: Geometry, mem: bytes, slot: Slot, requireCommitted: bool): (r: Probed)
    requires c.Valid()
    ensures r.Found? ==>
      && g.Base(slot) + HEADER_SIZE <= |mem|
      && HEADER_SIZE + r.info.payloadLength <= g.slotSize
      && g.Base(slot) + g.slotSize <= g.storageSize
  {
    var base := g.Base(slot);
    if base + g.slotSize > g.storageSize then Missing(ErrSize)
    else if base + HEADER_SIZE > |mem| then Missing(ErrIo)
    else
      var h := DecodeHeader(mem[base..base + HEADER_SIZE]);
      if h.Missing? then h
      else
        var check := CheckInfo(c, g, h.info, requireCommitted);
        if check != Ok then Missing(check) else h
  }

  // ----- decoding a slot

  datatype Loaded = Loaded(status: Status, image: bytes)

  /** Reads a slot into a buffer that held buf before. */
  function LoadSlot(c: Setup, g: Geometry, mem: bytes, slot: Slot, requireCommitted: bool, buf: bytes): (r: Loaded)
    requires c.Valid()
    ensures c.Holds(buf) ==> c.Holds(r.image)
  {
    match Probe(c, g, mem, slot, requireCommitted)
    case Missing(why) => Loaded(why, buf)
    case Found(info) =>
      var start := g.Base(slot) + HEADER_SIZE;
      var r := Read(c, mem, start);
      Loaded(PayloadStatus(c, info, mem, start, r), r.image)
  }

  /** The checks made once all fields have been read. */
  function PayloadStatus(c: Setup, i: Info, mem: bytes, start: nat, r: Parse): Status
    requires c.Valid() && c.Holds(r.image)
    requires r.status == Ok ==> start <= r.pos <= |mem|
  {
    if r.status != Ok then r.status
    else if r.pos - start != i.payloadLength then ErrSize
    else if Crc32(mem[start..r.pos]) != i.payloadCrc then ErrCrc
    else if DataStatus(c, r.image) != Ok then ErrInvalid
    else Ok
  }

  // ----- choosing and loading

  /** The comparison of RFC 1982: is lhs later than rhs on the 32-bit circle? */
  function Newer(lhs: u32, rhs: u32): bool {
    0 < (lhs - rhs) % 0x1_0000_0000 < 0x8000_0000
  }

  /** The slot preferred by its header alone. */
  function Newest(p0: Probed, p1: Probed): Option<Slot> {
    if p0.Found? && p1.Found? then Some(if Newer(p1.info.generation, p0.info.generation) then 1 else 0)
    else if p0.Found? then Some(0)
    else if p1.Found? then Some(1)
    else None
  }

  function Preferred(c: Setup, g: Geometry, mem: bytes): Option<Slot>
    requires c.Valid()
  {
    Newest(Probe(c, g, mem, 0, true), Probe(c, g, mem, 1, true))
  }

  /** The error reported when defaults had to be used. */
  function FallbackStatus(s0: Status, s1: Status): Status {
    if s0 == ErrCrc || s1 == ErrCrc then ErrCrc
    else if s0 == ErrVersion || s1 == ErrVersion then ErrVersion
    else if s0 == ErrMagic || s1 == ErrMagic then ErrMagic
    else ErrInvalid
  }

  function ProbeStatus(p: Probed): Status {
    if p.Found? then Ok else p.why
  }

  function Fallback(c: Setup, g: Geometry, mem: bytes): Loaded
    requires c.Valid()
  {
    Loaded(FallbackStatus(ProbeStatus(Probe(c, g, mem, 0, true)), ProbeStatus(Probe(c, g, mem, 1, true))), Defaults(c))
  }

  /** What load leaves in a data buffer that held buf before. */
  function Load(c: Setup, g: Geometry, mem: bytes, buf: bytes): (r: Loaded)
    requires c.Valid()
    ensures c.Holds(buf) ==> c.Holds(r.image)
  {
    if !g.Usable() then Loaded(ErrSize, buf)
    else
      match Preferred(c, g, mem)
      case None => Fallback(c, g, mem)
      case Some(slot) =>
        var first := LoadSlot(c, g, mem, slot, true, buf);
        if first.status == Ok then first
        else
          var second := LoadSlot(c, g, mem, Other(slot), true, first.image);
          if second.status == Ok then second else Fallback(c, g, mem)
  }

  // ----- facts about loading

  ghost predicate Committed(c: Setup, g: Geometry, mem: bytes, slot: Slot)
    requires c.Valid()
  {
    Probe(c, g, mem, slot, true).Found?
  }

  ghost predicate Decodes(c: Setup, g: Geometry, mem: bytes, slot: Slot)
    requires c.Valid()
  {
    LoadSlot(c, g, mem, slot, true, []).status == Ok
  }

  /** Decoding a slot that probes does not look at what the buffer held. */
  lemma BufferIrrelevant(c: Setup, g: Geometry, mem: bytes, slot: Slot, requireCommitted: bool, a: bytes, b: bytes)
    requires c.Valid()
    ensures LoadSlot(c, g, mem, slot, requireCommitted, a).status == LoadSlot(c, g, mem, slot, requireCommitted, b).status
    ensures Probe(c, g, mem, slot, requireCommitted).Found? ==>
      LoadSlot(c, g, mem, slot, requireCommitted, a) == LoadSlot(c, g, mem, slot, requireCommitted, b)
    ensures LoadSlot(c, g, mem, slot, requireCommitted, a).status == Ok ==>
      Probe(c, g, mem, slot, requireCommitted).Found?
  {
    hide Probe, Read, PayloadStatus;
    ProbeMissingNotOk(c, g, mem, slot, requireCommitted);
  }

  /** Whatever a slot holds, an image loaded from it is valid data. */
  lemma LoadedIsValid(c: Setup, g: Geometry, mem: bytes, slot: Slot, requireCommitted: bool)
    requires c.Valid() && LoadSlot(c, g, mem, slot, requireCommitted, []).status == Ok
    ensures c.Holds(LoadSlot(c, g, mem, slot, requireCommitted, []).image)
    ensures FieldsValid(c, LoadSlot(c, g, mem, slot, requireCommitted, []).image)
  {
    hide Probe, DataStatus, FieldsValid, ReadUpTo;
    BufferIrrelevant(c, g, mem, slot, requireCommitted, [], []);
    ValidMeansOk(c, LoadSlot(c, g, mem, slot, requireCommitted, []).image);
  }

  lemma ProbeMissingNotOk(c: Setup, g: Geometry, mem: bytes, slot: Slot, requireCommitted: bool)
    requires c.Valid()
    ensures Probe(c, g, mem, slot, requireCommitted) != Missing(Ok)
    ensures Probe(c, g, mem, slot, requireCommitted) != Missing(ErrCrc)
  {
    hide U16At, U32At;
  }

  /** The image loaded depends on schema and storage only; on success it is the
      content of a committed slot, otherwise the default image; the checksum
      error is never reported. */
  lemma LoadMeaning(c: Setup, g: Geometry, mem: bytes, buf: bytes)
    requires c.Valid() && g.Usable()
    ensures Load(c, g, mem, buf) == Load(c, g, mem, [])
    ensures Load(c, g, mem, buf).status == Ok <==>
      exists slot: Slot :: Decodes(c, g, mem, slot)
    ensures Load(c, g, mem, buf).status == Ok ==>
      exists slot: Slot :: Decodes(c, g, mem, slot) && Load(c, g, mem, buf).image == LoadSlot(c, g, mem, slot, true, []).image
    ensures Load(c, g, mem, buf).status != Ok ==> Load(c, g, mem, buf).image == Defaults(c)
    ensures Load(c, g, mem, buf).status != ErrCrc
  {
    hide Probe, LoadSlot, Defaults;
    forall slot: Slot, b: bytes
      ensures LoadSlot(c, g, mem, slot, true, b).status == Ok ==>
                && Committed(c, g, mem, slot) && Decodes(c, g, mem, slot)
                && LoadSlot(c, g, mem, slot, true, b) == LoadSlot(c, g, mem, slot, true, [])
    {
      BufferIrrelevant(c, g, mem, slot, true, b, []);
    }
    ProbeMissingNotOk(c, g, mem, 0, true);
    ProbeMissingNotOk(c, g, mem, 1, true);
    assert Decodes(c, g, mem, 0) ==> Committed(c, g, mem, 0);
    assert Decodes(c, g, mem, 1) ==> Committed(c, g, mem, 1);
    if slot: Slot :| Decodes(c, g, mem, slot) {
      var p := Preferred(c, g, mem);
      BufferIrrelevant(c, g, mem, p.value, true, buf, []);
      BufferIrrelevant(c, g, mem, Other(p.value), true, LoadSlot(c, g, mem, p.value, true, buf).image, []);
      assert slot == p.value || slot == Other(p.value);
    }
  }

  /** When the slot preferred by its header decodes, it is the answer. */
  lemma PreferredAnswers(c: Setup, g: Geometry, mem: bytes, buf: bytes)
    requires c.Valid() && g.Usable()
    requires Preferred(c, g, mem).Some? ==> Decodes(c, g, mem, Preferred(c, g, mem).value)
    ensures Preferred(c, g, mem).None? ==> Load(c, g, mem, buf) == Fallback(c, g, mem)
    ensures Preferred(c, g, mem).Some? ==>
      Load(c, g, mem, buf) == LoadSlot(c, g, mem, Preferred(c, g, mem).value, true, [])
    ensures Load(c, g, mem, buf).status == Ok <==> Preferred(c, g, mem).Some?
    ensures Load(c, g, mem, buf).status != Ok ==> Load(c, g, mem, buf).image == Defaults(c)
  {
    hide Probe, LoadSlot, Defaults;
    if Preferred(c, g, mem).Some? {
      BufferIrrelevant(c, g, mem, Preferred(c, g, mem).value, true, buf, []);
    }
  }

  // ----- records of another schema

  /** A committed record counts only under the fingerprint it was saved with. */
  lemma OtherFingerprint(c: Setup, d: Setup, g: Geometry, mem: bytes, slot: Slot)
    requires c.Valid() && d.Valid() && c.fingerprint != d.fingerprint
    requires Committed(c, g, mem, slot)
    ensures Probe(d, g, mem, slot, true) == Missing(ErrVersion)
  {
    hide DecodeHeader, WellFormed;
  }

  /** Records found under one schema are reported as a version mismatch under a
      schema of another fingerprint, which then starts from its defaults. */
  lemma OtherSchemaStartsAfresh(c: Setup, d: Setup, g: Geometry, mem: bytes, buf: bytes)
    requires c.Valid() && d.Valid() && g.Usable() && c.fingerprint != d.fingerprint
    requires Preferred(c, g, mem).Some? && Preferred(d, g, mem).None?
    ensures Load(d, g, mem, buf) == Loaded(ErrVersion, Defaults(d))
  {
    OtherFingerprint(c, d, g, mem, Preferred(c, g, mem).value);
    ProbeMissingNotOk(d, g, mem, 0, true);
    ProbeMissingNotOk(d, g, mem, 1, true);
    hide Probe, Defaults;
  }

  /** Giving one field another type, even one of the same size, disowns every
      record saved before, wherever the field stands. */
  lemma RetypedFieldDisowns(c: Setup, d: Setup, i: nat, code: u8, g: Geometry, mem: bytes, slot: Slot)
    requires c.Valid() && c.fingerprint == Fingerprint(c.schema)
    requires d.Valid() && d.fingerprint == Fingerprint(d.schema)
    requires i < c.Count() && code != c.At(i).code
    requires d.schema == ReplaceEntry(c.schema, i, c.At(i).(code := code))
    requires Committed(c, g, mem, slot)
    ensures Probe(d, g, mem, slot, true) == Missing(ErrVersion)
    ensures !Decodes(d, g, mem, slot)
  {
    hide Fingerprint, ReplaceEntry, WellFormed, Probe;
    TypeChangeDetected(c.schema, i, code);
    OtherFingerprint(c, d, g, mem, slot);
  }
}
