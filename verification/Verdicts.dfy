// What each call reports and stores, told from the raw schema, data and storage:
// both which requests are accepted and which error the others get.

module Verdicts {
  import opened Wrappers
  import opened Words
  import opened Crc
  import opened Schema
  import opened Fingerprints
  import opened Image
  import opened Payload
  import opened Record
  import opened Save
  import opened Atomicity
  import opened Runs
  import opened Store
  import opened Eeprom
  import opened Format

  /** The build has floats, and the machine stores them as IEEE 754 words, low byte
      first. */
  ghost predicate MachineFloats(p: Platform) {
    p.floatEnabled && p.floatIeee && p.littleEndian
  }

  // ----- schemas

  /** The rules for a single entry, by type code. */
  ghost predicate GoodEntry(p: Platform, e: Entry, dataSize: nat) {
    && (e.key.Named? ==> |e.key.chars| <= 48)
    && 1 <= e.size && e.offset + e.size <= dataSize
    && (e.code == 1 || e.code == 2 || e.code == 3 ==> e.size == 1)
    && (e.code == 4 || e.code == 5 ==> e.size == 2)
    && (e.code == 6 || e.code == 7 || e.code == 8 ==> e.size == 4)
    && (e.code == 8 ==> p.floatEnabled)
    && (e.code == 9 ==> 2 <= e.size)
    && (e.preset.Absent? ==> e.preset.size == 0)
    && (e.preset.Given? ==> 1 <= e.code <= 10 && if e.code == 9 then |e.preset.value| < e.size else |e.preset.value| == e.size)
  }

  ghost predicate ShareByte(e: Entry, f: Entry) {
    exists k: nat :: Covers(e, k) && Covers(f, k)
  }

  ghost predicate ShareKey(e: Entry, f: Entry) {
    e.key.Named? && f.key.Named? && e.key.chars == f.key.chars
  }

  ghost predicate NoneShare(s: Schema) {
    forall i, j :: 0 <= i < j < |s.entries| ==> !ShareByte(s.entries[i], s.entries[j]) && !ShareKey(s.entries[i], s.entries[j])
  }

  lemma EntryAccepted(p: Platform, e: Entry, dataSize: nat)
    ensures EntryFits(p, e, dataSize) <==> GoodEntry(p, e, dataSize)
  {
    TypeTable(e.code);
  }

  lemma SharedByte(e: Entry, f: Entry)
    requires 0 < e.size && 0 < f.size
    ensures Disjoint(e, f) <==> !ShareByte(e, f)
  {
    if !Disjoint(e, f) {
      var k := if e.offset < f.offset then f.offset else e.offset;
      assert Covers(e, k) && Covers(f, k);
    }
  }

  /** A schema is accepted exactly if it has 1 to 64 entries and some data, every
      entry keeps the rules, and no two share a byte or a key. */
  lemma SchemaAccepted(p: Platform, s: Schema)
    ensures WellFormed(p, s) <==>
      && 1 <= |s.entries| <= 64 && 1 <= s.dataSize
      && (forall i :: 0 <= i < |s.entries| ==> GoodEntry(p, s.entries[i], s.dataSize))
      && NoneShare(s)
  {
    hide EntryFits, GoodEntry, Disjoint, ShareByte;
    forall i | 0 <= i < |s.entries|
      ensures FitsAt(p, s, i) <==> GoodEntry(p, s.entries[i], s.dataSize)
      ensures FitsAt(p, s, i) ==> 0 < s.entries[i].size
    {
      EntryAccepted(p, s.entries[i], s.dataSize);
      EntryNotEmpty(p, s.entries[i], s.dataSize);
    }
    if forall i :: 0 <= i < |s.entries| ==> FitsAt(p, s, i) {
      forall i, j | 0 <= i < j < |s.entries|
        ensures Apart(s, i, j) <==> !ShareByte(s.entries[i], s.entries[j]) && !ShareKey(s.entries[i], s.entries[j])
      {
        assert FitsAt(p, s, i) && FitsAt(p, s, j);
        SharedByte(s.entries[i], s.entries[j]);
      }
    }
  }

  lemma EntryNotEmpty(p: Platform, e: Entry, dataSize: nat)
    ensures EntryFits(p, e, dataSize) ==> 0 < e.size
  {
  }

  // ----- defaults

  /** The default image holds each default value, followed by zeros, and zeros where
      there is none; a text default ends where its value ends, or before. */
  lemma DefaultsFromPresets(c: Setup, i: nat)
    requires c.Valid() && i < c.Count()
    ensures
      var e, f := c.At(i), Field(Defaults(c), c.At(i));
      && (e.preset.Absent? ==> forall k :: 0 <= k < e.size ==> f[k] == 0)
      && (e.preset.Given? ==>
            && |e.preset.value| <= e.size && f[..|e.preset.value|] == e.preset.value
            && (forall k :: |e.preset.value| <= k < e.size ==> f[k] == 0)
            && (e.Kind() == Text ==> TextLen(f) <= |e.preset.value|))
  {
    hide WellFormed, TextLen, Defaults;
    DefaultsMeaning(c);
    var e, f := c.At(i), Field(Defaults(c), c.At(i));
    if e.preset.Given? && e.Kind() == Text {
      assert f[|e.preset.value|] == 0;
    }
  }

  /** A reset stores exactly that into its field and leaves the others alone. */
  lemma ResetFromPreset(c: Setup, img: bytes, i: nat)
    requires c.Valid() && c.Holds(img) && i < c.Count()
    ensures
      var e, f := c.At(i), Field(ResetField(c, img, i), c.At(i));
      && (e.preset.Absent? ==> forall k :: 0 <= k < e.size ==> f[k] == 0)
      && (e.preset.Given? ==>
            && |e.preset.value| <= e.size && f[..|e.preset.value|] == e.preset.value
            && (forall k :: |e.preset.value| <= k < e.size ==> f[k] == 0))
    ensures forall j :: 0 <= j < c.Count() && j != i ==> Field(ResetField(c, img, i), c.At(j)) == Field(img, c.At(j))
  {
    hide WellFormed, Splice;
    StoreFrame(c, img, i, DefaultField(c.At(i)));
  }

  // ----- setters

  /** What may be stored into a field. */
  ghost predicate Storable(e: Entry, v: bytes) {
    if e.code == 9 then |v| < e.size && 0 !in v
    else |v| == e.size && (e.code == 1 ==> v == [0] || v == [1])
  }

  /** The generic setter accepts exactly what may be stored into an existing field,
      and otherwise says what is wrong. */
  lemma SetExactly(c: Setup, i: nat, v: bytes)
    requires c.Valid()
    ensures SetStatus(c, i, v) == Ok <==> i < c.Count() && Storable(c.At(i), v)
    ensures SetStatus(c, i, v) == ErrNotFound <==> i >= c.Count()
    ensures SetStatus(c, i, v) == ErrSize <==>
      i < c.Count() && if c.At(i).code == 9 then |v| >= c.At(i).size else |v| != c.At(i).size
    ensures SetStatus(c, i, v) == ErrInvalid <==>
      && i < c.Count()
      && if c.At(i).code == 9 then |v| < c.At(i).size && 0 in v else |v| == c.At(i).size && !Storable(c.At(i), v)
  {
    hide WellFormed;
    if i < c.Count() {
      TypeTable(c.At(i).code);
    }
  }

  /** The typed setters agree with it, given the right type and float support. */
  lemma TypedSetExactly(c: Setup, i: nat, code: u8, v: bytes)
    requires c.Valid() && 1 <= code <= 8
    ensures SetScalarStatus(c, i, code, v) == Ok <==>
      i < c.Count() && c.At(i).code == code && SetStatus(c, i, v) == Ok && (code == 8 ==> MachineFloats(c.platform))
    ensures SetScalarStatus(c, i, code, v) == ErrNotFound <==> i >= c.Count()
    ensures SetScalarStatus(c, i, code, v) == ErrType <==> i < c.Count() && c.At(i).code != code
    ensures SetScalarStatus(c, i, code, v) == ErrSize <==>
      i < c.Count() && c.At(i).code == code && |v| != c.At(i).size
    ensures SetScalarStatus(c, i, code, v) == ErrUnsupported <==>
      i < c.Count() && c.At(i).code == code && |v| == c.At(i).size && code == 8 && !MachineFloats(c.platform)
    ensures SetScalarStatus(c, i, code, v) == ErrInvalid <==>
      i < c.Count() && c.At(i).code == code && code == 1 && |v| == 1 && v[0] > 1
  {
    hide WellFormed;
    TypeTable(code);
    if i < c.Count() && c.At(i).code == code {
      assert c.At(i).size == ExpectedSize(c.At(i).Kind());
    }
  }

  lemma TextSetExactly(c: Setup, i: nat, v: bytes)
    requires c.Valid()
    ensures SetTextStatus(c, i, v)
         == if i < c.Count() && c.At(i).code != 9 then ErrType else SetStatus(c, i, v)
  {
    hide WellFormed;
    if i < c.Count() {
      TypeTable(c.At(i).code);
    }
  }

  lemma BlobSetExactly(c: Setup, i: nat, v: bytes)
    requires c.Valid()
    ensures SetBlobStatus(c, i, v)
         == if i < c.Count() && c.At(i).code != 10 then ErrType else SetStatus(c, i, v)
  {
    hide WellFormed;
    if i < c.Count() {
      TypeTable(c.At(i).code);
    }
  }

  /** An accepted value is what the field holds afterwards, followed by zeros. */
  lemma StoredExactly(c: Setup, img: bytes, i: nat, v: bytes)
    requires c.Valid() && c.Holds(img) && i < c.Count() && Storable(c.At(i), v)
    ensures SetStatus(c, i, v) == Ok
    ensures
      var f := Field(PutIf(c, img, Ok, i, v), c.At(i));
      f[..|v|] == v && forall k :: |v| <= k < |f| ==> f[k] == 0
    ensures forall j :: 0 <= j < c.Count() && j != i ==> Field(PutIf(c, img, Ok, i, v), c.At(j)) == Field(img, c.At(j))
  {
    hide WellFormed, Splice;
    TypeTable(c.At(i).code);
    StoreFrame(c, img, i, Stored(c.At(i), v));
  }

  /** On valid data, what a getter hands out can be set again, and leaves the field
      as storage would remember it. */
  lemma GetThenSet(c: Setup, img: bytes, i: nat)
    requires c.Valid() && c.Holds(img) && FieldsValid(c, img) && i < c.Count()
    ensures
      var e, f := c.At(i), Field(img, c.At(i));
      var v := if e.Kind() == Text then f[..TextLen(f)] else f;
      && SetStatus(c, i, v) == Ok
      && Field(PutIf(c, img, Ok, i, v), e) == CanonField(e, f)
  {
    hide WellFormed, Splice, TextLen, KindOf;
    var e, f := c.At(i), Field(img, c.At(i));
    var v := if e.Kind() == Text then f[..TextLen(f)] else f;
    assert FieldStatus(c.platform, e, f) == Ok;
    StoreFrame(c, img, i, Stored(e, v));
  }

  // ----- valid data

  ghost predicate GoodField(c: Setup, img: bytes, i: nat)
    requires c.Valid() && c.Holds(img) && i < c.Count()
  {
    var e, f := c.At(i), Field(img, c.At(i));
    && (e.code == 1 ==> f == [0] || f == [1])
    && (e.code == 8 ==> MachineFloats(c.platform))
    && (e.code == 9 ==> 0 in f)
  }

  lemma FieldVerdict(c: Setup, img: bytes, i: nat)
    requires c.Valid() && c.Holds(img) && i < c.Count()
    ensures
      FieldStatus(c.platform, c.At(i), Field(img, c.At(i)))
      == if GoodField(c, img, i) then Ok else if c.At(i).code == 8 then ErrUnsupported else ErrInvalid
  {
    hide WellFormed;
    TypeTable(c.At(i).code);
    var f := Field(img, c.At(i));
    if TextLen(f) < |f| {
      assert f[TextLen(f)] == 0;
    }
  }

  /** Field i is bad and all before it are good. */
  ghost predicate FirstBad(c: Setup, img: bytes, i: nat)
    requires c.Valid() && c.Holds(img) && i < c.Count()
  {
    !GoodField(c, img, i) && AllGood(c, img, i)
  }

  ghost predicate AllGood(c: Setup, img: bytes, n: nat)
    requires c.Valid() && c.Holds(img) && n <= c.Count()
  {
    forall j :: 0 <= j < n ==> GoodField(c, img, j)
  }

  lemma {:induction false} GoodSoFar(c: Setup, img: bytes, n: nat)
    requires c.Valid() && c.Holds(img) && n <= c.Count()
    ensures DataStatusUpTo(c, img, n) == Ok <==> AllGood(c, img, n)
  {
    hide WellFormed, GoodField, FieldStatus, KindOf;
    if n == 0 {
    } else {
      GoodSoFar(c, img, n - 1);
      FieldVerdict(c, img, n - 1);
    }
  }

  lemma {:induction false} BadSticks(c: Setup, img: bytes, i: nat, n: nat)
    requires c.Valid() && c.Holds(img) && i < n <= c.Count() && FirstBad(c, img, i)
    ensures DataStatusUpTo(c, img, n) == if c.At(i).code == 8 then ErrUnsupported else ErrInvalid
    decreases n
  {
    hide WellFormed, GoodField, FieldStatus, KindOf, AllGood;
    if n == i + 1 {
      GoodSoFar(c, img, i);
      FieldVerdict(c, img, i);
    } else {
      BadSticks(c, img, i, n - 1);
    }
  }

  /** Data is valid exactly if bools are 0 or 1, texts hold a NUL and floats are
      supported; otherwise the first bad field decides the error. */
  lemma DataVerdict(c: Setup, img: bytes)
    requires c.Valid() && c.Holds(img)
    ensures DataStatus(c, img) == Ok <==> AllGood(c, img, c.Count())
    ensures forall i :: 0 <= i < c.Count() && FirstBad(c, img, i) ==>
      DataStatus(c, img) == if c.At(i).code == 8 then ErrUnsupported else ErrInvalid
  {
    hide WellFormed, DataStatusUpTo, FirstBad, AllGood;
    GoodSoFar(c, img, c.Count());
    forall i | 0 <= i < c.Count() && FirstBad(c, img, i)
      ensures DataStatus(c, img) == if c.At(i).code == 8 then ErrUnsupported else ErrInvalid
    {
      BadSticks(c, img, i, c.Count());
    }
  }

  // ----- what storage remembers of a field

  /** A text up to its end and then zeros; any other field as it is. */
  lemma CanonExactly(c: Setup, img: bytes, i: nat)
    requires c.Valid() && c.Holds(img) && i < c.Count()
    ensures
      var e, f, r := c.At(i), Field(img, c.At(i)), Field(Canon(c, img), c.At(i));
      && (e.code != 9 ==> r == f)
      && (e.code == 9 ==> r[..TextLen(f)] == f[..TextLen(f)] && forall k :: TextLen(f) <= k < e.size ==> r[k] == 0)
  {
    hide WellFormed, TextLen, Canon;
    TypeTable(c.At(i).code);
    CanonMeaning(c, img);
  }

  // ----- refused saves

  /** When a save goes ahead, and what it reports when it does not: too small slots
      before bad data, bad data before unknown types, these before a payload too
      large; and then it changes nothing. */
  lemma SaveRefusedExactly(c: Setup, g: Geometry, mem: bytes, img: bytes, budget: nat)
    requires c.Valid() && c.Holds(img) && g.storageSize <= |mem|
    ensures
      var slots := 32 <= g.slotSize && 2 * g.slotSize <= g.storageSize;
      var known := forall i :: 0 <= i < c.Count() ==> 1 <= c.At(i).code <= 10;
      var fits := 32 + |Encode(c, img)| <= g.slotSize;
      var r := SaveResult(c, g, mem, img, budget);
      && (PlanSave(c, g, mem, img).Go? <==> slots && DataStatus(c, img) == Ok && known && fits)
      && (!slots ==> r == Saved(ErrSize, mem, img))
      && (slots && DataStatus(c, img) != Ok ==> r == Saved(DataStatus(c, img), mem, img))
      && (slots && DataStatus(c, img) == Ok && !known ==> r == Saved(ErrType, mem, img))
      && (slots && DataStatus(c, img) == Ok && known && !fits ==> r == Saved(ErrSize, mem, img))
  {
    hide WellFormed, DataStatus, Encode, Target, NextGeneration, RecordBytes, SaveResult;
    SaveRefused(c, g, mem, img, budget);
    forall i | 0 <= i < c.Count()
      ensures c.At(i).Kind() == Unknown <==> !(1 <= c.At(i).code <= 10)
    {
      TypeTable(c.At(i).code);
    }
  }

  /** What a save that goes ahead reports: an I/O error if power ends before the
      read-back or at the commit, otherwise what the read-back says. */
  lemma SaveVerdict(c: Setup, g: Geometry, mem: bytes, img: bytes, budget: nat)
    requires c.Valid() && c.Holds(img) && g.storageSize <= |mem|
    requires PlanSave(c, g, mem, img).Go?
    ensures
      var all := g.slotSize + 32 + |Encode(c, img)| + 1;
      var status := SaveResult(c, g, mem, img, budget).status;
      && (status == Ok <==> budget >= all && ReadsItself(c, Encode(c, img)))
      && (budget < all - 1 ==> status == ErrIo)
      && (budget == all - 1 && ReadsItself(c, Encode(c, img)) ==> status == ErrIo)
  {
    hide WellFormed, Encode, LoadSlot, Cut, PlanSave, Writes, ReadsItself, SelfRead;
    WritesCount(c, g, mem, img);
    ProgrammedParses(c, g, mem, img);
    var programmed := Cut(c, g, mem, img, Writes(c, g, mem, img) - 1);
    BufferIrrelevant(c, g, programmed, Target(c, g, mem), false, img, []);
    PlanMeaning(c, g, mem, img);
    hide Target;
  }

  // ----- reading

  /** Why reading an entry stops: the storage ends; a text's length has no room for
      its end; the type is unknown; floats are not supported. */
  lemma ReadVerdict(c: Setup, i: nat, mem: bytes, img: bytes, pos: nat)
    requires c.Valid() && i < c.Count() && c.Holds(img)
    ensures
      var e, r := c.At(i), ReadEntry(c, i, mem, img, pos);
      if e.code == 9 then
        if pos + 2 > |mem| then r.status == ErrIo
        else
          var len := Number(mem[pos..pos + 2]);
          if len >= e.size then r.status == ErrInvalid
          else if pos + 2 + len > |mem| then r.status == ErrIo
          else r.status == Ok && r.pos == pos + 2 + len
      else
        var width := if 1 <= e.code <= 10 then e.size else 0;
        if pos + width > |mem| then r.status == ErrIo
        else if !(1 <= e.code <= 10) then r.status == ErrType
        else if e.code == 8 && !MachineFloats(c.platform) then r.status == ErrUnsupported
        else r.status == Ok && r.pos == pos + width
  {
    hide WellFormed, Splice, Wire, Number;
    TypeTable(c.At(i).code);
  }

  /** Why a payload behind a good header is refused. */
  lemma SlotVerdict(c: Setup, g: Geometry, mem: bytes, slot: Slot, requireCommitted: bool, buf: bytes)
    requires c.Valid() && g.Usable() && g.storageSize <= |mem|
    requires Probe(c, g, mem, slot, requireCommitted).Found?
    ensures
      var at := (if slot == 0 then 0 else g.slotSize) + 32;
      var i, r := Probe(c, g, mem, slot, requireCommitted).info, Read(c, mem, at);
      var status := LoadSlot(c, g, mem, slot, requireCommitted, buf).status;
      && (r.status != Ok ==> status == r.status)
      && (r.status == Ok && r.pos != at + i.payloadLength ==> status == ErrSize)
      && (r.status == Ok && r.pos == at + i.payloadLength ==>
            if Crc32(mem[at..r.pos]) != i.payloadCrc then status == ErrCrc
            else if FieldsValid(c, r.image) then status == Ok else status == ErrInvalid)
  {
    hide WellFormed, Probe, ReadUpTo, DataStatus, FieldsValid, Crc32;
    ValidMeansOk(c, Read(c, mem, g.Base(slot) + HEADER_SIZE).image);
  }

  // ----- which record is newest, and what comes next

  /** The newest of two found headers is that of slot 1 exactly if its generation is
      1 to 2^31 - 1 steps ahead; a tie goes to slot 0. */
  lemma NewestExactly(c: Setup, g: Geometry, mem: bytes)
    requires c.Valid()
    ensures
      var p0, p1 := Probe(c, g, mem, 0, true), Probe(c, g, mem, 1, true);
      && (p0.Missing? && p1.Missing? ==> Preferred(c, g, mem) == None)
      && (p0.Found? && p1.Missing? ==> Preferred(c, g, mem) == Some(0))
      && (p0.Missing? && p1.Found? ==> Preferred(c, g, mem) == Some(1))
      && (p0.Found? && p1.Found? ==>
            && Preferred(c, g, mem).Some?
            && (Preferred(c, g, mem).value == 1 <==>
                  exists d :: 1 <= d <= 0x7FFF_FFFF && p1.info.generation == Ahead(p0.info.generation, d)))
  {
    hide Probe, Newer;
    var p0, p1 := Probe(c, g, mem, 0, true), Probe(c, g, mem, 1, true);
    if p0.Found? && p1.Found? {
      NewerExactly(p1.info.generation, p0.info.generation);
    }
  }

  /** A save goes to the other slot, with the next generation; the first one goes to
      slot 0 with generation 1. */
  lemma NextExactly(c: Setup, g: Geometry, mem: bytes)
    requires c.Valid()
    ensures Preferred(c, g, mem).None? ==> Target(c, g, mem) == 0 && NextGeneration(c, g, mem) == 1
    ensures Preferred(c, g, mem).Some? ==>
      var s := Preferred(c, g, mem).value;
      var p := Probe(c, g, mem, s, true);
      && Target(c, g, mem) == 1 - s && p.Found?
      && NextGeneration(c, g, mem) == if p.info.generation == 0xFFFF_FFFF then 1 else p.info.generation + 1
  {
    hide Probe, Newer;
  }

  // ----- what load reports

  ghost predicate OtherVersion(c: Setup, g: Geometry, mem: bytes, slot: Slot)
    requires c.Valid() && g.Usable() && g.storageSize <= |mem|
  {
    Acceptable(mem, g.Base(slot), true) && !OfSchema(c, mem, g.Base(slot))
  }

  ghost predicate NoMagic(g: Geometry, mem: bytes, slot: Slot)
    requires g.Usable() && g.storageSize <= |mem|
  {
    !Magic(mem, g.Base(slot))
  }

  /** When no slot decodes, load leaves the defaults and reports another version if
      some committed header of this format is of one, else missing magic if some
      slot does not begin with it, else invalid storage. */
  lemma LoadReport(c: Setup, g: Geometry, mem: bytes, buf: bytes)
    requires c.Valid() && g.Usable() && g.storageSize <= |mem|
    requires !Decodes(c, g, mem, 0) && !Decodes(c, g, mem, 1)
    ensures Load(c, g, mem, buf).image == Defaults(c)
    ensures Load(c, g, mem, buf).status == ErrVersion <==> exists slot: Slot :: OtherVersion(c, g, mem, slot)
    ensures Load(c, g, mem, buf).status == ErrMagic <==>
      && !(exists slot: Slot :: OtherVersion(c, g, mem, slot))
      && exists slot: Slot :: NoMagic(g, mem, slot)
    ensures Load(c, g, mem, buf).status == ErrInvalid <==>
      && !(exists slot: Slot :: OtherVersion(c, g, mem, slot))
      && !(exists slot: Slot :: NoMagic(g, mem, slot))
  {
    hide WellFormed, Probe, LoadSlot, Defaults, Acceptable, OfSchema, Magic;
    LoadMeaning(c, g, mem, buf);
    OnlyFallback(c, g, mem, buf);
    ProbeExactly(c, g, mem, 0, true);
    ProbeExactly(c, g, mem, 1, true);
    var v0, v1 := OtherVersion(c, g, mem, 0), OtherVersion(c, g, mem, 1);
    var m0, m1 := NoMagic(g, mem, 0), NoMagic(g, mem, 1);
    assert (exists slot: Slot :: OtherVersion(c, g, mem, slot)) <==> v0 || v1;
    assert (exists slot: Slot :: NoMagic(g, mem, slot)) <==> m0 || m1;
  }

  lemma OnlyFallback(c: Setup, g: Geometry, mem: bytes, buf: bytes)
    requires c.Valid() && g.Usable()
    requires !Decodes(c, g, mem, 0) && !Decodes(c, g, mem, 1)
    ensures Load(c, g, mem, buf) == Fallback(c, g, mem)
  {
    hide WellFormed, Probe, LoadSlot, Fallback;
    var p := Preferred(c, g, mem);
    if p.Some? {
      assert !Decodes(c, g, mem, p.value) && !Decodes(c, g, mem, Other(p.value));
      BufferIrrelevant(c, g, mem, p.value, true, buf, []);
      BufferIrrelevant(c, g, mem, Other(p.value), true, LoadSlot(c, g, mem, p.value, true, buf).image, []);
    }
  }

  /** Load refuses slots too small for a header, or too large for the storage, and
      leaves the data alone. */
  lemma LoadRefused(c: Setup, g: Geometry, mem: bytes, buf: bytes)
    requires c.Valid()
    ensures g.slotSize < 32 || g.storageSize < 2 * g.slotSize ==> Load(c, g, mem, buf) == Loaded(ErrSize, buf)
    ensures !(g.slotSize < 32 || g.storageSize < 2 * g.slotSize) ==> Load(c, g, mem, buf) == Load(c, g, mem, [])
  {
    hide WellFormed, Preferred, LoadSlot, Fallback;
    if g.Usable() {
      LoadMeaning(c, g, mem, buf);
    }
  }

  /** Blank as far as load can tell: slot 1 without magic, slot 0 not committed. */
  ghost predicate Unwritten(g: Geometry, mem: bytes)
    requires g.Usable() && g.storageSize <= |mem|
  {
    !Acceptable(mem, 0, true) && !Magic(mem, g.slotSize)
  }

  lemma UnwrittenReport(c: Setup, g: Geometry, mem: bytes, buf: bytes)
    requires c.Valid() && g.Usable() && g.storageSize <= |mem| && Unwritten(g, mem)
    ensures Load(c, g, mem, buf) == Loaded(ErrMagic, Defaults(c))
  {
    hide WellFormed, Probe, LoadSlot, Defaults, Load, OfSchema, Magic;
    ProbeExactly(c, g, mem, 0, true);
    ProbeExactly(c, g, mem, 1, true);
    BufferIrrelevant(c, g, mem, 0, true, [], []);
    BufferIrrelevant(c, g, mem, 1, true, [], []);
    assert NoMagic(g, mem, 1);
    assert !OtherVersion(c, g, mem, 0) && !OtherVersion(c, g, mem, 1);
    LoadReport(c, g, mem, buf);
  }

  /** Load from erased storage reports missing magic. */
  lemma ErasedReport(c: Setup, g: Geometry, n: nat, buf: bytes)
    requires c.Valid() && g.Usable() && g.storageSize <= n
    ensures Load(c, g, Fill(n, ERASED), buf) == Loaded(ErrMagic, Defaults(c))
  {
    hide Load, WellFormed;
    UnwrittenReport(c, g, Fill(n, ERASED), buf);
  }

  /** Saves that did not get through keep it so. */
  lemma StepUnwritten(c: Setup, g: Geometry, w: World, a: Attempt)
    requires c.Valid() && c.Holds(a.data) && Reflects(c, g, w) && w.saves == 0
    requires g.Usable() && g.storageSize <= |w.mem| && Unwritten(g, w.mem)
    requires Step(c, g, w, a).last.None?
    ensures Unwritten(g, Step(c, g, w, a).mem)
  {
    hide WellFormed, PlanSave, Cut, Writes, LoadSlot, Target, SaveResult, Reflects, Acceptable, Magic;
    SaveRefused(c, g, w.mem, a.data, a.budget);
    if PlanSave(c, g, w.mem, a.data).Go? {
      SaveOutcome(c, g, w.mem, a.data, a.budget);
      FreshTarget(c, g, w);
      var k := StopsAt(c, g, w.mem, a.data, a.budget);
      if k == 0 {
        NothingWritten(c, g, w.mem, a.data);
      } else {
        TornUnwritten(c, g, w.mem, a.data, k);
      }
    }
  }

  lemma FreshTarget(c: Setup, g: Geometry, w: World)
    requires c.Valid() && Reflects(c, g, w) && w.saves == 0
    ensures Target(c, g, w.mem) == 0
  {
    hide Probe, LoadSlot;
  }

  lemma TornUnwritten(c: Setup, g: Geometry, mem: bytes, img: bytes, k: nat)
    requires c.Valid() && c.Holds(img) && g.Usable() && g.storageSize <= |mem|
    requires PlanSave(c, g, mem, img).Go? && 0 < k < Writes(c, g, mem, img)
    requires Target(c, g, mem) == 0 && Unwritten(g, mem)
    ensures Unwritten(g, Cut(c, g, mem, img, k))
  {
    hide WellFormed, PlanSave, AfterBytes, Encode, HeaderBytes, RecordInfo, Target, NextGeneration, LayoutStatus;
    PlanMeaning(c, g, mem, img);
    var i := RecordInfo(c, Encode(c, img), NextGeneration(c, g, mem));
    TornBytes(mem, 0, g.slotSize, i, Encode(c, img), k);
    TraceFrame(mem, 0, g.slotSize, HeaderBytes(i) + Encode(c, img), k);
  }

  /** Until the first save of a run from erased storage gets through, load reports
      missing magic and leaves the defaults. */
  lemma NothingSavedReport(c: Setup, g: Geometry, n: nat, run: seq<Attempt>, buf: bytes)
    requires c.Valid() && Attempts(c, run) && g.Usable() && g.storageSize <= n
    requires LastLanded(c, g, run).None?
    ensures Load(c, g, Run(c, g, World(Fill(n, ERASED), None, 0), run).mem, buf) == Loaded(ErrMagic, Defaults(c))
  {
    hide Load, Step, Lands, SelfRead, WellFormed, Unwritten, Reflects;
    RunUnwritten(c, g, n, run);
    UnwrittenReport(c, g, Run(c, g, World(Fill(n, ERASED), None, 0), run).mem, buf);
  }

  lemma {:induction false} RunUnwritten(c: Setup, g: Geometry, n: nat, run: seq<Attempt>)
    requires c.Valid() && Attempts(c, run) && g.Usable() && g.storageSize <= n
    requires LastLanded(c, g, run).None?
    ensures Unwritten(g, Run(c, g, World(Fill(n, ERASED), None, 0), run).mem)
    ensures Reflects(c, g, Run(c, g, World(Fill(n, ERASED), None, 0), run))
    ensures Run(c, g, World(Fill(n, ERASED), None, 0), run).saves == 0
  {
    var start := World(Fill(n, ERASED), None, 0);
    if run == [] {
      ErasedIsFresh(c, g, n);
    } else {
      hide Step, Lands, SelfRead, WellFormed, Unwritten, Reflects, Fill;
      var front, last := run[..|run| - 1], run[|run| - 1];
      RunUnwritten(c, g, n, front);
      LastIsLanded(c, g, Fill(n, ERASED), run);
      var w := Run(c, g, start, front);
      StepUnwritten(c, g, w, last);
      StepReflects(c, g, w, last);
      NoneMeansNoSaves(c, g, Step(c, g, w, last));
    }
  }

  lemma NoneMeansNoSaves(c: Setup, g: Geometry, w: World)
    requires c.Valid() && Reflects(c, g, w) && w.last.None?
    ensures w.saves == 0
  {
    hide LoadSlot, Probe;
  }

  // ----- regions

  /** Which regions the EEPROM set-up accepts: those of an even size of at least 64
      that end within the device, its last byte included, and those whose end
      wraps to there. */
  lemma RegionExactly(size: u64, base: u64, totalSize: u64)
    ensures totalSize == 0 ==>
      (RegionAccepted(size, base, 0) <==> base + 64 <= size && (size - base) % 2 == 0)
    ensures totalSize != 0 && base + totalSize <= 0xFFFF_FFFF_FFFF_FFFF ==>
      (RegionAccepted(size, base, totalSize) <==> base + totalSize <= size && 64 <= totalSize && totalSize % 2 == 0)
    ensures base + totalSize > 0xFFFF_FFFF_FFFF_FFFF ==>
      (RegionAccepted(size, base, totalSize) <==>
         base < size && base + totalSize - 0x1_0000_0000_0000_0000 <= size && 64 <= totalSize && totalSize % 2 == 0)
  {
    Add64Wraps(base, totalSize);
    if base < size {
      Add64Wraps(base, size - base);
    }
    hide Add64;
  }

  // ----- changed schemas

  /** Resizing one field, by less than would change two bytes of its size, disowns
      every record saved before. */
  lemma ResizedFieldDisowns(c: Setup, d: Setup, i: nat, size: u64, k: nat, g: Geometry, mem: bytes, slot: Slot)
    requires c.Valid() && c.fingerprint == Fingerprint(c.schema)
    requires d.Valid() && d.fingerprint == Fingerprint(d.schema)
    requires i < c.Count() && OneByteApart(c.At(i).size, size, k)
    requires d.schema == ReplaceEntry(c.schema, i, c.At(i).(size := size))
    requires Committed(c, g, mem, slot)
    ensures Probe(d, g, mem, slot, true) == Missing(ErrVersion)
    ensures !Decodes(d, g, mem, slot)
  {
    hide Fingerprint, ReplaceEntry, WellFormed, Probe, OneByteApart;
    ResizeDetected(c.schema, i, size, k);
    OtherFingerprint(c, d, g, mem, slot);
  }

  /** So does moving one. */
  lemma MovedFieldDisowns(c: Setup, d: Setup, i: nat, offset: u64, k: nat, g: Geometry, mem: bytes, slot: Slot)
    requires c.Valid() && c.fingerprint == Fingerprint(c.schema)
    requires d.Valid() && d.fingerprint == Fingerprint(d.schema)
    requires i < c.Count() && OneByteApart(c.At(i).offset, offset, k)
    requires d.schema == ReplaceEntry(c.schema, i, c.At(i).(offset := offset))
    requires Committed(c, g, mem, slot)
    ensures Probe(d, g, mem, slot, true) == Missing(ErrVersion)
    ensures !Decodes(d, g, mem, slot)
  {
    hide Fingerprint, ReplaceEntry, WellFormed, Probe, OneByteApart;
    MoveDetected(c.schema, i, offset, k);
    OtherFingerprint(c, d, g, mem, slot);
  }
}
