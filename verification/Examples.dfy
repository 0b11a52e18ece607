// Concrete inputs on which the code falls short of what one might expect. The
// exact conditions are proved elsewhere; here are witnesses that they matter.

module Examples {
  import opened Wrappers
  import opened Words
  import opened Crc
  import opened Schema
  import opened Image
  import opened Payload
  import opened Record
  import opened Save
  import opened Atomicity
  import opened Runs
  import opened Misread
  import opened Damage
  import opened Eeprom
  import opened Unheard

  const HOST: Platform := Platform(true, true, true)

  // ----- schemas with one field

  /** A schema with a single, unnamed field. */
  function Single(size: u64, code: u8, preset: Preset): Setup {
    var schema := Schema([Entry(NoKey, 0, size, code, preset)], 1, size);
    Setup(HOST, schema, Fingerprint(schema))
  }

  ghost predicate OneField(c: Setup, size: u64, code: u8) {
    && c.Valid() && c.platform == HOST && c.Count() == 1 && c.schema.dataSize == size
    && c.At(0).offset == 0 && c.At(0).size == size && c.At(0).code == code
  }

  lemma SingleIsValid(size: u64, code: u8, preset: Preset)
    requires size <= MAX_OBJECT
    requires EntryFits(HOST, Entry(NoKey, 0, size, code, preset), size)
    ensures OneField(Single(size, code, preset), size, code)
    ensures Single(size, code, preset).At(0).preset == preset
  {
    hide Fingerprint;
    var s := Single(size, code, preset).schema;
    assert FitsAt(HOST, s, 0);
  }

  lemma OneValid(c: Setup, img: bytes, size: u64, code: u8)
    requires OneField(c, size, code) && c.Holds(img)
    ensures Field(img, c.At(0)) == img
    ensures DataStatus(c, img) == FieldStatus(c.platform, c.At(0), img)
  {
    hide WellFormed, FieldStatus;
    assert DataStatusUpTo(c, img, 0) == Ok;
  }

  lemma OneEncoded(c: Setup, img: bytes, size: u64, code: u8)
    requires OneField(c, size, code) && c.Holds(img)
    ensures Encode(c, img) == EncodeField(c.platform, c.At(0), img)
  {
    hide WellFormed, EncodeField;
    assert Field(img, c.At(0)) == img;
    assert EncodeUpTo(c, img, 0) == [];
  }

  lemma OneRead(c: Setup, mem: bytes, start: nat, size: u64, code: u8)
    requires OneField(c, size, code) && start <= |mem|
    ensures Read(c, mem, start) == ReadEntry(c, 0, mem, Fill(size, 0), start)
  {
    hide WellFormed, ReadEntry;
    assert ReadUpTo(c, mem, start, 0) == Parse(Ok, Fill(size, 0), start);
  }

  // ----- a bool default of 2

  /** Validation accepts the schema, yet its defaults are invalid data, and a save
      right after loading them is refused. */
  lemma BoolDefaultExample(g: Geometry, mem: bytes)
    requires g.Usable() && g.storageSize <= |mem|
    ensures
      var c := Single(1, TYPE_BOOL, Given([2]));
      && c.Valid()
      && DataStatus(c, Defaults(c)) == ErrInvalid
      && PlanSave(c, g, mem, Defaults(c)) == Refuse(ErrInvalid)
  {
    var c := Single(1, TYPE_BOOL, Given([2]));
    SingleIsValid(1, TYPE_BOOL, Given([2]));
    hide Single, WellFormed, Encode, Target, NextGeneration, RecordBytes, Defaults, DataStatus;
    BoolDefaultInvalid(c);
  }

  lemma BoolDefaultInvalid(c: Setup)
    requires OneField(c, 1, TYPE_BOOL) && c.At(0).preset == Given([2])
    ensures DataStatus(c, Defaults(c)) == ErrInvalid
  {
    hide WellFormed, Defaults, DataStatus;
    OneValid(c, Defaults(c), 1, TYPE_BOOL);
    DefaultsMeaning(c);
    assert DefaultField(c.At(0))[0] == 2;
  }

  // ----- a text of 65536 characters

  /** The text passes every check made before writing, its length word says 0,
      and the read-back fails after having cleared the caller's data. */
  lemma LongTextExample() returns (c: Setup, g: Geometry, mem: bytes, img: bytes)
    ensures c.Valid() && c.Holds(img) && g.storageSize <= |mem|
    ensures LayoutStatus(c, img) == Ok && HEADER_SIZE + |Encode(c, img)| <= g.slotSize
    ensures img == Fill(0x1_0000, 97) + [0, 0]
    ensures forall budget: nat :: budget >= g.storageSize ==>
      SaveResult(c, g, mem, img, budget).status == ErrSize && SaveResult(c, g, mem, img, budget).image == Fill(0x1_0002, 0)
  {
    SingleIsValid(0x1_0002, TYPE_STRING, Absent(0));
    hide Fill, WellFormed, LayoutStatus, Encode, Single, SaveResult;
    c, img := Single(0x1_0002, TYPE_STRING, Absent(0)), Fill(0x1_0000, 97) + [0, 0];
    g, mem := Geometry(0x4_0000, 0x2_0000), Fill(0x4_0000, ERASED);
    LongTextEncoding(c, img);
    forall budget: nat | budget >= g.storageSize
      ensures SaveResult(c, g, mem, img, budget).status == ErrSize && SaveResult(c, g, mem, img, budget).image == Fill(0x1_0002, 0)
    {
      LongTextSave(c, g, mem, img, budget);
    }
  }

  lemma LongTextSave(c: Setup, g: Geometry, mem: bytes, img: bytes, budget: nat)
    requires OneField(c, 0x1_0002, TYPE_STRING) && c.Holds(img)
    requires g == Geometry(0x4_0000, 0x2_0000) && g.storageSize <= |mem| && budget >= g.storageSize
    requires LayoutStatus(c, img) == Ok && Encode(c, img) == [0, 0] + Fill(0x1_0000, 97)
    ensures SaveResult(c, g, mem, img, budget).status == ErrSize
    ensures SaveResult(c, g, mem, img, budget).image == Fill(0x1_0002, 0)
  {
    hide LayoutStatus, Encode, Fill, WellFormed, Target, NextGeneration, HeaderBytes, LoadSlot, Cut, Lies, Writes;
    PlanMeaning(c, g, mem, img);
    ProgrammedHolds(c, g, mem, img);
    LongTextWrites(c, g, mem, img);
    LongTextReadBack(c, g, Cut(c, g, mem, img, Writes(c, g, mem, img) - 1), Target(c, g, mem), NextGeneration(c, g, mem), img);
  }

  lemma LongTextWrites(c: Setup, g: Geometry, mem: bytes, img: bytes)
    requires c.Valid() && c.Holds(img) && g == Geometry(0x4_0000, 0x2_0000) && |Encode(c, img)| <= 0x1_0003
    requires PlanSave(c, g, mem, img).Go?
    ensures Writes(c, g, mem, img) <= 0x4_0000
  {
    hide LayoutStatus, Encode, Target, NextGeneration, HeaderBytes, WellFormed;
    PlanMeaning(c, g, mem, img);
  }

  /** The text, and that it ends after 65536 characters. */
  lemma LongTextEnds(f: bytes)
    requires f == Fill(0x1_0000, 97) + [0, 0]
    ensures TextLen(f) == 0x1_0000 && f[..0x1_0000] == Fill(0x1_0000, 97)
  {
    TextLenUnique(f, 0x1_0000);
  }

  lemma LongTextEncoding(c: Setup, img: bytes)
    requires OneField(c, 0x1_0002, TYPE_STRING)
    requires img == Fill(0x1_0000, 97) + [0, 0]
    ensures LayoutStatus(c, img) == Ok
    ensures Encode(c, img) == [0, 0] + Fill(0x1_0000, 97)
  {
    hide WellFormed, TextLen, Fill, DataStatus, Encode;
    LongTextEnds(img);
    OneValid(c, img, 0x1_0002, TYPE_STRING);
    OneEncoded(c, img, 0x1_0002, TYPE_STRING);
  }

  lemma LongTextReadBack(c: Setup, g: Geometry, m: bytes, t: Slot, generation: u32, img: bytes)
    requires OneField(c, 0x1_0002, TYPE_STRING)
    requires c.Holds(img) && g.Usable() && g.storageSize <= |m|
    requires |Encode(c, img)| == 0x1_0002 && Encode(c, img)[..2] == [0, 0]
    requires HEADER_SIZE + 0x1_0002 <= g.slotSize
    requires Lies(m, g.Base(t), RecordBytes(c, Encode(c, img), generation))
    ensures forall buf :: LoadSlot(c, g, m, t, false, buf) == Loaded(ErrSize, Fill(0x1_0002, 0))
  {
    hide Encode, WellFormed, HeaderBytes, Crc32, Probe, Read, DataStatus;
    var i, start := RecordInfo(c, Encode(c, img), generation), g.Base(t) + HEADER_SIZE;
    LiesApart(m, g.Base(t), HeaderBytes(i), Encode(c, img));
    HeaderFound(c, g, m, t, false, i);
    LiesAt(m, start, Encode(c, img), 0);
    LiesAt(m, start, Encode(c, img), 1);
    assert Encode(c, img)[..2][0] == 0 && Encode(c, img)[..2][1] == 0;
    EmptyTextRead(c, m, start);
  }

  lemma EmptyTextRead(c: Setup, m: bytes, start: nat)
    requires OneField(c, 0x1_0002, TYPE_STRING) && start + 2 <= |m|
    requires m[start] == 0 && m[start + 1] == 0
    ensures Read(c, m, start) == Parse(Ok, Fill(0x1_0002, 0), start + 2)
  {
    hide WellFormed, Read;
    OneRead(c, m, start, 0x1_0002, TYPE_STRING);
    TwoDigits(m, start);
    hide Number;
    var zero := Fill(0x1_0002, 0);
    assert Splice(zero, 0, m[start + 2..start + 2] + Fill(0x1_0002, 0)) == zero;
  }

  // ----- a success that changes the data

  /** 65536 characters of 0x80, but for one 0x7F where a length is going to be read. */
  ghost predicate Spilling(a: bytes) {
    |a| == 0x1_0000 && forall k :: 0 <= k < 0x1_0000 ==> a[k] == if k == 32899 then 0x7F else 0x80
  }

  function ThreeTexts(): Setup {
    var schema := Schema([Entry(NoKey, 0, 65538, TYPE_STRING, Absent(0)),
                          Entry(NoKey, 65538, 40000, TYPE_STRING, Absent(0)),
                          Entry(NoKey, 105538, 40000, TYPE_STRING, Absent(0))], 1, 145538);
    Setup(HOST, schema, Fingerprint(schema))
  }

  ghost predicate ThreeTextFields(c: Setup) {
    && c.Valid() && c.platform == HOST && c.Count() == 3 && c.schema.dataSize == 145538
    && TextAt(c.At(0), 0, 65538) && TextAt(c.At(1), 65538, 40000) && TextAt(c.At(2), 105538, 40000)
  }

  ghost predicate TextAt(e: Entry, offset: u64, size: u64) {
    e.offset == offset && e.size == size && e.code == TYPE_STRING
  }

  lemma ThreeTextsIsValid()
    ensures ThreeTextFields(ThreeTexts())
  {
    hide Fingerprint;
    var s := ThreeTexts().schema;
    assert FitsAt(HOST, s, 0) && FitsAt(HOST, s, 1) && FitsAt(HOST, s, 2);
    assert Apart(s, 0, 1) && Apart(s, 0, 2) && Apart(s, 1, 2);
  }

  /** A save of one text of 65536 characters and two empty ones reports success,
      and load agrees, yet the text is gone and the other two hold pieces of it. */
  lemma LongTextMoves() returns (c: Setup, g: Geometry, mem: bytes, img: bytes)
    ensures c.Valid() && c.Count() == 3 && c.Holds(img) && g.storageSize <= |mem|
    ensures TextLen(Field(img, c.At(0))) == 65536 && TextLen(Field(img, c.At(1))) == TextLen(Field(img, c.At(2))) == 0
    ensures forall budget: nat :: budget >= g.storageSize ==>
      var r := SaveResult(c, g, mem, img, budget);
      && r.status == Ok && Load(c, g, r.storage, []) == Loaded(Ok, r.image)
      && TextLen(Field(r.image, c.At(0))) == 0
      && TextLen(Field(r.image, c.At(1))) == 32896 && TextLen(Field(r.image, c.At(2))) == 32636
  {
    ThreeTextsIsValid();
    hide Fill, WellFormed, ThreeTexts, SaveResult, Load, TextLen, LayoutStatus, Encode, PlanSave, ReadsItself, SelfRead, Writes;
    var a: bytes := seq(0x1_0000, k => if k == 32899 then 0x7F else 0x80);
    c, img := ThreeTexts(), a + Fill(80002, 0);
    g, mem := Geometry(0x4_0000, 0x2_0000), Fill(0x4_0000, ERASED);
    MovingLayout(c, img, a);
    MovingPlan(c, g, mem, img);
    MovingReads(c, a, Encode(c, img));
    forall budget: nat | budget >= g.storageSize
      ensures
        var r := SaveResult(c, g, mem, img, budget);
        && r.status == Ok && Load(c, g, r.storage, []) == Loaded(Ok, r.image)
        && TextLen(Field(r.image, c.At(0))) == 0
        && TextLen(Field(r.image, c.At(1))) == 32896 && TextLen(Field(r.image, c.At(2))) == 32636
    {
      SaveSucceedsExactly(c, g, mem, img, budget);
      SaveRoundTrip(c, g, mem, img, budget, []);
    }
  }

  lemma MovingPlan(c: Setup, g: Geometry, mem: bytes, img: bytes)
    requires c.Valid() && c.Holds(img) && g == Geometry(0x4_0000, 0x2_0000) && g.storageSize <= |mem|
    requires LayoutStatus(c, img) == Ok && |Encode(c, img)| <= 0x1_0010
    ensures PlanSave(c, g, mem, img).Go? && Writes(c, g, mem, img) <= 0x4_0000
  {
    hide LayoutStatus, Encode, Target, NextGeneration, HeaderBytes, WellFormed;
    PlanMeaning(c, g, mem, img);
  }

  lemma MovingLayout(c: Setup, img: bytes, a: bytes)
    requires ThreeTextFields(c) && Spilling(a) && img == a + Fill(80002, 0)
    ensures LayoutStatus(c, img) == Ok && Encode(c, img) == [0, 0] + a + [0, 0, 0, 0]
    ensures TextLen(Field(img, c.At(0))) == 65536 && TextLen(Field(img, c.At(1))) == TextLen(Field(img, c.At(2))) == 0
  {
    hide WellFormed, TextLen, DataStatus, EncodeUpTo;
    var f0, f1, f2 := Field(img, c.At(0)), Field(img, c.At(1)), Field(img, c.At(2));
    TextLenUnique(f0, 65536);
    TextLenUnique(f1, 0);
    TextLenUnique(f2, 0);
    assert f0[..65536] == a;
    assert FieldsValid(c, img);
    ValidMeansOk(c, img);
    NothingEncoded(c, img);
    EncodeOneMore(c, img, 0);
    EncodeOneMore(c, img, 1);
    EncodeOneMore(c, img, 2);
    hide Fill;
    assert FieldCode(c, img, 0) == [0, 0] + a;
    assert FieldCode(c, img, 1) == [0, 0] && FieldCode(c, img, 2) == [0, 0];
    assert EncodeUpTo(c, img, 3) == [0, 0] + a + [0, 0, 0, 0];
  }

  /** One text read at a position whose two bytes say its length. */
  lemma MovedText(e: Entry, mem: bytes, img: bytes, pos: nat, low: u8, high: u8)
    requires e.offset + e.size <= |img| && pos + 2 <= |mem| && mem[pos] == low && mem[pos + 1] == high
    requires low + 256 * high < e.size && pos + 2 + low + 256 * high <= |mem|
    ensures
      var len, from: nat := low + 256 * high, pos + 2;
      ReadText(e, mem, img, pos) == Parse(Ok, Splice(img, e.offset, mem[from..from + len] + Fill(e.size - len, 0)), from + len)
  {
    hide Splice, Fill;
    TwoDigits(mem, pos);
    hide Number;
  }

  lemma MovingReads(c: Setup, a: bytes, code: bytes)
    requires ThreeTextFields(c) && Spilling(a) && code == [0, 0] + a + [0, 0, 0, 0]
    ensures ReadsItself(c, code)
    ensures
      var r := SelfRead(c, code);
      && |r| == 145538
      && TextLen(Field(r, c.At(0))) == 0 && TextLen(Field(r, c.At(1))) == 32896 && TextLen(Field(r, c.At(2))) == 32636
  {
    hide WellFormed, Crc32, ReadUpTo, TextLen, FieldsValid, Fill;
    assert code[..Announced(code)] == code;
    var f0, f1, f2 := MovingImage(c, a, code);
    var r := Read(c, code, 0).image;
    TextLenUnique(f0, 0);
    TextLenUnique(f1, 32896);
    TextLenUnique(f2, 32636);
    BoolsAndOthers(c, r);
    OthersStayValid(c, code, 0, 3);
  }

  lemma MovingImage(c: Setup, a: bytes, code: bytes) returns (f0: bytes, f1: bytes, f2: bytes)
    requires ThreeTextFields(c) && Spilling(a) && code == [0, 0] + a + [0, 0, 0, 0]
    ensures Read(c, code, 0).status == Ok && Read(c, code, 0).pos == |code|
    ensures f0 == Field(Read(c, code, 0).image, c.At(0)) == Fill(65538, 0)
    ensures f1 == Field(Read(c, code, 0).image, c.At(1)) == code[4..32900] + Fill(7104, 0)
    ensures f2 == Field(Read(c, code, 0).image, c.At(2)) == code[32902..65542] + Fill(7360, 0)
  {
    hide WellFormed, ReadEntry, ReadUpTo, Splice, Fill;
    ReadsNone(c, code, 0);
    var x0 := Fill(145538, 0);
    MovedEntry(c, 0, code, x0, 0, 0, 0);
    ReadsMore(c, code, 0, 0, x0, 0, x0);
    var x1 := ReadUpTo(c, code, 0, 1).image;
    assert code[2] == a[0] && code[3] == a[1];
    MovedEntry(c, 1, code, x1, 2, 0x80, 0x80);
    ReadsMore(c, code, 0, 1, x1, 2, x1);
    var x2 := ReadUpTo(c, code, 0, 2).image;
    assert code[32900] == a[32898] && code[32901] == a[32899];
    MovedEntry(c, 2, code, x2, 32900, 0x80, 0x7F);
    ReadsMore(c, code, 0, 2, x2, 32900, x2);
    f0, f1, f2 := Field(Read(c, code, 0).image, c.At(0)), Field(Read(c, code, 0).image, c.At(1)), Field(Read(c, code, 0).image, c.At(2));
    FieldSettles(c, code, 0, 0, 3);
    FieldSettles(c, code, 0, 1, 3);
    assert code[2..2] + Fill(65538, 0) == Fill(65538, 0);
  }

  lemma MovedEntry(c: Setup, i: nat, mem: bytes, img: bytes, pos: nat, low: u8, high: u8)
    requires c.Valid() && i < c.Count() && c.Holds(img) && c.At(i).Kind() == Text
    requires pos + 2 <= |mem| && mem[pos] == low && mem[pos + 1] == high
    requires low + 256 * high < c.At(i).size && pos + 2 + low + 256 * high <= |mem|
    ensures
      var r, e, len, from: nat := ReadEntry(c, i, mem, img, pos), c.At(i), low + 256 * high, pos + 2;
      && r.status == Ok && r.pos == from + len
      && Field(r.image, e) == mem[from..from + len] + Fill(e.size - len, 0)
  {
    hide WellFormed, Splice, Fill, ReadText;
    var e, len, from: nat := c.At(i), low + 256 * high, pos + 2;
    MovedText(e, mem, img, pos, low, high);
    SpliceInside(img, e.offset, mem[from..from + len] + Fill(e.size - len, 0));
  }

  // ----- a bool behind such a text

  function TextThenBool(): Setup {
    var schema := Schema([Entry(NoKey, 0, 0x1_0002, TYPE_STRING, Absent(0)),
                          Entry(NoKey, 0x1_0002, 1, TYPE_BOOL, Absent(0))], 1, 0x1_0003);
    Setup(HOST, schema, Fingerprint(schema))
  }

  ghost predicate TextAndBool(c: Setup) {
    && c.Valid() && c.platform == HOST && c.Count() == 2 && c.schema.dataSize == 0x1_0003
    && c.At(0).offset == 0 && c.At(0).size == 0x1_0002 && c.At(0).code == TYPE_STRING
    && c.At(1).offset == 0x1_0002 && c.At(1).size == 1 && c.At(1).code == TYPE_BOOL
  }

  lemma TextThenBoolIsValid()
    ensures TextAndBool(TextThenBool())
  {
    hide Fingerprint;
    var s := TextThenBool().schema;
    assert FitsAt(HOST, s, 0) && FitsAt(HOST, s, 1) && Apart(s, 0, 1);
  }

  /** With a bool behind the text the failing save leaves the data invalid: the
      bool holds a character. */
  lemma LongTextBreaksBool() returns (c: Setup, g: Geometry, mem: bytes, img: bytes)
    ensures c.Valid() && c.Holds(img) && g.storageSize <= |mem|
    ensures img == Fill(0x1_0000, 97) + [0, 0] + [0] && FieldsValid(c, img) && PlanSave(c, g, mem, img).Go?
    ensures c.Count() == 2 && c.At(1).Kind() == Bool
    ensures forall budget: nat :: budget >= g.storageSize ==>
      var r := SaveResult(c, g, mem, img, budget);
      r.status != Ok && Field(r.image, c.At(1)) == [97] && !FieldsValid(c, r.image)
  {
    TextThenBoolIsValid();
    hide Fill, WellFormed, LayoutStatus, Encode, TextThenBool, SaveResult, FieldsValid, Target, NextGeneration, RecordBytes, Writes;
    c, img := TextThenBool(), Fill(0x1_0000, 97) + [0, 0] + [0];
    g, mem := Geometry(0x4_0000, 0x2_0000), Fill(0x4_0000, ERASED);
    TextAndBoolLayout(c, img);
    assert PlanSave(c, g, mem, img).Go?;
    hide PlanSave;
    forall budget: nat | budget >= g.storageSize
      ensures
        var r := SaveResult(c, g, mem, img, budget);
        r.status != Ok && Field(r.image, c.At(1)) == [97] && !FieldsValid(c, r.image)
    {
      LongTextWrites(c, g, mem, img);
      LongTextSpills(c, g, mem, img, budget);
    }
  }

  lemma LongTextSpills(c: Setup, g: Geometry, mem: bytes, img: bytes, budget: nat)
    requires TextAndBool(c) && c.Holds(img) && g.storageSize <= |mem|
    requires img == Fill(0x1_0000, 97) + [0, 0] + [0]
    requires PlanSave(c, g, mem, img).Go? && budget >= Writes(c, g, mem, img)
    ensures
      var r := SaveResult(c, g, mem, img, budget);
      r.status != Ok && Field(r.image, c.At(1)) == [97] && !FieldsValid(c, r.image)
  {
    hide Fill, WellFormed, SaveResult, FieldsValid, Writes, PlanSave, TextLen;
    var f := Field(img, c.At(0));
    assert f == Fill(0x1_0000, 97) + [0, 0];
    LongTextEnds(f);
    SaveBreaksBool(c, g, mem, img, budget, 0);
    SavedIsValid(c, g, mem, img, budget);
  }

  lemma TextAndBoolLayout(c: Setup, img: bytes)
    requires TextAndBool(c) && img == Fill(0x1_0000, 97) + [0, 0] + [0]
    ensures FieldsValid(c, img) && LayoutStatus(c, img) == Ok
    ensures |Encode(c, img)| == 0x1_0003
  {
    hide WellFormed, Fill, TextLen, DataStatus, EncodeUpTo;
    var f := Field(img, c.At(0));
    assert f == Fill(0x1_0000, 97) + [0, 0] && Field(img, c.At(1)) == [0];
    LongTextEnds(f);
    ValidMeansOk(c, img);
    EncodeOneMore(c, img, 0);
    EncodeOneMore(c, img, 1);
    assert EncodeUpTo(c, img, 0) == [] by {
      NothingEncoded(c, img);
    }
  }

  lemma NothingEncoded(c: Setup, img: bytes)
    requires c.Valid() && c.Holds(img)
    ensures EncodeUpTo(c, img, 0) == []
  {
  }

  // ----- a NUL inside a stored text

  const NUL_PAYLOAD: bytes := [2, 0, 0, 65]

  /** A committed record whose text holds a NUL: load accepts it, but the image
      it returns would be written differently. */
  lemma EmbeddedNulExample() returns (c: Setup, g: Geometry, mem: bytes)
    ensures c.Valid() && g.Usable() && g.storageSize == |mem|
    ensures Lies(mem, 0, HeaderBytes(HeaderOf(c, COMMITTED, 4, 1, Crc32(NUL_PAYLOAD))) + NUL_PAYLOAD)
    ensures Decodes(c, g, mem, 0)
    ensures Load(c, g, mem, []) == Loaded(Ok, [0, 65, 0, 0])
    ensures Encode(c, [0, 65, 0, 0]) == [0, 0]
  {
    SingleIsValid(4, TYPE_STRING, Absent(0));
    hide Single, WellFormed, HeaderBytes, Crc32, Fill, Lies, LoadSlot, Load, Probe, Preferred;
    c, g := Single(4, TYPE_STRING, Absent(0)), Geometry(80, 40);
    var record := HeaderBytes(HeaderOf(c, COMMITTED, 4, 1, Crc32(NUL_PAYLOAD))) + NUL_PAYLOAD;
    mem := record + Fill(44, ERASED);
    NulStored(record, mem);
    NulDecodes(c, g, mem);
    OnlyFirst(c, g, mem);
    PreferredAnswers(c, g, mem, []);
    NulWritten(c);
  }

  lemma NulStored(record: bytes, mem: bytes)
    requires |record| == 36 && mem == record + Fill(44, ERASED)
    ensures Lies(mem, 0, record) && mem[40] == ERASED
  {
  }

  /** With nothing in slot 1, a record in slot 0 is the one preferred. */
  lemma OnlyFirst(c: Setup, g: Geometry, mem: bytes)
    requires c.Valid() && g == Geometry(80, 40) && |mem| == 80 && mem[40] == ERASED
    requires Committed(c, g, mem, 0)
    ensures Preferred(c, g, mem) == Some(0)
  {
    hide Probe;
    NotCommitted(c, g, mem, 1);
  }

  lemma NulDecodes(c: Setup, g: Geometry, mem: bytes)
    requires OneField(c, 4, TYPE_STRING) && g == Geometry(80, 40) && |mem| == 80
    requires Lies(mem, 0, HeaderBytes(HeaderOf(c, COMMITTED, 4, 1, Crc32(NUL_PAYLOAD))) + NUL_PAYLOAD)
    ensures Committed(c, g, mem, 0)
    ensures LoadSlot(c, g, mem, 0, true, []) == Loaded(Ok, [0, 65, 0, 0])
  {
    hide WellFormed, HeaderBytes, Crc32, Probe, Read, DataStatus;
    var i := HeaderOf(c, COMMITTED, 4, 1, Crc32(NUL_PAYLOAD));
    LiesApart(mem, 0, HeaderBytes(i), NUL_PAYLOAD);
    HeaderFound(c, g, mem, 0, true, i);
    NulRead(c, mem, 32);
    OneValid(c, [0, 65, 0, 0], 4, TYPE_STRING);
    assert mem[32..36] == NUL_PAYLOAD;
  }

  lemma NulRead(c: Setup, mem: bytes, start: nat)
    requires OneField(c, 4, TYPE_STRING) && Lies(mem, start, NUL_PAYLOAD)
    ensures Read(c, mem, start) == Parse(Ok, [0, 65, 0, 0], start + 4)
  {
    hide WellFormed, Read;
    OneRead(c, mem, start, 4, TYPE_STRING);
    LiesAt(mem, start, NUL_PAYLOAD, 0);
    LiesAt(mem, start, NUL_PAYLOAD, 1);
    LiesAt(mem, start, NUL_PAYLOAD, 2);
    LiesAt(mem, start, NUL_PAYLOAD, 3);
    TwoDigits(mem, start);
    hide Number;
    assert mem[start + 2..start + 4] + Fill(2, 0) == [0, 65, 0, 0];
  }

  lemma NulWritten(c: Setup)
    requires OneField(c, 4, TYPE_STRING)
    ensures Encode(c, [0, 65, 0, 0]) == [0, 0]
  {
    hide WellFormed, Encode;
    OneEncoded(c, [0, 65, 0, 0], 4, TYPE_STRING);
    assert TextLen([0, 65, 0, 0]) == 0;
  }

  // ----- a region whose end wraps

  /** On any EEPROM of more than 100 bytes the set-up accepts a region of almost
      2^64 bytes from address 100 on: its end wraps to 36. */
  lemma WrappingRegionAccepted(size: u64)
    requires size > 100
    ensures RegionAccepted(size, 100, 0xFFFF_FFFF_FFFF_FFC0)
    ensures Add64(100, 0xFFFF_FFFF_FFFF_FFC0) == 36
    ensures 100 + TotalOf(size, 100, 0xFFFF_FFFF_FFFF_FFC0) > size
  {
  }

  // ----- the older record destroyed

  lemma ByteLayout(c: Setup, x: u8)
    requires OneField(c, 1, TYPE_U8)
    ensures LayoutStatus(c, [x]) == Ok && ShortTexts(c, [x])
    ensures Encode(c, [x]) == [x] && Canon(c, [x]) == [x]
  {
    hide WellFormed, DataStatus, Encode;
    OneValid(c, [x], 1, TYPE_U8);
    OneEncoded(c, [x], 1, TYPE_U8);
    assert Paint(c, CanonParts(c, [x]), 0) == Fill(1, 0);
    assert CanonParts(c, [x])[0] == [x];
  }

  lemma BytePayload(c: Setup, g: Geometry, mem: bytes, slot: Slot)
    requires OneField(c, 1, TYPE_U8)
    requires Decodes(c, g, mem, slot)
    ensures Probe(c, g, mem, slot, true).Found? && Probe(c, g, mem, slot, true).info.payloadLength == 1
    ensures g.Base(slot) + HEADER_SIZE < |mem|
  {
    hide WellFormed, Probe, Crc32, DataStatus, Read;
    BufferIrrelevant(c, g, mem, slot, true, [], []);
    OneRead(c, mem, g.Base(slot) + HEADER_SIZE, 1, TYPE_U8);
  }

  /** A save of one byte into storage that reflects its history. */
  lemma ByteSaved(c: Setup, g: Geometry, w: World, x: u8) returns (w': World)
    requires OneField(c, 1, TYPE_U8)
    requires g == Geometry(80, 40) && Reflects(c, g, w)
    ensures |w'.mem| == |w.mem| && Reflects(c, g, w')
    ensures w'.last == Some([x]) && w'.saves == w.saves + 1
    ensures Preferred(c, g, w'.mem) == Some(Target(c, g, w.mem))
    ensures w.saves > 0 ==>
      var older := Preferred(c, g, w.mem).value;
      && Preferred(c, g, w'.mem) == Some(Other(older))
      && LoadSlot(c, g, w'.mem, older, true, []) == Loaded(Ok, w.last.value)
  {
    var a := Attempt([x], 1000);
    ByteLayout(c, x);
    w' := Step(c, g, w, a);
    hide LayoutStatus, Encode, Canon, Load, WellFormed, ShortTexts, Single, Reflects, SaveResult, Target, Preferred;
    ReflectsStorage(c, g, w);
    ByteLanded(c, g, w.mem, x);
    StepReflects(c, g, w, a);
    if w.saves > 0 {
      NewestDecodes(c, g, w);
      OlderKept(c, g, w.mem, x);
      NewestIsLast(c, g, w);
    }
  }

  lemma NewestIsLast(c: Setup, g: Geometry, w: World)
    requires c.Valid() && Reflects(c, g, w) && w.saves > 0
    ensures w.last.Some? && Preferred(c, g, w.mem).Some?
    ensures LoadSlot(c, g, w.mem, Preferred(c, g, w.mem).value, true, []) == Loaded(Ok, w.last.value)
  {
    hide LoadSlot, Preferred, Probe;
  }

  lemma ByteLanded(c: Setup, g: Geometry, mem: bytes, x: u8)
    requires c.Valid() && c.Holds([x]) && g == Geometry(80, 40) && g.storageSize <= |mem|
    requires LayoutStatus(c, [x]) == Ok && ShortTexts(c, [x])
    requires Encode(c, [x]) == [x] && Canon(c, [x]) == [x]
    ensures PlanSave(c, g, mem, [x]).Go? && Writes(c, g, mem, [x]) == 74
    ensures SaveResult(c, g, mem, [x], 1000) == Saved(Ok, Cut(c, g, mem, [x], 74), [x])
    ensures Preferred(c, g, Cut(c, g, mem, [x], 74)) == Some(Target(c, g, mem))
  {
    assert PlanSave(c, g, mem, [x]).Go?;
    hide LayoutStatus, Encode, Canon, Load, WellFormed, ShortTexts, Cut, PlanSave, SaveResult, LoadSlot, Target, Writes;
    ByteWrites(c, g, mem, x);
    SaveRoundTrip(c, g, mem, [x], 1000, []);
    SaveOutcome(c, g, mem, [x], 1000);
    CommittedSaveVisible(c, g, mem, [x], []);
  }

  lemma OlderKept(c: Setup, g: Geometry, mem: bytes, x: u8)
    requires c.Valid() && c.Holds([x]) && g.Usable() && g.storageSize <= |mem|
    requires PlanSave(c, g, mem, [x]).Go? && Writes(c, g, mem, [x]) == 74
    requires SaveResult(c, g, mem, [x], 1000) == Saved(Ok, Cut(c, g, mem, [x], 74), [x])
    requires Preferred(c, g, mem).Some? && Decodes(c, g, mem, Preferred(c, g, mem).value)
    ensures
      var older, after := Preferred(c, g, mem).value, Cut(c, g, mem, [x], 74);
      && Preferred(c, g, after) == Some(Other(older))
      && LoadSlot(c, g, after, older, true, []) == LoadSlot(c, g, mem, older, true, [])
  {
    hide Load, WellFormed, Cut, PlanSave, SaveResult, LoadSlot, Target, Writes, Preferred, Probe, NextGeneration;
    SaveOutcome(c, g, mem, [x], 1000);
    CommittedSaveVisible(c, g, mem, [x], []);
    PreferredTarget(c, g, mem);
    SlotFrame(c, g, mem, Cut(c, g, mem, [x], 74), Preferred(c, g, mem).value, true);
  }

  lemma ByteWrites(c: Setup, g: Geometry, mem: bytes, x: u8)
    requires c.Valid() && c.Holds([x]) && Encode(c, [x]) == [x] && g == Geometry(80, 40)
    requires PlanSave(c, g, mem, [x]).Go?
    ensures Writes(c, g, mem, [x]) == 74
  {
    hide LayoutStatus, Encode, Target, NextGeneration, HeaderBytes;
    PlanMeaning(c, g, mem, [x]);
  }

  /** Storage after 7 and then 8 were saved. */
  lemma TwoSaves() returns (c: Setup, g: Geometry, w: World)
    ensures OneField(c, 1, TYPE_U8) && g == Geometry(80, 40) && |w.mem| == 80
    ensures Reflects(c, g, w) && w.saves == 2 && w.last == Some([8])
    ensures Preferred(c, g, w.mem) == Some(1)
    ensures LoadSlot(c, g, w.mem, 0, true, []) == Loaded(Ok, [7])
    ensures LoadSlot(c, g, w.mem, 1, true, []) == Loaded(Ok, [8])
  {
    SingleIsValid(1, TYPE_U8, Absent(0));
    hide Reflects, LoadSlot, Preferred, Probe, WellFormed, Single, Fill;
    c, g := Single(1, TYPE_U8, Absent(0)), Geometry(80, 40);
    var w0 := World(Fill(80, ERASED), None, 0);
    ErasedIsFresh(c, g, 80);
    FirstTarget(c, g, w0);
    var w1 := ByteSaved(c, g, w0, 7);
    w := ByteSaved(c, g, w1, 8);
    NewestIsLast(c, g, w);
  }

  lemma FirstTarget(c: Setup, g: Geometry, w: World)
    requires c.Valid() && Reflects(c, g, w) && w.saves == 0
    ensures Target(c, g, w.mem) == 0
  {
    hide Probe, LoadSlot;
  }

  /** Two saves, one damaged byte in the newer payload: load still returns the
      older record, until a further save has written its first byte. */
  lemma OlderRecordLost() returns (c: Setup, g: Geometry, mem: bytes, img: bytes)
    ensures c.Valid() && c.Holds(img) && g.storageSize <= |mem|
    ensures PlanSave(c, g, mem, img).Go?
    ensures Load(c, g, mem, []) == Loaded(Ok, [7])
    ensures Load(c, g, Cut(c, g, mem, img, 1), []).status != Ok
  {
    var w;
    c, g, w := TwoSaves();
    img := [9];
    hide Reflects, LoadSlot, Load, Preferred, LayoutStatus, Encode, Probe, WellFormed, Cut, PayloadDamaged;
    mem := DamagedByte(c, g, w.mem, 1);
    ByteLayout(c, 9);
    DamageThenSaveLoses(c, g, w.mem, mem, g.Base(1) + HEADER_SIZE, img);
  }

  lemma DamagedByte(c: Setup, g: Geometry, a: bytes, slot: Slot) returns (b: bytes)
    requires OneField(c, 1, TYPE_U8)
    requires Decodes(c, g, a, slot)
    ensures |b| == |a| && PayloadDamaged(c, g, a, b, slot, g.Base(slot) + HEADER_SIZE)
  {
    hide LoadSlot, Probe, WellFormed, Single;
    BytePayload(c, g, a, slot);
    var at := g.Base(slot) + HEADER_SIZE;
    b := a[at := (a[at] as int + 1) % 256];
    assert b[at] != a[at];
  }

  lemma NewestDecodes(c: Setup, g: Geometry, w: World)
    requires c.Valid() && Reflects(c, g, w) && w.saves > 0
    ensures Preferred(c, g, w.mem).Some? && Decodes(c, g, w.mem, Preferred(c, g, w.mem).value)
  {
    hide LoadSlot, Preferred, Probe;
  }

  // ----- headers that cannot be read

  /** Two good records; a save cannot read the header of the newer one. Its first
      written byte destroys that record: load goes back to the older one. */
  lemma UnheardNewestLost() returns (c: Setup, g: Geometry, mem: bytes, img: bytes)
    ensures c.Valid() && c.Holds(img) && g.storageSize <= |mem| && PlanSave(c, g, mem, img).Go?
    ensures Load(c, g, mem, []) == Loaded(Ok, [8])
    ensures Load(c, g, HeardCut(c, g, mem, img, Probe(c, g, mem, 0, true), Missing(ErrIo), 1), []) == Loaded(Ok, [7])
  {
    var w;
    c, g, w := TwoSaves();
    mem, img := w.mem, [9];
    hide Reflects, LoadSlot, Load, Preferred, LayoutStatus, Encode, Probe, WellFormed, HeardCut, Writes, TargetFor;
    ByteLayout(c, 9);
    PreferredAnswers(c, g, mem, []);
    NewestTaken(c, g, mem);
    hide PlanSave;
    ByteWrites(c, g, mem, 9);
    TornAnswer(c, g, mem, img, Probe(c, g, mem, 0, true), Missing(ErrIo), 1, []);
  }

  lemma NewestTaken(c: Setup, g: Geometry, mem: bytes)
    requires c.Valid() && Preferred(c, g, mem) == Some(1) && Decodes(c, g, mem, 0)
    ensures TargetFor(Probe(c, g, mem, 0, true), Missing(ErrIo)) == 1
  {
    hide LoadSlot, Probe, Preferred, TargetFor;
    BufferIrrelevant(c, g, mem, 0, true, [], []);
    SparedExactly(c, g, mem, Probe(c, g, mem, 0, true), Missing(ErrIo));
  }

  /** Two saves and a third cut short leave one record, in slot 1. A save that
      cannot read its header writes 9 into slot 0, reads it back and commits it:
      it reports success, but load keeps returning 8. */
  lemma SuccessUnseen() returns (c: Setup, g: Geometry, mem: bytes, img: bytes)
    ensures c.Valid() && c.Holds(img) && g.storageSize <= |mem| && PlanSave(c, g, mem, img).Go?
    ensures img == [9] && Writes(c, g, mem, img) == 74
    ensures
      var p0, p1 := Probe(c, g, mem, 0, true), Missing(ErrIo);
      var m1, m2 := HeardCut(c, g, mem, img, p0, p1, 73), HeardCut(c, g, mem, img, p0, p1, 74);
      && BothHeard(c, g, mem, p0, p1) && TargetFor(p0, p1) == 0
      && LoadSlot(c, g, m1, 0, false, []) == Loaded(Ok, [9])
      && LoadSlot(c, g, m2, 0, true, []) == Loaded(Ok, [9])
      && Load(c, g, m2, []) == Loaded(Ok, [8])
  {
    var w;
    c, g, w := TwoSaves();
    img := [9];
    ByteLayout(c, 9);
    mem := LoneSecond(c, g, w);
    hide Reflects, LoadSlot, Load, Preferred, LayoutStatus, Encode, Probe, WellFormed, HeardCut, Writes, Canon, ShortTexts;
    assert PlanSave(c, g, mem, img).Go?;
    hide PlanSave;
    ByteWrites(c, g, mem, 9);
    LandedAnswer(c, g, mem, img, Probe(c, g, mem, 0, true), Missing(ErrIo), []);
  }

  /** A third save stopped at its first byte. */
  lemma LoneSecond(c: Setup, g: Geometry, w: World) returns (mem: bytes)
    requires OneField(c, 1, TYPE_U8) && g == Geometry(80, 40) && |w.mem| == 80
    requires Reflects(c, g, w) && w.saves == 2 && w.last == Some([8])
    requires Preferred(c, g, w.mem) == Some(1)
    ensures |mem| == 80 && Probe(c, g, mem, 0, true).Missing?
    ensures LoadSlot(c, g, mem, 1, true, []) == Loaded(Ok, [8])
    ensures Probe(c, g, mem, 1, true).Found? && Probe(c, g, mem, 1, true).info.generation == 2
  {
    ByteLayout(c, 9);
    hide LoadSlot, Load, LayoutStatus, Encode, Probe, WellFormed, Cut, Writes, Target, Preferred;
    assert PlanSave(c, g, w.mem, [9]).Go?;
    hide PlanSave;
    ByteWrites(c, g, w.mem, 9);
    mem := Cut(c, g, w.mem, [9], 1);
    TornState(c, g, w.mem, [9], 1);
    PreferredTarget(c, g, w.mem);
    SlotFrame(c, g, w.mem, mem, 1, true);
  }
}
