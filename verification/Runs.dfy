// Whole saves, and runs of saves of which any may be refused, interrupted at
// any byte, or fail its read-back.

module Runs {
  import opened Wrappers
  import opened Words
  import opened Crc
  import opened Schema
  import opened Image
  import opened Payload
  import opened Misread
  import opened Record
  import opened Save
  import opened Atomicity

  // ----- one whole save

  /** A save stops at a byte of its trace; it reports success exactly when the
      commit landed, and then its data is what the read-back produced. */
  lemma SaveOutcome(c: Setup, g: Geometry, mem: bytes, img: bytes, budget: nat)
    requires c.Valid() && c.Holds(img) && g.storageSize <= |mem|
    requires PlanSave(c, g, mem, img).Go?
    ensures SaveResult(c, g, mem, img, budget).storage == Cut(c, g, mem, img, StopsAt(c, g, mem, img, budget))
    ensures SaveResult(c, g, mem, img, budget).status == Ok <==> StopsAt(c, g, mem, img, budget) == Writes(c, g, mem, img)
    ensures SaveResult(c, g, mem, img, budget).status == Ok ==>
      LoadSlot(c, g, Cut(c, g, mem, img, Writes(c, g, mem, img) - 1), Target(c, g, mem), false, [])
      == Loaded(Ok, SaveResult(c, g, mem, img, budget).image)
    ensures budget < Writes(c, g, mem, img) - 1 ==> SaveResult(c, g, mem, img, budget).image == img
  {
    hide PlanSave, Cut, Writes, LoadSlot, Target, HeaderBytes, RecordInfo, Encode, LayoutStatus, NextGeneration, WellFormed, Probe;
    PlanMeaning(c, g, mem, img);
    var programmed := Cut(c, g, mem, img, Writes(c, g, mem, img) - 1);
    BufferIrrelevant(c, g, programmed, Target(c, g, mem), false, img, []);
  }

  /** The byte of the trace at which a save with this budget stops: a record
      that does not read back is never committed. */
  ghost function StopsAt(c: Setup, g: Geometry, mem: bytes, img: bytes, budget: nat): (k: nat)
    requires c.Valid() && c.Holds(img) && g.storageSize <= |mem|
    requires PlanSave(c, g, mem, img).Go?
    ensures k <= Writes(c, g, mem, img)
  {
    var all := Writes(c, g, mem, img);
    if budget < all then budget
    else if LoadSlot(c, g, Cut(c, g, mem, img, all - 1), Target(c, g, mem), false, []).status != Ok then all - 1
    else all
  }

  /** Whether the payload length survives its 32-bit header field. */
  function LengthStatus(payload: bytes): Status {
    if |payload| < 0x1_0000_0000 then Ok else ErrSize
  }

  /** What reading back a faithfully programmed payload yields. */
  lemma PayloadReadBack(c: Setup, m: bytes, start: nat, i: Info, img: bytes)
    requires c.Valid() && c.Holds(img)
    requires LayoutStatus(c, img) == Ok
    requires Lies(m, start, Encode(c, img))
    requires i.payloadLength == |Encode(c, img)| % 0x1_0000_0000 && i.payloadCrc == Crc32(Encode(c, img))
    ensures ShortTexts(c, img) ==>
      && Read(c, m, start).image == Canon(c, img)
      && PayloadStatus(c, i, m, start, Read(c, m, start)) == LengthStatus(Encode(c, img))
    ensures !ShortTexts(c, img) && PayloadStatus(c, i, m, start, Read(c, m, start)) == Ok ==>
      Read(c, m, start).image != Canon(c, img)
  {
    hide Encode, Canon, Crc32, ReadUpTo, WellFormed;
    CanonMeaning(c, img);
    ValidMeansOk(c, img);
    ValidMeansOk(c, Canon(c, img));
    hide DataStatus, FieldsValid;
    if ShortTexts(c, img) {
      ReadsBack(c, img, m, start);
      assert m[start..start + |Encode(c, img)|] == Encode(c, img);
    } else if Read(c, m, start).status == Ok {
      LongTextLost(c, img, m, start);
    }
  }

  /** What reading back a faithfully programmed record yields. */
  lemma ReadBackOf(c: Setup, g: Geometry, m: bytes, t: Slot, generation: u32, img: bytes)
    requires c.Valid() && c.Holds(img) && g.Usable() && g.storageSize <= |m|
    requires LayoutStatus(c, img) == Ok && HEADER_SIZE + |Encode(c, img)| <= g.slotSize
    requires Lies(m, g.Base(t), RecordBytes(c, Encode(c, img), generation))
    ensures Probe(c, g, m, t, false) == Found(RecordInfo(c, Encode(c, img), generation))
    ensures ShortTexts(c, img) ==>
      LoadSlot(c, g, m, t, false, []) == Loaded(LengthStatus(Encode(c, img)), Canon(c, img))
    ensures !ShortTexts(c, img) ==> LoadSlot(c, g, m, t, false, []) != Loaded(Ok, Canon(c, img))
  {
    hide HeaderBytes, Encode, Canon, LayoutStatus, Crc32, Read, Probe, PayloadStatus, WellFormed, ShortTexts, Lies, LengthStatus;
    var i := RecordInfo(c, Encode(c, img), generation);
    LiesApart(m, g.Base(t), HeaderBytes(i), Encode(c, img));
    HeaderFound(c, g, m, t, false, i);
    PayloadReadBack(c, m, g.Base(t) + HEADER_SIZE, i, img);
  }

  lemma ReadBackOutcome(c: Setup, g: Geometry, mem: bytes, img: bytes)
    requires c.Valid() && c.Holds(img) && g.storageSize <= |mem|
    requires PlanSave(c, g, mem, img).Go?
    ensures
      var check := LoadSlot(c, g, Cut(c, g, mem, img, Writes(c, g, mem, img) - 1), Target(c, g, mem), false, []);
      if ShortTexts(c, img) then check == Loaded(LengthStatus(Encode(c, img)), Canon(c, img))
      else check != Loaded(Ok, Canon(c, img))
    ensures Probe(c, g, Cut(c, g, mem, img, Writes(c, g, mem, img) - 1), Target(c, g, mem), false)
         == Found(RecordInfo(c, Encode(c, img), NextGeneration(c, g, mem)))
  {
    PlanMeaning(c, g, mem, img);
    ProgrammedHolds(c, g, mem, img);
    hide PlanSave, Cut, Writes, LoadSlot, Target, HeaderBytes, Encode, Lies, Canon, NextGeneration;
    ReadBackOf(c, g, Cut(c, g, mem, img, Writes(c, g, mem, img) - 1), Target(c, g, mem), NextGeneration(c, g, mem), img);
  }

  lemma ProgrammedPayload(c: Setup, g: Geometry, mem: bytes, img: bytes)
    requires c.Valid() && c.Holds(img) && g.storageSize <= |mem|
    requires PlanSave(c, g, mem, img).Go?
    ensures Lies(Cut(c, g, mem, img, Writes(c, g, mem, img) - 1), g.Base(Target(c, g, mem)) + HEADER_SIZE, Encode(c, img))
  {
    PlanMeaning(c, g, mem, img);
    ProgrammedHolds(c, g, mem, img);
    hide PlanSave, Cut, Writes, Target, HeaderBytes, RecordInfo, Encode, Lies, NextGeneration, WellFormed, LayoutStatus;
    var i := RecordInfo(c, Encode(c, img), NextGeneration(c, g, mem));
    LiesApart(Cut(c, g, mem, img, Writes(c, g, mem, img) - 1), g.Base(Target(c, g, mem)), HeaderBytes(i), Encode(c, img));
  }

  lemma LoadedImage(c: Setup, g: Geometry, m: bytes, slot: Slot, buf: bytes)
    requires c.Valid() && Probe(c, g, m, slot, false).Found?
    ensures LoadSlot(c, g, m, slot, false, buf).image == Read(c, m, g.Base(slot) + HEADER_SIZE).image
  {
    hide Probe, ReadUpTo, PayloadStatus;
  }

  /** The data after a save: untouched, or whatever the programmed payload reads
      back as. */
  lemma SaveImage(c: Setup, g: Geometry, mem: bytes, img: bytes, budget: nat)
    requires c.Valid() && c.Holds(img) && g.storageSize <= |mem|
    requires PlanSave(c, g, mem, img).Go?
    ensures
      var m, start := Cut(c, g, mem, img, Writes(c, g, mem, img) - 1), g.Base(Target(c, g, mem)) + HEADER_SIZE;
      && DataStatus(c, img) == Ok && FieldsValid(c, img) && AllKnown(c)
      && Lies(m, start, Encode(c, img))
      && SaveResult(c, g, mem, img, budget).image
         == if budget < Writes(c, g, mem, img) - 1 then img else Read(c, m, start).image
  {
    hide PlanSave, Cut, Writes, Probe, Read, LoadSlot, Target, HeaderBytes, RecordInfo, Encode, Lies, DataStatus, FieldsValid,
      NextGeneration, WellFormed, ShortTexts, Canon, LengthStatus;
    PlanMeaning(c, g, mem, img);
    ValidMeansOk(c, img);
    hide AllKnown;
    ReadBackOutcome(c, g, mem, img);
    ProgrammedPayload(c, g, mem, img);
    LoadedImage(c, g, Cut(c, g, mem, img, Writes(c, g, mem, img) - 1), Target(c, g, mem), img);
  }

  /** Valid data without a bool after a text too long stays valid, whatever the
      save's outcome. */
  lemma SaveKeepsValid(c: Setup, g: Geometry, mem: bytes, img: bytes, budget: nat)
    requires c.Valid() && c.Holds(img) && g.storageSize <= |mem|
    requires FieldsValid(c, img) && BoolsFirst(c, img)
    ensures FieldsValid(c, SaveResult(c, g, mem, img, budget).image)
  {
    SaveRefused(c, g, mem, img, budget);
    hide PlanSave, Cut, Writes, SaveResult, ReadUpTo, Target, Encode, Lies, FieldsValid, AllKnown, BoolsFirst, LayoutStatus, WellFormed;
    if PlanSave(c, g, mem, img).Go? {
      SaveImage(c, g, mem, img, budget);
      ReadsBackValid(c, img, Cut(c, g, mem, img, Writes(c, g, mem, img) - 1), g.Base(Target(c, g, mem)) + HEADER_SIZE, c.Count());
    }
  }

  lemma SaveKeepsOthers(c: Setup, g: Geometry, mem: bytes, img: bytes, budget: nat)
    requires c.Valid() && c.Holds(img) && g.storageSize <= |mem|
    requires PlanSave(c, g, mem, img).Go?
    ensures OthersValid(c, SaveResult(c, g, mem, img, budget).image)
  {
    hide PlanSave, Cut, Writes, SaveResult, ReadUpTo, Target, Encode, FieldsValid, AllKnown, OthersValid, LayoutStatus, WellFormed,
      BoolsValid, FloatsSupported, Lies;
    SaveImage(c, g, mem, img, budget);
    BoolsAndOthers(c, img);
    OthersStayValid(c, Cut(c, g, mem, img, Writes(c, g, mem, img) - 1), g.Base(Target(c, g, mem)) + HEADER_SIZE, c.Count());
  }

  /** Whatever texts valid data holds, only a bool can come out of a save invalid. */
  lemma SaveBreaksBoolsOnly(c: Setup, g: Geometry, mem: bytes, img: bytes, budget: nat)
    requires c.Valid() && c.Holds(img) && g.storageSize <= |mem|
    requires FieldsValid(c, img)
    ensures FieldsValid(c, SaveResult(c, g, mem, img, budget).image) <==> BoolsValid(c, SaveResult(c, g, mem, img, budget).image)
  {
    SaveRefused(c, g, mem, img, budget);
    hide PlanSave, Cut, Writes, SaveResult, ReadUpTo, Target, Encode, FieldsValid, AllKnown, BoolsValid, OthersValid,
      LayoutStatus, WellFormed, FloatsSupported;
    BoolsAndOthers(c, img);
    BoolsAndOthers(c, SaveResult(c, g, mem, img, budget).image);
    if PlanSave(c, g, mem, img).Go? {
      SaveKeepsOthers(c, g, mem, img, budget);
    }
  }

  /** Data left by a successful save is valid. */
  lemma SavedIsValid(c: Setup, g: Geometry, mem: bytes, img: bytes, budget: nat)
    requires c.Valid() && c.Holds(img) && g.storageSize <= |mem|
    requires PlanSave(c, g, mem, img).Go?
    ensures SaveResult(c, g, mem, img, budget).status == Ok ==> FieldsValid(c, SaveResult(c, g, mem, img, budget).image)
  {
    hide PlanSave, Cut, Writes, SaveResult, Target, FieldsValid, LoadSlot, WellFormed;
    SaveOutcome(c, g, mem, img, budget);
    if SaveResult(c, g, mem, img, budget).status == Ok {
      LoadedIsValid(c, g, Cut(c, g, mem, img, Writes(c, g, mem, img) - 1), Target(c, g, mem), false);
    }
  }

  /** A bool right after the first text too long takes a character of that text
      once everything is programmed: the data is invalid unless that is 1, and
      valid if it is 1 and no further bool follows. */
  lemma SaveBreaksBool(c: Setup, g: Geometry, mem: bytes, img: bytes, budget: nat, i: nat)
    requires c.Valid() && c.Holds(img) && g.storageSize <= |mem|
    requires PlanSave(c, g, mem, img).Go? && budget >= Writes(c, g, mem, img) - 1
    requires i + 1 < c.Count() && ShortTextsUpTo(c, img, i) && !ShortText(c.At(i), Field(img, c.At(i)))
    requires c.At(i + 1).Kind() == Bool
    ensures
      var f, after := Field(img, c.At(i)), SaveResult(c, g, mem, img, budget).image;
      && Field(after, c.At(i + 1)) == [f[TextLen(f) % 0x1_0000]]
      && (FieldsValid(c, after) ==> f[TextLen(f) % 0x1_0000] == 1)
      && ((forall j :: i + 1 < j < c.Count() ==> c.At(j).Kind() != Bool) ==>
            (FieldsValid(c, after) <==> f[TextLen(f) % 0x1_0000] == 1))
  {
    hide PlanSave, Cut, Writes, SaveResult, ReadUpTo, Target, Encode, AllKnown, LayoutStatus, WellFormed, TextLen, Lies, FieldsValid;
    SaveImage(c, g, mem, img, budget);
    SaveBreaksBoolsOnly(c, g, mem, img, budget);
    var m, start := Cut(c, g, mem, img, Writes(c, g, mem, img) - 1), g.Base(Target(c, g, mem)) + HEADER_SIZE;
    BoolAfterLongText(c, img, m, start, i);
    LongTextChar(c, img, i);
    forall j | 0 <= j < i && c.At(j).Kind() == Bool
      ensures FieldStatus(c.platform, c.At(j), Field(SaveResult(c, g, mem, img, budget).image, c.At(j))) == Ok
    {
      BoolReadsBack(c, img, m, start, j, c.Count());
      ValidAt(c, img, j);
    }
  }

  lemma ValidAt(c: Setup, img: bytes, j: nat)
    requires c.Valid() && c.Holds(img) && j < c.Count() && FieldsValid(c, img)
    ensures FieldStatus(c.platform, c.At(j), Field(img, c.At(j))) == Ok
  {
  }

  lemma LongTextChar(c: Setup, img: bytes, i: nat)
    requires c.Valid() && c.Holds(img) && i < c.Count() && FieldsValid(c, img)
    requires !ShortText(c.At(i), Field(img, c.At(i)))
    ensures var f := Field(img, c.At(i)); TextLen(f) % 0x1_0000 < |f| && f[TextLen(f) % 0x1_0000] != 0
  {
    hide WellFormed;
    ValidAt(c, img, i);
  }

  /** The round trip, exactly: a save that may write everything succeeds and
      leaves the canonical image behind if and only if no text is longer than
      its 16-bit length word can say and the payload length fits 32 bits. */
  lemma SaveRoundTrip(c: Setup, g: Geometry, mem: bytes, img: bytes, budget: nat, buf: bytes)
    requires c.Valid() && c.Holds(img) && g.storageSize <= |mem|
    requires PlanSave(c, g, mem, img).Go? && budget >= Writes(c, g, mem, img)
    ensures
      var r := SaveResult(c, g, mem, img, budget);
      && (r.status == Ok && r.image == Canon(c, img) <==> ShortTexts(c, img) && |Encode(c, img)| < 0x1_0000_0000)
      && (r.status == Ok ==> Load(c, g, r.storage, buf) == Loaded(Ok, r.image))
  {
    hide Cut, Writes, LoadSlot, Target, Encode, Canon, Load, PlanSave, SaveResult, WellFormed, ShortTexts;
    var r := SaveResult(c, g, mem, img, budget);
    SaveOutcome(c, g, mem, img, budget);
    ReadBackOutcome(c, g, mem, img);
    if r.status == Ok {
      CommittedSaveVisible(c, g, mem, img, buf);
    }
  }

  // ----- success, told from the data alone

  /** The first n bytes of code parse as a whole payload, with valid content. */
  ghost predicate ReadsWhole(c: Setup, code: bytes, n: nat)
    requires c.Valid() && n <= |code|
  {
    var r := Read(c, code[..n], 0);
    r.status == Ok && r.pos == n && FieldsValid(c, r.image)
  }

  /** How much of a payload its header announces. */
  function Announced(code: bytes): (n: u32)
    ensures n <= |code|
  {
    |code| % 0x1_0000_0000
  }

  /** The announced part parses as a whole and has the checksum of all of it. */
  ghost predicate ReadsItself(c: Setup, code: bytes)
    requires c.Valid()
  {
    ReadsWhole(c, code, Announced(code)) && Crc32(code[..Announced(code)]) == Crc32(code)
  }

  ghost function SelfRead(c: Setup, code: bytes): bytes
    requires c.Valid()
  {
    Read(c, code[..Announced(code)], 0).image
  }

  lemma PayloadParses(c: Setup, m: bytes, start: nat, i: Info, code: bytes)
    requires c.Valid() && Lies(m, start, code)
    requires i.payloadLength == Announced(code) && i.payloadCrc == Crc32(code)
    ensures PayloadStatus(c, i, m, start, Read(c, m, start)) == Ok <==> ReadsItself(c, code)
    ensures ReadsItself(c, code) ==> Read(c, m, start).image == SelfRead(c, code)
  {
    hide Crc32, ReadUpTo, WellFormed, DataStatus, FieldsValid;
    var n := i.payloadLength;
    assert m[start..start + n] == code[..n] by {
      assert m[start..start + n] == m[start..start + |code|][..n];
    }
    var r, s := Read(c, m, start), Read(c, code[..n], 0);
    ValidMeansOk(c, r.image);
    if r.status == Ok && r.pos - start == n {
      assert Lies(code[..n], 0, m[start..r.pos]);
      ReadRelocates(c, m, start, code[..n], 0, c.Count());
    }
    if s.status == Ok && s.pos == n {
      assert code[..n][0..n] == code[..n];
      ReadRelocates(c, code[..n], 0, m, start, c.Count());
    }
  }

  lemma ProgrammedParses(c: Setup, g: Geometry, mem: bytes, img: bytes)
    requires c.Valid() && c.Holds(img) && g.storageSize <= |mem|
    requires PlanSave(c, g, mem, img).Go?
    ensures
      var check := LoadSlot(c, g, Cut(c, g, mem, img, Writes(c, g, mem, img) - 1), Target(c, g, mem), false, []);
      && (check.status == Ok <==> ReadsItself(c, Encode(c, img)))
      && (check.status == Ok ==> check.image == SelfRead(c, Encode(c, img)))
  {
    hide PlanSave, Cut, Writes, Probe, Read, PayloadStatus, Target, Encode, Lies, Crc32, WellFormed, HeaderBytes, NextGeneration,
      ShortTexts, Canon, LengthStatus, ReadsItself, SelfRead, RecordInfo;
    var m, start := Cut(c, g, mem, img, Writes(c, g, mem, img) - 1), g.Base(Target(c, g, mem)) + HEADER_SIZE;
    var i := RecordInfo(c, Encode(c, img), NextGeneration(c, g, mem));
    ReadBackOutcome(c, g, mem, img);
    ProgrammedPayload(c, g, mem, img);
    InfoOfPayload(c, Encode(c, img), NextGeneration(c, g, mem));
    PayloadParses(c, m, start, i, Encode(c, img));
  }

  lemma InfoOfPayload(c: Setup, payload: bytes, generation: u32)
    requires c.Valid()
    ensures var i := RecordInfo(c, payload, generation);
            i.payloadLength == Announced(payload) && i.payloadCrc == Crc32(payload)
  {
    hide Crc32;
  }

  /** A save that may write everything succeeds exactly when reading its own
      encoding, as long as the header says, consumes it with valid content and the
      same checksum; the data is then what that reading yields. Storage does not
      matter, and texts of any length are covered. */
  lemma SaveSucceedsExactly(c: Setup, g: Geometry, mem: bytes, img: bytes, budget: nat)
    requires c.Valid() && c.Holds(img) && g.storageSize <= |mem|
    requires PlanSave(c, g, mem, img).Go? && budget >= Writes(c, g, mem, img)
    ensures
      var r := SaveResult(c, g, mem, img, budget);
      && (r.status == Ok <==> ReadsItself(c, Encode(c, img)))
      && (r.status == Ok ==> r.image == SelfRead(c, Encode(c, img)))
  {
    hide PlanSave, Cut, Writes, LoadSlot, Target, Encode, WellFormed, SaveResult, ReadsItself, SelfRead;
    SaveOutcome(c, g, mem, img, budget);
    ProgrammedParses(c, g, mem, img);
  }

  /** Crash atomicity. Cut a save after any number of byte writes: load returns
      the canonical new image if and only if the commit byte was written, and
      what it would have returned before the save otherwise. */
  lemma SaveIsAtomic(c: Setup, g: Geometry, mem: bytes, img: bytes, k: nat, buf: bytes)
    requires c.Valid() && c.Holds(img) && g.storageSize <= |mem|
    requires PlanSave(c, g, mem, img).Go?
    requires ShortTexts(c, img) && |Encode(c, img)| < 0x1_0000_0000
    requires Preferred(c, g, mem).Some? ==> Decodes(c, g, mem, Preferred(c, g, mem).value)
    requires k <= Writes(c, g, mem, img)
    ensures
      var before, after := Load(c, g, mem, buf), Load(c, g, Cut(c, g, mem, img, k), buf);
      if k == Writes(c, g, mem, img) then after == Loaded(Ok, Canon(c, img))
      else after.image == before.image && (after.status == Ok <==> before.status == Ok)
  {
    hide Cut, Writes, LoadSlot, Target, Encode, Canon, Load, PlanSave, Preferred, WellFormed, ShortTexts;
    if k == Writes(c, g, mem, img) {
      ReadBackOutcome(c, g, mem, img);
      CommittedSaveVisible(c, g, mem, img, buf);
    } else {
      InterruptedSaveInvisible(c, g, mem, img, k, buf);
    }
  }

  /** With short texts a save leaves the caller's data as it was or canonical,
      whatever its outcome. */
  lemma SaveKeepsData(c: Setup, g: Geometry, mem: bytes, img: bytes, budget: nat)
    requires c.Valid() && c.Holds(img) && g.storageSize <= |mem|
    requires ShortTexts(c, img)
    ensures SaveResult(c, g, mem, img, budget).image in {img, Canon(c, img)}
  {
    hide Cut, Writes, LoadSlot, Target, Encode, Canon, WellFormed, ShortTexts, HeaderBytes, RecordInfo, NextGeneration;
    if PlanSave(c, g, mem, img).Go? {
      PlanMeaning(c, g, mem, img);
      ReadBackOutcome(c, g, mem, img);
      var programmed := Cut(c, g, mem, img, Writes(c, g, mem, img) - 1);
      BufferIrrelevant(c, g, programmed, Target(c, g, mem), false, img, []);
    }
  }

  // ----- runs

  /** One save attempt: the data at the time and how many byte writes the device
      performs. A read-back that fails for good leaves what a budget one short
      of the commit leaves. */
  datatype Attempt = Attempt(data: bytes, budget: nat)

  /** Storage, with the history it is meant to reflect. */
  datatype World = World(mem: bytes, last: Option<bytes>, saves: nat)

  ghost function Step(c: Setup, g: Geometry, w: World, a: Attempt): (w': World)
    requires c.Valid() && c.Holds(a.data) && g.storageSize <= |w.mem|
    ensures |w'.mem| == |w.mem|
  {
    var r := SaveResult(c, g, w.mem, a.data, a.budget);
    if r.status == Ok then World(r.storage, Some(r.image), w.saves + 1) else World(r.storage, w.last, w.saves)
  }

  ghost predicate Attempts(c: Setup, run: seq<Attempt>) {
    forall i :: 0 <= i < |run| ==> c.Holds(run[i].data)
  }

  ghost function Run(c: Setup, g: Geometry, w: World, run: seq<Attempt>): (w': World)
    requires c.Valid() && Attempts(c, run) && g.storageSize <= |w.mem|
    ensures |w'.mem| == |w.mem|
  {
    if run == [] then w else Step(c, g, Run(c, g, w, run[..|run| - 1]), run[|run| - 1])
  }

  /** Storage reflects its history: the newest header belongs to the last
      completed save and decodes to its data; the other slot, if committed,
      belongs to the save before. */
  ghost predicate Reflects(c: Setup, g: Geometry, w: World)
    requires c.Valid()
  {
    && g.Usable() && g.storageSize <= |w.mem|
    && (w.last.None? <==> w.saves == 0)
    && (Preferred(c, g, w.mem).Some? <==> w.saves > 0)
    && (w.saves > 0 ==>
          var s := Preferred(c, g, w.mem).value;
          && LoadSlot(c, g, w.mem, s, true, []) == Loaded(Ok, w.last.value)
          && HasGeneration(c, g, w.mem, s, w.saves)
          && (Committed(c, g, w.mem, Other(s)) ==>
                w.saves > 1 && Decodes(c, g, w.mem, Other(s)) && HasGeneration(c, g, w.mem, Other(s), w.saves - 1)))
  }

  ghost predicate HasGeneration(c: Setup, g: Geometry, mem: bytes, slot: Slot, n: nat)
    requires c.Valid()
  {
    Committed(c, g, mem, slot) && Probe(c, g, mem, slot, true).info.generation == Generation(n)
  }

  lemma StepReflects(c: Setup, g: Geometry, w: World, a: Attempt)
    requires c.Valid() && c.Holds(a.data)
    requires Reflects(c, g, w)
    ensures Reflects(c, g, Step(c, g, w, a))
  {
    hide SaveResult, Cut, Writes, PlanSave, LoadSlot, Target, Reflects, Load, Preferred, WellFormed;
    ReflectsStorage(c, g, w);
    var r := SaveResult(c, g, w.mem, a.data, a.budget);
    if PlanSave(c, g, w.mem, a.data).Refuse? {
      RefusedLeaves(c, g, w.mem, a.data, a.budget);
    } else {
      SaveOutcome(c, g, w.mem, a.data, a.budget);
      var k := StopsAt(c, g, w.mem, a.data, a.budget);
      if r.status == Ok {
        StepCompletes(c, g, w, a.data, r.image);
      } else if k == 0 {
        NothingWritten(c, g, w.mem, a.data);
      } else {
        StepTears(c, g, w, a.data, k);
      }
    }
  }

  lemma RefusedLeaves(c: Setup, g: Geometry, mem: bytes, img: bytes, budget: nat)
    requires c.Valid() && c.Holds(img) && g.storageSize <= |mem|
    requires PlanSave(c, g, mem, img).Refuse?
    ensures SaveResult(c, g, mem, img, budget).status != Ok
    ensures SaveResult(c, g, mem, img, budget).storage == mem
  {
  }

  lemma ReflectsStorage(c: Setup, g: Geometry, w: World)
    requires c.Valid() && Reflects(c, g, w)
    ensures g.Usable() && g.storageSize <= |w.mem|
  {
  }

  lemma NothingWritten(c: Setup, g: Geometry, mem: bytes, img: bytes)
    requires c.Valid() && c.Holds(img) && g.storageSize <= |mem|
    requires PlanSave(c, g, mem, img).Go?
    ensures Cut(c, g, mem, img, 0) == mem
  {
    hide PlanSave;
  }

  lemma StepTears(c: Setup, g: Geometry, w: World, img: bytes, k: nat)
    requires c.Valid() && c.Holds(img)
    requires Reflects(c, g, w)
    requires PlanSave(c, g, w.mem, img).Go? && 0 < k < Writes(c, g, w.mem, img)
    ensures Reflects(c, g, w.(mem := Cut(c, g, w.mem, img, k)))
  {
    hide Cut, PlanSave, Probe, LoadSlot, Preferred, Generation, Writes, Target, WellFormed;
    var m := Cut(c, g, w.mem, img, k);
    TornState(c, g, w.mem, img, k);
    if w.saves > 0 {
      PreferredTarget(c, g, w.mem);
      SlotFrame(c, g, w.mem, m, Preferred(c, g, w.mem).value, true);
    }
  }

  lemma StepCompletes(c: Setup, g: Geometry, w: World, img: bytes, kept: bytes)
    requires c.Valid() && c.Holds(img)
    requires Reflects(c, g, w)
    requires PlanSave(c, g, w.mem, img).Go?
    requires LoadSlot(c, g, Cut(c, g, w.mem, img, Writes(c, g, w.mem, img) - 1), Target(c, g, w.mem), false, []) == Loaded(Ok, kept)
    ensures Reflects(c, g, World(Cut(c, g, w.mem, img, Writes(c, g, w.mem, img)), Some(kept), w.saves + 1))
  {
    hide Cut, PlanSave, Probe, LoadSlot, Preferred, Generation, Successor, Target, NextGeneration, Load, Writes, WellFormed;
    CommittedSaveVisible(c, g, w.mem, img, []);
    GenerationAdvances(w.saves);
    NextIsSuccessor(c, g, w);
    var m, t := Cut(c, g, w.mem, img, Writes(c, g, w.mem, img)), Target(c, g, w.mem);
    if w.saves > 0 {
      PreferredTarget(c, g, w.mem);
      SlotFrame(c, g, w.mem, m, Other(t), true);
    } else {
      NoneCommitted(c, g, w.mem);
    }
  }

  lemma NoneCommitted(c: Setup, g: Geometry, mem: bytes)
    requires c.Valid()
    ensures Preferred(c, g, mem).None? <==> !Committed(c, g, mem, 0) && !Committed(c, g, mem, 1)
  {
  }

  lemma NextIsSuccessor(c: Setup, g: Geometry, w: World)
    requires c.Valid() && Reflects(c, g, w)
    ensures NextGeneration(c, g, w.mem) == Successor(Generation(w.saves))
  {
    hide Probe, LoadSlot;
  }

  /** However long the run and wherever its saves were interrupted, load answers
      with the data of the last save that reported success, or with defaults if
      there was none. */
  lemma {:induction false} RunsAreLinear(c: Setup, g: Geometry, w: World, run: seq<Attempt>, buf: bytes)
    requires c.Valid() && Attempts(c, run)
    requires Reflects(c, g, w)
    ensures Reflects(c, g, Run(c, g, w, run))
    ensures
      var w' := Run(c, g, w, run);
      && (w'.last.Some? ==> Load(c, g, w'.mem, buf) == Loaded(Ok, w'.last.value))
      && (w'.last.None? ==> Load(c, g, w'.mem, buf).status != Ok && Load(c, g, w'.mem, buf).image == Defaults(c))
  {
    hide SaveResult, LoadSlot, Probe, Load, Preferred, Fallback;
    if run == [] {
    } else {
      RunsAreLinear(c, g, w, run[..|run| - 1], buf);
      StepReflects(c, g, Run(c, g, w, run[..|run| - 1]), run[|run| - 1]);
    }
    PreferredAnswers(c, g, Run(c, g, w, run).mem, buf);
  }

  // ----- runs from any storage whose newest record is good

  ghost predicate Sound(c: Setup, g: Geometry, mem: bytes)
    requires c.Valid()
  {
    Preferred(c, g, mem).Some? ==> Decodes(c, g, mem, Preferred(c, g, mem).value)
  }

  /** One save keeps storage sound: load answers with the new data or as before. */
  lemma StepSound(c: Setup, g: Geometry, w: World, a: Attempt, buf: bytes)
    requires c.Valid() && c.Holds(a.data) && g.Usable() && g.storageSize <= |w.mem|
    requires Sound(c, g, w.mem)
    ensures
      var w', before := Step(c, g, w, a), Load(c, g, w.mem, buf);
      var after := Load(c, g, w'.mem, buf);
      && Sound(c, g, w'.mem)
      && (w'.saves != w.saves ==> w'.last.Some? && after == Loaded(Ok, w'.last.value))
      && (w'.saves == w.saves ==> w'.last == w.last && after.image == before.image && (after.status == Ok <==> before.status == Ok))
  {
    hide PlanSave, Cut, Writes, LoadSlot, Target, Preferred, Load, WellFormed, SaveResult;
    SaveRefused(c, g, w.mem, a.data, a.budget);
    if PlanSave(c, g, w.mem, a.data).Go? {
      SaveOutcome(c, g, w.mem, a.data, a.budget);
      var k := StopsAt(c, g, w.mem, a.data, a.budget);
      if k == Writes(c, g, w.mem, a.data) {
        CommittedSaveVisible(c, g, w.mem, a.data, buf);
      } else {
        InterruptedSaveInvisible(c, g, w.mem, a.data, k, buf);
        if Preferred(c, g, w.mem).Some? {
          PreferredUntouched(c, g, w.mem, a.data, k);
        }
      }
    }
  }

  /** From any storage whose newest record decodes, whatever its generations: load
      answers with the data of the last save of the run that reported success, or
      as it did at the start. */
  lemma {:induction false} RunsFromAnyStart(c: Setup, g: Geometry, mem: bytes, run: seq<Attempt>, buf: bytes)
    requires c.Valid() && Attempts(c, run) && g.Usable() && g.storageSize <= |mem|
    requires Sound(c, g, mem)
    ensures
      var w', before := Run(c, g, World(mem, None, 0), run), Load(c, g, mem, buf);
      var after := Load(c, g, w'.mem, buf);
      && Sound(c, g, w'.mem)
      && (w'.last.Some? ==> after == Loaded(Ok, w'.last.value))
      && (w'.last.None? ==> after.image == before.image && (after.status == Ok <==> before.status == Ok))
  {
    hide Sound, Load, Step, WellFormed;
    if run == [] {
    } else {
      var front, last := run[..|run| - 1], run[|run| - 1];
      var w := Run(c, g, World(mem, None, 0), front);
      RunsFromAnyStart(c, g, mem, front, buf);
      StepSound(c, g, w, last, buf);
      StepCounts(c, g, w, last);
    }
  }

  lemma StepCounts(c: Setup, g: Geometry, w: World, a: Attempt)
    requires c.Valid() && c.Holds(a.data) && g.storageSize <= |w.mem|
    ensures var w' := Step(c, g, w, a); w'.saves == w.saves ==> w'.last == w.last
  {
    hide SaveResult;
  }

  /** Any storage without a committed slot, erased storage for one, is a start. */
  lemma FreshStart(c: Setup, g: Geometry, mem: bytes)
    requires c.Valid() && g.Usable() && g.storageSize <= |mem|
    requires !Committed(c, g, mem, 0) && !Committed(c, g, mem, 1)
    ensures Reflects(c, g, World(mem, None, 0))
  {
    NoneCommitted(c, g, mem);
  }

  lemma ErasedIsFresh(c: Setup, g: Geometry, n: nat)
    requires c.Valid() && g.Usable() && g.storageSize <= n
    ensures Reflects(c, g, World(Fill(n, ERASED), None, 0))
  {
    hide Probe;
    NotCommitted(c, g, Fill(n, ERASED), 0);
    NotCommitted(c, g, Fill(n, ERASED), 1);
    FreshStart(c, g, Fill(n, ERASED));
  }

  // ----- the run seen as a register

  /** Whether an attempt gets through, told from the attempt alone. */
  ghost predicate Lands(c: Setup, g: Geometry, a: Attempt)
    requires c.Valid() && c.Holds(a.data)
  {
    && LayoutStatus(c, a.data) == Ok
    && HEADER_SIZE + |Encode(c, a.data)| <= g.slotSize
    && ReadsItself(c, Encode(c, a.data))
    && g.slotSize + HEADER_SIZE + |Encode(c, a.data)| + 1 <= a.budget
  }

  /** What the encoding of the last attempt that got through reads as. */
  ghost function LastLanded(c: Setup, g: Geometry, run: seq<Attempt>): Option<bytes>
    requires c.Valid() && Attempts(c, run)
  {
    if run == [] then None
    else
      var a := run[|run| - 1];
      if Lands(c, g, a) then Some(SelfRead(c, Encode(c, a.data))) else LastLanded(c, g, run[..|run| - 1])
  }

  /** With texts of at most 65535, an encoding reads itself exactly if its length
      fits the header, and reads as the canonical image. */
  lemma ShortReadsItself(c: Setup, img: bytes)
    requires c.Valid() && c.Holds(img) && LayoutStatus(c, img) == Ok && ShortTexts(c, img)
    ensures ReadsItself(c, Encode(c, img)) <==> |Encode(c, img)| < 0x1_0000_0000
    ensures |Encode(c, img)| < 0x1_0000_0000 ==> SelfRead(c, Encode(c, img)) == Canon(c, img)
  {
    hide ReadUpTo, WellFormed, Encode, Canon, Crc32, ShortTexts, LayoutStatus, FieldsValid;
    var code := Encode(c, img);
    assert Lies(code, 0, code);
    ReadsBack(c, img, code, 0);
    CanonIsValid(c, img);
    var n := Announced(code);
    if n == |code| {
      assert code[..n] == code;
    } else if ReadsWhole(c, code, n) {
      assert Lies(code, 0, code[..n][0..n]);
      ReadRelocates(c, code[..n], 0, code, 0, c.Count());
    }
  }

  lemma CanonIsValid(c: Setup, img: bytes)
    requires c.Valid() && c.Holds(img) && LayoutStatus(c, img) == Ok
    ensures FieldsValid(c, Canon(c, img))
  {
    hide Canon, DataStatus, FieldsValid, WellFormed;
    ValidMeansOk(c, img);
    CanonMeaning(c, img);
  }

  lemma StepLands(c: Setup, g: Geometry, w: World, a: Attempt)
    requires c.Valid() && c.Holds(a.data)
    requires g.Usable() && g.storageSize <= |w.mem|
    ensures Step(c, g, w, a).last == if Lands(c, g, a) then Some(SelfRead(c, Encode(c, a.data))) else w.last
  {
    hide LayoutStatus, Encode, Target, NextGeneration, RecordBytes, LoadSlot, Cut, WellFormed, ReadsItself, SelfRead, SaveResult;
    SaveRefused(c, g, w.mem, a.data, a.budget);
    if PlanSave(c, g, w.mem, a.data).Go? {
      WritesCount(c, g, w.mem, a.data);
      hide PlanSave, Writes;
      if a.budget >= Writes(c, g, w.mem, a.data) {
        SaveSucceedsExactly(c, g, w.mem, a.data, a.budget);
      } else {
        SaveOutcome(c, g, w.mem, a.data, a.budget);
      }
    }
  }

  lemma WritesCount(c: Setup, g: Geometry, mem: bytes, img: bytes)
    requires c.Valid() && c.Holds(img)
    requires PlanSave(c, g, mem, img).Go?
    ensures Writes(c, g, mem, img) == g.slotSize + HEADER_SIZE + |Encode(c, img)| + 1
  {
    hide LayoutStatus, Encode, Target, NextGeneration, HeaderBytes, WellFormed;
    PlanMeaning(c, g, mem, img);
  }

  /** What a run leaves is told from its attempts alone. */
  lemma {:induction false} LastIsLanded(c: Setup, g: Geometry, mem: bytes, run: seq<Attempt>)
    requires c.Valid() && Attempts(c, run) && g.Usable() && g.storageSize <= |mem|
    ensures Run(c, g, World(mem, None, 0), run).last == LastLanded(c, g, run)
  {
    hide Step, Lands, SelfRead, WellFormed;
    if run == [] {
    } else {
      var front := run[..|run| - 1];
      LastIsLanded(c, g, mem, front);
      StepLands(c, g, Run(c, g, World(mem, None, 0), front), run[|run| - 1]);
    }
  }

  /** Storage behaves as one atomic register: load returns what the encoding of the
      last attempt that got through reads as, and nothing else about the attempts
      matters. */
  lemma RunsAreARegister(c: Setup, g: Geometry, n: nat, run: seq<Attempt>, buf: bytes)
    requires c.Valid() && Attempts(c, run) && g.Usable() && g.storageSize <= n
    ensures Run(c, g, World(Fill(n, ERASED), None, 0), run).last == LastLanded(c, g, run)
    ensures
      var answer := Load(c, g, Run(c, g, World(Fill(n, ERASED), None, 0), run).mem, buf);
      match LastLanded(c, g, run)
      case Some(image) => answer == Loaded(Ok, image)
      case None => answer.status != Ok && answer.image == Defaults(c)
  {
    hide Reflects, Load, LastLanded, Run, Defaults, WellFormed;
    ErasedIsFresh(c, g, n);
    RunsAreLinear(c, g, World(Fill(n, ERASED), None, 0), run, buf);
    LastIsLanded(c, g, Fill(n, ERASED), run);
  }

  /** The canonical image of the last attempt that got through, when no text is
      longer than 65535. */
  ghost function LastCanon(c: Setup, g: Geometry, run: seq<Attempt>): Option<bytes>
    requires c.Valid() && Attempts(c, run)
  {
    if run == [] then None
    else
      var a := run[|run| - 1];
      if CanonLands(c, g, a) then Some(Canon(c, a.data)) else LastCanon(c, g, run[..|run| - 1])
  }

  ghost predicate CanonLands(c: Setup, g: Geometry, a: Attempt)
    requires c.Valid() && c.Holds(a.data)
  {
    && LayoutStatus(c, a.data) == Ok
    && HEADER_SIZE + |Encode(c, a.data)| <= g.slotSize
    && |Encode(c, a.data)| < 0x1_0000_0000
    && g.slotSize + HEADER_SIZE + |Encode(c, a.data)| + 1 <= a.budget
  }

  /** Then the register holds exactly what was saved. */
  lemma {:induction false} RegisterIsCanonical(c: Setup, g: Geometry, run: seq<Attempt>)
    requires c.Valid() && Attempts(c, run)
    requires forall i :: 0 <= i < |run| ==> ShortTexts(c, run[i].data)
    ensures LastLanded(c, g, run) == LastCanon(c, g, run)
  {
    hide LayoutStatus, Encode, Canon, SelfRead, ReadsItself, ShortTexts, WellFormed;
    if run == [] {
    } else {
      var a := run[|run| - 1];
      RegisterIsCanonical(c, g, run[..|run| - 1]);
      if LayoutStatus(c, a.data) == Ok {
        ShortReadsItself(c, a.data);
      }
    }
  }

  /** The same register on any storage whose newest record decodes: before the
      first attempt gets through, load answers as it did at the start. */
  lemma RegisterFromAnyStart(c: Setup, g: Geometry, mem: bytes, run: seq<Attempt>, buf: bytes)
    requires c.Valid() && Attempts(c, run) && g.Usable() && g.storageSize <= |mem|
    requires Sound(c, g, mem)
    ensures
      var before, answer := Load(c, g, mem, buf), Load(c, g, Run(c, g, World(mem, None, 0), run).mem, buf);
      match LastLanded(c, g, run)
      case Some(image) => answer == Loaded(Ok, image)
      case None => answer.image == before.image && (answer.status == Ok <==> before.status == Ok)
  {
    hide Load, LastLanded, Run, Sound, WellFormed;
    RunsFromAnyStart(c, g, mem, run, buf);
    LastIsLanded(c, g, mem, run);
  }

  /** Committed slots decode, no committed generation is 0, the newest counts the
      completed saves modulo 2^32 - 1, and of two committed slots the comparison
      picks the one that carries the successor. */
  lemma GenerationsInOrder(c: Setup, g: Geometry, w: World)
    requires c.Valid() && Reflects(c, g, w)
    ensures forall s: Slot :: Committed(c, g, w.mem, s) ==>
      Decodes(c, g, w.mem, s) && Probe(c, g, w.mem, s, true).info.generation != 0
    ensures w.saves > 0 <==> Preferred(c, g, w.mem).Some?
    ensures Preferred(c, g, w.mem).Some? ==>
      var late := Preferred(c, g, w.mem).value;
      && HasGeneration(c, g, w.mem, late, w.saves)
      && (Committed(c, g, w.mem, Other(late)) ==>
            Probe(c, g, w.mem, late, true).info.generation == Successor(Probe(c, g, w.mem, Other(late), true).info.generation))
  {
    hide Probe, LoadSlot, Preferred, Successor;
    NoneCommitted(c, g, w.mem);
    if w.saves > 0 {
      var late := Preferred(c, g, w.mem).value;
      GenerationAdvances(w.saves - 1);
      forall s: Slot | Committed(c, g, w.mem, s)
        ensures Decodes(c, g, w.mem, s) && Probe(c, g, w.mem, s, true).info.generation != 0
      {
        assert s == late || s == Other(late);
      }
    }
  }
}
