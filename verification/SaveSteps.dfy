// The phases of a save as they leave the device, and how they add up to the
// trace and the outcome the save is specified to have.

module SaveSteps {
  import opened Words
  import opened Crc
  import opened Schema
  import opened Image
  import opened Payload
  import opened Record
  import opened Save
  import opened Atomicity
  import opened Eeprom
  import opened Unheard

  /** Between a and b nothing outside the given slot of the region changed. */
  ghost predicate OneSlotChanged(g: Geometry, base: nat, a: bytes, b: bytes, slot: Slot) {
    SameOutside(a, b, base + g.Base(slot), base + g.Base(slot) + g.slotSize)
  }

  /** The device performed a prefix of the byte writes that put record into the
      slot and commit it. */
  ghost predicate Traced(faithful: bool, a: Shot, b: Shot, base: nat, size: nat, slot: nat, slotSize: nat, record: bytes)
    requires base + size <= |a.cells| && slot + slotSize <= size
    requires HEADER_SIZE <= |record| <= slotSize
  {
    var written := a.budget - b.budget;
    && |b.cells| == |a.cells|
    && 0 <= written <= Length(slotSize, record)
    && (faithful ==> Region(b, base, size) == AfterBytes(Region(a, base, size), slot, slotSize, record, written))
  }

  /** Once the commit byte is in place load returns the data read back, or, in the
      one case where it stays hidden, the old record in slot 1. */
  ghost predicate Answers(c: Setup, g: Geometry, base: nat, a: Shot, b: Shot, img': bytes, p0: Probed, p1: Probed)
    requires c.Valid() && g.Usable() && base + g.storageSize <= |a.cells| == |b.cells|
  {
    var m0, m := Region(a, base, g.storageSize), Region(b, base, g.storageSize);
    m[g.Base(TargetFor(p0, p1)) + STATE_OFFSET] == COMMITTED ==>
      Load(c, g, m, []) == if Overshadowed(c, g, m0, p0, p1) then LoadSlot(c, g, m0, 1, true, []) else Loaded(Ok, img')
  }

  lemma CommitAnswered(c: Setup, g: Geometry, faithful: bool, base: nat, a: Shot, b: Shot, d: Shot, i: Info, img': bytes, p0: Probed, p1: Probed)
    requires c.Valid() && g.Usable() && base + g.storageSize <= |a.cells| == |b.cells|
    requires BothHeard(c, g, Region(a, base, g.storageSize), p0, p1)
    requires OneSlotChanged(g, base, a.cells, b.cells, TargetFor(p0, p1))
    requires i == HeaderOf(c, UNCOMMITTED, i.payloadLength, GenerationFor(p0, p1), i.payloadCrc)
    requires Lies(Region(b, base, g.storageSize), g.Base(TargetFor(p0, p1)), HeaderBytes(i))
    requires LoadSlot(c, g, Region(b, base, g.storageSize), TargetFor(p0, p1), false, []) == Loaded(Ok, img')
    requires CommitDone(faithful, b, d, base, g.storageSize, g.Base(TargetFor(p0, p1)))
    ensures |a.cells| == |d.cells| && Answers(c, g, base, a, d, img', p0, p1)
  {
    hide Lies, HeaderBytes, LoadSlot, Load, TargetFor, GenerationFor, BothHeard, Overshadowed, Commit, WellFormed, HeaderOf;
    var t := TargetFor(p0, p1);
    RegionFrame(a.cells, b.cells, base, g.storageSize, g.Base(t), g.Base(t) + g.slotSize);
    VisibleExactly(c, g, Region(a, base, g.storageSize), Region(b, base, g.storageSize), p0, p1, i, []);
  }

  /** Whatever the probes said, a save that goes ahead writes the record that
      follows from it into the slot that does, and succeeds exactly when it wrote
      everything; what load returns then is known too. */
  ghost predicate SavedUnder(c: Setup, g: Geometry, faithful: bool, base: nat, a: Shot, img: bytes, r: Status, b: Shot, img': bytes, p0: Probed, p1: Probed)
    requires c.Valid() && c.Holds(img) && base + g.storageSize <= |a.cells|
  {
    && OneSlotChanged(g, base, a.cells, b.cells, TargetFor(p0, p1))
    && (PlanSave(c, g, Region(a, base, g.storageSize), img).Go? ==>
          var record := RecordBytes(c, Encode(c, img), GenerationFor(p0, p1));
          && Traced(faithful, a, b, base, g.storageSize, g.Base(TargetFor(p0, p1)), g.slotSize, record)
          && (r == Ok <==> a.budget - b.budget == Length(g.slotSize, record))
          && (r == Ok ==> Answers(c, g, base, a, b, img', p0, p1)))
  }

  lemma RefusedUnder(c: Setup, g: Geometry, faithful: bool, base: nat, a: Shot, img: bytes, r: Status)
    requires c.Valid() && c.Holds(img) && base + g.storageSize <= |a.cells|
    ensures
      var m := Region(a, base, g.storageSize);
      PlanSave(c, g, m, img).Refuse? ==>
        r != Ok ==> SavedUnder(c, g, faithful, base, a, img, r, a, img, Probe(c, g, m, 0, true), Probe(c, g, m, 1, true))
  {
    hide PlanSave, Probe, TargetFor;
  }

  lemma ProgrammedTraced(faithful: bool, a: Shot, b: Shot, base: nat, size: nat, slot: nat, slotSize: nat, record: bytes, ok: bool)
    requires base + size <= |a.cells| && slot + slotSize <= size
    requires HEADER_SIZE <= |record| <= slotSize
    requires Programmed(faithful, a, b, base, size, slot, slotSize, record, ok)
    ensures Traced(faithful, a, b, base, size, slot, slotSize, record)
    ensures !ok ==> a.budget - b.budget < slotSize + |record|
    ensures ok ==> a.budget - b.budget == slotSize + |record|
  {
    hide AfterBytes;
  }

  lemma CommitTraced(faithful: bool, a: Shot, b: Shot, d: Shot, base: nat, size: nat, slot: nat, slotSize: nat, record: bytes)
    requires base + size <= |a.cells| && slot + slotSize <= size
    requires HEADER_SIZE <= |record| <= slotSize
    requires Programmed(faithful, a, b, base, size, slot, slotSize, record, true)
    requires CommitDone(faithful, b, d, base, size, slot)
    ensures Traced(faithful, a, d, base, size, slot, slotSize, record)
  {
    hide Erased, Splice, Commit;
    assert record[..|record|] == record;
  }

  /** A faithful device then holds the payload behind the header. */
  lemma PayloadInPlace(a: Shot, b: Shot, base: nat, size: nat, slot: nat, slotSize: nat, header: bytes, payload: bytes)
    requires base + size <= |a.cells| && slot + slotSize <= size
    requires HEADER_SIZE == |header| <= |header + payload| <= slotSize
    requires Programmed(true, a, b, base, size, slot, slotSize, header + payload, true)
    ensures base + size <= |b.cells| && Lies(Region(b, base, size), slot + HEADER_SIZE, payload)
  {
    hide Erased;
    var record := header + payload;
    assert record[..|record|] == record;
    assert Lies(Region(b, base, size), slot, record);
    LiesApart(Region(b, base, size), slot, header, payload);
  }

  lemma ProgrammedOneSlot(g: Geometry, faithful: bool, a: Shot, b: Shot, base: nat, slot: Slot, record: bytes, ok: bool)
    requires g.Usable() && base + g.storageSize <= |a.cells| && HEADER_SIZE <= |record| <= g.slotSize
    requires Programmed(faithful, a, b, base, g.storageSize, g.Base(slot), g.slotSize, record, ok)
    ensures OneSlotChanged(g, base, a.cells, b.cells, slot)
  {
    hide AfterBytes;
  }

  lemma CommitOneSlot(g: Geometry, faithful: bool, base: nat, a: bytes, b: Shot, d: Shot, slot: Slot)
    requires g.Usable() && base + g.storageSize <= |b.cells|
    requires OneSlotChanged(g, base, a, b.cells, slot)
    requires CommitDone(faithful, b, d, base, g.storageSize, g.Base(slot))
    ensures OneSlotChanged(g, base, a, d.cells, slot)
  {
    hide Commit;
  }

  /** Between the two shots a save erased and programmed its slot, as far as
      power allowed; ok says whether it got to the commit. */
  ghost predicate Programmed(faithful: bool, a: Shot, c: Shot, base: nat, size: nat, slot: nat, slotSize: nat, record: bytes, ok: bool)
    requires base + size <= |a.cells| && slot + slotSize <= size
    requires HEADER_SIZE <= |record| <= slotSize
  {
    var n := Min(slotSize + |record|, a.budget);
    && (ok <==> n == slotSize + |record|)
    && c.budget == a.budget - n
    && SameOutside(a.cells, c.cells, base + slot, base + slot + slotSize)
    && (faithful ==> Region(c, base, size) == AfterBytes(Region(a, base, size), slot, slotSize, record, n))
  }

  lemma ErasePhase(faithful: bool, a: Shot, b: Shot, base: nat, size: nat, slot: nat, slotSize: nat, record: bytes)
    requires base + size <= |a.cells| && slot + slotSize <= size
    requires HEADER_SIZE <= |record| <= slotSize
    requires Wrote(faithful, a, b, base + slot, Fill(slotSize, ERASED), false)
    ensures Programmed(faithful, a, b, base, size, slot, slotSize, record, false)
  {
    hide AfterBytes, Splice;
    if faithful {
      ErasedTrace(a, b, base, size, slot, slotSize, record, false);
    }
  }

  lemma ProgramPhase(faithful: bool, a: Shot, b: Shot, c: Shot, base: nat, size: nat, slot: nat, slotSize: nat, record: bytes, ok: bool)
    requires base + size <= |a.cells| && slot + slotSize <= size
    requires HEADER_SIZE <= |record| <= slotSize
    requires Wrote(faithful, a, b, base + slot, Fill(slotSize, ERASED), true)
    requires Wrote(faithful, b, c, base + slot, record, ok)
    ensures Programmed(faithful, a, c, base, size, slot, slotSize, record, ok)
  {
    hide AfterBytes, Splice;
    if faithful {
      ProgrammedTrace(a, b, c, base, size, slot, slotSize, record, ok);
    }
  }

  /** What a save that went ahead guarantees on any device. */
  ghost predicate SaveKept(c: Setup, g: Geometry, faithful: bool, base: nat, a: Shot, img: bytes, r: Status, b: Shot, img': bytes)
    requires c.Valid() && c.Holds(img) && base + g.storageSize <= |a.cells| == |b.cells|
    requires PlanSave(c, g, Region(a, base, g.storageSize), img).Go?
  {
    var m0, m := Region(a, base, g.storageSize), Region(b, base, g.storageSize);
    var slot, all := base + g.Base(Target(c, g, m0)), Writes(c, g, m0, img);
    var written := a.budget - b.budget;
    && 0 <= written <= all
    && SameOutside(a.cells, b.cells, slot, slot + g.slotSize)
    && (r == Ok <==> written == all)
    && (written < all - 1 ==> img' == img)
    && (faithful ==> m == Cut(c, g, m0, img, written))
    && (r == Ok && b.cells[slot + STATE_OFFSET] == COMMITTED ==> Load(c, g, m, []) == Loaded(Ok, img'))
  }

  /** A save that ran out of power before everything was programmed. */
  lemma SaveStopsEarly(c: Setup, g: Geometry, faithful: bool, base: nat, a: Shot, img: bytes, b: Shot)
    requires c.Valid() && c.Holds(img) && base + g.storageSize <= |a.cells|
    requires PlanSave(c, g, Region(a, base, g.storageSize), img).Go?
    requires
      var p := PlanSave(c, g, Region(a, base, g.storageSize), img);
      Programmed(faithful, a, b, base, g.storageSize, g.Base(p.target), g.slotSize, p.record, false)
    ensures |a.cells| == |b.cells|
    ensures SaveKept(c, g, faithful, base, a, img, ErrIo, b, img)
    ensures faithful ==>
      Saved(ErrIo, Region(b, base, g.storageSize), img) == SaveResult(c, g, Region(a, base, g.storageSize), img, a.budget)
  {
    hide LayoutStatus, Encode, AfterBytes, Load, LoadSlot, HeaderBytes, Preferred;
    PlanMeaning(c, g, Region(a, base, g.storageSize), img);
  }

  /** Where things stand when all but the commit has been written. */
  ghost predicate ReadyToCommit(c: Setup, g: Geometry, faithful: bool, base: nat, a: Shot, img: bytes, b: Shot)
    requires c.Valid() && c.Holds(img) && base + g.storageSize <= |a.cells|
    requires PlanSave(c, g, Region(a, base, g.storageSize), img).Go?
  {
    var m0, all := Region(a, base, g.storageSize), Writes(c, g, Region(a, base, g.storageSize), img);
    var t := Target(c, g, m0);
    && |a.cells| == |b.cells|
    && a.budget - b.budget == all - 1
    && SameOutside(a.cells, b.cells, base + g.Base(t), base + g.Base(t) + g.slotSize)
    && (faithful ==> Region(b, base, g.storageSize) == Cut(c, g, m0, img, all - 1))
    && (faithful ==> Lies(Region(b, base, g.storageSize), g.Base(t), NewHeader(c, g, m0, img)))
  }

  function NewHeader(c: Setup, g: Geometry, mem: bytes, img: bytes): bytes
    requires c.Valid() && c.Holds(img)
  {
    HeaderBytes(RecordInfo(c, Encode(c, img), NextGeneration(c, g, mem)))
  }

  lemma SaveProgrammed(c: Setup, g: Geometry, faithful: bool, base: nat, a: Shot, img: bytes, b: Shot)
    requires c.Valid() && c.Holds(img) && base + g.storageSize <= |a.cells|
    requires PlanSave(c, g, Region(a, base, g.storageSize), img).Go?
    requires
      var p := PlanSave(c, g, Region(a, base, g.storageSize), img);
      Programmed(faithful, a, b, base, g.storageSize, g.Base(p.target), g.slotSize, p.record, true)
    ensures ReadyToCommit(c, g, faithful, base, a, img, b)
  {
    hide LayoutStatus, Encode, AfterBytes, HeaderBytes, Preferred, Lies, NewHeader, RecordBytes, WellFormed;
    HeaderInCut(c, g, Region(a, base, g.storageSize), img);
  }

  lemma HeaderInCut(c: Setup, g: Geometry, m0: bytes, img: bytes)
    requires c.Valid() && c.Holds(img) && g.storageSize <= |m0|
    requires PlanSave(c, g, m0, img).Go?
    ensures PlanSave(c, g, m0, img).target == Target(c, g, m0)
    ensures Lies(Cut(c, g, m0, img, Writes(c, g, m0, img) - 1), g.Base(Target(c, g, m0)), NewHeader(c, g, m0, img))
  {
    hide LayoutStatus, Encode, Cut, HeaderBytes, PlanSave, Lies, Writes, Target, NextGeneration, RecordInfo, WellFormed;
    PlanMeaning(c, g, m0, img);
    ProgrammedHolds(c, g, m0, img);
    LiesApart(Cut(c, g, m0, img, Writes(c, g, m0, img) - 1), g.Base(Target(c, g, m0)), NewHeader(c, g, m0, img), Encode(c, img));
  }

  lemma HeaderReady(c: Setup, g: Geometry, faithful: bool, base: nat, a: Shot, img: bytes, b: Shot)
    requires c.Valid() && c.Holds(img) && base + g.storageSize <= |a.cells|
    requires PlanSave(c, g, Region(a, base, g.storageSize), img).Go?
    requires ReadyToCommit(c, g, faithful, base, a, img, b)
    ensures |a.cells| == |b.cells|
    ensures faithful ==>
      Lies(Region(b, base, g.storageSize), g.Base(Target(c, g, Region(a, base, g.storageSize))),
           NewHeader(c, g, Region(a, base, g.storageSize), img))
  {
    hide Cut, Writes, PlanSave, Target, Lies, NewHeader;
  }

  /** The specified outcome from the read-back on. */
  lemma SaveAtCommit(c: Setup, g: Geometry, faithful: bool, base: nat, a: Shot, img: bytes, b: Shot)
    requires c.Valid() && c.Holds(img) && base + g.storageSize <= |a.cells|
    requires PlanSave(c, g, Region(a, base, g.storageSize), img).Go?
    requires ReadyToCommit(c, g, faithful, base, a, img, b)
    ensures faithful ==>
      var m0, m1 := Region(a, base, g.storageSize), Region(b, base, g.storageSize);
      var check := LoadSlot(c, g, m1, Target(c, g, m0), false, img);
      SaveResult(c, g, m0, img, a.budget)
      == if check.status != Ok then Saved(check.status, m1, check.image)
         else if b.budget == 0 then Saved(ErrIo, m1, check.image)
         else Saved(Ok, Cut(c, g, m0, img, Writes(c, g, m0, img)), check.image)
  {
    hide LayoutStatus, Encode, Cut, LoadSlot, HeaderBytes, Preferred, Lies, Target, NextGeneration, PlanSave, Writes;
    PlanMeaning(c, g, Region(a, base, g.storageSize), img);
  }

  /** All but the commit was written, and then something went wrong. */
  lemma SaveUncommitted(c: Setup, g: Geometry, faithful: bool, base: nat, a: Shot, img: bytes, r: Status, b: Shot, img': bytes)
    requires c.Valid() && c.Holds(img) && base + g.storageSize <= |a.cells|
    requires PlanSave(c, g, Region(a, base, g.storageSize), img).Go?
    requires ReadyToCommit(c, g, faithful, base, a, img, b)
    requires r != Ok
    ensures |a.cells| == |b.cells|
    ensures SaveKept(c, g, faithful, base, a, img, r, b, img')
  {
    hide Load, Cut, Writes, PlanSave, Target, Lies, NewHeader;
  }

  /** Only the state byte of the slot changed; if it holds the commit mark, the
      region is the committed one. */
  ghost predicate CommitDone(faithful: bool, b: Shot, d: Shot, base: nat, size: nat, slot: nat)
    requires base + size <= |b.cells| && slot + HEADER_SIZE <= size
  {
    && |d.cells| == |b.cells| && d.budget == b.budget - 1
    && SameOutside(b.cells, d.cells, base + slot, base + slot + HEADER_SIZE)
    && (faithful ==> d.cells[base + slot + STATE_OFFSET] == COMMITTED)
    && (d.cells[base + slot + STATE_OFFSET] == COMMITTED ==> Region(d, base, size) == Commit(Region(b, base, size), slot))
  }

  /** The commit is one byte; without power it changes nothing. */
  lemma CommitPhase(faithful: bool, b: Shot, d: Shot, base: nat, size: nat, slot: nat, ok: bool)
    requires base + size <= |b.cells| && slot + HEADER_SIZE <= size
    requires Wrote(faithful, b, d, base + slot + STATE_OFFSET, [COMMITTED], ok)
    ensures ok <==> b.budget > 0
    ensures !ok ==> d == b
    ensures ok ==> CommitDone(faithful, b, d, base, size, slot)
  {
  }

  /** The record read back without complaint and the commit byte was written. */
  lemma SaveCommitted(c: Setup, g: Geometry, faithful: bool, base: nat, a: Shot, img: bytes, b: Shot, d: Shot, img': bytes)
    requires c.Valid() && c.Holds(img) && base + g.storageSize <= |a.cells|
    requires PlanSave(c, g, Region(a, base, g.storageSize), img).Go?
    requires ReadyToCommit(c, g, faithful, base, a, img, b)
    requires base + g.storageSize <= |b.cells|
    requires
      var t := Target(c, g, Region(a, base, g.storageSize));
      && g.Base(t) + HEADER_SIZE <= g.storageSize
      && Lies(Region(b, base, g.storageSize), g.Base(t), NewHeader(c, g, Region(a, base, g.storageSize), img))
      && LoadSlot(c, g, Region(b, base, g.storageSize), t, false, []) == Loaded(Ok, img')
      && CommitDone(faithful, b, d, base, g.storageSize, g.Base(t))
    ensures |a.cells| == |d.cells|
    ensures SaveKept(c, g, faithful, base, a, img, Ok, d, img')
    ensures faithful ==>
      Region(d, base, g.storageSize)
      == Cut(c, g, Region(a, base, g.storageSize), img, Writes(c, g, Region(a, base, g.storageSize), img))
  {
    hide WellFormed, LayoutStatus, Encode, HeaderBytes, LoadSlot, Load, Preferred, Cut, Writes, PlanSave, Target,
      NextGeneration, Crc32, Lies, NewHeader, Commit;
    var m0, m1 := Region(a, base, g.storageSize), Region(b, base, g.storageSize);
    PlanMeaning(c, g, m0, img);
    HeaderInCut(c, g, m0, img);
    RegionFrame(a.cells, b.cells, base, g.storageSize, g.Base(Target(c, g, m0)), g.Base(Target(c, g, m0)) + g.slotSize);
    CommitAnswers(c, g, m0, m1, img);
    CutCommits(c, g, m0, img);
  }

  lemma CutCommits(c: Setup, g: Geometry, m0: bytes, img: bytes)
    requires c.Valid() && c.Holds(img) && g.storageSize <= |m0|
    requires PlanSave(c, g, m0, img).Go?
    ensures g.Base(Target(c, g, m0)) + HEADER_SIZE <= |m0|
    ensures Cut(c, g, m0, img, Writes(c, g, m0, img))
         == Commit(Cut(c, g, m0, img, Writes(c, g, m0, img) - 1), g.Base(Target(c, g, m0)))
  {
    hide PlanSave, Cut, Writes, Target, Lies, Commit;
    PlanMeaning(c, g, m0, img);
    ProgrammedHolds(c, g, m0, img);
  }

  lemma CommitAnswers(c: Setup, g: Geometry, m0: bytes, m1: bytes, img: bytes)
    requires c.Valid() && c.Holds(img) && g.Usable() && g.storageSize <= |m0|
    requires SameOutside(m0, m1, g.Base(Target(c, g, m0)), g.Base(Target(c, g, m0)) + g.slotSize)
    requires Lies(m1, g.Base(Target(c, g, m0)), NewHeader(c, g, m0, img))
    requires LoadSlot(c, g, m1, Target(c, g, m0), false, []).status == Ok
    ensures Load(c, g, Commit(m1, g.Base(Target(c, g, m0))), []) == LoadSlot(c, g, m1, Target(c, g, m0), false, [])
  {
    hide WellFormed, Encode, HeaderBytes, LoadSlot, Load, Target, NextGeneration, Crc32, Lies, Commit;
    CommitTakesEffect(c, g, m0, m1, RecordInfo(c, Encode(c, img), NextGeneration(c, g, m0)), []);
  }
}
