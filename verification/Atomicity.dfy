// What every interruption of a save leaves behind, and what arbitrarily long
// runs of complete and interrupted saves keep true.

module Atomicity {
  import opened Wrappers
  import opened Words
  import opened Crc
  import opened Schema
  import opened Image
  import opened Payload
  import opened Record
  import opened Save

  // ----- generations on the 32-bit circle

  /** The later of two consecutive generations is recognized, across the wrap. */
  lemma SuccessorIsNewer(g: u32)
    ensures Successor(g) != 0
    ensures Newer(Successor(g), g) && !Newer(g, Successor(g))
  {
  }

  /** The generation of the n-th committed save. */
  function Generation(n: nat): u32 {
    if n == 0 then 0 else (n - 1) % 0xFFFF_FFFF + 1
  }

  lemma GenerationAdvances(n: nat)
    ensures Successor(Generation(n)) == Generation(n + 1)
  {
  }

  // ----- the commit

  lemma CommitHeader(m: bytes, base: nat, i: Info)
    requires Lies(m, base, HeaderBytes(i))
    ensures Lies(Commit(m, base), base, HeaderBytes(i.(state := COMMITTED)))
  {
    hide U16Bytes, U32Bytes;
    var h, h' := HeaderBytes(i), HeaderBytes(i.(state := COMMITTED));
    assert h' == h[STATE_OFFSET := COMMITTED];
    assert Commit(m, base)[base..base + HEADER_SIZE] == m[base..base + HEADER_SIZE][STATE_OFFSET := COMMITTED];
  }

  /** A header in place is what the probe finds. */
  lemma HeaderFound(c: Setup, g: Geometry, m: bytes, slot: Slot, requireCommitted: bool, i: Info)
    requires c.Valid() && g.Usable() && g.storageSize <= |m|
    requires Lies(m, g.Base(slot), HeaderBytes(i))
    requires CheckInfo(c, g, i, requireCommitted) == Ok
    ensures Probe(c, g, m, slot, requireCommitted) == Found(i)
  {
    hide HeaderBytes, DecodeHeader, CheckInfo;
    HeaderRoundTrip(i);
  }

  /** Let m1 differ from m0 in one slot only, hold a header there, and read back
      without complaint. Then setting the state byte commits what was read back,
      and the other slot says what it said. */
  lemma CommitSwitches(c: Setup, g: Geometry, m0: bytes, m1: bytes, t: Slot, i: Info)
    requires c.Valid() && g.Usable() && g.storageSize <= |m0|
    requires SameOutside(m0, m1, g.Base(t), g.Base(t) + g.slotSize)
    requires i.state == UNCOMMITTED && Lies(m1, g.Base(t), HeaderBytes(i))
    requires LoadSlot(c, g, m1, t, false, []).status == Ok
    ensures
      var m2 := Commit(m1, g.Base(t));
      && Probe(c, g, m2, t, true) == Found(i.(state := COMMITTED))
      && LoadSlot(c, g, m2, t, true, []) == LoadSlot(c, g, m1, t, false, [])
      && SameOutside(m0, m2, g.Base(t), g.Base(t) + g.slotSize)
      && Probe(c, g, m2, Other(t), true) == Probe(c, g, m0, Other(t), true)
  {
    hide HeaderBytes, Probe, PayloadStatus, ReadUpTo, DataStatus, Crc32;
    var m2 := Commit(m1, g.Base(t));
    SlotsApart(g, m0, m2, t);
    ProbeFrame(c, g, m0, m2, Other(t), true);
    CommitHeader(m1, g.Base(t), i);
    RecordAccepted(c, g, m1, t, i);
    HeaderFound(c, g, m2, t, true, i.(state := COMMITTED));
    PayloadFrame(c, i, m1, m2, g.Base(t) + HEADER_SIZE);
    PayloadStatusIgnoresState(c, i, m2, g.Base(t) + HEADER_SIZE);
  }

  /** The heart of the protocol. Let m1 differ from m0 in the target slot only,
      hold the new header there, and read back without complaint. Then setting
      the state byte makes the record read back the one that load returns. */
  lemma CommitTakesEffect(c: Setup, g: Geometry, m0: bytes, m1: bytes, i: Info, buf: bytes)
    requires c.Valid() && g.Usable() && g.storageSize <= |m0|
    requires SameOutside(m0, m1, g.Base(Target(c, g, m0)), g.Base(Target(c, g, m0)) + g.slotSize)
    requires i == HeaderOf(c, UNCOMMITTED, i.payloadLength, NextGeneration(c, g, m0), i.payloadCrc)
    requires Lies(m1, g.Base(Target(c, g, m0)), HeaderBytes(i))
    requires LoadSlot(c, g, m1, Target(c, g, m0), false, []).status == Ok
    ensures
      var t := Target(c, g, m0);
      var m2 := Commit(m1, g.Base(t));
      && Probe(c, g, m2, t, true) == Found(i.(state := COMMITTED))
      && LoadSlot(c, g, m2, t, true, []) == LoadSlot(c, g, m1, t, false, [])
      && Probe(c, g, m2, Other(t), true) == Probe(c, g, m0, Other(t), true)
      && Preferred(c, g, m2) == Some(t)
      && Load(c, g, m2, buf) == LoadSlot(c, g, m1, t, false, [])
  {
    hide HeaderBytes, Probe, LoadSlot, Newer, Successor, Commit;
    var t := Target(c, g, m0);
    var m2 := Commit(m1, g.Base(t));
    CommitSwitches(c, g, m0, m1, t, i);
    var p := Preferred(c, g, m0);
    if p.Some? {
      SuccessorIsNewer(Probe(c, g, m0, p.value, true).info.generation);
    }
    BufferIrrelevant(c, g, m2, t, true, buf, []);
  }

  lemma PayloadStatusIgnoresState(c: Setup, i: Info, m: bytes, start: nat)
    requires c.Valid() && start <= |m|
    ensures PayloadStatus(c, i.(state := COMMITTED), m, start, Read(c, m, start)) == PayloadStatus(c, i, m, start, Read(c, m, start))
  {
  }

  lemma RecordAccepted(c: Setup, g: Geometry, m: bytes, t: Slot, i: Info)
    requires c.Valid() && g.Usable() && g.storageSize <= |m|
    requires Lies(m, g.Base(t), HeaderBytes(i))
    requires i.state == UNCOMMITTED
    requires LoadSlot(c, g, m, t, false, []).status == Ok
    ensures CheckInfo(c, g, i, false) == Ok
    ensures Probe(c, g, m, t, false) == Found(i)
    ensures PayloadStatus(c, i, m, g.Base(t) + HEADER_SIZE, Read(c, m, g.Base(t) + HEADER_SIZE)) == Ok
  {
    hide HeaderBytes, DecodeHeader, CheckInfo, PayloadStatus, ReadUpTo;
    BufferIrrelevant(c, g, m, t, false, [], []);
    HeaderRoundTrip(i);
  }

  // ----- one save

  lemma PlanMeaning(c: Setup, g: Geometry, mem: bytes, img: bytes)
    requires c.Valid() && c.Holds(img)
    requires PlanSave(c, g, mem, img).Go?
    ensures
      var i := RecordInfo(c, Encode(c, img), NextGeneration(c, g, mem));
      && g.Usable() && LayoutStatus(c, img) == Ok
      && PlanSave(c, g, mem, img) == Go(Target(c, g, mem), HeaderBytes(i) + Encode(c, img))
      && i == HeaderOf(c, UNCOMMITTED, i.payloadLength, NextGeneration(c, g, mem), i.payloadCrc)
      && HEADER_SIZE + |Encode(c, img)| <= g.slotSize
  {
    hide LayoutStatus, Encode, HeaderBytes, Target, NextGeneration, Crc32;
  }

  /** Before the commit the whole record is in place; the commit is one byte. */
  lemma ProgrammedHolds(c: Setup, g: Geometry, mem: bytes, img: bytes)
    requires c.Valid() && c.Holds(img) && g.storageSize <= |mem|
    requires PlanSave(c, g, mem, img).Go?
    ensures
      var base, all := g.Base(Target(c, g, mem)), Writes(c, g, mem, img);
      && Lies(Cut(c, g, mem, img, all - 1), base, PlanSave(c, g, mem, img).record)
      && Cut(c, g, mem, img, all) == Commit(Cut(c, g, mem, img, all - 1), base)
  {
    hide LayoutStatus, Encode, RecordBytes;
    var p := PlanSave(c, g, mem, img);
    assert p.record[..|p.record|] == p.record;
  }

  /** After the first write and before the commit, only the other slot counts. */
  lemma TornState(c: Setup, g: Geometry, mem: bytes, img: bytes, k: nat)
    requires c.Valid() && c.Holds(img) && g.storageSize <= |mem|
    requires PlanSave(c, g, mem, img).Go?
    requires 0 < k < Writes(c, g, mem, img)
    ensures
      var t, m := Target(c, g, mem), Cut(c, g, mem, img, k);
      && !Committed(c, g, m, t)
      && Probe(c, g, m, Other(t), true) == Probe(c, g, mem, Other(t), true)
      && SameInside(mem, m, g.Base(Other(t)), g.Base(Other(t)) + g.slotSize)
      && Preferred(c, g, m) == Preferred(c, g, mem)
  {
    hide HeaderBytes, Probe, LayoutStatus, Encode, Crc32;
    var t, m := Target(c, g, mem), Cut(c, g, mem, img, k);
    PlanMeaning(c, g, mem, img);
    var i := RecordInfo(c, Encode(c, img), NextGeneration(c, g, mem));
    TornNotCommitted(c, g, mem, t, i, Encode(c, img), k);
    TraceFrame(mem, g.Base(t), g.slotSize, HeaderBytes(i) + Encode(c, img), k);
    SlotsApart(g, mem, m, t);
    ProbeFrame(c, g, mem, m, Other(t), true);
  }

  lemma PreferredTarget(c: Setup, g: Geometry, mem: bytes)
    requires c.Valid()
    requires Preferred(c, g, mem).Some?
    ensures Preferred(c, g, mem).value == Other(Target(c, g, mem))
  {
  }

  /** However far a save gets, the commit included, it leaves every byte of the
      slot alone that load tries first, and with them what that slot decodes to. */
  lemma PreferredUntouched(c: Setup, g: Geometry, mem: bytes, img: bytes, k: nat)
    requires c.Valid() && c.Holds(img) && g.storageSize <= |mem|
    requires PlanSave(c, g, mem, img).Go?
    requires Preferred(c, g, mem).Some? && k <= Writes(c, g, mem, img)
    ensures
      var slot, m := Preferred(c, g, mem).value, Cut(c, g, mem, img, k);
      && mem[g.Base(slot)..g.Base(slot) + g.slotSize] == m[g.Base(slot)..g.Base(slot) + g.slotSize]
      && (Decodes(c, g, mem, slot) ==> LoadSlot(c, g, m, slot, true, []) == LoadSlot(c, g, mem, slot, true, []))
  {
    hide PlanSave, AfterBytes, Encode, HeaderBytes, LoadSlot, Preferred, Target, NextGeneration, Probe, RecordInfo, WellFormed, LayoutStatus;
    PlanMeaning(c, g, mem, img);
    PreferredTarget(c, g, mem);
    var i := RecordInfo(c, Encode(c, img), NextGeneration(c, g, mem));
    TraceFrame(mem, g.Base(Target(c, g, mem)), g.slotSize, HeaderBytes(i) + Encode(c, img), k);
    var m := Cut(c, g, mem, img, k);
    hide Cut;
    SlotsApart(g, mem, m, Target(c, g, mem));
    if Decodes(c, g, mem, Preferred(c, g, mem).value) {
      SlotFrame(c, g, mem, m, Preferred(c, g, mem).value, true);
    }
  }

  /** Interrupted anywhere before the commit, a save leaves load's answer as it
      was, provided the slot with the newest header decodes. */
  lemma InterruptedSaveInvisible(c: Setup, g: Geometry, mem: bytes, img: bytes, k: nat, buf: bytes)
    requires c.Valid() && c.Holds(img) && g.storageSize <= |mem|
    requires PlanSave(c, g, mem, img).Go?
    requires Preferred(c, g, mem).Some? ==> Decodes(c, g, mem, Preferred(c, g, mem).value)
    requires k < Writes(c, g, mem, img)
    ensures Preferred(c, g, Cut(c, g, mem, img, k)) == Preferred(c, g, mem)
    ensures Load(c, g, Cut(c, g, mem, img, k), buf).image == Load(c, g, mem, buf).image
    ensures Load(c, g, mem, buf).status == Ok ==> Load(c, g, Cut(c, g, mem, img, k), buf) == Load(c, g, mem, buf)
    ensures Load(c, g, Cut(c, g, mem, img, k), buf).status == Ok ==> Load(c, g, mem, buf).status == Ok
  {
    var m := Cut(c, g, mem, img, k);
    if k == 0 {
      assert m == mem;
    } else {
      TornState(c, g, mem, img, k);
      hide Cut, PlanSave, Probe, LoadSlot, Load, Preferred;
      PlanMeaning(c, g, mem, img);
      if Preferred(c, g, mem).Some? {
        PreferredTarget(c, g, mem);
        SlotFrame(c, g, mem, m, Preferred(c, g, mem).value, true);
      }
      PreferredAnswers(c, g, mem, buf);
      PreferredAnswers(c, g, m, buf);
    }
  }

  lemma CutFrame(c: Setup, g: Geometry, mem: bytes, img: bytes, k: nat)
    requires c.Valid() && c.Holds(img) && g.storageSize <= |mem|
    requires PlanSave(c, g, mem, img).Go?
    ensures
      var base := g.Base(Target(c, g, mem));
      SameOutside(mem, Cut(c, g, mem, img, k), base, base + g.slotSize)
  {
    hide LayoutStatus, Encode, RecordBytes, AfterBytes;
    var p := PlanSave(c, g, mem, img);
    TraceFrame(mem, g.Base(p.target), g.slotSize, p.record, k);
  }

  /** Once everything is programmed and reads back, the commit byte switches
      load over to the new record. */
  lemma CommittedSaveVisible(c: Setup, g: Geometry, mem: bytes, img: bytes, buf: bytes)
    requires c.Valid() && c.Holds(img) && g.storageSize <= |mem|
    requires PlanSave(c, g, mem, img).Go?
    requires LoadSlot(c, g, Cut(c, g, mem, img, Writes(c, g, mem, img) - 1), Target(c, g, mem), false, []).status == Ok
    ensures
      var t, all := Target(c, g, mem), Writes(c, g, mem, img);
      var before, after := Cut(c, g, mem, img, all - 1), Cut(c, g, mem, img, all);
      && Load(c, g, after, buf) == LoadSlot(c, g, before, t, false, [])
      && LoadSlot(c, g, after, t, true, []) == LoadSlot(c, g, before, t, false, [])
      && Preferred(c, g, after) == Some(t)
      && Committed(c, g, after, t)
      && Probe(c, g, after, t, true).info.generation == NextGeneration(c, g, mem)
      && Probe(c, g, after, Other(t), true) == Probe(c, g, mem, Other(t), true)
      && SameInside(mem, after, g.Base(Other(t)), g.Base(Other(t)) + g.slotSize)
  {
    hide Cut, PlanSave, AfterBytes, Encode, HeaderBytes, LoadSlot, Load, Preferred, Target, NextGeneration, Probe, Crc32, LayoutStatus, WellFormed, Lies;
    var all := Writes(c, g, mem, img);
    var before, after := Cut(c, g, mem, img, all - 1), Cut(c, g, mem, img, all);
    PlanMeaning(c, g, mem, img);
    ProgrammedHolds(c, g, mem, img);
    var i := RecordInfo(c, Encode(c, img), NextGeneration(c, g, mem));
    var base := g.Base(Target(c, g, mem));
    CutFrame(c, g, mem, img, all - 1);
    CutFrame(c, g, mem, img, all);
    LiesApart(before, base, HeaderBytes(i), Encode(c, img));
    SlotsApart(g, mem, after, Target(c, g, mem));
    CommitTakesEffect(c, g, mem, before, i, buf);
  }
}
