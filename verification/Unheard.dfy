// Saves during which a header could not be read: the probe reports an I/O error
// and save takes the slot for empty.

module Unheard {
  import opened Wrappers
  import opened Words
  import opened Crc
  import opened Schema
  import opened Image
  import opened Payload
  import opened Record
  import opened Save
  import opened Atomicity
  import opened Runs

  /** What the two probes of a save said. */
  ghost predicate BothHeard(c: Setup, g: Geometry, mem: bytes, p0: Probed, p1: Probed)
    requires c.Valid()
  {
    Heard(p0, Probe(c, g, mem, 0, true)) && Heard(p1, Probe(c, g, mem, 1, true))
  }

  // ----- what save does to the newest record

  /** Save overwrites the slot load tries first exactly when that slot's header was
      not heard and either the other one was, or neither and the slot is slot 0. */
  lemma SparedExactly(c: Setup, g: Geometry, mem: bytes, p0: Probed, p1: Probed)
    requires c.Valid() && Preferred(c, g, mem).Some? && BothHeard(c, g, mem, p0, p1)
    ensures
      var s := Preferred(c, g, mem).value;
      var mine, other := if s == 0 then p0 else p1, if s == 0 then p1 else p0;
      TargetFor(p0, p1) == s <==> mine.Missing? && (other.Found? || s == 0)
  {
    hide Probe, Newer;
  }

  /** Storage after the first k byte writes of a save that heard p0 and p1. */
  ghost function HeardCut(c: Setup, g: Geometry, mem: bytes, img: bytes, p0: Probed, p1: Probed, k: nat): (m: bytes)
    requires c.Valid() && c.Holds(img) && g.storageSize <= |mem|
    requires PlanSave(c, g, mem, img).Go?
    ensures |m| == |mem|
  {
    AfterBytes(mem, g.Base(TargetFor(p0, p1)), g.slotSize, RecordBytes(c, Encode(c, img), GenerationFor(p0, p1)), k)
  }

  /** A save that heard both headers is the one specified. */
  lemma HeardAll(c: Setup, g: Geometry, mem: bytes, img: bytes, k: nat)
    requires c.Valid() && c.Holds(img) && g.storageSize <= |mem|
    requires PlanSave(c, g, mem, img).Go?
    ensures HeardCut(c, g, mem, img, Probe(c, g, mem, 0, true), Probe(c, g, mem, 1, true), k) == Cut(c, g, mem, img, k)
  {
    hide Probe, Encode, RecordBytes, AfterBytes, TargetFor, GenerationFor, LayoutStatus, WellFormed;
  }

  /** From the first write up to the commit, load returns the record in the other
      slot if that decodes, and the defaults otherwise: if the newest record was
      not spared, it is lost. */
  lemma TornAnswer(c: Setup, g: Geometry, mem: bytes, img: bytes, p0: Probed, p1: Probed, k: nat, buf: bytes)
    requires c.Valid() && c.Holds(img) && g.storageSize <= |mem|
    requires PlanSave(c, g, mem, img).Go?
    requires 0 < k < Writes(c, g, mem, img)
    ensures
      var kept, answer := Other(TargetFor(p0, p1)), Load(c, g, HeardCut(c, g, mem, img, p0, p1, k), buf);
      if Decodes(c, g, mem, kept) then answer == LoadSlot(c, g, mem, kept, true, [])
      else answer.status != Ok && answer.image == Defaults(c)
  {
    hide PlanSave, Encode, HeaderBytes, RecordInfo, LoadSlot, Load, Probe, TargetFor, GenerationFor, WellFormed, LayoutStatus,
      NextGeneration, AfterBytes, Defaults, Preferred;
    PlanMeaning(c, g, mem, img);
    var t, i := TargetFor(p0, p1), RecordInfo(c, Encode(c, img), GenerationFor(p0, p1));
    var m := HeardCut(c, g, mem, img, p0, p1, k);
    InfoUncommitted(c, Encode(c, img), GenerationFor(p0, p1));
    TornNotCommitted(c, g, mem, t, i, Encode(c, img), k);
    TraceFrame(mem, g.Base(t), g.slotSize, HeaderBytes(i) + Encode(c, img), k);
    OnlyOther(c, g, mem, m, t, buf);
  }

  lemma InfoUncommitted(c: Setup, payload: bytes, generation: u32)
    requires c.Valid()
    ensures RecordInfo(c, payload, generation).state == UNCOMMITTED
    ensures RecordInfo(c, payload, generation).generation == generation
  {
    hide Crc32;
  }

  /** Load when one slot is torn and the other as before. */
  lemma OnlyOther(c: Setup, g: Geometry, mem: bytes, m: bytes, t: Slot, buf: bytes)
    requires c.Valid() && g.Usable() && g.storageSize <= |mem|
    requires SameOutside(mem, m, g.Base(t), g.Base(t) + g.slotSize) && !Committed(c, g, m, t)
    ensures
      var answer := Load(c, g, m, buf);
      if Decodes(c, g, mem, Other(t)) then answer == LoadSlot(c, g, mem, Other(t), true, [])
      else answer.status != Ok && answer.image == Defaults(c)
  {
    hide LoadSlot, Probe, Load, WellFormed, Defaults, Preferred;
    SlotsApart(g, mem, m, t);
    LoadMeaning(c, g, m, buf);
    BufferIrrelevant(c, g, m, t, true, [], []);
    if Decodes(c, g, mem, Other(t)) {
      SlotFrame(c, g, mem, m, Other(t), true);
      assert Decodes(c, g, m, Other(t));
    } else if Load(c, g, m, buf).status == Ok {
      var slot: Slot :| Decodes(c, g, m, slot);
      assert slot == Other(t);
      SlotFrame(c, g, m, mem, slot, true);
    }
  }

  // ----- a success that nobody sees

  /** Neither header was heard, yet slot 1 holds a record that decodes, and one
      that counts as later than generation 1. */
  ghost predicate Overshadowed(c: Setup, g: Geometry, mem: bytes, p0: Probed, p1: Probed)
    requires c.Valid()
  {
    && p0.Missing? && p1.Missing?
    && Decodes(c, g, mem, 1)
    && (var q := Probe(c, g, mem, 1, true); q.Found? && 2 <= q.info.generation <= 0x8000_0000)
  }

  /** What load returns after a commit, whatever the probes said: the record just
      read back, except that in exactly one case the old record in slot 1 keeps
      hiding it. */
  lemma VisibleExactly(c: Setup, g: Geometry, m0: bytes, m1: bytes, p0: Probed, p1: Probed, i: Info, buf: bytes)
    requires c.Valid() && g.Usable() && g.storageSize <= |m0| && BothHeard(c, g, m0, p0, p1)
    requires SameOutside(m0, m1, g.Base(TargetFor(p0, p1)), g.Base(TargetFor(p0, p1)) + g.slotSize)
    requires i == HeaderOf(c, UNCOMMITTED, i.payloadLength, GenerationFor(p0, p1), i.payloadCrc)
    requires Lies(m1, g.Base(TargetFor(p0, p1)), HeaderBytes(i))
    requires LoadSlot(c, g, m1, TargetFor(p0, p1), false, []).status == Ok
    ensures
      var t := TargetFor(p0, p1);
      var m2 := Commit(m1, g.Base(t));
      && LoadSlot(c, g, m2, t, true, []) == LoadSlot(c, g, m1, t, false, [])
      && Load(c, g, m2, buf)
         == if Overshadowed(c, g, m0, p0, p1) then LoadSlot(c, g, m0, 1, true, []) else LoadSlot(c, g, m1, t, false, [])
  {
    hide HeaderBytes, Probe, LoadSlot, Load, Commit, WellFormed;
    var t := TargetFor(p0, p1);
    CommitSwitches(c, g, m0, m1, t, i);
    OutrankedExactly(c, g, m0, p0, p1);
    TwoSlots(c, g, m0, Commit(m1, g.Base(t)), t, i.(state := COMMITTED), buf);
  }

  /** Does a record of generation mine in slot t give way to what q found in the
      other slot? A tie goes to slot 0. */
  ghost predicate Outranked(q: Probed, t: Slot, mine: u32) {
    q.Found? && if t == 0 then Newer(q.info.generation, mine) else !Newer(mine, q.info.generation)
  }

  lemma OutrankedExactly(c: Setup, g: Geometry, mem: bytes, p0: Probed, p1: Probed)
    requires c.Valid() && BothHeard(c, g, mem, p0, p1)
    ensures
      var t := TargetFor(p0, p1);
      var q := Probe(c, g, mem, Other(t), true);
      Outranked(q, t, GenerationFor(p0, p1))
      <==> t == 0 && p0.Missing? && p1.Missing? && q.Found? && 2 <= q.info.generation <= 0x8000_0000
  {
    hide Probe;
    var t := TargetFor(p0, p1);
    var heard := if t == 0 then p1 else p0;
    if heard.Found? {
      SuccessorIsNewer(heard.info.generation);
    }
  }

  /** Load when slot t decodes with the header i and the other slot is as in m0. */
  lemma TwoSlots(c: Setup, g: Geometry, m0: bytes, m: bytes, t: Slot, i: Info, buf: bytes)
    requires c.Valid() && g.Usable() && g.storageSize <= |m0|
    requires SameOutside(m0, m, g.Base(t), g.Base(t) + g.slotSize)
    requires Probe(c, g, m, t, true) == Found(i) && Decodes(c, g, m, t)
    requires Probe(c, g, m, Other(t), true) == Probe(c, g, m0, Other(t), true)
    ensures Load(c, g, m, buf)
         == if Outranked(Probe(c, g, m0, Other(t), true), t, i.generation) && Decodes(c, g, m0, Other(t))
            then LoadSlot(c, g, m0, Other(t), true, []) else LoadSlot(c, g, m, t, true, [])
  {
    hide Probe, LoadSlot, WellFormed, Newer;
    SlotsApart(g, m0, m, t);
    BufferIrrelevant(c, g, m, t, true, buf, []);
    BufferIrrelevant(c, g, m, Other(t), true, buf, []);
    if Decodes(c, g, m0, Other(t)) {
      SlotFrame(c, g, m0, m, Other(t), true);
    } else {
      if Decodes(c, g, m, Other(t)) {
        SlotFrame(c, g, m, m0, Other(t), true);
      }
      BufferIrrelevant(c, g, m, t, true, LoadSlot(c, g, m, Other(t), true, buf).image, []);
    }
  }

  /** The whole trace on a faithful device: with short texts the record reads back
      and is committed, and load returns it, save for that one case. */
  lemma LandedAnswer(c: Setup, g: Geometry, mem: bytes, img: bytes, p0: Probed, p1: Probed, buf: bytes)
    requires c.Valid() && c.Holds(img) && g.storageSize <= |mem| && BothHeard(c, g, mem, p0, p1)
    requires PlanSave(c, g, mem, img).Go?
    requires ShortTexts(c, img) && |Encode(c, img)| < 0x1_0000_0000
    ensures
      var t, all := TargetFor(p0, p1), Writes(c, g, mem, img);
      var m1, m2 := HeardCut(c, g, mem, img, p0, p1, all - 1), HeardCut(c, g, mem, img, p0, p1, all);
      && LoadSlot(c, g, m1, t, false, []) == Loaded(Ok, Canon(c, img))
      && LoadSlot(c, g, m2, t, true, []) == Loaded(Ok, Canon(c, img))
      && Load(c, g, m2, buf)
         == if Overshadowed(c, g, mem, p0, p1) then LoadSlot(c, g, mem, 1, true, []) else Loaded(Ok, Canon(c, img))
  {
    hide PlanSave, Encode, HeaderBytes, RecordInfo, LoadSlot, Load, Probe, TargetFor, GenerationFor, WellFormed, LayoutStatus,
      NextGeneration, Canon, ShortTexts, Overshadowed, BothHeard, Commit, Erased, Crc32, HeaderOf;
    PlanMeaning(c, g, mem, img);
    var t, i := TargetFor(p0, p1), RecordInfo(c, Encode(c, img), GenerationFor(p0, p1));
    var record := HeaderBytes(i) + Encode(c, img);
    var m1 := HeardCut(c, g, mem, img, p0, p1, Writes(c, g, mem, img) - 1);
    TraceFrame(mem, g.Base(t), g.slotSize, record, Writes(c, g, mem, img) - 1);
    RecordInPlace(mem, g.Base(t), g.slotSize, record);
    ReadBackOf(c, g, m1, t, GenerationFor(p0, p1), img);
    LiesApart(m1, g.Base(t), HeaderBytes(i), Encode(c, img));
    InfoShape(c, Encode(c, img), GenerationFor(p0, p1));
    VisibleExactly(c, g, mem, m1, p0, p1, i, buf);
  }

  lemma InfoShape(c: Setup, payload: bytes, generation: u32)
    requires c.Valid()
    ensures var i := RecordInfo(c, payload, generation);
            i == HeaderOf(c, UNCOMMITTED, i.payloadLength, generation, i.payloadCrc)
  {
    hide Crc32;
  }

  lemma RecordInPlace(mem: bytes, base: nat, slotSize: nat, record: bytes)
    requires Fits(mem, base, slotSize, record)
    ensures
      var m := AfterBytes(mem, base, slotSize, record, slotSize + |record|);
      Lies(m, base, record) && AfterBytes(mem, base, slotSize, record, Length(slotSize, record)) == Commit(m, base)
  {
    hide Erased;
    assert record[..|record|] == record;
  }
}
