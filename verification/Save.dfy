// A save as a plan and the trace of byte writes that carries it out: erase the
// target slot upwards, program header and payload upwards, commit one byte.

module Save {
  import opened Words
  import opened Crc
  import opened Schema
  import opened Image
  import opened Payload
  import opened Record

  // ----- the plan

  /** The generation after g; 0 is skipped. */
  function Successor(g: u32): u32 {
    var next := (g + 1) % 0x1_0000_0000;
    if next == 0 then 1 else next
  }

  /** The slot to overwrite, told from what the two probes said. */
  function TargetFor(p0: Probed, p1: Probed): Slot {
    match Newest(p0, p1)
    case None => 0
    case Some(slot) => Other(slot)
  }

  function GenerationFor(p0: Probed, p1: Probed): u32 {
    match Newest(p0, p1)
    case None => 1
    case Some(slot) => Successor(if slot == 0 then p0.info.generation else p1.info.generation)
  }

  function Target(c: Setup, g: Geometry, mem: bytes): Slot
    requires c.Valid()
  {
    TargetFor(Probe(c, g, mem, 0, true), Probe(c, g, mem, 1, true))
  }

  function NextGeneration(c: Setup, g: Geometry, mem: bytes): u32
    requires c.Valid()
  {
    GenerationFor(Probe(c, g, mem, 0, true), Probe(c, g, mem, 1, true))
  }

  /** A probe says what the header says, or that it could not be read. */
  ghost predicate Heard(p: Probed, header: Probed) {
    p == header || p == Missing(ErrIo)
  }

  function RecordInfo(c: Setup, payload: bytes, generation: u32): Info
    requires c.Valid()
  {
    HeaderOf(c, UNCOMMITTED, |payload| % 0x1_0000_0000, generation, Crc32(payload))
  }

  /** The bytes programmed before the commit. */
  function RecordBytes(c: Setup, payload: bytes, generation: u32): (r: bytes)
    requires c.Valid()
    ensures |r| == HEADER_SIZE + |payload|
  {
    HeaderBytes(RecordInfo(c, payload, generation)) + payload
  }

  datatype Plan = Refuse(why: Status) | Go(target: Slot, record: bytes)

  /** What a save is going to do, decided before anything is written. */
  ghost function PlanSave(c: Setup, g: Geometry, mem: bytes, img: bytes): (p: Plan)
    requires c.Valid() && c.Holds(img)
    ensures p.Go? ==> g.Usable() && HEADER_SIZE <= |p.record| <= g.slotSize
    ensures p != Refuse(Ok)
  {
    if !g.Usable() then Refuse(ErrSize)
    else if LayoutStatus(c, img) != Ok then Refuse(LayoutStatus(c, img))
    else if HEADER_SIZE + |Encode(c, img)| > g.slotSize then Refuse(ErrSize)
    else Go(Target(c, g, mem), RecordBytes(c, Encode(c, img), NextGeneration(c, g, mem)))
  }

  // ----- the trace

  function Erased(mem: bytes, base: nat, n: nat): (r: bytes)
    requires base + n <= |mem|
    ensures |r| == |mem|
  {
    Splice(mem, base, Fill(n, ERASED))
  }

  function Commit(mem: bytes, base: nat): (r: bytes)
    requires base + HEADER_SIZE <= |mem|
    ensures |r| == |mem|
  {
    mem[base + STATE_OFFSET := COMMITTED]
  }

  ghost predicate Fits(mem: bytes, base: nat, slotSize: nat, record: bytes) {
    HEADER_SIZE <= |record| <= slotSize && base + slotSize <= |mem|
  }

  /** How many byte writes a save performs. */
  function Length(slotSize: nat, record: bytes): nat {
    slotSize + |record| + 1
  }

  /** Storage after the first k byte writes. */
  function AfterBytes(mem: bytes, base: nat, slotSize: nat, record: bytes, k: nat): (r: bytes)
    requires Fits(mem, base, slotSize, record)
    ensures |r| == |mem|
  {
    if k <= slotSize then Erased(mem, base, k)
    else
      var blank := Erased(mem, base, slotSize);
      if k < Length(slotSize, record) then Splice(blank, base, record[..k - slotSize])
      else Commit(Splice(blank, base, record), base)
  }

  /** Storage after the first k byte writes of a save. */
  ghost function Cut(c: Setup, g: Geometry, mem: bytes, img: bytes, k: nat): (m: bytes)
    requires c.Valid() && c.Holds(img) && g.storageSize <= |mem|
    requires PlanSave(c, g, mem, img).Go?
    ensures |m| == |mem|
  {
    var p := PlanSave(c, g, mem, img);
    AfterBytes(mem, g.Base(p.target), g.slotSize, p.record, k)
  }

  /** The number of byte writes of a save, the commit included. */
  ghost function Writes(c: Setup, g: Geometry, mem: bytes, img: bytes): (n: nat)
    requires c.Valid() && c.Holds(img)
    requires PlanSave(c, g, mem, img).Go?
    ensures n > g.slotSize >= HEADER_SIZE
  {
    Length(g.slotSize, PlanSave(c, g, mem, img).record)
  }

  datatype Saved = Saved(status: Status, storage: bytes, image: bytes)

  /** The outcome of a save on a faithful device that performs at most budget
      byte writes: status, storage, and the caller's data. */
  ghost function SaveResult(c: Setup, g: Geometry, mem: bytes, img: bytes, budget: nat): (r: Saved)
    requires c.Valid() && c.Holds(img) && g.storageSize <= |mem|
    ensures |r.storage| == |mem| && c.Holds(r.image)
  {
    match PlanSave(c, g, mem, img)
    case Refuse(why) => Saved(why, mem, img)
    case Go(target, _) =>
      var all := Writes(c, g, mem, img);
      if budget < all - 1 then Saved(ErrIo, Cut(c, g, mem, img, budget), img)
      else
        var programmed := Cut(c, g, mem, img, all - 1);
        var check := LoadSlot(c, g, programmed, target, false, img);
        if check.status != Ok then Saved(check.status, programmed, check.image)
        else if budget < all then Saved(ErrIo, programmed, check.image)
        else Saved(Ok, Cut(c, g, mem, img, all), check.image)
  }

  lemma SaveRefused(c: Setup, g: Geometry, mem: bytes, img: bytes, budget: nat)
    requires c.Valid() && c.Holds(img) && g.storageSize <= |mem|
    ensures PlanSave(c, g, mem, img).Refuse? ==>
      SaveResult(c, g, mem, img, budget) == Saved(PlanSave(c, g, mem, img).why, mem, img)
  {
    hide PlanSave;
  }

  // ----- frames

  ghost predicate SameOutside(a: bytes, b: bytes, lo: nat, hi: nat) {
    |a| == |b| && forall k :: 0 <= k < |a| && !(lo <= k < hi) ==> a[k] == b[k]
  }

  ghost predicate SameInside(a: bytes, b: bytes, lo: nat, hi: nat) {
    |a| == |b| && forall k :: lo <= k < hi && k < |a| ==> a[k] == b[k]
  }

  lemma TraceFrame(mem: bytes, base: nat, slotSize: nat, record: bytes, k: nat)
    requires Fits(mem, base, slotSize, record)
    ensures SameOutside(mem, AfterBytes(mem, base, slotSize, record, k), base, base + slotSize)
  {
  }

  lemma SlotsApart(g: Geometry, a: bytes, b: bytes, slot: Slot)
    requires g.Usable()
    requires SameOutside(a, b, g.Base(slot), g.Base(slot) + g.slotSize)
    ensures SameInside(a, b, g.Base(Other(slot)), g.Base(Other(slot)) + g.slotSize)
  {
  }

  /** A header's meaning depends on its 32 bytes only. */
  lemma ProbeFrame(c: Setup, g: Geometry, a: bytes, b: bytes, slot: Slot, requireCommitted: bool)
    requires c.Valid() && HEADER_SIZE <= g.slotSize
    requires SameInside(a, b, g.Base(slot), g.Base(slot) + HEADER_SIZE)
    ensures Probe(c, g, a, slot, requireCommitted) == Probe(c, g, b, slot, requireCommitted)
  {
    hide DecodeHeader, CheckInfo;
    var base := g.Base(slot);
    if base + HEADER_SIZE <= |a| {
      assert a[base..base + HEADER_SIZE] == b[base..base + HEADER_SIZE];
    }
  }

  /** A slot that decodes keeps decoding to the same image while its bytes stay. */
  lemma SlotFrame(c: Setup, g: Geometry, a: bytes, b: bytes, slot: Slot, requireCommitted: bool)
    requires c.Valid() && g.Usable() && g.storageSize <= |a|
    requires SameInside(a, b, g.Base(slot), g.Base(slot) + g.slotSize)
    requires LoadSlot(c, g, a, slot, requireCommitted, []).status == Ok
    ensures LoadSlot(c, g, b, slot, requireCommitted, []) == LoadSlot(c, g, a, slot, requireCommitted, [])
  {
    hide Probe, DataStatus, Crc32, ReadUpTo;
    BufferIrrelevant(c, g, a, slot, requireCommitted, [], []);
    ProbeFrame(c, g, a, b, slot, requireCommitted);
    var info := Probe(c, g, a, slot, requireCommitted).info;
    PayloadFrame(c, info, a, b, g.Base(slot) + HEADER_SIZE);
  }

  /** The verdict on a payload that is accepted depends on its bytes only. */
  lemma PayloadFrame(c: Setup, i: Info, a: bytes, b: bytes, start: nat)
    requires c.Valid() && start + i.payloadLength <= |a|
    requires SameInside(a, b, start, start + i.payloadLength)
    requires PayloadStatus(c, i, a, start, Read(c, a, start)) == Ok
    ensures Read(c, b, start) == Read(c, a, start)
    ensures PayloadStatus(c, i, b, start, Read(c, b, start)) == Ok
  {
    hide DataStatus, Crc32, ReadUpTo;
    var r := Read(c, a, start);
    assert b[start..r.pos] == a[start..r.pos];
    ReadRelocates(c, a, start, b, start, c.Count());
  }

  // ----- a torn slot does not count

  /** Without magic or without the commit byte a slot is not committed. */
  lemma NotCommitted(c: Setup, g: Geometry, mem: bytes, slot: Slot)
    requires c.Valid()
    requires g.Base(slot) + HEADER_SIZE <= |mem|
    requires
      || mem[g.Base(slot)] != 77
      || mem[g.Base(slot) + 3] != 71
      || mem[g.Base(slot) + STATE_OFFSET] != COMMITTED
    ensures !Committed(c, g, mem, slot)
  {
    hide U16At, U32At;
    var base := g.Base(slot);
    var h := mem[base..base + HEADER_SIZE];
    assert h[0] == mem[base] && h[3] == mem[base + 3] && h[STATE_OFFSET] == mem[base + STATE_OFFSET];
    if h[..4] == MAGIC {
      assert h[0] == h[..4][0] && h[3] == h[..4][3];
    }
  }

  /** Erasing upwards takes the magic first: however far the erase of a slot got,
      it changed nothing or the slot no longer counts. */
  lemma TornErase(c: Setup, g: Geometry, mem: bytes, slot: Slot, n: nat)
    requires c.Valid() && g.Usable() && g.storageSize <= |mem| && n <= g.slotSize
    ensures Erased(mem, g.Base(slot), n) == mem || !Committed(c, g, Erased(mem, g.Base(slot), n), slot)
    ensures SameOutside(mem, Erased(mem, g.Base(slot), n), g.Base(slot), g.Base(slot) + n)
  {
    if n > 0 {
      NotCommitted(c, g, Erased(mem, g.Base(slot), n), slot);
    }
  }

  /** Between the first write and the commit the slot lacks the magic or the mark. */
  lemma TornBytes(mem: bytes, base: nat, slotSize: nat, i: Info, payload: bytes, k: nat)
    requires i.state == UNCOMMITTED
    requires Fits(mem, base, slotSize, HeaderBytes(i) + payload)
    requires 0 < k < Length(slotSize, HeaderBytes(i) + payload)
    ensures
      var m := AfterBytes(mem, base, slotSize, HeaderBytes(i) + payload, k);
      m[base] != 77 || m[base + 3] != 71 || m[base + STATE_OFFSET] != COMMITTED
  {
    hide U16Bytes, U32Bytes;
    var record := HeaderBytes(i) + payload;
    assert record[STATE_OFFSET] == UNCOMMITTED by {
      assert Lies(HeaderBytes(i), 0, HeaderBytes(i));
      HeaderParts(HeaderBytes(i), 0, i);
    }
    hide HeaderBytes;
  }

  /** So the target slot is not committed. */
  lemma TornNotCommitted(c: Setup, g: Geometry, mem: bytes, slot: Slot, i: Info, payload: bytes, k: nat)
    requires c.Valid() && i.state == UNCOMMITTED
    requires Fits(mem, g.Base(slot), g.slotSize, HeaderBytes(i) + payload)
    requires 0 < k < Length(g.slotSize, HeaderBytes(i) + payload)
    ensures !Committed(c, g, AfterBytes(mem, g.Base(slot), g.slotSize, HeaderBytes(i) + payload, k), slot)
  {
    hide HeaderBytes, AfterBytes, Probe;
    TornBytes(mem, g.Base(slot), g.slotSize, i, payload, k);
    NotCommitted(c, g, AfterBytes(mem, g.Base(slot), g.slotSize, HeaderBytes(i) + payload, k), slot);
  }
}
