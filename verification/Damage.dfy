// Stored records that got damaged: what is detected, and what a save may then
// destroy.

module Damage {
  import opened Words
  import opened Crc
  import opened Schema
  import opened Image
  import opened Payload
  import opened Record
  import opened Save
  import opened Atomicity

  /** b is a with some damage inside one slot's payload, confined to the four
      bytes from position at on. */
  ghost predicate PayloadDamaged(c: Setup, g: Geometry, a: bytes, b: bytes, slot: Slot, at: nat)
    requires c.Valid()
  {
    && Committed(c, g, a, slot)
    && a != b
    && SameOutside(a, b, at, at + 4)
    && var start := g.Base(slot) + HEADER_SIZE;
       SameOutside(a, b, start, start + Probe(c, g, a, slot, true).info.payloadLength)
  }

  /** Such damage is never accepted, not even when it hits a text's length and
      the rest of the payload is parsed at shifted positions. */
  lemma DamageRejected(c: Setup, g: Geometry, a: bytes, b: bytes, slot: Slot, at: nat)
    requires c.Valid() && g.Usable() && g.storageSize <= |a|
    requires Decodes(c, g, a, slot)
    requires PayloadDamaged(c, g, a, b, slot, at)
    ensures Committed(c, g, b, slot) && !Decodes(c, g, b, slot)
  {
    hide Probe, Crc32, DataStatus, ReadUpTo;
    ProbeFrame(c, g, a, b, slot, true);
    var start, n := g.Base(slot) + HEADER_SIZE, Probe(c, g, a, slot, true).info.payloadLength;
    if Decodes(c, g, b, slot) {
      DamageSeen(a, b, start, n, at);
    }
  }

  lemma DamageSeen(a: bytes, b: bytes, start: nat, n: nat, at: nat)
    requires start + n <= |a| && a != b
    requires SameOutside(a, b, start, start + n) && SameOutside(a, b, at, at + 4)
    ensures Crc32(a[start..start + n]) != Crc32(b[start..start + n])
  {
    hide Crc32;
    var s, t := a[start..start + n], b[start..start + n];
    if s == t {
      forall k | 0 <= k < |a|
        ensures a[k] == b[k]
      {
        if start <= k < start + n {
          assert s[k - start] == t[k - start];
        }
      }
    }
    if at < start {
      // the window starts before the payload: what is left of it is shorter
      BurstDetected(s, t, 0);
    } else {
      BurstDetected(s, t, at - start);
    }
  }

  /** A damaged newest record makes load return exactly the older one. */
  lemma DamagedNewestFallsBack(c: Setup, g: Geometry, a: bytes, b: bytes, at: nat, buf: bytes)
    requires c.Valid() && g.Usable() && g.storageSize <= |a|
    requires Decodes(c, g, a, 0) && Decodes(c, g, a, 1)
    requires Preferred(c, g, a).Some? && PayloadDamaged(c, g, a, b, Preferred(c, g, a).value, at)
    ensures Preferred(c, g, b) == Preferred(c, g, a)
    ensures !Decodes(c, g, b, Preferred(c, g, a).value)
    ensures Load(c, g, b, buf) == LoadSlot(c, g, a, Other(Preferred(c, g, a).value), true, [])
  {
    var s := Preferred(c, g, a).value;
    DamageRejected(c, g, a, b, s, at);
    hide Probe, LoadSlot;
    ProbeFrame(c, g, a, b, s, true);
    SlotsApart(g, a, b, s);
    ProbeFrame(c, g, a, b, Other(s), true);
    SlotFrame(c, g, a, b, Other(s), true);
    BufferIrrelevant(c, g, b, s, true, buf, []);
    BufferIrrelevant(c, g, b, Other(s), true, LoadSlot(c, g, b, s, true, buf).image, []);
  }

  /** Interrupting the save anywhere before its commit leaves load's answer alone. */
  ghost predicate CutsInvisible(c: Setup, g: Geometry, mem: bytes, img: bytes, buf: bytes)
    requires c.Valid() && c.Holds(img) && g.storageSize <= |mem|
    requires PlanSave(c, g, mem, img).Go?
  {
    forall k :: 0 <= k < Writes(c, g, mem, img) ==> Load(c, g, Cut(c, g, mem, img, k), buf) == Load(c, g, mem, buf)
  }

  /** Exactly when a save can be interrupted anywhere without taking away what
      load could still return: when the slot whose header is newest decodes.
      Save looks at headers only, so it may otherwise erase the last good record. */
  lemma InterruptionSafeExactly(c: Setup, g: Geometry, mem: bytes, img: bytes, buf: bytes)
    requires c.Valid() && c.Holds(img) && g.storageSize <= |mem|
    requires PlanSave(c, g, mem, img).Go?
    requires Load(c, g, mem, buf).status == Ok
    ensures Preferred(c, g, mem).Some?
    ensures CutsInvisible(c, g, mem, img, buf) <==> Decodes(c, g, mem, Preferred(c, g, mem).value)
  {
    hide Cut, Writes, PlanSave, Load, Preferred, LoadSlot, Probe, Defaults, WellFormed;
    LoadMeaning(c, g, mem, buf);
    SomePreferred(c, g, mem);
    if Decodes(c, g, mem, Preferred(c, g, mem).value) {
      forall k | 0 <= k < Writes(c, g, mem, img)
        ensures Load(c, g, Cut(c, g, mem, img, k), buf) == Load(c, g, mem, buf)
      {
        InterruptedSaveInvisible(c, g, mem, img, k, buf);
      }
    } else {
      FirstWriteLoses(c, g, mem, img, buf);
      assert Load(c, g, Cut(c, g, mem, img, 1), buf) != Load(c, g, mem, buf);
    }
  }

  lemma SomePreferred(c: Setup, g: Geometry, mem: bytes)
    requires c.Valid() && exists slot: Slot :: Decodes(c, g, mem, slot)
    ensures Preferred(c, g, mem).Some?
  {
    hide Probe, LoadSlot;
    var slot: Slot :| Decodes(c, g, mem, slot);
    BufferIrrelevant(c, g, mem, slot, true, [], []);
  }

  /** If the newest header's slot does not decode, one written byte is enough to
      leave nothing to load. */
  lemma FirstWriteLoses(c: Setup, g: Geometry, mem: bytes, img: bytes, buf: bytes)
    requires c.Valid() && c.Holds(img) && g.storageSize <= |mem|
    requires PlanSave(c, g, mem, img).Go?
    requires Preferred(c, g, mem).Some? && !Decodes(c, g, mem, Preferred(c, g, mem).value)
    ensures 1 < Writes(c, g, mem, img)
    ensures Load(c, g, Cut(c, g, mem, img, 1), buf).status != Ok
  {
    hide Cut, PlanSave, LoadSlot, Load, Preferred, Probe;
    hide WellFormed, AllKnown, LayoutStatus, HeaderBytes, RecordInfo, NextGeneration, Encode;
    var t, m := Target(c, g, mem), Cut(c, g, mem, img, 1);
    PlanMeaning(c, g, mem, img);
    TornState(c, g, mem, img, 1);
    PreferredTarget(c, g, mem);
    LoadMeaning(c, g, m, buf);
    if Load(c, g, m, buf).status == Ok {
      var slot: Slot :| Decodes(c, g, m, slot);
      BufferIrrelevant(c, g, m, slot, true, [], []);
      assert slot == Other(t);
      SlotFrame(c, g, m, mem, slot, true);
    }
  }

  /** So a damaged newest record plus one byte of a further save loses the older
      record, although load could return it until then. */
  lemma DamageThenSaveLoses(c: Setup, g: Geometry, a: bytes, b: bytes, at: nat, img: bytes)
    requires c.Valid() && g.Usable() && g.storageSize <= |a| == |b|
    requires Decodes(c, g, a, 0) && Decodes(c, g, a, 1)
    requires Preferred(c, g, a).Some? && PayloadDamaged(c, g, a, b, Preferred(c, g, a).value, at)
    requires c.Holds(img) && PlanSave(c, g, b, img).Go?
    ensures Load(c, g, b, []) == LoadSlot(c, g, a, Other(Preferred(c, g, a).value), true, [])
    ensures Load(c, g, b, []).status == Ok && Load(c, g, Cut(c, g, b, img, 1), []).status != Ok
  {
    hide Load, LoadSlot, Preferred, Cut, Writes, PlanSave, PayloadDamaged;
    DamagedNewestFallsBack(c, g, a, b, at, []);
    FirstWriteLoses(c, g, b, img, []);
  }
}
