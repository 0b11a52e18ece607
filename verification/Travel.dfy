// Records that travel between machines of different byte order.

module Travel {
  import opened Words
  import opened Crc
  import opened Schema
  import opened Image
  import opened Payload
  import opened Record
  import opened Save
  import opened Runs

  /** The same content on two machines: scalars have the same canonical bytes, that
      is, the same value; texts and blobs are the same bytes. */
  ghost predicate Alike(from: Platform, to: Platform, e: Entry, f: bytes, t: bytes) {
    if e.Kind() == Text || e.Kind() == Blob then f == t else Wire(from, f) == Wire(to, t)
  }

  /** Two machines built from the same schema, with the floats it needs. */
  ghost predicate Twins(from: Setup, to: Setup) {
    && from.Valid() && to.Valid()
    && from.schema == to.schema && from.fingerprint == to.fingerprint
    && FloatsSupported(from) && FloatsSupported(to)
  }

  ghost predicate ImagesAlike(from: Setup, to: Setup, a: bytes, b: bytes)
    requires Twins(from, to) && from.Holds(a) && to.Holds(b)
  {
    forall i :: 0 <= i < to.Count() ==> Alike(from.platform, to.platform, to.At(i), Field(a, to.At(i)), Field(b, to.At(i)))
  }

  lemma BlankAlike(from: Setup, to: Setup)
    requires Twins(from, to)
    ensures ImagesAlike(from, to, Fill(from.schema.dataSize, 0), Fill(to.schema.dataSize, 0))
  {
    hide WellFormed;
    forall i | 0 <= i < to.Count()
      ensures
        var f := Field(Fill(to.schema.dataSize, 0), to.At(i));
        Alike(from.platform, to.platform, to.At(i), f, f)
    {
      var f := Field(Fill(to.schema.dataSize, 0), to.At(i));
      assert Wire(from.platform, f) == f == Wire(to.platform, f);
    }
  }

  lemma StoreAlike(from: Setup, to: Setup, i: nat, a: bytes, b: bytes, v: bytes, w: bytes)
    requires Twins(from, to) && i < to.Count() && from.Holds(a) && to.Holds(b)
    requires |v| == |w| == to.At(i).size && Alike(from.platform, to.platform, to.At(i), v, w)
    requires ImagesAlike(from, to, a, b)
    ensures ImagesAlike(from, to, Splice(a, to.At(i).offset, v), Splice(b, to.At(i).offset, w))
  {
    hide WellFormed, Splice, Alike;
    StoreFrame(from, a, i, v);
    StoreFrame(to, b, i, w);
    var a', b' := Splice(a, to.At(i).offset, v), Splice(b, to.At(i).offset, w);
    forall j | 0 <= j < to.Count()
      ensures Alike(from.platform, to.platform, to.At(j), Field(a', to.At(j)), Field(b', to.At(j)))
    {
      assert from.At(j) == to.At(j);
      if j != i {
        assert Alike(from.platform, to.platform, to.At(j), Field(a, to.At(j)), Field(b, to.At(j)));
      }
    }
  }

  /** Both machines read the same entry from the same bytes, or both give up. */
  lemma EntryAlike(from: Setup, to: Setup, i: nat, mem: bytes, a: bytes, b: bytes, pos: nat)
    requires Twins(from, to) && i < to.Count() && from.Holds(a) && to.Holds(b)
    requires ImagesAlike(from, to, a, b)
    ensures
      var r, s := ReadEntry(from, i, mem, a, pos), ReadEntry(to, i, mem, b, pos);
      r.status == s.status && r.pos == s.pos && ImagesAlike(from, to, r.image, s.image)
  {
    hide WellFormed, Splice, ImagesAlike, Wire;
    var e := to.At(i);
    if e.Kind() == Text {
      TextAlike(from, to, i, mem, a, b, pos);
    } else if e.Kind() == Blob {
      if pos + e.size <= |mem| {
        StoreAlike(from, to, i, a, b, mem[pos..pos + e.size], mem[pos..pos + e.size]);
      }
    } else if e.Kind() != Unknown && pos + e.size <= |mem| {
      var x := mem[pos..pos + e.size];
      WireInvolutive(from.platform, x);
      WireInvolutive(to.platform, x);
      StoreAlike(from, to, i, a, b, Wire(from.platform, x), Wire(to.platform, x));
    }
  }

  lemma TextAlike(from: Setup, to: Setup, i: nat, mem: bytes, a: bytes, b: bytes, pos: nat)
    requires Twins(from, to) && i < to.Count() && from.Holds(a) && to.Holds(b) && to.At(i).Kind() == Text
    requires ImagesAlike(from, to, a, b)
    ensures
      var r, s := ReadText(to.At(i), mem, a, pos), ReadText(to.At(i), mem, b, pos);
      r.status == s.status && r.pos == s.pos && ImagesAlike(from, to, r.image, s.image)
  {
    hide WellFormed, Splice, ImagesAlike, U16At, KindOf;
    var e := to.At(i);
    if pos + 2 <= |mem| {
      var len := U16At(mem, pos) as int;
      if len + 1 <= e.size {
        var v := if pos + 2 + len > |mem| then Fill(e.size, 0) else mem[pos + 2..pos + 2 + len] + Fill(e.size - len, 0);
        StoreAlike(from, to, i, a, b, v, v);
      }
    }
  }

  lemma {:induction false} ReadsAlike(from: Setup, to: Setup, mem: bytes, start: nat, n: nat)
    requires Twins(from, to) && start <= |mem| && n <= to.Count()
    ensures
      var r, s := ReadUpTo(from, mem, start, n), ReadUpTo(to, mem, start, n);
      r.status == s.status && r.pos == s.pos && ImagesAlike(from, to, r.image, s.image)
  {
    hide WellFormed, ReadEntry, ImagesAlike, FloatsSupported;
    if n == 0 {
      BlankAlike(from, to);
    } else {
      ReadsAlike(from, to, mem, start, n - 1);
      var q, p := ReadUpTo(from, mem, start, n - 1), ReadUpTo(to, mem, start, n - 1);
      EntryAlike(from, to, n - 1, mem, q.image, p.image, q.pos);
    }
  }

  lemma ValidAlike(from: Setup, to: Setup, a: bytes, b: bytes)
    requires Twins(from, to) && from.Holds(a) && to.Holds(b)
    requires ImagesAlike(from, to, a, b)
    ensures DataStatus(from, a) == Ok <==> DataStatus(to, b) == Ok
  {
    hide WellFormed, DataStatus, TextLen;
    ValidMeansOk(from, a);
    ValidMeansOk(to, b);
    forall i | 0 <= i < to.Count()
      ensures FieldStatus(from.platform, from.At(i), Field(a, from.At(i))) == Ok
         <==> FieldStatus(to.platform, to.At(i), Field(b, to.At(i))) == Ok
    {
      var f, t := Field(a, to.At(i)), Field(b, to.At(i));
      assert Alike(from.platform, to.platform, to.At(i), f, t);
      if to.At(i).Kind() == Bool {
        assert Wire(from.platform, f)[0] == f[0] && Wire(to.platform, t)[0] == t[0];
      }
    }
  }

  lemma ProbesAlike(from: Setup, to: Setup, g: Geometry, mem: bytes, slot: Slot, requireCommitted: bool)
    requires Twins(from, to)
    ensures Probe(from, g, mem, slot, requireCommitted) == Probe(to, g, mem, slot, requireCommitted)
  {
    hide DecodeHeader, WellFormed;
  }

  /** A slot decodes on one machine exactly if it does on the other, header,
      checksum and validity included, and then to the same content. */
  lemma SlotTravels(from: Setup, to: Setup, g: Geometry, mem: bytes, slot: Slot, requireCommitted: bool, a: bytes, b: bytes)
    requires Twins(from, to) && from.Holds(a) && to.Holds(b)
    ensures
      var r, s := LoadSlot(from, g, mem, slot, requireCommitted, a), LoadSlot(to, g, mem, slot, requireCommitted, b);
      && r.status == s.status
      && (r.status == Ok ==> ImagesAlike(from, to, r.image, s.image))
  {
    hide WellFormed, Probe, ReadUpTo, ImagesAlike, DataStatus, Crc32, FloatsSupported;
    ProbesAlike(from, to, g, mem, slot, requireCommitted);
    ProbeMissingNotOk(from, g, mem, slot, requireCommitted);
    if Probe(from, g, mem, slot, requireCommitted).Found? {
      var start := g.Base(slot) + HEADER_SIZE;
      ReadsAlike(from, to, mem, start, to.Count());
      ValidAlike(from, to, Read(from, mem, start).image, Read(to, mem, start).image);
    }
  }

  /** Storage is independent of the byte order of the machine: whatever it holds,
      load reports the same on both, and on success returns the same content. */
  lemma StorageTravels(from: Setup, to: Setup, g: Geometry, mem: bytes, a: bytes, b: bytes)
    requires Twins(from, to) && from.Holds(a) && to.Holds(b)
    ensures
      var r, s := Load(from, g, mem, a), Load(to, g, mem, b);
      && r.status == s.status
      && (r.status == Ok ==> ImagesAlike(from, to, r.image, s.image))
  {
    hide WellFormed, Probe, LoadSlot, ImagesAlike, FloatsSupported, Defaults;
    ProbesAlike(from, to, g, mem, 0, true);
    ProbesAlike(from, to, g, mem, 1, true);
    var p := Preferred(from, g, mem);
    if g.Usable() && p.Some? {
      SlotTravels(from, to, g, mem, p.value, true, a, b);
      var x, y := LoadSlot(from, g, mem, p.value, true, a).image, LoadSlot(to, g, mem, p.value, true, b).image;
      SlotTravels(from, to, g, mem, Other(p.value), true, x, y);
    }
  }

  /** What one machine saved, the other loads. */
  lemma RecordTravels(from: Setup, to: Setup, g: Geometry, mem: bytes, img: bytes, budget: nat, buf: bytes)
    requires Twins(from, to) && from.Holds(img) && to.Holds(buf) && g.storageSize <= |mem|
    requires SaveResult(from, g, mem, img, budget).status == Ok
    ensures
      var saved := SaveResult(from, g, mem, img, budget);
      var loaded := Load(to, g, saved.storage, buf);
      loaded.status == Ok && ImagesAlike(from, to, saved.image, loaded.image)
  {
    hide WellFormed, Load, SaveResult, ImagesAlike, FloatsSupported, PlanSave;
    SaveRefused(from, g, mem, img, budget);
    var saved := SaveResult(from, g, mem, img, budget);
    SavedLoads(from, g, mem, img, budget);
    StorageTravels(from, to, g, saved.storage, img, buf);
  }

  lemma SavedLoads(c: Setup, g: Geometry, mem: bytes, img: bytes, budget: nat)
    requires c.Valid() && c.Holds(img) && g.storageSize <= |mem|
    requires PlanSave(c, g, mem, img).Go? && SaveResult(c, g, mem, img, budget).status == Ok
    ensures Load(c, g, SaveResult(c, g, mem, img, budget).storage, img) == Loaded(Ok, SaveResult(c, g, mem, img, budget).image)
  {
    hide WellFormed, Load, SaveResult, PlanSave, Encode, Canon, ShortTexts, Cut, Writes, LoadSlot;
    SaveOutcome(c, g, mem, img, budget);
    SaveRoundTrip(c, g, mem, img, budget, img);
  }
}
