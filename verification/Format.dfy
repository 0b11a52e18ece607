// The stored format byte by byte: type codes, fields, headers, and what a header
// has to say to be accepted.

module Format {
  import opened Words
  import opened Crc
  import opened Schema
  import opened Image
  import opened Payload
  import opened Record
  import opened Save

  // ----- types

  /** The type codes and the size each type imposes, 0 for none. */
  lemma TypeTable(code: u8)
    ensures KindOf(code) == Bool <==> code == 1
    ensures KindOf(code) == Float32 <==> code == 8
    ensures KindOf(code) == Text <==> code == 9
    ensures KindOf(code) == Blob <==> code == 10
    ensures KindOf(code) == Unknown <==> code == 0 || code > 10
    ensures ExpectedSize(KindOf(code)) ==
      if code == 1 || code == 2 || code == 3 then 1
      else if code == 4 || code == 5 then 2
      else if code == 6 || code == 7 || code == 8 then 4
      else 0
  {
  }

  // ----- fields

  /** The number whose digits s holds, the highest first. */
  function BigNumber(s: bytes): nat {
    if s == [] then 0 else 256 * BigNumber(s[..|s| - 1]) + s[|s| - 1]
  }

  /** The unsigned number a scalar's bytes stand for on the machine. */
  function MachineNumber(p: Platform, f: bytes): nat {
    if p.littleEndian then Number(f) else BigNumber(f)
  }

  function Reversed(s: bytes): (r: bytes)
    ensures |r| == |s|
  {
    seq(|s|, i requires 0 <= i < |s| => s[|s| - 1 - i])
  }

  lemma {:induction false} BigIsReversed(s: bytes)
    ensures Number(Reversed(s)) == BigNumber(s)
    decreases |s|
  {
    if s == [] {
    } else {
      BigIsReversed(s[..|s| - 1]);
      assert Reversed(s)[1..] == Reversed(s[..|s| - 1]);
    }
  }

  /** Scalars are stored as their number, low byte first; texts as the low 16 bits
      of their length, low byte first, and their characters; blobs as they are. */
  lemma FieldFormat(p: Platform, e: Entry, f: bytes)
    requires |f| == e.size
    ensures
      var code := EncodeField(p, e, f);
      && (e.Kind() == Text ==>
            |code| == 2 + TextLen(f) && Number(code[..2]) == TextLen(f) % 0x1_0000 && code[2..] == f[..TextLen(f)])
      && (e.Kind() == Blob ==> code == f)
      && (ExpectedSize(e.Kind()) != 0 ==> |code| == |f| && Number(code) == MachineNumber(p, f))
  {
    hide TextLen, KindOf, Number;
    var n := TextLen(f) % 0x1_0000;
    assert U16Bytes(n)[0..2] == U16Bytes(n);
    TwoDigits(U16Bytes(n), 0);
    BigIsReversed(f);
    if e.Kind() == Text {
      assert EncodeField(p, e, f)[..2] == U16Bytes(n);
    } else if !p.littleEndian {
      assert Wire(p, f) == Reversed(f);
    }
  }

  /** Fields follow in schema order, nothing between them. */
  lemma PayloadFormat(c: Setup, img: bytes, n: nat)
    requires c.Valid() && c.Holds(img) && n < c.Count()
    ensures EncodeUpTo(c, img, 0) == [] && EncodeUpTo(c, img, c.Count()) == Encode(c, img)
    ensures EncodeUpTo(c, img, n + 1) == EncodeUpTo(c, img, n) + EncodeField(c.platform, c.At(n), Field(img, c.At(n)))
  {
  }

  // ----- headers

  ghost predicate Readable(mem: bytes, at: nat) {
    at + 32 <= |mem|
  }

  function Two(mem: bytes, at: nat): nat
    requires at + 2 <= |mem|
  {
    Number(mem[at..at + 2])
  }

  function Four(mem: bytes, at: nat): nat
    requires at + 4 <= |mem|
  {
    Number(mem[at..at + 4])
  }

  /** "MCFG". */
  ghost predicate Magic(mem: bytes, at: nat)
    requires Readable(mem, at)
  {
    mem[at] == 0x4D && mem[at + 1] == 0x43 && mem[at + 2] == 0x46 && mem[at + 3] == 0x47
  }

  /** A header of this format, 32 bytes long, in an acceptable state. */
  ghost predicate Acceptable(mem: bytes, at: nat, requireCommitted: bool)
    requires Readable(mem, at)
  {
    && Magic(mem, at) && Two(mem, at + 4) == 1 && Two(mem, at + 6) == 32
    && (mem[at + 18] == 0xA5 || (!requireCommitted && mem[at + 18] == 0x3C))
  }

  ghost predicate OfSchema(c: Setup, mem: bytes, at: nat)
    requires Readable(mem, at)
  {
    Four(mem, at + 8) == c.schema.version && Four(mem, at + 12) == c.fingerprint
  }

  lemma SliceSame(mem: bytes, at: nat, k: nat, n: nat)
    requires Readable(mem, at) && k + n <= 32
    ensures mem[at..at + 32][k..k + n] == mem[at + k..at + k + n]
  {
    var x, y := mem[at..at + 32][k..k + n], mem[at + k..at + k + n];
    assert forall j :: 0 <= j < n ==> x[j] == mem[at..at + 32][k + j] == mem[at + k + j] == y[j];
  }

  lemma HeaderWords(mem: bytes, at: nat)
    requires Readable(mem, at)
    ensures
      var h := mem[at..at + 32];
      && (h[..4] == MAGIC <==> Magic(mem, at))
      && U16At(h, 4) == Two(mem, at + 4) && U16At(h, 6) == Two(mem, at + 6) && U32At(h, 8) == Four(mem, at + 8)
      && U32At(h, 12) == Four(mem, at + 12) && U16At(h, 16) == Two(mem, at + 16) && h[18] == mem[at + 18]
      && U32At(h, 20) == Four(mem, at + 20) && U32At(h, 24) == Four(mem, at + 24) && U32At(h, 28) == Four(mem, at + 28)
  {
    hide Number;
    SliceSame(mem, at, 4, 2);
    SliceSame(mem, at, 6, 2);
    SliceSame(mem, at, 8, 4);
    SliceSame(mem, at, 12, 4);
    SliceSame(mem, at, 16, 2);
    SliceSame(mem, at, 20, 4);
    SliceSame(mem, at, 24, 4);
    SliceSame(mem, at, 28, 4);
    MagicBytes(mem[at..at + 32]);
  }

  lemma MagicBytes(h: bytes)
    requires |h| == 32
    ensures h[..4] == MAGIC <==> h[0] == 0x4D && h[1] == 0x43 && h[2] == 0x46 && h[3] == 0x47
  {
    var m := h[..4];
    assert m[0] == h[0] && m[1] == h[1] && m[2] == h[2] && m[3] == h[3];
    if h[0] == 0x4D && h[1] == 0x43 && h[2] == 0x46 && h[3] == 0x47 {
      assert m == MAGIC;
    }
  }

  /** What a header in storage says: found exactly if it is acceptable, of this
      schema, of as many entries, and no longer than its slot; otherwise the first
      of these that fails decides the error. */
  lemma ProbeExactly(c: Setup, g: Geometry, mem: bytes, slot: Slot, requireCommitted: bool)
    requires c.Valid() && g.Usable() && g.storageSize <= |mem|
    ensures
      var at := if slot == 0 then 0 else g.slotSize;
      var p := Probe(c, g, mem, slot, requireCommitted);
      var ours := Acceptable(mem, at, requireCommitted) && OfSchema(c, mem, at);
      && (p.Found? <==> ours && Two(mem, at + 16) == |c.schema.entries| && 32 + Four(mem, at + 20) <= g.slotSize)
      && (p == Missing(ErrMagic) <==> !Magic(mem, at))
      && (p == Missing(ErrVersion) <==> Acceptable(mem, at, requireCommitted) && !OfSchema(c, mem, at))
      && (p == Missing(ErrSize) <==>
            ours && Two(mem, at + 16) == |c.schema.entries| && 32 + Four(mem, at + 20) > g.slotSize)
      && (p == Missing(ErrInvalid) <==>
            Magic(mem, at) && (!Acceptable(mem, at, requireCommitted) || (ours && Two(mem, at + 16) != |c.schema.entries|)))
      && (p.Found? ==>
            && p.info.payloadLength == Four(mem, at + 20) && p.info.generation == Four(mem, at + 24)
            && p.info.payloadCrc == Four(mem, at + 28) && p.info.state == mem[at + 18])
  {
    hide WellFormed, Two, Four, U16At, U32At, Magic;
    HeaderWords(mem, if slot == 0 then 0 else g.slotSize);
  }

  /** The record a save programs. */
  lemma RecordFormat(c: Setup, payload: bytes, generation: u32)
    requires c.Valid()
    ensures
      var r := RecordBytes(c, payload, generation);
      && |r| == 32 + |payload| && Magic(r, 0) && Two(r, 4) == 1 && Two(r, 6) == 32
      && Four(r, 8) == c.schema.version && Four(r, 12) == c.fingerprint && Two(r, 16) == |c.schema.entries|
      && r[18] == 0x3C && r[19] == 0
      && Four(r, 20) == |payload| % 0x1_0000_0000 && Four(r, 24) == generation && Four(r, 28) == Crc32(payload)
      && r[32..] == payload
  {
    var i := RecordInfo(c, payload, generation);
    var r := RecordBytes(c, payload, generation);
    assert r[0..32] == HeaderBytes(i);
    assert Lies(r, 0, HeaderBytes(i));
    HeaderParts(r, 0, i);
    assert r[19] == 0 by {
      ReservedByte(i);
    }
    hide HeaderBytes, Crc32, U16Bytes, U32Bytes, WellFormed;
    assert r[0..4] == MAGIC;
    MagicBytes(r[0..32]);
  }

  lemma ReservedByte(i: Info)
    ensures HeaderBytes(i)[19] == 0
  {
  }

  /** What a save writes: 255 everywhere, the record, and one byte at the end. */
  lemma TraceFormat(mem: bytes, base: nat, slotSize: nat, record: bytes)
    requires Fits(mem, base, slotSize, record)
    ensures Length(slotSize, record) == slotSize + |record| + 1
    ensures forall i :: base <= i < base + slotSize ==> AfterBytes(mem, base, slotSize, record, slotSize)[i] == 0xFF
    ensures
      var m := AfterBytes(mem, base, slotSize, record, slotSize + |record|);
      && m[base..base + |record|] == record
      && (forall i :: base + |record| <= i < base + slotSize ==> m[i] == 0xFF)
      && AfterBytes(mem, base, slotSize, record, slotSize + |record| + 1) == m[base + 18 := 0xA5]
  {
    assert record[..|record|] == record;
  }

  // ----- generations

  /** A generation is later than another exactly if it is at most 2^31 - 1 steps
      ahead of it on the 32-bit circle. */
  lemma NewerExactly(a: u32, b: u32)
    ensures Newer(a, b) <==> exists d :: 1 <= d <= 0x7FFF_FFFF && a == Ahead(b, d)
  {
    if Newer(a, b) {
      assert a == Ahead(b, (a - b) % 0x1_0000_0000);
    }
  }

  function Ahead(b: u32, d: nat): u32 {
    (b + d) % 0x1_0000_0000
  }
}
