// The EEPROM backend: a byte-addressed device that may run out of power, store
// wrong bytes, or refuse to be read, and the region of it that holds the slots.

module Eeprom {
  import opened Words
  import opened Record
  import opened Save

  function Min(a: nat, b: nat): nat {
    if a < b then a else b
  }

  // ----- memory primitives

  method CopyInto(dst: array<u8>, at: nat, src: bytes)
    requires at + |src| <= dst.Length
    modifies dst
    ensures dst[..] == Splice(old(dst[..]), at, src)
  {
    for i := 0 to |src|
      invariant dst[..] == Splice(old(dst[..]), at, src[..i])
    {
      dst[at + i] := src[i];
      assert src[..i + 1] == src[..i] + [src[i]];
    }
    assert src[..|src|] == src;
  }

  method FillInto(dst: array<u8>, at: nat, n: nat, b: u8)
    requires at + n <= dst.Length
    modifies dst
    ensures dst[..] == Splice(old(dst[..]), at, Fill(n, b))
  {
    for i := 0 to n
      invariant dst[..] == Splice(old(dst[..]), at, Fill(i, b))
    {
      dst[at + i] := b;
    }
  }

  // ----- what a write leaves

  /** The cells of a device and the byte writes it has left. */
  datatype Shot = Shot(cells: bytes, budget: nat)

  /** Between the two shots s was written upwards from address at on, as far as
      power allowed; ok says whether all of it was. A device that is not faithful
      may have stored anything in the cells reached. */
  ghost predicate Wrote(faithful: bool, a: Shot, b: Shot, at: nat, s: bytes, ok: bool) {
    var n := Min(|s|, a.budget);
    && at + |s| <= |a.cells|
    && (ok <==> n == |s|)
    && b.budget == a.budget - n
    && SameOutside(a.cells, b.cells, at, at + n)
    && (faithful ==> b.cells == Splice(a.cells, at, s[..n]))
  }

  lemma WroteNothing(faithful: bool, a: Shot, at: nat)
    requires at <= |a.cells|
    ensures Wrote(faithful, a, a, at, [], true)
  {
  }

  /** Consecutive writes make one write. */
  lemma WroteBoth(faithful: bool, a: Shot, b: Shot, c: Shot, at: nat, s: bytes, t: bytes, ok: bool)
    requires Wrote(faithful, a, b, at, s, true)
    requires Wrote(faithful, b, c, at + |s|, t, ok)
    ensures Wrote(faithful, a, c, at, s + t, ok)
  {
    var n := Min(|t|, b.budget);
    if faithful {
      SpliceJoin(a.cells, at, s, t[..n]);
      assert s[..|s|] == s;
      assert (s + t)[..|s| + n] == s + t[..n];
    }
  }

  /** A write that stopped short is also a stopped write of anything longer. */
  lemma WroteShort(faithful: bool, a: Shot, b: Shot, at: nat, s: bytes, t: bytes)
    requires Wrote(faithful, a, b, at, s, false)
    requires at + |s| + |t| <= |a.cells|
    ensures Wrote(faithful, a, b, at, s + t, false)
  {
    assert (s + t)[..a.budget] == s[..a.budget];
  }

  // ----- the device

  class Device {
    const cells: array<u8>
    /** Byte writes left before the power goes. */
    var budget: nat
    /** Whether a written cell holds what was written. */
    const faithful: bool
    /** Whether every read in range succeeds. If not, only the next steadyReads do. */
    const reliable: bool
    var steadyReads: nat

    constructor (size: nat, budget: nat, faithful: bool, reliable: bool, steadyReads: nat)
      ensures fresh(cells) && cells.Length == size && cells[..] == Fill(size, ERASED)
      ensures this.budget == budget && this.faithful == faithful
      ensures this.reliable == reliable && this.steadyReads == steadyReads
    {
      cells := new u8[size](_ => ERASED);
      this.budget, this.faithful := budget, faithful;
      this.reliable, this.steadyReads := reliable, steadyReads;
    }

    ghost function State(): Shot
      reads this`budget, cells
    {
      Shot(cells[..], budget)
    }

    /** The next n reads in range are sure to succeed. */
    ghost predicate SteadyFor(n: nat)
      reads this`steadyReads
    {
      reliable || steadyReads >= n
    }

    /** Writes upwards, cell by cell, until done or out of power. */
    method WriteCells(at: nat, src: bytes) returns (ok: bool)
      modifies this`budget, cells
      ensures at + |src| > cells.Length ==> !ok && State() == old(State())
      ensures at + |src| <= cells.Length ==> Wrote(faithful, old(State()), State(), at, src, ok)
    {
      if at + |src| > cells.Length {
        return false;
      }
      for i := 0 to |src|
        invariant i <= old(budget) && budget == old(budget) - i
        invariant SameOutside(old(cells[..]), cells[..], at, at + i)
        invariant faithful ==> cells[..] == Splice(old(cells[..]), at, src[..i])
      {
        if budget == 0 {
          return false;
        }
        var noise :| 0 <= noise < 0x100;
        cells[at + i] := if faithful then src[i] else noise;
        budget := budget - 1;
        assert src[..i + 1] == src[..i] + [src[i]];
      }
      assert src[..|src|] == src;
      return true;
    }

    method ReadCells(at: nat, buf: array<u8>, pos: nat, n: nat) returns (ok: bool)
      requires pos + n <= buf.Length && buf != cells
      modifies this`steadyReads, buf
      ensures steadyReads + 1 >= old(steadyReads)
      ensures ok ==> at + n <= cells.Length && buf[..] == Splice(old(buf[..]), pos, cells[at..at + n])
      ensures !ok ==> buf[..] == old(buf[..])
      ensures at + n <= cells.Length && (reliable || old(steadyReads) > 0) ==> ok
    {
      if at + n > cells.Length {
        return false;
      }
      if !reliable {
        var fails: bool := *;
        if steadyReads == 0 && fails {
          return false;
        }
        steadyReads := if steadyReads == 0 then 0 else steadyReads - 1;
      }
      CopyInto(buf, pos, cells[at..at + n]);
      return true;
    }
  }

  // ----- the backend

  const ERASE_CHUNK: nat := 32

  /** The checks made when a region is set up. The end of the region is a sum
      that wraps. */
  predicate RegionAccepted(size: u64, base: u64, totalSize: u64) {
    base < size
    && var total := TotalOf(size, base, totalSize);
       Add64(base, total) <= size && total >= 64 && total % 2 == 0
  }

  /** A size of 0 asks for the rest of the device. */
  function TotalOf(size: u64, base: u64, totalSize: u64): (total: u64)
    requires base < size
    ensures totalSize == 0 ==> base + total == size
  {
    if totalSize == 0 then size - base else totalSize
  }

  class Backend {
    const dev: Device
    const base: u64
    const geometry: Geometry

    ghost predicate Valid() {
      base + geometry.storageSize <= dev.cells.Length <= MAX_OBJECT
    }

    /** The configured region as the core addresses it, from 0 on. */
    ghost function Mem(): (m: bytes)
      requires Valid()
      reads dev.cells
      ensures |m| == geometry.storageSize
    {
      dev.cells[base..base + geometry.storageSize]
    }

    constructor (dev: Device, base: u64, geometry: Geometry)
      ensures this.dev == dev && this.base == base && this.geometry == geometry
    {
      this.dev, this.base, this.geometry := dev, base, geometry;
    }

    /** Sets up two equal slots in the region of the given size at base; the
        region lies inside the device exactly when its end does not wrap. */
    static method Init(dev: Device, base: u64, totalSize: u64) returns (backend: Backend?)
      requires dev.cells.Length <= MAX_OBJECT
      ensures backend != null <==> RegionAccepted(dev.cells.Length, base, totalSize)
      ensures backend != null ==>
        var total := TotalOf(dev.cells.Length, base, totalSize);
        && backend.dev == dev && backend.base == base
        && backend.geometry == Geometry(total, total / 2) && backend.geometry.Usable()
        && (backend.Valid() <==> base + total <= SIZE_MAX)
    {
      var size := dev.cells.Length;
      if size == 0 || base >= size {
        return null;
      }
      var total := if totalSize == 0 then size - base else totalSize;
      if Add64(base, total) > size {
        return null;
      }
      if total < 2 * HEADER_SIZE || total % 2 != 0 {
        return null;
      }
      backend := new Backend(dev, base, Geometry(total, total / 2));
    }

    /** The bounds check is a sum that wraps, and so is the address; within a
        region that lies in the device neither does for the offsets in it. */
    method Read(offset: u64, buf: array<u8>, pos: nat, n: u64) returns (ok: bool)
      requires dev.cells.Length <= MAX_OBJECT && pos + n <= buf.Length && buf != dev.cells
      modifies dev`steadyReads, buf
      ensures dev.steadyReads + 1 >= old(dev.steadyReads)
      ensures
        var at := Add64(base, offset);
        && (ok ==> InBounds(offset, n) && buf[..] == Splice(old(buf[..]), pos, dev.cells[at..at + n]))
        && (InBounds(offset, n) && (dev.reliable || old(dev.steadyReads) > 0) ==> ok)
      ensures !ok ==> buf[..] == old(buf[..])
      ensures Valid() && offset + n <= SIZE_MAX && ok ==>
        offset + n <= |Mem()| && buf[..] == Splice(old(buf[..]), pos, Mem()[offset..offset + n])
      ensures Valid() && offset + n <= |Mem()| && (dev.reliable || old(dev.steadyReads) > 0) ==> ok
    {
      hide Splice, Add64;
      Onwards(base, offset, 0);
      Onwards(0, offset, n);
      if Add64(offset, n) > geometry.storageSize {
        return false;
      }
      ok := dev.ReadCells(Add64(base, offset), buf, pos, n);
      if ok && Valid() && offset + n <= SIZE_MAX {
        SliceOfSlice(dev.cells[..], base, base + geometry.storageSize, offset, offset + n);
      }
    }

    /** The check the backend makes, and the one the device makes. */
    ghost predicate InBounds(offset: u64, n: u64) {
      Add64(offset, n) <= geometry.storageSize && Add64(base, offset) + n <= dev.cells.Length
    }

    method Write(offset: u64, src: bytes) returns (ok: bool)
      requires dev.cells.Length <= MAX_OBJECT && |src| <= SIZE_MAX
      modifies dev`budget, dev.cells
      ensures
        if InBounds(offset, |src|) then Wrote(dev.faithful, old(dev.State()), dev.State(), Add64(base, offset), src, ok)
        else !ok && dev.State() == old(dev.State())
      ensures Valid() && offset + |src| <= geometry.storageSize ==>
        Wrote(dev.faithful, old(dev.State()), dev.State(), base + offset, src, ok)
    {
      hide Wrote, Add64;
      Onwards(base, offset, 0);
      Onwards(0, offset, |src|);
      if Add64(offset, |src|) > geometry.storageSize {
        return false;
      }
      ok := dev.WriteCells(Add64(base, offset), src);
    }

    /** Fills a range with 0xFF in ascending chunks: whatever stops it, exactly a
        prefix of the range has been reached, and only lack of power or the end
        of the device stops it. */
    method Erase(offset: u64, size: u64) returns (ok: bool)
      requires dev.cells.Length <= MAX_OBJECT
      modifies dev`budget, dev.cells
      ensures
        if Add64(offset, size) > geometry.storageSize then !ok && dev.State() == old(dev.State())
        else Filled(dev.faithful, old(dev.State()), dev.State(), Add64(base, offset), size, ok)
      ensures Valid() && offset + size <= geometry.storageSize ==>
        Wrote(dev.faithful, old(dev.State()), dev.State(), base + offset, Fill(size, ERASED), ok)
    {
      hide Wrote, Fill, Reached, Filled, Add64;
      Onwards(offset, size, 0);
      Onwards(base, offset, 0);
      if Add64(offset, size) > geometry.storageSize {
        return false;
      }
      ghost var start, at := dev.State(), Add64(base, offset);
      ghost var faithful := dev.faithful;
      ReachedNothing(faithful, start, at);
      var remaining: u64 := size;
      var current: u64 := offset;
      while remaining > 0
        invariant remaining <= size && current == Add64(offset, size - remaining)
        invariant remaining > 0 ==> (size - remaining) % ERASE_CHUNK == 0
        invariant Reached(faithful, start, dev.State(), at, size - remaining)
        decreases remaining
      {
        var chunk := if remaining > ERASE_CHUNK then ERASE_CHUNK else remaining;
        ghost var done, mid := size - remaining, dev.State();
        Onwards(base, offset, done);
        AddOn(offset, done, chunk);
        ReachedWithin(faithful, start, mid, at, done);
        var written := dev.WriteCells(Add64(base, current), Fill(chunk, ERASED));
        ReachedMore(faithful, start, mid, dev.State(), at, done, chunk, written);
        if !written {
          StoppedFilling(faithful, start, dev.State(), at, done, chunk, size);
          return false;
        }
        remaining := remaining - chunk;
        current := Add64(current, chunk);
      }
      FilledAll(faithful, start, dev.State(), at, size);
      return true;
    }
  }

  // ----- filling chunk by chunk

  /** The first done bytes of the range have been filled; nothing is if the range
      starts past the end of the device. */
  ghost predicate Reached(faithful: bool, a: Shot, b: Shot, at: nat, done: nat) {
    if at + done <= |a.cells| then Wrote(faithful, a, b, at, Fill(done, ERASED), true)
    else done == 0 && b == a
  }

  /** How much of the range the device has room for, in whole chunks. */
  function FillLimit(length: nat, at: nat, size: nat): (n: nat)
    requires at <= length
    ensures n <= size && at + n <= length
    ensures at + size <= length <==> n == size
  {
    if at + size <= length then size else (length - at) / ERASE_CHUNK * ERASE_CHUNK
  }

  /** The range was filled as far as device and power allowed. */
  ghost predicate Filled(faithful: bool, a: Shot, b: Shot, at: nat, size: nat, ok: bool) {
    if at > |a.cells| then b == a && (ok <==> size == 0)
    else
      var n := FillLimit(|a.cells|, at, size);
      && Wrote(faithful, a, b, at, Fill(n, ERASED), n <= a.budget)
      && (ok <==> n == size <= a.budget)
  }

  /** Going on from an address counts on from where it wrapped to. */
  lemma Onwards(base: u64, offset: u64, done: u64)
    ensures Add64(base, Add64(offset, done)) == Add64(Add64(base, offset), done)
    ensures base + offset <= SIZE_MAX ==> Add64(base, offset) == base + offset
    ensures Add64(base, offset) + done <= SIZE_MAX ==> Add64(Add64(base, offset), done) == Add64(base, offset) + done
    ensures Add64(offset, 0) == offset == Add64(0, offset)
    ensures offset + done <= SIZE_MAX ==> Add64(offset, done) == offset + done
  {
    hide Add64;
    Add64Wraps(base, offset);
    Add64Wraps(offset, done);
    Add64Wraps(offset, 0);
    Add64Wraps(0, offset);
    Add64Wraps(base, Add64(offset, done));
    Add64Wraps(Add64(base, offset), done);
  }

  lemma AddOn(a: u64, b: u64, c: u64)
    requires b + c <= SIZE_MAX
    ensures Add64(Add64(a, b), c) == Add64(a, b + c)
  {
    hide Add64;
    Add64Wraps(a, b);
    Add64Wraps(Add64(a, b), c);
    Add64Wraps(a, b + c);
  }

  lemma ReachedNothing(faithful: bool, a: Shot, at: nat)
    ensures Reached(faithful, a, a, at, 0)
  {
    if at <= |a.cells| {
      WroteNothing(faithful, a, at);
      FillJoins(0, 0);
    }
  }

  lemma ReachedWithin(faithful: bool, a: Shot, b: Shot, at: nat, done: nat)
    requires Reached(faithful, a, b, at, done)
    ensures |b.cells| == |a.cells| && (done > 0 ==> at + done <= |a.cells|)
  {
  }

  lemma ReachedMore(faithful: bool, a: Shot, b: Shot, c: Shot, at: nat, done: nat, chunk: nat, written: bool)
    requires chunk > 0 && |a.cells| == |b.cells| && Reached(faithful, a, b, at, done)
    requires at + done + chunk > |a.cells| ==> !written && c == b
    requires at + done + chunk <= |a.cells| ==> Wrote(faithful, b, c, at + done, Fill(chunk, ERASED), written)
    ensures at + done + chunk > |a.cells| ==> Reached(faithful, a, c, at, done)
    ensures at + done + chunk <= |a.cells| ==> Wrote(faithful, a, c, at, Fill(done + chunk, ERASED), written)
    ensures written ==> Reached(faithful, a, c, at, done + chunk)
  {
    hide Wrote, Fill;
    if at + done + chunk <= |a.cells| {
      FillJoins(done, chunk);
      WroteBoth(faithful, a, b, c, at, Fill(done, ERASED), Fill(chunk, ERASED), written);
    }
  }

  lemma StoppedFilling(faithful: bool, a: Shot, b: Shot, at: nat, done: nat, chunk: nat, size: nat)
    requires done % ERASE_CHUNK == 0 && 0 < chunk && done + chunk <= size
    requires chunk == ERASE_CHUNK || (chunk < ERASE_CHUNK && done + chunk == size)
    requires at + done + chunk > |a.cells| ==> Reached(faithful, a, b, at, done)
    requires at + done + chunk <= |a.cells| ==> Wrote(faithful, a, b, at, Fill(done + chunk, ERASED), false)
    ensures Filled(faithful, a, b, at, size, false)
    ensures at + size <= |a.cells| ==> Wrote(faithful, a, b, at, Fill(size, ERASED), false)
  {
    if at + done + chunk > |a.cells| {
      if at <= |a.cells| {
        ChunksFit(|a.cells|, at, done, size);
      }
    } else {
      var n := FillLimit(|a.cells|, at, size);
      ChunksFit(|a.cells|, at, done, size);
      assert done + chunk <= n;
      hide FillLimit, Fill;
      FillJoins(done + chunk, n - (done + chunk));
      WroteShort(faithful, a, b, at, Fill(done + chunk, ERASED), Fill(n - (done + chunk), ERASED));
    }
  }

  /** Whole chunks fit up to the limit, and no further one does. */
  lemma ChunksFit(length: nat, at: nat, done: nat, size: nat)
    requires at <= length && done % ERASE_CHUNK == 0 && done <= size
    ensures at + done + ERASE_CHUNK <= length && done + ERASE_CHUNK <= size ==> done + ERASE_CHUNK <= FillLimit(length, at, size)
    ensures at + done <= length < at + done + ERASE_CHUNK && at + size > length ==> done == FillLimit(length, at, size)
  {
  }

  lemma FilledAll(faithful: bool, a: Shot, b: Shot, at: nat, size: nat)
    requires Reached(faithful, a, b, at, size)
    ensures Filled(faithful, a, b, at, size, true)
    ensures at + size <= |a.cells| ==> Wrote(faithful, a, b, at, Fill(size, ERASED), true)
  {
  }

  // ----- a region whose end wraps

  /** A region accepted although its end wraps cannot be used: erasing its first
      slot fails, having filled the device from the base to its end, up to a
      chunk, and erasing its second slot fails at once. */
  lemma WrappedRegionUnusable(faithful: bool, a: Shot, b: Shot, base: u64, totalSize: u64, ok: bool)
    requires |a.cells| <= MAX_OBJECT && RegionAccepted(|a.cells|, base, totalSize)
    requires base + TotalOf(|a.cells|, base, totalSize) > SIZE_MAX
    ensures
      var slotSize := TotalOf(|a.cells|, base, totalSize) / 2;
      var n := (|a.cells| - base) / ERASE_CHUNK * ERASE_CHUNK;
      && (Filled(faithful, a, b, Add64(base, 0), slotSize, ok) ==>
            && !ok && Wrote(faithful, a, b, base, Fill(n, ERASED), n <= a.budget)
            && |a.cells| - base < n + ERASE_CHUNK)
      && (Filled(faithful, a, b, Add64(base, slotSize), slotSize, ok) ==> !ok && b == a)
  {
    hide Wrote, Fill;
  }

  lemma FillJoins(m: nat, n: nat)
    ensures Fill(0, ERASED) == []
    ensures Fill(m, ERASED) + Fill(n, ERASED) == Fill(m + n, ERASED)
  {
  }

  lemma SliceOfSlice(s: bytes, lo: nat, hi: nat, a: nat, b: nat)
    requires lo <= hi <= |s| && a <= b && lo + b <= hi
    ensures s[lo..hi][a..b] == s[lo + a..lo + b]
  {
    var x, y := s[lo..hi][a..b], s[lo + a..lo + b];
    assert forall k :: 0 <= k < b - a ==> x[k] == s[lo..hi][a + k] == s[lo + a + k] == y[k];
  }

  /** What changes in the device changes at the same place in the region. */
  lemma RegionFrame(a: bytes, b: bytes, base: nat, size: nat, lo: nat, hi: nat)
    requires base + size <= |a|
    requires SameOutside(a, b, base + lo, base + hi)
    ensures SameOutside(a[base..base + size], b[base..base + size], lo, hi)
  {
  }

  lemma RegionSplice(a: bytes, base: nat, size: nat, at: nat, s: bytes)
    requires base + size <= |a| && at + |s| <= size
    ensures Splice(a, base + at, s)[base..base + size] == Splice(a[base..base + size], at, s)
  {
  }

  // ----- writes seen in the region, as steps of a save's trace

  function Region(s: Shot, base: nat, size: nat): (m: bytes)
    requires base + size <= |s.cells|
    ensures |m| == size
  {
    s.cells[base..base + size]
  }

  lemma RegionWrote(faithful: bool, a: Shot, b: Shot, base: nat, size: nat, at: nat, s: bytes, ok: bool)
    requires base + size <= |a.cells| && at + |s| <= size
    requires Wrote(faithful, a, b, base + at, s, ok)
    ensures SameOutside(Region(a, base, size), Region(b, base, size), at, at + |s|)
    ensures faithful ==> Region(b, base, size) == Splice(Region(a, base, size), at, s[..Min(|s|, a.budget)])
  {
    RegionFrame(a.cells, b.cells, base, size, at, at + |s|);
    if faithful {
      RegionSplice(a.cells, base, size, at, s[..Min(|s|, a.budget)]);
    }
  }

  lemma ErasedTrace(a: Shot, b: Shot, base: nat, size: nat, slot: nat, slotSize: nat, record: bytes, ok: bool)
    requires base + size <= |a.cells| && slot + slotSize <= size
    requires HEADER_SIZE <= |record| <= slotSize
    requires Wrote(true, a, b, base + slot, Fill(slotSize, ERASED), ok)
    ensures Region(b, base, size) == AfterBytes(Region(a, base, size), slot, slotSize, record, Min(slotSize, a.budget))
  {
    RegionWrote(true, a, b, base, size, slot, Fill(slotSize, ERASED), ok);
    var n := Min(slotSize, a.budget);
    assert Fill(slotSize, ERASED)[..n] == Fill(n, ERASED);
  }

  lemma ProgrammedTrace(a: Shot, b: Shot, c: Shot, base: nat, size: nat, slot: nat, slotSize: nat, record: bytes, ok: bool)
    requires base + size <= |a.cells| && slot + slotSize <= size
    requires HEADER_SIZE <= |record| <= slotSize
    requires Wrote(true, a, b, base + slot, Fill(slotSize, ERASED), true)
    requires Wrote(true, b, c, base + slot, record, ok)
    ensures Region(c, base, size)
         == AfterBytes(Region(a, base, size), slot, slotSize, record, slotSize + Min(|record|, b.budget))
  {
    ErasedTrace(a, b, base, size, slot, slotSize, record, true);
    RegionWrote(true, b, c, base, size, slot, record, ok);
    var blank := Region(b, base, size);
    assert Splice(blank, slot, []) == blank;
  }
}
