// What the fingerprint covers, told from the bytes that are hashed, and a known
// value of the hash.

module Fingerprints {
  import opened Words
  import opened Schema
  import opened CheckValue

  function Pow256(n: nat): (r: nat)
    ensures r >= 1
  {
    if n == 0 then 1 else 256 * Pow256(n - 1)
  }

  lemma {:induction false} LowBytesNumber(v: nat, n: nat)
    requires v < Pow256(n)
    ensures Number(LowBytes(v, n)) == v
  {
    if n == 0 {
    } else {
      LowBytesNumber(v / 256, n - 1);
      assert LowBytes(v, n)[1..] == LowBytes(v / 256, n - 1);
    }
  }

  lemma SizeNumber(v: u64)
    ensures Number(LowBytes(v, 8)) == v
  {
    assert Pow256(4) == 0x1_0000_0000;
    assert Pow256(8) == 0x1_0000_0000_0000_0000;
    LowBytesNumber(v, 8);
  }

  // ----- the layout of what is hashed

  /** An entry contributes its offset, its size and its type as 64-bit numbers, low
      byte first, and then its key, or one zero if it has none. */
  lemma EntryLayout(e: Entry)
    ensures
      var s := EntryStream(e);
      && |s| == 24 + (if e.key.Named? then |e.key.chars| else 1)
      && Number(s[..8]) == e.offset && Number(s[8..16]) == e.size && Number(s[16..24]) == e.code
      && (e.key.Named? ==> s[24..] == e.key.chars) && (e.key.NoKey? ==> s[24..] == [0])
  {
    hide LowBytes, Number;
    var a, b, c, k := LowBytes(e.offset, 8), LowBytes(e.size, 8), LowBytes(e.code, 8), KeyBytes(e.key);
    Thirds(a, b, c, k);
    SizeNumber(e.offset);
    SizeNumber(e.size);
    SizeNumber(e.code);
  }

  lemma Thirds(a: bytes, b: bytes, c: bytes, k: bytes)
    requires |a| == |b| == |c| == 8
    ensures
      var s := a + b + c + k;
      s[..8] == a && s[8..16] == b && s[16..24] == c && s[24..] == k
  {
  }

  /** In front of the entries stand their number, the data size and the version. */
  lemma PreludeLayout(s: Schema)
    requires |s.entries| <= SIZE_MAX
    ensures
      var p := HashedStream(s);
      && |p| >= 24
      && Number(p[..8]) == |s.entries| && Number(p[8..16]) == s.dataSize && Number(p[16..24]) == s.version
      && p[24..] == EntriesStream(s.entries, |s.entries|)
  {
    hide LowBytes, Number, EntriesStream;
    var a, b, c := LowBytes(|s.entries|, 8), LowBytes(s.dataSize, 8), LowBytes(s.version, 8);
    Thirds(a, b, c, EntriesStream(s.entries, |s.entries|));
    SizeNumber(|s.entries|);
    SizeNumber(s.dataSize);
    SizeNumber(s.version);
  }

  /** The entries follow in order, nothing between them. */
  lemma EntriesLayout(entries: seq<Entry>, n: nat)
    requires n < |entries|
    ensures EntriesStream(entries, 0) == []
    ensures EntriesStream(entries, n + 1) == EntriesStream(entries, n) + EntryStream(entries[n])
  {
  }

  // ----- equal streams

  /** The same but for its default value. */
  ghost predicate SameEntry(e: Entry, f: Entry) {
    e.key == f.key && e.offset == f.offset && e.size == f.size && e.code == f.code
  }

  lemma EntryDetermined(e: Entry, f: Entry)
    requires e.key == f.key && EntryStream(e) == EntryStream(f)
    ensures SameEntry(e, f)
  {
    EntryLayout(e);
    EntryLayout(f);
  }

  lemma SameKeyLength(e: Entry, f: Entry)
    requires e.key == f.key
    ensures |EntryStream(e)| == |EntryStream(f)|
  {
    hide EntryStream, Number;
    EntryLayout(e);
    EntryLayout(f);
  }

  lemma CutEqual(a: bytes, b: bytes, x: bytes, y: bytes)
    requires |x| == |y| && a + x == b + y
    ensures a == b && x == y
  {
    assert (a + x)[..|a|] == a && (b + y)[..|b|] == b;
    assert (a + x)[|a|..] == x && (b + y)[|b|..] == y;
  }

  lemma {:induction false} EntriesDetermined(s: seq<Entry>, t: seq<Entry>, n: nat)
    requires n <= |s| && n <= |t|
    requires forall i :: 0 <= i < n ==> s[i].key == t[i].key
    requires EntriesStream(s, n) == EntriesStream(t, n)
    ensures forall i :: 0 <= i < n ==> SameEntry(s[i], t[i])
  {
    hide EntryStream, EntriesStream, SameEntry;
    if n == 0 {
    } else {
      EntriesLayout(s, n - 1);
      EntriesLayout(t, n - 1);
      SameKeyLength(s[n - 1], t[n - 1]);
      CutEqual(EntriesStream(s, n - 1), EntriesStream(t, n - 1), EntryStream(s[n - 1]), EntryStream(t[n - 1]));
      EntryDetermined(s[n - 1], t[n - 1]);
      EntriesDetermined(s, t, n - 1);
    }
  }

  /** For schemas with the same keys, all else that matters is in the stream: equal
      streams mean the same number of entries, data size and version, and the same
      offset, size and type in each entry. */
  lemma StreamDetermines(s: Schema, t: Schema)
    requires |s.entries| <= SIZE_MAX && |t.entries| <= SIZE_MAX
    requires forall i :: 0 <= i < |s.entries| && i < |t.entries| ==> s.entries[i].key == t.entries[i].key
    requires HashedStream(s) == HashedStream(t)
    ensures |s.entries| == |t.entries| && s.dataSize == t.dataSize && s.version == t.version
    ensures forall i :: 0 <= i < |s.entries| ==> SameEntry(s.entries[i], t.entries[i])
  {
    PreludeLayout(s);
    PreludeLayout(t);
    hide HashedStream, Number, EntriesStream;
    EntriesDetermined(s.entries, t.entries, |s.entries|);
  }

  // ----- single changes

  /** Two sizes that differ in exactly their k-th byte. */
  ghost predicate OneByteApart(a: u64, b: u64, k: nat) {
    && k < 8 && LowBytes(a, 8)[k] != LowBytes(b, 8)[k]
    && forall j :: 0 <= j < 8 && j != k ==> LowBytes(a, 8)[j] == LowBytes(b, 8)[j]
  }

  lemma Around(a: bytes, x: bytes, v: u8, y: bytes, b: bytes)
    ensures a + (x + [v] + y) + b == (a + x) + [v] + (y + b)
  {
  }

  lemma ApartSplit(a: u64, b: u64, k: nat)
    requires OneByteApart(a, b, k)
    ensures
      var x, y := LowBytes(a, 8), LowBytes(b, 8);
      x == x[..k] + [x[k]] + x[k + 1..] && y == x[..k] + [y[k]] + x[k + 1..]
  {
    hide LowBytes;
    var x, y := LowBytes(a, 8), LowBytes(b, 8);
    assert y[..k] == x[..k] && y[k + 1..] == x[k + 1..];
  }

  /** Moving one entry changes the fingerprint. */
  lemma MoveDetected(s: Schema, i: nat, offset: u64, k: nat)
    requires i < |s.entries| && OneByteApart(s.entries[i].offset, offset, k)
    ensures Fingerprint(ReplaceEntry(s, i, s.entries[i].(offset := offset))) != Fingerprint(s)
  {
    hide LowBytes, OneByteApart, Fingerprint, ReplaceEntry;
    var e := s.entries[i];
    var f := e.(offset := offset);
    ApartSplit(e.offset, offset, k);
    ApartAt(e.offset, offset, k);
    var x, y := LowBytes(e.offset, 8), LowBytes(offset, 8);
    var rest := LowBytes(e.size, 8) + LowBytes(e.code, 8) + KeyBytes(e.key);
    StreamFromOffset(e);
    StreamFromOffset(f);
    Around([], x[..k], x[k], x[k + 1..], rest);
    Around([], x[..k], y[k], x[k + 1..], rest);
    hide EntryStream;
    EntryChangeDetected(s, i, f, [] + x[..k], x[k], y[k], x[k + 1..] + rest);
  }

  lemma StreamFromOffset(e: Entry)
    ensures EntryStream(e) == [] + LowBytes(e.offset, 8) + (LowBytes(e.size, 8) + LowBytes(e.code, 8) + KeyBytes(e.key))
  {
    hide LowBytes;
  }

  lemma StreamFromSize(e: Entry)
    ensures EntryStream(e) == LowBytes(e.offset, 8) + LowBytes(e.size, 8) + (LowBytes(e.code, 8) + KeyBytes(e.key))
  {
    hide LowBytes;
  }

  lemma ApartAt(a: u64, b: u64, k: nat)
    requires OneByteApart(a, b, k)
    ensures k < 8 && LowBytes(a, 8)[k] != LowBytes(b, 8)[k]
  {
  }

  /** Resizing one entry changes the fingerprint. */
  lemma ResizeDetected(s: Schema, i: nat, size: u64, k: nat)
    requires i < |s.entries| && OneByteApart(s.entries[i].size, size, k)
    ensures Fingerprint(ReplaceEntry(s, i, s.entries[i].(size := size))) != Fingerprint(s)
  {
    hide LowBytes, OneByteApart, Fingerprint, ReplaceEntry;
    var e := s.entries[i];
    var f := e.(size := size);
    ApartSplit(e.size, size, k);
    ApartAt(e.size, size, k);
    var x, y := LowBytes(e.size, 8), LowBytes(size, 8);
    var first, rest := LowBytes(e.offset, 8), LowBytes(e.code, 8) + KeyBytes(e.key);
    StreamFromSize(e);
    StreamFromSize(f);
    Around(first, x[..k], x[k], x[k + 1..], rest);
    Around(first, x[..k], y[k], x[k + 1..], rest);
    hide EntryStream;
    EntryChangeDetected(s, i, f, first + x[..k], x[k], y[k], x[k + 1..] + rest);
  }

  /** So does another data size, and another version. */
  lemma DataSizeDetected(s: Schema, dataSize: u64, k: nat)
    requires OneByteApart(s.dataSize, dataSize, k)
    ensures Fingerprint(s.(dataSize := dataSize)) != Fingerprint(s)
  {
    hide LowBytes, OneByteApart, EntriesStream, Hash;
    ApartSplit(s.dataSize, dataSize, k);
    ApartAt(s.dataSize, dataSize, k);
    var x, y := LowBytes(s.dataSize, 8), LowBytes(dataSize, 8);
    var first, rest := LowBytes(|s.entries|, 8), LowBytes(s.version, 8) + EntriesStream(s.entries, |s.entries|);
    Around(first, x[..k], x[k], x[k + 1..], rest);
    Around(first, x[..k], y[k], x[k + 1..], rest);
    assert HashedStream(s) == first + x + rest;
    assert HashedStream(s.(dataSize := dataSize)) == first + y + rest;
    OneByteDetected(FNV_BASIS, first + x[..k], x[k], y[k], x[k + 1..] + rest);
  }

  lemma VersionDetected(s: Schema, version: u32, k: nat)
    requires OneByteApart(s.version, version, k)
    ensures Fingerprint(s.(version := version)) != Fingerprint(s)
  {
    hide LowBytes, OneByteApart, EntriesStream, Hash;
    ApartSplit(s.version, version, k);
    ApartAt(s.version, version, k);
    var x, y := LowBytes(s.version, 8), LowBytes(version, 8);
    var first, rest := LowBytes(|s.entries|, 8) + LowBytes(s.dataSize, 8), EntriesStream(s.entries, |s.entries|);
    Around(first, x[..k], x[k], x[k + 1..], rest);
    Around(first, x[..k], y[k], x[k + 1..], rest);
    assert HashedStream(s) == first + x + rest;
    assert HashedStream(s.(version := version)) == first + y + rest;
    OneByteDetected(FNV_BASIS, first + x[..k], x[k], y[k], x[k + 1..] + rest);
  }

  // ----- a known value

  /** The FNV-1a hash of the text "a". */
  lemma HashOfA()
    ensures Hash(FNV_BASIS, [0x61]) == 0xE40C292C
  {
    hide Value, Xor;
    ValueOfBytes(0x811C9DC5);
    ValueOfBytes(0x61);
    ValueOfBytes(0x811C9DA4);
    ValueXor(0x811C9DC5, 0x61);
    assert Xor(2166136261, 0x61) == 0x811C9DA4;
    assert [0x61][..0] == [];
    assert Hash(FNV_BASIS, [0x61]) == Mix(Hash(FNV_BASIS, []), 0x61);
  }
}
