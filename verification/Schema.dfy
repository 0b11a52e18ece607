// Schemas: the entry table, its validation under wrapping size_t sums, and its
// fingerprint.

module Schema {
  import opened Words

  datatype Status =
    | Ok
    | ErrNotFound
    | ErrType
    | ErrSize
    | ErrCrc
    | ErrMagic
    | ErrVersion
    | ErrIo
    | ErrInvalid
    | ErrUnsupported

  const MAX_ENTRIES: nat := 64
  const MAX_KEY_LEN: nat := 48

  const TYPE_BOOL: u8 := 1
  const TYPE_U8: u8 := 2
  const TYPE_I8: u8 := 3
  const TYPE_U16: u8 := 4
  const TYPE_I16: u8 := 5
  const TYPE_U32: u8 := 6
  const TYPE_I32: u8 := 7
  const TYPE_FLOAT32: u8 := 8
  const TYPE_STRING: u8 := 9
  const TYPE_BLOB: u8 := 10

  /** What the codec distinguishes about a type code. */
  datatype Kind = Bool | Word(width: nat) | Float32 | Text | Blob | Unknown

  function KindOf(code: u8): Kind {
    if code == TYPE_BOOL then Bool
    else if code == TYPE_U8 || code == TYPE_I8 then Word(1)
    else if code == TYPE_U16 || code == TYPE_I16 then Word(2)
    else if code == TYPE_U32 || code == TYPE_I32 then Word(4)
    else if code == TYPE_FLOAT32 then Float32
    else if code == TYPE_STRING then Text
    else if code == TYPE_BLOB then Blob
    else Unknown
  }

  /** The size a type imposes on its field, or 0 if it imposes none. */
  function ExpectedSize(k: Kind): nat {
    match k
    case Bool => 1
    case Word(w) => w
    case Float32 => 4
    case _ => 0
  }

  /** What the build and the machine decide. */
  datatype Platform = Platform(littleEndian: bool, floatEnabled: bool, floatIeee: bool) {
    predicate FloatSupported() {
      floatEnabled && floatIeee && littleEndian
    }
  }

  /** A default value: a null pointer with a size, or bytes. */
  datatype Preset = Absent(size: u64) | Given(value: bytes)

  /** A character of a key: keys end at the first NUL. */
  type Letter = x: u8 | x != 0 witness 1

  datatype Key = NoKey | Named(chars: seq<Letter>)

  datatype Entry = Entry(key: Key, offset: u64, size: u64, code: u8, preset: Preset) {
    function Kind(): Kind {
      KindOf(code)
    }
  }

  datatype Schema = Schema(entries: seq<Entry>, version: u32, dataSize: u64)

  // ----- what validation is meant to establish

  ghost predicate PresetFits(e: Entry) {
    match e.preset
    case Absent(size) => size == 0
    case Given(value) =>
      match e.Kind()
      case Text => |value| < e.size && 2 <= e.size
      case Unknown => false
      case _ => |value| == e.size
  }

  ghost predicate EntryFits(p: Platform, e: Entry, dataSize: nat) {
    && (e.key.Named? ==> |e.key.chars| <= MAX_KEY_LEN)
    && 0 < e.size
    && e.offset + e.size <= dataSize
    && (ExpectedSize(e.Kind()) != 0 ==> e.size == ExpectedSize(e.Kind()))
    && (e.Kind() == Text ==> 2 <= e.size)
    && (e.Kind() == Float32 ==> p.floatEnabled)
    && PresetFits(e)
  }

  ghost predicate Disjoint(e: Entry, f: Entry) {
    e.offset + e.size <= f.offset || f.offset + f.size <= e.offset
  }

  ghost predicate SameKey(e: Entry, f: Entry) {
    e.key.Named? && e.key == f.key
  }

  ghost predicate FitsAt(p: Platform, s: Schema, i: nat)
    requires i < |s.entries|
  {
    EntryFits(p, s.entries[i], s.dataSize)
  }

  /** Two entries share neither a byte nor a key. */
  ghost predicate Apart(s: Schema, i: nat, j: nat)
    requires i < |s.entries| && j < |s.entries|
  {
    Disjoint(s.entries[i], s.entries[j]) && !SameKey(s.entries[i], s.entries[j])
  }

  ghost predicate WellFormed(p: Platform, s: Schema) {
    && 0 < |s.entries| <= MAX_ENTRIES
    && 0 < s.dataSize
    && (forall i :: 0 <= i < |s.entries| ==> FitsAt(p, s, i))
    && (forall i, j :: 0 <= i < j < |s.entries| ==> Apart(s, i, j))
  }

  // ----- the checks as they are made

  /** The pairwise check: the other entry is not validated yet, so its end may wrap. */
  ghost predicate Clashes(e: Entry, other: Entry) {
    || (e.offset < Add64(other.offset, other.size) && other.offset < e.offset + e.size)
    || SameKey(e, other)
  }

  ghost predicate EntryPasses(p: Platform, s: Schema, index: nat)
    requires index < |s.entries|
  {
    && EntryFits(p, s.entries[index], s.dataSize)
    && forall j :: index < j < |s.entries| ==> !Clashes(s.entries[index], s.entries[j])
  }

  method ValidateDefault(e: Entry) returns (r: Status)
    ensures r == if PresetFits(e) then Ok else ErrInvalid
  {
    if e.preset.Absent? {
      return if e.preset.size == 0 then Ok else ErrInvalid;
    }
    var size := |e.preset.value|;
    if e.Kind() == Text {
      if size >= e.size || e.size < 2 {
        return ErrInvalid;
      }
      return Ok;
    }
    if e.Kind() == Blob {
      return if size == e.size then Ok else ErrInvalid;
    }
    if e.Kind() != Unknown {
      return if size == e.size then Ok else ErrInvalid;
    }
    return ErrInvalid;
  }

  method ValidateEntryLayout(p: Platform, s: Schema, index: nat) returns (r: Status)
    requires index < |s.entries|
    ensures r == if EntryPasses(p, s, index) then Ok else ErrInvalid
  {
    var e := s.entries[index];
    if e.key.Named? && |e.key.chars| > MAX_KEY_LEN {
      return ErrInvalid;
    }
    if e.size == 0 || e.offset > s.dataSize {
      return ErrInvalid;
    }
    if Add64(e.offset, e.size) < e.offset {
      return ErrInvalid;
    }
    var end := Add64(e.offset, e.size);
    if end > s.dataSize {
      return ErrInvalid;
    }
    var expected := ExpectedSize(e.Kind());
    if expected != 0 && e.size != expected {
      return ErrInvalid;
    }
    if e.Kind() == Text && e.size < 2 {
      return ErrInvalid;
    }
    if e.Kind() == Float32 && !p.floatEnabled {
      return ErrInvalid;
    }
    var preset := ValidateDefault(e);
    if preset != Ok {
      return ErrInvalid;
    }
    for other := index + 1 to |s.entries|
      invariant forall j :: index < j < other ==> !Clashes(e, s.entries[j])
    {
      var f := s.entries[other];
      var otherEnd := Add64(f.offset, f.size);
      if e.offset < otherEnd && f.offset < end {
        assert Clashes(e, s.entries[other]);
        return ErrInvalid;
      }
      if e.key.Named? && f.key.Named? && e.key.chars == f.key.chars {
        assert Clashes(e, s.entries[other]);
        return ErrInvalid;
      }
    }
    return Ok;
  }

  /** Wrapping ends never hide a clash and never invent one that matters: the
      checks made accept exactly the well-formed schemas. */
  lemma ChecksAreExact(p: Platform, s: Schema)
    requires 0 < |s.entries| <= MAX_ENTRIES && 0 < s.dataSize
    ensures (forall i :: 0 <= i < |s.entries| ==> EntryPasses(p, s, i)) <==> WellFormed(p, s)
  {
    if WellFormed(p, s) {
      forall i | 0 <= i < |s.entries|
        ensures EntryPasses(p, s, i)
      {
        assert FitsAt(p, s, i);
        forall j | i < j < |s.entries|
          ensures !Clashes(s.entries[i], s.entries[j])
        {
          assert FitsAt(p, s, j) && Apart(s, i, j);
        }
      }
    }
    if forall i :: 0 <= i < |s.entries| ==> EntryPasses(p, s, i) {
      forall i, j | 0 <= i < j < |s.entries|
        ensures Apart(s, i, j)
      {
        assert EntryPasses(p, s, i) && EntryPasses(p, s, j);
        assert !Clashes(s.entries[i], s.entries[j]);
      }
      forall i | 0 <= i < |s.entries|
        ensures FitsAt(p, s, i)
      {
        assert EntryPasses(p, s, i);
      }
    }
  }

  // ----- the fingerprint

  const FNV_PRIME: u32 := 16777619
  const FNV_BASIS: u32 := 2166136261

  function Mix(hash: u32, b: u8): u32 {
    Xor32(hash, b) * FNV_PRIME % 0x1_0000_0000
  }

  function Hash(hash: u32, s: bytes): u32 {
    if s == [] then hash else Mix(Hash(hash, s[..|s| - 1]), s[|s| - 1])
  }

  function KeyBytes(k: Key): bytes {
    match k
    case NoKey =>
      var nul: u8 := 0;
      [nul]
    case Named(chars) => chars
  }

  /** The bytes one entry contributes: its default value is not among them. */
  function EntryStream(e: Entry): bytes {
    LowBytes(e.offset, 8) + LowBytes(e.size, 8) + LowBytes(e.code, 8) + KeyBytes(e.key)
  }

  function EntriesStream(entries: seq<Entry>, n: nat): bytes
    requires n <= |entries|
  {
    if n == 0 then [] else EntriesStream(entries, n - 1) + EntryStream(entries[n - 1])
  }

  function PreludeStream(s: Schema): bytes {
    LowBytes(|s.entries|, 8) + LowBytes(s.dataSize, 8) + LowBytes(s.version, 8)
  }

  /** Everything the fingerprint depends on. */
  function HashedStream(s: Schema): bytes {
    PreludeStream(s) + EntriesStream(s.entries, |s.entries|)
  }

  function Fingerprint(s: Schema): u32 {
    Hash(FNV_BASIS, HashedStream(s))
  }

  lemma {:induction false} HashAppend(h: u32, s: bytes, t: bytes)
    ensures Hash(h, s + t) == Hash(Hash(h, s), t)
    decreases |t|
  {
    if t == [] {
      assert s + t == s;
    } else {
      HashAppend(h, s, t[..|t| - 1]);
      assert (s + t)[..|s + t| - 1] == s + t[..|t| - 1];
    }
  }

  lemma NothingHashed(h: u32)
    ensures Hash(h, []) == h
  {
  }

  method HashBytes(hash: u32, s: bytes) returns (r: u32)
    ensures r == Hash(hash, s)
  {
    r := hash;
    for index := 0 to |s|
      invariant r == Hash(hash, s[..index])
    {
      assert s[..index + 1][..index] == s[..index];
      r := Mix(r, s[index]);
    }
    assert s[..|s|] == s;
  }

  /** Cuts the n low-order bytes off value, least significant first. */
  method CutLowBytes(value: nat, n: nat) returns (low: bytes)
    ensures low == LowBytes(value, n)
  {
    low := [];
    var rest := value;
    for index := 0 to n
      invariant |low| == index
      invariant low + LowBytes(rest, n - index) == LowBytes(value, n)
    {
      low := low + [rest % 256];
      rest := rest / 256;
    }
  }

  /** Hashes the eight bytes of a size_t. */
  method HashSize(hash: u32, value: u64) returns (r: u32)
    ensures r == Hash(hash, LowBytes(value, 8))
  {
    var low := CutLowBytes(value, 8);
    r := HashBytes(hash, low);
  }

  method HashEntry(hash: u32, e: Entry) returns (r: u32)
    ensures r == Hash(hash, EntryStream(e))
  {
    var a, b, c := LowBytes(e.offset, 8), LowBytes(e.size, 8), LowBytes(e.code, 8);
    r := HashSize(hash, e.offset);
    r := HashSize(r, e.size);
    HashAppend(hash, a, b);
    r := HashSize(r, e.code);
    HashAppend(hash, a + b, c);
    HashAppend(hash, a + b + c, KeyBytes(e.key));
    if e.key.Named? {
      r := HashBytes(r, e.key.chars);
    } else {
      var before := r;
      r := Mix(r, 0);
      assert Hash(before, [0]) == Mix(Hash(before, [0][..0]), 0);
    }
  }

  method ValidateEntries(p: Platform, s: Schema, hash: u32) returns (r: Status, mixed: u32)
    ensures r == if forall i :: 0 <= i < |s.entries| ==> EntryPasses(p, s, i) then Ok else ErrInvalid
    ensures r == Ok ==> mixed == Hash(hash, EntriesStream(s.entries, |s.entries|))
  {
    hide EntryPasses, EntryStream, Hash;
    mixed := hash;
    NothingHashed(hash);
    for index := 0 to |s.entries|
      invariant forall i :: 0 <= i < index ==> EntryPasses(p, s, i)
      invariant mixed == Hash(hash, EntriesStream(s.entries, index))
    {
      var layout := ValidateEntryLayout(p, s, index);
      if layout != Ok {
        return layout, mixed;
      }
      mixed := HashEntry(mixed, s.entries[index]);
      HashAppend(hash, EntriesStream(s.entries, index), EntryStream(s.entries[index]));
    }
    r := Ok;
  }

  method SchemaValidate(p: Platform, s: Schema) returns (r: Status, fingerprint: u32)
    requires |s.entries| <= SIZE_MAX
    ensures r == if WellFormed(p, s) then Ok else ErrInvalid
    ensures r == Ok ==> fingerprint == Fingerprint(s)
  {
    fingerprint := 0;
    if |s.entries| == 0 || |s.entries| > MAX_ENTRIES || s.dataSize == 0 {
      return ErrInvalid, fingerprint;
    }
    ChecksAreExact(p, s);
    var prelude := HashPrelude(s);
    r, fingerprint := ValidateEntries(p, s, prelude);
    HashAppend(FNV_BASIS, PreludeStream(s), EntriesStream(s.entries, |s.entries|));
  }

  method HashPrelude(s: Schema) returns (hash: u32)
    requires |s.entries| <= SIZE_MAX
    ensures hash == Hash(FNV_BASIS, PreludeStream(s))
  {
    var a, b, c := LowBytes(|s.entries|, 8), LowBytes(s.dataSize, 8), LowBytes(s.version, 8);
    hash := HashSize(FNV_BASIS, |s.entries|);
    hash := HashSize(hash, s.dataSize);
    HashAppend(FNV_BASIS, a, b);
    hash := HashSize(hash, s.version);
    HashAppend(FNV_BASIS, a + b, c);
  }

  // ----- what the fingerprint tells apart

  /** Multiplication by the prime is undone by its inverse, 899433627. */
  lemma PrimeInvertible(x: u32, y: u32)
    requires x * FNV_PRIME % 0x1_0000_0000 == y * FNV_PRIME % 0x1_0000_0000
    ensures x == y
  {
    var z := x - y;
    var t := x * FNV_PRIME / 0x1_0000_0000 - y * FNV_PRIME / 0x1_0000_0000;
    assert z * FNV_PRIME == 0x1_0000_0000 * t;
    assert 16777619 * 899433627 == 1 + 0x1_0000_0000 * 3513497;
    assert z == 0x1_0000_0000 * (t * 899433627 - z * 3513497);
  }

  lemma MixInjective(g: u32, h: u32, a: u8, b: u8)
    ensures Mix(g, a) == Mix(h, a) ==> g == h
    ensures Mix(g, a) == Mix(g, b) ==> a == b
  {
    if Mix(g, a) == Mix(h, a) {
      PrimeInvertible(Xor32(g, a), Xor32(h, a));
      XorCancels(g, h, a);
    }
    if Mix(g, a) == Mix(g, b) {
      PrimeInvertible(Xor32(g, a), Xor32(g, b));
      XorCommutes(g, a);
      XorCommutes(g, b);
      XorCancels(a, b, g);
    }
  }

  lemma {:induction false} HashInjective(g: u32, h: u32, s: bytes)
    requires Hash(g, s) == Hash(h, s)
    ensures g == h
  {
    if s == [] {
    } else {
      var front := s[..|s| - 1];
      MixInjective(Hash(g, front), Hash(h, front), s[|s| - 1], 0);
      HashInjective(g, h, front);
    }
  }

  /** One changed byte always changes the hash. */
  lemma OneByteDetected(h: u32, front: bytes, a: u8, b: u8, back: bytes)
    requires a != b
    ensures Hash(h, front + [a] + back) != Hash(h, front + [b] + back)
  {
    var g := Hash(h, front);
    HashAppend(h, front + [a], back);
    HashAppend(h, front + [b], back);
    assert (front + [a])[..|front|] == front && (front + [b])[..|front|] == front;
    MixInjective(g, g, a, b);
    if Hash(h, front + [a] + back) == Hash(h, front + [b] + back) {
      HashInjective(Hash(h, front + [a]), Hash(h, front + [b]), back);
    }
  }

  /** Schemas whose hashed streams differ in exactly one byte have different fingerprints. */
  lemma FingerprintSensitive(s: Schema, t: Schema, i: nat)
    requires i < |HashedStream(s)| == |HashedStream(t)|
    requires HashedStream(s)[i] != HashedStream(t)[i]
    requires forall k :: 0 <= k < |HashedStream(s)| && k != i ==> HashedStream(s)[k] == HashedStream(t)[k]
    ensures Fingerprint(s) != Fingerprint(t)
  {
    var x, y := HashedStream(s), HashedStream(t);
    assert x == x[..i] + [x[i]] + x[i + 1..];
    assert y == x[..i] + [y[i]] + x[i + 1..];
    OneByteDetected(FNV_BASIS, x[..i], x[i], y[i], x[i + 1..]);
  }

  // ----- consequences for single entries

  function ReplaceEntry(s: Schema, i: nat, e: Entry): Schema
    requires i < |s.entries|
  {
    s.(entries := s.entries[i := e])
  }

  lemma {:induction false} StreamAround(s: Schema, i: nat, e: Entry, n: nat) returns (back: bytes)
    requires i < n <= |s.entries|
    ensures EntriesStream(s.entries, n) == EntriesStream(s.entries, i) + EntryStream(s.entries[i]) + back
    ensures EntriesStream(ReplaceEntry(s, i, e).entries, n) == EntriesStream(s.entries, i) + EntryStream(e) + back
    decreases n
  {
    hide EntryStream;
    var t := ReplaceEntry(s, i, e);
    if n == i + 1 {
      StreamBefore(s, i, e, i);
      back := [];
      assert EntriesStream(s.entries, i) + EntryStream(s.entries[i]) + [] == EntriesStream(s.entries, i) + EntryStream(s.entries[i]);
      assert EntriesStream(s.entries, i) + EntryStream(e) + [] == EntriesStream(s.entries, i) + EntryStream(e);
    } else {
      var less := StreamAround(s, i, e, n - 1);
      var last := EntryStream(s.entries[n - 1]);
      assert t.entries[n - 1] == s.entries[n - 1];
      back := less + last;
      assert EntriesStream(s.entries, i) + EntryStream(s.entries[i]) + less + last
          == EntriesStream(s.entries, i) + EntryStream(s.entries[i]) + back;
      assert EntriesStream(s.entries, i) + EntryStream(e) + less + last
          == EntriesStream(s.entries, i) + EntryStream(e) + back;
    }
  }

  lemma {:induction false} StreamBefore(s: Schema, i: nat, e: Entry, n: nat)
    requires n <= i < |s.entries|
    ensures EntriesStream(ReplaceEntry(s, i, e).entries, n) == EntriesStream(s.entries, n)
  {
    if n == 0 {
    } else {
      StreamBefore(s, i, e, n - 1);
    }
  }

  /** Replacing an entry by one whose stream differs in exactly one byte changes
      the fingerprint, wherever the entry stands and whatever surrounds it. */
  lemma EntryChangeDetected(s: Schema, i: nat, e: Entry, front: bytes, a: u8, b: u8, back: bytes)
    requires i < |s.entries| && a != b
    requires EntryStream(s.entries[i]) == front + [a] + back
    requires EntryStream(e) == front + [b] + back
    ensures Fingerprint(ReplaceEntry(s, i, e)) != Fingerprint(s)
  {
    var t := ReplaceEntry(s, i, e);
    var rest := StreamAround(s, i, e, |s.entries|);
    hide LowBytes, EntryStream, EntriesStream, PreludeStream;
    SamePrelude(s, i, e);
    var before, after := PreludeStream(s) + EntriesStream(s.entries, i) + front, back + rest;
    Regroup(PreludeStream(s), EntriesStream(s.entries, i), front, a, back, rest);
    Regroup(PreludeStream(s), EntriesStream(s.entries, i), front, b, back, rest);
    OneByteDetected(FNV_BASIS, before, a, b, after);
  }

  lemma SamePrelude(s: Schema, i: nat, e: Entry)
    requires i < |s.entries|
    ensures PreludeStream(ReplaceEntry(s, i, e)) == PreludeStream(s)
  {
  }

  /** Giving one entry another type always changes the fingerprint. */
  lemma TypeChangeDetected(s: Schema, i: nat, code: u8)
    requires i < |s.entries| && code != s.entries[i].code
    ensures Fingerprint(ReplaceEntry(s, i, s.entries[i].(code := code))) != Fingerprint(s)
  {
    var e := s.entries[i];
    var f := e.(code := code);
    var front, back := LowBytes(e.offset, 8) + LowBytes(e.size, 8), LowBytes(0, 7) + KeyBytes(e.key);
    OneByteNumber(e.code);
    OneByteNumber(code);
    hide LowBytes;
    assert EntryStream(e) == front + [e.code] + back;
    assert EntryStream(f) == front + [code] + back;
    EntryChangeDetected(s, i, f, front, e.code, code, back);
  }

  lemma OneByteNumber(b: u8)
    ensures LowBytes(b, 8) == [b] + LowBytes(0, 7)
  {
    LowestByte(b, 8);
    hide LowBytes;
  }

  lemma LowestByte(b: u8, n: nat)
    requires n > 0
    ensures LowBytes(b, n) == [b] + LowBytes(0, n - 1)
  {
  }

  lemma Regroup(p: bytes, x: bytes, front: bytes, a: u8, back: bytes, rest: bytes)
    ensures p + (x + (front + [a] + back) + rest) == (p + x + front) + [a] + (back + rest)
  {
  }

  /** Renaming one entry in one character always changes the fingerprint. */
  lemma RenameDetected(s: Schema, i: nat, k: nat, ch: Letter)
    requires i < |s.entries| && s.entries[i].key.Named? && k < |s.entries[i].key.chars|
    requires ch != s.entries[i].key.chars[k]
    ensures Fingerprint(ReplaceEntry(s, i, s.entries[i].(key := Named(s.entries[i].key.chars[k := ch])))) != Fingerprint(s)
  {
    var e := s.entries[i];
    var chars := e.key.chars;
    var f := e.(key := Named(chars[k := ch]));
    hide LowBytes;
    var fixed := LowBytes(e.offset, 8) + LowBytes(e.size, 8) + LowBytes(e.code, 8);
    assert EntryStream(e) == (fixed + chars[..k]) + [chars[k]] + chars[k + 1..];
    assert EntryStream(f) == (fixed + chars[..k]) + [ch] + chars[k + 1..];
    EntryChangeDetected(s, i, f, fixed + chars[..k], chars[k], ch, chars[k + 1..]);
  }

  /** Default values are not part of what is fingerprinted. */
  lemma DefaultsNotFingerprinted(s: Schema, i: nat, preset: Preset)
    requires i < |s.entries|
    ensures Fingerprint(ReplaceEntry(s, i, s.entries[i].(preset := preset))) == Fingerprint(s)
  {
    var f := s.entries[i].(preset := preset);
    var rest := StreamAround(s, i, f, |s.entries|);
    hide LowBytes, EntriesStream, PreludeStream;
    SamePrelude(s, i, f);
  }
}
