// The canonical payload: what the writer emits for an image, what the reader
// makes of arbitrary bytes, and how the two fit together.

module Payload {
  import opened Words
  import opened Schema
  import opened Image

  // ----- writing

  /** Scalars travel least significant byte first, whatever the machine's order. */
  function Wire(p: Platform, f: bytes): (r: bytes)
    ensures |r| == |f|
  {
    if p.littleEndian then f else seq(|f|, i requires 0 <= i < |f| => f[|f| - 1 - i])
  }

  lemma WireInvolutive(p: Platform, f: bytes)
    ensures Wire(p, Wire(p, f)) == f
  {
  }

  /** The bytes of one field. A text's length is cut to 16 bits. */
  function EncodeField(p: Platform, e: Entry, f: bytes): bytes
    requires |f| == e.size
  {
    match e.Kind()
    case Text => U16Bytes(TextLen(f) % 0x1_0000) + f[..TextLen(f)]
    case Blob => f
    case Unknown => []
    case _ => Wire(p, f)
  }

  function EncodeUpTo(c: Setup, img: bytes, n: nat): bytes
    requires c.Valid() && c.Holds(img) && n <= c.Count()
  {
    if n == 0 then []
    else EncodeUpTo(c, img, n - 1) + EncodeField(c.platform, c.At(n - 1), Field(img, c.At(n - 1)))
  }

  function Encode(c: Setup, img: bytes): bytes
    requires c.Valid() && c.Holds(img)
  {
    EncodeUpTo(c, img, c.Count())
  }

  function FieldCode(c: Setup, img: bytes, index: nat): bytes
    requires c.Valid() && c.Holds(img) && index < c.Count()
  {
    EncodeField(c.platform, c.At(index), Field(img, c.At(index)))
  }

  lemma EncodeOneMore(c: Setup, img: bytes, n: nat)
    requires c.Valid() && c.Holds(img) && n < c.Count()
    ensures EncodeUpTo(c, img, n + 1) == EncodeUpTo(c, img, n) + FieldCode(c, img, n)
  {
  }

  /** What follows the first n fields in the encoding. */
  lemma {:induction false} EncodeRest(c: Setup, img: bytes, n: nat) returns (rest: bytes)
    requires c.Valid() && c.Holds(img) && n <= c.Count()
    ensures Encode(c, img) == EncodeUpTo(c, img, n) + rest
    decreases c.Count() - n
  {
    if n == c.Count() {
      rest := [];
    } else {
      var tail := EncodeRest(c, img, n + 1);
      rest := FieldCode(c, img, n) + tail;
    }
  }

  ghost predicate AllKnown(c: Setup)
    requires c.Valid()
  {
    forall i :: 0 <= i < c.Count() ==> c.At(i).Kind() != Unknown
  }

  /** What measuring reports: the data's first complaint, then unknown types. */
  ghost function LayoutStatus(c: Setup, img: bytes): Status
    requires c.Valid() && c.Holds(img)
  {
    if DataStatus(c, img) != Ok then DataStatus(c, img)
    else if !AllKnown(c) then ErrType
    else Ok
  }

  ghost predicate ShortText(e: Entry, f: bytes) {
    e.Kind() == Text ==> TextLen(f) <= 0xFFFF
  }

  ghost predicate ShortTextsUpTo(c: Setup, img: bytes, n: nat)
    requires c.Valid() && c.Holds(img) && n <= c.Count()
  {
    forall i :: 0 <= i < n ==> ShortText(c.At(i), Field(img, c.At(i)))
  }

  ghost predicate ShortTexts(c: Setup, img: bytes)
    requires c.Valid() && c.Holds(img)
  {
    ShortTextsUpTo(c, img, c.Count())
  }

  // ----- reading

  datatype Parse = Parse(status: Status, image: bytes, pos: nat)

  function ReadText(e: Entry, mem: bytes, img: bytes, pos: nat): (r: Parse)
    requires e.offset + e.size <= |img|
    ensures |r.image| == |img|
    ensures r.status == Ok ==> pos <= r.pos <= |mem|
  {
    if pos + 2 > |mem| then Parse(ErrIo, img, pos)
    else
      var len := U16At(mem, pos) as int;
      var from := pos + 2;
      if len + 1 > e.size then Parse(ErrInvalid, img, pos)
      else if from + len > |mem| then Parse(ErrIo, Splice(img, e.offset, Fill(e.size, 0)), pos)
      else Parse(Ok, Splice(img, e.offset, mem[from..from + len] + Fill(e.size - len, 0)), from + len)
  }

  function ReadBlob(e: Entry, mem: bytes, img: bytes, pos: nat): (r: Parse)
    requires e.offset + e.size <= |img|
    ensures |r.image| == |img|
    ensures r.status == Ok ==> pos <= r.pos <= |mem|
  {
    if pos + e.size > |mem| then Parse(ErrIo, img, pos)
    else Parse(Ok, Splice(img, e.offset, mem[pos..pos + e.size]), pos + e.size)
  }

  function ReadScalar(p: Platform, e: Entry, mem: bytes, img: bytes, pos: nat): (r: Parse)
    requires e.offset + e.size <= |img|
    requires ExpectedSize(e.Kind()) != 0 ==> e.size == ExpectedSize(e.Kind())
    ensures |r.image| == |img|
    ensures r.status == Ok ==> pos <= r.pos <= |mem|
  {
    var width := ExpectedSize(e.Kind());
    if pos + width > |mem| then Parse(ErrIo, img, pos)
    else if width == 0 then Parse(ErrType, img, pos)
    else if e.Kind() == Float32 && !p.FloatSupported() then Parse(ErrUnsupported, img, pos)
    else Parse(Ok, Splice(img, e.offset, Wire(p, mem[pos..pos + width])), pos + width)
  }

  function ReadEntry(c: Setup, i: nat, mem: bytes, img: bytes, pos: nat): (r: Parse)
    requires c.Valid() && i < c.Count() && c.Holds(img)
    ensures c.Holds(r.image)
    ensures r.status == Ok ==> pos <= r.pos <= |mem|
  {
    var e := c.At(i);
    match e.Kind()
    case Text => ReadText(e, mem, img, pos)
    case Blob => ReadBlob(e, mem, img, pos)
    case _ => ReadScalar(c.platform, e, mem, img, pos)
  }

  /** The reader's state after n entries, or its state when it gave up. */
  function ReadUpTo(c: Setup, mem: bytes, start: nat, n: nat): (r: Parse)
    requires c.Valid() && n <= c.Count() && start <= |mem|
    ensures c.Holds(r.image)
    ensures r.status == Ok ==> start <= r.pos <= |mem|
  {
    if n == 0 then Parse(Ok, Fill(c.schema.dataSize, 0), start)
    else
      var q := ReadUpTo(c, mem, start, n - 1);
      if q.status != Ok then q else ReadEntry(c, n - 1, mem, q.image, q.pos)
  }

  function Read(c: Setup, mem: bytes, start: nat): Parse
    requires c.Valid() && start <= |mem|
  {
    ReadUpTo(c, mem, start, c.Count())
  }

  lemma {:induction false} FailureSticks(c: Setup, mem: bytes, start: nat, m: nat, n: nat)
    requires c.Valid() && m <= n <= c.Count() && start <= |mem|
    requires ReadUpTo(c, mem, start, m).status != Ok
    ensures ReadUpTo(c, mem, start, n) == ReadUpTo(c, mem, start, m)
    decreases n
  {
    hide ReadEntry, WellFormed;
    if m == n {
    } else {
      FailureSticks(c, mem, start, m, n - 1);
    }
  }

  lemma {:induction false} EarlierOk(c: Setup, mem: bytes, start: nat, m: nat, n: nat)
    requires c.Valid() && m <= n <= c.Count() && start <= |mem|
    requires ReadUpTo(c, mem, start, n).status == Ok
    ensures ReadUpTo(c, mem, start, m).status == Ok
    ensures ReadUpTo(c, mem, start, m).pos <= ReadUpTo(c, mem, start, n).pos
    decreases n
  {
    hide ReadEntry, WellFormed;
    if m == n {
    } else {
      EarlierOk(c, mem, start, m, n - 1);
    }
  }

  // ----- reading depends on the consumed bytes only

  lemma TextRelocates(e: Entry, mem: bytes, pos: nat, mem': bytes, pos': nat, img: bytes)
    requires e.offset + e.size <= |img|
    requires ReadText(e, mem, img, pos).status == Ok
    requires Lies(mem', pos', mem[pos..ReadText(e, mem, img, pos).pos])
    ensures var r := ReadText(e, mem, img, pos);
            ReadText(e, mem', img, pos') == Parse(Ok, r.image, pos' + (r.pos - pos))
  {
    hide Splice;
    var len := U16At(mem, pos);
    var s := mem[pos..pos + 2 + len];
    assert s == s[..2] + s[2..];
    LiesApart(mem', pos', s[..2], s[2..]);
    assert mem[pos..pos + 2] == s[..2] == mem'[pos'..pos' + 2];
    assert mem[pos + 2..pos + 2 + len] == s[2..] == mem'[pos' + 2..pos' + 2 + len];
  }

  lemma EntryRelocates(c: Setup, i: nat, mem: bytes, pos: nat, mem': bytes, pos': nat, img: bytes)
    requires c.Valid() && i < c.Count() && c.Holds(img)
    requires ReadEntry(c, i, mem, img, pos).status == Ok
    requires Lies(mem', pos', mem[pos..ReadEntry(c, i, mem, img, pos).pos])
    ensures var r := ReadEntry(c, i, mem, img, pos);
            ReadEntry(c, i, mem', img, pos') == Parse(Ok, r.image, pos' + (r.pos - pos))
  {
    hide Splice, ReadText, WellFormed, Wire;
    if c.At(i).Kind() == Text {
      TextRelocates(c.At(i), mem, pos, mem', pos', img);
    }
  }

  /** The same payload read elsewhere gives the same image. */
  lemma {:induction false} ReadRelocates(c: Setup, mem: bytes, start: nat, mem': bytes, start': nat, n: nat)
    requires c.Valid() && n <= c.Count() && start <= |mem| && start' <= |mem'|
    requires ReadUpTo(c, mem, start, n).status == Ok
    requires Lies(mem', start', mem[start..ReadUpTo(c, mem, start, n).pos])
    ensures var r := ReadUpTo(c, mem, start, n);
            ReadUpTo(c, mem', start', n) == Parse(Ok, r.image, start' + (r.pos - start))
  {
    hide ReadEntry, WellFormed;
    if n == 0 {
    } else {
      var q, r := ReadUpTo(c, mem, start, n - 1), ReadUpTo(c, mem, start, n);
      var a, b := mem[start..q.pos], mem[q.pos..r.pos];
      assert mem[start..r.pos] == a + b;
      LiesApart(mem', start', a, b);
      ReadRelocates(c, mem, start, mem', start', n - 1);
      EntryRelocates(c, n - 1, mem, q.pos, mem', start' + |a|, q.image);
    }
  }

  // ----- reading what was written

  lemma ReadsBackField(c: Setup, i: nat, img: bytes, f: bytes, mem: bytes, pos: nat)
    requires c.Valid() && i < c.Count() && c.Holds(img)
    requires |f| == c.At(i).size
    requires FieldStatus(c.platform, c.At(i), f) == Ok && c.At(i).Kind() != Unknown
    requires ShortText(c.At(i), f)
    requires Lies(mem, pos, EncodeField(c.platform, c.At(i), f))
    ensures ReadEntry(c, i, mem, img, pos)
         == Parse(Ok, Splice(img, c.At(i).offset, CanonField(c.At(i), f)),
                  pos + |EncodeField(c.platform, c.At(i), f)|)
  {
    hide WellFormed, ReadText, ReadBlob, ReadScalar, ReadEntry, Splice, Wire, KindOf, TextLen, U16Bytes, U16At, Lies, Fill, CanonField, EncodeField, FieldStatus;
    var e := c.At(i);
    Dispatch(c, i, f, mem, img, pos);
    if e.Kind() == Text {
      ReadsBackText(e, img, f, mem, pos);
      U16Length(TextLen(f));
    } else if e.Kind() == Blob {
      ReadsBackBlob(e, img, f, mem, pos);
    } else {
      ReadsBackScalar(c.platform, e, img, f, mem, pos);
    }
  }

  /** Which reader and which writer serve a valid field of a known type. */
  lemma Dispatch(c: Setup, i: nat, f: bytes, mem: bytes, img: bytes, pos: nat)
    requires c.Valid() && i < c.Count() && c.Holds(img)
    requires |f| == c.At(i).size
    requires FieldStatus(c.platform, c.At(i), f) == Ok && c.At(i).Kind() != Unknown
    ensures
      var e, p := c.At(i), c.platform;
      if e.Kind() == Text then
        && ReadEntry(c, i, mem, img, pos) == ReadText(e, mem, img, pos)
        && TextLen(f) < |f|
        && EncodeField(p, e, f) == U16Bytes(TextLen(f) % 0x1_0000) + f[..TextLen(f)]
      else if e.Kind() == Blob then
        && ReadEntry(c, i, mem, img, pos) == ReadBlob(e, mem, img, pos)
        && EncodeField(p, e, f) == CanonField(e, f) == f
      else
        && ReadEntry(c, i, mem, img, pos) == ReadScalar(p, e, mem, img, pos)
        && EncodeField(p, e, f) == Wire(p, f)
        && CanonField(e, f) == f
        && |f| == ExpectedSize(e.Kind()) > 0
        && (e.Kind() == Float32 ==> p.FloatSupported())
  {
    hide ReadText, ReadBlob, ReadScalar, Wire, KindOf, TextLen, U16Bytes, Fill, WellFormed;
    KnownWidth(c.At(i));
  }

  lemma KnownWidth(e: Entry)
    ensures !e.Kind().Text? && !e.Kind().Blob? && !e.Kind().Unknown? ==> ExpectedSize(e.Kind()) > 0
  {
  }

  lemma U16Length(v: u16)
    ensures |U16Bytes(v)| == 2
  {
  }

  lemma ReadsBackBlob(e: Entry, img: bytes, f: bytes, mem: bytes, pos: nat)
    requires e.offset + e.size <= |img| && |f| == e.size
    requires Lies(mem, pos, f)
    ensures ReadBlob(e, mem, img, pos) == Parse(Ok, Splice(img, e.offset, f), pos + |f|)
  {
    hide Splice;
  }

  lemma ReadsBackScalar(p: Platform, e: Entry, img: bytes, f: bytes, mem: bytes, pos: nat)
    requires e.offset + e.size <= |img| && |f| == e.size == ExpectedSize(e.Kind()) > 0
    requires e.Kind() == Float32 ==> p.FloatSupported()
    requires Lies(mem, pos, Wire(p, f))
    ensures ReadScalar(p, e, mem, img, pos) == Parse(Ok, Splice(img, e.offset, f), pos + |Wire(p, f)|)
  {
    hide Splice, KindOf;
    WireInvolutive(p, f);
    hide Wire;
  }

  lemma ReadsBackText(e: Entry, img: bytes, f: bytes, mem: bytes, pos: nat)
    requires e.offset + e.size <= |img| && |f| == e.size
    requires e.Kind() == Text && TextLen(f) < |f| && TextLen(f) <= 0xFFFF
    requires Lies(mem, pos, U16Bytes(TextLen(f)) + f[..TextLen(f)])
    ensures ReadText(e, mem, img, pos) == Parse(Ok, Splice(img, e.offset, CanonField(e, f)), pos + 2 + TextLen(f))
  {
    hide Splice, TextLen, KindOf, U16At, U16Bytes, Fill;
    var len := TextLen(f);
    LiesApart(mem, pos, U16Bytes(len), f[..len]);
    U16Lies(mem, pos, len);
    assert mem[pos + 2..pos + 2 + len] == f[..len];
  }

  /** One more field after a front that read back; x is the image so far. */
  lemma ReadsBackMore(c: Setup, img: bytes, mem: bytes, start: nat, n: nat, x: bytes)
    requires c.Valid() && c.Holds(img) && c.Holds(x) && n < c.Count()
    requires FieldsValid(c, img) && AllKnown(c) && ShortTextsUpTo(c, img, n + 1)
    requires Lies(mem, start, EncodeUpTo(c, img, n) + FieldCode(c, img, n))
    requires ReadUpTo(c, mem, start, n) == Parse(Ok, x, start + |EncodeUpTo(c, img, n)|)
    ensures ReadUpTo(c, mem, start, n + 1)
         == Parse(Ok, Splice(x, c.At(n).offset, CanonField(c.At(n), Field(img, c.At(n)))),
                  start + |EncodeUpTo(c, img, n)| + |FieldCode(c, img, n)|)
  {
    hide ReadEntry, EncodeField, EncodeUpTo, FieldStatus, Splice, WellFormed, CanonField, KindOf, TextLen, Fill;
    LiesApart(mem, start, EncodeUpTo(c, img, n), FieldCode(c, img, n));
    ReadsBackField(c, n, x, Field(img, c.At(n)), mem, start + |EncodeUpTo(c, img, n)|);
  }

  /** Reading an encoding, wherever it lies and whatever follows it, consumes
      exactly the encoding and yields the canonical image; this holds field by
      field as long as no text is too long for its length word. */
  lemma {:induction false} ReadsBackUpTo(c: Setup, img: bytes, mem: bytes, start: nat, n: nat)
    requires c.Valid() && c.Holds(img) && n <= c.Count()
    requires FieldsValid(c, img) && AllKnown(c) && ShortTextsUpTo(c, img, n)
    requires Lies(mem, start, EncodeUpTo(c, img, n))
    ensures ReadUpTo(c, mem, start, n)
         == Parse(Ok, Paint(c, CanonParts(c, img), n), start + |EncodeUpTo(c, img, n)|)
  {
    if n == 0 {
    } else {
      hide ReadUpTo, EncodeUpTo, Encode, Paint, Splice, WellFormed, CanonField, FieldsValid, AllKnown, ShortText, Lies, EncodeField;
      EncodeOneMore(c, img, n - 1);
      PaintMore(c, CanonParts(c, img), n - 1);
      LiesApart(mem, start, EncodeUpTo(c, img, n - 1), FieldCode(c, img, n - 1));
      ReadsBackUpTo(c, img, mem, start, n - 1);
      ReadsBackMore(c, img, mem, start, n - 1, Paint(c, CanonParts(c, img), n - 1));
    }
  }

  lemma ReadsBack(c: Setup, img: bytes, mem: bytes, start: nat)
    requires c.Valid() && c.Holds(img)
    requires LayoutStatus(c, img) == Ok && ShortTexts(c, img)
    requires Lies(mem, start, Encode(c, img))
    ensures Read(c, mem, start) == Parse(Ok, Canon(c, img), start + |Encode(c, img)|)
  {
    ValidMeansOk(c, img);
    ReadsBackUpTo(c, img, mem, start, c.Count());
  }

  /** No encoding is a proper prefix of another, and equal encodings mean equal
      canonical images. */
  lemma PrefixFree(c: Setup, a: bytes, b: bytes, x: bytes, y: bytes)
    requires c.Valid() && c.Holds(a) && c.Holds(b)
    requires LayoutStatus(c, a) == Ok && ShortTexts(c, a)
    requires LayoutStatus(c, b) == Ok && ShortTexts(c, b)
    requires Encode(c, a) + x == Encode(c, b) + y
    ensures Encode(c, a) == Encode(c, b) && x == y && Canon(c, a) == Canon(c, b)
  {
    var m := Encode(c, a) + x;
    assert Lies(m, 0, Encode(c, a));
    assert Lies(m, 0, Encode(c, b)) by {
      assert Lies(Encode(c, b) + y, 0, Encode(c, b));
    }
    ReadsBack(c, a, m, 0);
    ReadsBack(c, b, m, 0);
    assert m[|Encode(c, a)|..] == x && (Encode(c, b) + y)[|Encode(c, b)|..] == y;
  }

  // ----- texts too long for their length word

  lemma {:induction false} ReadTextsShort(c: Setup, mem: bytes, start: nat, n: nat)
    requires c.Valid() && n <= c.Count() && start <= |mem|
    requires ReadUpTo(c, mem, start, n).status == Ok
    ensures forall i :: 0 <= i < n ==> ShortText(c.At(i), Field(ReadUpTo(c, mem, start, n).image, c.At(i)))
  {
    hide ReadEntry, Splice, WellFormed, KindOf;
    if n == 0 {
    } else {
      ReadTextsShort(c, mem, start, n - 1);
      var q, e := ReadUpTo(c, mem, start, n - 1), c.At(n - 1);
      var v := Field(ReadUpTo(c, mem, start, n).image, e);
      ReadStores(c, n - 1, mem, q.image, q.pos);
      StoreFrame(c, q.image, n - 1, v);
      if e.Kind() == Text {
        assert v[U16At(mem, q.pos)] == 0;
      }
    }
  }

  /** A successful read of one entry is a store into its field. */
  lemma ReadStores(c: Setup, i: nat, mem: bytes, img: bytes, pos: nat)
    requires c.Valid() && i < c.Count() && c.Holds(img)
    requires ReadEntry(c, i, mem, img, pos).status == Ok
    ensures var e, r := c.At(i), ReadEntry(c, i, mem, img, pos);
            && r.image == Splice(img, e.offset, Field(r.image, e))
            && (e.Kind() == Text ==> pos + 2 <= |mem| && U16At(mem, pos) < e.size && Field(r.image, e)[U16At(mem, pos)] == 0)
  {
  }

  /** Whatever a reader accepts, it is not an image with a longer text. */
  lemma LongTextLost(c: Setup, img: bytes, mem: bytes, start: nat)
    requires c.Valid() && c.Holds(img) && start <= |mem|
    requires !ShortTexts(c, img)
    requires Read(c, mem, start).status == Ok
    ensures Read(c, mem, start).image != Canon(c, img)
  {
    ReadTextsShort(c, mem, start, c.Count());
    var i :| 0 <= i < c.Count() && !ShortText(c.At(i), Field(img, c.At(i)));
    CanonMeaning(c, img);
    CanonFieldKeepsText(c.At(i), Field(img, c.At(i)));
    assert ShortText(c.At(i), Field(Read(c, mem, start).image, c.At(i)));
  }
}
