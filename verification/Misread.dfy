// What a read leaves in the data when it does not get through, or gets through
// at shifted positions.

module Misread {
  import opened Words
  import opened Schema
  import opened Image
  import opened Payload

  // ----- reading touches one field at a time

  /** Reading an entry, successful or not, stores into its field at most; a text
      it stores has an end. */
  lemma ReadTouches(c: Setup, i: nat, mem: bytes, img: bytes, pos: nat) returns (v: bytes)
    requires c.Valid() && i < c.Count() && c.Holds(img)
    ensures |v| == c.At(i).size
    ensures ReadEntry(c, i, mem, img, pos).image == Splice(img, c.At(i).offset, v)
    ensures v == Field(img, c.At(i)) || (c.At(i).Kind() == Text ==> TextLen(v) < |v|)
  {
    hide WellFormed, Splice;
    var e := c.At(i);
    var r := ReadEntry(c, i, mem, img, pos);
    v := Field(r.image, e);
    SpliceSame(img, e.offset, Field(img, e));
    if r.image != img {
      if e.Kind() == Text {
        var stored := TextStored(e, mem, img, pos);
        SpliceInside(img, e.offset, stored);
      } else if e.Kind() == Blob {
        SpliceInside(img, e.offset, mem[pos..pos + e.size]);
      } else {
        SpliceInside(img, e.offset, Wire(c.platform, mem[pos..pos + e.size]));
      }
    }
  }

  lemma SpliceSame(s: bytes, at: nat, part: bytes)
    requires at + |part| <= |s| && part == s[at..at + |part|]
    ensures Splice(s, at, part) == s
  {
  }

  lemma TextStored(e: Entry, mem: bytes, img: bytes, pos: nat) returns (v: bytes)
    requires e.offset + e.size <= |img| && e.size >= 2
    requires ReadText(e, mem, img, pos).image != img
    ensures |v| == e.size && TextLen(v) < |v|
    ensures ReadText(e, mem, img, pos).image == Splice(img, e.offset, v)
  {
    hide Splice, U16At, TextLen;
    var len := U16At(mem, pos) as int;
    v := if pos + 2 + len > |mem| then Fill(e.size, 0) else mem[pos + 2..pos + 2 + len] + Fill(e.size - len, 0);
    assert v[e.size - 1] == 0;
  }

  /** So every other field stays, and after its turn a field is settled. */
  lemma {:induction false} FieldSettles(c: Setup, mem: bytes, start: nat, i: nat, n: nat)
    requires c.Valid() && i < n <= c.Count() && start <= |mem|
    ensures Field(ReadUpTo(c, mem, start, n).image, c.At(i)) == Field(ReadUpTo(c, mem, start, i + 1).image, c.At(i))
    decreases n
  {
    hide ReadEntry, WellFormed, Splice;
    if i + 1 == n {
    } else {
      FieldSettles(c, mem, start, i, n - 1);
      var q := ReadUpTo(c, mem, start, n - 1);
      var v := ReadTouches(c, n - 1, mem, q.image, q.pos);
      StoreFrame(c, q.image, n - 1, v);
    }
  }

  // ----- only bools can come out invalid

  ghost predicate BoolsValid(c: Setup, img: bytes)
    requires c.Valid() && c.Holds(img)
  {
    forall i :: 0 <= i < c.Count() && c.At(i).Kind() == Bool ==>
      FieldStatus(c.platform, c.At(i), Field(img, c.At(i))) == Ok
  }

  ghost predicate OthersValid(c: Setup, img: bytes)
    requires c.Valid() && c.Holds(img)
  {
    forall i :: 0 <= i < c.Count() && c.At(i).Kind() != Bool ==>
      FieldStatus(c.platform, c.At(i), Field(img, c.At(i))) == Ok
  }

  lemma BoolsAndOthers(c: Setup, img: bytes)
    requires c.Valid() && c.Holds(img)
    ensures FieldsValid(c, img) <==> BoolsValid(c, img) && OthersValid(c, img)
    ensures FieldsValid(c, img) ==> FloatsSupported(c)
  {
    hide WellFormed, TextLen;
    if FieldsValid(c, img) {
      forall i | 0 <= i < c.Count() && c.At(i).Kind() == Float32
        ensures c.platform.FloatSupported()
      {
        assert FieldStatus(c.platform, c.At(i), Field(img, c.At(i))) == Ok;
      }
    }
  }

  lemma BlankIsValid(c: Setup)
    requires c.Valid() && FloatsSupported(c)
    ensures FieldsValid(c, Fill(c.schema.dataSize, 0))
  {
    forall i | 0 <= i < c.Count()
      ensures FieldStatus(c.platform, c.At(i), Field(Fill(c.schema.dataSize, 0), c.At(i))) == Ok
    {
      assert Field(Fill(c.schema.dataSize, 0), c.At(i)) == Fill(c.At(i).size, 0);
    }
  }

  /** Whatever lies in storage, wherever the reader gives up, and however it was
      misled: texts have an end and only a bool can hold an invalid byte. */
  lemma {:induction false} OthersStayValid(c: Setup, mem: bytes, start: nat, n: nat)
    requires c.Valid() && n <= c.Count() && start <= |mem| && FloatsSupported(c)
    ensures OthersValid(c, ReadUpTo(c, mem, start, n).image)
  {
    hide ReadEntry, WellFormed, Splice, TextLen, Fill;
    if n == 0 {
      BlankIsValid(c);
    } else {
      OthersStayValid(c, mem, start, n - 1);
      var q := ReadUpTo(c, mem, start, n - 1);
      var v := ReadTouches(c, n - 1, mem, q.image, q.pos);
      StoreFrame(c, q.image, n - 1, v);
    }
  }

  // ----- which bools are safe

  /** No bool comes after a text too long for its length word. */
  ghost predicate BoolsFirst(c: Setup, img: bytes)
    requires c.Valid() && c.Holds(img)
  {
    forall j :: 0 <= j < c.Count() && c.At(j).Kind() == Bool ==> ShortTextsUpTo(c, img, j)
  }

  lemma ShortMeansBoolsFirst(c: Setup, img: bytes)
    requires c.Valid() && c.Holds(img) && ShortTexts(c, img)
    ensures BoolsFirst(c, img)
  {
  }

  lemma EncodingStarts(c: Setup, img: bytes, mem: bytes, start: nat, n: nat)
    requires c.Valid() && c.Holds(img) && n <= c.Count()
    requires Lies(mem, start, Encode(c, img))
    ensures Lies(mem, start, EncodeUpTo(c, img, n))
  {
    hide EncodeUpTo, Encode, Lies;
    var rest := EncodeRest(c, img, n);
    LiesApart(mem, start, EncodeUpTo(c, img, n), rest);
  }

  /** A bool that comes before every text too long reads back, or is still clear. */
  lemma BoolReadsBack(c: Setup, img: bytes, mem: bytes, start: nat, j: nat, n: nat)
    requires c.Valid() && c.Holds(img) && j < c.Count() && n <= c.Count()
    requires FieldsValid(c, img) && AllKnown(c)
    requires c.At(j).Kind() == Bool && ShortTextsUpTo(c, img, j)
    requires Lies(mem, start, Encode(c, img))
    ensures Field(ReadUpTo(c, mem, start, n).image, c.At(j)) == if j < n then Field(img, c.At(j)) else [0]
  {
    hide WellFormed, ReadEntry, EncodeUpTo, Encode, Splice, FieldsValid, AllKnown;
    if j < n {
      EncodingStarts(c, img, mem, start, j + 1);
      ReadsBackUpTo(c, img, mem, start, j + 1);
      PaintShows(c, CanonParts(c, img), j + 1);
      FieldSettles(c, mem, start, j, n);
    } else {
      StillClear(c, mem, start, j, n);
    }
  }

  lemma {:induction false} StillClear(c: Setup, mem: bytes, start: nat, j: nat, n: nat)
    requires c.Valid() && n <= j < c.Count() && start <= |mem|
    ensures Field(ReadUpTo(c, mem, start, n).image, c.At(j)) == Fill(c.At(j).size, 0)
  {
    hide ReadEntry, WellFormed, Splice;
    if n == 0 {
    } else {
      StillClear(c, mem, start, j, n - 1);
      var q := ReadUpTo(c, mem, start, n - 1);
      var v := ReadTouches(c, n - 1, mem, q.image, q.pos);
      StoreFrame(c, q.image, n - 1, v);
    }
  }

  /** Valid data whose bools come first reads back as valid data, as far as the
      reading gets. */
  lemma ReadsBackValid(c: Setup, img: bytes, mem: bytes, start: nat, n: nat)
    requires c.Valid() && c.Holds(img) && n <= c.Count()
    requires FieldsValid(c, img) && AllKnown(c) && BoolsFirst(c, img)
    requires Lies(mem, start, Encode(c, img))
    ensures FieldsValid(c, ReadUpTo(c, mem, start, n).image)
  {
    assert start <= |mem|;
    hide WellFormed, ReadUpTo, Encode, Lies, OthersValid, AllKnown, TextLen;
    var r := ReadUpTo(c, mem, start, n).image;
    BoolsAndOthers(c, img);
    BoolsAndOthers(c, r);
    OthersStayValid(c, mem, start, n);
    forall j | 0 <= j < c.Count() && c.At(j).Kind() == Bool
      ensures FieldStatus(c.platform, c.At(j), Field(r, c.At(j))) == Ok
    {
      BoolReadsBack(c, img, mem, start, j, n);
    }
  }

  // ----- reads cut short

  function Cleared(c: Setup, img: bytes, i: nat): (r: bytes)
    requires c.Valid() && c.Holds(img) && i < c.Count()
    ensures c.Holds(r)
  {
    Splice(img, c.At(i).offset, Fill(c.At(i).size, 0))
  }

  /** What the data may hold after reading stopped at some entry: the entries
      before it, and the entry itself untouched or, if a text, cleared. */
  ghost predicate PartlyRead(c: Setup, mem: bytes, start: nat, img: bytes)
    requires c.Valid()
  {
    start <= |mem| && exists n :: 0 <= n <= c.Count() && StoppedAt(c, mem, start, n, img)
  }

  ghost predicate StoppedAt(c: Setup, mem: bytes, start: nat, n: nat, img: bytes)
    requires c.Valid() && n <= c.Count() && start <= |mem|
  {
    || img == ReadUpTo(c, mem, start, n).image
    || (n < c.Count() && c.At(n).Kind() == Text && img == Cleared(c, ReadUpTo(c, mem, start, n).image, n))
  }

  lemma ReadsNone(c: Setup, mem: bytes, start: nat)
    requires c.Valid() && start <= |mem|
    ensures ReadUpTo(c, mem, start, 0) == Parse(Ok, Fill(c.schema.dataSize, 0), start)
  {
  }

  /** Reading goes on, or stops at entry n with the image r left. */
  lemma ReadsMore(c: Setup, mem: bytes, start: nat, n: nat, x: bytes, pos: nat, r: bytes)
    requires c.Valid() && n < c.Count() && start <= |mem| && c.Holds(x)
    requires ReadUpTo(c, mem, start, n) == Parse(Ok, x, pos)
    ensures ReadUpTo(c, mem, start, n + 1) == ReadEntry(c, n, mem, x, pos)
    ensures r == x || (c.At(n).Kind() == Text && r == Cleared(c, x, n)) ==> PartlyRead(c, mem, start, r)
  {
    hide ReadEntry, WellFormed, Cleared;
    assert r == x || (c.At(n).Kind() == Text && r == Cleared(c, x, n)) ==> StoppedAt(c, mem, start, n, r);
  }

  lemma ReadsAll(c: Setup, mem: bytes, start: nat)
    requires c.Valid() && start <= |mem|
    ensures PartlyRead(c, mem, start, Read(c, mem, start).image)
  {
    assert StoppedAt(c, mem, start, c.Count(), Read(c, mem, start).image);
  }

  lemma PartlyReadValid(c: Setup, img: bytes, mem: bytes, start: nat, x: bytes)
    requires c.Valid() && c.Holds(img)
    requires FieldsValid(c, img) && AllKnown(c) && BoolsFirst(c, img)
    requires Lies(mem, start, Encode(c, img))
    requires PartlyRead(c, mem, start, x)
    ensures c.Holds(x) && FieldsValid(c, x)
  {
    hide WellFormed, ReadUpTo, Encode, Lies, AllKnown, BoolsFirst, FieldsValid;
    var n :| 0 <= n <= c.Count() && StoppedAt(c, mem, start, n, x);
    ReadsBackValid(c, img, mem, start, n);
    if x != ReadUpTo(c, mem, start, n).image {
      ClearedValid(c, ReadUpTo(c, mem, start, n).image, n);
    }
  }

  lemma ClearedValid(c: Setup, img: bytes, i: nat)
    requires c.Valid() && c.Holds(img) && i < c.Count() && FieldsValid(c, img)
    requires c.At(i).Kind() == Text
    ensures FieldsValid(c, Cleared(c, img, i))
  {
    hide WellFormed, Splice;
    StoreFrame(c, img, i, Fill(c.At(i).size, 0));
    assert TextLen(Fill(c.At(i).size, 0)) == 0;
  }

  // ----- a bool after a text too long

  /** A bool right after the first text too long is overwritten by a character of
      that text. */
  lemma BoolAfterLongText(c: Setup, img: bytes, mem: bytes, start: nat, i: nat)
    requires c.Valid() && c.Holds(img) && i + 1 < c.Count()
    requires FieldsValid(c, img) && AllKnown(c) && ShortTextsUpTo(c, img, i)
    requires !ShortText(c.At(i), Field(img, c.At(i))) && c.At(i + 1).Kind() == Bool
    requires Lies(mem, start, Encode(c, img))
    ensures
      var f := Field(img, c.At(i));
      Field(Read(c, mem, start).image, c.At(i + 1)) == [f[TextLen(f) % 0x1_0000]]
  {
    hide WellFormed, ReadUpTo, ReadEntry, Encode, AllKnown, TextLen, EncodeField, ShortText,
      ShortTextsUpTo, Lies, KindOf, FieldStatus, Fill;
    var f := Field(img, c.At(i));
    assert FieldStatus(c.platform, c.At(i), f) == Ok;
    hide FieldsValid;
    LongTextEnds(c.platform, c.At(i), f);
    FrontReadsBack(c, img, mem, start, i);
    var x := ReadUpTo(c, mem, start, i);
    ShiftedBool(c, i, f, mem, x.image, x.pos);
    TwoMore(c, mem, start, i);
    FieldSettles(c, mem, start, i + 1, c.Count());
  }

  lemma LongTextEnds(p: Platform, e: Entry, f: bytes)
    requires |f| == e.size > 0 && FieldStatus(p, e, f) == Ok && !ShortText(e, f)
    ensures TextLen(f) < |f|
  {
    hide KindOf, TextLen;
  }

  /** The reader gets as far as the first text too long. */
  lemma FrontReadsBack(c: Setup, img: bytes, mem: bytes, start: nat, i: nat)
    requires c.Valid() && c.Holds(img) && i < c.Count()
    requires FieldsValid(c, img) && AllKnown(c) && ShortTextsUpTo(c, img, i)
    requires Lies(mem, start, Encode(c, img))
    ensures start <= |mem| && ReadUpTo(c, mem, start, i).status == Ok
    ensures Lies(mem, ReadUpTo(c, mem, start, i).pos, FieldCode(c, img, i))
  {
    hide WellFormed, ReadUpTo, EncodeUpTo, Encode, FieldsValid, AllKnown, Paint, ShortTextsUpTo, EncodeField;
    EncodingStarts(c, img, mem, start, i + 1);
    EncodeOneMore(c, img, i);
    LiesApart(mem, start, EncodeUpTo(c, img, i), FieldCode(c, img, i));
    ReadsBackUpTo(c, img, mem, start, i);
  }

  lemma TwoMore(c: Setup, mem: bytes, start: nat, i: nat)
    requires c.Valid() && i + 1 < c.Count() && start <= |mem|
    requires ReadUpTo(c, mem, start, i).status == Ok
    ensures
      var x := ReadUpTo(c, mem, start, i);
      var q := ReadEntry(c, i, mem, x.image, x.pos);
      q.status == Ok ==> ReadUpTo(c, mem, start, i + 2) == ReadEntry(c, i + 1, mem, q.image, q.pos)
  {
    hide WellFormed, ReadEntry;
    assert ReadUpTo(c, mem, start, i + 1).status == ReadEntry(c, i, mem, ReadUpTo(c, mem, start, i).image, ReadUpTo(c, mem, start, i).pos).status;
  }

  lemma ShiftedBool(c: Setup, i: nat, f: bytes, mem: bytes, img: bytes, pos: nat)
    requires c.Valid() && i + 1 < c.Count() && c.Holds(img)
    requires |f| == c.At(i).size && !ShortText(c.At(i), f) && TextLen(f) < |f|
    requires c.At(i + 1).Kind() == Bool
    requires Lies(mem, pos, EncodeField(c.platform, c.At(i), f))
    ensures
      var q := ReadEntry(c, i, mem, img, pos);
      && q.status == Ok
      && Field(ReadEntry(c, i + 1, mem, q.image, q.pos).image, c.At(i + 1)) == [f[TextLen(f) % 0x1_0000]]
  {
    hide WellFormed, ReadText, ReadScalar, TextLen, Lies;
    LongTextShifts(c.At(i), f, mem, img, pos);
    var q := ReadEntry(c, i, mem, img, pos);
    BoolRead(c, i + 1, mem, q.image, q.pos);
  }

  lemma LongTextShifts(e: Entry, f: bytes, mem: bytes, img: bytes, pos: nat)
    requires e.offset + e.size <= |img| && |f| == e.size && 0xFFFF < TextLen(f) < |f|
    requires Lies(mem, pos, U16Bytes(TextLen(f) % 0x1_0000) + f[..TextLen(f)])
    ensures
      var r := ReadText(e, mem, img, pos);
      r.status == Ok && r.pos < |mem| && mem[r.pos] == f[TextLen(f) % 0x1_0000]
  {
    hide Splice, U16Bytes, U16At, TextLen, Fill;
    var m := TextLen(f) % 0x1_0000;
    LiesApart(mem, pos, U16Bytes(m), f[..TextLen(f)]);
    U16Lies(mem, pos, m);
    LiesAt(mem, pos + 2, f[..TextLen(f)], m);
  }

  lemma BoolRead(c: Setup, j: nat, mem: bytes, img: bytes, pos: nat)
    requires c.Valid() && j < c.Count() && c.Holds(img) && c.At(j).Kind() == Bool && pos < |mem|
    ensures Field(ReadEntry(c, j, mem, img, pos).image, c.At(j)) == [mem[pos]]
  {
    hide WellFormed, Splice;
    var b := Wire(c.platform, mem[pos..pos + 1]);
    assert b == [mem[pos]];
    assert ReadEntry(c, j, mem, img, pos).image == Splice(img, c.At(j).offset, b);
    SpliceInside(img, c.At(j).offset, b);
  }
}
