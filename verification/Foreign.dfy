// Records that decode although the writer would not have written them.

module Foreign {
  import opened Words
  import opened Schema
  import opened Image
  import opened Payload
  import opened Misread

  /** Entry i, if a text, was stored without embedded NULs: its length word is
      the length of the text. */
  ghost predicate StoredWhole(c: Setup, mem: bytes, start: nat, i: nat)
    requires c.Valid() && i < c.Count() && start <= |mem|
    requires ReadUpTo(c, mem, start, c.Count()).status == Ok
  {
    EarlierOk(c, mem, start, i, c.Count());
    EarlierOk(c, mem, start, i + 1, c.Count());
    var from, to := ReadUpTo(c, mem, start, i).pos, ReadUpTo(c, mem, start, i + 1).pos;
    c.At(i).Kind() == Text ==> 2 + TextLen(Field(Read(c, mem, start).image, c.At(i))) == to - from
  }

  /** One field written again: never longer than what was read, and the same
      bytes exactly if nothing follows an embedded NUL. */
  lemma FieldWrittenAgain(c: Setup, i: nat, mem: bytes, img: bytes, pos: nat)
    requires c.Valid() && i < c.Count() && c.Holds(img)
    requires ReadEntry(c, i, mem, img, pos).status == Ok
    ensures
      var r, e := ReadEntry(c, i, mem, img, pos), c.At(i);
      var f := Field(r.image, e);
      var code := EncodeField(c.platform, e, f);
      && |code| <= r.pos - pos
      && (|code| == r.pos - pos ==> code == mem[pos..r.pos])
      && (|code| == r.pos - pos <==> (e.Kind() == Text ==> 2 + TextLen(f) == r.pos - pos))
  {
    hide WellFormed, Wire, Splice;
    var r, e := ReadEntry(c, i, mem, img, pos), c.At(i);
    if e.Kind() == Text {
      TextWrittenAgain(e, mem, img, pos);
    } else {
      SpliceInside(img, e.offset, Field(r.image, e));
      if e.Kind() == Blob {
        SpliceInside(img, e.offset, mem[pos..r.pos]);
      } else {
        SpliceInside(img, e.offset, Wire(c.platform, mem[pos..r.pos]));
        WireInvolutive(c.platform, mem[pos..r.pos]);
      }
    }
  }

  lemma TextWrittenAgain(e: Entry, mem: bytes, img: bytes, pos: nat)
    requires e.offset + e.size <= |img|
    requires ReadText(e, mem, img, pos).status == Ok
    ensures
      var r := ReadText(e, mem, img, pos);
      var f := Field(r.image, e);
      && TextLen(f) < e.size && 2 + TextLen(f) <= r.pos - pos
      && (2 + TextLen(f) == r.pos - pos ==> U16Bytes(TextLen(f) % 0x1_0000) + f[..TextLen(f)] == mem[pos..r.pos])
  {
    hide Splice, U16Bytes, U16At, TextLen, Fill;
    var len := U16At(mem, pos) as int;
    var text := mem[pos + 2..pos + 2 + len];
    SpliceInside(img, e.offset, text + Fill(e.size - len, 0));
    PaddedText(text, e.size - len);
    LengthWord(mem, pos);
    assert mem[pos..pos + 2 + len] == mem[pos..pos + 2] + text;
  }

  lemma PaddedText(text: bytes, n: nat)
    requires n > 0
    ensures TextLen(text + Fill(n, 0)) <= |text|
    ensures (text + Fill(n, 0))[..|text|] == text
  {
    assert (text + Fill(n, 0))[|text|] == 0;
  }

  lemma LengthWord(mem: bytes, pos: nat)
    requires pos + 2 <= |mem|
    ensures U16Bytes(U16At(mem, pos)) == mem[pos..pos + 2]
  {
    TwoDigits(mem, pos);
    var w := mem[pos..pos + 2];
    assert w == [mem[pos], mem[pos + 1]];
  }

  lemma {:induction false} WrittenAgainUpTo(c: Setup, mem: bytes, start: nat, n: nat)
    requires c.Valid() && n <= c.Count() && start <= |mem|
    requires ReadUpTo(c, mem, start, c.Count()).status == Ok
    ensures ReadUpTo(c, mem, start, n).status == Ok
    ensures
      var code, pos := EncodeUpTo(c, Read(c, mem, start).image, n), ReadUpTo(c, mem, start, n).pos;
      && |code| <= pos - start
      && (|code| == pos - start ==> code == mem[start..pos])
      && (|code| == pos - start <==> forall i :: 0 <= i < n ==> StoredWhole(c, mem, start, i))
  {
    hide ReadEntry, EncodeField, WellFormed, TextLen, KindOf, U16At;
    EarlierOk(c, mem, start, n, c.Count());
    if n == 0 {
    } else {
      WrittenAgainUpTo(c, mem, start, n - 1);
      var q, r := ReadUpTo(c, mem, start, n - 1), ReadUpTo(c, mem, start, n);
      FieldWrittenAgain(c, n - 1, mem, q.image, q.pos);
      FieldSettles(c, mem, start, n - 1, c.Count());
      assert StoredWhole(c, mem, start, n - 1) <==>
        |EncodeField(c.platform, c.At(n - 1), Field(Read(c, mem, start).image, c.At(n - 1)))| == r.pos - q.pos;
      assert mem[start..r.pos] == mem[start..q.pos] + mem[q.pos..r.pos];
    }
  }

  /** The reader accepts more than the writer writes, and exactly this more:
      writing an accepted image again gives back the bytes that were read if and
      only if no text was stored with a NUL inside. */
  lemma ReencodesExactly(c: Setup, mem: bytes, start: nat)
    requires c.Valid() && start <= |mem| && Read(c, mem, start).status == Ok
    ensures Encode(c, Read(c, mem, start).image) == mem[start..Read(c, mem, start).pos]
       <==> forall i :: 0 <= i < c.Count() ==> StoredWhole(c, mem, start, i)
  {
    hide ReadUpTo, EncodeUpTo, StoredWhole;
    WrittenAgainUpTo(c, mem, start, c.Count());
  }
}
