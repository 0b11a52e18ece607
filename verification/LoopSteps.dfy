// Single steps of the measuring, writing, reading and copying loops.

module LoopSteps {
  import opened Words
  import opened Crc
  import opened Schema
  import opened Image
  import opened Payload
  import opened Record

  lemma FoldStart(mem: bytes, start: nat)
    requires start <= |mem|
    ensures Fold(SEED, mem[start..start]) == SEED
  {
  }

  /** The register follows the reading position. */
  lemma ReadOn(crc: u32, mem: bytes, a: nat, b: nat, c: nat)
    requires a <= b <= c <= |mem|
    ensures Fold(Fold(crc, mem[a..b]), mem[b..c]) == Fold(crc, mem[a..c])
  {
    hide Fold;
    FoldAppend(crc, mem[a..b], mem[b..c]);
    assert mem[a..c] == mem[a..b] + mem[b..c];
  }

  lemma U16Window(mem: bytes, at: nat)
    requires at + 2 <= |mem|
    ensures U16At(mem[at..at + 2], 0) == U16At(mem, at)
  {
    assert mem[at..at + 2][0..2] == mem[at..at + 2];
  }

  /** Clearing a field, copying a text over it and ending it stores the padded text. */
  lemma TextLands(s: bytes, at: nat, size: nat, v: bytes)
    requires at + size <= |s| && |v| < size
    ensures
      var padded := Splice(s, at, v + Fill(size - |v|, 0));
      var cleared := Splice(s, at, Fill(size, 0));
      && Splice(cleared, at, v)[at + |v| := 0] == padded
      && (v == [] ==> cleared[at := 0] == padded)
  {
    PadJoins(s, at, size, v);
    SpliceZero(s, at, size, v);
  }

  lemma EncodeEnds(c: Setup, img: bytes)
    requires c.Valid() && c.Holds(img)
    ensures EncodeUpTo(c, img, 0) == [] && EncodeUpTo(c, img, c.Count()) == Encode(c, img)
  {
  }

  lemma LayoutMeans(c: Setup, img: bytes, i: nat)
    requires c.Valid() && c.Holds(img) && i < c.Count() && LayoutStatus(c, img) == Ok
    ensures FieldStatus(c.platform, c.At(i), Field(img, c.At(i))) == Ok
    ensures c.At(i).Kind() != Unknown
  {
    hide DataStatus;
    ValidMeansOk(c, img);
  }

  lemma LayoutData(c: Setup, img: bytes)
    requires c.Valid() && c.Holds(img) && LayoutStatus(c, img) == Ok
    ensures DataStatus(c, img) == Ok && FieldsValid(c, img) && AllKnown(c)
  {
    hide DataStatus;
    ValidMeansOk(c, img);
  }

  lemma KeysDiffer(c: Setup, i: nat)
    requires c.Valid() && i < c.Count() && c.At(i).key.Named?
    ensures forall j :: 0 <= j < c.Count() && j != i ==> c.At(j).key != c.At(i).key
  {
    forall j | 0 <= j < c.Count() && j != i
      ensures c.At(j).key != c.At(i).key
    {
      assert if i < j then Apart(c.schema, i, j) else Apart(c.schema, j, i);
    }
  }

  /** No n fields take more. */
  ghost function LengthBound(n: nat): nat {
    n * (MAX_OBJECT + 2)
  }

  lemma LengthFits(n: nat, length: nat, size: nat)
    requires n < MAX_ENTRIES && length <= LengthBound(n) && size <= MAX_OBJECT + 2
    ensures length <= SIZE_MAX - size && length + size <= LengthBound(n + 1)
  {
  }

  /** The measuring loop after n fields. */
  ghost predicate Measured(c: Setup, img: bytes, n: nat, length: nat, crc: u32)
    requires c.Valid() && c.Holds(img) && n <= c.Count()
  {
    && length == |EncodeUpTo(c, img, n)| <= LengthBound(n)
    && crc == Fold(SEED, EncodeUpTo(c, img, n))
    && forall j :: 0 <= j < n ==> c.At(j).Kind() != Unknown
  }

  lemma LayoutStart(c: Setup, img: bytes)
    requires c.Valid() && c.Holds(img)
    ensures if DataStatus(c, img) == Ok then FieldsValid(c, img) && Measured(c, img, 0, 0, SEED)
            else LayoutStatus(c, img) == DataStatus(c, img)
  {
    hide DataStatus;
    ValidMeansOk(c, img);
  }

  lemma FewEntries(c: Setup)
    requires c.Valid()
    ensures c.Count() <= MAX_ENTRIES
  {
  }

  /** One more field: the length cannot overflow, an unknown type is the first
      complaint left, and any other field extends the measure. */
  lemma MeasuredMore(c: Setup, img: bytes, n: nat, length: nat, crc: u32, size: nat, code: bytes)
    requires c.Valid() && c.Holds(img) && n < c.Count() && FieldsValid(c, img)
    requires Measured(c, img, n, length, crc)
    requires size <= MAX_OBJECT + 2
    ensures length <= SIZE_MAX - size
    ensures c.At(n).Kind() == Unknown ==> LayoutStatus(c, img) == ErrType
    ensures
      var added := c.At(n).Kind() != Unknown && size == |code| && code == EncodeField(c.platform, c.At(n), Field(img, c.At(n)));
      added ==> Measured(c, img, n + 1, length + size, Fold(crc, code))
  {
    hide WellFormed, DataStatus, EncodeField, EncodeUpTo, Fold, FieldsValid, KindOf, LengthBound;
    FewEntries(c);
    ValidMeansOk(c, img);
    LengthFits(n, length, size);
    EncodeOneMore(c, img, n);
    FoldAppend(SEED, EncodeUpTo(c, img, n), code);
  }

  lemma MeasuredAll(c: Setup, img: bytes, length: nat, crc: u32)
    requires c.Valid() && c.Holds(img) && FieldsValid(c, img)
    requires Measured(c, img, c.Count(), length, crc)
    ensures LayoutStatus(c, img) == Ok
    ensures length == |Encode(c, img)| && Finalize(crc) == Crc32(Encode(c, img))
  {
    hide WellFormed, DataStatus, EncodeUpTo, Fold, FieldsValid;
    ValidMeansOk(c, img);
  }

  lemma {:induction false} ComplaintSticks(c: Setup, img: bytes, m: nat, n: nat)
    requires c.Valid() && c.Holds(img) && m <= n <= c.Count()
    requires DataStatusUpTo(c, img, m) != Ok
    ensures DataStatusUpTo(c, img, n) == DataStatusUpTo(c, img, m)
    decreases n
  {
    if m == n {
    } else {
      ComplaintSticks(c, img, m, n - 1);
    }
  }

  /** Clearing a field and copying a shorter value stores the padded value. */
  lemma PadJoins(s: bytes, at: nat, size: nat, v: bytes)
    requires at + size <= |s| && |v| <= size
    ensures Splice(Splice(s, at, Fill(size, 0)), at, v) == Splice(s, at, v + Fill(size - |v|, 0))
  {
  }

  lemma SpliceZero(s: bytes, at: nat, size: nat, v: bytes)
    requires at + size <= |s| && |v| < size
    ensures var r := Splice(s, at, v + Fill(size - |v|, 0)); r[at + |v| := 0] == r
  {
  }

  /** A slot that does not probe does not load. */
  lemma MissingNotLoaded(c: Setup, g: Geometry, mem: bytes)
    requires c.Valid()
    ensures forall slot: Slot, buf: bytes :: Probe(c, g, mem, slot, true).Missing? ==>
      LoadSlot(c, g, mem, slot, true, buf).status != Ok
    ensures forall slot: Slot :: Probe(c, g, mem, slot, true) != Missing(Ok)
  {
    forall slot: Slot, buf: bytes
      ensures Probe(c, g, mem, slot, true) != Missing(Ok)
      ensures Probe(c, g, mem, slot, true).Missing? ==> LoadSlot(c, g, mem, slot, true, buf).status != Ok
    {
      ProbeMissingNotOk(c, g, mem, slot, true);
    }
  }
}
