// Data images: the caller's struct as bytes, its fields, the canonical image,
// and the default image.

module Image {
  import opened Words
  import opened Schema

  /** What a context is bound to. */
  datatype Setup = Setup(platform: Platform, schema: Schema, fingerprint: u32) {
    ghost predicate Valid() {
      WellFormed(platform, schema) && schema.dataSize <= MAX_OBJECT
    }

    function Count(): nat {
      |schema.entries|
    }

    function At(i: nat): (e: Entry)
      requires Valid() && i < Count()
      ensures e == schema.entries[i]
      ensures 0 < e.size && e.offset + e.size <= schema.dataSize
      ensures ExpectedSize(e.Kind()) != 0 ==> e.size == ExpectedSize(e.Kind())
      ensures e.Kind() == Text ==> 2 <= e.size
      ensures PresetFits(e)
    {
      assert FitsAt(platform, schema, i);
      schema.entries[i]
    }

    ghost predicate Holds(img: bytes) {
      |img| == schema.dataSize
    }
  }

  function Field(img: bytes, e: Entry): (f: bytes)
    requires e.offset + e.size <= |img|
    ensures |f| == e.size
  {
    img[e.offset..e.offset + e.size]
  }

  /** The length of the text at the start of f: up to the first NUL, if any. */
  function TextLen(f: bytes): (n: nat)
    ensures n <= |f|
    ensures n < |f| ==> f[n] == 0
    ensures forall k :: 0 <= k < n ==> f[k] != 0
  {
    if f == [] || f[0] == 0 then 0 else 1 + TextLen(f[1..])
  }

  lemma {:induction false} TextLenUnique(f: bytes, n: nat)
    requires n <= |f|
    requires n < |f| ==> f[n] == 0
    requires forall k :: 0 <= k < n ==> f[k] != 0
    ensures TextLen(f) == n
  {
    if f == [] || f[0] == 0 {
    } else {
      TextLenUnique(f[1..], n - 1);
    }
  }

  // ----- valid images

  function FieldStatus(p: Platform, e: Entry, f: bytes): Status
    requires |f| == e.size > 0
  {
    match e.Kind()
    case Bool => if f[0] == 0 || f[0] == 1 then Ok else ErrInvalid
    case Text => if e.size >= 2 && TextLen(f) < |f| then Ok else ErrInvalid
    case Float32 => if p.FloatSupported() then Ok else ErrUnsupported
    case _ => Ok
  }

  /** The first complaint about the first n fields. */
  function DataStatusUpTo(c: Setup, img: bytes, n: nat): Status
    requires c.Valid() && c.Holds(img) && n <= c.Count()
  {
    if n == 0 then Ok
    else if DataStatusUpTo(c, img, n - 1) != Ok then DataStatusUpTo(c, img, n - 1)
    else FieldStatus(c.platform, c.At(n - 1), Field(img, c.At(n - 1)))
  }

  function DataStatus(c: Setup, img: bytes): Status
    requires c.Valid() && c.Holds(img)
  {
    DataStatusUpTo(c, img, c.Count())
  }

  ghost predicate FieldsValid(c: Setup, img: bytes)
    requires c.Valid() && c.Holds(img)
  {
    forall i :: 0 <= i < c.Count() ==>
      FieldStatus(c.platform, c.At(i), Field(img, c.At(i))) == Ok
  }

  lemma {:induction false} DataStatusMeaning(c: Setup, img: bytes, n: nat)
    requires c.Valid() && c.Holds(img) && n <= c.Count()
    ensures DataStatusUpTo(c, img, n) == Ok <==>
            forall i :: 0 <= i < n ==>
              FieldStatus(c.platform, c.At(i), Field(img, c.At(i))) == Ok
  {
    if n == 0 {
    } else {
      DataStatusMeaning(c, img, n - 1);
    }
  }

  lemma ValidMeansOk(c: Setup, img: bytes)
    requires c.Valid() && c.Holds(img)
    ensures DataStatus(c, img) == Ok <==> FieldsValid(c, img)
  {
    DataStatusMeaning(c, img, c.Count());
  }

  ghost predicate FloatsSupported(c: Setup)
    requires c.Valid()
  {
    forall i :: 0 <= i < c.Count() ==> c.At(i).Kind() == Float32 ==> c.platform.FloatSupported()
  }

  // ----- stores into one field

  /** A store into one field leaves every other field alone. */
  lemma StoreFrame(c: Setup, img: bytes, i: nat, v: bytes)
    requires c.Valid() && c.Holds(img) && i < c.Count()
    requires |v| == c.At(i).size
    ensures Field(Splice(img, c.At(i).offset, v), c.At(i)) == v
    ensures forall j :: 0 <= j < c.Count() && j != i ==>
              Field(Splice(img, c.At(i).offset, v), c.At(j)) == Field(img, c.At(j))
  {
    var e := c.At(i);
    SpliceInside(img, e.offset, v);
    forall j | 0 <= j < c.Count() && j != i
      ensures Field(Splice(img, e.offset, v), c.At(j)) == Field(img, c.At(j))
    {
      var f := c.At(j);
      assert if i < j then Apart(c.schema, i, j) else Apart(c.schema, j, i);
      SpliceOutside(img, e.offset, v, f.offset, f.offset + f.size);
    }
  }

  // ----- images painted field by field on a zero background

  ghost predicate Parts(c: Setup, parts: seq<bytes>)
    requires c.Valid()
  {
    && |parts| == c.Count()
    && forall i :: 0 <= i < |parts| ==> |parts[i]| == c.At(i).size
  }

  function Paint(c: Setup, parts: seq<bytes>, n: nat): (img: bytes)
    requires c.Valid() && Parts(c, parts) && n <= c.Count()
    ensures c.Holds(img)
  {
    if n == 0 then Fill(c.schema.dataSize, 0)
    else Splice(Paint(c, parts, n - 1), c.At(n - 1).offset, parts[n - 1])
  }

  lemma PaintMore(c: Setup, parts: seq<bytes>, n: nat)
    requires c.Valid() && Parts(c, parts) && n < c.Count()
    ensures Paint(c, parts, n + 1) == Splice(Paint(c, parts, n), c.At(n).offset, parts[n])
  {
  }

  ghost predicate Covers(e: Entry, k: nat) {
    e.offset <= k < e.offset + e.size
  }

  /** Byte k belongs to none of the first n fields. */
  ghost predicate Uncovered(c: Setup, n: nat, k: nat)
    requires c.Valid() && n <= c.Count()
  {
    forall i :: 0 <= i < n ==> !Covers(c.At(i), k)
  }

  /** Fields do not overlap, so every field shows its own part. */
  lemma {:induction false} PaintShows(c: Setup, parts: seq<bytes>, n: nat)
    requires c.Valid() && Parts(c, parts) && n <= c.Count()
    ensures forall i :: 0 <= i < n ==> Field(Paint(c, parts, n), c.At(i)) == parts[i]
  {
    if n == 0 {
    } else {
      PaintShows(c, parts, n - 1);
      StoreFrame(c, Paint(c, parts, n - 1), n - 1, parts[n - 1]);
    }
  }

  lemma {:induction false} PaintBackground(c: Setup, parts: seq<bytes>, n: nat, k: nat)
    requires c.Valid() && Parts(c, parts) && n <= c.Count()
    requires k < c.schema.dataSize && Uncovered(c, n, k)
    ensures Paint(c, parts, n)[k] == 0
  {
    if n == 0 {
    } else {
      assert !Covers(c.At(n - 1), k);
      PaintBackground(c, parts, n - 1, k);
    }
  }

  lemma PaintMeaning(c: Setup, parts: seq<bytes>)
    requires c.Valid() && Parts(c, parts)
    ensures forall i :: 0 <= i < c.Count() ==> Field(Paint(c, parts, c.Count()), c.At(i)) == parts[i]
    ensures Background(c, Paint(c, parts, c.Count()))
  {
    PaintShows(c, parts, c.Count());
    forall k | 0 <= k < c.schema.dataSize && Uncovered(c, c.Count(), k)
      ensures Paint(c, parts, c.Count())[k] == 0
    {
      PaintBackground(c, parts, c.Count(), k);
    }
  }

  ghost predicate Background(c: Setup, img: bytes)
    requires c.Valid() && c.Holds(img)
  {
    forall k :: 0 <= k < |img| && Uncovered(c, c.Count(), k) ==> img[k] == 0
  }

  /** Fields and a zero background determine the image. */
  lemma ImageDetermined(c: Setup, a: bytes, b: bytes)
    requires c.Valid() && c.Holds(a) && c.Holds(b)
    requires Background(c, a) && Background(c, b)
    requires forall i :: 0 <= i < c.Count() ==> Field(a, c.At(i)) == Field(b, c.At(i))
    ensures a == b
  {
    forall k | 0 <= k < |a|
      ensures a[k] == b[k]
    {
      if !Uncovered(c, c.Count(), k) {
        var i :| 0 <= i < c.Count() && Covers(c.At(i), k);
        var e := c.At(i);
        assert Field(a, e)[k - e.offset] == a[k] && Field(b, e)[k - e.offset] == b[k];
      }
    }
  }

  // ----- the canonical image

  /** The field as storage remembers it: nothing survives after a text's end. */
  function CanonField(e: Entry, f: bytes): (r: bytes)
    requires |f| == e.size
    ensures |r| == e.size
  {
    if e.Kind() == Text then f[..TextLen(f)] + Fill(|f| - TextLen(f), 0) else f
  }

  function CanonParts(c: Setup, img: bytes): (parts: seq<bytes>)
    requires c.Valid() && c.Holds(img)
    ensures Parts(c, parts)
    ensures forall i :: 0 <= i < c.Count() ==>
              parts[i] == CanonField(c.At(i), Field(img, c.At(i)))
  {
    seq(c.Count(), i requires 0 <= i < c.Count() =>
      CanonField(c.At(i), Field(img, c.At(i))))
  }

  function Canon(c: Setup, img: bytes): (r: bytes)
    requires c.Valid() && c.Holds(img)
    ensures c.Holds(r)
  {
    Paint(c, CanonParts(c, img), c.Count())
  }

  /** The canonical field of a text: the text, then zeros. */
  lemma CanonText(e: Entry, f: bytes)
    requires |f| == e.size && e.Kind() == Text
    ensures TextLen(CanonField(e, f)) == TextLen(f)
    ensures CanonField(e, f)[..TextLen(f)] == f[..TextLen(f)]
    ensures forall k :: TextLen(f) <= k < |f| ==> CanonField(e, f)[k] == 0
  {
    hide KindOf, TextLen;
    TextLenUnique(CanonField(e, f), TextLen(f));
  }

  lemma CanonFieldKeepsText(e: Entry, f: bytes)
    requires |f| == e.size
    ensures e.Kind() == Text ==> TextLen(CanonField(e, f)) == TextLen(f)
    ensures CanonField(e, f)[..TextLen(f)] == f[..TextLen(f)]
    ensures CanonField(e, CanonField(e, f)) == CanonField(e, f)
  {
    if e.Kind() == Text {
      hide KindOf, TextLen, CanonField;
      var once := CanonField(e, f);
      CanonText(e, f);
      CanonText(e, once);
      assert CanonField(e, once)[..TextLen(f)] == once[..TextLen(f)];
      assert forall k :: 0 <= k < TextLen(f) ==> CanonField(e, once)[k] == CanonField(e, once)[..TextLen(f)][k];
    }
  }

  /** Every field value survives; text tails and padding become zero. */
  lemma CanonMeaning(c: Setup, img: bytes)
    requires c.Valid() && c.Holds(img)
    ensures Background(c, Canon(c, img))
    ensures forall i :: 0 <= i < c.Count() ==>
              Field(Canon(c, img), c.At(i)) == CanonField(c.At(i), Field(img, c.At(i)))
    ensures FieldsValid(c, Canon(c, img)) <==> FieldsValid(c, img)
    ensures Canon(c, Canon(c, img)) == Canon(c, img)
  {
    var canon := Canon(c, img);
    PaintMeaning(c, CanonParts(c, img));
    forall i | 0 <= i < c.Count()
      ensures CanonField(c.At(i), Field(canon, c.At(i))) == Field(canon, c.At(i))
      ensures FieldStatus(c.platform, c.At(i), Field(canon, c.At(i)))
           == FieldStatus(c.platform, c.At(i), Field(img, c.At(i)))
    {
      CanonFieldKeepsText(c.At(i), Field(img, c.At(i)));
    }
    assert CanonParts(c, canon) == CanonParts(c, img);
  }

  // ----- the default image

  function DefaultField(e: Entry): (f: bytes)
    requires PresetFits(e)
    ensures |f| == e.size
  {
    match e.preset
    case Absent(_) => Fill(e.size, 0)
    case Given(value) => value + Fill(e.size - |value|, 0)
  }

  function DefaultParts(c: Setup): (parts: seq<bytes>)
    requires c.Valid()
    ensures Parts(c, parts)
    ensures forall i :: 0 <= i < c.Count() ==> parts[i] == DefaultField(c.At(i))
  {
    seq(c.Count(), i requires 0 <= i < c.Count() => DefaultField(c.At(i)))
  }

  function Defaults(c: Setup): (img: bytes)
    requires c.Valid()
    ensures c.Holds(img)
  {
    Paint(c, DefaultParts(c), c.Count())
  }

  lemma DefaultsMeaning(c: Setup)
    requires c.Valid()
    ensures Background(c, Defaults(c))
    ensures forall i :: 0 <= i < c.Count() ==> Field(Defaults(c), c.At(i)) == DefaultField(c.At(i))
  {
    PaintMeaning(c, DefaultParts(c));
  }

  /** What validation leaves open about a default value. */
  predicate DefaultUsable(p: Platform, e: Entry)
    requires PresetFits(e) && e.size > 0
  {
    match e.Kind()
    case Bool => e.preset.Given? ==> e.preset.value[0] == 0 || e.preset.value[0] == 1
    case Float32 => p.FloatSupported()
    case _ => true
  }

  ghost predicate DefaultsUsable(c: Setup)
    requires c.Valid()
  {
    forall i :: 0 <= i < c.Count() ==> DefaultUsable(c.platform, c.At(i))
  }

  /** The default image is valid exactly when bool defaults are 0 or 1 and
      float fields are supported by the machine. */
  lemma DefaultsValidExactly(c: Setup)
    requires c.Valid()
    ensures FieldsValid(c, Defaults(c)) <==> DefaultsUsable(c)
  {
    DefaultsMeaning(c);
    forall i | 0 <= i < c.Count()
      ensures
        FieldStatus(c.platform, c.At(i), Field(Defaults(c), c.At(i))) == Ok <==> DefaultUsable(c.platform, c.At(i))
    {
      var e := c.At(i);
      if e.Kind() == Text {
        DefaultTextEnds(e);
      }
    }
  }

  lemma DefaultTextEnds(e: Entry)
    requires PresetFits(e) && e.Kind() == Text && e.size > 0
    ensures TextLen(DefaultField(e)) < e.size
  {
    assert DefaultField(e)[e.size - 1] == 0;
  }
}
