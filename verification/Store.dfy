// The field store: what the getters and setters do to the data image, the laws
// they obey, and the validity that every use of the interface keeps.

module Store {
  import opened Words
  import opened Schema
  import opened Image
  import opened Payload
  import opened Misread
  import opened Record
  import opened Save
  import opened Runs

  predicate BoolByte(b: u8) {
    b == 0 || b == 1
  }

  predicate ScalarCode(code: u8) {
    ExpectedSize(KindOf(code)) != 0
  }

  // ----- when a store is refused

  function SetTextStatus(c: Setup, i: nat, v: bytes): Status
    requires c.Valid()
  {
    if i >= c.Count() then ErrNotFound
    else if c.At(i).Kind() != Text then ErrType
    else if |v| + 1 > c.At(i).size then ErrSize
    else if 0 in v then ErrInvalid
    else Ok
  }

  function SetStatus(c: Setup, i: nat, v: bytes): Status
    requires c.Valid()
  {
    if i >= c.Count() then ErrNotFound
    else if c.At(i).Kind() == Text then SetTextStatus(c, i, v)
    else if |v| != c.At(i).size then ErrSize
    else if c.At(i).Kind() == Bool && !BoolByte(v[0]) then ErrInvalid
    else Ok
  }

  function SetScalarStatus(c: Setup, i: nat, code: u8, v: bytes): Status
    requires c.Valid()
  {
    if i >= c.Count() then ErrNotFound
    else if c.At(i).code != code then ErrType
    else if |v| != c.At(i).size then ErrSize
    else if code == TYPE_FLOAT32 && !c.platform.FloatSupported() then ErrUnsupported
    else if code == TYPE_BOOL && !BoolByte(v[0]) then ErrInvalid
    else Ok
  }

  function SetBlobStatus(c: Setup, i: nat, v: bytes): Status
    requires c.Valid()
  {
    if i >= c.Count() then ErrNotFound
    else if c.At(i).Kind() != Blob then ErrType
    else if |v| != c.At(i).size then ErrSize
    else Ok
  }

  // ----- what a store leaves

  /** The field after v was stored: texts are padded with NULs. */
  function Stored(e: Entry, v: bytes): (f: bytes)
    requires |v| <= e.size
    ensures |f| == e.size
  {
    v + Fill(e.size - |v|, 0)
  }

  /** The image after a store that was refused with status, or not. */
  function PutIf(c: Setup, img: bytes, status: Status, i: nat, v: bytes): (r: bytes)
    requires c.Valid() && c.Holds(img)
    requires status == Ok ==> i < c.Count() && |v| <= c.At(i).size
    ensures c.Holds(r)
  {
    if status == Ok then Splice(img, c.At(i).offset, Stored(c.At(i), v)) else img
  }

  function ResetField(c: Setup, img: bytes, i: nat): (r: bytes)
    requires c.Valid() && c.Holds(img) && i < c.Count()
    ensures c.Holds(r)
  {
    Splice(img, c.At(i).offset, DefaultField(c.At(i)))
  }

  // ----- laws

  /** An accepted store can be read back; texts end where the value ended. */
  lemma SetThenGet(c: Setup, img: bytes, i: nat, v: bytes)
    requires c.Valid() && c.Holds(img)
    requires SetStatus(c, i, v) == Ok
    ensures
      var e := c.At(i);
      var f := Field(PutIf(c, img, Ok, i, v), e);
      && (e.Kind() != Text ==> f == v)
      && (e.Kind() == Text ==> TextLen(f) == |v| && f[..TextLen(f)] == v && FieldStatus(c.platform, e, f) == Ok)
      && (forall j :: 0 <= j < c.Count() && j != i ==> Field(PutIf(c, img, Ok, i, v), c.At(j)) == Field(img, c.At(j)))
  {
    var e := c.At(i);
    StoreFrame(c, img, i, Stored(e, v));
    if e.Kind() == Text {
      TextLenUnique(Stored(e, v), |v|);
    }
  }

  function ResetAll(c: Setup, img: bytes, order: seq<nat>): (r: bytes)
    requires c.Valid() && c.Holds(img) && forall k :: 0 <= k < |order| ==> order[k] < c.Count()
    ensures c.Holds(r)
  {
    if order == [] then img else ResetField(c, ResetAll(c, img, order[..|order| - 1]), order[|order| - 1])
  }

  /** Resetting fields in any order, with or without repetition, gives each of
      them its default and leaves the others alone. */
  lemma {:induction false} ResetsInAnyOrder(c: Setup, img: bytes, order: seq<nat>, i: nat)
    requires c.Valid() && c.Holds(img) && i < c.Count()
    requires forall k :: 0 <= k < |order| ==> order[k] < c.Count()
    ensures Field(ResetAll(c, img, order), c.At(i))
         == if i in order then Field(Defaults(c), c.At(i)) else Field(img, c.At(i))
  {
    if order == [] {
    } else {
      var front, last := order[..|order| - 1], order[|order| - 1];
      assert order == front + [last];
      ResetsInAnyOrder(c, img, front, i);
      StoreFrame(c, ResetAll(c, img, front), last, DefaultField(c.At(last)));
      DefaultsMeaning(c);
    }
  }

  // ----- runs of the interface

  /** One call of the interface; persistence calls carry the storage they meet. */
  datatype Call =
    | Set(index: nat, value: bytes)
    | SetScalar(index: nat, code: u8, value: bytes)
    | SetText(index: nat, value: bytes)
    | SetBlob(index: nat, value: bytes)
    | Reset(index: nat)
    | LoadDefaults
    | LoadFrom(g: Geometry, mem: bytes)
    | SaveTo(g: Geometry, mem: bytes, budget: nat)

  /** The typed setters exist for scalar types; storage is as large as claimed. */
  predicate Legal(call: Call) {
    match call
    case SetScalar(_, code, _) => ScalarCode(code)
    case SaveTo(g, mem, _) => g.storageSize <= |mem|
    case _ => true
  }

  ghost function Apply(c: Setup, img: bytes, call: Call): (r: bytes)
    requires c.Valid() && c.Holds(img) && Legal(call)
    ensures c.Holds(r)
  {
    match call
    case Set(i, v) => PutIf(c, img, SetStatus(c, i, v), i, v)
    case SetScalar(i, code, v) => PutIf(c, img, SetScalarStatus(c, i, code, v), i, v)
    case SetText(i, v) => PutIf(c, img, SetTextStatus(c, i, v), i, v)
    case SetBlob(i, v) => PutIf(c, img, SetBlobStatus(c, i, v), i, v)
    case Reset(i) => if i < c.Count() then ResetField(c, img, i) else img
    case LoadDefaults => Defaults(c)
    case LoadFrom(g, mem) => Load(c, g, mem, img).image
    case SaveTo(g, mem, budget) => SaveResult(c, g, mem, img, budget).image
  }

  lemma StoreKeepsValid(c: Setup, img: bytes, i: nat, f: bytes)
    requires c.Valid() && c.Holds(img) && i < c.Count() && |f| == c.At(i).size
    requires FieldsValid(c, img)
    requires FieldStatus(c.platform, c.At(i), f) == Ok
    ensures FieldsValid(c, Splice(img, c.At(i).offset, f))
  {
    hide Splice, FieldStatus;
    StoreFrame(c, img, i, f);
  }

  lemma PutKeepsValid(c: Setup, img: bytes, status: Status, i: nat, v: bytes)
    requires c.Valid() && c.Holds(img) && FieldsValid(c, img)
    requires status == Ok ==> SetStatus(c, i, v) == Ok
    ensures status == Ok ==> i < c.Count() && |v| <= c.At(i).size
    ensures FieldsValid(c, PutIf(c, img, status, i, v))
  {
    if status == Ok {
      var e := c.At(i);
      assert FieldStatus(c.platform, e, Field(img, e)) == Ok;
      if e.Kind() == Text {
        TextLenUnique(Stored(e, v), |v|);
      }
      StoreKeepsValid(c, img, i, Stored(e, v));
    }
  }

  lemma DefaultFieldValid(c: Setup, i: nat)
    requires c.Valid() && DefaultsUsable(c) && i < c.Count()
    ensures FieldStatus(c.platform, c.At(i), DefaultField(c.At(i))) == Ok
  {
    DefaultsMeaning(c);
    DefaultsValidExactly(c);
  }

  /** What a call asks for so that valid data stays valid: one that brings in
      defaults needs usable ones, and a save needs data without a bool after a
      text too long for its length word. */
  ghost predicate Careful(c: Setup, img: bytes, call: Call)
    requires c.Valid() && c.Holds(img)
  {
    match call
    case Reset(_) => DefaultsUsable(c)
    case LoadDefaults => DefaultsUsable(c)
    case LoadFrom(_, _) => DefaultsUsable(c)
    case SaveTo(_, _, _) => BoolsFirst(c, img)
    case _ => true
  }

  /** Every such call, accepted or refused, leaves valid data valid. */
  lemma CallKeepsValid(c: Setup, img: bytes, call: Call)
    requires c.Valid() && c.Holds(img) && Legal(call)
    requires Careful(c, img, call)
    requires FieldsValid(c, img)
    ensures FieldsValid(c, Apply(c, img, call))
  {
    hide FieldsValid, Defaults, BoolsFirst, SaveResult;
    match call
    case Set(i, v) => PutKeepsValid(c, img, SetStatus(c, i, v), i, v);
    case SetScalar(i, code, v) => PutKeepsValid(c, img, SetScalarStatus(c, i, code, v), i, v);
    case SetText(i, v) => PutKeepsValid(c, img, SetTextStatus(c, i, v), i, v);
    case SetBlob(i, v) => PutKeepsValid(c, img, SetBlobStatus(c, i, v), i, v);
    case Reset(i) =>
      if i < c.Count() {
        DefaultFieldValid(c, i);
        StoreKeepsValid(c, img, i, DefaultField(c.At(i)));
      }
    case LoadDefaults => DefaultsValidExactly(c);
    case LoadFrom(g, mem) => LoadKeepsValid(c, g, mem, img);
    case SaveTo(g, mem, budget) => SaveKeepsValid(c, g, mem, img, budget);
  }

  lemma LoadKeepsValid(c: Setup, g: Geometry, mem: bytes, img: bytes)
    requires c.Valid() && c.Holds(img) && DefaultsUsable(c) && FieldsValid(c, img)
    ensures FieldsValid(c, Load(c, g, mem, img).image)
  {
    hide LoadSlot, FieldsValid, Defaults, Preferred, Fallback;
    if g.Usable() {
      hide Load;
      LoadMeaning(c, g, mem, img);
      DefaultsValidExactly(c);
      if Load(c, g, mem, img).status == Ok {
        var slot: Slot :| Decodes(c, g, mem, slot) && Load(c, g, mem, img).image == LoadSlot(c, g, mem, slot, true, []).image;
        LoadedIsValid(c, g, mem, slot, true);
      }
    }
  }

  ghost function ApplyAll(c: Setup, img: bytes, calls: seq<Call>): (r: bytes)
    requires c.Valid() && c.Holds(img) && forall k :: 0 <= k < |calls| ==> Legal(calls[k])
    ensures c.Holds(r)
  {
    if calls == [] then img else Apply(c, ApplyAll(c, img, calls[..|calls| - 1]), calls[|calls| - 1])
  }

  /** No save of the run meets data with a bool after a text too long. */
  ghost predicate SavesCareful(c: Setup, calls: seq<Call>)
    requires c.Valid() && forall k :: 0 <= k < |calls| ==> Legal(calls[k])
  {
    forall k :: 0 <= k < |calls| && calls[k].SaveTo? ==> BoolsFirst(c, ApplyAll(c, Defaults(c), calls[..k]))
  }

  /** From the defaults on, data stays valid over any sequence of calls, provided
      bool defaults are 0 or 1, floats are supported where used, and no save
      meets a bool after a text too long. */
  lemma {:induction false} UseKeepsValid(c: Setup, calls: seq<Call>)
    requires c.Valid() && forall k :: 0 <= k < |calls| ==> Legal(calls[k])
    requires DefaultsUsable(c) && SavesCareful(c, calls)
    ensures DataStatus(c, ApplyAll(c, Defaults(c), calls)) == Ok
  {
    hide Apply, Defaults, DataStatus, FieldsValid, BoolsFirst, DefaultsUsable;
    ValidMeansOk(c, ApplyAll(c, Defaults(c), calls));
    if calls == [] {
      DefaultsValidExactly(c);
    } else {
      var front, last := calls[..|calls| - 1], calls[|calls| - 1];
      forall k | 0 <= k < |front| && front[k].SaveTo?
        ensures BoolsFirst(c, ApplyAll(c, Defaults(c), front[..k]))
      {
        assert calls[k].SaveTo? && calls[..k] == front[..k];
      }
      UseKeepsValid(c, front);
      ValidMeansOk(c, ApplyAll(c, Defaults(c), front));
      CallKeepsValid(c, ApplyAll(c, Defaults(c), front), last);
    }
  }

  /** In particular if every text is at most 65535 long whenever data is saved. */
  lemma ShortTextsKeepValid(c: Setup, calls: seq<Call>)
    requires c.Valid() && forall k :: 0 <= k < |calls| ==> Legal(calls[k])
    requires DefaultsUsable(c)
    requires forall k :: 0 <= k < |calls| && calls[k].SaveTo? ==> ShortTexts(c, ApplyAll(c, Defaults(c), calls[..k]))
    ensures DataStatus(c, ApplyAll(c, Defaults(c), calls)) == Ok
  {
    hide ApplyAll, Defaults, DataStatus, BoolsFirst, ShortTexts, DefaultsUsable;
    forall k | 0 <= k < |calls| && calls[k].SaveTo?
      ensures BoolsFirst(c, ApplyAll(c, Defaults(c), calls[..k]))
    {
      ShortMeansBoolsFirst(c, ApplyAll(c, Defaults(c), calls[..k]));
    }
    UseKeepsValid(c, calls);
  }

  /** No bool comes after a text field that could outgrow its length word. */
  ghost predicate BoolsBeforeBigTexts(c: Setup)
    requires c.Valid()
  {
    forall i, j :: 0 <= i < j < c.Count() && c.At(j).Kind() == Bool && c.At(i).Kind() == Text ==> c.At(i).size <= 0x1_0000
  }

  lemma BigTextsLast(c: Setup, img: bytes)
    requires c.Valid() && c.Holds(img) && FieldsValid(c, img) && BoolsBeforeBigTexts(c)
    ensures BoolsFirst(c, img)
  {
    hide WellFormed, TextLen;
    forall i, j | 0 <= i < j < c.Count() && c.At(j).Kind() == Bool
      ensures ShortText(c.At(i), Field(img, c.At(i)))
    {
      assert FieldStatus(c.platform, c.At(i), Field(img, c.At(i))) == Ok;
    }
  }

  /** For such a schema no save needs care. */
  lemma {:induction false} SchemaKeepsValid(c: Setup, calls: seq<Call>)
    requires c.Valid() && forall k :: 0 <= k < |calls| ==> Legal(calls[k])
    requires DefaultsUsable(c) && BoolsBeforeBigTexts(c)
    ensures DataStatus(c, ApplyAll(c, Defaults(c), calls)) == Ok
  {
    hide Apply, Defaults, DataStatus, FieldsValid, BoolsFirst, DefaultsUsable, BoolsBeforeBigTexts;
    ValidMeansOk(c, ApplyAll(c, Defaults(c), calls));
    if calls == [] {
      DefaultsValidExactly(c);
    } else {
      var front, last := calls[..|calls| - 1], calls[|calls| - 1];
      SchemaKeepsValid(c, front);
      ValidMeansOk(c, ApplyAll(c, Defaults(c), front));
      BigTextsLast(c, ApplyAll(c, Defaults(c), front));
      CallKeepsValid(c, ApplyAll(c, Defaults(c), front), last);
    }
  }
}
