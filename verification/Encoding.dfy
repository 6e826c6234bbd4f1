/** The bytes of a value tree, their size, and what decoding makes of them. */
module Encoding {
  import opened Basics
  import opened Values
  import opened Heads
  import opened Decoder

  // ---------------------------------------------------------------- measuring

  /** The size of a value: with its own head when `nested`, else of its content alone. */
  function MeasureValue(v: DbufValSeq, nested: bool): Result<nat>
    decreases v
  {
    match v
    case Plain(val) =>
      if val.slice.None? then Ok(MeasureExtraValue(val.value))
      else if |val.slice.value| > MAX_U32 then Err(LengthOverflow)
      else Ok(MeasureExtraValue(|val.slice.value|) + |val.slice.value|)
    case Nested(val, sequence) =>
      var l := MeasureAll(sequence);
      if l.Err? || !nested then l
      else if l.value > MAX_U32 then Err(LengthOverflow)
      else Ok(MeasureExtraValue(l.value) + l.value)
  }

  /** The total size of values in a row. */
  function MeasureAll(vs: seq<DbufValSeq>): Result<nat>
    decreases vs
  {
    if vs == [] then Ok(0)
    else
      var front := MeasureAll(vs[..|vs| - 1]);
      if front.Err? then front
      else
        var last := MeasureValue(vs[|vs| - 1], true);
        if last.Err? then last else Ok(front.value + last.value)
  }

  // ----------------------------------------------------------------- encoding

  /** Every length that is written down fits 32 bits. */
  predicate Sized(v: DbufValSeq)
    decreases v
  {
    && |v.val.Bytes()| <= MAX_U32
    && (v.Nested? ==>
          && MeasureAll(v.sequence).Ok? && MeasureAll(v.sequence).value <= MAX_U32
          && forall k :: 0 <= k < |v.sequence| ==> Sized(v.sequence[k]))
  }

  predicate AllSized(vs: seq<DbufValSeq>) {
    forall k :: 0 <= k < |vs| ==> Sized(vs[k])
  }

  /** The value written in the head. */
  function ParseValue(v: DbufValSeq): u32
    requires Sized(v)
  {
    if v.Nested? then MeasureAll(v.sequence).value
    else if v.val.Bytes() != [] then |v.val.Bytes()|
    else v.val.value
  }

  /** What follows the head. */
  function Payload(v: DbufValSeq): seq<byte>
    requires Sized(v)
    decreases v, 0
  {
    v.val.Bytes() + if v.Nested? then EncAll(v.sequence) else []
  }

  function Enc(v: DbufValSeq): seq<byte>
    requires Sized(v)
    decreases v, 1
  {
    HeadBytes(v.val.typ, ParseValue(v)) + Payload(v)
  }

  function EncAll(vs: seq<DbufValSeq>): seq<byte>
    requires AllSized(vs)
    decreases vs
  {
    if vs == [] then [] else EncAll(vs[..|vs| - 1]) + Enc(vs[|vs| - 1])
  }

  // --------------------------------------------------------- exact measurement

  /** The measured size is the encoded size: an empty slice must not hide a long value, and a
      value with children must not have bytes of its own as well. */
  predicate Exact(v: DbufValSeq)
    decreases v
  {
    match v
    case Plain(val) => val.slice == Some([]) ==> val.value < 24
    case Nested(val, sequence) => val.Bytes() == [] && forall k :: 0 <= k < |sequence| ==> Exact(sequence[k])
  }

  predicate AllExact(vs: seq<DbufValSeq>) {
    forall k :: 0 <= k < |vs| ==> Exact(vs[k])
  }

  // What is sized can be measured.
  lemma {:induction false} SizedMeasures(v: DbufValSeq)
    requires Sized(v)
    ensures MeasureValue(v, true).Ok?
  {
  }

  lemma {:induction false} AllSizedMeasures(vs: seq<DbufValSeq>)
    requires AllSized(vs)
    ensures MeasureAll(vs).Ok?
  {
    if vs != [] {
      AllSizedMeasures(vs[..|vs| - 1]);
      SizedMeasures(vs[|vs| - 1]);
    }
  }

  // What can be measured and is exact is sized.
  lemma {:induction false} MeasuredIsSized(v: DbufValSeq)
    requires MeasureValue(v, true).Ok? && Exact(v)
    ensures Sized(v)
    decreases v
  {
    if v.Nested? {
      AllMeasuredAreSized(v.sequence);
    }
  }

  lemma {:induction false} AllMeasuredAreSized(vs: seq<DbufValSeq>)
    requires MeasureAll(vs).Ok? && AllExact(vs)
    ensures AllSized(vs)
    decreases vs
  {
    if vs != [] {
      AllMeasuredAreSized(vs[..|vs| - 1]);
      MeasuredIsSized(vs[|vs| - 1]);
    }
  }

  // The encoding is never shorter than measured, and has the measured size exactly when
  // the value is exact.
  lemma {:induction false} EncodedSize(v: DbufValSeq)
    requires Sized(v)
    ensures MeasureValue(v, true).Ok?
    ensures |Enc(v)| >= MeasureValue(v, true).value
    ensures |Enc(v)| == MeasureValue(v, true).value <==> Exact(v)
    decreases v
  {
    if v.Nested? {
      AllEncodedSize(v.sequence);
    }
  }

  lemma {:induction false} AllEncodedSize(vs: seq<DbufValSeq>)
    requires AllSized(vs)
    ensures MeasureAll(vs).Ok?
    ensures |EncAll(vs)| >= MeasureAll(vs).value
    ensures |EncAll(vs)| == MeasureAll(vs).value <==> AllExact(vs)
    decreases vs
  {
    if vs != [] {
      AllEncodedSize(vs[..|vs| - 1]);
      EncodedSize(vs[|vs| - 1]);
      assert AllExact(vs) <==> AllExact(vs[..|vs| - 1]) && Exact(vs[|vs| - 1]);
    }
  }

  // -------------------------------------------------------- decoding undoes it

  /** The head tells a reader how long the payload is. */
  predicate Decodable(v: DbufValSeq) {
    && Sized(v) && Exact(v)
    && (if HasSlice(v.val.typ) then v.Plain? && v.val.Bytes() == [] ==> v.val.value == 0
        else v.Plain? && v.val.Bytes() == [])
  }

  /** The value in slice form: what decoding returns for it. */
  function SliceForm(v: DbufValSeq): DbufVal
    requires Sized(v)
  {
    if HasSlice(v.val.typ) then DbufVal(v.val.typ, 0, Some(Payload(v)))
    else DbufVal(v.val.typ, v.val.value, None)
  }

  function SliceForms(vs: seq<DbufValSeq>): (r: seq<DbufVal>)
    requires AllSized(vs)
    ensures |r| == |vs|
  {
    seq(|vs|, k requires 0 <= k < |vs| => SliceForm(vs[k]))
  }

  // An item decodes to its slice form and leaves what follows unread.
  lemma DecodeEnc(v: DbufValSeq, rest: seq<byte>)
    requires Decodable(v)
    ensures Decode(Enc(v) + rest).Ok?
    ensures Decode(Enc(v) + rest).value.Val() == SliceForm(v)
    ensures Decode(Enc(v) + rest).value.rest == rest
  {
    hide EncAll;
    if v.Nested? {
      AllEncodedSize(v.sequence);
    }
    var head, tail := HeadBytes(v.val.typ, ParseValue(v)), Payload(v);
    assert Enc(v) + rest == head + (tail + rest);
    ReadHeadBytes(ZERO_INITIAL, v.val.typ, ParseValue(v), tail + rest);
    if HasSlice(v.val.typ) {
      assert |tail| == ParseValue(v);
      assert (tail + rest)[..|tail|] == tail && (tail + rest)[|tail|..] == rest;
    } else {
      assert tail + rest == rest;
    }
  }

  // Encodings in a row, split at the front instead of the back.
  lemma {:induction false} EncAllFront(vs: seq<DbufValSeq>)
    requires AllSized(vs) && vs != []
    ensures EncAll(vs) == Enc(vs[0]) + EncAll(vs[1..])
    decreases |vs|
  {
    hide Enc;
    var front := vs[..|vs| - 1];
    if front != [] {
      EncAllFront(front);
      assert front[1..] == vs[1..][..|vs| - 2];
    } else {
      assert EncAll(front) == [];
    }
  }

  lemma {:induction false} EncAllAppend(us: seq<DbufValSeq>, vs: seq<DbufValSeq>)
    requires AllSized(us) && AllSized(vs)
    ensures EncAll(us + vs) == EncAll(us) + EncAll(vs)
    decreases |vs|
  {
    hide Enc;
    if vs == [] {
      assert us + vs == us;
    } else {
      EncAllAppend(us, vs[..|vs| - 1]);
      assert (us + vs)[..|us + vs| - 1] == us + vs[..|vs| - 1];
    }
  }

  // The parser undoes the printer: a sequence decodes to the slice forms of its values.
  lemma {:induction false} DecodeEncAll(vs: seq<DbufValSeq>)
    requires forall k :: 0 <= k < |vs| ==> Decodable(vs[k])
    ensures AllSized(vs)
    ensures DecodeSequence(EncAll(vs)) == Ok(SliceForms(vs))
    decreases |vs|
  {
    hide Decode, Enc, SliceForm;
    if vs != [] {
      EncAllFront(vs);
      DecodeEnc(vs[0], EncAll(vs[1..]));
      DecodeEncAll(vs[1..]);
      assert SliceForms(vs) == [SliceForm(vs[0])] + SliceForms(vs[1..]);
    }
  }
}
