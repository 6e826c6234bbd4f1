/** Writing values into a buffer of exactly the measured size. */
module Encoder {
  import opened Basics
  import opened Values
  import opened BigEndian
  import opened Heads
  import opened Encoding

  /** The bytes that carry `l` behind the type bits in `b`. */
  function ValueBytes(b: byte, l: u32): seq<byte> {
    if l == 0 then [b]
    else if l < 0x400 then [(l / 0x100 + b) % 0x100, l % 0x100]
    else if l < 0x2_0000 then [(l / 0x1_0000 + b + 4) % 0x100, l / 0x100 % 0x100, l % 0x100]
    else if l < 0x100_0000 then [(b + 6) % 0x100, l / 0x1_0000 % 0x100, l / 0x100 % 0x100, l % 0x100]
    else [(b + 7) % 0x100, l / 0x100_0000 % 0x100, l / 0x1_0000 % 0x100, l / 0x100 % 0x100, l % 0x100]
  }

  lemma DigitStep(v: nat, n: nat)
    requires n > 0
    ensures Digits(v, n) == Digits(v / 0x100, n - 1) + [v % 0x100]
    ensures Digits(v, 0) == []
  {
  }

  // Four digits, from a value and its three quotients.
  lemma DigitsOf(v: nat, v1: nat, v2: nat, v3: nat)
    requires v1 == v / 0x100 && v2 == v1 / 0x100 && v3 == v2 / 0x100
    ensures Digits(v, 1) == [v % 0x100]
    ensures Digits(v, 2) == [v1 % 0x100, v % 0x100]
    ensures Digits(v, 3) == [v2 % 0x100, v1 % 0x100, v % 0x100]
    ensures Digits(v, 4) == [v3 % 0x100, v2 % 0x100, v1 % 0x100, v % 0x100]
  {
    hide Digits;
    DigitStep(v3, 1);
    DigitStep(v2, 1);
    DigitStep(v2, 2);
    DigitStep(v1, 1);
    DigitStep(v1, 2);
    DigitStep(v1, 3);
    DigitStep(v, 1);
    DigitStep(v, 2);
    DigitStep(v, 3);
    DigitStep(v, 4);
  }

  // What is left of a value above its digits.
  lemma TopOfBytes(v: u32)
    ensures Top(v, 1) == v / 0x100 && Top(v, 2) == v / 0x1_0000
  {
    DivTwice(v);
    assert Top(v / 0x100, 1) == Top(v / 0x100 / 0x100, 0) == v / 0x100 / 0x100;
  }

  // A first byte of small bits, as the writer adds it up.
  lemma FirstByte(typ: kind, bits: nat)
    requires bits < 8
    ensures (bits + InitialByte(typ, 24)) % 0x100 == InitialByte(typ, 24 + bits)
  {
  }

  lemma ShortValue(typ: kind, v: u32)
    requires 24 <= v < 0x2_0000
    ensures ValueBytes(InitialByte(typ, 24), v) == HeadBytes(typ, v)
  {
    hide Digits, Top, InitialByte;
    DivTwice(v);
    DigitsOf(v, v / 0x100, v / 0x1_0000, v / 0x100_0000);
    TopOfBytes(v);
    TopIsSmall(v);
    if v < 0x400 {
      FirstByte(typ, v / 0x100);
    } else {
      FirstByte(typ, v / 0x1_0000 + 4);
    }
  }

  lemma LongValue(typ: kind, v: u32)
    requires v >= 0x2_0000
    ensures ValueBytes(InitialByte(typ, 24), v) == HeadBytes(typ, v)
  {
    hide Digits, Top, InitialByte;
    DivTwice(v);
    DigitsOf(v, v / 0x100, v / 0x1_0000, v / 0x100_0000);
    TopIsSmall(v);
    FirstByte(typ, 6);
    FirstByte(typ, 7);
  }

  // The branches of the writer give the digits of the value.
  lemma ValueBytesAreHead(typ: kind, v: u32)
    requires v >= 24
    ensures ValueBytes(InitialByte(typ, 24), v) == HeadBytes(typ, v)
  {
    hide ValueBytes, HeadBytes;
    if v < 0x2_0000 {
      ShortValue(typ, v);
    } else {
      LongValue(typ, v);
    }
  }

  lemma DivTwice(v: u32)
    ensures v / 0x1_0000 == v / 0x100 / 0x100
    ensures v / 0x100_0000 == v / 0x100 / 0x100 / 0x100
  {
  }

  class EncoderState {
    const data: array<byte>
    var index: nat

    ghost predicate Valid()
      reads this
    {
      index <= data.Length
    }

    ghost function Written(): seq<byte>
      reads this, data
      requires Valid()
    {
      data[..index]
    }

    constructor (size: nat)
      ensures Valid() && fresh(data) && data.Length == size && index == 0
      ensures forall k :: 0 <= k < size ==> data[k] == 0
    {
      data := new byte[size](_ => 0);
      index := 0;
    }

    method WriteBytes(b: seq<byte>) returns (error: Option<Error>)
      requires Valid()
      modifies this`index, data
      ensures Valid()
      ensures error.None? <==> old(index) + |b| <= data.Length
      ensures Written() == old(Written()) + if error.None? then b else []
    {
      if data.Length < index + |b| {
        return Some(IncompleteStream);
      }
      forall k | 0 <= k < |b| {
        data[index + k] := b[k];
      }
      index := index + |b|;
      error := None;
    }

    method WriteValue(b: byte, l: u32) returns (error: Option<Error>)
      requires Valid()
      modifies this`index, data
      ensures Valid()
      ensures error.None? <==> old(index) + |ValueBytes(b, l)| <= data.Length
      ensures Written() == old(Written()) + if error.None? then ValueBytes(b, l) else []
    {
      hide ValueBytes;
      error := WriteBytes(ValueBytes(b, l));
    }

    method WriteInitial(parseType: kind, parseValue: u32) returns (error: Option<Error>)
      requires Valid()
      modifies this`index, data
      ensures Valid()
      ensures error.None? <==> old(index) + MeasureExtraValue(parseValue) <= data.Length
      ensures Written() == old(Written()) + if error.None? then HeadBytes(parseType, parseValue) else []
    {
      hide HeadBytes, ValueBytes;
      var b := InitialByte(parseType, if parseValue >= 24 then 24 else parseValue);
      if parseValue >= 24 {
        ValueBytesAreHead(parseType, parseValue);
        error := WriteValue(b, parseValue);
      } else {
        assert ValueBytes(b, 0) == HeadBytes(parseType, parseValue) by { ShortHead(parseType, parseValue); }
        error := WriteValue(b, 0);
      }
    }

    /** Writes a tree; it fails when a length does not fit 32 bits or the buffer runs out. */
    method EncodeSeq(v: DbufValSeq) returns (error: Option<Error>)
      requires Valid()
      modifies this`index, data
      ensures Valid() && index >= old(index)
      ensures error.None? <==> Sized(v) && old(index) + |Enc(v)| <= data.Length
      ensures error.None? ==> Written() == old(Written()) + Enc(v)
      decreases v
    {
      hide HeadBytes, Enc, EncAll, MeasureAll, MeasureExtraValue, Sized, AllSized, ParseValue;
      SizedParts(v);
      var parseValue := v.val.value;
      var bytes := v.val.Bytes();
      if |bytes| != 0 {
        if |bytes| > MAX_U32 {
          return Some(LengthOverflow);
        }
        parseValue := |bytes|;
      }
      if v.Nested? {
        var size := Measure(v, false);
        if size.Err? {
          return Some(size.error);
        }
        if size.value > MAX_U32 {
          return Some(LengthOverflow);
        }
        parseValue := size.value;
      }
      if Sized(v) {
        EncParts(v);
      }
      error := WriteInitial(v.val.typ, parseValue);
      if error.Some? {
        return;
      }
      if v.val.slice.Some? {
        error := WriteBytes(bytes);
        if error.Some? {
          return;
        }
      }
      if v.Nested? {
        error := EncodeAll(v.sequence);
      }
    }

    /** The loop that writes values in a row. */
    method EncodeAll(vs: seq<DbufValSeq>) returns (error: Option<Error>)
      requires Valid()
      modifies this`index, data
      ensures Valid() && index >= old(index)
      ensures error.None? <==> AllSized(vs) && old(index) + |EncAll(vs)| <= data.Length
      ensures error.None? ==> Written() == old(Written()) + EncAll(vs)
      decreases vs
    {
      hide Enc, EncAll, Sized;
      EncAllStart(vs);
      for i := 0 to |vs|
        invariant Valid() && index >= old(index)
        invariant AllSized(vs[..i]) && old(index) + |EncAll(vs[..i])| == index
        invariant Written() == old(Written()) + EncAll(vs[..i])
      {
        error := EncodeSeq(vs[i]);
        EncAllNext(vs, i);
        if error.Some? {
          if AllSized(vs) {
            EncAllPrefix(vs, i + 1);
          }
          return;
        }
      }
      assert vs[..|vs|] == vs;
      error := None;
    }
  }

  lemma SizedParts(v: DbufValSeq)
    ensures Sized(v) <==>
      && |v.val.Bytes()| <= MAX_U32
      && (v.Nested? ==> MeasureAll(v.sequence).Ok? && MeasureAll(v.sequence).value <= MAX_U32 && AllSized(v.sequence))
    ensures Sized(v) ==> ParseValue(v) == if v.Nested? then MeasureAll(v.sequence).value
                                          else if v.val.Bytes() != [] then |v.val.Bytes()| else v.val.value
  {
  }

  // The three parts in which a tree is written.
  lemma EncParts(v: DbufValSeq)
    requires Sized(v)
    ensures Enc(v) == HeadBytes(v.val.typ, ParseValue(v)) + v.val.Bytes()
              + (if v.Nested? then EncAll(v.sequence) else [])
    ensures |Enc(v)| == MeasureExtraValue(ParseValue(v)) + |v.val.Bytes()|
                + (if v.Nested? then |EncAll(v.sequence)| else 0)
  {
  }

  lemma ShortHead(typ: kind, v: u32)
    requires v < 24
    ensures ValueBytes(InitialByte(typ, v), 0) == HeadBytes(typ, v)
  {
  }

  lemma EncAllStart(vs: seq<DbufValSeq>)
    ensures AllSized(vs[..0]) && EncAll(vs[..0]) == []
  {
  }

  lemma EncAllNext(vs: seq<DbufValSeq>, i: nat)
    requires i < |vs| && AllSized(vs[..i])
    ensures AllSized(vs[..i + 1]) <==> Sized(vs[i])
    ensures Sized(vs[i]) ==> EncAll(vs[..i + 1]) == EncAll(vs[..i]) + Enc(vs[i])
    ensures AllSized(vs) ==> AllSized(vs[..i + 1])
  {
    hide Enc, Sized;
    assert vs[..i + 1][..i] == vs[..i] && vs[..i + 1][i] == vs[i];
  }

  // The encoding of a prefix is a prefix of the encoding.
  lemma {:induction false} EncAllPrefix(vs: seq<DbufValSeq>, i: nat)
    requires AllSized(vs) && i <= |vs|
    ensures |EncAll(vs[..i])| <= |EncAll(vs)|
  {
    hide Enc, EncAll, Sized;
    EncAllAppend(vs[..i], vs[i..]);
    assert vs == vs[..i] + vs[i..];
  }

  /** The size of a value, added up over its children. */
  method Measure(v: DbufValSeq, nested: bool) returns (r: Result<nat>)
    ensures r == MeasureValue(v, nested)
    decreases v
  {
    if v.Plain? {
      if v.val.slice.None? {
        return Ok(MeasureExtraValue(v.val.value));
      }
      if |v.val.slice.value| > MAX_U32 {
        return Err(LengthOverflow);
      }
      return Ok(MeasureExtraValue(|v.val.slice.value|) + |v.val.slice.value|);
    }
    var l: nat := 0;
    for i := 0 to |v.sequence|
      invariant MeasureAll(v.sequence[..i]) == Ok(l)
    {
      assert v.sequence[..i + 1][..i] == v.sequence[..i];
      var size := Measure(v.sequence[i], true);
      if size.Err? {
        MeasureAllError(v.sequence, i + 1);
        return size;
      }
      l := l + size.value;
    }
    assert v.sequence[..|v.sequence|] == v.sequence;
    if nested {
      if l > MAX_U32 {
        return Err(LengthOverflow);
      }
      return Ok(MeasureExtraValue(l) + l);
    }
    r := Ok(l);
  }

  // The first failure to measure decides.
  lemma {:induction false} MeasureAllError(vs: seq<DbufValSeq>, i: nat)
    requires i <= |vs| && MeasureAll(vs[..i]).Err?
    ensures MeasureAll(vs) == MeasureAll(vs[..i])
    decreases |vs|
  {
    if i < |vs| {
      assert vs[..|vs| - 1][..i] == vs[..i];
      MeasureAllError(vs[..|vs| - 1], i);
    } else {
      assert vs[..i] == vs;
    }
  }

  /** Encodes a tree into a buffer of the measured size. It succeeds exactly when the tree can be
      measured and the measure is exact, and then the buffer is filled to the last byte. */
  method EncodeFullSeq(v: DbufValSeq) returns (r: Result<seq<byte>>)
    ensures r.Ok? <==> MeasureValue(v, true).Ok? && Exact(v)
    ensures r.Ok? ==> Sized(v) && r.value == Enc(v) && |r.value| == MeasureValue(v, true).value
  {
    hide Enc;
    var size := Measure(v, true);
    if size.Err? {
      return Err(size.error);
    }
    if Exact(v) {
      MeasuredIsSized(v);
    }
    if Sized(v) {
      EncodedSize(v);
    }
    var es := new EncoderState(size.value);
    var error := es.EncodeSeq(v);
    if error.Some? {
      return Err(error.value);
    }
    assert es.data[..] == es.Written();
    r := Ok(es.data[..]);
  }

  /** Encodes values in a row. The argument list is nil when no value is given, and then the
      buffer is measured for one empty value that is never written. */
  method EncodeSequence(vals: Option<seq<DbufValSeq>>) returns (r: Result<seq<byte>>)
    ensures vals.None? ==> r == Ok([0])
    ensures vals.Some? ==> (r.Ok? <==> MeasureAll(vals.value).Ok? && AllExact(vals.value))
    ensures vals.Some? && r.Ok? ==> AllSized(vals.value) && r.value == EncAll(vals.value)
  {
    hide Enc;
    var zero := DbufVal(TYPE_INTEGER, 0, None);
    var size := Measure(if vals.None? then Plain(zero) else Nested(zero, vals.value), false);
    if size.Err? {
      return Err(size.error);
    }
    var es := new EncoderState(size.value);
    if vals.Some? {
      if AllExact(vals.value) {
        AllMeasuredAreSized(vals.value);
      }
      if AllSized(vals.value) {
        AllEncodedSize(vals.value);
      }
      var error := es.EncodeAll(vals.value);
      if error.Some? {
        return Err(error.value);
      }
      assert es.data[..] == es.Written();
    }
    r := Ok(es.data[..]);
    assert vals.None? ==> es.data[..] == [0];
  }
}
