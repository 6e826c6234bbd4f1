/** What is written to a stream is what is read from it. */
module Contents {
  import opened Basics
  import opened Values
  import opened Heads
  import opened Encoding
  import opened Trees
  import opened Validator
  import opened Grammar
  import opened Acceptance
  import opened Language
  import opened Chunking
  import opened Keys
  import opened Framing
  import opened Streams

  const MARKED: BodyLengthProperties := BodyLengthProperties(None, None, true)

  // -------------------------------------------------------------------- one value

  /** The values that pass as items of a body: valid ones, and empty containers. */
  predicate Framable(v: DbufValSeq) {
    WellFormed(v) && Sized(v) && (EmptyContainer(v) || ValidItem(v))
  }

  predicate EmptyContainer(v: DbufValSeq) {
    v.Nested? && v.sequence == []
  }

  /** The value is the last one of a body checked by `c`. */
  predicate IsLast(c: Core, v: DbufValSeq)
    requires Sized(v)
  {
    !EmptyContainer(v) && ((c.useEndMarker && EndsWithMarker(v)) || (c.useLength && c.length == |Enc(v)|))
  }

  /** The value fits the buffer and the declared total. */
  predicate Fits(c: Core, maxSize: int, v: DbufValSeq)
    requires Sized(v)
  {
    |Enc(v)| <= maxSize && (c.useLength ==> |Enc(v)| <= c.length)
  }

  // The head of an encoded tree.
  lemma EncodedHead(v: DbufValSeq, rest: seq<byte>)
    requires WellFormed(v) && Sized(v)
    ensures var (i, after) := ReadHead(ZERO_INITIAL, Enc(v) + rest);
            && i.missing == 0 && i.typ == v.val.typ && i.value == ParseValue(v) && after == Payload(v) + rest
            && CheckHead(ZERO_INITIAL, Enc(v) + rest) == Done
  {
    hide EncAll, WellFormed, CheckHead, ReadHead, HeadBytes, Payload;
    var head, tail := HeadBytes(v.val.typ, ParseValue(v)), Payload(v);
    assert Enc(v) + rest == head + (tail + rest);
    ReadHeadBytes(ZERO_INITIAL, v.val.typ, ParseValue(v), tail + rest);
    CanonicalExactly(ZERO_INITIAL, Enc(v) + rest);
  }

  // The payload of an encoded tree passes exactly when the tree is framable.
  lemma EncodedPayload(v: DbufValSeq, i: InitialDecode)
    requires WellFormed(v) && Sized(v) && i.typ == v.val.typ && i.value == ParseValue(v)
    ensures Admitted(i, Payload(v)) <==> Framable(v)
    ensures !HasSlice(v.val.typ) ==> Framable(v)
    ensures Framable(v) ==> (Marks(i, Payload(v)) <==> EndsWithMarker(v) && !EmptyContainer(v))
    ensures Framable(v) && v.Nested? ==>
              (Run(PlaceOf(i), false, Payload(v), false).Good? && Payload(v) != [] <==> !EmptyContainer(v))
  {
    hide EncAll, Enc, Run, ValidRun, TextBytes;
    ItemParts(v);
    if v.Nested? {
      var place := PlaceOf(i);
      RunEmpty(place, false, false);
      EncodedSize(v);
      PayloadShort(v);
      EncodedRunExactly(place, v.sequence);
      if v.sequence != [] {
        NestedValidExactly(v);
        if ValidRun(place, false, v.sequence) {
          EncodedRunAccepted(place, false, v.sequence, false);
        } else if Run(place, false, EncAll(v.sequence), false).Cut? {
          TreesRoundTrip(v.sequence);
          CutDoesNotDecode(place, false, EncAll(v.sequence), false);
        }
      }
    }
  }

  lemma PayloadShort(v: DbufValSeq)
    requires WellFormed(v) && Sized(v)
    ensures |Payload(v)| < TWO_TO_THE_32
  {
    ItemParts(v);
    if v.Plain? && v.val.slice.None? {
      assert Payload(v) == [];
    }
  }

  lemma NestedValidExactly(v: DbufValSeq)
    requires v.Nested? && v.sequence != []
    ensures ValidItem(v) <==> ValidRun(Inside(v.val.typ == TYPE_MAP), false, v.sequence)
  {
  }

  // What keeps a row of items from decoding.
  lemma DecodeFails(bs: seq<byte>)
    requires bs != []
    ensures var (i, rest) := ReadHead(ZERO_INITIAL, bs); var k := if i.TypeHasSlice() then i.value else 0;
            && (i.missing > 0 ==> DecodeTrees(bs).Err?)
            && (i.missing == 0 && k <= |rest| && DecodeTrees(rest[k..]).Err? ==> DecodeTrees(bs).Err?)
            && (i.missing == 0 && k <= |rest| && i.TypeHasNesting() && DecodeTrees(rest[..k]).Err?
                ==> DecodeTrees(bs).Err?)
  {
    hide ReadHead;
    var rest := ReadHead(ZERO_INITIAL, bs).1;
    assert rest[0..] == rest;
  }

  // A run that is cut short does not decode.
  lemma {:induction false} CutDoesNotDecode(place: Place, odd: bool, bs: seq<byte>, marker: bool)
    requires Run(place, odd, bs, marker).Cut?
    ensures DecodeTrees(bs).Err?
    decreases |bs|
  {
    hide Run, ReadHead, CheckHead, TextBytes, DecodeTrees;
    RunEmpty(place, odd, marker);
    DecodeFails(bs);
    HeadContinues(ZERO_INITIAL, bs);
    var (i, rest) := ReadHead(ZERO_INITIAL, bs);
    if CheckHead(ZERO_INITIAL, bs) != Done {
      RunBroken(place, odd, bs, marker);
    } else {
      var h := |bs| - |rest|;
      var k := if i.TypeHasSlice() then h + i.value else h;
      RunFirst(place, odd, bs, marker, i, h);
      assert k <= |bs|;
      assert rest[..k - h] == bs[h..k] && rest[k - h..] == bs[k..];
      var inner := Run(PlaceOf(i), false, bs[h..k], false);
      if i.TypeHasNesting() && inner.Cut? {
        CutDoesNotDecode(PlaceOf(i), false, bs[h..k], false);
      } else {
        CutDoesNotDecode(place, Flip(place, odd), bs[k..],
                         if i.TypeHasNesting() then MarkerOf(inner) else !i.TypeHasSlice() && i.IsEndMarker());
      }
    }
  }

  // An encoded value is framed back exactly when it is framable and fits; the one exception is
  // an empty leaf that is all of a body of declared length, where the program panics.
  lemma ItemRoundTrip(c: Core, maxSize: int, v: DbufValSeq, rest: seq<byte>)
    requires IsFresh(c) && WellFormed(v) && Sized(v)
    ensures CheckedItem(c, maxSize, Enc(v) + rest).Ok?
            <==> Framable(v) && Fits(c, maxSize, v) && !(EmptyLeaf(v) && IsLast(c, v))
    ensures EmptyLeaf(v) && Fits(c, maxSize, v) && IsLast(c, v) ==>
              CheckedItem(c, maxSize, Enc(v) + rest) == Err(Panic)
    ensures CheckedItem(c, maxSize, Enc(v) + rest).Ok? ==>
              CheckedItem(c, maxSize, Enc(v) + rest) == Ok(Framed(SliceForm(v), IsLast(c, v), rest))
  {
    hide EncAll, Enc, ReadHead, CheckHead, WellFormed, Admitted, Marks, EndsWithMarker, Run, ValidItem;
    var bs := Enc(v) + rest;
    EncodedParts(v);
    assert bs != [];
    EncodedHead(v, rest);
    var (i, after) := ReadHead(ZERO_INITIAL, bs);
    EncodedPayload(v, i);
    assert |Enc(v)| == |bs| - |after| + |Payload(v)|;
    var payload := Payload(v);
    if HasSlice(v.val.typ) {
      assert after[..i.value] == payload && after[i.value..] == rest;
    } else {
      assert payload + rest == rest;
    }
  }

  lemma EncodedParts(v: DbufValSeq)
    requires WellFormed(v) && Sized(v)
    ensures HasSlice(v.val.typ) ==> |Payload(v)| == ParseValue(v)
    ensures !HasSlice(v.val.typ) ==> Payload(v) == [] && v.Plain? && ParseValue(v) == v.val.value && !EmptyLeaf(v)
    ensures HasNesting(v.val.typ) <==> v.Nested?
    ensures v.Plain? && HasSlice(v.val.typ) ==> (EmptyLeaf(v) <==> ParseValue(v) == 0)
    ensures v.Nested? ==> HasSlice(v.val.typ) && (EmptyContainer(v) <==> Payload(v) == [])
    ensures |Enc(v)| == |HeadBytes(v.val.typ, ParseValue(v))| + |Payload(v)|
    ensures EmptyLeaf(v) ==> |Enc(v)| == 1 && !EndsWithMarker(v)
  {
    ItemParts(v);
  }

  // What is framed is canonical: the bytes read are the encoding of the value returned.
  lemma {:induction false} FramedIsCanonical(c: Core, maxSize: int, bs: seq<byte>)
    requires CheckedItem(c, maxSize, bs).Ok?
    ensures var f := CheckedItem(c, maxSize, bs).value;
            && Decodable(Plain(f.val)) && Sized(Plain(f.val))
            && bs == Enc(Plain(f.val)) + f.rest && |Enc(Plain(f.val))| <= maxSize
            && (f.done && !c.useEndMarker ==> c.useLength && c.length == |Enc(Plain(f.val))|)
            && (Equal(f.val, END_MARKER) ==> f.val == END_MARKER && (c.useEndMarker ==> f.done))
  {
    hide ReadHead, CheckHead, HeadBytes, Admitted, Run, Enc;
    CanonicalExactly(ZERO_INITIAL, bs);
    var (i, rest) := ReadHead(ZERO_INITIAL, bs);
    var f := CheckedItem(c, maxSize, bs).value;
    PlainEnc(f.val);
    if i.TypeHasSlice() {
      assert rest == rest[..i.value] + rest[i.value..];
      assert bs == HeadBytes(i.typ, i.value) + rest[..i.value] + rest[i.value..];
    } else {
      assert HeadBytes(i.typ, i.value) + [] == HeadBytes(i.typ, i.value);
    }
  }

  lemma PlainEnc(v: DbufVal)
    requires |v.Bytes()| <= MAX_U32 && (if HasSlice(v.typ) then v.slice.Some? && v.value == 0 else v.slice.None?)
    ensures Decodable(Plain(v))
    ensures Enc(Plain(v)) == HeadBytes(v.typ, if v.slice.Some? then |v.Bytes()| else v.value) + v.Bytes()
  {
    assert v.Bytes() + [] == v.Bytes();
  }

  // The content of a framed container decodes at every level, except when its last scalar is
  // cut short: the end of the payload is the end of the validator's input as well.
  lemma {:induction false} FramedDecodes(c: Core, maxSize: int, bs: seq<byte>)
    requires CheckedItem(c, maxSize, bs).Ok? && HasNesting(CheckedItem(c, maxSize, bs).value.val.typ)
    ensures var v := CheckedItem(c, maxSize, bs).value.val; var place := Inside(v.typ == TYPE_MAP);
            DecodeTrees(v.Bytes()).Ok? <==> !Run(place, false, v.Bytes(), false).Cut?
  {
    hide ReadHead, CheckHead, Run, DecodeTrees, EncAll, ValidRun;
    FramedIsCanonical(c, maxSize, bs);
    var v := CheckedItem(c, maxSize, bs).value.val;
    var place := Inside(v.typ == TYPE_MAP);
    var verdict := Run(place, false, v.Bytes(), false);
    if verdict.Cut? {
      CutDoesNotDecode(place, false, v.Bytes(), false);
    } else if v.Bytes() == [] {
      assert DecodeTrees(v.Bytes()) == Ok([]) by { NothingDecodes(); }
    } else {
      AcceptedRunParses(place, false, v.Bytes(), false);
    }
  }

  lemma NothingDecodes()
    ensures DecodeTrees([]) == Ok([])
  {
  }

  // An array of one byte, which is the first of a longer scalar, is framed but does not decode.
  lemma CutItemIsFramed()
    ensures CheckedItem(BodyCore(MARKED), 2, [0x81, 0xF8])
         == Ok(Framed(DbufVal(TYPE_ARRAY, 0, Some([0xF8])), false, []))
    ensures DecodeTrees([0xF8]).Err?
  {
    hide ReadHead, CheckHead, Run, DecodeTrees;
    CutScalar();
    ShortArrayHead([0xF8]);
    assert [0x81] + [0xF8] == [0x81, 0xF8];
    assert [0xF8][..1] == [0xF8] && [0xF8][1..] == [];
  }

  lemma {:induction false} CutScalar()
    ensures Run(Inside(false), false, [0xF8], false).Cut? && DecodeTrees([0xF8]).Err?
  {
    hide ReadHead, CheckHead, Run, DecodeTrees;
    SplitScalarHead(ZERO_INITIAL);
    RunBroken(Inside(false), false, [0xF8], false);
    CutDoesNotDecode(Inside(false), false, [0xF8], false);
  }

  // --------------------------------------------------------------- bodies and footers

  /** Values as they were decoded, one by one. */
  function Plains(vals: seq<DbufVal>): (vs: seq<DbufValSeq>)
    ensures |vs| == |vals|
  {
    seq(|vals|, k requires 0 <= k < |vals| => Plain(vals[k]))
  }

  predicate AllDecodable(vs: seq<DbufValSeq>) {
    forall k :: 0 <= k < |vs| ==> Decodable(vs[k])
  }

  /** The bytes that a body leaves no value for: an end marker. */
  predicate Dropped(c: Core, bs: seq<byte>) {
    bs == [] || (!c.useLength && bs == Enc(Plain(END_MARKER)))
  }

  lemma PlainsFront(v: DbufVal, vals: seq<DbufVal>)
    requires Decodable(Plain(v)) && AllDecodable(Plains(vals))
    ensures AllDecodable(Plains([v] + vals)) && Sized(Plain(v)) && AllSized(Plains(vals))
            && AllSized(Plains([v] + vals))
    ensures forall after :: EncAll(Plains([v] + vals)) + after == Enc(Plain(v)) + (EncAll(Plains(vals)) + after)
  {
    hide Decodable, Enc;
    var vs := Plains([v] + vals);
    assert vs[1..] == Plains(vals);
    assert AllDecodable(vs) by {
      assert forall k :: 0 <= k < |vs| ==> k == 0 || vs[k] == Plains(vals)[k - 1];
    }
    DecodableIsSized(vs);
    DecodableIsSized(Plains(vals));
    EncAllFront(vs);
  }

  lemma DecodableIsSized(vs: seq<DbufValSeq>)
    requires AllDecodable(vs)
    ensures AllSized(vs)
  {
  }

  // The bytes of a body are the encodings of its values, and an end marker that ended it; a body
  // of declared length ends with the first value of just that size.
  lemma {:induction false} BodyIsCanonical(c: Core, maxSize: int, bs: seq<byte>) returns (m: seq<byte>)
    requires c.useLength != c.useEndMarker && BodyFrom(c, maxSize, bs).Ok?
    ensures var (vals, rest) := BodyFrom(c, maxSize, bs).value;
            && AllDecodable(Plains(vals)) && Dropped(c, m) && bs == EncAll(Plains(vals)) + (m + rest)
            && (c.useLength ==> vals != [] && c.length == |Enc(Plain(Last(vals)))|)
    decreases |bs|
  {
    hide CheckedItem, Enc, Decodable, Equal;
    var f := CheckedItem(c, maxSize, bs).value;
    FramedIsCanonical(c, maxSize, bs);
    var kept := Kept(c, f.val);
    var (vals, rest) := BodyFrom(c, maxSize, bs).value;
    EncAllNothing();
    assert Plains([]) == [];
    if f.done {
      if kept == [] {
        m := Enc(Plain(END_MARKER));
        assert bs == [] + (m + rest);
      } else {
        m := [];
        PlainsFront(f.val, []);
        assert [f.val] + [] == vals && [] + (m + rest) == rest;
      }
    } else {
      m := BodyIsCanonical(c, maxSize, f.rest);
      assert kept == [f.val];
      PlainsFront(f.val, BodyFrom(c, maxSize, f.rest).value.0);
    }
  }

  /** The items of a body that ends with a marker: none of them ends with one itself. */
  predicate MarkedBody(vs: seq<DbufValSeq>, maxSize: int) {
    forall k :: 0 <= k < |vs| ==> Framable(vs[k]) && |Enc(vs[k])| <= maxSize && !EndsWithMarker(vs[k])
  }

  lemma KeptItem(c: Core, v: DbufValSeq)
    requires Framable(v) && (c.useLength || !EndsWithMarker(v))
    ensures Kept(c, SliceForm(v)) == [SliceForm(v)]
  {
    hide Payload;
  }

  lemma BodyStep(c: Core, maxSize: int, bs: seq<byte>, f: Framed)
    requires CheckedItem(c, maxSize, bs) == Ok(f)
    ensures BodyFrom(c, maxSize, bs)
         == if f.done then Ok((Kept(c, f.val), f.rest)) else Prepend2(Kept(c, f.val), BodyFrom(c, maxSize, f.rest))
  {
    hide CheckedItem, Equal;
  }

  // A body ends with its first item that ends with an end marker.
  lemma {:induction false} MarkedBodyRoundTrip(maxSize: int, vs: seq<DbufValSeq>, w: DbufValSeq, tail: seq<byte>)
    requires MarkedBody(vs, maxSize) && Framable(w) && EndsWithMarker(w) && |Enc(w)| <= maxSize
    ensures AllSized(vs)
    ensures BodyFrom(BodyCore(MARKED), maxSize, EncAll(vs) + (Enc(w) + tail))
         == Ok((SliceForms(vs) + Kept(BodyCore(MARKED), SliceForm(w)), tail))
    decreases |vs|
  {
    hide BodyFrom, Kept, CheckedItem, Enc, EncAll, SliceForm, Framable, EndsWithMarker, Equal, EmptyLeaf;
    var c := BodyCore(MARKED);
    FramableParts(w);
    if vs == [] {
      EncAllNothing();
      assert [] + (Enc(w) + tail) == Enc(w) + tail;
      ItemRoundTrip(c, maxSize, w, tail);
      BodyStep(c, maxSize, Enc(w) + tail, Framed(SliceForm(w), true, tail));
      assert SliceForms(vs) == [] && [] + Kept(c, SliceForm(w)) == Kept(c, SliceForm(w));
    } else {
      var v, us := vs[0], vs[1..];
      FramableParts(v);
      MarkedBodyRoundTrip(maxSize, us, w, tail);
      var rest := EncAll(us) + (Enc(w) + tail);
      SplitFront(vs, Enc(w) + tail);
      ItemRoundTrip(c, maxSize, v, rest);
      BodyStep(c, maxSize, Enc(v) + rest, Framed(SliceForm(v), false, rest));
      KeptItem(c, v);
      AppendKept([SliceForm(v)], SliceForms(us), Kept(c, SliceForm(w)));
    }
  }

  lemma SplitFront(vs: seq<DbufValSeq>, rest: seq<byte>)
    requires AllSized(vs) && vs != []
    ensures EncAll(vs) + rest == Enc(vs[0]) + (EncAll(vs[1..]) + rest)
    ensures SliceForms(vs) == [SliceForm(vs[0])] + SliceForms(vs[1..])
  {
    hide Enc, EncAll, SliceForm;
    EncAllFront(vs);
  }

  lemma FramableParts(v: DbufValSeq)
    requires Framable(v)
    ensures WellFormed(v) && Sized(v)
    ensures EndsWithMarker(v) ==> !EmptyContainer(v) && !EmptyLeaf(v)
  {
  }

  /** A footer is read like a body of one item, with the header's limit for its size. */
  predicate FitsFooter(v: DbufValSeq) {
    Framable(v) && |Enc(v)| <= MAX_HEADER_SIZE
  }

  lemma {:induction false} FooterExactly(v: DbufValSeq, tail: seq<byte>)
    requires WellFormed(v) && Sized(v)
    ensures var f := CheckedItem(FOOTER_CORE, MAX_HEADER_SIZE, Enc(v) + tail);
            && (f.Ok? <==> FitsFooter(v))
            && (f.Ok? ==> f.value.val == SliceForm(v) && f.value.rest == tail)
  {
    hide CheckedItem, Enc, EndsWithMarker, ValidItem, WellFormed;
    EncodedParts(v);
    ItemRoundTrip(FOOTER_CORE, MAX_HEADER_SIZE, v, tail);
  }

  // End-marked framing: the items before the marker and the footer are read back, and what
  // follows them stays unread. If the last item only ends with a marker, it is part of the body.
  lemma {:induction false} EndMarkedRoundTrip(maxSize: int, vs: seq<DbufValSeq>, w: DbufValSeq, footer: DbufValSeq,
                                              tail: seq<byte>)
    requires MarkedBody(vs, maxSize) && Framable(w) && EndsWithMarker(w) && |Enc(w)| <= maxSize && FitsFooter(footer)
    ensures AllSized(vs)
    ensures ContentFrom(MARKED, maxSize, EncAll(vs) + (Enc(w) + (Enc(footer) + tail)))
         == Ok((ContentProperties(true, SliceForms(vs) + if w == Plain(END_MARKER) then [] else [SliceForm(w)],
                                  true, SliceForm(footer)), tail))
  {
    hide CheckedItem, BodyFrom, Enc, EncAll, SliceForm, EndsWithMarker;
    MarkedBodyRoundTrip(maxSize, vs, w, Enc(footer) + tail);
    FooterExactly(footer, tail);
    KeptMarker(w);
    assert Enc(w) != [] by { EncNotEmpty(w); }
  }

  lemma KeptMarker(w: DbufValSeq)
    requires Framable(w)
    ensures Kept(BodyCore(MARKED), SliceForm(w)) == if w == Plain(END_MARKER) then [] else [SliceForm(w)]
  {
    hide Payload;
  }

  function Declared(n: u64): BodyLengthProperties {
    BodyLengthProperties(None, Some(n), false)
  }

  // Length-delimited framing: one item of the declared length and the footer are read back
  // exactly when the item is not empty. An empty leaf ends in a panic; after an empty container
  // the reader takes what follows for more of the body.
  lemma {:induction false} LengthRoundTrip(maxSize: int, v: DbufValSeq, footer: DbufValSeq, tail: seq<byte>)
    requires Framable(v) && |Enc(v)| <= maxSize && FitsFooter(footer) && |Enc(v)| < TWO_TO_THE_64
    ensures var r := ContentFrom(Declared(|Enc(v)|), maxSize, Enc(v) + (Enc(footer) + tail));
            && (!EmptyLeaf(v) && !EmptyContainer(v) ==>
                  && r == Ok((ContentProperties(true, [SliceForm(v)], true, SliceForm(footer)), tail))
                  && SingleBody(r.value.0.body) == Ok(SliceForm(v)))
            && (r.Ok? && r.value.0.body == [SliceForm(v)] <==> !EmptyLeaf(v) && !EmptyContainer(v))
            && (EmptyLeaf(v) ==> r == Err(Panic))
            && (r.Ok? && EmptyContainer(v) ==> |r.value.0.body| > 1)
  {
    hide CheckedItem, Enc, SliceForm, EndsWithMarker, Framable;
    FramableParts(v);
    FramableParts(footer);
    EncNotEmpty(v);
    var rest := Enc(footer) + tail;
    var c := BodyCore(Declared(|Enc(v)|));
    ItemRoundTrip(c, maxSize, v, rest);
    FooterExactly(footer, tail);
    KeptItem(c, v);
    if EmptyContainer(v) && BodyFrom(c, maxSize, rest).Ok? {
      LengthBodyNotEmpty(c, maxSize, rest);
    }
  }

  lemma LengthBodyNotEmpty(c: Core, maxSize: int, bs: seq<byte>)
    requires c.useLength && BodyFrom(c, maxSize, bs).Ok?
    ensures BodyFrom(c, maxSize, bs).value.0 != []
  {
    hide CheckedItem, Equal;
  }

  /** In a declared length of `n` the body goes on behind this item. */
  predicate Continues(v: DbufValSeq, n: u64, maxSize: int) {
    Framable(v) && |Enc(v)| <= n && |Enc(v)| <= maxSize && (|Enc(v)| == n ==> EmptyContainer(v))
  }

  /** In a declared length of `n` this item is the end of the body. */
  predicate Concludes(v: DbufValSeq, n: u64, maxSize: int) {
    Framable(v) && |Enc(v)| == n <= maxSize && !EmptyContainer(v)
  }

  predicate AllContinue(vs: seq<DbufValSeq>, n: u64, maxSize: int) {
    forall k :: 0 <= k < |vs| ==> Continues(vs[k], n, maxSize)
  }

  // A body of declared length ends with its first item that has just this length and is no empty
  // container, however long it has become: every item is measured by itself. An empty leaf of
  // this length panics; items that are too long or not framable are refused.
  lemma {:induction false} LengthBodyRoundTrip(n: u64, maxSize: int, vs: seq<DbufValSeq>,
                                           w: DbufValSeq, tail: seq<byte>)
    requires AllContinue(vs, n, maxSize) && WellFormed(w) && Sized(w) && !Continues(w, n, maxSize)
    ensures AllSized(vs)
    ensures var r := BodyFrom(BodyCore(Declared(n)), maxSize, EncAll(vs) + (Enc(w) + tail));
            if !Concludes(w, n, maxSize) then r.Err?
            else if EmptyLeaf(w) then r == Err(Panic)
            else r == Ok((SliceForms(vs) + [SliceForm(w)], tail))
    decreases |vs|
  {
    hide BodyFrom, Kept, CheckedItem, Enc, EncAll, SliceForm, Framable, EndsWithMarker, Equal, EmptyLeaf;
    var c := BodyCore(Declared(n));
    if vs == [] {
      EncAllNothing();
      assert [] + (Enc(w) + tail) == Enc(w) + tail;
      ItemRoundTrip(c, maxSize, w, tail);
      BodyStarts(c, maxSize, Enc(w) + tail);
      KeptLength(c, SliceForm(w));
      assert SliceForms(vs) == [] && [] + [SliceForm(w)] == [SliceForm(w)];
    } else {
      var v, us := vs[0], vs[1..];
      FramableParts(v);
      LengthBodyRoundTrip(n, maxSize, us, w, tail);
      var rest := EncAll(us) + (Enc(w) + tail);
      SplitFront(vs, Enc(w) + tail);
      EncodedParts(v);
      ItemRoundTrip(c, maxSize, v, rest);
      BodyStep(c, maxSize, Enc(v) + rest, Framed(SliceForm(v), false, rest));
      KeptLength(c, SliceForm(v));
      AppendKept([SliceForm(v)], SliceForms(us), [SliceForm(w)]);
    }
  }

  lemma KeptLength(c: Core, v: DbufVal)
    requires c.useLength
    ensures Kept(c, v) == [v]
  {
  }

  lemma BodyStarts(c: Core, maxSize: int, bs: seq<byte>)
    ensures var f := CheckedItem(c, maxSize, bs);
            && (f.Err? ==> BodyFrom(c, maxSize, bs) == Err(f.error))
            && (f.Ok? && f.value.done ==> BodyFrom(c, maxSize, bs) == Ok((Kept(c, f.value.val), f.value.rest)))
  {
    hide CheckedItem, Kept;
  }

  // Length-delimited framing of any items: with the footer they are read back when none but the
  // last has the declared length, empty containers apart.
  lemma {:induction false} LengthContentRoundTrip(n: u64, maxSize: int, vs: seq<DbufValSeq>, w: DbufValSeq,
                                                  footer: DbufValSeq, tail: seq<byte>)
    requires AllContinue(vs, n, maxSize) && Concludes(w, n, maxSize) && !EmptyLeaf(w) && FitsFooter(footer)
    ensures AllSized(vs)
    ensures ContentFrom(Declared(n), maxSize, EncAll(vs) + (Enc(w) + (Enc(footer) + tail)))
         == Ok((ContentProperties(true, SliceForms(vs) + [SliceForm(w)], true, SliceForm(footer)), tail))
  {
    hide CheckedItem, BodyFrom, Enc, EncAll, SliceForm, EndsWithMarker;
    FramableParts(w);
    EncNotEmpty(w);
    LengthBodyRoundTrip(n, maxSize, vs, w, Enc(footer) + tail);
    FooterExactly(footer, tail);
  }

  // Sending values in the length of all of them: they and the footer are read back, and nothing
  // else, exactly when it is one value and neither an empty leaf nor an empty container. Several
  // values are never read back, as the validator starts again with the whole length for each.
  lemma {:induction false} DeclaredRoundTrip(maxSize: int, vs: seq<DbufValSeq>, footer: DbufValSeq, tail: seq<byte>)
    requires Writable(vs) && |EncAll(vs)| < TWO_TO_THE_64 && WellFormed(footer) && Sized(footer)
    ensures var sent := ContentProperties(true, SliceForms(vs), true, SliceForm(footer));
            ContentFrom(Declared(|EncAll(vs)|), maxSize, EncAll(vs) + (Enc(footer) + tail)) == Ok((sent, tail))
            <==> |vs| == 1 && Concludes(vs[0], |EncAll(vs)|, maxSize) && !EmptyLeaf(vs[0]) && FitsFooter(footer)
  {
    hide CheckedItem, BodyFrom, Enc, EncAll, SliceForm, EndsWithMarker, Framable;
    var n := |EncAll(vs)|;
    var sent := ContentProperties(true, SliceForms(vs), true, SliceForm(footer));
    var r := ContentFrom(Declared(n), maxSize, EncAll(vs) + (Enc(footer) + tail));
    if r == Ok((sent, tail)) {
      LengthIsOne(maxSize, vs, footer, tail);
    }
    if |vs| == 1 {
      assert vs == [vs[0]];
      EncOfOne(vs[0]);
      OneDeclared(maxSize, vs[0], footer, tail);
    }
  }

  lemma EncOfOne(v: DbufValSeq)
    requires Sized(v)
    ensures EncAll([v]) == Enc(v) && SliceForms([v]) == [SliceForm(v)]
  {
    hide Enc;
    EncAllNothing();
    assert [v][..0] == [] && [] + Enc(v) == Enc(v);
  }

  // What is read back in the length of all values is one value.
  lemma {:induction false} LengthIsOne(maxSize: int, vs: seq<DbufValSeq>, footer: DbufValSeq, tail: seq<byte>)
    requires Writable(vs) && |EncAll(vs)| < TWO_TO_THE_64 && WellFormed(footer) && Sized(footer)
    requires var sent := ContentProperties(true, SliceForms(vs), true, SliceForm(footer));
             ContentFrom(Declared(|EncAll(vs)|), maxSize, EncAll(vs) + (Enc(footer) + tail)) == Ok((sent, tail))
    ensures |vs| == 1
  {
    hide CheckedItem, BodyFrom, Enc, EncAll, SliceForm, WellFormed, Decodable;
    EncNotEmpty(footer);
    EncAllNothing();
    assert |EncAll(vs) + (Enc(footer) + tail)| > |tail|;
    if maxSize > 0 {
      var m := ContentIsCanonical(Declared(|EncAll(vs)|), maxSize, EncAll(vs) + (Enc(footer) + tail));
      var v, front := Last(vs), vs[..|vs| - 1];
      assert Last(SliceForms(vs)) == SliceForm(v);
      WellFormedIsDecodable(v);
      EncSliceForm(v);
      EncAllLast(vs);
      if front != [] {
        EncAllFront(front);
        EncNotEmpty(front[0]);
      }
    }
  }

  lemma EncAllLast(vs: seq<DbufValSeq>)
    requires AllSized(vs) && vs != []
    ensures EncAll(vs) == EncAll(vs[..|vs| - 1]) + Enc(Last(vs))
  {
  }

  lemma {:induction false} OneDeclared(maxSize: int, v: DbufValSeq, footer: DbufValSeq, tail: seq<byte>)
    requires WellFormed(v) && Sized(v) && |Enc(v)| < TWO_TO_THE_64 && WellFormed(footer) && Sized(footer)
    ensures var sent := ContentProperties(true, [SliceForm(v)], true, SliceForm(footer));
            ContentFrom(Declared(|Enc(v)|), maxSize, Enc(v) + (Enc(footer) + tail)) == Ok((sent, tail))
            <==> Concludes(v, |Enc(v)|, maxSize) && !EmptyLeaf(v) && FitsFooter(footer)
  {
    hide CheckedItem, BodyFrom, Enc, EncAll, SliceForm, Framable, WellFormed, Sized, EmptyLeaf;
    var n, rest := |Enc(v)|, Enc(footer) + tail;
    var c := BodyCore(Declared(n));
    EncNotEmpty(v);
    EncNotEmpty(footer);
    FooterExactly(footer, tail);
    if Continues(v, n, maxSize) {
      ItemRoundTrip(c, maxSize, v, rest);
      BodyStep(c, maxSize, Enc(v) + rest, Framed(SliceForm(v), false, rest)) by { EncodedParts(v); FramableParts(v); }
      if BodyFrom(c, maxSize, rest).Ok? {
        LengthBodyNotEmpty(c, maxSize, rest);
      }
      KeptLength(c, SliceForm(v));
    } else {
      EncAllNothing();
      assert [] + (Enc(v) + rest) == Enc(v) + rest;
      LengthBodyRoundTrip(n, maxSize, [], v, rest);
      assert SliceForms([]) == [] && [] + [SliceForm(v)] == [SliceForm(v)];
      assert |Enc(v) + rest| > |tail|;
    }
  }

  // Each value starts again with the declared length: of two bytes declared, three are read, as
  // `E0` does not use up the two and `F8 18` does.
  lemma RestartedBody(tail: seq<byte>)
    ensures BodyFrom(BodyCore(Declared(2)), 100, [0xE0, 0xF8, 0x18] + tail) == Ok(([Uint(0), Uint(24)], tail))
  {
    hide BodyFrom, CheckedItem, Enc, EncAll, HeadBytes;
    var v, w := Plain(Uint(0)), Plain(Uint(24));
    SmallScalars();
    LengthBodyRoundTrip(2, 100, [v], w, tail);
    EncOfOne(v);
    EncOfOne(w);
    assert [0xE0] + ([0xF8, 0x18] + tail) == [0xE0, 0xF8, 0x18] + tail;
    assert [Uint(0)] + [Uint(24)] == [Uint(0), Uint(24)];
  }

  lemma SmallScalars()
    ensures Enc(Plain(Uint(0))) == [0xE0] && Enc(Plain(Uint(24))) == [0xF8, 0x18]
    ensures Sized(Plain(Uint(0))) && Framable(Plain(Uint(0))) && Sized(Plain(Uint(24))) && Framable(Plain(Uint(24)))
    ensures SliceForm(Plain(Uint(0))) == Uint(0) && SliceForm(Plain(Uint(24))) == Uint(24)
  {
  }

  // Reading loses nothing: the bytes read are the encodings of the values returned, and at most
  // an end marker between body and footer.
  lemma {:induction false} ContentIsCanonical(clp: BodyLengthProperties, maxSize: int, bs: seq<byte>)
    returns (m: seq<byte>)
    requires clp.value.None? && clp.length.Some? != clp.indefinite && maxSize > 0
    requires ContentFrom(clp, maxSize, bs).Ok?
    ensures var (content, rest) := ContentFrom(clp, maxSize, bs).value;
            && AllDecodable(Plains(content.body)) && Decodable(Plain(content.footer))
            && Dropped(BodyCore(clp), m) && AllSized(Plains(content.body))
            && bs == EncAll(Plains(content.body)) + (m + (Enc(Plain(content.footer)) + rest))
            && (clp.length.Some? ==> content.body != [] && clp.length.value == |Enc(Plain(Last(content.body)))|)
  {
    hide CheckedItem, BodyFrom, Enc, Decodable;
    var (content, rest) := ContentFrom(clp, maxSize, bs).value;
    m := BodyIsCanonical(BodyCore(clp), maxSize, bs);
    FramedIsCanonical(FOOTER_CORE, MAX_HEADER_SIZE, BodyFrom(BodyCore(clp), maxSize, bs).value.1);
    DecodableIsSized(Plains(content.body));
  }
}
