/** Requests as they are written and as they are read. */
module Requests {
  import opened Basics
  import opened Values
  import opened BigEndian
  import opened Heads
  import opened Decoder
  import opened Encoding
  import opened Trees
  import opened Encoder
  import opened Validator
  import opened Grammar
  import opened Acceptance
  import opened Language
  import opened Keys
  import opened Integers
  import opened Framing
  import opened Streams
  import opened Contents

  // A header passes exactly when its content is the encoding of a valid run, which recursive
  // decoding finds, and no key is repeated in a map; its details are that run in slice form.
  lemma {:induction false} HeaderExactly(i: InitialDecode, buf: seq<byte>)
    requires i.TypeHasNesting() && |buf| < TWO_TO_THE_32
    ensures CheckedHeader(i, buf).Ok?
            <==> Parses(PlaceOf(i), false, buf)
                 && (i.typ == TYPE_MAP ==> KeysUnique(SliceForms(DecodeTrees(buf).value)))
    ensures CheckedHeader(i, buf).Ok? ==>
              CheckedHeader(i, buf) == Ok(HeaderParams(DbufVal(i.typ, 0, Some(buf)),
                                              SliceForms(DecodeTrees(buf).value)))
  {
    hide Run, DecodeTrees, DecodeSequence, EncAll, ValidRun, SliceForms, KeysUnique;
    var place := PlaceOf(i);
    if Run(place, false, buf, false).Good? {
      AcceptedRunParses(place, false, buf, false);
    }
    if Parses(place, false, buf) {
      var vs := DecodeTrees(buf).value;
      EncodedRunAccepted(place, false, vs, false);
      WritableDecodable(vs);
      DecodeEncAll(vs);
    }
  }

  lemma WritableDecodable(vs: seq<DbufValSeq>)
    requires Writable(vs)
    ensures AllDecodable(vs)
  {
    hide WellFormed, Sized, Decodable;
    forall k | 0 <= k < |vs| ensures Decodable(vs[k]) {
      WellFormedIsDecodable(vs[k]);
    }
  }

  // Every value of a header that passed decodes, at every level, to a valid tree that encodes
  // back to the bytes of the header.
  lemma {:induction false} HeaderDecodes(i: InitialDecode, buf: seq<byte>) returns (vs: seq<DbufValSeq>)
    requires i.TypeHasNesting() && |buf| < TWO_TO_THE_32 && CheckedHeader(i, buf).Ok?
    ensures Writable(vs) && ValidRun(PlaceOf(i), false, vs) && EncAll(vs) == buf
    ensures var details := CheckedHeader(i, buf).value.headerDetails;
            |details| == |vs| && forall k :: 0 <= k < |vs| ==> DecodeTree(details[k]) == Ok(vs[k])
  {
    hide CheckedHeader, DecodeTrees, DecodeTree, EncAll, ValidRun, SliceForm, WellFormed, Sized;
    HeaderExactly(i, buf);
    vs := DecodeTrees(buf).value;
    forall k | 0 <= k < |vs| ensures DecodeTree(SliceForm(vs[k])) == Ok(vs[k]) {
      TreeRoundTrip(vs[k]);
    }
  }

  /** What the reader of a header demands of it. */
  predicate GoodHeader(h: DbufValSeq)
    requires WellFormed(h) && Sized(h) && h.Nested?
  {
    && ValidRun(Inside(h.val.typ == TYPE_MAP), false, h.sequence)
    && |Payload(h)| <= MAX_HEADER_SIZE
    && (h.val.typ == TYPE_MAP ==> KeysUnique(SliceForms(h.sequence)))
  }

  // A header is read back, with the bytes that follow it unread, exactly when it is a good one.
  lemma {:induction false} HeaderRoundTrip(h: DbufValSeq, rest: seq<byte>)
    requires WellFormed(h) && Sized(h) && h.Nested?
    ensures HeaderFrom(Enc(h) + rest).Ok? <==> GoodHeader(h)
    ensures GoodHeader(h) ==>
              HeaderFrom(Enc(h) + rest) == Ok((HeaderParams(SliceForm(h), SliceForms(h.sequence)), rest))
  {
    hide CheckedHeader, DecodeTrees, Enc, EncAll, ValidRun, WellFormed, ReadHead, CheckHead, KeysUnique, SliceForms;
    EncodedParts(h);
    NestedPayload(h);
    assert Enc(h) + rest != [];
    EncodedHead(h, rest);
    PayloadShort(h);
    var (i, after) := ReadHead(ZERO_INITIAL, Enc(h) + rest);
    assert after[..i.value] == Payload(h) && after[i.value..] == rest;
    HeaderExactly(i, Payload(h));
    TreesRoundTrip(h.sequence);
  }

  lemma NestedPayload(h: DbufValSeq)
    requires WellFormed(h) && Sized(h) && h.Nested?
    ensures HasNesting(h.val.typ) && Payload(h) == EncAll(h.sequence) && Writable(h.sequence)
  {
  }

  /** The bytes of a request; the default stream group is not written. */
  ghost predicate Wire(bs: seq<byte>, streamGroup: u64, header: DbufValSeq, body: seq<byte>)
    requires Sized(header)
  {
    if streamGroup == 0 then bs == Enc(header) + body
    else exists g: DbufVal :: Encodes(g, streamGroup) && Sized(Plain(g)) && bs == Enc(Plain(g)) + (Enc(header) + body)
  }

  /** The bytes of a stream group. */
  ghost predicate GroupWire(bs: seq<byte>, streamGroup: u64) {
    if streamGroup == 0 then bs == []
    else exists g: DbufVal :: Encodes(g, streamGroup) && Sized(Plain(g)) && bs == Enc(Plain(g))
  }

  /** Writes a request; when its header cannot be encoded, the stream group has been written. */
  method WriteRequest(streamGroup: u64, header: DbufValSeq, body: Option<seq<byte>>)
    returns (written: seq<byte>, error: Option<Error>)
    ensures error.None? <==> MeasureValue(header, true).Ok? && Exact(header)
    ensures error.None? ==> Sized(header) && Wire(written, streamGroup, header, if body.Some? then body.value else [])
    ensures error.Some? ==> GroupWire(written, streamGroup)
  {
    hide Enc, MeasureValue, Exact;
    written := [];
    ghost var g := Uint(0);
    if streamGroup > 0 {
      var v := Uint64(streamGroup);
      GroupFits(v, streamGroup);
      g := v;
      var b := EncodeFullSeq(v.ToDbufSeq());
      written := b.value;
      assert Encodes(g, streamGroup) && Sized(Plain(g)) && written == Enc(Plain(g));
    }
    var b := EncodeFullSeq(header);
    if b.Err? {
      return written, Some(b.error);
    }
    var after := if body.Some? then body.value else [];
    ghost var all := written + (b.value + after);
    written := written + b.value;
    written := written + after;
    assert written == all;
    assert streamGroup == 0 ==> written == b.value + after;
    assert streamGroup > 0 ==> written == Enc(Plain(g)) + (Enc(header) + after);
    error := None;
  }

  // A stream group can always be written.
  lemma GroupFits(v: DbufVal, n: u64)
    requires Encodes(v, n)
    ensures WellFormed(Plain(v)) && Sized(Plain(v)) && MeasureValue(Plain(v), true).Ok? && Exact(Plain(v))
    ensures v.typ == (if n <= MAX_U32 then TYPE_UINT else TYPE_INTEGER)
    ensures n <= MAX_U32 ==> ParseValue(Plain(v)) == n && Payload(Plain(v)) == []
  {
    if n > MAX_U32 {
      PositiveShape(v.Bytes());
    }
  }

  // The server reads back the header of a request in the default stream group exactly when the
  // header is a good one, and leaves the body unread; it refuses every other stream group.
  lemma {:induction false} RequestRoundTrip(bs: seq<byte>, streamGroup: u64, header: DbufValSeq, body: seq<byte>)
    requires WellFormed(header) && Sized(header) && header.Nested? && Wire(bs, streamGroup, header, body)
    ensures RequestFrom(bs).Ok? <==> streamGroup == 0 && GoodHeader(header)
    ensures RequestFrom(bs).Ok? ==>
              RequestFrom(bs) == Ok((HeaderParams(SliceForm(header), SliceForms(header.sequence)), body))
    ensures streamGroup > 0 ==>
              RequestFrom(bs) == Err(if streamGroup <= MAX_U32 then DataValueNotAccepted else DataTypeNotAccepted)
  {
    hide RequestFrom, Enc, GoodHeader, WellFormed, SliceForm, SliceForms, Encodes;
    if streamGroup == 0 {
      HeaderRoundTrip(header, body);
      HeaderFirst(header, body);
    } else {
      var g: DbufVal :| Encodes(g, streamGroup) && Sized(Plain(g)) && bs == Enc(Plain(g)) + (Enc(header) + body);
      GroupFirst(g, streamGroup, Enc(header) + body);
    }
  }

  // A stream that starts with a header.
  lemma {:induction false} HeaderFirst(header: DbufValSeq, body: seq<byte>)
    requires WellFormed(header) && Sized(header) && header.Nested?
    ensures RequestFrom(Enc(header) + body) == HeaderFrom(Enc(header) + body)
  {
    hide HeaderFrom, Enc, ReadHead, CheckHead, WellFormed;
    var bs := Enc(header) + body;
    EncodedParts(header);
    assert bs != [];
    EncodedHead(header, body);
    HeadType(bs);
    assert bs == [bs[0]] + bs[1..];
  }

  // A stream that starts with a stream group.
  lemma {:induction false} GroupFirst(g: DbufVal, streamGroup: u64, rest: seq<byte>)
    requires Encodes(g, streamGroup) && streamGroup > 0 && Sized(Plain(g))
    ensures RequestFrom(Enc(Plain(g)) + rest)
         == Err(if streamGroup <= MAX_U32 then DataValueNotAccepted else DataTypeNotAccepted)
  {
    hide Enc, CheckedHeader, ReadHead, CheckHead, WellFormed, Payload, Encodes;
    var bs := Enc(Plain(g)) + rest;
    GroupFits(g, streamGroup);
    EncodedParts(Plain(g));
    assert bs != [];
    EncodedHead(Plain(g), rest);
    HeadType(bs);
    assert bs == [bs[0]] + bs[1..];
  }

  // ------------------------------------------------------------------- stream groups

  // A stream group is read as the number that was written, and what follows it stays unread.
  lemma GroupRoundTrip(g: u32, rest: seq<byte>)
    ensures GroupFrom(Enc(Plain(Uint(g))) + rest) == Ok((Group(g, 0, false), rest))
  {
    hide Enc, ReadHead, CheckHead, WellFormed, Payload;
    var bs := Enc(Plain(Uint(g))) + rest;
    ScalarForm(Uint(g));
    EncodedParts(Plain(Uint(g)));
    assert bs != [];
    EncodedHead(Plain(Uint(g)), rest);
    HeadType(bs);
    assert [] + rest == rest;
  }

  lemma ScalarForm(v: DbufVal)
    requires !HasSlice(v.typ) && v.slice.None?
    ensures WellFormed(Plain(v)) && Sized(Plain(v)) && ParseValue(Plain(v)) == v.value && Payload(Plain(v)) == []
    ensures SliceForm(Plain(v)) == v
  {
  }

  // The group of a request, as its sender wrote it.
  lemma GroupIsRead(bs: seq<byte>, streamGroup: u32, header: DbufValSeq, body: seq<byte>)
    requires Sized(header) && Wire(bs, streamGroup, header, body) && streamGroup > 0
    ensures GroupFrom(bs) == Ok((Group(streamGroup, 0, false), Enc(header) + body))
  {
    hide Enc;
    GroupRoundTrip(streamGroup, Enc(header) + body);
  }

  // What is no number stands in place of a group: the group is the default one, and no byte is lost.
  lemma NoGroup(bs: seq<byte>)
    requires bs != [] && TypeOf(bs[0]) != TYPE_UINT
    ensures GroupFrom(bs) == Ok((Group(0, bs[0], true), bs[1..]))
    ensures RequestFrom(bs) == HeaderFrom(bs)
  {
    hide HeaderFrom;
    assert [bs[0]] + bs[1..] == bs;
  }

  // The default group may be written as well.
  lemma ExplicitGroup(g: u32, bs: seq<byte>)
    ensures RequestFrom(Enc(Plain(Uint(g))) + bs) == if g == 0 then HeaderFrom(bs) else Err(DataValueNotAccepted)
  {
    hide HeaderFrom, Enc, GroupFrom;
    GroupRoundTrip(g, bs);
  }

  // --------------------------------------------------------------- what is cut short

  // The head of an encoding that is cut off at `k`: it misses bytes, or only its payload does.
  lemma {:induction false} CutRead(v: DbufValSeq, k: nat)
    requires WellFormed(v) && Sized(v) && 0 < k < |Enc(v)|
    ensures var n := |HeadBytes(v.val.typ, ParseValue(v))|; var (i, rest) := ReadHead(ZERO_INITIAL, Enc(v)[..k]);
            && i.typ == v.val.typ
            && (k < n ==> i.missing > 0 && CheckHead(ZERO_INITIAL, Enc(v)[..k]) == Continue)
            && (k >= n ==> i.missing == 0 && i.value == ParseValue(v) && rest == Payload(v)[..k - n] && HasSlice(i.typ)
                           && |Payload(v)| == ParseValue(v) && CheckHead(ZERO_INITIAL, Enc(v)[..k]) == Done)
  {
    hide Enc, ReadHead, CheckHead, WellFormed, Payload, HeadBytes, ParseValue;
    var bs, head := Enc(v), HeadBytes(v.val.typ, ParseValue(v));
    EncodedParts(v);
    HeadAndPayload(v);
    EncodedHead(v, []);
    assert bs + [] == bs && Payload(v) + [] == Payload(v);
    if k < |head| {
      HeadWithin(ZERO_INITIAL, bs, k);
      HeadContinues(ZERO_INITIAL, bs[..k]);
    } else {
      assert bs[..k] == head + Payload(v)[..k - |head|];
      ReadHeadBytes(ZERO_INITIAL, v.val.typ, ParseValue(v), Payload(v)[..k - |head|]);
      CanonicalExactly(ZERO_INITIAL, bs[..k]);
    }
  }

  lemma HeadAndPayload(v: DbufValSeq)
    requires Sized(v)
    ensures Enc(v) == HeadBytes(v.val.typ, ParseValue(v)) + Payload(v)
  {
  }

  /** The failure to read a value of `n` head bytes from a stream that ends after `k`: the stream
      ends between two reads, or in the middle of one. */
  function CutError(k: nat, n: nat): Error {
    if k == 0 || (n > 1 && k == 1) || k == n then EndOfFile else UnexpectedEndOfFile
  }

  // A group that is cut short is a failure to read it.
  lemma CutGroup(g: u32, k: nat)
    requires k < |Enc(Plain(Uint(g)))|
    ensures GroupFrom(Enc(Plain(Uint(g)))[..k]) == Err(CutError(k, |Enc(Plain(Uint(g)))|))
  {
    hide Enc, ReadHead, CheckHead, WellFormed, Payload, HeadBytes;
    var v := Plain(Uint(g));
    if k > 0 {
      ScalarForm(Uint(g));
      HeadAndPayload(v);
      CutRead(v, k);
      assert Enc(v)[..k][0] == Enc(v)[0];
      HeadType(Enc(v)[..k]);
    }
  }

  // So is a header, in its head or in its content.
  lemma CutHeader(h: DbufValSeq, k: nat)
    requires WellFormed(h) && Sized(h) && h.Nested? && |Payload(h)| <= MAX_HEADER_SIZE && k < |Enc(h)|
    ensures HeaderFrom(Enc(h)[..k]) == Err(CutError(k, |HeadBytes(h.val.typ, ParseValue(h))|))
  {
    hide Enc, ReadHead, CheckHead, WellFormed, Payload, HeadBytes, ParseValue, CheckedHeader;
    if k > 0 {
      EncodedParts(h);
      CutRead(h, k);
    }
  }

  // So is a value of a body, when the validator has nothing against what is there.
  lemma {:induction false} CutItem(c: Core, maxSize: int, v: DbufValSeq, k: nat)
    requires IsFresh(c) && WellFormed(v) && Sized(v) && Fits(c, maxSize, v) && k < |Enc(v)|
    ensures CheckedItem(c, maxSize, Enc(v)[..k]) == Err(CutError(k, |HeadBytes(v.val.typ, ParseValue(v))|))
  {
    hide Enc, ReadHead, CheckHead, WellFormed, Payload, HeadBytes, ParseValue, Admitted;
    EncodedParts(v);
    HeadAndPayload(v);
    if k > 0 {
      CutRead(v, k);
    }
  }

  // ------------------------------------------------------- heads that are not the shortest

  // The heads of groups and headers are read as they come, the shortest for their value or not.
  lemma AnyHeadGroup(b: byte, extra: seq<byte>, rest: seq<byte>)
    requires TypeOf(b) == TYPE_UINT && LowBits(b) >= 24 && |extra| == ExtraLength(LowBits(b) - 24)
    ensures Word(Seed(LowBits(b) - 24), extra) <= MAX_U32
    ensures GroupFrom([b] + (extra + rest)) == Ok((Group(Word(Seed(LowBits(b) - 24), extra), 0, false), rest))
  {
    hide ReadHead, Word;
    AnyHead(b, extra, rest);
  }

  lemma {:induction false} AnyHeadHeader(b: byte, extra: seq<byte>, buf: seq<byte>, rest: seq<byte>)
    requires HasNesting(TypeOf(b)) && LowBits(b) >= 24 && |extra| == ExtraLength(LowBits(b) - 24)
    requires Word(Seed(LowBits(b) - 24), extra) == |buf|
    ensures var r := HeaderFrom([b] + (extra + (buf + rest))); var place := Inside(TypeOf(b) == TYPE_MAP);
            && (r.Ok? <==> |buf| <= MAX_HEADER_SIZE && Parses(place, false, buf)
                           && (TypeOf(b) == TYPE_MAP ==> KeysUnique(SliceForms(DecodeTrees(buf).value))))
            && (r.Ok? ==> r == Ok((HeaderParams(DbufVal(TypeOf(b), 0, Some(buf)), SliceForms(DecodeTrees(buf).value)),
                                   rest)))
  {
    hide ReadHead, Word, CheckedHeader, Parses, DecodeTrees, KeysUnique, SliceForms;
    AnyHead(b, extra, buf + rest);
    var i := InitialDecode(|buf|, TypeOf(b), 0, |extra|);
    assert (buf + rest)[..|buf|] == buf && (buf + rest)[|buf|..] == rest;
    HeaderExactly(i, buf);
  }

  // A header that was read is all there: its head announces just the content that is returned,
  // and what follows that is unread.
  lemma HeaderConsumes(bs: seq<byte>)
    requires HeaderFrom(bs).Ok?
    ensures var (p, rest) := HeaderFrom(bs).value;
            && bs != [] && p.header.slice.Some? && p.header.typ == TypeOf(bs[0])
            && ReadHead(ZERO_INITIAL, bs).0.value == |p.header.Bytes()| && ReadHead(ZERO_INITIAL, bs).0.missing == 0
            && ReadHead(ZERO_INITIAL, bs).1 == p.header.Bytes() + rest
            && DecodeSequence(p.header.Bytes()) == Ok(p.headerDetails)
  {
    hide Absorb, Run, DecodeSequence, KeysUnique;
    var (i, rest) := ReadHead(ZERO_INITIAL, bs);
    assert rest == rest[..i.value] + rest[i.value..];
  }
}
