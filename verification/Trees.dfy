/** Well-formed value trees: decoding at every level undoes encoding. */
module Trees {
  import opened Basics
  import opened Values
  import opened Decoder
  import opened Encoding

  /** A tree with nothing in it that its encoding would not show: scalars without bytes,
      leaves with bytes and no value, containers given by their children. */
  predicate WellFormed(v: DbufValSeq)
    decreases v
  {
    match v
    case Plain(val) =>
      if HasSlice(val.typ) then !HasNesting(val.typ) && val.slice.Some? && val.value == 0 else val.slice.None?
    case Nested(val, sequence) =>
      && HasNesting(val.typ) && val.slice.None? && val.value == 0
      && forall k :: 0 <= k < |sequence| ==> WellFormed(sequence[k])
  }

  predicate AllWellFormed(vs: seq<DbufValSeq>) {
    forall k :: 0 <= k < |vs| ==> WellFormed(vs[k])
  }

  /** Decodes the content of a container, and of the containers in it, to trees. */
  function DecodeTrees(bs: seq<byte>): Result<seq<DbufValSeq>>
    decreases |bs|, 0
  {
    if bs == [] then Ok([])
    else
      var item := Decode(bs);
      if item.Err? then Err(item.error)
      else
        var first := DecodeTree(item.value.Val());
        if first.Err? then Err(first.error)
        else Prepend([first.value], DecodeTrees(item.value.rest))
  }

  function DecodeTree(val: DbufVal): Result<DbufValSeq>
    decreases |val.Bytes()|, 1
  {
    if HasNesting(val.typ) then
      var sequence := DecodeTrees(val.Bytes());
      if sequence.Err? then Err(sequence.error)
      else Ok(Nested(DbufVal(val.typ, val.value, None), sequence.value))
    else
      Ok(Plain(val))
  }

  lemma {:induction false} WellFormedIsExact(v: DbufValSeq)
    requires WellFormed(v)
    ensures Exact(v)
    decreases v
  {
    if v.Nested? {
      forall k | 0 <= k < |v.sequence| ensures Exact(v.sequence[k]) {
        WellFormedIsExact(v.sequence[k]);
      }
    }
  }

  lemma WellFormedIsDecodable(v: DbufValSeq)
    requires WellFormed(v) && Sized(v)
    ensures Decodable(v)
  {
    WellFormedIsExact(v);
  }

  // Recursive decoding gives back the trees that were encoded.
  lemma {:induction false} TreesRoundTrip(vs: seq<DbufValSeq>)
    requires AllWellFormed(vs) && AllSized(vs)
    ensures DecodeTrees(EncAll(vs)) == Ok(vs)
    decreases vs
  {
    hide Decode, Enc;
    if vs != [] {
      var v := vs[0];
      WellFormedIsDecodable(v);
      EncAllFront(vs);
      DecodeEnc(v, EncAll(vs[1..]));
      TreesRoundTrip(vs[1..]);
      TreeRoundTrip(v);
      assert vs == [v] + vs[1..];
    }
  }

  lemma {:induction false} TreeRoundTrip(v: DbufValSeq)
    requires WellFormed(v) && Sized(v)
    ensures DecodeTree(SliceForm(v)) == Ok(v)
    decreases v
  {
    if v.Nested? {
      assert Payload(v) == EncAll(v.sequence);
      TreesRoundTrip(v.sequence);
    } else if HasSlice(v.val.typ) {
      assert Payload(v) == v.val.slice.value;
    }
  }

  // Different lists of trees have different encodings.
  lemma EncAllInjective(us: seq<DbufValSeq>, vs: seq<DbufValSeq>)
    requires AllWellFormed(us) && AllSized(us) && AllWellFormed(vs) && AllSized(vs)
    requires EncAll(us) == EncAll(vs)
    ensures us == vs
  {
    TreesRoundTrip(us);
    TreesRoundTrip(vs);
  }

  // No encoding is a proper prefix of another: what follows an item never changes how it is cut off.
  lemma EncPrefixFree(u: DbufValSeq, v: DbufValSeq, x: seq<byte>, y: seq<byte>)
    requires WellFormed(u) && Sized(u) && WellFormed(v) && Sized(v)
    requires Enc(u) + x == Enc(v) + y
    ensures u == v && x == y
  {
    hide Enc, Decode;
    WellFormedIsDecodable(u);
    WellFormedIsDecodable(v);
    DecodeEnc(u, x);
    DecodeEnc(v, y);
    TreeRoundTrip(u);
    TreeRoundTrip(v);
  }

  // Values in slice form are determined by the encoding of the list they are in.
  lemma {:induction false} SliceFormsInjective(us: seq<DbufValSeq>, vs: seq<DbufValSeq>)
    requires forall k :: 0 <= k < |us| ==> Decodable(us[k])
    requires forall k :: 0 <= k < |vs| ==> Decodable(vs[k])
    requires AllSized(us) && AllSized(vs) && EncAll(us) == EncAll(vs)
    ensures SliceForms(us) == SliceForms(vs)
  {
    DecodeEncAll(us);
    DecodeEncAll(vs);
  }

  // A decoded value re-encodes to the bytes of the tree it stands for.
  lemma EncSliceForm(v: DbufValSeq)
    requires Decodable(v)
    ensures Decodable(Plain(SliceForm(v)))
    ensures Enc(Plain(SliceForm(v))) == Enc(v)
  {
    if v.Nested? {
      AllEncodedSize(v.sequence);
      assert Payload(v) == EncAll(v.sequence);
    }
  }
}
