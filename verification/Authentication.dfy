/** What a stored header must show to be authenticated, and what its signature covers. */
module Authentication {
  import opened Basics
  import opened Values
  import opened Heads
  import opened Decoder
  import opened Encoding
  import opened Trees
  import opened Encoder

  const REGISTRY_IDENTITY_KEY: u32 := 136
  const REGISTRY_ED25519: u32 := 139
  const EXPORTER_OUTPUT_PREFIX_SIZE := 32
  const PUBLIC_KEY_SIZE := 32

  /** Keying material of the connection for a context; the label and the length are fixed. */
  type Exporter = seq<byte> -> Option<seq<byte>>

  /** Signature verification, from public key, message and signature; the library panics when the
      public key is not of its size. */
  type Verifier = (seq<byte>, seq<byte>, seq<byte>) -> bool

  datatype Check = Accepted | Refused | Panics

  /** The bytes of values in a row, if they can be encoded. */
  function Encoded(vs: seq<DbufValSeq>): (r: Option<seq<byte>>)
    ensures r.Some? ==> AllSized(vs) && AllExact(vs) && r.value == EncAll(vs)
    ensures r.None? <==> MeasureAll(vs).Err? || !AllExact(vs)
  {
    if MeasureAll(vs).Ok? && AllExact(vs) then
      AllMeasuredAreSized(vs);
      Some(EncAll(vs))
    else None
  }

  // ---------------------------------------------------------------------- contexts

  method CreateExporterContext(protectedHeaders: DbufValSeq, identity: DbufValSeq, identityKey: DbufValSeq,
                               keyData: DbufValSeq)
    returns (context: Option<seq<byte>>)
    ensures context == Encoded([protectedHeaders, identity, identityKey, keyData])
  {
    var r := EncodeSequence(Some([protectedHeaders, identity, identityKey, keyData]));
    context := if r.Ok? then Some(r.value) else None;
  }

  /** A value as the server has it: decoded, kept as a string, and made a value again. */
  function Kept(v: DbufValSeq): DbufValSeq
    requires Sized(v)
  {
    SliceForm(v).ToDbufValString().ToDbufSeq()
  }

  /** The value is not a scalar that needs more than its first byte. */
  predicate Short(v: DbufValSeq) {
    HasSlice(v.val.typ) || v.val.value < 24
  }

  lemma KeptEncodes(v: DbufValSeq)
    requires WellFormed(v) && Sized(v)
    ensures Sized(Kept(v)) && Enc(Kept(v)) == Enc(v) && (Exact(Kept(v)) <==> Short(v))
  {
    WellFormedIsDecodable(v);
    EncSliceForm(v);
    if !HasSlice(v.val.typ) {
      assert Payload(v) == Payload(Kept(v));
    }
  }

  lemma {:induction false} SameEncodings(us: seq<DbufValSeq>, vs: seq<DbufValSeq>)
    requires |us| == |vs| && AllSized(us) && AllSized(vs)
    requires forall k :: 0 <= k < |us| ==> Enc(us[k]) == Enc(vs[k])
    ensures EncAll(us) == EncAll(vs)
    decreases |us|
  {
    hide Enc;
    if us != [] {
      SameEncodings(us[..|us| - 1], vs[..|vs| - 1]);
    }
  }

  // The client, from trees, and the server, from decoded strings, arrive at the same exporter
  // context, unless one of the three kept values is a scalar of 24 or more: then the server has none.
  lemma {:induction false} ContextsAgree(protectedHeaders: DbufValSeq, identity: DbufValSeq,
                                         identityKey: DbufValSeq, keyData: DbufValSeq)
    requires WellFormed(protectedHeaders) && WellFormed(identity) && WellFormed(identityKey) && WellFormed(keyData)
    requires Sized(protectedHeaders) && Sized(identity) && Sized(identityKey) && Sized(keyData)
    ensures var client := Encoded([protectedHeaders, identity, identityKey, keyData]);
            var server := Encoded([Kept(protectedHeaders), Kept(identity),
                                   Kept(identityKey), Plain(SliceForm(keyData))]);
            && client.Some?
            && (server.Some? <==> Short(protectedHeaders) && Short(identity) && Short(identityKey))
            && (server.Some? ==> server == client)
  {
    hide Enc, EncAll, MeasureAll, Kept, Exact, Sized, WellFormed, SliceForm;
    var us := [protectedHeaders, identity, identityKey, keyData];
    var vs := [Kept(protectedHeaders), Kept(identity), Kept(identityKey), Plain(SliceForm(keyData))];
    KeptEncodes(protectedHeaders);
    KeptEncodes(identity);
    KeptEncodes(identityKey);
    DecodedEncodes(keyData);
    WellFormedIsExact(protectedHeaders);
    WellFormedIsExact(identity);
    WellFormedIsExact(identityKey);
    WellFormedIsExact(keyData);
    AllSizedMeasures(us);
    AllSizedMeasures(vs);
    assert AllExact(vs) <==> Exact(vs[0]) && Exact(vs[1]) && Exact(vs[2]) && Exact(vs[3]);
    SameEncodings(us, vs);
  }

  lemma DecodedEncodes(v: DbufValSeq)
    requires WellFormed(v) && Sized(v)
    ensures Sized(Plain(SliceForm(v))) && Exact(Plain(SliceForm(v))) && Enc(Plain(SliceForm(v))) == Enc(v)
  {
    WellFormedIsDecodable(v);
    EncSliceForm(v);
  }

  /** A string as decoding makes it. */
  predicate IsDecoded(s: DbufValString) {
    if HasSlice(s.typ) then s.value == 0 else s.str == []
  }

  predicate AllDecoded(ss: seq<DbufValString>) {
    forall k :: 0 <= k < |ss| ==> IsDecoded(ss[k])
  }

  /** Strings as values again. */
  function Revived(ss: seq<DbufValString>): (vs: seq<DbufValSeq>)
    ensures |vs| == |ss|
  {
    seq(|ss|, k requires 0 <= k < |ss| => ss[k].ToDbufSeq())
  }

  lemma RevivedDecodable(ss: seq<DbufValString>)
    requires AllDecoded(ss) && Encoded(Revived(ss)).Some?
    ensures forall k :: 0 <= k < |ss| ==> Decodable(Revived(ss)[k])
    ensures AllSized(Revived(ss)) && |SliceForms(Revived(ss))| == |ss|
    ensures forall k :: 0 <= k < |ss| ==> SliceForms(Revived(ss))[k].ToDbufValString() == ss[k]
  {
    hide EncAll, MeasureAll;
    forall k | 0 <= k < |ss| ensures Decodable(Revived(ss)[k]) {
      assert Exact(Revived(ss)[k]);
    }
    forall k | 0 <= k < |ss| ensures SliceForms(Revived(ss))[k].ToDbufValString() == ss[k] {
      assert Payload(Revived(ss)[k]) == ss[k].str;
    }
  }

  // Decoded strings in a row are determined by their encoding: storage keys and contexts made of
  // different parts are different.
  lemma EncodedBinds(a: seq<DbufValString>, b: seq<DbufValString>)
    requires AllDecoded(a) && AllDecoded(b) && Encoded(Revived(a)).Some? && Encoded(Revived(a)) == Encoded(Revived(b))
    ensures a == b
  {
    hide EncAll, MeasureAll, Decodable, SliceForm, AllExact, IsDecoded;
    RevivedDecodable(a);
    RevivedDecodable(b);
    SliceFormsInjective(Revived(a), Revived(b));
    assert forall k :: 0 <= k < |a| ==> a[k] == SliceForms(Revived(a))[k].ToDbufValString();
  }

  // ---------------------------------------------------------------------- signatures

  /** `SignatureInputPrefix`. */
  const SIGNATURE_INPUT_PREFIX: seq<byte> := [
    0x44, 0x42, 0x55, 0x46, 0x20, 0x64, 0x65, 0x6D, 0x6F, 0x20, 0x74, 0x72, 0x61, 0x6E, 0x73, 0x70, 0x6F, 0x72,
    0x74, 0x20, 0x61, 0x75, 0x74, 0x68, 0x65, 0x6E, 0x74, 0x69, 0x63, 0x61, 0x74, 0x69, 0x6F, 0x6E]

  function SigningMessage(context: seq<byte>, outputPrefix: seq<byte>): seq<byte> {
    SIGNATURE_INPUT_PREFIX + context + outputPrefix
  }

  // The message says, in this order, that it is one of this protocol, the context, and the
  // beginning of the keying material.
  lemma MessageParts(context: seq<byte>, outputPrefix: seq<byte>)
    ensures var text := "DBUF demo transport authentication"; var m := SigningMessage(context, outputPrefix);
            && |m| == |text| + |context| + |outputPrefix|
            && (forall k :: 0 <= k < |text| ==> m[k] == text[k] as int)
            && m[|text|..|text| + |context|] == context && m[|text| + |context|..] == outputPrefix
  {
    assert |SIGNATURE_INPUT_PREFIX| == 34;
    var text := "DBUF demo transport authentication";
    assert forall k :: 0 <= k < 34 ==> SIGNATURE_INPUT_PREFIX[k] == text[k] as int;
  }

  lemma MessageBinds(c: seq<byte>, p: seq<byte>, d: seq<byte>, q: seq<byte>)
    requires |p| == |q| && SigningMessage(c, p) == SigningMessage(d, q)
    ensures c == d && p == q
  {
    var n := |SIGNATURE_INPUT_PREFIX|;
    var x, y := SigningMessage(c, p), SigningMessage(d, q);
    assert x[n..n + |c|] == c && y[n..n + |d|] == d && x[n + |c|..] == p && y[n + |d|..] == q;
  }

  /** The context that a stored header is validated with, given the key. */
  function ContextOf(params: seq<DbufValString>, key: DbufVal): Option<seq<byte>>
    requires |params| >= 4
  {
    Encoded([params[1].ToDbufSeq(), params[2].ToDbufSeq(), params[3].ToDbufSeq(), key.ToDbufSeq()])
  }

  /** What the checks of a stored header come to, given the key data kept for its identity. */
  function ValidKeyParams(params: seq<DbufValString>, keyData: seq<byte>, exporter: Exporter, verify: Verifier): Check {
    if |params| < 6 then Refused
    else
      var keyDataSeq := DecodeSequence(keyData);
      if keyDataSeq.Err? then Refused
      else if keyDataSeq.value == [] then Panics
      else
        var key := keyDataSeq.value[0];
        var context := ContextOf(params, key);
        if context.None? then Refused
        else
          var output := exporter(context.value);
          if output.None? then Refused
          else if |output.value| < EXPORTER_OUTPUT_PREFIX_SIZE then Panics
          else if output.value[EXPORTER_OUTPUT_PREFIX_SIZE..] != params[4].str then Refused
          else
            var message := SigningMessage(context.value, output.value[..EXPORTER_OUTPUT_PREFIX_SIZE]);
            CheckSignature(key, message, params[5].str, verify)
  }

  function CheckSignature(key: DbufVal, message: seq<byte>, signature: seq<byte>, verify: Verifier): Check {
    if key.typ != TYPE_ARRAY then Refused
    else
      var keyArray := DecodeSequence(key.Bytes());
      if keyArray.Err? then Refused
      else if keyArray.value == [] then Panics
      else if keyArray.value[0].typ != TYPE_REGISTRY || keyArray.value[0].value != REGISTRY_ED25519 then Refused
      else if |keyArray.value| < 2 then Panics
      else if |keyArray.value[1].Bytes()| != PUBLIC_KEY_SIZE then Panics
      else if verify(keyArray.value[1].Bytes(), message, signature) then Accepted else Refused
  }

  /** A key without what the checks take for granted: an array that has a type, and behind the
      one type there is a public key of the right size. */
  predicate Malformed(key: DbufVal) {
    key.typ == TYPE_ARRAY &&
    var parts := DecodeSequence(key.Bytes());
    parts.Ok? &&
    (parts.value == []
     || (parts.value[0].typ == TYPE_REGISTRY && parts.value[0].value == REGISTRY_ED25519
         && (|parts.value| == 1 || |parts.value[1].Bytes()| != PUBLIC_KEY_SIZE)))
  }

  /** The key data for which the checks panic: empty, or a malformed key that they come to look
      at, which takes an exporter context and the right end of its keying material. */
  predicate KeyDataPanics(params: seq<DbufValString>, keyData: seq<byte>, exporter: Exporter) {
    |params| >= 6 && DecodeSequence(keyData).Ok? &&
    var keys := DecodeSequence(keyData).value;
    keys == [] ||
    (ContextOf(params, keys[0]).Some? && exporter(ContextOf(params, keys[0]).value).Some? &&
     var output := exporter(ContextOf(params, keys[0]).value).value;
     |output| < EXPORTER_OUTPUT_PREFIX_SIZE
     || (output[EXPORTER_OUTPUT_PREFIX_SIZE..] == params[4].str && Malformed(keys[0])))
  }

  lemma KeyPanicExactly(params: seq<DbufValString>, keyData: seq<byte>, exporter: Exporter, verify: Verifier)
    ensures ValidKeyParams(params, keyData, exporter, verify) == Panics <==> KeyDataPanics(params, keyData, exporter)
  {
    hide DecodeSequence, ContextOf, SigningMessage;
  }

  // A decoded value can be kept as a string and made a value again.
  lemma {:induction false} DecodedKept(bs: seq<byte>)
    requires DecodeSequence(bs).Ok?
    ensures forall k :: 0 <= k < |DecodeSequence(bs).value| ==>
              var v := DecodeSequence(bs).value[k]; IsDecoded(v.ToDbufValString()) && v.slice.Some? == HasSlice(v.typ)
    decreases |bs|
  {
    hide ReadHead;
    if bs != [] {
      DecodedKept(Decode(bs).value.rest);
    }
  }

  /** The message whose signature is checked for a stored header, and the key it is checked with. */
  function SignedWith(params: seq<DbufValString>, keyData: seq<byte>, exporter: Exporter)
    : Option<(DbufVal, seq<byte>)> {
    if |params| < 6 || DecodeSequence(keyData).Err? || DecodeSequence(keyData).value == [] then None
    else
      var key := DecodeSequence(keyData).value[0];
      var context := ContextOf(params, key);
      if context.None? || exporter(context.value).None? then None
      else if |exporter(context.value).value| < EXPORTER_OUTPUT_PREFIX_SIZE then None
      else Some((key, SigningMessage(context.value, exporter(context.value).value[..EXPORTER_OUTPUT_PREFIX_SIZE])))
  }

  // What an accepted stored header shows: a valid signature, by the key kept for its identity, of
  // its message; and the end of the keying material for it.
  lemma AcceptedIsSigned(params: seq<DbufValString>, keyData: seq<byte>, exporter: Exporter, verify: Verifier)
    requires ValidKeyParams(params, keyData, exporter, verify) == Accepted
    ensures SignedWith(params, keyData, exporter).Some?
    ensures var (key, message) := SignedWith(params, keyData, exporter).value;
            && key.typ == TYPE_ARRAY && DecodeSequence(key.Bytes()).Ok? && |DecodeSequence(key.Bytes()).value| >= 2
            && verify(DecodeSequence(key.Bytes()).value[1].Bytes(), message, params[5].str)
  {
    hide DecodeSequence, ContextOf, SigningMessage;
  }

  /** A stored header that shows what it must: the end of the keying material for its context, and
      a signature of its message by an Ed25519 key. */
  predicate Genuine(params: seq<DbufValString>, keyData: seq<byte>, exporter: Exporter, verify: Verifier) {
    && |params| >= 6 && SignedWith(params, keyData, exporter).Some?
    && var (key, message) := SignedWith(params, keyData, exporter).value;
    && exporter(ContextOf(params, key).value).value[EXPORTER_OUTPUT_PREFIX_SIZE..] == params[4].str
    && key.typ == TYPE_ARRAY && DecodeSequence(key.Bytes()).Ok?
    && var parts := DecodeSequence(key.Bytes()).value;
    && |parts| >= 2 && parts[0].typ == TYPE_REGISTRY && parts[0].value == REGISTRY_ED25519
    && |parts[1].Bytes()| == PUBLIC_KEY_SIZE && verify(parts[1].Bytes(), message, params[5].str)
  }

  // Exactly genuine headers are accepted.
  lemma AcceptedExactly(params: seq<DbufValString>, keyData: seq<byte>, exporter: Exporter, verify: Verifier)
    ensures ValidKeyParams(params, keyData, exporter, verify) == Accepted
       <==> Genuine(params, keyData, exporter, verify)
    ensures Genuine(params, keyData, exporter, verify) ==> |params| >= 6
  {
    hide DecodeSequence, ContextOf, SigningMessage;
  }

  // An accepted signature covers the stored headers: when two stored headers are accepted on the
  // same signed message, they have the same protected headers, identity, identity key and key,
  // and on the same connection the same keying material.
  lemma {:induction false} SignatureBinds(a: seq<DbufValString>, b: seq<DbufValString>, dataA: seq<byte>,
                                          dataB: seq<byte>, exporter: Exporter, other: Exporter, verify: Verifier)
    requires AllDecoded(a) && AllDecoded(b)
    requires ValidKeyParams(a, dataA, exporter, verify) == ValidKeyParams(b, dataB, other, verify) == Accepted
    requires SignedWith(a, dataA, exporter).Some? && SignedWith(b, dataB, other).Some?
    requires SignedWith(a, dataA, exporter).value.1 == SignedWith(b, dataB, other).value.1
    ensures a[1..4] == b[1..4]
    ensures SignedWith(a, dataA, exporter) == SignedWith(b, dataB, other)
    ensures exporter == other ==> a[4].str == b[4].str
  {
    hide DecodeSequence, ContextOf, SigningMessage, IsDecoded;
    var keyA, keyB := SignedWith(a, dataA, exporter).value.0, SignedWith(b, dataB, other).value.0;
    DecodedKept(dataA);
    DecodedKept(dataB);
    var contextA, contextB := ContextOf(a, keyA).value, ContextOf(b, keyB).value;
    MessageBinds(contextA, exporter(contextA).value[..EXPORTER_OUTPUT_PREFIX_SIZE],
                 contextB, other(contextB).value[..EXPORTER_OUTPUT_PREFIX_SIZE]);
    AcceptedIsSigned(a, dataA, exporter, verify);
    AcceptedIsSigned(b, dataB, other, verify);
    ContextBinds(a, b, keyA, keyB);
  }

  lemma ContextBinds(a: seq<DbufValString>, b: seq<DbufValString>, keyA: DbufVal, keyB: DbufVal)
    requires |a| >= 4 && |b| >= 4 && AllDecoded(a) && AllDecoded(b)
    requires IsDecoded(keyA.ToDbufValString()) && IsDecoded(keyB.ToDbufValString())
    requires keyA.typ == keyB.typ == TYPE_ARRAY && keyA.slice.Some? && keyB.slice.Some?
    requires ContextOf(a, keyA).Some? && ContextOf(a, keyA) == ContextOf(b, keyB)
    ensures a[1..4] == b[1..4] && keyA == keyB
  {
    hide Encoded, IsDecoded;
    var x, y := a[1..4] + [keyA.ToDbufValString()], b[1..4] + [keyB.ToDbufValString()];
    assert [a[1].ToDbufSeq(), a[2].ToDbufSeq(), a[3].ToDbufSeq(), keyA.ToDbufSeq()] == Revived(x);
    assert [b[1].ToDbufSeq(), b[2].ToDbufSeq(), b[3].ToDbufSeq(), keyB.ToDbufSeq()] == Revived(y);
    EncodedBinds(x, y);
    assert a[1..4] == x[..3] && b[1..4] == y[..3];
    assert keyA.ToDbufValString() == x[3] == y[3];
  }
}
