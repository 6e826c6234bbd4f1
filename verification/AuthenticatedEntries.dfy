/** What a client sends to authenticate its headers, and what the server makes of it. */
module AuthenticatedEntries {
  import opened Basics
  import opened Values
  import opened Decoder
  import opened Encoding
  import opened Trees
  import opened Integers
  import opened Authentication
  import opened HeaderStore
  import opened HeaderProperties
  import opened Contents
  import opened Requests
  import opened ValidatedRequests
  import opened StoreProtocol

  predicate Written(v: DbufValSeq) {
    WellFormed(v) && Sized(v)
  }

  /** What `CreateHeaderStoreHeader` works with: headers, the values of the key manager, the
      keying material and the signature. */
  datatype Credentials = Credentials(headers: DbufValSeq, identity: DbufValSeq, identityKey: DbufValSeq,
                                     keyData: DbufValSeq, output: seq<byte>, signature: DbufValSeq)
  {
    predicate Valid() {
      && Written(headers) && Written(identity) && Written(identityKey) && Written(keyData) && Written(signature)
      && headers.Nested? && headers.val.typ == TYPE_MAP && |headers.sequence| % 2 == 0
      && EXPORTER_OUTPUT_PREFIX_SIZE <= |output| < TWO_TO_THE_32
    }

    /** The exporter context, made from trees. */
    function Context(): Option<seq<byte>> {
      Encoded([headers, identity, identityKey, keyData])
    }

    /** The key under which the key data is kept, made from trees. */
    function StorageKey(): Option<seq<byte>> {
      Encoded([Plain(Registry(REGISTRY_IDENTITY_KEY)), identity, identityKey])
    }

    function OutputSuffix(): seq<byte>
      requires Valid()
    {
      output[EXPORTER_OUTPUT_PREFIX_SIZE..]
    }

    /** The header_store entry that goes to the server. */
    ghost function StoreData(id: u64): DbufValSeq
      requires Valid()
    {
      HeaderStoreData(EncodingOf(id), headers, [identity, identityKey, Plain(ByteString(OutputSuffix())), signature])
    }

    /** A key as the server looks at it: an array of its type and a public key of the right size. */
    predicate GoodKey()
      requires Valid()
    {
      && keyData.Nested? && keyData.val.typ == TYPE_ARRAY && |keyData.sequence| >= 2
      && keyData.sequence[0] == Plain(Registry(REGISTRY_ED25519))
      && |SliceForm(keyData.sequence[1]).Bytes()| == PUBLIC_KEY_SIZE
    }

    /** The signature is that of the message by the key. */
    predicate Signed(verify: Verifier)
      requires Valid() && GoodKey() && Context().Some?
    {
      verify(SliceForm(keyData.sequence[1]).Bytes(),
             SigningMessage(Context().value, output[..EXPORTER_OUTPUT_PREFIX_SIZE]), SliceForm(signature).Bytes())
    }

    /** Identity and identity key survive being kept as strings. */
    predicate Keepable() {
      Short(identity) && Short(identityKey)
    }
  }

  /** The parameters `params` are those of the client's entry, as the server keeps them. */
  predicate ParamsFrom(params: seq<DbufValString>, k: Credentials)
    requires k.Valid()
  {
    && |params| == 6
    && params[1].ToDbufSeq() == Kept(k.headers) && params[1].str == SliceForm(k.headers).Bytes()
    && params[2].ToDbufSeq() == Kept(k.identity) && params[3].ToDbufSeq() == Kept(k.identityKey)
    && params[4].str == k.OutputSuffix() && params[5].str == SliceForm(k.signature).Bytes()
  }

  // What the server reads from the entry.
  lemma EntryParams(id: u32, k: Credentials)
    requires k.Valid() && Sized(k.StoreData(id))
    ensures var p := ParamsOf(SliceForm(k.StoreData(id)));
            p.Ok? && p.value.StoreId? && p.value.storeId == id && ParamsFrom(Strings(p.value.storeParams), k)
  {
    hide DecodeSequence, EncAll, Decodable, EncodingOf, WellFormed, Sized;
    var suffix := Plain(ByteString(k.OutputSuffix()));
    var vs := [Plain(EncodingOf(id)), k.headers, k.identity, k.identityKey, suffix, k.signature];
    assert vs == [Plain(EncodingOf(id)), k.headers] + [k.identity, k.identityKey, suffix, k.signature];
    IdForms(id);
    ArrayForm(k.StoreData(id), vs);
    WellFormedIsDecodable(k.headers);
    WellFormedIsDecodable(k.identity);
    WellFormedIsDecodable(k.identityKey);
    WellFormedIsDecodable(k.signature);
    SuffixForm(k.OutputSuffix());
    DecodeEncAll(vs) by {
      assert forall j :: 0 <= j < 6 ==> Decodable(vs[j]);
    }
  }

  lemma SuffixForm(b: seq<byte>)
    requires |b| < TWO_TO_THE_32
    ensures Sized(Plain(ByteString(b))) && Decodable(Plain(ByteString(b)))
    ensures SliceForm(Plain(ByteString(b))).Bytes() == b
  {
  }

  // The key data that the storage holds decodes to the key, and the key to its parts.
  lemma {:induction false} KeyParts(k: Credentials)
    requires k.Valid() && k.GoodKey()
    ensures DecodeSequence(Enc(k.keyData)) == Ok([SliceForm(k.keyData)])
    ensures SliceForm(k.keyData).typ == TYPE_ARRAY
    ensures DecodeSequence(SliceForm(k.keyData).Bytes()) == Ok(SliceForms(k.keyData.sequence))
    ensures SliceForm(k.keyData.sequence[0]) == Registry(REGISTRY_ED25519)
  {
    hide DecodeSequence, Enc, EncAll, Decodable;
    WellFormedIsDecodable(k.keyData);
    EncOfOne(k.keyData);
    DecodeEncAll([k.keyData]);
    NestedPayload(k.keyData);
    WritableDecodable(k.keyData.sequence);
    DecodeEncAll(k.keyData.sequence);
  }

  // The storage key that the server asks for, when it can make one, is that of the trees.
  lemma StorageKeysAgree(params: seq<DbufValString>, k: Credentials)
    requires k.Valid() && ParamsFrom(params, k)
    ensures k.StorageKey().Some?
    ensures Encoded(StorageKeyParts(params)) == if k.Keepable() then k.StorageKey() else None
  {
    hide Enc, EncAll, MeasureAll, Kept, Exact, Sized, WellFormed, SliceForm;
    var tag := Plain(Registry(REGISTRY_IDENTITY_KEY));
    var us, vs := [tag, k.identity, k.identityKey], StorageKeyParts(params);
    assert vs == [tag, Kept(k.identity), Kept(k.identityKey)];
    TagIsExact();
    KeptEncodes(k.identity);
    KeptEncodes(k.identityKey);
    WellFormedIsExact(k.identity);
    WellFormedIsExact(k.identityKey);
    AllSizedMeasures(us);
    AllSizedMeasures(vs);
    assert AllExact(vs) <==> Exact(vs[0]) && Exact(vs[1]) && Exact(vs[2]);
    SameEncodings(us, vs);
  }

  lemma TagIsExact()
    ensures Sized(Plain(Registry(REGISTRY_IDENTITY_KEY))) && Exact(Plain(Registry(REGISTRY_IDENTITY_KEY)))
  {
  }

  // What the server makes of the parameters, once it has found the key data.
  lemma {:induction false} KeyParamsChecked(params: seq<DbufValString>, k: Credentials, exporter: Exporter,
                                            verify: Verifier)
    requires k.Valid() && k.GoodKey() && k.Keepable() && ParamsFrom(params, k)
    requires k.Context().Some? && exporter(k.Context().value) == Some(k.output)
    ensures ValidKeyParams(params, Enc(k.keyData), exporter, verify) == if k.Signed(verify) then Accepted else Refused
  {
    hide Enc, EncAll, DecodeSequence, Kept, WellFormed, Sized, SliceForm, Encoded, SigningMessage;
    KeyParts(k);
    NestedIsShort(k.headers);
    ContextsAgree(k.headers, k.identity, k.identityKey, k.keyData);
  }

  lemma NestedIsShort(v: DbufValSeq)
    requires Written(v) && v.Nested?
    ensures Short(v)
  {
  }

  // The client's entry, end to end: when the storage keeps the client's key, both sides have the
  // same keying material and the client has signed with its key, the server accepts the entry
  // exactly if neither identity nor identity key is a scalar of 24 or more. It never panics on it.
  lemma ClientAuthenticates(id: u32, k: Credentials, storage: Storage, exporter: Exporter, verify: Verifier)
    requires k.Valid() && k.GoodKey() && Sized(k.StoreData(id))
    ensures k.Context().Some? && k.StorageKey().Some? && AuthorityOf(SliceForm(k.headers).Bytes()).Ok?
    ensures var p := ParamsOf(SliceForm(k.StoreData(id)));
            var authority := AuthorityOf(SliceForm(k.headers).Bytes()).value;
            && p.Ok? && p.value.StoreId? && p.value.storeId == id
            && (exporter(k.Context().value) == Some(k.output)
                && storage(authority, k.StorageKey().value) == Found(Enc(k.keyData)) ==>
                  CheckParams(Strings(p.value.storeParams), storage, exporter, verify)
                  == if k.Keepable() && k.Signed(verify) then Accepted else Refused)
  {
    hide Enc, EncAll, DecodeSequence, WellFormed, Sized, SliceForm, Encoded, ValidKeyParams, AuthorityOf;
    hide Credentials.GoodKey, Credentials.Signed, ParamsOf, Kept;
    ContextsAgree(k.headers, k.identity, k.identityKey, k.keyData);
    EntryParams(id, k);
    HeadersAreEven(k.headers);
    EvenAuthority(SliceForm(k.headers).Bytes());
    var params := Strings(ParamsOf(SliceForm(k.StoreData(id))).value.storeParams);
    StorageKeysAgree(params, k);
    if k.Keepable() && exporter(k.Context().value) == Some(k.output) {
      KeyParamsChecked(params, k, exporter, verify);
    }
  }

  lemma HeadersAreEven(headers: DbufValSeq)
    requires Written(headers) && headers.Nested? && |headers.sequence| % 2 == 0
    ensures EvenHeaders(SliceForm(headers).Bytes())
  {
    hide DecodeSequence, EncAll, Decodable;
    NestedPayload(headers);
    WritableDecodable(headers.sequence);
    DecodeEncAll(headers.sequence);
  }
}
