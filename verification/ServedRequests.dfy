/** What the server makes of a request: its headers, stored ones included, its path and its body. */
module ServedRequests {
  import opened Basics
  import opened Values
  import opened Decoder
  import opened Encoding
  import opened Trees
  import opened Language
  import opened Keys
  import opened Integers
  import opened Paths
  import opened Addresses
  import opened Merging
  import opened Authentication
  import opened HeaderStore
  import opened HeaderProperties
  import opened Streams
  import opened Requests
  import opened Contents

  // ------------------------------------------------------------------ merged headers

  /** The request's headers can be merged with these protected headers. */
  predicate MergesWith(m: Headers, str: seq<byte>, slack: nat) {
    SpansFrom(str, 0).Ok? && Mergeable(m, Suffix(m), ValuesRead(m, str, slack))
  }

  /** The union of the request's headers and the protected ones, as they are read. */
  function UnionWith(m: Headers, str: seq<byte>, slack: nat): Headers
    requires MergesWith(m, str, slack)
  {
    Union(m, Suffix(m), PairMap(ValuesRead(m, str, slack)))
  }

  lemma {:induction false} WithStoredExactly(m: Headers, str: seq<byte>, slack: nat)
    ensures WithStored(m, str, slack).Ok? <==> MergesWith(m, str, slack)
    ensures WithStored(m, str, slack).Ok? ==> WithStored(m, str, slack) == Ok(UnionWith(m, str, slack))
  {
    hide SpansFrom, DecodeSequence, Merge, MergeShared, ValuesRead, Mergeable, Union, PairMap, ReadIntact, Suffix;
    if SpansFrom(str, 0).Ok? {
      MergedAsRead(m, str, slack);
      MergeExactly(m, Suffix(m), ValuesRead(m, str, slack));
    }
  }

  // What a header asks of the store: nothing if it has no header_store entry, else what its first
  // one says.
  lemma AsksFor(details: seq<DbufVal>, k: int)
    requires k == -1 || KeyAt(details, HEADER_STORE, k)
    requires forall j :: 0 <= j && (j < k || k == -1) ==> !KeyAt(details, HEADER_STORE, j)
    ensures StoreRequest(details) == if k == -1 then Ok(Absent) else ParamsOf(details[k + 1])
  {
    hide ParamsOf;
    ValueFromFirst(details, HEADER_STORE, 0, k);
  }

  // What a written entry says: a scalar is an id to load, an array of a scalar, a map and anything
  // behind stores the map under the scalar. Nothing else is taken.
  lemma EntryRoundTrip(v: DbufValSeq)
    requires WellFormed(v) && Sized(v)
    ensures v.val.typ == TYPE_UINT ==> ParamsOf(SliceForm(v)) == Ok(LoadId(v.val.value))
    ensures IsArray(v) ==>
              && AllSized(v.sequence)
              && (ParamsOf(SliceForm(v)).Ok?
                  <==> |v.sequence| >= 2 && v.sequence[0].val.typ == TYPE_UINT && v.sequence[1].val.typ == TYPE_MAP)
              && (ParamsOf(SliceForm(v)).Ok? ==>
                    ParamsOf(SliceForm(v)) == Ok(StoreId(v.sequence[0].val.value, SliceForms(v.sequence))))
    ensures v.val.typ != TYPE_UINT && !IsArray(v) ==> ParamsOf(SliceForm(v)).Err?
  {
    hide DecodeSequence;
    if IsArray(v) {
      ArrayDecodes(v);
      if |v.sequence| >= 2 {
        ScalarKind(v.sequence[0]);
        ScalarKind(v.sequence[1]);
      }
    } else {
      ScalarKind(v);
    }
  }

  lemma ScalarKind(v: DbufValSeq)
    requires WellFormed(v) && Sized(v)
    ensures SliceForm(v).typ == v.val.typ
    ensures v.val.typ == TYPE_UINT ==> SliceForm(v) == Uint(v.val.value)
    ensures v.val.typ == TYPE_ARRAY ==> v.Nested?
  {
  }

  // A request without a header_store entry has just the pairs of its header, and nothing stored.
  lemma {:induction false} PlainRequest(c: Cache, details: seq<DbufVal>, check: Check, slack: nat)
    requires AllSound(c.entries) && |details| % 2 == 0 && forall j :: !KeyAt(details, HEADER_STORE, j)
    ensures PropertiesOf(c, details, check, slack) == (c, Ok(Properties(PairMap(details), None)))
  {
    hide StoreRequest, PairMap;
    AsksFor(details, -1);
  }

  // A request that loads an id is served exactly when there is an entry under it whose headers
  // can be merged; the headers are then the union, and nothing is stored.
  lemma {:induction false} LoadingRequest(c: Cache, details: seq<DbufVal>, id: u32, check: Check, slack: nat)
    requires AllSound(c.entries) && |details| % 2 == 0 && StoreRequest(details) == Ok(LoadId(id))
    ensures var (d, r) := PropertiesOf(c, details, check, slack); var m := PairMap(details);
            && d == c
            && (r.Ok? <==> id in c.entries && MergesWith(m, c.entries[id].params[1].str, slack))
            && (r.Ok? ==> r.value.headers == UnionWith(m, c.entries[id].params[1].str, slack)
                          && r.value.entry == Some(c.entries[id]))
  {
    hide StoreRequest, WithStored, MergesWith, UnionWith, PairMap;
    if id in c.entries {
      WithStoredExactly(PairMap(details), c.entries[id].params[1].str, slack);
    }
  }

  // A request that stores headers stores them exactly when they pass their checks and fit. It is
  // served exactly when its own headers can also be merged with them; its headers are then the
  // union, and its entry is the one stored, authenticated if it has more than headers.
  lemma {:induction false} StoringRequest(c: Cache, details: seq<DbufVal>, id: u32, vals: seq<DbufVal>,
                                          check: Check, slack: nat)
    requires Accounted(c) && |details| % 2 == 0 && StoreRequest(details) == Ok(StoreId(id, vals))
    requires Complete(Strings(vals), check)
    ensures |vals| >= 2
    ensures var (d, r) := PropertiesOf(c, details, check, slack); var m, params := PairMap(details), Strings(vals);
            var entry, str := Entry(params, |params| > 2), params[1].str;
            && d.entries == (if Admits(c, id, params, check) then c.entries[id := entry] else c.entries)
            && (r.Ok? <==> Admits(c, id, params, check) && MergesWith(m, str, slack))
            && (r.Ok? ==> r.value.headers == UnionWith(m, str, slack) && r.value.entry == Some(entry))
  {
    hide StoreRequest, WithStored, MergesWith, UnionWith, PairMap, Stored, Admits, Accounted;
    AccountedSound(c);
    StoresTwo(details);
    StoredExactly(c, id, Strings(vals), check);
    WithStoredExactly(PairMap(details), Strings(vals)[1].str, slack);
  }

  lemma StoresTwo(details: seq<DbufVal>)
    ensures StoreRequest(details).Ok? && StoreRequest(details).value.StoreId? ==>
              |StoreRequest(details).value.storeParams| >= 2
  {
  }

  // ---------------------------------------------------- an id in place of its headers

  const STORE_KEY: DbufValString := HEADER_STORE.ToDbufValString()

  // A value in place of another one, in the map of the pairs.
  lemma {:induction false} PairMapChanged(vals: seq<DbufVal>, k: nat, v: DbufVal)
    requires |vals| % 2 == 0 && k % 2 == 0 && k + 1 < |vals|
    requires forall j :: 0 <= j < |vals| && j % 2 == 0 && j != k ==>
               vals[j].ToDbufValString() != vals[k].ToDbufValString()
    ensures PairMap(vals[k + 1 := v]) == PairMap(vals)[vals[k].ToDbufValString() := v]
    ensures vals[k].ToDbufValString() in PairMap(vals)
    decreases |vals|
  {
    var n := |vals| - 2;
    var now := vals[k + 1 := v];
    if k == n {
      assert now[..n] == vals[..n];
    } else {
      assert now[..n] == vals[..n][k + 1 := v];
      PairMapChanged(vals[..n], k, v);
    }
  }

  // What stored headers are merged to depends on the request's keys and its reference only.
  lemma {:induction false} UnionChanged(m: Headers, key: DbufValString, v: DbufVal, str: seq<byte>, slack: nat)
    requires key in m && key != REFERENCE_KEY
    ensures MergesWith(m[key := v], str, slack) <==> MergesWith(m, str, slack)
    ensures MergesWith(m, str, slack) ==> UnionWith(m[key := v], str, slack) == UnionWith(m, str, slack)[key := v]
  {
    hide SpansFrom, DecodeSequence, MergeShared, PairMap, MergedValue, BufferOf, SharedVals;
    var n := m[key := v];
    assert Suffix(n) == Suffix(m);
    if SpansFrom(str, 0).Ok? {
      var read := ValuesRead(m, str, slack);
      assert ValuesRead(n, str, slack) == read;
      assert forall k :: 0 <= k < |read| ==>
        (FitsHeaders(n, Suffix(n), read[k]) <==> FitsHeaders(m, Suffix(m), read[k]));
      if MergesWith(m, str, slack) {
        KeyNotStored(m, key, read);
        assert key !in PairMap(read);
      }
    }
  }

  lemma KeyNotStored(m: Headers, key: DbufValString, read: seq<DbufVal>)
    requires key in m && key != REFERENCE_KEY && Mergeable(m, Suffix(m), read)
    ensures key !in PairMap(read)
  {
    PairMapKeys(read);
  }

  // The same request with the bare id in place of its headers, right after it: it is served with
  // the same stored headers, merged in the same way, and the same entry.
  lemma {:induction false} IdInPlace(c: Cache, details: seq<DbufVal>, k: nat, id: u32, vals: seq<DbufVal>,
                                     check: Check, other: Check, slack: nat)
    requires Accounted(c) && |details| % 2 == 0 && StoreRequest(details) == Ok(StoreId(id, vals))
    requires Complete(Strings(vals), check) && KeyAt(details, HEADER_STORE, k)
    requires forall j :: 0 <= j < |details| && j % 2 == 0 && j != k ==> details[j].ToDbufValString() != STORE_KEY
    requires PropertiesOf(c, details, check, slack).1.Ok?
    ensures var (d, r) := PropertiesOf(c, details, check, slack);
            && AllSound(d.entries)
            && PropertiesOf(d, details[k + 1 := Uint(id)], other, slack)
               == (d, Ok(Properties(r.value.headers[STORE_KEY := Uint(id)], r.value.entry)))
  {
    hide MergesWith, UnionWith, PairMap, Admits, Accounted, StoreRequest, PropertiesOf;
    AccountedSound(c);
    StoresTwo(details);
    StoringRequest(c, details, id, vals, check, slack);
    SoundAfter(c, details, id, vals, check, slack);
    var d := PropertiesOf(c, details, check, slack).0;
    var m, str, again := PairMap(details), Strings(vals)[1].str, details[k + 1 := Uint(id)];
    LoadsInstead(details, k, id);
    PairMapChanged(details, k, Uint(id));
    LoadingRequest(d, again, id, other, slack);
    UnionChanged(m, STORE_KEY, Uint(id), str, slack);
  }

  lemma SoundAfter(c: Cache, details: seq<DbufVal>, id: u32, vals: seq<DbufVal>, check: Check, slack: nat)
    requires Accounted(c) && |details| % 2 == 0 && StoreRequest(details) == Ok(StoreId(id, vals))
    requires Complete(Strings(vals), check)
    ensures AllSound(PropertiesOf(c, details, check, slack).0.entries)
  {
    hide StoreRequest, WithStored, PairMap, Stored, Accounted;
    AccountedSound(c);
    StoresTwo(details);
    StoreKeeps(c, id, Strings(vals), check);
    AccountedSound(Stored(c, id, Strings(vals), check).0);
  }

  lemma LoadsInstead(details: seq<DbufVal>, k: nat, id: u32)
    requires KeyAt(details, HEADER_STORE, k)
    requires forall j :: 0 <= j < |details| && j % 2 == 0 && j != k ==> details[j].ToDbufValString() != STORE_KEY
    ensures StoreRequest(details[k + 1 := Uint(id)]) == Ok(LoadId(id))
  {
    var again := details[k + 1 := Uint(id)];
    assert KeyAt(again, HEADER_STORE, k);
    AsksFor(again, k);
  }

  // ------------------------------------------------------------------------ bodies

  /** The header says where the body ends in this way and no other. */
  ghost predicate OnlyDeclares(headers: Headers, clp: BodyLengthProperties) {
    forall other :: Declares(headers, other) <==> other == clp
  }

  // A value in the header is the body, whatever the limit for bodies, and the stream stays unread.
  lemma ValueBody(headers: Headers, maxSize: int, bs: seq<byte>)
    requires VALUE_KEY in headers && BODY_LENGTH_KEY !in headers
    ensures var clp := BodyLengthProperties(Some(headers[VALUE_KEY]), None, false);
            && OnlyDeclares(headers, clp)
            && ContentFrom(clp, maxSize, bs)
               == Ok((ContentProperties(true, [headers[VALUE_KEY]], false, NO_FOOTER), bs))
            && SingleBody([headers[VALUE_KEY]]) == Ok(headers[VALUE_KEY])
  {
  }

  // Without a value and without a length there is no body.
  lemma NoBody(headers: Headers, maxSize: int, bs: seq<byte>)
    requires VALUE_KEY !in headers && BODY_LENGTH_KEY !in headers
    ensures var clp := BodyLengthProperties(None, None, false);
            && OnlyDeclares(headers, clp)
            && ContentFrom(clp, maxSize, bs) == Ok((ContentProperties(false, [], false, NO_FOOTER), bs))
            && SingleBody([]) == Err(DataKeyMissing)
  {
  }

  // A number in the header is the length of the body; the one registered value there announces an
  // end marker; a length beside a value, or of another kind, is refused.
  lemma BodyLengths(headers: Headers)
    requires BODY_LENGTH_KEY in headers
    ensures forall n: u64 :: VALUE_KEY !in headers && Encodes(headers[BODY_LENGTH_KEY], n) ==>
              OnlyDeclares(headers, Declared(n))
    ensures VALUE_KEY !in headers && headers[BODY_LENGTH_KEY] == Registry(REGISTRY_DESCRIBE_NO_VALUE) ==>
              OnlyDeclares(headers, MARKED)
    ensures VALUE_KEY in headers
            || (if headers[BODY_LENGTH_KEY].typ == TYPE_REGISTRY
                then headers[BODY_LENGTH_KEY].value != REGISTRY_DESCRIBE_NO_VALUE
                else GetU64Spec(headers[BODY_LENGTH_KEY]).Err?) ==>
              forall clp :: !Declares(headers, clp)
  {
    hide GetU64Spec, Encodes;
    var p := headers[BODY_LENGTH_KEY];
    forall n: u64 | VALUE_KEY !in headers && Encodes(p, n) ensures OnlyDeclares(headers, Declared(n)) {
      UnsignedRoundTrip(p, n);
      assert p.typ != TYPE_REGISTRY by { EncodingKind(p, n); }
    }
  }

  lemma EncodingKind(v: DbufVal, n: u64)
    requires Encodes(v, n)
    ensures v.typ == TYPE_UINT || v.typ == TYPE_INTEGER
  {
  }

  // More than one value is no single body, and neither is none.
  lemma SingleBodyExactly(body: seq<DbufVal>, v: DbufVal)
    ensures SingleBody(body) == Ok(v) <==> body == [v]
    ensures |body| != 1 ==> SingleBody(body).Err?
  {
  }

  // Without room for a body nothing is read, whatever the header says.
  lemma NoRoom(clp: BodyLengthProperties, maxSize: int, bs: seq<byte>)
    requires maxSize <= 0 && clp.value.None?
    ensures var declared := clp.indefinite || clp.length.Some?;
            ContentFrom(clp, maxSize, bs) == Ok((ContentProperties(declared, [], declared, NO_FOOTER), bs))
  {
  }

  // A value that the sender puts into a map header arrives as the body of the request, when it is
  // served: the value behind the key, in slice form, with nothing of the stream read. Stored
  // headers cannot take its place.
  lemma {:induction false} ValueArrives(h: DbufValSeq, k: nat, rest: seq<byte>, c: Cache, check: Check, slack: nat,
                                        maxSize: int)
    requires WellFormed(h) && Sized(h) && h.Nested? && h.val.typ == TYPE_MAP && GoodHeader(h)
    requires AllSound(c.entries) && KeyAt(SliceForms(h.sequence), Registry(REGISTRY_VALUE), k)
    ensures HeaderFrom(Enc(h) + rest) == Ok((HeaderParams(SliceForm(h), SliceForms(h.sequence)), rest))
    ensures k + 1 < |h.sequence| && Sized(h.sequence[k + 1])
    ensures (forall j :: !KeyAt(SliceForms(h.sequence), HEADER_STORE, j)) ==>
              PropertiesOf(c, SliceForms(h.sequence), check, slack).1.Ok?
    ensures var r := PropertiesOf(c, SliceForms(h.sequence), check, slack).1;
            r.Ok? ==>
              && VALUE_KEY in r.value.headers && r.value.headers[VALUE_KEY] == SliceForm(h.sequence[k + 1])
              && (BODY_LENGTH_KEY !in r.value.headers ==>
                    exists clp :: && OnlyDeclares(r.value.headers, clp)
                                  && ContentFrom(clp, maxSize, rest).Ok?
                                  && ContentFrom(clp, maxSize, rest).value.1 == rest
                                  && SingleBody(ContentFrom(clp, maxSize, rest).value.0.body)
                                     == Ok(SliceForm(h.sequence[k + 1])))
  {
    hide HeaderFrom, PropertiesOf, PairMap, Enc, EncAll, ValidRun, SliceForm, WellFormed, Sized, KeysUnique, Declares;
    GoodMap(h);
    HeaderRoundTrip(h, rest);
    var details := SliceForms(h.sequence);
    LookupsAgree(details, Registry(REGISTRY_VALUE));
    PropertiesKeep(c, details, check, slack, VALUE_KEY);
    if forall j :: !KeyAt(details, HEADER_STORE, j) {
      PlainRequest(c, details, check, slack);
    }
    var r := PropertiesOf(c, details, check, slack).1;
    if r.Ok? && BODY_LENGTH_KEY !in r.value.headers {
      ValueBody(r.value.headers, maxSize, rest);
      var clp := BodyLengthProperties(Some(r.value.headers[VALUE_KEY]), None, false);
      assert OnlyDeclares(r.value.headers, clp);
    }
  }

  lemma GoodMap(h: DbufValSeq)
    requires WellFormed(h) && Sized(h) && h.Nested? && h.val.typ == TYPE_MAP && GoodHeader(h)
    ensures |h.sequence| % 2 == 0 && AllSized(h.sequence) && KeysUnique(SliceForms(h.sequence))
  {
    hide KeysUnique, SliceForms, ValidItem;
  }

  // What is in the request's own header stays, the reference apart.
  lemma {:induction false} PropertiesKeep(c: Cache, details: seq<DbufVal>, check: Check, slack: nat, key: DbufValString)
    requires AllSound(c.entries) && |details| % 2 == 0 && key in PairMap(details) && key != REFERENCE_KEY
    ensures var r := PropertiesOf(c, details, check, slack).1;
            r.Ok? ==> key in r.value.headers && r.value.headers[key] == PairMap(details)[key]
  {
    hide StoreRequest, PairMap, WithStored, Stored;
    var m := PairMap(details);
    forall str | WithStored(m, str, slack).Ok?
      ensures key in WithStored(m, str, slack).value && WithStored(m, str, slack).value[key] == m[key]
    {
      WithStoredKeeps(m, str, slack, key);
    }
  }

  lemma WithStoredKeeps(m: Headers, str: seq<byte>, slack: nat, key: DbufValString)
    requires key in m && key != REFERENCE_KEY && WithStored(m, str, slack).Ok?
    ensures key in WithStored(m, str, slack).value && WithStored(m, str, slack).value[key] == m[key]
  {
    hide SpansFrom, MergeShared, AllFit, Distinct, PairMap, ValuesRead, MergedValue, Suffix;
    WithStoredExactly(m, str, slack);
    var read := ValuesRead(m, str, slack);
    assert key !in PairMap(read) by { KeyNotStored(m, key, read); }
  }
}
