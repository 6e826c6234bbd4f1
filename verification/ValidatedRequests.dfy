/** What the validation of a header guarantees to the code that works on its details. */
module ValidatedRequests {
  import opened Basics
  import opened Values
  import opened Heads
  import opened Decoder
  import opened Encoding
  import opened Trees
  import opened Grammar
  import opened Acceptance
  import opened Language
  import opened Keys
  import opened Paths
  import opened Merging
  import opened Authentication
  import opened HeaderStore
  import opened HeaderProperties
  import opened Streams
  import opened Requests

  /** Protected headers that alternate keys and values. */
  predicate EvenHeaders(str: seq<byte>) {
    DecodeSequence(str).Ok? && |DecodeSequence(str).value| % 2 == 0
  }

  predicate WellStored(entries: map<u32, Entry>)
    requires AllSound(entries)
  {
    forall id :: id in entries ==> EvenHeaders(entries[id].params[1].str)
  }

  // The content of a valid container decodes to its items, an even number of them in a map.
  lemma {:induction false} ContainerDecodes(v: DbufValSeq)
    requires WellFormed(v) && Sized(v) && ValidItem(v) && v.Nested?
    ensures DecodeSequence(SliceForm(v).Bytes()) == Ok(SliceForms(v.sequence))
    ensures v.val.typ == TYPE_MAP ==> EvenHeaders(SliceForm(v).Bytes())
    ensures forall k :: 0 <= k < |v.sequence| ==>
      WellFormed(v.sequence[k]) && Sized(v.sequence[k]) && ValidItem(v.sequence[k])
  {
    hide DecodeSequence, EncAll;
    NestedPayload(v);
    WritableDecodable(v.sequence);
    DecodeEncAll(v.sequence);
  }

  // What a validated header asks to be stored has an even number of keys and values.
  lemma StoredIsEven(i: InitialDecode, buf: seq<byte>)
    requires i.TypeHasNesting() && |buf| < TWO_TO_THE_32 && CheckedHeader(i, buf).Ok?
    ensures var details := CheckedHeader(i, buf).value.headerDetails; var p := StoreRequest(details);
            && (i.typ == TYPE_MAP ==> |details| % 2 == 0)
            && (p.Ok? && p.value.StoreId? ==> EvenHeaders(Strings(p.value.storeParams)[1].str))
  {
    hide CheckedHeader, DecodeSequence, DecodeTrees, EncAll, WellFormed, Sized, ValidItem, EvenHeaders, SliceForm;
    HeaderExactly(i, buf);
    var vs := DecodeTrees(buf).value;
    var details := SliceForms(vs);
    var p := StoreRequest(details);
    if p.Ok? && p.value.StoreId? {
      var j := ValueFromWhere(details, HEADER_STORE, 0);
      var v := vs[j];
      FormParts(v);
      ContainerDecodes(v);
      FormParts(v.sequence[1]);
      ContainerDecodes(v.sequence[1]);
    }
  }

  lemma FormParts(v: DbufValSeq)
    requires WellFormed(v) && Sized(v)
    ensures SliceForm(v).typ == v.val.typ && (HasNesting(v.val.typ) <==> v.Nested?)
    ensures v.Nested? ==> SliceForm(v).slice.Some?
  {
  }

  lemma {:induction false} ValueFromWhere(vals: seq<DbufVal>, key: DbufVal, i: nat) returns (k: nat)
    requires ValueFrom(vals, key, i).Some?
    ensures k < |vals| && ValueFrom(vals, key, i) == Some(vals[k])
    decreases |vals| - i
  {
    if KeyAt(vals, key, i) {
      k := i + 1;
    } else {
      k := ValueFromWhere(vals, key, i + 1);
    }
  }

  // Merging an even number of stored keys and values never runs past the last one.
  lemma {:induction false} EvenNeverPanics(m: Headers, suffix: Option<DbufVal>, spans: seq<Span>, buf: seq<byte>)
    requires Within(spans, |buf|) && |spans| % 2 == 0
    ensures MergeShared(m, suffix, spans, buf) != Err(Panic)
    decreases |spans|
  {
    hide MergePair, BufferAfter;
    if spans != [] {
      MergeStep(m, suffix, spans, buf);
      PairExactly(m, suffix, spans[0].In(buf), spans[1].In(buf));
      var r := MergePair(m, suffix, spans[0].In(buf), spans[1].In(buf));
      if r.Ok? {
        EvenNeverPanics(r.value, suffix, spans[2..], BufferAfter(buf, suffix, spans[0], spans[1]));
      }
    }
  }

  lemma StoredNeverPanics(m: Headers, str: seq<byte>, slack: nat)
    requires EvenHeaders(str)
    ensures WithStored(m, str, slack) != Err(Panic)
  {
    hide DecodeSequence, MergeShared, SpansFrom, Vals;
    SpansDecode(str, 0);
    assert str[0..] == str;
    var spans := SpansFrom(str, 0);
    ValsInBuffer(spans.value, str, slack);
    EvenNeverPanics(m, Suffix(m), spans.value, BufferOf(str, slack));
  }

  // Protected headers that alternate keys and values have an authority, or none.
  lemma EvenAuthority(str: seq<byte>)
    requires EvenHeaders(str)
    ensures AuthorityOf(str).Ok?
  {
    hide DecodeSequence, PairMap, ReferencePath;
  }

  /** The request wants headers to be stored that fit the cache, and checking them panics. */
  predicate StorePanics(c: Cache, details: seq<DbufVal>, storage: Storage, exporter: Exporter)
    requires AllSound(c.entries)
  {
    var p := StoreRequest(details);
    && p.Ok? && p.value.StoreId?
    && NewSize(c, p.value.storeId, Strings(p.value.storeParams)) <= c.maxSize
    && ChecksPanic(Strings(p.value.storeParams), storage, exporter)
  }

  // On a validated header, finding its properties panics exactly when the header is an array with
  // an odd number of values, or it stores headers that fit and whose checks panic: with at least four
  // parameters that can be encoded, for whose authority the storage gives no transaction, or
  // keeps malformed key data. A map header has no odd number of values. The protected headers
  // that end up in the cache are such that this stays so for every later request.
  lemma {:induction false} PanicExactly(i: InitialDecode, buf: seq<byte>, c: Cache, storage: Storage,
                                        exporter: Exporter, verify: Verifier, slack: nat)
    requires i.TypeHasNesting() && |buf| < TWO_TO_THE_32 && CheckedHeader(i, buf).Ok?
    requires AllSound(c.entries) && WellStored(c.entries)
    ensures var details := CheckedHeader(i, buf).value.headerDetails;
            var (d, r) := PropertiesOf(c, details, Checks(details, storage, exporter, verify), slack);
            && (r == Err(Panic)
                <==> StoreRequest(details).Ok? && (|details| % 2 == 1 || StorePanics(c, details, storage, exporter)))
            && (i.typ == TYPE_MAP ==> |details| % 2 == 0)
            && AllSound(d.entries) && WellStored(d.entries)
    ensures var p := StoreRequest(CheckedHeader(i, buf).value.headerDetails);
            p.Ok? && p.value.StoreId? ==> AuthorityOf(Strings(p.value.storeParams)[1].str).Ok?
  {
    hide CheckedHeader, DecodeSequence, WithStored, PairMap, SizeOf, EvenHeaders, StoreRequest,
         CheckParams, ChecksPanic;
    hide AuthorityOf;
    StoredIsEven(i, buf);
    var details := CheckedHeader(i, buf).value.headerDetails;
    var p := StoreRequest(details);
    StoreErrors(details);
    if p.Ok? && p.value.StoreId? {
      var params := Strings(p.value.storeParams);
      EvenAuthority(params[1].str);
      ChecksPanicExactly(params, storage, exporter, verify);
      ChecksAreComplete(params, storage, exporter, verify);
    }
    if p.Ok? && |details| % 2 == 0 {
      var m := PairMap(details);
      match p.value
      case Absent =>
      case LoadId(id) =>
        if id in c.entries {
          StoredNeverPanics(m, c.entries[id].params[1].str, slack);
        }
      case StoreId(id, vals) =>
        StoredNeverPanics(m, Strings(vals)[1].str, slack);
    }
  }

  lemma StoreErrors(details: seq<DbufVal>)
    ensures StoreRequest(details) != Err(Panic)
  {
  }

  // --------------------------------------------------- headers that make it panic

  // The storage of some authority gives no transaction to headers that name none.
  lemma NoAuthorityNoTransaction(own: seq<DbufVal>, records: map<seq<byte>, seq<byte>>, key: seq<byte>)
    requires own != []
    ensures BadgerStorage(own, records)(None, key).NoTransaction?
  {
  }

  lemma ShortHead(b: byte, rest: seq<byte>)
    requires LowBits(b) < 24
    ensures ReadHead(ZERO_INITIAL, [b] + rest) == (InitialDecode(LowBits(b), TypeOf(b), 0, 0), rest)
    ensures CheckHead(ZERO_INITIAL, [b] + rest) == Done
  {
    assert ([b] + rest)[1..] == rest;
  }

  lemma RunScalar(place: Place, odd: bool, b: byte, rest: seq<byte>, marker: bool)
    requires LowBits(b) < 24 && !HasSlice(TypeOf(b))
    ensures Run(place, odd, [b] + rest, marker)
         == Run(place, Flip(place, odd), rest, InitialDecode(LowBits(b), TypeOf(b), 0, 0).IsEndMarker())
  {
    hide ReadHead, CheckHead, Run;
    ShortHead(b, rest);
    assert ([b] + rest)[1..] == rest;
    RunFirst(place, odd, [b] + rest, marker, InitialDecode(LowBits(b), TypeOf(b), 0, 0), 1);
  }

  lemma RunContainer(place: Place, odd: bool, b: byte, payload: seq<byte>, rest: seq<byte>, marker: bool)
    requires HasNesting(TypeOf(b)) && LowBits(b) == |payload| && 0 < |payload| < 24
    ensures var inner := Run(Inside(TypeOf(b) == TYPE_MAP), false, payload, false);
            Run(place, odd, [b] + (payload + rest), marker)
            == Then(inner, rest == [], Run(place, Flip(place, odd), rest, MarkerOf(inner)))
  {
    hide ReadHead, CheckHead, Run;
    ShortHead(b, payload + rest);
    var bs, k := [b] + (payload + rest), 1 + |payload|;
    assert bs[1..] == payload + rest && bs[1..k] == payload && bs[k..] == rest;
    RunFirst(place, odd, bs, marker, InitialDecode(LowBits(b), TypeOf(b), 0, 0), 1);
  }

  // A valid array header with the one value 0: no value follows it, and the program panics.
  lemma ArrayHeaderPanics(c: Cache, storage: Storage, exporter: Exporter, verify: Verifier, slack: nat)
    requires AllSound(c.entries)
    ensures var params := CheckedHeader(InitialDecode(1, TYPE_ARRAY, 0, 0), [0xE0]);
            && params.Ok? && params.value.headerDetails == [Uint(0)]
            && PropertiesOf(c, [Uint(0)], Checks([Uint(0)], storage, exporter, verify), slack).1 == Err(Panic)
  {
    hide DecodeSequence, Run;
    assert [0xE0] == [0xE0] + [];
    RunScalar(Inside(false), false, 0xE0, [], false);
    RunEmpty(Inside(false), false, false);
    DecodeNone();
    DecodeScalar(0xE0, []);
    assert [Uint(0)] + [] == [Uint(0)];
  }

  /** An id, a map of 0 to 0, an identity 0 and an identity key 0. */
  const FOUR_PARAMS: seq<byte> := [0xE0, 0xA2, 0xE0, 0xE0, 0xE0, 0xE0]

  /** The content of a header with nothing but these to store. */
  const PANIC_HEADER: seq<byte> := [0xCC, 0x86] + FOUR_PARAMS

  lemma TwoZerosRun(place: Place)
    requires place.Inside?
    ensures Run(place, false, [0xE0, 0xE0], false) == Good(false)
  {
    hide Run;
    assert [0xE0, 0xE0] == [0xE0] + [0xE0] && [0xE0] == [0xE0] + [];
    RunScalar(place, false, 0xE0, [0xE0], false);
    RunScalar(place, Flip(place, false), 0xE0, [], false);
    RunEmpty(place, false, false);
  }

  lemma {:induction false} PanicHeaderRuns()
    ensures Run(Inside(true), false, PANIC_HEADER, false).Good?
  {
    hide Run;
    var zeros: seq<byte> := [0xE0, 0xE0];
    TwoZerosRun(Inside(true));
    TwoZerosRun(Inside(false));
    assert FOUR_PARAMS == [0xE0] + ([0xA2] + (zeros + zeros));
    RunScalar(Inside(false), false, 0xE0, [0xA2] + (zeros + zeros), false);
    RunContainer(Inside(false), false, 0xA2, zeros, zeros, false);
    assert PANIC_HEADER == [0xCC] + ([0x86] + (FOUR_PARAMS + []));
    RunScalar(Inside(true), false, 0xCC, [0x86] + (FOUR_PARAMS + []), false);
    RunContainer(Inside(true), true, 0x86, FOUR_PARAMS, [], false);
    RunEmpty(Inside(true), false, false);
  }

  const ZERO_PAIR: DbufVal := DbufVal(TYPE_MAP, 0, Some([0xE0, 0xE0]))

  lemma DecodeScalar(b: byte, rest: seq<byte>)
    requires LowBits(b) < 24 && !HasSlice(TypeOf(b)) && DecodeSequence(rest).Ok?
    ensures DecodeSequence([b] + rest) == Ok([DbufVal(TypeOf(b), LowBits(b), None)] + DecodeSequence(rest).value)
  {
    hide Decode, DecodeSequence;
    DecodeShort(b, rest);
    DecodeFirst([b] + rest);
  }

  lemma DecodeSlice(b: byte, payload: seq<byte>, rest: seq<byte>)
    requires LowBits(b) == |payload| < 24 && HasSlice(TypeOf(b)) && DecodeSequence(rest).Ok?
    ensures DecodeSequence([b] + (payload + rest))
         == Ok([DbufVal(TypeOf(b), 0, Some(payload))] + DecodeSequence(rest).value)
  {
    hide Decode, DecodeSequence;
    assert (payload + rest)[..|payload|] == payload && (payload + rest)[|payload|..] == rest;
    DecodeShort(b, payload + rest);
    DecodeFirst([b] + (payload + rest));
  }

  lemma {:induction false} PanicHeaderDecodes()
    ensures DecodeSequence(PANIC_HEADER) == Ok([HEADER_STORE, DbufVal(TYPE_ARRAY, 0, Some(FOUR_PARAMS))])
    ensures DecodeSequence(FOUR_PARAMS) == Ok([Uint(0), ZERO_PAIR, Uint(0), Uint(0)])
    ensures DecodeSequence([0xE0, 0xE0]) == Ok([Uint(0), Uint(0)])
  {
    hide DecodeSequence;
    var zeros: seq<byte> := [0xE0, 0xE0];
    DecodeNone();
    assert zeros == [0xE0] + ([0xE0] + []);
    DecodeScalar(0xE0, []);
    DecodeScalar(0xE0, [0xE0] + []);
    assert [Uint(0), Uint(0)] == [Uint(0)] + ([Uint(0)] + []);
    assert FOUR_PARAMS == [0xE0] + ([0xA2] + (zeros + zeros));
    DecodeSlice(0xA2, zeros, zeros);
    DecodeScalar(0xE0, [0xA2] + (zeros + zeros));
    assert [Uint(0), ZERO_PAIR, Uint(0), Uint(0)] == [Uint(0)] + ([ZERO_PAIR] + [Uint(0), Uint(0)]);
    assert PANIC_HEADER == [0xCC] + ([0x86] + (FOUR_PARAMS + []));
    DecodeSlice(0x86, FOUR_PARAMS, []);
    DecodeScalar(0xCC, [0x86] + (FOUR_PARAMS + []));
    var array_ := DbufVal(TYPE_ARRAY, 0, Some(FOUR_PARAMS));
    assert [HEADER_STORE, array_] == [HEADER_STORE] + ([array_] + []);
  }

  // A valid map header that anyone may send: its headers to store name no authority, so the
  // storage gives no transaction, and the program panics.
  lemma MapHeaderPanics(storage: Storage, exporter: Exporter, verify: Verifier, slack: nat)
    requires forall key :: storage(None, key).NoTransaction?
    ensures var params := CheckedHeader(InitialDecode(8, TYPE_MAP, 0, 0), PANIC_HEADER);
            && params.Ok?
            && (var details := params.value.headerDetails;
                PropertiesOf(EmptyCache(HEADER_STORE_CACHE_MAX_SIZE), details,
                             Checks(details, storage, exporter, verify), slack).1
                == Err(Panic))
  {
    hide DecodeSequence, Run, CheckParams;
    PanicHeaderRuns();
    PanicHeaderDecodes();
    var details := [HEADER_STORE, DbufVal(TYPE_ARRAY, 0, Some(FOUR_PARAMS))];
    assert KeysUnique(details);
    assert CheckedHeader(InitialDecode(8, TYPE_MAP, 0, 0), PANIC_HEADER).value.headerDetails == details;
    assert KeyAt(details, HEADER_STORE, 0);
    var vals := [Uint(0), ZERO_PAIR, Uint(0), Uint(0)];
    assert StoreRequest(details) == Ok(StoreId(0, vals));
    FourParamsPanic(Strings(vals), storage, exporter, verify);
  }

  lemma FourParamsPanic(params: seq<DbufValString>, storage: Storage, exporter: Exporter, verify: Verifier)
    requires |params| == 4 && params[1] == ZERO_PAIR.ToDbufValString()
    requires params[2] == params[3] == Uint(0).ToDbufValString()
    requires forall key :: storage(None, key).NoTransaction?
    ensures CheckParams(params, storage, exporter, verify) == Panics
  {
    hide DecodeSequence, EncAll, ValidKeyParams;
    PanicHeaderDecodes();
    NoReference();
    var vs := StorageKeyParts(params);
    assert vs == [Plain(Registry(REGISTRY_IDENTITY_KEY)), params[2].ToDbufSeq(), params[3].ToDbufSeq()];
    assert MeasureAll(vs).Ok? && AllExact(vs) by { ThreeMeasure(vs); }
  }

  lemma ThreeMeasure(vs: seq<DbufValSeq>)
    requires |vs| == 3 && vs[0] == Plain(Registry(REGISTRY_IDENTITY_KEY))
             && vs[1] == vs[2] == Plain(DbufVal(TYPE_UINT, 0, Some([])))
    ensures MeasureAll(vs).Ok? && AllExact(vs)
  {
    assert Sized(vs[0]) && Sized(vs[1]) && Sized(vs[2]);
    AllSizedMeasures(vs);
  }

  lemma NoReference()
    ensures StoredReference([Uint(0), Uint(0)]) == Ok(None)
  {
    var vals := [Uint(0), Uint(0)];
    assert vals[..2] == vals && vals[..0] == [];
    assert Uint(0).ToDbufValString() != REFERENCE_KEY;
    assert PairMap(vals) == PairMap([])[Uint(0).ToDbufValString() := Uint(0)];
  }
}
