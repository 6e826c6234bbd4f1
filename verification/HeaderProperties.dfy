/** The headers of a request, merged with the stored headers it refers to. */
module HeaderProperties {
  import opened Basics
  import opened Values
  import opened Heads
  import opened Decoder
  import opened Keys
  import opened Paths
  import opened Merging
  import opened Authentication
  import opened HeaderStore

  const HEADER_STORE: DbufVal := Registry(REGISTRY_HEADER_STORE)

  // ------------------------------------------------------------ the header_store entry

  /** What a request asks of the header store. */
  datatype HeaderStoreParams =
    | Absent
    | LoadId(loadId: u32)
    | StoreId(storeId: u32, storeParams: seq<DbufVal>)

  /** An id to load, or an array of an id and a map of headers to store. */
  function ParamsOf(value: DbufVal): (r: Result<HeaderStoreParams>)
    ensures r.Ok? && r.value.StoreId? ==> |r.value.storeParams| >= 2
  {
    if value.typ == TYPE_UINT then Ok(LoadId(value.value))
    else if value.typ != TYPE_ARRAY then Err(DataTypeNotAccepted)
    else
      var sv := DecodeSequence(value.Bytes());
      if sv.Err? || |sv.value| < 2 then Err(DataValueNotAccepted)
      else if sv.value[0].typ != TYPE_UINT || sv.value[1].typ != TYPE_MAP then Err(DataTypeNotAccepted)
      else Ok(StoreId(sv.value[0].value, sv.value))
  }

  /** The value behind the first key, from position `i` on. */
  function ValueFrom(vals: seq<DbufVal>, key: DbufVal, i: nat): Option<DbufVal>
    decreases |vals| - i
  {
    if i + 1 >= |vals| then None else if KeyAt(vals, key, i) then Some(vals[i + 1]) else ValueFrom(vals, key, i + 1)
  }

  lemma {:induction false} ValueFromFirst(vals: seq<DbufVal>, key: DbufVal, i: nat, k: int)
    requires k == -1 || (i <= k && KeyAt(vals, key, k))
    requires forall j :: i <= j && (j < k || k == -1) ==> !KeyAt(vals, key, j)
    ensures ValueFrom(vals, key, i) == if k == -1 then None else Some(vals[k + 1])
    decreases |vals| - i
  {
    if i + 1 < |vals| && !KeyAt(vals, key, i) {
      ValueFromFirst(vals, key, i + 1, k);
    }
  }

  /** What the details of a header ask of the header store. */
  function StoreRequest(details: seq<DbufVal>): (r: Result<HeaderStoreParams>)
    ensures r.Ok? && r.value.StoreId? ==> |r.value.storeParams| >= 2
  {
    var value := ValueFrom(details, HEADER_STORE, 0);
    if value.None? then Ok(Absent) else ParamsOf(value.value)
  }

  predicate AllShortVals(vals: seq<DbufVal>) {
    forall k :: 0 <= k < |vals| ==> |vals[k].Bytes()| < TWO_TO_THE_32
  }

  method GetHeaderStoreParams(details: seq<DbufVal>) returns (r: Result<HeaderStoreParams>)
    requires AllShortVals(details)
    ensures r == StoreRequest(details)
  {
    hide DecodeSequence;
    var storeKeyIndex := FindKey(details, HEADER_STORE);
    ValueFromFirst(details, HEADER_STORE, 0, storeKeyIndex);
    if storeKeyIndex == -1 {
      return Ok(Absent);
    }
    var value := details[storeKeyIndex + 1];
    if value.typ == TYPE_UINT {
      return Ok(LoadId(value.value));
    }
    if value.typ != TYPE_ARRAY {
      return Err(DataTypeNotAccepted);
    }
    var sv := DecodeContent(value);
    if sv.Err? || |sv.value| < 2 {
      return Err(DataValueNotAccepted);
    }
    if sv.value[0].typ != TYPE_UINT || sv.value[1].typ != TYPE_MAP {
      return Err(DataTypeNotAccepted);
    }
    r := Ok(StoreId(sv.value[0].value, sv.value));
  }

  // ------------------------------------------------------------- the merged headers

  function Strings(vals: seq<DbufVal>): (ss: seq<DbufValString>)
    ensures |ss| == |vals|
  {
    seq(|vals|, k requires 0 <= k < |vals| => vals[k].ToDbufValString())
  }

  /** The reference of the request, which extends a stored one. */
  function Suffix(m: Headers): Option<DbufVal> {
    if REFERENCE_KEY in m then Some(m[REFERENCE_KEY]) else None
  }

  /** The buffer that protected headers are decoded from: it may be longer than they are. */
  function BufferOf(str: seq<byte>, slack: nat): (buf: seq<byte>)
    ensures |buf| == |str| + slack && buf[..|str|] == str
  {
    str + seq(slack, _ => 0)
  }

  /** The headers of a request merged with protected headers. */
  function WithStored(m: Headers, str: seq<byte>, slack: nat): Result<Headers> {
    var spans := SpansFrom(str, 0);
    if spans.Err? then Err(External)
    else
      SpansDecode(str, 0);
      MergeShared(m, Suffix(m), spans.value, BufferOf(str, slack))
  }

  datatype Properties = Properties(headers: Headers, entry: Option<Entry>)

  /** What a request does to the cache and what its properties are; `check` is what the checks
      of the parameters it wants to store come to. */
  function PropertiesOf(c: Cache, details: seq<DbufVal>, check: Check, slack: nat): (Cache, Result<Properties>)
    requires AllSound(c.entries)
  {
    var p := StoreRequest(details);
    if p.Err? then (c, Err(p.error))
    else if |details| % 2 == 1 then (c, Err(Panic))
    else
      var m := PairMap(details);
      match p.value
      case Absent => (c, Ok(Properties(m, None)))
      case LoadId(id) => (c, if id in c.entries then MergedWith(m, c.entries[id], slack) else Err(DataValueNotAccepted))
      case StoreId(id, vals) =>
        var (d, error) := Stored(c, id, Strings(vals), check);
        (d, if error.Some? then Err(error.value) else MergedWith(m, Entry(Strings(vals), |vals| > 2), slack))
  }

  function MergedWith(m: Headers, e: Entry, slack: nat): Result<Properties>
    requires |e.params| >= 2
  {
    var r := WithStored(m, e.params[1].str, slack);
    if r.Err? then Err(r.error) else Ok(Properties(r.value, Some(e)))
  }

  // ------------------------------------------------------------------- the operation

  datatype HeaderStoreProperties = HeaderStoreProperties(headers: Headers, cacheItem: Option<HeaderStoreCacheItem>)

  /** The pairs of a header as a map. */
  method BuildMap(details: seq<DbufVal>) returns (r: Result<Headers>)
    ensures r == if |details| % 2 == 1 then Err(Panic) else Ok(PairMap(details))
  {
    var m: Headers := map[];
    var i := 0;
    while i < |details|
      invariant i <= |details| && i % 2 == 0 && m == PairMap(details[..i])
    {
      if i + 1 >= |details| {
        return Err(Panic);
      }
      assert details[..i + 2][..i] == details[..i];
      m := m[details[i].ToDbufValString() := details[i + 1]];
      i := i + 2;
    }
    assert details[..i] == details;
    r := Ok(m);
  }

  method ToStrings(vals: seq<DbufVal>) returns (kp: seq<DbufValString>)
    ensures kp == Strings(vals)
  {
    kp := [];
    var i := 0;
    while i < |vals|
      invariant i <= |vals| && kp == Strings(vals)[..i]
    {
      kp := kp + [vals[i].ToDbufValString()];
      i := i + 1;
    }
  }

  /** Decodes protected headers into a fresh buffer and merges them. */
  method MergeProtected(m: Headers, str: seq<byte>, slack: nat) returns (r: Result<Headers>)
    requires |str| < TWO_TO_THE_32
    ensures r == WithStored(m, str, slack)
  {
    hide MergeShared, SpansFrom;
    var bytes := BufferOf(str, slack);
    var buf := new byte[|bytes|](k requires 0 <= k < |bytes| => bytes[k]);
    assert buf[..] == bytes;
    var spans := DecodeSpans(str);
    if spans.Err? {
      return Err(External);
    }
    SpansDecode(str, 0);
    r := MergeStored(m, Suffix(m), spans.value, buf);
  }

  /** What the checks of the parameters that a request wants to store come to. */
  function Checks(details: seq<DbufVal>, storage: Storage, exporter: Exporter, verify: Verifier): Check {
    var p := StoreRequest(details);
    if p.Ok? && p.value.StoreId? then CheckParams(Strings(p.value.storeParams), storage, exporter, verify) else Accepted
  }

  /** The object is the entry, if there is one. */
  ghost predicate Stands(item: Option<HeaderStoreCacheItem>, entry: Option<Entry>)
    reads if item.Some? then {item.value} else {}
  {
    item.Some? == entry.Some? && (item.Some? ==> item.value.TheEntry() == entry.value)
  }

  /** Stores or loads as the header asks, and merges the stored headers into its own. */
  method GetHeaderStoreProperties(c: HeaderStoreCache, details: seq<DbufVal>, storage: Storage, slack: nat)
    returns (r: Result<HeaderStoreProperties>)
    requires c.Valid() && c.maxSize <= TWO_TO_THE_32 && AllShortVals(details) && ShortAnswers(storage)
    modifies c
    ensures c.Valid()
    ensures var (d, p) := PropertiesOf(old(c.TheCache()), details, Checks(details, storage, c.exporter, c.verify),
                                    slack);
            && c.TheCache() == d
            && (p.Err? ==> r == Err(p.error))
            && (p.Ok? ==> r.Ok? && r.value.headers == p.value.headers && Stands(r.value.cacheItem, p.value.entry))
  {
    hide DecodeSequence, MergeShared, SpansFrom, WithStored, CheckParams, Stored, Accounted, PairMap,
         StoreRequest, Entries;
    ghost var before := c.TheCache();
    AccountedSound(before);
    var tp := GetHeaderStoreParams(details);
    if tp.Err? {
      return Err(tp.error);
    }
    var m := BuildMap(details);
    if m.Err? {
      return Err(m.error);
    }
    match tp.value
    case Absent =>
      r := Ok(HeaderStoreProperties(m.value, None));
    case LoadId(id) =>
      ItemsSound(c.cache);
      var ci := c.Load(id);
      if ci.Err? {
        return Err(ci.error);
      }
      EntryFits(before, id);
      var merged := MergeProtected(m.value, ci.value.ProtectedHeaders().str, slack);
      r := if merged.Err? then Err(merged.error) else Ok(HeaderStoreProperties(merged.value, Some(ci.value)));
    case StoreId(id, vals) =>
      var kp := ToStrings(vals);
      StoredShort(details);
      var ci := new HeaderStoreCacheItem(kp);
      var error := c.Store(ci, id, storage);
      if error.Some? {
        return Err(error.value);
      }
      var merged := MergeProtected(m.value, ci.ProtectedHeaders().str, slack);
      r := if merged.Err? then Err(merged.error) else Ok(HeaderStoreProperties(merged.value, Some(ci)));
  }

  lemma StoredShort(details: seq<DbufVal>)
    requires AllShortVals(details) && StoreRequest(details).Ok? && StoreRequest(details).value.StoreId?
    ensures |Strings(StoreRequest(details).value.storeParams)[1].str| < TWO_TO_THE_32
  {
    hide DecodeSequence;
    ValueFromShort(details, HEADER_STORE, 0);
    DecodedShort(ValueFrom(details, HEADER_STORE, 0).value.Bytes());
  }

  lemma {:induction false} ValueFromShort(vals: seq<DbufVal>, key: DbufVal, i: nat)
    requires AllShortVals(vals) && ValueFrom(vals, key, i).Some?
    ensures |ValueFrom(vals, key, i).value.Bytes()| < TWO_TO_THE_32
    decreases |vals| - i
  {
    if !KeyAt(vals, key, i) {
      ValueFromShort(vals, key, i + 1);
    }
  }

  // --------------------------------------------------------------------- theorems

  lemma {:induction false} MergedIsEven(m: Headers, suffix: Option<DbufVal>, spans: seq<Span>, buf: seq<byte>)
    requires Within(spans, |buf|) && MergeShared(m, suffix, spans, buf).Ok?
    ensures |spans| % 2 == 0
    decreases |spans|
  {
    hide MergePair, BufferAfter;
    if |spans| >= 2 {
      MergeStep(m, suffix, spans, buf);
      MergedIsEven(MergePair(m, suffix, spans[0].In(buf), spans[1].In(buf)).value, suffix, spans[2..],
                   BufferAfter(buf, suffix, spans[0], spans[1]));
    }
  }

  // The values stored under a buffer are those of its front, whatever lies behind.
  lemma ValsInBuffer(spans: seq<Span>, str: seq<byte>, slack: nat)
    requires Within(spans, |str|)
    ensures Within(spans, |BufferOf(str, slack)|) && Vals(spans, BufferOf(str, slack)) == Vals(spans, str)
  {
    var buf := BufferOf(str, slack);
    forall k | 0 <= k < |spans| ensures spans[k].In(buf) == spans[k].In(str) {
      assert buf[spans[k].start..spans[k].End()] == buf[..|str|][spans[k].start..spans[k].End()];
    }
  }

  /** The last stored reference is at position `k + 1`. */
  predicate HasReference(str: seq<byte>, k: nat) {
    SpansFrom(str, 0).Ok? && LastReference(SpansFrom(str, 0).value, k)
  }

  /** The last stored reference. */
  function ReferenceAt(str: seq<byte>, k: nat): DbufVal
    requires HasReference(str, k)
  {
    SpansDecode(str, 0);
    SpansFrom(str, 0).value[k + 1].In(str)
  }

  /** The stored values as the merging loop comes to read them. */
  function ValuesRead(m: Headers, str: seq<byte>, slack: nat): seq<DbufVal>
    requires SpansFrom(str, 0).Ok?
  {
    SpansDecode(str, 0);
    SharedVals(SpansFrom(str, 0).value, Suffix(m), BufferOf(str, slack))
  }

  /** The value at position `i` is read as it was stored: no byte of its slice has been written
      over with another one behind an earlier reference. */
  predicate ReadIntact(m: Headers, str: seq<byte>, slack: nat, i: nat)
    requires SpansFrom(str, 0).Ok? && i < |SpansFrom(str, 0).value|
  {
    SpansDecode(str, 0);
    Intact(SpansFrom(str, 0).value, Suffix(m), BufferOf(str, slack), i)
  }

  // The places of the stored values, and the buffer they share.
  lemma {:induction false} Reading(m: Headers, str: seq<byte>, slack: nat) returns (spans: seq<Span>, buf: seq<byte>)
    requires SpansFrom(str, 0).Ok?
    ensures spans == SpansFrom(str, 0).value && buf == BufferOf(str, slack)
    ensures Within(spans, |str|) && Within(spans, |buf|) && Vals(spans, buf) == Vals(spans, str)
    ensures DecodeSequence(str) == Ok(Vals(spans, str))
    ensures ValuesRead(m, str, slack) == SharedVals(spans, Suffix(m), buf)
    ensures WithStored(m, str, slack) == MergeShared(m, Suffix(m), spans, buf)
  {
    hide SpansFrom, DecodeSequence, MergeShared, SharedVals, Vals;
    spans, buf := SpansFrom(str, 0).value, BufferOf(str, slack);
    SpansDecode(str, 0);
    assert str[0..] == str;
    ValsInBuffer(spans, str, slack);
  }

  lemma {:induction false} ReadIntactIs(m: Headers, str: seq<byte>, slack: nat, i: nat)
    requires SpansFrom(str, 0).Ok? && i < |SpansFrom(str, 0).value|
    ensures Within(SpansFrom(str, 0).value, |BufferOf(str, slack)|)
    ensures ReadIntact(m, str, slack, i) <==> Intact(SpansFrom(str, 0).value, Suffix(m), BufferOf(str, slack), i)
  {
    hide SpansFrom, Intact;
    SpansDecode(str, 0);
  }

  // What merging makes of the stored values: what it would make of them as values, except that
  // it reads some of them from an overwritten buffer.
  lemma MergedAsRead(m: Headers, str: seq<byte>, slack: nat)
    requires SpansFrom(str, 0).Ok?
    ensures DecodeSequence(str).Ok?
            && |DecodeSequence(str).value| == |SpansFrom(str, 0).value| == |ValuesRead(m, str, slack)|
    ensures WithStored(m, str, slack) == Merge(m, Suffix(m), ValuesRead(m, str, slack))
    ensures forall i :: 0 <= i < |DecodeSequence(str).value| ==>
              (ValuesRead(m, str, slack)[i] == DecodeSequence(str).value[i] <==> ReadIntact(m, str, slack, i))
    ensures forall i :: 0 <= i < |DecodeSequence(str).value| ==>
              AsDecoded(ValuesRead(m, str, slack)[i]) && AsDecoded(DecodeSequence(str).value[i])
  {
    hide SpansFrom, BufferOf, ValuesRead, WithStored, DecodeSequence, Merge, MergeShared, ReadIntact, Intact;
    hide SharedVals, Span.In, Span.IsReference, AsDecoded, Suffix;
    var spans, buf := Reading(m, str, slack);
    SharedIsMerge(m, Suffix(m), spans, buf);
    SharedKeys(spans, Suffix(m), buf);
    forall i | 0 <= i < |spans|
      ensures ValuesRead(m, str, slack)[i] == DecodeSequence(str).value[i] <==> ReadIntact(m, str, slack, i)
    {
      ReadIntactIs(m, str, slack, i);
      IntactExactly(spans, Suffix(m), buf, i);
      assert Vals(spans, buf)[i] == spans[i].In(buf);
    }
  }

  // The last stored reference, as stored and as merged.
  lemma {:induction false} ReferencesOf(m: Headers, str: seq<byte>, slack: nat, k: nat)
    requires HasReference(str, k) && WithStored(m, str, slack).Ok?
    ensures DecodeSequence(str).Ok? && |ValuesRead(m, str, slack)| == |DecodeSequence(str).value| > k + 1
    ensures DecodeSequence(str).value[k + 1] == ReferenceAt(str, k)
    ensures ValuesRead(m, str, slack)[k + 1].typ == ReferenceAt(str, k).typ
    ensures StoredReference(DecodeSequence(str).value) == Ok(Some(ReferenceAt(str, k)))
    ensures REFERENCE_KEY in WithStored(m, str, slack).value
    ensures WithStored(m, str, slack).value[REFERENCE_KEY]
         == MergedValue(Suffix(m), REFERENCE_KEY, ValuesRead(m, str, slack)[k + 1])
  {
    hide SpansFrom, BufferOf, ValuesRead, WithStored, DecodeSequence, MergeShared, SharedVals, Extended, PairMap, Equal;
    hide Span.In, Span.IsReference, Suffix, Within, AsDecoded;
    var spans, buf := Reading(m, str, slack);
    MergedIsEven(m, Suffix(m), spans, buf);
    var vals := Vals(spans, str);
    assert vals[..|vals|] == vals;
    SharedKeys(spans, Suffix(m), str);
    ReferenceInMap(spans, vals, k);
    MergeReference(m, Suffix(m), spans, buf, k);
    SharedTypes(spans, Suffix(m), buf, k + 1);
  }

  lemma SharedTypes(spans: seq<Span>, suffix: Option<DbufVal>, buf: seq<byte>, i: nat)
    requires Within(spans, |buf|) && i < |spans|
    ensures SharedVals(spans, suffix, buf)[i].typ == spans[i].typ == Vals(spans, buf)[i].typ
  {
    hide BufferBefore;
  }

  // Without a reference in the request nothing is written.
  lemma {:induction false} NothingWritten(m: Headers, str: seq<byte>, slack: nat, i: nat)
    requires SpansFrom(str, 0).Ok? && i < |SpansFrom(str, 0).value| && REFERENCE_KEY !in m
    ensures ReadIntact(m, str, slack, i)
  {
    hide SpansFrom, LastWrite;
    SpansDecode(str, 0);
  }

  /** The content of a value of this type is that of a reference: the host and what it is. */
  predicate SpellPath(typ: kind, vals: Result<seq<DbufVal>>) {
    typ == TYPE_ARRAY && vals.Ok? && |vals.value| >= 2 && Equal(vals.value[0], Registry(REGISTRY_HOST))
  }

  lemma SpelledPath(p: DbufVal, suffix: seq<byte>)
    ensures var vals := DecodeSequence(p.Bytes() + suffix); var path := ReferencePath(Extended(p, suffix));
            && (path.Ok? <==> SpellPath(p.typ, vals))
            && (path.Ok? ==> path.value == (AuthorityPart(vals.value), SubPathPart(vals.value)))
  {
    hide DecodeSequence, Equal, AuthorityPart, SubPathPart;
    assert Extended(p, suffix).Bytes() == p.Bytes() + suffix;
  }

  // Whom a merged request is addressed to, for any stored references: the merged reference is
  // the last stored one with the request's own behind it exactly when that stored one is read
  // intact. Then it has the authority of the stored headers, given that they have one, exactly if
  // it has a marker or the extension is empty or starts with one. If the stored reference is read
  // from an overwritten buffer, it is the bytes read and the extension together that count.
  lemma AuthorityPreserved(m: Headers, str: seq<byte>, slack: nat, k: nat)
    requires HasReference(str, k) && WithStored(m, str, slack).Ok?
    ensures var path := ReferencePath(ReferenceAt(str, k));
            AuthorityOf(str) == Ok(if path.Ok? then Some(path.value.0) else None)
    ensures REFERENCE_KEY in WithStored(m, str, slack).value && |ValuesRead(m, str, slack)| > k + 1
    ensures REFERENCE_KEY !in m ==> WithStored(m, str, slack).value[REFERENCE_KEY] == ReferenceAt(str, k)
    ensures REFERENCE_KEY in m ==>
              var (stored, read) := (ReferenceAt(str, k), ValuesRead(m, str, slack)[k + 1]);
              var merged, suffix := WithStored(m, str, slack).value[REFERENCE_KEY], m[REFERENCE_KEY].Bytes();
              var all := DecodeSequence(read.Bytes() + suffix);
              && merged == Extended(read, suffix)
              && (merged == Extended(stored, suffix) <==> ReadIntact(m, str, slack, k + 1))
              && (ReferencePath(merged).Ok? <==> SpellPath(stored.typ, all))
              && (ReferencePath(merged).Ok? ==>
                    && ReferencePath(merged).value == (AuthorityPart(all.value), SubPathPart(all.value))
                    && (Ok(Some(ReferencePath(merged).value.0)) == AuthorityOf(str)
                        <==> ReferencePath(stored).Ok? && ReferencePath(stored).value.0 == AuthorityPart(all.value)))
    ensures REFERENCE_KEY in m && ReferencePath(ReferenceAt(str, k)).Ok? && ReadIntact(m, str, slack, k + 1) ==>
              var stored, merged := ReferenceAt(str, k), WithStored(m, str, slack).value[REFERENCE_KEY];
              var vals, more := DecodeSequence(stored.Bytes()).value, DecodeSequence(m[REFERENCE_KEY].Bytes());
              && (ReferencePath(merged).Ok? <==> more.Ok?)
              && (more.Ok? ==>
                    && (Ok(Some(ReferencePath(merged).value.0)) == AuthorityOf(str)
                        <==> HasMarker(vals) || more.value == [] || IsMarker(more.value[0]))
                    && (HasMarker(vals)
                        ==> ReferencePath(merged).value.1 == ReferencePath(stored).value.1 + more.value))
  {
    hide WithStored, SpansFrom, DecodeSequence, ReferencePath, IsMarker, HasMarker, AuthorityPart, Extended, ValuesRead;
    hide StoredReference, Intact, SpellPath, SubPathPart;
    ReferencesOf(m, str, slack, k);
    MergedAsRead(m, str, slack);
    var stored, read := ReferenceAt(str, k), ValuesRead(m, str, slack)[k + 1];
    if REFERENCE_KEY !in m {
      NothingWritten(m, str, slack, k + 1);
    } else {
      var suffix := m[REFERENCE_KEY].Bytes();
      if Extended(read, suffix) == Extended(stored, suffix) {
        ExtendedBinds(read, stored, suffix);
      }
      SpelledPath(read, suffix);
      if ReferencePath(stored).Ok? {
        ExtendedPath(stored, suffix);
      }
    }
  }

  // With a marker the extension adds nothing to the authority.
  lemma {:induction false} MarkedAuthority(p: DbufVal, suffix: seq<byte>)
    requires ReferencePath(p).Ok? && DecodeSequence(suffix).Ok?
    ensures ReferencePath(Extended(p, suffix)).Ok?
    ensures var vals, more := DecodeSequence(p.Bytes()).value, DecodeSequence(suffix).value;
            ReferencePath(Extended(p, suffix)).value.0
            == ReferencePath(p).value.0 + if HasMarker(vals) then [] else AuthorityPart(more)
  {
    hide DecodeSequence, HasMarker, IsMarker, AuthorityPart, SubPathPart;
    ExtendedPath(p, suffix);
    var was := ReferencePath(p).value.0;
    assert was + [] == was;
  }

  // When the merged headers are the union of the request's and the stored ones, for any stored
  // keys: when the values that the loop reads can be merged and make the same map as the stored
  // ones. They are the stored ones exactly when all are read intact. A key on both sides or
  // twice is refused, the reference apart.
  lemma {:induction false} MergedHeaders(m: Headers, str: seq<byte>, slack: nat)
    ensures DecodeSequence(str).Err? ==> WithStored(m, str, slack) == Err(External)
    ensures SpansFrom(str, 0).Ok? <==> DecodeSequence(str).Ok?
    ensures DecodeSequence(str).Ok? ==>
              var vals, read := DecodeSequence(str).value, ValuesRead(m, str, slack);
              && |read| == |vals| == |SpansFrom(str, 0).value|
              && (WithStored(m, str, slack).Ok? <==> Mergeable(m, Suffix(m), read))
              && (read == vals <==> forall i :: 0 <= i < |vals| ==> ReadIntact(m, str, slack, i))
              && (Mergeable(m, Suffix(m), vals) ==>
                    (WithStored(m, str, slack) == Ok(Union(m, Suffix(m), PairMap(vals)))
                     <==> Mergeable(m, Suffix(m), read) && PairMap(read) == PairMap(vals)))
  {
    hide SpansFrom, BufferOf, ValuesRead, DecodeSequence, MergeShared, Merge, SharedVals, Vals, ReadIntact;
    hide PairMap, Union, Mergeable, Suffix, AsDecoded;
    SpansDecode(str, 0);
    assert str[0..] == str;
    if DecodeSequence(str).Ok? {
      var spans, buf := Reading(m, str, slack);
      MergedAsRead(m, str, slack);
      var vals, read := DecodeSequence(str).value, ValuesRead(m, str, slack);
      MergeExactly(m, Suffix(m), read);
      if read == vals {
        assert forall i :: 0 <= i < |vals| ==> read[i] == vals[i];
      }
      if Mergeable(m, Suffix(m), vals) {
        UnionExactly(m, Suffix(m), spans, buf);
      }
    }
  }

  // ------------------------------------------------------------- a redirected request

  /** Two stored references to the same host, each with an authority marker. */
  const TWICE: seq<byte> := [0xC8, 0x84, 0xCB, 0x41, 0x61, 0xCA, 0xC8, 0x84, 0xCB, 0x41, 0x61, 0xCA]

  const TWICE_SPANS: seq<Span> := [
    Span(TYPE_REGISTRY, REGISTRY_REFERENCE, 1, 0), Span(TYPE_ARRAY, 0, 2, 4),
    Span(TYPE_REGISTRY, REGISTRY_REFERENCE, 7, 0), Span(TYPE_ARRAY, 0, 8, 4)]

  /** Two registry values, and then a reference to another host. */
  const REDIRECT: seq<byte> := [0xC0, 0xC0, 0xCB, 0x41, 0x62, 0xCA]

  const HOST: DbufVal := Registry(REGISTRY_HOST)
  const MARKER: DbufVal := Registry(REGISTRY_AUTHORITY_MARKER)

  function Name(letter: byte): DbufVal {
    DbufVal(TYPE_TEXT, 0, Some([letter]))
  }

  /** The content of a reference to a host with a name of one letter. */
  function HostBytes(letter: byte): seq<byte> {
    [0xCB, 0x41, letter, 0xCA]
  }

  lemma {:induction false} SpanStep(data: seq<byte>, index: nat)
    requires index < |data| && LowBits(data[index]) < 24
    requires var len := if HasSlice(TypeOf(data[index])) then LowBits(data[index]) else 0; index + 1 + len <= |data|
    ensures var (typ, low) := (TypeOf(data[index]), LowBits(data[index]));
            var (value, len) := if HasSlice(typ) then (0, low) else (low, 0);
            SpansFrom(data, index)
            == Prepend([Span(typ, value, index + 1, len)], SpansFrom(data, index + 1 + len))
  {
    hide Decode;
    var rest := data[index + 1..];
    assert data[index..] == [data[index]] + rest;
    DecodeShort(data[index], rest);
    var len := if HasSlice(TypeOf(data[index])) then LowBits(data[index]) else 0;
    assert |rest[len..]| == |data| - (index + 1 + len);
  }

  lemma {:induction false} TwiceSpans()
    ensures SpansFrom(TWICE, 0) == Ok(TWICE_SPANS) && LastReference(TWICE_SPANS, 2)
  {
    hide SpansFrom;
    SpanStep(TWICE, 0);
    SpanStep(TWICE, 1);
    SpanStep(TWICE, 6);
    SpanStep(TWICE, 7);
    SpansEnd(TWICE);
    assert TWICE_SPANS == [TWICE_SPANS[0]] + ([TWICE_SPANS[1]] + ([TWICE_SPANS[2]] + ([TWICE_SPANS[3]] + [])));
  }

  lemma SpansEnd(data: seq<byte>)
    ensures SpansFrom(data, |data|) == Ok([])
  {
  }

  lemma HostDecodes(letter: byte)
    ensures DecodeSequence(HostBytes(letter)) == Ok([HOST, Name(letter), MARKER])
    ensures ReferencePath(DbufVal(TYPE_ARRAY, 0, Some(HostBytes(letter)))) == Ok(([HOST, Name(letter)], []))
  {
    hide Decode, DecodeSequence;
    assert HostBytes(letter) == [0xCB] + [0x41, letter, 0xCA] && [0x41, letter, 0xCA] == [0x41] + [letter, 0xCA];
    DecodeShort(0xCB, [0x41, letter, 0xCA]);
    DecodeFirst(HostBytes(letter));
    DecodeShort(0x41, [letter, 0xCA]);
    DecodeFirst([0x41, letter, 0xCA]);
    assert [letter, 0xCA][..1] == [letter] && [letter, 0xCA][1..] == [0xCA] == [0xCA] + [];
    DecodeShort(0xCA, []);
    DecodeFirst([0xCA]);
    DecodeNone();
    assert [HOST, Name(letter), MARKER] == [HOST] + ([Name(letter)] + ([MARKER] + []));
    HostPath(letter);
  }

  lemma HostPath(letter: byte)
    ensures AuthorityPart([HOST, Name(letter), MARKER]) == [HOST, Name(letter)]
    ensures SubPathPart([HOST, Name(letter), MARKER]) == []
  {
    var vals := [HOST, Name(letter), MARKER];
    assert !IsMarker(vals[0]) && !IsMarker(vals[1]) && IsMarker(vals[2]);
    PartsAt(vals, 2);
    assert vals[..2] == [HOST, Name(letter)] && vals[3..] == [];
  }

  lemma {:induction false} RedirectDecodes()
    ensures DecodeSequence(REDIRECT).Ok?
  {
    hide Decode, DecodeSequence;
    HostDecodes(0x62);
    assert REDIRECT == [0xC0] + ([0xC0] + HostBytes(0x62));
    DecodeShort(0xC0, [0xC0] + HostBytes(0x62));
    DecodeFirst(REDIRECT);
    DecodeShort(0xC0, HostBytes(0x62));
    DecodeFirst([0xC0] + HostBytes(0x62));
  }

  // With two stored references, the write behind the first can change the last: the request is
  // then addressed to a host of its own choice, and not to the one of the stored headers.
  lemma {:induction false} RedirectedRequest()
    ensures var suffix := DbufVal(TYPE_ARRAY, 0, Some(REDIRECT));
            var r := WithStored(map[REFERENCE_KEY := suffix], TWICE, 0);
            && AuthorityOf(TWICE) == Ok(Some([HOST, Name(0x61)]))
            && r.Ok? && REFERENCE_KEY in r.value
            && r.value[REFERENCE_KEY] == DbufVal(TYPE_ARRAY, 0, Some(HostBytes(0x62) + REDIRECT))
            && ReferencePath(r.value[REFERENCE_KEY]).Ok?
            && ReferencePath(r.value[REFERENCE_KEY]).value.0 == [HOST, Name(0x62)]
  {
    hide SpansFrom, DecodeSequence, WithStored, ReferencePath, AuthorityOf;
    var suffix := DbufVal(TYPE_ARRAY, 0, Some(REDIRECT));
    var m: Headers := map[REFERENCE_KEY := suffix];
    TwiceSpans();
    TwiceMerges(m, suffix);
    var read := DbufVal(TYPE_ARRAY, 0, Some(HostBytes(0x62)));
    TwiceRead(m, suffix);
    HostDecodes(0x61);
    HostDecodes(0x62);
    RedirectDecodes();
    assert ReferenceAt(TWICE, 2) == DbufVal(TYPE_ARRAY, 0, Some(HostBytes(0x61))) by {
      assert TWICE[8..12] == HostBytes(0x61);
    }
    AuthorityPreserved(m, TWICE, 0, 2);
    MarkedAuthority(read, REDIRECT);
    assert HasMarker([HOST, Name(0x62), MARKER]) by { assert IsMarker([HOST, Name(0x62), MARKER][2]); }
  }

  lemma {:induction false} TwiceMerges(m: Headers, suffix: DbufVal)
    requires suffix == DbufVal(TYPE_ARRAY, 0, Some(REDIRECT)) && m == map[REFERENCE_KEY := suffix]
    ensures WithStored(m, TWICE, 0).Ok?
  {
    hide SpansFrom, DecodeSequence, WithStored, Merge;
    TwiceSpans();
    MergedAsRead(m, TWICE, 0);
    var read := ValuesRead(m, TWICE, 0);
    TwiceKeys(m);
    MergeExactly(m, Some(suffix), read);
  }

  lemma {:induction false} TwiceKeys(m: Headers)
    ensures SpansFrom(TWICE, 0).Ok? && |ValuesRead(m, TWICE, 0)| == 4
    ensures ValuesRead(m, TWICE, 0)[0].ToDbufValString()
         == ValuesRead(m, TWICE, 0)[2].ToDbufValString() == REFERENCE_KEY
  {
    hide SpansFrom, Span.In, BufferBefore;
    TwiceSpans();
    var spans, buf := Reading(m, TWICE, 0);
    SharedKeys(spans, Suffix(m), buf);
    assert spans[0].IsReference() && spans[2].IsReference();
  }

  lemma {:induction false} TwiceRead(m: Headers, suffix: DbufVal)
    requires suffix == DbufVal(TYPE_ARRAY, 0, Some(REDIRECT)) && m == map[REFERENCE_KEY := suffix]
    ensures SpansFrom(TWICE, 0).Ok? && |ValuesRead(m, TWICE, 0)| == 4
    ensures ValuesRead(m, TWICE, 0)[3] == DbufVal(TYPE_ARRAY, 0, Some(HostBytes(0x62)))
  {
    hide SpansFrom, Span.In, BufferBefore, BufferOf, Overwrite, HostBytes;
    TwiceSpans();
    var spans, buf := Reading(m, TWICE, 0);
    assert buf == TWICE by { NoSlack(TWICE); }
    TwiceBuffer(suffix);
    assert PairAt(3) == 2;
    TwiceSlice(TWICE[..6] + REDIRECT);
  }

  lemma NoSlack(str: seq<byte>)
    ensures BufferOf(str, 0) == str
  {
  }

  // The buffer behind the first reference.
  lemma TwiceBuffer(suffix: DbufVal)
    requires suffix == DbufVal(TYPE_ARRAY, 0, Some(REDIRECT))
    ensures Within(TWICE_SPANS, |TWICE|)
    ensures BufferBefore(TWICE_SPANS, Some(suffix), TWICE, 2) == TWICE[..6] + REDIRECT
  {
    hide Overwrite;
    assert BufferBefore(TWICE_SPANS, Some(suffix), TWICE, 0) == TWICE;
    assert Overwrite(TWICE, 6, REDIRECT) == TWICE[..6] + REDIRECT by { OverwriteEnd(TWICE, 6, REDIRECT); }
  }

  lemma OverwriteEnd(buf: seq<byte>, at: nat, bs: seq<byte>)
    requires at + |bs| == |buf|
    ensures Overwrite(buf, at, bs) == buf[..at] + bs
  {
    assert buf[..at] + bs + [] == buf[..at] + bs;
  }

  lemma TwiceSlice(buf: seq<byte>)
    requires buf == TWICE[..6] + REDIRECT
    ensures |buf| == 12 && TWICE_SPANS[3].In(buf) == DbufVal(TYPE_ARRAY, 0, Some(HostBytes(0x62)))
  {
    assert buf[8..12] == REDIRECT[2..6] == HostBytes(0x62);
  }
}
