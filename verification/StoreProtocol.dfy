/** Client and server agree on stored headers, whatever the network does. */
module StoreProtocol {
  import opened Basics
  import opened Values
  import opened Heads
  import opened Decoder
  import opened Encoding
  import opened Encoder
  import opened Integers
  import opened Authentication
  import opened HeaderStore
  import opened HeaderProperties
  import opened Keys
  import opened Contents

  // ----------------------------------------------------------------------- the client

  /** The ids that a client has given to encoded protected headers on a connection. */
  datatype ClientState = ClientState(storeIds: map<seq<byte>, u64>, nextStoreId: u64)

  const FRESH_CLIENT: ClientState := ClientState(map[], 0)

  /** The header_store entry of a request that stores headers. */
  function HeaderStoreData(id: DbufVal, headers: DbufValSeq, authentication: seq<DbufValSeq>): DbufValSeq {
    Nested(Array(), [Plain(id), headers] + authentication)
  }

  /** What a call does to the client's state, and the header_store entry to send: the id alone
      once it is bound, and with the headers and what authenticates them when it is new. */
  ghost function Called(c: ClientState, headers: DbufValSeq, authentication: Option<seq<DbufValSeq>>)
    : (ClientState, Option<DbufValSeq>)
  {
    if MeasureValue(headers, true).Err? || !Exact(headers) then (c, None)
    else
      MeasuredIsSized(headers);
      var b := Enc(headers);
      if b in c.storeIds then (c, Some(Plain(EncodingOf(c.storeIds[b]))))
      else if authentication.None? then (c, None)
      else
        (ClientState(c.storeIds[b := c.nextStoreId],
                     if c.nextStoreId == TWO_TO_THE_64 - 1 then 0 else c.nextStoreId + 1),
         Some(HeaderStoreData(EncodingOf(c.nextStoreId), headers, authentication.value)))
  }

  class HeaderStoreState {
    var storeIds: map<seq<byte>, u64>
    var nextStoreId: u64

    function TheState(): ClientState
      reads this
    {
      ClientState(storeIds, nextStoreId)
    }

    constructor ()
      ensures TheState() == FRESH_CLIENT
    {
      storeIds, nextStoreId := map[], 0;
    }

    /** `authentication` holds the values that authenticate new headers, if they can be made. */
    method GetHeaderStoreHeader(headers: DbufValSeq, authentication: Option<seq<DbufValSeq>>)
      returns (h: Option<DbufValSeq>)
      modifies this
      ensures (TheState(), h) == Called(old(TheState()), headers, authentication)
    {
      hide Enc, MeasureValue, Exact, Encodes;
      var b := EncodeFullSeq(headers);
      if b.Err? {
        return None;
      }
      if b.value in storeIds {
        var id := Uint64(storeIds[b.value]);
        EncodesUnique(id, EncodingOf(storeIds[b.value]), storeIds[b.value]);
        return Some(Plain(id));
      }
      var storeId := nextStoreId;
      if authentication.None? {
        return None;
      }
      var id := Uint64(storeId);
      EncodesUnique(id, EncodingOf(storeId), storeId);
      h := Some(HeaderStoreData(id, headers, authentication.value));
      storeIds := storeIds[b.value := storeId];
      nextStoreId := if nextStoreId == TWO_TO_THE_64 - 1 then 0 else nextStoreId + 1;
    }
  }

  // ----------------------------------------------------------------------- the system

  /** A connection: the client's ids, every header_store entry ever sent, and the server's cache. */
  datatype System = System(client: ClientState, sent: set<DbufValSeq>, server: Cache)

  /** A call sends an entry if there is one that can be written. A delivery is of any entry sent
      so far, so entries may be lost, reordered and duplicated; `check` is what its checks come to. */
  datatype Step =
    | Call(headers: DbufValSeq, authentication: Option<seq<DbufValSeq>>)
    | Deliver(value: DbufValSeq, check: Check)

  ghost predicate Possible(s: System, step: Step) {
    match step
    case Call(headers, authentication) =>
      && Decodable(headers) && (authentication.Some? ==> AllDecodable(authentication.value))
      && s.client.nextStoreId < TWO_TO_THE_64 - 1
    case Deliver(value, check) => value in s.sent && Sized(value) && CompleteIn(value, check)
  }

  ghost predicate CompleteIn(value: DbufValSeq, check: Check)
    requires Sized(value)
  {
    var p := ParamsOf(SliceForm(value));
    p.Ok? && p.value.StoreId? ==> Complete(Strings(p.value.storeParams), check)
  }

  ghost function Next(s: System, step: Step): System
    requires AllSound(s.server.entries) && Possible(s, step)
  {
    match step
    case Call(headers, authentication) =>
      var (c, entry) := Called(s.client, headers, authentication);
      System(c, if entry.Some? && Sized(entry.value) then s.sent + {entry.value} else s.sent, s.server)
    case Deliver(value, check) => s.(server := Delivered(s.server, SliceForm(value), check))
  }

  /** What the server's cache does with a header_store entry. */
  function Delivered(c: Cache, value: DbufVal, check: Check): Cache
    requires AllSound(c.entries)
  {
    var p := ParamsOf(value);
    if p.Ok? && p.value.StoreId? then Stored(c, p.value.storeId, Strings(p.value.storeParams), check).0 else c
  }

  // -------------------------------------------------------------------- the invariant

  /** The client has bound the id to the headers. */
  ghost predicate Bound(c: ClientState, id: nat, headers: DbufValSeq) {
    Decodable(headers) && Enc(headers) in c.storeIds && c.storeIds[Enc(headers)] == id
  }

  /** Every id is given once, and is below the next one. */
  predicate DistinctIds(c: ClientState) {
    && (forall b :: b in c.storeIds ==> c.storeIds[b] < c.nextStoreId)
    && (forall a, b :: a in c.storeIds && b in c.storeIds && c.storeIds[a] == c.storeIds[b] ==> a == b)
  }

  /** An entry that stores headers does so under the id they are bound to; any other is an id. */
  ghost predicate SentFor(c: ClientState, value: DbufValSeq) {
    || (exists id: u64 :: value == Plain(EncodingOf(id)))
    || (exists id: u64, headers, authentication :: Stores(c, value, id, headers, authentication))
  }

  ghost predicate Stores(c: ClientState, value: DbufValSeq, id: u64, headers: DbufValSeq,
                         authentication: seq<DbufValSeq>)
  {
    && Bound(c, id, headers) && AllDecodable(authentication)
    && value == HeaderStoreData(EncodingOf(id), headers, authentication)
  }

  /** A cached entry holds the headers that its id is bound to. */
  ghost predicate CachedFor(c: ClientState, id: u32, e: Entry) {
    exists headers :: Holds(c, id, e, headers)
  }

  ghost predicate Holds(c: ClientState, id: u32, e: Entry, headers: DbufValSeq) {
    |e.params| >= 2 && Bound(c, id, headers) && e.params[1] == AsString(headers)
  }

  /** Headers as the server keeps them. */
  function AsString(headers: DbufValSeq): DbufValString
    requires Sized(headers)
  {
    SliceForm(headers).ToDbufValString()
  }

  ghost predicate Agreement(s: System) {
    && DistinctIds(s.client) && Accounted(s.server)
    && (forall value :: value in s.sent ==> SentFor(s.client, value))
    && (forall id :: id in s.server.entries ==> CachedFor(s.client, id, s.server.entries[id]))
  }

  // An id is decodable, and the server takes it for one only if it fits 32 bits.
  lemma IdForms(id: u64)
    ensures Decodable(Plain(EncodingOf(id))) && SliceForm(Plain(EncodingOf(id))) == EncodingOf(id)
    ensures EncodingOf(id).typ == TYPE_UINT <==> id <= MAX_U32
    ensures id <= MAX_U32 ==> EncodingOf(id) == Uint(id)
    ensures id > MAX_U32 ==> EncodingOf(id).typ == TYPE_INTEGER
  {
    var v := EncodingOf(id);
    assert v.Bytes() + [] == v.Bytes();
    if id > MAX_U32 {
      PositiveShape(v.Bytes());
    }
  }

  // What the server reads from an entry that stores headers.
  lemma StoreEntry(value: DbufValSeq, id: u64, headers: DbufValSeq, authentication: seq<DbufValSeq>)
    requires Sized(value) && value == HeaderStoreData(EncodingOf(id), headers, authentication)
    requires Decodable(headers) && AllDecodable(authentication)
    ensures var p := ParamsOf(SliceForm(value));
            && (p.Ok? <==> id <= MAX_U32 && headers.val.typ == TYPE_MAP)
            && (p.Ok? ==> p.value.StoreId? && p.value.storeId == id
                          && Strings(p.value.storeParams)[1] == AsString(headers)
                          && |p.value.storeParams| == 2 + |authentication|)
  {
    hide DecodeSequence, EncAll, Decodable, EncodingOf, SliceForm;
    DecodableParts(headers);
    SliceType(headers);
    var vs := [Plain(EncodingOf(id)), headers] + authentication;
    IdForms(id);
    ArrayForm(value, vs);
    assert AllDecodable(vs) by {
      assert forall k :: 0 <= k < |vs| ==> k < 2 || vs[k] == authentication[k - 2];
    }
    DecodeEncAll(vs);
  }

  lemma SliceType(v: DbufValSeq)
    requires Sized(v)
    ensures SliceForm(v).typ == v.val.typ
  {
  }

  lemma ArrayForm(value: DbufValSeq, vs: seq<DbufValSeq>)
    requires Sized(value) && value == Nested(Array(), vs)
    ensures SliceForm(value).typ == TYPE_ARRAY && SliceForm(value).Bytes() == EncAll(vs)
  {
    assert [] + EncAll(vs) == EncAll(vs);
  }

  lemma {:induction false} CallKeeps(s: System, headers: DbufValSeq, authentication: Option<seq<DbufValSeq>>)
    requires Agreement(s) && Possible(s, Call(headers, authentication))
    ensures Agreement(Next(s, Call(headers, authentication)))
  {
    hide Accounted, Decodable, Enc, MeasureValue, Exact, EncodingOf, SliceForm, Sized, Stored;
    AccountedSound(s.server);
    var t := Next(s, Call(headers, authentication));
    DecodableParts(headers);
    var b := Enc(headers);
    if b !in s.client.storeIds && authentication.Some? {
      var id := s.client.nextStoreId;
      assert t.client.storeIds == s.client.storeIds[b := id];
      var value := HeaderStoreData(EncodingOf(id), headers, authentication.value);
      assert Stores(t.client, value, id, headers, authentication.value);
      forall value | value in s.sent ensures SentFor(t.client, value) {
        SentKeeps(s.client, t.client, value);
      }
      forall k | k in s.server.entries ensures CachedFor(t.client, k, s.server.entries[k]) {
        CachedKeeps(s.client, t.client, k, s.server.entries[k]);
      }
    }
  }

  lemma DecodableParts(v: DbufValSeq)
    requires Decodable(v)
    ensures Sized(v) && Exact(v) && MeasureValue(v, true).Ok?
  {
    SizedMeasures(v);
  }

  // New ids leave the old ones as they are.
  lemma SentKeeps(c: ClientState, d: ClientState, value: DbufValSeq)
    requires SentFor(c, value) && forall b :: b in c.storeIds ==> b in d.storeIds && d.storeIds[b] == c.storeIds[b]
    ensures SentFor(d, value)
  {
    hide Decodable, Enc, EncodingOf, HeaderStoreData;
    if !(exists id: u64 :: value == Plain(EncodingOf(id))) {
      var id: u64, headers, authentication :| Stores(c, value, id, headers, authentication);
      assert Stores(d, value, id, headers, authentication);
    }
  }

  lemma CachedKeeps(c: ClientState, d: ClientState, id: u32, e: Entry)
    requires CachedFor(c, id, e) && forall b :: b in c.storeIds ==> b in d.storeIds && d.storeIds[b] == c.storeIds[b]
    ensures CachedFor(d, id, e)
  {
    hide Decodable, Enc, SliceForm;
    var headers :| Holds(c, id, e, headers);
    assert Holds(d, id, e, headers);
  }

  lemma {:induction false} DeliverKeeps(s: System, value: DbufValSeq, check: Check)
    requires Agreement(s) && Possible(s, Deliver(value, check))
    ensures Agreement(Next(s, Deliver(value, check)))
  {
    hide Accounted, Decodable, Enc, EncodingOf, SliceForm, Sized, ParamsOf, DistinctIds, HeaderStoreData, SizeOf;
    AccountedSound(s.server);
    var p := ParamsOf(SliceForm(value));
    if p.Ok? && p.value.StoreId? {
      var params := Strings(p.value.storeParams);
      StoreKeeps(s.server, p.value.storeId, params, check);
      if exists id: u64 :: value == Plain(EncodingOf(id)) {
        var id: u64 :| value == Plain(EncodingOf(id));
        IdForms(id);
        IdStoresNothing(id);
      } else {
        var id: u64, headers, authentication :| Stores(s.client, value, id, headers, authentication);
        StoreEntry(value, id, headers, authentication);
        assert Holds(s.client, p.value.storeId, Entry(params, |params| > 2), headers);
      }
    }
  }

  lemma IdStoresNothing(id: u64)
    ensures ParamsOf(EncodingOf(id)).Ok? ==> ParamsOf(EncodingOf(id)) == Ok(LoadId(EncodingOf(id).value))
  {
    IdForms(id);
  }

  // ------------------------------------------------------------------------ all runs

  /** The steps can be taken one after the other, and lead from `s` to `t`. */
  ghost predicate Leads(s: System, steps: seq<Step>, t: System)
    decreases |steps|
  {
    if steps == [] then s == t
    else AllSound(s.server.entries) && Possible(s, steps[0]) && Leads(Next(s, steps[0]), steps[1..], t)
  }

  function Start(maxSize: nat): System {
    System(FRESH_CLIENT, {}, EmptyCache(maxSize))
  }

  lemma {:induction false} RunKeeps(s: System, steps: seq<Step>, t: System)
    requires Agreement(s) && Leads(s, steps, t)
    ensures Agreement(t)
    decreases |steps|
  {
    hide Agreement, Possible, Next;
    if steps != [] {
      match steps[0] {
        case Call(headers, authentication) => CallKeeps(s, headers, authentication);
        case Deliver(value, check) => DeliverKeeps(s, value, check);
      }
      RunKeeps(Next(s, steps[0]), steps[1..], t);
    }
  }

  lemma StartAgrees(maxSize: nat)
    ensures Agreement(Start(maxSize))
  {
  }

  // Over every run, in which entries are lost, reordered and duplicated at will: whatever the
  // server has under an id are the protected headers that the client bound to it, byte for byte,
  // and no two headers share an id.
  lemma ClientAndServerAgree(maxSize: nat, steps: seq<Step>, t: System)
    requires Leads(Start(maxSize), steps, t)
    ensures DistinctIds(t.client) && Accounted(t.server)
    ensures forall id, b :: id in t.server.entries && b in t.client.storeIds && t.client.storeIds[b] == id ==>
              |t.server.entries[id].params| >= 2 && IsEncoding(b, t.server.entries[id].params[1])
    ensures forall id :: id in t.server.entries ==> exists b :: b in t.client.storeIds && t.client.storeIds[b] == id
  {
    hide Accounted, Bound;
    StartAgrees(maxSize);
    RunKeeps(Start(maxSize), steps, t);
    forall id | id in t.server.entries
      ensures |t.server.entries[id].params| >= 2 && exists b :: b in t.client.storeIds && t.client.storeIds[b] == id
      ensures forall b :: b in t.client.storeIds && t.client.storeIds[b] == id
                ==> IsEncoding(b, t.server.entries[id].params[1])
    {
      var headers := LoadedHeaders(t, id);
      BoundEncodes(t.client, id, headers);
    }
  }

  // ------------------------------------------------------------- what a call returns

  /** The entry gives the id, or stores these headers under it if the server takes it at all. */
  ghost predicate Refers(value: DbufValSeq, id: u64, headers: DbufValSeq, authentication: Option<seq<DbufValSeq>>)
    requires Sized(headers)
  {
    if value.Plain? then GetU64Spec(value.val) == Ok(id)
    else
      authentication.Some? && (Sized(value) ==>
        var p := ParamsOf(SliceForm(value));
        && (p.Ok? <==> id <= MAX_U32 && headers.val.typ == TYPE_MAP)
        && (p.Ok? ==> p.value.StoreId? && p.value.storeId == id
                      && Strings(p.value.storeParams)[1] == AsString(headers)
                      && |p.value.storeParams| == 2 + |authentication.value|))
  }

  // Over every run ids are given in order: the next one is the number of those given.
  lemma {:induction false} IdsAreCounted(s: System, steps: seq<Step>, t: System)
    requires s.client.nextStoreId == |s.client.storeIds| && Leads(s, steps, t)
    ensures t.client.nextStoreId == |t.client.storeIds|
    decreases |steps|
  {
    hide Delivered, Enc, MeasureValue, Exact, EncodingOf, HeaderStoreData, SliceForm, Decodable;
    if steps != [] {
      if steps[0].Call? {
        var b := if Sized(steps[0].headers) then Enc(steps[0].headers) else [];
        assert b !in s.client.storeIds ==>
            s.client.storeIds[b := s.client.nextStoreId].Keys == s.client.storeIds.Keys + {b};
      }
      IdsAreCounted(Next(s, steps[0]), steps[1..], t);
    }
  }

  // What a call returns after any run. For headers that are bound already it is their id and
  // nothing changes. For new ones it stores them, under an id that none has, and they alone
  // become bound. It fails exactly for new headers that cannot be authenticated.
  lemma {:induction false} CallReturns(maxSize: nat, steps: seq<Step>, t: System, headers: DbufValSeq,
                                       authentication: Option<seq<DbufValSeq>>)
    requires Leads(Start(maxSize), steps, t) && Possible(t, Call(headers, authentication))
    ensures Sized(headers)
    ensures var (c, entry) := Called(t.client, headers, authentication); var b := Enc(headers);
            && (entry.Some? <==> b in t.client.storeIds || authentication.Some?)
            && (entry.None? ==> c == t.client)
            && (entry.Some? ==>
                  && b in c.storeIds && c.storeIds == t.client.storeIds[b := c.storeIds[b]]
                  && (entry.value.Plain? <==> b in t.client.storeIds)
                  && (b in t.client.storeIds ==> c == t.client)
                  && (b !in t.client.storeIds ==> c.storeIds[b] == |t.client.storeIds|)
                  && Refers(entry.value, c.storeIds[b], headers, authentication))
  {
    hide Leads, Decodable, Enc, MeasureValue, Exact, EncodingOf, SliceForm, Sized, ParamsOf, GetU64Spec;
    DecodableParts(headers);
    IdsAreCounted(Start(maxSize), steps, t);
    var (c, entry) := Called(t.client, headers, authentication);
    var b := Enc(headers);
    if entry.Some? {
      var id := c.storeIds[b];
      UnsignedRoundTrip(EncodingOf(id), id);
      if b !in t.client.storeIds && Sized(entry.value) {
        StoreEntry(entry.value, id, headers, authentication.value);
      }
    }
  }

  lemma {:induction false} StaysBound(s: System, steps: seq<Step>, t: System, id: u64, headers: DbufValSeq)
    requires Bound(s.client, id, headers) && Leads(s, steps, t)
    ensures Bound(t.client, id, headers)
    decreases |steps|
  {
    hide Delivered, Enc, MeasureValue, Exact, EncodingOf, HeaderStoreData, SliceForm, Decodable;
    if steps != [] {
      StaysBound(Next(s, steps[0]), steps[1..], t, id, headers);
    }
  }

  // A call, end to end: whatever happens before it, and between it and the request, a request
  // with the entry that was returned is merged on the server with just the headers of the call,
  // or refused.
  lemma {:induction false} CallIsServed(maxSize: nat, steps: seq<Step>, t: System, headers: DbufValSeq,
                                        authentication: Option<seq<DbufValSeq>>, value: DbufValSeq,
                                        more: seq<Step>, u: System, details: seq<DbufVal>, k: nat, check: Check,
                                        slack: nat)
    requires Leads(Start(maxSize), steps, t) && AllSound(t.server.entries) && AllSound(u.server.entries)
    requires Possible(t, Call(headers, authentication)) && Leads(Next(t, Call(headers, authentication)), more, u)
    requires Called(t.client, headers, authentication).1 == Some(value) && Sized(value)
    requires KeyAt(details, HEADER_STORE, k) && forall j :: 0 <= j < k ==> !KeyAt(details, HEADER_STORE, j)
    requires details[k + 1] == SliceForm(value) && |details| % 2 == 0
    ensures Sized(headers)
    ensures var r := PropertiesOf(u.server, details, check, slack).1;
            r.Ok? ==>
              && r.value.entry.Some? && |r.value.entry.value.params| >= 2
              && r.value.entry.value.params[1] == AsString(headers)
              && Ok(r.value.headers) == WithStored(PairMap(details), AsString(headers).str, slack)
  {
    hide Leads, Agreement, WithStored, PairMap, DecodeSequence, Decodable, Enc, SliceForm, ParamsOf, GetU64Spec, Called;
    hide Stored, MeasureValue, Exact, Sized;
    StartAgrees(maxSize);
    RunKeeps(Start(maxSize), steps, t);
    CallKeeps(t, headers, authentication);
    RunKeeps(Next(t, Call(headers, authentication)), more, u);
    CallReturns(maxSize, steps, t, headers, authentication);
    var id := Called(t.client, headers, authentication).0.storeIds[Enc(headers)];
    assert Bound(Next(t, Call(headers, authentication)).client, id, headers);
    StaysBound(Next(t, Call(headers, authentication)), more, u, id, headers);
    ValueFromFirst(details, HEADER_STORE, 0, k);
    if value.Plain? {
      PlainEntry(value, id);
      if id <= MAX_U32 && id in u.server.entries {
        OnlyBound(u, id, headers);
      }
    }
  }

  // A number as an entry is an id to load, if it is a scalar.
  lemma PlainEntry(value: DbufValSeq, id: u64)
    requires value.Plain? && Sized(value) && GetU64Spec(value.val) == Ok(id)
    ensures ParamsOf(SliceForm(value)).Ok? ==> id <= MAX_U32 && ParamsOf(SliceForm(value)) == Ok(LoadId(id))
  {
  }

  // A request that gives a bound id instead of its headers is served as if it had carried them:
  // the server merges the headers the client bound, or refuses.
  lemma {:induction false} LoadedRequest(maxSize: nat, steps: seq<Step>, t: System, details: seq<DbufVal>, k: nat,
                                         id: u32, headers: DbufValSeq, check: Check, slack: nat)
    requires Leads(Start(maxSize), steps, t) && Bound(t.client, id, headers)
    requires KeyAt(details, HEADER_STORE, k) && forall j :: 0 <= j < k ==> !KeyAt(details, HEADER_STORE, j)
    requires details[k + 1] == Uint(id) && AllSound(t.server.entries) && |details| % 2 == 0
    ensures var (server, r) := PropertiesOf(t.server, details, check, slack);
            && server == t.server
            && (r.Ok? ==>
                  && r.value.entry.Some? && |r.value.entry.value.params| >= 2
                  && r.value.entry.value.params[1] == AsString(headers)
                  && Ok(r.value.headers) == WithStored(PairMap(details), AsString(headers).str, slack))
            && (r.Err? ==> id !in t.server.entries || WithStored(PairMap(details), AsString(headers).str, slack).Err?)
  {
    hide Leads, Agreement, WithStored, PairMap, DecodeSequence;
    StartAgrees(maxSize);
    RunKeeps(Start(maxSize), steps, t);
    ValueFromFirst(details, HEADER_STORE, 0, k);
    if id in t.server.entries {
      OnlyBound(t, id, headers);
    }
  }

  // A delivery is what a request with the entry in its header does to the server's cache.
  lemma {:induction false} DeliveredByRequest(c: Cache, details: seq<DbufVal>, k: nat, check: Check, slack: nat)
    requires AllSound(c.entries) && |details| % 2 == 0
    requires KeyAt(details, HEADER_STORE, k) && forall j :: 0 <= j < k ==> !KeyAt(details, HEADER_STORE, j)
    ensures PropertiesOf(c, details, check, slack).0 == Delivered(c, details[k + 1], check)
  {
    hide ParamsOf, Stored, WithStored, PairMap;
    ValueFromFirst(details, HEADER_STORE, 0, k);
  }

  // The entry under an id is that of the headers bound to it.
  lemma OnlyBound(t: System, id: u32, headers: DbufValSeq)
    requires Agreement(t) && id in t.server.entries && Bound(t.client, id, headers)
    ensures |t.server.entries[id].params| >= 2 && t.server.entries[id].params[1] == AsString(headers)
  {
    hide Decodable, Enc, SliceForm, Sized, Accounted;
    var other := LoadedHeaders(t, id);
    SameBytes(headers, other);
  }

  lemma SameBytes(u: DbufValSeq, v: DbufValSeq)
    requires Decodable(u) && Decodable(v) && Enc(u) == Enc(v)
    ensures AsString(u) == AsString(v)
  {
    hide Decode, Enc, SliceForm;
    DecodeEnc(u, []);
    DecodeEnc(v, []);
  }

  /** `b` is the encoding of the value that the string was made from. */
  predicate IsEncoding(b: seq<byte>, s: DbufValString) {
    |s.str| <= MAX_U32 && b == HeadBytes(s.typ, if HasSlice(s.typ) then |s.str| else s.value) + s.str
  }

  lemma LoadedHeaders(t: System, id: u32) returns (headers: DbufValSeq)
    requires Agreement(t) && id in t.server.entries
    ensures Holds(t.client, id, t.server.entries[id], headers)
  {
    hide Holds;
    assert CachedFor(t.client, id, t.server.entries[id]);
    headers :| Holds(t.client, id, t.server.entries[id], headers);
  }

  lemma BoundEncodes(c: ClientState, id: u32, headers: DbufValSeq)
    requires Bound(c, id, headers) && DistinctIds(c)
    ensures Enc(headers) in c.storeIds && c.storeIds[Enc(headers)] == id
    ensures IsEncoding(Enc(headers), AsString(headers))
    ensures forall b :: b in c.storeIds && c.storeIds[b] == id ==> b == Enc(headers)
  {
    hide EncAll, HeadBytes;
    if headers.Nested? {
      AllEncodedSize(headers.sequence);
    }
    DecodableBytes(headers);
  }

  lemma DecodableBytes(v: DbufValSeq)
    requires Decodable(v)
    ensures HasSlice(v.val.typ) ==> |Payload(v)| == ParseValue(v)
    ensures !HasSlice(v.val.typ) ==> Payload(v) == [] && ParseValue(v) == v.val.value
  {
    if v.Nested? {
      AllEncodedSize(v.sequence);
    }
  }
}
