/** The server's store of headers: a cache of bounded size, one for each connection. */
module HeaderStore {
  import opened Basics
  import opened Values
  import opened Decoder
  import opened Encoding
  import opened Trees
  import opened Encoder
  import opened Keys
  import opened Paths
  import opened Authentication

  const REGISTRY_HEADER_STORE: u32 := 12
  const HEADER_STORE_CACHE_MAX_SIZE: nat := 0x1_0000

  // ------------------------------------------------------------- the cache as a value

  /** A stored header: the parameters it was stored with, and whether they were checked. */
  datatype Entry = Entry(params: seq<DbufValString>, authenticated: bool)

  function SizeOf(params: seq<DbufValString>): nat
    requires |params| >= 2
  {
    |params[1].str| + 32
  }

  datatype Cache = Cache(entries: map<u32, Entry>, size: int, maxSize: nat)

  /** Either just an id and headers, unauthenticated, or all six parameters, authenticated. */
  predicate Sound(e: Entry) {
    if e.authenticated then |e.params| >= 6 else |e.params| == 2
  }

  predicate AllSound(entries: map<u32, Entry>) {
    forall id :: id in entries ==> Sound(entries[id])
  }

  ghost function TotalSize(entries: map<u32, Entry>): nat
    requires AllSound(entries)
    decreases |entries|
  {
    if entries == map[] then 0
    else
      var id :| id in entries;
      SizeOf(entries[id].params) + TotalSize(entries - {id})
  }

  /** The size is the sum of the sizes of the entries, and does not exceed its bound. */
  ghost predicate Accounted(c: Cache) {
    AllSound(c.entries) && c.size == TotalSize(c.entries) && c.size <= c.maxSize
  }

  // The sum does not depend on the order of its terms.
  lemma {:induction false} TotalWithout(entries: map<u32, Entry>, id: u32)
    requires AllSound(entries) && id in entries
    ensures TotalSize(entries) == SizeOf(entries[id].params) + TotalSize(entries - {id})
    decreases |entries|
  {
    hide SizeOf;
    var first :| first in entries && TotalSize(entries) == SizeOf(entries[first].params) + TotalSize(entries - {first});
    if first != id {
      TotalWithout(entries - {first}, id);
      TotalWithout(entries - {id}, first);
      assert entries - {first} - {id} == entries - {id} - {first};
    }
  }

  /** The bytes of the protected headers of all entries. */
  ghost function HeaderBytes(entries: map<u32, Entry>): nat
    requires AllSound(entries)
    decreases |entries|
  {
    if entries == map[] then 0
    else
      var id :| id in entries;
      |entries[id].params[1].str| + HeaderBytes(entries - {id})
  }

  lemma {:induction false} HeaderBytesWithout(entries: map<u32, Entry>, id: u32)
    requires AllSound(entries) && id in entries
    ensures HeaderBytes(entries) == |entries[id].params[1].str| + HeaderBytes(entries - {id})
    decreases |entries|
  {
    var first :| first in entries
                 && HeaderBytes(entries) == |entries[first].params[1].str| + HeaderBytes(entries - {first});
    if first != id {
      HeaderBytesWithout(entries - {first}, id);
      HeaderBytesWithout(entries - {id}, first);
      assert entries - {first} - {id} == entries - {id} - {first};
    }
  }

  // The size is that of the protected headers, and 32 bytes for every entry.
  lemma {:induction false} SizeIsHeaders(entries: map<u32, Entry>)
    requires AllSound(entries)
    ensures TotalSize(entries) == HeaderBytes(entries) + 32 * |entries|
    decreases |entries|
  {
    if entries != map[] {
      var id :| id in entries;
      TotalWithout(entries, id);
      HeaderBytesWithout(entries, id);
      SizeIsHeaders(entries - {id});
      assert |entries| == |entries - {id}| + 1 by {
        assert entries.Keys == (entries - {id}).Keys + {id};
      }
    }
  }

  // Every entry takes at least 32 bytes.
  lemma {:induction false} EntriesBound(entries: map<u32, Entry>)
    requires AllSound(entries)
    ensures 32 * |entries| <= TotalSize(entries)
    decreases |entries|
  {
    if entries != map[] {
      var id :| id in entries;
      TotalWithout(entries, id);
      EntriesBound(entries - {id});
      assert |entries| == |entries - {id}| + 1 by {
        assert entries.Keys == (entries - {id}).Keys + {id};
      }
    }
  }

  /** The size after storing the parameters under the id. */
  function NewSize(c: Cache, id: u32, params: seq<DbufValString>): int
    requires |params| >= 2 && AllSound(c.entries)
  {
    c.size + SizeOf(params) - if id in c.entries then SizeOf(c.entries[id].params) else 0
  }

  /** What storing does to the cache, the checks of the parameters coming to `check`. */
  function Stored(c: Cache, id: u32, params: seq<DbufValString>, check: Check): (Cache, Option<Error>)
    requires |params| >= 2 && AllSound(c.entries)
  {
    var newSize := NewSize(c, id, params);
    if newSize > c.maxSize then (c, Some(DataValueNotAccepted))
    else if check == Panics then (c, Some(Panic))
    else if check == Refused then (c, Some(External))
    else (c.(entries := c.entries[id := Entry(params, |params| > 2)], size := newSize), None)
  }

  /** Parameters beyond the headers are checked, and then there are at least six. */
  predicate Complete(params: seq<DbufValString>, check: Check) {
    check == Accepted ==> |params| == 2 || |params| >= 6
  }

  // Storing keeps the accounts.
  lemma StoreKeeps(c: Cache, id: u32, params: seq<DbufValString>, check: Check)
    requires Accounted(c) && |params| >= 2 && Complete(params, check)
    ensures Accounted(Stored(c, id, params, check).0)
  {
    hide SizeOf;
    var r := Stored(c, id, params, check);
    if r.1.None? {
      var entries := r.0.entries;
      TotalWithout(entries, id);
      if id in c.entries {
        TotalWithout(c.entries, id);
      }
      assert entries - {id} == c.entries - {id};
      assert id !in c.entries ==> c.entries - {id} == c.entries;
    }
  }

  /** The parameters pass their checks, and the entries fit the cache with theirs in place. */
  ghost predicate Admits(c: Cache, id: u32, params: seq<DbufValString>, check: Check)
    requires AllSound(c.entries) && |params| >= 2 && Complete(params, check)
  {
    check == Accepted && TotalSize(c.entries[id := Entry(params, |params| > 2)]) <= c.maxSize
  }

  // Storing succeeds exactly when the checks pass and everything fits; then the id has just
  // these parameters, authenticated if there are more than the headers, and else nothing changes.
  // It panics exactly when the checks do on parameters that fit.
  lemma StoredExactly(c: Cache, id: u32, params: seq<DbufValString>, check: Check)
    requires Accounted(c) && |params| >= 2 && Complete(params, check)
    ensures var (d, error) := Stored(c, id, params, check); var fits := NewSize(c, id, params) <= c.maxSize;
            && (error.None? <==> Admits(c, id, params, check))
            && (error == Some(Panic) <==> fits && check == Panics)
            && (error.None? ==> d.entries == c.entries[id := Entry(params, |params| > 2)] && d.maxSize == c.maxSize)
            && (error.Some? ==> d == c)
    ensures check == Accepted ==> NewSize(c, id, params) == TotalSize(c.entries[id := Entry(params, |params| > 2)])
  {
    hide SizeOf;
    if check == Accepted {
      var entries := c.entries[id := Entry(params, |params| > 2)];
      TotalWithout(entries, id);
      if id in c.entries {
        TotalWithout(c.entries, id);
      }
      assert entries - {id} == c.entries - {id};
      assert id !in c.entries ==> c.entries - {id} == c.entries;
    }
  }

  /** An attempt to store, with the outcome of the checks. */
  datatype Attempt = Attempt(id: u32, params: seq<DbufValString>, check: Check)

  predicate Possible(a: Attempt) {
    |a.params| >= 2 && Complete(a.params, a.check)
  }

  predicate AllPossible(attempts: seq<Attempt>) {
    forall k :: 0 <= k < |attempts| ==> Possible(attempts[k])
  }

  function EmptyCache(maxSize: nat): (c: Cache)
    ensures Accounted(c)
  {
    Cache(map[], 0, maxSize)
  }

  /** The cache after some attempts, from the empty cache. */
  ghost function After(maxSize: nat, attempts: seq<Attempt>): (c: Cache)
    requires AllPossible(attempts)
    ensures Accounted(c) && c.maxSize == maxSize
    decreases |attempts|
  {
    if attempts == [] then EmptyCache(maxSize)
    else
      var last := attempts[|attempts| - 1];
      var before := After(maxSize, attempts[..|attempts| - 1]);
      StoreKeeps(before, last.id, last.params, last.check);
      Stored(before, last.id, last.params, last.check).0
  }

  /** The attempt at position `k` succeeded. */
  ghost predicate Succeeded(maxSize: nat, attempts: seq<Attempt>, k: nat)
    requires AllPossible(attempts) && k < |attempts|
  {
    var a := attempts[k];
    Stored(After(maxSize, attempts[..k]), a.id, a.params, a.check).1.None?
  }

  /** `k` is the last successful attempt for the id. */
  ghost predicate LastFor(maxSize: nat, attempts: seq<Attempt>, id: u32, k: nat)
    requires AllPossible(attempts)
  {
    && k < |attempts| && attempts[k].id == id && Succeeded(maxSize, attempts, k)
    && forall j :: k < j < |attempts| && attempts[j].id == id ==> !Succeeded(maxSize, attempts, j)
  }

  lemma SucceededFront(maxSize: nat, attempts: seq<Attempt>, k: nat)
    requires AllPossible(attempts) && k < |attempts| - 1
    ensures Succeeded(maxSize, attempts[..|attempts| - 1], k) == Succeeded(maxSize, attempts, k)
  {
    hide After, Stored;
    assert attempts[..|attempts| - 1][..k] == attempts[..k];
  }

  // The last success for an id is the last attempt, or else that of the attempts before it.
  lemma LastForFront(maxSize: nat, attempts: seq<Attempt>, id: u32, k: nat)
    requires AllPossible(attempts) && attempts != []
    ensures var n := |attempts| - 1;
            if attempts[n].id == id && Succeeded(maxSize, attempts, n)
              then LastFor(maxSize, attempts, id, k) <==> k == n
            else LastFor(maxSize, attempts, id, k) <==> LastFor(maxSize, attempts[..n], id, k)
  {
    hide Succeeded;
    var n := |attempts| - 1;
    forall j: nat | j < n ensures Succeeded(maxSize, attempts[..n], j) == Succeeded(maxSize, attempts, j) {
      SucceededFront(maxSize, attempts, j);
    }
    if !(attempts[n].id == id && Succeeded(maxSize, attempts, n)) && LastFor(maxSize, attempts[..n], id, k) {
      forall j | k < j < |attempts| && attempts[j].id == id ensures !Succeeded(maxSize, attempts, j) {
        assert j == n || attempts[..n][j].id == id;
      }
    }
  }

  lemma AfterFront(maxSize: nat, attempts: seq<Attempt>)
    requires AllPossible(attempts) && attempts != []
    ensures var n := |attempts| - 1; var last := attempts[n];
            var before := After(maxSize, attempts[..n]);
            After(maxSize, attempts)
            == if Succeeded(maxSize, attempts, n)
               then before.(entries := before.entries[last.id := Entry(last.params, |last.params| > 2)],
                            size := NewSize(before, last.id, last.params))
               else before
  {
    hide NewSize;
  }

  // Over all runs: an id is in the cache exactly when an attempt to store it succeeded, and its
  // entry is that of the last one; there are at most as many entries as 32-byte units.
  lemma {:induction false} LoadReturnsLast(maxSize: nat, attempts: seq<Attempt>, id: u32)
    requires AllPossible(attempts)
    ensures id in After(maxSize, attempts).entries <==> exists k: nat :: LastFor(maxSize, attempts, id, k)
    ensures forall k: nat :: LastFor(maxSize, attempts, id, k) ==>
              After(maxSize, attempts).entries[id] == Entry(attempts[k].params, |attempts[k].params| > 2)
    ensures 32 * |After(maxSize, attempts).entries| <= After(maxSize, attempts).size <= maxSize
    decreases |attempts|
  {
    hide After, Succeeded, NewSize;
    EntriesBound(After(maxSize, attempts).entries);
    if attempts == [] {
      NothingStored(maxSize);
    } else {
      var n := |attempts| - 1;
      LoadReturnsLast(maxSize, attempts[..n], id);
      AfterFront(maxSize, attempts);
      forall k: nat ensures var n := |attempts| - 1;
            if attempts[n].id == id && Succeeded(maxSize, attempts, n)
              then LastFor(maxSize, attempts, id, k) <==> k == n
            else LastFor(maxSize, attempts, id, k) <==> LastFor(maxSize, attempts[..n], id, k)
      {
        LastForFront(maxSize, attempts, id, k);
      }
      hide LastFor;
      if id in After(maxSize, attempts).entries {
        if attempts[n].id == id && Succeeded(maxSize, attempts, n) {
          assert LastFor(maxSize, attempts, id, n);
        } else {
          var k: nat :| LastFor(maxSize, attempts[..n], id, k);
          assert LastFor(maxSize, attempts, id, k);
        }
      }
    }
  }

  lemma NothingStored(maxSize: nat)
    ensures After(maxSize, []) == EmptyCache(maxSize)
  {
  }

  // ---------------------------------------------------------------- authentication

  /** The reference among decoded headers: the last one, as a map keeps it. */
  function StoredReference(vals: seq<DbufVal>): Result<Option<DbufVal>> {
    var n := |vals| - |vals| % 2;
    if n < |vals| && Equal(vals[n], REFERENCE) then Err(Panic)
    else
      var m := PairMap(vals[..n]);
      Ok(if REFERENCE_KEY in m then Some(m[REFERENCE_KEY]) else None)
  }

  /** The authority that protected headers are addressed to: nil if they do not name one. */
  function AuthorityOf(protectedHeaders: seq<byte>): Result<Option<seq<DbufVal>>> {
    var vals := DecodeSequence(protectedHeaders);
    if vals.Err? then Ok(None)
    else
      var p := StoredReference(vals.value);
      if p.Err? then Err(p.error)
      else if p.value.None? then Ok(None)
      else
        var path := ReferencePath(p.value.value);
        Ok(if path.Ok? then Some(path.value.0) else None)
  }

  /** What the storage answers to a request for a key, under an authority. Without a transaction
      there is only an error and nothing to discard, which `Store` does nevertheless. */
  datatype Answer = NoTransaction | Found(keyData: seq<byte>) | NotFound | Failed

  type Storage = (Option<seq<DbufVal>>, seq<byte>) -> Answer

  /** `SliceEqual` of the requested authority, nil being empty, and the storage's own. */
  predicate SameAuthority(authority: Option<seq<DbufVal>>, own: seq<DbufVal>) {
    var wanted := if authority.Some? then authority.value else [];
    |wanted| == |own| && forall k :: 0 <= k < |own| ==> Equal(wanted[k], own[k])
  }

  /** The storage of one authority: it gives no transaction to any other. */
  function BadgerStorage(own: seq<DbufVal>, records: map<seq<byte>, seq<byte>>): Storage {
    (authority, key) =>
      if !SameAuthority(authority, own) then NoTransaction
      else if key in records then Found(records[key])
      else NotFound
  }

  ghost predicate ShortAnswers(storage: Storage) {
    forall authority, key :: storage(authority, key).Found? ==> |storage(authority, key).keyData| < TWO_TO_THE_32
  }

  /** The parts of the key under which the storage keeps an identity key. */
  function StorageKeyParts(params: seq<DbufValString>): seq<DbufValSeq>
    requires |params| >= 4
  {
    [Plain(Registry(REGISTRY_IDENTITY_KEY)), params[2].ToDbufSeq(), params[3].ToDbufSeq()]
  }

  // Different identities or identity keys are kept under different keys.
  lemma StorageKeyBinds(a: seq<DbufValString>, b: seq<DbufValString>)
    requires |a| >= 4 && |b| >= 4 && IsDecoded(a[2]) && IsDecoded(a[3]) && IsDecoded(b[2]) && IsDecoded(b[3])
    requires Encoded(StorageKeyParts(a)).Some? && Encoded(StorageKeyParts(a)) == Encoded(StorageKeyParts(b))
    ensures a[2] == b[2] && a[3] == b[3]
  {
    hide EncAll, MeasureAll, Decodable, SliceForm, AllExact, IsDecoded, Sized;
    PartsDecodable(a);
    PartsDecodable(b);
    SliceFormsInjective(StorageKeyParts(a), StorageKeyParts(b));
  }

  lemma PartsDecodable(params: seq<DbufValString>)
    requires |params| >= 4 && IsDecoded(params[2]) && IsDecoded(params[3])
    requires Encoded(StorageKeyParts(params)).Some?
    ensures var vs := StorageKeyParts(params);
            && AllSized(vs) && (forall k :: 0 <= k < |vs| ==> Decodable(vs[k]))
            && SliceForms(vs)[1].ToDbufValString() == params[2] && SliceForms(vs)[2].ToDbufValString() == params[3]
  {
    hide EncAll, MeasureAll;
    var vs := StorageKeyParts(params);
    assert Exact(vs[0]) && Exact(vs[1]) && Exact(vs[2]);
    assert Payload(vs[1]) == params[2].str && Payload(vs[2]) == params[3].str;
  }

  /** The checks of parameters to be stored. */
  function CheckParams(params: seq<DbufValString>, storage: Storage, exporter: Exporter, verify: Verifier): Check
    requires |params| >= 2
  {
    if |params| == 2 then Accepted
    else if |params| < 4 then Refused
    else
      var key := Encoded(StorageKeyParts(params));
      if key.None? then Refused
      else
        var authority := AuthorityOf(params[1].str);
        if authority.Err? then Panics
        else
          var answer := storage(authority.value, key.value);
          if answer.NoTransaction? then Panics
          else if !answer.Found? then Refused
          else ValidKeyParams(params, answer.keyData, exporter, verify)
  }

  /** The checks panic: the headers have no proper authority to look up, the storage gives no
      transaction for it, or the key data it keeps is malformed. */
  predicate ChecksPanic(params: seq<DbufValString>, storage: Storage, exporter: Exporter)
    requires |params| >= 2
  {
    |params| >= 4 && Encoded(StorageKeyParts(params)).Some? &&
    (AuthorityOf(params[1].str).Err? ||
     var answer := storage(AuthorityOf(params[1].str).value, Encoded(StorageKeyParts(params)).value);
     answer.NoTransaction? || (answer.Found? && KeyDataPanics(params, answer.keyData, exporter)))
  }

  lemma ChecksPanicExactly(params: seq<DbufValString>, storage: Storage, exporter: Exporter, verify: Verifier)
    requires |params| >= 2
    ensures CheckParams(params, storage, exporter, verify) == Panics <==> ChecksPanic(params, storage, exporter)
  {
    hide AuthorityOf, Encoded, ValidKeyParams, KeyDataPanics;
    if |params| >= 4 && Encoded(StorageKeyParts(params)).Some? && AuthorityOf(params[1].str).Ok? {
      var answer := storage(AuthorityOf(params[1].str).value, Encoded(StorageKeyParts(params)).value);
      if answer.Found? {
        KeyPanicExactly(params, answer.keyData, exporter, verify);
      }
    }
  }

  // The checks accept exactly headers without an identity, and headers with one whose key the
  // storage has, under the authority of the headers, and by which they are genuine.
  lemma ChecksAcceptExactly(params: seq<DbufValString>, storage: Storage, exporter: Exporter, verify: Verifier)
    requires |params| >= 2
    ensures CheckParams(params, storage, exporter, verify) == Accepted
            <==> |params| == 2
                 || (&& |params| >= 6 && Encoded(StorageKeyParts(params)).Some? && AuthorityOf(params[1].str).Ok?
                     && var answer := storage(AuthorityOf(params[1].str).value, Encoded(StorageKeyParts(params)).value);
                        answer.Found? && Genuine(params, answer.keyData, exporter, verify))
  {
    hide AuthorityOf, Encoded, ValidKeyParams, Genuine;
    if |params| >= 4 && Encoded(StorageKeyParts(params)).Some? && AuthorityOf(params[1].str).Ok? {
      var answer := storage(AuthorityOf(params[1].str).value, Encoded(StorageKeyParts(params)).value);
      if answer.Found? {
        AcceptedExactly(params, answer.keyData, exporter, verify);
      }
    }
  }

  // The storage of an authority serves that one, by the keys of its values, and no other.
  lemma BadgerServes(own: seq<DbufVal>, records: map<seq<byte>, seq<byte>>, wanted: seq<DbufVal>, key: seq<byte>)
    ensures var answer := BadgerStorage(own, records)(Some(wanted), key);
            && (!answer.NoTransaction?
                <==> |wanted| == |own|
                     && forall k :: 0 <= k < |own| ==> wanted[k].ToDbufValString() == own[k].ToDbufValString())
            && (!answer.NoTransaction? && key in records ==> answer == Found(records[key]))
            && (!answer.NoTransaction? && key !in records ==> answer == NotFound)
  {
    hide Equal;
    assert forall k :: 0 <= k < |own| && k < |wanted| ==>
      (Equal(wanted[k], own[k]) <==> wanted[k].ToDbufValString() == own[k].ToDbufValString());
  }

  // Looking for the authority panics exactly at a reference that nothing follows.
  lemma AuthorityPanicExactly(str: seq<byte>)
    ensures AuthorityOf(str).Err?
            <==> && DecodeSequence(str).Ok? && |DecodeSequence(str).value| % 2 == 1
                 && DecodeSequence(str).value[|DecodeSequence(str).value| - 1].ToDbufValString() == REFERENCE_KEY
  {
    hide DecodeSequence, ReferencePath, PairMap, Equal;
    if DecodeSequence(str).Ok? {
      var vals := DecodeSequence(str).value;
      if |vals| % 2 == 1 {
        var last := vals[|vals| - 1];
        assert Equal(last, REFERENCE) <==> last.ToDbufValString() == REFERENCE_KEY;
      }
    }
  }

  lemma ChecksAreComplete(params: seq<DbufValString>, storage: Storage, exporter: Exporter, verify: Verifier)
    requires |params| >= 2
    ensures Complete(params, CheckParams(params, storage, exporter, verify))
  {
  }

  // ------------------------------------------------------------ the cache as an object

  class HeaderStoreCacheItem {
    const storeParams: seq<DbufValString>
    var isAuthenticated: bool

    constructor (params: seq<DbufValString>)
      ensures storeParams == params && !isAuthenticated
    {
      storeParams, isAuthenticated := params, false;
    }

    function ProtectedHeaders(): DbufValString
      requires |storeParams| >= 2
    {
      storeParams[1]
    }

    function GetSize(): nat
      requires |storeParams| >= 2
    {
      |ProtectedHeaders().str| + 32
    }

    function TheEntry(): Entry
      reads this
    {
      Entry(storeParams, isAuthenticated)
    }

    /** The authority of the protected headers, or nil. */
    method Authority() returns (authority: Result<Option<seq<DbufVal>>>)
      requires |storeParams| >= 2 && |ProtectedHeaders().str| < TWO_TO_THE_32
      ensures authority == AuthorityOf(ProtectedHeaders().str)
    {
      hide DecodeSequence, ReferencePath, Equal, PairMap;
      var m: Headers := map[];
      var d := new DecoderState(ProtectedHeaders().str);
      var decoded := d.DecodeAll();
      if decoded.Err? {
        return Ok(None);
      }
      var vals := decoded.value;
      DecodedShort(ProtectedHeaders().str);
      var i := 0;
      NoReferences(vals);
      while i + 1 < |vals|
        invariant i <= |vals| && i % 2 == 0
        invariant m == References(vals[..i]) && AllShort(m)
      {
        MoreReferences(vals, i);
        if Equal(vals[i], REFERENCE) {
          m := m[vals[i].ToDbufValString() := vals[i + 1]];
        }
        i := i + 2;
      }
      if i < |vals| && Equal(vals[i], REFERENCE) {
        return Err(Panic);
      }
      var path := GetPathProperties(m);
      authority := Ok(if path.Ok? then Some(path.value.authority) else None);
    }
  }

  /** The references among keys and values. */
  function References(vals: seq<DbufVal>): Headers
    requires |vals| % 2 == 0
  {
    var m := PairMap(vals);
    if REFERENCE_KEY in m then map[REFERENCE_KEY := m[REFERENCE_KEY]] else map[]
  }

  lemma NoReferences(vals: seq<DbufVal>)
    ensures References(vals[..0]) == map[]
  {
  }

  lemma MoreReferences(vals: seq<DbufVal>, i: nat)
    requires i % 2 == 0 && i + 1 < |vals|
    ensures References(vals[..i + 2])
         == if Equal(vals[i], REFERENCE) then References(vals[..i])[vals[i].ToDbufValString() := vals[i + 1]]
            else References(vals[..i])
  {
    assert vals[..i + 2][..i] == vals[..i];
  }

  ghost function Entries(cache: map<u32, HeaderStoreCacheItem>): map<u32, Entry>
    reads cache.Values
  {
    map id | id in cache :: cache[id].TheEntry()
  }

  class HeaderStoreCache {
    var cache: map<u32, HeaderStoreCacheItem>
    var currentSize: int
    const maxSize: nat
    const exporter: Exporter
    const verify: Verifier

    /** The cache as a value. */
    ghost function TheCache(): Cache
      reads this, cache.Values
    {
      Cache(Entries(cache), currentSize, maxSize)
    }

    ghost predicate Valid()
      reads this, cache.Values
    {
      Accounted(TheCache())
    }

    constructor (exporter: Exporter, verify: Verifier)
      ensures Valid() && TheCache() == EmptyCache(HEADER_STORE_CACHE_MAX_SIZE)
      ensures this.exporter == exporter && this.verify == verify
    {
      cache, currentSize, maxSize := map[], 0, HEADER_STORE_CACHE_MAX_SIZE;
      this.exporter, this.verify := exporter, verify;
      new;
      assert Entries(cache) == map[];
    }

    /** Checks the parameters of an item, and marks it when they pass. */
    method ValidateKeyParams(ci: HeaderStoreCacheItem, keyData: seq<byte>) returns (check: Check)
      requires |keyData| < TWO_TO_THE_32
      modifies ci`isAuthenticated
      ensures check == ValidKeyParams(ci.storeParams, keyData, exporter, verify)
      ensures ci.isAuthenticated == (old(ci.isAuthenticated) || check == Accepted)
    {
      hide DecodeSequence, Encoded;
      if |ci.storeParams| < 6 {
        return Refused;
      }
      var ds := new DecoderState(keyData);
      var keyDataSeq := ds.DecodeAll();
      if keyDataSeq.Err? {
        return Refused;
      }
      if |keyDataSeq.value| == 0 {
        return Panics;
      }
      DecodedShort(keyData);
      var key := keyDataSeq.value[0];
      var context := CreateExporterContext(ci.storeParams[1].ToDbufSeq(), ci.storeParams[2].ToDbufSeq(),
                                           ci.storeParams[3].ToDbufSeq(), key.ToDbufSeq());
      if context.None? {
        return Refused;
      }
      var output := exporter(context.value);
      if output.None? {
        return Refused;
      }
      if |output.value| < EXPORTER_OUTPUT_PREFIX_SIZE {
        return Panics;
      }
      if output.value[EXPORTER_OUTPUT_PREFIX_SIZE..] != ci.storeParams[4].str {
        return Refused;
      }
      var message := SigningMessage(context.value, output.value[..EXPORTER_OUTPUT_PREFIX_SIZE]);
      if key.typ != TYPE_ARRAY {
        return Refused;
      }
      var keyArray := DecodeContent(key);
      if keyArray.Err? {
        return Refused;
      }
      if |keyArray.value| == 0 {
        return Panics;
      }
      if keyArray.value[0].typ != TYPE_REGISTRY || keyArray.value[0].value != REGISTRY_ED25519 {
        return Refused;
      }
      if |keyArray.value| < 2 {
        return Panics;
      }
      if |keyArray.value[1].Bytes()| != PUBLIC_KEY_SIZE {
        return Panics;
      }
      if !verify(keyArray.value[1].Bytes(), message, ci.storeParams[5].str) {
        return Refused;
      }
      ci.isAuthenticated := true;
      return Accepted;
    }

    /** The part of `Store` that authenticates an item with an identity. */
    method Authenticate(ci: HeaderStoreCacheItem, storage: Storage) returns (check: Check)
      requires |ci.storeParams| > 2 && |ci.storeParams[1].str| < TWO_TO_THE_32
      requires ShortAnswers(storage)
      modifies ci`isAuthenticated
      ensures check == CheckParams(ci.storeParams, storage, exporter, verify)
      ensures ci.isAuthenticated == (old(ci.isAuthenticated) || check == Accepted)
    {
      hide AuthorityOf, ValidKeyParams;
      if |ci.storeParams| < 4 {
        return Refused;
      }
      var key := EncodeSequence(Some(StorageKeyParts(ci.storeParams)));
      if key.Err? {
        return Refused;
      }
      var authority := ci.Authority();
      if authority.Err? {
        return Panics;
      }
      var keyData := storage(authority.value, key.value);
      if keyData.NoTransaction? {
        return Panics;
      }
      if !keyData.Found? {
        return Refused;
      }
      check := ValidateKeyParams(ci, keyData.keyData);
    }

    /** Stores an item under an id, in place of the one that was there. If it does not fit, or is
        not authenticated as it must be, nothing changes. */
    method Store(ci: HeaderStoreCacheItem, id: u32, storage: Storage) returns (error: Option<Error>)
      requires Valid() && |ci.storeParams| >= 2 && (ci.isAuthenticated ==> |ci.storeParams| > 2)
      requires |ci.storeParams[1].str| < TWO_TO_THE_32
      requires ShortAnswers(storage)
      modifies this, ci
      ensures Valid()
      ensures (TheCache(), error)
           == Stored(old(TheCache()), id, ci.storeParams, CheckParams(ci.storeParams, storage, exporter, verify))
      ensures error.None? ==> cache == old(cache)[id := ci] && ci.isAuthenticated == (|ci.storeParams| > 2)
      ensures error.Some? ==> cache == old(cache) && ci.isAuthenticated == old(ci.isAuthenticated)
    {
      hide CheckParams, Accounted, AllSound, Complete, Entries, Stored;
      ghost var before := TheCache();
      ghost var check := CheckParams(ci.storeParams, storage, exporter, verify);
      ChecksAreComplete(ci.storeParams, storage, exporter, verify);
      StoreKeeps(before, id, ci.storeParams, check);
      AccountedSound(before);
      ItemsSound(cache);
      StoredCases(before, id, ci.storeParams, check);
      var newSize := currentSize + ci.GetSize();
      if id in cache {
        newSize := newSize - cache[id].GetSize();
      }
      if newSize > maxSize {
        return Some(DataValueNotAccepted);
      }
      PairsUnchecked(ci.storeParams, storage, exporter, verify);
      if |ci.storeParams| > 2 {
        var checked := Authenticate(ci, storage);
        EntriesAre(cache, before.entries);
        if checked != Accepted {
          return Some(if checked == Panics then Panic else External);
        }
      }
      EntriesAre(cache[id := ci], before.entries[id := ci.TheEntry()]);
      currentSize := newSize;
      cache := cache[id := ci];
      error := None;
    }

    method Load(id: u32) returns (r: Result<HeaderStoreCacheItem>)
      ensures id in cache ==> r == Ok(cache[id])
      ensures id !in cache ==> r == Err(DataValueNotAccepted)
    {
      r := if id in cache then Ok(cache[id]) else Err(DataValueNotAccepted);
    }
  }

  lemma PairsUnchecked(params: seq<DbufValString>, storage: Storage, exporter: Exporter, verify: Verifier)
    requires |params| >= 2
    ensures |params| == 2 ==> CheckParams(params, storage, exporter, verify) == Accepted
  {
  }

  // The items of a sound cache: those with more than headers are authenticated.
  lemma ItemsSound(cache: map<u32, HeaderStoreCacheItem>)
    requires AllSound(Entries(cache))
    ensures Entries(cache).Keys == cache.Keys
    ensures forall id :: id in cache ==>
      && |cache[id].storeParams| >= 2 && Entries(cache)[id] == cache[id].TheEntry()
      && cache[id].isAuthenticated == (|cache[id].storeParams| > 2)
  {
    forall id | id in cache
      ensures |cache[id].storeParams| >= 2 && cache[id].isAuthenticated == (|cache[id].storeParams| > 2)
    {
      assert Sound(Entries(cache)[id]);
    }
  }

  lemma EntriesAre(cache: map<u32, HeaderStoreCacheItem>, entries: map<u32, Entry>)
    requires cache.Keys == entries.Keys && forall id :: id in cache ==> cache[id].TheEntry() == entries[id]
    ensures Entries(cache) == entries
  {
  }

  lemma StoredCases(c: Cache, id: u32, params: seq<DbufValString>, check: Check)
    requires |params| >= 2 && AllSound(c.entries)
    ensures var newSize := c.size + SizeOf(params)
                       - (if id in c.entries then |c.entries[id].params[1].str| + 32 else 0);
            Stored(c, id, params, check)
            == if newSize > c.maxSize then (c, Some(DataValueNotAccepted))
               else if check == Panics then (c, Some(Panic))
               else if check == Refused then (c, Some(External))
               else (c.(entries := c.entries[id := Entry(params, |params| > 2)], size := newSize), None)
  {
  }

  // No entry is larger than the cache may be.
  lemma EntryFits(c: Cache, id: u32)
    requires Accounted(c) && id in c.entries
    ensures |c.entries[id].params| >= 2 && |c.entries[id].params[1].str| < c.maxSize
  {
    TotalWithout(c.entries, id);
  }

  lemma AccountedSound(c: Cache)
    requires Accounted(c)
    ensures AllSound(c.entries) && forall id :: id in c.entries ==> |c.entries[id].params| >= 2
  {
  }
}
