/** Comparing values, and sequences of alternating keys and values. */
module Keys {
  import opened Basics
  import opened Values

  // -------------------------------------------------------------------- comparing

  function Sign(a: int, b: int): int {
    if a < b then -1 else if a > b then 1 else 0
  }

  /** The first difference of two byte strings of the same length decides. */
  function CompareBytes(a: seq<byte>, b: seq<byte>): int
    requires |a| == |b|
  {
    if a == [] then 0
    else if a[0] != b[0] then Sign(a[0], b[0])
    else CompareBytes(a[1..], b[1..])
  }

  /** Type first, then value, then length, then bytes. */
  function Order(a: DbufVal, b: DbufVal): int {
    if a.typ != b.typ then Sign(a.typ, b.typ)
    else if a.value != b.value then Sign(a.value, b.value)
    else if |a.Bytes()| != |b.Bytes()| then Sign(|a.Bytes()|, |b.Bytes()|)
    else CompareBytes(a.Bytes(), b.Bytes())
  }

  lemma {:induction false} CompareSkip(a: seq<byte>, b: seq<byte>, i: nat)
    requires |a| == |b| && i <= |a| && a[..i] == b[..i]
    ensures CompareBytes(a, b) == CompareBytes(a[i..], b[i..])
    decreases i
  {
    if i == 0 {
      assert a[0..] == a && b[0..] == b;
    } else {
      assert a[0] == a[..i][0] == b[..i][0] == b[0];
      assert a[1..][..i - 1] == a[..i][1..] && b[1..][..i - 1] == b[..i][1..];
      CompareSkip(a[1..], b[1..], i - 1);
      assert a[1..][i - 1..] == a[i..] && b[1..][i - 1..] == b[i..];
    }
  }

  method Compare(a: DbufVal, b: DbufVal) returns (c: int)
    ensures c == Order(a, b)
  {
    c := Sign(a.typ, b.typ);
    if c == 0 {
      c := Sign(a.value, b.value);
    }
    if c == 0 {
      c := Sign(|a.Bytes()|, |b.Bytes()|);
    }
    if c != 0 {
      return;
    }
    var x, y := a.Bytes(), b.Bytes();
    var i := 0;
    while i < |x|
      invariant i <= |x| && x[..i] == y[..i]
    {
      if x[i] != y[i] {
        CompareSkip(x, y, i);
        return Sign(x[i], y[i]);
      }
      assert x[..i + 1] == x[..i] + [x[i]] && y[..i + 1] == y[..i] + [y[i]];
      i := i + 1;
    }
    CompareSkip(x, y, i);
    c := 0;
  }

  lemma {:induction false} BytesOrder(a: seq<byte>, b: seq<byte>)
    requires |a| == |b|
    ensures CompareBytes(a, b) == -CompareBytes(b, a)
    ensures CompareBytes(a, b) == 0 <==> a == b
  {
    if a != [] {
      BytesOrder(a[1..], b[1..]);
      assert a == [a[0]] + a[1..] && b == [b[0]] + b[1..];
    }
  }

  lemma {:induction false} BytesTransitive(a: seq<byte>, b: seq<byte>, c: seq<byte>)
    requires |a| == |b| == |c| && CompareBytes(a, b) <= 0 && CompareBytes(b, c) <= 0
    ensures CompareBytes(a, c) <= 0
  {
    if a != [] && a[0] == b[0] == c[0] {
      BytesTransitive(a[1..], b[1..], c[1..]);
    }
  }

  // The order is total, and two values are equal in it exactly when they are the same map key.
  lemma OrderIsTotal(a: DbufVal, b: DbufVal)
    ensures Order(a, b) == -Order(b, a)
    ensures Order(a, b) == 0 <==> a.ToDbufValString() == b.ToDbufValString()
  {
    if |a.Bytes()| == |b.Bytes()| {
      BytesOrder(a.Bytes(), b.Bytes());
    }
  }

  /** The bytes differ, and the first difference is that of a smaller byte. */
  predicate BytesBefore(a: seq<byte>, b: seq<byte>)
    requires |a| == |b|
  {
    exists k :: 0 <= k < |a| && a[..k] == b[..k] && a[k] < b[k]
  }

  lemma {:induction false} BytesSmaller(a: seq<byte>, b: seq<byte>)
    requires |a| == |b|
    ensures CompareBytes(a, b) in {-1, 0, 1}
    ensures CompareBytes(a, b) == -1 <==> BytesBefore(a, b)
  {
    if a == [] {
    } else if a[0] != b[0] {
      assert a[..0] == b[..0];
      forall k | 0 < k < |a| ensures a[..k] != b[..k] {
        assert a[..k][0] != b[..k][0];
      }
    } else {
      BytesSmaller(a[1..], b[1..]);
      forall k | 0 < k < |a| ensures a[..k] == b[..k] <==> a[1..][..k - 1] == b[1..][..k - 1] {
        assert a[..k] == [a[0]] + a[1..][..k - 1] && b[..k] == [b[0]] + b[1..][..k - 1];
        assert a[..k][1..] == a[1..][..k - 1] && b[..k][1..] == b[1..][..k - 1];
      }
      if BytesBefore(a, b) {
        var k :| 0 <= k < |a| && a[..k] == b[..k] && a[k] < b[k];
        assert a[1..][..k - 1] == b[1..][..k - 1] && a[1..][k - 1] < b[1..][k - 1];
      }
      if BytesBefore(a[1..], b[1..]) {
        var k :| 0 <= k < |a[1..]| && a[1..][..k] == b[1..][..k] && a[1..][k] < b[1..][k];
        assert a[..k + 1] == b[..k + 1] && a[k + 1] < b[k + 1];
      }
    }
  }

  // Which of two values comes first: the one of smaller type, then of smaller value, then with
  // fewer bytes, then with the smaller byte at the first difference.
  lemma OrderIsLexicographic(a: DbufVal, b: DbufVal)
    ensures Order(a, b) in {-1, 0, 1}
    ensures Order(a, b) == -1
            <==> || a.typ < b.typ
                 || (a.typ == b.typ && a.value < b.value)
                 || (a.typ == b.typ && a.value == b.value && |a.Bytes()| < |b.Bytes()|)
                 || (a.typ == b.typ && a.value == b.value && |a.Bytes()| == |b.Bytes()|
                     && BytesBefore(a.Bytes(), b.Bytes()))
  {
    if |a.Bytes()| == |b.Bytes()| {
      BytesSmaller(a.Bytes(), b.Bytes());
    }
  }

  lemma OrderIsTransitive(a: DbufVal, b: DbufVal, c: DbufVal)
    requires Order(a, b) <= 0 && Order(b, c) <= 0
    ensures Order(a, c) <= 0
  {
    if |a.Bytes()| == |b.Bytes()| == |c.Bytes()| && a.typ == b.typ == c.typ && a.value == b.value == c.value {
      BytesTransitive(a.Bytes(), b.Bytes(), c.Bytes());
    }
  }

  /** `Equal`, as the comparison with 0 of the order. */
  predicate Equal(a: DbufVal, b: DbufVal)
    ensures Equal(a, b) <==> a.ToDbufValString() == b.ToDbufValString()
  {
    OrderIsTotal(a, b);
    Order(a, b) == 0
  }

  // ------------------------------------------------------------- keys and values

  /** The keys at the even positions before `n`. */
  function KeysBefore(vals: seq<DbufVal>, n: nat): set<DbufValString>
    requires n <= |vals|
  {
    set i | 0 <= i < n && i % 2 == 0 :: vals[i].ToDbufValString()
  }

  /** No key occurs at two even positions. */
  predicate KeysUnique(vals: seq<DbufVal>) {
    forall i, j :: 0 <= i < j < |vals| && i % 2 == 0 && j % 2 == 0 ==>
      vals[i].ToDbufValString() != vals[j].ToDbufValString()
  }

  /** Reports the first position that repeats an earlier key, if there is one. */
  method ValidateKeysUnique(vals: seq<DbufVal>) returns (repeated: Option<nat>)
    ensures repeated.None? <==> KeysUnique(vals)
    ensures repeated.Some? ==> repeated.value < |vals| && repeated.value % 2 == 0 && KeysUnique(vals[..repeated.value])
    ensures repeated.Some? ==> vals[repeated.value].ToDbufValString() in KeysBefore(vals, repeated.value)
  {
    var seen: set<DbufValString> := {};
    var i := 0;
    while i < |vals|
      invariant i <= |vals| + 1 && i % 2 == 0
      invariant seen == KeysBefore(vals, if i <= |vals| then i else |vals|)
      invariant KeysUnique(vals[..if i <= |vals| then i else |vals|])
    {
      var key := vals[i].ToDbufValString();
      if key in seen {
        ghost var j :| 0 <= j < i && j % 2 == 0 && vals[j].ToDbufValString() == key;
        return Some(i);
      }
      ghost var n := if i + 2 <= |vals| then i + 2 else |vals|;
      forall j | 0 <= j < i && j % 2 == 0 ensures vals[j].ToDbufValString() != key {
        assert vals[j].ToDbufValString() in seen;
      }
      assert KeysBefore(vals, n) == seen + {key} by {
        assert forall j :: 0 <= j < n && j % 2 == 0 ==> j < i || j == i;
      }
      seen := seen + {key};
      i := i + 2;
    }
    assert vals[..|vals|] == vals;
    repeated := None;
  }

  /** The position `i` holds the key and a value follows it. */
  predicate KeyAt(vals: seq<DbufVal>, key: DbufVal, i: int) {
    0 <= i && i + 1 < |vals| && i % 2 == 0 && vals[i].ToDbufValString() == key.ToDbufValString()
  }

  method FindKey(vals: seq<DbufVal>, key: DbufVal) returns (keyIndex: int)
    ensures keyIndex == -1 || KeyAt(vals, key, keyIndex)
    ensures keyIndex == -1 ==> forall i :: !KeyAt(vals, key, i)
    ensures forall i :: 0 <= i < keyIndex ==> !KeyAt(vals, key, i)
  {
    var i := 0;
    while i < |vals|
      invariant i <= |vals| && forall j :: 0 <= j < i ==> !KeyAt(vals, key, j)
    {
      if i % 2 == 0 && Equal(vals[i], key) && i + 1 < |vals| {
        return i;
      }
      i := i + 1;
    }
    keyIndex := -1;
  }

  /** The map from keys to values; of a repeated key the last value stays. */
  function PairMap(vals: seq<DbufVal>): map<DbufValString, DbufVal>
    requires |vals| % 2 == 0
  {
    if vals == [] then map[]
    else PairMap(vals[..|vals| - 2])[vals[|vals| - 2].ToDbufValString() := vals[|vals| - 1]]
  }

  // The map has the keys at even positions.
  lemma {:induction false} PairMapKeys(vals: seq<DbufVal>)
    requires |vals| % 2 == 0
    ensures PairMap(vals).Keys == KeysBefore(vals, |vals|)
  {
    if vals != [] {
      var n := |vals| - 2;
      PairMapKeys(vals[..n]);
      assert KeysBefore(vals[..n], n) == KeysBefore(vals, n);
      assert KeysBefore(vals, |vals|) == KeysBefore(vals, n) + {vals[n].ToDbufValString()} by {
        assert forall j :: 0 <= j < |vals| && j % 2 == 0 ==> j < n || j == n;
      }
    }
  }

  // With unique keys, the map gives each key the value that follows it.
  lemma {:induction false} PairMapFinds(vals: seq<DbufVal>, key: DbufVal, i: nat)
    requires |vals| % 2 == 0 && KeysUnique(vals) && KeyAt(vals, key, i)
    ensures key.ToDbufValString() in PairMap(vals) && PairMap(vals)[key.ToDbufValString()] == vals[i + 1]
  {
    var n := |vals| - 2;
    if i < n {
      PairMapFinds(vals[..n], key, i);
    }
  }

  // Where keys are unique, looking a key up by position and in the map agree: at most one
  // position holds the key, and the map has the value behind it.
  lemma LookupsAgree(vals: seq<DbufVal>, key: DbufVal)
    requires |vals| % 2 == 0 && KeysUnique(vals)
    ensures forall i, j :: KeyAt(vals, key, i) && KeyAt(vals, key, j) ==> i == j
    ensures key.ToDbufValString() in PairMap(vals) <==> exists i :: KeyAt(vals, key, i)
    ensures forall i :: KeyAt(vals, key, i) ==>
      key.ToDbufValString() in PairMap(vals) && PairMap(vals)[key.ToDbufValString()] == vals[i + 1]
  {
    PairMapKeys(vals);
    if key.ToDbufValString() in PairMap(vals) {
      var i :| 0 <= i < |vals| && i % 2 == 0 && vals[i].ToDbufValString() == key.ToDbufValString();
      assert KeyAt(vals, key, i);
    }
    forall i | KeyAt(vals, key, i)
      ensures key.ToDbufValString() in PairMap(vals) && PairMap(vals)[key.ToDbufValString()] == vals[i + 1]
    {
      PairMapFinds(vals, key, i);
    }
  }

  // The map, from the first pair on.
  lemma {:induction false} PairMapFront(vals: seq<DbufVal>)
    requires |vals| % 2 == 0 && vals != []
    ensures PairMap(vals) == map[vals[0].ToDbufValString() := vals[1]] + PairMap(vals[2..])
    decreases |vals|
  {
    var n := |vals| - 2;
    if n == 0 {
      assert vals[..0] == [] && vals[2..] == [];
    } else {
      var front, rest := vals[..n], vals[2..];
      PairMapFront(front);
      assert front[2..] == rest[..|rest| - 2];
      assert rest[|rest| - 2] == vals[n] && rest[|rest| - 1] == vals[n + 1];
    }
  }
}
