/** Integers of up to 64 bits: small ones as scalars, the others as minimal two's complement. */
module Integers {
  import opened Basics
  import opened Values
  import opened BigEndian

  // ---------------------------------------------------------- two's complement

  function Pow256(n: nat): (p: nat)
    ensures p > 0
  {
    if n == 0 then 1 else 0x100 * Pow256(n - 1)
  }

  /** The value of bytes in two's complement; no bytes at all stand for -1. */
  function Value(bs: seq<byte>): int {
    Word(if bs != [] && bs[0] < 0x80 then 0 else -1, bs)
  }

  /** No shorter bytes have the same value. */
  predicate Minimal(bs: seq<byte>) {
    && (|bs| >= 2 ==> !(bs[0] == 0 && bs[1] < 0x80) && !(bs[0] == 0xFF && bs[1] >= 0x80))
    && bs != [0xFF]
  }

  // Bytes of a given length reach only so far.
  lemma {:induction false} ValueRange(bs: seq<byte>)
    requires bs != []
    ensures -0x80 * Pow256(|bs| - 1) <= Value(bs) < 0x80 * Pow256(|bs| - 1)
  {
    if |bs| > 1 {
      ValueRange(bs[..|bs| - 1]);
    } else {
      assert Word(if bs[0] < 0x80 then 0 else -1, bs[..0]) == if bs[0] < 0x80 then 0 else -1;
      PowZero();
    }
  }

  // Minimal bytes reach further than any shorter ones.
  lemma {:induction false} MinimalRange(bs: seq<byte>)
    requires |bs| >= 2 && Minimal(bs)
    ensures !(-0x80 * Pow256(|bs| - 2) <= Value(bs) < 0x80 * Pow256(|bs| - 2))
  {
    if |bs| > 2 {
      MinimalRange(bs[..|bs| - 1]);
    } else {
      assert bs[..1][..0] == [];
      assert Value(bs) == Value(bs[..1]) * 0x100 + (bs[1] as int);
    }
  }

  lemma {:induction false} PowMonotone(m: nat, n: nat)
    requires m <= n
    ensures Pow256(m) <= Pow256(n)
  {
    if m < n {
      PowMonotone(m, n - 1);
    }
  }

  // Minimal bytes are determined by their value.
  lemma MinimalUnique(a: seq<byte>, b: seq<byte>)
    requires Minimal(a) && Minimal(b) && Value(a) == Value(b)
    ensures a == b
  {
    hide Minimal, Value;
    MinimalLength(a, b);
    MinimalLength(b, a);
    ValueUnique(a, b);
  }

  lemma MinimalLength(a: seq<byte>, b: seq<byte>)
    requires Minimal(a) && Minimal(b) && Value(a) == Value(b)
    ensures |a| >= |b|
  {
    hide Pow256;
    if |a| < |b| {
      if |b| >= 2 {
        MinimalRange(b);
        PowMonotone(0, |b| - 2);
        assert Pow256(0) == 1 by { PowZero(); }
        if a != [] {
          ValueRange(a);
          PowMonotone(|a| - 1, |b| - 2);
        }
      }
    }
  }

  lemma PowZero()
    ensures Pow256(0) == 1
  {
  }

  // Bytes of the same length are determined by their value.
  lemma ValueUnique(a: seq<byte>, b: seq<byte>)
    requires |a| == |b| && Value(a) == Value(b)
    ensures a == b
  {
    var s, t := if a != [] && a[0] < 0x80 then 0 else -1, if b != [] && b[0] < 0x80 then 0 else -1;
    WordDigits(s, a);
    WordDigits(t, b);
    WordUnique(s, a, t, b);
  }

  lemma WordDigits(seed: int, bs: seq<byte>)
    ensures bs == [] ==> Word(seed, bs) == seed
  {
  }

  lemma {:induction false} WordUnique(s: int, a: seq<byte>, t: int, b: seq<byte>)
    requires |a| == |b| && Word(s, a) == Word(t, b)
    ensures a == b && s == t
  {
    if a != [] {
      var n := |a| - 1;
      var v, w := Word(s, a[..n]), Word(t, b[..n]);
      assert v * 0x100 + (a[n] as int) == w * 0x100 + (b[n] as int);
      assert v == w && a[n] == b[n];
      WordUnique(s, a[..n], t, b[..n]);
      assert a == a[..n] + [a[n]] && b == b[..n] + [b[n]];
    }
  }

  // A byte more in the seed.
  lemma {:induction false} WordSeed(seed: int, bs: seq<byte>)
    ensures Word(seed, bs) == seed * Pow256(|bs|) + Word(0, bs)
  {
    if bs != [] {
      WordSeed(seed, bs[..|bs| - 1]);
      var p := Pow256(|bs| - 1);
      assert seed * (0x100 * p) == seed * p * 0x100;
    }
  }

  // Leading zeros add nothing.
  lemma WordZero(bs: seq<byte>)
    requires bs != [] && bs[0] == 0
    ensures Word(0, bs) == Word(0, bs[1..])
  {
    WordFront(0, bs);
  }

  // Neither do leading ones of a negative number.
  lemma WordOnes(bs: seq<byte>)
    requires bs != [] && bs[0] == 0xFF
    ensures Word(-1, bs) == Word(-1, bs[1..])
  {
    WordFront(-1, bs);
  }

  // Eight digits hold 64 bits.
  lemma {:induction false} TopOf(v: nat, n: nat)
    requires v < Pow256(n)
    ensures Top(v, n) == 0
  {
    if n > 0 {
      TopOf(v / 0x100, n - 1);
    }
  }

  lemma Powers()
    ensures Pow256(4) == TWO_TO_THE_32 && Pow256(7) == 0x100_0000_0000_0000 && Pow256(8) == TWO_TO_THE_64
  {
    assert Pow256(2) == 0x1_0000;
    assert Pow256(4) == TWO_TO_THE_32;
    assert Pow256(6) == 0x1_0000_0000_0000;
    assert Pow256(7) == 0x100_0000_0000_0000;
  }

  lemma EightDigits(v: u64)
    ensures Word(0, Digits(v, 8)) == v
  {
    hide Top, Digits, Word;
    Powers();
    WordOfDigits(v, 8);
    TopOf(v, 8);
  }

  // -------------------------------------------------------------------- decoding

  function GetI64Spec(v: DbufVal): (r: Result<i64>) {
    if v.typ == TYPE_UINT then Ok(v.value)
    else if v.typ == TYPE_INTEGER then
      var s := v.Bytes();
      if |s| > 8 || !Minimal(s) then Err(DataValueNotAccepted)
      else
        I64Range(s);
        Ok(Value(s))
    else Err(DataTypeNotAccepted)
  }

  lemma I64Range(s: seq<byte>)
    requires |s| <= 8
    ensures -0x8000_0000_0000_0000 <= Value(s) < 0x8000_0000_0000_0000
  {
    Powers();
    if s != [] {
      ValueRange(s);
      PowMonotone(|s| - 1, 7);
    }
  }

  /** `GetU64` takes 5 to 9 bytes, the ninth only for the sign of a number above 2^63. */
  function GetU64Spec(v: DbufVal): (r: Result<u64>) {
    if v.typ == TYPE_UINT then Ok(v.value)
    else if v.typ == TYPE_INTEGER then
      var s := v.Bytes();
      if !(5 <= |s| <= 9) || s[0] >= 0x80 || !Minimal(s) || (|s| == 9 && s[0] != 0) then Err(DataValueNotAccepted)
      else
        U64Range(s);
        Ok(Value(s))
    else Err(DataTypeNotAccepted)
  }

  lemma U64Range(s: seq<byte>)
    requires 1 <= |s| <= 9 && s[0] < 0x80 && (|s| == 9 ==> s[0] == 0)
    ensures 0 <= Value(s) < TWO_TO_THE_64
  {
    Powers();
    if |s| == 9 {
      WordZero(s);
      WordBound(s[1..]);
    } else {
      I64Range(s);
    }
  }

  lemma {:induction false} WordBound(bs: seq<byte>)
    ensures 0 <= Word(0, bs) < Pow256(|bs|)
  {
    if bs != [] {
      WordBound(bs[..|bs| - 1]);
    }
  }

  method GetI64(v: DbufVal) returns (r: Result<i64>)
    ensures r == GetI64Spec(v)
  {
    if v.typ == TYPE_UINT {
      return Ok(v.value);
    }
    if v.typ != TYPE_INTEGER {
      return Err(DataTypeNotAccepted);
    }
    var s := v.Bytes();
    if |s| == 0 {
      return Ok(-1);
    }
    if |s| > 8 {
      return Err(DataValueNotAccepted);
    }
    if |s| > 1 {
      if s[0] == 0 && s[1] < 0x80 {
        return Err(DataValueNotAccepted);
      }
      if s[0] == 0xFF && s[1] >= 0x80 {
        return Err(DataValueNotAccepted);
      }
    }
    if |s| == 1 && s[0] == 0xFF {
      return Err(DataValueNotAccepted);
    }
    var res: int := if s[0] >= 0x80 then -1 else 0;
    for i := 0 to |s|
      invariant res == Word(if s[0] < 0x80 then 0 else -1, s[..i])
    {
      assert s[..i + 1][..i] == s[..i];
      res := res * 0x100 + s[i];
    }
    assert s[..|s|] == s;
    I64Range(s);
    r := Ok(res);
  }

  method GetU64(v: DbufVal) returns (r: Result<u64>)
    ensures r == GetU64Spec(v)
  {
    if v.typ == TYPE_UINT {
      return Ok(v.value);
    }
    if v.typ != TYPE_INTEGER {
      return Err(DataTypeNotAccepted);
    }
    var s := v.Bytes();
    if |s| == 0 || |s| > 9 || s[0] > 0x7F || (s[0] < 0x80 && |s| < 5) || (|s| < 9 && s[0] == 0 && s[1] < 0x80) {
      return Err(DataValueNotAccepted);
    }
    if |s| == 9 {
      if s[0] != 0 || s[1] < 0x80 {
        return Err(DataValueNotAccepted);
      }
    }
    var start := if s[0] == 0 then 1 else 0;
    var u: int := 0;
    assert Word(0, s[start..start]) == 0;
    for i := start to |s|
      invariant u == Word(0, s[start..i])
    {
      assert s[start..i + 1][..i - start] == s[start..i];
      u := u * 0x100 + s[i];
    }
    assert s[start..|s|] == s[start..] && s[0..] == s;
    if start == 1 {
      WordZero(s);
    }
    U64Range(s);
    r := Ok(u);
  }

  // -------------------------------------------------------------------- encoding

  /** The encoding of an integer: a scalar if it fits 32 bits unsigned, else minimal bytes. */
  predicate Encodes(v: DbufVal, n: int) {
    if 0 <= n <= MAX_U32 then v == Uint(n)
    else v == Integer(v.Bytes()) && Minimal(v.Bytes()) && Value(v.Bytes()) == n
  }

  // An integer has only one encoding.
  lemma EncodesUnique(v: DbufVal, w: DbufVal, n: int)
    requires Encodes(v, n) && Encodes(w, n)
    ensures v == w
  {
    if !(0 <= n <= MAX_U32) {
      MinimalUnique(v.Bytes(), w.Bytes());
    }
  }

  /** The digits of a positive number without leading zeros, with one where they would read
      as a negative number. */
  method PositiveBytes(n: u64) returns (bs: seq<byte>)
    requires n > MAX_U32
    ensures Minimal(bs) && Value(bs) == n && 5 <= |bs| <= 9
    ensures |bs| == 9 ==> bs[0] == 0
    ensures bs[0] < 0x80
  {
    var b := Digits(n, 8);
    var i := 0;
    EightDigits(n);
    Powers();
    assert b[0..] == b;
    while i < 7 && b[i] == 0
      invariant i <= 7 && Word(0, b[i..]) == n
    {
      WordZero(b[i..]);
      assert b[i..][1..] == b[i + 1..];
      i := i + 1;
    }
    WordBound(b[i..]);
    BigEnough(b[i..]);
    if b[i] >= 0x80 {
      bs := [0] + b[i..];
      WordZero(bs);
      assert bs[1..] == b[i..];
    } else {
      bs := b[i..];
    }
  }

  // A number above 32 bits needs five digits.
  lemma BigEnough(bs: seq<byte>)
    requires Word(0, bs) > MAX_U32
    ensures |bs| >= 5
  {
    WordBound(bs);
    Powers();
    if |bs| <= 4 {
      PowMonotone(|bs|, 4);
    }
  }

  method Uint64(n: u64) returns (v: DbufVal)
    ensures Encodes(v, n)
    ensures v.slice.Some? ==> 5 <= |v.Bytes()| <= 9 && v.Bytes()[0] < 0x80 && (|v.Bytes()| == 9 ==> v.Bytes()[0] == 0)
  {
    if n <= MAX_U32 {
      return Uint(n);
    }
    var bs := PositiveBytes(n);
    v := Integer(bs);
  }

  // Leading zeros can be dropped until the bytes are minimal.
  lemma {:induction false} Shortest(bs: seq<byte>) returns (r: seq<byte>)
    requires bs != [] && bs[0] < 0x80
    ensures Minimal(r) && Value(r) == Word(0, bs)
    decreases |bs|
  {
    r := bs;
    if |bs| >= 2 && bs[0] == 0 && bs[1] < 0x80 {
      WordZero(bs);
      r := Shortest(bs[1..]);
    }
  }

  /** The encoding of an unsigned number. */
  ghost function EncodingOf(n: u64): (v: DbufVal)
    ensures Encodes(v, n)
  {
    EncodingExists(n);
    var v :| Encodes(v, n);
    v
  }

  lemma EncodingExists(n: u64)
    ensures exists v :: Encodes(v, n)
  {
    if n <= MAX_U32 {
      assert Encodes(Uint(n), n);
    } else {
      var bs := [0] + Digits(n, 8);
      EightDigits(n);
      WordZero(bs);
      assert bs[1..] == Digits(n, 8);
      var r := Shortest(bs);
      assert Encodes(Integer(r), n);
    }
  }

  method Int64(n: i64) returns (v: DbufVal)
    ensures Encodes(v, n) && |v.Bytes()| <= 8
  {
    if 0 <= n <= MAX_U32 {
      return Uint(n);
    }
    if n == -1 {
      return Integer([]);
    }
    if n >= 0 {
      var bs := PositiveBytes(n);
      SignedShape(bs);
      return Integer(bs);
    }
    var bs := NegativeBytes(n);
    v := Integer(bs);
  }

  /** The digits of a negative number without leading ones, with one where they would read as
      a positive number. */
  method NegativeBytes(n: i64) returns (bs: seq<byte>)
    requires n < -1
    ensures Minimal(bs) && Value(bs) == n && |bs| <= 8
  {
    var b := Digits(n + TWO_TO_THE_64, 8);
    var i := 0;
    EightDigits(n + TWO_TO_THE_64);
    Powers();
    WordSeed(-1, b);
    assert b[0..] == b;
    if b[0] < 0x80 {
      ValueRange(b);
    }
    while i < 7 && b[i] == 0xFF
      invariant i <= 7 && Word(-1, b[i..]) == n
      invariant i == 0 ==> b[0] >= 0x80
      invariant i > 0 ==> b[i - 1] == 0xFF
    {
      WordOnes(b[i..]);
      assert b[i..][1..] == b[i + 1..];
      i := i + 1;
    }
    if b[i] < 0x80 {
      i := i - 1;
      WordOnes(b[i..]);
      assert b[i..][1..] == b[i + 1..];
    }
    bs := b[i..];
  }

  // --------------------------------------------------------------------- theorems

  /** A value as decoding returns it. */
  predicate AsDecoded(v: DbufVal) {
    HasSlice(v.typ) ==> v.slice.Some? && v.value == 0
  }

  // Decoding undoes encoding for every signed number, and outside the range of 32-bit scalars
  // nothing but its encoding decodes to it.
  lemma SignedRoundTrip(v: DbufVal, n: i64)
    ensures Encodes(v, n) ==> GetI64Spec(v) == Ok(n)
    ensures AsDecoded(v) && !(0 <= n <= MAX_U32) ==> (GetI64Spec(v) == Ok(n) <==> Encodes(v, n))
  {
    if Encodes(v, n) && v.typ == TYPE_INTEGER {
      SignedShape(v.Bytes());
    }
  }

  // The same for unsigned numbers.
  lemma UnsignedRoundTrip(v: DbufVal, n: u64)
    ensures Encodes(v, n) ==> GetU64Spec(v) == Ok(n)
    ensures AsDecoded(v) && n > MAX_U32 ==> (GetU64Spec(v) == Ok(n) <==> Encodes(v, n))
  {
    if Encodes(v, n) && n > MAX_U32 {
      PositiveShape(v.Bytes());
    }
  }

  // Minimal bytes of a signed 64-bit number are at most eight.
  lemma SignedShape(s: seq<byte>)
    requires Minimal(s) && -0x8000_0000_0000_0000 <= Value(s) < 0x8000_0000_0000_0000
    ensures |s| <= 8
  {
    Powers();
    if |s| > 8 {
      MinimalRange(s);
      PowMonotone(7, |s| - 2);
    }
  }

  // Minimal bytes of a number above 32 bits are of the shape that `GetU64` takes.
  lemma PositiveShape(s: seq<byte>)
    requires Minimal(s) && MAX_U32 < Value(s) < TWO_TO_THE_64
    ensures 5 <= |s| <= 9 && s[0] < 0x80 && (|s| == 9 ==> s[0] == 0)
  {
    hide Minimal;
    Powers();
    if s != [] {
      ValueRange(s);
      WordSeed(-1, s);
      WordBound(s);
    }
    if |s| < 5 && s != [] {
      BigEnough(s);
    }
    if |s| > 9 {
      MinimalRange(s);
      PowMonotone(8, |s| - 2);
    }
    if |s| == 9 && s[0] != 0 {
      NinthByteIsSign(s);
    }
  }

  lemma NinthByteIsSign(s: seq<byte>)
    requires |s| == 9 && 0 < s[0] < 0x80
    ensures Value(s) >= TWO_TO_THE_64
  {
    Powers();
    WordFront(0, s);
    WordSeed(s[0], s[1..]);
    WordBound(s[1..]);
    assert s[0] as int * Pow256(8) >= Pow256(8);
  }

  // On integers of 5 to 8 bytes the unsigned decoder accepts just what the signed one reads as
  // a number that is not negative.
  lemma DecodersAgree(v: DbufVal)
    requires v.typ == TYPE_INTEGER && 5 <= |v.Bytes()| <= 8
    ensures GetU64Spec(v).Ok? <==> GetI64Spec(v).Ok? && GetI64Spec(v).value >= 0
    ensures GetU64Spec(v).Ok? ==> GetU64Spec(v).value == GetI64Spec(v).value
  {
    var s := v.Bytes();
    WordSeed(-1, s);
    WordBound(s);
  }

  // What the decoders make of bytes: the signed one reads minimal bytes, and the unsigned one
  // minimal bytes of a number from 2^31 up, which it takes with the five bytes of a number that
  // fits a scalar as well. Shorter integers are refused.
  lemma IntegersExactly(v: DbufVal)
    requires v.typ == TYPE_INTEGER
    ensures forall n: i64 :: GetI64Spec(v) == Ok(n) <==> Minimal(v.Bytes()) && Value(v.Bytes()) == n
    ensures forall n: u64 :: GetU64Spec(v) == Ok(n)
              <==> Minimal(v.Bytes()) && Value(v.Bytes()) == n && n >= 0x8000_0000
    ensures |v.Bytes()| < 5 ==> GetU64Spec(v) == Err(DataValueNotAccepted)
  {
    hide Minimal, Value;
    forall n: i64 ensures GetI64Spec(v) == Ok(n) <==> Minimal(v.Bytes()) && Value(v.Bytes()) == n {
      if Minimal(v.Bytes()) && Value(v.Bytes()) == n {
        SignedShape(v.Bytes());
      }
    }
    forall n: u64 ensures GetU64Spec(v) == Ok(n)
        <==> Minimal(v.Bytes()) && Value(v.Bytes()) == n && n >= 0x8000_0000
    {
      if Minimal(v.Bytes()) && Value(v.Bytes()) == n && n >= 0x8000_0000 {
        LargeShape(v.Bytes());
      }
      if GetU64Spec(v) == Ok(n) {
        FiveBytes(v.Bytes());
      }
    }
  }

  // Minimal bytes of a number from 2^31 up.
  lemma LargeShape(s: seq<byte>)
    requires Minimal(s) && 0x8000_0000 <= Value(s) < TWO_TO_THE_64
    ensures 5 <= |s| <= 9 && s[0] < 0x80 && (|s| == 9 ==> s[0] == 0)
  {
    hide Minimal;
    if Value(s) > MAX_U32 {
      PositiveShape(s);
    } else {
      Powers();
      assert Pow256(3) == 0x100_0000;
      if s != [] {
        ValueRange(s);
        WordSeed(-1, s);
        WordBound(s);
        PowMonotone(|s| - 1, if |s| < 5 then 3 else |s| - 1);
      }
      if |s| > 5 {
        MinimalRange(s);
        PowMonotone(4, |s| - 2);
      }
    }
  }

  // Five or more minimal bytes are a number from 2^31 up, or a negative one.
  lemma FiveBytes(s: seq<byte>)
    requires Minimal(s) && |s| >= 5 && s[0] < 0x80
    ensures Value(s) >= 0x8000_0000
  {
    hide Minimal;
    MinimalRange(s);
    WordBound(s);
    PowMonotone(3, |s| - 2);
    assert Pow256(3) == 0x100_0000;
  }
}
