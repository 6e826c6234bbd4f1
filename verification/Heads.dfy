/** Heads: the 1 to 5 bytes that carry a type and a 32-bit value. */
module Heads {
  import opened Basics
  import opened Values
  import opened BigEndian

  /** The number of bytes of the canonical head for `l`. */
  function MeasureExtraValue(l: u32): (n: byte)
    ensures 1 <= n <= 5
  {
    if l < 24 then 1
    else if l < 0x400 then 2
    else if l < 0x2_0000 then 3
    else if l < 0x100_0000 then 4
    else 5
  }

  /** The bytes that follow an initial byte with marker `l1` (0 to 7). */
  function ExtraLength(l1: byte): byte {
    if l1 < 4 then 1 else if l1 < 6 then 2 else if l1 < 7 then 3 else 4
  }

  /** The bits of the marker that belong to the value. */
  function Seed(l1: byte): u32 {
    if l1 < 4 then l1 else if l1 == 5 then 1 else 0
  }

  /** The smallest marker that announces `n` extra bytes. */
  function Marker(n: byte): byte {
    if n == 1 then 0 else if n == 2 then 4 else if n == 3 then 6 else 7
  }

  /** The first byte of a head: three bits of type, five low bits. */
  function InitialByte(typ: kind, low: int): byte
    requires 0 <= low < 32
  {
    typ * 32 + low
  }

  function TypeOf(b: byte): kind {
    b / 32
  }

  function LowBits(b: byte): (low: int)
    ensures 0 <= low < 32
  {
    b % 32
  }

  lemma InitialByteParts(typ: kind, low: int)
    requires 0 <= low < 32
    ensures TypeOf(InitialByte(typ, low)) == typ && LowBits(InitialByte(typ, low)) == low
  {
  }

  lemma InitialByteWhole(b: byte)
    ensures InitialByte(TypeOf(b), LowBits(b)) == b
  {
  }

  /** The canonical head of a type and value. */
  function HeadBytes(typ: kind, v: u32): (bs: seq<byte>)
    ensures |bs| == MeasureExtraValue(v)
  {
    if v < 24 then [InitialByte(typ, v)]
    else
      var n := MeasureExtraValue(v) - 1;
      TopIsSmall(v);
      [InitialByte(typ, 24 + Marker(n) + Top(v, n))] + Digits(v, n)
  }

  // The bits of a long value that its marker carries.
  lemma TopIsSmall(v: u32)
    requires v >= 24
    ensures var n := MeasureExtraValue(v) - 1;
            && (n == 1 ==> Top(v, n) < 4)
            && (n == 2 ==> Top(v, n) < 2)
            && (n >= 3 ==> Top(v, n) == 0)
  {
    var v1 := v / 0x100;
    var v2 := v1 / 0x100;
    assert Top(v, 1) == Top(v1, 0);
    assert Top(v, 2) == Top(v1, 1) == Top(v2, 0);
    assert Top(v, 3) == Top(v1, 2) == Top(v2, 1) == Top(v2 / 0x100, 0);
    assert Top(v, 4) == Top(v1, 3) == Top(v2, 2) == Top(v2 / 0x100, 1) == v2 / 0x100 / 0x100;
  }

  /** Feeds missing bytes to a head, as many as are wanted and available. */
  function Absorb(i: InitialDecode, input: seq<byte>): (r: (InitialDecode, seq<byte>))
    ensures |r.1| <= |input| && r.1 == input[|input| - |r.1|..]
    ensures r.0.typ == i.typ && r.0.extra == i.extra
    ensures r.0.missing == i.missing - (|input| - |r.1|)
    ensures r.0.missing > 0 ==> r.1 == []
    decreases |input|
  {
    if i.missing > 0 && input != [] then
      Absorb(i.(value := Shift(i.value, input[0]), missing := i.missing - 1), input[1..])
    else
      (i, input)
  }

  /** Reads a head from its first byte; `prev` is the head read before it. */
  function ReadHead(prev: InitialDecode, input: seq<byte>): (r: (InitialDecode, seq<byte>))
    requires input != []
    ensures |r.1| < |input| && r.1 == input[|input| - |r.1|..]
    ensures r.0.typ == TypeOf(input[0])
    ensures prev.missing == 0 ==> (r.0.missing > 0 ==> r.1 == [])
    ensures |input| - |r.1| <= 5
  {
    var typ, low := TypeOf(input[0]), LowBits(input[0]);
    if low < 24 then
      (prev.(typ := typ, value := low), input[1..])
    else
      Absorb(LongHead(typ, low - 24), input[1..])
  }

  /** A head with marker `l1`, before any of its extra bytes. */
  function LongHead(typ: kind, l1: byte): InitialDecode {
    InitialDecode(Seed(l1), typ, ExtraLength(l1), ExtraLength(l1))
  }

  /** What `DecodeInitial` does to a head and the unread bytes. */
  function DecodeHead(i: InitialDecode, input: seq<byte>): (r: (InitialDecode, seq<byte>))
    requires i.missing > 0 || input != []
    ensures |r.1| <= |input| && r.1 == input[|input| - |r.1|..]
    ensures r.0.missing > 0 ==> r.1 == []
  {
    if i.missing > 0 then Absorb(i, input) else ReadHead(i, input)
  }

  // Feeding bytes in two portions is feeding their concatenation.
  lemma {:induction false} AbsorbSplit(i: InitialDecode, a: seq<byte>, b: seq<byte>)
    ensures var (j, rest) := Absorb(i, a);
            Absorb(i, a + b) == if j.missing == 0 then (j, rest + b) else Absorb(j, b)
    decreases |a|
  {
    if a == [] {
      assert a + b == b;
    } else if i.missing > 0 {
      assert (a + b)[1..] == a[1..] + b;
      AbsorbSplit(i.(value := Shift(i.value, a[0]), missing := i.missing - 1), a[1..], b);
    }
  }

  /** The value is small enough for the bytes that are still missing. */
  predicate Roomy(i: InitialDecode) {
    && i.missing <= 4
    && (i.missing == 1 ==> i.value < 0x100_0000)
    && (i.missing == 2 ==> i.value < 0x1_0000)
    && (i.missing == 3 ==> i.value < 0x100)
    && (i.missing == 4 ==> i.value < 1)
  }

  lemma ConcatTail(a: seq<byte>, b: seq<byte>)
    requires a != []
    ensures (a + b)[0] == a[0] && (a + b)[1..] == a[1..] + b
  {
  }

  // A head that gets all its bytes takes on the word they spell.
  lemma {:induction false} AbsorbAll(i: InitialDecode, bs: seq<byte>, rest: seq<byte>)
    requires Roomy(i) && |bs| == i.missing
    ensures Word(i.value, bs) < TWO_TO_THE_32
    ensures Absorb(i, bs + rest) == (i.(value := Word(i.value, bs), missing := 0), rest)
    decreases |bs|
  {
    if bs == [] {
      assert bs + rest == rest;
    } else {
      ConcatTail(bs, rest);
      var next := i.(value := Shift(i.value, bs[0]), missing := i.missing - 1);
      WordFront(i.value, bs);
      AbsorbAll(next, bs[1..], rest);
    }
  }

  // Decoding undoes encoding, whatever follows the head.
  lemma ReadHeadBytes(prev: InitialDecode, typ: kind, v: u32, rest: seq<byte>)
    requires prev.missing == 0
    ensures ReadHead(prev, HeadBytes(typ, v) + rest)
         == (InitialDecode(v, typ, 0, if v < 24 then prev.extra else MeasureExtraValue(v) - 1), rest)
  {
    hide Digits, Top, Absorb;
    var input := HeadBytes(typ, v) + rest;
    if v < 24 {
      InitialByteParts(typ, v);
      assert input[1..] == rest;
    } else {
      var n := MeasureExtraValue(v) - 1;
      TopIsSmall(v);
      InitialByteParts(typ, 24 + Marker(n) + Top(v, n));
      assert input[1..] == Digits(v, n) + rest;
      ReadLongHead(typ, v, rest);
    }
  }

  lemma {:induction false} ReadLongHead(typ: kind, v: u32, rest: seq<byte>)
    requires v >= 24
    ensures var n := MeasureExtraValue(v) - 1;
            && Marker(n) + Top(v, n) < 8
            && Absorb(LongHead(typ, Marker(n) + Top(v, n)), Digits(v, n) + rest) == (InitialDecode(v, typ, 0, n), rest)
  {
    hide Digits, Top, Word, Absorb;
    var n := MeasureExtraValue(v) - 1;
    TopIsSmall(v);
    AbsorbAll(LongHead(typ, Marker(n) + Top(v, n)), Digits(v, n), rest);
    WordOfDigits(v, n);
  }

  /** The result codes of the validator. */
  datatype Code =
    | Done
    | Continue
    | TotalLengthExceededInitialDecode
    | TotalLengthExceededSlice
    | NestedLengthExceededTopOfStackComplete
    | NestedLengthExceededAppendToStack
    | NestedLengthExceededInitialDecode
    | MapCountOdd
    | NonCanonicalInitialDecode
    | InvalidUtf8
  {
    predicate Rejects() {
      this != Done && this != Continue
    }
  }

  /** The verdict on a head whose available bytes have been read. */
  function Measured(i: InitialDecode): Code {
    if i.extra + 1 != MeasureExtraValue(i.value) then NonCanonicalInitialDecode else Done
  }

  /** What `CheckCanonical` answers for the head that `DecodeHead` reads. A head resumed with
      too few bytes is judged on its partial value. */
  function CheckHead(i: InitialDecode, input: seq<byte>): Code
    requires i.missing > 0 || input != []
  {
    var j := DecodeHead(i, input).0;
    if i.missing > 0 then Measured(j)
    else if LowBits(input[0]) < 24 then Done
    else if j.missing > 0 then Continue
    else Measured(j)
  }

  // A complete head is accepted exactly when it is the one the encoder writes.
  lemma CanonicalExactly(prev: InitialDecode, input: seq<byte>)
    requires input != [] && prev.missing == 0
    ensures var (i, rest) := ReadHead(prev, input);
            && (CheckHead(prev, input) == Continue <==> i.missing > 0)
            && (CheckHead(prev, input) == Done <==> i.missing == 0 && input == HeadBytes(i.typ, i.value) + rest)
  {
    var (i, rest) := ReadHead(prev, input);
    var low := LowBits(input[0]);
    InitialByteWhole(input[0]);
    assert input == [input[0]] + input[1..];
    if low >= 24 && i.missing == 0 {
      if Measured(i) == Done {
        ReadBack(i.typ, low - 24, input[1..]);
      } else if input == HeadBytes(i.typ, i.value) + rest {
        assert false;
      }
    }
  }

  // The bytes of an accepted long head are those of the canonical head.
  lemma ReadBack(typ: kind, l1: byte, tail: seq<byte>)
    requires l1 < 8
    requires var i := Absorb(LongHead(typ, l1), tail).0; i.missing == 0 && Measured(i) == Done
    ensures var (i, rest) := Absorb(LongHead(typ, l1), tail);
            [InitialByte(typ, 24 + l1)] + tail == HeadBytes(typ, i.value) + rest
  {
    hide Digits, Top, Word, Absorb, HeadBytes;
    var start := LongHead(typ, l1);
    var bs := tail[..start.missing];
    assert tail == bs + tail[start.missing..];
    AbsorbAll(start, bs, tail[start.missing..]);
    HeadFromWord(typ, l1, bs);
  }

  lemma {:induction false} HeadFromWord(typ: kind, l1: byte, bs: seq<byte>)
    requires l1 < 8 && |bs| == ExtraLength(l1)
    requires Word(Seed(l1), bs) < TWO_TO_THE_32
    requires MeasureExtraValue(Word(Seed(l1), bs)) == |bs| + 1
    ensures HeadBytes(typ, Word(Seed(l1), bs)) == [InitialByte(typ, 24 + l1)] + bs
  {
    hide Digits, Top, Word;
    DigitsOfWord(Seed(l1), bs);
  }

  lemma HeadParts(prev: InitialDecode, input: seq<byte>)
    requires input != []
    ensures ReadHead(prev, input)
         == if LowBits(input[0]) < 24 then (prev.(typ := TypeOf(input[0]), value := LowBits(input[0])), input[1..])
            else Absorb(LongHead(TypeOf(input[0]), LowBits(input[0]) - 24), input[1..])
  {
    hide Absorb;
  }

  // No head that is read with some value is shorter than the canonical one.
  lemma ShortestHead(prev: InitialDecode, input: seq<byte>)
    requires prev.missing == 0 && input != [] && ReadHead(prev, input).0.missing == 0
    ensures |input| - |ReadHead(prev, input).1| >= MeasureExtraValue(ReadHead(prev, input).0.value)
  {
    hide ReadHead, Absorb, Word, TypeOf, LowBits;
    HeadParts(prev, input);
    if LowBits(input[0]) >= 24 {
      ShortestExtra(TypeOf(input[0]), LowBits(input[0]) - 24, input[1..]);
    }
  }

  lemma ShortestExtra(typ: kind, l1: byte, tail: seq<byte>)
    requires l1 < 8 && Absorb(LongHead(typ, l1), tail).0.missing == 0
    ensures 1 + |tail| - |Absorb(LongHead(typ, l1), tail).1|
         >= MeasureExtraValue(Absorb(LongHead(typ, l1), tail).0.value)
  {
    hide Absorb, Word;
    var start := LongHead(typ, l1);
    var bs := tail[..start.missing];
    assert tail == bs + tail[start.missing..];
    AbsorbAll(start, bs, tail[start.missing..]);
    WordReach(start.value, bs);
  }

  // How far a few bytes reach.
  lemma WordReach(seed: nat, bs: seq<byte>)
    ensures |bs| == 1 ==> Word(seed, bs) < seed * 0x100 + 0x100
    ensures |bs| == 2 ==> Word(seed, bs) < seed * 0x1_0000 + 0x1_0000
    ensures |bs| == 3 ==> Word(seed, bs) < seed * 0x100_0000 + 0x100_0000
  {
    if 1 <= |bs| <= 3 {
      WordReach(seed, bs[..|bs| - 1]);
    }
  }

  /** Two heads with the same type and value, and equally complete. */
  predicate SameHead(i: InitialDecode, j: InitialDecode) {
    i.typ == j.typ && i.value == j.value && i.missing == j.missing
  }

  // A head read from the front of a buffer does not depend on what was read before, nor on the
  // buffer's end, unless the buffer ends inside it.
  lemma HeadWithin(prev: InitialDecode, input: seq<byte>, r: nat)
    requires prev.missing == 0 && 0 < r <= |input|
    ensures var (i, rest) := ReadHead(prev, input); var n := |input| - |rest|;
            var (j, left) := ReadHead(ZERO_INITIAL, input[..r]);
            && i.typ == j.typ
            && (n > r ==> CheckHead(ZERO_INITIAL, input[..r]) == Continue)
            && (n <= r ==> SameHead(i, j) && left == input[n..r]
                           && CheckHead(ZERO_INITIAL, input[..r]) == CheckHead(prev, input))
  {
    hide Absorb, Measured, LongHead, LowBits, TypeOf, ReadHead, CheckHead;
    var front := input[..r];
    assert front[0] == input[0] && front[1..] == input[1..r];
    HeadParts(prev, input);
    HeadParts(ZERO_INITIAL, front);
    CheckParts(prev, input);
    CheckParts(ZERO_INITIAL, front);
    if LowBits(input[0]) >= 24 {
      LongWithin(LongHead(TypeOf(input[0]), LowBits(input[0]) - 24), input, r);
    }
  }

  lemma CheckParts(prev: InitialDecode, input: seq<byte>)
    requires prev.missing == 0 && input != []
    ensures var i := ReadHead(prev, input).0;
            CheckHead(prev, input)
            == if LowBits(input[0]) < 24 then Done else if i.missing > 0 then Continue else Measured(i)
  {
    hide ReadHead, Measured, LowBits;
  }

  // The same for the extra bytes of a long head.
  lemma LongWithin(start: InitialDecode, input: seq<byte>, r: nat)
    requires 0 < r <= |input|
    ensures var (w, rest) := Absorb(start, input[1..]); var n := |input| - |rest|;
            var (j, left) := Absorb(start, input[1..r]);
            if n > r then j.missing > 0 else w == j && left == input[n..r]
  {
    hide Absorb;
    if r < |input| {
      assert input[1..] == input[1..r] + input[r..];
      AbsorbWithin(start, input[1..r], input[r..]);
    } else {
      assert input[1..r] == input[1..];
    }
  }

  // The validator waits exactly when the buffer has ended inside the head.
  lemma HeadContinues(prev: InitialDecode, input: seq<byte>)
    requires prev.missing == 0 && input != []
    ensures CheckHead(prev, input) == Continue <==> ReadHead(prev, input).0.missing > 0
    ensures CheckHead(prev, input) == Continue ==> ReadHead(prev, input).1 == []
  {
    hide Absorb;
  }

  // Too few bytes leave the others missing.
  lemma {:induction false} AbsorbCount(i: InitialDecode, bs: seq<byte>)
    requires |bs| < i.missing
    ensures Absorb(i, bs).0.missing == i.missing - |bs|
    decreases |bs|
  {
    if bs != [] {
      AbsorbCount(i.(value := Shift(i.value, bs[0]), missing := i.missing - 1), bs[1..]);
    }
  }

  // More bytes either are not looked at, or complete a head that missed some.
  lemma AbsorbWithin(i: InitialDecode, a: seq<byte>, b: seq<byte>)
    requires b != []
    ensures var (j, left) := Absorb(i, a); var (w, rest) := Absorb(i, a + b);
            if j.missing > 0 then |rest| < |b| else w == j && rest == left + b
  {
    AbsorbSplit(i, a, b);
  }
}
