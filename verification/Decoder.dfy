/** Reading values from a buffer: the functions that say what is read, and the reader itself. */
module Decoder {
  import opened Basics
  import opened Values
  import opened BigEndian
  import opened Heads

  /** One value taken from the front of the unread bytes. */
  datatype Item = Item(head: InitialDecode, bytes: Option<seq<byte>>, rest: seq<byte>) {
    function Val(): DbufVal {
      head.GetDbufVal(bytes)
    }
  }

  function Decode(input: seq<byte>): (r: Result<Item>)
    ensures r.Ok? ==> |r.value.rest| < |input| && r.value.rest == input[|input| - |r.value.rest|..]
    ensures r.Ok? ==> |r.value.Val().Bytes()| < |input|
  {
    if input == [] then Err(IncompleteStream)
    else
      var (i, rest) := ReadHead(ZERO_INITIAL, input);
      if i.missing != 0 then Err(IncompleteStream)
      else if !i.TypeHasSlice() then Ok(Item(i, None, rest))
      else if |rest| < i.value then Err(IncompleteStream)
      else Ok(Item(i.(value := 0), Some(rest[..i.value]), rest[i.value..]))
  }

  function DecodeSequence(input: seq<byte>): Result<seq<DbufVal>>
    decreases |input|
  {
    if input == [] then Ok([])
    else
      var item := Decode(input);
      if item.Err? then Err(item.error)
      else Prepend([item.value.Val()], DecodeSequence(item.value.rest))
  }

  function Prepend<T>(front: seq<T>, r: Result<seq<T>>): Result<seq<T>> {
    if r.Ok? then Ok(front + r.value) else r
  }

  lemma DecodeNone()
    ensures DecodeSequence([]) == Ok([])
  {
  }

  lemma DecodeFirst(bs: seq<byte>)
    requires bs != []
    ensures DecodeSequence(bs) == if Decode(bs).Err? then Err(Decode(bs).error)
                                  else Prepend([Decode(bs).value.Val()], DecodeSequence(Decode(bs).value.rest))
  {
    hide Decode;
  }

  lemma PrependTwice<T>(a: seq<T>, b: seq<T>, r: Result<seq<T>>)
    ensures Prepend(a, Prepend(b, r)) == Prepend(a + b, r)
  {
    if r.Ok? {
      assert a + (b + r.value) == a + b + r.value;
    }
  }

  lemma PrependNothing<T>(r: Result<seq<T>>)
    ensures Prepend([], r) == r
  {
    if r.Ok? {
      assert [] + r.value == r.value;
    }
  }

  // Decoding what follows a decodable sequence only adds values: the two decodes are appended.
  lemma {:induction false} DecodeSequenceAppend(a: seq<byte>, b: seq<byte>)
    requires DecodeSequence(a).Ok?
    ensures DecodeSequence(a + b) == Prepend(DecodeSequence(a).value, DecodeSequence(b))
    decreases |a|
  {
    hide Decode, DecodeSequence;
    if a == [] {
      DecodeNone();
      assert a + b == b;
      PrependNothing(DecodeSequence(b));
    } else {
      DecodeFirst(a);
      var item := Decode(a).value;
      DecodeExtend(a, b);
      DecodeFirst(a + b);
      DecodeSequenceAppend(item.rest, b);
      PrependTwice([item.Val()], DecodeSequence(item.rest).value, DecodeSequence(b));
    }
  }

  // A value that decodes is the same whatever follows it.
  lemma {:induction false} DecodeExtend(a: seq<byte>, b: seq<byte>)
    requires Decode(a).Ok?
    ensures Decode(a + b) == Ok(Decode(a).value.(rest := Decode(a).value.rest + b))
  {
    hide ReadHead;
    var (i, rest) := ReadHead(ZERO_INITIAL, a);
    ReadHeadExtend(ZERO_INITIAL, a, b);
    if i.TypeHasSlice() {
      assert (rest + b)[..i.value] == rest[..i.value];
      assert (rest + b)[i.value..] == rest[i.value..] + b;
    }
  }

  lemma ReadHeadExtend(prev: InitialDecode, a: seq<byte>, b: seq<byte>)
    requires a != [] && ReadHead(prev, a).0.missing == 0
    ensures ReadHead(prev, a + b) == (ReadHead(prev, a).0, ReadHead(prev, a).1 + b)
  {
    hide Absorb;
    assert (a + b)[0] == a[0] && (a + b)[1..] == a[1..] + b;
    var low := LowBits(a[0]);
    if low >= 24 {
      AbsorbSplit(LongHead(TypeOf(a[0]), low - 24), a[1..], b);
    }
  }

  // Any complete head is read, the shortest for its value or not: its value is spelled by the low
  // bits of its first byte and by its extra bytes.
  lemma AnyHead(b: byte, extra: seq<byte>, rest: seq<byte>)
    requires LowBits(b) >= 24 && |extra| == ExtraLength(LowBits(b) - 24)
    ensures Word(Seed(LowBits(b) - 24), extra) <= MAX_U32
    ensures ReadHead(ZERO_INITIAL, [b] + (extra + rest))
         == (InitialDecode(Word(Seed(LowBits(b) - 24), extra), TypeOf(b), 0, |extra|), rest)
  {
    hide Absorb, Word;
    AbsorbAll(LongHead(TypeOf(b), LowBits(b) - 24), extra, rest);
    assert ([b] + (extra + rest))[1..] == extra + rest;
  }

  // A value whose head is one byte.
  lemma DecodeShort(b: byte, rest: seq<byte>)
    requires LowBits(b) < 24
    ensures Decode([b] + rest)
         == if !HasSlice(TypeOf(b)) then Ok(Item(InitialDecode(LowBits(b), TypeOf(b), 0, 0), None, rest))
            else if |rest| < LowBits(b) then Err(IncompleteStream)
            else Ok(Item(InitialDecode(0, TypeOf(b), 0, 0), Some(rest[..LowBits(b)]), rest[LowBits(b)..]))
  {
    assert ([b] + rest)[1..] == rest;
  }

  // What ends inside its head does not decode.
  lemma CutHead(b: byte, extra: seq<byte>)
    requires LowBits(b) >= 24 && |extra| < ExtraLength(LowBits(b) - 24)
    ensures Decode([b] + extra) == Err(IncompleteStream) && Decode([]) == Err(IncompleteStream)
  {
    hide Absorb;
    assert ([b] + extra)[1..] == extra;
    AbsorbCount(LongHead(TypeOf(b), LowBits(b) - 24), extra);
  }

  // A value with any complete head decodes exactly when its bytes are there.
  lemma AnyHeadDecodes(b: byte, extra: seq<byte>, rest: seq<byte>)
    requires LowBits(b) >= 24 && |extra| == ExtraLength(LowBits(b) - 24)
    ensures Word(Seed(LowBits(b) - 24), extra) <= MAX_U32
    ensures var n := Word(Seed(LowBits(b) - 24), extra); var r := Decode([b] + (extra + rest));
            if !HasSlice(TypeOf(b)) then r.Ok? && r.value.Val() == DbufVal(TypeOf(b), n, None) && r.value.rest == rest
            else
              && (r.Ok? <==> n <= |rest|)
              && (r.Ok? ==> r.value.Val() == DbufVal(TypeOf(b), 0, Some(rest[..n])) && r.value.rest == rest[n..])
  {
    hide ReadHead, Word;
    AnyHead(b, extra, rest);
  }

  class DecoderState {
    var data: seq<byte>
    var index: nat

    ghost predicate Valid()
      reads this
    {
      index <= |data| < TWO_TO_THE_32
    }

    function Unread(): seq<byte>
      reads this
      requires Valid()
    {
      data[index..]
    }

    constructor (data: seq<byte>)
      requires |data| < TWO_TO_THE_32
      ensures Valid() && this.data == data && index == 0 && Unread() == data
    {
      this.data, index := data, 0;
    }

    /** Shifts in the bytes a head still misses, as far as the buffer has them. */
    method ReadMissing(i: InitialDecode) returns (j: InitialDecode)
      requires Valid()
      modifies this`index
      ensures Valid() && (j, Unread()) == Absorb(i, old(Unread()))
    {
      j := i;
      while index < |data| && j.missing > 0
        invariant Valid()
        invariant Absorb(j, Unread()) == Absorb(i, old(Unread()))
        decreases |data| - index
      {
        assert data[index..][1..] == data[index + 1..];
        j := j.(value := Shift(j.value, data[index]), missing := j.missing - 1);
        index := index + 1;
      }
    }

    /** The extra bytes of a head; its type plays no part in reading them. */
    method ReadExtraValue(l1: byte, ghost typ: kind) returns (val: u32, missing: byte, extra: byte)
      requires Valid() && l1 < 8
      modifies this`index
      ensures Valid()
      ensures (InitialDecode(val, typ, missing, extra), Unread()) == Absorb(LongHead(typ, l1), old(Unread()))
    {
      hide Absorb;
      extra := if l1 < 4 then 1 else if l1 < 6 then 2 else if l1 < 7 then 3 else 4;
      var seed: u32 := if l1 < 4 then l1 else if l1 < 6 then l1 - 4 else 0;
      var i := ReadMissing(InitialDecode(seed, TYPE_INTEGER, extra, extra));
      val, missing := i.value, i.missing;
      AbsorbType(LongHead(TYPE_INTEGER, l1), typ, old(Unread()));
    }

    method DecodeInitial(i: InitialDecode) returns (j: InitialDecode)
      requires Valid()
      requires i.missing > 0 || index < |data|
      modifies this`index
      ensures Valid() && (j, Unread()) == DecodeHead(i, old(Unread()))
    {
      if i.missing > 0 {
        j := ReadMissing(i);
        return;
      }
      var b := data[index];
      assert data[index..][1..] == data[index + 1..];
      index := index + 1;
      j := i.(typ := TypeOf(b), value := LowBits(b));
      if j.value >= 24 {
        var extraValue, missing, extra := ReadExtraValue(LowBits(b) - 24, j.typ);
        j := j.(missing := missing, value := extraValue, extra := extra);
      }
    }

    method CheckCanonical(i: InitialDecode) returns (code: Code, j: InitialDecode)
      requires Valid()
      requires i.missing > 0 || index < |data|
      modifies this`index
      ensures Valid() && (j, Unread()) == DecodeHead(i, old(Unread()))
      ensures code == CheckHead(i, old(Unread()))
    {
      if i.missing > 0 {
        j := ReadMissing(i);
        if j.extra + 1 != MeasureExtraValue(j.value) {
          return NonCanonicalInitialDecode, j;
        }
        return Done, j;
      }
      var b := data[index];
      assert data[index..][1..] == data[index + 1..];
      index := index + 1;
      j := i.(typ := TypeOf(b), value := LowBits(b));
      if j.value >= 24 {
        var extraValue, missing, extra := ReadExtraValue(LowBits(b) - 24, j.typ);
        j := j.(missing := missing, value := extraValue, extra := extra);
        if missing > 0 {
          return Continue, j;
        }
        if extra + 1 != MeasureExtraValue(j.value) {
          return NonCanonicalInitialDecode, j;
        }
      }
      code := Done;
    }

    /** Takes `c` bytes, or all that are left when there are fewer. */
    method ReadSlice(c: u32) returns (b: seq<byte>)
      requires Valid()
      modifies this`index
      ensures Valid()
      ensures old(Unread()) == b + Unread()
      ensures |b| == c || (|b| < c && Unread() == [])
    {
      var remaining := |data| - index;
      if remaining < c {
        b := data[index..];
        index := |data|;
        return;
      }
      b := data[index..index + c];
      index := index + c;
    }

    method DecodeOne() returns (v: InitialDecode, bytes: Option<seq<byte>>, error: Option<Error>)
      requires Valid()
      modifies this`index
      ensures Valid()
      ensures error.Some? <==> Decode(old(Unread())).Err?
      ensures error.Some? ==> Decode(old(Unread())) == Err(error.value)
      ensures error.None? ==> Decode(old(Unread())) == Ok(Item(v, bytes, Unread()))
    {
      v, bytes, error := ZERO_INITIAL, None, None;
      if |data| <= index {
        return v, None, Some(IncompleteStream);
      }
      v := DecodeInitial(v);
      if v.missing != 0 {
        return v, None, Some(IncompleteStream);
      }
      if v.TypeHasSlice() {
        ghost var rest := Unread();
        var parseBytes := ReadSlice(v.value);
        if |parseBytes| < v.value {
          return v, None, Some(IncompleteStream);
        }
        assert parseBytes == rest[..v.value] && Unread() == rest[v.value..];
        bytes := Some(parseBytes);
        v := v.(value := 0);
      }
    }

    method DecodeAll() returns (r: Result<seq<DbufVal>>)
      requires Valid()
      modifies this`index
      ensures Valid() && r == DecodeSequence(old(Unread()))
    {
      var vals: seq<DbufVal> := [];
      hide Decode;
      ghost var all := Unread();
      if DecodeSequence(all).Ok? {
        assert [] + DecodeSequence(all).value == DecodeSequence(all).value;
      }
      while index < |data|
        invariant Valid()
        invariant DecodeSequence(all) == Prepend(vals, DecodeSequence(Unread()))
        decreases |data| - index
      {
        ghost var before := Unread();
        var v, bytes, error := DecodeOne();
        if error.Some? {
          return Err(error.value);
        }
        ghost var tail := DecodeSequence(Unread());
        if tail.Ok? {
          assert vals + ([v.GetDbufVal(bytes)] + tail.value) == vals + [v.GetDbufVal(bytes)] + tail.value;
        }
        vals := vals + [v.GetDbufVal(bytes)];
      }
      r := Ok(vals);
      assert vals + [] == vals;
    }
  }

  // The bytes read for a head do not depend on its type.
  lemma {:induction false} AbsorbType(i: InitialDecode, typ: kind, input: seq<byte>)
    ensures var (j, rest) := Absorb(i, input); Absorb(i.(typ := typ), input) == (j.(typ := typ), rest)
    decreases |input|
  {
    if i.missing > 0 && input != [] {
      AbsorbType(i.(value := Shift(i.value, input[0]), missing := i.missing - 1), typ, input[1..]);
    }
  }
}
