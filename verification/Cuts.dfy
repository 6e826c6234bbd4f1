/** Where an encoding may be cut into pieces. */
module Cuts {
  import opened Basics
  import opened Values
  import opened BigEndian
  import opened Heads
  import opened Encoding
  import opened Trees
  import opened Validator
  import opened Grammar
  import opened Acceptance
  import opened LengthMode
  import opened Language
  import opened Chunking

  // ------------------------------------------------------------- heads in a buffer

  /** The bytes that are missing behind `bs` from the head it ends in. Containers make no
      difference to where heads stand: behind the head of one stands that of its first item. */
  function MissingAfter(bs: seq<byte>): nat
    decreases |bs|
  {
    if bs == [] then 0
    else
      var (i, rest) := ReadHead(ZERO_INITIAL, bs);
      if i.missing > 0 then i.missing
      else MissingAfter(rest[if i.TypeHasSlice() && !i.TypeHasNesting() then Min(i.value, |rest|) else 0..])
  }

  lemma MissingStep(bs: seq<byte>)
    requires bs != []
    ensures var (i, rest) := ReadHead(ZERO_INITIAL, bs); var leaf := i.TypeHasSlice() && !i.TypeHasNesting();
            MissingAfter(bs) == if i.missing > 0 then i.missing
                                else MissingAfter(if leaf then rest[Min(i.value, |rest|)..] else rest)
  {
    hide ReadHead;
    var rest := ReadHead(ZERO_INITIAL, bs).1;
    assert rest[0..] == rest;
  }

  /** What lies ahead of the validator behind the leaf that it is in. */
  function BehindLeaf(c: Core, bs: seq<byte>): seq<byte>
    requires Sound(c)
  {
    if c.sliceMode then bs[Min(Last(c.stack).value, |bs|)..] else bs
  }

  // A validator that waits misses the bytes that are missing from the last head.
  lemma {:induction false} WaitsForMissing(c: Core, input: seq<byte>)
    requires Sound(c) && c.initial.missing == 0 && Loop(c, input).code == Continue
    ensures Loop(c, input).core.initial.missing == MissingAfter(BehindLeaf(c, input))
    decreases |input|, if c.sliceMode then 1 else 0
  {
    hide Loop, NextStep, Frames, Pending, MissingAfter;
    StepKeeps(c, input);
    LoopStep(c, input);
    NothingMissing();
    var step := NextStep(c, input);
    if c.sliceMode {
      LeafStep(c, input);
    } else if input == [] {
      assert step == Stop(Outcome(Continue, c, input)) by { EmptyStep(c); }
    } else {
      FirstHead(c, input);
      MissingStep(input);
    }
    if step.Go? {
      WaitsForMissing(step.core, step.rest);
    }
  }

  lemma NothingMissing()
    ensures MissingAfter([]) == 0
  {
  }

  lemma EmptyStep(c: Core)
    requires Sound(c) && !c.sliceMode
    ensures NextStep(c, []) == Stop(Outcome(Continue, c, []))
  {
  }

  lemma LeafStep(c: Core, input: seq<byte>)
    requires Sound(c) && c.sliceMode
    ensures match NextStep(c, input)
            case Stop(out) => out.code == Continue ==> out.core.initial == c.initial && BehindLeaf(c, input) == []
            case Go(d, rest) => d.initial == c.initial && !d.sliceMode && rest == BehindLeaf(c, input)
  {
    hide Shrink, Maps, TextBytes, Pending;
    if SliceStep(c, input).Stop? && SliceStep(c, input).out.code == Continue {
      SliceWaits(c, input);
    }
  }

  // The validator is done with the first head, or waits for the rest of it.
  lemma FirstHead(c: Core, input: seq<byte>)
    requires Sound(c) && !c.sliceMode && c.initial.missing == 0 && input != []
    ensures var (i, rest) := ReadHead(ZERO_INITIAL, input);
            match NextStep(c, input)
            case Stop(out) => out.code == Continue ==> out.core.initial.missing == i.missing > 0
            case Go(d, more) =>
              && d.initial.missing == i.missing == 0 && more == rest
              && (d.sliceMode <==> i.TypeHasSlice() && !i.TypeHasNesting())
              && (d.sliceMode ==> d.stack != [] && Last(d.stack).value == i.value)
  {
    hide ReadHead, CheckHead, Consume, Pending;
    HeadWithin(c.initial, input, |input|);
    assert input[..|input|] == input;
    var (i, rest) := ReadHead(c.initial, input);
    assert SameHead(i, ReadHead(ZERO_INITIAL, input).0) by { SameRead(c.initial, input); }
    assert rest == ReadHead(ZERO_INITIAL, input).1 by { SameRead(c.initial, input); }
    HeadStepFresh(c, input);
    ConsumedHead(c.(initial := i), |input| - |rest|, rest);
  }

  lemma SameRead(prev: InitialDecode, input: seq<byte>)
    requires prev.missing == 0 && input != []
    ensures SameHead(ReadHead(prev, input).0, ReadHead(ZERO_INITIAL, input).0)
    ensures ReadHead(prev, input).1 == ReadHead(ZERO_INITIAL, input).1
  {
    hide Absorb;
  }

  lemma ConsumedHead(c: Core, n: nat, rest: seq<byte>)
    requires Falling(c.stack) && |c.mapCounts| == Maps(c.stack) && n <= 5 && !c.sliceMode
    ensures match Consume(c, n, rest)
            case Stop(out) => out.code == Continue ==> out.core.initial == c.initial && c.initial.missing > 0
            case Go(d, more) =>
              && d.initial == c.initial && c.initial.missing == 0 && more == rest
              && (d.sliceMode <==> c.initial.TypeHasSlice() && !c.initial.TypeHasNesting())
              && (d.sliceMode ==> d.stack != [] && Last(d.stack) == c.initial)
  {
    hide Shrink, Maps;
    if c.stack == [] || Last(c.stack).value >= n {
      var e := Counted(c.(length := Minus(c.length, n)));
      ShrinkKeeps(e.stack, e.mapCounts, n, e.initial.TypeHasSlice()) by { if c.stack != [] { LastIsLeast(c.stack); } }
    }
  }

  /** Each head that is cut between `read` and the pieces, or between two pieces, is completed
      by the next piece that is not empty. */
  predicate Completed(read: seq<byte>, pieces: seq<seq<byte>>)
    decreases |pieces|
  {
    pieces == [] || (Supplies(pieces[0], MissingAfter(read)) && Completed(read + pieces[0], pieces[1..]))
  }

  lemma {:induction false} NoPiecesLeft(read: seq<byte>, pieces: seq<seq<byte>>)
    requires Joined(pieces) == []
    ensures Completed(read, pieces)
    decreases |pieces|
  {
    hide MissingAfter;
    if pieces != [] {
      assert pieces[0] == [];
      NoPiecesLeft(read + pieces[0], pieces[1..]);
    }
  }

  // Whether the validator finds its heads completed can be told from the bytes.
  lemma {:induction false} SuppliedByBytes(c: Core, read: seq<byte>, d: Core, pieces: seq<seq<byte>>)
    requires Sound(c) && c.initial.missing == 0 && !c.sliceMode && Sound(d) && pieces != []
    requires Loop(c, read) == Outcome(Continue, d, [])
    requires !Loop(c, read + Joined(pieces)).code.Rejects() && Loop(c, read + Joined(pieces)).rest == []
    ensures Supplied(d, pieces) <==> Completed(read, pieces)
    decreases |pieces|
  {
    hide Loop, Frames, Pending, MissingAfter, Clean, Joined;
    var a, rest := pieces[0], Joined(pieces[1..]);
    JoinedFront(pieces);
    Reassociate(read, a, rest);
    WaitsForMissing(c, read);
    LoopKeeps(d, a);
    if Supplies(a, d.initial.missing) {
      TwoPieces(c, read, a + rest);
      FirstAndRest(c, read, a);
      TwoPieces(c, read + a, rest);
      var o := Loop(d, a);
      assert Loop(c, read + a) == o;
      if o.code == Continue {
        if |pieces| > 1 {
          SuppliedByBytes(c, read + a, o.core, pieces[1..]);
        }
      } else {
        NoPiecesLeft(read + a, pieces[1..]);
      }
    }
  }

  lemma JoinedFront(pieces: seq<seq<byte>>)
    requires pieces != []
    ensures Joined(pieces) == pieces[0] + Joined(pieces[1..])
  {
  }

  // Cutting an input that is used up without being refused makes no difference exactly when
  // every head that is cut is completed by the next bytes.
  lemma {:induction false} CompletedExactly(c: Core, pieces: seq<seq<byte>>)
    requires Sound(c) && c.initial.missing == 0 && !c.sliceMode && pieces != []
    requires !Loop(c, Joined(pieces)).code.Rejects() && Loop(c, Joined(pieces)).rest == []
    ensures if Completed([], pieces) then Feed(c, pieces) == Loop(c, Joined(pieces)) else Feed(c, pieces).code.Rejects()
  {
    hide Frames, Pending, MissingAfter, Joined, Feed, Loop, Completed;
    assert [] + Joined(pieces) == Joined(pieces);
    assert Loop(c, []) == Outcome(Continue, c, []) by {
      LoopStep(c, []);
      EmptyStep(c);
    }
    SuppliedByBytes(c, [], c, pieces);
    PiecesOfAccepted(c, pieces);
  }

  // ------------------------------------------------------------ heads in value trees

  function HeadSize(v: DbufValSeq): nat
    requires Sized(v)
  {
    MeasureExtraValue(ParseValue(v))
  }

  /** The bytes of a head that lie behind position `p` of the encoding, when it is inside one. */
  function MissingAt(vs: seq<DbufValSeq>, p: nat): nat
    requires AllSized(vs)
    decreases vs
  {
    if vs == [] then 0
    else
      var v := vs[0];
      var h := HeadSize(v);
      if p >= |Enc(v)| then MissingAt(vs[1..], p - |Enc(v)|)
      else if p < h then if p == 0 then 0 else h - p
      else if v.Nested? then MissingAt(v.sequence, p - h)
      else 0
  }

  // The heads behind the head of an item.
  lemma {:induction false} MissingBehindHead(v: DbufValSeq, more: seq<byte>)
    requires WellFormed(v) && Sized(v)
    ensures var leaf := v.Plain? && HasSlice(v.val.typ);
            MissingAfter(HeadBytes(v.val.typ, ParseValue(v)) + more)
            == MissingAfter(if leaf then more[Min(ParseValue(v), |more|)..] else more)
  {
    hide MissingAfter, ReadHead, HeadBytes, EncAll, Payload;
    ItemParts(v);
    var head := HeadBytes(v.val.typ, ParseValue(v));
    ReadHeadBytes(ZERO_INITIAL, v.val.typ, ParseValue(v), more);
    MissingStep(head + more);
  }

  // Behind an encoded item the heads stand as if there were no item.
  lemma {:induction false} MissingBehind(v: DbufValSeq, rest: seq<byte>)
    requires WellFormed(v) && Sized(v)
    ensures MissingAfter(Enc(v) + rest) == MissingAfter(rest)
    decreases v, 0
  {
    hide MissingAfter, ReadHead, HeadBytes, EncAll;
    ItemParts(v);
    MissingBehindHead(v, Payload(v) + rest);
    Reassociate(HeadBytes(v.val.typ, ParseValue(v)), Payload(v), rest);
    if v.Nested? {
      MissingBehindAll(v.sequence, rest);
    } else if HasSlice(v.val.typ) {
      assert (Payload(v) + rest)[|Payload(v)|..] == rest;
    } else {
      assert Payload(v) + rest == rest;
    }
  }

  lemma {:induction false} MissingBehindAll(vs: seq<DbufValSeq>, rest: seq<byte>)
    requires Writable(vs)
    ensures MissingAfter(EncAll(vs) + rest) == MissingAfter(rest)
    decreases vs
  {
    hide MissingAfter, Enc, EncAll;
    if vs == [] {
      EncAllNothing();
      assert [] + rest == rest;
    } else {
      EncAllFront(vs);
      Reassociate(Enc(vs[0]), EncAll(vs[1..]), rest);
      MissingBehind(vs[0], EncAll(vs[1..]) + rest);
      MissingBehindAll(vs[1..], rest);
    }
  }

  // Part of a head misses the rest of it.
  lemma PartOfHead(typ: kind, v: u32, p: nat)
    requires 0 < p < |HeadBytes(typ, v)|
    ensures MissingAfter(HeadBytes(typ, v)[..p]) == |HeadBytes(typ, v)| - p
  {
    hide MissingAfter, Absorb, TypeOf, LowBits, Digits, Top;
    var head := HeadBytes(typ, v);
    var n := MeasureExtraValue(v) - 1;
    TopIsSmall(v);
    var low := 24 + Marker(n) + Top(v, n);
    InitialByteParts(typ, low);
    assert head[..p][0] == InitialByte(typ, low) && head[..p][1..] == head[1..p];
    HeadParts(ZERO_INITIAL, head[..p]);
    assert ExtraLength(low - 24) == n;
    AbsorbCount(LongHead(typ, low - 24), head[1..p]);
    MissingStep(head[..p]);
  }

  // The cut positions of an encoding, by its bytes and by its values.
  lemma {:induction false} MissingIs(vs: seq<DbufValSeq>, p: nat)
    requires Writable(vs) && p <= |EncAll(vs)|
    ensures MissingAfter(EncAll(vs)[..p]) == MissingAt(vs, p)
    decreases vs
  {
    hide MissingAfter, Enc, EncAll, HeadBytes, ParseValue, Payload;
    NothingMissing();
    if vs == [] {
      EncAllNothing();
    } else {
      var v := vs[0];
      var h := HeadSize(v);
      EncAllFront(vs);
      if p >= |Enc(v)| {
        var q := p - |Enc(v)|;
        assert EncAll(vs)[..p] == Enc(v) + EncAll(vs[1..])[..q];
        MissingBehind(v, EncAll(vs[1..])[..q]);
        MissingIs(vs[1..], q);
      } else {
        assert EncAll(vs)[..p] == Enc(v)[..p];
        EncIsHead(v, p);
        if 0 < p < h {
          PartOfHead(v.val.typ, ParseValue(v), p);
        } else if h <= p {
          ItemParts(v);
          MissingBehindHead(v, Payload(v)[..p - h]);
          if v.Nested? {
            MissingIs(v.sequence, p - h);
          } else {
            var more := Payload(v)[..p - h];
            assert HasSlice(v.val.typ) && more[Min(ParseValue(v), |more|)..] == [];
          }
        }
      }
    }
  }

  lemma EncIsHead(v: DbufValSeq, p: nat)
    requires WellFormed(v) && Sized(v) && p < |Enc(v)|
    ensures |HeadBytes(v.val.typ, ParseValue(v))| == HeadSize(v) && |Enc(v)| == HeadSize(v) + |Payload(v)|
    ensures p < HeadSize(v) ==> Enc(v)[..p] == HeadBytes(v.val.typ, ParseValue(v))[..p]
    ensures p >= HeadSize(v) ==>
              Enc(v)[..p] == HeadBytes(v.val.typ, ParseValue(v)) + Payload(v)[..p - HeadSize(v)]
  {
    hide HeadBytes, ParseValue, Payload;
  }

  // ------------------------------------------------------------------ cut positions

  /** The position of the cut in front of piece `k`. */
  function Cut(pieces: seq<seq<byte>>, k: nat): nat
    requires k <= |pieces|
  {
    |Joined(pieces[..k])|
  }

  /** Positions `p` and `q` of the encoding lie inside the same head. */
  predicate InOneHead(vs: seq<DbufValSeq>, p: nat, q: nat)
    requires AllSized(vs)
  {
    p < q < p + MissingAt(vs, p)
  }

  /** No head of the encoding is cut at two positions, when `offset` bytes of it are cut off already. */
  predicate CutOnce(vs: seq<DbufValSeq>, offset: nat, pieces: seq<seq<byte>>)
    requires AllSized(vs)
  {
    forall j, k :: 0 <= j < k <= |pieces| ==> !InOneHead(vs, offset + Cut(pieces, j), offset + Cut(pieces, k))
  }

  lemma CutsShift(pieces: seq<seq<byte>>, k: nat)
    requires 0 < k <= |pieces|
    ensures Cut(pieces, 0) == 0 && Cut(pieces, k) == |pieces[0]| + Cut(pieces[1..], k - 1)
  {
    assert pieces[..k][1..] == pieces[1..][..k - 1];
    JoinedFront(pieces[..k]);
  }

  /** No other cut lies in the head that the first one is in. */
  predicate FirstApart(vs: seq<DbufValSeq>, offset: nat, pieces: seq<seq<byte>>)
    requires AllSized(vs)
  {
    forall k :: 0 < k <= |pieces| ==> !InOneHead(vs, offset, offset + Cut(pieces, k))
  }

  // The cuts of a row of pieces: its first one against the others, and the others.
  lemma CutsApart(vs: seq<DbufValSeq>, offset: nat, pieces: seq<seq<byte>>)
    requires AllSized(vs) && pieces != []
    ensures CutOnce(vs, offset, pieces)
       <==> FirstApart(vs, offset, pieces) && CutOnce(vs, offset + |pieces[0]|, pieces[1..])
  {
    hide MissingAt, Joined, Cut, InOneHead;
    var a, us := pieces[0], pieces[1..];
    forall k | 0 < k <= |pieces| ensures Cut(pieces, k) == |a| + Cut(us, k - 1) {
      CutsShift(pieces, k);
    }
    CutsStart(pieces);
    if CutOnce(vs, offset, pieces) {
      forall j, k | 0 <= j < k <= |us| ensures !InOneHead(vs, offset + |a| + Cut(us, j), offset + |a| + Cut(us, k)) {
        assert !InOneHead(vs, offset + Cut(pieces, j + 1), offset + Cut(pieces, k + 1));
      }
      forall k | 0 < k <= |pieces| ensures !InOneHead(vs, offset, offset + Cut(pieces, k)) {
        assert !InOneHead(vs, offset + Cut(pieces, 0), offset + Cut(pieces, k));
      }
    } else {
      var j, k :| 0 <= j < k <= |pieces| && InOneHead(vs, offset + Cut(pieces, j), offset + Cut(pieces, k));
      assert j > 0 ==> InOneHead(vs, offset + |a| + Cut(us, j - 1), offset + |a| + Cut(us, k - 1));
    }
  }

  // The first cut shares its head with no other one if the first piece, unless empty, completes it.
  lemma FirstCut(vs: seq<DbufValSeq>, offset: nat, pieces: seq<seq<byte>>)
    requires AllSized(vs) && pieces != []
    ensures pieces[0] != [] ==> (FirstApart(vs, offset, pieces) <==> |pieces[0]| >= MissingAt(vs, offset))
    ensures pieces[0] == [] ==> (FirstApart(vs, offset, pieces) <==> FirstApart(vs, offset, pieces[1..]))
  {
    hide MissingAt, Joined, Cut;
    var a, us := pieces[0], pieces[1..];
    forall k | 0 < k <= |pieces| ensures Cut(pieces, k) == |a| + Cut(us, k - 1) {
      CutsShift(pieces, k);
    }
    CutsStart(us);
    if a == [] && FirstApart(vs, offset, pieces) {
      forall k | 0 < k <= |us| ensures !InOneHead(vs, offset, offset + Cut(us, k)) {
        assert !InOneHead(vs, offset, offset + Cut(pieces, k + 1));
      }
    }
    if a != [] && FirstApart(vs, offset, pieces) {
      assert !InOneHead(vs, offset, offset + Cut(pieces, 1));
    }
  }

  lemma {:induction false} CutOnceStep(vs: seq<DbufValSeq>, offset: nat, pieces: seq<seq<byte>>)
    requires AllSized(vs) && pieces != []
    ensures CutOnce(vs, offset, pieces)
       <==> Supplies(pieces[0], MissingAt(vs, offset)) && CutOnce(vs, offset + |pieces[0]|, pieces[1..])
  {
    hide MissingAt, Cut, InOneHead, CutOnce, FirstApart;
    CutsApart(vs, offset, pieces);
    FirstCut(vs, offset, pieces);
    if pieces[0] == [] && CutOnce(vs, offset, pieces[1..]) {
      CutOnceIsApart(vs, offset, pieces[1..]);
    }
  }

  lemma CutOnceIsApart(vs: seq<DbufValSeq>, offset: nat, pieces: seq<seq<byte>>)
    requires AllSized(vs) && CutOnce(vs, offset, pieces)
    ensures FirstApart(vs, offset, pieces)
  {
    hide MissingAt, Joined, Cut, InOneHead;
    CutsStart(pieces);
    forall k | 0 < k <= |pieces| ensures !InOneHead(vs, offset, offset + Cut(pieces, k)) {
      assert !InOneHead(vs, offset + Cut(pieces, 0), offset + Cut(pieces, k));
    }
  }

  lemma CutsStart(pieces: seq<seq<byte>>)
    ensures Cut(pieces, 0) == 0
  {
  }

  lemma {:induction false} CompletedIs(vs: seq<DbufValSeq>, read: seq<byte>, pieces: seq<seq<byte>>)
    requires Writable(vs) && read + Joined(pieces) == EncAll(vs)
    ensures Completed(read, pieces) <==> CutOnce(vs, |read|, pieces)
    decreases |pieces|
  {
    hide MissingAfter, MissingAt, Joined, EncAll, InOneHead, Supplies;
    if pieces != [] {
      JoinedFront(pieces);
      Reassociate(read, pieces[0], Joined(pieces[1..]));
      assert EncAll(vs)[..|read|] == read;
      MissingIs(vs, |read|);
      CutOnceStep(vs, |read|, pieces);
      CompletedIs(vs, read + pieces[0], pieces[1..]);
    }
  }

  lemma NotInLeaf(c: Core)
    requires Sound(c) && c.stack == []
    ensures !c.sliceMode
  {
  }

  // In which pieces the encoding of a valid list may reach the validator: it accepts them as it
  // accepts the whole exactly when no head is cut at two positions; else it refuses them.
  lemma CutsOfEncoding(c: Core, vs: seq<DbufValSeq>, pieces: seq<seq<byte>>)
    requires Writable(vs) && vs != [] && ValidRun(Outermost, false, vs)
    requires AtStart(c, |EncAll(vs)|) && pieces != [] && Joined(pieces) == EncAll(vs)
    ensures if CutOnce(vs, 0, pieces) then Feed(c, pieces) == Loop(c, EncAll(vs)) && Feed(c, pieces).code == Done
            else Feed(c, pieces).code.Rejects()
  {
    hide Loop, EncAll, ValidRun, Feed, Completed, CutOnce, Joined, Frames, Pending;
    assert EncAll(vs) + [] == EncAll(vs);
    EncoderMeetsValidator(c, vs, []);
    NotInLeaf(c);
    CompletedExactly(c, pieces);
    assert [] + Joined(pieces) == EncAll(vs);
    CompletedIs(vs, [], pieces);
  }
}
