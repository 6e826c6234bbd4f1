/** One value of a stream as it is framed: its head, then its payload, each checked on arrival. */
module Framing {
  import opened Basics
  import opened Values
  import opened Heads
  import opened Validator
  import opened Grammar
  import opened Acceptance
  import opened LengthMode
  import opened Chunking

  predicate IsFresh(c: Core) {
    c == Fresh(c.useLength, c.length, c.useEndMarker)
  }

  /** The payload of an item passes: the content of a container may be empty, or be a run that is
      cut short in a last scalar. */
  predicate Admitted(i: InitialDecode, payload: seq<byte>) {
    if i.TypeHasNesting() then payload == [] || !Run(PlaceOf(i), false, payload, false).Bad?
    else i.typ == TYPE_TEXT ==> TextBytes(payload)
  }

  /** The item ends with an end marker, or is one. */
  predicate Marks(i: InitialDecode, payload: seq<byte>) {
    if i.TypeHasNesting() then MarkerOf(Run(PlaceOf(i), false, payload, false)) else i.IsEndMarker()
  }

  /** The item of `total` bytes is the last one. */
  predicate Completes(c: Core, i: InitialDecode, payload: seq<byte>, total: nat) {
    && (i.TypeHasNesting() ==> payload != [] && Run(PlaceOf(i), false, payload, false).Good?)
    && ((c.useEndMarker && Marks(i, payload)) || (c.useLength && c.length == total))
  }

  datatype Framed = Framed(val: DbufVal, done: bool, rest: seq<byte>)

  /** The failure of a read of `n` bytes from a stream with too few. */
  function Shortage(bs: seq<byte>): Error {
    if bs == [] then EndOfFile else UnexpectedEndOfFile
  }

  /** What is wrong with the head at the front of a stream. */
  function HeadError(c: Core, bs: seq<byte>): (e: Option<Error>)
    ensures e.None? ==> bs != [] && ReadHead(ZERO_INITIAL, bs).0.missing == 0
  {
    if bs == [] then Some(EndOfFile)
    else if c.useLength && c.length == 0 then Some(DataValueNotAccepted)
    else
      var (i, rest) := ReadHead(ZERO_INITIAL, bs);
      if i.missing > 0 then Some(Shortage(bs[1..]))
      else if CheckHead(ZERO_INITIAL, bs) != Done || (c.useLength && c.length < |bs| - |rest|)
         then Some(DataValueNotAccepted)
      else None
  }

  /** What reading and checking the next value of a stream comes to. */
  function CheckedItem(c: Core, maxSize: int, bs: seq<byte>): (r: Result<Framed>)
    ensures r.Ok? ==> |r.value.rest| < |bs|
  {
    if HeadError(c, bs).Some? then Err(HeadError(c, bs).value)
    else
      var (i, rest) := ReadHead(ZERO_INITIAL, bs);
      var h := |bs| - |rest|;
      if i.TypeHasSlice() then CheckedSlice(c, maxSize, i, h, rest)
      else if h > maxSize then Err(DataValueNotAccepted)
      else Ok(Framed(i.GetDbufVal(None), Completes(c, i, [], h), rest))
  }

  /** The payload of an item whose head took `h` bytes. */
  function CheckedSlice(c: Core, maxSize: int, i: InitialDecode, h: nat, rest: seq<byte>): (r: Result<Framed>)
    ensures r.Ok? ==> |r.value.rest| <= |rest|
  {
    if h + i.value > maxSize then Err(DataValueNotAccepted)
    else if |rest| < i.value then Err(Shortage(rest))
    else if c.useLength && c.length == h && i.value == 0 && !i.TypeHasNesting() then Err(Panic)
    else
      var payload := rest[..i.value];
      if !Admitted(i, payload) || (c.useLength && c.length < h + i.value) then Err(DataValueNotAccepted)
      else Ok(Framed(i.GetDbufVal(Some(payload)), Completes(c, i, payload, h + i.value), rest[i.value..]))
  }

  // ---------------------------------------------------------------- after the head

  /** The validator, having read a canonical head `i` of `h` bytes and nothing else. */
  function AfterHead(c: Core, i: InitialDecode, h: nat): Outcome
    requires h < TWO_TO_THE_32
  {
    var f := c.(initial := i, length := Minus(c.length, h));
    if !i.TypeHasSlice() then Outcome(if Finished(f) then Done else Continue, f, [])
    else if i.value == 0 && !i.TypeHasNesting() then
      if c.useLength && f.length == 0 then Outcome(Done, f.(sliceMode := true), []) else Outcome(Continue, f, [])
    else
      Outcome(Continue, f.(stack := [i], mapCounts := if IsMap(i) then [0] else [],
                   sliceMode := !i.TypeHasNesting()), [])
  }

  // The step on a head outside every container.
  lemma {:induction false} HeadAlone(c: Core, i: InitialDecode, h: nat)
    requires IsFresh(c) && 0 < h <= 5 && i.missing == 0
    ensures var f := c.(initial := i, length := Minus(c.length, h)); var step := Consume(c.(initial := i), h, []);
            if c.useLength && c.length < h then step.Stop? && step.out.code.Rejects()
            else if i.TypeHasSlice() then
              step == Go(f.(stack := [i], mapCounts := if IsMap(i) then [0] else [],
                           sliceMode := !i.TypeHasNesting()), [])
            else step == if Finished(f) then Stop(Outcome(Done, f, [])) else Go(f, [])
  {
    hide Shrink;
    ShrinkOpen([], [], h, i.TypeHasSlice());
    assert Lower([], h) == [];
  }

  // A head that is complete and canonical is accounted for as a whole; any other is refused.
  lemma {:induction false} HeadAccounted(c: Core, hb: seq<byte>)
    requires IsFresh(c) && hb != [] && ReadHead(ZERO_INITIAL, hb).0.missing == 0 && ReadHead(ZERO_INITIAL, hb).1 == []
    ensures var i := ReadHead(ZERO_INITIAL, hb).0;
            && |hb| <= 5 && Pending(i)
            && if CheckHead(ZERO_INITIAL, hb) != Done then HeadStep(c, hb).Stop? && HeadStep(c, hb).out.code.Rejects()
               else HeadStep(c, hb) == Consume(c.(initial := i), |hb|, [])
  {
    hide ReadHead, CheckHead, Pending, Consume, Frames, HeadStep, DecodeHead;
    FreshSound(c);
    HeadContinues(ZERO_INITIAL, hb);
    HeadStepFresh(c, hb);
    FreshPending(hb);
  }

  lemma {:induction false} FreshPending(hb: seq<byte>)
    requires hb != []
    ensures Pending(ReadHead(ZERO_INITIAL, hb).0) && |hb| - |ReadHead(ZERO_INITIAL, hb).1| <= 5
  {
    hide Absorb;
    DecodeHeadPending(ZERO_INITIAL, hb);
  }

  // A complete head alone.
  lemma {:induction false} WholeHead(c: Core, hb: seq<byte>)
    requires IsFresh(c) && hb != [] && ReadHead(ZERO_INITIAL, hb).0.missing == 0 && ReadHead(ZERO_INITIAL, hb).1 == []
    ensures var i := ReadHead(ZERO_INITIAL, hb).0;
            && |hb| <= 5 && Pending(i)
            && if CheckHead(ZERO_INITIAL, hb) != Done || (c.useLength && c.length < |hb|)
               then Loop(c, hb).code.Rejects()
               else Loop(c, hb) == AfterHead(c, i, |hb|)
  {
    hide ReadHead, CheckHead, Pending, Loop, Consume, HeadStep, Frames;
    var i := ReadHead(ZERO_INITIAL, hb).0;
    HeadAccounted(c, hb);
    FreshSound(c);
    LoopStep(c, hb);
    HeadAlone(c, i, |hb|);
    var step := HeadStep(c, hb);
    if step.Go? {
      LoopStep(step.core, []);
      if i.TypeHasSlice() && !i.TypeHasNesting() {
        EmptyRead(step.core, i);
      }
    }
  }

  // Nothing of a leaf is there yet.
  lemma {:induction false} EmptyRead(d: Core, i: InitialDecode)
    requires Sound(d) && d.sliceMode && d.stack == [i] && d.initial == i && i.missing == 0
    ensures var f := d.(stack := [], mapCounts := []);
            Loop(d, []) == if i.value > 0 then Outcome(Continue, d, [])
                           else if d.useLength && d.length == 0 then Outcome(Done, f, [])
                           else Outcome(Continue, f.(sliceMode := false), [])
  {
    hide Pending, Loop, Shrink;
    LoopStep(d, []);
    MapsUnfold(d.stack);
    assert Front(d.stack) == [];
    if i.value > 0 {
      ShrinkOpen(d.stack, d.mapCounts, 0, false);
      assert Lower(d.stack, 0) == d.stack;
    } else {
      ShrinkClose(d.stack, d.mapCounts, 0, false);
      ShrinkOpen([], [], 0, false);
      assert Lower([], 0) == [];
      if SliceStep(d, []).Go? {
        LoopStep(SliceStep(d, []).core, []);
      }
    }
  }

  // A complete head, read as its first byte and its missing bytes.
  lemma {:induction false} HeadInTwo(bs: seq<byte>)
    requires bs != []
    ensures var first := ReadHead(ZERO_INITIAL, [bs[0]]).0; var (i, rest) := ReadHead(ZERO_INITIAL, bs);
            && ReadHead(ZERO_INITIAL, [bs[0]]).1 == []
            && (i.missing > 0 <==> |bs| < 1 + first.missing)
            && (i.missing == 0 ==>
                  var n := 1 + first.missing;
                  && rest == bs[n..] && ReadHead(ZERO_INITIAL, bs[..n]) == (i, [])
                  && CheckHead(ZERO_INITIAL, bs) == CheckHead(ZERO_INITIAL, bs[..n])
                  && (first.missing > 0 ==> Absorb(first, bs[1..n]) == (i, [])))
  {
    hide Absorb, Measured;
    var b, low := bs[0], LowBits(bs[0]);
    assert [b][1..] == [];
    if low >= 24 {
      HeadPieces(LongHead(TypeOf(b), low - 24), bs[1..]);
      var n := 1 + ExtraLength(low - 24);
      AbsorbNone(LongHead(TypeOf(b), low - 24));
      if n <= |bs| {
        assert bs[..n][1..] == bs[1..][..n - 1] == bs[1..n];
        assert bs[1..][n - 1..] == bs[n..];
      }
    } else {
      assert bs[..1] == [b];
    }
  }

  lemma {:induction false} HeadPieces(i: InitialDecode, bs: seq<byte>)
    ensures Absorb(i, bs).0.missing > 0 <==> |bs| < i.missing
    ensures i.missing <= |bs| ==>
      Absorb(i, bs).1 == bs[i.missing..] && Absorb(i, bs[..i.missing]) == (Absorb(i, bs).0, [])
  {
    hide Absorb;
    if i.missing <= |bs| {
      var a, b := bs[..i.missing], bs[i.missing..];
      assert bs == a + b;
      AbsorbFill(i, a);
      AbsorbSplit(i, a, b);
      assert [] + b == b;
    } else {
      AbsorbCount(i, bs);
    }
  }

  lemma {:induction false} AbsorbFill(i: InitialDecode, a: seq<byte>)
    requires |a| == i.missing
    ensures Absorb(i, a).0.missing == 0 && Absorb(i, a).1 == []
  {
    AbsorbEnough(i, a);
  }

  lemma {:induction false} FreshSound(c: Core)
    requires IsFresh(c)
    ensures Sound(c)
  {
  }

  // A head of one byte is canonical.
  lemma {:induction false} ByteCanonical(b: byte)
    requires ReadHead(ZERO_INITIAL, [b]).0.missing == 0
    ensures CheckHead(ZERO_INITIAL, [b]) == Done
  {
    assert [b][1..] == [];
  }

  lemma {:induction false} AfterHeadAccepts(c: Core, i: InitialDecode, h: nat)
    requires h <= 5
    ensures !AfterHead(c, i, h).code.Rejects()
  {
  }

  // The state after the head tells whether the payload can still be read.
  lemma {:induction false} AfterHeadShape(c: Core, i: InitialDecode, h: nat)
    requires IsFresh(c) && 0 < h <= 5 && i.missing == 0 && (c.useLength ==> h <= c.length)
    ensures var o := AfterHead(c, i, h);
            && !o.code.Rejects() && o.rest == []
            && (!i.TypeHasSlice() ==> (o.code == Done <==> Completes(c, i, [], h)))
            && (o.core.sliceMode && o.core.stack == [] <==>
                  c.useLength && c.length == h && i.value == 0 && i.TypeHasSlice() && !i.TypeHasNesting())
            && (i.TypeHasSlice() ==> (o.code == Continue <==> !(o.core.sliceMode && o.core.stack == [])))
  {
  }

  // ------------------------------------------------------------- after the payload

  // A validator that does not refuse has not read more than the declared total.
  lemma {:induction false} ReadsWithin(c: Core, input: seq<byte>)
    requires Sound(c) && c.useLength
    ensures !Loop(c, input).code.Rejects() ==> |Loop(c, input).rest| <= |input| <= c.length + |Loop(c, input).rest|
    decreases |input|, if c.sliceMode then 1 else 0
  {
    hide Loop, NextStep, Frames, Pending;
    StepKeeps(c, input);
    LoopStep(c, input);
    StepWithin(c, input);
    var step := NextStep(c, input);
    if step.Go? {
      ReadsWithin(step.core, step.rest);
    }
  }

  lemma {:induction false} StepWithin(c: Core, input: seq<byte>)
    requires Sound(c) && c.useLength
    ensures match NextStep(c, input)
            case Stop(out) => !out.code.Rejects() ==> |out.rest| <= |input| <= c.length + |out.rest|
            case Go(d, rest) =>
              d.useLength && |rest| <= |input| && |input| - |rest| <= c.length == d.length + (|input| - |rest|)
  {
    hide Shrink, Maps, Pending, CheckHead, DecodeHead;
    if !c.sliceMode && input != [] {
      DecodeHeadPending(c.initial, input);
    }
  }

  // The payload of a leaf.
  lemma {:induction false} LeafPayload(d: Core, i: InitialDecode, payload: seq<byte>)
    requires Sound(d) && d.sliceMode && d.stack == [i] && d.initial == i && i.missing == 0
    requires |payload| == i.value > 0
    ensures var code := Loop(d, payload).code;
            if !Admitted(i, payload) || (d.useLength && d.length < i.value) then code.Rejects()
            else code == if d.useLength && d.length == i.value then Done else Continue
  {
    hide Pending, Loop, Shrink, TextBytes;
    LoopStep(d, payload);
    MapsUnfold(d.stack);
    assert Front(d.stack) == [];
    ShrinkClose(d.stack, d.mapCounts, i.value, false);
    ShrinkOpen([], [], i.value, false);
    assert payload[..i.value] == payload && payload[i.value..] == [];
    assert Lower([], i.value) == [];
    if SliceStep(d, payload).Go? {
      LoopStep(SliceStep(d, payload).core, []);
    }
  }

  // The payload of a container.
  lemma {:induction false} ContainerPayload(d: Core, i: InitialDecode, payload: seq<byte>)
    requires Sound(d) && !d.sliceMode && d.stack == [i] && d.initial == i && i.missing == 0
    requires d.mapCounts == if IsMap(i) then [0] else []
    requires |payload| == i.value > 0
    ensures var code, v := Loop(d, payload).code, Run(PlaceOf(i), false, payload, false);
            if v.Bad? || (d.useLength && d.length < i.value) then code.Rejects()
            else code == if v.Good? && ((d.useEndMarker && MarkerOf(v)) || (d.useLength && d.length == i.value))
                         then Done else Continue
  {
    hide Pending, Loop, Run, Frames, Verdict0;
    assert payload + [] == payload;
    if d.useLength && d.length < i.value {
      LoopKeeps(d, payload);
      ReadsWithin(d, payload);
      NeverDone(d, payload);
    } else {
      assert Expected(d, payload) by { FramesFall(d); }
      FrameVerdict(d, payload);
      var e := MachineFollowsGrammar(d, payload, []);
      var v := Verdict0(d, payload);
      if v.Good? && !Ends(e, v) {
        LoopStep(e, []);
      }
    }
  }

  lemma {:induction false} FramesFall(d: Core)
    requires Sound(d)
    ensures Falling(d.stack) && |d.mapCounts| == Maps(d.stack)
  {
  }

  // What the validator answers on the payload, once the head is read.
  lemma {:induction false} PayloadCode(c: Core, i: InitialDecode, h: nat, payload: seq<byte>)
    requires IsFresh(c) && h <= 5 && i.missing == 0 && Pending(i) && i.TypeHasSlice() && |payload| == i.value
    requires (c.useLength ==> h <= c.length) && AfterHead(c, i, h).code == Continue
    ensures Sound(AfterHead(c, i, h).core)
    ensures var code := Loop(AfterHead(c, i, h).core, payload).code;
            if !Admitted(i, payload) || (c.useLength && c.length < h + i.value) then code.Rejects()
            else code == if Completes(c, i, payload, h + i.value) then Done else Continue
  {
    hide Pending, Loop, Run, TextBytes;
    var d := AfterHead(c, i, h).core;
    MapsUnfold([i]);
    assert Front([i]) == [];
    if payload == [] {
      LoopStep(d, []);
      TextNothing();
    } else if i.TypeHasNesting() {
      ContainerPayload(d, i, payload);
    } else {
      LeafPayload(d, i, payload);
    }
  }
}
