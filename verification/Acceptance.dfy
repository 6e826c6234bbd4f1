/** The validator machine accepts exactly the grammar. */
module Acceptance {
  import opened Basics
  import opened Values
  import opened Heads
  import opened Validator
  import opened Grammar

  // --------------------------------------------------------- the rest of the input

  predicate OddAt(stack: seq<InitialDecode>, counts: seq<u32>)
    requires stack != [] && |counts| == Maps(stack)
  {
    IsMap(Last(stack)) && Last(counts) % 2 == 1
  }

  function PlaceOf(i: InitialDecode): Place {
    Inside(IsMap(i))
  }

  /** Judges the bytes that the open frames still expect: the top frame's, then what is left
      of the frame below once the top one has closed, and so on. */
  function Residual(stack: seq<InitialDecode>, counts: seq<u32>, bs: seq<byte>, marker: bool): Verdict
    requires Falling(stack) && |counts| == Maps(stack)
    requires |bs| == if stack == [] then 0 else stack[0].value
    decreases |stack|
  {
    if stack == [] then Good(marker)
    else
      var r := Last(stack).value;
      var inner := Run(PlaceOf(Last(stack)), OddAt(stack, counts), bs[..r], marker);
      LowerMaps(Front(stack), r);
      Then(inner, bs[r..] == [], Residual(Lower(Front(stack), r), Closed(stack, counts), bs[r..], MarkerOf(inner)))
  }

  lemma LowerLower(stack: seq<InitialDecode>, a: nat, b: nat)
    requires AtLeast(stack, a + b)
    ensures AtLeast(stack, a) && AtLeast(Lower(stack, a), b)
    ensures Lower(Lower(stack, a), b) == Lower(stack, a + b)
  {
  }

  // A used up frame closes, unless it is a map with an odd number of items.
  lemma ResidualZero(stack: seq<InitialDecode>, counts: seq<u32>, bs: seq<byte>, marker: bool)
    requires Falling(stack) && |counts| == Maps(stack) && stack != [] && Last(stack).value == 0
    requires |bs| == stack[0].value
    ensures Residual(stack, counts, bs, marker)
         == if OddAt(stack, counts) then Bad else Residual(Front(stack), Closed(stack, counts), bs, marker)
  {
    hide Maps, Closed;
    assert Lower(Front(stack), 0) == Front(stack);
    assert bs[..0] == [] && bs[0..] == bs;
  }

  // Closing used up frames does not change the verdict on the rest, and is refused exactly
  // when a map closes with an odd number of items.
  lemma {:induction false} ShrinkResidual(stack: seq<InitialDecode>, counts: seq<u32>, n: nat,
                                       bs: seq<byte>, marker: bool)
    requires Falling(stack) && AtLeast(stack, n) && |counts| == Maps(stack)
    requires |bs| == if stack == [] then 0 else stack[0].value - n
    ensures Maps(Lower(stack, n)) == Maps(stack)
    ensures var r := Shrink(stack, counts, n, false);
            && (r.code == Done ==>
                  && Falling(r.stack) && |r.counts| == Maps(r.stack)
                  && |bs| == (if r.stack == [] then 0 else r.stack[0].value)
                  && Residual(Lower(stack, n), counts, bs, marker) == Residual(r.stack, r.counts, bs, marker))
            && (r.code != Done ==> r.code.Rejects() && Residual(Lower(stack, n), counts, bs, marker) == Bad)
    decreases |stack|
  {
    hide Residual, Shrink, Closed, Maps;
    LowerMaps(stack, n);
    if stack == [] {
      ShrinkOpen(stack, counts, n, false);
      assert Lower(stack, n) == stack;
    } else if Last(stack).value > n {
      ShrinkOpen(stack, counts, n, false);
    } else {
      var lower := Lower(stack, n);
      ShrinkClose(stack, counts, n, false);
      ResidualZero(lower, counts, bs, marker);
      MapsUnfold(stack);
      assert Front(lower) == Lower(Front(stack), n);
      assert OddAt(lower, counts) == OddAt(stack, counts);
      if !OddAt(stack, counts) {
        ClosedLower(stack, counts, n);
        ShrinkResidual(Front(stack), Closed(stack, counts), n, bs, marker);
      }
    }
  }

  lemma ClosedLower(stack: seq<InitialDecode>, counts: seq<u32>, n: nat)
    requires stack != [] && AtLeast(stack, n) && |counts| == Maps(stack) && Maps(Lower(stack, n)) == Maps(stack)
    ensures Closed(Lower(stack, n), counts) == Closed(stack, counts)
  {
    if |stack| > 1 {
      assert Last(Front(Lower(stack, n))).typ == Last(Front(stack)).typ;
    }
  }

  // -------------------------------------------------- one item of the innermost run

  lemma ResidualTop(stack: seq<InitialDecode>, counts: seq<u32>, bs: seq<byte>, marker: bool)
    requires Falling(stack) && stack != [] && |counts| == Maps(stack) && |bs| == stack[0].value
    ensures var r := Last(stack).value;
            var inner := Run(PlaceOf(Last(stack)), OddAt(stack, counts), bs[..r], marker);
            && Maps(Lower(Front(stack), r)) == Maps(Front(stack))
            && Residual(stack, counts, bs, marker)
            == Then(inner, bs[r..] == [],
                     Residual(Lower(Front(stack), r), Closed(stack, counts), bs[r..], MarkerOf(inner)))
  {
    LowerMaps(Front(stack), Last(stack).value);
  }

  /** The counts of the outer maps agree, and so do those of the top frame unless it is a map. */
  predicate SameOuter(stack: seq<InitialDecode>, counts: seq<u32>, counts2: seq<u32>)
    requires stack != [] && |counts| == Maps(stack)
  {
    |counts2| == |counts| && if IsMap(Last(stack)) then Front(counts2) == Front(counts) else counts2 == counts
  }

  // The rest of the input once `k` bytes of the innermost run are done.
  lemma ResidualLower(stack: seq<InitialDecode>, counts: seq<u32>, p: seq<byte>, k: nat,
                      counts2: seq<u32>, marker: bool)
    requires Falling(stack) && stack != [] && |counts| == Maps(stack) && |p| == stack[0].value
    requires k <= Last(stack).value && SameOuter(stack, counts, counts2) && AtLeast(stack, k)
    ensures Maps(Lower(Front(stack), Last(stack).value)) == Maps(Front(stack)) && Maps(Lower(stack, k)) == Maps(stack)
    ensures var r := Last(stack).value;
            var inner := Run(PlaceOf(Last(stack)), OddAt(Lower(stack, k), counts2), p[k..r], marker);
            Residual(Lower(stack, k), counts2, p[k..], marker)
            == Then(inner, p[r..] == [],
                     Residual(Lower(Front(stack), r), Closed(stack, counts), p[r..], MarkerOf(inner)))
  {
    hide Run, Maps, Residual, Closed;
    var lower, r := Lower(stack, k), Last(stack).value;
    LowerMaps(stack, k);
    LowerMaps(Front(stack), r);
    ResidualTop(lower, counts2, p[k..], marker);
    assert p[k..][..r - k] == p[k..r] && p[k..][r - k..] == p[r..];
    assert Front(lower) == Lower(Front(stack), k);
    LowerLower(Front(stack), k, r - k);
    ClosedLower(stack, counts, k);
    ClosedAgree(lower, counts2, counts);
  }

  lemma ClosedAgree(stack: seq<InitialDecode>, a: seq<u32>, b: seq<u32>)
    requires stack != [] && |a| == |b| == Maps(stack)
    requires if IsMap(Last(stack)) then Front(a) == Front(b) else a == b
    ensures Closed(stack, a) == Closed(stack, b)
  {
  }

  // The verdict after the first item of the innermost run has been read.
  lemma {:induction false} ResidualItem(stack: seq<InitialDecode>, counts: seq<u32>, p: seq<byte>, marker: bool,
                     k: nat, counts2: seq<u32>, marker2: bool)
    requires Falling(stack) && stack != [] && |counts| == Maps(stack) && |p| == stack[0].value
    requires k <= Last(stack).value && SameOuter(stack, counts, counts2) && AtLeast(stack, k)
    requires Maps(Lower(stack, k)) == Maps(stack)
    requires Run(PlaceOf(Last(stack)), OddAt(stack, counts), p[..Last(stack).value], marker)
          == Run(PlaceOf(Last(stack)), OddAt(Lower(stack, k), counts2), p[k..Last(stack).value], marker2)
    ensures Residual(stack, counts, p, marker) == Residual(Lower(stack, k), counts2, p[k..], marker2)
  {
    hide Run, Maps, Residual, Closed;
    ResidualTop(stack, counts, p, marker);
    ResidualLower(stack, counts, p, k, counts2, marker2);
  }

  /** The counts once an item of the innermost run is complete. */
  function BumpIf(stack: seq<InitialDecode>, counts: seq<u32>): (r: seq<u32>)
    requires stack != [] && |counts| == Maps(stack)
    ensures SameOuter(stack, counts, r)
  {
    MapsUnfold(stack);
    if IsMap(Last(stack)) then Bump(counts) else counts
  }

  lemma BumpParity(stack: seq<InitialDecode>, counts: seq<u32>, k: nat)
    requires stack != [] && |counts| == Maps(stack) && AtLeast(stack, k) && Maps(Lower(stack, k)) == Maps(stack)
    ensures OddAt(Lower(stack, k), BumpIf(stack, counts)) == Flip(PlaceOf(Last(stack)), OddAt(stack, counts))
  {
    hide Maps;
    MapsUnfold(stack);
  }

  // The innermost run goes on behind a nested run of its own.
  lemma {:induction false} ResidualThen(stack: seq<InitialDecode>, counts: seq<u32>, p: seq<byte>, marker: bool,
                                        k: nat, inner: Verdict)
    requires Falling(stack) && stack != [] && |counts| == Maps(stack) && |p| == stack[0].value
    requires k <= Last(stack).value && AtLeast(stack, k) && Maps(Lower(stack, k)) == Maps(stack)
    requires Run(PlaceOf(Last(stack)), OddAt(stack, counts), p[..Last(stack).value], marker)
          == Then(inner, p[k..Last(stack).value] == [],
                  Run(PlaceOf(Last(stack)), Flip(PlaceOf(Last(stack)), OddAt(stack, counts)),
                      p[k..Last(stack).value], MarkerOf(inner)))
    ensures Residual(stack, counts, p, marker)
         == Then(inner, p[k..] == [], Residual(Lower(stack, k), BumpIf(stack, counts), p[k..], MarkerOf(inner)))
  {
    hide Run, Maps, Residual, Closed, Flip, BumpIf, OddAt;
    var r := Last(stack).value;
    BumpParity(stack, counts, k);
    ResidualTop(stack, counts, p, marker);
    ResidualLower(stack, counts, p, k, BumpIf(stack, counts), MarkerOf(inner));
    assert p[k..] == p[k..r] + p[r..];
    RunEmpty(PlaceOf(Last(stack)), Flip(PlaceOf(Last(stack)), OddAt(stack, counts)), MarkerOf(inner));
  }

  lemma ResidualNothing(counts: seq<u32>, marker: bool)
    requires counts == []
    ensures Residual([], counts, [], marker) == Good(marker)
  {
  }

  lemma RunEmpty(place: Place, odd: bool, marker: bool)
    ensures Run(place, odd, [], marker) == if odd then Bad else Good(marker)
  {
  }

  // A container in the innermost run becomes a frame of its own.
  lemma {:induction false} ResidualContainer(stack: seq<InitialDecode>, counts: seq<u32>, p: seq<byte>, marker: bool,
                          h: nat, i: InitialDecode)
    requires Falling(stack) && stack != [] && |counts| == Maps(stack) && |p| == stack[0].value
    requires i.TypeHasNesting() && 0 < i.value && h + i.value <= Last(stack).value
    requires AtLeast(stack, h + i.value) && AtLeast(stack, h)
    requires var r, k := Last(stack).value, h + i.value;
             var inner := Run(PlaceOf(i), false, p[h..k], false);
             Run(PlaceOf(Last(stack)), OddAt(stack, counts), p[..r], marker)
             == Then(inner, p[k..r] == [],
                     Run(PlaceOf(Last(stack)), Flip(PlaceOf(Last(stack)), OddAt(stack, counts)),
                          p[k..r], MarkerOf(inner)))
    ensures var pushed := Lower(stack, h) + [i]; var counts2 := if IsMap(i) then counts + [0] else counts;
            && Falling(pushed) && |counts2| == Maps(pushed)
            && Residual(stack, counts, p, marker) == Residual(pushed, counts2, p[h..], false)
  {
    hide Run, Maps, Residual;
    var v := i.value;
    var lower, pushed := Lower(stack, h), Lower(stack, h) + [i];
    var counts2 := if IsMap(i) then counts + [0] else counts;
    var inner := Run(PlaceOf(i), false, p[h..h + v], false);
    LowerMaps(stack, h);
    LowerMaps(stack, h + v);
    MapsUnfold(pushed);
    assert Front(pushed) == lower && Last(lower).typ == Last(stack).typ;
    LowerLower(stack, h, v);
    ResidualThen(stack, counts, p, marker, h + v, inner);
    ResidualTop(pushed, counts2, p[h..], false);
    assert p[h..][..v] == p[h..h + v] && p[h..][v..] == p[h + v..];
    assert Closed(pushed, counts2) == BumpIf(stack, counts) by {
      assert IsMap(i) ==> Front(counts2) == counts;
    }
  }

  // ------------------------------------------------------------ one step, one item

  /** The machine is at the start of an item in an open container. */
  predicate Ready(c: Core) {
    && Sound(c) && !c.sliceMode && c.initial.missing == 0
    && c.stack != [] && Last(c.stack).value > 0
  }

  /** The declared total covers `n` more bytes. */
  predicate Room(c: Core, n: nat) {
    c.useLength ==> n <= c.length
  }

  /** The bytes that the open frames still expect. */
  predicate Expected(c: Core, p: seq<byte>) {
    Ready(c) && |p| == c.stack[0].value && Room(c, |p|)
  }

  function Verdict0(c: Core, p: seq<byte>): Verdict
    requires Expected(c, p)
  {
    Residual(c.stack, c.mapCounts, p, false)
  }

  /** The input ends in the middle of a head, with every container closed around it. */
  predicate CutOff(out: Outcome) {
    && out.code == Continue && out.core.stack == [] && out.core.mapCounts == []
    && out.core.initial.missing > 0 && out.rest == []
  }

  predicate HeadFits(c: Core, input: seq<byte>)
    requires Ready(c) && input != []
  {
    CheckHead(c.initial, input) == Done && |input| - |ReadHead(c.initial, input).1| <= Last(c.stack).value
  }

  lemma RunBroken(place: Place, odd: bool, bs: seq<byte>, marker: bool)
    requires bs != [] && CheckHead(ZERO_INITIAL, bs) != Done
    ensures Run(place, odd, bs, marker)
         == if CheckHead(ZERO_INITIAL, bs) == Continue && place.Inside?
               && !ReadHead(ZERO_INITIAL, bs).0.TypeHasSlice() && !odd then Cut else Bad
  {
  }

  lemma LastIsLeast(stack: seq<InitialDecode>)
    requires Falling(stack) && stack != []
    ensures AtLeast(stack, Last(stack).value) && Last(stack).value <= stack[0].value
  {
  }

  // What the machine does with a head that fills its container and is cut off there.
  lemma CutMachine(c: Core, p: seq<byte>)
    requires Expected(c, p) && Last(c.stack).value == |p| && CheckHead(c.initial, p) == Continue
    requires AtLeast(c.stack, |p|)
    ensures HeadStep(c, p).Stop?
    ensures var i, out := ReadHead(c.initial, p).0, HeadStep(c, p).out;
            var r := Shrink(c.stack, c.mapCounts, |p|, i.TypeHasSlice());
            && i.missing > 0
            && (r.code != Done ==> out.code == r.code)
            && (r.code == Done ==>
                  out == Outcome(Continue, c.(initial := i, length := Minus(c.length, |p|),
                                              stack := r.stack, mapCounts := r.counts), []))
  {
    hide Consume, Frames, ReadHead, CheckHead, Pending, HeadStep, DecodeHead;
    HeadContinues(c.initial, p);
    HeadStepFresh(c, p);
    CutConsume(c.(initial := ReadHead(c.initial, p).0), |p|);
  }

  lemma CutConsume(c: Core, n: nat)
    requires Frames(c.stack, c.mapCounts, false) && c.stack != [] && Last(c.stack).value == n && n <= 5
    requires c.initial.missing > 0 && Room(c, n) && AtLeast(c.stack, n)
    ensures var r := Shrink(c.stack, c.mapCounts, n, c.initial.TypeHasSlice());
            Consume(c, n, []) == Stop(Outcome(if r.code == Done then Continue else r.code,
                                              c.(length := Minus(c.length, n), stack := r.stack, mapCounts := r.counts),
                                               []))
  {
    hide Shrink, Maps, Falling, Open;
  }

  // The verdict on it.
  lemma {:induction false} CutVerdict(c: Core, p: seq<byte>)
    requires Expected(c, p) && Last(c.stack).value == |p| && CheckHead(c.initial, p) == Continue
    requires AtLeast(c.stack, |p|)
    ensures var r := Shrink(c.stack, c.mapCounts, |p|, false);
            if ReadHead(c.initial, p).0.TypeHasSlice() then Verdict0(c, p) == Bad
            else if r.code == Done then Verdict0(c, p) == Cut && r.stack == [] && r.counts == []
            else Verdict0(c, p) == Bad && r.code.Rejects()
  {
    hide Residual, Run, Shrink, Maps, Measured, Absorb, Pending, Falling, Open, Closed;
    HeadContinues(c.initial, p);
    assert p[..|p|] == p && p[|p|..] == [];
    HeadWithin(c.initial, p, |p|);
    ResidualTop(c.stack, c.mapCounts, p, false);
    RunBroken(PlaceOf(Last(c.stack)), OddAt(c.stack, c.mapCounts), p, false);
    if !ReadHead(c.initial, p).0.TypeHasSlice() {
      var r := Shrink(c.stack, c.mapCounts, |p|, false);
      ShrinkKeeps(c.stack, c.mapCounts, |p|, false);
      ShrinkResidual(c.stack, c.mapCounts, |p|, [], false);
      ResidualLower(c.stack, c.mapCounts, p, |p|, c.mapCounts, false);
      RunEmpty(PlaceOf(Last(c.stack)), OddAt(c.stack, c.mapCounts), false);
      assert p[|p|..|p|] == [];
      assert r.code == Done ==> r.stack == [];
      MapsUnfold(r.stack);
      if r.code == Done {
        ResidualNothing(r.counts, false);
      }
    }
  }

  // A head that fills its container and is cut off there closes the container.
  lemma CutStep(c: Core, p: seq<byte>)
    requires Expected(c, p) && Last(c.stack).value == |p| && CheckHead(c.initial, p) == Continue
    ensures HeadStep(c, p).Stop?
    ensures var out, v := HeadStep(c, p).out, Verdict0(c, p);
            && (if v == Cut then CutOff(out) else v == Bad && out.code.Rejects())
  {
    hide HeadStep, Verdict0, Shrink, Maps, Pending, Falling, Open, ReadHead, CheckHead;
    LastIsLeast(c.stack);
    CutMachine(c, p);
    CutVerdict(c, p);
    if ReadHead(c.initial, p).0.TypeHasSlice() {
      ShrinkClose(c.stack, c.mapCounts, |p|, true);
    }
  }

  // A head that is broken or runs over its container is refused.
  lemma BrokenMachine(c: Core, input: seq<byte>)
    requires Ready(c) && input != [] && !HeadFits(c, input)
    ensures HeadStep(c, input).Stop?
    ensures CheckHead(c.initial, input) != Continue ||
               |input| - |ReadHead(c.initial, input).1| > Last(c.stack).value ==>
              HeadStep(c, input).out.code.Rejects()
  {
    hide Shrink, Maps, ReadHead, CheckHead, Pending, Open, Counted, HeadStep, DecodeHead;
    HeadContinues(c.initial, input);
    HeadStepFresh(c, input);
  }

  // A run that starts with such a head is bad, or cut short at its very end.
  lemma BrokenVerdict(c: Core, p: seq<byte>)
    requires Expected(c, p) && CheckHead(ZERO_INITIAL, p[..Last(c.stack).value]) != Done
    ensures var v := Verdict0(c, p);
            v == Bad || (v == Cut && CheckHead(ZERO_INITIAL, p[..Last(c.stack).value]) == Continue
                        && |p| == Last(c.stack).value)
  {
    hide Residual, Run, Maps, ReadHead, CheckHead, Pending, Open, Closed;
    var r := Last(c.stack).value;
    LastIsLeast(c.stack);
    ResidualTop(c.stack, c.mapCounts, p, false);
    RunBroken(PlaceOf(Last(c.stack)), OddAt(c.stack, c.mapCounts), p[..r], false);
    assert r < |p| ==> p[r..] != [];
  }

  // A head that is broken, or does not fit its container, is refused; except that the end of
  // the input may fall in a head that has just filled its container.
  lemma {:induction false} BrokenStep(c: Core, p: seq<byte>, tail: seq<byte>)
    requires Expected(c, p) && !HeadFits(c, p + tail)
    ensures HeadStep(c, p + tail).Stop?
    ensures var out, v := HeadStep(c, p + tail).out, Verdict0(c, p);
            && !v.Good?
            && (v == Bad || tail != [] ==> out.code.Rejects())
            && (v == Cut && tail == [] ==> CutOff(out))
  {
    hide HeadStep, Verdict0, ReadHead, CheckHead, Maps, Pending, Falling, Open;
    var input, r := p + tail, Last(c.stack).value;
    LastIsLeast(c.stack);
    assert input != [] && input[..r] == p[..r];
    var n := |input| - |ReadHead(c.initial, input).1|;
    HeadContinues(c.initial, input);
    HeadWithin(c.initial, input, r);
    BrokenMachine(c, input);
    BrokenVerdict(c, p);
    if n <= r && CheckHead(c.initial, input) == Continue {
      assert tail == [] && r == |p|;
      assert p + tail == p;
      CutStep(c, p);
    }
  }

  // The first item of a run that starts with a whole canonical head.
  lemma {:induction false} RunFirst(place: Place, odd: bool, bs: seq<byte>, marker: bool, i: InitialDecode, h: nat)
    requires bs != [] && CheckHead(ZERO_INITIAL, bs) == Done && h <= |bs|
    requires SameHead(i, ReadHead(ZERO_INITIAL, bs).0) && ReadHead(ZERO_INITIAL, bs).1 == bs[h..]
    ensures !i.TypeHasSlice() ==> Run(place, odd, bs, marker) == Run(place, Flip(place, odd), bs[h..], i.IsEndMarker())
    ensures i.TypeHasSlice() && |bs| < h + i.value ==> Run(place, odd, bs, marker) == Bad
    ensures i.TypeHasNesting() && i.value == 0 ==> Run(place, odd, bs, marker) == Bad
    ensures i.TypeHasNesting() && 0 < i.value <= |bs| - h ==>
              var inner := Run(PlaceOf(i), false, bs[h..h + i.value], false);
              Run(place, odd, bs, marker)
              == Then(inner, bs[h + i.value..] == [], Run(place, Flip(place, odd), bs[h + i.value..], MarkerOf(inner)))
    ensures i.TypeHasSlice() && !i.TypeHasNesting() && i.value <= |bs| - h ==>
              Run(place, odd, bs, marker)
              == if (place.Inside? && bs[h..] == []) || (i.typ == TYPE_TEXT && !TextBytes(bs[h..h + i.value])) then Bad
                 else Run(place, Flip(place, odd), bs[h + i.value..], false)
  {
    hide CheckHead, ReadHead, Then, TextBytes;
    if i.TypeHasSlice() && h + i.value <= |bs| {
      assert bs[h..][..i.value] == bs[h..h + i.value] && bs[h..][i.value..] == bs[h + i.value..];
    }
  }

  // A run that is not empty sets its own end marker.
  lemma ResidualMarker(stack: seq<InitialDecode>, counts: seq<u32>, bs: seq<byte>, m1: bool, m2: bool)
    requires Falling(stack) && |counts| == Maps(stack) && stack != [] && Last(stack).value > 0 && |bs| == stack[0].value
    ensures Residual(stack, counts, bs, m1) == Residual(stack, counts, bs, m2)
  {
    hide Maps, Residual, Closed, ReadHead, CheckHead;
    ResidualTop(stack, counts, bs, m1);
    ResidualTop(stack, counts, bs, m2);
    assert bs[..Last(stack).value] != [];
  }

  /** The machine has closed every frame, after `n` bytes of a run with verdict `v`. */
  predicate Closes(c: Core, n: nat, d: Core, v: Verdict)
    requires n < TWO_TO_THE_32
  {
    && v.Good?
    && d.stack == [] && d.mapCounts == [] && d.length == Minus(c.length, n)
    && d.useLength == c.useLength && d.useEndMarker == c.useEndMarker
    && d.initial.missing == 0 && Pending(d.initial)
  }

  /** The machine stops here: the end marker has come, or the declared total is reached. */
  predicate Ends(d: Core, v: Verdict) {
    (d.useEndMarker && MarkerOf(v)) || (d.useLength && d.length == 0)
  }

  /** How the machine moves on from the start of an item, `p` being what its open frames expect. */
  predicate Advanced(c: Core, p: seq<byte>, tail: seq<byte>, step: Step)
    requires Expected(c, p)
  {
    var v := Verdict0(c, p);
    match step
    case Stop(out) =>
      if v.Good? then out.code == Done && out.rest == tail && Closes(c, |p|, out.core, v) && Ends(out.core, v)
      else if v == Cut && tail == [] then CutOff(out)
      else out.code.Rejects()
    case Go(d, rest) =>
      && !d.sliceMode
      && if d.stack == [] then rest == tail && Closes(c, |p|, d, v) && !Ends(d, v)
         else
           var k := |p + tail| - |rest|;
           && 0 < k <= |p| && rest == p[k..] + tail
           && d.useLength == c.useLength && d.useEndMarker == c.useEndMarker && d.length == Minus(c.length, k)
           && Expected(d, p[k..]) && Verdict0(d, p[k..]) == v
  }

  /** The core after `k` bytes and one item, with head `i` read last. */
  function AfterItem(c: Core, k: nat, i: InitialDecode, r: Shrunk): Core
    requires k < TWO_TO_THE_32
  {
    c.(length := Minus(c.length, k), initial := i, stack := r.stack, mapCounts := r.counts, sliceMode := false)
  }

  // Once an item is complete, the verdict passes to the frames that stay open.
  lemma {:induction false} ItemDone(c: Core, p: seq<byte>, k: nat, i: InitialDecode, marker: bool)
    requires Expected(c, p) && k <= Last(c.stack).value && AtLeast(c.stack, k) && 0 < k
    requires i.missing == 0 && Pending(i)
    requires Maps(Lower(c.stack, k)) == Maps(c.stack)
    requires Verdict0(c, p) == Residual(Lower(c.stack, k), BumpIf(c.stack, c.mapCounts), p[k..], marker)
    ensures var v, r := Verdict0(c, p), Shrink(c.stack, BumpIf(c.stack, c.mapCounts), k, false);
            && (r.code != Done ==> v == Bad && r.code.Rejects())
            && (r.code == Done && r.stack == [] ==>
                  v == Good(marker) && k == |p| && Closes(c, |p|, AfterItem(c, k, i, r), v))
            && (r.code == Done && r.stack != [] ==>
                  k < |p| && Expected(AfterItem(c, k, i, r), p[k..]) && Verdict0(AfterItem(c, k, i, r), p[k..]) == v)
  {
    hide Residual, Shrink, Maps, Pending, Falling, Open, Closed, BumpIf;
    var counts2 := BumpIf(c.stack, c.mapCounts);
    ShrinkResidual(c.stack, counts2, k, p[k..], marker);
    ShrinkFrames(c.stack, counts2, false, k, false);
    var r := Shrink(c.stack, counts2, k, false);
    if r.code == Done {
      MapsUnfold(r.stack);
      if r.stack == [] {
        ResidualNothing(r.counts, marker);
      } else {
        LastIsLeast(r.stack);
        ResidualMarker(r.stack, r.counts, p[k..], false, marker);
      }
    }
  }

  function ItemStep(f: Core, code: Code, rest: seq<byte>): Step {
    if code != Done then Stop(Outcome(code, f, rest))
    else if Finished(f) then Stop(Outcome(Done, f, rest)) else Go(f, rest)
  }

  // What the machine does with a scalar.
  lemma ScalarMachine(c: Core, input: seq<byte>)
    requires Ready(c) && input != [] && HeadFits(c, input) && !ReadHead(c.initial, input).0.TypeHasSlice()
    requires Room(c, |input| - |ReadHead(c.initial, input).1|)
    ensures var (i, rest) := ReadHead(c.initial, input); var h := |input| - |rest|;
            && AtLeast(c.stack, h) && 0 < h && i.missing == 0 && Pending(i)
            && HeadStep(c, input) == ItemStep(AfterItem(c, h, i,
                                                        Shrink(c.stack, BumpIf(c.stack, c.mapCounts), h, false)),
                                              Shrink(c.stack, BumpIf(c.stack, c.mapCounts), h, false).code, rest)
  {
    hide Shrink, Maps, Measured, Absorb, Pending, Falling, Open, Bump;
    HeadContinues(c.initial, input);
    DecodeHeadPending(c.initial, input);
    LastIsLeast(c.stack);
  }

  // The verdict on a run that starts with a scalar.
  lemma ScalarVerdict(c: Core, p: seq<byte>, tail: seq<byte>)
    requires Expected(c, p) && HeadFits(c, p + tail) && !ReadHead(c.initial, p + tail).0.TypeHasSlice()
    ensures var (i, rest) := ReadHead(c.initial, p + tail); var h := |p + tail| - |rest|;
            && AtLeast(c.stack, h) && Maps(Lower(c.stack, h)) == Maps(c.stack)
            && Verdict0(c, p) == Residual(Lower(c.stack, h), BumpIf(c.stack, c.mapCounts), p[h..], i.IsEndMarker())
  {
    hide Residual, Run, Maps, CheckHead, ReadHead, Pending, Falling, Open, Closed, BumpIf, Flip, OddAt;
    var input, r := p + tail, Last(c.stack).value;
    var (i, rest) := ReadHead(c.initial, input);
    var h := |input| - |rest|;
    LastIsLeast(c.stack);
    HeadWithin(c.initial, input, r);
    assert input[..r] == p[..r] && p[..r][h..] == p[h..r];
    RunFirst(PlaceOf(Last(c.stack)), OddAt(c.stack, c.mapCounts), p[..r], false, i, h);
    LowerMaps(c.stack, h);
    BumpParity(c.stack, c.mapCounts, h);
    ResidualItem(c.stack, c.mapCounts, p, false, h, BumpIf(c.stack, c.mapCounts), i.IsEndMarker());
  }

  // A scalar.
  lemma ScalarStep(c: Core, p: seq<byte>, tail: seq<byte>)
    requires Expected(c, p) && HeadFits(c, p + tail) && !ReadHead(c.initial, p + tail).0.TypeHasSlice()
    ensures Advanced(c, p, tail, HeadStep(c, p + tail))
  {
    hide HeadStep, Residual, Shrink, Maps, CheckHead, ReadHead, Pending, Falling, Open, Closed, BumpIf, Minus;
    var input := p + tail;
    var (i, rest) := ReadHead(c.initial, input);
    var h := |input| - |rest|;
    LastIsLeast(c.stack);
    ScalarMachine(c, input);
    ScalarVerdict(c, p, tail);
    ItemDone(c, p, h, i, i.IsEndMarker());
    assert rest == p[h..] + tail;
  }

  // Two stretches close the same frames as one.
  lemma {:induction false} ShrinkTwice(stack: seq<InitialDecode>, counts: seq<u32>, a: nat, b: nat, refuse: bool)
    requires Falling(stack) && AtLeast(stack, a + b) && AtLeast(stack, a) && |counts| == Maps(stack)
    ensures Falling(Lower(stack, a)) && AtLeast(Lower(stack, a), b) && Maps(Lower(stack, a)) == Maps(stack)
    ensures var x, y := Shrink(Lower(stack, a), counts, b, refuse), Shrink(stack, counts, a + b, refuse);
            x.code == y.code && (x.code == Done ==> x == y)
    decreases |stack|
  {
    hide Shrink, Maps, Closed;
    var lower := Lower(stack, a);
    LowerMaps(stack, a);
    LowerLower(stack, a, b);
    if stack == [] || Last(stack).value > a + b {
      ShrinkOpen(stack, counts, a + b, refuse);
      ShrinkOpen(lower, counts, b, refuse);
    } else {
      ShrinkClose(stack, counts, a + b, refuse);
      ShrinkClose(lower, counts, b, refuse);
      assert Front(lower) == Lower(Front(stack), a);
      ClosedLower(stack, counts, a);
      if !refuse && !OddAt(stack, counts) {
        ShrinkTwice(Front(stack), Closed(stack, counts), a, b, refuse);
      }
    }
  }

  /** The core after a head `i` of `h` bytes that opens a frame. */
  function Pushed(c: Core, h: nat, i: InitialDecode): Core
    requires AtLeast(c.stack, h) && h < TWO_TO_THE_32
  {
    c.(length := Minus(c.length, h), initial := i, stack := Lower(c.stack, h) + [i],
       mapCounts := if IsMap(i) then c.mapCounts + [0] else c.mapCounts, sliceMode := !i.TypeHasNesting())
  }

  // What the machine does with a head that announces bytes.
  lemma SliceMachine(c: Core, input: seq<byte>)
    requires Ready(c) && input != [] && HeadFits(c, input) && ReadHead(c.initial, input).0.TypeHasSlice()
    requires Room(c, |input| - |ReadHead(c.initial, input).1|)
    ensures var (i, rest) := ReadHead(c.initial, input); var h, r := |input| - |rest|, Last(c.stack).value;
            && AtLeast(c.stack, h) && 0 < h && i.missing == 0 && Pending(i)
            && (if r == h || r - h < i.value then HeadStep(c, input).Stop? && HeadStep(c, input).out.code.Rejects()
                else HeadStep(c, input) == Go(Pushed(c, h, i), rest))
  {
    hide Consume, Maps, Measured, Absorb, Pending, Falling, Open;
    HeadContinues(c.initial, input);
    DecodeHeadPending(c.initial, input);
    LastIsLeast(c.stack);
    var (i, rest) := ReadHead(c.initial, input);
    ConsumeSlice(c, |input| - |rest|, i, rest);
  }

  lemma ConsumeSlice(c: Core, h: nat, i: InitialDecode, rest: seq<byte>)
    requires Ready(c) && AtLeast(c.stack, h) && 0 < h <= 5 && i.missing == 0 && i.TypeHasSlice() && Room(c, h)
    ensures var r, step := Last(c.stack).value, Consume(c.(initial := i), h, rest);
            if r == h || r - h < i.value then step.Stop? && step.out.code.Rejects()
            else step == Go(Pushed(c, h, i), rest)
  {
    hide Shrink, Maps, Pending, Falling, Open;
    if Last(c.stack).value == h {
      ShrinkClose(c.stack, c.mapCounts, h, true);
    } else {
      ShrinkOpen(c.stack, c.mapCounts, h, true);
      assert Last(Lower(c.stack, h)).value == Last(c.stack).value - h;
    }
  }

  // What the machine does with the bytes of a leaf in a container, when they are all there.
  lemma LeafMachine(c: Core, h: nat, i: InitialDecode, rest: seq<byte>)
    requires Ready(c) && AtLeast(c.stack, h) && 0 < h && h + i.value <= Last(c.stack).value && i.value <= |rest|
    requires i.missing == 0 && Pending(i) && i.TypeHasSlice() && !i.TypeHasNesting() && Room(c, h + i.value)
    requires Sound(Pushed(c, h, i))
    ensures var r := Shrink(c.stack, BumpIf(c.stack, c.mapCounts), h + i.value, false);
            var f := AfterItem(c, h + i.value, i, r);
            var step := SliceStep(Pushed(c, h, i), rest);
            && (i.typ == TYPE_TEXT && !TextBytes(rest[..i.value]) ==> step.Stop? && step.out.code.Rejects())
            && (!(i.typ == TYPE_TEXT && !TextBytes(rest[..i.value])) ==>
                  && (r.code != Done ==> step.Stop? && step.out.code == r.code)
                  && (r.code == Done ==>
                        if r.stack == [] && c.useLength && f.length == 0
                        then step == Stop(Outcome(Done, f.(sliceMode := true), rest[i.value..]))
                        else step == Go(f, rest[i.value..])))
  {
    hide Shrink, Maps, Pending, Falling, Open, Bump, TextBytes, Closed;
    var d, v := Pushed(c, h, i), i.value;
    assert Front(d.stack) == Lower(c.stack, h) && Last(d.stack) == i;
    LowerMaps(c.stack, h);
    MapsUnfold(d.stack);
    PushedCounts(c, h, i);
    LastIsLeast(c.stack);
    LastIsLeast(d.stack);
    ShrinkClose(d.stack, d.mapCounts, v, false);
    ShrinkTwice(c.stack, BumpIf(c.stack, c.mapCounts), h, v, false);
  }

  lemma PushedCounts(c: Core, h: nat, i: InitialDecode)
    requires Ready(c) && AtLeast(c.stack, h) && h < TWO_TO_THE_32
    ensures |Pushed(c, h, i).mapCounts| == Maps(Pushed(c, h, i).stack)
    ensures Closed(Pushed(c, h, i).stack, Pushed(c, h, i).mapCounts) == BumpIf(c.stack, c.mapCounts)
  {
    hide Maps, Pending;
    var d := Pushed(c, h, i);
    assert Front(d.stack) == Lower(c.stack, h);
    LowerMaps(c.stack, h);
    MapsUnfold(d.stack);
    if IsMap(i) { assert Front(d.mapCounts) == c.mapCounts; }
  }

  // The verdict on a run that starts with a head that announces bytes.
  lemma {:induction false} SliceVerdict(c: Core, p: seq<byte>, tail: seq<byte>)
    requires Expected(c, p) && HeadFits(c, p + tail) && ReadHead(c.initial, p + tail).0.TypeHasSlice()
    ensures var (i, rest) := ReadHead(c.initial, p + tail); var h, r := |p + tail| - |rest|, Last(c.stack).value;
            var k := h + i.value;
            && AtLeast(c.stack, h)
            && (r == h || r < k || (i.TypeHasNesting() && i.value == 0) ==> Verdict0(c, p) == Bad)
            && (h < r && k <= r && i.TypeHasNesting() && 0 < i.value ==>
                  && Falling(Pushed(c, h, i).stack) && |Pushed(c, h, i).mapCounts| == Maps(Pushed(c, h, i).stack)
                  && Verdict0(c, p) == Residual(Pushed(c, h, i).stack, Pushed(c, h, i).mapCounts, p[h..], false))
            && (h < r && k <= r && !i.TypeHasNesting() ==>
                  && AtLeast(c.stack, k) && Maps(Lower(c.stack, k)) == Maps(c.stack)
                  && Verdict0(c, p) == if i.typ == TYPE_TEXT && !TextBytes(rest[..i.value]) then Bad
                                       else Residual(Lower(c.stack, k), BumpIf(c.stack, c.mapCounts), p[k..], false))
  {
    hide Residual, Run, Maps, CheckHead, ReadHead, Pending, Falling, Open, Closed, BumpIf, TextBytes, Flip, OddAt;
    var input, r := p + tail, Last(c.stack).value;
    var (i, rest) := ReadHead(c.initial, input);
    var h := |input| - |rest|;
    var k := h + i.value;
    LastIsLeast(c.stack);
    HeadWithin(c.initial, input, r);
    assert input[..r] == p[..r] && rest == p[h..] + tail;
    RunFirst(PlaceOf(Last(c.stack)), OddAt(c.stack, c.mapCounts), p[..r], false, i, h);
    ResidualTop(c.stack, c.mapCounts, p, false);
    if h < r && k <= r {
      assert p[..r][h..k] == p[h..k] == rest[..i.value] && p[..r][k..] == p[k..r];
      if i.TypeHasNesting() {
        if 0 < i.value {
          ResidualContainer(c.stack, c.mapCounts, p, false, h, i);
        }
      } else {
        LowerMaps(c.stack, k);
        BumpParity(c.stack, c.mapCounts, k);
        if i.typ != TYPE_TEXT || TextBytes(rest[..i.value]) {
          ResidualItem(c.stack, c.mapCounts, p, false, k, BumpIf(c.stack, c.mapCounts), false);
        }
      }
    }
  }

  // Where the machine stands once the bytes of a leaf have been read.
  lemma {:induction false} LeafDone(c: Core, p: seq<byte>, tail: seq<byte>, k: nat, i: InitialDecode, step: Step)
    requires Expected(c, p) && 0 < k <= Last(c.stack).value && AtLeast(c.stack, k) && i.missing == 0 && Pending(i)
    requires Maps(Lower(c.stack, k)) == Maps(c.stack)
    requires Verdict0(c, p) == Residual(Lower(c.stack, k), BumpIf(c.stack, c.mapCounts), p[k..], false)
    requires var r := Shrink(c.stack, BumpIf(c.stack, c.mapCounts), k, false); var f := AfterItem(c, k, i, r);
             && (r.code != Done ==> step.Stop? && step.out.code == r.code)
             && (r.code == Done ==>
                   step == if r.stack == [] && c.useLength && f.length == 0
                           then Stop(Outcome(Done, f.(sliceMode := true), p[k..] + tail)) else Go(f, p[k..] + tail))
    ensures Advanced(c, p, tail, step)
  {
    hide Residual, Verdict0, Shrink, Maps, Pending, Falling, Open, Closed, BumpIf, Lower, Minus;
    LastIsLeast(c.stack);
    ItemDone(c, p, k, i, false);
  }

  // A leaf whose bytes are all there.
  lemma LeafAdvances(c: Core, p: seq<byte>, tail: seq<byte>, i: InitialDecode, rest: seq<byte>, h: nat)
    requires Expected(c, p) && HeadFits(c, p + tail) && (i, rest) == ReadHead(c.initial, p + tail)
    requires i.TypeHasSlice() && !i.TypeHasNesting() && i.missing == 0 && Pending(i)
    requires h == |p + tail| - |rest| && 0 < h < Last(c.stack).value && h + i.value <= Last(c.stack).value
    requires AtLeast(c.stack, h) && Sound(Pushed(c, h, i))
    ensures Advanced(c, p, tail, SliceStep(Pushed(c, h, i), rest))
  {
    hide SliceStep, Residual, Verdict0, Shrink, Maps, CheckHead, ReadHead, Pending, Falling, Open, Closed;
    hide BumpIf, TextBytes, Lower, Pushed, Minus, AfterItem;
    var k := h + i.value;
    LastIsLeast(c.stack);
    assert rest == p[h..] + tail && rest[i.value..] == p[k..] + tail;
    SliceVerdict(c, p, tail);
    PushedSlices(c, h, i);
    LeafMachine(c, h, i, rest);
    if i.typ != TYPE_TEXT || TextBytes(rest[..i.value]) {
      LeafDone(c, p, tail, k, i, SliceStep(Pushed(c, h, i), rest));
    }
  }

  lemma PushedSlices(c: Core, h: nat, i: InitialDecode)
    requires AtLeast(c.stack, h) && h < TWO_TO_THE_32
    ensures Pushed(c, h, i).sliceMode == !i.TypeHasNesting()
  {
  }

  // A leaf, read in two steps.
  lemma {:induction false} LeafStep(c: Core, p: seq<byte>, tail: seq<byte>) returns (step: Step)
    requires Expected(c, p) && HeadFits(c, p + tail)
    requires ReadHead(c.initial, p + tail).0.TypeHasSlice() && !ReadHead(c.initial, p + tail).0.TypeHasNesting()
    ensures step.Go? ==> Sound(step.core)
    ensures Loop(c, p + tail) == if step.Stop? then step.out else Loop(step.core, step.rest)
    ensures Advanced(c, p, tail, step)
  {
    hide HeadStep, SliceStep, Residual, Maps, CheckHead, ReadHead, Pending, Falling, Open;
    hide BumpIf, TextBytes, Minus, Lower, Pushed;
    var input, r := p + tail, Last(c.stack).value;
    var (i, rest) := ReadHead(c.initial, input);
    var h := |input| - |rest|;
    LastIsLeast(c.stack);
    StepKeeps(c, input);
    SliceMachine(c, input);
    step := HeadStep(c, input);
    if h < r && h + i.value <= r {
      PushedSlices(c, h, i);
      StepKeeps(step.core, rest);
      LeafAdvances(c, p, tail, i, rest, h);
      step := SliceStep(step.core, rest);
    } else {
      SliceVerdict(c, p, tail);
    }
  }

  // A container.
  lemma {:induction false} ContainerStep(c: Core, p: seq<byte>, tail: seq<byte>) returns (step: Step)
    requires Expected(c, p) && HeadFits(c, p + tail) && ReadHead(c.initial, p + tail).0.TypeHasNesting()
    ensures step.Go? ==> Sound(step.core)
    ensures Loop(c, p + tail) == if step.Stop? then step.out else Loop(step.core, step.rest)
    ensures Advanced(c, p, tail, step)
  {
    hide HeadStep, Residual, Shrink, Maps, CheckHead, ReadHead, Pending, Falling, Open, Closed, BumpIf;
    var input, r := p + tail, Last(c.stack).value;
    var (i, rest) := ReadHead(c.initial, input);
    var h := |input| - |rest|;
    LastIsLeast(c.stack);
    StepKeeps(c, input);
    SliceMachine(c, input);
    SliceVerdict(c, p, tail);
    step := HeadStep(c, input);
    if h < r && h + i.value <= r {
      assert rest == p[h..] + tail;
      if i.value == 0 {
        EmptyFrame(step.core, rest);
        step := HeadStep(step.core, rest);
      }
    }
  }

  // Nothing fits an empty container.
  lemma EmptyFrame(c: Core, input: seq<byte>)
    requires Sound(c) && !c.sliceMode && c.stack != [] && Last(c.stack).value == 0
             && c.initial.missing == 0 && input != []
    ensures HeadStep(c, input).Stop? && HeadStep(c, input).out.code.Rejects()
  {
    hide Shrink, Maps, Measured, Absorb, Falling, Open;
    DecodeHeadPending(c.initial, input);
  }

  // ------------------------------------------------------------------ all the items

  /** One item further: a step that the machine takes from the start of an item. */
  lemma {:induction false} OneItem(c: Core, p: seq<byte>, tail: seq<byte>) returns (step: Step)
    requires Expected(c, p)
    ensures step.Go? ==> Sound(step.core)
    ensures Loop(c, p + tail) == if step.Stop? then step.out else Loop(step.core, step.rest)
    ensures Advanced(c, p, tail, step)
  {
    hide HeadStep, Residual, Maps, CheckHead, ReadHead, Pending, Falling, Open, Minus;
    var input := p + tail;
    LastIsLeast(c.stack);
    StepKeeps(c, input);
    step := HeadStep(c, input);
    if !HeadFits(c, input) {
      BrokenStep(c, p, tail);
    } else if !ReadHead(c.initial, input).0.TypeHasSlice() {
      ScalarStep(c, p, tail);
    } else if ReadHead(c.initial, input).0.TypeHasNesting() {
      step := ContainerStep(c, p, tail);
    } else {
      step := LeafStep(c, p, tail);
    }
  }

  /** What becomes of a run with verdict `v` of which the open frames expect `n` more bytes.
      If the machine does not end there, it goes on from `d`, with every frame closed. */
  predicate Judged(c: Core, n: nat, tail: seq<byte>, v: Verdict, d: Core, out: Outcome)
    requires n < TWO_TO_THE_32
  {
    match v
    case Bad => out.code.Rejects()
    case Cut => if tail == [] then CutOff(out) else out.code.Rejects()
    case Good(_) =>
      && Closes(c, n, d, v)
      && if Ends(d, v) then out == Outcome(Done, d, tail)
         else !d.sliceMode && Sound(d) && out == Loop(d, tail)
  }

  // The machine, given all the bytes its open frames expect, accepts, waits or refuses as the
  // grammar says, and accepts nothing else.
  lemma {:induction false} MachineFollowsGrammar(c: Core, p: seq<byte>, tail: seq<byte>) returns (d: Core)
    requires Expected(c, p)
    ensures Judged(c, |p|, tail, Verdict0(c, p), d, Loop(c, p + tail))
    decreases |p|
  {
    hide Residual, Loop, Maps, Pending, Falling, Open, Frames, Closed;
    var step := OneItem(c, p, tail);
    if step.Stop? {
      d := step.out.core;
    } else if step.core.stack == [] {
      d := step.core;
    } else {
      var k := |p + tail| - |step.rest|;
      d := MachineFollowsGrammar(step.core, p[k..], tail);
    }
  }
}
