/** Exact acceptance of a body of declared length. */
module LengthMode {
  import opened Basics
  import opened Values
  import opened Heads
  import opened Validator
  import opened Grammar
  import opened Acceptance

  /** The machine is at the start of an item outside every container, and expects `n` bytes. */
  predicate AtStart(c: Core, n: nat) {
    && Sound(c) && c.stack == [] && c.initial.missing == 0
    && c.useLength && !c.useEndMarker && c.length == n < TWO_TO_THE_32
  }

  // A container that reaches past the declared total is never completed.
  lemma {:induction false} NeverDone(c: Core, input: seq<byte>)
    requires Sound(c) && c.useLength && c.stack != [] && c.stack[0].value > c.length
    ensures Loop(c, input).code != Done
    decreases |input|, if c.sliceMode then 1 else 0
  {
    hide Loop, NextStep, Frames, Pending;
    StepKeeps(c, input);
    LoopStep(c, input);
    OverlongStep(c, input);
    var step := NextStep(c, input);
    if step.Go? {
      NeverDone(step.core, step.rest);
    }
  }

  lemma LoopStep(c: Core, input: seq<byte>)
    requires Sound(c)
    ensures NextStep(c, input).Go? ==> Sound(NextStep(c, input).core)
    ensures Loop(c, input)
         == if NextStep(c, input).Stop? then NextStep(c, input).out
            else Loop(NextStep(c, input).core, NextStep(c, input).rest)
  {
    StepKeeps(c, input);
  }

  /** The bottom frame reaches past the declared total. */
  predicate Overlong(c: Core) {
    c.useLength && c.stack != [] && c.stack[0].value > c.length
  }

  lemma OverlongStep(c: Core, input: seq<byte>)
    requires Sound(c) && Overlong(c)
    ensures match NextStep(c, input)
            case Stop(out) => out.code != Done
            case Go(d, _) => Overlong(d)
  {
    hide Shrink, Maps, Pending, Falling, Open, DecodeHead, CheckHead;
    if c.sliceMode {
      var n := Min(Last(c.stack).value, |input|);
      LastIsLeast(c.stack);
      ShrinkBottom(c.stack, c.mapCounts, n, false);
    } else if input != [] {
      DecodeHeadPending(c.initial, input);
      var (i, rest) := DecodeHead(c.initial, input);
      OverlongConsume(c.(initial := i), |input| - |rest|, rest);
    }
  }

  lemma OverlongConsume(c: Core, n: nat, rest: seq<byte>)
    requires Frames(c.stack, c.mapCounts, false) && Overlong(c) && n <= 5
    ensures match Consume(c, n, rest)
            case Stop(out) => out.code != Done
            case Go(d, _) => Overlong(d)
  {
    hide Shrink, Maps, Pending, Falling, Open, Bump;
    if n <= c.length && n <= Last(c.stack).value {
      LastIsLeast(c.stack);
      var e := Counted(c.(length := Minus(c.length, n)));
      ShrinkBottom(e.stack, e.mapCounts, n, e.initial.TypeHasSlice());
    }
  }

  // A bottom frame that is not used up stays.
  lemma ShrinkBottom(stack: seq<InitialDecode>, counts: seq<u32>, n: nat, refuse: bool)
    requires Falling(stack) && AtLeast(stack, n) && |counts| == Maps(stack) && stack != []
    ensures var r := Shrink(stack, counts, n, refuse);
            stack[0].value > n && r.code == Done ==> r.stack != [] && r.stack[0].value == stack[0].value - n
  {
    hide Shrink, Maps;
    ShrinkKeeps(stack, counts, n, refuse);
  }

  /** The first item outside every container: it decides the verdict, or the rest does. */
  datatype TopStep = Decided | On(core: Core, k: nat)

  predicate Accepts(out: Outcome, tail: seq<byte>) {
    && out.code == Done && out.rest == tail
    && out.core.stack == [] && out.core.mapCounts == [] && out.core.length == 0
  }

  predicate TopJudged(c: Core, p: seq<byte>, tail: seq<byte>, step: TopStep)
    requires AtStart(c, |p|)
  {
    match step
    case Decided =>
      if Run(Outermost, false, p, false).Good? then Accepts(Loop(c, p + tail), tail) else Loop(c, p + tail).code != Done
    case On(d, k) =>
      && 0 < k < |p| && AtStart(d, |p| - k)
      && Loop(c, p + tail) == Loop(d, p[k..] + tail)
      && Run(Outermost, false, p, false).Good? == Run(Outermost, false, p[k..], false).Good?
  }

  // The machine does the same on the first head inside and outside of the declared total.
  lemma {:induction false} TopBroken(c: Core, p: seq<byte>, tail: seq<byte>)
    requires AtStart(c, |p|) && p != []
    requires CheckHead(c.initial, p + tail) != Done || |p + tail| - |ReadHead(c.initial, p + tail).1| > |p|
    ensures TopJudged(c, p, tail, Decided)
  {
    hide Loop, Run, Measured, Absorb, Shrink, Pending;
    var input := p + tail;
    LoopStep(c, input);
    HeadContinues(c.initial, input);
    DecodeHeadPending(c.initial, input);
    HeadWithin(c.initial, input, |p|);
    assert input[..|p|] == p;
    RunBroken(Outermost, false, p, false);
    ShrinkOpen([], [], |input| - |ReadHead(c.initial, input).1|, ReadHead(c.initial, input).0.TypeHasSlice());
  }

  // The machine after a whole head outside every container.
  lemma {:induction false} TopHead(c: Core, p: seq<byte>, tail: seq<byte>)
    requires AtStart(c, |p|) && p != [] && CheckHead(c.initial, p + tail) == Done
    requires |p + tail| - |ReadHead(c.initial, p + tail).1| <= |p|
    ensures var (i, rest) := ReadHead(c.initial, p + tail); var h := |p + tail| - |rest|;
            && 0 < h && i.missing == 0 && Pending(i) && rest == p[h..] + tail
            && CheckHead(ZERO_INITIAL, p) == Done
            && SameHead(i, ReadHead(ZERO_INITIAL, p).0) && ReadHead(ZERO_INITIAL, p).1 == p[h..]
            && (var f := c.(initial := i, length := |p| - h);
                HeadStep(c, p + tail)
                == if i.TypeHasSlice() then Go(Pushed(f, 0, i), rest)
                   else if h == |p| then Stop(Outcome(Done, f, rest)) else Go(f, rest))
  {
    hide Measured, Absorb, Shrink, Pending;
    var input := p + tail;
    HeadContinues(c.initial, input);
    DecodeHeadPending(c.initial, input);
    HeadWithin(c.initial, input, |p|);
    assert input[..|p|] == p;
    var (i, rest) := ReadHead(c.initial, input);
    var h := |input| - |rest|;
    assert input[h..|p|] == p[h..];
    ShrinkOpen([], [], h, i.TypeHasSlice());
    assert Lower([], 0) + [i] == [] + [i];
  }

  lemma {:induction false} TopScalar(c: Core, p: seq<byte>, tail: seq<byte>) returns (step: TopStep)
    requires AtStart(c, |p|) && p != [] && CheckHead(c.initial, p + tail) == Done
    requires |p + tail| - |ReadHead(c.initial, p + tail).1| <= |p|
    requires !ReadHead(c.initial, p + tail).0.TypeHasSlice()
    ensures TopJudged(c, p, tail, step)
  {
    hide Loop, HeadStep, CheckHead, ReadHead, Pending;
    LoopStep(c, p + tail);
    TopHead(c, p, tail);
    var (i, rest) := ReadHead(c.initial, p + tail);
    var h := |p + tail| - |rest|;
    RunFirst(Outermost, false, p, false, i, h);
    if h == |p| {
      assert p[h..] == [] && [] + tail == tail;
      step := Decided;
    } else {
      step := On(HeadStep(c, p + tail).core, h);
    }
  }

  // What the machine does with the bytes of a leaf outside every container.
  lemma TopSlice(d: Core, rest: seq<byte>)
    requires Sound(d) && d.sliceMode && |d.stack| == 1 && d.useLength && d.initial.missing == 0
    ensures var i, n := d.stack[0], Min(d.stack[0].value, |rest|);
            var step, e := SliceStep(d, rest), d.(stack := [], mapCounts := [], length := Minus(d.length, n));
            && (d.length < n || (i.typ == TYPE_TEXT && !TextBytes(rest[..n])) ==> step.Stop? && step.out.code.Rejects())
            && (i.value > |rest| ==> step.Stop? && step.out.code != Done)
            && (i.value <= |rest| && i.value <= d.length && !(i.typ == TYPE_TEXT && !TextBytes(rest[..i.value])) ==>
                  step == if d.length == i.value then Stop(Outcome(Done, e, rest[i.value..]))
                          else Go(e.(sliceMode := false), rest[i.value..]))
  {
    hide TextBytes, Pending, Shrink;
    var i, n := d.stack[0], Min(d.stack[0].value, |rest|);
    assert Front(d.stack) == [];
    MapsUnfold(d.stack);
    if i.value == n {
      ShrinkClose(d.stack, d.mapCounts, n, false);
      ShrinkOpen([], [], n, false);
      assert Lower([], n) == [];
    } else {
      ShrinkOpen(d.stack, d.mapCounts, n, false);
    }
  }

  lemma SplitBehind(p: seq<byte>, tail: seq<byte>, h: nat, n: nat)
    requires h + n <= |p|
    ensures var rest := p[h..] + tail; rest[..n] == p[h..h + n] && rest[n..] == p[h + n..] + tail
  {
  }

  lemma TopLeaf(c: Core, p: seq<byte>, tail: seq<byte>) returns (step: TopStep)
    requires AtStart(c, |p|) && p != [] && CheckHead(c.initial, p + tail) == Done
    requires |p + tail| - |ReadHead(c.initial, p + tail).1| <= |p|
    requires ReadHead(c.initial, p + tail).0.TypeHasSlice() && !ReadHead(c.initial, p + tail).0.TypeHasNesting()
    ensures TopJudged(c, p, tail, step)
  {
    hide Loop, Run, HeadStep, SliceStep, CheckHead, ReadHead, Pending, TextBytes, Maps, Falling, Open;
    TopHead(c, p, tail);
    var (i, rest) := ReadHead(c.initial, p + tail);
    var h, k := |p + tail| - |rest|, |p + tail| - |rest| + i.value;
    RunFirst(Outermost, false, p, false, i, h);
    LoopStep(c, p + tail);
    var d := HeadStep(c, p + tail).core;
    LoopStep(d, rest);
    TopSlice(d, rest);
    step := Decided;
    if k <= |p| {
      SplitBehind(p, tail, h, i.value);
      if i.typ != TYPE_TEXT || TextBytes(p[h..k]) {
        if k == |p| {
          assert p[k..] == [] && [] + tail == tail;
          RunEmpty(Outermost, false, false);
        } else {
          step := On(SliceStep(d, rest).core, k);
        }
      }
    }
  }

  // A container outside every other, within the declared total.
  lemma {:induction false} TopFrame(d: Core, inner: seq<byte>, after: seq<byte>, tail: seq<byte>) returns (e: Core)
    requires Expected(d, inner) && |d.stack| == 1 && |d.mapCounts| == Maps(d.stack)
    requires d.useLength && !d.useEndMarker && d.length == |inner| + |after| < TWO_TO_THE_32
    ensures var v, out := Run(PlaceOf(d.stack[0]), OddAt(d.stack, d.mapCounts), inner, false),
                          Loop(d, inner + (after + tail));
            && (!v.Good? ==> out.code != Done)
            && (v.Good? && after == [] ==> Accepts(out, tail))
            && (v.Good? && after != [] ==> AtStart(e, |after|) && out == Loop(e, after + tail))
  {
    hide Loop, Run, Pending, Verdict0, Falling, Open;
    FrameVerdict(d, inner);
    e := MachineFollowsGrammar(d, inner, after + tail);
    if after == [] {
      assert after + tail == tail;
    }
  }

  lemma TopContainer(c: Core, p: seq<byte>, tail: seq<byte>) returns (step: TopStep)
    requires AtStart(c, |p|) && p != [] && CheckHead(c.initial, p + tail) == Done
    requires |p + tail| - |ReadHead(c.initial, p + tail).1| <= |p|
    requires ReadHead(c.initial, p + tail).0.TypeHasNesting()
    ensures TopJudged(c, p, tail, step)
  {
    hide Loop, HeadStep, CheckHead, ReadHead, Pending, Run;
    TopHead(c, p, tail);
    var (i, rest) := ReadHead(c.initial, p + tail);
    var h, k := |p + tail| - |rest|, |p + tail| - |rest| + i.value;
    RunFirst(Outermost, false, p, false, i, h);
    LoopStep(c, p + tail);
    var d := HeadStep(c, p + tail).core;
    step := Decided;
    if k > |p| {
      NeverDone(d, rest);
    } else if i.value == 0 {
      LoopStep(d, rest);
      if rest != [] {
        EmptyFrame(d, rest);
      }
    } else {
      assert rest == p[h..k] + (p[k..] + tail);
      var e := TopFrame(d, p[h..k], p[k..], tail);
      var v := Run(PlaceOf(i), false, p[h..k], false);
      RunEmpty(Outermost, false, MarkerOf(v));
      if v.Good? && p[k..] != [] {
        RunMarker(Outermost, false, p[k..], MarkerOf(v), false);
        step := On(e, k);
      }
    }
  }

  lemma RunMarker(place: Place, odd: bool, bs: seq<byte>, m1: bool, m2: bool)
    requires bs != []
    ensures Run(place, odd, bs, m1) == Run(place, odd, bs, m2)
  {
  }

  // A single open frame expects one run.
  lemma {:induction false} FrameVerdict(d: Core, p: seq<byte>)
    requires Expected(d, p) && |d.stack| == 1
    ensures Verdict0(d, p) == Run(PlaceOf(d.stack[0]), OddAt(d.stack, d.mapCounts), p, false)
  {
    hide Run, Residual, Pending;
    ResidualTop(d.stack, d.mapCounts, p, false);
    MapsUnfold(d.stack);
    assert p[..|p|] == p && p[|p|..] == [];
    var inner := Run(PlaceOf(d.stack[0]), OddAt(d.stack, d.mapCounts), p, false);
    assert Lower(Front(d.stack), |p|) == [];
    ResidualNothing(Closed(d.stack, d.mapCounts), MarkerOf(inner));
  }

  // Exact acceptance: given at least as many bytes as declared, the validator reports Done
  // exactly when the declared bytes are a non-empty run of the grammar, and then it has read
  // just those bytes.
  lemma {:induction false} ExactAcceptance(c: Core, p: seq<byte>, tail: seq<byte>)
    requires AtStart(c, |p|)
    ensures Loop(c, p + tail).code == Done <==> p != [] && Run(Outermost, false, p, false).Good?
    ensures Loop(c, p + tail).code == Done ==> Accepts(Loop(c, p + tail), tail)
    decreases |p|
  {
    hide Loop, Run, HeadStep, CheckHead, ReadHead, Pending;
    if p == [] {
      assert p + tail == tail;
      NothingExpected(c, tail);
    } else {
      var step := Decided;
      var input := p + tail;
      if CheckHead(c.initial, input) != Done || |input| - |ReadHead(c.initial, input).1| > |p| {
        TopBroken(c, p, tail);
      } else if !ReadHead(c.initial, input).0.TypeHasSlice() {
        step := TopScalar(c, p, tail);
      } else if ReadHead(c.initial, input).0.TypeHasNesting() {
        step := TopContainer(c, p, tail);
      } else {
        step := TopLeaf(c, p, tail);
      }
      if step.On? {
        ExactAcceptance(step.core, p[step.k..], tail);
      }
    }
  }

  // A declared total of nothing is never reached.
  lemma NothingExpected(c: Core, input: seq<byte>)
    requires AtStart(c, 0)
    ensures Loop(c, input).code != Done
  {
    hide Measured, Absorb, Pending;
    if input != [] {
      DecodeHeadPending(c.initial, input);
    }
  }
}
