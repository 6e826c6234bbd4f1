/** Feeding the validator in pieces. */
module Chunking {
  import opened Basics
  import opened Values
  import opened Heads
  import opened Decoder
  import opened Validator
  import opened Grammar
  import opened Acceptance
  import opened LengthMode

  /** The same answer: both refuse, or both stop alike in the same state with the same bytes unread. */
  predicate Agree(x: Outcome, y: Outcome) {
    if x.code.Rejects() then y.code.Rejects() else x == y
  }

  predicate StepsAgree(x: Step, y: Step) {
    match x
    case Stop(out) => y.Stop? && Agree(out, y.out)
    case Go(_, _) => x == y
  }

  /** The bytes complete the head that misses `missing` of them, or there are none. */
  predicate Supplies(bs: seq<byte>, missing: nat) {
    bs == [] || missing <= |bs|
  }

  /** The state before the last step of a run. */
  function LastCore(c: Core, input: seq<byte>): Core
    requires Sound(c)
    decreases |input|, if c.sliceMode then 1 else 0
  {
    StepKeeps(c, input);
    var step := NextStep(c, input);
    if step.Stop? then c else LastCore(step.core, step.rest)
  }

  /** A piece that ends inside a head has not used up a container with the part of the head. */
  predicate Clean(c: Core, input: seq<byte>)
    requires Sound(c)
  {
    |Loop(c, input).core.stack| == |LastCore(c, input).stack|
  }

  // ------------------------------------------------------------------- slice steps

  lemma TextSplit(a: seq<byte>, b: seq<byte>)
    ensures TextBytes(a + b) <==> TextBytes(a) && TextBytes(b)
  {
    if TextBytes(a + b) {
      assert forall k :: 0 <= k < |a| ==> a[k] == (a + b)[k];
      assert forall k :: 0 <= k < |b| ==> b[k] == (a + b)[|a| + k];
    }
  }

  // A leaf whose bytes are all in the first piece.
  lemma SliceWhole(c: Core, a: seq<byte>, b: seq<byte>)
    requires Sound(c) && c.sliceMode && Last(c.stack).value <= |a|
    ensures match SliceStep(c, a)
            case Stop(out) => out.code != Continue && SliceStep(c, a + b) == Stop(out.(rest := out.rest + b))
            case Go(d, rest) => SliceStep(c, a + b) == Go(d, rest + b)
  {
    hide Shrink, Maps, TextBytes, Pending, Falling, Open;
    var n := Last(c.stack).value;
    ShrinkKeeps(c.stack, c.mapCounts, n, false) by { LastIsLeast(c.stack); }
    assert (a + b)[..n] == a[..n] && (a + b)[n..] == a[n..] + b;
  }

  /** The state after `n` bytes that close no frame. */
  function Lowered(c: Core, n: nat): Core
    requires AtLeast(c.stack, n) && n < TWO_TO_THE_32
  {
    c.(length := Minus(c.length, n), stack := Lower(c.stack, n))
  }

  // A piece that ends inside a leaf is refused, or the validator waits for more of the leaf.
  lemma SliceStall(c: Core, a: seq<byte>)
    requires Sound(c) && c.sliceMode && Last(c.stack).value > |a|
    ensures AtLeast(c.stack, |a|) && Sound(Lowered(c, |a|))
    ensures if (Last(c.stack).typ == TYPE_TEXT && !TextBytes(a)) || (c.useLength && c.length < |a|)
            then SliceStep(c, a).Stop? && SliceStep(c, a).out.code.Rejects()
            else SliceStep(c, a) == Stop(Outcome(Continue, Lowered(c, |a|), []))
  {
    hide Shrink, TextBytes, Pending;
    LastIsLeast(c.stack);
    LowerMaps(c.stack, |a|);
    ShrinkOpen(c.stack, c.mapCounts, |a|, false);
    assert a[..|a|] == a && a[|a|..] == [];
  }

  // The rest of the leaf.
  lemma SliceResume(c: Core, a: seq<byte>, b: seq<byte>)
    requires Sound(c) && c.sliceMode && Last(c.stack).value > |a| && AtLeast(c.stack, |a|) && Sound(Lowered(c, |a|))
    requires !(Last(c.stack).typ == TYPE_TEXT && !TextBytes(a)) && !(c.useLength && c.length < |a|)
    ensures StepsAgree(SliceStep(c, a + b), SliceStep(Lowered(c, |a|), b))
  {
    hide Shrink, Maps, TextBytes, Pending, Falling, Open;
    var n2 := Min(Last(c.stack).value, |a + b|);
    var k := n2 - |a|;
    LastIsLeast(c.stack);
    assert (a + b)[..n2] == a + b[..k] && (a + b)[n2..] == b[k..];
    TextSplit(a, b[..k]);
    ShrinkTwice(c.stack, c.mapCounts, |a|, k, false);
    ShrinkCodes(c.stack, c.mapCounts, n2, false);
  }

  // A leaf whose bytes go on in the second piece.
  lemma SliceSplit(c: Core, a: seq<byte>, b: seq<byte>)
    requires Sound(c) && c.sliceMode && Last(c.stack).value > |a|
    ensures SliceStep(c, a).Stop? && SliceStep(c, a).out.code != Done
    ensures var o := SliceStep(c, a).out;
            && (o.code.Rejects() ==> SliceStep(c, a + b).Stop? && SliceStep(c, a + b).out.code.Rejects())
            && (o.code == Continue ==>
                  && o.rest == [] && Sound(o.core) && o.core.sliceMode && |o.core.stack| == |c.stack|
                  && o.core.initial == c.initial
                  && StepsAgree(SliceStep(c, a + b), SliceStep(o.core, b)))
  {
    hide Shrink, Maps, TextBytes, Pending, Falling, Open;
    SliceStall(c, a);
    if SliceStep(c, a).out.code == Continue {
      SliceResume(c, a, b);
    } else {
      var n2 := Min(Last(c.stack).value, |a + b|);
      assert (a + b)[..n2] == a + (a + b)[|a|..n2];
      TextSplit(a, (a + b)[|a|..n2]);
    }
  }

  lemma ShrinkCodes(stack: seq<InitialDecode>, counts: seq<u32>, n: nat, refuse: bool)
    requires Falling(stack) && AtLeast(stack, n) && |counts| == Maps(stack)
    ensures Shrink(stack, counts, n, refuse).code == Done || Shrink(stack, counts, n, refuse).code.Rejects()
  {
    if stack != [] && Last(stack).value == n && !refuse && !(IsMap(Last(stack)) && Last(counts) % 2 == 1) {
      ShrinkCodes(Front(stack), Closed(stack, counts), n, refuse);
    }
  }

  // -------------------------------------------------------------------- head steps

  // A head that is complete in the first piece.
  lemma HeadWhole(c: Core, a: seq<byte>, b: seq<byte>)
    requires Sound(c) && !c.sliceMode && a != [] && DecodeHead(c.initial, a).0.missing == 0
    ensures match HeadStep(c, a)
            case Stop(out) => out.code != Continue && HeadStep(c, a + b) == Stop(out.(rest := out.rest + b))
            case Go(d, rest) => HeadStep(c, a + b) == Go(d, rest + b)
  {
    hide Consume, Absorb, Measured, Pending;
    DecodeHeadExtend(c.initial, a, b);
    DecodeHeadPending(c.initial, a);
    var (i, rest) := DecodeHead(c.initial, a);
    ConsumeRest(c.(initial := i), |a| - |rest|, rest, rest + b);
  }

  lemma DecodeHeadExtend(i: InitialDecode, a: seq<byte>, b: seq<byte>)
    requires a != [] && DecodeHead(i, a).0.missing == 0
    ensures DecodeHead(i, a + b) == (DecodeHead(i, a).0, DecodeHead(i, a).1 + b)
    ensures CheckHead(i, a + b) == CheckHead(i, a)
  {
    hide Absorb;
    if i.missing > 0 {
      AbsorbSplit(i, a, b);
    } else {
      ReadHeadExtend(i, a, b);
    }
  }

  // Accounting for a head does not look at the bytes behind it.
  lemma ConsumeRest(c: Core, n: nat, x: seq<byte>, y: seq<byte>)
    requires Frames(c.stack, c.mapCounts, false) && n <= 5 && c.initial.missing == 0
    ensures match Consume(c, n, x)
            case Stop(out) => out.code != Continue && out.rest == x && Consume(c, n, y) == Stop(out.(rest := y))
            case Go(d, rest) => rest == x && Consume(c, n, y) == Go(d, y)
  {
    hide Shrink, Maps, Pending, Open;
    if c.stack == [] || n <= Last(c.stack).value {
      var e := Counted(c.(length := Minus(c.length, n)));
      ShrinkCodes(e.stack, e.mapCounts, n, e.initial.TypeHasSlice());
    }
  }

  // A piece that ends inside a head leaves the frames open, unless it runs over the declared
  // total or uses up a container.
  lemma {:induction false} Fragment(c: Core, a: seq<byte>)
    requires Sound(c) && !c.sliceMode && c.initial.missing == 0 && a != [] && ReadHead(c.initial, a).0.missing > 0
    ensures var i, n := ReadHead(c.initial, a).0, |a|;
            && n <= 5 && HeadStep(c, a).Stop? && HeadStep(c, a).out.code != Done
            && (if (c.useLength && c.length < n) || (c.stack != [] && Last(c.stack).value <= n)
                then HeadStep(c, a).out.code == Continue ==> |HeadStep(c, a).out.core.stack| < |c.stack|
                else AtLeast(c.stack, n) && HeadStep(c, a) == Stop(Outcome(Continue, Lowered(c.(initial := i), n), [])))
  {
    hide Consume, Pending, ReadHead, CheckHead, Frames, HeadStep, DecodeHead;
    HeadContinues(c.initial, a);
    HeadStepFresh(c, a);
    FragmentConsume(c.(initial := ReadHead(c.initial, a).0), |a|);
  }

  lemma FragmentConsume(c: Core, n: nat)
    requires Frames(c.stack, c.mapCounts, false) && 0 < n <= 5 && c.initial.missing > 0
    ensures Consume(c, n, []).Stop? && Consume(c, n, []).out.code != Done
    ensures if (c.useLength && c.length < n) || (c.stack != [] && Last(c.stack).value <= n)
            then Consume(c, n, []).out.code == Continue ==> |Consume(c, n, []).out.core.stack| < |c.stack|
            else AtLeast(c.stack, n) && Consume(c, n, []) == Stop(Outcome(Continue, Lowered(c, n), []))
  {
    hide Shrink, Maps, Falling, Open;
    var refuse := c.initial.TypeHasSlice();
    if c.stack == [] {
      ShrinkOpen([], c.mapCounts, n, refuse);
      assert Lower([], n) == [];
    } else {
      LastIsLeast(c.stack);
      if Last(c.stack).value > n {
        ShrinkOpen(c.stack, c.mapCounts, n, refuse);
      } else if Last(c.stack).value == n {
        ShrinkFrames(c.stack, c.mapCounts, false, n, refuse);
        ShrinkKeeps(c.stack, c.mapCounts, n, refuse);
        ShrinkCodes(c.stack, c.mapCounts, n, refuse);
      }
    }
  }

  // A head of which the first piece already runs over is refused as a whole.
  lemma {:induction false} Overrun(c: Core, a: seq<byte>, b: seq<byte>)
    requires Sound(c) && !c.sliceMode && c.initial.missing == 0 && a != [] && b != []
    requires ReadHead(c.initial, a).0.missing > 0
    requires (c.useLength && c.length < |a|) || (c.stack != [] && Last(c.stack).value <= |a|)
    ensures HeadStep(c, a + b).Stop? && HeadStep(c, a + b).out.code.Rejects()
  {
    hide Shrink, Maps, Pending, Absorb, Measured, Falling, Open;
    var low := LowBits(a[0]);
    assert (a + b)[1..] == a[1..] + b;
    AbsorbWithin(LongHead(TypeOf(a[0]), low - 24), a[1..], b);
    DecodeHeadPending(c.initial, a + b);
  }

  // The rest of a head, when it is all there.
  lemma HeadResume(c: Core, a: seq<byte>, b: seq<byte>)
    requires Sound(c) && !c.sliceMode && c.initial.missing == 0 && a != []
    requires var i := ReadHead(c.initial, a).0; 0 < i.missing <= |b|
    requires !(c.useLength && c.length < |a|) && !(c.stack != [] && Last(c.stack).value <= |a|)
    requires |a| <= 5 && AtLeast(c.stack, |a|) && Sound(Lowered(c.(initial := ReadHead(c.initial, a).0), |a|))
    ensures StepsAgree(HeadStep(c, a + b), HeadStep(Lowered(c.(initial := ReadHead(c.initial, a).0), |a|), b))
  {
    hide Consume, Absorb, Measured, Pending, Frames;
    var i := ReadHead(c.initial, a).0;
    ResumedHead(c.initial, a, b);
    DecodeHeadPending(c.initial, a + b);
    DecodeHeadPending(i, b);
    var (j, rest) := DecodeHead(c.initial, a + b);
    ConsumeSplit(c.(initial := j), |a|, |a + b| - |rest|, rest);
  }

  // A head read in two pieces is the head read in one.
  lemma ResumedHead(prev: InitialDecode, a: seq<byte>, b: seq<byte>)
    requires prev.missing == 0 && a != []
    requires var i := ReadHead(prev, a).0; 0 < i.missing <= |b|
    ensures var i := ReadHead(prev, a).0;
            && DecodeHead(prev, a + b) == DecodeHead(i, b) && DecodeHead(i, b).0.missing == 0
            && CheckHead(prev, a + b) == CheckHead(i, b)
            && |a + b| - |DecodeHead(i, b).1| >= |a|
  {
    hide Absorb, Measured;
    var low := LowBits(a[0]);
    assert (a + b)[1..] == a[1..] + b;
    AbsorbSplit(LongHead(TypeOf(a[0]), low - 24), a[1..], b);
  }

  // Accounting for a head in two portions is accounting for it in one.
  lemma ConsumeSplit(c: Core, n: nat, total: nat, rest: seq<byte>)
    requires Frames(c.stack, c.mapCounts, false) && n <= total <= 5 && c.initial.missing == 0
    requires !(c.useLength && c.length < n) && !(c.stack != [] && Last(c.stack).value <= n)
    requires AtLeast(c.stack, n) && Frames(Lowered(c, n).stack, c.mapCounts, false)
    ensures StepsAgree(Consume(c, total, rest), Consume(Lowered(c, n), total - n, rest))
  {
    hide Shrink, Maps, Pending, Open, Settle, Counted, Lower;
    var d := Lowered(c, n);
    assert c.stack != [] ==> d.stack != [] && Last(d.stack).value == Last(c.stack).value - n;
    if c.stack == [] || total <= Last(c.stack).value {
      var e, f := Counted(c.(length := Minus(c.length, total))), Counted(d.(length := Minus(d.length, total - n)));
      CountedLowered(c, n, total);
      ShrinkTwice(e.stack, e.mapCounts, n, total - n, e.initial.TypeHasSlice());
      ShrinkCodes(e.stack, e.mapCounts, total, e.initial.TypeHasSlice());
    }
  }

  lemma CountedLowered(c: Core, n: nat, total: nat)
    requires Frames(c.stack, c.mapCounts, false) && n <= total <= 5
    requires AtLeast(c.stack, n) && |c.mapCounts| == Maps(Lowered(c, n).stack)
    requires !(c.useLength && c.length < n)
    ensures var d := Lowered(c, n);
            Counted(d.(length := Minus(d.length, total - n)))
            == Counted(c.(length := Minus(c.length, total))).(stack := Lower(c.stack, n))
  {
    hide Maps, Falling, Open;
  }

  // A pending head that is resumed with too few bytes is refused.
  lemma {:induction false} Undersupplied(c: Core, b: seq<byte>)
    requires Sound(c) && 0 < |b| < c.initial.missing
    ensures Loop(c, b).code == NonCanonicalInitialDecode
  {
    hide Absorb, Frames;
    AbsorbPending(c.initial, b);
    AbsorbCount(c.initial, b);
  }

  // ------------------------------------------------------------------- two pieces

  // A step on the first piece alone, when it does not end in the middle of an item.
  predicate WholeStep(c: Core, a: seq<byte>)
    requires Sound(c)
  {
    if c.sliceMode then Last(c.stack).value <= |a| else a != [] && DecodeHead(c.initial, a).0.missing == 0
  }

  // A step that is whole in the first piece is the same on both pieces together.
  lemma StepWhole(c: Core, a: seq<byte>, b: seq<byte>)
    requires Sound(c) && WholeStep(c, a)
    ensures match NextStep(c, a)
            case Stop(out) => out.code != Continue && NextStep(c, a + b) == Stop(out.(rest := out.rest + b))
            case Go(d, rest) => NextStep(c, a + b) == Go(d, rest + b) && d.initial.missing == 0
  {
    hide SliceStep, HeadStep, Frames, Pending, DecodeHead;
    if c.sliceMode {
      SliceWhole(c, a, b);
      SliceInitial(c, a);
    } else {
      HeadWhole(c, a, b);
      HeadInitial(c, a);
    }
  }

  lemma SliceInitial(c: Core, a: seq<byte>)
    requires Sound(c) && c.sliceMode
    ensures SliceStep(c, a).Go? ==> SliceStep(c, a).core.initial == c.initial
  {
  }

  lemma HeadInitial(c: Core, a: seq<byte>)
    requires Sound(c) && !c.sliceMode && a != []
    ensures HeadStep(c, a).Go? ==> HeadStep(c, a).core.initial.missing == 0
  {
    hide Shrink, Maps, DecodeHead, CheckHead, Pending;
    DecodeHeadPending(c.initial, a);
  }

  /** What the pieces `a` and `b` say about the two together: what the first decides stands; if
      the validator waits after the first, it answers on the second what it answers on both,
      unless the first ended in a head and either used up a container with it (then both together
      are refused) or is followed by too few bytes to complete it (then the second is refused). */
  predicate PiecesFit(c: Core, a: seq<byte>, b: seq<byte>)
    requires Sound(c)
  {
    var o, w := Loop(c, a), Loop(c, a + b);
    match o.code
    case Done => w == o.(rest := o.rest + b)
    case Continue =>
      && Sound(o.core) && o.rest == []
      && (Clean(c, a) && Supplies(b, o.core.initial.missing) ==> Agree(w, Loop(o.core, b)))
      && (!Clean(c, a) && b != [] ==> w.code.Rejects())
      && (!Supplies(b, o.core.initial.missing) ==> Loop(o.core, b).code == NonCanonicalInitialDecode)
    case _ => w.code.Rejects()
  }

  lemma {:induction false} TwoPieces(c: Core, a: seq<byte>, b: seq<byte>)
    requires Sound(c) && Supplies(a, c.initial.missing)
    ensures PiecesFit(c, a, b)
    decreases |a|, if c.sliceMode then 1 else 0
  {
    hide NextStep, Frames, Pending, DecodeHead, Agree, Supplies, Loop, LastCore;
    StepKeeps(c, a);
    LoopStep(c, a);
    LastCoreStep(c, a);
    if WholeStep(c, a) {
      LoopStep(c, a + b);
      StepWhole(c, a, b);
      var step := NextStep(c, a);
      if step.Go? {
        NoneMissing(step.rest);
        TwoPieces(step.core, step.rest, b);
      }
    } else if c.sliceMode {
      PiecesInSlice(c, a, b);
    } else if a == [] {
      PiecesFromNothing(c, b);
    } else {
      PiecesInHead(c, a, b);
    }
  }

  lemma NoneMissing(bs: seq<byte>)
    ensures Supplies(bs, 0)
  {
  }

  lemma LastCoreStep(c: Core, input: seq<byte>)
    requires Sound(c)
    ensures NextStep(c, input).Go? ==> Sound(NextStep(c, input).core)
    ensures LastCore(c, input)
         == if NextStep(c, input).Stop? then c else LastCore(NextStep(c, input).core, NextStep(c, input).rest)
  {
    StepKeeps(c, input);
  }

  lemma {:induction false} PiecesFromNothing(c: Core, b: seq<byte>)
    requires Sound(c) && !c.sliceMode
    ensures PiecesFit(c, [], b)
  {
    hide Frames, Pending, HeadStep;
    assert [] + b == b;
    LoopStep(c, []);
    LastCoreStep(c, []);
    if 0 < |b| < c.initial.missing {
      Undersupplied(c, b);
    }
  }

  lemma PiecesInSlice(c: Core, a: seq<byte>, b: seq<byte>)
    requires Sound(c) && c.sliceMode && Last(c.stack).value > |a|
    ensures PiecesFit(c, a, b)
  {
    hide Frames, Pending, HeadStep, SliceStep, Loop, LastCore;
    SliceSplit(c, a, b);
    LoopStep(c, a);
    LastCoreStep(c, a);
    LoopStep(c, a + b);
    var o := SliceStep(c, a).out;
    if o.code == Continue {
      LoopStep(o.core, b);
    }
  }

  lemma {:induction false} PiecesInHead(c: Core, a: seq<byte>, b: seq<byte>)
    requires Sound(c) && !c.sliceMode && a != [] && Supplies(a, c.initial.missing)
    requires DecodeHead(c.initial, a).0.missing > 0
    ensures PiecesFit(c, a, b)
  {
    hide Frames, Pending, HeadStep, SliceStep, Loop, LastCore, Absorb;
    assert c.initial.missing == 0 by {
      if c.initial.missing > 0 {
        AbsorbEnough(c.initial, a);
      }
    }
    var i, n := ReadHead(c.initial, a).0, |a|;
    StepKeeps(c, a);
    LoopStep(c, a);
    LastCoreStep(c, a);
    LoopStep(c, a + b);
    Fragment(c, a);
    if b == [] {
      assert a + b == a;
      if HeadStep(c, a).out.code == Continue {
        LoopStep(HeadStep(c, a).out.core, []);
      }
    } else if (c.useLength && c.length < n) || (c.stack != [] && Last(c.stack).value <= n) {
      Overrun(c, a, b);
      var d := HeadStep(c, a).out.core;
      if HeadStep(c, a).out.code == Continue && |b| < d.initial.missing {
        Undersupplied(d, b);
      }
    } else {
      var d := HeadStep(c, a).out.core;
      LoopStep(d, b);
      if |b| < i.missing {
        Undersupplied(d, b);
      } else {
        HeadResume(c, a, b);
      }
    }
  }

  lemma AbsorbEnough(i: InitialDecode, a: seq<byte>)
    requires i.missing <= |a|
    ensures Absorb(i, a).0.missing == 0
  {
  }

  // ------------------------------------------------------------------ many pieces

  function Joined(pieces: seq<seq<byte>>): seq<byte> {
    if pieces == [] then [] else pieces[0] + Joined(pieces[1..])
  }

  /** Hands the pieces of a head to `DecodeInitial` one by one. */
  function DecodePieces(i: InitialDecode, pieces: seq<seq<byte>>): InitialDecode
    requires forall k :: 0 <= k < |pieces| ==> pieces[k] != []
    decreases |pieces|
  {
    if pieces == [] then i else DecodePieces(DecodeHead(i, pieces[0]).0, pieces[1..])
  }

  // A head that takes all of two pieces is read from one after the other.
  lemma TwoHeadPieces(i: InitialDecode, a: seq<byte>, b: seq<byte>)
    requires a != [] && b != [] && DecodeHead(i, a + b).1 == []
    ensures DecodeHead(i, a).0.missing > 0 && DecodeHead(DecodeHead(i, a).0, b) == DecodeHead(i, a + b)
  {
    hide Absorb;
    if DecodeHead(i, a).0.missing == 0 {
      DecodeHeadExtend(i, a, b);
    } else if i.missing > 0 {
      AbsorbSplit(i, a, b);
    } else {
      assert (a + b)[1..] == a[1..] + b;
      AbsorbSplit(LongHead(TypeOf(a[0]), LowBits(a[0]) - 24), a[1..], b);
    }
  }

  lemma {:induction false} PiecesOfHead(i: InitialDecode, pieces: seq<seq<byte>>)
    requires pieces != [] && forall k :: 0 <= k < |pieces| ==> pieces[k] != []
    requires Joined(pieces) != [] && DecodeHead(i, Joined(pieces)).1 == []
    ensures DecodePieces(i, pieces) == DecodeHead(i, Joined(pieces)).0
    decreases |pieces|
  {
    hide DecodeHead;
    var a, b := pieces[0], Joined(pieces[1..]);
    if |pieces| == 1 {
      assert b == [] && a + b == a;
      assert DecodePieces(DecodeHead(i, a).0, []) == DecodeHead(i, a).0;
    } else {
      assert b == pieces[1] + Joined(pieces[1..][1..]);
      TwoHeadPieces(i, a, b);
      PiecesOfHead(DecodeHead(i, a).0, pieces[1..]);
    }
  }

  // However the bytes of a head are cut into pieces, decoding them recovers its type and value.
  lemma {:induction false} HeadInPieces(typ: kind, v: u32, pieces: seq<seq<byte>>)
    requires forall k :: 0 <= k < |pieces| ==> pieces[k] != []
    requires Joined(pieces) == HeadBytes(typ, v)
    ensures var i := DecodePieces(ZERO_INITIAL, pieces); i.typ == typ && i.value == v && i.missing == 0
  {
    hide HeadBytes, ReadHead, DecodePieces;
    ReadHeadBytes(ZERO_INITIAL, typ, v, []);
    assert HeadBytes(typ, v) + [] == HeadBytes(typ, v);
    PiecesOfHead(ZERO_INITIAL, pieces);
  }

  /** Hands the pieces to the validator one by one, as long as it waits for more. */
  function Feed(c: Core, pieces: seq<seq<byte>>): Outcome
    requires Sound(c) && pieces != []
    decreases |pieces|
  {
    var o := Loop(c, pieces[0]);
    LoopKeeps(c, pieces[0]);
    if o.code != Continue then o.(rest := o.rest + Joined(pieces[1..]))
    else if |pieces| == 1 then o
    else Feed(o.core, pieces[1..])
  }

  // While the validator waits, its state is sound.
  lemma {:induction false} LoopKeeps(c: Core, input: seq<byte>)
    requires Sound(c)
    ensures Loop(c, input).code == Continue ==> Sound(Loop(c, input).core) && Loop(c, input).rest == []
    decreases |input|, if c.sliceMode then 1 else 0
  {
    hide NextStep, Frames, Pending;
    StepKeeps(c, input);
    LoopStep(c, input);
    if NextStep(c, input).Go? {
      LoopKeeps(NextStep(c, input).core, NextStep(c, input).rest);
    }
  }

  // Reading nothing changes nothing, once the validator waits.
  lemma {:induction false} WaitsOn(c: Core, input: seq<byte>)
    requires Sound(c) && Loop(c, input).code == Continue
    ensures var d := Loop(c, input).core; Sound(d) && Loop(d, []) == Outcome(Continue, d, [])
    decreases |input|, if c.sliceMode then 1 else 0
  {
    hide NextStep, Frames, Pending, Loop;
    StepKeeps(c, input);
    LoopStep(c, input);
    var step := NextStep(c, input);
    if step.Go? {
      WaitsOn(step.core, step.rest);
    } else {
      StallsAgain(c, input);
      LoopStep(step.out.core, []);
    }
  }

  lemma StallsAgain(c: Core, input: seq<byte>)
    requires Sound(c) && NextStep(c, input).Stop? && NextStep(c, input).out.code == Continue
    ensures var d := NextStep(c, input).out.core; Sound(d) && NextStep(d, []) == Stop(Outcome(Continue, d, []))
  {
    hide Frames, Pending, HeadStep, SliceStep;
    StepKeeps(c, input);
    if c.sliceMode {
      SliceStallsAgain(c, input);
    } else if input != [] {
      HeadLeavesSliceMode(c, input);
    }
  }

  lemma SliceStallsAgain(c: Core, input: seq<byte>)
    requires Sound(c) && c.sliceMode && SliceStep(c, input).Stop? && SliceStep(c, input).out.code == Continue
    ensures var d := SliceStep(c, input).out.core;
            Sound(d) && d.sliceMode && SliceStep(d, []) == Stop(Outcome(Continue, d, []))
  {
    hide Pending, Shrink, Maps, TextBytes, Falling, Open;
    SliceWaits(c, input);
    SliceStall(c, input);
    var d := SliceStep(c, input).out.core;
    assert Last(d.stack) == Last(c.stack).(value := Last(c.stack).value - |input|);
    SliceStall(d, []);
    TextNothing();
    LowerNothing(d.stack);
  }

  // A leaf that is not complete is what the validator waits for.
  lemma SliceWaits(c: Core, input: seq<byte>)
    requires Sound(c) && c.sliceMode && SliceStep(c, input).Stop? && SliceStep(c, input).out.code == Continue
    ensures Last(c.stack).value > |input|
  {
    hide Pending, Maps, TextBytes, Shrink;
    if Last(c.stack).value <= |input| {
      SliceWhole(c, input, []);
    }
  }

  lemma LowerNothing(stack: seq<InitialDecode>)
    ensures Lower(stack, 0) == stack
  {
  }

  lemma HeadLeavesSliceMode(c: Core, input: seq<byte>)
    requires Sound(c) && !c.sliceMode && input != []
    requires HeadStep(c, input).Stop? && HeadStep(c, input).out.code == Continue
    ensures !HeadStep(c, input).out.core.sliceMode
  {
    hide Shrink, Maps, DecodeHead, CheckHead, Pending;
    DecodeHeadPending(c.initial, input);
  }

  /** Each head that a piece ends in is completed by the next piece that is not empty. */
  predicate Supplied(c: Core, pieces: seq<seq<byte>>)
    requires Sound(c) && pieces != []
    decreases |pieces|
  {
    var o := Loop(c, pieces[0]);
    LoopKeeps(c, pieces[0]);
    && Supplies(pieces[0], c.initial.missing)
    && (|pieces| > 1 && o.code == Continue ==> Supplied(o.core, pieces[1..]))
  }

  /** No piece ends in a head that has used up a container, with a byte after it. */
  predicate Undamaged(c: Core, pieces: seq<seq<byte>>)
    requires Sound(c) && pieces != []
    decreases |pieces|
  {
    var o := Loop(c, pieces[0]);
    LoopKeeps(c, pieces[0]);
    |pieces| > 1 && o.code == Continue ==>
      (Clean(c, pieces[0]) || Joined(pieces[1..]) == []) && Undamaged(o.core, pieces[1..])
  }

  // Too few bytes for a pending head are refused, however they are cut.
  lemma {:induction false} ShortRest(c: Core, pieces: seq<seq<byte>>)
    requires Sound(c) && pieces != [] && !Supplies(Joined(pieces), c.initial.missing)
    ensures Feed(c, pieces).code.Rejects() && !Supplied(c, pieces)
    decreases |pieces|
  {
    hide Frames, Pending, Loop;
    LoopKeeps(c, pieces[0]);
    if pieces[0] != [] {
      Undersupplied(c, pieces[0]);
    } else {
      WaitsForHead(c);
      assert [] + Joined(pieces[1..]) == Joined(pieces[1..]);
      ShortRest(c, pieces[1..]);
    }
  }

  lemma WaitsForHead(c: Core)
    requires Sound(c) && c.initial.missing > 0
    ensures Loop(c, []) == Outcome(Continue, c, [])
  {
    hide Frames, Pending;
  }

  // What the first piece and the rest say about the whole, when the validator waits in between:
  // it answers on the whole what it answers on the rest, or refuses the whole.
  lemma {:induction false} FirstAndRest(c: Core, a: seq<byte>, rest: seq<byte>)
    requires Sound(c) && Supplies(a, c.initial.missing) && Loop(c, a).code == Continue
    ensures var o, w := Loop(c, a), Loop(c, a + rest);
            && Sound(o.core)
            && (!Clean(c, a) && rest != [] ==> w.code.Rejects())
            && ((Clean(c, a) || rest == []) && Supplies(rest, o.core.initial.missing) ==> Agree(w, Loop(o.core, rest)))
  {
    hide Frames, Pending, Loop, Clean;
    TwoPieces(c, a, rest);
    if rest == [] {
      assert a + rest == a;
      WaitsOn(c, a);
      LoopKeeps(c, a);
    }
  }

  // Of an input that is not refused as a whole, the validator makes the same of its pieces,
  // exactly when each head that a piece ends in is completed by the next one; else it refuses.
  lemma {:induction false} PiecesOfAccepted(c: Core, pieces: seq<seq<byte>>)
    requires Sound(c) && pieces != [] && !Loop(c, Joined(pieces)).code.Rejects()
    ensures if Supplied(c, pieces) then Feed(c, pieces) == Loop(c, Joined(pieces)) else Feed(c, pieces).code.Rejects()
    decreases |pieces|
  {
    hide Loop, Frames, Pending, Clean;
    var a, rest := pieces[0], Joined(pieces[1..]);
    var o := Loop(c, a);
    LoopKeeps(c, a);
    if !Supplies(a, c.initial.missing) {
      Undersupplied(c, a);
    } else if o.code != Continue {
      TwoPieces(c, a, rest);
    } else if |pieces| == 1 {
      assert rest == [] && a + rest == a;
    } else {
      FirstAndRest(c, a, rest);
      if Supplies(rest, o.core.initial.missing) {
        PiecesOfAccepted(o.core, pieces[1..]);
      } else {
        ShortRest(o.core, pieces[1..]);
      }
    }
  }

  // Of pieces that are not refused, the validator makes what it makes of the whole, exactly when
  // no piece that ends in a head has used up a container before the input ends; else the whole
  // is refused.
  lemma {:induction false} AcceptedPieces(c: Core, pieces: seq<seq<byte>>)
    requires Sound(c) && pieces != [] && !Feed(c, pieces).code.Rejects()
    ensures if Undamaged(c, pieces) then Feed(c, pieces) == Loop(c, Joined(pieces))
            else Loop(c, Joined(pieces)).code.Rejects()
    decreases |pieces|
  {
    hide Loop, Frames, Pending, Clean;
    var a, rest := pieces[0], Joined(pieces[1..]);
    var o := Loop(c, a);
    LoopKeeps(c, a);
    if !Supplies(a, c.initial.missing) {
      Undersupplied(c, a);
      assert false;
    } else if o.code != Continue {
      TwoPieces(c, a, rest);
    } else if |pieces| == 1 {
      assert rest == [] && a + rest == a;
    } else {
      FirstAndRest(c, a, rest);
      if !Supplies(rest, o.core.initial.missing) {
        ShortRest(o.core, pieces[1..]);
        assert false;
      }
      AcceptedPieces(o.core, pieces[1..]);
    }
  }

  // When it matters how the input is cut into pieces: unless both are refused, the answers on
  // the pieces and on the whole input agree exactly when every split head is completed by the
  // next bytes and no split head has used up a container before the input ends.
  lemma {:induction false} PiecesDoNotMatter(c: Core, pieces: seq<seq<byte>>)
    requires Sound(c) && pieces != []
    ensures var fed, whole := Feed(c, pieces), Loop(c, Joined(pieces));
            && (Agree(whole, fed)
                <==> (whole.code.Rejects() && fed.code.Rejects()) || (Supplied(c, pieces) && Undamaged(c, pieces)))
            && (!whole.code.Rejects() ==> (Agree(whole, fed) <==> Supplied(c, pieces)))
            && (!fed.code.Rejects() ==> (Agree(whole, fed) <==> Undamaged(c, pieces)))
  {
    hide Loop, Feed, Frames, Pending, Supplied, Undamaged, Joined;
    if !Loop(c, Joined(pieces)).code.Rejects() {
      PiecesOfAccepted(c, pieces);
    }
    if !Feed(c, pieces).code.Rejects() {
      AcceptedPieces(c, pieces);
      SuppliedIfAccepted(c, pieces);
    }
  }

  lemma {:induction false} SuppliedIfAccepted(c: Core, pieces: seq<seq<byte>>)
    requires Sound(c) && pieces != [] && !Feed(c, pieces).code.Rejects()
    ensures Supplied(c, pieces)
    decreases |pieces|
  {
    hide Loop, Frames, Pending;
    var o := Loop(c, pieces[0]);
    LoopKeeps(c, pieces[0]);
    if !Supplies(pieces[0], c.initial.missing) {
      Undersupplied(c, pieces[0]);
      assert false;
    }
    if |pieces| > 1 && o.code == Continue {
      SuppliedIfAccepted(o.core, pieces[1..]);
    }
  }

  /** Heads are only split outside every container, and completed by the next bytes. */
  predicate SplitOutside(c: Core, pieces: seq<seq<byte>>)
    requires Sound(c) && pieces != []
    decreases |pieces|
  {
    var o := Loop(c, pieces[0]);
    LoopKeeps(c, pieces[0]);
    && Supplies(pieces[0], c.initial.missing)
    && (|pieces| > 1 && o.code == Continue ==>
          (o.core.initial.missing > 0 ==> LastCore(c, pieces[0]).stack == []) && SplitOutside(o.core, pieces[1..]))
  }

  // Then the pieces do not matter.
  lemma {:induction false} SplitOutsideAgrees(c: Core, pieces: seq<seq<byte>>)
    requires Sound(c) && pieces != [] && SplitOutside(c, pieces)
    ensures Supplied(c, pieces) && Undamaged(c, pieces)
    ensures Agree(Loop(c, Joined(pieces)), Feed(c, pieces))
    decreases |pieces|
  {
    hide Loop, Frames, Pending, Clean, LastCore, Feed;
    var o := Loop(c, pieces[0]);
    LoopKeeps(c, pieces[0]);
    if |pieces| > 1 && o.code == Continue {
      CleanOutside(c, pieces[0]);
      SplitOutsideAgrees(o.core, pieces[1..]);
    }
    PiecesDoNotMatter(c, pieces);
  }

  // Only a head that has used up a container is unclean.
  lemma {:induction false} CleanOutside(c: Core, input: seq<byte>)
    requires Sound(c) && Loop(c, input).code == Continue
    requires Loop(c, input).core.initial.missing > 0 ==> LastCore(c, input).stack == []
    ensures Clean(c, input)
    decreases |input|, if c.sliceMode then 1 else 0
  {
    hide NextStep, Frames, Pending, Loop, LastCore;
    StepKeeps(c, input);
    LoopStep(c, input);
    LastCoreStep(c, input);
    var step := NextStep(c, input);
    if step.Go? {
      CleanOutside(step.core, step.rest);
    } else {
      CleanStop(c, input);
    }
  }

  lemma CleanStop(c: Core, input: seq<byte>)
    requires Sound(c) && NextStep(c, input).Stop? && NextStep(c, input).out.code == Continue
    requires NextStep(c, input).out.core.initial.missing > 0 ==> c.stack == []
    ensures |NextStep(c, input).out.core.stack| == |c.stack|
  {
    hide Pending, Frames, HeadStep, SliceStep;
    if c.sliceMode {
      SliceWaits(c, input);
      SliceSplit(c, input, []);
    } else if input != [] {
      HeadStopped(c, input);
    }
  }

  lemma HeadStopped(c: Core, input: seq<byte>)
    requires Sound(c) && !c.sliceMode && input != []
    requires HeadStep(c, input).Stop? && HeadStep(c, input).out.code == Continue
    ensures var d := HeadStep(c, input).out.core; d.initial.missing > 0 && |d.stack| <= |c.stack|
  {
    hide Shrink, Maps, DecodeHead, CheckHead, Pending, Open;
    DecodeHeadPending(c.initial, input);
    var (i, rest) := DecodeHead(c.initial, input);
    var n := |input| - |rest|;
    if c.stack == [] || Last(c.stack).value >= n {
      var e := Counted(c.(initial := i, length := Minus(c.length, n)));
      ShrinkKeeps(e.stack, e.mapCounts, n, i.TypeHasSlice()) by { if c.stack != [] { LastIsLeast(c.stack); } }
    }
  }

  /** A validator that has read nothing. */
  function Fresh(useLength: bool, length: u64, useEndMarker: bool): (c: Core)
    ensures Sound(c)
  {
    Core([], [], length, useLength, useEndMarker, false, ZERO_INITIAL)
  }

  // The head of an array of one byte.
  lemma ShortArrayHead(rest: seq<byte>)
    ensures var bs := [0x81] + rest; var i := InitialDecode(1, TYPE_ARRAY, 0, 0);
            ReadHead(ZERO_INITIAL, bs) == (i, rest) && CheckHead(ZERO_INITIAL, bs) == Done
  {
    hide Absorb;
    assert ([0x81] + rest)[1..] == rest;
    assert TypeOf(0x81) == TYPE_ARRAY && LowBits(0x81) == 1;
  }

  // The first byte of a scalar that misses one more, and the second.
  lemma SplitScalarHead(prev: InitialDecode)
    requires prev.missing == 0
    ensures var half, whole := InitialDecode(0, TYPE_UINT, 1, 1), InitialDecode(24, TYPE_UINT, 0, 1);
            && ReadHead(prev, [0xF8]) == (half, []) && CheckHead(prev, [0xF8]) == Continue
            && ReadHead(prev, [0xF8, 0x18]) == (whole, []) && CheckHead(prev, [0xF8, 0x18]) == Done
            && DecodeHead(half, [0x18]) == (whole, []) && CheckHead(half, [0x18]) == Done
  {
    assert TypeOf(0xF8) == TYPE_UINT && LowBits(0xF8) == 24;
    var half, whole := InitialDecode(0, TYPE_UINT, 1, 1), InitialDecode(24, TYPE_UINT, 0, 1);
    assert [0xF8][1..] == [] && [0xF8, 0x18][1..] == [0x18] && [0x18][1..] == [];
    assert Absorb(half, [0x18]) == Absorb(whole, []) == (whole, []);
  }

  lemma TwoJoined(a: seq<byte>, b: seq<byte>)
    ensures Joined([a, b]) == a + b
  {
    assert [a, b][1..] == [b] && [b][1..] == [];
    assert Joined([b]) == b + Joined([]);
    assert b + [] == b;
  }

  lemma TwoFed(c: Core, a: seq<byte>, b: seq<byte>)
    requires Sound(c) && Loop(c, a).code == Continue && Sound(Loop(c, a).core)
    ensures Feed(c, [a, b]).code == Loop(Loop(c, a).core, b).code
  {
    hide Loop, Frames, Pending;
    assert [a, b][1..] == [b];
  }

  // A scalar of three bytes, whole and after its first byte.
  lemma LongScalarHead()
    ensures var bs, i := [0xFC, 0x04, 0x00], InitialDecode(0x400, TYPE_UINT, 0, 2);
            ReadHead(ZERO_INITIAL, bs) == (i, []) && CheckHead(ZERO_INITIAL, bs) == Done
    ensures ReadHead(ZERO_INITIAL, [0xFC]) == (InitialDecode(0, TYPE_UINT, 2, 2), [])
  {
    hide Absorb, ReadHead, CheckHead;
    var first, second := InitialDecode(0, TYPE_UINT, 2, 2), InitialDecode(4, TYPE_UINT, 1, 2);
    var whole := InitialDecode(0x400, TYPE_UINT, 0, 2);
    assert TypeOf(0xFC) == TYPE_UINT && LowBits(0xFC) == 28 && LongHead(TYPE_UINT, 4) == first;
    assert [0xFC][1..] == [] && [0xFC, 0x04, 0x00][1..] == [0x04] + [0x00] && [0x00] == [0x00] + [];
    AbsorbNone(first);
    AbsorbNone(whole);
    AbsorbOne(first, 0x04, [0x00]);
    AbsorbOne(second, 0x00, []);
    HeadParts(ZERO_INITIAL, [0xFC]);
    HeadParts(ZERO_INITIAL, [0xFC, 0x04, 0x00]);
    CheckParts(ZERO_INITIAL, [0xFC, 0x04, 0x00]);
  }

  lemma AbsorbNone(i: InitialDecode)
    ensures Absorb(i, []) == (i, [])
  {
  }

  lemma AbsorbOne(i: InitialDecode, b: byte, rest: seq<byte>)
    requires i.missing > 0
    ensures Absorb(i, [b] + rest) == Absorb(i.(value := Shift(i.value, b), missing := i.missing - 1), rest)
  {
    hide Shift;
    assert ([b] + rest)[1..] == rest;
  }

  // A head in three pieces is accepted whole and refused in pieces.
  lemma {:induction false} UndersuppliedPieces()
    ensures var c, pieces := Fresh(true, 3, false), [[0xFC], [0x04], [0x00]];
            Loop(c, Joined(pieces)).code == Done && Feed(c, pieces).code.Rejects()
  {
    hide ReadHead, CheckHead, Absorb, Loop, Pending, Feed, Joined, HeadStep, Run, Frames, Supplied;
    var c, pieces := Fresh(true, 3, false), [[0xFC], [0x04], [0x00]];
    var whole := [0xFC, 0x04, 0x00];
    LongScalarHead();
    ThreeJoined([0xFC], [0x04], [0x00]);
    assert [0xFC] + ([0x04] + [0x00]) == whole;
    assert whole + [] == whole && whole[3..] == [];
    ExactAcceptance(c, whole, []);
    RunFirst(Outermost, false, whole, false, ReadHead(ZERO_INITIAL, whole).0, 3);
    RunEmpty(Outermost, false, false);
    PiecesOfAccepted(c, pieces);
    NotSupplied(c, pieces);
  }

  lemma ThreeJoined(x: seq<byte>, y: seq<byte>, z: seq<byte>)
    ensures Joined([x, y, z]) == x + (y + z)
  {
    assert [x, y, z][1..] == [y, z];
    TwoJoined(y, z);
  }

  lemma {:induction false} NotSupplied(c: Core, pieces: seq<seq<byte>>)
    requires c == Fresh(true, 3, false) && pieces == [[0xFC], [0x04], [0x00]]
    ensures !Supplied(c, pieces)
  {
    hide ReadHead, CheckHead, Absorb, Loop, Pending, HeadStep, Frames;
    LongScalarHead();
    Fragment(c, [0xFC]);
    LoopStep(c, [0xFC]);
    assert Loop(c, [0xFC]).code == Continue && Loop(c, [0xFC]).core.initial.missing == 2;
    LoopKeeps(c, [0xFC]);
    assert pieces[1..][0] == [0x04];
  }

  // A head that fills its container may be accepted in two pieces and refused in one: an array
  // of one byte, which is the first of a two-byte scalar.
  lemma {:induction false} HarmfulPieces()
    ensures var c, pieces := Fresh(true, 3, false), [[0x81, 0xF8], [0x18]];
            Feed(c, pieces).code == Done && Loop(c, Joined(pieces)).code.Rejects()
  {
    hide ReadHead, CheckHead, Absorb, Loop, Pending, Feed, Joined, HeadStep;
    var c := Fresh(true, 3, false);
    var i := InitialDecode(1, TYPE_ARRAY, 0, 0);
    var d := c.(stack := [i], length := 2, initial := i);
    var e := c.(length := 1, initial := InitialDecode(0, TYPE_UINT, 1, 1));
    HarmfulFirst(c, d);
    HarmfulSecond(d, e);
    HarmfulLast(e);
    var whole: seq<byte> := [0x81] + [0xF8, 0x18];
    TwoJoined([0x81, 0xF8], [0x18]);
    assert [0x81] + [0xF8] == [0x81, 0xF8] && [0x81, 0xF8] + [0x18] == whole;
    LoopStep(c, [0x81, 0xF8]);
    LoopStep(d, [0xF8]);
    LoopStep(e, [0x18]);
    TwoFed(c, [0x81, 0xF8], [0x18]);
    LoopStep(c, whole);
    LoopStep(d, [0xF8, 0x18]);
  }

  lemma HarmfulFirst(c: Core, d: Core)
    requires c == Fresh(true, 3, false)
    requires var i := InitialDecode(1, TYPE_ARRAY, 0, 0); d == c.(stack := [i], length := 2, initial := i)
    ensures Sound(d)
    ensures forall rest :: rest == [0xF8] || rest == [0xF8, 0x18] ==> HeadStep(c, [0x81] + rest) == Go(d, rest)
  {
    hide ReadHead, CheckHead, Absorb, Pending;
    ShortArrayHead([0xF8]);
    ShortArrayHead([0xF8, 0x18]);
    HeadStepKeeps(c, [0x81] + [0xF8]);
    assert Lower([], 1) == [];
  }

  lemma {:induction false} HarmfulSecond(d: Core, e: Core)
    requires Sound(d) && d.stack == [InitialDecode(1, TYPE_ARRAY, 0, 0)] && d.mapCounts == [] && d.length == 2
    requires d.useLength && !d.useEndMarker && !d.sliceMode && d.initial == d.stack[0]
    requires e == d.(stack := [], length := 1, initial := InitialDecode(0, TYPE_UINT, 1, 1))
    ensures Sound(e) && HeadStep(d, [0xF8]) == Stop(Outcome(Continue, e, []))
    ensures HeadStep(d, [0xF8, 0x18]).Stop? && HeadStep(d, [0xF8, 0x18]).out.code.Rejects()
  {
    hide ReadHead, CheckHead, Absorb, Pending, Shrink;
    SplitScalarHead(d.initial);
    HeadStepKeeps(d, [0xF8]);
    ShrinkClose(d.stack, [], 1, false);
    ShrinkOpen([], [], 1, false);
    assert Front(d.stack) == [] && Lower([], 1) == [];
  }

  lemma HarmfulLast(e: Core)
    requires Sound(e) && e.stack == [] && e.mapCounts == [] && e.length == 1 && e.useLength && !e.useEndMarker
    requires e.initial == InitialDecode(0, TYPE_UINT, 1, 1)
    ensures HeadStep(e, [0x18]).Stop? && HeadStep(e, [0x18]).out.code == Done && HeadStep(e, [0x18]).out.rest == []
  {
    hide CheckHead, DecodeHead, Pending, Consume, Frames;
    SecondByte();
    HarmfulEnd(e.(initial := InitialDecode(24, TYPE_UINT, 0, 1)));
  }

  lemma SecondByte()
    ensures var half, whole := InitialDecode(0, TYPE_UINT, 1, 1), InitialDecode(24, TYPE_UINT, 0, 1);
            DecodeHead(half, [0x18]) == (whole, []) && CheckHead(half, [0x18]) == Done
  {
    hide ReadHead;
    SplitScalarHead(ZERO_INITIAL);
  }

  lemma HarmfulEnd(c: Core)
    requires c.stack == [] && c.mapCounts == [] && c.length == 1 && c.useLength
    requires c.initial == InitialDecode(24, TYPE_UINT, 0, 1)
    ensures Consume(c, 1, []).Stop? && Consume(c, 1, []).out.code == Done && Consume(c, 1, []).out.rest == []
  {
    hide Shrink;
    ShrinkOpen([], [], 1, false);
    assert Lower([], 1) == [];
  }
}
