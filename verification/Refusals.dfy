/** What the codes say with which the validator refuses its input. */
module Refusals {
  import opened Basics
  import opened Values
  import opened Heads
  import opened Validator
  import opened Acceptance
  import opened LengthMode
  import opened Chunking

  /** The bytes that are unread before the last step of a run. */
  function LastInput(c: Core, input: seq<byte>): seq<byte>
    requires Sound(c)
    decreases |input|, if c.sliceMode then 1 else 0
  {
    StepKeeps(c, input);
    var step := NextStep(c, input);
    if step.Stop? then input else LastInput(step.core, step.rest)
  }

  /** The bytes that the last step takes: of a leaf, or of a head. */
  function Taken(c: Core, input: seq<byte>): nat
    requires Sound(c) && (c.sliceMode || input != [])
  {
    if c.sliceMode then Min(Last(c.stack).value, |input|) else |input| - |DecodeHead(c.initial, input).1|
  }

  predicate OddMaps(c: Core) {
    exists k :: 0 <= k < |c.stack| && IsMap(c.stack[k])
  }

  /** Why the last step, in state `c` on these unread bytes, refuses them with the code. */
  predicate Explains(c: Core, input: seq<byte>, code: Code)
    requires Sound(c)
  {
    code.Rejects() ==>
      && (c.sliceMode || input != [])
      && var n := Taken(c, input);
      match code
      case InvalidUtf8 => c.sliceMode && Last(c.stack).typ == TYPE_TEXT && exists k :: 0 <= k < n && input[k] >= 0xF8
      case TotalLengthExceededSlice => c.sliceMode && c.useLength && c.length < n
      case TotalLengthExceededInitialDecode => !c.sliceMode && c.useLength && c.length < n
      case NestedLengthExceededInitialDecode => !c.sliceMode && c.stack != [] && Last(c.stack).value < n
      case NestedLengthExceededTopOfStackComplete =>
        !c.sliceMode && c.stack != [] && Last(c.stack).value == n && DecodeHead(c.initial, input).0.TypeHasSlice()
      case NestedLengthExceededAppendToStack =>
        !c.sliceMode && c.stack != [] && n < Last(c.stack).value < n + DecodeHead(c.initial, input).0.value
      case MapCountOdd => OddMaps(c) && Last(c.stack).value == n
      case NonCanonicalInitialDecode => !c.sliceMode && CheckHead(c.initial, input) == NonCanonicalInitialDecode
      case _ => true
  }

  // Closing frames fails at a frame that a head with bytes of its own fills, or at an odd map.
  lemma {:induction false} ShrinkExplains(stack: seq<InitialDecode>, counts: seq<u32>, n: nat, refuse: bool)
    requires Falling(stack) && AtLeast(stack, n) && |counts| == Maps(stack)
    ensures match Shrink(stack, counts, n, refuse).code
            case Done => true
            case MapCountOdd => stack != [] && Last(stack).value == n && exists k :: 0 <= k < |stack| && IsMap(stack[k])
            case NestedLengthExceededTopOfStackComplete => refuse && stack != [] && Last(stack).value == n
            case _ => false
    decreases |stack|
  {
    if stack != [] && Last(stack).value == n && !refuse {
      if IsMap(Last(stack)) && Last(counts) % 2 == 1 {
        assert IsMap(stack[|stack| - 1]);
      } else {
        ShrinkExplains(Front(stack), Closed(stack, counts), n, refuse);
        assert forall k :: 0 <= k < |Front(stack)| ==> Front(stack)[k] == stack[k];
      }
    }
  }

  // Why accounting for `n` bytes of a head fails.
  lemma ConsumeExplains(c: Core, n: nat, rest: seq<byte>)
    requires Frames(c.stack, c.mapCounts, false) && n <= 5
    ensures Consume(c, n, rest).Stop? && Consume(c, n, rest).out.code.Rejects() ==>
              match Consume(c, n, rest).out.code
              case TotalLengthExceededInitialDecode => c.useLength && c.length < n
              case NestedLengthExceededInitialDecode => c.stack != [] && Last(c.stack).value < n
              case NestedLengthExceededTopOfStackComplete =>
                c.stack != [] && Last(c.stack).value == n && c.initial.TypeHasSlice()
              case NestedLengthExceededAppendToStack =>
                c.stack != [] && n < Last(c.stack).value < n + c.initial.value
              case MapCountOdd => OddMaps(c) && Last(c.stack).value == n
              case _ => false
  {
    hide Shrink, Maps, Open, Settle, Falling;
    if c.stack == [] || Last(c.stack).value >= n {
      var e := Counted(c.(length := Minus(c.length, n)));
      if c.stack != [] {
        LastIsLeast(c.stack);
      }
      var refuse := e.initial.TypeHasSlice();
      ShrinkExplains(e.stack, e.mapCounts, n, refuse);
      if c.stack != [] && Last(c.stack).value == n {
        ShrinkClose(e.stack, e.mapCounts, n, refuse);
      } else {
        ShrinkOpen(e.stack, e.mapCounts, n, refuse);
      }
      var r := Shrink(e.stack, e.mapCounts, n, refuse);
      SettleExplains(e.(stack := r.stack, mapCounts := r.counts), rest);
    }
  }

  lemma SettleExplains(c: Core, rest: seq<byte>)
    ensures Settle(c, rest).Stop? && Settle(c, rest).out.code.Rejects() ==>
              && Settle(c, rest).out.code == NestedLengthExceededAppendToStack && c.initial.TypeHasSlice()
              && c.stack != [] && Last(c.stack).value < c.initial.value
  {
  }

  lemma HeadExplains(c: Core, input: seq<byte>)
    requires Sound(c) && !c.sliceMode && input != []
    ensures HeadStep(c, input).Stop? ==> Explains(c, input, HeadStep(c, input).out.code)
  {
    hide DecodeHead, Pending, Frames, Consume, CheckHead;
    DecodeHeadPending(c.initial, input);
    var (i, rest) := DecodeHead(c.initial, input);
    CheckCodes(c.initial, input);
    ConsumeExplains(c.(initial := i), |input| - |rest|, rest);
  }

  lemma CheckCodes(i: InitialDecode, input: seq<byte>)
    requires i.missing > 0 || input != []
    ensures CheckHead(i, input).Rejects() ==> CheckHead(i, input) == NonCanonicalInitialDecode
  {
    hide Absorb, ReadHead;
  }

  lemma SliceExplains(c: Core, input: seq<byte>)
    requires Sound(c) && c.sliceMode
    ensures SliceStep(c, input).Stop? ==> Explains(c, input, SliceStep(c, input).out.code)
  {
    hide Shrink, Maps, Pending, TextBytes;
    LastIsLeast(c.stack);
    TextBelowFront(input, Min(Last(c.stack).value, |input|));
    ShrinkExplains(c.stack, c.mapCounts, Min(Last(c.stack).value, |input|), false);
  }

  // Every refusal has its cause, in the state and the bytes before the last step: a byte that no
  // text has, a head that is not the shortest, bytes beyond the declared total or beyond the
  // innermost container, an item that does not fit behind its head, or a map to be closed.
  lemma {:induction false} RefusalCauses(c: Core, input: seq<byte>)
    requires Sound(c)
    ensures Sound(LastCore(c, input)) && Explains(LastCore(c, input), LastInput(c, input), Loop(c, input).code)
    decreases |input|, if c.sliceMode then 1 else 0
  {
    hide NextStep, Frames, Pending, Loop, LastCore, Explains, LastInput;
    StepKeeps(c, input);
    LoopStep(c, input);
    LastCoreStep(c, input);
    LastInputStep(c, input);
    var step := NextStep(c, input);
    if step.Go? {
      RefusalCauses(step.core, step.rest);
    } else {
      StopExplains(c, input);
    }
  }

  lemma LastInputStep(c: Core, input: seq<byte>)
    requires Sound(c)
    ensures NextStep(c, input).Go? ==> Sound(NextStep(c, input).core)
    ensures LastInput(c, input)
         == if NextStep(c, input).Stop? then input else LastInput(NextStep(c, input).core, NextStep(c, input).rest)
  {
    StepKeeps(c, input);
  }

  lemma StopExplains(c: Core, input: seq<byte>)
    requires Sound(c) && NextStep(c, input).Stop?
    ensures Explains(c, input, NextStep(c, input).out.code)
  {
    hide HeadStep, SliceStep, Frames, Pending;
    if c.sliceMode {
      SliceExplains(c, input);
    } else if input != [] {
      HeadExplains(c, input);
    }
  }
}
