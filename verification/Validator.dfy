/** The streaming validator: a machine with an explicit stack of open containers. */
module Validator {
  import opened Basics
  import opened Values
  import opened Heads

  /** The validator's state between two reads. The values of the stacked heads count down the
      bytes their containers still expect. */
  datatype Core = Core(stack: seq<InitialDecode>, mapCounts: seq<u32>, length: u64,
                       useLength: bool, useEndMarker: bool, sliceMode: bool, initial: InitialDecode)

  datatype Outcome = Outcome(code: Code, core: Core, rest: seq<byte>)

  datatype Step = Stop(out: Outcome) | Go(core: Core, rest: seq<byte>)

  function Last<T>(s: seq<T>): T
    requires s != []
  {
    s[|s| - 1]
  }

  function Front<T>(s: seq<T>): seq<T>
    requires s != []
  {
    s[..|s| - 1]
  }

  // ------------------------------------------------------------- the invariant

  predicate IsMap(i: InitialDecode) {
    i.typ == TYPE_MAP
  }

  function Maps(stack: seq<InitialDecode>): nat {
    if stack == [] then 0 else Maps(Front(stack)) + if IsMap(Last(stack)) then 1 else 0
  }

  /** Remaining lengths do not increase from the bottom of the stack to its top. */
  predicate Falling(stack: seq<InitialDecode>) {
    forall i, j :: 0 <= i <= j < |stack| ==> stack[j].value <= stack[i].value
  }

  /** Every frame but the top one is an open container that expects more bytes. */
  predicate Open(stack: seq<InitialDecode>) {
    forall i :: 0 <= i < |stack| - 1 ==> stack[i].TypeHasNesting() && stack[i].value > 0
  }

  /** A head that is being read has room for the bytes it misses, and the bytes it already
      has are too few to spell a value that would need all of them. */
  predicate Pending(i: InitialDecode) {
    && Roomy(i) && i.missing <= i.extra
    && (i.missing > 0 ==> i.extra <= 4)
    && (i.missing > 0 && i.extra == 2 ==> (if i.missing == 2 then i.value < 2 else i.value < 0x200))
    && (i.missing > 0 && i.extra == 3 ==>
          (if i.missing == 3 then i.value < 1 else if i.missing == 2 then i.value < 0x100 else i.value < 0x1_0000))
  }

  /** The stack holds frames of containers, with a count for every map; in slice mode the top
      frame is that of a leaf. */
  predicate Frames(stack: seq<InitialDecode>, counts: seq<u32>, sliceMode: bool) {
    && Falling(stack) && Open(stack) && |counts| == Maps(stack)
    && (if stack == [] then !sliceMode
        else Last(stack).TypeHasSlice() && (sliceMode <==> !Last(stack).TypeHasNesting()))
  }

  predicate Sound(c: Core) {
    && Frames(c.stack, c.mapCounts, c.sliceMode)
    && Pending(c.initial)
    && (c.initial.missing > 0 ==> !c.sliceMode)
  }

  // ------------------------------------------------------------ closing frames

  predicate AtLeast(stack: seq<InitialDecode>, n: int) {
    forall k :: 0 <= k < |stack| ==> n <= stack[k].value
  }

  /** Every frame has consumed `n` more bytes. */
  function Lower(stack: seq<InitialDecode>, n: nat): (r: seq<InitialDecode>)
    requires AtLeast(stack, n)
    ensures |r| == |stack|
    ensures forall k :: 0 <= k < |r| ==> r[k] == stack[k].(value := stack[k].value - n)
  {
    seq(|stack|, k requires 0 <= k < |stack| => stack[k].(value := stack[k].value - n))
  }

  /** One more item in the innermost open map; the count is a 32-bit word. */
  function Bump(counts: seq<u32>): seq<u32>
    requires counts != []
  {
    counts[|counts| - 1 := if Last(counts) == MAX_U32 then 0 else Last(counts) + 1]
  }

  datatype Shrunk = Shrunk(code: Code, stack: seq<InitialDecode>, counts: seq<u32>)

  /** All frames consume `n` bytes; those that are used up are closed, from the top down. */
  function Shrink(stack: seq<InitialDecode>, counts: seq<u32>, n: nat, refuse: bool): Shrunk
    requires Falling(stack) && AtLeast(stack, n) && |counts| == Maps(stack)
  {
    if stack == [] then Shrunk(Done, stack, counts)
    else if Last(stack).value > n then Shrunk(Done, Lower(stack, n), counts)
    else if refuse then Shrunk(NestedLengthExceededTopOfStackComplete, Zeroed(stack), counts)
    else if IsMap(Last(stack)) && Last(counts) % 2 == 1 then Shrunk(MapCountOdd, Zeroed(stack), counts)
    else Shrink(Front(stack), Closed(stack, counts), n, refuse)
  }

  function Zeroed(stack: seq<InitialDecode>): seq<InitialDecode>
    requires stack != []
  {
    stack[|stack| - 1 := Last(stack).(value := 0)]
  }

  /** The map counts when the top frame closes: its own goes, and its parent gains an item. */
  function Closed(stack: seq<InitialDecode>, counts: seq<u32>): (r: seq<u32>)
    requires stack != [] && |counts| == Maps(stack)
    ensures |r| == Maps(Front(stack))
  {
    var outer := if IsMap(Last(stack)) then Front(counts) else counts;
    assert Maps(Front(stack)) == |outer|;
    if |stack| > 1 && IsMap(Last(Front(stack))) then Bump(outer) else outer
  }

  lemma {:induction false} LowerMaps(stack: seq<InitialDecode>, n: nat)
    requires AtLeast(stack, n)
    ensures Maps(Lower(stack, n)) == Maps(stack)
  {
    if stack != [] {
      LowerMaps(Front(stack), n);
      assert Front(Lower(stack, n)) == Lower(Front(stack), n);
    }
  }

  lemma ShrinkOpen(stack: seq<InitialDecode>, counts: seq<u32>, n: nat, refuse: bool)
    requires Falling(stack) && AtLeast(stack, n) && |counts| == Maps(stack)
    requires stack == [] || Last(stack).value > n
    ensures Shrink(stack, counts, n, refuse) == Shrunk(Done, Lower(stack, n), counts)
  {
  }

  lemma ShrinkClose(stack: seq<InitialDecode>, counts: seq<u32>, n: nat, refuse: bool)
    requires Falling(stack) && AtLeast(stack, n) && |counts| == Maps(stack)
    requires stack != [] && Last(stack).value == n
    ensures Shrink(stack, counts, n, refuse) ==
      if refuse then Shrunk(NestedLengthExceededTopOfStackComplete, Zeroed(stack), counts)
      else if IsMap(Last(stack)) && Last(counts) % 2 == 1 then Shrunk(MapCountOdd, Zeroed(stack), counts)
      else Shrink(Front(stack), Closed(stack, counts), n, refuse)
  {
  }

  lemma MapsUnfold(stack: seq<InitialDecode>)
    ensures stack == [] ==> Maps(stack) == 0
    ensures stack != [] ==> Maps(stack) == Maps(Front(stack)) + if IsMap(Last(stack)) then 1 else 0
  {
  }

  // What is left of the stack is its lower part, each frame `n` bytes further and still open.
  lemma {:induction false} ShrinkKeeps(stack: seq<InitialDecode>, counts: seq<u32>, n: nat, refuse: bool)
    requires Falling(stack) && AtLeast(stack, n) && |counts| == Maps(stack)
    ensures Shrink(stack, counts, n, refuse).code != Continue
    ensures var r := Shrink(stack, counts, n, refuse);
            r.code == Done ==>
              && |r.stack| <= |stack|
              && AtLeast(stack[..|r.stack|], n + 1)
              && r.stack == Lower(stack[..|r.stack|], n)
              && |r.counts| == Maps(r.stack)
              && (|r.stack| < |stack| ==> stack[|r.stack|].value == n)
  {
    if stack == [] {
    } else if Last(stack).value > n {
      assert stack[..|stack|] == stack;
      LowerMaps(stack, n);
    } else if !refuse && !(IsMap(Last(stack)) && Last(counts) % 2 == 1) {
      ShrinkKeeps(Front(stack), Closed(stack, counts), n, refuse);
      var r := Shrink(stack, counts, n, refuse);
      if r.code == Done {
        assert Front(stack)[..|r.stack|] == stack[..|r.stack|];
      }
    }
  }

  // ------------------------------------------------------------------ the steps

  /** 64-bit subtraction. */
  function Minus(a: u64, n: nat): u64
    requires n < TWO_TO_THE_32
  {
    if n <= a then a - n else a - n + TWO_TO_THE_64
  }

  /** An item that is complete with its head counts in the map that holds it. */
  function Counted(c: Core): (r: Core)
    requires |c.mapCounts| == Maps(c.stack)
    ensures r == c.(mapCounts := r.mapCounts) && |r.mapCounts| == |c.mapCounts|
  {
    if c.stack != [] && IsMap(Last(c.stack)) && c.initial.missing == 0 && !c.initial.TypeHasSlice()
    then c.(mapCounts := Bump(c.mapCounts)) else c
  }

  predicate Finished(c: Core) {
    c.stack == [] && ((c.useEndMarker && c.initial.IsEndMarker()) || (c.useLength && c.length == 0))
  }

  function HeadStep(c: Core, input: seq<byte>): Step
    requires Sound(c) && !c.sliceMode && input != []
  {
    var (i, rest) := DecodeHead(c.initial, input);
    var code := CheckHead(c.initial, input);
    if code.Rejects() then Stop(Outcome(code, c.(initial := i), rest))
    else Consume(c.(initial := i), |input| - |rest|, rest)
  }

  // A head that starts with this buffer.
  lemma HeadStepFresh(c: Core, input: seq<byte>)
    requires Sound(c) && !c.sliceMode && input != [] && c.initial.missing == 0
    ensures var (i, rest) := ReadHead(c.initial, input);
            HeadStep(c, input)
            == if CheckHead(c.initial, input).Rejects()
               then Stop(Outcome(CheckHead(c.initial, input), c.(initial := i), rest))
               else Consume(c.(initial := i), |input| - |rest|, rest)
  {
    hide ReadHead, CheckHead, Consume, Frames, Pending;
  }

  /** The validator has read `n` bytes of a head; it accounts for them. */
  function Consume(c: Core, n: nat, rest: seq<byte>): Step
    requires Falling(c.stack) && |c.mapCounts| == Maps(c.stack) && n <= 5
  {
    if c.useLength && c.length < n then Stop(Outcome(TotalLengthExceededInitialDecode, c, rest))
    else
      var d := c.(length := Minus(c.length, n));
      if d.stack != [] && Last(d.stack).value < n then Stop(Outcome(NestedLengthExceededInitialDecode, d, rest))
      else
        var e := Counted(d);
        var r := Shrink(e.stack, e.mapCounts, n, e.initial.TypeHasSlice());
        var f := e.(stack := r.stack, mapCounts := r.counts);
        if r.code != Done then Stop(Outcome(r.code, f, rest)) else Settle(f, rest)
  }

  /** What happens once the bytes of a head are accounted for and used up frames are closed. */
  function Settle(c: Core, rest: seq<byte>): Step {
    if c.initial.missing > 0 then Stop(Outcome(Continue, c, rest))
    else if c.initial.TypeHasSlice() then Push(c, rest)
    else if Finished(c) then Stop(Outcome(Done, c, rest))
    else Go(c, rest)
  }

  /** Opens a frame for the item whose head has just been read. */
  function Push(c: Core, rest: seq<byte>): Step {
    var i := c.initial;
    if c.stack != [] && Last(c.stack).value < i.value then Stop(Outcome(NestedLengthExceededAppendToStack, c, rest))
    else
      Go(c.(stack := c.stack + [i],
            mapCounts := if IsMap(i) then c.mapCounts + [0] else c.mapCounts,
            sliceMode := !i.TypeHasNesting()), rest)
  }

  predicate TextByte(b: byte) {
    b < 248
  }

  predicate TextBytes(bs: seq<byte>) {
    forall k :: 0 <= k < |bs| ==> TextByte(bs[k])
  }

  // The bytes that begin no UTF-8 sequence and continue none are those from 0xF8 up.
  lemma TextIsBelow(bs: seq<byte>)
    ensures TextBytes(bs) <==> forall k :: 0 <= k < |bs| ==> bs[k] < 0xF8
  {
    assert forall k :: 0 <= k < |bs| ==> (TextByte(bs[k]) <==> bs[k] < 0xF8);
  }

  lemma TextBelowFront(bs: seq<byte>, n: nat)
    requires n <= |bs|
    ensures TextBytes(bs[..n]) <==> forall k :: 0 <= k < n ==> bs[k] < 0xF8
  {
    TextIsBelow(bs[..n]);
    assert forall k :: 0 <= k < n ==> bs[..n][k] == bs[k];
  }

  lemma TextNothing()
    ensures TextBytes([])
  {
  }

  function Min(a: nat, b: nat): nat {
    if a < b then a else b
  }

  function SliceStep(c: Core, input: seq<byte>): Step
    requires Sound(c) && c.sliceMode
  {
    var top := Last(c.stack);
    var n := Min(top.value, |input|);
    if top.typ == TYPE_TEXT && !TextBytes(input[..n]) then Stop(Outcome(InvalidUtf8, c, input))
    else if c.useLength && c.length < n then Stop(Outcome(TotalLengthExceededSlice, c, input[n..]))
    else
      var r := Shrink(c.stack, c.mapCounts, n, false);
      var d := c.(length := Minus(c.length, n), stack := r.stack, mapCounts := r.counts);
      if r.code != Done then Stop(Outcome(r.code, d, input[n..]))
      else if d.stack == [] && d.useLength && d.length == 0 then Stop(Outcome(Done, d, input[n..]))
      else if top.value > |input| then Stop(Outcome(Continue, d, input[n..]))
      else Go(d.(sliceMode := false), input[n..])
  }

  function NextStep(c: Core, input: seq<byte>): Step
    requires Sound(c)
  {
    if c.sliceMode then SliceStep(c, input)
    else if input == [] then Stop(Outcome(Continue, c, input))
    else HeadStep(c, input)
  }

  /** Runs the validator on a buffer. */
  function Loop(c: Core, input: seq<byte>): Outcome
    requires Sound(c)
    decreases |input|, if c.sliceMode then 1 else 0
  {
    StepKeeps(c, input);
    var step := NextStep(c, input);
    if step.Stop? then step.out else Loop(step.core, step.rest)
  }

  // Absorbing keeps a head that is being read well formed.
  lemma {:induction false} AbsorbPending(i: InitialDecode, input: seq<byte>)
    requires Pending(i)
    ensures Pending(Absorb(i, input).0)
    decreases |input|
  {
    if i.missing > 0 && input != [] {
      AbsorbPending(i.(value := Shift(i.value, input[0]), missing := i.missing - 1), input[1..]);
    }
  }

  lemma DecodeHeadPending(i: InitialDecode, input: seq<byte>)
    requires Pending(i) && (i.missing > 0 || input != [])
    ensures Pending(DecodeHead(i, input).0)
    ensures 0 < |input| ==> |DecodeHead(i, input).1| < |input|
    ensures |input| - |DecodeHead(i, input).1| <= 5
  {
    if i.missing > 0 {
      AbsorbPending(i, input);
    } else if LowBits(input[0]) >= 24 {
      AbsorbPending(LongHead(TypeOf(input[0]), LowBits(input[0]) - 24), input[1..]);
    }
  }

  // Every step keeps the invariant, and steps lead somewhere.
  lemma StepKeeps(c: Core, input: seq<byte>)
    requires Sound(c)
    ensures var step := NextStep(c, input);
            && (step.Go? ==>
                  && Sound(step.core) && |step.rest| <= |input|
                  && (|step.rest| < |input| || (c.sliceMode && !step.core.sliceMode)))
            && (step.Stop? && step.out.code == Continue ==> Sound(step.out.core) && step.out.rest == [])
  {
    hide Shrink, Roomy, Absorb;
    if c.sliceMode {
      SliceStepKeeps(c, input);
    } else if input != [] {
      HeadStepKeeps(c, input);
    }
  }

  // Closing used up frames leaves containers that expect more.
  lemma ShrinkFrames(stack: seq<InitialDecode>, counts: seq<u32>, sliceMode: bool, n: nat, refuse: bool)
    requires Frames(stack, counts, sliceMode) && AtLeast(stack, n)
    ensures var r := Shrink(stack, counts, n, refuse);
            && r.code != Continue
            && (r.code == Done ==>
                  && Frames(r.stack, r.counts, sliceMode && |r.stack| == |stack|)
                  && (r.stack != [] ==> Last(r.stack).value > 0)
                  && (|r.stack| == |stack| <==> stack == [] || Last(stack).value > n))
  {
    hide Shrink, Maps;
    ShrinkKeeps(stack, counts, n, refuse);
    var r := Shrink(stack, counts, n, refuse);
    if r.code == Done {
      ShrunkOpen(stack, r.stack, n);
    }
  }

  // The lower part of an open stack stays open.
  lemma ShrunkOpen(stack: seq<InitialDecode>, lower: seq<InitialDecode>, n: nat)
    requires Falling(stack) && Open(stack) && |lower| <= |stack|
    requires AtLeast(stack[..|lower|], n + 1) && lower == Lower(stack[..|lower|], n)
    ensures Falling(lower) && Open(lower)
    ensures lower != [] ==> Last(lower).typ == stack[|lower| - 1].typ && Last(lower).value > 0
    ensures 0 < |lower| < |stack| ==> Last(lower).TypeHasNesting()
  {
  }

  lemma SliceStepKeeps(c: Core, input: seq<byte>)
    requires Sound(c) && c.sliceMode
    ensures var step := SliceStep(c, input);
            && (step.Go? ==> Sound(step.core) && !step.core.sliceMode && |step.rest| <= |input|)
            && (step.Stop? && step.out.code == Continue ==> Sound(step.out.core) && step.out.rest == [])
  {
    hide Shrink, Pending, Maps;
    ShrinkFrames(c.stack, c.mapCounts, true, Min(Last(c.stack).value, |input|), false);
  }

  lemma HeadStepKeeps(c: Core, input: seq<byte>)
    requires Sound(c) && !c.sliceMode && input != []
    ensures var step := HeadStep(c, input);
            && (step.Go? ==> Sound(step.core) && |step.rest| < |input|)
            && (step.Stop? && step.out.code == Continue ==> Sound(step.out.core) && step.out.rest == [])
  {
    hide Consume, Pending, DecodeHead, CheckHead, Frames;
    DecodeHeadPending(c.initial, input);
    var (i, rest) := DecodeHead(c.initial, input);
    ConsumeKeeps(c.(initial := i), |input| - |rest|, rest);
  }

  lemma ConsumeKeeps(c: Core, n: nat, rest: seq<byte>)
    requires Frames(c.stack, c.mapCounts, false) && !c.sliceMode && Pending(c.initial) && n <= 5
    requires c.initial.missing > 0 ==> rest == []
    ensures var step := Consume(c, n, rest);
            && (step.Go? ==> Sound(step.core) && step.rest == rest)
            && (step.Stop? && step.out.code == Continue ==> Sound(step.out.core) && step.out.rest == [])
  {
    hide Shrink, Pending, Maps, Settle, InitialDecode.TypeHasSlice;
    if c.stack == [] || Last(c.stack).value >= n {
      var e := Counted(c.(length := Minus(c.length, n)));
      ShrinkFrames(e.stack, e.mapCounts, false, n, e.initial.TypeHasSlice());
      var r := Shrink(e.stack, e.mapCounts, n, e.initial.TypeHasSlice());
      if r.code == Done {
        SettleKeeps(e.(stack := r.stack, mapCounts := r.counts), rest);
      }
    }
  }

  lemma {:induction false} SettleKeeps(c: Core, rest: seq<byte>)
    requires Frames(c.stack, c.mapCounts, false) && !c.sliceMode && Pending(c.initial)
    requires c.stack != [] ==> Last(c.stack).value > 0
    ensures var step := Settle(c, rest);
            && (step.Go? ==> Sound(step.core) && step.rest == rest)
            && (step.Stop? && step.out.code == Continue ==>
                  c.initial.missing > 0 && step.out == Outcome(Continue, c, rest) && Sound(c))
  {
    hide Pending, Frames;
    if c.initial.missing == 0 && c.initial.TypeHasSlice() && !(c.stack != [] && Last(c.stack).value < c.initial.value) {
      PushFrames(c.stack, c.mapCounts, c.initial);
    }
  }

  // A frame on top of open containers that expect as much.
  lemma PushFrames(stack: seq<InitialDecode>, counts: seq<u32>, i: InitialDecode)
    requires Frames(stack, counts, false) && i.TypeHasSlice()
    requires stack != [] ==> Last(stack).value > 0 && Last(stack).value >= i.value
    ensures Frames(stack + [i], if IsMap(i) then counts + [0] else counts, !i.TypeHasNesting())
  {
    hide Maps;
    MapsUnfold(stack + [i]);
    assert Front(stack + [i]) == stack;
    assert forall k :: 0 <= k < |stack| ==> Last(stack).value <= stack[k].value;
  }
}
