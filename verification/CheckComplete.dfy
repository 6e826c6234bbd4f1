/** The validator as the program keeps it: fields updated in place while a buffer is read. */
module CheckComplete {
  import opened Basics
  import opened Values
  import opened Heads
  import opened Decoder
  import opened Validator

  class CheckCompleteState {
    const state: DecoderState
    var previousBytesRead: nat
    var initial: InitialDecode
    var stack: seq<InitialDecode>
    var mapCounts: seq<u32>
    var length: u64
    const useLength: bool
    const useEndMarker: bool
    var sliceMode: bool

    function TheCore(): Core
      reads this
    {
      Core(stack, mapCounts, length, useLength, useEndMarker, sliceMode, initial)
    }

    ghost predicate Valid()
      reads this, state
    {
      state.Valid() && Sound(TheCore())
    }

    /** A copy of a state value, about to read its first buffer. */
    constructor (c: Core)
      ensures fresh(state) && state.Valid() && state.data == [] && previousBytesRead == 0 && TheCore() == c
    {
      state := new DecoderState([]);
      previousBytesRead, initial := 0, c.initial;
      stack, mapCounts, length := c.stack, c.mapCounts, c.length;
      useLength, useEndMarker, sliceMode := c.useLength, c.useEndMarker, c.sliceMode;
    }

    function TotalBytesRead(): nat
      reads this, state
    {
      previousBytesRead + state.index
    }

    method SetBuffer(buf: seq<byte>)
      requires |buf| < TWO_TO_THE_32
      modifies this`previousBytesRead, state
      ensures state.Valid() && state.data == buf && state.index == 0
      ensures previousBytesRead == old(previousBytesRead) + |old(state.data)|
    {
      previousBytesRead := previousBytesRead + |state.data|;
      state.data := buf;
      state.index := 0;
    }

    /** The loop that accounts for `n` bytes in every frame and closes those used up. */
    method CloseFrames(n: u32, refuse: bool) returns (code: Code)
      requires Falling(stack) && AtLeast(stack, n) && |mapCounts| == Maps(stack)
      modifies this`stack, this`mapCounts
      ensures Shrunk(code, stack, mapCounts) == Shrink(old(stack), old(mapCounts), n, refuse)
    {
      hide Closing, Shrink, Closed, Zeroed;
      ghost var all, counts := stack, mapCounts;
      ClosingStart(all, counts, n, refuse);
      var i := |stack| - 1;
      while i >= 0
        invariant -1 <= i < |stack|
        invariant Closing(all, counts, n, refuse, stack, mapCounts, i)
      {
        ClosingFits(all, counts, n, refuse, stack, mapCounts, i);
        if stack[i].value != n {
          ClosingKeep(all, counts, n, refuse, stack, mapCounts, i);
          stack := stack[i := stack[i].(value := stack[i].value - n)];
        } else {
          ClosingPop(all, counts, n, refuse, stack, mapCounts, i);
          if refuse {
            stack := Zeroed(stack);
            return NestedLengthExceededTopOfStackComplete;
          }
          if IsMap(stack[i]) && Last(mapCounts) % 2 == 1 {
            stack := Zeroed(stack);
            return MapCountOdd;
          }
          PopFrame();
        }
        i := i - 1;
      }
      ClosingEnd(all, counts, n, refuse, stack, mapCounts);
      code := Done;
    }

    /** Removes the top frame; its parent has one item more. */
    method PopFrame()
      requires stack != [] && |mapCounts| == Maps(stack)
      modifies this`stack, this`mapCounts
      ensures stack == Front(old(stack)) && mapCounts == Closed(old(stack), old(mapCounts))
    {
      MapsUnfold(stack);
      if IsMap(Last(stack)) {
        mapCounts := Front(mapCounts);
      }
      stack := Front(stack);
      if |stack| > 0 && IsMap(Last(stack)) {
        MapsUnfold(stack);
        mapCounts := Bump(mapCounts);
      }
    }

    /** Reads a buffer until it is used up, the input is complete, or the input is refused. */
    method CheckComplete(buf: seq<byte>) returns (code: Code)
      requires Valid() && |buf| < TWO_TO_THE_32
      modifies this, state
      ensures state.Valid() && state.data == buf
      ensures Outcome(code, TheCore(), state.Unread()) == Loop(old(TheCore()), buf)
      ensures previousBytesRead == old(previousBytesRead) + |old(state.data)|
      ensures code == Continue ==> Valid() && state.index == |buf|
    {
      hide Sound, HeadStep, SliceStep;
      SetBuffer(buf);
      while true
        invariant Valid() && state.data == buf
        invariant previousBytesRead == old(previousBytesRead) + |old(state.data)|
        invariant Loop(old(TheCore()), buf) == Loop(TheCore(), state.Unread())
        decreases |buf| - state.index, if sliceMode then 1 else 0
      {
        StepKeeps(TheCore(), state.Unread());
        var stop: bool;
        if !sliceMode {
          if |state.data| <= state.index {
            return Continue;
          }
          stop, code := ReadHeadStep();
        } else {
          stop, code := ReadSliceStep();
        }
        if stop {
          return;
        }
      }
    }

    /** What a step of the loop did: it stopped with a code, or it goes on. */
    ghost function Did(stop: bool, code: Code): Step
      reads this, state
      requires state.Valid()
    {
      if stop then Stop(Outcome(code, TheCore(), state.Unread())) else Go(TheCore(), state.Unread())
    }

    /** One head: read it, account for its bytes, and open a frame if it announces more. */
    method ReadHeadStep() returns (stop: bool, code: Code)
      requires Valid() && !sliceMode && state.index < |state.data|
      modifies this`initial, this`stack, this`mapCounts, this`length, this`sliceMode, state`index
      ensures state.Valid() && Did(stop, code) == HeadStep(old(TheCore()), old(state.Unread()))
    {
      hide Consume, DecodeHead, CheckHead, Pending;
      var startIndex := state.index;
      ghost var input := state.Unread();
      code, initial := state.CheckCanonical(initial);
      if code != Done && code != Continue {
        return true, code;
      }
      DecodeHeadPending(old(initial), input);
      var n := state.index - startIndex;
      assert n == |input| - |state.Unread()|;
      stop, code := AccountForHead(n);
    }

    method AccountForHead(n: u32) returns (stop: bool, code: Code)
      requires state.Valid() && Frames(stack, mapCounts, false) && !sliceMode && n <= 5
      modifies this`stack, this`mapCounts, this`length, this`sliceMode
      ensures state.Valid() && Did(stop, code) == Consume(old(TheCore()), n, state.Unread())
    {
      hide Shrink, Maps, Settle, InitialDecode.TypeHasSlice;
      stop := true;
      if useLength && length < n {
        return true, TotalLengthExceededInitialDecode;
      }
      length := Minus(length, n);
      if |stack| > 0 && stack[|stack| - 1].value < n {
        return true, NestedLengthExceededInitialDecode;
      }
      ghost var before := TheCore();
      MapsUnfold(stack);
      if |stack| > 0 && IsMap(stack[|stack| - 1]) && initial.missing == 0 && !initial.TypeHasSlice() {
        mapCounts := Bump(mapCounts);
      }
      assert TheCore() == Counted(before);
      code := CloseFrames(n, initial.TypeHasSlice());
      if code != Done {
        return true, code;
      }
      stop, code := SettleHead();
    }

    method SettleHead() returns (stop: bool, code: Code)
      requires state.Valid()
      modifies this`stack, this`mapCounts, this`sliceMode
      ensures state.Valid() && Did(stop, code) == Settle(old(TheCore()), state.Unread())
    {
      if initial.missing > 0 {
        return true, Continue;
      }
      if initial.TypeHasSlice() {
        if |stack| > 0 && stack[|stack| - 1].value < initial.value {
          return true, NestedLengthExceededAppendToStack;
        }
        if IsMap(initial) {
          mapCounts := mapCounts + [0];
        }
        stack := stack + [initial];
        sliceMode := !initial.TypeHasNesting();
      } else if |stack| == 0 && ((useEndMarker && initial.IsEndMarker()) || (useLength && length == 0)) {
        return true, Done;
      }
      return false, Continue;
    }

    /** A stretch of the bytes of a leaf. */
    method ReadSliceStep() returns (stop: bool, code: Code)
      requires Valid() && sliceMode
      modifies this`stack, this`mapCounts, this`length, this`sliceMode, state`index
      ensures state.Valid() && Did(stop, code) == SliceStep(old(TheCore()), old(state.Unread()))
    {
      hide Shrink, Maps, Pending, TextBytes;
      var top := stack[|stack| - 1];
      var topLength, remaining := top.value, |state.data| - state.index;
      var n: nat := if topLength < remaining then topLength else remaining;
      ghost var input := state.Unread();
      assert input[..0] == [];
      TextNothing();
      if n > 0 && top.typ == TYPE_TEXT {
        var valid := CheckText(n);
        assert state.Unread() == input;
        TextBelowFront(input, n);
        if !valid {
          return true, InvalidUtf8;
        }
      }
      state.index := state.index + n;
      assert state.Unread() == input[n..];
      if useLength && length < n {
        return true, TotalLengthExceededSlice;
      }
      length := Minus(length, n);
      code := CloseFrames(n, false);
      if code != Done {
        return true, code;
      }
      if |stack| == 0 && useLength && length == 0 {
        return true, Done;
      }
      if topLength > remaining {
        return true, Continue;
      }
      sliceMode := false;
      stop := false;
    }

    method CheckText(n: nat) returns (valid: bool)
      requires state.Valid() && state.index + n <= |state.data|
      ensures valid <==> forall k :: 0 <= k < n ==> state.Unread()[k] < 0xF8
    {
      ghost var input := state.Unread();
      for k := state.index to state.index + n
        invariant forall j :: 0 <= j < k - state.index ==> input[j] < 0xF8
      {
        assert state.data[k] == input[k - state.index];
        if state.data[k] >= 248 {
          return false;
        }
      }
      valid := true;
    }
  }

  /** The frames from `i` up have consumed `n` bytes more. */
  ghost function Lowered(stack: seq<InitialDecode>, i: nat, n: nat): (r: seq<InitialDecode>)
    requires i <= |stack| && AtLeast(stack, n)
    ensures |r| == |stack|
    ensures forall k :: 0 <= k < |r| ==> r[k] == if k < i then stack[k] else stack[k].(value := stack[k].value - n)
    ensures i == 0 ==> r == Lower(stack, n)
  {
    stack[..i] + Lower(stack[i..], n)
  }

  /** The loop over the frames before it looks at frame `i`: so far it has only closed frames, or
      it has met one that stays open and everything from there down to `i` is lowered. */
  ghost predicate Closing(all: seq<InitialDecode>, counts0: seq<u32>, n: nat, refuse: bool,
                          stack: seq<InitialDecode>, counts: seq<u32>, i: int)
    requires Falling(all) && AtLeast(all, n) && |counts0| == Maps(all)
  {
    && -1 <= i < |stack| <= |all|
    && if i + 1 == |stack| then
         && stack == all[..i + 1] && |counts| == Maps(stack)
         && Shrink(all, counts0, n, refuse) == Shrink(stack, counts, n, refuse)
       else
         && stack == Lowered(all[..|stack|], i + 1, n) && all[|stack| - 1].value > n
         && Shrink(all, counts0, n, refuse) == Shrunk(Done, Lower(all[..|stack|], n), counts)
  }

  lemma ClosingStart(all: seq<InitialDecode>, counts: seq<u32>, n: nat, refuse: bool)
    requires Falling(all) && AtLeast(all, n) && |counts| == Maps(all)
    ensures Closing(all, counts, n, refuse, all, counts, |all| - 1)
  {
    assert all[..|all|] == all;
  }

  lemma ClosingFits(all: seq<InitialDecode>, counts0: seq<u32>, n: nat, refuse: bool,
                    stack: seq<InitialDecode>, counts: seq<u32>, i: int)
    requires Falling(all) && AtLeast(all, n) && |counts0| == Maps(all)
    requires Closing(all, counts0, n, refuse, stack, counts, i) && i >= 0
    ensures stack[i] == all[i] && stack[i].value >= n
    ensures stack[i].value == n ==> i + 1 == |stack| && |counts| == Maps(stack) && Last(stack) == stack[i]
    ensures stack[i].value == n && IsMap(stack[i]) ==> counts != []
  {
    hide Shrink;
  }

  lemma {:induction false} ClosingKeep(all: seq<InitialDecode>, counts0: seq<u32>, n: nat, refuse: bool,
                    stack: seq<InitialDecode>, counts: seq<u32>, i: int)
    requires Falling(all) && AtLeast(all, n) && |counts0| == Maps(all)
    requires Closing(all, counts0, n, refuse, stack, counts, i) && i >= 0 && stack[i].value > n
    ensures Closing(all, counts0, n, refuse, stack[i := stack[i].(value := stack[i].value - n)], counts, i - 1)
  {
    hide Shrink, Maps, Falling, Lowered;
    ClosingStack(all, counts0, n, refuse, stack, counts, i);
    LoweredNext(all[..|stack|], i, n);
    if i + 1 == |stack| {
      ShrinkOpen(stack, counts, n, refuse);
    }
  }

  lemma {:induction false} ClosingStack(all: seq<InitialDecode>, counts0: seq<u32>, n: nat, refuse: bool,
                     stack: seq<InitialDecode>, counts: seq<u32>, i: int)
    requires Falling(all) && AtLeast(all, n) && |counts0| == Maps(all)
    requires Closing(all, counts0, n, refuse, stack, counts, i)
    ensures AtLeast(all[..|stack|], n) && stack == Lowered(all[..|stack|], i + 1, n)
    ensures i + 1 == |stack| ==> Falling(stack) && all[..|stack|] == stack
  {
    hide Shrink, Maps;
  }

  lemma LoweredNext(stack: seq<InitialDecode>, i: nat, n: nat)
    requires i < |stack| && AtLeast(stack, n)
    ensures var s := Lowered(stack, i + 1, n); s[i := s[i].(value := s[i].value - n)] == Lowered(stack, i, n)
    ensures Lowered(stack, i + 1, n)[i] == stack[i]
  {
  }

  lemma ClosingPop(all: seq<InitialDecode>, counts0: seq<u32>, n: nat, refuse: bool,
                   stack: seq<InitialDecode>, counts: seq<u32>, i: int)
    requires Falling(all) && AtLeast(all, n) && |counts0| == Maps(all)
    requires Closing(all, counts0, n, refuse, stack, counts, i) && i >= 0 && stack[i].value == n
    ensures i + 1 == |stack| && |counts| == Maps(stack)
    ensures refuse ==>
      Shrink(all, counts0, n, refuse) == Shrunk(NestedLengthExceededTopOfStackComplete, Zeroed(stack), counts)
    ensures !refuse && IsMap(stack[i]) ==> counts != []
    ensures !refuse && IsMap(stack[i]) && Last(counts) % 2 == 1 ==>
      Shrink(all, counts0, n, refuse) == Shrunk(MapCountOdd, Zeroed(stack), counts)
    ensures !refuse && !(IsMap(stack[i]) && Last(counts) % 2 == 1) ==>
      Closing(all, counts0, n, refuse, Front(stack), Closed(stack, counts), i - 1)
  {
    hide Shrink, Closed;
    ClosingFits(all, counts0, n, refuse, stack, counts, i);
    ShrinkClose(stack, counts, n, refuse);
    assert Front(stack) == all[..i];
  }

  lemma ClosingEnd(all: seq<InitialDecode>, counts0: seq<u32>, n: nat, refuse: bool,
                   stack: seq<InitialDecode>, counts: seq<u32>)
    requires Falling(all) && AtLeast(all, n) && |counts0| == Maps(all)
    requires Closing(all, counts0, n, refuse, stack, counts, -1)
    ensures Shrunk(Done, stack, counts) == Shrink(all, counts0, n, refuse)
  {
    hide Maps;
  }
}
