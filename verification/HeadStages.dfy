/** The head of a value as it is read from a stream: its first byte, then its missing bytes. */
module HeadStages {
  import opened Basics
  import opened Values
  import opened Heads
  import opened Validator
  import opened LengthMode
  import opened Chunking
  import opened Framing

  // The first byte of a head that goes on, and then its other bytes.
  lemma {:induction false} SplitHead(c: Core, b: byte, more: seq<byte>)
    requires IsFresh(c)
    requires var i := ReadHead(ZERO_INITIAL, [b]).0; i.missing > 0 && |more| == i.missing
    ensures var o := Loop(c, [b]);
            if c.useLength && c.length == 0 then o.code.Rejects()
            else o.code == Continue && Sound(o.core) && o.core.initial == ReadHead(ZERO_INITIAL, [b]).0
                 && Agree(Loop(c, [b] + more), Loop(o.core, more))
  {
    hide ReadHead, Pending, Loop, Frames, HeadStep;
    LoopStep(c, [b]);
    LastCoreStep(c, [b]);
    LoopKeeps(c, [b]);
    Fragment(c, [b]);
    TwoPieces(c, [b], more);
  }

  // The validator's answer on the first byte of a stream.
  lemma {:induction false} FirstByte(c: Core, bs: seq<byte>)
    requires IsFresh(c) && bs != []
    ensures var first, o := ReadHead(ZERO_INITIAL, [bs[0]]).0, Loop(c, [bs[0]]);
            if c.useLength && c.length == 0 then o.code.Rejects()
            else if first.missing == 0 then
              && !o.code.Rejects() && ReadHead(ZERO_INITIAL, bs) == (first, bs[1..])
              && CheckHead(ZERO_INITIAL, bs) == Done
              && Pending(first) && o == AfterHead(c, first, 1)
            else o.code == Continue && o.rest == [] && Sound(o.core) && o.core.initial == first
  {
    hide Loop, Absorb, AfterHead, Pending, Sound, ReadHead, CheckHead;
    var b := bs[0];
    HeadInTwo(bs);
    var first := ReadHead(ZERO_INITIAL, [b]).0;
    if first.missing == 0 {
      assert bs[..1] == [b];
      ByteCanonical(b);
      WholeHead(c, [b]);
      AfterHeadAccepts(c, first, 1);
    } else {
      SplitHead(c, b, seq(first.missing, _ => 0));
      FreshSound(c);
      LoopKeeps(c, [b]);
    }
  }

  // The validator's answer on the bytes that were missing.
  lemma {:induction false} OtherBytes(c: Core, bs: seq<byte>)
    requires IsFresh(c) && bs != [] && !(c.useLength && c.length == 0)
    requires var first := ReadHead(ZERO_INITIAL, [bs[0]]).0; 0 < first.missing < |bs|
    ensures Sound(Loop(c, [bs[0]]).core)
    ensures var n := 1 + ReadHead(ZERO_INITIAL, [bs[0]]).0.missing; var i := ReadHead(ZERO_INITIAL, bs).0;
            var w := Loop(Loop(c, [bs[0]]).core, bs[1..n]);
            && n <= 5 && i.missing == 0 && Pending(i)
            && if CheckHead(ZERO_INITIAL, bs) != Done || (c.useLength && c.length < n) then w.code.Rejects()
               else !w.code.Rejects() && w == AfterHead(c, i, n)
  {
    hide Loop, Absorb, AfterHead, Pending, Frames, ReadHead, CheckHead;
    var b, n := bs[0], 1 + ReadHead(ZERO_INITIAL, [bs[0]]).0.missing;
    HeadInTwo(bs);
    assert bs[..n] == [b] + bs[1..n];
    SplitHead(c, b, bs[1..n]);
    WholeHead(c, bs[..n]);
    AfterHeadAccepts(c, ReadHead(ZERO_INITIAL, bs).0, n);
  }

  // What the first byte decides.
  lemma {:induction false} FirstStage(c: Core, bs: seq<byte>)
    requires IsFresh(c) && bs != []
    ensures var first, o := ReadHead(ZERO_INITIAL, [bs[0]]).0, Loop(c, [bs[0]]);
            if o.code.Rejects() then HeadError(c, bs) == Some(DataValueNotAccepted)
            else
              && o.rest == [] && ReadHead(ZERO_INITIAL, [bs[0]]).1 == []
              && if first.missing == 0 then
                   && HeadError(c, bs).None? && ReadHead(ZERO_INITIAL, bs) == (first, bs[1..])
                   && Pending(first) && o == AfterHead(c, first, 1)
                 else
                   && Sound(o.core) && o.core.initial == first
                   && (|bs| <= first.missing ==> HeadError(c, bs) == Some(Shortage(bs[1..])))
  {
    hide Loop, Absorb, Pending, Frames, ReadHead, CheckHead;
    FirstByte(c, bs);
    HeadInTwo(bs);
    if ReadHead(ZERO_INITIAL, [bs[0]]).0.missing == 0 {
      assert bs[1..] == bs[1..1] + bs[1..];
    }
  }

  // What the missing bytes decide.
  lemma {:induction false} SecondStage(c: Core, bs: seq<byte>)
    requires IsFresh(c) && bs != [] && !Loop(c, [bs[0]]).code.Rejects()
    requires var first := ReadHead(ZERO_INITIAL, [bs[0]]).0; 0 < first.missing < |bs|
    ensures Sound(Loop(c, [bs[0]]).core)
    ensures var first := ReadHead(ZERO_INITIAL, [bs[0]]).0; var n := 1 + first.missing;
            var i := ReadHead(ZERO_INITIAL, bs).0;
            var w := Loop(Loop(c, [bs[0]]).core, bs[1..n]);
            if w.code.Rejects() then HeadError(c, bs) == Some(DataValueNotAccepted)
            else
              && HeadError(c, bs).None? && ReadHead(ZERO_INITIAL, bs) == (i, bs[n..])
              && Absorb(first, bs[1..n]) == (i, [])
              && n <= 5 && Pending(i) && w == AfterHead(c, i, n) && w.rest == []
  {
    hide Loop, Absorb, Pending, Frames, ReadHead, CheckHead;
    FirstByte(c, bs);
    HeadInTwo(bs);
    OtherBytes(c, bs);
  }
}
