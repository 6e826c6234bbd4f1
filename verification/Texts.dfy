/** Which texts the validator takes: all that UTF-8 can write, and none with a byte that it never uses. */
module Texts {
  import opened Basics
  import opened Values
  import opened Heads
  import opened Encoding
  import opened Validator
  import opened Grammar
  import opened Acceptance
  import opened LengthMode
  import opened Language
  import opened Chunking

  type CodePoint = c: int | 0 <= c < 0x11_0000

  /** The bytes of a code point (section 3 of RFC 3629). */
  function Utf8(c: CodePoint): seq<byte> {
    if c < 0x80 then [c]
    else if c < 0x800 then [0xC0 + c / 0x40, Continuation(c)]
    else if c < 0x1_0000 then [0xE0 + c / 0x1000, Continuation(c / 0x40), Continuation(c)]
    else [0xF0 + c / 0x4_0000, Continuation(c / 0x1000), Continuation(c / 0x40), Continuation(c)]
  }

  function Continuation(c: nat): byte {
    0x80 + c % 0x40
  }

  function Utf8All(cs: seq<CodePoint>): seq<byte> {
    if cs == [] then [] else Utf8(cs[0]) + Utf8All(cs[1..])
  }

  /** No byte is one that UTF-8 never uses from 0xF8 up. */
  predicate Below(bs: seq<byte>) {
    forall k :: 0 <= k < |bs| ==> bs[k] < 0xF8
  }

  lemma {:induction false} Utf8Below(cs: seq<CodePoint>)
    ensures Below(Utf8All(cs))
  {
    if cs != [] {
      Utf8Below(cs[1..]);
    }
  }

  lemma TextEncodes(text: seq<byte>)
    requires |text| < TWO_TO_THE_32
    ensures Writable([Plain(Text(text))]) && EncAll([Plain(Text(text))]) == Enc(Plain(Text(text)))
    ensures ValidRun(Outermost, false, [Plain(Text(text))]) <==> Below(text)
  {
    hide Enc;
    var v := Plain(Text(text));
    EncAllNothing();
    assert [v][..0] == [] && [] + Enc(v) == Enc(v);
    TextIsBelow(text);
    assert ValidItem(v) <==> TextBytes(text);
    assert [v][0] == v;
  }

  // A text in its own length: it is accepted exactly when each of its bytes is below 0xF8.
  lemma TextAccepted(c: Core, text: seq<byte>, tail: seq<byte>)
    requires |text| < TWO_TO_THE_32 && AtStart(c, |Enc(Plain(Text(text)))|)
    ensures Loop(c, Enc(Plain(Text(text))) + tail).code == Done <==> Below(text)
    ensures Below(text) ==> Accepts(Loop(c, Enc(Plain(Text(text))) + tail), tail)
  {
    hide Enc, EncAll, Loop, Accepts, ValidRun, Below;
    TextEncodes(text);
    EncoderMeetsValidator(c, [Plain(Text(text))], tail);
  }

  // Whatever UTF-8 can write is accepted.
  lemma Utf8Accepted(c: Core, cs: seq<CodePoint>, tail: seq<byte>)
    requires |Utf8All(cs)| < TWO_TO_THE_32 && AtStart(c, |Enc(Plain(Text(Utf8All(cs))))|)
    ensures Accepts(Loop(c, Enc(Plain(Text(Utf8All(cs)))) + tail), tail)
  {
    hide Enc, Loop, Accepts, Below;
    Utf8Below(cs);
    TextAccepted(c, Utf8All(cs), tail);
  }

  // A head of a leaf is refused, or opens a frame for it.
  lemma LeafHead(c: Core, n: nat, rest: seq<byte>)
    requires Frames(c.stack, c.mapCounts, false) && n <= 5 && c.initial.missing == 0
    requires c.initial.TypeHasSlice() && !c.initial.TypeHasNesting()
    ensures match Consume(c, n, rest)
            case Stop(out) => out.code.Rejects()
            case Go(d, more) => d.sliceMode && d.stack != [] && Last(d.stack) == c.initial && more == rest
  {
    hide Shrink, Maps, Open;
    if c.stack == [] || Last(c.stack).value >= n {
      if c.stack != [] {
        LastIsLeast(c.stack);
      }
      ShrinkCodes(c.stack, c.mapCounts, n, true);
    }
  }

  lemma TextHead(c: Core, text: seq<byte>, rest: seq<byte>)
    requires Sound(c) && !c.sliceMode && c.initial.missing == 0 && |text| < TWO_TO_THE_32
    ensures var input := Enc(Plain(Text(text))) + rest;
            && input != []
            && match NextStep(c, input)
               case Stop(out) => out.code.Rejects()
               case Go(d, more) =>
                 d.sliceMode && d.stack != [] && Last(d.stack).typ == TYPE_TEXT && Last(d.stack).value == |text|
                 && more == text + rest
  {
    hide ReadHead, CheckHead, HeadBytes, Consume, Pending, Frames;
    var head := HeadBytes(TYPE_TEXT, |text|);
    TextParts(text);
    assert Enc(Plain(Text(text))) + rest == head + (text + rest);
    ReadHeadBytes(c.initial, TYPE_TEXT, |text|, text + rest);
    HeadStepFresh(c, head + (text + rest));
    assert Frames(c.stack, c.mapCounts, false);
    LeafHead(c.(initial := ReadHead(c.initial, head + (text + rest)).0), |head|, text + rest);
  }

  lemma TextParts(text: seq<byte>)
    requires |text| < TWO_TO_THE_32
    ensures Enc(Plain(Text(text))) == HeadBytes(TYPE_TEXT, |text|) + text
  {
    hide HeadBytes;
    assert text + [] == text;
  }

  // A text with any other byte is refused wherever it stands: outside, in a container, in a body
  // that ends with a marker or after a declared length.
  lemma {:induction false} TextRefused(c: Core, text: seq<byte>, rest: seq<byte>)
    requires Sound(c) && !c.sliceMode && c.initial.missing == 0 && |text| < TWO_TO_THE_32 && !Below(text)
    ensures Loop(c, Enc(Plain(Text(text))) + rest).code.Rejects()
  {
    hide Enc, Loop, NextStep, Pending, Frames;
    var input := Enc(Plain(Text(text))) + rest;
    TextHead(c, text, rest);
    LoopStep(c, input);
    if NextStep(c, input).Go? {
      var d := NextStep(c, input).core;
      LoopStep(d, text + rest);
      assert (text + rest)[..|text|] == text;
      TextIsBelow(text);
      BadTextStep(d, text, rest);
    }
  }

  lemma BadTextStep(d: Core, text: seq<byte>, rest: seq<byte>)
    requires Sound(d) && d.sliceMode && Last(d.stack).typ == TYPE_TEXT && Last(d.stack).value == |text|
    requires !TextBytes(text)
    ensures NextStep(d, text + rest) == Stop(Outcome(InvalidUtf8, d, text + rest))
  {
    hide Pending, Shrink, TextBytes;
    assert (text + rest)[..|text|] == text;
  }
}
