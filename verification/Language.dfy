/** The accepted bytes are the encodings of valid trees. */
module Language {
  import opened Basics
  import opened Values
  import opened Heads
  import opened Decoder
  import opened Encoding
  import opened Trees
  import opened Validator
  import opened Grammar
  import opened Acceptance
  import opened LengthMode

  /** A leaf without bytes. */
  predicate EmptyLeaf(v: DbufValSeq) {
    v.Plain? && HasSlice(v.val.typ) && v.val.Bytes() == []
  }

  /** What the validator demands of a tree beyond being well formed: text bytes below 248, and
      containers that are not empty, do not end with an empty leaf, and pair up in maps. */
  predicate ValidItem(v: DbufValSeq)
    decreases v, 0
  {
    match v
    case Plain(val) => val.typ == TYPE_TEXT ==> TextBytes(val.Bytes())
    case Nested(val, sequence) =>
      && sequence != [] && !EmptyLeaf(Last(sequence))
      && (val.typ == TYPE_MAP ==> |sequence| % 2 == 0)
      && forall k :: 0 <= k < |sequence| ==> ValidItem(sequence[k])
  }

  predicate AllValid(vs: seq<DbufValSeq>) {
    forall k :: 0 <= k < |vs| ==> ValidItem(vs[k])
  }

  /** The rest of a run, of which an even or odd number of items is done. */
  predicate ValidRun(place: Place, odd: bool, vs: seq<DbufValSeq>) {
    && AllValid(vs)
    && (if place == Inside(true) then (|vs| % 2 == 1) == odd else !odd)
    && (place.Inside? && vs != [] ==> !EmptyLeaf(Last(vs)))
  }

  /** The item ends with an end marker: it is one, or the last of its items ends with one. */
  predicate EndsWithMarker(v: DbufValSeq)
    decreases v
  {
    match v
    case Plain(val) => val.typ == TYPE_REGISTRY && val.value == REGISTRY_END_MARKER
    case Nested(_, sequence) => sequence != [] && EndsWithMarker(sequence[|sequence| - 1])
  }

  predicate RunEndsWithMarker(vs: seq<DbufValSeq>, marker: bool) {
    if vs == [] then marker else EndsWithMarker(Last(vs))
  }

  /** The trees an encoder can write down in full. */
  predicate Writable(vs: seq<DbufValSeq>) {
    AllWellFormed(vs) && AllSized(vs)
  }

  // The encoding of a valid run is accepted.
  lemma {:induction false} EncodedRunAccepted(place: Place, odd: bool, vs: seq<DbufValSeq>, marker: bool)
    requires Writable(vs) && ValidRun(place, odd, vs)
    ensures Run(place, odd, EncAll(vs), marker) == Good(RunEndsWithMarker(vs, marker))
    decreases vs
  {
    hide Run, Enc, EndsWithMarker, EncAll, ValidItem;
    if vs == [] {
      EncAllNothing();
      RunEmpty(place, odd, marker);
    } else {
      var v, us := vs[0], vs[1..];
      EncAllFront(vs);
      if v.Nested? {
        NestedValid(v);
        EncodedRunAccepted(Inside(v.val.typ == TYPE_MAP), false, v.sequence, false);
      }
      RunOfItem(place, odd, v, EncAll(us), marker);
      FlipRun(place, odd, vs);
      FrontOfRun(place, odd, vs, marker);
      EncodedRunAccepted(place, Flip(place, odd), us, EndsWithMarker(v));
    }
  }

  lemma FrontOfRun(place: Place, odd: bool, vs: seq<DbufValSeq>, marker: bool)
    requires Writable(vs) && ValidRun(place, odd, vs) && vs != []
    ensures RunEndsWithMarker(vs[1..], EndsWithMarker(vs[0])) == RunEndsWithMarker(vs, marker)
    ensures vs[0].Nested? ==> vs[0].sequence != [] && EndsWithMarker(vs[0]) == RunEndsWithMarker(vs[0].sequence, false)
    ensures EncAll(vs[1..]) == [] ==> vs[1..] == []
    ensures place.Inside? && EmptyLeaf(vs[0]) ==> vs[1..] != []
    ensures vs[0].Plain? && vs[0].val.typ == TYPE_TEXT ==> TextBytes(vs[0].val.Bytes())
  {
    hide EncAll, TextBytes, Enc;
    var us := vs[1..];
    assert ValidItem(vs[0]);
    if us != [] {
      assert Last(us) == Last(vs);
      EncAllFront(us);
      EncNotEmpty(us[0]);
    }
  }

  lemma EncNotEmpty(v: DbufValSeq)
    requires Sized(v)
    ensures Enc(v) != []
  {
  }

  lemma EncAllNothing()
    ensures EncAll([]) == []
  {
  }

  lemma NestedValid(v: DbufValSeq)
    requires ValidItem(v) && v.Nested?
    ensures ValidRun(Inside(v.val.typ == TYPE_MAP), false, v.sequence) && v.sequence != []
  {
  }

  lemma FlipRun(place: Place, odd: bool, vs: seq<DbufValSeq>)
    requires ValidRun(place, odd, vs) && vs != []
    ensures ValidRun(place, Flip(place, odd), vs[1..])
  {
    hide ValidItem;
    assert vs[1..] != [] ==> Last(vs[1..]) == Last(vs);
  }

  /** The verdict on the items of a container. */
  function InnerRun(v: DbufValSeq): Verdict
    requires Sized(v) && v.Nested?
  {
    Run(Inside(v.val.typ == TYPE_MAP), false, EncAll(v.sequence), false)
  }

  // A run that starts with the encoding of an item.
  lemma {:induction false} RunOfItem(place: Place, odd: bool, v: DbufValSeq, rest: seq<byte>, marker: bool)
    requires WellFormed(v) && Sized(v)
    ensures v.Plain? ==>
              Run(place, odd, Enc(v) + rest, marker)
              == if place.Inside? && EmptyLeaf(v) && rest == [] then Bad
                 else if v.val.typ == TYPE_TEXT && !TextBytes(v.val.Bytes()) then Bad
                 else Run(place, Flip(place, odd), rest, EndsWithMarker(v))
    ensures v.Nested? ==>
              Run(place, odd, Enc(v) + rest, marker)
              == if v.sequence == [] then Bad
                 else Then(InnerRun(v), rest == [], Run(place, Flip(place, odd), rest, MarkerOf(InnerRun(v))))
  {
    hide EncAll, WellFormed, TextBytes, Then, Run, CheckHead, ReadHead, HeadBytes, Payload;
    ItemParts(v);
    var head, tail := HeadBytes(v.val.typ, ParseValue(v)), Payload(v);
    var bs, h := Enc(v) + rest, |head|;
    assert bs == head + (tail + rest);
    ReadHeadBytes(ZERO_INITIAL, v.val.typ, ParseValue(v), tail + rest);
    CanonicalExactly(ZERO_INITIAL, bs);
    assert bs[h..] == tail + rest && bs[h..h + |tail|] == tail && bs[h + |tail|..] == rest;
    RunFirst(place, odd, bs, marker, ReadHead(ZERO_INITIAL, bs).0, h);
  }

  // The parts of a well formed tree.
  lemma ItemParts(v: DbufValSeq)
    requires WellFormed(v) && Sized(v)
    ensures HasSlice(v.val.typ) ==> |Payload(v)| == ParseValue(v)
    ensures !HasSlice(v.val.typ) ==> Payload(v) == [] && v.Plain?
    ensures v.Plain? ==> Payload(v) == v.val.Bytes() && !HasNesting(v.val.typ)
    ensures v.Nested? ==> HasNesting(v.val.typ) && Payload(v) == EncAll(v.sequence)
    ensures v.Nested? ==> (v.sequence == [] <==> Payload(v) == [])
  {
    if v.Nested? {
      WellFormedIsExact(v);
      AllEncodedSize(v.sequence);
      if v.sequence != [] {
        EncAllFront(v.sequence);
      }
    }
  }

  // What a good run says about its first item.
  lemma GoodFirst(place: Place, odd: bool, bs: seq<byte>, marker: bool) returns (next: bool)
    requires bs != [] && Run(place, odd, bs, marker).Good?
    ensures var (i, rest) := ReadHead(ZERO_INITIAL, bs); var k := if i.TypeHasSlice() then i.value else 0;
            && i.missing == 0 && bs == HeadBytes(i.typ, i.value) + rest && k <= |rest|
            && Run(place, Flip(place, odd), rest[k..], next).Good?
            && (i.TypeHasNesting() ==> k > 0 && Run(PlaceOf(i), false, rest[..k], false).Good?)
            && (i.TypeHasSlice() && !i.TypeHasNesting() && place.Inside? ==> rest != [])
            && (i.typ == TYPE_TEXT ==> TextBytes(rest[..k]))
  {
    hide Run, CheckHead, ReadHead, HeadBytes, TextBytes;
    if CheckHead(ZERO_INITIAL, bs) != Done {
      RunBroken(place, odd, bs, marker);
      assert false;
    }
    CanonicalExactly(ZERO_INITIAL, bs);
    var (i, rest) := ReadHead(ZERO_INITIAL, bs);
    var h := |bs| - |rest|;
    RunFirst(place, odd, bs, marker, i, h);
    var k := if i.TypeHasSlice() then i.value else 0;
    assert rest[..k] == bs[h..h + k] && rest[k..] == bs[h + k..] by {
      assert k <= |rest|;
    }
    if !i.TypeHasSlice() {
      next := i.IsEndMarker();
    } else if i.TypeHasNesting() {
      next := MarkerOf(Run(PlaceOf(i), false, rest[..k], false));
    } else {
      next := false;
    }
  }

  /** The tree of an item with head `i`, given its payload and, for a container, its children. */
  function ItemOf(i: InitialDecode, payload: seq<byte>, children: seq<DbufValSeq>): DbufValSeq {
    if !i.TypeHasSlice() then Plain(DbufVal(i.typ, i.value, None))
    else if !i.TypeHasNesting() then Plain(DbufVal(i.typ, 0, Some(payload)))
    else Nested(DbufVal(i.typ, 0, None), children)
  }

  lemma ItemOfIsValid(i: InitialDecode, payload: seq<byte>, children: seq<DbufValSeq>)
    requires |payload| == if i.TypeHasSlice() then i.value else 0
    requires i.typ == TYPE_TEXT ==> TextBytes(payload)
    requires i.TypeHasNesting() ==>
      payload != [] && Writable(children) && EncAll(children) == payload && ValidRun(PlaceOf(i), false, children)
    ensures var v := ItemOf(i, payload, children);
            && WellFormed(v) && Sized(v) && ValidItem(v) && Enc(v) == HeadBytes(i.typ, i.value) + payload
            && (EmptyLeaf(v) <==> i.TypeHasSlice() && !i.TypeHasNesting() && payload == [])
  {
    hide HeadBytes, TextBytes;
    if i.TypeHasNesting() {
      AllExactRun(children);
      AllEncodedSize(children);
    }
  }

  lemma AllExactRun(vs: seq<DbufValSeq>)
    requires AllWellFormed(vs)
    ensures AllExact(vs)
  {
    forall k | 0 <= k < |vs| ensures Exact(vs[k]) {
      WellFormedIsExact(vs[k]);
    }
  }

  lemma DecodeItemOf(bs: seq<byte>, children: seq<DbufValSeq>)
    requires bs != [] && ReadHead(ZERO_INITIAL, bs).0.missing == 0
    requires var (i, rest) := ReadHead(ZERO_INITIAL, bs);
             i.TypeHasSlice() ==> i.value <= |rest|
                                  && (i.TypeHasNesting() ==> DecodeTrees(rest[..i.value]) == Ok(children))
    ensures var (i, rest) := ReadHead(ZERO_INITIAL, bs); var k := if i.TypeHasSlice() then i.value else 0;
            DecodeTrees(bs) == Prepend([ItemOf(i, rest[..k], children)], DecodeTrees(rest[k..]))
  {
    hide ReadHead;
    var (i, rest) := ReadHead(ZERO_INITIAL, bs);
    assert rest[0..] == rest && rest[..0] == [];
  }

  // An item in front of a valid run.
  lemma {:induction false} FrontItem(place: Place, odd: bool, v: DbufValSeq, us: seq<DbufValSeq>)
    requires WellFormed(v) && Sized(v) && ValidItem(v)
    requires Writable(us) && ValidRun(place, Flip(place, odd), us)
    requires place.Inside? && EmptyLeaf(v) ==> us != []
    requires place != Inside(true) ==> !odd
    ensures Writable([v] + us) && ValidRun(place, odd, [v] + us) && EncAll([v] + us) == Enc(v) + EncAll(us)
  {
    hide ValidItem, WellFormed, EncAll, Enc;
    var vs := [v] + us;
    assert AllSized(vs);
    EncAllFront(vs);
    assert vs[1..] == us && vs[0] == v;
    assert us != [] ==> Last(vs) == Last(us);
  }

  /** The trees that `bs` decodes to are a valid run with just this encoding. */
  predicate Parses(place: Place, odd: bool, bs: seq<byte>) {
    var r := DecodeTrees(bs);
    r.Ok? && Writable(r.value) && ValidRun(place, odd, r.value) && EncAll(r.value) == bs
  }

  // A first item and a parsed rest make a parsed whole.
  lemma Assemble(place: Place, odd: bool, bs: seq<byte>, i: InitialDecode, payload: seq<byte>, after: seq<byte>)
    requires bs != [] && ReadHead(ZERO_INITIAL, bs) == (i, payload + after) && i.missing == 0
    requires bs == HeadBytes(i.typ, i.value) + (payload + after)
    requires |payload| == if i.TypeHasSlice() then i.value else 0
    requires i.typ == TYPE_TEXT ==> TextBytes(payload)
    requires i.TypeHasNesting() ==> payload != [] && Parses(PlaceOf(i), false, payload)
    requires i.TypeHasSlice() && !i.TypeHasNesting() && place.Inside? ==> payload + after != []
    requires Parses(place, Flip(place, odd), after) && (place != Inside(true) ==> !odd)
    ensures Parses(place, odd, bs)
  {
    hide ReadHead, ValidItem, WellFormed, EncAll, Enc, DecodeTrees, HeadBytes, TextBytes, ItemOf, EmptyLeaf, Sized;
    hide ValidRun, Writable, MeasureExtraValue, Prepend;
    var children := if i.TypeHasNesting() then DecodeTrees(payload).value else [];
    var v, us := ItemOf(i, payload, children), DecodeTrees(after).value;
    assert (payload + after)[..|payload|] == payload && (payload + after)[|payload|..] == after;
    DecodeItemOf(bs, children);
    ItemOfIsValid(i, payload, children);
    EncAllNothing();
    FrontItem(place, odd, v, us);
    PrependTrees(v, DecodeTrees(after));
    Reassociate(HeadBytes(i.typ, i.value), payload, after);
  }

  lemma PrependTrees(v: DbufValSeq, r: Result<seq<DbufValSeq>>)
    requires r.Ok?
    ensures Prepend([v], r) == Ok([v] + r.value)
  {
  }

  lemma Reassociate(a: seq<byte>, b: seq<byte>, c: seq<byte>)
    ensures a + (b + c) == (a + b) + c
  {
  }

  // Accepted bytes are the encoding of a valid run, which recursive decoding finds.
  lemma {:induction false} AcceptedRunParses(place: Place, odd: bool, bs: seq<byte>, marker: bool)
    requires Run(place, odd, bs, marker).Good? && |bs| < TWO_TO_THE_32
    requires place != Inside(true) ==> !odd
    ensures Parses(place, odd, bs)
    decreases |bs|
  {
    hide Run, ReadHead, HeadBytes, TextBytes, Parses;
    if bs == [] {
      RunEmpty(place, odd, marker);
      ParsesNothing(place, odd);
    } else {
      var next := GoodFirst(place, odd, bs, marker);
      var (i, rest) := ReadHead(ZERO_INITIAL, bs);
      var k := if i.TypeHasSlice() then i.value else 0;
      if i.TypeHasNesting() {
        AcceptedRunParses(PlaceOf(i), false, rest[..k], false);
      }
      AcceptedRunParses(place, Flip(place, odd), rest[k..], next);
      assert rest == rest[..k] + rest[k..];
      Assemble(place, odd, bs, i, rest[..k], rest[k..]);
    }
  }

  lemma ParsesNothing(place: Place, odd: bool)
    requires !odd
    ensures Parses(place, odd, [])
  {
    EncAllNothing();
  }

  /** The encodings of valid runs. */
  ghost predicate IsValidRun(place: Place, bs: seq<byte>) {
    exists vs :: Writable(vs) && ValidRun(place, false, vs) && EncAll(vs) == bs
  }

  // The grammar describes exactly the encodings of valid runs.
  lemma GrammarIsLanguage(place: Place, bs: seq<byte>)
    requires |bs| < TWO_TO_THE_32
    ensures Run(place, false, bs, false).Good? <==> IsValidRun(place, bs)
  {
    hide Run, DecodeTrees, EncAll, ValidRun;
    if Run(place, false, bs, false).Good? {
      AcceptedRunParses(place, false, bs, false);
      var vs := DecodeTrees(bs).value;
      assert Writable(vs) && ValidRun(place, false, vs) && EncAll(vs) == bs;
    }
    if IsValidRun(place, bs) {
      var vs :| Writable(vs) && ValidRun(place, false, vs) && EncAll(vs) == bs;
      EncodedRunAccepted(place, false, vs, false);
    }
  }

  // An encoding is accepted exactly when its own trees are a valid run.
  lemma EncodedRunExactly(place: Place, vs: seq<DbufValSeq>)
    requires Writable(vs) && |EncAll(vs)| < TWO_TO_THE_32
    ensures Run(place, false, EncAll(vs), false).Good? <==> ValidRun(place, false, vs)
  {
    hide Run, DecodeTrees, EncAll, ValidRun;
    if ValidRun(place, false, vs) {
      EncodedRunAccepted(place, false, vs, false);
    }
    if Run(place, false, EncAll(vs), false).Good? {
      AcceptedRunParses(place, false, EncAll(vs), false);
      var us := DecodeTrees(EncAll(vs)).value;
      WritableInjective(us, vs);
    }
  }

  lemma WritableInjective(us: seq<DbufValSeq>, vs: seq<DbufValSeq>)
    requires Writable(us) && Writable(vs) && EncAll(us) == EncAll(vs)
    ensures us == vs
  {
    EncAllInjective(us, vs);
  }

  // What the encoder writes, the validator accepts in the declared length exactly when the
  // values are valid; and then it stops right behind them.
  lemma EncoderMeetsValidator(c: Core, vs: seq<DbufValSeq>, tail: seq<byte>)
    requires Writable(vs) && AtStart(c, |EncAll(vs)|)
    ensures Loop(c, EncAll(vs) + tail).code == Done <==> vs != [] && ValidRun(Outermost, false, vs)
    ensures Loop(c, EncAll(vs) + tail).code == Done ==> Accepts(Loop(c, EncAll(vs) + tail), tail)
  {
    hide Run, Loop, EncAll, Enc, ValidRun, Accepts;
    ExactAcceptance(c, EncAll(vs), tail);
    EncodedRunExactly(Outermost, vs);
    EncAllNothing();
    if vs != [] {
      EncAllFront(vs);
      EncNotEmpty(vs[0]);
    }
  }
}
