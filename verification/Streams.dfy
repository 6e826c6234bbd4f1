/** Reading requests and contents from a stream. */
module Streams {
  import opened Basics
  import opened Values
  import opened Heads
  import opened Decoder
  import opened Validator
  import opened CheckComplete
  import opened Grammar
  import opened Acceptance
  import opened LengthMode
  import opened Chunking
  import opened Keys
  import opened Integers
  import opened Framing
  import opened HeadStages

  const MAX_HEADER_SIZE: u32 := 0x4000

  /** A byte stream with an end. */
  class Reader {
    var rest: seq<byte>

    constructor (bs: seq<byte>)
      ensures rest == bs
    {
      rest := bs;
    }

    /** Reads `n` bytes; when the stream has fewer, those are lost. */
    method ReadFull(n: nat) returns (r: Result<seq<byte>>)
      modifies this
      ensures n <= |old(rest)| ==> r == Ok(old(rest)[..n]) && rest == old(rest)[n..]
      ensures n > |old(rest)| ==> r == Err(if |old(rest)| == 0 then EndOfFile else UnexpectedEndOfFile) && rest == []
    {
      if n <= |rest| {
        r := Ok(rest[..n]);
        rest := rest[n..];
      } else {
        r := Err(Shortage(rest));
        rest := [];
      }
    }
  }

  /** What precedes a request: a stream group, or the first byte of its header. */
  datatype Group = Group(streamGroup: u32, firstByte: byte, useFirstByte: bool)

  /** Reads a head in two portions, its first byte being `b`. */
  method ReadInitial(r: Reader, b: byte) returns (a: InitialDecode, error: Option<Error>)
    modifies r
    ensures var (i, rest) := ReadHead(ZERO_INITIAL, [b] + old(r.rest));
            if i.missing > 0 then error == Some(Shortage(old(r.rest))) && r.rest == [] && a.typ == TypeOf(b)
            else error.None? && a == i && r.rest == rest
  {
    hide ReadHead, CheckHead, Absorb;
    ghost var bs := [b] + r.rest;
    HeadInTwo(bs);
    assert bs[1..] == r.rest;
    var d := new DecoderState([b]);
    a := d.DecodeInitial(ZERO_INITIAL);
    HeadType([b]);
    error := None;
    if a.missing > 0 {
      ghost var n: nat := 1 + a.missing;
      assert n <= |bs| ==> bs[1..n] == r.rest[..a.missing] && bs[n..] == r.rest[a.missing..];
      var bm := r.ReadFull(a.missing);
      if bm.Err? {
        return a, Some(bm.error);
      }
      d := new DecoderState(bm.value);
      a := d.DecodeInitial(a);
    }
  }

  lemma HeadType(bs: seq<byte>)
    requires bs != []
    ensures ReadHead(ZERO_INITIAL, bs).0.typ == TypeOf(bs[0])
  {
  }

  /** A stream group, or the first byte of what stands in its place, and the bytes after it. */
  function GroupFrom(bs: seq<byte>): Result<(Group, seq<byte>)> {
    if bs == [] then Err(EndOfFile)
    else if TypeOf(bs[0]) != TYPE_UINT then Ok((Group(0, bs[0], true), bs[1..]))
    else
      var (i, rest) := ReadHead(ZERO_INITIAL, bs);
      if i.missing > 0 then Err(Shortage(bs[1..])) else Ok((Group(i.value, 0, false), rest))
  }

  method ReadStreamGroup(r: Reader) returns (g: Result<Group>)
    modifies r
    ensures match GroupFrom(old(r.rest))
            case Ok((group, rest)) => g == Ok(group) && r.rest == rest
            case Err(e) => g == Err(e)
  {
    hide ReadHead;
    ghost var bs := r.rest;
    var first := r.ReadFull(1);
    if first.Err? {
      return Err(first.error);
    }
    var b := first.value[0];
    assert bs == [b] + r.rest;
    if TypeOf(b) != TYPE_UINT {
      return Ok(Group(0, b, true));
    }
    var a, error := ReadInitial(r, b);
    g := if error.Some? then Err(error.value) else Ok(Group(a.value, 0, false));
  }

  /** The stream with the byte that was already read in front. */
  function WithFirst(firstByte: byte, useFirstByte: bool, rest: seq<byte>): seq<byte> {
    if useFirstByte then [firstByte] + rest else rest
  }

  /** The head of a header, and the bytes after it. */
  function HeaderInitialFrom(bs: seq<byte>): Result<(InitialDecode, seq<byte>)> {
    if bs == [] then Err(EndOfFile)
    else
      var (i, rest) := ReadHead(ZERO_INITIAL, bs);
      if i.missing > 0 then Err(Shortage(bs[1..]))
      else if !i.TypeHasNesting() then Err(DataTypeNotAccepted)
      else if i.value > MAX_HEADER_SIZE then Err(DataValueNotAccepted)
      else Ok((i, rest))
  }

  method ReadHeaderInitial(r: Reader, firstByte: byte, useFirstByte: bool) returns (h: Result<InitialDecode>)
    modifies r
    ensures match HeaderInitialFrom(WithFirst(firstByte, useFirstByte, old(r.rest)))
            case Ok((i, rest)) => h == Ok(i) && r.rest == rest
            case Err(e) => h == Err(e)
  {
    hide ReadHead;
    ghost var bs := WithFirst(firstByte, useFirstByte, r.rest);
    var b := firstByte;
    if !useFirstByte {
      var first := r.ReadFull(1);
      if first.Err? {
        return Err(first.error);
      }
      b := first.value[0];
    }
    assert bs == [b] + r.rest;
    var a, error := ReadInitial(r, b);
    if error.Some? {
      return Err(error.value);
    }
    if a.TypeHasNesting() {
      if a.value > MAX_HEADER_SIZE {
        return Err(DataValueNotAccepted);
      }
      return Ok(a);
    }
    h := Err(DataTypeNotAccepted);
  }

  // --------------------------------------------------------------------- headers

  datatype HeaderParams = HeaderParams(header: DbufVal, headerDetails: seq<DbufVal>)

  /** What a header with head `i` and content `buf` comes to. */
  function CheckedHeader(i: InitialDecode, buf: seq<byte>): Result<HeaderParams> {
    var v := Run(PlaceOf(i), false, buf, false);
    if v.Cut? then Err(IncompleteStream)
    else if v.Bad? then Err(DataValueNotAccepted)
    else
      var ps := DecodeSequence(buf);
      if ps.Err? then Err(ps.error)
      else if i.typ == TYPE_MAP && !KeysUnique(ps.value) then Err(DataKeyNotAccepted)
      else Ok(HeaderParams(i.GetDbufVal(Some(buf)), ps.value))
  }

  method GetHeaderParams(r: Reader, headerInitial: InitialDecode) returns (params: Result<HeaderParams>)
    requires headerInitial.TypeHasNesting() && headerInitial.missing == 0
    modifies r
    ensures if |old(r.rest)| < headerInitial.value then params == Err(Shortage(old(r.rest)))
            else params == CheckedHeader(headerInitial, old(r.rest)[..headerInitial.value])
                 && r.rest == old(r.rest)[headerInitial.value..]
  {
    hide Run, DecodeSequence, KeysUnique, Loop, Frames;
    var buf := r.ReadFull(headerInitial.value);
    if buf.Err? {
      return Err(buf.error);
    }
    var headerBuf := buf.value;
    if |headerBuf| > 0 {
      var mapCounts := if headerInitial.typ == TYPE_MAP then [0] else [];
      var c := Core([headerInitial], mapCounts, |headerBuf|, true, false, false, ZERO_INITIAL);
      HeaderCode(c, headerInitial, headerBuf);
      var ccs := new CheckCompleteState(c);
      var code := ccs.CheckComplete(headerBuf);
      if code == Continue {
        return Err(IncompleteStream);
      }
      if code != Done {
        return Err(DataValueNotAccepted);
      }
    } else {
      RunEmpty(PlaceOf(headerInitial), false, false);
    }
    var ds := new DecoderState(headerBuf);
    var ps := ds.DecodeAll();
    if ps.Err? {
      return Err(ps.error);
    }
    if headerInitial.typ == TYPE_MAP {
      var repeated := ValidateKeysUnique(ps.value);
      if repeated.Some? {
        return Err(DataKeyNotAccepted);
      }
    }
    params := Ok(HeaderParams(headerInitial.GetDbufVal(Some(headerBuf)), ps.value));
  }

  /** A header and the bytes after it. */
  function HeaderFrom(bs: seq<byte>): Result<(HeaderParams, seq<byte>)> {
    var initial := HeaderInitialFrom(bs);
    if initial.Err? then Err(initial.error)
    else
      var (i, rest) := initial.value;
      if |rest| < i.value then Err(Shortage(rest))
      else
        var params := CheckedHeader(i, rest[..i.value]);
        if params.Err? then Err(params.error) else Ok((params.value, rest[i.value..]))
  }

  /** The first request of a stream. */
  function RequestFrom(bs: seq<byte>): Result<(HeaderParams, seq<byte>)> {
    var g := GroupFrom(bs);
    if g.Err? then Err(g.error)
    else
      var (group, rest) := g.value;
      if group.streamGroup != 0 then Err(DataValueNotAccepted)
      else HeaderFrom(WithFirst(group.firstByte, group.useFirstByte, rest))
  }

  /** How the server starts on a stream: only the default stream group is served. */
  method ReadRequest(r: Reader) returns (params: Result<HeaderParams>)
    modifies r
    ensures match RequestFrom(old(r.rest))
            case Ok((p, rest)) => params == Ok(p) && r.rest == rest
            case Err(e) => params == Err(e)
  {
    hide CheckedHeader, ReadHead;
    var g := ReadStreamGroup(r);
    if g.Err? {
      return Err(g.error);
    }
    var group := g.value;
    if group.streamGroup != 0 {
      return Err(DataValueNotAccepted);
    }
    params := ReadHeader(r, group.firstByte, group.useFirstByte);
  }

  /** How a response, or a later request of a stream, starts when no byte has been read yet. */
  method ReadHeader(r: Reader, firstByte: byte, useFirstByte: bool) returns (params: Result<HeaderParams>)
    modifies r
    ensures match HeaderFrom(WithFirst(firstByte, useFirstByte, old(r.rest)))
            case Ok((p, rest)) => params == Ok(p) && r.rest == rest
            case Err(e) => params == Err(e)
  {
    hide CheckedHeader, ReadHead;
    var initial := ReadHeaderInitial(r, firstByte, useFirstByte);
    if initial.Err? {
      return Err(initial.error);
    }
    params := GetHeaderParams(r, initial.value);
  }

  // The validator, started inside the header's container, judges it by the grammar.
  lemma {:induction false} HeaderCode(c: Core, i: InitialDecode, buf: seq<byte>)
    requires i.TypeHasNesting() && |buf| == i.value > 0
    requires c == Core([i], if i.typ == TYPE_MAP then [0] else [], |buf|, true, false, false, ZERO_INITIAL)
    ensures Sound(c)
    ensures var code, v := Loop(c, buf).code, Run(PlaceOf(i), false, buf, false);
            && (code == Done <==> v.Good?) && (code == Continue <==> v.Cut?)
  {
    hide Loop, Run, Verdict0;
    MapsUnfold([i]);
    assert Front([i]) == [];
    assert buf + [] == buf;
    FrameVerdict(c, buf);
    var e := MachineFollowsGrammar(c, buf, []);
  }

  // -------------------------------------------------------------------- contents

  /** The start of `ReadCheckValue`: the head, read and checked as its first byte and the bytes
      missing after it. */
  method ReadCheckHead(r: Reader, c: Core, ccs: CheckCompleteState)
    returns (a: InitialDecode, code: Code, error: Option<Error>)
    requires IsFresh(c) && ccs.TheCore() == c && ccs.state.Valid() && ccs.state.data == [] && ccs.previousBytesRead == 0
    modifies r, ccs, ccs.state
    ensures error == HeadError(c, old(r.rest))
    ensures error.None? ==> HeadIsRead(c, old(r.rest), r, ccs, a, code)
  {
    hide Loop, ReadHead, HeadError, AfterHead, Absorb, Sound, Pending, HeadIsRead;
    ghost var bs := r.rest;
    var buf1 := r.ReadFull(1);
    if buf1.Err? {
      NoHead(c);
      return ZERO_INITIAL, Continue, Some(buf1.error);
    }
    assert buf1.value == [bs[0]] && bs[1..] == r.rest;
    FirstStage(c, bs);
    FreshSound(c);
    code := ccs.CheckComplete(buf1.value);
    if code.Rejects() {
      return ZERO_INITIAL, code, Some(DataValueNotAccepted);
    }
    var d := new DecoderState(buf1.value);
    a := d.DecodeInitial(ZERO_INITIAL);
    if a.missing > 0 {
      ccs.initial := a;
      a, code, error := ReadMissingHead(r, c, ccs, a, bs);
    } else {
      error := None;
      assert HeadIsRead(c, bs, r, ccs, a, code) by { WholeIsRead(c, bs, r, ccs, a, code); }
    }
  }

  /** The bytes that the head `first` still misses. */
  method ReadMissingHead(r: Reader, c: Core, ccs: CheckCompleteState, first: InitialDecode, ghost bs: seq<byte>)
    returns (a: InitialDecode, code: Code, error: Option<Error>)
    requires IsFresh(c) && bs != [] && !Loop(c, [bs[0]]).code.Rejects() && ccs.TheCore() == Loop(c, [bs[0]]).core
    requires first == ReadHead(ZERO_INITIAL, [bs[0]]).0 && first.missing > 0 && r.rest == bs[1..]
    requires ccs.state.Valid() && |ccs.state.data| == 1 && ccs.previousBytesRead == 0
    modifies r, ccs, ccs.state
    ensures error == HeadError(c, bs)
    ensures error.None? ==> HeadIsRead(c, bs, r, ccs, a, code)
  {
    hide Loop, ReadHead, HeadError, AfterHead, Absorb, Sound, Pending;
    FirstStage(c, bs);
    a, code, error := first, Continue, None;
    var bm := r.ReadFull(a.missing);
    if bm.Err? {
      return a, code, Some(bm.error);
    }
    ghost var n: nat := 1 + a.missing;
    assert bm.value == bs[1..n] && r.rest == bs[n..];
    SecondStage(c, bs);
    code := ccs.CheckComplete(bm.value);
    if code.Rejects() {
      return a, code, Some(DataValueNotAccepted);
    }
    var d := new DecoderState(bm.value);
    a := d.DecodeInitial(a);
  }

  /** The head `a` of `bs` has been read and checked, and nothing else. */
  ghost predicate HeadIsRead(c: Core, bs: seq<byte>, r: Reader, ccs: CheckCompleteState, a: InitialDecode, code: Code)
    requires bs != []
    reads r, ccs, ccs.state
  {
    var (i, rest) := ReadHead(ZERO_INITIAL, bs);
    var h := |bs| - |rest|;
    && 0 < h <= 5 && a == i && Pending(a) && r.rest == rest
    && ccs.TheCore() == AfterHead(c, a, h).core && code == AfterHead(c, a, h).code
    && ccs.state.Valid() && ccs.TotalBytesRead() == h && ccs.state.index == |ccs.state.data|
  }

  lemma WholeIsRead(c: Core, bs: seq<byte>, r: Reader, ccs: CheckCompleteState, a: InitialDecode, code: Code)
    requires bs != [] && ReadHead(ZERO_INITIAL, bs) == (a, bs[1..]) && Pending(a) && r.rest == bs[1..]
    requires ccs.state.Valid() && |ccs.state.data| == 1 && ccs.previousBytesRead == 0
    requires Outcome(code, ccs.TheCore(), ccs.state.Unread()) == AfterHead(c, a, 1) && ccs.state.Unread() == []
    ensures HeadIsRead(c, bs, r, ccs, a, code)
  {
    hide ReadHead, AfterHead, Pending;
  }

  lemma NoHead(c: Core)
    ensures HeadError(c, []) == Some(EndOfFile)
  {
  }

  /** Reads one value and checks it on the way; `c` is a copy of the caller's validator. */
  method ReadCheckValue(r: Reader, c: Core, maxSize: int) returns (v: Result<(DbufVal, bool)>)
    requires IsFresh(c)
    modifies r
    ensures match CheckedItem(c, maxSize, old(r.rest))
            case Ok(f) => v == Ok((f.val, f.done)) && r.rest == f.rest
            case Err(e) => v == Err(e)
  {
    hide Loop, ReadHead, HeadError, AfterHead, Sound, Admitted, Completes, Pending;
    ghost var bs := r.rest;
    var ccs := new CheckCompleteState(c);
    var a, code, error := ReadCheckHead(r, c, ccs);
    if error.Some? {
      return Err(error.value);
    }
    ghost var h := |bs| - |r.rest|;
    HeadFacts(c, bs);
    AfterHeadShape(c, a, h);
    var buf := None;
    if a.TypeHasSlice() {
      if ccs.TotalBytesRead() + a.value > maxSize {
        return Err(DataValueNotAccepted);
      }
      var payload := r.ReadFull(a.value);
      if payload.Err? {
        return Err(payload.error);
      }
      if ccs.sliceMode && |ccs.stack| == 0 {
        return Err(Panic);
      }
      PayloadCode(c, a, h, payload.value);
      code := ccs.CheckComplete(payload.value);
      if code.Rejects() {
        return Err(DataValueNotAccepted);
      }
      buf := Some(payload.value);
    }
    if ccs.TotalBytesRead() > maxSize {
      return Err(DataValueNotAccepted);
    }
    v := Ok((a.GetDbufVal(buf), code == Done));
  }

  lemma HeadFacts(c: Core, bs: seq<byte>)
    requires HeadError(c, bs).None?
    ensures ReadHead(ZERO_INITIAL, bs).0.missing == 0
            && (c.useLength ==> |bs| - |ReadHead(ZERO_INITIAL, bs).1| <= c.length)
  {
  }

  /** How a request says where its body ends: by a value in the header, a length, or a marker. */
  datatype BodyLengthProperties = BodyLengthProperties(value: Option<DbufVal>, length: Option<u64>, indefinite: bool) {
    function HasBody(): bool {
      indefinite || length.Some? || value.Some?
    }

    function HasFooter(): bool {
      indefinite || length.Some?
    }
  }

  const REGISTRY_BODY_LENGTH: u32 := 140

  const BODY_LENGTH_KEY: DbufValString := Registry(REGISTRY_BODY_LENGTH).ToDbufValString()
  const VALUE_KEY: DbufValString := Registry(REGISTRY_VALUE).ToDbufValString()

  /** The headers state the body's end in just one of the three ways, or not at all. A length is
      a non-negative 64-bit integer in either of its encodings. */
  predicate Declares(headers: map<DbufValString, DbufVal>, clp: BodyLengthProperties) {
    if BODY_LENGTH_KEY !in headers then
      clp == BodyLengthProperties(if VALUE_KEY in headers then Some(headers[VALUE_KEY]) else None, None, false)
    else
      var p := headers[BODY_LENGTH_KEY];
      && VALUE_KEY !in headers && clp.value.None?
      && if p.typ == TYPE_REGISTRY then p.value == REGISTRY_DESCRIBE_NO_VALUE && clp.length.None? && clp.indefinite
         else GetU64Spec(p).Ok? && clp.length == Some(GetU64Spec(p).value) && !clp.indefinite
  }

  method GetBodyLengthProperties(headers: map<DbufValString, DbufVal>) returns (r: Result<BodyLengthProperties>)
    ensures r.Ok? ==> Declares(headers, r.value)
    ensures r.Err? ==> forall clp :: !Declares(headers, clp)
  {
    var value := if VALUE_KEY in headers then Some(headers[VALUE_KEY]) else None;
    if BODY_LENGTH_KEY in headers {
      if value.Some? {
        return Err(DataKeyNotAccepted);
      }
      var p := headers[BODY_LENGTH_KEY];
      if p.typ == TYPE_UINT || p.typ == TYPE_INTEGER {
        var u := GetU64(p);
        if u.Err? {
          return Err(u.error);
        }
        return Ok(BodyLengthProperties(None, Some(u.value), false));
      } else if p.typ == TYPE_REGISTRY {
        if p.value != REGISTRY_DESCRIBE_NO_VALUE {
          return Err(DataValueNotAccepted);
        }
        return Ok(BodyLengthProperties(None, None, true));
      } else {
        return Err(DataValueNotAccepted);
      }
    }
    r := Ok(BodyLengthProperties(value, None, false));
  }

  datatype ContentProperties = ContentProperties(hasBody: bool, body: seq<DbufVal>, hasFooter: bool, footer: DbufVal)

  const NO_FOOTER: DbufVal := DbufVal(0, 0, None)

  const END_MARKER: DbufVal := Registry(REGISTRY_END_MARKER)

  /** The value is kept: end markers are dropped, except in a body of declared length. */
  function Kept(c: Core, v: DbufVal): seq<DbufVal> {
    if c.useLength || !Equal(v, END_MARKER) then [v] else []
  }

  /** A body and the bytes that follow it. */
  function BodyFrom(c: Core, maxSize: int, bs: seq<byte>): (r: Result<(seq<DbufVal>, seq<byte>)>)
    decreases |bs|
  {
    var f := CheckedItem(c, maxSize, bs);
    if f.Err? then Err(f.error)
    else if f.value.done then Ok((Kept(c, f.value.val), f.value.rest))
    else
      var more := BodyFrom(c, maxSize, f.value.rest);
      if more.Err? then more else Ok((Kept(c, f.value.val) + more.value.0, more.value.1))
  }

  /** The validator every value of the body starts with. */
  function BodyCore(clp: BodyLengthProperties): Core {
    Fresh(clp.length.Some?, if clp.length.Some? then clp.length.value else 0, clp.indefinite)
  }

  /** The validator of the footer. */
  const FOOTER_CORE: Core := Fresh(true, MAX_HEADER_SIZE, false)

  /** The body and the footer of a stream, and the bytes that follow them. */
  function ContentFrom(clp: BodyLengthProperties, maxBufferSize: int, bs: seq<byte>)
    : Result<(ContentProperties, seq<byte>)>
  {
    if clp.value.Some? then
      Ok((ContentProperties(true, [clp.value.value], clp.HasFooter(), NO_FOOTER), bs))
    else if !clp.HasBody() || maxBufferSize <= 0 then
      Ok((ContentProperties(clp.HasBody(), [], clp.HasFooter(), NO_FOOTER), bs))
    else if clp.length.Some? && clp.length.value > maxBufferSize then Err(DataValueNotAccepted)
    else
      var body := BodyFrom(BodyCore(clp), maxBufferSize, bs);
      if body.Err? then Err(body.error)
      else
        var footer := CheckedItem(FOOTER_CORE, MAX_HEADER_SIZE, body.value.1);
        if footer.Err? then Err(footer.error)
        else Ok((ContentProperties(true, body.value.0, true, footer.value.val), footer.value.rest))
  }

  method GetContent(r: Reader, clp: BodyLengthProperties, maxBufferSize: int) returns (out: Result<ContentProperties>)
    modifies r
    ensures match ContentFrom(clp, maxBufferSize, old(r.rest))
            case Ok((content, rest)) => out == Ok(content) && r.rest == rest
            case Err(e) => out == Err(e)
  {
    hide CheckedItem, Equal;
    var body: seq<DbufVal> := [];
    var footer := NO_FOOTER;
    if clp.value.Some? {
      body := [clp.value.value];
    } else if clp.HasBody() && maxBufferSize > 0 {
      if clp.length.Some? && clp.length.value > maxBufferSize {
        return Err(DataValueNotAccepted);
      }
      var c := BodyCore(clp);
      var done := false;
      ghost var all := BodyFrom(c, maxBufferSize, r.rest);
      if all.Ok? {
        assert [] + all.value.0 == all.value.0;
      }
      while !done
        invariant done ==> all == Ok((body, r.rest))
        invariant !done ==> all == Prepend2(body, BodyFrom(c, maxBufferSize, r.rest))
        decreases |r.rest|, !done
      {
        var item := ReadCheckValue(r, c, maxBufferSize);
        if item.Err? {
          return Err(item.error);
        }
        var v := item.value.0;
        done := item.value.1;
        var isEndMarker := Equal(v, END_MARKER);
        ghost var more := BodyFrom(c, maxBufferSize, r.rest);
        if !done && more.Ok? {
          AppendKept(body, Kept(c, v), more.value.0);
        }
        AppendNothing(body);
        if clp.length.Some? || !isEndMarker {
          body := body + [v];
        }
      }
      var last := ReadCheckValue(r, FOOTER_CORE, MAX_HEADER_SIZE);
      if last.Err? {
        return Err(last.error);
      }
      footer := last.value.0;
    }
    out := Ok(ContentProperties(clp.HasBody(), body, clp.HasFooter(), footer));
  }

  /** More values in front of a body. */
  function Prepend2(front: seq<DbufVal>, r: Result<(seq<DbufVal>, seq<byte>)>): Result<(seq<DbufVal>, seq<byte>)> {
    if r.Ok? then Ok((front + r.value.0, r.value.1)) else r
  }

  lemma AppendKept(a: seq<DbufVal>, b: seq<DbufVal>, c: seq<DbufVal>)
    ensures a + (b + c) == (a + b) + c
  {
  }

  lemma AppendNothing(a: seq<DbufVal>)
    ensures a + [] == a
  {
  }

  /** The one value of a body. */
  function SingleBody(body: seq<DbufVal>): Result<DbufVal> {
    if |body| > 1 then Err(DataValueNotAccepted)
    else if |body| == 0 then Err(DataKeyMissing)
    else Ok(body[0])
  }

  method GetSingleBody(r: Reader, headers: map<DbufValString, DbufVal>, maxBufferSize: int)
    returns (out: Result<DbufVal>)
    modifies r
    ensures forall clp :: Declares(headers, clp) ==>
              match ContentFrom(clp, maxBufferSize, old(r.rest))
              case Ok((content, rest)) => out == SingleBody(content.body) && r.rest == rest
              case Err(e) => out == Err(e)
    ensures (forall clp :: !Declares(headers, clp)) ==> out.Err? && r.rest == old(r.rest)
    ensures VALUE_KEY in headers && BODY_LENGTH_KEY !in headers ==>
              out == Ok(headers[VALUE_KEY]) && r.rest == old(r.rest)
    ensures VALUE_KEY !in headers && BODY_LENGTH_KEY !in headers ==> out == Err(DataKeyMissing) && r.rest == old(r.rest)
  {
    hide BodyFrom, CheckedItem;
    ghost var inHeader := if VALUE_KEY in headers then Some(headers[VALUE_KEY]) else None;
    assert BODY_LENGTH_KEY !in headers ==> Declares(headers, BodyLengthProperties(inHeader, None, false));
    var clp := GetBodyLengthProperties(headers);
    if clp.Err? {
      return Err(clp.error);
    }
    var content := GetContent(r, clp.value, maxBufferSize);
    if content.Err? {
      return Err(content.error);
    }
    out := SingleBody(content.value.body);
  }
}
