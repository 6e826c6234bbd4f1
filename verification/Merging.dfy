/** Merging stored headers into the headers of a request. */
module Merging {
  import opened Basics
  import opened Values
  import opened Heads
  import opened Decoder
  import opened Keys
  import opened Paths

  // ------------------------------------------------------- values that share a buffer

  /** A decoded value whose slice is a stretch of the buffer it was decoded from. */
  datatype Span = Span(typ: kind, value: u32, start: nat, len: nat) {
    function End(): nat {
      start + len
    }

    /** The value as the buffer stands. */
    function In(buf: seq<byte>): DbufVal
      requires End() <= |buf|
    {
      DbufVal(typ, value, if HasSlice(typ) then Some(buf[start..End()]) else None)
    }

    predicate IsReference() {
      typ == TYPE_REGISTRY && value == REGISTRY_REFERENCE
    }
  }

  predicate Within(spans: seq<Span>, size: nat) {
    forall k :: 0 <= k < |spans| ==> spans[k].End() <= size
  }

  function Vals(spans: seq<Span>, buf: seq<byte>): (vals: seq<DbufVal>)
    requires Within(spans, |buf|)
    ensures |vals| == |spans|
  {
    seq(|spans|, k requires 0 <= k < |spans| => spans[k].In(buf))
  }

  /** No value lies before the end of an earlier one. */
  predicate Ordered(spans: seq<Span>) {
    forall j, k :: 0 <= j < k < |spans| ==> spans[j].End() <= spans[k].start
  }

  // Where the bytes of a decoded value lie.
  lemma SpanPosition(data: seq<byte>, index: nat, end: nat)
    requires index <= end <= |data| && Decode(data[index..]).Ok? && Decode(data[index..]).value.rest == data[end..]
    ensures var val := Decode(data[index..]).value.Val(); var len := |val.Bytes()|;
            index + len < end && Span(val.typ, val.value, end - len, len).In(data) == val
  {
    hide ReadHead;
    var input := data[index..];
    var (i, rest) := ReadHead(ZERO_INITIAL, input);
    if i.TypeHasSlice() {
      assert rest == data[|data| - |rest|..];
      assert rest[..i.value] == data[end - i.value..end];
    }
  }

  /** The values of a buffer from some index on, each with its place. */
  function SpansFrom(data: seq<byte>, index: nat): Result<seq<Span>>
    requires index <= |data|
    decreases |data| - index
  {
    if index == |data| then Ok([])
    else
      var item := Decode(data[index..]);
      if item.Err? then Err(item.error)
      else
        var val, end := item.value.Val(), |data| - |item.value.rest|;
        Prepend([Span(val.typ, val.value, end - |val.Bytes()|, |val.Bytes()|)], SpansFrom(data, end))
  }

  predicate Behind(spans: seq<Span>, index: nat) {
    forall k :: 0 <= k < |spans| ==> index <= spans[k].start
  }

  lemma NoSpans(data: seq<byte>, index: nat)
    ensures Within([], |data|) && Ordered([]) && Behind([], index) && Vals([], data) == []
  {
  }

  // They are the values that decoding returns, in their order in the buffer.
  lemma {:induction false} SpansDecode(data: seq<byte>, index: nat)
    requires index <= |data|
    ensures match SpansFrom(data, index)
            case Err(e) => DecodeSequence(data[index..]) == Err(e)
            case Ok(spans) =>
              && Within(spans, |data|) && Ordered(spans) && Behind(spans, index)
              && DecodeSequence(data[index..]) == Ok(Vals(spans, data))
    decreases |data| - index
  {
    hide Decode, DecodeSequence, Within, Ordered, Behind, Vals;
    if index == |data| {
      assert Within([], |data|) && Ordered([]) && Behind([], index) && Vals([], data) == [] by { NoSpans(data, index); }
      assert data[index..] == [];
      NothingLast([]);
    } else {
      var input := data[index..];
      DecodeFirst(input);
      var item := Decode(input);
      if item.Ok? {
        var end := |data| - |item.value.rest|;
        assert item.value.rest == data[end..];
        SpanPosition(data, index, end);
        SpansDecode(data, end);
        var more := SpansFrom(data, end);
        if more.Ok? {
          var val := item.value.Val();
          SpansFront(data, index, Span(val.typ, val.value, end - |val.Bytes()|, |val.Bytes()|), more.value);
        }
      }
    }
  }

  lemma SpansFront(data: seq<byte>, index: nat, span: Span, spans: seq<Span>)
    requires span.End() <= |data| && index <= span.start
    requires Within(spans, |data|) && Ordered(spans) && Behind(spans, span.End())
    ensures var all := [span] + spans;
            Within(all, |data|) && Ordered(all) && Behind(all, index)
            && Vals(all, data) == [span.In(data)] + Vals(spans, data)
  {
    hide Span.In;
  }

  /** Decodes a buffer to values that share it. */
  method DecodeSpans(data: seq<byte>) returns (r: Result<seq<Span>>)
    requires |data| < TWO_TO_THE_32
    ensures r == SpansFrom(data, 0)
  {
    hide Decode;
    var ds := new DecoderState(data);
    var spans: seq<Span> := [];
    PrependNothing(SpansFrom(data, 0));
    while ds.index < |data|
      invariant ds.Valid() && ds.data == data && fresh(ds)
      invariant SpansFrom(data, 0) == Prepend(spans, SpansFrom(data, ds.index))
      decreases |data| - ds.index
    {
      ghost var index := ds.index;
      var v, bytes, error := ds.DecodeOne();
      if error.Some? {
        return Err(error.value);
      }
      var val := v.GetDbufVal(bytes);
      SpanPosition(data, index, ds.index);
      var span := Span(val.typ, val.value, ds.index - |val.Bytes()|, |val.Bytes()|);
      PrependTwice(spans, [span], SpansFrom(data, ds.index));
      spans := spans + [span];
    }
    r := Ok(spans);
    assert spans + [] == spans;
  }

  lemma NothingLast(vals: seq<DbufVal>)
    ensures Prepend(vals, DecodeSequence([])) == Ok(vals)
  {
    assert vals + [] == vals;
  }

  // ---------------------------------------------------------------------- merging

  /** Writing behind a slice that shares its buffer: in place if the buffer reaches that far. */
  function Overwrite(buf: seq<byte>, at: nat, bs: seq<byte>): (r: seq<byte>)
    requires at <= |buf|
    ensures |r| == |buf|
  {
    if at + |bs| <= |buf| then buf[..at] + bs + buf[at + |bs|..] else buf
  }

  /** What one stored pair does to the headers: a reference is extended by the request's own,
      any other key must be new. */
  function MergePair(m: Headers, suffix: Option<DbufVal>, key: DbufVal, value: DbufVal): Result<Headers> {
    if Equal(key, REFERENCE) && suffix.Some? then
      if suffix.value.typ != TYPE_ARRAY then Err(DataTypeNotAccepted)
      else Ok(m[REFERENCE_KEY := Extended(value, suffix.value.Bytes())])
    else if key.ToDbufValString() in m then Err(DataKeyNotAccepted)
    else Ok(m[key.ToDbufValString() := value])
  }

  /** The buffer after a stored pair. */
  function BufferAfter(buf: seq<byte>, suffix: Option<DbufVal>, key: Span, value: Span): (r: seq<byte>)
    requires value.End() <= |buf|
    ensures |r| == |buf|
  {
    if key.IsReference() && suffix.Some? && HasSlice(value.typ)
    then Overwrite(buf, value.End(), suffix.value.Bytes()) else buf
  }

  /** Merging stored pairs that share a buffer. */
  function MergeShared(m: Headers, suffix: Option<DbufVal>, spans: seq<Span>, buf: seq<byte>): Result<Headers>
    requires Within(spans, |buf|)
    decreases |spans|
  {
    if spans == [] then Ok(m)
    else if |spans| == 1 then OddKey(m, suffix, spans[0].In(buf))
    else
      var r := MergePair(m, suffix, spans[0].In(buf), spans[1].In(buf));
      if r.Err? then r else MergeShared(r.value, suffix, spans[2..], BufferAfter(buf, suffix, spans[0], spans[1]))
  }

  /** A last key without a value. */
  function OddKey(m: Headers, suffix: Option<DbufVal>, key: DbufVal): Result<Headers> {
    if !(Equal(key, REFERENCE) && suffix.Some?) && key.ToDbufValString() in m
    then Err(DataKeyNotAccepted) else Err(Panic)
  }

  /** Merging stored pairs as values. */
  function Merge(m: Headers, suffix: Option<DbufVal>, vals: seq<DbufVal>): Result<Headers>
    decreases |vals|
  {
    if vals == [] then Ok(m)
    else if |vals| == 1 then OddKey(m, suffix, vals[0])
    else
      var r := MergePair(m, suffix, vals[0], vals[1]);
      if r.Err? then r else Merge(r.value, suffix, vals[2..])
  }

  lemma ReferenceSpan(span: Span, buf: seq<byte>)
    requires span.End() <= |buf|
    ensures Equal(span.In(buf), REFERENCE) <==> span.IsReference()
  {
  }

  /** The write that appending to a slice makes behind it, if its buffer reaches that far. */
  method WriteBehind(buf: array<byte>, at: nat, bs: seq<byte>)
    requires at <= buf.Length
    modifies buf
    ensures buf[..] == Overwrite(old(buf[..]), at, bs)
  {
    if at + |bs| <= buf.Length {
      forall k | 0 <= k < |bs| {
        buf[at + k] := bs[k];
      }
    }
  }

  lemma MergeStep(m: Headers, suffix: Option<DbufVal>, spans: seq<Span>, buf: seq<byte>)
    requires Within(spans, |buf|) && |spans| >= 2
    ensures var r := MergePair(m, suffix, spans[0].In(buf), spans[1].In(buf));
            MergeShared(m, suffix, spans, buf)
            == if r.Err? then r
                        else MergeShared(r.value, suffix, spans[2..], BufferAfter(buf, suffix, spans[0], spans[1]))
  {
  }

  /** The loop over the stored pairs, which share the buffer `buf`. */
  method MergeStored(m: Headers, suffix: Option<DbufVal>, spans: seq<Span>, buf: array<byte>)
    returns (r: Result<Headers>)
    requires Within(spans, buf.Length)
    modifies buf
    ensures r == MergeShared(m, suffix, spans, old(buf[..]))
  {
    hide Equal, MergePair, Overwrite, OddKey;
    var merged := m;
    var i := 0;
    assert spans[0..] == spans;
    while i < |spans|
      invariant i <= |spans|
      invariant MergeShared(m, suffix, spans, old(buf[..])) == MergeShared(merged, suffix, spans[i..], buf[..])
    {
      ghost var rest, before := spans[i..], buf[..];
      var key := spans[i].In(buf[..]);
      if i + 1 >= |spans| {
        return OddKey(merged, suffix, key);
      }
      var value := spans[i + 1];
      MergeStep(merged, suffix, rest, before);
      var next := MergePair(merged, suffix, key, value.In(buf[..]));
      if next.Err? {
        return next;
      }
      ReferenceSpan(spans[i], before);
      if Equal(key, REFERENCE) && suffix.Some? && HasSlice(value.typ) {
        WriteBehind(buf, value.End(), suffix.value.Bytes());
      }
      assert buf[..] == BufferAfter(before, suffix, spans[i], value);
      assert rest[2..] == spans[i + 2..];
      merged := next.value;
      i := i + 2;
    }
    r := Ok(merged);
  }

  // --------------------------------------------------------------- what merging means

  /** The key is replaced by merging rather than refused. */
  predicate Replaced(key: DbufValString, suffix: Option<DbufVal>) {
    key == REFERENCE_KEY && suffix.Some?
  }

  /** A stored key fits the headers: only the reference may occur in both, as an array. */
  predicate FitsHeaders(m: Headers, suffix: Option<DbufVal>, key: DbufVal) {
    if Replaced(key.ToDbufValString(), suffix) then suffix.value.typ == TYPE_ARRAY else key.ToDbufValString() !in m
  }

  /** The value that a stored pair has in the merged headers. */
  function MergedValue(suffix: Option<DbufVal>, key: DbufValString, value: DbufVal): DbufVal {
    if Replaced(key, suffix) then Extended(value, suffix.value.Bytes()) else value
  }

  lemma PairExactly(m: Headers, suffix: Option<DbufVal>, key: DbufVal, value: DbufVal)
    ensures MergePair(m, suffix, key, value)
         == if FitsHeaders(m, suffix, key)
            then Ok(m[key.ToDbufValString() := MergedValue(suffix, key.ToDbufValString(), value)])
            else Err(if Replaced(key.ToDbufValString(), suffix) then DataTypeNotAccepted else DataKeyNotAccepted)
  {
    hide Extended;
  }

  predicate AllFit(m: Headers, suffix: Option<DbufVal>, vals: seq<DbufVal>) {
    forall k :: 0 <= k < |vals| && k % 2 == 0 ==> FitsHeaders(m, suffix, vals[k])
  }

  /** No stored key is repeated but the reference, and that only if the request has one too. */
  predicate Distinct(suffix: Option<DbufVal>, vals: seq<DbufVal>) {
    forall i, j ::
      0 <= i < j < |vals| && i % 2 == 0 && j % 2 == 0 && vals[i].ToDbufValString() == vals[j].ToDbufValString() ==>
        Replaced(vals[i].ToDbufValString(), suffix)
  }

  /** What merging demands of the stored values. */
  predicate Mergeable(m: Headers, suffix: Option<DbufVal>, vals: seq<DbufVal>) {
    |vals| % 2 == 0 && AllFit(m, suffix, vals) && Distinct(suffix, vals)
  }

  /** The headers of the request and the stored ones, with the reference extended. */
  function Union(m: Headers, suffix: Option<DbufVal>, stored: Headers): Headers {
    m + map key | key in stored :: MergedValue(suffix, key, stored[key])
  }

  // Merging succeeds exactly when no key occurs on both sides or twice, the reference apart, and
  // then gives the union of both sides, the last stored reference being the one extended.
  lemma {:induction false} MergeExactly(m: Headers, suffix: Option<DbufVal>, vals: seq<DbufVal>)
    ensures Merge(m, suffix, vals).Ok? <==> Mergeable(m, suffix, vals)
    ensures Merge(m, suffix, vals).Ok? ==> Merge(m, suffix, vals) == Ok(Union(m, suffix, PairMap(vals)))
    decreases |vals|
  {
    hide Equal, MergePair, AllFit, Distinct, FitsHeaders, Union, MergedValue, PairMap;
    if vals == [] {
      NothingMerged(m, suffix);
    } else if |vals| > 1 {
      var rest, r := vals[2..], MergePair(m, suffix, vals[0], vals[1]);
      PairExactly(m, suffix, vals[0], vals[1]);
      FirstFits(m, suffix, vals);
      if r.Ok? {
        MergeExactly(r.value, suffix, rest);
        FitsFront(m, suffix, vals);
        if |vals| % 2 == 0 {
          UnionFront(m, suffix, vals);
        }
      }
    }
  }

  lemma NothingMerged(m: Headers, suffix: Option<DbufVal>)
    ensures Mergeable(m, suffix, []) && Union(m, suffix, PairMap([])) == m
  {
  }

  lemma FirstFits(m: Headers, suffix: Option<DbufVal>, vals: seq<DbufVal>)
    requires vals != []
    ensures AllFit(m, suffix, vals) ==> FitsHeaders(m, suffix, vals[0])
  {
  }

  // The pairs behind the first one can be merged with it exactly if they can all be merged.
  lemma FitsFront(m: Headers, suffix: Option<DbufVal>, vals: seq<DbufVal>)
    requires |vals| >= 2 && FitsHeaders(m, suffix, vals[0])
    ensures var next := m[vals[0].ToDbufValString() := MergedValue(suffix, vals[0].ToDbufValString(), vals[1])];
            AllFit(m, suffix, vals) && Distinct(suffix, vals)
            <==> AllFit(next, suffix, vals[2..]) && Distinct(suffix, vals[2..])
  {
    hide MergedValue;
    var next := m[vals[0].ToDbufValString() := MergedValue(suffix, vals[0].ToDbufValString(), vals[1])];
    var rest := vals[2..];
    assert forall k :: 0 <= k < |rest| ==> rest[k] == vals[k + 2];
    if AllFit(m, suffix, vals) && Distinct(suffix, vals) {
      forall k | 0 <= k < |rest| && k % 2 == 0 ensures FitsHeaders(next, suffix, rest[k]) {
        assert FitsHeaders(m, suffix, vals[k + 2]);
      }
    }
    if AllFit(next, suffix, rest) && Distinct(suffix, rest) {
      forall k | 0 <= k < |vals| && k % 2 == 0
        ensures FitsHeaders(m, suffix, vals[k])
        ensures k > 0 && vals[k].ToDbufValString() == vals[0].ToDbufValString() ==>
                  Replaced(vals[0].ToDbufValString(), suffix)
      {
        assert k == 0 || FitsHeaders(next, suffix, rest[k - 2]);
      }
      forall i, j | 0 <= i < j < |vals| && i % 2 == 0 && j % 2 == 0
        && vals[i].ToDbufValString() == vals[j].ToDbufValString()
        ensures Replaced(vals[i].ToDbufValString(), suffix)
      {
        assert i == 0 || (vals[i] == rest[i - 2] && vals[j] == rest[j - 2]);
      }
    }
  }

  lemma {:induction false} UnionFront(m: Headers, suffix: Option<DbufVal>, vals: seq<DbufVal>)
    requires |vals| % 2 == 0 && vals != []
    ensures var key := vals[0].ToDbufValString();
            Union(m[key := MergedValue(suffix, key, vals[1])], suffix, PairMap(vals[2..]))
            == Union(m, suffix, PairMap(vals))
  {
    hide MergedValue, PairMap;
    PairMapFront(vals);
  }

  /** The value of a span is that of a decoded value. */
  predicate AsDecoded(v: DbufVal) {
    v.slice.Some? == HasSlice(v.typ)
  }

  // An extended value shows what it was extended from.
  lemma ExtendedBinds(a: DbufVal, b: DbufVal, suffix: seq<byte>)
    requires AsDecoded(a) && AsDecoded(b) && Extended(a, suffix) == Extended(b, suffix)
    ensures a == b
  {
    if a.slice.Some? {
      var x, y := a.Bytes(), b.Bytes();
      assert |x| == |y|;
      assert x == (x + suffix)[..|x|] && y == (y + suffix)[..|y|];
    }
  }

  // The merged headers show the stored pairs.
  lemma UnionBinds(m: Headers, suffix: Option<DbufVal>, a: Headers, b: Headers)
    requires forall key :: key in a && key in m ==> Replaced(key, suffix)
    requires forall key :: key in b && key in m ==> Replaced(key, suffix)
    requires (forall key :: key in a ==> AsDecoded(a[key])) && (forall key :: key in b ==> AsDecoded(b[key]))
    requires REFERENCE_KEY in a <==> REFERENCE_KEY in b
    requires Union(m, suffix, a) == Union(m, suffix, b)
    ensures a == b
  {
    hide Extended, AsDecoded;
    var u := Union(m, suffix, a);
    forall key ensures key in a <==> key in b {
      assert key in u <==> key in m || key in a;
      assert key in u <==> key in m || key in b;
    }
    forall key | key in a ensures a[key] == b[key] {
      assert u[key] == MergedValue(suffix, key, a[key]) == MergedValue(suffix, key, b[key]);
      if Replaced(key, suffix) {
        ExtendedBinds(a[key], b[key], suffix.value.Bytes());
      }
    }
  }

  // ------------------------------------------------------------ what a shared buffer does

  /** The position of the pair that position `i` is in. */
  function PairAt(i: nat): (k: nat)
    ensures k <= i <= k + 1 && k % 2 == 0
  {
    i - i % 2
  }

  /** The buffer when the loop comes to the pair at position `k`. */
  function BufferBefore(spans: seq<Span>, suffix: Option<DbufVal>, buf: seq<byte>, k: nat): (r: seq<byte>)
    requires Within(spans, |buf|) && k <= |spans| && k % 2 == 0
    ensures |r| == |buf|
  {
    if k == 0 then buf else BufferAfter(BufferBefore(spans, suffix, buf, k - 2), suffix, spans[k - 2], spans[k - 1])
  }

  /** The stored keys and values as the loop reads them. */
  function SharedVals(spans: seq<Span>, suffix: Option<DbufVal>, buf: seq<byte>): (vals: seq<DbufVal>)
    requires Within(spans, |buf|)
    ensures |vals| == |spans|
  {
    seq(|spans|, i requires 0 <= i < |spans| => spans[i].In(BufferBefore(spans, suffix, buf, i - i % 2)))
  }

  lemma {:induction false} BufferShift(spans: seq<Span>, suffix: Option<DbufVal>, buf: seq<byte>, k: nat)
    requires Within(spans, |buf|) && 2 <= k <= |spans| && k % 2 == 0
    ensures BufferBefore(spans, suffix, buf, k)
         == BufferBefore(spans[2..], suffix, BufferAfter(buf, suffix, spans[0], spans[1]), k - 2)
  {
    hide BufferAfter;
    if k > 2 {
      BufferShift(spans, suffix, buf, k - 2);
      assert spans[2..][k - 4] == spans[k - 2] && spans[2..][k - 3] == spans[k - 1];
    } else {
      assert BufferBefore(spans, suffix, buf, 0) == buf;
    }
  }

  lemma SharedFirst(spans: seq<Span>, suffix: Option<DbufVal>, buf: seq<byte>)
    requires Within(spans, |buf|) && spans != []
    ensures SharedVals(spans, suffix, buf)[0] == spans[0].In(buf)
    ensures |spans| > 1 ==> SharedVals(spans, suffix, buf)[1] == spans[1].In(buf)
  {
    hide Span.In, BufferAfter;
  }

  lemma {:induction false} SharedRest(spans: seq<Span>, suffix: Option<DbufVal>, buf: seq<byte>)
    requires Within(spans, |buf|) && |spans| >= 2
    ensures SharedVals(spans, suffix, buf)[2..]
         == SharedVals(spans[2..], suffix, BufferAfter(buf, suffix, spans[0], spans[1]))
  {
    hide Span.In, BufferAfter, BufferBefore;
    var rest, after := spans[2..], BufferAfter(buf, suffix, spans[0], spans[1]);
    forall i | 0 <= i < |rest|
      ensures SharedVals(spans, suffix, buf)[i + 2] == SharedVals(rest, suffix, after)[i]
    {
      assert PairAt(i + 2) == PairAt(i) + 2;
      BufferShift(spans, suffix, buf, PairAt(i + 2));
      assert rest[i] == spans[i + 2];
    }
  }

  lemma MergeOne(m: Headers, suffix: Option<DbufVal>, spans: seq<Span>, buf: seq<byte>)
    requires Within(spans, |buf|) && |spans| == 1
    ensures MergeShared(m, suffix, spans, buf) == OddKey(m, suffix, spans[0].In(buf))
  {
  }

  // Merging pairs that share a buffer is merging the values that the loop comes to read.
  lemma {:induction false} SharedIsMerge(m: Headers, suffix: Option<DbufVal>, spans: seq<Span>, buf: seq<byte>)
    requires Within(spans, |buf|)
    ensures MergeShared(m, suffix, spans, buf) == Merge(m, suffix, SharedVals(spans, suffix, buf))
    decreases |spans|
  {
    hide MergePair, OddKey, Equal, BufferAfter, Span.In, BufferBefore, SharedVals, MergeShared;
    if spans == [] {
      MergeNone(m, suffix, buf);
    } else if |spans| == 1 {
      SharedFirst(spans, suffix, buf);
      MergeOne(m, suffix, spans, buf);
    } else {
      MergeStep(m, suffix, spans, buf);
      var rest, after := spans[2..], BufferAfter(buf, suffix, spans[0], spans[1]);
      SharedFirst(spans, suffix, buf);
      SharedRest(spans, suffix, buf);
      var r := MergePair(m, suffix, spans[0].In(buf), spans[1].In(buf));
      if r.Ok? {
        SharedIsMerge(r.value, suffix, rest, after);
      }
    }
  }

  /** The pair at position `j` writes behind its value, in place, at position `p`. */
  predicate Writes(spans: seq<Span>, suffix: Option<DbufVal>, size: nat, j: nat, p: int) {
    && j + 1 < |spans| && spans[j].IsReference() && suffix.Some? && HasSlice(spans[j + 1].typ)
    && spans[j + 1].End() <= p < spans[j + 1].End() + |suffix.value.Bytes()| <= size
  }

  /** The last pair before position `k` to write at position `p`. */
  function LastWrite(spans: seq<Span>, suffix: Option<DbufVal>, size: nat, k: nat, p: int): (j: Option<nat>)
    requires k % 2 == 0
    ensures j.Some? ==> Writes(spans, suffix, size, j.value, p)
  {
    if k == 0 then None
    else if Writes(spans, suffix, size, k - 2, p) then Some(k - 2)
    else LastWrite(spans, suffix, size, k - 2, p)
  }

  lemma OverwriteByte(buf: seq<byte>, at: nat, bs: seq<byte>, p: nat)
    requires at <= |buf| && p < |buf|
    ensures Overwrite(buf, at, bs)[p] == if at <= p < at + |bs| <= |buf| then bs[p - at] else buf[p]
  {
  }

  lemma {:induction false} BufferByte(spans: seq<Span>, suffix: Option<DbufVal>, buf: seq<byte>, k: nat, p: nat)
    requires Within(spans, |buf|) && k <= |spans| && k % 2 == 0 && p < |buf|
    ensures var j := LastWrite(spans, suffix, |buf|, k, p);
            BufferBefore(spans, suffix, buf, k)[p]
            == if j.Some? then suffix.value.Bytes()[p - spans[j.value + 1].End()] else buf[p]
  {
    hide Overwrite, Span.IsReference;
    if k > 0 {
      BufferByte(spans, suffix, buf, k - 2, p);
      if suffix.Some? {
        OverwriteByte(BufferBefore(spans, suffix, buf, k - 2), spans[k - 1].End(), suffix.value.Bytes(), p);
      }
    }
  }

  /** No byte of the slice at position `i` has been written over with another one when the loop
      comes to read it. */
  predicate Intact(spans: seq<Span>, suffix: Option<DbufVal>, buf: seq<byte>, i: nat)
    requires Within(spans, |buf|) && i < |spans|
  {
    HasSlice(spans[i].typ) ==>
      forall p :: spans[i].start <= p < spans[i].End() ==> SameByte(spans, suffix, buf, PairAt(i), p)
  }

  predicate SameByte(spans: seq<Span>, suffix: Option<DbufVal>, buf: seq<byte>, k: nat, p: nat)
    requires k % 2 == 0 && p < |buf|
  {
    var j := LastWrite(spans, suffix, |buf|, k, p);
    j.Some? ==> suffix.value.Bytes()[p - spans[j.value + 1].End()] == buf[p]
  }

  // A stored value is read as it was stored exactly when it is intact.
  lemma {:induction false} IntactExactly(spans: seq<Span>, suffix: Option<DbufVal>, buf: seq<byte>, i: nat)
    requires Within(spans, |buf|) && i < |spans|
    ensures SharedVals(spans, suffix, buf)[i] == spans[i].In(buf) <==> Intact(spans, suffix, buf, i)
  {
    hide BufferBefore, LastWrite, SameByte;
    var k, s := PairAt(i), spans[i];
    var before := BufferBefore(spans, suffix, buf, k);
    forall p: nat | p < |buf| ensures before[p] == buf[p] <==> SameByte(spans, suffix, buf, k, p) {
      ByteExactly(spans, suffix, buf, k, p);
    }
    var x, y := before[s.start..s.End()], buf[s.start..s.End()];
    if x == y {
      forall p | s.start <= p < s.End() ensures before[p] == buf[p] {
        assert x[p - s.start] == y[p - s.start];
      }
    }
  }

  lemma ByteExactly(spans: seq<Span>, suffix: Option<DbufVal>, buf: seq<byte>, k: nat, p: nat)
    requires Within(spans, |buf|) && k <= |spans| && k % 2 == 0 && p < |buf|
    ensures BufferBefore(spans, suffix, buf, k)[p] == buf[p] <==> SameByte(spans, suffix, buf, k, p)
  {
    BufferByte(spans, suffix, buf, k, p);
  }

  predicate AllIntact(spans: seq<Span>, suffix: Option<DbufVal>, buf: seq<byte>)
    requires Within(spans, |buf|)
  {
    forall i :: 0 <= i < |spans| ==> Intact(spans, suffix, buf, i)
  }

  lemma {:induction false} AllIntactExactly(spans: seq<Span>, suffix: Option<DbufVal>, buf: seq<byte>)
    requires Within(spans, |buf|)
    ensures SharedVals(spans, suffix, buf) == Vals(spans, buf) <==> AllIntact(spans, suffix, buf)
  {
    hide Intact, Span.In, BufferBefore;
    forall i | 0 <= i < |spans|
      ensures SharedVals(spans, suffix, buf)[i] == Vals(spans, buf)[i] <==> Intact(spans, suffix, buf, i)
    {
      IntactExactly(spans, suffix, buf, i);
    }
    if SharedVals(spans, suffix, buf) == Vals(spans, buf) {
      forall i | 0 <= i < |spans| ensures Intact(spans, suffix, buf, i) {
        assert SharedVals(spans, suffix, buf)[i] == Vals(spans, buf)[i];
      }
    }
  }

  /** No write behind a stored reference reaches into a later slice. */
  predicate Undisturbed(spans: seq<Span>, suffix: Option<DbufVal>, size: nat) {
    forall i, p :: 0 <= i < |spans| && HasSlice(spans[i].typ) && spans[i].start <= p < spans[i].End() ==>
      LastWrite(spans, suffix, size, PairAt(i), p).None?
  }

  // Then merging is merging of the stored values as values.
  lemma MergeUndisturbed(m: Headers, suffix: Option<DbufVal>, spans: seq<Span>, buf: seq<byte>)
    requires Within(spans, |buf|) && Undisturbed(spans, suffix, |buf|)
    ensures AllIntact(spans, suffix, buf)
    ensures MergeShared(m, suffix, spans, buf) == Merge(m, suffix, Vals(spans, buf))
  {
    hide LastWrite, Merge, MergeShared;
    SharedIsMerge(m, suffix, spans, buf);
    AllIntactExactly(spans, suffix, buf);
  }

  // With one stored reference, there is one write: the pairs up to the reference are read from
  // the buffer as it was, and the others from the buffer behind the write.
  lemma {:induction false} OneWrite(spans: seq<Span>, suffix: Option<DbufVal>, buf: seq<byte>, k: nat)
    requires Within(spans, |buf|) && k + 1 < |spans| && k % 2 == 0
    requires forall j :: 0 <= j < |spans| && j % 2 == 0 ==> (spans[j].IsReference() <==> j == k)
    ensures Within(spans[..k + 2], |buf|) && Within(spans[k + 2..], |buf|)
    ensures var after := BufferAfter(buf, suffix, spans[k], spans[k + 1]);
            SharedVals(spans, suffix, buf) == Vals(spans[..k + 2], buf) + Vals(spans[k + 2..], after)
  {
    hide Span.In, BufferAfter, BufferBefore;
    var after := BufferAfter(buf, suffix, spans[k], spans[k + 1]);
    var front, back := Vals(spans[..k + 2], buf), Vals(spans[k + 2..], after);
    forall i | 0 <= i < |spans| ensures SharedVals(spans, suffix, buf)[i] == (front + back)[i] {
      OneWriteBefore(spans, suffix, buf, k, PairAt(i));
      assert i < k + 2 ==> spans[..k + 2][i] == spans[i];
      assert i >= k + 2 ==> spans[k + 2..][i - k - 2] == spans[i];
    }
  }

  lemma {:induction false} OneWriteBefore(spans: seq<Span>, suffix: Option<DbufVal>, buf: seq<byte>, k: nat, i: nat)
    requires Within(spans, |buf|) && k + 1 < |spans| && k % 2 == 0 && i <= |spans| && i % 2 == 0
    requires forall j :: 0 <= j < |spans| && j % 2 == 0 ==> (spans[j].IsReference() <==> j == k)
    ensures BufferBefore(spans, suffix, buf, i)
         == if i <= k then buf else BufferAfter(buf, suffix, spans[k], spans[k + 1])
    decreases i
  {
    hide Overwrite;
    if i > 0 {
      OneWriteBefore(spans, suffix, buf, k, i - 2);
    }
  }

  // Merging keeps every header of the request but the reference, whatever the buffer holds.
  lemma MergeKeeps(m: Headers, suffix: Option<DbufVal>, spans: seq<Span>, buf: seq<byte>)
    requires Within(spans, |buf|) && MergeShared(m, suffix, spans, buf).Ok?
    ensures var r := MergeShared(m, suffix, spans, buf).value;
            forall key :: key in m ==> key in r && (r[key] == m[key] || Replaced(key, suffix))
  {
    hide MergeShared, Merge, MergedValue, Equal, BufferBefore, Span.In;
    var vals := SharedVals(spans, suffix, buf);
    SharedIsMerge(m, suffix, spans, buf);
    MergeExactly(m, suffix, vals);
    forall key | key in m && key in PairMap(vals) ensures Replaced(key, suffix) {
      StoredKeyFits(m, suffix, vals, key);
    }
  }

  lemma StoredKeyFits(m: Headers, suffix: Option<DbufVal>, vals: seq<DbufVal>, key: DbufValString)
    requires |vals| % 2 == 0 && AllFit(m, suffix, vals) && key in PairMap(vals) && key in m
    ensures Replaced(key, suffix)
  {
    PairMapKeys(vals);
    var k :| 0 <= k < |vals| && k % 2 == 0 && vals[k].ToDbufValString() == key;
    assert FitsHeaders(m, suffix, vals[k]);
  }

  /** `k` is the position of the last reference among the stored keys, and a value follows it. */
  predicate LastReference(spans: seq<Span>, k: nat) {
    && k + 1 < |spans| && k % 2 == 0 && spans[k].IsReference()
    && forall j :: k < j < |spans| && j % 2 == 0 ==> !spans[j].IsReference()
  }

  // The last reference is the one that the map of the stored pairs has.
  lemma {:induction false} ReferenceInMap(spans: seq<Span>, vals: seq<DbufVal>, k: nat)
    requires |vals| == |spans| && |spans| % 2 == 0 && LastReference(spans, k)
    requires forall j :: 0 <= j < |spans| ==> (spans[j].IsReference() <==> vals[j].ToDbufValString() == REFERENCE_KEY)
    ensures REFERENCE_KEY in PairMap(vals) && PairMap(vals)[REFERENCE_KEY] == vals[k + 1]
    decreases |spans|
  {
    hide Span.IsReference;
    var n := |spans| - 2;
    if k < n {
      ReferenceInMap(spans[..n], vals[..n], k);
    }
  }

  lemma ReferenceKey(span: Span, buf: seq<byte>)
    requires span.End() <= |buf|
    ensures span.In(buf).ToDbufValString() == REFERENCE_KEY <==> span.IsReference()
    ensures AsDecoded(span.In(buf))
  {
  }

  // The merged reference is the last stored one, as the loop comes to read it, with the
  // request's bytes behind it.
  lemma {:induction false} MergeReference(m: Headers, suffix: Option<DbufVal>, spans: seq<Span>, buf: seq<byte>, k: nat)
    requires Within(spans, |buf|) && MergeShared(m, suffix, spans, buf).Ok? && LastReference(spans, k)
    ensures var r, stored := MergeShared(m, suffix, spans, buf).value, SharedVals(spans, suffix, buf)[k + 1];
            && REFERENCE_KEY in r
            && r[REFERENCE_KEY] == if suffix.Some? then Extended(stored, suffix.value.Bytes()) else stored
  {
    hide MergeShared, Merge, Extended, Equal, BufferBefore, PairMap, AllFit, Distinct;
    var vals := SharedVals(spans, suffix, buf);
    SharedIsMerge(m, suffix, spans, buf);
    MergeExactly(m, suffix, vals);
    SharedKeys(spans, suffix, buf);
    ReferenceInMap(spans, vals, k);
  }

  // Which keys are references does not depend on the buffer.
  lemma {:induction false} SharedKeys(spans: seq<Span>, suffix: Option<DbufVal>, buf: seq<byte>)
    requires Within(spans, |buf|)
    ensures forall j :: 0 <= j < |spans| ==>
      (spans[j].IsReference() <==> SharedVals(spans, suffix, buf)[j].ToDbufValString() == REFERENCE_KEY)
    ensures forall j :: 0 <= j < |spans| ==>
      (spans[j].IsReference() <==> Vals(spans, buf)[j].ToDbufValString() == REFERENCE_KEY)
    ensures forall j :: 0 <= j < |spans| ==>
      AsDecoded(SharedVals(spans, suffix, buf)[j]) && AsDecoded(Vals(spans, buf)[j])
  {
    hide Span.In, Span.IsReference, AsDecoded, BufferBefore;
    forall j | 0 <= j < |spans|
      ensures spans[j].IsReference() <==> SharedVals(spans, suffix, buf)[j].ToDbufValString() == REFERENCE_KEY
      ensures spans[j].IsReference() <==> Vals(spans, buf)[j].ToDbufValString() == REFERENCE_KEY
      ensures AsDecoded(SharedVals(spans, suffix, buf)[j]) && AsDecoded(Vals(spans, buf)[j])
    {
      ReferenceKey(spans[j], buf);
      ReferenceKey(spans[j], BufferBefore(spans, suffix, buf, PairAt(j)));
    }
  }

  // The merged headers are the union of the request's and the stored ones exactly when both the
  // stored values and those that the loop reads can be merged and make the same map.
  lemma {:induction false} UnionExactly(m: Headers, suffix: Option<DbufVal>, spans: seq<Span>, buf: seq<byte>)
    requires Within(spans, |buf|) && Mergeable(m, suffix, Vals(spans, buf))
    ensures MergeShared(m, suffix, spans, buf) == Ok(Union(m, suffix, PairMap(Vals(spans, buf))))
            <==> Mergeable(m, suffix, SharedVals(spans, suffix, buf))
                 && PairMap(SharedVals(spans, suffix, buf)) == PairMap(Vals(spans, buf))
  {
    hide MergeShared, Merge, PairMap, AllFit, Distinct, Vals, SharedVals, Union, AsDecoded;
    var shared, vals := SharedVals(spans, suffix, buf), Vals(spans, buf);
    SharedIsMerge(m, suffix, spans, buf);
    MergeExactly(m, suffix, shared);
    if Mergeable(m, suffix, shared) && Union(m, suffix, PairMap(shared)) == Union(m, suffix, PairMap(vals)) {
      SharedKeys(spans, suffix, buf);
      PairsBind(m, suffix, spans, shared, vals);
    }
  }

  lemma {:induction false} PairsBind(m: Headers, suffix: Option<DbufVal>, spans: seq<Span>, a: seq<DbufVal>,
                                     b: seq<DbufVal>)
    requires |a| == |b| == |spans| && Mergeable(m, suffix, a) && Mergeable(m, suffix, b)
    requires forall j :: 0 <= j < |spans| ==> (spans[j].IsReference() <==> a[j].ToDbufValString() == REFERENCE_KEY)
    requires forall j :: 0 <= j < |spans| ==> (spans[j].IsReference() <==> b[j].ToDbufValString() == REFERENCE_KEY)
    requires forall j :: 0 <= j < |spans| ==> AsDecoded(a[j]) && AsDecoded(b[j])
    requires Union(m, suffix, PairMap(a)) == Union(m, suffix, PairMap(b))
    ensures PairMap(a) == PairMap(b)
  {
    hide PairMap, Union, AsDecoded, Distinct, Span.IsReference;
    PairMapKeys(a);
    PairMapKeys(b);
    forall key | key in m && (key in PairMap(a) || key in PairMap(b)) ensures Replaced(key, suffix) {
      if key in PairMap(a) {
        StoredKeyFits(m, suffix, a, key);
      } else {
        StoredKeyFits(m, suffix, b, key);
      }
    }
    AllDecoded(a);
    AllDecoded(b);
    assert REFERENCE_KEY in PairMap(a) <==> exists j :: 0 <= j < |spans| && j % 2 == 0 && spans[j].IsReference();
    UnionBinds(m, suffix, PairMap(a), PairMap(b));
  }

  lemma {:induction false} AllDecoded(vals: seq<DbufVal>)
    requires |vals| % 2 == 0 && forall j :: 0 <= j < |vals| ==> AsDecoded(vals[j])
    ensures forall key :: key in PairMap(vals) ==> AsDecoded(PairMap(vals)[key])
    decreases |vals|
  {
    hide AsDecoded;
    if vals != [] {
      AllDecoded(vals[..|vals| - 2]);
    }
  }

  predicate HasValue(m: Headers, key: DbufVal, value: DbufVal) {
    key.ToDbufValString() in m && m[key.ToDbufValString()] == value
  }

  // ------------------------------------------------------------- an overwritten value

  /** A stored reference and, behind it, a stored operation: both arrays of one value. */
  const STORED: seq<byte> := [0xC8, 0x81, 0xCB, 0xC9, 0x81, 0xC1]

  const STORED_SPANS: seq<Span> := [
    Span(TYPE_REGISTRY, REGISTRY_REFERENCE, 1, 0), Span(TYPE_ARRAY, 0, 2, 1),
    Span(TYPE_REGISTRY, REGISTRY_OPERATION, 4, 0), Span(TYPE_ARRAY, 0, 5, 1)]

  // A value of a head with a small value.
  // A registry value and an array of one byte.
  lemma {:induction false} DecodePair(n: byte, x: byte, rest: seq<byte>)
    requires n < 24
    ensures DecodeSequence([0xC0 + n, 0x81, x] + rest)
         == Prepend([Registry(n), DbufVal(TYPE_ARRAY, 0, Some([x]))], DecodeSequence(rest))
  {
    hide Decode, DecodeSequence;
    var second := [0x81] + ([x] + rest);
    assert [0xC0 + n, 0x81, x] + rest == [0xC0 + n] + second;
    DecodeShort(0xC0 + n, second);
    DecodeFirst([0xC0 + n] + second);
    DecodeShort(0x81, [x] + rest);
    DecodeFirst(second);
    assert ([x] + rest)[..1] == [x] && ([x] + rest)[1..] == rest;
    var array_ := DbufVal(TYPE_ARRAY, 0, Some([x]));
    assert DecodeSequence(second) == Prepend([array_], DecodeSequence(rest));
    if DecodeSequence(rest).Ok? {
      var more := DecodeSequence(rest).value;
      assert [Registry(n)] + ([array_] + more) == [Registry(n), array_] + more;
    }
  }

  const STORED_VALS: seq<DbufVal> := [REFERENCE, DbufVal(TYPE_ARRAY, 0, Some([0xCB])),
                                      Registry(REGISTRY_OPERATION), DbufVal(TYPE_ARRAY, 0, Some([0xC1]))]

  lemma StoredWithin()
    ensures Within(STORED_SPANS, |STORED|)
  {
  }

  lemma {:induction false} StoredDecodes()
    ensures DecodeSequence(STORED) == Ok(STORED_VALS)
    ensures Within(STORED_SPANS, |STORED|)
    ensures Vals(STORED_SPANS, STORED) == STORED_VALS
  {
    hide Decode, DecodeSequence;
    StoredWithin();
    assert STORED == [0xC8, 0x81, 0xCB] + ([0xC9, 0x81, 0xC1] + []);
    DecodePair(8, 0xCB, [0xC9, 0x81, 0xC1] + []);
    DecodePair(9, 0xC1, []);
    NothingLast(STORED_VALS[2..]);
    assert STORED_VALS[2..] == [Registry(9), DbufVal(TYPE_ARRAY, 0, Some([0xC1]))];
    assert STORED_VALS == [Registry(8), DbufVal(TYPE_ARRAY, 0, Some([0xCB]))] + STORED_VALS[2..];
    assert STORED[2..3] == [0xCB] && STORED[5..6] == [0xC1];
  }

  lemma MergeTwo(m: Headers, suffix: DbufVal, p: DbufVal, v: DbufVal)
    requires suffix.typ == TYPE_ARRAY && OPERATION_KEY !in m
    ensures Merge(m, Some(suffix), [REFERENCE, p, Registry(REGISTRY_OPERATION), v])
         == Ok(m[REFERENCE_KEY := Extended(p, suffix.Bytes())][OPERATION_KEY := v])
  {
    hide Extended, MergePair;
    var vals := [REFERENCE, p, Registry(REGISTRY_OPERATION), v];
    PairExactly(m, Some(suffix), REFERENCE, p);
    var m1 := m[REFERENCE_KEY := Extended(p, suffix.Bytes())];
    PairExactly(m1, Some(suffix), Registry(REGISTRY_OPERATION), v);
    var rest := vals[2..];
    assert rest == [Registry(REGISTRY_OPERATION), v] && rest[2..] == [];
    assert OPERATION_KEY != REFERENCE_KEY;
    assert Merge(m1, Some(suffix), rest) == Ok(m1[OPERATION_KEY := v]);
  }

  // When the reference is not the last stored pair, its extension can overwrite a stored value:
  // here the operation, by the end of the request's own reference.
  lemma {:induction false} OverwrittenOperation()
    ensures Within(STORED_SPANS, |STORED|)
    ensures var suffix := DbufVal(TYPE_ARRAY, 0, Some([0xCA, 0xCA, 0xCA])); var m := map[REFERENCE_KEY := suffix];
            var shared, merged := MergeShared(m, Some(suffix), STORED_SPANS, STORED),
                                Merge(m, Some(suffix), STORED_VALS);
            && DecodeSequence(STORED) == Ok(STORED_VALS) == Ok(Vals(STORED_SPANS, STORED))
            && merged.Ok? && HasValue(merged.value, Registry(REGISTRY_OPERATION), DbufVal(TYPE_ARRAY, 0, Some([0xC1])))
            && shared.Ok? && HasValue(shared.value, Registry(REGISTRY_OPERATION), DbufVal(TYPE_ARRAY, 0, Some([0xCA])))
  {
    hide DecodeSequence, Merge, MergeShared, Vals, MergePair;
    StoredWithin();
    StoredDecodes();
    var suffix := DbufVal(TYPE_ARRAY, 0, Some([0xCA, 0xCA, 0xCA]));
    var m := map[REFERENCE_KEY := suffix];
    MergeTwo(m, suffix, STORED_VALS[1], STORED_VALS[3]);
    var after := Overwrite(STORED, 3, [0xCA, 0xCA, 0xCA]);
    assert after == [0xC8, 0x81, 0xCB, 0xCA, 0xCA, 0xCA];
    MergeStep(m, Some(suffix), STORED_SPANS, STORED);
    PairExactly(m, Some(suffix), REFERENCE, STORED_SPANS[1].In(STORED));
    var m1 := m[REFERENCE_KEY := MergedValue(Some(suffix), REFERENCE_KEY, STORED_SPANS[1].In(STORED))];
    var rest := STORED_SPANS[2..];
    MergeStep(m1, Some(suffix), rest, after);
    PairExactly(m1, Some(suffix), Registry(REGISTRY_OPERATION), rest[1].In(after));
    assert after[5..6] == [0xCA];
    assert rest[1].In(after) == DbufVal(TYPE_ARRAY, 0, Some([0xCA]));
    assert rest[2..] == [];
    var m2 := m1[OPERATION_KEY := rest[1].In(after)];
    assert MergeShared(m2, Some(suffix), [], after) == Ok(m2) by { MergeNone(m2, Some(suffix), after); }
  }

  lemma MergeNone(m: Headers, suffix: Option<DbufVal>, buf: seq<byte>)
    ensures MergeShared(m, suffix, [], buf) == Ok(m)
  {
  }
}
