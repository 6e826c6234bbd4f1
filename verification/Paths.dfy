/** The path of a request: the authority it is addressed to, what follows, and the operation. */
module Paths {
  import opened Basics
  import opened Values
  import opened Decoder
  import opened Keys

  const REGISTRY_REFERENCE: u32 := 8
  const REGISTRY_OPERATION: u32 := 9
  const REGISTRY_AUTHORITY_MARKER: u32 := 10
  const REGISTRY_HOST: u32 := 11

  const REFERENCE: DbufVal := Registry(REGISTRY_REFERENCE)
  const REFERENCE_KEY: DbufValString := REFERENCE.ToDbufValString()
  const OPERATION_KEY: DbufValString := Registry(REGISTRY_OPERATION).ToDbufValString()

  type Headers = map<DbufValString, DbufVal>

  datatype PathProperties = PathProperties(authority: seq<DbufVal>, subPath: seq<DbufVal>,
                                           operationId: Option<DbufVal>, operationParams: seq<DbufVal>)

  // ------------------------------------------------------------------- references

  predicate IsMarker(v: DbufVal) {
    Equal(v, Registry(REGISTRY_AUTHORITY_MARKER))
  }

  predicate HasMarker(vals: seq<DbufVal>) {
    exists k :: 0 <= k < |vals| && IsMarker(vals[k])
  }

  /** What precedes the first authority marker, or everything. */
  function AuthorityPart(vals: seq<DbufVal>): seq<DbufVal> {
    if vals == [] || IsMarker(vals[0]) then [] else [vals[0]] + AuthorityPart(vals[1..])
  }

  /** What follows the first authority marker. */
  function SubPathPart(vals: seq<DbufVal>): seq<DbufVal> {
    if vals == [] then [] else if IsMarker(vals[0]) then vals[1..] else SubPathPart(vals[1..])
  }

  // The parts, by the position of the first marker.
  lemma {:induction false} PartsAt(vals: seq<DbufVal>, k: nat)
    requires k <= |vals| && forall j :: 0 <= j < k ==> !IsMarker(vals[j])
    requires k == |vals| || IsMarker(vals[k])
    ensures AuthorityPart(vals) == vals[..k] && SubPathPart(vals) == if k == |vals| then [] else vals[k + 1..]
    decreases k
  {
    hide IsMarker;
    if k > 0 {
      PartsAt(vals[1..], k - 1);
      assert vals[..k] == [vals[0]] + vals[1..][..k - 1];
      assert k < |vals| ==> vals[1..][k..] == vals[k + 1..];
    }
  }

  // What is appended to a reference with a marker only makes the sub-path longer.
  lemma {:induction false} PartsAppend(a: seq<DbufVal>, b: seq<DbufVal>)
    ensures HasMarker(a) ==> AuthorityPart(a + b) == AuthorityPart(a) && SubPathPart(a + b) == SubPathPart(a) + b
    ensures !HasMarker(a) ==> AuthorityPart(a) == a && AuthorityPart(a + b) == a + AuthorityPart(b)
    ensures !HasMarker(a) ==> SubPathPart(a) == [] && SubPathPart(a + b) == SubPathPart(b)
  {
    hide IsMarker;
    if a == [] {
      assert a + b == b;
    } else {
      assert (a + b)[1..] == a[1..] + b;
      PartsAppend(a[1..], b);
      MarkerFront(a);
    }
  }

  lemma MarkerFront(a: seq<DbufVal>)
    requires a != []
    ensures HasMarker(a) <==> IsMarker(a[0]) || HasMarker(a[1..])
  {
    hide IsMarker;
    assert a == [a[0]] + a[1..];
    if HasMarker(a[1..]) {
      var k :| 0 <= k < |a[1..]| && IsMarker(a[1..][k]);
      assert IsMarker(a[k + 1]);
    }
  }

  /** The authority and the sub-path of a reference: an array that starts with the host. */
  function ReferencePath(p: DbufVal): Result<(seq<DbufVal>, seq<DbufVal>)> {
    if p.typ != TYPE_ARRAY then Err(DataTypeNotAccepted)
    else
      var sv := DecodeSequence(p.Bytes());
      if sv.Err? then Err(sv.error)
      else if |sv.value| < 2 || !Equal(sv.value[0], Registry(REGISTRY_HOST)) then Err(DataValueNotAccepted)
      else Ok((AuthorityPart(sv.value), SubPathPart(sv.value)))
  }

  /** A reference with more bytes behind its own. */
  function Extended(p: DbufVal, suffix: seq<byte>): DbufVal {
    p.(slice := if p.slice.None? && suffix == [] then None else Some(p.Bytes() + suffix))
  }

  // Extending a valid reference keeps its authority exactly when the reference has a marker, or
  // the values of the suffix are none or begin with one. The suffix must decode, and then it is
  // appended to the sub-path.
  lemma ExtendedPath(p: DbufVal, suffix: seq<byte>)
    requires ReferencePath(p).Ok?
    ensures ReferencePath(Extended(p, suffix)).Ok? <==> DecodeSequence(suffix).Ok?
    ensures DecodeSequence(suffix).Ok? ==>
              var (vals, more) := (DecodeSequence(p.Bytes()).value, DecodeSequence(suffix).value);
              var (was, now) := (ReferencePath(p).value, ReferencePath(Extended(p, suffix)).value);
              && (now.0 == was.0 <==> HasMarker(vals) || more == [] || IsMarker(more[0]))
              && (HasMarker(vals) ==> now.1 == was.1 + more)
              && (!HasMarker(vals) ==> now == (was.0 + AuthorityPart(more), SubPathPart(more)))
  {
    hide IsMarker, HasMarker, Equal, DecodeSequence;
    DecodeSequenceAppend(p.Bytes(), suffix);
    assert Extended(p, suffix).Bytes() == p.Bytes() + suffix;
    if DecodeSequence(suffix).Ok? {
      var vals, more := DecodeSequence(p.Bytes()).value, DecodeSequence(suffix).value;
      PartsAppend(vals, more);
      assert (vals + more)[0] == vals[0];
      AuthorityStarts(more);
    }
  }

  lemma AuthorityStarts(vals: seq<DbufVal>)
    ensures AuthorityPart(vals) == [] <==> vals == [] || IsMarker(vals[0])
  {
  }

  // ------------------------------------------------------------------- operations

  /** The operation, as an identifier or an array of an identifier and parameters. */
  function OperationOf(op: DbufVal): Result<(DbufVal, seq<DbufVal>)> {
    if op.typ == TYPE_REGISTRY then Ok((op, []))
    else if op.typ != TYPE_ARRAY then Err(DataTypeNotAccepted)
    else
      var sv := DecodeSequence(op.Bytes());
      if sv.Err? then Err(sv.error)
      else if |sv.value| < 1 then Err(DataValueNotAccepted)
      else if sv.value[0].typ != TYPE_REGISTRY then Err(DataTypeNotAccepted)
      else Ok((sv.value[0], sv.value[1..]))
  }

  function PathOf(headers: Headers): Result<PathProperties> {
    if REFERENCE_KEY !in headers then Err(DataKeyMissing)
    else
      var path := ReferencePath(headers[REFERENCE_KEY]);
      if path.Err? then Err(path.error)
      else if OPERATION_KEY !in headers then Ok(PathProperties(path.value.0, path.value.1, None, []))
      else
        var op := OperationOf(headers[OPERATION_KEY]);
        if op.Err? then Err(op.error)
        else Ok(PathProperties(path.value.0, path.value.1, Some(op.value.0), op.value.1))
  }

  /** Decodes the content of a value. */
  method DecodeContent(v: DbufVal) returns (r: Result<seq<DbufVal>>)
    requires |v.Bytes()| < TWO_TO_THE_32
    ensures r == DecodeSequence(v.Bytes())
  {
    var ds := new DecoderState(v.Bytes());
    r := ds.DecodeAll();
  }

  predicate AllShort(headers: Headers) {
    forall key :: key in headers ==> |headers[key].Bytes()| < TWO_TO_THE_32
  }

  // Decoded values are shorter than what they were decoded from.
  lemma {:induction false} DecodedShort(bs: seq<byte>)
    requires DecodeSequence(bs).Ok?
    ensures forall k :: 0 <= k < |DecodeSequence(bs).value| ==> |DecodeSequence(bs).value[k].Bytes()| < |bs|
    decreases |bs|
  {
    hide Decode;
    if bs != [] {
      DecodedShort(Decode(bs).value.rest);
    }
  }

  method GetPathProperties(headers: Headers) returns (r: Result<PathProperties>)
    requires AllShort(headers)
    ensures r == PathOf(headers)
  {
    hide DecodeSequence, Equal, IsMarker;
    if REFERENCE_KEY !in headers {
      return Err(DataKeyMissing);
    }
    var p := headers[REFERENCE_KEY];
    if p.typ != TYPE_ARRAY {
      return Err(DataTypeNotAccepted);
    }
    var decoded := DecodeContent(p);
    if decoded.Err? {
      return Err(decoded.error);
    }
    var sv := decoded.value;
    if |sv| < 1 || !Equal(sv[0], Registry(REGISTRY_HOST)) || |sv| < 2 {
      return Err(DataValueNotAccepted);
    }
    var markerIndex := 0;
    while markerIndex < |sv| && !IsMarker(sv[markerIndex])
      invariant markerIndex <= |sv| && forall j :: 0 <= j < markerIndex ==> !IsMarker(sv[j])
    {
      markerIndex := markerIndex + 1;
    }
    PartsAt(sv, markerIndex);
    assert sv[..|sv|] == sv;
    var authority, subPath := sv, [];
    if markerIndex < |sv| {
      authority, subPath := sv[..markerIndex], sv[markerIndex + 1..];
    }
    if OPERATION_KEY !in headers {
      return Ok(PathProperties(authority, subPath, None, []));
    }
    var op := headers[OPERATION_KEY];
    if op.typ == TYPE_REGISTRY {
      return Ok(PathProperties(authority, subPath, Some(op), []));
    }
    if op.typ != TYPE_ARRAY {
      return Err(DataTypeNotAccepted);
    }
    var opVals := DecodeContent(op);
    if opVals.Err? {
      return Err(opVals.error);
    }
    if |opVals.value| < 1 {
      return Err(DataValueNotAccepted);
    }
    var opId := opVals.value[0];
    if opId.typ != TYPE_REGISTRY {
      return Err(DataTypeNotAccepted);
    }
    r := Ok(PathProperties(authority, subPath, Some(opId), opVals.value[1..]));
  }
}
