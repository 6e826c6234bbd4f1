/** What a request is addressed to, from the values its sender wrote. */
module Addresses {
  import opened Basics
  import opened Values
  import opened Decoder
  import opened Encoding
  import opened Trees
  import opened Keys
  import opened Paths
  import opened Requests

  const HOST: DbufValSeq := Plain(Registry(REGISTRY_HOST))
  const MARKER: DbufValSeq := Plain(Registry(REGISTRY_AUTHORITY_MARKER))

  predicate IsArray(v: DbufValSeq) {
    v.Nested? && v.val.typ == TYPE_ARRAY
  }

  // The content of an array as the server decodes it.
  lemma ArrayDecodes(v: DbufValSeq)
    requires WellFormed(v) && Sized(v) && IsArray(v)
    ensures AllSized(v.sequence) && SliceForm(v).typ == TYPE_ARRAY
    ensures DecodeSequence(SliceForm(v).Bytes()) == Ok(SliceForms(v.sequence))
  {
    hide DecodeSequence, EncAll, Decodable;
    NestedPayload(v);
    WritableDecodable(v.sequence);
    DecodeEncAll(v.sequence);
  }

  /** A reference: an array that starts with the host and goes on. */
  predicate IsReference(v: DbufValSeq) {
    IsArray(v) && |v.sequence| >= 2 && v.sequence[0] == HOST
  }

  // A reference is taken apart at its first marker: what is before it is the authority, and what
  // is behind it the sub-path. Without a marker all of it is the authority. Nothing else is taken.
  lemma ReferenceRoundTrip(v: DbufValSeq, k: nat)
    requires WellFormed(v) && Sized(v) && IsArray(v) && AllSized(v.sequence)
    requires k <= |v.sequence| && (forall j :: 0 <= j < k ==> v.sequence[j] != MARKER)
    requires k < |v.sequence| ==> v.sequence[k] == MARKER
    ensures ReferencePath(SliceForm(v)).Ok? <==> IsReference(v)
    ensures IsReference(v) ==>
              ReferencePath(SliceForm(v))
              == Ok((SliceForms(v.sequence)[..k],
                     if k < |v.sequence| then SliceForms(v.sequence)[k + 1..] else []))
  {
    hide DecodeSequence, Equal;
    ArrayDecodes(v);
    var vals := SliceForms(v.sequence);
    forall j | 0 <= j < |vals|
      ensures (IsMarker(vals[j]) <==> v.sequence[j] == MARKER)
      ensures Equal(vals[j], Registry(REGISTRY_HOST)) <==> v.sequence[j] == HOST
    {
      ScalarBack(v.sequence[j]);
    }
    PartsAt(vals, k);
  }

  // A registry value is one in a tree as well.
  lemma ScalarBack(v: DbufValSeq)
    requires WellFormed(v) && Sized(v)
    ensures forall n: u32 ::
              SliceForm(v).ToDbufValString() == Registry(n).ToDbufValString() <==> v == Plain(Registry(n))
  {
    if !HasSlice(v.val.typ) {
      assert v.Plain? && v.val.slice.None?;
    }
  }

  // What is no array is no reference.
  lemma OtherReference(v: DbufValSeq)
    requires WellFormed(v) && Sized(v) && !IsArray(v)
    ensures ReferencePath(SliceForm(v)) == Err(DataTypeNotAccepted)
  {
  }

  // An operation is a registry value, or an array of one and its parameters. Nothing else is taken.
  lemma OperationRoundTrip(v: DbufValSeq)
    requires WellFormed(v) && Sized(v)
    ensures v.val.typ == TYPE_REGISTRY ==> OperationOf(SliceForm(v)) == Ok((v.val, []))
    ensures IsArray(v) ==>
              && AllSized(v.sequence)
              && (OperationOf(SliceForm(v)).Ok? <==> v.sequence != [] && v.sequence[0].val.typ == TYPE_REGISTRY)
              && (OperationOf(SliceForm(v)).Ok? ==>
                    OperationOf(SliceForm(v)) == Ok((v.sequence[0].val, SliceForms(v.sequence[1..]))))
    ensures v.val.typ != TYPE_REGISTRY && !IsArray(v) ==> OperationOf(SliceForm(v)) == Err(DataTypeNotAccepted)
  {
    hide DecodeSequence, Equal;
    if IsArray(v) {
      ArrayDecodes(v);
      if v.sequence != [] {
        assert SliceForms(v.sequence)[1..] == SliceForms(v.sequence[1..]);
        RegistryForm(v.sequence[0]);
      }
    } else {
      RegistryForm(v);
    }
  }

  lemma RegistryForm(v: DbufValSeq)
    requires WellFormed(v) && Sized(v)
    ensures SliceForm(v).typ == v.val.typ
    ensures v.val.typ == TYPE_REGISTRY ==> SliceForm(v) == v.val
    ensures v.val.typ == TYPE_ARRAY ==> v.Nested?
  {
  }

  // The path of a request whose reference and operation were written so.
  lemma PathRoundTrip(headers: Headers, v: DbufValSeq, k: nat, op: Option<DbufValSeq>)
    requires WellFormed(v) && Sized(v) && IsReference(v) && AllSized(v.sequence)
    requires k < |v.sequence| && v.sequence[k] == MARKER && forall j :: 0 <= j < k ==> v.sequence[j] != MARKER
    requires REFERENCE_KEY in headers && headers[REFERENCE_KEY] == SliceForm(v)
    requires if op.None? then OPERATION_KEY !in headers
             else && OPERATION_KEY in headers && WellFormed(op.value) && Sized(op.value)
                  && headers[OPERATION_KEY] == SliceForm(op.value)
    ensures var path := PathOf(headers); var vals := SliceForms(v.sequence);
            && (path.Ok? <==> op.None? || OperationOf(SliceForm(op.value)).Ok?)
            && (path.Ok? ==> path.value.authority == vals[..k] && path.value.subPath == vals[k + 1..])
            && (op.None? ==> path.value.operationId.None? && path.value.operationParams == [])
            && (path.Ok? && op.Some? ==>
                  OperationOf(SliceForm(op.value)) == Ok((path.value.operationId.value, path.value.operationParams)))
  {
    hide OperationOf, ReferencePath, SliceForms, WellFormed, Sized;
    ReferenceRoundTrip(v, k);
  }

  // A request without a reference, or with one that is none, has no path.
  lemma NoPath(headers: Headers)
    ensures REFERENCE_KEY !in headers ==> PathOf(headers) == Err(DataKeyMissing)
    ensures REFERENCE_KEY in headers && ReferencePath(headers[REFERENCE_KEY]).Err? ==> PathOf(headers).Err?
  {
    hide ReferencePath, OperationOf;
  }
}
