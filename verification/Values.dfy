/** The value types of the format: heads, decoded values and value trees. */
module Values {
  import opened Basics

  /** The eight types a head can carry. */
  type kind = t: int | 0 <= t < 8

  const TYPE_INTEGER: kind := 0
  const TYPE_TEXT: kind := 2
  const TYPE_BYTES: kind := 3
  const TYPE_ARRAY: kind := 4
  const TYPE_MAP: kind := 5
  const TYPE_REGISTRY: kind := 6
  const TYPE_UINT: kind := 7

  const REGISTRY_DESCRIBE_NO_VALUE: u32 := 1
  const REGISTRY_VALUE: u32 := 4
  const REGISTRY_END_MARKER: u32 := 133

  predicate HasSlice(typ: kind) {
    typ != TYPE_REGISTRY && typ != TYPE_UINT
  }

  predicate HasNesting(typ: kind) {
    typ == TYPE_ARRAY || typ == TYPE_MAP
  }

  /** A head as it is being read: its extra bytes may still be missing. */
  datatype InitialDecode = InitialDecode(value: u32, typ: kind, missing: byte, extra: byte) {
    predicate TypeHasSlice() {
      HasSlice(typ)
    }

    predicate TypeHasNesting() {
      HasNesting(typ)
    }

    predicate IsEndMarker() {
      typ == TYPE_REGISTRY && value == REGISTRY_END_MARKER
    }

    function GetDbufVal(parseBytes: Option<seq<byte>>): DbufVal {
      DbufVal(typ, if parseBytes.Some? then 0 else value, parseBytes)
    }
  }

  const ZERO_INITIAL := InitialDecode(0, 0, 0, 0)

  /** A decoded value; `None` is a nil slice, which differs from an empty one. */
  datatype DbufVal = DbufVal(typ: kind, value: u32, slice: Option<seq<byte>>) {
    /** The bytes of the slice, with nil read as empty. */
    function Bytes(): seq<byte> {
      if slice.Some? then slice.value else []
    }

    function ToDbufValString(): DbufValString {
      DbufValString(typ, value, Bytes())
    }

    function ToDbufSeq(): DbufValSeq {
      Plain(this)
    }
  }

  /** A value with its bytes as an immutable string: the key type of every map. */
  datatype DbufValString = DbufValString(typ: kind, value: u32, str: seq<byte>) {
    /** The slice is made from the string, so it is empty but never nil. */
    function ToDbufSeq(): DbufValSeq {
      Plain(DbufVal(typ, value, Some(str)))
    }
  }

  /** A value tree. `Plain` has a nil sequence of children, `Nested` a non-nil one. */
  datatype DbufValSeq =
    | Plain(val: DbufVal)
    | Nested(val: DbufVal, sequence: seq<DbufValSeq>)

  function Uint(n: u32): DbufVal {
    DbufVal(TYPE_UINT, n, None)
  }

  function Registry(n: u32): DbufVal {
    DbufVal(TYPE_REGISTRY, n, None)
  }

  function Integer(b: seq<byte>): DbufVal {
    DbufVal(TYPE_INTEGER, 0, Some(b))
  }

  function Text(b: seq<byte>): DbufVal {
    DbufVal(TYPE_TEXT, 0, Some(b))
  }

  function ByteString(b: seq<byte>): DbufVal {
    DbufVal(TYPE_BYTES, 0, Some(b))
  }

  function Array(): DbufVal {
    DbufVal(TYPE_ARRAY, 0, None)
  }
}
