# DBUF: a verified model of the format and of the protocol pieces that depend on it

DBUF is a self-describing binary format (typed heads of 1 to 5 bytes, length-prefixed leaves,
arrays and maps) and a small request protocol on top of it. This project models, in Dafny,

* the **codec**: heads, the size measurer, the writer, the reader, the two integer encodings;
* the **streaming validator** `CheckComplete`, an explicit-stack machine that checks nested data
  as it arrives in pieces, and its refinement to a recursive grammar and to a language of trees;
* the **stream framing**: stream groups, headers, bodies (by value, by length, by end marker), footers;
* the **header store**: the server's bounded cache, the client's id allocator, authentication of stored
  headers, merging of stored and sent headers, paths and authorities; and the protocol between the two sides.

`dafny verify dfyconfig.toml` checks everything.

## How to read it

Code that changes things step by step is imperative here too: `DecoderState`, `EncoderState`,
`CheckCompleteState`, `Reader`, `HeaderStoreCacheItem`, `HeaderStoreCache` and `HeaderStoreState` are
classes whose methods update their fields, and loops over local indices are loops. Each method is proved
against a function of its inputs or of the old state (`Absorb`, `DecodeSequence`, `Enc`, `Loop`,
`CheckedItem`, `ContentFrom`, `Stored`, `PropertiesOf`, `Called`, ...), and the theorems are about those
functions.

| file | content |
|---|---|
| `Basics`, `Values`, `BigEndian` | errors, machine integers, values, value trees, base-256 digits |
| `Heads`, `Decoder`, `Encoding`, `Encoder`, `Trees` | the codec |
| `Validator`, `CheckComplete` | the validator as steps on a state, and as a class |
| `Grammar`, `Acceptance`, `LengthMode`, `Language`, `Texts`, `Refusals`, `Chunking`, `Cuts` | what the validator accepts, in one buffer and in pieces, and why it refuses |
| `Integers`, `Keys` | 64-bit integers, comparison and key lookup |
| `Framing`, `HeadStages`, `Streams`, `Contents`, `Requests` | reading values, headers and contents from a stream; round trips |
| `Paths`, `Addresses`, `Merging`, `Authentication`, `HeaderStore`, `HeaderProperties`, `ValidatedRequests`, `ServedRequests` | the server's side of stored headers, and what it makes of a request |
| `StoreProtocol`, `AuthenticatedEntries` | the client's side, and both sides over every run |

## Where the code falls short of the plain property

The model keeps what the code does. Where a property one would expect fails, the exact condition is proved,
and most of these have a lemma with a concrete input.

* **Heads that are not the shortest.** Only the validator insists on the shortest head. A stream group, the head of
  a header and everything that is decoded without it are read from any complete head (`Requests.AnyHeadGroup`,
  `Requests.AnyHeadHeader`, `Decoder.AnyHeadDecodes`). In the same way `GetU64` takes a number from 2^31 to 2^32 - 1
  as a scalar and as five bytes (`Integers.IntegersExactly`).
* **Empty items.** In a declared length, an empty container is never complete, and an empty leaf must not be
  the last item of a container (`Language.ValidItem`, `LengthMode.ExactAcceptance`).
* **Split heads.** A head resumed with fewer bytes than it misses is refused: `FC 04 00` is accepted whole and
  refused byte by byte (`Chunking.UndersuppliedPieces`). A head that fills its container and is cut off there
  closes the container: in two pieces `81 F8` and `18` the validator accepts what it refuses in one piece
  (`Chunking.HarmfulPieces`). Pieces matter exactly in these two cases: of an input that is accepted or waited
  on as a whole, the pieces give the same exactly when every split head is completed by the next bytes
  (`Chunking.PiecesOfAccepted`); of pieces that are, the whole gives the same exactly when no split head has used
  up a container before the input ends (`Chunking.AcceptedPieces`); together `Chunking.PiecesDoNotMatter`. The
  encoding of valid values may be cut anywhere as long as no head is cut at two positions (`Cuts.CutsOfEncoding`).
* **Cut payloads.** For the same reason a body may contain a container whose last scalar is cut short: it is
  framed and returned, but does not decode (`Contents.FramedDecodes`, `Contents.CutItemIsFramed`).
* **Length-delimited bodies.** The validator is copied for every value (`protocol/stream.go:169`), so each value
  starts again with the whole declared length. Such a body ends with its first value that has just this length by
  itself, whatever came before it (`Contents.LengthBodyRoundTrip`): of two declared bytes, `E0 F8 18` is read as a
  body of three (`Contents.RestartedBody`). Several values sent in the length of all of them are never read back;
  one value is, exactly when it is neither an empty leaf nor an empty container (`Contents.DeclaredRoundTrip`). An
  empty leaf there makes the program index an empty stack and panic; after an empty container the reader goes on
  into the footer (`Contents.LengthRoundTrip`).
* **End markers.** A marker that is the last item of a container ends the body as well, and the container
  stays part of the body (`Contents.EndMarkedRoundTrip`).
* **Measurement.** A scalar with a non-nil empty slice is measured as one byte whatever its value, so the writer
  runs out of buffer from 24 on (`Encoder.EncodeFullSeq`). `DbufValString.ToDbufSeq` makes such values: an
  identity or identity key that is a scalar of 24 or more has an exporter context on the client and none on the
  server (`Authentication.ContextsAgree`), which refuses it (`AuthenticatedEntries.ClientAuthenticates`).
* **No arguments.** `EncodeSequence()` returns one zero byte, the encoding of an empty integer (`Encoder.EncodeSequence`).
* **Panics.** Two kinds of validated headers make `GetHeaderStoreProperties` panic, and no others
  (`ValidatedRequests.PanicExactly`). An array header with an odd number of values is indexed past the last one, for
  example the one with content `E0` (`ValidatedRequests.ArrayHeaderPanics`); a map header never is. And a header, map
  or array, that stores headers which fit the cache, with at least four parameters that can be encoded, panics
  when the storage gives no transaction for their authority: `protocol/header.go:142` discards the transaction
  before `protocol/header.go:143` looks at the error, and `data/db.go:40` returns no transaction with it. So
  does malformed key data in the storage. The map header with content `CC 86 E0 A2 E0 E0 E0 E0` is enough, as its
  stored headers name no authority (`ValidatedRequests.MapHeaderPanics`).
* **Shared buffers.** Extending a stored reference appends in place (`protocol/header.go:223`), so stored values
  behind it can be overwritten before the loop comes to read them. Merging is exactly merging of the values that
  the loop reads (`HeaderProperties.MergedAsRead`), and these are the stored ones exactly when no write has put
  another byte into their slices. `HeaderProperties.MergedHeaders` says exactly when the result is the union of
  the request's and the stored headers. `Merging.OverwrittenOperation` shows an operation that is replaced by a
  part of the request's reference.
* **Repeated references.** Nothing forbids two references among stored headers. The last one counts, and the write
  behind an earlier one can change it. With `C8 84 CB 41 61 CA` stored twice and `C0 C0 CB 41 62 CA` in the
  request, the request is addressed to host `b` and not to host `a`, for which the headers were authenticated
  (`HeaderProperties.RedirectedRequest`). The merged reference is the last stored one with the request's own
  behind it exactly when that one is read intact; otherwise the bytes read and the extension together decide
  (`HeaderProperties.AuthorityPreserved`).
* **Authorities without marker.** Extending a reference that has no authority marker changes its authority, unless
  the extension is empty or starts with the marker (`Paths.ExtendedPath`).

## Conventions

A nil slice is `None`, an empty one `Some([])`; a nil sequence of children is the constructor `Plain`, a non-nil
one `Nested`. Errors are a small datatype; `Panic` stands for a run-time panic; the program recovers from none.
Buffers handed to a reader are shorter than 2^32 bytes, as the code's own casts assume (basic/decode.go:133, 298).
The declared total is a
64-bit word with wrap-around subtraction (`Validator.Minus`), heads shift into 32-bit words (`Basics.Shift`), map
counts and store ids wrap as their words do.

## Model

| member | source | states |
|---|---|---|
| Heads.ShortestHead | basic/encode.go:74-88 | no head that is read with some value is shorter than the measured length of the canonical one |
| Heads.ReadHeadBytes | basic/decode.go:74-96 | decoding a canonical head gives back its type and value and leaves what follows unread |
| Heads.CanonicalExactly | basic/decode.go:97-131 | a complete head passes the check if and only if it is the one the writer writes; the check waits if and only if bytes are missing |
| Heads.AbsorbSplit | basic/decode.go:75-85 | feeding the missing bytes in two portions is feeding their concatenation |
| Heads.HeadWithin | basic/decode.go:97-131 | a head does not depend on what was read before it, nor on the end of the buffer unless that falls inside it |
| Chunking.HeadInPieces | basic/decode.go:74-96 | however the bytes of a head are cut into pieces, decoding recovers its type and value |
| Decoder.DecoderState.ReadMissing | basic/decode.go:75-85 | shifts in exactly the bytes a head still misses, as far as the buffer has them |
| Decoder.DecoderState.ReadExtraValue | basic/decode.go:8-73 | value, missing and extra length for every marker and every buffer end |
| Decoder.DecoderState.DecodeInitial | basic/decode.go:74-96 | reads or resumes a head |
| Decoder.DecoderState.CheckCanonical | basic/decode.go:97-131 | reads or resumes a head and judges it; a resumed head is judged on what it has |
| Decoder.DecoderState.ReadSlice | basic/decode.go:132-143 | takes the next bytes, all that are left when there are too few |
| Decoder.DecoderState.DecodeOne | basic/decode.go:144-162 | one value, or an error exactly when the bytes end inside it |
| Decoder.DecoderState.DecodeAll | basic/decode.go:163-173 | all values of a buffer in order |
| Decoder.DecodeSequenceAppend | basic/decode.go:163-173 | if `a` decodes, the decode of `a ++ b` is the two decodes appended, and fails when that of `b` does |
| Decoder.AnyHeadDecodes | basic/decode.go:144-162 | a value with any complete head, the shortest or not, decodes if and only if its bytes are there; its number is spelled by the low bits and the extra bytes |
| Decoder.CutHead | basic/decode.go:144-162 | what ends inside its head does not decode |
| Encoder.ValueBytesAreHead | basic/encode.go:12-73 | the five branches of the writer write the big-endian digits that the reader expects |
| Encoder.EncoderState.WriteValue | basic/encode.go:12-73 | writes the value bytes behind what is written, or fails when they do not fit |
| Encoder.EncoderState.WriteInitial | basic/encode.go:89-102 | writes the canonical head, exactly as many bytes as measured |
| Encoder.EncoderState.WriteBytes | basic/encode.go:103-111 | appends bytes, or fails and writes nothing |
| Encoder.EncoderState.EncodeSeq | basic/encode.go:112-152 | writes the encoding of a tree; fails exactly when a length exceeds 32 bits or the buffer is too short |
| Encoder.Measure | basic/encode.go:163-189 | the size of a tree; fails when a length does not fit 32 bits instead of wrapping |
| Encoder.EncodeFullSeq | basic/encode.go:190-201 | succeeds if and only if the tree can be measured and its measure is exact, and then fills the buffer to the last byte |
| Encoder.EncodeSequence | basic/encode.go:202-216 | the encodings of the values in a row; one zero byte for no arguments |
| Encoding.EncodedSize | basic/encode.go:112-189 | the encoding is never shorter than measured, and has the measured size if and only if every value in it is exact |
| Encoding.AllEncodedSize | basic/encode.go:163-189 | each container's head states exactly the bytes its items occupy |
| Encoding.MeasuredIsSized | basic/encode.go:163-189 | what can be measured and is exact has every written length within 32 bits |
| Encoding.DecodeEnc | basic/decode.go:144-162 | an encoded item decodes to its slice form, whatever follows it |
| Encoding.DecodeEncAll | basic/decode.go:163-173 | the parser undoes the printer: a row of encodings decodes to the slice forms of its values |
| Trees.TreesRoundTrip | basic/encode.go:112-216 | recursive decoding returns the trees that were encoded |
| Trees.TreeRoundTrip | basic/encode.go:112-152 | the same for one tree from its slice form |
| Trees.EncAllInjective | basic/encode.go:202-216 | different lists of well-formed trees have different encodings |
| Trees.EncPrefixFree | basic/encode.go:112-152 | no item's encoding is a proper prefix of another's |
| Trees.SliceFormsInjective | basic/encode.go:202-216 | values in slice form are determined by the encoding of their list |
| Trees.EncSliceForm | basic/encode.go:112-152 | a decoded value encodes back to the bytes of its tree |
| Validator.StepKeeps | basic/decode.go:238-338 | every step of the validator keeps its invariant (falling remaining lengths, one count per map, slice mode exactly over a leaf) and advances by unread bytes, then slice mode |
| Validator.ShrinkKeeps | basic/decode.go:262-279 | closing used up frames leaves a lower part of the stack, no frame underflowing |
| Validator.ShrinkFrames | basic/decode.go:314-328 | the frames that stay open are containers that expect more |
| CheckComplete.CheckCompleteState.constructor | basic/decode.go:215-223 | a copy of a state, about to read its first buffer |
| CheckComplete.CheckCompleteState.SetBuffer | basic/decode.go:209-213 | the new buffer is read from its start and the old one counts as read |
| CheckComplete.CheckCompleteState.CloseFrames | basic/decode.go:262-279 | the in-place loop from the top of the stack is the recursive closing of frames, errors included |
| CheckComplete.CheckCompleteState.PopFrame | basic/decode.go:272-277 | the frame and its count go, and the parent map gains an item |
| CheckComplete.CheckCompleteState.ReadHeadStep | basic/decode.go:241-294 | one round of the loop outside slice mode |
| CheckComplete.CheckCompleteState.AccountForHead | basic/decode.go:250-294 | the bytes of a head are taken off the total and off every frame |
| CheckComplete.CheckCompleteState.SettleHead | basic/decode.go:280-294 | waits, opens a frame, is done, or goes on |
| CheckComplete.CheckCompleteState.ReadSliceStep | basic/decode.go:296-336 | one round of the loop in slice mode |
| CheckComplete.CheckCompleteState.CheckText | basic/decode.go:302-306 | passes exactly when every text byte is below 0xF8 |
| CheckComplete.CheckCompleteState.CheckComplete | basic/decode.go:238-338 | code, state and unread bytes are those of the step machine; the loop terminates |
| Acceptance.MachineFollowsGrammar | basic/decode.go:238-338 | with any stack of open containers and all the bytes they expect, the machine accepts, waits or refuses exactly as the recursive grammar judges the rest, and accepts nothing beyond |
| Acceptance.ShrinkResidual | basic/decode.go:262-279 | closing frames keeps the grammar's verdict on the rest, and fails exactly when a map closes with an odd count |
| Acceptance.ShrinkTwice | basic/decode.go:262-279 | consuming two stretches closes the same frames as consuming both at once |
| LengthMode.ExactAcceptance | basic/decode.go:238-338 | in a declared length, Done if and only if the declared bytes are a non-empty run of the grammar, and then exactly those are read |
| LengthMode.NeverDone | basic/decode.go:251-254 | a container that reaches past the declared total is never completed |
| Language.EncodedRunAccepted | basic/decode.go:238-338 | the encoding of valid trees is accepted, with the end marker seen exactly when the last item ends with one |
| Language.AcceptedRunParses | basic/decode.go:238-338 | accepted bytes decode at every level to valid trees that encode back to the same bytes |
| Language.GrammarIsLanguage | basic/decode.go:238-338 | the grammar accepts exactly the encodings of valid runs of trees |
| Language.EncodedRunExactly | basic/encode.go:202-216 | an encoding is accepted if and only if its own trees are valid |
| Language.EncoderMeetsValidator | basic/encode.go:163-216 | in the length of the encoding, the validator reports Done on it if and only if the trees are a non-empty valid list |
| Texts.TextAccepted | basic/decode.go:296-306 | a text in its own length is accepted if and only if each of its bytes is below 0xF8 |
| Texts.Utf8Accepted | basic/decode.go:296-306 | whatever UTF-8 can write, in its forms of 1 to 4 bytes, is accepted |
| Texts.TextRefused | basic/decode.go:296-306 | a text with a byte of 0xF8 or more is refused wherever it stands |
| Refusals.RefusalCauses | basic/decode.go:238-338 | each code of refusal has its cause in the state before the last step |
| Chunking.TwoPieces | basic/decode.go:238-338 | what two pieces say about the whole input, in every case: done, refused, waiting, cut inside a head |
| Chunking.PiecesDoNotMatter | basic/decode.go:238-338 | unless both are refused, pieces and whole input give the same code, state and unread bytes if and only if every split head is completed by the next bytes and none has used up a container before the input ends |
| Chunking.PiecesOfAccepted | basic/decode.go:98-109 | of an input that is not refused as a whole, the pieces give the same if and only if each head that a piece ends in is completed by the next bytes; else they are refused |
| Chunking.AcceptedPieces | basic/decode.go:262-279 | of pieces that are not refused, the whole gives the same if and only if no head that a piece ends in has used up a container with a byte after it; else it is refused |
| Chunking.SplitOutsideAgrees | basic/decode.go:238-338 | when heads are split only outside every container and completed by the next bytes, pieces and whole input agree |
| Chunking.WaitsOn | basic/decode.go:239-244 | reading nothing changes nothing, once the validator waits |
| Chunking.UndersuppliedPieces | basic/decode.go:98-109 | a concrete input accepted whole and refused in pieces |
| Cuts.WaitsForMissing | basic/decode.go:239-294 | a validator that waits misses just the bytes that are missing from the last head of the input, whatever the containers |
| Cuts.MissingIs | basic/encode.go:112-152 | where the heads of an encoding stand, by its bytes and by its values |
| Cuts.CompletedExactly | basic/decode.go:98-109 | an input that is used up without being refused gives the same in pieces if and only if its bytes show every head that is cut to be completed by the next piece |
| Cuts.CutsOfEncoding | basic/decode.go:238-338 | the encoding of valid values is accepted in pieces as it is whole if and only if no head is cut at two positions; else the pieces are refused |
| Chunking.LoopKeeps | basic/decode.go:238-338 | while the validator waits, its state is sound and its buffer used up |
| Chunking.Undersupplied | basic/decode.go:98-109 | a head resumed with fewer bytes than it misses is refused |
| Chunking.HarmfulPieces | basic/decode.go:262-279 | a concrete input accepted in two pieces and refused in one |
| Integers.Uint64 | basic/val.go:284-300 | the shortest two's complement bytes of the number, or a scalar |
| Integers.Int64 | basic/val.go:332-360 | the same for signed numbers |
| Integers.PositiveBytes | basic/val.go:288-299 | the loop drops leading zeros and keeps one where the sign needs it |
| Integers.NegativeBytes | basic/val.go:353-359 | the loop drops leading ones and keeps one where the sign needs it |
| Integers.GetU64 | basic/val.go:95-124 | accepts exactly minimal non-negative bytes of 5 to 9 bytes, and computes their value |
| Integers.GetI64 | basic/val.go:126-159 | accepts exactly minimal bytes of at most 8 bytes, and computes their value |
| Integers.SignedRoundTrip | basic/val.go:126-159 | decoding undoes encoding for every signed 64-bit number, and outside 0..2^32-1 only its encoding decodes to it |
| Integers.UnsignedRoundTrip | basic/val.go:95-124 | the same for unsigned numbers |
| Integers.DecodersAgree | basic/val.go:95-159 | on 5 to 8 bytes the unsigned decoder succeeds exactly when the signed one yields a non-negative number, and they agree |
| Integers.IntegersExactly | basic/val.go:95-159 | of bytes, the signed decoder takes exactly the minimal ones of its range, the unsigned one the minimal ones of a number from 2^31 up; shorter ones are refused |
| Integers.MinimalUnique | basic/val.go:137-147 | minimal bytes are determined by their value |
| Keys.Compare | basic/val.go:56-71 | the loop over bytes computes the lexicographic order of type, value, length, bytes |
| Keys.OrderIsLexicographic | basic/val.go:56-71 | which of two values comes first: smaller type, value, length, or byte at the first difference |
| Keys.OrderIsTotal | basic/val.go:56-74 | the order is antisymmetric, and two values are equal in it if and only if they are the same map key |
| Keys.OrderIsTransitive | basic/val.go:56-71 | the order is transitive |
| Keys.ValidateKeysUnique | basic/decode.go:174-186 | succeeds if and only if the keys at even positions are pairwise distinct, else reports the first repetition |
| Keys.FindKey | basic/decode.go:188-198 | the first even position that holds the key and is followed by a value, or -1 when there is none |
| Keys.LookupsAgree | protocol/header.go:180-189 | on unique keys the position is unique and the map of the pairs gives the same value |
| Framing.HeadInTwo | protocol/stream.go:169-198 | reading a head as its first byte and its missing bytes is reading it whole |
| HeadStages.FirstStage | protocol/stream.go:174-184 | what the validator's answer on the first byte decides |
| HeadStages.SecondStage | protocol/stream.go:185-198 | what its answer on the missing bytes decides |
| Framing.PayloadCode | protocol/stream.go:199-213 | its answer on the payload: refused, last value, or more to come, in terms of the grammar |
| Framing.ReadsWithin | basic/decode.go:251-254 | a validator that does not refuse has not read past the declared total |
| Streams.Reader.ReadFull | protocol/stream.go:13-16 | reads exactly the bytes asked for, or fails and loses the rest |
| Streams.ReadStreamGroup | protocol/stream.go:18-44 | a stream group, or the first byte of what stands in its place |
| Requests.GroupRoundTrip | protocol/stream.go:18-44 | a stream group is read as the number that was written, what follows stays unread |
| Requests.GroupIsRead | protocol/request.go:26-32 | the group of a request is read as its sender wrote it |
| Requests.NoGroup | protocol/stream.go:41-43 | what is no number stands for the default group, and no byte of it is lost |
| Requests.ExplicitGroup | protocol/dispatch.go:36-54 | the default group may be written before a header; every other group is refused |
| Requests.CutGroup | protocol/stream.go:18-44 | a group that is cut short is a failure, by where it is cut |
| Requests.CutHeader | protocol/stream.go:46-91 | so is a header, in its head or in its content |
| Requests.CutItem | protocol/stream.go:169-209 | so is a value of a body that fits |
| Requests.AnyHeadGroup | protocol/stream.go:26-40 | a group is read from any complete head, the shortest or not |
| Streams.ReadHeaderInitial | protocol/stream.go:46-79 | the head of a header: an array or map of at most 2^14 bytes |
| Streams.GetHeaderParams | protocol/stream.go:86-121 | the header's verdict by the grammar, its decoded details, unique keys in a map |
| Streams.HeaderCode | protocol/stream.go:92-107 | started inside the header's container, the validator answers as the grammar judges the content |
| Streams.ReadRequest | protocol/dispatch.go:36-54 | how the server starts on a stream |
| Streams.ReadHeader | protocol/request.go:45-53 | the header of a response, read and validated |
| Streams.ReadCheckHead | protocol/stream.go:170-198 | the head half of `ReadCheckValue` |
| Streams.ReadCheckValue | protocol/stream.go:169-218 | one value read in up to three portions is the value at the front of the stream, with the exact failure in every other case |
| Streams.GetBodyLengthProperties | protocol/stream.go:131-160 | the one way in which the headers declare the body's end; fails exactly when there is no such way |
| Streams.GetContent | protocol/stream.go:220-259 | body, footer and the bytes left, or the failure, as a function of the stream; the loop terminates on unread bytes |
| Streams.GetSingleBody | protocol/stream.go:260-279 | the one value of the body, or the failure |
| ServedRequests.ValueBody | protocol/stream.go:131-268 | a value in the header is the body, whatever the limit, and the stream stays unread |
| ServedRequests.NoBody | protocol/stream.go:131-268 | without value and length there is no body, and nothing is read |
| ServedRequests.BodyLengths | protocol/stream.go:131-160 | a number is the length of the body, one registry value announces an end marker, all else is refused |
| ServedRequests.NoRoom | protocol/stream.go:227 | without room for a body nothing is read |
| ServedRequests.SingleBodyExactly | protocol/stream.go:260-268 | the single body is the one value of a body with one value |
| ServedRequests.ValueArrives | protocol/stream.go:131-279 | end to end: the value that the sender wrote into a map header is the single body of the request, when it is served |
| Contents.ItemRoundTrip | protocol/stream.go:169-218 | an encoded value is framed back if and only if it is valid or an empty container and fits; a lone empty leaf in a declared length panics |
| Contents.FramedIsCanonical | protocol/stream.go:169-218 | the bytes of a framed value are the encoding of the value returned |
| Contents.FramedDecodes | protocol/stream.go:199-213 | a framed container decodes at every level if and only if its last scalar is not cut short |
| Contents.CutItemIsFramed | protocol/stream.go:199-213 | a concrete value that is framed and does not decode |
| Contents.CutDoesNotDecode | basic/decode.go:280-282 | a run cut short in a scalar never decodes |
| Contents.MarkedBodyRoundTrip | protocol/stream.go:231-248 | a body ends with its first item that ends with an end marker |
| Contents.EndMarkedRoundTrip | protocol/stream.go:220-259 | items, marker and footer are read back, the tail stays unread |
| Contents.LengthBodyRoundTrip | protocol/stream.go:225-248 | in a declared length, a body of any items goes on behind each that is shorter, or an empty container, and ends with the first other one of just this length; an empty leaf there panics, any other item is refused |
| Contents.LengthContentRoundTrip | protocol/stream.go:220-259 | such items and the footer are read back, the tail stays unread |
| Contents.DeclaredRoundTrip | protocol/stream.go:220-259 | values sent in the length of all of them, and a footer, are read back with nothing else if and only if it is one value, framable, within the limit, neither an empty leaf nor an empty container, and the footer fits |
| Contents.RestartedBody | protocol/stream.go:169 | a concrete body that is longer than declared |
| Contents.LengthRoundTrip | protocol/stream.go:220-279 | what happens to one item of the declared length: read back with the footer, a panic for an empty leaf, more values behind an empty container |
| Contents.BodyIsCanonical | protocol/stream.go:236-248 | the bytes of a body are the encodings of its values and an end marker that ended it; in a declared length the last value has just that size |
| Contents.ContentIsCanonical | protocol/stream.go:220-259 | reading a content loses nothing: the bytes read are determined by the values returned and the marker |
| Requests.HeaderExactly | protocol/stream.go:86-121 | a header passes if and only if its content is the encoding of a valid run with unique keys |
| Requests.HeaderDecodes | protocol/stream.go:86-121 | every value of a header that passed decodes, at every level, to trees that encode back to the header |
| Requests.AnyHeadHeader | protocol/stream.go:46-79 | a header with any complete head, the shortest or not, passes if and only if its content does |
| Requests.HeaderConsumes | protocol/stream.go:86-121 | a header that was read is all there, and what follows its content is unread |
| Requests.HeaderRoundTrip | protocol/dispatch.go:76-83 | a written header is read back, what follows unread, if and only if it is a good one |
| Requests.WriteRequest | protocol/request.go:26-43 | stream group, header and body in order; when the header cannot be encoded, just the stream group has been written |
| Requests.RequestRoundTrip | protocol/dispatch.go:36-54 | the server reads a request back if and only if it is in the default group with a good header, and how it refuses every other group |
| Paths.PartsAt | protocol/header.go:265-277 | authority and sub-path are what stands before and after the first marker |
| Paths.PartsAppend | protocol/header.go:265-277 | appending to a reference with a marker only makes the sub-path longer |
| Paths.ExtendedPath | protocol/header.go:245-280 | extending a valid reference keeps its authority if and only if it has a marker or the extension is empty or starts with one |
| Paths.GetPathProperties | protocol/header.go:245-312 | authority, sub-path and operation, or the failure |
| Addresses.ReferenceRoundTrip | protocol/header.go:245-280 | a written reference is taken if and only if it is an array that starts with the host and goes on; its first marker divides authority and sub-path |
| Addresses.OtherReference | protocol/header.go:250-254 | what is no array is no reference |
| Addresses.OperationRoundTrip | protocol/header.go:281-312 | a written operation is taken if and only if it is a registry value or an array that starts with one; the identifier and the parameters are those written |
| Addresses.PathRoundTrip | protocol/header.go:245-312 | authority, sub-path and operation of a request are those its sender wrote |
| Addresses.NoPath | protocol/header.go:245-264 | without a proper reference there is no path |
| Merging.DecodeSpans | protocol/header.go:209-214 | decoding with the place of every value in the buffer |
| Merging.SpansDecode | basic/decode.go:140 | the places are those of the decoded values, in order and without overlap |
| Merging.WriteBehind | protocol/header.go:223 | appending writes behind a slice in place when its buffer reaches that far |
| Merging.MergeStored | protocol/header.go:215-231 | the loop over stored pairs that share a buffer, writes included |
| Merging.MergeKeeps | protocol/header.go:215-231 | merging keeps every header of the request but the reference, whatever is overwritten |
| Merging.MergeReference | protocol/header.go:217-223 | for any number of stored references, the merged one is the last, as the loop comes to read it, with the request's behind it |
| Merging.SharedIsMerge | protocol/header.go:215-231 | merging pairs that share a buffer is merging the values that the loop comes to read from it |
| Merging.OneWrite | protocol/header.go:215-231 | with one stored reference, the pairs up to it are read from the buffer as it was, and the others from the buffer behind the one write |
| Merging.IntactExactly | protocol/header.go:223 | a stored value is read as it was stored if and only if no earlier write has put another byte into its slice |
| Merging.MergeUndisturbed | protocol/header.go:215-231 | when no write behind a stored reference reaches into a later slice, merging is merging of the stored values |
| Merging.UnionExactly | protocol/header.go:215-231 | the merged headers are the union of both sides if and only if the values read can be merged and make the same map as the stored ones |
| Merging.MergeExactly | protocol/header.go:215-231 | for any keys: merging succeeds if and only if none occurs on both sides or twice, the array reference apart, and gives the union, with the last reference extended |
| Merging.OverwrittenOperation | protocol/header.go:223 | a concrete stored operation that is overwritten by the request's reference |
| Authentication.CreateExporterContext | protocol/authentication.go:19-21 | the encodings of the four parts in a row, when they can be written exactly |
| Authentication.ContextsAgree | protocol/authentication.go:19-45 | client and server have the same exporter context if and only if none of the three kept values is a scalar of 24 or more |
| Authentication.EncodedBinds | protocol/authentication.go:19-21 | storage keys and contexts of different parts are different |
| Authentication.MessageParts | protocol/authentication.go:22-28 | the message is the text of the protocol, the context and the beginning of the keying material, in this order |
| Authentication.MessageBinds | protocol/authentication.go:22-28 | the signed message determines the context and the keying material |
| Authentication.KeyPanicExactly | protocol/authentication.go:29-80 | the key data for which the checks panic: empty, or a malformed key that they come to look at |
| Authentication.AcceptedExactly | protocol/authentication.go:29-80 | accepted are exactly the stored headers with the end of the keying material and a valid signature by an Ed25519 key |
| Authentication.AcceptedIsSigned | protocol/authentication.go:29-80 | an accepted stored header has a valid signature of its message by the kept key |
| Authentication.SignatureBinds | protocol/authentication.go:29-80 | two stored headers accepted on the same signed message have the same protected headers, identity, identity key and key |
| AuthenticatedEntries.EntryParams | protocol/header.go:319-328 | what the server reads from an entry with credentials: its id and six parameters, each as the client wrote it |
| AuthenticatedEntries.StorageKeysAgree | protocol/header.go:137 | the server's storage key is the one made from the client's values if and only if neither identity nor identity key is a scalar of 24 or more, and else there is none |
| AuthenticatedEntries.ClientAuthenticates | protocol/header.go:340-371 | end to end, with the key in the storage and the same keying material on both sides: the server accepts the client's entry if and only if the signature verifies and neither identity nor identity key is a scalar of 24 or more; else it refuses it, and never panics |
| HeaderStore.HeaderStoreCacheItem.constructor | protocol/header.go:66-69 | a new item is not authenticated |
| HeaderStore.HeaderStoreCacheItem.Authority | protocol/header.go:74-94 | the authority of the protected headers, nil when there is none |
| HeaderStore.HeaderStoreCache.constructor | protocol/header.go:114-116 | an empty cache of the maximal size |
| HeaderStore.HeaderStoreCache.ValidateKeyParams | protocol/authentication.go:29-80 | accepts exactly when every check passes, and only then marks the item |
| HeaderStore.HeaderStoreCache.Authenticate | protocol/header.go:133-157 | the part of `Store` that authenticates an item with an identity, panics included |
| HeaderStore.ChecksPanicExactly | protocol/header.go:133-157 | the checks of parameters panic if and only if there are four that can be encoded and the authority lookup panics, the storage gives no transaction, or the key data does |
| HeaderStore.ChecksAcceptExactly | protocol/header.go:133-157 | accepted are exactly headers without an identity, and those that are genuine by the key that the storage has for them under their authority |
| HeaderStore.AuthorityPanicExactly | protocol/header.go:74-94 | looking for the authority panics exactly at a reference that nothing follows |
| HeaderStore.BadgerServes | data/db.go:38-59 | a storage serves its own authority and no other, and answers with its record, or that there is none |
| HeaderStore.HeaderStoreCache.Store | protocol/header.go:120-161 | stores the item under the id and accounts for its size; a failed or panicking attempt changes no entry and no item |
| HeaderStore.HeaderStoreCache.Load | protocol/header.go:162-172 | the item under the id, or the failure |
| HeaderStore.StoreKeeps | protocol/header.go:120-161 | the size stays the sum of the entries and within its bound; entries have two parameters and are unauthenticated, or at least six and are authenticated |
| HeaderStore.StoredExactly | protocol/header.go:120-161 | storing succeeds if and only if the checks pass and all entries fit; it panics if and only if the parameters fit and the checks panic; the cache afterwards |
| HeaderStore.SizeIsHeaders | protocol/header.go:111-113 | the size is that of the protected headers and 32 bytes for every entry |
| HeaderStore.LoadReturnsLast | protocol/header.go:120-172 | over all runs: an id is cached exactly when an attempt succeeded, its entry is that of the last one, and 32 bytes per entry fit the bound |
| HeaderStore.TotalWithout | protocol/header.go:126-132 | the sum of sizes is that of any entry and of the others |
| HeaderStore.EntriesBound | protocol/header.go:111-113 | every entry takes at least 32 bytes |
| HeaderStore.StorageKeyBinds | protocol/header.go:137 | different identities or identity keys are kept under different storage keys |
| HeaderProperties.GetHeaderStoreParams | protocol/header.go:22-60 | what a header asks of the store: nothing, an id to load, or an id and headers to store |
| ServedRequests.AsksFor | protocol/header.go:22-60 | nothing is asked of the store without a header_store entry, and else what the first one says |
| ServedRequests.EntryRoundTrip | protocol/header.go:28-58 | a written entry is taken if and only if it is a scalar, an id to load, or an array of a scalar and a map, with all that stands in it |
| HeaderProperties.BuildMap | protocol/header.go:180-189 | the map of the pairs; a panic exactly for an odd number of values |
| HeaderProperties.ToStrings | protocol/header.go:191-194 | the parameters as strings, in order |
| HeaderProperties.MergeProtected | protocol/header.go:208-232 | decodes protected headers into a fresh buffer and merges them |
| HeaderProperties.GetHeaderStoreProperties | protocol/header.go:174-235 | cache, headers and item afterwards, or the failure, as a function of the cache before and the header |
| ServedRequests.PlainRequest | protocol/header.go:174-189 | a request without a header_store entry has just the pairs of its header |
| ServedRequests.LoadingRequest | protocol/header.go:201-232 | a request with an id is served if and only if there is an entry whose headers can be merged, with the union and this entry |
| ServedRequests.StoringRequest | protocol/header.go:190-232 | a request stores its headers if and only if they pass and fit; it is served if and only if they can also be merged, with the union and the entry stored |
| ServedRequests.IdInPlace | protocol/header.go:174-235 | the same request with the bare id in place of its headers is then served with the same stored headers and entry |
| ServedRequests.PropertiesKeep | protocol/header.go:208-232 | the request's own headers stay, the reference apart |
| HeaderProperties.MergedAsRead | protocol/header.go:208-232 | merging protected headers is merging the values the loop reads, and each is the stored one if and only if it is intact |
| HeaderProperties.AuthorityPreserved | protocol/header.go:208-233 | for any stored references, valid or not: the merged reference is the last one extended if and only if it is read intact; then it has the stored authority if and only if it has a marker or the extension is empty or starts with one; otherwise its path and authority are those of the bytes read and the extension together |
| HeaderProperties.RedirectedRequest | protocol/header.go:217-223 | concrete stored headers with two references, and a request that is addressed elsewhere |
| HeaderProperties.MergedHeaders | protocol/header.go:208-233 | for any protected headers: when merging succeeds, and exactly when it gives the union of the request's headers and the stored ones |
| ValidatedRequests.StoredIsEven | protocol/stream.go:93-107 | what a validated header stores alternates keys and values |
| ValidatedRequests.PanicExactly | protocol/header.go:174-235 | on a validated header `GetHeaderStoreProperties` panics if and only if it is an array of odd length, or it stores headers that fit and whose checks panic; every later request finds the cache in order |
| ValidatedRequests.ArrayHeaderPanics | protocol/header.go:180-189 | a concrete array header on which it panics |
| ValidatedRequests.MapHeaderPanics | protocol/header.go:141-145 | a concrete map header, with no authentication, on which it panics |
| ValidatedRequests.NoAuthorityNoTransaction | data/db.go:38-43 | the storage of an authority gives no transaction to headers that name none |
| StoreProtocol.HeaderStoreState.constructor | protocol/header.go:380-382 | no ids given yet |
| StoreProtocol.HeaderStoreState.GetHeaderStoreHeader | protocol/header.go:384-404 | the bound id, or a new binding with the next id; nothing changes on failure |
| StoreProtocol.IdsAreCounted | protocol/header.go:402-403 | over every run the next id is the number of ids given |
| StoreProtocol.CallReturns | protocol/header.go:384-404 | after any run a call for bound headers returns their id and changes nothing; for new headers it returns an entry that stores them under a new id and binds them alone; it fails exactly for new headers that cannot be authenticated |
| StoreProtocol.CallIsServed | protocol/header.go:174-235 | end to end, over every run: a request with the entry that a call returned is merged with just the headers of the call, or refused |
| StoreProtocol.StoreEntry | protocol/header.go:313-328 | the server takes an entry that stores headers if and only if its id fits 32 bits and the headers are a map, and reads just that id and these headers |
| StoreProtocol.IdForms | protocol/header.go:315 | an id is an id for the server if and only if it fits 32 bits |
| StoreProtocol.CallKeeps | protocol/header.go:384-404 | a client call keeps the agreement |
| StoreProtocol.DeliverKeeps | protocol/header.go:190-206 | a delivery of any entry ever sent keeps the agreement |
| StoreProtocol.RunKeeps | protocol/header.go:120-172 | so does every run |
| StoreProtocol.ClientAndServerAgree | protocol/header.go:120-172 | over every run with entries lost, reordered and duplicated, what the server has under an id are, byte for byte, the protected headers the client bound to it, and no two headers share an id |
| StoreProtocol.LoadedRequest | protocol/header.go:201-232 | over every run, a request with a bound id in place of its headers is merged with just the headers the client bound, or refused |
| StoreProtocol.DeliveredByRequest | protocol/header.go:190-206 | a delivery is what a request with the entry in its header does to the server's cache |

## Left out

- Streams.Reader.ReadFull: models a byte stream with an end; other failures of the reader are not modelled.
- CheckComplete.CheckCompleteState.CheckComplete: requires buffers shorter than 2^32 bytes, as the casts to 32 bits do; `TotalBytesRead` is unbounded.
- Chunking.PiecesDoNotMatter: claims that both sides refuse, not that they refuse with the same code; the codes can differ.
- CheckComplete.CheckCompleteState.CheckText: the code rejects bytes of 248 and above and nothing else, so full UTF-8 validity (section 3 of RFC 3629) is not claimed.
- HeaderStore.HeaderStoreCache.Store: a storage that fails to give a transaction but returns one with the error counts as failing in the lookup; the storage is a function from authority and key to an answer, keying material and signature verification are functions of the cache; the different refusals of the checks are one error.
- StoreProtocol.HeaderStoreState.GetHeaderStoreHeader: whether the authenticating values can be made (authority lookup, key manager, keying material, signature) is a parameter.
- StoreProtocol.ClientAndServerAgree: assumes fewer than 2^64 - 1 bindings on a connection, and a client that builds decodable headers.
- HeaderProperties.AuthorityPreserved: protected headers without a reference name no authority, so they are not its subject.
- Requests.WriteRequest: bytes are collected and returned; failures of the writer and of copying the body (protocol/request.go:26-43) are not modelled.
- ValidatedRequests.PanicExactly: is about `GetHeaderStoreProperties`. Routing behind it has two more panics that are not modelled: `DeliverMessage` dereferences the cache item (protocol/message.go:15), which is nil for a request without a header_store entry; `CreateIdentity` discards a transaction before it looks at the error (protocol/identity.go:111-112).
- AuthenticatedEntries.ClientAuthenticates: the key data is kept under the client's own encoding of identity and identity key; how `CreateIdentity` comes to keep it there is not modelled.
- Streams.ReadHeader: stops where the cited code goes on to the header store, which `HeaderProperties.GetHeaderStoreProperties` models.
- Merging.WriteBehind: how far the runtime rounds a buffer up is the parameter `slack`; the bytes there are zero.
- Mutexes: `Store`, `Load` and `GetHeaderStoreHeader` are atomic steps.
- QUIC connections, TLS, stream opening and the loops of client and server: I/O plumbing.
- HeaderStore.HeaderStoreCache.ValidateKeyParams: that Ed25519 verification panics on a public key of another size than 32 bytes is documented by its library, not by the cited code.
- Badger, Ed25519, the TLS exporter and random ids: outside libraries.
- Floats: `Float64` and `GetFloat64` rest on IEEE conversions and a float16 library.
- Error wrapping and printing, `ToString`: text only.
- Routing, messages, identity creation and the key manager: branch-by-branch checks that would add easy members; the panics among them are named above.
