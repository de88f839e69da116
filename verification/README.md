# btlet in Dafny

A model of three connected parts of btlet, a BitTorrent library, and proofs about them:

1. **The bencode codec** (`bencode/`). Bencode is described in the section "bencoding" of BEP 3. There are three
   readings of one grammar: decoding driven by the target type, capturing the raw bytes of a value, and passing over
   a value. There is one printer, which sorts keys, drops nil values and splices raw messages. The centre of the model
   is that the one-pass decoder equals "scan, then interpret" (`OnePass.DecodeViaTree`), on which the round trips,
   the canonical form, locality and delayed decoding rest. `Decoder` and `Encoder` are objects whose loops are proved
   against the functions.
2. **The extension protocol and metadata download** (`bt/`): framing (section "peer protocol" of BEP 3), handshakes
   that number extensions (BEP 10), and metadata in pieces (BEP 9), up to the statement that content sent by one
   endpoint's extension reaches the other endpoint's extension of the same key unchanged, and that a download
   returns the metadata exactly when all its pieces arrive.
3. **KRPC** (`dht/krpc.go`, BEP 5): messages whose parts are kept raw and read later, and the transaction dispatcher
   as interleaved atomic steps over a shared map, with any number of transactions, responses and removals.

## How the model is laid out

| module | contents |
|---|---|
| Bytes, Numerals | byte strings and their order; decimal numerals as `strconv` reads and `fmt` prints them |
| Syntax | trees, their text, the scanner, what it accepts |
| Values, Decode | Go values and target types; decoding as a function |
| Interp, OnePass | scan, then interpret; equal to decoding |
| Sorting, Encode | what sorting determines; encoding as a function |
| Texts, EncoderObject | the texts that may be written, and when there is one; the object |
| RoundTrip, ReadBack, Omission, Targets, Canonical, Lazy, Order | the laws of the codec |
| DecoderObject, Streaming | the object, and streams of values |
| Schema | structs with embedded structs |
| PeerWire, Extension, Routing | frames, the extension protocol, two endpoints |
| FetchMeta, Download | metadata in pieces, and the whole download over a stream |
| Krpc, KrpcText, Dispatcher | messages, their texts, and the dispatcher as a state machine |
| Vectors | texts of values, handshakes and messages, written out |

Reading the model:

- Reflection is replaced by two datatypes, `Values.Type` for targets and `Values.Value` for values. A pointer or
  interface is what it leads to, or nil. A Go map is the list of its entries in key order, which is a canonical form
  (`Values.OrderedExtensional`). A Go `int` has 64 bits.
- `strconv.ParseInt` accepts a leading `+`, leading zeros and `-0`; lengths are parsed in 32 bits when decoding and in
  64 bits, with the error dropped, when scanning; narrow integers are cut silently. The model keeps all of this.
- `DecodeValue` also reports whether keys were in order and names known; the object turns this into its two pending
  errors.
- A reader is the bytes it will still deliver, a writer the bytes it was given. The hash of a download is a parameter.
- The documentation of the flag for unordered keys speaks of unordered keys; the code lets equal neighbours pass, and
  so does the model.

## What turned out false

- Capturing and passing over do not accept the same inputs: a negative string length is accepted with a buffer and
  refused without (`Syntax.NegativeKeyLengthExample`). They agree exactly when no length is negative
  (`Syntax.SkipAgreesWithCapture`).
- Strings of 2^31 bytes and more are written and can be scanned, and are not decoded: what was written decodes exactly
  when it has none (`ReadBack.DecodesExactly`, `ReadBack.LongStringExample`).
- Two fields of one name are both read into the later one, so a record in which they have different types may not
  decode (`ReadBack.TwoTypesExample`). It does exactly when each written field reads back on its own under the type of
  the last field of its name (`ReadBack.RecordReadsBack`).
- Re-encoding does not give the input back in general (`Canonical.NegativeZeroExample`); `Canonical.ReEncode` says
  exactly when for whole values, `Lazy.RawReEncode` for dictionaries of raw parts.
- The text of a value need not be determined: `Texts.TwoTextsExample` is a struct with two texts. It is determined
  exactly when, in every struct that is written at any depth, two written fields of one name give the same text in
  either order (`Texts.DeterminedExactly`); for values without malformed raw messages, when they are written alike
  (`Texts.CommuteExactly`). Distinct names are enough (`Texts.WritesExactly`).
- Frames are read back exactly when their length fits 32 bits (`PeerWire.FrameRoundTrip`, `PeerWire.LongFrameExample`).
- The slots after a handshake do not always tell what the peer registered. With more than 255 extensions a registered
  key can look unregistered, when its number is a multiple of 256 (`Routing.ManyExtensionsExample`); and behind an
  extension that answers the handshake with an error, an unregistered one keeps its slot (`Routing.RefusalExample`).
  `Routing.SlotsAfterHandshake` says exactly what each slot holds.
- An error message whose code is no integer is accepted, with code 0 (`Krpc.ErrFrom`, `Krpc.NoCodeExample`).
- OnResponse may come before OnLaunch and after OnFinish (`Dispatcher.ResponseBeforeLaunch`,
  `Dispatcher.ResponseAfterFinish`). It comes before OnLaunch exactly while the goroutine of the box has not got that
  far, and after OnFinish exactly when that is done (`Dispatcher.ResponseTiming`); both take a handler that looked the
  box up while it was in the map, so a response that arrives after the removal never reaches it
  (`Dispatcher.NoLateLoad`).

## Model

| member | source | states |
|---|---|---|
| Numerals.ParseIntFormatInt | bencode/docode.go:171-182 | a decimal that was printed parses back to its number, for every integer in range |
| Numerals.ParseUintDigits | bencode/docode.go:183-194 | the same for unsigned numbers |
| Numerals.FormatIntParseInt | bencode/docode.go:171-182 | printing a parsed numeral gives it back exactly when it has no sign noise and no leading zeros, and is never longer |
| Numerals.FormatIntCanonical | bencode/encode.go:92-105 | what the encoder prints is in that canonical form |
| Numerals.ParseIntWider | bencode/docode.go:207-208 | what parses in 32 bits parses in 64 bits to the same number, so a length the decoder accepts is the length the scanner sees |
| Numerals.ParseIntExactly | bencode/docode.go:171-182 | exactly the texts of digits behind at most one sign are numbers, in base ten; only a minus sign makes them negative; one that does not fit gives the nearest bound |
| Numerals.ParseUintExactly | bencode/docode.go:182-193 | exactly the texts of digits are unsigned numbers, in base ten |
| Numerals.SignsAndZeros | bencode/docode.go:171-182 | a plus sign and zeros in front of a number do not change it, a minus sign negates it |
| Bytes.LessExactly | bencode/encode.go:263-295 | keys are ordered by their first different byte, a beginning in front of the whole |
| Syntax.Scan | bencode/docode.go:453-471 | the scanner as a function: a success takes at least two bytes and no more than there are |
| Syntax.ScanSound | bencode/docode.go:453-590 | what is taken is the text of the tree that is found |
| Syntax.ScanComplete | bencode/docode.go:453-590 | the text of every well-formed tree is accepted, whatever follows it, and gives that tree |
| Syntax.ScanCharacterised | bencode/docode.go:453-590 | the scanner accepts exactly the inputs that start with the text of a well-formed tree, and finds that tree |
| Syntax.ShowInjective | bencode/docode.go:453-590 | two well-formed trees with one text are one tree: the grammar is unambiguous |
| Syntax.ScanLocal | bencode/docode.go:453-590 | the outcome depends on the bytes taken and on nothing behind them |
| Syntax.ScanPrefixRejected | bencode/docode.go:453-590 | every proper prefix of an accepted value is rejected |
| Syntax.ScanDepth | bencode/docode.go:513-590 | values nest at most half as deep as they are long, which bounds the recursion |
| Syntax.SkipAgreesWithCapture | bencode/docode.go:487-511 | skipping succeeds exactly when capturing does and no string length, of keys included, is negative; then both end at the same place |
| Syntax.NegativeKeyLengthExample | bencode/docode.go:498-509 | an input on which capturing and skipping differ: a dictionary key of length -1 |
| Values.LookupPut | bencode/docode.go:402-404 | setting a map entry changes that entry and no other; the last of equal keys stays |
| Values.OrderedExtensional | bencode/encode.go:148-149 | key-ordered entry lists are a canonical form of maps: maps with the same lookups are the same list |
| Decode.WrapSigned | bencode/docode.go:177-182 | SetInt on a narrow target keeps numbers that fit and wraps the others into range, with the same low bits |
| Decode.WrapUnsigned | bencode/docode.go:182-187 | the same for SetUint |
| Decode.DecodeValue | bencode/docode.go:86-146 | decoding under any type as a function: a success takes at least two bytes, no more than there are, and gives a value of the type; []byte is a target that takes a string or a list of numbers |
| Decode.FieldIndex | bencode/docode.go:429-450 | of two fields with one name a key leads to the later |
| OnePass.DecodeViaTree | bencode/docode.go:86-407 | the one-pass, type-directed decoder computes exactly what scanning the input and then interpreting the tree gives: same value, same end, same failures, for every target type |
| Canonical.DecodeSimulated | bencode/docode.go:86-146 | if a decode succeeds under any type, capturing succeeds, takes the same number of bytes, and those bytes are the text captured |
| Canonical.DecodeLocal | bencode/docode.go:86-407 | the result of a decode depends only on the bytes it takes |
| Canonical.DecodePrefixRejected | bencode/docode.go:86-407 | no proper prefix of what a decode takes can be decoded, under any type |
| Canonical.StrictExactly | bencode/docode.go:353-375 | the order complaint of a generic decode arises exactly when some dictionary, at some depth, has a key below the one in front of it |
| Canonical.ReEncode | bencode/docode.go:148-245 | re-encoding a generic decode gives the input back exactly when every numeral is canonical and every dictionary has strictly increasing keys; it always decodes to the same value and is never longer |
| Canonical.NegativeZeroExample | bencode/docode.go:148-175 | an accepted input that is written differently: `i-0e` becomes `i0e` |
| Targets.BoolRead | bencode/docode.go:188-193 | a number is true for a bool exactly when it is not 0; a negative one, or one beyond 64 bits, is refused |
| Targets.UintRead | bencode/docode.go:182-187 | an unsigned target takes exactly the numbers of 64 bits and keeps the low bits |
| Targets.IntRead | bencode/docode.go:176-181 | a signed target takes exactly the numbers of 64 bits and keeps the low bits |
| Targets.NumberElsewhere | bencode/docode.go:148-175 | an interface takes a number as an int64; every other target refuses numbers |
| Targets.StringRead | bencode/docode.go:199-245 | an interface, a string and a []byte take a string as it is; every other target refuses it |
| Targets.KindsMatch | bencode/docode.go:134-145 | the first byte of a text decides which targets take it, and what an interface then holds |
| Targets.PointerRead | bencode/docode.go:92-127 | a pointer is followed to what it points to, or to a new zero value where it is nil |
| Targets.SliceRead | bencode/docode.go:295-304 | a list replaces what a slice held, except that an empty one leaves it |
| Targets.ByteSliceRead | bencode/docode.go:295-304 | a list of numbers fills a []byte with these numbers, in order |
| Targets.ArrayRead | bencode/docode.go:283-294 | a list fills an array from the front, each element read over what was there; the rest stays |
| Targets.MapRead | bencode/docode.go:377-406 | a dictionary is merged into a map: its keys lead to what their last texts read as, from zero, other keys where they led before |
| Targets.RecordRead | bencode/docode.go:377-406 | a field that no key of the dictionary leads to keeps what it held |
| Encode.EncIsShow | bencode/encode.go:47-198 | what is written for a value, its strings as long as Go allows, is the text of a well-formed tree |
| Encode.ScanEnc | bencode/encode.go:47-198 | the scanner stops exactly behind what is written for a value, its strings as long as Go allows, whatever follows it |
| RoundTrip.LeftOutIsZero | bencode/encode.go:297-314 | a field that is left out holds the zero value of its type, so nothing is lost |
| Omission.KeptExactly | bencode/encode.go:225-261 | a field is kept exactly when it is not nil and not omitted: of the fields that may be omitted a struct never is, an interface or pointer only when nil, an array only when it has no elements, and any other exactly when it is zero |
| Omission.WrittenExactly | bencode/encode.go:171-198 | in what is written for a struct, read back, a key stands in front of a text exactly when a field of that name is not left out and its value is written so |
| Omission.AllLeftOut | bencode/encode.go:171-198 | a struct of which every field is left out is written as `de` |
| RoundTrip.DecodeEnc | bencode/docode.go:86-407 | decoding an encoded value into a zero target of its type takes exactly its bytes, whatever follows, and gives it back with nil list elements and nil map entries dropped and left-out fields zero; no strictness flag objects |
| ReadBack.DecodesExactly | bencode/docode.go:199-223 | what is written decodes exactly when no string or key in it, at any depth, has 2^31 bytes or more; names may repeat in a struct, if fields of one name have one type |
| ReadBack.RecordReadsBack | bencode/docode.go:377-406 | what is written for a record, whatever names and types its fields have, decodes exactly when each written field reads back on its own, under the type of the last field of its name |
| ReadBack.AnyTarget | bencode/docode.go:86-407 | whether a text decodes under a type does not depend on what the target holds |
| ReadBack.TwoTypesExample | bencode/docode.go:429-450 | a record with a string and a number under one name is written and not decoded |
| ReadBack.LongStringExample | bencode/docode.go:199-209 | a string of 2^31 bytes is written and not decoded |
| RoundTrip.DecodeEncNilFree | bencode/docode.go:86-407 | nil-free values come back unchanged |
| RoundTrip.EncPrefixFree | bencode/encode.go:47-198 | the encoding is injective and prefix-free on nil-free values of one type |
| RoundTrip.DecodeRecordAmongOthers | bencode/docode.go:377-406 | a record written in any key order, with or without its zero fields, with any extra entries between its own, even several under one unknown key, decodes to the record; the flags object exactly when keys step down and exactly when there is an extra entry |
| Lazy.LazyEqualsEager | bencode/raw.go:19-27 | a dictionary that decodes to a map of values decodes to a map of raw messages with the same keys, and each raw part, decoded later, is used up and gives the value |
| Lazy.SpliceEqualsWhole | bencode/raw.go:12-18 | encoding a map of raw parts equals encoding the map they stand for |
| Lazy.RawReEncode | bencode/raw.go:10-27 | a dictionary in any accepted text, split into raw parts and written again, has under every key the text of its last value; it is the text it came from exactly when key lengths are canonical and keys increase, whatever the parts look like; it reads the same and is never longer |
| Lazy.SplitAndSplice | bencode/raw.go:10-27 | a map written, read back as raw parts and written again is the same text |
| Order.FieldOrderIrrelevant | bencode/encode.go:171-198 | reordering the fields of a struct does not change its encoding |
| Order.StructAsMap | bencode/encode.go:144-198 | a struct is encoded as the map of its kept fields |
| Sorting.SortDetermined | bencode/encode.go:263-295 | with distinct keys every sorted arrangement is the same list, whatever sort.Sort does |
| DecoderObject.Decoder.constructor | bencode/docode.go:43-45 | a new decoder has taken nothing and has no complaints |
| DecoderObject.Decoder.BytesParsed | bencode/docode.go:81-84 | the count is exactly the number of bytes taken from the reader |
| DecoderObject.Decoder.ReadByte | bencode/docode.go:598-602 | one byte is taken and counted |
| DecoderObject.Decoder.ReadBytes | bencode/docode.go:592-596 | a line up to its delimiter, or everything and an error |
| DecoderObject.Decoder.ReadFull | bencode/docode.go:604-608 | exactly n bytes, or everything and an error |
| DecoderObject.Decoder.ReadNBytesInto | bencode/docode.go:610-614 | n bytes go to the buffer; a negative count copies nothing and is no error |
| DecoderObject.Decoder.Discard | bencode/docode.go:625-629 | n bytes are dropped; a negative count is an error |
| DecoderObject.Decoder.ReadValueInto | bencode/docode.go:453-471 | succeeds exactly when the scanner function does, takes what it takes, and the buffer then holds exactly the bytes taken |
| DecoderObject.Decoder.ReadStringInto | bencode/docode.go:487-511 | the same for strings, with the length parsed in 64 bits and the parse error dropped |
| DecoderObject.Decoder.ReadItemsInto | bencode/docode.go:529-548 | the loop of lists refines the recursive function |
| DecoderObject.Decoder.ReadPairsInto | bencode/docode.go:566-589 | the loop of dictionaries refines the recursive function |
| DecoderObject.Decoder.Decode | bencode/docode.go:47-66 | succeeds exactly when the decode function does and no complaint is pending; value, bytes taken and complaints are those of the function |
| DecoderObject.Decoder.Dec | bencode/docode.go:86-146 | follows pointers, filling nil ones, and refines the decode function |
| DecoderObject.Decoder.DecRaw | bencode/raw.go:20-27 | a raw message is a copy of exactly the bytes of one value |
| DecoderObject.Decoder.DecInt | bencode/docode.go:148-197 | refines the integer case, by target kind |
| DecoderObject.Decoder.DecString | bencode/docode.go:199-223 | strings and keys: a 32-bit length that is not negative, then that many bytes |
| DecoderObject.Decoder.DecItems | bencode/docode.go:269-305 | the loop over a slice: an empty list leaves the slice as it was, otherwise it holds the elements read |
| DecoderObject.Decoder.DecArray | bencode/docode.go:269-294 | the loop over an array: elements are overwritten from the front, what does not fit is passed over |
| DecoderObject.Decoder.DecPairs | bencode/docode.go:353-406 | the loop over a map: entries are merged in, each value decoded from zero |
| DecoderObject.Decoder.DecFields | bencode/docode.go:353-406 | the loop over a struct: keys find their field through the index, unknown keys are passed over and noted |
| DecoderObject.Decoder.CheckOrder | bencode/docode.go:369-374 | the complaint about key order, kept from then on |
| DecoderObject.WrapStruct | bencode/docode.go:429-450 | the index from names to fields leads to the later of two fields with one name |
| Streaming.ReceiveAll | bencode/docode.go:48-84 | successive Decode calls over the encodings of a list of values return the values, BytesParsed is the running sum of their lengths, and what follows them is left |
| Streaming.DecodeStrictly | bencode/docode.go:75-79 | with DisallowUnorderedKeys a generic Decode succeeds exactly when it would without and every dictionary is in order; value and bytes taken do not change |
| EncoderObject.SortByKey | bencode/encode.go:148-149 | sort.Sort gives some sorted permutation |
| EncoderObject.MapKeys | bencode/encode.go:148-148 | the keys of a map in any order |
| EncoderObject.KeysDetermined | bencode/encode.go:144-154 | whatever order a map is enumerated in, its sorted keys are the same |
| Texts.StructDetermined | bencode/encode.go:171-181 | however sorting arranges the kept fields, the same text is written |
| Texts.WritesEnc | bencode/encode.go:47-198 | the encoding function gives one of the texts the encoder may write, for every value |
| Texts.WritesExactly | bencode/encode.go:171-198 | where the fields of every struct have distinct names it is the only one |
| Texts.DeterminedExactly | bencode/encode.go:171-198 | for every value: it is the only text exactly when, in every struct that is written at any depth, two written fields of one name give the same text in either order |
| Texts.CommuteExactly | bencode/encode.go:171-198 | where raw messages are whole values, that is when the two fields are written alike |
| Texts.TwoTextsExample | bencode/encode.go:171-181 | a struct with two fields of one name, and two texts it may be written as |
| EncoderObject.Encoder.Encode | bencode/encode.go:47-119 | appends one of the texts that may be written for the value |
| EncoderObject.Encoder.EncodeArrayOrSlice | bencode/encode.go:131-142 | the loop over elements: their texts, one behind the other |
| EncoderObject.Encoder.EncodeMap | bencode/encode.go:144-169 | the loop over the sorted keys, nil values passed over, for every enumeration order: the keys come out in order |
| EncoderObject.Encoder.EncodeStruct | bencode/encode.go:171-198 | the loop over the kept fields in a sorted order, which fields of one name may share in either order |
| EncoderObject.ReadStruct | bencode/encode.go:225-261 | the kept fields of a flat struct, in field order |
| EncoderObject.Marshal | bencode/encode.go:13-19 | one of the texts of a value, the encoding function where names are distinct |
| Schema.ReadStruct | bencode/encode.go:200-261 | embedded structs in front of own fields: the result is the kept fields of the flattened record |
| Schema.WrapStruct2Map | bencode/docode.go:409-451 | the index built for decoding is the index of the same flattened record, with nil pointers to embedded structs filled in |
| Schema.EmbeddedRoundTrip | bencode/encode.go:171-261 | a struct with embedded structs, however its fields are sorted, decodes back into a zero struct; where a pointer to an embedded struct was nil in what was written there is a zero struct |
| Schema.FlatIsFlat | bencode/encode.go:200-261 | a struct without embedded ones is its own flat record, so that the general loops do on it what the flat ones do |
| PeerWire.BigEndianBack | bt/peerwire.go:69-73 | a length is read back modulo 2^32 |
| PeerWire.BigEndianOrder | bt/peerwire.go:69-73 | lengths are ordered as their bytes are, so the first byte counts most |
| PeerWire.ShortFrame | bt/peerwire.go:67-94 | the bytes of a frame with a short payload, written out |
| PeerWire.FrameRoundTrip | bt/peerwire.go:67-94 | a frame is read back, and what follows left alone, exactly when its length fits 32 bits |
| PeerWire.LongFrameExample | bt/peerwire.go:67-94 | a payload of 2^32 - 1 bytes is read as an empty frame and left on the stream |
| PeerWire.ReadMessage | bt/peerwire.go:16-28 | succeeds exactly when a whole frame is there and gives its content |
| PeerWire.ReadMessageWithLimit | bt/peerwire.go:31-47 | the same with a limit on the length; beyond it only the length has been taken |
| PeerWire.ReadMessageInto | bt/peerwire.go:50-64 | the same into a buffer, whatever it held |
| PeerWire.WriteMessage | bt/peerwire.go:67-94 | appends the frame |
| PeerWire.SendAll | bt/peerwire.go:67-94 | a conversation is written as its frames, one behind the other |
| PeerWire.ReceiveAll | bt/peerwire.go:16-28 | a conversation of any number of messages is read back message by message |
| Extension.WriteExtensionMessage | bt/extension.go:140-171 | appends the frame of an extension message |
| Extension.ExtProtocol.RegistExt | bt/extension.go:55-57 | appends an extension |
| Extension.ExtProtocol.WriteHandshake | bt/extension.go:60-74 | writes the frame of a handshake that numbers the extensions from 1 and carries what they put |
| Extension.ExtProtocol.HandlePayload | bt/extension.go:77-126 | a handshake adds its ids to the known ones and settles every slot; a message is dispatched to the slot of its number with its content and the sender of its key, or refused |
| Extension.SettleSlots | bt/extension.go:99-112 | up to the first extension that answers with an error, a slot is cleared, and its extension told so, exactly when no id is known for its key; behind it slots stay and no extension is called |
| Routing.HandshakeTeaches | bt/extension.go:60-97 | a peer's handshake is understood: its raw entries, and its ids added to those known before |
| Routing.IdLearned | bt/extension.go:92-102 | afterwards every registered key has its number, cut to a byte, and every other key the id it had |
| Routing.SlotsAfterHandshake | bt/extension.go:99-112 | after any handshake of a peer, whichever extensions answer it with an error, a slot is nil exactly when the peer numbered its key with a multiple of 256, or did not register it and no id was known before, and no extension in front of it has answered with an error |
| Routing.RefusalExample | bt/extension.go:99-112 | behind an extension that answers with an error, one that the peer does not know keeps its slot |
| Routing.ManyExtensionsExample | bt/extension.go:99-112 | the last of 256 registered extensions is taken for one that the peer does not know |
| Routing.PutAllLast | bt/extension.go:174-181 | of several entries put under one key the last stays, and nothing changes under other keys |
| Routing.GetAfterPut | bt/extension.go:174-201 | what one side puts into its handshake is what the other side's Get finds there |
| Routing.GetIntoMap | bt/extension.go:184-201 | an entry of the handshake is read over what the variable holds |
| Routing.ExtFrameRead | bt/extension.go:140-171 | an extension message is read off the stream as its id and content |
| Routing.Meet | bt/extension.go:60-112 | two sides with at most 255 extensions each handle each other's handshake bytes; then a slot is nil exactly when the peer did not register its key |
| Routing.Deliver | bt/extension.go:113-126 | content sent by one side's extension through its sender is dispatched, after framing and reading, to the other side's extension with the same key, unchanged |
| FetchMeta.GetPiecesNum | bt/fetchmeta.go:214-221 | the number of pieces of a size, rounded up; toward zero for negative sizes |
| FetchMeta.Tiling | bt/fetchmeta.go:214-221 | the pieces tile the metadata: non-empty, adjacent, ending at its end |
| FetchMeta.FetchMetaExt.AfterHandshake | bt/fetchmeta.go:129-163 | without a positive size it fails; otherwise every piece is asked for once, in order, and nothing is kept from before |
| FetchMeta.RequestsAreFrames | bt/fetchmeta.go:144-159 | the requests on the stream are one framed message per piece |
| FetchMeta.RequestUnderstood | bt/fetchmeta.go:145-150 | each is read by the peer as a request for its piece |
| FetchMeta.PayloadSplit | bt/fetchmeta.go:171-190 | header and payload are split exactly, for a header of integers in any text that is accepted and any payload, even one that looks like bencode |
| FetchMeta.HeaderWritten | bt/fetchmeta.go:171-190 | what the encoder writes for a map of integers is such a header |
| FetchMeta.FetchMetaExt.HandleMessage | bt/fetchmeta.go:171-191 | a data message stores its payload in its place, a reject or an unreadable message is an error, everything else is ignored |
| FetchMeta.FetchMetaExt.CheckDone | bt/fetchmeta.go:194-201 | done exactly when no place is empty |
| FetchMeta.FetchMetaExt.FetchRawMeta | bt/fetchmeta.go:204-212 | the pieces joined, if they have the hash asked for |
| FetchMeta.JoinSlices | bt/fetchmeta.go:204-205 | the first pieces of the metadata join to its beginning |
| FetchMeta.StoredPiece | bt/fetchmeta.go:171-191 | in any order, with any repetitions and ignored messages between, a place holds its piece once it has arrived and is empty before |
| FetchMeta.Reassembly | bt/fetchmeta.go:194-212 | all places are filled exactly when all pieces have arrived, and then they join to the metadata |
| Vectors.RequestText | bt/fetchmeta.go:145-150 | a request as text: `d8:msg_typei0e5:piecei`, the number, `ee` |
| Vectors.MetaMeaning | bt/fetchmeta.go:180-190 | a header with type 1 brings the piece of its number, one with type 2 refuses, and any other is ignored |
| Vectors.EmptyHeader | bt/fetchmeta.go:180-182 | a header without a type is ignored, as a request is |
| Vectors.PieceSize | bt/fetchmeta.go:96-98 | a piece has 16384 bytes, and a last one the rest |
| Vectors.ShortExtFrame | bt/extension.go:140-171 | the bytes of an extension message with short content: its length, 20, its id and the content |
| Vectors.GreetingText | bt/extension.go:60-74 | the handshake of the download as text: `d1:md11:ut_metadatai1eee` |
| Vectors.OfferText | bt/extension.go:60-74 | the handshake of a peer that offers metadata as text, its size under `metadata_size` |
| Vectors.NumberTexts | bencode/encode.go:92-105 | numbers and booleans as text |
| Vectors.StringTexts | bencode/encode.go:106-109 | strings as text, and nil as nothing |
| Vectors.ListExample | bencode/encode.go:121-142 | a list with a nil element as text |
| Vectors.MapExample | bencode/encode.go:144-169 | a map with a nil value as text |
| Vectors.OmitExample | bencode/encode.go:225-261 | the text of a struct of a string, a number and a pointer that may be omitted, for all values of the three |
| Download.Handle | bt/extension.go:77-126 | HandlePayload with the metadata extension in its slot: the handshake of a peer that offers the metadata starts the download, a piece is stored in its place |
| Download.ExtFrameIsPacket | bt/extension.go:140-171 | what WriteExtensionMessage puts on the stream is a message of that stream |
| Download.ServedInFull | bt/fetchmeta.go:171-188 | a peer that greets with its number for the extension and the size, and replies with pieces under any headers, in any order and with any repetitions, is such a peer; everything arrives exactly when there is a reply for every piece |
| Download.FetchMetadata | bt/fetchmeta.go:36-87 | over the whole stream: whatever the peer sends, what is returned has the hash asked for; from a peer that greets and then sends pieces in any order, other messages among them, the metadata is returned exactly when every piece arrives, and what was written is the handshake and one request for each piece |
| Krpc.ErrFrom | dht/krpc.go:210-233 | of an error list of any length the second element must be a string, the description; the first is the code when it is an integer, and the code is 0 when it is anything else |
| Krpc.NoCodeExample | dht/krpc.go:210-233 | the list of the strings a and b is accepted as an error with code 0 |
| Krpc.ErrRoundTrip | dht/krpc.go:210-239 | an error survives marshalling, and is one whole value |
| Krpc.KRPCErr.UnmarshalBencode | dht/krpc.go:210-233 | sets code and description and refuses short lists and descriptions that are no string |
| Krpc.RecordRoundTrip | dht/krpc.go:147-188 | a record of any schema survives the wire |
| Krpc.MessageRoundTrip | dht/krpc.go:147-154 | a message comes back as it was, arguments and response byte for byte |
| Krpc.QueryRoundTrip | dht/krpc.go:242-274 | a query survives both levels: same transaction ID, kind, name and raw arguments, and those decode to the arguments given |
| Krpc.ArgsDetermined | dht/krpc.go:242-259 | query name and fields determine the arguments |
| Krpc.ResponseRoundTrip | dht/krpc.go:277-288 | a response survives both levels, its compact nodes byte for byte |
| Krpc.ResponseDetermined | dht/krpc.go:182-188 | the fields that come back are those of one response only |
| Krpc.BadError | dht/krpc.go:147-154 | a message whose error cannot be read is refused |
| KrpcText.MessageText | dht/krpc.go:147-154 | every message as text: keys a, e, q, r, t and y in this order, the first four only where they are given |
| KrpcText.QueryText | dht/krpc.go:242-274 | every query as text, with the names and keys written out |
| KrpcText.ResponseMessageText | dht/krpc.go:277-288 | every response as text, nodes, token and values only where there are some |
| KrpcText.ErrorText | dht/krpc.go:291-297 | every error as text |
| Krpc.ErrorRoundTrip | dht/krpc.go:291-297 | an error message survives |
| Dispatcher.RunsKeep | dht/krpc.go:56-144 | in every state any interleaving reaches, map, calls in flight and boxes agree with each other and with what has been observed |
| Dispatcher.HeldIffLive | dht/krpc.go:93-118 | the map holds a box under its own ID exactly when it was added and its loop has not run rmself |
| Dispatcher.LiveUnique | dht/krpc.go:93-105 | at most one box per ID has not been removed |
| Dispatcher.DeletesItself | dht/krpc.go:114-118 | deleting by ID removes the entry of the box that asks, and no other |
| Dispatcher.AddRefusedIff | dht/krpc.go:93-100 | Add is refused exactly when a box with that ID has not been removed |
| Dispatcher.LoopInOrder | dht/krpc.go:56-76 | in every run the loop of a box does: launch, timeouts that keep it, one cause to end, removal, finish; each at most once and nothing after the finish |
| Dispatcher.Prepared | dht/krpc.go:56-76 | every event was prepared: launch and response by the addition, timeouts and ends by the launch, removal by a cause, finish by the removal |
| Dispatcher.OneCause | dht/krpc.go:60-75 | a box ends for one reason: one refused timeout or one received end |
| Dispatcher.OneDone | dht/krpc.go:52-54 | at most one done() per box ever returns, and none when a timeout ended it |
| Dispatcher.ResponseBeforeLaunch | dht/krpc.go:93-105 | a run in which OnResponse comes before OnLaunch |
| Dispatcher.ResponseAfterFinish | dht/krpc.go:121-131 | a run in which OnResponse comes after OnFinish |
| Dispatcher.AnswerDecides | dht/krpc.go:121-144 | in every run what the callback answers is logged for the box that the handler holds and decides: told to keep the transaction the handler returns and never ends it, otherwise it goes on to end that box; only handlers of responses and errors ask |
| Dispatcher.LoadDecides | dht/krpc.go:107-144 | in every run what the lookup finds decides: without a box the call returns; with one a removal goes on to end it and asks nobody, and a handler holds it |
| Dispatcher.IdentitiesStay | dht/krpc.go:82-131 | in every run a box keeps the ID of its transaction, and a call its kind and the ID it came with |
| Dispatcher.ResponseEnds | dht/krpc.go:56-76 | a run in which a refused response ends its transaction, up to the removal and the finish |
| Dispatcher.ResponseTiming | dht/krpc.go:121-144 | in every run, when OnResponse is called OnLaunch has not been called exactly while the goroutine has not got that far, OnFinish has been called exactly when it is done, and the handler looked the box up earlier, while it was in the map |
| Dispatcher.NoLateLoad | dht/krpc.go:108-131 | in every run a response or error that is looked up after the removal of a box never reaches that box |

## Left out

- EncoderObject.Encoder.Encode: unsupported types, user Marshalers other than RawMessage, TextMarshalers and an untyped nil are not modelled.
- EncoderObject.Encoder.EncodeMap: only string keys, which are the only ones the decoder accepts.
- DecoderObject.Decoder.ReadValueInto: asks that the buffer holds what was read since a given position, as the one caller's fresh buffer does.
- DecoderObject.Decoder.Dec: what a target holds after a failed decode is not modelled; neither are Unmarshalers other than RawMessage, TextUnmarshalers, and interfaces that already hold a pointer.
- DecoderObject.Decoder.DecPairs: targets whose map keys are a named string type or no string, which the code refuses.
- Extension.ExtProtocol.HandlePayload: asks for a non-empty payload and for no second handshake once a slot is nil; what the map of ids holds after a handshake that cannot be read is left open; what extensions write in their callbacks is not part of it.
- Extension.ExtProtocol.WriteHandshake: asks that no slot is nil, because the code calls every extension, and that no struct an extension puts into the handshake has two fields of one name.
- FetchMeta.FetchMetaExt.HandleMessage: asks that a data message names one of the pieces; in Download.FetchMetadata another number is a run-time panic.
- Download.FetchMetadata: starts behind the dialing; the context, timeouts and the network are not modelled; a run-time panic is an outcome of its own.
- ReadBack.DecodesExactly: asks that fields of one name in a struct have one type; for other records the condition is that of ReadBack.RecordReadsBack.
- Krpc.MessageRoundTrip: an error field that appears twice in one message is judged by its last occurrence only.
- Krpc.QueryRoundTrip: argument types other than the four of the protocol, for which MakeQuery returns an error.
- Krpc.ResponseRoundTrip: the compact nodes are the text that their own methods in dht/util.go write and read, whose packing is not the inverse of their unpacking.
- Dispatcher.DeletesItself: assumes that the ID of a transaction does not change, which the code asks for again when it deletes.
- Dispatcher.OneDone: a safety statement only; a second done() on a box that has ended blocks.
- Schema.WrapStruct2Map: an embedded struct with a tag that is present but empty, which the decoder sees twice and the encoder once.
- Float fields.
- Struct tags: parsing them (bencode/tags.go); a field carries its name, and whether it is omitted when empty.
- The texts of errors, and the offsets in them.
- Reflection, addressability, and memory limits.
- Sockets, deadlines, dialing and the UDP loop: a stream never fails between two writes.
- The other parts of the library: the routing table, the crawler and its filter, the sniffer, the peer exchange extension, and the compact encodings of addresses.
- SHA-1, random strings, the bloom filter and the worker pool.
