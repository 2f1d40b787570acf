# slfhst: a Dafny model of its core logic

slfhst installs and sets up a self-hosting appliance. This project models the parts of it that
compute something, states what they promise, and proves it. `dafny verify dfyconfig.toml` checks
everything.

**The D-Bus client** (`internal/dbus`) is the centre. The wire format is written twice: as pure
functions (`Wire`) and as the code has it, an encoder that appends to one buffer and patches array
lengths, and a decoder that moves a cursor (`Codec`). The methods are proved equal to the functions;
the laws are proved about the functions, for every type, value, buffer and position. A type is a
`Ty`, and `Print` gives its signature. `Arg` is what a caller hands to the encoder, with the order in
which Go happens to walk each map; `Abs` forgets that order and gives the `Value` the decoder
returns. An `Outcome` is a value, an error return (`Err`), an index out of range (`Panic`) or a loop
that never ends (`Hang`). A `Piece` holds the bytes of an encoding and whether it is `exact`, that
is, whether no length was cut when it was converted to its width. A decoding function has a
parameter of type `Check`: `AsIs` is the code, which takes inline signatures as they come; the
others also tell (`BadSig`) whether one of them was not safe to decode at, or not a single complete
type.

- `Bytes`, `Signature`, `Values`: words and padding, the signature grammar, values and their types.
- `Wire`, `Codec`: the format as functions, and the encoder and decoder as written.
- `Letters`: the same told letter by letter, with every code, width and byte written out.
- `RoundTrip`, `Exactness`, `Shortness`, `Survival`, `Shift`, `Canonical`, `Extras`: values there and back.
- `Conformance`, `StandardLayout`: where everything lies, and when that is what the specification says.
- `Decoding`, `Safety`, `SafeDecoding`: arbitrary bytes, and signatures that are no types.
- `Message`, `MessageLaws`, `CallLaws`, `Frames`, `Client`: calls, framing, the stream, and matching
  replies to calls.
- `Headers`: the header fields as bytes, those of a call and those of a peer's message, with every
  number and letter written out.

**Around it**: the DNS record reconciler (`Dns`), the strict template expander (`Template`), the
choice of installation disks (`Disks`), and `slfhst setup` run any number of times with failures
anywhere (`Config`, `Setup`).

## What turned out not to hold everywhere

Each of these has a lemma with a concrete case or an exact condition.

- `alignmentOf` gives a variant alignment 8 where the D-Bus Specification, section "Marshaling (Wire
  Format)", gives 1. Round trips are not affected, and everything is laid out by the code's own
  alignment (`EncodingConforms`, `CallConforms`). A value, or a call, whose arrays of variants are
  nonempty is laid out as the specification says if and only if each of these, at any depth, starts
  its elements at a multiple of 8 (`ConformsIff`, `CallConformsIff`); an array of one variant at
  offset 0 is not (`OneVariantDiffers`), and with an empty one it can be a matter of what follows
  (`EmptyArrayConforms`).
- A length that does not fit its width is cut without an error. Under 4 GiB a value, maps included,
  comes back if and only if its 'g' texts and inline signatures are under 256 bytes
  (`SmallRoundTripIff`), and a call if and only if its signature is, too (`CallRoundTripIff`).
  Beyond, every element of an array must also start before the end that the array's possibly cut
  length gives, since the decoder finishes an element that runs past that end (`RoundTripIff`).
- Decoding does not return on every buffer. The code does if and only if the signature it starts
  from is safe and has no variant within reach; and with variants, as long as the inline signatures
  it meets are safe (`SafeIff`). For every unsafe signature short enough for a variant there are
  bytes on which the code does not return (`UnsafeInlineFails`), among them the empty one and "a()"
  (`EmptyInlineSignaturePanics`, `EmptyStructsInVariantHang`). A whole message of 24 bytes can end
  the program that reads it (`FatalMessage`).
- A message that cannot be decoded is not skipped: it ends the call that waits. A signal with a file
  descriptor is enough (`DescriptorSignalEndsCall`); a call gets its reply if and only if every frame
  before it decodes (`GetsReplyIff`).
- A big-endian message is refused after 12 bytes, so the stream is no longer at a message boundary
  (`StaysInStepIff`).
- After 2^32 calls the serial is zero, and a signal passes for a reply (`SignalTakenIff`,
  `PlainSignalTaken`).
- A disk that carries the installer's label and itself has a parent device does not keep that parent
  from being chosen (`BootExclusion`, `ParentOfLabelledDisk`); two candidates or more that all have
  one path run the disk choice out of range (`OutOfRangeIff`).
- A secret typed with bytes that are not UTF-8 reaches podman as typed but the configuration file
  with replacement characters (`StrayByteDiffers`). A secret matches the configuration if and only
  if that was captured before the run that made it, or the answer typed in that run is valid UTF-8
  (`SecretMatchesIff`).
- A save that stops half way leaves a configuration file that no later run can read, so setup never
  succeeds again although nothing fails any more (`TornReached`, `TornForEver`, `Setup.Box.Run`).
- The comment on `strictExpand` names Python's `Template.substitute`, which takes "$$" for '$' and
  fails at any other '$' that begins no reference; the code passes both through (`TwoDollars`). The
  two agree for all values if and only if every '$' of the text begins a reference (`AgreeIff`);
  where one does not they can still agree by chance (`AgreeByChance`).

## Model

| member | source | states |
|---|---|---|
| Bytes.PadIsLeast | internal/dbus/marshal.go:36-40 | padding reaches the first aligned offset at or after the position, and no later one |
| Bytes.AlignedIff | internal/dbus/marshal.go:36-40 | an offset is aligned where the alignment divides it |
| Bytes.WordRoundTrip | internal/dbus/marshal.go:42-53 | a little-endian word comes back if and only if it fits its width |
| Bytes.WordTruncates | internal/dbus/marshal.go:284 | of a number too large for its width the low bytes come back |
| Bytes.WordUnique | internal/dbus/marshal.go:361-395 | every byte string is the encoding of the one word read from it |
| Signature.SplitSig | internal/dbus/marshal.go:86-130 | on every string on which it succeeds, the first part is nonempty and both parts together are the string |
| Signature.SplitSignature | internal/dbus/marshal.go:86-130 | the recursion past 'a' and the bracket scans compute the specified split, errors included |
| Signature.ScanBracket | internal/dbus/marshal.go:98-126 | the depth-counting loop finds the index behind the matching bracket, or that there is none |
| Signature.SplitPrint | internal/dbus/marshal.go:86-130 | splitting takes exactly the printed type off the front, whatever follows, although one scan counts only parentheses and the other only braces |
| Signature.SplitAllPrint | internal/dbus/marshal.go:222-238 | printing any list of complete types and splitting repeatedly recovers exactly that list |
| Signature.SplitDictEntryPrint | internal/dbus/marshal.go:312-326 | a printed dict entry splits into its key and its value signature |
| Signature.PrintInjective | internal/dbus/marshal.go:86-130 | no two types share a signature |
| Signature.PrintAllInjective | internal/dbus/marshal.go:86-130 | no two lists of types share a signature |
| Signature.TypeOfPrint | internal/dbus/marshal.go:452-461 | an inline signature printed from a supported type is one complete type and denotes that type |
| Values.WordInverse | internal/dbus/marshal.go:135-191 | every scalar but a string fits its word and is recovered from it, negative numbers included |
| Letters.EncodesByLetter | internal/dbus/marshal.go:134-203 | at each letter of "ybnqiuxtdsog", at every position, a value of its Go type is padding and then its word or text, byte by byte; any other value is an error |
| Letters.DecodesByLetter | internal/dbus/marshal.go:425-451 | at each of these letters, on any bytes, the value of its Go type that the bytes hold, and the cursor behind it; or an error where they run out |
| Letters.OtherLetters | internal/dbus/marshal.go:239-240 | a byte that is none of these, nor v, a or (, is an error in both directions |
| Letters.NumberRead | internal/dbus/marshal.go:361-395 | the number read from two, four or eight bytes has the first as its lowest |
| Letters.EightIs | internal/dbus/marshal.go:50-53 | the eight bytes of a number, each as a quotient and remainder of it |
| Letters.PrintedLetters | internal/dbus/marshal.go:86-130 | the signature of every type, letter by letter |
| Letters.AlignmentByLetter | internal/dbus/marshal.go:69-82 | the alignment that each letter has |
| Letters.WrongShape | internal/dbus/marshal.go:204-240 | a value of another Go shape than its type asks for is an error |
| Letters.TooFewItems | internal/dbus/marshal.go:231-233 | a struct, or a call, with fewer items than its signature has types is never encoded |
| Codec.Encoder.Align | internal/dbus/marshal.go:36-40 | appends the least number of zero bytes that aligns the buffer |
| Codec.Encoder.PutStringLike | internal/dbus/marshal.go:55-59 | appends padding, a 32-bit length, the text and a zero byte |
| Codec.Encoder.PutSignature | internal/dbus/marshal.go:61-65 | appends a byte length, the text and a zero byte |
| Codec.Encoder.EncodeScalar | internal/dbus/marshal.go:134-203 | appends the scalar's wire form, or reports a value of the wrong Go type |
| Codec.Encoder.EncodeValue | internal/dbus/marshal.go:132-243 | the buffer grows by exactly the bytes of the pure format, with the same errors and panics, for any signature and value |
| Codec.Encoder.EncodeMembers | internal/dbus/marshal.go:221-238 | the member loop of a struct appends the members in order and ignores items left over |
| Codec.Encoder.EncodeArray | internal/dbus/marshal.go:245-286 | a zero length patched afterwards yields the bytes of the pure format, which knows the length beforehand, at any nesting depth |
| Codec.Encoder.EncodeElements | internal/dbus/marshal.go:253-281 | the elements, or the dict entries in the order given, follow the placeholder |
| Codec.Patched | internal/dbus/marshal.go:248-251 | overwriting the placeholder changes the length word and nothing else |
| Codec.Decoder.Align | internal/dbus/marshal.go:335-343 | moves to the next aligned offset, or fails where the buffer ends first |
| Codec.Decoder.GetStringLike | internal/dbus/marshal.go:397-408 | reads what the format says of a length-prefixed text, or fails without reading past the end |
| Codec.Decoder.GetSignature | internal/dbus/marshal.go:410-421 | reads what the format says of a signature, or fails without reading past the end |
| Codec.Decoder.DecodeValue | internal/dbus/marshal.go:423-487 | value, cursor and failure are those of the pure format, on any bytes; inline signatures are read from the bytes |
| Codec.Decoder.DecodeArray | internal/dbus/marshal.go:489-503 | reads the length and the padding and then the elements up to the end they give |
| Codec.Decoder.DecodeArrayElements | internal/dbus/marshal.go:511-548 | elements are read until the cursor is at or past the end; dict keys that repeat overwrite |
| Codec.Decoder.DecodeMembers | internal/dbus/marshal.go:468-483 | the member loop reads one value for every complete type of the signature |
| Wire.DecValue | internal/dbus/marshal.go:423-487 | decoding terminates by remaining bytes, then signature length, and leaves the cursor between where it was and the end of the buffer |
| Wire.DecItems | internal/dbus/marshal.go:539-547 | the element loop keeps the cursor in bounds; an element that takes no bytes makes it endless |
| RoundTrip.ValueRT | internal/dbus/marshal.go:132-548 | every value the encoder accepts at a supported type encodes, at every position and in every surrounding buffer, and an exact encoding decodes to exactly that value with the cursor at its end |
| RoundTrip.ItemsRT | internal/dbus/marshal.go:276-280 | array elements written one after another are read back up to exactly the declared end |
| RoundTrip.MembersRT | internal/dbus/marshal.go:221-238 | struct members written one after another are read back as that list |
| RoundTrip.DictRT | internal/dbus/marshal.go:253-270 | a dict, whatever the order of its entries, is read back as the same map |
| RoundTrip.ArrayHeadRT | internal/dbus/marshal.go:489-503 | the patched length and the padding are read back so that the elements start where they were written |
| Shift.EncodeShift | internal/dbus/marshal.go:36-40 | at two offsets that agree modulo 8 any signature and value encode to the same bytes |
| Shift.DecodeShift | internal/dbus/marshal.go:335-343 | behind a prefix of whole 8-byte blocks decoding gives the same value or failure, the cursor moved by the prefix |
| Shift.MembersShift | internal/dbus/message.go:33-51 | a body encoded on its own has the bytes it has at its 8-aligned place in the message |
| Shift.ElementsMove | internal/dbus/message.go:142-146 | header fields decoded alone from offset 0 agree with their encoding at offset 16 |
| Exactness.SmallIsExact | internal/dbus/marshal.go:55-65 | signatures under 256 bytes and a result under 4 GiB mean that no length was cut |
| Shortness.DecodedIsShort | internal/dbus/marshal.go:410-421 | whatever the decoder returns, at any supported type and from any bytes, its 'g' texts and inline signatures are under 256 bytes |
| Shortness.LongNeverBack | internal/dbus/marshal.go:61-65 | a value with a longer one, of whatever size, does not come back |
| Shortness.SmallRoundTripIff | internal/dbus/marshal.go:55-65 | an accepted value of less than 4 GiB, maps included, comes back if and only if its 'g' texts and inline signatures are under 256 bytes |
| Survival.RoundTripIff | internal/dbus/marshal.go:55-65 | a value of any size comes back if and only if its texts and inline signatures fit their lengths and every array element starts before the end its possibly cut length gives; where no signature is long, what is inside a map is taken to survive |
| Survival.ExactSurvives | internal/dbus/marshal.go:283-286 | where no length was cut everything survives, and what is inside maps, too |
| Canonical.EnumerationsAgree | internal/dbus/marshal.go:262-270 | two walks over one map write entries that denote the same map |
| Canonical.ReorderedAbs | internal/dbus/marshal.go:262-270 | a value whose maps, at any depth, are walked in other orders is the same Go value |
| Canonical.ReorderedAccepted | internal/dbus/marshal.go:253-270 | and is accepted at the same types |
| Canonical.OrderIndependent | internal/dbus/marshal.go:253-270 | so encodings of a value and of any reordering of its maps, at any depth and any place, decode to the same value |
| Canonical.WellTypedIsAccepted | internal/dbus/marshal.go:132-243 | a well-typed value in its plain Go form is accepted by the encoder |
| Canonical.Enumerate | internal/dbus/marshal.go:262-270 | every decoded value has a plain form that the encoder can walk |
| Canonical.Reencode | internal/dbus/marshal.go:423-548 | a value decoded from any bytes, however non-canonical, encodes again and, under 4 GiB, decodes to itself |
| Decoding.Sound | internal/dbus/marshal.go:423-548 | on arbitrary bytes at a supported type, with inline signatures checked, decoding returns, advances strictly on success and yields a well-typed value |
| Decoding.CheckedAgrees | internal/dbus/marshal.go:452-461 | unless an inline signature fails a check, the code, which makes none, does the same as with it |
| Decoding.DecodesArbitraryBytes | internal/dbus/marshal.go:423-548 | at a supported type the code returns within bounds, advances strictly and is well typed, where inline signatures are complete types |
| Safety.GoodIsSafe | internal/dbus/marshal.go:423-487 | every supported type is a safe signature |
| SafeDecoding.SafeReturns | internal/dbus/marshal.go:423-548 | at a safe signature decoding returns on every buffer, and advances but for structs that take no bytes |
| SafeDecoding.UnsafeFails | internal/dbus/marshal.go:423-548 | at every other signature there are bytes on which it indexes out of range or never ends, wherever they stand |
| SafeDecoding.SafeIff | internal/dbus/marshal.go:423-548 | at a signature string, well formed or not, the code returns on every buffer if and only if the string is safe with no variant in reach; and, where inline signatures are safe, if and only if the string is safe |
| SafeDecoding.CodeReturns | internal/dbus/marshal.go:452-461 | on bytes all of whose inline signatures are safe the code returns |
| SafeDecoding.UnsafeInlineFails | internal/dbus/marshal.go:452-461 | each unsafe signature under 256 bytes, read inline, has bytes on which the code does not return |
| Decoding.EmptyInlineSignaturePanics | internal/dbus/marshal.go:424 | two zero bytes read as a variant index an empty signature |
| Decoding.EmptyStructElementsHang | internal/dbus/marshal.go:540-546 | a nonempty array of empty structs is never finished |
| Decoding.EmptyStructsInVariantHang | internal/dbus/marshal.go:452-461 | seventeen bytes read as a variant that reach such an array |
| Conformance.AlignmentAgrees | internal/dbus/marshal.go:69-82 | alignmentOf is the specification's alignment for every type but the variant |
| Conformance.EncodingConforms | internal/dbus/marshal.go:132-286 | every exact encoding is laid out at absolute offsets by the code's own alignment: aligned, padded with fewer than 8 zero bytes, array lengths without the padding before the first element; and by the specification's where every array of variants, if any, starts its elements at a multiple of 8 |
| Conformance.VariantArrayConformsIff | internal/dbus/marshal.go:77-78 | an array of variants, empty or not, conforms if and only if the offset after its length is a multiple of 8 |
| StandardLayout.LaidOutOnce | internal/dbus/marshal.go:245-251 | a layout that the specification allows for an encoding ends where the encoding does, and its arrays of variants are aligned |
| StandardLayout.ConformsIff | internal/dbus/marshal.go:77-78 | an exact encoding whose arrays of variants are nonempty conforms if and only if each, at any depth, starts its elements at a multiple of 8 |
| StandardLayout.OneVariantDiffers | internal/dbus/marshal.go:77-78 | an array of one variant at offset 0 is laid out by the code's alignment and not by the specification's |
| StandardLayout.EmptyArrayConforms | internal/dbus/marshal.go:77-78 | an empty misaligned array of variants in a value that conforms all the same |
| Message.EncodeMethodCall | internal/dbus/message.go:32-82 | two buffers, header and body, make the message of the pure format, or the same error |
| Message.CutFrame | internal/dbus/message.go:95-140 | a frame takes at least its 16 leading bytes off the stream, a failed read never adds any |
| Message.Reader.ReadFull | internal/dbus/message.go:122-125 | exactly that many bytes, or an error that has drained the stream |
| Message.Reader.ReadFrame | internal/dbus/message.go:95-140 | fixed part, fields, padding and body come off the stream in order, each failure leaving what the code leaves |
| Message.Reader.ReadMessage | internal/dbus/message.go:94-191 | outcome and remaining stream are those of the pure reading function |
| Message.DecodeBuffers | internal/dbus/message.go:142-190 | fields and then the body, split by the signature field, are decoded from their own buffers |
| Headers.CallOnTheWire | internal/dbus/message.go:32-82 | in every whole message of a call: the bytes 'l', 1, 0, 1, the body's length, the serial and the fields' length in four bytes each, header fields that decode to (1, 'o', path), (2, 's', interface), (3, 's', member), (6, 's', destination) where nonempty and (8, 'g', signature) where nonempty, fewer than 8 zero bytes, and the body at a multiple of 8 |
| Headers.TaggedBytes | internal/dbus/message.go:53-66 | a header field is padding, its code, the signature of its value, and the value |
| Headers.FieldsMean | internal/dbus/message.go:149-171 | the reply serial is the last number in a field 5, the error name the last text in a field 4, the signature the last text in a field 8; nothing else of the fields matters |
| Headers.PeerMessageRead | internal/dbus/message.go:94-191 | a message that any little-endian peer lays out, with header fields of any codes and values in any order, is read as what these fields mean and its arguments, what follows left unread |
| Headers.EmptyReply | internal/dbus/message.go:94-191 | the bytes of a METHOD_RETURN without arguments to serial n, which are read as a reply to n |
| Headers.NumberReply | internal/dbus/message.go:94-191 | the bytes of a METHOD_RETURN with one number, which are read as a reply with that number |
| Headers.ErrorReply | internal/dbus/message.go:94-191 | the bytes of an ERROR with any name, which are read as an error of that name |
| Extras.ExtraItemsIgnored | internal/dbus/marshal.go:224-238 | whatever the items, those beyond the complete types of the signature make no difference, errors included |
| Extras.TrimmedSame | internal/dbus/marshal.go:224-238 | any value is encoded as without the extra items of its structs, at any depth |
| Extras.NothingToTrim | internal/dbus/marshal.go:224-238 | an accepted value has none |
| Extras.ExtrasRoundTrip | internal/dbus/marshal.go:132-548 | with extra items anywhere the rest of the value comes back |
| MessageLaws.CallRoundTrip | internal/dbus/message.go:32-191 | reading an encoded call in which no length was cut, whatever follows it, gives METHOD_CALL, its signature and its arguments, extra items left out, and leaves exactly what followed |
| CallLaws.LongSignatureLost | internal/dbus/message.go:63-65 | a call whose signature has 256 bytes or more is never read with that signature |
| CallLaws.CallRoundTripIff | internal/dbus/message.go:32-191 | under 4 GiB a call comes back, and leaves what follows, if and only if its signature and its arguments' 'g' texts and inline signatures are under 256 bytes |
| MessageLaws.SmallCallIsExact | internal/dbus/message.go:69-81 | short signatures and a message under 4 GiB mean that no length was cut |
| MessageLaws.CallConforms | internal/dbus/message.go:67-81 | in every whole message every part lies at an offset that its alignment, by the code, divides, with zero padding, though the body was encoded on its own; by the specification where every array of variants among the arguments starts its elements at a multiple of 8 |
| CallLaws.CallConformsIff | internal/dbus/message.go:67-81 | a call whose arrays of variants are nonempty conforms if and only if each starts its elements at a multiple of 8 |
| MessageLaws.CallsAreFramed | internal/dbus/message.go:67-81 | every call sent is exactly one frame |
| MessageLaws.ReadsOneFrame | internal/dbus/message.go:94-191 | one read takes one frame, also when decoding it fails, and what follows has no influence |
| MessageLaws.ReadsFramesInOrder | internal/dbus/message.go:94-191 | repeated reads visit the frames of any concatenation in order, errors included, up to the first that ends the program, and leave the rest |
| Frames.FatalMessage | internal/dbus/message.go:142-146 | a framed message of 24 bytes that ends the program reading it |
| Frames.DescriptorSignal | internal/dbus/message.go:173-188 | a framed signal with a file descriptor in its body, which is read with an error |
| Frames.PlainSignal | internal/dbus/message.go:149-173 | a framed signal without header fields, which carries no reply serial |
| MessageLaws.StaysInStepIff | internal/dbus/message.go:99-101 | the stream is at the next message afterwards if and only if the byte-order mark was 'l', whatever lengths a message with another mark has |
| Client.Conn.NextSerial | internal/dbus/dbus.go:100-102 | a 32-bit increment that wraps |
| Client.Conn.AwaitReply | internal/dbus/dbus.go:121-138 | the loop hands over the first message with the serial, or the first read error |
| Client.Conn.Call | internal/dbus/dbus.go:111-138 | sends one encoded call under a fresh serial, or nothing where encoding fails, awaits that serial, and tells an ERROR from a reply |
| Client.ReplyMatches | internal/dbus/dbus.go:126-129 | on any bytes whatever, a reply handed over carries the call's own serial |
| Client.ErrorsAre | internal/dbus/dbus.go:130-137 | a message of type 3, and of no other, is an error to the caller |
| Client.RepliesTaken | internal/dbus/dbus.go:121-137 | replies as they stand on the wire answer the call with whatever serial |
| Client.ErrorTaken | internal/dbus/dbus.go:130-132 | an ERROR as it stands on the wire gives the caller its name |
| Client.AnswersIff | internal/dbus/dbus.go:126-129 | a peer's message answers a call if and only if the last number in a field 5 is the call's serial |
| Client.StopIs | internal/dbus/dbus.go:121-138 | a call passes the frames that decode and carry another serial, and stops at the first that does not |
| Client.AwaitStops | internal/dbus/dbus.go:121-138 | over framed messages the outcome is that of the frame it stops at, the stream just behind that |
| Client.GetsReplyIff | internal/dbus/dbus.go:121-138 | a call gets the first message with its serial if and only if every frame before it decodes |
| Client.EndsAtFailure | internal/dbus/dbus.go:122-125 | otherwise it ends with the failure of the first that does not, the stream just behind that |
| Client.DescriptorSignalEndsCall | internal/dbus/dbus.go:122-125 | a signal of no concern to the call that cannot be decoded ends it with an error |
| Client.RunServes | internal/dbus/dbus.go:100-138 | calls in a row, some failing to encode, on a stream of frames: each is served in turn, from behind the frame at which the one before stopped |
| Client.RepliesCarrySerials | internal/dbus/dbus.go:100-138 | on any bytes whatever, the k-th call's reply carries the k-th serial, failed calls counted |
| Client.RepliesAreDistinct | internal/dbus/dbus.go:100-138 | over fewer than 2^32 calls on a fresh connection those are distinct and none is zero |
| Client.SignalTakenIff | internal/dbus/dbus.go:100-129 | a message without REPLY_SERIAL is taken for the k-th reply if and only if the counter has just wrapped |
| Client.PlainSignalTaken | internal/dbus/dbus.go:100-129 | a concrete signal that the call after a wrap takes for its reply |
| Dns.Put | internal/dnscf/dnscf.go:158-159 | only the record with that id changes, keeping id and place |
| Dns.Find | internal/dnscf/dnscf.go:151-154 | the index is in the snapshot or just behind it |
| Dns.FindIs | internal/dnscf/dnscf.go:151-154 | the record found has the type, name and priority and none before it has |
| Dns.UpsertMeans | internal/dnscf/dnscf.go:150-163 | a record is added, replaced in place or left alone by the first with its key; ids stay unique |
| Dns.UpsertEffect | internal/dnscf/dnscf.go:150-163 | afterwards the record is there, every other record is unchanged, and other keys find what they found |
| Dns.StaleIsFresh | internal/dnscf/dnscf.go:210-246 | with distinct keys one snapshot taken up front is as good as reading again before every upsert |
| Dns.SyncIsRereading | internal/dnscf/dnscf.go:210-246 | the same for a whole run |
| Dns.Converges | internal/dnscf/dnscf.go:215-246 | after a run the first record of every desired key has the desired content and proxied flag |
| Dns.UpsertByField | internal/dnscf/dnscf.go:150-163 | compared field by field: a missing record is added, the first with its type, name and priority left alone if content and proxied flag are right and otherwise replaced under its id; with one write, none, or one |
| Dns.ConvergesByField | internal/dnscf/dnscf.go:215-246 | after a run the first record of the type, name and priority of any desired one has its content and its proxied flag |
| Dns.UntouchedByField | internal/dnscf/dnscf.go:152-154 | a record that differs from every desired one in type, name or priority, or is not the first of its kind, stays as it is |
| Dns.OtherPriorityKept | internal/dnscf/dnscf.go:165-170 | an exchanger of another priority is not touched |
| Dns.OthersUnchanged | internal/dnscf/dnscf.go:215-246 | records of other keys and later duplicates keep place, id and contents |
| Dns.OnlyMissingAdded | internal/dnscf/dnscf.go:161-162 | records added are desired ones whose key was missing |
| Dns.SecondRunIdle | internal/dnscf/dnscf.go:150-163 | a second run sends no write and changes nothing |
| Dns.ResumesAfterStop | internal/dnscf/dnscf.go:215-246 | a run stopped after any number of upserts and completed later ends as one never interrupted, ids included |
| Dns.ResumesAfterStops | internal/dnscf/dnscf.go:215-246 | the same after any number of stopped runs |
| Dns.RecordsDistinct | internal/dnscf/dnscf.go:215-246 | whatever the domain, no two of the appliance's records share type, name and priority |
| Dns.RecordsAre | internal/dnscf/dnscf.go:215-246 | the appliance's records one by one, with types, names, contents, proxied flags and priority |
| Dns.Server.Request | internal/dnscf/dnscf.go:159-162 | a write takes effect or fails, and can fail having taken effect |
| Dns.Server.Upsert | internal/dnscf/dnscf.go:150-163 | the loop acts as specified by the snapshot, with at most one write, and fails exactly where that fails |
| Dns.Server.Sync | internal/dnscf/dnscf.go:215-257 | upserts are made in order up to the first whose write fails, and no others; all, or all but the last, took effect; the writes are those they need |
| Template.Ref | internal/quadlet/expand.go:11 | a reference has a name by the pattern and takes part of the text |
| Template.NameCharacters | internal/quadlet/expand.go:11 | a name is made of letters, digits and underscores and does not begin with a digit |
| Template.ExpandIsSubst | internal/quadlet/expand.go:20-32 | expansion is the in-order concatenation of literals and values, never rescanned |
| Template.StrictOnTemplates | internal/quadlet/expand.go:18-37 | succeeds if and only if every name is bound, otherwise fails with the missing names in order of occurrence |
| Template.MissingNone | internal/quadlet/expand.go:27-35 | nothing is missing exactly where every referenced name is bound |
| Template.EveryTextIsATemplate | internal/quadlet/expand.go:11 | every text is a printed template, so the above is about every input |
| Template.StrictExpand | internal/quadlet/expand.go:18-37 | the left-to-right rewrite with its growing list of missing names computes the specified expansion |
| Template.AgreeIff | internal/quadlet/expand.go:13-17 | for all values the code and Template.substitute give the same text or both fail, if and only if every '$' of the text begins a reference |
| Template.TwoDollars | internal/quadlet/expand.go:13-17 | "$$" stays as it is, where Template.substitute gives one '$' |
| Template.AgreeByChance | internal/quadlet/expand.go:13-17 | a text and values with which the two agree although a '$' begins no reference |
| Disks.Slice.SortBySize | internal/disks/disks.go:186-196 | sorts in place to a permutation ordered by size, and promises no more |
| Disks.Gather | internal/disks/disks.go:167-195 | each appending loop keeps exactly the devices its condition selects |
| Disks.CandidatesAre | internal/disks/disks.go:167-172 | the candidates are the devices that are disks, not empty, writable and not the one to leave out, as often as they are listed |
| Disks.SelectDisksFrom | internal/disks/disks.go:166-200 | the outcome is one the specification allows, though sorting the pool may reorder the candidates it shares its elements with |
| Disks.BootDiskName | internal/disks/disks.go:119-129 | the first device with the name decides: itself if a disk, else its parent |
| Disks.SelectDisks | internal/disks/disks.go:135-145 | refuses without a boot device and otherwise selects with it excluded |
| Disks.ExcludedNoneIff | internal/disks/disks.go:119-128 | selection is refused exactly where no listed device has the boot device's name |
| Disks.BestChoiceIff | internal/disks/disks.go:173-199 | two paths are a possible result if and only if root is the smallest non-rotational candidate, or the smallest where all rotate, and bulk the largest candidate with another path |
| Disks.ChosenIff | internal/disks/disks.go:173-175 | with unique paths two disks come out exactly where there are two candidates |
| Disks.OutOfRangeIff | internal/disks/disks.go:190-197 | the index is out of range exactly where two or more candidates all have one path |
| Disks.SafeChoice | internal/disks/disks.go:166-200 | root and bulk are different, writable, nonempty disks, neither the labelled device nor the parent of a labelled partition |
| Disks.BootExclusion | internal/disks/disks.go:119-127 | the labelled device is never a candidate; its parent is one exactly where the label is on a disk and the parent is usable |
| Disks.ParentOfLabelledDisk | internal/disks/disks.go:123-125 | a concrete listing in which the parent of the labelled disk is chosen |
| Disks.OrderIrrelevant | internal/disks/disks.go:166-200 | the order of the listing has no influence on the possible outcomes |
| Disks.OneOutcome | internal/disks/disks.go:166-200 | where sizes differ there is one outcome, whatever the sort does |
| Disks.SomeOutcome | internal/disks/disks.go:166-200 | there is always an outcome |
| Config.SavedIs | internal/config/config.go:63-81 | what is read back of a saved string is valid UTF-8, empty only if it was, and the same if and only if it was valid UTF-8 |
| Config.SavedAfterAscii | internal/config/config.go:63-81 | a plain ASCII prefix is saved as it is |
| Config.CodePointsAreUtf8 | internal/config/config.go:63-81 | every text of code points is valid |
| Config.Utf8IsCodePoints | internal/config/config.go:63-81 | and every valid text is one of code points |
| Config.StrayByteSaved | internal/config/config.go:63-81 | a byte that begins no character is read back as U+FFFD, what is before and behind it as if alone |
| Setup.NamesDistinct | internal/quadlet/quadlet.go:39-46 | no two configuration keys share a podman secret |
| Setup.FileSecretsIff | internal/wizard/wizard.go:133-141 | a capture leaves every secret nonempty exactly where the file secrets were missing before or nonempty strings |
| Setup.SecretsAfter | internal/quadlet/quadlet.go:59-84 | which secrets exist after a run, that existing ones keep their value, and what new ones are |
| Setup.RunKeepsConsistent | internal/setup/setup.go:17-54 | every run, failing anywhere, keeps the machine consistent |
| Setup.RunKeeps | internal/wizard/wizard.go:85-87 | one run never changes a captured configuration, and markers stay |
| Setup.DomainMeansComplete | internal/wizard/wizard.go:80-149 | after any runs from a fresh install a domain means that no secret is empty; no domain, no podman secret; stage2, that stage1 is done and everything made |
| Setup.DoneMeansAllSteps | internal/setup/setup.go:17-54 | stage2 is there only if some run went through every step in order, none but the update check failing |
| Setup.NeverChanges | internal/wizard/wizard.go:85-87 | over any further runs a captured configuration and every secret made stay as they are |
| Setup.NewSecretMatchesIff | internal/quadlet/quadlet.go:59-84 | a secret made in a run matches the configuration if and only if that was captured before the run or the typed answer is valid UTF-8 |
| Setup.MadeInSomeRun | internal/quadlet/quadlet.go:59-84 | every secret was made in some run |
| Setup.SecretMatchesIff | internal/quadlet/quadlet.go:50-84 | and after any further runs it matches the current configuration if and only if that held of the run that made it |
| Setup.SecretsMatch | internal/quadlet/quadlet.go:50-84 | where the operator types valid UTF-8, all secrets match the configuration after any runs in any order of creation |
| Setup.FinishedSecrets | internal/quadlet/quadlet.go:59-84 | the secrets of a finished setup are a function of the captured configuration |
| Setup.MadeByName | internal/quadlet/quadlet.go:39-55 | the six names, and what is made under each of any configuration |
| Setup.SecretsByName | internal/quadlet/quadlet.go:39-84 | a finished setup, after any runs, has exactly these six secrets and those there were before; each is its entry of the captured configuration, Stalwart's with "admin:" in front |
| Setup.StrayByteDiffers | internal/wizard/wizard.go:104-114 | a run after which podman and the configuration disagree about a token |
| Setup.NothingLeftToDo | internal/setup/setup.go:17-54 | after a finished setup no run changes configuration, secrets or markers |
| Setup.TornReached | internal/config/config.go:63-81 | a run whose save stops half way leaves a torn file |
| Setup.TornForEver | internal/config/config.go:45-58 | from a torn file every run fails and changes nothing |
| Setup.RenderingSucceeds | internal/quadlet/quadlet.go:164-189 | past the wizard every template variable has a nonempty value, and a template of those names expands |
| Setup.EntriesGiven | internal/quadlet/quadlet.go:174-187 | which entry of the configuration each name stands for |
| Setup.HostsHaveRecords | internal/quadlet/quadlet.go:175-180 | every host that a template can name is a proxied address record of the zone that setup leaves |
| Setup.NamesAreNames | internal/quadlet/expand.go:11 | every name that a template can use is a name to the expander |
| Setup.Box.Save | internal/config/config.go:63-81 | a save that fails leaves the old file, a torn one or the new one |
| Setup.Box.Load | internal/config/config.go:45-58 | the file's contents, or a failure to read it, or to parse a torn one |
| Setup.Box.Ask | internal/prompt/prompt.go:35-66 | a required answer is nonempty |
| Setup.Box.AskSecret | internal/prompt/password_linux.go:42-73 | one line is taken, of which only the line end is dropped |
| Setup.TrimNewlineIs | internal/prompt/password_linux.go:68-73 | of a line, what is before its line end, blanks included, is the secret |
| Setup.TrimSpaceIs | internal/prompt/prompt.go:46 | of a line, what is between the blanks at its ends, and nothing else, is the answer |
| Setup.Box.GenSecret | internal/config/config.go:135-144 | a generated secret has 32 ASCII characters |
| Setup.Box.AskAccount | internal/wizard/wizard.go:91-110 | domain, address and token are nonempty and are three of the operator's lines, in that order |
| Setup.Box.AskSecrets | internal/wizard/wizard.go:118-131 | every service secret is nonempty and one of the lines or generated |
| Setup.Box.Capture | internal/wizard/wizard.go:91-141 | the entries asked for are the lines typed, secrets the lines or generated; everything is there, file secrets already present and all other entries are kept |
| Setup.Box.RunPostBoot | internal/wizard/wizard.go:80-149 | nothing happens once there is a domain; otherwise the whole capture is saved, or an error returned |
| Setup.Box.Create | internal/quadlet/quadlet.go:77-81 | a secret is made only under a new name, and a failure can come after that |
| Setup.Box.EnsureSecrets | internal/quadlet/quadlet.go:59-84 | in any order, exactly the missing secrets of some of the keys are made, and of all unless podman failed |
| Setup.Box.SyncDns | internal/dnscf/dnscf.go:186-257 | on success the zone is reconciled with the configuration on disk |
| Setup.Box.Proceed | internal/setup/setup.go:27-53 | after the wizard: steps in order up to the first failure, secrets before rendering, rendering never short of a domain |
| Setup.Box.Publish | internal/setup/setup.go:38-53 | from the rendering on: steps in order up to the first failure, the marker last, and success only with the zone reconciled |
| Setup.Box.Run | internal/setup/setup.go:17-54 | each run is a step of the state machine; one that succeeds leaves the zone reconciled; one during which nothing outside fails, on a consistent machine, succeeds if and only if the configuration file is not torn |

## Left out

- Survival.RoundTripIff: where all signatures are short, a map with a length of 4 GiB or more cut inside one of its entries is left out: behind it the decoder reads text as structure, and entries it finds there can replace those it got wrong.
- Decoding.DecodesArbitraryBytes: that results are well typed is for complete inline signatures, which alone denote types; when decoding returns is settled by SafeDecoding.SafeIff.
- StandardLayout.ConformsIff: empty arrays of variants are left out of the converse, for the reason that EmptyArrayConforms shows.
- CallLaws.CallRoundTripIff: messages of 4 GiB and more are left to MessageLaws.CallRoundTrip, one way.
- Disks.SafeChoice: names and paths are taken to be unique, as lsblk reports them; OutOfRangeIff and BestChoiceIff do not need that.
- Disks.Slice.SortBySize: stands for sort.Slice, whose treatment of equal sizes callers may not rely on; the insertion sort in the body is one possibility.
- Disks.Gather: three loops of the original that differ in their condition.
- Setup.Box.Proceed: it, Setup.Box.Publish, Setup.Box.Capture, Setup.Box.AskAccount, Setup.Box.AskSecrets and Setup.Box.AddFileSecrets are parts of two longer functions of the original.
- Setup.Box.Capture: the formats of domain and address and the terminal are not modelled; a line is refused or accepted arbitrarily, and of the blanks at its ends only those of ASCII are dropped.
- Setup.Box.Save: entries other than strings are taken to survive JSON; a file that holds `null` is not modelled.
- Setup.Box.Inspect: a podman lookup that matches a secret by a prefix of its id is not modelled.
- Setup.Box.Run: firewall, update check, rendering to files, deployment, backing services and health check are steps that succeed or fail and touch neither configuration nor secrets nor markers.
- Setup.RenderingSucceeds: which names the shipped templates use is a premise.
- Dns.Server.Sync: HTTP, JSON, pagination and the address lookup are left out; the snapshot is complete and nothing else writes to the zone meanwhile. The DKIM record is a stub in the original that is never written.
- Codec.Encoder.EncodeMembers: the argument loop of encodeMethodCall is the same loop and is modelled by the same method.
- Client.Conn.Call: the reply's body is returned as it is, without the typed destinations; writing to the socket is an append that does not fail; timeouts are left out.
- Values.WordInverse: a double is its 64-bit pattern.
- Typed destinations (`assign`, `decodeInto`): one-branch type checks.
- The nesting limits of the D-Bus Specification, which the code does not enforce, and its message size limit.
- The SASL exchange, dialling, error texts, and buffering.
- `resolveDest` and the writing of rendered files: no more than a table of destinations.
- The installer, partitioning, deployment, backing services, monitoring, firewall, users and network configuration: orchestration of external commands.
