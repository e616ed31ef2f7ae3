# CloudI API: term codec, instance protocol and request serialiser

CloudI services talk to their Erlang node through a small client library in each language. This
project models three parts of these libraries and proves what they are for.

**The term codec** (`Terms`, `Encoder`, `Decoder`, `DecoderLoops`, `CheckedDecoder`, `NormalForm`,
`Locality`, `Shifting`, `Functions`, `RoundTrip`, `Encodability`, `WireEquality`, `WireForm`, `Acceptance`,
`Reencoding`, `Splice`, `Formats`, `Utf8`, `Bignum`, `Bytes`) follows `src/api/python/erlang.py`; maps follow
`src/api/php/Erlang.php`, with keys and values laid out flat. The decoder slices without bounds checks and lets its cursor run past the end,
as the source does; one comparison at the very end makes that sound, which
`CheckedDecoder.UncheckedIsSound` states against a decoder that checks every slice. Encoding and decoding
is not the identity: the normal form `Norm` says what a term becomes. `Formats` and `Utf8` state the wire by
its numbers.

**The instance protocol** (`Events`, `Protocol`, `Monitor`, `FrameDemands`, `PatternRuns`,
`ProtocolRuns`, `ProtocolPolls`, `ProtocolRequests`, `ProtocolReplies`, `ReplyTimeouts`, `PollBudgets`,
`Subscriptions`, `ProtocolStatuses`, `ProtocolParts`, `ProtocolAnswers`, `ProtocolTermination`,
`ProtocolIsolation`, `ProtocolLifecycle`, `Instance`, `Framing`, `ReallocPtr`, `Lookup`, `Timeouts`,
`KeyValueText`) follows `src/api/c/cloudi.cpp` and
`src/api/c/realloc_ptr.hpp`. `Protocol` is the specification of `poll_request` and everything below it as
functions on a state; callbacks make calls that poll again, to any depth. A run leaves one trace of what
was read, written and called, in order. `Monitor` is an automaton on such traces: it says which frames
are owed a callback, from their bytes alone, and which entries may answer a request; `FrameDemands` shows
what that means for the frames that a service sends. `ProtocolLifecycle.WholeRun` shows that every run is
accepted by it. The class `Instance.CloudiInstance` updates its fields in place, with the loops of the
source, and is proved equal to the specification. Its buffers and its lookup are the abstract values of
the classes `ReallocPtrs.ReallocPtr` and `Lookup.CallbackFunctionLookup`, which model the storage behind
them. What the operating system and the handlers do is part of the state: the frames that will arrive,
with the stale bytes behind them in the buffer and the milliseconds they take, and for each callback the
calls it makes and how it ends.

**The request serialiser** (`Serialiser`, `SerialiserIssues`) follows `_poll_wait` and `_poll_wait_retry` of
`src/api/javascript/CloudI.js`: one reply slot, a queue, and a retry timer for each queued request. The
class `Api` carries the invariant of all runs from method to method.

## What the proofs found

- A NEW_FUN_EXT whose declared length is below four reads its length from bytes it does not consume. A
  parse depends on the bytes it consumed alone exactly when it does not end in such a fun
  (`Locality.LocalExactly`); no accepted input is affected, since nothing can follow.
- An improper list of one element that encodes as the empty list loses its frame in a round trip, so
  two terms can be equal after a round trip and differ in bytes. Byte equality is equality of the wire
  form, which keeps these frames (`WireForm.WireEqualityExact`).
- A reference with no id words is accepted but is re-encoded in a format that does not carry its length.
  A re-encoded term comes back exactly when it holds no such reference (`Reencoding.AcceptedReencodes`).
- A list of 2^32 - 1 elements and a tail is accepted as an improper list of 2^32 elements, which the encoder
  refuses (the same lemma).
- `reserve` at exactly the maximum capacity grows beyond the maximum. The maximum of 2^31 that all
  buffers of the instance ask for overflows an `int` shift and becomes 2^64 - 2^32 on a 64-bit machine,
  so it never limits anything (`ReallocPtrs.ReallocPtr.constructor`).
- The scan of key/value text in C++ is right exactly when no segment but the last is empty, and it ends
  in an exception from 131072 positions on, or from 128 on if the allocator refuses
  (`KeyValueText.GrantedScans`, `KeyValueText.AlwaysScans`).
- A SEND that arrives while a callback waits for a response overwrites the bytes that the callback and
  its reply point to. If both requests have the same shape the outer reply goes to the sender of the
  inner one. Replies name the requests they answer, on every input, exactly when no handler waits inside a
  callback (`ProtocolIsolation.CallbackIsolatedExactly`, and over whole polls `IsolatedExactly`).
- TERM that arrives while a callback waits for a response is seen by that call, but not by the poll
  around the callback, which writes the reply and reads on. A poll is silent after the flag is set, on
  every input, exactly when no handler waits inside a callback (`ProtocolTermination.SilentExactly`).
- A late response is emptied only if its last handler took at least a millisecond.
- The time of a callback is charged by comparing two numbers. A request or REINIT that arrives inside a
  callback changes one of them, and the outer reply is then charged only if it passes on the timeout of the
  inner request, or 0 (`ReplyTimeouts.LastInsideDecides`).
- A trans_id that is cut off at the end of a response is not noticed (`ProtocolParts.ResponseCutOff`).
- A retry timer in JavaScript runs the oldest waiting request, whoever armed it. The exception of a
  forward or return can reach the error domain of another call as soon as there are two domains
  (`Serialiser.HomeExactly`).

## Model

| member | source | states |
|---|---|---|
| `Bytes.Be16Inverse` | src/api/python/erlang.py:389-392 | Sixteen-bit big-endian packing and unpacking undo each other in both directions. |
| `Bytes.Be32Inverse` | src/api/c/cloudi.cpp:471-474 | The 32-bit header is packed and unpacked big-endian without loss, in both directions. |
| `Bignum.Le32Inverse` | src/api/c/cloudi.cpp:1451-1457 | Host-order words are written and read without loss, in both directions. |
| `Bignum.Le32IsReversedBe32` | src/api/c/cloudi.cpp:1451-1457 | A host-order word is the byte-reversed big-endian one. |
| `Bignum.BigEndian16` | src/api/python/erlang.py:389-389 | The `>H` format is the positional value of its two bytes. |
| `Bignum.BigEndian32` | src/api/python/erlang.py:371-376 | The `>I` format is the positional value of its four bytes. |
| `Bignum.ValueOfDigits` | src/api/python/erlang.py:687-707 | Evaluating the digits that the encoder produces gives the number back, for every number. |
| `Bignum.DigitsOfValue` | src/api/python/erlang.py:439-454 | A digit string without a leading zero is the one the encoder produces for its value. |
| `Bignum.DigitsAreMinimal` | src/api/python/erlang.py:687-707 | No digit string of the same value is shorter than the encoder's. |
| `Bignum.ReversedMagnitude` | src/api/go/erlang/erlang.go:1122-1163 | Reversing the minimal big-endian magnitude gives exactly the digits of the Python loop. |
| `Bignum.BigEndianIsReversedLittle` | src/api/go/erlang/erlang.go:1122-1163 | A big-endian digit string denotes what its reversal denotes little-endian. |
| `Bignum.DigitLoop` | src/api/python/erlang.py:693-696 | The loop that shifts out eight bits a round produces the digits. |
| `Bignum.HornerLoop` | src/api/python/erlang.py:446-450 | The loop from the last digit down to the first computes the value of the digit slice. |
| `Bignum.ReverseInPlace` | src/api/go/erlang/erlang.go:1153-1160 | Swapping the two halves in place leaves the reversed contents. |
| `Encoder.BignumToBinary` | src/api/python/erlang.py:687-707 | The digit loop and its frame produce the bignum encoding, with the small frame up to 255 digits. |
| `Encoder.GoBignumToBinary` | src/api/go/erlang/erlang.go:1122-1163 | The Go form with the in-place reversal produces byte for byte the Python encoding. |
| `Decoder.Decode` | src/api/python/erlang.py:368-370 | A successful parse started inside the input and moved the cursor forward. |
| `Decoder.DecodeTagged` | src/api/python/erlang.py:368-535 | The cursor never moves back; a fun carries exactly the bytes between its tag and the cursor. |
| `Decoder.DecodeSequence` | src/api/python/erlang.py:537-542 | A sequence has exactly the declared number of elements. |
| `DecoderLoops.BinaryToTermSequence` | src/api/python/erlang.py:537-542 | The loop over a cursor and a growing list equals the recursive decoding, errors included. |
| `DecoderLoops.BinaryToPairs` | src/api/php/Erlang.php:592-605 | The loop over key and value pairs decodes the flat sequence of twice the length. |
| `Shifting.DecodeShift` | src/api/python/erlang.py:368-535 | Bytes in front of the input only move the cursor of a parse; the term stays. |
| `Shifting.SequenceShift` | src/api/python/erlang.py:537-542 | The same for sequences. |
| `Locality.DecodeAgrees` | src/api/python/erlang.py:368-535 | A parse that ends inside the input looks at nothing but the bytes it consumed, unless it ends in a NEW_FUN_EXT shorter than its length word. |
| `Locality.LocalExactly` | src/api/python/erlang.py:455-457 | A parse depends on the bytes it consumed alone exactly when it does not end in a NEW_FUN_EXT whose declared length is below four. |
| `Locality.ShortExample` | src/api/python/erlang.py:455-457 | One consumed byte, and two different terms: the length is read from bytes that are not consumed. |
| `Locality.ShortIsUnsettled` | src/api/python/erlang.py:455-457 | Such a parse leaves the cursor before a byte 0 or 3. |
| `Locality.FollowedIsNotShort` | src/api/python/erlang.py:368-535 | A parse with another term or the end of the input behind it is not such a one. |
| `Locality.DecodedIsSettled` | src/api/python/erlang.py:368-535 | Nothing decodes at a byte 0 or 3. |
| `Locality.DecodeMoves` | src/api/python/erlang.py:368-535 | The bytes that a term was read from decode to that term at any place of any other input, with the same exception. |
| `Locality.DecodeInContext` | src/api/python/erlang.py:368-535 | What decodes alone decodes to the same term between any prefix and any suffix. |
| `Locality.SequenceInContext` | src/api/python/erlang.py:537-542 | The same for sequences. |
| `Locality.AcceptedArePrefixFree` | src/api/python/erlang.py:330-346 | No accepted input is a strict prefix of another: truncating or extending an accepted input makes it rejected. |
| `CheckedDecoder.UncheckedIsSound` | src/api/python/erlang.py:330-346 | Slicing without bounds checks is sound: an input is accepted with a term exactly when a decoder that checks every slice accepts it with that term. |
| `RoundTrip.IntegerRoundTrip` | src/api/python/erlang.py:675-707 | An integer has bytes exactly when some digit string of at most 2^32 - 1 bytes denotes it, and these give it back, in whichever of the four formats they are. |
| `RoundTrip.AtomTermRoundTrip` | src/api/python/erlang.py:98-134 | An atom comes back; a small Latin-1 atom named true or false comes back as a boolean. |
| `RoundTrip.StringRoundTrip` | src/api/python/erlang.py:635-640 | A string of up to 65535 bytes comes back; the empty one as the empty list. |
| `RoundTrip.LongStringRoundTrip` | src/api/python/erlang.py:641-646 | A longer string comes back as the list of its bytes as integers. |
| `RoundTrip.BinaryRoundTrip` | src/api/python/erlang.py:136-156 | A binary or bit binary comes back with its bit count. |
| `RoundTrip.ReferenceRoundTrip` | src/api/python/erlang.py:257-274 | A reference with a positive number of id words comes back. |
| `RoundTrip.PortRoundTrip` | src/api/python/erlang.py:238-246 | A port comes back. |
| `RoundTrip.PidRoundTrip` | src/api/python/erlang.py:217-226 | A pid comes back. |
| `RoundTrip.TupleRoundTrip` | src/api/python/erlang.py:650-661 | A tuple comes back with the normal forms of its elements, small or large. |
| `RoundTrip.MapRoundTrip` | src/api/php/Erlang.php:260-279 | A map comes back with its pairs in order. |
| `RoundTrip.ListRoundTrip` | src/api/python/erlang.py:186-207 | Proper lists come back plain; improper ones as the normal form says. |
| `RoundTrip.RoundTrip` | src/api/python/erlang.py:599-633 | Every well-formed term decodes to its normal form and the cursor ends behind its encoding; a fun is well-formed when its parts are laid out as the format says. |
| `RoundTrip.RoundTripAll` | src/api/python/erlang.py:537-542 | The same for sequences, by mutual induction. |
| `RoundTrip.RoundTripInContext` | src/api/python/erlang.py:368-535 | The round trip holds between any prefix and any suffix. |
| `RoundTrip.BinaryRoundTripOfTerm` | src/api/python/erlang.py:330-351 | For every well-formed t there are bytes exactly when every size in it fits its format, and `binary_to_term(term_to_binary(t))` is then the normal form of t. |
| `Encodability.EncodesExactly` | src/api/python/erlang.py:599-707 | `term_to_binary` has bytes for a term exactly when every size in it fits its format, and raises the exception of a size that does not. |
| `Encodability.IntegerAnswers` | src/api/python/erlang.py:675-707 | The same for integers: the only refusal is of more than 2^32 - 1 digits. |
| `Encodability.EncodeAnswers` | src/api/python/erlang.py:599-633 | The same for every part of a term, with names and reference ids, counts and lengths told apart by their exception. |
| `Functions.FunctionRoundTrip` | src/api/python/erlang.py:455-510 | A fun whose atoms, integers, pid and free terms are in place comes back with its tag and bytes, in each of the three formats. |
| `Functions.FunctionFound` | src/api/python/erlang.py:455-510 | A fun that was read inside the input, and not short, has its parts in place. |
| `RoundTrip.FreeTerms` | src/api/python/erlang.py:500-510 | The free variables of a fun may be any encoded terms. |
| `WireEquality.NormIdempotent` | src/api/python/erlang.py:186-207 | A normal form is its own normal form. |
| `WireEquality.EncodeNorm` | src/api/python/erlang.py:411-434 | Encoding the normal form gives the same bytes, less five for each improper one-element list whose element normalises to the empty list. |
| `WireEquality.EncodeNormSame` | src/api/python/erlang.py:131-134 | The normal form has the same bytes exactly when no such frame is lost. |
| `WireEquality.WireEqualityIsSemantic` | src/api/python/erlang.py:212-215 | Equal bytes have equal normal forms; without lost frames also the converse, and otherwise the lengths differ by five for each lost frame. |
| `WireEquality.NormalFormIsWireFixed` | src/api/python/erlang.py:411-434 | A normal form has no frame left to lose and is never longer on the wire. |
| `WireEquality.LostFrameExample` | src/api/python/erlang.py:431-434 | The improper list of one empty list equals the empty list after a round trip, though their bytes differ. |
| `WireForm.WireEqualityExact` | src/api/python/erlang.py:212-215 | Two well-formed terms have the same bytes exactly when they have the same wire form, the normal form that keeps the frame of an improper list around one empty list. |
| `WireForm.EncodeWire` | src/api/python/erlang.py:186-207 | The wire form of a term has the bytes of the term. |
| `WireForm.FinerExample` | src/api/python/erlang.py:186-207 | Two terms with the same normal form and as many such frames, and different wire forms. |
| `Acceptance.NodesBound` | src/api/python/erlang.py:411-434 | A decoded term has no more nodes than the input bytes it consumed, whatever counts were declared. |
| `Acceptance.SequenceNodes` | src/api/php/Erlang.php:592-605 | The same for the elements of sequences and maps. |
| `Acceptance.DecodedSound` | src/api/python/erlang.py:368-535 | A term that was read inside the input, and not short, is well-formed but for reference ids, which may be empty. |
| `Acceptance.AcceptedIsWellFormed` | src/api/python/erlang.py:330-346 | An accepted term is well-formed exactly when no reference in it has an empty id. |
| `Reencoding.AcceptedReencodes` | src/api/python/erlang.py:330-351 | An accepted term has bytes exactly when no improper list in it has 2^32 elements, which no input below 4 GB holds; these are accepted and give its normal form exactly when no reference in it has an empty id. |
| `Acceptance.NeverBack` | src/api/python/erlang.py:257-274 | Wherever the encoding of a term with an empty id stands, something else than its normal form is read there. |
| `Acceptance.EmptyIdExample` | src/api/python/erlang.py:262-274 | A reference of zero words is accepted, but its re-encoding in the old format is rejected. |
| `Reencoding.DecodedBounded` | src/api/python/erlang.py:368-535 | Every decoded term fits its formats again, but for improper lists, whose tail counts as one element more than was declared. |
| `Formats.VersionFormat` | src/api/python/erlang.py:330-346 | An input is accepted exactly with 131 in front of a term and nothing behind it; shorter inputs, other first bytes and bytes left over have their own exceptions. |
| `Formats.AtomFormats` | src/api/python/erlang.py:571-595 | What 78, 100, 115, 118 and 119 read, by number; invalid UTF-8 in a name is an exception. |
| `Formats.IntegerFormats` | src/api/python/erlang.py:382-454 | What 97, 98, 110 and 111 read: a byte, 32 bits in two's complement, and a sign with digits, least first. |
| `Formats.NodeFormats` | src/api/python/erlang.py:392-410 | What 101, 102, 103 and 114 read, with a node in any atom format. |
| `Formats.PlainFormats` | src/api/python/erlang.py:371-438 | What 106, 107, 109, 77 and 70 read. |
| `Formats.CompoundFormats` | src/api/python/erlang.py:411-434 | What 104, 105, 108 and 116 read; a list is proper exactly when its tail is the empty list. |
| `Formats.FunFormats` | src/api/python/erlang.py:455-510 | What 112, 113 and 117 read. |
| `Formats.NoOtherFormat` | src/api/python/erlang.py:534-535 | No other byte begins a term. |
| `Formats.FormatWritten` | src/api/python/erlang.py:599-707 | The first byte behind 131 that the encoder writes for every term: the smallest format that carries it. |
| `Formats.CutOffFormats` | src/api/python/erlang.py:368-535 | A format that ends in front of or inside its first number is an exception, for every format by number. |
| `Formats.CutOffDigits` | src/api/python/erlang.py:437-454 | So is a bignum with fewer digits than it announces. |
| `Formats.WrongNodes` | src/api/python/erlang.py:571-595 | A node, or the module of an export, that is no atom is an exception of its own. |
| `Formats.WrongParts` | src/api/python/erlang.py:458-569 | So are the pid and the numbers of an old fun, and the arity of an export. |
| `Utf8.ValidExactly` | src/api/python/erlang.py:584-593 | A name is taken for UTF-8 exactly when it is a sequence of Unicode scalar values in the encoding of RFC 3629. |
| `Utf8.TextInjective` | src/api/python/erlang.py:584-593 | It is so for one sequence only. |
| `Splice.SpliceDecodes` | src/api/c/cloudi.cpp:941-949 | A tuple frame whose elements are written in any accepted formats and that ends in raw pid bytes decodes to these elements and that pid. |
| `Splice.SpliceEqualsReencoding` | src/api/c/cloudi.cpp:1105-1113 | The frame with the copied pid decodes as the frame with the pid decoded and encoded again. |
| `Splice.EncodedElements` | src/api/python/erlang.py:537-542 | Elements from this encoder are one such case. |
| `Splice.WideName` | src/api/c/cloudi.cpp:922-923 | A name with two bytes of length, as `ei` writes it, is another. |
| `ReallocPtrs.GrownIsLeast` | src/api/c/realloc_ptr.hpp:139-154 | A growing reserve picks the least doubling above the request: at least twice the old capacity and at most twice the request. |
| `ReallocPtrs.GrownExceedsMaximum` | src/api/c/realloc_ptr.hpp:139-154 | A request within the maximum gets more than the maximum exactly when it asks for the maximum itself. |
| `ReallocPtrs.GrownIsPow2` | src/api/c/realloc_ptr.hpp:145-147 | Doubling keeps the capacity a power of two. |
| `ReallocPtrs.ReserveEnds` | src/api/c/realloc_ptr.hpp:145-147 | The doubling loop finds a size above the request exactly when the request is below half of the range of `size_t`. |
| `ReallocPtrs.GreaterPow2` | src/api/c/realloc_ptr.hpp:158-169 | The result is the least power of two that is not below the number of bytes, 2 for none, and 2^64 - 2^32 from 2^31 bytes on, where the shift of the int overflows. |
| `ReallocPtrs.ReallocPtr.constructor` | src/api/c/realloc_ptr.hpp:59-63 | The invariant holds from the start; a maximum of 2^31, the one that all buffers of the instance ask for, becomes 2^64 - 2^32, which no 32-bit length reaches. |
| `ReallocPtrs.ReallocPtr.Realloc` | src/api/c/realloc_ptr.hpp:148-153 | Reallocation keeps the old contents in front; what all reallocations moved stays below the present capacity. |
| `ReallocPtrs.ReallocPtr.Reserve` | src/api/c/realloc_ptr.hpp:139-154 | It succeeds without change below the capacity, grows up to the maximum if memory is granted, keeps the contents, and otherwise changes nothing. |
| `ReallocPtrs.ReallocPtr.Grow` | src/api/c/realloc_ptr.hpp:126-137 | It doubles if the result is within the maximum, keeping the contents. |
| `ReallocPtrs.ReallocPtr.Copy` | src/api/c/realloc_ptr.hpp:109-116 | The bytes of the source arrive at the destination; the rest of the old contents stays. |
| `ReallocPtrs.ReallocPtr.Move` | src/api/c/realloc_ptr.hpp:118-124 | Overlapping ranges are moved as they were before the call; the rest stays. |
| `Framing.ReadExact` | src/api/c/cloudi.cpp:440-460 | Short reads assemble exactly the next bytes of the stream and take no more than them; when a call fails, what came before it is in place, and an errno is told from a null result. |
| `Framing.ReadAll` | src/api/c/cloudi.cpp:462-480 | With a header one call reads exactly one frame; its status is determined by the stream and the buffer, and is an errno exactly when a call returned one. |
| `Framing.WriteBytes` | src/api/c/cloudi.cpp:518-530 | Short writes send a prefix, and all of it exactly on success; the status is an errno exactly when a call returned one. |
| `Framing.WriteExact` | src/api/c/cloudi.cpp:507-535 | The header goes into the first four bytes and the frame is sent. |
| `Framing.FrameIsExpected` | src/api/c/cloudi.cpp:466-478 | A frame announces its own length, is followed by the next one, and is taken exactly when it fits. |
| `Framing.FramesInjective` | src/api/c/cloudi.cpp:507-535 | A stream is the frames of at most one list of messages. |
| `Framing.SendAll` | src/api/c/cloudi.cpp:507-535 | Successive messages leave exactly their frames, under any short writes. |
| `Framing.ReceiveAll` | src/api/c/cloudi.cpp:462-480 | Successive reads return exactly these messages in order and end at the end of the stream, under any short reads. |
| `Framing.Converse` | src/api/c/cloudi.cpp:440-535 | Messages that fit arrive unchanged, in order and completely, under every fragmentation of both sides. |
| `Lookup.QueueLength` | src/api/c/cloudi.cpp:266-349 | Conservation: the queue holds what was inserted and not successfully removed. |
| `Lookup.TakenInOrder` | src/api/c/cloudi.cpp:318-349 | The entries present are taken first, each once and in order, whatever is inserted meanwhile. |
| `Lookup.BetweenDispatches` | src/api/c/cloudi.cpp:299-307 | Between two dispatches of an entry every other entry present at the first is taken exactly once; the entry itself comes next. |
| `Lookup.RoundRobin` | src/api/c/cloudi.cpp:343-349 | Undisturbed dispatches over n entries return entry t mod n at step t. |
| `Lookup.CallbackFunctionQueue.PushBack` | src/api/c/cloudi.cpp:281-285 | The entry is appended and the count stays the length of the list. |
| `Lookup.CallbackFunctionQueue.PopFront` | src/api/c/cloudi.cpp:287-292 | The front is removed and the count stays the length of the list. |
| `Lookup.CallbackFunctionQueue.Empty` | src/api/c/cloudi.cpp:294-297 | The count says whether the list is empty. |
| `Lookup.CallbackFunctionQueue.Cycle` | src/api/c/cloudi.cpp:299-307 | The front entry is returned and becomes the last one. |
| `Lookup.CallbackFunctionLookup.Insert` | src/api/c/cloudi.cpp:318-330 | The pattern's queue gains the entry at its end; every other pattern is untouched; no stored queue is empty. |
| `Lookup.CallbackFunctionLookup.Remove` | src/api/c/cloudi.cpp:332-341 | The pattern's front entry is removed, and an emptied pattern with it; the result says whether there was one. |
| `Lookup.CallbackFunctionLookup.Find` | src/api/c/cloudi.cpp:343-349 | The front entry is dispatched and rotated; without one the null response. |
| `KeyValueText.TextKeyValueParse` | src/api/go/cloudi/cloudi.go:1292-1306 | Each key is given its values in order of occurrence, and there are no other keys. |
| `KeyValueText.ParseOfPrint` | src/api/go/cloudi/cloudi.go:1292-1306 | Parsing the NUL-terminated print of NUL-free pairs visits exactly these pairs. |
| `KeyValueText.SplitTerminated` | src/api/python/cloudi.py:669-681 | Splitting at NULs gives the segments back and one empty one behind the last NUL. |
| `KeyValueText.SplitJoined` | src/api/go/cloudi/cloudi.go:1292-1306 | Any text is split into segments without NUL that give the text with a NUL between every two of them, also when it does not end with one. |
| `KeyValueText.JoinedSplit` | src/api/go/cloudi/cloudi.go:1292-1306 | No other segments do. |
| `KeyValueText.Scan` | src/api/c/cloudi.cpp:1819-1839 | The loop records exactly the positions that the recursive scan finds, or ends in an exception exactly when one of them, or the null behind them, is outside the array at that moment. |
| `KeyValueText.GrantedScans` | src/api/c/cloudi.cpp:1823-1837 | If memory is always granted, exactly the texts with fewer than 131072 positions are scanned. |
| `KeyValueText.AlwaysScans` | src/api/c/cloudi.cpp:1823-1837 | Exactly the texts with fewer than 128 positions are scanned whatever the allocator answers: a refusal is not looked at. |
| `KeyValueText.ScanIsExact` | src/api/c/cloudi.cpp:1819-1839 | The scan returns the starts of all segments exactly when there is one and none but the last is empty. |
| `KeyValueText.EmptyValueExample` | src/api/c/cloudi.cpp:1827-1836 | An empty value in the middle hides the key behind it. |
| `Timeouts.ChargeTelescopes` | src/api/c/cloudi.cpp:1782-1794 | After any rounds the rest is the first budget less the sum of the charges, not below zero, and it never grows. |
| `Timeouts.TruncatedDrift` | src/api/python/cloudi.py:639-652 | Truncation never charges more than the time that passed, and less than a millisecond a round less. |
| `Timeouts.RoundedDrift` | src/api/c/cloudi.cpp:1782-1786 | Rounding is off by at most half a millisecond a round. |
| `Timeouts.PollBudget` | src/api/python/cloudi.py:639-652 | What is left of a budget after k rounds differs from the true rest by less than k milliseconds. |
| `Timeouts.PollLoop` | src/api/python/cloudi.py:639-652 | The loop ends with the budget of its last round, early only at zero. |
| `Timeouts.ForwardsTelescope` | src/api/c/cloudi.cpp:904-918 | Along any chain of forwards the last handler gets what the whole chain has left of the first timeout. |
| `Timeouts.LateResponse` | src/api/c/cloudi.cpp:1066-1082 | A response at the end of a chain is emptied exactly when the chain took longer than the first timeout and the last handler took any time. |
| `Events.WholeEventsAccepted` | src/api/c/cloudi.cpp:1475-1544 | Whole events are accepted: all are handled in order, the configuration is their fold, and termination is unchanged. |
| `Events.AcceptedIsWholeEvents` | src/api/c/cloudi.cpp:1475-1544 | What is accepted is a non-empty concatenation of whole events. |
| `Events.TrueExactlyOnWholeEvents` | src/api/c/cloudi.cpp:1475-1544 | `handle_events` returns true exactly on non-empty concatenations of whole REINIT and KEEPALIVE events, whatever lies behind the limit. |
| `Events.TermAfterEvents` | src/api/c/cloudi.cpp:1496-1504 | A TERM behind whole events ends the loop with the events applied and the flag set. |
| `Events.FieldsOf` | src/api/c/cloudi.cpp:1505-1519 | The fields of REINIT are read in the order in which they were written. |
| `Events.LastReinitDecides` | src/api/c/cloudi.cpp:1505-1519 | After any events the configuration is that of the last REINIT; the request timeout is cleared if any REINIT asked for adjustment. |
| `ProtocolRequests.SpansOf` | src/api/c/cloudi.cpp:1621-1644 | Sized fields with their padding are found one after the other, with exactly their bytes. |
| `ProtocolRequests.LayoutOf` | src/api/c/cloudi.cpp:1621-1644 | A request is taken apart into exactly its name, pattern, request, timeout, priority, trans_id and pid. |
| `ProtocolRequests.RequestParsed` | src/api/c/cloudi.cpp:1618-1658 | A received request is parsed in the call buffer and its pointers describe it. |
| `ProtocolRequests.RequestDelivered` | src/api/c/cloudi.cpp:1645-1658 | A request in front of whole events reaches a callback with its own bytes, after the events are applied. |
| `ProtocolRequests.TerminatedRequest` | src/api/c/cloudi.cpp:1645-1650 | A request whose message carries TERM gets no callback and no reply, and the service terminates. |
| `ProtocolRequests.RequestRefused` | src/api/c/cloudi.cpp:1645-1650 | A request with events behind it fails an assertion in an internal poll, before its callback. |
| `ProtocolRequests.RequestDropped` | src/api/c/cloudi.cpp:1645-1650 | An external poll ends at a request with anything but whole events behind it, before its callback. |
| `ProtocolRequests.RequestUnique` | src/api/c/cloudi.cpp:1618-1644 | The bytes of a frame are those of at most one request and tail. |
| `FrameDemands.LeadingEvents` | src/api/c/cloudi.cpp:1723-1774 | Every frame is whole events and what the automaton takes to be behind them. |
| `FrameDemands.RequestIsOwed` | src/api/c/cloudi.cpp:1645-1658 | A request between whole events is owed a callback, also behind leading ones; in an internal poll only if nothing follows it. |
| `FrameDemands.TerminatedIsBarred` | src/api/c/cloudi.cpp:1645-1650 | A request with whole events and TERM behind it is owed none, also behind leading events. |
| `FrameDemands.EventsDemandNothing` | src/api/c/cloudi.cpp:1728-1774 | A frame of REINIT and KEEPALIVE alone demands nothing. |
| `FrameDemands.AnswerDemandsNothing` | src/api/c/cloudi.cpp:1594-1722 | A response, INIT or TERM demands no callback, also behind leading events. |
| `ProtocolReplies.CallbackReplies` | src/api/c/cloudi.cpp:1309-1438 | A callback that succeeds adds one reply and nothing else to what the calls of its handler left: of its kind, a forward exactly if the handler forwarded, with no longer timeout than it passed on, and with the bytes the callback was given if no SEND arrived meanwhile. |
| `ProtocolReplies.CallbackRepliesOnce` | src/api/c/cloudi.cpp:1309-1438 | A callback of a request that is owed, without a failed assertion inside, adds as many replies as requests handed out, its own included, and leaves open what was open. |
| `ProtocolReplies.CallbackSucceeds` | src/api/c/cloudi.cpp:1309-1438 | Every handler outcome except an answer of the wrong kind ends in a reply, if no SEND arrives inside and the pid is an encoded term. |
| `ProtocolReplies.CallbackSucceedsExactly` | src/api/c/cloudi.cpp:1331-1438 | A callback succeeds exactly if its pid starts with 131 when the handler ends and the handler does not answer with the wrong kind; otherwise it ends in a failed assertion, behind the wrong answer if there was one. |
| `ProtocolIsolation.CallbackIsolatedExactly` | src/api/c/cloudi.cpp:1618-1644 | The reply of a callback that succeeds names the request it was called for, on every input and with all handlers of a service, exactly when the service is told to terminate, no callback is registered for the request, or no handler waits for a response. |
| `ProtocolIsolation.IsolatedExactly` | src/api/c/cloudi.cpp:1546-1811 | The same for every reply of an external poll, from any point of any run: it names the request that is innermost when it is written. |
| `ProtocolIsolation.NestedSendMisdirects` | src/api/c/cloudi.cpp:1621-1621 | If a request of the same shape arrives while a callback waits for a response, whatever else its handler does, the reply to the first names the sender and trans_id of the second. |
| `ProtocolIsolation.AskingPollMisdirects` | src/api/c/cloudi.cpp:1618-1658 | For every handler that waits there is an input on which a reply of an external poll names the wrong request. |
| `ReplyTimeouts.ReplyCharged` | src/api/c/cloudi.cpp:904-918 | For every callback that succeeds, whatever arrived inside it: the timeout of its reply is what the callback left of the one that the handler passed on if, by what arrived, timeouts are adjusted and the request timeout is that number when the handler ends, and unchanged otherwise; a return is emptied exactly if it was charged and the callback took longer. |
| `ReplyTimeouts.LastInsideDecides` | src/api/c/cloudi.cpp:1323-1328 | The last request or REINIT inside a callback decides whether it is charged: behind a request only a handler that passes on that request's timeout is, behind a REINIT one that passes on 0, and none when the adjustment is off; without either, one that passes on what it was given. |
| `ReplyTimeouts.MuteReplyCharged` | src/api/c/cloudi.cpp:1066-1082 | A handler that does not wait is charged exactly if the service adjusts timeouts and it passes on the one it was given. |
| `ReplyTimeouts.ChainCharged` | src/api/c/cloudi.cpp:904-918 | Along any chain of callbacks that pass on their timeout the last reply carries what all of them together left of the first one, where callbacks that were disturbed or do not adjust take no time. |
| `ReplyTimeouts.LateChain` | src/api/c/cloudi.cpp:1066-1082 | The return at the end of such a chain is emptied exactly when the times charged add up to more than the first timeout and the last of them is not zero. |
| `PollBudgets.BudgetSpent` | src/api/c/cloudi.cpp:1780-1794 | Over any rounds of a poll, with any callbacks inside: it goes on with the rest of its budget while their times add up to less, and returns at the first round with which they do not; a negative budget never ends it. |
| `PollBudgets.PollSpent` | src/api/c/cloudi.cpp:1546-1811 | The same from the start of the poll. |
| `PollBudgets.QuickPollSpent` | src/api/c/cloudi.cpp:1780-1810 | A poll that receives frames of events, and requests whose callbacks answer without waiting, times out at exactly the first frame with which the times reach its budget, after one read for each of these frames. |
| `PollBudgets.EventsRound` | src/api/c/cloudi.cpp:1728-1774 | A frame of whole events is such a round: each is handled once, in order, and nothing else is read or written. |
| `PollBudgets.KeepAlivesAnswered` | src/api/c/cloudi.cpp:1754-1758 | One keepalive is written for each KEEPALIVE, and nothing else for an event. |
| `PollBudgets.RequestRound` | src/api/c/cloudi.cpp:1618-1658 | So is a request between whole events with a handler that does not wait; its reply names it. |
| `PollBudgets.LeadDispatched` | src/api/c/cloudi.cpp:1728-1774 | Events in front of a message are handled in order before the message is looked at. |
| `Subscriptions.Subscribes` | src/api/c/cloudi.cpp:667-693 | The callback becomes the last of the prefix and the name, the other patterns stay, and one message is written. |
| `Subscriptions.Unsubscribes` | src/api/c/cloudi.cpp:731-763 | The first callback of the prefix and the name goes and one message is written, exactly if there is one. |
| `Subscriptions.RegistersAll` | src/api/c/cloudi.cpp:667-763 | After any calls the queue of every pattern is what the calls whose prefix and name make the pattern did to it. |
| `Subscriptions.RequestCalls` | src/api/c/cloudi.cpp:1329-1330 | A request is handed to the front of the queue of its pattern field. |
| `Subscriptions.SubscribedIsCalled` | src/api/c/cloudi.cpp:667-763 | From the wire to the call: after INIT with a prefix and any subscriptions and removals, a request for a pattern gets the callback at the front of what they left under the prefix and the rest, or the null response. |
| `ProtocolStatuses.MessageWords` | src/api/c/cloudi.cpp:1297-1307 | The numbers of the messages on the wire. |
| `ProtocolStatuses.NothingRead` | src/api/c/cloudi.cpp:1571-1584 | Without a message that fits, the poll ends at once with the status of what failed. |
| `ProtocolStatuses.TermArrives` | src/api/c/cloudi.cpp:1723-1727 | TERM behind any events ends the poll, with success for the user and as terminated inside a call. |
| `ProtocolStatuses.UnknownArrives` | src/api/c/cloudi.cpp:1775-1778 | A message of another number is an underflow, and nothing of it is handled. |
| `ProtocolStatuses.CutOffArrives` | src/api/c/cloudi.cpp:1588-1589 | Less than a word is an exception, if no older bytes are behind it. |
| `ProtocolStatuses.BeyondArrives` | src/api/c/cloudi.cpp:1743-1752 | An event that goes on in older bytes is handled, and the poll ends as an underflow. |
| `ProtocolStatuses.EndsInside` | src/api/c/cloudi.cpp:1585-1722 | Where the buffer ends inside a message the poll ends with an exception and no callback; what was stored stays. |
| `ProtocolStatuses.AnswerArrives` | src/api/c/cloudi.cpp:1661-1722 | A response in an external poll is stored, and fails an assertion exactly if anything is behind it. |
| `ProtocolStatuses.TermBehind` | src/api/c/cloudi.cpp:1609-1617 | TERM behind a message that answers a call ends the call as terminated, with the events before it handled. |
| `ProtocolStatuses.AwaitsWithoutEnd` | src/api/c/cloudi.cpp:628-632 | `cloudi_initialize` never ends because of time. |
| `ProtocolStatuses.InitAwaited` | src/api/c/cloudi.cpp:628-632 | However often nothing comes, INIT is waited for, and its prefix is the instance's. |
| `ProtocolStatuses.ThrowEnds` | src/api/c/cloudi.cpp:1331-1360 | What a call of a handler throws ends the handler: nothing behind the call is done. |
| `ProtocolStatuses.RefusalEndsHandler` | src/api/c/cloudi.cpp:1645-1650 | A request with something behind it that arrives while a handler waits ends the handler. |
| `ProtocolParts.EventsEnd` | src/api/c/cloudi.cpp:1485-1540 | Behind whole events `handle_events` ends at the first thing that is none: with an underflow at another message, and with an exception where the buffer ends. |
| `ProtocolParts.EventBeyond` | src/api/c/cloudi.cpp:1533-1540 | An event that goes on behind the limit is applied, and then an underflow. |
| `ProtocolParts.ReinitCutOff` | src/api/c/cloudi.cpp:1505-1519 | A REINIT of which n bytes arrive stores exactly the fields that are whole, for every n. |
| `ProtocolParts.InitCutOff` | src/api/c/cloudi.cpp:1594-1608 | So does INIT. |
| `ProtocolParts.ResponseCutOff` | src/api/c/cloudi.cpp:1661-1685 | So does a response, each size before its pointer; a trans_id that is cut off is not noticed. |
| `ProtocolParts.ResultCutOff` | src/api/c/cloudi.cpp:1686-1722 | The same for the other responses, the count before its pointer. |
| `ProtocolAnswers.InitOf` | src/api/c/cloudi.cpp:1594-1608 | Every field of INIT reaches the field it is meant for. |
| `ProtocolAnswers.InitDelivered` | src/api/c/cloudi.cpp:1594-1617 | INIT ends an internal poll with its fields in place and the events behind it applied. |
| `ProtocolAnswers.InitConfigured` | src/api/c/cloudi.cpp:1594-1617 | The last REINIT behind INIT decides over the configuration; without one INIT does. |
| `ProtocolAnswers.AnswerOf` | src/api/c/cloudi.cpp:1661-1722 | Each response is taken apart into exactly its parts. |
| `ProtocolAnswers.AnswerDelivered` | src/api/c/cloudi.cpp:1661-1722 | A response ends an internal poll with its parts in place, the events behind it applied and nothing else changed. |
| `ProtocolPolls.PollLeads` | src/api/c/cloudi.cpp:1546-1794 | Whatever a poll receives and its callbacks do, to any depth: a trace that the automaton accepted stays accepted, what the last frame demanded is done, the requests open before are open after, termination stays, and the call buffer stays unless a SEND arrives. |
| `ProtocolPolls.RequestLeads` | src/api/c/cloudi.cpp:1618-1658 | A request with whole events behind it, wherever it stands in its frame, is handed to a callback before anything else happens. |
| `ProtocolPolls.BarredLeads` | src/api/c/cloudi.cpp:1645-1650 | A request with TERM or other bytes behind it, or with anything behind it in an internal poll, is not handed out. |
| `ProtocolPolls.FrameLeads` | src/api/c/cloudi.cpp:1585-1778 | Whatever a frame holds, what is left of it behind any number of leading events gets what its bytes demand: one callback, or none. |
| `ProtocolPolls.DispatchLeads` | src/api/c/cloudi.cpp:1585-1778 | The same for the switch over the commands on any bytes, also messages that are cut off and go on in older bytes of the buffer. |
| `ProtocolPolls.CallbackLeads` | src/api/c/cloudi.cpp:1309-1438 | A callback with everything inside it opens one request and closes it. |
| `ProtocolPolls.ActLeads` | src/api/c/cloudi.cpp:765-805 | The same for the calls that a callback makes. |
| `ProtocolRuns.ConcludeCloses` | src/api/c/cloudi.cpp:1334-1438 | However a handler ends, the end of its callback closes its request and no other: by one reply of its kind, with its envelope unless a SEND arrived meanwhile, or by a failed assertion. |
| `ProtocolRuns.BegunOpens` | src/api/c/cloudi.cpp:1323-1330 | A request that is handed out was owed, and is then the innermost open one. |
| `ProtocolRuns.EventsKeepTerminate` | src/api/c/cloudi.cpp:1496-1504 | Events never clear the terminate flag. |
| `ProtocolRuns.AnnouncedKeeps` | src/api/c/cloudi.cpp:1556-1562 | Announcing the first external poll keeps the trace accepted, what is open, and the turns of the callbacks. |
| `ProtocolLifecycle.RunKeeps` | src/api/c/cloudi.cpp:1546-1794 | Over any calls the trace stays accepted and only grows, no request stays open or owed, callbacks are called in turn, termination stays, and the instance is initialised exactly when an external poll came before termination. |
| `ProtocolLifecycle.WholeRun` | src/api/c/cloudi.cpp:560-633 | In every run of a new instance, every request that is owed a callback, also behind leading events of its frame, is handed out before anything else, and every request handed out is closed by one reply of its kind, innermost first, or by a failed assertion. |
| `Monitor.CallsAreDemands` | src/api/c/cloudi.cpp:1645-1658 | An accepted trace has as many callbacks as frames that are owed one, and at most one more for each frame that is cut off inside a message. |
| `Monitor.RepliesAreCalls` | src/api/c/cloudi.cpp:1334-1438 | An accepted trace without a failed assertion has as many replies as callbacks, less those still open. |
| `Monitor.ClosedBy` | src/api/c/cloudi.cpp:1334-1438 | A request that is open at one place of an accepted trace and not at its end is closed at exactly one entry, which answers it. |
| `ProtocolLifecycle.OneReplyEach` | src/api/c/cloudi.cpp:1309-1438 | A run without a failed assertion has as many replies as callbacks, and as many callbacks as requests arrived without TERM; a frame that is cut off inside a message may be read as one more. |
| `ProtocolLifecycle.RequestClosed` | src/api/c/cloudi.cpp:1309-1438 | In every run, each request handed out is closed by a later entry, at which it is the innermost open one: a reply of its kind with its envelope, or a failed assertion. |
| `ProtocolLifecycle.CalledInTurn` | src/api/c/cloudi.cpp:343-349 | In every run each call takes the front of its pattern's queue, and all calls are what the queue dispatches, through all subscriptions, removals and calls. |
| `ProtocolLifecycle.NoneStarves` | src/api/c/cloudi.cpp:299-307 | In every run, when a pattern has been called as often after a call of one registration as there were others, each of these was called exactly once and in order, if none is removed, and the next call is of the first again. |
| `PatternRuns.BetweenCalls` | src/api/c/cloudi.cpp:299-349 | On a trace, with removals too: all others are taken exactly once, called unless removed, and then the same registration is called again. |
| `ProtocolLifecycle.PollingBeforeReading` | src/api/c/cloudi.cpp:1556-1562 | `polling` is written once if an external poll comes before termination and never otherwise, and on the trace it stands before everything that an external poll reads. |
| `ProtocolLifecycle.AfterTermination` | src/api/c/cloudi.cpp:1551-1555 | After termination no call reads: polls leave no trace and other calls only write their own message. |
| `ProtocolLifecycle.SilentAfterTermination` | src/api/c/cloudi.cpp:1551-1555 | The same over any number of calls: nothing is read, and polls alone leave the instance as it is. |
| `ProtocolTermination.SilentExactly` | src/api/c/cloudi.cpp:1781-1810 | A running poll neither reads nor writes after the flag is set, on every input, exactly when no handler of the service waits for a response inside a callback, or none is registered. |
| `ProtocolTermination.MutePollIsSilent` | src/api/c/cloudi.cpp:1546-1811 | A poll whose reachable handlers never wait for a response is silent once the flag is set, whatever arrives, and each of its replies names the request it answers. |
| `ProtocolTermination.AskingPollIsLate` | src/api/c/cloudi.cpp:1781-1810 | For every list of handlers whose first one waits for a response there is an input on which the poll goes on. |
| `ProtocolTermination.TermInsideCallback` | src/api/c/cloudi.cpp:1781-1810 | TERM at a call inside a callback does not end the poll around it: the reply is written and whatever arrives next is read. |
| `Instance.CloudiInstance.constructor` | src/api/c/cloudi.cpp:571-604 | A new instance has an empty trace, no callbacks and the initial configuration, and satisfies the invariant of all runs. |
| `Instance.CloudiInstance.HandleEvent` | src/api/c/cloudi.cpp:1494-1532 | One turn of the event loop does what the specification of an event says. |
| `Instance.CloudiInstance.HandleEvents` | src/api/c/cloudi.cpp:1475-1544 | The loop leaves the fields, the entries of the events and the result that its specification says. |
| `Instance.CloudiInstance.ReadMessage` | src/api/c/cloudi.cpp:1571-1584 | Waiting and reading fill the receive buffer and index, or give the status. |
| `Instance.CloudiInstance.NextRound` | src/api/c/cloudi.cpp:1780-1810 | The budget is charged as `BudgetSpent` says before the next message is read. |
| `Instance.CloudiInstance.HandleCommand` | src/api/c/cloudi.cpp:1588-1778 | One turn of the loop does what the specification of the switch says. |
| `Instance.CloudiInstance.HandleMessage` | src/api/c/cloudi.cpp:1723-1774 | Leading events change the configuration and go on; the rest ends the poll. |
| `Instance.CloudiInstance.StoreInit` | src/api/c/cloudi.cpp:1594-1722 | The fields of INIT are stored one after the other and are those that `InitOf` determines; an exception leaves those stored before it. |
| `Instance.CloudiInstance.StoreResponse` | src/api/c/cloudi.cpp:1661-1685 | Sizes, pointers and the count of a response are stored one after the other, as `AnswerOf` determines them; an exception leaves those stored before it. |
| `Instance.CloudiInstance.StoreReinit` | src/api/c/cloudi.cpp:1505-1519 | The fields of REINIT are stored one after the other and clear the request timeout; an exception leaves those stored before it. |
| `Instance.CloudiInstance.HandleRequest` | src/api/c/cloudi.cpp:1618-1644 | A request is copied to the call buffer and delivered. |
| `Instance.CloudiInstance.DeliverRequest` | src/api/c/cloudi.cpp:1645-1658 | The events come before the callback. |
| `Instance.CloudiInstance.Callback` | src/api/c/cloudi.cpp:1309-1438 | The fields after a callback are those of its specification, with any nested polls inside it. |
| `Instance.CloudiInstance.RunActions` | src/api/c/cloudi.cpp:765-805 | The calls of a callback, each with its own poll, do what their specification says, and so what `RegistersAll` and `ThrowEnds` say. |
| `Instance.CloudiInstance.Conclude` | src/api/c/cloudi.cpp:1334-1438 | The reply is written and the outcome is the one that `ReplyCharged` and `CallbackSucceedsExactly` determine. |
| `Instance.CloudiInstance.PollRequest` | src/api/c/cloudi.cpp:1546-1811 | The loop over messages, re-entrant through callbacks, ends with the state and status of its specification, at the round that `PollSpent` determines. |
| `Instance.CloudiInstance.PollExternal` | src/api/c/cloudi.cpp:1813-1817 | An external poll keeps the invariant of all runs: its trace is accepted, no request stays open or owed, and callbacks are called in turn. |
| `Instance.CloudiInstance.Initialize` | src/api/c/cloudi.cpp:614-633 | Internal polls are repeated while they time out; the invariant of all runs is kept. |
| `Serialiser.RunKeeps` | src/api/javascript/CloudI.js:1025-1056 | In every reachable state the timers equal the waiting requests, nothing has faulted, requests ran in the order of issue, and at most one reply is outstanding. |
| `Serialiser.NthReply` | src/api/javascript/CloudI.js:866-982 | The n-th reply of any run goes to the callback of the n-th replying request. |
| `Serialiser.PollWaitKeeps` | src/api/javascript/CloudI.js:1041-1056 | Issuing a request keeps the invariant, also inside a callback. |
| `Serialiser.FireKeeps` | src/api/javascript/CloudI.js:1025-1039 | A retry timer keeps the invariant; it never finds the queue empty. |
| `Serialiser.DeliverKeeps` | src/api/javascript/CloudI.js:869-871 | A reply with nested calls in its callback keeps the invariant. |
| `Serialiser.TerminationIsFinal` | src/api/javascript/CloudI.js:1027-1029 | After termination nothing is issued, run or delivered. |
| `Serialiser.UsefulStep` | src/api/javascript/CloudI.js:1025-1056 | No wakeup is lost: while a request waits or a reply is due, a step is enabled that brings the end nearer. |
| `Serialiser.DrainCompletes` | src/api/javascript/CloudI.js:1025-1056 | From every reachable state timers and replies alone lead to every request that was issued run and answered; `EverythingIssued` says that these are all. |
| `SerialiserIssues.SubmitGains` | src/api/javascript/CloudI.js:1041-1056 | A request that does not throw is issued with everything that is issued because of it, each exactly once, or waits to be. |
| `SerialiserIssues.SubmitOrdered` | src/api/javascript/CloudI.js:304-323 | Each immediate request that runs is followed by what its callback issues, in its order. |
| `SerialiserIssues.RunConserves` | src/api/javascript/CloudI.js:1025-1056 | In every state of every run without exceptions and termination, what was issued and what waits to be is what was asked for: init, the calls and everything inside them. |
| `SerialiserIssues.EverythingIssued` | src/api/javascript/CloudI.js:1025-1056 | When such a run is drained, the requests issued and run are exactly those asked for, each as often. |
| `SerialiserIssues.IssuedInOrder` | src/api/javascript/CloudI.js:304-348 | In every such run every callback that was called, at once or by a reply, issued its requests in their order behind its own request. |
| `SerialiserIssues.SubmitThrows` | src/api/javascript/CloudI.js:1041-1056 | Nothing is issued or run behind an exception. |
| `Serialiser.Misdirected` | src/api/javascript/CloudI.js:1025-1039 | Two forwards that wait, from different domains: the first timer is armed again behind the second, which runs the first request, so its exception reaches the other domain. |
| `Serialiser.HomeExactly` | src/api/javascript/CloudI.js:1025-1039 | Exceptions that leave a timer reach the domain of their caller in every run over some domains exactly when these are no more than one. |
| `Serialiser.Api.constructor` | src/api/javascript/CloudI.js:234-239 | A new object waits for the reply to `init` and satisfies the invariant. |
| `Serialiser.Api.PollWait` | src/api/javascript/CloudI.js:1041-1056 | The invariant is kept; the request waits behind the others with a timer of its own while the slot is taken or another one waits, runs at once otherwise with all that its callback issues, as `SubmitGains` and `SubmitOrdered` determine, and nothing happens after termination. |
| `Serialiser.Api.PollWaitRetry` | src/api/javascript/CloudI.js:1025-1039 | The invariant is kept, so `shift` never meets an empty queue; the oldest waiting request runs when the slot is free, and the timer is armed again when it is taken. |
| `Serialiser.Api.PollRequest` | src/api/javascript/CloudI.js:866-982 | The reply reaches the callback of the request it answers, all that the callback issues is queued in order, and the slot is empty afterwards. |

## Left out

- Compressed terms (tag 80) and the decimal float format (tag 99) are invalid tags here: zlib and float text are foreign calls. NEW_FLOAT_EXT is eight opaque bytes.
- Python strings of type unicode as terms, and `consult`.
- Python dictionaries: their keys collide by the host language's equality. Maps are ordered pairs as in PHP; a flat sequence of odd length stands for no map and is refused by the encoder.
- Where Python raises a TypeError or IndexError on a missing byte the model has one error, MissingData.
- Unicode names are kept as their UTF-8 bytes; which bytes are accepted is stated by `Utf8.ValidExactly`.
- Sockets, `poll`, `select` and errno values: statuses PollErrno, ReadErrno and the like stand for them, and the environment may produce any of them.
- The datagram form of `read_all` without a header, which concatenates until a short read.
- The `ei_*` encoders: elements in front of a spliced pid are any bytes that decode; outgoing messages of the instance are values, not bytes.
- `realloc_ptr::release`, and a `size_t` of 32 bits: words of 64 bits are modelled.
- ReallocPtrs.ReallocPtr.constructor: an initial size below 2^31 bytes; a larger one asks for more memory than any machine has and leaves a null pointer, and no caller passes one.
- ReallocPtrs.GreaterPow2: sizes below 2^32 bytes; beyond that the shift count is outside the `int`, which C++ leaves undefined.
- ReallocPtrs.ReallocPtr.Reserve: requests below 2^63 bytes, since the loop does not end for others, as ReserveEnds shows; Copy and Move likewise. No caller asks for more than 2^33.
- Framing.SendAll: system calls of the two conversation methods do not fail; ReadExact, ReadAll and WriteExact state what they do when one fails.
- Writes fail nowhere in `Protocol`: `polling`, `keepalive` and replies are always written, so the status that `poll_request` returns after a failed keepalive is not modelled.
- An index behind the allocation of a buffer is an exception; a word that starts inside the allocation and ends outside it counts as one too.
- A field whose declared size reaches behind the buffer is cut at its end; what C finds behind the allocation is not modelled.
- The pointers of a request or response are offsets: that growing a buffer leaves earlier pointers dangling is not modelled.
- A handler that answers passes on the identifiers it was given, with the timeout it was given or one of its own; the name that a forward goes to is not modelled. It may answer, forward, finish or throw; a failed return that falls through is a handler that finishes.
- A refusal of memory for the copy of a request to the call buffer, whose result the source does not look at: the copy always succeeds. A refusal for the receive buffer is an input.
- What a handler does is a list of calls and an ending, taken from the state in the order in which callbacks run; which callback is called for a pattern is the lookup's choice.
- Handlers of the JavaScript object that catch the exception of a forward or return, callbacks that raise exceptions of their own, and the reassembly of chunks in its data event.
- INIT in Python and PHP, which exchange the async and the sync timeout, and the receive loop in Go, which waits for bytes it has already counted: the model follows C++.
- The key/value parse of Python keeps a single value bare and makes a list only of repeated ones; the model has the lists of Go.
- The environment of a process, logging, backtraces and the operating system helpers.
