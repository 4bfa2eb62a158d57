# What this project verifies

The server part of OpenAPT is start-up code around the libraries it carries in `libs/`. This project models
the algorithms of those libraries and proves what they promise: JSON diff, patch, merge patch and destruction
(`libs/nlohmann`), the HTTP machinery (`libs/cpp_httplib`), SHA-1 and WebSockets (`libs/oatpp-websocket`) and
the OpenAPI generator (`libs/oatpp-swagger`). `dafny verify dfyconfig.toml` checks all of it.

Objects whose methods change fields are classes, loops are loops, and each such method is proved to compute a
function of its inputs and the old state; the theorems are lemmas about those functions. Threads and
coroutines are state machines whose steps interleave in every order.

| files | what they model |
|---|---|
| `JsonValue`, `JsonPointer`, `JsonPatch`, `JsonPatchDocument`, `JsonDiff` | values and the library's `==`, pointers, the six patch operations, `patch_inplace` on a document, `diff` |
| `JsonMergePatch`, `JsonDestroy` | `merge_patch` and the flattening destructor |
| `MultipartHeader`, `MultipartParser`, `MultipartRoundTrip`, `MultipartText`, `MultipartExactly` | the resumable multipart parser over its compacting buffer, the serializer, and exactly when one undoes the other |
| `Chunked`, `ChunkedRoundTrip`, `ChunkedStream`, `ChunkedWriter` | chunked transfer: the line reader with its two buffers, the reader, the data sink and the provider loop |
| `ThreadPool`, `ClientSocket` | the job queue on a condition variable; who may touch a client's socket |
| `ClientRedirect` | the recursion of `send`, redirects and digest authentication, for every server |
| `UrlCoding`, `QueryString`, `Base64` | percent coding, query strings, base64 |
| `Sha1Standard`, `Sha1` | FIPS 180-4, and the unrolled in-place implementation |
| `SchemaGenerator` | the closure over a cyclic type graph and the document built from it |
| `WebSocketFrame`, `WebSocketReader`, `WebSocketRoundTrip`, `WebSocketFragments`, `WebSocket` | frames, the blocking socket, what a listener is told |
| `AsyncWebSocket`, `AsyncWebSocketClosed`, `AsyncWebSocketCut` | the coroutines as a step machine, against the blocking socket, and exactly when they differ |
| `StringOrder`, `Wrappers` | byte-wise key order, options |

## Where the code departs from its promises

The model follows the code in each case; the lemmas named prove the conditions stated.

- Patch `remove` below a string, number, boolean, binary value or null throws nothing and does nothing, where
  section 4.2 of RFC 6902 wants an error: exactly then it does not conform (`RemoveConformsExactly`).
- Patch `add` below null turns the null into an object, where section 4.1 wants an error: exactly then it does
  not conform (`AddConformsExactly`). An `add`, `copy` or `move` reaches `JSON_ASSERT(false)` exactly when its
  value is to go below another primitive value (`JsonPatchDocument.AssertsExactly`).
- A patch operation that throws leaves the document alone, except exactly a `move` that has already removed
  its value (`ThrowsHalfwayExactly`).
- The multipart parser erases a first piece that is shorter than the opening boundary line
  (`ShortFirstPieceIsLost`). The items come back exactly when the first piece that is not empty holds that
  line, whatever the contents: `RoundTripExactly`.
- The sender of a chunked message reports success also when nothing has finished it: when a call of the
  content provider ends with an empty write, or the server shuts down. The receiver accepts the message exactly
  when one of the calls made has finished it (`SendAndReceive`); for a provider that finishes at last, exactly
  when none of its calls ends with an empty write (`Transfer`).
- A final continuation frame does not clear `m_lastOpcode`, so a legal message after a fragmented one is
  refused: `listen` takes exactly the legal sequences in which no text or binary frame follows a fragmented
  message (`FragmentsExactly`, `ListenFragmentsExactly`).
- When the peer goes away while a frame header is read, the blocking socket stops, but the coroutines go on
  with memory that was never written. Both end alike, whatever it holds, exactly when the opcode had arrived
  and either is not admitted, or leaves `m_lastOpcode` alone and the frame is certain to wait for a payload
  (`AsyncWebSocketCut.AgreesExactly`); after a single byte, exactly when its opcode is not admitted
  (`OneByteExactly`); between two frames never (`ClosedExactly`).
- A `stop` holds exactly until the next `send_` registers, be it the nested one of a redirect
  (`StopHoldsExactly`); one that connects again erases it (`StopForgotten`). Without one the socket is closed
  when the request is over (`StopCloses`).
- The assertion in `ClientImpl::send` fails for a caller who passes in the error code for internal use over an
  open connection, with a request that has a body, and for no other caller, whatever the servers do
  (`ClientRedirect.AssertsExactly`).

## Model

| member | source | states |
|---|---|---|
| `JsonPointer.UnescapeEscape` | libs/nlohmann/detail/string_escape.hpp:31-69 | unescaping inverts escaping for every token, `~` and `/` and their escapes included |
| `JsonPointer.ParseToString` | libs/nlohmann/detail/json_pointer.hpp:666-725 | parsing a printed pointer gives back its tokens, whatever characters they hold |
| `JsonPointer.IndexOfDecimal` | libs/nlohmann/detail/json_pointer.hpp:214-247 | the decimal form of a number is read as that array index |
| `JsonPointer.AtConcat` | libs/nlohmann/detail/json_pointer.hpp:529-575 | looking up `p + q` is looking up `q` in what `p` refers to, errors included |
| `JsonPointer.AtPut` | libs/nlohmann/detail/json_pointer.hpp:422-468 | what was assigned through `at(p)` is found at `p` |
| `JsonPointer.PutAt` | libs/nlohmann/detail/json_pointer.hpp:422-468 | putting back what is there changes nothing |
| `JsonValue.LibEqReflexive` | libs/nlohmann/json.hpp:3585-3654 | every value without NaN equals itself under the mixed-kind comparison |
| `JsonPatch.RunConcat` | libs/nlohmann/json.hpp:4848-4974 | a patch of two parts runs the second on what the first left, unless the first throws |
| `JsonPatch.Locality` | libs/nlohmann/json.hpp:4745-4974 | operations addressed from a location do to the document what they do to the value there in isolation, errors included |
| `JsonPatch.ArrayIndexInjective` | libs/nlohmann/detail/json_pointer.hpp:214-247 | no two tokens name the same array element |
| `JsonPatch.PutFrame` | libs/nlohmann/detail/json_pointer.hpp:422-468 | an assignment at `p` is invisible at every location that diverges from `p` |
| `JsonPatch.PatchFrame` | libs/nlohmann/json.hpp:4745-4974 | a patch below `p` leaves every location that diverges from `p` unchanged, also when it fails halfway |
| `JsonPatchDocument.DecodeEncode` | libs/nlohmann/json.hpp:4850-4974 | every operation written as a JSON object is read back as itself |
| `JsonPatchDocument.RunEncoded` | libs/nlohmann/json.hpp:4848-4974 | executing the JSON form of a list of operations is executing the list |
| `JsonPatchDocument.Document.OperationAdd` | libs/nlohmann/json.hpp:4745-4810 | the in-place wrapper leaves the document and the error that adding at that location has |
| `JsonPatchDocument.Document.OperationRemove` | libs/nlohmann/json.hpp:4813-4839 | the in-place wrapper leaves the document and the error that removing at that location has |
| `JsonPatchDocument.Document.Execute` | libs/nlohmann/json.hpp:4890-4973 | each of the six operations, with the document as it is after a failure |
| `JsonPatchDocument.Document.PatchInplace` | libs/nlohmann/json.hpp:4708-4975 | the loop over any JSON value as a patch: result, first error, and the document with the operations before it applied |
| `JsonPatchDocument.RemoveConformsExactly` | libs/nlohmann/json.hpp:4813-4839 | `remove` of a missing target fails, as RFC 6902 asks, exactly unless the parent exists and is neither array nor object; and then nothing changes |
| `JsonPatchDocument.RemoveBelowNumber` | libs/nlohmann/json.hpp:4813-4839 | a document and a path for which it does not |
| `JsonPatchDocument.AddConformsExactly` | libs/nlohmann/json.hpp:4745-4810 | an `add` that succeeds has its target at the root or in an object or array, as RFC 6902 asks, exactly unless the parent is null; then the null becomes an object |
| `JsonPatchDocument.AddBelowNull` | libs/nlohmann/json.hpp:4767-4773 | a document and a path for which it does not |
| `JsonPatchDocument.AssertsExactly` | libs/nlohmann/json.hpp:4799-4808 | of all operations exactly those that add below a primitive other than null reach the failing assertion, a `move` after its removal |
| `JsonPatchDocument.AddBelowNumber` | libs/nlohmann/json.hpp:4799-4808 | a document and an `add` that reaches it |
| `JsonPatchDocument.ThrowsHalfwayExactly` | libs/nlohmann/json.hpp:4890-4973 | an operation that throws has changed the document exactly if it is a `move` whose value was there to be removed |
| `JsonPatchDocument.MoveHalfway` | libs/nlohmann/json.hpp:4911-4926 | a `move` that throws and has removed its value |
| `JsonDiff.DiffInner` | libs/nlohmann/json.hpp:5004-5116 | every operation of a diff is an add, remove or replace strictly inside, or a replace at the root, of the values compared |
| `JsonDiff.DiffArrives` | libs/nlohmann/json.hpp:4989-5119 | the operations run on the source without error and end at the target, for all pairs of values |
| `JsonDiff.EmptyExactly` | libs/nlohmann/json.hpp:4995-5001 | the diff is empty exactly when the values are equal |
| `JsonDiff.Diff` | libs/nlohmann/json.hpp:4989-5119 | the recursion that builds the patch emits the JSON form of those operations, each path under the prefix given |
| `JsonDiff.DiffArrays` | libs/nlohmann/json.hpp:5016-5061 | the three loops over arrays: common elements, removals from the end, appends through `-` |
| `JsonDiff.DiffObjects` | libs/nlohmann/json.hpp:5063-5101 | the two loops over members, with escaped keys |
| `JsonDiff.DiffPatchRoundTrip` | libs/nlohmann/json.hpp:4708-5119 | `source.patch(diff(source, target))` throws nothing and equals the target |
| `JsonDiff.ApplyDiff` | libs/nlohmann/json.hpp:4708-5119 | the same of the two methods as a caller uses them; a document that already equals the target is not touched |
| `JsonMergePatch.MergePatch` | libs/nlohmann/json.hpp:5131-5155 | the in-place loop over members computes the function of section 2 of RFC 7396 |
| `JsonMergePatch.MergeIdempotent` | libs/nlohmann/json.hpp:5131-5155 | patching again changes nothing, for every target and patch |
| `JsonMergePatch.MergeKeepsUnnamed` | libs/nlohmann/json.hpp:5131-5155 | what the patch does not name is unchanged at every depth |
| `JsonMergePatch.MergeSetsNamed` | libs/nlohmann/json.hpp:5131-5155 | every leaf of the patch arrives: null removes, anything else is set |
| `JsonDestroy.Destroy` | libs/nlohmann/json.hpp:556-615 | the loop ends, lets go of every descendant exactly once, and of each only after it has lost its children |
| `JsonDestroy.StepOnce` | libs/nlohmann/json.hpp:586-610 | one round releases a place that neither was released nor lies in a subtree still on the stack |
| `JsonDestroy.StepComplete` | libs/nlohmann/json.hpp:586-610 | one round loses no descendant: each is released or waits in a subtree |
| `MultipartHeader.ParseDispositionLine` | libs/cpp_httplib/httplib.h:4086-4098 | the disposition line the serializer writes is matched with its name and file name |
| `MultipartHeader.ParseContentTypeLine` | libs/cpp_httplib/httplib.h:4086-4090 | the content type the serializer writes is read back |
| `MultipartParser.MultipartFormDataParser.BufFind` | libs/cpp_httplib/httplib.h:4198-4219 | the scan for a first character and a match finds the first occurrence in the unread bytes, or their number |
| `MultipartParser.MultipartFormDataParser.BufAppend` | libs/cpp_httplib/httplib.h:4221-4237 | moving the unread bytes to the front and appending refines appending to a plain sequence |
| `MultipartParser.MultipartFormDataParser.BufErase` | libs/cpp_httplib/httplib.h:4239-4239 | dropping bytes from the front of the unread bytes |
| `MultipartParser.MultipartFormDataParser.Parse` | libs/cpp_httplib/httplib.h:4045-4149 | one call of `parse` on the buffer is a run of the five-state machine on the unread bytes: state, file info, callbacks, validity and result |
| `MultipartRoundTrip.SerializeLoop` | libs/cpp_httplib/httplib.h:4291-4333 | the serializer's loop writes the items in the form the parser's proof reads |
| `MultipartRoundTrip.FindInPrefix` | libs/cpp_httplib/httplib.h:4198-4219 | in any prefix of the text the search finds the true delimiter or says that it has not arrived |
| `MultipartRoundTrip.StepAdvances` | libs/cpp_httplib/httplib.h:4055-4146 | wherever the bytes are cut, a turn of the loop goes on in the right place or waits for bytes that are missing |
| `MultipartRoundTrip.FeedAdvances` | libs/cpp_httplib/httplib.h:4045-4149 | any further pieces keep the parser on the way to the items |
| `MultipartRoundTrip.RoundTrip` | libs/cpp_httplib/httplib.h:4045-4333 | any pieces of the serialized items, if the first that is not empty holds the opening line, are accepted, end valid and yield exactly the items |
| `MultipartRoundTrip.LineLimitExactly` | libs/cpp_httplib/httplib.h:4071-4072 | the length check lets a header line through at every cut of its bytes exactly when it is shorter than the limit |
| `MultipartRoundTrip.ParsePieces` | libs/cpp_httplib/httplib.h:4045-4149 | the object's methods, fed piece by piece, do what the machine does |
| `MultipartRoundTrip.ShortFirstPieceIsLost` | libs/cpp_httplib/httplib.h:4057-4064 | a shorter first piece is as if it had never come |
| `MultipartText.FirstDelimiter` | libs/cpp_httplib/httplib.h:4105-4127 | from a place behind a content's start, the first delimiter closes another text or begins so late that the next entry starts inside the next content |
| `MultipartText.LaterOpening` | libs/cpp_httplib/httplib.h:4057-4064 | an opening line found later ends behind the first header or with the content type in it |
| `MultipartText.NeverClosed` | libs/cpp_httplib/httplib.h:4105-4127 | a last item that is never closed has not got the last content |
| `MultipartExactly.StepBad` | libs/cpp_httplib/httplib.h:4055-4146 | from a place behind the right one no turn of the loop leads back to where the items could be read |
| `MultipartExactly.RoundTripExactly` | libs/cpp_httplib/httplib.h:4045-4333 | for any pieces of the serialized items: all accepted, valid and exactly the items, if and only if the first piece that is not empty holds the opening line |
| `MultipartExactly.ParseExactly` | libs/cpp_httplib/httplib.h:4045-4333 | the same of the serializer's loop and the parser object |
| `ThreadPool.StepInv` | libs/cpp_httplib/httplib.h:589-660 | every step of every thread keeps order, accounting and pending wake-ups |
| `ThreadPool.FifoAlways` | libs/cpp_httplib/httplib.h:601-649 | in every run jobs start in the order they were enqueued |
| `ThreadPool.NeverTwice` | libs/cpp_httplib/httplib.h:629-649 | each job is waiting, running in one worker, or done once |
| `ThreadPool.NeverStuck` | libs/cpp_httplib/httplib.h:601-649 | no wake-up is lost: with jobs waiting or the flag set, some worker or notifier can move unless all workers have left |
| `ThreadPool.ShutdownDrains` | libs/cpp_httplib/httplib.h:610-649 | once all workers have left, every job enqueued before the shutdown has run |
| `ThreadPool.JoinedMeansExited` | libs/cpp_httplib/httplib.h:610-623 | `shutdown` returns only after all workers have left |
| `ThreadPool.ClosingTerminates` | libs/cpp_httplib/httplib.h:610-649 | without further jobs every step uses up work, so closing ends |
| `ClientSocket.StepKeeps` | libs/cpp_httplib/httplib.h:6316-6481 | registration, nested requests, closing, leaving and `stop` of any thread keep the ownership, and no assertion fails in them |
| `ClientSocket.OwnershipAlways` | libs/cpp_httplib/httplib.h:6316-6481 | in every interleaving the in-flight count is the number of registered `send_` calls, all of the thread with the request mutex, and no assertion has failed |
| `ClientSocket.OthersLeaveSocket` | libs/cpp_httplib/httplib.h:7487-7508 | while a request is in flight no other thread closes or replaces its socket |
| `ClientSocket.StopHoldsExactly` | libs/cpp_httplib/httplib.h:6393-6470 | from a `stop` on, the socket stays closed or marked to be closed exactly as long as no `send_` registers; one that cannot connect does no harm |
| `ClientSocket.StopCloses` | libs/cpp_httplib/httplib.h:6455-6470 | so after `stop` the socket is closed once nothing is in flight, if no `send_` has registered since |
| `ClientSocket.StopForgotten` | libs/cpp_httplib/httplib.h:6393-6444 | a nested request that connects again leads to the state it would have led to without the `stop` |
| `ClientRedirect.Send` | libs/cpp_httplib/httplib.h:6384-6392 | for every server the recursion ends, is nested at most once more than the budget of redirects and authorizations, and never leaves a larger budget behind |
| `ClientRedirect.SendOnce` | libs/cpp_httplib/httplib.h:6394-6481 | one exchange and what it leads to stay within the budget of the request |
| `ClientRedirect.HandleRequest` | libs/cpp_httplib/httplib.h:6495-6553 | a redirect followed by authentication of its outcome stays within the budget |
| `ClientRedirect.Redirect` | libs/cpp_httplib/httplib.h:3915-3939 | overwriting the request after a success leaves a strictly smaller budget |
| `ClientRedirect.Authorize` | libs/cpp_httplib/httplib.h:6524-6550 | the request itself stays, and the nested one is within its budget |
| `ClientRedirect.SendEnds` | libs/cpp_httplib/httplib.h:6384-6611 | at most so many exchanges happen, second tries included |
| `ClientRedirect.AssertsExactly` | libs/cpp_httplib/httplib.h:6384-6392 | the assertion after a first try holds for all servers exactly unless the caller passes in the internal error code over an open socket, for a request with a path and a body |
| `ClientRedirect.EndlessRedirects` | libs/cpp_httplib/httplib.h:6556-6611 | a server that redirects for ever gets one request more than the redirects allowed, and the error says why |
| `Chunked.SizeBack` | libs/cpp_httplib/httplib.h:2026-2034 | the size line is read as the size by `strtoul`, up to the largest `unsigned long` |
| `ChunkedRoundTrip.ChunkBack` | libs/cpp_httplib/httplib.h:3574-3595 | one chunk is read as its data, whatever follows |
| `ChunkedRoundTrip.RoundTrip` | libs/cpp_httplib/httplib.h:3564-3904 | any writes and a final `done` arrive as their concatenation, with the trailers, and nothing after them is read |
| `ChunkedRoundTrip.Unfinished` | libs/cpp_httplib/httplib.h:3564-3617 | without `done` the reader delivers all data and fails |
| `ChunkedRoundTrip.ReadsEmitted` | libs/cpp_httplib/httplib.h:3564-3882 | of any calls of the sink the first that finishes makes the receiver accept what was written before it; without one it fails on all the data |
| `ChunkedRoundTrip.PlainExactly` | libs/cpp_httplib/httplib.h:3440-3471 | a trailer comes back unchanged exactly when its key has no colon and its value is not empty, trimmed and, unless it is `Location`, stable under percent decoding |
| `ChunkedRoundTrip.DeliveredExactly` | libs/cpp_httplib/httplib.h:3597-3614 | the list of trailers comes back unchanged exactly when each of them does |
| `ChunkedStream.StreamLineReader.Append` | libs/cpp_httplib/httplib.h:2345-2356 | a character is added to the line, also when the line moves from the fixed buffer to the growable one |
| `ChunkedStream.StreamLineReader.GetLine` | libs/cpp_httplib/httplib.h:2318-2343 | one line of any length, one byte at a time, and the two ways a stream ends |
| `ChunkedStream.ReadContentWithLength` | libs/cpp_httplib/httplib.h:3512-3532 | everything is delivered however the reads are cut, or what there was |
| `ChunkedStream.ReadTrailerPart` | libs/cpp_httplib/httplib.h:3597-3614 | the trailer loop delivers the trailers of the stream, with the length limit |
| `ChunkedStream.ReadContentChunked` | libs/cpp_httplib/httplib.h:3564-3617 | the loop with its 16-byte line buffer reads what the stream says: body, trailers, failure and the rest |
| `ChunkedWriter.DataSink.Write` | libs/cpp_httplib/httplib.h:3809-3835 | one chunk goes out, or nothing for an empty write, which ends the data; a full stream takes only what fits |
| `ChunkedWriter.DataSink.DoneWithTrailer` | libs/cpp_httplib/httplib.h:3837-3882 | the last chunk, the trailers and the end go out, also after a failed write |
| `ChunkedWriter.WriteContentChunked` | libs/cpp_httplib/httplib.h:3803-3904 | what has been sent is a prefix of what the provider's calls emit; on success all of it, and the calls went on while data was available |
| `ChunkedWriter.SendAndReceive` | libs/cpp_httplib/httplib.h:3564-3904 | for every provider and a shutdown at any time: when the sender reports success, the receiver accepts exactly if a call made has finished the message, with the writes before the first such call as the body |
| `ChunkedWriter.Transfer` | libs/cpp_httplib/httplib.h:3564-3904 | for a provider that writes and then finishes, the body and the trailers arrive exactly when no call ends with an empty write |
| `UrlCoding.FromHexToI` | libs/cpp_httplib/httplib.h:2009-2024 | the number that the digits stand for, or failure |
| `UrlCoding.EncodeQueryParam` | libs/cpp_httplib/httplib.h:2149-2168 | byte by byte, unreserved bytes as they are |
| `UrlCoding.DecodeUrl` | libs/cpp_httplib/httplib.h:2202-2237 | escape by escape, with malformed escapes kept |
| `UrlCoding.DecodeEncoded` | libs/cpp_httplib/httplib.h:2149-2237 | decoding inverts coding on all byte strings, with and without plus signs as spaces |
| `UrlCoding.EncodedChars` | libs/cpp_httplib/httplib.h:2149-2168 | a coded value holds unreserved characters and percent signs only |
| `QueryString.Trim` | libs/cpp_httplib/httplib.h:2257-2266 | moving both ends inwards, one of them past the piece, still finds the trimmed piece or says it is empty |
| `QueryString.Split` | libs/cpp_httplib/httplib.h:2273-2291 | the pieces between separators, trimmed, without those that are blank |
| `QueryString.FieldsApart` | libs/cpp_httplib/httplib.h:2273-2291 | splitting at a separator splits both sides on their own |
| `QueryString.ParamsToQueryStr` | libs/cpp_httplib/httplib.h:3941-3950 | the parameters in order, joined by `&` |
| `QueryString.ParseQueryText` | libs/cpp_httplib/httplib.h:3952-3974 | pieces already seen are skipped, pairs are split and decoded and put into the multimap |
| `QueryString.UnreservedKey` | libs/cpp_httplib/httplib.h:2149-2156 | keys of unreserved characters are among those the round trip is proved for |
| `QueryString.PrintThenParse` | libs/cpp_httplib/httplib.h:3941-3974 | what was printed is parsed back, less repeated pairs, for any byte values |
| `QueryString.DistinctExactly` | libs/cpp_httplib/httplib.h:3952-3960 | so a multimap comes back exactly when it holds no pair twice |
| `QueryString.PrintParse` | libs/cpp_httplib/httplib.h:3941-3974 | the same of the two functions called one after the other |
| `Base64.ShiftedBits` | libs/cpp_httplib/httplib.h:2081-2089 | of the wrapping 32-bit accumulator only the last byte matters |
| `Base64.Base64Encode` | libs/cpp_httplib/httplib.h:2070-2096 | the encoding of section 4 of RFC 4648, with padding, four characters for every three bytes begun |
| `Base64.DecodeEncoded` | libs/cpp_httplib/httplib.h:2070-2096 | a decoder written from the standard gives the input back |
| `Sha1.HoldsNext` | libs/oatpp-websocket/SHA1.cpp:53-60 | overwriting one slot keeps the latest schedule word of every residue in its slot |
| `Sha1.Transform` | libs/oatpp-websocket/SHA1.cpp:105-204 | the unrolled rounds with rotating roles add the standard's 80 steps to the digest |
| `Sha1.BufferToBlock` | libs/oatpp-websocket/SHA1.cpp:207-226 | a full buffer as sixteen words, most significant byte first |
| `Sha1.SHA1.Update` | libs/oatpp-websocket/SHA1.cpp:234-256 | afterwards the object holds what is left of hashing the message so far plus the new bytes |
| `Sha1.SHA1.FinalBinary` | libs/oatpp-websocket/SHA1.cpp:284-322 | the standard's digest of all that was hashed, and the object is as new |
| `Sha1.PadOneBlock` | libs/oatpp-websocket/SHA1.cpp:288-313 | a tail of up to 55 bytes is padded in one block as in section 5.1.1 of FIPS 180-4 |
| `Sha1.PadTwoBlocks` | libs/oatpp-websocket/SHA1.cpp:288-313 | a longer tail is padded in two |
| `Sha1.LengthFieldExact` | libs/oatpp-websocket/SHA1.cpp:286-286 | below 2^61 bytes the length field is the true number of bits |
| `Sha1.HashParts` | libs/oatpp-websocket/SHA1.cpp:234-322 | any sequence of updates gives the digest of the concatenation |
| `SchemaGenerator.DecomposeType` | libs/oatpp-swagger/Generator.cpp:546-562 | on a cyclic graph the recursion ends; the mentioned types are listed, and what was added has its successors listed |
| `SchemaGenerator.DecomposeTypes` | libs/oatpp-swagger/Generator.cpp:564-577 | exactly the types reachable from the used ones are listed |
| `SchemaGenerator.ReachIsLeast` | libs/oatpp-swagger/Generator.cpp:500-577 | reachability is the least closed set above the roots |
| `SchemaGenerator.GenerateSchemaForType` | libs/oatpp-swagger/Generator.cpp:198-247 | the schema, and every type it links to is recorded as used |
| `SchemaGenerator.ComponentRefs` | libs/oatpp-swagger/Generator.cpp:105-142 | the component of a type refers only to types one property away |
| `SchemaGenerator.GeneratePaths` | libs/oatpp-swagger/Generator.cpp:473-498 | the path table of the visible endpoints, and the types it uses |
| `SchemaGenerator.GenerateComponents` | libs/oatpp-swagger/Generator.cpp:579-604 | one component for every listed type |
| `SchemaGenerator.GenerateDocument` | libs/oatpp-swagger/Generator.cpp:675-697 | every reference of the document, in operations and in components, is the key of a component; the components are exactly the reachable types |
| `WebSocketFrame.PackHeaderBits` | libs/oatpp-websocket/Frame.cpp:29-53 | the two header bytes of section 5.2 of RFC 6455 and the length form |
| `WebSocketFrame.UnpackPacked` | libs/oatpp-websocket/Frame.cpp:29-63 | every header field comes back |
| `WebSocketFrame.NumberBack` | libs/oatpp-websocket/WebSocket.cpp:82-96 | lengths in network order come back |
| `WebSocketFrame.CodedTwice` | libs/oatpp-websocket/WebSocket.cpp:166-170 | masking twice is the identity |
| `WebSocketFrame.CodedSplit` | libs/oatpp-websocket/WebSocket.cpp:166-170 | unmasking piece by piece, with the offset of each, is unmasking the whole |
| `WebSocket.WebSocket.ReadFrameHeader` | libs/oatpp-websocket/WebSocket.cpp:70-106 | the header that the bytes hold, for every way the reads can go |
| `WebSocket.WebSocket.ReceivePayload` | libs/oatpp-websocket/WebSocket.cpp:146-200 | the unmasked parts go to the listener or into the message, up to a failing read |
| `WebSocket.WebSocket.HandleOne` | libs/oatpp-websocket/WebSocket.cpp:202-272 | one frame: admission, `m_lastOpcode`, listener calls, failure |
| `WebSocket.WebSocket.ListenLoop` | libs/oatpp-websocket/WebSocket.cpp:279-295 | the calls of the listener and the state in which `listen` stops, for every transport |
| `WebSocket.WebSocket.WriteFrameHeader` | libs/oatpp-websocket/WebSocket.cpp:108-144 | the header as bytes |
| `WebSocket.WebSocket.SendOneFrame` | libs/oatpp-websocket/WebSocket.cpp:317-338 | one frame on the wire, masked or not |
| `WebSocket.WebSocket.SendClose` | libs/oatpp-websocket/WebSocket.cpp:340-355 | a close frame with the code and the text |
| `WebSocketReader.HeaderShrinks` | libs/oatpp-websocket/WebSocket.cpp:70-106 | reading a header always takes from the transport, so listening ends |
| `WebSocketRoundTrip.HeaderDelivers` | libs/oatpp-websocket/WebSocket.cpp:70-144 | a header that was sent arrives under any partition into reads |
| `WebSocketRoundTrip.FrameDelivers` | libs/oatpp-websocket/WebSocket.cpp:70-338 | a frame that was sent is handled as its sender meant it, whatever follows it |
| `WebSocketRoundTrip.ListenDelivers` | libs/oatpp-websocket/WebSocket.cpp:70-355 | any single-frame messages and a close, masked or not, in any partition with retries: exactly the payloads in order, one end for each data message, the close, and `listen` stops |
| `WebSocketRoundTrip.CloseCarriesCode` | libs/oatpp-websocket/WebSocket.cpp:234-355 | the code and the text of a close arrive |
| `WebSocketRoundTrip.FragmentsExactly` | libs/oatpp-websocket/WebSocket.cpp:58-215 | a legal sequence of frames is admitted exactly when no text or binary frame follows a fragmented message |
| `WebSocketFragments.ListenFrames` | libs/oatpp-websocket/WebSocket.cpp:146-295 | over a transport that delivers, `listen` hands on any frames up to the first that is refused, with fragments joined and control frames in between |
| `WebSocketFragments.ListenFragmentsExactly` | libs/oatpp-websocket/WebSocket.cpp:58-295 | a legal sequence and a close over the wire: `listen` comes to the close, with every message delivered, exactly when no text or binary frame follows a fragmented message |
| `WebSocketRoundTrip.SecondMessageRefused` | libs/oatpp-websocket/WebSocket.cpp:58-215 | two messages, the first in two fragments, are legal and refused |
| `AsyncWebSocket.InlineReads` | libs/oatpp/core/data/stream/Stream.cpp:164-198 | the inline read of a coroutine ends as the blocking exact read does, unless the transport returned zero |
| `AsyncWebSocket.HeaderRefines` | libs/oatpp-websocket/AsyncWebSocket.cpp:70-149 | the header coroutine and the blocking reader read the same header or both fail |
| `AsyncWebSocket.PayloadRefines` | libs/oatpp-websocket/AsyncWebSocket.cpp:219-333 | the payload coroutine hands on the same parts, under any partition, up to the same failure |
| `AsyncWebSocket.FrameRefines` | libs/oatpp-websocket/AsyncWebSocket.cpp:335-428 | the frame coroutine makes the same calls and leaves the same `m_lastOpcode` or fails as well |
| `AsyncWebSocket.ListenRefines` | libs/oatpp-websocket/AsyncWebSocket.cpp:430-460 | over the same transport the coroutines end as `listen` does, with the same calls, unless a zero fell inside a header |
| `AsyncWebSocketClosed.ExtraPong` | libs/oatpp-websocket/AsyncWebSocket.cpp:91-118 | every run that the peer ends between frames can go on with a pong nobody sent |
| `AsyncWebSocketClosed.ClosedExactly` | libs/oatpp-websocket/AsyncWebSocket.cpp:70-460 | for runs that are not cut inside a header: both agree whatever unwritten memory holds, exactly when the peer did not close between frames |
| `AsyncWebSocketCut.CutReaches` | libs/oatpp-websocket/AsyncWebSocket.cpp:91-145 | wherever a header is cut, in its two bytes, its length or its mask, the coroutine comes to a frame whose header is completed from unwritten memory |
| `AsyncWebSocketCut.CertainRunAgrees` | libs/oatpp-websocket/AsyncWebSocket.cpp:70-460 | on a run that was not cut, or is certain to fail, the coroutines end as `listen` does, whatever the memory holds and the transport does after its zero |
| `AsyncWebSocketCut.UncertainDisagrees` | libs/oatpp-websocket/AsyncWebSocket.cpp:70-460 | on any other cut header some memory makes the run deliver more, leave another `m_lastOpcode`, or never end |
| `AsyncWebSocketCut.AgreesExactly` | libs/oatpp-websocket/AsyncWebSocket.cpp:70-460 | over whole runs: both agree whatever unwritten memory holds, exactly when no header was cut or the cut one is certain to fail |
| `AsyncWebSocketCut.OneByteExactly` | libs/oatpp-websocket/AsyncWebSocket.cpp:91-118 | after exactly one byte both agree, exactly when its opcode is not admitted |
| `AsyncWebSocketCut.BrokenPipeAfterZero` | libs/oatpp-websocket/AsyncWebSocket.cpp:70-162 | why the exact statements take a peer that stays away: with a broken pipe after the zero, both fail alike though the opcode read is admitted |

## Left out

- NaN, infinite floats, discarded values and ordered-map objects: the library's `==` is not an equivalence on them.
- JsonPointer.ArrayIndex: a token above 2^64 - 2 throws in the code; here it is an index that no array has, which throws later.
- JsonPatchDocument.Document: the document is one value that the methods reassign; references into it and the order in which a member is looked up against `at` are not modelled.
- JsonDestroy.Destroy: keys and memory blocks that are freed along with the values.
- JSON text: lexer, parser, serializer and the binary formats.
- MultipartParser.MultipartFormDataParser.Parse: the server's callbacks are a list of items with their limit of 1024; preambles, epilogues and content providers are not modelled.
- ThreadPool: exceptions thrown by jobs, and `enqueue` after `shutdown` returned.
- ClientSocket: one client object and its plain sockets; the TLS state, proxies and the destructor are not modelled.
- ClientRedirect.Send: the header fields of requests, the regular expression for locations and TLS handshakes; a location is absent, unusable, here or elsewhere.
- ChunkedWriter.DataSink: only the identity compressor; the stream takes a number of bytes and then fails for good.
- ChunkedStream.ReadContentChunked: a content receiver that refuses data; headers are kept in the order they arrive.
- QueryString.PrintThenParse: keys that `params_to_query_str` would have to code, which it does not.
- Sha1.SHA1: `update(std::istream&)`, `fromFile` and the hexadecimal form.
- SchemaGenerator: type interpretations other than those of enums, security schemes, property metadata, and types that share a name.
- WebSocket.WebSocket.SendOneFrame: for masked messages of 2^31 bytes or more the source's 32-bit loop index overflows; here the index is unbounded.
- WebSocket.WebSocket: write failures, `stopListening`, a missing listener and the handshake.
- AsyncWebSocketCut.AgreesExactly: a transport that reports a broken pipe after it has returned zero; there only that certain runs agree is proved, and `BrokenPipeAfterZero` shows that the condition is then not the exact one.
- AsyncWebSocket: the sending coroutines.
- Sockets, DNS, TLS, compression, routing, file serving, logging and the start-up code in `src/`: system calls and wiring.
