# A model of the panel's protocols and codecs

This project models, in Dafny, the parts of a Home Assistant touch panel in which small
protocols, codecs and state machines meet, and proves what they promise each other. One module
stands for one component:

- `Text`, `JsonFields`, `ResultLine`, `PipelineParent`, `PipelineChild`, `PipelineReport`,
  `Pipeline`: the pipeline child prints results as JSON lines; the parent gathers pipe chunks into
  lines and reads every field back by searching for its quoted key anywhere in the line. The model
  says what each search finds on each printed line, whatever the strings hold, and so exactly when
  printing and parsing are inverses, and lifts that to whole streams, to any chunking, and to the
  two processes together. `PipelineReport` says what the child reports by its events alone.
- `JsonObjects`: the brace-matching scanner against JSON object trees.
- `WebSocket`: the frame writer, the audio upload and the frame reader against a decoder and an
  encoder written from sections 5.2 and 5.3 of RFC 6455.
- `HaUrl`: the address parser and the rendering that the child uses for its requests.
- `Mqtt`: remaining length, PUBLISH builder and parser against a reading by sections 2.2.3 and 3.3
  of MQTT 3.1.1, and the receive loop under every fragmentation of the reads.
- `MqttThreads`: `start`, `stop` and the loop thread as interleaved steps over the shared
  variables.
- `Names`, `Locales`: the locale validator and the runtime translator, and what the static check
  guarantees about every lookup.
- `WakeDetector`: the wake-word loop with its ring of scores, against a reference without ring or
  counters.
- `AudioCapture`: frame assembly from arbitrary reads.
- `TouchScreen`: touch reading, waking and blanking, over every run of them.
- `Framebuffer`: the panel's row copy and the simulator's pixel loop, over every run of flushes.
- `Utf8`: the two prefix and counting helpers against section 3 of RFC 3629.
- `Basics`, `Arithmetic`: shared types, bytes, network order.

Code that changes state is modelled by classes and methods with loops; each is proved equal to a
function of its inputs and its old state, and the properties are lemmas about that function.

## What turned out not to hold

- A result does not always read back. A field value that equals a later key, or ends in a quote
  and that key, is taken for the key; `ResultLine.ParseInvertsPrint` gives the exact condition,
  `ResultLine.NoCollisionIsUnambiguous` a sufficient one on the strings alone, and
  `ResultLine.SpokenErrorIsMisread` an example: a spoken "error" makes the parent take the
  response for the error text.
- The child can exit with 1 and an empty error. `PipelineReport.ExitCode` says on the events when:
  a tts-end message with an address left the loop and no intent-end message came before it.
  `PipelineReport.SilentFailure` is such a run. The parent fills the empty error in, so that it
  always reports one (`Pipeline.ParentSeesChild`).
- `parse_ha_url` is not idempotent on base paths that end in a byte of 32 or less
  (`HaUrl.NormalForm`); `https://h/a /` is an accepted address with such a path
  (`HaUrl.BlankIsLost`).
- The remaining-length decoder refuses every length of four bytes, although the standard allows
  them; the code is followed (`Mqtt.DecoderTakesThreeBytes`, `Mqtt.LongPacketEndsConnection`).
- A QoS above 1 writes a packet id but no QoS bits, and a topic beyond 65535 bytes overflows its
  length field: `Mqtt.ReceivedAsSent` shows that these two are exactly the publications that do
  not arrive as sent.
- A locale key that contains a dot, or lies below an empty key at the top, is validated, but the
  page looks up the path that the flattened key spells. `Locales.LeafIsFound` says for every file
  when a leaf is found under its flattened key: exactly when no key on the path to it holds a dot
  and the path does not begin with an empty key, or another leaf stands in for it.
  `Locales.LoneLeafIsFound` is the plain case: in a file without empty or repeated keys, a leaf
  that alone answers to its flattened key, and that is a text of two characters or more (or a text
  that is not empty, under a key without indices), is found exactly when no key on its path holds
  a dot. `Locales.DottedKeyIsLost`, `Locales.EmptyKeyIsLost`, `Locales.RivalsAreConfused`,
  `Locales.OthersStandIn` and, for inherited names, `Locales.InheritedNameIsFound` are the inputs.
  A key `__proto__` at the top is not even flattened (`Locales.ProtoIsDropped`).
- The runtime finds texts under keys that were never flattened: a property of a text is a
  character, and a falsy leaf stays under every longer path. `Locales.FlatKeysArePaths` says
  exactly which, at every key without an inherited name; `Locales.IndexFindsCharacter` is the
  plainest.
- `utf8_prefix_bytes` can read behind the NUL of a text. It never does exactly when every
  character of the text has all the bytes that its first one announces (`Utf8.StaysInside`). On
  valid text cut inside a character it does exactly when it is asked for more characters than are
  whole (`Utf8.CutCharacterIsOverrun`); `Utf8.LoneLeadIsOverrun` is the shortest such text.
- A timeout inside an MQTT body drops what was read of it, and the rest is read as packets
  (`Mqtt.CutBodyIsReread`): a payload that is itself a packet is then received as one
  (`Mqtt.CutPayloadIsReceived`). When no read inside a packet times out, the bytes alone decide
  what `Mqtt.MqttClient.ReceiveLoop` does.

## Model

| member | source | states |
|---|---|---|
| Text.StrtolReadsDecimal | src/assist_pipeline_bridge.cpp:218-229 | the integer reader gives back every 32-bit integer that was printed, whatever non-digit follows |
| Text.StrtolMeans | src/assist_pipeline_bridge.cpp:218-229 | the reading of white space, a sign and digits, whatever their value: clamped to 64 bits |
| JsonFields.JsonEscape | src/assist_pipeline_bridge.cpp:150-162 | the escaping loop computes the escape function, for all bytes |
| JsonFields.UnescapeInvertsEscape | src/assist_pipeline_bridge.cpp:150-187 | reading an escaped value up to its closing quote gives the value, less exactly the control bytes the escaper drops |
| JsonFields.EscapedCharacters | src/assist_pipeline_bridge.cpp:150-162 | what each character is escaped to, and which ones are dropped |
| JsonFields.ReadCharacters | src/assist_pipeline_bridge.cpp:173-187 | what the reader makes of each escape and where it ends |
| JsonFields.ReadLoopIsUnescape | src/assist_pipeline_bridge.cpp:173-186 | the accumulator-and-flag reading loop is the reading of the text, from any point of it, inside an escape or not |
| JsonFields.FindValue | src/assist_pipeline_bridge.cpp:164-172 | the two searches of every reader end just after the first colon behind the first quoted key, or fail exactly when there is none |
| JsonFields.JsonStringAfter | src/assist_pipeline_bridge.cpp:164-187 | the string reader, all failure exits included, in terms of the text behind the key |
| JsonFields.JsonIntAfter | src/assist_pipeline_bridge.cpp:218-229 | the integer reader, with its fallback and its narrowing to 32 bits |
| JsonFields.JsonBoolAfter | src/assist_pipeline_bridge.cpp:231-242 | the flag reader, with its fallback |
| JsonFields.ReadersMean | src/assist_pipeline_bridge.cpp:164-242 | what the three readers return of a text in which the quoted key stands first, with its colon and any blanks |
| JsonFields.ReadersMiss | src/assist_pipeline_bridge.cpp:164-242 | without the quoted key, or without a colon, each reader gives its fallback |
| ResultLine.ScanValue | src/assist_pipeline_bridge.cpp:164-171 | where a search for a quoted key that enters an escaped value ends: inside it exactly when the value ends in a quote and the key |
| ResultLine.SerializedText | src/assist_pipeline_bridge.cpp:244-256 | the whole printed line, key by key |
| ResultLine.FieldMeaning | src/assist_pipeline_bridge.cpp:164-187 | what each of the three readers returns for each key on each printed line: the field after the first colliding one, or its own |
| ResultLine.FlagMeaning | src/assist_pipeline_bridge.cpp:793-802 | the two substring tests for the final and the success flag are right whatever the strings contain |
| ResultLine.ParseMeaning | src/assist_pipeline_bridge.cpp:793-801 | the result the parent makes of any printed line, field by field |
| ResultLine.ParseInvertsPrint | src/assist_pipeline_bridge.cpp:244-256 | a printed line reads back as what was printed, less the dropped bytes, if and only if every search ends at its own field or at an equal text |
| ResultLine.ParseIsLossless | src/assist_pipeline_bridge.cpp:244-256 | nothing at all is lost if and only if moreover no string holds a byte that the escaper drops |
| ResultLine.NoCollisionIsUnambiguous | src/assist_pipeline_bridge.cpp:166-171 | a condition on the strings alone that rules out every misreading |
| ResultLine.AlwaysReadBack | src/assist_pipeline_bridge.cpp:793-796 | stage, transcript and the success flag read back for all string contents |
| ResultLine.SpokenErrorIsMisread | src/assist_pipeline_bridge.cpp:166-171 | a final line whose transcript is "error" reads back with the response as its error |
| ResultLine.LineHasNoNewline | src/assist_pipeline_bridge.cpp:150-162 | a printed line holds no newline but the one that ends it, so that lines can be told apart |
| PipelineParent.LineReader.ConsumeOutput | src/assist_pipeline_bridge.cpp:787-805 | the line loop handles every complete line in order and keeps the rest |
| PipelineParent.ParseResult | src/assist_pipeline_bridge.cpp:792-801 | the nine field reads of a line |
| PipelineParent.CollectResult | src/assist_pipeline_bridge.cpp:806-885 | the reading loop over all chunks, and the result with its three error texts |
| PipelineParent.NoFinalLine | src/assist_pipeline_bridge.cpp:862-873 | a child that ends without a final line, even inside one, and however its output is cut: every whole progress line is reported, and the caller is handed a failure that says so |
| PipelineParent.CancelledOutcome | src/assist_pipeline_bridge.cpp:866-869 | a cancelled run hands out nothing but the failure that says so |
| PipelineParent.LaterLinesCount | src/assist_pipeline_bridge.cpp:792-803 | of several final lines the last one counts, and progress goes to the callback if there is one |
| PipelineParent.ConsumeTwice | src/assist_pipeline_bridge.cpp:787-805 | consuming what is there before more arrives makes no difference |
| PipelineParent.ChunkingIsIrrelevant | src/assist_pipeline_bridge.cpp:785-863 | any chunking of a stream leaves the reader as the stream in one piece does |
| PipelineParent.StreamIsDelivered | src/assist_pipeline_bridge.cpp:785-885 | in any chunking, the progress callback runs once per progress result, in order, with what the searches find, and the final line is kept |
| PipelineParent.DeliveredOutcome | src/assist_pipeline_bridge.cpp:862-885 | the result the caller is handed from a printed stream, in any chunking, the parent's own error text included |
| PipelineParent.StreamRoundTrip | src/assist_pipeline_bridge.cpp:785-885 | of a printed stream, in any chunking, each progress result arrives intact if and only if it is unambiguous, and the caller is handed the final result intact if and only if it moreover succeeded or brings an error text (or loses the parent's own text and has it put back) |
| PipelineParent.PutBackHappens | src/assist_pipeline_bridge.cpp:872-884 | a final result that loses the parent's own error text in a misreading and has it put back |
| JsonObjects.FindClosing | src/assist_pipeline_bridge.cpp:195-215 | the scanning loop computes the scan function from an opening brace |
| JsonObjects.JsonStringInObject | src/assist_pipeline_bridge.cpp:189-216 | the whole lookup with its three failure exits |
| JsonObjects.ObjectIsMissing | src/assist_pipeline_bridge.cpp:189-216 | without the quoted key, without a brace behind it, or with an object that does not end, nothing is found |
| JsonObjects.RunTree | src/assist_pipeline_bridge.cpp:195-212 | any printed JSON value inside an object leaves the scanner at the same depth, outside strings |
| JsonObjects.ScanStopsAtMatchingBrace | src/assist_pipeline_bridge.cpp:189-216 | begun at an object's opening brace the scan stops at exactly its matching closing brace, for every object tree, whatever its strings hold |
| JsonObjects.CutObjectIsNotFound | src/assist_pipeline_bridge.cpp:189-216 | an object that is cut short anywhere is never taken for a whole one |
| JsonObjects.LookupSeesTheObject | src/assist_pipeline_bridge.cpp:189-216 | the inner lookup sees the object's text and nothing else |
| JsonObjects.FirstMemberIsRead | src/assist_pipeline_bridge.cpp:189-216 | when the wanted key is the object's first member, its whole string value is returned |
| PipelineChild.ChildProcess.HandleMessage | src/assist_pipeline_bridge.cpp:652-675 | one message, by its kind, with the progress line it prints |
| PipelineChild.ChildProcess.ReplyLoop | src/assist_pipeline_bridge.cpp:634-678 | the loop over every sequence of silent polls, failed reads and frames, pongs included, then the timeout text |
| PipelineChild.ChildProcess.Play | src/assist_pipeline_bridge.cpp:410-454 | one progress line per announced playback, and the error of a failed one |
| PipelineChild.ChildProcess.FinishUp | src/assist_pipeline_bridge.cpp:680-708 | what is on standard output at the end, one final line, last, and the exit code |
| PipelineChild.ChildMain | src/assist_pipeline_bridge.cpp:457-708 | standard output and exit code of the whole child, early exits included |
| PipelineReport.KindMeans | src/assist_pipeline_bridge.cpp:652-671 | which of the five quoted types decides what a message is, in the order they are looked for |
| PipelineReport.LoopMeans | src/assist_pipeline_bridge.cpp:634-678 | for every list of events: every field of the result, the address and the media type (the key "mime_type") that playback gets, the progress lines and the pongs, read off the events alone |
| PipelineReport.ReportMeans | src/assist_pipeline_bridge.cpp:634-708 | for every list of events and every player outcome: all progress results, playback announcements included, every field of the last one, the error of a failed or refused playback included, and the exit code |
| PipelineReport.PlayedAnswer | src/assist_pipeline_bridge.cpp:671-708 | after an intent-end, an address under /api/tts_proxy/ with an audio type and a player that streams: one more progress line, no error, exit code 0 |
| PipelineReport.EarlyReports | src/assist_pipeline_bridge.cpp:457-515 | the reports of the three ways out before the reply loop, text by text |
| PipelineReport.ReplyLoopOutcome | src/assist_pipeline_bridge.cpp:634-678 | the loop ends with exactly one of audio address and error; success if and only if an intent-end message was handled, and then with a response; one progress line per transcript, one pong per ping |
| PipelineReport.LastIntentWins | src/assist_pipeline_bridge.cpp:652-708 | however a run ends, the response in the last line is that of the last intent-end message handled, and without one the first text announced |
| PipelineReport.ExitCode | src/assist_pipeline_bridge.cpp:634-708 | by the events: exit code 0 exactly when an intent-end message was handled, 2 exactly for the early exits, and exactly when a failed child reports no error text |
| PipelineReport.SilentFailure | src/assist_pipeline_bridge.cpp:671-677 | one tts-end message with an address makes the child exit with 1 and no error text |
| Pipeline.ParentSeesChild | src/assist_pipeline_bridge.cpp:680-885 | both processes together: the parent succeeds exactly when the child exits with 0, reports an error otherwise, and hears every progress line |
| WebSocket.Session.SendFrame | src/assist_pipeline_bridge.cpp:90-113 | writes exactly the frame, or a prefix of it when the connection fails, or nothing when there is no mask |
| WebSocket.BuildHead | src/assist_pipeline_bridge.cpp:92-104 | the three length forms, built byte by byte |
| WebSocket.MaskPayload | src/assist_pipeline_bridge.cpp:105-112 | the masking loop |
| WebSocket.LengthReadsBack | src/assist_pipeline_bridge.cpp:94-104 | the length written is the length declared, in its shortest form, for every length below 2^63 |
| WebSocket.HeadBytes | src/assist_pipeline_bridge.cpp:90-104 | the first bytes of a frame, in the three length forms |
| WebSocket.MaskedBits | src/assist_pipeline_bridge.cpp:105-112 | bit by bit, what the masking does to each byte of the payload |
| WebSocket.UnmaskMasked | src/assist_pipeline_bridge.cpp:105-112 | masking twice with one mask gives the payload back |
| WebSocket.FrameDecodes | src/assist_pipeline_bridge.cpp:90-113 | under the standard every frame written decodes to its opcode and payload, final and masked, and leaves the bytes behind it |
| WebSocket.UploadAudio | src/assist_pipeline_bridge.cpp:616-632 | one send per payload: the frames of the first ones go out whole and in order, of the next one less than its frame if its send fails, and the error text says whether that was the last one |
| WebSocket.PayloadsHoldTheAudio | src/assist_pipeline_bridge.cpp:616-632 | without their first byte the payloads make up the whole audio, in chunks of 1 to 1024 bytes, a lone handler byte last |
| WebSocket.StreamDecodes | src/assist_pipeline_bridge.cpp:90-113 | frames sent back to back decode to all their payloads in order |
| WebSocket.UploadDecodes | src/assist_pipeline_bridge.cpp:616-632 | decoding a completed upload and dropping the handler bytes gives the audio back |
| WebSocket.Receiver.ReadWsFrame | src/assist_pipeline_bridge.cpp:120-139 | the reader's result and what it leaves unread, on every stream |
| WebSocket.ReadInvertsUnmasked | src/assist_pipeline_bridge.cpp:120-139 | inverts the unmasked encoding for payloads up to 1 MiB in all three length forms and takes exactly the frame |
| WebSocket.OversizeIsRefused | src/assist_pipeline_bridge.cpp:135-135 | a declared size above 1 MiB is refused with no payload byte read |
| WebSocket.MaskBitIsIgnored | src/assist_pipeline_bridge.cpp:124-134 | a frame whose mask bit is set is read as one whose is not, on any bytes |
| WebSocket.CutFrameIsNotRead | src/assist_pipeline_bridge.cpp:120-139 | a frame that is cut short anywhere is not read |
| WebSocket.StreamReadsBack | src/assist_pipeline_bridge.cpp:120-139 | a concatenation of such frames reads back in order, and what follows it is left |
| HaUrl.ParseHaUrl | src/assist_pipeline_bridge.cpp:41-56 | the parser with its trimming loops and every refusal |
| HaUrl.AddressWithPort | src/assist_pipeline_bridge.cpp:41-56 | what is read from an address with a port text behind its last colon, and exactly when it is refused |
| HaUrl.AddressWithoutPort | src/assist_pipeline_bridge.cpp:41-56 | what is read from an address without a colon: port 443 |
| HaUrl.OtherSchemes | src/assist_pipeline_bridge.cpp:41-56 | every other scheme is refused |
| HaUrl.BlanksAreTrimmed | src/assist_pipeline_bridge.cpp:41-56 | bytes of 32 or less around an address make no difference |
| HaUrl.SlashesAreDropped | src/assist_pipeline_bridge.cpp:41-56 | all slashes at the end of a path are dropped and nothing else |
| HaUrl.AcceptedFacts | src/assist_pipeline_bridge.cpp:41-56 | what every accepted address looks like: host, port range, base path without a last slash |
| HaUrl.NormalForm | src/assist_pipeline_bridge.cpp:393-395 | rendering an accepted address and parsing it again gives the same parts if and only if the base path does not end in a byte of 32 or less |
| HaUrl.BlankIsLost | src/assist_pipeline_bridge.cpp:41-56 | `https://h/a /` is accepted with a base path that ends in a blank, and does not come back from its rendering |
| Mqtt.EncodeRemainingLength | src/mqtt_client.cpp:13-22 | the encoding loop computes the encoding function |
| Mqtt.MqttClient.DecodeRemainingLength | src/mqtt_client.cpp:24-42 | the decoding loop: unless one of its reads times out it takes and leaves what the bytes say, and otherwise it fails |
| Mqtt.LengthReadsBack | src/mqtt_client.cpp:13-42 | the decoder inverts the encoder below 128^3 and leaves what follows, and fails on every length from there on |
| Mqtt.DecoderTakesThreeBytes | src/mqtt_client.cpp:24-42 | of all codes that the standard allows, minimal or not, the decoder takes exactly those of up to three bytes, with their value and exactly their bytes |
| Mqtt.EncodedMeansItself | src/mqtt_client.cpp:13-22 | the code has the continuation bit on all bytes but the last, and its value under the standard is the length |
| Mqtt.EncoderIsMinimal | src/mqtt_client.cpp:13-22 | no code of the same value is shorter |
| Mqtt.BuildPublish | src/mqtt_client.cpp:263-288 | the packet built in place is header, length, topic, packet id and payload |
| Mqtt.MqttClient.Publish | src/mqtt_client.cpp:263-291 | what is sent, when it is, and when the packet id moves on and wraps |
| Mqtt.PacketMeans | src/mqtt_client.cpp:263-288 | what a reading by section 3.3 of MQTT 3.1.1 takes from a packet written for any publication: retain, QoS, no duplicate, topic, packet id and payload, or nothing when the packet is longer than the standard allows |
| Mqtt.MqttClient.ProcessIncomingPacket | src/mqtt_client.cpp:376-404 | the callback's calls for any packet, too short ones included |
| Mqtt.CallMeans | src/mqtt_client.cpp:376-404 | the callback's call for any packet with a whole topic: for every first byte and topic, with or without a packet id, with suffix and payload |
| Mqtt.ShortPacket | src/mqtt_client.cpp:376-380 | a packet that does not hold its whole topic makes no call |
| Mqtt.MqttClient.ReadBody | src/mqtt_client.cpp:452-458 | the body is put together from reads of any size; it is short only if the stream ends or exactly one read times out, and no byte behind it is taken |
| Mqtt.MqttClient.ReceiveRest | src/mqtt_client.cpp:444-463 | one packet: it is cut if and only if a read of it times out; otherwise it makes exactly its calls |
| Mqtt.MqttClient.ReceiveLoop | src/mqtt_client.cpp:438-463 | for every fragmentation of the reads: as many packets are cut as reads inside packets time out, every turn takes a packet or finds silence, and when none times out and the client is not stopped before, the calls are exactly those of the byte stream |
| Mqtt.UncutRun | src/mqtt_client.cpp:438-463 | a run in which no packet is cut makes the calls of the byte stream |
| Mqtt.CutBodyIsReread | src/mqtt_client.cpp:452-462 | a timeout inside a body: the packet makes no call, and what is left of the body is read as if packets began there |
| Mqtt.CutPayloadIsReceived | src/mqtt_client.cpp:452-462 | if a body is cut just before its payload and the payload is itself a packet, that packet's call is made |
| Mqtt.PublicationReceived | src/mqtt_client.cpp:376-404 | what is received from a publication with a topic up to 65535 bytes, for every QoS |
| Mqtt.ReceivedAsSent | src/mqtt_client.cpp:263-291 | topic and payload arrive as sent if and only if the topic has at most 65535 bytes and the QoS is at most 1 |
| Mqtt.PacketReceived | src/mqtt_client.cpp:438-463 | packet boundaries are kept: a packet below 128^3 is taken whole and nothing behind it |
| Mqtt.CutOffPacket | src/mqtt_client.cpp:438-463 | a packet that the stream does not complete makes no call, wherever it ends |
| Mqtt.StreamReceived | src/mqtt_client.cpp:438-463 | packets sent back to back cause exactly the calls for the topics under base/cmd/, in order, with suffix and payload |
| Mqtt.LongPacketEndsConnection | src/mqtt_client.cpp:24-42 | from a packet of 128^3 bytes or more on nothing is received |
| MqttThreads.ControlKeepsInv | src/mqtt_client.cpp:57-74 | every step of start and stop keeps the invariant |
| MqttThreads.LoopKeepsInv | src/mqtt_client.cpp:406-484 | every step of the loop thread keeps the invariant |
| MqttThreads.RunKeepsInv | src/mqtt_client.cpp:57-121 | the invariant holds in every state of every interleaving |
| MqttThreads.StoppedIsClean | src/mqtt_client.cpp:68-121 | when stop returns, every socket ever opened has been closed exactly once, the descriptor is -1, the client is not connected and no loop thread is left |
| MqttThreads.AlwaysSafe | src/mqtt_client.cpp:76-121 | at no time has a socket been closed twice, and start never replaces a thread that was not joined |
| MqttThreads.RunConnects | src/mqtt_client.cpp:406-484 | in every state of every interleaving, while nobody stops the client: there is a loop thread once start has run, the newest socket is in the descriptor from the connection until its close, and the client counts as connected from the handshake until that close |
| MqttThreads.PublishFindsConnection | src/mqtt_client.cpp:406-463 | in the receive loop of a client that nobody stops, the connected flag is set and the descriptor is the newest socket |
| MqttThreads.ClientConnects | src/mqtt_client.cpp:57-66 | start leads to the receive loop with socket 0 and the connected flag; a lost connection is closed once and replaced by socket 1 |
| MqttThreads.ConnectingFails | src/mqtt_client.cpp:406-421 | the three ways in which connecting fails, and what is closed then |
| MqttThreads.ClientStops | src/mqtt_client.cpp:68-121 | a stop in the receive loop runs to its return, with the socket closed once |
| MqttThreads.StopAdvances | src/mqtt_client.cpp:68-74 | every step of either thread brings a begun stop nearer to its return |
| MqttThreads.StopIsNotBlocked | src/mqtt_client.cpp:68-121 | the two threads never deadlock in a stop |
| MqttThreads.StopReturns | src/mqtt_client.cpp:68-74 | in every interleaving stop returns within 30 steps |
| Names.SplitInvertsJoin | www/i18n.js:15-17 | splitting joined parts gives the parts, if none holds the separator |
| Names.JoinedSortsCompare | tools/validate-locales.js:46-48 | comparing the joined sorted lists compares the multisets of names |
| Locales.Output.Flatten | tools/validate-locales.js:10-17 | the recursion into a shared output object computes the flattened table |
| Locales.CheckLocale | tools/validate-locales.js:41-52 | the reported problems of a locale are exactly its missing keys, unexpected keys and placeholder mismatches |
| Locales.ReportMeans | tools/validate-locales.js:41-57 | exactly when each of the four problems is reported, over the flattened files and the placeholder names of the two leaves |
| Locales.MissingPlaceholder | tools/validate-locales.js:45-49 | a translation without the placeholder of its source is reported, for every such pair of texts |
| Locales.Validate | tools/validate-locales.js:31-60 | the reported problems are exactly those of some locale and the unknown keys of the page |
| Locales.InterpolateFills | www/i18n.js:19-23 | when the parameters cover a text's placeholders, every one of them is replaced and nothing else changes |
| Locales.MatchMeans | www/i18n.js:19-23 | a placeholder is seen exactly where an opening brace, one or more of [a-zA-Z0-9_] and a closing brace stand |
| Locales.PlaceholderFilled | www/i18n.js:19-23 | the first placeholder becomes its parameter, or stays as it is without one; what is before it stays, what is behind it comes next |
| Locales.LoneBrace | www/i18n.js:19-23 | a brace that begins no placeholder stays |
| Locales.FlattenTrace | tools/validate-locales.js:10-17 | every flattened value comes from a path whose joined keys are the flattened key |
| Locales.FlatKeyIsFound | www/i18n.js:15-17 | the path lookup finds every flattened key, with the flattened leaf, whatever objects inherit |
| Locales.WalkExactly | www/i18n.js:15-17 | over every file and every path without inherited names: a leaf is found if and only if some first keys lead to a leaf and the others lead on from it through indices or falsy leaves |
| Locales.FlatIsLeaves | tools/validate-locales.js:10-17 | the flattened table holds exactly the leaves at the ends of paths, but for a top-level `__proto__` |
| Locales.ProtoIsDropped | tools/validate-locales.js:14-14 | a leaf under a top-level `__proto__` is not in the flattened table |
| Locales.FlatKeysArePaths | www/i18n.js:15-17 | at any key string without an inherited name a leaf is found if and only if the key is flattened, or continues a flattened key through a falsy leaf or through indices |
| Locales.IndexFindsCharacter | www/i18n.js:15-17 | a key that goes on with an index finds a character, although only the shorter key is flattened |
| Locales.TextIsWalked | www/i18n.js:15-17 | behind a text that is not empty there are its length, the characters at its indices, and nothing else of its own |
| Locales.OtherIsWalked | www/i18n.js:15-17 | a falsy leaf stays under every key behind it, a truthy one has only what it inherits |
| Locales.LeafIsFound | www/i18n.js:15-17 | over every file, for keys without inherited names: a leaf is found under its flattened key if and only if no key on its path holds a dot and the path does not begin with an empty key, or an equal leaf at another path stands in for it |
| Locales.LoneLeafIsFound | www/i18n.js:15-17 | over every file without empty or repeated keys: a leaf that alone answers to its flattened key and is a text of two characters or more, or not empty under a key without indices, or a truthy non-text, is kept by the validator and found if and only if no key on its path holds a dot |
| Locales.FlatKeyShape | tools/validate-locales.js:10-17 | a flattened key is the joined path exactly when the path does not begin with an empty key, and otherwise shorter |
| Locales.RivalsAreConfused | tools/validate-locales.js:10-17 | of two texts under one flattened key the validator keeps the later, the page shows the nested one |
| Locales.OthersStandIn | www/i18n.js:15-17 | a dotted key can be found by way of an index into another text, or of another empty text |
| Locales.InheritedIsWalked | www/i18n.js:15-17 | a key whose first part is an inherited name leads into what is inherited, unless the file has that name itself |
| Locales.InheritedNameIsFound | www/i18n.js:15-17 | with an engine in which objects have a constructor with the name Object, every file without a constructor of its own finds that text at constructor.name |
| Locales.DottedKeyIsLost | www/i18n.js:15-17 | a lone key with a dot is flattened under its name and not found by the lookup |
| Locales.EmptyKeyIsLost | tools/validate-locales.js:10-17 | a key below an empty key at the top is flattened without it and not found by the lookup |
| Locales.NoProblemMeans | tools/validate-locales.js:41-52 | no problem if and only if the keys are the same and each text has the same placeholders, as often |
| Locales.CleanReport | tools/validate-locales.js:41-60 | the validator ends with an empty list if and only if every locale agrees with the source and the page refers to source keys only |
| Locales.ValidatedTranslation | www/i18n.js:33-37 | after an empty list every source key translates in every locale without the fallback, and parameters that cover the source text fill all placeholders |
| Locales.TranslationMeans | www/i18n.js:33-37 | what is shown for every key: what the chosen locale has there, else the fallback pl, else the key, each as String shows it |
| Locales.TextTranslated | www/i18n.js:33-37 | a flattened text is shown with its placeholders filled as far as there are parameters, and all of them when they are covered |
| Locales.ValidatedText | www/i18n.js:33-37 | after an empty list, parameters that cover the source text fill the whole text of the chosen locale |
| Locales.ReferencesAreKnown | tools/validate-locales.js:54-60 | after an empty list every key the page refers to shows the chosen locale's own text |
| WakeDetector.Detector.StoreRow | prototypes/mww_probe.cpp:182-188 | a quantised row is appended to the input, and the slices are counted |
| WakeDetector.Detector.Push | prototypes/mww_probe.cpp:195-200 | the ring holds the last five scores since the last reset and the running sum is theirs |
| WakeDetector.Detector.Score | prototypes/mww_probe.cpp:195-214 | an inference wakes the panel exactly when the reference condition holds |
| WakeDetector.Detector.Hear | prototypes/mww_probe.cpp:195-214 | ... and so for the whole run of scores: the reference run of all of them |
| WakeDetector.Detector.Process | prototypes/mww_probe.cpp:174-214 | one microfrontend output, in every case: over a whole run of scores the inference wakes the panel exactly when the reference run does, and slices stay three times the inferences plus the buffered rows |
| WakeDetector.RingUpdate | prototypes/mww_probe.cpp:197-200 | replacing the oldest score keeps ring and sum right, before and after the ring is full |
| WakeDetector.ConditionsAgree | prototypes/mww_probe.cpp:204-205 | the detector's counters decide as the reference: the warm-up after a wake never matters |
| WakeDetector.PastGrows | prototypes/mww_probe.cpp:195-214 | one more score of a run is among its wakes exactly when warm-up or cool-down is over and the last five scores since the last wake reach the threshold |
| WakeDetector.WakesAreSpaced | prototypes/mww_probe.cpp:204-213 | over every run no wake before slice 100, and successive wakes at least 167 inferences apart |
| WakeDetector.WarmUpIsOver | prototypes/mww_probe.cpp:204-213 | in every run with a wake the warm-up counter has expired whenever the cool-down counter has |
| WakeDetector.SinceIsTheTail | prototypes/mww_probe.cpp:210-212 | the scores that count are exactly those since the last wake |
| WakeDetector.WakesAreDecidedOnce | prototypes/mww_probe.cpp:204-214 | an inference is among the wakes if and only if the condition held of the scores up to it; later scores change nothing |
| WakeDetector.WakesMean | prototypes/mww_probe.cpp:195-214 | over every run: an inference wakes the panel if and only if 100 slices are there, 167 inferences have passed since the wake before it, and the last five scores since that wake sum up to the threshold |
| WakeDetector.QuantiseMeans | prototypes/mww_probe.cpp:182-188 | a value is quantised to the nearest of 256 levels, what is above the last one to that one |
| AudioCapture.Capture.Read | src/assist_audio.cpp:115-130 | a read of any size extends the buffer by what the stream loses |
| AudioCapture.Capture.Emit | src/assist_audio.cpp:133-142 | the left channel of a full buffer, its level, one call of the handler |
| AudioCapture.Capture.CaptureLoop | src/assist_audio.cpp:96-144 | for every run of polls and every cut of the stream: the loop goes on until it is stopped, a poll fails or the stream ends, takes at least a byte at every poll that brings something, hands exactly the frames of what it read to the handler in order, counts them, and reports why it ended unless it was stopped meanwhile |
| AudioCapture.FramesExtend | src/assist_audio.cpp:129-143 | what more bytes add to the frames: nothing until they complete a block, then exactly that block |
| AudioCapture.PeakIsMaximum | src/assist_audio.cpp:133-139 | the peak is the largest magnitude of the frame |
| AudioCapture.FrameCount | src/assist_audio.cpp:131-143 | there are as many frames as complete blocks |
| AudioCapture.FrameSample | src/assist_audio.cpp:134-136 | sample i of frame k is the left channel at stereo position 320 k + i |
| AudioCapture.SampleMeans | src/assist_audio.cpp:134-136 | two bytes make a sample low byte first, in two's complement |
| AudioCapture.LevelMeans | src/assist_audio.cpp:133-140 | the level is what hundredth parts of 32768 the largest magnitude is |
| AudioCapture.LevelsArePercents | src/assist_audio.cpp:140-140 | every level is between 0 and 100 |
| TouchScreen.Hal.SetBacklightRaw | src/hal.cpp:163-175 | the level is remembered only when positive and not blanked |
| TouchScreen.Hal.WakeScreen | src/hal.cpp:177-204 | a fade in ends at the remembered level with the screen on, or where another thread's blank interrupts it; nothing else changes |
| TouchScreen.Hal.BlankScreen | src/hal.cpp:206-241 | a fade out ends at level 0 with the screen blanked, or where another thread's wake interrupts it; nothing else changes |
| TouchScreen.FadesMean | src/hal.cpp:177-241 | where a fade of 15 steps in or 20 steps out stands when it is over or is interrupted at any step |
| TouchScreen.LevelIsKept | src/hal.cpp:163-241 | over every run: a level set while the screen is on is what the display shows whenever it is on, until another is set |
| TouchScreen.FirstLevel | src/hal.cpp:163-241 | over every run in which none is set the level to wake to is 200 |
| TouchScreen.Hal.ReadTouch | src/hal.cpp:326-363 | the whole read: events absorbed, screen woken, the wake touch consumed, the report |
| TouchScreen.ReadFacts | src/hal.cpp:343-362 | when a read reports a press, hides a contact or leaves the screen blanked |
| TouchScreen.CoordinatesMean | src/hal.cpp:326-342 | a read returns the value of the last event for each axis, and the old one without any |
| TouchScreen.ContactMeans | src/hal.cpp:326-342 | the last tracking or key event decides whether there is a contact |
| TouchScreen.WokenMeans | src/hal.cpp:343-349 | a read wakes a blanked screen, to the remembered level, exactly when some event reports a contact or one lasts |
| TouchScreen.ConsumedIsHidden | src/hal.cpp:343-362 | over every run the consumed flag says that the present contact was seen in a read begun with the screen blanked |
| TouchScreen.PressedExactly | src/hal.cpp:326-363 | over every run a read reports a press if and only if there is a contact at its end and no read of that contact began with the screen blanked |
| TouchScreen.PressedMeansOn | src/hal.cpp:343-362 | a press is reported only with the screen on |
| Framebuffer.Flush | src/hal.cpp:251-262 | the row loop computes the flushed memory |
| Framebuffer.CopyRow | src/hal.cpp:256-262 | one turn of the row loop writes one row of the area |
| Framebuffer.Draw | src/hal.cpp:52-60 | the simulator's nested loop with its moving pointer draws the area and nothing else |
| Framebuffer.PixelWritten | src/hal.cpp:256-262 | the four bytes of every pixel of the area are its color's, in row-major order |
| Framebuffer.OthersUnchanged | src/hal.cpp:256-262 | every byte outside the area's rows is unchanged |
| Framebuffer.FlushShows | src/hal.cpp:251-262 | what the panel shows after a flush, at every pixel of the screen |
| Framebuffer.FlushedPixel | src/hal.cpp:251-262 | by byte address, offsets and line length included: each pixel of the area holds its color, lowest byte first, in row-major order |
| Framebuffer.OtherPixel | src/hal.cpp:251-262 | by byte address: every other pixel of the 480x480 screen keeps its bytes |
| Framebuffer.ChangedByte | src/hal.cpp:251-262 | every byte that a flush changes lies in a pixel of the area |
| Framebuffer.DrawnAt | src/hal.cpp:52-60 | what the simulator holds after a flush, at every pixel of the screen |
| Framebuffer.DrawnPicture | src/hal.cpp:52-60 | by array index: the pixels of the area hold their colors in row-major order, all others are kept |
| Framebuffer.PanelAgreesWithSimulator | src/hal.cpp:52-60 | panel and simulator that start with the same picture keep showing the same one over every run of flushes |
| Utf8.CharacterCount | prototypes/lvgl_assist_edge_variants.cpp:99-105 | the loop counts the bytes that are not continuation bytes, on any text |
| Utf8.CountIsScalars | prototypes/lvgl_assist_edge_variants.cpp:99-105 | on valid text that count is the number of scalar values |
| Utf8.EncodeMeans | prototypes/lvgl_assist_edge_variants.cpp:84-105 | the encoding that the texts are taken to be in, by section 3 of RFC 3629 |
| Utf8.PrefixBytes | prototypes/lvgl_assist_edge_variants.cpp:84-97 | the loop on any memory: where it ends, or that it reads beyond it |
| Utf8.ScanIsWalk | prototypes/lvgl_assist_edge_variants.cpp:84-97 | on any text and its NUL the routine ends where its steps do, whatever follows, or reads on behind the NUL exactly when a step leads over it |
| Utf8.StaysInside | prototypes/lvgl_assist_edge_variants.cpp:84-97 | for every text: no number of characters makes the routine read behind the NUL if and only if every character has all the bytes that its first one announces |
| Utf8.PrefixIsScalars | prototypes/lvgl_assist_edge_variants.cpp:84-97 | on valid text, whatever follows, the result is the encoded length of the first n scalar values, or of all, and so a character boundary |
| Utf8.CutCharacterIsOverrun | prototypes/lvgl_assist_edge_variants.cpp:84-97 | valid text cut inside a character: the routine reads behind the NUL if and only if it is asked for more characters than are whole, and otherwise ends at a boundary |
| Utf8.LoneLeadIsOverrun | prototypes/lvgl_assist_edge_variants.cpp:84-97 | the shortest such text |
| Utf8.PrefixesGrow | prototypes/lvgl_assist_edge_variants.cpp:84-97 | prefixes end at character boundaries, grow strictly until the text ends, and are the whole text at its character count |
| Utf8.EncodeAllIsInjective | prototypes/lvgl_assist_edge_variants.cpp:84-97 | a text spells one sequence of scalar values only |

## Left out

- Sockets, TLS, DNS, `poll`, `fork`, signals and clocks: reads are cut anywhere, writes fail anywhere, silent polls and deadlines are inputs; the connection phase of the child is reduced to the message with which it fails.
- PipelineChild.ChildMain: the connection phase is one step that either fails with a message or has sent the audio; its alarm and its signal handler are not modelled.
- PipelineChild.ChildProcess.ReplyLoop: whether a pong can be sent; the original does not look.
- PipelineChild.ChildProcess.Play: players are outcomes; the streaming player's audio levels and the download are not modelled.
- PipelineParent.CollectResult: a chunk list stands for what the pipe delivers before it ends, the deadline passes or the caller cancels; the feeding of the audio to the child is not modelled.
- Text.StrtolReadsDecimal: assumes a 64-bit `long`, and the URL parser's `atoi` the C library's usual truncation of it.
- The unused start position of `json_string_after`; `\u` escapes, which the reader does not decode either.
- A `char` of the bridge's texts stands for a byte; nothing depends on how message texts outside ASCII are encoded.
- WebSocket.Session.SendFrame: the random generator is an arbitrary function of the draw number.
- Mqtt.MqttClient.ReceiveLoop: one connection; pings and the next connection after a failure are not modelled, nor how long the original waits once the broker has closed.
- The CONNECT, SUBSCRIBE and discovery messages: fixed templates.
- MqttThreads.StoppedIsClean: one controlling thread calls `start` and `stop`; the socket use inside send and read, and memory ordering of the atomics, are not modelled. Every socket is a new number, so that reuse of descriptors by the system does not hide a second close.
- Locales.Output.Flatten: lists have no counterpart, and the order of the entries is that in which JavaScript lists them.
- Locales.ValidatedTranslation: asks for keys that are non-empty, without dots and not repeated.
- Locales.WalkExactly: what objects, texts and numbers inherit is a parameter, excluded by a hypothesis where it matters; a `char` stands for a UTF-16 unit.
- Locales.Validate: the order of the reported problems, and how references are found in the page.
- The translator's loading of files, language choice and page updates: input and output.
- WakeDetector.Detector.Score: sums in units of 1/256 with an integer threshold instead of floats, counters without overflow; the peak display and the model itself are not modelled.
- AudioCapture.Capture.CaptureLoop: the recorder process.
- TouchScreen.Hal.WakeScreen: what an interrupting thread writes itself; the products of the fades fit the integers; ticks and the activity reset are not modelled.
- The simulator's mouse reader: no wake logic.
- Framebuffer.Flush: 32 bits per pixel, as the copy assumes; the pan call on the first flush and the frame counter are not modelled.
- The LVGL screens, the fonts and the terminal panel: user interface and constant data.
- The wake-word listener: its line splitting is that of the pipeline parent.
