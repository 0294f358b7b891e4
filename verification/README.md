# Verified model of the pixel-streaming pipeline

A remote browser: the host captures web-engine frames, sends what changed to its subscribers, and a thin client
composites it into a framebuffer. This project models the whole way from a captured frame to the client's
framebuffer and proves, for every input and every run, that the client shows the host's frame.

| Module | Part of the system |
|---|---|
| `Bytes`, `Varint` | fixed-width integers, LEB128 varints |
| `WordCompare`, `Lz4Format`, `Lz4Codec` | word-wise comparison, the LZ4 block format and its reference decoder, the encoder and the decoder |
| `PixelFilter`, `HalfRes`, `PixelPayload` | wrapping pixel filter, half-resolution pair, pixel payload modes |
| `Wire`, `WireRoundTrip`, `WireLayout`, `Framing`, `Streams` | forty message kinds, their bytes and frames, reassembly from chunks |
| `Screen` | what pixel messages do to a framebuffer, one pixel at a time: the meaning everything else is measured against |
| `Diff`, `Host`, `Mirror` | frame differencing, the host's state, what published messages show |
| `Fanout`, `Lag`, `WebSocket` | broadcast queue, coalescing writer, snapshot resynchronisation, unanswered lag, the browser feed |
| `Framebuffer`, `Compositor`, `Tabs`, `Client` | the client's buffer, its queues and painting, its tab list, `BrowserCore` |
| `Schedule`, `WindowLoop`, `TabSwitch` | rendering passes among events and tab changes, the window loop, a switch seen by another client |
| `EndToEnd` | all of it together |

Each loop or state-changing method of the program is a Dafny method, proved against a specification function or
predicate; the properties are proved about those specifications. The capstones are `EndToEnd.HostFrameOnScreen` and
`EndToEnd.SendAndShow`, which runs the way from the messages to the screen.

Assumptions the program itself makes: frames have a positive size, `stride >= 4 * width`, 16-bit dimensions and
`stride * height` bytes; tabs are switched to only when open; each frame and each tab switch is one step.

## What the proofs show about the code

Where a property does not always hold, the lemmas named here say exactly when it does; several add a concrete case.

- LZ4 round trips exactly up to the 16 MiB cap (`Lz4Format.RoundTrip`); a longer input encodes without complaint
  and is refused by the decoder.
- The pixel filter loses a tail that is not a multiple of four bytes, exactly when it is not zero
  (`PixelFilter.FilterRoundTrip`).
- On the compressed feeds a region arrives unchanged for every picture exactly when it has fewer than 96,000 pixels
  (`EndToEnd.LosslessBelowThreshold`); above, a lone bright pixel fades (`HalfRes.BrightCornerFades`).
- `ingest_wire_bytes` returns on a decoding error without dropping what it has applied. It applies every message
  once exactly when no call before the last fails with messages already decoded (`Streams.IngestOnce`); a STOP
  before an unknown tag is applied twice (`Streams.StopIsAppliedTwice`). `net_main` does drop what it applied.
- A lag report met inside the coalescing drain is swallowed. In every reachable state the subscriber shows the active
  frame exactly when no loss left a visible pixel stale (`Fanout.MirrorsExactly`, and for one report
  `Fanout.SwallowExactly`); a run of a new host ends with everything delivered and an old frame on screen
  (`Lag.SwallowedLag`). Lag met by `recv()` is resynchronised.
- The coalescing writer compares each message with the next one queued, not with the next one sent. It can therefore
  send a full frame and another one right after it (`Fanout.StaleFrameSent`), exactly when the subframes between them
  were dropped (`Fanout.SentSuperfluous`).
- The snapshot of a joining WebSocket subscriber travels through another channel than the updates. Written late it is
  harmless exactly under the same pixel condition (`WebSocket.SnapshotOrder`); it can take the picture back
  (`WebSocket.SnapshotMustGoFirst`).
- Switching to a tab that is not open publishes nothing. That is safe exactly when no late frame of it is stored, or
  the picture already up contains that frame (`Mirror.SwitchSafety`); a new host can get into a state where it is
  not (`Mirror.SwitchToClosedTab`).
- On the client a tab change after a frame declares the content stale, so where rendering passes fall can matter. A
  schedule leaves no trace at a pixel exactly when no tab change is seen, or something is written after the last one,
  or nothing was written, or padding last (`Schedule.ScheduleIrrelevant`; the same for the batches of the window loop,
  `WindowLoop.LoopIrrelevant`). Otherwise the pixel ends as padding or as what was written (`WindowLoop.LoopOutcome`).
  It happens at every switch, to a tab with a stored frame, that the client did not ask for, because the host publishes
  the frame before the activation: together they show the frame, with a pass in between padding
  (`TabSwitch.SwitchPads`).
- The compression modes named ZSTD and ZSTD_DELTA are this LZ4 codec; the model follows the code.

## Model

| member | source | states |
|---|---|---|
| Bytes.FixedReadersInvert | gutted-proto/src/lib.rs:175-205 | every fixed-width reader returns the written value and leaves exactly the bytes behind it |
| Varint.WriteVarint | gutted-proto/src/lib.rs:141-151 | appends the unsigned LEB128 form (section 7.6 of DWARF 5) and leaves earlier bytes alone |
| Varint.ReadVarint | gutted-proto/src/lib.rs:153-171 | the loop agrees with the recursive reading on every input: value, rest, end of input and overflow of 32 bits |
| Varint.VarintRoundTrip | gutted-proto/src/lib.rs:141-171 | reading back any written 32-bit value gives the value and whatever follows |
| Varint.Leb128Size | gutted-proto/src/lib.rs:141-151 | a 32-bit value takes one to five bytes |
| Varint.Leb128Bytes | gutted-proto/src/lib.rs:141-151 | the bytes of every 32-bit value written out: seven bits each, lowest first, the top bit set on all but the last |
| Varint.VarintBytes | gutted-proto/src/lib.rs:153-171 | what any bytes are read as, overlong forms included: up to five bytes, the fifth below 0x10, cut input and overflow told apart |
| Varint.VarintStable | gutted-proto/src/lib.rs:153-171 | more input never changes a verdict other than "ran out" |
| Varint.VarintCut | gutted-proto/src/lib.rs:153-171 | a cut varint always reads as "ran out", never as another value |
| WordCompare.FirstDifference | gutted-proto/src/lib.rs:1397-1412 | the trailing zeros of the XOR of two different little-endian words, divided by eight, count their equal leading bytes |
| WordCompare.CommonPrefixLen | gutted-proto/src/lib.rs:1397-1412 | exactly the length of the longest common prefix, for all inputs |
| Lz4Format.CopyUnique | gutted-proto/src/lib.rs:1487-1569 | the overlapping byte-by-byte copy is the only output in which every new byte repeats the one an offset earlier |
| Lz4Format.SequenceLayout | gutted-proto/src/lib.rs:1375-1485 | a sequence byte by byte: token halves, length bytes, literals, offset with its low byte first |
| Lz4Format.DecodeExactly | gutted-proto/src/lib.rs:1487-1569 | the decoder returns x if and only if the input is the length of x, at most 16 MiB, and a block of executable sequences, with or without closing literals, that stands for x; an announced length must be that one |
| Lz4Format.DecodeErrors | gutted-proto/src/lib.rs:1487-1569 | anything else is refused, as too large exactly when its length exceeds 16 MiB, else as invalid |
| Lz4Format.DecodeInverts | gutted-proto/src/lib.rs:1414-1569 | every conforming block decodes to what it stands for, whatever matches the encoder chose |
| Lz4Format.RoundTrip | gutted-proto/src/lib.rs:1414-1569 | an encoding of x decodes to x if and only if x fits the message cap, with or without an announced length |
| Lz4Format.HeaderTooLarge | gutted-proto/src/lib.rs:1487-1569 | an encoding of more than the cap is refused as too large |
| Lz4Format.EncodingSize | gutted-proto/src/lib.rs:1414-1485 | at most n + n/255 + 6 bytes, header included |
| Lz4Codec.Hash | gutted-proto/src/lib.rs:1414-1485 | the table index is always below 4096 |
| Lz4Codec.HashBits | gutted-proto/src/lib.rs:1414-1485 | the index is the top twelve of the low 32 bits of the product with 0x9E3779B1 |
| Lz4Codec.WriteLz4Len | gutted-proto/src/lib.rs:1375-1382 | appends 255s and a remainder that the format's length reader inverts |
| Lz4Codec.FindMatch | gutted-proto/src/lib.rs:1414-1485 | whatever the hash table held, the candidate is the nearest of a one-byte run, a four-byte run and the hash entry that lies within 65535 bytes and repeats the four bytes; none only if none of them does |
| Lz4Codec.MatchCopies | gutted-proto/src/lib.rs:1414-1485 | a match extended word by word copies exactly the input, overlap included |
| Lz4Codec.EncodeMatch | gutted-proto/src/lib.rs:1414-1485 | one emitted sequence extends the written block by exactly the input up to the new anchor |
| Lz4Codec.Lz4EncodeInto | gutted-proto/src/lib.rs:1414-1485 | appends a conforming block for the input (offsets, end-of-block conditions), keeps earlier output, meets the size bound, and packs flat images into n/255 + 21 bytes |
| Lz4Codec.ReadLz4Len | gutted-proto/src/lib.rs:1384-1395 | the loop agrees with the recursive reading on every input |
| Lz4Codec.CopyMatch | gutted-proto/src/lib.rs:1487-1569 | the disjoint, offset-1, offset-4 and byte-loop copies all equal the naive overlapping copy |
| Lz4Codec.Lz4Decode | gutted-proto/src/lib.rs:1487-1569 | agrees with the reference decoder on arbitrary bytes, errors included, and never reads out of range |
| Lz4Format.Decode | gutted-proto/src/lib.rs:1487-1569 | an accepted block has exactly the length in its header, which is the announced one and within the cap |
| PixelFilter.SpatialFilterSub | gutted-proto/src/lib.rs:1343-1357 | each byte is the wrapping difference to the same channel of the pixel before; the tail is zero |
| PixelFilter.SpatialUnfilterSubInPlace | gutted-proto/src/lib.rs:1359-1370 | in place, every byte becomes the wrapping sum of its channel so far |
| PixelFilter.FilteredBytes | gutted-proto/src/lib.rs:1343-1357 | each filtered byte, plus the source byte four before it, is the source byte modulo 256; the first pixel is kept and the tail zeroed |
| PixelFilter.UnfilteredBytes | gutted-proto/src/lib.rs:1359-1370 | each byte is the filtered one plus the result four before it modulo 256; first pixel and tail are kept |
| PixelFilter.FilterRoundTrip | gutted-proto/src/lib.rs:1343-1370 | unfiltering undoes filtering if and only if the bytes behind the last whole pixel are zero |
| HalfRes.Downsample2x2 | gutted-proto/src/lib.rs:1228-1253 | the row loops build the box-filtered image whose pixels `HalfRes.DownsampledAt` gives |
| HalfRes.Upsample2x2 | gutted-proto/src/lib.rs:1255-1285 | the row loops build the bilinear image whose pixels `HalfRes.UpsampledAt` gives |
| HalfRes.DownsampledAt | gutted-proto/src/lib.rs:1228-1253 | each quarter pixel is opaque and, per colour, the sum of the four pixels of its block plus two, divided by four; an odd edge repeats its last row or column |
| HalfRes.UpsampledAt | gutted-proto/src/lib.rs:1255-1285 | by the parity of its coordinates each pixel is a copy, the rounded average of two, or the average of four named quarter pixels, and opaque |
| HalfRes.RoundTripWithin | gutted-proto/src/lib.rs:1228-1285 | every reconstructed colour lies within any bounds of the source blocks it draws from, its own included, for all sizes |
| HalfRes.FlatAreaExact | gutted-proto/src/lib.rs:1228-1285 | a flat neighbourhood is reconstructed exactly |
| HalfRes.BrightCornerFades | gutted-proto/src/lib.rs:1228-1285 | a lone bright pixel does not survive at any size: 255 comes back as 64 |
| PixelPayload.WritePayloadGeom | gutted-proto/src/lib.rs:1287-1307 | appends what the mode prescribes: raw, LZ4, filtered LZ4 twice, or the half-resolution image |
| PixelPayload.ReadPayloadGeom | gutted-proto/src/lib.rs:1309-1341 | agrees with the specified reading for every mode, errors included |
| PixelPayload.ReadModes | gutted-proto/src/lib.rs:1309-1341 | mode 0 is the pixels themselves, mode 1 one LZ4 block, unknown modes are refused |
| PixelPayload.PlainRoundTrip | gutted-proto/src/lib.rs:1287-1341 | mode 1 gives the pixels back if and only if they fit the cap |
| PixelPayload.DeltaRoundTrip | gutted-proto/src/lib.rs:1287-1370 | mode 2 gives the pixels back if and only if they and the inner stage fit the cap and the filter loses nothing |
| PixelPayload.PayloadRoundTrip | gutted-proto/src/lib.rs:1287-1341 | every sendable payload reads back as itself, or as its half-resolution image |
| PixelPayload.HalfResRoundTrip | gutted-proto/src/lib.rs:1287-1341 | mode 3 reads back the reconstruction, of the announced length |
| Wire.ReadDrawCmdsLoop | gutted-proto/src/lib.rs:1020-1027 | the loop collects exactly the announced number of commands, or the first error |
| WireRoundTrip.DrawCmdInverts | gutted-proto/src/lib.rs:1145-1221 | every drawing command reads back |
| WireRoundTrip.UpdateInverts | gutted-proto/src/lib.rs:652-849 | a layer update reads back with its masked-out fields at their defaults |
| WireRoundTrip.FrameInverts | gutted-proto/src/lib.rs:875-1114 | pixel messages read back with the pixels their mode shows |
| WireRoundTrip.PayloadInverts | gutted-proto/src/lib.rs:652-1114 | decoding any payload a sendable message may have gives what the receiver is meant to get, for all forty kinds |
| WireLayout.ReadersAt | gutted-proto/src/lib.rs:175-205 | every fixed-width reader gives the field at its offset, low byte first, and goes on behind it, or finds the end |
| WireLayout.SessionLayout | gutted-proto/src/lib.rs:875-1114 | resize, heartbeat, navigation, stop, clearing and authentication messages from arbitrary bytes: which byte is which field, and the error for every other length |
| WireLayout.GreetingLayout | gutted-proto/src/lib.rs:875-1114 | greetings, addresses and node ids: fixed fields, then the text |
| WireLayout.InputLayout | gutted-proto/src/lib.rs:875-1114 | pointer, key and zoom messages from arbitrary bytes, and the error for every other length |
| WireLayout.ButtonLayout | gutted-proto/src/lib.rs:875-1114 | button messages from arbitrary bytes; scroll messages with the four phases, other phases refused |
| WireLayout.PageLayout | gutted-proto/src/lib.rs:875-1114 | loading state and cursor messages; the fifteen shapes by number, others refused |
| WireLayout.PageTextLayout | gutted-proto/src/lib.rs:875-1114 | title and address messages |
| WireLayout.TabLayout | gutted-proto/src/lib.rs:1049-1085 | closing, switching and activation messages from arbitrary bytes, and the error for every other length |
| WireLayout.TabTextLayout | gutted-proto/src/lib.rs:1049-1085 | tab creation by the client, tab titles and tab addresses |
| WireLayout.CreatedLayout | gutted-proto/src/lib.rs:1062-1067 | the echo of a created tab: number, title, address |
| WireLayout.FrameLayout | gutted-proto/src/lib.rs:940-999 | full frames and tiles: 21 bytes of fields, then the pixels in the mode of byte 20 |
| WireLayout.SubframeLayout | gutted-proto/src/lib.rs:977-989 | subframes: 25 bytes of fields, then the pixels in the mode of byte 24 |
| WireLayout.MediaLayout | gutted-proto/src/lib.rs:1028-1048 | audio and video messages: fixed fields, then the data |
| WireLayout.AssetLayout | gutted-proto/src/lib.rs:1000-1019 | tile references from arbitrary bytes, and assets |
| WireLayout.DrawingLayout | gutted-proto/src/lib.rs:1020-1027 | drawing messages: time, layer, count, and as many commands |
| WireLayout.DrawLayout | gutted-proto/src/lib.rs:1180-1221 | every drawing command but text: kind, fields and what follows; other kinds refused |
| WireLayout.TextLayout | gutted-proto/src/lib.rs:1180-1221 | text drawing: kind, fields, text and what follows |
| WireLayout.ContentLayout | gutted-proto/src/lib.rs:1127-1141 | what a layer shows, by kind; other kinds refused |
| WireLayout.SceneLayout | gutted-proto/src/lib.rs:975-976 | layer removal and scene commits from arbitrary bytes, and the error for every other length |
| WireLayout.LayerLayout | gutted-proto/src/lib.rs:951-961 | new layers: 38 bytes of fields with the six transform entries and the four kinds, then the content |
| WireLayout.UpdateLayout | gutted-proto/src/lib.rs:962-974 | a layer update with all five mask bits set: the fields in their order |
| WireLayout.PartialLayout | gutted-proto/src/lib.rs:962-974 | a layer update with one mask bit set: that field alone, defaults for the others |
| WireLayout.UnknownTags | gutted-proto/src/lib.rs:1110 | every tag that no message has is refused, whatever follows |
| Framing.EncodePayload | gutted-proto/src/lib.rs:652-849 | appends a payload of the message and nothing else |
| Framing.LengthVarint | gutted-proto/src/lib.rs:575-605 | the stack buffer holds the LEB128 form of the length |
| Framing.PatchLength | gutted-proto/src/lib.rs:575-605 | the overlapping move and the patch leave head, length and payload in place for every length |
| Framing.Encode | gutted-proto/src/lib.rs:575-605 | earlier bytes stay, and exactly one frame tag, length, payload of the message is appended |
| Framing.FrameLayout | gutted-proto/src/lib.rs:853-873 | a tag, a length and any bytes: refused above 16 MiB, incomplete, or exactly that payload decoded and the rest left |
| Framing.FrameRoundTrip | gutted-proto/src/lib.rs:575-873 | a frame is consumed exactly and gives the message, whatever follows; above the cap it is refused |
| Framing.DecodeStable | gutted-proto/src/lib.rs:853-873 | appending input changes no verdict other than "need more" |
| Framing.DecodePrefix | gutted-proto/src/lib.rs:853-873 | every strict prefix of a frame asks for more input |
| Framing.DecodeAllSplits | gutted-proto/src/lib.rs:853-873 | draining may be interrupted anywhere; an error is final |
| Framing.StreamRoundTrip | gutted-proto/src/lib.rs:575-873 | a stream of frames drains to exactly the messages sent, with nothing left |
| Framing.EncodeAll | gutted-host-rs/src/main.rs:55-64 | messages within the cap, encoded one after another, form a stream of exactly their frames |
| Streams.ReadNext | gutted-host-rs/src/main.rs:808-872 | the message read and the bytes kept depend on the stream and its ending alone, not on its chunks; with no complete frame left, a finished stream is a clean end exactly when no byte is left and else cut by exactly the bytes left, a lost connection a clean end exactly at the host with no byte left, and a failed read always a failure |
| Streams.ReadAll | gutted-client/src/lib.rs:427-456 | repeated reading yields all messages up to the first failure, and the same endings, told apart by the bytes that are left |
| Streams.NetPass | gutted-client/src/lib.rs:276-377 | one pass applies all complete messages and keeps exactly the undecoded rest, also on error |
| Streams.IngestWireBytes | gutted-client/src/render.rs:996-1015 | applies all complete messages and drops them, except on error, when it drops nothing |
| Streams.ChunkingIrrelevant | gutted-client/src/render.rs:996-1015 | on an error-free stream every way of cutting it gives the same messages and rest |
| Streams.RestIsPartial | gutted-proto/src/lib.rs:853-873 | what an error-free drain leaves is a partial frame; otherwise it starts with the offending bytes |
| Streams.ErrorIsSticky | gutted-client/src/lib.rs:276-377 | after an error no further message is delivered |
| Streams.IngestRepeats | gutted-client/src/render.rs:996-1015 | after an error a further call finds the same messages and the same error again |
| Streams.IngestStream | gutted-client/src/render.rs:996-1015 | a call after each chunk applies and keeps what the fold over the chunks says, error branch included |
| Streams.IngestOnce | gutted-client/src/render.rs:996-1015 | every message of a stream is applied exactly once if and only if no call before the last fails with messages already decoded in its buffer |
| Streams.StopIsAppliedTwice | gutted-client/src/render.rs:996-1015 | a STOP frame before an unknown tag is applied twice when one more byte arrives |
| Screen.SuffixReplay | gutted-client/src/render.rs:1062-1094 | replaying any suffix of what was shown changes no pixel |
| Screen.EventFields | gutted-client/src/render.rs:115-187 | which fields of frames, subframes and tab messages reach the client |
| Screen.ShowsIsLastWrite | gutted-client/src/render.rs:115-187 | what a message sequence shows is the last write of its render events |
| Diff.UpdateRowBounds | gutted-host-rs/src/main.rs:1121-1164 | the bounds grow to take in exactly the differing columns of the row, each moving only onto a difference |
| Diff.DirtyRows | gutted-host-rs/src/main.rs:1169-1265 | each row is marked dirty exactly when a visible pixel differs, with count, first and last |
| Diff.FindRuns | gutted-host-rs/src/main.rs:1169-1265 | dirty rows are grouped into runs with no gap longer than four, at least five clean rows apart |
| Diff.RunColumns | gutted-host-rs/src/main.rs:1169-1265 | incremental widening over a run's dirty rows gives the exact column box |
| Diff.DiffRegions | gutted-host-rs/src/main.rs:1169-1265 | in-bounds exact boxes, ordered, row-disjoint, taking in every difference; fast and slow path grouping |
| Diff.RegionsShape | gutted-host-rs/src/main.rs:1169-1265 | at most one box when at least a quarter of the rows differ; else five clean rows or more between boxes, and never five in a row inside one |
| Diff.RegionsUnique | gutted-host-rs/src/main.rs:1169-1265 | two frames determine their regions |
| Diff.OnePixelRegion | gutted-host-rs/src/main.rs:1169-1265 | a single differing pixel is the one region |
| Diff.EmptyIffEqual | gutted-host-rs/src/main.rs:1169-1265 | no region exactly when the visible pixels agree |
| Diff.RegionsAreaBound | gutted-host-rs/src/main.rs:1169-1265 | the areas sum to at most width times height |
| Diff.ExtractSubrect | gutted-host-rs/src/main.rs:1370-1378 | the tight copy holds exactly the rectangle's pixels |
| Diff.PatchingYieldsNewFrame | gutted-host-rs/src/main.rs:1169-1378 | blitting the extracted regions over the old frame gives the new one on every pixel |
| Host.HostState.constructor | gutted-host-rs/src/main.rs:194-228 | one open tab, active, nothing captured or published |
| Host.HostState.ProcessFrame | gutted-host-rs/src/main.rs:238-301 | a frame of the active tab publishes a full frame or a set of patches that turns the old frame into it; other tabs only store it |
| Host.FrameEffects | gutted-host-rs/src/main.rs:238-301 | a frame of another tab publishes nothing; one of the active tab that is forced, the first or of another size goes out whole; state after either |
| Host.UpdateShape | gutted-host-rs/src/main.rs:267-297 | any other frame goes out as one subframe per region, compressed by size, if there are at most sixteen of less than four fifths of the area, as one full frame otherwise, and not at all without a difference |
| Host.OnePixelUpdate | gutted-host-rs/src/main.rs:267-297 | one changed pixel is sent as exactly one 1x1 subframe of it, unless the frame has no other pixel |
| Host.TabEffects | gutted-host-rs/src/main.rs:377-421 | state and messages of opening, switching to and closing a tab, in full |
| Host.NewsEffects | gutted-host-rs/src/main.rs:313-361 | state and messages of loading, title, address, cursor and audio reports, in full |
| Host.HostState.ProcessBatch | gutted-host-rs/src/main.rs:230-302 | of everything waiting only the newest frame of each tab is processed, each by one frame step |
| Host.NewestIsLast | gutted-host-rs/src/main.rs:230-236 | the batch keeps, for each tab, the last frame that arrived |
| Host.HostState.OnLoad | gutted-host-rs/src/main.rs:313-324 | starting and committing force a full frame; the active tab's state is published |
| Host.HostState.OnTitle | gutted-host-rs/src/main.rs:325-336 | the title is stored and published, twice for the active tab |
| Host.HostState.OnUrl | gutted-host-rs/src/main.rs:337-349 | the address is stored and published, and the next frame will be full |
| Host.HostState.CreateTab | gutted-host-rs/src/main.rs:377-389 | the tab is open and, if asked, active |
| Host.HostState.SwitchTab | gutted-host-rs/src/main.rs:391-410 | the tab is active; an open one publishes its stored frame, title, address and activation, in that order |
| Host.HostState.CloseTab | gutted-host-rs/src/main.rs:412-421 | the tab and its stored frame are gone |
| Host.HostState.Snapshot | gutted-host-rs/src/main.rs:78-95 | the active tab's stored frame as a full frame, or nothing |
| Mirror.UpdateShows | gutted-host-rs/src/main.rs:238-301 | what is published for a frame turns any picture of the frame before into one of it |
| Mirror.SwitchMirrors | gutted-host-rs/src/main.rs:391-410 | after a switch to an open tab the subscriber shows that tab's stored frame |
| Mirror.StepMirrors | gutted-host-rs/src/main.rs:230-421 | every host step keeps the mirror: shown picture and active tab's last frame agree on all visible pixels |
| Mirror.SwitchSafety | gutted-host-rs/src/main.rs:391-410 | a switch keeps every mirror if and only if the tab is open, or has no stored frame, or its stored frame lies within the picture already up |
| Mirror.LateFrameArises | gutted-host-rs/src/main.rs:230-421 | opening, leaving and closing a tab whose last frame arrives late leads a new host to a closed tab with a stored frame |
| Mirror.SwitchToClosedTab | gutted-host-rs/src/main.rs:391-410 | a new host can get into a state in which a switch to a closed tab is not safe |
| Fanout.SupersedeInvisible | gutted-host-rs/src/main.rs:671-685 | dropping a superseded message is invisible exactly when the newer one is drawn or the older is not |
| Fanout.DrainCoalescing | gutted-host-rs/src/main.rs:669-712 | the drain loop sends, in order, exactly the messages that the next one does not make superfluous: a frame before a full frame, a subframe before one that contains it; of full frames alone only the last |
| Fanout.SendsExactly | gutted-host-rs/src/main.rs:669-712 | the positions of the messages sent are exactly those not followed by a message that makes them superfluous |
| Fanout.OnlyLastFrame | gutted-host-rs/src/main.rs:669-712 | a queue of full frames sends its last one |
| Fanout.SentSuperfluous | gutted-host-rs/src/main.rs:669-712 | a message sent may still be made superfluous by the next one sent, if and only if what came between them in the queue was dropped |
| Fanout.LeftBehindBySubframe | gutted-host-rs/src/main.rs:669-712 | only a subframe that is itself dropped has that effect |
| Fanout.StaleFrameSent | gutted-host-rs/src/main.rs:669-712 | a full frame, any subframe and a full frame send both full frames |
| Fanout.CoalesceSelects | gutted-host-rs/src/main.rs:948-977 | what is sent is a subsequence of what was queued |
| Fanout.CoalescePreserves | gutted-host-rs/src/web.rs:161-188 | every other message is kept in order and meets the same picture as without coalescing, and so does the end |
| Fanout.DrainIsCoalesce | gutted-host-rs/src/main.rs:669-712 | the step-by-step writer, undisturbed, sends the coalesced queue |
| Fanout.EmptiedSends | gutted-host-rs/src/main.rs:669-712 | the step-by-step writer, undisturbed, adds to the wire exactly the messages not made superfluous; of full frames alone the last |
| Fanout.WriterEffects | gutted-host-rs/src/main.rs:643-729 | joining and a loss met by `recv` put a full frame of the active tab on the wire before the queue; a loss met by `try_recv` nothing |
| Fanout.QueueKeepsLast | gutted-host-rs/src/main.rs:52 | the queue holds the last 256 unread messages, and exactly the earlier ones are lost |
| Fanout.SnapshotReplay | gutted-host-rs/src/main.rs:714-723 | a snapshot followed by queued messages it already includes still shows the active frame |
| Fanout.RunKeepsInvariant | gutted-host-rs/src/main.rs:643-729 | the invariant holds in every state of every run of frames, tab operations, overflow, coalescing and resynchronisation |
| Fanout.LossInvisible | gutted-host-rs/src/main.rs:669-723 | giving messages up is invisible at a pixel if and only if none of them was the last to touch it with something not delivered before |
| Fanout.MirrorsExactly | gutted-host-rs/src/main.rs:643-729 | in every state of every run, sent plus pending shows the active tab's last frame if and only if no loss left a visible pixel stale |
| Fanout.SubscriberMirrorsHost | gutted-host-rs/src/main.rs:933-987 | whatever was skipped or coalesced, it does so whenever every loss was answered by a full frame |
| Fanout.SwallowExactly | gutted-host-rs/src/main.rs:669-712 | one swallowed report is harmless if and only if at every visible pixel the queue repaints it, the lost messages do not touch it, or they show what was sent already |
| Fanout.BatchReaches | gutted-host-rs/src/main.rs:230-302 | a processed batch is a sequence of moves: from a reachable state it leads to one, with its messages queued in order |
| Lag.SwallowedLag | gutted-host-rs/src/main.rs:949-985 | some run of a new host delivers everything and still shows an old frame |
| WebSocket.RawFrameUnique | gutted-host-rs/src/web.rs:242-276 | an uncompressed frame message has exactly one encoding |
| WebSocket.EncodeWsItem | gutted-host-rs/src/web.rs:242-276 | the hand-inlined encoder writes what the general encoder would with compression set to raw; other messages pass through |
| WebSocket.WsEvent | gutted-host-rs/src/web.rs:242-276 | raw frames arrive as the events they were published for |
| WebSocket.TcpEvent | gutted-proto/src/lib.rs:1287-1341 | compressed frames do so unless sent at half resolution |
| WebSocket.SnapshotOrder | gutted-host-rs/src/web.rs:121-161 | written after some updates, the snapshot is harmless if and only if at every visible pixel a later update repaints it, those updates do not touch it, or they leave there what it shows |
| WebSocket.SnapshotMustGoFirst | gutted-host-rs/src/web.rs:121-161 | from a state a new host gets into, one step and the late snapshot take the picture back |
| Framebuffer.BlitSpan | gutted-client/src/render.rs:835-843 | exactly the span's cells take the source pixels: blue, green and red byte from low to high, nothing above |
| Framebuffer.WordBytes | gutted-client/src/render.rs:835-843 | a pixel's word holds its first byte lowest, then the second and the third, and nothing of the fourth |
| Framebuffer.WordOfPad | gutted-client/src/render.rs:1858-1884 | the padding word is 0x0F0F12 |
| Framebuffer.FillSpan | gutted-client/src/render.rs:1869-1871 | exactly the span's cells take the colour |
| Framebuffer.FillRows | gutted-client/src/render.rs:1873-1876 | exactly the cells from a row on, within the window, take the colour |
| Compositor.EnqueuePaints | gutted-client/src/render.rs:1062-1094 | queueing an event has, once painted, the effect of that event alone |
| Compositor.EnqueueEffects | gutted-client/src/render.rs:1062-1094 | an acceptable frame replaces the queue and marks everything, an acceptable subframe is queued last, anything else changes nothing |
| Compositor.PaintsPrescribed | gutted-client/src/render.rs:1858-1939 | painting leaves at each pixel the bytes of the last subframe over it, else of the newest frame, else padding where one is due, else what was there |
| Schedule.BatchingIrrelevant | gutted-client/src/render.rs:1059-1094 | for any events and any rendering points, a final pass shows the last write of the events |
| Schedule.FrameSettles | gutted-client/src/render.rs:1062-1077 | after a full frame nothing earlier matters, tab changes included |
| Schedule.BlankKeeps | gutted-client/src/render.rs:1207-1223 | in one state, exactly when a stale mark changes nothing at a pixel |
| Schedule.BlankDependsOnSchedule | gutted-client/src/render.rs:1207-1223 | the same events with and without a pass in between end differently |
| Schedule.Outcome | gutted-client/src/render.rs:1059-1223 | for any events, tab changes and passes, what a pixel may end as: its last write, or after a last tab change padding or what was written |
| Schedule.ScheduleIrrelevant | gutted-client/src/render.rs:1059-1223 | every placing of passes shows the same at a pixel if and only if no tab change came, or a write followed the last one, or nothing was written, or padding last |
| Compositor.PaintFrame | gutted-client/src/render.rs:1858-1884 | the content area shows the frame where it reaches and padding elsewhere; the rest is untouched |
| Compositor.PaintSubframe | gutted-client/src/render.rs:1915-1939 | exactly the clipped rectangle shows the subframe, and is the reported damage |
| Compositor.PaintSubframes | gutted-client/src/render.rs:1915-1939 | the queued subframes in order leave each pixel as the last of them wrote it |
| Client.EchoKeepsDistinct | gutted-client/src/render.rs:1169-1223 | host events keep tab ids distinct and below the counter |
| Client.EchoEffects | gutted-client/src/render.rs:1169-1223 | ids, order, addresses, counter and active tab after each host event |
| Client.EchoKeepsOk | gutted-client/src/render.rs:1169-1223 | they keep the list well formed exactly when the last tab is not closed and no unknown tab activated |
| Client.BrowserCore.constructor | gutted-client/src/render.rs:897-944 | one tab, active, everything to be drawn |
| Client.BrowserCore.HandleRenderEvent | gutted-client/src/render.rs:1059-1223 | queues, tab list, dirty flags and frame count after any event; the content turns stale exactly when the active tab changes |
| Client.BrowserCore.RenderInto | gutted-client/src/render.rs:1829-1966 | below row 96 every cell holds the bytes that the queue prescribes, or is as before; the bars are redrawn when dirty, nothing beyond the window changes, and the damage is in bounds and exactly what was painted |
| WindowLoop.HandleAll | gutted-client/src/render.rs:2304-2319 | draining a batch makes its tab changes, and queues what arrives and marks the content stale in order |
| WindowLoop.RunLoop | gutted-client/src/render.rs:2304-2338 | tab list, queue and every content cell after any batches, from any state, are those of the schedule of events, tab changes and passes |
| WindowLoop.PassesUnrendered | gutted-client/src/render.rs:2304-2338 | without its passes that schedule is the events in order, whatever the batches |
| WindowLoop.LoopOutcome | gutted-client/src/render.rs:2304-2338 | whatever the batches, a pixel ends as its last write, or after a last tab change as padding or what was written |
| WindowLoop.LoopIrrelevant | gutted-client/src/render.rs:2304-2338 | all ways of cutting the events into batches show the same at a pixel if and only if the events settle it |
| TabSwitch.SwitchPads | gutted-host-rs/src/main.rs:391-410 | the messages of a switch show a client on another tab the frame in one batch, and padding with a pass in between |
| TabSwitch.SwitchThatPads | gutted-host-rs/src/main.rs:377-421 | a new host gets into a state whose next switch does so to a new client |
| Client.BrowserCore.NewTab | gutted-client/src/render.rs:1499-1520 | the specified transition and command; content stale |
| Client.BrowserCore.CloseActive | gutted-client/src/render.rs:1521-1539 | the specified transition and commands; content stale exactly when the active tab changes |
| Client.BrowserCore.NextTab | gutted-client/src/render.rs:1571-1592 | the specified transition and command; content stale exactly when the active tab changes |
| Client.BrowserCore.ClickTabAt | gutted-client/src/render.rs:1650-1693 | the specified transition and commands; content stale exactly when the active tab changes |
| Tabs.ActEffects | gutted-client/src/render.rs:1499-1719 | the tab list in order, the active tab, the counter and the commands after each action: a new id is fresh, next-tab cycles, closing the active tab moves to the first one left |
| Tabs.ActKeeps | gutted-client/src/render.rs:1499-1719 | any action keeps the list non-empty, ids distinct and below the counter, the active one present, and the obeying host in step |
| Tabs.ObeyIsStep | gutted-host-rs/src/main.rs:377-421 | each command a client sends is a step of the host |
| Tabs.SessionKeepsSync | gutted-client/src/render.rs:1499-1719 | after any session, a host that obeyed the commands in order has the same tabs open and the same one active |
| Tabs.ActSwitchesToOpen | gutted-client/src/render.rs:1499-1719 | no command switches the host to a tab that is not open there |
| EndToEnd.LosslessBelowThreshold | gutted-host-rs/src/main.rs:279-297 | every picture sent in regions of one size arrives unchanged at every pixel if and only if the size is below 96,000 pixels |
| EndToEnd.RawFits | gutted-host-rs/src/web.rs:242-276 | within the cap every message the host publishes can be sent uncompressed |
| EndToEnd.CarriedShows | gutted-host-rs/src/main.rs:933-947 | sent losslessly or raw, with replies anywhere in between, any message sequence shows the same after decoding |
| EndToEnd.StreamArrives | gutted-client/src/lib.rs:276-377 | whatever the chunks, the client decodes exactly the messages written |
| EndToEnd.ReachableMirrors | gutted-host-rs/src/main.rs:643-729 | in every reachable state a caught-up subscriber was sent acceptable messages, and they show the active tab's last frame if and only if no loss left it stale |
| EndToEnd.PictureArrives | gutted-client/src/lib.rs:276-377 | the decoded events write the host's last frame at every visible pixel if and only if no loss left it stale |
| EndToEnd.HostFrameOnScreen | gutted-client/src/render.rs:1829-1966 | after any run that left no stale loss, for any encoding, replies, chunking and batching, from any client state, every cell below row 96 that the host's last frame reaches holds the blue, green and red byte of its pixel, or 0x0F0F12 where the client's active tab changed after the last write |
| EndToEnd.DeliverRaw | gutted-host-rs/src/web.rs:242-276 | sending a caught-up subscriber's messages uncompressed, one after another, delivers them |
| EndToEnd.SendAndShow | gutted-client/src/lib.rs:276-377 | encoded, sent, drained, queued and painted, the host's last frame is on screen, with the same exception |

## Left out

- Web engine, QUIC, TLS, TCP, HTTP and WebSocket transport, audio, clocks, screenshots: input and output. Frames and
  timestamps are parameters, a connection is a sequence of chunks and an ending, the broadcast channel a bounded queue.
- Interleavings inside one processed frame or one tab switch: each is one step. The program loads the active tab and
  publishes later, and a switch can come in between.
- Publishing without any subscriber, which the program skips: the model records every message and a subscriber
  starts with what is published after it subscribes.
- 64-bit `usize` overflow, buffer capacity and allocation: lengths are unbounded. 32-bit truncation of lengths is
  modelled.
- Streaming `&mut Vec<u8>` and `&mut &[u8]` arguments are values in and out; straight-line field writers and readers
  are functions, loops are methods.
- Lz4Codec.Lz4EncodeInto: which repeats are found depends on what the hash table still holds; the contract says that the
  block stands for the input, how long it may get and that flat images are packed, not how well other data is.
- EndToEnd.HostFrameOnScreen: claims exactness for messages sent raw or losslessly; half-resolution regions of 96,000
  pixels or more are only bounded by `HalfRes.RoundTripWithin`. A WebSocket subscriber is taken to be written its
  snapshot before its updates; `WebSocket.SnapshotOrder` says when another order shows the same.
- Client.BrowserCore.RenderInto: the bars above the content area are an arbitrary image, no toast, synthetic cursor or
  audio indicator is drawn, and cached tab buffers are absent because nothing ever fills them. The window width times
  the bar height is not truncated to 32 bits.
- Client.BrowserCore.HandleRenderEvent: covers frames, subframes and tab creation, closing and activation; tiles,
  titles, addresses and loading state do not reach the modelled fields. `pending_damage` only wakes the window loop
  and is absent.
- Diff.UpdateRowBounds: the aligned word path and the byte path compare the same pixels and are one path here.
- Hit testing of the bars, resizing, the address field and other keys: a click is already the tab it hits.
- Convergence of the client's tab list with the host's echoes: they arrive on two unordered channels.
- UTF-8 validation is a predicate on bytes; text is a byte sequence.
- The tab counter must not reach the largest 32-bit id (`Tabs.Enabled`).
