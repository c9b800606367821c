# jpod, modelled and proved

jpod is a container daemon: it pulls images, keeps networks for containers, and talks to its clients
over a framed socket. This project models the parts of it that carry its state and arithmetic, and
proves what they promise for all inputs, all runs and all answers of their surroundings.

- **Range download** (`RangeDownload`, `RangeRuns`, `ContentRange`): a file fetched range by range
  from any honest server, in 64-bit arithmetic; the sink ends up with exactly the file.
  `Replies` and `TextRuns` carry the result from the numbers down to the text of the replies, and
  `PullContents` up to the files of a whole image pull.
- **Framed connection** (`Frames`, `FrameReader`, `SendingQueue`, `Dispatch`): encoder, four-state
  reader, outgoing queue and handler switch, each exact, composed end to end.
- **Networks** (`Cidr`, `AddressProvider`, `Ipv6Range`, `NetworkService`, `Bridge`): CIDR bit
  arithmetic, the allocator, its agreement with the membership repository, and the compensation
  protocol that bridges a container.
- **Image pulls** (`OciPipeline`, `ImageReference`): resolution and download of layers driven by
  callbacks; normalised image references.
- **HTTP header blocks** (`HeaderEnd`, `HeaderBlock`): automaton, printer, search and parser on the
  same bytes.
- **Mount options** (`MountFlags`).

`Wrappers`, `Sequences`, `Text`, `Decimal`, `Division` and `Bytes` are the vocabulary the others share.

Objects that update their fields are classes. Each method is proved against a function of its old
state, and runs, interleavings and histories are stated over those functions. What the outside
answers (system calls, storage, servers, the order in which asynchronous operations end) is a
parameter or an event, chosen freely. Ghost fields hold histories: bytes on the wire, requests made,
reports given, operations in flight.

`dafny verify dfyconfig.toml` checks the whole project.

## Where the code does not keep the promise

Each of these is proved as an exact condition, with the code kept as it is; where an example is named
it is a concrete input on which the promise fails.

- A reply short of the end of the file whose body arrives wholly with its header makes the client
  report completion early (`RangeRuns.DownloadIsExact`, `RangeRuns.PrematureExample`).
- Where the length of a reply and the next offset together reach 2^64, the next range is malformed
  (`RangeRuns.NextRequestExactly`). Which files and chunks an honest server can bring to that point
  is `RangeRuns.AddressableExactly`; `RangeRuns.OverflowExample` is one of them.
- A download appends to what its file already holds, so pulling an image again onto files still in
  place corrupts them, and so does a manifest that lists a digest twice (`RangeRuns.DownloadIsExact`,
  `RangeRuns.LeftoverExample`; `PullContents.FilesExactly`, `PullContents.DoubledExample`,
  `PullContents.GluedExample`).
- A payload larger than the 1024-byte stream buffer puts the frame reader out of step
  (`FrameReader.InStepExactly`, `FrameReader.OversizedExample`).
- A write that reports zero bytes stalls the queue for good, and one cut short loses the rest of its
  frame (`SendingQueue.BusyExactly`, `SendingQueue.ZeroWriteExample`; `SendingQueue.WireExactly`,
  `SendingQueue.CutWriteExample`).
- Reserving addresses in a block with a prefix above 30 never ends
  (`AddressProvider.ReservationEnds`); an IPv6 block with a whole-octet prefix is empty
  (`Ipv6Range.EndAddress`).
- A join that fails after the allocation, a leave whose row is not erased, and a network added anew
  beside remembered members leave allocator and repository apart (`NetworkService.JoinAgreesExactly`,
  `NetworkService.RefusedJoinExample`; `NetworkService.LeaveAgreesExactly`,
  `NetworkService.KeptRowExample`; `NetworkService.AddAgreesExactly`,
  `NetworkService.RememberedMemberExample`).
- A child that destroys the pair and is then killed, or exits with 0, passes for a success
  (`Bridge.SuccessJoinsExactly`, `Bridge.KilledChildExample`).
- Leaving a bridge removes the pair only once the container has given its end back, and even then
  reports an error (`Bridge.LeaveRestoresExactly`, `Bridge.LeaveReportsExactly`).
- A doubled carriage return hides the end of a header (`HeaderEnd.FiresAtFirstExactly`, `HeaderEnd.DoubledCrHidesEnd`).

## Model

| member | source | states |
|---|---|---|
| RangeDownload.LayerDownloadTask.Write | src/core/oci/layer_download_task.cc:49-55 | Appends exactly the given bytes to the file and reports their number. |
| RangeDownload.FileTransferClient.OnHeadResponse | src/core/http/file_transfer_client.cc:192-209 | A HEAD reply sets the status and asks for the first chunk, 0 to min(chunk, total) - 1, in 64-bit arithmetic. |
| RangeDownload.FileTransferClient.RequestPartialContent | src/core/http/file_transfer_client.cc:293-345 | One more request, for the current range; the client then waits for its reply. |
| RangeDownload.FileTransferClient.ReadPartialContent | src/core/http/file_transfer_client.cc:347-354 | Nothing left to read is taken for the end of the download. |
| RangeDownload.FileTransferClient.OnBodyRead | src/core/http/file_transfer_client.cc:362-391 | The rest of a body goes to the sink; either the next range is asked for or completion is reported. |
| RangeRuns.FirstRequestExactly | src/core/http/file_transfer_client.cc:200-208 | The first range lies in the file iff the file and the chunk are not empty. |
| RangeRuns.NextRequestExactly | src/core/http/file_transfer_client.cc:373-383 | The next range lies in the file iff chunk size plus offset does not overflow 64 bits, and is then a chunk or all that is left, at most one byte more than a chunk. |
| RangeRuns.RoundGoesOn | src/core/http/file_transfer_client.cc:347-391 | When a round ends the download, and otherwise where the next request starts and ends. |
| RangeRuns.NoticesAreOrdered | src/core/oci/layer_download_task.cc:88-115 | The listener hears one start first, strictly growing offsets, and completion once, last, iff the download has ended. |
| RangeRuns.DisjointExactly | src/core/http/file_transfer_client.cc:373-383 | Consecutive ranges are disjoint iff the reply between them was whole. |
| RangeRuns.RequestCountExact | src/core/http/file_transfer_client.cc:373-391 | With whole replies and first chunk C of T bytes: 1 request if T <= C, otherwise 1 + max(1, ceil((T-C-1)/C)). |
| ContentRange.ContentRangeRoundTrip | src/core/http/file_transfer_client.cc:171-177 | A well-formed Content-Range (section 14.4 of RFC 9110) is read back exactly, in any unit. |
| Replies.Hash | include/core/http/response.h:22-30 | The name hash loop computes the fold of the lower-cased characters. |
| Replies.SameHashAlike | include/core/http/response.h:19-41 | Names equal up to case have one hash, for every character hash, so a look-up finds them. |
| Replies.OnReceived | src/core/http/file_transfer_client.cc:152-209 | Search for the empty line, parse, look fields up, dispatch on HEAD or GET: the client takes exactly the specified step or is left alone. |
| Replies.ReceiveAnnounced | src/core/http/file_transfer_client.cc:155-209 | A printed reply with any other fields, and any bytes behind it, makes the client take the step for its announced length and range. |
| Replies.ReceiveOffer | src/core/http/file_transfer_client.cc:169-191 | The same for every text that announces a length and numbers. |
| Replies.StandardOffer | src/core/http/file_transfer_client.cc:171-179 | A reply with the standard Content-Range is such a text. |
| TextRuns.TextRunIsRun | src/core/http/file_transfer_client.cc:133-391 | A download over reply texts is the download over replies, step for step. |
| Frames.ComposeFrame | src/core/connections/connection.cc:33-62 | The header vector filled slot by slot and the payload are the encoding of the message, in all three length forms. |
| Frames.MasksDisjoint | include/core/connections/connection.h:35-36 | Target and operation come back out of the shared first byte. |
| FrameReader.FrameReader.Arrive | src/core/connections/connection.cc:81-212 | Arriving bytes are processed as far as the specification of the reader processes them. |
| FrameReader.FrameReader.OnRead | src/core/connections/connection.cc:81-212 | Each completion handler takes the specified transition and delivers at most one payload. |
| FrameReader.FrameReader.AccumulateLength | src/core/connections/connection.cc:155-212 | The shift-and-add loops compute the big-endian value. |
| FrameReader.FrameReader.ReadContent | src/core/connections/connection.cc:137-144 | Reading past the end of the buffer fills the payload up with end-of-file octets. |
| FrameReader.DrainSplit | src/core/connections/connection.cc:81-212 | How the stream is cut into arrivals makes no difference, for every stream and state. |
| FrameReader.FeedIsDrain | src/core/connections/connection.cc:81-212 | Any number of arrivals gives what their concatenation gives. |
| FrameReader.FrameSurvives | src/core/connections/connection.cc:125-154 | A frame is delivered whole, with the reader exactly at its end, iff its payload fits the stream buffer. |
| FrameReader.StreamRoundTrip | src/core/connections/connection.cc:33-212 | Reading the concatenated frames of any list of fitting messages yields exactly that list; with the limit 2^64 this covers every vector. |
| FrameReader.InStepExactly | src/core/connections/connection.cc:21 | The reader stays in step with the writer iff every payload fits. |
| FrameReader.PrefixFree | src/core/connections/connection.cc:33-62 | No frame is a proper prefix of another, and equal frames carry equal messages. |
| SendingQueue.Sender.Write | src/core/connections/connection.cc:33-67 | Encodes, enqueues, and starts writing if the queue was empty. |
| SendingQueue.Sender.SendFromQueue | src/core/connections/connection.cc:214-220 | Starts one write of a copy of the front frame. |
| SendingQueue.Sender.OnWritten | src/core/connections/connection.cc:221-238 | A positive count pops the front and starts the next; zero does nothing. |
| SendingQueue.RunIsFifo | src/core/connections/connection.cc:63-67 | Over every interleaving: at most one write in flight, always the front; frames leave in the order enqueued, none lost or doubled. |
| SendingQueue.BusyExactly | src/core/connections/connection.cc:225-238 | A write is in flight iff the queue is non-empty, throughout a run, iff no completion reports zero bytes. |
| SendingQueue.StalledForever | src/core/connections/connection.cc:225-238 | After such a completion nothing is ever sent again. |
| SendingQueue.WireExactly | src/core/connections/connection.cc:225-227 | The wire is the concatenation of the popped frames iff no write was cut short. |
| SendingQueue.QueueDrains | src/core/connections/connection.cc:214-239 | One completion per waiting frame empties the queue and sends all of them. |
| SendingQueue.EndToEnd | src/core/connections/connection.cc:33-239 | Writer queue, byte stream in any chunks and reader compose to: the first messages written arrive, whole and in order, and with codes as the protocol has them unchanged. |
| Dispatch.KeyCollision | include/core/connections/details.h:20-77 | Two frames have one registry key iff their codes agree, up to all unnamed codes being one. |
| Dispatch.Registry.AddHandler | src/core/commands/command_handler_registry.cc:11-17 | The first registration of a key stays, all other keys are untouched. |
| Dispatch.Dispatcher.HandlePayload | src/core/connections/connection.cc:246-267 | Switches the handler as specified and delivers the payload to the live one, if any. |
| Dispatch.HandlerFollowsLastRegistered | src/core/connections/connection.cc:246-267 | After every frame sequence the live handler is the one made for the last registered key, rebuilt exactly when a registered key differs from the one before. |
| Dispatch.DeliveredToExpected | src/core/connections/connection.cc:246-267 | Each payload goes to that handler. |
| Dispatch.DeliveredOnceInOrder | src/core/connections/connection.cc:246-267 | Every payload from the first registered frame on is delivered exactly once, in order. |
| Cidr.GenerateIpV4Range | src/domain/networking/address_provider.cc:144-161 | The bitset shifts, masks and flips give a - a mod 2^(32-p) and that plus 2^(32-p) - 1, for every address and prefix 0 to 32. |
| Cidr.MaskedRange | src/domain/networking/address_provider.cc:144-161 | The same at every width. |
| Cidr.BlockMembership | src/domain/networking/address_provider.cc:144-161 | An address is in the range iff its top p bits are those of the CIDR (section 3.1 of RFC 4632). |
| AddressProvider.AddressProvider.Initialize | src/domain/networking/address_provider.cc:16-47 | The reservation loop leaves exactly gateway and subnet, at the first two addresses. |
| AddressProvider.ReservationCount | src/domain/networking/address_provider.cc:25-40 | What n rounds of that loop have reserved, for every prefix. |
| AddressProvider.ReservationEnds | src/domain/networking/address_provider.cc:25-40 | The loop reaches its two reservations iff the prefix is at most 30. |
| AddressProvider.AddressProvider.FetchNextAvailableIpV4 | src/domain/networking/address_provider.cc:96-112 | The least address of the half-open range nobody holds. |
| AddressProvider.AddressProvider.FetchNextAvailable | src/domain/networking/address_provider.cc:56-87 | Allocates as specified; a request for IPv6 changes nothing and gets nothing. |
| AddressProvider.AddressProvider.Remove | src/domain/networking/address_provider.cc:130-143 | Drops the identifier and says whether it was there. |
| AddressProvider.RunValid | src/domain/networking/address_provider.cc:56-143 | Over every run of fetches and removals held addresses are pairwise distinct, in the block, never its last. |
| AddressProvider.ExhaustedExactly | src/domain/networking/address_provider.cc:56-70 | Nothing is handed out iff all 2^(32-p) - 1 addresses are held (pigeonhole), even to a holder. |
| AddressProvider.FetchGives | src/domain/networking/address_provider.cc:56-70 | A newcomer gets the least free address; a holder its own, with nothing changed. |
| AddressProvider.NeverSharesAnAddress | src/domain/networking/address_provider.cc:56-70 | No fetch answers with an address another identifier holds, a reserved one included. |
| AddressProvider.ReturnedAddressIsReused | src/domain/networking/address_provider.cc:130-143 | A returned address is free at once, and the next newcomer gets the smaller of it and the least free before. |
| AddressProvider.ConsecutiveFetches | tests/networking/test_address_provider.cc:41-60 | Distinct new identifiers get consecutive addresses from the third of the block on, as the tests expect of single cases. |
| Ipv6Range.AddOctet | src/domain/networking/address_provider.cc:175-196 | One round of the loop keeps value plus weighted carry. |
| Ipv6Range.AddWithCarry | src/domain/networking/address_provider.cc:175-196 | The carry loop adds at its place modulo the width, for arrays of every length. |
| NetworkService.NetworkService.Add | src/domain/networking/network_service.cc:20-68 | State and outcome of adding, for every answer of handler and repository. |
| NetworkService.NetworkService.Join | src/domain/networking/network_service.cc:90-130 | State and outcome of joining, error paths included. |
| NetworkService.NetworkService.BridgeContainer | src/domain/networking/network_service.cc:101-127 | The part of a join after the allocation. |
| NetworkService.NetworkService.Leave | src/domain/networking/network_service.cc:131-157 | State and outcome of leaving, error paths included. |
| NetworkService.AddAgreesExactly | src/domain/networking/network_service.cc:20-68 | Adding keeps allocators and repository in agreement iff it does not create an allocator beside members recorded earlier. |
| NetworkService.JoinAgreesExactly | src/domain/networking/network_service.cc:90-130 | A join keeps the agreement iff the range is full, the container is a member already, or the calls succeed exactly for a name that is not reserved. |
| NetworkService.RunAgrees | src/domain/networking/network_service.cc:20-157 | Over every run of such operations each allocator's identifiers are the two reserved ones and exactly the members. |
| NetworkService.AgreementMeans | src/domain/networking/address_provider.cc:88-95 | Then the count is the member count, and members hold distinct, unreserved addresses. |
| NetworkService.LeaveFrees | src/domain/networking/network_service.cc:131-157 | A leave that goes through frees the address it held. |
| NetworkService.MembersRoundTrip | src/domain/networking/network_service.cc:140-150 | The recorded pair of interface names splits into the two names bridging made. |
| Bridge.Handler.CreatePair | src/domain/networking/freebsd/freebsd_network_handler.cc:262-297 | Both ends exist under the asked names, or the kernel is as before; success exactly if creation and both renames are possible. |
| Bridge.Handler.AddInterfaceToJail | src/domain/networking/freebsd/freebsd_network_handler.cc:148-215 | Which ends of the child count as failures, and when it has destroyed the pair. |
| Bridge.Handler.LeaveBridge | src/domain/networking/freebsd/freebsd_network_handler.cc:216-237 | State and answer of leaving, early returns included. |
| Bridge.BridgeThenLeave | src/domain/networking/freebsd/freebsd_network_handler.cc:94-237 | Bridging, the container giving its end back, leaving: the kernel is as before; leaving earlier does not get there. |
| OciPipeline.OciClient.ResolveNext | src/core/oci/oci_client.cc:436-474 | Resolves the front of the queue, or starts the first layer once it is empty. |
| OciPipeline.OciClient.HeadDone | src/core/oci/oci_client.cc:450-462 | A redirect moves the task; the queue is popped and the next resolution begins. |
| OciPipeline.OciClient.DownloadComplete | src/core/oci/oci_client.cc:118-157 | Pops the finished layer and starts the next, or completes the pull. |
| OciPipeline.OciClient.DownloadFailure | src/core/oci/oci_client.cc:173-192 | Reports the error, forgets the image, pops nothing. |
| OciPipeline.PullIsOrdered | src/core/oci/oci_client.cc:118-474 | For every manifest and run: queues stay suffixes of the manifest, no layer starts before all resolutions have ended, layers start in manifest order from where their HEAD requests say, at most one at a time. |
| OciPipeline.CompletesExactlyOnce | src/core/oci/oci_client.cc:143-156 | Completion is reported at most once and not before the last layer; a run at rest has reported it iff there are layers and none failed. |
| HeaderEnd.HeaderEndMatch.Apply | include/core/http/utility.h:12-47 | One call on one buffer continues the scan where the counters left it. |
| HeaderEnd.ScanSplit | include/core/http/utility.h:12-51 | Every split of the input into buffers gives the same answer. |
| HeaderEnd.ScanFindsFirst | include/core/http/utility.h:12-47 | The automaton stops at the first position that follows two line feeds or an odd run of carriage returns, LF, CR, LF, and nowhere else. |
| HeaderEnd.FiresAtFirstExactly | include/core/http/utility.h:29-38 | It fires at the first empty line iff that is two line feeds or its first line break follows no even run of carriage returns. |
| HeaderEnd.FiresAtFirst | include/core/http/utility.h:12-47 | On input without two adjacent carriage returns it fires at the first empty line. |
| HeaderEnd.DoubledCrHidesEnd | include/core/http/utility.h:29-38 | An input on which it misses an empty line. |
| HeaderBlock.ComposeRequest | include/core/http/request.h:21-44 | The loop prints request line, the two fixed fields and all headers in order, and an empty line. |
| HeaderBlock.AutomatonFindsEnd | include/core/http/utility.h:12-47 | For a printed block and any body the automaton fires exactly at the block's end. |
| HeaderBlock.SearchFindsEnd | src/core/http/async_client.cc:229-234 | The search for CR LF CR LF gives the same end. |
| HeaderBlock.ParseHeaders | include/core/http/response.h:264-278 | The reading loop computes the specified fields. |
| HeaderBlock.ParseLine | include/core/http/response.h:269-275 | The field of one line, its value stripped of leading spaces and a final carriage return. |
| HeaderBlock.FieldsReadBack | include/core/http/response.h:264-278 | All fields printed come back in order, whatever follows the empty line. |
| HeaderBlock.FieldSurvivesExactly | include/core/http/response.h:264-278 | A field survives printing and parsing iff its name has no colon, it has no line feed, and its value does not begin with a space. |
| HeaderBlock.ParsedIsPlain | include/core/http/response.h:264-278 | No other field can be the outcome of parsing. |
| HeaderBlock.ResponseRoundTrip | include/core/http/response.h:280-307 | Version, status and fields of a printed response come back. |
| HeaderBlock.BlockAgreement | src/core/http/file_transfer_client.cc:155-162 | Automaton, search and parser agree on the same bytes. |
| ImageReference.OfficialIsDomain | include/domain/images/helpers.h:11 | The default registry has the shape of a domain. |
| ImageReference.ResolvedIsNormal | include/domain/images/helpers.h:29-62 | Every non-empty reference resolves to a domain-shaped registry and a tag without a colon. |
| ImageReference.RoundTripExactly | include/domain/images/helpers.h:29-62 | A printed triple resolves to itself iff it is of that form. |
| ImageReference.ResolveIdempotent | include/domain/images/helpers.h:29-62 | Resolving a printed resolution changes nothing. |
| MountFlags.SplitParts | include/domain/containers/freebsd/freebsd_utils.h:173-175 | Splitting at commas loses nothing and leaves no comma. |
| MountFlags.LastSetsSnoc | include/domain/containers/freebsd/freebsd_utils.h:175-191 | One more option decides the bits it mentions and no others. |
| MountFlags.MountPointFlags | include/domain/containers/freebsd/freebsd_utils.h:170-207 | Bit b is set iff some option mentions it and the last that does sets it; a lone option is looked up whole. |
| MountFlags.LoneOptionExactly | include/domain/containers/freebsd/freebsd_utils.h:173-207 | The lone look-up agrees with a list of one iff no '=' hides an option that sets something. |
| RangeDownload.LayerDownloadTask.OnDownloadUpdate | src/core/oci/layer_download_task.cc:88-115 | An error is passed on; otherwise the start is reported once, then an update or, for a complete status, the completion. |
| RangeDownload.FileTransferClient.OnServerResponse | src/core/http/file_transfer_client.cc:169-191 | Header numbers, offset, chunk size and excess bytes are taken over in the source's order; a number that does not convert stops half-way, as the exception does. |
| RangeDownload.FileTransferClient.StoreNumbers | src/core/http/file_transfer_client.cc:171-177 | start, end and total are stored up to the first that does not convert. |
| RangeDownload.FileTransferClient.OnUnmeasuredResponse | src/core/http/file_transfer_client.cc:171-178 | A Content-Length that does not convert throws after the numbers were stored. |
| RangeRuns.OverflowExample | src/core/http/file_transfer_client.cc:373-383 | A file of 2^64 - 1 bytes and one whole reply of 2^63 + 1 of them: the second request ends before it starts. |
| RangeRuns.AddressableExactly | src/core/http/file_transfer_client.cc:373-383 | Every request of every honest run lies in the file iff the file and the chunk are not empty and no n replies, none longer than a chunk or the one before, can end short of the file where adding the last length once more reaches 2^64. |
| RangeRuns.SmallIsAddressable | src/core/http/file_transfer_client.cc:373-383 | In particular for every file whose size fits in 64 bits together with one chunk. |
| RangeRuns.PrematureExample | src/core/http/file_transfer_client.cc:349-354 | Two bytes of three, whole with their header, are reported as the complete download. |
| Replies.LookupOnly | include/core/http/response.h:135-146 | A look-up finds the one value a field name has, whatever its case and position. |
| FrameReader.OversizedExample | src/core/connections/connection.cc:21 | A payload of 1025 octets puts the reader out of step. |
| SendingQueue.ZeroWriteExample | src/core/connections/connection.cc:225-238 | One write and a completion of zero bytes: the frame waits forever. |
| SendingQueue.CutWriteExample | src/core/connections/connection.cc:225-227 | One write and a completion of one byte: the frame is popped, its rest is lost. |
| Dispatch.FirstRegistrationWins | src/core/commands/command_handler_registry.cc:11-28 | After any registrations a key finds the provider of its first registration, and nothing iff it has none. |
| AddressProvider.ReservedStay | src/domain/networking/address_provider.cc:48-55 | While nobody removes the reserved identifiers, over every run, gateway stays the first address and subnet the second, and the total counts exactly the other holders. |
| Ipv6Range.EndAddress | src/domain/networking/address_provider.cc:175-196 | End is start + 2^(128-s) modulo 2^128 unless 8 divides s, for an address of any width in place of 128 bits; the range is empty iff 8 divides s. |
| NetworkService.LeaveAgreesExactly | src/domain/networking/network_service.cc:131-157 | A leave breaks the agreement iff the container is a recorded member with two interface names, leaves the bridge, and its row is not erased. |
| NetworkService.RefusedJoinExample | src/domain/networking/network_service.cc:90-130 | The first join of a new network, refused by the handler, leaves an address taken by no member. |
| NetworkService.KeptRowExample | src/domain/networking/network_service.cc:131-157 | A leave whose row is not erased leaves a member without an address. |
| NetworkService.RememberedMemberExample | src/domain/networking/network_service.cc:20-68 | A network remembered with a member and added anew has an allocator that does not know the member. |
| Bridge.Handler.MoveInterfaceToJail | src/domain/networking/freebsd/freebsd_network_handler.cc:298-339 | Moves the interface or changes nothing; the reclaim after a name clash finds the name taken on the host. |
| Bridge.Handler.BridgeContainer | src/domain/networking/freebsd/freebsd_network_handler.cc:94-147 | All or nothing: whichever step fails, interfaces and bridge membership are as before. Success is reported exactly for an accepted order whose child is not seen to fail; then the first end is bridged and the second in the container, unless the child destroyed the pair and was then killed or exited with 0, which leaves everything as before and is reported as success all the same. |
| Bridge.LeaveRestoresExactly | src/domain/networking/freebsd/freebsd_network_handler.cc:216-237 | For every kernel state and answer, leaving takes the pair back iff the kernel releases the first end from its bridge and the second end is visible on the host again. |
| Bridge.LeaveReportsExactly | src/domain/networking/freebsd/freebsd_network_handler.cc:216-237 | For every kernel state and answer, it reports success iff the first end is released and the two names belong to different devices: removing one end of a pair takes the other along, and the second removal fails. |
| Bridge.LeaveNeverCompletes | src/domain/networking/network_service.cc:131-157 | So whatever state the kernel is in and whatever it answers, the service's leave of a recorded pair stops at the handler and frees nothing, unless the two names are visible as different devices. |
| OciPipeline.OciClient.FetchLayers | src/core/oci/oci_client.cc:388-434 | Tasks, both queues, the setup report and the first resolution; without a directory only a failure report and an empty set of tasks. |
| RangeRuns.RoundWrites | src/core/http/file_transfer_client.cc:169-191 | A request answered honestly, however cut into excess and rest, extends the sink, behind what it held before the download, to exactly the bytes up to the reply's end. |
| RangeRuns.DownloadIsExact | src/core/http/file_transfer_client.cc:169-209 | For every file, chunk size and earlier content, over every run against an honest server: the sink has gained exactly the bytes up to the offset, which is where the last reply ended; requests are contiguous from 0. Once ended, it has gained the whole file iff no reply short of the end came whole with its header, and then holds the file itself iff it was empty before. |
| RangeRuns.RequestsAreBounded | src/core/http/file_transfer_client.cc:373-383 | For every addressable download all requests lie in the file, none is longer than a chunk plus one byte, and there are no more of them than bytes. |
| RangeRuns.LeftoverExample | src/core/oci/layer_download_task.cc:49-55 | A whole download onto a file that is not empty does not leave the layer. |
| TextRuns.TextDownloadIsExact | src/core/http/file_transfer_client.cc:133-391 | From the text of the HEAD reply to the last body byte: the sink has gained the file iff no short reply came whole with its header. |
| PullContents.PullDelivers | src/core/oci/oci_client.cc:118-192 | The pipeline and the range downloads it starts, composed: over every pull no callback throws, each finished download has appended its whole layer iff none of its replies was premature, and completion is reported iff every layer has been downloaded. At any time the file of each digest holds what was there before and then the parts its downloads reached, the one under way included; only the file of a download that broke off is gone. |
| PullContents.FilesExactly | src/core/oci/layer_download_task.cc:49-55 | After a complete pull the file of a digest is the layer iff what was there before and the parts its downloads reached make up the layer; without premature replies that is iff the manifest lists it once and its file was empty before. |
| PullContents.DoubledExample | src/core/oci/oci_client.cc:405-428 | A digest listed twice, two whole downloads, a pull reported complete, and a file that is not the layer. |
| PullContents.GluedExample | src/core/oci/oci_client.cc:405-428 | A digest listed twice whose two premature downloads make up the layer. |
| Bridge.SuccessJoinsExactly | src/domain/networking/freebsd/freebsd_network_handler.cc:137-145 | An order reported as a success has joined the container to the bridge iff its child did not destroy the pair. |
| Bridge.KilledChildExample | src/domain/networking/freebsd/freebsd_network_handler.cc:206-214 | A child killed after removing the interface passes for a success with nothing on the bridge. |
| Bytes.AndBitwise | src/core/connections/connection.cc:38 | The conjunction used for the masks is the one of every bit. |
| Bytes.OrBitwise | src/core/connections/connection.cc:38 | And so is the disjunction. |
| Frames.CodesKept | include/core/connections/connection.h:35-36 | A target that is a multiple of 32 and an operation below 32 lose nothing and share the first octet as their sum. |
| FrameReader.StreamKeepsCodes | src/core/connections/connection.cc:33-212 | Reading the concatenated frames of fitting messages with such codes yields exactly these messages. |
| Dispatch.NamedAreCoded | include/core/connections/details.h:11-54 | All codes with a name are such codes. |
| OciPipeline.LayersAreAskedFor | src/core/oci/oci_client.cc:405-474 | Over every run the HEAD request in flight is for the layer whose turn it is, at registry/repository/blobs/digest; a layer never redirected is downloaded from there, any other from where its last redirect says. |
| OciPipeline.PathsDiffer | src/core/oci/oci_client.cc:414-424 | Different layers are asked for at different places. |
| OciPipeline.FailureForgets | src/core/oci/oci_client.cc:173-192 | After a failed download the failure is the last report, nothing runs, the image is forgotten, the layer stays at the front, and the tasks are dropped iff it was the only layer. |
| AddressProvider.EveryAddressIsMasked | src/domain/networking/address_provider.cc:56-70 | Over every run every address reserved, held or handed out has a netmask of p ones and 32-p zeros, as netmask + 2^(32-p) = 2^32, and the last address of the block as its broadcast address. |
| AddressProvider.FirstAddressExample | tests/networking/test_address_provider.cc:11-39 | In 172.23.0.0/16 the first fetch gives 172.23.0.2, netmask 255.255.0.0, broadcast 172.23.255.255. |
| ImageReference.PlainNameResolves | include/domain/images/helpers.h:29-62 | A name without slash and colon, and the same with a tag, resolve to index.docker.io and library/name; the tag is latest when none is given. |
| ImageReference.PathResolves | include/domain/images/helpers.h:29-62 | A name of several parts that begins with no domain resolves to index.docker.io and itself. |
| ImageReference.RegistryResolves | include/domain/images/helpers.h:29-62 | With a domain in front it resolves to that registry and the rest. |
| ImageReference.SlashInTagResolves | include/domain/images/helpers.h:42-51 | A slash in the tag takes the library prefix from a plain name. |
| ImageReference.DomainNeeds | include/domain/images/helpers.h:11 | What is taken for a domain has no dash or dot in front, only letters, digits, dashes and dots, and two to six letters behind its last dot. |
| ImageReference.DomainSuffices | include/domain/images/helpers.h:11 | A host name, any lower-case labels and a top level of two to six letters are taken for one. |
| Replies.SameIsAlike | include/core/http/response.h:32-41 | Names compare equal iff they are alike up to the case of ASCII letters. |
| Replies.HeadReplyTaken | src/core/http/file_transfer_client.cc:192-209 | For every client state, length 1 to 2^64-1 and range: the text of a reply to HEAD with Content-Length and Content-Range, in any case and among any other fields, is taken as the announcement of that length, in the unit Accept-Ranges names, or in bytes. |
| Replies.GetReplyTaken | src/core/http/file_transfer_client.cc:169-191 | The text of such a reply to GET is taken as that range and length, with the bytes behind it. |
| Replies.UnitAnnounced | include/core/http/response.h:191-202 | The unit is what Accept-Ranges says, or bytes if it is missing or says none. |
| Replies.OtherReplies | src/core/http/file_transfer_client.cc:165-168 | A reply with Location and no content is a redirect; without Location and without Content-Length or Content-Range it is ignored. |
| Replies.LineAmongLines | include/core/http/request.h:32-42 | Each field is one line: name, colon, space, value. |
| HeaderBlock.RequestReads | include/core/http/request.h:32-42 | A request reads back: the verb up to the first space, the path up to the next, the version, the fields, an empty line. |
| HeaderBlock.FirstTwoLines | include/core/http/request.h:32-37 | Host and User-Agent come first, then the headers in their order. |
| NetworkService.OrderCodes | src/domain/networking/network_service.cc:115 | The code is jp and the number of members before; different counts have different codes and interface names. |
| Bytes.BitsTell | src/core/connections/connection.cc:38 | Numbers with the same bits are the same. |
| Dispatch.KeyTexts | include/core/connections/details.h:19-60 | The texts that make up the keys. |
| Bridge.ShortKeeps | src/domain/networking/freebsd/freebsd_network_handler.cc:383-388 | Names of up to fifteen characters are used as they are, longer ones cut. |
| HeaderBlock.StatusLineErrors | include/core/http/response.h:280-306 | A first line without a space is no response; one with nothing behind the space, or of five characters or less, is ill formed, and no other. |
| Decimal.SignsRead | src/core/http/file_transfer_client.cc:174-176 | A sign is read, and a negative number is taken modulo 2^64. |
| Decimal.TooLargeThrows | src/core/http/file_transfer_client.cc:174-176 | A number of more than 64 bits throws. |
| RangeDownload.SizesWrap | src/core/http/file_transfer_client.cc:373-383 | Sizes wrap around at 2^64. |
| NetworkService.MembersAre | src/domain/networking/freebsd/freebsd_network_handler.cc:107-108 | What is recorded of a container: its two interface names, a before b, with a comma between them. |
| Replies.UnreadableText | src/core/http/file_transfer_client.cc:152-163 | A text whose first line has no space is unreadable once its empty line has come, and ignored before that. |

## Left out

- RangeDownload.FileTransferClient.OnServerResponse: does not model redirects, retries, reconnects and failed reads, which lead out of the range machine.
- RangeDownload.FileTransferClient.RequestPartialContent: does not model the text of the request, whose Range field names the recorded range, nor failed writes and reconnects.
- Replies.OnReceived: does not model what a redirect or an unreadable reply leads to. Field values that occur twice under one name are read in list order, where the unordered container of the source leaves the choice open.
- Replies.Hash: does not model characters outside the C locale's tolower, or signed characters.
- FrameReader.FrameReader.Arrive: does not model read errors and end of file; a read is assumed to transfer exactly the bytes wanted, or as many as the stream buffer holds.
- SendingQueue.Sender.OnWritten: does not model write errors, or the lifetime of the buffer an asynchronous write refers to.
- AddressProvider.AddressProvider.Initialize: requires a prefix of at most 30, because the source's loop does not return otherwise; parsing of the CIDR text and its exceptions are outside, a block is given by address and prefix.
- AddressProvider.AddressProvider.FetchNextAvailable: does not model the dotted text of addresses, netmask and broadcast, which are numbers here.
- NetworkService.NetworkService.Add: requires a prefix of at most 30, for the same reason.
- NetworkService.NetworkService.Join: does not model what follows when the source dereferences the address a full range does not give; the outcome is EmptyOptional. The repository keeps one row per container.
- Ipv6Range.EndAddress: requires a size below the width or divisible by 8, because for any other the source indexes past the sixteen octets; IPv6 allocation answers with nothing and is not modelled further.
- Bridge.Handler.BridgeContainer: does not undo when the callback that records the result fails, as the source does not; the concurrent renaming of interfaces by others is not modelled. Facts assumed of the kernel: undo calls succeed when their target is visible, destroying one end of a pair destroys both, a destroyed interface leaves its bridge, and a generated pair has unused names.
- Bridge.Handler.MoveInterfaceToJail: that an interface of a container is not reclaimed under a name taken on the host is a fact assumed of the kernel; it decides the branch after a name clash.
- Bridge.Handler.AddInterfaceToJail: does not model the child that finds its container gone and runs on in the parent's code.
- OciPipeline.OciClient.FetchLayers: does not model several images on one client and progress updates. Registry and repository belong to the identity of an image, where the source looks them up by its digest. Tasks are map entries holding their location, so sharing of task objects is not captured.
- OciPipeline.OciClient.DownloadFailure: does not model the removal of the file, which PullContents does, nor what aborting the task reports in turn when the file cannot be removed.
- PullContents.PullDelivers: does not model the start notice missing from a second download of one digest, files of different digests that share a path, and a file that is not writable. A file that was removed is an empty one.
- ImageReference.RoundTripExactly: does not model the regular-expression engine; the domain pattern is written out as a predicate.
- MountFlags.MountPointFlags: does not fix the numeric constants of the table, which belong to the operating system; a flag word is the set of its one bits.
- Sockets, TLS, name resolution, timers, uploads and the message handlers behind the registry.
- SQL, YAML, JSON, msgpack and archive handling; the repository is its interface.
- network_service::remove, and uniqueness of interface names across leaves that are not last-in first-out.
- Header maps as hash tables: fields are a sequence in the order printed.
- Build stages, terminals, jails, image import, migrations.
